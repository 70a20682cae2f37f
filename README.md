# tet: optimal alignments and character frequencies

This project models the integer core of `tet`, a library that measures text-entry
throughput. The library compares a presented phrase with what a user transcribed.

- **Minimum string distance.** `OptimalAlignments.OptimalAlignments.Msd` fills the (X+1)×(Y+1)
  matrix of edit distances of all prefix pairs in a two-dimensional array.
  It is proved to agree, cell by cell, with the recurrence `Lev`.
  `MsdUnique` shows the recurrence has exactly one solution matrix, `MsdMatrix`.
- **Optimal alignment.** `OptimalAlignments.OptimalAlignments.Alignments` walks back from
  (X, Y) to (0, 0). It follows every cost-optimal edge, in the order match,
  substitution, up, left, and every completed path overwrites the stored tracks.
  The method is proved equal to `Explore`, the same depth-first walk written as a function
  that threads the stored tracks. `ExploreIsBacktrace` then shows that the path left
  stored — the one completed last — is always the greedy walk `Backtrace`. That walk
  takes the left edge when it is optimal, else the up edge, else the diagonal one.
  So "the last path wins" is a deterministic choice among tied optimal paths.
- **Alignment facts.** The stored tracks have equal length, so the length check in the
  constructor can never fail. No cell holds a gap (`Null`) in both tracks.
  Erasing the gaps gives back the two inputs. The number of edit cells equals the distance,
  and `EditsAtLeastLev` shows no alignment of the two strings makes fewer edits, so the
  stored alignment is optimal and the distance is the minimum number of edits.
  An alignment has between max(X, Y) and X + Y cells.
- **Counts.** `N` counts aligned cell pairs that satisfy a predicate. The model covers the
  predicates behind the insertion, omission, substitution and correct-entry rates, and
  proves how their counts relate for the optimal alignment.
- **Frequencies.** `Distribution.Frequencies` is a table of character counts changed in
  place. `Record` adds an occurrence, `Retain` keeps the keys a predicate accepts, and
  `EntryChar` makes a key present at count zero. `N` is the total of all counts.
  Each method is specified by a function of the old table, and its effect on the total
  is proved.
- **Distribution.** `Distribution.Distribution.P` is the probability lookup, which
  misses exactly on absent characters.
- **Examples.** `AlignmentExamples` states the repository's own test values as lemmas:
  the "abcd"/"acbd" matrix, distance 3 for "quickly"/"qucehkly", and the nine-cell
  alignment of those two words.

Files: `wrappers.dfy` (`Option`), `distribution.dfy`, `optimal_alignments.dfy`,
`alignment_examples.dfy`.

## Model

| member | source | states |
|---|---|---|
| OptimalAlignments.R | src/optimal_alignments.rs:68-70 | the substitution cost is 0 exactly when the characters are equal, and at most 1 |
| OptimalAlignments.Min3 | src/optimal_alignments.rs:90-99 | the first of the sorted candidates is at most each candidate and is one of them |
| OptimalAlignments.Lev | src/optimal_alignments.rs:80-100 | (no ensures) the recurrence the three loops compute: the first row and column are the prefix lengths, every inner entry the least of up+1, left+1 and diagonal plus the substitution cost; `MsdIsLev`, `EditsAtLeastLev` and `BacktraceCost` state what it means |
| OptimalAlignments.MsdMatrix | src/optimal_alignments.rs:72-78 | the distance matrix has X+1 rows of Y+1 entries |
| OptimalAlignments.MsdIsLev | src/optimal_alignments.rs:80-101 | every entry of a matrix with the boundary values and the three-candidate recurrence is the edit distance of its prefixes |
| OptimalAlignments.MsdUnique | src/optimal_alignments.rs:67-104 | a matrix satisfies the boundary values and the recurrence exactly when it is the matrix of prefix distances |
| OptimalAlignments.LevStepAgrees | src/optimal_alignments.rs:88-100 | an inner entry is determined by its three predecessors and the two characters it compares |
| OptimalAlignments.LevDropPresented | src/optimal_alignments.rs:88-100 | the distance of prefixes that stop short of the last presented character does not depend on that character |
| OptimalAlignments.LevDropTranscribed | src/optimal_alignments.rs:88-100 | the distance of prefixes that stop short of the last transcribed character does not depend on that character |
| OptimalAlignments.LevOmitLast | src/optimal_alignments.rs:91 | the distance is at most one more than that of the strings without the last presented character |
| OptimalAlignments.LevInsertLast | src/optimal_alignments.rs:92 | the distance is at most one more than that of the strings without the last transcribed character |
| OptimalAlignments.LevDiagonalLast | src/optimal_alignments.rs:93-96 | the distance is at most the substitution cost of the two last characters more than that of the strings without them |
| OptimalAlignments.OptimalAlignments.Msd | src/optimal_alignments.rs:67-104 | returns a fresh (X+1)×(Y+1) array whose first column is i, first row is j, every inner cell the least of up+1, left+1 and diagonal+cost, i.e. the edit distance of the prefixes |
| OptimalAlignments.Snapshot | src/optimal_alignments.rs:72-78 | the value of the array has its dimensions and its entries |
| OptimalAlignments.SnapshotIsMsd | src/optimal_alignments.rs:80-101 | an array holding the prefix distances satisfies the recurrence |
| OptimalAlignments.MatchEdge | src/optimal_alignments.rs:125-126 | (no ensures) the guard of the match branch: the diagonal entry equals the current one and the two characters are equal |
| OptimalAlignments.SubstitutionEdge | src/optimal_alignments.rs:125-135 | (no ensures) the guard of the substitution branch: the current entry is one more than the diagonal one |
| OptimalAlignments.UpEdge | src/optimal_alignments.rs:145 | (no ensures) the guard of the omission branch: the current entry is one more than the one above |
| OptimalAlignments.LeftEdge | src/optimal_alignments.rs:154 | (no ensures) the guard of the insertion branch: the current entry is one more than the one to the left |
| OptimalAlignments.Explore | src/optimal_alignments.rs:107-164 | (no ensures) the recursion of `alignments` as a function: the four guarded branches in source order, each prepending one cell, with the stored tracks threaded through and overwritten at (0, 0); `Alignments` is proved equal to it and `ExploreIsBacktrace` states its result |
| OptimalAlignments.OptimalAlignments.Alignments | src/optimal_alignments.rs:107-164 | the stored tracks afterwards are those of the depth-first walk over the optimal edges in the order match, substitution, up, left, completed last; nothing else changes |
| OptimalAlignments.ExploreIsBacktrace | src/optimal_alignments.rs:118-161 | whatever was stored before, the last completed path is the greedy walk (left edge first, then up, then diagonal) prepended to the cells already walked |
| OptimalAlignments.SomeEdgeApplies | src/optimal_alignments.rs:125-161 | from every cell other than (0,0) some optimal edge leads back, the match and substitution edges never both apply, and a substitution edge lines up different characters |
| OptimalAlignments.Backtrace | src/optimal_alignments.rs:118-161 | the greedy walk yields two tracks of equal length |
| OptimalAlignments.BacktraceAligns | src/optimal_alignments.rs:118-161 | the walk from (x, y) aligns the first x presented with the first y transcribed characters: equal lengths, no gap over a gap, and erasing the gaps gives back both prefixes |
| OptimalAlignments.AlignsExtend | src/optimal_alignments.rs:127-157 | adding a cell that is not a gap over a gap keeps an alignment an alignment of the extended strings |
| OptimalAlignments.EraseExtend | src/optimal_alignments.rs:127-157 | erasing a track extended by a cell adds that cell's character, if any |
| OptimalAlignments.BacktraceCost | src/optimal_alignments.rs:118-161 | the number of insertion, omission and substitution cells on the walk equals the distance in its starting cell |
| OptimalAlignments.AlignsDropLast | src/optimal_alignments.rs:127-157 | an alignment with its last cell taken off aligns the strings without that cell's characters |
| OptimalAlignments.EditStep | src/optimal_alignments.rs:88-100 | adding one cell to an alignment adds at least as many edits as the distance grows by |
| OptimalAlignments.EditsAtLeastLev | src/optimal_alignments.rs:67-104 | every alignment of the two strings makes at least as many insertions, omissions and substitutions as their distance, so the distance is the minimum number of edits |
| OptimalAlignments.BacktraceOptimal | src/optimal_alignments.rs:106-164 | the stored alignment makes no more edits than any other alignment of the same two strings |
| OptimalAlignments.AlignmentLength | src/optimal_alignments.rs:55-58 | an alignment of p with t has between max(len(p), len(t)) and len(p) + len(t) cells |
| OptimalAlignments.OptimalAlignments.constructor | src/optimal_alignments.rs:25-64 | the stored tracks are the greedy walk from (X, Y) over the distance matrix; they align the two inputs; the length check always passes and len is their common length |
| OptimalAlignments.OptimalAlignments.N | src/optimal_alignments.rs:166-179 | the counter is the number of cell pairs, zipped up to the shorter track, that satisfy f |
| OptimalAlignments.CountUpTo | src/optimal_alignments.rs:168-178 | (no ensures) the number of the first n zipped cell pairs that satisfy f; the loop invariant of `N` |
| OptimalAlignments.Count | src/optimal_alignments.rs:167-179 | (no ensures) the number of cell pairs, zipped up to the shorter track, that satisfy f; the result `N` is proved to return |
| OptimalAlignments.IsInsertion | src/optimal_alignments.rs:306-308 | (no ensures) a gap over a character, the closure counted by the insertion rate |
| OptimalAlignments.IsOmission | src/optimal_alignments.rs:316-318 | (no ensures) a character over a gap, the closure counted by the omission rate |
| OptimalAlignments.IsSubstitution | src/optimal_alignments.rs:327-329 | (no ensures) two different characters, the closure counted by the substitution rate |
| OptimalAlignments.IsCorrect | src/optimal_alignments.rs:338-340 | (no ensures) two equal characters, the closure counted by the correct-entry rate |
| OptimalAlignments.PresentedIsSymbol | src/optimal_alignments.rs:321 | (no ensures) a presented character, the closure counted by the denominator of the omission, substitution and correct-entry rates |
| OptimalAlignments.PresentedIsNull | src/optimal_alignments.rs:191 | (no ensures) a presented gap, the closure counted by the gap probability |
| OptimalAlignments.CountUpToPrefix | src/optimal_alignments.rs:170-176 | counting the first n pairs depends only on those pairs |
| OptimalAlignments.CountExtend | src/optimal_alignments.rs:170-176 | counting an extended alignment adds one exactly when the new cell satisfies f |
| OptimalAlignments.CountBound | src/optimal_alignments.rs:170-176 | a count over n pairs is at most n |
| OptimalAlignments.PresentedSymbolPartition | src/optimal_alignments.rs:314-345 | omissions, substitutions and correct entries together are the cells whose presented side is a character (the denominator of those three rates) |
| OptimalAlignments.InsertionComplement | src/optimal_alignments.rs:189-193 | without a gap-over-gap cell, insertions plus presented characters fill the alignment, and cells with a presented gap are exactly the insertions |
| OptimalAlignments.InsertionBound | src/optimal_alignments.rs:304-312 | insertions are at most the cells whose transcribed side is a character |
| OptimalAlignments.ErasedLength | src/optimal_alignments.rs:304-345 | the erased presented track is as long as the count of presented characters, and likewise for the transcribed track |
| OptimalAlignments.EditPartition | src/optimal_alignments.rs:304-334 | edit cells are counted as insertions plus omissions plus substitutions |
| OptimalAlignments.OptimalAlignmentCounts | src/optimal_alignments.rs:304-345 | for the stored alignment, insertions + omissions + substitutions is the minimum string distance, presented characters number len(p) and split into omissions, substitutions and correct entries, insertions + len(p) is len, presented gaps are the insertions |
| AlignmentExamples.AbcdMatrixIsMsd | src/optimal_alignments.rs:356-362 | the expected "abcd"/"acbd" matrix satisfies the boundary values and the recurrence |
| AlignmentExamples.MsdAbcdAcbd | src/optimal_alignments.rs:354-364 | the distance matrix of "abcd" and "acbd" is the expected one |
| AlignmentExamples.MsdAbcdAcbdArray | src/optimal_alignments.rs:354-364 | the array `Msd` fills for "abcd" and "acbd" holds the expected matrix |
| AlignmentExamples.QuicklyMatrixIsMsd | src/optimal_alignments.rs:366-367 | the "quickly"/"qucehkly" matrix satisfies the boundary values and the recurrence |
| AlignmentExamples.MsdQuicklyQucehkly | src/optimal_alignments.rs:366-367 | entry [7][8] of the "quickly"/"qucehkly" matrix, their distance, is 3 |
| AlignmentExamples.AlignQuicklyQucehkly | src/optimal_alignments.rs:371-405 | the greedy walk for "quickly"/"qucehkly" gives q,u,i,c,-,-,k,l,y over q,u,-,c,e,h,k,l,y |
| AlignmentExamples.AlignQuicklyQucehklyObject | src/optimal_alignments.rs:371-405 | the alignment object for "quickly"/"qucehkly" stores those two tracks, with len 9 |
| Distribution.MinKey | src/distribution.rs:33-35 | a non-empty table has a key no greater than any other (the fold order of the total) |
| Distribution.Total | src/distribution.rs:33-35 | (no ensures) the sum of all counts, taken in key order; `TotalRemove` shows any key can be taken out first, so the order does not matter |
| Distribution.TotalRemove | src/distribution.rs:33-35 | taking any key out of a table takes exactly its count out of the total |
| Distribution.TotalZeroIff | src/distribution.rs:33-35 | the total is zero exactly when every count is zero |
| Distribution.CountAtMostTotal | src/distribution.rs:33-35 | no count exceeds the total |
| Distribution.Recorded | src/distribution.rs:25-31 | recording c makes c a key, adds one to its count or starts it at one, and leaves every other key unchanged |
| Distribution.TotalRecorded | src/distribution.rs:25-35 | recording raises the total by exactly one |
| Distribution.Retained | src/distribution.rs:37-39 | the kept keys are exactly the old keys that satisfy the predicate, with their old counts |
| Distribution.TotalRetained | src/distribution.rs:33-39 | retaining never raises the total |
| Distribution.Entered | src/distribution.rs:41-45 | entering c makes c a key; an existing table is unchanged, an absent c starts at zero, no other key changes |
| Distribution.TotalEntered | src/distribution.rs:33-45 | entering a character never changes the total |
| Distribution.EnteredIdempotent | src/distribution.rs:41-45 | entering a character twice is the same as entering it once |
| Distribution.PositiveCounts | src/distribution.rs:25-45 | recording and retaining keep all counts positive; entering an absent character breaks that |
| Distribution.Frequencies.constructor | src/distribution.rs:14-18 | a new table is empty and its total is 0 |
| Distribution.Frequencies.WithMap | src/distribution.rs:20-22 | the table holds exactly the given counts |
| Distribution.Frequencies.N | src/distribution.rs:33-35 | the total is at least every count, and zero exactly when every count is zero |
| Distribution.Frequencies.Record | src/distribution.rs:25-31 | the new table is the old one with one more occurrence of c; the total grows by one |
| Distribution.Frequencies.Retain | src/distribution.rs:37-39 | the new table is the old one restricted to the keys that satisfy the predicate; the total does not grow |
| Distribution.Frequencies.EntryChar | src/distribution.rs:41-45 | the new table is the old one with c present (at zero if it was absent); the total is unchanged |
| Distribution.Distribution.P | src/distribution.rs:74-76 | the lookup misses exactly when the character is absent, and otherwise returns its stored probability |

## Left out

- Every floating-point computation is left out: the rate functions (`insertion_probability`, `omission_probability`, `substitution_probability`, `probability_of_correct_entries`), `p`, `p_null`, `p_dash`, `p_i_j`, `pij`, `p_j_i`, `hyx`, `ixy`, `Distribution::new` and `Distribution::hx`. The model covers the integer counts they are built from, not the divisions and logarithms.
- The `p_null` field and the `distribution` reference of the alignment object are left out, since only the floating-point code reads them.
- `len` of the alignment object is the field itself; its accessor adds nothing.
- `Element::is_null` is Dafny's `Null?` test.
- `usize` and `u128` become unbounded `nat`. `Record` does not model overflow of a `u128` count, and `Msd` does not model the `u128` entries overflowing, which inputs shorter than 2^128 characters cannot cause.
- Strings are sequences of Unicode scalar values (`seq<char>`); the model has no `&str` byte layout or `chars()` decoding.
- `HashMap` iteration order is not modelled. `Frequencies.N` sums in key order, which gives the same total as any order.
- `Distribution.Distribution.P`: probabilities are Dafny `real` values standing in for `f64`. The lookup only returns a stored value, so no rounding arises.
- The serde derives and `Debug`/`Clone`/`PartialEq` impls are left out.
- `src/lib.rs` (throughput from mutual information and elapsed time) is not part of this model.
- The third test's long sentence pair ("my watch fell in the waterprevailing …") is left out. Its 56×49 matrix is too large to state cell by cell, and the rates it checks are floating-point.
- The mutable borrow of the matrix in `alignments` is modelled as a read-only array, because the source never writes to it.
- The running time of the recursive walk, which can be exponential in the number of tied optimal paths, is not modelled.
- A table built only by `record` has every count at least one; `with_map` and `entry_char` can introduce a count of zero. `PositiveCounts` states where the positive-count property holds and where it breaks.
