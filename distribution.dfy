/**
  Character frequencies and the character distribution built from them.

  `Frequencies` is a character-to-count table that is changed in place by
  `Record`, `Retain` and `EntryChar`; `N` is the total of all counts.
  `Distribution` is the read-only table of per-character probabilities; of
  its operations only the point lookup `P` does no floating-point arithmetic,
  and it is the one modelled here.
 */
module Distribution {
  import opened Wrappers

  // ---------------------------------------------------------------------------
  // The total of a count table
  // ---------------------------------------------------------------------------

  /** The smallest key of a non-empty table exists. */
  lemma {:induction false} MinKeyExists(keys: set<char>)
    requires keys != {}
    ensures exists k :: k in keys && forall j | j in keys :: k <= j
    decreases |keys|
  {
    var x :| x in keys;
    if keys != {x} {
      var rest := keys - {x};
      MinKeyExists(rest);
      var k :| k in rest && forall j | j in rest :: k <= j;
      var m := if x < k then x else k;
      forall j | j in keys ensures m <= j {
        if j != x { assert j in rest; }
      }
    }
  }

  /** The smallest key of a non-empty table. */
  function MinKey(m: map<char, nat>): (k: char)
    requires m != map[]
    ensures k in m && forall j | j in m :: k <= j
  {
    assert m.Keys != {};
    MinKeyExists(m.Keys);
    var k :| k in m && forall j | j in m :: k <= j;
    k
  }

  /** The sum of all counts of a table (the fold behind `Frequencies::n`). */
  function Total(m: map<char, nat>): nat
    decreases |m|
  {
    if m == map[] then 0
    else
      var k := MinKey(m);
      m[k] + Total(m - {k})
  }

  /** Taking any one key out of a table takes exactly its count out of the total. */
  lemma {:induction false} TotalRemove(m: map<char, nat>, c: char)
    requires c in m
    ensures Total(m) == m[c] + Total(m - {c})
    decreases |m|
  {
    var k := MinKey(m);
    if k != c {
      var rest := m - {k};
      assert |rest| < |m|;
      TotalRemove(rest, c);
      var other := m - {c};
      assert other != map[] by { assert k in other; }
      assert MinKey(other) == k;
      assert rest - {c} == other - {k};
    }
  }

  /** The total is zero exactly when every count is zero. */
  lemma {:induction false} TotalZeroIff(m: map<char, nat>)
    ensures Total(m) == 0 <==> forall c | c in m :: m[c] == 0
    decreases |m|
  {
    if m != map[] {
      var k := MinKey(m);
      TotalZeroIff(m - {k});
      if Total(m) == 0 {
        forall c | c in m ensures m[c] == 0 {
          if c != k { assert c in m - {k}; }
        }
      }
    }
  }

  /** No single count exceeds the total. */
  lemma CountAtMostTotal(m: map<char, nat>, c: char)
    requires c in m
    ensures m[c] <= Total(m)
  {
    TotalRemove(m, c);
  }

  // ---------------------------------------------------------------------------
  // The three in-place updates, as functions of the old table
  // ---------------------------------------------------------------------------

  /** The table after one more occurrence of `c` (`Frequencies::record`). */
  function Recorded(m: map<char, nat>, c: char): (r: map<char, nat>)
    ensures r.Keys == m.Keys + {c}
    ensures c in m ==> r[c] == m[c] + 1
    ensures c !in m ==> r[c] == 1
    ensures forall k | k in m && k != c :: r[k] == m[k]
  {
    if c in m then m[c := m[c] + 1] else m[c := 1]
  }

  /** The table restricted to the keys that satisfy `keep` (`Frequencies::retain`). */
  function Retained(m: map<char, nat>, keep: char -> bool): (r: map<char, nat>)
    ensures forall k :: k in r <==> k in m && keep(k)
    ensures forall k | k in r :: r[k] == m[k]
  {
    map k | k in m && keep(k) :: m[k]
  }

  /** The table with `c` present, added at count zero if it was absent (`Frequencies::entry_char`). */
  function Entered(m: map<char, nat>, c: char): (r: map<char, nat>)
    ensures r.Keys == m.Keys + {c}
    ensures c in m ==> r == m
    ensures c !in m ==> r[c] == 0
    ensures forall k | k in m :: r[k] == m[k]
  {
    if c in m then m else m[c := 0]
  }

  /** Recording an occurrence raises the total by exactly one. */
  lemma {:induction false} TotalRecorded(m: map<char, nat>, c: char)
    ensures Total(Recorded(m, c)) == Total(m) + 1
  {
    var r := Recorded(m, c);
    TotalRemove(r, c);
    if c in m {
      TotalRemove(m, c);
      assert r - {c} == m - {c};
    } else {
      assert r - {c} == m;
    }
  }

  /** Entering a character never changes the total. */
  lemma {:induction false} TotalEntered(m: map<char, nat>, c: char)
    ensures Total(Entered(m, c)) == Total(m)
  {
    if c !in m {
      var r := Entered(m, c);
      TotalRemove(r, c);
      assert r - {c} == m;
    }
  }

  /** Entering a character twice is the same as entering it once. */
  lemma EnteredIdempotent(m: map<char, nat>, c: char)
    ensures Entered(Entered(m, c), c) == Entered(m, c)
  {
  }

  /** Retaining keys never raises the total. */
  lemma {:induction false} TotalRetained(m: map<char, nat>, keep: char -> bool)
    ensures Total(Retained(m, keep)) <= Total(m)
    decreases |m|
  {
    if m != map[] {
      var c := MinKey(m);
      var r := Retained(m, keep);
      var rest := m - {c};
      TotalRetained(rest, keep);
      TotalRemove(m, c);
      if keep(c) {
        TotalRemove(r, c);
        assert r - {c} == Retained(rest, keep);
      } else {
        assert r == Retained(rest, keep);
      }
    }
  }

  /** A table whose counts are all at least one (a table built by `Record` alone). */
  predicate AllPositive(m: map<char, nat>)
  {
    forall c | c in m :: m[c] >= 1
  }

  /** `Record` and `Retain` keep every count positive; `EntryChar` on a new key does not. */
  lemma PositiveCounts(m: map<char, nat>, c: char, keep: char -> bool)
    ensures AllPositive(m) ==> AllPositive(Recorded(m, c)) && AllPositive(Retained(m, keep))
    ensures c !in m ==> !AllPositive(Entered(m, c))
  {
  }

  // ---------------------------------------------------------------------------
  // Frequencies
  // ---------------------------------------------------------------------------

  /** Occurrence counts of characters; `counts` is the source's `map` field. */
  class Frequencies {
    var counts: map<char, nat>

    /** An empty table. */
    constructor ()
      ensures counts == map[] && N() == 0
    {
      counts := map[];
    }

    /** A table with the given counts. */
    constructor WithMap(m: map<char, nat>)
      ensures counts == m
    {
      counts := m;
    }

    /** The total number of recorded occurrences. */
    function N(): (n: nat)
      reads this
      ensures forall c | c in counts :: counts[c] <= n
      ensures n == 0 <==> forall c | c in counts :: counts[c] == 0
    {
      TotalZeroIff(counts);
      forall c | c in counts ensures counts[c] <= Total(counts) {
        CountAtMostTotal(counts, c);
      }
      Total(counts)
    }

    /** Records one occurrence of `c`. */
    method Record(c: char)
      modifies this
      ensures counts == Recorded(old(counts), c)
      ensures N() == old(N()) + 1
    {
      TotalRecorded(counts, c);
      if c in counts {
        counts := counts[c := counts[c] + 1];
      } else {
        counts := counts[c := 1];
      }
    }

    /** Keeps exactly the characters that satisfy `keep`. */
    method Retain(keep: char -> bool)
      modifies this
      ensures counts == Retained(old(counts), keep)
      ensures N() <= old(N())
    {
      TotalRetained(counts, keep);
      counts := map k | k in counts && keep(k) :: counts[k];
    }

    /** Makes `c` a key, at count zero if it was not one already. */
    method EntryChar(c: char)
      modifies this
      ensures counts == Entered(old(counts), c)
      ensures N() == old(N())
    {
      TotalEntered(counts, c);
      if c !in counts {
        counts := counts[c := 0];
      }
    }
  }

  // ---------------------------------------------------------------------------
  // Distribution
  // ---------------------------------------------------------------------------

  /** Per-character probabilities; only the lookup is modelled. */
  datatype Distribution = Distribution(probabilities: map<char, real>)
  {
    /** The probability of `c`, or `None` when `c` is not in the distribution. */
    function P(c: char): (r: Option<real>)
      ensures r.None? <==> c !in probabilities
      ensures r.Some? ==> r.value == probabilities[c]
    {
      if c in probabilities then Some(probabilities[c]) else None
    }
  }
}
