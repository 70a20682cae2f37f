/**
  Minimum string distance and the optimal alignment of a presented string
  with its transcription.

  `Lev` is the minimum-string-distance recurrence; `OptimalAlignments.Msd`
  fills the (X+1)×(Y+1) matrix of it in place. `OptimalAlignments.Alignments`
  walks back from (X, Y) to (0, 0) along every cost-optimal edge and stores
  the path it completed last; `Explore` is that walk as a function, and
  `Backtrace` is the greedy walk it always equals. `Count` is the number of
  aligned cells that satisfy a predicate; the four error rates are built from
  the counts of `IsInsertion`, `IsOmission`, `IsSubstitution`, `IsCorrect` and
  `PresentedIsSymbol`.
 */
module OptimalAlignments {

  /** One cell of an aligned track: a character or the gap placeholder. */
  datatype Element = Character(c: char) | Null

  /** Two aligned tracks, presented above transcribed. */
  datatype Alignment = Alignment(presented: seq<Element>, transcribed: seq<Element>)
  {
    /** Adds one aligned cell at the end of both tracks. */
    function Extend(p: Element, t: Element): Alignment
    {
      Alignment(presented + [p], transcribed + [t])
    }

    /**
      The tracks align `p` with `t`: they have equal length, no cell holds a
      gap in both tracks, and erasing the gaps gives back `p` and `t`.
     */
    predicate Aligns(p: seq<char>, t: seq<char>)
    {
      && |presented| == |transcribed|
      && (forall k | 0 <= k < |presented| :: !(presented[k].Null? && transcribed[k].Null?))
      && Erase(presented) == p
      && Erase(transcribed) == t
    }
  }

  /** The characters of a track with its gaps left out. */
  function Erase(s: seq<Element>): seq<char>
  {
    if s == [] then []
    else
      var last := s[|s| - 1];
      Erase(s[..|s| - 1]) + (if last.Character? then [last.c] else [])
  }

  lemma EraseExtend(s: seq<Element>, e: Element)
    ensures Erase(s + [e]) == Erase(s) + (if e.Character? then [e.c] else [])
  {
    assert (s + [e])[..|s|] == s;
  }

  // ---------------------------------------------------------------------------
  // Minimum string distance
  // ---------------------------------------------------------------------------

  /** The substitution cost of two characters. */
  function R(x: char, y: char): (r: nat)
    ensures r == 0 <==> x == y
    ensures r <= 1
  {
    if x == y then 0 else 1
  }

  function Min3(a: nat, b: nat, c: nat): (m: nat)
    ensures m <= a && m <= b && m <= c
    ensures m == a || m == b || m == c
  {
    if a <= b && a <= c then a else if b <= c then b else c
  }

  /** The minimum string distance of the prefixes `p[..i]` and `t[..j]`. */
  ghost function Lev(p: seq<char>, t: seq<char>, i: nat, j: nat): nat
    requires i <= |p| && j <= |t|
    decreases i + j
  {
    if i == 0 then j
    else if j == 0 then i
    else Min3(Lev(p, t, i - 1, j) + 1, Lev(p, t, i, j - 1) + 1, Lev(p, t, i - 1, j - 1) + R(p[i - 1], t[j - 1]))
  }

  /** `d` has |p| + 1 rows of |t| + 1 entries. */
  ghost predicate IsMatrix(d: seq<seq<nat>>, p: seq<char>, t: seq<char>)
  {
    |d| == |p| + 1 && forall i | 0 <= i < |d| :: |d[i]| == |t| + 1
  }

  /** Entry (i, j) of `d` is the least of the three ways into it. */
  ghost predicate CellOk(d: seq<seq<nat>>, p: seq<char>, t: seq<char>, i: nat, j: nat)
    requires IsMatrix(d, p, t) && 1 <= i <= |p| && 1 <= j <= |t|
  {
    d[i][j] == Min3(d[i - 1][j] + 1, d[i][j - 1] + 1, d[i - 1][j - 1] + R(p[i - 1], t[j - 1]))
  }

  /** `d` is the minimum-string-distance matrix of `p` and `t`. */
  ghost predicate IsMsd(d: seq<seq<nat>>, p: seq<char>, t: seq<char>)
  {
    && IsMatrix(d, p, t)
    && (forall i | 0 <= i <= |p| :: d[i][0] == i)
    && (forall j | 0 <= j <= |t| :: d[0][j] == j)
    && (forall i, j | 1 <= i <= |p| && 1 <= j <= |t| :: CellOk(d, p, t, i, j))
  }

  /** The matrix whose entries are the distances of all prefix pairs. */
  ghost function MsdMatrix(p: seq<char>, t: seq<char>): (d: seq<seq<nat>>)
    ensures IsMatrix(d, p, t)
  {
    seq(|p| + 1, i requires 0 <= i <= |p| => seq(|t| + 1, j requires 0 <= j <= |t| => Lev(p, t, i, j)))
  }

  /** Every entry of a minimum-string-distance matrix is the distance of its prefixes. */
  lemma {:induction false} MsdIsLev(d: seq<seq<nat>>, p: seq<char>, t: seq<char>, i: nat, j: nat)
    requires IsMsd(d, p, t) && i <= |p| && j <= |t|
    ensures d[i][j] == Lev(p, t, i, j)
    decreases i + j
  {
    if i == 0 {
      assert d[0][j] == j;
    } else if j == 0 {
      assert d[i][0] == i;
    } else {
      assert CellOk(d, p, t, i, j);
      MsdIsLev(d, p, t, i - 1, j);
      MsdIsLev(d, p, t, i, j - 1);
      MsdIsLev(d, p, t, i - 1, j - 1);
    }
  }

  /** The recurrence has exactly one solution: the matrix of prefix distances. */
  lemma MsdUnique(d: seq<seq<nat>>, p: seq<char>, t: seq<char>)
    ensures IsMsd(d, p, t) <==> d == MsdMatrix(p, t)
  {
    var m := MsdMatrix(p, t);
    forall i, j | 1 <= i <= |p| && 1 <= j <= |t| ensures CellOk(m, p, t, i, j) {
    }
    assert IsMsd(m, p, t);
    if IsMsd(d, p, t) {
      forall i | 0 <= i <= |p| ensures d[i] == m[i] {
        forall j | 0 <= j <= |t| ensures d[i][j] == m[i][j] {
          MsdIsLev(d, p, t, i, j);
        }
      }
    }
  }

  // ---------------------------------------------------------------------------
  // The backtrace as the source performs it, and the greedy walk it equals
  // ---------------------------------------------------------------------------

  /** The diagonal edge into (x, y) is optimal and lines up two equal characters. */
  ghost predicate MatchEdge(d: seq<seq<nat>>, p: seq<char>, t: seq<char>, x: nat, y: nat)
    requires IsMatrix(d, p, t) && x <= |p| && y <= |t|
  {
    x > 0 && y > 0 && d[x][y] == d[x - 1][y - 1] && p[x - 1] == t[y - 1]
  }

  /** The diagonal edge into (x, y) is optimal at cost one. */
  ghost predicate SubstitutionEdge(d: seq<seq<nat>>, p: seq<char>, t: seq<char>, x: nat, y: nat)
    requires IsMatrix(d, p, t) && x <= |p| && y <= |t|
  {
    x > 0 && y > 0 && d[x][y] == d[x - 1][y - 1] + 1
  }

  /** The edge from (x-1, y) into (x, y) is optimal: `p[x-1]` was omitted. */
  ghost predicate UpEdge(d: seq<seq<nat>>, p: seq<char>, t: seq<char>, x: nat, y: nat)
    requires IsMatrix(d, p, t) && x <= |p| && y <= |t|
  {
    x > 0 && d[x][y] == d[x - 1][y] + 1
  }

  /** The edge from (x, y-1) into (x, y) is optimal: `t[y-1]` was inserted. */
  ghost predicate LeftEdge(d: seq<seq<nat>>, p: seq<char>, t: seq<char>, x: nat, y: nat)
    requires IsMatrix(d, p, t) && x <= |p| && y <= |t|
  {
    y > 0 && d[x][y] == d[x][y - 1] + 1
  }

  /**
    The depth-first walk of every optimal edge of `d`, in the order match,
    substitution, up, left, with `pa` and `ta` the cells already walked and
    `stored` the tracks stored so far: every time (0, 0) is reached the stored
    tracks are overwritten, so the result is the path completed last.
   */
  ghost function Explore(d: seq<seq<nat>>, p: seq<char>, t: seq<char>, x: nat, y: nat,
                         pa: seq<Element>, ta: seq<Element>, stored: Alignment): Alignment
    requires IsMatrix(d, p, t) && x <= |p| && y <= |t|
    decreases x + y
  {
    if x == 0 && y == 0 then Alignment(pa, ta)
    else
      var s1 := if MatchEdge(d, p, t, x, y)
        then Explore(d, p, t, x - 1, y - 1, [Character(p[x - 1])] + pa, [Character(t[y - 1])] + ta, stored)
        else stored;
      var s2 := if SubstitutionEdge(d, p, t, x, y)
        then Explore(d, p, t, x - 1, y - 1, [Character(p[x - 1])] + pa, [Character(t[y - 1])] + ta, s1)
        else s1;
      var s3 := if UpEdge(d, p, t, x, y)
        then Explore(d, p, t, x - 1, y, [Character(p[x - 1])] + pa, [Null] + ta, s2)
        else s2;
      if LeftEdge(d, p, t, x, y)
      then Explore(d, p, t, x, y - 1, [Null] + pa, [Character(t[y - 1])] + ta, s3)
      else s3
  }

  /**
    The greedy walk back from (x, y): take the left edge if it is optimal,
    else the up edge, else the diagonal one.
   */
  ghost function Backtrace(d: seq<seq<nat>>, p: seq<char>, t: seq<char>, x: nat, y: nat): (a: Alignment)
    requires IsMsd(d, p, t) && x <= |p| && y <= |t|
    ensures |a.presented| == |a.transcribed|
    decreases x + y
  {
    if x == 0 && y == 0 then Alignment([], [])
    else if LeftEdge(d, p, t, x, y) then Backtrace(d, p, t, x, y - 1).Extend(Null, Character(t[y - 1]))
    else if UpEdge(d, p, t, x, y) then Backtrace(d, p, t, x - 1, y).Extend(Character(p[x - 1]), Null)
    else if x > 0 && y > 0 then Backtrace(d, p, t, x - 1, y - 1).Extend(Character(p[x - 1]), Character(t[y - 1]))
    else assert false; Alignment([], [])
  }

  /** Adding one cell that is not a gap over a gap keeps an alignment an alignment. */
  lemma AlignsExtend(g: Alignment, p: seq<char>, t: seq<char>, e: Element, u: Element)
    requires g.Aligns(p, t) && !(e.Null? && u.Null?)
    ensures g.Extend(e, u).Aligns(p + (if e.Character? then [e.c] else []), t + (if u.Character? then [u.c] else []))
  {
    EraseExtend(g.presented, e);
    EraseExtend(g.transcribed, u);
  }

  /** The greedy walk from (x, y) aligns `p[..x]` with `t[..y]`. */
  lemma {:induction false} BacktraceAligns(d: seq<seq<nat>>, p: seq<char>, t: seq<char>, x: nat, y: nat)
    requires IsMsd(d, p, t) && x <= |p| && y <= |t|
    ensures Backtrace(d, p, t, x, y).Aligns(p[..x], t[..y])
    decreases x + y
  {
    if x == 0 && y == 0 {
      assert Backtrace(d, p, t, x, y) == Alignment([], []);
    } else {
      var x', y', e, u;
      if LeftEdge(d, p, t, x, y) {
        x', y', e, u := x, y - 1, Null, Character(t[y - 1]);
        assert t[..y] == t[..y'] + [t[y - 1]];
      } else if UpEdge(d, p, t, x, y) {
        x', y', e, u := x - 1, y, Character(p[x - 1]), Null;
        assert p[..x] == p[..x'] + [p[x - 1]];
      } else {
        SomeEdgeApplies(d, p, t, x, y);
        x', y', e, u := x - 1, y - 1, Character(p[x - 1]), Character(t[y - 1]);
        assert p[..x] == p[..x'] + [p[x - 1]];
        assert t[..y] == t[..y'] + [t[y - 1]];
      }
      var b := Backtrace(d, p, t, x', y');
      assert Backtrace(d, p, t, x, y) == b.Extend(e, u);
      BacktraceAligns(d, p, t, x', y');
      AlignsExtend(b, p[..x'], t[..y'], e, u);
    }
  }

  /**
    Some optimal edge leads into every cell other than (0, 0); the two
    diagonal edges exclude each other, and a substitution edge never lines up
    equal characters.
   */
  lemma SomeEdgeApplies(d: seq<seq<nat>>, p: seq<char>, t: seq<char>, x: nat, y: nat)
    requires IsMsd(d, p, t) && x <= |p| && y <= |t|
    requires x > 0 || y > 0
    ensures MatchEdge(d, p, t, x, y) || SubstitutionEdge(d, p, t, x, y) || UpEdge(d, p, t, x, y) || LeftEdge(d, p, t, x, y)
    ensures !(MatchEdge(d, p, t, x, y) && SubstitutionEdge(d, p, t, x, y))
    ensures SubstitutionEdge(d, p, t, x, y) ==> p[x - 1] != t[y - 1]
  {
    if x > 0 && y > 0 {
      assert CellOk(d, p, t, x, y);
    }
  }

  /**
    The depth-first walk always stores the greedy walk, prepended to the cells
    already walked, whatever was stored before.
   */
  lemma {:induction false} ExploreIsBacktrace(d: seq<seq<nat>>, p: seq<char>, t: seq<char>, x: nat, y: nat,
                                              pa: seq<Element>, ta: seq<Element>, stored: Alignment)
    requires IsMsd(d, p, t) && x <= |p| && y <= |t|
    ensures Explore(d, p, t, x, y, pa, ta, stored)
         == Alignment(Backtrace(d, p, t, x, y).presented + pa, Backtrace(d, p, t, x, y).transcribed + ta)
    decreases x + y
  {
    if x > 0 || y > 0 {
      SomeEdgeApplies(d, p, t, x, y);
      var pc := if x > 0 then [Character(p[x - 1])] else [];
      var tc := if y > 0 then [Character(t[y - 1])] else [];
      var s1 := if MatchEdge(d, p, t, x, y)
        then Explore(d, p, t, x - 1, y - 1, pc + pa, tc + ta, stored)
        else stored;
      var s2 := if SubstitutionEdge(d, p, t, x, y)
        then Explore(d, p, t, x - 1, y - 1, pc + pa, tc + ta, s1)
        else s1;
      var s3 := if UpEdge(d, p, t, x, y)
        then Explore(d, p, t, x - 1, y, pc + pa, [Null] + ta, s2)
        else s2;
      if LeftEdge(d, p, t, x, y) {
        ExploreIsBacktrace(d, p, t, x, y - 1, [Null] + pa, tc + ta, s3);
        var b := Backtrace(d, p, t, x, y - 1);
        assert b.presented + [Null] + pa == b.presented + ([Null] + pa);
        assert b.transcribed + tc + ta == b.transcribed + (tc + ta);
      } else if UpEdge(d, p, t, x, y) {
        ExploreIsBacktrace(d, p, t, x - 1, y, pc + pa, [Null] + ta, s2);
        var b := Backtrace(d, p, t, x - 1, y);
        assert b.presented + pc + pa == b.presented + (pc + pa);
        assert b.transcribed + [Null] + ta == b.transcribed + ([Null] + ta);
      } else {
        var b := Backtrace(d, p, t, x - 1, y - 1);
        assert b.presented + pc + pa == b.presented + (pc + pa);
        assert b.transcribed + tc + ta == b.transcribed + (tc + ta);
        if SubstitutionEdge(d, p, t, x, y) {
          ExploreIsBacktrace(d, p, t, x - 1, y - 1, pc + pa, tc + ta, s1);
        } else {
          ExploreIsBacktrace(d, p, t, x - 1, y - 1, pc + pa, tc + ta, stored);
        }
      }
    }
  }

  // ---------------------------------------------------------------------------
  // Counting aligned cells
  // ---------------------------------------------------------------------------

  /** The number of the first `n` cell pairs of `a` and `b` that satisfy `f`. */
  function CountUpTo(a: seq<Element>, b: seq<Element>, f: (Element, Element) -> bool, n: nat): nat
    requires n <= |a| && n <= |b|
  {
    if n == 0 then 0
    else CountUpTo(a, b, f, n - 1) + (if f(a[n - 1], b[n - 1]) then 1 else 0)
  }

  /** The number of cell pairs, zipped up to the shorter track, that satisfy `f`. */
  function Count(a: seq<Element>, b: seq<Element>, f: (Element, Element) -> bool): nat
  {
    CountUpTo(a, b, f, if |a| < |b| then |a| else |b|)
  }

  /** A prefix count depends on the prefixes only. */
  lemma {:induction false} CountUpToPrefix(a: seq<Element>, b: seq<Element>, a': seq<Element>, b': seq<Element>,
                                           f: (Element, Element) -> bool, n: nat)
    requires n <= |a| && n <= |b| && n <= |a'| && n <= |b'|
    requires a[..n] == a'[..n] && b[..n] == b'[..n]
    ensures CountUpTo(a, b, f, n) == CountUpTo(a', b', f, n)
  {
    if n > 0 {
      assert a[n - 1] == a[..n][n - 1] == a'[n - 1];
      assert b[n - 1] == b[..n][n - 1] == b'[n - 1];
      assert a[..n - 1] == a'[..n - 1] by { assert a[..n - 1] == a[..n][..n - 1]; assert a'[..n - 1] == a'[..n][..n - 1]; }
      assert b[..n - 1] == b'[..n - 1] by { assert b[..n - 1] == b[..n][..n - 1]; assert b'[..n - 1] == b'[..n][..n - 1]; }
      CountUpToPrefix(a, b, a', b', f, n - 1);
    }
  }

  /** Counting an extended alignment adds the last cell to the count of the old one. */
  lemma CountExtend(g: Alignment, e: Element, u: Element, f: (Element, Element) -> bool)
    requires |g.presented| == |g.transcribed|
    ensures Count(g.Extend(e, u).presented, g.Extend(e, u).transcribed, f)
         == Count(g.presented, g.transcribed, f) + (if f(e, u) then 1 else 0)
  {
    var h := g.Extend(e, u);
    var n := |g.presented|;
    assert h.presented[..n] == g.presented[..n];
    assert h.transcribed[..n] == g.transcribed[..n];
    CountUpToPrefix(h.presented, h.transcribed, g.presented, g.transcribed, f, n);
  }

  /** N(presented ≠ Null ∧ transcribed = Null), omissions. */
  predicate IsOmission(p: Element, e: Element) { !p.Null? && e.Null? }

  /** N(presented = Null ∧ transcribed ≠ Null), insertions. */
  predicate IsInsertion(p: Element, e: Element) { p.Null? && !e.Null? }

  /** N(presented ≠ Null ∧ transcribed ≠ Null ∧ presented ≠ transcribed), substitutions. */
  predicate IsSubstitution(p: Element, e: Element) { !p.Null? && !e.Null? && p != e }

  /** N(presented ≠ Null ∧ transcribed ≠ Null ∧ presented = transcribed), correct entries. */
  predicate IsCorrect(p: Element, e: Element) { !p.Null? && !e.Null? && p == e }

  /** N(presented ≠ Null), the denominator of the omission, substitution and correct rates. */
  predicate PresentedIsSymbol(p: Element, e: Element) { !p.Null? }

  /** N(presented = Null), the numerator of the gap probability. */
  predicate PresentedIsNull(p: Element, e: Element) { p.Null? }

  /** Omissions, substitutions and correct entries split the cells whose presented side is a character. */
  lemma {:induction false} PresentedSymbolPartition(a: seq<Element>, b: seq<Element>, n: nat)
    requires n <= |a| && n <= |b|
    ensures CountUpTo(a, b, IsOmission, n) + CountUpTo(a, b, IsSubstitution, n) + CountUpTo(a, b, IsCorrect, n)
         == CountUpTo(a, b, PresentedIsSymbol, n)
  {
    if n > 0 { PresentedSymbolPartition(a, b, n - 1); }
  }

  /** With no gap-over-gap cell, insertions and presented characters together fill the alignment. */
  lemma {:induction false} InsertionComplement(a: seq<Element>, b: seq<Element>, n: nat)
    requires n <= |a| && n <= |b|
    requires forall k | 0 <= k < n :: !(a[k].Null? && b[k].Null?)
    ensures CountUpTo(a, b, IsInsertion, n) + CountUpTo(a, b, PresentedIsSymbol, n) == n
    ensures CountUpTo(a, b, PresentedIsNull, n) == CountUpTo(a, b, IsInsertion, n)
  {
    if n > 0 { InsertionComplement(a, b, n - 1); }
  }

  /** The presented characters of a track are its cells whose presented side is not a gap. */
  lemma {:induction false} ErasedLength(a: seq<Element>, b: seq<Element>)
    requires |a| == |b|
    ensures |Erase(a)| == Count(a, b, PresentedIsSymbol)
    ensures |Erase(b)| == Count(a, b, (p: Element, e: Element) => !e.Null?)
    decreases |a|
  {
    if a != [] {
      var n := |a| - 1;
      ErasedLength(a[..n], b[..n]);
      assert a == a[..n] + [a[n]];
      assert b == b[..n] + [b[n]];
      CountExtend(Alignment(a[..n], b[..n]), a[n], b[n], PresentedIsSymbol);
      CountExtend(Alignment(a[..n], b[..n]), a[n], b[n], (p: Element, e: Element) => !e.Null?);
    }
  }

  /** An alignment of `p` with `t` has between max(|p|, |t|) and |p| + |t| cells. */
  lemma AlignmentLength(g: Alignment, p: seq<char>, t: seq<char>)
    requires g.Aligns(p, t)
    ensures |p| <= |g.presented| && |t| <= |g.presented| && |g.presented| <= |p| + |t|
  {
    var a, b := g.presented, g.transcribed;
    ErasedLength(a, b);
    InsertionComplement(a, b, |a|);
    InsertionBound(a, b, |a|);
    CountBound(a, b, PresentedIsSymbol, |a|);
    CountBound(a, b, (p: Element, e: Element) => !e.Null?, |a|);
  }

  lemma {:induction false} InsertionBound(a: seq<Element>, b: seq<Element>, n: nat)
    requires n <= |a| && n <= |b|
    ensures CountUpTo(a, b, IsInsertion, n) <= CountUpTo(a, b, (p: Element, e: Element) => !e.Null?, n)
  {
    if n > 0 { InsertionBound(a, b, n - 1); }
  }

  lemma {:induction false} CountBound(a: seq<Element>, b: seq<Element>, f: (Element, Element) -> bool, n: nat)
    requires n <= |a| && n <= |b|
    ensures CountUpTo(a, b, f, n) <= n
  {
    if n > 0 { CountBound(a, b, f, n - 1); }
  }

  /** A cell that is an insertion, an omission or a substitution: it costs one edit. */
  predicate IsEdit(p: Element, e: Element) { IsInsertion(p, e) || IsOmission(p, e) || IsSubstitution(p, e) }

  /** The greedy walk makes exactly as many edits as the distance in its starting cell. */
  lemma {:induction false} BacktraceCost(d: seq<seq<nat>>, p: seq<char>, t: seq<char>, x: nat, y: nat)
    requires IsMsd(d, p, t) && x <= |p| && y <= |t|
    ensures Count(Backtrace(d, p, t, x, y).presented, Backtrace(d, p, t, x, y).transcribed, IsEdit) == d[x][y]
    decreases x + y
  {
    if x > 0 || y > 0 {
      SomeEdgeApplies(d, p, t, x, y);
      if LeftEdge(d, p, t, x, y) {
        BacktraceCost(d, p, t, x, y - 1);
        CountExtend(Backtrace(d, p, t, x, y - 1), Null, Character(t[y - 1]), IsEdit);
      } else if UpEdge(d, p, t, x, y) {
        BacktraceCost(d, p, t, x - 1, y);
        CountExtend(Backtrace(d, p, t, x - 1, y), Character(p[x - 1]), Null, IsEdit);
      } else {
        assert CellOk(d, p, t, x, y);
        BacktraceCost(d, p, t, x - 1, y - 1);
        CountExtend(Backtrace(d, p, t, x - 1, y - 1), Character(p[x - 1]), Character(t[y - 1]), IsEdit);
      }
    }
  }

  /** Edits are insertions, omissions and substitutions, counted separately. */
  lemma {:induction false} EditPartition(a: seq<Element>, b: seq<Element>, n: nat)
    requires n <= |a| && n <= |b|
    ensures CountUpTo(a, b, IsEdit, n)
         == CountUpTo(a, b, IsInsertion, n) + CountUpTo(a, b, IsOmission, n) + CountUpTo(a, b, IsSubstitution, n)
  {
    if n > 0 { EditPartition(a, b, n - 1); }
  }

  // ---------------------------------------------------------------------------
  // No alignment makes fewer edits than the distance
  // ---------------------------------------------------------------------------

  /** Two inner cells whose three predecessors and substitution costs agree hold the same distance. */
  lemma LevStepAgrees(p: seq<char>, t: seq<char>, p': seq<char>, t': seq<char>, i: nat, j: nat)
    requires 0 < i <= |p| && i <= |p'| && 0 < j <= |t| && j <= |t'|
    requires Lev(p, t, i - 1, j) == Lev(p', t', i - 1, j)
    requires Lev(p, t, i, j - 1) == Lev(p', t', i, j - 1)
    requires Lev(p, t, i - 1, j - 1) == Lev(p', t', i - 1, j - 1)
    requires p[i - 1] == p'[i - 1] && t[j - 1] == t'[j - 1]
    ensures Lev(p, t, i, j) == Lev(p', t', i, j)
  {
  }

  /** Dropping the last presented character does not change the distance of shorter prefixes. */
  lemma {:induction false} LevDropPresented(p: seq<char>, t: seq<char>, i: nat, j: nat)
    requires i < |p| && j <= |t|
    ensures Lev(p, t, i, j) == Lev(p[..|p| - 1], t, i, j)
    decreases i + j
  {
    if i > 0 && j > 0 {
      LevDropPresented(p, t, i - 1, j);
      LevDropPresented(p, t, i, j - 1);
      LevDropPresented(p, t, i - 1, j - 1);
      LevStepAgrees(p, t, p[..|p| - 1], t, i, j);
    }
  }

  /** Dropping the last transcribed character does not change the distance of shorter prefixes. */
  lemma {:induction false} LevDropTranscribed(p: seq<char>, t: seq<char>, i: nat, j: nat)
    requires i <= |p| && j < |t|
    ensures Lev(p, t, i, j) == Lev(p, t[..|t| - 1], i, j)
    decreases i + j
  {
    if i > 0 && j > 0 {
      LevDropTranscribed(p, t, i - 1, j);
      LevDropTranscribed(p, t, i, j - 1);
      LevDropTranscribed(p, t, i - 1, j - 1);
      LevStepAgrees(p, t, p, t[..|t| - 1], i, j);
    }
  }

  /** Omitting the last presented character costs at most one edit more than aligning the rest. */
  lemma LevOmitLast(p: seq<char>, t: seq<char>)
    requires |p| > 0
    ensures Lev(p, t, |p|, |t|) <= Lev(p[..|p| - 1], t, |p| - 1, |t|) + 1
  {
    if |t| > 0 {
      LevDropPresented(p, t, |p| - 1, |t|);
    }
  }

  /** Inserting the last transcribed character costs at most one edit more than aligning the rest. */
  lemma LevInsertLast(p: seq<char>, t: seq<char>)
    requires |t| > 0
    ensures Lev(p, t, |p|, |t|) <= Lev(p, t[..|t| - 1], |p|, |t| - 1) + 1
  {
    if |p| > 0 {
      LevDropTranscribed(p, t, |p|, |t| - 1);
    }
  }

  /** Lining up the two last characters costs at most their substitution cost more than aligning the rest. */
  lemma LevDiagonalLast(p: seq<char>, t: seq<char>)
    requires |p| > 0 && |t| > 0
    ensures Lev(p, t, |p|, |t|) <= Lev(p[..|p| - 1], t[..|t| - 1], |p| - 1, |t| - 1) + R(p[|p| - 1], t[|t| - 1])
  {
    LevDropPresented(p, t, |p| - 1, |t| - 1);
    LevDropTranscribed(p[..|p| - 1], t, |p| - 1, |t| - 1);
  }

  /** The characters a cell contributes to a string once its gaps are erased. */
  function CellChars(e: Element): seq<char>
  {
    if e.Character? then [e.c] else []
  }

  /** An alignment with its last cell taken off aligns what is left of the two strings. */
  lemma AlignsDropLast(g: Alignment, p: seq<char>, t: seq<char>)
    requires g.Aligns(p, t) && |g.presented| > 0
    ensures var n := |g.presented| - 1;
            var h := Alignment(g.presented[..n], g.transcribed[..n]);
            && h.Aligns(Erase(h.presented), Erase(h.transcribed))
            && g == h.Extend(g.presented[n], g.transcribed[n])
            && !(g.presented[n].Null? && g.transcribed[n].Null?)
            && p == Erase(h.presented) + CellChars(g.presented[n])
            && t == Erase(h.transcribed) + CellChars(g.transcribed[n])
  {
    var n := |g.presented| - 1;
    var a, b := g.presented[..n], g.transcribed[..n];
    forall k | 0 <= k < |a| ensures !(a[k].Null? && b[k].Null?) {
      assert a[k] == g.presented[k] && b[k] == g.transcribed[k];
    }
    assert g.presented == a + [g.presented[n]];
    assert g.transcribed == b + [g.transcribed[n]];
  }

  /** One more cell adds at least the edits the distance grows by. */
  lemma EditStep(h: Alignment, p: seq<char>, t: seq<char>, e: Element, u: Element)
    requires h.Aligns(p, t) && !(e.Null? && u.Null?)
    requires Count(h.presented, h.transcribed, IsEdit) >= Lev(p, t, |p|, |t|)
    ensures var p', t' := p + CellChars(e), t + CellChars(u);
            Count(h.Extend(e, u).presented, h.Extend(e, u).transcribed, IsEdit) >= Lev(p', t', |p'|, |t'|)
  {
    CountExtend(h, e, u, IsEdit);
    var p', t' := p + CellChars(e), t + CellChars(u);
    if u.Null? {
      assert p'[..|p'| - 1] == p && t' == t;
      LevOmitLast(p', t');
    } else if e.Null? {
      assert t'[..|t'| - 1] == t && p' == p;
      LevInsertLast(p', t');
    } else {
      assert p'[..|p'| - 1] == p && t'[..|t'| - 1] == t;
      LevDiagonalLast(p', t');
    }
  }

  /** Every alignment of `p` with `t` makes at least as many edits as the distance of `p` and `t`. */
  lemma {:induction false} EditsAtLeastLev(g: Alignment, p: seq<char>, t: seq<char>)
    requires g.Aligns(p, t)
    ensures Count(g.presented, g.transcribed, IsEdit) >= Lev(p, t, |p|, |t|)
    decreases |g.presented|
  {
    if |g.presented| > 0 {
      AlignsDropLast(g, p, t);
      var n := |g.presented| - 1;
      var h := Alignment(g.presented[..n], g.transcribed[..n]);
      EditsAtLeastLev(h, Erase(h.presented), Erase(h.transcribed));
      EditStep(h, Erase(h.presented), Erase(h.transcribed), g.presented[n], g.transcribed[n]);
    }
  }

  /** The stored alignment makes no more edits than any alignment of the same two strings. */
  lemma BacktraceOptimal(p: seq<char>, t: seq<char>, g: Alignment)
    requires g.Aligns(p, t)
    ensures IsMsd(MsdMatrix(p, t), p, t)
    ensures var b := Backtrace(MsdMatrix(p, t), p, t, |p|, |t|);
            Count(b.presented, b.transcribed, IsEdit) <= Count(g.presented, g.transcribed, IsEdit)
  {
    var d := MsdMatrix(p, t);
    MsdUnique(d, p, t);
    BacktraceCost(d, p, t, |p|, |t|);
    EditsAtLeastLev(g, p, t);
  }

  /**
    What the error rates are built from, for the alignment of `p` with `t`:
    insertions, omissions and substitutions add up to the minimum string
    distance; the cells whose presented side is a character are exactly |p|
    and split into omissions, substitutions and correct entries; insertions
    fill the rest of the alignment, and are the cells whose presented side is a gap.
   */
  lemma OptimalAlignmentCounts(p: seq<char>, t: seq<char>)
    ensures IsMsd(MsdMatrix(p, t), p, t)
    ensures var g := Backtrace(MsdMatrix(p, t), p, t, |p|, |t|);
            var a, b := g.presented, g.transcribed;
            && Count(a, b, IsInsertion) + Count(a, b, IsOmission) + Count(a, b, IsSubstitution) == Lev(p, t, |p|, |t|)
            && Count(a, b, PresentedIsSymbol) == |p|
            && Count(a, b, IsOmission) + Count(a, b, IsSubstitution) + Count(a, b, IsCorrect) == |p|
            && Count(a, b, IsInsertion) + |p| == |a|
            && Count(a, b, PresentedIsNull) == Count(a, b, IsInsertion)
  {
    var d := MsdMatrix(p, t);
    MsdUnique(d, p, t);
    var g := Backtrace(d, p, t, |p|, |t|);
    var a, b := g.presented, g.transcribed;
    assert p[..|p|] == p && t[..|t|] == t;
    BacktraceAligns(d, p, t, |p|, |t|);
    BacktraceCost(d, p, t, |p|, |t|);
    EditPartition(a, b, |a|);
    ErasedLength(a, b);
    PresentedSymbolPartition(a, b, |a|);
    InsertionComplement(a, b, |a|);
  }

  // ---------------------------------------------------------------------------
  // The alignment object
  // ---------------------------------------------------------------------------

  /** The entries of a two-dimensional array, row by row. */
  ghost function Snapshot(d: array2<nat>): (m: seq<seq<nat>>)
    reads d
    ensures |m| == d.Length0
    ensures forall i | 0 <= i < d.Length0 :: |m[i]| == d.Length1
    ensures forall i, j | 0 <= i < d.Length0 && 0 <= j < d.Length1 :: m[i][j] == d[i, j]
  {
    seq(d.Length0, i requires 0 <= i < d.Length0 reads d =>
      seq(d.Length1, j requires 0 <= j < d.Length1 reads d => d[i, j]))
  }

  /** An array holding the prefix distances holds the distance matrix. */
  lemma SnapshotIsMsd(d: array2<nat>, p: seq<char>, t: seq<char>)
    requires d.Length0 == |p| + 1 && d.Length1 == |t| + 1
    requires forall i, j | 0 <= i <= |p| && 0 <= j <= |t| :: d[i, j] == Lev(p, t, i, j)
    ensures IsMsd(Snapshot(d), p, t)
  {
    var m := Snapshot(d);
    forall i, j | 0 <= i <= |p| && 0 <= j <= |t| ensures m[i][j] == Lev(p, t, i, j) {
    }
    forall i, j | 1 <= i <= |p| && 1 <= j <= |t| ensures CellOk(m, p, t, i, j) {
    }
  }

  /** The optimal alignment of a presented string with its transcription. */
  class OptimalAlignments {
    var presented: seq<Element>
    var transcribed: seq<Element>
    var len: nat

    function Tracks(): Alignment
      reads this
    {
      Alignment(presented, transcribed)
    }

    /**
      Aligns `presentedText` with `transcribedText`: fills the distance
      matrix, walks back from its last cell, and checks that the two stored
      tracks have equal length (the check can never fail).
     */
    constructor (presentedText: seq<char>, transcribedText: seq<char>)
      ensures Tracks() == Backtrace(MsdMatrix(presentedText, transcribedText), presentedText, transcribedText,
                                    |presentedText|, |transcribedText|)
      ensures Tracks().Aligns(presentedText, transcribedText)
      ensures len == |presented| == |transcribed|
    {
      presented := [];
      transcribed := [];
      len := 0;
      new;
      var d := Msd(presentedText, transcribedText);
      ghost var m := Snapshot(d);
      MsdUnique(m, presentedText, transcribedText);
      var x, y := |presentedText|, |transcribedText|;
      Alignments(presentedText, transcribedText, d, m, x, y, [], []);
      ExploreIsBacktrace(m, presentedText, transcribedText, x, y, [], [], Alignment([], []));
      BacktraceAligns(m, presentedText, transcribedText, x, y);
      assert presentedText[..x] == presentedText && transcribedText[..y] == transcribedText;
      if |presented| != |transcribed| {
        assert false;
      } else {
        len := |presented|;
      }
    }

    /** The (X+1)×(Y+1) matrix of minimum string distances of all prefix pairs. */
    static method Msd(p: seq<char>, t: seq<char>) returns (d: array2<nat>)
      ensures fresh(d)
      ensures d.Length0 == |p| + 1 && d.Length1 == |t| + 1
      ensures IsMsd(Snapshot(d), p, t)
      ensures forall i, j | 0 <= i <= |p| && 0 <= j <= |t| :: d[i, j] == Lev(p, t, i, j)
    {
      var rows, cols := |p|, |t|;
      d := new nat[rows + 1, cols + 1]((i, j) => 0);
      for i := 0 to rows + 1
        invariant forall k | 0 <= k < i :: d[k, 0] == k
      {
        d[i, 0] := i;
      }
      for j := 0 to cols + 1
        invariant forall k | 0 <= k <= rows :: d[k, 0] == k
        invariant forall k | 0 <= k < j :: d[0, k] == k
      {
        d[0, j] := j;
      }
      for i := 1 to rows + 1
        invariant forall k | i <= k <= rows :: d[k, 0] == k
        invariant forall a, b {:trigger d[a, b]} | 0 <= a < i && 0 <= b <= cols :: d[a, b] == Lev(p, t, a, b)
      {
        for j := 1 to cols + 1
          invariant forall k | i <= k <= rows :: d[k, 0] == k
          invariant forall a, b {:trigger d[a, b]} | 0 <= a < i && 0 <= b <= cols :: d[a, b] == Lev(p, t, a, b)
          invariant forall b {:trigger d[i, b]} | 0 <= b < j :: d[i, b] == Lev(p, t, i, b)
        {
          // the least of the three candidates is the first after sorting them
          var up, left, diagonal := d[i - 1, j] + 1, d[i, j - 1] + 1, d[i - 1, j - 1] + R(p[i - 1], t[j - 1]);
          assert up == Lev(p, t, i - 1, j) + 1 && left == Lev(p, t, i, j - 1) + 1;
          assert diagonal == Lev(p, t, i - 1, j - 1) + R(p[i - 1], t[j - 1]);
          d[i, j] := Min3(up, left, diagonal);
        }
      }
      SnapshotIsMsd(d, p, t);
    }

    /**
      Walks back from (x, y) along every optimal edge of `d`, in the order
      match, substitution, up, left, prepending one cell per edge to `pa` and
      `ta`; on reaching (0, 0) it stores the walked tracks, so the tracks left
      stored are those of the path completed last.
     */
    method Alignments(p: seq<char>, t: seq<char>, d: array2<nat>, ghost m: seq<seq<nat>>, x: nat, y: nat,
                      pa: seq<Element>, ta: seq<Element>)
      requires IsMatrix(m, p, t) && d.Length0 == |p| + 1 && d.Length1 == |t| + 1
      requires forall i, j | 0 <= i <= |p| && 0 <= j <= |t| :: d[i, j] == m[i][j]
      requires x <= |p| && y <= |t|
      modifies this`presented, this`transcribed
      ensures Tracks() == Explore(m, p, t, x, y, pa, ta, old(Tracks()))
      decreases x + y
    {
      if x == 0 && y == 0 {
        presented := pa;
        transcribed := ta;
        return;
      }
      ghost var s0 := Tracks();
      if x > 0 && y > 0 {
        if d[x, y] == d[x - 1, y - 1] && p[x - 1] == t[y - 1] {
          Alignments(p, t, d, m, x - 1, y - 1, [Character(p[x - 1])] + pa, [Character(t[y - 1])] + ta);
        }
      }
      ghost var s1 := Tracks();
      assert s1 == if MatchEdge(m, p, t, x, y)
        then Explore(m, p, t, x - 1, y - 1, [Character(p[x - 1])] + pa, [Character(t[y - 1])] + ta, s0)
        else s0;
      if x > 0 && y > 0 {
        if d[x, y] == d[x - 1, y - 1] + 1 {
          Alignments(p, t, d, m, x - 1, y - 1, [Character(p[x - 1])] + pa, [Character(t[y - 1])] + ta);
        }
      }
      ghost var s2 := Tracks();
      assert s2 == if SubstitutionEdge(m, p, t, x, y)
        then Explore(m, p, t, x - 1, y - 1, [Character(p[x - 1])] + pa, [Character(t[y - 1])] + ta, s1)
        else s1;
      if x > 0 && d[x, y] == d[x - 1, y] + 1 {
        Alignments(p, t, d, m, x - 1, y, [Character(p[x - 1])] + pa, [Null] + ta);
      }
      ghost var s3 := Tracks();
      assert s3 == if UpEdge(m, p, t, x, y)
        then Explore(m, p, t, x - 1, y, [Character(p[x - 1])] + pa, [Null] + ta, s2)
        else s2;
      if y > 0 && d[x, y] == d[x, y - 1] + 1 {
        Alignments(p, t, d, m, x, y - 1, [Null] + pa, [Character(t[y - 1])] + ta);
      }
    }

    /** N(f): the number of aligned cell pairs that satisfy `f`. */
    method N(f: (Element, Element) -> bool) returns (counter: nat)
      ensures counter == Count(presented, transcribed, f)
    {
      counter := 0;
      var n := if |presented| < |transcribed| then |presented| else |transcribed|;
      var i := 0;
      while i < n
        invariant i <= n
        invariant counter == CountUpTo(presented, transcribed, f, i)
      {
        if f(presented[i], transcribed[i]) {
          counter := counter + 1;
        }
        i := i + 1;
      }
    }
  }
}
