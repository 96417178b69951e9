/** Canonical and compatibility decomposition with canonical ordering (section 3.11 of
    the Unicode Standard) over abstract tables, and the arithmetic of Hangul. */
module Normalize {
  import opened Syntax

  /** The decomposition of one character (empty if there is none), its combining class,
      and a rank that every decomposition lowers. */
  datatype Tables = Tables(decomp: nat -> seq<nat>, cc: nat -> nat, rank: nat -> nat)

  predicate IsHangul(c: nat) { 0xac00 <= c < 0xd7a4 }

  predicate IsJamo(c: nat) { 0x1100 <= c < 0x1113 || 0x1161 <= c < 0x1176 || 0x11a8 <= c < 0x11c3 }

  /** Decomposition is acyclic, and jamo are not decomposed further. */
  ghost predicate ValidTables(t: Tables) {
    && (forall c, k :: 0 <= k < |t.decomp(c)| ==> t.rank(t.decomp(c)[k]) < t.rank(c))
    && (forall c :: IsJamo(c) ==> t.decomp(c) == [])
  }

  /* ----- decomposition ----- */

  function HangulParts(c: nat): (r: seq<nat>)
    requires IsHangul(c)
    ensures forall k :: 0 <= k < |r| ==> IsJamo(r[k])
  {
    var s := c - 0xac00;
    var v := s % 28;
    [0x1100 + s / 588, 0x1161 + s % 588 / 28] + if v != 0 then [0x11a7 + v] else []
  }

  ghost predicate RankBelow(t: Tables, src: seq<nat>, bound: nat) {
    forall k :: 0 <= k < |src| ==> t.rank(src[k]) < bound
  }

  /** The full decomposition of one character and of a string. */
  ghost function FullOne(t: Tables, c: nat): seq<nat>
    requires ValidTables(t)
    decreases t.rank(c), 1, 0
  {
    if IsHangul(c) then HangulParts(c)
    else if t.decomp(c) == [] then [c]
    else FullAll(t, t.decomp(c), t.rank(c))
  }

  ghost function FullAll(t: Tables, src: seq<nat>, bound: nat): seq<nat>
    requires ValidTables(t) && RankBelow(t, src, bound)
    decreases bound, 0, |src|
  {
    if src == [] then [] else FullOne(t, src[0]) + FullAll(t, src[1..], bound)
  }

  lemma {:induction false} BoundIrrelevant(t: Tables, src: seq<nat>, a: nat, b: nat)
    requires ValidTables(t) && RankBelow(t, src, a) && RankBelow(t, src, b)
    ensures FullAll(t, src, a) == FullAll(t, src, b)
    decreases |src|
  {
    hide FullOne;
    if src != [] { BoundIrrelevant(t, src[1..], a, b); }
  }

  lemma {:induction false} FullConcat(t: Tables, a: seq<nat>, b: seq<nat>, bound: nat)
    requires ValidTables(t) && RankBelow(t, a + b, bound)
    ensures RankBelow(t, a, bound) && RankBelow(t, b, bound)
    ensures FullAll(t, a + b, bound) == FullAll(t, a, bound) + FullAll(t, b, bound)
    decreases |a|
  {
    hide FullOne, FullAll, ValidTables, RankBelow;
    RankOfParts(t, a, b, bound);
    if a == [] {
      assert a + b == b;
      FullOfNone(t, bound);
    } else {
      assert (a + b)[1..] == a[1..] + b;
      assert a + b == [a[0]] + (a[1..] + b);
      RankOfParts(t, [a[0]], a[1..] + b, bound);
      FullConcat(t, a[1..], b, bound);
      FullUnfold(t, a + b, bound);
      FullUnfold(t, a, bound);
    }
  }

  lemma RankOfParts(t: Tables, a: seq<nat>, b: seq<nat>, bound: nat)
    requires RankBelow(t, a + b, bound)
    ensures RankBelow(t, a, bound) && RankBelow(t, b, bound)
  {
    forall k | 0 <= k < |b| ensures t.rank(b[k]) < bound { assert b[k] == (a + b)[|a| + k]; }
    forall k | 0 <= k < |a| ensures t.rank(a[k]) < bound { assert a[k] == (a + b)[k]; }
  }

  lemma FullOfNone(t: Tables, bound: nat)
    requires ValidTables(t)
    ensures RankBelow(t, [], bound) && FullAll(t, [], bound) == []
  {
  }

  lemma FullUnfold(t: Tables, s: seq<nat>, bound: nat)
    requires ValidTables(t) && RankBelow(t, s, bound) && s != []
    ensures RankBelow(t, s[1..], bound) && FullAll(t, s, bound) == FullOne(t, s[0]) + FullAll(t, s[1..], bound)
  {
    hide FullOne;
  }

  ghost predicate Decomposed(t: Tables, c: nat) { !IsHangul(c) && t.decomp(c) == [] }

  ghost predicate AllDecomposed(t: Tables, s: seq<nat>) { forall k :: 0 <= k < |s| ==> Decomposed(t, s[k]) }

  /** Nothing is left to decompose. */
  lemma {:induction false} FullOneDecomposed(t: Tables, c: nat)
    requires ValidTables(t)
    ensures AllDecomposed(t, FullOne(t, c))
    decreases t.rank(c), 1, 0
  {
    if !IsHangul(c) && t.decomp(c) != [] { FullAllDecomposed(t, t.decomp(c), t.rank(c)); }
  }

  lemma {:induction false} FullAllDecomposed(t: Tables, src: seq<nat>, bound: nat)
    requires ValidTables(t) && RankBelow(t, src, bound)
    ensures AllDecomposed(t, FullAll(t, src, bound))
    decreases bound, 0, |src|
  {
    hide FullOne;
    if src != [] {
      FullOneDecomposed(t, src[0]);
      FullAllDecomposed(t, src[1..], bound);
    }
  }

  /** A decomposed string is its own decomposition. */
  lemma {:induction false} DecomposedSame(t: Tables, src: seq<nat>, bound: nat)
    requires ValidTables(t) && RankBelow(t, src, bound) && AllDecomposed(t, src)
    ensures FullAll(t, src, bound) == src
    decreases |src|
  {
    if src != [] {
      assert Decomposed(t, src[0]);
      DecomposedSame(t, src[1..], bound);
    }
  }

  class Buffer {
    var data: seq<nat>

    constructor ()
      ensures data == []
    {
      data := [];
    }

    method Put(c: nat)
      modifies this
      ensures data == old(data) + [c]
    {
      data := data + [c];
    }

    /** to_nfd_rec: the decomposition of `src` is appended. */
    method ToNfdRec(t: Tables, src: seq<nat>, ghost bound: nat)
      requires ValidTables(t) && RankBelow(t, src, bound)
      modifies this
      ensures data == old(data) + FullAll(t, src, bound)
      decreases bound
    {
      hide ValidTables, FullAll, FullOne;
      var i := 0;
      FullNothing(t, bound);
      assert src[..0] == [];
      while i < |src|
        invariant 0 <= i <= |src| && RankBelow(t, src[..i], bound)
        invariant data == old(data) + FullAll(t, src[..i], bound)
      {
        var c := src[i];
        FullStep(t, src, i, bound);
        if IsHangul(c) {
          var s := c - 0xac00;
          Put(0x1100 + s / 588);
          Put(0x1161 + s % 588 / 28);
          var v := s % 28;
          if v != 0 { Put(0x11a7 + v); }
        } else {
          var res := t.decomp(c);
          if |res| > 0 { ToNfdRec(t, res, t.rank(c)); } else { Put(c); }
        }
        i := i + 1;
      }
      assert src[..i] == src;
    }
  }

  lemma FullNothing(t: Tables, bound: nat)
    requires ValidTables(t)
    ensures FullAll(t, [], bound) == []
  {
  }

  lemma FullStep(t: Tables, src: seq<nat>, i: nat, bound: nat)
    requires ValidTables(t) && RankBelow(t, src, bound) && i < |src|
    ensures RankBelow(t, src[..i], bound) && RankBelow(t, src[..i + 1], bound) && t.rank(src[i]) < bound
    ensures FullAll(t, src[..i + 1], bound) == FullAll(t, src[..i], bound) + FullOne(t, src[i])
    ensures IsHangul(src[i]) ==> FullOne(t, src[i]) == HangulParts(src[i])
    ensures !IsHangul(src[i]) && t.decomp(src[i]) == [] ==> FullOne(t, src[i]) == [src[i]]
    ensures !IsHangul(src[i]) && t.decomp(src[i]) != [] ==>
              RankBelow(t, t.decomp(src[i]), t.rank(src[i]))
              && FullOne(t, src[i]) == FullAll(t, t.decomp(src[i]), t.rank(src[i]))
  {
    assert src[..i + 1] == src[..i] + [src[i]];
    FullConcat(t, src[..i], [src[i]], bound);
    assert FullAll(t, [src[i]], bound) == FullOne(t, src[i]) + [];
  }

  /* ----- canonical ordering ----- */

  /** Insert behind every element of no greater class. */
  function Insert(cc: nat -> nat, run: seq<nat>, x: nat): (r: seq<nat>)
    ensures |r| == |run| + 1
    decreases |run|
  {
    if run == [] || cc(run[|run| - 1]) <= cc(x) then run + [x]
    else Insert(cc, run[..|run| - 1], x) + [run[|run| - 1]]
  }

  function SortRun(cc: nat -> nat, run: seq<nat>): (r: seq<nat>)
    ensures |r| == |run|
    decreases |run|
  {
    if run == [] then [] else Insert(cc, SortRun(cc, run[..|run| - 1]), run[|run| - 1])
  }

  /** How many non-starters a string begins with. */
  function RunLength(cc: nat -> nat, s: seq<nat>): (n: nat)
    ensures n <= |s| && (n < |s| ==> cc(s[n]) == 0) && forall k :: 0 <= k < n ==> cc(s[k]) != 0
    decreases |s|
  {
    if s == [] || cc(s[0]) == 0 then 0 else 1 + RunLength(cc, s[1..])
  }

  /** Each run of non-starters sorted, starters in place. */
  function Ordered(cc: nat -> nat, s: seq<nat>): (r: seq<nat>)
    ensures |r| == |s|
    decreases |s|
  {
    if s == [] then []
    else if cc(s[0]) == 0 then [s[0]] + Ordered(cc, s[1..])
    else
      var n := RunLength(cc, s);
      SortRun(cc, s[..n]) + Ordered(cc, s[n..])
  }

  /* what sorting a run means */

  /** The elements of one class, in order. */
  function OfClass(cc: nat -> nat, s: seq<nat>, v: nat): seq<nat>
    decreases |s|
  {
    if s == [] then []
    else OfClass(cc, s[..|s| - 1], v) + if cc(s[|s| - 1]) == v then [s[|s| - 1]] else []
  }

  /** `r` is `s` with only non-starters moved: every starter is where it was, and up to
      any starter, and up to the end, the elements of each class are the same and in
      the same order. */
  ghost predicate Stable(cc: nat -> nat, s: seq<nat>, r: seq<nat>) {
    && |r| == |s| && multiset(r) == multiset(s)
    && (forall k :: 0 <= k < |s| ==> if cc(s[k]) == 0 then r[k] == s[k] else cc(r[k]) != 0)
    && forall k: nat, v: nat :: k <= |s| && (k < |s| ==> cc(s[k]) == 0) ==>
         OfClass(cc, r[..k], v) == OfClass(cc, s[..k], v)
  }

  ghost predicate Rising(cc: nat -> nat, s: seq<nat>) {
    forall i, j :: 0 <= i < j < |s| ==> cc(s[i]) <= cc(s[j])
  }

  lemma {:induction false} OfClassConcat(cc: nat -> nat, a: seq<nat>, b: seq<nat>, v: nat)
    ensures OfClass(cc, a + b, v) == OfClass(cc, a, v) + OfClass(cc, b, v)
    decreases |b|
  {
    if b == [] {
      assert a + b == a;
    } else {
      assert (a + b)[..|a + b| - 1] == a + b[..|b| - 1];
      OfClassConcat(cc, a, b[..|b| - 1], v);
    }
  }

  lemma OfClassOne(cc: nat -> nat, x: nat, v: nat)
    ensures OfClass(cc, [x], v) == if cc(x) == v then [x] else []
  {
    assert [x][..0] == [];
  }

  lemma {:induction false} InsertRising(cc: nat -> nat, run: seq<nat>, x: nat)
    requires Rising(cc, run)
    ensures Rising(cc, Insert(cc, run, x))
    ensures forall k :: 0 <= k <= |run| ==>
              cc(Insert(cc, run, x)[k]) <= (if run == [] || cc(run[|run| - 1]) <= cc(x) then cc(x)
                                            else cc(run[|run| - 1]))
    decreases |run|
  {
    if run != [] && cc(run[|run| - 1]) > cc(x) {
      InsertRising(cc, run[..|run| - 1], x);
    }
  }

  lemma {:induction false} InsertStable(cc: nat -> nat, run: seq<nat>, x: nat, v: nat)
    requires Rising(cc, run)
    ensures OfClass(cc, Insert(cc, run, x), v) == OfClass(cc, run + [x], v)
    decreases |run|
  {
    hide OfClass, Rising;
    if run != [] && cc(run[|run| - 1]) > cc(x) {
      var front, y := run[..|run| - 1], run[|run| - 1];
      assert run == front + [y];
      RisingFront(cc, front, y);
      InsertStable(cc, front, x, v);
      OfClassConcat(cc, Insert(cc, front, x), [y], v);
      OfClassConcat(cc, front, [x], v);
      OfClassConcat(cc, run, [x], v);
      OfClassConcat(cc, front, [y], v);
      OneIsEmpty(cc, x, y, v);
      var f, cx, cy := OfClass(cc, front, v), OfClass(cc, [x], v), OfClass(cc, [y], v);
      assert f + cx + cy == f + (cx + cy) && f + cy + cx == f + (cy + cx);
    }
  }

  lemma RisingFront(cc: nat -> nat, front: seq<nat>, y: nat)
    requires Rising(cc, front + [y])
    ensures Rising(cc, front)
  {
    assert forall k :: 0 <= k < |front| ==> (front + [y])[k] == front[k];
  }

  /** Elements of different classes do not meet in one class. */
  lemma OneIsEmpty(cc: nat -> nat, x: nat, y: nat, v: nat)
    requires cc(x) != cc(y)
    ensures OfClass(cc, [x], v) + OfClass(cc, [y], v) == OfClass(cc, [y], v) + OfClass(cc, [x], v)
  {
    OfClassOne(cc, x, v);
    OfClassOne(cc, y, v);
  }

  lemma {:induction false} SortRunRising(cc: nat -> nat, run: seq<nat>)
    ensures Rising(cc, SortRun(cc, run))
    decreases |run|
  {
    if run != [] {
      SortRunRising(cc, run[..|run| - 1]);
      InsertRising(cc, SortRun(cc, run[..|run| - 1]), run[|run| - 1]);
    }
  }

  /** Sorting a run keeps the order of elements of the same class. */
  lemma {:induction false} SortRunStable(cc: nat -> nat, run: seq<nat>, v: nat)
    ensures OfClass(cc, SortRun(cc, run), v) == OfClass(cc, run, v)
    decreases |run|
  {
    if run != [] {
      var front, x := run[..|run| - 1], run[|run| - 1];
      SortRunRising(cc, front);
      SortRunStable(cc, front, v);
      InsertStable(cc, SortRun(cc, front), x, v);
      OfClassConcat(cc, SortRun(cc, front), [x], v);
      OfClassConcat(cc, front, [x], v);
      assert run == front + [x];
    }
  }

  lemma {:induction false} InsertBag(cc: nat -> nat, run: seq<nat>, x: nat)
    ensures multiset(Insert(cc, run, x)) == multiset(run + [x])
    decreases |run|
  {
    if run != [] && cc(run[|run| - 1]) > cc(x) {
      var front, y := run[..|run| - 1], run[|run| - 1];
      InsertBag(cc, front, x);
      assert run == front + [y];
      assert multiset(run + [x]) == multiset(front) + multiset{y} + multiset{x};
      assert multiset(Insert(cc, run, x)) == multiset(front + [x]) + multiset{y};
    }
  }

  lemma {:induction false} SortRunBag(cc: nat -> nat, run: seq<nat>)
    ensures multiset(SortRun(cc, run)) == multiset(run)
    decreases |run|
  {
    if run != [] {
      var front, x := run[..|run| - 1], run[|run| - 1];
      SortRunBag(cc, front);
      InsertBag(cc, SortRun(cc, front), x);
      assert run == front + [x];
    }
  }

  lemma {:induction false} RisingSame(cc: nat -> nat, run: seq<nat>)
    requires Rising(cc, run)
    ensures SortRun(cc, run) == run
    decreases |run|
  {
    if run != [] { RisingSame(cc, run[..|run| - 1]); }
  }

  /* what canonical ordering means */

  /** No non-starter directly follows one of a greater class. */
  ghost predicate CanonicalOrder(cc: nat -> nat, s: seq<nat>) {
    forall k :: 0 <= k < |s| - 1 && cc(s[k + 1]) != 0 ==> cc(s[k]) <= cc(s[k + 1])
  }

  lemma SortedRun(cc: nat -> nat, run: seq<nat>)
    requires forall k :: 0 <= k < |run| ==> cc(run[k]) != 0
    ensures var r := SortRun(cc, run); Rising(cc, r) && forall k :: 0 <= k < |r| ==> cc(r[k]) != 0
  {
    var r := SortRun(cc, run);
    SortRunRising(cc, run);
    SortRunBag(cc, run);
    forall k | 0 <= k < |r| ensures cc(r[k]) != 0 {
      assert r[k] in multiset(run);
      var j :| 0 <= j < |run| && run[j] == r[k];
    }
  }

  /** Starters never move and nothing else becomes one. */
  lemma {:induction false} StartersStay(cc: nat -> nat, s: seq<nat>)
    ensures forall k :: 0 <= k < |s| ==> if cc(s[k]) == 0 then Ordered(cc, s)[k] == s[k] else cc(Ordered(cc, s)[k]) != 0
    decreases |s|
  {
    hide SortRun;
    if s != [] {
      if cc(s[0]) == 0 {
        StartersStay(cc, s[1..]);
      } else {
        var n := RunLength(cc, s);
        SortedRun(cc, s[..n]);
        StartersStay(cc, s[n..]);
      }
    }
  }

  /** The result is in canonical order. */
  lemma {:induction false} OrderedIsCanonical(cc: nat -> nat, s: seq<nat>)
    ensures CanonicalOrder(cc, Ordered(cc, s))
    decreases |s|
  {
    hide SortRun;
    if s != [] {
      if cc(s[0]) == 0 {
        OrderedIsCanonical(cc, s[1..]);
      } else {
        var n := RunLength(cc, s);
        SortedRun(cc, s[..n]);
        OrderedIsCanonical(cc, s[n..]);
        StartersStay(cc, s[n..]);
      }
    }
  }

  lemma StarterFirst(cc: nat -> nat, s: seq<nat>, k: nat, v: nat)
    requires s != [] && cc(s[0]) == 0 && 0 < k <= |s|
    requires OfClass(cc, Ordered(cc, s[1..])[..k - 1], v) == OfClass(cc, s[1..][..k - 1], v)
    ensures OfClass(cc, Ordered(cc, s)[..k], v) == OfClass(cc, s[..k], v)
  {
    hide Ordered, OfClass;
    OrderedStep(cc, s);
    var a, b := s[1..][..k - 1], Ordered(cc, s[1..])[..k - 1];
    OfClassConcat(cc, [s[0]], a, v);
    OfClassConcat(cc, [s[0]], b, v);
    assert s[..k] == [s[0]] + a;
    assert Ordered(cc, s)[..k] == [s[0]] + b;
  }

  lemma RunFirst(cc: nat -> nat, s: seq<nat>, n: nat, k: nat, v: nat)
    requires 0 < n <= k <= |s| && (forall m :: 0 <= m < n ==> cc(s[m]) != 0) && (n < |s| ==> cc(s[n]) == 0)
    requires OfClass(cc, Ordered(cc, s[n..])[..k - n], v) == OfClass(cc, s[n..][..k - n], v)
    ensures OfClass(cc, Ordered(cc, s)[..k], v) == OfClass(cc, s[..k], v)
  {
    hide Ordered, OfClass, SortRun;
    RunEnds(cc, s, n);
    SortRunStable(cc, s[..n], v);
    var a, b := s[n..][..k - n], Ordered(cc, s[n..])[..k - n];
    OfClassConcat(cc, s[..n], a, v);
    OfClassConcat(cc, SortRun(cc, s[..n]), b, v);
    assert s[..k] == s[..n] + a;
    assert Ordered(cc, s)[..k] == SortRun(cc, s[..n]) + b;
  }

  /** Up to any starter, and up to the end, the elements of each class are the same and
      in the same order: nothing passes a starter or an element of its own class. */
  lemma {:induction false} OrderedIsStable(cc: nat -> nat, s: seq<nat>, k: nat, v: nat)
    requires k <= |s| && (k < |s| ==> cc(s[k]) == 0)
    ensures OfClass(cc, Ordered(cc, s)[..k], v) == OfClass(cc, s[..k], v)
    decreases |s|
  {
    hide Ordered, SortRun, OfClass;
    if k == 0 {
      assert Ordered(cc, s)[..0] == s[..0];
    } else if cc(s[0]) == 0 {
      OrderedIsStable(cc, s[1..], k - 1, v);
      StarterFirst(cc, s, k, v);
    } else {
      var n := RunLength(cc, s);
      OrderedIsStable(cc, s[n..], k - n, v);
      RunFirst(cc, s, n, k, v);
    }
  }

  /** Canonical ordering is a stable rearrangement that never moves a starter. */
  lemma OrderingIsStable(cc: nat -> nat, s: seq<nat>)
    ensures Stable(cc, s, Ordered(cc, s))
  {
    hide Ordered, OfClass;
    var r := Ordered(cc, s);
    StartersStay(cc, s);
    OrderedBag(cc, s);
    forall k: nat, v: nat | k <= |s| && (k < |s| ==> cc(s[k]) == 0)
      ensures OfClass(cc, r[..k], v) == OfClass(cc, s[..k], v)
    {
      OrderedIsStable(cc, s, k, v);
    }
  }

  lemma {:induction false} OrderedBag(cc: nat -> nat, s: seq<nat>)
    ensures multiset(Ordered(cc, s)) == multiset(s)
    decreases |s|
  {
    hide SortRun;
    if s != [] {
      if cc(s[0]) == 0 {
        OrderedBag(cc, s[1..]);
        assert s == [s[0]] + s[1..];
      } else {
        var n := RunLength(cc, s);
        OrderedBag(cc, s[n..]);
        SortRunBag(cc, s[..n]);
        assert s == s[..n] + s[n..];
      }
    }
  }

  lemma {:induction false} RunRises(cc: nat -> nat, s: seq<nat>, n: nat)
    requires CanonicalOrder(cc, s) && n <= |s| && forall k :: 0 <= k < n ==> cc(s[k]) != 0
    ensures Rising(cc, s[..n])
    decreases n
  {
    if n > 1 {
      RunRises(cc, s, n - 1);
      assert cc(s[n - 2]) <= cc(s[(n - 2) + 1]);
      assert forall i :: 0 <= i < n - 1 ==> s[..n - 1][i] == s[..n][i];
      forall i | 0 <= i < n - 1 ensures cc(s[..n][i]) <= cc(s[n - 1]) {
        if i < n - 2 { assert cc(s[..n - 1][i]) <= cc(s[..n - 1][n - 2]); }
      }
    }
  }

  /** A string in canonical order is left alone. */
  lemma {:induction false} CanonicalSame(cc: nat -> nat, s: seq<nat>)
    requires CanonicalOrder(cc, s)
    ensures Ordered(cc, s) == s
    decreases |s|
  {
    hide SortRun, Ordered;
    if s == [] {
      OrderedNothing(cc);
    } else {
      var n := if cc(s[0]) == 0 then 1 else RunLength(cc, s);
      CanonicalRest(cc, s, n);
      CanonicalSame(cc, s[n..]);
      assert s == s[..n] + s[n..];
      if cc(s[0]) == 0 {
        OrderedStep(cc, s);
      } else {
        RunRises(cc, s, n);
        RisingSame(cc, s[..n]);
        RunEnds(cc, s, n);
      }
    }
  }

  lemma CanonicalRest(cc: nat -> nat, s: seq<nat>, n: nat)
    requires CanonicalOrder(cc, s) && n <= |s|
    ensures CanonicalOrder(cc, s[n..])
  {
    var r := s[n..];
    forall k | 0 <= k < |r| - 1 && cc(r[k + 1]) != 0 ensures cc(r[k]) <= cc(r[k + 1]) {
      assert cc(s[n + k]) <= cc(s[(n + k) + 1]);
    }
  }

  /* ----- sort_cc, in place ----- */

  lemma {:induction false} InsertAt(cc: nat -> nat, run: seq<nat>, k: nat, x: nat)
    requires k <= |run| && (forall j :: k <= j < |run| ==> cc(run[j]) > cc(x)) && (k > 0 ==> cc(run[k - 1]) <= cc(x))
    ensures Insert(cc, run, x) == run[..k] + [x] + run[k..]
    decreases |run|
  {
    if k < |run| {
      var front, y := run[..|run| - 1], run[|run| - 1];
      InsertAt(cc, front, k, x);
      assert front[..k] == run[..k] && run[k..] == front[k..] + [y];
      assert run[..k] + [x] + front[k..] + [y] == run[..k] + [x] + (front[k..] + [y]);
    } else {
      assert run[..k] == run && run[k..] == [];
    }
  }

  /** Shift every element of greater class up by one. */
  method Shift(cc: nat -> nat, buf: array<nat>, start: nat, j: nat, ch: nat) returns (k: nat)
    requires start <= j < buf.Length
    modifies buf
    ensures start <= k <= j
    ensures forall m :: 0 <= m < k || j < m < buf.Length ==> buf[m] == old(buf[m])
    ensures forall m :: k <= m < j ==> buf[m + 1] == old(buf[m]) && cc(old(buf[m])) > cc(ch)
    ensures k > start ==> cc(old(buf[k - 1])) <= cc(ch)
  {
    hide Lifted;
    ghost var s := buf[..];
    k := j;
    NoneLifted(cc, s, j, ch);
    while k > start && cc(buf[k - 1]) > cc(ch)
      invariant start <= k <= j && Lifted(cc, s, buf[..], k, j, ch)
      invariant k > start ==> buf[k - 1] == s[k - 1]
    {
      OneLifted(cc, s, buf[..], k, j, ch);
      ghost var r := buf[..];
      buf[k] := buf[k - 1];
      assert buf[..] == r[k := r[k - 1]];
      k := k - 1;
      LiftedMeans(cc, s, buf[..], k, j, ch);
    }
    LiftedMeans(cc, s, buf[..], k, j, ch);
  }

  /** The elements from `k` to `j` are one place further up than in `s`. */
  ghost predicate Lifted(cc: nat -> nat, s: seq<nat>, r: seq<nat>, k: nat, j: nat, ch: nat) {
    && k <= j < |s| == |r|
    && (forall m :: 0 <= m < k || j < m < |s| ==> r[m] == s[m])
    && (forall m :: k <= m < j ==> r[m + 1] == s[m] && cc(s[m]) > cc(ch))
  }

  lemma NoneLifted(cc: nat -> nat, s: seq<nat>, j: nat, ch: nat)
    requires j < |s|
    ensures Lifted(cc, s, s, j, j, ch)
  {
  }

  lemma OneLifted(cc: nat -> nat, s: seq<nat>, r: seq<nat>, k: nat, j: nat, ch: nat)
    requires Lifted(cc, s, r, k, j, ch) && k > 0 && cc(r[k - 1]) > cc(ch)
    ensures Lifted(cc, s, r[k := r[k - 1]], k - 1, j, ch)
  {
  }

  lemma LiftedMeans(cc: nat -> nat, s: seq<nat>, r: seq<nat>, k: nat, j: nat, ch: nat)
    requires Lifted(cc, s, r, k, j, ch)
    ensures k <= j < |s| == |r|
    ensures forall m :: 0 <= m < k || j < m < |s| ==> r[m] == s[m]
    ensures forall m :: k <= m < j ==> r[m + 1] == s[m] && cc(s[m]) > cc(ch)
  {
  }

  /** One step of the insertion: the element at `j` sinks into the sorted part of its run. */
  method SinkOne(cc: nat -> nat, buf: array<nat>, start: nat, j: nat)
    requires start <= j < buf.Length
    modifies buf
    ensures buf[..start] == old(buf[..start]) && buf[j + 1..] == old(buf[j + 1..])
    ensures buf[start..j + 1] == Insert(cc, old(buf[start..j]), old(buf[j]))
  {
    hide Insert;
    ghost var before := buf[..];
    var ch := buf[j];
    var k := Shift(cc, buf, start, j, ch);
    buf[k] := ch;
    Sunk(cc, before, buf[..], start, j, k);
    assert buf[..start] == buf[..][..start] && buf[j + 1..] == buf[..][j + 1..]
           && buf[start..j + 1] == buf[..][start..j + 1];
    assert old(buf[start..j]) == before[start..j] && old(buf[..start]) == before[..start]
           && old(buf[j + 1..]) == before[j + 1..];
  }

  lemma Sunk(cc: nat -> nat, s: seq<nat>, r: seq<nat>, start: nat, j: nat, k: nat)
    requires start <= k <= j < |s| == |r| && r[k] == s[j]
    requires forall m :: 0 <= m < k || j < m < |s| ==> r[m] == s[m]
    requires forall m :: k <= m < j ==> r[m + 1] == s[m] && cc(s[m]) > cc(s[j])
    requires k > start ==> cc(s[k - 1]) <= cc(s[j])
    ensures r[..start] == s[..start] && r[j + 1..] == s[j + 1..]
    ensures r[start..j + 1] == Insert(cc, s[start..j], s[j])
  {
    hide Insert;
    var run, t := s[start..j], r[start..j + 1];
    forall m | k - start <= m < |run| ensures cc(run[m]) > cc(s[j]) {
      assert cc(s[start + m]) > cc(s[j]);
    }
    InsertAt(cc, run, k - start, s[j]);
    forall m | k - start < m <= |run| ensures t[m] == run[m - 1] {
      assert r[(start + m - 1) + 1] == s[start + m - 1];
    }
    Assembled(t, run, k - start, s[j]);
  }

  lemma Assembled(r: seq<nat>, run: seq<nat>, k: nat, x: nat)
    requires k <= |run| && |r| == |run| + 1 && r[k] == x
    requires forall m :: 0 <= m < k ==> r[m] == run[m]
    requires forall m :: k < m <= |run| ==> r[m] == run[m - 1]
    ensures r == run[..k] + [x] + run[k..]
  {
  }

  method SortCc(cc: nat -> nat, buf: array<nat>)
    modifies buf
    ensures buf[..] == Ordered(cc, old(buf[..]))
  {
    hide Ordered, SortRun, Insert;
    ghost var s := buf[..];
    var i := 0;
    OrderedNothing(cc);
    while i < buf.Length
      invariant 0 <= i <= buf.Length && buf[i..] == s[i..]
      invariant buf[..i] + Ordered(cc, s[i..]) == Ordered(cc, s)
    {
      OrderedStep(cc, s[i..]);
      if cc(buf[i]) == 0 {
        assert s[i..][0] == buf[i] && s[i..][1..] == s[i + 1..];
        assert buf[..i + 1] == buf[..i] + [buf[i]];
        i := i + 1;
      } else {
        assert s[i..][0] == buf[i];
        var j := SortOneRun(cc, buf, i, s);
        i := j;
      }
    }
    assert s[i..] == [];
  }

  /** Sort the run of non-starters that starts at `start`. */
  method SortOneRun(cc: nat -> nat, buf: array<nat>, start: nat, ghost s: seq<nat>) returns (j: nat)
    requires start < buf.Length == |s| && buf[start..] == s[start..] && cc(buf[start]) != 0
    requires buf[..start] + Ordered(cc, s[start..]) == Ordered(cc, s)
    modifies buf
    ensures start < j <= buf.Length && buf[j..] == s[j..]
    ensures buf[..j] + Ordered(cc, s[j..]) == Ordered(cc, s)
  {
    hide Ordered, SortRun, Insert;
    j := start + 1;
    ghost var rest := s[start..];
    SortFirst(cc, rest);
    assert rest[..1] == [rest[0]] == buf[start..start + 1];
    SplitRun(buf[..], s, start);
    while j < buf.Length && cc(buf[j]) != 0
      invariant start < j <= buf.Length && buf[..][j..] == s[j..]
      invariant buf[..][..start] == old(buf[..])[..start]
      invariant buf[..][start..j] == SortRun(cc, rest[..j - start])
      invariant forall k :: 0 <= k < j - start ==> cc(rest[k]) != 0
    {
      ghost var r := buf[..];
      assert buf[start..j] == r[start..j] && r[j] == buf[j] == r[j..][0] == s[j] == rest[j - start];
      SortNext(cc, rest, j - start);
      SinkOne(cc, buf, start, j);
      AfterSink(buf[..], r, s, start, j);
      j := j + 1;
    }
    ghost var n := j - start;
    if j < buf.Length { assert rest[n] == s[j] == buf[..][j..][0] == buf[j]; }
    RunEnds(cc, rest, n);
    assert rest[n..] == s[j..] == buf[j..];
    JoinRun(buf[..], start, j, Ordered(cc, s[j..]));
  }

  lemma SplitRun(r: seq<nat>, s: seq<nat>, start: nat)
    requires start < |r| == |s| && r[start..] == s[start..]
    ensures r[start + 1..] == s[start + 1..] && r[start..start + 1] == [s[start]]
  {
    assert r[start..][1..] == r[start + 1..] && s[start..][1..] == s[start + 1..] && r[start..][0] == s[start..][0];
  }

  /** `t` is what sinking the element at `j` makes of `r`. */
  lemma AfterSink(t: seq<nat>, r: seq<nat>, s: seq<nat>, start: nat, j: nat)
    requires start <= j < |r| == |s| == |t| && r[j..] == s[j..] && t[j + 1..] == r[j + 1..]
    ensures t[j + 1..] == s[j + 1..]
  {
    assert r[j..][1..] == r[j + 1..] && s[j..][1..] == s[j + 1..];
  }

  lemma JoinRun(r: seq<nat>, start: nat, j: nat, more: seq<nat>)
    requires start <= j <= |r|
    ensures r[..start] + (r[start..j] + more) == r[..j] + more
  {
    assert r[..j] == r[..start] + r[start..j];
  }

  lemma OrderedNothing(cc: nat -> nat)
    ensures Ordered(cc, []) == []
  {
  }

  lemma OrderedStep(cc: nat -> nat, s: seq<nat>)
    requires s != []
    ensures cc(s[0]) == 0 ==> Ordered(cc, s) == [s[0]] + Ordered(cc, s[1..])
  {
  }

  lemma SortFirst(cc: nat -> nat, s: seq<nat>)
    requires s != []
    ensures SortRun(cc, s[..1]) == [s[0]]
  {
    assert s[..1][..0] == [];
  }

  lemma SortNext(cc: nat -> nat, s: seq<nat>, n: nat)
    requires n < |s|
    ensures SortRun(cc, s[..n + 1]) == Insert(cc, SortRun(cc, s[..n]), s[n])
  {
    assert s[..n + 1][..n] == s[..n];
  }

  lemma RunEnds(cc: nat -> nat, s: seq<nat>, n: nat)
    requires 0 < n <= |s| && (forall k :: 0 <= k < n ==> cc(s[k]) != 0) && (n < |s| ==> cc(s[n]) == 0)
    ensures Ordered(cc, s) == SortRun(cc, s[..n]) + Ordered(cc, s[n..])
  {
    hide SortRun;
    var m := RunLength(cc, s);
    assert m == n;
  }

  /* ----- normalisation ----- */

  /** NFD or NFKD of a string, depending on the table. */
  ghost function Nfd(t: Tables, src: seq<nat>, bound: nat): seq<nat>
    requires ValidTables(t) && RankBelow(t, src, bound)
  {
    Ordered(t.cc, FullAll(t, src, bound))
  }

  /** unicode_normalize for NFD and NFKD. */
  method ToNfd(t: Tables, src: seq<nat>, ghost bound: nat) returns (dst: array<nat>)
    requires ValidTables(t) && RankBelow(t, src, bound)
    ensures dst[..] == Nfd(t, src, bound)
  {
    hide FullAll, Ordered, ValidTables;
    var b := new Buffer();
    b.ToNfdRec(t, src, bound);
    var data := b.data;
    assert data == FullAll(t, src, bound);
    dst := new nat[|data|](i requires 0 <= i < |data| => data[i]);
    assert dst[..] == data;
    SortCc(t.cc, dst);
  }

  /** The result is fully decomposed and in canonical order, and only the order of
      non-starters differs from the decomposition. */
  lemma NfdNormal(t: Tables, src: seq<nat>, bound: nat)
    requires ValidTables(t) && RankBelow(t, src, bound)
    ensures AllDecomposed(t, Nfd(t, src, bound)) && CanonicalOrder(t.cc, Nfd(t, src, bound))
    ensures Stable(t.cc, FullAll(t, src, bound), Nfd(t, src, bound))
  {
    hide ValidTables, FullAll, Ordered, OfClass;
    var full, r := FullAll(t, src, bound), Nfd(t, src, bound);
    FullAllDecomposed(t, src, bound);
    OrderedIsCanonical(t.cc, full);
    OrderingIsStable(t.cc, full);
    forall k | 0 <= k < |r| ensures Decomposed(t, r[k]) {
      assert r[k] in multiset(full);
      var j :| 0 <= j < |full| && full[j] == r[k];
    }
  }

  /** Normalising twice is normalising once. */
  lemma NfdTwice(t: Tables, src: seq<nat>, bound: nat, bound': nat)
    requires ValidTables(t) && RankBelow(t, src, bound) && RankBelow(t, Nfd(t, src, bound), bound')
    ensures Nfd(t, Nfd(t, src, bound), bound') == Nfd(t, src, bound)
  {
    hide ValidTables, FullAll, Ordered, CanonicalOrder, AllDecomposed;
    var r := Nfd(t, src, bound);
    NfdNormal(t, src, bound);
    DecomposedSame(t, r, bound');
    CanonicalSame(t.cc, r);
  }

  /* ----- Hangul ----- */

  /** The Hangul part of compose_pair; None where it falls through to the table. */
  function ComposeHangul(c0: nat, c1: nat): Option<nat> {
    if 0x1100 <= c0 < 0x1100 + 19 && 0x1161 <= c1 < 0x1161 + 21 then
      Some(0xac00 + (c0 - 0x1100) * 588 + (c1 - 0x1161) * 28)
    else if 0xac00 <= c0 < 0xac00 + 11172 && (c0 - 0xac00) % 28 == 0 && 0x11a7 <= c1 < 0x11a7 + 28 then
      Some(c0 + c1 - 0x11a7)
    else None
  }

  /** Composing the parts of a syllable gives the syllable back. */
  lemma HangulRoundTrip(c: nat)
    requires IsHangul(c)
    ensures var r := HangulParts(c);
            var lv := ComposeHangul(r[0], r[1]);
            && lv.Some?
            && (|r| == 2 ==> lv == Some(c))
            && (|r| == 3 ==> ComposeHangul(lv.value, r[2]) == Some(c))
  {
    var s := c - 0xac00;
    assert s == s / 588 * 588 + s % 588 / 28 * 28 + s % 28;
  }

  /** Decomposing a composed pair gives the parts back, except for the filler U+11A7,
      which section 3.12 of the Unicode Standard does not count as a trailing jamo. */
  lemma ComposedParts(c0: nat, c1: nat)
    requires ComposeHangul(c0, c1).Some?
    ensures var c := ComposeHangul(c0, c1).value;
            && IsHangul(c)
            && (HangulParts(c) == (if IsHangul(c0) then HangulParts(c0) else [c0]) + [c1] <==> c1 != 0x11a7)
  {
    hide HangulParts;
    if c0 < 0xac00 { LeadVowel(c0, c1); } else { SyllableTail(c0, c1); }
  }

  lemma LeadVowel(c0: nat, c1: nat)
    requires 0x1100 <= c0 < 0x1100 + 19 && 0x1161 <= c1 < 0x1161 + 21
    ensures var c := 0xac00 + (c0 - 0x1100) * 588 + (c1 - 0x1161) * 28;
            IsHangul(c) && HangulParts(c) == [c0] + [c1]
  {
    var l, v := c0 - 0x1100, c1 - 0x1161;
    var s := l * 588 + v * 28;
    assert s / 588 == l && s % 588 == v * 28 && s % 28 == 0;
  }

  lemma SyllableTail(c0: nat, c1: nat)
    requires IsHangul(c0) && (c0 - 0xac00) % 28 == 0 && 0x11a7 <= c1 < 0x11a7 + 28
    ensures var c := c0 + c1 - 0x11a7;
            && IsHangul(c)
            && HangulParts(c0) == [0x1100 + (c0 - 0xac00) / 588, 0x1161 + (c0 - 0xac00) % 588 / 28]
            && HangulParts(c) == if c1 == 0x11a7 then HangulParts(c0) else HangulParts(c0) + [c1]
  {
    var s0 := c0 - 0xac00;
    var t := c1 - 0x11a7;
    var q := s0 / 28;
    assert s0 == q * 28;
    assert (s0 + t) / 588 == s0 / 588 && (s0 + t) % 588 / 28 == s0 % 588 / 28 && (s0 + t) % 28 == t;
  }

  /** A pair composes to exactly the syllable that decomposes to it, or to itself with the
      filler. */
  lemma ComposeExactly(c0: nat, c1: nat, c: nat)
    ensures ComposeHangul(c0, c1) == Some(c) <==>
              && IsHangul(c)
              && (|| HangulParts(c) == (if IsHangul(c0) then HangulParts(c0) else [c0]) + [c1]
                  || (c == c0 && |HangulParts(c)| == 2 && c1 == 0x11a7))
  {
    if ComposeHangul(c0, c1) == Some(c) {
      ComposedParts(c0, c1);
      if c1 == 0x11a7 { SyllableTail(c0, c1); }
    } else if IsHangul(c) && HangulParts(c) == (if IsHangul(c0) then HangulParts(c0) else [c0]) + [c1] {
      PartsCompose(c0, c1, c);
    }
  }

  lemma PartsCompose(c0: nat, c1: nat, c: nat)
    requires IsHangul(c) && HangulParts(c) == (if IsHangul(c0) then HangulParts(c0) else [c0]) + [c1]
    ensures ComposeHangul(c0, c1) == Some(c)
  {
    var s := c - 0xac00;
    assert s == s / 588 * 588 + s % 588 / 28 * 28 + s % 28;
    if IsHangul(c0) {
      var s0 := c0 - 0xac00;
      assert s0 == s0 / 588 * 588 + s0 % 588 / 28 * 28 + s0 % 28;
      var parts, parts0 := HangulParts(c), HangulParts(c0);
      assert |parts| == |parts0| + 1 && parts[0] == parts0[0] && parts[1] == parts0[1] && parts[2] == c1;
    } else {
      assert HangulParts(c)[0] == c0 && HangulParts(c)[1] == c1;
    }
  }
}
