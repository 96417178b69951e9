/** Sets of code points as lists of boundary points: the points 2i and 2i + 1 bound
    one interval, and a point is in the set iff an odd number of boundaries lie at or
    below it. */
module CharRange {
  import opened Syntax
  import opened Semantics
  import Rqsort

  /** How many boundaries lie at or below `c`. */
  function Count(points: seq<nat>, c: nat): nat
    decreases |points|
  {
    if points == [] then 0
    else Count(points[..|points| - 1], c) + if points[|points| - 1] <= c then 1 else 0
  }

  predicate In(points: seq<nat>, c: nat) { Count(points, c) % 2 == 1 }

  ghost predicate Increasing(points: seq<nat>) {
    forall i, j :: 0 <= i < j < |points| ==> points[i] <= points[j]
  }

  /** A list of intervals in order; they may be empty or touch. */
  ghost predicate Intervals(points: seq<nat>) { |points| % 2 == 0 && Increasing(points) }

  ghost predicate Strict(points: seq<nat>) {
    |points| % 2 == 0 && forall i, j :: 0 <= i < j < |points| ==> points[i] < points[j]
  }

  ghost predicate Bounded(points: seq<nat>) { forall i :: 0 <= i < |points| ==> points[i] <= UINT32_MAX }

  /* ----- counting ----- */

  lemma {:induction false} CountConcat(a: seq<nat>, b: seq<nat>, c: nat)
    ensures Count(a + b, c) == Count(a, c) + Count(b, c)
    decreases |b|
  {
    if b == [] {
      assert a + b == a;
    } else {
      assert (a + b)[..|a + b| - 1] == a + b[..|b| - 1];
      CountConcat(a, b[..|b| - 1], c);
    }
  }

  lemma CountOne(v: nat, c: nat)
    ensures Count([v], c) == Num(v <= c)
  {
    assert [v][..0] == [];
  }

  lemma CountPair(a: nat, b: nat, c: nat)
    ensures Count([a, b], c) == Num(a <= c) + Num(b <= c)
  {
    assert [a, b][..1] == [a];
    CountOne(a, c);
  }

  lemma {:induction false} CountAll(points: seq<nat>, c: nat)
    requires forall i :: 0 <= i < |points| ==> points[i] <= c
    ensures Count(points, c) == |points|
    decreases |points|
  {
    if points != [] { CountAll(points[..|points| - 1], c); }
  }

  lemma {:induction false} CountNone(points: seq<nat>, c: nat)
    requires forall i :: 0 <= i < |points| ==> c < points[i]
    ensures Count(points, c) == 0
    decreases |points|
  {
    if points != [] { CountNone(points[..|points| - 1], c); }
  }

  /** The parity test is the interval test. */
  lemma {:induction false} InIsInPoints(points: seq<nat>, c: nat)
    requires Intervals(points)
    ensures In(points, c) <==> InPoints(points, c)
    decreases |points|
  {
    if points != [] {
      var n := |points| - 2;
      var front, lo, hi := points[..n], points[n], points[n + 1];
      assert points == front + [lo, hi];
      CountConcat(front, [lo, hi], c);
      CountPair(lo, hi, c);
      InIsInPoints(front, c);
      LastInterval(points, c);
      if lo <= c { CountAll(front, c); }
    }
  }

  lemma LastInterval(points: seq<nat>, c: nat)
    requires Intervals(points) && points != []
    ensures var n := |points| - 2;
            && points[n] <= points[n + 1]
            && (forall i :: 0 <= i < n ==> points[i] <= points[n])
            && (InPoints(points, c) <==> InPoints(points[..n], c) || points[n] <= c < points[n + 1])
  {
    var n := |points| - 2;
    var front := points[..n];
    if InPoints(front, c) {
      var i :| 0 <= i < |front| / 2 && Within(front, i, c);
      assert Within(points, i, c);
    }
    if points[n] <= c < points[n + 1] { assert Within(points, n / 2, c); }
    if InPoints(points, c) {
      var i :| 0 <= i < |points| / 2 && Within(points, i, c);
      if i < n / 2 { assert Within(front, i, c); }
    }
  }

  /** Nothing at or above the last boundary is in the set. */
  lemma Above(points: seq<nat>, c: nat)
    requires |points| % 2 == 0 && forall i :: 0 <= i < |points| ==> points[i] <= c
    ensures !In(points, c)
  {
    CountAll(points, c);
  }

  /* ----- a strictly increasing list is determined by its set ----- */

  lemma FirstIn(a: seq<nat>, c: nat)
    requires Strict(a) && a != []
    ensures c < a[0] ==> !In(a, c)
    ensures a[0] <= c < a[1] ==> In(a, c)
    ensures a[1] <= c ==> (In(a, c) <==> In(a[2..], c))
  {
    assert a == [a[0], a[1]] + a[2..];
    CountConcat([a[0], a[1]], a[2..], c);
    CountPair(a[0], a[1], c);
    if c < a[1] { CountNone(a[2..], c); }
  }

  lemma {:induction false} UniqueStrict(a: seq<nat>, b: seq<nat>)
    requires Strict(a) && Strict(b) && forall c: nat :: In(a, c) == In(b, c)
    ensures a == b
    decreases |a|
  {
    if a == [] {
      if b != [] { FirstIn(b, b[0]); }
    } else if b == [] {
      FirstIn(a, a[0]);
    } else {
      FirstIn(a, a[0]);
      FirstIn(b, a[0]);
      FirstIn(a, b[0]);
      FirstIn(b, b[0]);
      assert In(a, a[0]) == In(b, a[0]) && In(a, b[0]) == In(b, b[0]);
      SecondSame(a, b);
      RestSame(a, b);
      UniqueStrict(a[2..], b[2..]);
      assert a == [a[0], a[1]] + a[2..] && b == [b[0], b[1]] + b[2..];
    }
  }

  lemma NotSecond(a: seq<nat>)
    requires Strict(a) && a != []
    ensures !In(a, a[1])
  {
    FirstIn(a, a[1]);
    CountNone(a[2..], a[1]);
  }

  lemma SecondSame(a: seq<nat>, b: seq<nat>)
    requires Strict(a) && Strict(b) && a != [] && b != [] && a[0] == b[0] && forall c: nat :: In(a, c) == In(b, c)
    ensures a[1] == b[1]
  {
    NotSecond(a);
    NotSecond(b);
    FirstIn(a, b[1]);
    FirstIn(b, a[1]);
    assert In(a, a[1]) == In(b, a[1]) && In(a, b[1]) == In(b, b[1]);
  }

  lemma RestSame(a: seq<nat>, b: seq<nat>)
    requires Strict(a) && Strict(b) && a != [] && b != [] && a[0] == b[0] && a[1] == b[1]
    requires forall c: nat :: In(a, c) == In(b, c)
    ensures forall c: nat :: In(a[2..], c) == In(b[2..], c)
  {
    forall c: nat ensures In(a[2..], c) == In(b[2..], c) {
      assert In(a, c) == In(b, c);
      if c < a[1] {
        CountNone(a[2..], c);
        CountNone(b[2..], c);
      } else {
        FirstIn(a, c);
        FirstIn(b, c);
      }
    }
  }

  /* ----- set operations ----- */

  datatype Op = Union | Inter | Xor | Sub

  predicate Apply(op: Op, a: bool, b: bool) {
    match op
    case Union => a || b
    case Inter => a && b
    case Xor => a != b
    case Sub => a && !b
  }

  /** Both lists read up to `ai` and `bi`, in order. */
  ghost predicate Merged(a: seq<nat>, b: seq<nat>, ai: nat, bi: nat) {
    && ai <= |a| && bi <= |b|
    && (forall i, j :: 0 <= i < ai && bi <= j < |b| ==> a[i] <= b[j])
    && (forall i, j :: 0 <= j < bi && ai <= i < |a| ==> b[j] <= a[i])
  }

  ghost predicate IsResult(points: seq<nat>, op: Op, a: seq<nat>, b: seq<nat>) {
    forall c: nat :: In(points, c) == Apply(op, In(a, c), In(b, c))
  }

  ghost predicate AllBelow(a: seq<nat>, b: seq<nat>) {
    forall i, j :: 0 <= i < |a| && 0 <= j < |b| ==> a[i] <= b[j]
  }

  /** The points collected so far describe the operation on what has been read. */
  ghost predicate Collected(points: seq<nat>, op: Op, a: seq<nat>, b: seq<nat>, ai: nat, bi: nat)
    requires ai <= |a| && bi <= |b|
  {
    && Increasing(points)
    && (|points| % 2 == 1) == Apply(op, ai % 2 == 1, bi % 2 == 1)
    && AllBelow(points, a[ai..]) && AllBelow(points, b[bi..])
    && IsResult(points, op, a[..ai], b[..bi])
  }

  function Kept(points: seq<nat>, v: nat, keep: bool): seq<nat> {
    if keep then points + [v] else points
  }

  lemma MergedMore(a: seq<nat>, b: seq<nat>, ai: nat, bi: nat, da: nat, db: nat, v: nat)
    requires Increasing(a) && Increasing(b) && Merged(a, b, ai, bi) && Reads(a, b, ai, bi, da, db, v)
    ensures Merged(a, b, ai + da, bi + db)
  {
  }

  /** One more boundary `v`, read from one list or from both, is kept iff it changes
      the status. */
  lemma CollectOne(points: seq<nat>, op: Op, a: seq<nat>, b: seq<nat>, ai: nat, bi: nat, da: nat, db: nat, v: nat)
    requires Increasing(a) && Increasing(b) && Merged(a, b, ai, bi) && Collected(points, op, a, b, ai, bi)
    requires Reads(a, b, ai, bi, da, db, v)
    ensures Merged(a, b, ai + da, bi + db)
    ensures var isIn := Apply(op, (ai + da) % 2 == 1, (bi + db) % 2 == 1);
            Collected(Kept(points, v, isIn != (|points| % 2 == 1)), op, a, b, ai + da, bi + db)
  {
    hide In, IsResult, Apply, AllBelow, Increasing;
    var keep := Apply(op, (ai + da) % 2 == 1, (bi + db) % 2 == 1) != (|points| % 2 == 1);
    ResultGrows(points, op, a, b, ai, bi, da, db, v);
    OrderGrows(points, a, ai, da, v, keep);
    OrderGrows(points, b, bi, db, v, keep);
    LastIsLargest(points, a, b, ai, bi, da, db, v);
    KeptIncreasing(points, v, keep);
    ParityKept(points, v, Apply(op, (ai + da) % 2 == 1, (bi + db) % 2 == 1));
    MergedMore(a, b, ai, bi, da, db, v);
  }

  /** `v` is the next boundary: the smaller of the two heads. */
  ghost predicate Reads(a: seq<nat>, b: seq<nat>, ai: nat, bi: nat, da: nat, db: nat, v: nat) {
    && da <= 1 && db <= 1 && da + db >= 1 && ai + da <= |a| && bi + db <= |b|
    && (da == 1 ==> a[ai] == v) && (db == 1 ==> b[bi] == v)
    && (ai < |a| ==> v <= a[ai]) && (bi < |b| ==> v <= b[bi])
  }

  lemma LastIsLargest(points: seq<nat>, a: seq<nat>, b: seq<nat>, ai: nat, bi: nat, da: nat, db: nat, v: nat)
    requires Reads(a, b, ai, bi, da, db, v) && AllBelow(points, a[ai..]) && AllBelow(points, b[bi..])
    ensures forall k :: 0 <= k < |points| ==> points[k] <= v
  {
    if da == 1 { assert a[ai..][0] == v; } else { assert b[bi..][0] == v; }
  }

  lemma KeptIncreasing(points: seq<nat>, v: nat, keep: bool)
    requires Increasing(points) && forall k :: 0 <= k < |points| ==> points[k] <= v
    ensures Increasing(Kept(points, v, keep))
  {
  }

  lemma OrderGrows(points: seq<nat>, a: seq<nat>, ai: nat, da: nat, v: nat, keep: bool)
    requires Increasing(a) && da <= 1 && ai + da <= |a| && (ai < |a| ==> v <= a[ai]) && AllBelow(points, a[ai..])
    ensures AllBelow(Kept(points, v, keep), a[ai + da..])
  {
    var points', rest := Kept(points, v, keep), a[ai + da..];
    forall k, i | 0 <= k < |points'| && 0 <= i < |rest| ensures points'[k] <= rest[i] {
      assert rest[i] == a[ai..][da + i] == a[ai + da + i];
      if k < |points| { assert points[k] <= a[ai..][da + i]; } else { assert a[ai] <= a[ai + da + i]; }
    }
  }

  lemma ResultGrows(points: seq<nat>, op: Op, a: seq<nat>, b: seq<nat>, ai: nat, bi: nat, da: nat, db: nat, v: nat)
    requires Increasing(a) && Increasing(b) && Merged(a, b, ai, bi) && Collected(points, op, a, b, ai, bi)
    requires Reads(a, b, ai, bi, da, db, v)
    ensures var isIn := Apply(op, (ai + da) % 2 == 1, (bi + db) % 2 == 1);
            IsResult(Kept(points, v, isIn != (|points| % 2 == 1)), op, a[..ai + da], b[..bi + db])
  {
    hide Increasing, Merged, AllBelow, Collected, Apply, In;
    var isIn := Apply(op, (ai + da) % 2 == 1, (bi + db) % 2 == 1);
    var points' := Kept(points, v, isIn != (|points| % 2 == 1));
    forall c: nat ensures In(points', c) == Apply(op, In(a[..ai + da], c), In(b[..bi + db], c)) {
      ResultAt(points, op, a, b, ai, bi, da, db, v, c);
    }
  }

  lemma ParityKept(points: seq<nat>, v: nat, isIn: bool)
    ensures (|Kept(points, v, isIn != (|points| % 2 == 1))| % 2 == 1) == isIn
  {
  }

  lemma CountKept(points: seq<nat>, v: nat, keep: bool, c: nat)
    ensures Count(Kept(points, v, keep), c) == Count(points, c) + if keep && v <= c then 1 else 0
  {
    CountConcat(points, [v], c);
    CountOne(v, c);
  }

  lemma ResultAt(points: seq<nat>, op: Op, a: seq<nat>, b: seq<nat>, ai: nat, bi: nat, da: nat, db: nat, v: nat, c: nat)
    requires Increasing(a) && Increasing(b) && Merged(a, b, ai, bi) && Collected(points, op, a, b, ai, bi)
    requires Reads(a, b, ai, bi, da, db, v)
    ensures var isIn := Apply(op, (ai + da) % 2 == 1, (bi + db) % 2 == 1);
            In(Kept(points, v, isIn != (|points| % 2 == 1)), c) == Apply(op, In(a[..ai + da], c), In(b[..bi + db], c))
  {
    hide Increasing, Merged, AllBelow, Apply, IsResult, Kept;
    var isIn := Apply(op, (ai + da) % 2 == 1, (bi + db) % 2 == 1);
    var keep := isIn != (|points| % 2 == 1);
    ResultBefore(points, op, a[..ai], b[..bi], c);
    CountKept(points, v, keep, c);
    CountPrefix(a, ai, da, v, c);
    CountPrefix(b, bi, db, v, c);
    if v <= c {
      AllRead(points, a, b, ai, bi, da, db, v, c);
      ParityKept(points, v, isIn);
      ParityIn(Kept(points, v, keep), |Kept(points, v, keep)|, c);
      ParityIn(a[..ai + da], ai + da, c);
      ParityIn(b[..bi + db], bi + db, c);
    }
  }

  lemma ResultBefore(points: seq<nat>, op: Op, a: seq<nat>, b: seq<nat>, c: nat)
    requires IsResult(points, op, a, b)
    ensures In(points, c) == Apply(op, In(a, c), In(b, c))
  {
    hide In, Apply;
  }

  lemma ParityIn(points: seq<nat>, n: nat, c: nat)
    ensures Count(points, c) == n ==> In(points, c) == (n % 2 == 1)
  {
  }

  lemma CountPrefix(a: seq<nat>, ai: nat, da: nat, v: nat, c: nat)
    requires da <= 1 && ai + da <= |a| && (da == 1 ==> a[ai] == v)
    ensures Count(a[..ai + da], c) == Count(a[..ai], c) + da * Num(v <= c)
  {
    if da == 1 { assert a[..ai + 1][..ai] == a[..ai]; }
  }

  /** Everything read and collected lies at or below `v`. */
  lemma AllRead(points: seq<nat>, a: seq<nat>, b: seq<nat>, ai: nat, bi: nat, da: nat, db: nat, v: nat, c: nat)
    requires Increasing(a) && Increasing(b) && Merged(a, b, ai, bi) && AllBelow(points, a[ai..])
             && AllBelow(points, b[bi..])
    requires Reads(a, b, ai, bi, da, db, v) && v <= c
    ensures Count(points, c) == |points| && Count(a[..ai], c) == ai && Count(b[..bi], c) == bi
  {
    LastIsLargest(points, a, b, ai, bi, da, db, v);
    forall i | 0 <= i < ai ensures a[i] <= c {
      if da == 1 { assert a[i] <= a[ai]; } else { assert a[i] <= b[bi]; }
    }
    forall j | 0 <= j < bi ensures b[j] <= c {
      if db == 1 { assert b[j] <= b[bi]; } else { assert b[j] <= a[ai]; }
    }
    CountAll(points, c);
    CountAll(a[..ai], c);
    CountAll(b[..bi], c);
  }

  /* ----- compression ----- */

  ghost predicate SameSet(p: seq<nat>, q: seq<nat>) { forall c: nat :: In(p, c) == In(q, c) }

  ghost predicate SetIs(p: seq<nat>, lo: nat, hi: nat) { forall c: nat :: In(p, c) == (lo <= c < hi) }

  /** The output so far and the intervals read so far are the same set. */
  ghost predicate Compressed(pt: seq<nat>, before: seq<nat>, k: nat, i: nat) {
    && k <= i <= |before| == |pt| && k % 2 == 0 && i % 2 == 0
    && Strict(pt[..k])
    && (k > 0 && i < |before| ==> pt[k - 1] < before[i])
    && (forall m :: i <= m < |pt| ==> pt[m] == before[m])
    && SameSet(pt[..k], before[..i])
    && (forall m :: 0 <= m < k ==> pt[m] in before)
  }

  lemma PairSet(lo: nat, hi: nat)
    requires lo <= hi
    ensures SetIs([lo, hi], lo, hi)
  {
    forall c: nat ensures In([lo, hi], c) == (lo <= c < hi) { CountPair(lo, hi, c); }
  }

  /** Appending points adds the sets, as long as they do not overlap. */
  lemma Append(p: seq<nat>, q: seq<nat>, r: seq<nat>, lo: nat, hi: nat)
    requires SameSet(p, q) && SetIs(r, lo, hi)
    ensures SameSet(p + [lo, hi], q + r) || hi < lo
  {
    if lo <= hi {
      forall c: nat ensures In(p + [lo, hi], c) == In(q + r, c) {
        CountConcat(p, [lo, hi], c);
        CountConcat(q, r, c);
        CountPair(lo, hi, c);
        assert In(p, c) == In(q, c) && In(r, c) == (lo <= c < hi);
      }
    }
  }

  lemma EmptySkipped(pt: seq<nat>, before: seq<nat>, k: nat, i: nat)
    requires Intervals(before) && Compressed(pt, before, k, i) && i + 1 < |before| && before[i] == before[i + 1]
    ensures Compressed(pt, before, k, i + 2)
  {
    hide In;
    var v := before[i];
    SetOfNothing(v);
    assert before[..i + 2] == before[..i] + [v, v];
    Append(pt[..k], before[..i], [v, v], v, v);
    Dropped(pt[..k], v);
    if k > 0 && i + 2 < |before| { assert before[i] <= before[i + 2]; }
  }

  lemma SetOfNothing(v: nat)
    ensures SetIs([v, v], v, v)
  {
    PairSet(v, v);
  }

  lemma Dropped(p: seq<nat>, v: nat)
    ensures SameSet(p + [v, v], p)
  {
    forall c: nat ensures In(p + [v, v], c) == In(p, c) {
      CountConcat(p, [v, v], c);
      CountPair(v, v, c);
    }
  }

  /** The intervals from `i` to `j` touch one another. */
  ghost predicate Chain(before: seq<nat>, i: nat, j: nat) {
    i <= j && j + 1 < |before| && (j - i) % 2 == 0 && SetIs(before[i..j + 2], before[i], before[j + 1])
  }

  lemma ChainStart(before: seq<nat>, i: nat)
    requires Intervals(before) && i + 1 < |before|
    ensures Chain(before, i, i)
  {
    assert before[i..i + 2] == [before[i], before[i + 1]];
    PairSet(before[i], before[i + 1]);
  }

  lemma ChainNext(before: seq<nat>, i: nat, j: nat)
    requires Intervals(before) && Chain(before, i, j) && j + 3 < |before| && before[j + 1] == before[j + 2]
    ensures Chain(before, i, j + 2)
  {
    var lo, mid, hi := before[i], before[j + 1], before[j + 3];
    assert before[i..j + 4] == before[i..j + 2] + [mid, hi];
    assert lo <= mid <= hi;
    Joined(before[i..j + 2], lo, mid, hi);
  }

  lemma Joined(p: seq<nat>, lo: nat, mid: nat, hi: nat)
    requires SetIs(p, lo, mid) && lo <= mid <= hi
    ensures SetIs(p + [mid, hi], lo, hi)
  {
    forall c: nat ensures In(p + [mid, hi], c) == (lo <= c < hi) {
      CountConcat(p, [mid, hi], c);
      CountPair(mid, hi, c);
      assert In(p, c) == (lo <= c < mid);
    }
  }

  lemma ChainCopied(pt: seq<nat>, before: seq<nat>, k: nat, i: nat, j: nat)
    requires Intervals(before) && Compressed(pt, before, k, i) && Chain(before, i, j) && before[i] < before[i + 1]
    requires j + 3 < |before| ==> before[j + 1] != before[j + 2]
    ensures Compressed(pt[k := before[i]][k + 1 := before[j + 1]], before, k + 2, j + 2)
  {
    hide In, SetIs, SameSet, Strict, Increasing;
    var lo, hi := before[i], before[j + 1];
    var pt' := pt[k := lo][k + 1 := hi];
    ChainOrder(before, i, j);
    assert pt'[..k + 2] == pt[..k] + [lo, hi];
    assert before[..j + 2] == before[..i] + before[i..j + 2];
    Append(pt[..k], before[..i], before[i..j + 2], lo, hi);
    assert k > 0 ==> pt[..k][k - 1] == pt[k - 1];
    StrictAppend(pt[..k], lo, hi);
  }

  lemma ChainOrder(before: seq<nat>, i: nat, j: nat)
    requires Intervals(before) && i <= j && j + 1 < |before|
    ensures before[i + 1] <= before[j + 1] && (j + 2 < |before| ==> before[j + 1] <= before[j + 2])
  {
  }

  lemma StrictAppend(p: seq<nat>, lo: nat, hi: nat)
    requires Strict(p) && lo < hi && (p != [] ==> p[|p| - 1] < lo)
    ensures Strict(p + [lo, hi])
  {
    forall m | 0 <= m < |p| ensures p[m] < lo {
      if m < |p| - 1 { assert p[m] < p[|p| - 1]; }
    }
  }

  class Range {
    var points: seq<nat>

    constructor ()
      ensures points == []
    {
      points := [];
    }

    method AddPoint(v: nat)
      modifies this
      ensures points == old(points) + [v]
    {
      points := points + [v];
    }

    method AddInterval(c1: nat, c2: nat)
      modifies this
      ensures points == old(points) + [c1, c2]
    {
      points := points + [c1, c2];
    }

    /** cr_compress: merge touching intervals and drop empty ones, in place. */
    method Compress()
      requires Intervals(points)
      modifies this
      ensures Strict(points) && (forall c: nat :: In(points, c) == In(old(points), c))
      ensures forall m :: 0 <= m < |points| ==> points[m] in old(points)
    {
      hide Intervals, Strict, Chain, In, SameSet;
      ghost var before := points;
      var i, k := 0, 0;
      StartCompress(before);
      while i + 1 < |points|
        invariant k <= i <= |before| == |points| && i % 2 == 0 && Compressed(points, before, k, i)
        decreases |points| - i
      {
        if points[i] == points[i + 1] {
          EmptySkipped(points, before, k, i);
          i := i + 2;
        } else {
          var j := i;
          ghost var now := points;
          ChainStart(before, i);
          while j + 3 < |points| && points[j + 1] == points[j + 2]
            invariant points == now && i <= j && j + 1 < |points| && j % 2 == 0 && Chain(before, i, j)
            decreases |points| - j
          {
            ChainNext(before, i, j);
            j := j + 2;
          }
          Ordered(before, i);
          ChainCopied(points, before, k, i, j);
          points := points[k := points[i]][k + 1 := points[j + 1]];
          k := k + 2;
          i := j + 2;
        }
      }
      Even(before);
      assert i == |before| && before[..i] == before;
      points := points[..k];
      SameSetMeans(points, before);
    }

    /** cr_op: the merge of two lists. */
    method Operate(a: seq<nat>, b: seq<nat>, op: Op)
      requires Intervals(a) && Intervals(b) && points == []
      modifies this
      ensures Strict(points) && forall c: nat :: In(points, c) == Apply(op, In(a, c), In(b, c))
      ensures forall m :: 0 <= m < |points| ==> points[m] in a || points[m] in b
    {
      hide Collected, Merged, In, Strict, FromThese, Apply, Increasing;
      var aIdx, bIdx := 0, 0;
      IntervalsMean(a);
      IntervalsMean(b);
      StartCollect(op, a, b);
      NoneFrom(a, b);
      while aIdx < |a| || bIdx < |b|
        invariant aIdx <= |a| && bIdx <= |b| && Merged(a, b, aIdx, bIdx) && Collected(points, op, a, b, aIdx, bIdx)
        invariant FromThese(points, a, b)
        decreases |a| + |b| - aIdx - bIdx
      {
        var v, da, db;
        if aIdx < |a| && bIdx < |b| {
          if a[aIdx] < b[bIdx] {
            v, da, db := a[aIdx], 1, 0;
          } else if a[aIdx] == b[bIdx] {
            v, da, db := a[aIdx], 1, 1;
          } else {
            v, da, db := b[bIdx], 0, 1;
          }
        } else if aIdx < |a| {
          v, da, db := a[aIdx], 1, 0;
        } else {
          v, da, db := b[bIdx], 0, 1;
        }
        CollectOne(points, op, a, b, aIdx, bIdx, da, db, v);
        OneFrom(points, a, b, v);
        aIdx, bIdx := aIdx + da, bIdx + db;
        var isIn := Apply(op, aIdx % 2 == 1, bIdx % 2 == 1);
        if isIn != (|points| % 2 == 1) { AddPoint(v); }
      }
      assert a[..|a|] == a && b[..|b|] == b;
      AllCollected(points, op, a, b);
      ghost var collected := points;
      Compress();
      AllFrom(collected, points, a, b);
    }

    /** cr_op1. */
    method OperateWith(b: seq<nat>, op: Op)
      requires Intervals(points) && Intervals(b)
      modifies this
      ensures Strict(points) && forall c: nat :: In(points, c) == Apply(op, In(old(points), c), In(b, c))
      ensures forall m :: 0 <= m < |points| ==> points[m] in old(points) || points[m] in b
    {
      var a := points;
      points := [];
      Operate(a, b, op);
    }

    /** cr_union_interval: both ends included. */
    method UnionInterval(c1: nat, c2: nat)
      requires Intervals(points) && c1 <= c2 < UINT32_MAX
      modifies this
      ensures Strict(points) && forall c: nat :: In(points, c) == (In(old(points), c) || c1 <= c <= c2)
    {
      var b := [c1, c2 + 1];
      PairSet(c1, c2 + 1);
      OperateWith(b, Union);
    }

    /** cr_invert: the complement below UINT32_MAX. */
    method Invert()
      requires Intervals(points) && Bounded(points)
      modifies this
      ensures Strict(points) && Bounded(points)
      ensures forall c: nat :: In(points, c) == (c < UINT32_MAX && !In(old(points), c))
    {
      ghost var before := points;
      points := [0] + points + [UINT32_MAX];
      ghost var wide := points;
      forall c: nat ensures In(wide, c) == (c < UINT32_MAX && !In(before, c)) {
        Complement(before, c);
      }
      Compress();
    }
  }

  lemma Complement(points: seq<nat>, c: nat)
    requires Intervals(points) && Bounded(points)
    ensures In([0] + points + [UINT32_MAX], c) == (c < UINT32_MAX && !In(points, c))
  {
    CountConcat([0] + points, [UINT32_MAX], c);
    CountConcat([0], points, c);
    CountOne(0, c);
    CountOne(UINT32_MAX, c);
    if c >= UINT32_MAX { CountAll(points, c); }
  }

  /** Inverting twice gives the list back, if it was compressed. */
  lemma InvertTwice(p: seq<nat>, q: seq<nat>, r: seq<nat>)
    requires Strict(p) && Bounded(p) && Strict(r)
    requires forall c: nat :: In(q, c) == (c < UINT32_MAX && !In(p, c))
    requires forall c: nat :: In(r, c) == (c < UINT32_MAX && !In(q, c))
    ensures r == p
  {
    forall c: nat ensures In(r, c) == In(p, c) {
      if c >= UINT32_MAX { Above(p, c); }
      assert In(q, c) == (c < UINT32_MAX && !In(p, c));
    }
    UniqueStrict(r, p);
  }

  lemma SameSetMeans(p: seq<nat>, q: seq<nat>)
    requires SameSet(p, q)
    ensures forall c: nat :: In(p, c) == In(q, c)
  {
  }

  lemma StartCompress(before: seq<nat>)
    requires Intervals(before)
    ensures Compressed(before, before, 0, 0)
  {
    assert before[..0] == [];
  }

  lemma Ordered(before: seq<nat>, i: nat)
    requires Intervals(before) && i + 1 < |before|
    ensures before[i] <= before[i + 1]
  {
  }

  lemma Even(before: seq<nat>)
    requires Intervals(before)
    ensures |before| % 2 == 0
  {
  }

  /** Every point was a point of one of the two lists. */
  ghost predicate FromThese(points: seq<nat>, a: seq<nat>, b: seq<nat>) {
    forall m :: 0 <= m < |points| ==> points[m] in a || points[m] in b
  }

  lemma NoneFrom(a: seq<nat>, b: seq<nat>)
    ensures FromThese([], a, b)
  {
  }

  lemma OneFrom(points: seq<nat>, a: seq<nat>, b: seq<nat>, v: nat)
    requires FromThese(points, a, b) && (v in a || v in b)
    ensures FromThese(points + [v], a, b)
  {
  }

  lemma AllFrom(points: seq<nat>, fewer: seq<nat>, a: seq<nat>, b: seq<nat>)
    requires FromThese(points, a, b) && forall m :: 0 <= m < |fewer| ==> fewer[m] in points
    ensures forall m :: 0 <= m < |fewer| ==> fewer[m] in a || fewer[m] in b
  {
  }

  lemma IntervalsMean(points: seq<nat>)
    requires Intervals(points)
    ensures |points| % 2 == 0 && Increasing(points)
  {
    hide Increasing;
  }

  lemma StartCollect(op: Op, a: seq<nat>, b: seq<nat>)
    ensures Merged(a, b, 0, 0) && Collected([], op, a, b, 0, 0)
  {
    assert a[..0] == [] && b[..0] == [];
  }

  lemma AllCollected(points: seq<nat>, op: Op, a: seq<nat>, b: seq<nat>)
    requires |a| % 2 == 0 && |b| % 2 == 0 && Collected(points, op, a, b, |a|, |b|)
    ensures Intervals(points) && forall c: nat :: In(points, c) == Apply(op, In(a, c), In(b, c))
  {
    hide In;
    assert a[..|a|] == a && b[..|b|] == b;
  }

  /* ----- lists that are not in order ----- */

  /** The intervals of a list, whatever their order. */
  function PairsOf(points: seq<nat>): (ps: seq<(nat, nat)>)
    ensures |ps| == |points| / 2
  {
    seq(|points| / 2, i requires 0 <= i < |points| / 2 => (points[2 * i], points[2 * i + 1]))
  }

  function Flat(ps: seq<(nat, nat)>): (points: seq<nat>)
    ensures |points| == 2 * |ps|
    ensures forall i :: 0 <= i < |ps| ==> points[2 * i] == ps[i].0 && points[2 * i + 1] == ps[i].1
  {
    seq(2 * |ps|, m requires 0 <= m < 2 * |ps| => if m % 2 == 0 then ps[m / 2].0 else ps[m / 2].1)
  }

  ghost predicate InPairs(ps: seq<(nat, nat)>, c: nat) { exists i :: 0 <= i < |ps| && ps[i].0 <= c < ps[i].1 }

  /** Intervals that end no sooner than they start, and intervals that are not empty. */
  ghost predicate Upward(ps: seq<(nat, nat)>) { forall i :: 0 <= i < |ps| ==> ps[i].0 <= ps[i].1 }

  ghost predicate Proper(ps: seq<(nat, nat)>) { forall i :: 0 <= i < |ps| ==> ps[i].0 < ps[i].1 }

  lemma PairsSame(points: seq<nat>, c: nat)
    ensures InPoints(points, c) <==> InPairs(PairsOf(points), c)
  {
    var ps := PairsOf(points);
    if InPoints(points, c) {
      var i :| 0 <= i < |points| / 2 && Within(points, i, c);
      assert ps[i].0 <= c < ps[i].1;
    }
    if InPairs(ps, c) {
      var i :| 0 <= i < |ps| && ps[i].0 <= c < ps[i].1;
      assert Within(points, i, c);
    }
  }

  lemma InPairsConcat(a: seq<(nat, nat)>, b: seq<(nat, nat)>, c: nat)
    ensures InPairs(a + b, c) <==> InPairs(a, c) || InPairs(b, c)
  {
    if InPairs(a + b, c) {
      var i :| 0 <= i < |a + b| && (a + b)[i].0 <= c < (a + b)[i].1;
      if i < |a| { assert a[i].0 <= c < a[i].1; } else { assert b[i - |a|].0 <= c < b[i - |a|].1; }
    }
    if InPairs(a, c) {
      var i :| 0 <= i < |a| && a[i].0 <= c < a[i].1;
      assert (a + b)[i] == a[i];
    }
    if InPairs(b, c) {
      var i :| 0 <= i < |b| && b[i].0 <= c < b[i].1;
      assert (a + b)[|a| + i] == b[i];
    }
  }

  /** Rearranging intervals does not change the set. */
  lemma InPairsRearranged(a: seq<(nat, nat)>, b: seq<(nat, nat)>, c: nat)
    requires multiset(a) == multiset(b) && InPairs(a, c)
    ensures InPairs(b, c)
  {
    var i :| 0 <= i < |a| && a[i].0 <= c < a[i].1;
    assert a[i] in multiset(b);
    var j :| 0 <= j < |b| && b[j] == a[i];
  }

  lemma ProperRearranged(a: seq<(nat, nat)>, b: seq<(nat, nat)>)
    requires multiset(a) == multiset(b) && Upward(a)
    ensures Upward(b) && (Proper(a) ==> Proper(b))
  {
    forall j | 0 <= j < |b| ensures b[j].0 <= b[j].1 && (Proper(a) ==> b[j].0 < b[j].1) {
      assert b[j] in multiset(a);
      var i :| 0 <= i < |a| && a[i] == b[j];
    }
  }

  function PointCmp(): ((nat, nat), (nat, nat)) -> int {
    (x: (nat, nat), y: (nat, nat)) => Num(x.0 > y.0) - Num(x.0 < y.0)
  }

  lemma PointCmpOrders()
    ensures Rqsort.TotalPreorder(PointCmp())
  {
  }

  /** Some intervals cover exactly [lo, hi). */
  ghost predicate Cover(ps: seq<(nat, nat)>, lo: nat, hi: nat) {
    forall c: nat :: InPairs(ps, c) == (lo <= c < hi)
  }

  ghost predicate SamePairs(ps: seq<(nat, nat)>, qs: seq<(nat, nat)>) {
    forall c: nat :: InPairs(ps, c) == InPairs(qs, c)
  }

  /** The output holds disjoint, separate intervals in order. */
  ghost predicate Separate(ps: seq<(nat, nat)>) {
    Upward(ps) && forall i, j :: 0 <= i < j < |ps| ==> ps[i].1 < ps[j].0
  }

  lemma CoverOne(p: (nat, nat))
    requires p.0 <= p.1
    ensures Cover([p], p.0, p.1)
  {
    forall c: nat ensures InPairs([p], c) == (p.0 <= c < p.1) {
      if p.0 <= c < p.1 { assert [p][0].0 <= c < [p][0].1; }
    }
  }

  lemma CoverMore(ps: seq<(nat, nat)>, lo: nat, hi: nat, p: (nat, nat))
    requires Cover(ps, lo, hi) && lo <= p.0 <= hi && p.0 <= p.1
    ensures Cover(ps + [p], lo, if p.1 <= hi then hi else p.1)
  {
    CoverOne(p);
    forall c: nat ensures InPairs(ps + [p], c) == (lo <= c < if p.1 <= hi then hi else p.1) {
      InPairsConcat(ps, [p], c);
      assert InPairs(ps, c) == (lo <= c < hi) && InPairs([p], c) == (p.0 <= c < p.1);
    }
  }

  lemma JoinPairs(a: seq<(nat, nat)>, b: seq<(nat, nat)>, g: seq<(nat, nat)>, lo: nat, hi: nat)
    requires SamePairs(a, b) && Cover(g, lo, hi) && lo <= hi
    ensures SamePairs(a + [(lo, hi)], b + g)
  {
    CoverOne((lo, hi));
    forall c: nat ensures InPairs(a + [(lo, hi)], c) == InPairs(b + g, c) {
      InPairsConcat(a, [(lo, hi)], c);
      InPairsConcat(b, g, c);
      assert InPairs(a, c) == InPairs(b, c) && InPairs(g, c) == (lo <= c < hi) == InPairs([(lo, hi)], c);
    }
  }

  /** The second loop of cr_sort_and_remove_overlap, in place on the sorted pairs. */
  method RemoveOverlap(sorted: seq<(nat, nat)>) returns (out: seq<(nat, nat)>)
    requires Upward(sorted) && forall i, j :: 0 <= i < j < |sorted| ==> sorted[i].0 <= sorted[j].0
    ensures Separate(out) && SamePairs(out, sorted) && (Proper(sorted) ==> Proper(out))
  {
    hide InPairs, SamePairs, Cover, Separate, Proper, Upward;
    var pt := sorted;
    var j, i := 0, 0;
    NothingYet();
    assert sorted[..0] == [] && pt[..0] == [];
    while i < |pt|
      invariant j <= i <= |pt| == |sorted|
      invariant forall m :: i <= m < |pt| ==> pt[m] == sorted[m]
      invariant Separate(pt[..j]) && SamePairs(pt[..j], sorted[..i]) && (Proper(sorted) ==> Proper(pt[..j]))
      invariant j > 0 && i < |pt| ==> pt[j - 1].1 < pt[i].0
    {
      ghost var first := i;
      var start, end;
      start, end, i := Absorb(pt, i, sorted);
      JoinPairs(pt[..j], sorted[..first], sorted[first..i], start, end);
      assert sorted[..i] == sorted[..first] + sorted[first..i];
      SeparateAppend(pt[..j], start, end);
      pt := pt[j := (start, end)];
      assert pt[..j + 1] == pt[..j] + [(start, end)];
      j := j + 1;
    }
    assert sorted[..i] == sorted;
    out := pt[..j];
  }

  /** The intervals from `first` on that overlap or touch become one. */
  method Absorb(pt: seq<(nat, nat)>, first: nat, ghost sorted: seq<(nat, nat)>) returns (start: nat, end: nat, i: nat)
    requires first < |pt| == |sorted| && Upward(sorted) && (forall m :: first <= m < |pt| ==> pt[m] == sorted[m])
    requires forall i, j :: 0 <= i < j < |sorted| ==> sorted[i].0 <= sorted[j].0
    ensures first < i <= |pt| && start == sorted[first].0 <= end && Cover(sorted[first..i], start, end)
    ensures Proper(sorted) ==> start < end
    ensures i < |pt| ==> end < pt[i].0
  {
    hide InPairs, Cover, Proper, Upward;
    start, end := pt[first].0, pt[first].1;
    UpwardAt(sorted, first);
    CoverOne(sorted[first]);
    i := first + 1;
    assert sorted[first..i] == [sorted[first]];
    while i < |pt|
      invariant first < i <= |pt| && start <= end && (Proper(sorted) ==> start < end)
      invariant Cover(sorted[first..i], start, end)
    {
      var (start1, end1) := pt[i];
      if start1 > end { break; }
      UpwardAt(sorted, i);
      CoverMore(sorted[first..i], start, end, sorted[i]);
      assert sorted[first..i + 1] == sorted[first..i] + [sorted[i]];
      if end1 > end { end := end1; }
      i := i + 1;
    }
  }

  lemma UpwardAt(ps: seq<(nat, nat)>, i: nat)
    requires Upward(ps) && i < |ps|
    ensures ps[i].0 <= ps[i].1 && (Proper(ps) ==> ps[i].0 < ps[i].1)
  {
  }

  lemma NothingYet()
    ensures Separate([]) && Proper([]) && SamePairs([], [])
  {
  }

  lemma SeparateAppend(ps: seq<(nat, nat)>, lo: nat, hi: nat)
    requires Separate(ps) && lo <= hi && (ps != [] ==> ps[|ps| - 1].1 < lo)
    ensures Separate(ps + [(lo, hi)]) && (Proper(ps) && lo < hi ==> Proper(ps + [(lo, hi)]))
  {
    forall i | 0 <= i < |ps| ensures ps[i].1 < lo {
      if i < |ps| - 1 { assert ps[i].1 < ps[|ps| - 1].0 <= ps[|ps| - 1].1; }
    }
  }

  lemma FlatAt(ps: seq<(nat, nat)>, m: nat)
    requires m < 2 * |ps|
    ensures m / 2 < |ps| && Flat(ps)[m] == if m % 2 == 0 then ps[m / 2].0 else ps[m / 2].1
  {
  }

  lemma PairsAscend(ps: seq<(nat, nat)>, i: nat, j: nat)
    requires Separate(ps) && i <= j < |ps|
    ensures ps[i].0 <= ps[i].1 && ps[j].0 <= ps[j].1 && (i < j ==> ps[i].1 < ps[j].0)
  {
  }

  /** Separate intervals make a list in order, which is compressed if none is empty. */
  lemma SeparateIsOrdered(ps: seq<(nat, nat)>)
    requires Separate(ps)
    ensures Intervals(Flat(ps)) && (Proper(ps) ==> Strict(Flat(ps))) && PairsOf(Flat(ps)) == ps
  {
    hide Flat, Separate, Proper;
    var points := Flat(ps);
    FlatTwice(ps);
    forall m, n | 0 <= m < n < |points|
      ensures points[m] <= points[n] && (Proper(ps) ==> points[m] < points[n])
    {
      FlatAscends(ps, m, n);
    }
  }

  lemma FlatTwice(ps: seq<(nat, nat)>)
    ensures PairsOf(Flat(ps)) == ps
  {
    hide Flat;
    var points := Flat(ps);
    forall i | 0 <= i < |ps| ensures PairsOf(points)[i] == ps[i] {
      assert points[2 * i] == ps[i].0 && points[2 * i + 1] == ps[i].1;
    }
  }

  lemma FlatAscends(ps: seq<(nat, nat)>, m: nat, n: nat)
    requires Separate(ps) && m < n < |Flat(ps)|
    ensures Flat(ps)[m] <= Flat(ps)[n] && (Proper(ps) ==> Flat(ps)[m] < Flat(ps)[n])
  {
    hide Flat, Separate, Proper;
    FlatAt(ps, m);
    FlatAt(ps, n);
    PairsAscend(ps, m / 2, n / 2);
    ProperAt(ps, m / 2);
    ProperAt(ps, n / 2);
  }

  lemma ProperAt(ps: seq<(nat, nat)>, i: nat)
    requires i < |ps|
    ensures Proper(ps) ==> ps[i].0 < ps[i].1
  {
  }

  /** cr_sort_and_remove_overlap: intervals in any order, overlapping or not, become a
      list of the same set in order, which is compressed if none of them was empty. */
  method SortAndRemoveOverlap(cr: Range)
    requires |cr.points| % 2 == 0 && Upward(PairsOf(cr.points))
    modifies cr
    ensures Intervals(cr.points) && forall c: nat :: In(cr.points, c) == InPairs(PairsOf(old(cr.points)), c)
    ensures Proper(PairsOf(old(cr.points))) ==> Strict(cr.points)
  {
    hide InPairs, Strict, Separate, In, Intervals, Proper, Upward;
    ghost var before := PairsOf(cr.points);
    var ps := PairsOf(cr.points);
    var a := new (nat, nat)[|ps|](i requires 0 <= i < |ps| => ps[i]);
    assert a[..] == ps;
    Rqsort.Rqsort(a, PointCmp());
    ProperRearranged(ps, a[..]);
    SortedPairs(a[..]);
    var out := RemoveOverlap(a[..]);
    SeparateIsOrdered(out);
    cr.points := Flat(out);
    forall c: nat ensures In(cr.points, c) == InPairs(before, c) {
      InIsInPoints(cr.points, c);
      PairsSame(cr.points, c);
      assert InPairs(out, c) == InPairs(a[..], c);
      if InPairs(a[..], c) { InPairsRearranged(a[..], before, c); }
      if InPairs(before, c) { InPairsRearranged(before, a[..], c); }
    }
  }

  lemma StrictIntervals(points: seq<nat>)
    requires Strict(points)
    ensures Intervals(points)
  {
  }

  lemma SortedPairs(ps: seq<(nat, nat)>)
    requires Rqsort.TotalPreorder(PointCmp()) ==> Rqsort.Sorted(ps, PointCmp())
    ensures forall i, j :: 0 <= i < j < |ps| ==> ps[i].0 <= ps[j].0
  {
    PointCmpOrders();
    forall i, j | 0 <= i < j < |ps| ensures ps[i].0 <= ps[j].0 {
      assert PointCmp()(ps[i], ps[j]) <= 0;
    }
  }
}
