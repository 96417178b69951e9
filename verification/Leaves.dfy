/** Single instructions agree with the reference tests they stand for, on subjects
    whose units are characters. */
module Leaves {
  import opened Syntax
  import opened Semantics
  import opened Bytecode
  import opened Compiler
  import opened Machine

  predicate InPair(pairs: seq<(nat, nat)>, i: nat, c: nat)
    requires i < |pairs|
  {
    pairs[i].0 <= c <= pairs[i].1
  }

  /** One interval, in the 16-bit form if the finite boundaries allow it. */
  lemma PairMembership(points: seq<nat>, narrow: bool, i: nat, c: CodePoint)
    requires ValidPoints(points) && i < |points| / 2
    requires narrow ==> HighPoint(points) <= 0xffff
    ensures var ps := Pairs(points, if narrow then 0xffff else UINT32_MAX - 1);
            var open := narrow && i == |ps| - 1 && ps[i].1 == 0xffff;
            && (open ==> i == |points| / 2 - 1 && points[2 * i + 1] == UINT32_MAX && points[2 * i] <= 0xffff)
            && (Within(points, i, c) <==> InPair(ps, i, c) || (open && c >= 0xffff))
  {
    var n := |points|;
    assert points[2 * i] < points[2 * i + 1] <= points[n - 1] by {
      if 2 * i + 1 < n - 1 { assert points[2 * i + 1] < points[n - 1]; }
    }
    if 2 * i + 1 < n - 1 {
      assert points[2 * i + 1] <= points[n - 2] by {
        if 2 * i + 1 < n - 2 { assert points[2 * i + 1] < points[n - 2]; }
      }
    }
  }

  /** A class is emitted so that the machine's test accepts exactly its members. */
  lemma ClassTest(w: World, points: seq<nat>, icase: bool, c: CodePoint)
    requires ValidPoints(points)
    ensures Accepts(w, RangeOp(points, icase), c) <==> InPoints(points, Fold(w, icase, c))
  {
    if |points| >= 2 {
      ClassMembership(points, Fold(w, icase, c));
    }
  }

  lemma ClassMembership(points: seq<nat>, f: CodePoint)
    requires ValidPoints(points) && |points| >= 2
    ensures InPoints(points, f) <==>
            if HighPoint(points) <= 0xffff then InRange16(Pairs(points, 0xffff), f)
                 else InRange(Pairs(points, UINT32_MAX - 1), f)
  {
    var narrow := HighPoint(points) <= 0xffff;
    if InPoints(points, f) { MemberFound(points, narrow, f); }
    if if narrow then InRange16(Pairs(points, 0xffff), f) else InRange(Pairs(points, UINT32_MAX - 1), f) {
      FoundMember(points, narrow, f);
    }
  }

  lemma MemberFound(points: seq<nat>, narrow: bool, f: CodePoint)
    requires ValidPoints(points) && |points| >= 2 && narrow == (HighPoint(points) <= 0xffff) && InPoints(points, f)
    ensures if narrow then InRange16(Pairs(points, 0xffff), f) else InRange(Pairs(points, UINT32_MAX - 1), f)
  {
    hide ValidPoints, Within;
    var i :| 0 <= i < |points| / 2 && Within(points, i, f);
    PairMembership(points, narrow, i, f);
  }

  lemma FoundMember(points: seq<nat>, narrow: bool, f: CodePoint)
    requires ValidPoints(points) && |points| >= 2 && narrow == (HighPoint(points) <= 0xffff)
    requires if narrow then InRange16(Pairs(points, 0xffff), f) else InRange(Pairs(points, UINT32_MAX - 1), f)
    ensures InPoints(points, f)
  {
    hide ValidPoints, Within;
    var ps := Pairs(points, if narrow then 0xffff else UINT32_MAX - 1);
    if InRange(ps, f) {
      var i :| 0 <= i < |ps| && ps[i].0 <= f <= ps[i].1;
      PairMembership(points, narrow, i, f);
      assert InPair(ps, i, f) && Within(points, i, f);
    } else {
      PairMembership(points, narrow, |ps| - 1, f);
      assert Within(points, |ps| - 1, f);
    }
  }

  lemma TestAgrees(w: World, t: CharTest, c: CodePoint)
    requires ValidTest(t)
    ensures Accepts(w, TestOp(w.canon, t), c) <==> Holds(w, t, c)
  {
    match t
    case Class(points, icase) => ClassTest(w, points, icase, c);
    case _ =>
  }

  lemma AssertionAgrees(vm: Vm, a: Assertion, pos: nat)
    requires !vm.wide && pos <= |vm.w.text|
    ensures TestHolds(vm, a, pos) == AssertionHolds(vm.w, a, pos)
  {
  }

  lemma EmptyText(w: World, icase: bool, a: seq<CodePoint>, b: seq<CodePoint>)
    requires a == [] && b == []
    ensures SameText(w, icase, a, b)
  {
  }

  lemma {:induction false} AheadAgrees(vm: Vm, icase: bool, p: nat, end: nat, pos: nat)
    requires !vm.wide && p <= end <= |vm.w.text| && pos <= |vm.w.text|
    ensures var t := vm.w.text;
            SameAhead(vm, icase, p, end, pos) ==
            if pos + (end - p) <= |t| && SameText(vm.w, icase, t[p..end], t[pos..pos + (end - p)])
            then Some(pos + (end - p)) else None
    decreases end - p
  {
    hide SameText;
    var t := vm.w.text;
    if p == end { EmptyText(vm.w, icase, t[p..end], t[pos..pos]); }
    if p < end && pos < |t| {
      AheadAgrees(vm, icase, p + 1, end, pos + 1);
      if pos + (end - p) <= |t| {
        var a, b := t[p..end], t[pos..pos + (end - p)];
        assert a[1..] == t[p + 1..end] && b[1..] == t[pos + 1..pos + (end - p)];
        SameTextStep(vm.w, icase, a, b);
      }
    }
  }

  lemma SameTextStep(w: World, icase: bool, a: seq<CodePoint>, b: seq<CodePoint>)
    requires |a| == |b| > 0
    ensures SameText(w, icase, a, b) <==>
              Fold(w, icase, a[0]) == Fold(w, icase, b[0]) && SameText(w, icase, a[1..], b[1..])
  {
    if Fold(w, icase, a[0]) == Fold(w, icase, b[0]) && SameText(w, icase, a[1..], b[1..]) {
      forall i | 0 <= i < |a| ensures Fold(w, icase, a[i]) == Fold(w, icase, b[i]) {
        if i > 0 { assert a[i] == a[1..][i - 1] && b[i] == b[1..][i - 1]; }
      }
    }
    if SameText(w, icase, a, b) {
      forall i | 0 <= i < |a[1..]| ensures Fold(w, icase, a[1..][i]) == Fold(w, icase, b[1..][i]) {
        assert a[1..][i] == a[i + 1] && b[1..][i] == b[i + 1];
      }
    }
  }

  lemma SameTextLast(w: World, icase: bool, a: seq<CodePoint>, b: seq<CodePoint>, a': seq<CodePoint>,
                     b': seq<CodePoint>, c: CodePoint, d: CodePoint)
    requires |a| == |b| && a' == a + [c] && b' == b + [d]
    ensures SameText(w, icase, a', b') <==> Fold(w, icase, c) == Fold(w, icase, d) && SameText(w, icase, a, b)
  {
    if SameText(w, icase, a', b') {
      forall i | 0 <= i < |a| ensures Fold(w, icase, a[i]) == Fold(w, icase, b[i]) {
        assert a'[i] == a[i] && b'[i] == b[i];
      }
      assert a'[|a|] == c && b'[|a|] == d;
    }
    if Fold(w, icase, c) == Fold(w, icase, d) && SameText(w, icase, a, b) {
      forall i | 0 <= i < |a'| ensures Fold(w, icase, a'[i]) == Fold(w, icase, b'[i]) {
        if i < |a| { assert a'[i] == a[i] && b'[i] == b[i]; }
      }
    }
  }

  lemma {:induction false} BehindAgrees(vm: Vm, icase: bool, start: nat, p: nat, pos: nat)
    requires !vm.wide && start <= p <= |vm.w.text| && pos <= |vm.w.text|
    ensures var t := vm.w.text;
            SameBehind(vm, icase, start, p, pos) ==
            if p - start <= pos && SameText(vm.w, icase, t[start..p], t[pos - (p - start)..pos])
            then Some(pos - (p - start)) else None
    decreases p - start
  {
    hide SameText, Fold, SameBehind;
    var t := vm.w.text;
    BehindUnfold(vm, icase, start, p, pos);
    if start == p {
      EmptyText(vm.w, icase, t[start..p], t[pos..pos]);
    } else if pos > 0 {
      BehindAgrees(vm, icase, start, p - 1, pos - 1);
      if p - start <= pos {
        var q: nat := pos - (p - start);
        SliceSnoc(t, start, p);
        SliceSnoc(t, q, pos);
        SameTextLast(vm.w, icase, t[start..p - 1], t[q..pos - 1], t[start..p], t[q..pos], t[p - 1], t[pos - 1]);
      }
    }
  }

  lemma SliceSnoc(t: seq<CodePoint>, a: nat, b: nat)
    requires a < b <= |t|
    ensures t[a..b] == t[a..b - 1] + [t[b - 1]]
  {
  }

  lemma BehindUnfold(vm: Vm, icase: bool, start: nat, p: nat, pos: nat)
    requires !vm.wide && start <= p <= |vm.w.text| && pos <= |vm.w.text|
    ensures var t := vm.w.text;
            SameBehind(vm, icase, start, p, pos) ==
            if p == start then Some(pos)
            else if pos > 0 && Fold(vm.w, icase, t[p - 1]) == Fold(vm.w, icase, t[pos - 1])
            then SameBehind(vm, icase, start, p - 1, pos - 1)
            else None
  {
    hide Fold;
  }

  lemma SpanAgrees(vm: Vm, icase: bool, back: bool, s: nat, e: nat, x: State)
    requires !vm.wide && s <= e <= |vm.w.text| && x.pos <= |vm.w.text|
    ensures SpanOut(vm.w, icase, back, s, e, x) ==
            match SpanStep(vm, icase, back, s, e, x.pos)
            case None => []
            case Some(p) => [x.(pos := p)]
  {
    if back { BehindAgrees(vm, icase, s, e, x.pos); } else { AheadAgrees(vm, icase, s, e, x.pos); }
  }

  /** Slots that agree with a capture as far as back references can tell. */
  predicate WeakSpan(s: Value, e: Value, c: Option<Span>) {
    match c
    case None => !(s.At? && e.At?)
    case Some(Span(a, b)) => s == At(a) && e == At(b)
  }

  lemma {:induction false} BackRefAgrees(vm: Vm, groups: seq<nat>, icase: bool, back: bool, x: State, m: seq<Value>)
    requires !vm.wide && x.pos <= |vm.w.text|
    requires |x.caps| == vm.ncap && 2 * vm.ncap <= |m|
    requires forall i :: 0 <= i < |groups| ==> groups[i] < vm.ncap
    requires forall k :: 0 <= k < vm.ncap ==> WeakSpan(m[2 * k], m[2 * k + 1], x.caps[k])
    ensures BackRefOut(vm.w, groups, icase, back, x) ==
            match BackRefStep(vm, groups, icase, back, x.pos, m)
            case None => []
            case Some(p) => [x.(pos := p)]
    decreases |groups|
  {
    if groups != [] {
      var k := groups[0];
      assert WeakSpan(m[2 * k], m[2 * k + 1], x.caps[k]);
      if x.caps[k].None? {
        BackRefAgrees(vm, groups[1..], icase, back, x, m);
      } else {
        var Span(s, e) := x.caps[k].value;
        if s <= e <= |vm.w.text| {
          SpanAgrees(vm, icase, back, s, e, x);
        }
      }
    }
  }
}
