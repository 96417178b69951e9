/** Unicode mode on UTF-16 text: the machine that reads surrogate pairs as one
    character runs in step with the machine on the decoded code points. */
module Utf16 {
  import opened Syntax
  import opened Semantics
  import opened Bytecode
  import opened Machine

  /* ----- decoding ----- */

  predicate Pair(u: seq<CodePoint>, p: nat) {
    p + 1 < |u| && IsHi(u[p]) && IsLo(u[p + 1])
  }

  /** The unit offsets at which code points start, from `p` on, and the end. */
  function Offsets(u: seq<CodePoint>, p: nat): (r: seq<nat>)
    requires p <= |u|
    ensures r != [] && r[0] == p
    decreases |u| - p
  {
    if p == |u| then [p] else [p] + Offsets(u, if Pair(u, p) then p + 2 else p + 1)
  }

  function CharAt(u: seq<CodePoint>, p: nat): CodePoint
    requires p < |u|
  {
    if Pair(u, p) then FromSurrogates(u[p], u[p + 1]) else u[p]
  }

  /** The code points of `u` from `p` on; lone surrogates stand for themselves. */
  function Chars(u: seq<CodePoint>, p: nat): (r: seq<CodePoint>)
    requires p <= |u|
    ensures |r| + 1 == |Offsets(u, p)|
    decreases |u| - p
  {
    if p == |u| then [] else [CharAt(u, p)] + Chars(u, if Pair(u, p) then p + 2 else p + 1)
  }

  /** The UTF-16 form of code points. */
  function Units(cs: seq<CodePoint>): seq<CodePoint> {
    if cs == [] then []
    else if cs[0] >= 0x10000 then
      [0xd800 + (cs[0] - 0x10000) / 0x400, 0xdc00 + (cs[0] - 0x10000) % 0x400] + Units(cs[1..])
    else [cs[0]] + Units(cs[1..])
  }

  /** Nothing is lost by decoding: any sequence of 16-bit units comes back, lone
      surrogates included. */
  lemma {:induction false} DecodedUnits(u: seq<CodePoint>, p: nat)
    requires p <= |u| && forall i :: 0 <= i < |u| ==> u[i] <= 0xffff
    ensures Units(Chars(u, p)) == u[p..]
    decreases |u| - p
  {
    if p < |u| {
      var q := if Pair(u, p) then p + 2 else p + 1;
      DecodedUnits(u, q);
      var cs := Chars(u, p);
      assert cs[0] == CharAt(u, p) && cs[1..] == Chars(u, q);
      assert u[p..] == u[p..q] + u[q..];
      if Pair(u, p) {
        assert u[p..q] == [u[p], u[p + 1]];
      } else {
        assert u[p..q] == [u[p]];
      }
    }
  }

  /** `p` does not fall between the two halves of a surrogate pair. */
  predicate Boundary(u: seq<CodePoint>, p: nat) {
    p <= |u| && !(p > 0 && Pair(u, p - 1))
  }

  lemma {:induction false} OffsetsAt(u: seq<CodePoint>, p: nat, k: nat)
    requires p <= |u| && k < |Offsets(u, p)|
    ensures var r := Offsets(u, p);
            && p <= r[k] <= |u|
            && (r[k] == |u| <==> k == |r| - 1)
            && (k + 1 < |r| ==> r[k + 1] == (if Pair(u, r[k]) then r[k] + 2 else r[k] + 1)
                                && Chars(u, p)[k] == CharAt(u, r[k]))
    decreases |u| - p
  {
    if k > 0 {
      OffsetsAt(u, if Pair(u, p) then p + 2 else p + 1, k - 1);
    }
  }

  lemma {:induction false} OffsetsIncrease(u: seq<CodePoint>, j: nat, k: nat)
    requires j < k < |Offsets(u, 0)|
    ensures Offsets(u, 0)[j] < Offsets(u, 0)[k]
    decreases k
  {
    hide Offsets;
    OffsetsAt(u, 0, k - 1);
    if j < k - 1 { OffsetsIncrease(u, j, k - 1); }
  }

  /** Offsets are boundaries ... */
  lemma {:induction false} OffsetIsBoundary(u: seq<CodePoint>, k: nat)
    requires k < |Offsets(u, 0)|
    ensures Boundary(u, Offsets(u, 0)[k])
  {
    hide Offsets;
    OffsetsAt(u, 0, k);
    if k > 0 { OffsetsAt(u, 0, k - 1); }
  }

  /** ... and every boundary is an offset: its index is the number of code points before it. */
  lemma {:induction false} BoundaryIsOffset(u: seq<CodePoint>, p: nat) returns (k: nat)
    requires Boundary(u, p)
    ensures k < |Offsets(u, 0)| && Offsets(u, 0)[k] == p
    decreases p
  {
    if p == 0 {
      k := 0;
    } else {
      var q := if p >= 2 && Pair(u, p - 2) then p - 2 else p - 1;
      k := BoundaryIsOffset(u, q);
      OffsetsAt(u, 0, k);
      k := k + 1;
    }
  }

  /* ----- reading characters ----- */

  /** The machine on code points and the machine on units. */
  ghost function Decoded(code: Program, canon: CodePoint -> CodePoint, isSpace: CodePoint -> bool, u: seq<CodePoint>,
                         ncap: nat): Vm {
    Vm(code, World(canon, isSpace, Chars(u, 0)), false, ncap)
  }

  ghost predicate InStep(a: Vm, b: Vm) {
    && b.wide && !a.wide && a.code == b.code && a.ncap == b.ncap
    && a.w.canon == b.w.canon && a.w.isSpace == b.w.isSpace
    && a.w.text == Chars(b.w.text, 0)
  }

  /** Position `k` in code points is position `p` in units. */
  predicate Placed(u: seq<CodePoint>, k: nat, p: nat) {
    k < |Offsets(u, 0)| && Offsets(u, 0)[k] == p
  }

  lemma PlacedOrder(u: seq<CodePoint>, j: nat, p: nat, k: nat, q: nat)
    requires Placed(u, j, p) && Placed(u, k, q)
    ensures j < k <==> p < q
    ensures j == k <==> p == q
    ensures p <= |u| && j <= |Chars(u, 0)| && (p == |u| <==> j == |Chars(u, 0)|)
    ensures p == 0 <==> j == 0
  {
    hide Offsets;
    OffsetsAt(u, 0, j);
    if j < k { OffsetsIncrease(u, j, k); }
    if k < j { OffsetsIncrease(u, k, j); }
    assert Offsets(u, 0)[0] == 0;
    if j > 0 { OffsetsIncrease(u, 0, j); }
  }

  lemma GetInStep(a: Vm, b: Vm, k: nat, p: nat, e: nat, q: nat)
    requires InStep(a, b) && Placed(b.w.text, k, p) && Placed(b.w.text, e, q) && k < e
    ensures e <= |a.w.text| && p < q <= |b.w.text|
    ensures GetChar(a, k, e).0 == GetChar(b, p, q).0 && Placed(b.w.text, GetChar(a, k, e).1, GetChar(b, p, q).1)
  {
    hide Offsets, Chars, FromSurrogates;
    var u := b.w.text;
    PlacedOrder(u, k, p, e, q);
    PlacedOrder(u, e, q, k, p);
    OffsetsAt(u, 0, k);
    if k + 1 < e { OffsetsIncrease(u, k + 1, e); }
  }

  lemma GetPrevInStep(a: Vm, b: Vm, k: nat, p: nat, s: nat, q: nat)
    requires InStep(a, b) && Placed(b.w.text, k, p) && Placed(b.w.text, s, q) && s < k
    ensures k <= |a.w.text| && q < p <= |b.w.text|
    ensures GetPrevChar(a, k, s).0 == GetPrevChar(b, p, q).0
    ensures Placed(b.w.text, GetPrevChar(a, k, s).1, GetPrevChar(b, p, q).1)
  {
    hide Offsets, Chars, FromSurrogates;
    var u := b.w.text;
    PlacedOrder(u, k, p, s, q);
    OffsetsAt(u, 0, k - 1);
    OffsetIsBoundary(u, k - 1);
    OffsetIsBoundary(u, k);
    if s < k - 1 { OffsetsIncrease(u, s, k - 1); }
  }

  /** In unicode mode, stepping back and then reading forward returns to the same place. */
  lemma PrevThenGet(vm: Vm, p: nat)
    requires vm.wide && 0 < p <= |vm.w.text| && Boundary(vm.w.text, p)
    ensures var (c, q) := GetPrevChar(vm, p, 0);
            Boundary(vm.w.text, q) && GetChar(vm, q, |vm.w.text|) == (c, p)
  {
  }

  lemma TestInStep(a: Vm, b: Vm, t: Assertion, k: nat, p: nat)
    requires InStep(a, b) && Placed(b.w.text, k, p)
    ensures k <= |a.w.text| && p <= |b.w.text|
    ensures TestHolds(a, t, k) == TestHolds(b, t, p)
  {
    hide Offsets, Chars, GetChar, GetPrevChar;
    Ends(a, b);
    PlacedOrder(b.w.text, k, p, 0, 0);
    if k > 0 { GetPrevInStep(a, b, k, p, 0, 0); }
    if k < |a.w.text| { GetInStep(a, b, k, p, |a.w.text|, |b.w.text|); }
  }

  lemma Ends(a: Vm, b: Vm)
    requires InStep(a, b)
    ensures Placed(b.w.text, 0, 0) && Placed(b.w.text, |a.w.text|, |b.w.text|)
  {
    hide Offsets, Chars;
    OffsetsAt(b.w.text, 0, |a.w.text|);
  }

  ghost predicate PlacedOption(u: seq<CodePoint>, r: Option<nat>, r': Option<nat>) {
    if r.None? then r'.None? else r'.Some? && Placed(u, r.value, r'.value)
  }

  lemma {:induction false} AheadInStep(a: Vm, b: Vm, icase: bool, s: nat, s': nat, e: nat, e': nat, k: nat, p: nat)
    requires InStep(a, b) && Placed(b.w.text, s, s') && Placed(b.w.text, e, e') && Placed(b.w.text, k, p) && s <= e
    ensures e <= |a.w.text| && s' <= e' <= |b.w.text| && k <= |a.w.text| && p <= |b.w.text|
    ensures PlacedOption(b.w.text, SameAhead(a, icase, s, e, k), SameAhead(b, icase, s', e', p))
    decreases e - s
  {
    hide Offsets, Chars, GetChar;
    Ends(a, b);
    PlacedOrder(b.w.text, s, s', e, e');
    PlacedOrder(b.w.text, e, e', k, p);
    PlacedOrder(b.w.text, k, p, |a.w.text|, |b.w.text|);
    if s < e && k < |a.w.text| {
      GetInStep(a, b, s, s', e, e');
      GetInStep(a, b, k, p, |a.w.text|, |b.w.text|);
      AheadInStep(a, b, icase, GetChar(a, s, e).1, GetChar(b, s', e').1, e, e',
                  GetChar(a, k, |a.w.text|).1, GetChar(b, p, |b.w.text|).1);
    }
  }

  lemma {:induction false} BehindInStep(a: Vm, b: Vm, icase: bool, s: nat, s': nat, e: nat, e': nat, k: nat, p: nat)
    requires InStep(a, b) && Placed(b.w.text, s, s') && Placed(b.w.text, e, e') && Placed(b.w.text, k, p) && s <= e
    ensures e <= |a.w.text| && s' <= e' <= |b.w.text| && k <= |a.w.text| && p <= |b.w.text|
    ensures PlacedOption(b.w.text, SameBehind(a, icase, s, e, k), SameBehind(b, icase, s', e', p))
    decreases e - s
  {
    hide Offsets, Chars, GetPrevChar;
    Ends(a, b);
    PlacedOrder(b.w.text, s, s', e, e');
    PlacedOrder(b.w.text, e, e', k, p);
    PlacedOrder(b.w.text, k, p, 0, 0);
    if s < e && k > 0 {
      GetPrevInStep(a, b, e, e', s, s');
      GetPrevInStep(a, b, k, p, 0, 0);
      BehindInStep(a, b, icase, s, s', GetPrevChar(a, e, s).1, GetPrevChar(b, e', s').1,
                   GetPrevChar(a, k, 0).1, GetPrevChar(b, p, 0).1);
    }
  }

  /* ----- memories, frames and configurations in step ----- */

  /** Corresponding slots. A register nobody has written may hold anything, so a
      position that is no boundary corresponds to one beyond the last. */
  ghost predicate SameValue(u: seq<CodePoint>, v: Value, v': Value) {
    match v
    case At(k) => v'.At? && (if k < |Offsets(u, 0)| then Placed(u, k, v'.pos) else !Boundary(u, v'.pos))
    case _ => v == v'
  }

  ghost predicate SameMem(u: seq<CodePoint>, ncap: nat, m: seq<Value>, m': seq<Value>) {
    && |m| == |m'|
    && (forall i :: 0 <= i < |m| ==> SameValue(u, m[i], m'[i]))
    && (forall i :: 0 <= i < |m| && i < 2 * ncap && m[i].At? ==> m[i].pos < |Offsets(u, 0)|)
  }

  ghost predicate SameFrame(u: seq<CodePoint>, ncap: nat, f: Frame, f': Frame) {
    f.kind == f'.kind && f.pc == f'.pc && Placed(u, f.pos, f'.pos) && SameMem(u, ncap, f.mem, f'.mem)
  }

  ghost predicate SameStack(u: seq<CodePoint>, ncap: nat, k: seq<Frame>, k': seq<Frame>) {
    |k| == |k'| && forall i :: 0 <= i < |k| ==> SameFrame(u, ncap, k[i], k'[i])
  }

  /** Two configurations that differ only in how positions are counted. */
  ghost predicate SameConf(u: seq<CodePoint>, ncap: nat, c: Conf, c': Conf) {
    match c
    case Run(pc, pos, m, k) =>
      c'.Run? && c'.pc == pc && Placed(u, pos, c'.pos) && SameMem(u, ncap, m, c'.mem) && SameStack(u, ncap, k, c'.stack)
    case Back(k) => c'.Back? && SameStack(u, ncap, k, c'.stack)
    case Done(pos, m) => c'.Done? && Placed(u, pos, c'.pos) && SameMem(u, ncap, m, c'.mem)
    case Fail => c' == Fail
    case Stuck => c' == Stuck
  }

  lemma {:induction false} BackRefInStep(a: Vm, b: Vm, groups: seq<nat>, icase: bool, backward: bool, k: nat, p: nat,
                                         m: seq<Value>, m': seq<Value>)
    requires InStep(a, b) && Placed(b.w.text, k, p) && SameMem(b.w.text, a.ncap, m, m') && 2 * a.ncap <= |m|
    ensures k <= |a.w.text| && p <= |b.w.text|
    ensures PlacedOption(b.w.text, BackRefStep(a, groups, icase, backward, k, m),
                         BackRefStep(b, groups, icase, backward, p, m'))
    decreases |groups|
  {
    hide Offsets, Chars, Placed, SameAhead, SameBehind, Boundary;
    var u := b.w.text;
    PlacedOrder(u, k, p, k, p);
    if groups != [] && groups[0] < a.ncap {
      var s, e, s', e' := m[2 * groups[0]], m[2 * groups[0] + 1], m'[2 * groups[0]], m'[2 * groups[0] + 1];
      assert SameValue(u, s, s') && SameValue(u, e, e');
      if s.At? && e.At? {
        PlacedOrder(u, s.pos, s'.pos, e.pos, e'.pos);
        PlacedOrder(u, e.pos, e'.pos, s.pos, s'.pos);
        if s.pos <= e.pos {
          AheadInStep(a, b, icase, s.pos, s'.pos, e.pos, e'.pos, k, p);
          BehindInStep(a, b, icase, s.pos, s'.pos, e.pos, e'.pos, k, p);
        }
      } else {
        BackRefInStep(a, b, groups[1..], icase, backward, k, p, m, m');
      }
    }
  }

  lemma SetInStep(u: seq<CodePoint>, ncap: nat, m: seq<Value>, m': seq<Value>, i: nat, v: Value, v': Value)
    requires SameMem(u, ncap, m, m') && i < |m| && SameValue(u, v, v') && (v.At? ==> v.pos < |Offsets(u, 0)|)
    ensures SameMem(u, ncap, m[i := v], m'[i := v'])
  {
    hide SameValue, Offsets;
  }

  lemma ResetInStep(u: seq<CodePoint>, ncap: nat, m: seq<Value>, m': seq<Value>, first: nat, last: nat)
    requires SameMem(u, ncap, m, m')
    ensures SameMem(u, ncap, ResetMem(m, first, last), ResetMem(m', first, last))
  {
    hide Offsets, Boundary;
    assert SameValue(u, Unset, Unset);
  }

  lemma PushInStep(u: seq<CodePoint>, ncap: nat, k: seq<Frame>, k': seq<Frame>, f: Frame, f': Frame)
    requires SameStack(u, ncap, k, k') && SameFrame(u, ncap, f, f')
    ensures SameStack(u, ncap, [f] + k, [f'] + k')
  {
    hide SameFrame;
  }

  lemma {:induction false} PopInStep(u: seq<CodePoint>, ncap: nat, kind: Kind, k: seq<Frame>, k': seq<Frame>)
    requires SameStack(u, ncap, k, k')
    ensures PopTo(kind, k).None? <==> PopTo(kind, k').None?
    ensures PopTo(kind, k).Some? ==>
      && SameFrame(u, ncap, PopTo(kind, k).value.0, PopTo(kind, k').value.0)
      && SameStack(u, ncap, PopTo(kind, k).value.1, PopTo(kind, k').value.1)
    decreases |k|
  {
    hide SameMem, Placed;
    if k != [] {
      assert SameFrame(u, ncap, k[0], k'[0]);
      PopInStep(u, ncap, kind, k[1..], k'[1..]);
    }
  }

  /** A slot holds the current position in one machine iff it does in the other. */
  lemma AtInStep(u: seq<CodePoint>, v: Value, v': Value, k: nat, p: nat)
    requires SameValue(u, v, v') && Placed(u, k, p)
    ensures v == At(k) <==> v' == At(p)
    ensures SameValue(u, At(k), At(p))
  {
    hide Offsets;
    if v.At? {
      if v.pos < |Offsets(u, 0)| { PlacedOrder(u, v.pos, v'.pos, k, p); } else { OffsetIsBoundary(u, k); }
    }
  }

  lemma ForkInStep(u: seq<CodePoint>, ncap: nat, nextFirst: bool, next: int, target: int, k: nat, p: nat,
                   m: seq<Value>, m': seq<Value>, s: seq<Frame>, s': seq<Frame>)
    requires Placed(u, k, p) && SameMem(u, ncap, m, m') && SameStack(u, ncap, s, s')
    ensures SameConf(u, ncap, Fork(nextFirst, next, target, k, m, s), Fork(nextFirst, next, target, p, m', s'))
  {
    hide Placed, SameMem, SameStack;
    PushInStep(u, ncap, s, s', Frame(Choice, target, k, m), Frame(Choice, target, p, m'));
    PushInStep(u, ncap, s, s', Frame(Choice, next, k, m), Frame(Choice, next, p, m'));
  }

  ghost predicate RunInStep(a: Vm, b: Vm, k: nat, p: nat, m: seq<Value>, m': seq<Value>, s: seq<Frame>,
                            s': seq<Frame>) {
    && InStep(a, b) && 2 * a.ncap <= |m|
    && k <= |a.w.text| && p <= |b.w.text| && Placed(b.w.text, k, p)
    && SameMem(b.w.text, a.ncap, m, m') && |m| == |m'| && SameStack(b.w.text, a.ncap, s, s')
  }

  lemma ReadInStep(a: Vm, b: Vm, i: Instr, next: int, k: nat, p: nat, m: seq<Value>, m': seq<Value>, s: seq<Frame>,
                   s': seq<Frame>)
    requires RunInStep(a, b, k, p, m, m', s, s')
    requires i.Consume? || i.Test? || i.Goto? || i.Split? || i.Accept? || i.BackRefs? || i.Prev? || i.CheckAdvance?
    ensures SameConf(b.w.text, a.ncap, Exec(a, i, next, k, m, s), Exec(b, i, next, p, m', s'))
  {
    hide Offsets, Chars, GetChar, GetPrevChar, TestHolds, BackRefStep, SameMem, SameStack, Placed, Accepts, SameValue;
    Ends(a, b);
    var u := b.w.text;
    PlacedOrder(u, k, p, |a.w.text|, |b.w.text|);
    PlacedOrder(u, k, p, 0, 0);
    match i
    case Consume(op) =>
      if k < |a.w.text| {
        GetInStep(a, b, k, p, |a.w.text|, |b.w.text|);
        AcceptsInStep(a.w, b.w, op, GetChar(a, k, |a.w.text|).0);
      }
    case Test(t) => TestInStep(a, b, t, k, p);
    case Prev => if k > 0 { GetPrevInStep(a, b, k, p, 0, 0); }
    case BackRefs(groups, icase, backward) => BackRefInStep(a, b, groups, icase, backward, k, p, m, m');
    case CheckAdvance(reg) =>
      if 2 * a.ncap + reg < |m| {
        SlotInStep(u, a.ncap, m, m', 2 * a.ncap + reg);
        AtInStep(u, m[2 * a.ncap + reg], m'[2 * a.ncap + reg], k, p);
      }
    case Split(nextFirst, off) => ForkInStep(u, a.ncap, nextFirst, next, next + off, k, p, m, m', s, s');
    case _ =>
  }

  lemma SlotInStep(u: seq<CodePoint>, ncap: nat, m: seq<Value>, m': seq<Value>, i: nat)
    requires SameMem(u, ncap, m, m') && i < |m|
    ensures i < |m'| && SameValue(u, m[i], m'[i])
  {
  }

  lemma AcceptsInStep(w: World, w': World, op: CharOp, c: CodePoint)
    requires w.canon == w'.canon && w.isSpace == w'.isSpace
    ensures Accepts(w, op, c) == Accepts(w', op, c)
  {
  }

  lemma WriteInStep(a: Vm, b: Vm, i: Instr, next: int, k: nat, p: nat, m: seq<Value>, m': seq<Value>, s: seq<Frame>,
                    s': seq<Frame>)
    requires RunInStep(a, b, k, p, m, m', s, s')
    requires i.Save? || i.SaveReset? || i.SetCount? || i.SetPos? || i.LookStart? || i.LookMatch?
    ensures SameConf(b.w.text, a.ncap, Exec(a, i, next, k, m, s), Exec(b, i, next, p, m', s'))
  {
    hide Offsets, Chars, SameMem, SameStack, Boundary, ResetMem;
    var u := b.w.text;
    assert SameValue(u, At(k), At(p));
    match i
    case Save(end, c) => if c < a.ncap { SetInStep(u, a.ncap, m, m', 2 * c + (if end then 1 else 0), At(k), At(p)); }
    case SaveReset(first, last) => ResetInStep(u, a.ncap, m, m', first, last);
    case SetCount(reg, n) =>
      if 2 * a.ncap + reg < |m| { SetInStep(u, a.ncap, m, m', 2 * a.ncap + reg, Count(n), Count(n)); }
    case SetPos(reg) =>
      if 2 * a.ncap + reg < |m| { SetInStep(u, a.ncap, m, m', 2 * a.ncap + reg, At(k), At(p)); }
    case LookStart(negative, off) =>
      var kind := if negative then NotAhead else Ahead;
      PushInStep(u, a.ncap, s, s', Frame(kind, next + off, k, m), Frame(kind, next + off, p, m'));
    case LookMatch(negative) => PopInStep(u, a.ncap, if negative then NotAhead else Ahead, s, s');
  }

  lemma LoopInStep(a: Vm, b: Vm, i: Instr, next: int, k: nat, p: nat, m: seq<Value>, m': seq<Value>, s: seq<Frame>,
                   s': seq<Frame>)
    requires RunInStep(a, b, k, p, m, m', s, s')
    requires i.Loop? || i.LoopSplit?
    ensures SameConf(b.w.text, a.ncap, Exec(a, i, next, k, m, s), Exec(b, i, next, p, m', s'))
  {
    hide Offsets, Chars, SameMem, SameStack, Placed, Boundary, Fork;
    var u, idx := b.w.text, 2 * a.ncap + i.reg;
    if idx < |m| {
      SlotInStep(u, a.ncap, m, m', idx);
      if m[idx].Count? {
        var v := Count(Dec32(m[idx].n));
        SetInStep(u, a.ncap, m, m', idx, v, v);
        if i.LoopSplit? && idx + 1 < |m| {
          SlotInStep(u, a.ncap, m, m', idx + 1);
          AtInStep(u, m[idx + 1], m'[idx + 1], k, p);
        }
        if i.LoopSplit? {
          ForkInStep(u, a.ncap, i.nextFirst, next, next + i.off, k, p, m[idx := v], m'[idx := v], s, s');
        }
      }
    }
  }

  /** One step of any program. */
  lemma StepInStep(a: Vm, b: Vm, c: Conf, c': Conf)
    requires InStep(a, b) && SameConf(b.w.text, a.ncap, c, c')
    ensures SameConf(b.w.text, a.ncap, Step(a, c), Step(b, c'))
  {
    hide Offsets, Chars, SameMem, Placed, Exec;
    match c
    case Run(pc, pos, m, k) =>
      PlacedOrder(b.w.text, pos, c'.pos, pos, c'.pos);
      MemLength(b.w.text, a.ncap, m, c'.mem);
      if pc in a.code && 2 * a.ncap <= |m| {
        var i, next := a.code[pc], pc + InstrSize(a.code[pc]);
        if i.Consume? || i.Test? || i.Goto? || i.Split? || i.Accept? || i.BackRefs? || i.Prev? || i.CheckAdvance? {
          ReadInStep(a, b, i, next, pos, c'.pos, m, c'.mem, k, c'.stack);
        } else if i.Loop? || i.LoopSplit? {
          LoopInStep(a, b, i, next, pos, c'.pos, m, c'.mem, k, c'.stack);
        } else {
          WriteInStep(a, b, i, next, pos, c'.pos, m, c'.mem, k, c'.stack);
        }
      }
    case Back(k) =>
      if k != [] { assert SameFrame(b.w.text, a.ncap, k[0], c'.stack[0]); }
    case _ =>
  }

  lemma MemLength(u: seq<CodePoint>, ncap: nat, m: seq<Value>, m': seq<Value>)
    requires SameMem(u, ncap, m, m')
    ensures |m| == |m'|
  {
  }

  /** ... and so for whole runs: in unicode mode every program does on UTF-16 units
      exactly what it does on the decoded code points. */
  lemma {:induction false} RunsInStep(a: Vm, b: Vm, c: Conf, c': Conf, n: nat)
    requires InStep(a, b) && SameConf(b.w.text, a.ncap, c, c')
    ensures SameConf(b.w.text, a.ncap, Steps(a, c, n), Steps(b, c', n))
    decreases n
  {
    hide SameConf, Step;
    if n > 0 {
      StepInStep(a, b, c, c');
      RunsInStep(a, b, Step(a, c), Step(b, c'), n - 1);
    }
  }

  /* ----- every reachable state lies on code-point boundaries ----- */

  /** Positions of the machine, of its choice points and of every set capture. */
  ghost predicate CapturesOnBoundaries(u: seq<CodePoint>, ncap: nat, m: seq<Value>) {
    forall i :: 0 <= i < |m| && i < 2 * ncap && m[i].At? ==> Boundary(u, m[i].pos)
  }

  ghost predicate OnBoundaries(u: seq<CodePoint>, ncap: nat, c: Conf) {
    match c
    case Run(_, pos, m, k) => Boundary(u, pos) && CapturesOnBoundaries(u, ncap, m) && FramesOnBoundaries(u, ncap, k)
    case Back(k) => FramesOnBoundaries(u, ncap, k)
    case Done(pos, m) => Boundary(u, pos) && CapturesOnBoundaries(u, ncap, m)
    case _ => true
  }

  ghost predicate FramesOnBoundaries(u: seq<CodePoint>, ncap: nat, k: seq<Frame>) {
    forall i :: 0 <= i < |k| ==> Boundary(u, k[i].pos) && CapturesOnBoundaries(u, ncap, k[i].mem)
  }

  lemma SameMemOnBoundaries(u: seq<CodePoint>, ncap: nat, m: seq<Value>, m': seq<Value>)
    requires SameMem(u, ncap, m, m')
    ensures CapturesOnBoundaries(u, ncap, m')
  {
    hide Boundary, Offsets;
    forall i | 0 <= i < |m'| && i < 2 * ncap && m'[i].At? ensures Boundary(u, m'[i].pos) {
      assert SameValue(u, m[i], m'[i]);
      OffsetIsBoundary(u, m[i].pos);
    }
  }

  lemma SameOnBoundaries(u: seq<CodePoint>, ncap: nat, c: Conf, c': Conf)
    requires SameConf(u, ncap, c, c')
    ensures OnBoundaries(u, ncap, c')
  {
    hide Boundary, Offsets, SameMem, CapturesOnBoundaries;
    if c.Run? || c.Done? {
      SameMemOnBoundaries(u, ncap, c.mem, c'.mem);
      OffsetIsBoundary(u, c.pos);
    }
    if c.Run? || c.Back? {
      forall i | 0 <= i < |c'.stack|
        ensures Boundary(u, c'.stack[i].pos) && CapturesOnBoundaries(u, ncap, c'.stack[i].mem)
      {
        assert SameFrame(u, ncap, c.stack[i], c'.stack[i]);
        SameMemOnBoundaries(u, ncap, c.stack[i].mem, c'.stack[i].mem);
        OffsetIsBoundary(u, c.stack[i].pos);
      }
    }
  }

  /* the code-point state that a unit state on boundaries stands for */

  lemma DecodedValue(u: seq<CodePoint>, v': Value) returns (v: Value)
    ensures SameValue(u, v, v')
    ensures v'.At? && Boundary(u, v'.pos) ==> v.At? && v.pos < |Offsets(u, 0)|
  {
    hide Offsets;
    v := v';
    if v'.At? {
      if Boundary(u, v'.pos) {
        var k := BoundaryIsOffset(u, v'.pos);
        v := At(k);
      } else {
        v := At(|Offsets(u, 0)|);
      }
    }
  }

  lemma {:induction false} DecodedMem(u: seq<CodePoint>, ncap: nat, m': seq<Value>) returns (m: seq<Value>)
    requires CapturesOnBoundaries(u, ncap, m')
    ensures SameMem(u, ncap, m, m')
    decreases |m'|
  {
    hide Offsets, Boundary, SameValue;
    if m' == [] {
      m := [];
    } else {
      var n := |m'| - 1;
      m := DecodedMem(u, ncap, m'[..n]);
      var v := DecodedValue(u, m'[n]);
      AtStays(u, v, m'[n]);
      m := m + [v];
    }
  }

  lemma AtStays(u: seq<CodePoint>, v: Value, v': Value)
    requires SameValue(u, v, v')
    ensures v.At? <==> v'.At?
  {
  }

  lemma {:induction false} DecodedStack(u: seq<CodePoint>, ncap: nat, k': seq<Frame>) returns (k: seq<Frame>)
    requires FramesOnBoundaries(u, ncap, k')
    ensures SameStack(u, ncap, k, k')
    decreases |k'|
  {
    hide Offsets, Boundary, SameMem, CapturesOnBoundaries;
    if k' == [] {
      k := [];
    } else {
      k := DecodedStack(u, ncap, k'[1..]);
      var p := BoundaryIsOffset(u, k'[0].pos);
      var m := DecodedMem(u, ncap, k'[0].mem);
      var f := Frame(k'[0].kind, k'[0].pc, p, m);
      assert SameFrame(u, ncap, f, k'[0]);
      k := [f] + k;
    }
  }

  lemma DecodedConf(u: seq<CodePoint>, ncap: nat, c': Conf) returns (c: Conf)
    requires OnBoundaries(u, ncap, c')
    ensures SameConf(u, ncap, c, c')
  {
    hide Offsets, Boundary, SameMem, SameStack, CapturesOnBoundaries, FramesOnBoundaries;
    match c'
    case Run(pc, pos, m', k') =>
      var p := BoundaryIsOffset(u, pos);
      var m := DecodedMem(u, ncap, m');
      var k := DecodedStack(u, ncap, k');
      c := Run(pc, p, m, k);
    case Back(k') =>
      var k := DecodedStack(u, ncap, k');
      c := Back(k);
    case Done(pos, m') =>
      var p := BoundaryIsOffset(u, pos);
      var m := DecodedMem(u, ncap, m');
      c := Done(p, m);
    case _ => c := c';
  }

  /** In unicode mode, a run of any program that starts on code-point boundaries never
      leaves them: not with its position, its choice points or any set capture. */
  lemma BoundariesKept(vm: Vm, c: Conf, n: nat)
    requires vm.wide && OnBoundaries(vm.w.text, vm.ncap, c)
    ensures OnBoundaries(vm.w.text, vm.ncap, Steps(vm, c, n))
  {
    hide OnBoundaries, Chars, SameConf, Steps;
    var a := Decoded(vm.code, vm.w.canon, vm.w.isSpace, vm.w.text, vm.ncap);
    var d := DecodedConf(vm.w.text, vm.ncap, c);
    RunsInStep(a, vm, d, c, n);
    SameOnBoundaries(vm.w.text, vm.ncap, Steps(a, d, n), Steps(vm, c, n));
  }

  /** lre_exec moves a start index inside a surrogate pair to the front of the pair. */
  function Snap(u: seq<CodePoint>, start: nat): (r: nat)
    requires start <= |u|
    ensures Boundary(u, r) && r <= start <= r + 1
    ensures Boundary(u, start) ==> r == start
  {
    if 0 < start < |u| && IsLo(u[start]) && IsHi(u[start - 1]) then start - 1 else start
  }

  /* ----- text without surrogates ----- */

  ghost predicate NoSurrogates(u: seq<CodePoint>) { forall i :: 0 <= i < |u| ==> !IsHi(u[i]) && !IsLo(u[i]) }

  lemma {:induction false} PlainOffsets(u: seq<CodePoint>, p: nat)
    requires NoSurrogates(u) && p <= |u|
    ensures Chars(u, p) == u[p..] && |Offsets(u, p)| == |u| - p + 1
    ensures forall k :: 0 <= k < |Offsets(u, p)| ==> Offsets(u, p)[k] == p + k
    decreases |u| - p
  {
    if p < |u| {
      PlainOffsets(u, p + 1);
      assert u[p..] == [u[p]] + u[p + 1..];
    }
  }

  /** What a caller sees of a configuration. */
  ghost predicate SameAnswer(ncap: nat, c: Conf, c': Conf) {
    match c
    case Done(pos, m) => c'.Done? && c'.pos == pos && |c'.mem| == |m| && forall i :: 0 <= i < |m| && i < 2 * ncap ==>
                           c'.mem[i] == m[i]
    case Fail => c' == Fail
    case Stuck => c' == Stuck
    case Run(_, _, _, _) => c'.Run?
    case Back(_) => c'.Back?
  }

  /** On text without surrogates (ASCII above all) the path that reads surrogate pairs
      and the one that does not give the same verdict at the same step, with the same
      offsets: for every program, start and register contents. */
  lemma PathsAgree(vm: Vm, start: nat, m: seq<Value>, n: nat)
    requires !vm.wide && NoSurrogates(vm.w.text) && start <= |vm.w.text|
    requires forall i :: 0 <= i < |m| && i < 2 * vm.ncap ==> m[i] == Unset
    ensures SameAnswer(vm.ncap, Steps(vm, Run(0, start, m, []), n), Steps(vm.(wide := true), Run(0, start, m, []), n))
  {
    hide Chars, Offsets, Steps;
    var u, vm', c := vm.w.text, vm.(wide := true), Run(0, start, m, []);
    PlainOffsets(u, 0);
    assert u[0..] == u;
    forall i | 0 <= i < |m| ensures SameValue(u, m[i], m[i]) {}
    RunsInStep(vm, vm', c, c, n);
    PlainAnswer(u, vm.ncap, Steps(vm, c, n), Steps(vm', c, n));
  }

  lemma PlainAnswer(u: seq<CodePoint>, ncap: nat, c: Conf, c': Conf)
    requires NoSurrogates(u) && SameConf(u, ncap, c, c')
    ensures SameAnswer(ncap, c, c')
  {
    hide Chars, Offsets;
    PlainOffsets(u, 0);
    if c.Done? {
      forall i | 0 <= i < |c.mem| && i < 2 * ncap ensures c'.mem[i] == c.mem[i] {
        assert SameValue(u, c.mem[i], c'.mem[i]);
      }
    }
  }
}
