/** The code of every term is closed: each jump lands on an instruction boundary of
    the term or at its end. Offsets are relative, so the term may be moved. */
module JumpTargets {
  import opened Syntax
  import opened Semantics
  import opened Bytecode
  import opened Compiler
  import opened Search
  import opened RegisterAllocation

  function Jump(i: Instr): Option<int> {
    match i
    case Goto(off) => Some(off)
    case Split(_, off) => Some(off)
    case LookStart(_, off) => Some(off)
    case Loop(_, off) => Some(off)
    case LoopSplit(_, _, _, _, off) => Some(off)
    case _ => None
  }

  /** `t` bytes into the code an instruction starts, or the code ends. */
  ghost predicate LandsIn(code: seq<Instr>, t: int) {
    exists k: nat :: k <= |code| && Size(code[..k]) == t
  }

  ghost predicate JumpOk(code: seq<Instr>, k: nat)
    requires k < |code|
  {
    Jump(code[k]).Some? ==> LandsIn(code, Size(code[..k + 1]) + Jump(code[k]).value)
  }

  ghost predicate Closed(code: seq<Instr>) {
    forall k: nat :: k < |code| ==> JumpOk(code, k)
  }

  /** Wherever closed code is put, its jumps stay inside it. */
  lemma MidOk(pre: seq<Instr>, mid: seq<Instr>, post: seq<Instr>, k: nat)
    requires Closed(mid) && k < |mid|
    ensures JumpOk(pre + mid + post, |pre| + k)
  {
    var code, i := pre + mid + post, mid[k];
    assert code[|pre| + k] == i;
    assert JumpOk(mid, k);
    if Jump(i).Some? {
      var t := Size(mid[..k + 1]) + Jump(i).value;
      var j: nat :| j <= |mid| && Size(mid[..j]) == t;
      Prefix(pre, mid, post, j);
      Prefix(pre, mid, post, k + 1);
    }
  }

  lemma Prefix(pre: seq<Instr>, mid: seq<Instr>, post: seq<Instr>, j: nat)
    requires j <= |mid|
    ensures Size((pre + mid + post)[..|pre| + j]) == Size(pre) + Size(mid[..j])
  {
    hide Size;
    assert (pre + mid + post)[..|pre| + j] == pre + mid[..j];
    SizeConcat(pre, mid[..j]);
  }

  /** Closed code between instructions whose own jumps land. */
  lemma ClosedAround(pre: seq<Instr>, mid: seq<Instr>, post: seq<Instr>)
    requires Closed(mid)
    requires forall k: nat :: k < |pre| ==> JumpOk(pre + mid + post, k)
    requires forall k: nat :: |pre| + |mid| <= k < |pre| + |mid| + |post| ==> JumpOk(pre + mid + post, k)
    ensures Closed(pre + mid + post)
  {
    var code := pre + mid + post;
    forall k: nat | k < |code| ensures JumpOk(code, k) {
      if |pre| <= k < |pre| + |mid| { MidOk(pre, mid, post, k - |pre|); }
    }
  }

  lemma ClosedConcat(a: seq<Instr>, b: seq<Instr>)
    requires Closed(a) && Closed(b)
    ensures Closed(a + b)
  {
    var code := a + b;
    assert [] + a + b == code && a + b + [] == code;
    forall k: nat | k < |code| ensures JumpOk(code, k) {
      if k < |a| { MidOk([], a, b, k); } else { MidOk(a, b, [], k - |a|); }
    }
  }

  /** The instruction at `k` jumps to the start of the instruction at `j`. */
  lemma Lands(code: seq<Instr>, k: nat, j: nat)
    requires k < |code| && j <= |code|
    requires Jump(code[k]).Some? ==> Size(code[..k + 1]) + Jump(code[k]).value == Size(code[..j])
    ensures JumpOk(code, k)
  {
  }

  lemma ClosedPlain(code: seq<Instr>)
    requires forall k: nat :: k < |code| ==> Jump(code[k]).None?
    ensures Closed(code)
  {
  }

  lemma {:induction false} FragClosed(g: Canon, n: Node, cap: nat, back: bool, d: nat)
    ensures Closed(Frag(g, n, cap, back, d))
    decreases n
  {
    hide Frag, Closed, Code, NeedsAdvanceCheck, NeedsCaptureInit, Wrap, Caps;
    match n
    case Empty | One(_) | Assert(_) | BackRef(_, _) => LeafClosed(g, n, cap, back, d);
    case Cat(l, r) =>
      var a, b := Frag(g, l, cap, back, d), Frag(g, r, cap + Caps(l), back, d);
      FragClosed(g, l, cap, back, d);
      FragClosed(g, r, cap + Caps(l), back, d);
      FragOfCat(g, n, cap, back, d);
      ClosedConcat(a, b);
      ClosedConcat(b, a);
    case Alt(l, r) =>
      FragClosed(g, l, cap, back, d);
      FragClosed(g, r, cap + Caps(l), back, d);
      FragOfAlt(g, n, cap, back, d);
      AltClosed(Frag(g, l, cap, back, d), Frag(g, r, cap + Caps(l), back, d));
    case Group(b) =>
      FragClosed(g, b, cap + 1, back, d);
      GroupClosed(g, n, cap, back, d);
    case Look(behind, _, b) =>
      FragClosed(g, b, cap, behind, d);
      LookClosed(g, n, cap, back, d);
    case Repeat(b, min, max, _) =>
      FragClosed(g, b, cap, back, d + Held(NeedsAdvanceCheck(Code(g, b, cap, back)), min, QuantMax(max)));
      RepeatClosed(g, n, cap, back, d);
  }

  lemma LeafClosed(g: Canon, n: Node, cap: nat, back: bool, d: nat)
    requires n.Empty? || n.One? || n.Assert? || n.BackRef?
    ensures Closed(Frag(g, n, cap, back, d))
  {
    hide TestOp, Size;
    var code := Frag(g, n, cap, back, d);
    assert forall k: nat :: k < |code| ==> Jump(code[k]).None?;
  }

  lemma AltClosed(a: seq<Instr>, b: seq<Instr>)
    requires Closed(a) && Closed(b)
    ensures Closed([Split(true, Size(a) + 5)] + a + [Goto(Size(b))] + b)
  {
    hide Closed, Size, JumpOk;
    var split, goto := [Split(true, Size(a) + 5)], [Goto(Size(b))];
    var code := split + a + goto + b;
    SizesOfFour(split, a, goto, b);
    SizeOfOne(split[0]);
    SizeOfOne(goto[0]);
    Lands(code, 0, 2 + |a|);
    Lands(code, 1 + |a|, |code|);
    assert split + a + (goto + b) == code && (split + a + goto) + b + [] == code;
    forall k: nat | k < |code| ensures JumpOk(code, k) {
      if 1 <= k < 1 + |a| { MidOk(split, a, goto + b, k - 1); }
      if k >= 2 + |a| { MidOk(split + a + goto, b, [], k - 2 - |a|); }
    }
    AllOk(code);
  }

  lemma AllOk(code: seq<Instr>)
    requires forall k: nat :: k < |code| ==> JumpOk(code, k)
    ensures Closed(code)
  {
  }

  lemma SizeOfOne(i: Instr)
    ensures Size([i]) == InstrSize(i) && Size([]) == 0
  {
    assert [i][1..] == [];
  }

  /** Sizes of the prefixes of four parts. */
  lemma SizesOfFour(a: seq<Instr>, b: seq<Instr>, c: seq<Instr>, d: seq<Instr>)
    ensures var code := a + b + c + d;
            && Size(code[..|a|]) == Size(a)
            && Size(code[..|a| + |b|]) == Size(a) + Size(b)
            && Size(code[..|a| + |b| + |c|]) == Size(a) + Size(b) + Size(c)
            && code[..|code|] == code && Size(code) == Size(a) + Size(b) + Size(c) + Size(d)
            && code[..0] == [] && Size(code[..0]) == 0
  {
    var code := a + b + c + d;
    assert code[..|a|] == a && code[..|a| + |b|] == a + b && code[..|a| + |b| + |c|] == a + b + c;
    SizeConcat(a, b);
    SizeConcat(a + b, c);
    SizeConcat(a + b + c, d);
  }

  lemma EnclosedClosed(i: Instr, a: seq<Instr>, j: Instr)
    requires Closed(a) && Jump(j).None? && (Jump(i).Some? ==> Jump(i).value == Size(a) + InstrSize(j))
    ensures Closed([i] + a + [j])
  {
    hide Closed, Size, JumpOk;
    var code := [i] + a + [j];
    assert code == [i] + a + [j] + [];
    SizesOfFour([i], a, [j], []);
    SizeOfOne(i);
    SizeOfOne(j);
    Lands(code, 0, |code|);
    Lands(code, 1 + |a|, 0);
    ClosedAround([i], a, [j]);
  }

  lemma GroupClosed(g: Canon, n: Node, cap: nat, back: bool, d: nat)
    requires n.Group? && Closed(Frag(g, n.body, cap + 1, back, d))
    ensures Closed(Frag(g, n, cap, back, d))
  {
    hide Closed, Size, Wrap;
    EnclosedClosed(Save(back, cap), Frag(g, n.body, cap + 1, back, d), Save(!back, cap));
  }

  lemma LookClosed(g: Canon, n: Node, cap: nat, back: bool, d: nat)
    requires n.Look? && Closed(Frag(g, n.body, cap, n.behind, d))
    ensures Closed(Frag(g, n, cap, back, d))
  {
    hide Closed, Size, Wrap;
    var a := Frag(g, n.body, cap, n.behind, d);
    EnclosedClosed(LookStart(n.negative, Size(a) + 1), a, LookMatch(n.negative));
  }

  /** An instruction inserted in front of an atom. */
  lemma BodyClosed(init: bool, atom: seq<Instr>, lo: nat, hi: nat)
    requires Closed(atom)
    ensures Closed(WrapBody(init, atom, lo, hi)) && (lo < hi ==> Closed([SaveReset(lo, hi - 1)]))
  {
    hide Size;
    if lo < hi {
      ClosedPlain([SaveReset(lo, hi - 1)]);
      ClosedConcat([SaveReset(lo, hi - 1)], atom);
    }
  }

  lemma StarClosed(chk: bool, body: seq<Instr>, again: bool, greedy: bool, r: nat)
    requires Closed(body)
    ensures Closed(WrapStar(chk, body, again, greedy, r))
  {
    hide Closed, Size, JumpOk;
    var len := Size(body);
    var split := Split(greedy, len + 5 * Num(again) + 4 * Num(chk));
    var goto := Goto(-(5 + 2 * Num(chk) + len + 2 * Num(chk) + 5));
    var head, tail := [split] + Opt(chk, SetPos(r)), Opt(chk, CheckAdvance(r)) + Opt(again, goto);
    assert WrapStar(chk, body, again, greedy, r) == head + body + tail;
    SizeConcat([split], Opt(chk, SetPos(r)));
    SizeConcat(Opt(chk, CheckAdvance(r)), Opt(again, goto));
    SizeOfOne(split);
    SizeOfOne(SetPos(r));
    SizeOfOne(CheckAdvance(r));
    SizeOfOne(goto);
    LoopClosed(head, body, tail, again);
  }

  /** A loop: the first instruction jumps to the end, the last, if `again`, to the start. */
  lemma LoopClosed(head: seq<Instr>, body: seq<Instr>, tail: seq<Instr>, again: bool)
    requires Closed(body) && head != [] && (again ==> tail != [])
    requires Jump(head[0]).Some? && InstrSize(head[0]) + Jump(head[0]).value == Size(head) + Size(body) + Size(tail)
    requires forall k: nat :: 1 <= k < |head| ==> Jump(head[k]).None?
    requires forall k: nat :: k < |tail| && !(again && k == |tail| - 1) ==> Jump(tail[k]).None?
    requires again ==> Jump(tail[|tail| - 1]) == Some(-(Size(head) + Size(body) + Size(tail)))
    ensures Closed(head + body + tail)
  {
    hide Closed, Size, JumpOk;
    var code, p := head + body + tail, |head| + |body|;
    assert code == head + body + tail + [];
    SizesOfFour(head, body, tail, []);
    SizeOfOne(head[0]);
    assert code[..1] == [head[0]];
    forall k: nat | k < |head| ensures JumpOk(code, k) {
      assert code[k] == head[k];
      Lands(code, k, if k == 0 then |code| else 0);
    }
    forall k: nat | p <= k < p + |tail| ensures JumpOk(code, k) {
      assert code[k] == tail[k - p];
      if k == |code| - 1 { assert code[..k + 1] == code; }
      Lands(code, k, 0);
    }
    ClosedAround(head, body, tail);
  }

  lemma CountClosed(chk: bool, body: seq<Instr>, count: nat, limit: nat, exact: bool, greedy: bool, r: nat, r2: nat)
    requires Closed(body) && (exact ==> !chk)
    ensures Closed(WrapCount(chk, body, count, limit, exact, greedy, r, r2))
  {
    hide Closed, Size, JumpOk;
    var init, note, tail :=
          [SetCount(r, count)], Opt(chk, SetPos(r2)), CountTail(chk, Size(body), limit, exact, greedy, r);
    var code := WrapCount(chk, body, count, limit, exact, greedy, r, r2);
    assert code == init + note + body + [tail] && code == (init + note) + body + [tail];
    SizesOfFour(init, note, body, [tail]);
    SizeOfOne(init[0]);
    SizeOfOne(SetPos(r2));
    SizeOfOne(tail);
    Lands(code, 0, 0);
    if chk { Lands(code, 1, 0); }
    Lands(code, |code| - 1, 1);
    ClosedAround(init + note, body, [tail]);
  }

  lemma MainClosed(chk: bool, body: seq<Instr>, min: nat, max: nat, greedy: bool, r: nat, r2: nat)
    requires min <= max && Closed(body)
    ensures Closed(WrapMain(chk, body, min, max, greedy, r, r2))
  {
    hide Closed, Size, WrapStar, WrapCount, JumpOk;
    if min == 0 {
      if max == 0 {
        ClosedPlain([]);
      } else if max == 1 || max == INT32_MAX {
        StarClosed(chk, body, max == INT32_MAX, greedy, r);
      } else {
        SkipClosed(chk, body, max, greedy, r, r2);
      }
    } else if min == 1 && max == INT32_MAX && !chk {
      var split := Split(!greedy, -(Size(body) + 5));
      var code := body + [split];
      assert code == [] + body + [split] && code == [] + [] + body + [split];
      SizesOfFour([], [], body, [split]);
      SizeOfOne(split);
      Lands(code, |body|, 0);
      ClosedAround([], body, [split]);
    } else {
      CountClosed(chk && min != max, body, max, max - min, min == max, greedy, r, r2);
    }
  }

  lemma SkipClosed(chk: bool, body: seq<Instr>, max: nat, greedy: bool, r: nat, r2: nat)
    requires Closed(body)
    ensures Closed([Split(greedy, 6 + 2 * Num(chk) + Size(body) + 10)]
                   + WrapCount(chk, body, max, max, false, greedy, r, r2))
  {
    hide Closed, Size, JumpOk;
    var split, count :=
          Split(greedy, 6 + 2 * Num(chk) + Size(body) + 10), WrapCount(chk, body, max, max, false, greedy, r, r2);
    var init, note, tail := [SetCount(r, max)], Opt(chk, SetPos(r2)), CountTail(chk, Size(body), max, false, greedy, r);
    CountClosed(chk, body, max, max, false, greedy, r, r2);
    SizesOfFour(init, note, body, [tail]);
    SizeOfOne(init[0]);
    SizeOfOne(SetPos(r2));
    SizeOfOne(tail);
    SizeOfOne(split);
    var code := [split] + count;
    assert code == [split] + count + [] && code == [split] + count + [] + [];
    SizesOfFour([split], count, [], []);
    Lands(code, 0, |code|);
    ClosedAround([split], count, []);
  }

  lemma RepeatClosed(g: Canon, n: Node, cap: nat, back: bool, d: nat)
    requires n.Repeat?
    requires Closed(Frag(g, n.body, cap, back,
                         d + Held(NeedsAdvanceCheck(Code(g, n.body, cap, back)), n.min, QuantMax(n.max))))
    ensures Closed(Frag(g, n, cap, back, d))
  {
    hide Closed, Size, WrapMain, WrapBody, NeedsAdvanceCheck, NeedsCaptureInit, Code, Held;
    var a := Code(g, n.body, cap, back);
    var chk, init, max, hi := NeedsAdvanceCheck(a), NeedsCaptureInit(a), QuantMax(n.max), cap + Caps(n.body);
    var atom := Frag(g, n.body, cap, back, d + Held(chk, n.min, max));
    ClosedPlain([]);
    if n.min <= max {
      BodyClosed(init, atom, cap, hi);
      MainClosed(chk, WrapBody(init, atom, cap, hi), n.min, max, n.greedy, d, d + 1);
      ClosedConcat(WrapPre(init, cap, hi, n.min),
                   WrapMain(chk, WrapBody(init, atom, cap, hi), n.min, max, n.greedy, d, d + 1));
    }
  }

  /** Every jump of a finished program lands on an instruction. */
  lemma ProgramClosed(g: Canon, n: Node, sticky: bool)
    ensures Closed(FinalProgram(g, n, sticky))
  {
    hide Closed, Frag, Size, JumpOk;
    var frag, loop := Frag(g, Group(n), 0, false, 0), SearchLoop(sticky);
    FragClosed(g, Group(n), 0, false, 0);
    ClosedPlain([Accept]);
    if sticky {
      ClosedPlain([]);
    } else {
      var a, b, c := Split(false, 6), Consume(OpAny), Goto(-11);
      assert loop == [a] + [b] + [c] + [];
      SizesOfFour([a], [b], [c], []);
      SizeOfOne(a);
      SizeOfOne(b);
      SizeOfOne(c);
      Lands(loop, 0, 3);
      Lands(loop, 1, 0);
      Lands(loop, 2, 0);
      AllOk(loop);
    }
    ClosedConcat(loop, frag);
    ClosedConcat(loop + frag, [Accept]);
  }

  /* ----- before registers are assigned ----- */

  /** Register allocation keeps the place and the jump of every instruction. */
  lemma {:induction false} AssignKeepsPlaces(code: seq<Instr>, d: nat, k: nat)
    requires Assign(code, d).Some? && k <= |code|
    ensures var code' := Assign(code, d).value.code;
            && |code'| == |code| && Size(code'[..k]) == Size(code[..k])
            && (k < |code| ==> Jump(code'[k]) == Jump(code[k]))
    decreases |code|
  {
    hide Size, Jump, AssignInstr, Assign;
    AssignKeepsSize(code, d);
    if code != [] {
      FirstAssigned(code, d);
      var code' := Assign(code, d).value.code;
      if k > 0 {
        var d1 := AssignInstr(code[0], d).value.1;
        AssignKeepsPlaces(code[1..], d1, k - 1);
        SizeFrom(code, k);
        SizeFrom(code', k);
      } else {
        assert code'[..0] == code[..0] == [];
      }
    }
  }

  lemma FirstAssigned(code: seq<Instr>, d: nat)
    requires code != [] && Assign(code, d).Some?
    ensures AssignInstr(code[0], d).Some?
    ensures var first := AssignInstr(code[0], d).value;
            && Assign(code[1..], first.1).Some?
            && Assign(code, d).value.code == [first.0] + Assign(code[1..], first.1).value.code
            && Jump(first.0) == Jump(code[0]) && InstrSize(first.0) == InstrSize(code[0])
  {
  }

  lemma SizeFrom(code: seq<Instr>, k: nat)
    requires 0 < k <= |code|
    ensures Size(code[..k]) == InstrSize(code[0]) + Size(code[1..][..k - 1])
  {
    assert code[..k][1..] == code[1..][..k - 1];
  }

  /** The code as it is emitted, inserted in front of and rotated is closed as well. */
  lemma CodeClosed(g: Canon, n: Node, cap: nat, back: bool, total: nat)
    requires WellFormed(n, total)
    ensures Closed(Code(g, n, cap, back))
  {
    hide Code, Frag, Assign, Size, Jump, Registers, WellFormed;
    var code, frag := Code(g, n, cap, back), Frag(g, n, cap, back, 0);
    FragClosed(g, n, cap, back, 0);
    AllocationCorrect(g, n, cap, back, 0, total);
    AssignKeepsPlaces(code, 0, 0);
    forall k: nat | k < |code| ensures JumpOk(code, k) {
      AssignKeepsPlaces(code, 0, k);
      AssignKeepsPlaces(code, 0, k + 1);
      assert JumpOk(frag, k);
      if Jump(code[k]).Some? {
        var t := Size(frag[..k + 1]) + Jump(frag[k]).value;
        var j: nat :| j <= |frag| && Size(frag[..j]) == t;
        AssignKeepsPlaces(code, 0, j);
      }
    }
  }
}
