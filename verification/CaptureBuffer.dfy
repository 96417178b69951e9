/** The capture array that re_run puts on its stack, and which compiled expressions
    it is large enough for. */
module CaptureBuffer {
  import opened Syntax
  import opened Semantics
  import opened Bytecode
  import opened Compiler
  import opened Machine
  import opened Search
  import opened Encoding
  import opened EmittedCode
  import opened Emitter
  import opened EndToEnd

  const RE_MAX_CAPTURES: nat := 256

  /** The slots that lre_exec uses: two for each capture and one for each register. */
  function Slots(g: Canon, n: Node): nat { 2 * (1 + Caps(n)) + Registers(g, n, 1, false) }

  /** They are in the array on the stack of re_run. That function moves to the heap only
      for more than RE_MAX_CAPTURES captures, which no compiled expression has, and does
      not count the registers. */
  predicate SlotsFit(g: Canon, n: Node) { Slots(g, n) <= 2 * RE_MAX_CAPTURES }

  lemma SlotsUsed(bc: seq<byte>, g: Canon, n: Node)
    requires Compiled(bc, g, n)
    ensures |bc| >= HEADER_LEN && AllocCount(bc) == Slots(g, n) && CaptureCount(bc) <= RE_MAX_CAPTURES
  {
    hide Registers, EncAll, FinalProgram, WellFormed, GetU16, U32;
  }

  /** Up to 127 groups always fit. */
  lemma FewGroupsFit(g: Canon, n: Node, sticky: bool)
    requires Accepted(g, n, sticky) && Caps(n) <= 127
    ensures SlotsFit(g, n)
  {
    hide Registers, FinalProgram, ClassesFit;
  }

  /** `k` groups, one inside the other. */
  function Nested(k: nat): Node { if k == 0 then Empty else Group(Nested(k - 1)) }

  function Twice(n: Node): Node { Repeat(n, 2, Finite(3), true) }

  lemma {:induction false} NestedParts(g: Canon, k: nat, cap: nat, total: nat)
    ensures var n := Nested(k);
            && Caps(n) == k && WellFormed(n, total)
            && Registers(g, n, cap, false) == 0
            && Size(Code(g, n, cap, false)) == 4 * k
    decreases k
  {
    hide NeedsAdvanceCheck, NeedsCaptureInit, Wrap, Size, Code, Held;
    if k > 0 {
      NestedParts(g, k - 1, cap + 1, total);
      GroupSize(g, Nested(k - 1), cap);
    } else {
      EmptySize(g, cap);
    }
  }

  lemma EmptySize(g: Canon, cap: nat)
    ensures Size(Code(g, Empty, cap, false)) == 0
  {
  }

  lemma GroupSize(g: Canon, n: Node, cap: nat)
    ensures Size(Code(g, Group(n), cap, false)) == Size(Code(g, n, cap + 1, false)) + 4
  {
    hide Size, NeedsAdvanceCheck, NeedsCaptureInit, Wrap;
    var inner := Code(g, n, cap + 1, false);
    SizeConcat([Save(false, cap)] + inner, [Save(true, cap)]);
    SizeConcat([Save(false, cap)], inner);
    OneSize(Save(false, cap));
    OneSize(Save(true, cap));
  }

  lemma OneSize(i: Instr)
    ensures Size([i]) == InstrSize(i)
  {
    assert [i][1..] == [];
  }

  lemma TwiceParts(g: Canon, n: Node, cap: nat, total: nat)
    requires WellFormed(n, total)
    ensures WellFormed(Twice(n), total) && Caps(Twice(n)) == Caps(n)
    ensures 1 <= Registers(g, Twice(n), cap, false) - Registers(g, n, cap, false) <= 2
    ensures Size(Code(g, Twice(n), cap, false)) <= Size(Code(g, n, cap, false)) + 21
  {
    hide NeedsAdvanceCheck, NeedsCaptureInit, Size;
    var a := Code(g, n, cap, false);
    TwiceSize(NeedsAdvanceCheck(a), NeedsCaptureInit(a), a, cap, cap + Caps(n));
  }

  lemma TwiceSize(chk: bool, init: bool, a: seq<Instr>, lo: nat, hi: nat)
    ensures Size(Wrap(chk, init, a, lo, hi, 2, 3, true, 0, 0)) <= Size(a) + 21
  {
    hide Size;
    var body := WrapBody(init, a, lo, hi);
    var start, tail := SetCount(0, 3), CountTail(chk, Size(body), 1, false, true, 0);
    if init && lo < hi {
      OneSize(SaveReset(lo, hi - 1));
      SizeConcat([SaveReset(lo, hi - 1)], a);
    }
    OneSize(start);
    OneSize(tail);
    OneSize(SetPos(0));
    NoSize();
    SizeConcat([start] + Opt(chk, SetPos(0)) + body, [tail]);
    SizeConcat([start] + Opt(chk, SetPos(0)), body);
    SizeConcat([start], Opt(chk, SetPos(0)));
    assert Wrap(chk, init, a, lo, hi, 2, 3, true, 0, 0) == [start] + Opt(chk, SetPos(0)) + body + [tail];
  }

  lemma NoSize()
    ensures Size([]) == 0
  {
  }

  /** The limits of the compiler do not imply that the slots fit: 254 groups inside
      three bounded quantifiers compile, and need at least 513. */
  lemma CompilesBeyondBuffer(g: Canon, sticky: bool)
    ensures var n := Crowded();
            && Parsed(n, 1 + Caps(n)) && Accepted(g, n, sticky)
            && !SlotsFit(g, n)
  {
    hide Registers, Code, WellFormed, Size, FinalProgram, RawProgram, Caps;
    var n0 := Nested(254);
    var n1 := Twice(n0);
    var n2 := Twice(n1);
    var n := Twice(n2);
    NestedParts(g, 254, 1, 255);
    TwiceParts(g, n0, 1, 255);
    TwiceParts(g, n1, 1, 255);
    TwiceParts(g, n2, 1, 255);
    FormedAll(n, 255);
    FinalSize(g, n, sticky);
    ProgramSize(g, n, sticky);
  }

  lemma FormedAll(n: Node, total: nat)
    requires WellFormed(n, total)
    ensures Parsed(n, total) && ClassesFit(n)
  {
  }

  lemma ProgramSize(g: Canon, n: Node, sticky: bool)
    ensures Size(RawProgram(g, n, sticky)) <= Size(Code(g, n, 1, false)) + 16
  {
    hide Size, Code;
    var inner := Code(g, n, 1, false);
    SearchSize(sticky);
    GroupSize(g, n, 0);
    OneSize(Accept);
    SizeConcat(SearchLoop(sticky) + Code(g, Group(n), 0, false), [Accept]);
    SizeConcat(SearchLoop(sticky), Code(g, Group(n), 0, false));
  }

  lemma SearchSize(sticky: bool)
    ensures Size(SearchLoop(sticky)) <= 11
  {
    if !sticky {
      var s := SearchLoop(false);
      assert s == [s[0]] + [s[1]] + [s[2]];
      SizeConcat([s[0]] + [s[1]], [s[2]]);
      SizeConcat([s[0]], [s[1]]);
      OneSize(s[0]);
      OneSize(s[1]);
      OneSize(s[2]);
    }
  }

  /* ----- a run that needs more ----- */

  function Crowded(): Node { Twice(Twice(Twice(Nested(254)))) }

  /** An instruction that only writes slots, all of which exist. */
  predicate Passes(vm: Vm, i: Instr, slots: nat) {
    match i
    case Save(_, k) => k < vm.ncap
    case SaveReset(_, last) => last < vm.ncap
    case SetCount(reg, _) => 2 * vm.ncap + reg < slots
    case SetPos(reg) => 2 * vm.ncap + reg < slots
    case _ => false
  }

  lemma StepOver(vm: Vm, s: int, i: Instr, pos: nat, m: seq<Value>, k: seq<Frame>) returns (m': seq<Value>)
    requires s in vm.code && vm.code[s] == i && Passes(vm, i, |m|) && pos <= |vm.w.text| && 2 * vm.ncap <= |m|
    ensures |m'| == |m| && Step(vm, Run(s, pos, m, k)) == Run(s + InstrSize(i), pos, m', k)
  {
    m' := Step(vm, Run(s, pos, m, k)).mem;
  }

  /** Straight-line code is passed. */
  lemma {:induction false} PassOver(vm: Vm, s: int, a: seq<Instr>, pos: nat, m: seq<Value>, k: seq<Frame>)
    returns (m': seq<Value>)
    requires CodeAt(vm.code, s, a) && (forall j :: 0 <= j < |a| ==> Passes(vm, a[j], |m|))
    requires pos <= |vm.w.text| && 2 * vm.ncap <= |m|
    ensures |m'| == |m| && Reaches(vm, Run(s, pos, m, k), Run(s + Size(a), pos, m', k))
    decreases |a|
  {
    hide Step, Reaches, Passes;
    if a == [] {
      m' := m;
      ReachesSelf(vm, Run(s, pos, m, k));
    } else {
      var m1 := StepOver(vm, s, a[0], pos, m, k);
      m' := PassOver(vm, s + InstrSize(a[0]), a[1..], pos, m1, k);
      ReachesStep(vm, Run(s, pos, m, k), Run(s + Size(a), pos, m', k));
    }
  }

  /** What stands in front of the body of `{2,3}`. */
  function TwiceHead(chk: bool, init: bool, lo: nat, hi: nat, d: nat): seq<Instr> {
    [SetCount(d, 3)] + Opt(chk, SetPos(d + 1)) + Opt(init && lo < hi, SaveReset(lo, if hi == 0 then 0 else hi - 1))
  }

  lemma TwiceFrag(g: Canon, n: Node, cap: nat, d: nat)
    ensures var a := Code(g, n, cap, false);
            var chk, init, hi := NeedsAdvanceCheck(a), NeedsCaptureInit(a), cap + Caps(n);
            var inner := Frag(g, n, cap, false, d + 1 + Num(chk));
            var tail := [CountTail(chk, Size(WrapBody(init, inner, cap, hi)), 1, false, true, d)];
            Frag(g, Twice(n), cap, false, d) == TwiceHead(chk, init, cap, hi, d) + (inner + tail)
  {
    hide NeedsAdvanceCheck, NeedsCaptureInit, Size, Caps, Code, Wrap, TwiceHead;
    var a := Code(g, n, cap, false);
    var chk, init := NeedsAdvanceCheck(a), NeedsCaptureInit(a);
    FragOfTwice(g, n, cap, d);
    TwiceLayout(chk, init, Frag(g, n, cap, false, d + 1 + Num(chk)), cap, cap + Caps(n), d);
  }

  lemma FragOfTwice(g: Canon, n: Node, cap: nat, d: nat)
    ensures var a := Code(g, n, cap, false);
            var chk := NeedsAdvanceCheck(a);
            Frag(g, Twice(n), cap, false, d)
              == Wrap(chk, NeedsCaptureInit(a), Frag(g, n, cap, false, d + 1 + Num(chk)), cap,
                                                     cap + Caps(n), 2, 3, true, d, d + 1)
  {
    hide NeedsAdvanceCheck, NeedsCaptureInit, Caps, Code, Wrap;
  }

  lemma TwiceLayout(chk: bool, init: bool, inner: seq<Instr>, lo: nat, hi: nat, d: nat)
    ensures var tail := [CountTail(chk, Size(WrapBody(init, inner, lo, hi)), 1, false, true, d)];
            Wrap(chk, init, inner, lo, hi, 2, 3, true, d, d + 1) == TwiceHead(chk, init, lo, hi, d) + (inner + tail)
  {
    hide Size, CountTail;
    var tail := [CountTail(chk, Size(WrapBody(init, inner, lo, hi)), 1, false, true, d)];
    var start := [SetCount(d, 3)] + Opt(chk, SetPos(d + 1));
    if init && lo < hi {
      var reset := [SaveReset(lo, hi - 1)];
      assert start + (reset + inner) + tail == start + reset + (inner + tail);
    } else {
      assert start + inner + tail == start + [] + (inner + tail);
    }
  }

  /** From the start of `{2,3}` into its body. */
  lemma IntoTwice(vm: Vm, n: Node, cap: nat, d: nat, s: int, pos: nat, m: seq<Value>, k: seq<Frame>)
    returns (s': int, m': seq<Value>)
    requires CodeAt(vm.code, s, Frag(vm.w.canon, Twice(n), cap, false, d)) && pos <= |vm.w.text|
    requires cap + Caps(n) <= vm.ncap && 2 * vm.ncap + d + 2 <= |m|
    ensures |m'| == |m| && Reaches(vm, Run(s, pos, m, k), Run(s', pos, m', k))
    ensures var chk := NeedsAdvanceCheck(Code(vm.w.canon, n, cap, false));
            CodeAt(vm.code, s', Frag(vm.w.canon, n, cap, false, d + 1 + Num(chk)))
  {
    hide Frag, Code, Size, CodeAt, NeedsAdvanceCheck, NeedsCaptureInit, Reaches, CountTail;
    var g := vm.w.canon;
    var a := Code(g, n, cap, false);
    var chk, init, hi := NeedsAdvanceCheck(a), NeedsCaptureInit(a), cap + Caps(n);
    var inner := Frag(g, n, cap, false, d + 1 + Num(chk));
    var tail := [CountTail(chk, Size(WrapBody(init, inner, cap, hi)), 1, false, true, d)];
    var head := TwiceHead(chk, init, cap, hi, d);
    TwiceFrag(g, n, cap, d);
    CodeAtConcat(vm.code, s, head, inner + tail);
    CodeAtConcat(vm.code, s + Size(head), inner, tail);
    m' := PassOver(vm, s, head, pos, m, k);
    s' := s + Size(head);
  }

  /** It starts by setting its counter. */
  lemma TwiceStarts(vm: Vm, n: Node, cap: nat, d: nat, s: int)
    requires CodeAt(vm.code, s, Frag(vm.w.canon, Twice(n), cap, false, d))
    ensures s in vm.code && vm.code[s] == SetCount(d, 3)
  {
    hide Frag, Code, Size, NeedsAdvanceCheck, NeedsCaptureInit, CountTail;
    TwiceFrag(vm.w.canon, n, cap, d);
    assert Frag(vm.w.canon, Twice(n), cap, false, d)[0] == SetCount(d, 3);
  }

  /** From the start of a program into its pattern. */
  lemma IntoPattern(vm: Vm, n: Node, sticky: bool, pos: nat, m: seq<Value>)
    returns (s: int, m': seq<Value>, k: seq<Frame>)
    requires CodeAt(vm.code, 0, FinalProgram(vm.w.canon, n, sticky)) && pos <= |vm.w.text|
    requires 0 < vm.ncap && 2 * vm.ncap <= |m|
    ensures |m'| == |m| && Reaches(vm, Run(0, pos, m, []), Run(s, pos, m', k))
    ensures CodeAt(vm.code, s, Frag(vm.w.canon, n, 1, false, 0))
  {
    hide Frag, Code, Size, CodeAt, Reaches, Step;
    var g := vm.w.canon;
    var loop, inner := SearchLoop(sticky), Frag(g, n, 1, false, 0);
    GroupFrag(g, n);
    assert FinalProgram(g, n, sticky) == loop + ([Save(false, 0)] + (inner + ([Save(true, 0)] + [Accept])));
    CodeAtConcat(vm.code, 0, loop, [Save(false, 0)] + (inner + ([Save(true, 0)] + [Accept])));
    CodeAtConcat(vm.code, Size(loop), [Save(false, 0)], inner + ([Save(true, 0)] + [Accept]));
    CodeAtConcat(vm.code, Size(loop) + Size([Save(false, 0)]), inner, [Save(true, 0)] + [Accept]);
    LoopLayout(vm.code, sticky);
    k := [];
    if !sticky {
      k := [Frame(Choice, 5, pos, m)];
      LoopEntered(vm, pos, m);
    }
    ReachesSelf(vm, Run(Size(loop), pos, m, k));
    m' := PassOver(vm, Size(loop), [Save(false, 0)], pos, m, k);
    s := Size(loop) + Size([Save(false, 0)]);
    if !sticky { ReachesStep(vm, Run(0, pos, m, []), Run(s, pos, m', k)); }
  }

  lemma GroupFrag(g: Canon, n: Node)
    ensures Frag(g, Group(n), 0, false, 0) == [Save(false, 0)] + Frag(g, n, 1, false, 0) + [Save(true, 0)]
  {
    hide Code, NeedsAdvanceCheck, NeedsCaptureInit, Wrap;
  }

  lemma LoopEntered(vm: Vm, pos: nat, m: seq<Value>)
    requires 0 in vm.code && vm.code[0] == Split(false, 6) && pos <= |vm.w.text| && 2 * vm.ncap <= |m|
    ensures Step(vm, Run(0, pos, m, [])) == Run(11, pos, m, [Frame(Choice, 5, pos, m)])
  {
    assert [Frame(Choice, 5, pos, m)] + [] == [Frame(Choice, 5, pos, m)];
  }

  /** The slots are needed, not only asked for: on every text, from every start, the run
      of that program comes to write a slot that is not in an array of 512. */
  lemma RunsBeyondBuffer(vm: Vm, sticky: bool, pos: nat, m: seq<Value>)
    returns (pc: int, m': seq<Value>, k: seq<Frame>, slot: nat)
    requires vm.ncap == 255 && CodeAt(vm.code, 0, FinalProgram(vm.w.canon, Crowded(), sticky))
    requires pos <= |vm.w.text| && Slots(vm.w.canon, Crowded()) <= |m|
    ensures Reaches(vm, Run(0, pos, m, []), Run(pc, pos, m', k))
    ensures 2 * RE_MAX_CAPTURES <= slot < |m'| && Step(vm, Run(pc, pos, m', k))
              == Run(pc + 6, pos, m'[slot := Count(3)], k)
  {
    hide Frag, Code, Size, CodeAt, Reaches, Step, NeedsAdvanceCheck, FinalProgram, Registers, Caps;
    var g, n0 := vm.w.canon, Nested(254);
    var n1 := Twice(n0);
    var n2 := Twice(n1);
    CrowdedSlots(g);
    var s0, m0;
    s0, m0, k := IntoPattern(vm, Crowded(), sticky, pos, m);
    var s1, m1 := IntoTwice(vm, n2, 1, 0, s0, pos, m0, k);
    var d1 := 1 + Num(NeedsAdvanceCheck(Code(g, n2, 1, false)));
    var s2, m2 := IntoTwice(vm, n1, 1, d1, s1, pos, m1, k);
    var d2 := d1 + 1 + Num(NeedsAdvanceCheck(Code(g, n1, 1, false)));
    ReachesTrans(vm, Run(0, pos, m, []), Run(s0, pos, m0, k), Run(s1, pos, m1, k));
    ReachesTrans(vm, Run(0, pos, m, []), Run(s1, pos, m1, k), Run(s2, pos, m2, k));
    TwiceStarts(vm, n0, 1, d2, s2);
    CounterWritten(vm, s2, d2, pos, m2, k);
    pc, m', slot := s2, m2, 510 + d2;
  }

  lemma CounterWritten(vm: Vm, pc: int, d: nat, pos: nat, m: seq<Value>, k: seq<Frame>)
    requires pc in vm.code && vm.code[pc] == SetCount(d, 3) && pos <= |vm.w.text| && 2 * vm.ncap + d < |m|
    ensures Step(vm, Run(pc, pos, m, k)) == Run(pc + 6, pos, m[2 * vm.ncap + d := Count(3)], k)
  {
  }

  /** The registers of the three loops, by depth. */
  lemma CrowdedSlots(g: Canon)
    ensures var n0 := Nested(254);
            var n1, n2 := Twice(n0), Twice(Twice(n0));
            && Caps(n0) == Caps(n1) == Caps(n2) == Caps(Crowded()) == 254
            && Slots(g, Crowded()) == 510 + 3 + Num(NeedsAdvanceCheck(Code(g, n2, 1, false)))
                                      + Num(NeedsAdvanceCheck(Code(g, n1, 1, false)))
                                        + Num(NeedsAdvanceCheck(Code(g, n0, 1, false)))
  {
    hide Code, NeedsAdvanceCheck;
    NestedParts(g, 254, 1, 255);
    var n0 := Nested(254);
    var n1 := Twice(n0);
    TwiceRegisters(g, n0);
    TwiceRegisters(g, n1);
    TwiceRegisters(g, Twice(n1));
  }

  lemma TwiceRegisters(g: Canon, n: Node)
    ensures Registers(g, Twice(n), 1, false) == 1 + Num(NeedsAdvanceCheck(Code(g, n, 1, false)))
              + Registers(g, n, 1, false)
    ensures Caps(Twice(n)) == Caps(n)
  {
    hide Code, NeedsAdvanceCheck;
  }
}
