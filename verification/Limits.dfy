/** The limits and the flags of the compiler, on families of expressions that come
    up to exactly one of them. */
module Limits {
  import opened Syntax
  import opened Semantics
  import opened Bytecode
  import opened Compiler
  import opened Search
  import opened Encoding
  import opened EmittedCode
  import opened Emitter
  import opened EndToEnd
  import opened CaptureBuffer

  /** Groups in groups: 254 of them are accepted and no more. */
  lemma GroupLimit(g: Canon, k: nat, sticky: bool)
    ensures Accepted(g, Nested(k), sticky) <==> k <= 254
  {
    hide Registers, FinalProgram, RawProgram, Code, Size, WellFormed;
    NestedParts(g, k, 1, 1 + k);
    NestedFits(k);
    SizeOfProgram(g, Nested(k), sticky);
  }

  lemma {:induction false} NestedFits(k: nat)
    ensures WellFormed(Nested(k), 1 + k) && ClassesFit(Nested(k)) && Caps(Nested(k)) == k
    decreases k
  {
    if k > 0 {
      NestedFits(k - 1);
      NestedAnyTotal(k - 1, 1 + k);
    }
  }

  lemma {:induction false} NestedAnyTotal(k: nat, total: nat)
    ensures WellFormed(Nested(k), total)
    decreases k
  {
    if k > 0 { NestedAnyTotal(k - 1, total); }
  }

  /** The search loop takes 11 bytes, group 0 four and the end one. */
  lemma SizeOfProgram(g: Canon, n: Node, sticky: bool)
    requires WellFormed(n, 1 + Caps(n))
    ensures Size(FinalProgram(g, n, sticky)) == (if sticky then 5 else 16) + Size(Code(g, n, 1, false))
  {
    hide Code, FinalProgram, Size;
    FinalSize(g, n, sticky);
    GroupSize(g, n, 0);
    OneSize(Accept);
    SizeConcat(SearchLoop(sticky) + Code(g, Group(n), 0, false), [Accept]);
    SizeConcat(SearchLoop(sticky), Code(g, Group(n), 0, false));
    LoopSize(sticky);
  }

  lemma LoopSize(sticky: bool)
    ensures Size(SearchLoop(sticky)) == if sticky then 0 else 11
  {
    if !sticky {
      var s := [Split(false, 6), Consume(OpAny), Goto(-11)];
      assert s == [Split(false, 6)] + ([Consume(OpAny)] + [Goto(-11)]);
      SizeConcat([Split(false, 6)], [Consume(OpAny)] + [Goto(-11)]);
      SizeConcat([Consume(OpAny)], [Goto(-11)]);
      OneSize(Split(false, 6));
      OneSize(Consume(OpAny));
      OneSize(Goto(-11));
    }
  }

  /** Loops in loops, each of which counts to two. */
  function Loops(k: nat): Node {
    if k == 0 then One(Dot(true)) else Repeat(Loops(k - 1), 2, Finite(2), true)
  }

  lemma {:induction false} LoopsParts(g: Canon, k: nat, total: nat)
    ensures var n := Loops(k);
            && Caps(n) == 0 && WellFormed(n, total)
            && Registers(g, n, 1, false) == k
            && Size(Code(g, n, 1, false)) == 12 * k + 1
    decreases k
  {
    hide Caps, WellFormed, Registers, Size, Code;
    if k > 0 {
      LoopsParts(g, k - 1, total);
      LoopPart(g, Loops(k - 1), total);
    } else {
      DotPart(g, total);
    }
  }

  lemma DotPart(g: Canon, total: nat)
    ensures var n := One(Dot(true));
            Caps(n) == 0 && WellFormed(n, total) && Registers(g, n, 1, false) == 0 && Size(Code(g, n, 1, false)) == 1
  {
    hide Size;
    OneSize(Consume(OpAny));
  }

  lemma LoopPart(g: Canon, n: Node, total: nat)
    requires WellFormed(n, total) && Caps(n) == 0
    ensures var m := Repeat(n, 2, Finite(2), true);
            && Caps(m) == 0 && WellFormed(m, total)
            && Registers(g, m, 1, false) == 1 + Registers(g, n, 1, false)
            && Size(Code(g, m, 1, false)) == Size(Code(g, n, 1, false)) + 12
  {
    hide NeedsAdvanceCheck, NeedsCaptureInit, Size, Wrap, Code, Registers;
    var a := Code(g, n, 1, false);
    ExactSize(NeedsAdvanceCheck(a), NeedsCaptureInit(a), a);
    LoopCode(g, n);
  }

  lemma LoopCode(g: Canon, n: Node)
    requires Caps(n) == 0
    ensures var m, a := Repeat(n, 2, Finite(2), true), Code(g, n, 1, false);
            && Code(g, m, 1, false) == Wrap(NeedsAdvanceCheck(a), NeedsCaptureInit(a), a, 1, 1, 2, 2, true, 0, 0)
            && Registers(g, m, 1, false) == 1 + Registers(g, n, 1, false)
  {
    hide NeedsAdvanceCheck, NeedsCaptureInit, Wrap, Caps;
  }

  lemma ExactSize(chk: bool, init: bool, a: seq<Instr>)
    ensures Size(Wrap(chk, init, a, 1, 1, 2, 2, true, 0, 0)) == Size(a) + 12
  {
    hide Size;
    var start, tail := SetCount(0, 2), CountTail(false, Size(a), 0, true, true, 0);
    assert Wrap(chk, init, a, 1, 1, 2, 2, true, 0, 0) == [start] + a + [tail];
    SizeConcat([start] + a, [tail]);
    SizeConcat([start], a);
    OneSize(start);
    OneSize(tail);
  }

  /** 255 counters at once are accepted and no more. */
  lemma RegisterLimit(g: Canon, k: nat, sticky: bool)
    ensures Accepted(g, Loops(k), sticky) <==> k <= 255
  {
    hide Registers, FinalProgram, RawProgram, Code, Size;
    LoopsParts(g, k, 1);
    SizeOfProgram(g, Loops(k), sticky);
  }

  /** A class is accepted with 65534 ranges and no more. */
  lemma RangeLimit(g: Canon, points: seq<nat>, icase: bool, sticky: bool)
    requires ValidPoints(points)
    ensures Accepted(g, One(Class(points, icase)), sticky) <==> |points| / 2 <= 65534
  {
    hide Size, FinalProgram, RawProgram;
    var n := One(Class(points, icase));
    if RangesFit(points) {
      SizeOfProgram(g, n, sticky);
      OneSize(Consume(RangeOp(points, icase)));
    }
  }

  /** `k` dots, of one byte each. */
  function Dots(k: nat): Node { if k == 0 then Empty else Cat(Dots(k - 1), One(Dot(true))) }

  lemma {:induction false} DotsParts(g: Canon, k: nat, total: nat)
    ensures var n := Dots(k);
            && Caps(n) == 0 && WellFormed(n, total)
            && Registers(g, n, 1, false) == 0
            && Size(Code(g, n, 1, false)) == k
    decreases k
  {
    hide Caps, WellFormed, Registers, Size, Code;
    if k > 0 {
      DotsParts(g, k - 1, total);
      DotPart(g, total);
      PairParts(g, Dots(k - 1), One(Dot(true)), total);
    } else {
      EmptySize(g, 1);
      NoParts(g, total);
    }
  }

  lemma NoParts(g: Canon, total: nat)
    ensures Caps(Empty) == 0 && WellFormed(Empty, total) && Registers(g, Empty, 1, false) == 0
  {
  }

  lemma PairParts(g: Canon, l: Node, r: Node, total: nat)
    requires WellFormed(l, total) && WellFormed(r, total) && Caps(l) == 0 && Caps(r) == 0
    requires Registers(g, l, 1, false) == 0 && Registers(g, r, 1, false) == 0
    ensures var n := Cat(l, r);
            && Caps(n) == 0 && WellFormed(n, total) && Registers(g, n, 1, false) == 0
            && Size(Code(g, n, 1, false)) == Size(Code(g, l, 1, false)) + Size(Code(g, r, 1, false))
  {
    hide Size, Code, Registers;
    SizeConcat(Code(g, l, 1, false), Code(g, r, 1, false));
    PairCode(g, l, r);
    PairRegisters(g, l, r);
  }

  lemma PairCode(g: Canon, l: Node, r: Node)
    requires Caps(l) == 0
    ensures Code(g, Cat(l, r), 1, false) == Code(g, l, 1, false) + Code(g, r, 1, false)
  {
    hide Caps, Wrap, NeedsAdvanceCheck, NeedsCaptureInit, Size, TestOp;
  }

  lemma PairRegisters(g: Canon, l: Node, r: Node)
    requires Caps(l) == 0
    ensures Registers(g, Cat(l, r), 1, false) == Max(Registers(g, l, 1, false), Registers(g, r, 1, false))
  {
    hide Caps, Held, Code;
  }

  /** The buffer may have 2^30 - 1 bytes, of which eight are its header. */
  lemma SizeLimit(g: Canon, k: nat)
    ensures Accepted(g, Dots(k), true) <==> 8 + k + 5 < 0x4000_0000
  {
    hide Registers, FinalProgram, RawProgram, Code, Size;
    DotsParts(g, k, 1);
    SizeOfProgram(g, Dots(k), true);
  }

  /** The flags are bits 4, 5 and 8 of the first two bytes of a buffer. */
  lemma FlagsMean(bc: seq<byte>)
    requires |bc| >= 8
    ensures IsSticky(bc) <==> bc[0] % 0x40 >= 0x20
    ensures IsWide(bc, 1) <==> bc[0] % 0x20 >= 0x10 || bc[1] % 2 == 1
    ensures !IsWide(bc, 0)
  {
    var b0: nat, b1: nat := bc[0], bc[1];
    Bit4(b0, b1);
    Bit5(b0, b1);
    Bit8(b0, b1);
  }

  lemma Bit4(low: nat, high: nat)
    requires low < 256
    ensures HasFlag(low + 256 * high, 0x10) <==> low % 0x20 >= 0x10
  {
    assert (low + 256 * high) / 0x10 == low / 0x10 + 16 * high;
    assert low == 0x20 * (low / 0x20) + low % 0x20;
  }

  lemma Bit5(low: nat, high: nat)
    requires low < 256
    ensures HasFlag(low + 256 * high, 0x20) <==> low % 0x40 >= 0x20
  {
    assert (low + 256 * high) / 0x20 == low / 0x20 + 8 * high;
    assert low == 0x40 * (low / 0x40) + low % 0x40;
  }

  lemma Bit8(low: nat, high: nat)
    requires low < 256
    ensures HasFlag(low + 256 * high, 0x100) <==> high % 2 == 1
  {
    assert (low + 256 * high) / 0x100 == high;
  }
}
