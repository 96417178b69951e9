/** The byte form of instructions: one opcode byte, then little-endian operands. */
module Encoding {
  import opened Syntax
  import opened Semantics
  import opened Bytecode

  type byte = b: nat | b < 256

  const TWO32: nat := 0x1_0000_0000

  function U8(v: nat): seq<byte> { [v % 256] }

  function U16(v: nat): (r: seq<byte>)
    ensures |r| == 2
  {
    [v % 256, v / 256 % 256]
  }

  function U32(v: nat): (r: seq<byte>)
    ensures |r| == 4
  {
    [v % 256, v / 256 % 256, v / 65536 % 256, v / 16777216 % 256]
  }

  /** A 32-bit two's complement offset. */
  function I32(off: int): (r: seq<byte>)
    ensures |r| == 4
  {
    U32(off % TWO32)
  }

  function GetU16(bc: seq<byte>, p: nat): nat
    requires p + 2 <= |bc|
  {
    var b0: nat, b1: nat := bc[p], bc[p + 1];
    b0 + 256 * b1
  }

  function GetU32(bc: seq<byte>, p: nat): (v: nat)
    requires p + 4 <= |bc|
    ensures v < TWO32
  {
    var b0: nat, b1: nat, b2: nat, b3: nat := bc[p], bc[p + 1], bc[p + 2], bc[p + 3];
    b0 + 256 * b1 + 65536 * b2 + 16777216 * b3
  }

  /** The cast from uint32_t to int. */
  function Signed(v: nat): int { if v < 0x8000_0000 then v else v - TWO32 }

  function GetI32(bc: seq<byte>, p: nat): int
    requires p + 4 <= |bc|
  {
    Signed(GetU32(bc, p))
  }

  /* ----- opcodes ----- */

  function AssertionOpcode(a: Assertion): byte {
    match a
    case LineStart(m) => 9 + Num(m)
    case LineEnd(m) => 11 + Num(m)
    case WordBoundary(neg, icase) => 28 + 2 * Num(neg) + Num(icase)
  }

  function CharOpcode(op: CharOp): byte {
    match op
    case OpChar(c, icase) => (if c <= 0xffff then 1 else 3) + Num(icase)
    case OpDot => 5
    case OpAny => 6
    case OpSpace(neg) => 7 + Num(neg)
    case OpRange(_, icase) => 36 + Num(icase)
    case OpRange32(_, icase) => 38 + Num(icase)
  }

  function Opcode(i: Instr): byte {
    match i
    case Consume(op) => CharOpcode(op)
    case Test(a) => AssertionOpcode(a)
    case Goto(_) => 13
    case Split(nextFirst, _) => 14 + Num(nextFirst)
    case Accept => 16
    case LookMatch(neg) => 17 + Num(neg)
    case Save(end, _) => 19 + Num(end)
    case SaveReset(_, _) => 21
    case Loop(_, _) => 22
    case LoopSplit(chk, nextFirst, _, _, _) => 23 + 2 * Num(chk) + Num(nextFirst)
    case SetCount(_, _) => 27
    case BackRefs(_, icase, backward) => 32 + 2 * Num(backward) + Num(icase)
    case LookStart(neg, _) => 40 + Num(neg)
    case SetPos(_) => 42
    case CheckAdvance(_) => 43
    case Prev => 44
  }

  function EncGroups(groups: seq<nat>): (r: seq<byte>)
    ensures |r| == |groups|
    ensures forall i :: 0 <= i < |groups| ==> r[i] == groups[i] % 256
  {
    seq(|groups|, i requires 0 <= i < |groups| => groups[i] % 256)
  }

  function EncPairs16(ps: seq<(nat, nat)>): (r: seq<byte>)
    ensures |r| == 4 * |ps|
  {
    if ps == [] then [] else U16(ps[0].0) + U16(ps[0].1) + EncPairs16(ps[1..])
  }

  function EncPairs32(ps: seq<(nat, nat)>): (r: seq<byte>)
    ensures |r| == 8 * |ps|
  {
    if ps == [] then [] else U32(ps[0].0) + U32(ps[0].1) + EncPairs32(ps[1..])
  }

  function Operands(i: Instr): (r: seq<byte>)
    ensures |r| + 1 == InstrSize(i)
  {
    match i
    case Consume(op) =>
      (match op
       case OpChar(c, _) => if c <= 0xffff then U16(c) else U32(c)
       case OpDot | OpAny | OpSpace(_) => []
       case OpRange(ps, _) => U16(|ps|) + EncPairs16(ps)
       case OpRange32(ps, _) => U16(|ps|) + EncPairs32(ps))
    case Test(_) | Accept | LookMatch(_) | Prev => []
    case Goto(off) => I32(off)
    case Split(_, off) => I32(off)
    case LookStart(_, off) => I32(off)
    case Save(_, k) => U8(k)
    case SaveReset(first, last) => U8(first) + U8(last)
    case Loop(reg, off) => U8(reg) + I32(off)
    case LoopSplit(_, _, reg, limit, off) => U8(reg) + U32(limit) + I32(off)
    case SetCount(reg, count) => U8(reg) + U32(count)
    case SetPos(reg) => U8(reg)
    case CheckAdvance(reg) => U8(reg)
    case BackRefs(groups, _, _) => U8(|groups|) + EncGroups(groups)
  }

  function Enc(i: Instr): (r: seq<byte>)
    ensures |r| == InstrSize(i) && r[0] == Opcode(i)
  {
    [Opcode(i)] + Operands(i)
  }

  function EncAll(code: seq<Instr>): (r: seq<byte>)
    ensures |r| == Size(code)
  {
    if code == [] then [] else Enc(code[0]) + EncAll(code[1..])
  }

  lemma {:induction false} EncConcat(a: seq<Instr>, b: seq<Instr>)
    ensures EncAll(a + b) == EncAll(a) + EncAll(b)
  {
    if a == [] {
      assert a + b == b;
    } else {
      assert (a + b)[1..] == a[1..] + b;
      EncConcat(a[1..], b);
    }
  }

  predicate FitsI32(off: int) { -0x8000_0000 <= off < 0x8000_0000 }

  /** Operands that fit their fields. */
  predicate Encodable(i: Instr) {
    match i
    case Consume(op) =>
      (match op
       case OpChar(c, _) => c < TWO32
       case OpDot | OpAny | OpSpace(_) => true
       case OpRange(ps, _) => |ps| < 65536 && forall j :: 0 <= j < |ps| ==> ps[j].0 < 65536 && ps[j].1 < 65536
       case OpRange32(ps, _) => |ps| < 65536 && forall j :: 0 <= j < |ps| ==> ps[j].0 < TWO32 && ps[j].1 < TWO32)
    case Test(_) | Accept | LookMatch(_) | Prev => true
    case Goto(off) => FitsI32(off)
    case Split(_, off) => FitsI32(off)
    case LookStart(_, off) => FitsI32(off)
    case Save(_, k) => k < 256
    case SaveReset(first, last) => first < 256 && last < 256
    case Loop(reg, off) => reg < 256 && FitsI32(off)
    case LoopSplit(_, _, reg, limit, off) => reg < 256 && limit < TWO32 && FitsI32(off)
    case SetCount(reg, count) => reg < 256 && count < TWO32
    case SetPos(reg) => reg < 256
    case CheckAdvance(reg) => reg < 256
    case BackRefs(groups, _, _) => |groups| < 256 && forall j :: 0 <= j < |groups| ==> groups[j] < 256
  }

  /** What a class instruction's table must look like for the binary search. */
  ghost predicate OrderedPairs(ps: seq<(nat, nat)>) {
    && |ps| > 0
    && (forall i :: 0 <= i < |ps| ==> ps[i].0 <= ps[i].1)
    && (forall i, j :: 0 <= i < j < |ps| ==> ps[i].1 < ps[j].0)
  }

  ghost predicate OrderedInstr(i: Instr) {
    match i
    case Consume(OpRange(ps, _)) => OrderedPairs(ps) && forall j :: 0 <= j < |ps| ==> ps[j].0 <= 0xffff
    case Consume(OpRange32(ps, _)) => OrderedPairs(ps)
    case _ => true
  }

  /* ----- decoding ----- */

  function DecPairs16(bc: seq<byte>, p: nat, n: nat): (r: seq<(nat, nat)>)
    requires p + 4 * n <= |bc|
    ensures |r| == n
    decreases n
  {
    if n == 0 then [] else [(GetU16(bc, p), GetU16(bc, p + 2))] + DecPairs16(bc, p + 4, n - 1)
  }

  function DecPairs32(bc: seq<byte>, p: nat, n: nat): (r: seq<(nat, nat)>)
    requires p + 8 * n <= |bc|
    ensures |r| == n
    decreases n
  {
    if n == 0 then [] else [(GetU32(bc, p), GetU32(bc, p + 4))] + DecPairs32(bc, p + 8, n - 1)
  }

  /** The length of the instruction at `p`, as the scans over the buffer compute it:
      a fixed size by opcode plus what a count operand adds. */
  function FixedSize(op: byte): nat {
    if op in {1, 2} then 3
    else if op in {3, 4, 13, 14, 15, 40, 41} then 5
    else if op in {19, 20, 32, 33, 34, 35, 42, 43} then 2
    else if op in {21, 36, 37, 38, 39} then 3
    else if op in {22, 27} then 6
    else if 23 <= op <= 26 then 10
    else 1
  }

  function RawSize(bc: seq<byte>, p: nat): (n: nat)
    requires p < |bc|
    ensures n > 0
  {
    var op := bc[p];
    if 32 <= op <= 35 && p + 1 < |bc| then FixedSize(op) + bc[p + 1]
    else if 36 <= op <= 37 && p + 2 < |bc| then FixedSize(op) + 4 * GetU16(bc, p + 1)
    else if 38 <= op <= 39 && p + 2 < |bc| then FixedSize(op) + 8 * GetU16(bc, p + 1)
    else FixedSize(op)
  }

  /** Instruction fetch. None stands for an unknown opcode or a truncated buffer. */
  function Dec(bc: seq<byte>, p: nat): Option<Instr> {
    if p >= |bc| || p + RawSize(bc, p) > |bc| then None
    else
      var op := bc[p];
      if op in {1, 2} then Some(Consume(OpChar(GetU16(bc, p + 1), op == 2)))
      else if op in {3, 4} then Some(Consume(OpChar(GetU32(bc, p + 1), op == 4)))
      else if op == 5 then Some(Consume(OpDot))
      else if op == 6 then Some(Consume(OpAny))
      else if op in {7, 8} then Some(Consume(OpSpace(op == 8)))
      else if op in {9, 10} then Some(Test(LineStart(op == 10)))
      else if op in {11, 12} then Some(Test(LineEnd(op == 12)))
      else if op == 13 then Some(Goto(GetI32(bc, p + 1)))
      else if op in {14, 15} then Some(Split(op == 15, GetI32(bc, p + 1)))
      else if op == 16 then Some(Accept)
      else if op in {17, 18} then Some(LookMatch(op == 18))
      else if op in {19, 20} then Some(Save(op == 20, bc[p + 1]))
      else if op == 21 then Some(SaveReset(bc[p + 1], bc[p + 2]))
      else if op == 22 then Some(Loop(bc[p + 1], GetI32(bc, p + 2)))
      else if 23 <= op <= 26 then
        Some(LoopSplit(op >= 25, op in {24, 26}, bc[p + 1], GetU32(bc, p + 2), GetI32(bc, p + 6)))
      else if op == 27 then Some(SetCount(bc[p + 1], GetU32(bc, p + 2)))
      else if 28 <= op <= 31 then Some(Test(WordBoundary(op >= 30, op in {29, 31})))
      else if 32 <= op <= 35 then Some(BackRefs(bc[p + 2..p + 2 + bc[p + 1]], op in {33, 35}, op >= 34))
      else if op in {36, 37} then Some(Consume(OpRange(DecPairs16(bc, p + 3, GetU16(bc, p + 1)), op == 37)))
      else if op in {38, 39} then Some(Consume(OpRange32(DecPairs32(bc, p + 3, GetU16(bc, p + 1)), op == 39)))
      else if op in {40, 41} then Some(LookStart(op == 41, GetI32(bc, p + 1)))
      else if op == 42 then Some(SetPos(bc[p + 1]))
      else if op == 43 then Some(CheckAdvance(bc[p + 1]))
      else if op == 44 then Some(Prev)
      else None
  }

  /** `s` stands in the buffer at `p`. */
  predicate Stands(bc: seq<byte>, p: nat, s: seq<byte>) {
    p + |s| <= |bc| && bc[p..p + |s|] == s
  }

  lemma StandsConcat(bc: seq<byte>, p: nat, a: seq<byte>, b: seq<byte>)
    ensures Stands(bc, p, a + b) <==> Stands(bc, p, a) && Stands(bc, p + |a|, b)
  {
    if p + |a| + |b| <= |bc| {
      var whole, x, y := bc[p..p + |a| + |b|], bc[p..p + |a|], bc[p + |a|..p + |a| + |b|];
      assert whole == x + y;
      assert whole == a + b ==> x == whole[..|a|] && y == whole[|a|..];
    }
  }

  lemma StandsByte(bc: seq<byte>, p: nat, v: nat)
    requires v < 256
    ensures Stands(bc, p, U8(v)) ==> p < |bc| && bc[p] == v
  {
    if Stands(bc, p, U8(v)) { assert bc[p] == bc[p..p + 1][0]; }
  }

  lemma StandsU16(bc: seq<byte>, p: nat, v: nat)
    requires v < 65536
    ensures Stands(bc, p, U16(v)) ==> p + 2 <= |bc| && GetU16(bc, p) == v
  {
    if Stands(bc, p, U16(v)) {
      var s := bc[p..p + 2];
      assert bc[p] == s[0] && bc[p + 1] == s[1];
    }
  }

  lemma StandsU32(bc: seq<byte>, p: nat, v: nat)
    requires v < TWO32
    ensures Stands(bc, p, U32(v)) ==> p + 4 <= |bc| && GetU32(bc, p) == v
  {
    if Stands(bc, p, U32(v)) {
      var s := bc[p..p + 4];
      assert bc[p] == s[0] && bc[p + 1] == s[1] && bc[p + 2] == s[2] && bc[p + 3] == s[3];
      assert v / 65536 == v / 256 / 256 && v / 16777216 == v / 65536 / 256;
    }
  }

  lemma StandsI32(bc: seq<byte>, p: nat, off: int)
    requires FitsI32(off)
    ensures Stands(bc, p, I32(off)) ==> p + 4 <= |bc| && GetI32(bc, p) == off
  {
    StandsU32(bc, p, off % TWO32);
  }

  lemma {:induction false} StandsPairs16(bc: seq<byte>, p: nat, ps: seq<(nat, nat)>)
    requires forall j :: 0 <= j < |ps| ==> ps[j].0 < 65536 && ps[j].1 < 65536
    requires Stands(bc, p, EncPairs16(ps))
    ensures DecPairs16(bc, p, |ps|) == ps
    decreases |ps|
  {
    hide Stands, U16, GetU16;
    if ps != [] {
      var rest := EncPairs16(ps[1..]);
      assert EncPairs16(ps) == U16(ps[0].0) + (U16(ps[0].1) + rest);
      StandsConcat(bc, p, U16(ps[0].0), U16(ps[0].1) + rest);
      StandsConcat(bc, p + 2, U16(ps[0].1), rest);
      StandsU16(bc, p, ps[0].0);
      StandsU16(bc, p + 2, ps[0].1);
      StandsPairs16(bc, p + 4, ps[1..]);
    }
  }

  lemma {:induction false} StandsPairs32(bc: seq<byte>, p: nat, ps: seq<(nat, nat)>)
    requires forall j :: 0 <= j < |ps| ==> ps[j].0 < TWO32 && ps[j].1 < TWO32
    requires Stands(bc, p, EncPairs32(ps))
    ensures DecPairs32(bc, p, |ps|) == ps
    decreases |ps|
  {
    hide Stands, U32, GetU32;
    if ps != [] {
      var rest := EncPairs32(ps[1..]);
      assert EncPairs32(ps) == U32(ps[0].0) + (U32(ps[0].1) + rest);
      StandsConcat(bc, p, U32(ps[0].0), U32(ps[0].1) + rest);
      StandsConcat(bc, p + 4, U32(ps[0].1), rest);
      StandsU32(bc, p, ps[0].0);
      StandsU32(bc, p + 4, ps[0].1);
      StandsPairs32(bc, p + 8, ps[1..]);
    }
  }

  /** Decoding inverts encoding, wherever the instruction stands. */
  lemma DecodeEncode(bc: seq<byte>, p: nat, i: Instr)
    requires Encodable(i) && Stands(bc, p, Enc(i))
    ensures Dec(bc, p) == Some(i) && RawSize(bc, p) == InstrSize(i) && p < |bc|
  {
    hide Dec, Encodable, RawSize, Operands;
    StandsConcat(bc, p, [Opcode(i)], Operands(i));
    assert bc[p] == bc[p..p + 1][0];
    DecodeOperands(bc, p, i);
  }

  lemma DecodeSmall(bc: seq<byte>, p: nat, i: Instr)
    requires i.Test? || i.Accept? || i.LookMatch? || i.Prev? || i.Save? || i.SaveReset? || i.SetPos? || i.CheckAdvance?
    requires Encodable(i) && p < |bc| && bc[p] == Opcode(i) && Stands(bc, p + 1, Operands(i))
    ensures Dec(bc, p) == Some(i) && RawSize(bc, p) == InstrSize(i)
  {
    hide Stands;
    match i
    case Save(_, k) => StandsByte(bc, p + 1, k);
    case SaveReset(first, last) =>
      StandsConcat(bc, p + 1, U8(first), U8(last));
      StandsByte(bc, p + 1, first);
      StandsByte(bc, p + 2, last);
    case SetPos(reg) => StandsByte(bc, p + 1, reg);
    case CheckAdvance(reg) => StandsByte(bc, p + 1, reg);
    case _ =>
  }

  lemma DecodeJump(bc: seq<byte>, p: nat, i: Instr)
    requires i.Goto? || i.Split? || i.LookStart?
    requires Encodable(i) && p < |bc| && bc[p] == Opcode(i) && Stands(bc, p + 1, Operands(i))
    ensures Dec(bc, p) == Some(i) && RawSize(bc, p) == InstrSize(i)
  {
    hide Stands, I32, GetI32;
    StandsI32(bc, p + 1, i.off);
  }

  lemma DecodeCounter(bc: seq<byte>, p: nat, i: Instr)
    requires i.Loop? || i.LoopSplit? || i.SetCount?
    requires Encodable(i) && p < |bc| && bc[p] == Opcode(i) && Stands(bc, p + 1, Operands(i))
    ensures Dec(bc, p) == Some(i) && RawSize(bc, p) == InstrSize(i)
  {
    hide Stands, I32, U32, GetI32, GetU32;
    match i
    case Loop(reg, off) =>
      StandsConcat(bc, p + 1, U8(reg), I32(off));
      StandsByte(bc, p + 1, reg);
      StandsI32(bc, p + 2, off);
    case LoopSplit(_, _, reg, limit, off) =>
      StandsConcat(bc, p + 1, U8(reg) + U32(limit), I32(off));
      StandsConcat(bc, p + 1, U8(reg), U32(limit));
      StandsByte(bc, p + 1, reg);
      StandsU32(bc, p + 2, limit);
      StandsI32(bc, p + 6, off);
    case SetCount(reg, count) =>
      StandsConcat(bc, p + 1, U8(reg), U32(count));
      StandsByte(bc, p + 1, reg);
      StandsU32(bc, p + 2, count);
    case _ =>
  }

  lemma DecodeBackRefs(bc: seq<byte>, p: nat, i: Instr)
    requires i.BackRefs?
    requires Encodable(i) && p < |bc| && bc[p] == Opcode(i) && Stands(bc, p + 1, Operands(i))
    ensures Dec(bc, p) == Some(i) && RawSize(bc, p) == InstrSize(i)
  {
    hide Stands;
    StandsConcat(bc, p + 1, U8(|i.groups|), EncGroups(i.groups));
    StandsByte(bc, p + 1, |i.groups|);
    GroupsDecode(bc, p + 2, i.groups);
  }

  lemma ConsumeOperands(bc: seq<byte>, p: nat, op: CharOp)
    requires Encodable(Consume(op)) && p < |bc| && bc[p] == Opcode(Consume(op))
             && Stands(bc, p + 1, Operands(Consume(op)))
    ensures Dec(bc, p) == Some(Consume(op)) && RawSize(bc, p) == InstrSize(Consume(op))
  {
    hide Dec, RawSize, Stands, Encodable, Operands;
    DecodeConsume(bc, p, op);
  }

  lemma DecodeOperands(bc: seq<byte>, p: nat, i: Instr)
    requires Encodable(i) && p < |bc| && bc[p] == Opcode(i) && Stands(bc, p + 1, Operands(i))
    ensures Dec(bc, p) == Some(i) && RawSize(bc, p) == InstrSize(i)
  {
    hide Stands, Dec, RawSize, Encodable, Operands, Opcode;
    match i
    case Consume(op) => ConsumeOperands(bc, p, op);
    case Goto(_) | Split(_, _) | LookStart(_, _) => DecodeJump(bc, p, i);
    case Loop(_, _) | LoopSplit(_, _, _, _, _) | SetCount(_, _) => DecodeCounter(bc, p, i);
    case BackRefs(_, _, _) => DecodeBackRefs(bc, p, i);
    case _ => DecodeSmall(bc, p, i);
  }

  lemma GroupsDecode(bc: seq<byte>, p: nat, groups: seq<nat>)
    requires forall j :: 0 <= j < |groups| ==> groups[j] < 256
    requires Stands(bc, p, EncGroups(groups))
    ensures p + |groups| <= |bc| && bc[p..p + |groups|] == groups
  {
  }

  lemma DecodeConsume(bc: seq<byte>, p: nat, op: CharOp)
    requires Encodable(Consume(op)) && p < |bc| && bc[p] == CharOpcode(op) && Stands(bc, p + 1, Operands(Consume(op)))
    ensures Dec(bc, p) == Some(Consume(op)) && RawSize(bc, p) == OpSize(op)
  {
    if op.OpRange? || op.OpRange32? {
      DecodeRange(bc, p, op);
    } else {
      DecodeChar(bc, p, op);
    }
  }

  lemma DecodeChar(bc: seq<byte>, p: nat, op: CharOp)
    requires !op.OpRange? && !op.OpRange32?
    requires Encodable(Consume(op)) && p < |bc| && bc[p] == CharOpcode(op) && Stands(bc, p + 1, Operands(Consume(op)))
    ensures Dec(bc, p) == Some(Consume(op)) && RawSize(bc, p) == OpSize(op)
  {
    hide Stands;
    if op.OpChar? {
      if op.c <= 0xffff { StandsU16(bc, p + 1, op.c); } else { StandsU32(bc, p + 1, op.c); }
    }
  }

  lemma DecodeRange(bc: seq<byte>, p: nat, op: CharOp)
    requires op.OpRange? || op.OpRange32?
    requires Encodable(Consume(op)) && p < |bc| && bc[p] == CharOpcode(op) && Stands(bc, p + 1, Operands(Consume(op)))
    ensures Dec(bc, p) == Some(Consume(op)) && RawSize(bc, p) == OpSize(op)
  {
    hide Stands, EncPairs16, EncPairs32, DecPairs16, DecPairs32;
    var n := |op.pairs|;
    var pairs := if op.OpRange? then EncPairs16(op.pairs) else EncPairs32(op.pairs);
    StandsConcat(bc, p + 1, U16(n), pairs);
    StandsU16(bc, p + 1, n);
    StandsInside(bc, p + 3, pairs);
    if op.OpRange? { StandsPairs16(bc, p + 3, op.pairs); } else { StandsPairs32(bc, p + 3, op.pairs); }
  }

  lemma StandsInside(bc: seq<byte>, p: nat, s: seq<byte>)
    requires Stands(bc, p, s)
    ensures p + |s| <= |bc|
  {
  }

  /** Count operands that fit their field: all that the scans over the buffer rely on. */
  predicate Short(i: Instr) {
    match i
    case Consume(OpRange(ps, _)) => |ps| < 65536
    case Consume(OpRange32(ps, _)) => |ps| < 65536
    case BackRefs(groups, _, _) => |groups| < 256
    case _ => true
  }

  lemma StandsFirst(bc: seq<byte>, p: nat, op: byte)
    requires Stands(bc, p, [op])
    ensures p < |bc| && bc[p] == op
  {
    assert bc[p] == bc[p..p + 1][0];
  }

  lemma RawSizeStands(bc: seq<byte>, p: nat, i: Instr)
    requires Short(i) && Stands(bc, p, Enc(i))
    ensures p < |bc| && bc[p] == Opcode(i) && RawSize(bc, p) == InstrSize(i)
  {
    hide Stands, EncPairs16, EncPairs32, U16, EncGroups, GetU16;
    StandsConcat(bc, p, [Opcode(i)], Operands(i));
    StandsFirst(bc, p, Opcode(i));
    match i
    case Consume(OpRange(ps, _)) =>
      StandsConcat(bc, p + 1, U16(|ps|), EncPairs16(ps));
      StandsU16(bc, p + 1, |ps|);
    case Consume(OpRange32(ps, _)) =>
      StandsConcat(bc, p + 1, U16(|ps|), EncPairs32(ps));
      StandsU16(bc, p + 1, |ps|);
    case BackRefs(groups, _, _) =>
      StandsConcat(bc, p + 1, U8(|groups|), EncGroups(groups));
      StandsByte(bc, p + 1, |groups|);
    case _ =>
  }

  /** The program that a buffer holds. */
  ghost function ProgramOf(bc: seq<byte>): Program {
    map p | 0 <= p < |bc| && Dec(bc, p).Some? :: Dec(bc, p).value
  }

  /** Encoded code is found by fetching from where it stands. */
  lemma {:induction false} CodeStands(bc: seq<byte>, p: nat, code: seq<Instr>)
    requires forall j :: 0 <= j < |code| ==> Encodable(code[j])
    requires Stands(bc, p, EncAll(code))
    ensures CodeAt(ProgramOf(bc), p, code)
    decreases |code|
  {
    hide Dec, Stands, Enc, Encodable;
    if code != [] {
      StandsConcat(bc, p, Enc(code[0]), EncAll(code[1..]));
      DecodeEncode(bc, p, code[0]);
      CodeStands(bc, p + InstrSize(code[0]), code[1..]);
    }
  }
}
