/** The instructions of the matcher and their encoded sizes. Jump offsets count
    bytes from the end of the instruction that holds them. */
module Bytecode {
  import opened Syntax

  /** Instructions that read one character. A range lists inclusive bounds; in the
      16-bit form an upper bound of 0xffff in the last pair stands for infinity. */
  datatype CharOp =
    | OpChar(c: nat, icase: bool)
    | OpDot
    | OpAny
    | OpSpace(negated: bool)
    | OpRange(pairs: seq<(nat, nat)>, icase: bool)
    | OpRange32(pairs: seq<(nat, nat)>, icase: bool)

  datatype Instr =
    | Consume(op: CharOp)
    | Test(assertion: Assertion)
    | Goto(off: int)
    | Split(nextFirst: bool, off: int)
    | Accept
    | LookMatch(negative: bool)
    | Save(end: bool, k: nat)
    | SaveReset(first: nat, last: nat)
    | Loop(reg: nat, off: int)
    | LoopSplit(checkAdv: bool, nextFirst: bool, reg: nat, limit: nat, off: int)
    | SetCount(reg: nat, count: nat)
    | SetPos(reg: nat)
    | CheckAdvance(reg: nat)
    | BackRefs(groups: seq<nat>, icase: bool, backward: bool)
    | LookStart(negative: bool, off: int)
    | Prev

  function OpSize(op: CharOp): (n: nat)
    ensures n > 0
  {
    match op
    case OpChar(c, _) => if c <= 0xffff then 3 else 5
    case OpDot | OpAny | OpSpace(_) => 1
    case OpRange(pairs, _) => 3 + 4 * |pairs|
    case OpRange32(pairs, _) => 3 + 8 * |pairs|
  }

  function InstrSize(i: Instr): (n: nat)
    ensures n > 0
  {
    match i
    case Consume(op) => OpSize(op)
    case Test(_) | Accept | LookMatch(_) | Prev => 1
    case Goto(_) | Split(_, _) | LookStart(_, _) => 5
    case Save(_, _) | SetPos(_) | CheckAdvance(_) => 2
    case SaveReset(_, _) => 3
    case Loop(_, _) | SetCount(_, _) => 6
    case LoopSplit(_, _, _, _, _) => 10
    case BackRefs(groups, _, _) => 2 + |groups|
  }

  function Size(code: seq<Instr>): nat {
    if code == [] then 0 else InstrSize(code[0]) + Size(code[1..])
  }

  lemma {:induction false} SizeConcat(a: seq<Instr>, b: seq<Instr>)
    ensures Size(a + b) == Size(a) + Size(b)
  {
    if a == [] {
      assert a + b == b;
    } else {
      assert (a + b)[1..] == a[1..] + b;
      SizeConcat(a[1..], b);
    }
  }

  /** A program maps each instruction's byte address to the instruction. */
  type Program = map<int, Instr>

  ghost predicate CodeAt(p: Program, s: int, code: seq<Instr>)
    decreases |code|
  {
    code == [] ||
    (s in p && p[s] == code[0] && CodeAt(p, s + InstrSize(code[0]), code[1..]))
  }

  lemma {:induction false} CodeAtConcat(p: Program, s: int, a: seq<Instr>, b: seq<Instr>)
    ensures Size(a + b) == Size(a) + Size(b)
    ensures CodeAt(p, s, a + b) <==> CodeAt(p, s, a) && CodeAt(p, s + Size(a), b)
    decreases |a|
  {
    if a == [] {
      assert a + b == b;
    } else {
      assert (a + b)[1..] == a[1..] + b;
      CodeAtConcat(p, s + InstrSize(a[0]), a[1..], b);
    }
  }

  lemma CodeAtCons(p: Program, s: int, i: Instr, rest: seq<Instr>)
    ensures Size([i] + rest) == InstrSize(i) + Size(rest)
    ensures CodeAt(p, s, [i] + rest) <==> s in p && p[s] == i && CodeAt(p, s + InstrSize(i), rest)
  {
    assert ([i] + rest)[1..] == rest;
  }
}
