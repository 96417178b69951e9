/** Code emission: the instruction sequence that re_parse_disjunction and its
    callees leave in the bytecode buffer for a node, before and after registers
    are allocated. */
module Compiler {
  import opened Syntax
  import opened Semantics
  import opened Bytecode

  type Canon = CodePoint -> CodePoint

  function Opt(b: bool, i: Instr): seq<Instr> { if b then [i] else [] }

  /** The inclusive pairs of a CharRange; `infinity` is what an open upper end becomes. */
  function Pairs(points: seq<nat>, infinity: nat): (ps: seq<(nat, nat)>)
    ensures |ps| == |points| / 2
    ensures forall i :: 0 <= i < |ps| ==>
      ps[i] == (points[2 * i], if points[2 * i + 1] == UINT32_MAX then infinity else Pred(points[2 * i + 1]))
  {
    seq(|points| / 2, i requires 0 <= i < |points| / 2 =>
      (points[2 * i], if points[2 * i + 1] == UINT32_MAX then infinity else Pred(points[2 * i + 1])))
  }

  /** The largest finite boundary, which decides between the 16-bit and 32-bit forms. */
  function HighPoint(points: seq<nat>): nat
    requires |points| >= 2
  {
    if points[|points| - 1] == UINT32_MAX then points[|points| - 2] else points[|points| - 1]
  }

  function RangeOp(points: seq<nat>, icase: bool): CharOp {
    if |points| < 2 then OpChar(UINT32_MAX, false)
    else if HighPoint(points) <= 0xffff then OpRange(Pairs(points, 0xffff), icase)
    else OpRange32(Pairs(points, UINT32_MAX - 1), icase)
  }

  function TestOp(g: Canon, t: CharTest): CharOp {
    match t
    case Literal(c, icase) => OpChar(if icase then g(c) else c, icase)
    case Dot(dotAll) => if dotAll then OpAny else OpDot
    case Space(negated) => OpSpace(negated)
    case Class(points, icase) => RangeOp(points, icase)
  }

  /** What the scan of an atom's code finds: a character is certainly consumed, a
      capture may be read or left unset, the scan met code it cannot follow. */
  datatype Scan = Scan(adv: bool, init: bool, stop: bool)

  function ScanInstr(i: Instr): (s: Scan)
    ensures s.stop ==> s.init
  {
    match i
    case Consume(_) => Scan(true, false, false)
    case Test(_) | SetCount(_, _) | SetPos(_) | Prev | Save(_, _) | SaveReset(_, _) => Scan(false, false, false)
    case BackRefs(_, _, _) => Scan(false, true, false)
    case _ => Scan(false, true, true)
  }

  function Join(a: Scan, b: Scan): Scan {
    if a.stop then a else Scan(a.adv || b.adv, a.init || b.init, b.stop)
  }

  function ScanCode(code: seq<Instr>): (s: Scan)
    ensures s.stop ==> s.init
  {
    if code == [] then Scan(false, false, false) else Join(ScanInstr(code[0]), ScanCode(code[1..]))
  }

  function NeedsAdvanceCheck(atom: seq<Instr>): bool { !ScanCode(atom).adv }

  function NeedsCaptureInit(atom: seq<Instr>): bool { ScanCode(atom).init }

  function QuantMax(max: Bound): nat { if max.Infinite? then INT32_MAX else max.n }

  /** A quantified atom. `chk` and `init` are the two answers of the scan, [lo, hi)
      the groups inside the atom, `r` and `r2` the registers for the counter and
      for the position. */
  function Wrap(chk: bool, init: bool, atom: seq<Instr>, lo: nat, hi: nat, min: nat, max: nat, greedy: bool, r: nat,
                r2: nat): seq<Instr>
    requires min <= max
  {
    WrapPre(init, lo, hi, min) + WrapMain(chk, WrapBody(init, atom, lo, hi), min, max, greedy, r, r2)
  }

  /** Captures are reset once in front of an optional quantifier whose body does not
      do it. */
  function WrapPre(init: bool, lo: nat, hi: nat, min: nat): seq<Instr> {
    if min == 0 && !init && lo < hi then [SaveReset(lo, hi - 1)] else []
  }

  function WrapMain(chk: bool, body: seq<Instr>, min: nat, max: nat, greedy: bool, r: nat, r2: nat): seq<Instr>
    requires min <= max
  {
    if min == 0 then
      if max == 0 then []
      else if max == 1 || max == INT32_MAX then WrapStar(chk, body, max == INT32_MAX, greedy, r)
      else [Split(greedy, 6 + 2 * Num(chk) + Size(body) + 10)] + WrapCount(chk, body, max, max, false, greedy, r, r2)
    else if min == 1 && max == INT32_MAX && !chk then body + [Split(!greedy, -(Size(body) + 5))]
    else WrapCount(chk && min != max, body, max, max - min, min == max, greedy, r, r2)
  }

  /** The atom, preceded by a capture reset unless the scan found it needless. */
  function WrapBody(init: bool, atom: seq<Instr>, lo: nat, hi: nat): seq<Instr> {
    if init && lo < hi then [SaveReset(lo, hi - 1)] + atom else atom
  }

  function WrapStar(chk: bool, body: seq<Instr>, again: bool, greedy: bool, r: nat): seq<Instr> {
    var len := Size(body);
    [Split(greedy, len + 5 * Num(again) + 4 * Num(chk))] + Opt(chk, SetPos(r)) + body
    + (Opt(chk, CheckAdvance(r)) + Opt(again, Goto(-(5 + 2 * Num(chk) + len + 2 * Num(chk) + 5))))
  }

  function WrapCount(chk: bool, body: seq<Instr>, count: nat, limit: nat, exact: bool, greedy: bool, r: nat,
                     r2: nat): seq<Instr> {
    [SetCount(r, count)] + Opt(chk, SetPos(r2)) + body + [CountTail(chk, Size(body), limit, exact, greedy, r)]
  }

  function CountTail(chk: bool, len: nat, limit: nat, exact: bool, greedy: bool, r: nat): Instr {
    if exact then Loop(r, -(2 * Num(chk) + len + 6))
    else LoopSplit(chk, !greedy, r, limit, -(2 * Num(chk) + len + 10))
  }

  /** How many registers a quantifier holds while its atom runs. */
  function Held(chk: bool, min: nat, max: nat): nat {
    if min == 0 then
      if max == 0 then 0
      else if max == 1 || max == INT32_MAX then Num(chk)
      else 1 + Num(chk)
    else if min == 1 && max == INT32_MAX && !chk then 0
    else 1 + Num(chk && min != max)
  }

  /** Whether a quantifier keeps a counter. */
  predicate Counts(chk: bool, min: nat, max: nat) {
    if min == 0 then max > 1 && max != INT32_MAX else !(min == 1 && max == INT32_MAX && !chk)
  }

  /** The upper bound that the emitted code has. INT32_MAX stands for "no bound", but
      a counter that starts there stops after that many iterations all the same. */
  function EmittedMax(chk: bool, min: nat, max: Bound): Bound {
    if QuantMax(max) != INT32_MAX then max
    else if Counts(chk, min, INT32_MAX) then Finite(INT32_MAX)
    else Infinite
  }

  /** The code emitted for a node: all register operands are still 0. */
  function Code(g: Canon, n: Node, cap: nat, back: bool): seq<Instr> {
    match n
    case Empty => []
    case One(t) => if back then [Prev, Consume(TestOp(g, t)), Prev] else [Consume(TestOp(g, t))]
    case Assert(a) => [Test(a)]
    case BackRef(groups, icase) => [BackRefs(groups, icase, back)]
    case Cat(_, _) =>
      Code(g, Lead(n, back), LeadCap(n, cap, back), back) + Code(g, Trail(n, back), TrailCap(n, cap, back), back)
    case Alt(l, r) =>
      var a := Code(g, l, cap, back);
      var b := Code(g, r, cap + Caps(l), back);
      [Split(true, Size(a) + 5)] + a + [Goto(Size(b))] + b
    case Group(b) => [Save(back, cap)] + Code(g, b, cap + 1, back) + [Save(!back, cap)]
    case Look(behind, negative, b) =>
      var a := Code(g, b, cap, behind);
      [LookStart(negative, Size(a) + 1)] + a + [LookMatch(negative)]
    case Repeat(b, min, max, greedy) =>
      var a := Code(g, b, cap, back);
      if min > QuantMax(max) then []
      else Wrap(NeedsAdvanceCheck(a), NeedsCaptureInit(a), a, cap, cap + Caps(b), min, QuantMax(max), greedy, 0, 0)
  }

  /** The same code with registers assigned by nesting depth. */
  function Frag(g: Canon, n: Node, cap: nat, back: bool, d: nat): seq<Instr> {
    match n
    case Empty | One(_) | Assert(_) | BackRef(_, _) => Code(g, n, cap, back)
    case Cat(_, _) =>
      Frag(g, Lead(n, back), LeadCap(n, cap, back), back, d) + Frag(g, Trail(n, back), TrailCap(n, cap, back), back, d)
    case Alt(l, r) =>
      var a := Frag(g, l, cap, back, d);
      var b := Frag(g, r, cap + Caps(l), back, d);
      [Split(true, Size(a) + 5)] + a + [Goto(Size(b))] + b
    case Group(b) => [Save(back, cap)] + Frag(g, b, cap + 1, back, d) + [Save(!back, cap)]
    case Look(behind, negative, b) =>
      var a := Frag(g, b, cap, behind, d);
      [LookStart(negative, Size(a) + 1)] + a + [LookMatch(negative)]
    case Repeat(b, min, max, greedy) =>
      var a := Code(g, b, cap, back);
      if min > QuantMax(max) then []
      else
        var chk := NeedsAdvanceCheck(a);
        Wrap(chk, NeedsCaptureInit(a), Frag(g, b, cap, back, d + Held(chk, min, QuantMax(max))),
             cap, cap + Caps(b), min, QuantMax(max), greedy, d, d + 1)
  }

  /** How many registers the code of a node needs at once. */
  function Registers(g: Canon, n: Node, cap: nat, back: bool): nat {
    match n
    case Empty | One(_) | Assert(_) | BackRef(_, _) => 0
    case Cat(l, r) => Max(Registers(g, l, cap, back), Registers(g, r, cap + Caps(l), back))
    case Alt(l, r) => Max(Registers(g, l, cap, back), Registers(g, r, cap + Caps(l), back))
    case Group(b) => Registers(g, b, cap + 1, back)
    case Look(behind, _, b) => Registers(g, b, cap, behind)
    case Repeat(b, min, max, _) =>
      if QuantMax(max) == 0 then 0
      else Held(NeedsAdvanceCheck(Code(g, b, cap, back)), min, QuantMax(max)) + Registers(g, b, cap, back)
  }

  /** Every quantifier has the upper bound that its code has. */
  ghost predicate BoundsKept(g: Canon, n: Node, cap: nat, back: bool) {
    match n
    case Empty | One(_) | Assert(_) | BackRef(_, _) => true
    case Cat(l, r) => BoundsKept(g, l, cap, back) && BoundsKept(g, r, cap + Caps(l), back)
    case Alt(l, r) => BoundsKept(g, l, cap, back) && BoundsKept(g, r, cap + Caps(l), back)
    case Group(b) => BoundsKept(g, b, cap + 1, back)
    case Look(behind, _, b) => BoundsKept(g, b, cap, behind)
    case Repeat(b, min, max, _) =>
      BoundsKept(g, b, cap, back) && EmittedMax(NeedsAdvanceCheck(Code(g, b, cap, back)), min, max) == max
  }

  function Max(a: nat, b: nat): nat { if a < b then b else a }

  /* ----- the cases of Code, one at a time ----- */

  lemma CodeOfCat(g: Canon, n: Node, cap: nat, back: bool)
    requires n.Cat?
    ensures var l, r := Code(g, n.left, cap, back), Code(g, n.right, cap + Caps(n.left), back);
            Code(g, n, cap, back) == if back then r + l else l + r
  {
    hide Wrap, NeedsAdvanceCheck, NeedsCaptureInit, Size, TestOp, Caps;
  }

  lemma CodeOfAlt(g: Canon, n: Node, cap: nat, back: bool)
    requires n.Alt?
    ensures var a, b := Code(g, n.left, cap, back), Code(g, n.right, cap + Caps(n.left), back);
            Code(g, n, cap, back) == [Split(true, Size(a) + 5)] + a + [Goto(Size(b))] + b
  {
    hide Wrap, NeedsAdvanceCheck, NeedsCaptureInit, Size, TestOp, Caps;
  }

  lemma FragOfCat(g: Canon, n: Node, cap: nat, back: bool, d: nat)
    requires n.Cat?
    ensures var l, r := Frag(g, n.left, cap, back, d), Frag(g, n.right, cap + Caps(n.left), back, d);
            Frag(g, n, cap, back, d) == if back then r + l else l + r
  {
    hide Wrap, NeedsAdvanceCheck, NeedsCaptureInit, Size, Code, Caps, Held;
  }

  lemma FragOfAlt(g: Canon, n: Node, cap: nat, back: bool, d: nat)
    requires n.Alt?
    ensures var a, b := Frag(g, n.left, cap, back, d), Frag(g, n.right, cap + Caps(n.left), back, d);
            Frag(g, n, cap, back, d) == [Split(true, Size(a) + 5)] + a + [Goto(Size(b))] + b
  {
    hide Wrap, NeedsAdvanceCheck, NeedsCaptureInit, Size, Code, Caps, Held;
  }
}
