/** The backtracking machine in its simplest form: every choice point keeps a full
    copy of the captures and registers. */
module Machine {
  import opened Syntax
  import opened Semantics
  import opened Bytecode

  /** A slot of the capture array: unset, a position in the subject, or a counter. */
  datatype Value = Unset | At(pos: nat) | Count(n: nat)

  datatype Kind = Choice | Ahead | NotAhead

  datatype Frame = Frame(kind: Kind, pc: int, pos: nat, mem: seq<Value>)

  datatype Conf =
    | Run(pc: int, pos: nat, mem: seq<Value>, stack: seq<Frame>)
    | Back(stack: seq<Frame>)
    | Done(pos: nat, mem: seq<Value>)
    | Fail
    | Stuck

  /** A program with its subject. If `wide`, the subject's units are UTF-16 and
      surrogate pairs are read as one character. */
  datatype Vm = Vm(ghost code: Program, w: World, wide: bool, ncap: nat)

  predicate IsHi(c: nat) { 0xd800 <= c <= 0xdbff }

  predicate IsLo(c: nat) { 0xdc00 <= c <= 0xdfff }

  function FromSurrogates(hi: nat, lo: nat): CodePoint
    requires IsHi(hi) && IsLo(lo)
  {
    0x10000 + 0x400 * (hi - 0xd800) + (lo - 0xdc00)
  }

  /** Read the character at `p`, looking no further than `end`. */
  function GetChar(vm: Vm, p: nat, end: nat): (r: (CodePoint, nat))
    requires p < end <= |vm.w.text|
    ensures p < r.1 <= end
  {
    var t := vm.w.text;
    if vm.wide && IsHi(t[p]) && p + 1 < end && IsLo(t[p + 1]) then (FromSurrogates(t[p], t[p + 1]), p + 2)
    else (t[p], p + 1)
  }

  /** Read the character that ends at `p`, looking no further back than `start`. */
  function GetPrevChar(vm: Vm, p: nat, start: nat): (r: (CodePoint, nat))
    requires start < p <= |vm.w.text|
    ensures start <= r.1 < p
  {
    var t := vm.w.text;
    if vm.wide && IsLo(t[p - 1]) && p - 1 > start && IsHi(t[p - 2]) then (FromSurrogates(t[p - 2], t[p - 1]), p - 2)
    else (t[p - 1], p - 1)
  }

  predicate InRange(pairs: seq<(nat, nat)>, c: nat) {
    exists i :: 0 <= i < |pairs| && pairs[i].0 <= c <= pairs[i].1
  }

  predicate InRange16(pairs: seq<(nat, nat)>, c: nat) {
    InRange(pairs, c) || (c >= 0xffff && |pairs| > 0 && pairs[|pairs| - 1].1 == 0xffff)
  }

  /** Whether an instruction accepts the character it has read. */
  predicate Accepts(w: World, op: CharOp, c: CodePoint) {
    match op
    case OpChar(v, icase) => Fold(w, icase, c) == v
    case OpDot => !IsLineTerminator(c)
    case OpAny => true
    case OpSpace(negated) => w.isSpace(c) != negated
    case OpRange(pairs, icase) => InRange16(pairs, Fold(w, icase, c))
    case OpRange32(pairs, icase) => InRange(pairs, Fold(w, icase, c))
  }

  predicate WordBefore(vm: Vm, pos: nat, icase: bool)
    requires pos <= |vm.w.text|
  {
    pos > 0 && IsWordChar(GetPrevChar(vm, pos, 0).0, icase)
  }

  predicate WordAfter(vm: Vm, pos: nat, icase: bool)
    requires pos <= |vm.w.text|
  {
    pos < |vm.w.text| && IsWordChar(GetChar(vm, pos, |vm.w.text|).0, icase)
  }

  predicate TestHolds(vm: Vm, a: Assertion, pos: nat)
    requires pos <= |vm.w.text|
  {
    match a
    case LineStart(m) => pos == 0 || (m && IsLineTerminator(GetPrevChar(vm, pos, 0).0))
    case LineEnd(m) => pos == |vm.w.text| || (m && IsLineTerminator(GetChar(vm, pos, |vm.w.text|).0))
    case WordBoundary(neg, icase) => (WordBefore(vm, pos, icase) != WordAfter(vm, pos, icase)) != neg
  }

  /** Compare the captured text [p, end) with the text after `pos`. */
  function SameAhead(vm: Vm, icase: bool, p: nat, end: nat, pos: nat): (r: Option<nat>)
    requires p <= end <= |vm.w.text| && pos <= |vm.w.text|
    ensures r.Some? ==> pos <= r.value <= |vm.w.text|
    decreases end - p
  {
    if p == end then Some(pos)
    else if pos == |vm.w.text| then None
    else
      var (c1, p') := GetChar(vm, p, end);
      var (c2, pos') := GetChar(vm, pos, |vm.w.text|);
      if Fold(vm.w, icase, c1) == Fold(vm.w, icase, c2) then SameAhead(vm, icase, p', end, pos') else None
  }

  /** Compare the captured text [start, p) with the text before `pos`. */
  function SameBehind(vm: Vm, icase: bool, start: nat, p: nat, pos: nat): (r: Option<nat>)
    requires start <= p <= |vm.w.text| && pos <= |vm.w.text|
    ensures r.Some? ==> r.value <= pos
    decreases p - start
  {
    if p == start then Some(pos)
    else if pos == 0 then None
    else
      var (c1, p') := GetPrevChar(vm, p, start);
      var (c2, pos') := GetPrevChar(vm, pos, 0);
      if Fold(vm.w, icase, c1) == Fold(vm.w, icase, c2) then SameBehind(vm, icase, start, p', pos') else None
  }

  function SpanStep(vm: Vm, icase: bool, backward: bool, s: nat, e: nat, pos: nat): (r: Option<nat>)
    requires s <= e <= |vm.w.text| && pos <= |vm.w.text|
    ensures r.Some? ==> r.value <= |vm.w.text|
  {
    if backward then SameBehind(vm, icase, s, e, pos) else SameAhead(vm, icase, s, e, pos)
  }

  /** Match the first listed group that is set; none set matches the empty text. */
  function BackRefStep(vm: Vm, groups: seq<nat>, icase: bool, backward: bool, pos: nat,
                       mem: seq<Value>): (r: Option<nat>)
    requires pos <= |vm.w.text| && 2 * vm.ncap <= |mem|
    ensures r.Some? ==> r.value <= |vm.w.text|
  {
    if groups == [] then Some(pos)
    else if groups[0] >= vm.ncap then None
    else
      var s, e := mem[2 * groups[0]], mem[2 * groups[0] + 1];
      if s.At? && e.At? then
        if s.pos <= e.pos <= |vm.w.text| then SpanStep(vm, icase, backward, s.pos, e.pos, pos) else Some(pos)
      else BackRefStep(vm, groups[1..], icase, backward, pos, mem)
  }

  /** Unset the slots [2 * first, 2 * last + 2). */
  function ResetMem(mem: seq<Value>, first: nat, last: nat): (r: seq<Value>)
    ensures |r| == |mem|
    ensures forall i :: 0 <= i < |mem| ==> r[i] == if 2 * first <= i < 2 * last + 2 then Unset else mem[i]
  {
    seq(|mem|, i requires 0 <= i < |mem| => if 2 * first <= i < 2 * last + 2 then Unset else mem[i])
  }

  /** 32-bit decrement. */
  function Dec32(n: nat): nat { if n == 0 then UINT32_MAX else n - 1 }

  lemma DecrementWraps(n: nat)
    requires n < 0x1_0000_0000
    ensures (Dec32(n) + 1) % 0x1_0000_0000 == n
  {
  }

  /** Drop frames down to and including the innermost of the given kind. */
  function PopTo(kind: Kind, stack: seq<Frame>): Option<(Frame, seq<Frame>)> {
    if stack == [] then None
    else if stack[0].kind == kind then Some((stack[0], stack[1..]))
    else PopTo(kind, stack[1..])
  }

  ghost function Step(vm: Vm, c: Conf): Conf {
    match c
    case Run(pc, pos, mem, stack) =>
      if pc in vm.code && pos <= |vm.w.text| && 2 * vm.ncap <= |mem|
      then Exec(vm, vm.code[pc], pc + InstrSize(vm.code[pc]), pos, mem, stack)
      else Stuck
    case Back(stack) =>
      if stack == [] then Fail
      else if stack[0].kind == Ahead then Back(stack[1..])
      else Run(stack[0].pc, stack[0].pos, stack[0].mem, stack[1..])
    case _ => c
  }

  /** One instruction; `next` is the address after it. */
  function Exec(vm: Vm, i: Instr, next: int, pos: nat, mem: seq<Value>, stack: seq<Frame>): Conf
    requires pos <= |vm.w.text| && 2 * vm.ncap <= |mem|
  {
    match i
    case Consume(op) =>
      if pos == |vm.w.text| then Back(stack)
      else
        var (c, pos') := GetChar(vm, pos, |vm.w.text|);
        if Accepts(vm.w, op, c) then Run(next, pos', mem, stack) else Back(stack)
    case Test(a) => if TestHolds(vm, a, pos) then Run(next, pos, mem, stack) else Back(stack)
    case Goto(off) => Run(next + off, pos, mem, stack)
    case Split(nextFirst, off) => Fork(nextFirst, next, next + off, pos, mem, stack)
    case Accept => Done(pos, mem)
    case LookStart(negative, off) =>
      Run(next, pos, mem, [Frame(if negative then NotAhead else Ahead, next + off, pos, mem)] + stack)
    case LookMatch(negative) =>
      (match PopTo(if negative then NotAhead else Ahead, stack)
       case None => Stuck
       case Some((f, rest)) => if negative then Back(rest) else Run(f.pc, f.pos, mem, rest))
    case Save(end, k) =>
      if k >= vm.ncap then Stuck else Run(next, pos, mem[2 * k + (if end then 1 else 0) := At(pos)], stack)
    case SaveReset(first, last) =>
      if last >= vm.ncap then Stuck else Run(next, pos, ResetMem(mem, first, last), stack)
    case SetCount(reg, count) =>
      if 2 * vm.ncap + reg >= |mem| then Stuck else Run(next, pos, mem[2 * vm.ncap + reg := Count(count)], stack)
    case SetPos(reg) =>
      if 2 * vm.ncap + reg >= |mem| then Stuck else Run(next, pos, mem[2 * vm.ncap + reg := At(pos)], stack)
    case CheckAdvance(reg) =>
      if 2 * vm.ncap + reg >= |mem| then Stuck
      else if mem[2 * vm.ncap + reg] == At(pos) then Back(stack)
      else Run(next, pos, mem, stack)
    case Loop(reg, off) =>
      var idx := 2 * vm.ncap + reg;
      if idx >= |mem| || !mem[idx].Count? then Stuck
      else
        var v := Dec32(mem[idx].n);
        Run(if v != 0 then next + off else next, pos, mem[idx := Count(v)], stack)
    case LoopSplit(checkAdv, nextFirst, reg, limit, off) =>
      var idx := 2 * vm.ncap + reg;
      if idx + Num(checkAdv) >= |mem| || !mem[idx].Count? then Stuck
      else
        var v := Dec32(mem[idx].n);
        var mem' := mem[idx := Count(v)];
        if v > limit then Run(next + off, pos, mem', stack)
        else if checkAdv && mem'[idx + 1] == At(pos) && v != limit then Back(stack)
        else if v == 0 then Run(next, pos, mem', stack)
        else Fork(nextFirst, next, next + off, pos, mem', stack)
    case BackRefs(groups, icase, backward) =>
      (match BackRefStep(vm, groups, icase, backward, pos, mem)
       case None => Back(stack)
       case Some(pos') => Run(next, pos', mem, stack))
    case Prev => if pos == 0 then Back(stack) else Run(next, GetPrevChar(vm, pos, 0).1, mem, stack)
  }

  /** Continue at one of two addresses and leave a choice point for the other. */
  function Fork(nextFirst: bool, next: int, target: int, pos: nat, mem: seq<Value>, stack: seq<Frame>): Conf {
    if nextFirst then Run(next, pos, mem, [Frame(Choice, target, pos, mem)] + stack)
    else Run(target, pos, mem, [Frame(Choice, next, pos, mem)] + stack)
  }

  ghost function Steps(vm: Vm, c: Conf, n: nat): Conf
    decreases n
  {
    if n == 0 then c else Steps(vm, Step(vm, c), n - 1)
  }

  ghost predicate Reaches(vm: Vm, c: Conf, c': Conf) {
    exists n: nat :: Steps(vm, c, n) == c'
  }

  lemma {:induction false} StepsCompose(vm: Vm, c: Conf, n: nat, k: nat)
    ensures Steps(vm, Steps(vm, c, n), k) == Steps(vm, c, n + k)
    decreases n
  {
    if n > 0 {
      StepsCompose(vm, Step(vm, c), n - 1, k);
    }
  }

  lemma ReachesTrans(vm: Vm, a: Conf, b: Conf, c: Conf)
    requires Reaches(vm, a, b) && Reaches(vm, b, c)
    ensures Reaches(vm, a, c)
  {
    var n: nat :| Steps(vm, a, n) == b;
    var k: nat :| Steps(vm, b, k) == c;
    StepsCompose(vm, a, n, k);
  }

  lemma ReachesStep(vm: Vm, a: Conf, c: Conf)
    requires Reaches(vm, Step(vm, a), c)
    ensures Reaches(vm, a, c)
  {
    var n: nat :| Steps(vm, Step(vm, a), n) == c;
    assert Steps(vm, a, n + 1) == c;
  }

  lemma ReachesSelf(vm: Vm, c: Conf)
    ensures Reaches(vm, c, c)
  {
    assert Steps(vm, c, 0) == c;
  }
}
