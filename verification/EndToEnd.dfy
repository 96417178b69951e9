/** From a parsed expression to the answer of lre_exec: the bytes that lre_compile
    writes, run by the backtracker on a capture array, find what ECMA-262 finds. */
module EndToEnd {
  import opened Syntax
  import opened Semantics
  import opened Bytecode
  import opened Compiler
  import opened Machine
  import opened Behaviour
  import opened EcmaMatcher
  import opened Search
  import opened Counters
  import opened UndoLog
  import opened Encoding
  import opened EmittedCode
  import opened Emitter
  import opened Terms
  import opened Backtracker
  import opened Utf16
  import opened Spans

  /* ----- the program in a buffer ----- */

  /** The instructions of a list at their addresses. */
  function Load(code: seq<Instr>, s: int): Program
    decreases |code|
  {
    if code == [] then map[] else Load(code[1..], s + InstrSize(code[0]))[s := code[0]]
  }

  lemma {:induction false} LoadFrom(code: seq<Instr>, s: int, p: int)
    requires p in Load(code, s)
    ensures p >= s
    decreases |code|
  {
    if p != s { LoadFrom(code[1..], s + InstrSize(code[0]), p); }
  }

  lemma {:induction false} CodeAtMore(a: Program, b: Program, s: int, code: seq<Instr>)
    requires CodeAt(a, s, code) && forall p :: p >= s && p in a ==> p in b && b[p] == a[p]
    ensures CodeAt(b, s, code)
    decreases |code|
  {
    if code != [] { CodeAtMore(a, b, s + InstrSize(code[0]), code[1..]); }
  }

  lemma {:induction false} LoadHolds(code: seq<Instr>, s: int)
    ensures CodeAt(Load(code, s), s, code)
    decreases |code|
  {
    if code != [] {
      LoadHolds(code[1..], s + InstrSize(code[0]));
      CodeAtMore(Load(code[1..], s + InstrSize(code[0])), Load(code, s), s + InstrSize(code[0]), code[1..]);
    }
  }

  /** Every instruction of the list is fetched from the bytes it was encoded to. */
  lemma {:induction false} LoadFetched(bc: seq<byte>, code: seq<Instr>, s: nat, p: int)
    requires AllEncodable(code) && Stands(bc, s, EncAll(code)) && p in Load(code, s)
    ensures 0 <= p && Dec(bc, p) == Some(Load(code, s)[p]) && OrderedInstr(Load(code, s)[p])
    decreases |code|
  {
    hide Dec, Stands, Enc, Encodable, OrderedInstr;
    assert Sound(code[0]);
    StandsConcat(bc, s, Enc(code[0]), EncAll(code[1..]));
    if p == s {
      DecodeEncode(bc, s, code[0]);
    } else {
      LoadFetched(bc, code[1..], s + InstrSize(code[0]), p);
    }
  }

  lemma ProgramFetched(bc: seq<byte>, code: seq<Instr>)
    requires AllEncodable(code) && bc == EncAll(code)
    ensures Represents(bc, Load(code, 0))
  {
    hide AllEncodable, EncAll, Dec, OrderedInstr;
    assert bc[0..] == bc;
    forall p: int | p in Load(code, 0)
      ensures 0 <= p && Dec(bc, p) == Some(Load(code, 0)[p]) && OrderedInstr(Load(code, 0)[p])
    {
      LoadFetched(bc, code, 0, p);
    }
  }

  lemma ProgramEncodable(g: Canon, n: Node, sticky: bool)
    requires WellFormed(n, 1 + Caps(n)) && 1 + Caps(n) <= CAPTURE_COUNT_MAX
    requires Registers(g, n, 1, false) <= REGISTER_COUNT_MAX && Size(FinalProgram(g, n, sticky)) <= BYTECODE_MAX
    ensures AllEncodable(FinalProgram(g, n, sticky))
  {
    hide Frag, Code, Registers, Size, Encodable, AllEncodable;
    var frag := Frag(g, Group(n), 0, false, 0);
    SizeConcat(SearchLoop(sticky) + frag, [Accept]);
    SizeConcat(SearchLoop(sticky), frag);
    TopRegisters(g, n);
    FragEncodable(g, Group(n), 0, false, 0, 1 + Caps(n));
    SearchEncodable(sticky);
    EncodableConcat(SearchLoop(sticky), frag);
    EncodableConcat(SearchLoop(sticky) + frag, [Accept]);
  }

  lemma SearchEncodable(sticky: bool)
    ensures AllEncodable(SearchLoop(sticky)) && AllEncodable([Accept])
  {
  }

  /* ----- runs ----- */

  /** A run that ends, as the undo-log machine performs it. */
  lemma LogRun(vm: Vm, pos: nat, m: seq<Value>, c: Conf) returns (steps: nat)
    requires Reaches(vm, Run(0, pos, m, []), c) && Final(c)
    ensures var l := LSteps(vm, LRun(0, pos, m, [], []), steps);
            Ended(l) && Abs(l) == c
  {
    hide LSteps, Steps;
    steps :| Steps(vm, Run(0, pos, m, []), steps) == c;
    LogRefines(vm, LRun(0, pos, m, [], []), steps);
  }

  /** What lre_exec answers: with no match nothing is promised about the captures;
      with a match each pair of slots holds the span of its group, in units. */
  ghost predicate Answers(u: seq<CodePoint>, wide: bool, r: Option<State>, matched: bool, slots: seq<Value>) {
    && matched == r.Some?
    && (matched ==>
          && 2 * |r.value.caps| <= |slots|
          && forall k :: 0 <= k < |r.value.caps| ==> InUnits(u, wide, r.value.caps[k], slots[2 * k], slots[2 * k + 1]))
  }

  ghost predicate InUnits(u: seq<CodePoint>, wide: bool, c: Option<Span>, s: Value, e: Value) {
    match c
    case None => s == Unset && e == Unset
    case Some(Span(a, b)) =>
      && s.At? && e.At? && UnitOf(u, wide, a, s.pos) && UnitOf(u, wide, b, e.pos)
      && s.pos <= |u| && e.pos <= |u|
  }

  /** The slots of a group are both unset, or a start that is not behind the end. */
  ghost predicate InOrder(s: Value, e: Value, length: nat) {
    (s == Unset && e == Unset) || (s.At? && e.At? && s.pos <= e.pos <= length)
  }

  ghost predicate SlotsInOrder(slots: seq<Value>, groups: nat, length: nat) {
    2 * groups <= |slots| && forall k :: 0 <= k < groups ==> InOrder(slots[2 * k], slots[2 * k + 1], length)
  }

  lemma SpanInOrder(w: World, u: seq<CodePoint>, wide: bool, c: Option<Span>, s: Value, e: Value)
    requires InUnits(u, wide, c, s, e) && SpanOk(c, |w.text|)
    ensures InOrder(s, e, |u|)
  {
    hide Offsets, Chars, Placed;
    if c.Some? && wide { PlacedOrder(u, c.value.start, s.pos, c.value.end, e.pos); }
  }

  lemma AnswerInOrder(w: World, u: seq<CodePoint>, wide: bool, r: Option<State>, slots: seq<Value>)
    requires Answers(u, wide, r, true, slots) && SpansOk(w, r.value)
    ensures SlotsInOrder(slots, |r.value.caps|, |u|)
  {
    hide InUnits, InOrder, SpanOk;
    forall k | 0 <= k < |r.value.caps| ensures InOrder(slots[2 * k], slots[2 * k + 1], |u|) {
      SpanInOrder(w, u, wide, r.value.caps[k], slots[2 * k], slots[2 * k + 1]);
    }
  }

  /** Character index `k` is unit offset `p`. */
  ghost predicate UnitOf(u: seq<CodePoint>, wide: bool, k: nat, p: nat) {
    if wide then Placed(u, k, p) else k == p
  }

  /* every capture that is set lies in the text */

  ghost predicate MemInside(vm: Vm, m: seq<Value>) {
    forall i :: 0 <= i < |m| && i < 2 * vm.ncap && m[i].At? ==> m[i].pos <= |vm.w.text|
  }

  ghost predicate StackInside(vm: Vm, k: seq<Frame>) {
    forall i :: 0 <= i < |k| ==> MemInside(vm, k[i].mem)
  }

  ghost predicate Inside(vm: Vm, c: Conf) {
    match c
    case Run(_, _, m, k) => MemInside(vm, m) && StackInside(vm, k)
    case Back(k) => StackInside(vm, k)
    case Done(_, m) => MemInside(vm, m)
    case _ => true
  }

  lemma {:induction false} PopInside(vm: Vm, kind: Kind, k: seq<Frame>)
    requires StackInside(vm, k)
    ensures PopTo(kind, k).Some? ==> StackInside(vm, PopTo(kind, k).value.1)
    decreases |k|
  {
    hide MemInside;
    if k != [] { PopInside(vm, kind, k[1..]); }
  }

  lemma PushInside(vm: Vm, f: Frame, k: seq<Frame>)
    requires MemInside(vm, f.mem) && StackInside(vm, k)
    ensures StackInside(vm, [f] + k)
  {
    hide MemInside;
  }

  lemma StepInside(vm: Vm, c: Conf)
    requires Inside(vm, c)
    ensures Inside(vm, Step(vm, c))
  {
    hide StackInside, MemInside, Exec;
    match c
    case Run(pc, pos, m, k) =>
      if pc in vm.code && pos <= |vm.w.text| && 2 * vm.ncap <= |m| {
        var i, next := vm.code[pc], pc + InstrSize(vm.code[pc]);
        PopInside(vm, Ahead, k);
        PopInside(vm, NotAhead, k);
        ExecInside(vm, i, next, pos, m, k);
      }
    case Back(k) => if k != [] { BackInside(vm, k); }
    case _ =>
  }

  lemma BackInside(vm: Vm, k: seq<Frame>)
    requires StackInside(vm, k) && k != []
    ensures MemInside(vm, k[0].mem) && StackInside(vm, k[1..])
  {
    hide MemInside;
  }

  lemma ExecInside(vm: Vm, i: Instr, next: int, pos: nat, m: seq<Value>, k: seq<Frame>)
    requires pos <= |vm.w.text| && 2 * vm.ncap <= |m| && MemInside(vm, m) && StackInside(vm, k)
    requires PopTo(Ahead, k).Some? ==> StackInside(vm, PopTo(Ahead, k).value.1)
    requires PopTo(NotAhead, k).Some? ==> StackInside(vm, PopTo(NotAhead, k).value.1)
    ensures Inside(vm, Exec(vm, i, next, pos, m, k))
  {
    hide StackInside, BackRefStep, TestHolds, Accepts, GetChar, GetPrevChar, PopTo;
    match i
    case Split(nextFirst, off) =>
      PushInside(vm, Frame(Choice, next + off, pos, m), k);
      PushInside(vm, Frame(Choice, next, pos, m), k);
    case LookStart(negative, off) => PushInside(vm, Frame(if negative then NotAhead else Ahead, next + off, pos, m), k);
    case LoopSplit(_, _, reg, _, off) =>
      var idx := 2 * vm.ncap + reg;
      if idx < |m| && m[idx].Count? {
        var m' := m[idx := Count(Dec32(m[idx].n))];
        PushInside(vm, Frame(Choice, next + off, pos, m'), k);
        PushInside(vm, Frame(Choice, next, pos, m'), k);
      }
    case _ =>
  }

  lemma {:induction false} RunInside(vm: Vm, c: Conf, n: nat)
    requires Inside(vm, c)
    ensures Inside(vm, Steps(vm, c, n))
    decreases n
  {
    hide Inside, Step;
    if n > 0 {
      StepInside(vm, c);
      RunInside(vm, Step(vm, c), n - 1);
    }
  }

  lemma DoneInside(vm: Vm, pc: int, pos: nat, m: seq<Value>, end: nat, m1: seq<Value>)
    requires Captures(m, vm.ncap) && Reaches(vm, Run(pc, pos, m, []), Done(end, m1))
    ensures MemInside(vm, m1)
  {
    hide Steps;
    var n: nat :| Steps(vm, Run(pc, pos, m, []), n) == Done(end, m1);
    RunInside(vm, Run(pc, pos, m, []), n);
  }

  /** The text as the expression sees it. */
  function Seen(u: seq<CodePoint>, wide: bool): seq<CodePoint> {
    if wide then Chars(u, 0) else u
  }

  ghost predicate Captures(m: seq<Value>, ncap: nat) {
    2 * ncap <= |m| && forall i :: 0 <= i < 2 * ncap ==> m[i] == Unset
  }

  /** The answer of a final state. */
  ghost predicate AnswerOf(c: Conf, u: seq<CodePoint>, wide: bool, r: Option<State>) {
    match c
    case Done(_, m) => Answers(u, wide, r, true, m)
    case Fail => r.None?
    case _ => false
  }

  /** On code points or plain units. */
  lemma PlainRun(vm: Vm, n: Node, sticky: bool, i: nat, m: seq<Value>) returns (c: Conf)
    requires Loads(vm, n, sticky) && Initial(vm, n, m) && i <= |vm.w.text|
    ensures Reaches(vm, Run(0, i, m, []), c) && Final(c)
    ensures AnswerOf(c, vm.w.text, false, FirstMatch(vm.w, Emitted(vm.w.canon, n, 1, false), sticky, i))
  {
    hide Loads, Initial, Reaches, Emitted, FirstMatch;
    var n' := Emitted(vm.w.canon, n, 1, false);
    var m1 := AnyProgramCorrect(vm, n, sticky, i, m);
    LoadsGroups(vm, n, sticky);
    match FirstMatch(vm.w, n', sticky, i)
    case None => c := Fail;
    case Some(y) =>
      c := Done(y.pos, m1);
      InitialCaptures(vm, n, m);
      DoneInside(vm, 0, i, m, y.pos, m1);
      forall k | 0 <= k < |y.caps| ensures InUnits(vm.w.text, false, y.caps[k], m1[2 * k], m1[2 * k + 1]) {
        assert HoldsSpan(m1[2 * k], m1[2 * k + 1], y.caps[k]);
      }
  }

  lemma InitialCaptures(vm: Vm, n: Node, m: seq<Value>)
    requires Initial(vm, n, m)
    ensures Captures(m, vm.ncap)
  {
    hide Registers;
  }

  lemma LoadsGroups(vm: Vm, n: Node, sticky: bool)
    requires Loads(vm, n, sticky)
    ensures vm.ncap == 1 + Caps(n)
  {
  }

  /** On UTF-16 in unicode mode. */
  lemma WideRun(a: Vm, b: Vm, n: Node, sticky: bool, k: nat, p: nat, m: seq<Value>, m': seq<Value>) returns (c': Conf)
    requires InStep(a, b) && Loads(a, n, sticky) && Initial(a, n, m)
    requires Placed(b.w.text, k, p) && SameMem(b.w.text, a.ncap, m, m') && k <= |a.w.text|
    ensures Reaches(b, Run(0, p, m', []), c') && Final(c')
    ensures AnswerOf(c', b.w.text, true, FirstMatch(a.w, Emitted(a.w.canon, n, 1, false), sticky, k))
  {
    hide Loads, Initial, Chars, Offsets, Emitted, FirstMatch, SameMem, Steps, Answers, Placed;
    var r := FirstMatch(a.w, Emitted(a.w.canon, n, 1, false), sticky, k);
    LoadsGroups(a, n, sticky);
    var c := PlainRun(a, n, sticky, k, m);
    var steps: nat :| Steps(a, Run(0, k, m, []), steps) == c;
    RunsInStep(a, b, Run(0, k, m, []), Run(0, p, m', []), steps);
    c' := Steps(b, Run(0, p, m', []), steps);
    if c.Done? { WideAnswer(b.w.text, a.ncap, a.w.text, r, c.mem, c'.mem); }
  }

  lemma WideAnswer(u: seq<CodePoint>, ncap: nat, text: seq<CodePoint>, r: Option<State>, m: seq<Value>, m': seq<Value>)
    requires Answers(text, false, r, true, m) && SameMem(u, ncap, m, m') && (r.Some? ==> |r.value.caps| <= ncap)
    ensures Answers(u, true, r, true, m')
  {
    hide Offsets, Boundary;
    var caps := r.value.caps;
    forall k | 0 <= k < |caps| ensures InUnits(u, true, caps[k], m'[2 * k], m'[2 * k + 1]) {
      assert InUnits(text, false, caps[k], m[2 * k], m[2 * k + 1]);
      assert SameValue(u, m[2 * k], m'[2 * k]) && SameValue(u, m[2 * k + 1], m'[2 * k + 1]);
      if caps[k].Some? {
        OffsetsAt(u, 0, caps[k].value.start);
        OffsetsAt(u, 0, caps[k].value.end);
      }
    }
  }

  /** The memory on code points that goes with a fresh capture array. */
  lemma FreshMem(u: seq<CodePoint>, ncap: nat, m': seq<Value>) returns (m: seq<Value>)
    requires Captures(m', ncap)
    ensures SameMem(u, ncap, m, m') && Captures(m, ncap)
  {
    hide Offsets, Boundary;
    m := DecodedMem(u, ncap, m');
    forall i | 0 <= i < 2 * ncap ensures m[i] == Unset {
      assert SameValue(u, m[i], m'[i]);
    }
  }

  /* ----- lre_exec ----- */

  function GetFlags(bc: seq<byte>): nat
    requires |bc| >= HEADER_LEN
  {
    GetU16(bc, 0)
  }

  function CaptureCount(bc: seq<byte>): nat
    requires |bc| >= HEADER_LEN
  {
    bc[2]
  }

  function RegisterCount(bc: seq<byte>): nat
    requires |bc| >= HEADER_LEN
  {
    bc[3]
  }

  /** lre_get_alloc_count. */
  function AllocCount(bc: seq<byte>): nat
    requires |bc| >= HEADER_LEN
  {
    CaptureCount(bc) * 2 + RegisterCount(bc)
  }

  /** Whether units are read as UTF-16: 16-bit text and a unicode expression. */
  predicate IsWide(bc: seq<byte>, cbufType: nat)
    requires |bc| >= HEADER_LEN
  {
    cbufType == 1 && (HasFlag(GetFlags(bc), LRE_FLAG_UNICODE) || HasFlag(GetFlags(bc), LRE_FLAG_UNICODE_SETS))
  }

  predicate IsSticky(bc: seq<byte>)
    requires |bc| >= HEADER_LEN
  {
    HasFlag(GetFlags(bc), LRE_FLAG_STICKY)
  }

  /** The character index at which matching starts. */
  ghost predicate StartsAt(u: seq<CodePoint>, wide: bool, start: nat, k: nat)
    requires start <= |u|
  {
    if wide then Placed(u, k, Snap(u, start)) else k == start
  }

  ghost function StartAt(u: seq<CodePoint>, wide: bool, start: nat): (k: nat)
    requires start <= |u|
    ensures StartsAt(u, wide, start, k) && k <= |Seen(u, wide)|
  {
    StartExists(u, wide, start);
    var k: nat :| StartsAt(u, wide, start, k) && k <= |Seen(u, wide)|;
    k
  }

  lemma StartExists(u: seq<CodePoint>, wide: bool, start: nat)
    requires start <= |u|
    ensures exists k: nat :: StartsAt(u, wide, start, k) && k <= |Seen(u, wide)|
  {
    hide Boundary, Chars, Offsets, Placed;
    var k: nat := start;
    if wide { k := PlacedAt(u, Snap(u, start)); }
    assert StartsAt(u, wide, start, k) && k <= |Seen(u, wide)|;
  }

  lemma StartsOnce(u: seq<CodePoint>, wide: bool, start: nat, k: nat)
    requires start <= |u| && StartsAt(u, wide, start, k)
    ensures k == StartAt(u, wide, start)
  {
    hide Offsets, Chars, StartAt;
    if wide { PlacedOrder(u, k, Snap(u, start), StartAt(u, wide, start), Snap(u, start)); }
  }

  /** lre_exec on a buffer that lre_compile has written for `n`. It returns, and its
      answer is the first match of `n`, or, if a counter could run out, of the
      expression with the counter's bound made explicit. */
  method LreExec(bc: seq<byte>, g: Canon, isSpace: CodePoint -> bool, u: seq<CodePoint>, cbufType: nat, start: nat,
                 capture: array<Value>, ghost n: Node)
    returns (matched: bool)
    requires Compiled(bc, g, n) && start <= |u| && AllocCount(bc) <= capture.Length
    modifies capture
    ensures var wide := IsWide(bc, cbufType);
            var w, k := World(g, isSpace, Seen(u, wide)), StartAt(u, wide, start);
            && Answers(u, wide, FirstMatch(w, Emitted(g, n, 1, false), IsSticky(bc), k), matched, capture[..])
            && (CountersFit(g, n, 1, false, |w.text|) ==>
                Answers(u, wide, FirstMatch(w, n, IsSticky(bc), k), matched, capture[..]))
    ensures matched ==> SlotsInOrder(capture[..], 1 + Caps(n), |u|)
  {
    hide EncAll, Emitted, FirstMatch, CountersFit, FinalProgram, Registers, Frag, Code, Chars, Offsets, Dec, HasFlag,
      GetU16, Answers, AnswerOf, Placed, Size, WellFormed, LSteps, Load, Represents, StartAt, StartsAt, SlotsInOrder,
        Captures;
    var captureCount := CaptureCount(bc);
    var wide := IsWide(bc, cbufType);
    ghost var code := FinalProgram(g, n, IsSticky(bc));
    ghost var w := World(g, isSpace, Seen(u, wide));
    ClearCaptures(capture, captureCount);
    var cptr := start;
    if wide { cptr := Snap(u, start); }
    ghost var p := Load(code, 0);
    var vm := Vm(p, World(g, isSpace, u), wide, captureCount);
    ProgramEncodable(g, n, IsSticky(bc));
    ProgramFetched(bc[HEADER_LEN..], code);
    ghost var k, c, steps := RunFrom(vm, n, IsSticky(bc), start, capture[..]);
    StartsOnce(u, wide, start, k);
    var s := new ExecContext(bc[HEADER_LEN..], vm, capture, cptr);
    ghost var l := LSteps(vm, s.Conf(), steps);
    matched := s.Exec(steps);
    ghost var r := FirstMatch(w, Emitted(g, n, 1, false), IsSticky(bc), k);
    Answered(l, c, u, wide, r, matched, capture[..]);
    AnswerMeans(g, w, n, IsSticky(bc), k, u, wide, matched, capture[..]);
  }

  /** Set all captures to null. */
  method ClearCaptures(capture: array<Value>, captureCount: nat)
    requires 2 * captureCount <= capture.Length
    modifies capture
    ensures Captures(capture[..], captureCount)
  {
    var i := 0;
    while i < captureCount * 2
      invariant i <= captureCount * 2
      invariant forall j :: 0 <= j < i ==> capture[j] == Unset
    {
      capture[i] := Unset;
      i := i + 1;
    }
  }

  lemma AnswerMeans(g: Canon, w: World, n: Node, sticky: bool, k: nat, u: seq<CodePoint>, wide: bool, matched: bool,
                    slots: seq<Value>)
    requires k <= |w.text| && Answers(u, wide, FirstMatch(w, Emitted(g, n, 1, false), sticky, k), matched, slots)
    ensures CountersFit(g, n, 1, false, |w.text|) ==> Answers(u, wide, FirstMatch(w, n, sticky, k), matched, slots)
    ensures matched ==> SlotsInOrder(slots, 1 + Caps(n), |u|)
  {
    hide Emitted, FirstMatch, CountersFit, InUnits, SpansOk, SlotsInOrder;
    if CountersFit(g, n, 1, false, |w.text|) { FirstMatchMeans(g, w, n, sticky, k); }
    if matched {
      FirstMatchOk(w, Emitted(g, n, 1, false), sticky, k);
      AnswerInOrder(w, u, wide, FirstMatch(w, Emitted(g, n, 1, false), sticky, k), slots);
    }
  }

  lemma Answered(l: LogConf, c: Conf, u: seq<CodePoint>, wide: bool, r: Option<State>, matched: bool, slots: seq<Value>)
    requires Abs(l) == c && Ended(l) && AnswerOf(c, u, wide, r)
    requires if l.LDone? then matched && slots == l.mem else !matched
    ensures Answers(u, wide, r, matched, slots)
  {
  }

  /** The run that lre_exec is about to make, on any kind of text. */
  lemma RunFrom(vm: Vm, n: Node, sticky: bool, start: nat, m: seq<Value>) returns (k: nat, c: Conf, steps: nat)
    requires WellFormed(n, 1 + Caps(n)) && vm.ncap == 1 + Caps(n)
    requires vm.code == Load(FinalProgram(vm.w.canon, n, sticky), 0)
    requires Captures(m, vm.ncap) && |m| >= 2 * vm.ncap + Registers(vm.w.canon, n, 1, false) && start <= |vm.w.text|
    ensures var u, wide := vm.w.text, vm.wide;
            var w := World(vm.w.canon, vm.w.isSpace, Seen(u, wide));
            && StartsAt(u, wide, start, k) && k <= |w.text|
            && AnswerOf(c, u, wide, FirstMatch(w, Emitted(w.canon, n, 1, false), sticky, k))
    ensures Final(c)
    ensures var l := LSteps(vm, LRun(0, if vm.wide then Snap(vm.w.text, start) else start, m, [], []), steps);
            Ended(l) && Abs(l) == c
  {
    hide Emitted, FirstMatch, FinalProgram, Registers, Chars, Offsets, Placed, SameMem, Reaches, AnswerOf, CodeAt,
      Load, WellFormed;
    LoadHolds(FinalProgram(vm.w.canon, n, sticky), 0);
    var u := vm.w.text;
    if vm.wide {
      var a := Decoded(vm.code, vm.w.canon, vm.w.isSpace, u, vm.ncap);
      var p := Snap(u, start);
      k := PlacedAt(u, p);
      var m0 := FreshMem(u, vm.ncap, m);
      MemLength(u, vm.ncap, m0, m);
      c := WideRun(a, vm, n, sticky, k, p, m0, m);
      steps := LogRun(vm, p, m, c);
    } else {
      k := start;
      c := PlainRun(vm, n, sticky, k, m);
      steps := LogRun(vm, k, m, c);
    }
  }

  lemma PlacedAt(u: seq<CodePoint>, p: nat) returns (k: nat)
    requires Boundary(u, p)
    ensures Placed(u, k, p) && k <= |Chars(u, 0)|
  {
    hide Boundary, Chars, Offsets;
    k := BoundaryIsOffset(u, p);
    assert |Chars(u, 0)| + 1 == |Offsets(u, 0)|;
  }

  /* ----- RegExpBuiltinExec ----- */

  /** RegExpBuiltinExec (section 22.2.7.2) on the matchers of section 22.2.2, with the
      whole match as group 0. */
  ghost function BuiltinExec(w: World, n: Node, sticky: bool, i: nat): Option<State>
    requires i <= |w.text|
    decreases |w.text| - i
  {
    var r := M(w, Group(n), 0, false, State(i, NoCaps(1 + Caps(n))), Identity());
    if r.Some? || sticky || i == |w.text| then r else BuiltinExec(w, n, sticky, i + 1)
  }

  lemma {:induction false} FirstMatchIsBuiltinExec(w: World, n: Node, sticky: bool, i: nat)
    requires i <= |w.text|
    ensures FirstMatch(w, n, sticky, i) == BuiltinExec(w, n, sticky, i)
    decreases |w.text| - i
  {
    hide Out, M;
    var x := State(i, NoCaps(1 + Caps(n)));
    MatcherTakesFirst(w, Group(n), 0, false, x, Identity());
    if i < |w.text| { FirstMatchIsBuiltinExec(w, n, sticky, i + 1); }
  }

  /** Compile an expression and run it: unless a limit is exceeded, the answer is that
      of RegExpBuiltinExec on the text the expression sees. */
  method CompileAndExec(g: Canon, isSpace: CodePoint -> bool, t: Term, flags: nat, u: seq<CodePoint>, cbufType: nat,
                        start: nat)
    returns (r: Option<(bool, seq<Value>)>)
    requires Parsed(Meaning(t), 1 + Caps(Meaning(t))) && TermOk(g, t, false) && flags < 0x10000 && start <= |u|
    ensures r.Some? <==> TermAccepted(g, t, HasFlag(flags, LRE_FLAG_STICKY))
    ensures var wide := cbufType == 1 && (HasFlag(flags, LRE_FLAG_UNICODE) || HasFlag(flags, LRE_FLAG_UNICODE_SETS));
            var w, n, k := World(g, isSpace, Seen(u, wide)), Meaning(t), StartAt(u, wide, start);
            r.Some? && CountersFit(g, n, 1, false, |w.text|) ==>
              Answers(u, wide, BuiltinExec(w, n, HasFlag(flags, LRE_FLAG_STICKY), k), r.value.0, r.value.1)
    ensures r.Some? && r.value.0 ==> SlotsInOrder(r.value.1, 1 + Caps(Meaning(t)), |u|)
  {
    hide Registers, Size, FinalProgram, Answers, FirstMatch, BuiltinExec, Chars, Offsets, HasFlag, GetU16, Placed,
      Emitted, CountersFit, WellFormed, Compiled, TermAccepted, Meaning, TermOk, Parsed;
    var code := Compile(g, t, flags);
    ghost var n := Meaning(t);
    if code.None? { return None; }
    var bc := code.value;
    CompiledHeader(bc, g, n);
    var capture := new Value[AllocCount(bc)];
    var matched := LreExec(bc, g, isSpace, u, cbufType, start, capture, n);
    ghost var wide := IsWide(bc, cbufType);
    FirstMatchIsBuiltinExec(World(g, isSpace, Seen(u, wide)), n, IsSticky(bc), StartAt(u, wide, start));
    r := Some((matched, capture[..]));
  }

  lemma CompiledHeader(bc: seq<byte>, g: Canon, n: Node)
    requires Compiled(bc, g, n)
    ensures |bc| >= HEADER_LEN
  {
  }
}
