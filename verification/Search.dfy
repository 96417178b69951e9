/** Whole programs: the search loop in front of the pattern, group 0 around it, and
    the final match instruction. */
module Search {
  import opened Syntax
  import opened Semantics
  import opened Bytecode
  import opened Compiler
  import opened Machine
  import opened Behaviour
  import opened CodeSetup
  import opened Correctness

  function NoCaps(n: nat): (caps: seq<Option<Span>>)
    ensures |caps| == n
  {
    seq(n, i => None)
  }

  /** RegExpBuiltinExec (section 22.2.7.2): try the pattern at `i`, then, unless the
      expression is sticky, at every later position. */
  function FirstMatch(w: World, n: Node, sticky: bool, i: nat): (r: Option<State>)
    requires i <= |w.text|
    ensures r.Some? ==> |r.value.caps| == 1 + Caps(n) && r.value.pos <= |w.text|
    decreases |w.text| - i
  {
    var ys := Out(w, Group(n), 0, false, State(i, NoCaps(1 + Caps(n))));
    if ys != [] then Some(ys[0])
    else if sticky || i == |w.text| then None
    else FirstMatch(w, n, sticky, i + 1)
  }

  function SearchLoop(sticky: bool): seq<Instr> {
    if sticky then [] else [Split(false, 6), Consume(OpAny), Goto(-11)]
  }

  /** The code of a whole expression, before and after register allocation. */
  function RawProgram(g: Canon, n: Node, sticky: bool): seq<Instr> {
    SearchLoop(sticky) + Code(g, Group(n), 0, false) + [Accept]
  }

  function FinalProgram(g: Canon, n: Node, sticky: bool): seq<Instr> {
    SearchLoop(sticky) + Frag(g, Group(n), 0, false, 0) + [Accept]
  }

  /** A machine loaded with the program of `n`. */
  ghost predicate Runs(vm: Vm, n: Node, sticky: bool) {
    && !vm.wide
    && vm.ncap == 1 + Caps(n)
    && WellFormed(n, vm.ncap)
    && BoundsKept(vm.w.canon, n, 1, false)
    && CodeAt(vm.code, 0, FinalProgram(vm.w.canon, n, sticky))
  }

  /** The initial memory: captures unset, registers arbitrary. */
  ghost predicate Initial(vm: Vm, n: Node, m: seq<Value>) {
    && |m| >= 2 * vm.ncap + Registers(vm.w.canon, n, 1, false)
    && forall i :: 0 <= i < 2 * vm.ncap ==> m[i] == Unset
  }

  function PatternStart(sticky: bool): nat { if sticky then 0 else 11 }

  lemma ProgramLayout(vm: Vm, n: Node, sticky: bool)
    requires Runs(vm, n, sticky)
    ensures Loaded(vm, Group(n), 0, false, 0, PatternStart(sticky))
    ensures var e := End(vm, Group(n), 0, false, 0, PatternStart(sticky)); e in vm.code && vm.code[e] == Accept
    ensures !sticky ==>
      && 0 in vm.code && vm.code[0] == Split(false, 6)
      && 5 in vm.code && vm.code[5] == Consume(OpAny)
      && 6 in vm.code && vm.code[6] == Goto(-11)
  {
    hide Frag, Code, CodeAt, SearchLoop, Registers;
    var frag := Frag(vm.w.canon, Group(n), 0, false, 0);
    CodeAtConcat(vm.code, 0, SearchLoop(sticky) + frag, [Accept]);
    CodeAtConcat(vm.code, 0, SearchLoop(sticky), frag);
    SizeConcat(SearchLoop(sticky), frag);
    LoopLayout(vm.code, sticky);
    AcceptAt(vm.code, Size(SearchLoop(sticky) + frag));
  }

  lemma AcceptAt(p: Program, e: int)
    requires CodeAt(p, e, [Accept])
    ensures e in p && p[e] == Accept
  {
    assert [Accept] == [Accept] + [];
    CodeAtCons(p, e, Accept, []);
  }

  lemma LoopLayout(p: Program, sticky: bool)
    requires CodeAt(p, 0, SearchLoop(sticky))
    ensures Size(SearchLoop(sticky)) == PatternStart(sticky)
    ensures !sticky ==>
              0 in p && p[0] == Split(false, 6) && 5 in p && p[5] == Consume(OpAny) && 6 in p && p[6] == Goto(-11)
  {
    hide CodeAt;
    if !sticky {
      assert SearchLoop(false) == [Split(false, 6)] + ([Consume(OpAny)] + ([Goto(-11)] + []));
      CodeAtCons(p, 0, Split(false, 6), [Consume(OpAny)] + ([Goto(-11)] + []));
      CodeAtCons(p, 5, Consume(OpAny), [Goto(-11)] + []);
      CodeAtCons(p, 6, Goto(-11), []);
    }
  }

  /** What a run may end in: the first match, with its captures, or failure. */
  ghost predicate EndsWith(vm: Vm, c: Conf, r: Option<State>, m: seq<Value>) {
    match r
    case None => Reaches(vm, c, Fail)
    case Some(y) => Reaches(vm, c, Done(y.pos, m)) && |m| >= 2 * vm.ncap && Exact(m, y, 0, vm.ncap)
  }

  lemma EndsFrom(vm: Vm, c: Conf, c': Conf, r: Option<State>, m: seq<Value>)
    requires Reaches(vm, c, c') && EndsWith(vm, c', r, m)
    ensures EndsWith(vm, c, r, m)
  {
    match r
    case None => ReachesTrans(vm, c, c', Fail);
    case Some(y) => ReachesTrans(vm, c, c', Done(y.pos, m));
  }

  lemma OneStep(vm: Vm, c: Conf)
    ensures Reaches(vm, c, Step(vm, c))
  {
    ReachesSelf(vm, Step(vm, c));
    ReachesStep(vm, c, Step(vm, c));
  }

  /** Trying the pattern at one position: either the first outcome is accepted, or
      control returns to the choice points below. */
  lemma TryHere(vm: Vm, n: Node, sticky: bool, i: nat, m: seq<Value>, k: seq<Frame>) returns (m1: seq<Value>)
    requires Runs(vm, n, sticky) && Initial(vm, n, m) && i <= |vm.w.text|
    ensures var c := Run(PatternStart(sticky), i, m, k);
            var ys := Out(vm.w, Group(n), 0, false, State(i, NoCaps(1 + Caps(n))));
            if ys == [] then Reaches(vm, c, Back(k)) else EndsWith(vm, c, Some(ys[0]), m1)
  {
    hide Out, Frag, Code, Registers, Behaves, WellFormed, Exec, Step, CodeAt, Reaches, FinalProgram;
    var s, x := PatternStart(sticky), State(i, NoCaps(1 + Caps(n)));
    var ys, e, sc := Out(vm.w, Group(n), 0, false, x), End(vm, Group(n), 0, false, 0, s), ScopeOf(Group(n), 0, 0, m);
    var c := Run(s, i, m, k);
    ProgramLayout(vm, n, sticky);
    TopRegisters(vm.w.canon, n);
    TopEntry(vm, n, i, m);
    NodeCorrect(vm, Group(n), 0, false, 0, s, x, m, k);
    m1 := m;
    if ys == [] {
      BehavesEmpty(vm, e, c, k, sc);
    } else {
      var k1;
      k1, m1 := FirstArrival(vm, e, c, ys, k, sc);
      var c1 := Run(e, ys[0].pos, m1, k1 + k);
      GoodRoom(vm, sc, m1, ys[0]);
      StepAccept(vm, e, ys[0].pos, m1, k1 + k);
      OneStep(vm, c1);
      ReachesTrans(vm, c, c1, Step(vm, c1));
    }
  }

  lemma GoodRoom(vm: Vm, sc: Scope, m1: seq<Value>, y: State)
    requires Good(vm, sc, m1, y)
    ensures |m1| == |sc.mem|
  {
  }

  lemma StepAccept(vm: Vm, pc: int, pos: nat, m: seq<Value>, k: seq<Frame>)
    requires pc in vm.code && vm.code[pc] == Accept && pos <= |vm.w.text| && 2 * vm.ncap <= |m|
    ensures Step(vm, Run(pc, pos, m, k)) == Done(pos, m)
  {
  }

  lemma TopRegisters(g: Canon, n: Node)
    ensures Registers(g, Group(n), 0, false) == Registers(g, n, 1, false)
  {
  }

  lemma TopEntry(vm: Vm, n: Node, i: nat, m: seq<Value>)
    requires vm.ncap == 1 + Caps(n) && Initial(vm, n, m)
    ensures Entry(vm, Group(n), 0, State(i, NoCaps(1 + Caps(n))), m)
  {
    hide Registers;
  }

  /** A run of a compiled expression from position `i` ends, and it ends with what
      the reference finds: no match, or the first match with exactly its captures. */
  lemma {:induction false} ProgramCorrect(vm: Vm, n: Node, sticky: bool, i: nat, m: seq<Value>) returns (m1: seq<Value>)
    requires Runs(vm, n, sticky) && Initial(vm, n, m) && i <= |vm.w.text|
    ensures EndsWith(vm, Run(0, i, m, []), FirstMatch(vm.w, n, sticky, i), m1)
    decreases |vm.w.text| - i
  {
    hide Out, Frag, Code, Registers, WellFormed, Exec, CodeAt, Reaches, FinalProgram;
    var c := Run(0, i, m, []);
    var ys := Out(vm.w, Group(n), 0, false, State(i, NoCaps(1 + Caps(n))));
    if sticky {
      m1 := TryHere(vm, n, sticky, i, m, []);
      if ys == [] {
        OneStep(vm, Back([]));
        ReachesTrans(vm, c, Back([]), Fail);
      }
    } else {
      m1 := SearchStep(vm, n, i, m);
      if ys == [] && i < |vm.w.text| {
        m1 := ProgramCorrect(vm, n, sticky, i + 1, m);
        EndsFrom(vm, c, Run(0, i + 1, m, []), FirstMatch(vm.w, n, sticky, i + 1), m1);
      }
    }
  }

  /** One turn of the search loop. */
  lemma SearchStep(vm: Vm, n: Node, i: nat, m: seq<Value>) returns (m1: seq<Value>)
    requires Runs(vm, n, false) && Initial(vm, n, m) && i <= |vm.w.text|
    ensures var c := Run(0, i, m, []);
            var ys := Out(vm.w, Group(n), 0, false, State(i, NoCaps(1 + Caps(n))));
            if ys != [] then EndsWith(vm, c, Some(ys[0]), m1)
            else Reaches(vm, c, if i == |vm.w.text| then Fail else Run(0, i + 1, m, []))
  {
    hide Out, Frag, Code, Registers, WellFormed, Exec, CodeAt, Reaches, FinalProgram, Step;
    var f := Frame(Choice, 5, i, m);
    var c, c1, c2 := Run(0, i, m, []), Run(11, i, m, [f]), Run(5, i, m, []);
    var ys := Out(vm.w, Group(n), 0, false, State(i, NoCaps(1 + Caps(n))));
    ProgramLayout(vm, n, false);
    StepSplit(vm, 0, i, m, []);
    assert [f] + [] == [f];
    OneStep(vm, c);
    m1 := TryHere(vm, n, false, i, m, [f]);
    if ys != [] {
      EndsFrom(vm, c, c1, Some(ys[0]), m1);
    } else {
      StepBack(vm, f, []);
      OneStep(vm, Back([f]));
      StepAny(vm, 5, i, m, []);
      OneStep(vm, c2);
      ReachesTrans(vm, c, c1, Back([f]));
      ReachesTrans(vm, c, Back([f]), c2);
      ReachesTrans(vm, c, c2, Step(vm, c2));
      if i < |vm.w.text| {
        StepGoto(vm, 6, 0);
        OneStep(vm, Run(6, i + 1, m, []));
        ReachesTrans(vm, c, Run(6, i + 1, m, []), Run(0, i + 1, m, []));
      } else {
        StepEmpty(vm);
        OneStep(vm, Back([]));
        ReachesTrans(vm, c, Back([]), Fail);
      }
    }
  }

  lemma StepEmpty(vm: Vm)
    ensures Step(vm, Back([])) == Fail
  {
  }

  lemma StepAny(vm: Vm, pc: int, pos: nat, m: seq<Value>, k: seq<Frame>)
    requires !vm.wide && pc in vm.code && vm.code[pc] == Consume(OpAny) && pos <= |vm.w.text| && 2 * vm.ncap <= |m|
    ensures Step(vm, Run(pc, pos, m, k)) == if pos == |vm.w.text| then Back(k) else Run(pc + 1, pos + 1, m, k)
  {
  }

  predicate Final(c: Conf) { c.Done? || c.Fail? }
}
