/** The loops a quantifier compiles to. Each is followed through its iterations with
    the correctness of the loop body as a hypothesis. */
module Repetition {
  import opened Syntax
  import opened Semantics
  import opened Bytecode
  import opened Compiler
  import opened Elision
  import opened Machine
  import opened Leaves
  import opened Behaviour
  import opened CodeSetup

  /** A quantified node `n` whose loop body lies in [sa, ea) and whose code ends at
      `e`. The atom uses the registers from `dh` on; `sc` is what the whole loop may
      change. */
  datatype LoopCode = LoopCode(vm: Vm, n: Node, cap: nat, back: bool, dh: nat, sa: int, ea: int, e: int, sc: Scope)

  ghost predicate BodyCorrect(vm: Vm, b: Node, cap: nat, back: bool, d: nat, s: int) {
    forall x, m, k :: Setup(vm, b, cap, back, d, s, x, m) ==> Correct(vm, b, cap, back, d, s, x, m, k)
  }

  ghost predicate Resets(lp: LoopCode)
    requires lp.n.Repeat?
  {
    NeedsCaptureInit(Code(lp.vm.w.canon, lp.n.body, lp.cap, lp.back)) && Caps(lp.n) > 0
  }

  ghost function AtomStart(lp: LoopCode): int
    requires lp.n.Repeat?
  {
    lp.sa + if Resets(lp) then 3 else 0
  }

  ghost predicate LoopOk(lp: LoopCode) {
    && lp.n.Repeat?
    && !Linear(lp.n)
    && lp.cap + Caps(lp.n) <= lp.vm.ncap
    && lp.sc.lo == lp.cap
    && lp.sc.hi == lp.cap + Caps(lp.n)
    && lp.sc.depth <= lp.dh
    && WellFormed(lp.n, lp.vm.ncap)
    && 2 * lp.vm.ncap + lp.dh + Registers(lp.vm.w.canon, lp.n.body, lp.cap, lp.back) <= |lp.sc.mem|
    && (Resets(lp) ==> lp.sa in lp.vm.code && lp.vm.code[lp.sa] == SaveReset(lp.cap, lp.cap + Caps(lp.n) - 1))
    && Loaded(lp.vm, lp.n.body, lp.cap, lp.back, lp.dh, AtomStart(lp))
    && lp.ea == End(lp.vm, lp.n.body, lp.cap, lp.back, lp.dh, AtomStart(lp))
    && BodyCorrect(lp.vm, lp.n.body, lp.cap, lp.back, lp.dh, AtomStart(lp))
  }

  /** A straight-line body leaves unset whatever it does not set. */
  ghost predicate Settled(lp: LoopCode, x: State)
    requires lp.n.Repeat?
  {
    Linear(lp.n.body) ==>
      forall k :: lp.cap <= k < lp.cap + Caps(lp.n) && k < |x.caps| && !AlwaysSets(lp.n.body, lp.cap, k) ==>
               x.caps[k] == None
  }

  /** Where the loop stands between iterations. */
  ghost predicate Between(lp: LoopCode, x: State, m: seq<Value>)
    requires LoopOk(lp)
  {
    && |x.caps| == lp.vm.ncap
    && x.pos <= |lp.vm.w.text|
    && Good(lp.vm, lp.sc, m, x)
    && Outside(lp.vm, m, x, lp.cap, lp.cap + Caps(lp.n))
    && Settled(lp, x)
  }

  ghost function BodyScope(lp: LoopCode, mh: seq<Value>): Scope
    requires lp.n.Repeat?
  {
    Scope(mh, lp.cap, lp.cap + Caps(lp.n), lp.dh)
  }

  ghost function BodyOuts(lp: LoopCode, x: State): (ys: seq<State>)
    requires lp.n.Repeat? && x.pos <= |lp.vm.w.text| && lp.cap + Caps(lp.n) <= |x.caps|
    ensures AllAfter(lp.vm.w, lp.back, lp.cap, lp.cap + Caps(lp.n), x, ys)
  {
    Out(lp.vm.w, lp.n.body, lp.cap, lp.back, Reset(x, lp.cap, lp.cap + Caps(lp.n)))
  }

  /* ----- one iteration ----- */

  /** The memory in which the atom starts. */
  ghost function AtomMem(lp: LoopCode, mh: seq<Value>): seq<Value>
    requires LoopOk(lp)
  {
    if Resets(lp) then ResetMem(mh, lp.cap, lp.cap + Caps(lp.n) - 1) else mh
  }

  lemma AtomEntry(lp: LoopCode, x: State, mh: seq<Value>)
    requires LoopOk(lp) && Between(lp, x, mh)
    ensures var xr, ma := Reset(x, lp.cap, lp.cap + Caps(lp.n)), AtomMem(lp, mh);
            && Entry(lp.vm, lp.n.body, lp.cap, xr, ma)
            && Same(lp.vm, BodyScope(lp, mh), ma)
  {
    hide Code, Frag, CodeAt, BoundsKept, Correct, Registers, BodyCorrect;
    var xr, ma := Reset(x, lp.cap, lp.cap + Caps(lp.n)), AtomMem(lp, mh);
    var b := lp.n.body;
    InitExactlyForNonLinear(lp.vm.w.canon, b, lp.cap, lp.back, lp.vm.ncap);
    if Linear(b) {
      forall k | lp.cap <= k < lp.cap + Caps(b) && !AlwaysSets(b, lp.cap, k)
        ensures ma[2 * k] == Unset && ma[2 * k + 1] == Unset
      {
        assert HoldsSpan(mh[2 * k], mh[2 * k + 1], x.caps[k]);
      }
    } else {
      forall k | 0 <= k < lp.vm.ncap && !(lp.cap <= k < lp.cap + Caps(b))
        ensures WeakSpan(ma[2 * k], ma[2 * k + 1], xr.caps[k])
      {
        assert WeakSpan(mh[2 * k], mh[2 * k + 1], x.caps[k]);
        assert ma[2 * k] == mh[2 * k] && ma[2 * k + 1] == mh[2 * k + 1];
      }
    }
  }

  lemma SameGood(vm: Vm, sc: Scope, ma: seq<Value>, ys: seq<State>)
    requires Same(vm, sc, ma)
    ensures Widens(vm, Scope(ma, sc.lo, sc.hi, sc.depth), sc, ys)
  {
  }

  /** From the start of the loop body the machine explores the outcomes of one more
      iteration, whether or not the capture reset was dropped. */
  lemma Iteration(lp: LoopCode, x: State, mh: seq<Value>, k: seq<Frame>)
    requires LoopOk(lp) && Between(lp, x, mh)
    ensures Behaves(lp.vm, lp.ea, Run(lp.sa, x.pos, mh, k), BodyOuts(lp, x), k, BodyScope(lp, mh))
  {
    hide Code, Frag, CodeAt, BoundsKept, Registers, WellFormed, Entry, Behaves, Good, Exec, Step;
    var xr, ma := Reset(x, lp.cap, lp.cap + Caps(lp.n)), AtomMem(lp, mh);
    AtomEntry(lp, x, mh);
    BetweenRoom(lp, x, mh);
    assert Setup(lp.vm, lp.n.body, lp.cap, lp.back, lp.dh, AtomStart(lp), xr, ma);
    assert Correct(lp.vm, lp.n.body, lp.cap, lp.back, lp.dh, AtomStart(lp), xr, ma, k);
    SameGood(lp.vm, BodyScope(lp, mh), ma, BodyOuts(lp, x));
    var c := Run(AtomStart(lp), x.pos, ma, k);
    Rescope(lp.vm, lp.ea, c, BodyOuts(lp, x), k, BodyScope(lp, ma), BodyScope(lp, mh));
    if Resets(lp) {
      StepReset(lp.vm, lp.sa, x.pos, mh, k);
      BehavesStep(lp.vm, lp.ea, Run(lp.sa, x.pos, mh, k), BodyOuts(lp, x), k, BodyScope(lp, mh));
    }
  }

  lemma BetweenRoom(lp: LoopCode, x: State, m: seq<Value>)
    requires LoopOk(lp) && Between(lp, x, m)
    ensures |m| == |lp.sc.mem|
  {
  }

  lemma StepReset(vm: Vm, pc: int, pos: nat, m: seq<Value>, k: seq<Frame>)
    requires pc in vm.code && vm.code[pc].SaveReset? && vm.code[pc].last < vm.ncap && pos <= |vm.w.text|
             && 2 * vm.ncap <= |m|
    ensures Step(vm, Run(pc, pos, m, k)) == Run(pc + 3, pos, ResetMem(m, vm.code[pc].first, vm.code[pc].last), k)
  {
  }

  /** An iteration that started between iterations ends between iterations. */
  lemma StillBetween(lp: LoopCode, x: State, mh: seq<Value>, i: nat, m1: seq<Value>)
    requires LoopOk(lp) && Between(lp, x, mh)
    requires i < |BodyOuts(lp, x)| && Good(lp.vm, BodyScope(lp, mh), m1, BodyOuts(lp, x)[i])
    ensures Between(lp, BodyOuts(lp, x)[i], m1)
  {
    hide Code, Frag, CodeAt, BoundsKept, Registers, WellFormed, Entry, BodyCorrect;
    var y := BodyOuts(lp, x)[i];
    var b, hi := lp.n.body, lp.cap + Caps(lp.n);
    assert After(lp.vm.w, lp.back, lp.cap, hi, x, y);
    OutsideAfter(lp.vm, BodyScope(lp, mh), m1, x, y, lp.cap, hi, lp.cap, hi);
    if Linear(b) {
      forall k | lp.cap <= k < hi && !AlwaysSets(b, lp.cap, k) ensures y.caps[k] == None {
        LinearLeavesOthers(lp.vm.w, b, lp.cap, lp.back, Reset(x, lp.cap, hi), k);
      }
    }
  }

  /** What the code after the loop body must do with an outcome of the body. */
  ghost predicate Continues(lp: LoopCode, min: nat, max: Bound, x: State, mh: seq<Value>)
    requires LoopOk(lp) && Between(lp, x, mh)
  {
    forall i, m1, k1 :: 0 <= i < |BodyOuts(lp, x)| && Good(lp.vm, BodyScope(lp, mh), m1, BodyOuts(lp, x)[i]) ==>
      Behaves(lp.vm, lp.e, Run(lp.ea, BodyOuts(lp, x)[i].pos, m1, k1),
              RepNext(lp.vm.w, lp.n, lp.cap, lp.back, min, max, x, BodyOuts(lp, x)[i]), k1, lp.sc)
  }

  ghost function NextOuts(lp: LoopCode, min: nat, max: Bound, x: State, ys: seq<State>): (zss: seq<seq<State>>)
    requires lp.n.Repeat? && x.pos <= |lp.vm.w.text| && lp.cap + Caps(lp.n) <= |x.caps|
    requires AllAfter(lp.vm.w, lp.back, lp.cap, lp.cap + Caps(lp.n), x, ys)
    ensures |zss| == |ys|
    ensures forall i :: 0 <= i < |ys| ==> zss[i] == RepNext(lp.vm.w, lp.n, lp.cap, lp.back, min, max, x, ys[i])
    ensures Flatten(zss) == RepAll(lp.vm.w, lp.n, lp.cap, lp.back, min, max, x, ys)
    decreases |ys|
  {
    if ys == [] then []
    else [RepNext(lp.vm.w, lp.n, lp.cap, lp.back, min, max, x, ys[0])] + NextOuts(lp, min, max, x, ys[1..])
  }

  lemma IterateCorrect(lp: LoopCode, min: nat, max: Bound, x: State, mh: seq<Value>, k: seq<Frame>)
    requires LoopOk(lp) && Between(lp, x, mh) && Continues(lp, min, max, x, mh)
    ensures Behaves(lp.vm, lp.e, Run(lp.sa, x.pos, mh, k), Iterate(lp.vm.w, lp.n, lp.cap, lp.back, min, max, x), k,
                    lp.sc)
  {
    hide Code, Frag, CodeAt, BoundsKept, Registers, WellFormed, Entry, Behaves, Good, BodyCorrect, Outside, Settled;
    var ys := BodyOuts(lp, x);
    var zss := NextOuts(lp, min, max, x, ys);
    Iteration(lp, x, mh, k);
    Bind(lp.vm, lp.ea, lp.e, Run(lp.sa, x.pos, mh, k), ys, zss, k, BodyScope(lp, mh), lp.sc);
  }

  /** If the advance check was dropped, no iteration stays where it started. */
  lemma NoStandstill(lp: LoopCode, x: State, i: nat)
    requires LoopOk(lp) && |x.caps| == lp.vm.ncap && x.pos <= |lp.vm.w.text|
    requires !NeedsAdvanceCheck(Code(lp.vm.w.canon, lp.n.body, lp.cap, lp.back))
    requires i < |BodyOuts(lp, x)|
    ensures BodyOuts(lp, x)[i].pos != x.pos
  {
    hide Code, Frag, CodeAt, BoundsKept, Registers, BodyCorrect;
    AdvanceElisionSound(lp.vm.w, lp.n.body, lp.cap, lp.back, lp.vm.ncap, Reset(x, lp.cap, lp.cap + Caps(lp.n)));
  }
}
