/** The three kinds of loop: split-and-goto for `*` and `?`, a trailing split for `+`,
    and a counted loop for everything else. */
module QuantifierLoops {
  import opened Syntax
  import opened Semantics
  import opened Bytecode
  import opened Compiler
  import opened Elision
  import opened Machine
  import opened Behaviour
  import opened CodeSetup
  import opened Repetition

  /* ----- register instructions ----- */

  lemma StepSetPos(vm: Vm, pc: int, pos: nat, m: seq<Value>, k: seq<Frame>)
    requires pc in vm.code && vm.code[pc].SetPos? && pos <= |vm.w.text| && 2 * vm.ncap + vm.code[pc].reg < |m|
    ensures Step(vm, Run(pc, pos, m, k)) == Run(pc + 2, pos, m[2 * vm.ncap + vm.code[pc].reg := At(pos)], k)
  {
  }

  lemma StepSetCount(vm: Vm, pc: int, pos: nat, m: seq<Value>, k: seq<Frame>)
    requires pc in vm.code && vm.code[pc].SetCount? && pos <= |vm.w.text| && 2 * vm.ncap + vm.code[pc].reg < |m|
    ensures Step(vm, Run(pc, pos, m, k))
              == Run(pc + 6, pos, m[2 * vm.ncap + vm.code[pc].reg := Count(vm.code[pc].count)], k)
  {
  }

  lemma StepCheckAdvance(vm: Vm, pc: int, pos: nat, m: seq<Value>, k: seq<Frame>)
    requires pc in vm.code && vm.code[pc].CheckAdvance? && pos <= |vm.w.text| && 2 * vm.ncap + vm.code[pc].reg < |m|
    ensures Step(vm, Run(pc, pos, m, k)) == if m[2 * vm.ncap + vm.code[pc].reg] == At(pos) then Back(k)
              else Run(pc + 2, pos, m, k)
  {
  }

  lemma StepLoop(vm: Vm, pc: int, pos: nat, m: seq<Value>, k: seq<Frame>, count: nat)
    requires pc in vm.code && vm.code[pc].Loop? && pos <= |vm.w.text| && 2 * vm.ncap + vm.code[pc].reg < |m|
    requires count > 0 && m[2 * vm.ncap + vm.code[pc].reg] == Count(count)
    ensures Step(vm, Run(pc, pos, m, k)) ==
            Run(if count > 1 then pc + 6 + vm.code[pc].off else pc + 6, pos,
                m[2 * vm.ncap + vm.code[pc].reg := Count(count - 1)], k)
  {
  }

  lemma StepLoopSplit(vm: Vm, pc: int, pos: nat, m: seq<Value>, k: seq<Frame>, count: nat)
    requires pc in vm.code && vm.code[pc].LoopSplit? && pos <= |vm.w.text|
    requires 2 * vm.ncap + vm.code[pc].reg + Num(vm.code[pc].checkAdv) < |m|
    requires count > 0 && m[2 * vm.ncap + vm.code[pc].reg] == Count(count)
    ensures var i, v := vm.code[pc], count - 1;
            var idx := 2 * vm.ncap + i.reg;
            var m' := m[idx := Count(v)];
            Step(vm, Run(pc, pos, m, k)) ==
            if v > i.limit then Run(pc + 10 + i.off, pos, m', k)
            else if i.checkAdv && m[idx + 1] == At(pos) && v != i.limit then Back(k)
            else if v == 0 then Run(pc + 10, pos, m', k)
            else Fork(i.nextFirst, pc + 10, pc + 10 + i.off, pos, m', k)
  {
  }

  /** A register write keeps the loop between iterations. */
  lemma WriteRegister(lp: LoopCode, x: State, m: seq<Value>, r: nat, v: Value)
    requires LoopOk(lp) && Between(lp, x, m)
    requires lp.sc.depth <= r && 2 * lp.vm.ncap + r < |m|
    ensures Between(lp, x, m[2 * lp.vm.ncap + r := v])
  {
    hide LoopOk, Settled;
    var m' := m[2 * lp.vm.ncap + r := v];
    forall k | 0 <= k < lp.vm.ncap ensures m'[2 * k] == m[2 * k] && m'[2 * k + 1] == m[2 * k + 1] {
    }
  }

  /** The body keeps the registers of its loop. */
  lemma KeepsRegister(lp: LoopCode, mh: seq<Value>, m1: seq<Value>, y: State, r: nat)
    requires lp.n.Repeat? && Good(lp.vm, BodyScope(lp, mh), m1, y)
    requires r < lp.dh && 2 * lp.vm.ncap + r < |mh|
    requires lp.cap + Caps(lp.n) <= lp.vm.ncap
    ensures |m1| == |mh| && m1[2 * lp.vm.ncap + r] == mh[2 * lp.vm.ncap + r]
  {
  }

  /* ----- `*` and `?` ----- */

  ghost predicate StarAt(lp: LoopCode, chk: bool, again: bool, sp: int)
    requires LoopOk(lp)
  {
    var d := lp.sc.depth;
    var eg := lp.ea + 2 * Num(chk);
    && sp in lp.vm.code && lp.vm.code[sp] == Split(lp.n.greedy, lp.e - (sp + 5))
    && lp.sa == sp + 5 + 2 * Num(chk)
    && lp.dh == d + Num(chk)
    && chk == NeedsAdvanceCheck(Code(lp.vm.w.canon, lp.n.body, lp.cap, lp.back))
    && (chk ==> sp + 5 in lp.vm.code && lp.vm.code[sp + 5] == SetPos(d))
    && (chk ==> lp.ea in lp.vm.code && lp.vm.code[lp.ea] == CheckAdvance(d))
    && (again ==> eg in lp.vm.code && lp.vm.code[eg] == Goto(sp - (eg + 5)))
    && lp.e == eg + 5 * Num(again)
  }

  function StarMax(again: bool): Bound { if again then Infinite else Finite(1) }

  /** The memory after the start position has been noted. */
  ghost function Noted(vm: Vm, chk: bool, r: nat, pos: nat, m: seq<Value>): seq<Value>
    requires chk ==> 2 * vm.ncap + r < |m|
  {
    if chk then m[2 * vm.ncap + r := At(pos)] else m
  }

  lemma {:induction false} StarCorrect(lp: LoopCode, chk: bool, again: bool, sp: int, x: State, m: seq<Value>,
                                       k: seq<Frame>)
    requires LoopOk(lp) && StarAt(lp, chk, again, sp) && Between(lp, x, m)
    ensures Behaves(lp.vm, lp.e, Run(sp, x.pos, m, k), Rep(lp.vm.w, lp.n, lp.cap, lp.back, 0, StarMax(again), x), k,
                    lp.sc)
    decreases Rest(lp.vm.w, lp.back, x), 3
  {
    hide Code, Behaves, Exec, Step, Outside, Settled, BodyCorrect, Loaded, Linear, Registers, WellFormed, Iterate,
      RepAll;
    var vm, d := lp.vm, lp.sc.depth;
    var more := Iterate(vm.w, lp.n, lp.cap, lp.back, 0, StarMax(again), x);
    var k' := if lp.n.greedy then [Frame(Choice, lp.e, x.pos, m)] + k else k;
    StarIterates(lp, chk, again, sp, x, m, k');
    StepSplit(vm, sp, x.pos, m, k);
    Offer(vm, lp.e, Run(sp, x.pos, m, k), sp + 5, x, m, lp.n.greedy, more, k, lp.sc);
  }

  lemma {:induction false} StarIterates(lp: LoopCode, chk: bool, again: bool, sp: int, x: State, m: seq<Value>,
                                        k: seq<Frame>)
    requires LoopOk(lp) && StarAt(lp, chk, again, sp) && Between(lp, x, m)
    ensures Behaves(lp.vm, lp.e, Run(sp + 5, x.pos, m, k),
                    Iterate(lp.vm.w, lp.n, lp.cap, lp.back, 0, StarMax(again), x), k, lp.sc)
    decreases Rest(lp.vm.w, lp.back, x), 2
  {
    hide Code, Behaves, Exec, Step, Outside, Settled, BodyCorrect, Loaded, Linear, Registers, Good, Out, Iterate,
      RepNext, RepAll, After, WellFormed;
    var vm, d, max := lp.vm, lp.sc.depth, StarMax(again);
    BetweenRoom(lp, x, m);
    var mh := Noted(vm, chk, d, x.pos, m);
    if chk { WriteRegister(lp, x, m, d, At(x.pos)); }
    var ys := BodyOuts(lp, x);
    forall i, m1, k1 | 0 <= i < |ys| && Good(vm, BodyScope(lp, mh), m1, ys[i])
      ensures Behaves(vm, lp.e, Run(lp.ea, ys[i].pos, m1, k1), RepNext(vm.w, lp.n, lp.cap, lp.back, 0, max, x, ys[i]),
                      k1, lp.sc)
    {
      StarContinues(lp, chk, again, sp, x, mh, i, m1, k1);
    }
    IterateCorrect(lp, 0, max, x, mh, k);
    if chk {
      StepSetPos(vm, sp + 5, x.pos, m, k);
      BehavesStep(vm, lp.e, Run(sp + 5, x.pos, m, k), Iterate(vm.w, lp.n, lp.cap, lp.back, 0, max, x), k, lp.sc);
    }
  }

  lemma {:induction false} StarContinues(lp: LoopCode, chk: bool, again: bool, sp: int, x: State, mh: seq<Value>,
                                         i: nat, m1: seq<Value>, k1: seq<Frame>)
    requires LoopOk(lp) && StarAt(lp, chk, again, sp) && Between(lp, x, mh)
    requires chk ==> 2 * lp.vm.ncap + lp.sc.depth < |mh| && mh[2 * lp.vm.ncap + lp.sc.depth] == At(x.pos)
    requires i < |BodyOuts(lp, x)| && Good(lp.vm, BodyScope(lp, mh), m1, BodyOuts(lp, x)[i])
    ensures Behaves(lp.vm, lp.e, Run(lp.ea, BodyOuts(lp, x)[i].pos, m1, k1),
                    RepNext(lp.vm.w, lp.n, lp.cap, lp.back, 0, StarMax(again), x, BodyOuts(lp, x)[i]), k1, lp.sc)
    decreases Rest(lp.vm.w, lp.back, x), 1
  {
    hide Code, Behaves, Exec, Step, Outside, Settled, BodyCorrect, Loaded, Linear, Registers, Good, Out, Iterate,
      RepNext, Rep, RepAll, WellFormed;
    var y := BodyOuts(lp, x)[i];
    StillBetween(lp, x, mh, i, m1);
    assert After(lp.vm.w, lp.back, lp.cap, lp.cap + Caps(lp.n), x, y);
    if !chk { NoStandstill(lp, x, i); }
    if y.pos != x.pos && again {
      StarCorrect(lp, chk, again, sp, y, m1, k1);
    }
    StarNext(lp, chk, again, sp, x, mh, y, m1, k1);
  }

  lemma StarNext(lp: LoopCode, chk: bool, again: bool, sp: int, x: State, mh: seq<Value>, y: State, m1: seq<Value>,
                 k1: seq<Frame>)
    requires LoopOk(lp) && StarAt(lp, chk, again, sp)
    requires Between(lp, x, mh) && Between(lp, y, m1)
    requires After(lp.vm.w, lp.back, lp.cap, lp.cap + Caps(lp.n), x, y)
    requires Good(lp.vm, BodyScope(lp, mh), m1, y)
    requires chk ==> 2 * lp.vm.ncap + lp.sc.depth < |mh| && mh[2 * lp.vm.ncap + lp.sc.depth] == At(x.pos)
    requires !chk ==> y.pos != x.pos
    requires y.pos != x.pos && again ==>
      Behaves(lp.vm, lp.e, Run(sp, y.pos, m1, k1), Rep(lp.vm.w, lp.n, lp.cap, lp.back, 0, Infinite, y), k1, lp.sc)
    ensures Behaves(lp.vm, lp.e, Run(lp.ea, y.pos, m1, k1),
                    RepNext(lp.vm.w, lp.n, lp.cap, lp.back, 0, StarMax(again), x, y), k1, lp.sc)
  {
    hide Code, Behaves, Exec, Step, Outside, Settled, BodyCorrect, Loaded, Linear, Registers, Iterate, WellFormed,
      NeedsAdvanceCheck;
    var vm, d := lp.vm, lp.sc.depth;
    var zs := RepNext(vm.w, lp.n, lp.cap, lp.back, 0, StarMax(again), x, y);
    var eg := lp.ea + 2 * Num(chk);
    BetweenRoom(lp, y, m1);
    NextRound(vm.w, lp.n, lp.cap, lp.back, 0, StarMax(again), x, y);
    if y.pos != x.pos {
      if again {
        StepGoto(vm, eg, sp);
        BehavesStep(vm, lp.e, Run(eg, y.pos, m1, k1), zs, k1, lp.sc);
      } else {
        assert zs == [y];
        BehavesOne(vm, lp.e, y, m1, k1, lp.sc);
      }
      assert Behaves(vm, lp.e, Run(eg, y.pos, m1, k1), zs, k1, lp.sc);
    } else {
      assert zs == [];
      BehavesNone(vm, lp.e, k1, lp.sc);
    }
    if chk {
      KeepsRegister(lp, mh, m1, y, d);
      StepCheckAdvance(vm, lp.ea, y.pos, m1, k1);
      BehavesStep(vm, lp.e, Run(lp.ea, y.pos, m1, k1), zs, k1, lp.sc);
    }
  }

  /* ----- `+` without an advance check ----- */

  ghost predicate PlusAt(lp: LoopCode)
    requires LoopOk(lp)
  {
    && lp.dh == lp.sc.depth
    && lp.e == lp.ea + 5
    && lp.ea in lp.vm.code && lp.vm.code[lp.ea] == Split(!lp.n.greedy, lp.sa - lp.e)
    && !NeedsAdvanceCheck(Code(lp.vm.w.canon, lp.n.body, lp.cap, lp.back))
  }

  lemma {:induction false} PlusCorrect(lp: LoopCode, min: nat, x: State, m: seq<Value>, k: seq<Frame>)
    requires LoopOk(lp) && PlusAt(lp) && Between(lp, x, m) && min <= 1
    ensures Behaves(lp.vm, lp.e, Run(lp.sa, x.pos, m, k), Iterate(lp.vm.w, lp.n, lp.cap, lp.back, min, Infinite, x),
                    k, lp.sc)
    decreases Rest(lp.vm.w, lp.back, x)
  {
    hide Code, Behaves, Exec, Step, Outside, Settled, BodyCorrect, Loaded, Linear, Registers, Good;
    var vm, ys := lp.vm, BodyOuts(lp, x);
    forall i, m1, k1 | 0 <= i < |ys| && Good(vm, BodyScope(lp, m), m1, ys[i])
      ensures Behaves(vm, lp.e, Run(lp.ea, ys[i].pos, m1, k1),
                      RepNext(vm.w, lp.n, lp.cap, lp.back, min, Infinite, x, ys[i]), k1, lp.sc)
    {
      var y := ys[i];
      StillBetween(lp, x, m, i, m1);
      NoStandstill(lp, x, i);
      assert After(vm.w, lp.back, lp.cap, lp.cap + Caps(lp.n), x, y);
      PlusCorrect(lp, 0, y, m1, if lp.n.greedy then [Frame(Choice, lp.e, y.pos, m1)] + k1 else k1);
      PlusNext(lp, min, x, y, m1, k1);
    }
    IterateCorrect(lp, min, Infinite, x, m, k);
  }

  lemma PlusNext(lp: LoopCode, min: nat, x: State, y: State, m1: seq<Value>, k1: seq<Frame>)
    requires LoopOk(lp) && PlusAt(lp) && Between(lp, y, m1) && min <= 1
    requires x.pos <= |lp.vm.w.text| && |x.caps| == lp.vm.ncap
    requires After(lp.vm.w, lp.back, lp.cap, lp.cap + Caps(lp.n), x, y) && y.pos != x.pos
    requires var k' := if lp.n.greedy then [Frame(Choice, lp.e, y.pos, m1)] + k1 else k1;
      Behaves(lp.vm, lp.e, Run(lp.sa, y.pos, m1, k'), Iterate(lp.vm.w, lp.n, lp.cap, lp.back, 0, Infinite, y), k',
              lp.sc)
    ensures Behaves(lp.vm, lp.e, Run(lp.ea, y.pos, m1, k1),
                    RepNext(lp.vm.w, lp.n, lp.cap, lp.back, min, Infinite, x, y), k1, lp.sc)
  {
    hide Code, Behaves, Exec, Step, Outside, Settled, BodyCorrect, Loaded, Linear, Registers;
    BetweenRoom(lp, y, m1);
    StepSplit(lp.vm, lp.ea, y.pos, m1, k1);
    Offer(lp.vm, lp.e, Run(lp.ea, y.pos, m1, k1), lp.sa, y, m1, lp.n.greedy,
          Iterate(lp.vm.w, lp.n, lp.cap, lp.back, 0, Infinite, y), k1, lp.sc);
  }

  /* ----- counted loops ----- */

  ghost predicate CountAt(lp: LoopCode, chk: bool, limit: nat, exact: bool, sh: int)
    requires LoopOk(lp)
  {
    var d := lp.sc.depth;
    && lp.sa == sh + 2 * Num(chk)
    && lp.dh == d + 1 + Num(chk)
    && (chk || exact || !NeedsAdvanceCheck(Code(lp.vm.w.canon, lp.n.body, lp.cap, lp.back)))
    && (exact ==> limit == 0 && !chk)
    && (chk ==> sh in lp.vm.code && lp.vm.code[sh] == SetPos(d + 1))
    && lp.e == lp.ea + (if exact then 6 else 10)
    && lp.ea in lp.vm.code
    && lp.vm.code[lp.ea] == if exact then Loop(d, sh - lp.e) else LoopSplit(chk, !lp.n.greedy, d, limit, sh - lp.e)
  }

  /** The counter register against the reference's remaining bounds: with `count`
      left on the counter, `min` iterations are still required. */
  ghost predicate Counting(lp: LoopCode, limit: nat, exact: bool, count: nat, min: nat, max: Bound, x: State)
    requires x.pos <= |lp.vm.w.text|
  {
    && 1 <= count
    && min == (if count > limit then count - limit else 0)
    && max == Finite(count)
  }

  lemma {:induction false} CountCorrect(lp: LoopCode, chk: bool, limit: nat, exact: bool, sh: int, count: nat,
                                        min: nat, max: Bound, x: State, m: seq<Value>, k: seq<Frame>)
    requires LoopOk(lp) && CountAt(lp, chk, limit, exact, sh) && Between(lp, x, m)
    requires Counting(lp, limit, exact, count, min, max, x)
    requires 2 * lp.vm.ncap + lp.sc.depth < |m| && m[2 * lp.vm.ncap + lp.sc.depth] == Count(count)
    ensures Behaves(lp.vm, lp.e, Run(sh, x.pos, m, k), Iterate(lp.vm.w, lp.n, lp.cap, lp.back, min, max, x), k, lp.sc)
    decreases min, Rest(lp.vm.w, lp.back, x), 2
  {
    hide Code, Behaves, Exec, Step, Outside, Settled, BodyCorrect, Loaded, Linear, Registers, Good, Out, Iterate,
      RepNext, RepAll, After, WellFormed, Counting;
    var vm, d := lp.vm, lp.sc.depth;
    BetweenRoom(lp, x, m);
    var mh := Noted(vm, chk, d + 1, x.pos, m);
    if chk { WriteRegister(lp, x, m, d + 1, At(x.pos)); }
    var ys := BodyOuts(lp, x);
    forall i, m1, k1 | 0 <= i < |ys| && Good(vm, BodyScope(lp, mh), m1, ys[i])
      ensures Behaves(vm, lp.e, Run(lp.ea, ys[i].pos, m1, k1),
                      RepNext(vm.w, lp.n, lp.cap, lp.back, min, max, x, ys[i]), k1, lp.sc)
    {
      CountContinues(lp, chk, limit, exact, sh, count, min, max, x, mh, i, m1, k1);
    }
    IterateCorrect(lp, min, max, x, mh, k);
    if chk {
      StepSetPos(vm, sh, x.pos, m, k);
      BehavesStep(vm, lp.e, Run(sh, x.pos, m, k), Iterate(vm.w, lp.n, lp.cap, lp.back, min, max, x), k, lp.sc);
    }
  }

  lemma {:induction false} CountContinues(lp: LoopCode, chk: bool, limit: nat, exact: bool, sh: int, count: nat,
                                          min: nat, max: Bound, x: State, mh: seq<Value>, i: nat, m1: seq<Value>,
                                            k1: seq<Frame>)
    requires LoopOk(lp) && CountAt(lp, chk, limit, exact, sh) && Between(lp, x, mh)
    requires Counting(lp, limit, exact, count, min, max, x)
    requires 2 * lp.vm.ncap + lp.sc.depth + Num(chk) < |mh| && mh[2 * lp.vm.ncap + lp.sc.depth] == Count(count)
    requires chk ==> mh[2 * lp.vm.ncap + lp.sc.depth + 1] == At(x.pos)
    requires i < |BodyOuts(lp, x)| && Good(lp.vm, BodyScope(lp, mh), m1, BodyOuts(lp, x)[i])
    ensures Behaves(lp.vm, lp.e, Run(lp.ea, BodyOuts(lp, x)[i].pos, m1, k1),
                    RepNext(lp.vm.w, lp.n, lp.cap, lp.back, min, max, x, BodyOuts(lp, x)[i]), k1, lp.sc)
    decreases min, Rest(lp.vm.w, lp.back, x), 1
  {
    hide Code, Behaves, Exec, Step, Outside, Settled, BodyCorrect, Loaded, Linear, Registers, Good, Out, Iterate,
      RepNext, Rep, RepAll, WellFormed, Counting;
    var y, d := BodyOuts(lp, x)[i], lp.sc.depth;
    StillBetween(lp, x, mh, i, m1);
    assert After(lp.vm.w, lp.back, lp.cap, lp.cap + Caps(lp.n), x, y);
    if !chk && !exact { NoStandstill(lp, x, i); }
    KeepsRegister(lp, mh, m1, y, d);
    if chk { KeepsRegister(lp, mh, m1, y, d + 1); }
    CountNext(lp, chk, limit, exact, sh, count, min, max, x, y, m1, k1);
  }

  /** The counter keeps in step with the reference. */
  lemma CountingOn(lp: LoopCode, limit: nat, exact: bool, count: nat, min: nat, max: Bound, x: State, y: State)
    requires lp.n.Repeat? && x.pos <= |lp.vm.w.text| && Counting(lp, limit, exact, count, min, max, x)
    requires After(lp.vm.w, lp.back, lp.cap, lp.cap + Caps(lp.n), x, y) && !(min == 0 && y.pos == x.pos)
    ensures count > 1 ==> Counting(lp, limit, exact, count - 1, Pred(min), Less(max), y)
    ensures max == Finite(count)
    ensures count >= 1 && (count - 1 > limit <==> min > 1)
  {
    hide Caps;
  }

  /** The instruction at the end of a counted loop. */
  lemma CountTailStep(lp: LoopCode, chk: bool, limit: nat, exact: bool, sh: int, count: nat, min: nat, max: Bound,
                      x: State, y: State, m1: seq<Value>, k1: seq<Frame>)
    requires LoopOk(lp) && CountAt(lp, chk, limit, exact, sh)
    requires x.pos <= |lp.vm.w.text| && y.pos <= |lp.vm.w.text| && Counting(lp, limit, exact, count, min, max, x)
    requires 2 * lp.vm.ncap + lp.sc.depth + Num(chk) < |m1| && m1[2 * lp.vm.ncap + lp.sc.depth] == Count(count)
    requires chk ==> m1[2 * lp.vm.ncap + lp.sc.depth + 1] == At(x.pos)
    requires !chk && !exact ==> y.pos != x.pos
    ensures var m' := m1[2 * lp.vm.ncap + lp.sc.depth := Count(count - 1)];
            Step(lp.vm, Run(lp.ea, y.pos, m1, k1)) ==
            if count - 1 > limit then Run(sh, y.pos, m', k1)
            else if min == 0 && y.pos == x.pos then Back(k1)
            else if count == 1 then Run(lp.e, y.pos, m', k1)
            else Fork(!lp.n.greedy, lp.e, sh, y.pos, m', k1)
  {
    hide Exec, Step, LoopOk, Code, NeedsAdvanceCheck;
    if exact {
      StepLoop(lp.vm, lp.ea, y.pos, m1, k1, count);
    } else {
      StepLoopSplit(lp.vm, lp.ea, y.pos, m1, k1, count);
    }
  }

  lemma {:induction false} CountNext(lp: LoopCode, chk: bool, limit: nat, exact: bool, sh: int, count: nat, min: nat,
                                     max: Bound, x: State, y: State, m1: seq<Value>, k1: seq<Frame>)
    requires LoopOk(lp) && CountAt(lp, chk, limit, exact, sh) && Between(lp, y, m1)
    requires |x.caps| == lp.vm.ncap && x.pos <= |lp.vm.w.text|
    requires Counting(lp, limit, exact, count, min, max, x)
    requires After(lp.vm.w, lp.back, lp.cap, lp.cap + Caps(lp.n), x, y)
    requires 2 * lp.vm.ncap + lp.sc.depth + Num(chk) < |m1| && m1[2 * lp.vm.ncap + lp.sc.depth] == Count(count)
    requires chk ==> m1[2 * lp.vm.ncap + lp.sc.depth + 1] == At(x.pos)
    requires !chk && !exact ==> y.pos != x.pos
    ensures Behaves(lp.vm, lp.e, Run(lp.ea, y.pos, m1, k1), RepNext(lp.vm.w, lp.n, lp.cap, lp.back, min, max, x, y),
                    k1, lp.sc)
    decreases min, Rest(lp.vm.w, lp.back, x), 0
  {
    hide Code, Behaves, Exec, Step, Outside, Settled, BodyCorrect, Loaded, Linear, Registers, Out, Iterate, RepNext,
      Rep, RepAll, WellFormed, CountAt, Counting, Good;
    var vm, d, v := lp.vm, lp.sc.depth, count - 1;
    var zs := RepNext(vm.w, lp.n, lp.cap, lp.back, min, max, x, y);
    var more := Iterate(vm.w, lp.n, lp.cap, lp.back, Pred(min), Less(max), y);
    var c := Run(lp.ea, y.pos, m1, k1);
    CountTailStep(lp, chk, limit, exact, sh, count, min, max, x, y, m1, k1);
    NextRound(vm.w, lp.n, lp.cap, lp.back, min, max, x, y);
    if min == 0 && y.pos == x.pos {
      CountingLow(lp, limit, exact, count, max, x);
      BehavesNone(vm, lp.e, k1, lp.sc);
      BehavesStep(vm, lp.e, c, zs, k1, lp.sc);
    } else {
      CountingOn(lp, limit, exact, count, min, max, x, y);
      var m' := m1[2 * vm.ncap + d := Count(v)];
      WriteRegister(lp, y, m1, d, Count(v));
      var forks := v != 0 && v <= limit && lp.n.greedy;
      var k' := if forks then [Frame(Choice, lp.e, y.pos, m')] + k1 else k1;
      if v == 0 {
        assert zs == [y];
        BehavesOne(vm, lp.e, y, m', k1, lp.sc);
        BehavesStep(vm, lp.e, c, zs, k1, lp.sc);
      } else {
        CountCorrect(lp, chk, limit, exact, sh, v, Pred(min), Less(max), y, m', k');
        if v > limit {
          assert zs == more;
          BehavesStep(vm, lp.e, c, zs, k1, lp.sc);
        } else {
          Offer(vm, lp.e, c, sh, y, m', lp.n.greedy, more, k1, lp.sc);
        }
      }
    }
  }

  lemma CountingLow(lp: LoopCode, limit: nat, exact: bool, count: nat, max: Bound, x: State)
    requires x.pos <= |lp.vm.w.text| && Counting(lp, limit, exact, count, 0, max, x)
    ensures count - 1 < limit
  {
  }

  /** The reference's view of the end of an iteration. */
  lemma NextRound(w: World, n: Node, cap: nat, back: bool, min: nat, max: Bound, x: State, y: State)
    requires n.Repeat? && x.pos <= |w.text| && cap + Caps(n) <= |x.caps|
    requires After(w, back, cap, cap + Caps(n), x, y)
    ensures var zs := RepNext(w, n, cap, back, min, max, x, y);
            var more := Iterate(w, n, cap, back, Pred(min), Less(max), y);
            if min == 0 && y.pos == x.pos then zs == []
            else if Less(max) == Finite(0) then zs == [y]
            else if min > 1 then zs == more
            else zs == (if n.greedy then more + [y] else [y] + more)
  {
  }
}
