/** Compiled code behaves as the reference semantics says. */
module Correctness {
  import opened Syntax
  import opened Semantics
  import opened Bytecode
  import opened Compiler
  import opened Elision
  import opened Machine
  import opened Leaves
  import opened Behaviour
  import opened CodeSetup
  import opened Repetition
  import opened QuantifierLoops

  /* ----- nodes without parts ----- */

  lemma GoodAtOnce(vm: Vm, sc: Scope, y: State)
    requires sc.lo == sc.hi
    ensures Good(vm, sc, sc.mem, y)
  {
  }

  /** What the code of one character is, and what it has to do. */
  lemma OneParts(vm: Vm, n: Node, cap: nat, back: bool, d: nat, s: int, x: State, m: seq<Value>, k: seq<Frame>)
    requires n.One? && Setup(vm, n, cap, back, d, s, x, m)
    ensures var op := TestOp(vm.w.canon, n.test);
            && !vm.wide && x.pos <= |vm.w.text| && 2 * vm.ncap <= |m| && ValidTest(n.test)
            && CodeAt(vm.code, s, if back then [Prev, Consume(op), Prev] else [Consume(op)])
            && Out(vm.w, n, cap, back, x) == OneOut(vm.w, n.test, back, x)
            && End(vm, n, cap, back, d, s) == s + OpSize(op) + (if back then 2 else 0)
            && ScopeOf(n, cap, d, m) == Scope(m, cap, cap, d)
  {
    hide TestOp, Entry, Registers, OneOut;
    var op := TestOp(vm.w.canon, n.test);
    BackwardLayout(vm.code, s, op);
    ForwardLayout(vm.code, s, op);
  }

  lemma ForwardLayout(p: Program, s: int, op: CharOp)
    ensures Size([Consume(op)]) == OpSize(op)
    ensures CodeAt(p, s, [Consume(op)]) ==> s in p && p[s] == Consume(op)
  {
    assert [Consume(op)] == [Consume(op)] + [];
    CodeAtCons(p, s, Consume(op), []);
  }

  lemma StepConsume(vm: Vm, pc: int, op: CharOp, pos: nat, m: seq<Value>, k: seq<Frame>)
    requires !vm.wide && pc in vm.code && vm.code[pc] == Consume(op) && pos < |vm.w.text| && 2 * vm.ncap <= |m|
    ensures Step(vm, Run(pc, pos, m, k)) ==
            if Accepts(vm.w, op, vm.w.text[pos]) then Run(pc + OpSize(op), pos + 1, m, k) else Back(k)
  {
    hide Accepts, OpSize;
  }

  lemma StepConsumeEnd(vm: Vm, pc: int, op: CharOp, m: seq<Value>, k: seq<Frame>)
    requires pc in vm.code && vm.code[pc] == Consume(op) && 2 * vm.ncap <= |m|
    ensures Step(vm, Run(pc, |vm.w.text|, m, k)) == Back(k)
  {
    hide Accepts, OpSize;
  }

  lemma StepPrev(vm: Vm, pc: int, pos: nat, m: seq<Value>, k: seq<Frame>)
    requires !vm.wide && pc in vm.code && vm.code[pc] == Prev && pos <= |vm.w.text| && 2 * vm.ncap <= |m|
    ensures Step(vm, Run(pc, pos, m, k)) == if pos == 0 then Back(k) else Run(pc + 1, pos - 1, m, k)
  {
  }

  lemma OneForward(vm: Vm, n: Node, cap: nat, d: nat, s: int, x: State, m: seq<Value>, k: seq<Frame>)
    requires n.One? && Setup(vm, n, cap, false, d, s, x, m)
    ensures Correct(vm, n, cap, false, d, s, x, m, k)
  {
    hide TestOp, OpSize, Entry, Registers, Out, Setup, Frag, Code, CodeAt, Behaves, Step, Good, Accepts, Holds;
    var op, e, sc := TestOp(vm.w.canon, n.test), End(vm, n, cap, false, d, s), ScopeOf(n, cap, d, m);
    OneParts(vm, n, cap, false, d, s, x, m, k);
    var ys := OneOut(vm.w, n.test, false, x);
    ForwardLayout(vm.code, s, op);
    if x.pos < |vm.w.text| {
      TestAgrees(vm.w, n.test, vm.w.text[x.pos]);
      StepConsume(vm, s, op, x.pos, m, k);
    } else {
      StepConsumeEnd(vm, s, op, m, k);
    }
    if ys == [] {
      BehavesNone(vm, e, k, sc);
    } else {
      GoodAtOnce(vm, sc, ys[0]);
      BehavesOne(vm, e, ys[0], m, k, sc);
    }
    BehavesStep(vm, e, Run(s, x.pos, m, k), ys, k, sc);
  }

  lemma OneBackward(vm: Vm, n: Node, cap: nat, d: nat, s: int, x: State, m: seq<Value>, k: seq<Frame>)
    requires n.One? && Setup(vm, n, cap, true, d, s, x, m)
    ensures Correct(vm, n, cap, true, d, s, x, m, k)
  {
    hide TestOp, OpSize, Entry, Registers, Out, Setup, Frag, Code, CodeAt, Behaves, Step, Good, Accepts, Holds;
    var op, e, sc := TestOp(vm.w.canon, n.test), End(vm, n, cap, true, d, s), ScopeOf(n, cap, d, m);
    OneParts(vm, n, cap, true, d, s, x, m, k);
    var ys := OneOut(vm.w, n.test, true, x);
    BackwardLayout(vm.code, s, op);
    StepPrev(vm, s, x.pos, m, k);
    if x.pos == 0 {
      BehavesNone(vm, e, k, sc);
    } else {
      var c1, c2 := Run(s + 1, x.pos - 1, m, k), Run(s + 1 + OpSize(op), x.pos, m, k);
      TestAgrees(vm.w, n.test, vm.w.text[x.pos - 1]);
      StepConsume(vm, s + 1, op, x.pos - 1, m, k);
      StepPrev(vm, s + 1 + OpSize(op), x.pos, m, k);
      if ys == [] {
        BehavesNone(vm, e, k, sc);
      } else {
        GoodAtOnce(vm, sc, ys[0]);
        BehavesOne(vm, e, ys[0], m, k, sc);
        BehavesStep(vm, e, c2, ys, k, sc);
      }
      BehavesStep(vm, e, c1, ys, k, sc);
    }
    BehavesStep(vm, e, Run(s, x.pos, m, k), ys, k, sc);
  }

  lemma BackwardLayout(p: Program, s: int, op: CharOp)
    ensures Size([Prev, Consume(op), Prev]) == OpSize(op) + 2
    ensures CodeAt(p, s, [Prev, Consume(op), Prev]) ==>
              && s in p && p[s] == Prev
              && s + 1 in p && p[s + 1] == Consume(op)
              && s + 1 + OpSize(op) in p && p[s + 1 + OpSize(op)] == Prev
  {
    assert [Prev, Consume(op), Prev] == [Prev] + ([Consume(op)] + ([Prev] + []));
    CodeAtCons(p, s, Prev, [Consume(op)] + ([Prev] + []));
    CodeAtCons(p, s + 1, Consume(op), [Prev] + []);
    CodeAtCons(p, s + 1 + OpSize(op), Prev, []);
  }

  lemma AssertCorrect(vm: Vm, n: Node, cap: nat, back: bool, d: nat, s: int, x: State, m: seq<Value>, k: seq<Frame>)
    requires n.Assert? && Setup(vm, n, cap, back, d, s, x, m)
    ensures Correct(vm, n, cap, back, d, s, x, m, k)
  {
    var e := End(vm, n, cap, back, d, s);
    var sc := ScopeOf(n, cap, d, m);
    assert Size([Test(n.assertion)]) == 1;
    AssertionAgrees(vm, n.assertion, x.pos);
    if AssertionHolds(vm.w, n.assertion, x.pos) {
      GoodAtOnce(vm, sc, x);
      BehavesOne(vm, e, x, m, k, sc);
    } else {
      BehavesNone(vm, e, k, sc);
    }
    BehavesStep(vm, e, Run(s, x.pos, m, k), Out(vm.w, n, cap, back, x), k, sc);
  }

  lemma BackRefCorrect(vm: Vm, n: Node, cap: nat, back: bool, d: nat, s: int, x: State, m: seq<Value>, k: seq<Frame>)
    requires n.BackRef? && Setup(vm, n, cap, back, d, s, x, m)
    ensures Correct(vm, n, cap, back, d, s, x, m, k)
  {
    var e := End(vm, n, cap, back, d, s);
    var sc := ScopeOf(n, cap, d, m);
    assert Size([BackRefs(n.groups, n.icase, back)]) == 2 + |n.groups|;
    BackRefAgrees(vm, n.groups, n.icase, back, x, m);
    var ys := Out(vm.w, n, cap, back, x);
    if ys == [] {
      BehavesNone(vm, e, k, sc);
    } else {
      GoodAtOnce(vm, sc, ys[0]);
      BehavesOne(vm, e, ys[0], m, k, sc);
    }
    BehavesStep(vm, e, Run(s, x.pos, m, k), ys, k, sc);
  }

  lemma EmptyCorrect(vm: Vm, n: Node, cap: nat, back: bool, d: nat, s: int, x: State, m: seq<Value>, k: seq<Frame>)
    requires n.Empty? && Setup(vm, n, cap, back, d, s, x, m)
    ensures Correct(vm, n, cap, back, d, s, x, m, k)
  {
    var sc := ScopeOf(n, cap, d, m);
    GoodAtOnce(vm, sc, x);
    BehavesOne(vm, s, x, m, k, sc);
  }

  /* ----- concatenation ----- */

  ghost function LeadScope(n: Node, cap: nat, back: bool, d: nat, m: seq<Value>): Scope
    requires n.Cat?
  {
    ScopeOf(Lead(n, back), LeadCap(n, cap, back), d, m)
  }

  ghost function Mid(vm: Vm, n: Node, cap: nat, back: bool, d: nat, s: int): int
    requires n.Cat?
  {
    End(vm, Lead(n, back), LeadCap(n, cap, back), back, d, s)
  }

  lemma CatLayout(vm: Vm, n: Node, cap: nat, back: bool, d: nat, s: int)
    requires n.Cat? && Loaded(vm, n, cap, back, d, s)
    ensures Loaded(vm, Lead(n, back), LeadCap(n, cap, back), back, d, s)
    ensures Loaded(vm, Trail(n, back), TrailCap(n, cap, back), back, d, Mid(vm, n, cap, back, d, s))
    ensures End(vm, n, cap, back, d, s)
              == End(vm, Trail(n, back), TrailCap(n, cap, back), back, d, Mid(vm, n, cap, back, d, s))
  {
    hide Code, CodeAt, Wrap;
    var g := vm.w.canon;
    CodeAtConcat(vm.code, s, Frag(g, Lead(n, back), LeadCap(n, cap, back), back, d),
                 Frag(g, Trail(n, back), TrailCap(n, cap, back), back, d));
  }

  lemma CatRegisters(g: Canon, n: Node, cap: nat, back: bool)
    requires n.Cat?
    ensures Registers(g, Lead(n, back), LeadCap(n, cap, back), back) <= Registers(g, n, cap, back)
    ensures Registers(g, Trail(n, back), TrailCap(n, cap, back), back) <= Registers(g, n, cap, back)
  {
    hide Code;
  }

  lemma CatLeadSetup(vm: Vm, n: Node, cap: nat, back: bool, d: nat, s: int, x: State, m: seq<Value>)
    requires n.Cat? && Setup(vm, n, cap, back, d, s, x, m)
    ensures Setup(vm, Lead(n, back), LeadCap(n, cap, back), back, d, s, x, m)
  {
    hide Frag, Code, CodeAt, Wrap, Registers;
    CatRegisters(vm.w.canon, n, cap, back);
    CatLayout(vm, n, cap, back, d, s);
    var lead, lc := Lead(n, back), LeadCap(n, cap, back);
    if Linear(lead) {
      forall k | lc <= k < lc + Caps(lead) && !AlwaysSets(lead, lc, k)
        ensures m[2 * k] == Unset && m[2 * k + 1] == Unset
      {
        if AlwaysSets(Trail(n, back), TrailCap(n, cap, back), k) {
          AlwaysSetsInside(Trail(n, back), TrailCap(n, cap, back), k);
        }
      }
    } else {
      SmallerRange(vm, m, x, cap, cap + Caps(n), lc, lc + Caps(lead));
    }
  }

  /** After an outcome of the first half the second half may be entered. */
  lemma CatTrailEntry(vm: Vm, n: Node, cap: nat, back: bool, d: nat, x: State, m: seq<Value>, y: State, m1: seq<Value>)
    requires n.Cat? && cap + Caps(n) <= vm.ncap && 2 * vm.ncap <= |m| && |x.caps| == vm.ncap
    requires Entry(vm, n, cap, x, m)
    requires var lc := LeadCap(n, cap, back); After(vm.w, back, lc, lc + Caps(Lead(n, back)), x, y)
    requires Good(vm, LeadScope(n, cap, back, d, m), m1, y)
    ensures |m1| == |m| && |y.caps| == vm.ncap && Entry(vm, Trail(n, back), TrailCap(n, cap, back), y, m1)
  {
    hide *;
    if Linear(Trail(n, back)) {
      LinearTrailEntry(vm, n, cap, back, d, x, m, y, m1);
    } else {
      OtherTrailEntry(vm, n, cap, back, d, x, m, y, m1);
    }
  }

  lemma LinearTrailEntry(vm: Vm, n: Node, cap: nat, back: bool, d: nat, x: State, m: seq<Value>, y: State,
                         m1: seq<Value>)
    requires n.Cat? && cap + Caps(n) <= vm.ncap && 2 * vm.ncap <= |m| && |x.caps| == vm.ncap
    requires Entry(vm, n, cap, x, m) && Linear(Trail(n, back))
    requires var lc := LeadCap(n, cap, back); After(vm.w, back, lc, lc + Caps(Lead(n, back)), x, y)
    requires Good(vm, LeadScope(n, cap, back, d, m), m1, y)
    ensures |m1| == |m| && |y.caps| == vm.ncap && Entry(vm, Trail(n, back), TrailCap(n, cap, back), y, m1)
  {
    hide AlwaysSets, Linear, Caps, Trail, Lead, TrailCap, LeadCap, Outside;
    CatHalves(n, cap, back);
    var trail, tc := Trail(n, back), TrailCap(n, cap, back);
    var lead, lc := Lead(n, back), LeadCap(n, cap, back);
    forall k | tc <= k < tc + Caps(trail) && !AlwaysSets(trail, tc, k)
      ensures m1[2 * k] == Unset && m1[2 * k + 1] == Unset
    {
      if AlwaysSets(lead, lc, k) { AlwaysSetsInside(lead, lc, k); }
      assert m1[2 * k] == m[2 * k] && m1[2 * k + 1] == m[2 * k + 1];
    }
  }

  /** The two terms share the groups between them. */
  lemma CatHalves(n: Node, cap: nat, back: bool)
    requires n.Cat?
    ensures var lead, trail := Caps(Lead(n, back)), Caps(Trail(n, back));
            var lc, tc := LeadCap(n, cap, back), TrailCap(n, cap, back);
            && Caps(n) == lead + trail
            && ((lc == cap && tc == cap + lead) || (tc == cap && lc == cap + trail))
    ensures Linear(n) == (Linear(Lead(n, back)) && Linear(Trail(n, back)))
    ensures forall k: nat :: AlwaysSets(n, cap, k)
              == (AlwaysSets(Lead(n, back), LeadCap(n, cap, back), k)
                  || AlwaysSets(Trail(n, back), TrailCap(n, cap, back), k))
  {
  }

  lemma OtherTrailEntry(vm: Vm, n: Node, cap: nat, back: bool, d: nat, x: State, m: seq<Value>, y: State,
                        m1: seq<Value>)
    requires n.Cat? && cap + Caps(n) <= vm.ncap && 2 * vm.ncap <= |m| && |x.caps| == vm.ncap
    requires Entry(vm, n, cap, x, m) && !Linear(Trail(n, back))
    requires var lc := LeadCap(n, cap, back); After(vm.w, back, lc, lc + Caps(Lead(n, back)), x, y)
    requires Good(vm, LeadScope(n, cap, back, d, m), m1, y)
    ensures |m1| == |m| && |y.caps| == vm.ncap && Entry(vm, Trail(n, back), TrailCap(n, cap, back), y, m1)
  {
    hide AlwaysSets, Linear, Caps, Trail, Lead, TrailCap, LeadCap, Outside;
    CatHalves(n, cap, back);
    var trail, tc := Trail(n, back), TrailCap(n, cap, back);
    OutsideAfter(vm, ScopeOf(Lead(n, back), LeadCap(n, cap, back), d, m), m1, x, y, cap, cap + Caps(n), tc,
                 tc + Caps(trail));
    forall k | tc <= k < tc + Caps(trail) ensures m1[2 * k] == Unset && m1[2 * k + 1] == Unset {
      assert m1[2 * k] == m[2 * k] && m1[2 * k + 1] == m[2 * k + 1];
    }
  }

  lemma CatWidens(vm: Vm, n: Node, cap: nat, back: bool, d: nat, m: seq<Value>, y: State, m1: seq<Value>,
                  zs: seq<State>)
    requires n.Cat? && cap + Caps(n) <= vm.ncap == |y.caps|
    requires Good(vm, LeadScope(n, cap, back, d, m), m1, y)
    requires var tc := TrailCap(n, cap, back); AllAfter(vm.w, back, tc, tc + Caps(Trail(n, back)), y, zs)
    ensures Widens(vm, ScopeOf(Trail(n, back), TrailCap(n, cap, back), d, m1), ScopeOf(n, cap, d, m), zs)
  {
    var trail, tc := Trail(n, back), TrailCap(n, cap, back);
    forall i, m2 | 0 <= i < |zs| && Good(vm, ScopeOf(trail, tc, d, m1), m2, zs[i])
      ensures Good(vm, ScopeOf(n, cap, d, m), m2, zs[i])
    {
      assert After(vm.w, back, tc, tc + Caps(trail), y, zs[i]);
      forall k | cap <= k < cap + Caps(n) && 2 * k + 1 < |m2|
        ensures HoldsSpan(m2[2 * k], m2[2 * k + 1], zs[i].caps[k])
      {
        if !(tc <= k < tc + Caps(trail)) {
          assert m2[2 * k] == m1[2 * k] && m2[2 * k + 1] == m1[2 * k + 1];
        }
      }
    }
  }

  ghost function TrailOuts(vm: Vm, n: Node, cap: nat, back: bool, lo: nat, hi: nat, x: State,
                           ys: seq<State>): (zss: seq<seq<State>>)
    requires n.Cat? && hi <= |x.caps| && cap + Caps(n) <= hi && lo <= cap
    requires AllAfter(vm.w, back, lo, hi, x, ys)
    ensures |zss| == |ys|
    ensures forall i :: 0 <= i < |ys| ==> zss[i] == Out(vm.w, Trail(n, back), TrailCap(n, cap, back), back, ys[i])
    ensures Flatten(zss) == OutAll(vm.w, Trail(n, back), TrailCap(n, cap, back), back, lo, hi, x, ys)
    decreases |ys|
  {
    if ys == [] then []
    else [Out(vm.w, Trail(n, back), TrailCap(n, cap, back), back, ys[0])]
         + TrailOuts(vm, n, cap, back, lo, hi, x, ys[1..])
  }

  lemma {:induction false} CatCorrect(vm: Vm, n: Node, cap: nat, back: bool, d: nat, s: int, x: State, m: seq<Value>,
                                      k: seq<Frame>)
    requires n.Cat? && Setup(vm, n, cap, back, d, s, x, m)
    ensures Correct(vm, n, cap, back, d, s, x, m, k)
    decreases n, 0
  {
    hide Frag, Code, CodeAt, WellFormed, BoundsKept, Registers, Entry, Behaves, Good, Wrap, Carries, OutAll, Rep,
      FirstSet, AssertionHolds, BackRefOut, OneOut, Out;
    var lead, lc := Lead(n, back), LeadCap(n, cap, back);
    var mid, e, sc := Mid(vm, n, cap, back, d, s), End(vm, n, cap, back, d, s), ScopeOf(n, cap, d, m);
    CatLeadSetup(vm, n, cap, back, d, s, x, m);
    NodeCorrect(vm, lead, lc, back, d, s, x, m, k);
    var ys := Out(vm.w, lead, lc, back, x);
    var zss := TrailOuts(vm, n, cap, back, cap, cap + Caps(n), x, ys);
    CatCarries(vm, n, cap, back, d, s, x, m, ys, zss);
    Bind(vm, mid, e, Run(s, x.pos, m, k), ys, zss, k, LeadScope(n, cap, back, d, m), sc);
    OutOfCat(vm.w, n, cap, back, x);
  }

  lemma {:induction false} CatCarries(vm: Vm, n: Node, cap: nat, back: bool, d: nat, s: int, x: State, m: seq<Value>,
                                      ys: seq<State>, zss: seq<seq<State>>)
    requires n.Cat? && Setup(vm, n, cap, back, d, s, x, m) && |zss| == |ys|
    requires var lc := LeadCap(n, cap, back); AllAfter(vm.w, back, lc, lc + Caps(Lead(n, back)), x, ys)
    requires forall i :: 0 <= i < |ys| ==>
               && ys[i].pos <= |vm.w.text| && TrailCap(n, cap, back) + Caps(Trail(n, back)) <= |ys[i].caps|
               && zss[i] == Out(vm.w, Trail(n, back), TrailCap(n, cap, back), back, ys[i])
    ensures Carries(vm, Mid(vm, n, cap, back, d, s), End(vm, n, cap, back, d, s), ys, zss,
                    LeadScope(n, cap, back, d, m), ScopeOf(n, cap, d, m))
    decreases n, 0, 1
  {
    hide Frag, Code, CodeAt, WellFormed, BoundsKept, Registers, Entry, Behaves, Good, Wrap, Out, Mid, End, After;
    forall i, m1, k | 0 <= i < |ys| && Good(vm, LeadScope(n, cap, back, d, m), m1, ys[i])
      ensures Behaves(vm, End(vm, n, cap, back, d, s), Run(Mid(vm, n, cap, back, d, s), ys[i].pos, m1, k), zss[i], k,
                      ScopeOf(n, cap, d, m))
    {
      CatTrailRuns(vm, n, cap, back, d, s, x, m, ys[i], m1, k);
    }
  }

  /** The second term to run takes over wherever the first one has succeeded. */
  lemma {:induction false} CatTrailRuns(vm: Vm, n: Node, cap: nat, back: bool, d: nat, s: int, x: State,
                                        m: seq<Value>, y: State, m1: seq<Value>, k1: seq<Frame>)
    requires n.Cat? && Setup(vm, n, cap, back, d, s, x, m)
    requires var lc := LeadCap(n, cap, back); After(vm.w, back, lc, lc + Caps(Lead(n, back)), x, y)
    requires Good(vm, LeadScope(n, cap, back, d, m), m1, y)
    ensures Behaves(vm, End(vm, n, cap, back, d, s), Run(Mid(vm, n, cap, back, d, s), y.pos, m1, k1),
                    Out(vm.w, Trail(n, back), TrailCap(n, cap, back), back, y), k1, ScopeOf(n, cap, d, m))
    decreases n, 0, 0
  {
    hide Frag, Code, CodeAt, WellFormed, BoundsKept, Registers, Entry, Behaves, Good, Wrap, Widens, Out;
    var trail, tc := Trail(n, back), TrailCap(n, cap, back);
    var mid, e := Mid(vm, n, cap, back, d, s), End(vm, n, cap, back, d, s);
    var zs := Out(vm.w, trail, tc, back, y);
    CatRegisters(vm.w.canon, n, cap, back);
    CatLayout(vm, n, cap, back, d, s);
    CatTrailEntry(vm, n, cap, back, d, x, m, y, m1);
    NodeCorrect(vm, trail, tc, back, d, mid, y, m1, k1);
    CatWidens(vm, n, cap, back, d, m, y, m1, zs);
    Rescope(vm, e, Run(mid, y.pos, m1, k1), zs, k1, ScopeOf(trail, tc, d, m1), ScopeOf(n, cap, d, m));
  }

  /* ----- alternatives ----- */

  ghost function AltSecond(vm: Vm, n: Node, cap: nat, back: bool, d: nat, s: int): int
    requires n.Alt?
  {
    End(vm, n.left, cap, back, d, s + 5) + 5
  }

  lemma AltLayout(vm: Vm, n: Node, cap: nat, back: bool, d: nat, s: int)
    requires n.Alt? && Loaded(vm, n, cap, back, d, s)
    ensures var sg, sb := End(vm, n.left, cap, back, d, s + 5), AltSecond(vm, n, cap, back, d, s);
            var e := End(vm, n, cap, back, d, s);
            && s in vm.code && vm.code[s] == Split(true, sb - (s + 5))
            && Loaded(vm, n.left, cap, back, d, s + 5)
            && sg in vm.code && vm.code[sg] == Goto(e - sb)
            && Loaded(vm, n.right, cap + Caps(n.left), back, d, sb)
            && e == End(vm, n.right, cap + Caps(n.left), back, d, sb)
  {
    hide Code, CodeAt, Wrap, Frag;
    FragOfAlt(vm.w.canon, n, cap, back, d);
    var a := Frag(vm.w.canon, n.left, cap, back, d);
    var b := Frag(vm.w.canon, n.right, cap + Caps(n.left), back, d);
    var split, goto := Split(true, Size(a) + 5), Goto(Size(b));
    AltSize(split, a, goto, b);
    assert [split] + a + [goto] + b == [split] + (a + ([goto] + b));
    CodeAtCons(vm.code, s, split, a + ([goto] + b));
    CodeAtConcat(vm.code, s + 5, a, [goto] + b);
    CodeAtCons(vm.code, s + 5 + Size(a), goto, b);
  }

  lemma AltSize(split: Instr, a: seq<Instr>, goto: Instr, b: seq<Instr>)
    requires split.Split? && goto.Goto?
    ensures Size([split] + a + [goto] + b) == Size(a) + Size(b) + 10
  {
    SizeConcat([split] + a + [goto], b);
    SizeConcat([split] + a, [goto]);
    SizeConcat([split], a);
  }

  lemma AltRegisters(g: Canon, n: Node, cap: nat, back: bool)
    requires n.Alt?
    ensures Registers(g, n.left, cap, back) <= Registers(g, n, cap, back)
    ensures Registers(g, n.right, cap + Caps(n.left), back) <= Registers(g, n, cap, back)
  {
    hide Code;
  }

  lemma {:induction false} PassOn(vm: Vm, mid: int, e: int, c: Conf, ys: seq<State>, k: seq<Frame>, sc: Scope,
                                  sc': Scope)
    requires Passes(vm, mid, e) && Widens(vm, sc, sc', ys)
    requires 2 * vm.ncap <= |sc.mem|
    requires forall i :: 0 <= i < |ys| ==> ys[i].pos <= |vm.w.text|
    requires Behaves(vm, mid, c, ys, k, sc)
    ensures Behaves(vm, e, c, ys, k, sc')
    decreases |ys|
  {
    if ys != [] {
      var k1, m1 :| Arrives(vm, mid, c, ys, k, sc, k1, m1);
      forall i, m | 0 <= i < |ys[1..]| && Good(vm, sc, m, ys[1..][i]) ensures Good(vm, sc', m, ys[1..][i]) {
        assert ys[1..][i] == ys[i + 1];
      }
      PassOn(vm, mid, e, Back(k1 + k), ys[1..], k, sc, sc');
      var c1 := Run(mid, ys[0].pos, m1, k1 + k);
      assert Step(vm, c1) == Run(e, ys[0].pos, m1, k1 + k);
      ReachesSelf(vm, Step(vm, c1));
      ReachesStep(vm, c1, Step(vm, c1));
      ReachesTrans(vm, c, c1, Step(vm, c1));
      assert Good(vm, sc', m1, ys[0]);
      assert Arrives(vm, e, c, ys, k, sc', k1, m1);
    }
  }

  /** Exactness extends to groups that neither the code nor the reference touched. */
  lemma FreshWidens(vm: Vm, m: seq<Value>, x: State, back: bool, lo: nat, hi: nat, lo': nat, hi': nat, d: nat,
                    d': nat, ys: seq<State>)
    requires lo' <= lo && hi <= hi' <= vm.ncap == |x.caps| && d' <= d && 2 * vm.ncap <= |m|
    requires Fresh(m, lo', hi')
    requires forall k :: lo' <= k < hi' ==> x.caps[k] == None
    requires AllAfter(vm.w, back, lo, hi, x, ys)
    ensures Widens(vm, Scope(m, lo, hi, d), Scope(m, lo', hi', d'), ys)
  {
    forall i, m1 | 0 <= i < |ys| && Good(vm, Scope(m, lo, hi, d), m1, ys[i])
      ensures Good(vm, Scope(m, lo', hi', d'), m1, ys[i])
    {
      assert After(vm.w, back, lo, hi, x, ys[i]);
      forall k | lo' <= k < hi' && 2 * k + 1 < |m1| ensures HoldsSpan(m1[2 * k], m1[2 * k + 1], ys[i].caps[k]) {
        if !(lo <= k < hi) {
          assert m1[2 * k] == m[2 * k] && m1[2 * k + 1] == m[2 * k + 1];
        }
      }
    }
  }

  lemma PartEntry(vm: Vm, n: Node, cap: nat, part: Node, cap': nat, x: State, m: seq<Value>)
    requires cap + Caps(n) <= vm.ncap && 2 * vm.ncap <= |m| && |x.caps| == vm.ncap
    requires cap <= cap' && cap' + Caps(part) <= cap + Caps(n)
    requires !Linear(n) && Entry(vm, n, cap, x, m)
    ensures Entry(vm, part, cap', x, m)
  {
    SmallerRange(vm, m, x, cap, cap + Caps(n), cap', cap' + Caps(part));
  }

  lemma AltSetups(vm: Vm, n: Node, cap: nat, back: bool, d: nat, s: int, x: State, m: seq<Value>)
    requires n.Alt? && Setup(vm, n, cap, back, d, s, x, m)
    ensures Setup(vm, n.left, cap, back, d, s + 5, x, m)
    ensures Setup(vm, n.right, cap + Caps(n.left), back, d, AltSecond(vm, n, cap, back, d, s), x, m)
  {
    hide Frag, Code, CodeAt, WellFormed, BoundsKept, Registers, End;
    AltLayout(vm, n, cap, back, d, s);
    AltRegisters(vm.w.canon, n, cap, back);
    PartEntry(vm, n, cap, n.left, cap, x, m);
    PartEntry(vm, n, cap, n.right, cap + Caps(n.left), x, m);
  }

  lemma EntryOfOther(vm: Vm, n: Node, cap: nat, x: State, m: seq<Value>)
    requires cap + Caps(n) <= vm.ncap && 2 * vm.ncap <= |m| && |x.caps| == vm.ncap
    requires !Linear(n) && Entry(vm, n, cap, x, m)
    ensures Fresh(m, cap, cap + Caps(n)) && Outside(vm, m, x, cap, cap + Caps(n))
    ensures forall k :: cap <= k < cap + Caps(n) ==> x.caps[k] == None
  {
    hide Fresh, Outside, Linear, Caps, AlwaysSets;
  }

  /** An outcome of either alternative is an outcome of the whole. */
  lemma PartWidens(vm: Vm, n: Node, cap: nat, back: bool, d: nat, x: State, m: seq<Value>, part: Node, cap': nat)
    requires cap + Caps(n) <= vm.ncap && 2 * vm.ncap <= |m| && |x.caps| == vm.ncap && x.pos <= |vm.w.text|
    requires cap <= cap' && cap' + Caps(part) <= cap + Caps(n)
    requires !Linear(n) && Entry(vm, n, cap, x, m)
    ensures Widens(vm, ScopeOf(part, cap', d, m), ScopeOf(n, cap, d, m), Out(vm.w, part, cap', back, x))
  {
    hide Good, Outside, Fresh, Linear, Caps, Entry, Widens, Out;
    EntryOfOther(vm, n, cap, x, m);
    FreshWidens(vm, m, x, back, cap', cap' + Caps(part), cap, cap + Caps(n), d, d, Out(vm.w, part, cap', back, x));
  }

  lemma {:induction false} AltFirst(vm: Vm, n: Node, cap: nat, back: bool, d: nat, s: int, x: State, m: seq<Value>,
                                    k: seq<Frame>)
    requires n.Alt? && Setup(vm, n, cap, back, d, s, x, m)
    ensures Behaves(vm, End(vm, n, cap, back, d, s), Run(s + 5, x.pos, m, k), Out(vm.w, n.left, cap, back, x), k,
                    ScopeOf(n, cap, d, m))
    decreases n, 0
  {
    hide Frag, Code, CodeAt, WellFormed, BoundsKept, Registers, Behaves, Good, Exec, Step, Passes, Widens, End;
    var sg, e := End(vm, n.left, cap, back, d, s + 5), End(vm, n, cap, back, d, s);
    AltSetups(vm, n, cap, back, d, s, x, m);
    AltLayout(vm, n, cap, back, d, s);
    StepGoto(vm, sg, e);
    PartWidens(vm, n, cap, back, d, x, m, n.left, cap);
    NodeCorrect(vm, n.left, cap, back, d, s + 5, x, m, k);
    PassOn(vm, sg, e, Run(s + 5, x.pos, m, k), Out(vm.w, n.left, cap, back, x), k, ScopeOf(n.left, cap, d, m),
           ScopeOf(n, cap, d, m));
  }

  lemma {:induction false} AltRest(vm: Vm, n: Node, cap: nat, back: bool, d: nat, s: int, x: State, m: seq<Value>,
                                   k: seq<Frame>)
    requires n.Alt? && Setup(vm, n, cap, back, d, s, x, m)
    ensures Behaves(vm, End(vm, n, cap, back, d, s), Run(AltSecond(vm, n, cap, back, d, s), x.pos, m, k),
                    Out(vm.w, n.right, cap + Caps(n.left), back, x), k, ScopeOf(n, cap, d, m))
    decreases n, 0
  {
    hide Frag, Code, CodeAt, WellFormed, BoundsKept, Registers, Behaves, Good, Exec, Step, Widens, End;
    var cap2, sb, e := cap + Caps(n.left), AltSecond(vm, n, cap, back, d, s), End(vm, n, cap, back, d, s);
    AltSetups(vm, n, cap, back, d, s, x, m);
    AltLayout(vm, n, cap, back, d, s);
    PartWidens(vm, n, cap, back, d, x, m, n.right, cap2);
    NodeCorrect(vm, n.right, cap2, back, d, sb, x, m, k);
    Rescope(vm, e, Run(sb, x.pos, m, k), Out(vm.w, n.right, cap2, back, x), k, ScopeOf(n.right, cap2, d, m),
            ScopeOf(n, cap, d, m));
  }

  lemma {:induction false} AltCorrect(vm: Vm, n: Node, cap: nat, back: bool, d: nat, s: int, x: State, m: seq<Value>,
                                      k: seq<Frame>)
    requires n.Alt? && Setup(vm, n, cap, back, d, s, x, m)
    ensures Correct(vm, n, cap, back, d, s, x, m, k)
    decreases n, 1
  {
    hide Frag, Code, CodeAt, WellFormed, BoundsKept, Registers, Behaves, Good, Exec, Step, Entry, End;
    var sb, e, sc := AltSecond(vm, n, cap, back, d, s), End(vm, n, cap, back, d, s), ScopeOf(n, cap, d, m);
    var f := Frame(Choice, sb, x.pos, m);
    var ys, zs := Out(vm.w, n.left, cap, back, x), Out(vm.w, n.right, cap + Caps(n.left), back, x);
    AltLayout(vm, n, cap, back, d, s);
    AltFirst(vm, n, cap, back, d, s, x, m, [f] + k);
    AltRest(vm, n, cap, back, d, s, x, m, k);
    StepBack(vm, f, k);
    BehavesStep(vm, e, Back([f] + k), zs, k, sc);
    BehavesAppend(vm, e, Run(s + 5, x.pos, m, [f] + k), ys, zs, [f], k, sc);
    StepSplit(vm, s, x.pos, m, k);
    BehavesStep(vm, e, Run(s, x.pos, m, k), ys + zs, k, sc);
  }

  /* ----- groups ----- */

  lemma GroupLayout(vm: Vm, n: Node, cap: nat, back: bool, d: nat, s: int)
    requires n.Group? && Loaded(vm, n, cap, back, d, s)
    ensures var se, e := End(vm, n.body, cap + 1, back, d, s + 2), End(vm, n, cap, back, d, s);
            && s in vm.code && vm.code[s] == Save(back, cap)
            && Loaded(vm, n.body, cap + 1, back, d, s + 2)
            && se in vm.code && vm.code[se] == Save(!back, cap)
            && e == se + 2
    ensures Registers(vm.w.canon, n.body, cap + 1, back) == Registers(vm.w.canon, n, cap, back)
  {
    hide Code, CodeAt, Wrap;
    var a := Frag(vm.w.canon, n.body, cap + 1, back, d);
    assert [Save(back, cap)] + a + [Save(!back, cap)] == [Save(back, cap)] + (a + ([Save(!back, cap)] + []));
    CodeAtCons(vm.code, s, Save(back, cap), a + ([Save(!back, cap)] + []));
    CodeAtConcat(vm.code, s + 2, a, [Save(!back, cap)] + []);
    CodeAtCons(vm.code, s + 2 + Size(a), Save(!back, cap), []);
  }

  /** The slot a group fills on entry. */
  function Opened(cap: nat, back: bool, x: State, m: seq<Value>): seq<Value>
    requires 2 * cap + 1 < |m|
  {
    m[2 * cap + Num(back) := At(x.pos)]
  }

  lemma GroupEntry(vm: Vm, n: Node, cap: nat, back: bool, x: State, m: seq<Value>)
    requires n.Group? && cap + Caps(n) <= vm.ncap && 2 * vm.ncap <= |m| && |x.caps| == vm.ncap
    requires Entry(vm, n, cap, x, m)
    ensures Entry(vm, n.body, cap + 1, x, Opened(cap, back, x, m))
  {
    var m0 := Opened(cap, back, x, m);
    forall k | cap + 1 <= k < vm.ncap ensures m0[2 * k] == m[2 * k] && m0[2 * k + 1] == m[2 * k + 1] {
    }
    if !Linear(n) {
      forall k | 0 <= k < vm.ncap && !(cap + 1 <= k < cap + Caps(n))
        ensures WeakSpan(m0[2 * k], m0[2 * k + 1], x.caps[k])
      {
        if k != cap {
          assert m0[2 * k] == m[2 * k] && m0[2 * k + 1] == m[2 * k + 1];
        }
      }
    }
  }

  lemma GroupGood(vm: Vm, n: Node, cap: nat, back: bool, d: nat, x: State, m: seq<Value>, y: State, m1: seq<Value>)
    requires n.Group? && cap + Caps(n) <= vm.ncap && 2 * vm.ncap <= |m| && |y.caps| == vm.ncap
    requires Good(vm, Scope(Opened(cap, back, x, m), cap + 1, cap + Caps(n), d), m1, y)
    ensures |m1| == |m|
    ensures Good(vm, ScopeOf(n, cap, d, m), m1[2 * cap + Num(!back) := At(y.pos)], Close(cap, back, x, y))
  {
    var m0, m2, z := Opened(cap, back, x, m), m1[2 * cap + Num(!back) := At(y.pos)], Close(cap, back, x, y);
    assert m1[2 * cap] == m0[2 * cap] && m1[2 * cap + 1] == m0[2 * cap + 1];
    forall k | cap <= k < cap + Caps(n) && 2 * k + 1 < |m2| ensures HoldsSpan(m2[2 * k], m2[2 * k + 1], z.caps[k]) {
      if k != cap {
        assert HoldsSpan(m1[2 * k], m1[2 * k + 1], y.caps[k]);
      }
    }
  }

  function Singles(ys: seq<State>): (zss: seq<seq<State>>)
    ensures |zss| == |ys|
    ensures forall i :: 0 <= i < |ys| ==> zss[i] == [ys[i]]
    ensures Flatten(zss) == ys
  {
    if ys == [] then [] else [[ys[0]]] + Singles(ys[1..])
  }

  /** Leaving the group after an outcome of its body. */
  lemma GroupCloses(vm: Vm, n: Node, cap: nat, back: bool, d: nat, se: int, x: State, m: seq<Value>, y: State,
                    m1: seq<Value>, k: seq<Frame>)
    requires n.Group? && cap + Caps(n) <= vm.ncap == |y.caps| && 2 * vm.ncap <= |m| && y.pos <= |vm.w.text|
    requires se in vm.code && vm.code[se] == Save(!back, cap)
    requires Good(vm, Scope(Opened(cap, back, x, m), cap + 1, cap + Caps(n), d), m1, y)
    ensures Behaves(vm, se + 2, Run(se, y.pos, m1, k), [Close(cap, back, x, y)], k, ScopeOf(n, cap, d, m))
  {
    hide Behaves, Good, Exec, Step;
    var z, sc := Close(cap, back, x, y), ScopeOf(n, cap, d, m);
    GroupGood(vm, n, cap, back, d, x, m, y, m1);
    StepSave(vm, se, y.pos, m1, k);
    BehavesOne(vm, se + 2, z, m1[2 * cap + Num(!back) := At(y.pos)], k, sc);
    BehavesStep(vm, se + 2, Run(se, y.pos, m1, k), [z], k, sc);
  }

  lemma GroupSetup(vm: Vm, n: Node, cap: nat, back: bool, d: nat, s: int, x: State, m: seq<Value>)
    requires n.Group? && Setup(vm, n, cap, back, d, s, x, m)
    ensures Setup(vm, n.body, cap + 1, back, d, s + 2, x, Opened(cap, back, x, m))
  {
    hide Frag, Code, CodeAt, WellFormed, BoundsKept, Entry, End;
    GroupLayout(vm, n, cap, back, d, s);
    GroupEntry(vm, n, cap, back, x, m);
  }

  lemma GroupCarries(vm: Vm, n: Node, cap: nat, back: bool, d: nat, se: int, x: State, m: seq<Value>, ys: seq<State>)
    requires n.Group? && cap + Caps(n) <= vm.ncap == |x.caps| && 2 * vm.ncap <= |m|
    requires se in vm.code && vm.code[se] == Save(!back, cap)
    requires AllAfter(vm.w, back, cap + 1, cap + Caps(n), x, ys)
    ensures Carries(vm, se, se + 2, ys, Singles(CloseAll(cap, back, x, ys)),
                    Scope(Opened(cap, back, x, m), cap + 1, cap + Caps(n), d), ScopeOf(n, cap, d, m))
  {
    hide Behaves, Good, Close, Opened;
    var zss, sb := Singles(CloseAll(cap, back, x, ys)), Scope(Opened(cap, back, x, m), cap + 1, cap + Caps(n), d);
    forall i, m1, k | 0 <= i < |ys| && Good(vm, sb, m1, ys[i])
      ensures Behaves(vm, se + 2, Run(se, ys[i].pos, m1, k), zss[i], k, ScopeOf(n, cap, d, m))
    {
      assert After(vm.w, back, cap + 1, cap + Caps(n), x, ys[i]);
      GroupCloses(vm, n, cap, back, d, se, x, m, ys[i], m1, k);
    }
  }

  lemma {:induction false} GroupCorrect(vm: Vm, n: Node, cap: nat, back: bool, d: nat, s: int, x: State,
                                        m: seq<Value>, k: seq<Frame>)
    requires n.Group? && Setup(vm, n, cap, back, d, s, x, m)
    ensures Correct(vm, n, cap, back, d, s, x, m, k)
    decreases n, 1
  {
    hide Frag, Code, CodeAt, WellFormed, BoundsKept, Registers, Behaves, Good, Wrap, Exec, Step, Entry, End, Close,
      OutAll, Rep, FirstSet, AssertionHolds, BackRefOut, OneOut;
    var se, e, sc := End(vm, n.body, cap + 1, back, d, s + 2), End(vm, n, cap, back, d, s), ScopeOf(n, cap, d, m);
    var m0 := Opened(cap, back, x, m);
    var c1 := Run(s + 2, x.pos, m0, k);
    GroupLayout(vm, n, cap, back, d, s);
    GroupSetup(vm, n, cap, back, d, s, x, m);
    NodeCorrect(vm, n.body, cap + 1, back, d, s + 2, x, m0, k);
    var ys := Out(vm.w, n.body, cap + 1, back, x);
    var zs := CloseAll(cap, back, x, ys);
    var sb := ScopeOf(n.body, cap + 1, d, m0);
    GroupCarries(vm, n, cap, back, d, se, x, m, ys);
    Bind(vm, se, e, c1, ys, Singles(zs), k, sb, sc);
    StepSave(vm, s, x.pos, m, k);
    BehavesStep(vm, e, Run(s, x.pos, m, k), zs, k, sc);
  }

  /* ----- lookaround ----- */

  lemma LookLayout(vm: Vm, n: Node, cap: nat, back: bool, d: nat, s: int)
    requires n.Look? && Loaded(vm, n, cap, back, d, s)
    ensures var se, e := End(vm, n.body, cap, n.behind, d, s + 5), End(vm, n, cap, back, d, s);
            && s in vm.code && vm.code[s] == LookStart(n.negative, e - (s + 5))
            && Loaded(vm, n.body, cap, n.behind, d, s + 5)
            && se in vm.code && vm.code[se] == LookMatch(n.negative)
            && e == se + 1
    ensures Registers(vm.w.canon, n.body, cap, n.behind) == Registers(vm.w.canon, n, cap, back)
  {
    hide Code, CodeAt, Wrap;
    var a := Frag(vm.w.canon, n.body, cap, n.behind, d);
    var start, end := LookStart(n.negative, Size(a) + 1), LookMatch(n.negative);
    assert [start] + a + [end] == [start] + (a + ([end] + []));
    CodeAtCons(vm.code, s, start, a + ([end] + []));
    CodeAtConcat(vm.code, s + 5, a, [end] + []);
    CodeAtCons(vm.code, s + 5 + Size(a), end, []);
  }

  lemma {:induction false} LookCorrect(vm: Vm, n: Node, cap: nat, back: bool, d: nat, s: int, x: State, m: seq<Value>,
                                       k: seq<Frame>)
    requires n.Look? && Setup(vm, n, cap, back, d, s, x, m)
    ensures Correct(vm, n, cap, back, d, s, x, m, k)
    decreases n, 0
  {
    hide Frag, Code, CodeAt, WellFormed, BoundsKept, Registers, Good, Wrap, Exec, Step, Behaves, Arrives;
    var se, e, sc := End(vm, n.body, cap, n.behind, d, s + 5), End(vm, n, cap, back, d, s), ScopeOf(n, cap, d, m);
    var f := Frame(if n.negative then NotAhead else Ahead, e, x.pos, m);
    var c0, c1 := Run(s, x.pos, m, k), Run(s + 5, x.pos, m, [f] + k);
    LookLayout(vm, n, cap, back, d, s);
    StepLook(vm, s, x.pos, m, k);
    StepBack(vm, f, k);
    PartEntry(vm, n, cap, n.body, cap, x, m);
    NodeCorrect(vm, n.body, cap, n.behind, d, s + 5, x, m, [f] + k);
    var ys, zs := Out(vm.w, n.body, cap, n.behind, x), Out(vm.w, n, cap, back, x);
    if ys == [] {
      LookGood(vm, n, cap, d, x, m);
      if n.negative { BehavesOne(vm, e, x, m, k, sc); } else { BehavesNone(vm, e, k, sc); }
      BehavesStep(vm, e, Back([f] + k), zs, k, sc);
      BehavesEmpty(vm, se, c1, [f] + k, sc);
      BehavesFrom(vm, e, c1, Back([f] + k), zs, k, sc);
    } else {
      var k1, m1 := FirstArrival(vm, se, c1, ys, [f] + k, sc);
      var c2 := Run(se, ys[0].pos, m1, k1 + ([f] + k));
      LookRoom(vm, sc, m1, ys[0]);
      StepLookMatch(vm, se, ys[0].pos, m1, k1, f, k);
      if n.negative {
        BehavesNone(vm, e, k, sc);
      } else {
        LookKeeps(vm, sc, m1, ys[0], x.pos);
        BehavesOne(vm, e, ys[0].(pos := x.pos), m1, k, sc);
      }
      BehavesStep(vm, e, c2, zs, k, sc);
      BehavesFrom(vm, e, c1, c2, zs, k, sc);
    }
    BehavesStep(vm, e, c0, zs, k, sc);
  }

  lemma LookGood(vm: Vm, n: Node, cap: nat, d: nat, x: State, m: seq<Value>)
    requires n.Look? && cap + Caps(n) <= vm.ncap && 2 * vm.ncap <= |m| && |x.caps| == vm.ncap
    requires Entry(vm, n, cap, x, m)
    ensures Good(vm, ScopeOf(n, cap, d, m), m, x)
  {
  }

  lemma LookRoom(vm: Vm, sc: Scope, m1: seq<Value>, y: State)
    requires Good(vm, sc, m1, y)
    ensures |m1| == |sc.mem|
  {
  }

  lemma LookKeeps(vm: Vm, sc: Scope, m1: seq<Value>, y: State, pos: nat)
    requires Good(vm, sc, m1, y)
    ensures Good(vm, sc, m1, y.(pos := pos))
  {
  }

  /* ----- quantifiers ----- */

  lemma OptLayout(p: Program, s: int, b: bool, i: Instr)
    ensures Size(Opt(b, i)) == if b then InstrSize(i) else 0
    ensures CodeAt(p, s, Opt(b, i)) && b ==> s in p && p[s] == i
  {
    CodeAtCons(p, s, i, []);
    assert [i] + [] == [i];
  }

  lemma BodyLayout(p: Program, sa: int, init: bool, atom: seq<Instr>, lo: nat, hi: nat)
    ensures var body, resets := WrapBody(init, atom, lo, hi), init && lo < hi;
            && Size(body) == Size(atom) + (if resets then 3 else 0)
            && (CodeAt(p, sa, body) ==>
                  && (resets ==> sa in p && p[sa] == SaveReset(lo, hi - 1))
                  && CodeAt(p, sa + (if resets then 3 else 0), atom))
  {
    if init && lo < hi { CodeAtCons(p, sa, SaveReset(lo, hi - 1), atom); }
  }

  lemma StarLayout(p: Program, s: int, chk: bool, body: seq<Instr>, again: bool, greedy: bool, r: nat)
    ensures var len, code := Size(body), WrapStar(chk, body, again, greedy, r);
            var sa := s + 5 + 2 * Num(chk);
            var ea := sa + len;
            var eg := ea + 2 * Num(chk);
            var e := eg + 5 * Num(again);
            && s + Size(code) == e
            && (CodeAt(p, s, code) ==>
                  && s in p && p[s] == Split(greedy, e - (s + 5))
                  && (chk ==> s + 5 in p && p[s + 5] == SetPos(r))
                  && CodeAt(p, sa, body)
                  && (chk ==> ea in p && p[ea] == CheckAdvance(r))
                  && (again ==> eg in p && p[eg] == Goto(s - (eg + 5))))
  {
    hide CodeAt, Size;
    var len := Size(body);
    var split := Split(greedy, len + 5 * Num(again) + 4 * Num(chk));
    var check, goto := Opt(chk, CheckAdvance(r)), Opt(again, Goto(-(5 + 2 * Num(chk) + len + 2 * Num(chk) + 5)));
    var note := Opt(chk, SetPos(r));
    var sa := s + 5 + 2 * Num(chk);
    assert WrapStar(chk, body, again, greedy, r) == [split] + (note + (body + (check + goto)));
    CodeAtCons(p, s, split, note + (body + (check + goto)));
    CodeAtConcat(p, s + 5, note, body + (check + goto));
    OptLayout(p, s + 5, chk, SetPos(r));
    CodeAtConcat(p, sa, body, check + goto);
    CodeAtConcat(p, sa + len, check, goto);
    OptLayout(p, sa + len, chk, CheckAdvance(r));
    OptLayout(p, sa + len + 2 * Num(chk), again, Goto(-(5 + 2 * Num(chk) + len + 2 * Num(chk) + 5)));
  }

  lemma CountLayout(p: Program, s: int, chk: bool, body: seq<Instr>, count: nat, limit: nat, exact: bool,
                    greedy: bool, r: nat, r2: nat)
    ensures var len, code := Size(body), WrapCount(chk, body, count, limit, exact, greedy, r, r2);
            var sa := s + 6 + 2 * Num(chk);
            var ea := sa + len;
            && s + Size(code) == ea + (if exact then 6 else 10)
            && (CodeAt(p, s, code) ==>
                  && s in p && p[s] == SetCount(r, count)
                  && (chk ==> s + 6 in p && p[s + 6] == SetPos(r2))
                  && CodeAt(p, sa, body)
                  && ea in p && p[ea] == CountTail(chk, len, limit, exact, greedy, r))
  {
    hide CodeAt, Size;
    var note, tail := Opt(chk, SetPos(r2)), CountTail(chk, Size(body), limit, exact, greedy, r);
    var sa := s + 6 + 2 * Num(chk);
    assert WrapCount(chk, body, count, limit, exact, greedy, r, r2)
             == [SetCount(r, count)] + (note + (body + ([tail] + [])));
    CodeAtCons(p, s, SetCount(r, count), note + (body + ([tail] + [])));
    CodeAtConcat(p, s + 6, note, body + ([tail] + []));
    OptLayout(p, s + 6, chk, SetPos(r2));
    CodeAtConcat(p, sa, body, [tail] + []);
    CodeAtCons(p, sa + Size(body), tail, []);
    SizeOfNothing();
  }

  lemma SizeOfNothing()
    ensures Size([]) == 0
  {
  }

  /** The two answers of the scan of a quantifier's atom. */
  ghost function Chk(vm: Vm, n: Node, cap: nat, back: bool): bool
    requires n.Repeat?
  {
    NeedsAdvanceCheck(Code(vm.w.canon, n.body, cap, back))
  }

  ghost function Init(vm: Vm, n: Node, cap: nat, back: bool): bool
    requires n.Repeat?
  {
    NeedsCaptureInit(Code(vm.w.canon, n.body, cap, back))
  }

  ghost function Atom(vm: Vm, n: Node, cap: nat, back: bool, d: nat): seq<Instr>
    requires n.Repeat?
  {
    Frag(vm.w.canon, n.body, cap, back, d)
  }

  ghost function BodyCode(vm: Vm, n: Node, cap: nat, back: bool, d: nat): seq<Instr>
    requires n.Repeat?
  {
    WrapBody(Init(vm, n, cap, back), Atom(vm, n, cap, back, d), cap, cap + Caps(n))
  }

  ghost function MakeLoop(vm: Vm, n: Node, cap: nat, back: bool, d: nat, dh: nat, sa: int, e: int,
                          m: seq<Value>): LoopCode
    requires n.Repeat?
  {
    LoopCode(vm, n, cap, back, dh, sa, sa + Size(BodyCode(vm, n, cap, back, dh)), e, ScopeOf(n, cap, d, m))
  }

  /** What the loops need to know to start with the atom's registers from `dh` on. */
  ghost predicate LoopReady(vm: Vm, n: Node, cap: nat, back: bool, dh: nat, x: State, m: seq<Value>)
    requires n.Repeat?
  {
    && n.max != Finite(0)
    && !vm.wide && WellFormed(n, vm.ncap) && BoundsKept(vm.w.canon, n, cap, back) && cap + Caps(n) <= vm.ncap
    && |x.caps| == vm.ncap && x.pos <= |vm.w.text|
    && 2 * vm.ncap + dh + Registers(vm.w.canon, n.body, cap, back) <= |m|
    && Entry(vm, n, cap, x, m)
    && (forall a :: BodyCorrect(vm, n.body, cap, back, dh, a))
  }

  /** A quantifier that may iterate starts between iterations. */
  lemma LoopStarts(vm: Vm, n: Node, cap: nat, back: bool, d: nat, dh: nat, sa: int, e: int, x: State, m: seq<Value>)
    requires n.Repeat? && d <= dh && LoopReady(vm, n, cap, back, dh, x, m)
    requires CodeAt(vm.code, sa, BodyCode(vm, n, cap, back, dh))
    ensures LoopOk(MakeLoop(vm, n, cap, back, d, dh, sa, e, m))
    ensures Between(MakeLoop(vm, n, cap, back, d, dh, sa, e, m), x, m)
  {
    hide Frag, Code, BodyCorrect, Registers, CodeAt;
    BodyLayout(vm.code, sa, Init(vm, n, cap, back), Atom(vm, n, cap, back, dh), cap, cap + Caps(n));
  }

  lemma StarCase(vm: Vm, n: Node, cap: nat, back: bool, d: nat, s: int, x: State, m: seq<Value>, k: seq<Frame>)
    requires n.Repeat? && n.min == 0 && (n.max == Finite(1) || n.max == Infinite)
    requires LoopReady(vm, n, cap, back, d + Num(Chk(vm, n, cap, back)), x, m)
    requires var chk := Chk(vm, n, cap, back);
             CodeAt(vm.code, s, WrapStar(chk, BodyCode(vm, n, cap, back, d + Num(chk)), n.max.Infinite?, n.greedy, d))
    ensures var chk := Chk(vm, n, cap, back);
            var e := s + Size(WrapStar(chk, BodyCode(vm, n, cap, back, d + Num(chk)), n.max.Infinite?, n.greedy, d));
            Behaves(vm, e, Run(s, x.pos, m, k), Rep(vm.w, n, cap, back, 0, n.max, x), k, ScopeOf(n, cap, d, m))
  {
    hide Frag, Code, BodyCorrect, Registers, CodeAt, WellFormed, BoundsKept, Entry, Behaves, WrapStar, WrapBody,
      Between, LoopOk, Rep, Size, NeedsAdvanceCheck, NeedsCaptureInit;
    var chk, again := Chk(vm, n, cap, back), n.max.Infinite?;
    var dh := d + Num(chk);
    var body := BodyCode(vm, n, cap, back, dh);
    StarLayout(vm.code, s, chk, body, again, n.greedy, d);
    var sa := s + 5 + 2 * Num(chk);
    var e := s + Size(WrapStar(chk, body, again, n.greedy, d));
    LoopStarts(vm, n, cap, back, d, dh, sa, e, x, m);
    StarCorrect(MakeLoop(vm, n, cap, back, d, dh, sa, e, m), chk, again, s, x, m, k);
  }

  lemma PlusCase(vm: Vm, n: Node, cap: nat, back: bool, d: nat, s: int, x: State, m: seq<Value>, k: seq<Frame>)
    requires n.Repeat? && n.min == 1 && n.max == Infinite && !Chk(vm, n, cap, back)
    requires LoopReady(vm, n, cap, back, d, x, m)
    requires var body := BodyCode(vm, n, cap, back, d);
             CodeAt(vm.code, s, body + [Split(!n.greedy, -(Size(body) + 5))])
    ensures var body := BodyCode(vm, n, cap, back, d);
            var e := s + Size(body + [Split(!n.greedy, -(Size(body) + 5))]);
            Behaves(vm, e, Run(s, x.pos, m, k), Rep(vm.w, n, cap, back, 1, Infinite, x), k, ScopeOf(n, cap, d, m))
  {
    hide Frag, Code, BodyCorrect, Registers, CodeAt, WellFormed, BoundsKept, Entry, Behaves, WrapBody, Size;
    var body := BodyCode(vm, n, cap, back, d);
    var split := Split(!n.greedy, -(Size(body) + 5));
    CodeAtConcat(vm.code, s, body, [split]);
    CodeAtCons(vm.code, s + Size(body), split, []);
    assert [split] + [] == [split];
    SizeOfNothing();
    var e := s + Size(body) + 5;
    LoopStarts(vm, n, cap, back, d, d, s, e, x, m);
    PlusCorrect(MakeLoop(vm, n, cap, back, d, d, s, e, m), 1, x, m, k);
  }

  ghost function CountCode(vm: Vm, n: Node, cap: nat, back: bool, d: nat, chk: bool, limit: nat,
                           exact: bool): seq<Instr>
    requires n.Repeat?
  {
    WrapCount(chk, BodyCode(vm, n, cap, back, d + 1 + Num(chk)), QuantMax(n.max), limit, exact, n.greedy, d, d + 1)
  }

  ghost function CountLoop(vm: Vm, n: Node, cap: nat, back: bool, d: nat, s: int, chk: bool, limit: nat, exact: bool,
                           m: seq<Value>): LoopCode
    requires n.Repeat?
  {
    MakeLoop(vm, n, cap, back, d, d + 1 + Num(chk), s + 6 + 2 * Num(chk),
             s + Size(CountCode(vm, n, cap, back, d, chk, limit, exact)), m)
  }

  lemma CountPlaced(vm: Vm, n: Node, cap: nat, back: bool, d: nat, s: int, chk: bool, limit: nat, exact: bool,
                    x: State, m: seq<Value>)
    requires n.Repeat? && LoopReady(vm, n, cap, back, d + 1 + Num(chk), x, m)
    requires exact ==> limit == 0 && !chk
    requires chk || exact || !Chk(vm, n, cap, back)
    requires CodeAt(vm.code, s, CountCode(vm, n, cap, back, d, chk, limit, exact))
    ensures var lp := CountLoop(vm, n, cap, back, d, s, chk, limit, exact, m);
            LoopOk(lp) && CountAt(lp, chk, limit, exact, s + 6) && Between(lp, x, m)
    ensures s in vm.code && vm.code[s] == SetCount(d, QuantMax(n.max))
  {
    hide Frag, Code, BodyCorrect, Registers, CodeAt, WellFormed, BoundsKept, Entry, WrapCount, WrapBody, Between,
      LoopOk, Caps, Linear, Out, BodyCode, Size;
    var dh := d + 1 + Num(chk);
    var body := BodyCode(vm, n, cap, back, dh);
    CountLayout(vm.code, s, chk, body, QuantMax(n.max), limit, exact, n.greedy, d, d + 1);
    LoopStarts(vm, n, cap, back, d, dh, s + 6 + 2 * Num(chk),
               s + Size(CountCode(vm, n, cap, back, d, chk, limit, exact)), x, m);
  }

  lemma CountCase(vm: Vm, n: Node, cap: nat, back: bool, d: nat, s: int, chk: bool, limit: nat, exact: bool, x: State,
                  m: seq<Value>, k: seq<Frame>)
    requires n.Repeat? && n.max.Finite? && LoopReady(vm, n, cap, back, d + 1 + Num(chk), x, m)
    requires n.min == (if QuantMax(n.max) > limit then QuantMax(n.max) - limit else 0)
    requires exact ==> limit == 0 && !chk
    requires chk || exact || !Chk(vm, n, cap, back)
    requires CodeAt(vm.code, s, CountCode(vm, n, cap, back, d, chk, limit, exact))
    ensures Behaves(vm, s + Size(CountCode(vm, n, cap, back, d, chk, limit, exact)), Run(s, x.pos, m, k),
                    Iterate(vm.w, n, cap, back, n.min, n.max, x), k, ScopeOf(n, cap, d, m))
  {
    hide Frag, Code, BodyCorrect, Registers, CodeAt, Behaves, WrapCount, WrapBody, Between, LoopOk, CountAt, Counting,
      Out, Iterate, BodyCode, BodyCorrect, Linear, Caps;
    var lp := CountLoop(vm, n, cap, back, d, s, chk, limit, exact, m);
    CountPlaced(vm, n, cap, back, d, s, chk, limit, exact, x, m);
    CountingStarts(lp, limit, exact, x);
    CountSetsOff(lp, chk, limit, exact, s + 6, QuantMax(n.max), x, m, k);
    StepSetCount(vm, s, x.pos, m, k);
    BehavesStep(vm, lp.e, Run(s, x.pos, m, k), Iterate(vm.w, n, cap, back, n.min, n.max, x), k, lp.sc);
  }

  lemma CountingStarts(lp: LoopCode, limit: nat, exact: bool, x: State)
    requires lp.n.Repeat? && lp.n.max != Finite(0) && lp.n.max.Finite?
    requires lp.n.min == (if QuantMax(lp.n.max) > limit then QuantMax(lp.n.max) - limit else 0)
    requires x.pos <= |lp.vm.w.text|
    ensures Counting(lp, limit, exact, QuantMax(lp.n.max), lp.n.min, lp.n.max, x)
  {
  }

  lemma CountSetsOff(lp: LoopCode, chk: bool, limit: nat, exact: bool, sh: int, count: nat, x: State, m: seq<Value>,
                     k: seq<Frame>)
    requires LoopOk(lp) && CountAt(lp, chk, limit, exact, sh) && Between(lp, x, m)
    requires Counting(lp, limit, exact, count, lp.n.min, lp.n.max, x)
    requires 2 * lp.vm.ncap + lp.sc.depth < |m|
    ensures Behaves(lp.vm, lp.e, Run(sh, x.pos, m[2 * lp.vm.ncap + lp.sc.depth := Count(count)], k),
                    Iterate(lp.vm.w, lp.n, lp.cap, lp.back, lp.n.min, lp.n.max, x), k, lp.sc)
  {
    hide Code, Behaves, BodyCorrect, Loaded, Linear, Registers, Outside, Settled, Good;
    BetweenRoom(lp, x, m);
    WriteRegister(lp, x, m, lp.sc.depth, Count(count));
    CountCorrect(lp, chk, limit, exact, sh, count, lp.n.min, lp.n.max, x,
                 m[2 * lp.vm.ncap + lp.sc.depth := Count(count)], k);
  }

  /** The capture reset in front of an optional quantifier finds nothing to reset. */
  lemma ResetIsIdle(m: seq<Value>, lo: nat, hi: nat)
    requires lo < hi && 2 * hi <= |m| && Fresh(m, lo, hi)
    ensures ResetMem(m, lo, hi - 1) == m
  {
    var r := ResetMem(m, lo, hi - 1);
    forall i | 0 <= i < |m| ensures r[i] == m[i] {
      if 2 * lo <= i < 2 * hi {
        assert m[2 * (i / 2)] == Unset && m[2 * (i / 2) + 1] == Unset;
      }
    }
  }

  ghost function PreCode(vm: Vm, n: Node, cap: nat, back: bool): seq<Instr>
    requires n.Repeat?
  {
    WrapPre(Init(vm, n, cap, back), cap, cap + Caps(n), n.min)
  }

  ghost function MainCode(vm: Vm, n: Node, cap: nat, back: bool, d: nat): seq<Instr>
    requires n.Repeat? && n.min <= QuantMax(n.max)
  {
    var chk, max := Chk(vm, n, cap, back), QuantMax(n.max);
    WrapMain(chk, BodyCode(vm, n, cap, back, d + Held(chk, n.min, max)), n.min, max, n.greedy, d, d + 1)
  }

  lemma RepeatCode(vm: Vm, n: Node, cap: nat, back: bool, d: nat)
    requires n.Repeat? && n.min <= QuantMax(n.max)
    ensures Frag(vm.w.canon, n, cap, back, d) == PreCode(vm, n, cap, back) + MainCode(vm, n, cap, back, d)
  {
    hide Code, WrapMain, WrapPre, WrapBody, NeedsAdvanceCheck, NeedsCaptureInit;
  }

  lemma RepeatBound(vm: Vm, n: Node, cap: nat, back: bool)
    requires n.Repeat? && BoundsKept(vm.w.canon, n, cap, back)
    ensures EmittedMax(Chk(vm, n, cap, back), n.min, n.max) == n.max
  {
  }

  /** The part of a quantifier's code after the optional reset. */
  lemma MainCorrect(vm: Vm, n: Node, cap: nat, back: bool, d: nat, s: int, x: State, m: seq<Value>, k: seq<Frame>)
    requires n.Repeat? && WellFormed(n, vm.ncap)
    requires LoopReady(vm, n, cap, back, d + Held(Chk(vm, n, cap, back), n.min, QuantMax(n.max)), x, m)
    requires CodeAt(vm.code, s, MainCode(vm, n, cap, back, d))
    ensures Behaves(vm, s + Size(MainCode(vm, n, cap, back, d)), Run(s, x.pos, m, k),
                    Rep(vm.w, n, cap, back, n.min, n.max, x), k, ScopeOf(n, cap, d, m))
  {
    hide Frag, Code, BodyCorrect, Registers, CodeAt, BoundsKept, Entry, Behaves, WrapCount, WrapBody, WrapStar, Out,
      Iterate, Size, NeedsAdvanceCheck, NeedsCaptureInit;
    var chk, max := Chk(vm, n, cap, back), QuantMax(n.max);
    RepeatBound(vm, n, cap, back);
    if n.min == 0 {
      if max == 1 || max == INT32_MAX {
        StarCase(vm, n, cap, back, d, s, x, m, k);
      } else {
        OptionalCountCase(vm, n, cap, back, d, s, x, m, k);
      }
    } else if n.min == 1 && max == INT32_MAX && !chk {
      PlusCase(vm, n, cap, back, d, s, x, m, k);
    } else {
      CountCase(vm, n, cap, back, d, s, chk && n.min != max, max - n.min, n.min == max, x, m, k);
    }
  }

  /** A counted loop behind a split that may skip it. */
  lemma OptionalCountCase(vm: Vm, n: Node, cap: nat, back: bool, d: nat, s: int, x: State, m: seq<Value>, k: seq<Frame>)
    requires n.Repeat? && n.min == 0 && n.max.Finite? && n.max.n > 1
    requires LoopReady(vm, n, cap, back, d + 1 + Num(Chk(vm, n, cap, back)), x, m)
    requires n.max.n != INT32_MAX && CodeAt(vm.code, s, MainCode(vm, n, cap, back, d))
    ensures Behaves(vm, s + Size(MainCode(vm, n, cap, back, d)), Run(s, x.pos, m, k),
                    Rep(vm.w, n, cap, back, 0, n.max, x), k, ScopeOf(n, cap, d, m))
  {
    hide Frag, Code, BodyCorrect, Registers, CodeAt, BoundsKept, WellFormed, Behaves, WrapCount, WrapBody, WrapStar,
      Out, Iterate, Size, NeedsAdvanceCheck, NeedsCaptureInit, Outside, Linear, Fresh, AlwaysSets, Good;
    var chk, max, e := Chk(vm, n, cap, back), n.max.n, s + Size(MainCode(vm, n, cap, back, d));
    var count := CountCode(vm, n, cap, back, d, chk, max, false);
    RepeatFresh(vm, n, cap, x, m);
    var split := Split(n.greedy, 6 + 2 * Num(chk) + Size(BodyCode(vm, n, cap, back, d + 1 + Num(chk))) + 10);
    CodeAtCons(vm.code, s, split, count);
    CountLayout(vm.code, s + 5, chk, BodyCode(vm, n, cap, back, d + 1 + Num(chk)), max, max, false, n.greedy, d, d + 1);
    var k' := if n.greedy then [Frame(Choice, e, x.pos, m)] + k else k;
    CountCase(vm, n, cap, back, d, s + 5, chk, max, false, x, m, k');
    StepSplit(vm, s, x.pos, m, k);
    Offer(vm, e, Run(s, x.pos, m, k), s + 5, x, m, n.greedy, Iterate(vm.w, n, cap, back, 0, n.max, x), k,
          ScopeOf(n, cap, d, m));
  }

  lemma RepeatFresh(vm: Vm, n: Node, cap: nat, x: State, m: seq<Value>)
    requires n.Repeat? && cap + Caps(n) <= vm.ncap && 2 * vm.ncap <= |m| && |x.caps| == vm.ncap
    requires Entry(vm, n, cap, x, m)
    ensures Fresh(m, cap, cap + Caps(n))
    ensures forall d :: Good(vm, ScopeOf(n, cap, d, m), m, x)
  {
    forall k | cap <= k < cap + Caps(n) ensures m[2 * k] == Unset && m[2 * k + 1] == Unset {
      assert !AlwaysSets(n, cap, k);
    }
  }

  /** From the start of a quantifier's code to the part after the optional reset. */
  lemma PreCorrect(vm: Vm, n: Node, cap: nat, back: bool, d: nat, s: int, x: State, m: seq<Value>, k: seq<Frame>)
    requires n.Repeat? && cap + Caps(n) <= vm.ncap && 2 * vm.ncap <= |m| && x.pos <= |vm.w.text|
    requires Fresh(m, cap, cap + Caps(n))
    requires CodeAt(vm.code, s, PreCode(vm, n, cap, back))
    ensures Reaches(vm, Run(s, x.pos, m, k), Run(s + Size(PreCode(vm, n, cap, back)), x.pos, m, k))
  {
    hide Code, Frag;
    var c := Run(s, x.pos, m, k);
    if PreCode(vm, n, cap, back) != [] {
      var reset := SaveReset(cap, cap + Caps(n) - 1);
      CodeAtCons(vm.code, s, reset, []);
      assert [reset] + [] == [reset];
      ResetIsIdle(m, cap, cap + Caps(n));
      StepReset(vm, s, x.pos, m, k);
      ReachesSelf(vm, Step(vm, c));
      ReachesStep(vm, c, Step(vm, c));
    } else {
      ReachesSelf(vm, c);
    }
  }

  lemma RepeatReady(vm: Vm, n: Node, cap: nat, back: bool, d: nat, s: int, x: State, m: seq<Value>)
    requires n.Repeat? && n.max != Finite(0) && Setup(vm, n, cap, back, d, s, x, m)
    requires var dh := d + Held(Chk(vm, n, cap, back), n.min, QuantMax(n.max));
             forall a :: BodyCorrect(vm, n.body, cap, back, dh, a)
    ensures LoopReady(vm, n, cap, back, d + Held(Chk(vm, n, cap, back), n.min, QuantMax(n.max)), x, m)
  {
    hide Frag, Code, BodyCorrect, CodeAt, BoundsKept, Entry, NeedsAdvanceCheck, Held;
  }

  lemma RepeatParts(vm: Vm, n: Node, cap: nat, back: bool, d: nat, s: int)
    requires n.Repeat? && Loaded(vm, n, cap, back, d, s)
    ensures n.min <= QuantMax(n.max)
    ensures CodeAt(vm.code, s, PreCode(vm, n, cap, back))
    ensures CodeAt(vm.code, s + Size(PreCode(vm, n, cap, back)), MainCode(vm, n, cap, back, d))
    ensures End(vm, n, cap, back, d, s) == s + Size(PreCode(vm, n, cap, back)) + Size(MainCode(vm, n, cap, back, d))
  {
    hide Frag, Code, CodeAt, BoundsKept, PreCode, MainCode, Size;
    RepeatCode(vm, n, cap, back, d);
    CodeAtConcat(vm.code, s, PreCode(vm, n, cap, back), MainCode(vm, n, cap, back, d));
  }

  lemma RepeatCorrect(vm: Vm, n: Node, cap: nat, back: bool, d: nat, s: int, x: State, m: seq<Value>, k: seq<Frame>)
    requires n.Repeat? && Setup(vm, n, cap, back, d, s, x, m)
    requires var dh := d + Held(Chk(vm, n, cap, back), n.min, QuantMax(n.max));
             forall a :: BodyCorrect(vm, n.body, cap, back, dh, a)
    ensures Correct(vm, n, cap, back, d, s, x, m, k)
  {
    hide Frag, Code, BodyCorrect, CodeAt, BoundsKept, Behaves, Reaches, Good, Fresh, Entry, Chk, Held, Registers,
      PreCode, MainCode, End, Size, LoopReady, Out, Iterate, Outside, WellFormed, Linear, Rep, Caps;
    RepeatParts(vm, n, cap, back, d, s);
    RepeatFresh(vm, n, cap, x, m);
    var e, sc, mid := End(vm, n, cap, back, d, s), ScopeOf(n, cap, d, m), s + Size(PreCode(vm, n, cap, back));
    OutOfRepeat(vm.w, n, cap, back, x);
    PreCorrect(vm, n, cap, back, d, s, x, m, k);
    if n.max == Finite(0) {
      NoMain(vm, n, cap, back, d);
      BehavesOne(vm, e, x, m, k, sc);
    } else {
      RepeatReady(vm, n, cap, back, d, s, x, m);
      MainCorrect(vm, n, cap, back, d, mid, x, m, k);
    }
    BehavesFrom(vm, e, Run(s, x.pos, m, k), Run(mid, x.pos, m, k), Out(vm.w, n, cap, back, x), k, sc);
  }

  lemma OutOfRepeat(w: World, n: Node, cap: nat, back: bool, x: State)
    requires n.Repeat? && x.pos <= |w.text| && cap + Caps(n) <= |x.caps|
    ensures Out(w, n, cap, back, x) == Rep(w, n, cap, back, n.min, n.max, x)
    ensures n.max == Finite(0) ==> Out(w, n, cap, back, x) == [x]
  {
  }

  lemma NoMain(vm: Vm, n: Node, cap: nat, back: bool, d: nat)
    requires n.Repeat? && n.max == Finite(0) && n.min == 0
    ensures MainCode(vm, n, cap, back, d) == [] && Size(MainCode(vm, n, cap, back, d)) == 0
  {
    hide Code, Frag;
  }

  /** The main theorem about code: entered at its start in state `x`, the code of a
      node explores exactly the outcomes of the node from `x`, in order. */
  lemma {:induction false} NodeCorrect(vm: Vm, n: Node, cap: nat, back: bool, d: nat, s: int, x: State, m: seq<Value>,
                                       k: seq<Frame>)
    requires Setup(vm, n, cap, back, d, s, x, m)
    ensures Correct(vm, n, cap, back, d, s, x, m, k)
    decreases n, 2
  {
    hide Setup, Correct, Out, Frag, Code;
    match n
    case Empty => EmptyCorrect(vm, n, cap, back, d, s, x, m, k);
    case One(_) => if back { OneBackward(vm, n, cap, d, s, x, m, k); } else { OneForward(vm, n, cap, d, s, x, m, k); }
    case Assert(_) => AssertCorrect(vm, n, cap, back, d, s, x, m, k);
    case BackRef(_, _) => BackRefCorrect(vm, n, cap, back, d, s, x, m, k);
    case Cat(_, _) => CatCorrect(vm, n, cap, back, d, s, x, m, k);
    case Alt(_, _) => AltCorrect(vm, n, cap, back, d, s, x, m, k);
    case Group(_) => GroupCorrect(vm, n, cap, back, d, s, x, m, k);
    case Look(_, _, _) => LookCorrect(vm, n, cap, back, d, s, x, m, k);
    case Repeat(b, min, max, _) =>
      var dh := d + Held(Chk(vm, n, cap, back), min, QuantMax(max));
      forall a ensures BodyCorrect(vm, b, cap, back, dh, a) {
        BodyIsCorrect(vm, b, cap, back, dh, a);
      }
      RepeatCorrect(vm, n, cap, back, d, s, x, m, k);
  }

  lemma {:induction false} BodyIsCorrect(vm: Vm, b: Node, cap: nat, back: bool, d: nat, s: int)
    ensures BodyCorrect(vm, b, cap, back, d, s)
    decreases b, 3
  {
    hide Setup, Correct;
    forall x, m, k | Setup(vm, b, cap, back, d, s, x, m) ensures Correct(vm, b, cap, back, d, s, x, m, k) {
      NodeCorrect(vm, b, cap, back, d, s, x, m, k);
    }
  }
}
