/** What it means for the code of a node to be correct, and under which conditions it
    may be entered. */
module CodeSetup {
  import opened Syntax
  import opened Semantics
  import opened Bytecode
  import opened Compiler
  import opened Elision
  import opened Machine
  import opened Leaves
  import opened Behaviour

  ghost predicate Fresh(m: seq<Value>, lo: nat, hi: nat)
    requires 2 * hi <= |m|
  {
    forall k :: lo <= k < hi ==> m[2 * k] == Unset && m[2 * k + 1] == Unset
  }

  /** The captures outside [lo, hi) agree with the reference as far as a back
      reference can tell: an enclosing group may be half set. */
  ghost predicate Outside(vm: Vm, m: seq<Value>, x: State, lo: nat, hi: nat)
    requires 2 * vm.ncap <= |m| && |x.caps| == vm.ncap
  {
    forall k :: 0 <= k < vm.ncap && !(lo <= k < hi) ==> WeakSpan(m[2 * k], m[2 * k + 1], x.caps[k])
  }

  /** The code of `n` may be entered with memory `m` when the reference is in state
      `x`. A straight line may be entered with captures left over from an earlier
      iteration in the groups it is about to set. */
  ghost predicate Entry(vm: Vm, n: Node, cap: nat, x: State, m: seq<Value>)
    requires cap + Caps(n) <= vm.ncap && 2 * vm.ncap <= |m| && |x.caps| == vm.ncap
  {
    && (forall k :: cap <= k < cap + Caps(n) ==> x.caps[k] == None)
    && if Linear(n) then
         forall k :: cap <= k < cap + Caps(n) && !AlwaysSets(n, cap, k) ==> m[2 * k] == Unset && m[2 * k + 1] == Unset
       else Fresh(m, cap, cap + Caps(n)) && Outside(vm, m, x, cap, cap + Caps(n))
  }

  /** The code of `n` is loaded at `s` in a machine that has room for it. */
  ghost predicate Loaded(vm: Vm, n: Node, cap: nat, back: bool, d: nat, s: int) {
    && !vm.wide
    && WellFormed(n, vm.ncap)
    && BoundsKept(vm.w.canon, n, cap, back)
    && cap + Caps(n) <= vm.ncap
    && CodeAt(vm.code, s, Frag(vm.w.canon, n, cap, back, d))
  }

  ghost predicate Fits(vm: Vm, n: Node, cap: nat, back: bool, d: nat, x: State, m: seq<Value>) {
    && |x.caps| == vm.ncap
    && x.pos <= |vm.w.text|
    && 2 * vm.ncap + d + Registers(vm.w.canon, n, cap, back) <= |m|
  }

  ghost predicate Setup(vm: Vm, n: Node, cap: nat, back: bool, d: nat, s: int, x: State, m: seq<Value>) {
    && Loaded(vm, n, cap, back, d, s)
    && Fits(vm, n, cap, back, d, x, m)
    && Entry(vm, n, cap, x, m)
  }

  ghost function End(vm: Vm, n: Node, cap: nat, back: bool, d: nat, s: int): int {
    s + Size(Frag(vm.w.canon, n, cap, back, d))
  }

  ghost function ScopeOf(n: Node, cap: nat, d: nat, m: seq<Value>): Scope {
    Scope(m, cap, cap + Caps(n), d)
  }

  ghost predicate Correct(vm: Vm, n: Node, cap: nat, back: bool, d: nat, s: int, x: State, m: seq<Value>, k: seq<Frame>)
    requires Setup(vm, n, cap, back, d, s, x, m)
  {
    Behaves(vm, End(vm, n, cap, back, d, s), Run(s, x.pos, m, k), Out(vm.w, n, cap, back, x), k, ScopeOf(n, cap, d, m))
  }

  lemma SmallerRange(vm: Vm, m: seq<Value>, x: State, lo: nat, hi: nat, lo': nat, hi': nat)
    requires 2 * vm.ncap <= |m| && |x.caps| == vm.ncap && lo <= lo' && hi' <= hi <= vm.ncap
    requires Fresh(m, lo, hi) && Outside(vm, m, x, lo, hi)
    requires forall k :: lo <= k < hi ==> x.caps[k] == None
    ensures Fresh(m, lo', hi') && Outside(vm, m, x, lo', hi')
  {
  }

  /** What has been matched exactly is known to back references that follow. */
  lemma OutsideAfter(vm: Vm, sc: Scope, m1: seq<Value>, x: State, y: State, lo: nat, hi: nat, lo': nat, hi': nat)
    requires 2 * vm.ncap <= |sc.mem| && |x.caps| == |y.caps| == vm.ncap
    requires Outside(vm, sc.mem, x, lo, hi)
    requires Good(vm, sc, m1, y)
    requires forall k :: 0 <= k < vm.ncap && !(sc.lo <= k < sc.hi) ==> y.caps[k] == x.caps[k]
    requires (lo' <= lo && sc.lo <= hi' && hi <= sc.hi) || (sc.lo <= lo && lo' <= sc.hi && hi <= hi')
    ensures Outside(vm, m1, y, lo', hi')
  {
    forall k | 0 <= k < vm.ncap && !(lo' <= k < hi') ensures WeakSpan(m1[2 * k], m1[2 * k + 1], y.caps[k]) {
      if sc.lo <= k < sc.hi {
        assert HoldsSpan(m1[2 * k], m1[2 * k + 1], y.caps[k]);
      } else {
        assert m1[2 * k] == sc.mem[2 * k] && m1[2 * k + 1] == sc.mem[2 * k + 1];
        assert WeakSpan(sc.mem[2 * k], sc.mem[2 * k + 1], x.caps[k]);
      }
    }
  }

  /* ----- single steps ----- */

  lemma {:induction false} PopThroughChoices(kind: Kind, k1: seq<Frame>, f: Frame, k: seq<Frame>)
    requires AllChoices(k1) && f.kind == kind != Choice
    ensures PopTo(kind, k1 + ([f] + k)) == Some((f, k))
  {
    if k1 == [] {
      assert k1 + ([f] + k) == [f] + k;
      assert ([f] + k)[1..] == k;
    } else {
      assert (k1 + ([f] + k))[1..] == k1[1..] + ([f] + k);
      PopThroughChoices(kind, k1[1..], f, k);
    }
  }

  lemma StepGoto(vm: Vm, pc: int, e: int)
    requires pc in vm.code && vm.code[pc] == Goto(e - (pc + 5))
    ensures Passes(vm, pc, e)
  {
  }

  lemma StepSplit(vm: Vm, pc: int, pos: nat, m: seq<Value>, k: seq<Frame>)
    requires pc in vm.code && vm.code[pc].Split? && pos <= |vm.w.text| && 2 * vm.ncap <= |m|
    ensures Step(vm, Run(pc, pos, m, k)) == Fork(vm.code[pc].nextFirst, pc + 5, pc + 5 + vm.code[pc].off, pos, m, k)
  {
  }

  lemma StepBack(vm: Vm, f: Frame, k: seq<Frame>)
    ensures Step(vm, Back([f] + k)) == if f.kind == Ahead then Back(k) else Run(f.pc, f.pos, f.mem, k)
  {
    assert ([f] + k)[1..] == k;
  }

  lemma StepSave(vm: Vm, pc: int, pos: nat, m: seq<Value>, k: seq<Frame>)
    requires pc in vm.code && vm.code[pc].Save? && vm.code[pc].k < vm.ncap && pos <= |vm.w.text| && 2 * vm.ncap <= |m|
    ensures Step(vm, Run(pc, pos, m, k)) == Run(pc + 2, pos, m[2 * vm.code[pc].k + Num(vm.code[pc].end) := At(pos)], k)
  {
  }

  lemma StepLook(vm: Vm, pc: int, pos: nat, m: seq<Value>, k: seq<Frame>)
    requires pc in vm.code && vm.code[pc].LookStart? && pos <= |vm.w.text| && 2 * vm.ncap <= |m|
    ensures Step(vm, Run(pc, pos, m, k)) ==
            Run(pc + 5, pos, m,
                [Frame(if vm.code[pc].negative then NotAhead else Ahead, pc + 5 + vm.code[pc].off, pos, m)] + k)
  {
  }

  /** A lookaround ends by discarding its choice points, its own frame included. */
  lemma StepLookMatch(vm: Vm, pc: int, pos: nat, m: seq<Value>, k1: seq<Frame>, f: Frame, k: seq<Frame>)
    requires pc in vm.code && vm.code[pc].LookMatch? && pos <= |vm.w.text| && 2 * vm.ncap <= |m|
    requires AllChoices(k1) && f.kind == if vm.code[pc].negative then NotAhead else Ahead
    ensures Step(vm, Run(pc, pos, m, k1 + ([f] + k))) == if vm.code[pc].negative then Back(k)
              else Run(f.pc, f.pos, m, k)
  {
    PopThroughChoices(f.kind, k1, f, k);
  }

  /** From `mid` one step leads to `e` and changes nothing else. */
  ghost predicate Passes(vm: Vm, mid: int, e: int) {
    forall pos: nat, m, k :: pos <= |vm.w.text| && 2 * vm.ncap <= |m| ==>
             Step(vm, Run(mid, pos, m, k)) == Run(e, pos, m, k)
  }
}
