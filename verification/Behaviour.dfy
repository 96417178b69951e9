/** How a piece of code explores a list of outcomes: it reaches its end with the
    first outcome and, each time it is backtracked into, with the next, until it
    gives way to the choice points that were there before it started. */
module Behaviour {
  import opened Syntax
  import opened Semantics
  import opened Bytecode
  import opened Machine

  /** What code may change: starting from `mem` it may touch the captures in
      [lo, hi) and the registers from `depth` on. */
  datatype Scope = Scope(mem: seq<Value>, lo: nat, hi: nat, depth: nat)

  predicate Touchable(vm: Vm, sc: Scope, i: int) {
    2 * sc.lo <= i < 2 * sc.hi || 2 * vm.ncap + sc.depth <= i
  }

  ghost predicate Same(vm: Vm, sc: Scope, m: seq<Value>) {
    && |m| == |sc.mem|
    && forall i :: 0 <= i < |m| && !Touchable(vm, sc, i) ==> m[i] == sc.mem[i]
  }

  /** Slots 2k and 2k+1 hold exactly the capture `c`. */
  predicate HoldsSpan(s: Value, e: Value, c: Option<Span>) {
    match c
    case None => s == Unset && e == Unset
    case Some(Span(a, b)) => s == At(a) && e == At(b)
  }

  ghost predicate Exact(m: seq<Value>, x: State, lo: nat, hi: nat) {
    forall k :: lo <= k < hi && k < |x.caps| && 2 * k + 1 < |m| ==> HoldsSpan(m[2 * k], m[2 * k + 1], x.caps[k])
  }

  /** An outcome `y` reached with memory `m`. */
  ghost predicate Good(vm: Vm, sc: Scope, m: seq<Value>, y: State) {
    Same(vm, sc, m) && Exact(m, y, sc.lo, sc.hi)
  }

  predicate AllChoices(k: seq<Frame>) {
    forall i :: 0 <= i < |k| ==> k[i].kind == Choice
  }

  ghost predicate Behaves(vm: Vm, e: int, c: Conf, outs: seq<State>, k: seq<Frame>, sc: Scope)
    decreases |outs|, 1
  {
    if outs == [] then Reaches(vm, c, Back(k))
    else exists k1, m1 :: Arrives(vm, e, c, outs, k, sc, k1, m1)
  }

  ghost predicate Arrives(vm: Vm, e: int, c: Conf, outs: seq<State>, k: seq<Frame>, sc: Scope, k1: seq<Frame>,
                          m1: seq<Value>)
    requires outs != []
    decreases |outs|, 0
  {
    && Reaches(vm, c, Run(e, outs[0].pos, m1, k1 + k))
    && AllChoices(k1)
    && Good(vm, sc, m1, outs[0])
    && Behaves(vm, e, Back(k1 + k), outs[1..], k, sc)
  }

  lemma BehavesFrom(vm: Vm, e: int, c: Conf, c': Conf, outs: seq<State>, k: seq<Frame>, sc: Scope)
    requires Reaches(vm, c, c') && Behaves(vm, e, c', outs, k, sc)
    ensures Behaves(vm, e, c, outs, k, sc)
  {
    if outs == [] {
      ReachesTrans(vm, c, c', Back(k));
    } else {
      var k1, m1 :| Arrives(vm, e, c', outs, k, sc, k1, m1);
      ReachesTrans(vm, c, c', Run(e, outs[0].pos, m1, k1 + k));
      assert Arrives(vm, e, c, outs, k, sc, k1, m1);
    }
  }

  lemma BehavesStep(vm: Vm, e: int, c: Conf, outs: seq<State>, k: seq<Frame>, sc: Scope)
    requires Behaves(vm, e, Step(vm, c), outs, k, sc)
    ensures Behaves(vm, e, c, outs, k, sc)
  {
    ReachesSelf(vm, Step(vm, c));
    ReachesStep(vm, c, Step(vm, c));
    BehavesFrom(vm, e, c, Step(vm, c), outs, k, sc);
  }

  lemma BehavesNone(vm: Vm, e: int, k: seq<Frame>, sc: Scope)
    ensures Behaves(vm, e, Back(k), [], k, sc)
  {
    ReachesSelf(vm, Back(k));
  }

  lemma BehavesOne(vm: Vm, e: int, y: State, m: seq<Value>, k: seq<Frame>, sc: Scope)
    requires Good(vm, sc, m, y)
    ensures Behaves(vm, e, Run(e, y.pos, m, k), [y], k, sc)
  {
    ReachesSelf(vm, Run(e, y.pos, m, k));
    assert [] + k == k;
    BehavesNone(vm, e, k, sc);
    assert Arrives(vm, e, Run(e, y.pos, m, k), [y], k, sc, [], m);
  }

  lemma FirstArrival(vm: Vm, e: int, c: Conf, outs: seq<State>, k: seq<Frame>, sc: Scope)
    returns (k1: seq<Frame>, m1: seq<Value>)
    requires outs != [] && Behaves(vm, e, c, outs, k, sc)
    ensures AllChoices(k1) && Good(vm, sc, m1, outs[0])
    ensures Reaches(vm, c, Run(e, outs[0].pos, m1, k1 + k))
  {
    k1, m1 :| Arrives(vm, e, c, outs, k, sc, k1, m1);
  }

  lemma BehavesEmpty(vm: Vm, e: int, c: Conf, k: seq<Frame>, sc: Scope)
    requires Behaves(vm, e, c, [], k, sc)
    ensures Reaches(vm, c, Back(k))
  {
  }

  /** First `a`, then, once these are used up, `b`. */
  lemma {:induction false} BehavesAppend(vm: Vm, e: int, c: Conf, a: seq<State>, b: seq<State>, k1: seq<Frame>,
                                         k: seq<Frame>, sc: Scope)
    requires AllChoices(k1)
    requires Behaves(vm, e, c, a, k1 + k, sc)
    requires Behaves(vm, e, Back(k1 + k), b, k, sc)
    ensures Behaves(vm, e, c, a + b, k, sc)
    decreases |a|
  {
    if a == [] {
      assert a + b == b;
      BehavesFrom(vm, e, c, Back(k1 + k), b, k, sc);
    } else {
      var k2, m :| Arrives(vm, e, c, a, k1 + k, sc, k2, m);
      BehavesAppend(vm, e, Back(k2 + (k1 + k)), a[1..], b, k1, k, sc);
      assert (a + b)[1..] == a[1..] + b;
      assert k2 + (k1 + k) == (k2 + k1) + k;
      assert Arrives(vm, e, c, a + b, k, sc, k2 + k1, m);
    }
  }

  ghost predicate Widens(vm: Vm, sc: Scope, sc': Scope, outs: seq<State>) {
    forall i, m :: 0 <= i < |outs| && Good(vm, sc, m, outs[i]) ==> Good(vm, sc', m, outs[i])
  }

  lemma {:induction false} Rescope(vm: Vm, e: int, c: Conf, outs: seq<State>, k: seq<Frame>, sc: Scope, sc': Scope)
    requires Behaves(vm, e, c, outs, k, sc) && Widens(vm, sc, sc', outs)
    ensures Behaves(vm, e, c, outs, k, sc')
    decreases |outs|
  {
    if outs != [] {
      var k1, m1 :| Arrives(vm, e, c, outs, k, sc, k1, m1);
      assert Good(vm, sc', m1, outs[0]);
      forall i, m | 0 <= i < |outs[1..]| && Good(vm, sc, m, outs[1..][i]) ensures Good(vm, sc', m, outs[1..][i]) {
        assert outs[1..][i] == outs[i + 1];
      }
      Rescope(vm, e, Back(k1 + k), outs[1..], k, sc, sc');
      assert Arrives(vm, e, c, outs, k, sc', k1, m1);
    }
  }

  function Flatten(zss: seq<seq<State>>): seq<State> {
    if zss == [] then [] else zss[0] + Flatten(zss[1..])
  }

  /** From `mid`, every outcome `ys[i]` is carried on to the outcomes `zss[i]`. */
  ghost predicate Carries(vm: Vm, mid: int, e: int, ys: seq<State>, zss: seq<seq<State>>, sc: Scope, sc': Scope) {
    && |ys| == |zss|
    && forall i, m, k :: 0 <= i < |ys| && Good(vm, sc, m, ys[i]) ==>
         Behaves(vm, e, Run(mid, ys[i].pos, m, k), zss[i], k, sc')
  }

  lemma {:induction false} Bind(vm: Vm, mid: int, e: int, c: Conf, ys: seq<State>, zss: seq<seq<State>>,
                                k: seq<Frame>, sc: Scope, sc': Scope)
    requires Behaves(vm, mid, c, ys, k, sc)
    requires Carries(vm, mid, e, ys, zss, sc, sc')
    ensures Behaves(vm, e, c, Flatten(zss), k, sc')
    decreases |ys|
  {
    if ys != [] {
      var k1, m1 :| Arrives(vm, mid, c, ys, k, sc, k1, m1);
      var c1 := Run(mid, ys[0].pos, m1, k1 + k);
      assert Behaves(vm, e, c1, zss[0], k1 + k, sc');
      assert Carries(vm, mid, e, ys[1..], zss[1..], sc, sc') by {
        forall i, m, k2 | 0 <= i < |ys[1..]| && Good(vm, sc, m, ys[1..][i])
          ensures Behaves(vm, e, Run(mid, ys[1..][i].pos, m, k2), zss[1..][i], k2, sc')
        {
          assert ys[1..][i] == ys[i + 1] && zss[1..][i] == zss[i + 1];
        }
      }
      Bind(vm, mid, e, Back(k1 + k), ys[1..], zss[1..], k, sc, sc');
      BehavesAppend(vm, e, c1, zss[0], Flatten(zss[1..]), k1, k, sc');
      BehavesFrom(vm, e, c, c1, Flatten(zss), k, sc');
    }
  }

  /** A fork between leaving with `x` and going round again at `a`. */
  lemma Offer(vm: Vm, e: int, c: Conf, a: int, x: State, m: seq<Value>, greedy: bool, more: seq<State>, k: seq<Frame>,
              sc: Scope)
    requires Good(vm, sc, m, x)
    requires Step(vm, c) == if greedy then Run(a, x.pos, m, [Frame(Choice, e, x.pos, m)] + k)
                                      else Run(e, x.pos, m, [Frame(Choice, a, x.pos, m)] + k)
    requires Behaves(vm, e, Run(a, x.pos, m, if greedy then [Frame(Choice, e, x.pos, m)] + k else k), more,
                     if greedy then [Frame(Choice, e, x.pos, m)] + k else k, sc)
    ensures Behaves(vm, e, c, if greedy then more + [x] else [x] + more, k, sc)
  {
    var f := Frame(Choice, if greedy then e else a, x.pos, m);
    assert ([f] + k)[1..] == k;
    if greedy {
      BehavesOne(vm, e, x, m, k, sc);
      BehavesStep(vm, e, Back([f] + k), [x], k, sc);
      BehavesAppend(vm, e, Step(vm, c), more, [x], [f], k, sc);
      BehavesStep(vm, e, c, more + [x], k, sc);
    } else {
      BehavesOne(vm, e, x, m, [f] + k, sc);
      BehavesStep(vm, e, Back([f] + k), more, k, sc);
      BehavesAppend(vm, e, Step(vm, c), [x], more, [f], k, sc);
      BehavesStep(vm, e, c, [x] + more, k, sc);
    }
  }
}
