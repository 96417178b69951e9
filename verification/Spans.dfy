/** The span of every group that has matched starts no later than it ends, and ends in
    the text. In the middle of a run the machine may hold a start behind an end, while a
    group is matched again; the outcomes, and so the answers, never do. */
module Spans {
  import opened Syntax
  import opened Semantics
  import opened Search

  ghost predicate SpanOk(c: Option<Span>, length: nat) { c.Some? ==> c.value.start <= c.value.end <= length }

  ghost predicate SpansOk(w: World, x: State) {
    x.pos <= |w.text| && forall k :: 0 <= k < |x.caps| ==> SpanOk(x.caps[k], |w.text|)
  }

  ghost predicate AllSpansOk(w: World, ys: seq<State>) { forall i :: 0 <= i < |ys| ==> SpansOk(w, ys[i]) }

  lemma MoveOk(w: World, x: State, y: State)
    requires SpansOk(w, x) && y.caps == x.caps && y.pos <= |w.text|
    ensures SpansOk(w, y)
  {
  }

  lemma ResetOk(w: World, x: State, lo: nat, hi: nat)
    requires SpansOk(w, x)
    ensures SpansOk(w, Reset(x, lo, hi))
  {
  }

  lemma ConcatOk(w: World, a: seq<State>, b: seq<State>)
    requires AllSpansOk(w, a) && AllSpansOk(w, b)
    ensures AllSpansOk(w, a + b)
  {
    hide SpansOk;
  }

  lemma CloseOk(w: World, k: nat, back: bool, x: State, ys: seq<State>)
    requires SpansOk(w, x) && AllSpansOk(w, ys)
    requires forall i :: 0 <= i < |ys| ==> k < |ys[i].caps| && if back then ys[i].pos <= x.pos else x.pos <= ys[i].pos
    ensures AllSpansOk(w, CloseAll(k, back, x, ys))
  {
    forall i | 0 <= i < |ys| ensures SpansOk(w, Close(k, back, x, ys[i])) {
      assert SpansOk(w, ys[i]);
    }
  }

  /** If every span of a state is in order, so is every span of every outcome. */
  lemma {:induction false} OutcomesOk(w: World, n: Node, cap: nat, back: bool, x: State)
    requires SpansOk(w, x) && cap + Caps(n) <= |x.caps|
    ensures AllSpansOk(w, Out(w, n, cap, back, x))
    decreases n, 2, 0, 0, 0, 0
  {
    hide SpansOk, Out;
    StaysInside(w, x);
    match n
    case Empty | One(_) | Assert(_) | BackRef(_, _) => LeafOk(w, n, cap, back, x);
    case Cat(_, _) => PairOk(w, n, cap, back, x);
    case Alt(_, _) => PairOk(w, n, cap, back, x);
    case Group(b) =>
      OutcomesOk(w, b, cap + 1, back, x);
      GroupOk(w, n, cap, back, x);
    case Look(behind, _, b) =>
      OutcomesOk(w, b, cap, behind, x);
      LookOk(w, n, cap, back, x);
    case Repeat(_, min, max, _) =>
      RepOk(w, n, cap, back, min, max, x);
      OutOfRepeat(w, n, cap, back, x);
  }

  lemma OutOfRepeat(w: World, n: Node, cap: nat, back: bool, x: State)
    requires n.Repeat? && x.pos <= |w.text| && cap + Caps(n) <= |x.caps|
    ensures Out(w, n, cap, back, x) == Rep(w, n, cap, back, n.min, n.max, x)
  {
    hide Rep;
  }

  lemma LeafOk(w: World, n: Node, cap: nat, back: bool, x: State)
    requires (n.Empty? || n.One? || n.Assert? || n.BackRef?) && SpansOk(w, x) && cap + Caps(n) <= |x.caps|
    ensures AllSpansOk(w, Out(w, n, cap, back, x))
  {
    hide Rep, OutAll, SameText, AssertionHolds, Holds, FirstSet;
  }

  lemma GroupOk(w: World, n: Node, cap: nat, back: bool, x: State)
    requires n.Group? && SpansOk(w, x) && cap + Caps(n) <= |x.caps|
    requires AllSpansOk(w, Out(w, n.body, cap + 1, back, x))
    ensures AllSpansOk(w, Out(w, n, cap, back, x))
  {
    hide Rep, OutAll, SpansOk, CloseAll;
    StaysInside(w, x);
    var ys := Out(w, n.body, cap + 1, back, x);
    forall i | 0 <= i < |ys|
      ensures cap < |ys[i].caps| && if back then ys[i].pos <= x.pos else x.pos <= ys[i].pos
    {
      assert After(w, back, cap + 1, cap + 1 + Caps(n.body), x, ys[i]);
    }
    CloseOk(w, cap, back, x, ys);
  }

  lemma LookOk(w: World, n: Node, cap: nat, back: bool, x: State)
    requires n.Look? && SpansOk(w, x) && cap + Caps(n) <= |x.caps|
    requires AllSpansOk(w, Out(w, n.body, cap, n.behind, x))
    ensures AllSpansOk(w, Out(w, n, cap, back, x))
  {
    hide Rep, OutAll;
    var ys := Out(w, n.body, cap, n.behind, x);
    if ys != [] { MoveOk(w, ys[0], ys[0].(pos := x.pos)); }
  }

  lemma {:induction false} PairOk(w: World, n: Node, cap: nat, back: bool, x: State)
    requires (n.Cat? || n.Alt?) && SpansOk(w, x) && cap + Caps(n) <= |x.caps|
    ensures AllSpansOk(w, Out(w, n, cap, back, x))
    decreases n, 1, 0, 0, 0, 0
  {
    hide SpansOk, Out, OutAll;
    StaysInside(w, x);
    if n.Cat? {
      OutOfCat(w, n, cap, back, x);
      OutcomesOk(w, Lead(n, back), LeadCap(n, cap, back), back, x);
      TrailOk(w, n, cap, back, x, Out(w, Lead(n, back), LeadCap(n, cap, back), back, x));
    } else {
      OutOfAlt(w, n, cap, back, x);
      OutcomesOk(w, n.left, cap, back, x);
      OutcomesOk(w, n.right, cap + Caps(n.left), back, x);
      ConcatOk(w, Out(w, n.left, cap, back, x), Out(w, n.right, cap + Caps(n.left), back, x));
    }
  }

  lemma {:induction false} TrailOk(w: World, n: Node, cap: nat, back: bool, x: State, ys: seq<State>)
    requires n.Cat? && x.pos <= |w.text| && cap + Caps(n) <= |x.caps|
    requires AllAfter(w, back, cap, cap + Caps(n), x, ys) && AllSpansOk(w, ys)
    ensures AllSpansOk(w, OutAll(w, Trail(n, back), TrailCap(n, cap, back), back, cap, cap + Caps(n), x, ys))
    decreases n, 0, 0, 0, 0, |ys|
  {
    hide SpansOk, Out;
    if ys != [] {
      var trail, tc := Trail(n, back), TrailCap(n, cap, back);
      assert After(w, back, cap, cap + Caps(n), x, ys[0]);
      OutcomesOk(w, trail, tc, back, ys[0]);
      TrailOk(w, n, cap, back, x, ys[1..]);
      ConcatOk(w, Out(w, trail, tc, back, ys[0]), OutAll(w, trail, tc, back, cap, cap + Caps(n), x, ys[1..]));
    }
  }

  lemma {:induction false} RepOk(w: World, n: Node, cap: nat, back: bool, min: nat, max: Bound, x: State)
    requires n.Repeat? && SpansOk(w, x) && cap + Caps(n) <= |x.caps|
    ensures AllSpansOk(w, Rep(w, n, cap, back, min, max, x))
    decreases n, 1, min, Rest(w, back, x), 1, 0
  {
    hide SpansOk, Out, RepAll;
    StaysInside(w, x);
    var xr := Reset(x, cap, cap + Caps(n));
    if max != Finite(0) {
      ResetOk(w, x, cap, cap + Caps(n));
      OutcomesOk(w, n.body, cap, back, xr);
      RepAllOk(w, n, cap, back, min, max, x, Out(w, n.body, cap, back, xr));
      var more := Iterate(w, n, cap, back, min, max, x);
      ConcatOk(w, more, [x]);
      ConcatOk(w, [x], more);
    }
  }

  lemma StaysInside(w: World, x: State)
    requires SpansOk(w, x)
    ensures x.pos <= |w.text| && AllSpansOk(w, [x])
  {
  }

  lemma {:induction false} RepAllOk(w: World, n: Node, cap: nat, back: bool, min: nat, max: Bound, x: State,
                                    ys: seq<State>)
    requires n.Repeat? && x.pos <= |w.text| && cap + Caps(n) <= |x.caps|
    requires AllAfter(w, back, cap, cap + Caps(n), x, ys) && AllSpansOk(w, ys) && max != Finite(0)
    ensures AllSpansOk(w, RepAll(w, n, cap, back, min, max, x, ys))
    decreases n, 1, min, Rest(w, back, x), 0, |ys|
  {
    hide SpansOk, Out, Rep;
    if ys != [] {
      assert After(w, back, cap, cap + Caps(n), x, ys[0]);
      if !(min == 0 && ys[0].pos == x.pos) { RepOk(w, n, cap, back, Pred(min), Less(max), ys[0]); }
      RepAllOk(w, n, cap, back, min, max, x, ys[1..]);
      ConcatOk(w, RepNext(w, n, cap, back, min, max, x, ys[0]), RepAll(w, n, cap, back, min, max, x, ys[1..]));
    }
  }

  /** So the first match of an expression has every span in order. */
  lemma {:induction false} FirstMatchOk(w: World, n: Node, sticky: bool, i: nat)
    requires i <= |w.text|
    ensures FirstMatch(w, n, sticky, i).Some? ==> SpansOk(w, FirstMatch(w, n, sticky, i).value)
    decreases |w.text| - i
  {
    hide Out;
    OutcomesOk(w, Group(n), 0, false, State(i, NoCaps(1 + Caps(n))));
    if i < |w.text| { FirstMatchOk(w, n, sticky, i + 1); }
  }
}
