/** The continuation-passing matchers of section 22.2.2 of ECMA-262, and the proof
    that they agree with the outcome lists of module Semantics: a matcher run with
    a continuation yields what the continuation makes of the first outcome it
    accepts. The standard leaves termination implicit; here the continuations built
    on the way test that the state they are given lies ahead of the one the matcher
    started from, which every state they ever receive does. */
module EcmaMatcher {
  import opened Syntax
  import opened Semantics

  type Result = Option<State>
  type Continuation = State -> Result

  ghost predicate Ready(w: World, n: Node, cap: nat, x: State) {
    x.pos <= |w.text| && cap + Caps(n) <= |x.caps|
  }

  /** CompileSubpattern: the matcher of `n` applied to a state and a continuation. */
  ghost function M(w: World, n: Node, cap: nat, back: bool, x: State, c: Continuation): (r: Result)
    requires Ready(w, n, cap, x)
    decreases n, 3, 0, 0, 0
  {
    match n
    case Empty => c(x)
    case One(t) =>
      var ys := OneOut(w, t, back, x);
      if ys == [] then None else c(ys[0])
    case Assert(a) => if AssertionHolds(w, a, x.pos) then c(x) else None
    case BackRef(groups, icase) =>
      var ys := BackRefOut(w, groups, icase, back, x);
      if ys == [] then None else c(ys[0])
    case Cat(_, _) => MCat(w, n, cap, back, x, c)
    case Alt(l, r) =>
      var first := M(w, l, cap, back, x, c);
      if first.Some? then first else M(w, r, cap + Caps(l), back, x, c)
    case Group(b) => M(w, b, cap + 1, back, x, Closing(w, n, cap, back, x, c))
    case Look(_, _, _) => MLook(w, n, cap, back, x, c)
    case Repeat(b, min, max, _) => RepeatMatcher(w, n, cap, back, min, max, x, c)
  }

  /** The terms of an alternative, each the continuation of its predecessor. */
  ghost function MCat(w: World, n: Node, cap: nat, back: bool, x: State, c: Continuation): (r: Result)
    requires n.Cat? && Ready(w, n, cap, x)
    decreases n, 2, 0, 0, 0
  {
    M(w, Lead(n, back), LeadCap(n, cap, back), back, x, Then(w, n, cap, back, x, c))
  }

  ghost function Then(w: World, n: Node, cap: nat, back: bool, x: State, c: Continuation): (d: Continuation)
    requires n.Cat? && Ready(w, n, cap, x)
    decreases n, 1, 0, 0, 0
  {
    (y: State) =>
      if AfterLead(w, n, cap, back, x, y) then M(w, Trail(n, back), TrailCap(n, cap, back), back, y, c) else None
  }

  predicate AfterLead(w: World, n: Node, cap: nat, back: bool, x: State, y: State)
    requires n.Cat?
  {
    var from := LeadCap(n, cap, back);
    After(w, back, from, from + Caps(Lead(n, back)), x, y)
  }

  ghost function Closing(w: World, n: Node, cap: nat, back: bool, x: State, c: Continuation): (d: Continuation)
    requires n.Group? && Ready(w, n, cap, x)
    decreases n, 1, 0, 0, 0
  {
    (y: State) => if After(w, back, cap + 1, cap + Caps(n), x, y) then c(Close(cap, back, x, y)) else None
  }

  ghost function Identity(): Continuation {
    (y: State) => Some(y)
  }

  /** A lookaround runs its body with the identity continuation: only the first
      outcome counts, and the position is restored. */
  ghost function MLook(w: World, n: Node, cap: nat, back: bool, x: State, c: Continuation): (r: Result)
    requires n.Look? && Ready(w, n, cap, x)
    decreases n, 1, 0, 0, 0
  {
    var r := M(w, n.body, cap, n.behind, x, Identity());
    if n.negative then
      if r.Some? then None else c(x)
    else if r.Some? then c(r.value.(pos := x.pos))
    else None
  }

  /** RepeatMatcher (section 22.2.2.3.1). */
  ghost function RepeatMatcher(w: World, n: Node, cap: nat, back: bool, min: nat, max: Bound, x: State,
                               c: Continuation): (r: Result)
    requires n.Repeat? && Ready(w, n, cap, x)
    decreases n, 1, min, Rest(w, back, x), 1
  {
    if max == Finite(0) then c(x)
    else
      var xr := Reset(x, cap, cap + Caps(n));
      var d := Again(w, n, cap, back, min, max, x, c);
      if min > 0 then M(w, n.body, cap, back, xr, d)
      else if n.greedy then
        var z := M(w, n.body, cap, back, xr, d);
        if z.Some? then z else c(x)
      else
        var z := c(x);
        if z.Some? then z else M(w, n.body, cap, back, xr, d)
  }

  ghost function Again(w: World, n: Node, cap: nat, back: bool, min: nat, max: Bound, x: State,
                       c: Continuation): (d: Continuation)
    requires n.Repeat? && Ready(w, n, cap, x)
    decreases n, 1, min, Rest(w, back, x), 0
  {
    (y: State) =>
      if !After(w, back, cap, cap + Caps(n), x, y) || (min == 0 && y.pos == x.pos) then None
      else RepeatMatcher(w, n, cap, back, Pred(min), Less(max), y, c)
  }

  /** The answer for the first outcome the continuation accepts. */
  ghost function First(ys: seq<State>, c: Continuation): Result
  {
    if ys == [] then None
    else if c(ys[0]).Some? then c(ys[0])
    else First(ys[1..], c)
  }

  lemma {:induction false} FirstConcat(a: seq<State>, b: seq<State>, c: Continuation)
    ensures First(a + b, c) == if First(a, c).Some? then First(a, c) else First(b, c)
  {
    if a == [] {
      assert a + b == b;
    } else {
      assert (a + b)[1..] == a[1..] + b;
      FirstConcat(a[1..], b, c);
    }
  }

  /** The continuation-passing matcher of section 22.2.2 answers with the first
      outcome, in priority order, that its continuation accepts. */
  lemma {:induction false} MatcherTakesFirst(w: World, n: Node, cap: nat, back: bool, x: State, c: Continuation)
    requires Ready(w, n, cap, x)
    ensures M(w, n, cap, back, x, c) == First(Out(w, n, cap, back, x), c)
    decreases n, 3, 0, 0, 0
  {
    hide *;
    match n
    case Empty | One(_) | Assert(_) | BackRef(_, _) => LeafTakesFirst(w, n, cap, back, x, c);
    case Cat(_, _) => TermsTakeFirst(w, n, cap, back, x, c);
    case Alt(_, _) => AltTakesFirst(w, n, cap, back, x, c);
    case Group(_) => CaptureTakesFirst(w, n, cap, back, x, c);
    case Look(_, _, _) =>
      LookTakesFirst(w, n, cap, back, x, c);
      MatcherOfNest(w, n, cap, back, x, c);
    case Repeat(b, min, max, _) =>
      RepeatTakesFirst(w, n, cap, back, min, max, x, c);
      MatcherOfNest(w, n, cap, back, x, c);
  }

  lemma LeafTakesFirst(w: World, n: Node, cap: nat, back: bool, x: State, c: Continuation)
    requires (n.Empty? || n.One? || n.Assert? || n.BackRef?) && Ready(w, n, cap, x)
    ensures M(w, n, cap, back, x, c) == First(Out(w, n, cap, back, x), c)
  {
    hide After, OutAll, Rep, RepeatMatcher, First, AssertionHolds, Holds, FirstSet, SameText;
    match n
    case Empty => FirstOfOne(x, c);
    case One(t) => FirstOfOnes(OneOut(w, t, back, x), c);
    case Assert(a) => FirstOfOne(x, c); FirstOfNone(c);
    case BackRef(groups, icase) => FirstOfOnes(BackRefOut(w, groups, icase, back, x), c);
  }

  lemma {:induction false} TermsTakeFirst(w: World, n: Node, cap: nat, back: bool, x: State, c: Continuation)
    requires n.Cat? && Ready(w, n, cap, x)
    ensures M(w, n, cap, back, x, c) == First(Out(w, n, cap, back, x), c)
    decreases n, 2, 1
  {
    hide After, Out, OutAll, M, Then, First, Lead, Trail, LeadCap, TrailCap, Caps;
    MatcherOfCat(w, n, cap, back, x, c);
    MatcherTakesFirst(w, Lead(n, back), LeadCap(n, cap, back), back, x, Then(w, n, cap, back, x, c));
    CatLeads(w, n, cap, back, x);
    OutOfCat(w, n, cap, back, x);
    CatTakesFirst(w, n, cap, back, x, c, Out(w, Lead(n, back), LeadCap(n, cap, back), back, x));
  }

  lemma MatcherOfCat(w: World, n: Node, cap: nat, back: bool, x: State, c: Continuation)
    requires n.Cat? && Ready(w, n, cap, x)
    ensures Ready(w, Lead(n, back), LeadCap(n, cap, back), x)
    ensures M(w, n, cap, back, x, c) == M(w, Lead(n, back), LeadCap(n, cap, back), back, x, Then(w, n, cap, back, x, c))
  {
    hide Then;
  }

  lemma {:induction false} AltTakesFirst(w: World, n: Node, cap: nat, back: bool, x: State, c: Continuation)
    requires n.Alt? && Ready(w, n, cap, x)
    ensures M(w, n, cap, back, x, c) == First(Out(w, n, cap, back, x), c)
    decreases n, 2, 1
  {
    hide After, Out, OutAll, M, First, Caps;
    MatcherOfAlt(w, n, cap, back, x, c);
    OutOfAlt(w, n, cap, back, x);
    MatcherTakesFirst(w, n.left, cap, back, x, c);
    MatcherTakesFirst(w, n.right, cap + Caps(n.left), back, x, c);
    FirstConcat(Out(w, n.left, cap, back, x), Out(w, n.right, cap + Caps(n.left), back, x), c);
  }

  lemma MatcherOfAlt(w: World, n: Node, cap: nat, back: bool, x: State, c: Continuation)
    requires n.Alt? && Ready(w, n, cap, x)
    ensures Ready(w, n.left, cap, x) && Ready(w, n.right, cap + Caps(n.left), x)
    ensures var first := M(w, n.left, cap, back, x, c);
            M(w, n, cap, back, x, c) == if first.Some? then first else M(w, n.right, cap + Caps(n.left), back, x, c)
  {
  }

  lemma {:induction false} CaptureTakesFirst(w: World, n: Node, cap: nat, back: bool, x: State, c: Continuation)
    requires n.Group? && Ready(w, n, cap, x)
    ensures M(w, n, cap, back, x, c) == First(Out(w, n, cap, back, x), c)
    decreases n, 2, 1
  {
    hide After, Out, M, OutAll, Rep, RepeatMatcher, First, Closing;
    MatcherOfGroup(w, n, cap, back, x, c);
    MatcherTakesFirst(w, n.body, cap + 1, back, x, Closing(w, n, cap, back, x, c));
    GroupTakesFirst(w, n, cap, back, x, c, Out(w, n.body, cap + 1, back, x));
  }

  lemma MatcherOfGroup(w: World, n: Node, cap: nat, back: bool, x: State, c: Continuation)
    requires n.Group? && Ready(w, n, cap, x)
    ensures Ready(w, n.body, cap + 1, x) && cap + Caps(n) == cap + 1 + Caps(n.body)
    ensures M(w, n, cap, back, x, c) == M(w, n.body, cap + 1, back, x, Closing(w, n, cap, back, x, c))
    ensures Out(w, n, cap, back, x) == CloseAll(cap, back, x, Out(w, n.body, cap + 1, back, x))
  {
    hide Closing, CloseAll, After;
  }

  lemma MatcherOfNest(w: World, n: Node, cap: nat, back: bool, x: State, c: Continuation)
    requires (n.Look? || n.Repeat?) && Ready(w, n, cap, x)
    ensures n.Look? ==> M(w, n, cap, back, x, c) == MLook(w, n, cap, back, x, c)
    ensures n.Repeat? ==>
              && M(w, n, cap, back, x, c) == RepeatMatcher(w, n, cap, back, n.min, n.max, x, c)
              && Out(w, n, cap, back, x) == Rep(w, n, cap, back, n.min, n.max, x)
  {
    hide MLook, RepeatMatcher, Rep;
  }

  lemma FirstOfNone(c: Continuation)
    ensures First([], c) == None
  {
  }

  lemma FirstOfOne(x: State, c: Continuation)
    ensures First([x], c) == c(x)
  {
  }

  lemma FirstOfOnes(ys: seq<State>, c: Continuation)
    requires |ys| <= 1
    ensures First(ys, c) == if ys == [] then None else c(ys[0])
  {
  }

  lemma CatLeads(w: World, n: Node, cap: nat, back: bool, x: State)
    requires n.Cat? && Ready(w, n, cap, x)
    ensures var ys := Out(w, Lead(n, back), LeadCap(n, cap, back), back, x);
            && (forall i :: 0 <= i < |ys| ==> AfterLead(w, n, cap, back, x, ys[i]))
            && AllAfter(w, back, cap, cap + Caps(n), x, ys)
  {
    hide Out;
    var ys := Out(w, Lead(n, back), LeadCap(n, cap, back), back, x);
    forall i | 0 <= i < |ys| ensures After(w, back, cap, cap + Caps(n), x, ys[i]) {
      assert AfterLead(w, n, cap, back, x, ys[i]);
    }
  }

  lemma {:induction false} LookTakesFirst(w: World, n: Node, cap: nat, back: bool, x: State, c: Continuation)
    requires n.Look? && Ready(w, n, cap, x)
    ensures MLook(w, n, cap, back, x, c) == First(Out(w, n, cap, back, x), c)
    decreases n, 2, 0, 0, 0
  {
    hide After, OutAll, Rep, RepeatMatcher;
    MatcherTakesFirst(w, n.body, cap, n.behind, x, Identity());
  }

  lemma {:induction false} CatTakesFirst(w: World, n: Node, cap: nat, back: bool, x: State, c: Continuation,
                                         ys: seq<State>)
    requires n.Cat? && Ready(w, n, cap, x)
    requires forall i :: 0 <= i < |ys| ==> AfterLead(w, n, cap, back, x, ys[i])
    requires AllAfter(w, back, cap, cap + Caps(n), x, ys)
    ensures First(ys, Then(w, n, cap, back, x, c)) ==
            First(OutAll(w, Trail(n, back), TrailCap(n, cap, back), back, cap, cap + Caps(n), x, ys), c)
    decreases n, 2, 0, 0, |ys|
  {
    if ys != [] {
      MatcherTakesFirst(w, Trail(n, back), TrailCap(n, cap, back), back, ys[0], c);
      CatTakesFirst(w, n, cap, back, x, c, ys[1..]);
      FirstConcat(Out(w, Trail(n, back), TrailCap(n, cap, back), back, ys[0]),
                  OutAll(w, Trail(n, back), TrailCap(n, cap, back), back, cap, cap + Caps(n), x, ys[1..]), c);
    }
  }

  lemma {:induction false} GroupTakesFirst(w: World, n: Node, cap: nat, back: bool, x: State, c: Continuation,
                                           ys: seq<State>)
    requires n.Group? && Ready(w, n, cap, x)
    requires AllAfter(w, back, cap + 1, cap + Caps(n), x, ys)
    ensures AllAfter(w, back, cap, cap + Caps(n), x, CloseAll(cap, back, x, ys))
    ensures First(ys, Closing(w, n, cap, back, x, c)) == First(CloseAll(cap, back, x, ys), c)
    decreases |ys|
  {
    if ys != [] {
      GroupTakesFirst(w, n, cap, back, x, c, ys[1..]);
      assert CloseAll(cap, back, x, ys)[1..] == CloseAll(cap, back, x, ys[1..]);
      assert After(w, back, cap, cap + Caps(n), x, Close(cap, back, x, ys[0]));
    }
  }

  lemma {:induction false} RepeatTakesFirst(w: World, n: Node, cap: nat, back: bool, min: nat, max: Bound, x: State,
                                            c: Continuation)
    requires n.Repeat? && Ready(w, n, cap, x)
    ensures RepeatMatcher(w, n, cap, back, min, max, x, c) == First(Rep(w, n, cap, back, min, max, x), c)
    decreases n, 1, min, Rest(w, back, x), 1
  {
    hide Out, OutAll, RepAll, M, After, First;
    var xr := Reset(x, cap, cap + Caps(n));
    var more := Iterate(w, n, cap, back, min, max, x);
    FirstOfOne(x, c);
    if max != Finite(0) {
      var ys := Out(w, n.body, cap, back, xr);
      MatcherTakesFirst(w, n.body, cap, back, xr, Again(w, n, cap, back, min, max, x, c));
      ResetAfter(w, back, cap, cap + Caps(n), x, ys);
      AgainTakesFirst(w, n, cap, back, min, max, x, c, ys);
      FirstConcat(more, [x], c);
      FirstConcat([x], more, c);
    }
  }

  lemma ResetAfter(w: World, back: bool, lo: nat, hi: nat, x: State, ys: seq<State>)
    requires AllAfter(w, back, lo, hi, Reset(x, lo, hi), ys)
    ensures AllAfter(w, back, lo, hi, x, ys)
  {
    forall i | 0 <= i < |ys| ensures After(w, back, lo, hi, x, ys[i]) {
      assert After(w, back, lo, hi, Reset(x, lo, hi), ys[i]);
    }
  }

  lemma {:induction false} AgainTakesFirst(w: World, n: Node, cap: nat, back: bool, min: nat, max: Bound, x: State,
                                           c: Continuation, ys: seq<State>)
    requires n.Repeat? && Ready(w, n, cap, x)
    requires AllAfter(w, back, cap, cap + Caps(n), x, ys)
    ensures First(ys, Again(w, n, cap, back, min, max, x, c)) == First(RepAll(w, n, cap, back, min, max, x, ys), c)
    decreases n, 1, min, Rest(w, back, x), 0, |ys|
  {
    if ys != [] {
      var y := ys[0];
      if !(min == 0 && y.pos == x.pos) {
        RepeatTakesFirst(w, n, cap, back, Pred(min), Less(max), y, c);
      }
      AgainTakesFirst(w, n, cap, back, min, max, x, c, ys[1..]);
      FirstConcat(RepNext(w, n, cap, back, min, max, x, y), RepAll(w, n, cap, back, min, max, x, ys[1..]), c);
    }
  }
}
