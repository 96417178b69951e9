/** What the 31-bit iteration counters mean. The code of an expression always
    behaves as the expression with the counters' bounds made explicit, and that is
    the expression itself as long as no counter can run out. */
module Counters {
  import opened Syntax
  import opened Semantics
  import opened Bytecode
  import opened Compiler
  import opened Machine
  import opened Search

  /** The expression that the code of `n` stands for. */
  function Emitted(g: Canon, n: Node, cap: nat, back: bool): (r: Node)
    ensures Caps(r) == Caps(n)
  {
    match n
    case Empty | One(_) | Assert(_) | BackRef(_, _) => n
    case Cat(l, r) => Cat(Emitted(g, l, cap, back), Emitted(g, r, cap + Caps(l), back))
    case Alt(l, r) => Alt(Emitted(g, l, cap, back), Emitted(g, r, cap + Caps(l), back))
    case Group(b) => Group(Emitted(g, b, cap + 1, back))
    case Look(behind, negative, b) => Look(behind, negative, Emitted(g, b, cap, behind))
    case Repeat(b, min, max, greedy) =>
      Repeat(Emitted(g, b, cap, back), min, EmittedMax(NeedsAdvanceCheck(Code(g, b, cap, back)), min, max), greedy)
  }

  /** Both codes of two nodes. */
  ghost predicate SameCode(g: Canon, n: Node, n': Node, cap: nat, back: bool) {
    Caps(n') == Caps(n) && Code(g, n', cap, back) == Code(g, n, cap, back)
  }

  ghost predicate SameFrag(g: Canon, n: Node, n': Node, cap: nat, back: bool, d: nat) {
    Caps(n') == Caps(n) && Frag(g, n', cap, back, d) == Frag(g, n, cap, back, d)
  }

  lemma CatCode(g: Canon, l: Node, r: Node, l': Node, r': Node, cap: nat, back: bool)
    requires SameCode(g, l, l', cap, back) && SameCode(g, r, r', cap + Caps(l), back)
    ensures SameCode(g, Cat(l, r), Cat(l', r'), cap, back)
  {
    hide Code, Caps;
    CapsOfPair(l, r);
    CapsOfPair(l', r');
    CodeOfCat(g, Cat(l, r), cap, back);
    CodeOfCat(g, Cat(l', r'), cap, back);
  }

  lemma AltCode(g: Canon, l: Node, r: Node, l': Node, r': Node, cap: nat, back: bool)
    requires SameCode(g, l, l', cap, back) && SameCode(g, r, r', cap + Caps(l), back)
    ensures SameCode(g, Alt(l, r), Alt(l', r'), cap, back)
  {
    hide Code, Size;
    CodeOfAlt(g, Alt(l, r), cap, back);
    CodeOfAlt(g, Alt(l', r'), cap, back);
  }

  lemma GroupCode(g: Canon, b: Node, b': Node, cap: nat, back: bool)
    requires SameCode(g, b, b', cap + 1, back)
    ensures SameCode(g, Group(b), Group(b'), cap, back)
  {
    hide Size, Wrap, NeedsAdvanceCheck, NeedsCaptureInit, TestOp;
  }

  lemma LookCode(g: Canon, behind: bool, negative: bool, b: Node, b': Node, cap: nat, back: bool)
    requires SameCode(g, b, b', cap, behind)
    ensures SameCode(g, Look(behind, negative, b), Look(behind, negative, b'), cap, back)
  {
    hide Size, Wrap, NeedsAdvanceCheck, NeedsCaptureInit, TestOp;
  }

  lemma CatFrag(g: Canon, l: Node, r: Node, l': Node, r': Node, cap: nat, back: bool, d: nat)
    requires SameFrag(g, l, l', cap, back, d) && SameFrag(g, r, r', cap + Caps(l), back, d)
    ensures SameFrag(g, Cat(l, r), Cat(l', r'), cap, back, d)
  {
    hide Frag, Caps;
    CapsOfPair(l, r);
    CapsOfPair(l', r');
    FragOfCat(g, Cat(l, r), cap, back, d);
    FragOfCat(g, Cat(l', r'), cap, back, d);
  }

  lemma AltFrag(g: Canon, l: Node, r: Node, l': Node, r': Node, cap: nat, back: bool, d: nat)
    requires SameFrag(g, l, l', cap, back, d) && SameFrag(g, r, r', cap + Caps(l), back, d)
    ensures SameFrag(g, Alt(l, r), Alt(l', r'), cap, back, d)
  {
    hide Frag, Size;
    FragOfAlt(g, Alt(l, r), cap, back, d);
    FragOfAlt(g, Alt(l', r'), cap, back, d);
  }

  lemma GroupFrag(g: Canon, b: Node, b': Node, cap: nat, back: bool, d: nat)
    requires SameFrag(g, b, b', cap + 1, back, d)
    ensures SameFrag(g, Group(b), Group(b'), cap, back, d)
  {
    hide Size, Wrap, NeedsAdvanceCheck, NeedsCaptureInit, TestOp, Code, Held;
  }

  lemma LookFrag(g: Canon, behind: bool, negative: bool, b: Node, b': Node, cap: nat, back: bool, d: nat)
    requires SameFrag(g, b, b', cap, behind, d)
    ensures SameFrag(g, Look(behind, negative, b), Look(behind, negative, b'), cap, back, d)
  {
    hide Size, Wrap, NeedsAdvanceCheck, NeedsCaptureInit, TestOp, Code, Held;
  }

  lemma RepeatCode(g: Canon, b: Node, b': Node, min: nat, max: Bound, max': Bound, greedy: bool, cap: nat, back: bool)
    requires SameCode(g, b, b', cap, back) && QuantMax(max') == QuantMax(max)
    ensures SameCode(g, Repeat(b, min, max, greedy), Repeat(b', min, max', greedy), cap, back)
  {
    hide Size, Wrap, NeedsAdvanceCheck, NeedsCaptureInit, TestOp;
  }

  lemma RepeatFrag(g: Canon, b: Node, b': Node, min: nat, max: Bound, max': Bound, greedy: bool, cap: nat, back: bool,
                   d: nat)
    requires SameCode(g, b, b', cap, back) && QuantMax(max') == QuantMax(max)
    requires SameFrag(g, b, b', cap, back, d + Held(NeedsAdvanceCheck(Code(g, b, cap, back)), min, QuantMax(max)))
    ensures SameFrag(g, Repeat(b, min, max, greedy), Repeat(b', min, max', greedy), cap, back, d)
  {
    hide Size, Wrap, NeedsAdvanceCheck, NeedsCaptureInit, TestOp, Code, Held;
  }

  /** It has the same code ... */
  lemma {:induction false} EmittedCode(g: Canon, n: Node, cap: nat, back: bool)
    ensures SameCode(g, n, Emitted(g, n, cap, back), cap, back)
  {
    hide Code, SameCode, NeedsAdvanceCheck, Caps, Counts;
    match n
    case Empty | One(_) | Assert(_) | BackRef(_, _) => SameCodeSelf(g, n, cap, back);
    case Cat(l, r) =>
      EmittedCode(g, l, cap, back);
      EmittedCode(g, r, cap + Caps(l), back);
      CatCode(g, l, r, Emitted(g, l, cap, back), Emitted(g, r, cap + Caps(l), back), cap, back);
    case Alt(l, r) =>
      EmittedCode(g, l, cap, back);
      EmittedCode(g, r, cap + Caps(l), back);
      AltCode(g, l, r, Emitted(g, l, cap, back), Emitted(g, r, cap + Caps(l), back), cap, back);
    case Group(b) =>
      EmittedCode(g, b, cap + 1, back);
      GroupCode(g, b, Emitted(g, b, cap + 1, back), cap, back);
    case Look(behind, negative, b) =>
      EmittedCode(g, b, cap, behind);
      LookCode(g, behind, negative, b, Emitted(g, b, cap, behind), cap, back);
    case Repeat(b, min, max, greedy) =>
      EmittedCode(g, b, cap, back);
      RepeatCode(g, b, Emitted(g, b, cap, back), min, max, Emitted(g, n, cap, back).max, greedy, cap, back);
  }

  lemma SameCodeSelf(g: Canon, n: Node, cap: nat, back: bool)
    ensures SameCode(g, n, n, cap, back)
    ensures forall d :: SameFrag(g, n, n, cap, back, d)
  {
    hide Code, Frag, Caps;
  }

  lemma {:induction false} EmittedFrag(g: Canon, n: Node, cap: nat, back: bool, d: nat)
    ensures SameFrag(g, n, Emitted(g, n, cap, back), cap, back, d)
  {
    hide Code, Frag, SameCode, SameFrag, NeedsAdvanceCheck, Caps, Counts;
    match n
    case Empty | One(_) | Assert(_) | BackRef(_, _) => SameCodeSelf(g, n, cap, back);
    case Cat(l, r) =>
      EmittedFrag(g, l, cap, back, d);
      EmittedFrag(g, r, cap + Caps(l), back, d);
      CatFrag(g, l, r, Emitted(g, l, cap, back), Emitted(g, r, cap + Caps(l), back), cap, back, d);
    case Alt(l, r) =>
      EmittedFrag(g, l, cap, back, d);
      EmittedFrag(g, r, cap + Caps(l), back, d);
      AltFrag(g, l, r, Emitted(g, l, cap, back), Emitted(g, r, cap + Caps(l), back), cap, back, d);
    case Group(b) =>
      EmittedFrag(g, b, cap + 1, back, d);
      GroupFrag(g, b, Emitted(g, b, cap + 1, back), cap, back, d);
    case Look(behind, negative, b) =>
      EmittedFrag(g, b, cap, behind, d);
      LookFrag(g, behind, negative, b, Emitted(g, b, cap, behind), cap, back, d);
    case Repeat(b, min, max, greedy) =>
      EmittedCode(g, b, cap, back);
      EmittedFrag(g, b, cap, back, d + Held(NeedsAdvanceCheck(Code(g, b, cap, back)), min, QuantMax(max)));
      RepeatFrag(g, b, Emitted(g, b, cap, back), min, max, Emitted(g, n, cap, back).max, greedy, cap, back, d);
  }

  /** ... needs the same registers, and has the bounds that its code has. */
  lemma {:induction false} EmittedKept(g: Canon, n: Node, cap: nat, back: bool, total: nat)
    requires WellFormed(n, total)
    ensures Kept(g, n, Emitted(g, n, cap, back), cap, back, total)
  {
    hide Code, Held, NeedsAdvanceCheck, ValidTest, Caps, Counts, WellFormed, BoundsKept, Registers;
    var n' := Emitted(g, n, cap, back);
    FormedParts(n, total);
    match n
    case Empty | One(_) | Assert(_) | BackRef(_, _) => KeptLeaf(g, n, cap, back, total);
    case Cat(l, r) =>
      EmittedKept(g, l, cap, back, total);
      EmittedKept(g, r, cap + Caps(l), back, total);
      KeptPair(g, n, n', cap, back, total);
    case Alt(l, r) =>
      EmittedKept(g, l, cap, back, total);
      EmittedKept(g, r, cap + Caps(l), back, total);
      KeptPair(g, n, n', cap, back, total);
    case Group(b) =>
      EmittedKept(g, b, cap + 1, back, total);
      KeptBody(g, n, n', cap, back, total);
    case Look(behind, _, b) =>
      EmittedKept(g, b, cap, behind, total);
      KeptBody(g, n, n', cap, back, total);
    case Repeat(b, _, _, _) =>
      EmittedCode(g, b, cap, back);
      EmittedKept(g, b, cap, back, total);
      KeptRepeat(g, n, n', cap, back, total);
  }

  ghost predicate Kept(g: Canon, n: Node, n': Node, cap: nat, back: bool, total: nat) {
    && Caps(n') == Caps(n) && WellFormed(n', total) && BoundsKept(g, n', cap, back)
    && Registers(g, n', cap, back) == Registers(g, n, cap, back)
  }

  lemma FormedParts(n: Node, total: nat)
    requires WellFormed(n, total)
    ensures n.Cat? || n.Alt? ==> WellFormed(n.left, total) && WellFormed(n.right, total)
    ensures n.Group? || n.Look? || n.Repeat? ==> WellFormed(n.body, total)
    ensures n.Repeat? ==> n.min <= INT32_MAX && (n.max.Finite? ==> n.min <= n.max.n <= INT32_MAX)
  {
  }

  lemma KeptLeaf(g: Canon, n: Node, cap: nat, back: bool, total: nat)
    requires WellFormed(n, total) && (n.Empty? || n.One? || n.Assert? || n.BackRef?)
    ensures Kept(g, n, n, cap, back, total)
  {
  }

  lemma KeptCat(g: Canon, n: Node, n': Node, cap: nat, back: bool, total: nat)
    requires n.Cat? && n'.Cat?
    requires Kept(g, n.left, n'.left, cap, back, total) && Kept(g, n.right, n'.right, cap + Caps(n.left), back, total)
    ensures Kept(g, n, n', cap, back, total)
  {
    hide Code, Held, NeedsAdvanceCheck, ValidTest, Counts, EmittedMax, ValidPoints;
  }

  lemma KeptAlt(g: Canon, n: Node, n': Node, cap: nat, back: bool, total: nat)
    requires n.Alt? && n'.Alt?
    requires Kept(g, n.left, n'.left, cap, back, total) && Kept(g, n.right, n'.right, cap + Caps(n.left), back, total)
    ensures Kept(g, n, n', cap, back, total)
  {
    hide Code, Held, NeedsAdvanceCheck, ValidTest, Counts, EmittedMax, ValidPoints;
  }

  lemma KeptPair(g: Canon, n: Node, n': Node, cap: nat, back: bool, total: nat)
    requires (n.Cat? && n'.Cat?) || (n.Alt? && n'.Alt?)
    requires Kept(g, n.left, n'.left, cap, back, total) && Kept(g, n.right, n'.right, cap + Caps(n.left), back, total)
    ensures Kept(g, n, n', cap, back, total)
  {
    hide Kept;
    if n.Cat? { KeptCat(g, n, n', cap, back, total); } else { KeptAlt(g, n, n', cap, back, total); }
  }

  lemma KeptBody(g: Canon, n: Node, n': Node, cap: nat, back: bool, total: nat)
    requires (n.Group? && n'.Group?) || (n.Look? && n'.Look? && n'.behind == n.behind)
    requires Kept(g, n.body, n'.body, if n.Group? then cap + 1 else cap, if n.Look? then n.behind else back, total)
    ensures Kept(g, n, n', cap, back, total)
  {
    hide Code, Held, NeedsAdvanceCheck, ValidTest, Counts;
  }

  lemma KeptRepeat(g: Canon, n: Node, n': Node, cap: nat, back: bool, total: nat)
    requires n.Repeat? && n'.Repeat? && n'.min == n.min <= INT32_MAX
             && (n.max.Finite? ==> n.min <= n.max.n <= INT32_MAX)
    requires SameCode(g, n.body, n'.body, cap, back) && Kept(g, n.body, n'.body, cap, back, total)
    requires n'.max == EmittedMax(NeedsAdvanceCheck(Code(g, n.body, cap, back)), n.min, n.max)
    ensures Kept(g, n, n', cap, back, total)
  {
    hide Code, Held, NeedsAdvanceCheck, ValidTest;
  }

  /* ----- when the bounds make no difference ----- */

  /** No counter that stands for "no upper bound" can run out on a subject of this
      length: `min` iterations and then one per character fit in INT32_MAX. Nothing is
      asked of a quantifier that keeps no counter, such as `a*`. */
  ghost predicate CountersFit(g: Canon, n: Node, cap: nat, back: bool, length: nat) {
    match n
    case Empty | Assert(_) | One(_) | BackRef(_, _) => true
    case Cat(l, r) => CountersFit(g, l, cap, back, length) && CountersFit(g, r, cap + Caps(l), back, length)
    case Alt(l, r) => CountersFit(g, l, cap, back, length) && CountersFit(g, r, cap + Caps(l), back, length)
    case Group(b) => CountersFit(g, b, cap + 1, back, length)
    case Look(behind, _, b) => CountersFit(g, b, cap, behind, length)
    case Repeat(b, min, max, _) =>
      && CountersFit(g, b, cap, back, length)
      && (EmittedMax(NeedsAdvanceCheck(Code(g, b, cap, back)), min, max) == max || min + length <= INT32_MAX)
  }

  lemma {:induction false} AllStandstill(w: World, n: Node, cap: nat, back: bool, max: Bound, x: State, ys: seq<State>)
    requires n.Repeat? && x.pos <= |w.text| && cap + Caps(n) <= |x.caps|
    requires AllAfter(w, back, cap, cap + Caps(n), x, ys) && Rest(w, back, x) == 0
    ensures RepAll(w, n, cap, back, 0, max, x, ys) == []
    decreases |ys|
  {
    if ys != [] {
      assert After(w, back, cap, cap + Caps(n), x, ys[0]);
      AllStandstill(w, n, cap, back, max, x, ys[1..]);
    }
  }

  /** With nothing left to consume an optional iteration has no outcome. */
  lemma NoRoomNoIteration(w: World, n: Node, cap: nat, back: bool, max: Bound, x: State)
    requires n.Repeat? && x.pos <= |w.text| && cap + Caps(n) <= |x.caps|
    requires Rest(w, back, x) == 0
    ensures Iterate(w, n, cap, back, 0, max, x) == []
  {
    AllStandstill(w, n, cap, back, max, x, Out(w, n.body, cap, back, Reset(x, cap, cap + Caps(n))));
  }

  /** Two upper bounds that `need` iterations cannot tell apart. */
  ghost predicate Alike(a: Bound, b: Bound, need: nat) {
    a == b || (a.Infinite? && b.Finite? && need <= b.n) || (b.Infinite? && a.Finite? && need <= a.n)
  }

  /** Two quantified nodes whose bodies mean the same. */
  ghost predicate SameBody(w: World, n: Node, n': Node, cap: nat, back: bool) {
    && n.Repeat? && n'.Repeat? && n.greedy == n'.greedy && Caps(n) == Caps(n')
    && forall x: State :: x.pos <= |w.text| && cap + Caps(n) <= |x.caps| ==>
         Out(w, n.body, cap, back, x) == Out(w, n'.body, cap, back, x)
  }

  lemma {:induction false} RepSame(w: World, n: Node, n': Node, cap: nat, back: bool, min: nat, max: Bound,
                                   max': Bound, x: State)
    requires SameBody(w, n, n', cap, back) && x.pos <= |w.text| && cap + Caps(n) <= |x.caps|
    requires Alike(max, max', min + Rest(w, back, x))
    ensures Rep(w, n, cap, back, min, max, x) == Rep(w, n', cap, back, min, max', x)
    decreases min, Rest(w, back, x), 2, 0
  {
    hide Out, SameBody, Iterate;
    Greedy(w, n, n', cap, back);
    if max == Finite(0) || max' == Finite(0) {
      NoRoomBoth(w, n, n', cap, back, min, max, max', x);
    } else {
      IterateSame(w, n, n', cap, back, min, max, max', x);
    }
  }

  lemma Greedy(w: World, n: Node, n': Node, cap: nat, back: bool)
    requires SameBody(w, n, n', cap, back)
    ensures n.Repeat? && n'.Repeat? && n.greedy == n'.greedy && Caps(n) == Caps(n')
  {
  }

  lemma SameBodyAt(w: World, n: Node, n': Node, cap: nat, back: bool, x: State)
    requires SameBody(w, n, n', cap, back) && x.pos <= |w.text| && cap + Caps(n) <= |x.caps|
    ensures Out(w, n.body, cap, back, x) == Out(w, n'.body, cap, back, x)
  {
    hide Out;
  }

  lemma NoRoomBoth(w: World, n: Node, n': Node, cap: nat, back: bool, min: nat, max: Bound, max': Bound, x: State)
    requires n.Repeat? && n'.Repeat? && Caps(n) == Caps(n') && x.pos <= |w.text| && cap + Caps(n) <= |x.caps|
    requires Alike(max, max', min + Rest(w, back, x)) && (max == Finite(0) || max' == Finite(0))
    ensures Rep(w, n, cap, back, min, max, x) == Rep(w, n', cap, back, min, max', x) == [x]
  {
    hide Out, Iterate;
    if max.Infinite? { NoRoomNoIteration(w, n, cap, back, max, x); }
    if max'.Infinite? { NoRoomNoIteration(w, n', cap, back, max', x); }
  }

  lemma {:induction false} IterateSame(w: World, n: Node, n': Node, cap: nat, back: bool, min: nat, max: Bound,
                                       max': Bound, x: State)
    requires SameBody(w, n, n', cap, back) && x.pos <= |w.text| && cap + Caps(n) <= |x.caps|
    requires Alike(max, max', min + Rest(w, back, x)) && max != Finite(0) && max' != Finite(0)
    ensures Iterate(w, n, cap, back, min, max, x) == Iterate(w, n', cap, back, min, max', x)
    decreases min, Rest(w, back, x), 1, 0
  {
    hide RepAll, Out, SameBody, Rep, RepNext;
    var xr := Reset(x, cap, cap + Caps(n));
    Greedy(w, n, n', cap, back);
    SameBodyAt(w, n, n', cap, back, xr);
    RepAllSame(w, n, n', cap, back, min, max, max', x, Out(w, n.body, cap, back, xr));
  }

  lemma {:induction false} RepAllSame(w: World, n: Node, n': Node, cap: nat, back: bool, min: nat, max: Bound,
                                      max': Bound, x: State, ys: seq<State>)
    requires SameBody(w, n, n', cap, back) && x.pos <= |w.text| && cap + Caps(n) <= |x.caps|
    requires Alike(max, max', min + Rest(w, back, x)) && max != Finite(0) && max' != Finite(0)
    requires AllAfter(w, back, cap, cap + Caps(n), x, ys)
    ensures RepAll(w, n, cap, back, min, max, x, ys) == RepAll(w, n', cap, back, min, max', x, ys)
    decreases min, Rest(w, back, x), 0, |ys|
  {
    hide Out, SameBody, Rep;
    Greedy(w, n, n', cap, back);
    if ys != [] {
      var y := ys[0];
      assert After(w, back, cap, cap + Caps(n), x, y);
      RepAllSame(w, n, n', cap, back, min, max, max', x, ys[1..]);
      if !(min == 0 && y.pos == x.pos) {
        RepSame(w, n, n', cap, back, Pred(min), Less(max), Less(max'), y);
      }
    }
  }

  /** Two nodes with the same outcomes. */
  ghost predicate SameOut(w: World, n: Node, n': Node, cap: nat, back: bool) {
    && Caps(n') == Caps(n)
    && forall x: State :: x.pos <= |w.text| && cap + Caps(n) <= |x.caps| ==>
         Out(w, n, cap, back, x) == Out(w, n', cap, back, x)
  }

  lemma {:induction false} OutAllSame(w: World, n: Node, n': Node, cap: nat, back: bool, lo: nat, hi: nat, x0: State,
                                      xs: seq<State>)
    requires lo <= cap && cap + Caps(n) <= hi <= |x0.caps| && Caps(n') == Caps(n)
    requires AllAfter(w, back, lo, hi, x0, xs)
    requires SameOut(w, n, n', cap, back)
    ensures OutAll(w, n, cap, back, lo, hi, x0, xs) == OutAll(w, n', cap, back, lo, hi, x0, xs)
    decreases |xs|
  {
    hide Out;
    if xs != [] { OutAllSame(w, n, n', cap, back, lo, hi, x0, xs[1..]); }
  }

  lemma CatOutAt(w: World, n: Node, n': Node, cap: nat, back: bool, x: State)
    requires n.Cat? && n'.Cat? && Caps(n.left) == Caps(n'.left) && x.pos <= |w.text| && cap + Caps(n) <= |x.caps|
    requires SameOut(w, Lead(n, back), Lead(n', back), LeadCap(n, cap, back), back)
    requires SameOut(w, Trail(n, back), Trail(n', back), TrailCap(n, cap, back), back)
    ensures Caps(n) == Caps(n') && Out(w, n, cap, back, x) == Out(w, n', cap, back, x)
  {
    hide Out, OutAll, Lead, Trail, LeadCap, TrailCap, SameOut, Caps;
    CatCaps(n, n', cap, back);
    SameOutAt(w, Trail(n, back), Trail(n', back), TrailCap(n, cap, back), back, x);
    SameOutAt(w, Lead(n, back), Lead(n', back), LeadCap(n, cap, back), back, x);
    OutOfCat(w, n, cap, back, x);
    OutOfCat(w, n', cap, back, x);
    OutAllSame(w, Trail(n, back), Trail(n', back), TrailCap(n, cap, back), back, cap, cap + Caps(n), x,
               Out(w, Lead(n, back), LeadCap(n, cap, back), back, x));
  }

  lemma CatCaps(n: Node, n': Node, cap: nat, back: bool)
    requires n.Cat? && n'.Cat?
    ensures Caps(n) == Caps(Lead(n, back)) + Caps(Trail(n, back))
    ensures LeadCap(n, cap, back) + Caps(Lead(n, back)) <= cap + Caps(n) && cap <= LeadCap(n, cap, back)
    ensures TrailCap(n, cap, back) + Caps(Trail(n, back)) <= cap + Caps(n) && cap <= TrailCap(n, cap, back)
    ensures Caps(n') == Caps(Lead(n', back)) + Caps(Trail(n', back))
    ensures Caps(n.left) == Caps(n'.left) ==>
              LeadCap(n, cap, back) == LeadCap(n', cap, back) && TrailCap(n, cap, back) == TrailCap(n', cap, back)
  {
  }

  lemma SameOutAt(w: World, n: Node, n': Node, cap: nat, back: bool, x: State)
    requires SameOut(w, n, n', cap, back)
    ensures Caps(n) == Caps(n')
    ensures x.pos <= |w.text| && cap + Caps(n) <= |x.caps| ==> Out(w, n, cap, back, x) == Out(w, n', cap, back, x)
  {
    hide Out;
  }

  lemma SameOutIf(w: World, n: Node, n': Node, cap: nat, back: bool)
    requires Caps(n') == Caps(n)
    requires forall x: State :: x.pos <= |w.text| && cap + Caps(n) <= |x.caps| ==>
               Out(w, n, cap, back, x) == Out(w, n', cap, back, x)
    ensures SameOut(w, n, n', cap, back)
  {
    hide Out;
  }

  lemma SameCaps(w: World, n: Node, n': Node, cap: nat, back: bool)
    requires SameOut(w, n, n', cap, back)
    ensures Caps(n) == Caps(n')
  {
    hide Out, Caps;
  }

  lemma CapsOfPair(l: Node, r: Node)
    ensures Caps(Cat(l, r)) == Caps(Alt(l, r)) == Caps(l) + Caps(r)
  {
  }

  lemma PairSums(l: Node, r: Node, l': Node, r': Node, cap: nat, back: bool, w: World)
    requires SameOut(w, l, l', cap, back) && SameOut(w, r, r', cap + Caps(l), back)
    ensures Caps(Cat(l, r)) == Caps(Alt(l, r)) == Caps(l) + Caps(r) == Caps(l') + Caps(r') == Caps(Cat(l', r'))
              == Caps(Alt(l', r'))
    ensures Caps(l') == Caps(l)
  {
    hide Out, SameOut, Caps;
    SameCaps(w, l, l', cap, back);
    SameCaps(w, r, r', cap + Caps(l), back);
    CapsOfPair(l, r);
    CapsOfPair(l', r');
  }

  lemma CatParts(l: Node, r: Node, l': Node, r': Node, cap: nat, back: bool, w: World)
    requires SameOut(w, l, l', cap, back) && SameOut(w, r, r', cap + Caps(l), back)
    ensures var n, n' := Cat(l, r), Cat(l', r');
            && SameOut(w, Lead(n, back), Lead(n', back), LeadCap(n, cap, back), back)
            && SameOut(w, Trail(n, back), Trail(n', back), TrailCap(n, cap, back), back)
  {
    hide Out, SameOut, Caps;
  }

  lemma CatOut(w: World, l: Node, r: Node, l': Node, r': Node, cap: nat, back: bool)
    requires SameOut(w, l, l', cap, back) && SameOut(w, r, r', cap + Caps(l), back)
    ensures SameOut(w, Cat(l, r), Cat(l', r'), cap, back)
  {
    hide Out, OutAll, SameOut, Caps;
    var n, n' := Cat(l, r), Cat(l', r');
    PairSums(l, r, l', r', cap, back, w);
    CatParts(l, r, l', r', cap, back, w);
    forall x: State | x.pos <= |w.text| && cap + Caps(n) <= |x.caps|
      ensures Out(w, n, cap, back, x) == Out(w, n', cap, back, x)
    {
      CatOutAt(w, n, n', cap, back, x);
    }
    SameOutIf(w, n, n', cap, back);
  }

  lemma AltOut(w: World, l: Node, r: Node, l': Node, r': Node, cap: nat, back: bool)
    requires SameOut(w, l, l', cap, back) && SameOut(w, r, r', cap + Caps(l), back)
    ensures SameOut(w, Alt(l, r), Alt(l', r'), cap, back)
  {
    hide Out, SameOut, Caps;
    var n, n' := Alt(l, r), Alt(l', r');
    PairSums(l, r, l', r', cap, back, w);
    forall x: State | x.pos <= |w.text| && cap + Caps(n) <= |x.caps|
      ensures Out(w, n, cap, back, x) == Out(w, n', cap, back, x)
    {
      SameOutAt(w, l, l', cap, back, x);
      SameOutAt(w, r, r', cap + Caps(l), back, x);
      OutOfAlt(w, n, cap, back, x);
      OutOfAlt(w, n', cap, back, x);
    }
    SameOutIf(w, n, n', cap, back);
  }

  lemma GroupOut(w: World, b: Node, b': Node, cap: nat, back: bool)
    requires SameOut(w, b, b', cap + 1, back)
    ensures SameOut(w, Group(b), Group(b'), cap, back)
  {
    hide Rep, OutAll;
  }

  lemma LookOut(w: World, behind: bool, negative: bool, b: Node, b': Node, cap: nat, back: bool)
    requires SameOut(w, b, b', cap, behind)
    ensures SameOut(w, Look(behind, negative, b), Look(behind, negative, b'), cap, back)
  {
    hide Rep, OutAll;
  }

  lemma RepeatOut(w: World, b: Node, b': Node, min: nat, max: Bound, max': Bound, greedy: bool, cap: nat, back: bool)
    requires SameOut(w, b, b', cap, back) && Alike(max, max', min + |w.text|)
    ensures SameOut(w, Repeat(b, min, max, greedy), Repeat(b', min, max', greedy), cap, back)
  {
    hide Rep, OutAll;
    var n, n' := Repeat(b, min, max, greedy), Repeat(b', min, max', greedy);
    assert SameBody(w, n, n', cap, back);
    forall x: State | x.pos <= |w.text| && cap + Caps(n) <= |x.caps|
      ensures Out(w, n, cap, back, x) == Out(w, n', cap, back, x)
    {
      RepSame(w, n, n', cap, back, min, max, max', x);
    }
  }

  /** As long as no counter can run out, the code means the expression itself. */
  lemma {:induction false} EmittedMeans(g: Canon, w: World, n: Node, cap: nat, back: bool)
    requires CountersFit(g, n, cap, back, |w.text|)
    ensures SameOut(w, n, Emitted(g, n, cap, back), cap, back)
    decreases n
  {
    hide Code, NeedsAdvanceCheck, SameOut, Caps, Counts;
    match n
    case Empty | One(_) | Assert(_) | BackRef(_, _) => SameOutSelf(w, n, cap, back);
    case Cat(l, r) =>
      EmittedMeans(g, w, l, cap, back);
      EmittedMeans(g, w, r, cap + Caps(l), back);
      CatOut(w, l, r, Emitted(g, l, cap, back), Emitted(g, r, cap + Caps(l), back), cap, back);
    case Alt(l, r) =>
      EmittedMeans(g, w, l, cap, back);
      EmittedMeans(g, w, r, cap + Caps(l), back);
      AltOut(w, l, r, Emitted(g, l, cap, back), Emitted(g, r, cap + Caps(l), back), cap, back);
    case Group(b) =>
      EmittedMeans(g, w, b, cap + 1, back);
      GroupOut(w, b, Emitted(g, b, cap + 1, back), cap, back);
    case Look(behind, negative, b) =>
      EmittedMeans(g, w, b, cap, behind);
      LookOut(w, behind, negative, b, Emitted(g, b, cap, behind), cap, back);
    case Repeat(b, min, max, greedy) =>
      EmittedMeans(g, w, b, cap, back);
      var max' := Emitted(g, n, cap, back).max;
      MaxAlike(NeedsAdvanceCheck(Code(g, b, cap, back)), min, max, |w.text|);
      RepeatOut(w, b, Emitted(g, b, cap, back), min, max, max', greedy, cap, back);
  }

  lemma MaxAlike(chk: bool, min: nat, max: Bound, length: nat)
    requires EmittedMax(chk, min, max) == max || min + length <= INT32_MAX
    ensures Alike(max, EmittedMax(chk, min, max), min + length)
  {
  }

  lemma SameOutSelf(w: World, n: Node, cap: nat, back: bool)
    ensures SameOut(w, n, n, cap, back)
  {
    hide Out;
  }

  lemma GroupFits(g: Canon, n: Node, length: nat)
    requires CountersFit(g, n, 1, false, length)
    ensures CountersFit(g, Group(n), 0, false, length)
  {
  }

  lemma {:induction false} FirstMatchMeans(g: Canon, w: World, n: Node, sticky: bool, i: nat)
    requires CountersFit(g, n, 1, false, |w.text|) && i <= |w.text|
    ensures FirstMatch(w, Emitted(g, n, 1, false), sticky, i) == FirstMatch(w, n, sticky, i)
    decreases |w.text| - i
  {
    hide Out, SameOut, CountersFit;
    var x := State(i, NoCaps(1 + Caps(n)));
    GroupFits(g, n, |w.text|);
    EmittedMeans(g, w, Group(n), 0, false);
    assert Emitted(g, Group(n), 0, false) == Group(Emitted(g, n, 1, false));
    SameOutAt(w, Group(n), Group(Emitted(g, n, 1, false)), 0, false, x);
    if i < |w.text| { FirstMatchMeans(g, w, n, sticky, i + 1); }
  }

  /* ----- whole programs ----- */

  /** The machine holds the program of `n`: any expression the parser can produce. */
  ghost predicate Loads(vm: Vm, n: Node, sticky: bool) {
    && !vm.wide
    && vm.ncap == 1 + Caps(n)
    && WellFormed(n, vm.ncap)
    && CodeAt(vm.code, 0, FinalProgram(vm.w.canon, n, sticky))
  }

  /** Every program the compiler can produce terminates, with the first match of the
      expression that its code stands for. */
  lemma AnyProgramCorrect(vm: Vm, n: Node, sticky: bool, i: nat, m: seq<Value>) returns (m1: seq<Value>)
    requires Loads(vm, n, sticky) && Initial(vm, n, m) && i <= |vm.w.text|
    ensures EndsWith(vm, Run(0, i, m, []), FirstMatch(vm.w, Emitted(vm.w.canon, n, 1, false), sticky, i), m1)
    ensures CountersFit(vm.w.canon, n, 1, false, |vm.w.text|) ==>
              EndsWith(vm, Run(0, i, m, []), FirstMatch(vm.w, n, sticky, i), m1)
  {
    hide Frag, Code, Registers, FirstMatch, EndsWith, WellFormed, CountersFit;
    var g := vm.w.canon;
    var n' := Emitted(g, n, 1, false);
    EmittedKept(g, n, 1, false, vm.ncap);
    EmittedFrag(g, Group(n), 0, false, 0);
    assert Emitted(g, Group(n), 0, false) == Group(n');
    m1 := ProgramCorrect(vm, n', sticky, i, m);
    if CountersFit(vm.w.canon, n, 1, false, |vm.w.text|) { FirstMatchMeans(g, vm.w, n, sticky, i); }
  }

  /** Compiled code terminates on every subject, without ever getting stuck. */
  lemma AnyProgramTerminates(vm: Vm, n: Node, sticky: bool, i: nat, m: seq<Value>)
    requires Loads(vm, n, sticky) && Initial(vm, n, m) && i <= |vm.w.text|
    ensures exists steps: nat :: Final(Steps(vm, Run(0, i, m, []), steps))
  {
    hide Loads, Initial, FirstMatch, Emitted, Steps, CountersFit;
    var m1 := AnyProgramCorrect(vm, n, sticky, i, m);
    var r := FirstMatch(vm.w, Emitted(vm.w.canon, n, 1, false), sticky, i);
    var c' := match r case None => Fail case Some(y) => Done(y.pos, m1);
    assert Reaches(vm, Run(0, i, m, []), c');
    var steps: nat :| Steps(vm, Run(0, i, m, []), steps) == c';
    assert Final(Steps(vm, Run(0, i, m, []), steps));
  }

  /* ----- a counter that runs out ----- */

  const A: CodePoint := 0x61

  /** `(?:|a){min,}` */
  function Exhausting(min: nat, max: Bound): Node {
    Repeat(Alt(Empty, One(Literal(A, false))), min, max, true)
  }

  ghost predicate AllA(w: World) { forall j :: 0 <= j < |w.text| ==> w.text[j] == A }

  lemma BodyOfExhausting(w: World, m: nat, b: Bound, cap: nat, x: State)
    requires AllA(w) && x.pos <= |w.text| && cap <= |x.caps|
    ensures Reset(x, cap, cap) == x
    ensures Out(w, Exhausting(m, b).body, cap, false, x) == if x.pos < |w.text| then [x, x.(pos := x.pos + 1)] else [x]
  {
    assert ResetCaps(x.caps, cap, cap) == x.caps;
  }

  /** Required iterations prefer to consume nothing. */
  lemma {:induction false} RequiredAreEmpty(w: World, m: nat, b: Bound, cap: nat, min: nat, max: Bound, x: State)
    requires AllA(w) && x.pos <= |w.text| && cap <= |x.caps| && (max.Finite? ==> min <= max.n)
    ensures var n := Exhausting(m, b);
            var rest := Rep(w, n, cap, false, 0, if max.Finite? then Finite(max.n - min) else Infinite, x);
            && rest != [] && Rep(w, n, cap, false, min, max, x) != []
            && Rep(w, n, cap, false, min, max, x)[0] == rest[0]
    decreases min
  {
    hide Out;
    BodyOfExhausting(w, m, b, cap, x);
    if min > 0 {
      var n, ys := Exhausting(m, b), Out(w, Exhausting(m, b).body, cap, false, x);
      RequiredAreEmpty(w, m, b, cap, min - 1, Less(max), x);
      assert RepNext(w, n, cap, false, min, max, x, x) == Rep(w, n, cap, false, min - 1, Less(max), x);
      assert Iterate(w, n, cap, false, min, max, x) ==
             RepNext(w, n, cap, false, min, max, x, ys[0]) + RepAll(w, n, cap, false, min, max, x, ys[1..]);
    }
  }

  /** Optional iterations consume one character each. */
  lemma OptionalConsumes(w: World, m: nat, b: Bound, cap: nat, max: Bound, x: State)
    requires AllA(w) && x.pos < |w.text| && cap <= |x.caps| && max != Finite(0)
    ensures var n, y := Exhausting(m, b), x.(pos := x.pos + 1);
            && Rep(w, n, cap, false, 0, Less(max), y) != [] && Rep(w, n, cap, false, 0, max, x) != []
            && Rep(w, n, cap, false, 0, max, x)[0] == Rep(w, n, cap, false, 0, Less(max), y)[0]
  {
    hide Out;
    BodyOfExhausting(w, m, b, cap, x);
    RequiredAreEmpty(w, m, b, cap, 0, Less(max), x.(pos := x.pos + 1));
    var n, y := Exhausting(m, b), x.(pos := x.pos + 1);
    assert RepAll(w, n, cap, false, 0, max, x, [x, y])
           == RepNext(w, n, cap, false, 0, max, x, x) + RepAll(w, n, cap, false, 0, max, x, [y]) by {
      assert [x, y][1..] == [y];
    }
    assert RepAll(w, n, cap, false, 0, max, x, [y]) == RepNext(w, n, cap, false, 0, max, x, y) + [];
  }

  /** Where the optional iterations end: at the end of the text, or when the count is
      used up. */
  function OptionalEnd(max: Bound, pos: nat, length: nat): nat
    requires pos <= length
  {
    if max.Finite? && pos + max.n < length then pos + max.n else length
  }

  lemma {:induction false} OptionalReach(w: World, m: nat, b: Bound, cap: nat, max: Bound, x: State)
    requires AllA(w) && x.pos <= |w.text| && cap <= |x.caps|
    ensures var ys := Rep(w, Exhausting(m, b), cap, false, 0, max, x);
            ys != [] && ys[0] == x.(pos := OptionalEnd(max, x.pos, |w.text|))
    decreases |w.text| - x.pos
  {
    hide Out, Rep;
    if max == Finite(0) || x.pos == |w.text| {
      NoneOptional(w, m, b, cap, max, x);
    } else {
      OptionalConsumes(w, m, b, cap, max, x);
      OptionalReach(w, m, b, cap, Less(max), x.(pos := x.pos + 1));
    }
  }

  lemma NoneOptional(w: World, m: nat, b: Bound, cap: nat, max: Bound, x: State)
    requires x.pos <= |w.text| && cap <= |x.caps| && (max == Finite(0) || x.pos == |w.text|)
    ensures Rep(w, Exhausting(m, b), cap, false, 0, max, x) == [x]
  {
    hide Out;
    if max != Finite(0) { NoRoomNoIteration(w, Exhausting(m, b), cap, false, max, x); }
  }

  /** The first match of `(?:|a){min,max}` at the front of a text of only "a". */
  lemma MatchOfExhausting(w: World, min: nat, max: Bound)
    requires AllA(w) && (max.Finite? ==> min <= max.n)
    ensures var end := OptionalEnd(if max.Finite? then Finite(max.n - min) else Infinite, 0, |w.text|);
            FirstMatch(w, Exhausting(min, max), true, 0) == Some(State(end, [Some(Span(0, end))]))
  {
    hide Out, Rep, FirstMatch;
    var x := State(0, NoCaps(1));
    var rest := if max.Finite? then Finite(max.n - min) else Infinite;
    RequiredAreEmpty(w, min, max, 1, min, max, x);
    OptionalReach(w, min, max, 1, rest, x);
    TopFirst(w, Exhausting(min, max), x, OptionalEnd(rest, 0, |w.text|));
  }

  /** `(?:|a){min,}` keeps a counter unless `min` is 0. */
  lemma ExhaustingCounts(g: Canon, min: nat)
    ensures Emitted(g, Exhausting(min, Infinite), 1, false) ==
            Exhausting(min, if min == 0 then Infinite else Finite(INT32_MAX))
  {
    hide Code;
    var b := Alt(Empty, One(Literal(A, false)));
    CodeOfAlt(g, b, 1, false);
    assert Code(g, b, 1, false)[0].Split?;
    assert ScanCode(Code(g, b, 1, false)).stop;
    assert Emitted(g, b, 1, false) == b;
  }

  lemma ExhaustingFormed(min: nat)
    requires min <= INT32_MAX
    ensures WellFormed(Exhausting(min, Infinite), 1)
  {
    var b := Alt(Empty, One(Literal(A, false)));
    assert Parsed(b, 1) && ClassesFit(b);
  }

  lemma ExhaustingFits(g: Canon, min: nat, length: nat)
    ensures CountersFit(g, Exhausting(min, Infinite), 1, false, length) <==> min == 0 || min + length <= INT32_MAX
  {
    hide Code, NeedsAdvanceCheck;
    var b := Alt(Empty, One(Literal(A, false)));
    ExhaustingCounts(g, min);
    assert CountersFit(g, b, 1, false, length);
    assert EmittedMax(NeedsAdvanceCheck(Code(g, b, 1, false)), min, Infinite)
             == Emitted(g, Exhausting(min, Infinite), 1, false).max;
  }

  /** Subjects shorter than INT32_MAX are not enough for an open quantifier to mean
      what ECMA-262 says. For `(?:|a){min,}` on a text of only "a" the condition is
      exactly CountersFit: wherever it fails, the counter runs out after
      INT32_MAX - min characters although all of them match. (A run that gets so far
      holds about 2^31 choice points, which memory must allow.) */
  lemma CountersFitExactly(w: World, min: nat)
    requires AllA(w) && min <= INT32_MAX
    ensures var n := Exhausting(min, Infinite);
            && WellFormed(n, 1)
            && (FirstMatch(w, Emitted(w.canon, n, 1, false), true, 0) == FirstMatch(w, n, true, 0)
                <==> CountersFit(w.canon, n, 1, false, |w.text|))
  {
    hide Emitted, FirstMatch, CountersFit, WellFormed;
    ExhaustingFormed(min);
    ExhaustingCounts(w.canon, min);
    ExhaustingFits(w.canon, min, |w.text|);
    MatchOfExhausting(w, min, Infinite);
    if min > 0 { MatchOfExhausting(w, min, Finite(INT32_MAX)); }
  }

  /** The smallest instance: on "aa", `(?:|a){2147483646,}` matches one character of
      the two that ECMA-262 matches. */
  lemma CounterRunsOut(w: World)
    requires w.text == [A, A]
    ensures var n := Exhausting(INT32_MAX - 1, Infinite);
            && FirstMatch(w, n, true, 0) == Some(State(2, [Some(Span(0, 2))]))
            && FirstMatch(w, Emitted(w.canon, n, 1, false), true, 0) == Some(State(1, [Some(Span(0, 1))]))
  {
    hide Emitted, FirstMatch;
    ExhaustingCounts(w.canon, INT32_MAX - 1);
    MatchOfExhausting(w, INT32_MAX - 1, Infinite);
    MatchOfExhausting(w, INT32_MAX - 1, Finite(INT32_MAX));
  }

  /** From the outcomes of a quantifier to the first match. */
  lemma TopFirst(w: World, n: Node, x: State, end: nat)
    requires n.Repeat? && Caps(n) == 0 && x == State(0, NoCaps(1))
    requires var ys := Rep(w, n, 1, false, n.min, n.max, x); ys != [] && ys[0] == State(end, NoCaps(1))
    ensures FirstMatch(w, n, true, 0) == Some(State(end, [Some(Span(0, end))]))
  {
    hide Rep;
    assert Out(w, n, 1, false, x) == Rep(w, n, 1, false, n.min, n.max, x);
    assert NoCaps(1)[0 := Some(Span(0, end))] == [Some(Span(0, end))];
  }
}
