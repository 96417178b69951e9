/** The reference meaning of a regular expression (section 22.2.2 of ECMA-262),
    as the list of all outcomes of a node in the order backtracking would try
    them. The subject is a list of characters and positions are indices in it. */
module Semantics {
  import opened Syntax

  /** The subject text and the two character tables the engine consults. */
  datatype World = World(canon: CodePoint -> CodePoint, isSpace: CodePoint -> bool, text: seq<CodePoint>)

  datatype Span = Span(start: nat, end: nat)

  datatype State = State(pos: nat, caps: seq<Option<Span>>)

  predicate IsLineTerminator(c: CodePoint) {
    c == 0x0a || c == 0x0d || c == 0x2028 || c == 0x2029
  }

  predicate IsWordChar(c: CodePoint, icase: bool) {
    || 0x30 <= c <= 0x39
    || 0x41 <= c <= 0x5a
    || c == 0x5f
    || 0x61 <= c <= 0x7a
    || (icase && (c == 0x017f || c == 0x212a))
  }

  /** The i-th interval of a CharRange contains `c`. */
  predicate Within(points: seq<nat>, i: nat, c: nat)
    requires i < |points| / 2
  {
    points[2 * i] <= c < points[2 * i + 1]
  }

  predicate InPoints(points: seq<nat>, c: nat) {
    exists i :: 0 <= i < |points| / 2 && Within(points, i, c)
  }

  function Fold(w: World, icase: bool, c: CodePoint): CodePoint {
    if icase then w.canon(c) else c
  }

  predicate Holds(w: World, t: CharTest, c: CodePoint) {
    match t
    case Literal(a, icase) => Fold(w, icase, c) == Fold(w, icase, a)
    case Dot(dotAll) => dotAll || !IsLineTerminator(c)
    case Space(negated) => w.isSpace(c) != negated
    case Class(points, icase) => InPoints(points, Fold(w, icase, c))
  }

  predicate WordAt(w: World, p: int, icase: bool) {
    0 <= p < |w.text| && IsWordChar(w.text[p], icase)
  }

  predicate AssertionHolds(w: World, a: Assertion, pos: nat)
    requires pos <= |w.text|
  {
    match a
    case LineStart(m) => pos == 0 || (m && IsLineTerminator(w.text[pos - 1]))
    case LineEnd(m) => pos == |w.text| || (m && IsLineTerminator(w.text[pos]))
    case WordBoundary(neg, icase) => (WordAt(w, pos - 1, icase) != WordAt(w, pos, icase)) != neg
  }

  /** `y` is a state that matching from `x` may lead to: it lies in the direction
      of travel and only the captures in [lo, hi) may differ. */
  predicate After(w: World, back: bool, lo: nat, hi: nat, x: State, y: State) {
    && |y.caps| == |x.caps|
    && y.pos <= |w.text|
    && (if back then y.pos <= x.pos else x.pos <= y.pos)
    && (forall k :: 0 <= k < |x.caps| && !(lo <= k < hi) ==> y.caps[k] == x.caps[k])
  }

  predicate AllAfter(w: World, back: bool, lo: nat, hi: nat, x: State, ys: seq<State>) {
    forall i :: 0 <= i < |ys| ==> After(w, back, lo, hi, x, ys[i])
  }

  /** How far matching can still travel. */
  function Rest(w: World, back: bool, x: State): nat
    requires x.pos <= |w.text|
  {
    if back then x.pos else |w.text| - x.pos
  }

  function ResetCaps(caps: seq<Option<Span>>, lo: nat, hi: nat): (r: seq<Option<Span>>)
    ensures |r| == |caps|
    ensures forall k :: 0 <= k < |caps| ==> r[k] == if lo <= k < hi then None else caps[k]
  {
    seq(|caps|, k requires 0 <= k < |caps| => if lo <= k < hi then None else caps[k])
  }

  function Reset(x: State, lo: nat, hi: nat): State {
    State(x.pos, ResetCaps(x.caps, lo, hi))
  }

  /** One character consumed in the direction of travel. */
  function OneOut(w: World, t: CharTest, back: bool, x: State): (ys: seq<State>)
    requires x.pos <= |w.text|
    ensures forall lo, hi :: AllAfter(w, back, lo, hi, x, ys)
  {
    if back then
      if x.pos > 0 && Holds(w, t, w.text[x.pos - 1]) then [x.(pos := x.pos - 1)] else []
    else
      if x.pos < |w.text| && Holds(w, t, w.text[x.pos]) then [x.(pos := x.pos + 1)] else []
  }

  /** The first listed group that has matched. */
  function FirstSet(groups: seq<nat>, caps: seq<Option<Span>>): Option<Span> {
    if groups == [] then None
    else if groups[0] < |caps| && caps[groups[0]].Some? then caps[groups[0]]
    else FirstSet(groups[1..], caps)
  }

  predicate SameText(w: World, icase: bool, a: seq<CodePoint>, b: seq<CodePoint>) {
    |a| == |b| && forall i :: 0 <= i < |a| ==> Fold(w, icase, a[i]) == Fold(w, icase, b[i])
  }

  /** Match the text [s, e) again, in the direction of travel. */
  function SpanOut(w: World, icase: bool, back: bool, s: nat, e: nat, x: State): (ys: seq<State>)
    requires s <= e <= |w.text| && x.pos <= |w.text|
  {
    if back then
      if e - s <= x.pos && SameText(w, icase, w.text[s..e], w.text[x.pos - (e - s)..x.pos])
      then [x.(pos := x.pos - (e - s))] else []
    else
      if x.pos + (e - s) <= |w.text| && SameText(w, icase, w.text[s..e], w.text[x.pos..x.pos + (e - s)])
      then [x.(pos := x.pos + (e - s))] else []
  }

  /** BackreferenceMatcher: the first set group is matched again; if none is set the
      empty text is. (A span is never malformed; the test makes the function total.) */
  function BackRefOut(w: World, groups: seq<nat>, icase: bool, back: bool, x: State): (ys: seq<State>)
    requires x.pos <= |w.text|
    ensures forall lo, hi :: AllAfter(w, back, lo, hi, x, ys)
  {
    match FirstSet(groups, x.caps)
    case None => [x]
    case Some(Span(s, e)) => if s <= e <= |w.text| then SpanOut(w, icase, back, s, e, x) else [x]
  }

  /** Close group `k`, opened at `x`, in every outcome of its body. */
  function CloseAll(k: nat, back: bool, x: State, ys: seq<State>): (zs: seq<State>)
    requires forall i :: 0 <= i < |ys| ==> k < |ys[i].caps|
    ensures |zs| == |ys|
    ensures forall i :: 0 <= i < |ys| ==> zs[i] == Close(k, back, x, ys[i])
  {
    seq(|ys|, i requires 0 <= i < |ys| => Close(k, back, x, ys[i]))
  }

  function Close(k: nat, back: bool, x: State, y: State): State
    requires k < |y.caps|
  {
    y.(caps := y.caps[k := Some(if back then Span(y.pos, x.pos) else Span(x.pos, y.pos))])
  }

  function Less(b: Bound): Bound {
    if b.Finite? && b.n > 0 then Finite(b.n - 1) else b
  }

  function Pred(n: nat): nat { if n == 0 then 0 else n - 1 }

  /** The half of a concatenation that is matched first in the direction of
      travel, the half matched second, and the numbers of their first groups. */
  function Lead(n: Node, back: bool): (m: Node)
    requires n.Cat?
    ensures m < n
  {
    if back then n.right else n.left
  }

  function Trail(n: Node, back: bool): (m: Node)
    requires n.Cat?
    ensures m < n
  {
    if back then n.left else n.right
  }

  function LeadCap(n: Node, cap: nat, back: bool): nat
    requires n.Cat?
  {
    if back then cap + Caps(n.left) else cap
  }

  function TrailCap(n: Node, cap: nat, back: bool): nat
    requires n.Cat?
  {
    if back then cap else cap + Caps(n.left)
  }

  /** All outcomes of matching `n`, whose groups are numbered from `cap`, from
      state `x`, in priority order. */
  function Out(w: World, n: Node, cap: nat, back: bool, x: State): (ys: seq<State>)
    requires x.pos <= |w.text| && cap + Caps(n) <= |x.caps|
    ensures AllAfter(w, back, cap, cap + Caps(n), x, ys)
    decreases n, 2, 0, 0, 0, 0
  {
    match n
    case Empty => [x]
    case One(t) => OneOut(w, t, back, x)
    case Assert(a) => if AssertionHolds(w, a, x.pos) then [x] else []
    case BackRef(groups, icase) => BackRefOut(w, groups, icase, back, x)
    case Cat(_, _) =>
      OutAll(w, Trail(n, back), TrailCap(n, cap, back), back, cap, cap + Caps(n), x,
             Out(w, Lead(n, back), LeadCap(n, cap, back), back, x))
    case Alt(l, r) => Out(w, l, cap, back, x) + Out(w, r, cap + Caps(l), back, x)
    case Group(b) => CloseAll(cap, back, x, Out(w, b, cap + 1, back, x))
    case Look(behind, negative, b) =>
      var ys := Out(w, b, cap, behind, x);
      if negative then (if ys == [] then [x] else [])
      else if ys == [] then [] else [ys[0].(pos := x.pos)]
    case Repeat(b, min, max, _) => Rep(w, n, cap, back, min, max, x)
  }

  /** The outcomes of `n` from each of `xs` in turn. */
  function OutAll(w: World, n: Node, cap: nat, back: bool, lo: nat, hi: nat, x0: State,
                  xs: seq<State>): (ys: seq<State>)
    requires lo <= cap && cap + Caps(n) <= hi <= |x0.caps|
    requires AllAfter(w, back, lo, hi, x0, xs)
    ensures AllAfter(w, back, lo, hi, x0, ys)
    decreases n, 3, 0, 0, 0, |xs|
  {
    if xs == [] then []
    else Out(w, n, cap, back, xs[0]) + OutAll(w, n, cap, back, lo, hi, x0, xs[1..])
  }

  /** RepeatMatcher (section 22.2.2.3.1): up to `max` further iterations of the
      body of `n`, of which `min` are still required. */
  function Rep(w: World, n: Node, cap: nat, back: bool, min: nat, max: Bound, x: State): (ys: seq<State>)
    requires n.Repeat?
    requires x.pos <= |w.text| && cap + Caps(n) <= |x.caps|
    ensures AllAfter(w, back, cap, cap + Caps(n), x, ys)
    decreases n, 1, min, Rest(w, back, x), 1, 0
  {
    if max == Finite(0) then [x]
    else
      var more := Iterate(w, n, cap, back, min, max, x);
      if min > 0 then more
      else if n.greedy then more + [x]
      else [x] + more
  }

  /** At least one more iteration; captures inside the body start out unset. */
  function Iterate(w: World, n: Node, cap: nat, back: bool, min: nat, max: Bound, x: State): (ys: seq<State>)
    requires n.Repeat?
    requires x.pos <= |w.text| && cap + Caps(n) <= |x.caps|
    ensures AllAfter(w, back, cap, cap + Caps(n), x, ys)
    decreases n, 1, min, Rest(w, back, x), 0, 1, 0
  {
    RepAll(w, n, cap, back, min, max, x, Out(w, n.body, cap, back, Reset(x, cap, cap + Caps(n))))
  }

  /** Continue the repetition after an iteration from `x` that ended in each of `ys`. */
  function RepAll(w: World, n: Node, cap: nat, back: bool, min: nat, max: Bound, x: State,
                  ys: seq<State>): (zs: seq<State>)
    requires n.Repeat?
    requires x.pos <= |w.text| && cap + Caps(n) <= |x.caps|
    requires AllAfter(w, back, cap, cap + Caps(n), x, ys)
    ensures AllAfter(w, back, cap, cap + Caps(n), x, zs)
    decreases n, 1, min, Rest(w, back, x), 0, 0, |ys|
  {
    if ys == [] then []
    else RepNext(w, n, cap, back, min, max, x, ys[0]) + RepAll(w, n, cap, back, min, max, x, ys[1..])
  }

  /** An iteration that consumed nothing fails once the required ones are done. */
  function RepNext(w: World, n: Node, cap: nat, back: bool, min: nat, max: Bound, x: State, y: State): (zs: seq<State>)
    requires n.Repeat?
    requires x.pos <= |w.text| && cap + Caps(n) <= |x.caps|
    requires After(w, back, cap, cap + Caps(n), x, y)
    ensures AllAfter(w, back, cap, cap + Caps(n), x, zs)
    decreases n, 1, min, Rest(w, back, x), 0, 0, 0
  {
    if min == 0 && y.pos == x.pos then []
    else Rep(w, n, cap, back, Pred(min), Less(max), y)
  }

  /* ----- the cases of Out, one at a time ----- */

  lemma OutOfCat(w: World, n: Node, cap: nat, back: bool, x: State)
    requires n.Cat? && x.pos <= |w.text| && cap + Caps(n) <= |x.caps|
    ensures Out(w, n, cap, back, x) ==
            OutAll(w, Trail(n, back), TrailCap(n, cap, back), back, cap, cap + Caps(n), x,
                   Out(w, Lead(n, back), LeadCap(n, cap, back), back, x))
  {
    hide OutAll;
  }

  lemma OutOfAlt(w: World, n: Node, cap: nat, back: bool, x: State)
    requires n.Alt? && x.pos <= |w.text| && cap + Caps(n) <= |x.caps|
    ensures Out(w, n, cap, back, x) == Out(w, n.left, cap, back, x) + Out(w, n.right, cap + Caps(n.left), back, x)
  {
    hide OutAll, Rep;
  }
}
