/** The two checks a quantifier may drop. The scan of an atom's code decides; here
    its answers are related to what the atom can do. */
module Elision {
  import opened Syntax
  import opened Semantics
  import opened Bytecode
  import opened Compiler

  lemma {:induction false} ScanConcat(a: seq<Instr>, b: seq<Instr>)
    ensures ScanCode(a + b) == Join(ScanCode(a), ScanCode(b))
  {
    if a == [] {
      assert a + b == b;
    } else {
      assert (a + b)[1..] == a[1..] + b;
      ScanConcat(a[1..], b);
    }
  }

  lemma ScanSingle(i: Instr)
    ensures ScanCode([i]) == ScanInstr(i)
  {
    assert [i][1..] == [];
  }

  lemma ScanOne(g: Canon, t: CharTest, cap: nat, back: bool)
    ensures ScanCode(Code(g, One(t), cap, back)) == Scan(true, false, false)
  {
    var read := [Consume(TestOp(g, t))];
    assert ScanCode(read) == Scan(true, false, false);
    assert ScanCode([Prev]) == Scan(false, false, false);
    ScanConcat([Prev], read);
    ScanConcat([Prev] + read, [Prev]);
    assert [Prev] + read + [Prev] == [Prev, Consume(TestOp(g, t)), Prev];
  }

  lemma ScanGroup(c: seq<Instr>, k: nat, back: bool)
    ensures ScanCode([Save(back, k)] + c + [Save(!back, k)]) == ScanCode(c)
  {
    assert ScanCode([Save(back, k)]) == ScanCode([Save(!back, k)]) == Scan(false, false, false);
    ScanConcat([Save(back, k)], c);
    ScanConcat([Save(back, k)] + c, [Save(!back, k)]);
  }

  lemma BranchStopsScan(g: Canon, n: Node, cap: nat, back: bool)
    requires n.Alt? || n.Look?
    ensures ScanCode(Code(g, n, cap, back)) == Scan(false, true, true)
  {
    var c := Code(g, n, cap, back);
    assert c[0].Split? || c[0].LookStart?;
  }

  /** Nodes whose code is a straight line that never looks at a capture. */
  predicate Linear(n: Node) {
    match n
    case Empty | One(_) | Assert(_) => true
    case BackRef(_, _) | Alt(_, _) | Look(_, _, _) => false
    case Cat(l, r) => Linear(l) && Linear(r)
    case Group(b) => Linear(b)
    case Repeat(_, _, max, _) => max == Finite(0)
  }

  /** The groups a straight-line node always sets. */
  predicate AlwaysSets(n: Node, cap: nat, k: nat) {
    match n
    case Cat(l, r) => AlwaysSets(l, cap, k) || AlwaysSets(r, cap + Caps(l), k)
    case Group(b) => k == cap || AlwaysSets(b, cap + 1, k)
    case _ => false
  }

  lemma {:induction false} AlwaysSetsInside(n: Node, cap: nat, k: nat)
    requires AlwaysSets(n, cap, k)
    ensures cap <= k < cap + Caps(n)
  {
    match n
    case Cat(l, r) =>
      if AlwaysSets(l, cap, k) { AlwaysSetsInside(l, cap, k); } else { AlwaysSetsInside(r, cap + Caps(l), k); }
    case Group(b) =>
      if k != cap { AlwaysSetsInside(b, cap + 1, k); }
    case _ => assert false;
  }

  /** What the scan makes of a quantified atom. */
  lemma ScanWrap(chk: bool, init: bool, atom: seq<Instr>, lo: nat, hi: nat, min: nat, max: nat, greedy: bool, r: nat,
                 r2: nat)
    requires min <= max
    ensures var s := ScanCode(Wrap(chk, init, atom, lo, hi, min, max, greedy, r, r2));
            && s.init == (max != 0)
            && (s.adv ==> min > 0 && ScanCode(atom).adv)
  {
    var body := WrapBody(init, atom, lo, hi);
    assert ScanCode(body).adv ==> ScanCode(atom).adv by {
      if init && lo < hi { ScanConcat([SaveReset(lo, hi - 1)], atom); }
    }
    if WrapPre(init, lo, hi, min) != [] { ScanSingle(SaveReset(lo, hi - 1)); }
    ScanMain(chk, body, min, max, greedy, r, r2);
    ScanConcat(WrapPre(init, lo, hi, min), WrapMain(chk, body, min, max, greedy, r, r2));
  }

  lemma ScanMain(chk: bool, body: seq<Instr>, min: nat, max: nat, greedy: bool, r: nat, r2: nat)
    requires min <= max
    ensures var s := ScanCode(WrapMain(chk, body, min, max, greedy, r, r2));
            s.init == (max != 0) && (s.adv ==> min > 0 && ScanCode(body).adv)
  {
    if min == 0 {
      if max == 1 || max == INT32_MAX {
        assert WrapStar(chk, body, max == INT32_MAX, greedy, r)[0].Split?;
      } else if max != 0 {
        var split := Split(greedy, 6 + 2 * Num(chk) + Size(body) + 10);
        ScanSingle(split);
        ScanConcat([split], WrapCount(chk, body, max, max, false, greedy, r, r2));
      }
    } else if min == 1 && max == INT32_MAX && !chk {
      ScanSingle(Split(!greedy, -(Size(body) + 5)));
      ScanConcat(body, [Split(!greedy, -(Size(body) + 5))]);
    } else {
      ScanCount(chk && min != max, body, max, max - min, min == max, greedy, r, r2);
    }
  }

  lemma ScanCount(chk: bool, body: seq<Instr>, count: nat, limit: nat, exact: bool, greedy: bool, r: nat, r2: nat)
    ensures var s := ScanCode(WrapCount(chk, body, count, limit, exact, greedy, r, r2));
            s.init && (s.adv ==> ScanCode(body).adv)
  {
    hide Size;
    var tail := CountTail(chk, Size(body), limit, exact, greedy, r);
    var head := [SetCount(r, count)] + Opt(chk, SetPos(r2));
    ScanSingle(tail);
    ScanSingle(SetCount(r, count));
    ScanSingle(SetPos(r2));
    ScanConcat([SetCount(r, count)], Opt(chk, SetPos(r2)));
    ScanConcat(head, body);
    ScanConcat(head + body, [tail]);
  }

  lemma ScanCat(g: Canon, n: Node, cap: nat, back: bool)
    requires n.Cat?
    ensures ScanCode(Code(g, n, cap, back)) ==
            Join(ScanCode(Code(g, Lead(n, back), LeadCap(n, cap, back), back)),
                 ScanCode(Code(g, Trail(n, back), TrailCap(n, cap, back), back)))
  {
    hide ScanCode;
    ScanConcat(Code(g, Lead(n, back), LeadCap(n, cap, back), back),
               Code(g, Trail(n, back), TrailCap(n, cap, back), back));
  }

  lemma ScanGroupNode(g: Canon, n: Node, cap: nat, back: bool)
    requires n.Group?
    ensures ScanCode(Code(g, n, cap, back)) == ScanCode(Code(g, n.body, cap + 1, back))
  {
    hide ScanCode;
    ScanGroup(Code(g, n.body, cap + 1, back), cap, back);
  }

  lemma ScanRepeat(g: Canon, n: Node, cap: nat, back: bool)
    requires n.Repeat? && n.min <= QuantMax(n.max)
    ensures var s := ScanCode(Code(g, n, cap, back));
            && s.init == (QuantMax(n.max) != 0)
            && (s.adv ==> n.min > 0 && ScanCode(Code(g, n.body, cap, back)).adv)
  {
    hide ScanCode, Wrap;
    var a := Code(g, n.body, cap, back);
    ScanWrap(NeedsAdvanceCheck(a), NeedsCaptureInit(a), a, cap, cap + Caps(n.body), n.min, QuantMax(n.max), n.greedy,
             0, 0);
  }

  lemma ScanLeaf(g: Canon, n: Node, cap: nat, back: bool)
    requires n.Empty? || n.Assert? || n.BackRef?
    ensures ScanCode(Code(g, n, cap, back)) == Scan(false, n.BackRef?, false)
  {
    match n
    case Empty =>
    case Assert(a) => ScanSingle(Test(a));
    case BackRef(groups, icase) => ScanSingle(BackRefs(groups, icase, back));
  }

  /** The scan asks for captures to be initialised exactly for the nodes that are
      not straight lines. */
  lemma {:induction false} InitExactlyForNonLinear(g: Canon, n: Node, cap: nat, back: bool, total: nat)
    requires WellFormed(n, total)
    ensures NeedsCaptureInit(Code(g, n, cap, back)) == !Linear(n)
  {
    hide Code, ScanCode;
    match n
    case Empty => ScanLeaf(g, n, cap, back);
    case One(t) => ScanOne(g, t, cap, back);
    case Assert(_) => ScanLeaf(g, n, cap, back);
    case BackRef(_, _) => ScanLeaf(g, n, cap, back);
    case Cat(_, _) =>
      InitExactlyForNonLinear(g, Lead(n, back), LeadCap(n, cap, back), back, total);
      InitExactlyForNonLinear(g, Trail(n, back), TrailCap(n, cap, back), back, total);
      ScanCat(g, n, cap, back);
    case Alt(_, _) => BranchStopsScan(g, n, cap, back);
    case Group(b) =>
      InitExactlyForNonLinear(g, b, cap + 1, back, total);
      ScanGroupNode(g, n, cap, back);
    case Look(_, _, _) => BranchStopsScan(g, n, cap, back);
    case Repeat(_, _, _, _) => ScanRepeat(g, n, cap, back);
  }

  ghost predicate Moved(ys: seq<State>, x: State) {
    forall i :: 0 <= i < |ys| ==> ys[i].pos != x.pos
  }

  lemma AfterMoved(w: World, back: bool, lo: nat, hi: nat, x: State, y: State, zs: seq<State>)
    requires After(w, back, lo, hi, x, y) && y.pos != x.pos
    requires exists a, b :: AllAfter(w, back, a, b, y, zs)
    ensures Moved(zs, x)
  {
    var a, b :| AllAfter(w, back, a, b, y, zs);
    forall i | 0 <= i < |zs| ensures zs[i].pos != x.pos {
      assert After(w, back, a, b, y, zs[i]);
    }
  }

  /** If the scan says that no advance check is needed, every outcome of the node
      lies at a different position from where it started. */
  lemma {:induction false} AdvanceElisionSound(w: World, n: Node, cap: nat, back: bool, total: nat, x: State)
    requires WellFormed(n, total)
    requires x.pos <= |w.text| && cap + Caps(n) <= |x.caps|
    requires !NeedsAdvanceCheck(Code(w.canon, n, cap, back))
    ensures Moved(Out(w, n, cap, back, x), x)
    decreases n, 2, 0
  {
    hide Code, ScanCode, OutAll, Rep, After;
    match n
    case Empty => ScanLeaf(w.canon, n, cap, back);
    case One(t) =>
    case Assert(_) => ScanLeaf(w.canon, n, cap, back);
    case BackRef(_, _) => ScanLeaf(w.canon, n, cap, back);
    case Cat(_, _) => CatAdvances(w, n, cap, back, total, x);
    case Alt(_, _) => BranchStopsScan(w.canon, n, cap, back);
    case Group(b) =>
      ScanGroupNode(w.canon, n, cap, back);
      AdvanceElisionSound(w, b, cap + 1, back, total, x);
    case Look(_, _, _) => BranchStopsScan(w.canon, n, cap, back);
    case Repeat(_, _, _, _) => RepeatAdvances(w, n, cap, back, total, x);
  }

  lemma {:induction false} CatAdvances(w: World, n: Node, cap: nat, back: bool, total: nat, x: State)
    requires n.Cat? && WellFormed(n, total)
    requires x.pos <= |w.text| && cap + Caps(n) <= |x.caps|
    requires !NeedsAdvanceCheck(Code(w.canon, n, cap, back))
    ensures Moved(Out(w, n, cap, back, x), x)
    decreases n, 1, 0
  {
    hide Code, ScanCode, OutAll, Rep, Moved;
    var lead, lc := Lead(n, back), LeadCap(n, cap, back);
    ScanCat(w.canon, n, cap, back);
    var moved := ScanCode(Code(w.canon, lead, lc, back)).adv;
    if moved {
      AdvanceElisionSound(w, lead, lc, back, total, x);
    }
    CatMoved(w, n, cap, back, total, x, Out(w, lead, lc, back, x), moved);
  }

  lemma {:induction false} RepeatAdvances(w: World, n: Node, cap: nat, back: bool, total: nat, x: State)
    requires n.Repeat? && WellFormed(n, total)
    requires x.pos <= |w.text| && cap + Caps(n) <= |x.caps|
    requires !NeedsAdvanceCheck(Code(w.canon, n, cap, back))
    ensures Moved(Out(w, n, cap, back, x), x)
    decreases n, 0, 0
  {
    hide Code, ScanCode, Out, Rep, After, Moved;
    ScanRepeat(w.canon, n, cap, back);
    AdvanceElisionSound(w, n.body, cap, back, total, Reset(x, cap, cap + Caps(n)));
    RepeatMoved(w, n, cap, back, x);
  }

  lemma {:induction false} CatMoved(w: World, n: Node, cap: nat, back: bool, total: nat, x: State, ys: seq<State>,
                                    moved: bool)
    requires n.Cat? && WellFormed(n, total)
    requires x.pos <= |w.text| && cap + Caps(n) <= |x.caps|
    requires AllAfter(w, back, cap, cap + Caps(n), x, ys)
    requires moved ==> Moved(ys, x)
    requires !moved ==> ScanCode(Code(w.canon, Trail(n, back), TrailCap(n, cap, back), back)).adv
    ensures Moved(OutAll(w, Trail(n, back), TrailCap(n, cap, back), back, cap, cap + Caps(n), x, ys), x)
    decreases n, 0, |ys|
  {
    if ys != [] {
      var y, trail, tc := ys[0], Trail(n, back), TrailCap(n, cap, back);
      var zs := Out(w, trail, tc, back, y);
      assert After(w, back, cap, cap + Caps(n), x, y);
      CatMoved(w, n, cap, back, total, x, ys[1..], moved);
      if y.pos != x.pos {
        AfterMoved(w, back, cap, cap + Caps(n), x, y, zs);
      } else {
        AdvanceElisionSound(w, trail, tc, back, total, y);
      }
    }
  }

  lemma RepeatMoved(w: World, n: Node, cap: nat, back: bool, x: State)
    requires n.Repeat? && n.min > 0 && (n.max.Finite? ==> n.min <= n.max.n)
    requires x.pos <= |w.text| && cap + Caps(n) <= |x.caps|
    requires Moved(Out(w, n.body, cap, back, Reset(x, cap, cap + Caps(n))), Reset(x, cap, cap + Caps(n)))
    ensures Moved(Out(w, n, cap, back, x), x)
  {
    var ys := Out(w, n.body, cap, back, Reset(x, cap, cap + Caps(n)));
    RepMoved(w, n, cap, back, n.min, n.max, x, ys);
    assert Iterate(w, n, cap, back, n.min, n.max, x) == RepAll(w, n, cap, back, n.min, n.max, x, ys);
    assert Out(w, n, cap, back, x) == Rep(w, n, cap, back, n.min, n.max, x);
  }

  lemma {:induction false} RepMoved(w: World, n: Node, cap: nat, back: bool, min: nat, max: Bound, x: State,
                                    ys: seq<State>)
    requires n.Repeat?
    requires x.pos <= |w.text| && cap + Caps(n) <= |x.caps|
    requires AllAfter(w, back, cap, cap + Caps(n), x, ys)
    requires Moved(ys, x)
    ensures Moved(RepAll(w, n, cap, back, min, max, x, ys), x)
    decreases |ys|
  {
    if ys != [] {
      RepMoved(w, n, cap, back, min, max, x, ys[1..]);
      AfterMoved(w, back, cap, cap + Caps(n), x, ys[0], Rep(w, n, cap, back, Pred(min), Less(max), ys[0]));
    }
  }

  ghost predicate LeavesCap(ys: seq<State>, x: State, k: nat) {
    forall i :: 0 <= i < |ys| ==> k < |ys[i].caps| && k < |x.caps| && ys[i].caps[k] == x.caps[k]
  }

  /** A straight-line node leaves the groups it does not set as it found them. */
  lemma {:induction false} LinearLeavesOthers(w: World, n: Node, cap: nat, back: bool, x: State, k: nat)
    requires Linear(n) && !AlwaysSets(n, cap, k)
    requires x.pos <= |w.text| && cap + Caps(n) <= |x.caps| && k < |x.caps|
    ensures LeavesCap(Out(w, n, cap, back, x), x, k)
    decreases n, 1, 0
  {
    match n
    case Empty =>
    case One(t) =>
    case Assert(_) =>
    case Cat(_, _) =>
      LinearLeavesOthers(w, Lead(n, back), LeadCap(n, cap, back), back, x, k);
      LinearLeavesAll(w, n, cap, back, x, k, Out(w, Lead(n, back), LeadCap(n, cap, back), back, x));
    case Group(b) => LinearLeavesOthers(w, b, cap + 1, back, x, k);
    case Repeat(_, _, _, _) =>
  }

  lemma {:induction false} LinearLeavesAll(w: World, n: Node, cap: nat, back: bool, x: State, k: nat, ys: seq<State>)
    requires n.Cat? && Linear(n) && !AlwaysSets(n, cap, k)
    requires x.pos <= |w.text| && cap + Caps(n) <= |x.caps| && k < |x.caps|
    requires AllAfter(w, back, cap, cap + Caps(n), x, ys)
    requires LeavesCap(ys, x, k)
    ensures LeavesCap(OutAll(w, Trail(n, back), TrailCap(n, cap, back), back, cap, cap + Caps(n), x, ys), x, k)
    decreases n, 0, |ys|
  {
    if ys != [] {
      LinearLeavesOthers(w, Trail(n, back), TrailCap(n, cap, back), back, ys[0], k);
      LinearLeavesAll(w, n, cap, back, x, k, ys[1..]);
    }
  }

  ghost predicate SetsCap(ys: seq<State>, k: nat) {
    forall i :: 0 <= i < |ys| ==> k < |ys[i].caps| && ys[i].caps[k].Some?
  }

  /** The groups that a node always sets are set in every outcome. */
  lemma {:induction false} AlwaysSetsSound(w: World, n: Node, cap: nat, back: bool, x: State, k: nat)
    requires AlwaysSets(n, cap, k) && x.pos <= |w.text| && cap + Caps(n) <= |x.caps|
    ensures SetsCap(Out(w, n, cap, back, x), k)
    decreases n, 1, 0
  {
    hide Out, OutAll;
    AlwaysSetsInside(n, cap, k);
    if n.Cat? {
      OutOfCat(w, n, cap, back, x);
      var lead, lc, ys := Lead(n, back), LeadCap(n, cap, back), Out(w, Lead(n, back), LeadCap(n, cap, back), back, x);
      if AlwaysSets(lead, lc, k) {
        AlwaysSetsSound(w, lead, lc, back, x, k);
        AlwaysSetsInside(lead, lc, k);
      }
      TrailSets(w, n, cap, back, x, k, ys);
    } else {
      GroupSets(w, n, cap, back, x, k);
    }
  }

  lemma {:induction false} GroupSets(w: World, n: Node, cap: nat, back: bool, x: State, k: nat)
    requires n.Group? && AlwaysSets(n, cap, k) && x.pos <= |w.text| && cap + Caps(n) <= |x.caps|
    ensures SetsCap(Out(w, n, cap, back, x), k)
    decreases n, 0, 0
  {
    hide OutAll, Rep;
    if k != cap { AlwaysSetsSound(w, n.body, cap + 1, back, x, k); }
  }

  lemma {:induction false} TrailSets(w: World, n: Node, cap: nat, back: bool, x: State, k: nat, ys: seq<State>)
    requires n.Cat? && x.pos <= |w.text| && cap + Caps(n) <= |x.caps|
    requires AllAfter(w, back, cap, cap + Caps(n), x, ys)
    requires AlwaysSets(Trail(n, back), TrailCap(n, cap, back), k)
             || (SetsCap(ys, k) && !(TrailCap(n, cap, back) <= k < TrailCap(n, cap, back) + Caps(Trail(n, back))))
    ensures SetsCap(OutAll(w, Trail(n, back), TrailCap(n, cap, back), back, cap, cap + Caps(n), x, ys), k)
    decreases n, 0, |ys|
  {
    hide Out;
    if ys != [] {
      var trail, tc := Trail(n, back), TrailCap(n, cap, back);
      if AlwaysSets(trail, tc, k) { AlwaysSetsSound(w, trail, tc, back, ys[0], k); }
      TrailSets(w, n, cap, back, x, k, ys[1..]);
    }
  }
}
