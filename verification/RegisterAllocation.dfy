/** The linear scan that assigns registers as a stack (compute_register_count), and
    the proof that on emitted code it never underflows and gives every loop and its
    initialisers the registers that their nesting depth asks for. */
module RegisterAllocation {
  import opened Syntax
  import opened Semantics
  import opened Bytecode
  import opened Compiler

  /** The rewritten code, the stack size after it and the largest size on the way. */
  datatype Alloc = Alloc(code: seq<Instr>, depth: nat, peak: nat)

  /** One instruction at stack size `d`; None is a failed assertion of the scan. */
  function AssignInstr(i: Instr, d: nat): Option<(Instr, nat)> {
    match i
    case SetCount(_, count) => Some((SetCount(d, count), d + 1))
    case SetPos(_) => Some((SetPos(d), d + 1))
    case CheckAdvance(_) => if d == 0 then None else Some((CheckAdvance(d - 1), d - 1))
    case Loop(_, off) => if d == 0 then None else Some((Loop(d - 1, off), d - 1))
    case LoopSplit(chk, nextFirst, _, limit, off) =>
      var held := if chk then 2 else 1;
      if d < held then None else Some((LoopSplit(chk, nextFirst, d - held, limit, off), d - held))
    case _ => Some((i, d))
  }

  function Assign(code: seq<Instr>, d: nat): (r: Option<Alloc>)
    ensures r.Some? ==> r.value.peak >= d && r.value.peak >= r.value.depth
  {
    if code == [] then Some(Alloc([], d, d))
    else
      var first := AssignInstr(code[0], d);
      if first.None? then None
      else
        var rest := Assign(code[1..], first.value.1);
        if rest.None? then None
        else Some(Alloc([first.value.0] + rest.value.code, rest.value.depth, Max(d, rest.value.peak)))
  }

  function Follow(a: Option<Alloc>, b: Option<Alloc>): Option<Alloc> {
    if a.None? || b.None? then None
    else Some(Alloc(a.value.code + b.value.code, b.value.depth, Max(a.value.peak, b.value.peak)))
  }

  function Depth(a: Option<Alloc>): nat { if a.Some? then a.value.depth else 0 }

  lemma {:induction false} AssignConcat(a: seq<Instr>, b: seq<Instr>, d: nat)
    ensures Assign(a + b, d) == Follow(Assign(a, d), Assign(b, Depth(Assign(a, d)))) || Assign(a, d).None?
    ensures Assign(a, d).None? ==> Assign(a + b, d).None?
  {
    if a == [] {
      assert a + b == b;
      if Assign(b, d).Some? { assert [] + Assign(b, d).value.code == Assign(b, d).value.code; }
    } else {
      assert (a + b)[1..] == a[1..] + b;
      var first := AssignInstr(a[0], d);
      if first.Some? {
        var i, d1 := first.value.0, first.value.1;
        AssignConcat(a[1..], b, d1);
        var ra, rb := Assign(a[1..], d1), Assign(b, Depth(Assign(a, d)));
        if ra.Some? && rb.Some? {
          assert ([i] + ra.value.code) + rb.value.code == [i] + (ra.value.code + rb.value.code);
        }
      }
    }
  }

  /** `code` is rewritten to `code'`, leaves the stack as high as it found it and
      needs `extra` entries on the way. */
  ghost predicate Balanced(code: seq<Instr>, code': seq<Instr>, d: nat, extra: nat) {
    Assign(code, d) == Some(Alloc(code', d, d + extra))
  }

  lemma BalancedNil(d: nat)
    ensures Balanced([], [], d, 0)
  {
  }

  lemma OneBefore(i: Instr, a: seq<Instr>, a': seq<Instr>, d: nat, extra: nat)
    requires !i.SetCount? && !i.SetPos? && !i.CheckAdvance? && !i.Loop? && !i.LoopSplit?
    requires Balanced(a, a', d, extra)
    ensures Balanced([i] + a, [i] + a', d, extra)
  {
    hide Assign, Balanced;
    BalancedOne(i, d);
    BalancedConcat([i], [i], a, a', d, 0, extra);
  }

  /** An instruction that has no register. */
  lemma BalancedOne(i: Instr, d: nat)
    requires !i.SetCount? && !i.SetPos? && !i.CheckAdvance? && !i.Loop? && !i.LoopSplit?
    ensures Balanced([i], [i], d, 0)
  {
    Single(i, d);
  }

  lemma BalancedConcat(a: seq<Instr>, a': seq<Instr>, b: seq<Instr>, b': seq<Instr>, d: nat, e1: nat, e2: nat)
    requires Balanced(a, a', d, e1) && Balanced(b, b', d, e2)
    ensures Balanced(a + b, a' + b', d, Max(e1, e2))
  {
    hide Assign;
    AssignConcat(a, b, d);
  }

  lemma Single(i: Instr, d: nat)
    ensures var r := AssignInstr(i, d);
            Assign([i], d) == if r.None? then None else Some(Alloc([r.value.0], r.value.1, Max(d, r.value.1)))
  {
    var r := AssignInstr(i, d);
    assert [i][1..] == [];
    if r.Some? { assert [r.value.0] + [] == [r.value.0]; }
  }

  /** Code between a push and the matching pop. */
  lemma Bracket(push: seq<Instr>, push': seq<Instr>, body: seq<Instr>, body': seq<Instr>, pop: seq<Instr>,
                pop': seq<Instr>, d: nat, held: nat, extra: nat)
    requires Assign(push, d) == Some(Alloc(push', d + held, d + held))
    requires Balanced(body, body', d + held, extra)
    requires Assign(pop, d + held) == Some(Alloc(pop', d, d + held))
    ensures Balanced(push + body + pop, push' + body' + pop', d, held + extra)
  {
    hide Assign;
    AssignConcat(push, body, d);
    AssignConcat(push + body, pop, d);
  }

  /* ----- sizes do not depend on registers ----- */

  lemma {:induction false} AssignKeepsSize(code: seq<Instr>, d: nat)
    ensures Assign(code, d).Some? ==>
              Size(Assign(code, d).value.code) == Size(code) && |Assign(code, d).value.code| == |code|
  {
    if code != [] {
      var first := AssignInstr(code[0], d);
      if first.Some? {
        var i, d1 := first.value.0, first.value.1;
        AssignKeepsSize(code[1..], d1);
        if Assign(code[1..], d1).Some? {
          assert ([i] + Assign(code[1..], d1).value.code)[1..] == Assign(code[1..], d1).value.code;
        }
      }
    }
  }

  /* ----- quantifiers ----- */

  lemma BodyBalanced(init: bool, atom: seq<Instr>, atom': seq<Instr>, lo: nat, hi: nat, d: nat, extra: nat)
    requires Balanced(atom, atom', d, extra)
    ensures Balanced(WrapBody(init, atom, lo, hi), WrapBody(init, atom', lo, hi), d, extra)
  {
    if init && lo < hi {
      BalancedOne(SaveReset(lo, hi - 1), d);
      BalancedConcat([SaveReset(lo, hi - 1)], [SaveReset(lo, hi - 1)], atom, atom', d, 0, extra);
    }
  }

  lemma OptBalanced(b: bool, i: Instr, d: nat)
    requires !i.SetCount? && !i.SetPos? && !i.CheckAdvance? && !i.Loop? && !i.LoopSplit?
    ensures Balanced(Opt(b, i), Opt(b, i), d, 0)
  {
    if b { BalancedOne(i, d); } else { BalancedNil(d); }
  }

  lemma StarBalanced(chk: bool, body: seq<Instr>, body': seq<Instr>, again: bool, greedy: bool, d: nat, extra: nat)
    requires Balanced(body, body', d + Num(chk), extra) && Size(body) == Size(body')
    ensures Balanced(WrapStar(chk, body, again, greedy, 0), WrapStar(chk, body', again, greedy, d), d, Num(chk) + extra)
  {
    hide *;
    var len := Size(body);
    var split := Split(greedy, len + 5 * Num(again) + 4 * Num(chk));
    var goto := Goto(-(5 + 2 * Num(chk) + len + 2 * Num(chk) + 5));
    var inner := Opt(chk, SetPos(0)) + body + Opt(chk, CheckAdvance(0));
    var inner' := Opt(chk, SetPos(d)) + body' + Opt(chk, CheckAdvance(d));
    Noting(chk, body, body', d, extra);
    OneBefore(split, inner, inner', d, Num(chk) + extra);
    OptBalanced(again, goto, d);
    BalancedConcat([split] + inner, [split] + inner', Opt(again, goto), Opt(again, goto), d, Num(chk) + extra, 0);
    MaxZero(Num(chk) + extra);
    StarInOrder(chk, body, again, greedy, 0);
    StarInOrder(chk, body', again, greedy, d);
  }

  lemma MaxZero(n: nat)
    ensures Max(n, 0) == n
  {
  }

  lemma StarInOrder(chk: bool, body: seq<Instr>, again: bool, greedy: bool, r: nat)
    ensures WrapStar(chk, body, again, greedy, r)
            == [Split(greedy, Size(body) + 5 * Num(again) + 4 * Num(chk))]
               + (Opt(chk, SetPos(r)) + body + Opt(chk, CheckAdvance(r)))
               + Opt(again, Goto(-(5 + 2 * Num(chk) + Size(body) + 2 * Num(chk) + 5)))
  {
    hide Opt, Size;
  }

  /** The position noted before an iteration and checked after it. */
  lemma Noting(chk: bool, body: seq<Instr>, body': seq<Instr>, d: nat, extra: nat)
    requires Balanced(body, body', d + Num(chk), extra)
    ensures Balanced(Opt(chk, SetPos(0)) + body + Opt(chk, CheckAdvance(0)),
                     Opt(chk, SetPos(d)) + body' + Opt(chk, CheckAdvance(d)), d, Num(chk) + extra)
  {
    if chk {
      Single(SetPos(0), d);
      Single(CheckAdvance(0), d + 1);
      Bracket([SetPos(0)], [SetPos(d)], body, body', [CheckAdvance(0)], [CheckAdvance(d)], d, 1, extra);
    } else {
      assert [] + body + [] == body && [] + body' + [] == body';
    }
  }

  lemma CountBalanced(chk: bool, body: seq<Instr>, body': seq<Instr>, count: nat, limit: nat, exact: bool,
                      greedy: bool, d: nat, extra: nat)
    requires Balanced(body, body', d + 1 + Num(chk), extra) && Size(body) == Size(body')
    requires exact ==> !chk
    ensures Balanced(WrapCount(chk, body, count, limit, exact, greedy, 0, 0),
                     WrapCount(chk, body', count, limit, exact, greedy, d, d + 1), d, 1 + Num(chk) + extra)
  {
    hide Assign, Balanced, Size;
    var tail, tail' :=
          CountTail(chk, Size(body), limit, exact, greedy, 0), CountTail(chk, Size(body), limit, exact, greedy, d);
    var held := 1 + Num(chk);
    Single(tail, d + held);
    Single(SetCount(0, count), d);
    Single(SetPos(0), d + 1);
    AssignConcat([SetCount(0, count)], [SetPos(0)], d);
    assert [SetCount(0, count)] + [] == [SetCount(0, count)];
    assert [SetCount(d, count)] + [] == [SetCount(d, count)];
    Bracket([SetCount(0, count)] + Opt(chk, SetPos(0)), [SetCount(d, count)] + Opt(chk, SetPos(d + 1)), body, body',
            [tail], [tail'], d, held, extra);
  }

  lemma MainBalanced(chk: bool, body: seq<Instr>, body': seq<Instr>, min: nat, max: nat, greedy: bool, d: nat,
                     extra: nat)
    requires min <= max
    requires Balanced(body, body', d + Held(chk, min, max), extra) && Size(body) == Size(body')
    ensures Balanced(WrapMain(chk, body, min, max, greedy, 0, 0), WrapMain(chk, body', min, max, greedy, d, d + 1), d,
                     if max == 0 then 0 else Held(chk, min, max) + extra)
  {
    hide Assign, Balanced, Size, WrapCount, WrapStar;
    if min == 0 {
      if max == 0 {
        BalancedNil(d);
      } else if max == 1 || max == INT32_MAX {
        StarBalanced(chk, body, body', max == INT32_MAX, greedy, d, extra);
      } else {
        var split := Split(greedy, 6 + 2 * Num(chk) + Size(body) + 10);
        BalancedOne(split, d);
        CountBalanced(chk, body, body', max, max, false, greedy, d, extra);
        BalancedConcat([split], [split], WrapCount(chk, body, max, max, false, greedy, 0, 0),
                       WrapCount(chk, body', max, max, false, greedy, d, d + 1), d, 0, 1 + Num(chk) + extra);
      }
    } else if min == 1 && max == INT32_MAX && !chk {
      var split := Split(!greedy, -(Size(body) + 5));
      BalancedOne(split, d);
      BalancedConcat(body, body', [split], [split], d, extra, 0);
    } else {
      CountBalanced(chk && min != max, body, body', max, max - min, min == max, greedy, d, extra);
    }
  }

  lemma WrapBalanced(chk: bool, init: bool, atom: seq<Instr>, atom': seq<Instr>, lo: nat, hi: nat, min: nat, max: nat,
                     greedy: bool, d: nat, extra: nat)
    requires min <= max
    requires Balanced(atom, atom', d + Held(chk, min, max), extra)
    ensures Balanced(Wrap(chk, init, atom, lo, hi, min, max, greedy, 0, 0),
                     Wrap(chk, init, atom', lo, hi, min, max, greedy, d, d + 1), d,
                     if max == 0 then 0 else Held(chk, min, max) + extra)
  {
    var body, body' := WrapBody(init, atom, lo, hi), WrapBody(init, atom', lo, hi);
    BodyBalanced(init, atom, atom', lo, hi, d + Held(chk, min, max), extra);
    AssignKeepsSize(body, d + Held(chk, min, max));
    MainBalanced(chk, body, body', min, max, greedy, d, extra);
    var pre := WrapPre(init, lo, hi, min);
    assert Balanced(pre, pre, d, 0) by {
      if pre != [] { BalancedOne(SaveReset(lo, hi - 1), d); } else { BalancedNil(d); }
    }
    BalancedConcat(pre, pre, WrapMain(chk, body, min, max, greedy, 0, 0),
                   WrapMain(chk, body', min, max, greedy, d, d + 1), d, 0,
                   if max == 0 then 0 else Held(chk, min, max) + extra);
  }

  /** Register allocation is correct: on emitted code the scan's assertions hold, the
      stack returns to where it was, the result is the code whose registers are
      assigned by nesting depth, and the reported size is what the code needs. */
  lemma {:induction false} AllocationCorrect(g: Canon, n: Node, cap: nat, back: bool, d: nat, total: nat)
    requires WellFormed(n, total)
    ensures Balanced(Code(g, n, cap, back), Frag(g, n, cap, back, d), d, Registers(g, n, cap, back))
    decreases n, 1
  {
    hide Assign, Balanced, Code, Frag, Registers;
    match n
    case Empty => LeafAllocation(g, n, cap, back, d);
    case One(t) => LeafAllocation(g, n, cap, back, d);
    case Assert(a) => LeafAllocation(g, n, cap, back, d);
    case BackRef(groups, icase) => LeafAllocation(g, n, cap, back, d);
    case Cat(l, r) =>
      AllocationCorrect(g, Lead(n, back), LeadCap(n, cap, back), back, d, total);
      AllocationCorrect(g, Trail(n, back), TrailCap(n, cap, back), back, d, total);
      CatAllocation(g, n, cap, back, d);
    case Alt(l, r) =>
      AllocationCorrect(g, l, cap, back, d, total);
      AllocationCorrect(g, r, cap + Caps(l), back, d, total);
      AltAllocation(g, n, cap, back, d);
    case Group(b) =>
      AllocationCorrect(g, b, cap + 1, back, d, total);
      GroupAllocation(g, n, cap, back, d);
    case Look(behind, _, b) =>
      AllocationCorrect(g, b, cap, behind, d, total);
      LookAllocation(g, n, cap, back, d);
    case Repeat(_, _, _, _) => RepeatAllocation(g, n, cap, back, d, total);
  }

  ghost predicate Allocated(g: Canon, n: Node, cap: nat, back: bool, d: nat) {
    Balanced(Code(g, n, cap, back), Frag(g, n, cap, back, d), d, Registers(g, n, cap, back))
  }

  lemma LeafAllocation(g: Canon, n: Node, cap: nat, back: bool, d: nat)
    requires n.Empty? || n.One? || n.Assert? || n.BackRef?
    ensures Allocated(g, n, cap, back, d)
  {
    hide Assign, Balanced;
    match n
    case Empty => BalancedNil(d);
    case One(t) => OneBalanced(g, t, cap, back, d);
    case Assert(a) => BalancedOne(Test(a), d);
    case BackRef(groups, icase) => BalancedOne(BackRefs(groups, icase, back), d);
  }

  lemma CatAllocation(g: Canon, n: Node, cap: nat, back: bool, d: nat)
    requires n.Cat?
    requires Allocated(g, Lead(n, back), LeadCap(n, cap, back), back, d)
    requires Allocated(g, Trail(n, back), TrailCap(n, cap, back), back, d)
    ensures Allocated(g, n, cap, back, d)
  {
    hide Assign, Balanced;
    var lead, lc, trail, tc := Lead(n, back), LeadCap(n, cap, back), Trail(n, back), TrailCap(n, cap, back);
    BalancedConcat(Code(g, lead, lc, back), Frag(g, lead, lc, back, d), Code(g, trail, tc, back),
                   Frag(g, trail, tc, back, d), d,
                   Registers(g, lead, lc, back), Registers(g, trail, tc, back));
  }

  lemma AltAllocation(g: Canon, n: Node, cap: nat, back: bool, d: nat)
    requires n.Alt?
    requires Allocated(g, n.left, cap, back, d) && Allocated(g, n.right, cap + Caps(n.left), back, d)
    ensures Allocated(g, n, cap, back, d)
  {
    hide Assign, Balanced, Code, Frag, Size, Caps;
    var l, r, cap2 := n.left, n.right, cap + Caps(n.left);
    CodeOfAlt(g, n, cap, back);
    FragOfAlt(g, n, cap, back, d);
    AltBalanced(Code(g, l, cap, back), Frag(g, l, cap, back, d), Code(g, r, cap2, back), Frag(g, r, cap2, back, d), d,
                Registers(g, l, cap, back), Registers(g, r, cap2, back));
  }

  lemma GroupAllocation(g: Canon, n: Node, cap: nat, back: bool, d: nat)
    requires n.Group? && Allocated(g, n.body, cap + 1, back, d)
    ensures Allocated(g, n, cap, back, d)
  {
    hide Assign, Balanced;
    Enclosed(Save(back, cap), Save(!back, cap), Code(g, n.body, cap + 1, back), Frag(g, n.body, cap + 1, back, d), d,
             Registers(g, n.body, cap + 1, back));
  }

  lemma LookAllocation(g: Canon, n: Node, cap: nat, back: bool, d: nat)
    requires n.Look? && Allocated(g, n.body, cap, n.behind, d)
    ensures Allocated(g, n, cap, back, d)
  {
    hide Assign, Balanced, Size;
    var a, a' := Code(g, n.body, cap, n.behind), Frag(g, n.body, cap, n.behind, d);
    BalancedSize(a, a', d, Registers(g, n.body, cap, n.behind));
    Enclosed(LookStart(n.negative, Size(a) + 1), LookMatch(n.negative), a, a', d, Registers(g, n.body, cap, n.behind));
  }

  lemma {:induction false} RepeatAllocation(g: Canon, n: Node, cap: nat, back: bool, d: nat, total: nat)
    requires n.Repeat? && WellFormed(n, total)
    ensures Balanced(Code(g, n, cap, back), Frag(g, n, cap, back, d), d, Registers(g, n, cap, back))
    decreases n, 0
  {
    hide Assign, Balanced, Wrap, NeedsAdvanceCheck, NeedsCaptureInit;
    var b, max := n.body, QuantMax(n.max);
    var a := Code(g, b, cap, back);
    var chk, init := NeedsAdvanceCheck(a), NeedsCaptureInit(a);
    var dh := d + Held(chk, n.min, max);
    AllocationCorrect(g, b, cap, back, dh, total);
    WrapBalanced(chk, init, a, Frag(g, b, cap, back, dh), cap, cap + Caps(b), n.min, max, n.greedy, d,
                 Registers(g, b, cap, back));
  }

  lemma BalancedSize(a: seq<Instr>, a': seq<Instr>, d: nat, extra: nat)
    requires Balanced(a, a', d, extra)
    ensures Size(a) == Size(a')
  {
    AssignKeepsSize(a, d);
  }

  lemma OneBalanced(g: Canon, t: CharTest, cap: nat, back: bool, d: nat)
    ensures Balanced(Code(g, One(t), cap, back), Code(g, One(t), cap, back), d, 0)
  {
    hide Assign, Balanced;
    var read := [Consume(TestOp(g, t))];
    BalancedOne(Consume(TestOp(g, t)), d);
    BalancedOne(Prev, d);
    BalancedConcat([Prev], [Prev], read, read, d, 0, 0);
    BalancedConcat([Prev] + read, [Prev] + read, [Prev], [Prev], d, 0, 0);
    assert [Prev] + read + [Prev] == [Prev, Consume(TestOp(g, t)), Prev];
  }

  lemma Enclosed(i: Instr, j: Instr, a: seq<Instr>, a': seq<Instr>, d: nat, extra: nat)
    requires i.Save? || i.LookStart?
    requires j.Save? || j.LookMatch?
    requires Balanced(a, a', d, extra)
    ensures Balanced([i] + a + [j], [i] + a' + [j], d, extra)
  {
    hide Assign, Balanced;
    BalancedOne(i, d);
    BalancedOne(j, d);
    BalancedConcat([i], [i], a, a', d, 0, extra);
    BalancedConcat([i] + a, [i] + a', [j], [j], d, extra, 0);
  }

  lemma AltBalanced(a: seq<Instr>, a': seq<Instr>, b: seq<Instr>, b': seq<Instr>, d: nat, e1: nat, e2: nat)
    requires Balanced(a, a', d, e1) && Balanced(b, b', d, e2)
    ensures Balanced([Split(true, Size(a) + 5)] + a + [Goto(Size(b))] + b,
                     [Split(true, Size(a') + 5)] + a' + [Goto(Size(b'))] + b', d, Max(e1, e2))
  {
    hide Assign, Balanced, Size;
    BalancedSize(a, a', d, e1);
    BalancedSize(b, b', d, e2);
    var split, goto := Split(true, Size(a) + 5), Goto(Size(b));
    OneBefore(split, a, a', d, e1);
    OneBefore(goto, b, b', d, e2);
    BalancedConcat([split] + a, [split] + a', [goto] + b, [goto] + b', d, e1, e2);
    assert [split] + a + [goto] + b == ([split] + a) + ([goto] + b);
    assert [split] + a' + [goto] + b' == ([split] + a') + ([goto] + b');
  }
}
