/** Emitted code fits its byte encoding: register and group numbers fit a byte, and
    jumps fit 32 bits because the buffer never exceeds INT32_MAX / 2 bytes. */
module EmittedCode {
  import opened Syntax
  import opened Semantics
  import opened Bytecode
  import opened Compiler
  import opened Encoding
  import opened Correctness

  const BYTECODE_MAX: nat := INT32_MAX / 2

  /** Operands fit and class tables are ordered. */
  ghost predicate Sound(i: Instr) { Encodable(i) && OrderedInstr(i) }

  ghost predicate AllEncodable(code: seq<Instr>) {
    forall j :: 0 <= j < |code| ==> Sound(code[j])
  }

  lemma EncodableConcat(a: seq<Instr>, b: seq<Instr>)
    requires AllEncodable(a) && AllEncodable(b)
    ensures AllEncodable(a + b)
  {
    forall j | 0 <= j < |a + b| ensures Sound((a + b)[j]) {
      if j < |a| { assert (a + b)[j] == a[j]; } else { assert (a + b)[j] == b[j - |a|]; }
    }
  }

  lemma EncodableOne(i: Instr)
    requires Sound(i)
    ensures AllEncodable([i])
  {
  }

  lemma EncodableOpt(b: bool, i: Instr)
    requires Sound(i)
    ensures AllEncodable(Opt(b, i))
  {
  }

  lemma LastPoints(points: seq<nat>)
    requires ValidPoints(points) && |points| >= 2
    ensures forall i :: 0 <= i < |points| ==> points[i] <= points[|points| - 1]
    ensures forall i :: 0 <= i < |points| - 1 ==> points[i] <= points[|points| - 2] < UINT32_MAX
  {
    var n := |points|;
    assert points[n - 2] < points[n - 1];
    forall i | 0 <= i < n ensures points[i] <= points[n - 1] {
      if i < n - 1 { assert points[i] < points[n - 1]; }
    }
    forall i | 0 <= i < n - 1 ensures points[i] <= points[n - 2] {
      if i < n - 2 { assert points[i] < points[n - 2]; }
    }
  }

  /** The table of a class is ordered, with an open end no lower than its start. */
  lemma PairsOrdered(points: seq<nat>, infinity: nat)
    requires ValidPoints(points) && |points| >= 2 && points[|points| - 2] <= infinity
    ensures OrderedPairs(Pairs(points, infinity))
  {
    var ps := Pairs(points, infinity);
    forall i | 0 <= i < |ps| ensures ps[i].0 <= ps[i].1 {
      assert points[2 * i] < points[2 * i + 1];
      if i < |ps| - 1 { assert points[2 * i + 1] < points[|points| - 1]; }
    }
    forall i, j | 0 <= i < j < |ps| ensures ps[i].1 < ps[j].0 {
      assert points[2 * i] < points[2 * i + 1] < points[2 * j] < points[2 * j + 1];
    }
  }

  lemma ClassEncodable(points: seq<nat>, icase: bool)
    requires ValidPoints(points) && RangesFit(points)
    ensures Sound(Consume(RangeOp(points, icase)))
  {
    hide OrderedPairs, ValidPoints;
    if |points| >= 2 {
      LastPoints(points);
      PointsBelow(points);
      PairsOrdered(points, if HighPoint(points) <= 0xffff then 0xffff else UINT32_MAX - 1);
    }
  }

  lemma PointsBelow(points: seq<nat>)
    requires ValidPoints(points)
    ensures forall i :: 0 <= i < |points| ==> points[i] <= UINT32_MAX
  {
  }

  lemma TestEncodable(g: Canon, t: CharTest)
    requires ValidTest(t)
    ensures Sound(Consume(TestOp(g, t)))
  {
    match t
    case Class(points, icase) => ClassEncodable(points, icase);
    case _ =>
  }

  lemma OneEncodable(g: Canon, t: CharTest, back: bool)
    requires ValidTest(t)
    ensures AllEncodable(Code(g, One(t), 0, back))
  {
    hide Encodable;
    TestEncodable(g, t);
    assert Encodable(Prev) by { PrevEncodable(); }
  }

  lemma PrevEncodable()
    ensures Encodable(Prev)
  {
  }

  lemma BodyEncodable(init: bool, atom: seq<Instr>, lo: nat, hi: nat)
    requires AllEncodable(atom) && hi <= CAPTURE_COUNT_MAX
    ensures AllEncodable(WrapBody(init, atom, lo, hi))
  {
    hide AllEncodable;
    if init && lo < hi {
      EncodableOne(SaveReset(lo, hi - 1));
      EncodableConcat([SaveReset(lo, hi - 1)], atom);
    }
  }

  lemma StarEncodable(chk: bool, body: seq<Instr>, again: bool, greedy: bool, r: nat)
    requires AllEncodable(body) && r < 256
    requires Size(WrapStar(chk, body, again, greedy, r)) <= BYTECODE_MAX
    ensures AllEncodable(WrapStar(chk, body, again, greedy, r))
  {
    hide AllEncodable, Size;
    StarLayout(map[], 0, chk, body, again, greedy, r);
    var len := Size(body);
    var split := Split(greedy, len + 5 * Num(again) + 4 * Num(chk));
    var goto := Goto(-(5 + 2 * Num(chk) + len + 2 * Num(chk) + 5));
    EncodableOne(split);
    EncodableOpt(chk, SetPos(r));
    EncodableOpt(chk, CheckAdvance(r));
    EncodableOpt(again, goto);
    EncodableConcat([split], Opt(chk, SetPos(r)));
    EncodableConcat([split] + Opt(chk, SetPos(r)), body);
    EncodableConcat(Opt(chk, CheckAdvance(r)), Opt(again, goto));
    EncodableConcat([split] + Opt(chk, SetPos(r)) + body, Opt(chk, CheckAdvance(r)) + Opt(again, goto));
  }

  lemma CountEncodable(chk: bool, body: seq<Instr>, count: nat, limit: nat, exact: bool, greedy: bool, r: nat, r2: nat)
    requires AllEncodable(body) && r < 256 && (chk ==> r2 < 256)
    requires count <= INT32_MAX && limit <= INT32_MAX
    requires Size(WrapCount(chk, body, count, limit, exact, greedy, r, r2)) <= BYTECODE_MAX
    ensures AllEncodable(WrapCount(chk, body, count, limit, exact, greedy, r, r2))
  {
    hide AllEncodable, Size;
    CountLayout(map[], 0, chk, body, count, limit, exact, greedy, r, r2);
    var tail := CountTail(chk, Size(body), limit, exact, greedy, r);
    EncodableOne(SetCount(r, count));
    if chk { EncodableOne(SetPos(r2)); } else { NothingEncodable(); }
    EncodableOne(tail);
    EncodableConcat([SetCount(r, count)], Opt(chk, SetPos(r2)));
    EncodableConcat([SetCount(r, count)] + Opt(chk, SetPos(r2)), body);
    EncodableConcat([SetCount(r, count)] + Opt(chk, SetPos(r2)) + body, [tail]);
  }

  lemma NothingEncodable()
    ensures AllEncodable([])
  {
  }

  lemma MainEncodable(chk: bool, body: seq<Instr>, min: nat, max: nat, greedy: bool, r: nat, r2: nat)
    requires min <= max <= INT32_MAX
    requires AllEncodable(body)
    requires Held(chk, min, max) > 0 && max > 0 ==> r < 256
    requires Held(chk, min, max) > 1 ==> r2 < 256
    requires Size(WrapMain(chk, body, min, max, greedy, r, r2)) <= BYTECODE_MAX
    ensures AllEncodable(WrapMain(chk, body, min, max, greedy, r, r2))
  {
    hide AllEncodable, WrapStar, WrapCount, Size;
    if min == 0 {
      if max == 0 {
        NothingEncodable();
      } else if max == 1 || max == INT32_MAX {
        StarMainEncodable(chk, body, max == INT32_MAX, greedy, r);
      } else {
        var split := Split(greedy, 6 + 2 * Num(chk) + Size(body) + 10);
        var count := WrapCount(chk, body, max, max, false, greedy, r, r2);
        SizeConcat([split], count);
        SizeOfSplit(greedy, 6 + 2 * Num(chk) + Size(body) + 10);
        CountLayout(map[], 0, chk, body, max, max, false, greedy, r, r2);
        EncodableOne(split);
        CountEncodable(chk, body, max, max, false, greedy, r, r2);
        EncodableConcat([split], count);
      }
    } else if min == 1 && max == INT32_MAX && !chk {
      var split := Split(!greedy, -(Size(body) + 5));
      SizeConcat(body, [split]);
      SizeOfSplit(!greedy, -(Size(body) + 5));
      EncodableOne(split);
      EncodableConcat(body, [split]);
    } else {
      CountEncodable(chk && min != max, body, max, max - min, min == max, greedy, r, r2);
    }
  }

  lemma SizeOfSplit(nextFirst: bool, off: int)
    ensures Size([Split(nextFirst, off)]) == 5
  {
  }

  /** Without a check a star loop has no register. */
  lemma StarMainEncodable(chk: bool, body: seq<Instr>, again: bool, greedy: bool, r: nat)
    requires AllEncodable(body) && (chk ==> r < 256)
    requires Size(WrapStar(chk, body, again, greedy, r)) <= BYTECODE_MAX
    ensures AllEncodable(WrapStar(chk, body, again, greedy, r))
  {
    hide AllEncodable, Size;
    if chk {
      StarEncodable(chk, body, again, greedy, r);
    } else {
      assert WrapStar(chk, body, again, greedy, r) == WrapStar(chk, body, again, greedy, 0);
      StarEncodable(chk, body, again, greedy, 0);
    }
  }

  /** Every instruction of a node's code fits its encoding. */
  lemma {:induction false} FragEncodable(g: Canon, n: Node, cap: nat, back: bool, d: nat, total: nat)
    requires WellFormed(n, total) && cap + Caps(n) <= total <= CAPTURE_COUNT_MAX
    requires d + Registers(g, n, cap, back) <= REGISTER_COUNT_MAX
    requires Size(Frag(g, n, cap, back, d)) <= BYTECODE_MAX
    ensures AllEncodable(Frag(g, n, cap, back, d))
    decreases n, 1
  {
    hide AllEncodable, Frag, Code, Registers, Size;
    match n
    case Empty => LeafEncodable(g, n, cap, back, d, total);
    case One(t) => LeafEncodable(g, n, cap, back, d, total);
    case Assert(a) => LeafEncodable(g, n, cap, back, d, total);
    case BackRef(_, _) => LeafEncodable(g, n, cap, back, d, total);
    case Cat(_, _) => CatEncodable(g, n, cap, back, d, total);
    case Alt(_, _) => AltEncodable(g, n, cap, back, d, total);
    case Group(_) => GroupEncodable(g, n, cap, back, d, total);
    case Look(_, _, _) => LookEncodable(g, n, cap, back, d, total);
    case Repeat(_, _, _, _) => RepeatEncodable(g, n, cap, back, d, total);
  }

  ghost predicate Sized(g: Canon, n: Node, cap: nat, back: bool, d: nat, total: nat) {
    && WellFormed(n, total) && cap + Caps(n) <= total <= CAPTURE_COUNT_MAX
    && d + Registers(g, n, cap, back) <= REGISTER_COUNT_MAX
    && Size(Frag(g, n, cap, back, d)) <= BYTECODE_MAX
  }

  lemma LeafEncodable(g: Canon, n: Node, cap: nat, back: bool, d: nat, total: nat)
    requires n.Empty? || n.One? || n.Assert? || n.BackRef?
    requires Sized(g, n, cap, back, d, total)
    ensures AllEncodable(Frag(g, n, cap, back, d))
  {
    match n
    case One(t) => OneEncodable(g, t, back);
    case _ =>
  }

  lemma {:induction false} CatEncodable(g: Canon, n: Node, cap: nat, back: bool, d: nat, total: nat)
    requires n.Cat? && Sized(g, n, cap, back, d, total)
    ensures AllEncodable(Frag(g, n, cap, back, d))
    decreases n, 0
  {
    hide AllEncodable, Code, Size, Frag;
    FragOfCat(g, n, cap, back, d);
    var lead, lc, trail, tc := Lead(n, back), LeadCap(n, cap, back), Trail(n, back), TrailCap(n, cap, back);
    var a, b := Frag(g, lead, lc, back, d), Frag(g, trail, tc, back, d);
    SizeConcat(a, b);
    FragEncodable(g, lead, lc, back, d, total);
    FragEncodable(g, trail, tc, back, d, total);
    EncodableConcat(a, b);
  }

  lemma {:induction false} AltEncodable(g: Canon, n: Node, cap: nat, back: bool, d: nat, total: nat)
    requires n.Alt? && Sized(g, n, cap, back, d, total)
    ensures AllEncodable(Frag(g, n, cap, back, d))
    decreases n, 0
  {
    hide AllEncodable, Code, Size;
    var a, b := Frag(g, n.left, cap, back, d), Frag(g, n.right, cap + Caps(n.left), back, d);
    var split, goto := Split(true, Size(a) + 5), Goto(Size(b));
    SizeConcat([split] + a + [goto], b);
    SizeConcat([split] + a, [goto]);
    SizeConcat([split], a);
    FragEncodable(g, n.left, cap, back, d, total);
    FragEncodable(g, n.right, cap + Caps(n.left), back, d, total);
    EncodableOne(split);
    EncodableOne(goto);
    EncodableConcat([split], a);
    EncodableConcat([split] + a, [goto]);
    EncodableConcat([split] + a + [goto], b);
  }

  /** Code between two instructions. */
  lemma EncloseEncodable(i: Instr, a: seq<Instr>, j: Instr)
    requires Sound(i) && Sound(j) && AllEncodable(a)
    ensures AllEncodable([i] + a + [j])
  {
    hide AllEncodable, Sound;
    EncodableOne(i);
    EncodableOne(j);
    EncodableConcat([i], a);
    EncodableConcat([i] + a, [j]);
  }

  lemma EncloseSize(i: Instr, a: seq<Instr>, j: Instr)
    ensures Size(a) <= Size([i] + a + [j])
  {
    hide Size;
    SizeConcat([i], a);
    SizeConcat([i] + a, [j]);
  }

  lemma {:induction false} GroupEncodable(g: Canon, n: Node, cap: nat, back: bool, d: nat, total: nat)
    requires n.Group? && Sized(g, n, cap, back, d, total)
    ensures AllEncodable(Frag(g, n, cap, back, d))
    decreases n, 0
  {
    hide AllEncodable, Code, Size;
    var a := Frag(g, n.body, cap + 1, back, d);
    EncloseSize(Save(back, cap), a, Save(!back, cap));
    FragEncodable(g, n.body, cap + 1, back, d, total);
    EncloseEncodable(Save(back, cap), a, Save(!back, cap));
  }

  lemma {:induction false} LookEncodable(g: Canon, n: Node, cap: nat, back: bool, d: nat, total: nat)
    requires n.Look? && Sized(g, n, cap, back, d, total)
    ensures AllEncodable(Frag(g, n, cap, back, d))
    decreases n, 0
  {
    hide AllEncodable, Code, Size;
    var a := Frag(g, n.body, cap, n.behind, d);
    var start := LookStart(n.negative, Size(a) + 1);
    EncloseSize(start, a, LookMatch(n.negative));
    FragEncodable(g, n.body, cap, n.behind, d, total);
    EncloseEncodable(start, a, LookMatch(n.negative));
  }

  lemma WrapSizes(init: bool, atom: seq<Instr>, lo: nat, hi: nat, chk: bool, min: nat, max: nat, greedy: bool, r: nat,
                  r2: nat)
    requires min <= max
    ensures var body := WrapBody(init, atom, lo, hi);
            && Size(atom) <= Size(body)
            && (max > 0 ==> Size(body) <= Size(WrapMain(chk, body, min, max, greedy, r, r2)))
            && Size(WrapMain(chk, body, min, max, greedy, r, r2)) <= Size(Wrap(chk, init, atom, lo, hi, min, max,
                greedy, r, r2))
  {
    hide Size, WrapStar, WrapCount;
    var body := WrapBody(init, atom, lo, hi);
    if init && lo < hi { SizeConcat([SaveReset(lo, hi - 1)], atom); }
    SizeConcat(WrapPre(init, lo, hi, min), WrapMain(chk, body, min, max, greedy, r, r2));
    if max > 0 {
      if min == 0 && (max == 1 || max == INT32_MAX) {
        StarLayout(map[], 0, chk, body, max == INT32_MAX, greedy, r);
      } else if min == 0 {
        CountLayout(map[], 0, chk, body, max, max, false, greedy, r, r2);
        SizeConcat([Split(greedy, 6 + 2 * Num(chk) + Size(body) + 10)],
                   WrapCount(chk, body, max, max, false, greedy, r, r2));
      } else if min == 1 && max == INT32_MAX && !chk {
        SizeConcat(body, [Split(!greedy, -(Size(body) + 5))]);
      } else {
        CountLayout(map[], 0, chk && min != max, body, max, max - min, min == max, greedy, r, r2);
      }
    }
  }

  lemma PreEncodable(init: bool, lo: nat, hi: nat, min: nat)
    requires hi <= CAPTURE_COUNT_MAX
    ensures AllEncodable(WrapPre(init, lo, hi, min))
  {
  }

  lemma {:induction false} RepeatEncodable(g: Canon, n: Node, cap: nat, back: bool, d: nat, total: nat)
    requires n.Repeat? && Sized(g, n, cap, back, d, total)
    ensures AllEncodable(Frag(g, n, cap, back, d))
    decreases n, 0
  {
    hide AllEncodable, Code, Size, WrapMain, WrapBody, WrapPre, NeedsAdvanceCheck, NeedsCaptureInit;
    var b, max := n.body, QuantMax(n.max);
    var a := Code(g, b, cap, back);
    var chk, init := NeedsAdvanceCheck(a), NeedsCaptureInit(a);
    var atom := Frag(g, b, cap, back, d + Held(chk, n.min, max));
    var lo, hi := cap, cap + Caps(b);
    var body := WrapBody(init, atom, lo, hi);
    WrapSizes(init, atom, lo, hi, chk, n.min, max, n.greedy, d, d + 1);
    PreEncodable(init, lo, hi, n.min);
    if max == 0 {
      NothingMain(chk, body, n.greedy, d, d + 1);
    } else {
      FragEncodable(g, b, cap, back, d + Held(chk, n.min, max), total);
      BodyEncodable(init, atom, lo, hi);
      MainEncodable(chk, body, n.min, max, n.greedy, d, d + 1);
    }
    EncodableConcat(WrapPre(init, lo, hi, n.min), WrapMain(chk, body, n.min, max, n.greedy, d, d + 1));
  }

  lemma NothingMain(chk: bool, body: seq<Instr>, greedy: bool, r: nat, r2: nat)
    ensures AllEncodable(WrapMain(chk, body, 0, 0, greedy, r, r2))
  {
  }
}
