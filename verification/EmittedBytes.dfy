/** The bytes of emitted code, piece by piece: what the emitter's appends, inserts and
    patches have to produce. */
module EmittedBytes {
  import opened Syntax
  import opened Semantics
  import opened Bytecode
  import opened Compiler
  import opened Encoding
  import opened RegisterAllocation
  import opened Search

  ghost predicate AllShort(code: seq<Instr>) {
    forall i :: 0 <= i < |code| ==> Short(code[i])
  }

  /* ----- counts in emitted code fit their fields ----- */

  lemma ShortConcat(a: seq<Instr>, b: seq<Instr>)
    ensures AllShort(a + b) <==> AllShort(a) && AllShort(b)
  {
    if AllShort(a) && AllShort(b) {
      forall i | 0 <= i < |a + b| ensures Short((a + b)[i]) {
        if i < |a| { assert (a + b)[i] == a[i]; } else { assert (a + b)[i] == b[i - |a|]; }
      }
    }
    if AllShort(a + b) {
      forall i | 0 <= i < |a| ensures Short(a[i]) { assert (a + b)[i] == a[i]; }
      forall i | 0 <= i < |b| ensures Short(b[i]) { assert (a + b)[i + |a|] == b[i]; }
    }
  }

  lemma ShortOne(i: Instr)
    requires Short(i)
    ensures AllShort([i])
  {
  }

  lemma StarShort(chk: bool, body: seq<Instr>, again: bool, greedy: bool, r: nat)
    requires AllShort(body)
    ensures AllShort(WrapStar(chk, body, again, greedy, r))
  {
    hide Size, AllShort;
    var len := Size(body);
    var split := Split(greedy, len + 5 * Num(again) + 4 * Num(chk));
    var goto := Goto(-(5 + 2 * Num(chk) + len + 2 * Num(chk) + 5));
    ShortOne(split);
    ShortOpt(chk, SetPos(r));
    ShortOpt(chk, CheckAdvance(r));
    ShortOpt(again, goto);
    ShortConcat([split], Opt(chk, SetPos(r)));
    ShortConcat([split] + Opt(chk, SetPos(r)), body);
    ShortConcat(Opt(chk, CheckAdvance(r)), Opt(again, goto));
    ShortConcat([split] + Opt(chk, SetPos(r)) + body, Opt(chk, CheckAdvance(r)) + Opt(again, goto));
  }

  lemma ShortOpt(b: bool, i: Instr)
    requires Short(i)
    ensures AllShort(Opt(b, i))
  {
  }

  lemma CountShort(chk: bool, body: seq<Instr>, count: nat, limit: nat, exact: bool, greedy: bool, r: nat, r2: nat)
    requires AllShort(body)
    ensures AllShort(WrapCount(chk, body, count, limit, exact, greedy, r, r2))
  {
    hide Size, AllShort;
    var tail := CountTail(chk, Size(body), limit, exact, greedy, r);
    ShortOne(SetCount(r, count));
    ShortOne(tail);
    ShortOpt(chk, SetPos(r2));
    ShortConcat([SetCount(r, count)], Opt(chk, SetPos(r2)));
    ShortConcat([SetCount(r, count)] + Opt(chk, SetPos(r2)), body);
    ShortConcat([SetCount(r, count)] + Opt(chk, SetPos(r2)) + body, [tail]);
  }

  lemma MainShort(chk: bool, body: seq<Instr>, min: nat, max: nat, greedy: bool, r: nat, r2: nat)
    requires min <= max && AllShort(body)
    ensures AllShort(WrapMain(chk, body, min, max, greedy, r, r2))
  {
    hide Size, AllShort, WrapStar, WrapCount;
    if min == 0 {
      if max == 0 {
        ShortOpt(false, Accept);
      } else if max == 1 || max == INT32_MAX {
        StarShort(chk, body, max == INT32_MAX, greedy, r);
      } else {
        var split := Split(greedy, 6 + 2 * Num(chk) + Size(body) + 10);
        ShortOne(split);
        CountShort(chk, body, max, max, false, greedy, r, r2);
        ShortConcat([split], WrapCount(chk, body, max, max, false, greedy, r, r2));
      }
    } else if min == 1 && max == INT32_MAX && !chk {
      var split := Split(!greedy, -(Size(body) + 5));
      ShortOne(split);
      ShortConcat(body, [split]);
    } else {
      CountShort(chk && min != max, body, max, max - min, min == max, greedy, r, r2);
    }
  }

  lemma WrapShort(chk: bool, init: bool, atom: seq<Instr>, lo: nat, hi: nat, min: nat, max: nat, greedy: bool, r: nat,
                  r2: nat)
    requires min <= max && AllShort(atom)
    ensures AllShort(Wrap(chk, init, atom, lo, hi, min, max, greedy, r, r2))
  {
    hide WrapMain, AllShort;
    var body := WrapBody(init, atom, lo, hi);
    assert AllShort(body) by {
      if init && lo < hi {
        ShortOne(SaveReset(lo, hi - 1));
        ShortConcat([SaveReset(lo, hi - 1)], atom);
      }
    }
    MainShort(chk, body, min, max, greedy, r, r2);
    PreShort(init, lo, hi, min);
    ShortConcat(WrapPre(init, lo, hi, min), WrapMain(chk, body, min, max, greedy, r, r2));
  }

  lemma PreShort(init: bool, lo: nat, hi: nat, min: nat)
    ensures AllShort(WrapPre(init, lo, hi, min))
  {
  }

  lemma {:induction false} CodeShort(g: Canon, n: Node, cap: nat, back: bool, total: nat)
    requires WellFormed(n, total)
    ensures AllShort(Code(g, n, cap, back))
  {
    hide Code, AllShort, NeedsAdvanceCheck, NeedsCaptureInit, Caps, Wrap, ValidPoints;
    match n
    case Empty | One(_) | Assert(_) | BackRef(_, _) => LeafShort(g, n, cap, back);
    case Cat(l, r) =>
      var a, b := Code(g, l, cap, back), Code(g, r, cap + Caps(l), back);
      CodeShort(g, l, cap, back, total);
      CodeShort(g, r, cap + Caps(l), back, total);
      CodeOfCat(g, n, cap, back);
      ShortConcat(a, b);
      ShortConcat(b, a);
    case Alt(l, r) =>
      CodeShort(g, l, cap, back, total);
      CodeShort(g, r, cap + Caps(l), back, total);
      CodeOfAlt(g, n, cap, back);
      AltShort(Code(g, l, cap, back), Code(g, r, cap + Caps(l), back));
    case Group(b) =>
      CodeShort(g, b, cap + 1, back, total);
      BodyShort(g, n, cap, back);
    case Look(behind, _, b) =>
      CodeShort(g, b, cap, behind, total);
      BodyShort(g, n, cap, back);
    case Repeat(b, min, max, greedy) =>
      CodeShort(g, b, cap, back, total);
      RepeatShort(g, n, cap, back);
  }

  lemma LeafShort(g: Canon, n: Node, cap: nat, back: bool)
    requires (n.Empty? || n.One? || n.Assert? || n.BackRef?) && ClassesFit(n)
    requires n.BackRef? ==> |n.groups| <= 255
    ensures AllShort(Code(g, n, cap, back))
  {
  }

  lemma AltShort(a: seq<Instr>, b: seq<Instr>)
    requires AllShort(a) && AllShort(b)
    ensures AllShort([Split(true, Size(a) + 5)] + a + [Goto(Size(b))] + b)
  {
    hide Size, AllShort;
    ShortOne(Split(true, Size(a) + 5));
    ShortOne(Goto(Size(b)));
    ShortConcat([Split(true, Size(a) + 5)], a);
    ShortConcat([Split(true, Size(a) + 5)] + a, [Goto(Size(b))]);
    ShortConcat([Split(true, Size(a) + 5)] + a + [Goto(Size(b))], b);
  }

  lemma BodyShort(g: Canon, n: Node, cap: nat, back: bool)
    requires n.Group? || n.Look?
    requires AllShort(Code(g, n.body, if n.Group? then cap + 1 else cap, if n.Look? then n.behind else back))
    ensures AllShort(Code(g, n, cap, back))
  {
    hide Size, AllShort, Wrap, NeedsAdvanceCheck, NeedsCaptureInit;
    var a := Code(g, n.body, if n.Group? then cap + 1 else cap, if n.Look? then n.behind else back);
    var i := if n.Group? then Save(back, cap) else LookStart(n.negative, Size(a) + 1);
    var j := if n.Group? then Save(!back, cap) else LookMatch(n.negative);
    ShortOne(i);
    ShortOne(j);
    ShortConcat([i], a);
    ShortConcat([i] + a, [j]);
  }

  lemma RepeatShort(g: Canon, n: Node, cap: nat, back: bool)
    requires n.Repeat? && AllShort(Code(g, n.body, cap, back)) && n.min <= INT32_MAX
    ensures AllShort(Code(g, n, cap, back))
  {
    hide AllShort, Wrap, NeedsAdvanceCheck, NeedsCaptureInit, Size, TestOp;
    var a := Code(g, n.body, cap, back);
    ShortOpt(false, Accept);
    if n.min <= QuantMax(n.max) {
      WrapShort(NeedsAdvanceCheck(a), NeedsCaptureInit(a), a, cap, cap + Caps(n.body), n.min, QuantMax(n.max),
                n.greedy, 0, 0);
    }
  }

  lemma EncSnoc(code: seq<Instr>, j: nat)
    requires j < |code|
    ensures EncAll(code[..j + 1]) == EncAll(code[..j]) + Enc(code[j])
  {
    hide Enc;
    assert code[..j + 1] == code[..j] + [code[j]];
    EncConcat(code[..j], [code[j]]);
    EncOne(code[j]);
  }

  /** What the scan makes of an opcode. */
  function OpcodeScan(op: byte): Scan {
    if 1 <= op <= 8 || 36 <= op <= 39 then Scan(true, false, false)
    else if 9 <= op <= 12 || 27 <= op <= 31 || op in {42, 44} || 19 <= op <= 21 then Scan(false, false, false)
    else if 32 <= op <= 35 then Scan(false, true, false)
    else Scan(false, true, true)
  }

  lemma OpcodeScanAgrees(i: Instr)
    ensures OpcodeScan(Opcode(i)) == ScanInstr(i)
  {
  }

  /* ----- bytes of a quantifier's parts ----- */

  lemma EncOne(i: Instr)
    ensures EncAll([i]) == Enc(i)
  {
    assert [i][1..] == [];
    assert EncAll([i]) == Enc(i) + [];
  }

  function NoteBytes(chk: bool): seq<byte> { if chk then [42, 0] else [] }

  function CheckBytes(chk: bool): seq<byte> { if chk then [43, 0] else [] }

  lemma EncNote(chk: bool)
    ensures EncAll(Opt(chk, SetPos(0))) == NoteBytes(chk)
    ensures EncAll(Opt(chk, CheckAdvance(0))) == CheckBytes(chk)
  {
    EncOne(SetPos(0));
    EncOne(CheckAdvance(0));
  }

  function GotoBytes(again: bool, off: int): seq<byte> { if again then [13] + I32(off) else [] }

  lemma EncGoto(again: bool, off: int)
    ensures EncAll(Opt(again, Goto(off))) == GotoBytes(again, off)
  {
    EncOne(Goto(off));
  }

  lemma EncStar(chk: bool, body: seq<Instr>, again: bool, greedy: bool)
    ensures var len := Size(body);
            EncAll(WrapStar(chk, body, again, greedy, 0)) ==
            [14 + Num(greedy)] + I32(len + 5 * Num(again) + 2 * 2 * Num(chk)) + NoteBytes(chk) + EncAll(body)
            + CheckBytes(chk) + GotoBytes(again, -(5 + 2 * Num(chk) + len + 2 * Num(chk) + 5))
  {
    hide Enc, EncAll, I32, Size;
    var len := Size(body);
    var split := Split(greedy, len + 5 * Num(again) + 4 * Num(chk));
    var goto := -(5 + 2 * Num(chk) + len + 2 * Num(chk) + 5);
    var head := [split] + Opt(chk, SetPos(0));
    EncNote(chk);
    EncGoto(again, goto);
    EncOne(split);
    EncSplit(greedy, len + 5 * Num(again) + 4 * Num(chk));
    EncConcat([split], Opt(chk, SetPos(0)));
    EncConcat(head, body);
    EncConcat(Opt(chk, CheckAdvance(0)), Opt(again, Goto(goto)));
    EncConcat(head + body, Opt(chk, CheckAdvance(0)) + Opt(again, Goto(goto)));
  }

  lemma EncSplit(nextFirst: bool, off: int)
    ensures Enc(Split(nextFirst, off)) == [14 + Num(nextFirst)] + I32(off)
  {
  }

  function TailBytes(chk: bool, len: nat, limit: nat, exact: bool, greedy: bool): seq<byte> {
    if exact then [22] + U8(0) + I32(-(2 * Num(chk) + len + 6))
    else [23 + 2 * Num(chk) + Num(!greedy)] + U8(0) + U32(limit) + I32(-(2 * Num(chk) + len + 10))
  }

  lemma EncTail(chk: bool, len: nat, limit: nat, exact: bool, greedy: bool)
    ensures Enc(CountTail(chk, len, limit, exact, greedy, 0)) == TailBytes(chk, len, limit, exact, greedy)
  {
    hide Enc, U32, I32;
    if exact {
      EncLoop(-(2 * Num(chk) + len + 6));
    } else {
      EncLoopSplit(chk, !greedy, limit, -(2 * Num(chk) + len + 10));
    }
  }

  lemma EncLoop(off: int)
    ensures Enc(Loop(0, off)) == [22] + U8(0) + I32(off)
  {
    hide I32;
    var a, b := U8(0), I32(off);
    assert [22] + (a + b) == [22] + a + b;
  }

  lemma EncLoopSplit(chk: bool, nextFirst: bool, limit: nat, off: int)
    ensures Enc(LoopSplit(chk, nextFirst, 0, limit, off)) == [23 + 2 * Num(chk) + Num(nextFirst)] + U8(0) + U32(limit)
              + I32(off)
  {
    hide U32, I32;
    var op: byte := 23 + 2 * Num(chk) + Num(nextFirst);
    var a, b, c := U8(0), U32(limit), I32(off);
    assert [op] + (a + b + c) == [op] + a + b + c;
  }

  function CounterBytes(count: nat): seq<byte> { [27] + U8(0) + U32(count) }

  lemma EncCount(chk: bool, body: seq<Instr>, count: nat, limit: nat, exact: bool, greedy: bool)
    ensures EncAll(WrapCount(chk, body, count, limit, exact, greedy, 0, 0)) ==
            CounterBytes(count) + NoteBytes(chk) + EncAll(body) + TailBytes(chk, Size(body), limit, exact, greedy)
  {
    hide EncAll, Size, TailBytes;
    var tail := CountTail(chk, Size(body), limit, exact, greedy, 0);
    var head := [SetCount(0, count)] + Opt(chk, SetPos(0));
    EncOne(SetCount(0, count));
    assert Enc(SetCount(0, count)) == CounterBytes(count);
    EncNote(chk);
    EncOne(tail);
    EncTail(chk, Size(body), limit, exact, greedy);
    EncConcat([SetCount(0, count)], Opt(chk, SetPos(0)));
    EncConcat(head, body);
    EncConcat(head + body, [tail]);
  }

  lemma PartSizes(chk: bool)
    ensures |NoteBytes(chk)| == |CheckBytes(chk)| == 2 * Num(chk)
  {
  }

  lemma CounterSize(count: nat)
    ensures |CounterBytes(count)| == 6
  {
  }

  lemma Regroup(p: seq<byte>, a: seq<byte>, b: seq<byte>, c: seq<byte>, d: seq<byte>)
    ensures p + a + b + c + d == p + (a + b + c + d)
    ensures p + (a + b) + c + d == p + a + (b + c + d)
  {
  }

  lemma EncWrap(chk: bool, init: bool, atom: seq<Instr>, lo: nat, hi: nat, min: nat, max: nat, greedy: bool)
    requires min <= max
    ensures EncAll(Wrap(chk, init, atom, lo, hi, min, max, greedy, 0, 0))
            == EncAll(WrapPre(init, lo, hi, min))
              + EncAll(WrapMain(chk, WrapBody(init, atom, lo, hi), min, max, greedy, 0, 0))
  {
    hide EncAll, WrapMain, WrapBody, WrapPre;
    EncConcat(WrapPre(init, lo, hi, min), WrapMain(chk, WrapBody(init, atom, lo, hi), min, max, greedy, 0, 0));
  }

  lemma Around(p: seq<byte>, b: seq<byte>)
    ensures (p + b)[..|p|] == p && (p + b)[|p|..] == b
  {
  }

  function ResetBytes(reset: bool, lo: nat, hi: nat): seq<byte>
    requires reset ==> hi > 0
  {
    if reset then [21] + U8(lo) + U8(hi - 1) else []
  }

  lemma EncResets(init: bool, atom: seq<Instr>, lo: nat, hi: nat, min: nat)
    requires lo <= hi
    ensures EncAll(WrapBody(init, atom, lo, hi)) == ResetBytes(init && lo != hi, lo, hi) + EncAll(atom)
    ensures EncAll(WrapPre(init, lo, hi, min)) == ResetBytes(min == 0 && !init && lo != hi, lo, hi)
  {
    hide EncAll;
    EncNothing();
    if lo < hi {
      var reset := SaveReset(lo, hi - 1);
      EncOne(reset);
      EncConcat([reset], atom);
      assert Enc(reset) == [21] + (U8(lo) + U8(hi - 1));
    }
  }

  /* ----- bytes of compound nodes ----- */

  lemma EncOneNode(g: Canon, n: Node, cap: nat, back: bool)
    requires n.One?
    ensures var e := Enc(Consume(TestOp(g, n.test)));
            EncAll(Code(g, n, cap, back)) == if back then U8(44) + e + U8(44) else e
  {
    hide EncAll, Enc, TestOp;
    var read := [Consume(TestOp(g, n.test))];
    EncOne(read[0]);
    EncOne(Prev);
    EncPrev();
    EncConcat([Prev], read);
    EncConcat([Prev] + read, [Prev]);
    assert [Prev] + read + [Prev] == [Prev, read[0], Prev];
  }

  lemma EncPrev()
    ensures Enc(Prev) == U8(44)
  {
  }

  lemma EncAlt(p: seq<byte>, a: seq<Instr>, b: seq<Instr>)
    ensures p + EncAll([Split(true, Size(a) + 5)] + a + [Goto(Size(b))] + b) ==
            p + ([15] + I32(Size(a) + 5)) + EncAll(a) + [13] + I32(Size(b)) + EncAll(b)
  {
    hide EncAll, I32, Size;
    var split, goto := Split(true, Size(a) + 5), Goto(Size(b));
    EncOne(split);
    EncOne(goto);
    EncSplit(true, Size(a) + 5);
    EncJump(Size(b));
    EncConcat([split] + a + [goto], b);
    EncConcat([split] + a, [goto]);
    EncConcat([split], a);
    var x, y, u, v := [15] + I32(Size(a) + 5), EncAll(a), [13] + I32(Size(b)), EncAll(b);
    Regroup(p, x, y, u, v);
    assert p + x + y + [13] + I32(Size(b)) + v == p + x + y + u + v;
  }

  lemma Pieces(p: seq<byte>, a: seq<byte>, b: seq<byte>)
    ensures var s := p + a + b;
            && s[..|p|] == p && s[|p|..|p| + |a|] == a && s[|p| + |a|..] == b
            && p + (a + b) == s
  {
  }

  lemma EncCatNode(g: Canon, n: Node, cap: nat, back: bool)
    requires n.Cat?
    ensures var l, r := EncAll(Code(g, n.left, cap, back)), EncAll(Code(g, n.right, cap + Caps(n.left), back));
            EncAll(Code(g, n, cap, back)) == if back then r + l else l + r
  {
    hide EncAll, Code;
    CodeOfCat(g, n, cap, back);
    EncConcat(Code(g, n.left, cap, back), Code(g, n.right, cap + Caps(n.left), back));
    EncConcat(Code(g, n.right, cap + Caps(n.left), back), Code(g, n.left, cap, back));
  }

  lemma EncAltNode(p: seq<byte>, g: Canon, n: Node, cap: nat, back: bool)
    requires n.Alt?
    ensures var a, b := Code(g, n.left, cap, back), Code(g, n.right, cap + Caps(n.left), back);
            p + EncAll(Code(g, n, cap, back)) == p + ([15] + I32(Size(a) + 5)) + EncAll(a) + [13] + I32(Size(b))
              + EncAll(b)
  {
    hide EncAll, I32, Code, Size;
    CodeOfAlt(g, n, cap, back);
    EncAlt(p, Code(g, n.left, cap, back), Code(g, n.right, cap + Caps(n.left), back));
  }

  lemma EncGroupNode(p: seq<byte>, g: Canon, n: Node, cap: nat, back: bool)
    requires n.Group?
    ensures p + EncAll(Code(g, n, cap, back)) ==
            p + [19 + Num(back)] + U8(cap) + EncAll(Code(g, n.body, cap + 1, back)) + [20 - Num(back)] + U8(cap)
  {
    hide EncAll;
    EncGroup(p, Code(g, n.body, cap + 1, back), cap, back);
  }

  lemma EncLookNode(p: seq<byte>, g: Canon, n: Node, cap: nat, back: bool)
    requires n.Look?
    ensures var a := Code(g, n.body, cap, n.behind);
            p + EncAll(Code(g, n, cap, back)) ==
            p + [40 + Num(n.negative)] + I32(Size(a) + 1) + (EncAll(a) + U8(17 + Num(n.negative)))
  {
    hide EncAll, I32;
    EncLook(p, Code(g, n.body, cap, n.behind), n.negative);
  }

  lemma EncBackRefNode(p: seq<byte>, g: Canon, n: Node, cap: nat, back: bool)
    requires n.BackRef?
    ensures p + EncAll(Code(g, n, cap, back)) == p + [32 + 2 * Num(back) + Num(n.icase)] + U8(|n.groups|)
              + EncGroups(n.groups)
  {
    hide EncAll, EncGroups;
    EncOne(BackRefs(n.groups, n.icase, back));
    var op: byte := 32 + 2 * Num(back) + Num(n.icase);
    assert p + ([op] + (U8(|n.groups|) + EncGroups(n.groups))) == p + [op] + U8(|n.groups|) + EncGroups(n.groups);
  }

  lemma EncJump(off: int)
    ensures Enc(Goto(off)) == [13] + I32(off)
  {
  }

  lemma EncGroup(p: seq<byte>, a: seq<Instr>, k: nat, back: bool)
    ensures p + EncAll([Save(back, k)] + a + [Save(!back, k)]) ==
            p + [19 + Num(back)] + U8(k) + EncAll(a) + [20 - Num(back)] + U8(k)
  {
    hide EncAll;
    EncOne(Save(back, k));
    EncOne(Save(!back, k));
    EncConcat([Save(back, k)] + a, [Save(!back, k)]);
    EncConcat([Save(back, k)], a);
    var x, y, z := Enc(Save(back, k)), EncAll(a), Enc(Save(!back, k));
    assert x == [19 + Num(back)] + U8(k) && z == [20 - Num(back)] + U8(k);
    assert p + (x + y + z) == p + [19 + Num(back)] + U8(k) + y + [20 - Num(back)] + U8(k);
  }

  lemma EncLook(p: seq<byte>, a: seq<Instr>, negative: bool)
    ensures p + EncAll([LookStart(negative, Size(a) + 1)] + a + [LookMatch(negative)]) ==
            p + [40 + Num(negative)] + I32(Size(a) + 1) + (EncAll(a) + U8(17 + Num(negative)))
  {
    hide EncAll, I32, Size;
    var start, end := LookStart(negative, Size(a) + 1), LookMatch(negative);
    EncOne(start);
    EncOne(end);
    EncConcat([start] + a, [end]);
    EncConcat([start], a);
    EncLookStart(negative, Size(a) + 1);
    var x, y, z := I32(Size(a) + 1), EncAll(a), U8(17 + Num(negative));
    assert Enc(end) == z;
    assert p + ([40 + Num(negative)] + x + y + z) == p + [40 + Num(negative)] + x + (y + z);
  }

  lemma EncLookStart(negative: bool, off: int)
    ensures Enc(LookStart(negative, off)) == [40 + Num(negative)] + I32(off)
  {
  }

  lemma PairAt(points: seq<nat>, infinity: nat, k: nat)
    requires ValidPoints(points) && 2 * k < |points|
    ensures |points| % 2 == 0 && 2 * k + 1 < |points| && points[2 * k] < points[2 * k + 1] <= UINT32_MAX
            && k < |Pairs(points, infinity)|
    ensures Pairs(points, infinity)[k]
              == (points[2 * k], if points[2 * k + 1] == UINT32_MAX then infinity else points[2 * k + 1] - 1)
  {
    assert points[2 * k] < points[2 * k + 1];
  }

  lemma NoPairs()
    ensures EncPairs16([]) == [] && EncPairs32([]) == []
  {
  }

  lemma Pairs16Step(b: seq<byte>, ps: seq<(nat, nat)>, k: nat)
    requires k < |ps|
    ensures b + EncPairs16(ps[k..]) == b + U16(ps[k].0) + U16(ps[k].1) + EncPairs16(ps[k + 1..])
  {
    assert ps[k..][1..] == ps[k + 1..];
    var rest := EncPairs16(ps[k + 1..]);
    assert b + (U16(ps[k].0) + U16(ps[k].1) + rest) == b + U16(ps[k].0) + U16(ps[k].1) + rest;
  }

  lemma Pairs32Step(b: seq<byte>, ps: seq<(nat, nat)>, k: nat)
    requires k < |ps|
    ensures b + EncPairs32(ps[k..]) == b + U32(ps[k].0) + U32(ps[k].1) + EncPairs32(ps[k + 1..])
  {
    assert ps[k..][1..] == ps[k + 1..];
    var rest := EncPairs32(ps[k + 1..]);
    assert b + (U32(ps[k].0) + U32(ps[k].1) + rest) == b + U32(ps[k].0) + U32(ps[k].1) + rest;
  }

  lemma EncRange16(b: seq<byte>, points: seq<nat>, icase: bool)
    requires |points| >= 2 && HighPoint(points) <= 0xffff
    ensures b + U8(36 + Num(icase)) + U16(|points| / 2) + EncPairs16(Pairs(points, 0xffff))
              == b + Enc(Consume(RangeOp(points, icase)))
  {
    hide EncPairs16;
  }

  lemma EncRange32(b: seq<byte>, points: seq<nat>, icase: bool)
    requires |points| >= 2 && HighPoint(points) > 0xffff
    ensures b + U8(38 + Num(icase)) + U16(|points| / 2) + EncPairs32(Pairs(points, UINT32_MAX - 1))
              == b + Enc(Consume(RangeOp(points, icase)))
  {
    hide EncPairs32;
  }

  /** The instruction at the head of encoded code. */
  lemma FirstInstr(bc: seq<byte>, pos: nat, code: seq<Instr>)
    requires pos < |bc| && bc[pos..] == EncAll(code) && AllShort(code)
    ensures code != [] && bc[pos] == Opcode(code[0]) && RawSize(bc, pos) == InstrSize(code[0])
    ensures bc[pos..] == Enc(code[0]) + EncAll(code[1..])
    ensures pos + InstrSize(code[0]) <= |bc| && bc[pos + InstrSize(code[0])..] == EncAll(code[1..])
            && AllShort(code[1..])
  {
    hide Enc, RawSize, FixedSize;
    assert code != [];
    var e, rest := Enc(code[0]), EncAll(code[1..]);
    assert bc[pos..] == e + rest;
    assert bc[pos..pos + |e|] == bc[pos..][..|e|] == e;
    assert bc[pos + |e|..] == bc[pos..][|e|..] == rest;
    assert Short(code[0]);
    RawSizeStands(bc, pos, code[0]);
  }

  lemma EncNothing()
    ensures EncAll([]) == []
  {
  }

  lemma NothingLeft(code: seq<Instr>)
    requires EncAll(code) == []
    ensures ScanCode(code) == Scan(false, false, false)
  {
  }

  /* ----- registers ----- */

  lemma AssignFirst(code: seq<Instr>, d: nat)
    requires code != [] && Assign(code, d).Some?
    ensures var f := AssignInstr(code[0], d);
            && f.Some?
            && Assign(code[1..], f.value.1).Some?
            && Assign(code, d).value.code == [f.value.0] + Assign(code[1..], f.value.1).value.code
            && Assign(code, d).value.peak == Max(d, Assign(code[1..], f.value.1).value.peak)
            && EncAll(Assign(code, d).value.code) == Enc(f.value.0) + EncAll(Assign(code[1..], f.value.1).value.code)
  {
    hide Enc;
    var f := AssignInstr(code[0], d);
    assert ([f.value.0] + Assign(code[1..], f.value.1).value.code)[1..] == Assign(code[1..], f.value.1).value.code;
  }

  lemma PeakAtLeast(code: seq<Instr>, d: nat)
    ensures Assign(code, d).Some? ==> Assign(code, d).value.peak >= d
  {
  }

  lemma PeakAbove(code: seq<Instr>, d: nat)
    requires Assign(code, d).Some? && d > REGISTER_COUNT_MAX
    ensures Assign(code, d).value.peak > REGISTER_COUNT_MAX
  {
  }

  lemma NothingAssigned(code: seq<Instr>, d: nat)
    requires EncAll(code) == []
    ensures Assign(code, d) == Some(Alloc([], d, d))
    ensures EncAll([]) == []
  {
  }

  /** Which opcodes the pass rewrites, with what, and how the stack moves. */
  lemma OpcodeRegisters(i: Instr, d: nat)
    requires AssignInstr(i, d).Some? && d < 256
    ensures var op, r := Opcode(i), AssignInstr(i, d).value;
            var pushes := op == 27 || op == 42;
            var pops := if op == 43 || 22 <= op <= 24 then 1 else if 25 <= op <= 26 then 2 else 0;
            && pops <= d
            && r.1 == (if pushes then d + 1 else d - pops)
            && |Enc(r.0)| == |Enc(i)|
            && (pushes || pops > 0 ==> InstrSize(i) >= 2 && Enc(r.0) == Enc(i)[1 := if pushes then d else d - pops])
            && (!pushes && pops == 0 ==> r.0 == i)
  {
    hide U32, I32, EncPairs16, EncPairs32, EncGroups;
    match i
    case SetCount(_, count) => FirstOperand(27, i.reg, d, U32(count));
    case SetPos(_) => FirstOperand(42, i.reg, d, []);
    case CheckAdvance(_) => FirstOperand(43, i.reg, d - 1, []);
    case Loop(_, off) => FirstOperand(22, i.reg, d - 1, I32(off));
    case LoopSplit(chk, nextFirst, _, limit, off) =>
      FirstOperand(Opcode(i), i.reg, AssignInstr(i, d).value.1, U32(limit) + I32(off));
      assert U8(i.reg) + (U32(limit) + I32(off)) == U8(i.reg) + U32(limit) + I32(off);
      var d' := AssignInstr(i, d).value.1;
      assert U8(d') + (U32(limit) + I32(off)) == U8(d') + U32(limit) + I32(off);
    case _ =>
  }

  lemma FirstOperand(op: byte, r: nat, r': nat, more: seq<byte>)
    requires r' < 256
    ensures [op] + (U8(r') + more) == ([op] + (U8(r) + more))[1 := r']
    ensures U8(r) + [] == U8(r) && U8(r') + [] == U8(r')
  {
  }

  /** Rewriting the first operand of the instruction at `pos`. */
  lemma Patched(b: seq<byte>, pos: nat, front: seq<byte>, i: Instr, i': Instr, rest: seq<Instr>, v: byte)
    requires pos <= |b| && b[..pos] == front && b[pos..] == Enc(i) + EncAll(rest)
    requires |Enc(i)| >= 2 && Enc(i') == Enc(i)[1 := v]
    ensures var next := pos + |Enc(i)|;
            next <= |b| && b[pos + 1 := v][..next] == front + Enc(i') && b[pos + 1 := v][next..] == EncAll(rest)
  {
    hide Enc, EncAll;
    SplitAt(b, pos, Enc(i), EncAll(rest));
    SecondByte(b, pos, front, Enc(i), EncAll(rest), v);
  }

  lemma SplitAt(b: seq<byte>, pos: nat, e: seq<byte>, r: seq<byte>)
    requires pos <= |b| && b[pos..] == e + r
    ensures var next := pos + |e|; next <= |b| && b[pos..next] == e && b[next..] == r
  {
    var tail, next := b[pos..], pos + |e|;
    assert tail[..|e|] == e && tail[|e|..] == r;
    assert b[pos..next] == tail[..|e|] && b[next..] == tail[|e|..];
  }

  lemma SecondByte(b: seq<byte>, pos: nat, front: seq<byte>, e: seq<byte>, r: seq<byte>, v: byte)
    requires |e| >= 2 && pos + |e| <= |b| && b[..pos] == front && b[pos..pos + |e|] == e && b[pos + |e|..] == r
    ensures var b', next := b[pos + 1 := v], pos + |e|; b'[..next] == front + e[1 := v] && b'[next..] == r
  {
    var b', next := b[pos + 1 := v], pos + |e|;
    assert b'[..pos] == front && b'[pos..next] == e[1 := v];
    assert b'[..next] == b'[..pos] + b'[pos..next];
    assert b'[next..] == b[next..];
  }

  lemma Kept(b: seq<byte>, pos: nat, front: seq<byte>, i: Instr, rest: seq<Instr>)
    requires pos <= |b| && b[..pos] == front && b[pos..] == Enc(i) + EncAll(rest)
    ensures var next := pos + |Enc(i)|;
            next <= |b| && b[..next] == front + Enc(i) && b[next..] == EncAll(rest)
  {
    hide Enc, EncAll;
    var next := pos + |Enc(i)|;
    SplitAt(b, pos, Enc(i), EncAll(rest));
    assert b[..next] == b[..pos] + b[pos..next];
  }

  lemma Shift(a: seq<byte>, b: seq<byte>, c: seq<byte>)
    ensures a + (b + c) == a + b + c
  {
  }

  /* ----- whole programs ----- */

  lemma EncSearchLoop(sticky: bool)
    ensures EncAll(SearchLoop(sticky)) == if sticky then [] else [14] + I32(6) + U8(6) + ([13] + I32(-11))
  {
    hide I32, EncAll;
    EncNothing();
    if !sticky {
      var a, b, c := Split(false, 6), Consume(OpAny), Goto(-11);
      EncOne(a);
      EncOne(b);
      EncOne(c);
      EncSplit(false, 6);
      EncJump(-11);
      EncConcat([a] + [b], [c]);
      EncConcat([a], [b]);
      assert [a] + [b] + [c] == [a, b, c];
    }
  }

  lemma EncProgram(p: seq<byte>, g: Canon, n: Node, sticky: bool)
    ensures p + EncAll(RawProgram(g, n, sticky)) ==
            p + EncAll(SearchLoop(sticky)) + [19] + U8(0) + EncAll(Code(g, n, 1, false)) + [20] + U8(0) + U8(16)
    ensures !sticky ==> p + EncAll(SearchLoop(sticky)) == p + [14] + I32(6) + U8(6) + [13] + I32(-11)
    ensures sticky ==> p + EncAll(SearchLoop(sticky)) == p
  {
    hide EncAll, I32, Code;
    SearchLoopBytes(p, sticky);
    var loop, group := SearchLoop(sticky), Code(g, Group(n), 0, false);
    EncGroupNode(p + EncAll(loop), g, Group(n), 0, false);
    EncOne(Accept);
    assert Enc(Accept) == U8(16);
    EncConcat(loop + group, [Accept]);
    EncConcat(loop, group);
    var a, b, c := EncAll(loop), EncAll(group), U8(16);
    assert p + (a + b + c) == p + a + b + c;
  }

  lemma SearchLoopBytes(p: seq<byte>, sticky: bool)
    ensures !sticky ==> p + EncAll(SearchLoop(sticky)) == p + [14] + I32(6) + U8(6) + [13] + I32(-11)
    ensures sticky ==> p + EncAll(SearchLoop(sticky)) == p
  {
    hide EncAll, I32;
    EncSearchLoop(sticky);
    var x, y, z := I32(6), U8(6), I32(-11);
    assert p + ([14] + x + y + ([13] + z)) == p + [14] + x + y + [13] + z;
    assert p + [] == p;
  }

  lemma ProgramShort(g: Canon, n: Node, sticky: bool)
    requires WellFormed(n, 1 + Caps(n))
    ensures AllShort(RawProgram(g, n, sticky))
  {
    hide Code;
    CodeShort(g, Group(n), 0, false, 1 + Caps(n));
    ShortConcat(SearchLoop(sticky), Code(g, Group(n), 0, false));
    ShortConcat(SearchLoop(sticky) + Code(g, Group(n), 0, false), [Accept]);
  }

  /** Allocation over the whole program. */
  lemma ProgramAllocation(g: Canon, n: Node, sticky: bool)
    requires WellFormed(n, 1 + Caps(n))
    ensures Assign(RawProgram(g, n, sticky), 0) == Some(Alloc(FinalProgram(g, n, sticky), 0, Registers(g, n, 1, false)))
  {
    hide Code, Frag, Assign;
    var code, frag, e := Code(g, Group(n), 0, false), Frag(g, Group(n), 0, false, 0), Registers(g, Group(n), 0, false);
    AllocationCorrect(g, Group(n), 0, false, 0, 1 + Caps(n));
    LoopBalanced(sticky);
    BalancedConcat(SearchLoop(sticky), SearchLoop(sticky), code, frag, 0, 0, e);
    BalancedOne(Accept, 0);
    BalancedConcat(SearchLoop(sticky) + code, SearchLoop(sticky) + frag, [Accept], [Accept], 0, e, 0);
    TopRegisters(g, n);
  }

  lemma LoopBalanced(sticky: bool)
    ensures Balanced(SearchLoop(sticky), SearchLoop(sticky), 0, 0)
  {
    if sticky {
      BalancedNil(0);
    } else {
      var a, b, c := Split(false, 6), Consume(OpAny), Goto(-11);
      BalancedOne(a, 0);
      BalancedOne(b, 0);
      BalancedOne(c, 0);
      BalancedConcat([a], [a], [b], [b], 0, 0, 0);
      BalancedConcat([a] + [b], [a] + [b], [c], [c], 0, 0, 0);
      assert [a] + [b] + [c] == SearchLoop(false);
    }
  }
}
