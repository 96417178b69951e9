/** Code emission as the parser does it: one growing byte buffer into which
    instructions are appended, inserted in front of code that is already there,
    rotated and patched. Every method is proved to leave exactly the encoding of
    the code that module Compiler describes. */
module Emitter {
  import opened Syntax
  import opened Semantics
  import opened Bytecode
  import opened Compiler
  import opened Encoding
  import opened EmittedCode
  import opened EmittedBytes
  import opened RegisterAllocation
  import opened Search
  import opened ClassStrings
  import opened Terms

  class ParseState {
    const canon: Canon
    var buf: seq<byte>
    var captureCount: nat

    constructor (g: Canon)
      ensures canon == g && buf == [] && captureCount == 1
    {
      canon := g;
      buf := [];
      captureCount := 1;
    }

    /* ----- the buffer ----- */

    method PutC(v: nat)
      modifies this`buf
      ensures buf == old(buf) + U8(v)
    {
      buf := buf + [v % 256];
    }

    method PutU16(v: nat)
      modifies this`buf
      ensures buf == old(buf) + U16(v)
    {
      buf := buf + U16(v);
    }

    method PutU32(v: int)
      modifies this`buf
      ensures buf == old(buf) + I32(v)
      ensures 0 <= v < TWO32 ==> buf == old(buf) + U32(v)
    {
      hide U32;
      buf := buf + U32(v % TWO32);
    }

    /** Make room for `len` bytes at `pos`; what they hold is not defined. */
    method Insert(pos: nat, len: nat)
      requires pos <= |buf|
      modifies this`buf
      ensures |buf| == |old(buf)| + len
      ensures forall j :: 0 <= j < pos ==> buf[j] == old(buf)[j]
      ensures forall j :: pos <= j < |old(buf)| ==> buf[j + len] == old(buf)[j]
    {
      var grown := buf + seq(len, i => 0);
      buf := grown[..pos + len] + buf[pos..];
    }

    /** Insert and fill in. */
    method InsertFilled(pos: nat, bytes: seq<byte>)
      requires pos <= |buf|
      modifies this`buf
      ensures buf == old(buf)[..pos] + bytes + old(buf)[pos..]
    {
      var i := 0;
      Insert(pos, |bytes|);
      while i < |bytes|
        invariant 0 <= i <= |bytes|
        invariant |buf| == |old(buf)| + |bytes|
        invariant forall j :: 0 <= j < pos ==> buf[j] == old(buf)[j]
        invariant forall j :: 0 <= j < i ==> buf[pos + j] == bytes[j]
        invariant forall j :: pos <= j < |old(buf)| ==> buf[j + |bytes|] == old(buf)[j]
      {
        buf := buf[pos + i := bytes[i]];
        i := i + 1;
      }
    }

    method PatchU32(pos: nat, v: int)
      requires pos + 4 <= |buf|
      modifies this`buf
      ensures buf == old(buf)[..pos] + I32(v) + old(buf)[pos + 4..]
    {
      hide U32;
      buf := buf[..pos] + U32(v % TWO32) + buf[pos + 4..];
    }

    method EmitOpU32(op: byte, v: int) returns (pos: nat)
      modifies this`buf
      ensures buf == old(buf) + [op] + I32(v) && pos == |old(buf)| + 1
    {
      PutC(op);
      pos := |buf|;
      PutU32(v);
    }

    /** A jump to the absolute position `target`. */
    method EmitGoto(op: byte, target: nat)
      modifies this`buf
      ensures buf == old(buf) + [op] + I32(target - (|old(buf)| + 5))
    {
      PutC(op);
      PutU32(target - (|buf| + 4));
    }

    method EmitOpU8(op: byte, v: nat)
      modifies this`buf
      ensures buf == old(buf) + [op] + U8(v)
    {
      PutC(op);
      PutC(v);
    }

    /* ----- characters and classes ----- */

    method EmitChar(c: nat, icase: bool)
      requires c < TWO32
      modifies this`buf
      ensures buf == old(buf) + Enc(Consume(OpChar(c, icase)))
    {
      hide U16, U32, I32;
      if c <= 0xffff {
        PutC(1 + Num(icase));
        PutU16(c);
      } else {
        PutC(3 + Num(icase));
        PutU32(c);
      }
    }

    method EmitRange(points: seq<nat>, icase: bool) returns (ok: bool)
      requires ValidPoints(points)
      modifies this`buf
      ensures ok == RangesFit(points)
      ensures ok ==> buf == old(buf) + Enc(Consume(RangeOp(points, icase)))
    {
      hide EncPairs16, EncPairs32, U16, U32;
      var len := |points| / 2;
      if len >= 65535 { return false; }
      ok := true;
      if len == 0 {
        EmitChar(UINT32_MAX, false);
      } else {
        var high := points[|points| - 1];
        if high == UINT32_MAX { high := points[|points| - 2]; }
        if high <= 0xffff {
          PutC(36 + Num(icase));
          PutU16(len);
          EmitPairs16(points);
          EncRange16(old(buf), points, icase);
        } else {
          PutC(38 + Num(icase));
          PutU16(len);
          EmitPairs32(points);
          EncRange32(old(buf), points, icase);
        }
      }
    }

    method EmitPairs16(points: seq<nat>)
      requires ValidPoints(points)
      modifies this`buf
      ensures buf == old(buf) + EncPairs16(Pairs(points, 0xffff))
    {
      hide U16, ValidPoints, EncPairs16;
      ghost var ps := Pairs(points, 0xffff);
      var i := 0;
      ghost var k := 0;
      assert ps[0..] == ps;
      while i < |points|
        invariant i == 2 * k <= |points|
        invariant buf + EncPairs16(ps[k..]) == old(buf) + EncPairs16(ps)
      {
        PairAt(points, 0xffff, k);
        Pairs16Step(buf, ps, k);
        PutU16(points[i]);
        var high := points[i + 1] - 1;
        if high == UINT32_MAX - 1 { high := 0xffff; }
        PutU16(high);
        i := i + 2;
        k := k + 1;
      }
      NoPairs();
      assert ps[k..] == [];
      assert buf + EncPairs16(ps[k..]) == buf;
    }

    method EmitPairs32(points: seq<nat>)
      requires ValidPoints(points)
      modifies this`buf
      ensures buf == old(buf) + EncPairs32(Pairs(points, UINT32_MAX - 1))
    {
      hide U32, I32, ValidPoints, EncPairs32;
      ghost var ps := Pairs(points, UINT32_MAX - 1);
      var i := 0;
      ghost var k := 0;
      assert ps[0..] == ps;
      while i < |points|
        invariant i == 2 * k <= |points|
        invariant buf + EncPairs32(ps[k..]) == old(buf) + EncPairs32(ps)
      {
        PairAt(points, UINT32_MAX - 1, k);
        Pairs32Step(buf, ps, k);
        PutU32(points[i]);
        var high := points[i + 1] - 1;
        PutU32(high);
        i := i + 2;
        k := k + 1;
      }
      NoPairs();
      assert ps[k..] == [];
      assert buf + EncPairs32(ps[k..]) == buf;
    }

    method EmitTest(t: CharTest) returns (ok: bool)
      requires t.Class? ==> ValidPoints(t.points)
      modifies this`buf
      ensures ok == (t.Class? ==> RangesFit(t.points))
      ensures ok ==> buf == old(buf) + Enc(Consume(TestOp(canon, t)))
    {
      ok := true;
      match t
      case Literal(c, icase) => EmitChar(if icase then canon(c) else c, icase);
      case Dot(dotAll) => PutC(if dotAll then 6 else 5);
      case Space(negated) => PutC(7 + Num(negated));
      case Class(points, icase) => ok := EmitRange(points, icase);
    }

    /* ----- classes with strings ----- */

    method EmitChars(s: seq<CodePoint>, icase: bool)
      modifies this`buf
      ensures buf == old(buf) + EncAll(StringCode(s, icase))
    {
      hide EncAll, Enc;
      var j := 0;
      EncNothing();
      assert StringCode(s, icase)[..0] == [];
      while j < |s|
        invariant 0 <= j <= |s|
        invariant buf == old(buf) + EncAll(StringCode(s, icase)[..j])
      {
        EncSnoc(StringCode(s, icase), j);
        EmitChar(s[j], icase);
        j := j + 1;
      }
      assert StringCode(s, icase)[..j] == StringCode(s, icase);
    }

    /** A string that is not the last alternative. Its goto links to the goto before. */
    method EmitString(s: seq<CodePoint>, icase: bool, link: int) returns (last: nat)
      modifies this`buf
      ensures buf == old(buf) + Piece(EncAll(StringCode(s, icase)), link) && last + 4 == |buf|
    {
      hide I32, EncAll, StringCode;
      ghost var head, b := buf + [15], EncAll(StringCode(s, icase));
      var splitPos := EmitOpU32(15, 0);
      EmitChars(s, icase);
      last := EmitOpU32(13, link);
      ghost var rest := b + [13] + I32(link);
      assert buf == head + I32(0) + rest;
      PatchLast(splitPos, |buf| - (splitPos + 4), head, I32(0), rest);
    }

    /** Patch an operand that was left open. */
    method PatchLast(pos: nat, v: int, ghost head: seq<byte>, ghost operand: seq<byte>, ghost rest: seq<byte>)
      requires buf == head + operand + rest && |operand| == 4 && pos == |head|
      modifies this`buf
      ensures buf == head + I32(v) + rest
    {
      hide I32;
      assert buf[..pos] == head && buf[pos + 4..] == rest;
      PatchU32(pos, v);
    }

    /** The single characters of a class, and the empty string behind them. */
    method EmitListChars(sl: StringList, icase: bool, ghost cap: nat) returns (ok: bool)
      requires ValidPoints(sl.points)
      modifies this`buf
      ensures ok == RangesFit(sl.points)
      ensures ok ==> buf == old(buf) + EncAll(Code(canon, CharsNode(sl, icase), cap, false))
    {
      hide I32, EncAll, Enc, Code, CharsNode, ValidPoints;
      ok := true;
      if sl.points == [] {
        NoCharsBytes(canon, sl, icase, cap);
      } else {
        CharsBytes(canon, sl, icase, cap);
        if sl.hasEmpty {
          ghost var head := buf + [15];
          var splitPos := EmitOpU32(15, 0);
          ok := EmitRange(sl.points, icase);
          if !ok { return; }
          PatchLast(splitPos, |buf| - (splitPos + 4), head, I32(0), Enc(Consume(RangeOp(sl.points, icase))));
        } else {
          ok := EmitRange(sl.points, icase);
        }
      }
    }

    /** Follow the links from the last goto to the first and make each jump to the end. */
    method PatchChain(last: int, ghost base: seq<byte>, ghost bs: seq<seq<byte>>, ghost vals: seq<int>,
                      ghost t: seq<byte>)
      requires |vals| == |bs| && buf == base + PieceAll(bs, vals) + t && |buf| <= INT32_MAX
      requires forall k :: 0 <= k < |bs| ==> vals[k] == Link(|base|, bs, k)
      requires last == Link(|base|, bs, |bs|)
      modifies this`buf
      ensures buf == base + PieceAll(bs, Finals(bs, |t|)) + t
    {
      hide I32, Piece, PieceAll, Finals, Length;
      var pos := last;
      ghost var j, now := |bs|, vals;
      while pos != -1
        invariant 0 <= j <= |bs| && |now| == |bs| && pos == Link(|base|, bs, j)
        invariant buf == base + PieceAll(bs, now) + t && |buf| == |old(buf)|
        invariant forall k :: 0 <= k < j ==> now[k] == Link(|base|, bs, k)
        invariant forall k :: j <= k < |bs| ==> now[k] == Finals(bs, |t|)[k]
        decreases j
      {
        j := j - 1;
        ghost var e := Length(bs[..j + 1]);
        var v := |buf| - (pos + 4);
        LengthPrefix(bs, j + 1);
        LengthPrefix(bs, j);
        FinalAt(bs, |t|, j);
        PiecePatched(bs, now, j, v);
        OperandIn(buf, base, PieceAll(bs, now), t, e);
        LinkRead(buf, pos, now[j]);
        var next := GetI32(buf, pos);
        PatchU32(pos, v);
        now := now[j := v];
        pos := next;
      }
      LengthPrefix(bs, j);
      assert j == 0;
      assert now == Finals(bs, |t|);
    }

    /** The strings of a class. Each but the last alternative ends with a goto that
        links to the goto before; `last` is the position of the last operand. */
    method EmitStrings(sl: StringList, icase: bool) returns (last: int, ghost vals: seq<int>)
      modifies this`buf
      ensures |vals| == Chained(sl)
      ensures var base, all, k := |old(buf)|, StringBytes(sl.strings, icase), Chained(sl);
              && last == Link(base, all[..k], k)
              && (forall j :: 0 <= j < k ==> vals[j] == Link(base, all[..k], j))
              && buf == old(buf) + PieceAll(all[..k], vals) + if k < |sl.strings| then all[k] else []
    {
      hide *;
      ghost var base, all, k := buf, StringBytes(sl.strings, icase), Chained(sl);
      ChainedSize(sl);
      last, vals := -1, [];
      NoPieces(|base|, all);
      assert buf == base + PieceAll([], vals);
      var i := 0;
      while i < |sl.strings|
        invariant 0 <= i <= |sl.strings| && |vals| == if i < k then i else k
        invariant buf == base + PieceAll(all[..|vals|], vals) + if i > k then all[k] else []
        invariant forall j :: 0 <= j < |vals| ==> vals[j] == Link(|base|, all[..k], j)
        invariant last == Link(|base|, all[..k], |vals|)
      {
        var isLast := !sl.hasEmpty && sl.points == [] && i == |sl.strings| - 1;
        if !isLast {
          NextPiece(base, all, k, i, vals, last);
          vals := vals + [last];
          last := EmitString(sl.strings[i], icase, last);
        } else {
          EmitChars(sl.strings[i], icase);
        }
        i := i + 1;
      }
    }

    /** re_emit_string_list. It fails on too many ranges, or if the buffer outgrows the
        operands that hold the links, which is far beyond the memory limit. */
    method EmitStringList(sl: StringList, icase: bool, ghost cap: nat) returns (ok: bool)
      requires ValidPoints(sl.points) && Canonical(canon, sl.strings, icase)
      modifies this`buf
      ensures ok == (RangesFit(sl.points) && LinksFit(canon, ClassOf(sl, icase), cap, false, |old(buf)|))
      ensures ok ==> buf == old(buf) + EncAll(Code(canon, ListNode(sl, icase), cap, false))
    {
      hide *;
      if |sl.strings| == 0 && !sl.hasEmpty {
        EncOneNode(canon, One(Class(sl.points, icase)), cap, false);
        OnlyChars(sl, icase);
        OnlyCharsOp(canon, sl.points, icase);
        LinksOfList(canon, sl, icase, cap, |buf|);
        ok := EmitRange(sl.points, icase);
        return;
      }
      ghost var base, all, k := buf, StringBytes(sl.strings, icase), Chained(sl);
      ghost var t := EndBytes(canon, sl, icase, cap);
      ListBytes(canon, sl, icase, cap);
      EndOfList(canon, sl, icase, cap);
      var lastMatchPos: int;
      ghost var vals: seq<int>;
      lastMatchPos, vals := EmitStrings(sl, icase);
      ok := EmitListChars(sl, icase, cap);
      if !ok { return; }
      LinksOfList(canon, sl, icase, cap, |base|);
      if |buf| > INT32_MAX { return false; }
      Pieces(base, PieceAll(all[..k], vals), t);
      PatchChain(lastMatchPos, base, all[..k], vals, t);
      Pieces(base, PieceAll(all[..k], Finals(all[..k], |t|)), t);
    }

    /* ----- quantifiers ----- */

    /** Scan the atom that was emitted last. */
    method ScanAtom(start: nat, ghost atom: seq<Instr>) returns (needCheckAdv: bool, needCaptureInit: bool)
      requires start <= |buf| && buf[start..] == EncAll(atom) && AllShort(atom)
      ensures needCheckAdv == NeedsAdvanceCheck(atom) && needCaptureInit == NeedsCaptureInit(atom)
    {
      hide Enc, RawSize, FixedSize, Short, EncAll;
      needCheckAdv, needCaptureInit := true, false;
      var pos, stop := start, false;
      ghost var rest := atom;
      while pos < |buf| && !stop
        invariant start <= pos <= |buf|
        invariant !stop ==> buf[pos..] == EncAll(rest) && AllShort(rest)
        invariant Join(Scan(!needCheckAdv, needCaptureInit, stop), ScanCode(rest)) == ScanCode(atom)
        decreases |buf| - pos, !stop
      {
        FirstInstr(buf, pos, rest);
        var op, len := buf[pos], RawSize(buf, pos);
        OpcodeScanAgrees(rest[0]);
        if 1 <= op <= 8 || 36 <= op <= 39 {
          needCheckAdv := false;
        } else if 9 <= op <= 12 || 27 <= op <= 31 || op == 42 || op == 44 || 19 <= op <= 21 {
          // no effect
        } else if 32 <= op <= 35 {
          needCaptureInit := true;
        } else {
          needCaptureInit := true;
          stop := true;
        }
        pos := pos + len;
        rest := rest[1..];
      }
      if !stop { NothingLeft(rest); }
    }

    /** `*` and `?`: the split goes in front of code that is already emitted. */
    method EmitStar(last: nat, chk: bool, again: bool, greedy: bool, ghost body: seq<Instr>)
      requires last <= |buf| && buf[last..] == EncAll(body)
      modifies this`buf
      ensures buf == old(buf)[..last] + EncAll(WrapStar(chk, body, again, greedy, 0))
    {
      hide EncAll, I32, WrapStar, NoteBytes, CheckBytes, GotoBytes;
      EncStar(chk, body, again, greedy);
      PartSizes(chk);
      var len := |buf| - last;
      var head := [14 + Num(greedy)] + I32(len + 5 * Num(again) + 2 * 2 * Num(chk)) + NoteBytes(chk);
      ghost var p, b, goto := buf[..last], EncAll(body), -(5 + 2 * Num(chk) + len + 2 * Num(chk) + 5);
      InsertFilled(last, head);
      EmitCheck(chk);
      assert last - (|buf| + 5) == goto;
      EmitBack(again, last);
      Regroup(p, head, b, CheckBytes(chk), GotoBytes(again, goto));
    }

    method EmitCheck(chk: bool)
      modifies this`buf
      ensures buf == old(buf) + CheckBytes(chk)
    {
      if chk { EmitOpU8(43, 0); }
    }

    method EmitBack(again: bool, target: nat)
      modifies this`buf
      ensures buf == old(buf) + GotoBytes(again, target - (|old(buf)| + 5))
    {
      hide I32;
      if again { EmitGoto(13, target); }
    }

    /** The counter initialisation in front of a loop body and the loop instruction
        behind it; `split` says that a split that may skip them comes first. */
    method EmitCount(last: nat, chk: bool, count: nat, limit: nat, exact: bool, greedy: bool, split: bool,
                     ghost body: seq<Instr>)
      requires last <= |buf| && buf[last..] == EncAll(body)
      requires count < TWO32 && limit < TWO32 && (split ==> !exact)
      modifies this`buf
      ensures buf == old(buf)[..last]
                     + (if split then Enc(Split(greedy, 6 + 2 * Num(chk) + Size(body) + 10)) else [])
                     + EncAll(WrapCount(chk, body, count, limit, exact, greedy, 0, 0))
    {
      hide EncAll, I32, U32, WrapCount, Enc, NoteBytes, CounterBytes, TailBytes, Size;
      EncCount(chk, body, count, limit, exact, greedy);
      PartSizes(chk);
      CounterSize(count);
      var len := |buf| - last;
      var skip: seq<byte> := [];
      if split {
        skip := [14 + Num(greedy)] + I32(6 + 2 * Num(chk) + len + 10);
        EncSplit(greedy, 6 + 2 * Num(chk) + len + 10);
      }
      ghost var p, b := buf[..last], EncAll(body);
      InsertFilled(last, skip + (CounterBytes(count) + NoteBytes(chk)));
      EmitTail(chk, len, limit, exact, greedy, last + |skip| + 6);
      Regroup(p, skip, CounterBytes(count) + NoteBytes(chk), b, TailBytes(chk, len, limit, exact, greedy));
    }

    /** The loop instruction, jumping back to `target`. */
    method EmitTail(chk: bool, len: nat, limit: nat, exact: bool, greedy: bool, target: nat)
      requires limit < TWO32 && |buf| == target + 2 * Num(chk) + len
      modifies this`buf
      ensures buf == old(buf) + TailBytes(chk, len, limit, exact, greedy)
    {
      hide I32, U32;
      if exact {
        EmitOpU8(22, 0);
      } else {
        EmitOpU8(23 + 2 * Num(chk) + Num(!greedy), 0);
        PutU32(limit);
      }
      PutU32(target - (|buf| + 4));
    }

    /** `+` over an atom that always advances: one split behind it. */
    method EmitPlus(last: nat, greedy: bool, ghost body: seq<Instr>)
      requires last <= |buf| && buf[last..] == EncAll(body)
      modifies this`buf
      ensures buf == old(buf)[..last] + EncAll(body + [Split(!greedy, -(Size(body) + 5))])
    {
      hide EncAll, I32;
      EncConcat(body, [Split(!greedy, -(Size(body) + 5))]);
      EncOne(Split(!greedy, -(Size(body) + 5)));
      EmitGoto(14 + Num(!greedy), last);
    }

    method EmitMain(last: nat, chk: bool, min: nat, max: nat, greedy: bool, ghost body: seq<Instr>)
      requires last <= |buf| && buf[last..] == EncAll(body) && min <= max <= INT32_MAX
      modifies this`buf
      ensures buf == old(buf)[..last] + EncAll(WrapMain(chk, body, min, max, greedy, 0, 0))
    {
      hide EncAll, I32, WrapStar, WrapCount, Enc;
      if min == 0 {
        if max == 0 {
          EncNothing();
          buf := buf[..last];
        } else if max == 1 || max == INT32_MAX {
          EmitStar(last, chk, max == INT32_MAX, greedy, body);
        } else {
          ghost var split := Split(greedy, 6 + 2 * Num(chk) + Size(body) + 10);
          EncOne(split);
          EncConcat([split], WrapCount(chk, body, max, max, false, greedy, 0, 0));
          EmitCount(last, chk, max, max, false, greedy, true, body);
        }
      } else if min == 1 && max == INT32_MAX && !chk {
        EmitPlus(last, greedy, body);
      } else {
        EmitCount(last, chk && min != max, max, max - min, min == max, greedy, false, body);
      }
    }

    /** The quantifier part of re_parse_term: the atom is the code from `last` on. */
    method EmitQuantifier(last: nat, lastCaptureCount: nat, min: nat, max: nat, greedy: bool, ghost atom: seq<Instr>)
      requires last <= |buf| && buf[last..] == EncAll(atom) && AllShort(atom)
      requires min <= max <= INT32_MAX && lastCaptureCount <= captureCount
      modifies this`buf
      ensures buf == old(buf)[..last]
                + EncAll(Wrap(NeedsAdvanceCheck(atom), NeedsCaptureInit(atom), atom, lastCaptureCount, captureCount,
                              min, max, greedy, 0, 0))
    {
      hide *;
      var chk, init := ScanAtom(last, atom);
      var captures := lastCaptureCount != captureCount;
      ghost var p, body := buf[..last], WrapBody(init, atom, lastCaptureCount, captureCount);
      ghost var pre := WrapPre(init, lastCaptureCount, captureCount, min);
      EncResets(init, atom, lastCaptureCount, captureCount, min);
      var _ := EmitReset(last, init && captures, lastCaptureCount);
      Pieces(p, ResetBytes(init && captures, lastCaptureCount, captureCount), EncAll(atom));
      Around(p, EncAll(body));
      var start := EmitReset(last, min == 0 && !init && captures, lastCaptureCount);
      Around(p + EncAll(pre), EncAll(body));
      EmitMain(start, chk, min, max, greedy, body);
      EncWrap(chk, init, atom, lastCaptureCount, captureCount, min, max, greedy);
      Pieces(p, EncAll(pre), EncAll(WrapMain(chk, body, min, max, greedy, 0, 0)));
    }

    /** A capture reset in front of code that is already emitted; `next` is behind it. */
    method EmitReset(pos: nat, when: bool, lo: nat) returns (next: nat)
      requires pos <= |buf| && lo <= captureCount && (when ==> lo != captureCount)
      modifies this`buf
      ensures buf == old(buf)[..pos] + ResetBytes(when, lo, captureCount) + old(buf)[pos..]
      ensures next == pos + |ResetBytes(when, lo, captureCount)|
    {
      next := pos;
      if when {
        InsertFilled(pos, [21] + U8(lo) + U8(captureCount - 1));
        next := pos + 3;
      }
    }

    /* ----- terms, alternatives, disjunctions ----- */

    /** Move the term that was emitted last in front of the alternative that starts
        at `start`. */
    method RotateTerm(start: nat, termStart: nat)
      requires start <= termStart <= |buf|
      modifies this`buf
      ensures buf == old(buf)[..start] + old(buf)[termStart..] + old(buf)[start..termStart]
    {
      var end, size := |buf|, |buf| - termStart;
      var grown := buf + seq(size, i => 0);
      // memmove of everything from `start` by `size`, then memcpy of the term, which
      // now lies past the end
      grown := grown[..start + size] + buf[start..end];
      assert grown[end..end + size] == buf[termStart..];
      grown := grown[..start] + grown[end..end + size] + grown[start + size..];
      buf := grown[..end];
    }

    /** Emit the code of a term; fails on more than 254 groups besides group 0. */
    method EmitTerm(t: Term, back: bool, ghost total: nat) returns (ok: bool)
      requires Parsed(Meaning(t), total) && TermOk(canon, t, back) && captureCount <= CAPTURE_COUNT_MAX
      modifies this`buf, this`captureCount
      ensures ok == Fits(canon, t, back, old(captureCount), |old(buf)|)
      ensures ok ==> captureCount == old(captureCount) + Caps(Meaning(t)) <= CAPTURE_COUNT_MAX
      ensures ok ==> buf == old(buf) + EncAll(Code(canon, Meaning(t), old(captureCount), back))
      decreases t, 1
    {
      match t
      case Plain(n) => ok := EmitLeaf(n, back, total);
      case ClassOf(list, icase) => ListFits(list, icase); ok := EmitStringList(list, icase, captureCount);
      case Sequence(_, _) => ok := EmitSequence(t, back, total);
      case Either(_, _) => ok := EmitEither(t, back, total);
      case Capture(_) => ok := EmitCapture(t, back, total);
      case Lookaround(_, _, _) => ok := EmitLookaround(t, back, total);
      case Quantified(_, _, _, _) => ok := EmitQuantified(t, back, total);
    }

    method EmitLeaf(n: Node, back: bool, ghost total: nat) returns (ok: bool)
      requires Parsed(n, total) && (n.Empty? || n.One? || n.Assert? || n.BackRef?)
      modifies this`buf
      ensures ok == ClassesFit(n)
      ensures ok ==> buf == old(buf) + EncAll(Code(canon, n, captureCount, back))
    {
      match n
      case Empty => ok := true;
      case One(_) => ok := EmitOne(n, back, total);
      case Assert(_) => EmitAssertion(n, back); ok := true;
      case BackRef(_, _) => EmitBackRef(n, back); ok := true;
    }

    method EmitOne(n: Node, back: bool, ghost total: nat) returns (ok: bool)
      requires n.One? && Parsed(n, total)
      modifies this`buf
      ensures ok == ClassesFit(n)
      ensures ok ==> buf == old(buf) + EncAll(Code(canon, n, captureCount, back))
    {
      hide Enc, EncAll, TestOp, Code;
      EncOneNode(canon, n, captureCount, back);
      if back { PutC(44); }
      ok := EmitTest(n.test);
      if !ok { return; }
      if back { PutC(44); }
    }

    method EmitAssertion(n: Node, back: bool)
      requires n.Assert?
      modifies this`buf
      ensures buf == old(buf) + EncAll(Code(canon, n, captureCount, back))
    {
      EncOne(Test(n.assertion));
      PutC(match n.assertion
           case LineStart(m) => if m then 10 else 9
           case LineEnd(m) => if m then 12 else 11
           case WordBoundary(neg, icase) => if neg then (if icase then 31 else 30) else (if icase then 29 else 28));
    }

    method EmitBackRef(n: Node, back: bool)
      requires n.BackRef?
      modifies this`buf
      ensures buf == old(buf) + EncAll(Code(canon, n, captureCount, back))
    {
      hide EncAll, Enc, Code;
      EncBackRefNode(buf, canon, n, captureCount, back);
      EmitOpU8(32 + 2 * Num(back) + Num(n.icase), |n.groups|);
      EmitGroups(n.groups);
    }

    method EmitGroups(groups: seq<nat>)
      modifies this`buf
      ensures buf == old(buf) + EncGroups(groups)
    {
      var j := 0;
      while j < |groups|
        invariant 0 <= j <= |groups|
        invariant buf == old(buf) + EncGroups(groups)[..j]
      {
        PutC(groups[j]);
        assert EncGroups(groups)[..j] + U8(groups[j]) == EncGroups(groups)[..j + 1];
        j := j + 1;
      }
      assert EncGroups(groups)[..j] == EncGroups(groups);
    }

    method EmitSequence(t: Term, back: bool, ghost total: nat) returns (ok: bool)
      requires t.Sequence? && Parsed(Meaning(t), total) && TermOk(canon, t, back) && captureCount <= CAPTURE_COUNT_MAX
      modifies this`buf, this`captureCount
      ensures ok == Fits(canon, t, back, old(captureCount), |old(buf)|)
      ensures ok ==> captureCount == old(captureCount) + Caps(Meaning(t)) <= CAPTURE_COUNT_MAX
      ensures ok ==> buf == old(buf) + EncAll(Code(canon, Meaning(t), old(captureCount), back))
      decreases t, 0
    {
      hide EncAll, Code;
      ghost var n := Meaning(t);
      ghost var p, l, r := buf, EncAll(Code(canon, n.left, captureCount, back)),
        EncAll(Code(canon, n.right, captureCount + Caps(n.left), back));
      EncCatNode(canon, n, captureCount, back);
      var start := |buf|;
      ok := EmitTerm(t.left, back, total);
      if !ok { return; }
      var termStart := |buf|;
      ok := EmitTerm(t.right, back, total);
      if !ok { return; }
      if back { SwapLast(start, termStart, p, l, r); } else { Pieces(p, l, r); }
    }

    method SwapLast(start: nat, termStart: nat, ghost p: seq<byte>, ghost l: seq<byte>, ghost r: seq<byte>)
      requires buf == p + l + r && start == |p| && termStart == |p| + |l|
      modifies this`buf
      ensures buf == p + (r + l)
    {
      Pieces(p, l, r);
      RotateTerm(start, termStart);
    }

    method EmitEither(t: Term, back: bool, ghost total: nat) returns (ok: bool)
      requires t.Either? && Parsed(Meaning(t), total) && TermOk(canon, t, back) && captureCount <= CAPTURE_COUNT_MAX
      modifies this`buf, this`captureCount
      ensures ok == Fits(canon, t, back, old(captureCount), |old(buf)|)
      ensures ok ==> captureCount == old(captureCount) + Caps(Meaning(t)) <= CAPTURE_COUNT_MAX
      ensures ok ==> buf == old(buf) + EncAll(Code(canon, Meaning(t), old(captureCount), back))
      decreases t, 0
    {
      hide *;
      ghost var n := Meaning(t);
      EitherMeans(t);
      TermParts(canon, t, back);
      PairParts(n, total);
      FitsInside(canon, t, back, captureCount, |buf|);
      ghost var p, cap := buf, captureCount;
      ghost var a, b := Code(canon, n.left, cap, back), Code(canon, n.right, cap + Caps(n.left), back);
      EncAltNode(p, canon, n, cap, back);
      var start := |buf|;
      ok := EmitTerm(t.left, back, total);
      if !ok { return; }
      // insert a split before the first alternative
      InsertSplit(start, |buf| - start, p, EncAll(a));
      ghost var head := buf + [13];
      var pos := EmitOpU32(13, 0);
      ok := EmitTerm(t.right, back, total);
      if !ok { return; }
      // patch the goto
      PatchLast(pos, |buf| - (pos + 4), head, I32(0), EncAll(b));
    }

    method InsertSplit(start: nat, len: nat, ghost p: seq<byte>, ghost a: seq<byte>)
      requires buf == p + a && start == |p| && len == |a|
      modifies this`buf
      ensures buf == p + ([15] + I32(len + 5)) + a
    {
      hide I32;
      InsertFilled(start, [15] + I32(len + 5));
    }

    method EmitCapture(t: Term, back: bool, ghost total: nat) returns (ok: bool)
      requires t.Capture? && Parsed(Meaning(t), total) && TermOk(canon, t, back) && captureCount <= CAPTURE_COUNT_MAX
      modifies this`buf, this`captureCount
      ensures ok == Fits(canon, t, back, old(captureCount), |old(buf)|)
      ensures ok ==> captureCount == old(captureCount) + Caps(Meaning(t)) <= CAPTURE_COUNT_MAX
      ensures ok ==> buf == old(buf) + EncAll(Code(canon, Meaning(t), old(captureCount), back))
      decreases t, 0
    {
      hide EncAll, Code;
      ghost var n := Meaning(t);
      if captureCount >= CAPTURE_COUNT_MAX { return false; }
      EncGroupNode(buf, canon, n, captureCount, back);
      var captureIndex := captureCount;
      captureCount := captureCount + 1;
      EmitOpU8(19 + Num(back), captureIndex);
      ok := EmitTerm(t.body, back, total);
      if !ok { return; }
      EmitOpU8(20 - Num(back), captureIndex);
    }

    method EmitLookaround(t: Term, back: bool, ghost total: nat) returns (ok: bool)
      requires t.Lookaround? && Parsed(Meaning(t), total) && TermOk(canon, t, back) && captureCount <= CAPTURE_COUNT_MAX
      modifies this`buf, this`captureCount
      ensures ok == Fits(canon, t, back, old(captureCount), |old(buf)|)
      ensures ok ==> captureCount == old(captureCount) + Caps(Meaning(t)) <= CAPTURE_COUNT_MAX
      ensures ok ==> buf == old(buf) + EncAll(Code(canon, Meaning(t), old(captureCount), back))
      decreases t, 0
    {
      hide EncAll, I32, Code, Caps, Parsed, ClassesFit, LinksFit, Fits;
      FitsInside(canon, t, back, captureCount, |buf|);
      ghost var n := Meaning(t);
      ghost var a, end := EncAll(Code(canon, n.body, captureCount, n.behind)), U8(17 + Num(t.negative));
      BodyParts(n, total);
      EncLookNode(buf, canon, n, captureCount, back);
      ghost var head := buf + [40 + Num(t.negative)];
      var pos := EmitOpU32(40 + Num(t.negative), 0);
      ok := EmitTerm(t.body, t.behind, total);
      if !ok { return; }
      PutC(17 + Num(t.negative));
      // jump after the match once the lookahead has succeeded
      Shift(head + I32(0), a, end);
      PatchLast(pos, |buf| - (pos + 4), head, I32(0), a + end);
    }

    method EmitQuantified(t: Term, back: bool, ghost total: nat) returns (ok: bool)
      requires t.Quantified? && Parsed(Meaning(t), total) && TermOk(canon, t, back) && captureCount <= CAPTURE_COUNT_MAX
      modifies this`buf, this`captureCount
      ensures ok == Fits(canon, t, back, old(captureCount), |old(buf)|)
      ensures ok ==> captureCount == old(captureCount) + Caps(Meaning(t)) <= CAPTURE_COUNT_MAX
      ensures ok ==> buf == old(buf) + EncAll(Code(canon, Meaning(t), old(captureCount), back))
      decreases t, 0
    {
      hide EncAll, Wrap, NeedsAdvanceCheck, NeedsCaptureInit, AllShort;
      ghost var n := Meaning(t);
      ghost var p, a := buf, Code(canon, n.body, captureCount, back);
      var lastAtomStart, lastCaptureCount := |buf|, captureCount;
      ok := EmitTerm(t.body, back, total);
      if !ok { return; }
      CodeShort(canon, n.body, lastCaptureCount, back, total);
      assert buf[lastAtomStart..] == EncAll(a) && buf[..lastAtomStart] == p;
      EmitQuantifier(lastAtomStart, lastCaptureCount, t.min, QuantMax(t.max), t.greedy, a);
    }

    /* ----- registers ----- */

    /** Rewrite the register operand of the instruction at `pos`, if it has one, with
        `d` registers in use; returns how many are in use after it. */
    method PatchRegister(pos: nat, d: nat, ghost front: seq<byte>, ghost i: Instr, ghost rest: seq<Instr>)
      returns (d': nat)
      requires pos < |buf| && buf[..pos] == front && buf[pos..] == Enc(i) + EncAll(rest) && buf[pos] == Opcode(i)
      requires d <= REGISTER_COUNT_MAX && AssignInstr(i, d).Some?
      modifies this`buf
      ensures var r, next := AssignInstr(i, d).value, pos + InstrSize(i);
              && d' == r.1 && |buf| == |old(buf)| && next <= |buf|
              && |Enc(r.0)| == InstrSize(i)
              && buf[..next] == front + Enc(r.0) && buf[next..] == EncAll(rest)
    {
      hide Enc, EncAll, AssignInstr, Opcode;
      var op := buf[pos];
      ghost var i' := AssignInstr(i, d).value.0;
      OpcodeRegisters(i, d);
      Kept(buf, pos, front, i, rest);
      d' := d;
      if op == 27 || op == 42 {
        Patched(buf, pos, front, i, i', rest, d);
        buf := buf[pos + 1 := d];
        d' := d + 1;
      } else if op == 43 || 22 <= op <= 24 {
        assert d > 0;
        d' := d - 1;
        Patched(buf, pos, front, i, i', rest, d');
        buf := buf[pos + 1 := d'];
      } else if 25 <= op <= 26 {
        assert d >= 2;
        d' := d - 2;
        Patched(buf, pos, front, i, i', rest, d');
        buf := buf[pos + 1 := d'];
      }
    }

    /** Assign registers to the code from `start` on, as a stack, in one linear pass
        over the buffer. Returns -1 if more than 255 would be needed. */
    method ComputeRegisterCount(start: nat, ghost code: seq<Instr>) returns (count: int)
      requires start <= |buf| && buf[start..] == EncAll(code) && AllShort(code)
      requires Assign(code, 0).Some?
      modifies this`buf
      ensures count == if Assign(code, 0).value.peak <= REGISTER_COUNT_MAX then Assign(code, 0).value.peak else -1
      ensures count >= 0 ==> buf == old(buf)[..start] + EncAll(Assign(code, 0).value.code)
    {
      hide EncAll, Enc, AssignInstr, RawSize, FixedSize, Short, Assign;
      var stackSize: nat, stackMax: nat, pos := 0, 0, start;
      ghost var done: seq<byte>, rest, todo := [], code, Assign(code, 0);
      ghost var p := buf[..start];
      while pos < |buf|
        invariant start <= pos <= |buf|
        invariant buf[..pos] == p + done && buf[pos..] == EncAll(rest) && AllShort(rest)
        invariant todo == Assign(rest, stackSize) && todo.Some?
        invariant done + EncAll(todo.value.code) == EncAll(Assign(code, 0).value.code)
        invariant Max(stackMax, todo.value.peak) == Assign(code, 0).value.peak
        invariant stackSize <= stackMax <= REGISTER_COUNT_MAX
        decreases |buf| - pos
      {
        FirstInstr(buf, pos, rest);
        AssignFirst(rest, stackSize);
        var len := RawSize(buf, pos);
        ghost var i' := AssignInstr(rest[0], stackSize).value.0;
        stackSize := PatchRegister(pos, stackSize, p + done, rest[0], rest[1..]);
        if stackSize > stackMax {
          if stackSize > REGISTER_COUNT_MAX {
            PeakAbove(rest[1..], stackSize);
            return -1;
          }
          stackMax := stackSize;
        }
        Shift(done, Enc(i'), EncAll(Assign(rest[1..], stackSize).value.code));
        PeakAtLeast(rest[1..], stackSize);
        done := done + Enc(i');
        pos := pos + len;
        rest := rest[1..];
        todo := Assign(rest, stackSize);
      }
      NothingAssigned(rest, stackSize);
      count := stackMax;
    }

    /* ----- the whole expression ----- */

    /** The search loop, group 0 around the pattern, and the final match. */
    method EmitProgram(t: Term, sticky: bool) returns (ok: bool)
      requires Parsed(Meaning(t), 1 + Caps(Meaning(t))) && TermOk(canon, t, false) && captureCount == 1
      modifies this`buf, this`captureCount
      ensures ok == Fits(canon, t, false, 1, |old(buf)| + PatternStart(sticky) + 2)
      ensures ok ==> captureCount == 1 + Caps(Meaning(t))
      ensures ok ==> buf == old(buf) + EncAll(RawProgram(canon, Meaning(t), sticky))
    {
      hide EncAll, Code, I32;
      ghost var n := Meaning(t);
      ghost var p := buf;
      EncProgram(p, canon, n, sticky);
      if !sticky {
        var _ := EmitOpU32(14, 1 + 5);
        PutC(6);
        var _ := EmitOpU32(13, -(5 + 1 + 5));
      }
      EmitOpU8(19, 0);
      ok := EmitTerm(t, false, 1 + Caps(n));
      if !ok { return; }
      EmitOpU8(20, 0);
      PutC(16);
    }
  }

  const HEADER_LEN: nat := 8

  const LRE_FLAG_UNICODE: nat := 0x10
  const LRE_FLAG_STICKY: nat := 0x20
  const LRE_FLAG_UNICODE_SETS: nat := 0x100

  function HasFlag(flags: nat, bit: nat): bool
    requires bit > 0
  {
    flags / bit % 2 == 1
  }

  /** A buffer that lre_compile returns for `n`. */
  ghost predicate Compiled(bc: seq<byte>, g: Canon, n: Node) {
    && |bc| >= HEADER_LEN
    && WellFormed(n, 1 + Caps(n)) && 1 + Caps(n) <= CAPTURE_COUNT_MAX
    && Registers(g, n, 1, false) <= REGISTER_COUNT_MAX
    && bc[2] == 1 + Caps(n)
    && bc[3] == Registers(g, n, 1, false)
    && bc[4..8] == U32(|bc| - HEADER_LEN)
    && Size(FinalProgram(g, n, HasFlag(GetU16(bc, 0), LRE_FLAG_STICKY))) <= BYTECODE_MAX
    && bc[HEADER_LEN..] == EncAll(FinalProgram(g, n, HasFlag(GetU16(bc, 0), LRE_FLAG_STICKY)))
  }

  /** None of the limits of the compiler is exceeded. */
  ghost predicate Accepted(g: Canon, n: Node, sticky: bool) {
    && 1 + Caps(n) <= CAPTURE_COUNT_MAX
    && ClassesFit(n)
    && Registers(g, n, 1, false) <= REGISTER_COUNT_MAX
    && HEADER_LEN + Size(FinalProgram(g, n, sticky)) <= BYTECODE_MAX
  }

  /** The same for a term; the links of its chains must fit as well. */
  ghost predicate TermAccepted(g: Canon, t: Term, sticky: bool) {
    Accepted(g, Meaning(t), sticky) && LinksFit(g, t, 1, false, HEADER_LEN + PatternStart(sticky) + 2)
  }

  /** lre_compile: the header, the code, registers, and the sizes patched into the
      header. None is one of the errors "too many captures", "too many ranges", "too
      many imbricated quantifiers" and out of memory. */
  method Compile(g: Canon, t: Term, flags: nat) returns (r: Option<seq<byte>>)
    requires Parsed(Meaning(t), 1 + Caps(Meaning(t))) && TermOk(g, t, false) && flags < 0x10000
    ensures r.Some? <==> TermAccepted(g, t, HasFlag(flags, LRE_FLAG_STICKY))
    ensures r.Some? ==> Compiled(r.value, g, Meaning(t)) && GetU16(r.value, 0) == flags
  {
    hide EncAll, U16, U32, Code, Frag, FinalProgram, RawProgram, Assign, Registers, Size, HasFlag, GetU16, WellFormed,
      Compiled, AllShort, LinksFit, TermOk, Parsed, Caps, ClassesFit;
    ghost var n := Meaning(t);
    var sticky := HasFlag(flags, LRE_FLAG_STICKY);
    ghost var code := RawProgram(g, n, sticky);
    if ClassesFit(n) {
      BothParts(n);
      FinalSize(g, n, sticky);
    }
    var s := new ParseState(g);
    s.PutU16(flags);
    s.PutC(0);
    s.PutC(0);
    s.PutU32(0);
    ghost var header := s.buf;
    var ok := s.EmitProgram(t, sticky);
    if !ok { return None; }
    if |s.buf| > BYTECODE_MAX { return None; }
    ProgramShort(g, n, sticky);
    ProgramAllocation(g, n, sticky);
    Around(header, EncAll(code));
    var registerCount := s.ComputeRegisterCount(HEADER_LEN, code);
    if registerCount < 0 { return None; }
    Around(header, EncAll(FinalProgram(g, n, sticky)));
    var out := s.buf;
    out := out[2 := s.captureCount][3 := registerCount];
    out := out[..4] + U32(|out| - HEADER_LEN) + out[HEADER_LEN..];
    HeaderPatched(s.buf, out, s.captureCount, registerCount, flags);
    CompiledAll(out, g, n, flags);
    r := Some(out);
  }

  lemma BothParts(n: Node)
    requires Parsed(n, 1 + Caps(n)) && ClassesFit(n)
    ensures WellFormed(n, 1 + Caps(n))
  {
  }

  lemma HeaderPatched(buf: seq<byte>, out: seq<byte>, captures: byte, registers: byte, flags: nat)
    requires |buf| >= HEADER_LEN && buf[..2] == U16(flags) && flags < 0x10000
    requires var o := buf[2 := captures][3 := registers]; out == o[..4] + U32(|o| - HEADER_LEN) + o[HEADER_LEN..]
    ensures |out| == |buf| && out[2] == captures && out[3] == registers && out[4..8] == U32(|out| - HEADER_LEN)
    ensures out[HEADER_LEN..] == buf[HEADER_LEN..] && GetU16(out, 0) == flags
  {
    hide U16, U32, GetU16;
    assert out[..2] == buf[..2];
    FlagsRead(out, flags);
  }

  lemma CompiledAll(bc: seq<byte>, g: Canon, n: Node, flags: nat)
    requires |bc| >= HEADER_LEN && WellFormed(n, 1 + Caps(n)) && 1 + Caps(n) <= CAPTURE_COUNT_MAX
    requires Registers(g, n, 1, false) <= REGISTER_COUNT_MAX
    requires bc[2] == 1 + Caps(n) && bc[3] == Registers(g, n, 1, false) && bc[4..8] == U32(|bc| - HEADER_LEN)
    requires GetU16(bc, 0) == flags
    requires var p := FinalProgram(g, n, HasFlag(flags, LRE_FLAG_STICKY));
              Size(p) <= BYTECODE_MAX && bc[HEADER_LEN..] == EncAll(p)
    ensures Compiled(bc, g, n)
  {
    hide U32, GetU16, Registers, FinalProgram, WellFormed, Caps, Size, EncAll;
  }

  lemma FlagsRead(bc: seq<byte>, flags: nat)
    requires |bc| >= 2 && bc[..2] == U16(flags) && flags < 0x10000
    ensures GetU16(bc, 0) == flags
  {
    assert bc[0] == bc[..2][0] && bc[1] == bc[..2][1];
  }

  /** Register allocation does not change any size. */
  lemma FinalSize(g: Canon, n: Node, sticky: bool)
    requires WellFormed(n, 1 + Caps(n))
    ensures Size(FinalProgram(g, n, sticky)) == Size(RawProgram(g, n, sticky))
  {
    hide Code, Frag, Assign, RawProgram, FinalProgram;
    ProgramAllocation(g, n, sticky);
    AssignKeepsSize(RawProgram(g, n, sticky), 0);
  }
}
