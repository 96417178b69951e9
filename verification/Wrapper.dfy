/** The bridge between CESU-8 strings and the matcher: patterns are recombined into
    UTF-8, subjects are transcoded to 16-bit units unless they are all ASCII, and the
    offsets that come back are mapped to bytes. */
module Wrapper {
  import opened Syntax
  import opened Semantics
  import opened Machine
  import opened Search
  import opened Counters
  import opened Encoding
  import opened Emitter
  import opened Utf16
  import opened Utf8
  import opened EndToEnd
  import opened Compiler
  import opened CaptureBuffer

  /** CESU-8: each 16-bit unit as a standalone UTF-8 sequence (UTR #26). */
  function Cesu(u: seq<CodePoint>): seq<byte> { EncodeAll(u) }

  /** decode_utf8_unit on the bytes that are left; nothing is validated. */
  function DecodeUnit(s: seq<byte>): (r: (nat, nat))
    requires s != []
    ensures r.0 < 0x10000 && 0 < r.1 <= |s|
    ensures 0xd800 <= r.0 ==> r.1 == 3
  {
    var c: nat := s[0];
    if c < 0x80 then (c, 1)
    else if c / 0x20 == 6 && |s| > 1 then
      var c1: nat := s[1];
      (c % 0x20 * 0x40 + c1 % 0x40, 2)
    else if c / 0x10 == 14 && |s| > 2 then
      var c1: nat, c2: nat := s[1], s[2];
      (c % 0x10 * 0x1000 + c1 % 0x40 * 0x40 + c2 % 0x40, 3)
    else (c, 1)
  }

  lemma DecodeUnitEncoded(c: CodePoint, rest: seq<byte>)
    requires c <= 0xffff
    ensures DecodeUnit(Encode(c) + rest) == (c, EncodeLen(c))
  {
    hide DecodeUnit, Encode;
    if c < 0x80 {
      UnitOne(c, rest);
    } else if c < 0x800 {
      UnitTwo(c, rest);
    } else {
      UnitThree(c, rest);
    }
  }

  lemma UnitOne(c: CodePoint, rest: seq<byte>)
    requires c < 0x80
    ensures DecodeUnit(Encode(c) + rest) == (c, 1)
  {
  }

  lemma UnitTwo(c: CodePoint, rest: seq<byte>)
    requires 0x80 <= c < 0x800
    ensures DecodeUnit(Encode(c) + rest) == (c, 2)
  {
    var s := Encode(c) + rest;
    assert s[0] == Encode(c)[0] && s[1] == Encode(c)[1];
  }

  lemma UnitThree(c: CodePoint, rest: seq<byte>)
    requires 0x800 <= c <= 0xffff
    ensures DecodeUnit(Encode(c) + rest) == (c, 3)
  {
    hide DecodeUnit, Encode;
    ThreeDigits(c);
    EncodeThree(c);
    var e: seq<byte> := [c / 0x1000 + 0xe0, c / 0x40 % 0x40 + 0x80, c % 0x40 + 0x80];
    ReadUnit3(e + rest);
  }

  lemma ReadUnit3(s: seq<byte>)
    requires |s| >= 3 && 0xe0 <= s[0] <= 0xef && 0x80 <= s[1] <= 0xbf && 0x80 <= s[2] <= 0xbf
    ensures var h: int, m: int, l: int := s[0], s[1], s[2];
            DecodeUnit(s).0 == (h - 0xe0) * 0x1000 + (m - 0x80) * 0x40 + (l - 0x80) && DecodeUnit(s).1 == 3
  {
  }

  /** Reading the next unit of a CESU-8 string. */
  lemma UnitStep(input: seq<byte>, p: nat, u: seq<CodePoint>, i: nat)
    requires Units16(u) && p <= |input| && i <= |u| && input[p..] == Cesu(u[i..])
    ensures p < |input| <==> i < |u|
    ensures p < |input| ==>
              var (c, n) := DecodeUnit(input[p..]);
              && c == u[i] && n == EncodeLen(u[i]) && input[p..p + n] == Encode(u[i])
              && input[p + n..] == Cesu(u[i + 1..])
              && |Cesu(u[..i + 1])| == |Cesu(u[..i])| + n
  {
    hide Encode, EncodeLen, DecodeUnit;
    if i < |u| {
      var e, rest := Encode(u[i]), Cesu(u[i + 1..]);
      assert u[i..] == [u[i]] + u[i + 1..];
      EncodeCons(u[i], u[i + 1..]);
      assert input[p..] == e + rest;
      EncodeLenPositive(u[i]);
      DecodeUnitEncoded(u[i], rest);
      assert input[p..][..|e|] == e && input[p..][|e|..] == rest;
      assert u[..i + 1] == u[..i] + [u[i]];
      EncodeSnoc(u[..i], u[i]);
    }
  }

  /* ----- patterns ----- */

  function Astral(cp: nat, low: nat): CodePoint
    requires IsHi(cp) && IsLo(low)
  {
    0x10000 + (cp - 0xd800) * 0x400 + (low - 0xdc00)
  }

  /** cesu8_pattern_to_utf8: the buffer of `|input| + 1` bytes is never exceeded, and
      the CESU-8 form of a string becomes its UTF-8 form. */
  method CesuPatternToUtf8(input: seq<byte>, ghost u: seq<CodePoint>) returns (out: array<byte>, o: nat)
    requires Units16(u)
    ensures fresh(out) && out.Length == |input| + 1 && o <= |input| && out[o] == 0
    ensures input == Cesu(u) ==> out[..o] == EncodeAll(Chars(u, 0))
  {
    hide Encode, EncodeAll, EncodeLen, DecodeUnit, Chars, CharAt, Units16, Halfway;
    out := new byte[|input| + 1](i => 0);
    ghost var done: seq<CodePoint>, i: nat := [], 0;
    ghost var good := input == Cesu(u);
    var p := 0;
    o := 0;
    if good { StartHalfway(input, u); }
    assert out[..o] == [];
    while p < |input|
      invariant o <= p <= |input| && i <= |u|
      invariant good ==> Halfway(input, p, u, i, done, out[..o])
    {
      var (cp, n) := DecodeUnit(input[p..]);
      var pair := false;
      if IsHi(cp) && p + n < |input| {
        var (low, n2) := DecodeUnit(input[p + n..]);
        if IsLo(low) {
          pair := true;
          if good {
            PairStep(input, p, u, i, done, out[..o]);
            done, i := done + [Astral(cp, low)], i + 2;
          }
          AstralBytes(cp, low);
          ghost var before := out[..o];
          Store(out, o, Encode(Astral(cp, low)));
          assert out[..o + 4] == before + Encode(Astral(cp, low));
          o := o + 4;
          p := p + n + n2;
        }
      }
      if !pair {
        if good {
          LoneStep(input, p, u, i, done, out[..o]);
          done, i := done + [u[i]], i + 1;
        }
        ghost var before := out[..o];
        Store(out, o, input[p..p + n]);
        assert out[..o + n] == before + input[p..p + n];
        o := o + n;
        p := p + n;
      }
    }
    if good { EndHalfway(input, u, i, done, out[..o]); }
    out[o] := 0;
  }

  /** `written` is the UTF-8 form of the first `i` units, whose CESU-8 form ends at `p`. */
  ghost predicate Halfway(input: seq<byte>, p: nat, u: seq<CodePoint>, i: nat, done: seq<CodePoint>,
                          written: seq<byte>) {
    && p <= |input| && i <= |u| && input[p..] == Cesu(u[i..])
    && done + Chars(u, i) == Chars(u, 0) && written == EncodeAll(done)
  }

  lemma StartHalfway(input: seq<byte>, u: seq<CodePoint>)
    requires input == Cesu(u)
    ensures Halfway(input, 0, u, 0, [], [])
  {
    hide Encode, EncodeAll, Chars;
    NothingEncoded();
    assert u[0..] == u && input[0..] == input && [] + Chars(u, 0) == Chars(u, 0);
  }

  lemma EndHalfway(input: seq<byte>, u: seq<CodePoint>, i: nat, done: seq<CodePoint>, written: seq<byte>)
    requires Units16(u) && Halfway(input, |input|, u, i, done, written)
    ensures written == EncodeAll(Chars(u, 0))
  {
    hide Encode, EncodeAll, EncodeLen, DecodeUnit, Chars, Units16;
    UnitStep(input, |input|, u, i);
    NothingLeft(u);
    assert done == Chars(u, 0);
  }

  /** The pair of units that starts at `p`. */
  lemma PairStep(input: seq<byte>, p: nat, u: seq<CodePoint>, i: nat, done: seq<CodePoint>, written: seq<byte>)
    requires Units16(u) && Halfway(input, p, u, i, done, written) && p < |input|
    requires var (cp, n) := DecodeUnit(input[p..]);
             IsHi(cp) && p + n < |input| && IsLo(DecodeUnit(input[p + n..]).0)
    ensures var (cp, n) := DecodeUnit(input[p..]);
            var (low, n2) := DecodeUnit(input[p + n..]);
            var c := Astral(cp, low);
            i + 2 <= |u| && Halfway(input, p + n + n2, u, i + 2, done + [c], written + Encode(c))
  {
    hide Encode, EncodeAll, EncodeLen, DecodeUnit, Chars, CharAt, Units16;
    var (cp, n) := DecodeUnit(input[p..]);
    var (low, n2) := DecodeUnit(input[p + n..]);
    UnitStep(input, p, u, i);
    UnitStep(input, p + n, u, i + 1);
    PairIn(u, i, cp, low);
    EncodeSnoc(done, Astral(cp, low));
    assert done + ([Astral(cp, low)] + Chars(u, i + 2)) == done + [Astral(cp, low)] + Chars(u, i + 2);
  }

  /** A unit at `p` that is no such pair. */
  lemma LoneStep(input: seq<byte>, p: nat, u: seq<CodePoint>, i: nat, done: seq<CodePoint>, written: seq<byte>)
    requires Units16(u) && Halfway(input, p, u, i, done, written) && p < |input|
    requires var (cp, n) := DecodeUnit(input[p..]);
             !(IsHi(cp) && p + n < |input| && IsLo(DecodeUnit(input[p + n..]).0))
    ensures i < |u|
    ensures var n := DecodeUnit(input[p..]).1;
            Halfway(input, p + n, u, i + 1, done + [u[i]], written + input[p..p + n])
  {
    hide Encode, EncodeAll, EncodeLen, DecodeUnit, Chars, CharAt, Units16;
    var (cp, n) := DecodeUnit(input[p..]);
    UnitStep(input, p, u, i);
    LoneIn(input, p, n, u, i, cp);
    EncodeSnoc(done, u[i]);
    assert done + ([u[i]] + Chars(u, i + 1)) == done + [u[i]] + Chars(u, i + 1);
  }

  lemma AstralBytes(cp: nat, low: nat)
    requires IsHi(cp) && IsLo(low)
    ensures |Encode(Astral(cp, low))| == 4
  {
  }

  lemma PairIn(u: seq<CodePoint>, i: nat, cp: nat, low: nat)
    requires i + 1 < |u| && u[i] == cp && u[i + 1] == low && IsHi(cp) && IsLo(low)
    ensures Chars(u, i) == [Astral(cp, low)] + Chars(u, i + 2)
  {
    ReadChar(u, i);
  }

  /** A unit that is not the first half of a pair stands for itself. */
  lemma LoneIn(input: seq<byte>, p: nat, n: nat, u: seq<CodePoint>, i: nat, cp: nat)
    requires i < |u| && u[i] == cp && p + n <= |input| && input[p + n..] == Cesu(u[i + 1..]) && Units16(u)
    requires IsHi(cp) && p + n < |input| ==> !IsLo(DecodeUnit(input[p + n..]).0)
    ensures Chars(u, i) == [u[i]] + Chars(u, i + 1)
  {
    hide DecodeUnit, EncodeAll;
    UnitStep(input, p + n, u, i + 1);
    ReadChar(u, i);
  }

  /* ----- subjects ----- */

  /** The units that decode_utf8_unit finds in any bytes, and where each of them starts;
      the last entry is the end. */
  function RawUnits(s: seq<byte>): (u: seq<CodePoint>)
    ensures Units16(u)
    decreases |s|
  {
    if s == [] then [] else [DecodeUnit(s).0] + RawUnits(s[DecodeUnit(s).1..])
  }

  function RawOffsets(s: seq<byte>, p: nat): (r: seq<nat>)
    ensures |r| == |RawUnits(s)| + 1 && r[0] == p && r[|r| - 1] == p + |s|
    decreases |s|
  {
    if s == [] then [p] else [p] + RawOffsets(s[DecodeUnit(s).1..], p + DecodeUnit(s).1)
  }

  /** cesu8_to_utf16. */
  method Cesu8ToUtf16(input: seq<byte>) returns (units: seq<CodePoint>, offsets: seq<nat>)
    ensures units == RawUnits(input) && offsets == RawOffsets(input, 0)
  {
    hide DecodeUnit, RawUnits, RawOffsets;
    units, offsets := [], [];
    var p := 0;
    assert input[0..] == input;
    while p < |input|
      invariant p <= |input|
      invariant units + RawUnits(input[p..]) == RawUnits(input)
      invariant offsets + RawOffsets(input[p..], p) == RawOffsets(input, 0)
      decreases |input| - p
    {
      NextRaw(input, p);
      var (c, n) := DecodeUnit(input[p..]);
      assert units + ([c] + RawUnits(input[p + n..])) == units + [c] + RawUnits(input[p + n..]);
      assert offsets + ([p] + RawOffsets(input[p + n..], p + n)) == offsets + [p] + RawOffsets(input[p + n..], p + n);
      offsets := offsets + [p];
      units := units + [c];
      p := p + n;
    }
    NoRaw(p);
    assert input[p..] == [] && units + [] == units;
    offsets := offsets + [|input|];
  }

  lemma NextRaw(input: seq<byte>, p: nat)
    requires p < |input|
    ensures var (c, n) := DecodeUnit(input[p..]);
            && RawUnits(input[p..]) == [c] + RawUnits(input[p + n..])
            && RawOffsets(input[p..], p) == [p] + RawOffsets(input[p + n..], p + n)
  {
    hide DecodeUnit;
    var s := input[p..];
    assert s[DecodeUnit(s).1..] == input[p + DecodeUnit(s).1..];
  }

  lemma NoRaw(p: nat)
    ensures RawUnits([]) == [] && RawOffsets([], p) == [p]
  {
  }

  lemma {:induction false} RawIncrease(s: seq<byte>, p: nat, j: nat, k: nat)
    requires j < k < |RawOffsets(s, p)|
    ensures p <= RawOffsets(s, p)[j] < RawOffsets(s, p)[k]
    decreases |s|
  {
    hide DecodeUnit;
    if s != [] {
      var n := DecodeUnit(s).1;
      var rest := RawOffsets(s[n..], p + n);
      if j > 0 {
        RawIncrease(s[n..], p + n, j - 1, k - 1);
      } else if k > 1 {
        RawIncrease(s[n..], p + n, 0, k - 1);
      }
    }
  }

  /** The CESU-8 form of any units is read as these units, each where the CESU-8 form of
      what precedes it ends. */
  lemma {:induction false} CesuUnits(u: seq<CodePoint>, p: nat)
    requires Units16(u)
    ensures RawUnits(Cesu(u)) == u
    ensures forall k :: 0 <= k <= |u| ==> RawOffsets(Cesu(u), p)[k] == p + |Cesu(u[..k])|
    decreases |u|
  {
    hide RawUnits, RawOffsets, EncodeAll, DecodeUnit, Encode, EncodeLen;
    NothingEncoded();
    if u == [] {
      NoRaw(p);
      assert u[..0] == [];
    } else {
      var s, rest, n := Cesu(u), u[1..], EncodeLen(u[0]);
      CesuFirst(u, p);
      CesuUnits(rest, p + n);
      forall k | 0 <= k <= |u| ensures RawOffsets(s, p)[k] == p + |Cesu(u[..k])| {
        if k > 0 { CesuPrefix(u, k); } else { assert u[..0] == []; }
      }
    }
  }

  lemma CesuFirst(u: seq<CodePoint>, p: nat)
    requires Units16(u) && u != []
    ensures var n := EncodeLen(u[0]);
            && RawUnits(Cesu(u)) == [u[0]] + RawUnits(Cesu(u[1..]))
            && RawOffsets(Cesu(u), p) == [p] + RawOffsets(Cesu(u[1..]), p + n)
  {
    hide DecodeUnit, Encode, EncodeLen, RawUnits, RawOffsets, EncodeAll;
    var s := Cesu(u);
    assert s[0..] == s && u[0..] == u;
    UnitStep(s, 0, u, 0);
    RawUnfold(s, p);
  }

  lemma RawUnfold(s: seq<byte>, p: nat)
    requires s != []
    ensures var (c, n) := DecodeUnit(s);
            RawUnits(s) == [c] + RawUnits(s[n..]) && RawOffsets(s, p) == [p] + RawOffsets(s[n..], p + n)
  {
    hide DecodeUnit;
  }

  lemma CesuPrefix(u: seq<CodePoint>, k: nat)
    requires 0 < k <= |u|
    ensures |Cesu(u[..k])| == EncodeLen(u[0]) + |Cesu(u[1..][..k - 1])|
  {
    hide Encode, EncodeAll, EncodeLen;
    assert u[..k] == [u[0]] + u[1..][..k - 1];
    EncodeCons(u[0], u[1..][..k - 1]);
  }

  /** ASCII bytes are the units: byte, unit and character offsets coincide. */
  lemma {:induction false} PlainRaw(s: seq<byte>, p: nat)
    requires Plain(s)
    ensures RawUnits(s) == s && forall k :: 0 <= k <= |s| ==> RawOffsets(s, p)[k] == p + k
    decreases |s|
  {
    hide RawUnits, RawOffsets, DecodeUnit;
    if s == [] {
      NoRaw(p);
    } else {
      PlainFirst(s);
      RawUnfold(s, p);
      PlainRaw(s[1..], p + 1);
    }
  }

  lemma PlainFirst(s: seq<byte>)
    requires Plain(s) && s != []
    ensures DecodeUnit(s) == (s[0], 1) && Plain(s[1..])
  {
  }

  /* ----- re_run ----- */

  /** Byte offset `b` is where character `k` of the text as the expression sees it
      starts. */
  ghost predicate ByteOf(u: seq<CodePoint>, offsets: seq<nat>, wide: bool, k: nat, b: int)
    requires |offsets| == |u| + 1
  {
    exists p: nat :: p <= |u| && UnitOf(u, wide, k, p) && b == offsets[p]
  }

  ghost predicate InBytes(u: seq<CodePoint>, offsets: seq<nat>, wide: bool, c: Option<Span>, start: int, end: int)
    requires |offsets| == |u| + 1
  {
    match c
    case None => start == -1 && end == -1
    case Some(Span(a, b)) => ByteOf(u, offsets, wide, a, start) && ByteOf(u, offsets, wide, b, end)
  }

  /** The answer of re_run: the whole match and as many groups as are asked for. */
  datatype Answer = NoMatch | Match(start: int, end: int, groups: seq<(int, int)>)

  ghost predicate Reports(u: seq<CodePoint>, offsets: seq<nat>, wide: bool, r: Option<State>, groups: nat, a: Answer)
    requires |offsets| == |u| + 1
  {
    match r
    case None => a == NoMatch
    case Some(y) =>
      && a.Match? && |a.groups| == groups < |y.caps|
      && InBytes(u, offsets, wide, y.caps[0], a.start, a.end)
      && forall i :: 0 <= i < groups ==> InBytes(u, offsets, wide, y.caps[i + 1], a.groups[i].0, a.groups[i].1)
  }

  function Least(a: nat, b: nat): nat { if a < b then a else b }

  /** How many groups are reported. */
  function Reported(captureCount: nat, maxCaptures: nat): nat
    requires captureCount > 0
  {
    Least(Least(captureCount, RE_MAX_CAPTURES) - 1, maxCaptures)
  }

  /** unit_offset_to_byte_offset; an unset slot is -1. */
  function ByteOffset(offsets: seq<nat>, v: Value): int
    requires offsets != []
  {
    match v
    case At(p) => offsets[Least(p, |offsets| - 1)]
    case _ => -1
  }

  lemma SlotInBytes(u: seq<CodePoint>, wide: bool, c: Option<Span>, s: Value, e: Value, offsets: seq<nat>)
    requires InUnits(u, wide, c, s, e) && |offsets| == |u| + 1
    ensures InBytes(u, offsets, wide, c, ByteOffset(offsets, s), ByteOffset(offsets, e))
  {
    hide UnitOf, EncodeAll;
  }

  /** On text without surrogates both ways of reading units are the same. */
  lemma PlainAnswers(u: seq<CodePoint>, r: Option<State>, matched: bool, slots: seq<Value>)
    requires NoSurrogates(u)
    ensures Seen(u, true) == u
    ensures Answers(u, false, r, matched, slots) ==> Answers(u, true, r, matched, slots)
  {
    hide Offsets, Chars;
    PlainOffsets(u, 0);
    assert u[0..] == u;
    if Answers(u, false, r, matched, slots) && matched {
      forall k | 0 <= k < |r.value.caps| ensures InUnits(u, true, r.value.caps[k], slots[2 * k], slots[2 * k + 1]) {
        assert InUnits(u, false, r.value.caps[k], slots[2 * k], slots[2 * k + 1]);
      }
    }
  }

  lemma PlainStart(u: seq<CodePoint>, start: nat)
    requires NoSurrogates(u) && start <= |u|
    ensures StartAt(u, true, start) == StartAt(u, false, start) == start
  {
    hide Chars, Offsets, StartAt;
    PlainOffsets(u, 0);
    StartsOnce(u, true, start, start);
  }

  /** The unit at which a match starts: the first whose byte offset is not less. */
  function UnitAt(offsets: seq<nat>, start: nat): (m: nat)
    ensures m <= |offsets| && forall j :: 0 <= j < m ==> offsets[j] < start
    ensures m < |offsets| ==> offsets[m] >= start
  {
    if offsets == [] || offsets[0] >= start then 0 else 1 + UnitAt(offsets[1..], start)
  }

  method StartUnit(offsets: seq<nat>, start: nat) returns (unit: nat)
    requires offsets != [] && start <= offsets[|offsets| - 1]
    ensures unit == UnitAt(offsets, start) < |offsets|
  {
    hide UnitAt;
    unit := start;
    var i := 0;
    while i < |offsets|
      invariant 0 <= i <= UnitAt(offsets, start)
    {
      if offsets[i] >= start { return i; }
      unit := i + 1;
      i := i + 1;
    }
  }

  /** In the CESU-8 form of units that is the unit that starts there. */
  lemma UnitOfCesu(u: seq<CodePoint>, m: nat)
    requires Units16(u) && m <= |u|
    ensures UnitAt(RawOffsets(Cesu(u), 0), |Cesu(u[..m])|) == m
  {
    hide UnitAt, RawOffsets, EncodeAll;
    var offsets, k := RawOffsets(Cesu(u), 0), UnitAt(RawOffsets(Cesu(u), 0), |Cesu(u[..m])|);
    CesuUnits(u, 0);
    assert offsets[m] == |Cesu(u[..m])|;
    if k < m { RawIncrease(Cesu(u), 0, k, m); }
  }

  /** The byte offsets of the whole match and of the groups. */
  method Collect(capture: array<Value>, offsets: seq<nat>, groups: nat) returns (a: Answer)
    requires 2 * (groups + 1) <= capture.Length && offsets != []
    ensures a.Match? && a.start == ByteOffset(offsets, capture[0]) && a.end == ByteOffset(offsets, capture[1])
    ensures |a.groups| == groups
    ensures forall i :: 0 <= i < groups ==>
              a.groups[i] == (ByteOffset(offsets, capture[2 * (i + 1)]), ByteOffset(offsets, capture[2 * (i + 1) + 1]))
  {
    var caps: seq<(int, int)> := [];
    var i := 1;
    while i < groups + 1
      invariant 1 <= i <= groups + 1 && |caps| == i - 1
      invariant forall j :: 0 <= j < i - 1 ==>
                  caps[j] == (ByteOffset(offsets, capture[2 * (j + 1)]), ByteOffset(offsets, capture[2 * (j + 1) + 1]))
    {
      var idx := i * 2;
      caps := caps + [(ByteOffset(offsets, capture[idx]), ByteOffset(offsets, capture[idx + 1]))];
      i := i + 1;
    }
    a := Match(ByteOffset(offsets, capture[0]), ByteOffset(offsets, capture[1]), caps);
  }

  lemma CollectedReports(u: seq<CodePoint>, wide: bool, r: Option<State>, slots: seq<Value>, offsets: seq<nat>,
                         groups: nat, a: Answer)
    requires Answers(u, wide, r, true, slots) && r.Some? && groups < |r.value.caps| && |offsets| == |u| + 1
    requires a.Match? && a.start == ByteOffset(offsets, slots[0]) && a.end == ByteOffset(offsets, slots[1])
             && |a.groups| == groups
    requires forall i :: 0 <= i < groups ==>
               a.groups[i] == (ByteOffset(offsets, slots[2 * (i + 1)]), ByteOffset(offsets, slots[2 * (i + 1) + 1]))
    ensures Reports(u, offsets, wide, r, groups, a)
  {
    hide InUnits, InBytes, ByteOffset, EncodeAll;
    var caps := r.value.caps;
    SlotInBytes(u, wide, caps[0], slots[0], slots[1], offsets);
    forall i | 0 <= i < groups ensures InBytes(u, offsets, wide, caps[i + 1], a.groups[i].0, a.groups[i].1) {
      var k := i + 1;
      assert InUnits(u, wide, caps[k], slots[2 * k], slots[2 * k + 1]);
      SlotInBytes(u, wide, caps[k], slots[2 * k], slots[2 * k + 1], offsets);
    }
  }

  /** What a run of lre_exec on the units `u` is to leave behind. */
  ghost predicate Found(bc: seq<byte>, g: Canon, isSpace: CodePoint -> bool, n: Node, u: seq<CodePoint>, m: nat,
                        matched: bool, slots: seq<Value>)
    requires |bc| >= HEADER_LEN && m <= |u|
  {
    var wide := IsWide(bc, 1);
    var w, k := World(g, isSpace, Seen(u, wide)), StartAt(u, wide, m);
    CountersFit(g, n, 1, false, |w.text|) ==> Answers(u, wide, BuiltinExec(w, n, IsSticky(bc), k), matched, slots)
  }

  /** The fast path: the bytes are the units. */
  method RunBytes(bc: seq<byte>, g: Canon, isSpace: CodePoint -> bool, input: seq<byte>, start: nat,
                  capture: array<Value>,
                  ghost n: Node, ghost u: seq<CodePoint>)
    returns (matched: bool)
    requires Compiled(bc, g, n) && AllocCount(bc) <= capture.Length && input == u && NoSurrogates(u) && start <= |u|
    modifies capture
    ensures Found(bc, g, isSpace, n, u, start, matched, capture[..])
  {
    hide Compiled, CountersFit, BuiltinExec, FirstMatch, Answers, Chars, Offsets, StartAt, StartsAt, Emitted;
    ExecHeader(bc, g, n);
    matched := LreExec(bc, g, isSpace, input, 0, start, capture, n);
    ghost var w := World(g, isSpace, u);
    ghost var r := BuiltinExec(w, n, IsSticky(bc), start);
    FirstMatchIsBuiltinExec(w, n, IsSticky(bc), start);
    PlainAnswers(u, r, matched, capture[..]);
    PlainStart(u, start);
  }

  /** The general path. */
  method RunUnits(bc: seq<byte>, g: Canon, isSpace: CodePoint -> bool, u: seq<CodePoint>, m: nat,
                  capture: array<Value>, ghost n: Node)
    returns (matched: bool)
    requires Compiled(bc, g, n) && AllocCount(bc) <= capture.Length && m <= |u|
    modifies capture
    ensures Found(bc, g, isSpace, n, u, m, matched, capture[..])
  {
    hide Compiled, CountersFit, BuiltinExec, FirstMatch, Answers, Chars, Offsets, StartAt, StartsAt, Emitted;
    ExecHeader(bc, g, n);
    matched := LreExec(bc, g, isSpace, u, 1, m, capture, n);
    ghost var wide := IsWide(bc, 1);
    FirstMatchIsBuiltinExec(World(g, isSpace, Seen(u, wide)), n, IsSticky(bc), StartAt(u, wide, m));
  }

  /** re_run on a compiled expression and any bytes, from any of them. With or without
      the ASCII fast path the answer is what RegExpBuiltinExec finds in the units that
      the bytes are read as, in bytes. */
  method ReRun(bc: seq<byte>, g: Canon, isSpace: CodePoint -> bool, input: seq<byte>, start: nat, inputIsAscii: bool,
               maxCaptures: nat, ghost n: Node)
    returns (a: Answer)
    requires Compiled(bc, g, n) && SlotsFit(g, n) && start <= |input|
    requires inputIsAscii ==> Plain(input)
    ensures var u, offsets, wide := RawUnits(input), RawOffsets(input, 0), IsWide(bc, 1);
            var w, k := World(g, isSpace, Seen(u, wide)), StartAt(u, wide, UnitAt(offsets, start));
            CountersFit(g, n, 1, false, |w.text|) ==>
              Reports(u, offsets, wide, BuiltinExec(w, n, IsSticky(bc), k), Reported(1 + Caps(n), maxCaptures), a)
  {
    hide EncodeAll, Compiled, CountersFit, BuiltinExec, Answers, Reports, Chars, Offsets, StartAt, Units16, Found,
      RawUnits, RawOffsets, UnitAt, Plain;
    ExecHeader(bc, g, n);
    SlotsUsed(bc, g, n);
    var captureCount := CaptureCount(bc);
    var total := Least(captureCount, RE_MAX_CAPTURES);
    var groups := Least(total - 1, maxCaptures);
    var capture := new Value[2 * RE_MAX_CAPTURES](i => Unset);
    ghost var u, m := RawUnits(input), UnitAt(RawOffsets(input, 0), start);
    var matched, offsets;
    if inputIsAscii {
      PlainText(input, start);
      offsets := seq(|input| + 1, i requires 0 <= i <= |input| => i);
      assert offsets == RawOffsets(input, 0);
      matched := RunBytes(bc, g, isSpace, input, start, capture, n, u);
    } else {
      var units;
      units, offsets := Cesu8ToUtf16(input);
      var unit := StartUnit(offsets, start);
      matched := RunUnits(bc, g, isSpace, units, unit, capture, n);
    }
    if matched { a := Collect(capture, offsets, groups); } else { a := NoMatch; }
    ReportFound(bc, g, isSpace, n, u, m, matched, capture[..], offsets, groups, a);
  }

  lemma PlainText(input: seq<byte>, start: nat)
    requires Plain(input) && start <= |input|
    ensures RawUnits(input) == input && NoSurrogates(RawUnits(input)) && UnitAt(RawOffsets(input, 0), start) == start
    ensures forall k :: 0 <= k <= |input| ==> RawOffsets(input, 0)[k] == k
  {
    hide UnitAt, RawOffsets, RawUnits;
    PlainRaw(input, 0);
    var offsets := RawOffsets(input, 0);
    var m := UnitAt(offsets, start);
    assert offsets[start] == start;
    assert m <= |input| ==> offsets[m] == m;
  }

  lemma ReportFound(bc: seq<byte>, g: Canon, isSpace: CodePoint -> bool, n: Node, u: seq<CodePoint>, m: nat,
                    matched: bool, slots: seq<Value>, offsets: seq<nat>, groups: nat, a: Answer)
    requires |bc| >= HEADER_LEN && m <= |u| && Found(bc, g, isSpace, n, u, m, matched, slots) && groups <= Caps(n)
    requires |offsets| == |u| + 1 && 2 * (groups + 1) <= |slots|
    requires !matched ==> a == NoMatch
    requires matched ==>
               && a.Match? && a.start == ByteOffset(offsets, slots[0]) && a.end == ByteOffset(offsets, slots[1])
                  && |a.groups| == groups
               && forall i :: 0 <= i < groups ==>
                    a.groups[i]
                      == (ByteOffset(offsets, slots[2 * (i + 1)]), ByteOffset(offsets, slots[2 * (i + 1) + 1]))
    ensures var wide := IsWide(bc, 1);
            var w, k := World(g, isSpace, Seen(u, wide)), StartAt(u, wide, m);
            CountersFit(g, n, 1, false, |w.text|) ==>
              Reports(u, offsets, wide, BuiltinExec(w, n, IsSticky(bc), k), groups, a)
  {
    hide EncodeAll, CountersFit, BuiltinExec, Answers, Reports, Chars, Offsets, StartAt, StartsAt, Emitted;
    var wide := IsWide(bc, 1);
    var w, k := World(g, isSpace, Seen(u, wide)), StartAt(u, wide, m);
    var r := BuiltinExec(w, n, IsSticky(bc), k);
    if CountersFit(g, n, 1, false, |w.text|) {
      if matched {
        GroupsMatched(u, wide, w, n, IsSticky(bc), k, slots);
        CollectedReports(u, wide, r, slots, offsets, groups, a);
      } else {
        NotMatched(u, offsets, wide, r, slots, groups);
      }
    }
  }

  lemma ExecHeader(bc: seq<byte>, g: Canon, n: Node)
    requires Compiled(bc, g, n)
    ensures |bc| >= HEADER_LEN && CaptureCount(bc) == 1 + Caps(n)
  {
  }

  lemma NotMatched(u: seq<CodePoint>, offsets: seq<nat>, wide: bool, r: Option<State>, slots: seq<Value>, groups: nat)
    requires |offsets| == |u| + 1 && Answers(u, wide, r, false, slots)
    ensures Reports(u, offsets, wide, r, groups, NoMatch)
  {
  }

  lemma GroupsMatched(u: seq<CodePoint>, wide: bool, w: World, n: Node, sticky: bool, k: nat, slots: seq<Value>)
    requires k <= |w.text| && Answers(u, wide, BuiltinExec(w, n, sticky, k), true, slots)
    ensures BuiltinExec(w, n, sticky, k).Some? && |BuiltinExec(w, n, sticky, k).value.caps| == 1 + Caps(n)
  {
    hide BuiltinExec, InUnits;
    FirstMatchIsBuiltinExec(w, n, sticky, k);
  }
}
