/** UTF-8 with surrogates (section 3 of RFC 3629, extended to encoded surrogates as
    in CESU-8) and the conversions between it and 16-bit units. */
module Utf8 {
  import opened Syntax
  import opened Semantics
  import opened Machine
  import opened Encoding
  import opened Utf16

  /* ----- one code point ----- */

  function EncodeLen(c: nat): nat {
    if c < 0x80 then 1 else if c < 0x800 then 2 else if c < 0x10000 then 3 else if c < 0x110000 then 4 else 3
  }

  /** utf8_encode; values beyond Unicode become U+FFFD. */
  function Encode(c: nat): (r: seq<byte>)
    ensures |r| == EncodeLen(c)
  {
    if c < 0x80 then [c]
    else if c < 0x800 then [c / 0x40 + 0xc0, c % 0x40 + 0x80]
    else if c < 0x10000 then [c / 0x1000 + 0xe0, c / 0x40 % 0x40 + 0x80, c % 0x40 + 0x80]
    else if c < 0x110000 then [c / 0x40000 + 0xf0, c / 0x1000 % 0x40 + 0x80, c / 0x40 % 0x40 + 0x80, c % 0x40 + 0x80]
    else [0xef, 0xbf, 0xbd]
  }

  predicate Between(b: byte, lo: nat, hi: nat) { lo <= b <= hi }

  function Tail(b: byte): (v: nat)
    requires b >= 0x80
  {
    var x: nat := b;
    x - 0x80
  }

  /** utf8_decode_len on the bytes that are left: the code point and how many bytes it
      took. An error takes one byte and yields U+FFFD. */
  function DecodeLen(s: seq<byte>): (r: (CodePoint, nat))
    requires s != []
    ensures 0 < r.1 <= |s|
  {
    var c: nat := s[0];
    if c < 0x80 then (c, 1)
    else if 0xc2 <= c <= 0xdf && |s| >= 2 && Between(s[1], 0x80, 0xbf) then
      ((c - 0xc0) * 0x40 + Tail(s[1]), 2)
    else if 0xe0 <= c <= 0xef && |s| >= 3 && Between(s[1], if c == 0xe0 then 0xa0 else 0x80, 0xbf)
            && Between(s[2], 0x80, 0xbf) then
      ((c - 0xe0) * 0x1000 + Tail(s[1]) * 0x40 + Tail(s[2]), 3)
    else if 0xf0 <= c <= 0xf4 && |s| >= 4
            && Between(s[1], if c == 0xf0 then 0x90 else 0x80, if c == 0xf4 then 0x8f else 0xbf)
            && Between(s[2], 0x80, 0xbf) && Between(s[3], 0x80, 0xbf) then
      ((c - 0xf0) * 0x40000 + Tail(s[1]) * 0x1000 + Tail(s[2]) * 0x40 + Tail(s[3]), 4)
    else (0xfffd, 1)
  }

  /** What is encoded is decoded, surrogates included. */
  lemma DecodeFirst(c: CodePoint, rest: seq<byte>)
    ensures DecodeLen(Encode(c) + rest) == (c, EncodeLen(c))
  {
    hide DecodeLen, Encode;
    if c < 0x80 {
      DecodeOne(c, rest);
    } else if c < 0x800 {
      DecodeTwo(c, rest);
    } else if c < 0x10000 {
      DecodeThree(c, rest);
    } else {
      DecodeFour(c, rest);
    }
  }

  lemma DecodeOne(c: CodePoint, rest: seq<byte>)
    requires c < 0x80
    ensures DecodeLen(Encode(c) + rest) == (c, 1)
  {
  }

  lemma DecodeTwo(c: CodePoint, rest: seq<byte>)
    requires 0x80 <= c < 0x800
    ensures DecodeLen(Encode(c) + rest) == (c, 2)
  {
    var s := Encode(c) + rest;
    assert s[0] == Encode(c)[0] && s[1] == Encode(c)[1];
  }

  lemma DecodeThree(c: CodePoint, rest: seq<byte>)
    requires 0x800 <= c < 0x10000
    ensures DecodeLen(Encode(c) + rest) == (c, 3)
  {
    hide DecodeLen, Encode;
    ThreeDigits(c);
    EncodeThree(c);
    var e: seq<byte> := [c / 0x1000 + 0xe0, c / 0x40 % 0x40 + 0x80, c % 0x40 + 0x80];
    ReadThree(e + rest);
  }

  lemma EncodeThree(c: CodePoint)
    requires 0x800 <= c < 0x10000
    ensures Encode(c) == [c / 0x1000 + 0xe0, c / 0x40 % 0x40 + 0x80, c % 0x40 + 0x80]
  {
  }

  lemma EncodeFour(c: CodePoint)
    requires 0x10000 <= c
    ensures Encode(c) == [c / 0x40000 + 0xf0, c / 0x1000 % 0x40 + 0x80, c / 0x40 % 0x40 + 0x80, c % 0x40 + 0x80]
  {
  }

  lemma ThreeDigits(c: CodePoint)
    requires 0x800 <= c < 0x10000
    ensures c == c / 0x1000 * 0x1000 + c / 0x40 % 0x40 * 0x40 + c % 0x40
    ensures c / 0x1000 < 0x10 && (c / 0x1000 == 0 ==> c / 0x40 % 0x40 >= 0x20)
  {
  }

  lemma FourDigits(c: CodePoint)
    requires 0x10000 <= c
    ensures c == c / 0x40000 * 0x40000 + c / 0x1000 % 0x40 * 0x1000 + c / 0x40 % 0x40 * 0x40 + c % 0x40
    ensures c / 0x40000 <= 4
    ensures c / 0x40000 == 0 ==> c / 0x1000 % 0x40 >= 0x10
    ensures c / 0x40000 == 4 ==> c / 0x1000 % 0x40 < 0x10
  {
  }

  lemma ReadThree(s: seq<byte>)
    requires |s| >= 3 && 0xe0 <= s[0] <= 0xef && 0x80 <= s[1] <= 0xbf && 0x80 <= s[2] <= 0xbf
             && (s[0] == 0xe0 ==> s[1] >= 0xa0)
    ensures var h: int, m: int, l: int := s[0], s[1], s[2];
            DecodeLen(s).0 == (h - 0xe0) * 0x1000 + (m - 0x80) * 0x40 + (l - 0x80) && DecodeLen(s).1 == 3
  {
  }

  lemma ReadFour(s: seq<byte>)
    requires |s| >= 4 && 0xf0 <= s[0] <= 0xf4 && 0x80 <= s[1] <= 0xbf && 0x80 <= s[2] <= 0xbf && 0x80 <= s[3] <= 0xbf
    requires (s[0] == 0xf0 ==> s[1] >= 0x90) && (s[0] == 0xf4 ==> s[1] <= 0x8f)
    ensures var h: int, m: int, n: int, l: int := s[0], s[1], s[2], s[3];
            DecodeLen(s).0 == (h - 0xf0) * 0x40000 + (m - 0x80) * 0x1000 + (n - 0x80) * 0x40 + (l - 0x80)
            && DecodeLen(s).1 == 4
  {
  }

  lemma DecodeFour(c: CodePoint, rest: seq<byte>)
    requires 0x10000 <= c
    ensures DecodeLen(Encode(c) + rest) == (c, 4)
  {
    hide DecodeLen, Encode;
    FourDigits(c);
    EncodeFour(c);
    var e: seq<byte> := [c / 0x40000 + 0xf0, c / 0x1000 % 0x40 + 0x80, c / 0x40 % 0x40 + 0x80, c % 0x40 + 0x80];
    ReadFour(e + rest);
  }

  /* ----- whole strings ----- */

  function EncodeAll(cs: seq<CodePoint>): seq<byte>
    decreases |cs|
  {
    if cs == [] then [] else Encode(cs[0]) + EncodeAll(cs[1..])
  }

  function DecodeAll(s: seq<byte>): seq<CodePoint>
    decreases |s|
  {
    if s == [] then [] else [DecodeLen(s).0] + DecodeAll(s[DecodeLen(s).1..])
  }

  lemma {:induction false} DecodeEncoded(cs: seq<CodePoint>)
    ensures DecodeAll(EncodeAll(cs)) == cs
    decreases |cs|
  {
    hide Encode, DecodeLen;
    if cs != [] {
      var e, rest := Encode(cs[0]), EncodeAll(cs[1..]);
      DecodeFirst(cs[0], rest);
      DecodeEncoded(cs[1..]);
      EncodeLenPositive(cs[0]);
      assert (e + rest)[|e|..] == rest;
    }
  }

  lemma EncodeLenPositive(c: nat)
    ensures 1 <= EncodeLen(c) <= 4
  {
  }

  lemma {:induction false} EncodeConcat(a: seq<CodePoint>, b: seq<CodePoint>)
    ensures EncodeAll(a + b) == EncodeAll(a) + EncodeAll(b)
    decreases |a|
  {
    hide Encode;
    if a == [] {
      assert a + b == b;
    } else {
      assert (a + b)[1..] == a[1..] + b;
      EncodeConcat(a[1..], b);
    }
  }

  lemma EncodeSnoc(a: seq<CodePoint>, c: CodePoint)
    ensures EncodeAll(a + [c]) == EncodeAll(a) + Encode(c)
  {
    hide Encode;
    EncodeConcat(a, [c]);
    assert EncodeAll([c]) == Encode(c) + EncodeAll([]);
  }

  ghost predicate Units16(u: seq<CodePoint>) { forall i :: 0 <= i < |u| ==> u[i] <= 0xffff }

  /** Any 16-bit units, lone surrogates included, survive encoding and decoding. */
  lemma RoundTrip16(u: seq<CodePoint>)
    requires Units16(u)
    ensures Units(DecodeAll(EncodeAll(Chars(u, 0)))) == u
  {
    DecodeEncoded(Chars(u, 0));
    DecodedUnits(u, 0);
    assert u[0..] == u;
  }

  lemma ReadChar(u: seq<CodePoint>, i: nat)
    requires i < |u|
    ensures Chars(u, i) == [CharAt(u, i)] + Chars(u, if Pair(u, i) then i + 2 else i + 1)
  {
  }

  /** Bytes written into an array from `j` on. */
  method Store(dest: array<byte>, j: nat, bytes: seq<byte>)
    requires j + |bytes| <= dest.Length
    modifies dest
    ensures dest[..j + |bytes|] == old(dest[..j]) + bytes
  {
    var k := 0;
    while k < |bytes|
      invariant 0 <= k <= |bytes|
      invariant dest[..j + k] == old(dest[..j]) + bytes[..k]
    {
      dest[j + k] := bytes[k];
      assert dest[..j + k + 1] == dest[..j + k] + [bytes[k]];
      assert bytes[..k + 1] == bytes[..k] + [bytes[k]];
      k := k + 1;
    }
    assert bytes[..k] == bytes;
  }

  /** The longest whole-character prefix that leaves room for the terminator. */
  ghost predicate Truncated(dest: seq<byte>, cs: seq<CodePoint>, k: nat) {
    && k < |cs| && |EncodeAll(cs[..k])| < |dest|
    && dest[..|EncodeAll(cs[..k])|] == EncodeAll(cs[..k]) && dest[|EncodeAll(cs[..k])|] == 0
    && |EncodeAll(cs[..k + 1])| >= |dest|
  }

  /** The code point at `i` and where the next one starts. */
  method ReadUnits(src: seq<CodePoint>, i: nat) returns (c: CodePoint, i1: nat)
    requires i < |src|
    ensures c == CharAt(src, i) && i1 == (if Pair(src, i) then i + 2 else i + 1) <= |src|
    ensures Chars(src, i) == [c] + Chars(src, i1)
  {
    ReadChar(src, i);
    c, i1 := src[i], i + 1;
    if c >= 0x80 && IsHi(c) && i1 < |src| && IsLo(src[i1]) {
      c := FromSurrogates(c, src[i1]);
      i1 := i1 + 1;
    }
  }

  /** utf8_encode_buf16. The returned length never depends on the destination. */
  method EncodeBuf16(dest: array<byte>, src: seq<CodePoint>) returns (j: nat)
    modifies dest
    ensures j == |EncodeAll(Chars(src, 0))|
    ensures j < dest.Length ==> dest[..j] == EncodeAll(Chars(src, 0)) && dest[j] == 0
    ensures j >= dest.Length > 0 ==> exists k: nat :: Truncated(dest[..], Chars(src, 0), k)
  {
    hide Chars, Encode, EncodeAll, CharAt, EncodeLen, Truncated;
    ghost var cs, done: seq<CodePoint> := Chars(src, 0), [];
    var i := 0;
    j := 0;
    NothingEncoded();
    assert done + Chars(src, 0) == cs;
    while i < |src|
      invariant i <= |src| && done + Chars(src, i) == cs
      invariant j == |EncodeAll(done)| && (j < dest.Length || (done == [] && j == 0))
      invariant j <= dest.Length && dest[..j] == EncodeAll(done)
    {
      var c, i1 := ReadUnits(src, i);
      EncodeSnoc(done, c);
      if j + EncodeLen(c) >= dest.Length {
        j := Overflow(dest, src, i, j, cs, done);
        return;
      }
      Store(dest, j, Encode(c));
      j := j + EncodeLen(c);
      i := i1;
      done := done + [c];
    }
    NothingLeft(src);
    assert done == cs;
    if j < dest.Length { dest[j] := 0; }
  }

  /** The character at `i` does not fit: terminate, and count on. */
  method Overflow(dest: array<byte>, src: seq<CodePoint>, i: nat, j: nat, ghost cs: seq<CodePoint>,
                  ghost done: seq<CodePoint>)
    returns (total: nat)
    requires i < |src| && done + Chars(src, i) == cs
    requires j == |EncodeAll(done)| <= dest.Length && dest[..j] == EncodeAll(done)
             && (j < dest.Length || dest.Length == 0)
    requires j + EncodeLen(CharAt(src, i)) >= dest.Length
    modifies dest
    ensures total == |EncodeAll(cs)| >= dest.Length
    ensures dest.Length > 0 ==> exists k: nat :: Truncated(dest[..], cs, k)
  {
    hide Chars, Encode, EncodeAll, CharAt, EncodeLen;
    if j < dest.Length { dest[j] := 0; }
    var c, i1 := ReadUnits(src, i);
    EncodeSnoc(done, c);
    WholePrefix(cs, done, c, Chars(src, i1));
    EncodeCons(c, Chars(src, i1));
    TotalLength(cs, done, Chars(src, i));
    total := CountRest(src, i, j);
    assert dest.Length > 0 ==> Truncated(dest[..], cs, |done|);
  }

  lemma NothingEncoded()
    ensures EncodeAll([]) == []
  {
  }

  lemma NothingLeft(src: seq<CodePoint>)
    ensures Chars(src, |src|) == []
  {
  }

  lemma WholePrefix(cs: seq<CodePoint>, done: seq<CodePoint>, c: CodePoint, rest: seq<CodePoint>)
    requires cs == done + ([c] + rest)
    ensures |done| < |cs| && cs[..|done|] == done && cs[..|done| + 1] == done + [c]
  {
  }

  lemma TotalLength(cs: seq<CodePoint>, done: seq<CodePoint>, rest: seq<CodePoint>)
    requires cs == done + rest
    ensures |EncodeAll(cs)| == |EncodeAll(done)| + |EncodeAll(rest)|
  {
    EncodeConcat(done, rest);
  }

  /** The second loop: only the length is computed. */
  method CountRest(src: seq<CodePoint>, i0: nat, j0: nat) returns (j: nat)
    requires i0 <= |src|
    ensures j == j0 + |EncodeAll(Chars(src, i0))|
  {
    hide Chars, Encode, EncodeAll, CharAt;
    var i := i0;
    j := j0;
    while i < |src|
      invariant i <= |src| && j + |EncodeAll(Chars(src, i))| == j0 + |EncodeAll(Chars(src, i0))|
    {
      var c, i1 := ReadUnits(src, i);
      EncodeCons(c, Chars(src, i1));
      j := j + EncodeLen(c);
      i := i1;
    }
    NothingLeft(src);
    NothingEncoded();
  }

  lemma EncodeCons(c: CodePoint, rest: seq<CodePoint>)
    ensures EncodeAll([c] + rest) == Encode(c) + EncodeAll(rest)
  {
    hide Encode;
    assert ([c] + rest)[1..] == rest;
  }

  /* ----- decoding into units ----- */

  lemma {:induction false} UnitsSnoc(a: seq<CodePoint>, c: CodePoint)
    ensures Units(a + [c]) == Units(a) + Units([c])
    decreases |a|
  {
    if a == [] {
      assert a + [c] == [c];
    } else {
      assert (a + [c])[1..] == a[1..] + [c];
      UnitsSnoc(a[1..], c);
    }
  }

  lemma UnitsOfOne(c: CodePoint)
    ensures Units([c]) == if c >= 0x10000 then [0xd800 + (c - 0x10000) / 0x400, 0xdc00 + (c - 0x10000) % 0x400] else [c]
  {
    assert [c][1..] == [];
  }

  function HiSurrogate(c: CodePoint): CodePoint
    requires c > 0xffff
  {
    c / 0x400 - 0x10000 / 0x400 + 0xd800
  }

  function LoSurrogate(c: CodePoint): CodePoint { c % 0x400 + 0xdc00 }

  lemma DecodeStep(src: seq<byte>, p: nat)
    requires p < |src|
    ensures DecodeAll(src[p..]) == [DecodeLen(src[p..]).0] + DecodeAll(src[p + DecodeLen(src[p..]).1..])
  {
    hide DecodeLen;
    assert src[p..][DecodeLen(src[p..]).1..] == src[p + DecodeLen(src[p..]).1..];
  }

  ghost predicate Written(dest: seq<CodePoint>, units: seq<CodePoint>) {
    forall k :: 0 <= k < |units| && k < |dest| ==> dest[k] == units[k]
  }

  /** utf8_decode_buf16: as many units as fit are stored, and all of them are counted. */
  method DecodeBuf16(dest: array<CodePoint>, src: seq<byte>) returns (i: nat)
    modifies dest
    ensures i == |Units(DecodeAll(src))| && Written(dest[..], Units(DecodeAll(src)))
  {
    hide DecodeLen, DecodeAll, Units, Written;
    ghost var done: seq<CodePoint> := [];
    var p := 0;
    i := 0;
    assert src[0..] == src;
    NoUnits();
    NoneWritten(dest[..]);
    while p < |src|
      invariant p <= |src| && done + DecodeAll(src[p..]) == DecodeAll(src)
      invariant i == |Units(done)| && Written(dest[..], Units(done))
    {
      DecodeNext(src, p, done);
      var (c, n) := DecodeLen(src[p..]);
      i := PutUnits(dest, i, c, done);
      p := p + n;
      done := done + [c];
    }
    assert src[p..] == [];
    NoUnits();
    assert done == DecodeAll(src);
  }

  lemma DecodeNext(src: seq<byte>, p: nat, done: seq<CodePoint>)
    requires p < |src|
    ensures var (c, n) := DecodeLen(src[p..]);
            done + [c] + DecodeAll(src[p + n..]) == done + DecodeAll(src[p..])
  {
    hide DecodeLen, DecodeAll;
    var (c, n) := DecodeLen(src[p..]);
    DecodeStep(src, p);
    assert done + ([c] + DecodeAll(src[p + n..])) == done + [c] + DecodeAll(src[p + n..]);
  }

  /** One code point, as one unit or two. */
  method PutUnits(dest: array<CodePoint>, i0: nat, c: CodePoint, ghost done: seq<CodePoint>) returns (i: nat)
    requires i0 == |Units(done)| && Written(dest[..], Units(done))
    modifies dest
    ensures i == |Units(done + [c])| && Written(dest[..], Units(done + [c]))
  {
    hide Units, Written;
    i := i0;
    var unit := c;
    ghost var before := Units(done);
    UnitsSnoc(done, c);
    UnitsOfOne(c);
    if c > 0xffff {
      SurrogatesOf(c);
      assert before + ([HiSurrogate(c)] + [LoSurrogate(c)]) == before + [HiSurrogate(c)] + [LoSurrogate(c)];
      Put(dest, i, HiSurrogate(c), before);
      before := before + [HiSurrogate(c)];
      i := i + 1;
      unit := LoSurrogate(c);
    }
    Put(dest, i, unit, before);
    i := i + 1;
  }

  /** Store a unit if there is room for it. */
  method Put(dest: array<CodePoint>, i: nat, c: CodePoint, ghost before: seq<CodePoint>)
    requires i == |before| && Written(dest[..], before)
    modifies dest
    ensures Written(dest[..], before + [c])
  {
    if i < dest.Length { dest[i] := c; }
  }

  lemma NoneWritten(dest: seq<CodePoint>)
    ensures Written(dest, [])
  {
  }

  lemma SurrogatesOf(c: CodePoint)
    requires c > 0xffff
    ensures [0xd800 + (c - 0x10000) / 0x400, 0xdc00 + (c - 0x10000) % 0x400] == [HiSurrogate(c)] + [LoSurrogate(c)]
  {
  }

  lemma NoUnits()
    ensures Units([]) == [] && DecodeAll([]) == []
  {
  }

  datatype Kind = Kind(nonAscii: bool, has16: bool, nonBmp: bool, errors: bool)

  /** Some position of the decode meets an encoding error. */
  ghost predicate HasError(s: seq<byte>)
    decreases |s|
  {
    s != [] && ((s[0] >= 0x80 && DecodeLen(s).1 == 1) || HasError(s[DecodeLen(s).1..]))
  }

  ghost predicate Plain(s: seq<byte>) { forall k :: 0 <= k < |s| ==> s[k] < 0x80 }

  lemma {:induction false} PlainUnits(s: seq<byte>)
    requires Plain(s)
    ensures |Units(DecodeAll(s))| == |s|
    decreases |s|
  {
    if s != [] {
      PlainUnits(s[1..]);
      assert DecodeAll(s) == [DecodeLen(s).0] + DecodeAll(s[1..]);
      var cs := DecodeAll(s);
      assert cs[0] < 0x80 && cs[1..] == DecodeAll(s[1..]);
    }
  }

  /** utf8_scan: it counts the units that decoding produces and says what they need. */
  method Scan(buf: seq<byte>) returns (kind: Kind, len: nat)
    ensures len == |Units(DecodeAll(buf))|
    ensures kind.nonAscii <==> !Plain(buf)
    ensures !Plain(buf) ==>
              && (kind.errors <==> HasError(buf))
              && (kind.has16 <==> Beyond(DecodeAll(buf), 0xff))
              && (kind.nonBmp <==> Beyond(DecodeAll(buf), 0xffff))
  {
    hide DecodeLen, DecodeAll, Units, HasError, Plain, Beyond;
    var plain := ScanAscii(buf);
    if plain {
      PlainUnits(buf);
      return Kind(false, false, false, false), |buf|;
    }
    ghost var done: seq<CodePoint> := [];
    var p, has16, nonBmp, errors := 0, false, false, false;
    len := 0;
    assert buf[0..] == buf;
    NoUnits();
    NoneBeyond();
    while p < |buf|
      invariant p <= |buf| && done + DecodeAll(buf[p..]) == DecodeAll(buf) && len == |Units(done)|
      invariant (errors || HasError(buf[p..])) == HasError(buf)
      invariant has16 == Beyond(done, 0xff) && nonBmp == Beyond(done, 0xffff)
    {
      DecodeStep(buf, p);
      ErrorStep(buf, p);
      var (c, n) := DecodeLen(buf[p..]);
      UnitsSnoc(done, c);
      UnitsOfOne(c);
      AsciiByte(buf[p..]);
      BeyondMore(done, c, 0xff);
      BeyondMore(done, c, 0xffff);
      len := len + 1;
      if buf[p] >= 0x80 {
        if n == 1 { errors := true; }
        if c > 0xff {
          has16 := true;
          if c > 0xffff {
            len := len + 1;
            nonBmp := true;
          }
        }
      }
      done := done + [c];
      p := p + n;
    }
    assert buf[p..] == [];
    NoUnits();
    assert done == DecodeAll(buf);
    NoErrors();
    kind := Kind(true, has16, nonBmp, errors);
  }

  /** The first loop: are there only ASCII bytes? */
  method ScanAscii(buf: seq<byte>) returns (plain: bool)
    ensures plain == Plain(buf)
  {
    plain := true;
    var i := 0;
    while i < |buf|
      invariant 0 <= i <= |buf| && plain == Plain(buf[..i])
    {
      assert buf[..i + 1] == buf[..i] + [buf[i]];
      if buf[i] >= 0x80 { plain := false; }
      i := i + 1;
    }
    assert buf[..i] == buf;
  }

  /** Some code point is beyond the limit. */
  ghost predicate Beyond(cs: seq<CodePoint>, limit: nat) { exists k :: 0 <= k < |cs| && cs[k] > limit }

  lemma NoneBeyond()
    ensures !Beyond([], 0xff) && !Beyond([], 0xffff)
  {
  }

  lemma BeyondMore(cs: seq<CodePoint>, c: CodePoint, limit: nat)
    ensures Beyond(cs + [c], limit) == (Beyond(cs, limit) || c > limit)
  {
    assert (cs + [c])[|cs|] == c;
    if k :| 0 <= k < |cs| && cs[k] > limit { assert (cs + [c])[k] == cs[k]; }
  }

  lemma AsciiByte(s: seq<byte>)
    requires s != []
    ensures s[0] < 0x80 ==> DecodeLen(s) == (s[0], 1)
  {
  }

  lemma NoErrors()
    ensures !HasError([])
  {
  }

  lemma ErrorStep(buf: seq<byte>, p: nat)
    requires p < |buf|
    ensures HasError(buf[p..]) <==>
              (buf[p] >= 0x80 && DecodeLen(buf[p..]).1 == 1) || HasError(buf[p + DecodeLen(buf[p..]).1..])
  {
    hide DecodeLen;
    assert buf[p..][DecodeLen(buf[p..]).1..] == buf[p + DecodeLen(buf[p..]).1..];
  }
}
