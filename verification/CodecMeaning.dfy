/** What the decoders accept, stated through the encoders: UTF-8 exactly, 16-bit units
    for every scalar value, and CESU-8 for bytes that nobody encoded. */
module CodecMeaning {
  import opened Syntax
  import opened Semantics
  import opened Machine
  import opened Encoding
  import opened Utf16
  import opened Utf8
  import opened Wrapper

  /* ----- 16-bit units ----- */

  /** Unicode scalar values: no surrogates among them. */
  ghost predicate Scalars(cs: seq<CodePoint>) { forall i :: 0 <= i < |cs| ==> cs[i] < 0xd800 || 0xe000 <= cs[i] }

  lemma {:induction false} UnitsRead(u: seq<CodePoint>, p: nat, cs: seq<CodePoint>)
    requires p <= |u| && u[p..] == Units(cs) && Scalars(cs)
    ensures Chars(u, p) == cs
    decreases |cs|
  {
    hide Units;
    FirstUnits(cs);
    if cs != [] {
      var c, rest := cs[0], Units(cs[1..]);
      var n := if c >= 0x10000 then 2 else 1;
      assert u[p..][n..] == rest && u[p + n..] == u[p..][n..];
      assert u[p] == u[p..][0];
      if n == 2 {
        assert u[p + 1] == u[p..][1];
        SurrogatesJoin(c);
      }
      UnitsRead(u, p + n, cs[1..]);
    }
  }

  lemma FirstUnits(cs: seq<CodePoint>)
    ensures cs == [] ==> Units(cs) == []
    ensures cs != [] ==>
              Units(cs) == (if cs[0] >= 0x10000
                            then [0xd800 + (cs[0] - 0x10000) / 0x400, 0xdc00 + (cs[0] - 0x10000) % 0x400]
                            else [cs[0]]) + Units(cs[1..])
  {
  }

  lemma SurrogatesJoin(c: CodePoint)
    requires c >= 0x10000
    ensures var hi, lo := 0xd800 + (c - 0x10000) / 0x400, 0xdc00 + (c - 0x10000) % 0x400;
            IsHi(hi) && IsLo(lo) && FromSurrogates(hi, lo) == c
  {
  }

  /** Scalar values survive being written as 16-bit units and read back: every pair of
      surrogates is joined and nothing else is. */
  lemma ScalarsSurvive(cs: seq<CodePoint>)
    requires Scalars(cs)
    ensures Chars(Units(cs), 0) == cs
  {
    var u := Units(cs);
    assert u[0..] == u;
    UnitsRead(u, 0, cs);
  }

  /* ----- UTF-8 ----- */

  /** Decoding accepts exactly what encoding produces: the first bytes are the encoding
      of the code point, or no encoding starts the bytes and one of them is skipped. */
  lemma DecodeExactly(s: seq<byte>)
    requires s != []
    ensures var (c, n) := DecodeLen(s);
            || (n == EncodeLen(c) && s[..n] == Encode(c))
            || ((c, n) == (0xfffd, 1) && forall d: CodePoint :: !(Encode(d) <= s))
  {
    hide Encode, DecodeLen, EncodeLen;
    var (c, n) := DecodeLen(s);
    if Accepted(s) {
      AcceptedIsEncoded(s);
    } else {
      NotAccepted(s);
      forall d: CodePoint ensures !(Encode(d) <= s) {
        if Encode(d) <= s { StartsEncoded(s, d); }
      }
    }
  }

  /** The decoder did not fall through to the error case. */
  predicate Accepted(s: seq<byte>)
    requires s != []
  {
    DecodeLen(s).1 > 1 || s[0] < 0x80
  }

  lemma NotAccepted(s: seq<byte>)
    requires s != [] && !Accepted(s)
    ensures DecodeLen(s) == (0xfffd, 1)
  {
  }

  lemma StartsEncoded(s: seq<byte>, d: CodePoint)
    requires Encode(d) <= s && s != []
    ensures Accepted(s)
  {
    hide Encode, DecodeLen;
    var rest := s[|Encode(d)|..];
    assert s == Encode(d) + rest;
    DecodeFirst(d, rest);
    if d < 0x80 { SmallIsByte(d, s); }
  }

  lemma SmallIsByte(d: CodePoint, s: seq<byte>)
    requires d < 0x80 && Encode(d) <= s
    ensures s[0] == d
  {
  }

  lemma AcceptedIsEncoded(s: seq<byte>)
    requires s != [] && Accepted(s)
    ensures var (c, n) := DecodeLen(s); n == EncodeLen(c) && s[..n] == Encode(c)
  {
    hide Encode, DecodeLen, EncodeLen;
    LengthOfDecoded(s);
    var n := DecodeLen(s).1;
    if n == 1 {
      OneByte(s);
    } else if n == 2 {
      TwoBytes(s);
    } else if n == 3 {
      ThreeBytes(s);
    } else {
      FourBytes(s);
    }
  }

  lemma LengthOfDecoded(s: seq<byte>)
    requires s != []
    ensures 1 <= DecodeLen(s).1 <= 4
  {
  }

  lemma OneByte(s: seq<byte>)
    requires s != [] && s[0] < 0x80
    ensures var (c, n) := DecodeLen(s); n == 1 == EncodeLen(c) && s[..1] == Encode(c)
  {
  }

  lemma TwoBytes(s: seq<byte>)
    requires s != [] && DecodeLen(s).1 == 2
    ensures var (c, n) := DecodeLen(s); 2 == EncodeLen(c) && s[..2] == Encode(c)
  {
    var h: nat, l: nat := s[0] - 0xc0, s[1] - 0x80;
    assert (h * 0x40 + l) / 0x40 == h && (h * 0x40 + l) % 0x40 == l;
  }

  lemma ThreeBytes(s: seq<byte>)
    requires s != [] && DecodeLen(s).1 == 3
    ensures var (c, n) := DecodeLen(s); 3 == EncodeLen(c) && s[..3] == Encode(c)
  {
    hide Encode, EncodeLen;
    var h: nat, m: nat, l: nat := s[0] - 0xe0, s[1] - 0x80, s[2] - 0x80;
    var c := DecodeLen(s).0;
    assert c == h * 0x1000 + m * 0x40 + l && c >= 0x800;
    DigitsOf3(h, m, l);
    EncodeThree(c);
    LengthIs(c);
  }

  lemma FourBytes(s: seq<byte>)
    requires s != [] && DecodeLen(s).1 == 4
    ensures var (c, n) := DecodeLen(s); 4 == EncodeLen(c) && s[..4] == Encode(c)
  {
    hide Encode, EncodeLen;
    var h: nat, m: nat, n: nat, l: nat := s[0] - 0xf0, s[1] - 0x80, s[2] - 0x80, s[3] - 0x80;
    var c := DecodeLen(s).0;
    assert c == h * 0x40000 + m * 0x1000 + n * 0x40 + l && c >= 0x10000;
    DigitsOf4(h, m, n, l);
    EncodeFour(c);
    LengthIs(c);
  }

  lemma LengthIs(c: CodePoint)
    ensures EncodeLen(c) == if c < 0x80 then 1 else if c < 0x800 then 2 else if c < 0x10000 then 3 else 4
  {
  }

  lemma DigitsOf3(h: nat, m: nat, l: nat)
    requires m < 0x40 && l < 0x40
    ensures var c := h * 0x1000 + m * 0x40 + l; c / 0x1000 == h && c / 0x40 % 0x40 == m && c % 0x40 == l
  {
    var c := h * 0x1000 + m * 0x40 + l;
    assert c / 0x40 == h * 0x40 + m;
  }

  lemma DigitsOf4(h: nat, m: nat, n: nat, l: nat)
    requires m < 0x40 && n < 0x40 && l < 0x40
    ensures var c := h * 0x40000 + m * 0x1000 + n * 0x40 + l;
            c / 0x40000 == h && c / 0x1000 % 0x40 == m && c / 0x40 % 0x40 == n && c % 0x40 == l
  {
    var c := h * 0x40000 + m * 0x1000 + n * 0x40 + l;
    assert c / 0x40 == h * 0x1000 + m * 0x40 + n;
    assert c / 0x1000 == h * 0x40 + m;
  }

  /** A value beyond Unicode is encoded as the replacement character. */
  lemma BeyondUnicode(c: nat)
    requires c > 0x10ffff
    ensures Encode(c) == Encode(0xfffd)
  {
  }

  /* ----- CESU-8 that nobody encoded ----- */

  /** decode_utf8_unit on any bytes: a lead byte takes the low six bits of the bytes that
      follow, whatever they are, ... */
  lemma RawTwo(c: nat, b: byte, rest: seq<byte>)
    requires c < 0x800 && b % 0x40 == c % 0x40
    ensures DecodeUnit([0xc0 + c / 0x40, b] + rest) == (c, 2)
  {
    var s: seq<byte> := [0xc0 + c / 0x40, b] + rest;
    assert s[0] == 0xc0 + c / 0x40 && s[1] == b;
  }

  lemma RawThree(c: nat, b: byte, b': byte, rest: seq<byte>)
    requires c <= 0xffff && b % 0x40 == c / 0x40 % 0x40 && b' % 0x40 == c % 0x40
    ensures DecodeUnit([0xe0 + c / 0x1000, b, b'] + rest) == (c, 3)
  {
    var s: seq<byte> := [0xe0 + c / 0x1000, b, b'] + rest;
    assert s[0] == 0xe0 + c / 0x1000 && s[1] == b && s[2] == b';
    assert c == c / 0x1000 * 0x1000 + c / 0x40 % 0x40 * 0x40 + c % 0x40;
  }

  /** ... and any other byte, or a lead byte too close to the end, stands for itself. */
  lemma RawOne(s: seq<byte>)
    requires s != []
    requires 0xc0 <= s[0] <= 0xdf ==> |s| < 2
    requires 0xe0 <= s[0] <= 0xef ==> |s| < 3
    ensures DecodeUnit(s) == (s[0], 1)
  {
    var b: nat := s[0];
    assert b / 0x20 == 6 <==> 0xc0 <= b <= 0xdf;
    assert b / 0x10 == 14 <==> 0xe0 <= b <= 0xef;
  }
}
