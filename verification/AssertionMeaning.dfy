/** What the zero-width tests and the character sets built into the engine mean, in
    terms of lookarounds and explicit classes. */
module AssertionMeaning {
  import opened Syntax
  import opened Semantics

  /** The word characters of ECMA-262: 0-9, A-Z, _ and a-z, and the two characters that
      fold into them. */
  function WordClass(icase: bool): CharTest {
    var folded := if icase then [0x17f, 0x180, 0x212a, 0x212b] else [];
    Class([0x30, 0x3a, 0x41, 0x5b, 0x5f, 0x60, 0x61, 0x7b] + folded, false)
  }

  /** Everything outside LF, CR, U+2028 and U+2029. */
  function LineClass(): CharTest {
    Class([0, 0x0a, 0x0b, 0x0d, 0x0e, 0x2028, 0x202a, UINT32_MAX], false)
  }

  function AnyClass(): CharTest { Class([0, UINT32_MAX], false) }

  function Ahead(n: Node): Node { Look(false, false, n) }

  function NotAhead(n: Node): Node { Look(false, true, n) }

  function Behind(n: Node): Node { Look(true, false, n) }

  function NotBehind(n: Node): Node { Look(true, true, n) }

  /* ----- the sets ----- */

  /** Membership, one interval at a time. */
  function InList(points: seq<nat>, c: nat): bool
    decreases |points|
  {
    |points| >= 2 && (points[0] <= c < points[1] || InList(points[2..], c))
  }

  lemma {:induction false} InListIsInPoints(points: seq<nat>, c: nat)
    ensures InList(points, c) <==> InPoints(points, c)
    decreases |points|
  {
    if |points| >= 2 {
      var rest := points[2..];
      InListIsInPoints(rest, c);
      if InPoints(points, c) {
        var i :| 0 <= i < |points| / 2 && Within(points, i, c);
        if i > 0 { assert Within(rest, i - 1, c); }
      }
      if InPoints(rest, c) {
        var i :| 0 <= i < |rest| / 2 && Within(rest, i, c);
        assert Within(points, i + 1, c);
      }
      if points[0] <= c < points[1] { assert Within(points, 0, c); }
    }
  }

  lemma InPair(lo: nat, hi: nat, rest: seq<nat>, c: nat)
    ensures InList([lo, hi] + rest, c) <==> lo <= c < hi || InList(rest, c)
  {
    assert ([lo, hi] + rest)[2..] == rest;
  }

  lemma WordHolds(w: World, icase: bool, c: CodePoint)
    ensures Holds(w, WordClass(icase), c) <==> IsWordChar(c, icase)
  {
    hide InList;
    var extra: seq<nat> := if icase then [0x17f, 0x180, 0x212a, 0x212b] else [];
    ExtraWord(icase, c);
    InPair(0x61, 0x7b, extra, c);
    InPair(0x5f, 0x60, [0x61, 0x7b] + extra, c);
    InPair(0x41, 0x5b, [0x5f, 0x60] + ([0x61, 0x7b] + extra), c);
    InPair(0x30, 0x3a, [0x41, 0x5b] + ([0x5f, 0x60] + ([0x61, 0x7b] + extra)), c);
    assert WordClass(icase).points == [0x30, 0x3a] + ([0x41, 0x5b] + ([0x5f, 0x60] + ([0x61, 0x7b] + extra)));
    InListIsInPoints(WordClass(icase).points, c);
  }

  lemma ExtraWord(icase: bool, c: nat)
    ensures InList(if icase then [0x17f, 0x180, 0x212a, 0x212b] else [], c) <==> icase && (c == 0x17f || c == 0x212a)
  {
    InPair(0x212a, 0x212b, [], c);
    InPair(0x17f, 0x180, [0x212a, 0x212b] + [], c);
    assert [0x17f, 0x180] + ([0x212a, 0x212b] + []) == [0x17f, 0x180, 0x212a, 0x212b];
  }

  lemma LineHolds(w: World, c: CodePoint)
    ensures Holds(w, LineClass(), c) <==> Holds(w, Dot(false), c)
    ensures Holds(w, AnyClass(), c) && Holds(w, Dot(true), c)
  {
    hide InList;
    NoneInList(c);
    InPair(0x202a, UINT32_MAX, [], c);
    InPair(0x0e, 0x2028, [0x202a, UINT32_MAX] + [], c);
    InPair(0x0b, 0x0d, [0x0e, 0x2028] + ([0x202a, UINT32_MAX] + []), c);
    InPair(0, 0x0a, [0x0b, 0x0d] + ([0x0e, 0x2028] + ([0x202a, UINT32_MAX] + [])), c);
    InPair(0, UINT32_MAX, [], c);
    assert LineClass().points == [0, 0x0a] + ([0x0b, 0x0d] + ([0x0e, 0x2028] + ([0x202a, UINT32_MAX] + [])));
    assert AnyClass().points == [0, UINT32_MAX] + [];
    InListIsInPoints(LineClass().points, c);
    InListIsInPoints(AnyClass().points, c);
  }

  lemma NoneInList(c: nat)
    ensures !InList([], c)
  {
  }

  /* ----- one character ----- */

  lemma SameTest(w: World, s: CharTest, t: CharTest, cap: nat, back: bool, x: State)
    requires x.pos <= |w.text| && cap <= |x.caps| && forall c: CodePoint :: Holds(w, s, c) == Holds(w, t, c)
    ensures Out(w, One(s), cap, back, x) == Out(w, One(t), cap, back, x)
  {
    hide Holds;
  }

  /** `.` is the class of everything but the four line terminators, and of everything
      with the s flag. */
  lemma DotMeans(w: World, cap: nat, back: bool, x: State)
    requires x.pos <= |w.text| && cap <= |x.caps|
    ensures Out(w, One(Dot(false)), cap, back, x) == Out(w, One(LineClass()), cap, back, x)
    ensures Out(w, One(Dot(true)), cap, back, x) == Out(w, One(AnyClass()), cap, back, x)
  {
    hide Holds, Out;
    forall c: CodePoint
      ensures Holds(w, Dot(false), c) == Holds(w, LineClass(), c) && Holds(w, Dot(true), c) == Holds(w, AnyClass(), c)
    {
      LineHolds(w, c);
    }
    SameTest(w, Dot(false), LineClass(), cap, back, x);
    SameTest(w, Dot(true), AnyClass(), cap, back, x);
  }

  /* ----- lookarounds over one character ----- */

  /** Does the character in the direction of the lookaround pass the test? */
  ghost predicate Seen(w: World, behind: bool, t: CharTest, pos: nat)
    requires pos <= |w.text|
  {
    if behind then pos > 0 && Holds(w, t, w.text[pos - 1]) else pos < |w.text| && Holds(w, t, w.text[pos])
  }

  function Only(b: bool, x: State): seq<State> { if b then [x] else [] }

  lemma LookOne(w: World, behind: bool, negative: bool, t: CharTest, cap: nat, back: bool, x: State)
    requires x.pos <= |w.text| && cap <= |x.caps|
    ensures Out(w, Look(behind, negative, One(t)), cap, back, x) == Only(Seen(w, behind, t, x.pos) != negative, x)
  {
    hide Holds;
    assert Out(w, One(t), cap, behind, x) == OneOut(w, t, behind, x);
  }

  lemma OutOfAssert(w: World, a: Assertion, cap: nat, back: bool, x: State)
    requires x.pos <= |w.text| && cap <= |x.caps|
    ensures Out(w, Assert(a), cap, back, x) == Only(AssertionHolds(w, a, x.pos), x)
  {
  }

  /** Two zero-width tests in a row, and two alternatives that are. */
  lemma Both(w: World, l: Node, r: Node, a: bool, b: bool, cap: nat, back: bool, x: State)
    requires Caps(l) == Caps(r) == 0 && x.pos <= |w.text| && cap <= |x.caps|
    requires Out(w, l, cap, back, x) == Only(a, x) && Out(w, r, cap, back, x) == Only(b, x)
    ensures Out(w, Cat(l, r), cap, back, x) == Only(a && b, x)
  {
    hide Out, OutAll;
    OutOfCat(w, Cat(l, r), cap, back, x);
    var trail := if back then l else r;
    AllOfOnly(w, trail, if back then b else a, cap, back, x);
  }

  lemma AllOfOnly(w: World, n: Node, b: bool, cap: nat, back: bool, x: State)
    requires Caps(n) == 0 && x.pos <= |w.text| && cap <= |x.caps| && AllAfter(w, back, cap, cap, x, Only(b, x))
    ensures OutAll(w, n, cap, back, cap, cap, x, Only(b, x)) == if b then Out(w, n, cap, back, x) else []
  {
    hide Out;
    if b { assert [x][1..] == []; }
  }

  /* ----- the assertions ----- */

  /** `(?<=t)(?!t)|(?<!t)(?=t)` */
  function Boundary(t: CharTest): (n: Node)
    ensures Caps(n) == 0
  {
    var one := One(t);
    assert Caps(Behind(one)) == Caps(NotAhead(one)) == Caps(NotBehind(one)) == Caps(Ahead(one)) == 0;
    assert Caps(Cat(Behind(one), NotAhead(one))) == Caps(Cat(NotBehind(one), Ahead(one))) == 0;
    Alt(Cat(Behind(one), NotAhead(one)), Cat(NotBehind(one), Ahead(one)))
  }

  /** `\b` is that for the word characters. */
  lemma WordBoundaryMeans(w: World, icase: bool, cap: nat, back: bool, x: State)
    requires x.pos <= |w.text| && cap <= |x.caps|
    ensures Out(w, Assert(WordBoundary(false, icase)), cap, back, x) == Out(w, Boundary(WordClass(icase)), cap, back, x)
  {
    hide Out, Holds, IsWordChar;
    var t := WordClass(icase);
    var b, a := Seen(w, true, t, x.pos), Seen(w, false, t, x.pos);
    LookOne(w, true, false, t, cap, back, x);
    LookOne(w, false, true, t, cap, back, x);
    LookOne(w, true, true, t, cap, back, x);
    LookOne(w, false, false, t, cap, back, x);
    Both(w, Behind(One(t)), NotAhead(One(t)), b, !a, cap, back, x);
    Both(w, NotBehind(One(t)), Ahead(One(t)), !b, a, cap, back, x);
    OutOfAlt(w, Boundary(t), cap, back, x);
    OutOfAssert(w, WordBoundary(false, icase), cap, back, x);
    if x.pos > 0 { WordHolds(w, icase, w.text[x.pos - 1]); }
    if x.pos < |w.text| { WordHolds(w, icase, w.text[x.pos]); }
  }

  /** `\B` is `(?!\b)`. */
  lemma NotWordBoundaryMeans(w: World, icase: bool, cap: nat, back: bool, x: State)
    requires x.pos <= |w.text| && cap <= |x.caps|
    ensures Out(w, Assert(WordBoundary(true, icase)), cap, back, x)
              == Out(w, NotAhead(Assert(WordBoundary(false, icase))), cap, back, x)
  {
    hide WordAt;
  }

  /** With the m flag `^` is `(?<!.)` and `$` is `(?!.)`, and without it the same for the
      `.` that matches everything. */
  lemma LineMeans(w: World, multiline: bool, cap: nat, back: bool, x: State)
    requires x.pos <= |w.text| && cap <= |x.caps|
    ensures Out(w, Assert(LineStart(multiline)), cap, back, x) == Out(w, NotBehind(One(Dot(!multiline))), cap, back, x)
    ensures Out(w, Assert(LineEnd(multiline)), cap, back, x) == Out(w, NotAhead(One(Dot(!multiline))), cap, back, x)
  {
    hide Out, IsLineTerminator;
    LookOne(w, true, true, Dot(!multiline), cap, back, x);
    LookOne(w, false, true, Dot(!multiline), cap, back, x);
    OutOfAssert(w, LineStart(multiline), cap, back, x);
    OutOfAssert(w, LineEnd(multiline), cap, back, x);
  }

  /** `\S` is everything that `\s` is not. */
  lemma NotSpaceMeans(w: World, cap: nat, x: State)
    requires x.pos <= |w.text| && cap <= |x.caps|
    ensures Out(w, One(Space(true)), cap, false, x)
              == Out(w, Cat(NotAhead(One(Space(false))), One(AnyClass())), cap, false, x)
  {
    hide Out, OutAll, Holds;
    var space, any := One(Space(false)), One(AnyClass());
    LookOne(w, false, true, Space(false), cap, false, x);
    OutOfCat(w, Cat(NotAhead(space), any), cap, false, x);
    var b := !Seen(w, false, Space(false), x.pos);
    AllOfOnly(w, any, b, cap, false, x);
    OneIs(w, Space(true), cap, x);
    OneIs(w, AnyClass(), cap, x);
    if x.pos < |w.text| {
      LineHolds(w, w.text[x.pos]);
      SpaceHolds(w, w.text[x.pos]);
    }
  }

  lemma OneIs(w: World, t: CharTest, cap: nat, x: State)
    requires x.pos <= |w.text| && cap <= |x.caps|
    ensures Out(w, One(t), cap, false, x)
              == if x.pos < |w.text| && Holds(w, t, w.text[x.pos]) then [x.(pos := x.pos + 1)] else []
  {
    hide Holds;
  }

  lemma SpaceHolds(w: World, c: CodePoint)
    ensures Holds(w, Space(true), c) <==> !Holds(w, Space(false), c)
  {
  }
}
