/** Classes that also match strings (the `v` flag): re_emit_string_list lays them out
    as a chain of alternatives, longest string first, whose final jumps are linked
    through their own operands until the end is known. */
module ClassStrings {
  import opened Syntax
  import opened Semantics
  import opened Bytecode
  import opened Compiler
  import opened Encoding
  import opened EmittedBytes

  /** A class: strings of two or more characters in the order in which they are tried,
      single characters, and possibly the empty string. */
  datatype StringList = StringList(strings: seq<seq<CodePoint>>, points: seq<nat>, hasEmpty: bool)

  function StringNode(s: seq<CodePoint>, icase: bool): (n: Node)
    ensures Caps(n) == 0
  {
    if s == [] then Empty else Cat(StringNode(s[..|s| - 1], icase), One(Literal(s[|s| - 1], icase)))
  }

  function Chain(strings: seq<seq<CodePoint>>, icase: bool, last: Node): (n: Node)
    requires Caps(last) == 0
    ensures Caps(n) == 0
  {
    if strings == [] then last else Alt(StringNode(strings[0], icase), Chain(strings[1..], icase, last))
  }

  /** What comes after the strings. */
  function CharsNode(sl: StringList, icase: bool): (n: Node)
    ensures Caps(n) == 0
  {
    if sl.points == [] then Empty
    else if sl.hasEmpty then Repeat(One(Class(sl.points, icase)), 0, Finite(1), true)
    else One(Class(sl.points, icase))
  }

  /** The class as a node. */
  function ListNode(sl: StringList, icase: bool): (n: Node)
    ensures Caps(n) == 0
  {
    var k := |sl.strings|;
    if k == 0 && !sl.hasEmpty then One(Class(sl.points, icase))
    else if sl.points == [] && !sl.hasEmpty then Chain(sl.strings[..k - 1], icase, StringNode(sl.strings[k - 1], icase))
    else Chain(sl.strings, icase, CharsNode(sl, icase))
  }

  /* ----- what a class with strings matches ----- */

  /** The strings that start at `x`, in order, then one character, then nothing. */
  predicate StartsWith(w: World, icase: bool, s: seq<CodePoint>, pos: nat) {
    pos + |s| <= |w.text| && SameText(w, icase, w.text[pos..pos + |s|], s)
  }

  function StringOuts(w: World, icase: bool, strings: seq<seq<CodePoint>>, x: State): seq<State> {
    if strings == [] then []
    else (if StartsWith(w, icase, strings[0], x.pos) then [x.(pos := x.pos + |strings[0]|)] else [])
         + StringOuts(w, icase, strings[1..], x)
  }

  function ListOuts(w: World, sl: StringList, icase: bool, x: State): seq<State>
    requires x.pos <= |w.text|
  {
    StringOuts(w, icase, sl.strings, x)
    + OneOut(w, Class(sl.points, icase), false, x)
    + if sl.hasEmpty then [x] else []
  }

  lemma {:induction false} StringMeans(w: World, s: seq<CodePoint>, icase: bool, cap: nat, x: State)
    requires x.pos <= |w.text| && cap <= |x.caps|
    ensures Out(w, StringNode(s, icase), cap, false, x) == if StartsWith(w, icase, s, x.pos) then
              [x.(pos := x.pos + |s|)] else []
    decreases |s|
  {
    hide Fold, Out, StartsWith;
    if s == [] {
      EmptyString(w, icase, cap, x);
    } else {
      var k := |s| - 1;
      StringMeans(w, s[..k], icase, cap, x);
      StartsWithSnoc(w, icase, s, x.pos);
      LastCharacter(w, s, icase, cap, x);
    }
  }

  lemma EmptyString(w: World, icase: bool, cap: nat, x: State)
    requires x.pos <= |w.text| && cap <= |x.caps|
    ensures Out(w, StringNode([], icase), cap, false, x) == [x] && StartsWith(w, icase, [], x.pos)
  {
  }

  /** The last character after the rest of the string. */
  lemma LastCharacter(w: World, s: seq<CodePoint>, icase: bool, cap: nat, x: State)
    requires s != [] && x.pos <= |w.text| && cap <= |x.caps|
    requires var k := |s| - 1;
             Out(w, StringNode(s[..k], icase), cap, false, x)
               == if StartsWith(w, icase, s[..k], x.pos) then [x.(pos := x.pos + k)] else []
    ensures var k := |s| - 1;
            var p := x.pos + k;
            Out(w, StringNode(s, icase), cap, false, x)
              == if StartsWith(w, icase, s[..k], x.pos) && p < |w.text|
                    && Fold(w, icase, w.text[p]) == Fold(w, icase, s[k])
                 then [x.(pos := p + 1)] else []
  {
    hide Fold, Out, OutAll;
    var k, n := |s| - 1, StringNode(s, icase);
    assert n.right == One(Literal(s[k], icase)) && n.left == StringNode(s[..k], icase);
    OutOfCat(w, n, cap, false, x);
    if StartsWith(w, icase, s[..k], x.pos) {
      var y := x.(pos := x.pos + k);
      OneAll(w, n.right, cap, x, y);
      OutOfOne(w, Literal(s[k], icase), cap, y);
    } else {
      NoneAll(w, n.right, cap, x);
    }
  }

  lemma OneAll(w: World, n: Node, cap: nat, x: State, y: State)
    requires Caps(n) == 0 && cap <= |x.caps| && After(w, false, cap, cap, x, y) && AllAfter(w, false, cap, cap, x, [y])
    ensures OutAll(w, n, cap, false, cap, cap, x, [y]) == Out(w, n, cap, false, y)
  {
    hide Out;
    NoneAll(w, n, cap, x);
    assert [y][1..] == [];
  }

  lemma NoneAll(w: World, n: Node, cap: nat, x: State)
    requires Caps(n) == 0 && cap <= |x.caps|
    ensures OutAll(w, n, cap, false, cap, cap, x, []) == []
  {
  }

  lemma StartsWithSnoc(w: World, icase: bool, s: seq<CodePoint>, pos: nat)
    requires s != [] && pos <= |w.text|
    ensures var k := |s| - 1;
            StartsWith(w, icase, s, pos) <==>
            StartsWith(w, icase, s[..k], pos) && pos + k < |w.text|
            && Fold(w, icase, w.text[pos + k]) == Fold(w, icase, s[k])
  {
    hide Fold;
    var k := |s| - 1;
    if pos + |s| <= |w.text| {
      var t := w.text[pos..pos + |s|];
      assert t[..k] == w.text[pos..pos + k];
      if StartsWith(w, icase, s, pos) { assert Fold(w, icase, t[k]) == Fold(w, icase, s[k]); }
      if StartsWith(w, icase, s[..k], pos) {
        forall i | 0 <= i < k ensures Fold(w, icase, t[i]) == Fold(w, icase, s[i]) {
          assert t[..k][i] == t[i] && s[..k][i] == s[i];
        }
      }
      assert t[k] == w.text[pos + k];
    }
  }

  lemma {:induction false} ChainMeans(w: World, strings: seq<seq<CodePoint>>, icase: bool, last: Node, cap: nat,
                                      x: State)
    requires Caps(last) == 0 && x.pos <= |w.text| && cap <= |x.caps|
    ensures Out(w, Chain(strings, icase, last), cap, false, x)
              == StringOuts(w, icase, strings, x) + Out(w, last, cap, false, x)
    decreases |strings|
  {
    hide StartsWith, StringNode, Out;
    if strings != [] {
      OutOfAlt(w, Chain(strings, icase, last), cap, false, x);
      StringMeans(w, strings[0], icase, cap, x);
      ChainMeans(w, strings[1..], icase, last, cap, x);
    }
  }

  lemma OptionalMeans(w: World, t: CharTest, cap: nat, x: State)
    requires x.pos <= |w.text| && cap <= |x.caps|
    ensures Out(w, Repeat(One(t), 0, Finite(1), true), cap, false, x) == OneOut(w, t, false, x) + [x]
  {
    hide Holds, RepAll, OneOut;
    var n := Repeat(One(t), 0, Finite(1), true);
    var ys := OneOut(w, t, false, x);
    assert ResetCaps(x.caps, cap, cap) == x.caps;
    OutOfOne(w, t, cap, x);
    assert Reset(x, cap, cap + Caps(n)) == x;
    assert Iterate(w, n, cap, false, 0, Finite(1), x) == RepAll(w, n, cap, false, 0, Finite(1), x, ys);
    OptionalOnce(w, t, cap, x);
  }

  lemma OptionalOnce(w: World, t: CharTest, cap: nat, x: State)
    requires x.pos <= |w.text| && cap <= |x.caps|
    ensures var n, ys := Repeat(One(t), 0, Finite(1), true), OneOut(w, t, false, x);
            RepAll(w, n, cap, false, 0, Finite(1), x, ys) == ys
  {
    hide Holds, Out;
    var n, ys := Repeat(One(t), 0, Finite(1), true), OneOut(w, t, false, x);
    if ys != [] {
      assert ys == [ys[0]];
      assert RepAll(w, n, cap, false, 0, Finite(1), x, ys) == RepNext(w, n, cap, false, 0, Finite(1), x, ys[0]) + [];
      assert RepNext(w, n, cap, false, 0, Finite(1), x, ys[0]) == [ys[0]];
    }
  }

  lemma NoOuts(w: World, icase: bool, x: State)
    ensures StringOuts(w, icase, [], x) == []
  {
  }

  function FirstOuts(w: World, icase: bool, s: seq<CodePoint>, x: State): seq<State> {
    if StartsWith(w, icase, s, x.pos) then [x.(pos := x.pos + |s|)] else []
  }

  lemma FirstOut(w: World, icase: bool, strings: seq<seq<CodePoint>>, x: State)
    requires strings != []
    ensures StringOuts(w, icase, strings, x) == FirstOuts(w, icase, strings[0], x)
              + StringOuts(w, icase, strings[1..], x)
  {
    hide StartsWith;
  }

  lemma {:induction false} StringOutsSnoc(w: World, icase: bool, strings: seq<seq<CodePoint>>, x: State)
    requires strings != []
    ensures var k := |strings| - 1;
            StringOuts(w, icase, strings, x) == StringOuts(w, icase, strings[..k], x)
              + StringOuts(w, icase, [strings[k]], x)
    decreases |strings|
  {
    hide StartsWith, StringOuts;
    var k := |strings| - 1;
    if k == 0 {
      assert strings == [strings[0]] && strings[..0] == [];
      NoOuts(w, icase, x);
    } else {
      var rest := strings[1..];
      StringOutsSnoc(w, icase, rest, x);
      assert rest[..k - 1] == strings[..k][1..] && rest[k - 1] == strings[k];
      FirstOut(w, icase, strings, x);
      FirstOut(w, icase, strings[..k], x);
      var f, a, b := FirstOuts(w, icase, strings[0], x), StringOuts(w, icase, rest[..k - 1], x),
        StringOuts(w, icase, [strings[k]], x);
      assert f + (a + b) == f + a + b;
    }
  }

  lemma NoCharacters(w: World, icase: bool, x: State)
    requires x.pos <= |w.text|
    ensures OneOut(w, Class([], icase), false, x) == []
  {
  }

  /** A class with strings tries the strings in order, then one character, then the
      empty string. */
  lemma ListMeans(w: World, sl: StringList, icase: bool, cap: nat, x: State)
    requires x.pos <= |w.text| && cap <= |x.caps|
    ensures Out(w, ListNode(sl, icase), cap, false, x) == ListOuts(w, sl, icase, x)
  {
    hide Out, OneOut, StartsWith, StringNode, Chain, StringOuts;
    var k := |sl.strings|;
    NoStrings(w, icase, x);
    OutOfOne(w, Class(sl.points, icase), cap, x);
    if k == 0 && !sl.hasEmpty {
    } else if sl.points == [] && !sl.hasEmpty {
      ChainMeans(w, sl.strings[..k - 1], icase, StringNode(sl.strings[k - 1], icase), cap, x);
      StringMeans(w, sl.strings[k - 1], icase, cap, x);
      StringOutsSnoc(w, icase, sl.strings, x);
      OneString(w, icase, sl.strings[k - 1], x);
      NoCharacters(w, icase, x);
    } else {
      ChainMeans(w, sl.strings, icase, CharsNode(sl, icase), cap, x);
      if sl.points == [] {
        NoCharacters(w, icase, x);
      } else if sl.hasEmpty {
        OptionalMeans(w, Class(sl.points, icase), cap, x);
      }
    }
  }

  lemma NoStrings(w: World, icase: bool, x: State)
    ensures StringOuts(w, icase, [], x) == []
  {
  }

  lemma OneString(w: World, icase: bool, s: seq<CodePoint>, x: State)
    ensures StringOuts(w, icase, [s], x) == if StartsWith(w, icase, s, x.pos) then [x.(pos := x.pos + |s|)] else []
  {
    hide StartsWith;
  }

  lemma OutOfOne(w: World, t: CharTest, cap: nat, x: State)
    requires x.pos <= |w.text| && cap <= |x.caps|
    ensures Out(w, One(t), cap, false, x) == OneOut(w, t, false, x) && Out(w, Empty, cap, false, x) == [x]
  {
  }

  /** The strings as rqsort leaves them: longest first, none shorter than two. */
  ghost predicate LongestFirst(strings: seq<seq<CodePoint>>) {
    && (forall i :: 0 <= i < |strings| ==> |strings[i]| >= 2)
    && (forall i, j :: 0 <= i < j < |strings| ==> |strings[i]| >= |strings[j]|)
  }

  ghost predicate Decreasing(ys: seq<State>) {
    forall i, j :: 0 <= i < j < |ys| ==> ys[i].pos >= ys[j].pos
  }

  lemma {:induction false} StringOutsDecrease(w: World, icase: bool, strings: seq<seq<CodePoint>>, x: State)
    requires LongestFirst(strings)
    ensures Decreasing(StringOuts(w, icase, strings, x))
    ensures forall i :: 0 <= i < |StringOuts(w, icase, strings, x)| ==>
              StringOuts(w, icase, strings, x)[i].pos >= x.pos + 2
    ensures strings != [] ==> forall i :: 0 <= i < |StringOuts(w, icase, strings, x)| ==>
              StringOuts(w, icase, strings, x)[i].pos <= x.pos + |strings[0]|
    decreases |strings|
  {
    hide StartsWith;
    if strings != [] {
      assert |strings[0]| >= 2;
      if |strings| > 1 { assert |strings[0]| >= |strings[1]|; }
      StringOutsDecrease(w, icase, strings[1..], x);
    }
  }

  /** So the longest match is always tried first. */
  lemma LongestIsFirst(w: World, sl: StringList, icase: bool, cap: nat, x: State)
    requires x.pos <= |w.text| && cap <= |x.caps| && LongestFirst(sl.strings)
    ensures Decreasing(Out(w, ListNode(sl, icase), cap, false, x))
  {
    hide StartsWith, Out, ListNode, StringOuts, Holds;
    ListMeans(w, sl, icase, cap, x);
    StringOutsDecrease(w, icase, sl.strings, x);
  }

  /* ----- the code ----- */

  function StringCode(s: seq<CodePoint>, icase: bool): seq<Instr> {
    seq(|s|, i requires 0 <= i < |s| => Consume(OpChar(s[i], icase)))
  }

  /** The strings of a case-insensitive class are kept in canonical form. */
  ghost predicate Canonical(g: Canon, strings: seq<seq<CodePoint>>, icase: bool) {
    icase ==> forall i, j :: 0 <= i < |strings| && 0 <= j < |strings[i]| ==> g(strings[i][j]) == strings[i][j]
  }

  lemma {:induction false} StringIsCode(g: Canon, s: seq<CodePoint>, icase: bool, cap: nat)
    requires Canonical(g, [s], icase)
    ensures Code(g, StringNode(s, icase), cap, false) == StringCode(s, icase)
    decreases |s|
  {
    hide Code;
    if s != [] {
      var k := |s| - 1;
      if icase {
        forall j | 0 <= j < k ensures g(s[..k][j]) == s[..k][j] { assert [s][0][j] == s[j]; }
        assert [s][0][k] == s[k];
      }
      StringIsCode(g, s[..k], icase, cap);
      var n := StringNode(s, icase);
      CodeOfCat(g, n, cap, false);
      CodeOfLiteral(g, s[k], icase, cap);
      assert StringCode(s, icase) == StringCode(s[..k], icase) + [Consume(OpChar(s[k], icase))];
    } else {
      CodeOfEmpty(g, cap);
    }
  }

  lemma CodeOfLiteral(g: Canon, c: CodePoint, icase: bool, cap: nat)
    requires icase ==> g(c) == c
    ensures Code(g, One(Literal(c, icase)), cap, false) == [Consume(OpChar(c, icase))]
  {
  }

  lemma CodeOfEmpty(g: Canon, cap: nat)
    ensures Code(g, Empty, cap, false) == []
  {
  }

  /* ----- its bytes ----- */

  /** One string that is not the last alternative; `v` is the operand of its goto. */
  function Piece(s: seq<byte>, v: int): (r: seq<byte>)
    ensures |r| == |s| + 10
  {
    [15] + I32(|s| + 5) + s + [13] + I32(v)
  }

  function PieceAll(bs: seq<seq<byte>>, vals: seq<int>): (r: seq<byte>)
    requires |bs| == |vals|
    ensures |r| == Length(bs)
    decreases |bs|
  {
    if bs == [] then [] else Piece(bs[0], vals[0]) + PieceAll(bs[1..], vals[1..])
  }

  function Length(bs: seq<seq<byte>>): nat
    decreases |bs|
  {
    if bs == [] then 0 else |bs[0]| + 10 + Length(bs[1..])
  }

  /** The operands once the end, `t` bytes after the last piece, is known. */
  function Finals(bs: seq<seq<byte>>, t: nat): (r: seq<int>)
    ensures |r| == |bs|
    decreases |bs|
  {
    if bs == [] then [] else [Length(bs[1..]) + t] + Finals(bs[1..], t)
  }

  lemma {:induction false} LengthSnoc(bs: seq<seq<byte>>, b: seq<byte>)
    ensures Length(bs + [b]) == Length(bs) + |b| + 10
    decreases |bs|
  {
    if bs == [] {
      assert [b][1..] == [];
    } else {
      assert (bs + [b])[1..] == bs[1..] + [b];
      LengthSnoc(bs[1..], b);
    }
  }

  lemma {:induction false} PieceSnoc(bs: seq<seq<byte>>, vals: seq<int>, b: seq<byte>, v: int)
    requires |bs| == |vals|
    ensures PieceAll(bs + [b], vals + [v]) == PieceAll(bs, vals) + Piece(b, v)
    decreases |bs|
  {
    hide Piece;
    if bs == [] {
      assert PieceAll([b][1..], [v][1..]) == [];
    } else {
      assert (bs + [b])[1..] == bs[1..] + [b] && (vals + [v])[1..] == vals[1..] + [v];
      PieceSnoc(bs[1..], vals[1..], b, v);
    }
  }

  /** Operand `k` lies at the end of piece `k`, and patching it changes that value. */
  lemma {:induction false} PiecePatched(bs: seq<seq<byte>>, vals: seq<int>, k: nat, v: int)
    requires |bs| == |vals| && k < |bs|
    ensures var e, s := Length(bs[..k + 1]), PieceAll(bs, vals);
            && 4 <= e <= |s|
            && s[e - 4..e] == I32(vals[k])
            && s[..e - 4] + I32(v) + s[e..] == PieceAll(bs, vals[k := v])
    decreases |bs|
  {
    hide *;
    var head, rest := Piece(bs[0], vals[0]), PieceAll(bs[1..], vals[1..]);
    PieceUnfold(bs, vals);
    PieceUnfold(bs, vals[k := v]);
    LengthUnfold(bs, k);
    if k == 0 {
      PieceTail(bs[0], vals[0], v);
      HeadPatched(head, rest, I32(v));
      assert vals[0 := v][1..] == vals[1..];
    } else {
      PiecePatched(bs[1..], vals[1..], k - 1, v);
      RestPatched(head, rest, Length(bs[1..][..k]), I32(v));
      assert vals[k := v][1..] == vals[1..][k - 1 := v];
    }
  }

  lemma PieceUnfold(bs: seq<seq<byte>>, vals: seq<int>)
    requires |bs| == |vals| && |bs| > 0
    ensures PieceAll(bs, vals) == Piece(bs[0], vals[0]) + PieceAll(bs[1..], vals[1..])
  {
    hide Piece;
  }

  lemma LengthUnfold(bs: seq<seq<byte>>, k: nat)
    requires k < |bs|
    ensures Length(bs[..k + 1]) == |bs[0]| + 10 + Length(bs[1..][..k]) && (k == 0 ==> Length(bs[1..][..k]) == 0)
  {
    assert bs[..k + 1][1..] == bs[1..][..k];
  }

  lemma HeadPatched(head: seq<byte>, rest: seq<byte>, v: seq<byte>)
    requires |head| >= 4
    ensures var s, e := head + rest, |head|;
            && s[e - 4..e] == head[e - 4..]
            && s[..e - 4] + v + s[e..] == head[..e - 4] + v + rest
  {
  }

  lemma RestPatched(head: seq<byte>, rest: seq<byte>, d: nat, v: seq<byte>)
    requires 4 <= d <= |rest|
    ensures var s, e := head + rest, |head| + d;
            && s[e - 4..e] == rest[d - 4..d]
            && s[..e - 4] + v + s[e..] == head + (rest[..d - 4] + v + rest[d..])
  {
  }

  lemma PieceTail(b: seq<byte>, v: int, v': int)
    ensures var r := Piece(b, v); r[|r| - 4..] == I32(v) && r[..|r| - 4] + I32(v') == Piece(b, v')
  {
    hide I32;
  }

  /** The bytes of strings. */
  function StringBytes(strings: seq<seq<CodePoint>>, icase: bool): (bs: seq<seq<byte>>)
    ensures |bs| == |strings|
    ensures forall i :: 0 <= i < |bs| ==> bs[i] == EncAll(StringCode(strings[i], icase))
  {
    seq(|strings|, i requires 0 <= i < |strings| => EncAll(StringCode(strings[i], icase)))
  }

  /** A finished chain is the code of the alternatives. */
  lemma {:induction false} ChainBytes(g: Canon, strings: seq<seq<CodePoint>>, icase: bool, last: Node, cap: nat)
    requires Caps(last) == 0 && Canonical(g, strings, icase)
    ensures var bs, t := StringBytes(strings, icase), EncAll(Code(g, last, cap, false));
            PieceAll(bs, Finals(bs, |t|)) + t == EncAll(Code(g, Chain(strings, icase, last), cap, false))
    decreases |strings|
  {
    hide Code, EncAll, Piece, PieceAll, Finals, StringCode, StringNode, StringBytes, I32, Chain, Canonical;
    var bs, t := StringBytes(strings, icase), EncAll(Code(g, last, cap, false));
    if strings == [] {
      NoChain(icase, last, |t|);
      assert [] + t == t;
    } else {
      CanonicalParts(g, strings, icase);
      ChainBytes(g, strings[1..], icase, last, cap);
      RestBytes(strings, icase);
      var e := PieceAll(bs[1..], Finals(bs[1..], |t|)) + t;
      ChainFirst(g, strings, icase, last, cap, e);
      FinalPieces(bs, |t|);
      assert Piece(bs[0], |e|) + PieceAll(bs[1..], Finals(bs[1..], |t|)) + t == Piece(bs[0], |e|) + e;
    }
  }

  lemma NoChain(icase: bool, last: Node, t: nat)
    requires Caps(last) == 0
    ensures Chain([], icase, last) == last && StringBytes([], icase) == [] && Finals([], t) == []
            && PieceAll([], []) == []
  {
  }

  lemma CanonicalParts(g: Canon, strings: seq<seq<CodePoint>>, icase: bool)
    requires Canonical(g, strings, icase) && strings != []
    ensures Canonical(g, [strings[0]], icase) && Canonical(g, strings[1..], icase)
  {
  }

  lemma RestBytes(strings: seq<seq<CodePoint>>, icase: bool)
    requires strings != []
    ensures StringBytes(strings, icase)[1..] == StringBytes(strings[1..], icase)
    ensures StringBytes(strings, icase)[0] == EncAll(StringCode(strings[0], icase))
  {
    hide EncAll, StringCode;
  }

  /** The operand of the first goto spans the pieces that follow and the end. */
  lemma FinalPieces(bs: seq<seq<byte>>, t: nat)
    requires bs != []
    ensures var rest := PieceAll(bs[1..], Finals(bs[1..], t));
            PieceAll(bs, Finals(bs, t)) == Piece(bs[0], |rest| + t) + rest
  {
    hide Piece;
    assert Finals(bs, t)[1..] == Finals(bs[1..], t);
  }

  lemma ChainFirst(g: Canon, strings: seq<seq<CodePoint>>, icase: bool, last: Node, cap: nat, e: seq<byte>)
    requires Caps(last) == 0 && strings != [] && Canonical(g, [strings[0]], icase)
    requires e == EncAll(Code(g, Chain(strings[1..], icase, last), cap, false))
    ensures EncAll(Code(g, Chain(strings, icase, last), cap, false))
              == Piece(EncAll(StringCode(strings[0], icase)), |e|) + e
  {
    hide Code, EncAll, Piece, StringCode, StringNode, I32;
    var n := Chain(strings, icase, last);
    assert n == Alt(StringNode(strings[0], icase), Chain(strings[1..], icase, last));
    StringIsCode(g, strings[0], icase, cap);
    EncAltNode([], g, n, cap, false);
    PieceIsAlt(EncAll(StringCode(strings[0], icase)), e);
  }

  lemma PieceIsAlt(a: seq<byte>, b: seq<byte>)
    ensures [] + ([15] + I32(|a| + 5)) + a + [13] + I32(|b|) + b == Piece(a, |b|) + b
  {
    hide I32;
  }

  /** The operand that goto `k` holds until the end is known: where the operand of the
      goto before it lies in the buffer. */
  function Link(base: nat, bs: seq<seq<byte>>, k: nat): int
    requires k <= |bs|
  {
    if k == 0 then -1 else base + Length(bs[..k]) - 4
  }

  lemma {:induction false} LengthPrefix(bs: seq<seq<byte>>, k: nat)
    requires k <= |bs|
    ensures Length(bs[..k]) <= Length(bs) && 10 * k <= Length(bs[..k])
    decreases |bs|
  {
    if k > 0 {
      assert bs[..k][1..] == bs[1..][..k - 1];
      LengthPrefix(bs[1..], k - 1);
    }
  }

  lemma {:induction false} FinalAt(bs: seq<seq<byte>>, t: nat, k: nat)
    requires k < |bs|
    ensures Finals(bs, t)[k] == Length(bs) - Length(bs[..k + 1]) + t
    decreases |bs|
  {
    assert bs[..k + 1][1..] == bs[1..][..k];
    if k > 0 { FinalAt(bs[1..], t, k - 1); }
  }

  /** The bytes after the strings. */
  lemma CharsBytes(g: Canon, sl: StringList, icase: bool, cap: nat)
    requires sl.points != []
    ensures var r := Enc(Consume(RangeOp(sl.points, icase)));
            EncAll(Code(g, CharsNode(sl, icase), cap, false)) == if sl.hasEmpty then [15] + I32(|r|) + r else r
  {
    hide EncAll, Enc, I32, RangeOp;
    var read := Consume(RangeOp(sl.points, icase));
    var t := Class(sl.points, icase);
    assert Code(g, One(t), cap, false) == [read];
    EncOne(read);
    if sl.hasEmpty {
      OptionalCode(g, t, cap);
      var split := Split(true, InstrSize(read));
      EncOne(split);
      EncConcat([split], [read]);
      EncSplit(true, InstrSize(read));
    }
  }

  lemma OptionalCode(g: Canon, t: CharTest, cap: nat)
    ensures var read := Consume(TestOp(g, t));
            Code(g, Repeat(One(t), 0, Finite(1), true), cap, false) == [Split(true, InstrSize(read))] + [read]
  {
    hide TestOp;
    var read := Consume(TestOp(g, t));
    var a := Code(g, One(t), cap, false);
    assert a == [read];
    assert ScanCode(a) == Join(ScanInstr(read), ScanCode(a[1..]));
    assert Size(a) == InstrSize(read) + Size(a[1..]);
  }

  lemma LastString(g: Canon, strings: seq<seq<CodePoint>>, icase: bool, i: nat, cap: nat)
    requires i < |strings| && Canonical(g, strings, icase)
    ensures EncAll(Code(g, StringNode(strings[i], icase), cap, false)) == StringBytes(strings, icase)[i]
  {
    hide Code, EncAll, StringCode;
    if icase { assert Canonical(g, [strings[i]], icase); }
    StringIsCode(g, strings[i], icase, cap);
  }

  lemma CanonicalPrefix(g: Canon, strings: seq<seq<CodePoint>>, icase: bool, k: nat)
    requires k <= |strings| && Canonical(g, strings, icase)
    ensures Canonical(g, strings[..k], icase)
  {
  }

  lemma NoCharsBytes(g: Canon, sl: StringList, icase: bool, cap: nat)
    requires sl.points == []
    ensures EncAll(Code(g, CharsNode(sl, icase), cap, false)) == []
  {
  }

  /** How many of the strings are followed by a goto. */
  function Chained(sl: StringList): (k: nat)
    ensures k <= |sl.strings|
  {
    if !sl.hasEmpty && sl.points == [] && |sl.strings| > 0 then |sl.strings| - 1 else |sl.strings|
  }

  /** The bytes after the last goto. */
  function EndBytes(g: Canon, sl: StringList, icase: bool, cap: nat): seq<byte> {
    if Chained(sl) < |sl.strings| then StringBytes(sl.strings, icase)[|sl.strings| - 1]
    else EncAll(Code(g, CharsNode(sl, icase), cap, false))
  }

  lemma {:induction false} BytesPrefix(strings: seq<seq<CodePoint>>, icase: bool, k: nat)
    requires k <= |strings|
    ensures StringBytes(strings[..k], icase) == StringBytes(strings, icase)[..k]
  {
    hide EncAll, StringCode;
  }

  /** The finished bytes of a class with strings. */
  lemma ListBytes(g: Canon, sl: StringList, icase: bool, cap: nat)
    requires Canonical(g, sl.strings, icase) && (|sl.strings| > 0 || sl.hasEmpty)
    ensures var bs, t := StringBytes(sl.strings, icase)[..Chained(sl)], EndBytes(g, sl, icase, cap);
            PieceAll(bs, Finals(bs, |t|)) + t == EncAll(Code(g, ListNode(sl, icase), cap, false))
  {
    hide Code, EncAll, Piece, PieceAll, StringCode, StringNode, Chain, CharsNode;
    var k := Chained(sl);
    var last := if k < |sl.strings| then StringNode(sl.strings[k], icase) else CharsNode(sl, icase);
    CanonicalPrefix(g, sl.strings, icase, k);
    BytesPrefix(sl.strings, icase, k);
    assert sl.strings[..|sl.strings|] == sl.strings;
    if k < |sl.strings| { LastString(g, sl.strings, icase, k, cap); }
    ChainBytes(g, sl.strings[..k], icase, last, cap);
    assert ListNode(sl, icase) == Chain(sl.strings[..k], icase, last);
  }

  lemma NoPieces(base: nat, bs: seq<seq<byte>>)
    ensures PieceAll([], []) == [] && bs[..0] == [] && forall k: nat :: k <= |bs| ==> Link(base, bs[..k], 0) == -1
  {
  }

  /** One more string, with a goto that links to the one before. */
  lemma NextPiece(base: seq<byte>, all: seq<seq<byte>>, k: nat, i: nat, vals: seq<int>, link: int)
    requires i < k <= |all| && |vals| == i
    ensures base + PieceAll(all[..i + 1], vals + [link]) == base + PieceAll(all[..i], vals) + Piece(all[i], link)
    ensures |base + PieceAll(all[..i + 1], vals + [link])| - 4 == Link(|base|, all[..k], i + 1)
  {
    hide Piece, PieceAll, Length;
    assert all[..i + 1] == all[..i] + [all[i]] && all[..k][..i + 1] == all[..i + 1];
    PieceSnoc(all[..i], vals, all[i], link);
  }

  lemma ChainedSize(sl: StringList)
    ensures Chained(sl) == |sl.strings| - if !sl.hasEmpty && sl.points == [] && |sl.strings| > 0 then 1 else 0
  {
  }

  /** What follows the last goto is the last string or the single characters. */
  lemma EndOfList(g: Canon, sl: StringList, icase: bool, cap: nat)
    requires |sl.strings| > 0 || sl.hasEmpty
    ensures var all, chars := StringBytes(sl.strings, icase), EncAll(Code(g, CharsNode(sl, icase), cap, false));
            EndBytes(g, sl, icase, cap) == (if Chained(sl) < |sl.strings| then all[Chained(sl)] else []) + chars
  {
    hide StringBytes, EncAll, Code, CharsNode;
    if sl.points == [] { NoCharsBytes(g, sl, icase, cap); }
  }

  lemma OnlyCharsOp(g: Canon, points: seq<nat>, icase: bool)
    ensures TestOp(g, Class(points, icase)) == RangeOp(points, icase)
  {
  }

  lemma OnlyChars(sl: StringList, icase: bool)
    requires |sl.strings| == 0 && !sl.hasEmpty
    ensures ListNode(sl, icase) == One(Class(sl.points, icase)) && (sl.points == [] ==> RangesFit(sl.points))
  {
  }

  /** Where an operand of the chain lies in the whole buffer. */
  lemma OperandIn(buf: seq<byte>, base: seq<byte>, s: seq<byte>, t: seq<byte>, e: nat)
    requires buf == base + s + t && 4 <= e <= |s|
    ensures var pos := |base| + e - 4;
            && buf[pos..pos + 4] == s[e - 4..e]
            && forall v: seq<byte> :: |v| == 4 ==>
                      buf[..pos] + v + buf[pos + 4..] == base + (s[..e - 4] + v + s[e..]) + t
  {
    var pos := |base| + e - 4;
    assert buf[pos..pos + 4] == s[e - 4..e];
    assert buf[..pos] == base + s[..e - 4] && buf[pos + 4..] == s[e..] + t;
    forall v: seq<byte> | |v| == 4
      ensures buf[..pos] + v + buf[pos + 4..] == base + (s[..e - 4] + v + s[e..]) + t
    {
      assert base + s[..e - 4] + v + (s[e..] + t) == base + (s[..e - 4] + v + s[e..]) + t;
    }
  }

  lemma LinkRead(buf: seq<byte>, pos: nat, v: int)
    requires pos + 4 <= |buf| && buf[pos..pos + 4] == I32(v) && -1 <= v <= INT32_MAX
    ensures GetI32(buf, pos) == v
  {
    hide I32;
    StandsI32(buf, pos, v);
  }
}
