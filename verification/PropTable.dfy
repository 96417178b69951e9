/** Unicode properties as run-length tables: the indexed lookup lre_is_in_table and
    the full decode unicode_prop1. */
module PropTable {
  import opened Syntax
  import opened Semantics
  import opened Encoding
  import opened CharRange

  const INDEX_BLOCK_LEN: nat := 32

  /** How many bytes the item at `p` has. */
  function ItemSize(table: seq<byte>, p: nat): (n: nat)
    requires p < |table|
    ensures n > 0
  {
    if table[p] < 0x40 || table[p] >= 0x80 then 1 else if table[p] < 0x60 then 2 else 3
  }

  /** Items do not run past the end. */
  ghost predicate WholeItems(table: seq<byte>, p: nat)
    decreases |table| - p
  {
    p == |table| || (p < |table| && p + ItemSize(table, p) <= |table| && WholeItems(table, p + ItemSize(table, p)))
  }

  /** The first run of an item; an item below 0x40 has a second one. */
  function FirstRun(table: seq<byte>, p: nat): nat
    requires p < |table| && p + ItemSize(table, p) <= |table|
  {
    var b: nat := table[p];
    if b < 0x40 then b / 8 + 1
    else if b >= 0x80 then b - 0x80 + 1
    else
      var b1: nat := table[p + 1];
      if b < 0x60 then (b - 0x40) * 256 + b1 + 1
      else
        var b2: nat := table[p + 2];
        (b - 0x60) * 65536 + b1 * 256 + b2 + 1
  }

  function SecondRun(table: seq<byte>, p: nat): nat
    requires p < |table| && table[p] < 0x40
  {
    var b: nat := table[p];
    b % 8 + 1
  }

  /** Where the decoder stands: the next item, the first code point of its first run,
      and whether that run is in the set. */
  datatype Cursor = Cursor(p: nat, code: nat, bit: bool)

  function Next(table: seq<byte>, s: Cursor): (s': Cursor)
    requires s.p < |table| && s.p + ItemSize(table, s.p) <= |table|
    ensures s'.code > s.code && s'.p > s.p
  {
    var p', code' := s.p + ItemSize(table, s.p), s.code + FirstRun(table, s.p);
    if table[s.p] < 0x40 then Cursor(p', code' + SecondRun(table, s.p), s.bit) else Cursor(p', code', !s.bit)
  }

  /** The set that the items from a cursor on describe. */
  ghost predicate Member(table: seq<byte>, s: Cursor, c: nat)
    requires WholeItems(table, s.p)
    decreases |table| - s.p
  {
    s.p < |table| &&
    if c < s.code + FirstRun(table, s.p) then s.bit
    else if table[s.p] < 0x40 && c < s.code + FirstRun(table, s.p) + SecondRun(table, s.p) then !s.bit
    else Member(table, Next(table, s), c)
  }

  const START: Cursor := Cursor(0, 0, false)

  /* ----- the full decode ----- */

  ghost predicate Decoded(table: seq<byte>, points: seq<nat>, s: Cursor)
    requires WholeItems(table, 0) && WholeItems(table, s.p)
  {
    && Intervals(points)
    && (forall k :: 0 <= k < |points| ==> points[k] <= s.code)
    && (forall c: nat :: c < s.code ==> In(points, c) == Member(table, START, c))
    && (forall c: nat :: s.code <= c ==> Member(table, START, c) == Member(table, s, c))
  }

  lemma AddRun(points: seq<nat>, lo: nat, hi: nat)
    requires Intervals(points) && lo <= hi && forall k :: 0 <= k < |points| ==> points[k] <= lo
    ensures Intervals(points + [lo, hi]) && forall k :: 0 <= k < |points| + 2 ==> (points + [lo, hi])[k] <= hi
    ensures forall c: nat :: In(points + [lo, hi], c) == (In(points, c) || lo <= c < hi)
  {
    hide In;
    forall c: nat ensures In(points + [lo, hi], c) == (In(points, c) || lo <= c < hi) {
      AddRunAt(points, lo, hi, c);
    }
  }

  lemma AddRunAt(points: seq<nat>, lo: nat, hi: nat, c: nat)
    requires Intervals(points) && lo <= hi && forall k :: 0 <= k < |points| ==> points[k] <= lo
    ensures In(points + [lo, hi], c) == (In(points, c) || lo <= c < hi)
    ensures lo <= c ==> !In(points, c)
  {
    CountConcat(points, [lo, hi], c);
    CountPair(lo, hi, c);
    if lo <= c { CountAll(points, c); }
  }

  /** The points after one more run [lo, hi). */
  function Extended(points: seq<nat>, lo: nat, hi: nat, bit: bool): seq<nat> {
    if bit then points + [lo, hi] else points
  }

  lemma ExtendedIn(points: seq<nat>, lo: nat, hi: nat, bit: bool)
    requires Intervals(points) && lo <= hi && forall k :: 0 <= k < |points| ==> points[k] <= lo
    ensures Intervals(Extended(points, lo, hi, bit))
    ensures forall k :: 0 <= k < |Extended(points, lo, hi, bit)| ==> Extended(points, lo, hi, bit)[k] <= hi
    ensures forall c: nat :: c < lo ==> In(Extended(points, lo, hi, bit), c) == In(points, c)
    ensures forall c: nat :: lo <= c < hi ==> In(Extended(points, lo, hi, bit), c) == bit
  {
    hide In;
    AddRun(points, lo, hi);
    forall c: nat | lo <= c ensures !In(points, c) { AddRunAt(points, lo, hi, c); }
  }

  /** unicode_prop1. */
  method Prop1(table: seq<byte>) returns (cr: Range)
    requires WholeItems(table, 0)
    ensures fresh(cr) && Intervals(cr.points)
    ensures forall c: nat :: In(cr.points, c) == Member(table, START, c)
  {
    hide In, Member, Intervals;
    cr := new Range();
    var p: nat, c: nat, bit := 0, 0, false;
    StartDecode(table);
    while p < |table|
      invariant fresh(cr) && p <= |table| && WholeItems(table, p)
      invariant Decoded(table, cr.points, Cursor(p, c, bit))
      decreases |table| - p
    {
      ghost var s, points := Cursor(p, c, bit), cr.points;
      var c0, b: nat := c, table[p];
      c := c + FirstRun(table, p);
      ExtendedIn(cr.points, c0, c, bit);
      if b < 0x40 {
        if bit { cr.AddInterval(c0, c); }
        bit := !bit;
        c0 := c;
        c := c + SecondRun(table, p);
        ExtendedIn(cr.points, c0, c, bit);
      }
      if bit { cr.AddInterval(c0, c); }
      bit := !bit;
      p := p + ItemSize(table, p);
      DecodeItem(table, points, cr.points, s);
    }
    AllDecoded(table, cr.points, Cursor(p, c, bit));
  }

  lemma StartDecode(table: seq<byte>)
    requires WholeItems(table, 0)
    ensures Decoded(table, [], START)
  {
  }

  function AfterItem(table: seq<byte>, points: seq<nat>, s: Cursor): seq<nat>
    requires s.p < |table| && s.p + ItemSize(table, s.p) <= |table|
  {
    var c1 := s.code + FirstRun(table, s.p);
    var first := Extended(points, s.code, c1, s.bit);
    if table[s.p] < 0x40 then Extended(first, c1, c1 + SecondRun(table, s.p), !s.bit) else first
  }

  lemma DecodeItem(table: seq<byte>, points: seq<nat>, points': seq<nat>, s: Cursor)
    requires WholeItems(table, 0) && WholeItems(table, s.p) && s.p < |table|
    requires Decoded(table, points, s) && points' == AfterItem(table, points, s)
    ensures Decoded(table, points', Next(table, s))
  {
    hide In, Extended, Intervals, FirstRun, SecondRun;
    var c1 := s.code + FirstRun(table, s.p);
    ExtendedIn(points, s.code, c1, s.bit);
    var first := Extended(points, s.code, c1, s.bit);
    if table[s.p] < 0x40 { ExtendedIn(first, c1, c1 + SecondRun(table, s.p), !s.bit); }
    forall c: nat | c < Next(table, s).code ensures In(points', c) == Member(table, START, c) {
      if s.code <= c { assert Member(table, START, c) == Member(table, s, c); }
    }
  }

  lemma AllDecoded(table: seq<byte>, points: seq<nat>, s: Cursor)
    requires WholeItems(table, 0) && s.p == |table| && Decoded(table, points, s)
    ensures Intervals(points) && forall c: nat :: In(points, c) == Member(table, START, c)
  {
    forall c: nat ensures In(points, c) == Member(table, START, c) {
      if s.code <= c {
        Above(points, c);
        assert Member(table, START, c) == Member(table, s, c);
      }
    }
  }

  /* ----- the indexed lookup ----- */

  /** The linear decode passes a cursor. */
  ghost predicate Passes(table: seq<byte>, from: Cursor, to: Cursor)
    requires WholeItems(table, from.p)
    decreases |table| - from.p
  {
    from == to || (from.p < |table| && Passes(table, Next(table, from), to))
  }

  ghost function EndCode(table: seq<byte>, s: Cursor): nat
    requires WholeItems(table, s.p)
    decreases |table| - s.p
  {
    if s.p == |table| then s.code else EndCode(table, Next(table, s))
  }

  lemma {:induction false} PassesSame(table: seq<byte>, from: Cursor, to: Cursor, c: nat)
    requires WholeItems(table, from.p) && Passes(table, from, to) && to.code <= c
    ensures WholeItems(table, to.p)
    ensures Member(table, from, c) == Member(table, to, c) && EndCode(table, from) == EndCode(table, to)
    decreases |table| - from.p
  {
    if from != to {
      var next := Next(table, from);
      PassesSame(table, next, to, c);
      PassesLater(table, next, to);
    }
  }

  lemma {:induction false} PassesLater(table: seq<byte>, from: Cursor, to: Cursor)
    requires WholeItems(table, from.p) && Passes(table, from, to)
    ensures from.code <= to.code
    decreases |table| - from.p
  {
    if from != to { PassesLater(table, Next(table, from), to); }
  }

  lemma {:induction false} EndIsLater(table: seq<byte>, s: Cursor)
    requires WholeItems(table, s.p)
    ensures s.code <= EndCode(table, s)
    decreases |table| - s.p
  {
    if s.p < |table| { EndIsLater(table, Next(table, s)); }
  }

  function Le24(index: seq<byte>, i: nat): nat
    requires 3 * i + 2 < |index|
  {
    var b0: nat, b1: nat, b2: nat := index[3 * i], index[3 * i + 1], index[3 * i + 2];
    b0 + b1 * 256 + b2 * 65536
  }

  const CODE_LIMIT: nat := 0x20_0000

  /** Entry `i` says where block `i + 1` of the table can be entered. */
  function IndexCursor(index: seq<byte>, i: nat): Cursor
    requires 3 * i + 2 < |index|
  {
    Cursor((i + 1) * INDEX_BLOCK_LEN + Le24(index, i) / CODE_LIMIT, Le24(index, i) % CODE_LIMIT, false)
  }

  function IndexEnd(index: seq<byte>, n: nat): nat
    requires 0 < n && 3 * n <= |index|
  {
    Le24(index, n - 1)
  }

  /** The index is one of the table: each entry but the last is a cursor that the linear
      decode passes, and the last is a code point no later than the end of the table. */
  ghost predicate Consistent(table: seq<byte>, index: seq<byte>, n: nat) {
    && 0 < n && 3 * n <= |index|
    && WholeItems(table, 0)
    && (forall i :: 0 <= i < n - 1 ==> Passes(table, START, IndexCursor(index, i)))
    && Le24(index, 0) % CODE_LIMIT <= IndexEnd(index, n) < CODE_LIMIT
    && IndexEnd(index, n) <= EndCode(table, START)
  }

  /** get_index_pos. */
  method GetIndexPos(c: nat, index: seq<byte>, n: nat, ghost table: seq<byte>) returns (pos: int, code: nat)
    requires Consistent(table, index, n)
    ensures pos < 0 <==> c >= IndexEnd(index, n)
    ensures pos >= 0 ==> code <= c && Passes(table, START, Cursor(pos, code, false))
  {
    hide Passes, EndCode, WholeItems;
    PassesSelf(table);
    var idxMin := 0;
    code := Le24(index, 0) % CODE_LIMIT;
    if c < code { return 0, 0; }
    var idxMax := n - 1;
    code := Le24(index, idxMax);
    if c >= code { return -1, code; }
    while idxMax - idxMin > 1
      invariant 0 <= idxMin && idxMin <= idxMax < n && (n > 1 ==> idxMin < idxMax)
      invariant Le24(index, idxMin) % CODE_LIMIT <= c
      decreases idxMax - idxMin
    {
      var idx := (idxMax + idxMin) / 2;
      code := Le24(index, idx) % CODE_LIMIT;
      if c < code { idxMax := idx; } else { idxMin := idx; }
    }
    code := Le24(index, idxMin) % CODE_LIMIT;
    pos := (idxMin + 1) * INDEX_BLOCK_LEN + Le24(index, idxMin) / CODE_LIMIT;
    assert n > 1;
    assert Passes(table, START, IndexCursor(index, idxMin));
  }

  lemma PassesSelf(table: seq<byte>)
    requires WholeItems(table, 0)
    ensures Passes(table, START, START)
  {
  }

  /** lre_is_in_table: below the end of the index it answers what the linear decode
      says, and it never reads past the table. */
  method IsInTable(c: nat, table: seq<byte>, index: seq<byte>, n: nat) returns (r: bool)
    requires Consistent(table, index, n)
    ensures c < IndexEnd(index, n) ==> r == Member(table, START, c)
    ensures c >= IndexEnd(index, n) ==> !r
  {
    hide Passes, EndCode, Member, FirstRun, SecondRun, Next;
    var pos, code: nat;
    pos, code := GetIndexPos(c, index, n, table);
    if pos < 0 { return false; }
    PassesSame(table, START, Cursor(pos, code, false), c);
    var p: nat, bit := pos, false;
    EndIsLater(table, Cursor(p, code, bit));
    while true
      invariant WholeItems(table, p) && code <= c < EndCode(table, Cursor(p, code, bit))
      invariant Member(table, Cursor(p, code, bit), c) == Member(table, START, c)
      decreases |table| - p
    {
      ghost var s := Cursor(p, code, bit);
      NotAtEnd(table, s, c);
      var b: nat := table[p];
      MemberStep(table, s, c);
      code := code + FirstRun(table, p);
      if b < 0x40 {
        if c < code { return bit; }
        bit := !bit;
        code := code + SecondRun(table, p);
      }
      if c < code { return bit; }
      bit := !bit;
      p := p + ItemSize(table, p);
    }
  }

  lemma NotAtEnd(table: seq<byte>, s: Cursor, c: nat)
    requires WholeItems(table, s.p) && s.code <= c < EndCode(table, s)
    ensures s.p < |table| && s.p + ItemSize(table, s.p) <= |table|
  {
  }

  lemma MemberStep(table: seq<byte>, s: Cursor, c: nat)
    requires WholeItems(table, s.p) && s.p < |table|
    ensures var c1 := s.code + FirstRun(table, s.p);
            && (c < c1 ==> Member(table, s, c) == s.bit)
            && (table[s.p] < 0x40 ==>
                  var c2 := c1 + SecondRun(table, s.p);
                  && (c1 <= c < c2 ==> Member(table, s, c) == !s.bit)
                  && Next(table, s) == Cursor(s.p + 1, c2, s.bit))
            && (table[s.p] >= 0x40 ==> Next(table, s) == Cursor(s.p + ItemSize(table, s.p), c1, !s.bit))
            && EndCode(table, s) == EndCode(table, Next(table, s))
            && (Next(table, s).code <= c ==> Member(table, s, c) == Member(table, Next(table, s), c))
  {
  }
}
