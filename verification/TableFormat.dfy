/** The byte format of the property tables and of their indexes: what any list of runs
    looks like in bytes, and that the decoder of module PropTable reads it back. */
module TableFormat {
  import opened Syntax
  import opened Encoding
  import opened CharRange
  import opened PropTable

  /** Two runs of up to 8, or one run in one, two or three bytes. */
  datatype Item =
    | Short(first: nat, second: nat)
    | Long(size: nat, run: nat)

  /** The longest run that fits. */
  function Longest(size: nat): nat { if size == 1 then 128 else if size == 2 then 0x2000 else 0x20_0000 }

  predicate ItemOk(i: Item) {
    match i
    case Short(a, b) => 1 <= a <= 8 && 1 <= b <= 8
    case Long(size, run) => 1 <= size <= 3 && 1 <= run <= Longest(size)
  }

  predicate ItemsOk(items: seq<Item>) { forall k :: 0 <= k < |items| ==> ItemOk(items[k]) }

  /** Runs are numbered from the smallest item of their size on, big end first. */
  function ItemBytes(i: Item): (r: seq<byte>)
    requires ItemOk(i)
    ensures |r| == if i.Long? then i.size else 1
  {
    match i
    case Short(a, b) => [8 * (a - 1) + (b - 1)]
    case Long(size, run) =>
      var n := run - 1;
      if size == 1 then [0x80 + n]
      else if size == 2 then [0x40 + n / 0x100, n % 0x100]
      else [0x60 + n / 0x1_0000, n / 0x100 % 0x100, n % 0x100]
  }

  function ItemRuns(i: Item): seq<nat> {
    match i
    case Short(a, b) => [a, b]
    case Long(_, run) => [run]
  }

  function Bytes(items: seq<Item>): seq<byte>
    requires ItemsOk(items)
    decreases |items|
  {
    if items == [] then [] else ItemBytes(items[0]) + Bytes(items[1..])
  }

  function Runs(items: seq<Item>): seq<nat>
    decreases |items|
  {
    if items == [] then [] else ItemRuns(items[0]) + Runs(items[1..])
  }

  /** The set that runs describe, from `code` on: the runs are in it by turns. */
  predicate InRuns(runs: seq<nat>, code: nat, bit: bool, c: nat)
    decreases |runs|
  {
    runs != [] && if c < code + runs[0] then bit else InRuns(runs[1..], code + runs[0], !bit, c)
  }

  /** One item at the front of what is left of a table. */
  lemma ReadItem(table: seq<byte>, p: nat, i: Item)
    requires ItemOk(i) && p + |ItemBytes(i)| <= |table| && table[p..p + |ItemBytes(i)|] == ItemBytes(i)
    ensures ItemSize(table, p) == |ItemBytes(i)|
    ensures i.Short? ==> table[p] < 0x40 && FirstRun(table, p) == i.first && SecondRun(table, p) == i.second
    ensures i.Long? ==> table[p] >= 0x40 && FirstRun(table, p) == i.run
  {
    var e := ItemBytes(i);
    assert table[p] == e[0];
    if |e| > 1 { assert table[p + 1] == e[1]; }
    if |e| > 2 {
      assert table[p + 2] == e[2];
      ThreeBytes(i.run - 1);
    }
  }

  lemma ThreeBytes(n: nat)
    ensures n == n / 0x1_0000 * 65536 + n / 0x100 % 0x100 * 256 + n % 0x100
  {
  }

  lemma {:induction false} ItemsRead(table: seq<byte>, s: Cursor, items: seq<Item>)
    requires ItemsOk(items) && s.p <= |table| && table[s.p..] == Bytes(items)
    ensures WholeItems(table, s.p)
    ensures forall c: nat :: Member(table, s, c) <==> InRuns(Runs(items), s.code, s.bit, c)
    decreases |items|
  {
    hide ItemBytes, ItemOk, FirstRun, SecondRun, ItemSize, Member, InRuns;
    if items == [] {
      assert s.p == |table|;
      NothingRead(table, s);
    } else {
      var e, rest := ItemBytes(items[0]), Bytes(items[1..]);
      assert table[s.p..] == e + rest;
      assert table[s.p..s.p + |e|] == table[s.p..][..|e|] == e && table[s.p + |e|..] == table[s.p..][|e|..] == rest;
      FirstOk(items);
      ReadItem(table, s.p, items[0]);
      ItemsRead(table, Next(table, s), items[1..]);
      forall c: nat ensures Member(table, s, c) <==> InRuns(Runs(items), s.code, s.bit, c) {
        MemberUnfold(table, s, c);
        RunsUnfold(items, s.code, s.bit, c);
      }
    }
  }

  lemma FirstOk(items: seq<Item>)
    requires ItemsOk(items) && items != []
    ensures ItemOk(items[0]) && ItemsOk(items[1..])
  {
  }

  lemma NothingRead(table: seq<byte>, s: Cursor)
    requires s.p == |table|
    ensures WholeItems(table, s.p) && forall c: nat :: !Member(table, s, c) && !InRuns([], s.code, s.bit, c)
  {
  }

  lemma MemberUnfold(table: seq<byte>, s: Cursor, c: nat)
    requires WholeItems(table, s.p) && s.p < |table|
    ensures var c1 := s.code + FirstRun(table, s.p);
            Member(table, s, c) <==>
              if c < c1 then s.bit
              else if table[s.p] < 0x40 && c < c1 + SecondRun(table, s.p) then !s.bit
              else Member(table, Next(table, s), c)
  {
    hide FirstRun, SecondRun, ItemSize;
  }

  lemma RunsUnfold(items: seq<Item>, code: nat, bit: bool, c: nat)
    requires items != []
    ensures var rest := Runs(items[1..]);
            InRuns(Runs(items), code, bit, c) <==>
              match items[0]
              case Short(a, b) =>
                if c < code + a then bit else if c < code + a + b then !bit else InRuns(rest, code + a + b, bit, c)
              case Long(_, run) => if c < code + run then bit else InRuns(rest, code + run, !bit, c)
  {
    hide InRuns;
    var rest := Runs(items[1..]);
    match items[0]
    case Short(a, b) =>
      assert Runs(items) == [a] + ([b] + rest);
      RunUnfold(a, [b] + rest, code, bit, c);
      RunUnfold(b, rest, code + a, !bit, c);
    case Long(_, run) =>
      assert Runs(items) == [run] + rest;
      RunUnfold(run, rest, code, bit, c);
  }

  lemma RunUnfold(run: nat, rest: seq<nat>, code: nat, bit: bool, c: nat)
    ensures InRuns([run] + rest, code, bit, c) <==> if c < code + run then bit else InRuns(rest, code + run, !bit, c)
  {
    assert ([run] + rest)[1..] == rest;
  }

  /** A table that is written from runs is read as these runs: the first is outside the
      set, the second inside, and so on. */
  lemma TableMeans(items: seq<Item>)
    requires ItemsOk(items)
    ensures WholeItems(Bytes(items), 0)
    ensures forall c: nat :: Member(Bytes(items), START, c) <==> InRuns(Runs(items), 0, false, c)
  {
    hide Member, InRuns, Bytes;
    var table := Bytes(items);
    assert table[0..] == table;
    ItemsRead(table, START, items);
  }

  /** Every table is written from some runs. */
  lemma {:induction false} TableParses(table: seq<byte>, p: nat) returns (items: seq<Item>)
    requires WholeItems(table, p)
    ensures ItemsOk(items) && p <= |table| && Bytes(items) == table[p..]
    decreases |table| - p
  {
    hide ItemBytes, ItemSize;
    if p == |table| {
      items := [];
    } else {
      var n := ItemSize(table, p);
      var i := ItemAt(table, p);
      var rest := TableParses(table, p + n);
      items := [i] + rest;
      assert items[1..] == rest;
      assert table[p..] == table[p..p + n] + table[p + n..];
    }
  }

  lemma ItemAt(table: seq<byte>, p: nat) returns (i: Item)
    requires p < |table| && p + ItemSize(table, p) <= |table|
    ensures ItemOk(i) && ItemBytes(i) == table[p..p + ItemSize(table, p)]
  {
    hide ItemBytes, ItemOk;
    var b: nat := table[p];
    if b < 0x40 || b >= 0x80 {
      i := OneByteItem(b);
    } else if b < 0x60 {
      i := TwoByteItem(b, table[p + 1]);
    } else {
      i := ThreeByteItem(b, table[p + 1], table[p + 2]);
    }
  }

  lemma OneByteItem(b: byte) returns (i: Item)
    requires b < 0x40 || b >= 0x80
    ensures ItemOk(i) && ItemBytes(i) == [b]
  {
    var n: nat := b;
    i := if n < 0x40 then Short(n / 8 + 1, n % 8 + 1) else Long(1, n - 0x80 + 1);
  }

  lemma TwoByteItem(b: byte, b1: byte) returns (i: Item)
    requires 0x40 <= b < 0x60
    ensures ItemOk(i) && ItemBytes(i) == [b, b1]
  {
    var h: nat, l: nat := b - 0x40, b1;
    i := Long(2, h * 0x100 + l + 1);
    assert (h * 0x100 + l) / 0x100 == h && (h * 0x100 + l) % 0x100 == l;
  }

  lemma ThreeByteItem(b: byte, b1: byte, b2: byte) returns (i: Item)
    requires 0x60 <= b < 0x80
    ensures ItemOk(i) && ItemBytes(i) == [b, b1, b2]
  {
    var h: nat, m: nat, l: nat := b - 0x60, b1, b2;
    var n := h * 0x1_0000 + m * 0x100 + l;
    i := Long(3, n + 1);
    assert n / 0x1_0000 == h && n / 0x100 == h * 0x100 + m && n % 0x100 == l;
    assert n / 0x100 % 0x100 == m;
  }

  /* ----- the index ----- */

  /** An entry of the index: a code point below 2^21, and how far behind its block of 32
      bytes the item starts. */
  function EntryBytes(code: nat, behind: nat): seq<byte>
    requires code < 0x20_0000 && behind < 8
  {
    [code % 0x100, code / 0x100 % 0x100, code / 0x1_0000 + 0x20 * behind]
  }

  lemma EntryRead(index: seq<byte>, i: nat, code: nat, behind: nat)
    requires code < 0x20_0000 && behind < 8 && 3 * i + 3 <= |index|
    requires index[3 * i..3 * i + 3] == EntryBytes(code, behind)
    ensures IndexCursor(index, i) == Cursor(32 * (i + 1) + behind, code, false)
    ensures behind == 0 ==> IndexEnd(index, i + 1) == code
  {
    var e := EntryBytes(code, behind);
    assert index[3 * i] == e[0] && index[3 * i + 1] == e[1] && index[3 * i + 2] == e[2];
    ThreeBytes(code);
    assert Le24(index, i) == code + 0x20_0000 * behind;
  }
}
