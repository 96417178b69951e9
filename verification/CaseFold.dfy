/** Case folding for regular expressions: one character (lre_canonicalize) and whole
    sets (cr_regexp_canonicalize), over an abstract case-conversion table. */
module CaseFold {
  import opened Syntax
  import opened Semantics
  import opened CharRange

  datatype RunType =
    | RunU | RunL | RunUF | RunLF | RunUL | RunLSU | RunU2LExt2
    | RunUFD20 | RunUFD1Ext | RunUExt | RunLFExt | RunUFExt2 | RunLFExt2 | RunUFExt3

  /** A run of `len` characters from `code` on; `data` is the joined 12-bit operand. */
  datatype Entry = Entry(code: nat, len: nat, run: RunType, data: nat)

  datatype Table = Table(entries: seq<Entry>, ext: seq<nat>)

  datatype Conversion = ToUpper | ToLower | ToFolded

  predicate Covers(e: Entry, c: nat) { e.code <= c < e.code + e.len }

  /** Operands that stay inside the tables and run lengths that fit their type. */
  predicate EntryOk(t: Table, e: Entry) {
    match e.run
    case RunU | RunL | RunUF | RunLF => e.data < |t.entries|
    case RunUL => e.len % 2 == 0
    case RunLSU => e.len == 3
    case RunU2LExt2 => e.data % 64 < |t.ext|
    case RunUFD1Ext | RunUExt | RunLFExt => e.data < |t.ext|
    case RunUFD20 | RunUFExt2 | RunLFExt2 | RunUFExt3 => true
  }

  ghost predicate SortedTable(t: Table) {
    && t.entries != []
    && (forall i :: 0 <= i < |t.entries| ==> EntryOk(t, t.entries[i]))
    && (forall i, j :: 0 <= i < j < |t.entries| ==> t.entries[i].code + t.entries[i].len <= t.entries[j].code)
  }

  /** lre_case_conv_entry: the single character that `c` is converted to; None if
      there are several. */
  function ConvEntry(t: Table, c: nat, conv: Conversion, e: Entry): Option<nat>
    requires EntryOk(t, e) && Covers(e, c)
  {
    var a := c - e.code;
    match e.run
    case RunU => Some(if conv == ToUpper then a + t.entries[e.data].code else c)
    case RunL => Some(if conv == ToLower then a + t.entries[e.data].code else c)
    case RunUF => Some(if conv == ToUpper || conv == ToFolded then a + t.entries[e.data].code else c)
    case RunLF => Some(if conv == ToLower || conv == ToFolded then a + t.entries[e.data].code else c)
    case RunUL =>
      Some(if conv == ToUpper then (if a % 2 == 1 then c - 1 else c) else if a % 2 == 0 then c + 1 else c)
    case RunLSU =>
      Some(if conv == ToUpper then (if a == 1 then c - 1 else if a == 2 then c - 2 else c)
           else if a == 1 then c + 1 else if a == 0 then c + 2 else c)
    case RunU2LExt2 => if conv == ToUpper then None else Some(a + t.ext[e.data % 64])
    case RunUFD20 => Some(if conv == ToLower then c else e.data + if conv == ToFolded then 0x20 else 0)
    case RunUFD1Ext => Some(if conv == ToLower then c else t.ext[e.data] + if conv == ToFolded then 1 else 0)
    case RunUExt => Some(if conv == ToUpper then t.ext[e.data] else c)
    case RunLFExt => Some(if conv == ToUpper then c else t.ext[e.data])
    case RunLFExt2 => if conv == ToUpper then Some(c) else None
    case RunUFExt2 | RunUFExt3 => if conv == ToLower then Some(c) else None
  }

  function AsciiFold(c: nat, unicode: bool): nat {
    if unicode then (if 0x41 <= c <= 0x5a then c + 0x20 else c)
    else if 0x61 <= c <= 0x7a then c - 0x20
    else c
  }

  /** lre_case_folding_entry. */
  function FoldEntry(t: Table, c: nat, e: Entry, unicode: bool): nat
    requires EntryOk(t, e) && Covers(e, c)
  {
    if unicode then
      var r := ConvEntry(t, c, ToFolded, e);
      if r.Some? then r.value
      else if c == 0xfb06 then 0xfb05
      else if c == 0x1fd3 then 0x390
      else if c == 0x1fe3 then 0x3b0
      else c
    else if c < 128 then AsciiFold(c, false)
    else
      var r := ConvEntry(t, c, ToUpper, e);
      if r.Some? && r.value >= 128 then r.value else c
  }

  /** The first entry from `i` on that covers `c`. */
  function Find(t: Table, c: nat, i: nat): (r: Option<nat>)
    requires i <= |t.entries|
    ensures r.Some? ==> i <= r.value < |t.entries| && Covers(t.entries[r.value], c)
    ensures r.None? ==> forall j :: i <= j < |t.entries| ==> !Covers(t.entries[j], c)
    decreases |t.entries| - i
  {
    if i == |t.entries| then None else if Covers(t.entries[i], c) then Some(i) else Find(t, c, i + 1)
  }

  function Canonicalize(t: Table, c: nat, unicode: bool): nat
    requires forall i :: 0 <= i < |t.entries| ==> EntryOk(t, t.entries[i])
  {
    if c < 128 then AsciiFold(c, unicode)
    else match Find(t, c, 0) case None => c case Some(i) => FoldEntry(t, c, t.entries[i], unicode)
  }

  lemma Disjoint(t: Table, i: nat, j: nat)
    requires SortedTable(t) && i < j < |t.entries|
    ensures t.entries[i].code + t.entries[i].len <= t.entries[j].code
  {
  }

  lemma OneCovers(t: Table, c: nat, i: nat)
    requires SortedTable(t) && i < |t.entries| && Covers(t.entries[i], c)
    ensures Find(t, c, 0) == Some(i)
  {
    hide Find, SortedTable;
    var j := Find(t, c, 0).value;
    if j < i {
      Disjoint(t, j, i);
    } else if i < j {
      Disjoint(t, i, j);
    }
  }

  /** lre_canonicalize: the binary search finds the entry, if there is one. */
  method LreCanonicalize(t: Table, c: nat, unicode: bool) returns (r: nat)
    requires SortedTable(t)
    ensures r == Canonicalize(t, c, unicode)
  {
    hide FoldEntry, EntryOk, Find;
    if c < 128 { return AsciiFold(c, unicode); }
    var idxMin, idxMax := 0, |t.entries| - 1;
    while idxMin <= idxMax
      invariant 0 <= idxMin <= |t.entries| && -1 <= idxMax < |t.entries|
      invariant forall j :: 0 <= j < idxMin ==> !Covers(t.entries[j], c)
      invariant forall j :: idxMax < j < |t.entries| ==> !Covers(t.entries[j], c)
      decreases idxMax - idxMin
    {
      var idx := (idxMax + idxMin) / 2;
      var e := t.entries[idx];
      if c < e.code {
        forall j | idx < j < |t.entries| ensures !Covers(t.entries[j], c) {
          assert e.code + e.len <= t.entries[j].code;
        }
        idxMax := idx - 1;
      } else if c >= e.code + e.len {
        forall j | 0 <= j < idx ensures !Covers(t.entries[j], c) {
          assert t.entries[j].code + t.entries[j].len <= e.code;
        }
        idxMin := idx + 1;
      } else {
        OneCovers(t, c, idx);
        return FoldEntry(t, c, e, unicode);
      }
    }
    return c;
  }

  /* ----- the characters that folding may change ----- */

  /** What unicode_case1 selects in a run, by offset: CASE_F in unicode mode, CASE_U
      otherwise. */
  predicate Modified(run: RunType, a: nat, unicode: bool) {
    match run
    case RunU | RunUExt => !unicode
    case RunL => false
    case RunLF | RunLFExt | RunLFExt2 => unicode
    case RunUF | RunU2LExt2 | RunUFD20 | RunUFD1Ext | RunUFExt2 | RunUFExt3 => true
    case RunUL => a % 2 == if unicode then 0 else 1
    case RunLSU => a == 1 || a == if unicode then 0 else 2
  }

  predicate Touches(e: Entry, c: nat, unicode: bool) {
    Covers(e, c) && Modified(e.run, c - e.code, unicode)
  }

  ghost predicate InMask(t: Table, c: nat, unicode: bool, n: nat)
    requires n <= |t.entries|
  {
    exists i :: 0 <= i < n && Touches(t.entries[i], c, unicode)
  }

  /** The table agrees with the fast path for ASCII, and its results are characters. */
  ghost predicate ValidTable(t: Table, unicode: bool) {
    && SortedTable(t)
    && (forall c: nat :: c < 128 && AsciiFold(c, unicode) != c ==> InMask(t, c, unicode, |t.entries|))
    && (forall c: nat, i :: 0 <= i < |t.entries| && Touches(t.entries[i], c, unicode) ==>
          && FoldEntry(t, c, t.entries[i], unicode) < UINT32_MAX
          && (c < 128 ==> FoldEntry(t, c, t.entries[i], unicode) == AsciiFold(c, unicode)))
    && (forall i :: 0 <= i < |t.entries| ==> t.entries[i].code + t.entries[i].len <= UINT32_MAX)
  }

  /** Characters outside the mask are fixed points. */
  lemma OutsideMaskFixed(t: Table, c: nat, unicode: bool)
    requires ValidTable(t, unicode) && !InMask(t, c, unicode, |t.entries|)
    ensures Canonicalize(t, c, unicode) == c
  {
    if c >= 128 && Find(t, c, 0).Some? {
      var i := Find(t, c, 0).value;
      assert !Touches(t.entries[i], c, unicode);
    }
  }

  lemma InsideMaskFolded(t: Table, c: nat, unicode: bool, i: nat)
    requires ValidTable(t, unicode) && i < |t.entries| && Touches(t.entries[i], c, unicode)
    ensures Canonicalize(t, c, unicode) == FoldEntry(t, c, t.entries[i], unicode) < UINT32_MAX
  {
    hide FoldEntry, Find, EntryOk, ValidTable;
    FoldStands(t, c, unicode, i);
    OneCovers(t, c, i);
  }

  lemma FoldStands(t: Table, c: nat, unicode: bool, i: nat)
    requires ValidTable(t, unicode) && i < |t.entries| && Touches(t.entries[i], c, unicode)
    ensures SortedTable(t)
    ensures FoldEntry(t, c, t.entries[i], unicode) < UINT32_MAX
    ensures c < 128 ==> FoldEntry(t, c, t.entries[i], unicode) == AsciiFold(c, unicode)
  {
  }

  /* ----- unicode_case1 ----- */

  ghost predicate UpTo(points: seq<nat>, end: nat) { forall k :: 0 <= k < |points| ==> points[k] <= end }

  lemma AddIn(points: seq<nat>, lo: nat, hi: nat)
    requires Intervals(points) && UpTo(points, lo) && lo <= hi
    ensures Intervals(points + [lo, hi]) && UpTo(points + [lo, hi], hi)
    ensures forall c: nat :: In(points + [lo, hi], c) == (In(points, c) || lo <= c < hi)
  {
    hide In;
    forall c: nat ensures In(points + [lo, hi], c) == (In(points, c) || lo <= c < hi) {
      AddInAt(points, lo, hi, c);
    }
  }

  lemma AddInAt(points: seq<nat>, lo: nat, hi: nat, c: nat)
    requires Intervals(points) && UpTo(points, lo) && lo <= hi
    ensures In(points + [lo, hi], c) == (In(points, c) || lo <= c < hi)
  {
    CountConcat(points, [lo, hi], c);
    CountPair(lo, hi, c);
    if lo <= c { CountAll(points, c); }
  }

  /** The points selected in one run. */
  method AddRun(cr: Range, e: Entry, unicode: bool)
    requires Intervals(cr.points) && UpTo(cr.points, e.code)
    requires (e.run.RunUL? ==> e.len % 2 == 0) && (e.run.RunLSU? ==> e.len == 3)
    modifies cr
    ensures Intervals(cr.points) && UpTo(cr.points, e.code + e.len)
    ensures forall c: nat :: In(cr.points, c) == (In(old(cr.points), c) || Touches(e, c, unicode))
  {
    hide In, Intervals;
    if e.run.RunUL? {
      AddAlternate(cr, e, unicode);
    } else if e.run.RunLSU? {
      ghost var p0 := cr.points;
      if unicode {
        AddIn(cr.points, e.code, e.code + 1);
        cr.AddInterval(e.code, e.code + 1);
      }
      ghost var p1 := cr.points;
      AddIn(cr.points, e.code + 1, e.code + 2);
      cr.AddInterval(e.code + 1, e.code + 2);
      ghost var p2 := cr.points;
      if !unicode {
        AddIn(cr.points, e.code + 2, e.code + 3);
        cr.AddInterval(e.code + 2, e.code + 3);
      }
    } else if Modified(e.run, 0, unicode) {
      AddIn(cr.points, e.code, e.code + e.len);
      cr.AddInterval(e.code, e.code + e.len);
    }
  }

  /** Every other character of a run of upper/lower pairs. */
  method AddAlternate(cr: Range, e: Entry, unicode: bool)
    requires Intervals(cr.points) && UpTo(cr.points, e.code) && e.run.RunUL? && e.len % 2 == 0
    modifies cr
    ensures Intervals(cr.points) && UpTo(cr.points, e.code + e.len)
    ensures forall c: nat :: In(cr.points, c) == (In(old(cr.points), c) || Touches(e, c, unicode))
  {
    hide In, Intervals;
    var code := e.code + Num(!unicode);
    var i := 0;
    while i < e.len
      invariant 0 <= i <= e.len && i % 2 == 0
      invariant Intervals(cr.points) && UpTo(cr.points, e.code + i)
      invariant forall c: nat ::
                  In(cr.points, c) == (In(old(cr.points), c) || (Touches(e, c, unicode) && c < e.code + i))
    {
      ghost var p := cr.points;
      AddIn(p, code + i, code + i + 1);
      cr.AddInterval(code + i, code + i + 1);
      forall c: nat
        ensures In(cr.points, c) == (In(old(cr.points), c) || (Touches(e, c, unicode) && c < e.code + i + 2))
      {
        assert In(p, c) == (In(old(cr.points), c) || (Touches(e, c, unicode) && c < e.code + i));
      }
      i := i + 2;
    }
  }

  method CaseMask(t: Table, unicode: bool) returns (cr: Range)
    requires SortedTable(t)
    ensures fresh(cr) && Intervals(cr.points)
    ensures forall c: nat :: In(cr.points, c) == InMask(t, c, unicode, |t.entries|)
    ensures UpTo(cr.points, t.entries[|t.entries| - 1].code + t.entries[|t.entries| - 1].len)
  {
    hide In, InMask;
    cr := new Range();
    var idx := 0;
    NothingMasked(t, unicode);
    while idx < |t.entries|
      invariant 0 <= idx <= |t.entries| && fresh(cr)
      invariant Intervals(cr.points)
      invariant idx < |t.entries| ==> UpTo(cr.points, t.entries[idx].code)
      invariant idx > 0 ==> UpTo(cr.points, t.entries[idx - 1].code + t.entries[idx - 1].len)
      invariant forall c: nat :: In(cr.points, c) == InMask(t, c, unicode, idx)
    {
      ghost var p := cr.points;
      var e := t.entries[idx];
      assert EntryOk(t, e);
      AddRun(cr, e, unicode);
      forall c: nat ensures In(cr.points, c) == InMask(t, c, unicode, idx + 1) {
        assert In(p, c) == InMask(t, c, unicode, idx);
        MaskGrows(t, c, unicode, idx);
      }
      if idx + 1 < |t.entries| { assert t.entries[idx].code + t.entries[idx].len <= t.entries[idx + 1].code; }
      idx := idx + 1;
    }
  }

  lemma NothingMasked(t: Table, unicode: bool)
    ensures forall c: nat :: In([], c) == InMask(t, c, unicode, 0)
  {
  }

  lemma MaskGrows(t: Table, c: nat, unicode: bool, n: nat)
    requires n < |t.entries|
    ensures InMask(t, c, unicode, n + 1) == (InMask(t, c, unicode, n) || Touches(t.entries[n], c, unicode))
  {
  }

  /* ----- the image of a set ----- */

  /** Where a character lies relative to the intervals of a list. */
  lemma AtInterval(points: seq<nat>, i: nat, c: nat)
    requires Strict(points) && 2 * i + 1 < |points|
    ensures points[2 * i] <= c < points[2 * i + 1] ==> In(points, c)
    ensures points[2 * i + 1] <= c && (2 * i + 2 < |points| ==> c < points[2 * i + 2]) ==> !In(points, c)
  {
    hide In, Strict;
    if points[2 * i] <= c < points[2 * i + 1] { Between(points, 2 * i + 1, c); }
    if points[2 * i + 1] <= c && (2 * i + 2 < |points| ==> c < points[2 * i + 2]) { Between(points, 2 * i + 2, c); }
  }

  lemma Between(points: seq<nat>, k: nat, c: nat)
    requires Strict(points) && 0 < k <= |points| && points[k - 1] <= c && (k < |points| ==> c < points[k])
    ensures In(points, c) == (k % 2 == 1)
  {
    var a, b := points[..k], points[k..];
    assert points == a + b;
    CountConcat(a, b, c);
    forall m | 0 <= m < k ensures a[m] <= c {
      if m < k - 1 { assert points[m] < points[k - 1]; }
    }
    CountAll(a, c);
    forall m | 0 <= m < |b| ensures c < b[m] {
      if m > 0 { assert points[k] < points[k + m]; }
    }
    CountNone(b, c);
  }

  lemma BeforeFirst(points: seq<nat>, c: nat)
    requires Strict(points) && (points == [] || c < points[0])
    ensures !In(points, c)
  {
    CountNone(points, c);
  }

  /** The intervals collected so far and the one that is still open. */
  ghost predicate Collects(ps: seq<(nat, nat)>, open: int, end: int, d: nat) {
    InPairs(ps, d) || (open >= 0 && open <= d < end)
  }

  ghost predicate Reached(t: Table, unicode: bool, set_: seq<nat>, below: nat, d: nat)
    requires forall i :: 0 <= i < |t.entries| ==> EntryOk(t, t.entries[i])
  {
    exists c: nat :: In(set_, c) && c < below && Canonicalize(t, c, unicode) == d
  }

  /** What has been collected is the image of the characters below `below`. */
  ghost predicate ImageBelow(t: Table, unicode: bool, set_: seq<nat>, below: nat, ps: seq<(nat, nat)>, open: int,
                             end: int)
    requires forall i :: 0 <= i < |t.entries| ==> EntryOk(t, t.entries[i])
  {
    && Proper(ps) && (open >= 0 ==> open < end)
    && forall d: nat :: Collects(ps, open, end, d) == Reached(t, unicode, set_, below, d)
  }

  ghost predicate ReachesMore(t: Table, unicode: bool, set_: seq<nat>, c: nat, next: nat, d: nat)
    requires forall i :: 0 <= i < |t.entries| ==> EntryOk(t, t.entries[i])
  {
    forall x: nat :: Reached(t, unicode, set_, next, x) == (Reached(t, unicode, set_, c, x) || x == d)
  }

  /** One character more; `d` is what it folds to. */
  lemma ImageOne(t: Table, unicode: bool, set_: seq<nat>, c: nat, ps: seq<(nat, nat)>, open: int, end: int, d: nat)
    requires forall i :: 0 <= i < |t.entries| ==> EntryOk(t, t.entries[i])
    requires ImageBelow(t, unicode, set_, c, ps, open, end) && In(set_, c) && Canonicalize(t, c, unicode) == d
    requires open >= 0 ==> end >= 0
    ensures open < 0 ==> ImageBelow(t, unicode, set_, c + 1, ps, d, d + 1)
    ensures open >= 0 && end == d ==> ImageBelow(t, unicode, set_, c + 1, ps, open, end + 1)
    ensures open >= 0 ==> ImageBelow(t, unicode, set_, c + 1, ps + [(open, end)], d, d + 1)
  {
    hide In, Canonicalize, InPairs, Reached, ImageBelow;
    var next := c + 1;
    forall x: nat ensures Reached(t, unicode, set_, next, x) == (Reached(t, unicode, set_, c, x) || x == d) {
      ReachOne(t, unicode, set_, c, d, x);
    }
    if open < 0 {
      OpenNew(t, unicode, set_, c, next, ps, open, end, d);
    } else {
      if end == d { OpenLonger(t, unicode, set_, c, next, ps, open, end); }
      OpenNext(t, unicode, set_, c, next, ps, open, end, d);
    }
  }

  lemma OpenNew(t: Table, unicode: bool, set_: seq<nat>, c: nat, next: nat, ps: seq<(nat, nat)>, open: int, end: int,
                d: nat)
    requires forall i :: 0 <= i < |t.entries| ==> EntryOk(t, t.entries[i])
    requires ImageBelow(t, unicode, set_, c, ps, open, end) && open < 0 && ReachesMore(t, unicode, set_, c, next, d)
    ensures ImageBelow(t, unicode, set_, next, ps, d, d + 1)
  {
    hide InPairs, Reached;
    var end' := d + 1;
    forall x: nat ensures Collects(ps, d, end', x) == Reached(t, unicode, set_, next, x) {
      assert Collects(ps, open, end, x) == Reached(t, unicode, set_, c, x);
    }
  }

  lemma OpenLonger(t: Table, unicode: bool, set_: seq<nat>, c: nat, next: nat, ps: seq<(nat, nat)>, open: int, end: int)
    requires forall i :: 0 <= i < |t.entries| ==> EntryOk(t, t.entries[i])
    requires ImageBelow(t, unicode, set_, c, ps, open, end) && open >= 0 && end >= 0
             && ReachesMore(t, unicode, set_, c, next, end)
    ensures ImageBelow(t, unicode, set_, next, ps, open, end + 1)
  {
    hide InPairs, Reached;
    var end' := end + 1;
    forall x: nat ensures Collects(ps, open, end', x) == Reached(t, unicode, set_, next, x) {
      assert Collects(ps, open, end, x) == Reached(t, unicode, set_, c, x);
    }
  }

  lemma OpenNext(t: Table, unicode: bool, set_: seq<nat>, c: nat, next: nat, ps: seq<(nat, nat)>, open: int, end: int,
                 d: nat)
    requires forall i :: 0 <= i < |t.entries| ==> EntryOk(t, t.entries[i])
    requires ImageBelow(t, unicode, set_, c, ps, open, end) && open >= 0 && end >= 0
             && ReachesMore(t, unicode, set_, c, next, d)
    ensures ImageBelow(t, unicode, set_, next, ps + [(open, end)], d, d + 1)
  {
    hide InPairs, Reached;
    var p: (nat, nat) := (open, end);
    CoverOne(p);
    var ps', end' := ps + [p], d + 1;
    forall x: nat ensures Collects(ps', d, end', x) == Reached(t, unicode, set_, next, x) {
      InPairsConcat(ps, [p], x);
      assert InPairs([p], x) == (open <= x < end);
      assert Collects(ps, open, end, x) == Reached(t, unicode, set_, c, x);
    }
  }

  lemma ReachOne(t: Table, unicode: bool, set_: seq<nat>, c: nat, d: nat, x: nat)
    requires forall i :: 0 <= i < |t.entries| ==> EntryOk(t, t.entries[i])
    requires In(set_, c) && Canonicalize(t, c, unicode) == d
    ensures Reached(t, unicode, set_, c + 1, x) == (Reached(t, unicode, set_, c, x) || x == d)
  {
    hide In, Canonicalize;
    if Reached(t, unicode, set_, c + 1, x) {
      var c1: nat :| In(set_, c1) && c1 < c + 1 && Canonicalize(t, c1, unicode) == x;
    }
  }

  /** Skipping characters that are not in the set. */
  lemma ImageSkip(t: Table, unicode: bool, set_: seq<nat>, c: nat, c': nat, ps: seq<(nat, nat)>, open: int, end: int)
    requires forall i :: 0 <= i < |t.entries| ==> EntryOk(t, t.entries[i])
    requires ImageBelow(t, unicode, set_, c, ps, open, end) && c <= c' && forall x: nat :: c <= x < c' ==> !In(set_, x)
    ensures ImageBelow(t, unicode, set_, c', ps, open, end)
  {
    hide In, Canonicalize, InPairs;
    forall d: nat ensures Reached(t, unicode, set_, c', d) == Reached(t, unicode, set_, c, d) {
      if Reached(t, unicode, set_, c', d) {
        var x: nat :| In(set_, x) && x < c' && Canonicalize(t, x, unicode) == d;
        assert x < c;
      }
    }
  }

  ghost predicate Masked(t: Table, unicode: bool, set_: seq<nat>) {
    forall c: nat :: In(set_, c) ==> InMask(t, c, unicode, |t.entries|)
  }

  /** No entry before the cursor can cover a character from `c` on. */
  ghost predicate CursorAt(t: Table, idx: nat, c: nat) {
    idx < |t.entries| && forall m :: 0 <= m < idx ==> t.entries[m].code + t.entries[m].len <= c
  }

  /** Move the cursor to the entry that covers `c`; it never runs off the end. */
  method Advance(t: Table, unicode: bool, idx0: nat, c: nat) returns (idx: nat)
    requires SortedTable(t) && CursorAt(t, idx0, c) && InMask(t, c, unicode, |t.entries|)
    ensures CursorAt(t, idx, c) && Touches(t.entries[idx], c, unicode)
  {
    ghost var j :| 0 <= j < |t.entries| && Touches(t.entries[j], c, unicode);
    idx := idx0;
    while !Covers(t.entries[idx], c)
      invariant idx <= j && CursorAt(t, idx, c)
      decreases |t.entries| - idx
    {
      assert t.entries[idx].code + t.entries[idx].len <= t.entries[j].code;
      idx := idx + 1;
    }
    OneCovers(t, c, idx);
    OneCovers(t, c, j);
  }

  /** The loop over the part of the set that lies in the mask. */
  method Image(t: Table, unicode: bool, inter: seq<nat>) returns (cr: Range)
    requires ValidTable(t, unicode) && Strict(inter) && Masked(t, unicode, inter)
    ensures fresh(cr) && |cr.points| % 2 == 0 && Proper(PairsOf(cr.points))
    ensures UpTo(cr.points, UINT32_MAX)
    ensures forall d: nat :: InPairs(PairsOf(cr.points), d) <==>
              exists c: nat :: In(inter, c) && Canonicalize(t, c, unicode) == d
  {
    hide In, Canonicalize, InMask, FoldEntry, InPairs, ImageBelow, CursorAt;
    cr := new Range();
    var dStart: int, dEnd: int, idx: nat, i := -1, -1, 0, 0;
    ghost var at: nat := 0;
    StartImage(t, unicode, inter);
    while i < |inter|
      invariant 0 <= i <= |inter| && i % 2 == 0 && fresh(cr) && |cr.points| % 2 == 0
      invariant i == 0 ==> at == 0
      invariant i > 0 ==> at == inter[i - 1]
      invariant CursorAt(t, idx, at) && UpTo(cr.points, UINT32_MAX) && -1 <= dStart && dEnd <= UINT32_MAX
      invariant ImageBelow(t, unicode, inter, at, PairsOf(cr.points), dStart, dEnd)
    {
      var start, end := inter[i], inter[i + 1];
      GapBefore(inter, i, at);
      ImageSkip(t, unicode, inter, at, start, PairsOf(cr.points), dStart, dEnd);
      CursorLater(t, idx, at, start);
      idx, dStart, dEnd := ImageRun(t, unicode, inter, i, cr, idx, dStart, dEnd);
      at := end;
      i := i + 2;
    }
    ghost var ps := PairsOf(cr.points);
    LastGap(inter, at);
    OpenProper(t, unicode, inter, at, ps, dStart, dEnd);
    if dStart != -1 {
      PairsSnoc(cr.points, dStart, dEnd);
      cr.AddInterval(dStart, dEnd);
    }
    ImageDone(t, unicode, inter, at, ps, dStart, dEnd, PairsOf(cr.points));
  }

  lemma StartImage(t: Table, unicode: bool, set_: seq<nat>)
    requires SortedTable(t)
    ensures PairsOf([]) == [] && CursorAt(t, 0, 0) && ImageBelow(t, unicode, set_, 0, [], -1, -1)
  {
    hide In, Canonicalize;
  }

  lemma GapBefore(inter: seq<nat>, i: nat, at: nat)
    requires Strict(inter) && i % 2 == 0 && i < |inter| && (if i == 0 then at == 0 else at == inter[i - 1])
    ensures at <= inter[i] < inter[i + 1] && forall x: nat :: at <= x < inter[i] ==> !In(inter, x)
  {
    hide In;
    forall x: nat | at <= x < inter[i] ensures !In(inter, x) {
      if i == 0 {
        BeforeFirst(inter, x);
      } else {
        assert 2 * ((i - 2) / 2) + 1 == i - 1;
        AtInterval(inter, (i - 2) / 2, x);
      }
    }
  }

  lemma LastGap(inter: seq<nat>, at: nat)
    requires Strict(inter) && (inter != [] ==> at == inter[|inter| - 1])
    ensures forall x: nat :: at <= x ==> !In(inter, x)
  {
    hide In;
    forall x: nat | at <= x ensures !In(inter, x) {
      if inter == [] {
        BeforeFirst(inter, x);
      } else {
        assert 2 * (|inter| / 2 - 1) + 1 == |inter| - 1;
        AtInterval(inter, |inter| / 2 - 1, x);
      }
    }
  }

  lemma CursorLater(t: Table, idx: nat, c: nat, c': nat)
    requires CursorAt(t, idx, c) && c <= c'
    ensures CursorAt(t, idx, c')
  {
  }

  lemma PairsSnoc(points: seq<nat>, lo: nat, hi: nat)
    requires |points| % 2 == 0
    ensures PairsOf(points + [lo, hi]) == PairsOf(points) + [(lo, hi)]
  {
  }

  lemma ImageDone(t: Table, unicode: bool, set_: seq<nat>, at: nat, ps: seq<(nat, nat)>, open: int, end: int,
                  qs: seq<(nat, nat)>)
    requires forall i :: 0 <= i < |t.entries| ==> EntryOk(t, t.entries[i])
    requires ImageBelow(t, unicode, set_, at, ps, open, end) && forall x: nat :: at <= x ==> !In(set_, x)
    requires open >= -1 && qs == if open >= 0 then ps + [(open, end)] else ps
    ensures Proper(qs)
    ensures forall d: nat :: InPairs(qs, d) <==> exists c: nat :: In(set_, c) && Canonicalize(t, c, unicode) == d
  {
    hide In, Canonicalize, InPairs;
    forall d: nat ensures InPairs(qs, d) <==> exists c: nat :: In(set_, c) && Canonicalize(t, c, unicode) == d {
      if open >= 0 {
        InPairsConcat(ps, [(open, end)], d);
        CoverOne((open, end));
        assert InPairs([(open, end)], d) == (open <= d < end);
      }
      assert Collects(ps, open, end, d) == Reached(t, unicode, set_, at, d);
      if c: nat :| In(set_, c) && Canonicalize(t, c, unicode) == d { assert c < at; }
    }
  }

  /** The characters of one interval. */
  method ImageRun(t: Table, unicode: bool, inter: seq<nat>, i: nat, cr: Range, idx0: nat, dStart0: int, dEnd0: int)
    returns (idx: nat, dStart: int, dEnd: int)
    requires ValidTable(t, unicode) && Strict(inter) && Masked(t, unicode, inter) && i % 2 == 0 && i + 1 < |inter|
    requires CursorAt(t, idx0, inter[i]) && |cr.points| % 2 == 0 && UpTo(cr.points, UINT32_MAX)
    requires dStart0 >= -1 && dEnd0 <= UINT32_MAX && inter[i] < inter[i + 1]
    requires ImageBelow(t, unicode, inter, inter[i], PairsOf(cr.points), dStart0, dEnd0)
    modifies cr
    ensures CursorAt(t, idx, inter[i + 1]) && |cr.points| % 2 == 0 && UpTo(cr.points, UINT32_MAX)
    ensures dStart >= -1 && dEnd <= UINT32_MAX
    ensures ImageBelow(t, unicode, inter, inter[i + 1], PairsOf(cr.points), dStart, dEnd)
  {
    hide In, Canonicalize, InMask, FoldEntry, InPairs, ImageBelow, CursorAt, Touches;
    idx, dStart, dEnd := idx0, dStart0, dEnd0;
    var c := inter[i];
    while c < inter[i + 1]
      invariant inter[i] <= c <= inter[i + 1] && |cr.points| % 2 == 0 && UpTo(cr.points, UINT32_MAX)
      invariant dStart >= -1 && dEnd <= UINT32_MAX
      invariant CursorAt(t, idx, c) && ImageBelow(t, unicode, inter, c, PairsOf(cr.points), dStart, dEnd)
    {
      assert 2 * (i / 2) == i;
      AtInterval(inter, i / 2, c);
      idx := Advance(t, unicode, idx, c);
      CursorIn(t, idx, c);
      InsideMaskFolded(t, c, unicode, idx);
      TouchedCovered(t.entries[idx], c, unicode);
      var d := FoldEntry(t, c, t.entries[idx], unicode);
      OpenProper(t, unicode, inter, c, PairsOf(cr.points), dStart, dEnd);
      ImageOne(t, unicode, inter, c, PairsOf(cr.points), dStart, dEnd, d);
      if dStart == -1 {
        dStart, dEnd := d, d + 1;
      } else if dEnd == d {
        dEnd := dEnd + 1;
      } else {
        PairsSnoc(cr.points, dStart, dEnd);
        cr.AddInterval(dStart, dEnd);
        dStart, dEnd := d, d + 1;
      }
      CursorLater(t, idx, c, c + 1);
      c := c + 1;
    }
  }

  lemma OpenProper(t: Table, unicode: bool, set_: seq<nat>, below: nat, ps: seq<(nat, nat)>, open: int, end: int)
    requires forall i :: 0 <= i < |t.entries| ==> EntryOk(t, t.entries[i])
    requires ImageBelow(t, unicode, set_, below, ps, open, end)
    ensures open >= 0 ==> open < end
  {
  }

  lemma CursorIn(t: Table, idx: nat, c: nat)
    requires CursorAt(t, idx, c)
    ensures idx < |t.entries|
  {
  }

  lemma TouchedCovered(e: Entry, c: nat, unicode: bool)
    requires Touches(e, c, unicode)
    ensures Covers(e, c)
  {
  }

  /* ----- the whole set ----- */

  ghost predicate IsImage(t: Table, unicode: bool, before: seq<nat>, after: seq<nat>)
    requires forall i :: 0 <= i < |t.entries| ==> EntryOk(t, t.entries[i])
  {
    forall d: nat :: In(after, d) <==> exists c: nat :: In(before, c) && Canonicalize(t, c, unicode) == d
  }

  /** cr_regexp_canonicalize: the image of the set under lre_canonicalize. */
  method RegexpCanonicalize(t: Table, cr: Range, unicode: bool)
    requires ValidTable(t, unicode) && Intervals(cr.points) && Bounded(cr.points)
    modifies cr
    ensures Strict(cr.points) && IsImage(t, unicode, old(cr.points), cr.points)
  {
    hide In, Canonicalize, InMask, FoldEntry, InPairs, Strict, Intervals, Apply, Touches;
    ghost var before := cr.points;
    var mask := CaseMask(t, unicode);
    ghost var m := mask.points;
    MaskBounded(t, m, unicode);
    var inter := new Range();
    inter.Operate(mask.points, cr.points, Inter);
    mask.Invert();
    StrictIntervals(mask.points);
    var sub := new Range();
    sub.Operate(mask.points, cr.points, Inter);
    InterMasked(t, unicode, m, before, inter.points);
    var result := Image(t, unicode, inter.points);
    SortAndRemoveOverlap(result);
    StrictIntervals(result.points);
    StrictIntervals(sub.points);
    cr.points := [];
    cr.Operate(result.points, sub.points, Union);
    JoinImages(t, unicode, before, m, mask.points, inter.points, sub.points, result.points, cr.points);
  }

  lemma MaskBounded(t: Table, points: seq<nat>, unicode: bool)
    requires ValidTable(t, unicode) && UpTo(points, t.entries[|t.entries| - 1].code + t.entries[|t.entries| - 1].len)
    ensures Bounded(points)
  {
    hide InMask, FoldEntry, EntryOk;
  }

  lemma InterMasked(t: Table, unicode: bool, m: seq<nat>, before: seq<nat>, inter: seq<nat>)
    requires forall c: nat :: In(m, c) == InMask(t, c, unicode, |t.entries|)
    requires forall c: nat :: In(inter, c) == Apply(Inter, In(m, c), In(before, c))
    ensures Masked(t, unicode, inter)
  {
    hide In, InMask;
  }

  lemma JoinImages(t: Table, unicode: bool, before: seq<nat>, m: seq<nat>, inverse: seq<nat>, inter: seq<nat>,
                   sub: seq<nat>, result: seq<nat>, after: seq<nat>)
    requires ValidTable(t, unicode) && Intervals(before) && Bounded(before)
    requires forall c: nat :: In(m, c) == InMask(t, c, unicode, |t.entries|)
    requires forall c: nat :: In(inverse, c) == (c < UINT32_MAX && !In(m, c))
    requires forall c: nat :: In(inter, c) == Apply(Inter, In(m, c), In(before, c))
    requires forall c: nat :: In(sub, c) == Apply(Inter, In(inverse, c), In(before, c))
    requires forall d: nat :: In(result, d) <==> exists c: nat :: In(inter, c) && Canonicalize(t, c, unicode) == d
    requires forall d: nat :: In(after, d) == Apply(Union, In(result, d), In(sub, d))
    ensures IsImage(t, unicode, before, after)
  {
    hide In, Canonicalize, InMask, FoldEntry, Intervals, SortedTable, ValidTable;
    TableOk(t, unicode);
    forall d: nat ensures In(after, d) <==> exists c: nat :: In(before, c) && Canonicalize(t, c, unicode) == d {
      JoinAt(t, unicode, before, m, inverse, inter, sub, result, after, d);
    }
  }

  lemma TableOk(t: Table, unicode: bool)
    requires ValidTable(t, unicode)
    ensures forall i :: 0 <= i < |t.entries| ==> EntryOk(t, t.entries[i])
  {
    hide EntryOk, InMask, FoldEntry, Touches;
  }

  lemma JoinAt(t: Table, unicode: bool, before: seq<nat>, m: seq<nat>, inverse: seq<nat>, inter: seq<nat>,
               sub: seq<nat>, result: seq<nat>, after: seq<nat>, d: nat)
    requires ValidTable(t, unicode) && Intervals(before) && Bounded(before)
    requires forall i :: 0 <= i < |t.entries| ==> EntryOk(t, t.entries[i])
    requires forall c: nat :: In(m, c) == InMask(t, c, unicode, |t.entries|)
    requires forall c: nat :: In(inverse, c) == (c < UINT32_MAX && !In(m, c))
    requires forall c: nat :: In(inter, c) == Apply(Inter, In(m, c), In(before, c))
    requires forall c: nat :: In(sub, c) == Apply(Inter, In(inverse, c), In(before, c))
    requires forall d: nat :: In(result, d) <==> exists c: nat :: In(inter, c) && Canonicalize(t, c, unicode) == d
    requires forall d: nat :: In(after, d) == Apply(Union, In(result, d), In(sub, d))
    ensures In(after, d) <==> exists c: nat :: In(before, c) && Canonicalize(t, c, unicode) == d
  {
    hide In, Canonicalize, InMask, FoldEntry, Intervals, SortedTable, ValidTable;
    if In(sub, d) { OutsideMaskFixed(t, d, unicode); }
    if c: nat :| In(before, c) && Canonicalize(t, c, unicode) == d {
      if c >= UINT32_MAX { InBelowMax(before, c); }
      if In(m, c) {
        assert In(inter, c);
      } else {
        OutsideMaskFixed(t, c, unicode);
        assert In(sub, c);
      }
    }
  }

  lemma InBelowMax(points: seq<nat>, c: nat)
    requires Intervals(points) && Bounded(points) && c >= UINT32_MAX
    ensures !In(points, c)
  {
    Above(points, c);
  }
}
