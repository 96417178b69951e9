/** What an ignore-case class means. The parser folds the set of a class with
    cr_regexp_canonicalize and the machine folds the subject, which together is the
    CharacterSetMatcher of ECMA-262: some member folds to what the character folds to. */
module ClassMeaning {
  import opened Syntax
  import opened Semantics
  import opened Machine
  import opened Compiler
  import opened Leaves
  import opened CharRange
  import opened CaseFold

  /** The characters of the world are folded by this table. */
  ghost predicate FoldsBy(w: World, t: Table, unicode: bool)
    requires forall i :: 0 <= i < |t.entries| ==> EntryOk(t, t.entries[i])
  {
    forall c: CodePoint :: w.canon(c) == Canonicalize(t, c, unicode)
  }

  /** CharacterSetMatcher (section 22.2.2.7.1): some member of the set folds to what
      the character folds to. */
  ghost predicate SomeFolds(t: Table, unicode: bool, members: seq<nat>, c: nat)
    requires forall i :: 0 <= i < |t.entries| ==> EntryOk(t, t.entries[i])
  {
    exists a: nat :: In(members, a) && Canonicalize(t, a, unicode) == Canonicalize(t, c, unicode)
  }

  lemma FoldBelow(t: Table, c: nat, unicode: bool)
    requires ValidTable(t, unicode) && c < UINT32_MAX
    ensures Canonicalize(t, c, unicode) < UINT32_MAX
  {
    hide Canonicalize, FoldEntry;
    if InMask(t, c, unicode, |t.entries|) {
      var i :| 0 <= i < |t.entries| && Touches(t.entries[i], c, unicode);
      InsideMaskFolded(t, c, unicode, i);
    } else {
      OutsideMaskFixed(t, c, unicode);
    }
  }

  /** The folded set is a class that can be emitted. */
  lemma ImageIsClass(t: Table, unicode: bool, before: seq<nat>, after: seq<nat>)
    requires ValidTable(t, unicode) && Intervals(before) && Bounded(before)
    requires Strict(after) && IsImage(t, unicode, before, after)
    ensures ValidPoints(after)
  {
    hide In, Canonicalize, Intervals, Bounded, FoldEntry, ValidTable;
    TableOk(t, unicode);
    forall i | 0 <= i < |after| ensures after[i] <= UINT32_MAX {
      if after[i] > UINT32_MAX {
        var k := |after| - 1;
        var d := after[k] - 1;
        LastMember(after);
        var c: nat :| In(before, c) && Canonicalize(t, c, unicode) == d;
        if c >= UINT32_MAX { InBelowMax(before, c); }
        FoldBelow(t, c, unicode);
        assert false;
      }
    }
  }

  lemma LastMember(points: seq<nat>)
    requires Strict(points) && points != []
    ensures points[|points| - 1] > 0 && In(points, points[|points| - 1] - 1)
  {
    var n := |points|;
    assert points[n - 2] < points[n - 1];
    StrictIntervals(points);
    InIsInPoints(points, points[n - 1] - 1);
    assert Within(points, n / 2 - 1, points[n - 1] - 1);
  }

  /** A folded class matches as the standard says. */
  lemma FoldedClass(w: World, t: Table, unicode: bool, before: seq<nat>, after: seq<nat>, c: CodePoint)
    requires ValidTable(t, unicode) && FoldsBy(w, t, unicode)
    requires Strict(after) && IsImage(t, unicode, before, after)
    ensures Holds(w, Class(after, true), c) <==> SomeFolds(t, unicode, before, c)
  {
    hide In, Canonicalize, ValidTable;
    StrictIntervals(after);
    InIsInPoints(after, w.canon(c));
  }

  /** A negated class is folded first and inverted then. */
  lemma NegatedClass(w: World, t: Table, unicode: bool, before: seq<nat>, after: seq<nat>, inverse: seq<nat>,
                     c: CodePoint)
    requires ValidTable(t, unicode) && FoldsBy(w, t, unicode)
    requires IsImage(t, unicode, before, after)
    requires Strict(inverse) && forall d: nat :: In(inverse, d) == (d < UINT32_MAX && !In(after, d))
    ensures Holds(w, Class(inverse, true), c) <==> !SomeFolds(t, unicode, before, c)
  {
    hide In, Canonicalize, ValidTable;
    StrictIntervals(inverse);
    InIsInPoints(inverse, w.canon(c));
  }

  /** The parts of a class are folded one by one: the union of images is the image of
      the union. */
  lemma ImageOfUnion(t: Table, unicode: bool, b1: seq<nat>, a1: seq<nat>, b2: seq<nat>, a2: seq<nat>,
                     before: seq<nat>, after: seq<nat>)
    requires forall i :: 0 <= i < |t.entries| ==> EntryOk(t, t.entries[i])
    requires IsImage(t, unicode, b1, a1) && IsImage(t, unicode, b2, a2)
    requires forall c: nat :: In(before, c) == Apply(Union, In(b1, c), In(b2, c))
    requires forall d: nat :: In(after, d) == Apply(Union, In(a1, d), In(a2, d))
    ensures IsImage(t, unicode, before, after)
  {
    hide In, Canonicalize;
    forall d: nat ensures In(after, d) <==> exists c: nat :: In(before, c) && Canonicalize(t, c, unicode) == d {
      if In(a1, d) { var c: nat :| In(b1, c) && Canonicalize(t, c, unicode) == d; }
      if In(a2, d) { var c: nat :| In(b2, c) && Canonicalize(t, c, unicode) == d; }
    }
  }

  /** From the set to the machine: the emitted instruction accepts a character if and
      only if some member of the class folds to what it folds to. */
  lemma EmittedClass(w: World, t: Table, unicode: bool, before: seq<nat>, after: seq<nat>, c: CodePoint)
    requires ValidTable(t, unicode) && FoldsBy(w, t, unicode) && Intervals(before) && Bounded(before)
    requires Strict(after) && IsImage(t, unicode, before, after)
    ensures Accepts(w, RangeOp(after, true), c) <==> SomeFolds(t, unicode, before, c)
  {
    hide In, Accepts, RangeOp, ValidTable, IsImage, SomeFolds, Strict;
    ImageIsClass(t, unicode, before, after);
    ClassTest(w, after, true, c);
    FoldedClass(w, t, unicode, before, after, c);
  }
}
