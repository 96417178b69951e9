/** What the runs of the case-conversion table do to characters beyond ASCII, run type
    by run type, and which of them the mask of a mode holds. */
module CaseRuns {
  import opened Syntax
  import opened Semantics
  import opened CharRange
  import opened CaseFold

  /** Character `a` of run `i`; ASCII does not go through the table. */
  ghost predicate Inside(t: Table, i: nat, a: nat) {
    && SortedTable(t) && i < |t.entries| && a < t.entries[i].len
    && t.entries[i].code + a >= 128
  }

  function At(t: Table, i: nat, a: nat): nat
    requires i < |t.entries|
  {
    t.entries[i].code + a
  }

  lemma Found(t: Table, i: nat, a: nat, unicode: bool)
    requires Inside(t, i, a)
    ensures EntryOk(t, t.entries[i]) && Covers(t.entries[i], At(t, i, a))
    ensures forall k :: 0 <= k < |t.entries| ==> EntryOk(t, t.entries[k])
    ensures Canonicalize(t, At(t, i, a), unicode) == FoldEntry(t, At(t, i, a), t.entries[i], unicode)
  {
    hide FoldEntry, Find, EntryOk;
    OneCovers(t, At(t, i, a), i);
  }

  lemma AllOk(t: Table)
    requires SortedTable(t)
    ensures forall k :: 0 <= k < |t.entries| ==> EntryOk(t, t.entries[k])
  {
    hide EntryOk;
  }

  /* ----- ASCII ----- */

  /** The two forms of each letter fold to one of them, and nothing else moves. */
  lemma AsciiLetters(t: Table, k: nat, unicode: bool)
    requires SortedTable(t) && k < 26
    ensures forall j :: 0 <= j < |t.entries| ==> EntryOk(t, t.entries[j])
    ensures var upper, lower := 0x41 + k, 0x61 + k;
            Canonicalize(t, upper, unicode) == Canonicalize(t, lower, unicode) == if unicode then lower else upper
  {
    AllOk(t);
  }

  lemma AsciiOthers(t: Table, c: nat, unicode: bool)
    requires SortedTable(t) && c < 128 && !(0x41 <= c < 0x41 + 26) && !(0x61 <= c < 0x61 + 26)
    ensures forall j :: 0 <= j < |t.entries| ==> EntryOk(t, t.entries[j])
    ensures Canonicalize(t, c, unicode) == c
  {
    AllOk(t);
  }

  /* ----- pairs and triples ----- */

  /** Upper and lower case by turns: the two of a pair fold to the upper one, in unicode
      mode to the lower one. */
  lemma PairsFold(t: Table, i: nat, a: nat, unicode: bool)
    requires Inside(t, i, 2 * a) && 2 * a + 1 < t.entries[i].len && t.entries[i].run == RunUL
    ensures forall j :: 0 <= j < |t.entries| ==> EntryOk(t, t.entries[j])
    ensures var upper, lower := At(t, i, 2 * a), At(t, i, 2 * a + 1);
            Canonicalize(t, upper, unicode) == Canonicalize(t, lower, unicode) == if unicode then lower else upper
  {
    hide Canonicalize;
    Found(t, i, 2 * a, unicode);
    Found(t, i, 2 * a + 1, unicode);
  }

  /** Upper, title and lower case of one letter fold to the upper one, in unicode mode
      to the lower one. */
  lemma TripleFolds(t: Table, i: nat, unicode: bool)
    requires Inside(t, i, 0) && t.entries[i].run == RunLSU
    ensures t.entries[i].len == 3 && forall j :: 0 <= j < |t.entries| ==> EntryOk(t, t.entries[j])
    ensures var upper, title, lower := At(t, i, 0), At(t, i, 1), At(t, i, 2);
            Canonicalize(t, upper, unicode) == Canonicalize(t, title, unicode) == Canonicalize(t, lower, unicode)
              == if unicode then lower else upper
  {
    hide Canonicalize;
    Found(t, i, 0, unicode);
    Found(t, i, 1, unicode);
    Found(t, i, 2, unicode);
  }

  /* ----- runs that are shifted as a whole ----- */

  /** Whether the run moves in a mode: U and UF have upper-case forms, UF and LF folded
      ones. */
  predicate Shifts(run: RunType, unicode: bool) {
    if unicode then run == RunUF || run == RunLF else run == RunU || run == RunUF
  }

  /** Such a run goes in order, without gaps, to the characters from the start of the
      run that its operand names; in the other mode it stays. */
  lemma RunShifts(t: Table, i: nat, a: nat, unicode: bool)
    requires Inside(t, i, a) && t.entries[i].run in {RunU, RunL, RunUF, RunLF}
    ensures t.entries[i].data < |t.entries| && forall j :: 0 <= j < |t.entries| ==> EntryOk(t, t.entries[j])
    ensures var c, target := At(t, i, a), At(t, t.entries[i].data, a);
            Canonicalize(t, c, unicode)
              == if Shifts(t.entries[i].run, unicode) && (unicode || target >= 128) then target else c
  {
    hide Canonicalize;
    Found(t, i, a, unicode);
  }

  /* ----- runs with a target of their own ----- */

  /** The upper-case form of UFD20 is the operand, and the folded form 0x20 behind it;
      for UFD1Ext the form comes from the extension table and the folded one is next to
      it. */
  lemma OwnTarget(t: Table, i: nat, a: nat)
    requires Inside(t, i, a) && t.entries[i].run in {RunUFD20, RunUFD1Ext}
    ensures t.entries[i].run == RunUFD1Ext ==> t.entries[i].data < |t.ext|
    ensures forall j :: 0 <= j < |t.entries| ==> EntryOk(t, t.entries[j])
    ensures var c, e := At(t, i, a), t.entries[i];
            var upper := if e.run == RunUFD20 then e.data else t.ext[e.data];
            && Canonicalize(t, c, false) == (if upper >= 128 then upper else c)
            && Canonicalize(t, c, true) == upper + if e.run == RunUFD20 then 32 else 1
  {
    hide Canonicalize;
    Found(t, i, a, false);
    Found(t, i, a, true);
  }

  /** UExt moves in legacy mode only and LFExt in unicode mode only. */
  lemma OneMode(t: Table, i: nat, a: nat, unicode: bool)
    requires Inside(t, i, a) && t.entries[i].run in {RunUExt, RunLFExt}
    ensures t.entries[i].data < |t.ext| && forall j :: 0 <= j < |t.entries| ==> EntryOk(t, t.entries[j])
    ensures var c, target := At(t, i, a), t.ext[t.entries[i].data];
            Canonicalize(t, c, unicode)
              == if unicode == (t.entries[i].run == RunLFExt) && (unicode || target >= 128) then target else c
  {
    hide Canonicalize;
    Found(t, i, a, unicode);
  }

  /** Greek capitals with prosgegrammeni have two upper-case characters and stay in legacy
      mode; their folded forms are in order from the one the operand names. */
  lemma Prosgegrammeni(t: Table, i: nat, a: nat)
    requires Inside(t, i, a) && t.entries[i].run == RunU2LExt2
    ensures t.entries[i].data % 64 < |t.ext| && forall j :: 0 <= j < |t.entries| ==> EntryOk(t, t.entries[j])
    ensures Canonicalize(t, At(t, i, a), false) == At(t, i, a)
    ensures Canonicalize(t, At(t, i, a), true) == t.ext[t.entries[i].data % 64] + a
  {
    hide Canonicalize;
    Found(t, i, a, false);
    Found(t, i, a, true);
  }

  /** Characters with several converted characters stay, but for three ligatures and
      accented letters that in unicode mode fold to their equals. */
  lemma SeveralStay(t: Table, i: nat, a: nat, unicode: bool)
    requires Inside(t, i, a) && t.entries[i].run in {RunLFExt2, RunUFExt2, RunUFExt3}
    ensures forall j :: 0 <= j < |t.entries| ==> EntryOk(t, t.entries[j])
    ensures var c := At(t, i, a);
            && (!unicode || c !in {0xfb06, 0x1fd3, 0x1fe3} ==> Canonicalize(t, c, unicode) == c)
            && (unicode && c == 0xfb06 ==> Canonicalize(t, c, unicode) == c - 1)
            && (unicode && c == 0x1fd3 ==> Canonicalize(t, c, unicode) == 0x0390)
            && (unicode && c == 0x1fe3 ==> Canonicalize(t, c, unicode) == 0x03b0)
  {
    hide Canonicalize;
    Found(t, i, a, unicode);
  }

  /** A character that no run covers stays. */
  lemma UncoveredStay(t: Table, c: nat, unicode: bool)
    requires SortedTable(t) && c >= 128 && forall i :: 0 <= i < |t.entries| ==> !Covers(t.entries[i], c)
    ensures forall j :: 0 <= j < |t.entries| ==> EntryOk(t, t.entries[j])
    ensures Canonicalize(t, c, unicode) == c
  {
    AllOk(t);
  }

  /* ----- lower case ----- */

  /** The lower-case form: both of a pair have the lower one, all of a triple the last;
      L and LF go in order from the start of the run that the operand names; upper-case
      targets do not matter. */
  lemma LowerCase(t: Table, i: nat, a: nat)
    requires Inside(t, i, a)
    ensures EntryOk(t, t.entries[i]) && Covers(t.entries[i], At(t, i, a))
    ensures var e, c := t.entries[i], At(t, i, a);
            var lower := ConvEntry(t, c, ToLower, e);
            && (e.run == RunUL ==> lower == Some(At(t, i, 2 * (a / 2) + 1)))
            && (e.run == RunLSU ==> lower == Some(At(t, i, 2)))
            && (e.run in {RunL, RunLF} ==> lower == Some(At(t, e.data, a)))
            && (e.run == RunLFExt ==> lower == Some(t.ext[e.data]))
            && (e.run == RunU2LExt2 ==> lower == Some(t.ext[e.data % 64] + a))
            && (e.run == RunLFExt2 ==> lower.None?)
            && (e.run in {RunU, RunUF, RunUFD20, RunUFD1Ext, RunUExt, RunUFExt2, RunUFExt3} ==> lower == Some(c))
  {
    hide Canonicalize;
    Found(t, i, a, false);
  }

  /* ----- the mask ----- */

  /** Some operand makes a run of this type change the character. */
  ghost predicate CanChange(run: RunType, a: nat, unicode: bool) {
    exists t: Table, e: Entry ::
      && e.run == run && EntryOk(t, e) && Covers(e, e.code + a)
      && ConvEntry(t, e.code + a, if unicode then ToFolded else ToUpper, e) != Some(e.code + a)
  }

  /** A sample table in which the operand makes a difference. */
  function Sample(run: RunType, len: nat): (Table, Entry) {
    var e := Entry(200, len, run, 0);
    (Table([Entry(5000, 1, RunU, 0)], [0]), e)
  }

  /** The mask of a mode holds exactly the characters that the runs can change in it. */
  lemma MaskIsChange(run: RunType, a: nat, unicode: bool)
    requires run == RunLSU ==> a < 3
    ensures Modified(run, a, unicode) <==> CanChange(run, a, unicode)
  {
    if Modified(run, a, unicode) {
      var (t, e) := Sample(run, if run == RunLSU then 3 else 2 * (a + 1));
      assert EntryOk(t, e) && Covers(e, e.code + a);
      ChangesSample(run, a, unicode, t, e);
    } else {
      forall t: Table, e: Entry | e.run == run && EntryOk(t, e) && Covers(e, e.code + a)
        ensures ConvEntry(t, e.code + a, if unicode then ToFolded else ToUpper, e) == Some(e.code + a)
      {
        NeverChanges(run, a, unicode, t, e);
      }
    }
  }

  lemma ChangesSample(run: RunType, a: nat, unicode: bool, t: Table, e: Entry)
    requires Modified(run, a, unicode) && (run == RunLSU ==> a < 3)
    requires (t, e) == Sample(run, if run == RunLSU then 3 else 2 * (a + 1)) && EntryOk(t, e) && Covers(e, e.code + a)
    ensures ConvEntry(t, e.code + a, if unicode then ToFolded else ToUpper, e) != Some(e.code + a)
  {
  }

  lemma NeverChanges(run: RunType, a: nat, unicode: bool, t: Table, e: Entry)
    requires !Modified(run, a, unicode) && e.run == run && EntryOk(t, e) && Covers(e, e.code + a)
    ensures ConvEntry(t, e.code + a, if unicode then ToFolded else ToUpper, e) == Some(e.code + a)
  {
  }
}
