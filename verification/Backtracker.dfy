/** lre_exec_backtrack: one loop over a byte program, one stack that holds choice
    points and, between them, the undo log. */
module Backtracker {
  import opened Syntax
  import opened Semantics
  import opened Bytecode
  import opened Machine
  import opened UndoLog
  import opened Encoding

  /** A stack cell. A choice point is the three cells Addr, Place, Link; a log entry
      the two cells Slot, Was. Upto replaces a Link while a lookahead is compacted. */
  datatype Cell =
    | Slot(idx: nat)
    | Was(v: Value)
    | Addr(pc: int)
    | Place(pos: nat)
    | Link(bp: nat, kind: Kind)
    | Upto(sp: nat)

  function LogCells(log: seq<Undo>): (r: seq<Cell>)
    ensures |r| == 2 * |log|
    decreases |log|
  {
    if log == [] then [] else LogCells(log[..|log| - 1]) + [Slot(log[|log| - 1].idx), Was(log[|log| - 1].was)]
  }

  /** Everything up to and including the innermost choice point. */
  function Below(marks: seq<Mark>): seq<Cell>
    decreases |marks|
  {
    if marks == [] then []
    else
      var under := Below(marks[1..]);
      under + LogCells(marks[0].below) + [Addr(marks[0].pc), Place(marks[0].pos), Link(|under|, marks[0].kind)]
  }

  ghost predicate LogOk(log: seq<Undo>, n: nat) {
    forall i :: 0 <= i < |log| ==> log[i].idx < n
  }

  ghost predicate MarksOk(marks: seq<Mark>, n: nat, end: nat) {
    forall i :: 0 <= i < |marks| ==> LogOk(marks[i].below, n) && marks[i].pos <= end
  }

  lemma {:induction false} LogCellsConcat(a: seq<Undo>, b: seq<Undo>)
    ensures LogCells(a + b) == LogCells(a) + LogCells(b)
    decreases |b|
  {
    if b == [] {
      assert a + b == a;
    } else {
      var n := |a + b| - 1;
      assert (a + b)[n] == b[|b| - 1] && (a + b)[..n] == a + b[..|b| - 1];
      LogCellsConcat(a, b[..|b| - 1]);
    }
  }

  lemma LogCellsSnoc(log: seq<Undo>, u: Undo)
    ensures LogCells(log + [u]) == LogCells(log) + [Slot(u.idx), Was(u.was)]
  {
    assert (log + [u])[..|log|] == log;
  }

  /** Entry `k` of a log occupies the cells 2k and 2k + 1. */
  lemma {:induction false} LogCellsAt(log: seq<Undo>, k: nat)
    requires k < |log|
    ensures LogCells(log)[2 * k] == Slot(log[k].idx) && LogCells(log)[2 * k + 1] == Was(log[k].was)
    decreases |log|
  {
    if k < |log| - 1 { LogCellsAt(log[..|log| - 1], k); }
  }

  /** Where failure leads: the innermost choice point that is not a lookahead. */
  function Resume(mem: seq<Value>, log: seq<Undo>, marks: seq<Mark>): LogConf
    decreases |marks|
  {
    if marks == [] then LFail
    else
      var m, f := Rewind(mem, log), marks[0];
      if f.kind == Ahead then Resume(m, f.below, marks[1..]) else LRun(f.pc, f.pos, m, f.below, marks[1..])
  }

  /* ----- compaction at the end of a lookahead ----- */

  /** A discarded choice point with the log segment above it. */
  datatype Seg = Seg(pc: int, pos: nat, log: seq<Undo>)

  /** Discarded choice points, lowest first, from cell `start` on; each records where
      its segment ends. */
  function Upper(segs: seq<Seg>, start: nat): (r: seq<Cell>)
    decreases |segs|
  {
    if segs == [] then []
    else
      var next := start + 3 + 2 * |segs[0].log|;
      [Addr(segs[0].pc), Place(segs[0].pos), Upto(next)] + LogCells(segs[0].log) + Upper(segs[1..], next)
  }

  function JoinAll(segs: seq<Seg>): seq<Undo>
    decreases |segs|
  {
    if segs == [] then [] else segs[0].log + JoinAll(segs[1..])
  }

  ghost predicate SegsOk(segs: seq<Seg>, n: nat) {
    forall i :: 0 <= i < |segs| ==> LogOk(segs[i].log, n)
  }

  lemma {:induction false} MergeAppend(kind: Kind, a: seq<Undo>, b: seq<Undo>, marks: seq<Mark>)
    ensures MergeTo(kind, a, marks).None? <==> MergeTo(kind, a + b, marks).None?
    ensures MergeTo(kind, a, marks).Some? ==>
              var (f, joined, rest) := MergeTo(kind, a, marks).value;
              MergeTo(kind, a + b, marks) == Some((f, joined + b, rest))
    decreases |marks|
  {
    if marks != [] {
      assert marks[0].below + (a + b) == (marks[0].below + a) + b;
      if marks[0].kind != kind { MergeAppend(kind, marks[0].below + a, b, marks[1..]); }
    }
  }

  /** What has been written since the negative lookahead was pushed. */
  ghost function Above(log: seq<Undo>, marks: seq<Mark>): seq<Undo>
    requires MergeTo(NotAhead, log, marks).Some?
  {
    var (f, joined, _) := MergeTo(NotAhead, log, marks).value;
    if |f.below| <= |joined| then joined[|f.below|..] else []
  }

  /** The log of the choice point comes first in the joined one. */
  lemma {:induction false} MergePrefix(kind: Kind, log: seq<Undo>, marks: seq<Mark>)
    ensures MergeTo(kind, log, marks).Some? ==>
              MergeTo(kind, log, marks).value.0.below <= MergeTo(kind, log, marks).value.1
    decreases |marks|
  {
    if marks != [] && marks[0].kind != kind { MergePrefix(kind, marks[0].below + log, marks[1..]); }
  }

  lemma BelowAndAbove(mem: seq<Value>, below: seq<Undo>, joined: seq<Undo>)
    requires below <= joined
    ensures Rewind(mem, joined) == Rewind(Rewind(mem, joined[|below|..]), below)
  {
    assert joined == below + joined[|below|..];
    RewindConcat(mem, below, joined[|below|..]);
  }

  /** Undoing the newest segment first. */
  lemma MergeFromEmpty(mem: seq<Value>, log: seq<Undo>, marks: seq<Mark>)
    requires MergeTo(NotAhead, log, marks).Some?
    ensures marks != []
    ensures var a, b := MergeTo(NotAhead, [], marks), MergeTo(NotAhead, log, marks);
            a.Some? && a.value.0 == b.value.0 && a.value.2 == b.value.2
    ensures Rewind(mem, Above(log, marks)) == Rewind(Rewind(mem, log), Above([], marks))
  {
    hide Rewind;
    assert [] + log == log;
    MergeAppend(NotAhead, [], log, marks);
    MergePrefix(NotAhead, [], marks);
    var (f, joined, _) := MergeTo(NotAhead, [], marks).value;
    assert (joined + log)[|f.below|..] == joined[|f.below|..] + log;
    RewindConcat(mem, joined[|f.below|..], log);
  }

  /** Taking the choice point off with nothing left to undo above it. */
  lemma MergePopped(marks: seq<Mark>, mem: seq<Value>)
    requires marks != [] && MergeTo(NotAhead, [], marks).Some?
    ensures var (f, _, rest) := MergeTo(NotAhead, [], marks).value;
            if marks[0].kind == NotAhead then
              f == marks[0] && rest == marks[1..] && Rewind(mem, Above([], marks)) == mem
            else
              var b := MergeTo(NotAhead, marks[0].below, marks[1..]);
              && b.Some? && b.value.0 == f && b.value.2 == rest
              && Above(marks[0].below, marks[1..]) == Above([], marks)
  {
    assert marks[0].below + [] == marks[0].below;
  }

  lemma LogOkConcat(a: seq<Undo>, b: seq<Undo>, n: nat)
    requires LogOk(a, n) && LogOk(b, n)
    ensures LogOk(a + b, n)
  {
  }

  /* ----- runs ----- */

  /** The buffer holds the program of the machine. */
  ghost predicate Represents(bc: seq<byte>, code: Program) {
    forall p: int :: p in code ==> 0 <= p && Dec(bc, p) == Some(code[p]) && OrderedInstr(code[p])
  }

  function Settle(c: LogConf): LogConf {
    match c
    case LBack(m, l, k) => Resume(m, l, k)
    case _ => c
  }

  predicate Ended(c: LogConf) { c.LDone? || c.LFail? }

  lemma {:induction false} StuckStays(vm: Vm, n: nat)
    ensures LSteps(vm, LStuck, n) == LStuck
    decreases n
  {
    if n > 0 { StuckStays(vm, n - 1); }
  }

  lemma {:induction false} FailStays(vm: Vm, n: nat)
    ensures LSteps(vm, LFail, n) == LFail
    decreases n
  {
    if n > 0 { FailStays(vm, n - 1); }
  }

  lemma {:induction false} DoneStays(vm: Vm, c: LogConf, n: nat)
    requires c.LDone?
    ensures LSteps(vm, c, n) == c
    decreases n
  {
    if n > 0 { DoneStays(vm, c, n - 1); }
  }

  /** A run that fails now passes through the state it resumes in. */
  lemma {:induction false} ResumeOnTheWay(vm: Vm, mem: seq<Value>, log: seq<Undo>, marks: seq<Mark>, n: nat)
    returns (k: nat)
    requires Ended(LSteps(vm, LBack(mem, log, marks), n))
    ensures k <= n && LSteps(vm, Resume(mem, log, marks), k) == LSteps(vm, LBack(mem, log, marks), n)
    decreases |marks|
  {
    assert n > 0;
    if marks == [] {
      k := n - 1;
    } else if marks[0].kind == Ahead {
      k := ResumeOnTheWay(vm, Rewind(mem, log), marks[0].below, marks[1..], n - 1);
    } else {
      k := n - 1;
    }
  }

  lemma ResumeSame(mem: seq<Value>, log: seq<Undo>, mem': seq<Value>, log': seq<Undo>, marks: seq<Mark>)
    requires Rewind(mem, log) == Rewind(mem', log')
    ensures Resume(mem, log, marks) == Resume(mem', log', marks)
  {
  }

  datatype Verdict = Go | Miss | Hit | Bad

  class ExecContext {
    const bc: seq<byte>
    const vm: Vm
    const capture: array<Value>
    var stackBuf: seq<Cell>
    var sp: nat
    var bp: nat
    var pc: int
    var cptr: nat
    ghost var log: seq<Undo>
    ghost var marks: seq<Mark>

    ghost predicate Valid()
      reads this, capture
    {
      && 2 * vm.ncap <= capture.Length
      && cptr <= |vm.w.text|
      && sp <= |stackBuf|
      && stackBuf[..sp] == Below(marks) + LogCells(log)
      && bp == |Below(marks)|
      && LogOk(log, capture.Length)
      && MarksOk(marks, capture.Length, |vm.w.text|)
    }

    /** The state of the undo-log machine that the fields represent. */
    ghost function Conf(): LogConf
      reads this, capture
    {
      LRun(pc, cptr, capture[..], log, marks)
    }

    constructor (bytes: seq<byte>, theVm: Vm, slots: array<Value>, start: nat)
      requires 2 * theVm.ncap <= slots.Length && start <= |theVm.w.text|
      ensures Valid() && bc == bytes && vm == theVm && capture == slots
      ensures Conf() == LRun(0, start, slots[..], [], [])
    {
      bc, vm, capture := bytes, theVm, slots;
      stackBuf := seq(32, i => Slot(0));
      sp, bp, pc, cptr := 0, 0, 0, start;
      log, marks := [], [];
    }

    /* ----- the stack ----- */

    /** Grow the stack; its contents are preserved. */
    method StackRealloc(n: nat)
      requires sp <= |stackBuf|
      modifies this`stackBuf
      ensures |stackBuf| >= n && |stackBuf| >= |old(stackBuf)| && stackBuf[..sp] == old(stackBuf)[..sp]
    {
      var newSize := |stackBuf| * 3 / 2;
      if newSize < n { newSize := n; }
      if newSize > |stackBuf| {
        stackBuf := stackBuf + seq(newSize - |stackBuf|, i => Slot(0));
      }
    }

    method CheckStackSpace(n: nat)
      requires sp <= |stackBuf|
      modifies this`stackBuf
      ensures |stackBuf| >= sp + n && stackBuf[..sp] == old(stackBuf)[..sp]
    {
      if |stackBuf| - sp < n { StackRealloc(sp + n); }
    }

    /** SAVE_CAPTURE. */
    method SaveCapture(idx: nat, value: Value)
      requires Valid() && idx < capture.Length
      modifies this`stackBuf, this`sp, this`log, capture
      ensures Valid()
      ensures capture[..] == old(capture[..])[idx := value]
      ensures log == Saved(old(capture[..]), old(log), idx)
    {
      LogCellsSnoc(log, Undo(idx, capture[idx]));
      PushEntry(idx);
      log := log + [Undo(idx, capture[idx])];
      capture[idx] := value;
    }

    method PushEntry(idx: nat)
      requires sp <= |stackBuf| && idx < capture.Length
      modifies this`stackBuf, this`sp
      ensures sp == old(sp) + 2 <= |stackBuf|
      ensures stackBuf[..sp] == old(stackBuf[..sp]) + [Slot(idx), Was(capture[idx])]
    {
      CheckStackSpace(2);
      stackBuf := stackBuf[sp := Slot(idx)][sp + 1 := Was(capture[idx])];
      sp := sp + 2;
    }

    /** SAVE_CAPTURE_CHECK: avoid saving the previous value if it is already saved
        since the last choice point. */
    method SaveCaptureCheck(idx: nat, value: Value)
      requires Valid() && idx < capture.Length
      modifies this`stackBuf, this`sp, this`log, capture
      ensures Valid()
      ensures capture[..] == old(capture[..])[idx := value]
      ensures log == SavedOnce(old(capture[..]), old(log), idx)
    {
      var found := IsSaved(idx);
      if found {
        capture[idx] := value;
      } else {
        SaveCapture(idx, value);
      }
    }

    /** The downward scan of the log segment of the innermost choice point. */
    method IsSaved(idx: nat) returns (found: bool)
      requires Valid()
      ensures found == Logged(log, idx)
    {
      var sp1 := sp;
      ghost var k := |log|;
      while sp1 > bp
        invariant bp <= sp1 <= sp && sp1 == bp + 2 * k && k <= |log|
        invariant forall i :: k <= i < |log| ==> log[i].idx != idx
      {
        LogCellsAt(log, k - 1);
        assert stackBuf[sp1 - 2] == stackBuf[..sp][sp1 - 2] == LogCells(log)[2 * (k - 1)];
        if stackBuf[sp1 - 2].idx == idx {
          assert log[k - 1].idx == idx;
          return true;
        }
        sp1 := sp1 - 2;
        k := k - 1;
      }
      return false;
    }

    /** Push a choice point that resumes at `pc1`. */
    method PushMark(kind: Kind, pc1: int)
      requires Valid()
      modifies this`stackBuf, this`sp, this`bp, this`log, this`marks
      ensures Valid()
      ensures log == [] && marks == [Mark(kind, pc1, cptr, old(log))] + old(marks)
    {
      ghost var m := Mark(kind, pc1, cptr, log);
      assert ([m] + marks)[1..] == marks;
      assert Below([m] + marks) == stackBuf[..sp] + [Addr(pc1), Place(cptr), Link(bp, kind)];
      CheckStackSpace(3);
      stackBuf := stackBuf[sp := Addr(pc1)][sp + 1 := Place(cptr)][sp + 2 := Link(bp, kind)];
      sp := sp + 3;
      bp := sp;
      log, marks := [], [m] + marks;
    }

    /* ----- backtracking ----- */

    /** Undo the newest write. */
    method PopEntry()
      requires Valid() && sp > bp
      modifies this`sp, this`log, capture
      ensures Valid() && old(log) != [] && sp == old(sp) - 2
      ensures log == old(log)[..|old(log)| - 1]
      ensures capture[..] == Restore(old(capture[..]), old(log)[|old(log)| - 1])
    {
      ghost var n := |log| - 1;
      ghost var u, rest := log[n], log[..n];
      ghost var cells := stackBuf[..sp];
      assert cells == Below(marks) + (LogCells(rest) + [Slot(u.idx), Was(u.was)]);
      assert cells[sp - 2] == Slot(u.idx) && cells[sp - 1] == Was(u.was);
      assert stackBuf[..sp - 2] == cells[..sp - 2] == Below(marks) + LogCells(rest);
      capture[stackBuf[sp - 2].idx] := stackBuf[sp - 1].v;
      sp := sp - 2;
      log := rest;
    }

    /** Undo the modifications to capture[] since the innermost choice point. */
    method UndoSegment()
      requires Valid()
      modifies this`sp, this`log, capture
      ensures Valid() && log == [] && sp == bp
      ensures capture[..] == Rewind(old(capture[..]), old(log))
    {
      hide Below, LogCells;
      while sp > bp
        invariant Valid()
        invariant Rewind(capture[..], log) == Rewind(old(capture[..]), old(log))
        decreases sp
      {
        PopEntry();
      }
    }

    /** Take the innermost choice point off the stack. */
    method PopMark() returns (kind: Kind)
      requires Valid() && bp != 0 && log == [] && sp == bp
      modifies this`sp, this`bp, this`pc, this`cptr, this`log, this`marks
      ensures Valid() && old(marks) != []
      ensures var f := old(marks)[0];
              kind == f.kind && pc == f.pc && cptr == f.pos && log == f.below && marks == old(marks)[1..]
    {
      hide LogCells;
      ghost var f, under := marks[0], Below(marks[1..]) + LogCells(marks[0].below);
      assert stackBuf[..sp] == under + [Addr(f.pc), Place(f.pos), Link(|Below(marks[1..])|, f.kind)];
      assert stackBuf[sp - 3] == stackBuf[..sp][sp - 3] && stackBuf[sp - 2] == stackBuf[..sp][sp - 2]
             && stackBuf[sp - 1] == stackBuf[..sp][sp - 1];
      assert stackBuf[..sp - 3] == stackBuf[..sp][..sp - 3];
      pc := stackBuf[sp - 3].pc;
      cptr := stackBuf[sp - 2].pos;
      kind := stackBuf[sp - 1].kind;
      bp := stackBuf[sp - 1].bp;
      sp := sp - 3;
      log, marks := f.below, marks[1..];
    }

    /** no_match: back to the last choice point; false if there is none. */
    method NoMatch() returns (found: bool)
      requires Valid()
      modifies this`sp, this`bp, this`pc, this`cptr, this`log, this`marks, capture
      ensures found ==> Valid() && Conf() == Resume(old(capture[..]), old(log), old(marks))
      ensures !found ==> Resume(old(capture[..]), old(log), old(marks)) == LFail
    {
      while true
        invariant Valid()
        invariant Resume(capture[..], log, marks) == Resume(old(capture[..]), old(log), old(marks))
        decreases |marks|
      {
        if bp == 0 {
          return false;
        }
        UndoSegment();
        var kind := PopMark();
        if kind != Ahead {
          return true;
        }
      }
    }

    /** negative_lookahead_match: undo everything down to the lookahead's own choice
        point and drop it, with the memory and the log as they were when it was pushed;
        the caller then fails. */
    method DropNegative()
      requires Valid() && MergeTo(NotAhead, log, marks).Some?
      modifies this`sp, this`bp, this`pc, this`cptr, this`log, this`marks, capture
      ensures Valid()
      ensures var (f, joined, rest) := MergeTo(NotAhead, old(log), old(marks)).value;
              && marks == rest && log == f.below <= joined
              && capture[..] == Rewind(old(capture[..]), joined[|f.below|..])
    {
      hide Below, LogCells, Rewind, MergeTo;
      ghost var merged := MergeTo(NotAhead, log, marks).value;
      MergePrefix(NotAhead, log, marks);
      ghost var goal := Rewind(capture[..], Above(log, marks));
      while true
        invariant Valid() && MergeTo(NotAhead, log, marks).Some?
        invariant MergeTo(NotAhead, log, marks).value.0 == merged.0 && MergeTo(NotAhead, log, marks).value.2 == merged.2
        invariant Rewind(capture[..], Above(log, marks)) == goal
        decreases |marks|
      {
        MergeFromEmpty(capture[..], log, marks);
        UndoSegment();
        MarksHaveCells(marks);
        ghost var ms := marks;
        var kind := PopMark();
        MergePopped(ms, capture[..]);
        if kind == NotAhead {
          return;
        }
      }
    }

    /** lookahead_match: drop the choice points down to the lookahead's own, keep the
        captures, and close up the log so that it still undoes everything written
        since the choice points that remain. */
    method LookaheadMatch()
      requires Valid() && MergeTo(Ahead, log, marks).Some?
      modifies this`stackBuf, this`sp, this`bp, this`pc, this`cptr, this`log, this`marks
      ensures Valid()
      ensures var (f, joined, rest) := MergeTo(Ahead, old(log), old(marks)).value;
              pc == f.pc && cptr == f.pos && marks == rest && log == Kept(f, joined, rest)
    {
      hide Below, LogCells, Upper;
      var spTop := sp;
      ghost var segs: seq<Seg> := [];
      ghost var target := MergeTo(Ahead, log, marks);
      NoSegs(sp);
      assert log + JoinAll(segs) == log;
      while true
        invariant Valid() && sp <= spTop <= |stackBuf|
        invariant stackBuf[sp..spTop] == Upper(segs, sp) && SegsOk(segs, capture.Length)
        invariant MergeTo(Ahead, log + JoinAll(segs), marks) == target && target.Some?
        decreases |marks|
      {
        ghost var f, joined := marks[0], JoinAll(segs);
        ghost var l := log;
        assert f.below + (l + joined) == f.below + l + joined;
        var kind := CollapseMark(spTop, segs);
        segs := [Seg(pc, cptr, l)] + segs;
        assert JoinAll(segs) == l + joined;
        if kind == Ahead {
          break;
        }
      }
      assert target == Some((Mark(Ahead, pc, cptr, log), log + JoinAll(segs), marks));
      BottomCells(marks, log);
      if sp != 0 {
        Compact(spTop, segs);
      }
    }

    /** One turn of the first loop: take a choice point off the stack, leaving in its
        place a record of where the log segment above it ends. */
    method CollapseMark(spTop: nat, ghost segs: seq<Seg>) returns (kind: Kind)
      requires Valid() && marks != [] && sp <= spTop <= |stackBuf|
      requires stackBuf[sp..spTop] == Upper(segs, sp)
      modifies this`stackBuf, this`sp, this`bp, this`pc, this`cptr, this`log, this`marks
      ensures Valid() && sp <= spTop <= |stackBuf|
      ensures var f := old(marks)[0];
              && kind == f.kind && pc == f.pc && cptr == f.pos && log == f.below && marks == old(marks)[1..]
              && stackBuf[sp..spTop] == Upper([Seg(f.pc, f.pos, old(log))] + segs, sp)
    {
      hide LogCells, Below, Upper;
      ghost var b, f, l := stackBuf, marks[0], log;
      BelowCells(marks);
      CollapseCells(b, Below(marks[1..]) + LogCells(f.below), f, |Below(marks[1..])|, l, segs, sp, spTop);
      var sp1 := sp;
      sp := bp;
      pc := stackBuf[sp - 3].pc;
      cptr := stackBuf[sp - 2].pos;
      kind := stackBuf[sp - 1].kind;
      bp := stackBuf[sp - 1].bp;
      stackBuf := stackBuf[sp - 1 := Upto(sp1)];
      sp := sp - 3;
      log, marks := f.below, marks[1..];
    }

    /** The second loop: copy the log segments down over the records. */
    method Compact(spTop: nat, ghost segs: seq<Seg>)
      requires Valid() && sp <= spTop <= |stackBuf|
      requires stackBuf[sp..spTop] == Upper(segs, sp) && SegsOk(segs, capture.Length)
      modifies this`stackBuf, this`sp, this`log
      ensures Valid() && log == old(log) + JoinAll(segs)
    {
      hide Below, LogCells, Upper, JoinAll, LogOk, MarksOk, SegsOk;
      var sp1 := sp;
      ghost var todo := segs;
      while sp1 < spTop
        invariant Valid() && sp <= sp1 <= spTop <= |stackBuf|
        invariant stackBuf[sp1..spTop] == Upper(todo, sp1) && SegsOk(todo, capture.Length)
        invariant log + JoinAll(todo) == old(log) + JoinAll(segs)
        decreases spTop - sp1
      {
        UpperFirst(todo, sp1, stackBuf, spTop);
        SegsRest(todo, capture.Length);
        var next := stackBuf[sp1 + 2].sp;
        ghost var seg := todo[0].log;
        sp1 := sp1 + 3;
        ghost var before := stackBuf;
        CopyDown(sp1, next);
        SameEnd(before, stackBuf, next, spTop);
        LogCellsConcat(log, seg);
        LogOkConcat(log, seg, capture.Length);
        assert Below(marks) + LogCells(log) + LogCells(seg) == Below(marks) + (LogCells(log) + LogCells(seg));
        assert log + (seg + JoinAll(todo[1..])) == log + seg + JoinAll(todo[1..]);
        log := log + seg;
        sp1 := next;
        todo := todo[1..];
      }
      NoneLeft(todo, sp1);
      assert log + [] == log;
    }

    method CopyDown(from: nat, next: nat)
      requires sp <= from <= next <= |stackBuf|
      modifies this`stackBuf, this`sp
      ensures |stackBuf| == |old(stackBuf)| && sp == old(sp) + (next - from)
      ensures stackBuf[..sp] == old(stackBuf)[..old(sp)] + old(stackBuf)[from..next]
      ensures stackBuf[next..] == old(stackBuf)[next..]
    {
      var sp1 := from;
      while sp1 < next
        invariant from <= sp1 <= next && sp == old(sp) + (sp1 - from) && |stackBuf| == |old(stackBuf)|
        invariant forall j :: 0 <= j < old(sp) ==> stackBuf[j] == old(stackBuf)[j]
        invariant forall j :: from <= j < sp1 ==> stackBuf[old(sp) + (j - from)] == old(stackBuf)[j]
        invariant forall j :: sp1 <= j < |stackBuf| ==> stackBuf[j] == old(stackBuf)[j]
      {
        stackBuf := stackBuf[sp := stackBuf[sp1]];
        sp := sp + 1;
        sp1 := sp1 + 1;
      }
      assert forall j :: 0 <= j < sp ==> stackBuf[j] == if j < old(sp) then old(stackBuf)[j]
               else old(stackBuf)[from + (j - old(sp))];
    }

    /* ----- instructions ----- */

    /** The binary search of range and range32; `narrow` is the 16-bit form. */
    method RangeMatch(pairs: seq<(nat, nat)>, c: nat, narrow: bool) returns (b: bool)
      requires OrderedPairs(pairs) && (narrow ==> forall j :: 0 <= j < |pairs| ==> pairs[j].0 <= 0xffff)
      ensures b == if narrow then InRange16(pairs, c) else InRange(pairs, c)
    {
      var n := |pairs|;
      if c < pairs[0].0 {
        assert forall i :: 0 < i < n ==> pairs[0].0 <= pairs[0].1 < pairs[i].0;
        return false;
      }
      if narrow && c >= 0xffff && pairs[n - 1].1 == 0xffff { return true; }
      if c > pairs[n - 1].1 {
        assert forall i :: 0 <= i < n - 1 ==> pairs[i].1 < pairs[n - 1].0 <= pairs[n - 1].1;
        return false;
      }
      var idxMin, idxMax := 0, n - 1;
      while idxMin <= idxMax
        invariant 0 <= idxMin <= n && -1 <= idxMax < n
        invariant forall i :: 0 <= i < idxMin ==> pairs[i].1 < c
        invariant forall i :: idxMax < i < n ==> c < pairs[i].0
        decreases idxMax - idxMin
      {
        var idx := (idxMin + idxMax) / 2;
        if c < pairs[idx].0 {
          assert idx > 0; // so the unsigned idx - 1 does not wrap around
          assert forall i :: idx < i < n ==> pairs[idx].1 < pairs[i].0;
          idxMax := idx - 1;
        } else if c > pairs[idx].1 {
          assert forall i :: 0 <= i < idx ==> pairs[i].1 < pairs[idx].0;
          idxMin := idx + 1;
        } else {
          return true;
        }
      }
      return false;
    }

    method AcceptsChar(op: CharOp, c: CodePoint) returns (b: bool)
      requires OrderedInstr(Consume(op))
      ensures b == Accepts(vm.w, op, c)
    {
      match op
      case OpRange(pairs, icase) => b := RangeMatch(pairs, Fold(vm.w, icase, c), true);
      case OpRange32(pairs, icase) => b := RangeMatch(pairs, Fold(vm.w, icase, c), false);
      case OpChar(v, icase) => b := Fold(vm.w, icase, c) == v;
      case OpDot => b := !IsLineTerminator(c);
      case OpAny => b := true;
      case OpSpace(negated) => b := vm.w.isSpace(c) != negated;
    }

    method CompareAhead(icase: bool, start: nat, end: nat) returns (r: Option<nat>)
      requires start <= end <= |vm.w.text| && cptr <= |vm.w.text|
      ensures r == SameAhead(vm, icase, start, end, cptr)
    {
      var p: nat, q: nat := start, cptr;
      while p < end
        invariant start <= p <= end && q <= |vm.w.text|
        invariant SameAhead(vm, icase, p, end, q) == SameAhead(vm, icase, start, end, cptr)
      {
        if q >= |vm.w.text| { return None; }
        var (c1, p1) := GetChar(vm, p, end);
        var (c2, q1) := GetChar(vm, q, |vm.w.text|);
        if Fold(vm.w, icase, c1) != Fold(vm.w, icase, c2) { return None; }
        p, q := p1, q1;
      }
      return Some(q);
    }

    method CompareBehind(icase: bool, start: nat, end: nat) returns (r: Option<nat>)
      requires start <= end <= |vm.w.text| && cptr <= |vm.w.text|
      ensures r == SameBehind(vm, icase, start, end, cptr)
    {
      var p: nat, q: nat := end, cptr;
      while p > start
        invariant start <= p <= end && q <= |vm.w.text|
        invariant SameBehind(vm, icase, start, p, q) == SameBehind(vm, icase, start, end, cptr)
      {
        if q == 0 { return None; }
        var (c1, p1) := GetPrevChar(vm, p, start);
        var (c2, q1) := GetPrevChar(vm, q, 0);
        if Fold(vm.w, icase, c1) != Fold(vm.w, icase, c2) { return None; }
        p, q := p1, q1;
      }
      return Some(q);
    }

    /** Back references: the first capture that is set is compared. */
    method BackRefMatch(groups: seq<nat>, icase: bool, backward: bool) returns (r: Option<nat>)
      requires Valid()
      ensures r == BackRefStep(vm, groups, icase, backward, cptr, capture[..])
    {
      var i := 0;
      while i < |groups|
        invariant 0 <= i <= |groups|
        invariant BackRefStep(vm, groups[i..], icase, backward, cptr, capture[..])
                    == BackRefStep(vm, groups, icase, backward, cptr, capture[..])
      {
        assert groups[i..][1..] == groups[i + 1..];
        var val := groups[i];
        if val >= vm.ncap { return None; }
        var start, end := capture[2 * val], capture[2 * val + 1];
        if start.At? && end.At? {
          if !(start.pos <= end.pos <= |vm.w.text|) { return Some(cptr); }
          if backward {
            r := CompareBehind(icase, start.pos, end.pos);
          } else {
            r := CompareAhead(icase, start.pos, end.pos);
          }
          return;
        }
        i := i + 1;
      }
      return Some(cptr);
    }

    /** What one instruction has done, against the undo-log machine. */
    ghost predicate Did(v: Verdict, c: LogConf)
      reads this, capture
    {
      match v
      case Go => Valid() && Conf() == c
      case Miss => Valid() && c.LBack? && Settle(c) == Resume(capture[..], log, marks)
      case Hit => c == LDone(cptr, capture[..])
      case Bad => c == LStuck
    }

    ghost function Effect(i: Instr, next: int): LogConf
      requires Valid()
      reads this, capture
    {
      LExec(vm, i, next, cptr, capture[..], log, marks)
    }

    /** One instruction, with `pc` already behind it. */
    method Execute(i: Instr, next: int) returns (v: Verdict)
      requires Valid() && pc == next && OrderedInstr(i) && (Effect(i, next) != LStuck || i.Save? || i.SaveReset?)
      modifies this`stackBuf, this`sp, this`bp, this`pc, this`cptr, this`log, this`marks, capture
      ensures Did(v, old(Effect(i, next)))
    {
      hide LExec, Below, LogCells, Resume, OrderedInstr;
      if i.Consume? || i.Test? || i.Goto? || i.Accept? || i.Prev? || i.BackRefs? || i.CheckAdvance? {
        v := ExecuteReading(i, next);
      } else if i.Split? || i.LookStart? || i.LookMatch? {
        v := ExecuteStack(i, next);
      } else if i.Save? || i.SaveReset? {
        v := ExecuteSave(i, next);
      } else {
        v := ExecuteRegister(i, next);
      }
    }

    method ExecuteReading(i: Instr, next: int) returns (v: Verdict)
      requires Valid() && pc == next && OrderedInstr(i) && Effect(i, next) != LStuck
      requires i.Consume? || i.Test? || i.Goto? || i.Accept? || i.Prev? || i.BackRefs? || i.CheckAdvance?
      modifies this`pc, this`cptr
      ensures Did(v, old(Effect(i, next)))
    {
      hide Below, LogCells, Resume;
      v := Go;
      match i
      case Consume(op) =>
        if cptr >= |vm.w.text| { return Miss; }
        var (c, cptr1) := GetChar(vm, cptr, |vm.w.text|);
        var accepted := AcceptsChar(op, c);
        if !accepted { return Miss; }
        cptr := cptr1;
      case Test(a) =>
        if !TestHolds(vm, a, cptr) { return Miss; }
      case Goto(off) => pc := pc + off;
      case Accept => return Hit;
      case Prev =>
        if cptr == 0 { return Miss; }
        cptr := GetPrevChar(vm, cptr, 0).1;
      case BackRefs(groups, icase, backward) =>
        var r := BackRefMatch(groups, icase, backward);
        if r.None? { return Miss; }
        cptr := r.value;
      case CheckAdvance(reg) =>
        if capture[2 * vm.ncap + reg] == At(cptr) { return Miss; }
    }

    /** Push a choice point for one of two addresses and go on at the other. */
    method Branch(nextFirst: bool, target: int)
      requires Valid()
      modifies this`stackBuf, this`sp, this`bp, this`pc, this`log, this`marks
      ensures Valid()
      ensures Conf() == LFork(nextFirst, old(pc), target, cptr, capture[..], old(log), old(marks))
    {
      hide Below, LogCells;
      var pc1 := target;
      if !nextFirst {
        pc1 := pc;
        pc := target;
      }
      PushMark(Choice, pc1);
    }

    method ExecuteStack(i: Instr, next: int) returns (v: Verdict)
      requires Valid() && pc == next && Effect(i, next) != LStuck
      requires i.Split? || i.LookStart? || i.LookMatch?
      modifies this`stackBuf, this`sp, this`bp, this`pc, this`cptr, this`log, this`marks, capture
      ensures Did(v, old(Effect(i, next)))
    {
      hide Below, LogCells, Resume;
      v := Go;
      match i
      case Split(nextFirst, off) => Branch(nextFirst, pc + off);
      case LookStart(negative, off) => PushMark(if negative then NotAhead else Ahead, pc + off);
      case LookMatch(negative) =>
        if negative {
          ghost var r := MergeTo(NotAhead, log, marks).value;
          ResumeAfterDrop(capture[..], r.1, r.2);
          DropNegative();
          BelowAndAbove(old(capture[..]), log, r.1);
          ResumeSame(old(capture[..]), r.1, capture[..], log, marks);
          v := Miss;
        } else {
          LookaheadMatch();
        }
    }

    method ExecuteSave(i: Instr, next: int) returns (v: Verdict)
      requires Valid() && pc == next
      requires i.Save? || i.SaveReset?
      modifies this`stackBuf, this`sp, this`log, capture
      ensures Did(v, old(Effect(i, next)))
    {
      hide Below, LogCells, Resume;
      v := Go;
      match i
      case Save(end, k) =>
        if k >= vm.ncap { return Bad; }
        SaveCapture(2 * k + Num(end), At(cptr));
      case SaveReset(first, last) =>
        if last >= vm.ncap { return Bad; }
        if first <= last { UnsetSlots(first, last); }
    }

    /** The loop of save_reset. */
    method UnsetSlots(first: nat, last: nat)
      requires Valid() && first <= last < vm.ncap
      modifies this`stackBuf, this`sp, this`log, capture
      ensures Valid()
      ensures (capture[..], log) == SaveUnset(old(capture[..]), old(log), 2 * first, 2 * last + 2)
    {
      hide Below, LogCells, Saved;
      var val := first;
      while val <= last
        invariant first <= val <= last + 1 && Valid()
        invariant SaveUnset(capture[..], log, 2 * val, 2 * last + 2)
                    == SaveUnset(old(capture[..]), old(log), 2 * first, 2 * last + 2)
      {
        SaveUnsetTwice(capture[..], log, 2 * val, 2 * last + 2);
        SaveCapture(2 * val, Unset);
        SaveCapture(2 * val + 1, Unset);
        val := val + 1;
      }
    }

    method ExecuteRegister(i: Instr, next: int) returns (v: Verdict)
      requires Valid() && pc == next && Effect(i, next) != LStuck
      requires i.SetCount? || i.SetPos? || i.Loop? || i.LoopSplit?
      modifies this`stackBuf, this`sp, this`bp, this`pc, this`cptr, this`log, this`marks, capture
      ensures Did(v, old(Effect(i, next)))
    {
      hide Below, LogCells, Resume, SavedOnce;
      var idx := 2 * vm.ncap + i.reg;
      v := Go;
      match i
      case SetCount(_, count) => SaveCaptureCheck(idx, Count(count));
      case SetPos(_) => SaveCaptureCheck(idx, At(cptr));
      case Loop(_, off) =>
        var val2 := Dec32(capture[idx].n);
        SaveCaptureCheck(idx, Count(val2));
        if val2 != 0 { pc := pc + off; }
      case LoopSplit(checkAdv, nextFirst, _, limit, off) =>
        var val2 := Dec32(capture[idx].n);
        SaveCaptureCheck(idx, Count(val2));
        if val2 > limit {
          pc := pc + off;
        } else {
          if checkAdv && capture[idx + 1] == At(cptr) && val2 != limit { return Miss; }
          if val2 != 0 { Branch(nextFirst, pc + off); }
        }
    }

    /* ----- the loop ----- */

    /** Run until the program matches or no choice point is left. `steps` bounds the
        run of the undo-log machine from the current state. */
    method Exec(ghost steps: nat) returns (matched: bool)
      requires Valid() && Represents(bc, vm.code) && Ended(LSteps(vm, Conf(), steps))
      modifies this`stackBuf, this`sp, this`bp, this`pc, this`cptr, this`log, this`marks, capture
      ensures match LSteps(vm, old(Conf()), steps)
              case LDone(pos, m) => matched && cptr == pos && capture[..] == m
              case LFail => !matched
              case _ => false
    {
      hide Below, LogCells, LExec, Resume, Dec, OrderedInstr;
      ghost var left, final := steps, LSteps(vm, Conf(), steps);
      while true
        invariant Valid() && Ended(final) && LSteps(vm, Conf(), left) == final
        decreases left
      {
        StepsLeft(vm, Conf(), left);
        assert pc in vm.code && 0 <= pc;
        var i := Dec(bc, pc).value;
        ghost var c1 := LStep(vm, Conf());
        pc := pc + InstrSize(i);
        var v := Execute(i, pc);
        match v
        case Go => left := left - 1;
        case Miss =>
          ghost var k := ResumeOnTheWay(vm, c1.mem, c1.log, c1.marks, left - 1);
          FailStays(vm, k);
          var found := NoMatch();
          if !found { return false; }
          left := k;
        case Hit =>
          DoneStays(vm, c1, left - 1);
          return true;
        case Bad =>
          assert false;
          return false;
      }
    }
  }

  lemma StepsLeft(vm: Vm, c: LogConf, n: nat)
    requires c.LRun? && c.pos <= |vm.w.text| && 2 * vm.ncap <= |c.mem| && Ended(LSteps(vm, c, n))
    ensures n > 0 && c.pc in vm.code
    ensures LSteps(vm, LStep(vm, c), n - 1) == LSteps(vm, c, n)
    ensures LStep(vm, c) == LExec(vm, vm.code[c.pc], c.pc + InstrSize(vm.code[c.pc]), c.pos, c.mem, c.log, c.marks)
    ensures LStep(vm, c) != LStuck
  {
    hide LExec;
    if n > 0 { StuckStays(vm, n - 1); }
  }

  lemma ResumeAfterDrop(mem: seq<Value>, log: seq<Undo>, marks: seq<Mark>)
    ensures Settle(LBack(mem, log, marks)) == Resume(mem, log, marks)
  {
  }

  lemma SaveUnsetTwice(mem: seq<Value>, log: seq<Undo>, idx: nat, end: nat)
    requires idx + 2 <= end <= |mem|
    ensures var m1, l1 := mem[idx := Unset], Saved(mem, log, idx);
            SaveUnset(mem, log, idx, end) == SaveUnset(m1[idx + 1 := Unset], Saved(m1, l1, idx + 1), idx + 2, end)
  {
  }

  lemma BelowCells(marks: seq<Mark>)
    requires marks != []
    ensures var f, lower := marks[0], Below(marks[1..]);
            Below(marks) == lower + LogCells(f.below) + [Addr(f.pc), Place(f.pos), Link(|lower|, f.kind)]
  {
  }

  /** The cells around a choice point that is being discarded. */
  lemma CollapseCells(b: seq<Cell>, under: seq<Cell>, f: Mark, link: nat, log: seq<Undo>, segs: seq<Seg>, sp: nat,
                      top: nat)
    requires sp <= top <= |b| && b[sp..top] == Upper(segs, sp)
    requires b[..sp] == under + [Addr(f.pc), Place(f.pos), Link(link, f.kind)] + LogCells(log)
    ensures var bp := |under| + 3;
            && bp <= sp
            && b[bp - 3] == Addr(f.pc) && b[bp - 2] == Place(f.pos) && b[bp - 1] == Link(link, f.kind)
            && b[bp - 1 := Upto(sp)][..bp - 3] == under
            && b[bp - 1 := Upto(sp)][bp - 3..top] == Upper([Seg(f.pc, f.pos, log)] + segs, bp - 3)
  {
    hide LogCells;
    var bp := |under| + 3;
    var cells := b[..sp];
    assert b[bp - 3] == cells[bp - 3] && b[bp - 2] == cells[bp - 2] && b[bp - 1] == cells[bp - 1];
    var b' := b[bp - 1 := Upto(sp)];
    assert b'[..bp - 3] == cells[..bp - 3] == under;
    assert b'[bp - 3..bp] == [Addr(f.pc), Place(f.pos), Upto(sp)];
    assert b'[bp..sp] == cells[bp..sp] == LogCells(log);
    assert b'[sp..top] == b[sp..top];
    assert b'[bp - 3..top] == b'[bp - 3..bp] + b'[bp..sp] + b'[sp..top];
    assert ([Seg(f.pc, f.pos, log)] + segs)[1..] == segs;
  }

  lemma MarksHaveCells(marks: seq<Mark>)
    requires marks != []
    ensures |Below(marks)| > 0
  {
  }

  lemma BottomCells(marks: seq<Mark>, log: seq<Undo>)
    ensures |Below(marks)| + |LogCells(log)| == 0 <==> marks == [] && log == []
  {
    if marks != [] { MarksHaveCells(marks); }
  }

  lemma NoSegs(start: nat)
    ensures Upper([], start) == [] && JoinAll([]) == []
  {
  }

  lemma NoneLeft(segs: seq<Seg>, start: nat)
    requires Upper(segs, start) == []
    ensures JoinAll(segs) == []
  {
  }

  lemma SameEnd<T>(a: seq<T>, b: seq<T>, from: nat, to: nat)
    requires |a| == |b| && from <= to <= |a| && a[from..] == b[from..]
    ensures a[from..to] == b[from..to]
  {
    assert a[from..to] == a[from..][..to - from] && b[from..to] == b[from..][..to - from];
  }

  lemma SegsRest(segs: seq<Seg>, n: nat)
    requires SegsOk(segs, n) && segs != []
    ensures LogOk(segs[0].log, n) && SegsOk(segs[1..], n)
  {
    hide LogOk;
  }

  /** The lowest discarded choice point. */
  lemma UpperFirst(segs: seq<Seg>, start: nat, cells: seq<Cell>, top: nat)
    requires start < top <= |cells| && cells[start..top] == Upper(segs, start)
    ensures segs != []
    ensures var next := start + 3 + 2 * |segs[0].log|;
            && next <= top && cells[start + 2] == Upto(next)
            && cells[start + 3..next] == LogCells(segs[0].log)
            && cells[next..top] == Upper(segs[1..], next)
            && JoinAll(segs) == segs[0].log + JoinAll(segs[1..])
  {
    hide LogCells;
    assert segs != [];
    var next := start + 3 + 2 * |segs[0].log|;
    var u, log, rest := cells[start..top], LogCells(segs[0].log), Upper(segs[1..], next);
    assert u == [Addr(segs[0].pc), Place(segs[0].pos), Upto(next)] + log + rest;
    assert |u| == 3 + |log| + |rest| && u[3..3 + |log|] == log && u[3 + |log|..] == rest;
    assert cells[start + 2] == u[2];
    forall j | 0 <= j < |log| ensures cells[start + 3..next][j] == log[j] {
      assert cells[start + 3 + j] == u[3 + j];
    }
    forall j | 0 <= j < |rest| ensures cells[next..top][j] == rest[j] {
      assert cells[next + j] == u[3 + |log| + j];
    }
  }
}
