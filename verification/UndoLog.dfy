/** The machine as it is implemented: a choice point keeps no copy of the captures
    and registers; every write is logged and backtracking undoes the log. */
module UndoLog {
  import opened Syntax
  import opened Semantics
  import opened Bytecode
  import opened Machine

  /** The value slot `idx` had before it was written. */
  datatype Undo = Undo(idx: nat, was: Value)

  /** A choice point and the part of the log that was written below it. */
  datatype Mark = Mark(kind: Kind, pc: int, pos: nat, below: seq<Undo>)

  datatype LogConf =
    | LRun(pc: int, pos: nat, mem: seq<Value>, log: seq<Undo>, marks: seq<Mark>)
    | LBack(mem: seq<Value>, log: seq<Undo>, marks: seq<Mark>)
    | LDone(pos: nat, mem: seq<Value>)
    | LFail
    | LStuck

  function Restore(mem: seq<Value>, u: Undo): (r: seq<Value>)
    ensures |r| == |mem|
  {
    if u.idx < |mem| then mem[u.idx := u.was] else mem
  }

  /** Undo a log, newest entry first. */
  function Rewind(mem: seq<Value>, log: seq<Undo>): (r: seq<Value>)
    ensures |r| == |mem|
    decreases |log|
  {
    if log == [] then mem else Rewind(Restore(mem, log[|log| - 1]), log[..|log| - 1])
  }

  /** The full copies that the log stands for. */
  function Snapshots(mem: seq<Value>, log: seq<Undo>, marks: seq<Mark>): seq<Frame>
    decreases |marks|
  {
    if marks == [] then []
    else
      var m := Rewind(mem, log);
      [Frame(marks[0].kind, marks[0].pc, marks[0].pos, m)] + Snapshots(m, marks[0].below, marks[1..])
  }

  function Abs(c: LogConf): Conf {
    match c
    case LRun(pc, pos, mem, log, marks) => Run(pc, pos, mem, Snapshots(mem, log, marks))
    case LBack(mem, log, marks) => Back(Snapshots(mem, log, marks))
    case LDone(pos, mem) => Done(pos, mem)
    case LFail => Fail
    case LStuck => Stuck
  }

  predicate Logged(log: seq<Undo>, idx: nat) {
    exists i :: 0 <= i < |log| && log[i].idx == idx
  }

  /** The log after a write that is always saved (SAVE_CAPTURE) ... */
  function Saved(mem: seq<Value>, log: seq<Undo>, idx: nat): seq<Undo>
    requires idx < |mem|
  {
    log + [Undo(idx, mem[idx])]
  }

  /** ... or saved only if the slot has not been saved since the last choice point
      (SAVE_CAPTURE_CHECK). */
  function SavedOnce(mem: seq<Value>, log: seq<Undo>, idx: nat): seq<Undo>
    requires idx < |mem|
  {
    if Logged(log, idx) then log else Saved(mem, log, idx)
  }

  /** Save and unset the slots from `idx` up to `end`, one at a time. */
  function SaveUnset(mem: seq<Value>, log: seq<Undo>, idx: nat, end: nat): (r: (seq<Value>, seq<Undo>))
    requires idx <= end <= |mem|
    ensures |r.0| == |mem|
    decreases end - idx
  {
    if idx == end then (mem, log)
    else SaveUnset(mem[idx := Unset], Saved(mem, log, idx), idx + 1, end)
  }

  /** Drop the marks down to the innermost one of a kind; the log segments above it
      join the one below it. */
  function MergeTo(kind: Kind, log: seq<Undo>, marks: seq<Mark>): Option<(Mark, seq<Undo>, seq<Mark>)>
    decreases |marks|
  {
    if marks == [] then None
    else if marks[0].kind == kind then Some((marks[0], marks[0].below + log, marks[1..]))
    else MergeTo(kind, marks[0].below + log, marks[1..])
  }

  /** Nothing is kept if no choice point remains and nothing was logged before the
      lookahead: there is no state left to go back to. */
  function Kept(f: Mark, joined: seq<Undo>, rest: seq<Mark>): seq<Undo> {
    if rest == [] && f.below == [] then [] else joined
  }

  ghost function LStep(vm: Vm, c: LogConf): LogConf {
    match c
    case LRun(pc, pos, mem, log, marks) =>
      if pc in vm.code && pos <= |vm.w.text| && 2 * vm.ncap <= |mem|
      then LExec(vm, vm.code[pc], pc + InstrSize(vm.code[pc]), pos, mem, log, marks)
      else LStuck
    case LBack(mem, log, marks) =>
      if marks == [] then LFail
      else
        var m, f := Rewind(mem, log), marks[0];
        if f.kind == Ahead then LBack(m, f.below, marks[1..]) else LRun(f.pc, f.pos, m, f.below, marks[1..])
    case _ => c
  }

  function LFork(nextFirst: bool, next: int, target: int, pos: nat, mem: seq<Value>, log: seq<Undo>,
                 marks: seq<Mark>): LogConf {
    if nextFirst then LRun(next, pos, mem, [], [Mark(Choice, target, pos, log)] + marks)
    else LRun(target, pos, mem, [], [Mark(Choice, next, pos, log)] + marks)
  }

  function LExec(vm: Vm, i: Instr, next: int, pos: nat, mem: seq<Value>, log: seq<Undo>, marks: seq<Mark>): LogConf
    requires pos <= |vm.w.text| && 2 * vm.ncap <= |mem|
  {
    match i
    case Consume(op) =>
      if pos == |vm.w.text| then LBack(mem, log, marks)
      else
        var (c, pos') := GetChar(vm, pos, |vm.w.text|);
        if Accepts(vm.w, op, c) then LRun(next, pos', mem, log, marks) else LBack(mem, log, marks)
    case Test(a) => if TestHolds(vm, a, pos) then LRun(next, pos, mem, log, marks) else LBack(mem, log, marks)
    case Goto(off) => LRun(next + off, pos, mem, log, marks)
    case Split(nextFirst, off) => LFork(nextFirst, next, next + off, pos, mem, log, marks)
    case Accept => LDone(pos, mem)
    case LookStart(negative, off) =>
      LRun(next, pos, mem, [], [Mark(if negative then NotAhead else Ahead, next + off, pos, log)] + marks)
    case LookMatch(negative) =>
      (match MergeTo(if negative then NotAhead else Ahead, log, marks)
       case None => LStuck
       case Some((f, joined, rest)) =>
         if negative then LBack(mem, joined, rest) else LRun(f.pc, f.pos, mem, Kept(f, joined, rest), rest))
    case Save(end, k) =>
      if k >= vm.ncap then LStuck
      else
        var idx := 2 * k + Num(end);
        LRun(next, pos, mem[idx := At(pos)], Saved(mem, log, idx), marks)
    case SaveReset(first, last) =>
      if last >= vm.ncap then LStuck
      else if first > last then LRun(next, pos, mem, log, marks)
      else
        var (mem', log') := SaveUnset(mem, log, 2 * first, 2 * last + 2);
        LRun(next, pos, mem', log', marks)
    case SetCount(reg, count) =>
      var idx := 2 * vm.ncap + reg;
      if idx >= |mem| then LStuck else LRun(next, pos, mem[idx := Count(count)], SavedOnce(mem, log, idx), marks)
    case SetPos(reg) =>
      var idx := 2 * vm.ncap + reg;
      if idx >= |mem| then LStuck else LRun(next, pos, mem[idx := At(pos)], SavedOnce(mem, log, idx), marks)
    case CheckAdvance(reg) =>
      var idx := 2 * vm.ncap + reg;
      if idx >= |mem| then LStuck
      else if mem[idx] == At(pos) then LBack(mem, log, marks)
      else LRun(next, pos, mem, log, marks)
    case Loop(reg, off) =>
      var idx := 2 * vm.ncap + reg;
      if idx >= |mem| || !mem[idx].Count? then LStuck
      else
        var v := Dec32(mem[idx].n);
        LRun(if v != 0 then next + off else next, pos, mem[idx := Count(v)], SavedOnce(mem, log, idx), marks)
    case LoopSplit(checkAdv, nextFirst, reg, limit, off) =>
      var idx := 2 * vm.ncap + reg;
      if idx + Num(checkAdv) >= |mem| || !mem[idx].Count? then LStuck
      else
        var v := Dec32(mem[idx].n);
        var mem', log' := mem[idx := Count(v)], SavedOnce(mem, log, idx);
        if v > limit then LRun(next + off, pos, mem', log', marks)
        else if checkAdv && mem'[idx + 1] == At(pos) && v != limit then LBack(mem', log', marks)
        else if v == 0 then LRun(next, pos, mem', log', marks)
        else LFork(nextFirst, next, next + off, pos, mem', log', marks)
    case BackRefs(groups, icase, backward) =>
      (match BackRefStep(vm, groups, icase, backward, pos, mem)
       case None => LBack(mem, log, marks)
       case Some(pos') => LRun(next, pos', mem, log, marks))
    case Prev =>
      if pos == 0 then LBack(mem, log, marks) else LRun(next, GetPrevChar(vm, pos, 0).1, mem, log, marks)
  }

  /* ----- the log stands for the copies ----- */

  lemma {:induction false} RewindConcat(mem: seq<Value>, a: seq<Undo>, b: seq<Undo>)
    ensures Rewind(mem, a + b) == Rewind(Rewind(mem, b), a)
    decreases |b|
  {
    if b == [] {
      assert a + b == a;
    } else {
      var n := |a + b| - 1;
      assert (a + b)[n] == b[|b| - 1] && (a + b)[..n] == a + b[..|b| - 1];
      RewindConcat(Restore(mem, b[|b| - 1]), a, b[..|b| - 1]);
    }
  }

  /** An always-saved write is undone exactly. */
  lemma RewindSaved(mem: seq<Value>, log: seq<Undo>, idx: nat, v: Value)
    requires idx < |mem|
    ensures Rewind(mem[idx := v], Saved(mem, log, idx)) == Rewind(mem, log)
  {
    var log' := Saved(mem, log, idx);
    assert log'[|log'| - 1] == Undo(idx, mem[idx]) && log'[..|log'| - 1] == log;
    assert mem[idx := v][idx := mem[idx]] == mem;
  }

  /** A slot that the log restores may be overwritten without another entry. */
  lemma {:induction false} RewindLogged(mem: seq<Value>, log: seq<Undo>, idx: nat, v: Value)
    requires idx < |mem| && Logged(log, idx)
    ensures Rewind(mem[idx := v], log) == Rewind(mem, log)
    decreases |log|
  {
    var n := |log| - 1;
    var u := log[n];
    if u.idx == idx {
      assert mem[idx := v][idx := u.was] == mem[idx := u.was];
    } else {
      var i :| 0 <= i < |log| && log[i].idx == idx;
      assert log[..n][i].idx == idx;
      RewindLogged(Restore(mem, u), log[..n], idx, v);
      if u.idx < |mem| {
        assert mem[idx := v][u.idx := u.was] == mem[u.idx := u.was][idx := v];
      }
    }
  }

  lemma RewindSavedOnce(mem: seq<Value>, log: seq<Undo>, idx: nat, v: Value)
    requires idx < |mem|
    ensures Rewind(mem[idx := v], SavedOnce(mem, log, idx)) == Rewind(mem, log)
  {
    if Logged(log, idx) { RewindLogged(mem, log, idx, v); } else { RewindSaved(mem, log, idx, v); }
  }

  lemma {:induction false} RewindSaveUnset(mem: seq<Value>, log: seq<Undo>, idx: nat, end: nat)
    requires idx <= end <= |mem|
    ensures var (mem', log') := SaveUnset(mem, log, idx, end);
            && Rewind(mem', log') == Rewind(mem, log)
            && forall i :: 0 <= i < |mem| ==> mem'[i] == if idx <= i < end then Unset else mem[i]
    decreases end - idx
  {
    if idx < end {
      RewindSaved(mem, log, idx, Unset);
      RewindSaveUnset(mem[idx := Unset], Saved(mem, log, idx), idx + 1, end);
    }
  }

  /** The copies depend on memory and log only through what rewinding gives. */
  lemma SnapshotsSame(mem: seq<Value>, log: seq<Undo>, mem': seq<Value>, log': seq<Undo>, marks: seq<Mark>)
    requires Rewind(mem, log) == Rewind(mem', log')
    ensures Snapshots(mem, log, marks) == Snapshots(mem', log', marks)
  {
  }

  lemma SnapshotsPush(mem: seq<Value>, log: seq<Undo>, marks: seq<Mark>, kind: Kind, pc: int, pos: nat)
    ensures Snapshots(mem, [], [Mark(kind, pc, pos, log)] + marks)
              == [Frame(kind, pc, pos, mem)] + Snapshots(mem, log, marks)
  {
    assert ([Mark(kind, pc, pos, log)] + marks)[1..] == marks;
  }

  /** Compaction at the end of a lookahead: dropping choice points and joining their
      log segments keeps the copies of the choice points that remain. */
  lemma {:induction false} MergeKeepsSnapshots(kind: Kind, mem: seq<Value>, log: seq<Undo>, marks: seq<Mark>)
    ensures match MergeTo(kind, log, marks)
            case None => PopTo(kind, Snapshots(mem, log, marks)) == None
            case Some((f, joined, rest)) =>
              var p := PopTo(kind, Snapshots(mem, log, marks));
              p.Some? && p.value.0.pc == f.pc && p.value.0.pos == f.pos && p.value.1 == Snapshots(mem, joined, rest)
    decreases |marks|
  {
    if marks != [] {
      var m, below, rest := Rewind(mem, log), marks[0].below, marks[1..];
      var snaps := Snapshots(mem, log, marks);
      RewindConcat(mem, below, log);
      SnapshotsSame(m, below, mem, below + log, rest);
      assert snaps[1..] == Snapshots(mem, below + log, rest);
      if marks[0].kind != kind {
        MergeKeepsSnapshots(kind, mem, below + log, rest);
      }
    }
  }

  lemma ResetAgrees(mem: seq<Value>, log: seq<Undo>, first: nat, last: nat)
    requires first <= last && 2 * last + 2 <= |mem|
    ensures var (mem', log') := SaveUnset(mem, log, 2 * first, 2 * last + 2);
            mem' == ResetMem(mem, first, last) && Rewind(mem', log') == Rewind(mem, log)
  {
    RewindSaveUnset(mem, log, 2 * first, 2 * last + 2);
  }

  /** The undo-log machine refines the machine with full copies, step by step. */
  lemma LogStepRefines(vm: Vm, c: LogConf)
    ensures Abs(LStep(vm, c)) == Step(vm, Abs(c))
  {
    hide LExec, Exec;
    match c
    case LRun(pc, pos, mem, log, marks) =>
      if pc in vm.code && pos <= |vm.w.text| && 2 * vm.ncap <= |mem| {
        LogExecRefines(vm, vm.code[pc], pc + InstrSize(vm.code[pc]), pos, mem, log, marks);
      }
    case LBack(mem, log, marks) =>
      if marks != [] {
        assert Snapshots(mem, log, marks)[1..] == Snapshots(Rewind(mem, log), marks[0].below, marks[1..]);
      }
    case _ =>
  }

  ghost predicate Refines(vm: Vm, i: Instr, next: int, pos: nat, mem: seq<Value>, log: seq<Undo>, marks: seq<Mark>)
    requires pos <= |vm.w.text| && 2 * vm.ncap <= |mem|
  {
    Abs(LExec(vm, i, next, pos, mem, log, marks)) == Exec(vm, i, next, pos, mem, Snapshots(mem, log, marks))
  }

  lemma LogExecRefines(vm: Vm, i: Instr, next: int, pos: nat, mem: seq<Value>, log: seq<Undo>, marks: seq<Mark>)
    requires pos <= |vm.w.text| && 2 * vm.ncap <= |mem|
    ensures Refines(vm, i, next, pos, mem, log, marks)
  {
    hide Refines;
    if i.Split? || i.LookStart? || i.LookMatch? {
      StackRefines(vm, i, next, pos, mem, log, marks);
    } else if i.Save? || i.SaveReset? || i.SetCount? || i.SetPos? || i.Loop? {
      WritingRefines(vm, i, next, pos, mem, log, marks);
    } else if i.LoopSplit? {
      LoopSplitRefines(vm, i, next, pos, mem, log, marks);
    } else {
      ReadingRefines(vm, i, next, pos, mem, log, marks);
    }
  }

  lemma ReadingRefines(vm: Vm, i: Instr, next: int, pos: nat, mem: seq<Value>, log: seq<Undo>, marks: seq<Mark>)
    requires pos <= |vm.w.text| && 2 * vm.ncap <= |mem|
    requires i.Consume? || i.Test? || i.Goto? || i.Accept? || i.CheckAdvance? || i.BackRefs? || i.Prev?
    ensures Refines(vm, i, next, pos, mem, log, marks)
  {
    hide Snapshots, Rewind, Saved, SavedOnce, SaveUnset, MergeTo, PopTo, GetChar, GetPrevChar, Accepts, TestHolds,
      BackRefStep;
  }

  lemma StackRefines(vm: Vm, i: Instr, next: int, pos: nat, mem: seq<Value>, log: seq<Undo>, marks: seq<Mark>)
    requires pos <= |vm.w.text| && 2 * vm.ncap <= |mem|
    requires i.Split? || i.LookStart? || i.LookMatch?
    ensures Refines(vm, i, next, pos, mem, log, marks)
  {
    hide Snapshots, Rewind, Saved, SavedOnce, SaveUnset, MergeTo, PopTo;
    match i
    case Split(_, off) =>
      SnapshotsPush(mem, log, marks, Choice, next, pos);
      SnapshotsPush(mem, log, marks, Choice, next + off, pos);
    case LookStart(negative, off) =>
      SnapshotsPush(mem, log, marks, if negative then NotAhead else Ahead, next + off, pos);
    case LookMatch(negative) =>
      MergeKeepsSnapshots(if negative then NotAhead else Ahead, mem, log, marks);
      NoMarksNoSnapshots(mem, []);
      var merged := MergeTo(Ahead, log, marks);
      if merged.Some? { NoMarksNoSnapshots(mem, merged.value.1); }
  }

  lemma NoMarksNoSnapshots(mem: seq<Value>, log: seq<Undo>)
    ensures Snapshots(mem, log, []) == []
  {
  }

  lemma WritingRefines(vm: Vm, i: Instr, next: int, pos: nat, mem: seq<Value>, log: seq<Undo>, marks: seq<Mark>)
    requires pos <= |vm.w.text| && 2 * vm.ncap <= |mem|
    requires i.Save? || i.SaveReset? || i.SetCount? || i.SetPos? || i.Loop?
    ensures Refines(vm, i, next, pos, mem, log, marks)
  {
    hide Snapshots, Rewind, Saved, SavedOnce, SaveUnset, MergeTo, PopTo;
    match i
    case Save(end, k) =>
      if k < vm.ncap {
        var idx := 2 * k + Num(end);
        RewindSaved(mem, log, idx, At(pos));
        SnapshotsSame(mem[idx := At(pos)], Saved(mem, log, idx), mem, log, marks);
      }
    case SaveReset(first, last) => ResetRefines(vm, first, last, next, pos, mem, log, marks);
    case SetCount(reg, count) => WriteRefines(mem, log, marks, 2 * vm.ncap + reg, Count(count));
    case SetPos(reg) => WriteRefines(mem, log, marks, 2 * vm.ncap + reg, At(pos));
    case Loop(reg, off) => CountRefines(mem, log, marks, 2 * vm.ncap + reg);
  }

  lemma LoopSplitRefines(vm: Vm, i: Instr, next: int, pos: nat, mem: seq<Value>, log: seq<Undo>, marks: seq<Mark>)
    requires pos <= |vm.w.text| && 2 * vm.ncap <= |mem|
    requires i.LoopSplit?
    ensures Refines(vm, i, next, pos, mem, log, marks)
  {
    hide Snapshots, Rewind, Saved, SavedOnce, SaveUnset, MergeTo, PopTo;
    var idx := 2 * vm.ncap + i.reg;
    if idx < |mem| && mem[idx].Count? {
      var v := Dec32(mem[idx].n);
      WriteRefines(mem, log, marks, idx, Count(v));
      SnapshotsPush(mem[idx := Count(v)], SavedOnce(mem, log, idx), marks, Choice, next, pos);
      SnapshotsPush(mem[idx := Count(v)], SavedOnce(mem, log, idx), marks, Choice, next + i.off, pos);
    }
  }

  lemma WriteRefines(mem: seq<Value>, log: seq<Undo>, marks: seq<Mark>, idx: nat, v: Value)
    ensures idx < |mem| ==> Snapshots(mem[idx := v], SavedOnce(mem, log, idx), marks) == Snapshots(mem, log, marks)
  {
    if idx < |mem| {
      RewindSavedOnce(mem, log, idx, v);
      SnapshotsSame(mem[idx := v], SavedOnce(mem, log, idx), mem, log, marks);
    }
  }

  lemma CountRefines(mem: seq<Value>, log: seq<Undo>, marks: seq<Mark>, idx: nat)
    ensures idx < |mem| && mem[idx].Count? ==>
      Snapshots(mem[idx := Count(Dec32(mem[idx].n))], SavedOnce(mem, log, idx), marks) == Snapshots(mem, log, marks)
  {
    if idx < |mem| && mem[idx].Count? { WriteRefines(mem, log, marks, idx, Count(Dec32(mem[idx].n))); }
  }

  lemma ResetRefines(vm: Vm, first: nat, last: nat, next: int, pos: nat, mem: seq<Value>, log: seq<Undo>,
                     marks: seq<Mark>)
    requires pos <= |vm.w.text| && 2 * vm.ncap <= |mem|
    ensures Abs(LExec(vm, SaveReset(first, last), next, pos, mem, log, marks)) ==
            Exec(vm, SaveReset(first, last), next, pos, mem, Snapshots(mem, log, marks))
  {
    hide Snapshots, Rewind, SaveUnset;
    if last < vm.ncap {
      if first <= last {
        ResetAgrees(mem, log, first, last);
        var (mem', log') := SaveUnset(mem, log, 2 * first, 2 * last + 2);
        SnapshotsSame(mem', log', mem, log, marks);
      } else {
        assert ResetMem(mem, first, last) == mem;
      }
    }
  }

  ghost function LSteps(vm: Vm, c: LogConf, n: nat): LogConf
    decreases n
  {
    if n == 0 then c else LSteps(vm, LStep(vm, c), n - 1)
  }

  /** ... and so for whole runs, of any program: in every reachable state the log
      stands for exactly the copies that the simple machine would have made. */
  lemma {:induction false} LogRefines(vm: Vm, c: LogConf, n: nat)
    ensures Abs(LSteps(vm, c, n)) == Steps(vm, Abs(c), n)
    decreases n
  {
    if n > 0 {
      LogStepRefines(vm, c);
      LogRefines(vm, LStep(vm, c), n - 1);
    }
  }
}
