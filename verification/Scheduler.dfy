/** The scheduling loop of the test runner: a queue of tests, a pool of worker
    processes that may answer, hang, grow or die at any moment, and the verdicts. What
    the operating system does is handed to each phase as a parameter. */
module Scheduler {
  import opened Syntax

  type Test = string

  datatype Verdict = Pass | CompileError | Fail | Timeout | MemKill

  /* ----- the lines of a worker ----- */

  /** What reading finds: nothing complete yet, or a verdict. */
  datatype Reading = Nothing | Answer(test: Test, verdict: Verdict)

  function IndexOf(s: string, c: char): (i: nat)
    ensures i <= |s| && (i < |s| <==> c in s) && (i < |s| ==> s[i] == c)
    ensures forall j :: 0 <= j < i ==> s[j] != c
  {
    if s == "" || s[0] == c then 0 else 1 + IndexOf(s[1..], c)
  }

  /** What str.strip() removes in Python. */
  predicate Blank(c: char) {
    var n := c as int;
    || 0x09 <= n <= 0x0d || 0x1c <= n <= 0x20 || n == 0x85 || n == 0xa0 || n == 0x1680
    || 0x2000 <= n <= 0x200a || n == 0x2028 || n == 0x2029 || n == 0x202f || n == 0x205f || n == 0x3000
  }

  function Strip(s: string): string
    decreases |s|
  {
    if s != "" && Blank(s[0]) then Strip(s[1..])
    else if s != "" && Blank(s[|s| - 1]) then Strip(s[..|s| - 1])
    else s
  }

  predicate StartsWith(s: string, prefix: string) { |prefix| <= |s| && s[..|prefix|] == prefix }

  /** What one line says; other lines are skipped. */
  function LineVerdict(raw: string): Reading {
    var line := Strip(raw);
    if StartsWith(line, "PASS ") then Answer(line[5..], Pass)
    else if StartsWith(line, "COMPILE_ERROR ") then Answer(line[14..], CompileError)
    else if StartsWith(line, "FAIL ") then Answer(line[5..], Fail)
    else Nothing
  }

  /** The first verdict in a buffer, and what is left of the buffer. */
  function Scan(buf: string): (r: (Reading, string))
    ensures |r.1| <= |buf|
    ensures r.0.Nothing? ==> '\n' !in r.1
    decreases |buf|
  {
    var i := IndexOf(buf, '\n');
    if i == |buf| then (Nothing, buf)
    else if LineVerdict(buf[..i]).Answer? then (LineVerdict(buf[..i]), buf[i + 1..])
    else Scan(buf[i + 1..])
  }

  lemma {:induction false} IndexOfConcat(a: string, b: string, c: char)
    ensures IndexOf(a + b, c) == if c in a then IndexOf(a, c) else |a| + IndexOf(b, c)
    decreases |a|
  {
    if a == "" {
      assert a + b == b;
    } else if a[0] != c {
      assert (a + b)[1..] == a[1..] + b;
      assert c in a <==> c in a[1..];
      IndexOfConcat(a[1..], b, c);
    }
  }

  /** Verdicts do not depend on how the stream is cut into chunks: a verdict found in
      what has arrived so far stays, and if there is none, reading on from what is left
      gives the same as reading everything at once. */
  lemma {:induction false} ChunksDoNotMatter(buf: string, more: string)
    ensures Scan(buf).0.Answer? ==> Scan(buf + more) == (Scan(buf).0, Scan(buf).1 + more)
    ensures Scan(buf).0.Nothing? ==> Scan(buf + more) == Scan(Scan(buf).1 + more)
    decreases |buf|
  {
    hide LineVerdict;
    var i := IndexOf(buf, '\n');
    IndexOfConcat(buf, more, '\n');
    if i < |buf| {
      assert (buf + more)[..i] == buf[..i] && (buf + more)[i + 1..] == buf[i + 1..] + more;
      ChunksDoNotMatter(buf[i + 1..], more);
    }
  }

  /** A complete line of `text` gives test `t` the verdict `v`. */
  ghost predicate Says(text: string, t: Test, v: Verdict) {
    exists a: nat, b: nat :: LineOf(text, a, b) && LineVerdict(text[a..b]) == Answer(t, v)
  }

  predicate LineOf(text: string, a: nat, b: nat) {
    a <= b < |text| && (a == 0 || text[a - 1] == '\n') && text[b] == '\n' && '\n' !in text[a..b]
  }

  /** What has been read of a worker's output and not been taken apart. */
  ghost predicate Buffered(text: string, from: nat, buf: string) {
    from <= |text| && buf == text[from..] && (from == 0 || text[from - 1] == '\n')
  }

  lemma MoreBuffered(text: string, from: nat, buf: string, chunk: string)
    requires Buffered(text, from, buf)
    ensures Buffered(text + chunk, from, buf + chunk)
  {
    assert (text + chunk)[from..] == text[from..] + chunk;
  }

  /** The first line of the buffer. */
  lemma LineTaken(text: string, from: nat, buf: string)
    requires Buffered(text, from, buf) && '\n' in buf
    ensures var i := IndexOf(buf, '\n');
            && LineOf(text, from, from + i) && text[from..from + i] == buf[..i]
            && Buffered(text, from + i + 1, buf[i + 1..])
  {
    var i := IndexOf(buf, '\n');
    assert buf[i] == text[from..][i] == text[from + i];
    assert text[from..][..i] == text[from..from + i] && text[from..][i + 1..] == text[from + i + 1..];
    assert forall k :: 0 <= k < i ==> buf[..i][k] == buf[k] != '\n';
  }

  lemma ScanLine(buf: string)
    requires '\n' in buf
    ensures var i := IndexOf(buf, '\n');
            var said := LineVerdict(buf[..i]);
            Scan(buf) == if said.Answer? then (said, buf[i + 1..]) else Scan(buf[i + 1..])
  {
    hide LineVerdict;
  }

  lemma ScanNothing(buf: string)
    requires '\n' !in buf
    ensures Scan(buf) == (Nothing, buf)
  {
  }

  class Worker {
    var pending: Option<Test>
    var killed: bool
    /** poll() has seen the process exit. */
    var exited: bool
    var buf: string
    /** All that has been read of its output, in which rounds, and how much of it has
        been taken apart. */
    ghost var heard: string
    ghost var readIn: seq<nat>
    ghost var taken: nat

    constructor ()
      ensures pending.None? && !killed && !exited && buf == "" && heard == "" && readIn == [] && Ok()
    {
      pending, killed, exited, buf := None, false, false, "";
      heard, readIn, taken := "", [], 0;
    }

    ghost predicate Ok()
      reads this
    {
      Buffered(heard, taken, buf)
    }

    predicate Alive()
      reads this
    {
      !killed && !exited
    }

    /** It holds a test and has given a verdict for another one. */
    ghost predicate Misled()
      reads this
    {
      pending.Some? && exists t, v :: pending != Some(t) && Says(heard, t, v)
    }

    /** It will be read, and what arrives completes a verdict. */
    predicate Speaks(dead: bool, chunk: string)
      reads this
    {
      Alive() && pending.Some? && !dead && chunk != "" && Scan(buf + chunk).0.Answer?
    }

    /** The operating system reports what has become of the process. */
    method Poll(dead: bool)
      modifies this`exited
      ensures exited == (old(exited) || dead)
    {
      exited := exited || dead;
    }

    method SendTest(t: Test)
      requires pending.None?
      modifies this`pending
      ensures pending == Some(t)
    {
      pending := Some(t);
    }

    method Kill()
      modifies this`killed
      ensures killed
    {
      killed := true;
    }

    /** try_read_result in round `round`. `desync` is the error raised when the worker
        answers another test than the one it was given. */
    method TryReadResult(chunk: string, ghost round: nat) returns (r: Reading, desync: bool)
      requires Ok()
      modifies this`buf, this`pending, this`heard, this`readIn, this`taken
      ensures Ok() && heard == old(heard) + chunk && readIn == old(readIn) + [round]
      ensures r.Nothing? && !desync ==> pending == old(pending)
      ensures r.Answer? ==> pending.None? && !desync && (old(pending).Some? ==> old(pending) == Some(r.test))
      ensures r.Answer? ==> Says(heard, r.test, r.verdict)
      ensures desync ==> pending == old(pending) && r.Nothing? && Misled()
      ensures chunk == "" ==> buf == old(buf) && r.Nothing?
      ensures chunk != "" && !desync ==> (r, buf) == Scan(old(buf) + chunk)
    {
      hide Buffered, LineOf, LineVerdict, Scan, Says;
      r, desync := Nothing, false;
      MoreBuffered(heard, taken, buf, chunk);
      readIn := readIn + [round];
      heard := heard + chunk;
      assert chunk == "" ==> buf + chunk == buf;
      if chunk == "" { return; }
      buf := buf + chunk;
      ghost var all := buf;
      while '\n' in buf
        invariant Scan(buf) == Scan(all) && pending == old(pending) && r.Nothing? && !desync
        invariant Ok() && heard == old(heard) + chunk && readIn == old(readIn) + [round]
        decreases |buf|
      {
        ScanLine(buf);
        var raw := TakeLine();
        var said := LineVerdict(raw);
        if said.Answer? {
          if pending.Some? && pending.value != said.test { return Nothing, true; }
          pending := None;
          return said, false;
        }
      }
      ScanNothing(buf);
    }

    /** Split off the first line. */
    method TakeLine() returns (raw: string)
      requires Ok() && '\n' in buf
      modifies this`buf, this`taken
      ensures Ok() && raw == old(buf)[..IndexOf(old(buf), '\n')] && buf == old(buf)[|raw| + 1..]
      ensures LineVerdict(raw).Answer? ==> Says(heard, LineVerdict(raw).test, LineVerdict(raw).verdict)
    {
      hide Buffered, LineOf, LineVerdict;
      LineTaken(heard, taken, buf);
      var i := IndexOf(buf, '\n');
      raw := buf[..i];
      assert LineOf(heard, taken, taken + i) && heard[taken..taken + i] == raw;
      buf := buf[i + 1..];
      taken := taken + i + 1;
    }
  }

  /* ----- counting what the workers hold ----- */

  function Bag(p: Option<Test>): multiset<Test> { if p.Some? then multiset{p.value} else multiset{} }

  function Held(ps: seq<Option<Test>>): multiset<Test> {
    if ps == [] then multiset{} else Held(ps[..|ps| - 1]) + Bag(ps[|ps| - 1])
  }

  function Busy(ps: seq<Option<Test>>): nat {
    if ps == [] then 0 else Busy(ps[..|ps| - 1]) + Num(ps[|ps| - 1].Some?)
  }

  lemma Swap(x: multiset<Test>, o: multiset<Test>, p: multiset<Test>)
    ensures x + p + o == x + o + p
  {
  }

  lemma AddBoth(x: multiset<Test>, o: multiset<Test>, y: multiset<Test>, p: multiset<Test>, l: multiset<Test>)
    requires x + o == y + p
    ensures x + l + o == y + l + p
  {
    assert x + l + o == x + o + l;
    assert y + l + p == y + p + l;
  }

  lemma {:induction false} HeldUpdate(ps: seq<Option<Test>>, i: nat, p: Option<Test>)
    requires i < |ps|
    ensures Held(ps[i := p]) + Bag(ps[i]) == Held(ps) + Bag(p)
    ensures Busy(ps[i := p]) + Num(ps[i].Some?) == Busy(ps) + Num(p.Some?)
    decreases |ps|
  {
    hide Bag;
    var n := |ps| - 1;
    if i == n {
      assert ps[i := p][..n] == ps[..n];
      Swap(Held(ps[..n]), Bag(ps[n]), Bag(p));
    } else {
      assert ps[i := p][..n] == ps[..n][i := p];
      HeldUpdate(ps[..n], i, p);
      AddBoth(Held(ps[..n][i := p]), Bag(ps[i]), Held(ps[..n]), Bag(p), Bag(ps[n]));
    }
  }

  /** A test moves from the queue into a worker's hands ... */
  lemma Taken(t: multiset<Test>, first: Test, rest: seq<Test>, h: multiset<Test>, h': multiset<Test>, r: multiset<Test>)
    requires t == multiset([first] + rest) + h + r && h' + Bag(None) == h + Bag(Some(first))
    ensures t == multiset(rest) + h' + r
  {
    assert multiset([first] + rest) == multiset{first} + multiset(rest);
    assert h' == h + multiset{first};
  }

  /** ... and from there into the results. */
  lemma Judged(t: multiset<Test>, q: multiset<Test>, h: multiset<Test>, h': multiset<Test>, rs: seq<Test>, x: Test)
    requires t == q + h + multiset(rs) && h' + Bag(Some(x)) == h + Bag(None)
    ensures t == q + h' + multiset(rs + [x])
  {
    assert multiset(rs + [x]) == multiset(rs) + multiset{x};
    assert h == h' + multiset{x};
  }

  lemma {:induction false} NobodyBusy(ps: seq<Option<Test>>)
    requires Busy(ps) == 0
    ensures Held(ps) == multiset{}
    decreases |ps|
  {
    if ps != [] { NobodyBusy(ps[..|ps| - 1]); }
  }

  lemma {:induction false} AllIdle(ps: seq<Option<Test>>)
    requires forall i :: 0 <= i < |ps| ==> ps[i].None?
    ensures Held(ps) == multiset{} && Busy(ps) == 0
    decreases |ps|
  {
    if ps != [] { AllIdle(ps[..|ps| - 1]); }
  }

  function Paths(rs: seq<(Test, Verdict)>): (ps: seq<Test>)
    ensures |ps| == |rs|
  {
    seq(|rs|, i requires 0 <= i < |rs| => rs[i].0)
  }

  lemma PathsSnoc(rs: seq<(Test, Verdict)>, r: (Test, Verdict))
    ensures Paths(rs + [r]) == Paths(rs) + [r.0]
  {
  }

  ghost predicate Suffix(s: seq<Test>, t: seq<Test>) { exists k: nat :: k <= |t| && s == t[k..] }

  lemma SuffixSelf(t: seq<Test>)
    ensures Suffix(t, t)
  {
    assert t == t[0..];
  }

  lemma SuffixNext(s: seq<Test>, t: seq<Test>)
    requires Suffix(s, t) && s != []
    ensures Suffix(s[1..], t)
  {
    var k: nat :| k <= |t| && s == t[k..];
    assert s[1..] == t[k + 1..];
  }

  /** What one round of the loop sees of the outside world, worker by worker: which
      processes have exited at the start of each phase, what arrives on the pipes,
      who is over the memory limit, who is too slow, who died of memory. */
  datatype World = World(
    deadAtAssign: seq<bool>, deadAtRead: seq<bool>, chunks: seq<string>,
    deadAtMemory: seq<bool>, overLimit: seq<bool>,
    deadAtTimeout: seq<bool>, tooSlow: seq<bool>,
    deadAtReplace: seq<bool>, outOfMemory: seq<bool>)

  predicate Covers(w: World, n: nat) {
    && |w.deadAtAssign| == |w.deadAtRead| == |w.chunks| == |w.deadAtMemory| == |w.overLimit| == n
    && |w.deadAtTimeout| == |w.tooSlow| == |w.deadAtReplace| == |w.outOfMemory| == n
  }

  /* ----- why a test has its verdict ----- */

  /** What a verdict rests on: the output of worker `i` in some rounds, an observation of
      one round, or a process that has died. */
  datatype Cause =
    | Said(i: nat, rounds: seq<nat>)
    | Hogged(i: nat, round: nat)
    | Slow(i: nat, round: nat)
    | Crashed(i: nat, round: nat)

  function ChunkAt(seen: seq<World>, i: nat, round: nat): string {
    if round < |seen| && i < |seen[round].chunks| then seen[round].chunks[i] else ""
  }

  /** The output of worker `i` in these rounds. */
  function Joined(seen: seq<World>, i: nat, rounds: seq<nat>): string
    decreases |rounds|
  {
    if rounds == [] then "" else Joined(seen, i, rounds[..|rounds| - 1]) + ChunkAt(seen, i, rounds[|rounds| - 1])
  }

  ghost predicate Rising(rounds: seq<nat>, end: nat) {
    && (forall j, k :: 0 <= j < k < |rounds| ==> rounds[j] < rounds[k])
    && (forall j :: 0 <= j < |rounds| ==> rounds[j] < end)
  }

  predicate Flag(flags: seq<bool>, i: nat) { i < |flags| && flags[i] }

  /** Worker `i` was seen to have exited. */
  ghost predicate DeadIn(w: World, i: nat) {
    || Flag(w.deadAtAssign, i) || Flag(w.deadAtRead, i) || Flag(w.deadAtMemory, i) || Flag(w.deadAtTimeout, i)
    || Flag(w.deadAtReplace, i)
  }

  ghost predicate SeenDead(seen: seq<World>, i: nat) { exists r: nat :: r < |seen| && DeadIn(seen[r], i) }

  /** A worker's own verdict is a line of its output; MEMKILL needs a worker over the
      memory limit or one that died of memory; TIMEOUT one that was too slow; any other
      FAIL one that died. */
  ghost predicate Justified(seen: seq<World>, t: Test, v: Verdict, c: Cause) {
    match c
    case Said(i, rounds) => Rising(rounds, |seen|) && Says(Joined(seen, i, rounds), t, v)
    case Hogged(i, r) => v == MemKill && r < |seen| && Flag(seen[r].overLimit, i)
    case Slow(i, r) => v == Timeout && r < |seen| && Flag(seen[r].tooSlow, i)
    case Crashed(i, r) =>
      && v == (if r < |seen| && Flag(seen[r].outOfMemory, i) then MemKill else Fail)
      && r < |seen| && SeenDead(seen, i)
  }

  ghost predicate AllJustified(seen: seq<World>, results: seq<(Test, Verdict)>, causes: seq<Cause>) {
    && |causes| == |results|
    && forall k :: 0 <= k < |results| ==> Justified(seen, results[k].0, results[k].1, causes[k])
  }

  /** What the pool knows of worker `i`. */
  ghost predicate TraceOk(seen: seq<World>, i: nat, rounds: seq<nat>, heard: string, exited: bool) {
    Rising(rounds, |seen|) && heard == Joined(seen, i, rounds) && (exited ==> SeenDead(seen, i))
  }

  lemma {:induction false} JoinedLater(seen: seq<World>, w: World, i: nat, rounds: seq<nat>)
    requires Rising(rounds, |seen|)
    ensures Joined(seen + [w], i, rounds) == Joined(seen, i, rounds)
    decreases |rounds|
  {
    if rounds != [] { JoinedLater(seen, w, i, rounds[..|rounds| - 1]); }
  }

  lemma DeadLater(seen: seq<World>, w: World, i: nat)
    requires SeenDead(seen, i)
    ensures SeenDead(seen + [w], i)
  {
    var r: nat :| r < |seen| && DeadIn(seen[r], i);
    assert (seen + [w])[r] == seen[r];
  }

  lemma TraceLater(seen: seq<World>, w: World, i: nat, rounds: seq<nat>, heard: string, exited: bool)
    requires TraceOk(seen, i, rounds, heard, exited)
    ensures TraceOk(seen + [w], i, rounds, heard, exited)
  {
    hide Joined, SeenDead;
    JoinedLater(seen, w, i, rounds);
    if exited { DeadLater(seen, w, i); }
  }

  lemma TraceRead(seen: seq<World>, i: nat, rounds: seq<nat>, heard: string, exited: bool)
    requires TraceOk(seen, i, rounds, heard, exited) && seen != [] && Rising(rounds, |seen| - 1)
    ensures var r := |seen| - 1; TraceOk(seen, i, rounds + [r], heard + ChunkAt(seen, i, r), exited)
  {
    hide SeenDead, ChunkAt;
    var r := |seen| - 1;
    assert (rounds + [r])[..|rounds|] == rounds;
  }

  lemma JustifiedLater(seen: seq<World>, w: World, t: Test, v: Verdict, c: Cause)
    requires Justified(seen, t, v, c)
    ensures Justified(seen + [w], t, v, c)
  {
    hide Joined, SeenDead, Says;
    match c
    case Said(i, rounds) => JoinedLater(seen, w, i, rounds);
    case Crashed(i, r) => DeadLater(seen, w, i);
    case _ =>
  }

  lemma AllLater(seen: seq<World>, w: World, results: seq<(Test, Verdict)>, causes: seq<Cause>)
    requires AllJustified(seen, results, causes)
    ensures AllJustified(seen + [w], results, causes)
  {
    hide Justified;
    forall k | 0 <= k < |results| ensures Justified(seen + [w], results[k].0, results[k].1, causes[k]) {
      JustifiedLater(seen, w, results[k].0, results[k].1, causes[k]);
    }
  }

  lemma OneMore(seen: seq<World>, results: seq<(Test, Verdict)>, causes: seq<Cause>, t: Test, v: Verdict, c: Cause)
    requires AllJustified(seen, results, causes) && Justified(seen, t, v, c)
    ensures AllJustified(seen, results + [(t, v)], causes + [c])
  {
    hide Justified;
  }

  lemma NowDead(seen: seq<World>, dead: seq<bool>, i: nat)
    requires seen != [] && Flag(dead, i) && forall j: nat :: Flag(dead, j) ==> DeadIn(seen[|seen| - 1], j)
    ensures SeenDead(seen, i)
  {
    hide DeadIn;
    assert DeadIn(seen[|seen| - 1], i);
  }

  lemma TraceSays(seen: seq<World>, i: nat, rounds: seq<nat>, heard: string, exited: bool, t: Test, v: Verdict)
    requires TraceOk(seen, i, rounds, heard, exited) && Says(heard, t, v)
    ensures Justified(seen, t, v, Said(i, rounds))
  {
    hide Joined, Says, Rising;
  }

  lemma CrashCause(seen: seq<World>, i: nat, rounds: seq<nat>, heard: string, exited: bool, t: Test)
    requires TraceOk(seen, i, rounds, heard, exited) && exited && seen != []
    ensures var r := |seen| - 1; Justified(seen, t, if Flag(seen[r].outOfMemory, i) then MemKill
                                           else Fail, Crashed(i, r))
  {
    hide Joined, Rising, SeenDead;
  }

  lemma TraceRises(seen: seq<World>, i: nat, rounds: seq<nat>, heard: string, exited: bool)
    requires TraceOk(seen, i, rounds, heard, exited)
    ensures Rising(rounds, |seen|)
  {
    hide Joined, Rising, SeenDead;
  }

  lemma NewTrace(seen: seq<World>, i: nat)
    ensures TraceOk(seen, i, [], "", false)
  {
  }

  lemma NothingJudged(seen: seq<World>)
    ensures AllJustified(seen, [], [])
  {
  }

  class Pool {
    ghost const tests: seq<Test>
    var workers: seq<Worker>
    var queue: seq<Test>
    var results: seq<(Test, Verdict)>
    var pendingCount: int
    /** The rounds so far, and why each result is what it is. */
    ghost var seen: seq<World>
    ghost var causes: seq<Cause>

    ghost function Crew(): set<Worker>
      reads this
    {
      set w | w in workers
    }

    ghost function Pendings(): (ps: seq<Option<Test>>)
      reads this, Crew()
      ensures |ps| == |workers|
    {
      seq(|workers|, i requires 0 <= i < |workers| reads this, Crew() => workers[i].pending)
    }

    /** Every test is in exactly one place: the queue, one worker's hands, or the
        results; the counter counts the busy workers; a killed worker is idle. Every
        result has a cause in what has been seen. */
    ghost predicate Valid()
      reads this, Crew()
    {
      Counted() && (forall i :: 0 <= i < |workers| && workers[i].killed ==> workers[i].pending.None?)
    }

    ghost predicate Apart()
      reads this`workers
    {
      forall i, j :: 0 <= i < j < |workers| ==> workers[i] != workers[j]
    }

    lemma ValidApart()
      requires Valid()
      ensures Apart()
    {
    }

    ghost predicate Counted()
      reads this, Crew()
    {
      && Apart()
      && multiset(tests) == multiset(queue) + Held(Pendings()) + multiset(Paths(results))
      && pendingCount == Busy(Pendings())
      && (forall i :: 0 <= i < |workers| ==> Known(i, workers[i]))
      && AllJustified(seen, results, causes)
    }

    ghost predicate Known(i: nat, w: Worker)
      reads this, w
    {
      w.Ok() && TraceOk(seen, i, w.readIn, w.heard, w.exited)
    }

    constructor (n: nat, all: seq<Test>)
      ensures Valid() && fresh(Crew()) && |workers| == n && tests == all
      ensures queue == all && results == [] && seen == []
    {
      tests, queue, results, pendingCount := all, all, [], 0;
      workers := [];
      seen, causes := [], [];
      new;
      while |workers| < n
        invariant |workers| <= n && forall i :: 0 <= i < |workers| ==> fresh(workers[i])
        invariant tests == all && queue == all && results == [] && pendingCount == 0 && seen == [] && causes == []
        invariant forall i, j :: 0 <= i < j < |workers| ==> workers[i] != workers[j]
        invariant forall i :: 0 <= i < |workers| ==> workers[i].pending.None? && !workers[i].killed
        invariant forall i :: 0 <= i < |workers| ==> Known(i, workers[i])
      {
        var w := new Worker();
        NewTrace(seen, |workers|);
        workers := workers + [w];
      }
      AllIdle(Pendings());
      NothingJudged(seen);
    }

    /** Hand the next test to worker `i`. */
    method Give(i: nat, w: Worker)
      requires Valid() && i < |workers| && w == workers[i] && workers[i].Alive() && workers[i].pending.None?
               && queue != []
      modifies this`queue, this`pendingCount, w`pending
      ensures Valid() && queue == old(queue)[1..] && workers[i].pending == Some(old(queue)[0])
    {
      hide Held, Busy, Paths, Bag, TraceOk, AllJustified, Buffered;
      ghost var before := Pendings();
      ghost var first, rest := queue[0], queue[1..];
      assert queue == [first] + rest;
      workers[i].SendTest(queue[0]);
      queue := queue[1..];
      pendingCount := pendingCount + 1;
      HeldUpdate(before, i, Some(first));
      assert Pendings() == before[i := Some(first)];
      Taken(multiset(tests), first, rest, Held(before), Held(Pendings()), multiset(Paths(results)));
    }

    /** finish_worker: record a verdict for the test that worker `i` holds. */
    method Finish(i: nat, w: Worker, verdict: Verdict, ghost cause: Cause)
      requires Counted() && i < |workers| && w == workers[i] && workers[i].pending.Some?
      requires forall j :: 0 <= j < |workers| && j != i && workers[j].killed ==> workers[j].pending.None?
      requires Justified(seen, workers[i].pending.value, verdict, cause)
      modifies this`results, this`pendingCount, this`causes, w`pending
      ensures Valid() && workers[i].pending.None?
      ensures results == old(results) + [(old(workers[i].pending.value), verdict)] && causes == old(causes) + [cause]
    {
      hide Held, Busy, Paths, Bag, TraceOk, AllJustified, Justified, Buffered;
      ghost var before := Pendings();
      var path := workers[i].pending.value;
      ghost var paths := Paths(results);
      PathsSnoc(results, (path, verdict));
      OneMore(seen, results, causes, path, verdict, cause);
      results := results + [(path, verdict)];
      causes := causes + [cause];
      workers[i].pending := None;
      pendingCount := pendingCount - 1;
      HeldUpdate(before, i, None);
      assert Pendings() == before[i := None];
      Judged(multiset(tests), multiset(queue), Held(before), Held(Pendings()), paths, path);
    }

    method KillAndFinish(i: nat, w: Worker, verdict: Verdict, ghost cause: Cause)
      requires Valid() && i < |workers| && w == workers[i] && workers[i].pending.Some?
      requires Justified(seen, workers[i].pending.value, verdict, cause)
      modifies this`results, this`pendingCount, this`causes, w`pending, w`killed
      ensures Valid() && workers[i].pending.None? && workers[i].killed
      ensures results == old(results) + [(old(workers[i].pending.value), verdict)] && causes == old(causes) + [cause]
    {
      hide Held, Busy, Paths, TraceOk, AllJustified, Justified, Buffered;
      ghost var before := Pendings();
      workers[i].Kill();
      assert Pendings() == before;
      Finish(i, w, verdict, cause);
    }

    /** Nobody who is alive is idle. */
    predicate Employed()
      reads this, Crew()
    {
      forall j :: 0 <= j < |workers| && workers[j].Alive() ==> workers[j].pending.Some?
    }

    ghost predicate Desynced()
      reads this, Crew()
    {
      exists i :: 0 <= i < |workers| && workers[i].Misled()
    }

    /** These are flags of exited processes in the current round. */
    ghost predicate Observed(dead: seq<bool>)
      reads this
    {
      seen != [] && forall i: nat :: Flag(dead, i) ==> DeadIn(seen[|seen| - 1], i)
    }

    method PollOne(i: nat, w: Worker, dead: seq<bool>)
      requires Valid() && i < |workers| && w == workers[i] && i < |dead| && Observed(dead)
      modifies w`exited
      ensures Valid() && w.exited == (old(w.exited) || dead[i])
    {
      hide Held, Busy, Paths, AllJustified, Joined, Rising, DeadIn, Buffered;
      ghost var before := Pendings();
      if dead[i] { NowDead(seen, dead, i); }
      workers[i].Poll(dead[i]);
      assert Pendings() == before;
    }

    /** Assign idle workers, from the front of the queue: while tests are left nobody who
        is alive stays idle. */
    method Assign(dead: seq<bool>)
      requires Valid() && |dead| == |workers| && Observed(dead)
      modifies this`queue, this`pendingCount, Crew()`pending, Crew()`exited
      ensures Valid() && Suffix(queue, old(queue)) && (queue != [] ==> Employed())
      ensures forall j :: 0 <= j < |workers| && old(workers[j].pending).Some? ==>
                workers[j].pending == old(workers[j].pending)
      ensures forall j :: 0 <= j < |workers| && old(workers[j].Alive()) && !dead[j] ==> workers[j].Alive()
    {
      hide Valid, Suffix, DeadIn;
      ValidApart();
      var i := 0;
      SuffixSelf(queue);
      while i < |workers|
        invariant 0 <= i <= |workers| && Valid() && Apart() && Suffix(queue, old(queue))
        invariant queue != [] ==> forall j :: 0 <= j < i ==> workers[j].Alive() ==> workers[j].pending.Some?
        invariant forall j :: 0 <= j < |workers| && old(workers[j].pending).Some? ==>
                    workers[j].pending == old(workers[j].pending)
        invariant forall j :: 0 <= j < |workers| && old(workers[j].Alive()) && (i <= j || !dead[j]) ==>
                    workers[j].Alive()
      {
        if queue != [] { SuffixNext(queue, old(queue)); }
        AssignOne(i, workers[i], dead);
        i := i + 1;
      }
    }

    method AssignOne(i: nat, w: Worker, dead: seq<bool>)
      requires Valid() && i < |workers| && w == workers[i] && i < |dead| && Observed(dead)
      modifies this`queue, this`pendingCount, w`pending, w`exited
      ensures Valid() && w.exited == (old(w.exited) || dead[i])
      ensures queue == old(queue) || (old(queue) != [] && queue == old(queue)[1..])
      ensures old(w.pending).Some? ==> w.pending == old(w.pending)
      ensures queue != [] && w.Alive() ==> w.pending.Some?
    {
      hide Held, Busy, Paths, AllJustified, TraceOk, Buffered, DeadIn;
      PollOne(i, workers[i], dead);
      if workers[i].Alive() && workers[i].pending.None? && queue != [] { Give(i, workers[i]); }
    }

    /** Nothing has been read in the current round from worker `from` on. */
    ghost predicate Unread(from: nat)
      reads this, Crew()
    {
      seen != [] && forall j :: from <= j < |workers| ==> Rising(workers[j].readIn, |seen| - 1)
    }

    /** Read what has arrived from the busy workers. */
    method Collect(dead: seq<bool>, chunks: seq<string>) returns (desync: bool)
      requires Valid() && |dead| == |chunks| == |workers| && Observed(dead)
      requires Unread(0) && chunks == seen[|seen| - 1].chunks
      modifies this`results, this`pendingCount, this`causes, Crew()
      ensures Valid() && old(results) <= results && old(causes) <= causes && (desync ==> Desynced())
      ensures !desync ==> forall j :: 0 <= j < |workers| && old(workers[j].Speaks(dead[j], chunks[j])) ==>
                            var said := Scan(old(workers[j].buf) + chunks[j]).0; (said.test, said.verdict) in results
      ensures results == old(results) && old(Employed()) && !desync ==> Employed()
    {
      hide Valid, DeadIn, Rising, Scan, Says;
      ValidApart();
      var i := 0;
      desync := false;
      while i < |workers|
        invariant 0 <= i <= |workers| && Valid() && Apart() && old(results) <= results && old(causes) <= causes
                  && Unread(i)
        invariant !desync
        invariant forall j :: i <= j < |workers| ==>
                    workers[j].buf == old(workers[j].buf) && workers[j].pending == old(workers[j].pending)
                    && workers[j].killed == old(workers[j].killed) && workers[j].exited == old(workers[j].exited)
        invariant forall j :: 0 <= j < i && old(workers[j].Speaks(dead[j], chunks[j])) ==>
                    var said := Scan(old(workers[j].buf) + chunks[j]).0; (said.test, said.verdict) in results
        invariant results == old(results) && old(Employed()) ==> Employed()
      {
        desync := CollectOne(i, workers[i], dead, chunks[i]);
        if desync { return; }
        i := i + 1;
      }
    }

    method CollectOne(i: nat, w: Worker, dead: seq<bool>, chunk: string) returns (desync: bool)
      requires Valid() && i < |workers| && w == workers[i] && i < |dead| && Observed(dead)
      requires Unread(i) && chunk == ChunkAt(seen, i, |seen| - 1)
      modifies this`results, this`pendingCount, this`causes, w
      ensures Valid() && old(results) <= results && old(causes) <= causes && (desync ==> w.Misled())
      ensures Unread(i + 1)
      ensures w.killed == old(w.killed) && w.exited == (old(w.exited) || dead[i])
      ensures !desync && old(w.Speaks(dead[i], chunk)) ==>
                var said := Scan(old(w.buf) + chunk).0; (said.test, said.verdict) in results
      ensures results == old(results) ==> w.pending == old(w.pending)
    {
      hide Held, Busy, Paths, AllJustified, TraceOk, Buffered, DeadIn, Rising, Scan, Says;
      PollOne(i, workers[i], dead);
      desync := false;
      if workers[i].Alive() && workers[i].pending.Some? { desync := ReadOne(i, chunk); }
    }

    /** One verdict is recorded if the worker's output now has one: the one it says. */
    method ReadOne(i: nat, chunk: string) returns (desync: bool)
      requires Valid() && i < |workers| && workers[i].pending.Some?
      requires Unread(i) && chunk == ChunkAt(seen, i, |seen| - 1)
      modifies this`results, this`pendingCount, this`causes, workers[i]
      ensures Valid() && old(results) <= results && old(causes) <= causes && (desync ==> workers[i].Misled())
      ensures workers[i].killed == old(workers[i].killed) && workers[i].exited == old(workers[i].exited)
      ensures results == old(results) ==> workers[i].pending == old(workers[i].pending)
      ensures chunk != "" && !desync ==>
                var said := Scan(old(workers[i].buf) + chunk).0;
                results == old(results) + if said.Answer? then [(said.test, said.verdict)] else []
      ensures results != old(results) ==>
                exists v :: results == old(results) + [(old(workers[i].pending.value), v)]
      ensures chunk == "" ==> results == old(results)
    {
      hide Held, Busy, Paths, Bag, Scan, AllJustified, TraceOk, Buffered, Rising, Says, Joined, Justified;
      ghost var before, w := Pendings(), workers[i];
      TraceRead(seen, i, w.readIn, w.heard, w.exited);
      var r;
      r, desync := workers[i].TryReadResult(chunk, |seen| - 1);
      assert Pendings() == before[i := w.pending];
      if r.Answer? {
        TraceSays(seen, i, w.readIn, w.heard, w.exited, r.test, r.verdict);
        Record(i, r.test, r.verdict, Said(i, w.readIn), before);
      } else {
        assert Pendings() == before;
      }
    }

    /** Record what the worker has said; it has just become idle. */
    method Record(i: nat, t: Test, v: Verdict, ghost cause: Cause, ghost before: seq<Option<Test>>)
      requires i < |workers| && |before| == |workers| && before[i] == Some(t) && Pendings() == before[i := None]
      requires forall i, j :: 0 <= i < j < |workers| ==> workers[i] != workers[j]
      requires forall i :: 0 <= i < |workers| ==> Known(i, workers[i])
      requires forall i :: 0 <= i < |workers| && workers[i].killed ==> workers[i].pending.None?
      requires multiset(tests) == multiset(queue) + Held(before) + multiset(Paths(results))
               && pendingCount == Busy(before)
      requires AllJustified(seen, results, causes) && Justified(seen, t, v, cause)
      modifies this`results, this`pendingCount, this`causes
      ensures Valid() && results == old(results) + [(t, v)] && causes == old(causes) + [cause]
    {
      hide Held, Busy, Paths, Bag, AllJustified, Justified, TraceOk, Buffered;
      ghost var paths := Paths(results);
      HeldUpdate(before, i, None);
      PathsSnoc(results, (t, v));
      OneMore(seen, results, causes, t, v, cause);
      results := results + [(t, v)];
      causes := causes + [cause];
      pendingCount := pendingCount - 1;
      assert Pendings() == before[i := None];
      Judged(multiset(tests), multiset(queue), Held(before), Held(Pendings()), paths, t);
    }

    /** What condemns a busy worker in the current round, and the verdict that goes with
        it. */
    ghost predicate Condemns(condemned: seq<bool>, verdict: Verdict)
      reads this
    {
      && seen != []
      && ((verdict == MemKill && condemned == seen[|seen| - 1].overLimit)
          || (verdict == Timeout && condemned == seen[|seen| - 1].tooSlow))
    }

    /** Kill the busy workers that an observation condemns: too much memory, too slow. */
    method Condemn(dead: seq<bool>, condemned: seq<bool>, verdict: Verdict)
      requires Valid() && |dead| == |condemned| == |workers| && Observed(dead) && Condemns(condemned, verdict)
      modifies this`results, this`pendingCount, this`causes, Crew()`pending, Crew()`killed, Crew()`exited
      ensures Valid() && old(results) <= results && old(causes) <= causes
      ensures forall k :: |old(results)| <= k < |results| ==> results[k].1 == verdict
      ensures forall j :: 0 <= j < |workers| && condemned[j] && workers[j].Alive() ==> workers[j].pending.None?
      ensures forall j :: 0 <= j < |workers| && workers[j].Alive() && workers[j].pending.Some? ==>
                old(workers[j].Alive() && workers[j].pending.Some?)
      ensures results == old(results) && old(Employed()) ==> Employed()
    {
      hide Valid, DeadIn;
      ValidApart();
      var i := 0;
      while i < |workers|
        invariant 0 <= i <= |workers| && Valid() && Apart() && old(results) <= results && old(causes) <= causes
        invariant Observed(dead) && Condemns(condemned, verdict)
        invariant forall k :: |old(results)| <= k < |results| ==> results[k].1 == verdict
        invariant forall j :: 0 <= j < i && condemned[j] && workers[j].Alive() ==> workers[j].pending.None?
        invariant forall j :: 0 <= j < |workers| && workers[j].Alive() && workers[j].pending.Some? ==>
                    old(workers[j].Alive() && workers[j].pending.Some?)
        invariant results == old(results) && old(Employed()) ==> Employed()
      {
        CondemnOne(i, workers[i], dead, condemned, verdict);
        i := i + 1;
      }
    }

    method CondemnOne(i: nat, w: Worker, dead: seq<bool>, condemned: seq<bool>, verdict: Verdict)
      requires Valid() && i < |workers| && w == workers[i] && |dead| == |condemned| == |workers|
      requires Observed(dead) && Condemns(condemned, verdict)
      modifies this`results, this`pendingCount, this`causes, w`pending, w`killed, w`exited
      ensures Valid() && old(results) <= results && old(causes) <= causes
      ensures w.exited == (old(w.exited) || dead[i]) && (old(w.killed) ==> w.killed)
      ensures results == old(results) ==> w.pending == old(w.pending)
      ensures results != old(results) ==> w.pending.None?
      ensures forall k :: |old(results)| <= k < |results| ==> results[k].1 == verdict
      ensures condemned[i] && w.Alive() ==> w.pending.None?
    {
      hide Held, Busy, Paths, AllJustified, TraceOk, Buffered, DeadIn, SeenDead;
      PollOne(i, workers[i], dead);
      if workers[i].Alive() && workers[i].pending.Some? && condemned[i] {
        ghost var cause := if verdict == MemKill then Hogged(i, |seen| - 1) else Slow(i, |seen| - 1);
        KillAndFinish(i, workers[i], verdict, cause);
      }
    }

    /** Replace dead workers, the single respawn path. */
    method Replace(dead: seq<bool>, outOfMemory: seq<bool>)
      requires Valid() && |dead| == |outOfMemory| == |workers| && Observed(dead)
      requires outOfMemory == seen[|seen| - 1].outOfMemory
      modifies this`workers, this`queue, this`results, this`pendingCount, this`causes, Crew()
      ensures Valid() && old(results) <= results && old(causes) <= causes
      ensures |workers| == |old(workers)| && fresh(Crew() - old(Crew()))
      ensures forall j :: 0 <= j < |workers| ==> workers[j].Alive()
      ensures |queue| <= |old(queue)| && (queue != [] && old(Employed()) ==> Employed())
      ensures forall j :: 0 <= j < |workers| && !fresh(workers[j]) ==>
                workers[j] == old(workers[j]) && workers[j].pending == old(workers[j].pending)
                && old(workers[j].Alive())
    {
      hide Valid, DeadIn;
      ValidApart();
      var i := 0;
      while i < |workers|
        invariant 0 <= i <= |workers| == |old(workers)| && Valid() && Apart() && fresh(Crew() - old(Crew()))
        invariant old(results) <= results && old(causes) <= causes
        invariant forall j :: 0 <= j < i ==> workers[j].Alive()
        invariant |queue| <= |old(queue)| && (queue != [] && old(Employed()) ==> Employed())
        invariant forall j :: 0 <= j < |workers| && !fresh(workers[j]) ==>
                    && workers[j] == old(workers[j]) && workers[j].pending == old(workers[j].pending)
                    && (workers[j].Alive() ==> old(workers[j].Alive()))
      {
        PollOne(i, workers[i], dead);
        if !workers[i].Alive() { ReplaceOne(i, workers[i], outOfMemory[i]); }
        i := i + 1;
      }
    }

    method ReplaceOne(i: nat, w: Worker, outOfMemory: bool)
      requires Valid() && i < |workers| && w == workers[i] && !w.Alive()
      requires seen != [] && outOfMemory == Flag(seen[|seen| - 1].outOfMemory, i)
      modifies this`workers, this`queue, this`results, this`pendingCount, this`causes, w`pending
      ensures Valid() && Apart() && old(results) <= results && old(causes) <= causes
      ensures |workers| == |old(workers)| && fresh(workers[i]) && workers == old(workers)[i := workers[i]]
      ensures workers[i].Alive() && |queue| <= |old(queue)| && (queue != [] ==> workers[i].pending.Some?)
    {
      hide Held, Busy, Paths, AllJustified, TraceOk, Buffered, DeadIn, SeenDead, Justified;
      if workers[i].pending.Some? {
        CrashCause(seen, i, w.readIn, w.heard, w.exited, w.pending.value);
        Finish(i, w, if outOfMemory then MemKill else Fail, Crashed(i, |seen| - 1));
      }
      Respawn(i);
      if queue != [] { Give(i, workers[i]); }
    }

    method Respawn(i: nat)
      requires Valid() && i < |workers| && workers[i].pending.None?
      modifies this`workers
      ensures Valid() && |workers| == |old(workers)| && fresh(workers[i])
      ensures workers == old(workers)[i := workers[i]] && workers[i].Alive() && workers[i].pending.None?
    {
      hide Held, Busy, Paths, AllJustified, TraceOk, Buffered;
      ghost var before := Pendings();
      var w := new Worker();
      NewTrace(seen, i);
      workers := workers[i := w];
      assert Pendings() == before;
    }

    predicate Finished()
      reads this
    {
      queue == [] && pendingCount <= 0
    }

    /** A new round is seen. */
    ghost method Look(w: World)
      requires Valid()
      modifies this`seen
      ensures Valid() && seen == old(seen) + [w] && Unread(0)
    {
      hide Held, Busy, Paths, AllJustified, TraceOk, Buffered, Rising;
      forall i | 0 <= i < |workers|
        ensures TraceOk(seen + [w], i, workers[i].readIn, workers[i].heard, workers[i].exited)
        ensures Rising(workers[i].readIn, |seen|)
      {
        TraceLater(seen, w, i, workers[i].readIn, workers[i].heard, workers[i].exited);
        TraceRises(seen, i, workers[i].readIn, workers[i].heard, workers[i].exited);
      }
      AllLater(seen, w, results, causes);
      ghost var before := Pendings();
      seen := seen + [w];
      assert Pendings() == before;
    }

    /** The flags and the output of the current round. */
    ghost predicate Looking(w: World)
      reads this, Crew()
    {
      Covers(w, |workers|) && seen != [] && seen[|seen| - 1] == w
    }

    /** The first half of a turn: give out tests and read verdicts. */
    method Hear(w: World) returns (desync: bool)
      requires Valid() && Looking(w) && Unread(0)
      modifies this`queue, this`results, this`pendingCount, this`causes, Crew()
      ensures Valid() && old(results) <= results && old(causes) <= causes && (desync ==> Desynced())
      ensures !desync ==> forall j | 0 <= j < |workers| ::
                old(workers[j].Speaks(w.deadAtAssign[j] || w.deadAtRead[j], w.chunks[j])) ==>
                  var said := Scan(old(workers[j].buf) + w.chunks[j]).0; (said.test, said.verdict) in results
      ensures results == old(results) && queue != [] && !desync ==> Employed()
    {
      hide Held, Busy, Paths, Bag, Scan, AllJustified, TraceOk, Buffered, Rising, Justified, Says;
      Assign(w.deadAtAssign);
      desync := Collect(w.deadAtRead, w.chunks);
    }

    /** The second half: kill, and replace what is dead. */
    method Sweep(w: World)
      requires Valid() && Looking(w)
      modifies this, Crew()
      ensures Valid() && seen == old(seen) && old(results) <= results && old(causes) <= causes
      ensures |workers| == |old(workers)| && fresh(Crew() - old(Crew()))
      ensures forall j :: 0 <= j < |workers| ==> workers[j].Alive()
      ensures forall j :: 0 <= j < |workers| && (w.overLimit[j] || w.tooSlow[j]) ==>
                            fresh(workers[j]) || workers[j].pending.None?
      ensures results == old(results) && queue != [] && (old(queue) != [] ==> old(Employed())) ==> Employed()
    {
      hide Held, Busy, Paths, Bag, AllJustified, TraceOk, Buffered, Justified;
      Condemn(w.deadAtMemory, w.overLimit, MemKill);
      Condemn(w.deadAtTimeout, w.tooSlow, Timeout);
      Replace(w.deadAtReplace, w.outOfMemory);
    }

    /** One turn of the loop. Unless a worker is out of step: every verdict that is
        complete is recorded, a condemned worker is gone or was idle, everybody is alive,
        and if tests are left everybody holds one or something has been recorded. */
    method Round(w: World) returns (desync: bool)
      requires Valid() && Covers(w, |workers|)
      modifies this, Crew()
      ensures Valid() && seen == old(seen) + [w] && old(results) <= results && old(causes) <= causes
      ensures |workers| == |old(workers)| && fresh(Crew() - old(Crew()))
      ensures desync ==> Desynced()
      ensures !desync ==> forall j :: 0 <= j < |workers| ==> workers[j].Alive()
      ensures !desync ==> forall j | 0 <= j < |workers| ::
                old(workers[j].Speaks(w.deadAtAssign[j] || w.deadAtRead[j], w.chunks[j])) ==>
                  var said := Scan(old(workers[j].buf) + w.chunks[j]).0; (said.test, said.verdict) in results
      ensures !desync ==> forall j :: 0 <= j < |workers| && (w.overLimit[j] || w.tooSlow[j]) ==>
                            fresh(workers[j]) || workers[j].pending.None?
      ensures !desync && results == old(results) && queue != [] ==>
                forall j :: 0 <= j < |workers| ==> workers[j].pending.Some?
    {
      hide Held, Busy, Paths, Bag, Scan, AllJustified, TraceOk, Buffered, Rising, Justified, Says, Known;
      Look(w);
      desync := Hear(w);
      if !desync { Sweep(w); }
    }

    /** run_phase: whatever the workers do, no test is ever lost or judged twice, every
        verdict has a cause in what the rounds have shown, and if the loop ends normally
        every test has exactly one verdict. */
    method Run(rounds: seq<World>) returns (ended: bool, desync: bool)
      requires Valid() && seen == [] && forall k :: 0 <= k < |rounds| ==> Covers(rounds[k], |workers|)
      modifies this, Crew()
      ensures Valid() && old(results) <= results && seen <= rounds
      ensures AllJustified(seen, results, causes)
      ensures ended ==> multiset(Paths(results)) == multiset(tests)
      ensures !ended && !desync ==> seen == rounds && !Finished()
      ensures desync ==> !ended && Desynced()
    {
      hide Held, Busy, Paths, AllJustified, TraceOk, Buffered, Says, Scan;
      var k := 0;
      ended, desync := false, false;
      while !Finished()
        invariant 0 <= k <= |rounds| && Valid() && old(results) <= results && seen == rounds[..k]
        invariant |workers| == |old(workers)| && fresh(Crew() - old(Crew()))
        invariant !ended && !desync
        decreases |rounds| - k
      {
        if k == |rounds| { return; }
        assert rounds[..k + 1] == rounds[..k] + [rounds[k]];
        desync := Round(rounds[k]);
        k := k + 1;
        if desync { return; }
      }
      NobodyBusy(Pendings());
      ended := true;
    }
  }
}
