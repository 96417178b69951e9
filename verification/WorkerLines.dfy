/** The lines that a worker may print, and the verdicts they stand for. */
module WorkerLines {
  import opened Syntax
  import opened Scheduler

  ghost predicate AllBlank(s: string) { forall k :: 0 <= k < |s| ==> Blank(s[k]) }

  /** Text that stripping leaves alone. */
  predicate Bare(s: string) { s != "" && !Blank(s[0]) && !Blank(s[|s| - 1]) }

  /** Stripping takes off exactly the blanks on both sides. */
  lemma {:induction false} StripCore(a: string, core: string, b: string)
    requires AllBlank(a) && AllBlank(b) && Bare(core)
    ensures Strip(a + core + b) == core
    decreases |a| + |b|
  {
    hide Blank;
    var s := a + core + b;
    if a != "" {
      assert s[0] == a[0] && s[1..] == a[1..] + core + b;
      StripCore(a[1..], core, b);
    } else if b != "" {
      var n := |b| - 1;
      assert s[0] == core[0] && s[|s| - 1] == b[n] && s[..|s| - 1] == a + core + b[..n];
      StripCore(a, core, b[..n]);
    } else {
      assert s == core;
    }
  }

  /** One step of stripping. */
  lemma StripStep(s: string)
    ensures s != "" && Blank(s[0]) ==> Strip(s) == Strip(s[1..])
    ensures s != "" && !Blank(s[0]) && Blank(s[|s| - 1]) ==> Strip(s) == Strip(s[..|s| - 1])
    ensures s == "" || Bare(s) ==> Strip(s) == s
  {
    hide Blank;
  }

  lemma {:induction false} StripSplits(s: string) returns (a: string, b: string)
    ensures s == a + Strip(s) + b && AllBlank(a) && AllBlank(b) && (Strip(s) == "" || Bare(Strip(s)))
    decreases |s|
  {
    hide Blank, Strip;
    StripStep(s);
    if s != "" && Blank(s[0]) {
      var a1;
      a1, b := StripSplits(s[1..]);
      a := [s[0]] + a1;
      assert s == [s[0]] + s[1..];
      assert [s[0]] + (a1 + Strip(s) + b) == a + Strip(s) + b;
    } else if s != "" && Blank(s[|s| - 1]) {
      var b1;
      a, b1 := StripSplits(s[..|s| - 1]);
      b := b1 + [s[|s| - 1]];
      assert s == s[..|s| - 1] + [s[|s| - 1]];
      assert (a + Strip(s) + b1) + [s[|s| - 1]] == a + Strip(s) + b;
    } else {
      a, b := "", "";
    }
  }

  /** A test name that survives stripping. */
  predicate Name(t: Test) { t != "" && !Blank(t[|t| - 1]) }

  lemma HeadedLine(a: string, head: string, t: Test, b: string)
    requires AllBlank(a) && AllBlank(b) && Name(t) && head != "" && !Blank(head[0])
    ensures Strip(a + head + t + b) == head + t
  {
    hide Blank;
    var core := head + t;
    assert core[0] == head[0] && core[|core| - 1] == t[|t| - 1];
    assert a + head + t + b == a + core + b;
    StripCore(a, core, b);
  }

  /** The three kinds of line, between any blanks. */
  lemma PassLine(a: string, t: Test, b: string)
    requires AllBlank(a) && AllBlank(b) && Name(t)
    ensures LineVerdict(a + "PASS " + t + b) == Answer(t, Pass)
  {
    HeadedLine(a, "PASS ", t, b);
    assert ("PASS " + t)[..5] == "PASS " && ("PASS " + t)[5..] == t;
  }

  lemma CompileErrorLine(a: string, t: Test, b: string)
    requires AllBlank(a) && AllBlank(b) && Name(t)
    ensures LineVerdict(a + "COMPILE_ERROR " + t + b) == Answer(t, CompileError)
  {
    HeadedLine(a, "COMPILE_ERROR ", t, b);
    var line := "COMPILE_ERROR " + t;
    assert line[0] == 'C' && line[..14] == "COMPILE_ERROR " && line[14..] == t;
    assert line[..5][0] == 'C';
  }

  lemma FailLine(a: string, t: Test, b: string)
    requires AllBlank(a) && AllBlank(b) && Name(t)
    ensures LineVerdict(a + "FAIL " + t + b) == Answer(t, Fail)
  {
    HeadedLine(a, "FAIL ", t, b);
    var line := "FAIL " + t;
    assert line[0] == 'F' && line[..5] == "FAIL " && line[5..] == t;
    assert line[..5][0] == 'F';
    if |line| >= 14 { assert line[..14][0] == 'F'; }
  }

  function Head(v: Verdict): string {
    match v
    case Pass => "PASS "
    case CompileError => "COMPILE_ERROR "
    case Fail => "FAIL "
    case _ => ""
  }

  /** And nothing else is a verdict. */
  lemma OnlyTheseLines(raw: string) returns (a: string, b: string)
    ensures var r := LineVerdict(raw);
            r.Answer? ==> r.verdict in {Pass, CompileError, Fail} && Name(r.test)
                          && raw == a + Head(r.verdict) + r.test + b && AllBlank(a) && AllBlank(b)
  {
    hide Strip, Blank, AllBlank, Bare;
    a, b := StripSplits(raw);
    var line := Strip(raw);
    if StartsWith(line, "PASS ") {
      Headed(line, "PASS ");
    } else if StartsWith(line, "COMPILE_ERROR ") {
      Headed(line, "COMPILE_ERROR ");
    } else if StartsWith(line, "FAIL ") {
      Headed(line, "FAIL ");
    }
  }

  lemma Headed(line: string, head: string)
    requires StartsWith(line, head) && head in {"PASS ", "COMPILE_ERROR ", "FAIL "} && Bare(line)
    ensures line == head + line[|head|..] && Name(line[|head|..])
  {
    assert line[..|head|][|head| - 1] == ' ';
  }

  function Lines(ls: seq<string>): string {
    if ls == [] then "" else ls[0] + "\n" + Lines(ls[1..])
  }

  ghost predicate OneLine(s: string) { '\n' !in s }

  /** Of several lines and the beginning of another one, what is read is the first
      line that is a verdict; the lines behind it wait for the next look. */
  lemma {:induction false} ScanReads(ls: seq<string>, tail: string, k: nat)
    requires k <= |ls| && OneLine(tail) && (forall i :: 0 <= i < |ls| ==> OneLine(ls[i]))
    requires (forall i :: 0 <= i < k ==> LineVerdict(ls[i]) == Nothing) && (k < |ls| ==> LineVerdict(ls[k]).Answer?)
    ensures Scan(Lines(ls) + tail) ==
            if k == |ls| then (Nothing, tail) else (LineVerdict(ls[k]), Lines(ls[k + 1..]) + tail)
    decreases |ls|
  {
    hide *;
    if ls == [] {
      LinesNone(tail);
      ScanTail(tail);
    } else {
      LinesMore(ls, tail);
      ScanLine(ls[0], Lines(ls[1..]) + tail);
      if k > 0 {
        ScanReads(ls[1..], tail, k - 1);
        assert k < |ls| ==> ls[1..][k..] == ls[k + 1..];
      }
    }
  }

  lemma LinesNone(tail: string)
    ensures Lines([]) + tail == tail
  {
  }

  lemma LinesMore(ls: seq<string>, tail: string)
    requires ls != []
    ensures Lines(ls) + tail == ls[0] + "\n" + (Lines(ls[1..]) + tail)
  {
  }

  lemma ScanTail(tail: string)
    requires OneLine(tail)
    ensures Scan(tail) == (Nothing, tail)
  {
  }

  lemma ScanLine(line: string, rest: string)
    requires OneLine(line)
    ensures Scan(line + "\n" + rest) == if LineVerdict(line).Answer? then (LineVerdict(line), rest) else Scan(rest)
  {
    hide LineVerdict, IndexOf;
    var text := line + "\n" + rest;
    EndOfLine(line, rest);
    assert text[..|line|] == line && text[|line| + 1..] == rest;
  }

  lemma EndOfLine(line: string, rest: string)
    requires OneLine(line)
    ensures IndexOf(line + "\n" + rest, '\n') == |line|
  {
    var text := line + "\n" + rest;
    assert text[|line|] == '\n' && forall j :: 0 <= j < |line| ==> text[j] == line[j];
  }

  /** What str.strip() removes: these 29 characters. */
  lemma BlankCharacters(c: char)
    ensures Blank(c) <==>
              || c in "\t\n\r \U{000B}\U{000C}\U{001C}\U{001D}\U{001E}\U{001F}\U{0085}\U{00A0}\U{1680}"
              || c in "\U{2000}\U{2001}\U{2002}\U{2003}\U{2004}\U{2005}\U{2006}\U{2007}\U{2008}\U{2009}\U{200A}"
              || c in "\U{2028}\U{2029}\U{202F}\U{205F}\U{3000}"
  {
  }
}
