/** Why the strace line parser keeps process ids: joining an unfinished line with its completion cannot change them. */
module TracePids {
  import opened Text
  import opened Trimming
  import opened Numbers
  import opened TraceParser
  import opened TraceReader

  // ---------- What stands in front of a call ----------

  /** Characters that never occur in a process-id or time prefix. */
  predicate IsMark(c: char) { c == '(' || c == '<' }

  predicate NoMarks(s: string) {
    forall k | 0 <= k < |s| :: !IsMark(s[k])
  }

  lemma NoMarksConcat(a: string, b: string)
    requires NoMarks(a) && NoMarks(b)
    ensures NoMarks(a + b)
  {
  }

  lemma RunNoMarks(s: string, i: nat, p: char -> bool)
    requires i <= |s| && forall c | IsMark(c) :: !p(c)
    ensures NoMarks(s[i..Run(s, i, p)])
  {
    RunChars(s, i, p);
  }

  lemma RangeNoMarks(s: string, i: nat, p: char -> bool)
    requires i <= |s| && forall c | IsMark(c) :: !p(c)
    ensures forall k | i <= k < Run(s, i, p) :: !IsMark(s[k])
  {
    RunChars(s, i, p);
  }

  lemma PidTagNoMarks(s: string)
    requires PidTag(s).Some?
    ensures NoMarks(s[..PidTag(s).value.0])
  {
    var i := Run(s, 4, IsReSpace);
    var j := Run(s, i, IsDigit);
    var end := Run(s, j + 1, IsReSpace);
    RangeNoMarks(s, 4, IsReSpace);
    RangeNoMarks(s, i, IsDigit);
    RangeNoMarks(s, j + 1, IsReSpace);
    PidWord(s);
    assert forall k | 0 <= k < end :: !IsMark(s[k]);
  }

  lemma PidWord(s: string)
    requires "[pid" <= s
    ensures forall k | 0 <= k < 4 :: !IsMark(s[k])
  {
    assert s[..4] == "[pid";
    assert forall k | 0 <= k < 4 :: s[k] == "[pid"[k];
  }

  lemma AtoiNoMarks(f: string)
    requires Atoi(f).Some?
    ensures NoMarks(f)
  {
    if f != "" && (f[0] == '-' || f[0] == '+') {
      assert forall k | 1 <= k < |f| :: f[k] == f[1..][k - 1];
    }
  }

  /** The first field of a text that starts with no white space. */
  lemma FirstField(s: string)
    requires s != "" && !IsSpace(s[0])
    ensures Fields(s) == [s[..Run(s, 0, NotSpace)]] + Fields(s[Run(s, 0, NotSpace)..])
  {
  }

  /** What is split off in front of the rest of the line. */
  lemma SplitPIDFrom(s: string) returns (from: nat)
    requires Trimmed(s)
    ensures from <= |s| && SplitPID(s).1 == TrimSpace(s[from..]) && NoMarks(s[..from])
  {
    TrimNoop(s);
    from := 0;
    if PidTag(s).Some? {
      from := PidTag(s).value.0;
      PidTagNoMarks(s);
    } else if |Fields(s)| >= 2 && Atoi(Fields(s)[0]).Some? && s != "" {
      FirstField(s);
      from := |Fields(s)[0]|;
      AtoiNoMarks(s[..from]);
    } else {
      assert s[0..] == s;
    }
  }

  /** Splitting off the process id leaves the end of the line; neither mark is in the part split off. */
  lemma SplitPIDShape(s: string) returns (k: nat)
    requires Trimmed(s)
    ensures k <= |s| && SplitPID(s).1 == s[k..] && NoMarks(s[..k]) && Trimmed(s[k..])
  {
    var from := SplitPIDFrom(s);
    k := TrimSuffixOf(s, from);
    TrimTrimmed(s[from..]);
    SpacesNoMarks(s[from..k]);
    NoMarksConcat(s[..from], s[from..k]);
    assert s[..k] == s[..from] + s[from..k];
  }

  lemma SpacesNoMarks(s: string)
    requires AllSpace(s)
    ensures NoMarks(s)
  {
  }

  lemma StripTimeShape(s: string) returns (k: nat)
    requires Trimmed(s)
    ensures k <= |s| && StripTime(s) == s[k..] && NoMarks(s[..k])
  {
    k := 0;
    if TimeEnd(s).Some? {
      var from := TimeEnd(s).value;
      RunNoMarks(s, 15, IsReSpace);
      TimeNoMarks(s);
      k := TrimSuffixOf(s, from);
      assert s[..k] == s[..15] + s[15..from] + s[from..k];
    }
  }

  lemma TimeNoMarks(s: string)
    requires TimeEnd(s).Some?
    ensures NoMarks(s[..15])
  {
    forall k | 0 <= k < 15 ensures !IsMark(s[k]) {
      if k < 2 { assert s[k] == s[0..2][k]; }
      else if 3 <= k < 5 { assert s[k] == s[3..5][k - 3]; }
      else if 6 <= k < 8 { assert s[k] == s[6..8][k - 6]; }
      else if 9 <= k { assert s[k] == s[9..15][k - 9]; }
    }
  }

  // ---------- The process id is decided by the text up to the first parenthesis ----------

  lemma PidTagLocal(s: string, t: string, n: nat)
    requires 0 < n && Agree(s, t, n) && s[n - 1] == '(' && '(' !in s[..n - 1]
    ensures PidTag(s).Some? == PidTag(t).Some?
    ensures PidTag(s).Some? ==> PidTag(s).value.1 == PidTag(t).value.1
  {
    if n >= 6 {
      assert s[..4] == t[..4];
      RunStops(s, t, 4, n, IsReSpace);
      RunStops(s, t, Run(s, 4, IsReSpace), n, IsDigit);
      var i, j := Run(s, 4, IsReSpace), Run(s, Run(s, 4, IsReSpace), IsDigit);
      assert s[i..j] == t[i..j];
    } else {
      NoTag(s, n);
      NoTag(t, n);
    }
  }

  lemma RunStops(s: string, t: string, i: nat, n: nat, p: char -> bool)
    requires i < n && Agree(s, t, n) && !p(s[n - 1])
    ensures Run(s, i, p) == Run(t, i, p) < n
  {
    RunChars(s, i, p);
    RunLocal(s, t, i, n, p);
  }

  lemma NoTag(s: string, n: nat)
    requires 0 < n <= |s| && n < 6 && s[n - 1] == '('
    ensures PidTag(s).None?
  {
    if "[pid" <= s {
      assert n == 5;
    }
  }

  lemma FieldsFound(s: string, k: nat)
    requires k < |s| && !IsSpace(s[k])
    ensures Fields(s) != []
  {
    RunChars(s, 0, IsSpace);
  }

  /** Two lines that agree up to their first parenthesis have the same process id. */
  lemma SamePid(s: string, t: string, n: nat)
    requires Trimmed(s) && Trimmed(t) && 0 < n && Agree(s, t, n) && s[n - 1] == '(' && '(' !in s[..n - 1]
    ensures PidOf(s) == PidOf(t)
  {
    TrimNoop(s);
    TrimNoop(t);
    PidTagLocal(s, t, n);
    if PidTag(s).None? {
      FieldPid(s, t, n);
      FieldPid(t, s, n);
    }
  }

  function FieldsPid(s: string): int {
    var fields := Fields(s);
    if |fields| >= 2 && Atoi(fields[0]).Some? then Atoi(fields[0]).value else 0
  }

  /** A first field that reaches beyond a parenthesis is no number. */
  lemma LongField(s: string, n: nat)
    requires 0 < n <= |s| && s[n - 1] == '(' && !IsSpace(s[0]) && n <= Run(s, 0, NotSpace)
    ensures FieldsPid(s) == 0
  {
    var f := s[..Run(s, 0, NotSpace)];
    FirstField(s);
    assert IsMark(f[n - 1]);
    if Atoi(f).Some? {
      AtoiNoMarks(f);
    }
  }

  lemma ShortField(s: string, n: nat)
    requires 0 < n <= |s| && s[n - 1] == '(' && !IsSpace(s[0]) && Run(s, 0, NotSpace) < n
    ensures FieldsPid(s) == (var a := Atoi(s[..Run(s, 0, NotSpace)]); if a.Some? then a.value else 0)
  {
    var e := Run(s, 0, NotSpace);
    RunChars(s, 0, NotSpace);
    FieldsFound(s[e..], n - 1 - e);
    TwoFields(s, e);
  }

  lemma TwoFields(s: string, e: nat)
    requires s != "" && !IsSpace(s[0]) && e == Run(s, 0, NotSpace) && Fields(s[e..]) != []
    ensures |Fields(s)| >= 2 && Fields(s)[0] == s[..e]
  {
    FirstField(s);
  }

  lemma FieldPid(s: string, t: string, n: nat)
    requires 0 < n && Agree(s, t, n) && s[n - 1] == '(' && !IsSpace(s[0])
    ensures FieldsPid(s) == FieldsPid(t)
  {
    var e, d := Run(s, 0, NotSpace), Run(t, 0, NotSpace);
    if e < n {
      RunLocal(s, t, 0, n, NotSpace);
      assert s[..e] == t[..e];
      ShortField(s, n);
      ShortField(t, n);
    } else {
      if d < n { RunLocal(t, s, 0, n, NotSpace); }
      LongField(s, n);
      LongField(t, n);
    }
  }

  // ---------- Merging ----------

  /** The marker is searched for behind the first parenthesis of a call whose name is a word. */
  lemma {:induction false} IndexBehind(s: string, sub: string, n: nat)
    requires n <= |s| && sub != "" && sub[0] !in s[..n] && Index(s, sub).Some?
    ensures n <= Index(s, sub).value
  {
    var i := Index(s, sub).value;
    assert s[i..i + |sub|][0] == s[i];
    assert forall k | 0 <= k < n :: s[..n][k] == s[k];
  }

  /** A text made of a mark-free front and a call: the first parenthesis is the call's. */
  lemma FirstParen(raw: string, from: nat, open: nat)
    requires from + open < |raw| && raw[from + open] == '('
    requires NoMarks(raw[..from]) && IsWord(raw[from..][..open])
    ensures '(' !in raw[..from + open] && '<' !in raw[..from + open + 1]
  {
    var front, name := raw[..from], raw[from..][..open];
    WordHasNoMarks(name);
    NoMarksConcat(front, name);
    assert raw[..from + open] == front + name;
    assert raw[..from + open + 1] == front + name + ['('];
    assert forall k | 0 <= k < |front + name| :: (front + name)[k] != '(' && (front + name)[k] != '<';
  }

  /** Where the call of an unfinished line starts, behind process id and time. */
  lemma CallStart(raw: string) returns (from: nat)
    requires Trimmed(raw)
    ensures from <= |raw| && StripTime(SplitPID(raw).1) == raw[from..] && NoMarks(raw[..from])
  {
    var a := SplitPIDShape(raw);
    var b := StripTimeShape(raw[a..]);
    from := a + b;
    assert raw[a..][b..] == raw[from..] && raw[..from] == raw[..a] + raw[a..][..b];
    NoMarksConcat(raw[..a], raw[a..][..b]);
  }

  /** The line without the marker at `m`. */
  function Cut(raw: string, m: nat): string
    requires m + |UNFINISHED| <= |raw|
  {
    TrimSpace(raw[..m] + raw[m + |UNFINISHED|..])
  }

  lemma WordHasNoMarks(name: string)
    requires IsWord(name)
    ensures NoMarks(name)
  {
  }

  lemma CutText(raw: string, m: nat, len: nat, n: nat)
    requires n <= m && m + len <= |raw|
    ensures n <= |raw[..m] + raw[m + len..]| && (raw[..m] + raw[m + len..])[..n] == raw[..n]
  {
  }

  lemma AppendText(a: string, b: string, n: nat)
    requires n <= |a|
    ensures (a + b)[..n] == a[..n]
  {
  }

  /** Trimming a text that begins like a trimmed line keeps that beginning. */
  lemma FrontKept(u: string, raw: string, n: nat)
    requires Trimmed(raw) && 0 < n <= |raw| && n <= |u| && u[..n] == raw[..n] && !IsSpace(raw[n - 1])
    ensures n <= |TrimSpace(u)| && TrimSpace(u)[..n] == raw[..n] && Trimmed(TrimSpace(u))
  {
    assert u[0] == u[..n][0] == raw[..n][0] && u[n - 1] == u[..n][n - 1] == raw[..n][n - 1];
    TrimKeepsFront(u, n);
    TrimTrimmed(u);
  }

  lemma SameFront(raw: string, merged: string, n: nat)
    requires n <= |raw| && n <= |merged| && raw[..n] == merged[..n]
    ensures Agree(raw, merged, n)
  {
    assert forall k | 0 <= k < n :: raw[k] == raw[..n][k] && merged[k] == merged[..n][k];
  }

  /** Joining an unfinished call with any completion gives a line of the same process. */
  lemma MergedPid(line: string, tail: string)
    requires Unfinished(line).Some? && IsWord(Unfinished(line).value.0.syscall)
    ensures PidOf(Merged(Unfinished(line).value.1, tail)) == Unfinished(line).value.0.pid
  {
    var (key, partial) := Unfinished(line).value;
    UnfinishedParts(line, key, partial);
    TrimTrimmed(line);
    MergedCall(TrimSpace(line), key, partial, tail);
  }

  /** What a line with an unfinished call is read as. */
  predicate Pending(raw: string, key: Key, partial: string) {
    && Index(raw, UNFINISHED).Some? && CallName(raw) == Some(key.syscall)
    && key.pid == PidOf(raw) && partial == Cut(raw, Index(raw, UNFINISHED).value)
  }

  lemma UnfinishedParts(line: string, key: Key, partial: string)
    requires Unfinished(line) == Some((key, partial))
    ensures Pending(TrimSpace(line), key, partial)
  {
  }

  lemma MergedCall(raw: string, key: Key, partial: string, tail: string)
    requires Trimmed(raw) && Pending(raw, key, partial) && IsWord(key.syscall)
    ensures PidOf(Merged(partial, tail)) == key.pid
  {
    var n := RawFront(raw);
    MergedFront(raw, n, Index(raw, UNFINISHED).value, tail);
  }

  /** The name of the call of a trimmed line, if the line has a parenthesis behind process id and time. */
  function CallName(raw: string): Option<string> {
    var call := StripTime(SplitPID(raw).1);
    match Index(call, "(") case None => None case Some(open) => Some(call[..open])
  }

  /** The front of an unfinished line up to its first parenthesis, which the marker follows. */
  lemma RawFront(raw: string) returns (n: nat)
    requires Trimmed(raw) && CallName(raw).Some? && IsWord(CallName(raw).value) && Index(raw, UNFINISHED).Some?
    ensures 0 < n <= Index(raw, UNFINISHED).value && raw[n - 1] == '(' && '(' !in raw[..n - 1]
  {
    var from := CallStart(raw);
    n := CallParen(raw, from);
    IndexBehind(raw, UNFINISHED, n);
  }

  lemma CallParen(raw: string, from: nat) returns (n: nat)
    requires from <= |raw| && NoMarks(raw[..from])
    requires Index(raw[from..], "(").Some? && IsWord(raw[from..][..Index(raw[from..], "(").value])
    ensures 0 < n <= |raw| && raw[n - 1] == '(' && '(' !in raw[..n - 1] && '<' !in raw[..n]
  {
    var open := Index(raw[from..], "(").value;
    assert raw[from..][open..open + 1][0] == '(';
    FirstParen(raw, from, open);
    n := from + open + 1;
  }

  lemma MergedFront(raw: string, n: nat, m: nat, tail: string)
    requires Trimmed(raw) && 0 < n <= m && m + |UNFINISHED| <= |raw| && raw[n - 1] == '(' && '(' !in raw[..n - 1]
    ensures PidOf(Merged(Cut(raw, m), tail)) == PidOf(raw)
  {
    CutText(raw, m, |UNFINISHED|, n);
    FrontKept(raw[..m] + raw[m + |UNFINISHED|..], raw, n);
    var partial := Cut(raw, m);
    ConcatAssoc(partial, " ", TrimSpace(tail));
    AppendText(partial, " " + TrimSpace(tail), n);
    FrontKept(partial + " " + TrimSpace(tail), raw, n);
    SameFront(raw, Merged(partial, tail), n);
    SamePid(raw, Merged(partial, tail), n);
  }

  lemma PidOfTrim(line: string)
    ensures PidOf(TrimSpace(line)) == PidOf(line)
  {
    TrimTrimmed(line);
  }

  lemma ResumedWord(line: string)
    ensures Resumed(line).Some? ==> IsWord(Resumed(line).value.0.syscall) && Resumed(line).value.0.pid == PidOf(line)
  {
    PidOfTrim(line);
    var s := StripTime(SplitPID(TrimSpace(line)).1);
    if Resumed(line).Some? { RunChars(s, Run(s, 4, IsReSpace), IsWordChar); }
  }

  lemma UnfinishedPid(line: string)
    ensures Unfinished(line).Some? ==> Unfinished(line).value.0.pid == PidOf(line)
  {
    PidOfTrim(line);
  }

  /** The strace parser keeps process ids, for all lines. */
  lemma StracePidsKept()
    ensures PidsKept(STRACE)
  {
    forall line | STRACE.unfinished(line).Some? ensures STRACE.unfinished(line).value.0.pid == STRACE.pid(line) {
      UnfinishedPid(line);
    }
    forall line | STRACE.resumed(line).Some? ensures STRACE.resumed(line).value.0.pid == STRACE.pid(line) {
      ResumedWord(line);
    }
    forall line | STRACE.event(line).Some? ensures STRACE.event(line).value.pid == STRACE.pid(line) {
      PidOfTrim(line);
    }
    forall u, r | STRACE.unfinished(u).Some? && STRACE.resumed(r).Some? &&
                  STRACE.unfinished(u).value.0 == STRACE.resumed(r).value.0
      ensures var e := STRACE.event(STRACE.merge(STRACE.unfinished(u).value.1, STRACE.resumed(r).value.1));
              e.Some? ==> e.value.pid == STRACE.pid(r)
    {
      ResumedWord(r);
      MergedPid(u, STRACE.resumed(r).value.1);
      PidOfTrim(Merged(Unfinished(u).value.1, STRACE.resumed(r).value.1));
    }
  }

  /**
   Reading a trace of interleaved processes and keeping one process's events gives what reading that process's
   lines alone gives, and the skipped calls of the file are those of its processes together.
   */
  lemma StraceReadsApart(lines: seq<string>, pid: int, pids: seq<int>, max: nat)
    requires Distinct(pids)
    ensures |Read(STRACE, EMPTY, lines).events| < max ==>
              EventsOf(ReadFile(STRACE, EMPTY, lines, max).events, pid) ==
              ReadFile(STRACE, EMPTY, Only(STRACE, lines, pid), max).events
    ensures |Read(STRACE, EMPTY, lines).events| < max && Covers(STRACE, pids, lines) ==>
              ReadFile(STRACE, EMPTY, lines, max).skipped == SkipSum(STRACE, lines, pids)
  {
    StracePidsKept();
    if |Read(STRACE, EMPTY, lines).events| < max {
      ReadsApart(STRACE, lines, pid, max);
      BelowCap(STRACE, lines, max);
      if Covers(STRACE, pids, lines) { SkipsAddUp(STRACE, lines, pids); }
    }
  }
}
