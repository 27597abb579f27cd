/** How the tracer names the process and the time in front of a call, and what the parser reads off each form. */
module TracePrefixes {
  import opened Text
  import opened Trimming
  import opened Numbers
  import opened TraceParser
  import opened TraceArgs
  import opened TraceLines

  /** The process is not named, named in brackets, or named by its number alone. */
  datatype Owner = Unnamed | Tagged(pid: nat) | Numbered(pid: nat)

  function OwnerText(o: Owner): string {
    match o
    case Unnamed => ""
    case Tagged(pid) => "[pid " + Decimal(pid) + "] "
    case Numbered(pid) => Decimal(pid) + " "
  }

  function OwnerPid(o: Owner): int {
    if o.Unnamed? then 0 else o.pid
  }

  function ClockText(t: Option<string>): string {
    match t case None => "" case Some(time) => time + " "
  }

  /** The call starts with a letter or an underscore, and has no white space around it. */
  predicate StartsCall(call: string) {
    call != "" && ('a' <= call[0] <= 'z' || 'A' <= call[0] <= 'Z' || call[0] == '_') && Trimmed(call)
  }

  // ---------- Process ids ----------

  /** The first word is no number: it has a character that is neither digit nor sign. */
  lemma NoNumber(s: string, k: nat)
    requires 0 < k < |s| && !IsDigit(s[k])
    ensures Atoi(s).None?
  {
    if s[0] == '-' || s[0] == '+' {
      assert s[1..][k - 1] == s[k];
    }
  }

  lemma NoNumberFirst(s: string)
    requires s != "" && !IsDigit(s[0]) && s[0] != '-' && s[0] != '+'
    ensures Atoi(s).None?
  {
  }

  lemma FieldOf(s: string)
    requires s != "" && !IsSpace(s[0])
    ensures Fields(s) != [] && Fields(s)[0] == s[..Run(s, 0, NotSpace)] && Run(s, 0, NotSpace) > 0
  {
    RunIs(s, 0, 0, IsSpace);
    assert s[0..Run(s, 0, NotSpace)] == s[..Run(s, 0, NotSpace)];
  }

  lemma Unowned(rest: string)
    requires rest != "" && Trimmed(rest) && rest[0] != '[' && Atoi(Fields(rest)[0]).None?
    ensures SplitPID(rest) == (0, rest)
  {
    TrimNoop(rest);
  }

  lemma NumberOf(pid: nat)
    requires pid <= MAX_INT
    ensures IsToken(Decimal(pid)) && Atoi(Decimal(pid)) == Some(pid) && IsDigit(Decimal(pid)[0])
  {
    DecimalDigits(pid);
    var d := Decimal(pid);
    assert IsDigit(d[0]);
    forall k | 0 <= k < |d| ensures !IsSpace(d[k]) {
      assert IsDigit(d[k]);
    }
  }

  lemma NumberShape(d: string, rest: string)
    requires d != "" && IsDigit(d[0]) && rest != "" && Trimmed(rest)
    ensures var s := d + (" " + rest); s != "" && Trimmed(s) && s[0] == d[0] && s[|d|..] == " " + rest
  {
  }

  lemma NumberFields(d: string, rest: string)
    requires IsToken(d) && rest != "" && !IsSpace(rest[0])
    ensures var fields := Fields(d + (" " + rest)); |fields| >= 2 && fields[0] == d
  {
    TokenField(d, " " + rest);
    SpaceField(rest);
    FieldOf(rest);
  }

  lemma ByNumber(s: string, d: string, pid: int, rest: string)
    requires Trimmed(s) && s != "" && s[0] != '[' && |Fields(s)| >= 2 && Fields(s)[0] == d && Atoi(d) == Some(pid)
    requires |d| <= |s| && TrimSpace(s[|d|..]) == rest
    ensures SplitPID(s) == (pid, rest)
  {
    TrimNoop(s);
  }

  lemma NumberRead(pid: nat, rest: string)
    requires pid <= MAX_INT && rest != "" && Trimmed(rest)
    ensures Trimmed(Decimal(pid) + " " + rest) && SplitPID(Decimal(pid) + " " + rest) == (pid, rest)
  {
    var d := Decimal(pid);
    NumberOf(pid);
    NumberShape(d, rest);
    NumberFields(d, rest);
    TrimFrontSpace(" ", rest);
    TrimNoop(rest);
    ConcatAssoc(d, " ", rest);
    ByNumber(d + (" " + rest), d, pid, rest);
  }

  // ---------- Behind the process id ----------

  /** The text behind the process id: it names no process itself. */
  lemma BehindPid(t: Option<string>, call: string, rest: string)
    requires StartsCall(call) && (t.Some? ==> IsClock(t.value)) && rest == ClockText(t) + call
    ensures rest != "" && Trimmed(rest) && rest[0] != '[' && rest[0] != '+' && rest[0] != '-'
    ensures Atoi(Fields(rest)[0]).None?
    ensures TimeEnd(rest).Some? <==> t.Some?
    ensures StripTime(rest) == call && (t.Some? ==> rest[..15] == t.value)
  {
    match t
    case None =>
      assert rest == call;
      FieldOf(call);
      NoNumberFirst(Fields(call)[0]);
      if |rest| >= 2 { assert rest[0..2][0] == rest[0]; }
    case Some(time) =>
      ClockRead(time);
      TimeRead(time, call);
      LineTrimmed(time, call);
      ClockWord(time, call);
  }

  lemma ClockWord(time: string, call: string)
    requires IsClock(time)
    ensures var rest := time + " " + call; rest[0] == time[0] && IsDigit(time[0]) && Atoi(Fields(rest)[0]).None?
  {
    var rest := time + " " + call;
    assert time[0] == time[0..2][0];
    ClockSolid(time);
    assert rest == time + (" " + call);
    TokenField(time, " " + call);
    NoNumber(time, 2);
  }

  lemma ClockSolid(time: string)
    requires IsClock(time)
    ensures IsToken(time)
  {
    assert time == time[0..2] + ":" + time[3..5] + ":" + time[6..8] + "." + time[9..15];
  }

  lemma OwnerRead(o: Owner, rest: string)
    requires (o.Unnamed? || o.pid <= MAX_INT) && rest != "" && Trimmed(rest) && rest[0] != '[' && Atoi(Fields(rest)[0]).None?
    ensures Trimmed(OwnerText(o) + rest) && SplitPID(OwnerText(o) + rest) == (OwnerPid(o), rest)
    ensures var s := OwnerText(o) + rest; s != "" && (s[0] == rest[0] || s[0] == '[' || IsDigit(s[0]))
  {
    match o
    case Unnamed =>
      assert OwnerText(o) + rest == rest;
      Unowned(rest);
    case Tagged(pid) =>
      PidRead(pid, rest);
    case Numbered(pid) =>
      NumberOf(pid);
      NumberRead(pid, rest);
  }

  /** A line is read with the process it names, or zero, the time it gives, if any, and its call. */
  lemma AnyPrefix(o: Owner, t: Option<string>, call: string, c: Call)
    requires (o.Unnamed? || o.pid <= MAX_INT) && (t.Some? ==> IsClock(t.value)) && StartsCall(call) && ParseCall(call) == Some(c)
    requires Whole(OwnerText(o) + (ClockText(t) + call))
    ensures ParseLine(OwnerText(o) + (ClockText(t) + call)) == Some(Event(OwnerPid(o), t, c))
  {
    var rest := ClockText(t) + call;
    BehindPid(t, call, rest);
    OwnerRead(o, rest);
    LineBy(OwnerText(o) + rest, OwnerPid(o), rest, t, call, c);
  }

  lemma LineBy(line: string, pid: int, rest: string, t: Option<string>, call: string, c: Call)
    requires line != "" && Trimmed(line) && line[0] != '+' && line[0] != '-' && Whole(line) && SplitPID(line) == (pid, rest)
    requires (TimeEnd(rest).Some? <==> t.Some?) && StripTime(rest) == call && ParseCall(call) == Some(c)
    requires t.Some? ==> |rest| >= 15 && rest[..15] == t.value
    ensures ParseLine(line) == Some(Event(pid, t, c))
  {
    TrimNoop(line);
  }

  /** Lines that tell of exits and signals are no events. */
  lemma NoEvent(mark: string, x: string)
    requires mark == "+++" || mark == "---"
    ensures ParseLine(mark + x) == None
  {
    assert (mark + x)[..3] == mark;
    TrimKeepsFront(mark + x, 3);
    var line := TrimSpace(mark + x);
    assert line[..3] == mark;
  }
}
