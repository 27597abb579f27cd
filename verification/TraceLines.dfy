/** What the parser reads off the lines the tracer prints: whole calls, failed or not, and calls in two halves. */
module TraceLines {
  import opened Text
  import opened Trimming
  import opened Numbers
  import opened TraceParser
  import opened TraceArgs

  // ---------- Times and durations ----------

  predicate Digits(s: string) {
    s != "" && forall k | 0 <= k < |s| :: '0' <= s[k] <= '9'
  }

  /** `hh:mm:ss.uuuuuu` */
  predicate IsClock(t: string) {
    && |t| == 15 && Digits(t[0..2]) && t[2] == ':' && Digits(t[3..5]) && t[5] == ':' && Digits(t[6..8]) && t[8] == '.'
    && Digits(t[9..15])
  }

  lemma ClockRead(t: string)
    requires IsClock(t)
    ensures TimeEnd(t).Some?
  {
    assert forall k | 0 <= k < 2 :: t[k] == t[0..2][k] && t[3 + k] == t[3..5][k] && t[6 + k] == t[6..8][k];
    assert forall k | 0 <= k < 6 :: t[9 + k] == t[9..15][k];
  }

  predicate IsDuration(d: Option<(string, string)>) {
    d.Some? ==> Digits(d.value.0) && Digits(d.value.1) && |d.value.1| <= 9
  }

  /** The duration at the end of a line, if the tracer prints one. */
  function Timed(d: Option<(string, string)>): string {
    match d case None => "" case Some(t) => " <" + t.0 + "." + t.1 + ">"
  }

  lemma {:induction false} RunBackIs(s: string, n: nat, i: nat, p: char -> bool)
    requires i <= n <= |s|
    requires forall k | i <= k < n :: p(s[k])
    requires i == 0 || !p(s[i - 1])
    ensures RunBack(s, n, p) == i
    decreases n - i
  {
    if i < n {
      RunBackIs(s, n - 1, i, p);
    }
  }

  predicate EndsPlain(part: string) {
    part != "" && !IsSpace(part[0]) && !IsSpace(part[|part| - 1])
  }

  /** Where the parts of a printed duration stand behind `part`. */
  lemma TimedAt(part: string, s: string, f: string)
    requires Digits(s) && Digits(f)
    ensures var t, m := part + Timed(Some((s, f))), |part| + 2 + |s|;
            && |t| == m + |f| + 2 && t[..|part|] == part && t[|part|] == ' ' && t[|part| + 1] == '<'
            && t[|part| + 2..m] == s && t[m] == '.' && t[m + 1..m + 1 + |f|] == f && t[m + 1 + |f|] == '>'
            && (forall k | |part| + 2 <= k < m :: IsDigit(t[k])) && (forall k | m + 1 <= k < m + 1 + |f| :: IsDigit(t[k]))
  {
    var t, m := part + Timed(Some((s, f))), |part| + 2 + |s|;
    assert t == part + " <" + s + "." + f + ">";
    assert forall k | |part| + 2 <= k < m :: t[k] == s[k - |part| - 2];
    assert forall k | m + 1 <= k < m + 1 + |f| :: t[k] == f[k - m - 1];
  }

  lemma DurationBy(t: string, f: nat, n: nat, w: nat)
    requires 0 < n < f - 1 && f < |t| - 1 <= f + 9 && t[|t| - 1] == '>' && t[f - 1] == '.' && t[n - 1] == '<' && w <= n - 1
    requires RunBack(t, |t|, IsReSpace) == |t| && RunBack(t, |t| - 1, IsDigit) == f
    requires RunBack(t, f - 1, IsDigit) == n && RunBack(t, n - 1, IsReSpace) == w
    ensures SplitDuration(t) == (TrimSpace(t[..w]), Some((t[n..f - 1], t[f..|t| - 1])))
  {
  }

  /** A printed duration is split off, and what stands in front of it is left. */
  lemma DurationRead(part: string, s: string, f: string)
    requires EndsPlain(part) && Digits(s) && Digits(f) && |f| <= 9
    ensures SplitDuration(part + Timed(Some((s, f)))) == (part, Some((s, f)))
  {
    var t, m := part + Timed(Some((s, f))), |part| + 2 + |s|;
    TimedAt(part, s, f);
    RunBackIs(t, |t|, |t|, IsReSpace);
    RunBackIs(t, |t| - 1, m + 1, IsDigit);
    RunBackIs(t, m, |part| + 2, IsDigit);
    RunBackIs(t, |part| + 1, |part|, IsReSpace);
    TrimNoop(part);
    DurationBy(t, m + 1, |part| + 2, |part|);
  }

  /** A text that does not end like a duration is left whole. */
  lemma NoDuration(part: string)
    requires EndsPlain(part)
    requires part[|part| - 1] != '>' || '<' !in part || (|part| > 1 && !IsDigit(part[|part| - 2]))
    ensures SplitDuration(part) == (part, None)
  {
    RunBackIs(part, |part|, |part|, IsReSpace);
  }

  lemma PartRead(part: string, d: Option<(string, string)>)
    requires EndsPlain(part) && IsDuration(d)
    requires d.None? ==> part[|part| - 1] != '>' || '<' !in part || (|part| > 1 && !IsDigit(part[|part| - 2]))
    ensures SplitDuration(part + Timed(d)) == (part, d)
  {
    match d
    case None =>
      assert part + Timed(d) == part;
      NoDuration(part);
    case Some(t) => DurationRead(part, t.0, t.1);
  }

  /** Behind ` = ` the parser takes up the result. */
  lemma TailRead(x: string)
    requires EndsPlain(x)
    ensures TrimSpace(" = " + x) == "= " + x && TrimSpace(("= " + x)[1..]) == x
  {
    var t := " = " + x;
    assert t[0] == ' ' && t[1..] == "= " + x && ("= " + x)[1..] == " " + x && (" " + x)[1..] == x;
    TrimOneSpace("= " + x);
    TrimOneSpace(x);
  }

  lemma TrimOneSpace(x: string)
    requires EndsPlain(x)
    ensures TrimSpace(" " + x) == x
  {
    assert (" " + x)[1..] == x;
    TrimNoop(x);
  }

  lemma TimedEnds(part: string, d: Option<(string, string)>)
    requires EndsPlain(part)
    ensures EndsPlain(part + Timed(d))
  {
  }

  lemma EndedRead(name: string, args: seq<string>, part: string, d: Option<(string, string)>)
    requires EndsPlain(part) && IsDuration(d)
    requires d.None? ==> part[|part| - 1] != '>' || '<' !in part || (|part| > 1 && !IsDigit(part[|part| - 2]))
    ensures var (result, error) := ResultOf(part);
            Ended(name, args, " = " + (part + Timed(d))) == Call(name, args, result, error, d)
  {
    TimedEnds(part, d);
    TailRead(part + Timed(d));
    PartRead(part, d);
  }

  // ---------- Results ----------

  /** A failure: `-1`, the name of the error, and a note in parentheses. */
  function Failure(error: string, note: string): string {
    "-1 " + error + " (" + note + ")"
  }

  lemma FailureRead(error: string, note: string)
    requires IsToken(error)
    ensures ResultOf(Failure(error, note)) == ("-1", error)
  {
    var part, rest := Failure(error, note), " (" + note + ")";
    assert part == "-1" + (" " + (error + rest));
    assert IsToken("-1");
    TokenField("-1", " " + (error + rest));
    SpaceField(error + rest);
    TokenField(error, rest);
    assert "-1" <= part;
  }

  /** A result without `-1` in front, and what the tracer adds to it behind a blank or an angle bracket. */
  predicate IsResult(r: string, note: string) {
    && IsToken(r) && '<' !in r && !("-1" <= r) && (note == "" || note[0] == ' ' || note[0] == '<')
  }

  lemma ResultRead(r: string, note: string)
    requires IsResult(r, note)
    ensures ResultOf(r + note) == (r, "")
  {
    var part := r + note;
    assert forall k | 0 <= k < |r| :: part[k] == r[k] && NotResultEnd(part[k]);
    RunIs(part, 0, |r|, NotResultEnd);
    assert part[..|r|] == r;
  }

  // ---------- Whole lines ----------

  /** A line as the tracer prints it. */
  function LineOf(pid: nat, time: string, name: string, args: seq<string>, part: string, d: Option<(string, string)>): string {
    Tag(pid) + (time + " " + (name + Printed(args) + (" = " + (part + Timed(d)))))
  }

  /** The line holds neither of the marks of a call in two halves. */
  predicate Whole(line: string) {
    !Contains(line, UNFINISHED) && !Contains(line, RESUMED)
  }

  lemma LineRead(pid: nat, time: string, name: string, args: seq<string>, part: string, d: Option<(string, string)>)
    requires pid <= MAX_INT && IsClock(time) && IsName(name) && AllArguments(args)
    requires EndsPlain(part) && IsDuration(d) && Whole(LineOf(pid, time, name, args, part, d))
    requires d.None? ==> part[|part| - 1] != '>' || '<' !in part || (|part| > 1 && !IsDigit(part[|part| - 2]))
    ensures var (result, error) := ResultOf(part);
            ParseLine(LineOf(pid, time, name, args, part, d)) == Some(Event(pid, Some(time), Call(name, args, result, error, d)))
  {
    var tail := " = " + (part + Timed(d));
    ClockRead(time);
    TimedEnds(part, d);
    TailRead(part + Timed(d));
    EndedRead(name, args, part, d);
    TailEnds(part + Timed(d));
    LineRoundTrip(pid, time, name, args, tail);
  }

  lemma TailEnds(x: string)
    requires EndsPlain(x)
    ensures var tail := " = " + x; tail != "" && !IsSpace(tail[|tail| - 1])
  {
  }

  /** A failed call is read with the result `-1`, the name of the error and the duration. */
  lemma FailedLine(
    pid: nat, time: string, name: string, args: seq<string>, error: string, note: string, d: Option<(string, string)>)
    requires pid <= MAX_INT && IsClock(time) && IsName(name) && AllArguments(args) && IsToken(error) && IsDuration(d)
    requires Whole(LineOf(pid, time, name, args, Failure(error, note), d))
    ensures ParseLine(LineOf(pid, time, name, args, Failure(error, note), d)) ==
            Some(Event(pid, Some(time), Call(name, args, "-1", error, d)))
  {
    FailureRead(error, note);
    FailureEnds(error, note);
    LineRead(pid, time, name, args, Failure(error, note), d);
  }

  lemma FailureEnds(error: string, note: string)
    ensures var part := Failure(error, note); EndsPlain(part) && part[|part| - 1] == ')'
  {
  }

  /** Any other call is read with its result, no error, and the duration. */
  lemma ResultLine(
    pid: nat, time: string, name: string, args: seq<string>, r: string, note: string, d: Option<(string, string)>)
    requires pid <= MAX_INT && IsClock(time) && IsName(name) && AllArguments(args) && IsDuration(d)
    requires IsResult(r, note) && EndsPlain(r + note) && Whole(LineOf(pid, time, name, args, r + note, d))
    requires d.None? && note != "" ==> note[|note| - 1] != '>' || (|note| > 1 && !IsDigit(note[|note| - 2]))
    ensures ParseLine(LineOf(pid, time, name, args, r + note, d)) == Some(Event(pid, Some(time), Call(name, args, r, "", d)))
  {
    ResultRead(r, note);
    if note == "" { assert r + note == r; }
    LineRead(pid, time, name, args, r + note, d);
  }
}
