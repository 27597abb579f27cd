/** Parsing of strace output lines. */
module TraceParser {
  import opened Text
  import opened Numbers

  const UNFINISHED := "<unfinished ...>"
  const RESUMED := "<... "

  /** The `\s` of regular expressions: narrower than IsSpace. */
  predicate IsReSpace(c: char) { c == ' ' || c == '\t' || c == '\n' || c == '\U{0C}' || c == '\r' }

  // ---------- Prefixes of a line ----------

  /** `[pid N]` at the front: where it ends, blanks included, and its number, clamped to 64 bits. */
  function PidTag(s: string): (t: Option<(nat, int)>)
    ensures t.Some? ==> 0 < t.value.0 <= |s|
  {
    if !("[pid" <= s) then None
    else
      var i := Run(s, 4, IsReSpace);
      var j := Run(s, i, IsDigit);
      if i == 4 || j == i || j == |s| || s[j] != ']' then None
      else
        RunChars(s, i, IsDigit);
        var n := Value(s[i..j]);
        Some((Run(s, j + 1, IsReSpace), if n <= MAX_INT then n else MAX_INT))
  }

  /** `splitPIDPrefix`: the process id in front of a line, 0 if there is none, and the rest of the line. */
  function SplitPID(line: string): (int, string) {
    var s := TrimSpace(line);
    match PidTag(s)
    case Some((end, pid)) => (pid, TrimSpace(s[end..]))
    case None =>
      var fields := Fields(s);
      if |fields| >= 2 && Atoi(fields[0]).Some?
      then (Atoi(fields[0]).value, TrimSpace(s[|fields[0]|..]))
      else (0, s)
  }

  function PidOf(line: string): int {
    SplitPID(line).0
  }

  predicate DigitsAt(s: string, i: nat, n: nat) {
    i + n <= |s| && AllDigits(s[i..i + n])
  }

  /** `hh:mm:ss.uuuuuu` at the front: where it ends, blanks included. */
  function TimeEnd(s: string): (end: Option<nat>)
    ensures end.Some? ==> 15 <= end.value <= |s|
  {
    if DigitsAt(s, 0, 2) && DigitsAt(s, 3, 2) && DigitsAt(s, 6, 2) && DigitsAt(s, 9, 6) &&
       s[2] == ':' && s[5] == ':' && s[8] == '.'
    then Some(Run(s, 15, IsReSpace)) else None
  }

  function StripTime(s: string): string {
    match TimeEnd(s)
    case None => s
    case Some(end) => TrimSpace(s[end..])
  }

  // ---------- Unfinished and resumed calls ----------

  datatype Key = Key(pid: int, syscall: string)

  /** `parseUnfinishedTraceLine`: the key of an unfinished call and the line without the marker. */
  function Unfinished(line: string): Option<(Key, string)> {
    var raw := TrimSpace(line);
    match Index(raw, UNFINISHED)
    case None => None
    case Some(m) =>
      var (pid, rest) := SplitPID(raw);
      var call := StripTime(rest);
      match Index(call, "(")
      case None => None
      case Some(open) => Some((Key(pid, call[..open]), TrimSpace(raw[..m] + raw[m + |UNFINISHED|..])))
  }

  /** The name and remainder of `<... name resumed>remainder`. */
  function ResumedCall(s: string): Option<(string, string)> {
    if !("<..." <= s) then None
    else
      var i := Run(s, 4, IsReSpace);
      var j := Run(s, i, IsWordChar);
      var k := Run(s, j, IsReSpace);
      if i == 4 || j == i || k == j || !("resumed>" <= s[k..]) then None
      else
        var rest := s[Run(s, k + 8, IsReSpace)..];
        if '\n' in rest then None else Some((s[i..j], rest))
  }

  /** The key a resumed line asks for, and the text that completes the call. */
  function Resumed(line: string): Option<(Key, string)> {
    var (pid, rest) := SplitPID(TrimSpace(line));
    match ResumedCall(StripTime(rest))
    case None => None
    case Some((name, tail)) => Some((Key(pid, name), tail))
  }

  /** The line made of an unfinished part and its completion. */
  function Merged(partial: string, tail: string): string {
    TrimSpace(partial + " " + TrimSpace(tail))
  }

  // ---------- Arguments ----------

  /** Where a scanner stands: how many brackets are open, inside quotes or not, right behind a backslash or not. */
  datatype Scan = Scan(depth: int, inQuote: bool, escaped: bool)

  function ParenStep(st: Scan, c: char): Scan {
    if st.escaped then st.(escaped := false)
    else if c == '\\' && st.inQuote then st.(escaped := true)
    else if c == '"' then st.(inQuote := !st.inQuote)
    else if st.inQuote then st
    else if c == '(' then st.(depth := st.depth + 1)
    else if c == ')' then st.(depth := st.depth - 1)
    else st
  }

  /** The character closes the parenthesis that was opened first. */
  predicate Closes(st: Scan, c: char) {
    c == ')' && !st.escaped && !st.inQuote && st.depth == 1
  }

  /** The first position from `i` on where the opening parenthesis is closed, or -1. */
  function CloseParen(s: string, i: nat, st: Scan): (k: int)
    ensures k == -1 || i <= k < |s|
    decreases |s| - i
  {
    if i >= |s| then -1
    else if Closes(st, s[i]) then i
    else CloseParen(s, i + 1, ParenStep(st, s[i]))
  }

  method FindCloseParen(rest: string) returns (closeParen: int)
    ensures closeParen == CloseParen(rest, 0, Scan(0, false, false))
  {
    closeParen := -1;
    var depth, inQuote, escaped := 0, false, false;
    var i := 0;
    while i < |rest|
      invariant i <= |rest|
      invariant CloseParen(rest, 0, Scan(0, false, false)) == CloseParen(rest, i, Scan(depth, inQuote, escaped))
    {
      var c := rest[i];
      if escaped {
        escaped := false;
        i := i + 1;
        continue;
      }
      if c == '\\' && inQuote {
        escaped := true;
        i := i + 1;
        continue;
      }
      if c == '"' {
        inQuote := !inQuote;
      } else if c == '(' {
        if !inQuote {
          depth := depth + 1;
        }
      } else if c == ')' {
        if !inQuote {
          depth := depth - 1;
          if depth == 0 {
            closeParen := i;
          }
        }
      }
      if closeParen != -1 {
        return;
      }
      i := i + 1;
    }
  }

  predicate Opens(c: char) { c == '{' || c == '[' || c == '(' }

  predicate Shuts(c: char) { c == '}' || c == ']' || c == ')' }

  function ArgStep(st: Scan, c: char): Scan {
    if st.escaped then st.(escaped := false)
    else if c == '\\' && st.inQuote then st.(escaped := true)
    else if c == '"' then st.(inQuote := !st.inQuote)
    else if st.inQuote then st
    else if Opens(c) then st.(depth := st.depth + 1)
    else if Shuts(c) then st.(depth := st.depth - 1)
    else st
  }

  predicate Separates(st: Scan, c: char) {
    c == ',' && !st.escaped && !st.inQuote && st.depth == 0
  }

  /** The arguments from position `i` on, the current one having started at `start`. */
  function ArgsFrom(s: string, i: nat, start: nat, st: Scan): seq<string>
    requires start <= i <= |s|
    decreases |s| - i
  {
    if i == |s| then (if start < |s| then [TrimSpace(s[start..])] else [])
    else if Separates(st, s[i]) then [TrimSpace(s[start..i])] + ArgsFrom(s, i + 1, i + 1, st)
    else ArgsFrom(s, i + 1, start, ArgStep(st, s[i]))
  }

  function ParseArgs(text: string): seq<string> {
    ArgsFrom(TrimSuffix(TrimPrefix(text, "("), ")"), 0, 0, Scan(0, false, false))
  }

  method SplitArgs(text: string) returns (args: seq<string>)
    ensures args == ParseArgs(text)
  {
    var s := TrimSuffix(TrimPrefix(text, "("), ")");
    args := [];
    if s == "" {
      return;
    }
    var depth, inQuote, escaped := 0, false, false;
    var start: nat := 0;
    var i: nat := 0;
    while i < |s|
      invariant start <= i <= |s|
      invariant ParseArgs(text) == args + ArgsFrom(s, i, start, Scan(depth, inQuote, escaped))
    {
      var c := s[i];
      if escaped {
        escaped := false;
        i := i + 1;
        continue;
      }
      if c == '\\' && inQuote {
        escaped := true;
        i := i + 1;
        continue;
      }
      if c == '"' {
        inQuote := !inQuote;
      } else if Opens(c) {
        if !inQuote {
          depth := depth + 1;
        }
      } else if Shuts(c) {
        if !inQuote {
          depth := depth - 1;
        }
      } else if c == ',' {
        if !inQuote && depth == 0 {
          args := args + [TrimSpace(s[start..i])];
          start := i + 1;
        }
      }
      i := i + 1;
    }
    if start < |s| {
      args := args + [TrimSpace(s[start..])];
    }
  }

  // ---------- Events ----------

  /** The part of an event behind the process id and the time; the duration as its printed digits. */
  datatype Call = Call(syscall: string, args: seq<string>, result: string, error: string, duration: Option<(string, string)>)

  datatype Event = Event(pid: int, time: Option<string>, call: Call)

  /** The start of the longest run of characters satisfying `p` that ends at `n`. */
  function RunBack(s: string, n: nat, p: char -> bool): (i: nat)
    requires n <= |s|
    ensures i <= n
  {
    if n > 0 && p(s[n - 1]) then RunBack(s, n - 1, p) else n
  }

  /** `parseTrailingDuration`: `<seconds.fraction>` at the end, and the text before it. */
  function SplitDuration(s: string): (string, Option<(string, string)>) {
    var e := RunBack(s, |s|, IsReSpace);
    if e == 0 || s[e - 1] != '>' then (s, None)
    else
      var f := RunBack(s, e - 1, IsDigit);
      if f == e - 1 || e - 1 - f > 9 || f == 0 || s[f - 1] != '.' then (s, None)
      else
        var n := RunBack(s, f - 1, IsDigit);
        if n == f - 1 || n == 0 || s[n - 1] != '<' then (s, None)
        else (TrimSpace(s[..RunBack(s, n - 1, IsReSpace)]), Some((s[n..f - 1], s[f..e - 1])))
  }

  predicate NotResultEnd(c: char) { c != ' ' && c != '<' }

  /** Result and error of the text behind the equals sign. */
  function ResultOf(part: string): (string, string) {
    if "-1" <= part then
      var parts := Fields(part);
      if |parts| >= 2 then (parts[0], parts[1]) else ("", "")
    else (part[..Run(part, 0, NotResultEnd)], "")
  }

  /** A call without its prefixes: name, arguments, and what follows the closing parenthesis. */
  function ParseCall(line: string): Option<Call> {
    match Index(line, "(")
    case None => None
    case Some(open) =>
      var rest := line[open..];
      var close := CloseParen(rest, 0, Scan(0, false, false));
      var after := if close == -1 then "" else TrimSpace(rest[close + 1..]);
      if "=" <= after then
        var (part, duration) := SplitDuration(TrimSpace(after[1..]));
        var (result, error) := ResultOf(part);
        Some(Call(line[..open], ParseArgs(rest[..close + 1]), result, error, duration))
      else Some(Call(line[..open], ParseArgs(rest), "", "", None))
  }

  /** `ParseLine`; None stands for the lines that are no event. */
  function ParseLine(text: string): (e: Option<Event>)
    ensures e.Some? ==> e.value.pid == PidOf(TrimSpace(text))
  {
    var line := TrimSpace(text);
    if line == "" || "+++" <= line || "---" <= line || Contains(line, UNFINISHED) || Contains(line, RESUMED) then None
    else
      var (pid, rest) := SplitPID(line);
      match ParseCall(StripTime(rest))
      case None => None
      case Some(call) => Some(Event(pid, match TimeEnd(rest) case None => None case Some(_) => Some(rest[..15]), call))
  }
}
