/** Printed argument lists are parsed back, and the two scanners of a line agree on where the list ends. */
module TraceArgs {
  import opened Text
  import opened Trimming
  import opened Numbers
  import opened TraceParser

  /** Reading a text with proper bracket nesting: the open brackets, and the state of quoting. */
  datatype Nest = Nest(stack: string, inQuote: bool, escaped: bool) | Broken

  predicate Pairs(open: char, shut: char) {
    (open == '(' && shut == ')') || (open == '[' && shut == ']') || (open == '{' && shut == '}')
  }

  /** A bracket must shut the one opened last, and a comma must not stand outside all brackets and quotes. */
  function NestStep(st: Nest, c: char): Nest {
    if st.Broken? then Broken
    else if st.escaped then st.(escaped := false)
    else if c == '\\' && st.inQuote then st.(escaped := true)
    else if c == '"' then st.(inQuote := !st.inQuote)
    else if st.inQuote then st
    else if c in "([{" then st.(stack := st.stack + [c])
    else if c in ")]}" then
      if st.stack != "" && Pairs(st.stack[|st.stack| - 1], c) then st.(stack := st.stack[..|st.stack| - 1]) else Broken
    else if c == ',' && st.stack == "" then Broken
    else st
  }

  function NestRun(st: Nest, s: string): Nest
    decreases |s|
  {
    if s == "" then st else NestRun(NestStep(st, s[0]), s[1..])
  }

  const OUTSIDE := Nest("", false, false)

  /** An argument as the tracer prints it: not empty, trimmed, quotes closed, brackets nested, no comma at top level. */
  predicate IsArgument(a: string) {
    a != "" && TrimSpace(a) == a && NestRun(OUTSIDE, a) == OUTSIDE
  }

  predicate AllArguments(args: seq<string>) {
    forall k | 0 <= k < |args| :: IsArgument(args[k])
  }

  function Printed(args: seq<string>): string {
    "(" + Join(args, ", ") + ")"
  }

  lemma {:induction false} BrokenStays(s: string)
    ensures NestRun(Broken, s) == Broken
  {
    if s != "" {
      BrokenStays(s[1..]);
    }
  }

  // ---------- The argument scanner ----------

  function ArgState(st: Nest): Scan
    requires st.Nest?
  {
    Scan(|st.stack|, st.inQuote, st.escaped)
  }

  /** The argument scanner passes a nested text without splitting it. */
  lemma {:induction false} ArgScans(s: string, i: nat, start: nat, st: Nest, a: string)
    requires start <= i && i + |a| <= |s| && s[i..i + |a|] == a
    requires st.Nest? && NestRun(st, a).Nest?
    ensures ArgsFrom(s, i, start, ArgState(st)) == ArgsFrom(s, i + |a|, start, ArgState(NestRun(st, a)))
    decreases |a|
  {
    if a != "" {
      var next := NestStep(st, a[0]);
      assert s[i] == s[i..i + |a|][0] == a[0];
      if next.Broken? { BrokenStays(a[1..]); }
      assert s[i + 1..i + 1 + |a[1..]|] == a[1..];
      ArgScans(s, i + 1, start, next, a[1..]);
      assert ArgStep(ArgState(st), a[0]) == ArgState(next);
    }
  }

  const TOP := Scan(0, false, false)

  /** An argument behind white space: the scanner passes it, and trimming gives it back. */
  lemma OneArgument(s: string, start: nat, i: nat, a: string)
    requires IsArgument(a) && start <= i && i + |a| <= |s| && AllSpace(s[start..i]) && s[i..i + |a|] == a
    ensures ArgsFrom(s, i, start, TOP) == ArgsFrom(s, i + |a|, start, TOP)
    ensures TrimSpace(s[start..i + |a|]) == a
  {
    ArgScans(s, i, start, OUTSIDE, a);
    assert s[start..i + |a|] == s[start..i] + a;
    TrimFrontSpace(s[start..i], a);
  }

  lemma OneSpace(s: string, e: nat)
    requires e + 2 <= |s| && s[e + 1] == ' '
    ensures AllSpace(s[e + 1..e + 2])
  {
  }

  lemma LastArgument(s: string, start: nat, i: nat, a: string)
    requires IsArgument(a) && start <= i && i + |a| == |s| && AllSpace(s[start..i]) && s[i..i + |a|] == a
    ensures ArgsFrom(s, i, start, TOP) == [a]
  {
    OneArgument(s, start, i, a);
    assert s[start..] == s[start..i + |a|];
  }

  lemma {:induction false} SplitsJoined(args: seq<string>, s: string, start: nat, i: nat)
    requires args != [] && AllArguments(args)
    requires start <= i <= |s| && AllSpace(s[start..i]) && s[i..] == Join(args, ", ")
    ensures ArgsFrom(s, i, start, TOP) == args
    decreases |args|
  {
    var a := args[0];
    JoinStarts(args, s, i);
    if |args| == 1 {
      LastArgument(s, start, i, a);
    } else {
      var e := i + |a|;
      OneSpace(s, e);
      SplitsJoined(args[1..], s, e + 1, e + 2);
      RestArguments(args);
      FirstArgument(s, start, i, a, args[1..]);
    }
  }

  lemma RestArguments(args: seq<string>)
    requires args != [] && AllArguments(args)
    ensures AllArguments(args[1..]) && args == [args[0]] + args[1..] && IsArgument(args[0])
  {
  }

  lemma FirstArgument(s: string, start: nat, i: nat, a: string, rest: seq<string>)
    requires IsArgument(a) && start <= i && i + |a| + 2 <= |s| && AllSpace(s[start..i]) && s[i..i + |a|] == a
    requires s[i + |a|] == ',' && s[i + |a| + 1] == ' ' && ArgsFrom(s, i + |a| + 2, i + |a| + 1, TOP) == rest
    ensures ArgsFrom(s, i, start, TOP) == [a] + rest
  {
    OneArgument(s, start, i, a);
  }

  lemma JoinStarts(args: seq<string>, s: string, i: nat)
    requires args != [] && i <= |s| && s[i..] == Join(args, ", ")
    ensures i + |args[0]| <= |s| && s[i..i + |args[0]|] == args[0]
    ensures |args| == 1 ==> i + |args[0]| == |s|
    ensures |args| > 1 ==> var e := i + |args[0]|;
              e + 2 <= |s| && s[e] == ',' && s[e + 1] == ' ' && s[e + 2..] == Join(args[1..], ", ")
  {
    var a, t := args[0], s[i..];
    if |args| > 1 {
      var rest := Join(args[1..], ", ");
      assert t == a + ", " + rest;
      assert t[..|a|] == a && t[|a|] == ',' && t[|a| + 1] == ' ' && t[|a| + 2..] == rest;
    }
  }

  /** Parsing a printed argument list gives the list back. */
  lemma ArgsRoundTrip(args: seq<string>)
    requires AllArguments(args)
    ensures ParseArgs(Printed(args)) == args
  {
    var inner := Join(args, ", ");
    assert Printed(args)[1..] == inner + ")";
    assert (inner + ")")[|inner|..] == ")" && (inner + ")")[..|inner|] == inner;
    if args != [] {
      assert inner[0..] == inner && inner[0..0] == "";
      SplitsJoined(args, inner, 0, 0);
    }
  }

  // ---------- The parenthesis scanner ----------

  function Parens(stack: string): nat {
    if stack == "" then 0
    else Parens(stack[..|stack| - 1]) + if stack[|stack| - 1] == '(' then 1 else 0
  }

  function ParenState(st: Nest): Scan
    requires st.Nest?
  {
    Scan(1 + Parens(st.stack), st.inQuote, st.escaped)
  }

  lemma ParenStepAgrees(st: Nest, c: char)
    requires st.Nest? && NestStep(st, c).Nest?
    ensures !Closes(ParenState(st), c) && ParenStep(ParenState(st), c) == ParenState(NestStep(st, c))
  {
    assert (st.stack + [c])[..|st.stack|] == st.stack;
  }

  /** The parenthesis scanner passes a nested text without finding the end. */
  lemma {:induction false} ParenScans(s: string, i: nat, st: Nest, a: string)
    requires i + |a| <= |s| && s[i..i + |a|] == a
    requires st.Nest? && NestRun(st, a).Nest?
    ensures CloseParen(s, i, ParenState(st)) == CloseParen(s, i + |a|, ParenState(NestRun(st, a)))
    decreases |a|
  {
    if a != "" {
      var next := NestStep(st, a[0]);
      assert s[i] == s[i..i + |a|][0] == a[0];
      if next.Broken? { BrokenStays(a[1..]); }
      ParenStepAgrees(st, a[0]);
      assert s[i + 1..i + 1 + |a[1..]|] == a[1..];
      ParenScans(s, i + 1, next, a[1..]);
    }
  }

  lemma SliceOf(s: string, i: nat, n: nat, x: nat, y: nat)
    requires i + n <= |s| && x <= y <= n
    ensures s[i..i + n][x..y] == s[i + x..i + y]
  {
    var l, r := s[i..i + n][x..y], s[i + x..i + y];
    assert |l| == |r| && forall k | 0 <= k < |l| :: l[k] == r[k];
  }

  lemma JoinedAt(args: seq<string>, s: string, i: nat, end: nat)
    requires |args| > 1 && i <= end <= |s| && s[i..end] == Join(args, ", ")
    ensures var e := i + |args[0]|;
            e + 2 <= end && s[i..e] == args[0] && s[e] == ',' && s[e + 1] == ' ' && s[e + 2..end] == Join(args[1..], ", ")
  {
    var a, rest, j := args[0], Join(args[1..], ", "), Join(args, ", ");
    assert j == a + ", " + rest;
    assert j[0..|a|] == a && j[|a|] == ',' && j[|a| + 1] == ' ' && j[|a| + 2..|j|] == rest;
    SliceOf(s, i, |j|, 0, |a|);
    SliceOf(s, i, |j|, |a| + 2, |j|);
  }

  const INSIDE := Scan(1, false, false)

  lemma PassComma(s: string, e: nat)
    requires e + 2 <= |s| && s[e] == ',' && s[e + 1] == ' '
    ensures CloseParen(s, e, INSIDE) == CloseParen(s, e + 2, INSIDE)
  {
    assert CloseParen(s, e + 1, INSIDE) == CloseParen(s, e + 2, INSIDE);
  }

  lemma PassArgument(s: string, i: nat, a: string)
    requires IsArgument(a) && i + |a| <= |s| && s[i..i + |a|] == a
    ensures CloseParen(s, i, INSIDE) == CloseParen(s, i + |a|, INSIDE)
  {
    ParenScans(s, i, OUTSIDE, a);
  }

  lemma {:induction false} ParenScansJoined(args: seq<string>, s: string, i: nat, end: nat)
    requires AllArguments(args) && i <= end <= |s| && s[i..end] == Join(args, ", ")
    ensures CloseParen(s, i, INSIDE) == CloseParen(s, end, INSIDE)
    decreases |args|
  {
    if |args| > 1 {
      var next := PassFirst(args, s, i, end);
      ParenScansJoined(args[1..], s, next, end);
    } else if args != [] {
      PassArgument(s, i, args[0]);
    }
  }

  lemma PassFirst(args: seq<string>, s: string, i: nat, end: nat) returns (next: nat)
    requires AllArguments(args) && |args| > 1 && i <= end <= |s| && s[i..end] == Join(args, ", ")
    ensures i <= next <= end && AllArguments(args[1..]) && s[next..end] == Join(args[1..], ", ")
    ensures CloseParen(s, i, INSIDE) == CloseParen(s, next, INSIDE)
  {
    JoinedAt(args, s, i, end);
    RestArguments(args);
    PassArgument(s, i, args[0]);
    PassComma(s, i + |args[0]|);
    next := i + |args[0]| + 2;
  }

  /** The parenthesis scanner stops at exactly the last parenthesis of a printed argument list. */
  lemma CloseParenPrinted(args: seq<string>, tail: string)
    requires AllArguments(args)
    ensures CloseParen(Printed(args) + tail, 0, Scan(0, false, false)) == |Printed(args)| - 1
  {
    var s, inner := Printed(args) + tail, Join(args, ", ");
    assert s[0] == '(' && s[1..1 + |inner|] == inner && s[1 + |inner|] == ')';
    ParenScansJoined(args, s, 1, 1 + |inner|);
  }

  lemma {:induction false} IndexFirst(a: string, c: char, b: string)
    requires c !in a
    ensures Index(a + [c] + b, [c]) == Some(|a|)
  {
    var s := a + [c] + b;
    if a == "" {
      assert s[..1] == [c];
    } else {
      assert s[0] == a[0] && s[1..] == a[1..] + [c] + b;
      IndexFirst(a[1..], c, b);
    }
  }

  /** Result, error and duration of the text behind the arguments, from the equals sign on. */
  function Ended(name: string, args: seq<string>, tail: string): Call {
    var after := TrimSpace(tail);
    var (part, duration) := SplitDuration(TrimSpace(if after == "" then "" else after[1..]));
    var (result, error) := ResultOf(part);
    Call(name, args, result, error, duration)
  }

  /** `list` in front of `tail` is read as the arguments `args`. */
  predicate ListRead(list: string, args: seq<string>, tail: string) {
    list != "" && list[0] == '(' && ParseArgs(list) == args && CloseParen(list + tail, 0, Scan(0, false, false)) == |list| - 1
  }

  lemma PrintedRead(args: seq<string>, tail: string)
    requires AllArguments(args)
    ensures ListRead(Printed(args), args, tail)
  {
    CloseParenPrinted(args, tail);
    ArgsRoundTrip(args);
  }

  /** A call made of a name, an argument list and a result is read with them. */
  lemma CallMade(name: string, list: string, args: seq<string>, tail: string)
    requires '(' !in name && ListRead(list, args, tail) && "=" <= TrimSpace(tail)
    ensures ParseCall(name + list + tail) == Some(Ended(name, args, tail))
  {
    CallFront(name, list, tail);
    var rest := list + tail;
    assert rest[..|list|] == list && rest[|list|..] == tail;
    CallRead(name + list + tail, |name|, rest, |list| - 1);
  }

  /** A call printed as name, arguments and result is read back with that name, those arguments and that result. */
  lemma CallRoundTrip(name: string, args: seq<string>, tail: string)
    requires '(' !in name && AllArguments(args) && "=" <= TrimSpace(tail)
    ensures ParseCall(name + Printed(args) + tail) == Some(Ended(name, args, tail))
  {
    PrintedRead(args, tail);
    CallMade(name, Printed(args), args, tail);
  }

  /** A call is read from where its first parenthesis stands, where that one closes, and what follows. */
  lemma CallRead(line: string, open: nat, rest: string, close: nat)
    requires Index(line, "(") == Some(open) && line[open..] == rest
    requires close < |rest| && CloseParen(rest, 0, Scan(0, false, false)) == close && "=" <= TrimSpace(rest[close + 1..])
    ensures ParseCall(line) == Some(Ended(line[..open], ParseArgs(rest[..close + 1]), rest[close + 1..]))
  {
  }

  lemma CallFront(name: string, list: string, tail: string)
    requires '(' !in name && list != "" && list[0] == '('
    ensures var line := name + list + tail;
            Index(line, "(") == Some(|name|) && line[..|name|] == name && line[|name|..] == list + tail
  {
    var rest, line := list + tail, name + list + tail;
    assert rest == "(" + rest[1..] && line == name + "(" + rest[1..];
    IndexFirst(name, '(', rest[1..]);
  }

  // ---------- Whole lines ----------

  function Tag(pid: nat): string {
    "[pid " + Decimal(pid) + "] "
  }

  lemma TagRead(pid: nat, rest: string)
    requires pid <= MAX_INT && rest != "" && !IsReSpace(rest[0])
    ensures PidTag(Tag(pid) + rest) == Some((|Tag(pid)|, pid)) && (Tag(pid) + rest)[|Tag(pid)|..] == rest
  {
    var d, s := Decimal(pid), Tag(pid) + rest;
    var j := 5 + |d|;
    DecimalDigits(pid);
    assert s == "[pid " + d + "] " + rest;
    assert s[..4] == "[pid" && s[4] == ' ' && s[5..j] == d && s[j] == ']' && s[j + 1] == ' ' && s[j + 2..] == rest;
    assert forall k | 5 <= k < j :: s[k] == d[k - 5];
    RunIs(s, 4, 5, IsReSpace);
    RunIs(s, 5, j, IsDigit);
    assert s[j + 2] == rest[0];
    RunIs(s, j + 1, j + 2, IsReSpace);
  }

  lemma PidRead(pid: nat, rest: string)
    requires pid <= MAX_INT && rest != "" && Trimmed(rest)
    ensures Trimmed(Tag(pid) + rest) && SplitPID(Tag(pid) + rest) == (pid, rest)
  {
    var s := Tag(pid) + rest;
    TagRead(pid, rest);
    assert s[0] == '[' && s[|s| - 1] == rest[|rest| - 1];
    TrimNoop(s);
    TrimNoop(rest);
  }

  lemma TimeRead(time: string, call: string)
    requires |time| == 15 && TimeEnd(time).Some? && call != "" && Trimmed(call)
    ensures TimeEnd(time + " " + call).Some? && StripTime(time + " " + call) == call && (time + " " + call)[..15] == time
  {
    var s := time + " " + call;
    assert s[0..2] == time[0..2] && s[3..5] == time[3..5] && s[6..8] == time[6..8] && s[9..15] == time[9..15];
    assert s[15] == ' ' && s[16..] == call && s[16] == call[0];
    RunIs(s, 15, 16, IsReSpace);
    TrimNoop(call);
  }

  /** The text behind the prefixes begins with the name and ends with the tail. */
  lemma CallTrimmed(name: string, list: string, tail: string)
    requires IsName(name) && tail != "" && !IsSpace(tail[|tail| - 1])
    ensures var call := name + list + tail; call != "" && Trimmed(call)
  {
    var call := name + list + tail;
    assert call[0] == name[0] && call[|call| - 1] == tail[|tail| - 1];
  }

  lemma LineTrimmed(time: string, call: string)
    requires |time| == 15 && TimeEnd(time).Some? && call != "" && Trimmed(call)
    ensures Trimmed(time + " " + call)
  {
    var s := time + " " + call;
    assert s[0] == time[0] == time[0..2][0] && s[|s| - 1] == call[|call| - 1];
  }

  /** A whole line, with process id and time in front of the call, is read with all of them. */
  lemma LineMade(pid: nat, time: string, name: string, list: string, args: seq<string>, tail: string)
    requires pid <= MAX_INT && |time| == 15 && TimeEnd(time).Some? && IsName(name) && ListRead(list, args, tail)
    requires "=" <= TrimSpace(tail) && tail != "" && !IsSpace(tail[|tail| - 1])
    ensures var line := Tag(pid) + (time + " " + (name + list + tail));
            !Contains(line, UNFINISHED) && !Contains(line, RESUMED) ==>
              ParseLine(line) == Some(Event(pid, Some(time), Ended(name, args, tail)))
  {
    var call := name + list + tail;
    var rest := time + " " + call;
    CallTrimmed(name, list, tail);
    LineTrimmed(time, call);
    PidRead(pid, rest);
    TrimNoop(Tag(pid) + rest);
    assert (Tag(pid) + rest)[0] == '[';
    TimeRead(time, call);
    CallMade(name, list, args, tail);
  }

  lemma LineRoundTrip(pid: nat, time: string, name: string, args: seq<string>, tail: string)
    requires pid <= MAX_INT && |time| == 15 && TimeEnd(time).Some? && IsName(name) && AllArguments(args)
    requires "=" <= TrimSpace(tail) && tail != "" && !IsSpace(tail[|tail| - 1])
    ensures var line := Tag(pid) + (time + " " + (name + Printed(args) + tail));
            !Contains(line, UNFINISHED) && !Contains(line, RESUMED) ==>
              ParseLine(line) == Some(Event(pid, Some(time), Ended(name, args, tail)))
  {
    PrintedRead(args, tail);
    LineMade(pid, time, name, Printed(args), args, tail);
  }
}
