/** A call that the tracer prints in two halves, with other lines in between, is read like one printed whole. */
module TraceHalves {
  import opened Text
  import opened Trimming
  import opened Numbers
  import opened TraceParser
  import opened TraceArgs
  import opened TraceLines
  import opened TraceReader
  import opened TracePids

  // ---------- Argument lists with blanks at their ends ----------

  lemma {:induction false} BlanksPassed(s: string, i: nat, start: nat)
    requires start <= i <= |s| && start < |s| && forall k | i <= k < |s| :: IsSpace(s[k])
    ensures ArgsFrom(s, i, start, TOP) == [TrimSpace(s[start..])]
    decreases |s| - i
  {
    if i < |s| {
      BlanksPassed(s, i + 1, start);
    }
  }

  lemma SliceBlanks(s: string, i: nat, end: nat)
    requires i <= end <= |s| && AllSpace(s[i..end])
    ensures forall k | i <= k < end :: IsSpace(s[k])
  {
    forall k | i <= k < end ensures IsSpace(s[k]) {
      assert s[k] == s[i..end][k - i];
    }
  }

  /** As `s[i..end]`, the arguments are read; white space behind them is trimmed. */
  lemma {:induction false} SplitsPadded(args: seq<string>, s: string, start: nat, i: nat, end: nat)
    requires args != [] && AllArguments(args) && start <= i <= end <= |s|
    requires AllSpace(s[start..i]) && s[i..end] == Join(args, ", ") && AllSpace(s[end..])
    ensures ArgsFrom(s, i, start, TOP) == args
    decreases |args|
  {
    var a := args[0];
    if |args| == 1 {
      LastPadded(s, start, i, end, a);
    } else {
      JoinedAt(args, s, i, end);
      var e := i + |a|;
      OneSpace(s, e);
      RestArguments(args);
      SplitsPadded(args[1..], s, e + 1, e + 2, end);
      FirstArgument(s, start, i, a, args[1..]);
    }
  }

  lemma LastPadded(s: string, start: nat, i: nat, end: nat, a: string)
    requires IsArgument(a) && start <= i <= end <= |s| && AllSpace(s[start..i]) && s[i..end] == a && AllSpace(s[end..])
    ensures ArgsFrom(s, i, start, TOP) == [a]
  {
    OneArgument(s, start, i, a);
    assert s[end..|s|] == s[end..];
    SliceBlanks(s, end, |s|);
    BlanksPassed(s, end, start);
    TrimTrimmed(a);
    TrimAround(s[start..i], a, s[end..]);
    assert s[start..] == s[start..i] + a + s[end..];
  }

  predicate OneBlank(pad: string) {
    pad == "" || pad == " "
  }

  lemma InnerArgs(inner: string)
    ensures ParseArgs("(" + inner + ")") == ArgsFrom(inner, 0, 0, TOP)
  {
    var text := "(" + inner + ")";
    assert text[1..] == inner + ")" && (inner + ")")[|inner|..] == ")" && (inner + ")")[..|inner|] == inner;
  }

  /** The arguments of a list with a blank, or none, at either end; a list of blanks only counts as one empty argument. */
  lemma PaddedArgs(args: seq<string>, pre: string, post: string)
    requires AllArguments(args) && OneBlank(pre) && OneBlank(post)
    ensures ParseArgs("(" + (pre + Join(args, ", ") + post) + ")") ==
            if args == [] && pre + post != "" then [""] else args
  {
    var inner := pre + Join(args, ", ") + post;
    InnerArgs(inner);
    if args != [] {
      JoinedArgs(args, pre, Join(args, ", "), post);
    } else if inner != "" {
      assert inner[0..] == inner == pre + post;
      BlanksPassed(inner, 0, 0);
      TrimAllSpace(inner);
    }
  }

  lemma JoinedArgs(args: seq<string>, pre: string, joined: string, post: string)
    requires args != [] && AllArguments(args) && AllSpace(pre) && AllSpace(post) && joined == Join(args, ", ")
    ensures ArgsFrom(pre + joined + post, 0, 0, TOP) == args
  {
    var inner, m, n := pre + joined + post, |pre|, |pre| + |joined|;
    assert inner[m..n] == joined && inner[n..] == post && inner[0..m] == pre == inner[..m];
    PassBlanks(inner, m);
    SplitsPadded(args, inner, 0, m, n);
  }

  lemma {:induction false} PassBlanks(s: string, n: nat)
    requires n <= |s| && AllSpace(s[..n])
    ensures ArgsFrom(s, 0, 0, TOP) == ArgsFrom(s, n, 0, TOP)
  {
    if n > 0 {
      assert IsSpace(s[..n][n - 1]) && s[n - 1] == s[..n][n - 1] && s[..n - 1] == s[..n][..n - 1];
      PassBlanks(s, n - 1);
    }
  }

  lemma PassBlank(s: string, i: nat)
    requires i < |s| && s[i] == ' '
    ensures CloseParen(s, i, INSIDE) == CloseParen(s, i + 1, INSIDE)
  {
  }

  /** The parenthesis scanner stops at the end of a padded list. */
  lemma PaddedClose(args: seq<string>, pre: string, post: string, tail: string)
    requires AllArguments(args) && OneBlank(pre) && OneBlank(post)
    ensures var inner := pre + Join(args, ", ") + post;
            CloseParen("(" + inner + ")" + tail, 0, Scan(0, false, false)) == |inner| + 1
  {
    var j := Join(args, ", ");
    var inner := pre + j + post;
    var s, m, n := "(" + inner + ")" + tail, 1 + |pre|, 1 + |pre| + |j|;
    assert s[0] == '(' && s[m..n] == j && s[|inner| + 1] == ')';
    assert pre != "" ==> s[1] == ' ';
    assert post != "" ==> s[n] == ' ';
    if pre != "" { PassBlank(s, 1); }
    ParenScansJoined(args, s, m, n);
    if post != "" { PassBlank(s, n); }
  }

  // ---------- The two halves ----------

  /** What the first half shows of the arguments: a comma stands behind them when more are to follow. */
  function Shared(xs: seq<string>, ys: seq<string>): string {
    Join(xs, ", ") + if xs != [] && ys != [] then "," else ""
  }

  /** Where the merged line's argument list has blanks that a printed one has not. */
  lemma MergedInner(xs: seq<string>, ys: seq<string>) returns (pre: string, post: string)
    ensures Shared(xs, ys) + " " + Join(ys, ", ") == pre + Join(xs + ys, ", ") + post
    ensures OneBlank(pre) && OneBlank(post) && (xs + ys == [] ==> pre + post != "")
  {
    if xs != [] && ys != [] {
      pre, post := "", "";
      JoinConcat(xs, ys, ", ");
    } else if xs == [] {
      pre, post := " ", "";
      assert xs + ys == ys;
    } else {
      pre, post := "", " ";
      assert xs + ys == xs;
    }
  }

  /** The text in front of the marker of a call that is not finished. */
  function Front(pid: nat, time: string, name: string, xs: seq<string>, ys: seq<string>): string {
    Tag(pid) + (time + " " + (name + "(" + Shared(xs, ys)))
  }

  function UnfinishedLine(pid: nat, time: string, name: string, xs: seq<string>, ys: seq<string>): string {
    Front(pid, time, name, xs, ys) + " " + UNFINISHED
  }

  /** What the second half adds. */
  function Rest(ys: seq<string>, part: string, d: Option<(string, string)>): string {
    Join(ys, ", ") + ")" + (" = " + (part + Timed(d)))
  }

  function ResumedLine(
    pid: nat, time: string, name: string, ys: seq<string>, part: string, d: Option<(string, string)>): string
  {
    Tag(pid) + (time + " " + (RESUMED + name + " resumed>" + Rest(ys, part, d)))
  }

  lemma {:induction false} IndexLast(a: string, sub: string)
    requires sub != "" && !Contains(a + sub[..|sub| - 1], sub)
    ensures Index(a + sub, sub) == Some(|a|)
  {
    var s, short := a + sub, a + sub[..|sub| - 1];
    if a == "" {
      assert s == sub;
    } else {
      assert short == s[..|s| - 1];
      assert s[1..] == a[1..] + sub && short[1..] == a[1..] + sub[..|sub| - 1];
      IndexLast(a[1..], sub);
    }
  }

  lemma {:induction false} JoinEnds(args: seq<string>)
    requires args != [] && AllArguments(args)
    ensures EndsPlain(Join(args, ", "))
  {
    RestArguments(args);
    TrimTrimmed(args[0]);
    if |args| > 1 { JoinEnds(args[1..]); }
  }

  lemma SharedEnds(xs: seq<string>, ys: seq<string>)
    requires AllArguments(xs)
    ensures Shared(xs, ys) == "" || EndsPlain(Shared(xs, ys))
  {
    if xs != [] { JoinEnds(xs); }
  }

  lemma FrontEnds(pid: nat, time: string, name: string, xs: seq<string>, ys: seq<string>)
    requires AllArguments(xs)
    ensures EndsPlain(Front(pid, time, name, xs, ys))
  {
    SharedEnds(xs, ys);
    var f, s := Front(pid, time, name, xs, ys), Shared(xs, ys);
    assert f[0] == '[' && f[|f| - 1] == if s == "" then '(' else s[|s| - 1];
  }

  /** The marker stands at the end of the first half only. */
  predicate OneMarker(u: string) {
    u != "" && !Contains(u[..|u| - 1], UNFINISHED)
  }

  /** Text added to a line is added to its call. */
  lemma CallGrows(tag: string, time: string, call: string, more: string)
    ensures (tag + (time + " " + call)) + more == tag + (time + " " + (call + more))
  {
    ConcatAssoc(tag, time + " " + call, more);
    ConcatAssoc(time + " ", call, more);
  }

  lemma ListGrows(name: string, shared: string, more: string)
    ensures (name + "(" + shared) + more == name + ("(" + shared) + more
  {
    ConcatAssoc(name, "(", shared);
  }

  /** The call of an unfinished line, the marker included. */
  function Begun(name: string, xs: seq<string>, ys: seq<string>): string {
    name + ("(" + Shared(xs, ys)) + (" " + UNFINISHED)
  }

  lemma UnfinishedText(pid: nat, time: string, name: string, xs: seq<string>, ys: seq<string>)
    ensures UnfinishedLine(pid, time, name, xs, ys) == Tag(pid) + (time + " " + Begun(name, xs, ys))
  {
    ListGrows(name, Shared(xs, ys), " " + UNFINISHED);
    CallGrows(Tag(pid), time, name + "(" + Shared(xs, ys), " " + UNFINISHED);
    ConcatAssoc(Front(pid, time, name, xs, ys), " ", UNFINISHED);
  }

  lemma BegunRead(pid: nat, time: string, name: string, call: string, u: string, f: string)
    requires pid <= MAX_INT && IsClock(time) && EndsPlain(call) && Index(call, "(") == Some(|name|) && call[..|name|] == name
    requires u == Tag(pid) + (time + " " + call) && u == f + " " + UNFINISHED && EndsPlain(f) && OneMarker(u)
    ensures Unfinished(u) == Some((Key(pid, name), f))
  {
    MarkerAt(f, u);
    CutMarker(f, u);
    PrefixesRead(pid, time, call);
    UnfinishedBy(u, |f| + 1, pid, time + " " + call, call, name, f);
  }

  /** The line of an unfinished call is read as its process, its name, and the text in front of the marker. */
  lemma UnfinishedRead(pid: nat, time: string, name: string, xs: seq<string>, ys: seq<string>)
    requires pid <= MAX_INT && IsClock(time) && IsName(name) && AllArguments(xs)
    requires OneMarker(UnfinishedLine(pid, time, name, xs, ys))
    ensures Unfinished(UnfinishedLine(pid, time, name, xs, ys)) == Some((Key(pid, name), Front(pid, time, name, xs, ys)))
  {
    FrontEnds(pid, time, name, xs, ys);
    NameAt(name, "(" + Shared(xs, ys), " " + UNFINISHED);
    UnfinishedText(pid, time, name, xs, ys);
    BegunRead(pid, time, name, Begun(name, xs, ys), UnfinishedLine(pid, time, name, xs, ys), Front(pid, time, name, xs, ys));
  }

  lemma UnfinishedBy(u: string, m: nat, pid: int, rest: string, call: string, name: string, f: string)
    requires EndsPlain(u) && Index(u, UNFINISHED) == Some(m) && SplitPID(u) == (pid, rest) && StripTime(rest) == call
    requires Index(call, "(") == Some(|name|) && call[..|name|] == name
    requires TrimSpace(u[..m] + u[m + |UNFINISHED|..]) == f
    ensures Unfinished(u) == Some((Key(pid, name), f))
  {
    TrimNoop(u);
  }

  lemma MarkerAt(f: string, u: string)
    requires u == f + " " + UNFINISHED && OneMarker(u)
    ensures Index(u, UNFINISHED) == Some(|f| + 1)
  {
    assert u[..|u| - 1] == (f + " ") + UNFINISHED[..|UNFINISHED| - 1];
    IndexLast(f + " ", UNFINISHED);
  }

  lemma CutMarker(f: string, u: string)
    requires u == f + " " + UNFINISHED && EndsPlain(f)
    ensures TrimSpace(u[..|f| + 1] + u[|f| + 1 + |UNFINISHED|..]) == f
  {
    assert u[..|f| + 1] + u[|f| + 1 + |UNFINISHED|..] == f + " ";
    TrimNoop(f);
    TrimTrimmed(f);
    TrimBackSpace(f, " ");
  }

  lemma NameAt(name: string, list: string, tail: string)
    requires IsName(name) && list != "" && list[0] == '(' && tail != "" && !IsSpace(tail[|tail| - 1])
    ensures var call := name + list + tail;
            EndsPlain(call) && Index(call, "(") == Some(|name|) && call[..|name|] == name
  {
    assert forall k | 0 <= k < |name| :: name[k] != '(';
    CallFront(name, list, tail);
    var call := name + list + tail;
    assert call[0] == name[0] && call[|call| - 1] == tail[|tail| - 1];
  }

  /** Process id and time are taken off the front of a line. */
  lemma PrefixesRead(pid: nat, time: string, call: string)
    requires pid <= MAX_INT && IsClock(time) && EndsPlain(call)
    ensures var line := Tag(pid) + (time + " " + call);
            EndsPlain(line) && SplitPID(line) == (pid, time + " " + call) && StripTime(time + " " + call) == call
  {
    ClockRead(time);
    LineTrimmed(time, call);
    PidRead(pid, time + " " + call);
    TimeRead(time, call);
  }

  /** The text behind `resumed>` begins and ends with something else than white space, and is one line. */
  predicate IsRest(second: string) {
    EndsPlain(second) && '\n' !in second
  }

  /** Where the parts of a resumed call stand. */
  lemma ResumedParts(name: string, second: string)
    requires IsName(name) && IsRest(second)
    ensures var s, j := RESUMED + name + " resumed>" + second, 5 + |name|;
            && |s| == j + 9 + |second| && s[..4] == "<..." && s[4] == ' ' && s[5..j] == name && s[j] == ' '
            && s[j + 1..][..8] == "resumed>" && s[j + 1] == 'r' && s[j + 9..] == second && s[j + 9] == second[0]
            && forall k | 5 <= k < j :: s[k] == name[k - 5]
  {
    var s, j := RESUMED + name + " resumed>" + second, 5 + |name|;
    assert s[j + 1..] == "resumed>" + second;
  }

  lemma ResumedCallBy(s: string, j: nat, name: string, second: string)
    requires 5 < j && j + 9 < |s| && s[..4] == "<..." && s[5..j] == name && s[j + 1..][..8] == "resumed>" && s[j + 9..] == second
    requires Run(s, 4, IsReSpace) == 5 && Run(s, 5, IsWordChar) == j && Run(s, j, IsReSpace) == j + 1
    requires Run(s, j + 9, IsReSpace) == j + 9 && '\n' !in second
    ensures ResumedCall(s) == Some((name, second))
  {
  }

  lemma ResumedText(name: string, second: string)
    requires IsName(name) && IsRest(second)
    ensures ResumedCall(RESUMED + name + " resumed>" + second) == Some((name, second))
  {
    var s, j := RESUMED + name + " resumed>" + second, 5 + |name|;
    ResumedParts(name, second);
    RunIs(s, 4, 5, IsReSpace);
    RunIs(s, 5, j, IsWordChar);
    RunIs(s, j, j + 1, IsReSpace);
    RunIs(s, j + 9, j + 9, IsReSpace);
    ResumedCallBy(s, j, name, second);
  }

  lemma RestEnds(ys: seq<string>, part: string, d: Option<(string, string)>)
    requires AllArguments(ys) && EndsPlain(part)
    ensures EndsPlain(Rest(ys, part, d))
  {
    TimedEnds(part, d);
    if ys != [] { JoinEnds(ys); }
  }

  /** A resumed line is read as its process, its name, and the rest of the call. */
  lemma ResumedRead(pid: nat, time: string, name: string, ys: seq<string>, part: string, d: Option<(string, string)>)
    requires pid <= MAX_INT && IsClock(time) && IsName(name) && AllArguments(ys) && EndsPlain(part)
    requires '\n' !in Rest(ys, part, d)
    ensures Resumed(ResumedLine(pid, time, name, ys, part, d)) == Some((Key(pid, name), Rest(ys, part, d)))
  {
    var second := Rest(ys, part, d);
    var call := RESUMED + name + " resumed>" + second;
    RestEnds(ys, part, d);
    ResumedText(name, second);
    CallEnds(RESUMED + name + " resumed>", second);
    PrefixesRead(pid, time, call);
    ResumedBy(ResumedLine(pid, time, name, ys, part, d), pid, time + " " + call, call, name, second);
  }

  lemma CallEnds(a: string, b: string)
    requires a != "" && !IsSpace(a[0]) && EndsPlain(b)
    ensures EndsPlain(a + b)
  {
  }

  lemma ResumedBy(r: string, pid: int, rest: string, call: string, name: string, second: string)
    requires EndsPlain(r) && SplitPID(r) == (pid, rest) && StripTime(rest) == call && ResumedCall(call) == Some((name, second))
    ensures Resumed(r) == Some((Key(pid, name), second))
  {
    TrimNoop(r);
  }

  // ---------- The merged line ----------

  /** The arguments of a call read from its halves; a call without any shows one empty argument. */
  function HalvedArgs(xs: seq<string>, ys: seq<string>): seq<string> {
    if xs + ys == [] then [""] else xs + ys
  }

  /** The line the halves are merged into. */
  function MergedLine(
    pid: nat, time: string, name: string, xs: seq<string>, ys: seq<string>, part: string, d: Option<(string, string)>): string
  {
    Front(pid, time, name, xs, ys) + " " + Rest(ys, part, d)
  }

  lemma MergedText(
    pid: nat, time: string, name: string, xs: seq<string>, ys: seq<string>, part: string, d: Option<(string, string)>)
    requires AllArguments(xs) && AllArguments(ys) && EndsPlain(part)
    ensures var inner, tail := Shared(xs, ys) + " " + Join(ys, ", "), " = " + (part + Timed(d));
            MergedLine(pid, time, name, xs, ys, part, d) == Tag(pid) + (time + " " + (name + ("(" + inner + ")") + tail))
    ensures Merged(Front(pid, time, name, xs, ys), Rest(ys, part, d)) == MergedLine(pid, time, name, xs, ys, part, d)
  {
    var shared, joined, tail := Shared(xs, ys), Join(ys, ", "), " = " + (part + Timed(d));
    FrontEnds(pid, time, name, xs, ys);
    RestEnds(ys, part, d);
    MergedBy(Front(pid, time, name, xs, ys), Rest(ys, part, d));
    ConcatAssoc(Front(pid, time, name, xs, ys), " ", Rest(ys, part, d));
    CallGrows(Tag(pid), time, name + "(" + shared, " " + Rest(ys, part, d));
    CallText(name, shared, joined, tail);
  }

  lemma MergedBy(front: string, rest: string)
    requires EndsPlain(front) && EndsPlain(rest)
    ensures Merged(front, rest) == front + " " + rest
  {
    TrimNoop(rest);
    TrimNoop(front + " " + rest);
  }

  lemma CallText(name: string, shared: string, joined: string, tail: string)
    ensures (name + "(" + shared) + (" " + (joined + ")" + tail)) == name + ("(" + (shared + " " + joined) + ")") + tail
  {
  }

  lemma InnerRead(xs: seq<string>, ys: seq<string>, tail: string)
    requires AllArguments(xs) && AllArguments(ys)
    ensures ListRead("(" + (Shared(xs, ys) + " " + Join(ys, ", ")) + ")", HalvedArgs(xs, ys), tail)
  {
    var pre, post := MergedInner(xs, ys);
    assert AllArguments(xs + ys);
    PaddedArgs(xs + ys, pre, post);
    PaddedClose(xs + ys, pre, post, tail);
  }

  predicate ReadsPart(part: string, d: Option<(string, string)>) {
    EndsPlain(part) && IsDuration(d) &&
    (d.None? ==> part[|part| - 1] != '>' || '<' !in part || (|part| > 1 && !IsDigit(part[|part| - 2])))
  }

  /** The line merged from the halves is read with the process, the first half's time, and all of the call. */
  lemma MergedRead(
    pid: nat, time: string, name: string, xs: seq<string>, ys: seq<string>, part: string, d: Option<(string, string)>)
    requires pid <= MAX_INT && IsClock(time) && IsName(name) && AllArguments(xs) && AllArguments(ys) && ReadsPart(part, d)
    requires Whole(MergedLine(pid, time, name, xs, ys, part, d))
    ensures var (result, error) := ResultOf(part);
            ParseLine(MergedLine(pid, time, name, xs, ys, part, d)) ==
            Some(Event(pid, Some(time), Call(name, HalvedArgs(xs, ys), result, error, d)))
  {
    var inner, tail := Shared(xs, ys) + " " + Join(ys, ", "), " = " + (part + Timed(d));
    MergedText(pid, time, name, xs, ys, part, d);
    InnerRead(xs, ys, tail);
    ClockRead(time);
    TimedEnds(part, d);
    TailRead(part + Timed(d));
    TailEnds(part + Timed(d));
    EndedRead(name, HalvedArgs(xs, ys), part, d);
    LineMade(pid, time, name, "(" + inner + ")", HalvedArgs(xs, ys), tail);
  }

  lemma {:induction false} ContainsPart(a: string, sub: string, b: string)
    ensures Contains(a + sub + b, sub)
  {
    var s := a + sub + b;
    if a == "" {
      assert s[..|sub|] == sub;
    } else {
      assert s[1..] == a[1..] + sub + b;
      ContainsPart(a[1..], sub, b);
    }
  }

  lemma ResumedMarked(pid: nat, time: string, name: string, rest: string)
    ensures Contains(Tag(pid) + (time + " " + (RESUMED + name + " resumed>" + rest)), RESUMED)
  {
    var a, b := Tag(pid) + (time + " "), name + " resumed>" + rest;
    ContainsPart(a, RESUMED, b);
    assert Tag(pid) + (time + " " + (RESUMED + name + " resumed>" + rest)) == a + RESUMED + b;
  }

  // ---------- Both halves in a file ----------

  /** What the reader makes of two lines: the first waits under `key`, the second completes it to the event `e`. */
  predicate Halves(first: string, second: string, key: Key, front: string, rest: string, e: Event) {
    && first != "" && second != "" && Unfinished(first) == Some((key, front))
    && Unfinished(second) == None && Contains(second, RESUMED) && Resumed(second) == Some((key, rest))
    && ParseLine(Merged(front, rest)) == Some(e)
  }

  predicate Awaits(st: Reading, key: Key, front: string) {
    key in st.pending && st.pending[key] == front
  }

  lemma FirstRead(p: LineParser, st: Reading, first: string, key: Key, front: string)
    requires first != "" && p.unfinished(first) == Some((key, front))
    ensures ReadLine(p, st, first) == st.(pending := st.pending[key := front])
  {
  }

  lemma SecondRead(st: Reading, second: string, key: Key, front: string, rest: string, e: Event)
    requires second != "" && Unfinished(second) == None && Contains(second, RESUMED) && Resumed(second) == Some((key, rest))
    requires ParseLine(Merged(front, rest)) == Some(e) && Awaits(st, key, front)
    ensures ReadLine(STRACE, st, second) == st.(pending := st.pending - {key}, events := st.events + [e])
  {
  }

  lemma OtherRead(p: LineParser, st: Reading, line: string, key: Key, front: string)
    requires PidsKept(p) && Awaits(st, key, front) && p.pid(line) != key.pid
    ensures Awaits(ReadLine(p, st, line), key, front)
  {
    Effect(p, st, line);
  }

  /** The first half waits as long as only lines of other processes follow. */
  lemma {:induction false} StillAwaits(
    p: LineParser, st: Reading, first: string, between: seq<string>, key: Key, front: string)
    requires PidsKept(p) && first != "" && p.unfinished(first) == Some((key, front))
    requires forall k | 0 <= k < |between| :: p.pid(between[k]) != key.pid
    ensures Awaits(Read(p, st, [first] + between), key, front)
  {
    var lines := [first] + between;
    if between == [] {
      assert Init(lines) == [] && Last(lines) == first;
      FirstRead(p, st, first, key, front);
    } else {
      var n := |between| - 1;
      StillAwaits(p, st, first, between[..n], key, front);
      assert Init(lines) == [first] + between[..n] && Last(lines) == between[n];
      OtherRead(p, Read(p, st, Init(lines)), between[n], key, front);
    }
  }

  /** The second half adds the event of the whole call, whatever lines of other processes stand between the halves. */
  lemma HalvesInFile(
    st: Reading, first: string, between: seq<string>, second: string, key: Key, front: string, rest: string, e: Event)
    requires Halves(first, second, key, front, rest, e)
    requires forall k | 0 <= k < |between| :: PidOf(between[k]) != key.pid
    ensures var r := Read(STRACE, st, [first] + between);
            Read(STRACE, st, [first] + between + [second]) == r.(pending := r.pending - {key}, events := r.events + [e])
  {
    var lines := [first] + between + [second];
    assert Init(lines) == [first] + between && Last(lines) == second;
    StracePidsKept();
    StillAwaits(STRACE, st, first, between, key, front);
    SecondRead(Read(STRACE, st, [first] + between), second, key, front, rest, e);
  }

  /** What must not happen by accident: marks inside the arguments, and a line break in the second half. */
  predicate Unambiguous(
    pid: nat, time: string, later: string, name: string, xs: seq<string>, ys: seq<string>, part: string,
    d: Option<(string, string)>)
  {
    && OneMarker(UnfinishedLine(pid, time, name, xs, ys))
    && !Contains(ResumedLine(pid, later, name, ys, part, d), UNFINISHED) && '\n' !in Rest(ys, part, d)
    && Whole(MergedLine(pid, time, name, xs, ys, part, d))
  }

  lemma NotUnfinished(line: string)
    requires !Contains(line, UNFINISHED) && EndsPlain(line)
    ensures Unfinished(line) == None
  {
    TrimNoop(line);
  }

  lemma HalvesOf(
    pid: nat, time: string, later: string, name: string, xs: seq<string>, ys: seq<string>, part: string,
    d: Option<(string, string)>)
    requires pid <= MAX_INT && IsClock(time) && IsClock(later) && IsName(name) && AllArguments(xs) && AllArguments(ys)
    requires ReadsPart(part, d) && Unambiguous(pid, time, later, name, xs, ys, part, d)
    ensures var (result, error) := ResultOf(part);
            Halves(UnfinishedLine(pid, time, name, xs, ys), ResumedLine(pid, later, name, ys, part, d), Key(pid, name),
                   Front(pid, time, name, xs, ys), Rest(ys, part, d),
                   Event(pid, Some(time), Call(name, HalvedArgs(xs, ys), result, error, d)))
  {
    UnfinishedRead(pid, time, name, xs, ys);
    ResumedRead(pid, later, name, ys, part, d);
    ResumedMarked(pid, later, name, Rest(ys, part, d));
    ResumedEnds(pid, later, name, ys, part, d);
    NotUnfinished(ResumedLine(pid, later, name, ys, part, d));
    MergedText(pid, time, name, xs, ys, part, d);
    MergedRead(pid, time, name, xs, ys, part, d);
  }

  lemma ResumedEnds(pid: nat, time: string, name: string, ys: seq<string>, part: string, d: Option<(string, string)>)
    requires AllArguments(ys) && EndsPlain(part)
    ensures EndsPlain(ResumedLine(pid, time, name, ys, part, d))
  {
    RestEnds(ys, part, d);
    CallEnds(RESUMED + name + " resumed>", Rest(ys, part, d));
    assert Tag(pid)[0] == '[';
  }

  /** A failed call printed in two halves, as if it were printed whole. */
  lemma FailedHalves(
    pid: nat, time: string, later: string, name: string, xs: seq<string>, ys: seq<string>, error: string, note: string,
    d: Option<(string, string)>)
    requires pid <= MAX_INT && IsClock(time) && IsClock(later) && IsName(name) && AllArguments(xs) && AllArguments(ys)
    requires IsToken(error) && IsDuration(d) && Unambiguous(pid, time, later, name, xs, ys, Failure(error, note), d)
    ensures var part := Failure(error, note);
            Halves(UnfinishedLine(pid, time, name, xs, ys), ResumedLine(pid, later, name, ys, part, d), Key(pid, name),
                   Front(pid, time, name, xs, ys), Rest(ys, part, d),
                   Event(pid, Some(time), Call(name, HalvedArgs(xs, ys), "-1", error, d)))
  {
    FailureRead(error, note);
    FailureEnds(error, note);
    HalvesOf(pid, time, later, name, xs, ys, Failure(error, note), d);
  }

  /** Any other call printed in two halves. */
  lemma ResultHalves(
    pid: nat, time: string, later: string, name: string, xs: seq<string>, ys: seq<string>, r: string, note: string,
    d: Option<(string, string)>)
    requires pid <= MAX_INT && IsClock(time) && IsClock(later) && IsName(name) && AllArguments(xs) && AllArguments(ys)
    requires IsResult(r, note) && ReadsPart(r + note, d) && Unambiguous(pid, time, later, name, xs, ys, r + note, d)
    ensures Halves(UnfinishedLine(pid, time, name, xs, ys), ResumedLine(pid, later, name, ys, r + note, d), Key(pid, name),
                   Front(pid, time, name, xs, ys), Rest(ys, r + note, d),
                   Event(pid, Some(time), Call(name, HalvedArgs(xs, ys), r, "", d)))
  {
    ResultRead(r, note);
    HalvesOf(pid, time, later, name, xs, ys, r + note, d);
  }
}
