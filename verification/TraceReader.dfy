/**
 Reading a whole trace: unfinished calls wait in a map for the line that resumes them. The reader is written over
 a line parser; Strace is the one in TraceParser.
 */
module TraceReader {
  import opened Text
  import opened Numbers
  import opened TraceParser

  /** What the reader asks of a line: is it an unfinished call, does it resume one, which event is it. */
  datatype LineParser = LineParser(
    unfinished: string -> Option<(Key, string)>,
    resumes: string -> bool,
    resumed: string -> Option<(Key, string)>,
    merge: (string, string) -> string,
    event: string -> Option<Event>,
    pid: string -> int)

  const STRACE := LineParser(Unfinished, line => Contains(line, RESUMED), Resumed, Merged, ParseLine, PidOf)

  datatype Note = FileTooLarge | CapReached(max: nat) | SkippedPair

  /** The state of the reading loop and of the result it fills. */
  datatype Reading = Reading(
    pending: map<Key, string>, events: seq<Event>, partial: bool, skipped: nat, notes: seq<Note>, noted: bool)

  const EMPTY := Reading(map[], [], false, 0, [], false)

  function Skip(st: Reading): Reading {
    st.(partial := true, skipped := st.skipped + 1, noted := true,
        notes := if st.noted then st.notes else st.notes + [SkippedPair])
  }

  function Append(p: LineParser, st: Reading, text: string): Reading {
    match p.event(text)
    case None => st
    case Some(e) => st.(events := st.events + [e])
  }

  /** What one line does. */
  function ReadLine(p: LineParser, st: Reading, line: string): Reading {
    if line == "" then st
    else if p.unfinished(line).Some? then
      var (key, partial) := p.unfinished(line).value;
      st.(pending := st.pending[key := partial])
    else if p.resumes(line) then
      match p.resumed(line)
      case None => Skip(st)
      case Some((key, tail)) =>
        if key in st.pending then Append(p, st.(pending := st.pending - {key}), p.merge(st.pending[key], tail))
        else Skip(st)
    else Append(p, st, line)
  }

  function Init(lines: seq<string>): seq<string>
    requires lines != []
  {
    lines[..|lines| - 1]
  }

  function Last(lines: seq<string>): string
    requires lines != []
  {
    lines[|lines| - 1]
  }

  /** The loop over all lines, without regard to the cap. */
  function Read(p: LineParser, st: Reading, lines: seq<string>): Reading {
    if lines == [] then st else ReadLine(p, Read(p, st, Init(lines)), Last(lines))
  }

  /** The line at which the loop stops because enough events were read, or the number of lines. */
  function CapIndex(p: LineParser, st: Reading, lines: seq<string>, max: nat, i: nat): (k: nat)
    requires i <= |lines|
    ensures i <= k <= |lines|
    decreases |lines| - i
  {
    if i == |lines| || |Read(p, st, lines[..i]).events| >= max then i else CapIndex(p, st, lines, max, i + 1)
  }

  /** Calls still waiting at the end are skipped. */
  function Finish(st: Reading): Reading {
    if st.pending == map[] then st
    else
      st.(partial := true, skipped := st.skipped + |st.pending|,
          notes := if st.noted then st.notes else st.notes + [SkippedPair])
  }

  function ReadFile(p: LineParser, st: Reading, lines: seq<string>, max: nat): Reading {
    var k := CapIndex(p, st, lines, max, 0);
    var read := Read(p, st, lines[..k]);
    Finish(if k < |lines| then read.(partial := true, notes := read.notes + [CapReached(max)]) else read)
  }

  /** Joins a resumed call with the part of it that waits, which then waits no longer. */
  method MergeResumedTraceLine(p: LineParser, line: string, pending: map<Key, string>)
    returns (merged: Option<string>, left: map<Key, string>)
    ensures match p.resumed(line)
            case None => merged == None && left == pending
            case Some((key, tail)) =>
              if key in pending then merged == Some(p.merge(pending[key], tail)) && left == pending - {key}
              else merged == None && left == pending
  {
    var resumed := p.resumed(line);
    if resumed.None? {
      return None, pending;
    }
    var key := resumed.value.0;
    if key !in pending {
      return None, pending;
    }
    return Some(p.merge(pending[key], resumed.value.1)), pending - {key};
  }

  class TraceResult {
    var events: seq<Event>
    var partial: bool
    var skippedEvents: nat
    var notes: seq<Note>

    ghost function Start(oversized: bool): Reading
      reads this
    {
      Reading(map[], events, partial || oversized, skippedEvents,
              if oversized then notes + [FileTooLarge] else notes, false)
    }

    /** One line: a call is stored, completed or skipped, and an event is appended. */
    method TakeLine(p: LineParser, text: string, waiting: map<Key, string>, skippedBefore: bool)
      returns (pending: map<Key, string>, noted: bool)
      modifies this
      ensures Reading(pending, events, partial, skippedEvents, notes, noted) ==
              ReadLine(p, Reading(waiting, old(events), old(partial), old(skippedEvents), old(notes), skippedBefore), text)
    {
      pending, noted := waiting, skippedBefore;
      var line := text;
      if line == "" {
        return;
      }
      var unfinished := p.unfinished(line);
      if unfinished.Some? {
        pending := pending[unfinished.value.0 := unfinished.value.1];
        return;
      }
      if p.resumes(line) {
        var merged;
        merged, pending := MergeResumedTraceLine(p, line, pending);
        if merged.None? {
          partial := true;
          skippedEvents := skippedEvents + 1;
          if !noted {
            notes := notes + [SkippedPair];
            noted := true;
          }
          return;
        }
        line := merged.value;
      }
      var ev := p.event(line);
      if ev.Some? {
        events := events + [ev.value];
      }
    }

    /** Reads the lines of a trace file into this result. */
    method ReadTraceFile(p: LineParser, lines: seq<string>, oversized: bool, max: nat)
      modifies this
      ensures var end := ReadFile(p, old(Start(oversized)), lines, max);
              events == end.events && partial == end.partial && skippedEvents == end.skipped && notes == end.notes
    {
      ghost var start := Start(oversized);
      if oversized {
        partial := true;
        notes := notes + [FileTooLarge];
      }
      var pending: map<Key, string> := map[];
      var noted := false;
      var i := 0;
      while i < |lines|
        invariant i <= |lines|
        invariant Read(p, start, lines[..i]) == Reading(pending, events, partial, skippedEvents, notes, noted)
        invariant CapIndex(p, start, lines, max, 0) == CapIndex(p, start, lines, max, i)
      {
        if |events| >= max {
          partial := true;
          notes := notes + [CapReached(max)];
          break;
        }
        ReadNext(p, start, lines, i);
        pending, noted := TakeLine(p, lines[i], pending, noted);
        i := i + 1;
      }
      if pending != map[] {
        partial := true;
        skippedEvents := skippedEvents + |pending|;
        if !noted {
          notes := notes + [SkippedPair];
        }
      }
    }
  }

  lemma ReadNext(p: LineParser, st: Reading, lines: seq<string>, i: nat)
    requires i < |lines|
    ensures Read(p, st, lines[..i + 1]) == ReadLine(p, Read(p, st, lines[..i]), lines[i])
  {
    assert Init(lines[..i + 1]) == lines[..i] && Last(lines[..i + 1]) == lines[i];
  }

  // ---------- Interleaved processes ----------

  /** Every key and every event carries the process id of the line, or of both lines, it was read from. */
  ghost predicate PidsKept(p: LineParser) {
    && (forall line :: p.unfinished(line).Some? ==> p.unfinished(line).value.0.pid == p.pid(line))
    && (forall line :: p.resumed(line).Some? ==> p.resumed(line).value.0.pid == p.pid(line))
    && (forall line :: p.event(line).Some? ==> p.event(line).value.pid == p.pid(line))
    && (forall u, r :: p.unfinished(u).Some? && p.resumed(r).Some? &&
                       p.unfinished(u).value.0 == p.resumed(r).value.0 ==>
                         var e := p.event(p.merge(p.unfinished(u).value.1, p.resumed(r).value.1));
                         e.Some? ==> e.value.pid == p.pid(r))
  }

  /** The lines of one process, in order. */
  function Only(p: LineParser, lines: seq<string>, pid: int): seq<string> {
    if lines == [] then []
    else Only(p, Init(lines), pid) + if p.pid(Last(lines)) == pid then [Last(lines)] else []
  }

  function EventsOf(events: seq<Event>, pid: int): seq<Event> {
    if events == [] then []
    else EventsOf(events[..|events| - 1], pid) +
         if events[|events| - 1].pid == pid then [events[|events| - 1]] else []
  }

  /** What waits was stored by an unfinished line. */
  ghost predicate FromLines(p: LineParser, pending: map<Key, string>) {
    forall key | key in pending :: exists u :: p.unfinished(u) == Some((key, pending[key]))
  }

  /** What waits for a process is the same in both maps, and the second holds nothing else. */
  ghost predicate SameWaiting(all: map<Key, string>, alone: map<Key, string>, pid: int) {
    && (forall key: Key | key.pid == pid :: key in alone <==> key in all)
    && (forall key | key in alone :: key.pid == pid && alone[key] == all[key])
  }

  /** Reading one process's lines alone does to that process's part what reading all lines does. */
  ghost predicate Agrees(all: Reading, alone: Reading, pid: int) {
    SameWaiting(all.pending, alone.pending, pid) && EventsOf(all.events, pid) == alone.events
  }

  lemma EventsOfAppend(events: seq<Event>, e: Event, pid: int)
    ensures EventsOf(events + [e], pid) == EventsOf(events, pid) + if e.pid == pid then [e] else []
  {
    assert (events + [e])[..|events|] == events;
  }

  // A line's effect, part by part: on what waits, on the skips, on the events.

  function Waiting(p: LineParser, pending: map<Key, string>, line: string): map<Key, string> {
    if line == "" then pending
    else if p.unfinished(line).Some? then pending[p.unfinished(line).value.0 := p.unfinished(line).value.1]
    else if p.resumes(line) && p.resumed(line).Some? then pending - {p.resumed(line).value.0}
    else pending
  }

  predicate Unmatched(p: LineParser, pending: map<Key, string>, line: string) {
    line != "" && p.unfinished(line).None? && p.resumes(line) &&
    (p.resumed(line).None? || p.resumed(line).value.0 !in pending)
  }

  /** The event a line yields, if any: its own, or that of the call it completes. */
  function Yield(p: LineParser, pending: map<Key, string>, line: string): Option<Event> {
    if line == "" || p.unfinished(line).Some? || Unmatched(p, pending, line) then None
    else if p.resumes(line) then
      var (key, tail) := p.resumed(line).value;
      p.event(p.merge(pending[key], tail))
    else p.event(line)
  }

  lemma Effect(p: LineParser, st: Reading, line: string)
    ensures var next := ReadLine(p, st, line);
            && next.pending == Waiting(p, st.pending, line)
            && next.skipped == st.skipped + (if Unmatched(p, st.pending, line) then 1 else 0)
            && next.events == match Yield(p, st.pending, line) case None => st.events case Some(e) => st.events + [e]
  {
    if p.resumes(line) && p.resumed(line).Some? && p.resumed(line).value.0 !in st.pending {
      assert st.pending - {p.resumed(line).value.0} == st.pending;
    }
  }

  lemma YieldPid(p: LineParser, pending: map<Key, string>, line: string)
    requires PidsKept(p) && FromLines(p, pending)
    ensures Yield(p, pending, line).Some? ==> Yield(p, pending, line).value.pid == p.pid(line)
    ensures FromLines(p, Waiting(p, pending, line))
  {
    if line != "" && p.unfinished(line).None? && p.resumes(line) && p.resumed(line).Some? {
      var (key, tail) := p.resumed(line).value;
      if key in pending {
        var u :| p.unfinished(u) == Some((key, pending[key]));
      }
    }
  }

  lemma Resize(m: map<Key, string>, key: Key, value: string)
    ensures |m[key := value]| == |m| + (if key in m then 0 else 1)
    ensures |m - {key}| == |m| - (if key in m then 1 else 0)
  {
    assert m[key := value].Keys == m.Keys + {key};
    assert (m - {key}).Keys == m.Keys - {key};
  }

  lemma SameStore(all: map<Key, string>, alone: map<Key, string>, key: Key, value: string, pid: int)
    requires SameWaiting(all, alone, pid) && key.pid == pid
    ensures SameWaiting(all[key := value], alone[key := value], pid)
  {
  }

  lemma SameRemove(all: map<Key, string>, alone: map<Key, string>, key: Key, pid: int)
    requires SameWaiting(all, alone, pid) && key.pid == pid
    ensures SameWaiting(all - {key}, alone - {key}, pid)
  {
  }

  /** The key a line stores or asks for, if any, is one of this process. */
  predicate KeyedBy(p: LineParser, line: string, pid: int) {
    && (p.unfinished(line).Some? ==> p.unfinished(line).value.0.pid == pid)
    && (p.resumed(line).Some? ==> p.resumed(line).value.0.pid == pid)
  }

  /** A line of the process changes its part of both maps alike. */
  lemma WaitingSame(p: LineParser, all: map<Key, string>, alone: map<Key, string>, line: string, pid: int)
    requires KeyedBy(p, line, pid) && SameWaiting(all, alone, pid)
    ensures SameWaiting(Waiting(p, all, line), Waiting(p, alone, line), pid)
  {
    if line != "" && p.unfinished(line).Some? {
      SameStore(all, alone, p.unfinished(line).value.0, p.unfinished(line).value.1, pid);
    } else if p.resumed(line).Some? {
      SameRemove(all, alone, p.resumed(line).value.0, pid);
    }
  }

  /** The key a line stores or asks for, if any, waits in both maps or in neither. */
  predicate KnownAlike(p: LineParser, all: map<Key, string>, alone: map<Key, string>, line: string) {
    && (p.unfinished(line).Some? ==> (p.unfinished(line).value.0 in all <==> p.unfinished(line).value.0 in alone))
    && (p.resumed(line).Some? ==> (p.resumed(line).value.0 in all <==> p.resumed(line).value.0 in alone))
  }

  lemma WaitingKnown(p: LineParser, all: map<Key, string>, alone: map<Key, string>, line: string, pid: int)
    requires KeyedBy(p, line, pid) && SameWaiting(all, alone, pid)
    ensures KnownAlike(p, all, alone, line)
  {
  }

  /** By how much a line changes the number of calls waiting, when the key it names is known or not. */
  function Growth(p: LineParser, line: string, stored: bool, asked: bool): int {
    if line == "" then 0
    else if p.unfinished(line).Some? then (if stored then 0 else 1)
    else if p.resumes(line) && p.resumed(line).Some? && asked then -1
    else 0
  }

  lemma WaitingSize(p: LineParser, pending: map<Key, string>, line: string, stored: bool, asked: bool)
    requires p.unfinished(line).Some? ==> (stored <==> p.unfinished(line).value.0 in pending)
    requires p.resumed(line).Some? ==> (asked <==> p.resumed(line).value.0 in pending)
    ensures |Waiting(p, pending, line)| == |pending| + Growth(p, line, stored, asked)
  {
    if line != "" && p.unfinished(line).Some? {
      Resize(pending, p.unfinished(line).value.0, p.unfinished(line).value.1);
    } else if p.resumed(line).Some? {
      Resize(pending, p.resumed(line).value.0, "");
    }
  }

  lemma WaitingSizes(p: LineParser, all: map<Key, string>, alone: map<Key, string>, line: string)
    requires KnownAlike(p, all, alone, line)
    ensures |Waiting(p, all, line)| - |all| == |Waiting(p, alone, line)| - |alone|
  {
    var stored := p.unfinished(line).Some? && p.unfinished(line).value.0 in all;
    var asked := p.resumed(line).Some? && p.resumed(line).value.0 in all;
    WaitingSize(p, all, line, stored, asked);
    WaitingSize(p, alone, line, stored, asked);
  }

  lemma YieldSame(p: LineParser, all: map<Key, string>, alone: map<Key, string>, line: string, pid: int)
    requires PidsKept(p) && SameWaiting(all, alone, pid) && p.pid(line) == pid
    ensures Unmatched(p, all, line) == Unmatched(p, alone, line)
    ensures Yield(p, all, line) == Yield(p, alone, line)
  {
  }

  /** A line of another process leaves this process's part of the map alone. */
  lemma WaitingOther(p: LineParser, all: map<Key, string>, alone: map<Key, string>, line: string, pid: int)
    requires PidsKept(p) && SameWaiting(all, alone, pid) && p.pid(line) != pid
    ensures SameWaiting(Waiting(p, all, line), alone, pid)
  {
  }

  lemma SameProcess(p: LineParser, all: Reading, alone: Reading, line: string, pid: int)
    requires PidsKept(p) && FromLines(p, all.pending) && Agrees(all, alone, pid) && p.pid(line) == pid
    ensures Agrees(ReadLine(p, all, line), ReadLine(p, alone, line), pid)
    ensures Skips(ReadLine(p, all, line)) - Skips(all) == Skips(ReadLine(p, alone, line)) - Skips(alone)
  {
    Effect(p, all, line);
    Effect(p, alone, line);
    YieldPid(p, all.pending, line);
    WaitingSame(p, all.pending, alone.pending, line, pid);
    WaitingKnown(p, all.pending, alone.pending, line, pid);
    WaitingSizes(p, all.pending, alone.pending, line);
    YieldSame(p, all.pending, alone.pending, line, pid);
    if Yield(p, all.pending, line).Some? {
      EventsOfAppend(all.events, Yield(p, all.pending, line).value, pid);
    }
  }

  lemma OtherProcess(p: LineParser, all: Reading, alone: Reading, line: string, pid: int)
    requires PidsKept(p) && FromLines(p, all.pending) && Agrees(all, alone, pid) && p.pid(line) != pid
    ensures Agrees(ReadLine(p, all, line), alone, pid)
  {
    Effect(p, all, line);
    YieldPid(p, all.pending, line);
    WaitingOther(p, all.pending, alone.pending, line, pid);
    if Yield(p, all.pending, line).Some? {
      EventsOfAppend(all.events, Yield(p, all.pending, line).value, pid);
    }
  }

  /** Calls skipped so far, those still waiting included. */
  function Skips(st: Reading): nat {
    st.skipped + |st.pending|
  }

  lemma {:induction false} ReadFromLines(p: LineParser, lines: seq<string>)
    requires PidsKept(p)
    ensures FromLines(p, Read(p, EMPTY, lines).pending)
  {
    if lines != [] {
      ReadFromLines(p, Init(lines));
      Effect(p, Read(p, EMPTY, Init(lines)), Last(lines));
      YieldPid(p, Read(p, EMPTY, Init(lines)).pending, Last(lines));
    }
  }

  lemma OnlyStep(p: LineParser, lines: seq<string>, pid: int)
    requires lines != []
    ensures Read(p, EMPTY, Only(p, lines, pid)) ==
            var alone := Read(p, EMPTY, Only(p, Init(lines), pid));
            if p.pid(Last(lines)) == pid then ReadLine(p, alone, Last(lines)) else alone
  {
    var before := Only(p, Init(lines), pid);
    if p.pid(Last(lines)) == pid {
      assert Init(before + [Last(lines)]) == before;
    } else {
      assert before + [] == before;
    }
  }

  lemma {:induction false} ReadsAlone(p: LineParser, lines: seq<string>, pid: int)
    requires PidsKept(p)
    ensures Agrees(Read(p, EMPTY, lines), Read(p, EMPTY, Only(p, lines, pid)), pid)
  {
    if lines != [] {
      var before, line := Init(lines), Last(lines);
      ReadsAlone(p, before, pid);
      OnlyStep(p, lines, pid);
      ReadFromLines(p, before);
      if p.pid(line) == pid {
        SameProcess(p, Read(p, EMPTY, before), Read(p, EMPTY, Only(p, before, pid)), line, pid);
      } else {
        OtherProcess(p, Read(p, EMPTY, before), Read(p, EMPTY, Only(p, before, pid)), line, pid);
      }
    }
  }

  // ---------- Whole files ----------

  lemma {:induction false} EventsGrow(p: LineParser, lines: seq<string>, k: nat)
    requires k <= |lines|
    ensures |Read(p, EMPTY, lines[..k]).events| <= |Read(p, EMPTY, lines).events|
  {
    if k < |lines| {
      assert Init(lines)[..k] == lines[..k];
      EventsGrow(p, Init(lines), k);
      Effect(p, Read(p, EMPTY, Init(lines)), Last(lines));
    } else {
      assert lines[..k] == lines;
    }
  }

  lemma {:induction false} CapNotReached(p: LineParser, lines: seq<string>, max: nat, i: nat)
    requires i <= |lines| && |Read(p, EMPTY, lines).events| < max
    ensures CapIndex(p, EMPTY, lines, max, i) == |lines|
    decreases |lines| - i
  {
    if i < |lines| {
      EventsGrow(p, lines, i);
      CapNotReached(p, lines, max, i + 1);
    }
  }

  /** Below the cap a file is read to its end. */
  lemma BelowCap(p: LineParser, lines: seq<string>, max: nat)
    requires |Read(p, EMPTY, lines).events| < max
    ensures ReadFile(p, EMPTY, lines, max) == Finish(Read(p, EMPTY, lines))
    ensures ReadFile(p, EMPTY, lines, max).skipped == Skips(Read(p, EMPTY, lines))
  {
    CapNotReached(p, lines, max, 0);
    assert lines[..|lines|] == lines;
  }

  lemma {:induction false} EventsOfShorter(events: seq<Event>, pid: int)
    ensures |EventsOf(events, pid)| <= |events|
  {
    if events != [] {
      EventsOfShorter(events[..|events| - 1], pid);
    }
  }

  /**
   Below the event cap, whatever the interleaving of processes: reading the whole file and keeping one process's
   events gives exactly what reading that process's lines alone gives.
   */
  lemma ReadsApart(p: LineParser, lines: seq<string>, pid: int, max: nat)
    requires PidsKept(p) && |Read(p, EMPTY, lines).events| < max
    ensures EventsOf(ReadFile(p, EMPTY, lines, max).events, pid) == ReadFile(p, EMPTY, Only(p, lines, pid), max).events
  {
    ReadsAlone(p, lines, pid);
    EventsOfShorter(Read(p, EMPTY, lines).events, pid);
    BelowCap(p, lines, max);
    BelowCap(p, Only(p, lines, pid), max);
  }

  /** The skips of the listed processes, each read alone. */
  function SkipSum(p: LineParser, lines: seq<string>, pids: seq<int>): nat {
    if pids == [] then 0
    else Skips(Read(p, EMPTY, Only(p, lines, pids[0]))) + SkipSum(p, lines, pids[1..])
  }

  predicate Distinct(pids: seq<int>) {
    forall i, j | 0 <= i < j < |pids| :: pids[i] != pids[j]
  }

  predicate Covers(p: LineParser, pids: seq<int>, lines: seq<string>) {
    forall i | 0 <= i < |lines| :: p.pid(lines[i]) in pids
  }

  /** One more line changes the skips of its own process only, and by as much as those of the whole. */
  lemma {:induction false} SkipSumStep(p: LineParser, lines: seq<string>, pids: seq<int>)
    requires PidsKept(p) && lines != [] && Distinct(pids)
    ensures SkipSum(p, lines, pids) - SkipSum(p, Init(lines), pids) ==
            if p.pid(Last(lines)) in pids
            then Skips(Read(p, EMPTY, lines)) as int - Skips(Read(p, EMPTY, Init(lines))) else 0
  {
    if pids != [] {
      var before, pid := Init(lines), pids[0];
      SkipSumStep(p, lines, pids[1..]);
      OnlyStep(p, lines, pid);
      if p.pid(Last(lines)) == pid {
        ReadsAlone(p, before, pid);
        ReadFromLines(p, before);
        SameProcess(p, Read(p, EMPTY, before), Read(p, EMPTY, Only(p, before, pid)), Last(lines), pid);
        assert pid !in pids[1..];
      }
    }
  }

  lemma {:induction false} SkipSumEmpty(p: LineParser, pids: seq<int>)
    ensures SkipSum(p, [], pids) == 0
  {
    if pids != [] {
      SkipSumEmpty(p, pids[1..]);
    }
  }

  /** Skip counts add up over the processes. */
  lemma {:induction false} SkipsAddUp(p: LineParser, lines: seq<string>, pids: seq<int>)
    requires PidsKept(p) && Distinct(pids) && Covers(p, pids, lines)
    ensures Skips(Read(p, EMPTY, lines)) == SkipSum(p, lines, pids)
  {
    if lines == [] {
      SkipSumEmpty(p, pids);
    } else {
      assert Covers(p, pids, Init(lines));
      assert p.pid(lines[|lines| - 1]) in pids;
      SkipsAddUp(p, Init(lines), pids);
      SkipSumStep(p, lines, pids);
    }
  }

  // ---------- Accounting ----------

  /** Unfinished calls stored, merged with their completion, and overwritten by a later one with the same key. */
  datatype Counts = Counts(stored: nat, merged: nat, overwritten: nat)

  function Count(p: LineParser, lines: seq<string>): Counts {
    if lines == [] then Counts(0, 0, 0)
    else
      var c, waiting, line := Count(p, Init(lines)), Read(p, EMPTY, Init(lines)).pending, Last(lines);
      if line == "" then c
      else if p.unfinished(line).Some? then
        Counts(c.stored + 1, c.merged, c.overwritten + if p.unfinished(line).value.0 in waiting then 1 else 0)
      else if p.resumes(line) && !Unmatched(p, waiting, line) then c.(merged := c.merged + 1)
      else c
  }

  /** Every stored call is merged, overwritten, or still waiting. */
  lemma {:induction false} StoredAccounted(p: LineParser, lines: seq<string>)
    ensures var c := Count(p, lines); c.stored == c.merged + c.overwritten + |Read(p, EMPTY, lines).pending|
  {
    if lines != [] {
      var before, line := Read(p, EMPTY, Init(lines)), Last(lines);
      StoredAccounted(p, Init(lines));
      Effect(p, before, line);
      if p.unfinished(line).Some? {
        Resize(before.pending, p.unfinished(line).value.0, p.unfinished(line).value.1);
      } else if p.resumed(line).Some? {
        Resize(before.pending, p.resumed(line).value.0, "");
      }
    }
  }

  /** The result of a file below the cap is partial exactly when a call was skipped. */
  lemma {:induction false} PartialIffSkipped(p: LineParser, lines: seq<string>)
    ensures Finish(Read(p, EMPTY, lines)).partial <==> Skips(Read(p, EMPTY, lines)) > 0
    ensures Read(p, EMPTY, lines).partial <==> Read(p, EMPTY, lines).skipped > 0
  {
    if lines != [] {
      PartialIffSkipped(p, Init(lines));
    }
  }
}
