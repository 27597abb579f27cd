/**
 A scan and its delivery to the terminal interface: collectors run concurrently and emit progress events into a
 bounded channel, the scan returns when all have reported, and the interface reads events until the scan is done.
 */
module Delivery {
  import opened Text

  const CAPACITY := 256

  // ---------- Collector results ----------

  datatype Status = Unset | OK | Partial | Failed | Timeout

  datatype CollectorResult = CollectorResult(name: string, status: Status, notes: seq<string>, partial: bool, timeoutMs: nat)

  /** The error of a collector: one of the two context errors, or its own. */
  datatype Error = DeadlineExceeded | Canceled | Other(text: string)

  function ErrorText(e: Error): string {
    match e
    case DeadlineExceeded => "context deadline exceeded"
    case Canceled => "context canceled"
    case Other(text) => text
  }

  function AppendUnique(notes: seq<string>, note: string): seq<string> {
    if note == "" || note in notes then notes else notes + [note]
  }

  function Named(r: CollectorResult, name: string): CollectorResult {
    if r.name == "" then r.(name := name) else r
  }

  /** `timeout` is in nanoseconds, zero for none. */
  function TimeoutResult(name: string, timeout: nat, err: Option<Error>, partial: Option<CollectorResult>): CollectorResult {
    var base := match partial case None => CollectorResult(name, Unset, [], false, 0) case Some(p) => Named(p, name);
    base.(status := Timeout, partial := true,
          timeoutMs := if timeout > 0 then timeout / 1_000_000 else base.timeoutMs,
          notes := match err case None => base.notes case Some(e) => AppendUnique(base.notes, ErrorText(e)))
  }

  /** What becomes of a collector's result and error once it has returned. */
  function FinalizeResult(name: string, timeout: nat, ctxErr: Option<Error>, result: CollectorResult, err: Option<Error>)
    : CollectorResult
  {
    var res := Named(result, name);
    match err
    case None => if res.status == Unset then res.(status := OK) else res
    case Some(e) =>
      if ctxErr.Some? && !e.Other? then TimeoutResult(name, timeout, ctxErr, Some(res))
      else res.(status := Failed, notes := AppendUnique(res.notes, ErrorText(e)), partial := true)
  }

  /** Every way `runOne` ends: cancelled before it starts, finished in time or in the grace period, or given up on. */
  datatype Ending =
    | CancelledBefore(ctxErr: Error)
    | Returned(ctx: Option<Error>, result: CollectorResult, err: Option<Error>)
    | GivenUp(ctxErr: Error)

  function RunOne(name: string, timeout: nat, end: Ending): CollectorResult {
    match end
    case CancelledBefore(ctxErr) => TimeoutResult(name, timeout, Some(ctxErr), None)
    case Returned(ctx, result, err) => FinalizeResult(name, timeout, ctx, result, err)
    case GivenUp(ctxErr) => TimeoutResult(name, timeout, Some(ctxErr), None)
  }

  /** The notes gained this text, unless it is empty or was among them. */
  predicate Noted(before: seq<string>, text: string, after: seq<string>) {
    if text == "" || text in before then after == before
    else |after| == |before| + 1 && after[..|before|] == before && after[|before|] == text
  }

  /** A timeout is partial, tells the limit in milliseconds, and notes the error of the context. */
  predicate TimedOut(r: CollectorResult, timeout: nat, ctxErr: Error, notes: seq<string>) {
    && r.status == Timeout && r.partial && (timeout > 0 ==> r.timeoutMs * 1_000_000 <= timeout < (r.timeoutMs + 1) * 1_000_000)
    && (ctxErr == DeadlineExceeded ==> Noted(notes, "context deadline exceeded", r.notes))
    && (ctxErr == Canceled ==> Noted(notes, "context canceled", r.notes))
  }

  /**
   A collector that is cancelled or given up on has timed out. One that returns without an error keeps its result, with
   status OK if it set none. One that returns an error has timed out if its context was done and the error is one of the
   context's, and has failed otherwise. Notes are never lost, and the name is the collector's own or the registered one.
   */
  lemma ResultShape(name: string, timeout: nat, end: Ending)
    ensures var r := RunOne(name, timeout, end);
            match end
            case CancelledBefore(e) => r.name == name && TimedOut(r, timeout, e, [])
            case GivenUp(e) => r.name == name && TimedOut(r, timeout, e, [])
            case Returned(ctx, result, err) =>
              && r.name == (if result.name == "" then name else result.name)
              && (err == None ==>
                    && r.status == (if result.status == Unset then OK else result.status)
                    && (r.notes, r.partial, r.timeoutMs) == (result.notes, result.partial, result.timeoutMs))
              && (ctx.Some? && (err == Some(DeadlineExceeded) || err == Some(Canceled)) ==>
                    TimedOut(r, timeout, ctx.value, result.notes) && (timeout == 0 ==> r.timeoutMs == result.timeoutMs))
              && (err.Some? && (ctx.None? || err.value.Other?) ==>
                    && r.status == Failed && r.partial && r.timeoutMs == result.timeoutMs
                    && Noted(result.notes, ErrorText(err.value), r.notes))
  {
  }

  // ---------- The machine ----------

  datatype Event = Note(text: string) | Started(i: nat) | Done(i: nat, result: CollectorResult)

  /** What is fixed for a scan: the events before and after the collectors run, and what each collector will report. */
  datatype Scan = Scan(before: seq<string>, results: seq<CollectorResult>, after: seq<string>)

  datatype CollectorPc = Unstarted | Running | HasResult | Reported | Sent

  /** The scanning goroutine; a number counts the events emitted or the results received. */
  datatype MainPc = Opening(k: nat) | Collecting(received: nat) | Closing(k: nat) | ScanReturned | SinkClosed | SessionDone

  /** The interface: waiting in `nextEvent`, past the done signal, holding a message, or through. */
  datatype UiPc = Reading | SawDone | Holding(e: Event) | Through

  datatype State = State(
    main: MainPc, collectors: seq<CollectorPc>, queue: seq<nat>, slots: seq<Option<CollectorResult>>, writes: seq<nat>,
    buffer: seq<Event>, emitted: seq<Event>, byCollectors: seq<Event>, ui: UiPc, events: seq<Event>)

  /** `done` makes the interface follow the done signal first when both of its channels are ready. */
  datatype Action = MainStep | CollectorStep(i: nat) | UiStep(done: bool)

  function Start(scan: Scan): State {
    var n := |scan.results|;
    State(Opening(0), seq(n, _ => Unstarted), [], seq(n, _ => None), seq(n, _ => 0), [], [], [], Reading, [])
  }

  predicate SinkOpen(s: State) {
    !s.main.SinkClosed? && !s.main.SessionDone?
  }

  /** An emission can go ahead: there is room in the channel, or the sink is closed and the event is dropped. */
  predicate CanEmit(s: State) {
    !SinkOpen(s) || |s.buffer| < CAPACITY
  }

  function Emit(s: State, e: Event): State {
    s.(emitted := s.emitted + [e],
       byCollectors := if e.Note? then s.byCollectors else s.byCollectors + [e],
       buffer := if SinkOpen(s) then s.buffer + [e] else s.buffer)
  }

  function MainNext(scan: Scan, s: State): State {
    match s.main
    case Opening(k) =>
      if k < |scan.before| then (if CanEmit(s) then Emit(s, Note(scan.before[k])).(main := Opening(k + 1)) else s)
      else s.(main := Collecting(0))
    case Collecting(received) =>
      if received == |scan.results| then s.(main := Closing(0))
      else if s.queue == [] then s
      else
        var i := s.queue[0];
        if i < |s.slots| && i < |scan.results| && i < |s.writes| then
          s.(queue := s.queue[1..], slots := s.slots[i := Some(scan.results[i])], writes := s.writes[i := s.writes[i] + 1],
             main := Collecting(received + 1))
        else s
    case Closing(k) =>
      if k < |scan.after| then (if CanEmit(s) then Emit(s, Note(scan.after[k])).(main := Closing(k + 1)) else s)
      else s.(main := ScanReturned)
    case ScanReturned => s.(main := SinkClosed)
    case SinkClosed => s.(main := SessionDone)
    case SessionDone => s
  }

  /** Collectors run once the scanning goroutine has started them. */
  function CollectorNext(scan: Scan, s: State, i: nat): State {
    if s.main.Opening? || i >= |s.collectors| || i >= |scan.results| then s
    else
      match s.collectors[i]
      case Unstarted => if CanEmit(s) then Emit(s, Started(i)).(collectors := s.collectors[i := Running]) else s
      case Running => s.(collectors := s.collectors[i := HasResult])
      case HasResult =>
        if CanEmit(s) then Emit(s, Done(i, scan.results[i])).(collectors := s.collectors[i := Reported]) else s
      case Reported => s.(collectors := s.collectors[i := Sent], queue := s.queue + [i])
      case Sent => s
  }

  function UiNext(s: State, done: bool): State {
    match s.ui
    case Reading =>
      if s.main.SessionDone? && (done || s.buffer == []) then s.(ui := SawDone)
      else if s.buffer != [] then s.(buffer := s.buffer[1..], ui := Holding(s.buffer[0]))
      else s
    case SawDone =>
      if s.buffer != [] then s.(buffer := s.buffer[1..], ui := Holding(s.buffer[0])) else s.(ui := Through)
    case Holding(e) => s.(events := s.events + [e], ui := Reading)
    case Through => s
  }

  function Next(scan: Scan, s: State, a: Action): State {
    match a
    case MainStep => MainNext(scan, s)
    case CollectorStep(i) => CollectorNext(scan, s, i)
    case UiStep(done) => UiNext(s, done)
  }

  function After(scan: Scan, actions: seq<Action>): State {
    if actions == [] then Start(scan) else Next(scan, After(scan, actions[..|actions| - 1]), actions[|actions| - 1])
  }

  // ---------- What every step keeps ----------

  function Notes(texts: seq<string>): (es: seq<Event>)
    ensures |es| == |texts|
  {
    seq(|texts|, k requires 0 <= k < |texts| => Note(texts[k]))
  }

  predicate Of(e: Event, i: nat) {
    match e
    case Note(_) => false
    case Started(j) => i == j
    case Done(j, _) => i == j
  }

  /** The events of collector `i`, in order. */
  function Own(es: seq<Event>, i: nat): seq<Event> {
    if es == [] then []
    else Own(es[..|es| - 1], i) + if Of(es[|es| - 1], i) then [es[|es| - 1]] else []
  }

  /** What collector `i` has emitted by where it stands. */
  function Expected(scan: Scan, pc: CollectorPc, i: nat): seq<Event>
    requires i < |scan.results|
  {
    match pc
    case Unstarted => []
    case Running => [Started(i)]
    case HasResult => [Started(i)]
    case Reported => [Started(i), Done(i, scan.results[i])]
    case Sent => [Started(i), Done(i, scan.results[i])]
  }

  /** The events the scanning goroutine emitted before and after those of the collectors. */
  function Head(scan: Scan, main: MainPc): seq<Event> {
    match main
    case Opening(k) => if k <= |scan.before| then Notes(scan.before[..k]) else []
    case _ => Notes(scan.before)
  }

  function Tail(scan: Scan, main: MainPc): seq<Event> {
    match main
    case Opening(_) => []
    case Collecting(_) => []
    case Closing(k) => if k <= |scan.after| then Notes(scan.after[..k]) else []
    case _ => Notes(scan.after)
  }

  function Sum(ws: seq<nat>): nat {
    if ws == [] then 0 else ws[0] + Sum(ws[1..])
  }

  function InFlight(ui: UiPc): seq<Event> {
    if ui.Holding? then [ui.e] else []
  }

  predicate NoRepeats(q: seq<nat>) {
    forall j, k | 0 <= j < k < |q| :: q[j] != q[k]
  }

  /** The collectors, the channel of their results, and the slots those are written to. */
  datatype Board = Board(
    collectors: seq<CollectorPc>, queue: seq<nat>, slots: seq<Option<CollectorResult>>, writes: seq<nat>)

  function BoardOf(s: State): Board {
    Board(s.collectors, s.queue, s.slots, s.writes)
  }

  predicate Sized(n: nat, b: Board) {
    |b.collectors| == n && |b.slots| == n && |b.writes| == n && forall k | 0 <= k < |b.queue| :: b.queue[k] < n
  }

  /** A slot is written once, with its own collector's result, after that collector has sent it. */
  predicate Slots(results: seq<CollectorResult>, b: Board) {
    && Sized(|results|, b) && NoRepeats(b.queue)
    && (forall i | 0 <= i < |results| :: b.writes[i] == 0 || b.writes[i] == 1)
    && (forall i | 0 <= i < |results| :: b.slots[i] == if b.writes[i] == 1 then Some(results[i]) else None)
    && (forall i | 0 <= i < |results| :: i in b.queue <==> b.collectors[i].Sent? && b.writes[i] == 0)
    && (forall i | 0 <= i < |results| :: b.writes[i] == 1 ==> b.collectors[i].Sent?)
  }

  /** How far the scanning goroutine is tells how many results were received. */
  predicate Counted(main: MainPc, b: Board) {
    && (main.Opening? ==> Sum(b.writes) == 0 && forall i | 0 <= i < |b.collectors| :: b.collectors[i].Unstarted?)
    && (main.Collecting? ==> main.received == Sum(b.writes))
    && (!main.Opening? && !main.Collecting? ==> Sum(b.writes) == |b.writes|)
  }

  /** Every collector event is of some collector, and each collector has emitted what its position says. */
  predicate Told(scan: Scan, collectors: seq<CollectorPc>, es: seq<Event>) {
    && |collectors| == |scan.results|
    && (forall i | 0 <= i < |collectors| :: Own(es, i) == Expected(scan, collectors[i], i))
    && (forall k | 0 <= k < |es| :: OfSome(es[k], |collectors|))
  }

  predicate OfSome(e: Event, n: nat) {
    !e.Note? && e.i < n
  }

  /** What was emitted: the notes of the scanning goroutine around the events of the collectors. */
  predicate Emitted(scan: Scan, main: MainPc, emitted: seq<Event>, es: seq<Event>) {
    && (main.Opening? ==> main.k <= |scan.before| && es == [])
    && (main.Closing? ==> main.k <= |scan.after|)
    && emitted == Head(scan, main) + es + Tail(scan, main)
  }

  /** Nothing is lost, repeated or reordered on the way to the interface, and the interface is not through too early. */
  predicate Delivered(main: MainPc, buffer: seq<Event>, emitted: seq<Event>, ui: UiPc, events: seq<Event>) {
    && events + InFlight(ui) + buffer == emitted
    && |buffer| <= CAPACITY
    && (ui.SawDone? || ui.Through? ==> main.SessionDone?)
    && (ui.Through? ==> buffer == [])
  }

  predicate Invariant(scan: Scan, s: State) {
    && Slots(scan.results, BoardOf(s)) && Counted(s.main, BoardOf(s))
    && Told(scan, s.collectors, s.byCollectors)
    && Emitted(scan, s.main, s.emitted, s.byCollectors)
    && Delivered(s.main, s.buffer, s.emitted, s.ui, s.events)
  }

  lemma {:induction false} SumBound(ws: seq<nat>)
    requires forall k | 0 <= k < |ws| :: ws[k] <= 1
    ensures Sum(ws) <= |ws|
    ensures Sum(ws) == |ws| ==> forall k | 0 <= k < |ws| :: ws[k] == 1
  {
    if ws != [] {
      SumBound(ws[1..]);
      assert forall k | 1 <= k < |ws| :: ws[k] == ws[1..][k - 1];
    }
  }

  lemma {:induction false} SumUpdate(ws: seq<nat>, i: nat)
    requires i < |ws|
    ensures Sum(ws[i := ws[i] + 1]) == Sum(ws) + 1
  {
    if i == 0 {
      assert ws[0 := ws[0] + 1][1..] == ws[1..];
    } else {
      SumUpdate(ws[1..], i - 1);
      assert ws[i := ws[i] + 1][1..] == ws[1..][i - 1 := ws[i] + 1];
    }
  }

  lemma {:induction false} SumZero(ws: seq<nat>)
    requires forall k | 0 <= k < |ws| :: ws[k] == 0
    ensures Sum(ws) == 0
  {
    if ws != [] {
      SumZero(ws[1..]);
    }
  }

  /** Once all results are in, every collector is through. */
  lemma AllSent(results: seq<CollectorResult>, main: MainPc, b: Board)
    requires Slots(results, b) && Counted(main, b) && !main.Opening? && !main.Collecting?
    ensures forall i | 0 <= i < |results| :: b.collectors[i].Sent?
    ensures forall i | 0 <= i < |results| :: b.writes[i] == 1
    ensures forall i | 0 <= i < |results| :: b.slots[i] == Some(results[i])
  {
    SumBound(b.writes);
  }

  lemma StartBoard(scan: Scan)
    ensures var s := Start(scan); Slots(scan.results, BoardOf(s)) && Counted(s.main, BoardOf(s))
  {
    SumZero(Start(scan).writes);
  }

  lemma StartKeeps(scan: Scan)
    ensures Invariant(scan, Start(scan))
  {
    StartBoard(scan);
    assert Notes(scan.before[..0]) == [];
  }

  lemma UiDelivers(s: State, done: bool)
    requires Delivered(s.main, s.buffer, s.emitted, s.ui, s.events)
    ensures var t := UiNext(s, done); Delivered(s.main, t.buffer, s.emitted, t.ui, t.events)
  {
    match s.ui
    case Reading =>
    case SawDone =>
    case Holding(e) => assert s.events + [e] + [] == s.events + [e];
    case Through =>
  }

  lemma UiLeaves(s: State, done: bool)
    ensures var t := UiNext(s, done);
            t.main == s.main && t.emitted == s.emitted && t.byCollectors == s.byCollectors && BoardOf(t) == BoardOf(s)
  {
  }

  lemma UiKeeps(scan: Scan, s: State, done: bool)
    requires Invariant(scan, s)
    ensures Invariant(scan, UiNext(s, done))
  {
    UiDelivers(s, done);
    UiLeaves(s, done);
  }

  /** An emission while the sink is open is delivered in order. */
  lemma EmitDelivers(s: State, e: Event)
    requires Delivered(s.main, s.buffer, s.emitted, s.ui, s.events) && SinkOpen(s) && CanEmit(s)
    ensures var t := Emit(s, e); Delivered(t.main, t.buffer, t.emitted, t.ui, t.events)
  {
    ConcatAssoc(s.events + InFlight(s.ui), s.buffer, [e]);
  }

  lemma NoteKeeps(scan: Scan, s: State, k: nat, texts: seq<string>)
    requires Invariant(scan, s) && CanEmit(s) && k < |texts|
    requires (s.main == Opening(k) && texts == scan.before) || (s.main == Closing(k) && texts == scan.after)
    ensures Invariant(scan, Emit(s, Note(texts[k])).(main := if s.main.Opening? then Opening(k + 1) else Closing(k + 1)))
  {
    var e := Note(texts[k]);
    EmitDelivers(s, e);
    if s.main.Opening? {
      assert Head(scan, s.main) + [] + [] == Head(scan, s.main);
      assert Head(scan, Opening(k + 1)) == Head(scan, s.main) + [e];
    } else {
      ConcatAssoc(Head(scan, s.main) + s.byCollectors, Tail(scan, s.main), [e]);
    }
  }

  lemma ReceiveKeeps(results: seq<CollectorResult>, b: Board)
    requires Slots(results, b) && b.queue != []
    ensures var i := b.queue[0];
            var c := Board(b.collectors, b.queue[1..], b.slots[i := Some(results[i])], b.writes[i := b.writes[i] + 1]);
            Slots(results, c) && Sum(c.writes) == Sum(b.writes) + 1
  {
    var i := b.queue[0];
    assert i in b.queue;
    SumUpdate(b.writes, i);
    assert b.queue == [i] + b.queue[1..];
    forall j | 0 <= j < |results| ensures j in b.queue[1..] <==> j in b.queue && j != i {
    }
  }

  lemma CollectingKeeps(scan: Scan, s: State)
    requires Invariant(scan, s) && s.main.Collecting?
    ensures Invariant(scan, MainNext(scan, s))
  {
    if s.queue != [] { ReceiveKeeps(scan.results, BoardOf(s)); }
    assert Notes(scan.after[..0]) == [];
  }

  lemma ClosingKeeps(scan: Scan, s: State)
    requires Invariant(scan, s) && !s.main.Opening? && !s.main.Collecting?
    ensures Invariant(scan, MainNext(scan, s))
  {
    if s.main.Closing? {
      var k := s.main.k;
      if k < |scan.after| {
        if CanEmit(s) { NoteKeeps(scan, s, k, scan.after); }
      } else {
        assert scan.after[..k] == scan.after;
      }
    }
  }

  lemma MainKeeps(scan: Scan, s: State)
    requires Invariant(scan, s)
    ensures Invariant(scan, MainNext(scan, s))
  {
    if s.main.Collecting? {
      CollectingKeeps(scan, s);
    } else if !s.main.Opening? {
      ClosingKeeps(scan, s);
    }
  }

  /** A collector that still has something to do keeps the scan from returning. */
  lemma CollectorActive(scan: Scan, s: State, i: nat)
    requires Invariant(scan, s) && i < |s.collectors| && !s.collectors[i].Sent? && !s.main.Opening?
    ensures s.main.Collecting?
  {
    if !s.main.Collecting? {
      AllSent(scan.results, s.main, BoardOf(s));
    }
  }

  lemma TellKeeps(scan: Scan, collectors: seq<CollectorPc>, es: seq<Event>, i: nat, pc: CollectorPc, e: Event)
    requires Told(scan, collectors, es) && i < |collectors| && Of(e, i)
    requires Expected(scan, pc, i) == Expected(scan, collectors[i], i) + [e]
    ensures Told(scan, collectors[i := pc], es + [e])
  {
    forall j | 0 <= j < |collectors| ensures Own(es + [e], j) == Expected(scan, collectors[i := pc][j], j) {
      if j != i { assert Own(es, j) + [] == Own(es, j); }
    }
  }

  lemma CollectorEmits(scan: Scan, s: State, i: nat, pc: CollectorPc, e: Event)
    requires Invariant(scan, s) && s.main.Collecting? && CanEmit(s) && i < |s.collectors| && Of(e, i)
    requires !s.collectors[i].Sent? && !pc.Sent?
    requires Expected(scan, pc, i) == Expected(scan, s.collectors[i], i) + [e]
    ensures Invariant(scan, Emit(s, e).(collectors := s.collectors[i := pc]))
  {
    TellKeeps(scan, s.collectors, s.byCollectors, i, pc, e);
    EmitDelivers(s, e);
    ConcatAssoc(Head(scan, s.main), s.byCollectors, [e]);
    assert Head(scan, s.main) + s.byCollectors + [] == Head(scan, s.main) + s.byCollectors;
  }

  lemma CollectorKeeps(scan: Scan, s: State, i: nat)
    requires Invariant(scan, s)
    ensures Invariant(scan, CollectorNext(scan, s, i))
  {
    if !s.main.Opening? && i < |s.collectors| && !s.collectors[i].Sent? {
      CollectorActive(scan, s, i);
      match s.collectors[i]
      case Unstarted => if CanEmit(s) { CollectorEmits(scan, s, i, Running, Started(i)); }
      case Running => CollectorSilent(scan, s, i, HasResult);
      case HasResult => if CanEmit(s) { CollectorEmits(scan, s, i, Reported, Done(i, scan.results[i])); }
      case Reported => CollectorSends(scan, s, i);
    }
  }

  lemma CollectorSilent(scan: Scan, s: State, i: nat, pc: CollectorPc)
    requires Invariant(scan, s) && s.main.Collecting? && i < |s.collectors| && !s.collectors[i].Sent? && !pc.Sent?
    requires Expected(scan, pc, i) == Expected(scan, s.collectors[i], i)
    ensures Invariant(scan, s.(collectors := s.collectors[i := pc]))
  {
  }

  lemma CollectorSends(scan: Scan, s: State, i: nat)
    requires Invariant(scan, s) && s.main.Collecting? && i < |s.collectors| && s.collectors[i].Reported?
    ensures Invariant(scan, s.(collectors := s.collectors[i := Sent], queue := s.queue + [i]))
  {
    SendKeeps(scan.results, BoardOf(s), i);
  }

  lemma SendKeeps(results: seq<CollectorResult>, b: Board, i: nat)
    requires Slots(results, b) && i < |results| && b.collectors[i].Reported?
    ensures Slots(results, b.(collectors := b.collectors[i := Sent], queue := b.queue + [i]))
  {
    assert i !in b.queue;
    forall j | 0 <= j < |results| ensures j in b.queue + [i] <==> j in b.queue || j == i {
    }
  }

  lemma {:induction false} RunKeeps(scan: Scan, actions: seq<Action>)
    ensures Invariant(scan, After(scan, actions))
  {
    if actions == [] {
      StartKeeps(scan);
    } else {
      var s := After(scan, actions[..|actions| - 1]);
      RunKeeps(scan, actions[..|actions| - 1]);
      match actions[|actions| - 1]
      case MainStep => MainKeeps(scan, s);
      case CollectorStep(i) => CollectorKeeps(scan, s, i);
      case UiStep(done) => UiKeeps(scan, s, done);
    }
  }

  // ---------- What the interface ends up with ----------

  /** In every interleaving a slot is written at most once, and then with its own collector's result. */
  lemma SlotsWrittenOnce(scan: Scan, actions: seq<Action>, i: nat)
    requires i < |scan.results|
    ensures var s := After(scan, actions);
            && |s.writes| == |s.slots| == |scan.results| && s.writes[i] <= 1
            && s.slots[i] == (if s.writes[i] == 1 then Some(scan.results[i]) else None)
    ensures var s := After(scan, actions); !s.main.Opening? && !s.main.Collecting? ==> s.writes[i] == 1
  {
    RunKeeps(scan, actions);
    var s := After(scan, actions);
    if !s.main.Opening? && !s.main.Collecting? {
      AllSent(scan.results, s.main, BoardOf(s));
    }
  }

  /** At every moment what the interface holds is a beginning of what was emitted, in the order of emission. */
  lemma NeverOutOfOrder(scan: Scan, actions: seq<Action>)
    ensures After(scan, actions).events <= After(scan, actions).emitted
  {
    RunKeeps(scan, actions);
    var s := After(scan, actions);
    ConcatAssoc(s.events, InFlight(s.ui), s.buffer);
    assert (s.events + (InFlight(s.ui) + s.buffer))[..|s.events|] == s.events;
  }

  /**
   When the interface learns that the scan is done it holds exactly the emitted events in order of emission: the
   opening notes, then for each collector its start and, later, its result, then the closing notes.
   */
  lemma AllDelivered(scan: Scan, actions: seq<Action>)
    requires After(scan, actions).ui.Through?
    ensures var s := After(scan, actions);
            && s.events == s.emitted == Notes(scan.before) + s.byCollectors + Notes(scan.after)
            && (forall k | 0 <= k < |s.byCollectors| :: OfSome(s.byCollectors[k], |scan.results|))
            && (forall i | 0 <= i < |scan.results| :: Own(s.byCollectors, i) == [Started(i), Done(i, scan.results[i])])
  {
    RunKeeps(scan, actions);
    var s := After(scan, actions);
    AllSent(scan.results, s.main, BoardOf(s));
    assert s.events + [] + [] == s.events;
  }

  lemma {:induction false} SumOnes(ws: seq<nat>)
    requires forall k | 0 <= k < |ws| :: ws[k] == 1
    ensures Sum(ws) == |ws|
  {
    if ws != [] {
      SumOnes(ws[1..]);
    }
  }

  /** While a result is missing and none waits, some collector has a step to take. */
  lemma SomeActive(results: seq<CollectorResult>, b: Board) returns (i: nat)
    requires Slots(results, b) && Sum(b.writes) != |b.writes| && b.queue == []
    ensures i < |b.collectors| && !b.collectors[i].Sent?
  {
    if forall k | 0 <= k < |b.writes| :: b.writes[k] == 1 {
      SumOnes(b.writes);
    }
    i :| 0 <= i < |b.writes| && b.writes[i] != 1;
  }

  lemma MainProgress(scan: Scan, s: State)
    requires Invariant(scan, s) && s.buffer == [] && !s.main.SessionDone?
    requires s.main.Collecting? && s.main.received != |scan.results| ==> s.queue != []
    ensures MainNext(scan, s) != s
  {
  }

  /** The channel being bounded never leads to a deadlock: until the interface is through, some step makes progress. */
  lemma NeverStuck(scan: Scan, actions: seq<Action>) returns (a: Action)
    requires !After(scan, actions).ui.Through?
    ensures Next(scan, After(scan, actions), a) != After(scan, actions)
  {
    RunKeeps(scan, actions);
    a := SomeProgress(scan, After(scan, actions));
  }

  lemma SomeProgress(scan: Scan, s: State) returns (a: Action)
    requires Invariant(scan, s) && !s.ui.Through?
    ensures Next(scan, s, a) != s
  {
    if !s.ui.Reading? || s.buffer != [] || s.main.SessionDone? {
      a := UiStep(false);
    } else if !s.main.Collecting? || s.main.received == |scan.results| || s.queue != [] {
      a := MainStep;
      MainProgress(scan, s);
    } else {
      var i := SomeActive(scan.results, BoardOf(s));
      a := CollectorStep(i);
    }
  }

  // ---------- Every scan ends ----------

  function MainRank(scan: Scan, main: MainPc): int {
    match main
    case Opening(k) => 4 * (|scan.before| - k) + 4 * |scan.after| + |scan.results| + 5
    case Collecting(received) => 4 * |scan.after| + |scan.results| - received + 4
    case Closing(k) => 4 * (|scan.after| - k) + 3
    case ScanReturned => 2
    case SinkClosed => 1
    case SessionDone => 0
  }

  function CollectorRank(pc: CollectorPc): nat {
    match pc
    case Unstarted => 10
    case Running => 6
    case HasResult => 5
    case Reported => 1
    case Sent => 0
  }

  function CollectorsRank(pcs: seq<CollectorPc>): nat {
    if pcs == [] then 0 else CollectorRank(pcs[0]) + CollectorsRank(pcs[1..])
  }

  function UiRank(ui: UiPc): nat {
    match ui
    case Reading => 2
    case SawDone => 1
    case Holding(_) => 3
    case Through => 0
  }

  /** What is left to do: an event that waits counts more than one that is held, and less than one that is not emitted. */
  function Remaining(scan: Scan, s: State): int {
    MainRank(scan, s.main) + CollectorsRank(s.collectors) + 3 * |s.buffer| + UiRank(s.ui)
  }

  lemma {:induction false} CollectorMoves(pcs: seq<CollectorPc>, i: nat, pc: CollectorPc)
    requires i < |pcs|
    ensures CollectorsRank(pcs[i := pc]) == CollectorsRank(pcs) - CollectorRank(pcs[i]) + CollectorRank(pc)
  {
    if i == 0 {
      assert pcs[0 := pc][1..] == pcs[1..];
    } else {
      CollectorMoves(pcs[1..], i - 1, pc);
      assert pcs[i := pc][1..] == pcs[1..][i - 1 := pc];
    }
  }

  lemma {:induction false} AllUnstarted(n: nat)
    ensures CollectorsRank(seq(n, _ => Unstarted)) == 10 * n
  {
    if n > 0 {
      AllUnstarted(n - 1);
      assert seq(n, _ => Unstarted)[1..] == seq(n - 1, _ => Unstarted);
    }
  }

  lemma CollectorLowers(scan: Scan, s: State, i: nat)
    requires CollectorNext(scan, s, i) != s
    ensures Remaining(scan, CollectorNext(scan, s, i)) < Remaining(scan, s)
  {
    var t := CollectorNext(scan, s, i);
    CollectorMoves(s.collectors, i, t.collectors[i]);
  }

  lemma MainLowers(scan: Scan, s: State)
    requires Emitted(scan, s.main, s.emitted, s.byCollectors) && MainNext(scan, s) != s
    ensures Remaining(scan, MainNext(scan, s)) < Remaining(scan, s)
  {
  }

  /** Every step that changes anything leaves less to do. */
  lemma StepLowers(scan: Scan, s: State, a: Action)
    requires Invariant(scan, s) && Next(scan, s, a) != s
    ensures Remaining(scan, Next(scan, s, a)) < Remaining(scan, s)
  {
    match a
    case MainStep => MainLowers(scan, s);
    case CollectorStep(i) => CollectorLowers(scan, s, i);
    case UiStep(done) =>
  }

  lemma RemainingBelow(scan: Scan, s: State)
    requires Invariant(scan, s)
    ensures Remaining(scan, s) >= 0
  {
    if s.main.Collecting? { SumBound(s.writes); }
  }

  /** Every step of the run changes something. */
  predicate Moving(scan: Scan, actions: seq<Action>) {
    actions == [] ||
    (Moving(scan, actions[..|actions| - 1]) && After(scan, actions) != After(scan, actions[..|actions| - 1]))
  }

  lemma {:induction false} MovingLowers(scan: Scan, actions: seq<Action>)
    requires Moving(scan, actions)
    ensures Remaining(scan, After(scan, actions)) + |actions| <= 4 * |scan.before| + 4 * |scan.after| + 11 * |scan.results| + 7
  {
    if actions == [] {
      AllUnstarted(|scan.results|);
    } else {
      MovingLowers(scan, actions[..|actions| - 1]);
      RunKeeps(scan, actions[..|actions| - 1]);
      StepLowers(scan, After(scan, actions[..|actions| - 1]), actions[|actions| - 1]);
    }
  }

  /**
   However the steps interleave: after a number of changing steps that the notes and collectors bound nothing changes
   any more, and then the interface is through.
   */
  lemma EveryScanEnds(scan: Scan, actions: seq<Action>)
    requires Moving(scan, actions)
    ensures |actions| <= 4 * |scan.before| + 4 * |scan.after| + 11 * |scan.results| + 7
    ensures (forall a :: Next(scan, After(scan, actions), a) == After(scan, actions)) ==> After(scan, actions).ui.Through?
  {
    MovingLowers(scan, actions);
    RunKeeps(scan, actions);
    RemainingBelow(scan, After(scan, actions));
    if !After(scan, actions).ui.Through? {
      var a := SomeProgress(scan, After(scan, actions));
    }
  }
}
