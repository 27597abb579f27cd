/** The scan part of the terminal model: the messages of several scans, of which one is shown. */
module Sessions {
  import opened Text
  import opened Delivery

  type Report = seq<Option<CollectorResult>>

  /** What reaches the model: the rerun key, and the messages of the scans, each with the number of its session. */
  datatype Msg =
    | Rerun
    | ScanStarted(id: nat)
    | ScanEvent(id: nat, event: Event)
    | ScanDone(id: nat, report: Option<Report>)

  /** `latest` numbers the scan asked for last; `session` is the one whose messages are taken. */
  datatype View = View(latest: nat, session: Option<nat>, scanning: bool, events: seq<Event>, report: Option<Report>)

  function Handled(v: View, m: Msg): View {
    match m
    case Rerun => View(v.latest + 1, None, true, [], None)
    case ScanStarted(id) => v.(session := Some(id), scanning := true, events := [])
    case ScanEvent(id, e) => if v.session == Some(id) then v.(events := v.events + [e]) else v
    case ScanDone(id, report) => if v.session == Some(id) then v.(scanning := false, report := report) else v
  }

  function Shown(v: View, msgs: seq<Msg>): View {
    if msgs == [] then v else Handled(Shown(v, msgs[..|msgs| - 1]), msgs[|msgs| - 1])
  }

  class Model {
    var sessionID: nat
    var session: Option<nat>
    var scanning: bool
    var events: seq<Event>
    var report: Option<Report>

    ghost function Shows(): View
      reads this
    {
      View(sessionID, session, scanning, events, report)
    }

    constructor ()
      ensures Shows() == View(0, None, false, [], None)
    {
      sessionID, session, scanning, events, report := 0, None, false, [], None;
    }

    method StartScan()
      modifies this
      ensures Shows() == Handled(old(Shows()), Rerun)
    {
      sessionID := sessionID + 1;
      scanning := true;
      events := [];
      session := None;
      report := None;
    }

    /** `more` asks the session shown for its next message. */
    method Update(msg: Msg) returns (more: bool)
      modifies this
      ensures Shows() == Handled(old(Shows()), msg)
      ensures more <==> msg.ScanStarted? || (msg.ScanEvent? && old(session) == Some(msg.id))
    {
      match msg
      case Rerun =>
        StartScan();
        return false;
      case ScanStarted(id) =>
        scanning := true;
        session := Some(id);
        events := [];
        return true;
      case ScanEvent(id, event) =>
        if session != Some(id) {
          return false;
        }
        events := events + [event];
        return true;
      case ScanDone(id, result) =>
        if session != Some(id) {
          return false;
        }
        scanning := false;
        report := result;
        return false;
    }
  }

  // ---------- The messages of one scan ----------

  /** What the model is handed, over a run of the scan `id`: its events, one by one, and in the end that it is done. */
  function Handed(scan: Scan, id: nat, actions: seq<Action>): seq<Msg> {
    if actions == [] then []
    else
      var before := actions[..|actions| - 1];
      Handed(scan, id, before) + Message(id, After(scan, before), actions[|actions| - 1])
  }

  function Message(id: nat, s: State, a: Action): seq<Msg> {
    if !a.UiStep? then []
    else if s.ui.Holding? then [ScanEvent(id, s.ui.e)]
    else if s.ui.SawDone? && s.buffer == [] then [ScanDone(id, Some(s.slots))]
    else []
  }

  /** The messages of session `id`, in order. */
  function OfSession(id: nat, msgs: seq<Msg>): seq<Msg> {
    if msgs == [] then []
    else
      var m := msgs[|msgs| - 1];
      OfSession(id, msgs[..|msgs| - 1]) + if (m.ScanEvent? || m.ScanDone?) && m.id == id then [m] else []
  }

  /** No scan is started or asked for. */
  predicate NoStart(msgs: seq<Msg>) {
    forall k | 0 <= k < |msgs| :: !msgs[k].Rerun? && !msgs[k].ScanStarted?
  }

  lemma {:induction false} ShownConcat(v: View, a: seq<Msg>, b: seq<Msg>)
    ensures Shown(v, a + b) == Shown(Shown(v, a), b)
  {
    if b == [] {
      assert a + b == a;
    } else {
      ShownConcat(v, a, b[..|b| - 1]);
      assert (a + b)[..|a + b| - 1] == a + b[..|b| - 1];
    }
  }

  /** Of the messages that follow only those of the session shown matter. */
  lemma {:induction false} OnlyOwn(v: View, id: nat, msgs: seq<Msg>)
    requires v.session == Some(id) && NoStart(msgs)
    ensures Shown(v, msgs) == Shown(v, OfSession(id, msgs)) && Shown(v, msgs).session == Some(id)
  {
    if msgs != [] {
      var front, m := msgs[..|msgs| - 1], msgs[|msgs| - 1];
      OnlyOwn(v, id, front);
      if (m.ScanEvent? || m.ScanDone?) && m.id == id {
        var own := OfSession(id, msgs);
        assert own[..|own| - 1] == OfSession(id, front) && own[|own| - 1] == m;
      } else {
        assert OfSession(id, front) + [] == OfSession(id, front);
      }
    }
  }

  /** A view that has just turned to session `id`, and has taken the messages of the run so far. */
  lemma {:induction false} HandedShows(v: View, scan: Scan, id: nat, actions: seq<Action>)
    requires v.session == Some(id) && v.scanning && v.events == []
    ensures var s, w := After(scan, actions), Shown(v, Handed(scan, id, actions));
            && w.session == Some(id) && w.events == s.events && w.latest == v.latest
            && (w.scanning <==> !s.ui.Through?) && w.report == (if s.ui.Through? then Some(s.slots) else v.report)
  {
    if actions != [] {
      var before, a := actions[..|actions| - 1], actions[|actions| - 1];
      HandedShows(v, scan, id, before);
      var sent, m := Handed(scan, id, before), Message(id, After(scan, before), a);
      ShownConcat(v, sent, m);
      OneMessage(Shown(v, sent), m);
      ThroughStays(scan, before, a);
    }
  }

  lemma OneMessage(v: View, m: seq<Msg>)
    requires |m| <= 1
    ensures Shown(v, m) == if m == [] then v else Handled(v, m[0])
  {
    if m != [] { assert m[..0] == [] && Shown(v, m[..0]) == v; }
  }

  /** Once the interface is through neither what it holds nor the results change. */
  lemma ThroughStays(scan: Scan, actions: seq<Action>, a: Action)
    ensures var s, t := After(scan, actions), Next(scan, After(scan, actions), a);
            && (s.ui.Through? ==> t.ui.Through? && t.slots == s.slots && t.events == s.events)
            && (!a.UiStep? ==> t.ui == s.ui && t.events == s.events)
  {
    RunKeeps(scan, actions);
    StepStays(scan, After(scan, actions), a);
  }

  lemma StepStays(scan: Scan, s: State, a: Action)
    requires s.ui.Through? ==> s.main.SessionDone?
    ensures var t := Next(scan, s, a);
            && (s.ui.Through? ==> t.ui.Through? && t.slots == s.slots && t.events == s.events)
            && (!a.UiStep? ==> t.ui == s.ui && t.events == s.events)
  {
  }

  /**
   Messages of other sessions, whatever they are and however they mix in, change nothing: from the start of session
   `id` on the model shows the events the interface of that scan holds, and in the end its emitted events and results.
   */
  lemma ShowsItsSession(v: View, before: seq<Msg>, id: nat, after: seq<Msg>, scan: Scan, actions: seq<Action>)
    requires NoStart(after) && OfSession(id, after) == Handed(scan, id, actions)
    ensures var s, w := After(scan, actions), Shown(v, before + [ScanStarted(id)] + after);
            && w.session == Some(id) && w.events == s.events && (w.scanning <==> !s.ui.Through?)
            && (s.ui.Through? ==>
                  && w.events == s.emitted && w.report.Some? && |w.report.value| == |scan.results|
                  && forall i | 0 <= i < |scan.results| :: w.report.value[i] == Some(scan.results[i]))
  {
    var start := before + [ScanStarted(id)];
    ShownConcat(v, start, after);
    assert start[..|start| - 1] == before;
    OnlyOwn(Shown(v, start), id, after);
    HandedShows(Shown(v, start), scan, id, actions);
    if After(scan, actions).ui.Through? { Complete(scan, actions); }
  }

  lemma Complete(scan: Scan, actions: seq<Action>)
    requires After(scan, actions).ui.Through?
    ensures var s := After(scan, actions);
            && s.events == s.emitted && |s.slots| == |scan.results|
            && forall i | 0 <= i < |scan.results| :: s.slots[i] == Some(scan.results[i])
  {
    AllDelivered(scan, actions);
    RunKeeps(scan, actions);
    AllSent(scan.results, After(scan, actions).main, BoardOf(After(scan, actions)));
  }

  // ---------- Which session is shown ----------

  lemma {:induction false} StartsShow(v: View, msgs: seq<Msg>)
    requires forall k | 0 <= k < |msgs| :: !msgs[k].Rerun?
    ensures NoStart(msgs) ==> Shown(v, msgs).session == v.session
    ensures !NoStart(msgs) ==> exists k | 0 <= k < |msgs| :: msgs[k].ScanStarted? && Shown(v, msgs).session == Some(msgs[k].id)
  {
    if msgs != [] {
      var front, m := msgs[..|msgs| - 1], msgs[|msgs| - 1];
      StartsShow(v, front);
      if m.ScanStarted? {
        assert msgs[|msgs| - 1].ScanStarted?;
      } else if !NoStart(msgs) {
        assert !NoStart(front);
        var k :| 0 <= k < |front| && front[k].ScanStarted? && Shown(v, front).session == Some(front[k].id);
        assert msgs[k].ScanStarted?;
      }
    }
  }

  /**
   A start is taken whatever its number: until the next rerun the scan asked for last stays the one shown exactly when
   no start of another scan arrives after its own.
   */
  lemma FollowsLatestIff(v: View, before: seq<Msg>, id: nat, after: seq<Msg>)
    requires forall k | 0 <= k < |after| :: !after[k].Rerun? && after[k] != ScanStarted(id)
    ensures Shown(v, before + [ScanStarted(id)] + after).session == Some(id) <==> NoStart(after)
  {
    var start := before + [ScanStarted(id)];
    ShownConcat(v, start, after);
    assert start[..|start| - 1] == before;
    StartsShow(Shown(v, start), after);
  }
}
