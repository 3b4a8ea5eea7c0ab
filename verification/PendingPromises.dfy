/**
 The promises of `runProcess` (scripts/control-ui-i18n.ts) that are never settled. The close of a
 child does not settle its run while a parent signal is relayed, so what is left is the end of a
 kill grace that a timeout has started, or an error.
 */
module PendingPromises {
  import opened Common
  import opened RunProcess
  import opened ParentSignals

  ghost predicate GraceIsArmed(r: Run) { exists timer :: timer in r.loop.armed && r.loop.armed[timer].Grace? }

  /** A kill grace of a timeout is running, or a timeout is to come that will start one: `scheduleKill` does
      nothing while waitingForKillGrace is set, and only a timer resets that. */
  ghost predicate GraceCanEnd(r: Run) {
    GraceIsArmed(r) || (r.loop.timeoutArmed && (r.waitingForKillGrace ==> r.loop.armed != map[]))
  }

  /** The end of a kill grace settles only what a close has left for it. */
  predicate CloseCanBeFinished(r: Run) { r.loop.closeSeen ==> r.childClosedResult.Some? }

  /** The promise is open, and from now on nothing but an error settles it. */
  ghost predicate Hangs(r: Run) {
    !r.settled && r.parentSignalPending.Some? && !(CloseCanBeFinished(r) && GraceCanEnd(r))
  }

  // ----- which callbacks make a promise hang -----

  ghost predicate MakesHang(r: Run, c: Callback)
    requires Deliverable(r, c)
  {
    match c
    case Signalled(_, alive, _) => !r.loop.timeoutArmed && (alive || !r.waitingForKillGrace)
    case KillTimerFired(timer, _) =>
      && r.loop.armed[timer].Grace? && r.parentSignalPending.Some?
      && !r.loop.closeSeen && !r.loop.timeoutArmed
    case TimeoutFired(_) => r.parentSignalPending.Some? && r.waitingForKillGrace && !GraceIsArmed(r)
    case Closed(_, alive) => r.parentSignalPending.Some? && !alive
    case _ => false
  }

  lemma {:induction false} SignalHangs(r: Run, c: Callback)
    requires RunOk(r) && Deliverable(r, c) && !r.settled && c.Signalled?
    ensures Hangs(React(r, c).run) <==> MakesHang(r, c)
  {
    hide SettlementOk, OutputOk;
    var t := React(r, c).run;
    if c.alive {
      assert t.loop.armed[t.killTimer.value].ParentGrace? && t.loop.armed == map[t.killTimer.value := ParentGrace(c.via)];
    } else if r.waitingForKillGrace {
      assert r.loop.armed[r.killTimer.value].Grace? && t.loop.armed == r.loop.armed;
    }
  }

  lemma {:induction false} KillTimerHangs(r: Run, c: Callback)
    requires RunOk(r) && Deliverable(r, c) && !r.settled && c.KillTimerFired? && !Hangs(r)
    ensures Hangs(React(r, c).run) <==> MakesHang(r, c)
  {
    hide OutputOk;
    assert forall timer :: timer in r.loop.armed ==> timer == c.id;
    assert React(r, c).run.loop.armed == r.loop.armed - {c.id} == map[];
  }

  lemma {:induction false} TimeoutHangs(r: Run, c: Callback)
    requires RunOk(r) && Deliverable(r, c) && !r.settled && c.TimeoutFired? && !Hangs(r)
    ensures Hangs(React(r, c).run) <==> MakesHang(r, c)
  {
    hide SettlementOk, OutputOk, HandlersOk;
    var t := React(r, c).run;
    if !r.waitingForKillGrace { assert t.loop.armed[t.killTimer.value].Grace?; }
    else { assert t.loop.armed == r.loop.armed; }
  }

  lemma {:induction false} CloseHangs(r: Run, c: Callback)
    requires RunOk(r) && Deliverable(r, c) && !r.settled && c.Closed? && !Hangs(r)
    ensures Hangs(React(r, c).run) <==> MakesHang(r, c)
  {
    hide OutputOk;
    var t := React(r, c).run;
    if r.parentSignalPending.Some? && c.alive { assert t.loop.armed == r.loop.armed; }
  }

  /** Exactly these callbacks turn a promise that can still settle into one that hangs. */
  lemma {:induction false} HangsExactlyWhen(r: Run, c: Callback)
    requires RunOk(r) && Deliverable(r, c) && !r.settled && !Hangs(r)
    ensures Hangs(React(r, c).run) <==> MakesHang(r, c)
  {
    match c
    case Signalled(_, _, _) => SignalHangs(r, c);
    case KillTimerFired(_, _) => KillTimerHangs(r, c);
    case TimeoutFired(_) => TimeoutHangs(r, c);
    case Closed(_, _) => CloseHangs(r, c);
    case Errored =>
    case Stdout(_) => assert React(r, c).run.loop == r.loop;
    case Stderr(_) => assert React(r, c).run.loop == r.loop;
  }

  // ----- a promise that hangs does so for good -----

  lemma {:induction false} StillHangs(r: Run, c: Callback)
    requires RunOk(r) && Deliverable(r, c) && Hangs(r) && !c.Errored?
    ensures Hangs(React(r, c).run)
  {
    hide SettlementOk, OutputOk;
    var t := React(r, c).run;
    match c
    case KillTimerFired(timer, _) =>
      assert forall other :: other in r.loop.armed ==> other == timer;
      assert t.loop.armed == map[];
    case Closed(_, alive) => assert alive ==> t.loop.armed == r.loop.armed;
    case _ =>
  }

  /** Whatever else happens, new runs and other signals included. */
  lemma {:induction false} HangsForGood(s: System, id: RunId, events: seq<Event>)
    requires SystemOk(s) && id in s.runs && Hangs(s.runs[id])
    requires Possible(s, events) && Deliver(id, Errored) !in events
    ensures id in After(s, events).runs && Hangs(After(s, events).runs[id])
    decreases |events|
  {
    if events != [] {
      var e := events[0];
      StepKeepsHanging(s, id, e);
      ApplyKeepsOk(s, e);
      hide Apply, Enabled, SystemOk, Hangs;
      HangsForGood(Apply(s, e), id, events[1..]);
    }
  }

  lemma {:induction false} StepKeepsHanging(s: System, id: RunId, e: Event)
    requires SystemOk(s) && Enabled(s, e) && id in s.runs && Hangs(s.runs[id]) && e != Deliver(id, Errored)
    ensures id in Apply(s, e).runs && Hangs(Apply(s, e).runs[id])
  {
    assert s.runs[id].loop.handlers == {};
    hide RunOk, React, Emit, Hangs;
    match e
    case Start(_, _) =>
    case Deliver(other, c) => if other == id { StillHangs(s.runs[id], c); }
    case ParentSignal(signal, deliveries) =>
      forall i | 0 <= i < |deliveries| ensures deliveries[i].id != id { assert Listening(s, deliveries[i].id, signal); }
      EmitRelays(s, signal, deliveries);
  }

  // ----- and any other promise can still settle -----

  const KILLED := Exit(None, Some(SIGKILL))

  /** How many callbacks it takes at most. */
  ghost function Distance(r: Run): nat {
    (if r.loop.closeSeen then 0 else 4) + (if GraceIsArmed(r) then 1 else if r.loop.armed == map[] then 2 else 3)
  }

  /** The next callback on the way: it settles the promise or brings that nearer. */
  ghost predicate Nearer(r: Run, c: Callback) {
    && Deliverable(r, c) && !c.Errored? && !c.Signalled?
    && var t := React(r, c).run;
      !Hangs(t) && (t.settled || Distance(t) < Distance(r))
  }

  lemma {:induction false} UnsignalledNext(r: Run) returns (c: Callback)
    requires RunOk(r) && !r.settled && r.parentSignalPending.None?
    ensures Nearer(r, c)
  {
    hide OutputOk;
    if r.loop.closeSeen {
      ClosedRunIsOneTimerAway(r, "");
      c := KillTimerFired(r.killTimer.value, "");
    } else {
      c := Closed(KILLED, false);
    }
  }

  lemma {:induction false} CloseNext(r: Run)
    requires RunOk(r) && !r.settled && r.parentSignalPending.Some? && !Hangs(r) && !r.loop.closeSeen
    ensures Nearer(r, Closed(KILLED, true))
  {
    hide OutputOk;
    var t := React(r, Closed(KILLED, true)).run;
    assert t.loop.armed == r.loop.armed;
  }

  lemma {:induction false} TimerNext(r: Run, timer: TimerId)
    requires RunOk(r) && !r.settled && r.parentSignalPending.Some? && !Hangs(r) && r.loop.closeSeen
    requires timer in r.loop.armed
    ensures Nearer(r, KillTimerFired(timer, ""))
  {
    hide OutputOk;
    var t := React(r, KillTimerFired(timer, "")).run;
    assert forall other :: other in r.loop.armed ==> other == timer;
    assert t.loop.armed == map[];
  }

  lemma {:induction false} TimeoutNext(r: Run)
    requires RunOk(r) && !r.settled && r.parentSignalPending.Some? && !Hangs(r) && r.loop.closeSeen
    requires r.loop.armed == map[]
    ensures Nearer(r, TimeoutFired(""))
  {
    hide OutputOk;
    var t := React(r, TimeoutFired("")).run;
    assert t.loop.armed[t.killTimer.value].Grace?;
  }

  lemma {:induction false} NextCallback(r: Run) returns (c: Callback)
    requires RunOk(r) && !r.settled && !Hangs(r)
    ensures Nearer(r, c)
  {
    if r.parentSignalPending.None? {
      c := UnsignalledNext(r);
    } else if !r.loop.closeSeen {
      CloseNext(r);
      c := Closed(KILLED, true);
    } else if timer :| timer in r.loop.armed {
      TimerNext(r, timer);
      c := KillTimerFired(timer, "");
    } else {
      TimeoutNext(r);
      c := TimeoutFired("");
    }
  }

  /** While another registered run is not done no callback re-raises a signal. */
  lemma {:induction false} NotYetReraised(s: System, id: RunId, c: Callback, other: RunId)
    requires SystemOk(s) && Enabled(s, Deliver(id, c))
    requires other in s.registry && other != id && !s.runs[other].done
    ensures var t := Apply(s, Deliver(id, c));
      && SystemOk(t) && t.reraised.None? && t.runs == s.runs[id := React(s.runs[id], c).run]
      && other in t.registry
  {
    hide RunOk, React, Deliverable;
    ReactMoves(s.runs[id], c);
    UpdateKeepsOk(s, id, React(s.runs[id], c));
  }

  /** So beside such a run every promise that does not hang can be settled. */
  lemma {:induction false} SettlesBesides(s: System, id: RunId, other: RunId) returns (events: seq<Event>)
    requires SystemOk(s) && s.reraised.None? && id in s.runs && !Hangs(s.runs[id])
    requires other in s.registry && other != id && other in s.runs && !s.runs[other].done
    ensures Possible(s, events) && forall i :: 0 <= i < |events| ==> events[i].Deliver? && !events[i].callback.Errored?
    ensures id in After(s, events).runs && After(s, events).runs[id].settled
    decreases !s.runs[id].settled, Distance(s.runs[id])
  {
    hide RunOk, React, Hangs, Distance, Deliverable;
    events := [];
    if !s.runs[id].settled {
      var c := NextCallback(s.runs[id]);
      var e := Deliver(id, c);
      NotYetReraised(s, id, c, other);
      hide Apply, Enabled;
      var t := Apply(s, e);
      var rest := SettlesBesides(t, id, other);
      events := [e] + rest;
      assert events[1..] == rest;
    }
  }

  lemma {:induction false} UnusedId(ids: set<RunId>) returns (id: RunId)
    ensures id !in ids && forall other :: other in ids ==> other < id
  {
    id := 0;
    if ids != {} {
      var one :| one in ids;
      var above := UnusedId(ids - {one});
      assert forall other :: other in ids ==> other == one || other in ids - {one};
      id := if one < above then above else one + 1;
    }
  }

  lemma {:induction false} CanSettle(s: System, id: RunId) returns (events: seq<Event>)
    requires SystemOk(s) && s.reraised.None? && id in s.runs && !Hangs(s.runs[id])
    ensures Possible(s, events) && Deliver(id, Errored) !in events
    ensures id in After(s, events).runs && After(s, events).runs[id].settled
  {
    hide RunOk, React, Hangs, Deliverable;
    var unused := UnusedId(s.runs.Keys);
    var begin := Start(unused, OPTIONS);
    StartKeepsOk(s, unused, OPTIONS);
    var t := Apply(s, begin);
    hide SystemOk;
    var rest := SettlesBesides(t, id, unused);
    events := [begin] + rest;
    assert events[1..] == rest;
  }

  // ----- so: -----

  /** An open promise hangs exactly if in no run of the system from here on anything but an error settles it. */
  lemma {:induction false} HangsIff(s: System, id: RunId)
    requires SystemOk(s) && s.reraised.None? && id in s.runs && !s.runs[id].settled
    ensures Hangs(s.runs[id]) <==>
      forall events: seq<Event> :: Possible(s, events) && Deliver(id, Errored) !in events ==>
        id in After(s, events).runs && !After(s, events).runs[id].settled
  {
    hide SystemOk, Possible, After;
    if Hangs(s.runs[id]) {
      forall events: seq<Event> | Possible(s, events) && Deliver(id, Errored) !in events
        ensures id in After(s, events).runs && !After(s, events).runs[id].settled
      {
        HangsForGood(s, id, events);
      }
    } else {
      var events := CanSettle(s, id);
    }
  }

  /** It does happen: the first call of the run that loses its signal never returns. */
  lemma {:induction false} LateStartHangs()
    ensures Possible(IDLE, LATE_START)
    ensures 0 in After(IDLE, LATE_START).runs && Hangs(After(IDLE, LATE_START).runs[0])
  {
    LateStartRuns();
    assert FIRST_QUIET.loop.armed == map[];
  }
}
