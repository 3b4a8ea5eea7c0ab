/**
 All the runs of `runProcess` in one Node process, the registry they share
 (`activeRunProcessParentSignals`) and the re-raise of a parent signal
 (`maybeReraiseRunProcessParentSignal`). A run of the system is a sequence of events in any order
 the event loop may choose; after a re-raise the process is gone and nothing more happens.
 */
module ParentSignals {
  import opened Common
  import opened RunProcess

  type RunId = nat

  datatype System = System(runs: map<RunId, Run>, registry: set<RunId>, reraised: Option<Signal>)

  const IDLE := System(map[], {}, None)

  /** One listener of an emitted parent signal, with the answers its callback gets. */
  datatype Delivery = Delivery(id: RunId, alive: bool, complaint: string)

  datatype Event =
    | Start(id: RunId, options: Options)
    | Deliver(id: RunId, callback: Callback)
    | ParentSignal(signal: Signal, deliveries: seq<Delivery>)

  predicate AllSignalledAndDone(s: System)
    requires s.registry <= s.runs.Keys
  {
    forall id :: id in s.registry ==> s.runs[id].signal.Some? && s.runs[id].done
  }

  /** The effect of one callback of run `id`: leave the registry, then look at it if asked to. */
  function Update(s: System, id: RunId, outcome: Outcome): System
    requires s.registry <= s.runs.Keys
  {
    var after := System(s.runs[id := outcome.run],
                        if Departed(outcome.run) then s.registry - {id} else s.registry,
                        s.reraised);
    if outcome.asks && AllSignalledAndDone(after) then after.(reraised := outcome.run.parentSignalPending) else after
  }

  ghost predicate Listening(s: System, id: RunId, signal: Signal) {
    id in s.runs && signal in s.runs[id].loop.handlers
  }

  ghost predicate Listeners(s: System, signal: Signal, deliveries: seq<Delivery>) {
    && s.registry <= s.runs.Keys
    && (forall i :: 0 <= i < |deliveries| ==> Listening(s, deliveries[i].id, signal))
    && (forall i, j :: 0 <= i < j < |deliveries| ==> deliveries[i].id != deliveries[j].id)
  }

  /** One listener's callback, as the emission sees it. */
  ghost function Delivered(s: System, signal: Signal, d: Delivery): System
    requires s.registry <= s.runs.Keys && Listening(s, d.id, signal)
  {
    Update(s, d.id, React(s.runs[d.id], Signalled(signal, d.alive, d.complaint)))
  }

  /** Node calls the listeners of an emitted signal one after the other, without a pause. */
  ghost function Emit(s: System, signal: Signal, deliveries: seq<Delivery>): System
    requires Listeners(s, signal, deliveries)
    decreases |deliveries|
  {
    if deliveries == [] then s
    else
      assert Listening(s, deliveries[0].id, signal);
      assert forall i :: 0 <= i < |deliveries[1..]| ==> Listening(s, deliveries[1..][i].id, signal);
      Emit(Delivered(s, signal, deliveries[0]), signal, deliveries[1..])
  }

  lemma {:induction false} EmitStep(s: System, signal: Signal, deliveries: seq<Delivery>)
    requires Listeners(s, signal, deliveries) && deliveries != []
    ensures Listening(s, deliveries[0].id, signal)
    ensures var next := Delivered(s, signal, deliveries[0]);
      && Listeners(next, signal, deliveries[1..])
      && Emit(s, signal, deliveries) == Emit(next, signal, deliveries[1..])
  {
    hide React;
    assert forall i :: 0 <= i < |deliveries[1..]| ==> Listening(s, deliveries[1..][i].id, signal);
  }

  ghost predicate Enabled(s: System, e: Event) {
    && s.reraised.None?
    && s.registry <= s.runs.Keys
    && match e
       case Start(id, options) => id !in s.runs && options.maxOutputChars > 0
       case Deliver(id, callback) => id in s.runs && Deliverable(s.runs[id], callback) && !callback.Signalled?
       case ParentSignal(signal, deliveries) =>
         && deliveries != []
         && Listeners(s, signal, deliveries)
         && forall id :: Listening(s, id, signal) ==> exists i :: 0 <= i < |deliveries| && deliveries[i].id == id
  }

  ghost function Apply(s: System, e: Event): System
    requires Enabled(s, e)
  {
    match e
    case Start(id, options) => System(s.runs[id := Started(options)], s.registry + {id}, s.reraised)
    case Deliver(id, callback) => Update(s, id, React(s.runs[id], callback))
    case ParentSignal(signal, deliveries) => Emit(s, signal, deliveries)
  }

  ghost predicate Possible(s: System, events: seq<Event>)
    decreases |events|
  {
    events != [] ==> Enabled(s, events[0]) && Possible(Apply(s, events[0]), events[1..])
  }

  ghost function After(s: System, events: seq<Event>): System
    requires Possible(s, events)
    decreases |events|
  {
    if events == [] then s else After(Apply(s, events[0]), events[1..])
  }

  // ----- what every interleaving keeps -----

  ghost predicate SystemOk(s: System) {
    && (forall id :: id in s.runs ==> RunOk(s.runs[id]))
    && (forall id :: id in s.registry <==> id in s.runs && !Departed(s.runs[id]))
    && (s.reraised.Some? ==> s.registry != {} && AllSignalledAndDone(s) && IsRecorded(s, s.reraised))
  }

  /** Some registered run has recorded this signal. */
  ghost predicate IsRecorded(s: System, signal: Option<Signal>)
    requires s.registry <= s.runs.Keys
  {
    exists id :: id in s.registry && s.runs[id].signal == signal
  }

  /** How a callback moves one run, as far as the registry is concerned. */
  ghost predicate Moves(r: Run, o: Outcome) {
    && RunOk(o.run) && o.run.signal == o.run.parentSignalPending
    && (o.asks ==> o.run.parentSignalPending.Some? && o.run.done)
    && (o.run.done && !r.done ==> o.asks)
    && (r.done ==> o.run.done)
    && (r.parentSignalPending.Some? ==> o.run.parentSignalPending == r.parentSignalPending)
    && (Departed(r) ==> Departed(o.run) && !o.asks)
  }

  lemma ReactAsks(r: Run, callback: Callback)
    requires TimersOk(r) && Deliverable(r, callback)
    ensures var o := React(r, callback);
      && (o.asks ==> o.run.parentSignalPending.Some? && o.run.done)
      && (o.run.done && !r.done ==> o.asks)
      && (r.done ==> o.run.done)
  {
  }

  lemma ReactRelays(r: Run, callback: Callback)
    requires Deliverable(r, callback)
    ensures callback.Signalled? ==> React(r, callback).run.parentSignalPending == Some(callback.via)
    ensures !callback.Signalled? ==> React(r, callback).run.parentSignalPending == r.parentSignalPending
  {
  }

  lemma {:induction false} ReactMoves(r: Run, callback: Callback)
    requires RunOk(r) && Deliverable(r, callback)
    ensures Moves(r, React(r, callback))
  {
    ReactKeepsRunOk(r, callback);
    ReactAsks(r, callback);
    ReactRelays(r, callback);
    hide React, TimersOk, SettlementOk, OutputOk;
    if Departed(r) { SettledRunLeavesNothing(r, callback); }
  }

  lemma {:induction false} UpdateKeepsOk(s: System, id: RunId, o: Outcome)
    requires SystemOk(s) && s.reraised.None? && id in s.runs && Moves(s.runs[id], o)
    ensures SystemOk(Update(s, id, o))
  {
    hide RunOk;
    var next := Update(s, id, o);
    assert forall other :: other in s.runs && other != id ==> next.runs[other] == s.runs[other];
    if next.reraised.Some? { assert id in next.registry && next.runs[id].signal == next.reraised; }
  }

  /** Everything registered is signalled and done: the next look at the registry re-raises. */
  ghost predicate Overdue(s: System)
    requires s.registry <= s.runs.Keys
  {
    s.reraised.None? && s.registry != {} && AllSignalledAndDone(s)
  }

  /** While a listener is left, some registered run has not recorded the signal. */
  lemma {:induction false} ListenersBlockReraise(s: System, signal: Signal, deliveries: seq<Delivery>)
    requires SystemOk(s) && Listeners(s, signal, deliveries) && deliveries != []
    ensures !AllSignalledAndDone(s) && s.reraised.None?
  {
    var id := deliveries[0].id;
    assert Listening(s, id, signal);
    assert id in s.registry && s.runs[id].signal.None?;
  }

  /** A registered run that becomes done re-raises the signal if it was the last one. */
  lemma LastOneAsks(s: System, id: RunId, o: Outcome)
    requires SystemOk(s) && s.reraised.None? && id in s.registry && Moves(s.runs[id], o) && !Departed(o.run)
    requires !AllSignalledAndDone(s)
    ensures !Overdue(Update(s, id, o))
  {
  }

  lemma {:induction false} DeliveryRelays(s: System, signal: Signal, d: Delivery)
    requires SystemOk(s) && s.reraised.None? && Listening(s, d.id, signal)
    ensures var next := Delivered(s, signal, d);
      && SystemOk(next) && !Overdue(next)
      && next.registry == s.registry && next.runs.Keys == s.runs.Keys
      && next.runs[d.id].parentSignalPending == Some(signal)
      && forall id :: id in s.runs && id != d.id ==> next.runs[id] == s.runs[id]
  {
    hide React, RunOk, AllSignalledAndDone;
    var c := Signalled(signal, d.alive, d.complaint);
    ListenersBlockReraise(s, signal, [d]);
    ReactMoves(s.runs[d.id], c);
    ReactRelays(s.runs[d.id], c);
    UpdateKeepsOk(s, d.id, React(s.runs[d.id], c));
    LastOneAsks(s, d.id, React(s.runs[d.id], c));
  }

  lemma {:induction false} EmitKeepsOk(s: System, signal: Signal, deliveries: seq<Delivery>)
    requires SystemOk(s) && s.reraised.None? && Listeners(s, signal, deliveries)
    ensures SystemOk(Emit(s, signal, deliveries))
    decreases |deliveries|
  {
    hide Delivered, RunOk, AllSignalledAndDone;
    if deliveries != [] {
      var next := Delivered(s, signal, deliveries[0]);
      DeliveryRelays(s, signal, deliveries[0]);
      if deliveries[1..] != [] {
        ListenersBlockReraise(next, signal, deliveries[1..]);
        EmitKeepsOk(next, signal, deliveries[1..]);
      }
    }
  }

  lemma {:induction false} StartKeepsOk(s: System, id: RunId, options: Options)
    requires SystemOk(s) && Enabled(s, Start(id, options))
    ensures SystemOk(Apply(s, Start(id, options)))
  {
    StartedIsOk(options);
    hide RunOk;
    assert !Departed(Started(options));
  }

  lemma {:induction false} ApplyKeepsOk(s: System, e: Event)
    requires SystemOk(s) && Enabled(s, e)
    ensures SystemOk(Apply(s, e))
  {
    hide RunOk, React, Deliverable, Update, Emit;
    match e
    case Start(id, options) => StartKeepsOk(s, id, options);
    case Deliver(id, callback) =>
      ReactMoves(s.runs[id], callback);
      UpdateKeepsOk(s, id, React(s.runs[id], callback));
    case ParentSignal(signal, deliveries) => EmitKeepsOk(s, signal, deliveries);
  }

  lemma {:induction false} AlwaysOk(s: System, events: seq<Event>)
    requires SystemOk(s) && Possible(s, events)
    ensures SystemOk(After(s, events))
    decreases |events|
  {
    if events != [] {
      ApplyKeepsOk(s, events[0]);
      AlwaysOk(Apply(s, events[0]), events[1..]);
    }
  }

  // ----- safety of the re-raise -----

  /** When a signal is re-raised some registered run has recorded it, and every registered run has recorded one and
      sent it on, is done, and has had its group seen dead or killed; and no handler is left, so the signal takes its
      default action. */
  lemma {:induction false} ReraiseIsSafe(events: seq<Event>)
    requires Possible(IDLE, events)
    ensures var s := After(IDLE, events);
      s.reraised.Some? ==>
        && s.registry != {} && s.registry <= s.runs.Keys
        && (exists id :: id in s.registry && s.runs[id].signal == s.reraised)
        && (forall id :: id in s.registry ==>
              && s.runs[id].signal.Some? && s.runs[id].signal.value in s.runs[id].log.sent
              && s.runs[id].done && GroupHandled(s.runs[id]))
        && (forall id :: id in s.runs ==> s.runs[id].loop.handlers == {})
  {
    AlwaysOk(IDLE, events);
    var s := After(IDLE, events);
    if s.reraised.Some? {
      forall id | id in s.runs ensures s.runs[id].loop.handlers == {} {
        assert RunOk(s.runs[id]);
        assert Departed(s.runs[id]) || id in s.registry;
      }
    }
  }

  /** In every run of the system each promise is settled at most once, as timed out only with its group dead
      or killed, and a run that settled without a parent signal has left the registry and the event loop. */
  lemma {:induction false} EveryPromiseSettlesOnce(events: seq<Event>, id: RunId)
    requires Possible(IDLE, events) && id in After(IDLE, events).runs
    ensures var s := After(IDLE, events); var r := s.runs[id];
      && |r.log.settlements| == (if r.settled then 1 else 0)
      && (r.log.settlements == [RejectedTimedOut] ==> r.timedOut && GroupHandled(r))
      && (id !in s.registry <==> r.settled && r.parentSignalPending.None?)
      && (id !in s.registry ==> r.loop.handlers == {} && r.loop.armed == map[] && !r.loop.timeoutArmed)
  {
    AlwaysOk(IDLE, events);
    assert RunOk(After(IDLE, events).runs[id]);
  }

  // ----- is the signal always re-raised? -----

  /** No registered run has been signalled. */
  predicate Calm(s: System)
    requires s.registry <= s.runs.Keys
  {
    forall id :: id in s.registry ==> s.runs[id].parentSignalPending.None?
  }

  /** Every registered run has been signalled. */
  predicate Relayed(s: System)
    requires s.registry <= s.runs.Keys
  {
    forall id :: id in s.registry ==> s.runs[id].parentSignalPending.Some?
  }

  /** Emitting a signal reaches every listener, removes nobody from the registry and is never lost. */
  lemma {:induction false} EmitRelays(s: System, signal: Signal, deliveries: seq<Delivery>)
    requires SystemOk(s) && s.reraised.None? && Listeners(s, signal, deliveries)
    ensures var t := Emit(s, signal, deliveries);
      && t.registry == s.registry && t.runs.Keys == s.runs.Keys
      && (forall i :: 0 <= i < |deliveries| ==> t.runs[deliveries[i].id].parentSignalPending == Some(signal))
      && (forall id :: id in s.runs && (forall i :: 0 <= i < |deliveries| ==> deliveries[i].id != id) ==>
            t.runs[id] == s.runs[id])
      && (deliveries != [] ==> !Overdue(t))
    decreases |deliveries|
  {
    hide Delivered, RunOk, AllSignalledAndDone;
    if deliveries != [] {
      var rest := deliveries[1..];
      var next := Delivered(s, signal, deliveries[0]);
      DeliveryRelays(s, signal, deliveries[0]);
      if rest != [] {
        ListenersBlockReraise(next, signal, rest);
        EmitRelays(next, signal, rest);
        assert forall i :: 1 <= i < |deliveries| ==> deliveries[i] == rest[i - 1];
      }
    }
  }

  /** A callback of one run, whatever it is, keeps or completes the relay. */
  lemma {:induction false} CallbackKeepsRelay(s: System, id: RunId, callback: Callback)
    requires SystemOk(s) && s.reraised.None?
    requires id in s.runs && Deliverable(s.runs[id], callback) && !callback.Signalled?
    ensures var t := Update(s, id, React(s.runs[id], callback));
      && SystemOk(t) && t.registry <= s.registry
      && (Calm(s) ==> Calm(t))
      && (Relayed(s) ==> Relayed(t) && t.registry == s.registry && (!Overdue(s) ==> !Overdue(t)))
  {
    hide React, Deliverable, TimersOk, HandlersOk, SettlementOk, OutputOk, ClosedIsRemembered;
    var o := React(s.runs[id], callback);
    ReactMoves(s.runs[id], callback);
    ReactRelays(s.runs[id], callback);
    UpdateKeepsOk(s, id, o);
    if Relayed(s) && id in s.registry && !AllSignalledAndDone(s) { LastOneAsks(s, id, o); }
  }

  /** A parent signal finds every registered run listening that it has not reached before. */
  lemma {:induction false} SignalStartsRelay(s: System, signal: Signal, deliveries: seq<Delivery>)
    requires SystemOk(s) && Enabled(s, ParentSignal(signal, deliveries))
    ensures var t := Emit(s, signal, deliveries);
      t.registry == s.registry && t.runs.Keys == s.runs.Keys && InRelay(t)
  {
    hide TimersOk, SettlementOk, OutputOk, ClosedIsRemembered, Emit;
    EmitRelays(s, signal, deliveries);
    var first, t := deliveries[0].id, Emit(s, signal, deliveries);
    assert Listening(s, first, signal);
    forall id | id in s.registry ensures t.runs[id].parentSignalPending.Some? {
      assert RunOk(s.runs[id]) && RunOk(s.runs[first]);
      if s.runs[id].parentSignalPending.None? { assert Listening(s, id, signal); }
    }
  }

  /** A relay that is under way: every registered run has been signalled, and the last one to be done looks. */
  ghost predicate InRelay(s: System)
    requires s.registry <= s.runs.Keys
  {
    s.registry != {} && Relayed(s) && !Overdue(s)
  }

  lemma {:induction false} StepKeepsRelay(s: System, e: Event)
    requires SystemOk(s) && Enabled(s, e) && !e.Start?
    ensures var t := Apply(s, e);
      && SystemOk(t)
      && (InRelay(s) || e.ParentSignal? ==> InRelay(t))
      && (Calm(s) && !e.ParentSignal? ==> Calm(t))
  {
    hide RunOk, React, Emit, Update;
    ApplyKeepsOk(s, e);
    match e
    case Deliver(id, callback) => CallbackKeepsRelay(s, id, callback);
    case ParentSignal(signal, deliveries) => SignalStartsRelay(s, signal, deliveries);
  }

  /** As long as no child is started a relay, once begun, stays under way until the signal is re-raised. */
  lemma {:induction false} RelayIsNeverLost(s: System, events: seq<Event>)
    requires SystemOk(s) && Possible(s, events) && forall i :: 0 <= i < |events| ==> !events[i].Start?
    ensures var t := After(s, events);
      && SystemOk(t)
      && (InRelay(s) || (exists i :: 0 <= i < |events| && events[i].ParentSignal?) ==> InRelay(t))
      && (Calm(s) && (forall i :: 0 <= i < |events| ==> !events[i].ParentSignal?) ==> Calm(t))
    decreases |events|
  {
    hide RunOk, Apply, Enabled, InRelay, Calm;
    if events != [] {
      assert Enabled(s, events[0]);
      StepKeepsRelay(s, events[0]);
      RelayIsNeverLost(Apply(s, events[0]), events[1..]);
      assert forall i :: 1 <= i < |events| ==> events[i] == events[1..][i - 1];
    }
  }

  lemma {:induction false} StaysCalm(s: System, events: seq<Event>)
    requires SystemOk(s) && Calm(s) && Possible(s, events)
    requires forall i :: 0 <= i < |events| ==> !events[i].ParentSignal?
    ensures SystemOk(After(s, events)) && Calm(After(s, events))
    decreases |events|
  {
    hide RunOk, React, Deliverable, Update;
    if events != [] {
      var e := events[0];
      ApplyKeepsOk(s, e);
      if e.Deliver? { CallbackKeepsRelay(s, e.id, e.callback); }
      StaysCalm(Apply(s, e), events[1..]);
    }
  }

  /** No registered run is waiting to be killed on behalf of a parent signal. */
  predicate NoRelayTimer(s: System)
    requires s.registry <= s.runs.Keys
  {
    forall id, t :: id in s.registry && t in s.runs[id].loop.armed ==> s.runs[id].loop.armed[t].Grace?
  }

  lemma ReraisedIffNoRelayTimer(s: System)
    requires SystemOk(s) && InRelay(s)
    ensures s.reraised.Some? <==> NoRelayTimer(s)
  {
  }

  /** The kill timer of a relayed signal is never dropped before its run is done: once a signal has come,
      it has been re-raised exactly when no registered run still has such a timer. This covers every run
      of the system in which no child is started after the first parent signal. */
  lemma {:induction false} SignalIsReraised(before: seq<Event>, after: seq<Event>)
    requires Possible(IDLE, before) && forall i :: 0 <= i < |before| ==> !before[i].ParentSignal?
    requires Possible(After(IDLE, before), after) && forall i :: 0 <= i < |after| ==> !after[i].Start?
    ensures var s := After(After(IDLE, before), after);
      && s.registry <= s.runs.Keys
      && (if exists i :: 0 <= i < |after| && after[i].ParentSignal?
          then InRelay(s) && (s.reraised.Some? <==> NoRelayTimer(s))
          else Calm(s))
  {
    assert Calm(IDLE);
    hide RunOk, Apply, Enabled, NoRelayTimer, Calm;
    StaysCalm(IDLE, before);
    RelayIsNeverLost(After(IDLE, before), after);
    var s := After(After(IDLE, before), after);
    if exists i :: 0 <= i < |after| && after[i].ParentSignal? { ReraisedIffNoRelayTimer(s); }
  }

  ghost function Unfinished(s: System): set<RunId>
    requires s.registry <= s.runs.Keys
  {
    set id | id in s.registry && !s.runs[id].done
  }

  /** The event "the kill timer of run `id` fires". */
  ghost function FireKillTimer(s: System, id: RunId): Event
    requires id in s.runs && s.runs[id].killTimer.Some?
  {
    Deliver(id, KillTimerFired(s.runs[id].killTimer.value, ""))
  }

  lemma {:induction false} SomeUnfinished(s: System) returns (id: RunId)
    requires SystemOk(s) && InRelay(s) && s.reraised.None?
    ensures id in s.registry && !s.runs[id].done
  {
    id :| id in s.registry && !(s.runs[id].signal.Some? && s.runs[id].done);
    assert RunOk(s.runs[id]);
  }

  lemma RelayTimerIsArmed(r: Run)
    requires RunOk(r) && r.parentSignalPending.Some? && !r.done
    ensures r.killTimer.Some? && r.killTimer.value in r.loop.armed
    ensures React(r, KillTimerFired(r.killTimer.value, "")).run.done
  {
  }

  lemma {:induction false} FiringFinishesOne(s: System) returns (e: Event)
    requires SystemOk(s) && InRelay(s) && s.reraised.None?
    ensures Enabled(s, e) && e.Deliver? && e.callback.KillTimerFired?
    ensures var t := Apply(s, e);
      SystemOk(t) && t.registry == s.registry && InRelay(t) && |Unfinished(t)| < |Unfinished(s)|
  {
    hide RunOk, React;
    var id := SomeUnfinished(s);
    var r := s.runs[id];
    RelayTimerIsArmed(r);
    e := FireKillTimer(s, id);
    CallbackKeepsRelay(s, id, e.callback);
    ReactMoves(r, e.callback);
    assert id in Unfinished(s) && id !in Unfinished(Apply(s, e));
    assert Unfinished(Apply(s, e)) <= Unfinished(s) - {id};
    SmallerSet(Unfinished(Apply(s, e)), Unfinished(s) - {id});
  }

  lemma {:induction false} SmallerSet(a: set<RunId>, b: set<RunId>)
    requires a <= b
    ensures |a| <= |b|
  {
    if a != {} {
      var x :| x in a;
      SmallerSet(a - {x}, b - {x});
    }
  }

  /** And those timers do bring it about: firing at most one per registered run re-raises the signal. */
  lemma {:induction false} TimersReraise(s: System) returns (events: seq<Event>)
    requires SystemOk(s) && InRelay(s)
    ensures Possible(s, events) && |events| <= |Unfinished(s)|
    ensures forall i :: 0 <= i < |events| ==> events[i].Deliver? && events[i].callback.KillTimerFired?
    ensures After(s, events).reraised.Some?
    decreases |Unfinished(s)|
  {
    hide SystemOk, Apply, Enabled, InRelay, Unfinished;
    events := [];
    if s.reraised.None? {
      var e := FiringFinishesOne(s);
      var rest := TimersReraise(Apply(s, e));
      events := [e] + rest;
      assert events[1..] == rest;
    }
  }

  // ----- how a signal can be lost -----

  /** A run that will not look at the registry again: signalled, done, and closed. */
  predicate Spent(r: Run) { r.parentSignalPending.Some? && r.done && r.loop.closeSeen }

  /** A signal was relayed and has not been re-raised, and every run it reached is spent. */
  ghost predicate Forgotten(s: System)
    requires s.registry <= s.runs.Keys
  {
    && s.reraised.None?
    && !Calm(s)
    && forall id :: id in s.registry && s.runs[id].parentSignalPending.Some? ==> Spent(s.runs[id])
  }

  /** What a callback does to a signalled run and to its last look at the registry. */
  lemma SignalledStep(r: Run, c: Callback)
    requires RunOk(r) && Deliverable(r, c) && r.parentSignalPending.Some?
    ensures var o := React(r, c); var looks :=
        || (c.KillTimerFired? && r.loop.armed[c.id].ParentGrace?)
        || (c.Closed? && !c.alive);
      && !c.Signalled? && o.run.parentSignalPending.Some? && o.run.signal.Some?
      && (o.run.done <==> r.done || looks)
      && (o.run.loop.closeSeen <==> r.loop.closeSeen || c.Closed?)
      && (o.asks <==> looks)
    ensures Spent(r) ==> !React(r, c).asks && Spent(React(r, c).run)
  {
  }

  lemma {:induction false} UnsignalledStep(r: Run, c: Callback)
    requires RunOk(r) && Deliverable(r, c) && r.parentSignalPending.None? && !c.Signalled?
    ensures React(r, c).run.parentSignalPending.None? && !React(r, c).asks
  {
    ReactAsks(r, c);
    ReactRelays(r, c);
  }

  // Without another parent signal nothing re-raises a forgotten one.

  lemma {:induction false} CallbackKeepsForgotten(s: System, id: RunId, c: Callback)
    requires SystemOk(s) && Forgotten(s) && id in s.runs && Deliverable(s.runs[id], c) && !c.Signalled?
    ensures SystemOk(Update(s, id, React(s.runs[id], c))) && Forgotten(Update(s, id, React(s.runs[id], c)))
  {
    hide React, Deliverable, TimersOk, HandlersOk, SettlementOk, OutputOk, ClosedIsRemembered;
    var r := s.runs[id];
    ReactMoves(r, c);
    UpdateKeepsOk(s, id, React(r, c));
    if r.parentSignalPending.Some? { SignalledStep(r, c); } else { UnsignalledStep(r, c); }
    var first :| first in s.registry && s.runs[first].parentSignalPending.Some?;
    assert first in Update(s, id, React(r, c)).registry;
  }

  lemma {:induction false} ForgottenForGood(s: System, events: seq<Event>)
    requires SystemOk(s) && Forgotten(s)
    requires Possible(s, events) && forall i :: 0 <= i < |events| ==> !events[i].ParentSignal?
    ensures SystemOk(After(s, events)) && Forgotten(After(s, events))
    decreases |events|
  {
    hide RunOk, React, Deliverable;
    if events != [] {
      var e := events[0];
      ApplyKeepsOk(s, e);
      match e {
        case Deliver(id, callback) => CallbackKeepsForgotten(s, id, callback);
        case Start(id, options) => StartKeepsForgotten(s, id, options);
      }
      ForgottenForGood(Apply(s, e), events[1..]);
    }
  }

  lemma {:induction false} StartKeepsForgotten(s: System, id: RunId, options: Options)
    requires SystemOk(s) && Enabled(s, Start(id, options))
    ensures Forgotten(Apply(s, Start(id, options))) <==> Forgotten(s)
  {
    hide RunOk;
    var t := Apply(s, Start(id, options));
    assert forall other :: other in s.registry ==> other != id && t.runs[other] == s.runs[other];
    if !Calm(s) {
      var first :| first in s.registry && s.runs[first].parentSignalPending.Some?;
      assert first in t.registry && t.runs[first].parentSignalPending.Some?;
    }
  }

  // Otherwise the runs can still finish in an order that re-raises it.

  ghost function Unsignalled(s: System): set<RunId>
    requires s.registry <= s.runs.Keys
  {
    set id | id in s.registry && s.runs[id].parentSignalPending.None?
  }

  /** The callback that lets an unsignalled run settle: its close, or its kill timer if it has closed. */
  lemma {:induction false} SettleOne(r: Run) returns (c: Callback)
    requires RunOk(r) && r.parentSignalPending.None? && !r.settled
    ensures Deliverable(r, c) && !c.Signalled? && Departed(React(r, c).run)
  {
    if r.loop.closeSeen {
      ClosedRunIsOneTimerAway(r, "");
      c := KillTimerFired(r.killTimer.value, "");
    } else {
      c := Closed(Exit(Some(0), None), false);
      SettlesIff(r, c);
    }
    UnsignalledStep(r, c);
  }

  lemma {:induction false} UnsignalledDepart(s: System) returns (events: seq<Event>)
    requires SystemOk(s) && s.registry <= s.runs.Keys && s.reraised.None? && !Calm(s)
    ensures Possible(s, events) && forall i :: 0 <= i < |events| ==> events[i].Deliver?
    ensures var t := After(s, events);
      && SystemOk(t) && t.reraised.None? && t.registry != {} && t.registry <= t.runs.Keys && Relayed(t)
      && (Forgotten(t) ==> Forgotten(s))
    decreases |Unsignalled(s)|
  {
    hide SystemOk, Enabled, Apply;
    events := [];
    if Unsignalled(s) != {} {
      var id :| id in Unsignalled(s);
      var e, t := OneDeparts(s, id);
      OneLessUnsignalled(s, id, t);
      hide Forgotten, Calm, Unsignalled;
      var rest := UnsignalledDepart(t);
      events := [e] + rest;
      assert events[1..] == rest;
    } else {
      assert forall id :: id in s.registry ==> id !in Unsignalled(s);
    }
  }

  lemma {:induction false} OneLessUnsignalled(s: System, id: RunId, t: System)
    requires s.registry <= s.runs.Keys && s.reraised.None? && t.reraised.None? && !Calm(s) && id in Unsignalled(s)
    requires t.registry == s.registry - {id} && t.runs.Keys == s.runs.Keys
    requires forall other :: other in t.registry ==> t.runs[other] == s.runs[other]
    ensures !Calm(t) && |Unsignalled(t)| < |Unsignalled(s)| && (Forgotten(t) ==> Forgotten(s))
  {
    var first :| first in s.registry && s.runs[first].parentSignalPending.Some?;
    assert first in t.registry;
    assert Unsignalled(t) == Unsignalled(s) - {id};
  }

  lemma {:induction false} OneDeparts(s: System, id: RunId) returns (e: Event, t: System)
    requires SystemOk(s) && s.reraised.None? && id in s.registry && s.runs[id].parentSignalPending.None?
    ensures Enabled(s, e) && e.Deliver? && t == Apply(s, e) && SystemOk(t)
    ensures t.reraised.None? && t.registry == s.registry - {id} && t.runs.Keys == s.runs.Keys
    ensures s.registry <= s.runs.Keys
    ensures forall other :: other in t.registry ==> t.runs[other] == s.runs[other]
  {
    hide TimersOk, HandlersOk, SettlementOk, OutputOk, ClosedIsRemembered, React, Deliverable;
    assert !Departed(s.runs[id]);
    var c := SettleOne(s.runs[id]);
    UnsignalledStep(s.runs[id], c);
    e := Deliver(id, c);
    t := Apply(s, e);
    ApplyKeepsOk(s, e);
  }

  lemma {:induction false} LastLookReraises(s: System) returns (e: Event)
    requires SystemOk(s) && Overdue(s) && !Forgotten(s)
    ensures Enabled(s, e) && e.Deliver? && Apply(s, e).reraised.Some?
  {
    hide TimersOk, SettlementOk, OutputOk, ClosedIsRemembered, React;
    var first :| first in s.registry;
    assert RunOk(s.runs[first]) && s.runs[first].parentSignalPending.Some?;
    var id :| id in s.registry && s.runs[id].parentSignalPending.Some? && !Spent(s.runs[id]);
    assert RunOk(s.runs[id]);
    var c := Closed(Exit(None, Some(SIGKILL)), false);
    e := Deliver(id, c);
    SignalledStep(s.runs[id], c);
  }

  lemma {:induction false} SignalledRunsReraise(s: System) returns (events: seq<Event>)
    requires SystemOk(s) && s.reraised.None? && s.registry != {} && s.registry <= s.runs.Keys && Relayed(s) && !Forgotten(s)
    ensures Possible(s, events) && forall i :: 0 <= i < |events| ==> events[i].Deliver?
    ensures After(s, events).reraised.Some?
  {
    hide SystemOk, Enabled, Apply, Forgotten;
    if Overdue(s) {
      var e := LastLookReraises(s);
      events := [e];
      assert events[1..] == [];
    } else {
      events := TimersReraise(s);
    }
  }

  /** As long as a relayed signal is not forgotten, the runs there are can finish in such a way that it is re-raised. */
  lemma {:induction false} RememberedCanBeReraised(s: System) returns (events: seq<Event>)
    requires SystemOk(s) && s.registry <= s.runs.Keys && s.reraised.None? && !Calm(s) && !Forgotten(s)
    ensures Possible(s, events) && forall i :: 0 <= i < |events| ==> events[i].Deliver?
    ensures After(s, events).reraised.Some?
  {
    hide SystemOk, Possible, After, Forgotten, Relayed, Calm;
    var departures := UnsignalledDepart(s);
    var finish := SignalledRunsReraise(After(s, departures));
    events := departures + finish;
    AfterConcat(s, departures, finish);
  }

  lemma {:induction false} AfterConcat(s: System, a: seq<Event>, b: seq<Event>)
    requires Possible(s, a) && Possible(After(s, a), b)
    ensures Possible(s, a + b) && After(s, a + b) == After(After(s, a), b)
    decreases |a|
  {
    hide Enabled, Apply;
    if a == [] {
      assert a + b == b;
    } else {
      assert (a + b)[1..] == a[1..] + b;
      AfterConcat(Apply(s, a[0]), a[1..], b);
    }
  }

  /** A relayed signal is forgotten exactly when nothing that can still happen re-raises it, short of another
      signal from the parent. */
  lemma {:induction false} ForgottenIff(s: System)
    requires SystemOk(s) && s.reraised.None? && !Calm(s)
    ensures Forgotten(s) <==>
      forall events: seq<Event> :: Possible(s, events) && (forall i :: 0 <= i < |events| ==> !events[i].ParentSignal?) ==>
        After(s, events).reraised.None?
  {
    assert s.registry <= s.runs.Keys;
    hide SystemOk, Possible, Calm;
    if Forgotten(s) {
      forall events: seq<Event> | Possible(s, events) && forall i :: 0 <= i < |events| ==> !events[i].ParentSignal?
        ensures After(s, events).reraised.None?
      {
        ForgottenForGood(s, events);
      }
    } else {
      var events := RememberedCanBeReraised(s);
    }
  }

  // The step that loses it.

  /** The last look of the last run that could still look, in vain: either the run is unsuccessful because some
      registered run was never signalled, or its child closes while the killed group still answers. */
  ghost predicate LastLook(s: System, e: Event)
    requires s.registry <= s.runs.Keys
    requires e.Deliver? ==> e.id in s.runs && Deliverable(s.runs[e.id], e.callback)
  {
    && e.Deliver? && e.id in s.registry && s.runs[e.id].parentSignalPending.Some?
    && (forall id :: id in s.registry && id != e.id && s.runs[id].parentSignalPending.Some? ==> Spent(s.runs[id]))
    && match e.callback
       case KillTimerFired(timer, _) =>
         s.runs[e.id].loop.armed[timer].ParentGrace? && s.runs[e.id].loop.closeSeen && !Relayed(s)
       case Closed(_, alive) => if alive then s.runs[e.id].done else !Relayed(s)
       case _ => false
  }

  lemma {:induction false} SignalledDelivery(s: System, id: RunId, c: Callback)
    requires SystemOk(s) && s.reraised.None? && id in s.registry && Deliverable(s.runs[id], c) && !c.Signalled?
    requires s.runs[id].parentSignalPending.Some? && !Forgotten(s)
    ensures Forgotten(Update(s, id, React(s.runs[id], c))) <==> LastLook(s, Deliver(id, c))
  {
    hide TimersOk, HandlersOk, SettlementOk, OutputOk, ClosedIsRemembered, React;
    var r := s.runs[id];
    var o := React(r, c);
    SignalledStep(r, c);
    RelayTimerMeansUndone(r);
    AfterTheLook(s, id, o);
    assert Spent(r) ==> !(forall other :: other in s.registry && other != id && s.runs[other].parentSignalPending.Some? ==>
      Spent(s.runs[other]));
  }

  lemma RelayTimerMeansUndone(r: Run)
    requires RunOk(r)
    ensures forall timer :: timer in r.loop.armed && r.loop.armed[timer].ParentGrace? ==> !r.done
  {
  }

  /** When a signalled run has moved: forgotten if all signalled runs are spent and this was no look, or one in vain. */
  lemma {:induction false} AfterTheLook(s: System, id: RunId, o: Outcome)
    requires SystemOk(s) && s.reraised.None? && id in s.registry
    requires o.run.parentSignalPending.Some? && o.run.signal.Some?
    ensures Forgotten(Update(s, id, o)) <==>
      && Spent(o.run)
      && (forall other :: other in s.registry && other != id && s.runs[other].parentSignalPending.Some? ==> Spent(s.runs[other]))
      && (o.asks ==> exists other :: other in s.registry && other != id && s.runs[other].parentSignalPending.None?)
  {
    hide TimersOk, SettlementOk, OutputOk, ClosedIsRemembered;
    var t := Update(s, id, o);
    assert t.registry == s.registry && t.runs[id] == o.run;
    forall other | other in s.registry && other != id
      ensures t.runs[other] == s.runs[other] && s.runs[other].signal == s.runs[other].parentSignalPending
    {
      assert RunOk(s.runs[other]);
    }
  }

  lemma {:induction false} UnsignalledDelivery(s: System, id: RunId, c: Callback)
    requires SystemOk(s) && s.reraised.None? && id in s.runs && Deliverable(s.runs[id], c) && !c.Signalled?
    requires id !in s.registry || s.runs[id].parentSignalPending.None?
    ensures Forgotten(Update(s, id, React(s.runs[id], c))) <==> Forgotten(s)
  {
    hide TimersOk, HandlersOk, SettlementOk, OutputOk, ClosedIsRemembered, React, Deliverable;
    var t := Update(s, id, React(s.runs[id], c));
    ReactMoves(s.runs[id], c);
    UnsignalledStep(s.runs[id], c);
    assert forall other :: other in s.registry && other != id ==> other in t.registry && t.runs[other] == s.runs[other];
    assert forall other :: other in t.registry ==> other in s.registry;
  }

  /** Exactly these steps lose a signal for good. */
  lemma {:induction false} ForgottenExactlyWhen(s: System, e: Event)
    requires SystemOk(s) && Enabled(s, e) && !Forgotten(s)
    ensures Apply(s, e).registry <= Apply(s, e).runs.Keys
    ensures Forgotten(Apply(s, e)) <==> LastLook(s, e)
  {
    assert !e.Deliver? ==> !LastLook(s, e);
    hide RunOk, React, Deliverable, Emit, LastLook, Forgotten;
    ApplyKeepsOk(s, e);
    match e
    case Start(id, options) => StartKeepsForgotten(s, id, options);
    case ParentSignal(signal, deliveries) =>
      SignalStartsRelay(s, signal, deliveries);
      RelayIsRemembered(Emit(s, signal, deliveries));
    case Deliver(id, c) =>
      if id in s.registry && s.runs[id].parentSignalPending.Some? {
        SignalledDelivery(s, id, c);
      } else {
        UnsignalledDelivery(s, id, c);
      }
  }

  lemma {:induction false} RelayIsRemembered(s: System)
    requires SystemOk(s) && InRelay(s)
    ensures !Forgotten(s)
  {
    hide TimersOk, SettlementOk, OutputOk, ClosedIsRemembered;
    if Forgotten(s) {
      forall id | id in s.registry ensures s.runs[id].signal.Some? && s.runs[id].done { assert RunOk(s.runs[id]); }
    }
  }

  // Two children: the second starts while the first is being killed and closes after it.
  const OPTIONS := Options(1, false)
  const FIRST_SIGNALLED := OnParentSignal(Started(OPTIONS), SIGINT, true, "").run
  const FIRST_KILLED := OnKillTimer(FIRST_SIGNALLED, 0, "").run
  const FIRST_CLOSED := OnClose(FIRST_KILLED, Exit(None, Some(SIGKILL)), false).run
  const FIRST_TIMED_OUT := OnTimeout(FIRST_CLOSED, "").run
  const FIRST_QUIET := OnKillTimer(FIRST_TIMED_OUT, 1, "").run
  const SECOND_QUIET := OnClose(Started(OPTIONS), Exit(Some(0), None), false).run

  const LATE_START: seq<Event> := [
    Start(0, OPTIONS),
    ParentSignal(SIGINT, [Delivery(0, true, "")]),
    Start(1, OPTIONS),
    Deliver(0, KillTimerFired(0, "")),
    Deliver(0, Closed(Exit(None, Some(SIGKILL)), false)),
    Deliver(0, TimeoutFired("")),
    Deliver(0, KillTimerFired(1, "")),
    Deliver(1, Closed(Exit(Some(0), None), false))]

  const LATE_START_END := System(map[0 := FIRST_QUIET, 1 := SECOND_QUIET], {0}, None)

  const LATE_START_STATES: seq<System> := [
    IDLE,
    System(map[0 := Started(OPTIONS)], {0}, None),
    System(map[0 := FIRST_SIGNALLED], {0}, None),
    System(map[0 := FIRST_SIGNALLED, 1 := Started(OPTIONS)], {0, 1}, None),
    System(map[0 := FIRST_KILLED, 1 := Started(OPTIONS)], {0, 1}, None),
    System(map[0 := FIRST_CLOSED, 1 := Started(OPTIONS)], {0, 1}, None),
    System(map[0 := FIRST_TIMED_OUT, 1 := Started(OPTIONS)], {0, 1}, None),
    System(map[0 := FIRST_QUIET, 1 := Started(OPTIONS)], {0, 1}, None),
    LATE_START_END]

  /** Nothing more can happen to a quiet run except a stray error or output. */
  predicate Quiet(r: Run) {
    r.loop.closeSeen && r.loop.armed == map[] && !r.loop.timeoutArmed && r.loop.handlers == {}
  }

  ghost predicate LateStartStep(i: nat)
    requires i < |LATE_START|
  {
    var s, e, t := LATE_START_STATES[i], LATE_START[i], LATE_START_STATES[i + 1];
    Enabled(s, e) && Apply(s, e) == t
  }

  lemma {:induction false} LateStartBegins()
    ensures LateStartStep(0) && LateStartStep(1) && LateStartStep(2)
  {
    assert Listening(LATE_START_STATES[1], 0, SIGINT);
    assert LATE_START[1].deliveries[0].id == 0;
    assert Apply(LATE_START_STATES[1], LATE_START[1]) == LATE_START_STATES[2];
  }

  lemma LateStartGoesOn()
    ensures LateStartStep(3) && LateStartStep(4)
  {
  }

  lemma LateStartTimesOut()
    ensures LateStartStep(5)
  {
  }

  lemma LateStartEnds()
    ensures LateStartStep(6) && LateStartStep(7)
  {
  }

  lemma {:induction false} LateStartRuns()
    ensures Possible(IDLE, LATE_START) && After(IDLE, LATE_START) == LATE_START_END
  {
    LateStartBegins();
    LateStartGoesOn();
    LateStartTimesOut();
    LateStartEnds();
    hide Enabled, Apply;
    assert forall i :: 0 <= i < |LATE_START| ==> LateStartStep(i);
    Chain(LATE_START_STATES, LATE_START);
  }

  /** It does happen: a child started during the kill grace of a signalled one, and closing after it,
      leaves a system with nothing running, nothing listening, and the signal forgotten. */
  lemma {:induction false} LateStartLosesTheSignal()
    ensures Possible(IDLE, LATE_START)
    ensures var s := After(IDLE, LATE_START);
      s.registry <= s.runs.Keys && Forgotten(s) && forall id :: id in s.runs ==> Quiet(s.runs[id])
  {
    LateStartRuns();
    assert Quiet(FIRST_QUIET);
    assert Quiet(SECOND_QUIET);
    assert FIRST_QUIET.done && FIRST_QUIET.signal == Some(SIGINT);
  }

  /** A listed run of the system is a run of the system. */
  lemma {:induction false} Chain(states: seq<System>, events: seq<Event>)
    requires |states| == |events| + 1
    requires forall i :: 0 <= i < |events| ==> Enabled(states[i], events[i]) && Apply(states[i], events[i]) == states[i + 1]
    ensures Possible(states[0], events) && After(states[0], events) == states[|events|]
    decreases |events|
  {
    hide Enabled, Apply;
    if events != [] { Chain(states[1..], events[1..]); }
  }
}
