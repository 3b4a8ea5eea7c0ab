/**
 The Node process around the closures of `runProcess` (scripts/control-ui-i18n.ts): it delivers the events of
 `ParentSignals` to the objects of `ProcessRunner`, and is proved to move exactly as that state machine does. So
 what holds of every run of the state machine holds of the objects.
 */
module NodeProcess {
  import opened Common
  import opened RunProcess
  import opened ProcessRunner
  import S = ParentSignals

  type Runs = map<S.RunId, ProcessRun>

  ghost function StatesOf(runs: Runs): set<ParentSignalState> { set id | id in runs :: runs[id].state }

  ghost function RegisteredIn(runs: Runs, active: set<ParentSignalState>): set<S.RunId> {
    set id | id in runs && runs[id].state in active
  }

  /** Every run has a record of its own and the one registry. */
  ghost predicate Apart(runs: Runs, registry: ParentSignalRegistry) {
    && (forall id :: id in runs ==> runs[id].registry == registry)
    && (forall i, j :: i in runs && j in runs && i != j ==> runs[i] != runs[j] && runs[i].state != runs[j].state)
  }

  /** The runs of a system with these records registered: exactly those that have not departed. */
  ghost predicate Agrees(runs: Runs, views: map<S.RunId, Run>, active: set<ParentSignalState>) {
    && views.Keys == runs.Keys && active <= StatesOf(runs)
    && (forall id :: id in runs ==> RunOk(views[id]) && (runs[id].state in active <==> !Departed(views[id])))
  }

  lemma {:induction false} AgreesStill(runs: Runs, registry: ParentSignalRegistry, views: map<S.RunId, Run>,
        active: set<ParentSignalState>, id: S.RunId, r: Run)
    requires Apart(runs, registry) && Agrees(runs, views, active) && id in runs && RunOk(r)
    requires Departed(views[id]) ==> Departed(r)
    ensures var left := if Departed(r) then active - {runs[id].state} else active;
      && Agrees(runs, views[id := r], left)
      && RegisteredIn(runs, left) == (if Departed(r) then RegisteredIn(runs, active) - {id} else RegisteredIn(runs, active))
  {
    hide RunOk, Departed;
    assert forall other :: other in runs && other != id ==> runs[other].state != runs[id].state;
  }

  lemma {:induction false} AgreesWithOneMore(runs: Runs, registry: ParentSignalRegistry,
        views: map<S.RunId, Run>, active: set<ParentSignalState>, id: S.RunId, run: ProcessRun, r: Run)
    requires Apart(runs, registry) && Agrees(runs, views, active)
    requires id !in runs && run.registry == registry && run.state !in StatesOf(runs) && RunOk(r) && !Departed(r)
    ensures var more := runs[id := run];
      && Apart(more, registry) && Agrees(more, views[id := r], active + {run.state})
      && RegisteredIn(more, active + {run.state}) == RegisteredIn(runs, active) + {id}
  {
    hide RunOk, Departed;
    var more := runs[id := run];
    assert forall other :: other in runs ==> runs[other].state in StatesOf(runs);
    assert forall other :: other in runs ==> more[other] == runs[other];
    assert more[id].state in StatesOf(more);
    forall state | state in StatesOf(runs) ensures state in StatesOf(more) {
      var other :| other in runs && runs[other].state == state;
      assert more[other].state == state;
    }
  }

  lemma {:induction false} StartedIsHere(options: Options)
    requires options.maxOutputChars > 0
    ensures RunOk(Started(options)) && !Departed(Started(options))
  {
    StartedIsOk(options);
  }

  class ParentProcess {
    const registry: ParentSignalRegistry
    var runs: Runs

    ghost function Views(): (views: map<S.RunId, Run>)
      reads this, runs.Values, StatesOf(runs)
      ensures views.Keys == runs.Keys
    {
      map id | id in runs :: runs[id].View()
    }

    ghost predicate Valid()
      reads this, registry, runs.Values, StatesOf(runs)
    {
      Apart(runs, registry) && Agrees(runs, Views(), registry.active)
    }

    /** The state machine's view of these objects. */
    ghost function System(): S.System
      reads this, registry, runs.Values, StatesOf(runs)
    {
      S.System(Views(), RegisteredIn(runs, registry.active), registry.reraised)
    }

    constructor ()
      ensures Valid() && fresh(registry) && runs == map[] && System() == S.IDLE
    {
      registry := new ParentSignalRegistry();
      runs := map[];
    }

    lemma {:induction false} RunIsValid(id: S.RunId)
      requires Valid() && id in runs
      ensures runs[id].Valid() && runs[id].registry == registry && Views()[id] == runs[id].View()
    {
      hide RunOk, Departed;
    }

    lemma {:induction false} AllDoneAgrees()
      requires Valid()
      ensures System().registry <= System().runs.Keys
      ensures registry.AllSignalledAndDone() <==> S.AllSignalledAndDone(System())
    {
      if S.AllSignalledAndDone(System()) {
        forall state | state in registry.active ensures state.signal.Some? && state.done {
          var id :| id in runs && runs[id].state == state;
          assert id in System().registry && System().runs[id] == runs[id].View();
        }
      }
    }

    /** The callback of the source that an event stands for. */
    method Call(run: ProcessRun, c: Callback)
      requires run.Valid() && Deliverable(run.View(), c)
      modifies run, run.state, run.registry
      ensures run.Did(React(old(run.View()), c))
    {
      hide RunOk;
      match c
      case Signalled(via, alive, complaint) => run.ParentSignalReceived(via, alive, complaint);
      case KillTimerFired(id, complaint) => run.KillTimerElapsed(id, complaint);
      case TimeoutFired(complaint) => run.TimeoutElapsed(complaint);
      case Closed(exit, alive) => run.ChildClosed(exit, alive);
      case Errored => run.ChildErrored();
      case Stdout(chunk) => run.StdoutData(chunk);
      case Stderr(chunk) => run.StderrData(chunk);
    }

    method Deliver(id: S.RunId, c: Callback)
      requires Valid() && id in runs && Deliverable(runs[id].View(), c)
      modifies registry, runs[id], runs[id].state
      ensures Valid() && System().registry <= System().runs.Keys
      ensures System() == S.Update(old(System()), id, React(old(runs[id].View()), c))
    {
      hide RunOk, Departed, RunProcess.React, Deliverable, Agrees;
      ghost var before, active := System(), registry.active;
      ghost var o := React(runs[id].View(), c);
      RunIsValid(id);
      S.ReactMoves(runs[id].View(), c);
      AgreesStill(runs, registry, before.runs, active, id, o.run);
      Call(runs[id], c);
      assert Views() == before.runs[id := o.run];
      AllDoneAgrees();
      UpdateIs(before, System(), id, o);
    }

    /** The executor of the promise: it runs before runProcess returns. */
    method Execute(options: Options) returns (run: ProcessRun)
      requires options.maxOutputChars > 0
      modifies registry`active
      ensures fresh(run) && fresh(run.state) && run.registry == registry && run.View() == Started(options)
      ensures registry.active == old(registry.active) + {run.state}
      ensures Views() == old(Views()) && run.state !in StatesOf(runs)
    {
      hide RunOk, Started, ProcessRun.Valid;
      ghost var states := StatesOf(runs);
      assert forall state :: state in states ==> allocated(state);
      run := new ProcessRun(options, registry);
      assert run.state !in states;
    }

    lemma ViewsAre()
      ensures forall id :: id in runs ==> id in Views() && runs[id].View() == Views()[id]
    {
    }

    lemma ViewsGrow(olds: Runs, views: map<S.RunId, Run>, id: S.RunId)
      requires views.Keys == olds.Keys && runs.Keys == olds.Keys + {id}
      requires forall other :: other in olds && other != id ==> runs[other] == olds[other] && runs[other].View() == views[other]
      ensures Views() == views[id := runs[id].View()]
    {
    }

    /** A new call of runProcess. */
    method Start(id: S.RunId, options: Options)
      requires Valid() && id !in runs && options.maxOutputChars > 0
      modifies this`runs, registry`active
      ensures Valid() && id in runs && runs == old(runs)[id := runs[id]] && fresh(runs[id]) && fresh(runs[id].state)
      ensures System() ==
        S.System(old(System()).runs[id := Started(options)], old(System()).registry + {id}, old(System()).reraised)
    {
      hide RunOk, Departed, Started, Agrees, Apart, ProcessRun.Valid, RegisteredIn, StatesOf, Views;
      StartedIsHere(options);
      ghost var olds, views, active := runs, Views(), registry.active;
      var run := Execute(options);
      AgreesWithOneMore(olds, registry, views, active, id, run, Started(options));
      ViewsAre();
      runs := runs[id := run];
      ViewsGrow(olds, views, id);
    }

    /** The listeners of an emitted signal are called one after the other. */
    method Emit(signal: Signal, deliveries: seq<S.Delivery>)
      requires Valid() && S.Listeners(System(), signal, deliveries)
      modifies registry, runs.Values, StatesOf(runs)
      ensures Valid() && System() == S.Emit(old(System()), signal, deliveries)
    {
      ghost var before := System();
      assert deliveries[0..] == deliveries;
      for i := 0 to |deliveries|
        invariant Valid() && S.Listeners(System(), signal, deliveries[i..])
        invariant S.Emit(before, signal, deliveries) == S.Emit(System(), signal, deliveries[i..])
      {
        hide RunOk, S.Listeners, S.Emit, React, Valid;
        var d := deliveries[i];
        S.EmitStep(System(), signal, deliveries[i..]);
        assert deliveries[i..][1..] == deliveries[i + 1..];
        assert S.Listening(System(), d.id, signal);
        Deliver(d.id, Signalled(signal, d.alive, d.complaint));
      }
    }

    method Handle(e: S.Event)
      requires Valid() && S.Enabled(System(), e)
      modifies this`runs, registry, runs.Values, StatesOf(runs)
      ensures Valid() && System() == S.Apply(old(System()), e)
      ensures forall id :: id in runs ==>
        (id in old(runs) && runs[id] == old(runs[id])) || (fresh(runs[id]) && fresh(runs[id].state))
    {
      hide RunOk, Deliverable, React, S.Emit;
      match e
      case Start(id, options) => Start(id, options);
      case Deliver(id, c) => Deliver(id, c);
      case ParentSignal(signal, deliveries) => Emit(signal, deliveries);
    }
  }

  /** A whole life of the process: after any sequence of events the objects are where the state machine is; so a
      signal they have re-raised was recorded by every record in the registry, every run of it is done with its
      group seen dead or killed, and nothing listens any more. */
  method RunProcesses(events: seq<S.Event>) returns (p: ParentProcess)
    requires S.Possible(S.IDLE, events)
    ensures fresh(p) && p.Valid() && p.System() == S.After(S.IDLE, events)
    ensures p.registry.reraised.Some? ==>
      && p.registry.active != {} && p.registry.AllSignalledAndDone()
      && forall id :: id in p.runs ==>
           && p.runs[id].loop.handlers == {}
           && (p.runs[id].state in p.registry.active ==> GroupHandled(p.runs[id].View()))
  {
    hide RunOk, S.Apply, S.Enabled;
    p := new ParentProcess();
    assert events[0..] == events;
    for i := 0 to |events|
      invariant fresh(p) && fresh(p.registry) && p.Valid()
      invariant forall id :: id in p.runs ==> fresh(p.runs[id]) && fresh(p.runs[id].state)
      invariant S.Possible(p.System(), events[i..]) && S.After(S.IDLE, events) == S.After(p.System(), events[i..])
    {
      assert events[i..][0] == events[i] && events[i..][1..] == events[i + 1..];
      p.Handle(events[i]);
    }
    S.ReraiseIsSafe(events);
    p.AllDoneAgrees();
  }

  lemma UpdateIs(before: S.System, after: S.System, id: S.RunId, o: Outcome)
    requires before.registry <= before.runs.Keys && after.registry <= after.runs.Keys && id in before.runs
    requires after.runs == before.runs[id := o.run]
    requires after.registry == if Departed(o.run) then before.registry - {id} else before.registry
    requires after.reraised ==
      if o.asks && S.AllSignalledAndDone(after) then o.run.parentSignalPending else before.reraised
    ensures after == S.Update(before, id, o)
  {
  }
}
