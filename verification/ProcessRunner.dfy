/**
 The closure of `runProcess`, the records its runs share through the module-level registry, and the Node
 process that delivers the events (scripts/control-ui-i18n.ts). Every callback updates the closure step by
 step in the source's order; the whole process is proved to move as `ParentSignals` says.
 */
module ProcessRunner {
  import opened Common
  import opened BoundedOutput
  import opened RunProcess

  /** RunProcessParentSignalState */
  class ParentSignalState {
    var done: bool
    var signal: Option<Signal>

    constructor ()
      ensures !done && signal == None
    {
      done, signal := false, None;
    }
  }

  /** activeRunProcessParentSignals, and whether the signal has been re-raised. */
  class ParentSignalRegistry {
    var active: set<ParentSignalState>
    var reraised: Option<Signal>

    constructor ()
      ensures active == {} && reraised == None
    {
      active, reraised := {}, None;
    }

    ghost predicate AllSignalledAndDone()
      reads this, active
    {
      forall state :: state in active ==> state.signal.Some? && state.done
    }

    /** maybeReraiseRunProcessParentSignal: give up at the first run that is not finished. */
    method MaybeReraise(signal: Signal)
      modifies this`reraised
      ensures reraised == if AllSignalledAndDone() then Some(signal) else old(reraised)
    {
      var rest := active;
      while rest != {}
        invariant rest <= active
        invariant forall state :: state in active - rest ==> state.signal.Some? && state.done
        invariant reraised == old(reraised)
        decreases |rest|
      {
        var state :| state in rest;
        if state.signal.None? || !state.done {
          return;
        }
        rest := rest - {state};
      }
      reraised := Some(signal);
    }
  }

  /** A run whose handler has sent the signal on and asked whether the group still exists. */
  function PassedOn(r: Run, signal: Signal, alive: bool, complaint: string): Run {
    var told := RunProcess.SignalChild(r.(parentSignalPending := Some(signal), signal := Some(signal)), signal, complaint);
    Probe(told.(loop := told.loop.(handlers := {})), alive)
  }

  lemma HandlerAfterPassingOn(r: Run, signal: Signal, alive: bool, complaint: string)
    ensures var heard := PassedOn(r, signal, alive, complaint);
      && heard.parentSignalPending == heard.signal == Some(signal)
      && OnParentSignal(r, signal, alive, complaint) ==
        if alive then
          Outcome(SetKillTimer(heard.(loop := ClearTimer(heard.loop, heard.killTimer), waitingForKillGrace := true),
                               ParentGrace(signal)), false)
        else Outcome(heard.(done := true), true)
  {
  }

  /** A run that still listens has not departed. */
  lemma HeardIsHere(r: Run)
    requires RunOk(r) && r.loop.handlers != {}
    ensures !Departed(r)
  {
  }

  lemma RelayedIsHere(r: Run)
    ensures r.parentSignalPending.Some? ==> !Departed(r)
  {
  }

  /** Nor has one with a kill timer, and the timer of a relay is for the signal being relayed. */
  lemma TimedIsHere(r: Run)
    requires RunOk(r) && r.loop.armed != map[]
    ensures !Departed(r)
    ensures forall id :: id in r.loop.armed && r.loop.armed[id].ParentGrace? ==>
      r.parentSignalPending == Some(r.loop.armed[id].signal)
  {
  }

  /** One call of runProcess: the variables of its closure, what the event loop holds for it, and its effects. */
  class ProcessRun {
    const registry: ParentSignalRegistry
    const state: ParentSignalState
    const options: Options
    var stdout: Capture
    var stderr: Capture
    var timedOut: bool
    var settled: bool
    var waitingForKillGrace: bool
    var childClosedResult: Option<Exit>
    var killTimer: Option<TimerId>
    var parentSignalPending: Option<Signal>
    var loop: EventLoop
    var log: Log

    ghost function View(): Run
      reads this, state
    {
      Run(options, stdout, stderr, timedOut, settled, waitingForKillGrace, childClosedResult, killTimer,
          parentSignalPending, state.done, state.signal, loop, log)
    }

    ghost predicate Valid()
      reads this, state, registry
    {
      RunOk(View()) && (state in registry.active <==> !Departed(View()))
    }

    /** The heap moved exactly as the outcome `o` of the closure says, and the run is still valid. */
    twostate predicate Did(o: Outcome)
      reads this, state, registry, registry.active
    {
      && View() == o.run
      && registry.active == (if Departed(o.run) then old(registry.active) - {state} else old(registry.active))
      && registry.reraised ==
         (if o.asks && registry.AllSignalledAndDone() then o.run.parentSignalPending else old(registry.reraised))
      && Valid()
    }

    constructor (options: Options, registry: ParentSignalRegistry)
      requires options.maxOutputChars > 0
      modifies registry`active
      ensures this.registry == registry && fresh(state) && registry.active == old(registry.active) + {state}
      ensures View() == Started(options) && Valid()
    {
      this.registry := registry;
      this.options := options;
      var state := new ParentSignalState();
      this.state := state;
      stdout, stderr := EMPTY_CAPTURE, EMPTY_CAPTURE;
      timedOut, settled, waitingForKillGrace := false, false, false;
      childClosedResult, killTimer, parentSignalPending := None, None, None;
      loop, log := Started(options).loop, Started(options).log;
      new;
      registry.active := registry.active + {state};
      StartedIsOk(options);
    }

    // ----- the helpers -----

    method SignalChild(signal: Signal, complaint: string)
      modifies this`log, this`stderr
      ensures View() == RunProcess.SignalChild(old(View()), signal, complaint)
    {
      log := log.(sent := log.sent + [signal], errors := log.errors + complaint);
      if complaint != "" {
        stderr := Append(stderr, complaint, options.maxOutputChars);
      }
    }

    /** clearTimeout(killTimer) */
    method ClearKillTimer()
      modifies this`loop
      ensures View() == old(View()).(loop := ClearTimer(old(loop), old(killTimer)))
    {
      if killTimer.Some? {
        loop := loop.(armed := loop.armed - {killTimer.value});
      }
    }

    method ProcessGroupIsAlive(answer: bool) returns (alive: bool)
      modifies this`log
      ensures alive == answer && View() == Probe(old(View()), answer)
    {
      alive := answer;
      if !answer {
        log := log.(groupSeenDead := true);
      }
    }

    method Settle(settlement: Settlement)
      modifies this`settled, this`loop, this`log, registry`active
      ensures View() == RunProcess.Settle(old(View()), settlement)
      ensures registry.active ==
        if !old(settled) && parentSignalPending.None? then old(registry.active) - {state} else old(registry.active)
    {
      if settled {
        return;
      }
      settled := true;
      loop := loop.(timeoutArmed := false);
      if parentSignalPending.None? {
        ClearKillTimer();
      }
      if parentSignalPending.None? {
        registry.active := registry.active - {state};
      }
      loop := loop.(handlers := {});
      log := log.(settlements := log.settlements + [settlement]);
    }

    method FinishClose(exit: Exit)
      modifies this`settled, this`loop, this`log, registry`active
      ensures View() == RunProcess.FinishClose(old(View()), exit)
      ensures registry.active ==
        if !old(settled) && parentSignalPending.None? then old(registry.active) - {state} else old(registry.active)
    {
      if timedOut {
        Settle(RejectedTimedOut);
      } else if ExitCode(exit) != 0 && options.rejectOnFailure {
        Settle(RejectedFailed(exit, stdout, stderr));
      } else if ExitCode(exit) == 0 && stdout.truncatedChars > 0 {
        Settle(RejectedTruncated);
      } else {
        Settle(Resolved(ExitCode(exit), stdout.text, stderr));
      }
    }

    /** setTimeout */
    method StartKillTimer(timer: Timer)
      modifies this`killTimer, this`loop
      ensures View() == SetKillTimer(old(View()), timer)
    {
      killTimer := Some(loop.nextTimer);
      loop := loop.(armed := loop.armed[loop.nextTimer := timer], nextTimer := loop.nextTimer + 1);
    }

    method ScheduleKill()
      modifies this`waitingForKillGrace, this`killTimer, this`loop
      ensures View() == RunProcess.ScheduleKill(old(View()))
    {
      if waitingForKillGrace {
        return;
      }
      waitingForKillGrace := true;
      StartKillTimer(Grace);
    }

    method MarkDone(signal: Signal)
      modifies state`done, registry`reraised
      ensures View() == old(View()).(done := true)
      ensures registry.reraised == if registry.AllSignalledAndDone() then Some(signal) else old(registry.reraised)
    {
      state.done := true;
      registry.MaybeReraise(signal);
    }

    // ----- the callbacks -----

    /** The handler up to the question whether the process group still exists. */
    method PassOn(signal: Signal, groupAnswers: bool, complaint: string) returns (alive: bool)
      modifies this`parentSignalPending, this`loop, this`log, this`stderr, state`signal
      ensures alive == groupAnswers
      ensures View() == PassedOn(old(View()), signal, groupAnswers, complaint)
    {
      parentSignalPending := Some(signal);
      state.signal := Some(signal);
      SignalChild(signal, complaint);
      loop := loop.(handlers := {});
      alive := ProcessGroupIsAlive(groupAnswers);
    }

    /** The rest of the handler when it does: the relay's own timer replaces any other. */
    method AwaitGroup(signal: Signal)
      modifies this`killTimer, this`loop, this`waitingForKillGrace
      ensures var r := old(View());
        View() == SetKillTimer(r.(loop := ClearTimer(r.loop, r.killTimer), waitingForKillGrace := true), ParentGrace(signal))
    {
      ClearKillTimer();
      waitingForKillGrace := true;
      StartKillTimer(ParentGrace(signal));
    }

    method ParentSignalReceived(signal: Signal, groupAnswers: bool, complaint: string)
      requires Valid() && signal in loop.handlers
      modifies this, state, registry`reraised
      ensures Did(OnParentSignal(old(View()), signal, groupAnswers, complaint))
    {
      hide RunOk, PassedOn, OnParentSignal;
      ParentSignalKeepsRunOk(View(), signal, groupAnswers, complaint);
      HeardIsHere(View());
      ghost var heard := PassedOn(View(), signal, groupAnswers, complaint);
      HandlerAfterPassingOn(View(), signal, groupAnswers, complaint);
      var alive := PassOn(signal, groupAnswers, complaint);
      if !alive {
        MarkDone(signal);
        return;
      }
      AwaitGroup(signal);
    }

    method KillTimerElapsed(id: TimerId, complaint: string)
      requires Valid() && id in loop.armed
      modifies this, state, registry
      ensures Did(OnKillTimer(old(View()), id, complaint))
    {
      hide RunOk;
      ReactKeepsRunOk(View(), KillTimerFired(id, complaint));
      TimedIsHere(View());
      ghost var killed := Killed(View(), id, complaint);
      var timer := loop.armed[id];
      loop := loop.(armed := loop.armed - {id});
      waitingForKillGrace := false;
      killTimer := None;
      SignalChild(SIGKILL, complaint);
      assert View() == killed;
      match timer {
        case Grace =>
          if childClosedResult.Some? {
            FinishClose(childClosedResult.value);
          }
        case ParentGrace(signal) =>
          MarkDone(signal);
      }
    }

    method TimeoutElapsed(complaint: string)
      requires Valid() && loop.timeoutArmed
      modifies this
      ensures Did(OnTimeout(old(View()), complaint))
    {
      hide RunOk;
      TimeoutKeepsRunOk(View(), complaint);
      loop := loop.(timeoutArmed := false);
      timedOut := true;
      SignalChild(SIGTERM, complaint);
      ScheduleKill();
    }

    /** The child closes while a parent signal is being relayed. */
    method CloseRelayed(exit: Exit, groupAnswers: bool)
      requires parentSignalPending.Some?
      modifies this`childClosedResult, this`killTimer, this`loop, this`log, state`done, registry`reraised
      ensures var r := Probe(old(View()), groupAnswers);
        View() ==
          if groupAnswers then r.(childClosedResult := Some(exit))
          else r.(loop := ClearTimer(r.loop, r.killTimer), killTimer := None, done := true)
      ensures registry.reraised ==
        if !groupAnswers && registry.AllSignalledAndDone() then parentSignalPending else old(registry.reraised)
    {
      var alive := ProcessGroupIsAlive(groupAnswers);
      if alive {
        childClosedResult := Some(exit);
        return;
      }
      ClearKillTimer();
      killTimer := None;
      MarkDone(parentSignalPending.value);
    }

    /** And while none is: a scheduled kill waits for a group that is still there. */
    method ClosePlainly(exit: Exit, groupAnswers: bool)
      requires parentSignalPending.None?
      modifies this, registry`active
      ensures var r := old(View());
        View() ==
          if r.waitingForKillGrace && groupAnswers then r.(childClosedResult := Some(exit))
          else RunProcess.FinishClose(Probe(r, !r.waitingForKillGrace), exit)
      ensures registry.active ==
        if !old(settled) && !(old(waitingForKillGrace) && groupAnswers) then old(registry.active) - {state}
        else old(registry.active)
    {
      if waitingForKillGrace {
        var alive := ProcessGroupIsAlive(groupAnswers);
        if alive {
          childClosedResult := Some(exit);
          return;
        }
      }
      FinishClose(exit);
    }

    method ChildClosed(exit: Exit, groupAnswers: bool)
      requires Valid() && !loop.closeSeen
      modifies this, state, registry
      ensures Did(OnClose(old(View()), exit, groupAnswers))
    {
      hide RunOk;
      ReactKeepsRunOk(View(), Closed(exit, groupAnswers));
      RelayedIsHere(View());
      loop := loop.(closeSeen := true);
      log := log.(exit := Some(exit));
      if parentSignalPending.Some? {
        CloseRelayed(exit, groupAnswers);
        return;
      }
      ClosePlainly(exit, groupAnswers);
    }

    method ChildErrored()
      requires Valid()
      modifies this, registry
      ensures Did(OnError(old(View())))
    {
      hide RunOk;
      ErrorKeepsRunOk(View());
      loop := loop.(errorSeen := true);
      Settle(RejectedError);
    }

    method StdoutData(chunk: string)
      requires Valid()
      modifies this
      ensures Did(OnStdout(old(View()), chunk))
    {
      hide RunOk;
      StdoutKeepsRunOk(View(), chunk);
      stdout := Append(stdout, chunk, options.maxOutputChars);
      log := log.(written := log.written + chunk);
    }

    method StderrData(chunk: string)
      requires Valid()
      modifies this
      ensures Did(OnStderr(old(View()), chunk))
    {
      hide RunOk;
      StderrKeepsRunOk(View(), chunk);
      stderr := Append(stderr, chunk, options.maxOutputChars);
      log := log.(errors := log.errors + chunk);
    }
  }
}
