/**
 One supervised child process of `runProcess` (scripts/control-ui-i18n.ts): what each callback of
 the Node event loop does to the variables of the closure. The operating system is not part of the
 model: whether the process group answers a probe, what a failed `kill` prints and which callback
 comes next are all parameters.
 */
module RunProcess {
  import opened Common
  import opened BoundedOutput

  datatype Signal = SIGINT | SIGTERM | SIGHUP | SIGKILL

  datatype Exit = Exit(code: Option<int>, signal: Option<Signal>)

  type TimerId = nat

  /** `Grace` is the timer of scheduleKill, `ParentGrace` the one set while relaying a parent signal. */
  datatype Timer = Grace | ParentGrace(signal: Signal)

  datatype Options = Options(maxOutputChars: nat, rejectOnFailure: bool)

  /** How the promise of a run is settled. */
  datatype Settlement =
    | RejectedTimedOut
    | RejectedFailed(exit: Exit, failureStdout: Capture, failureStderr: Capture)
    | RejectedTruncated
    | RejectedError
    | Resolved(code: int, stdout: string, stderr: Capture)

  const RELAYED_SIGNALS: set<Signal> := {SIGINT, SIGTERM, SIGHUP}

  /** What the event loop still holds for a run: listeners, timers, and which `once` listeners fired. */
  datatype EventLoop = EventLoop(
    handlers: set<Signal>,
    timeoutArmed: bool,
    armed: map<TimerId, Timer>,
    nextTimer: TimerId,
    closeSeen: bool,
    errorSeen: bool)

  /** What has happened to a run so far: the signals sent, whether its group was found dead, how the promise was
      settled, how the child closed, and everything that went to its output and to its error output. */
  datatype Log = Log(
    sent: seq<Signal>,
    groupSeenDead: bool,
    settlements: seq<Settlement>,
    exit: Option<Exit>,
    written: string,
    errors: string)

  /** The variables of one closure. */
  datatype Run = Run(
    options: Options,
    stdout: Capture,
    stderr: Capture,
    timedOut: bool,
    settled: bool,
    waitingForKillGrace: bool,
    childClosedResult: Option<Exit>,
    killTimer: Option<TimerId>,
    parentSignalPending: Option<Signal>,
    // the record shared through the registry
    done: bool,
    signal: Option<Signal>,
    loop: EventLoop,
    log: Log)

  function Started(options: Options): Run {
    Run(options, EMPTY_CAPTURE, EMPTY_CAPTURE, false, false, false, None, None, None, false, None,
        EventLoop(RELAYED_SIGNALS, true, map[], 0, false, false), Log([], false, [], None, "", ""))
  }

  // ----- the helpers of the closure -----

  /** A `kill` that fails with anything but ESRCH leaves a complaint in stderr. */
  function SignalChild(r: Run, signal: Signal, complaint: string): Run {
    r.(log := r.log.(sent := r.log.sent + [signal], errors := r.log.errors + complaint),
       stderr := if complaint == "" then r.stderr else Append(r.stderr, complaint, r.options.maxOutputChars))
  }

  /** clearTimeout; clearing nothing, or a timer that has fired, does nothing. */
  function ClearTimer(loop: EventLoop, timer: Option<TimerId>): EventLoop {
    loop.(armed := if timer.Some? then loop.armed - {timer.value} else loop.armed)
  }

  /** killTimer = setTimeout(...) */
  function SetKillTimer(r: Run, timer: Timer): Run {
    var id := r.loop.nextTimer;
    r.(killTimer := Some(id), loop := r.loop.(armed := r.loop.armed[id := timer], nextTimer := id + 1))
  }

  /** processGroupIsAlive, remembering a negative answer. */
  function Probe(r: Run, alive: bool): Run {
    r.(log := r.log.(groupSeenDead := r.log.groupSeenDead || !alive))
  }

  function Settle(r: Run, settlement: Settlement): Run {
    if r.settled then r
    else
      var kept := if r.parentSignalPending.None? then ClearTimer(r.loop, r.killTimer) else r.loop;
      r.(settled := true,
         loop := kept.(timeoutArmed := false, handlers := {}),
         log := r.log.(settlements := r.log.settlements + [settlement]))
  }

  function ExitCode(exit: Exit): int { exit.code.GetOr(1) }

  function CloseSettlement(r: Run, exit: Exit): Settlement {
    if r.timedOut then RejectedTimedOut
    else if ExitCode(exit) != 0 && r.options.rejectOnFailure then RejectedFailed(exit, r.stdout, r.stderr)
    else if ExitCode(exit) == 0 && r.stdout.truncatedChars > 0 then RejectedTruncated
    else Resolved(ExitCode(exit), r.stdout.text, r.stderr)
  }

  function FinishClose(r: Run, exit: Exit): Run { Settle(r, CloseSettlement(r, exit)) }

  function ScheduleKill(r: Run): Run {
    if r.waitingForKillGrace then r else SetKillTimer(r.(waitingForKillGrace := true), Grace)
  }

  // ----- the callbacks -----

  /** A callback's outcome: the closure afterwards and whether it looks at the registry. */
  datatype Outcome = Outcome(run: Run, asks: bool)

  /** The `process.once(signal, handler)` callback; `once` has already dropped the fired handler. */
  function OnParentSignal(r: Run, signal: Signal, alive: bool, complaint: string): Outcome {
    var r1 := SignalChild(r.(parentSignalPending := Some(signal), signal := Some(signal)), signal, complaint);
    var r2 := Probe(r1.(loop := r1.loop.(handlers := {})), alive);
    if !alive then Outcome(r2.(done := true), true)
    else
      var r3 := r2.(loop := ClearTimer(r2.loop, r2.killTimer), waitingForKillGrace := true);
      Outcome(SetKillTimer(r3, ParentGrace(signal)), false)
  }

  /** The part both kill timers share: the timer is gone and SIGKILL has been sent. */
  function Killed(r: Run, id: TimerId, complaint: string): Run {
    SignalChild(r.(loop := ClearTimer(r.loop, Some(id)), waitingForKillGrace := false, killTimer := None), SIGKILL, complaint)
  }

  function OnKillTimer(r: Run, id: TimerId, complaint: string): Outcome
    requires id in r.loop.armed
  {
    var killed := Killed(r, id, complaint);
    match r.loop.armed[id]
    case Grace =>
      Outcome(if r.childClosedResult.Some? then FinishClose(killed, r.childClosedResult.value) else killed, false)
    case ParentGrace(_) => Outcome(killed.(done := true), true)
  }

  function OnTimeout(r: Run, complaint: string): Outcome {
    Outcome(ScheduleKill(SignalChild(r.(loop := r.loop.(timeoutArmed := false), timedOut := true), SIGTERM, complaint)), false)
  }

  function OnClose(r: Run, exit: Exit, alive: bool): Outcome {
    var r0 := r.(loop := r.loop.(closeSeen := true), log := r.log.(exit := Some(exit)));
    if r0.parentSignalPending.Some? then
      var r1 := Probe(r0, alive);
      if alive then Outcome(r1.(childClosedResult := Some(exit)), false)
      else Outcome(r1.(loop := ClearTimer(r1.loop, r1.killTimer), killTimer := None, done := true), true)
    else if r0.waitingForKillGrace && alive then Outcome(r0.(childClosedResult := Some(exit)), false)
    else
      // the group is probed only while a kill is scheduled
      Outcome(FinishClose(Probe(r0, !r0.waitingForKillGrace), exit), false)
  }

  function OnError(r: Run): Outcome { Outcome(Settle(r.(loop := r.loop.(errorSeen := true)), RejectedError), false) }

  function OnStdout(r: Run, chunk: string): Outcome {
    Outcome(r.(stdout := Append(r.stdout, chunk, r.options.maxOutputChars),
               log := r.log.(written := r.log.written + chunk)), false)
  }

  function OnStderr(r: Run, chunk: string): Outcome {
    Outcome(r.(stderr := Append(r.stderr, chunk, r.options.maxOutputChars),
               log := r.log.(errors := r.log.errors + chunk)), false)
  }

  /** What the event loop can deliver to one run. */
  datatype Callback =
    | Signalled(via: Signal, alive: bool, complaint: string)
    | KillTimerFired(id: TimerId, complaint: string)
    | TimeoutFired(complaint: string)
    | Closed(exit: Exit, alive: bool)
    | Errored
    | Stdout(chunk: string)
    | Stderr(chunk: string)

  /** Callbacks that are still registered; `close` and `error` are `once` listeners. */
  predicate Deliverable(r: Run, c: Callback) {
    match c
    case Signalled(via, _, _) => via in r.loop.handlers
    case KillTimerFired(id, _) => id in r.loop.armed
    case TimeoutFired(_) => r.loop.timeoutArmed
    case Closed(_, _) => !r.loop.closeSeen
    case Errored => !r.loop.errorSeen
    case Stdout(_) => true
    case Stderr(_) => true
  }

  function React(r: Run, c: Callback): Outcome
    requires Deliverable(r, c)
  {
    match c
    case Signalled(via, alive, complaint) => OnParentSignal(r, via, alive, complaint)
    case KillTimerFired(id, complaint) => OnKillTimer(r, id, complaint)
    case TimeoutFired(complaint) => OnTimeout(r, complaint)
    case Closed(exit, alive) => OnClose(r, exit, alive)
    case Errored => OnError(r)
    case Stdout(chunk) => OnStdout(r, chunk)
    case Stderr(chunk) => OnStderr(r, chunk)
  }

  // ----- what holds of one run at every moment -----

  ghost predicate GroupHandled(r: Run) { r.log.groupSeenDead || SIGKILL in r.log.sent }

  /** A run stays in the registry until it settles without a parent signal. */
  predicate Departed(r: Run) { r.settled && r.parentSignalPending.None? }

  ghost predicate TimersOk(r: Run) {
    && (forall id :: id in r.loop.armed ==> r.killTimer == Some(id) && id < r.loop.nextTimer)
    && (r.loop.armed != map[] ==> r.waitingForKillGrace)
    && (forall id :: id in r.loop.armed && r.loop.armed[id].ParentGrace? ==>
          r.parentSignalPending == Some(r.loop.armed[id].signal) && !r.done)
    && (r.parentSignalPending.Some? && !r.done ==>
          r.killTimer.Some? && r.killTimer.value in r.loop.armed && r.loop.armed[r.killTimer.value].ParentGrace?)
    && (r.waitingForKillGrace && !r.settled && r.parentSignalPending.None? ==>
          r.killTimer.Some? && r.killTimer.value in r.loop.armed)
  }

  ghost predicate HandlersOk(r: Run) {
    && r.signal == r.parentSignalPending
    && r.loop.handlers == (if r.settled || r.parentSignalPending.Some? then {} else RELAYED_SIGNALS)
    && (r.settled ==> !r.loop.timeoutArmed)
    && (Departed(r) ==> r.loop.armed == map[])
    && (r.done ==> r.parentSignalPending.Some? && GroupHandled(r))
    && (r.parentSignalPending.Some? ==> r.parentSignalPending.value in r.log.sent)
  }

  ghost predicate SettlementOk(r: Run) {
    && |r.log.settlements| == (if r.settled then 1 else 0)
    && (r.timedOut ==> SIGTERM in r.log.sent && (r.waitingForKillGrace || SIGKILL in r.log.sent))
    && (RejectedTimedOut in r.log.settlements ==> r.timedOut && GroupHandled(r))
    && (r.loop.closeSeen <==> r.log.exit.Some?)
    && (r.childClosedResult.Some? ==> r.childClosedResult == r.log.exit)
  }

  /** A run whose child has closed is unsettled only while its kill timer is running. */
  ghost predicate ClosedIsRemembered(r: Run) {
    r.loop.closeSeen && !r.settled && r.parentSignalPending.None? ==>
      r.childClosedResult.Some? && r.waitingForKillGrace
  }

  ghost predicate OutputOk(r: Run) {
    && r.options.maxOutputChars > 0
    && Holds(r.stdout, r.log.written, r.options.maxOutputChars)
    && Holds(r.stderr, r.log.errors, r.options.maxOutputChars)
  }

  ghost predicate RunCoreOk(r: Run) { TimersOk(r) && HandlersOk(r) && SettlementOk(r) && OutputOk(r) }

  ghost predicate RunOk(r: Run) { RunCoreOk(r) && ClosedIsRemembered(r) }

  lemma {:induction false} StartedIsOk(options: Options)
    requires options.maxOutputChars > 0
    ensures RunOk(Started(options))
  {
    var r := Started(options);
    assert Holds(EMPTY_CAPTURE, "", options.maxOutputChars);
    assert TimersOk(r) && HandlersOk(r) && SettlementOk(r) && OutputOk(r) && ClosedIsRemembered(r);
  }

  lemma {:induction false} SignalChildKeepsOutput(r: Run, signal: Signal, complaint: string)
    requires OutputOk(r)
    ensures OutputOk(SignalChild(r, signal, complaint))
  {
    AppendHolds(r.stderr, r.log.errors, complaint, r.options.maxOutputChars);
    assert r.log.errors + "" == r.log.errors;
  }

  lemma SettleKeepsCore(r: Run, settlement: Settlement)
    requires RunCoreOk(r)
    requires settlement == RejectedTimedOut ==> r.timedOut && GroupHandled(r)
    ensures RunCoreOk(Settle(r, settlement)) && Settle(r, settlement).settled
  {
  }

  lemma {:induction false} ParentSignalKeepsRunOk(r: Run, signal: Signal, alive: bool, complaint: string)
    requires RunOk(r) && signal in r.loop.handlers
    ensures RunOk(OnParentSignal(r, signal, alive, complaint).run)
  {
    SignalChildKeepsOutput(r, signal, complaint);
    RelayKeepsTimers(r, signal, alive, complaint);
    hide Holds, Append, TimersOk;
  }

  lemma RelayKeepsTimers(r: Run, signal: Signal, alive: bool, complaint: string)
    requires RunOk(r) && signal in r.loop.handlers
    ensures TimersOk(OnParentSignal(r, signal, alive, complaint).run)
  {
  }

  lemma {:induction false} KilledKeepsCore(r: Run, id: TimerId, complaint: string)
    requires RunOk(r) && id in r.loop.armed && r.loop.armed[id].Grace?
    ensures RunCoreOk(Killed(r, id, complaint)) && GroupHandled(Killed(r, id, complaint))
  {
    SignalChildKeepsOutput(r, SIGKILL, complaint);
    hide Holds, Append;
  }

  lemma {:induction false} GraceTimerKeepsRunOk(r: Run, id: TimerId, complaint: string)
    requires RunOk(r) && id in r.loop.armed && r.loop.armed[id].Grace?
    ensures RunOk(OnKillTimer(r, id, complaint).run)
  {
    KilledKeepsCore(r, id, complaint);
    if r.childClosedResult.Some? {
      var killed := Killed(r, id, complaint);
      SettleKeepsCore(killed, CloseSettlement(killed, r.childClosedResult.value));
    }
  }

  lemma {:induction false} ParentGraceTimerKeepsRunOk(r: Run, id: TimerId, complaint: string)
    requires RunOk(r) && id in r.loop.armed && r.loop.armed[id].ParentGrace?
    ensures RunOk(OnKillTimer(r, id, complaint).run)
  {
    SignalChildKeepsOutput(r, SIGKILL, complaint);
    hide Holds, Append;
  }

  lemma {:induction false} TimeoutKeepsRunOk(r: Run, complaint: string)
    requires RunOk(r) && r.loop.timeoutArmed
    ensures RunOk(OnTimeout(r, complaint).run)
  {
    SignalChildKeepsOutput(r, SIGTERM, complaint);
    hide Holds, Append;
  }

  lemma {:induction false} RelayedCloseKeepsRunOk(r: Run, exit: Exit, alive: bool)
    requires RunOk(r) && !r.loop.closeSeen && r.parentSignalPending.Some?
    ensures RunOk(OnClose(r, exit, alive).run)
  {
    hide Holds;
  }

  lemma {:induction false} PlainCloseKeepsRunOk(r: Run, exit: Exit, alive: bool)
    requires RunOk(r) && !r.loop.closeSeen && r.parentSignalPending.None?
    ensures RunOk(OnClose(r, exit, alive).run)
  {
    var closed := r.(loop := r.loop.(closeSeen := true), log := r.log.(exit := Some(exit)));
    assert RunCoreOk(closed);
    if r.waitingForKillGrace && alive {
      assert RunCoreOk(closed.(childClosedResult := Some(exit)));
    } else {
      var probed := Probe(closed, !closed.waitingForKillGrace);
      assert RunCoreOk(probed);
      SettleKeepsCore(probed, CloseSettlement(probed, exit));
    }
  }

  lemma {:induction false} ErrorKeepsRunOk(r: Run)
    requires RunOk(r)
    ensures RunOk(OnError(r).run)
  {
    assert RunCoreOk(r.(loop := r.loop.(errorSeen := true)));
    SettleKeepsCore(r.(loop := r.loop.(errorSeen := true)), RejectedError);
  }

  lemma {:induction false} StdoutKeepsRunOk(r: Run, chunk: string)
    requires RunOk(r)
    ensures RunOk(OnStdout(r, chunk).run)
  {
    AppendHolds(r.stdout, r.log.written, chunk, r.options.maxOutputChars);
    assert OutputOk(OnStdout(r, chunk).run);
    assert TimersOk(OnStdout(r, chunk).run);
  }

  lemma {:induction false} StderrKeepsRunOk(r: Run, chunk: string)
    requires RunOk(r)
    ensures RunOk(OnStderr(r, chunk).run)
  {
    AppendHolds(r.stderr, r.log.errors, chunk, r.options.maxOutputChars);
    assert OutputOk(OnStderr(r, chunk).run);
    assert TimersOk(OnStderr(r, chunk).run);
  }

  /** Every callback, in whatever order the event loop delivers them, keeps all of the above. */
  lemma {:induction false} ReactKeepsRunOk(r: Run, c: Callback)
    requires RunOk(r) && Deliverable(r, c)
    ensures RunOk(React(r, c).run)
  {
    match c
    case Signalled(via, alive, complaint) => ParentSignalKeepsRunOk(r, via, alive, complaint);
    case KillTimerFired(id, complaint) =>
      if r.loop.armed[id].Grace? { GraceTimerKeepsRunOk(r, id, complaint); }
      else { ParentGraceTimerKeepsRunOk(r, id, complaint); }
    case TimeoutFired(complaint) => TimeoutKeepsRunOk(r, complaint);
    case Closed(exit, alive) =>
      if r.parentSignalPending.Some? { RelayedCloseKeepsRunOk(r, exit, alive); }
      else { PlainCloseKeepsRunOk(r, exit, alive); }
    case Errored => ErrorKeepsRunOk(r);
    case Stdout(chunk) => StdoutKeepsRunOk(r, chunk);
    case Stderr(chunk) => StderrKeepsRunOk(r, chunk);
  }

  // ----- what the callbacks do -----

  /** A run becomes done, and looks at the registry, when its group is gone during a relay or the relay's
      grace is over, and never otherwise. */
  lemma BecomesDoneIff(r: Run, c: Callback)
    requires RunOk(r) && Deliverable(r, c) && !r.done
    ensures React(r, c).run.done <==>
      || (c.Signalled? && !c.alive)
      || (c.KillTimerFired? && r.loop.armed[c.id].ParentGrace?)
      || (c.Closed? && !c.alive && r.parentSignalPending.Some?)
    ensures React(r, c).asks <==> React(r, c).run.done
  {
  }

  /** A run settles on an error, on a close that need not wait for a kill, and at the end of a kill grace
      that outlasted the child, and never otherwise. */
  lemma SettlesIff(r: Run, c: Callback)
    requires RunOk(r) && Deliverable(r, c) && !r.settled
    ensures React(r, c).run.settled <==>
      || c.Errored?
      || (c.Closed? && r.parentSignalPending.None? && !(r.waitingForKillGrace && c.alive))
      || (c.KillTimerFired? && r.loop.armed[c.id].Grace? && r.childClosedResult.Some?)
  {
  }

  /** A timeout never settles by itself: unless a relay is in charge, it leaves a kill timer running. */
  lemma TimeoutLeadsToKill(r: Run, complaint: string)
    requires RunOk(r) && r.loop.timeoutArmed
    ensures var t := OnTimeout(r, complaint).run;
      && t.timedOut && !t.settled
      && (t.parentSignalPending.None? ==> t.killTimer.Some? && t.killTimer.value in t.loop.armed)
  {
  }

  /** A relay replaces whatever timer was running by its own, or ends at once if the group is gone. */
  lemma RelayStarts(r: Run, signal: Signal, alive: bool, complaint: string)
    requires RunOk(r) && signal in r.loop.handlers
    ensures var t := OnParentSignal(r, signal, alive, complaint).run;
      && t.parentSignalPending == t.signal == Some(signal) && t.loop.handlers == {}
      && (alive ==> t.killTimer.Some? && t.loop.armed == map[t.killTimer.value := ParentGrace(signal)])
      && (!alive ==> t.done)
  {
  }

  /** A run listens for exactly the three signals, until one of them is relayed or it has settled. */
  lemma ListensIff(r: Run, signal: Signal)
    requires RunOk(r)
    ensures Deliverable(r, Signalled(signal, true, "")) <==>
      signal != SIGKILL && !r.settled && r.parentSignalPending.None?
  {
  }

  // ----- what that means for the promise -----

  /** The promise settles at most once, and what it was settled with never changes. */
  lemma {:induction false} SettlesAtMostOnce(r: Run, c: Callback)
    requires RunOk(r) && Deliverable(r, c)
    ensures r.log.settlements <= React(r, c).run.log.settlements
    ensures |React(r, c).run.log.settlements| <= 1
  {
    ReactKeepsRunOk(r, c);
  }

  /** An error is what rejects as an error; otherwise a run that timed out, and no other, is rejected as timed
      out, and only once its group is dead or was killed. */
  lemma {:induction false} WhatSettles(r: Run, c: Callback)
    requires RunOk(r) && Deliverable(r, c) && !r.settled && React(r, c).run.settled
    ensures React(r, c).run.log.settlements == [RejectedError] <==> c.Errored?
    ensures React(r, c).run.log.settlements == [RejectedTimedOut] <==> (!c.Errored? && r.timedOut)
    ensures !c.Errored? && r.timedOut ==> GroupHandled(React(r, c).run)
  {
    ReactKeepsRunOk(r, c);
    var after := React(r, c).run;
    assert |after.log.settlements| == 1;
    assert RejectedTimedOut in after.log.settlements <==> after.log.settlements == [RejectedTimedOut];
  }

  /** What is due to a run whose child has closed like this: a timeout, if there was one; else the failure, if failures
      reject, with the newest part of both outputs; else a complaint about a successful child whose output is not all
      there; else the exit code, which is 1 for a child that a signal ended, with the newest part of both outputs. */
  ghost predicate IsDue(settlement: Settlement, r: Run, exit: Exit) {
    var limit, failed := r.options.maxOutputChars, exit.code != Some(0);
    match settlement
    case RejectedTimedOut => r.timedOut
    case RejectedFailed(how, stdout, stderr) =>
      && !r.timedOut && failed && r.options.rejectOnFailure && how == exit
      && Holds(stdout, r.log.written, limit) && Holds(stderr, r.log.errors, limit)
    case RejectedTruncated => !r.timedOut && !failed && |r.log.written| > limit
    case Resolved(code, stdout, stderr) =>
      && !r.timedOut && !(failed && r.options.rejectOnFailure)
      && code == (if exit.code.Some? then exit.code.value else 1)
      && |stdout| == Min(|r.log.written|, limit) && stdout == r.log.written[|r.log.written| - |stdout|..]
      && (!failed ==> stdout == r.log.written)
      && Holds(stderr, r.log.errors, limit)
    case RejectedError => false
  }

  /** Only one settlement is due. */
  lemma DueIsUnique(a: Settlement, b: Settlement, r: Run, exit: Exit)
    requires IsDue(a, r, exit) && IsDue(b, r, exit)
    ensures a == b
  {
  }

  lemma {:induction false} CloseSettlementIsDue(r: Run, exit: Exit)
    requires OutputOk(r)
    ensures IsDue(CloseSettlement(r, exit), r, exit)
  {
  }

  /** A close that settles gives what is due. */
  lemma {:induction false} CloseIsFaithful(r: Run, exit: Exit, alive: bool)
    requires RunOk(r) && !r.loop.closeSeen && !r.settled && OnClose(r, exit, alive).run.settled
    ensures var after := OnClose(r, exit, alive).run;
      exists settlement :: after.log.settlements == [settlement] && IsDue(settlement, after, exit)
  {
    hide IsDue, CloseSettlement;
    var closed := Probe(r.(loop := r.loop.(closeSeen := true), log := r.log.(exit := Some(exit))), !r.waitingForKillGrace);
    CloseSettlementIsDue(closed, exit);
    SettledIsDue(closed, exit);
  }

  lemma {:induction false} SettledIsDue(r: Run, exit: Exit)
    requires !r.settled && r.log.settlements == [] && IsDue(CloseSettlement(r, exit), r, exit)
    ensures var after := FinishClose(r, exit);
      exists settlement :: after.log.settlements == [settlement] && IsDue(settlement, after, exit)
  {
    hide CloseSettlement;
    var after, settlement := FinishClose(r, exit), CloseSettlement(r, exit);
    assert after.log.settlements == [settlement] && IsDue(settlement, after, exit);
  }

  /** The end of a kill grace that settles gives what is due for the close it has waited for. */
  lemma {:induction false} KillTimerIsFaithful(r: Run, id: TimerId, complaint: string)
    requires RunOk(r) && id in r.loop.armed && !r.settled && OnKillTimer(r, id, complaint).run.settled
    ensures var after := OnKillTimer(r, id, complaint).run;
      && after.log.exit.Some?
      && exists settlement :: after.log.settlements == [settlement] && IsDue(settlement, after, after.log.exit.value)
  {
    hide IsDue, CloseSettlement;
    var killed := Killed(r, id, complaint);
    SignalChildKeepsOutput(r, SIGKILL, complaint);
    hide Holds, Append;
    assert r.loop.armed[id].Grace? && r.childClosedResult.Some? && OutputOk(killed);
    CloseSettlementIsDue(killed, r.childClosedResult.value);
    SettledIsDue(killed, r.childClosedResult.value);
  }

  /** A child that did not end with code zero, by a signal for one, is never taken for a success: if failures reject,
      the call is rejected, and otherwise it resolves with a code that is not zero. */
  lemma {:induction false} FailureIsReported(r: Run, exit: Exit, alive: bool)
    requires RunOk(r) && !r.loop.closeSeen && !r.settled && !r.timedOut && OnClose(r, exit, alive).run.settled
    requires exit.code != Some(0)
    ensures var settlements := OnClose(r, exit, alive).run.log.settlements;
      |settlements| == 1 &&
      if r.options.rejectOnFailure then settlements[0].RejectedFailed? && settlements[0].exit == exit
      else settlements[0].Resolved? && settlements[0].code == exit.code.GetOr(1) != 0
  {
    CloseIsFaithful(r, exit, alive);
    hide Holds;
    assert OnClose(r, exit, alive).run.options == r.options;
  }

  /** After a settlement without a parent signal nothing is left behind, now or later. */
  lemma SettledRunLeavesNothing(r: Run, c: Callback)
    requires RunOk(r) && Deliverable(r, c) && Departed(r)
    ensures r.loop.handlers == {} && r.loop.armed == map[] && !r.loop.timeoutArmed
    ensures Departed(React(r, c).run) && !React(r, c).asks && React(r, c).run.log.sent == r.log.sent
  {
  }

  /** A promise still open after the child has closed is one timer away from settling. */
  lemma ClosedRunIsOneTimerAway(r: Run, complaint: string)
    requires RunOk(r) && r.loop.closeSeen && !r.settled && r.parentSignalPending.None?
    ensures r.killTimer.Some? && r.killTimer.value in r.loop.armed
    ensures OnKillTimer(r, r.killTimer.value, complaint).run.settled
  {
  }
}
