/**
 The polling loop `waitForRestartProbe` (scripts/bench-gateway-restart.ts) over an arbitrary trace of
 probe attempts and stop flags, and what the measurements it returns mean.
 */
module RestartProbe {
  import opened Common

  /** One turn of the loop before the deadline: the two stop flags, then the attempt made unless they stop
      the loop, with the time since the signal when it came back. */
  datatype Turn = Turn(processDone: bool, done: bool, status: Option<int>, errorKind: Option<string>, elapsedMs: real)

  datatype Transition = Transition(ms: real, status: Option<int>, errorKind: Option<string>)

  datatype ProbeResult = ProbeResult(
    downtimeMs: Option<real>,
    firstErrorKind: Option<string>,
    firstRecoveryMs: Option<real>,
    ms: Option<real>,
    status: Option<int>,
    transitions: seq<Transition>,
    unavailableMs: Option<real>)

  predicate IsUp(t: Turn) { t.status == Some(200) }

  /** The text a state is compared by; the status part has no colon, so a pair says the same. */
  function StateKey(t: Turn): (Option<int>, string) { (t.status, t.errorKind.GetOr("ok")) }

  /** An empty error kind is as good as none. */
  function Reported(errorKind: Option<string>): Option<string> { if errorKind == Some("") then None else errorKind }

  // ----- where the loop stops -----

  /** The number of attempts made, from turn i on, once a failure (`down`) or a success (`up`) was seen. */
  function StopsAfter(turns: seq<Turn>, i: nat, down: bool, up: bool): (n: nat)
    requires i <= |turns|
    ensures i <= n <= |turns|
    decreases |turns| - i
  {
    if i == |turns| || turns[i].processDone || (turns[i].done && !down && up) then i
    else if IsUp(turns[i]) && down then i + 1
    else StopsAfter(turns, i + 1, down || !IsUp(turns[i]), up || IsUp(turns[i]))
  }

  /** The attempts that are made. */
  function Attempts(turns: seq<Turn>): seq<Turn> { turns[..StopsAfter(turns, 0, false, false)] }

  // ----- what the attempts say -----

  function FirstDown(attempts: seq<Turn>): (down: Option<nat>)
    ensures down.Some? ==> down.value < |attempts| && attempts[down.value].status != Some(200)
    ensures forall i :: 0 <= i < (if down.Some? then down.value else |attempts|) ==> attempts[i].status == Some(200)
  {
    if attempts == [] then None
    else
      var before := FirstDown(attempts[..|attempts| - 1]);
      if before.Some? then before
      else if IsUp(attempts[|attempts| - 1]) then None else Some(|attempts| - 1)
  }

  /** An attempt that finds the server up after it was down. */
  ghost predicate Recovers(attempts: seq<Turn>, i: nat) {
    i < |attempts| && attempts[i].status == Some(200) && FirstDown(attempts).Some? && FirstDown(attempts).value < i
  }

  function FirstErrorKind(attempts: seq<Turn>): Option<string> {
    if attempts == [] then None
    else
      var before := FirstErrorKind(attempts[..|attempts| - 1]);
      if before.Some? then before else Reported(attempts[|attempts| - 1].errorKind)
  }

  /** The attempts whose state differs from that of the attempt before. */
  function ChangePoints(attempts: seq<Turn>): (points: seq<nat>)
    ensures forall k :: 0 <= k < |points| ==> points[k] < |attempts|
  {
    if attempts == [] then []
    else
      var last := |attempts| - 1;
      ChangePoints(attempts[..last]) +
      (if last == 0 || StateKey(attempts[last]) != StateKey(attempts[last - 1]) then [last] else [])
  }

  function TransitionAt(t: Turn): Transition { Transition(t.elapsedMs, t.status, Reported(t.errorKind)) }

  function Transitions(attempts: seq<Turn>): seq<Transition> {
    var points := ChangePoints(attempts);
    seq(|points|, k requires 0 <= k < |points| => TransitionAt(attempts[points[k]]))
  }

  /** Downtime is the first 200 after the first other answer minus the time of that answer; a time is
      reported exactly when the server recovered or was only ever seen up. */
  ghost predicate Means(attempts: seq<Turn>, result: ProbeResult) {
    var down := FirstDown(attempts);
    && result.transitions == Transitions(attempts)
    && result.firstErrorKind == FirstErrorKind(attempts)
    && result.unavailableMs == (if down.Some? then Some(attempts[down.value].elapsedMs) else None)
    && result.status == (if attempts == [] then None else attempts[|attempts| - 1].status)
    && if down.Some? && Recovers(attempts, |attempts| - 1) then
         var recovery := attempts[|attempts| - 1].elapsedMs;
         && result.downtimeMs == Some(recovery - attempts[down.value].elapsedMs)
         && result.firstRecoveryMs == Some(recovery) && result.ms == Some(recovery)
       else
         && result.downtimeMs == None && result.firstRecoveryMs == None
         && result.ms == (if down.None? && attempts != [] then Some(attempts[|attempts| - 1].elapsedMs) else None)
  }

  /** When the server was first seen down. */
  function DownSince(attempts: seq<Turn>): Option<real> {
    var down := FirstDown(attempts);
    if down.Some? then Some(attempts[down.value].elapsedMs) else None
  }

  lemma StoppedMeans(attempts: seq<Turn>, result: ProbeResult)
    requires result.transitions == Transitions(attempts) && result.firstErrorKind == FirstErrorKind(attempts)
    requires result.unavailableMs == DownSince(attempts) && result.downtimeMs == None && result.firstRecoveryMs == None
    requires result.status == if attempts == [] then None else attempts[|attempts| - 1].status
    requires result.ms == if result.unavailableMs.None? && attempts != [] then Some(attempts[|attempts| - 1].elapsedMs) else None
    requires result.unavailableMs.Some? ==> attempts != [] && !IsUp(attempts[|attempts| - 1])
    ensures Means(attempts, result)
  {
  }

  lemma {:induction false} RecoveredMeans(attempts: seq<Turn>, result: ProbeResult)
    requires attempts != [] && IsUp(attempts[|attempts| - 1])
    requires result.transitions == Transitions(attempts) && result.firstErrorKind == FirstErrorKind(attempts)
    requires result.unavailableMs == DownSince(attempts) && result.unavailableMs.Some?
    requires result.status == attempts[|attempts| - 1].status
    requires result.ms == result.firstRecoveryMs == Some(attempts[|attempts| - 1].elapsedMs)
    requires result.downtimeMs == Some(attempts[|attempts| - 1].elapsedMs - result.unavailableMs.value)
    ensures Means(attempts, result)
  {
    hide Transitions, FirstErrorKind;
  }

  method WaitForRestartProbe(turns: seq<Turn>) returns (result: ProbeResult)
    ensures Means(Attempts(turns), result)
  {
    var firstErrorKind: Option<string> := None;
    var lastStatus: Option<int> := None;
    var lastStateKey: Option<(Option<int>, string)> := None;
    var lastSuccessMs: Option<real> := None;
    var unavailableMs: Option<real> := None;
    var transitions: seq<Transition> := [];
    var i: nat := 0;
    assert turns[..0] == [];
    while i < |turns|
      invariant i <= |turns|
      invariant StopsAfter(turns, 0, false, false) == StopsAfter(turns, i, unavailableMs.Some?, lastSuccessMs.Some?)
      invariant transitions == Transitions(turns[..i]) && firstErrorKind == FirstErrorKind(turns[..i])
      invariant unavailableMs == DownSince(turns[..i])
      invariant lastStatus == if i == 0 then None else turns[i - 1].status
      invariant lastStateKey == if i == 0 then None else Some(StateKey(turns[i - 1]))
      invariant unavailableMs.None? ==> lastSuccessMs == if i == 0 then None else Some(turns[i - 1].elapsedMs)
      invariant unavailableMs.Some? ==> i > 0 && !IsUp(turns[i - 1])
    {
      var turn := turns[i];
      if turn.processDone {
        break;
      }
      if turn.done && unavailableMs.None? && lastSuccessMs.Some? {
        result := ProbeResult(None, firstErrorKind, None, lastSuccessMs, Some(200), transitions, None);
        StoppedMeans(turns[..i], result);
        return;
      }
      AttemptExtends(turns, i);
      assert StopsAfter(turns, i, unavailableMs.Some?, lastSuccessMs.Some?) ==
        if IsUp(turn) && unavailableMs.Some? then i + 1
        else StopsAfter(turns, i + 1, unavailableMs.Some? || !IsUp(turn), lastSuccessMs.Some? || IsUp(turn));
      hide Transitions, FirstErrorKind, FirstDown, DownSince, StopsAfter, StateKey, TransitionAt, Reported, Means;
      lastStatus := turn.status;
      if lastStateKey != Some(StateKey(turn)) {
        transitions := transitions + [TransitionAt(turn)];
        lastStateKey := Some(StateKey(turn));
      }
      if firstErrorKind.None? {
        firstErrorKind := Reported(turn.errorKind);
      }
      if !IsUp(turn) && unavailableMs.None? {
        unavailableMs := Some(turn.elapsedMs);
      }
      if IsUp(turn) {
        lastSuccessMs := Some(turn.elapsedMs);
      }
      i := i + 1;
      if IsUp(turn) && unavailableMs.Some? {
        result := ProbeResult(Some(turn.elapsedMs - unavailableMs.value), firstErrorKind, Some(turn.elapsedMs),
                              Some(turn.elapsedMs), turn.status, transitions, unavailableMs);
        RecoveredMeans(turns[..i], result);
        return;
      }
    }
    hide Transitions, FirstErrorKind, FirstDown, StateKey;
    result := ProbeResult(None, firstErrorKind, None, if unavailableMs.None? then lastSuccessMs else None,
                          lastStatus, transitions, unavailableMs);
    StoppedMeans(turns[..i], result);
  }

  /** One more attempt, in the terms of the specification. */
  lemma {:induction false} AttemptExtends(turns: seq<Turn>, i: nat)
    requires i < |turns|
    ensures var before, after := turns[..i], turns[..i + 1];
      && FirstDown(after) == (if FirstDown(before).Some? then FirstDown(before) else if IsUp(turns[i]) then None else Some(i))
      && DownSince(after) ==
           (if DownSince(before).Some? then DownSince(before) else if IsUp(turns[i]) then None else Some(turns[i].elapsedMs))
      && FirstErrorKind(after) == (if FirstErrorKind(before).Some? then FirstErrorKind(before) else Reported(turns[i].errorKind))
      && Transitions(after) == Transitions(before) +
           (if i == 0 || StateKey(turns[i]) != StateKey(turns[i - 1]) then [TransitionAt(turns[i])] else [])
  {
    assert turns[..i + 1][..i] == turns[..i];
  }

  // ----- consequences -----

  /** Transitions are the run-length compression of the observed states: an attempt is listed, in order and
      once, exactly when it is the first or its state differs from the one just before it. */
  lemma {:induction false} ChangePointsAreExactlyTheChanges(attempts: seq<Turn>, i: nat)
    requires i < |attempts|
    ensures forall k, l :: 0 <= k < l < |ChangePoints(attempts)| ==> ChangePoints(attempts)[k] < ChangePoints(attempts)[l]
    ensures i in ChangePoints(attempts) <==>
      || i == 0 || attempts[i].status != attempts[i - 1].status
      || attempts[i].errorKind.GetOr("ok") != attempts[i - 1].errorKind.GetOr("ok")
    decreases |attempts|
  {
    var last := |attempts| - 1;
    if last > 0 { ChangePointsAreExactlyTheChanges(attempts[..last], if i < last then i else 0); }
  }

  /** Each listed attempt is given with its time, its status and its error kind, if that says anything. */
  lemma TransitionsAreTheChanges(attempts: seq<Turn>)
    ensures |Transitions(attempts)| == |ChangePoints(attempts)|
    ensures forall k :: 0 <= k < |Transitions(attempts)| ==>
      var t, attempt := Transitions(attempts)[k], attempts[ChangePoints(attempts)[k]];
      && t.ms == attempt.elapsedMs && t.status == attempt.status
      && t.errorKind == (if attempt.errorKind.GetOr("") == "" then None else attempt.errorKind)
  {
  }

  /** The error kind that is reported is that of the first attempt whose error kind says anything. */
  lemma {:induction false} FirstErrorKindIs(attempts: seq<Turn>, i: nat)
    requires i <= |attempts|
    requires forall j :: 0 <= j < i ==> attempts[j].errorKind.GetOr("") == ""
    requires i < |attempts| ==> attempts[i].errorKind.GetOr("") != ""
    ensures FirstErrorKind(attempts) == if i < |attempts| then attempts[i].errorKind else None
    decreases |attempts|
  {
    if attempts != [] {
      var n := |attempts| - 1;
      FirstErrorKindIs(attempts[..n], if i < n then i else n);
    }
  }

  /** The loop stops at the first recovery, so a recovery can only be the last attempt. */
  lemma {:induction false} RecoveryIsLast(turns: seq<Turn>, i: nat)
    requires Recovers(Attempts(turns), i)
    ensures i == |Attempts(turns)| - 1
  {
    NoRecoveryBefore(turns, 0, false, false, i);
  }

  lemma {:induction false} NoRecoveryBefore(turns: seq<Turn>, start: nat, down: bool, up: bool, i: nat)
    requires start <= |turns|
    requires down <==> FirstDown(turns[..start]).Some?
    requires i < StopsAfter(turns, start, down, up) && start <= i
    requires IsUp(turns[i]) && FirstDown(turns[..i]).Some?
    ensures i + 1 == StopsAfter(turns, start, down, up)
    decreases |turns| - start
  {
    if i > start {
      AttemptExtends(turns, start);
      NoRecoveryBefore(turns, start + 1, down || !IsUp(turns[start]), up || IsUp(turns[start]), i);
    }
  }

  /** A turn in which the loop gives up instead of probing: the process is gone, or the caller is satisfied
      and the server has answered and was never seen down. */
  predicate GivesUp(turns: seq<Turn>, i: nat)
    requires i < |turns|
  {
    turns[i].processDone || (turns[i].done && i > 0 && FirstDown(turns[..i]).None?)
  }

  /** The loop probes as long as it may: every attempt was allowed, and if the deadline has not ended the
      loop it gave up or saw a recovery. */
  lemma {:induction false} StopsOnlyWithReason(turns: seq<Turn>, start: nat, down: bool, up: bool)
    requires start <= |turns|
    requires (down <==> FirstDown(turns[..start]).Some?) && (!down ==> (up <==> start > 0))
    ensures var n := StopsAfter(turns, start, down, up);
      && (forall i :: start <= i < n ==> !GivesUp(turns, i))
      && (n < |turns| ==> GivesUp(turns, n) || Recovers(turns[..n], n - 1))
    decreases |turns| - start
  {
    if start < |turns| {
      AttemptExtends(turns, start);
      assert turns[..start + 1] != [];
      hide Transitions, FirstErrorKind, FirstDown;
      if !(IsUp(turns[start]) && down) {
        StopsOnlyWithReason(turns, start + 1, down || !IsUp(turns[start]), up || IsUp(turns[start]));
      }
    }
  }

  /** A time is reported exactly when the server came back, or answered and was never seen down; and then
      the downtime is reported exactly in the first case. */
  lemma {:induction false} TimeIsReportedIff(turns: seq<Turn>, result: ProbeResult)
    requires Means(Attempts(turns), result)
    ensures var attempts := Attempts(turns);
      && (result.ms.Some? <==> (exists i :: Recovers(attempts, i)) || (attempts != [] && FirstDown(attempts).None?))
      && (result.downtimeMs.Some? <==> exists i :: Recovers(attempts, i))
  {
    var attempts := Attempts(turns);
    if i :| Recovers(attempts, i) { RecoveryIsLast(turns, i); }
  }
}
