/**
 The check-then-mkdir loop of `reserveCodeModeMatrixOutputDir` (scripts/code-mode-model-matrix.ts),
 run by any number of processes at once over a file system in which entries are only added. Every
 awaited lstat or mkdir is one step, and steps of different reservers and of other programs interleave
 in any order.
 */
module OutputReservation {
  import opened Common

  /** Segments below the repository root; the empty path is the root itself. */
  type Path = seq<string>

  type ReserverId = nat

  datatype Kind = Directory | Symlink | OtherFile

  /** What stands at a path, and which reserver made it. */
  datatype Entry = Entry(kind: Kind, creator: Option<ReserverId>)

  type FileSystem = map<Path, Entry>

  datatype Refusal = OutsideRepository | TraversesSymlink | AlreadyExists | ParentNotDirectory | SystemError

  datatype Status = Running | Reserved | Refused(reason: Refusal)

  /** The next system call of the loop body. */
  datatype Phase = Inspecting | Creating

  /** One call of the function: `level` segments of the target are in `current`. `raced` records that
      mkdir has lost to a concurrent creator at this level, `steps` counts system calls. */
  datatype Reserver = Reserver(target: Path, level: nat, phase: Phase, status: Status, raced: bool, steps: nat)

  datatype System = System(fs: FileSystem, reservers: map<ReserverId, Reserver>)

  datatype Event =
    | Begin(id: ReserverId, relative: Path)
    | Lstat(id: ReserverId)
    | Mkdir(id: ReserverId)
    | SystemFailure(id: ReserverId)
    | OthersAdd(path: Path, kind: Kind)

  function Parent(path: Path): Path
    requires path != []
  {
    path[..|path| - 1]
  }

  function Current(r: Reserver): Path
    requires r.level <= |r.target|
  {
    r.target[..r.level]
  }

  /** The guard before the loop: the output must be strictly inside the root. */
  function Started(relative: Path): Reserver {
    if relative == [] || relative[0] == ".." then Reserver(relative, 0, Inspecting, Refused(OutsideRepository), false, 0)
    else Reserver(relative, 1, Inspecting, Running, false, 0)
  }

  /** `break` out of the inner loop: the next segment, or done after the last one. */
  function Advance(r: Reserver, last: Status): Reserver {
    if r.level < |r.target| then r.(level := r.level + 1, phase := Inspecting, raced := false) else r.(status := last)
  }

  /** What a system call comes back with: lstat finds an entry or ENOENT, mkdir makes the directory or EEXIST. */
  datatype Answer = Found(kind: Kind) | Missing | Made | Exists | Failed

  function AfterAnswer(r: Reserver, answer: Answer): Reserver {
    var next := r.(steps := r.steps + 1);
    match (r.phase, answer)
    case (Inspecting, Missing) => next.(phase := Creating)
    case (Inspecting, Found(kind)) =>
      if kind == Symlink then next.(status := Refused(TraversesSymlink))
      else if r.level == |r.target| then next.(status := Refused(AlreadyExists))
      else if kind != Directory then next.(status := Refused(ParentNotDirectory))
      else Advance(next, Running)
    case (Creating, Made) => Advance(next, Reserved)
    case (Creating, Exists) => next.(phase := Inspecting, raced := true)
    case (_, _) => next.(status := Refused(SystemError))
  }

  function LstatAnswer(fs: FileSystem, path: Path): Answer { if path in fs then Found(fs[path].kind) else Missing }

  predicate CanCreate(fs: FileSystem, path: Path) {
    path != [] && path !in fs && Parent(path) in fs && fs[Parent(path)].kind == Directory
  }

  function MkdirAnswer(fs: FileSystem, path: Path): Answer {
    if path in fs then Exists else if CanCreate(fs, path) then Made else Failed
  }

  function AfterLstat(fs: FileSystem, r: Reserver): Reserver
    requires r.level <= |r.target|
  {
    AfterAnswer(r, LstatAnswer(fs, Current(r)))
  }

  function AfterMkdir(fs: FileSystem, r: Reserver): Reserver
    requires r.level <= |r.target|
  {
    AfterAnswer(r, MkdirAnswer(fs, Current(r)))
  }

  // ----- the loop -----

  /** A call that has received these answers. */
  function Follow(r: Reserver, answers: seq<Answer>): Reserver
    decreases |answers|
  {
    if r.status != Running || answers == [] then r else Follow(AfterAnswer(r, answers[0]), answers[1..])
  }

  /** Where a call stands that has made `calls` system calls and looks at the given level. */
  function At(relative: Path, level: nat, raced: bool, calls: nat): Reserver {
    Reserver(relative, level, Inspecting, Running, raced, calls)
  }

  /** The inner loop: None when the segment is passed, otherwise how the call ends. */
  method PassSegment(relative: Path, level: nat, answers: seq<Answer>, callsBefore: nat)
    returns (end: Option<Status>, calls: nat)
    requires 1 <= level <= |relative| && callsBefore <= |answers|
    ensures calls <= |answers|
    ensures var r := Follow(At(relative, level, false, callsBefore), answers[callsBefore..]);
      if end.Some? then r.status == end.value && r.steps == calls
      else if level < |relative| then r == Follow(At(relative, level + 1, false, calls), answers[calls..])
      else r.status == Reserved && r.steps == calls
  {
    hide Follow;
    calls := callsBefore;
    ghost var raced := false;
    while true
      invariant calls <= |answers|
      invariant Follow(At(relative, level, false, callsBefore), answers[callsBefore..])
             == Follow(At(relative, level, raced, calls), answers[calls..])
      decreases |answers| - calls
    {
      ghost var here := At(relative, level, raced, calls);
      FollowOne(here, answers, calls);
      if calls == |answers| {
        return Some(Running), calls;
      }
      var stats := answers[calls];
      calls := calls + 1;
      if stats.Found? {
        if stats.kind == Symlink {
          return Some(Refused(TraversesSymlink)), calls;
        }
        if level == |relative| {
          return Some(Refused(AlreadyExists)), calls;
        }
        if stats.kind != Directory {
          return Some(Refused(ParentNotDirectory)), calls;
        }
        return None, calls;
      }
      if !stats.Missing? {
        return Some(Refused(SystemError)), calls;
      }
      FollowOne(AfterAnswer(here, stats), answers, calls);
      if calls == |answers| {
        return Some(Running), calls;
      }
      var made := answers[calls];
      calls := calls + 1;
      if made.Made? {
        return None, calls;
      }
      if !made.Exists? {
        return Some(Refused(SystemError)), calls;
      }
      // a concurrent creator won the race: inspect its path
      raced := true;
    }
  }

  /** One call, given the answers of its system calls in order; it is still running if it waits for more. */
  method ReserveCodeModeMatrixOutputDir(relative: Path, answers: seq<Answer>) returns (status: Status, calls: nat)
    ensures var r := Follow(Started(relative), answers); status == r.status && calls == r.steps
  {
    if relative == [] || relative[0] == ".." {
      return Refused(OutsideRepository), 0;
    }
    hide Follow;
    calls := 0;
    assert answers[0..] == answers;
    for level := 1 to |relative| + 1
      invariant calls <= |answers|
      invariant var r := Follow(Started(relative), answers);
        if level <= |relative| then r == Follow(At(relative, level, false, calls), answers[calls..])
        else r.status == Reserved && r.steps == calls
    {
      var end;
      end, calls := PassSegment(relative, level, answers, calls);
      if end.Some? {
        return end.value, calls;
      }
    }
    return Reserved, calls;
  }

  lemma {:induction false} FollowOne(r: Reserver, answers: seq<Answer>, calls: nat)
    requires calls <= |answers| && r.status == Running
    ensures Follow(r, answers[calls..]) ==
      if calls == |answers| then r else Follow(AfterAnswer(r, answers[calls]), answers[calls + 1..])
    ensures calls < |answers| && AfterAnswer(r, answers[calls]).status != Running ==>
      Follow(r, answers[calls..]) == AfterAnswer(r, answers[calls])
  {
    hide AfterAnswer;
    if calls < |answers| { assert answers[calls..][1..] == answers[calls + 1..]; }
  }

  predicate Runs(s: System, id: ReserverId, phase: Phase) {
    id in s.reservers && s.reservers[id].status == Running && s.reservers[id].phase == phase
    && s.reservers[id].level <= |s.reservers[id].target|
  }

  predicate Enabled(s: System, e: Event) {
    match e
    case Begin(id, _) => id !in s.reservers
    case Lstat(id) => Runs(s, id, Inspecting)
    case Mkdir(id) => Runs(s, id, Creating)
    case SystemFailure(id) => Runs(s, id, Inspecting) || Runs(s, id, Creating)
    case OthersAdd(path, _) => CanCreate(s.fs, path)
  }

  function Apply(s: System, e: Event): System
    requires Enabled(s, e)
  {
    match e
    case Begin(id, relative) => s.(reservers := s.reservers[id := Started(relative)])
    case Lstat(id) => s.(reservers := s.reservers[id := AfterLstat(s.fs, s.reservers[id])])
    case Mkdir(id) =>
      var r := s.reservers[id];
      System(if CanCreate(s.fs, Current(r)) then s.fs[Current(r) := Entry(Directory, Some(id))] else s.fs,
             s.reservers[id := AfterMkdir(s.fs, r)])
    case SystemFailure(id) =>
      var r := s.reservers[id];
      s.(reservers := s.reservers[id := AfterAnswer(r, Failed)])
    case OthersAdd(path, kind) => s.(fs := s.fs[path := Entry(kind, None)])
  }

  ghost predicate Possible(s: System, events: seq<Event>)
    decreases |events|
  {
    events != [] ==> Enabled(s, events[0]) && Possible(Apply(s, events[0]), events[1..])
  }

  ghost function After(s: System, events: seq<Event>): System
    requires Possible(s, events)
    decreases |events|
  {
    if events == [] then s else After(Apply(s, events[0]), events[1..])
  }

  // ----- what every interleaving keeps -----

  predicate IsDirectory(fs: FileSystem, path: Path) { path in fs && fs[path].kind == Directory }

  ghost predicate FileSystemOk(fs: FileSystem) {
    IsDirectory(fs, []) && forall path :: path in fs && path != [] ==> IsDirectory(fs, Parent(path))
  }

  /** Everything above the path a reserver is working on is a real directory. */
  ghost predicate AncestorsAreReal(fs: FileSystem, r: Reserver)
    requires r.level <= |r.target|
  {
    forall k :: 0 <= k < r.level ==> IsDirectory(fs, r.target[..k])
  }

  ghost predicate ReserverOk(fs: FileSystem, id: ReserverId, r: Reserver) {
    && r.level <= |r.target|
    && AncestorsAreReal(fs, r)
    && (r.status == Running ==> r.level > 0)
    && (r.status == Reserved ==> r.target in fs && fs[r.target] == Entry(Directory, Some(id)))
    && (r.raced ==> Current(r) in fs)
    && r.steps <= 3 * r.level
    && (r.status == Running && r.phase == Inspecting ==> r.steps <= 3 * (r.level - 1) + (if r.raced then 2 else 0))
    && (r.status == Running && r.phase == Creating ==> r.steps <= 3 * (r.level - 1) + 1 && !r.raced)
  }

  ghost predicate SystemOk(s: System) {
    FileSystemOk(s.fs) && forall id :: id in s.reservers ==> ReserverOk(s.fs, id, s.reservers[id])
  }

  /** Nobody has begun yet. */
  ghost predicate Initial(s: System) {
    s.reservers == map[] && FileSystemOk(s.fs) && forall path :: path in s.fs ==> s.fs[path].creator.None?
  }

  /** A reserver is not disturbed by entries that others add. */
  lemma AddingKeepsOthers(fs: FileSystem, path: Path, entry: Entry, id: ReserverId, r: Reserver)
    requires path !in fs && ReserverOk(fs, id, r)
    ensures ReserverOk(fs[path := entry], id, r)
  {
  }

  lemma AddingKeepsFileSystem(fs: FileSystem, path: Path, entry: Entry)
    requires FileSystemOk(fs) && CanCreate(fs, path)
    ensures FileSystemOk(fs[path := entry])
  {
  }

  lemma LstatKeepsOk(fs: FileSystem, id: ReserverId, r: Reserver)
    requires ReserverOk(fs, id, r) && r.status == Running && r.phase == Inspecting
    ensures ReserverOk(fs, id, AfterLstat(fs, r))
  {
  }

  lemma {:induction false} MkdirKeepsOk(fs: FileSystem, id: ReserverId, r: Reserver)
    requires FileSystemOk(fs) && ReserverOk(fs, id, r) && r.status == Running && r.phase == Creating
    ensures Current(r) !in fs ==> CanCreate(fs, Current(r))
    ensures ReserverOk(if Current(r) in fs then fs else fs[Current(r) := Entry(Directory, Some(id))], id, AfterMkdir(fs, r))
  {
    assert Parent(Current(r)) == r.target[..r.level - 1];
    assert r.target[..|r.target|] == r.target;
  }

  lemma {:induction false} ApplyKeepsOk(s: System, e: Event)
    requires SystemOk(s) && Enabled(s, e)
    ensures SystemOk(Apply(s, e))
  {
    hide ReserverOk, AfterLstat, AfterMkdir;
    var t := Apply(s, e);
    match e
    case Begin(id, relative) => StartedIsOk(s.fs, id, relative);
    case Lstat(id) => LstatKeepsOk(s.fs, id, s.reservers[id]);
    case Mkdir(id) =>
      var r := s.reservers[id];
      assert ReserverOk(s.fs, id, r);
      MkdirKeepsOk(s.fs, id, r);
      if CanCreate(s.fs, Current(r)) {
        AddingKeepsFileSystem(s.fs, Current(r), Entry(Directory, Some(id)));
        forall other | other in s.reservers && other != id ensures ReserverOk(t.fs, other, t.reservers[other]) {
          AddingKeepsOthers(s.fs, Current(r), Entry(Directory, Some(id)), other, s.reservers[other]);
        }
      }
    case SystemFailure(id) => FailureIsOk(s.fs, id, s.reservers[id]);
    case OthersAdd(path, kind) =>
      AddingKeepsFileSystem(s.fs, path, Entry(kind, None));
      forall id | id in s.reservers ensures ReserverOk(t.fs, id, t.reservers[id]) {
        AddingKeepsOthers(s.fs, path, Entry(kind, None), id, s.reservers[id]);
      }
  }

  lemma StartedIsOk(fs: FileSystem, id: ReserverId, relative: Path)
    requires FileSystemOk(fs)
    ensures ReserverOk(fs, id, Started(relative))
  {
  }

  lemma FailureIsOk(fs: FileSystem, id: ReserverId, r: Reserver)
    requires ReserverOk(fs, id, r) && r.status == Running
    ensures ReserverOk(fs, id, r.(status := Refused(SystemError), steps := r.steps + 1))
  {
  }

  lemma {:induction false} AlwaysOk(s: System, events: seq<Event>)
    requires SystemOk(s) && Possible(s, events)
    ensures SystemOk(After(s, events))
    decreases |events|
  {
    hide SystemOk, Enabled, Apply;
    if events != [] {
      ApplyKeepsOk(s, events[0]);
      AlwaysOk(Apply(s, events[0]), events[1..]);
    }
  }

  // ----- exclusive, real, and bounded -----

  lemma {:induction false} RealUpTo(fs: FileSystem, path: Path, n: nat)
    requires FileSystemOk(fs) && n <= |path| && IsDirectory(fs, path[..n])
    ensures forall k :: 0 <= k <= n ==> IsDirectory(fs, path[..k])
  {
    if n > 0 {
      assert Parent(path[..n]) == path[..n - 1];
      RealUpTo(fs, path, n - 1);
    }
  }

  lemma {:induction false} ReservedIsReal(s: System, a: ReserverId)
    requires SystemOk(s) && a in s.reservers && s.reservers[a].status == Reserved
    ensures var path := s.reservers[a].target;
      path in s.fs && s.fs[path] == Entry(Directory, Some(a)) && forall k :: 0 <= k <= |path| ==> IsDirectory(s.fs, path[..k])
  {
    var path := s.reservers[a].target;
    assert ReserverOk(s.fs, a, s.reservers[a]);
    hide ReserverOk;
    assert path[..|path|] == path;
    RealUpTo(s.fs, path, |path|);
  }

  /** At most one call reserves a path; it made that directory itself, and everything above it up to the
      root is a directory, not a symlink. */
  lemma {:induction false} ReservationIsExclusive(s: System, events: seq<Event>, a: ReserverId)
    requires Initial(s) && Possible(s, events)
    requires a in After(s, events).reservers && After(s, events).reservers[a].status == Reserved
    ensures var t := After(s, events); var path := t.reservers[a].target;
      && path in t.fs && t.fs[path] == Entry(Directory, Some(a))
      && (forall k :: 0 <= k <= |path| ==> IsDirectory(t.fs, path[..k]))
      && forall b :: b in t.reservers && t.reservers[b].status == Reserved && t.reservers[b].target == path ==> a == b
  {
    AlwaysOk(s, events);
    hide Possible, After, SystemOk, IsDirectory;
    var t := After(s, events);
    ReservedIsReal(t, a);
    forall b | b in t.reservers && t.reservers[b].status == Reserved && t.reservers[b].target == t.reservers[a].target
      ensures a == b
    {
      ReservedIsReal(t, b);
    }
  }

  /** However the others interfere, a call takes at most three system calls per segment, so after that
      many it has finished. */
  lemma {:induction false} StepsAreBounded(s: System, events: seq<Event>, id: ReserverId)
    requires Initial(s) && Possible(s, events) && id in After(s, events).reservers
    ensures var r := After(s, events).reservers[id];
      r.steps <= 3 * |r.target| && (r.status == Running ==> r.steps < 3 * |r.target|)
  {
    AlwaysOk(s, events);
    assert ReserverOk(After(s, events).fs, id, After(s, events).reservers[id]);
  }

  // ----- why a call is refused -----

  /** What a refusal says is so: the target is not inside the root; a symlink stands where the call looked; the target
      exists already; or what stands above it is no directory. */
  ghost predicate IsTrue(fs: FileSystem, r: Reserver) {
    && r.level <= |r.target|
    && (r.status == Refused(OutsideRepository) <==> r.target == [] || r.target[0] == "..")
    && match r.status
       case Refused(TraversesSymlink) => Current(r) in fs && fs[Current(r)].kind == Symlink
       case Refused(AlreadyExists) => r.target in fs && fs[r.target].kind != Symlink
       case Refused(ParentNotDirectory) => r.level < |r.target| && Current(r) in fs && fs[Current(r)].kind == OtherFile
       case _ => true
  }

  ghost predicate ReasonsAreTrue(s: System, failing: set<ReserverId>) {
    forall id :: id in s.reservers ==>
      IsTrue(s.fs, s.reservers[id]) && (s.reservers[id].status == Refused(SystemError) ==> id in failing)
  }

  lemma AddingKeepsTruth(fs: FileSystem, path: Path, entry: Entry, r: Reserver)
    requires path !in fs && IsTrue(fs, r)
    ensures IsTrue(fs[path := entry], r)
  {
  }

  lemma {:induction false} LstatTellsTheTruth(fs: FileSystem, r: Reserver)
    requires IsTrue(fs, r) && r.status == Running && r.phase == Inspecting
    ensures IsTrue(fs, AfterLstat(fs, r)) && AfterLstat(fs, r).status != Refused(SystemError)
  {
    assert r.level == |r.target| ==> Current(r) == r.target;
  }

  lemma {:induction false} MkdirTellsTheTruth(fs: FileSystem, r: Reserver)
    requires IsTrue(fs, r) && r.status == Running && r.phase == Creating
    requires Current(r) in fs || CanCreate(fs, Current(r))
    ensures !AfterMkdir(fs, r).status.Refused? && IsTrue(fs, AfterMkdir(fs, r))
  {
  }

  lemma {:induction false} TruthStep(s: System, e: Event, failing: set<ReserverId>)
    requires SystemOk(s) && ReasonsAreTrue(s, failing) && Enabled(s, e)
    ensures ReasonsAreTrue(Apply(s, e), if e.SystemFailure? then failing + {e.id} else failing)
  {
    hide IsTrue, ReserverOk, AfterLstat, AfterMkdir, FileSystemOk;
    var t := Apply(s, e);
    match e
    case Begin(id, relative) => assert IsTrue(t.fs, Started(relative)) by { StartedIsTrue(t.fs, relative); }
    case Lstat(id) => LstatTellsTheTruth(s.fs, s.reservers[id]);
    case Mkdir(id) =>
      var r := s.reservers[id];
      MkdirKeepsOk(s.fs, id, r);
      MkdirTellsTheTruth(s.fs, r);
      if CanCreate(s.fs, Current(r)) {
        forall other | other in t.reservers ensures IsTrue(t.fs, t.reservers[other]) {
          AddingKeepsTruth(s.fs, Current(r), Entry(Directory, Some(id)), t.reservers[other]);
        }
      }
    case SystemFailure(id) => FailureIsTrue(s.fs, s.reservers[id]);
    case OthersAdd(path, kind) =>
      forall other | other in t.reservers ensures IsTrue(t.fs, t.reservers[other]) {
        AddingKeepsTruth(s.fs, path, Entry(kind, None), t.reservers[other]);
      }
  }

  lemma StartedIsTrue(fs: FileSystem, relative: Path)
    ensures IsTrue(fs, Started(relative)) && Started(relative).status != Refused(SystemError)
  {
  }

  lemma FailureIsTrue(fs: FileSystem, r: Reserver)
    requires IsTrue(fs, r) && r.status == Running
    ensures IsTrue(fs, AfterAnswer(r, Failed))
  {
  }

  function FailuresIn(events: seq<Event>): set<ReserverId> { set e <- events | e.SystemFailure? :: e.id }

  lemma {:induction false} TruthGoesOn(s: System, events: seq<Event>, failing: set<ReserverId>)
    requires SystemOk(s) && ReasonsAreTrue(s, failing) && Possible(s, events)
    ensures ReasonsAreTrue(After(s, events), failing + FailuresIn(events))
    decreases |events|
  {
    if events == [] {
      assert failing + FailuresIn(events) == failing;
    } else {
      var e := events[0];
      var now := if e.SystemFailure? then failing + {e.id} else failing;
      ApplyKeepsOk(s, e);
      TruthStep(s, e, failing);
      assert events == [e] + events[1..];
      assert now + FailuresIn(events[1..]) == failing + FailuresIn(events);
      hide SystemOk, Enabled, Apply, ReasonsAreTrue;
      TruthGoesOn(Apply(s, e), events[1..], now);
    }
  }

  /** In every interleaving a refused call is told the truth, and a system error only if a system call of its own has
      failed; mkdir never finds the parent directory missing. */
  lemma {:induction false} RefusalsAreTrue(s: System, events: seq<Event>, id: ReserverId)
    requires Initial(s) && Possible(s, events) && id in After(s, events).reservers
    ensures var t := After(s, events);
      && IsTrue(t.fs, t.reservers[id])
      && (t.reservers[id].status == Refused(SystemError) ==> SystemFailure(id) in events)
  {
    TruthGoesOn(s, events, {});
  }

  // ----- somebody wins -----

  /** Calls for one target, and nothing else happening. */
  ghost predicate OnlyContends(e: Event, target: Path) {
    e.Lstat? || e.Mkdir? || (e.Begin? && e.relative == target)
  }

  predicate IsFree(fs: FileSystem, target: Path) {
    target !in fs && forall k :: 0 <= k <= |target| && target[..k] in fs ==> fs[target[..k]].kind == Directory
  }

  ghost predicate Contest(s: System, target: Path) {
    && target != [] && target[0] != ".."
    && (forall k :: 0 <= k <= |target| && target[..k] in s.fs ==> s.fs[target[..k]].kind == Directory)
    && (forall id :: id in s.reservers ==>
          && s.reservers[id].target == target
          && (s.reservers[id].status.Refused? ==> s.reservers[id].status == Refused(AlreadyExists) && target in s.fs))
    && (target in s.fs ==> exists id :: id in s.reservers && s.reservers[id].status == Reserved)
  }

  lemma {:induction false} LstatKeepsContest(s: System, id: ReserverId, target: Path)
    requires Contest(s, target) && Runs(s, id, Inspecting)
    ensures Contest(Apply(s, Lstat(id)), target)
  {
    assert target[..|target|] == target;
    WinnerRemains(s, id, Apply(s, Lstat(id)), target);
  }

  lemma {:induction false} MkdirKeepsContest(s: System, id: ReserverId, target: Path)
    requires Contest(s, target) && Runs(s, id, Creating)
    requires ReserverOk(s.fs, id, s.reservers[id]) && FileSystemOk(s.fs)
    ensures Contest(Apply(s, Mkdir(id)), target)
  {
    var r, t := s.reservers[id], Apply(s, Mkdir(id));
    MkdirKeepsOk(s.fs, id, r);
    hide ReserverOk, FileSystemOk, CanCreate;
    WinnerRemains(s, id, t, target);
    assert t.reservers[id].target == target && !t.reservers[id].status.Refused?;
    if Current(r) !in s.fs {
      if r.level == |target| {
        assert target[..|target|] == target;
        assert t.reservers[id].status == Reserved;
      } else {
        assert |Current(r)| != |target|;
      }
    }
  }

  lemma {:induction false} ContestStep(s: System, e: Event, target: Path)
    requires SystemOk(s) && Contest(s, target) && Enabled(s, e) && OnlyContends(e, target)
    ensures Contest(Apply(s, e), target)
  {
    match e
    case Lstat(id) => LstatKeepsContest(s, id, target);
    case Mkdir(id) =>
      assert ReserverOk(s.fs, id, s.reservers[id]);
      MkdirKeepsContest(s, id, target);
    case Begin(id, relative) =>
      hide ReserverOk, FileSystemOk;
      WinnerRemains(s, id, Apply(s, e), target);
  }

  /** Only running calls move, so a call that has reserved the target stays so. */
  lemma WinnerRemains(s: System, id: ReserverId, t: System, target: Path)
    requires Contest(s, target)
    requires id in s.reservers ==> s.reservers[id].status == Running
    requires forall other :: other in s.reservers && other != id ==>
      other in t.reservers && t.reservers[other] == s.reservers[other]
    ensures target in s.fs ==> exists id :: id in t.reservers && t.reservers[id].status == Reserved
  {
  }

  lemma {:induction false} ContestGoesOn(s: System, events: seq<Event>, target: Path)
    requires SystemOk(s) && Contest(s, target) && Possible(s, events)
    requires forall i :: 0 <= i < |events| ==> OnlyContends(events[i], target)
    ensures Contest(After(s, events), target)
    decreases |events|
  {
    hide SystemOk, Enabled, Apply, Contest, OnlyContends;
    if events != [] {
      ApplyKeepsOk(s, events[0]);
      ContestStep(s, events[0], target);
      ContestGoesOn(Apply(s, events[0]), events[1..], target);
    }
  }

  /** When a free path is contended for, nobody is turned away before somebody has reserved it: as soon as
      any call has finished, exactly one has succeeded. */
  lemma {:induction false} SomebodyWins(s: System, events: seq<Event>, target: Path, id: ReserverId)
    requires Initial(s) && IsFree(s.fs, target) && target != [] && target[0] != ".."
    requires Possible(s, events) && forall i :: 0 <= i < |events| ==> OnlyContends(events[i], target)
    requires id in After(s, events).reservers && After(s, events).reservers[id].status != Running
    ensures exists winner :: winner in After(s, events).reservers && After(s, events).reservers[winner].status == Reserved
  {
    assert Contest(s, target) by { assert target[..|target|] == target; }
    ContestGoesOn(s, events, target);
  }
}
