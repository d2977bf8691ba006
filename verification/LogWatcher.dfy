/** The configuration watcher's worker thread (macos.cc) against LogSystem::Start and Stop
    (logging_system.cc), as a state machine: one caller and one worker, their steps interleaved freely. */
module LogWatcher {
  import opened Wrappers
  import opened LogManager

  // The worker: in kevent, inside the callback before and after the pause flag is settled, or returned.
  datatype Worker = NoThread | InKevent | Loading(c: Config) | Installing(c: Config) | Returned

  // The caller between and inside Start and Stop.
  datatype Caller =
    | Stopped
    | StartSpawned                 // cw_->Start() has returned
    | StartRead(paused: bool)      // lm_->Paused() has been read
    | Started
    | StopExchanged                // started_ has been cleared
    | StopJoining                  // the call that triggers the user event has been made
    | StopJoined                   // cw_->Stop() has returned

  datatype State = State(mgr: Manager, started: bool, worker: Worker, trigger: bool, caller: Caller)

  datatype Step =
    | StartCall | StartReads | StartFinishes
    | StopCall | StopTriggers | StopTriggerLost | StopJoins | StopPauses
    | FileEvent(c: Config) | ReloadPauses | ReloadInstalls | UserEvent | KeventFails

  predicate CanStep(s: State, e: Step) {
    match e
    case StartCall => s.caller.Stopped?
    case StartReads => s.caller.StartSpawned?
    case StartFinishes => s.caller.StartRead?
    case StopCall => s.caller.Started? || s.caller.Stopped?
    case StopTriggers => s.caller.StopExchanged?
    case StopTriggerLost => s.caller.StopExchanged?
    case StopJoins => s.caller.StopJoining? && (s.worker.Returned? || s.worker.NoThread?)
    case StopPauses => s.caller.StopJoined?
    case FileEvent(c) => s.worker.InKevent?
    case ReloadPauses => s.worker.Loading?
    case ReloadInstalls => s.worker.Installing?
    case UserEvent => s.worker.InKevent? && s.trigger
    case KeventFails => s.worker.InKevent?
  }

  function Next(s: State, e: Step): State
    requires CanStep(s, e)
  {
    match e
    case StartCall => s.(started := true, worker := InKevent, caller := StartSpawned)
    case StartReads => s.(caller := StartRead(s.mgr.paused))
    case StartFinishes => s.(mgr := if s.caller.paused then Apply(s.mgr, RemainCall) else s.mgr, caller := Started)
    case StopCall => s.(started := false, caller := if s.started then StopExchanged else StopJoined)
    case StopTriggers => s.(trigger := true, caller := StopJoining)
    case StopTriggerLost => s.(caller := StopJoining)
    case StopJoins => s.(worker := NoThread, caller := StopJoined)
    case StopPauses => s.(mgr := Apply(s.mgr, PauseCall), caller := Stopped)
    case FileEvent(c) => s.(worker := Loading(c))
    case ReloadPauses => s.(mgr := PauseStep(s.mgr, s.worker.c), worker := Installing(s.worker.c))
    case ReloadInstalls => s.(mgr := InstallStep(s.mgr, s.worker.c), worker := InKevent)
    case UserEvent => s.(trigger := false, worker := Returned)
    case KeventFails => s.(worker := Returned)
  }

  ghost predicate Runs(s: State, steps: seq<Step>, t: State)
    decreases |steps|
  {
    if steps == [] then s == t else CanStep(s, steps[0]) && Runs(Next(s, steps[0]), steps[1..], t)
  }

  // A run from position k on, one step longer.
  lemma Then(steps: seq<Step>, k: nat, s: State, t: State)
    requires k < |steps| && CanStep(s, steps[k]) && Runs(Next(s, steps[k]), steps[k + 1..], t)
    ensures Runs(s, steps[k..], t) && (k == 0 ==> Runs(s, steps, t))
  {
    assert steps[k..][0] == steps[k] && steps[k..][1..] == steps[k + 1..];
    assert steps[0..] == steps;
  }

  lemma {:induction false} RunsConcat(s: State, first: seq<Step>, t: State, second: seq<Step>, u: State)
    requires Runs(s, first, t) && Runs(t, second, u)
    ensures Runs(s, first + second, u)
    decreases |first|
  {
    if first == [] {
      assert first + second == second;
    } else {
      RunsConcat(Next(s, first[0]), first[1..], t, second, u);
      assert (first + second)[1..] == first[1..] + second;
    }
  }

  const START: seq<Step> := [StartCall, StartReads, StartFinishes]

  // A start that no worker step interrupts.
  function Up(s: State): State {
    State(Apply(s.mgr, RemainCall), true, InKevent, s.trigger, Started)
  }

  lemma StartRuns(s: State)
    requires s.caller.Stopped? && s.mgr.paused
    ensures Runs(s, START, Up(s))
  {
    var a := Next(s, StartCall);
    var b := Next(a, StartReads);
    Then(START, 2, b, Up(s));
    Then(START, 1, a, Up(s));
    Then(START, 0, s, Up(s));
  }

  // What LogSystem::Init leaves behind: the first configuration read, then a pause.
  function Initialised(c: Config): State {
    State(Apply(Apply(NEW_MANAGER, Reload(c)), PauseCall), false, NoThread, false, Stopped)
  }

  // ----- what reloads do, over the whole run -----

  lemma {:induction false} LastStep(s: State, steps: seq<Step>, t: State) returns (m: State)
    requires steps != [] && Runs(s, steps, t)
    ensures Runs(s, steps[..|steps| - 1], m) && CanStep(m, steps[|steps| - 1]) && t == Next(m, steps[|steps| - 1])
    decreases |steps|
  {
    if |steps| == 1 {
      m := s;
      assert steps[1..] == [] && steps[..0] == [];
    } else {
      var more := steps[1..];
      m := LastStep(Next(s, steps[0]), more, t);
      assert more[|more| - 1] == steps[|steps| - 1];
      assert steps[..|steps| - 1][1..] == more[..|more| - 1];
    }
  }

  // The configuration of the last change of the file.
  function LastFile(steps: seq<Step>): Option<Config> {
    if steps == [] then None
    else if steps[|steps| - 1].FileEvent? then Some(steps[|steps| - 1].c)
    else LastFile(steps[..|steps| - 1])
  }

  // The callback works on the configuration of the last change.
  lemma {:induction false} WorksOnLastFile(c: Config, steps: seq<Step>, t: State)
    requires Runs(Initialised(c), steps, t)
    ensures t.worker.Loading? || t.worker.Installing? ==> LastFile(steps) == Some(t.worker.c)
    decreases |steps|
  {
    if steps != [] {
      var m := LastStep(Initialised(c), steps, t);
      WorksOnLastFile(c, steps[..|steps| - 1], m);
    }
  }

  // Step i ends a reload that put a new logger in place.
  ghost predicate InstallsAt(steps: seq<Step>, i: nat)
    requires i < |steps|
  {
    steps[i].ReloadInstalls? && LastFile(steps[..i]).Some? && Installs(LastFile(steps[..i]).value)
  }

  /** Along every run the active logger is that of the last completed reload whose configuration was valid and yielded
      a Logger, and until there is one that of the first configuration, if it did. */
  lemma {:induction false} LoggerInForce(c: Config, steps: seq<Step>, t: State, i: nat)
    requires Runs(Initialised(c), steps, t) && i <= |steps|
    requires forall j :: i <= j < |steps| ==> !InstallsAt(steps, j)
    ensures i == 0 ==>
              if Installs(c) then Load(c).Valid? && t.mgr.logger == Some(Load(c).logger) else t.mgr.logger == None
    ensures i > 0 && InstallsAt(steps, i - 1) ==>
              var f := LastFile(steps[..i - 1]).value; Load(f).Valid? && t.mgr.logger == Some(Load(f).logger)
    decreases |steps|
  {
    if steps == [] {
      LoadIff(c);
    } else {
      var before := steps[..|steps| - 1];
      var m := LastStep(Initialised(c), steps, t);
      WorksOnLastFile(c, before, m);
      if m.worker.Installing? {
        LoadIff(m.worker.c);
      }
      if i < |steps| {
        forall j | 0 <= j < |before| ensures InstallsAt(before, j) <==> InstallsAt(steps, j) {
          assert before[..j] == steps[..j];
        }
        LoggerInForce(c, before, m, i);
        assert !InstallsAt(steps, |before|);
        assert i > 0 ==> before[..i - 1] == steps[..i - 1];
      }
    }
  }

  // The pause flag after a run: Init leaves it set, Stop sets it, a reload sets it as its enabled field says, and
  // Start clears it if it was set when Start read it.
  function FlagAfter(steps: seq<Step>): bool
    decreases |steps|
  {
    if steps == [] then true
    else
      var before := steps[..|steps| - 1];
      match steps[|steps| - 1]
      case StopPauses => true
      case ReloadPauses =>
        var f := LastFile(before);
        if f.Some? && f.value.Logging? && f.value.enabled.Enabled? then !f.value.enabled.on else FlagAfter(before)
      case StartFinishes => FlagAfter(before) && !FlagRead(before)
      case _ => FlagAfter(before)
  }

  // The flag as the last call of Start read it.
  function FlagRead(steps: seq<Step>): bool
    decreases |steps|
  {
    if steps == [] then false
    else if steps[|steps| - 1].StartReads? then FlagAfter(steps[..|steps| - 1])
    else FlagRead(steps[..|steps| - 1])
  }

  /** The pause flag is the one that the steps of the run leave, and a logger is handed out exactly while it is
      clear. */
  lemma {:induction false} FlagInForce(c: Config, steps: seq<Step>, t: State)
    requires Runs(Initialised(c), steps, t)
    ensures t.mgr.paused == FlagAfter(steps)
    ensures t.caller.StartRead? ==> t.caller.paused == FlagRead(steps)
    ensures GetLogger(t.mgr) == if FlagAfter(steps) then None else t.mgr.logger
    decreases |steps|
  {
    if steps != [] {
      var before := steps[..|steps| - 1];
      var m := LastStep(Initialised(c), steps, t);
      FlagInForce(c, before, m);
      WorksOnLastFile(c, before, m);
    }
  }

  // ----- Stop is final -----

  ghost predicate Inv(s: State) {
    && (s.caller.Stopped? ==> s.worker.NoThread? && s.mgr.paused && !s.started)
    && (s.caller.StopJoined? ==> s.worker.NoThread? && !s.started)
    && (s.caller.StartSpawned? || s.caller.StartRead? || s.caller.Started? ==> s.started && !s.worker.NoThread?)
    && (s.caller.StopExchanged? || s.caller.StopJoining? ==> !s.started && !s.worker.NoThread?)
  }

  lemma InvNext(s: State, e: Step)
    requires Inv(s) && CanStep(s, e)
    ensures Inv(Next(s, e))
  {
  }

  lemma {:induction false} InvRuns(s: State, steps: seq<Step>, t: State)
    requires Inv(s) && Runs(s, steps, t)
    ensures Inv(t)
    decreases |steps|
  {
    if steps != [] {
      InvNext(s, steps[0]);
      InvRuns(Next(s, steps[0]), steps[1..], t);
    }
  }

  /** Once Stop has returned there is no worker, so no callback runs, and no logger is handed out;
      that stays so, in every continuation, until the next call of Start. */
  lemma StopIsFinal(c: Config, steps: seq<Step>, t: State, more: seq<Step>, u: State)
    requires Runs(Initialised(c), steps, t) && t.caller.Stopped?
    requires Runs(t, more, u) && StartCall !in more
    ensures t.worker.NoThread? && GetLogger(t.mgr).None?
    ensures u.worker.NoThread? && GetLogger(u.mgr).None? && u.mgr.logger == t.mgr.logger
  {
    InvRuns(Initialised(c), steps, t);
    QuietRuns(t, more, u);
  }

  lemma {:induction false} QuietRuns(s: State, steps: seq<Step>, t: State)
    requires Runs(s, steps, t) && StartCall !in steps
    requires s.worker.NoThread? && s.mgr.paused && !s.started && (s.caller.Stopped? || s.caller.StopJoined?)
    ensures t.worker.NoThread? && t.mgr.paused && t.mgr.logger == s.mgr.logger
    decreases |steps|
  {
    if steps != [] {
      assert steps[0] in steps;
      QuietRuns(Next(s, steps[0]), steps[1..], t);
    }
  }

  // ----- Stop can finish -----

  // The join has an end in sight that does not need kevent to fail.
  ghost predicate CanFinish(t: State) {
    exists finish, u :: Runs(t, finish, u) && KeventFails !in finish && u.caller.StopJoined?
  }

  /** The join inside Stop can end exactly when the user event is in the queue or the worker has returned; if
      the call that triggers the event never failed it always can. */
  lemma StopCanFinishIff(c: Config, steps: seq<Step>, t: State)
    requires Runs(Initialised(c), steps, t) && t.caller.StopJoining?
    ensures CanFinish(t) <==> t.trigger || t.worker.Returned?
    ensures StopTriggerLost !in steps ==> CanFinish(t)
  {
    InvRuns(Initialised(c), steps, t);
    if StopTriggerLost !in steps {
      TriggeredRuns(Initialised(c), steps, t);
    }
    if t.trigger || t.worker.Returned? {
      var finish, u := StopFinishes(t);
    } else {
      forall finish, u | Runs(t, finish, u) && KeventFails !in finish ensures !u.caller.StopJoined? {
        UntriggeredJoinStays(t, finish, u);
      }
    }
  }

  /** At most three worker steps and the join itself bring cw_->Stop() to its return. */
  lemma StopFinishes(t: State) returns (finish: seq<Step>, u: State)
    requires t.caller.StopJoining? && !t.worker.NoThread? && (t.trigger || t.worker.Returned?)
    ensures |finish| <= 4 && KeventFails !in finish && Runs(t, finish, u) && u.caller.StopJoined?
  {
    if t.worker.Returned? {
      finish, u := [StopJoins], Next(t, StopJoins);
      Then(finish, 0, t, u);
    } else if t.worker.InKevent? {
      var s := Next(t, UserEvent);
      finish, u := [UserEvent, StopJoins], Next(s, StopJoins);
      Then(finish, 1, s, u);
      Then(finish, 0, t, u);
    } else if t.worker.Installing? {
      finish, u := FinishInstall(t);
    } else {
      var s := Next(t, ReloadPauses);
      var rest;
      rest, u := FinishInstall(s);
      finish := [ReloadPauses] + rest;
      assert finish[1..] == rest;
    }
  }

  lemma FinishInstall(t: State) returns (finish: seq<Step>, u: State)
    requires t.worker.Installing? && t.caller.StopJoining? && t.trigger
    ensures finish == [ReloadInstalls, UserEvent, StopJoins] && Runs(t, finish, u) && u.caller.StopJoined?
  {
    var s := Next(t, ReloadInstalls);
    var r := Next(s, UserEvent);
    u := Next(r, StopJoins);
    finish := [ReloadInstalls, UserEvent, StopJoins];
    Then(finish, 2, r, u);
    Then(finish, 1, s, u);
    Then(finish, 0, t, u);
  }

  lemma {:induction false} TriggeredRuns(s: State, steps: seq<Step>, t: State)
    requires Runs(s, steps, t) && StopTriggerLost !in steps
    requires s.caller.StopJoining? ==> s.trigger || s.worker.Returned?
    ensures t.caller.StopJoining? ==> t.trigger || t.worker.Returned?
    decreases |steps|
  {
    if steps != [] {
      assert steps[0] in steps;
      TriggeredRuns(Next(s, steps[0]), steps[1..], t);
    }
  }

  lemma {:induction false} UntriggeredJoinStays(s: State, steps: seq<Step>, t: State)
    requires Runs(s, steps, t) && KeventFails !in steps
    requires s.caller.StopJoining? && !s.trigger && !s.worker.Returned? && !s.worker.NoThread?
    ensures t.caller.StopJoining?
    decreases |steps|
  {
    if steps != [] {
      assert steps[0] in steps;
      UntriggeredJoinStays(Next(s, steps[0]), steps[1..], t);
    }
  }

  /** Its result is ignored, so a failing call leaves Stop waiting for a worker that nothing ends. */
  lemma LostTriggerHangs(c: Config)
    ensures exists steps, t :: Runs(Initialised(c), steps, t) && KeventFails !in steps &&
                               t.caller.StopJoining? && !CanFinish(t)
  {
    var s := Initialised(c);
    var a := Up(s);
    StartRuns(s);
    var rest := [StopCall, StopTriggerLost];
    var b := Next(a, StopCall);
    var t := Next(b, StopTriggerLost);
    Then(rest, 1, b, t);
    Then(rest, 0, a, t);
    RunsConcat(s, START, a, rest, t);
    StopCanFinishIff(c, START + rest, t);
  }

  // ----- why the join comes before the pause -----

  /** Pausing while the worker is still being joined would not last: there is a run into the join after
      which a pause is undone by the reload in progress, and the logger is handed out again. */
  lemma PauseBeforeJoinIsUndone(c: Config)
    requires Reloaded(c).Valid? && c.enabled == Enabled(true)
    ensures exists steps, t :: Runs(Initialised(c), steps, t) && t.caller.StopJoining? &&
              var paused := t.(mgr := Apply(t.mgr, PauseCall));
              CanStep(paused, ReloadPauses) && GetLogger(Next(paused, ReloadPauses).mgr).Some?
  {
    var s := Initialised(c);
    StartRuns(s);
    var rest, t := JoinDuringReload(Up(s), c);
    RunsConcat(s, START, Up(s), rest, t);
  }

  // A configuration change arrives, and Stop comes to its join before the callback does anything.
  lemma JoinDuringReload(s: State, c: Config) returns (steps: seq<Step>, t: State)
    requires s.caller.Started? && s.started && s.worker.InKevent?
    ensures Runs(s, steps, t) && t == State(s.mgr, false, Loading(c), true, StopJoining)
  {
    steps := [FileEvent(c), StopCall, StopTriggers];
    var a := Next(s, FileEvent(c));
    var b := Next(a, StopCall);
    t := Next(b, StopTriggers);
    Then(steps, 2, b, t);
    Then(steps, 1, a, t);
    Then(steps, 0, s, t);
  }

  // ----- the watcher is alive while started, unless an event of an earlier Stop is left over -----

  ghost predicate Live(s: State) {
    && Inv(s)
    && (s.caller.StopJoining? ==> !(s.trigger && s.worker.Returned?))
    && (!s.caller.StopJoining? ==> !s.trigger && !s.worker.Returned?)
  }

  lemma {:induction false} LiveRuns(s: State, steps: seq<Step>, t: State)
    requires Live(s) && Runs(s, steps, t) && KeventFails !in steps
    ensures Live(t)
    decreases |steps|
  {
    if steps != [] {
      assert steps[0] in steps;
      InvNext(s, steps[0]);
      LiveRuns(Next(s, steps[0]), steps[1..], t);
    }
  }

  /** As long as kevent has never failed, a started system has a worker that is watching or reloading. */
  lemma WatcherLives(c: Config, steps: seq<Step>, t: State)
    requires Runs(Initialised(c), steps, t) && KeventFails !in steps && t.caller.Started?
    ensures !t.worker.Returned? && !t.worker.NoThread?
  {
    LiveRuns(Initialised(c), steps, t);
  }

  /** After one failure that is no longer so: the event that Stop triggers for a worker already gone stays
      in the queue, and the worker of the next Start takes it for its own and returns. */
  lemma StaleTriggerEndsNextWatcher(c: Config)
    ensures exists first, t, second, u ::
              Runs(Initialised(c), first, t) && t.caller.Stopped? &&
              Runs(t, second, u) && KeventFails !in second && u.caller.Started? && u.worker.Returned?
  {
    var first, t := StopAfterFailure(c);
    EndsAtOnce(t);
  }

  // A worker that the event left over ends as soon as it runs.
  function Ended(t: State): State {
    State(Apply(t.mgr, RemainCall), true, Returned, false, Started)
  }

  lemma EndsAtOnce(t: State)
    requires t.caller.Stopped? && t.mgr.paused && t.trigger
    ensures Runs(t, START + [UserEvent], Ended(t))
    ensures KeventFails !in START + [UserEvent] && StopCall !in START + [UserEvent]
  {
    StartRuns(t);
    Then([UserEvent], 0, Up(t), Ended(t));
    RunsConcat(t, START, Up(t), [UserEvent], Ended(t));
  }

  const STOP: seq<Step> := [StopCall, StopTriggers, StopJoins, StopPauses]

  // Stopping a worker that has returned leaves the event in the queue.
  function LeftOver(s: State): State {
    State(Apply(s.mgr, PauseCall), false, NoThread, true, Stopped)
  }

  lemma StopRuns(s: State)
    requires s.caller.Started? && s.started && s.worker.Returned?
    ensures Runs(s, STOP, LeftOver(s))
  {
    var a := Next(s, StopCall);
    var b := Next(a, StopTriggers);
    var d := Next(b, StopJoins);
    Then(STOP, 3, d, LeftOver(s));
    Then(STOP, 2, b, LeftOver(s));
    Then(STOP, 1, a, LeftOver(s));
    Then(STOP, 0, s, LeftOver(s));
  }

  lemma StopAfterFailure(c: Config) returns (first: seq<Step>, t: State)
    ensures first == START + ([KeventFails] + STOP) && Runs(Initialised(c), first, t)
    ensures t.caller.Stopped? && !t.started && t.worker.NoThread? && t.trigger && t.mgr.paused
  {
    var s := Initialised(c);
    var a := Up(s);
    var b := Next(a, KeventFails);
    t := LeftOver(b);
    first := START + ([KeventFails] + STOP);
    StartRuns(s);
    StopRuns(b);
    Then([KeventFails], 0, a, b);
    RunsConcat(a, [KeventFails], b, STOP, t);
    RunsConcat(s, START, a, [KeventFails] + STOP, t);
  }

  // A start, a worker that ends by itself, and a stop.
  const LOST_PERIOD: seq<Step> := START + [UserEvent] + STOP

  ghost function Periods(n: nat): seq<Step> {
    if n == 0 then [] else LOST_PERIOD + Periods(n - 1)
  }

  /** And so on for ever: one failure can end the watcher of every later start, however many there are. */
  lemma OneFailureEndsEveryWatcher(c: Config, n: nat)
    ensures exists first, t ::
              Runs(Initialised(c), first, t) && multiset(first)[KeventFails] == 1 &&
              Runs(t, Periods(n), t) && KeventFails !in Periods(n) &&
              Runs(t, START + [UserEvent], Ended(t)) && Runs(Ended(t), STOP, t)
  {
    var first, t := StopAfterFailure(c);
    EndsAtOnce(t);
    StopRuns(Ended(t));
    assert LeftOver(Ended(t)) == t;
    RunsConcat(t, START + [UserEvent], Ended(t), STOP, t);
    PeriodsRun(t, n);
  }

  lemma {:induction false} PeriodsRun(t: State, n: nat)
    requires Runs(t, LOST_PERIOD, t)
    ensures Runs(t, Periods(n), t) && KeventFails !in Periods(n)
  {
    if n > 0 {
      PeriodsRun(t, n - 1);
      RunsConcat(t, LOST_PERIOD, t, Periods(n - 1), t);
    }
  }

  // From this stopped state a start can lose its worker although kevent works and nobody stops it.
  ghost predicate MayLoseWatcher(t: State) {
    exists steps, u :: Runs(t, steps, u) && KeventFails !in steps && StopCall !in steps &&
                       u.caller.Started? && u.worker.Returned?
  }

  predicate TriggerStep(e: Step) {
    e.StopTriggers? || e.StopTriggerLost?
  }

  ghost predicate NoTrigger(steps: seq<Step>) {
    forall e :: e in steps ==> !TriggerStep(e)
  }

  // An event has been triggered and no worker has read it since.
  ghost predicate Unread(steps: seq<Step>) {
    exists i :: 0 <= i < |steps| && steps[i].StopTriggers? && UserEvent !in steps[i + 1..]
  }

  lemma {:induction false} QueueRuns(s: State, steps: seq<Step>, t: State)
    requires Runs(s, steps, t)
    ensures t.trigger <==> Unread(steps) || (s.trigger && UserEvent !in steps)
    decreases |steps|
  {
    if steps != [] {
      var e, more := steps[0], steps[1..];
      QueueRuns(Next(s, e), more, t);
      UnreadCons(e, more);
      assert steps == [e] + more;
    }
  }

  lemma UnreadCons(e: Step, more: seq<Step>)
    ensures Unread([e] + more) <==> Unread(more) || (e.StopTriggers? && UserEvent !in more)
    ensures UserEvent in [e] + more <==> e == UserEvent || UserEvent in more
  {
    var all := [e] + more;
    assert forall i :: 0 <= i <= |more| ==> all[i + 1..] == more[i..];
    if i :| 0 <= i < |all| && all[i].StopTriggers? && UserEvent !in all[i + 1..] {
      assert i > 0 ==> more[i - 1].StopTriggers? && all[i + 1..] == more[i..];
      assert more[0..] == more;
    }
    if i :| 0 <= i < |more| && more[i].StopTriggers? && UserEvent !in more[i + 1..] {
      assert all[i + 1].StopTriggers? && all[i + 2..] == more[i + 1..];
    }
    if e.StopTriggers? && UserEvent !in more {
      assert all[0].StopTriggers? && all[1..] == more;
    }
  }

  /** The next start can lose its worker by itself exactly when, in the last stop that had a worker to end,
      the worker was gone before the triggered event could reach it: it had returned when the event was
      triggered, or kevent failed while it was being joined. If triggering failed, an event that an earlier
      stop had left unread takes its place. */
  lemma MayLoseWatcherIff(c: Config, before: seq<Step>, s: State, e: Step, after: seq<Step>, t: State)
    requires Runs(Initialised(c), before, s) && CanStep(s, e) && TriggerStep(e)
    requires Runs(Next(s, e), after, t) && NoTrigger(after) && t.caller.Stopped?
    ensures MayLoseWatcher(t) <==>
            (e.StopTriggers? || Unread(before)) && (s.worker.Returned? || KeventFails in after)
  {
    InvRuns(Initialised(c), before, s);
    QueueRuns(Initialised(c), before, s);
    InvNext(s, e);
    SettledTrigger(Next(s, e), after, t);
    InvRuns(Next(s, e), after, t);
    LosesIfTriggered(t);
  }

  /** While nothing has been triggered it cannot. */
  lemma MayNotLoseBeforeTrigger(c: Config, steps: seq<Step>, t: State)
    requires Runs(Initialised(c), steps, t) && NoTrigger(steps) && t.caller.Stopped?
    ensures !MayLoseWatcher(t)
  {
    InvRuns(Initialised(c), steps, t);
    SettledTrigger(Initialised(c), steps, t);
    LosesIfTriggered(t);
  }

  lemma LosesIfTriggered(t: State)
    requires Inv(t) && t.caller.Stopped?
    ensures MayLoseWatcher(t) <==> t.trigger
  {
    if t.trigger {
      EndsAtOnce(t);
    } else {
      forall more, u | Runs(t, more, u) && KeventFails !in more && StopCall !in more ensures !u.worker.Returned? {
        UntriggeredRuns(t, more, u);
      }
    }
  }

  lemma {:induction false} UntriggeredRuns(s: State, steps: seq<Step>, t: State)
    requires Runs(s, steps, t) && KeventFails !in steps && StopCall !in steps
    requires !s.trigger && !s.worker.Returned? && !s.caller.StopExchanged?
    ensures !t.worker.Returned?
    decreases |steps|
  {
    if steps != [] {
      assert steps[0] in steps;
      UntriggeredRuns(Next(s, steps[0]), steps[1..], t);
    }
  }

  // Between the triggering call and the end of that stop, or with no worker at all.
  ghost predicate Settling(s: State) {
    s.caller.StopJoining? || s.caller.StopJoined? || s.caller.Stopped?
  }

  ghost predicate Gone(s: State) {
    s.worker.Returned? || s.worker.NoThread?
  }

  lemma {:induction false} SettledTrigger(s: State, after: seq<Step>, t: State)
    requires Inv(s) && Settling(s) && Runs(s, after, t) && NoTrigger(after) && t.caller.Stopped?
    ensures t.trigger <==> s.trigger && (Gone(s) || KeventFails in after)
    ensures Gone(s) ==> KeventFails !in after
    decreases |after|
  {
    if after != [] {
      var e, u := after[0], Next(s, after[0]);
      assert e in after;
      assert forall x :: x in after <==> x == e || x in after[1..];
      InvNext(s, e);
      if e.StartCall? {
        NeedsTrigger(u, after[1..], t);
      } else {
        SettledTrigger(u, after[1..], t);
      }
    }
  }

  // A start is not stopped again without the triggering call.
  lemma {:induction false} NeedsTrigger(s: State, steps: seq<Step>, t: State)
    requires Runs(s, steps, t) && NoTrigger(steps)
    requires s.caller.StopExchanged? ||
             (s.started && (s.caller.StartSpawned? || s.caller.StartRead? || s.caller.Started?))
    ensures !t.caller.Stopped?
    decreases |steps|
  {
    if steps != [] {
      assert steps[0] in steps;
      NeedsTrigger(Next(s, steps[0]), steps[1..], t);
    }
  }
}
