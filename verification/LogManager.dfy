/** The log manager's reload state machine (logging_manager.cc) and the filter in front of it
    (logging_system.cc): which configuration is active, whether it is paused, and what gets through. */
module LogManager {
  import opened Wrappers

  datatype Level = Unknown | Trace | Debug | Info | Warning | Error | Critical

  function Rank(l: Level): nat {
    match l
    case Unknown => 0
    case Trace => 1
    case Debug => 2
    case Info => 3
    case Warning => 4
    case Error => 5
    case Critical => 6
  }

  // status::to_log on text
  function ToLevel(s: string): Level {
    if s == "info" then Info
    else if s == "error" then Error
    else if s == "warning" then Warning
    else if s == "debug" then Debug
    else if s == "trace" then Trace
    else if s == "critical" then Critical
    else Unknown
  }

  // ----- a configuration file, as loaded -----

  datatype EnabledField = EnabledAbsent | EnabledNotScalar | EnabledNotBool | Enabled(on: bool)
  datatype LevelField = LevelMissing | LevelText(text: string)
  datatype SinksField = SinksMissing | SinkList(entries: seq<SinkEntry>)

  // What CreateSink makes of one entry: a sink, nothing, or an exception from the YAML library.
  datatype SinkEntry = Creates(sink: nat) | Skipped | Throws

  // made: whether the Logger can be constructed when it comes to that.
  datatype Config =
    | LoadFailed
    | NoLogging
    | Logging(enabled: EnabledField, level: LevelField, sinks: SinksField, made: bool)

  datatype Logger = Logger(level: Level, sinks: seq<nat>)

  datatype Loaded = Valid(logger: Logger) | Rejected | Thrown

  function SinksOf(entries: seq<SinkEntry>): Option<seq<nat>> {
    if entries == [] then Some([])
    else
      match SinksOf(entries[..|entries| - 1])
      case None => None
      case Some(sinks) =>
        match entries[|entries| - 1]
        case Creates(sink) => Some(sinks + [sink])
        case Skipped => Some(sinks)
        case Throws => None
  }

  // What a configuration does to the pause flag, whether or not the rest of it is any good.
  function PauseEffect(c: Config): Option<bool> {
    if c.Logging? && c.enabled.Enabled? then Some(!c.enabled.on) else None
  }

  function Load(c: Config): Loaded {
    match c
    case LoadFailed => Rejected
    case NoLogging => Rejected
    case Logging(enabled, level, sinks, _) =>
      if enabled.EnabledNotScalar? then Rejected
      else if enabled.EnabledNotBool? then Thrown
      else if enabled == Enabled(false) || level.LevelMissing? || sinks.SinksMissing? then Rejected
      else if ToLevel(level.text) == Unknown then Rejected
      else
        match SinksOf(sinks.entries)
        case None => Thrown
        case Some(made) => Valid(Logger(ToLevel(level.text), made))
  }

  // ----- what a configuration is worth, read off its fields -----

  /** Six names are levels, spelled exactly so, and their order is the order in which messages are let through. */
  lemma LevelNames(s: string)
    ensures ToLevel("trace") == Trace && ToLevel("debug") == Debug && ToLevel("info") == Info
    ensures ToLevel("warning") == Warning && ToLevel("error") == Error && ToLevel("critical") == Critical
    ensures ToLevel(s) == Unknown <==> s !in {"trace", "debug", "info", "warning", "error", "critical"}
  {
    assert |"trace"| == |"debug"| == |"error"| == 5 && |"info"| == 4 && |"warning"| == 7 && |"critical"| == 8;
    assert "trace"[0] == 't' && "debug"[0] == 'd' && "error"[0] == 'e';
  }

  lemma LevelOrder(i: nat)
    requires i < 7
    ensures Rank([Unknown, Trace, Debug, Info, Warning, Error, Critical][i]) == i
  {
  }

  lemma SinksSnoc(entries: seq<SinkEntry>, entry: SinkEntry)
    ensures SinksOf(entries + [entry]) ==
            match SinksOf(entries)
            case None => None
            case Some(sinks) =>
              match entry case Creates(sink) => Some(sinks + [sink]) case Skipped => Some(sinks) case Throws => None
  {
    assert (entries + [entry])[..|entries|] == entries;
  }

  lemma {:induction false} SinksConcat(a: seq<SinkEntry>, b: seq<SinkEntry>)
    ensures SinksOf(a + b) ==
            if SinksOf(a).Some? && SinksOf(b).Some? then Some(SinksOf(a).value + SinksOf(b).value) else None
  {
    if b == [] {
      assert a + b == a;
      assert SinksOf(a).Some? ==> SinksOf(a).value + [] == SinksOf(a).value;
    } else {
      var init, last := b[..|b| - 1], b[|b| - 1];
      SinksConcat(a, init);
      SinksSnoc(a + init, last);
      SinksSnoc(init, last);
      assert a + b == a + init + [last] && b == init + [last];
      if SinksOf(a).Some? && SinksOf(init).Some? && last.Creates? {
        assert SinksOf(a).value + SinksOf(init).value + [last.sink] ==
               SinksOf(a).value + (SinksOf(init).value + [last.sink]);
      }
    }
  }

  /** The sinks are those that were created, in the order of the entries; an exception loses them all. */
  lemma SinksInOrder(before: seq<SinkEntry>, after: seq<SinkEntry>, sink: nat)
    requires SinksOf(before).Some? && SinksOf(after).Some?
    ensures SinksOf([]) == Some([])
    ensures SinksOf(before + [Creates(sink)] + after) == Some(SinksOf(before).value + [sink] + SinksOf(after).value)
    ensures SinksOf(before + [Skipped] + after) == Some(SinksOf(before).value + SinksOf(after).value)
  {
    SinksSnoc(before, Creates(sink));
    SinksSnoc(before, Skipped);
    SinksConcat(before + [Creates(sink)], after);
    SinksConcat(before + [Skipped], after);
  }

  lemma {:induction false} SinksThrowIff(entries: seq<SinkEntry>)
    ensures SinksOf(entries) == None <==> Throws in entries
  {
    if entries != [] {
      SinksThrowIff(entries[..|entries| - 1]);
      assert entries == entries[..|entries| - 1] + [entries[|entries| - 1]];
    }
  }

  // Logging is on, or nothing is said about it.
  predicate On(c: Config) {
    c.Logging? && (c.enabled == EnabledAbsent || c.enabled == Enabled(true))
  }

  predicate LevelAndSinks(c: Config) {
    c.Logging? && c.level.LevelText? && c.sinks.SinkList? &&
    c.level.text in {"trace", "debug", "info", "warning", "error", "critical"}
  }

  // A reload of this configuration puts a new logger in place.
  predicate Installs(c: Config) {
    On(c) && LevelAndSinks(c) && Throws !in c.sinks.entries && c.made
  }

  /** A configuration is valid exactly when logging is not switched off, its level is one of the six and its list of
      sinks is built without an exception; an exception also comes from an enabled field that is no boolean;
      everything else is refused. */
  lemma LoadIff(c: Config)
    ensures Load(c).Valid? <==> On(c) && LevelAndSinks(c) && Throws !in c.sinks.entries
    ensures Load(c).Thrown? <==>
            c.Logging? && (c.enabled == EnabledNotBool || (On(c) && LevelAndSinks(c) && Throws in c.sinks.entries))
    ensures Load(c).Valid? ==>
              Load(c).logger.level == ToLevel(c.level.text) && Some(Load(c).logger.sinks) == SinksOf(c.sinks.entries)
  {
    if c.Logging? && c.level.LevelText? {
      LevelNames(c.level.text);
    }
    if c.Logging? && c.sinks.SinkList? {
      SinksThrowIff(c.sinks.entries);
    }
  }

  /** Only the enabled field touches the pause flag, whatever the rest of the file holds. */
  lemma PauseEffectIff(c: Config)
    ensures PauseEffect(c) == Some(true) <==> c.Logging? && c.enabled == Enabled(false)
    ensures PauseEffect(c) == Some(false) <==> c.Logging? && c.enabled == Enabled(true)
  {
  }

  // What LogManager::Init makes of it: a valid configuration may still yield no Logger.
  function Reloaded(c: Config): Loaded {
    if Load(c).Valid? && !c.made then Rejected else Load(c)
  }

  /** Init succeeds exactly when a new logger is in place, and lets through no exception but the ones of the parser. */
  lemma ReloadedIff(c: Config)
    ensures Reloaded(c).Valid? <==> Installs(c)
    ensures Reloaded(c).Valid? ==> Load(c).Valid? && Reloaded(c).logger == Load(c).logger
    ensures Reloaded(c).Thrown? <==> Load(c).Thrown?
  {
    LoadIff(c);
  }

  // ----- the manager's state and its history -----

  datatype Manager = Manager(logger: Option<Logger>, paused: bool)

  datatype Event = Reload(c: Config) | PauseCall | RemainCall | ShutDownCall

  function PauseStep(m: Manager, c: Config): Manager {
    match PauseEffect(c) case None => m case Some(p) => m.(paused := p)
  }

  function InstallStep(m: Manager, c: Config): Manager {
    match Reloaded(c) case Valid(l) => m.(logger := Some(l)) case Rejected => m case Thrown => m
  }

  function Apply(m: Manager, e: Event): Manager {
    match e
    case Reload(c) => InstallStep(PauseStep(m, c), c)
    case PauseCall => m.(paused := true)
    case RemainCall => m.(paused := false)
    case ShutDownCall => m.(logger := None)
  }

  const NEW_MANAGER := Manager(None, false)

  function After(events: seq<Event>): Manager {
    if events == [] then NEW_MANAGER else Apply(After(events[..|events| - 1]), events[|events| - 1])
  }

  // Event i is the last one that decides the active logger.
  ghost predicate LastDeciding(events: seq<Event>, i: nat) {
    i < |events| && Decides(events[i]) && forall j :: i < j < |events| ==> !Decides(events[j])
  }

  predicate Decides(e: Event) {
    e.ShutDownCall? || (e.Reload? && Reloaded(e.c).Valid?)
  }

  ghost predicate LastPausing(events: seq<Event>, i: nat) {
    i < |events| && SetsPause(events[i]).Some? && forall j :: i < j < |events| ==> SetsPause(events[j]).None?
  }

  function SetsPause(e: Event): Option<bool> {
    match e
    case Reload(c) => PauseEffect(c)
    case PauseCall => Some(true)
    case RemainCall => Some(false)
    case ShutDownCall => None
  }

  /** The active logger is that of the last configuration that was valid and yielded a Logger: a reload that
      fails, for whatever reason and however late, discards nothing. */
  lemma {:induction false} ActiveLogger(events: seq<Event>, i: nat)
    ensures LastDeciding(events, i) ==>
              After(events).logger == if events[i].ShutDownCall? then None else Some(Reloaded(events[i].c).logger)
    ensures (forall j :: 0 <= j < |events| ==> !Decides(events[j])) ==> After(events).logger == None
  {
    if events != [] {
      var before := events[..|events| - 1];
      ActiveLogger(before, i);
      assert forall j :: 0 <= j < |before| ==> before[j] == events[j];
      if LastDeciding(events, i) && i < |events| - 1 {
        assert LastDeciding(before, i);
      }
    }
  }

  /** The pause flag is that of the last event that set it, even when that event was a
      configuration that went on to be refused. */
  lemma {:induction false} PauseFlag(events: seq<Event>, i: nat)
    ensures LastPausing(events, i) ==> After(events).paused == SetsPause(events[i]).value
    ensures (forall j :: 0 <= j < |events| ==> SetsPause(events[j]).None?) ==> !After(events).paused
  {
    if events != [] {
      var before := events[..|events| - 1];
      PauseFlag(before, i);
      assert forall j :: 0 <= j < |before| ==> before[j] == events[j];
      if LastPausing(events, i) && i < |events| - 1 {
        assert LastPausing(before, i);
      }
    }
  }

  /** One more event, by kind. */
  lemma OneMore(events: seq<Event>, c: Config)
    ensures After([]) == Manager(None, false)
    ensures After(events + [PauseCall]) == After(events).(paused := true)
    ensures After(events + [RemainCall]) == After(events).(paused := false)
    ensures After(events + [ShutDownCall]) == After(events).(logger := None)
    ensures var m := After(events + [Reload(c)]);
            (if Installs(c)
             then Load(c).Valid? && m.logger == Some(Load(c).logger) else m.logger == After(events).logger) &&
            m.paused == (if c.Logging? && c.enabled.Enabled? then !c.enabled.on else After(events).paused)
  {
    LoadIff(c);
    forall e: Event ensures After(events + [e]) == Apply(After(events), e) {
      assert (events + [e])[..|events|] == events;
    }
  }

  // ----- what reaches the sinks -----

  function GetLogger(m: Manager): Option<Logger> {
    if m.logger.None? || m.paused then None else m.logger
  }

  function GetLevelOf(m: Manager): Level {
    match m.logger case None => Unknown case Some(l) => l.level
  }

  predicate ShouldLog(m: Manager, level: Level) {
    !(Rank(GetLevelOf(m)) == 0 || Rank(GetLevelOf(m)) > Rank(level))
  }

  // The sinks that a LOG statement writes to.
  function Reached(m: Manager, level: Level): seq<nat> {
    if ShouldLog(m, level) && GetLogger(m).Some? then GetLogger(m).value.sinks else []
  }

  lemma {:induction false} LevelsKnown(events: seq<Event>)
    ensures After(events).logger.Some? ==> After(events).logger.value.level != Unknown
  {
    if events != [] {
      LevelsKnown(events[..|events| - 1]);
    }
  }

  /** After any history a message reaches all sinks of the active logger, in order, if there is one, it is
      not paused and the message is at least at its level; otherwise it reaches none. */
  lemma MessageReaches(events: seq<Event>, level: Level)
    ensures var m := After(events);
            Reached(m, level) ==
            if m.logger.Some? && !m.paused && Rank(level) >= Rank(m.logger.value.level)
            then m.logger.value.sinks else []
    ensures var m := After(events);
            ShouldLog(m, level) <==> m.logger.Some? && Rank(level) >= Rank(m.logger.value.level)
  {
    LevelsKnown(events);
  }

  // ----- the objects -----

  class LogManager {
    var logger: Option<Logger>
    var paused: bool

    function State(): Manager
      reads this
    {
      Manager(logger, paused)
    }

    // The constructor runs Init; when Init throws there is no object, which LogSystem accounts for.
    constructor (c: Config)
      ensures State() == Apply(NEW_MANAGER, Reload(c))
    {
      logger, paused := None, false;
      new;
      var _ := Init(c);
    }

    /** LogManager::Init over ParseLogConfig. */
    method Init(c: Config) returns (r: Loaded)
      modifies this
      ensures r == Reloaded(c)
      ensures State() == Apply(old(State()), Reload(c))
    {
      r := ParseLogConfig(c);
      if r.Valid? {
        if !c.made {
          return Rejected;
        }
        logger := Some(r.logger);
      }
    }

    method Pause()
      modifies this`paused
      ensures State() == Apply(old(State()), PauseCall)
    {
      paused := true;
    }

    method Remain()
      modifies this`paused
      ensures State() == Apply(old(State()), RemainCall)
    {
      paused := false;
    }

    method ShutDown()
      modifies this`logger
      ensures State() == Apply(old(State()), ShutDownCall)
    {
      logger := None;
    }

    method Get() returns (r: Option<Logger>)
      ensures r == GetLogger(State())
    {
      if logger.None? || paused {
        return None;
      }
      return logger;
    }

    method ParseLogConfig(c: Config) returns (r: Loaded)
      modifies this`paused
      ensures r == Load(c)
      ensures State() == PauseStep(old(State()), c)
    {
      if c.LoadFailed? || c.NoLogging? {
        return Rejected;
      }
      if !c.enabled.EnabledAbsent? {
        if c.enabled.EnabledNotScalar? {
          return Rejected;
        }
        if c.enabled.EnabledNotBool? {
          return Thrown;
        }
        if !c.enabled.on {
          Pause();
          return Rejected;
        } else {
          Remain();
        }
      }
      if c.level.LevelMissing? || c.sinks.SinksMissing? {
        return Rejected;
      }
      var level := ToLevel(c.level.text);
      if level == Unknown {
        return Rejected;
      }
      var sinks: seq<nat> := [];
      for i := 0 to |c.sinks.entries|
        invariant SinksOf(c.sinks.entries[..i]) == Some(sinks)
        invariant State() == PauseStep(old(State()), c)
      {
        assert c.sinks.entries[..i + 1][..i] == c.sinks.entries[..i];
        match c.sinks.entries[i] {
          case Creates(sink) => sinks := sinks + [sink];
          case Skipped =>
          case Throws =>
            ThrowsThrough(c.sinks.entries, i);
            return Thrown;
        }
      }
      assert c.sinks.entries[..|c.sinks.entries|] == c.sinks.entries;
      return Valid(Logger(level, sinks));
    }
  }

  // An exception from one entry ends the whole list.
  lemma {:induction false} ThrowsThrough(entries: seq<SinkEntry>, i: nat)
    requires i < |entries| && SinksOf(entries[..i + 1]).None?
    ensures SinksOf(entries).None?
    decreases |entries| - i
  {
    if i + 1 == |entries| {
      assert entries[..i + 1] == entries;
    } else {
      assert entries[..i + 2][..i + 1] == entries[..i + 1];
      ThrowsThrough(entries, i + 1);
    }
  }
}
