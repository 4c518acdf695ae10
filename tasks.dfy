/** The scheduled tasks of the server supervisor: a task samples the time each
    tick, warns before it is due, runs its variant's action when due, then
    clears its warnings and advances its due time. */
module Tasks {
  import opened Outside
  import opened Warnings
  import opened Stale

  /** The task variants, one per subclass of `Task`. */
  datatype Variant =
    | CheckServerRunning   // CheckServerRunningAndRestart
    | SendAnnouncement
    | HandleEmptyServer    // HandleEmptyServerRestart
    | CheckForUpdates      // CheckForUpdatesAndRestart
    | RoutineRestart       // PerformRoutineRestart
    | DestroyWildDinos

  /** A task's configuration entry; an absent key is `None`. */
  datatype TaskConfig = TaskConfig(description: Option<string>, warnings: Option<seq<int>>, thresholdHours: Option<int>)

  /** What a variant's action does: its result, the effects it has on the outside,
      the new empty-since timestamp, and whether it records a last check. */
  datatype Outcome = Outcome(fired: bool, effects: seq<Effect>, firstEmpty: Option<int>, checked: bool)

  /** The action (`_run_task`) of each variant, at tick time `now`. */
  function RunOutcome(variant: Variant, description: string, threshold: int, probe: Probe,
                      firstEmpty: Option<int>, now: int): (r: Outcome)
    // an action has at most one effect, and it reports true exactly when that
    // effect started or restarted the server
    ensures |r.effects| <= 1
    ensures r.fired <==> r.effects != [] && IsServerLaunch(r.effects[0])
    ensures variant == CheckServerRunning ==> r.fired == !probe.serverRunning
    ensures variant == SendAnnouncement ==> !r.fired && r.effects == [MessageSent(description)]
    ensures variant == HandleEmptyServer ==>
              StaleStep(firstEmpty, now, probe.activePlayers, threshold) == StaleResult(r.firstEmpty, r.fired)
    ensures variant == HandleEmptyServer && r.fired ==> r.effects == [ServerRestarted("stale server", true)]
    ensures variant == CheckForUpdates ==> r.fired == probe.needsUpdate
    ensures variant == RoutineRestart ==> r.fired
    ensures variant == DestroyWildDinos ==> !r.fired && r.effects == [WildDinosDestroyed]
    // only the stale task touches the shared timestamp
    ensures variant != HandleEmptyServer ==> r.firstEmpty == firstEmpty
    ensures r.checked <==> !(variant == CheckServerRunning || variant == SendAnnouncement)
  {
    match variant
    case CheckServerRunning =>
      if !probe.serverRunning then Outcome(true, [ServerStarted], firstEmpty, false)
      else Outcome(false, [], firstEmpty, false)
    case SendAnnouncement =>
      Outcome(false, [MessageSent(description)], firstEmpty, false)
    case HandleEmptyServer =>
      var step := StaleStep(firstEmpty, now, probe.activePlayers, threshold);
      if step.restart then Outcome(true, [ServerRestarted("stale server", true)], step.firstEmpty, true)
      else Outcome(false, [], step.firstEmpty, true)
    case CheckForUpdates =>
      if probe.needsUpdate then Outcome(true, [ServerRestarted("server update", false)], firstEmpty, true)
      else Outcome(false, [], firstEmpty, true)
    case RoutineRestart =>
      Outcome(true, [ServerRestarted("routine restart", false)], firstEmpty, true)
    case DestroyWildDinos =>
      Outcome(false, [WildDinosDestroyed], firstEmpty, true)
  }

  class Task {
    const server: Server
    const variant: Variant
    const description: string
    /** Warning thresholds in minutes before the due time, largest first. */
    const warningTimes: seq<int>
    /** Stale threshold in seconds (only the stale task has one). */
    const threshold: int
    /** Thresholds already announced in the current cycle. */
    var warned: set<int>
    /** The time sampled at the start of the current tick. */
    var currentTime: int
    /** When the task is next due. */
    var nextTime: int
    /** When the task last ran its check, if ever. */
    var lastCheck: Option<int>

    /** The thresholds stay largest first, and only listed thresholds are ever
        marked as warned. */
    ghost predicate Valid()
      reads this
    {
      SortedDesc(warningTimes) &&
      forall w :: w in warned ==> w in warningTimes
    }

    constructor (server: Server, variant: Variant, config: TaskConfig, now: int)
      ensures Valid()
      ensures this.server == server && this.variant == variant
      ensures description == config.description.GetOr("")
      ensures warningTimes == SortDescending(config.warnings.GetOr([]))
      ensures SortedDesc(warningTimes) && multiset(warningTimes) == multiset(config.warnings.GetOr([]))
      // the stale threshold is configured in hours (0 when absent) and kept in seconds
      ensures threshold == if variant == HandleEmptyServer then config.thresholdHours.GetOr(0) * 3600 else 0
      ensures warned == {} && lastCheck == None
      ensures currentTime == now && nextTime > now
    {
      this.server := server;
      this.variant := variant;
      description := config.description.GetOr("");
      warningTimes := SortDescending(config.warnings.GetOr([]));
      threshold := if variant == HandleEmptyServer then config.thresholdHours.GetOr(0) * 60 * 60 else 0;
      warned := {};
      currentTime := now;
      var first :| first > now;
      nextTime := first;
      lastCheck := None;
    }

    /** Seconds left until the due time; negative once it has passed. */
    function SecondsUntilNext(): int
      reads this
    {
      nextTime - currentTime
    }

    predicate IsTimeToExecute()
      reads this
    {
      currentTime >= nextTime
    }

    /** Advances the due time past the current time, as the schedule says. */
    method SetNextTime()
      modifies this`nextTime
      ensures nextTime > currentTime
    {
      var t :| t > currentTime;
      nextTime := t;
    }

    /** Announces each threshold the remaining time has newly crossed. */
    method WarnBeforeTask()
      requires Valid()
      modifies this`warned, server`effects
      ensures Valid()
      ensures warningTimes == [] ==> warned == old(warned) && server.effects == old(server.effects)
      ensures var announced := Announced(warningTimes, old(warned), SecondsUntilNext());
              (forall w :: w in warned <==> w in old(warned) || w in announced) &&
              server.effects == old(server.effects) + WarningEffects(description, announced)
    // the warnings of a tick go out largest first, none twice
    ensures StrictlyDesc(Announced(warningTimes, old(warned), SecondsUntilNext()))
    {
      AnnouncedDescending(warningTimes, warned, SecondsUntilNext());
      if warningTimes == [] {
        return;
      }
      var secondsUntil := SecondsUntilNext();
      ghost var warned0, effects0 := warned, server.effects;
      ghost var announced: seq<int> := [];
      var i := 0;
      while i < |warningTimes|
        invariant 0 <= i <= |warningTimes|
        invariant announced == AnnouncedPrefix(warningTimes, i, warned0, secondsUntil)
        invariant warned == WarnedPrefix(warningTimes, i, warned0, secondsUntil)
        invariant server.effects == effects0 + WarningEffects(description, announced)
      {
        var w := warningTimes[i];
        if Crossed(secondsUntil, w) && w !in warned {
          WarningEffectsAppend(description, announced, w);
          warned := warned + {w};
          server.Record(WarningSent(description, w));
          announced := announced + [w];
        }
        i := i + 1;
      }
      WarnedAfterPass(warningTimes, warned0, secondsUntil);
    }

    /** Sends every warning in turn, sleeping until the next threshold after
        each one and for the whole last threshold after the last. */
    method WarnThenWait()
      requires Valid()
      modifies server`effects
      ensures server.effects == old(server.effects) + WarnThenWaitEffects(description, warningTimes, |warningTimes|)
      // one warning per threshold, largest first
      ensures var sent := WarnedMinutes(WarnThenWaitEffects(description, warningTimes, |warningTimes|));
              sent == warningTimes && SortedDesc(sent)
    {
      var cnt := 0;
      while cnt < |warningTimes|
        invariant 0 <= cnt <= |warningTimes|
        invariant server.effects == old(server.effects) + WarnThenWaitEffects(description, warningTimes, cnt)
      {
        var w := warningTimes[cnt];
        server.Record(WarningSent(description, w));
        if cnt < |warningTimes| - 1 {
          server.Record(Slept((w - warningTimes[cnt + 1]) * 60));
        } else {
          server.Record(Slept(w * 60));
        }
        cnt := cnt + 1;
      }
      WarnThenWaitWarnsEach(description, warningTimes, |warningTimes|);
      assert warningTimes[..|warningTimes|] == warningTimes;
    }

    method ResetSentWarnings()
      modifies this`warned
      ensures warned == {}
    {
      warned := {};
    }

    /** Ends a cycle: clears the warned set and advances the due time. */
    method Cleanup()
      modifies this`warned, this`nextTime
      ensures warned == {} && nextTime > currentTime
    {
      ResetSentWarnings();
      SetNextTime();
    }

    method UpdateLastCheck()
      modifies this`lastCheck
      ensures lastCheck == Some(currentTime)
    {
      lastCheck := Some(currentTime);
    }

    /** Runs the variant's action (`_run_task`). */
    method RunTask(probe: Probe) returns (fired: bool)
      modifies server, this`lastCheck
      ensures var o := RunOutcome(variant, description, threshold, probe, old(server.firstEmpty), currentTime);
              fired == o.fired &&
              server.effects == old(server.effects) + o.effects &&
              server.firstEmpty == o.firstEmpty &&
              lastCheck == if o.checked then Some(currentTime) else old(lastCheck)
    {
      match variant
      case CheckServerRunning =>
        if !probe.serverRunning {
          server.Record(ServerStarted);
          return true;
        }
        return false;
      case SendAnnouncement =>
        server.Record(MessageSent(description));
        return false;
      case HandleEmptyServer =>
        if probe.activePlayers == 0 {
          if server.firstEmpty.None? {
            server.firstEmpty := Some(currentTime);
          } else if currentTime - server.firstEmpty.value >= threshold {
            server.Record(ServerRestarted("stale server", true));
            UpdateLastCheck();
            return true;
          }
        } else {
          if server.firstEmpty.Some? {
            server.firstEmpty := None;
          }
        }
        UpdateLastCheck();
        return false;
      case CheckForUpdates =>
        UpdateLastCheck();
        if probe.needsUpdate {
          server.Record(ServerRestarted("server update", false));
          return true;
        }
        return false;
      case RoutineRestart =>
        server.Record(ServerRestarted("routine restart", false));
        UpdateLastCheck();
        return true;
      case DestroyWildDinos =>
        server.Record(WildDinosDestroyed);
        UpdateLastCheck();
        return false;
    }

    /** The contract of the generic tick (`Task.execute`) at time `now`. */
    twostate predicate WhenDueStep(now: int, probe: Probe, fired: bool)
      reads this, server
    {
      var announced := Announced(warningTimes, old(warned), old(nextTime) - now);
      var o := RunOutcome(variant, description, threshold, probe, old(server.firstEmpty), now);
      currentTime == now &&
      // the tick's warnings go out largest first, none twice
      StrictlyDesc(announced) &&
      if now < old(nextTime) then
        // not due: only the warnings, nothing runs, the due time stays
        !fired && nextTime == old(nextTime) &&
        (forall w :: w in warned <==> w in old(warned) || w in announced) &&
        server.effects == old(server.effects) + WarningEffects(description, announced) &&
        server.firstEmpty == old(server.firstEmpty) && lastCheck == old(lastCheck)
      else
        // due: the warnings, then the action; its result is returned
        fired == o.fired && nextTime > now && warned == {} &&
        server.effects == old(server.effects) + WarningEffects(description, announced) + o.effects &&
        server.firstEmpty == o.firstEmpty &&
        lastCheck == if o.checked then Some(now) else old(lastCheck)
    }

    /** The contract of the update task's tick: when due, the whole blocking
        warning sequence, then the update check. */
    twostate predicate WarnThenCheckStep(now: int, probe: Probe, fired: bool)
      reads this, server
    {
      var o := RunOutcome(variant, description, threshold, probe, old(server.firstEmpty), now);
      currentTime == now &&
      if now < old(nextTime) then
        !fired && nextTime == old(nextTime) && warned == old(warned) &&
        server.effects == old(server.effects) &&
        server.firstEmpty == old(server.firstEmpty) && lastCheck == old(lastCheck)
      else
        fired == o.fired && nextTime > now && warned == {} &&
        server.effects == old(server.effects) + WarnThenWaitEffects(description, warningTimes, |warningTimes|) + o.effects &&
        server.firstEmpty == o.firstEmpty &&
        lastCheck == if o.checked then Some(now) else old(lastCheck)
    }

    /** The contract of the health check's tick: the action, every tick, with
        neither the clock nor the warnings touched. */
    twostate predicate EveryTickStep(probe: Probe, fired: bool)
      reads this, server
    {
      var o := RunOutcome(variant, description, threshold, probe, old(server.firstEmpty), old(currentTime));
      fired == o.fired &&
      currentTime == old(currentTime) && nextTime == old(nextTime) && warned == old(warned) &&
      server.effects == old(server.effects) + o.effects &&
      server.firstEmpty == o.firstEmpty &&
      lastCheck == if o.checked then Some(currentTime) else old(lastCheck)
    }

    /** `Task.execute`: sample the time, warn, and run the action when due. */
    method ExecuteWhenDue(now: int, probe: Probe) returns (fired: bool)
      requires Valid()
      modifies this, server
      ensures Valid()
      ensures WhenDueStep(now, probe, fired)
    {
      currentTime := now;
      WarnBeforeTask();
      if IsTimeToExecute() {
        fired := RunTask(probe);
        Cleanup();
        return;
      }
      return false;
    }

    /** `CheckForUpdatesAndRestart.execute`: when due, warn and wait, then check. */
    method ExecuteWarnThenCheck(now: int, probe: Probe) returns (fired: bool)
      requires Valid()
      modifies this, server
      ensures Valid()
      ensures WarnThenCheckStep(now, probe, fired)
    {
      currentTime := now;
      if IsTimeToExecute() {
        WarnThenWait();
        fired := RunTask(probe);
        Cleanup();
        return;
      }
      return false;
    }

    /** `CheckServerRunningAndRestart.execute`: the action on every tick. */
    method ExecuteEveryTick(probe: Probe) returns (fired: bool)
      requires Valid()
      modifies this, server
      ensures Valid()
      ensures EveryTickStep(probe, fired)
    {
      fired := RunTask(probe);
    }

    /** One tick of the task, dispatched to its variant's `execute`. */
    method Execute(now: int, probe: Probe) returns (fired: bool)
      requires Valid()
      modifies this, server
      ensures Valid()
      ensures variant == CheckServerRunning ==> EveryTickStep(probe, fired)
      ensures variant == CheckForUpdates ==> WarnThenCheckStep(now, probe, fired)
      ensures !(variant == CheckServerRunning || variant == CheckForUpdates) ==> WhenDueStep(now, probe, fired)
    {
      match variant
      case CheckServerRunning =>
        fired := ExecuteEveryTick(probe);
      case CheckForUpdates =>
        fired := ExecuteWarnThenCheck(now, probe);
      case _ =>
        fired := ExecuteWhenDue(now, probe);
    }
  }
}
