/** The stale-server rule of `HandleEmptyServerRestart`: the shared empty-since
    timestamp, and when a run of due ticks restarts the server. */
module Stale {
  import opened Outside

  /** What one due tick of the stale task sees: its sampled time and the number
      of active players. */
  datatype Observation = Observation(time: int, activePlayers: int)

  /** The new empty-since timestamp, and whether the server is restarted. */
  datatype StaleResult = StaleResult(firstEmpty: Option<int>, restart: bool)

  /** One due tick of the stale rule at time `now`. */
  function StaleStep(firstEmpty: Option<int>, now: int, activePlayers: int, threshold: int): (r: StaleResult)
    // first empty observation: start the timer, do not restart
    ensures activePlayers == 0 && firstEmpty.None? ==> r == StaleResult(Some(now), false)
    // players present: clear the timer, do not restart
    ensures activePlayers != 0 ==> r == StaleResult(None, false)
    // the restart happens exactly when the server has been empty for the threshold
    ensures r.restart <==> activePlayers == 0 && firstEmpty.Some? && now - firstEmpty.value >= threshold
    // while empty, an already started timer is kept
    ensures activePlayers == 0 && firstEmpty.Some? ==> r.firstEmpty == firstEmpty
  {
    if activePlayers == 0 then
      match firstEmpty
      case None => StaleResult(Some(now), false)
      case Some(t) => StaleResult(firstEmpty, now - t >= threshold)
    else
      StaleResult(None, false)
  }

  /** The empty-since timestamp after a run of due ticks, starting from `firstEmpty`. */
  function StaleRun(firstEmpty: Option<int>, obs: seq<Observation>, threshold: int): Option<int> {
    if obs == [] then firstEmpty
    else
      var o := obs[|obs| - 1];
      StaleStep(StaleRun(firstEmpty, obs[..|obs| - 1], threshold), o.time, o.activePlayers, threshold).firstEmpty
  }

  /** Whether the `k`-th due tick of a run restarts the server. */
  predicate Fires(firstEmpty: Option<int>, obs: seq<Observation>, k: nat, threshold: int)
    requires k < |obs|
  {
    StaleStep(StaleRun(firstEmpty, obs[..k], threshold), obs[k].time, obs[k].activePlayers, threshold).restart
  }

  /** Every tick from `s` on saw an empty server. */
  predicate EmptyFrom(obs: seq<Observation>, s: nat) {
    forall i :: s <= i < |obs| ==> obs[i].activePlayers == 0
  }

  /** Once the timer is running, further empty ticks leave it where it is. */
  lemma {:induction false} TimerKeptWhileEmpty(firstEmpty: Option<int>, obs: seq<Observation>, s: nat, t: int, threshold: int)
    requires s <= |obs|
    requires EmptyFrom(obs, s)
    requires StaleRun(firstEmpty, obs[..s], threshold) == Some(t)
    ensures StaleRun(firstEmpty, obs, threshold) == Some(t)
  {
    if |obs| > s {
      var init := obs[..|obs| - 1];
      assert init[..s] == obs[..s];
      TimerKeptWhileEmpty(firstEmpty, init, s, t, threshold);
      assert obs[|obs| - 1].activePlayers == 0;
    } else {
      assert obs[..s] == obs;
    }
  }

  /** The timer of a streak of empty ticks starts at the streak's first tick,
      when the streak follows a tick with players, or the run's start with no
      timer running. */
  lemma StreakStartsTimer(firstEmpty: Option<int>, obs: seq<Observation>, s: nat, k: nat, threshold: int)
    requires s <= k < |obs|
    requires EmptyFrom(obs[..k + 1], s)
    requires if s == 0 then firstEmpty.None? else obs[s - 1].activePlayers != 0
    ensures StaleRun(firstEmpty, obs[..s], threshold).None?
    ensures StaleRun(firstEmpty, obs[..k + 1], threshold) == Some(obs[s].time)
  {
    if s > 0 {
      assert obs[..s][..s - 1] == obs[..s - 1];
    }
    assert obs[..s + 1][..s] == obs[..s];
    assert obs[..k + 1][..s + 1] == obs[..s + 1];
    TimerKeptWhileEmpty(firstEmpty, obs[..k + 1], s + 1, obs[s].time, threshold);
  }

  /** The stale rule over a run of due ticks: after players leave (or from the
      start, with no timer), the first empty tick only starts the timer, and a
      later tick of the same empty streak restarts the server exactly when the
      time since that first empty tick has reached the threshold. */
  lemma StaleFiresAfterThreshold(firstEmpty: Option<int>, obs: seq<Observation>, s: nat, k: nat, threshold: int)
    requires s < k < |obs|
    requires EmptyFrom(obs[..k + 1], s)
    requires if s == 0 then firstEmpty.None? else obs[s - 1].activePlayers != 0
    ensures !Fires(firstEmpty, obs, s, threshold)
    ensures Fires(firstEmpty, obs, k, threshold) <==> obs[k].time - obs[s].time >= threshold
  {
    StreakStartsTimer(firstEmpty, obs, s, k - 1, threshold);
    assert obs[..k + 1][k] == obs[k];
  }

  /** A tick that sees players never restarts the server, and the next empty
      tick starts the timer afresh. */
  lemma PlayersResetTimer(firstEmpty: Option<int>, obs: seq<Observation>, k: nat, threshold: int)
    requires k + 1 < |obs|
    requires obs[k].activePlayers != 0
    requires obs[k + 1].activePlayers == 0
    ensures !Fires(firstEmpty, obs, k, threshold)
    ensures StaleRun(firstEmpty, obs[..k + 2], threshold) == Some(obs[k + 1].time)
  {
    assert obs[..k + 2][..k + 1] == obs[..k + 1];
    assert obs[..k + 1][..k] == obs[..k];
  }

  /** Firing does not clear the timer: while the server stays empty, every later
      due tick restarts it again. */
  lemma StaleKeepsFiring(firstEmpty: Option<int>, obs: seq<Observation>, k: nat, threshold: int)
    requires k + 1 < |obs|
    requires Fires(firstEmpty, obs, k, threshold)
    requires obs[k + 1].activePlayers == 0
    requires obs[k + 1].time >= obs[k].time
    ensures Fires(firstEmpty, obs, k + 1, threshold)
  {
    assert obs[..k + 1][..k] == obs[..k];
  }
}
