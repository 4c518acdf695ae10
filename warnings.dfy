/** The warning bookkeeping of a task: the thresholds (minutes before the due
    time) kept in descending order, which of them a tick newly announces, and
    the blocking warn-then-wait sequence. */
module Warnings {
  import opened Outside

  /** Descending order, as `sorted(..., reverse=True)` leaves a list (ties allowed). */
  predicate SortedDesc(s: seq<int>) {
    forall i, j :: 0 <= i < j < |s| ==> s[i] >= s[j]
  }

  /** Strictly descending: no threshold appears twice. */
  predicate StrictlyDesc(s: seq<int>) {
    forall i, j :: 0 <= i < j < |s| ==> s[i] > s[j]
  }

  // ---------------------------------------------------------------------------
  // sorted(warnings, reverse=True)

  /** Inserts `x` into a descending sequence, keeping it descending. */
  function Insert(x: int, s: seq<int>): (r: seq<int>)
    requires SortedDesc(s)
    ensures SortedDesc(r)
    ensures multiset(r) == multiset(s) + multiset{x}
  {
    if s == [] || x >= s[0] then
      [x] + s
    else
      var rest := Insert(x, s[1..]);
      InsertBehindHead(x, s, rest);
      [s[0]] + rest
  }

  /** When `x` goes behind the head of `s`, putting the head back in front of
      the insertion into the tail keeps the order. */
  lemma InsertBehindHead(x: int, s: seq<int>, rest: seq<int>)
    requires SortedDesc(s) && s != [] && x < s[0]
    requires SortedDesc(rest) && multiset(rest) == multiset(s[1..]) + multiset{x}
    ensures SortedDesc([s[0]] + rest)
    ensures multiset([s[0]] + rest) == multiset(s) + multiset{x}
  {
    assert s == [s[0]] + s[1..];
    forall j | 0 <= j < |rest| ensures rest[j] <= s[0] {
      assert rest[j] in multiset(rest);
      if rest[j] != x {
        HeadIsLargest(s, rest[j]);
      }
    }
  }

  /** The warning thresholds in descending order, with the same elements and
      multiplicities as the configured list. */
  function SortDescending(s: seq<int>): (r: seq<int>)
    ensures SortedDesc(r)
    ensures multiset(r) == multiset(s)
  {
    if s == [] then []
    else
      assert s == [s[0]] + s[1..];
      Insert(s[0], SortDescending(s[1..]))
  }

  /** Two descending sequences with the same elements are equal: whatever
      algorithm sorts the list, the result is the one `SortDescending` gives. */
  lemma {:induction false} SortedDescUnique(a: seq<int>, b: seq<int>)
    requires SortedDesc(a) && SortedDesc(b)
    requires multiset(a) == multiset(b)
    ensures a == b
  {
    if a != [] {
      assert |b| == |multiset(b)| == |multiset(a)| == |a|;
      HeadIsLargest(a, b[0]);
      HeadIsLargest(b, a[0]);
      assert a == [a[0]] + a[1..];
      assert b == [b[0]] + b[1..];
      assert multiset(a) == multiset{a[0]} + multiset(a[1..]);
      assert multiset(b) == multiset{b[0]} + multiset(b[1..]);
      assert a[0] == b[0];
      assert multiset(a[1..]) == multiset(a) - multiset{a[0]};
      assert multiset(b[1..]) == multiset(b) - multiset{b[0]};
      SortedDescUnique(a[1..], b[1..]);
    }
  }

  /** The head of a descending sequence is its largest element. */
  lemma HeadIsLargest(s: seq<int>, x: int)
    requires SortedDesc(s)
    requires x in multiset(s)
    ensures x <= s[0]
  {
    var k :| 0 <= k < |s| && s[k] == x;
  }

  // ---------------------------------------------------------------------------
  // _warn_before_task

  /** `minutes_until_task <= w`, where minutes_until_task is the seconds left
      divided by 60 as a real number. */
  predicate Crossed(secondsUntil: int, w: int) {
    secondsUntil <= w * 60
  }

  /** The warned set after the loop of `_warn_before_task` has taken the first
      `n` thresholds of `ws`, starting from `warned`, with `secondsUntil`
      seconds left. */
  function WarnedPrefix(ws: seq<int>, n: nat, warned: set<int>, secondsUntil: int): set<int>
    requires n <= |ws|
  {
    if n == 0 then warned
    else
      var prev := WarnedPrefix(ws, n - 1, warned, secondsUntil);
      var w := ws[n - 1];
      if Crossed(secondsUntil, w) && w !in prev then prev + {w} else prev
  }

  /** The thresholds announced, in order, by those first `n` steps. */
  function AnnouncedPrefix(ws: seq<int>, n: nat, warned: set<int>, secondsUntil: int): seq<int>
    requires n <= |ws|
  {
    if n == 0 then []
    else
      var prev := AnnouncedPrefix(ws, n - 1, warned, secondsUntil);
      var w := ws[n - 1];
      if Crossed(secondsUntil, w) && w !in WarnedPrefix(ws, n - 1, warned, secondsUntil) then prev + [w] else prev
  }

  /** The thresholds one whole pass of `_warn_before_task` announces. */
  function Announced(ws: seq<int>, warned: set<int>, secondsUntil: int): seq<int> {
    AnnouncedPrefix(ws, |ws|, warned, secondsUntil)
  }

  lemma {:induction false} AnnouncedPrefixExactly(ws: seq<int>, n: nat, warned: set<int>, secondsUntil: int)
    requires n <= |ws|
    ensures forall w :: w in WarnedPrefix(ws, n, warned, secondsUntil) <==>
                        w in warned || w in AnnouncedPrefix(ws, n, warned, secondsUntil)
    ensures forall w :: w in AnnouncedPrefix(ws, n, warned, secondsUntil) <==>
                        w in ws[..n] && Crossed(secondsUntil, w) && w !in warned
    ensures forall i, j :: 0 <= i < j < |AnnouncedPrefix(ws, n, warned, secondsUntil)| ==>
                           AnnouncedPrefix(ws, n, warned, secondsUntil)[i] != AnnouncedPrefix(ws, n, warned, secondsUntil)[j]
  {
    if n > 0 {
      assert ws[..n] == ws[..n - 1] + [ws[n - 1]];
      AnnouncedPrefixExactly(ws, n - 1, warned, secondsUntil);
    }
  }

  /** One pass announces exactly the thresholds of the list that the remaining
      time has crossed and that were not yet warned, each once. */
  lemma AnnouncedExactly(ws: seq<int>, warned: set<int>, secondsUntil: int)
    ensures forall w :: w in Announced(ws, warned, secondsUntil) <==>
                        w in ws && Crossed(secondsUntil, w) && w !in warned
    ensures forall i, j :: 0 <= i < j < |Announced(ws, warned, secondsUntil)| ==>
                           Announced(ws, warned, secondsUntil)[i] != Announced(ws, warned, secondsUntil)[j]
  {
    AnnouncedPrefixExactly(ws, |ws|, warned, secondsUntil);
    assert ws[..|ws|] == ws;
  }

  /** After a whole pass, the warned set is the old one plus the announced
      thresholds; if the old one held only listed thresholds, so does the new. */
  lemma WarnedAfterPass(ws: seq<int>, warned: set<int>, secondsUntil: int)
    ensures forall w :: w in WarnedPrefix(ws, |ws|, warned, secondsUntil) <==>
                        w in warned || w in Announced(ws, warned, secondsUntil)
    ensures (forall w :: w in warned ==> w in ws) ==>
            forall w :: w in WarnedPrefix(ws, |ws|, warned, secondsUntil) ==> w in ws
  {
    AnnouncedPrefixExactly(ws, |ws|, warned, secondsUntil);
    assert ws[..|ws|] == ws;
  }

  lemma {:induction false} AnnouncedPrefixDescending(ws: seq<int>, n: nat, warned: set<int>, secondsUntil: int)
    requires n <= |ws|
    requires SortedDesc(ws)
    ensures StrictlyDesc(AnnouncedPrefix(ws, n, warned, secondsUntil))
  {
    if n > 0 {
      var w := ws[n - 1];
      var prev := AnnouncedPrefix(ws, n - 1, warned, secondsUntil);
      AnnouncedPrefixDescending(ws, n - 1, warned, secondsUntil);
      AnnouncedPrefixExactly(ws, n - 1, warned, secondsUntil);
      forall i | 0 <= i < |prev| ensures prev[i] >= w {
        assert prev[i] in ws[..n - 1];
        var k :| 0 <= k < n - 1 && ws[..n - 1][k] == prev[i];
        assert ws[k] == prev[i];
      }
    }
  }

  /** With the thresholds in descending order, the warnings of a pass go out
      largest first. */
  lemma AnnouncedDescending(ws: seq<int>, warned: set<int>, secondsUntil: int)
    requires SortedDesc(ws)
    ensures StrictlyDesc(Announced(ws, warned, secondsUntil))
  {
    AnnouncedPrefixDescending(ws, |ws|, warned, secondsUntil);
  }

  /** A threshold already in the warned set is never announced again before the
      set is cleared, whatever the remaining time is at a later tick. */
  lemma NoRepeatWithinCycle(ws: seq<int>, warned: set<int>, secondsUntil: int)
    ensures forall w :: w in warned ==> w !in Announced(ws, warned, secondsUntil)
  {
    AnnouncedExactly(ws, warned, secondsUntil);
  }

  /** Idempotence: once the thresholds of a pass are added to the warned set, a
      second pass at the same remaining time announces nothing. */
  lemma AnnounceIdempotent(ws: seq<int>, warned: set<int>, secondsUntil: int, after: set<int>)
    requires forall w :: w in after <==> w in warned || w in Announced(ws, warned, secondsUntil)
    ensures Announced(ws, after, secondsUntil) == []
  {
    AnnouncedExactly(ws, warned, secondsUntil);
    AnnouncedNothing(ws, |ws|, after, secondsUntil);
  }

  /** Once every crossed threshold of the list is in the warned set, a pass
      announces nothing. */
  lemma {:induction false} AnnouncedNothing(ws: seq<int>, n: nat, warned: set<int>, secondsUntil: int)
    requires n <= |ws|
    requires forall w :: w in ws && Crossed(secondsUntil, w) ==> w in warned
    ensures AnnouncedPrefix(ws, n, warned, secondsUntil) == []
    ensures WarnedPrefix(ws, n, warned, secondsUntil) == warned
  {
    if n > 0 {
      AnnouncedNothing(ws, n - 1, warned, secondsUntil);
      assert ws[n - 1] in ws;
    }
  }

  /** Thresholds [30, 10, 5] with one tick a minute and the task due 31 minutes
      after the first tick: the first tick (30 minutes left) warns for 30, the
      ticks with more than 10 minutes left add nothing, 10 minutes left warns
      for 10, and 5 minutes left warns for 5. */
  lemma ThirtyTenFiveScenario()
    ensures Announced([30, 10, 5], {}, 30 * 60) == [30]
    ensures forall s :: 10 * 60 < s <= 30 * 60 ==> Announced([30, 10, 5], {30}, s) == []
    ensures Announced([30, 10, 5], {30}, 10 * 60) == [10]
    ensures forall s :: 5 * 60 < s <= 10 * 60 ==> Announced([30, 10, 5], {30, 10}, s) == []
    ensures Announced([30, 10, 5], {30, 10}, 5 * 60) == [5]
  {
    var ws := [30, 10, 5];
    assert AnnouncedPrefix(ws, 2, {}, 30 * 60) == [30];
    assert AnnouncedPrefix(ws, 2, {30}, 10 * 60) == [10];
    assert AnnouncedPrefix(ws, 2, {30, 10}, 5 * 60) == [];
    forall s | 10 * 60 < s <= 30 * 60 ensures Announced(ws, {30}, s) == [] {
      AnnouncedNothing(ws, 3, {30}, s);
    }
    forall s | 5 * 60 < s <= 10 * 60 ensures Announced(ws, {30, 10}, s) == [] {
      AnnouncedNothing(ws, 3, {30, 10}, s);
    }
  }

  /** The chat messages of one pass, one per announced threshold. */
  function WarningEffects(description: string, announced: seq<int>): (r: seq<Effect>)
    ensures |r| == |announced|
    ensures forall i {:trigger r[i], announced[i]} :: 0 <= i < |r| ==> r[i] == WarningSent(description, announced[i])
  {
    if announced == [] then []
    else WarningEffects(description, announced[..|announced| - 1]) + [WarningSent(description, announced[|announced| - 1])]
  }

  lemma WarningEffectsAppend(description: string, announced: seq<int>, w: int)
    ensures WarningEffects(description, announced + [w]) == WarningEffects(description, announced) + [WarningSent(description, w)]
  {
    assert (announced + [w])[..|announced|] == announced;
  }

  // ---------------------------------------------------------------------------
  // _warn_then_wait

  /** How long `_warn_then_wait` sleeps after the warning for `ws[i]`: the gap to
      the next threshold, or the whole of the last threshold. */
  function WaitAfter(ws: seq<int>, i: nat): int
    requires i < |ws|
  {
    if i < |ws| - 1 then (ws[i] - ws[i + 1]) * 60 else ws[i] * 60
  }

  /** The effects of the first `n` rounds of `_warn_then_wait`: each round sends a
      warning and then sleeps. */
  function WarnThenWaitEffects(description: string, ws: seq<int>, n: nat): (r: seq<Effect>)
    requires n <= |ws|
    ensures |r| == 2 * n
    // round i: the warning for `ws[i]`, then the sleep until the next threshold
    ensures forall i :: 0 <= i < n ==> r[2 * i] == WarningSent(description, ws[i]) && r[2 * i + 1] == Slept(WaitAfter(ws, i))
  {
    if n == 0 then []
    else WarnThenWaitEffects(description, ws, n - 1) + [WarningSent(description, ws[n - 1]), Slept(WaitAfter(ws, n - 1))]
  }

  /** The thresholds named by the warnings in a record, in order. */
  function WarnedMinutes(effects: seq<Effect>): seq<int> {
    if effects == [] then []
    else
      var last := effects[|effects| - 1];
      WarnedMinutes(effects[..|effects| - 1]) + (if last.WarningSent? then [last.minutes] else [])
  }

  /** The total time slept in a record. */
  function TotalSleep(effects: seq<Effect>): int {
    if effects == [] then 0
    else
      var last := effects[|effects| - 1];
      TotalSleep(effects[..|effects| - 1]) + (if last.Slept? then last.seconds else 0)
  }

  /** Appending a warning and a sleep adds their minutes and seconds to the tallies. */
  lemma {:induction false} TalliesOfRound(e: seq<Effect>, a: Effect, b: Effect)
    requires a.WarningSent? && b.Slept?
    ensures WarnedMinutes(e + [a, b]) == WarnedMinutes(e) + [a.minutes]
    ensures TotalSleep(e + [a, b]) == TotalSleep(e) + b.seconds
  {
    assert (e + [a, b])[..|e| + 1] == e + [a];
    assert (e + [a])[..|e|] == e;
  }

  /** `_warn_then_wait` warns once per threshold, in the list's order. */
  lemma {:induction false} WarnThenWaitWarnsEach(description: string, ws: seq<int>, n: nat)
    requires n <= |ws|
    ensures WarnedMinutes(WarnThenWaitEffects(description, ws, n)) == ws[..n]
  {
    if n > 0 {
      WarnThenWaitWarnsEach(description, ws, n - 1);
      TalliesOfRound(WarnThenWaitEffects(description, ws, n - 1),
                     WarningSent(description, ws[n - 1]), Slept(WaitAfter(ws, n - 1)));
      assert ws[..n] == ws[..n - 1] + [ws[n - 1]];
    }
  }

  /** Before the last round, the sleeps telescope to the distance from the first
      threshold to the next one still to come. */
  lemma {:induction false} WarnThenWaitPartialSleep(description: string, ws: seq<int>, n: nat)
    requires 0 < n < |ws|
    ensures TotalSleep(WarnThenWaitEffects(description, ws, n)) == (ws[0] - ws[n]) * 60
  {
    TalliesOfRound(WarnThenWaitEffects(description, ws, n - 1),
                   WarningSent(description, ws[n - 1]), Slept(WaitAfter(ws, n - 1)));
    if n > 1 {
      WarnThenWaitPartialSleep(description, ws, n - 1);
    }
  }

  /** The whole warn-then-wait sequence sleeps exactly the first (largest)
      threshold's length, so the task runs when its first warning said it would. */
  lemma WarnThenWaitTotalSleep(description: string, ws: seq<int>)
    ensures TotalSleep(WarnThenWaitEffects(description, ws, |ws|)) == if ws == [] then 0 else ws[0] * 60
  {
    var n := |ws|;
    if n > 0 {
      TalliesOfRound(WarnThenWaitEffects(description, ws, n - 1),
                     WarningSent(description, ws[n - 1]), Slept(WaitAfter(ws, n - 1)));
      if n > 1 {
        WarnThenWaitPartialSleep(description, ws, n - 1);
      }
    }
  }

  /** With descending thresholds no sleep between two warnings is negative. */
  lemma WarnThenWaitGapsNonNegative(description: string, ws: seq<int>, i: nat)
    requires SortedDesc(ws)
    requires i < |ws| - 1
    ensures WarnThenWaitEffects(description, ws, |ws|)[2 * i + 1] == Slept(WaitAfter(ws, i))
    ensures WaitAfter(ws, i) >= 0
  {
    WarnThenWaitPrefix(description, ws, i + 1, |ws|);
  }

  /** A later round only appends to the effects of the earlier ones. */
  lemma {:induction false} WarnThenWaitPrefix(description: string, ws: seq<int>, m: nat, n: nat)
    requires 0 < m <= n <= |ws|
    ensures WarnThenWaitEffects(description, ws, n)[..2 * m] == WarnThenWaitEffects(description, ws, m)
    ensures WarnThenWaitEffects(description, ws, n)[2 * m - 1] == Slept(WaitAfter(ws, m - 1))
  {
    if m < n {
      WarnThenWaitPrefix(description, ws, m, n - 1);
      var prev := WarnThenWaitEffects(description, ws, n - 1);
      var round := [WarningSent(description, ws[n - 1]), Slept(WaitAfter(ws, n - 1))];
      assert (prev + round)[..2 * m] == prev[..2 * m];
    }
  }
}
