/**
 * The presence-debounce state machine of the `main` loop (app.py:161-179), as pure values:
 * the absence verdict of one scan, one cycle of the counter/flag update, and the fold of
 * cycles over a finite sequence of verdicts, with the run-level properties as lemmas.
 */
module Presence {

  /**
   * Number of configured triggers that occur in the scanned MAC list: the `sum` at app.py:166.
   * It is zero exactly when no trigger occurs.
   */
  function Hits(triggers: seq<string>, macs: seq<string>): (n: nat)
    ensures n <= |triggers|
    ensures n == 0 <==> forall i :: 0 <= i < |triggers| ==> triggers[i] !in macs
  {
    if triggers == [] then 0
    else
      assert forall i :: 1 <= i < |triggers| ==> triggers[i] == triggers[1..][i - 1];
      (if triggers[0] in macs then 1 else 0) + Hits(triggers[1..], macs)
  }

  /** The verdict of one scan (app.py:166): nobody is home exactly when no configured trigger occurs among the scanned addresses. */
  predicate Absent(triggers: seq<string>, macs: seq<string>): (b: bool)
    ensures b <==> forall i :: 0 <= i < |triggers| ==> triggers[i] !in macs
  {
    Hits(triggers, macs) == 0
  }

  /** The addresses that occur in a list, forgetting order and duplicates. */
  function Elements(s: seq<string>): set<string> {
    set x | x in s
  }

  /** The verdict depends only on which addresses occur: order and duplicates in either list do not matter. */
  lemma AbsentIgnoresOrderAndDuplicates(t1: seq<string>, m1: seq<string>, t2: seq<string>, m2: seq<string>)
    requires Elements(t1) == Elements(t2) && Elements(m1) == Elements(m2)
    ensures Absent(t1, m1) == Absent(t2, m2)
  {
    if Absent(t1, m1) != Absent(t2, m2) {
      if Absent(t1, m1) {
        var i :| 0 <= i < |t2| && t2[i] in m2;
        assert t2[i] in t1 && t2[i] in m1 by {
          assert t2[i] in Elements(t2) && t2[i] in Elements(m2);
        }
        assert false;
      } else {
        var i :| 0 <= i < |t1| && t1[i] in m1;
        assert t1[i] in t2 && t1[i] in m2 by {
          assert t1[i] in Elements(t1) && t1[i] in Elements(m1);
        }
        assert false;
      }
    }
  }

  /** The controller state of app.py:161-162: the consecutive-absence counter and the notified flag. */
  datatype Snapshot = Snapshot(absentCount: int, notified: bool)

  /** The state at process start (app.py:161-162). */
  const Initial := Snapshot(0, false)

  /** The state after one cycle and whether that cycle sent the notification. */
  datatype Transition = Transition(next: Snapshot, fired: bool)

  /**
   * One pass of the loop body (app.py:167-176): an absent cycle counts up; a present one
   * resets the counter and re-arms; then the notification fires when the counter exceeds
   * `retries` and nothing was sent yet.
   */
  function Cycle(s: Snapshot, absent: bool, retries: int): (t: Transition)
    ensures t.next.absentCount == if absent then s.absentCount + 1 else 0
    ensures t.fired <==> t.next.absentCount > retries && !(absent && s.notified)
    ensures t.next.notified <==> t.fired || (absent && s.notified)
  {
    var count := if absent then s.absentCount + 1 else 0;
    var armed := if absent then s.notified else false;
    var fire := count > retries && !armed;
    Transition(Snapshot(count, armed || fire), fire)
  }

  /** The invariant every cycle keeps: the counter is never negative and a sent notification means the threshold was passed. */
  predicate Inv(s: Snapshot, retries: int) {
    s.absentCount >= 0 && (s.notified ==> s.absentCount > retries)
  }

  lemma CyclePreservesInv(s: Snapshot, absent: bool, retries: int)
    requires Inv(s, retries)
    ensures Inv(Cycle(s, absent, retries).next, retries)
  {
  }

  /** The state after the cycles whose verdicts are `obs`, in order, starting from the initial state. */
  function Run(retries: int, obs: seq<bool>): (s: Snapshot)
    ensures Inv(s, retries)
    decreases |obs|
  {
    if obs == [] then Initial
    else
      var prev := Run(retries, obs[..|obs| - 1]);
      CyclePreservesInv(prev, obs[|obs| - 1], retries);
      Cycle(prev, obs[|obs| - 1], retries).next
  }

  /** Running one more cycle is one more `Cycle` on the state of the run so far. */
  lemma RunAppend(retries: int, obs: seq<bool>, absent: bool)
    ensures Run(retries, obs + [absent]) == Cycle(Run(retries, obs), absent, retries).next
  {
  }

  /** Whether the cycle with index `k` sent the notification. */
  predicate FiredAt(retries: int, obs: seq<bool>, k: nat)
    requires k < |obs|
  {
    Cycle(Run(retries, obs[..k]), obs[k], retries).fired
  }

  /** Number of notifications sent over the cycles `obs`. */
  function Notifications(retries: int, obs: seq<bool>): (n: nat)
    ensures n <= |obs|
    decreases |obs|
  {
    if obs == [] then 0
    else Notifications(retries, obs[..|obs| - 1]) + (if FiredAt(retries, obs, |obs| - 1) then 1 else 0)
  }

  /** Length of the maximal run of absent verdicts at the end of `obs`. */
  function TrailingAbsent(obs: seq<bool>): (t: nat)
    ensures t <= |obs|
    ensures forall i :: |obs| - t <= i < |obs| ==> obs[i]
    ensures t < |obs| ==> !obs[|obs| - 1 - t]
    decreases |obs|
  {
    if obs == [] || !obs[|obs| - 1] then 0
    else TrailingAbsent(obs[..|obs| - 1]) + 1
  }

  /** The counter always equals the length of the current absence streak. */
  lemma {:induction false} RunCountsTrailingAbsence(retries: int, obs: seq<bool>)
    ensures Run(retries, obs).absentCount == TrailingAbsent(obs)
    decreases |obs|
  {
    if obs != [] {
      RunCountsTrailingAbsence(retries, obs[..|obs| - 1]);
    }
  }

  /**
   * After at least one cycle (or from the start when `retries` is not negative) the flag is set
   * exactly when the current absence streak is longer than `retries`.
   */
  lemma {:induction false} RunNotifiedIff(retries: int, obs: seq<bool>)
    requires retries >= 0 || obs != []
    ensures Run(retries, obs).notified <==> TrailingAbsent(obs) > retries
    decreases |obs|
  {
    if obs != [] {
      var p := obs[..|obs| - 1];
      RunCountsTrailingAbsence(retries, p);
      if retries >= 0 || p != [] {
        RunNotifiedIff(retries, p);
      }
    }
  }

  /** With a non-negative threshold, a cycle notifies exactly when it is the (retries+1)-th absent cycle of its streak. */
  lemma FiresIff(retries: int, obs: seq<bool>, k: nat)
    requires retries >= 0 && k < |obs|
    ensures FiredAt(retries, obs, k) <==> obs[k] && TrailingAbsent(obs[..k + 1]) == retries + 1
  {
    var p := obs[..k];
    RunCountsTrailingAbsence(retries, p);
    RunNotifiedIff(retries, p);
    assert obs[..k + 1][..k] == p;
  }

  /** A cycle that sees a trigger never notifies when the threshold is not negative. */
  lemma PresenceNeverFires(retries: int, obs: seq<bool>, k: nat)
    requires retries >= 0 && k < |obs| && !obs[k]
    ensures !FiredAt(retries, obs, k)
  {
  }

  /**
   * With a negative threshold (the code does not reject one) the flag is always set after the
   * first cycle, so a cycle notifies exactly when it sees a trigger or is the very first one.
   */
  lemma NegativeRetriesFiring(retries: int, obs: seq<bool>, k: nat)
    requires retries < 0 && k < |obs|
    ensures FiredAt(retries, obs, k) <==> !obs[k] || k == 0
  {
    if k > 0 {
      RunNotifiedIff(retries, obs[..k]);
    }
  }

  /** Absent cycles in `obs[a..b]` extend the trailing streak one by one. */
  lemma {:induction false} TrailingGrows(obs: seq<bool>, a: nat, b: nat)
    requires a <= b <= |obs|
    requires forall k :: a <= k < b ==> obs[k]
    ensures TrailingAbsent(obs[..b]) == TrailingAbsent(obs[..a]) + (b - a)
    decreases b - a
  {
    if a < b {
      TrailingGrows(obs, a, b - 1);
      assert obs[..b][..b - 1] == obs[..b - 1];
    }
  }

  /**
   * The first notification of a streak: when the cycles `s .. s+retries` are absent and cycle
   * `s` starts the streak, the cycles before `s+retries` stay silent and cycle `s+retries`
   * notifies. With `retries == 0` that is the first absent cycle.
   */
  lemma FirstNotificationOfStreak(retries: int, obs: seq<bool>, s: nat)
    requires retries >= 0 && s + retries < |obs|
    requires s == 0 || !obs[s - 1]
    requires forall k :: s <= k <= s + retries ==> obs[k]
    ensures FiredAt(retries, obs, s + retries)
    ensures forall k :: s <= k < s + retries ==> !FiredAt(retries, obs, k)
  {
    StreakStart(retries, obs, s, s + retries);
    forall k | s <= k < s + retries
      ensures !FiredAt(retries, obs, k)
    {
      StreakStart(retries, obs, s, k);
    }
  }

  /** Cycle `k` of a streak that started at `s` notifies exactly when it is the `(retries + 1)`-th. */
  lemma StreakStart(retries: int, obs: seq<bool>, s: nat, k: nat)
    requires retries >= 0 && s <= k < |obs|
    requires s == 0 || !obs[s - 1]
    requires forall i :: s <= i <= k ==> obs[i]
    ensures FiredAt(retries, obs, k) <==> k == s + retries
  {
    assert TrailingAbsent(obs[..s]) == 0 by {
      if s > 0 {
        assert obs[..s][s - 1] == obs[s - 1];
      }
    }
    TrailingGrows(obs, s, k + 1);
    FiresIff(retries, obs, k);
  }

  /** Two notifications always have a cycle that saw a trigger between them: at most one per streak. */
  lemma NoRefireWithoutPresence(retries: int, obs: seq<bool>, i: nat, j: nat)
    requires retries >= 0 && i < j < |obs|
    requires FiredAt(retries, obs, i) && FiredAt(retries, obs, j)
    ensures exists k :: i < k < j && !obs[k]
  {
    FiresIff(retries, obs, i);
    FiresIff(retries, obs, j);
    // The streak that fires at `j` started right after cycle `m`, which saw a trigger.
    var m := j - (retries + 1);
    assert obs[..j + 1][m] == obs[m];
    assert i < m < j && !obs[m];
  }

  /**
   * Independent count of the notifications a run deserves: the number of maximal absence
   * streaks in `obs` that are longer than `retries`.
   */
  function LongStreaks(retries: int, obs: seq<bool>): nat
    decreases |obs|
  {
    if obs == [] then 0
    else if !obs[|obs| - 1] then LongStreaks(retries, obs[..|obs| - 1])
    else
      var t := TrailingAbsent(obs);
      LongStreaks(retries, obs[..|obs| - t]) + (if t > retries then 1 else 0)
  }

  /** Inside the trailing streak of `obs`, the prefix ending `j` cycles into the streak has a streak of length `j`. */
  lemma {:induction false} TrailingOfStreakPrefix(obs: seq<bool>, j: nat)
    requires j <= TrailingAbsent(obs)
    ensures TrailingAbsent(obs[..|obs| - TrailingAbsent(obs) + j]) == j
  {
    var t := TrailingAbsent(obs);
    var s := |obs| - t;
    assert TrailingAbsent(obs[..s]) == 0 by {
      if s > 0 {
        assert obs[..s][s - 1] == obs[s - 1];
      }
    }
    TrailingGrows(obs, s, s + j);
  }

  /** The cycle `j` steps into the trailing streak of `obs` notifies exactly when `j == retries + 1`. */
  lemma StreakCycleFires(retries: int, obs: seq<bool>, j: nat)
    requires retries >= 0 && 0 < j <= TrailingAbsent(obs)
    ensures var q := obs[..|obs| - TrailingAbsent(obs) + j];
      FiredAt(retries, q, |q| - 1) <==> j == retries + 1
  {
    var s := |obs| - TrailingAbsent(obs);
    var q := obs[..s + j];
    assert q[|q| - 1] == obs[s + j - 1];
    assert q[..|q|] == q;
    TrailingOfStreakPrefix(obs, j);
    FiresIff(retries, q, |q| - 1);
  }

  /** The notifications sent during the trailing streak of `obs`: one when it reached `retries + 1` cycles, else none. */
  lemma {:induction false} StreakNotifications(retries: int, obs: seq<bool>, j: nat)
    requires retries >= 0 && j <= TrailingAbsent(obs)
    ensures var s := |obs| - TrailingAbsent(obs);
      Notifications(retries, obs[..s + j]) == Notifications(retries, obs[..s]) + (if j > retries then 1 else 0)
  {
    var s := |obs| - TrailingAbsent(obs);
    if j > 0 {
      StreakNotifications(retries, obs, j - 1);
      var q := obs[..s + j];
      assert q[..|q| - 1] == obs[..s + j - 1];
      StreakCycleFires(retries, obs, j);
    }
  }

  /** The run sends exactly one notification per maximal absence streak longer than `retries`. */
  lemma {:induction false} NotificationsCountLongStreaks(retries: int, obs: seq<bool>)
    requires retries >= 0
    ensures Notifications(retries, obs) == LongStreaks(retries, obs)
    decreases |obs|
  {
    if obs != [] {
      if !obs[|obs| - 1] {
        NotificationsCountLongStreaks(retries, obs[..|obs| - 1]);
        PresenceNeverFires(retries, obs, |obs| - 1);
      } else {
        var t := TrailingAbsent(obs);
        NotificationsCountLongStreaks(retries, obs[..|obs| - t]);
        StreakNotifications(retries, obs, t);
        assert obs[..|obs| - t + t] == obs;
      }
    }
  }

  /** `n` consecutive absent verdicts. */
  function AbsentFor(n: nat): (obs: seq<bool>)
    ensures |obs| == n && forall i :: 0 <= i < n ==> obs[i]
  {
    seq(n, _ => true)
  }

  /** A streak of `n` absent cycles after a present one (or after the start) is a trailing streak of length `n`. */
  lemma TrailingAfterPresence(p: seq<bool>, n: nat)
    requires p == [] || !p[|p| - 1]
    ensures TrailingAbsent(p + AbsentFor(n)) == n
  {
    var obs := p + AbsentFor(n);
    assert forall i :: |p| <= i < |obs| ==> obs[i];
    assert p != [] ==> !obs[|p| - 1];
  }

  /** A streak of `n > 0` absent cycles after a present one adds one long streak exactly when `n > retries`. */
  lemma LongStreaksAfterPresence(retries: int, p: seq<bool>, n: nat)
    requires p == [] || !p[|p| - 1]
    requires n > 0
    ensures LongStreaks(retries, p + AbsentFor(n)) == LongStreaks(retries, p) + (if n > retries then 1 else 0)
  {
    var obs := p + AbsentFor(n);
    TrailingAfterPresence(p, n);
    assert obs[..|obs| - n] == p;
  }

  /**
   * Two absence episodes of `retries + 1` cycles separated by one present cycle produce
   * exactly two notifications.
   */
  lemma TwoEpisodesTwoNotifications(retries: int)
    requires retries >= 0
    ensures Notifications(retries, AbsentFor(retries + 1) + [false] + AbsentFor(retries + 1)) == 2
  {
    var a := AbsentFor(retries + 1);
    var p := a + [false];
    NotificationsCountLongStreaks(retries, p + a);
    LongStreaksAfterPresence(retries, p, retries + 1);
    assert p[..|p| - 1] == a;
    assert LongStreaks(retries, p) == LongStreaks(retries, a);
    LongStreaksAfterPresence(retries, [], retries + 1);
    assert [] + a == a;
  }

  /**
   * A worked run with `retries == 2` and verdicts absent, absent, absent, present, absent:
   * the counter goes 1, 2, 3, 0, 1; only the third cycle notifies; the fourth clears the flag.
   */
  lemma FiveCycleScenario()
    ensures var obs := [true, true, true, false, true];
      && Run(2, obs[..1]).absentCount == 1 && Run(2, obs[..2]).absentCount == 2
      && Run(2, obs[..3]).absentCount == 3 && Run(2, obs[..4]).absentCount == 0
      && Run(2, obs).absentCount == 1
      && FiredAt(2, obs, 2) && !FiredAt(2, obs, 0) && !FiredAt(2, obs, 1)
      && !FiredAt(2, obs, 3) && !FiredAt(2, obs, 4)
      && Run(2, obs[..3]).notified && !Run(2, obs[..4]).notified
      && Notifications(2, obs) == 1
  {
    var obs := [true, true, true, false, true];
    assert obs[..1][..0] == [] && obs[..2][..1] == obs[..1] && obs[..3][..2] == obs[..2];
    assert obs[..4][..3] == obs[..3] && obs[..4] == obs[..|obs| - 1];
  }
}
