/** A reference description of which waypoints `execute` runs, stated without
    the loop: a waypoint runs when no earlier waypoint and not the start is
    later than it, and the walk has not been stopped by then. The lemmas here
    connect the executor to it, and derive from it the properties the
    executor promises: monotone elapsed time, skipping, telescoping
    durations, stopping on shutdown.
 */
module Schedule {
  import opened Targets
  import opened Executor

  function Max(a: real, b: real): real
  {
    if a < b then b else a
  }

  /** The latest `time_from_start` among the first `n` waypoints, or 0 when
      none is later than the start. */
  function LatestBefore(points: seq<Waypoint>, n: nat): real
    requires n <= |points|
  {
    if n == 0 then 0.0 else Max(LatestBefore(points, n - 1), points[n - 1].timeFromStart)
  }

  /** Waypoint `k` is due no earlier than the start and than every waypoint
      before it. */
  predicate OnSchedule(points: seq<Waypoint>, k: nat)
    requires k < |points|
  {
    && 0.0 <= points[k].timeFromStart
    && forall j :: 0 <= j < k ==> points[j].timeFromStart <= points[k].timeFromStart
  }

  /** The number of leading waypoints the walk may complete before the
      shutdown stops it: waypoints at or after the horizon are either never
      reached or, for an interrupted wait, reached without their due time
      counting. */
  function Horizon(signal: Signal, n: nat): (h: nat)
    ensures h <= n
    ensures forall i :: 0 <= i < h ==> !Raised(signal, i)
  {
    match signal
    case Never => n
    case BeforePoint(b) => if b < n then b else n
    case DuringWait(w) => if w < n then w else n
  }

  /** Some move of the run comes from waypoint `k`. */
  predicate Executed(moves: seq<Move>, k: nat)
  {
    exists j :: 0 <= j < |moves| && moves[j].index == k
  }

  lemma {:induction false} LatestBeforeBound(points: seq<Waypoint>, n: nat, x: real)
    requires n <= |points|
    ensures LatestBefore(points, n) <= x <==>
      0.0 <= x && forall j :: 0 <= j < n ==> points[j].timeFromStart <= x
  {
    if n > 0 {
      LatestBeforeBound(points, n - 1, x);
    }
  }

  /** The latest time so far moves on exactly at the waypoints on schedule. */
  lemma LatestStep(points: seq<Waypoint>, k: nat)
    requires k < |points|
    ensures OnSchedule(points, k) <==> LatestBefore(points, k) <= points[k].timeFromStart
    ensures LatestBefore(points, k + 1) ==
      if OnSchedule(points, k) then points[k].timeFromStart else LatestBefore(points, k)
  {
    LatestBeforeBound(points, k, points[k].timeFromStart);
  }

  lemma ExecutedCons(m: Move, rest: seq<Move>, k: nat)
    ensures Executed([m] + rest, k) <==> m.index == k || Executed(rest, k)
  {
    var s := [m] + rest;
    if Executed(s, k) && m.index != k {
      var j :| 0 <= j < |s| && s[j].index == k;
      assert rest[j - 1].index == k;
    }
    if Executed(rest, k) {
      var j :| 0 <= j < |rest| && rest[j].index == k;
      assert s[j + 1].index == k;
    }
    if m.index == k {
      assert s[0].index == k;
    }
  }

  /** Walked from the latest time of the waypoints before it, the executor
      runs exactly the waypoints that are on schedule and not cut off by the
      shutdown. */
  lemma {:induction false} ExecuteFromFollowsSchedule(t: Trajectory, margin: real, signal: Signal, i: nat, e: real)
    requires i <= |t.points|
    requires e == LatestBefore(t.points, i)
    ensures forall k :: i <= k < |t.points| ==>
      (Executed(ExecuteFrom(t, margin, signal, i, e).moves, k) <==> !Raised(signal, k) && OnSchedule(t.points, k))
    decreases |t.points| - i
  {
    var r := ExecuteFrom(t, margin, signal, i, e);
    if i < |t.points| && !Raised(signal, i) {
      LatestStep(t.points, i);
      match Visit(t, margin, i, e)
      case None =>
        ExecuteFromFollowsSchedule(t, margin, signal, i + 1, e);
      case Some(m) =>
        if signal != DuringWait(i) {
          var rest := ExecuteFrom(t, margin, signal, i + 1, t.points[i].timeFromStart);
          ExecuteFromFollowsSchedule(t, margin, signal, i + 1, t.points[i].timeFromStart);
          assert r.moves == [m] + rest.moves;
          forall k | i <= k < |t.points|
            ensures Executed(r.moves, k) <==> m.index == k || Executed(rest.moves, k)
          {
            ExecutedCons(m, rest.moves, k);
          }
        } else {
          assert r.moves == [m] + [];
          forall k | i <= k < |t.points|
            ensures Executed(r.moves, k) <==> m.index == k
          {
            ExecutedCons(m, [], k);
          }
        }
    }
  }

  /** The elapsed time the walk ends with is the latest due time among the
      waypoints before the horizon (a waypoint whose wait is interrupted is
      reached, but its due time is not counted), and the walk aborts exactly
      when the shutdown interrupts the wait of a waypoint that runs. */
  lemma {:induction false} ExecuteFromEnds(t: Trajectory, margin: real, signal: Signal, i: nat, e: real)
    requires i <= Horizon(signal, |t.points|)
    requires e == LatestBefore(t.points, i)
    ensures ExecuteFrom(t, margin, signal, i, e).elapsed == LatestBefore(t.points, Horizon(signal, |t.points|))
    ensures ExecuteFrom(t, margin, signal, i, e).finish == Aborted <==>
      signal.DuringWait? && signal.index < |t.points| && OnSchedule(t.points, signal.index)
    decreases |t.points| - i
  {
    var n := |t.points|;
    if i < n && !Raised(signal, i) {
      LatestStep(t.points, i);
      match Visit(t, margin, i, e)
      case None =>
        if signal == DuringWait(i) {
          assert Raised(signal, i + 1);
        } else {
          ExecuteFromEnds(t, margin, signal, i + 1, e);
        }
      case Some(m) =>
        if signal != DuringWait(i) {
          ExecuteFromEnds(t, margin, signal, i + 1, t.points[i].timeFromStart);
        }
    }
  }

  /** Waypoint `k` runs if and only if it is on schedule and the shutdown has
      not been seen at the check before it; the run ends at the latest due
      time among the waypoints before the horizon, so an interrupted wait does
      not count its waypoint's due time; it aborts exactly when the shutdown
      interrupts a wait. */
  lemma ExecuteFollowsSchedule(t: Trajectory, margin: real, signal: Signal)
    ensures forall k :: 0 <= k < |t.points| ==>
      (Executed(Execute(t, margin, signal).moves, k) <==> !Raised(signal, k) && OnSchedule(t.points, k))
    ensures Execute(t, margin, signal).elapsed == LatestBefore(t.points, Horizon(signal, |t.points|))
    ensures Execute(t, margin, signal).finish == Aborted <==>
      signal.DuringWait? && signal.index < |t.points| && OnSchedule(t.points, signal.index)
  {
    ExecuteFromFollowsSchedule(t, margin, signal, 0, 0.0);
    ExecuteFromEnds(t, margin, signal, 0, 0.0);
  }

  /** The executed waypoints, taken in the order they run, are due at
      non-decreasing times, none before the start. */
  lemma ExecutedTimesAscend(t: Trajectory, margin: real, signal: Signal)
    ensures forall a, b :: 0 <= a < b < |Execute(t, margin, signal).moves| ==>
      t.points[Execute(t, margin, signal).moves[a].index].timeFromStart
        <= t.points[Execute(t, margin, signal).moves[b].index].timeFromStart
    ensures forall a :: 0 <= a < |Execute(t, margin, signal).moves| ==>
      0.0 <= t.points[Execute(t, margin, signal).moves[a].index].timeFromStart
  {
    var moves := Execute(t, margin, signal).moves;
    ExecuteFollowsSchedule(t, margin, signal);
    forall b | 0 <= b < |moves|
      ensures OnSchedule(t.points, moves[b].index)
    {
      assert Executed(moves, moves[b].index);
    }
  }

  /** Once the check before waypoint `k` sees the shutdown, no command comes
      from waypoint `k` or any later one. */
  lemma ShutdownStopsWalk(t: Trajectory, margin: real, signal: Signal, k: nat)
    requires Raised(signal, k)
    ensures forall j :: 0 <= j < |Execute(t, margin, signal).moves| ==> Execute(t, margin, signal).moves[j].index < k
  {
  }

  /** The sum of the scheduled durations of a sequence of moves. */
  function TotalDuration(moves: seq<Move>): real
  {
    if |moves| == 0 then 0.0 else Duration(moves[0]) + TotalDuration(moves[1..])
  }

  /** The `time_from_start` of the last move, or `e` when there is none. */
  function LastTime(t: Trajectory, moves: seq<Move>, e: real): real
    requires forall k :: 0 <= k < |moves| ==> moves[k].index < |t.points|
  {
    if |moves| == 0 then e else t.points[moves[|moves| - 1].index].timeFromStart
  }

  /** Durations that step from one due time to the next add up to the last
      due time. */
  lemma {:induction false} Telescope(t: Trajectory, moves: seq<Move>, e: real)
    requires Chained(t, moves, e)
    ensures e + TotalDuration(moves) == LastTime(t, moves, e)
    decreases |moves|
  {
    if |moves| > 0 {
      var rest := moves[1..];
      assert forall k :: 0 <= k < |rest| ==> rest[k] == moves[k + 1];
      Telescope(t, rest, t.points[moves[0].index].timeFromStart);
    }
  }

  /** The durations of the executed waypoints add up to the due time of the
      last one; when the walk ends normally that is the final elapsed time. */
  lemma {:induction false} DurationsTelescope(t: Trajectory, margin: real, signal: Signal)
    ensures TotalDuration(Execute(t, margin, signal).moves) == LastTime(t, Execute(t, margin, signal).moves, 0.0)
    ensures Execute(t, margin, signal).finish == Ended ==>
      Execute(t, margin, signal).elapsed == TotalDuration(Execute(t, margin, signal).moves)
  {
    var r := Execute(t, margin, signal);
    MovesFollowWaypoints(t, margin, signal, 0, 0.0);
    Telescope(t, r.moves, 0.0);
    EndedAtLastTime(t, margin, signal, 0, 0.0);
  }

  /** A walk that ends normally leaves the elapsed time at the due time of the
      last executed waypoint. */
  lemma {:induction false} EndedAtLastTime(t: Trajectory, margin: real, signal: Signal, i: nat, e: real)
    requires i <= |t.points|
    ensures ExecuteFrom(t, margin, signal, i, e).finish == Ended ==>
      ExecuteFrom(t, margin, signal, i, e).elapsed == LastTime(t, ExecuteFrom(t, margin, signal, i, e).moves, e)
    decreases |t.points| - i
  {
    if i < |t.points| && !Raised(signal, i) {
      match Visit(t, margin, i, e)
      case None =>
        EndedAtLastTime(t, margin, signal, i + 1, e);
      case Some(m) =>
        if signal != DuringWait(i) {
          var rest := ExecuteFrom(t, margin, signal, i + 1, t.points[i].timeFromStart);
          EndedAtLastTime(t, margin, signal, i + 1, t.points[i].timeFromStart);
          assert ExecuteFrom(t, margin, signal, i, e).moves == [m] + rest.moves;
        }
    }
  }

  /** A trajectory whose times never go back and start no earlier than zero
      runs every waypoint, in order, and ends at the last due time; each
      move's `goto_position` lasts the margin plus the gap to the previous
      waypoint. */
  lemma SortedTrajectoryRunsEveryPoint(t: Trajectory, margin: real)
    requires forall a, b :: 0 <= a <= b < |t.points| ==> t.points[a].timeFromStart <= t.points[b].timeFromStart
    requires |t.points| > 0 ==> 0.0 <= t.points[0].timeFromStart
    ensures |Execute(t, margin, Never).moves| == |t.points|
    ensures forall k :: 0 <= k < |t.points| ==> Execute(t, margin, Never).moves[k].index == k
    ensures Execute(t, margin, Never).finish == Ended
    ensures Execute(t, margin, Never).elapsed == if |t.points| == 0 then 0.0 else t.points[|t.points| - 1].timeFromStart
  {
    SortedFrom(t, margin, 0, 0.0);
  }

  lemma {:induction false} SortedFrom(t: Trajectory, margin: real, i: nat, e: real)
    requires i <= |t.points|
    requires forall a, b :: 0 <= a <= b < |t.points| ==> t.points[a].timeFromStart <= t.points[b].timeFromStart
    requires i < |t.points| ==> e <= t.points[i].timeFromStart
    ensures |ExecuteFrom(t, margin, Never, i, e).moves| == |t.points| - i
    ensures forall k :: 0 <= k < |t.points| - i ==> ExecuteFrom(t, margin, Never, i, e).moves[k].index == i + k
    ensures ExecuteFrom(t, margin, Never, i, e).finish == Ended
    ensures ExecuteFrom(t, margin, Never, i, e).elapsed == if i == |t.points| then e else t.points[|t.points| - 1].timeFromStart
    decreases |t.points| - i
  {
    if i < |t.points| {
      SortedFrom(t, margin, i + 1, t.points[i].timeFromStart);
    }
  }

  /** Two move lists go to equal waypoints with equal durations, one by one. */
  predicate SameMoves(t: Trajectory, ms1: seq<Move>, u: Trajectory, ms2: seq<Move>)
  {
    && |ms1| == |ms2|
    && forall k :: 0 <= k < |ms1| ==>
      && ms1[k].index < |t.points| && ms2[k].index < |u.points|
      && t.points[ms1[k].index] == u.points[ms2[k].index]
      && ms1[k].gotoDuration == ms2[k].gotoDuration
      && ms1[k].sleepDuration == ms2[k].sleepDuration
  }

  /** Two runs, over trajectories `t` and `u`, make the same moves and end in
      the same state. */
  predicate SameEffect(t: Trajectory, r1: Run, u: Trajectory, r2: Run)
  {
    SameMoves(t, r1.moves, u, r2.moves) && r1.elapsed == r2.elapsed && r1.finish == r2.finish
  }

  /** Moves to equal waypoints with equal durations send equal commands. */
  lemma {:induction false} SameMovesSameCommands(t: Trajectory, ms1: seq<Move>, u: Trajectory, ms2: seq<Move>)
    requires t.jointNames == u.jointNames
    requires SameMoves(t, ms1, u, ms2)
    ensures Commands(t, ms1) == Commands(u, ms2)
    decreases |ms1|
  {
    if |ms1| > 0 {
      assert forall k :: 0 <= k < |ms1| - 1 ==> ms1[1..][k] == ms1[k + 1] && ms2[1..][k] == ms2[k + 1];
      SameMovesSameCommands(t, ms1[1..], u, ms2[1..]);
    }
  }

  /** The trajectory with waypoint `k` removed. */
  function Without(t: Trajectory, k: nat): (u: Trajectory)
    requires k < |t.points|
    ensures u.jointNames == t.jointNames && |u.points| == |t.points| - 1
  {
    Trajectory(t.jointNames, t.points[..k] + t.points[k + 1..])
  }

  /** The walk depends only on the waypoints still ahead of it. */
  lemma {:induction false} SuffixDeterminesRun(t: Trajectory, u: Trajectory, margin: real, i: nat, i': nat, e: real)
    requires i <= |t.points| && i' <= |u.points|
    requires t.points[i..] == u.points[i'..]
    ensures SameEffect(t, ExecuteFrom(t, margin, Never, i, e), u, ExecuteFrom(u, margin, Never, i', e))
    decreases |t.points| - i
  {
    if i < |t.points| {
      assert t.points[i] == t.points[i..][0];
      assert u.points[i'] == u.points[i'..][0];
      assert t.points[i + 1..] == t.points[i..][1..];
      assert u.points[i' + 1..] == u.points[i'..][1..];
      if t.points[i].timeFromStart < e {
        SuffixDeterminesRun(t, u, margin, i + 1, i' + 1, e);
      } else {
        SuffixDeterminesRun(t, u, margin, i + 1, i' + 1, t.points[i].timeFromStart);
        SameStepSameEffect(t, u, margin, Never, i, i', e);
      }
    }
  }

  /** Two walks that move to the same waypoint and then continue alike have
      the same effect. */
  lemma SameStepSameEffect(t: Trajectory, u: Trajectory, margin: real, signal: Signal, i: nat, i': nat, e: real)
    requires i < |t.points| && i' < |u.points|
    requires t.points[i] == u.points[i']
    requires !Raised(signal, i) && !Raised(signal, i') && signal != DuringWait(i) && signal != DuringWait(i')
    requires e <= t.points[i].timeFromStart
    requires SameEffect(t, ExecuteFrom(t, margin, signal, i + 1, t.points[i].timeFromStart),
                        u, ExecuteFrom(u, margin, signal, i' + 1, t.points[i].timeFromStart))
    ensures SameEffect(t, ExecuteFrom(t, margin, signal, i, e), u, ExecuteFrom(u, margin, signal, i', e))
  {
    var e' := t.points[i].timeFromStart;
    var rest1 := ExecuteFrom(t, margin, signal, i + 1, e').moves;
    var rest2 := ExecuteFrom(u, margin, signal, i' + 1, e').moves;
    SameMovesCons(t, Visit(t, margin, i, e).value, rest1, u, Visit(u, margin, i', e).value, rest2);
  }

  lemma SameMovesCons(t: Trajectory, m1: Move, ms1: seq<Move>, u: Trajectory, m2: Move, ms2: seq<Move>)
    requires m1.index < |t.points| && m2.index < |u.points| && t.points[m1.index] == u.points[m2.index]
    requires m1.gotoDuration == m2.gotoDuration && m1.sleepDuration == m2.sleepDuration
    requires SameMoves(t, ms1, u, ms2)
    ensures SameMoves(t, [m1] + ms1, u, [m2] + ms2)
  {
    var s1 := [m1] + ms1;
    var s2 := [m2] + ms2;
    assert forall k :: 0 < k < |s1| ==> s1[k] == ms1[k - 1] && s2[k] == ms2[k - 1];
  }

  lemma {:induction false} WithoutFrom(t: Trajectory, margin: real, k: nat, i: nat, e: real)
    requires k < |t.points| && !OnSchedule(t.points, k)
    requires i <= k && e == LatestBefore(t.points, i)
    ensures SameEffect(t, ExecuteFrom(t, margin, Never, i, e), Without(t, k), ExecuteFrom(Without(t, k), margin, Never, i, e))
    decreases k - i
  {
    var u := Without(t, k);
    LatestStep(t.points, i);
    if i == k {
      assert u.points[k..] == t.points[k + 1..];
      SuffixDeterminesRun(t, u, margin, k + 1, k, e);
    } else {
      assert u.points[i] == t.points[i];
      if t.points[i].timeFromStart < e {
        WithoutFrom(t, margin, k, i + 1, e);
      } else {
        WithoutFrom(t, margin, k, i + 1, t.points[i].timeFromStart);
        SameStepSameEffect(t, u, margin, Never, i, i, e);
      }
    }
  }

  /** Skipping leaves no trace: removing a waypoint that is off schedule
      changes neither the commands sent nor the final elapsed time. */
  lemma SkippedPointIsInvisible(t: Trajectory, margin: real, k: nat)
    requires k < |t.points| && !OnSchedule(t.points, k)
    ensures Commands(t, Execute(t, margin, Never).moves) == Commands(Without(t, k), Execute(Without(t, k), margin, Never).moves)
    ensures Execute(t, margin, Never).elapsed == Execute(Without(t, k), margin, Never).elapsed
    ensures Execute(t, margin, Never).finish == Execute(Without(t, k), margin, Never).finish
  {
    WithoutFrom(t, margin, k, 0, 0.0);
    SameMovesSameCommands(t, Execute(t, margin, Never).moves, Without(t, k), Execute(Without(t, k), margin, Never).moves);
  }
}
