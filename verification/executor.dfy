/** The trajectory executor (`execute`): it walks the waypoints of a trajectory
    in order, keeping the time elapsed since the start. A waypoint due before
    that time is skipped; every other waypoint sends one `goto_position` and one
    wait, and moves the elapsed time to the waypoint's `time_from_start`. A
    shutdown of the node stops the walk.
 */
module Executor {
  import opened Targets

  /** Each wait is cut short by this many seconds, so that the executor wakes
      just before the next waypoint is due. */
  const WakeEarly: real := 0.001

  datatype Waypoint = Waypoint(positions: seq<real>, timeFromStart: real)

  /** A trajectory: one list of joint names shared by all waypoints. */
  datatype Trajectory = Trajectory(jointNames: seq<string>, points: seq<Waypoint>)

  /** When the node's shutdown arrives, relative to the walk.
      `BeforePoint(k)`: `is_shutdown()` is true from the check made before
      waypoint `k` on. `DuringWait(k)`: it arrives just after that check; if
      waypoint `k` is executed, its wait is interrupted; if it is skipped, the
      check before waypoint `k + 1` sees it. */
  datatype Signal = Never | BeforePoint(index: nat) | DuringWait(index: nat)

  /** The check made before waypoint `i` sees the shutdown. */
  predicate Raised(signal: Signal, i: nat)
  {
    match signal
    case Never => false
    case BeforePoint(k) => k <= i
    case DuringWait(k) => k < i
  }

  /** An executed waypoint: its position in the trajectory, the duration of
      the `goto_position` it sent, and the wait that followed. */
  datatype Move = Move(index: nat, gotoDuration: real, sleepDuration: real)

  /** The time the move was scheduled to take, without margin or offset. */
  function Duration(m: Move): real
  {
    m.sleepDuration + WakeEarly
  }

  /** `Ended`: the loop ran out of waypoints or saw the shutdown at a check
      ("Trajectory ended!"). `Aborted`: a wait was interrupted ("Trajectory
      aborted!"). */
  datatype Finish = Ended | Aborted

  datatype Run = Run(moves: seq<Move>, elapsed: real, finish: Finish)

  /** The two commands of one move: a `goto_position` to the joint targets of
      its waypoint, then the wait. */
  function Issued(t: Trajectory, m: Move): seq<Command>
    requires m.index < |t.points|
  {
    [Goto(Target(t.jointNames, t.points[m.index].positions), m.gotoDuration), Sleep(m.sleepDuration)]
  }

  /** The commands a sequence of moves sends, in order. */
  function Commands(t: Trajectory, moves: seq<Move>): (cs: seq<Command>)
    requires forall k :: 0 <= k < |moves| ==> moves[k].index < |t.points|
    ensures |cs| == 2 * |moves|
    ensures forall k :: 0 <= k < |moves| ==>
      && cs[2 * k] == Goto(Target(t.jointNames, t.points[moves[k].index].positions), moves[k].gotoDuration)
      && cs[2 * k + 1] == Sleep(moves[k].sleepDuration)
  {
    if |moves| == 0 then [] else Issued(t, moves[0]) + Commands(t, moves[1..])
  }

  /** The loop body for waypoint `i` once the shutdown check has passed: skip
      the waypoint, or move to it. */
  function Visit(t: Trajectory, margin: real, i: nat, elapsed: real): (m: Option<Move>)
    requires i < |t.points|
    ensures m.None? <==> t.points[i].timeFromStart < elapsed
    ensures m.Some? ==>
      && m.value.index == i
      && 0.0 <= Duration(m.value)
      && elapsed + Duration(m.value) == t.points[i].timeFromStart
      && m.value.gotoDuration == margin + Duration(m.value)
  {
    var point := t.points[i];
    var duration := point.timeFromStart - elapsed;
    if duration < 0.0 then None
    else Some(Move(i, margin + duration, duration - WakeEarly))
  }

  /** The loop of `execute` from waypoint `i` on, with `elapsed` seconds
      accounted for. */
  function ExecuteFrom(t: Trajectory, margin: real, signal: Signal, i: nat, elapsed: real): (r: Run)
    requires i <= |t.points|
    ensures elapsed <= r.elapsed
    ensures forall k :: 0 <= k < |r.moves| ==> i <= r.moves[k].index < |t.points| && !Raised(signal, r.moves[k].index)
    ensures forall a, b :: 0 <= a < b < |r.moves| ==> r.moves[a].index < r.moves[b].index
    decreases |t.points| - i
  {
    if i == |t.points| || Raised(signal, i) then Run([], elapsed, Ended)
    else match Visit(t, margin, i, elapsed)
      case None => ExecuteFrom(t, margin, signal, i + 1, elapsed)
      case Some(m) =>
        if signal == DuringWait(i) then Run([m], elapsed, Aborted)
        else
          var rest := ExecuteFrom(t, margin, signal, i + 1, t.points[i].timeFromStart);
          Run([m] + rest.moves, rest.elapsed, rest.finish)
  }

  /** Each move of a walk sends a `goto_position` that lasts the margin plus
      the move's duration. */
  lemma {:induction false} GotoAddsMargin(t: Trajectory, margin: real, signal: Signal, i: nat, elapsed: real)
    requires i <= |t.points|
    ensures forall k :: 0 <= k < |ExecuteFrom(t, margin, signal, i, elapsed).moves| ==>
      ExecuteFrom(t, margin, signal, i, elapsed).moves[k].gotoDuration
        == margin + Duration(ExecuteFrom(t, margin, signal, i, elapsed).moves[k])
    decreases |t.points| - i
  {
    if i < |t.points| && !Raised(signal, i) {
      match Visit(t, margin, i, elapsed)
      case None =>
        GotoAddsMargin(t, margin, signal, i + 1, elapsed);
      case Some(m) =>
        if signal != DuringWait(i) {
          var e' := t.points[i].timeFromStart;
          var rest := ExecuteFrom(t, margin, signal, i + 1, e').moves;
          GotoAddsMargin(t, margin, signal, i + 1, e');
          assert ExecuteFrom(t, margin, signal, i, elapsed).moves == [m] + rest;
        }
    }
  }

  /** The first move lasts from `start` to its due time, and each later move
      from the due time of the move before it to its own. */
  predicate Chained(t: Trajectory, moves: seq<Move>, start: real)
  {
    && (forall k :: 0 <= k < |moves| ==> moves[k].index < |t.points|)
    && (|moves| > 0 ==> Duration(moves[0]) == t.points[moves[0].index].timeFromStart - start)
    && (forall k :: 0 < k < |moves| ==>
          Duration(moves[k]) == t.points[moves[k].index].timeFromStart - t.points[moves[k - 1].index].timeFromStart)
  }

  lemma ChainedCons(t: Trajectory, m: Move, rest: seq<Move>, start: real)
    requires m.index < |t.points| && Duration(m) == t.points[m.index].timeFromStart - start
    requires Chained(t, rest, t.points[m.index].timeFromStart)
    ensures Chained(t, [m] + rest, start)
  {
    var s := [m] + rest;
    assert forall k :: 0 < k < |s| ==> s[k] == rest[k - 1];
  }

  /** Each move of a walk lasts from the due time of the move before it (or
      the starting time) to its own. */
  lemma {:induction false} MovesFollowWaypoints(t: Trajectory, margin: real, signal: Signal, i: nat, elapsed: real)
    requires i <= |t.points|
    ensures Chained(t, ExecuteFrom(t, margin, signal, i, elapsed).moves, elapsed)
    decreases |t.points| - i
  {
    if i < |t.points| && !Raised(signal, i) {
      match Visit(t, margin, i, elapsed)
      case None =>
        MovesFollowWaypoints(t, margin, signal, i + 1, elapsed);
      case Some(m) =>
        if signal != DuringWait(i) {
          var e' := t.points[i].timeFromStart;
          MovesFollowWaypoints(t, margin, signal, i + 1, e');
          ChainedCons(t, m, ExecuteFrom(t, margin, signal, i + 1, e').moves, elapsed);
        } else {
          ChainedCons(t, m, [], elapsed);
        }
    }
  }

  /** `execute`: the walk from the first waypoint, with the elapsed time
      starting at zero. Which waypoints run, the final elapsed time and the
      outcome are characterised by `Schedule.ExecuteFollowsSchedule`. */
  function Execute(t: Trajectory, margin: real, signal: Signal): (r: Run)
    ensures 0.0 <= r.elapsed
  {
    ExecuteFrom(t, margin, signal, 0, 0.0)
  }
}
