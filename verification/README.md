# Ergo Jr controllers: trajectory executor and motor command handlers

This project models the decision logic of the Poppy Ergo Jr ROS controller
(`src/controllers.py`) in Dafny and proves properties of it. The ROS and
hardware plumbing around that logic is left out.

- **Trajectory executor** (`execute`). The executor walks the waypoints of a
  trajectory in order and keeps the time elapsed since the start, which begins
  at 0. A waypoint due strictly before the elapsed time is skipped. Every other
  waypoint sends one `goto_position(dict(zip(joint_names, positions)),
  time_margin + duration)` and one `sleep(duration - 0.001)`, and the elapsed
  time becomes that waypoint's `time_from_start`. A node shutdown seen at the
  check before a waypoint ends the walk with "Trajectory ended!". A shutdown
  that interrupts a wait ends it with "Trajectory aborted!".
- **Motor handlers.** The arm is a sequence of six motors, each with a goal
  position, a moving speed and a compliance flag:
  - `reset_max_speed` sets every speed to 100.
  - `_cb_set_compliant` sets every compliance flag.
  - `_cb_reach` either teleports or hands the target to the SDK. A teleport
    builds `dict(zip(names, positions))` and writes goal positions, for
    whitelisted names only. The interpolated branch calls `goto_position` and
    then `reset_max_speed`.

Modules:

- `Targets` (`targets.dfy`): Python's `zip`, `dict` over pairs (the last pair
  for a key wins) and `list.index`, plus the `Command` values sent to the SDK
  and to the clock.
- `Motors` (`motors.dfy`): the arm and the three handlers.
- `Executor` (`executor.dfy`): the waypoint walk as a pure function. Its inputs
  are the trajectory, the time margin and the moment the shutdown arrives. Its
  output is the executed moves, the final elapsed time and how the walk
  finished.
- `Schedule` (`schedule.dfy`): a second description of the walk that uses no
  loop. Waypoint `k` runs exactly when it is due no earlier than time 0 and no
  earlier than every waypoint before it, and the shutdown has not been seen by
  then. The lemmas here prove that the executor agrees with it, and derive the
  timing properties from it.

Times are Dafny `real`s, and the 0.001 s offset is the named constant
`Executor.WakeEarly`. `time_margin` is a parameter. It is read from a
configuration file in the source.

The shutdown is a parameter `Signal`:
- `Never`: no shutdown.
- `BeforePoint(k)`: `rospy.is_shutdown()` is true from the check before
  waypoint `k` on.
- `DuringWait(k)`: the shutdown arrives just after that check. If waypoint `k`
  runs, its `rospy.sleep` raises `ROSInterruptException`. If waypoint `k` is
  skipped, the check before waypoint `k + 1` sees the shutdown.

Two behaviours of the code are worth pointing out. The model follows the
code in both:
- The reply of `_cb_reach` has no error field, yet a teleport raises
  `KeyError` when a whitelisted name appears in the request but has no paired
  position (there are more names than positions and the name is not among the
  paired ones). Goal writes made before that point stay in place.
  `Motors.ReachResult.KeyError` models this case.
- A shutdown seen at the check before a waypoint `break`s out of the loop, so
  the `else` branch logs "Trajectory ended!". Only an interrupted wait logs
  "Trajectory aborted!". `Executor.Finish` records which of the two happened.

## Model

| member | source | states |
|---|---|---|
| Targets.ZipPairsUp | src/controllers.py:154 | `zip` pairs the lists element by element and has the length of the shorter list |
| Targets.ToDictLastWins | src/controllers.py:114 | every key of the pairs is in the dict, and a repeated key keeps the value of its last pair |
| Targets.ToDictKeysFromPairs | src/controllers.py:114 | the dict has no key that is not the key of some pair |
| Targets.TargetLastPairWins | src/controllers.py:114 | in `dict(zip(names, positions))`, a name maps to the position paired with its last paired occurrence |
| Targets.TargetKeys | src/controllers.py:114 | a name is a key of `dict(zip(names, positions))` exactly when it occurs among the first `min(len(names), len(positions))` names |
| Targets.IndexOf | src/controllers.py:126-128 | `list.index` gives the first position of the element, or fails exactly when the element is absent |
| Motors.ResetMaxSpeed | src/controllers.py:41-44 | every motor's moving speed becomes 100; goal positions and compliance flags are unchanged |
| Motors.ResetMaxSpeedIdempotent | src/controllers.py:41-44 | resetting the speeds twice is the same as resetting them once |
| Motors.SetCompliant | src/controllers.py:163-168 | every motor's compliance flag becomes the requested flag; goals and speeds are unchanged |
| Motors.HandlersCommute | src/controllers.py:165-167 | setting compliance commutes with resetting speeds, and the last compliance request is the one that holds |
| Motors.WriteGoals | src/controllers.py:124-130 | the teleport loop never changes a motor's speed or compliance flag |
| Motors.WrittenStep | src/controllers.py:124-130 | one loop iteration that does not raise moves the first requested name into the arm: writing it first and then the rest gives the same arm as writing all names |
| Motors.WriteGoalsOkIff | src/controllers.py:124-130 | the teleport loop ends without `KeyError` exactly when every whitelisted requested name has a target value |
| Motors.WriteGoalsArmWhenOk | src/controllers.py:124-130 | a loop that ends normally sets the goal of each requested whitelisted motor to its target value and leaves every other motor as it was |
| Motors.WriteGoalsArmOnError | src/controllers.py:124-130 | a loop that raises `KeyError` raises it at the first whitelisted name without a target value, and the writes for the names before it stay |
| Motors.ErrorPrefix | src/controllers.py:124-130 | a failure found after the first requested name keeps the write made for that first name |
| Motors.TeleportOkIff | src/controllers.py:114-130 | a teleport succeeds exactly when every whitelisted requested name has a paired position, and always does when there are at least as many positions as names |
| Motors.TeleportSetsRequestedGoals | src/controllers.py:114-130 | a successful teleport changes goal positions only: the motor at a whitelisted name's index takes that name's last paired position, and unrequested motors are unchanged |
| Motors.TeleportExample | src/controllers.py:122-130 | teleporting `{"m1": 10}` with an unknown extra joint sets motor m1's goal to 10 and leaves the other motors unchanged |
| Motors.Reach | src/controllers.py:113-136 | duration <= 0 teleports and sends no `goto_position`; duration > 0 sends one `goto_position` of the whole target, and then every speed is 100 |
| Executor.Commands | src/controllers.py:154-156 | each executed waypoint sends exactly a `goto_position` to its zipped joint target, followed by its wait |
| Executor.Visit | src/controllers.py:147-156 | a waypoint is skipped exactly when it is due strictly before the elapsed time, so a duration of 0 runs; a move's duration is non-negative and brings the elapsed time to `time_from_start`; the goto lasts margin + duration and the wait duration - 0.001 |
| Executor.ExecuteFrom | src/controllers.py:143-157 | the elapsed time never decreases; executed waypoints are within the trajectory, come in input order and are never at or after a check that saw the shutdown |
| Executor.ChainedCons | src/controllers.py:147-157 | a move that starts at the walk's elapsed time, followed by moves chained from its due time, gives a chained walk |
| Executor.MovesFollowWaypoints | src/controllers.py:147-157 | each move lasts from the due time of the previous executed waypoint (or the start) to its own |
| Executor.GotoAddsMargin | src/controllers.py:154-155 | every `goto_position` of a walk lasts the time margin plus the move's duration |
| Executor.Execute | src/controllers.py:141-157 | the final elapsed time is at least the starting time 0 |
| Schedule.LatestBeforeBound | src/controllers.py:141-157 | the latest due time so far is at most `x` exactly when 0 and every earlier due time are at most `x` |
| Schedule.LatestStep | src/controllers.py:148-157 | a waypoint is on schedule exactly when it is not due before the latest time so far, and only such a waypoint advances that time |
| Schedule.ExecutedCons | src/controllers.py:143-157 | a waypoint is executed by a move list exactly when it is the first move's or one of the rest's |
| Schedule.ExecuteFromFollowsSchedule | src/controllers.py:143-157 | from any point of the walk, a waypoint runs if and only if it is on schedule and no shutdown was seen at its check |
| Schedule.ExecuteFromEnds | src/controllers.py:143-161 | the walk ends at the latest due time among the waypoints before the shutdown horizon (an interrupted wait does not count its waypoint's due time), and aborts exactly when the shutdown interrupts the wait of a waypoint that runs |
| Schedule.ExecuteFollowsSchedule | src/controllers.py:138-161 | from the start: waypoint `k` runs if and only if it is on schedule and not cut off by the shutdown; the final elapsed time and the ended/aborted outcome follow the reference schedule |
| Schedule.ExecutedTimesAscend | src/controllers.py:143-157 | the due times of the executed waypoints form a non-decreasing sequence, none below 0 |
| Schedule.ShutdownStopsWalk | src/controllers.py:143-145 | once the check before waypoint `k` sees the shutdown, no command comes from waypoint `k` or any later one |
| Schedule.Telescope | src/controllers.py:147-157 | durations that step from one due time to the next add up to the last due time |
| Schedule.EndedAtLastTime | src/controllers.py:147-161 | a walk that is not aborted ends with the elapsed time at the due time of its last executed waypoint |
| Schedule.DurationsTelescope | src/controllers.py:147-157 | the raw durations of the executed waypoints add up to the due time of the last one, which is the final elapsed time when the walk is not aborted |
| Schedule.SortedTrajectoryRunsEveryPoint | src/controllers.py:143-157 | with no shutdown, a trajectory whose due times never go back and start at or after 0 runs every waypoint in order, and ends at the last due time |
| Schedule.SortedFrom | src/controllers.py:143-157 | the same for the rest of a sorted trajectory with no shutdown, walked from a time no later than its next waypoint |
| Schedule.SuffixDeterminesRun | src/controllers.py:143-157 | with no shutdown, what the walk does from a point on (its moves, final time and outcome) depends only on the waypoints still ahead of it |
| Schedule.SameMovesSameCommands | src/controllers.py:154-156 | moves to equal waypoints with equal durations send equal commands |
| Schedule.SameMovesCons | src/controllers.py:143-157 | equal first moves followed by equal move lists give equal move lists |
| Schedule.SameStepSameEffect | src/controllers.py:154-157 | two walks that move to equal waypoints and continue alike make the same moves and end in the same state |
| Schedule.WithoutFrom | src/controllers.py:148-152 | with no shutdown, removing a skipped waypoint leaves the rest of the walk unchanged from any earlier point |
| Schedule.SkippedPointIsInvisible | src/controllers.py:148-152 | with no shutdown, a skipped waypoint leaves no trace: removing it changes neither the commands sent nor the final elapsed time |

## Left out

- ROS plumbing: the publishers, the services, `rospy.Rate`, the publishing loop
  in `run`, and the construction of messages (`publish_eef`, `publish_js`,
  `publish_goals`). These are transport and I/O.
- Configuration loading and the `exit(-1)` paths of `__init__` and `run`.
  These are file and parameter-server I/O. `time_margin` is a parameter of the
  executor.
- Threading: the thread started by `_cb_execute` and the `RLock`. Each handler
  and each trajectory run is modelled as one atomic step, which is what the
  lock provides between mutating handlers.
- The pypot SDK: `PoppyErgoJr`, `power_up`, `ergo.compliant`, kinematics,
  `close`, and the motion done by `goto_position`. A `goto_position` is
  recorded as a `Command`. Setting a motor's goal position is a plain field
  write, so any clamping or conversion the SDK does is not modelled.
- Motors.Reach: the arm state at the moment `goto_position` returns is the
  parameter `afterGoto`, because the SDK's interpolation is not modelled. That
  call starts a threaded control, so the motors may still be moving when
  `reset_max_speed` runs. Only the speed reset that follows the call is
  stated.
- Real sleeping and floating-point rounding. Times are exact reals. The model
  records the wait `duration - 0.001` as sent, even when it is negative; what
  `rospy.sleep` does with a negative duration is not part of this model.
- Logging: the log lines are not modelled. The only exception is the
  ended/aborted distinction, which `Executor.Finish` keeps.
- Schedule.SkippedPointIsInvisible: stated for a run with no shutdown only.
  With a shutdown, removing a waypoint shifts the waypoint index that the
  shutdown is measured against.
- Schedule.WithoutFrom: stated for a run with no shutdown only, for the same
  index-shift reason. With `BeforePoint(2)` and due times 5, 1, 6, the walk
  makes one move, but the walk without waypoint 1 makes two.
- Schedule.SuffixDeterminesRun: stated for a run with no shutdown only. The two
  walks start at different waypoint indices, so one shutdown index would cut
  them off at different points of their common suffix.
- Schedule.SortedTrajectoryRunsEveryPoint: stated for a run with no shutdown
  only, since a shutdown stops the walk before the last waypoint.
- Schedule.SortedFrom: stated for a run with no shutdown only, for the same
  reason.
