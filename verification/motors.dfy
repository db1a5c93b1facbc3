/** The six motors of the Ergo Jr arm as the command handlers see them, and the
    handlers that write to them: `reset_max_speed`, `_cb_set_compliant` and
    `_cb_reach`. Each handler is one atomic step on an immutable arm value.
 */
module Motors {
  import opened Targets

  /** The whitelist of motor names used by the teleport branch; the motor at
      index `j` of the arm is the one named `MotorNames[j]`. */
  const MotorNames: seq<string> := ["m1", "m2", "m3", "m4", "m5", "m6"]

  /** The moving speed restored after an interpolated move (100%). */
  const DefaultSpeed: real := 100.0

  datatype Motor = Motor(goalPosition: real, movingSpeed: real, compliant: bool)

  type Arm = s: seq<Motor> | |s| == 6
    witness [Motor(0.0, DefaultSpeed, false), Motor(0.0, DefaultSpeed, false), Motor(0.0, DefaultSpeed, false),
             Motor(0.0, DefaultSpeed, false), Motor(0.0, DefaultSpeed, false), Motor(0.0, DefaultSpeed, false)]

  /** `reset_max_speed`: every motor's moving speed back to 100%. */
  function ResetMaxSpeed(arm: Arm): (r: Arm)
    ensures forall j :: 0 <= j < |r| ==>
      && r[j].movingSpeed == DefaultSpeed
      && r[j].goalPosition == arm[j].goalPosition
      && r[j].compliant == arm[j].compliant
  {
    seq(|arm|, j requires 0 <= j < |arm| => arm[j].(movingSpeed := DefaultSpeed))
  }

  /** `_cb_set_compliant`: every motor's compliance flag set to `flag`. */
  function SetCompliant(arm: Arm, flag: bool): (r: Arm)
    ensures forall j :: 0 <= j < |r| ==>
      && r[j].compliant == flag
      && r[j].goalPosition == arm[j].goalPosition
      && r[j].movingSpeed == arm[j].movingSpeed
  {
    seq(|arm|, j requires 0 <= j < |arm| => arm[j].(compliant := flag))
  }

  /** Resetting the speed twice is the same as resetting it once. */
  lemma ResetMaxSpeedIdempotent(arm: Arm)
    ensures ResetMaxSpeed(ResetMaxSpeed(arm)) == ResetMaxSpeed(arm)
  {
  }

  /** Compliance and speed are independent fields: the two handlers commute,
      and the last compliance request is the one that holds. */
  lemma HandlersCommute(arm: Arm, a: bool, b: bool)
    ensures SetCompliant(ResetMaxSpeed(arm), a) == ResetMaxSpeed(SetCompliant(arm, a))
    ensures SetCompliant(SetCompliant(arm, a), b) == SetCompliant(arm, b)
  {
  }

  /** What a teleport ending normally leaves: the motor named `MotorNames[j]`
      holds the target value for its name when that name was requested and
      has a target, and is untouched otherwise. */
  function Written(arm: Arm, target: map<string, real>, names: seq<string>): (r: Arm)
  {
    seq(6, j requires 0 <= j < 6 =>
      if MotorNames[j] in names && MotorNames[j] in target
      then arm[j].(goalPosition := target[MotorNames[j]])
      else arm[j])
  }

  /** Every requested name that is whitelisted has a target value, so the
      teleport loop never looks up a missing key. */
  predicate Covered(target: map<string, real>, names: seq<string>)
  {
    forall k :: 0 <= k < |names| && names[k] in MotorNames ==> names[k] in target
  }

  /** The outcome of the teleport loop: the arm after it, and, when the loop
      stopped on a `KeyError`, the name whose lookup failed. Writes made
      before the failure stay in place. */
  datatype ReachResult = Ok(arm: Arm) | KeyError(arm: Arm, name: string)

  /** The teleport loop of `_cb_reach`: for each requested name in order, look
      it up in the whitelist (a miss is ignored), then write its target value
      into that motor's goal position. */
  function WriteGoals(arm: Arm, target: map<string, real>, names: seq<string>): (r: ReachResult)
    ensures forall j :: 0 <= j < 6 ==>
      r.arm[j].movingSpeed == arm[j].movingSpeed && r.arm[j].compliant == arm[j].compliant
    decreases |names|
  {
    if |names| == 0 then Ok(arm)
    else match IndexOf(MotorNames, names[0])
      case None => WriteGoals(arm, target, names[1..])
      case Some(j) =>
        if names[0] in target
        then WriteGoals(arm[j := arm[j].(goalPosition := target[names[0]])], target, names[1..])
        else KeyError(arm, names[0])
  }

  /** One step of the teleport loop moves the first name from the requested
      names into the arm. */
  lemma WrittenStep(arm: Arm, target: map<string, real>, names: seq<string>)
    requires |names| > 0
    requires names[0] in MotorNames ==> names[0] in target
    ensures Written(FirstWrite(arm, target, names[0]), target, names[1..]) == Written(arm, target, names)
  {
    var n := names[0];
    var rest := names[1..];
    var arm' := FirstWrite(arm, target, n);
    assert forall x :: x in names <==> x == n || x in rest;
    match IndexOf(MotorNames, n)
    case None =>
      assert arm' == arm;
    case Some(j) =>
      assert arm' == arm[j := arm[j].(goalPosition := target[n])];
      forall i | 0 <= i < 6
        ensures Written(arm', target, rest)[i] == Written(arm, target, names)[i]
      {
        if i != j {
          assert MotorNames[i] != n;
        }
      }
  }

  /** The teleport loop ends normally exactly when no whitelisted requested
      name lacks a target value. */
  lemma {:induction false} WriteGoalsOkIff(arm: Arm, target: map<string, real>, names: seq<string>)
    ensures WriteGoals(arm, target, names).Ok? <==> Covered(target, names)
    decreases |names|
  {
    if |names| > 0 {
      var rest := names[1..];
      assert forall k :: 0 < k < |names| ==> names[k] == rest[k - 1];
      if !(names[0] in MotorNames && names[0] !in target) {
        WriteGoalsOkIff(FirstWrite(arm, target, names[0]), target, rest);
      }
    }
  }

  /** A teleport loop that ends normally leaves exactly `Written`. */
  lemma {:induction false} WriteGoalsArmWhenOk(arm: Arm, target: map<string, real>, names: seq<string>)
    requires WriteGoals(arm, target, names).Ok?
    ensures WriteGoals(arm, target, names).arm == Written(arm, target, names)
    decreases |names|
  {
    if |names| == 0 {
      assert Written(arm, target, names) == arm;
    } else {
      var arm' := FirstWrite(arm, target, names[0]);
      assert WriteGoals(arm, target, names) == WriteGoals(arm', target, names[1..]);
      WrittenStep(arm, target, names);
      WriteGoalsArmWhenOk(arm', target, names[1..]);
    }
  }

  /** The teleport loop raised `KeyError` at the name at `p`, leaving the arm
      of `r`: that name is whitelisted without a target value, every
      whitelisted name before it has one, and their writes were made. */
  predicate FailedAt(arm: Arm, target: map<string, real>, names: seq<string>, p: nat, r: ReachResult)
  {
    && r.KeyError?
    && p < |names| && names[p] == r.name
    && names[p] in MotorNames && names[p] !in target
    && Covered(target, names[..p])
    && r.arm == Written(arm, target, names[..p])
  }

  /** The arm after the first iteration of the teleport loop, when that
      iteration does not raise. */
  function FirstWrite(arm: Arm, target: map<string, real>, n: string): Arm
  {
    match IndexOf(MotorNames, n)
    case None => arm
    case Some(j) => if n in target then arm[j := arm[j].(goalPosition := target[n])] else arm
  }

  /** A teleport loop that stops on a `KeyError` stops at the first
      whitelisted name without a target value, and leaves the writes for
      the names before it. */
  lemma {:induction false} WriteGoalsArmOnError(arm: Arm, target: map<string, real>, names: seq<string>)
    requires WriteGoals(arm, target, names).KeyError?
    ensures exists p: nat :: FailedAt(arm, target, names, p, WriteGoals(arm, target, names))
    decreases |names|
  {
    var r := WriteGoals(arm, target, names);
    var n := names[0];
    if n in MotorNames && n !in target {
      assert names[..0] == [];
      assert Written(arm, target, []) == arm;
      assert FailedAt(arm, target, names, 0, r);
    } else {
      var arm' := FirstWrite(arm, target, n);
      assert r == WriteGoals(arm', target, names[1..]);
      WriteGoalsArmOnError(arm', target, names[1..]);
      var p: nat :| FailedAt(arm', target, names[1..], p, r);
      ErrorPrefix(arm, arm', target, names, p);
      assert FailedAt(arm, target, names, p + 1, r);
    }
  }

  /** Lifts a failure position found in `names[1..]` to `names`. */
  lemma ErrorPrefix(arm: Arm, arm': Arm, target: map<string, real>, names: seq<string>, p: nat)
    requires p + 1 < |names|
    requires names[0] in MotorNames ==> names[0] in target
    requires arm' == FirstWrite(arm, target, names[0])
    requires Covered(target, names[1..][..p])
    ensures Covered(target, names[..p + 1])
    ensures Written(arm', target, names[1..][..p]) == Written(arm, target, names[..p + 1])
  {
    var pre := names[..p + 1];
    assert pre[1..] == names[1..][..p];
    assert forall k :: 0 < k < |pre| ==> pre[k] == names[1..][..p][k - 1];
    WrittenStep(arm, target, pre);
  }

  /** The teleport branch of `_cb_reach` (duration <= 0). */
  function Teleport(arm: Arm, names: seq<string>, positions: seq<real>): ReachResult
  {
    WriteGoals(arm, Target(names, positions), names)
  }

  /** A teleport ends normally exactly when every whitelisted requested name
      occurs among the names that `zip` pairs with a position; with at least
      as many positions as names it always does. */
  lemma TeleportOkIff(arm: Arm, names: seq<string>, positions: seq<real>)
    ensures Teleport(arm, names, positions).Ok? <==>
      forall k :: 0 <= k < |names| && names[k] in MotorNames ==>
        exists i :: 0 <= i < |names| && i < |positions| && names[i] == names[k]
    ensures |names| <= |positions| ==> Teleport(arm, names, positions).Ok?
  {
    var target := Target(names, positions);
    WriteGoalsOkIff(arm, target, names);
    forall k | 0 <= k < |names|
      ensures names[k] in target <==>
        exists i :: 0 <= i < |names| && i < |positions| && names[i] == names[k]
    {
      TargetKeys(names, positions, names[k]);
    }
  }

  /** A teleport that ends normally changes goal positions only, and only of
      the motors whose whitelisted name is requested; such a motor takes the
      position paired with the last paired occurrence of its name. */
  lemma TeleportSetsRequestedGoals(arm: Arm, names: seq<string>, positions: seq<real>)
    requires Teleport(arm, names, positions).Ok?
    ensures forall j :: 0 <= j < 6 ==>
      && Teleport(arm, names, positions).arm[j].movingSpeed == arm[j].movingSpeed
      && Teleport(arm, names, positions).arm[j].compliant == arm[j].compliant
    ensures forall j, i ::
      (0 <= j < 6 && 0 <= i < |names| && names[i] == MotorNames[j] && LastPaired(names, positions, i)) ==>
        Teleport(arm, names, positions).arm[j].goalPosition == positions[i]
    ensures forall j :: 0 <= j < 6 && MotorNames[j] !in names ==>
      Teleport(arm, names, positions).arm[j] == arm[j]
  {
    var target := Target(names, positions);
    var r := Teleport(arm, names, positions);
    WriteGoalsArmWhenOk(arm, target, names);
    forall j, i | 0 <= j < 6 && 0 <= i < |names| && names[i] == MotorNames[j] && LastPaired(names, positions, i)
      ensures r.arm[j].goalPosition == positions[i]
    {
      TargetLastPairWins(names, positions, i);
    }
  }

  /** Teleporting `{"m1": 10}` together with an unknown joint sets the goal
      of motor `m1` to 10 and leaves every other motor as it was. */
  lemma TeleportExample(arm: Arm)
    ensures Teleport(arm, ["m1", "gripper"], [10.0, 5.0]).Ok?
    ensures Teleport(arm, ["m1", "gripper"], [10.0, 5.0]).arm[0] == arm[0].(goalPosition := 10.0)
    ensures forall j :: 1 <= j < 6 ==> Teleport(arm, ["m1", "gripper"], [10.0, 5.0]).arm[j] == arm[j]
  {
  }

  /** The reply of `_cb_reach`: the arm after the request and the commands it
      sent to the SDK. */
  datatype Reply = Reply(result: ReachResult, issued: seq<Command>)

  /** `_cb_reach`. A non-positive duration teleports; a positive one hands the
      whole target to the SDK's `goto_position` and then resets every speed.
      The SDK is not modelled: `afterGoto` is the arm as it stands when
      `goto_position` returns and `reset_max_speed` runs; the SDK's threaded
      control may still be moving the motors at that point. */
  function Reach(arm: Arm, names: seq<string>, positions: seq<real>, duration: real, afterGoto: Arm): (r: Reply)
    ensures duration <= 0.0 ==> r.issued == [] && r.result == Teleport(arm, names, positions)
    ensures 0.0 < duration ==> r.result.Ok? && r.issued == [Goto(Target(names, positions), duration)]
    ensures 0.0 < duration ==> forall j :: 0 <= j < 6 ==>
      && r.result.arm[j].movingSpeed == DefaultSpeed
      && r.result.arm[j].goalPosition == afterGoto[j].goalPosition
      && r.result.arm[j].compliant == afterGoto[j].compliant
  {
    if duration <= 0.0 then Reply(Teleport(arm, names, positions), [])
    else Reply(Ok(ResetMaxSpeed(afterGoto)), [Goto(Target(names, positions), duration)])
  }
}
