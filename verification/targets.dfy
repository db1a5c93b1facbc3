/** Joint targets as the controller builds them from a request: Python's `zip`,
    `dict` over a sequence of pairs, and `list.index`, together with the commands
    the controller hands to the hardware SDK and to the ROS clock.
 */
module Targets {

  datatype Option<+T> = None | Some(value: T)

  /** A command the controller emits: a `goto_position` call on the SDK, or a
      `rospy.sleep` of the executor thread. */
  datatype Command =
    | Goto(target: map<string, real>, duration: real)
    | Sleep(seconds: real)

  /** Python's `zip`: pairs elements position by position and stops at the
      end of the shorter list. */
  function Zip<A, B>(xs: seq<A>, ys: seq<B>): seq<(A, B)>
  {
    if |xs| == 0 || |ys| == 0 then [] else [(xs[0], ys[0])] + Zip(xs[1..], ys[1..])
  }

  lemma {:induction false} ZipPairsUp<A, B>(xs: seq<A>, ys: seq<B>)
    ensures |Zip(xs, ys)| == if |xs| <= |ys| then |xs| else |ys|
    ensures forall i :: 0 <= i < |Zip(xs, ys)| ==> Zip(xs, ys)[i] == (xs[i], ys[i])
    decreases |xs|
  {
    if |xs| > 0 && |ys| > 0 {
      ZipPairsUp(xs[1..], ys[1..]);
    }
  }

  /** The pair at `i` is the last one in `pairs` with its key. */
  predicate LastWithKey<K(==), V>(pairs: seq<(K, V)>, i: nat)
    requires i < |pairs|
  {
    forall j :: i < j < |pairs| ==> pairs[j].0 != pairs[i].0
  }

  /** Python's `dict(pairs)`: pairs are inserted in order, later ones
      overwriting earlier ones with the same key. */
  function ToDict<K(==), V>(pairs: seq<(K, V)>): map<K, V>
  {
    if |pairs| == 0 then map[]
    else ToDict(pairs[..|pairs| - 1])[pairs[|pairs| - 1].0 := pairs[|pairs| - 1].1]
  }

  /** Every key of `pairs` is in `dict(pairs)`, and a key that occurs more
      than once keeps the value of its last occurrence. */
  lemma {:induction false} ToDictLastWins<K, V>(pairs: seq<(K, V)>)
    ensures forall i :: 0 <= i < |pairs| ==> pairs[i].0 in ToDict(pairs)
    ensures forall i :: 0 <= i < |pairs| && LastWithKey(pairs, i) ==> ToDict(pairs)[pairs[i].0] == pairs[i].1
  {
    if |pairs| > 0 {
      var init := pairs[..|pairs| - 1];
      ToDictLastWins(init);
      assert forall i :: 0 <= i < |init| ==> init[i] == pairs[i];
    }
  }

  /** Every key of `dict(pairs)` is the key of some pair. */
  lemma {:induction false} ToDictKeysFromPairs<K, V>(pairs: seq<(K, V)>, k: K)
    requires k in ToDict(pairs)
    ensures exists i :: 0 <= i < |pairs| && pairs[i].0 == k
  {
    var n := |pairs|;
    if pairs[n - 1].0 != k {
      var init := pairs[..n - 1];
      ToDictKeysFromPairs(init, k);
      var i :| 0 <= i < |init| && init[i].0 == k;
      assert pairs[i].0 == k;
    }
  }

  /** `dict(zip(names, positions))`: the joint target of a request. */
  function Target(names: seq<string>, positions: seq<real>): map<string, real>
  {
    ToDict(Zip(names, positions))
  }

  /** `names[i]` is paired with a position and no later paired name repeats it. */
  predicate LastPaired(names: seq<string>, positions: seq<real>, i: nat)
  {
    && i < |names| && i < |positions|
    && forall l :: i < l < |names| && l < |positions| ==> names[l] != names[i]
  }

  /** A name is a key of the target exactly when it occurs among the names
      that `zip` kept, and it maps to the position paired with its last such
      occurrence. */
  lemma TargetLastPairWins(names: seq<string>, positions: seq<real>, i: nat)
    requires LastPaired(names, positions, i)
    ensures names[i] in Target(names, positions)
    ensures Target(names, positions)[names[i]] == positions[i]
  {
    var pairs := Zip(names, positions);
    ZipPairsUp(names, positions);
    ToDictLastWins(pairs);
    assert pairs[i].0 == names[i];
    assert LastWithKey(pairs, i);
  }

  /** The keys of the target are the names within the first
      `min(|names|, |positions|)` entries. */
  lemma TargetKeys(names: seq<string>, positions: seq<real>, n: string)
    ensures n in Target(names, positions) <==>
            exists i :: 0 <= i < |names| && i < |positions| && names[i] == n
  {
    var pairs := Zip(names, positions);
    ZipPairsUp(names, positions);
    ToDictLastWins(pairs);
    if n in Target(names, positions) {
      ToDictKeysFromPairs(pairs, n);
      var i :| 0 <= i < |pairs| && pairs[i].0 == n;
      assert names[i] == n;
    }
    if exists i :: 0 <= i < |names| && i < |positions| && names[i] == n {
      var i :| 0 <= i < |names| && i < |positions| && names[i] == n;
      assert pairs[i].0 == n;
    }
  }

  /** Python's `list.index`: the first position holding `x`, or `None` where
      Python raises `ValueError`. */
  function IndexOf<T(==)>(s: seq<T>, x: T): (r: Option<nat>)
    ensures r.None? <==> x !in s
    ensures r.Some? ==> r.value < |s| && s[r.value] == x && x !in s[..r.value]
  {
    if |s| == 0 then None
    else if s[0] == x then Some(0)
    else match IndexOf(s[1..], x)
      case None => None
      case Some(i) =>
        assert s[1..][..i] == s[1..i + 1];
        assert s[..i + 1] == [s[0]] + s[1..][..i];
        Some(i + 1)
  }
}
