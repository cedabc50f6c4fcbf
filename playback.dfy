/** The playback store: the chosen runner, its parameters, the materialised step list and a
    cursor into it, the playback status and the playback speed. */
module Playback {
  import opened Common
  import opened AlgorithmTypes
  import opened Registry

  datatype Status = Idle | Running | Paused | Complete

  /** `Math.max(50, Math.min(2000, s))`: a speed in milliseconds per step, kept in [50, 2000]. */
  function ClampSpeed(s: int): (r: int)
    ensures 50 <= r <= 2000
    ensures 50 <= s <= 2000 ==> r == s
    ensures s < 50 ==> r == 50
    ensures s > 2000 ==> r == 2000
  {
    if s < 50 then 50 else if s > 2000 then 2000 else s
  }

  /** A cursor into a list of `n` steps: -1 (before the first step) up to the last index. */
  predicate InRange(c: int, n: nat) {
    -1 <= c <= n - 1
  }

  /** `stepForward` on cursor `c` over `n` steps: the new cursor, and whether it moved. */
  function Forward(c: int, n: nat): (r: (int, bool))
    ensures r.1 <==> c < n - 1
    ensures r.0 == (if r.1 then c + 1 else c)
    ensures InRange(c, n) ==> InRange(r.0, n)
  {
    if c < n - 1 then (c + 1, true) else (c, false)
  }

  /** `stepBackward` on cursor `c`: the new cursor, and whether it moved; it never reaches -1. */
  function Backward(c: int): (r: (int, bool))
    ensures r.1 <==> c > 0
    ensures r.0 == (if r.1 then c - 1 else c)
    ensures r.1 ==> r.0 >= 0
  {
    if c > 0 then (c - 1, true) else (c, false)
  }

  /** A step back undoes a step forward from a cursor on a step, and a step forward undoes a
      step back. */
  lemma ForwardBackward(c: int, n: nat)
    requires InRange(c, n)
    ensures c >= 0 && Forward(c, n).1 ==> Backward(Forward(c, n).0) == (c, true)
    ensures Backward(c).1 ==> Forward(Backward(c).0, n) == (c, true)
  {
  }

  /** The cursor after `k` calls of `stepForward`. */
  function Forwards(c: int, n: nat, k: nat): (r: int)
    ensures InRange(c, n) ==> InRange(r, n)
  {
    if k == 0 then c else Forward(Forwards(c, n, k - 1), n).0
  }

  /** From any cursor, `n - 1 - c` steps forward all move and reach the last step, and the one
      after them does not move: playing always comes to an end. */
  lemma {:induction false} ForwardsReachEnd(c: int, n: nat, k: nat)
    requires InRange(c, n) && k <= n - 1 - c
    ensures Forwards(c, n, k) == c + k
    ensures k < n - 1 - c ==> Forward(Forwards(c, n, k), n).1
    ensures k == n - 1 - c ==> !Forward(Forwards(c, n, k), n).1
  {
    if k > 0 {
      ForwardsReachEnd(c, n, k - 1);
    }
  }

  class AlgorithmStore {
    var algorithm: Option<AlgorithmRunner>
    var params: AlgorithmParams
    var steps: seq<Step>
    var currentStepIndex: int
    var status: Status
    var speed: int

    /** The cursor is -1 or indexes a step, and the speed is within the clamp. */
    predicate Valid()
      reads this
    {
      InRange(currentStepIndex, |steps|) && 50 <= speed <= 2000
    }

    constructor()
      ensures Valid()
      ensures algorithm == None && params == AlgorithmParams(None, None, None)
      ensures steps == [] && currentStepIndex == -1 && status == Idle && speed == 200
    {
      algorithm := None;
      params := AlgorithmParams(None, None, None);
      steps := [];
      currentStepIndex := -1;
      status := Idle;
      speed := 200;
    }

    /** Choosing a runner (or none) discards the steps of the previous one. */
    method SelectAlgorithm(a: Option<AlgorithmRunner>)
      modifies this
      ensures algorithm == a && steps == [] && currentStepIndex == -1 && status == Idle
      ensures params == old(params) && speed == old(speed)
      ensures old(Valid()) ==> Valid()
    {
      algorithm := a;
      steps := [];
      currentStepIndex := -1;
      status := Idle;
    }

    /** `{ ...params, ...patch }`: the entries the patch carries win. */
    method SetParams(patch: AlgorithmParams)
      modifies this
      ensures params == MergeParams(old(params), patch)
      ensures algorithm == old(algorithm) && steps == old(steps) && currentStepIndex == old(currentStepIndex)
      ensures status == old(status) && speed == old(speed)
      ensures old(Valid()) ==> Valid()
    {
      params := MergeParams(params, patch);
    }

    /** A non-empty list puts the cursor on its first step, an empty one before it. */
    method SetSteps(s: seq<Step>)
      modifies this
      ensures steps == s && currentStepIndex == (if |s| > 0 then 0 else -1)
      ensures algorithm == old(algorithm) && params == old(params) && status == old(status) && speed == old(speed)
      ensures old(Valid()) ==> Valid()
    {
      steps := s;
      currentStepIndex := if |s| > 0 then 0 else -1;
    }

    /** Moves the cursor only to -1 or to a step of the list; any other index is ignored. */
    method SetCurrentStep(i: int)
      modifies this
      ensures currentStepIndex == (if InRange(i, |steps|) then i else old(currentStepIndex))
      ensures algorithm == old(algorithm) && params == old(params) && steps == old(steps)
      ensures status == old(status) && speed == old(speed)
      ensures old(Valid()) ==> Valid()
    {
      if i >= -1 && i < |steps| {
        currentStepIndex := i;
      }
    }

    method SetStatus(s: Status)
      modifies this
      ensures status == s
      ensures algorithm == old(algorithm) && params == old(params) && steps == old(steps)
      ensures currentStepIndex == old(currentStepIndex) && speed == old(speed)
      ensures old(Valid()) ==> Valid()
    {
      status := s;
    }

    method SetSpeed(s: int)
      modifies this
      ensures speed == ClampSpeed(s)
      ensures algorithm == old(algorithm) && params == old(params) && steps == old(steps)
      ensures currentStepIndex == old(currentStepIndex) && status == old(status)
      ensures old(Valid()) ==> Valid()
    {
      speed := if 2000 < s then 2000 else s;
      speed := if speed < 50 then 50 else speed;
    }

    /** One step forward unless the cursor is on the last step; reports whether it moved. */
    method StepForward() returns (moved: bool)
      modifies this
      ensures (currentStepIndex, moved) == Forward(old(currentStepIndex), |steps|)
      ensures algorithm == old(algorithm) && params == old(params) && steps == old(steps)
      ensures status == old(status) && speed == old(speed)
      ensures old(Valid()) ==> Valid()
    {
      if currentStepIndex < |steps| - 1 {
        currentStepIndex := currentStepIndex + 1;
        return true;
      }
      return false;
    }

    /** One step back unless the cursor is on the first step or before it. */
    method StepBackward() returns (moved: bool)
      modifies this
      ensures (currentStepIndex, moved) == Backward(old(currentStepIndex))
      ensures algorithm == old(algorithm) && params == old(params) && steps == old(steps)
      ensures status == old(status) && speed == old(speed)
      ensures old(Valid()) ==> Valid()
    {
      if currentStepIndex > 0 {
        currentStepIndex := currentStepIndex - 1;
        return true;
      }
      return false;
    }

    method GoToStart()
      modifies this
      ensures currentStepIndex == (if |steps| > 0 then 0 else old(currentStepIndex))
      ensures algorithm == old(algorithm) && params == old(params) && steps == old(steps)
      ensures status == old(status) && speed == old(speed)
      ensures old(Valid()) ==> Valid() && IsAtStart()
    {
      if |steps| > 0 {
        currentStepIndex := 0;
      }
    }

    method GoToEnd()
      modifies this
      ensures currentStepIndex == (if |steps| > 0 then |steps| - 1 else old(currentStepIndex))
      ensures algorithm == old(algorithm) && params == old(params) && steps == old(steps)
      ensures status == old(status) && speed == old(speed)
      ensures old(Valid()) ==> Valid() && IsAtEnd()
    {
      if |steps| > 0 {
        currentStepIndex := |steps| - 1;
      }
    }

    /** Discards the steps; the runner, its parameters and the speed stay. */
    method Reset()
      modifies this
      ensures steps == [] && currentStepIndex == -1 && status == Idle
      ensures algorithm == old(algorithm) && params == old(params) && speed == old(speed)
      ensures old(Valid()) ==> Valid()
    {
      steps := [];
      currentStepIndex := -1;
      status := Idle;
    }

    /** The step under the cursor; none before the first step. */
    function CurrentStep(): (r: Option<Step>)
      reads this
      requires Valid()
      ensures r.None? <==> currentStepIndex < 0
      ensures r.Some? ==> r.value in steps && r.value == steps[currentStepIndex]
    {
      if currentStepIndex >= 0 then Some(steps[currentStepIndex]) else None
    }

    /** Percentage of the list played so far, counting the step under the cursor. */
    function Progress(): (p: real)
      reads this
      ensures |steps| == 0 ==> p == 0.0
      ensures Valid() ==> 0.0 <= p <= 100.0
      ensures Valid() && |steps| > 0 ==> (p == 100.0 <==> currentStepIndex == |steps| - 1)
      ensures Valid() && |steps| > 0 ==> (p == 0.0 <==> currentStepIndex == -1)
    {
      if |steps| == 0 then 0.0
      else
        var played, total := (currentStepIndex + 1) as real, |steps| as real;
        ProgressBounds(played, total);
        played / total * 100.0
    }

    /** True exactly when `stepBackward` would not move. */
    function IsAtStart(): (b: bool)
      reads this
      ensures b <==> !Backward(currentStepIndex).1
    {
      currentStepIndex <= 0
    }

    /** True exactly when `stepForward` would not move. */
    function IsAtEnd(): (b: bool)
      reads this
      ensures b <==> !Forward(currentStepIndex, |steps|).1
    {
      currentStepIndex >= |steps| - 1
    }
  }

  /** The bounds of a played fraction. */
  lemma ProgressBounds(played: real, total: real)
    requires total > 0.0
    ensures 0.0 <= played <= total ==> 0.0 <= played / total * 100.0 <= 100.0
    ensures played / total * 100.0 == 100.0 <==> played == total
    ensures played / total * 100.0 == 0.0 <==> played == 0.0
  {
    var q := played / total;
    assert q * total == played;
  }

  /** `{ ...p, ...patch }` over the three parameters the engines read: an entry the patch
      carries replaces the current one, the others stay. */
  function MergeParams(p: AlgorithmParams, patch: AlgorithmParams): (r: AlgorithmParams)
    ensures r.startNode == (if patch.startNode.Some? then patch.startNode else p.startNode)
    ensures r.endNode == (if patch.endNode.Some? then patch.endNode else p.endNode)
    ensures r.maxColors == (if patch.maxColors.Some? then patch.maxColors else p.maxColors)
  {
    AlgorithmParams(
      if patch.startNode.Some? then patch.startNode else p.startNode,
      if patch.endNode.Some? then patch.endNode else p.endNode,
      if patch.maxColors.Some? then patch.maxColors else p.maxColors)
  }

  /** Merging the same patch twice is merging it once, and an empty patch changes nothing. */
  lemma MergeIdempotent(p: AlgorithmParams, patch: AlgorithmParams)
    ensures MergeParams(MergeParams(p, patch), patch) == MergeParams(p, patch)
    ensures MergeParams(p, AlgorithmParams(None, None, None)) == p
  {
  }
}
