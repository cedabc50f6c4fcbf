/** The race store: two runners run on the same graph between the same two nodes, both step
    lists materialised up front and replayed in lockstep; the side with fewer steps wins. */
module Race {
  import opened Common
  import opened GraphTypes
  import opened AlgorithmTypes
  import opened Registry
  import Playback

  datatype RaceStatus = RaceIdle | RaceSetup | RaceRunning | RacePaused | RaceComplete

  datatype Winner = Left | Right | Tie

  /** A side is done when its cursor is on (or past) its last step. */
  predicate Done(c: int, n: nat) {
    c >= n - 1
  }

  /** A side's cursor after one lockstep move: it advances unless done. */
  function Advance(c: int, n: nat): (r: int)
    ensures Done(c, n) ==> r == c
    ensures !Done(c, n) ==> r == c + 1 && r <= n - 1
  {
    if Done(c, n) then c else c + 1
  }

  /** The winner by total step count alone. */
  function Decide(leftTotal: nat, rightTotal: nat): (w: Winner)
    ensures w == Left <==> leftTotal < rightTotal
    ensures w == Right <==> rightTotal < leftTotal
    ensures w == Tie <==> leftTotal == rightTotal
  {
    if leftTotal < rightTotal then Left else if rightTotal < leftTotal then Right else Tie
  }

  /** Swapping the sides swaps the winner. */
  lemma DecideSwap(l: nat, r: nat)
    ensures Decide(r, l) == (match Decide(l, r) case Left => Right case Right => Left case Tie => Tie)
  {
  }

  /** Both cursors after `k` lockstep moves. */
  function Lockstep(cl: int, nl: nat, cr: int, nr: nat, k: nat): (r: (int, int))
  {
    if k == 0 then (cl, cr)
    else
      var p := Lockstep(cl, nl, cr, nr, k - 1);
      (Advance(p.0, nl), Advance(p.1, nr))
  }

  /** A cursor that is not past its last step reaches it after `n - 1 - c` moves and stays. */
  lemma {:induction false} AdvanceReachesEnd(c: int, n: nat, k: nat, p: int)
    requires c <= n - 1 || n == 0
    requires p == Lockstep(c, n, c, n, k).0
    ensures p == (if c + k <= n - 1 then c + k else if c <= n - 1 then n - 1 else c)
  {
    if k > 0 {
      AdvanceReachesEnd(c, n, k - 1, Lockstep(c, n, c, n, k - 1).0);
    }
  }

  /** Each side moves independently of the other: lockstep is two separate walks. */
  lemma {:induction false} LockstepSides(cl: int, nl: nat, cr: int, nr: nat, k: nat)
    ensures Lockstep(cl, nl, cr, nr, k).0 == Lockstep(cl, nl, cl, nl, k).0
    ensures Lockstep(cl, nl, cr, nr, k).1 == Lockstep(cr, nr, cr, nr, k).0
  {
    if k > 0 {
      LockstepSides(cl, nl, cr, nr, k - 1);
    }
  }

  /** The race is over after as many moves as the longer side needs: both sides are done, each
      on its own last step, and neither moved past it. */
  lemma RaceEnds(cl: int, nl: nat, cr: int, nr: nat)
    requires -1 <= cl <= nl - 1 && -1 <= cr <= nr - 1
    ensures var k := if nl - 1 - cl >= nr - 1 - cr then nl - 1 - cl else nr - 1 - cr;
            var p := Lockstep(cl, nl, cr, nr, k);
            Done(p.0, nl) && Done(p.1, nr) && p.0 == nl - 1 && p.1 == nr - 1
  {
    var k := if nl - 1 - cl >= nr - 1 - cr then nl - 1 - cl else nr - 1 - cr;
    LockstepSides(cl, nl, cr, nr, k);
    AdvanceReachesEnd(cl, nl, k, Lockstep(cl, nl, cl, nl, k).0);
    AdvanceReachesEnd(cr, nr, k, Lockstep(cr, nr, cr, nr, k).0);
  }

  /** The parameters a race runs both sides with: only the two endpoints. */
  function RaceParams(startNode: Id, endNode: Id): AlgorithmParams {
    AlgorithmParams(Some(startNode), Some(endNode), None)
  }

  /** One side of a race: the runner's steps from `startNode` to `endNode`, drained into a
      list. With both endpoints non-empty, every engine emits nothing exactly when the graph has
      no node, so the two sides of a race are empty together. */
  method RunSide(runner: AlgorithmRunner, g: Graph, startNode: Id, endNode: Id, sqrt: real -> real)
    returns (steps: seq<Step>)
    requires startNode != "" && endNode != ""
    ensures Produced(runner, g, RaceParams(startNode, endNode), sqrt, steps)
    ensures steps == [] <==> |g.nodes| == 0
  {
    steps := Drain(runner, g, RaceParams(startNode, endNode), sqrt);
  }

  class RaceStore {
    var leftAlgorithm: Option<AlgorithmRunner>
    var rightAlgorithm: Option<AlgorithmRunner>
    var leftSteps: seq<Step>
    var rightSteps: seq<Step>
    var leftStepIndex: int
    var rightStepIndex: int
    var raceStatus: RaceStatus
    var winner: Option<Winner>
    var speed: int
    var startNode: Id
    var endNode: Id

    /** Each cursor is -1 or on a step of its list; the lists are empty together (both engines
        ran on the same graph); the speed is within the clamp. */
    predicate Valid()
      reads this
    {
      && Playback.InRange(leftStepIndex, |leftSteps|)
      && Playback.InRange(rightStepIndex, |rightSteps|)
      && (leftSteps == [] <==> rightSteps == [])
      && 50 <= speed <= 2000
    }

    constructor()
      ensures Valid()
      ensures leftAlgorithm == None && rightAlgorithm == None
      ensures leftSteps == [] && rightSteps == [] && leftStepIndex == -1 && rightStepIndex == -1
      ensures raceStatus == RaceIdle && winner == None && speed == 200 && startNode == "" && endNode == ""
    {
      leftAlgorithm, rightAlgorithm := None, None;
      leftSteps, rightSteps := [], [];
      leftStepIndex, rightStepIndex := -1, -1;
      raceStatus := RaceIdle;
      winner := None;
      speed := 200;
      startNode, endNode := "", "";
    }

    method SelectLeft(a: Option<AlgorithmRunner>)
      modifies this
      ensures leftAlgorithm == a && rightAlgorithm == old(rightAlgorithm)
      ensures leftSteps == old(leftSteps) && rightSteps == old(rightSteps)
      ensures leftStepIndex == old(leftStepIndex) && rightStepIndex == old(rightStepIndex)
      ensures raceStatus == old(raceStatus) && winner == old(winner) && speed == old(speed)
      ensures startNode == old(startNode) && endNode == old(endNode)
      ensures old(Valid()) ==> Valid()
    {
      leftAlgorithm := a;
    }

    method SelectRight(a: Option<AlgorithmRunner>)
      modifies this
      ensures rightAlgorithm == a && leftAlgorithm == old(leftAlgorithm)
      ensures leftSteps == old(leftSteps) && rightSteps == old(rightSteps)
      ensures leftStepIndex == old(leftStepIndex) && rightStepIndex == old(rightStepIndex)
      ensures raceStatus == old(raceStatus) && winner == old(winner) && speed == old(speed)
      ensures startNode == old(startNode) && endNode == old(endNode)
      ensures old(Valid()) ==> Valid()
    {
      rightAlgorithm := a;
    }

    method SetStartNode(id: Id)
      modifies this
      ensures startNode == id && endNode == old(endNode)
      ensures leftAlgorithm == old(leftAlgorithm) && rightAlgorithm == old(rightAlgorithm)
      ensures leftSteps == old(leftSteps) && rightSteps == old(rightSteps)
      ensures leftStepIndex == old(leftStepIndex) && rightStepIndex == old(rightStepIndex)
      ensures raceStatus == old(raceStatus) && winner == old(winner) && speed == old(speed)
      ensures old(Valid()) ==> Valid()
    {
      startNode := id;
    }

    method SetEndNode(id: Id)
      modifies this
      ensures endNode == id && startNode == old(startNode)
      ensures leftAlgorithm == old(leftAlgorithm) && rightAlgorithm == old(rightAlgorithm)
      ensures leftSteps == old(leftSteps) && rightSteps == old(rightSteps)
      ensures leftStepIndex == old(leftStepIndex) && rightStepIndex == old(rightStepIndex)
      ensures raceStatus == old(raceStatus) && winner == old(winner) && speed == old(speed)
      ensures old(Valid()) ==> Valid()
    {
      endNode := id;
    }

    method SetSpeed(s: int)
      modifies this
      ensures speed == Playback.ClampSpeed(s)
      ensures leftAlgorithm == old(leftAlgorithm) && rightAlgorithm == old(rightAlgorithm)
      ensures leftSteps == old(leftSteps) && rightSteps == old(rightSteps)
      ensures leftStepIndex == old(leftStepIndex) && rightStepIndex == old(rightStepIndex)
      ensures raceStatus == old(raceStatus) && winner == old(winner)
      ensures startNode == old(startNode) && endNode == old(endNode)
      ensures old(Valid()) ==> Valid()
    {
      speed := Playback.ClampSpeed(s);
    }

    /** Both runners chosen, and two distinct non-empty endpoints. */
    function CanStart(): (b: bool)
      reads this
      ensures b ==> startNode != "" && endNode != "" && startNode != endNode
      ensures b <==> leftAlgorithm.Some? && rightAlgorithm.Some? && Truthy(Some(startNode))
                     && Truthy(Some(endNode)) && startNode != endNode
    {
      leftAlgorithm.Some? && rightAlgorithm.Some? && startNode != "" && endNode != "" && startNode != endNode
    }

    /** Runs both runners to completion on `g` from `startNode` to `endNode` and installs both
        lists paused, each cursor on its first step; a no-op unless `CanStart()`. */
    method RunRace(g: Graph, sqrt: real -> real)
      modifies this
      ensures !CanStart() ==>
                && leftSteps == old(leftSteps) && rightSteps == old(rightSteps)
                && leftStepIndex == old(leftStepIndex) && rightStepIndex == old(rightStepIndex)
                && raceStatus == old(raceStatus) && winner == old(winner)
      ensures CanStart() ==>
                && Produced(leftAlgorithm.value, g, RaceParams(startNode, endNode), sqrt, leftSteps)
                && Produced(rightAlgorithm.value, g, RaceParams(startNode, endNode), sqrt, rightSteps)
      ensures CanStart() ==> (leftSteps == [] <==> |g.nodes| == 0) && (rightSteps == [] <==> |g.nodes| == 0)
      ensures CanStart() ==>
                && leftStepIndex == (if leftSteps != [] then 0 else -1)
                && rightStepIndex == (if rightSteps != [] then 0 else -1)
                && raceStatus == RacePaused && winner == None
      ensures leftAlgorithm == old(leftAlgorithm) && rightAlgorithm == old(rightAlgorithm)
      ensures startNode == old(startNode) && endNode == old(endNode) && speed == old(speed)
      ensures old(Valid()) ==> Valid()
    {
      if leftAlgorithm.None? || rightAlgorithm.None? {
        return;
      }
      if startNode == "" || endNode == "" || startNode == endNode {
        return;
      }
      var left := RunSide(leftAlgorithm.value, g, startNode, endNode, sqrt);
      var right := RunSide(rightAlgorithm.value, g, startNode, endNode, sqrt);
      Install(left, right);
    }

    /** Puts both lists in place, paused, each cursor on its first step (-1 when empty). */
    method Install(left: seq<Step>, right: seq<Step>)
      modifies this
      ensures leftSteps == left && rightSteps == right
      ensures leftStepIndex == (if left != [] then 0 else -1) && rightStepIndex == (if right != [] then 0 else -1)
      ensures raceStatus == RacePaused && winner == None
      ensures leftAlgorithm == old(leftAlgorithm) && rightAlgorithm == old(rightAlgorithm)
      ensures startNode == old(startNode) && endNode == old(endNode) && speed == old(speed)
      ensures (left == [] <==> right == []) && old(Valid()) ==> Valid()
    {
      leftSteps, rightSteps := left, right;
      leftStepIndex := if |left| > 0 then 0 else -1;
      rightStepIndex := if |right| > 0 then 0 else -1;
      raceStatus := RacePaused;
      winner := None;
    }

    /** Advances every side that is not done by one step. When both sides are done (already,
        or after this move) the race is complete, the shorter list wins, and the result is
        false; otherwise it is true. */
    method StepBoth() returns (more: bool)
      modifies this
      ensures leftStepIndex == Advance(old(leftStepIndex), |leftSteps|)
      ensures rightStepIndex == Advance(old(rightStepIndex), |rightSteps|)
      ensures more <==> !Done(leftStepIndex, |leftSteps|) || !Done(rightStepIndex, |rightSteps|)
      ensures !more ==> raceStatus == RaceComplete && winner == Some(Decide(|leftSteps|, |rightSteps|))
      ensures more ==> raceStatus == old(raceStatus) && winner == old(winner)
      ensures leftSteps == old(leftSteps) && rightSteps == old(rightSteps)
      ensures leftAlgorithm == old(leftAlgorithm) && rightAlgorithm == old(rightAlgorithm)
      ensures startNode == old(startNode) && endNode == old(endNode) && speed == old(speed)
      ensures old(Valid()) ==> Valid()
    {
      var leftDone := leftStepIndex >= |leftSteps| - 1;
      var rightDone := rightStepIndex >= |rightSteps| - 1;
      if leftDone && rightDone {
        raceStatus, winner := RaceComplete, Some(Decide(|leftSteps|, |rightSteps|));
        return false;
      }
      var newLeft := if leftDone then leftStepIndex else leftStepIndex + 1;
      var newRight := if rightDone then rightStepIndex else rightStepIndex + 1;
      leftStepIndex, rightStepIndex := newLeft, newRight;
      if newLeft >= |leftSteps| - 1 && newRight >= |rightSteps| - 1 {
        raceStatus, winner := RaceComplete, Some(Decide(|leftSteps|, |rightSteps|));
        return false;
      }
      return true;
    }

    /** Starts the replay; when both sides are done it first rewinds both to their first step
        and clears the winner. Without any step nothing happens. */
    method Play()
      modifies this
      ensures old(leftSteps) == [] && old(rightSteps) == [] ==>
                leftStepIndex == old(leftStepIndex) && rightStepIndex == old(rightStepIndex)
                && raceStatus == old(raceStatus) && winner == old(winner)
      ensures old(leftSteps) != [] || old(rightSteps) != [] ==>
                && raceStatus == RaceRunning
                && (Done(old(leftStepIndex), |leftSteps|) && Done(old(rightStepIndex), |rightSteps|) ==>
                      leftStepIndex == 0 && rightStepIndex == 0 && winner == None)
                && (!Done(old(leftStepIndex), |leftSteps|) || !Done(old(rightStepIndex), |rightSteps|) ==>
                      leftStepIndex == old(leftStepIndex) && rightStepIndex == old(rightStepIndex)
                      && winner == old(winner))
      ensures leftSteps == old(leftSteps) && rightSteps == old(rightSteps)
      ensures leftAlgorithm == old(leftAlgorithm) && rightAlgorithm == old(rightAlgorithm)
      ensures startNode == old(startNode) && endNode == old(endNode) && speed == old(speed)
      ensures old(Valid()) ==> Valid()
    {
      if |leftSteps| == 0 && |rightSteps| == 0 {
        return;
      }
      var leftDone := leftStepIndex >= |leftSteps| - 1;
      var rightDone := rightStepIndex >= |rightSteps| - 1;
      if leftDone && rightDone {
        leftStepIndex, rightStepIndex, winner := 0, 0, None;
      }
      raceStatus := RaceRunning;
    }

    method Pause()
      modifies this
      ensures raceStatus == RacePaused
      ensures leftSteps == old(leftSteps) && rightSteps == old(rightSteps)
      ensures leftStepIndex == old(leftStepIndex) && rightStepIndex == old(rightStepIndex) && winner == old(winner)
      ensures leftAlgorithm == old(leftAlgorithm) && rightAlgorithm == old(rightAlgorithm)
      ensures startNode == old(startNode) && endNode == old(endNode) && speed == old(speed)
      ensures old(Valid()) ==> Valid()
    {
      raceStatus := RacePaused;
    }

    /** Discards both runs; the chosen runners, the endpoints and the speed stay. */
    method Reset()
      modifies this
      ensures leftSteps == [] && rightSteps == [] && leftStepIndex == -1 && rightStepIndex == -1
      ensures raceStatus == RaceIdle && winner == None
      ensures leftAlgorithm == old(leftAlgorithm) && rightAlgorithm == old(rightAlgorithm)
      ensures startNode == old(startNode) && endNode == old(endNode) && speed == old(speed)
      ensures old(Valid()) ==> Valid()
    {
      leftSteps, rightSteps := [], [];
      leftStepIndex, rightStepIndex := -1, -1;
      raceStatus := RaceIdle;
      winner := None;
    }

    /** The left side's step under its cursor; none before its first step. */
    function LeftCurrentStep(): (r: Option<Step>)
      reads this
      requires Valid()
      ensures r.None? <==> leftStepIndex < 0
      ensures r.Some? ==> r.value == leftSteps[leftStepIndex]
    {
      if leftStepIndex >= 0 then Some(leftSteps[leftStepIndex]) else None
    }

    function RightCurrentStep(): (r: Option<Step>)
      reads this
      requires Valid()
      ensures r.None? <==> rightStepIndex < 0
      ensures r.Some? ==> r.value == rightSteps[rightStepIndex]
    {
      if rightStepIndex >= 0 then Some(rightSteps[rightStepIndex]) else None
    }
  }
}
