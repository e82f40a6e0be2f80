/** The frame callback of `Game`: the collision and zone checks and the
    updates they queue. Every check reads the position the frame started
    with; only the queued updates move the frog. The checks read the fixed
    entries of `carsRef` and `logsRef`, not the meshes that the `Car` and
    `Log` components move. */
module Evaluator {
  import opened Geometry
  import opened Lanes
  import opened Hooks

  /** Where the frog starts, and where a crossing or a reset puts it. */
  const Start: Vec3 := Vec3(0.0, 0.5, 5.0)

  /** The per-frame push of a log, taken as a fixed 1/60-ish second whatever
      the actual frame time. */
  const LogStep: real := 0.016

  /** A car hits the frog when their distance is below 0.75, i.e. their
      squared distance is below 0.75 * 0.75. */
  predicate Collides(car: Actor, frog: Vec3) {
    SqDistance(car.position, frog) < 0.75 * 0.75
  }

  /** For the actual distance d of a car from the frog (d >= 0 with d * d the
      squared distance), the source's test `d < 0.75` is `Collides`. */
  lemma CollidesIffDistanceBelow(car: Actor, frog: Vec3, d: real)
    requires d >= 0.0 && d * d == SqDistance(car.position, frog)
    ensures Collides(car, frog) <==> d < 0.75
  {
    DistanceBelowIffSquareBelow(d, 0.75);
  }

  /** The ride window of a log: |dz| < 0.25 and |dx| < 1. */
  predicate Rides(log: Actor, frog: Vec3) {
    Abs(log.position.z - frog.z) < 0.25 && Abs(log.position.x - frog.x) < 1.0
  }

  /** The river band, open at both ends. */
  predicate InRiver(frog: Vec3) {
    frog.z < -1.5 && frog.z > -4.5
  }

  /** The far bank. */
  predicate AtGoal(frog: Vec3) {
    frog.z <= -5.0
  }

  predicate AnyCarHit(frog: Vec3, cars: seq<Actor>) {
    exists i :: 0 <= i < |cars| && Collides(cars[i], frog)
  }

  predicate OnLog(frog: Vec3, logs: seq<Actor>) {
    exists i :: 0 <= i < |logs| && Rides(logs[i], frog)
  }

  /** The total x push of all logs whose ride window holds the frog. */
  function LogPush(frog: Vec3, logs: seq<Actor>): real
    decreases |logs|
  {
    if logs == [] then 0.0
    else
      var last := logs[|logs| - 1];
      LogPush(frog, logs[..|logs| - 1]) + (if Rides(last, frog) then last.speed * LogStep else 0.0)
  }

  /** The updates the car loop queues: one `setGameOver(true)` per hitting
      car, in array order, with no early exit. */
  function CarUpdates(frog: Vec3, cars: seq<Actor>): seq<Update>
    decreases |cars|
  {
    if cars == [] then []
    else
      CarUpdates(frog, cars[..|cars| - 1])
      + (if Collides(cars[|cars| - 1], frog) then [SetGameOver(true)] else [])
  }

  /** The updates the log loop queues: one x push per log that holds the frog. */
  function LogUpdates(frog: Vec3, logs: seq<Actor>): seq<Update>
    decreases |logs|
  {
    if logs == [] then []
    else
      var last := logs[|logs| - 1];
      LogUpdates(frog, logs[..|logs| - 1])
      + (if Rides(last, frog) then [ShiftFrogX(last.speed * LogStep)] else [])
  }

  /** Everything one frame queues, in the order the callback issues it:
      nothing at all once the game is over; otherwise the car hits, the log
      pushes, the drowning, and the goal's score increment and position reset. */
  function FrameUpdates(s: GameState, cars: seq<Actor>, logs: seq<Actor>): seq<Update> {
    if s.gameOver then []
    else
      CarUpdates(s.frog, cars)
      + LogUpdates(s.frog, logs)
      + (if InRiver(s.frog) && !OnLog(s.frog, logs) then [SetGameOver(true)] else [])
      + (if AtGoal(s.frog) then [IncrementScore, SetFrogPosition(Start)] else [])
  }

  /** The state once the frame's queue is committed. */
  function Evaluate(s: GameState, cars: seq<Actor>, logs: seq<Actor>): GameState {
    ApplyAll(s, FrameUpdates(s, cars, logs))
  }

  lemma AnyCarHitSnoc(frog: Vec3, cars: seq<Actor>)
    requires cars != []
    ensures AnyCarHit(frog, cars)
        <==> AnyCarHit(frog, cars[..|cars| - 1]) || Collides(cars[|cars| - 1], frog)
  {
  }

  lemma OnLogSnoc(frog: Vec3, logs: seq<Actor>)
    requires logs != []
    ensures OnLog(frog, logs)
        <==> OnLog(frog, logs[..|logs| - 1]) || Rides(logs[|logs| - 1], frog)
  {
  }

  /** Committing the car loop's queue sets game over exactly when some car,
      measured against the start-of-frame position `frog`, is within reach,
      and touches nothing else. */
  lemma {:induction false} CarUpdatesCommit(s: GameState, frog: Vec3, cars: seq<Actor>)
    ensures ApplyAll(s, CarUpdates(frog, cars)) == s.(gameOver := s.gameOver || AnyCarHit(frog, cars))
    decreases |cars|
  {
    if cars != [] {
      var front := cars[..|cars| - 1];
      var tail := if Collides(cars[|cars| - 1], frog) then [SetGameOver(true)] else [];
      CarUpdatesCommit(s, frog, front);
      ApplyAllAppend(s, CarUpdates(frog, front), tail);
      AnyCarHitSnoc(frog, cars);
      if tail != [] {
        assert tail[..0] == [];
      }
    }
  }

  /** Committing the log loop's queue moves the frog along x by the pushes of
      every log that holds the start-of-frame position `frog`, compounded, and
      touches nothing else. */
  lemma {:induction false} LogUpdatesCommit(s: GameState, frog: Vec3, logs: seq<Actor>)
    ensures ApplyAll(s, LogUpdates(frog, logs))
         == s.(frog := Vec3(s.frog.x + LogPush(frog, logs), s.frog.y, s.frog.z))
    decreases |logs|
  {
    if logs != [] {
      var front := logs[..|logs| - 1];
      var last := logs[|logs| - 1];
      var tail := if Rides(last, frog) then [ShiftFrogX(last.speed * LogStep)] else [];
      LogUpdatesCommit(s, frog, front);
      ApplyAllAppend(s, LogUpdates(frog, front), tail);
      if tail != [] {
        assert tail[..0] == [];
      }
    }
  }

  /** The log loop queues something exactly when some log holds the frog,
      and without such a log there is no push. */
  lemma {:induction false} LogUpdatesIffOnLog(frog: Vec3, logs: seq<Actor>)
    ensures LogUpdates(frog, logs) != [] <==> OnLog(frog, logs)
    ensures !OnLog(frog, logs) ==> LogPush(frog, logs) == 0.0
    decreases |logs|
  {
    if logs != [] {
      LogUpdatesIffOnLog(frog, logs[..|logs| - 1]);
      OnLogSnoc(frog, logs);
    }
  }

  /** What a committed frame does, in closed form. A frozen game stays as it
      is. Otherwise: game over exactly when a car is within reach or the frog
      is in the river with no log under it; on the far bank the score rises
      by one and the frog goes back to the start, overriding any log push;
      elsewhere the frog moves along x by the total log push. */
  lemma FrameOutcome(s: GameState, cars: seq<Actor>, logs: seq<Actor>)
    ensures s.gameOver ==> Evaluate(s, cars, logs) == s
    ensures !s.gameOver ==> Evaluate(s, cars, logs) == GameState(
      if AtGoal(s.frog) then Start else Vec3(s.frog.x + LogPush(s.frog, logs), s.frog.y, s.frog.z),
      if AtGoal(s.frog) then s.score + 1 else s.score,
      AnyCarHit(s.frog, cars) || (InRiver(s.frog) && !OnLog(s.frog, logs)))
  {
    if !s.gameOver {
      var carQ := CarUpdates(s.frog, cars);
      var logQ := LogUpdates(s.frog, logs);
      var waterQ := if InRiver(s.frog) && !OnLog(s.frog, logs) then [SetGameOver(true)] else [];
      var goalQ := if AtGoal(s.frog) then [IncrementScore, SetFrogPosition(Start)] else [];
      assert FrameUpdates(s, cars, logs) == carQ + logQ + waterQ + goalQ;
      ApplyAllAppend(s, carQ, logQ);
      ApplyAllAppend(s, carQ + logQ, waterQ);
      ApplyAllAppend(s, carQ + logQ + waterQ, goalQ);
      CarUpdatesCommit(s, s.frog, cars);
      var afterCars := ApplyAll(s, carQ);
      LogUpdatesCommit(afterCars, s.frog, logs);
      var afterLogs := ApplyAll(afterCars, logQ);
      if waterQ != [] {
        assert waterQ[..0] == [];
      }
      var afterWater := ApplyAll(afterLogs, waterQ);
      if goalQ != [] {
        assert goalQ[..1] == [IncrementScore];
        assert goalQ[..1][..0] == [];
        assert ApplyAll(afterWater, goalQ) == afterWater.(score := afterWater.score + 1, frog := Start);
      }
    }
  }

  /** Once the game is over a frame changes nothing. */
  lemma FrameFrozen(s: GameState, cars: seq<Actor>, logs: seq<Actor>)
    requires s.gameOver
    ensures Evaluate(s, cars, logs) == s
  {
    FrameOutcome(s, cars, logs);
  }

  /** A car within reach of the start-of-frame position ends the game, even
      when the same frame also reaches the goal; no car is skipped. */
  lemma FrameCarHit(s: GameState, cars: seq<Actor>, logs: seq<Actor>, i: int)
    requires !s.gameOver
    requires 0 <= i < |cars| && Collides(cars[i], s.frog)
    ensures Evaluate(s, cars, logs).gameOver
  {
    FrameOutcome(s, cars, logs);
  }

  /** In the river band without a log the frog drowns. */
  lemma FrameDrowns(s: GameState, cars: seq<Actor>, logs: seq<Actor>)
    requires !s.gameOver && InRiver(s.frog) && !OnLog(s.frog, logs)
    ensures Evaluate(s, cars, logs).gameOver
  {
    FrameOutcome(s, cars, logs);
  }

  /** On a log the water check does not fire (only a car can end the game)
      and, away from the goal, the frog is carried along x by the compounded
      pushes of the logs that hold it, with y and z unchanged. */
  lemma FrameRides(s: GameState, cars: seq<Actor>, logs: seq<Actor>)
    requires !s.gameOver && OnLog(s.frog, logs)
    ensures Evaluate(s, cars, logs).gameOver <==> AnyCarHit(s.frog, cars)
    ensures !AtGoal(s.frog) ==>
      Evaluate(s, cars, logs).frog == Vec3(s.frog.x + LogPush(s.frog, logs), s.frog.y, s.frog.z)
  {
    FrameOutcome(s, cars, logs);
  }

  /** Off the river and out of every car's reach, neither the frog's
      position (away from the goal) nor the game-over flag changes. */
  lemma FrameSafe(s: GameState, cars: seq<Actor>, logs: seq<Actor>)
    requires !s.gameOver && !AnyCarHit(s.frog, cars) && !InRiver(s.frog) && !OnLog(s.frog, logs)
    requires !AtGoal(s.frog)
    ensures Evaluate(s, cars, logs) == s
  {
    FrameOutcome(s, cars, logs);
    LogUpdatesIffOnLog(s.frog, logs);
  }

  /** Reaching z <= -5 scores exactly one point and puts the frog back at the
      start, whatever logs pushed it in the same frame. */
  lemma FrameGoal(s: GameState, cars: seq<Actor>, logs: seq<Actor>)
    requires !s.gameOver && AtGoal(s.frog)
    ensures Evaluate(s, cars, logs).score == s.score + 1
    ensures Evaluate(s, cars, logs).frog == Start
  {
    FrameOutcome(s, cars, logs);
  }

  /** A frame raises the score by one on the goal and leaves it alone
      otherwise; it never lowers it. */
  lemma FrameScore(s: GameState, cars: seq<Actor>, logs: seq<Actor>)
    ensures Evaluate(s, cars, logs).score == if !s.gameOver && AtGoal(s.frog) then s.score + 1 else s.score
    ensures Evaluate(s, cars, logs).score >= s.score
  {
    FrameOutcome(s, cars, logs);
  }
}
