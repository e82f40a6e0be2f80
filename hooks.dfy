/** The three React state hooks of `Game` (`frogPosition`, `score`,
    `gameOver`) and the updates their setters queue. A setter does not change
    the state at once: it queues an update, and the queue is applied in call
    order when React commits. */
module Hooks {
  import opened Geometry

  datatype GameState = GameState(frog: Vec3, score: int, gameOver: bool)

  datatype Update =
    | SetGameOver(flag: bool)   // setGameOver(flag)
    | SetScore(value: int)      // setScore(value)
    | IncrementScore            // setScore(prev => prev + 1)
    | SetFrogPosition(pos: Vec3) // setFrogPosition(pos)
    | ShiftFrogX(dx: real)      // setFrogPosition(prev => new Vector3(prev.x + dx, prev.y, prev.z))

  /** The state after one queued update is applied to `s`. */
  function ApplyUpdate(s: GameState, u: Update): GameState {
    match u
    case SetGameOver(flag) => s.(gameOver := flag)
    case SetScore(value) => s.(score := value)
    case IncrementScore => s.(score := s.score + 1)
    case SetFrogPosition(pos) => s.(frog := pos)
    case ShiftFrogX(dx) => s.(frog := Vec3(s.frog.x + dx, s.frog.y, s.frog.z))
  }

  /** The state after the queue `us` is applied to `s`, first update first. */
  function ApplyAll(s: GameState, us: seq<Update>): GameState
    decreases |us|
  {
    if us == [] then s else ApplyUpdate(ApplyAll(s, us[..|us| - 1]), us[|us| - 1])
  }

  /** Applying two queues one after the other is applying their concatenation. */
  lemma {:induction false} ApplyAllAppend(s: GameState, a: seq<Update>, b: seq<Update>)
    ensures ApplyAll(s, a + b) == ApplyAll(ApplyAll(s, a), b)
    decreases |b|
  {
    if b == [] {
      assert a + b == a;
    } else {
      var front := b[..|b| - 1];
      assert (a + b)[..|a + b| - 1] == a + front;
      assert (a + b)[|a + b| - 1] == b[|b| - 1];
      ApplyAllAppend(s, a, front);
    }
  }
}
