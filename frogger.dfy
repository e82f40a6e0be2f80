/** The game as one state machine: the `Frog` component's own position and
    the three hooks of `Game`, driven by keydown events, frames and the
    "Play Again" reset. */
module Frogger {
  import opened Geometry
  import opened Input
  import opened Lanes
  import opened Hooks
  import opened Evaluator

  /** The cars `Game` keeps in `carsRef`; the checks read these positions. */
  const InitialCars: seq<Actor> := [
    Actor(Vec3(-3.0, 0.25, 3.0), 2.0),
    Actor(Vec3(2.0, 0.25, 2.0), -3.0),
    Actor(Vec3(-1.0, 0.25, 1.0), 2.5),
    Actor(Vec3(3.0, 0.25, 0.0), -2.0),
    Actor(Vec3(0.0, 0.25, -1.0), 3.0)
  ]

  /** The logs `Game` keeps in `logsRef`. */
  const InitialLogs: seq<Actor> := [
    Actor(Vec3(-2.0, 0.25, -2.0), 1.0),
    Actor(Vec3(2.0, 0.25, -3.0), -1.5),
    Actor(Vec3(-3.0, 0.25, -4.0), 1.2)
  ]

  /** What `resetGame` queues, in order. */
  const ResetUpdates: seq<Update> := [SetGameOver(false), SetScore(0), SetFrogPosition(Start)]

  function Reset(s: GameState): GameState {
    ApplyAll(s, ResetUpdates)
  }

  /** From any state `resetGame` gives a fresh game: not over, no score, the
      frog at the start. */
  lemma ResetOutcome(s: GameState)
    ensures Reset(s) == GameState(Start, 0, false)
  {
    var a := ApplyUpdate(s, SetGameOver(false));
    var b := ApplyUpdate(a, SetScore(0));
    assert ResetUpdates[..1] == [SetGameOver(false)];
    assert ResetUpdates[..1][..0] == [];
    assert ApplyAll(s, ResetUpdates[..1]) == a;
    assert ResetUpdates[..2][..1] == ResetUpdates[..1];
    assert ApplyAll(s, ResetUpdates[..2]) == b;
  }

  /** Resetting twice is resetting once. */
  lemma ResetIdempotent(s: GameState)
    ensures Reset(Reset(s)) == Reset(s)
  {
    ResetOutcome(s);
    ResetOutcome(Reset(s));
  }

  /** The whole game: `frogLocal` is the `Frog` component's own `frogPos`
      hook, `game` the hooks of `Game`. The two positions are separate
      states: a key sets both, the frame and the reset only the second. */
  datatype Session = Session(frogLocal: Vec3, game: GameState)

  /** What drives the game: a keydown with its `key`, a rendered frame, a
      click on "Play Again". The "Play Again" box is rendered only while the
      game is over, so a click on it does nothing in a running game. */
  datatype Event = KeyDown(key: string) | Frame | PlayAgain

  const Initial: Session := Session(Start, GameState(Start, 0, false))

  function Next(w: Session, e: Event, cars: seq<Actor>, logs: seq<Actor>): Session {
    match e
    case KeyDown(key) =>
      var p := KeyMove(w.frogLocal, key);
      Session(p, ApplyUpdate(w.game, SetFrogPosition(p)))
    case Frame => Session(w.frogLocal, Evaluate(w.game, cars, logs))
    case PlayAgain => if w.game.gameOver then Session(w.frogLocal, Reset(w.game)) else w
  }

  function Run(w: Session, es: seq<Event>, cars: seq<Actor>, logs: seq<Actor>): Session
    decreases |es|
  {
    if es == [] then w else Run(Next(w, es[0], cars, logs), es[1..], cars, logs)
  }

  /** What every reachable session satisfies: the score is not negative and
      the `Frog`-local position is on the board. */
  predicate Inv(w: Session) {
    w.game.score >= 0 && OnBoard(w.frogLocal)
  }

  lemma InitialInv()
    ensures Inv(Initial)
  {
  }

  /** Every event keeps the invariant; a key also makes `Game`'s position
      equal to the new `Frog`-local one. */
  lemma NextKeepsInv(w: Session, e: Event, cars: seq<Actor>, logs: seq<Actor>)
    requires Inv(w)
    ensures Inv(Next(w, e, cars, logs))
    ensures e.KeyDown? ==> Next(w, e, cars, logs).game.frog == Next(w, e, cars, logs).frogLocal
  {
    match e
    case KeyDown(_) =>
    case Frame => FrameScore(w.game, cars, logs);
    case PlayAgain => if w.game.gameOver { ResetOutcome(w.game); }
  }

  lemma {:induction false} RunKeepsInv(w: Session, es: seq<Event>, cars: seq<Actor>, logs: seq<Actor>)
    requires Inv(w)
    ensures Inv(Run(w, es, cars, logs))
    decreases |es|
  {
    if es != [] {
      NextKeepsInv(w, es[0], cars, logs);
      RunKeepsInv(Next(w, es[0], cars, logs), es[1..], cars, logs);
    }
  }

  /** Without a reset the score never goes down. */
  lemma {:induction false} ScoreNeverDrops(w: Session, es: seq<Event>, cars: seq<Actor>, logs: seq<Actor>)
    requires PlayAgain !in es
    ensures Run(w, es, cars, logs).game.score >= w.game.score
    decreases |es|
  {
    if es != [] {
      assert es[0] in es;
      assert forall e :: e in es[1..] ==> e in es;
      if es[0] == Frame {
        FrameScore(w.game, cars, logs);
      }
      ScoreNeverDrops(Next(w, es[0], cars, logs), es[1..], cars, logs);
    }
  }

  /** While the game is running no event lowers the score; the score drops
      only when "Play Again" is clicked on a finished game, and then to 0. */
  lemma NextScore(w: Session, e: Event, cars: seq<Actor>, logs: seq<Actor>)
    ensures !w.game.gameOver ==> Next(w, e, cars, logs).game.score >= w.game.score
    ensures Next(w, e, cars, logs).game.score < w.game.score ==> e == PlayAgain && w.game.gameOver
    ensures e == PlayAgain && w.game.gameOver ==> Next(w, e, cars, logs).game == GameState(Start, 0, false)
  {
    if e == Frame {
      FrameScore(w.game, cars, logs);
    } else if e == PlayAgain && w.game.gameOver {
      ResetOutcome(w.game);
    }
  }

  /** "Play Again" is the only way out of game over: whatever keys and frames
      arrive, the game stays over and the score stays as it was. */
  lemma {:induction false} GameOverPersists(w: Session, es: seq<Event>, cars: seq<Actor>, logs: seq<Actor>)
    requires w.game.gameOver && PlayAgain !in es
    ensures Run(w, es, cars, logs).game.gameOver
    ensures Run(w, es, cars, logs).game.score == w.game.score
    decreases |es|
  {
    if es != [] {
      assert es[0] in es;
      assert forall e :: e in es[1..] ==> e in es;
      if es[0] == Frame {
        FrameFrozen(w.game, cars, logs);
      }
      GameOverPersists(Next(w, es[0], cars, logs), es[1..], cars, logs);
    }
  }

  /** While the game is over, frames change nothing; only a reset (or a key,
      which moves both frog positions) changes the session. */
  lemma {:induction false} FramesFrozen(w: Session, n: nat, cars: seq<Actor>, logs: seq<Actor>)
    requires w.game.gameOver
    ensures Run(w, seq(n, _ => Frame), cars, logs) == w
    decreases n
  {
    if n > 0 {
      FrameFrozen(w.game, cars, logs);
      assert seq(n, _ => Frame)[1..] == seq(n - 1, _ => Frame);
      FramesFrozen(w, n - 1, cars, logs);
    }
  }

  /** At the start no car is within reach, no log holds the frog, and it is
      neither in the river nor on the far bank. */
  lemma StartIsSafe()
    ensures !AnyCarHit(Start, InitialCars) && !OnLog(Start, InitialLogs)
    ensures !InRiver(Start) && !AtGoal(Start)
  {
    forall i | 0 <= i < |InitialCars|
      ensures !Collides(InitialCars[i], Start)
    {
      assert InitialCars[i].position.z <= 3.0;
    }
    forall i | 0 <= i < |InitialLogs|
      ensures !Rides(InitialLogs[i], Start)
    {
      assert InitialLogs[i].position.z <= -2.0;
    }
  }

  /** With no keys pressed the game just sits at the start: any number of
      frames keeps it not over, with score 0. */
  lemma {:induction false} IdleFramesStayInitial(n: nat)
    ensures Run(Initial, seq(n, _ => Frame), InitialCars, InitialLogs) == Initial
    decreases n
  {
    if n > 0 {
      StartIsSafe();
      FrameSafe(Initial.game, InitialCars, InitialLogs);
      assert seq(n, _ => Frame)[1..] == seq(n - 1, _ => Frame);
      IdleFramesStayInitial(n - 1);
    }
  }

  /** The frame and the reset move only `Game`'s frog: after reaching the far
      bank, the `Frog`-local position stays at z = -5, so any key but
      ArrowDown puts `Game`'s frog back on the far bank and the next frame
      scores again. */
  lemma GoalRescoresAfterKey(w: Session, key: string, cars: seq<Actor>, logs: seq<Actor>)
    requires OnBoard(w.frogLocal) && w.frogLocal.z == -5.0 && !w.game.gameOver
    requires key != "ArrowDown"
    ensures Run(w, [KeyDown(key), Frame], cars, logs).game.score == w.game.score + 1
    ensures Run(w, [KeyDown(key), Frame], cars, logs).frogLocal.z == -5.0
  {
    var w1 := Next(w, KeyDown(key), cars, logs);
    KeyMoveOnBoard(w.frogLocal, key);
    assert w1.game.frog.z == -5.0;
    FrameGoal(w1.game, cars, logs);
    assert [KeyDown(key), Frame][1..] == [Frame];
    assert [Frame][1..] == [];
  }

  /** A key press replaces `Game`'s position by the moved `Frog`-local one,
      so whatever the logs pushed in the frame before is dropped. */
  lemma KeyDiscardsPushes(w: Session, key: string, cars: seq<Actor>, logs: seq<Actor>)
    ensures Run(w, [Frame, KeyDown(key)], cars, logs).game.frog == KeyMove(w.frogLocal, key)
    ensures Run(w, [Frame, KeyDown(key)], cars, logs).frogLocal == KeyMove(w.frogLocal, key)
  {
    var w1 := Next(w, Frame, cars, logs);
    var w2 := Next(w1, KeyDown(key), cars, logs);
    assert [Frame, KeyDown(key)][1..] == [KeyDown(key)];
    assert [KeyDown(key)][1..] == [];
    assert Run(w1, [KeyDown(key)], cars, logs) == Run(w2, [], cars, logs);
    assert w1.frogLocal == w.frogLocal;
  }

  /** The game, as `Game` and its `Frog` child hold it. `cars` and `logs` are
      the never-reassigned contents of `carsRef` and `logsRef`. */
  class Game {
    var frogLocal: Vec3
    var frogPosition: Vec3
    var score: int
    var gameOver: bool
    const cars: seq<Actor>
    const logs: seq<Actor>

    function State(): GameState
      reads this
    {
      GameState(frogPosition, score, gameOver)
    }

    function Snapshot(): Session
      reads this
    {
      Session(frogLocal, State())
    }

    ghost predicate Valid()
      reads this
    {
      Inv(Snapshot())
    }

    /** The first render: both positions at the start, the fixed lanes. */
    constructor ()
      ensures Valid()
      ensures Snapshot() == Initial
      ensures cars == InitialCars && logs == InitialLogs
    {
      frogLocal := Start;
      frogPosition := Start;
      score := 0;
      gameOver := false;
      cars := InitialCars;
      logs := InitialLogs;
    }

    /** React applying one queued update when it commits; this is React's
        internal step, not a handler of the game, and none of the game's
        handlers queues a negative score. */
    method Dispatch(u: Update)
      modifies this
      ensures State() == ApplyUpdate(old(State()), u)
      ensures frogLocal == old(frogLocal)
    {
      match u
      case SetGameOver(flag) => gameOver := flag;
      case SetScore(value) => score := value;
      case IncrementScore => score := score + 1;
      case SetFrogPosition(pos) => frogPosition := pos;
      case ShiftFrogX(dx) => frogPosition := Vec3(frogPosition.x + dx, frogPosition.y, frogPosition.z);
    }

    /** `onMove`: `Game` takes the `Frog`'s new position. */
    method HandleFrogMove(newPos: Vec3)
      requires Valid()
      modifies this
      ensures Valid()
      ensures frogPosition == newPos
      ensures frogLocal == old(frogLocal) && score == old(score) && gameOver == old(gameOver)
    {
      Dispatch(SetFrogPosition(newPos));
    }

    /** The `Frog`'s keydown handler: copy the local position, move it by the
        key, clamp it to the board, store it locally and pass it to `Game`.
        It runs whether or not the game is over. */
    method HandleKeyDown(key: string)
      requires Valid()
      modifies this
      ensures Valid()
      ensures Snapshot() == Next(old(Snapshot()), KeyDown(key), cars, logs)
      ensures frogLocal == KeyMove(old(frogLocal), key) && frogPosition == frogLocal
      ensures score == old(score) && gameOver == old(gameOver)
    {
      var newPos := frogLocal;
      if key == "ArrowUp" {
        newPos := newPos.(z := newPos.z - 1.0);
      } else if key == "ArrowDown" {
        newPos := newPos.(z := newPos.z + 1.0);
      } else if key == "ArrowLeft" {
        newPos := newPos.(x := newPos.x - 1.0);
      } else if key == "ArrowRight" {
        newPos := newPos.(x := newPos.x + 1.0);
      }
      newPos := newPos.(x := Max(-4.0, Min(4.0, newPos.x)));
      newPos := newPos.(z := Max(-5.0, Min(5.0, newPos.z)));
      frogLocal := newPos;
      HandleFrogMove(newPos);
    }

    /** `Game`'s frame callback. All checks read the start-of-frame state and
        only queue updates; the queue is committed at the end. */
    method OnFrame()
      requires Valid()
      modifies this
      ensures Valid()
      ensures Snapshot() == Next(old(Snapshot()), Frame, cars, logs)
      ensures State() == Evaluate(old(State()), cars, logs)
      ensures frogLocal == old(frogLocal)
    {
      if gameOver {
        return;
      }
      ghost var s0 := State();
      var frog := frogPosition;
      var pending: seq<Update> := [];

      for i := 0 to |cars|
        invariant pending == CarUpdates(frog, cars[..i])
        invariant unchanged(this)
      {
        if Collides(cars[i], frog) {
          pending := pending + [SetGameOver(true)];
        }
        assert cars[..i + 1][..i] == cars[..i];
      }
      assert cars[..|cars|] == cars;
      ghost var carQ := pending;

      var onLog := false;
      for j := 0 to |logs|
        invariant pending == carQ + LogUpdates(frog, logs[..j])
        invariant onLog <==> OnLog(frog, logs[..j])
        invariant unchanged(this)
      {
        assert logs[..j + 1][..j] == logs[..j];
        OnLogSnoc(frog, logs[..j + 1]);
        if Rides(logs[j], frog) {
          onLog := true;
          pending := pending + [ShiftFrogX(logs[j].speed * LogStep)];
        }
      }
      assert logs[..|logs|] == logs;

      if InRiver(frog) && !onLog {
        pending := pending + [SetGameOver(true)];
      }
      if AtGoal(frog) {
        pending := pending + [IncrementScore, SetFrogPosition(Start)];
      }
      assert pending == FrameUpdates(s0, cars, logs);
      assert pending[..0] == [];

      for k := 0 to |pending|
        invariant State() == ApplyAll(s0, pending[..k])
        invariant frogLocal == old(frogLocal)
      {
        Dispatch(pending[k]);
        assert pending[..k + 1][..k] == pending[..k];
      }
      assert pending[..|pending|] == pending;
      FrameScore(s0, cars, logs);
    }

    /** "Play Again": clear game over, zero the score, put `Game`'s frog back
        at the start. The `Frog`-local position is not touched. */
    method ResetGame()
      requires Valid()
      modifies this
      ensures Valid()
      ensures !gameOver && score == 0 && frogPosition == Start
      ensures frogLocal == old(frogLocal)
    {
      ghost var s0 := State();
      Dispatch(SetGameOver(false));
      Dispatch(SetScore(0));
      Dispatch(SetFrogPosition(Start));
      ResetOutcome(s0);
    }

    /** A click on the "Play Again" box, which is rendered only while the
        game is over. */
    method ClickPlayAgain()
      requires Valid()
      modifies this
      ensures Valid()
      ensures Snapshot() == Next(old(Snapshot()), PlayAgain, cars, logs)
      ensures old(gameOver) ==> !gameOver && score == 0 && frogPosition == Start
      ensures !old(gameOver) ==> Snapshot() == old(Snapshot())
    {
      if gameOver {
        ghost var s0 := State();
        ResetGame();
        ResetOutcome(s0);
      }
    }
  }
}
