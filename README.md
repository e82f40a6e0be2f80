# 3D Frogger game logic in Dafny

This project models the game logic of `frogger-3d.tsx`, a small React and
three.js Frogger clone. The frog crosses a road of cars and a river of logs
and scores a point for each crossing. Rendering is not modelled. What is
modelled is the state the components keep and the handlers that change it:

- `Geometry` holds positions as `Vec3` values with exact `real`
  coordinates, and the `Math` helpers (`abs`, `max`, `min`, and
  `max(lo, min(hi, v))` as a clamp). `distanceTo(...) < 0.75` is
  decided on the squared distance. The lemma `DistanceBelowIffSquareBelow`
  justifies that.
- `Input` holds the `Frog` component's keydown rule `KeyMove`. An arrow key
  moves one unit along z (up goes towards the far bank at -z) or along x.
  The result is then clamped to x in [-4, 4] and z in [-5, 5].
- `Lanes` holds the car and log records and the `LaneMesh` class. A
  `LaneMesh` is the mesh a `Car` or `Log` component moves each frame: x
  grows by `speed * delta`, past +5 it jumps to -5, and past -5 it jumps
  to +5. The `Log` callback (frogger-3d.tsx:73-82) is the same code as the
  `Car` callback (52-61), so one class models both.
- `Hooks` models `Game`'s three state hooks as `GameState`. Each setter call
  is an `Update`, and a queue of updates is applied first to last
  (`ApplyAll`). Functional updaters (`prev => prev + 1`, and
  `prev => new Vector3(prev.x + dx, ...)`) get their own constructors, so
  several log pushes in one frame compound.
- `Evaluator` models `Game`'s frame callback as the queue it issues
  (`FrameUpdates`). Every check reads the start-of-frame state. The
  committed result is `Evaluate`. `FrameOutcome` gives that result in
  closed form, and the other lemmas state the game rules from it.
- `Frogger` ties it together. `Session` is the pair of the `Frog`
  component's own position (`frogLocal`) and `Game`'s hooks. `Next` and
  `Run` take events (keydown, frame, "Play Again"). A "Play Again" click
  resets only a finished game, because the box is rendered only then
  (frogger-3d.tsx:169-174). The class `Game` updates its fields in place.
  `HandleKeyDown`, `OnFrame` and `ClickPlayAgain` are proved equal to
  `Next`. `HandleFrogMove` is the `onMove` step inside a key, and
  `ResetGame` is `resetGame` itself, which resets from any state.

The model keeps two frog positions, as the source does. The key handler
writes both. Log pushes, the goal reset and `resetGame` write only `Game`'s
copy.

Points where the code behaves differently from what a reader might expect:

- Cars and logs keep moving after game over. Their frame callbacks do not
  look at `gameOver`.
- A car hit does not stop the other checks. The car loop has no early
  exit, and the goal check still runs in the same frame.
- Only reaching the goal moves the frog back to the start. A hit or a
  drowning leaves it where it is.
- The checks read the fixed positions held in `carsRef` and `logsRef`, not
  the moving meshes.
- A key moves the `Frog`-local position. `Game` gets the new position
  through `onMove`. The two are not one shared position.

## Model

| member | source | states |
|---|---|---|
| `Geometry.Abs` | frogger-3d.tsx:123 | `Math.abs`: non-negative and equal to v or -v |
| `Geometry.Max` | frogger-3d.tsx:27-28 | `Math.max`: at least both arguments and equal to one of them |
| `Geometry.Min` | frogger-3d.tsx:27-28 | `Math.min`: at most both arguments and equal to one of them |
| `Geometry.SqDistance` | frogger-3d.tsx:113-114 | the square of `carPos.distanceTo(frogPosition)`, summed over x, y and z; never negative |
| `Geometry.Clamp` | frogger-3d.tsx:27-28 | `Math.max(lo, Math.min(hi, v))` lies in [lo, hi]; it equals v inside the range, lo below it and hi above it |
| `Geometry.DistanceBelowIffSquareBelow` | frogger-3d.tsx:114 | for a non-negative distance d, `d < 0.75` holds exactly when `d*d < 0.75*0.75`, so the squared-distance test decides the source's distance test |
| `Evaluator.CollidesIffDistanceBelow` | frogger-3d.tsx:113-114 | for the car's actual distance d from the frog (d >= 0, d*d the squared distance), `Collides` holds exactly when `d < 0.75` |
| `Input.KeyMove` | frogger-3d.tsx:11-28 | the position after any key, from any start, is on the board (x in [-4,4], z in [-5,5]) and keeps y |
| `Input.KeyMoveOnBoard` | frogger-3d.tsx:13-28 | from an on-board position: ArrowUp gives z-1 and ArrowDown z+1, each stopped at the z edge; ArrowLeft gives x-1 and ArrowRight x+1, each stopped at the x edge; the other coordinate is kept, and any other key leaves the position unchanged |
| `Input.KeyMoveOneAxis` | frogger-3d.tsx:13-26 | on the board a key changes at most one of x and z, by at most one unit in total |
| `Input.OppositeKeysCancel` | frogger-3d.tsx:14-28 | up then down, down then up, left then right, and right then left each return to the start position unless the first move hit an edge |
| `Lanes.LaneMesh.OnFrame` | frogger-3d.tsx:52-61 | after a frame x lies in [-5,5] for any start, speed and delta; if x + speed*delta is inside the lane it becomes x, above 5 it becomes exactly -5, below -5 exactly 5; y and z do not change |
| `Lanes.LaneMesh.constructor` | frogger-3d.tsx:64 | a mesh starts at the position it is rendered with and keeps its speed |
| `Hooks.ApplyAll` | frogger-3d.tsx:92-94 | defines React's commit of queued setter calls: applied one after the other, first call first |
| `Hooks.ApplyUpdate` | frogger-3d.tsx:115-148 | defines one setter call: `setGameOver(flag)` (:115, :131, :146), `setScore(0)` (:147), `setScore(prev => prev + 1)` (:136), `setFrogPosition(pos)` (:137, :142, :148) and the functional push `prev => new Vector3(prev.x + dx, prev.y, prev.z)` (:125); each touches only its own hook |
| `Evaluator.Start` | frogger-3d.tsx:92 | the start position (0, 0.5, 5), used again by the goal reset (:137) and by `resetGame` (:148) |
| `Evaluator.LogStep` | frogger-3d.tsx:125 | the fixed 0.016 factor of a log push, independent of the frame time |
| `Evaluator.Collides` | frogger-3d.tsx:114 | defines a car hit: squared 3-D distance, y included, below 0.75 * 0.75 |
| `Evaluator.Rides` | frogger-3d.tsx:123 | defines a log's ride window: abs(dz) < 0.25 and abs(dx) < 1 |
| `Evaluator.InRiver` | frogger-3d.tsx:130 | defines the river band: z strictly between -4.5 and -1.5 |
| `Evaluator.AtGoal` | frogger-3d.tsx:135 | defines the far bank: z <= -5 |
| `Evaluator.AnyCarHit` | frogger-3d.tsx:112-117 | "some car hits": there is an index of the car list whose car collides with the frog |
| `Evaluator.OnLog` | frogger-3d.tsx:120-124 | the final value of the `onLog` flag: there is an index of the log list whose log holds the frog |
| `Evaluator.CarUpdates` | frogger-3d.tsx:112-117 | defines the car loop's queue: one `setGameOver(true)` per hitting car, in array order, with no early exit |
| `Evaluator.LogUpdates` | frogger-3d.tsx:121-127 | defines the log loop's queue: one functional x push of `speed * 0.016` per log that holds the frog |
| `Evaluator.LogPush` | frogger-3d.tsx:121-127 | defines the total push: the sum of `speed * 0.016` over the logs that hold the frog |
| `Evaluator.FrameUpdates` | frogger-3d.tsx:108-138 | defines the whole frame's queue: nothing once the game is over, otherwise car hits, log pushes, drowning, then the goal's increment and position reset |
| `Evaluator.Evaluate` | frogger-3d.tsx:108-138 | defines the committed frame: the frame's queue applied to the start-of-frame state |
| `Evaluator.CarUpdatesCommit` | frogger-3d.tsx:112-117 | the car loop sets game over exactly when some car (out of all of them, none skipped) is within reach of the start-of-frame position, and changes nothing else |
| `Evaluator.LogUpdatesCommit` | frogger-3d.tsx:120-127 | the log loop's pushes move the frog's x by the sum of `speed * 0.016` over every log that holds the start-of-frame position; y, z, score and game over do not change |
| `Evaluator.LogUpdatesIffOnLog` | frogger-3d.tsx:120-127 | the log loop queues a push exactly when `onLog` becomes true; with no matching log the total push is zero |
| `Evaluator.FrameOutcome` | frogger-3d.tsx:108-138 | a frame with game over changes nothing. Otherwise game over is set exactly when a car is in reach or the frog is in the river band with no log. On the far bank the score rises by 1 and the frog goes to (0, 0.5, 5), overriding log pushes. Elsewhere x moves by the total log push |
| `Evaluator.FrameFrozen` | frogger-3d.tsx:109 | when game over is set, a frame leaves position, score and flag unchanged |
| `Evaluator.FrameCarHit` | frogger-3d.tsx:112-117 | any one car within distance 0.75 of the start-of-frame position ends the game |
| `Evaluator.FrameDrowns` | frogger-3d.tsx:129-132 | z strictly inside (-4.5, -1.5) with no log in its ride window ends the game |
| `Evaluator.FrameRides` | frogger-3d.tsx:120-132 | with a matching log the water check does not fire, so game over is set exactly when a car hit; away from the goal x moves by the compounded log pushes while y and z stay |
| `Evaluator.FrameSafe` | frogger-3d.tsx:108-138 | out of every car's reach, out of the river, not on a log and not at the goal, a frame changes nothing |
| `Evaluator.FrameGoal` | frogger-3d.tsx:134-138 | start-of-frame z <= -5 raises the score by exactly 1 and puts `Game`'s frog at (0, 0.5, 5) |
| `Evaluator.FrameScore` | frogger-3d.tsx:135-136 | a frame adds 1 to the score exactly when the game is running and the frog is at the goal, and otherwise leaves it; it never lowers it |
| `Frogger.Reset` | frogger-3d.tsx:145-149 | defines `resetGame` as its three queued setters applied in order |
| `Frogger.InitialCars` | frogger-3d.tsx:95-101 | the five cars of `carsRef` with their positions and signed speeds; the checks read these fixed positions |
| `Frogger.InitialLogs` | frogger-3d.tsx:102-106 | the three logs of `logsRef` with their positions and signed speeds |
| `Frogger.ResetUpdates` | frogger-3d.tsx:146-148 | the three updates `resetGame` queues: game over false, score 0, frog at (0, 0.5, 5) |
| `Frogger.ResetOutcome` | frogger-3d.tsx:145-149 | `resetGame` from any state gives game over false, score 0 and the frog at (0, 0.5, 5) |
| `Frogger.ResetIdempotent` | frogger-3d.tsx:145-149 | resetting twice gives the same state as resetting once |
| `Frogger.Next` | frogger-3d.tsx:11-174 | defines one event: a key sets both positions to the key move of the `Frog`-local one; a frame commits `Evaluate`; a "Play Again" click resets a finished game and does nothing in a running one |
| `Frogger.Run` | frogger-3d.tsx:91-149 | defines a sequence of events applied first to last |
| `Frogger.InitialInv` | frogger-3d.tsx:8-94 | the first render satisfies the session invariant: score 0 and the `Frog`-local position on the board |
| `Frogger.NextKeepsInv` | frogger-3d.tsx:27-30 | every event keeps the score non-negative and the `Frog`-local position on the board; after a key `Game`'s position equals the new `Frog`-local one |
| `Frogger.RunKeepsInv` | frogger-3d.tsx:91-149 | any sequence of keys, frames and resets from an invariant session keeps the score non-negative and the `Frog`-local frog on the board |
| `Frogger.ScoreNeverDrops` | frogger-3d.tsx:135-147 | with no "Play Again" click among the events the score never decreases |
| `Frogger.NextScore` | frogger-3d.tsx:135-174 | from a running game no event lowers the score; the score drops only when "Play Again" is clicked on a finished game, which yields (Start, 0, false) |
| `Frogger.GameOverPersists` | frogger-3d.tsx:109-174 | from a finished game, any keys and frames without a "Play Again" click keep the game over and the score unchanged |
| `Frogger.FramesFrozen` | frogger-3d.tsx:109 | while the game is over, any number of frames leaves the whole session unchanged |
| `Frogger.StartIsSafe` | frogger-3d.tsx:92-106 | at (0, 0.5, 5) no initial car is within reach and no initial log holds the frog, and the start is neither river nor goal |
| `Frogger.IdleFramesStayInitial` | frogger-3d.tsx:92-138 | with the initial cars and logs and no key pressed, any number of frames leaves game over false, score 0 and both positions at the start |
| `Frogger.GoalRescoresAfterKey` | frogger-3d.tsx:135-137 | after a crossing the `Frog`-local position still has z = -5; any key but ArrowDown followed by one frame scores again, and the local z stays -5 |
| `Frogger.KeyDiscardsPushes` | frogger-3d.tsx:125-142 | after a frame and then a key, both frog positions are the key move of the old `Frog`-local position, so the frame's log pushes are lost |
| `Frogger.Game.Dispatch` | frogger-3d.tsx:92-94 | one queued setter call applied to the hook fields, as `ApplyUpdate` defines it; the `Frog`-local position is not touched |
| `Frogger.Game.constructor` | frogger-3d.tsx:92-106 | the first render: both positions at (0, 0.5, 5), score 0, not over, and the fixed car and log lists |
| `Frogger.Game.HandleFrogMove` | frogger-3d.tsx:141-143 | `Game`'s position becomes the given one; nothing else changes and the session invariant is kept |
| `Frogger.Game.HandleKeyDown` | frogger-3d.tsx:11-30 | the handler's copy, switch and clamp give `KeyMove` of the old `Frog`-local position; it is stored locally and passed to `Game`; score and flag stay; this also holds after game over |
| `Frogger.Game.OnFrame` | frogger-3d.tsx:108-138 | the loops over the cars and the logs queue exactly `FrameUpdates`, reading only the start-of-frame state; committing the queue gives `Evaluate`; the `Frog`-local position stays and the invariant holds |
| `Frogger.Game.ResetGame` | frogger-3d.tsx:145-149 | from any state: game over false, score 0, `Game`'s frog at (0, 0.5, 5); the `Frog`-local position is not touched |
| `Frogger.Game.ClickPlayAgain` | frogger-3d.tsx:169-174 | a click on the box, which exists only while the game is over: it then resets as `ResetGame`, and otherwise changes nothing; proved equal to `Next` |

## Behaviour of note

These follow from the code as written, and the model keeps them:

- Scoring more than once per crossing. The goal reset moves only `Game`'s
  frog. The `Frog`-local position stays at z = -5. The next key (any key
  except ArrowDown, even one that is not an arrow) puts `Game`'s frog back
  at z = -5, and the next frame scores again. See `GoalRescoresAfterKey`.
- Log pushes do not move the `Frog`-local position. The next key press
  therefore drops every push: `Game`'s position becomes the `Frog`-local
  position moved by one unit. See `KeyDiscardsPushes`.
- `resetGame` does not bring the `Frog`-local position back to the start.
  After a reset, the first key moves from wherever the frog was before the
  reset.

## Left out

- Rendering is left out: meshes, materials, `Text`, `Canvas`, lights, the
  camera and `OrbitControls` (frogger-3d.tsx:42-46, 63-67, 84-88, 151-201).
  These are bindings to a rendering library. Only the condition under which
  the "Play Again" box exists is modelled, in `ClickPlayAgain`.
- The keydown subscription and unsubscription (frogger-3d.tsx:32-34) and
  the `useFrame` registrations are left out. The handlers are plain
  methods, and each event is one call.
- Copying the `Frog`-local position onto its mesh every frame
  (frogger-3d.tsx:36-40) is left out. It only syncs the display.
- The `if (ref.current)` guard in the `Car` and `Log` callbacks
  (frogger-3d.tsx:53, 74) is left out. `LaneMesh.OnFrame` assumes the mesh
  is mounted.
- React's scheduling and batching are abstracted. A frame reads the state
  once, queues its updates and commits them in call order. A keydown is
  applied as one step between frames.
- The frame time `delta` is a parameter of `LaneMesh.OnFrame`, because the
  clock belongs to the host.
- IEEE-754 rounding and `Math.sqrt` are left out. Coordinates are exact
  reals, and the distance test is a squared-distance comparison.
