/** The key handler of the `Frog` component: an arrow key moves the frog one
    unit along z (up is towards the far bank, i.e. towards -z) or x, and the
    result is clamped to the board. */
module Input {
  import opened Geometry

  /** The box the key handler clamps every move into: x in [-4, 4], z in [-5, 5]. */
  predicate OnBoard(p: Vec3) {
    -4.0 <= p.x <= 4.0 && -5.0 <= p.z <= 5.0
  }

  predicate IsArrow(key: string) {
    key == "ArrowUp" || key == "ArrowDown" || key == "ArrowLeft" || key == "ArrowRight"
  }

  /** The position a keydown with `key` produces from `pos`: the key's unit
      offset, then the clamp onto the board. Keys other than the four arrows
      have a zero offset. */
  function KeyMove(pos: Vec3, key: string): (r: Vec3)
    ensures OnBoard(r)
    ensures r.y == pos.y
  {
    var dx := if key == "ArrowLeft" then -1.0 else if key == "ArrowRight" then 1.0 else 0.0;
    var dz := if key == "ArrowUp" then -1.0 else if key == "ArrowDown" then 1.0 else 0.0;
    Vec3(Clamp(-4.0, 4.0, pos.x + dx), pos.y, Clamp(-5.0, 5.0, pos.z + dz))
  }

  /** From a position on the board, each arrow key moves along its own axis
      by one unit unless the edge stops it first, the other axis and y stay,
      and any other key leaves the position as it is. */
  lemma KeyMoveOnBoard(pos: Vec3, key: string)
    requires OnBoard(pos)
    ensures key == "ArrowUp" ==> KeyMove(pos, key) == pos.(z := Max(-5.0, pos.z - 1.0))
    ensures key == "ArrowDown" ==> KeyMove(pos, key) == pos.(z := Min(5.0, pos.z + 1.0))
    ensures key == "ArrowLeft" ==> KeyMove(pos, key) == pos.(x := Max(-4.0, pos.x - 1.0))
    ensures key == "ArrowRight" ==> KeyMove(pos, key) == pos.(x := Min(4.0, pos.x + 1.0))
    ensures !IsArrow(key) ==> KeyMove(pos, key) == pos
  {
  }

  /** On the board a move changes at most one coordinate, by at most one unit. */
  lemma KeyMoveOneAxis(pos: Vec3, key: string)
    requires OnBoard(pos)
    ensures var r := KeyMove(pos, key);
      (r.x == pos.x || r.z == pos.z) && Abs(r.x - pos.x) + Abs(r.z - pos.z) <= 1.0
  {
    KeyMoveOnBoard(pos, key);
  }

  /** Opposite arrows undo each other wherever the first move is not stopped
      by the edge. */
  lemma OppositeKeysCancel(pos: Vec3)
    requires OnBoard(pos)
    ensures pos.z >= -4.0 ==> KeyMove(KeyMove(pos, "ArrowUp"), "ArrowDown") == pos
    ensures pos.z <= 4.0 ==> KeyMove(KeyMove(pos, "ArrowDown"), "ArrowUp") == pos
    ensures pos.x >= -3.0 ==> KeyMove(KeyMove(pos, "ArrowLeft"), "ArrowRight") == pos
    ensures pos.x <= 3.0 ==> KeyMove(KeyMove(pos, "ArrowRight"), "ArrowLeft") == pos
  {
  }
}
