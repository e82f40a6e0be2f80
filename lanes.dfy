/** Cars and logs: the record `Game` keeps for each (its position and signed
    speed), and the per-frame motion of the mesh a `Car` or `Log` component
    renders. Both components run the same frame callback. */
module Lanes {
  import opened Geometry

  /** An entry of `carsRef` or `logsRef`: where the object starts and how
      fast it moves along x (negative: towards -x). */
  datatype Actor = Actor(position: Vec3, speed: real)

  /** The lane span an object's x is wrapped into. */
  predicate InLane(x: real) {
    -5.0 <= x <= 5.0
  }

  /** The mesh of one `Car` or `Log` component, whose x position the frame
      callback updates in place. */
  class LaneMesh {
    var position: Vec3
    const speed: real

    constructor (start: Vec3, speed: real)
      ensures position == start && this.speed == speed
    {
      position := start;
      this.speed := speed;
    }

    /** One frame of `delta` seconds: advance x by `speed * delta`; past +5
        the object reappears at exactly -5, past -5 at exactly +5. */
    method OnFrame(delta: real)
      modifies this
      ensures InLane(position.x)
      ensures position.y == old(position.y) && position.z == old(position.z)
      ensures InLane(old(position.x) + speed * delta) ==> position.x == old(position.x) + speed * delta
      ensures old(position.x) + speed * delta > 5.0 ==> position.x == -5.0
      ensures old(position.x) + speed * delta < -5.0 ==> position.x == 5.0
    {
      position := position.(x := position.x + speed * delta);
      if position.x > 5.0 {
        position := position.(x := -5.0);
      } else if position.x < -5.0 {
        position := position.(x := 5.0);
      }
    }
  }
}
