/** The clamp of `SimulationBaseObject.increment_position_rotation`
    (main.py:173-195). A bound of `None` stands for the default
    `±float("inf")`, which no coordinate crosses. */
module Motion {
  import opened Wrappers

  /** `position_constraints`. */
  datatype Constraints = Constraints(minX: Option<real>, maxX: Option<real>, minY: Option<real>, maxY: Option<real>)

  /** The defaults `SimulationBaseObject.__init__` sets (main.py:68-73). */
  const Unconstrained := Constraints(None, None, None, None)

  datatype Position = Position(x: real, y: real)

  /** The fields the method reads and writes. */
  datatype Placed = Placed(position: Position, rotation: real, constraints: Constraints)

  /** Below the minimum or above the maximum. */
  predicate Below(v: real, lo: Option<real>)
  {
    lo.Some? && v < lo.value
  }

  predicate Above(v: real, hi: Option<real>)
  {
    hi.Some? && v > hi.value
  }

  predicate Within(v: real, lo: Option<real>, hi: Option<real>)
  {
    !Below(v, lo) && !Above(v, hi)
  }

  /** The two `if`s for one coordinate: the minimum is applied first, then
      the maximum. */
  function Clamp(v: real, lo: Option<real>, hi: Option<real>): (r: real)
    ensures Within(v, lo, hi) ==> r == v
    ensures lo.Some? && hi.Some? && lo.value <= hi.value ==> lo.value <= r <= hi.value
    ensures !Above(v, hi) && Below(v, lo) && Within(lo.value, lo, hi) ==> r == lo.value
    ensures Above(if Below(v, lo) then lo.value else v, hi) ==> r == hi.value
  {
    var a := if Below(v, lo) then lo.value else v;
    if Above(a, hi) then hi.value else a
  }

  /** The result never passes a bound it did not have to: it is within
      both bounds when they are in order, and it is the nearer bound when
      `v` lies outside them. */
  lemma ClampNearest(v: real, lo: real, hi: real)
    requires lo <= hi
    ensures Clamp(v, Some(lo), Some(hi)) == if v < lo then lo else if v > hi then hi else v
  {
  }

  /** Clamping twice clamps once. */
  lemma ClampIdempotent(v: real, lo: Option<real>, hi: Option<real>)
    requires lo.Some? && hi.Some? ==> lo.value <= hi.value
    ensures Clamp(Clamp(v, lo, hi), lo, hi) == Clamp(v, lo, hi)
  {
  }

  /** With the bounds crossed (`min > max`) the maximum wins, since it is
      applied last. */
  lemma CrossedBoundsGiveMaximum(v: real, lo: real, hi: real)
    requires hi < lo
    ensures Clamp(v, Some(lo), Some(hi)) == hi
  {
  }

  /** `increment_position_rotation(position_increment, rotation_increment)`.
      The second result is the `update` flag that decides whether
      `update()` is called. With bounds in order each new coordinate lies
      within them, a move that stays inside is made as it is, no position
      increment leaves the position alone, and the rotation increment is
      added with no clamping or wrapping. */
  function IncrementPositionRotation(o: Placed, positionIncrement: Option<Position>, rotationIncrement: Option<real>): (r: (Placed, bool))
    ensures r.0.constraints == o.constraints
    ensures r.1 <==> positionIncrement.Some? || rotationIncrement.Some?
    ensures positionIncrement.None? ==> r.0.position == o.position
    ensures positionIncrement.Some? ==>
              var c, d, p := o.constraints, positionIncrement.value, r.0.position;
              && (c.minX.Some? && c.maxX.Some? && c.minX.value <= c.maxX.value ==> c.minX.value <= p.x <= c.maxX.value)
              && (c.minY.Some? && c.maxY.Some? && c.minY.value <= c.maxY.value ==> c.minY.value <= p.y <= c.maxY.value)
              && (Within(o.position.x + d.x, c.minX, c.maxX) ==> p.x == o.position.x + d.x)
              && (Within(o.position.y + d.y, c.minY, c.maxY) ==> p.y == o.position.y + d.y)
    ensures r.0.rotation == o.rotation + (if rotationIncrement.Some? then rotationIncrement.value else 0.0)
  {
    var c := o.constraints;
    var position :=
      if positionIncrement.None? then o.position
      else
        var moved := Position(o.position.x + positionIncrement.value.x, o.position.y + positionIncrement.value.y);
        Position(Clamp(moved.x, c.minX, c.maxX), Clamp(moved.y, c.minY, c.maxY));
    var rotation := if rotationIncrement.None? then o.rotation else o.rotation + rotationIncrement.value;
    (Placed(position, rotation, c), positionIncrement.Some? || rotationIncrement.Some?)
  }

  /** Each coordinate is clamped on its own: the new x is the old x plus
      its increment clamped to the x bounds, whatever y, its increment and
      the y bounds are, and likewise for y. */
  lemma CoordinatesIndependent(o: Placed, d: Position, rotationIncrement: Option<real>)
    ensures var p := IncrementPositionRotation(o, Some(d), rotationIncrement).0.position;
            var c := o.constraints;
            && p.x == Clamp(o.position.x + d.x, c.minX, c.maxX)
            && p.y == Clamp(o.position.y + d.y, c.minY, c.maxY)
  {
  }

  /** Under the default constraints a move is made exactly. */
  lemma UnconstrainedMove(o: Placed, d: Position, rotationIncrement: Option<real>)
    requires o.constraints == Unconstrained
    ensures IncrementPositionRotation(o, Some(d), rotationIncrement).0.position ==
            Position(o.position.x + d.x, o.position.y + d.y)
  {
  }
}
