/** The per-body update of a frame: damped explicit integration followed by
    the four window-edge bounces, applied in place to the array of bodies. */
module Motion {
  import opened Vectors
  import opened Bodies

  /** Every frame keeps this fraction of each body's velocity. */
  const DAMPING: real := 0.99

  /** Integration of one body over a frame of length dt: the velocity gains
      force / mass · dt and is then damped; the position advances by the
      velocity the body had at the start of the frame. */
  function Integrated(c: Circle, force: Vec2, dt: real): (r: Circle)
    requires c.mass != 0.0
    ensures r.mass == c.mass && r.radius == c.radius && r.color == c.color
  {
    var acceleration := Div(force, c.mass);
    c.(velocity := Scale(Add(c.velocity, Scale(acceleration, dt)), DAMPING),
       position := Add(c.position, Scale(c.velocity, dt)))
  }

  /** The change of momentum over the frame, before damping, is the impulse
      force · dt. */
  lemma ImpulseLaw(c: Circle, force: Vec2, dt: real)
    requires c.mass != 0.0
    ensures var r := Integrated(c, force, dt);
      Scale(Sub(Scale(r.velocity, 1.0 / DAMPING), c.velocity), c.mass) == Scale(force, dt)
  {
    var a := Div(force, c.mass);
    assert a.x * c.mass == force.x && a.y * c.mass == force.y;
    var r := Integrated(c, force, dt);
    assert r.velocity.x / DAMPING == c.velocity.x + a.x * dt;
    assert r.velocity.y / DAMPING == c.velocity.y + a.y * dt;
  }

  /** The new position does not depend on the force: it uses the velocity
      from before the update. */
  lemma PositionIgnoresForce(c: Circle, f1: Vec2, f2: Vec2, dt: real)
    requires c.mass != 0.0
    ensures Integrated(c, f1, dt).position == Integrated(c, f2, dt).position
    ensures Integrated(c, f1, dt).position == Add(c.position, Scale(c.velocity, dt))
  {
  }

  /** Without force a body only loses speed to damping. */
  lemma FreeMotion(c: Circle, dt: real)
    requires c.mass != 0.0
    ensures Integrated(c, ZERO, dt).velocity == Scale(c.velocity, DAMPING)
  {
  }

  /** Whether the body lies between the vertical edges 0 and width. */
  predicate InsideX(c: Circle, width: real) {
    c.position.x - c.radius >= 0.0 && c.position.x + c.radius <= width
  }

  /** Whether the body lies between the horizontal edges 0 and height. */
  predicate InsideY(c: Circle, height: real) {
    c.position.y - c.radius >= 0.0 && c.position.y + c.radius <= height
  }

  /** Whether the whole body lies in the window. */
  predicate Contained(c: Circle, width: real, height: real) {
    InsideX(c, width) && InsideY(c, height)
  }

  /** The left-edge check: a body past the left edge is put against it with
      its horizontal velocity reversed. Only x changes. */
  function BounceLeft(c: Circle): (r: Circle)
    ensures r.position.x - r.radius >= 0.0
    ensures c.position.x - c.radius >= 0.0 ==> r == c
    ensures r.position.y == c.position.y && r.velocity.y == c.velocity.y
    ensures r.mass == c.mass && r.radius == c.radius && r.color == c.color
    ensures r.velocity.x == c.velocity.x || r.velocity.x == -c.velocity.x
  {
    if c.position.x - c.radius < 0.0 then
      c.(position := c.position.(x := c.radius), velocity := c.velocity.(x := -c.velocity.x))
    else c
  }

  /** The right-edge check: a body past the right edge is put against it with
      its horizontal velocity reversed. Only x changes. */
  function BounceRight(c: Circle, width: real): (r: Circle)
    ensures r.position.x + r.radius <= width
    ensures c.position.x + c.radius <= width ==> r == c
    ensures r.position.y == c.position.y && r.velocity.y == c.velocity.y
    ensures r.mass == c.mass && r.radius == c.radius && r.color == c.color
    ensures r.velocity.x == c.velocity.x || r.velocity.x == -c.velocity.x
  {
    if c.position.x + c.radius > width then
      c.(position := c.position.(x := width - c.radius), velocity := c.velocity.(x := -c.velocity.x))
    else c
  }

  /** The top-edge check: a body past the top edge is put against it with its
      vertical velocity reversed. Only y changes. */
  function BounceTop(c: Circle): (r: Circle)
    ensures r.position.y - r.radius >= 0.0
    ensures c.position.y - c.radius >= 0.0 ==> r == c
    ensures r.position.x == c.position.x && r.velocity.x == c.velocity.x
    ensures r.mass == c.mass && r.radius == c.radius && r.color == c.color
    ensures r.velocity.y == c.velocity.y || r.velocity.y == -c.velocity.y
  {
    if c.position.y - c.radius < 0.0 then
      c.(position := c.position.(y := c.radius), velocity := c.velocity.(y := -c.velocity.y))
    else c
  }

  /** The bottom-edge check: a body past the bottom edge is put against it
      with its vertical velocity reversed. Only y changes. */
  function BounceBottom(c: Circle, height: real): (r: Circle)
    ensures r.position.y + r.radius <= height
    ensures c.position.y + c.radius <= height ==> r == c
    ensures r.position.x == c.position.x && r.velocity.x == c.velocity.x
    ensures r.mass == c.mass && r.radius == c.radius && r.color == c.color
    ensures r.velocity.y == c.velocity.y || r.velocity.y == -c.velocity.y
  {
    if c.position.y + c.radius > height then
      c.(position := c.position.(y := height - c.radius), velocity := c.velocity.(y := -c.velocity.y))
    else c
  }

  /** The four edge checks in the order the frame applies them, each seeing the
      result of the previous one. A body that fits in the window ends up inside
      it; one that was inside already is left alone; a body past an edge is
      put back against that edge with the perpendicular velocity reversed. */
  function Bounced(c: Circle, width: real, height: real): (r: Circle)
    ensures r.mass == c.mass && r.radius == c.radius && r.color == c.color
    ensures 2.0 * c.radius <= width ==> InsideX(r, width)
    ensures 2.0 * c.radius <= height ==> InsideY(r, height)
    ensures InsideX(c, width) ==> r.position.x == c.position.x && r.velocity.x == c.velocity.x
    ensures InsideY(c, height) ==> r.position.y == c.position.y && r.velocity.y == c.velocity.y
    ensures 2.0 * c.radius <= width && !InsideX(c, width) ==>
      r.velocity.x == -c.velocity.x &&
      r.position.x == (if c.position.x - c.radius < 0.0 then c.radius else width - c.radius)
    ensures 2.0 * c.radius <= height && !InsideY(c, height) ==>
      r.velocity.y == -c.velocity.y &&
      r.position.y == (if c.position.y - c.radius < 0.0 then c.radius else height - c.radius)
    ensures r.velocity.x == c.velocity.x || r.velocity.x == -c.velocity.x
    ensures r.velocity.y == c.velocity.y || r.velocity.y == -c.velocity.y
  {
    BounceBottom(BounceTop(BounceRight(BounceLeft(c), width)), height)
  }

  /** A window narrower than the body, with the body crossing the left edge:
      both checks on x fire, the body ends against the right edge, still
      crossing the left one, and its horizontal velocity is reversed twice,
      that is, kept. */
  lemma NarrowWindow(c: Circle, width: real, height: real)
    requires width < 2.0 * c.radius && c.position.x - c.radius < 0.0
    ensures Bounced(c, width, height).position.x == width - c.radius
    ensures Bounced(c, width, height).velocity.x == c.velocity.x
    ensures !InsideX(Bounced(c, width, height), width)
  {
  }

  /** Bouncing twice is bouncing once, for a body that fits in the window. */
  lemma BounceIdempotent(c: Circle, width: real, height: real)
    requires 2.0 * c.radius <= width && 2.0 * c.radius <= height
    ensures Bounced(Bounced(c, width, height), width, height) == Bounced(c, width, height)
  {
    var r := Bounced(c, width, height);
    assert InsideX(r, width) && InsideY(r, height);
    var rr := Bounced(r, width, height);
    assert rr.position == r.position && rr.velocity == r.velocity;
  }

  /** A bounce reverses a velocity component, so it keeps the speed. */
  lemma BounceKeepsSpeed(c: Circle, width: real, height: real)
    ensures LengthSquared(Bounced(c, width, height).velocity) == LengthSquared(c.velocity)
  {
    var v, w := c.velocity, Bounced(c, width, height).velocity;
    assert w.x * w.x == v.x * v.x;
    assert w.y * w.y == v.y * v.y;
  }

  /** The complete update of one body in a frame. */
  function Moved(c: Circle, force: Vec2, dt: real, width: real, height: real): (r: Circle)
    requires c.mass != 0.0
    ensures r.mass == c.mass && r.radius == c.radius && r.color == c.color
    ensures 2.0 * c.radius <= width && 2.0 * c.radius <= height ==> Contained(r, width, height)
  {
    Bounced(Integrated(c, force, dt), width, height)
  }

  /** The second loop of the frame step: each body in turn is integrated with
      its entry of the force buffer and then bounced off the edges. */
  method IntegrateAndBounce(circles: array<Circle>, forces: array<Vec2>, dt: real, width: real, height: real)
    requires forces.Length == circles.Length
    requires forall k :: 0 <= k < circles.Length ==> circles[k].mass != 0.0
    modifies circles
    ensures forall k :: 0 <= k < circles.Length ==>
      circles[k] == Moved(old(circles[k]), forces[k], dt, width, height)
  {
    for i := 0 to circles.Length
      invariant forall k :: 0 <= k < i ==> circles[k] == Moved(old(circles[k]), forces[k], dt, width, height)
      invariant forall k :: i <= k < circles.Length ==> circles[k] == old(circles[k])
    {
      IntegrateBody(circles, forces, i, dt);
      BounceBody(circles, i, width, height);
    }
  }

  /** The first half of the second loop's body: integration of body i, one
      field update at a time. */
  method IntegrateBody(circles: array<Circle>, forces: array<Vec2>, i: nat, dt: real)
    requires i < forces.Length == circles.Length
    requires circles[i].mass != 0.0
    modifies circles
    ensures circles[i] == Integrated(old(circles[i]), forces[i], dt)
    ensures forall k :: 0 <= k < circles.Length && k != i ==> circles[k] == old(circles[k])
  {
    var velocity := circles[i].velocity;
    var acceleration := Div(forces[i], circles[i].mass);
    circles[i] := circles[i].(velocity := Add(circles[i].velocity, Scale(acceleration, dt)));
    circles[i] := circles[i].(velocity := Scale(circles[i].velocity, DAMPING));
    circles[i] := circles[i].(position := Add(circles[i].position, Scale(velocity, dt)));
  }

  /** The second half of the second loop's body: the four edge checks of
      body i, in order. */
  method BounceBody(circles: array<Circle>, i: nat, width: real, height: real)
    requires i < circles.Length
    modifies circles
    ensures circles[i] == Bounced(old(circles[i]), width, height)
    ensures forall k :: 0 <= k < circles.Length && k != i ==> circles[k] == old(circles[k])
  {
    ghost var c := circles[i];
    if circles[i].position.x - circles[i].radius < 0.0 {
      circles[i] := circles[i].(position := circles[i].position.(x := circles[i].radius));
      circles[i] := circles[i].(velocity := circles[i].velocity.(x := circles[i].velocity.x * -1.0));
    }
    assert circles[i] == BounceLeft(c);

    if circles[i].position.x + circles[i].radius > width {
      circles[i] := circles[i].(position := circles[i].position.(x := width - circles[i].radius));
      circles[i] := circles[i].(velocity := circles[i].velocity.(x := circles[i].velocity.x * -1.0));
    }
    assert circles[i] == BounceRight(BounceLeft(c), width);

    if circles[i].position.y - circles[i].radius < 0.0 {
      circles[i] := circles[i].(position := circles[i].position.(y := circles[i].radius));
      circles[i] := circles[i].(velocity := circles[i].velocity.(y := circles[i].velocity.y * -1.0));
    }
    assert circles[i] == BounceTop(BounceRight(BounceLeft(c), width));

    if circles[i].position.y + circles[i].radius > height {
      circles[i] := circles[i].(position := circles[i].position.(y := height - circles[i].radius));
      circles[i] := circles[i].(velocity := circles[i].velocity.(y := circles[i].velocity.y * -1.0));
    }
  }
}
