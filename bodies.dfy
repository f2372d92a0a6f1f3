/** The bodies of the simulation and their creation at start-up. */
module Bodies {
  import opened Vectors

  /** The population constant; the start-up loop runs over `1..N`, so it
      creates N - 1 bodies. */
  const N: nat := 75

  /** The range the mass of a new body is drawn from, upper end excluded. */
  const MIN_MASS: real := 8.0
  const MAX_MASS: real := 75.0

  /** An RGBA colour with components drawn in [0, 1). */
  datatype Color = Color(r: real, g: real, b: real, a: real)

  /** One circular body. Only `position` and `velocity` change after creation. */
  datatype Circle = Circle(position: Vec2, velocity: Vec2, radius: real, mass: real, color: Color)

  /** The values the random-number source supplies for one body. */
  datatype Draw = Draw(x: real, y: real, vx: real, vy: real, m: real, color: Color)

  /** What creation guarantees of every body: a mass in [MIN_MASS, MAX_MASS)
      and a radius of half the mass. */
  ghost predicate WellFormed(cs: seq<Circle>) {
    forall k :: 0 <= k < |cs| ==> MIN_MASS <= cs[k].mass < MAX_MASS && cs[k].radius == cs[k].mass / 2.0
  }

  /** The body built from one draw: at the drawn position, with the drawn
      velocity, mass and colour, and a radius of half the mass; a drawn mass
      in range gives a well-formed body. */
  function Spawn(d: Draw): (r: Circle)
    ensures r.position == Vec2(d.x, d.y) && r.velocity == Vec2(d.vx, d.vy)
    ensures r.mass == d.m && r.color == d.color && r.radius * 2.0 == r.mass
    ensures MIN_MASS <= d.m < MAX_MASS ==> WellFormed([r])
  {
    Circle(Vec2(d.x, d.y), Vec2(d.vx, d.vy), d.m / 2.0, d.m, d.color)
  }

  /** Start-up: one body per iteration of `1..N`, pushed in order. */
  method CreateCircles(draws: seq<Draw>) returns (circles: seq<Circle>)
    requires |draws| == N - 1
    ensures |circles| == N - 1
    ensures forall k :: 0 <= k < |circles| ==>
      circles[k].position == Vec2(draws[k].x, draws[k].y) &&
      circles[k].velocity == Vec2(draws[k].vx, draws[k].vy) &&
      circles[k].mass == draws[k].m && circles[k].radius == draws[k].m / 2.0 &&
      circles[k].color == draws[k].color
    ensures (forall k :: 0 <= k < |draws| ==> MIN_MASS <= draws[k].m < MAX_MASS) ==> WellFormed(circles)
  {
    circles := [];
    for t := 1 to N
      invariant |circles| == t - 1
      invariant forall k :: 0 <= k < |circles| ==> circles[k] == Spawn(draws[k])
    {
      var d := draws[t - 1];
      var c := Circle(Vec2(d.x, d.y), Vec2(d.vx, d.vy), d.m / 2.0, d.m, d.color);
      circles := circles + [c];
    }
  }
}
