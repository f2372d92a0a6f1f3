/** The simulation state and its frame loop: the gravitational constant the
    arrow keys adjust, and the array of bodies every frame updates in place. */
module Simulation {
  import opened Vectors
  import opened Bodies
  import opened Forces
  import opened Motion
  import opened Statistics

  /** The gravitational constant at start-up. */
  const INITIAL_GRAVITY: real := 5000.0

  /** How much one frame with an arrow key held changes the constant. */
  const GRAVITY_STEP: real := 50.0

  /** The constant after one frame's key checks: Up raises it by one step,
      then Down lowers it by one step, never below zero. */
  function AdjustedGravity(g: real, up: bool, down: bool): (r: real)
    ensures g >= 0.0 || down ==> r >= 0.0
    ensures up && !down ==> r == g + GRAVITY_STEP
    ensures !up && down ==> r == (if g >= GRAVITY_STEP then g - GRAVITY_STEP else 0.0)
    ensures !up && !down ==> r == g
    ensures up && down && g >= 0.0 ==> r == g
  {
    var raised := if up then g + GRAVITY_STEP else g;
    if down then (if raised - GRAVITY_STEP < 0.0 then 0.0 else raised - GRAVITY_STEP) else raised
  }

  /** What the frame loop reads from the outside world each frame: the three
      keys, the frame time and the current window size. */
  datatype FrameInput = FrameInput(up: bool, down: bool, escape: bool, dt: real, width: real, height: real)

  /** The constant after a run of frames, each adjusting it once. */
  function GravityAfter(g: real, frames: seq<FrameInput>): real {
    if |frames| == 0 then g
    else
      var last := frames[|frames| - 1];
      AdjustedGravity(GravityAfter(g, frames[..|frames| - 1]), last.up, last.down)
  }

  /** The constant never becomes negative. */
  lemma {:induction false} GravityStaysNonNegative(g: real, frames: seq<FrameInput>)
    requires g >= 0.0
    ensures GravityAfter(g, frames) >= 0.0
  {
    if |frames| > 0 {
      GravityStaysNonNegative(g, frames[..|frames| - 1]);
    }
  }

  /** Holding Up alone for k frames raises the constant by k steps. */
  lemma {:induction false} GravityRaised(g: real, frames: seq<FrameInput>)
    requires forall k :: 0 <= k < |frames| ==> frames[k].up && !frames[k].down
    ensures GravityAfter(g, frames) == g + |frames| as real * GRAVITY_STEP
  {
    if |frames| > 0 {
      var init := frames[..|frames| - 1];
      assert forall k :: 0 <= k < |init| ==> init[k] == frames[k];
      GravityRaised(g, init);
    }
  }

  /** Holding Down alone long enough brings the constant to zero, and it
      stays there. */
  lemma {:induction false} GravityLowered(g: real, frames: seq<FrameInput>)
    requires g >= 0.0
    requires forall k :: 0 <= k < |frames| ==> !frames[k].up && frames[k].down
    ensures GravityAfter(g, frames) == (if g >= |frames| as real * GRAVITY_STEP then g - |frames| as real * GRAVITY_STEP else 0.0)
  {
    if |frames| > 0 {
      var init := frames[..|frames| - 1];
      assert forall k :: 0 <= k < |init| ==> init[k] == frames[k];
      GravityLowered(g, init);
    }
  }

  /** The bodies after one frame that was not ended by Escape: forces from the
      positions at the start of the frame, then every body moved. */
  function Advanced(cs: seq<Circle>, g: real, len: Vec2 -> real, dt: real, width: real, height: real): (r: seq<Circle>)
    requires WellFormed(cs)
    ensures |r| == |cs| && WellFormed(r)
  {
    var forces := NetForces(cs, Gravity(g, len));
    seq(|cs|, k requires 0 <= k < |cs| => Moved(cs[k], forces[k], dt, width, height))
  }

  /** A frame keeps every body's mass and colour, and in a window at least as
      wide and as high as the heaviest possible body every body ends inside
      it. */
  lemma AdvancedContained(cs: seq<Circle>, g: real, len: Vec2 -> real, dt: real, width: real, height: real)
    requires WellFormed(cs)
    ensures var r := Advanced(cs, g, len, dt, width, height);
      forall k :: 0 <= k < |r| ==> r[k].mass == cs[k].mass && r[k].color == cs[k].color
    ensures width >= MAX_MASS && height >= MAX_MASS ==>
      var r := Advanced(cs, g, len, dt, width, height);
      forall k :: 0 <= k < |r| ==> Contained(r[k], width, height)
  {
  }

  /** The bodies after a run of frames that has no Escape before its last
      frame; a final Escape frame leaves them as they were. */
  function Evolved(cs: seq<Circle>, g: real, frames: seq<FrameInput>, len: Vec2 -> real): (r: seq<Circle>)
    requires WellFormed(cs)
    ensures |r| == |cs| && WellFormed(r)
  {
    if |frames| == 0 then cs
    else
      var prev := Evolved(cs, g, frames[..|frames| - 1], len);
      var last := frames[|frames| - 1];
      if last.escape then prev
      else Advanced(prev, GravityAfter(g, frames), len, last.dt, last.width, last.height)
  }

  /** Extending a run by one frame adjusts the constant once and, unless the
      frame holds Escape, advances the bodies once under the new constant. */
  lemma OneMoreFrame(cs: seq<Circle>, g: real, prefix: seq<FrameInput>, f: FrameInput, len: Vec2 -> real)
    requires WellFormed(cs)
    ensures GravityAfter(g, prefix + [f]) == AdjustedGravity(GravityAfter(g, prefix), f.up, f.down)
    ensures Evolved(cs, g, prefix + [f], len) ==
      if f.escape then Evolved(cs, g, prefix, len)
      else Advanced(Evolved(cs, g, prefix, len), GravityAfter(g, prefix + [f]), len, f.dt, f.width, f.height)
  {
    assert (prefix + [f])[..|prefix|] == prefix;
  }

  /** The index of the first frame with Escape held, or the number of frames
      when there is none. */
  function FirstEscape(frames: seq<FrameInput>): (r: nat)
    ensures r <= |frames|
    ensures r < |frames| ==> frames[r].escape
    ensures forall k :: 0 <= k < r ==> !frames[k].escape
  {
    if |frames| == 0 then 0
    else if frames[0].escape then 0
    else 1 + FirstEscape(frames[1..])
  }

  /** The program state: the constant and the bodies, both changed in place. */
  class World {
    var gravitationalConstant: real
    const circles: array<Circle>

    ghost predicate Valid()
      reads this, circles
    {
      gravitationalConstant >= 0.0 && WellFormed(circles[..])
    }

    /** Start-up: the initial constant and one body per draw. */
    constructor (draws: seq<Draw>)
      requires |draws| == N - 1
      requires forall k :: 0 <= k < |draws| ==> MIN_MASS <= draws[k].m < MAX_MASS
      ensures Valid()
      ensures gravitationalConstant == INITIAL_GRAVITY
      ensures fresh(circles) && circles.Length == N - 1
      ensures forall k :: 0 <= k < circles.Length ==> circles[k] == Spawn(draws[k])
    {
      gravitationalConstant := INITIAL_GRAVITY;
      var cs := CreateCircles(draws);
      circles := new Circle[|cs|](k requires 0 <= k < |cs| => cs[k]);
      new;
      assert circles[..] == cs;
    }

    /** The key checks at the top of a frame. */
    method AdjustGravity(up: bool, down: bool)
      modifies this
      ensures gravitationalConstant == AdjustedGravity(old(gravitationalConstant), up, down)
    {
      if up {
        gravitationalConstant := gravitationalConstant + GRAVITY_STEP;
      }
      if down {
        gravitationalConstant := gravitationalConstant - GRAVITY_STEP;
        if gravitationalConstant < 0.0 {
          gravitationalConstant := 0.0;
        }
      }
    }

    /** One frame of the loop. Escape ends the loop after the key checks and
      before any body moves; otherwise the forces are accumulated and every
      body is moved. */
    method Step(input: FrameInput, len: Vec2 -> real) returns (running: bool)
      requires Valid()
      modifies this, circles
      ensures Valid()
      ensures gravitationalConstant == AdjustedGravity(old(gravitationalConstant), input.up, input.down)
      ensures running == !input.escape
      ensures !running ==> circles[..] == old(circles[..])
      ensures running ==> circles[..] == Advanced(old(circles[..]), gravitationalConstant, len, input.dt, input.width, input.height)
    {
      AdjustGravity(input.up, input.down);
      if input.escape {
        return false;
      }
      ghost var before := circles[..];
      var forces := AccumulateForces(circles, gravitationalConstant, len);
      IntegrateAndBounce(circles, forces, input.dt, input.width, input.height);
      assert circles[..] == Advanced(before, gravitationalConstant, len, input.dt, input.width, input.height);
      running := true;
    }

    /** The frame loop over a finite run of frames: it stops after the first
      frame with Escape held, or when the frames run out. */
    method Run(frames: seq<FrameInput>, len: Vec2 -> real) returns (count: nat)
      requires Valid()
      modifies this, circles
      ensures Valid()
      ensures count == (if FirstEscape(frames) < |frames| then FirstEscape(frames) + 1 else |frames|)
      ensures gravitationalConstant == GravityAfter(old(gravitationalConstant), frames[..count])
      ensures circles[..] == Evolved(old(circles[..]), old(gravitationalConstant), frames[..count], len)
    {
      ghost var g0, cs0 := gravitationalConstant, circles[..];
      count := 0;
      var running := true;
      while running && count < |frames|
        invariant Valid()
        invariant count <= |frames|
        invariant count <= FirstEscape(frames) + 1
        invariant running <==> count <= FirstEscape(frames)
        invariant gravitationalConstant == GravityAfter(g0, frames[..count])
        invariant circles[..] == Evolved(cs0, g0, frames[..count], len)
        decreases |frames| - count
      {
        ghost var prefix := frames[..count];
        running := Step(frames[count], len);
        assert frames[..count + 1] == prefix + [frames[count]];
        OneMoreFrame(cs0, g0, prefix, frames[count], len);
        count := count + 1;
      }
    }
  }

  /** The two bodies of mass 10, 10 apart on a horizontal line, at rest. */
  const LEFT_BODY: Circle := Circle(Vec2(100.0, 100.0), ZERO, 5.0, 10.0, Color(0.0, 0.0, 0.0, 1.0))
  const RIGHT_BODY: Circle := Circle(Vec2(110.0, 100.0), ZERO, 5.0, 10.0, Color(0.0, 0.0, 0.0, 1.0))

  /** Two bodies of mass 10 at distance 10 under the initial constant attract
      each other with force 5000, equal and opposite. */
  lemma TwoBodyForces(len: Vec2 -> real)
    requires len(Vec2(10.0, 0.0)) == 10.0
    ensures NetForces([LEFT_BODY, RIGHT_BODY], Gravity(INITIAL_GRAVITY, len)) == [Vec2(5000.0, 0.0), Vec2(-5000.0, 0.0)]
  {
    var a, b := LEFT_BODY, RIGHT_BODY;
    assert PairForce(a, b, INITIAL_GRAVITY, len) == Vec2(5000.0, 0.0);
    var law := Gravity(INITIAL_GRAVITY, len);
    assert Added([a, b], 0, 1, 2, law) == Vec2(5000.0, 0.0);
    assert Subtracted([a, b], 1, 0, 1, law) == Vec2(5000.0, 0.0);
  }

  /** A body of mass 10 at rest, pushed with force fx along x for 16 ms, gains
      speed fx · 0.016 / 10 · 0.99 and does not move yet. */
  lemma PushedFromRest(c: Circle, fx: real)
    requires c.velocity == ZERO && c.mass == 10.0
    ensures Integrated(c, Vec2(fx, 0.0), 0.016) == c.(velocity := Vec2(fx * 0.001584, 0.0))
  {
    assert Div(Vec2(fx, 0.0), 10.0) == Vec2(fx / 10.0, 0.0);
  }
}
