# rust-gravity, modelled in Dafny

A model of the physics core of `rust-gravity`, a small program that puts 74
coloured discs in a window and lets them attract each other. Each frame of
its main loop:

1. reads the arrow keys, which raise or lower the gravitational constant by
   50, never below zero, and the Escape key, which ends the loop;
2. builds a fresh buffer of one force per body by visiting every pair
   (i, j) with i < j once, skipping pairs at most one unit apart, adding
   the pair's attraction to body i and subtracting it from body j;
3. updates every body in place: the velocity gains force / mass · dt and is
   damped by 0.99, the position advances by the velocity from before the
   update, and four ordered edge checks push a body that crossed an edge
   back onto it and reverse the perpendicular velocity component;
4. shows the average speed and the total kinetic energy.

The model keeps the program's own form. The bodies live in an `array<Circle>`
whose elements the frame overwrites field by field. The force buffer is a
freshly allocated `array<Vec2>`. The gravitational constant is a field of the
class `Simulation.World`. Every method is proved against a specification
function, and the properties the program relies on are lemmas about those
functions:

- the buffer always sums to the zero vector (Newton's third law);
- each pair is visited once, and a skipped pair changes nothing;
- a body that fits in the window ends inside it, and one already inside is
  left alone;
- bounces keep speed and kinetic energy;
- integration damps the total momentum and adds nothing to it;
- the gravitational constant never becomes negative.

Files:

- `vectors.dfy` (module `Vectors`): two-dimensional vectors over exact reals.
- `bodies.dfy` (`Bodies`): the body record and start-up.
- `forces.dfy` (`Forces`): the force buffer.
- `motion.dfy` (`Motion`): integration and bounces.
- `statistics.dfy` (`Statistics`): the displayed figures and momentum.
- `simulation.dfy` (`Simulation`): the constant, the frame step and the loop.

Single-precision numbers are modelled as exact reals. The library's vector
length is a parameter `len: Vec2 -> real` of every operation that normalises
a vector or measures a speed. The keys, the frame time and the window size
of each frame are a `FrameInput` value. The random draws of start-up are a
sequence of `Draw` values.

## Model

| member | source | states |
|---|---|---|
| Bodies.Spawn | src/main.rs:56-62 | the body built from one draw sits at the drawn position with the drawn velocity, mass and colour and a radius of half the mass; a drawn mass in [8, 75) gives a well-formed body |
| Bodies.CreateCircles | src/main.rs:44-65 | one body per iteration of `1..N`, that is 74; each body takes its position, velocity, mass and colour from its draw, with radius mass / 2; draws with masses in [8, 75) give well-formed bodies |
| Forces.VisitPair | src/main.rs:92-103 | one inner-loop visit adds the pair's force to entry i, subtracts the same vector from entry j, and changes no other entry |
| Forces.PairForce | src/main.rs:93-99 | the force of pair (i, j) on body i: zero for a pair at most one unit apart; for a pair further apart, with a non-zero product of constant and masses and a non-zero length, never zero |
| Forces.PairForceAttracts | src/main.rs:93-98 | with a non-negative constant, positive masses and a positive length, the force on body i is the direction from i to j times a non-negative factor, so it attracts |
| Forces.PairForceAntisymmetric | src/main.rs:93-98 | exchanging the two bodies negates the pair force, for a length that gives a vector and its negation the same value |
| Forces.AccumulateForces | src/main.rs:88-107 | the returned buffer is freshly allocated, has one entry per body, entry k is the net force on body k (pairs (k, b) with b > k added, pairs (a, k) with a < k subtracted, each once), and the entries sum to zero |
| Forces.PairStep | src/main.rs:101-102 | visiting pair (i, j) turns the buffer state before the visit into the state after it by adding to entry i and subtracting from entry j |
| Forces.SkippedPairStep | src/main.rs:97 | a pair whose force is zero leaves the buffer unchanged |
| Forces.FirstRow | src/main.rs:89 | the zero-filled buffer is the loop state before the first row |
| Forces.WithinRowBalanced | src/main.rs:91-104 | at every point of the nested loop the buffer sums to the zero vector |
| Forces.NetForcesBalanced | src/main.rs:101-102 | the net forces of all bodies sum to the zero vector |
| Forces.NoForceWhenAllClose | src/main.rs:97 | a body that is within one unit of every other body receives no force |
| Motion.Integrated | src/main.rs:111-115 | integration changes neither mass, radius nor colour |
| Motion.ImpulseLaw | src/main.rs:112-114 | mass · (new velocity / 0.99 − old velocity) equals force · dt |
| Motion.PositionIgnoresForce | src/main.rs:111-115 | the new position is the old position plus the velocity from before the update times dt, whatever the force |
| Motion.FreeMotion | src/main.rs:112-114 | with zero force the velocity is only damped by 0.99 |
| Motion.BounceLeft | src/main.rs:118-121 | afterwards the body is not past the left edge; a body not past it is unchanged; only x changes, and its velocity component is kept or reversed |
| Motion.BounceRight | src/main.rs:123-126 | afterwards the body is not past the right edge; a body not past it is unchanged; only x changes, and its velocity component is kept or reversed |
| Motion.BounceTop | src/main.rs:128-131 | afterwards the body is not past the top edge; a body not past it is unchanged; only y changes, and its velocity component is kept or reversed |
| Motion.BounceBottom | src/main.rs:133-136 | afterwards the body is not past the bottom edge; a body not past it is unchanged; only y changes, and its velocity component is kept or reversed |
| Motion.Bounced | src/main.rs:118-136 | mass, radius and colour kept; a body at most as wide as the window ends inside it on that axis; a body inside on an axis is untouched on that axis; a body that fits and is outside is put against the nearer edge with that velocity component reversed; every velocity component is kept or reversed |
| Motion.NarrowWindow | src/main.rs:118-126 | in a window narrower than the body, with the body crossing the left edge, both checks on x fire: the body ends against the right edge, still crossing the left one, with its horizontal velocity kept |
| Motion.BounceIdempotent | src/main.rs:118-136 | for a body that fits in the window, bouncing a second time changes nothing |
| Motion.BounceKeepsSpeed | src/main.rs:118-136 | the squared speed is the same before and after the edge checks |
| Motion.Moved | src/main.rs:110-136 | the per-body update keeps mass, radius and colour, and leaves a body that fits in the window inside it |
| Motion.IntegrateBody | src/main.rs:111-115 | the field-by-field updates of body i produce exactly the integrated body, and no other body changes |
| Motion.BounceBody | src/main.rs:118-136 | the four edge checks on body i produce exactly the bounced body, and no other body changes |
| Motion.IntegrateAndBounce | src/main.rs:110-137 | after the loop every body is its old value integrated with its own buffer entry and bounced |
| Statistics.TotalSpeed | src/main.rs:157 | the sum of `len(velocity)` over the bodies in body order, the same left fold as `iter().sum()`: zero for no bodies, the one speed for a single body |
| Statistics.SpeedWithinTotal | src/main.rs:157 | when no speed is negative, the total speed is not negative and no single speed exceeds it |
| Statistics.AverageSpeed | src/main.rs:157-158 | not a number exactly when there are no bodies; otherwise the value times the number of bodies is the total speed |
| Statistics.TotalSpeedBounds | src/main.rs:157 | the total speed lies between n times the lowest and n times the highest speed bound |
| Statistics.AverageSpeedBounds | src/main.rs:157-158 | the average speed lies between the lowest and highest speed bound |
| Statistics.UniformAverageSpeed | src/main.rs:157-158 | when all bodies have the same speed, that is the average |
| Statistics.Energy | src/main.rs:162 | one body's kinetic energy, half the mass times the squared speed: zero at rest, never negative for a non-negative mass |
| Statistics.KineticEnergy | src/main.rs:162 | the sum of the bodies' kinetic energies in body order, the same left fold as `iter().sum()`; with non-negative masses no body's energy exceeds it |
| Statistics.KineticEnergyNonNegative | src/main.rs:162 | with non-negative masses the total kinetic energy is never negative |
| Statistics.BounceKeepsEnergy | src/main.rs:118-136 | one body's kinetic energy is unchanged by the edge checks |
| Statistics.BouncesKeepEnergy | src/main.rs:118-136 | the total kinetic energy is unchanged by bouncing every body |
| Statistics.ImpulseStep | src/main.rs:112-114 | a body's new momentum is its old momentum plus force · dt, damped |
| Statistics.MomentumAfterIntegration | src/main.rs:110-115 | integration turns total momentum P into (P + F·dt)·0.99, F the sum of the buffer |
| Statistics.MomentumDamped | src/main.rs:101-115 | with the balanced buffer of the force loop, integration multiplies the total momentum by 0.99 |
| Simulation.AdjustedGravity | src/main.rs:70-79 | Up alone adds 50; Down alone subtracts 50, flooring at 0; neither changes nothing; both together cancel on a non-negative constant; after Down, or from a non-negative constant, the result is non-negative |
| Simulation.GravityStaysNonNegative | src/main.rs:74-79 | from a non-negative start, the constant stays non-negative over any run of frames |
| Simulation.GravityRaised | src/main.rs:70-72 | k frames of Up alone raise the constant by 50·k |
| Simulation.GravityLowered | src/main.rs:74-79 | k frames of Down alone lower the constant by 50·k, or to 0 if it would go below |
| Simulation.Advanced | src/main.rs:88-137 | one frame keeps the number of bodies and their well-formedness |
| Simulation.AdvancedContained | src/main.rs:110-137 | one frame keeps every body's mass and colour; in a window at least 75 wide and high every body ends inside it |
| Simulation.Evolved | src/main.rs:67-137 | a run of frames keeps the number of bodies and their well-formedness |
| Simulation.FirstEscape | src/main.rs:81-83 | the index of the first frame with Escape held: no earlier frame has it |
| Simulation.World.constructor | src/main.rs:38-65 | the constant starts at 5000 and the array holds the 74 bodies built from the draws |
| Simulation.World.AdjustGravity | src/main.rs:70-79 | the key checks set the constant to its adjusted value |
| Simulation.World.Step | src/main.rs:69-137 | the constant is adjusted; Escape stops before any body moves; otherwise the bodies become the advanced frame computed from the new constant; the constant stays non-negative and the bodies well-formed |
| Simulation.World.Run | src/main.rs:67-170 | the loop runs up to and including the first Escape frame; the constant and the bodies are those of that many frames |
| Simulation.TwoBodyForces | src/main.rs:88-107 | two bodies of mass 10, 10 apart, under the initial constant receive forces (5000, 0) and (−5000, 0) |
| Simulation.PushedFromRest | src/main.rs:111-115 | a body of mass 10 at rest, pushed by fx for 16 ms, ends with velocity fx · 0.001584 and no displacement |

## Left out

- Drawing, the window configuration, and the text of the heads-up display (src/main.rs:16-24, 139-167): they are output only. Of the displayed figures, the average speed and the kinetic energy are modelled, and so is the constant.
- Random numbers: start-up takes the draws as a parameter. Only the mass range of a draw is a precondition. The ranges of positions and velocities are not checked, and neither are the colour channels of `random_color`.
- Keys, frame time and window size are read once per frame into a `FrameInput`. The program calls `screen_width()` and `screen_height()` at each far-edge check; the model assumes the window does not change size during one frame.
- The endless loop with `next_frame().await` is modelled as a run over a finite sequence of frames.
- Single-precision arithmetic: reals replace `f32`, so rounding, overflow, infinities and NaN are not modelled. The one exception is the average speed of zero bodies, which is `NotANumber`.
- Forces.PairForce: the magnitude of the force is not proved, and its direction only up to a non-negative factor. The vector length is a parameter with no stated properties, so the model does not prove that the normalised direction has unit length.
- Vectors.Reciprocal: normalising a zero vector gives the zero vector in the model, not NaN. This case is unreachable on the modelled path, because only pairs more than one unit apart are normalised.
- Motion.IntegrateAndBounce: requires non-zero masses. Division by a zero mass gives infinity or NaN in `f32`, and every body created at start-up has mass at least 8.
- Statistics.MomentumDamped: it covers integration only. The edge bounces change the momentum, and the model states no property of that change.
