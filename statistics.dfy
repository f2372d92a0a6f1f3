/** The average speed and the total kinetic energy the heads-up display
    shows each frame, and the total momentum of the bodies, which the display
    does not show but the model states properties of. */
module Statistics {
  import opened Vectors
  import opened Bodies
  import opened Motion

  /** A single-precision result that may be "not a number". */
  datatype Reading = Number(value: real) | NotANumber

  /** The sum of the speeds, in body order, where `len` stands for the
      library's length function: zero for no bodies, the one speed for a
      single body. */
  function TotalSpeed(cs: seq<Circle>, len: Vec2 -> real): (r: real)
    ensures |cs| == 0 ==> r == 0.0
    ensures |cs| == 1 ==> r == len(cs[0].velocity)
  {
    if |cs| == 0 then 0.0 else TotalSpeed(cs[..|cs| - 1], len) + len(cs[|cs| - 1].velocity)
  }

  /** When no speed is negative, no single speed exceeds the total. */
  lemma {:induction false} SpeedWithinTotal(cs: seq<Circle>, len: Vec2 -> real)
    requires forall k :: 0 <= k < |cs| ==> len(cs[k].velocity) >= 0.0
    ensures TotalSpeed(cs, len) >= 0.0
    ensures forall k :: 0 <= k < |cs| ==> len(cs[k].velocity) <= TotalSpeed(cs, len)
  {
    if |cs| > 0 {
      var init := cs[..|cs| - 1];
      assert forall k :: 0 <= k < |init| ==> init[k] == cs[k];
      SpeedWithinTotal(init, len);
    }
  }

  /** The total speed divided by the number of bodies. With no bodies the
      division is 0 / 0, which single precision answers with "not a number". */
  function AverageSpeed(cs: seq<Circle>, len: Vec2 -> real): (r: Reading)
    ensures r == NotANumber <==> |cs| == 0
    ensures r.Number? ==> r.value * |cs| as real == TotalSpeed(cs, len)
  {
    if |cs| == 0 then NotANumber else Number(TotalSpeed(cs, len) / |cs| as real)
  }

  /** The total speed stays between n times the lowest and n times the
      highest speed bound. */
  lemma {:induction false} TotalSpeedBounds(cs: seq<Circle>, len: Vec2 -> real, lo: real, hi: real)
    requires forall k :: 0 <= k < |cs| ==> lo <= len(cs[k].velocity) <= hi
    ensures |cs| as real * lo <= TotalSpeed(cs, len) <= |cs| as real * hi
  {
    if |cs| > 0 {
      var init := cs[..|cs| - 1];
      assert forall k :: 0 <= k < |init| ==> init[k] == cs[k];
      TotalSpeedBounds(init, len, lo, hi);
      assert |cs| as real == |init| as real + 1.0;
      BoundsStep(|init| as real, lo, hi, TotalSpeed(init, len), len(cs[|cs| - 1].velocity));
    }
  }

  lemma BoundsStep(m: real, lo: real, hi: real, t: real, s: real)
    requires m * lo <= t <= m * hi && lo <= s <= hi
    ensures (m + 1.0) * lo <= t + s <= (m + 1.0) * hi
  {
    assert (m + 1.0) * lo == m * lo + lo && (m + 1.0) * hi == m * hi + hi;
  }

  /** The average lies between the lowest and the highest speed. */
  lemma AverageSpeedBounds(cs: seq<Circle>, len: Vec2 -> real, lo: real, hi: real)
    requires |cs| > 0
    requires forall k :: 0 <= k < |cs| ==> lo <= len(cs[k].velocity) <= hi
    ensures lo <= AverageSpeed(cs, len).value <= hi
  {
    TotalSpeedBounds(cs, len, lo, hi);
    AverageStep(AverageSpeed(cs, len).value, |cs| as real, lo, hi, TotalSpeed(cs, len));
  }

  lemma AverageStep(avg: real, n: real, lo: real, hi: real, t: real)
    requires n > 0.0 && avg * n == t && n * lo <= t <= n * hi
    ensures lo <= avg <= hi
  {
    assert (avg - lo) * n >= 0.0;
    assert (hi - avg) * n >= 0.0;
  }

  /** When every body has the same speed, that is the average. */
  lemma UniformAverageSpeed(cs: seq<Circle>, len: Vec2 -> real, s: real)
    requires |cs| > 0
    requires forall k :: 0 <= k < |cs| ==> len(cs[k].velocity) == s
    ensures AverageSpeed(cs, len) == Number(s)
  {
    AverageSpeedBounds(cs, len, s, s);
  }

  /** The kinetic energy of one body, half its mass times its squared speed:
      zero at rest, and never negative for a non-negative mass. */
  function Energy(c: Circle): (r: real)
    ensures c.velocity == ZERO ==> r == 0.0
    ensures c.mass >= 0.0 ==> r >= 0.0
  {
    LengthSquaredNonNegative(c.velocity);
    0.5 * c.mass * LengthSquared(c.velocity)
  }

  /** The sum of the bodies' kinetic energies, in body order. With
      non-negative masses no single body's energy exceeds it. */
  function KineticEnergy(cs: seq<Circle>): (r: real)
    ensures (forall k :: 0 <= k < |cs| ==> cs[k].mass >= 0.0) ==>
      forall k :: 0 <= k < |cs| ==> Energy(cs[k]) <= r
  {
    if |cs| == 0 then 0.0 else KineticEnergy(cs[..|cs| - 1]) + Energy(cs[|cs| - 1])
  }

  /** Bodies of non-negative mass never have negative kinetic energy. */
  lemma {:induction false} KineticEnergyNonNegative(cs: seq<Circle>)
    requires forall k :: 0 <= k < |cs| ==> cs[k].mass >= 0.0
    ensures KineticEnergy(cs) >= 0.0
  {
    if |cs| > 0 {
      var init := cs[..|cs| - 1];
      assert forall k :: 0 <= k < |init| ==> init[k] == cs[k];
      KineticEnergyNonNegative(init);
      var c := cs[|cs| - 1];
      LengthSquaredNonNegative(c.velocity);
      assert c.mass * LengthSquared(c.velocity) >= 0.0;
    }
  }

  /** One body keeps its kinetic energy through the edge bounces. */
  lemma BounceKeepsEnergy(c: Circle, width: real, height: real)
    ensures Energy(Bounced(c, width, height)) == Energy(c)
  {
    BounceKeepsSpeed(c, width, height);
  }

  /** The edge bounces neither add nor remove kinetic energy. */
  lemma {:induction false} BouncesKeepEnergy(cs: seq<Circle>, width: real, height: real)
    ensures KineticEnergy(seq(|cs|, k requires 0 <= k < |cs| => Bounced(cs[k], width, height))) == KineticEnergy(cs)
  {
    var bs := seq(|cs|, k requires 0 <= k < |cs| => Bounced(cs[k], width, height));
    if |cs| > 0 {
      var init := cs[..|cs| - 1];
      var binit := seq(|init|, k requires 0 <= k < |init| => Bounced(init[k], width, height));
      assert bs[..|bs| - 1] == binit;
      BouncesKeepEnergy(init, width, height);
      BounceKeepsEnergy(cs[|cs| - 1], width, height);
    }
  }

  /** The momentum of each body, its mass times its velocity. */
  function Momenta(cs: seq<Circle>): (r: seq<Vec2>)
    ensures |r| == |cs|
  {
    seq(|cs|, k requires 0 <= k < |cs| => Scale(cs[k].velocity, cs[k].mass))
  }

  /** The total momentum of the bodies. */
  function Momentum(cs: seq<Circle>): Vec2 {
    Total(Momenta(cs))
  }

  /** Integration of every body with its entry of the force buffer. */
  function IntegratedAll(cs: seq<Circle>, forces: seq<Vec2>, dt: real): (r: seq<Circle>)
    requires |forces| == |cs|
    requires forall k :: 0 <= k < |cs| ==> cs[k].mass != 0.0
    ensures |r| == |cs|
  {
    seq(|cs|, k requires 0 <= k < |cs| => Integrated(cs[k], forces[k], dt))
  }

  /** One body's share of the momentum update: its new momentum is its old one
      plus the impulse, damped. */
  lemma ImpulseStep(c: Circle, force: Vec2, dt: real)
    requires c.mass != 0.0
    ensures var r := Integrated(c, force, dt);
      Scale(r.velocity, r.mass) == Scale(Add(Scale(c.velocity, c.mass), Scale(force, dt)), DAMPING)
  {
    var a := Div(force, c.mass);
    assert a.x * c.mass == force.x && a.y * c.mass == force.y;
  }

  /** Summing entrywise damped impulse updates. */
  lemma {:induction false} TotalOfUpdates(before: seq<Vec2>, after: seq<Vec2>, forces: seq<Vec2>, dt: real)
    requires |before| == |after| == |forces|
    requires forall k :: 0 <= k < |after| ==> after[k] == Scale(Add(before[k], Scale(forces[k], dt)), DAMPING)
    ensures Total(after) == Scale(Add(Total(before), Scale(Total(forces), dt)), DAMPING)
  {
    if |after| > 0 {
      TotalOfUpdates(before[1..], after[1..], forces[1..], dt);
      AlgebraStep(before[0], Total(before[1..]), forces[0], Total(forces[1..]), dt);
    }
  }

  lemma AlgebraStep(p: Vec2, q: Vec2, f: Vec2, t: Vec2, dt: real)
    ensures Add(Scale(Add(p, Scale(f, dt)), DAMPING), Scale(Add(q, Scale(t, dt)), DAMPING))
         == Scale(Add(Add(p, q), Scale(Add(f, t), dt)), DAMPING)
  {
  }

  /** Integration turns the momentum P into (P + F·dt)·0.99, F the sum of the
      force buffer. */
  lemma MomentumAfterIntegration(cs: seq<Circle>, forces: seq<Vec2>, dt: real)
    requires |forces| == |cs|
    requires forall k :: 0 <= k < |cs| ==> cs[k].mass != 0.0
    ensures Momentum(IntegratedAll(cs, forces, dt)) == Scale(Add(Momentum(cs), Scale(Total(forces), dt)), DAMPING)
  {
    var after := Momenta(IntegratedAll(cs, forces, dt));
    forall k | 0 <= k < |cs|
      ensures after[k] == Scale(Add(Momenta(cs)[k], Scale(forces[k], dt)), DAMPING)
    {
      ImpulseStep(cs[k], forces[k], dt);
    }
    TotalOfUpdates(Momenta(cs), after, forces, dt);
  }

  /** Since the force buffer is balanced, integration only damps the total
      momentum: the bodies' mutual attraction cannot set the system moving. */
  lemma MomentumDamped(cs: seq<Circle>, forces: seq<Vec2>, dt: real)
    requires |forces| == |cs|
    requires forall k :: 0 <= k < |cs| ==> cs[k].mass != 0.0
    requires Total(forces) == ZERO
    ensures Momentum(IntegratedAll(cs, forces, dt)) == Scale(Momentum(cs), DAMPING)
  {
    MomentumAfterIntegration(cs, forces, dt);
  }
}
