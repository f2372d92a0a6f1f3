/** Pairwise force accumulation: one net force per body, built by visiting
    every pair (i, j) with i < j once, adding the pair's force to body i and
    subtracting it from body j. */
module Forces {
  import opened Vectors
  import opened Bodies

  /** Pairs closer than this squared distance are skipped. */
  const MIN_DISTANCE_SQ: real := 1.0

  /** True when the pair is far enough apart to exert a force. */
  predicate Apart(a: Circle, b: Circle) {
    LengthSquared(Sub(b.position, a.position)) > MIN_DISTANCE_SQ
  }

  /** The force of pair (a, b) as the loop computes it: the attraction of a
      towards b, with magnitude g·m_a·m_b / distance², or zero when the two
      are not Apart. Body a receives it, body b receives its negation. A pair
      that is not Apart exerts no force; one that is Apart, with a non-zero
      product of constant and masses and a non-zero length, always does. */
  function PairForce(a: Circle, b: Circle, g: real, len: Vec2 -> real): (r: Vec2)
    ensures !Apart(a, b) ==> r == ZERO
    ensures Apart(a, b) && g * a.mass * b.mass != 0.0 && len(Sub(b.position, a.position)) != 0.0 ==> r != ZERO
  {
    var direction := Sub(b.position, a.position);
    var distanceSq := LengthSquared(direction);
    if Apart(a, b) then
      var f := Scale(Normalize(direction, len), g * a.mass * b.mass / distanceSq);
      assert g * a.mass * b.mass != 0.0 && len(direction) != 0.0 ==> f != ZERO by {
        if g * a.mass * b.mass != 0.0 && len(direction) != 0.0 {
          var k := Reciprocal(len(direction)) * (g * a.mass * b.mass / distanceSq);
          assert k != 0.0;
          assert f == Scale(direction, k);
          assert direction != ZERO;
          if direction.x != 0.0 {
            assert f.x != 0.0;
          } else {
            assert f.y != 0.0;
          }
        }
      }
      f
    else
      ZERO
  }

  /** Gravity attracts: under a non-negative constant, between positive masses
      and with a positive length, the force on a points along the direction
      from a to b, scaled by a non-negative factor. */
  lemma PairForceAttracts(a: Circle, b: Circle, g: real, len: Vec2 -> real)
    requires g >= 0.0 && a.mass > 0.0 && b.mass > 0.0
    requires len(Sub(b.position, a.position)) > 0.0
    ensures exists k: real :: k >= 0.0 && PairForce(a, b, g, len) == Scale(Sub(b.position, a.position), k)
  {
    var d := Sub(b.position, a.position);
    if Apart(a, b) {
      var distanceSq := LengthSquared(d);
      var r := Reciprocal(len(d));
      var m := g * a.mass * b.mass / distanceSq;
      assert r > 0.0;
      assert g * a.mass >= 0.0;
      assert g * a.mass * b.mass >= 0.0;
      assert m >= 0.0;
      assert r * m >= 0.0;
      assert PairForce(a, b, g, len) == Scale(d, r * m);
    } else {
      assert PairForce(a, b, g, len) == Scale(d, 0.0);
    }
  }

  /** The pair force is antisymmetric: exchanging the two bodies negates it,
      given a length that does not depend on the sign of its argument. */
  lemma PairForceAntisymmetric(a: Circle, b: Circle, g: real, len: Vec2 -> real)
    requires len(Sub(a.position, b.position)) == len(Sub(b.position, a.position))
    ensures PairForce(b, a, g, len) == Sub(ZERO, PairForce(a, b, g, len))
  {
    var d := Sub(b.position, a.position);
    var e := Sub(a.position, b.position);
    assert e == Vec2(-d.x, -d.y);
    assert LengthSquared(e) == LengthSquared(d);
    assert Apart(b, a) == Apart(a, b);
    if Apart(a, b) {
      var r := Reciprocal(len(d));
      var m := g * a.mass * b.mass / LengthSquared(d);
      assert g * b.mass * a.mass / LengthSquared(e) == m;
      assert PairForce(b, a, g, len) == Vec2(-d.x * r * m, -d.y * r * m);
      assert PairForce(a, b, g, len) == Vec2(d.x * r * m, d.y * r * m);
    }
  }

  /** The force law of the simulation for gravitational constant g. The
      bookkeeping below is stated for any law, and instantiated with this one. */
  function Gravity(g: real, len: Vec2 -> real): (Circle, Circle) -> Vec2 {
    (a, b) => PairForce(a, b, g, len)
  }

  /** Sum of the forces added to body k as the first member of the pairs
      (k, b) with lo <= b < hi. */
  function Added(cs: seq<Circle>, k: nat, lo: nat, hi: nat, law: (Circle, Circle) -> Vec2): Vec2
    requires k < |cs| && hi <= |cs|
    decreases hi
  {
    if hi <= lo then ZERO
    else Add(Added(cs, k, lo, hi - 1, law), law(cs[k], cs[hi - 1]))
  }

  /** Sum of the forces subtracted from body k as the second member of the
      pairs (a, k) with lo <= a < hi. */
  function Subtracted(cs: seq<Circle>, k: nat, lo: nat, hi: nat, law: (Circle, Circle) -> Vec2): Vec2
    requires k < |cs| && hi <= |cs|
    decreases hi
  {
    if hi <= lo then ZERO
    else Add(Subtracted(cs, k, lo, hi - 1, law), law(cs[hi - 1], cs[k]))
  }

  /** The net force on body k: every pair (k, b) with b > k once, every pair
      (a, k) with a < k once, and no other pair. */
  function NetForce(cs: seq<Circle>, k: nat, law: (Circle, Circle) -> Vec2): Vec2
    requires k < |cs|
  {
    Sub(Added(cs, k, k + 1, |cs|, law), Subtracted(cs, k, 0, k, law))
  }

  /** The whole force buffer after the nested loop. */
  function NetForces(cs: seq<Circle>, law: (Circle, Circle) -> Vec2): (r: seq<Vec2>)
    ensures |r| == |cs|
  {
    seq(|cs|, k requires 0 <= k < |cs| => NetForce(cs, k, law))
  }

  /** Entry k of the buffer when the outer loop is about to start row i:
      bodies before i hold their net force, the others only what the rows
      before i subtracted from them. */
  function BeforeAt(cs: seq<Circle>, i: nat, k: nat, law: (Circle, Circle) -> Vec2): Vec2
    requires i <= |cs| && k < |cs|
  {
    if k < i then NetForce(cs, k, law)
    else Sub(ZERO, Subtracted(cs, k, 0, i, law))
  }

  /** Entry k of the buffer inside row i when the inner loop is about to
      visit pair (i, j). */
  function WithinAt(cs: seq<Circle>, i: nat, j: nat, k: nat, law: (Circle, Circle) -> Vec2): Vec2
    requires i < j <= |cs| && k < |cs|
  {
    if k < i then NetForce(cs, k, law)
    else if k == i then Sub(Added(cs, i, i + 1, j, law), Subtracted(cs, i, 0, i, law))
    else if k < j then Sub(ZERO, Subtracted(cs, k, 0, i + 1, law))
    else Sub(ZERO, Subtracted(cs, k, 0, i, law))
  }

  function BeforeRow(cs: seq<Circle>, i: nat, law: (Circle, Circle) -> Vec2): (r: seq<Vec2>)
    requires i <= |cs|
    ensures |r| == |cs|
  {
    seq(|cs|, k requires 0 <= k < |cs| => BeforeAt(cs, i, k, law))
  }

  function WithinRow(cs: seq<Circle>, i: nat, j: nat, law: (Circle, Circle) -> Vec2): (r: seq<Vec2>)
    requires i < j <= |cs|
    ensures |r| == |cs|
  {
    seq(|cs|, k requires 0 <= k < |cs| => WithinAt(cs, i, j, k, law))
  }

  /** The freshly allocated buffer is the state before row 0. */
  lemma FirstRow(cs: seq<Circle>, k: nat, law: (Circle, Circle) -> Vec2)
    requires k < |cs|
    ensures BeforeAt(cs, 0, k, law) == ZERO
  {
  }

  /** After the last row every body holds its net force. */
  lemma LastRow(cs: seq<Circle>, law: (Circle, Circle) -> Vec2)
    ensures BeforeRow(cs, |cs|, law) == NetForces(cs, law)
  {
  }

  lemma RowStart(cs: seq<Circle>, i: nat, law: (Circle, Circle) -> Vec2)
    requires i < |cs|
    ensures WithinRow(cs, i, i + 1, law) == BeforeRow(cs, i, law)
  {
  }

  lemma RowEnd(cs: seq<Circle>, i: nat, law: (Circle, Circle) -> Vec2)
    requires i < |cs|
    ensures WithinRow(cs, i, |cs|, law) == BeforeRow(cs, i + 1, law)
  {
  }

  /** Visiting pair (i, j) adds its force to entry i, subtracts it from entry j
      and leaves every other entry as it was. */
  lemma PairStep(cs: seq<Circle>, i: nat, j: nat, law: (Circle, Circle) -> Vec2)
    requires i < j < |cs|
    ensures var before, f := WithinRow(cs, i, j, law), law(cs[i], cs[j]);
      WithinRow(cs, i, j + 1, law) == before[i := Add(before[i], f)][j := Sub(before[j], f)]
  {
    var before, f := WithinRow(cs, i, j, law), law(cs[i], cs[j]);
    var after := WithinRow(cs, i, j + 1, law);
    var updated := before[i := Add(before[i], f)][j := Sub(before[j], f)];
    assert after[i] == updated[i] by {
      assert Added(cs, i, i + 1, j + 1, law) == Add(Added(cs, i, i + 1, j, law), f);
    }
    assert after[j] == updated[j] by {
      assert Subtracted(cs, j, 0, i + 1, law) == Add(Subtracted(cs, j, 0, i, law), f);
    }
    forall k | 0 <= k < |cs| && k != i && k != j
      ensures after[k] == updated[k]
    {
      assert after[k] == WithinAt(cs, i, j + 1, k, law);
      assert updated[k] == WithinAt(cs, i, j, k, law);
    }
    assert after == updated;
  }

  /** A pair whose force is zero contributes nothing. */
  lemma SkippedPairStep(cs: seq<Circle>, i: nat, j: nat, law: (Circle, Circle) -> Vec2)
    requires i < j < |cs|
    requires law(cs[i], cs[j]) == ZERO
    ensures WithinRow(cs, i, j + 1, law) == WithinRow(cs, i, j, law)
  {
    PairStep(cs, i, j, law);
    var before := WithinRow(cs, i, j, law);
    assert before[i := Add(before[i], ZERO)][j := Sub(before[j], ZERO)] == before;
  }

  /** Adding f to one entry and subtracting it from another keeps the total. */
  lemma TransferKeepsTotal(s: seq<Vec2>, i: nat, j: nat, f: Vec2)
    requires i < |s| && j < |s| && i != j
    ensures Total(s[i := Add(s[i], f)][j := Sub(s[j], f)]) == Total(s)
  {
    var s1 := s[i := Add(s[i], f)];
    TotalUpdate(s, i, Add(s[i], f));
    TotalUpdate(s1, j, Sub(s1[j], f));
  }

  /** Newton's third law for the buffer at every point of the loop: the
      entries always sum to the zero vector. */
  lemma {:induction false} BeforeRowBalanced(cs: seq<Circle>, i: nat, law: (Circle, Circle) -> Vec2)
    requires i <= |cs|
    ensures Total(BeforeRow(cs, i, law)) == ZERO
    decreases i, 0
  {
    if i == 0 {
      forall k | 0 <= k < |cs|
        ensures BeforeRow(cs, 0, law)[k] == ZERO
      {
        FirstRow(cs, k, law);
      }
      TotalOfZeros(BeforeRow(cs, 0, law));
    } else {
      RowEnd(cs, i - 1, law);
      WithinRowBalanced(cs, i - 1, |cs|, law);
    }
  }

  lemma {:induction false} WithinRowBalanced(cs: seq<Circle>, i: nat, j: nat, law: (Circle, Circle) -> Vec2)
    requires i < j <= |cs|
    ensures Total(WithinRow(cs, i, j, law)) == ZERO
    decreases i, j - i
  {
    if j == i + 1 {
      RowStart(cs, i, law);
      BeforeRowBalanced(cs, i, law);
    } else {
      WithinRowBalanced(cs, i, j - 1, law);
      PairStep(cs, i, j - 1, law);
      TransferKeepsTotal(WithinRow(cs, i, j - 1, law), i, j - 1, law(cs[i], cs[j - 1]));
    }
  }

  /** The internal forces of the whole system cancel: total momentum is
      unchanged by them. */
  lemma NetForcesBalanced(cs: seq<Circle>, law: (Circle, Circle) -> Vec2)
    ensures Total(NetForces(cs, law)) == ZERO
  {
    LastRow(cs, law);
    BeforeRowBalanced(cs, |cs|, law);
  }

  /** A body none of whose pairs is Apart feels no force. */
  lemma NoForceWhenAllClose(cs: seq<Circle>, k: nat, g: real, len: Vec2 -> real)
    requires k < |cs|
    requires forall a, b :: 0 <= a < b < |cs| && (a == k || b == k) ==> !Apart(cs[a], cs[b])
    ensures NetForce(cs, k, Gravity(g, len)) == ZERO
  {
    NoneAdded(cs, k, k + 1, |cs|, Gravity(g, len));
    NoneSubtracted(cs, k, 0, k, Gravity(g, len));
  }

  lemma {:induction false} NoneAdded(cs: seq<Circle>, k: nat, lo: nat, hi: nat, law: (Circle, Circle) -> Vec2)
    requires k < lo <= hi <= |cs|
    requires forall b :: lo <= b < hi ==> law(cs[k], cs[b]) == ZERO
    ensures Added(cs, k, lo, hi, law) == ZERO
    decreases hi
  {
    if lo < hi {
      NoneAdded(cs, k, lo, hi - 1, law);
    }
  }

  lemma {:induction false} NoneSubtracted(cs: seq<Circle>, k: nat, lo: nat, hi: nat, law: (Circle, Circle) -> Vec2)
    requires k < |cs| && hi <= k
    requires forall a :: lo <= a < hi ==> law(cs[a], cs[k]) == ZERO
    ensures Subtracted(cs, k, lo, hi, law) == ZERO
    decreases hi
  {
    if lo < hi {
      NoneSubtracted(cs, k, lo, hi - 1, law);
    }
  }

  /** One visit of the inner loop: the pair's force is added to entry i and
      subtracted from entry j; a pair that is not Apart changes nothing. */
  method VisitPair(circles: array<Circle>, forces: array<Vec2>, i: nat, j: nat, g: real, len: Vec2 -> real)
    requires i < j < circles.Length == forces.Length
    modifies forces
    ensures var f := Gravity(g, len)(circles[i], circles[j]);
      forces[..] == old(forces[..])[i := Add(old(forces[i]), f)][j := Sub(old(forces[j]), f)]
  {
    var direction := Sub(circles[j].position, circles[i].position);
    var distanceSq := LengthSquared(direction);
    if distanceSq > MIN_DISTANCE_SQ {
      var forceMagnitude := (g * circles[i].mass * circles[j].mass) / distanceSq;
      var force := Scale(Normalize(direction, len), forceMagnitude);
      assert force == Gravity(g, len)(circles[i], circles[j]);
      forces[i] := Add(forces[i], force);
      forces[j] := Sub(forces[j], force);
      assert forces[..] == old(forces[..])[i := Add(old(forces[i]), force)][j := Sub(old(forces[j]), force)];
    } else {
      assert forces[..] == old(forces[..])[i := Add(old(forces[i]), ZERO)][j := Sub(old(forces[j]), ZERO)];
    }
  }

  /** The nested loop of the frame step. The buffer starts as one zero vector
      per body, so it depends on the current positions and masses only. */
  method AccumulateForces(circles: array<Circle>, g: real, len: Vec2 -> real) returns (forces: array<Vec2>)
    ensures fresh(forces)
    ensures forces[..] == NetForces(circles[..], Gravity(g, len))
    ensures Total(forces[..]) == ZERO
  {
    var n := circles.Length;
    ghost var cs := circles[..];
    ghost var law := Gravity(g, len);
    forces := new Vec2[n](_ => ZERO);
    forall k | 0 <= k < n
      ensures forces[k] == BeforeRow(cs, 0, law)[k]
    {
      FirstRow(cs, k, law);
    }
    for i := 0 to n
      invariant forces[..] == BeforeRow(cs, i, law)
    {
      RowStart(cs, i, law);
      for j := i + 1 to n
        invariant forces[..] == WithinRow(cs, i, j, law)
      {
        PairStep(cs, i, j, law);
        VisitPair(circles, forces, i, j, g, len);
      }
      RowEnd(cs, i, law);
    }
    LastRow(cs, law);
    NetForcesBalanced(cs, law);
  }
}
