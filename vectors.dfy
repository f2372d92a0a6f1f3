/** Two-dimensional vectors over exact reals, standing for the single-precision
    `Vec2` of the rendering library the simulation uses. */
module Vectors {

  datatype Vec2 = Vec2(x: real, y: real)

  const ZERO: Vec2 := Vec2(0.0, 0.0)

  function Add(a: Vec2, b: Vec2): Vec2 {
    Vec2(a.x + b.x, a.y + b.y)
  }

  function Sub(a: Vec2, b: Vec2): Vec2 {
    Vec2(a.x - b.x, a.y - b.y)
  }

  function Scale(a: Vec2, k: real): Vec2 {
    Vec2(a.x * k, a.y * k)
  }

  function Div(a: Vec2, k: real): Vec2
    requires k != 0.0
  {
    Vec2(a.x / k, a.y / k)
  }

  /** The squared Euclidean length. */
  function LengthSquared(a: Vec2): real {
    a.x * a.x + a.y * a.y
  }

  lemma LengthSquaredNonNegative(a: Vec2)
    ensures LengthSquared(a) >= 0.0
  {
  }

  /** The reciprocal `1.0 / x`. Single-precision division gives infinity at
      zero, which has no real counterpart; the model gives zero there. */
  function Reciprocal(x: real): real {
    if x == 0.0 then 0.0 else 1.0 / x
  }

  /** The unit vector along `d`: `d` times the reciprocal of its length, where
      `len` stands for the library's length function. */
  function Normalize(d: Vec2, len: Vec2 -> real): Vec2 {
    Scale(d, Reciprocal(len(d)))
  }

  /** The vector sum of all entries of `s`. */
  function Total(s: seq<Vec2>): Vec2 {
    if |s| == 0 then ZERO else Add(s[0], Total(s[1..]))
  }

  /** Replacing entry k by v changes the total by v - s[k]. */
  lemma {:induction false} TotalUpdate(s: seq<Vec2>, k: nat, v: Vec2)
    requires k < |s|
    ensures Total(s[k := v]) == Add(Sub(Total(s), s[k]), v)
  {
    if k == 0 {
      assert s[k := v][1..] == s[1..];
    } else {
      assert s[k := v][1..] == s[1..][k - 1 := v];
      TotalUpdate(s[1..], k - 1, v);
    }
  }

  /** A sequence of zero vectors sums to zero. */
  lemma {:induction false} TotalOfZeros(s: seq<Vec2>)
    requires forall k :: 0 <= k < |s| ==> s[k] == ZERO
    ensures Total(s) == ZERO
  {
    if |s| > 0 {
      TotalOfZeros(s[1..]);
    }
  }
}
