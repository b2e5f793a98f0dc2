/**
 * The two-dimensional vector value type `CommonUtilities::Vector2<T>`,
 * instantiated over `real` (the trees use `Vector2f`). Only the exact
 * operations are modelled: the ones that need a square root or a division
 * are left out, except `Normalize`, whose square root the caller supplies.
 */
module Vector2 {

  datatype Vec2 = Vec2(x: real, y: real)

  /** The default constructor `Vector2<T>()`: value-initialised components. */
  function Zero(): (v: Vec2)
    ensures v.x == 0.0 && v.y == 0.0
  {
    Vec2(0.0, 0.0)
  }

  /** `abs` on a float. */
  function Abs(r: real): (a: real)
    ensures a >= 0.0
    ensures a == r || a == -r
  {
    if r < 0.0 then -r else r
  }

  /** `operator+`. */
  function Add(a: Vec2, b: Vec2): Vec2
  {
    Vec2(a.x + b.x, a.y + b.y)
  }

  /** `operator-`. */
  function Sub(a: Vec2, b: Vec2): Vec2
  {
    Vec2(a.x - b.x, a.y - b.y)
  }

  /** `operator*(const Vector2<T>&, const T&)`. */
  function Scale(v: Vec2, s: real): Vec2
  {
    Vec2(v.x * s, v.y * s)
  }

  /** `operator*(const T&, const Vector2<T>&)`: written separately in the source. */
  function ScaleLeft(s: real, v: Vec2): Vec2
  {
    Vec2(v.x * s, v.y * s)
  }

  /** `LengthSqr()`. */
  function LengthSqr(v: Vec2): real
  {
    v.x * v.x + v.y * v.y
  }

  /** `Dot(aVector)`. */
  function Dot(a: Vec2, b: Vec2): real
  {
    a.x * b.x + a.y * b.y
  }

  /** Subtraction undoes addition, and addition undoes subtraction. */
  lemma AddSubInverse(a: Vec2, b: Vec2)
    ensures Sub(Add(a, b), b) == a
    ensures Add(Sub(a, b), b) == a
  {
  }

  /** Addition is commutative and has the null vector as identity. */
  lemma AddCommutes(a: Vec2, b: Vec2)
    ensures Add(a, b) == Add(b, a)
    ensures Add(a, Zero()) == a
  {
  }

  /** The two scalar products agree: `v * s == s * v`. */
  lemma ScaleSides(v: Vec2, s: real)
    ensures Scale(v, s) == ScaleLeft(s, v)
  {
  }

  /** The squared length is the dot product of a vector with itself, so never negative. */
  lemma LengthSqrIsSelfDot(v: Vec2)
    ensures LengthSqr(v) == Dot(v, v)
    ensures LengthSqr(v) >= 0.0
  {
    SquareNonNegative(v.x);
    SquareNonNegative(v.y);
  }

  lemma SquareNonNegative(r: real)
    ensures r * r >= 0.0
  {
    if r < 0.0 {
      assert r * r == (-r) * (-r);
    }
  }

  /** The dot product is symmetric and scales with either argument. */
  lemma DotSymmetric(a: Vec2, b: Vec2, s: real)
    ensures Dot(a, b) == Dot(b, a)
    ensures Dot(Scale(a, s), b) == s * Dot(a, b)
  {
  }

  /** `operator+=`: updates the left operand component by component. */
  method AddAssign(a: Vec2, b: Vec2) returns (a': Vec2)
    ensures a' == Add(a, b)
  {
    a' := a;
    a' := a'.(x := a'.x + b.x);
    a' := a'.(y := a'.y + b.y);
  }

  /** `operator-=`. */
  method SubAssign(a: Vec2, b: Vec2) returns (a': Vec2)
    ensures a' == Sub(a, b)
  {
    a' := a;
    a' := a'.(x := a'.x - b.x);
    a' := a'.(y := a'.y - b.y);
  }

  /** `operator*=`. */
  method ScaleAssign(a: Vec2, s: real) returns (a': Vec2)
    ensures a' == Scale(a, s)
  {
    a' := a;
    a' := a'.(x := a'.x * s);
    a' := a'.(y := a'.y * s);
  }

  /** `Normalize()`: the null vector is left alone; any other vector is divided by its
      length, which `std::sqrt(LengthSqr())` computes and the caller passes as `length`
      (positive for a non-null vector). */
  method Normalize(v: Vec2, length: real) returns (v': Vec2)
    requires length * length == LengthSqr(v)
    requires v != Zero() ==> length > 0.0
    ensures v == Zero() ==> v' == v
    ensures v != Zero() ==> Scale(v', length) == v && LengthSqr(v') == 1.0
  {
    if v.x == 0.0 && v.y == 0.0 {
      return v;
    }
    v' := Vec2(v.x / length, v.y / length);
    assert v'.x * length == v.x;
    assert v'.y * length == v.y;
    UnitAfterDivision(v, v', length);
  }

  /** Dividing by a positive square root of the squared length leaves unit squared length. */
  lemma UnitAfterDivision(v: Vec2, u: Vec2, length: real)
    requires length > 0.0 && length * length == LengthSqr(v)
    requires Scale(u, length) == v
    ensures LengthSqr(u) == 1.0
  {
    calc {
      LengthSqr(u) * (length * length);
      (u.x * length) * (u.x * length) + (u.y * length) * (u.y * length);
      LengthSqr(v);
      1.0 * (length * length);
    }
  }
}
