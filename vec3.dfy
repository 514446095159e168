/** The crate's 3-component vector (src/vec3.rs), used as point, direction and colour.
    Components are f64 in the crate; here they are exact reals, so rounding, NaN and
    infinities are outside the model. The square root is not definable over `real`
    in Dafny, so every operation that needs it takes it as a parameter `sqrt`, and
    the facts that depend on it require the square-root law `IsSqrt(sqrt)`. */
module Vectors {

  /** `Vec3 { e: [f64; 3] }`: e[0], e[1], e[2] are x, y, z. */
  datatype Vec3 = Vec3(x: real, y: real, z: real)

  /** `Vec3::default()`. */
  function Zero(): Vec3 { Vec3(0.0, 0.0, 0.0) }

  /** The storage `e` of a vector, in index order. */
  function Elements(v: Vec3): (e: seq<real>)
    ensures |e| == 3
  {
    [v.x, v.y, v.z]
  }

  /** The vector whose storage `e` holds the given three values. */
  function OfElements(e: seq<real>): (v: Vec3)
    requires |e| == 3
    ensures Elements(v) == e
  {
    Vec3(e[0], e[1], e[2])
  }

  /** `v[index]` (Index): component `index` of the storage. An index of 3 or more
      panics in the source; here it is excluded. */
  function Index(v: Vec3, index: nat): (r: real)
    requires index < 3
    ensures r == Elements(v)[index]
  {
    if index == 0 then v.x else if index == 1 then v.y else v.z
  }

  /** The storage determines the vector: reading it back gives the same vector. */
  lemma StorageRoundTrip(v: Vec3)
    ensures OfElements(Elements(v)) == v
  {
  }

  /** The square-root law: `sqrt` returns the non-negative root of a non-negative
      argument. Nothing is required of negative arguments (NaN in f64). */
  ghost predicate IsSqrt(sqrt: real -> real)
  {
    forall d: real :: 0.0 <= d ==> 0.0 <= sqrt(d) && sqrt(d) * sqrt(d) == d
  }

  /** `-v` (Neg) exactly as the source writes it: it subtracts one from every
      component instead of negating it. */
  function Neg(v: Vec3): (r: Vec3)
    ensures Sub(v, r) == Vec3(1.0, 1.0, 1.0)
  {
    Vec3(v.x - 1.0, v.y - 1.0, v.z - 1.0)
  }

  /** Arithmetic negation, the evident intent of `Neg`. */
  function Negate(v: Vec3): (r: Vec3)
    ensures Add(v, r) == Zero()
    ensures r == Scale(-1.0, v)
  {
    Vec3(-v.x, -v.y, -v.z)
  }

  /** `a + b` (Add). */
  function Add(a: Vec3, b: Vec3): (r: Vec3)
    ensures forall i :: 0 <= i < 3 ==> Index(r, i) == Index(a, i) + Index(b, i)
  {
    Vec3(a.x + b.x, a.y + b.y, a.z + b.z)
  }

  /** `a - b` (Sub). */
  function Sub(a: Vec3, b: Vec3): (r: Vec3)
    ensures forall i :: 0 <= i < 3 ==> Index(r, i) == Index(a, i) - Index(b, i)
  {
    Vec3(a.x - b.x, a.y - b.y, a.z - b.z)
  }

  /** `a * b` for two vectors (Mul<Vec3> for Vec3): the componentwise product. */
  function Hadamard(a: Vec3, b: Vec3): (r: Vec3)
    ensures forall i :: 0 <= i < 3 ==> Index(r, i) == Index(a, i) * Index(b, i)
  {
    Vec3(a.x * b.x, a.y * b.y, a.z * b.z)
  }

  /** `s * v` (Mul<Vec3> for f64). */
  function Scale(s: real, v: Vec3): (r: Vec3)
    ensures forall i :: 0 <= i < 3 ==> Index(r, i) == s * Index(v, i)
  {
    Vec3(s * v.x, s * v.y, s * v.z)
  }

  /** `v * s` (Mul<f64> for Vec3), which the source defines as `s * v`. */
  function MulScalar(v: Vec3, s: real): (r: Vec3)
    ensures r == Vec3(v.x * s, v.y * s, v.z * s)
  {
    Scale(s, v)
  }

  /** `v / s` (Div<f64>), which the source defines as `(1 / s) * v`. A zero divisor
      yields infinities or NaN in f64 and is excluded here. */
  function Div(v: Vec3, s: real): (r: Vec3)
    requires s != 0.0
    ensures r == Vec3(v.x / s, v.y / s, v.z / s)
    ensures Scale(s, r) == v
  {
    Scale(1.0 / s, v)
  }

  function LengthSquared(v: Vec3): (r: real)
    ensures 0.0 <= r
    ensures r == Dot(v, v)
  {
    v.x * v.x + v.y * v.y + v.z * v.z
  }

  /** `length()`: the square root of `LengthSquared`. */
  function Length(sqrt: real -> real, v: Vec3): (r: real)
    ensures IsSqrt(sqrt) ==> 0.0 <= r && r * r == LengthSquared(v)
  {
    sqrt(LengthSquared(v))
  }

  /** `dot`: the sum of the componentwise products. */
  function Dot(a: Vec3, b: Vec3): real
  {
    a.x * b.x + a.y * b.y + a.z * b.z
  }

  /** The right-hand cross product. */
  function Cross(a: Vec3, b: Vec3): (r: Vec3)
    ensures Dot(r, a) == 0.0 && Dot(r, b) == 0.0
  {
    Vec3(a.y * b.z - a.z * b.y,
         a.z * b.x - a.x * b.z,
         a.x * b.y - a.y * b.x)
  }

  /** `unit_vector(v) = v / v.length()`. The source leaves a zero vector undefined
      (a division by zero); here it is excluded. */
  function UnitVector(sqrt: real -> real, v: Vec3): (r: Vec3)
    requires IsSqrt(sqrt) && LengthSquared(v) > 0.0
    ensures LengthSquared(r) == 1.0
    ensures Length(sqrt, r) == 1.0
    ensures 0.0 < Length(sqrt, v) && Scale(Length(sqrt, v), r) == v
  {
    var len := Length(sqrt, v);
    assert len != 0.0;
    var r := Div(v, len);
    UnitLength(v, len, r);
    SqrtOfOne(sqrt);
    r
  }

  /** `f64::abs`. */
  function Abs(x: real): (r: real)
    ensures 0.0 <= r && (r == x || r == -x)
  {
    if x < 0.0 then -x else x
  }

  const NEAR_ZERO_BOUND: real := 0.00000001

  /** `near_zero()`: every component is within 1e-8 of zero. */
  predicate NearZero(v: Vec3)
  {
    Abs(v.x) < NEAR_ZERO_BOUND && Abs(v.y) < NEAR_ZERO_BOUND && Abs(v.z) < NEAR_ZERO_BOUND
  }

  /** `reflect(v, n) = v - 2 (v . n) n`. */
  function Reflect(v: Vec3, n: Vec3): (r: Vec3)
    ensures Dot(n, n) == 1.0 ==> Dot(r, n) == -Dot(v, n)
    ensures Dot(n, n) == 1.0 ==> LengthSquared(r) == LengthSquared(v)
  {
    var k := Dot(v, n);
    var r := Sub(v, Scale(2.0 * k, n));
    ReflectLaws(v, n, k, r);
    r
  }

  /** `f64::min`. */
  function Min(a: real, b: real): (r: real)
    ensures r <= a && r <= b && (r == a || r == b)
  {
    if a <= b then a else b
  }

  /** The part of `Refract` perpendicular to the normal. */
  function RefractPerpendicular(v: Vec3, n: Vec3, etaiOverEtat: real): Vec3
  {
    var cosTheta := Min(Dot(Scale(-1.0, v), n), 1.0);
    Scale(etaiOverEtat, Add(v, Scale(cosTheta, n)))
  }

  /** `refract(v, n, eta)`: the perpendicular part plus `-sqrt(|1 - |perp|^2|) n`. */
  function Refract(sqrt: real -> real, v: Vec3, n: Vec3, etaiOverEtat: real): (r: Vec3)
    ensures Dot(n, n) == 1.0 && -Dot(v, n) <= 1.0 ==>
              Dot(RefractPerpendicular(v, n, etaiOverEtat), n) == 0.0
    ensures IsSqrt(sqrt) && Dot(n, n) == 1.0 && -Dot(v, n) <= 1.0
              && LengthSquared(RefractPerpendicular(v, n, etaiOverEtat)) <= 1.0 ==>
              LengthSquared(r) == 1.0
  {
    var perp := RefractPerpendicular(v, n, etaiOverEtat);
    var parallel := Scale(-sqrt(Abs(1.0 - LengthSquared(perp))), n);
    RefractLaws(sqrt, v, n, etaiOverEtat, perp, parallel);
    Add(perp, parallel)
  }

  /** `f64::clamp(lo, hi)`. */
  function Clamp(x: real, lo: real, hi: real): (r: real)
    requires lo <= hi
    ensures lo <= r <= hi
    ensures lo <= x <= hi ==> r == x
  {
    if x < lo then lo else if x > hi then hi else x
  }

  const CLAMP_MAX: real := 0.999

  /** One channel of `write_color`: gamma-2 of the averaged sum, clamped to
      [0, 0.999] and scaled by 255. */
  function ColorChannel(sqrt: real -> real, sum: real, scale: real): (r: real)
    ensures 0.0 <= r <= 255.0 * CLAMP_MAX
  {
    255.0 * Clamp(sqrt(sum * scale), 0.0, CLAMP_MAX)
  }

  /** Below the clamp, a channel is exactly 255 times the gamma-2 value: its square
      is 255^2 times the averaged sum. */
  lemma ColorChannelGamma(sqrt: real -> real, sum: real, scale: real)
    requires IsSqrt(sqrt) && 0.0 <= sum * scale <= CLAMP_MAX * CLAMP_MAX
    ensures ColorChannel(sqrt, sum, scale) * ColorChannel(sqrt, sum, scale)
            == 255.0 * 255.0 * (sum * scale)
  {
    SqrtBelow(sqrt(sum * scale), sum * scale, CLAMP_MAX);
  }

  /** `write_color(samples_per_pixel)`. A `samples_per_pixel` of zero makes the
      scale infinite in f64 and is excluded here. */
  function WriteColor(sqrt: real -> real, color: Vec3, samplesPerPixel: nat): (r: Vec3)
    requires 0 < samplesPerPixel < 0x1_0000
    ensures 0.0 <= r.x <= 255.0 * CLAMP_MAX
    ensures 0.0 <= r.y <= 255.0 * CLAMP_MAX
    ensures 0.0 <= r.z <= 255.0 * CLAMP_MAX
  {
    var scale := 1.0 / samplesPerPixel as real;
    Vec3(ColorChannel(sqrt, color.x, scale),
         ColorChannel(sqrt, color.y, scale),
         ColorChannel(sqrt, color.z, scale))
  }

  // ------------------------------------------------------------------
  // In-place operators. `self.e` is modelled as an array of length 3.

  /** `self += rhs` (AddAssign). */
  method AddAssign(e: array<real>, rhs: Vec3)
    requires e.Length == 3
    modifies e
    ensures OfElements(e[..]) == Add(OfElements(old(e[..])), rhs)
  {
    e[0] := e[0] + rhs.x;
    e[1] := e[1] + rhs.y;
    e[2] := e[2] + rhs.z;
  }

  /** `self *= rhs` (MulAssign<f64>). */
  method MulAssign(e: array<real>, rhs: real)
    requires e.Length == 3
    modifies e
    ensures OfElements(e[..]) == Scale(rhs, OfElements(old(e[..])))
  {
    e[0] := e[0] * rhs;
    e[1] := e[1] * rhs;
    e[2] := e[2] * rhs;
  }

  /** `self /= rhs` (DivAssign<f64>): each component divided by `rhs`. */
  method DivAssign(e: array<real>, rhs: real)
    requires e.Length == 3 && rhs != 0.0
    modifies e
    ensures forall i :: 0 <= i < 3 ==> e[i] == old(e[i]) / rhs
    ensures OfElements(e[..]) == Div(OfElements(old(e[..])), rhs)
  {
    e[0] := e[0] / rhs;
    e[1] := e[1] / rhs;
    e[2] := e[2] / rhs;
  }

  /** `self[index] = value` through the reference that IndexMut returns. */
  method IndexMut(e: array<real>, index: nat, value: real)
    requires e.Length == 3 && index < 3
    modifies e
    ensures Index(OfElements(e[..]), index) == value
    ensures forall i :: 0 <= i < 3 && i != index ==> e[i] == old(e[i])
  {
    e[index] := value;
  }

  // ------------------------------------------------------------------
  // Laws that relate the operations to each other

  /** `Neg` as written is not negation: the zero vector plus its `Neg` is not zero,
      and applying `Neg` twice moves a vector rather than restoring it. */
  lemma NegIsNotNegation()
    ensures Add(Zero(), Neg(Zero())) != Zero()
    ensures Neg(Neg(Zero())) == Vec3(-2.0, -2.0, -2.0)
    ensures Neg(Zero()) != Negate(Zero())
  {
  }

  /** Negation undoes itself and is subtraction from zero. */
  lemma NegateInvolutive(v: Vec3)
    ensures Negate(Negate(v)) == v
    ensures Negate(v) == Sub(Zero(), v)
  {
  }

  /** Subtraction undoes addition, in either order of the operands. */
  lemma SubUndoesAdd(a: Vec3, b: Vec3)
    ensures Sub(Add(a, b), b) == a
    ensures Add(a, b) == Add(b, a)
    ensures Add(Sub(a, b), b) == a
  {
  }

  /** The componentwise product is commutative and scaling by a constant vector. */
  lemma HadamardLaws(a: Vec3, b: Vec3, s: real)
    ensures Hadamard(a, b) == Hadamard(b, a)
    ensures Hadamard(Vec3(s, s, s), b) == Scale(s, b)
  {
  }

  /** Scaling by `s` then by `1 / s` is the identity, so `Div` undoes `MulScalar`. */
  lemma DivUndoesMulScalar(v: Vec3, s: real)
    requires s != 0.0
    ensures Div(MulScalar(v, s), s) == v
  {
  }

  /** The cross product is anti-commutative and its squared length is Lagrange's
      identity. */
  lemma CrossLaws(a: Vec3, b: Vec3)
    ensures Cross(a, b) == Negate(Cross(b, a))
    ensures LengthSquared(Cross(a, b)) == LengthSquared(a) * LengthSquared(b) - Dot(a, b) * Dot(a, b)
  {
  }

  /** Scaling a vector scales its length by the absolute value of the factor. */
  lemma LengthScale(sqrt: real -> real, s: real, v: Vec3)
    requires IsSqrt(sqrt)
    ensures Length(sqrt, Scale(s, v)) == Abs(s) * Length(sqrt, v)
  {
    var l := Length(sqrt, v);
    LengthSquaredScale(s, v);
    assert Abs(s) * Abs(s) == s * s;
    assert (Abs(s) * l) * (Abs(s) * l) == (s * s) * (l * l);
    NonNegativeRootUnique(Length(sqrt, Scale(s, v)), Abs(s) * l);
  }

  /** A unit vector is its own unit vector. */
  lemma UnitVectorIdempotent(sqrt: real -> real, v: Vec3)
    requires IsSqrt(sqrt) && LengthSquared(v) > 0.0
    ensures UnitVector(sqrt, UnitVector(sqrt, v)) == UnitVector(sqrt, v)
  {
  }

  /** The zero vector is near zero, and so is the negation of a vector exactly
      when the vector is. */
  lemma NearZeroLaws(v: Vec3)
    ensures NearZero(Zero())
    ensures NearZero(Negate(v)) <==> NearZero(v)
    ensures !NearZero(Vec3(NEAR_ZERO_BOUND, 0.0, 0.0))
  {
  }

  /** A near-zero vector is short: its squared length is below three times the
      square of the bound. */
  lemma NearZeroIsShort(v: Vec3)
    requires NearZero(v)
    ensures LengthSquared(v) < 3.0 * (NEAR_ZERO_BOUND * NEAR_ZERO_BOUND)
  {
    SquareOfAbs(v.x);
    SquareOfAbs(v.y);
    SquareOfAbs(v.z);
    SquareStrictlyIncreasing(Abs(v.x), NEAR_ZERO_BOUND);
    SquareStrictlyIncreasing(Abs(v.y), NEAR_ZERO_BOUND);
    SquareStrictlyIncreasing(Abs(v.z), NEAR_ZERO_BOUND);
  }

  lemma SquareOfAbs(x: real)
    ensures Abs(x) * Abs(x) == x * x
  {
  }

  /** Reflecting twice about the same unit normal restores the vector. */
  lemma ReflectInvolutive(v: Vec3, n: Vec3)
    requires Dot(n, n) == 1.0
    ensures Reflect(Reflect(v, n), n) == v
  {
    var k := Dot(v, n);
    var r := Reflect(v, n);
    assert Dot(r, n) == -k;
    assert Reflect(r, n) == Sub(r, Scale(2.0 * -k, n));
  }

  /** Two non-negative numbers with the same square are equal. */
  lemma NonNegativeRootUnique(p: real, q: real)
    requires 0.0 <= p && 0.0 <= q && p * p == q * q
    ensures p == q
  {
    if p < q {
      SquareStrictlyIncreasing(p, q);
    } else if q < p {
      SquareStrictlyIncreasing(q, p);
    }
  }

  // ------------------------------------------------------------------
  // Proof helpers

  lemma UnitLength(v: Vec3, len: real, r: Vec3)
    requires len != 0.0 && len * len == LengthSquared(v)
    requires r == Div(v, len)
    ensures LengthSquared(r) == 1.0
  {
    assert r.x * len == v.x && r.y * len == v.y && r.z * len == v.z;
    calc {
      LengthSquared(r) * (len * len);
      (r.x * len) * (r.x * len) + (r.y * len) * (r.y * len) + (r.z * len) * (r.z * len);
      LengthSquared(v);
      len * len;
    }
  }

  lemma SqrtOfOne(sqrt: real -> real)
    requires IsSqrt(sqrt)
    ensures sqrt(1.0) == 1.0
  {
    SqrtBelow(sqrt(1.0), 1.0, 1.0);
    SqrtAbove(sqrt(1.0), 1.0, 1.0);
  }

  /** A non-negative number whose square is at most `m * m` is at most `m`. */
  lemma SqrtBelow(s: real, d: real, m: real)
    requires 0.0 <= s && s * s == d && 0.0 <= m && d <= m * m
    ensures s <= m
  {
    if s > m {
      SquareStrictlyIncreasing(m, s);
      assert false;
    }
  }

  /** A non-negative number whose square is at least `m * m` is at least `m`. */
  lemma SqrtAbove(s: real, d: real, m: real)
    requires 0.0 <= s && s * s == d && 0.0 <= m && m * m <= d
    ensures m <= s
  {
    if s < m {
      SquareStrictlyIncreasing(s, m);
      assert false;
    }
  }

  lemma SquareStrictlyIncreasing(a: real, b: real)
    requires 0.0 <= a < b
    ensures a * a < b * b
  {
    assert b * (b - a) > 0.0;
    assert a * (b - a) >= 0.0;
  }

  lemma ReflectLaws(v: Vec3, n: Vec3, k: real, r: Vec3)
    requires k == Dot(v, n) && r == Sub(v, Scale(2.0 * k, n))
    ensures Dot(n, n) == 1.0 ==> Dot(r, n) == -k
    ensures Dot(n, n) == 1.0 ==> LengthSquared(r) == LengthSquared(v)
  {
    DotSubLeft(v, Scale(2.0 * k, n), n);
    DotScaleLeft(2.0 * k, n, n);
    if Dot(n, n) == 1.0 {
      LengthSquaredSub(v, Scale(2.0 * k, n));
      DotScaleLeft(2.0 * k, n, v);
      DotSymmetric(n, v);
      LengthSquaredScale(2.0 * k, n);
    }
  }

  lemma RefractLaws(sqrt: real -> real, v: Vec3, n: Vec3, eta: real, perp: Vec3, parallel: Vec3)
    requires perp == RefractPerpendicular(v, n, eta)
    requires parallel == Scale(-sqrt(Abs(1.0 - LengthSquared(perp))), n)
    ensures Dot(n, n) == 1.0 && -Dot(v, n) <= 1.0 ==> Dot(perp, n) == 0.0
    ensures IsSqrt(sqrt) && Dot(n, n) == 1.0 && -Dot(v, n) <= 1.0 && LengthSquared(perp) <= 1.0 ==>
              LengthSquared(Add(perp, parallel)) == 1.0
  {
    if Dot(n, n) == 1.0 && -Dot(v, n) <= 1.0 {
      var cosTheta := Min(Dot(Scale(-1.0, v), n), 1.0);
      DotScaleLeft(-1.0, v, n);
      assert cosTheta == -Dot(v, n);
      var inner := Add(v, Scale(cosTheta, n));
      DotAddLeft(v, Scale(cosTheta, n), n);
      DotScaleLeft(cosTheta, n, n);
      assert Dot(inner, n) == 0.0;
      DotScaleLeft(eta, inner, n);
      assert Dot(perp, n) == 0.0;
      if IsSqrt(sqrt) && LengthSquared(perp) <= 1.0 {
        var s := sqrt(Abs(1.0 - LengthSquared(perp)));
        assert s * s == 1.0 - LengthSquared(perp);
        LengthSquaredAdd(perp, parallel);
        DotScaleLeft(-s, n, perp);
        DotSymmetric(n, perp);
        LengthSquaredScale(-s, n);
      }
    }
  }

  // ------------------------------------------------------------------
  // Algebraic laws of the vector operations

  lemma DotSymmetric(a: Vec3, b: Vec3)
    ensures Dot(a, b) == Dot(b, a)
  {
  }

  lemma DotAddLeft(a: Vec3, b: Vec3, c: Vec3)
    ensures Dot(Add(a, b), c) == Dot(a, c) + Dot(b, c)
  {
  }

  lemma DotSubLeft(a: Vec3, b: Vec3, c: Vec3)
    ensures Dot(Sub(a, b), c) == Dot(a, c) - Dot(b, c)
  {
  }

  lemma DotScaleLeft(s: real, a: Vec3, b: Vec3)
    ensures Dot(Scale(s, a), b) == s * Dot(a, b)
  {
  }

  lemma LengthSquaredAdd(a: Vec3, b: Vec3)
    ensures LengthSquared(Add(a, b)) == LengthSquared(a) + 2.0 * Dot(a, b) + LengthSquared(b)
  {
  }

  lemma LengthSquaredSub(a: Vec3, b: Vec3)
    ensures LengthSquared(Sub(a, b)) == LengthSquared(a) - 2.0 * Dot(a, b) + LengthSquared(b)
  {
  }

  lemma LengthSquaredScale(s: real, a: Vec3)
    ensures LengthSquared(Scale(s, a)) == s * s * LengthSquared(a)
  {
  }
}
