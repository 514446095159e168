/** The sphere of src/sphere.rs and its ray intersection. */
module Spheres {
  import opened Options
  import opened Vectors
  import opened Rays
  import opened Materials
  import opened Hittables

  datatype SphereData = SphereData(center: Vec3, radius: real, material: Material)

  /** `Sphere::new(center, radius, material)`. The outward normal divides by the
      radius, so a zero radius (NaN normals in f64) is excluded. A negative radius
      is allowed: it turns the outward normal inwards. */
  type Sphere = s: SphereData | s.radius != 0.0
    witness SphereData(Zero(), 1.0, Lambertian(Zero()))

  /** `oc = origin - center`. */
  function OriginOffset(s: Sphere, ray: Ray): Vec3
  {
    Sub(Origin(ray), s.center)
  }

  /** `half_b = oc . direction`. */
  function HalfB(s: Sphere, ray: Ray): real
  {
    Dot(OriginOffset(s, ray), Direction(ray))
  }

  /** `c = |oc|^2 - radius^2`. */
  function C(s: Sphere, ray: Ray): real
  {
    LengthSquared(OriginOffset(s, ray)) - s.radius * s.radius
  }

  /** `half_b^2 - a c`, with `a = |direction|^2`. */
  function Discriminant(s: Sphere, ray: Ray): real
  {
    HalfB(s, ray) * HalfB(s, ray) - LengthSquared(Direction(ray)) * C(s, ray)
  }

  /** `(-half_b - sqrtd) / a`, the root tried first. */
  function NearRoot(sqrt: real -> real, s: Sphere, ray: Ray): real
  {
    (-HalfB(s, ray) - sqrt(Discriminant(s, ray))) / LengthSquared(Direction(ray))
  }

  /** `(-half_b + sqrtd) / a`, the root tried when the first is out of the window. */
  function FarRoot(sqrt: real -> real, s: Sphere, ray: Ray): real
  {
    (-HalfB(s, ray) + sqrt(Discriminant(s, ray))) / LengthSquared(Direction(ray))
  }

  /** The negation of the source's rejection test `root < t_min || t_max < root`. */
  predicate InWindow(t: real, tMin: real, tMax: real)
  {
    !(t < tMin || tMax < t)
  }

  /** `(p - center) / radius`. */
  function OutwardNormal(s: Sphere, p: Vec3): (n: Vec3)
    ensures Scale(s.radius, n) == Sub(p, s.center)
  {
    Div(Sub(p, s.center), s.radius)
  }

  /** The record built for a root: the point on the ray, the root, the sphere's
      material and the face normal from the outward normal. */
  function RecordAt(s: Sphere, ray: Ray, root: real): (r: HitRecord)
    ensures r.p == At(ray, root) && r.t == root && r.material == s.material
    ensures r.frontFace <==> Dot(Direction(ray), OutwardNormal(s, r.p)) < 0.0
    ensures r.normal == (if r.frontFace then OutwardNormal(s, r.p) else Negate(OutwardNormal(s, r.p)))
    ensures Dot(Direction(ray), r.normal) <= 0.0
  {
    var rec := HitRecord(At(ray, root), Zero(), root, false, s.material);
    SetFaceNormal(rec, ray, OutwardNormal(s, rec.p))
  }

  /** `Sphere::hit`: no hit when the discriminant is negative; otherwise the near
      root if it lies in the window, else the far root if it does, else no hit. */
  function Hit(sqrt: real -> real, s: Sphere, ray: Ray, tMin: real, tMax: real): (r: Option<HitRecord>)
    ensures r.None? <==>
              Discriminant(s, ray) < 0.0 ||
              (!InWindow(NearRoot(sqrt, s, ray), tMin, tMax) && !InWindow(FarRoot(sqrt, s, ray), tMin, tMax))
    ensures r.Some? ==> tMin <= r.value.t <= tMax
    ensures r.Some? && InWindow(NearRoot(sqrt, s, ray), tMin, tMax) ==> r.value.t == NearRoot(sqrt, s, ray)
    ensures r.Some? && !InWindow(NearRoot(sqrt, s, ray), tMin, tMax) ==> r.value.t == FarRoot(sqrt, s, ray)
    ensures r.Some? ==> r.value == RecordAt(s, ray, r.value.t)
  {
    if Discriminant(s, ray) < 0.0 then None
    else
      var root := NearRoot(sqrt, s, ray);
      if InWindow(root, tMin, tMax) then Some(RecordAt(s, ray, root))
      else
        var root := FarRoot(sqrt, s, ray);
        if InWindow(root, tMin, tMax) then Some(RecordAt(s, ray, root))
        else None
  }

  /** `Sphere` as a `Hittable`. */
  function SphereHit(sqrt: real -> real): (T: (Sphere, Ray, real, real) -> Option<HitRecord>)
    ensures forall s, ray, tMin, tMax :: T(s, ray, tMin, tMax) == Hit(sqrt, s, ray, tMin, tMax)
  {
    (s: Sphere, ray: Ray, tMin: real, tMax: real) => Hit(sqrt, s, ray, tMin, tMax)
  }

  // ------------------------------------------------------------------
  // Properties of a hit

  /** The near root is never after the far root. */
  lemma NearBeforeFar(sqrt: real -> real, s: Sphere, ray: Ray)
    requires IsSqrt(sqrt) && Discriminant(s, ray) >= 0.0
    ensures NearRoot(sqrt, s, ray) <= FarRoot(sqrt, s, ray)
  {
    var a := LengthSquared(Direction(ray));
    var q := sqrt(Discriminant(s, ray));
    assert FarRoot(sqrt, s, ray) - NearRoot(sqrt, s, ray) == (2.0 * q) / a;
  }

  /** Both roots solve `a t^2 + 2 half_b t + c = 0`. */
  lemma RootsSolveQuadratic(sqrt: real -> real, s: Sphere, ray: Ray)
    requires IsSqrt(sqrt) && Discriminant(s, ray) >= 0.0
    ensures var t := NearRoot(sqrt, s, ray);
            LengthSquared(Direction(ray)) * t * t + 2.0 * HalfB(s, ray) * t + C(s, ray) == 0.0
    ensures var t := FarRoot(sqrt, s, ray);
            LengthSquared(Direction(ray)) * t * t + 2.0 * HalfB(s, ray) * t + C(s, ray) == 0.0
  {
    var q := sqrt(Discriminant(s, ray));
    QuadraticRoot(LengthSquared(Direction(ray)), HalfB(s, ray), C(s, ray), -q);
    QuadraticRoot(LengthSquared(Direction(ray)), HalfB(s, ray), C(s, ray), q);
  }

  /** `(-hb + q) / a` solves `a t^2 + 2 hb t + c = 0` when `q^2 = hb^2 - a c`. */
  lemma QuadraticRoot(a: real, hb: real, c: real, q: real)
    requires a != 0.0 && q * q == hb * hb - a * c
    ensures var t := (-hb + q) / a; a * t * t + 2.0 * hb * t + c == 0.0
  {
  }

  /** The squared distance from the center of the point at parameter `t` is the
      quadratic in `t` that the intersection solves, plus `radius^2`. */
  lemma DistanceAlongRay(s: Sphere, ray: Ray, t: real)
    ensures LengthSquared(Sub(At(ray, t), s.center)) ==
            LengthSquared(Direction(ray)) * t * t + 2.0 * HalfB(s, ray) * t + C(s, ray) + s.radius * s.radius
  {
    var oc := OriginOffset(s, ray);
    assert Sub(At(ray, t), s.center) == Add(oc, Scale(t, Direction(ray)));
    LengthSquaredAdd(oc, Scale(t, Direction(ray)));
    DotSymmetric(Scale(t, Direction(ray)), oc);
    DotScaleLeft(t, Direction(ray), oc);
    DotSymmetric(Direction(ray), oc);
    LengthSquaredScale(t, Direction(ray));
  }

  /** A hit lies on the sphere. */
  lemma HitIsOnSphere(sqrt: real -> real, s: Sphere, ray: Ray, tMin: real, tMax: real)
    requires IsSqrt(sqrt)
    ensures var r := Hit(sqrt, s, ray, tMin, tMax);
            r.Some? ==> LengthSquared(Sub(r.value.p, s.center)) == s.radius * s.radius
  {
    var r := Hit(sqrt, s, ray, tMin, tMax);
    if r.Some? {
      RootsSolveQuadratic(sqrt, s, ray);
      DistanceAlongRay(s, ray, r.value.t);
    }
  }

  /** The normal of a hit is a unit vector. */
  lemma HitNormalIsUnit(sqrt: real -> real, s: Sphere, ray: Ray, tMin: real, tMax: real)
    requires IsSqrt(sqrt)
    ensures var r := Hit(sqrt, s, ray, tMin, tMax);
            r.Some? ==> LengthSquared(r.value.normal) == 1.0
  {
    var r := Hit(sqrt, s, ray, tMin, tMax);
    if r.Some? {
      HitIsOnSphere(sqrt, s, ray, tMin, tMax);
      var d := Sub(r.value.p, s.center);
      LengthSquaredScale(1.0 / s.radius, d);
      InverseSquare(s.radius, LengthSquared(d));
      var rec := HitRecord(r.value.p, Zero(), r.value.t, false, s.material);
      SetFaceNormalKeepsLength(rec, ray, OutwardNormal(s, r.value.p));
    }
  }

  /** Every sphere hit lies in the window it was asked about. */
  lemma SphereRespectsWindow(sqrt: real -> real)
    ensures RespectsWindow(SphereHit(sqrt))
  {
  }

  /** A sphere reports its nearest hit in the window: asked about a shorter
      window it gives the same hit if that still fits, and no hit otherwise. */
  lemma SphereReportsNearest(sqrt: real -> real)
    requires IsSqrt(sqrt)
    ensures ReportsNearest(SphereHit(sqrt))
  {
    forall s: Sphere, ray: Ray, tMin: real, tMax: real, tShorter: real | tShorter <= tMax
      ensures SphereHit(sqrt)(s, ray, tMin, tShorter) == Cut(SphereHit(sqrt)(s, ray, tMin, tMax), tShorter)
    {
      if Discriminant(s, ray) >= 0.0 {
        NearBeforeFar(sqrt, s, ray);
      }
    }
  }

  /** A list of spheres reports the nearest hit of all its spheres. */
  lemma SphereListIsNearest(sqrt: real -> real, spheres: seq<Sphere>, ray: Ray, tMin: real, tMax: real)
    requires IsSqrt(sqrt)
    ensures var r := ListHit(SphereHit(sqrt), spheres, ray, tMin, tMax);
            r.Some? ==> exists k :: 0 <= k < |spheres| && Hit(sqrt, spheres[k], ray, tMin, tMax) == r
    ensures var r := ListHit(SphereHit(sqrt), spheres, ray, tMin, tMax);
            forall i :: 0 <= i < |spheres| && Hit(sqrt, spheres[i], ray, tMin, tMax).Some? ==>
              r.Some? && r.value.t <= Hit(sqrt, spheres[i], ray, tMin, tMax).value.t
  {
    SphereRespectsWindow(sqrt);
    SphereReportsNearest(sqrt);
    ListHitIsNearest(SphereHit(sqrt), spheres, ray, tMin, tMax);
  }

  /** For a sphere of positive radius, the ray hits the front face exactly when the
      hit is the near root of a secant (the ray enters the sphere there); at a
      tangent point and at the far root it hits the back face. */
  lemma HitFrontFace(sqrt: real -> real, s: Sphere, ray: Ray, tMin: real, tMax: real)
    requires IsSqrt(sqrt) && s.radius > 0.0
    ensures var r := Hit(sqrt, s, ray, tMin, tMax);
            r.Some? ==> (r.value.frontFace <==>
                         Discriminant(s, ray) > 0.0 && r.value.t == NearRoot(sqrt, s, ray))
  {
    var r := Hit(sqrt, s, ray, tMin, tMax);
    if r.Some? {
      var t := r.value.t;
      var q := sqrt(Discriminant(s, ray));
      RecordFrontFace(s, ray, t);
      RootTimesA(LengthSquared(Direction(ray)), HalfB(s, ray), -q);
      RootTimesA(LengthSquared(Direction(ray)), HalfB(s, ray), q);
      if t == NearRoot(sqrt, s, ray) {
        assert HalfB(s, ray) + LengthSquared(Direction(ray)) * t == -q;
        RootPositive(q, Discriminant(s, ray));
      } else {
        assert HalfB(s, ray) + LengthSquared(Direction(ray)) * t == q;
      }
    }
  }

  /** The record at parameter `t` of a sphere with positive radius is on the front
      face exactly when the direction points against the offset from the center,
      `half_b + a t < 0`. */
  lemma RecordFrontFace(s: Sphere, ray: Ray, t: real)
    requires s.radius > 0.0
    ensures RecordAt(s, ray, t).frontFace <==> HalfB(s, ray) + LengthSquared(Direction(ray)) * t < 0.0
  {
    var w := Sub(At(ray, t), s.center);
    DotAlongRay(s, ray, t);
    assert OutwardNormal(s, At(ray, t)) == Scale(1.0 / s.radius, w);
    DotSymmetric(Direction(ray), Scale(1.0 / s.radius, w));
    DotScaleLeft(1.0 / s.radius, w, Direction(ray));
    DotSymmetric(w, Direction(ray));
    PositiveScaleKeepsSign(1.0 / s.radius, Dot(Direction(ray), w));
  }

  /** For a sphere of negative radius the outward normal points inwards, so the
      face test flips: front face iff `half_b + a t > 0`, i.e. the ray moves away
      from the center. */
  lemma RecordFrontFaceNegativeRadius(s: Sphere, ray: Ray, t: real)
    requires s.radius < 0.0
    ensures RecordAt(s, ray, t).frontFace <==> HalfB(s, ray) + LengthSquared(Direction(ray)) * t > 0.0
  {
    var w := Sub(At(ray, t), s.center);
    DotAlongRay(s, ray, t);
    assert OutwardNormal(s, At(ray, t)) == Scale(1.0 / s.radius, w);
    DotSymmetric(Direction(ray), Scale(1.0 / s.radius, w));
    DotScaleLeft(1.0 / s.radius, w, Direction(ray));
    DotSymmetric(w, Direction(ray));
    NegativeScaleFlipsSign(1.0 / s.radius, Dot(Direction(ray), w));
  }

  /** When the discriminant is negative the line of the ray misses the sphere:
      no parameter `t` puts `ray.at(t)` on it, so reporting no hit loses nothing. */
  lemma NegativeDiscriminantMisses(s: Sphere, ray: Ray, t: real)
    requires Discriminant(s, ray) < 0.0
    ensures LengthSquared(Sub(At(ray, t), s.center)) != s.radius * s.radius
  {
    DistanceAlongRay(s, ray, t);
    QuadraticHasNoRoot(LengthSquared(Direction(ray)), HalfB(s, ray), C(s, ray), t);
  }

  /** `a t^2 + 2 hb t + c` has no root when `hb^2 - a c < 0` and `a > 0`. */
  lemma QuadraticHasNoRoot(a: real, hb: real, c: real, t: real)
    requires a > 0.0 && hb * hb - a * c < 0.0
    ensures a * t * t + 2.0 * hb * t + c != 0.0
  {
    assert a * (a * t * t + 2.0 * hb * t + c) == (a * t + hb) * (a * t + hb) - (hb * hb - a * c);
    SquareNonNegative(a * t + hb);
  }

  lemma SquareNonNegative(x: real)
    ensures x * x >= 0.0
  {
    if x < 0.0 {
      assert (-x) * (-x) > 0.0;
    }
  }

  /** A ray starting strictly inside a sphere of positive radius, asked about a
      window of non-negative parameters, only ever hits the back face. */
  lemma InsideHitsBackFace(sqrt: real -> real, s: Sphere, ray: Ray, tMin: real, tMax: real)
    requires IsSqrt(sqrt) && s.radius > 0.0
    requires LengthSquared(OriginOffset(s, ray)) < s.radius * s.radius && 0.0 <= tMin
    ensures var r := Hit(sqrt, s, ray, tMin, tMax);
            r.Some? ==> !r.value.frontFace && r.value.t == FarRoot(sqrt, s, ray)
  {
    var r := Hit(sqrt, s, ray, tMin, tMax);
    var a := LengthSquared(Direction(ray));
    var hb := HalfB(s, ray);
    PositiveTimesNegative(a, C(s, ray));
    var q := sqrt(Discriminant(s, ray));
    SquareBelowRoot(hb, q);
    RootTimesA(a, hb, -q);
    NegativeOverPositive(-hb - q, a);
    assert NearRoot(sqrt, s, ray) < 0.0;
    HitFrontFace(sqrt, s, ray, tMin, tMax);
  }

  /** At a tangent hit (a zero discriminant) the stored normal is perpendicular
      to the ray, so the orientation `direction . normal` reaches zero, and the hit
      counts as a back-face hit. */
  lemma TangentHitIsPerpendicular(sqrt: real -> real, s: Sphere, ray: Ray, tMin: real, tMax: real)
    requires IsSqrt(sqrt) && Discriminant(s, ray) == 0.0
    ensures var r := Hit(sqrt, s, ray, tMin, tMax);
            r.Some? ==> !r.value.frontFace && Dot(Direction(ray), r.value.normal) == 0.0
  {
    var r := Hit(sqrt, s, ray, tMin, tMax);
    if r.Some? {
      var t := r.value.t;
      var w := Sub(At(ray, t), s.center);
      RootPositive(sqrt(0.0), 0.0);
      RootTimesA(LengthSquared(Direction(ray)), HalfB(s, ray), 0.0);
      assert t == (-HalfB(s, ray) + 0.0) / LengthSquared(Direction(ray));
      DotAlongRay(s, ray, t);
      assert Dot(Direction(ray), w) == 0.0;
      assert OutwardNormal(s, At(ray, t)) == Scale(1.0 / s.radius, w);
      DotSymmetric(Direction(ray), Scale(1.0 / s.radius, w));
      DotScaleLeft(1.0 / s.radius, w, Direction(ray));
      DotSymmetric(w, Direction(ray));
      var n := OutwardNormal(s, At(ray, t));
      assert Dot(Direction(ray), n) == 0.0;
      DotSymmetric(Direction(ray), Scale(-1.0, n));
      DotScaleLeft(-1.0, n, Direction(ray));
      DotSymmetric(n, Direction(ray));
    }
  }

  /** `a * (-hb + q) / a == -hb + q`. */
  lemma RootTimesA(a: real, hb: real, q: real)
    requires a != 0.0
    ensures a * ((-hb + q) / a) == -hb + q
  {
  }

  /** The direction's component along the offset from the center, at parameter t. */
  lemma DotAlongRay(s: Sphere, ray: Ray, t: real)
    ensures Dot(Direction(ray), Sub(At(ray, t), s.center)) ==
            HalfB(s, ray) + LengthSquared(Direction(ray)) * t
  {
    var oc := OriginOffset(s, ray);
    assert Sub(At(ray, t), s.center) == Add(oc, Scale(t, Direction(ray)));
  }

  /** The root is positive exactly when the square is. */
  lemma RootPositive(q: real, d: real)
    requires 0.0 <= q && q * q == d
    ensures 0.0 < q <==> 0.0 < d
  {
    if 0.0 < q {
      SquareStrictlyIncreasing(0.0, q);
    } else {
      assert q == 0.0;
    }
  }

  lemma PositiveScaleKeepsSign(k: real, x: real)
    requires k > 0.0
    ensures k * x < 0.0 <==> x < 0.0
  {
    if x < 0.0 {
      assert k * (-x) > 0.0;
    } else {
      assert k * x >= 0.0;
    }
  }

  lemma NegativeScaleFlipsSign(k: real, x: real)
    requires k < 0.0
    ensures k * x < 0.0 <==> x > 0.0
  {
    PositiveScaleKeepsSign(-k, -x);
  }

  lemma PositiveTimesNegative(a: real, c: real)
    requires a > 0.0 && c < 0.0
    ensures a * c < 0.0
  {
    assert a * (-c) > 0.0;
  }

  lemma NegativeOverPositive(x: real, a: real)
    requires x < 0.0 && a > 0.0
    ensures x / a < 0.0
  {
    assert a * (x / a) == x;
  }

  /** A non-negative number whose square exceeds `hb^2` exceeds both `hb` and `-hb`. */
  lemma SquareBelowRoot(hb: real, q: real)
    requires 0.0 <= q && hb * hb < q * q
    ensures hb < q && -hb < q
  {
    var m := Abs(hb);
    assert m * m == hb * hb;
    if q <= m {
      if q < m {
        SquareStrictlyIncreasing(q, m);
      }
      assert false;
    }
  }

  lemma InverseSquare(radius: real, l: real)
    requires radius != 0.0 && l == radius * radius
    ensures (1.0 / radius) * (1.0 / radius) * l == 1.0
  {
  }
}
