# Ray–object intersection core of a Rust path tracer, in Dafny

This project models the geometric core of a small path tracer written in Rust.
It covers the 3-vector algebra (`src/vec3.rs`), the ray (`src/ray.rs`), the sphere
intersection (`src/sphere.rs`) and the hit record and scene list
(`src/hittable.rs`). It proves what the renderer relies on:

- a hit lies inside the window of ray parameters it was asked about;
- a sphere hit is a root of the ray–sphere quadratic and lies on the sphere;
- the stored normal has unit length and faces against the ray;
- the scene list returns the nearest hit of all its objects.

Modules, one per source file, and a small `Options` module:

- `Vectors` (`vec3.dfy`): `Vec3` as a datatype of three reals. The value operators
  are functions. The in-place operators are methods over the storage array `e`. The three
  compound assignments `+=`, `*=` and `/=` are proved equal to `Add`, `Scale` and
  `Div` of the old storage. `IndexMut` is specified by the element it writes and
  the two it leaves unchanged.
- `Rays` (`ray.dfy`): a ray is a subset type whose direction is not the zero
  vector.
- `Hittables` (`hittable.dfy`):
  - `HitRecord` is a datatype and `SetFaceNormal` computes the re-oriented record.
  - The `Hittable` trait becomes a hit function value
    `(T, Ray, real, real) -> Option<HitRecord>`. Its contract is the predicate
    `RespectsWindow`.
  - `ReportsNearest` says that an object answers with its nearest hit.
  - `HittableList` is a class whose `objects` field is a sequence. Its `Hit` loop is
    proved against the specification function `ListHit`, which mirrors the loop
    over prefixes of the list.
- `Spheres` (`sphere.dfy`):
  - `Sphere::new` is the datatype constructor, restricted to a nonzero radius.
  - `Hit` follows the source's branches: a negative discriminant gives no hit, the
    near root is tried first and the far root second.
  - `SphereHit(sqrt)` is the sphere as a hittable. It is proved to satisfy both
    `RespectsWindow` and `ReportsNearest`, so the list-level nearest-hit theorem
    applies to a scene of spheres.
- `Materials` (`material.dfy`): the three material variants the scene uses, as
  opaque data.
- `Options` (`options.dfy`): Rust's `Option` together with `unwrap_or`.

f64 arithmetic is modelled by exact reals. `sqrt` is passed in as a function
parameter. The facts that depend on it require the square-root law `IsSqrt`: the
result is non-negative and squares back to the argument, for every non-negative
argument.

Where the usual statement of the renderer's invariants and the code differ, the
model follows the code:

- The orientation invariant is usually stated as `direction · normal < 0`. The
  code gives `<= 0`. At a tangent hit (zero discriminant) the product is exactly zero
  and the record is marked as a back-face hit (`TangentHitIsPerpendicular`).
- For the vector `-v` the code subtracts one from each component instead of
  negating (see Findings). The code that flips normals does not use `-v`. It uses
  `(-1.0) * v`, which is modelled as `Scale(-1.0, v)` and shown equal to `Negate`.

## Model

| member | source | states |
|---|---|---|
| Options.Option.GetOr | src/ray.rs:13 | `unwrap_or`: the carried value when present, the default otherwise |
| Vectors.Index | src/vec3.rs:44-50 | `v[i]` is element `i` of the storage |
| Vectors.StorageRoundTrip | src/vec3.rs:4-7 | the storage `e` determines the vector: reading it back gives the same vector |
| Vectors.Neg | src/vec3.rs:12-18 | as written, `-v` is `v` minus one in every component: `v - Neg(v)` is the all-ones vector |
| Vectors.NegIsNotNegation | src/vec3.rs:12-18 | `Neg` is not negation: `0 + Neg(0) != 0`, `Neg(Neg(0)) = (-2,-2,-2)` and `Neg(0) != Negate(0)` |
| Vectors.Negate | src/vec3.rs:12-18 | corrected negation: the additive inverse (`v + Negate(v) = 0`), which equals scaling by -1 |
| Vectors.NegateInvolutive | src/vec3.rs:12-18 | negating twice restores the vector, and negation is subtraction from zero |
| Vectors.Add | src/vec3.rs:58-70 | each component of `a + b` is the sum of the two components |
| Vectors.Sub | src/vec3.rs:72-84 | each component of `a - b` is the difference of the two components |
| Vectors.SubUndoesAdd | src/vec3.rs:58-84 | `(a + b) - b = a`, `(a - b) + b = a`, and addition commutes |
| Vectors.Hadamard | src/vec3.rs:86-98 | each component of `a * b` is the product of the two components |
| Vectors.HadamardLaws | src/vec3.rs:86-108 | the componentwise product commutes, and multiplying by a constant vector `(s,s,s)` is scaling by `s` |
| Vectors.Scale | src/vec3.rs:100-108 | each component of `s * v` is `s` times the component |
| Vectors.MulScalar | src/vec3.rs:110-116 | `v * s` multiplies every component by `s` |
| Vectors.Div | src/vec3.rs:118-124 | `v / s` divides every component by `s`, and scaling the result by `s` gives back `v` |
| Vectors.DivUndoesMulScalar | src/vec3.rs:110-124 | `(v * s) / s = v` for nonzero `s` |
| Vectors.LengthSquared | src/vec3.rs:149-151 | the squared length is non-negative and equals `v · v` |
| Vectors.Length | src/vec3.rs:145-147 | under the square-root law, the length is non-negative and squares to the squared length |
| Vectors.LengthScale | src/vec3.rs:145-151 | `length(s v) = abs(s) * length(v)` |
| Vectors.Dot | src/vec3.rs:153-155 | the sum of the three componentwise products; it has no contract of its own, and its laws are the next rows and `LengthSquared` |
| Vectors.DotSymmetric | src/vec3.rs:153-155 | the dot product is symmetric |
| Vectors.DotAddLeft | src/vec3.rs:153-155 | the dot product distributes over a sum in its first operand |
| Vectors.DotScaleLeft | src/vec3.rs:153-155 | a scalar factor in the first operand comes out of the dot product |
| Vectors.Cross | src/vec3.rs:157-165 | the cross product is orthogonal to both operands |
| Vectors.CrossLaws | src/vec3.rs:157-165 | anti-commutativity, and Lagrange's identity `‖a × b‖² = ‖a‖² ‖b‖² - (a · b)²` |
| Vectors.UnitVector | src/vec3.rs:167-169 | a nonzero vector divided by its length has squared length 1 and length 1, and points the same way: it scaled by the (positive) length of `v` gives back `v` |
| Vectors.UnitVectorIdempotent | src/vec3.rs:167-169 | the unit vector of a unit vector is itself |
| Vectors.ColorChannel | src/vec3.rs:172-180 | one output channel lies in `[0, 255 * 0.999]` |
| Vectors.ColorChannelGamma | src/vec3.rs:172-180 | below the clamp, the channel squared is `255²` times the averaged sample sum (gamma 2) |
| Vectors.WriteColor | src/vec3.rs:171-185 | every channel of the written colour lies in `[0, 255 * 0.999]` |
| Vectors.NearZero | src/vec3.rs:187-190 | every component's absolute value is below `1e-8`; it has no contract of its own, and its laws are the next rows |
| Vectors.NearZeroIsShort | src/vec3.rs:187-190 | a near-zero vector has squared length below `3 * (1e-8)²` |
| Vectors.NearZeroLaws | src/vec3.rs:187-190 | the zero vector is near zero, near-zero is preserved by negation, and a component of exactly `1e-8` is not near zero |
| Vectors.Reflect | src/vec3.rs:192-194 | about a unit normal, reflection flips the normal component and keeps the length |
| Vectors.ReflectInvolutive | src/vec3.rs:192-194 | reflecting twice about the same unit normal restores the vector |
| Vectors.Refract | src/vec3.rs:196-201 | for a unit normal and an incoming vector with `cos θ <= 1`, the perpendicular part is orthogonal to the normal; when that part has length at most 1, the refracted vector has unit length |
| Vectors.AddAssign | src/vec3.rs:20-26 | `e += rhs` leaves the storage holding `old + rhs` |
| Vectors.MulAssign | src/vec3.rs:28-34 | `e *= rhs` leaves the storage holding `rhs * old` |
| Vectors.DivAssign | src/vec3.rs:36-42 | `e /= rhs` divides each element and equals `old / rhs` |
| Vectors.IndexMut | src/vec3.rs:52-56 | writing through `v[i]` sets element `i` and leaves the other two unchanged |
| Rays.New | src/ray.rs:12-14 | a missing time defaults to 0, and a given time is kept |
| Rays.NewAccessors | src/ray.rs:12-30 | `origin()`, `direction()` and `time()` return what the constructor was given |
| Rays.Origin | src/ray.rs:16-18 | the origin is where the ray is at `t = 0` |
| Rays.Direction | src/ray.rs:20-22 | the direction is nonzero and is the step from `at(0)` to `at(1)` |
| Rays.Time | src/ray.rs:28-30 | the stored time; it has no contract of its own, and `Rays.New` and `Rays.NewAccessors` state what it returns |
| Rays.At | src/ray.rs:24-26 | `at(t) - origin = t * direction` |
| Rays.AtZero | src/ray.rs:24-26 | the ray is at its origin for `t = 0` |
| Rays.AtDifference | src/ray.rs:24-26 | `at(t1) - at(t2) = (t1 - t2) * direction` |
| Hittables.SetFaceNormal | src/hittable.rs:17-24 | front face iff `direction · outward < 0`; the normal is the outward normal on the front face and its negation on the back face; hence `direction · normal <= 0`; point, parameter and material unchanged |
| Hittables.SetFaceNormalKeepsLength | src/hittable.rs:17-24 | the stored normal has the length of the outward normal |
| Hittables.RespectsWindow | src/hittable.rs:27-29 | the contract of `Hittable::hit`: a reported hit lies in `[t_min, t_max]`; a predicate, used as a precondition of the list lemmas and proved for spheres by `Spheres.SphereRespectsWindow` |
| Hittables.ListHit | src/hittable.rs:43-62 | the specification of the list's loop, over prefixes; it has no contract of its own, and its properties are the next rows and `Hittables.HittableList.Hit` |
| Hittables.ListHitMissIff | src/hittable.rs:43-62 | the list misses exactly when every object misses in the full window |
| Hittables.ListHitInWindow | src/hittable.rs:47-55 | a list hit lies in `[t_min, t_max]` when every object respects its window |
| Hittables.WindowEndNonIncreasing | src/hittable.rs:47-55 | `closest_so_far` never grows from one object to the next |
| Hittables.ListHitIsLastReport | src/hittable.rs:49-55 | the returned record is what some object reported in the window it was asked, and no later object reported a hit |
| Hittables.ListHitIsNearest | src/hittable.rs:43-62 | for objects that report their nearest hit, the list returns a full-window hit of some object whose parameter is at most that of every object's full-window hit |
| Hittables.HittableList.constructor | src/hittable.rs:31-34 | the default list is empty |
| Hittables.HittableList.Add | src/hittable.rs:37-39 | `add` appends the object at the end |
| Hittables.HittableList.Hit | src/hittable.rs:43-62 | the loop computes `ListHit`; no hit iff every object misses; the hit lies in the window; it is the nearest hit when every object reports its nearest |
| Spheres.OutwardNormal | src/sphere.rs:39 | `(p - center) / radius`: scaled by the radius it is the offset of `p` from the center |
| Spheres.RecordAt | src/sphere.rs:37-42 | the record for a root holds `ray.at(root)`, the root and the sphere's material; front face iff the direction opposes `(p - center) / radius`; the normal is that outward normal on the front face and its negation on the back face, so it opposes the ray |
| Spheres.Discriminant | src/sphere.rs:19-23 | `half_b² - a c`; it has no contract of its own, and `Spheres.NegativeDiscriminantMisses` states what its sign means |
| Spheres.NearRoot | src/sphere.rs:28-29 | `(-half_b - sqrtd) / a`; it has no contract of its own, and `Spheres.RootsSolveQuadratic` and `Spheres.NearBeforeFar` state its properties |
| Spheres.FarRoot | src/sphere.rs:28-31 | `(-half_b + sqrtd) / a`; it has no contract of its own, and `Spheres.RootsSolveQuadratic` and `Spheres.NearBeforeFar` state its properties |
| Spheres.NegativeDiscriminantMisses | src/sphere.rs:23-26 | with a negative discriminant no point of the ray's line is on the sphere, so returning no hit is exact |
| Spheres.Hit | src/sphere.rs:18-43 | no hit iff the discriminant is negative or neither root is in the window; a hit is in the window; the near root is preferred, with the far root as fallback; the record is the one built for that root |
| Spheres.NearBeforeFar | src/sphere.rs:28-31 | the near root is at most the far root |
| Spheres.RootsSolveQuadratic | src/sphere.rs:19-31 | both roots solve `a t² + 2 half_b t + c = 0` |
| Spheres.DistanceAlongRay | src/sphere.rs:19-22 | the squared distance of `ray.at(t)` from the center is that quadratic plus `radius²` |
| Spheres.HitIsOnSphere | src/sphere.rs:18-43 | a hit point lies on the sphere: `‖p - center‖² = radius²` |
| Spheres.HitNormalIsUnit | src/sphere.rs:37-40 | the normal of a hit has unit length |
| Spheres.SphereHit | src/sphere.rs:17-18 | the sphere as a `Hittable`: the hit function answers with `Spheres.Hit` for every sphere, ray and window |
| Spheres.SphereRespectsWindow | src/sphere.rs:30-35 | the sphere satisfies the hittable window contract |
| Spheres.SphereReportsNearest | src/sphere.rs:29-35 | a shorter window yields the same hit if it still fits, and no hit otherwise |
| Spheres.SphereListIsNearest | src/sphere.rs:18-43 | a list of spheres returns a hit of one of its spheres that is at or before every sphere's hit |
| Spheres.HitFrontFace | src/sphere.rs:39-40 | for a positive radius, front face iff the hit is the near root of a secant (positive discriminant) |
| Spheres.RecordFrontFace | src/sphere.rs:39-40 | for a positive radius, front face iff `half_b + a t < 0`, i.e. the ray moves towards the center |
| Spheres.RecordFrontFaceNegativeRadius | src/sphere.rs:39-40 | for a negative radius the outward normal points inwards, and front face iff `half_b + a t > 0`, i.e. the ray moves away from the center |
| Spheres.InsideHitsBackFace | src/sphere.rs:18-43 | a ray starting strictly inside a sphere of positive radius, with `t_min >= 0`, hits only the far root and only the back face |
| Spheres.TangentHitIsPerpendicular | src/sphere.rs:23-40 | at a tangent hit the normal is perpendicular to the ray and the hit is marked back-face |

## Left out

- `src/camera.rs` and `src/main.rs` (scene setup, image loop, output) and the material's `scatter`: not part of this model.
- `Vec3::random` and `Vec3::random_range`: they need a random number generator, which is outside the model.
- f64 semantics: rounding, NaN, infinities and signed zero are not modelled. Reals stand in for f64, and `sqrt` is a parameter constrained by `IsSqrt`.
- Vectors.WriteColor: for a negative component the f64 square root is NaN and `clamp` passes NaN through. The model has no NaN, so it clamps whatever `sqrt` returns, and its bound says more than the source does for negative inputs.
- Vectors.WriteColor: `samples_per_pixel = 0` is excluded. Its scale is infinite in f64.
- Division by zero is excluded by preconditions: `Div`, `DivAssign` (zero divisor), `UnitVector` (zero vector) and its use of `Length`.
- Vectors.Index: an index of 3 or more panics in the source; this is excluded by a precondition. Vectors.IndexMut likewise.
- `x()`, `y()`, `z()` and `Vec3::new` are the datatype's fields and constructor, not separate members. `Vec3::default()` is `Zero()`.
- Rays: a ray with a zero direction is not representable, including `Ray::default()`. The sphere test divides by the squared length of the direction.
- Rays: `src/ray.rs` declares the ray over `nalgebra_glm::Vec3` with f32 time. The rest of the crate uses it with the crate's own f64 `Vec3`, which is what the model uses.
- Spheres: a zero radius is excluded. The outward normal divides by it. A negative radius is allowed.
- Hittables.SetFaceNormal: the source mutates a local `Copy` record in place. The model returns the updated record, which is observably the same.
- Hittables.HittableList: `Vec<Box<dyn Hittable>>` with dynamic dispatch is modelled as a sequence of one object type `T` with a single hit function. A heterogeneous scene is a sum type over its object kinds. `Sync + Send` and concurrency are not modelled.
- Hittables.HittableList.Hit: the nearest-hit clause holds only for objects that report their nearest hit (`ReportsNearest`). The `Hittable` trait does not promise this; spheres satisfy it.
- Materials: the material is data only. `src/material.rs` declares just a `scatter` signature, and the variants are those the scene construction uses.

## Findings

| source | as written | input that shows it | evidently intended | confidence | as-written member | corrected member |
|---|---|---|---|---|---|---|
| src/vec3.rs:15-17 | `-v` returns `(x - 1, y - 1, z - 1)` | `-(0, 0, 0)` gives `(-1, -1, -1)`; `0 + (-0) != 0` | arithmetic negation `(-x, -y, -z)` | high, not executed | Vectors.NegIsNotNegation | Vectors.NegateInvolutive |
