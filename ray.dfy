/** The ray of src/ray.rs: an origin, a direction and a time, evaluated at a
    parameter `t` as `origin + t * direction`. The file declares it over
    `nalgebra_glm::Vec3` with f32, while every caller passes the crate's own `Vec3`
    with f64; it is modelled over `Vectors.Vec3` with exact reals. */
module Rays {
  import opened Options
  import opened Vectors

  datatype RayData = RayData(origin: Vec3, direction: Vec3, time: real)

  /** A ray whose direction is not the zero vector (it has a positive squared
      length). Intersection divides by the squared length of the direction, which
      is NaN or infinite in f64 for a zero direction. */
  type Ray = r: RayData | LengthSquared(r.direction) > 0.0
    witness RayData(Zero(), Vec3(1.0, 0.0, 0.0), 0.0)

  /** `Ray::new(origin, direction, time)`: a missing time defaults to 0. */
  function New(origin: Vec3, direction: Vec3, time: Option<real>): (r: Ray)
    requires LengthSquared(direction) > 0.0
    ensures time.None? ==> Time(r) == 0.0
    ensures time.Some? ==> Time(r) == time.value
  {
    RayData(origin, direction, time.GetOr(0.0))
  }

  /** `origin()`: where the ray is at parameter 0. */
  function Origin(r: Ray): (o: Vec3)
    ensures At(r, 0.0) == o
  {
    r.origin
  }

  /** `direction()`: never the zero vector. */
  function Direction(r: Ray): (d: Vec3)
    ensures LengthSquared(d) > 0.0
    ensures Sub(At(r, 1.0), At(r, 0.0)) == d
  {
    r.direction
  }

  function Time(r: Ray): real { r.time }

  /** `at(t)`: the point reached from the origin after `t` times the direction. */
  function At(r: Ray, t: real): (p: Vec3)
    ensures Sub(p, r.origin) == Scale(t, r.direction)
  {
    Add(r.origin, Scale(t, r.direction))
  }

  /** The accessors return what the constructor was given. */
  lemma NewAccessors(origin: Vec3, direction: Vec3, time: Option<real>)
    requires LengthSquared(direction) > 0.0
    ensures Origin(New(origin, direction, time)) == origin
    ensures Direction(New(origin, direction, time)) == direction
    ensures Time(New(origin, direction, time)) == time.GetOr(0.0)
  {
  }

  /** The ray starts at its origin. */
  lemma AtZero(r: Ray)
    ensures At(r, 0.0) == Origin(r)
  {
  }

  /** Two points on a ray differ by the difference of their parameters times the
      direction. */
  lemma AtDifference(r: Ray, t1: real, t2: real)
    ensures Sub(At(r, t1), At(r, t2)) == Scale(t1 - t2, Direction(r))
  {
  }
}
