/** The material a sphere carries and a hit record passes on. The repository's
    material file declares only a `scatter` signature; the three variants below are
    the ones the scene construction uses: a diffuse albedo, a metal albedo with a
    fuzz factor, and a dielectric with an index of refraction. Scattering is not
    part of this model, so a material is opaque data here. */
module Materials {
  import opened Vectors

  datatype Material =
    | Lambertian(albedo: Vec3)
    | Metal(albedo: Vec3, fuzz: real)
    | Dielectric(refractionIndex: real)
}
