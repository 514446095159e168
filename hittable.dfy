/** Hit records, the hit contract every hittable object follows, and the list of
    objects that reports the closest hit among its members. */
module Hittables {
  import opened Options
  import opened Vectors
  import opened Rays
  import opened Materials

  /** Where a ray met a surface: the point, the unit normal facing against the
      ray, the ray parameter, whether the ray hit the outside of the surface, and
      the surface's material. */
  datatype HitRecord = HitRecord(p: Vec3, normal: Vec3, t: real, frontFace: bool, material: Material)

  /** `set_face_normal`: the ray hits the front face when it travels against the
      outward normal; the stored normal always faces against the ray. The source
      updates the record in place; here the updated record is returned. */
  function SetFaceNormal(rec: HitRecord, ray: Ray, outwardNormal: Vec3): (r: HitRecord)
    ensures r.frontFace <==> Dot(Direction(ray), outwardNormal) < 0.0
    ensures r.frontFace ==> r.normal == outwardNormal
    ensures !r.frontFace ==> r.normal == Negate(outwardNormal)
    ensures Dot(Direction(ray), r.normal) <= 0.0
    ensures r.p == rec.p && r.t == rec.t && r.material == rec.material
  {
    var frontFace := Dot(Direction(ray), outwardNormal) < 0.0;
    var normal := if frontFace then outwardNormal else Scale(-1.0, outwardNormal);
    rec.(frontFace := frontFace, normal := normal)
  }

  /** The reversed normal has the same length as the outward one. */
  lemma SetFaceNormalKeepsLength(rec: HitRecord, ray: Ray, outwardNormal: Vec3)
    ensures LengthSquared(SetFaceNormal(rec, ray, outwardNormal).normal) == LengthSquared(outwardNormal)
  {
  }

  /** The contract of `Hittable::hit`: a reported hit lies inside the window
      `[tMin, tMax]` of ray parameters it was asked about. */
  ghost predicate RespectsWindow<T(!new)>(hit: (T, Ray, real, real) -> Option<HitRecord>)
  {
    forall item, ray, tMin, tMax ::
      hit(item, ray, tMin, tMax).Some? ==> tMin <= hit(item, ray, tMin, tMax).value.t <= tMax
  }

  /** The report `result`, kept only when it lies at or before `tMax`. */
  function Cut(result: Option<HitRecord>, tMax: real): (r: Option<HitRecord>)
    ensures r.Some? <==> result.Some? && result.value.t <= tMax
    ensures r.Some? ==> r == result
  {
    if result.Some? && result.value.t <= tMax then result else None
  }

  /** An object reports its nearest hit: asking about a shorter window gives the
      report for the longer window if it still fits, and no hit otherwise. */
  ghost predicate ReportsNearest<T(!new)>(hit: (T, Ray, real, real) -> Option<HitRecord>)
  {
    forall item, ray, tMin, tMax, tShorter {:trigger hit(item, ray, tMin, tMax), hit(item, ray, tMin, tShorter)} ::
      tShorter <= tMax ==>
        hit(item, ray, tMin, tShorter) == Cut(hit(item, ray, tMin, tMax), tShorter)
  }

  /** `closest_so_far`: the parameter of the hit found so far, or `tMax`. */
  function Closest(found: Option<HitRecord>, tMax: real): (r: real)
    ensures found.Some? ==> r == found.value.t
    ensures found.None? ==> r == tMax
  {
    if found.Some? then found.value.t else tMax
  }

  /** What `HittableList::hit` returns for `objects`: each object is asked about
      the window up to the closest hit of the objects before it, and a hit it
      reports replaces the one found so far. */
  function ListHit<T>(hit: (T, Ray, real, real) -> Option<HitRecord>, objects: seq<T>,
                      ray: Ray, tMin: real, tMax: real): Option<HitRecord>
    decreases |objects|
  {
    if objects == [] then None
    else
      var found := ListHit(hit, objects[..|objects| - 1], ray, tMin, tMax);
      match hit(objects[|objects| - 1], ray, tMin, Closest(found, tMax))
      case Some(rec) => Some(rec)
      case None => found
  }

  /** The window the object at position `k` is asked about. */
  function WindowEnd<T>(hit: (T, Ray, real, real) -> Option<HitRecord>, objects: seq<T>,
                        k: nat, ray: Ray, tMin: real, tMax: real): real
    requires k <= |objects|
  {
    Closest(ListHit(hit, objects[..k], ray, tMin, tMax), tMax)
  }

  /** The list misses exactly when every object misses in the full window. */
  lemma {:induction false} ListHitMissIff<T>(hit: (T, Ray, real, real) -> Option<HitRecord>,
                                             objects: seq<T>, ray: Ray, tMin: real, tMax: real)
    ensures ListHit(hit, objects, ray, tMin, tMax).None? <==>
            forall i :: 0 <= i < |objects| ==> hit(objects[i], ray, tMin, tMax).None?
    decreases |objects|
  {
    if objects != [] {
      var n := |objects|;
      var before := objects[..n - 1];
      ListHitMissIff(hit, before, ray, tMin, tMax);
      assert forall i :: 0 <= i < n - 1 ==> before[i] == objects[i];
    }
  }

  /** A hit of the list lies in the window, when every object respects it. */
  lemma {:induction false} ListHitInWindow<T(!new)>(hit: (T, Ray, real, real) -> Option<HitRecord>,
                                              objects: seq<T>, ray: Ray, tMin: real, tMax: real)
    requires RespectsWindow(hit)
    ensures ListHit(hit, objects, ray, tMin, tMax).Some? ==>
            tMin <= ListHit(hit, objects, ray, tMin, tMax).value.t <= tMax
    decreases |objects|
  {
    if objects != [] {
      ListHitInWindow(hit, objects[..|objects| - 1], ray, tMin, tMax);
    }
  }

  /** `closest_so_far` never grows while the loop runs. */
  lemma {:induction false} WindowEndNonIncreasing<T(!new)>(hit: (T, Ray, real, real) -> Option<HitRecord>,
                                                     objects: seq<T>, i: nat, j: nat,
                                                     ray: Ray, tMin: real, tMax: real)
    requires RespectsWindow(hit)
    requires i <= j <= |objects|
    ensures WindowEnd(hit, objects, j, ray, tMin, tMax) <= WindowEnd(hit, objects, i, ray, tMin, tMax)
    decreases j
  {
    if i < j {
      WindowEndNonIncreasing(hit, objects, i, j - 1, ray, tMin, tMax);
      assert objects[..j][..j - 1] == objects[..j - 1];
    }
  }

  /** What the object at position `k` reports when the loop reaches it. */
  function Report<T>(hit: (T, Ray, real, real) -> Option<HitRecord>, objects: seq<T>,
                     k: nat, ray: Ray, tMin: real, tMax: real): Option<HitRecord>
    requires k < |objects|
  {
    hit(objects[k], ray, tMin, WindowEnd(hit, objects, k, ray, tMin, tMax))
  }

  /** The objects after a prefix do not change what the prefix's objects report. */
  lemma ReportOfPrefix<T>(hit: (T, Ray, real, real) -> Option<HitRecord>, objects: seq<T>,
                          m: nat, k: nat, ray: Ray, tMin: real, tMax: real)
    requires k < m <= |objects|
    ensures Report(hit, objects[..m], k, ray, tMin, tMax) == Report(hit, objects, k, ray, tMin, tMax)
  {
    assert objects[..m][..k] == objects[..k];
  }

  /** The hit the list returns is the report of some object `k`, made in the
      window `k` was asked about, and no later object reported a hit. */
  lemma {:induction false} ListHitIsLastReport<T>(hit: (T, Ray, real, real) -> Option<HitRecord>,
                                                  objects: seq<T>, ray: Ray, tMin: real, tMax: real)
    ensures ListHit(hit, objects, ray, tMin, tMax).Some? ==>
            exists k :: 0 <= k < |objects| &&
              Report(hit, objects, k, ray, tMin, tMax) == ListHit(hit, objects, ray, tMin, tMax) &&
              forall j :: k < j < |objects| ==> Report(hit, objects, j, ray, tMin, tMax).None?
    decreases |objects|
  {
    var result := ListHit(hit, objects, ray, tMin, tMax);
    if result.Some? {
      var n := |objects|;
      var before := objects[..n - 1];
      if Report(hit, objects, n - 1, ray, tMin, tMax).None? {
        ListHitIsLastReport(hit, before, ray, tMin, tMax);
        var k :| 0 <= k < |before| &&
          Report(hit, before, k, ray, tMin, tMax) == ListHit(hit, before, ray, tMin, tMax) &&
          forall j :: k < j < |before| ==> Report(hit, before, j, ray, tMin, tMax).None?;
        ReportOfPrefix(hit, objects, n - 1, k, ray, tMin, tMax);
        forall j | k < j < n
          ensures Report(hit, objects, j, ray, tMin, tMax).None?
        {
          if j < n - 1 {
            ReportOfPrefix(hit, objects, n - 1, j, ray, tMin, tMax);
          }
        }
      }
    }
  }

  /** When every object respects its window and reports its nearest hit, the
      list reports the nearest hit of all its objects: a hit of some object in the
      full window, at or before every hit any object reports in that window. */
  lemma {:induction false} ListHitIsNearest<T(!new)>(hit: (T, Ray, real, real) -> Option<HitRecord>,
                                               objects: seq<T>, ray: Ray, tMin: real, tMax: real)
    requires RespectsWindow(hit) && ReportsNearest(hit)
    ensures ListHit(hit, objects, ray, tMin, tMax).Some? ==>
            exists k :: 0 <= k < |objects| && hit(objects[k], ray, tMin, tMax) == ListHit(hit, objects, ray, tMin, tMax)
    ensures forall i :: 0 <= i < |objects| && hit(objects[i], ray, tMin, tMax).Some? ==>
              ListHit(hit, objects, ray, tMin, tMax).Some? &&
              ListHit(hit, objects, ray, tMin, tMax).value.t <= hit(objects[i], ray, tMin, tMax).value.t
    decreases |objects|
  {
    if objects != [] {
      var n := |objects|;
      var before := objects[..n - 1];
      var found := ListHit(hit, before, ray, tMin, tMax);
      var last := objects[n - 1];
      ListHitIsNearest(hit, before, ray, tMin, tMax);
      ListHitInWindow(hit, before, ray, tMin, tMax);
      assert forall i :: 0 <= i < n - 1 ==> before[i] == objects[i];
      assert hit(last, ray, tMin, Closest(found, tMax)) == Cut(hit(last, ray, tMin, tMax), Closest(found, tMax));
    }
  }

  /** `HittableList`: the objects of a scene, in the order they were added. */
  class HittableList<T(!new)> {
    var objects: seq<T>

    /** The `Default` list is empty. */
    constructor ()
      ensures objects == []
    {
      objects := [];
    }

    /** `add`: the new object goes to the end of the list. */
    method Add(item: T)
      modifies this
      ensures objects == old(objects) + [item]
    {
      objects := objects + [item];
    }

    /** `hit`: ask every object in turn about the window up to the closest hit so
        far, and keep the last hit reported. */
    method Hit(hit: (T, Ray, real, real) -> Option<HitRecord>, ray: Ray, tMin: real, tMax: real)
      returns (result: Option<HitRecord>)
      requires RespectsWindow(hit)
      ensures result == ListHit(hit, objects, ray, tMin, tMax)
      ensures result.None? <==> forall i :: 0 <= i < |objects| ==> hit(objects[i], ray, tMin, tMax).None?
      ensures result.Some? ==> tMin <= result.value.t <= tMax
      ensures ReportsNearest(hit) ==>
                forall i :: 0 <= i < |objects| && hit(objects[i], ray, tMin, tMax).Some? ==>
                  result.Some? && result.value.t <= hit(objects[i], ray, tMin, tMax).value.t
    {
      var rec := HitRecord(Zero(), Zero(), 0.0, false, Lambertian(Vec3(0.0, 0.0, 0.0)));
      var hitAnything := false;
      var closestSoFar := tMax;
      for i := 0 to |objects|
        invariant (if hitAnything then Some(rec) else None) == ListHit(hit, objects[..i], ray, tMin, tMax)
        invariant closestSoFar == Closest(ListHit(hit, objects[..i], ray, tMin, tMax), tMax)
        invariant closestSoFar <= tMax
      {
        assert objects[..i + 1][..i] == objects[..i];
        match hit(objects[i], ray, tMin, closestSoFar)
        case Some(tempRec) =>
          hitAnything := true;
          closestSoFar := tempRec.t;
          rec := tempRec;
        case None =>
      }
      assert objects[..|objects|] == objects;
      result := if hitAnything then Some(rec) else None;
      ListHitMissIff(hit, objects, ray, tMin, tMax);
      ListHitInWindow(hit, objects, ray, tMin, tMax);
      if ReportsNearest(hit) {
        ListHitIsNearest(hit, objects, ray, tMin, tMax);
      }
    }
  }
}
