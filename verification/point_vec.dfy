/** The point vector itself: the stored points, the id map from every point
    ever handed in to its stored point, the name map, the id -> name index
    and the bounding box, with the constructor and the incremental
    operations `uniqueInsert`, `push_back` and `getItemNameByID`. */
module PointVecs {
  import opened Geometry
  import opened Permutations
  import opened IdMap
  import opened MakeUnique
  import opened Names

  datatype Option<T> = None | Some(value: T)

  /** A point vector. `pntIdMap[i]` is the stored point that the `i`-th
      point handed in became; `idToName` is the id -> name index. */
  datatype PointVec = PointVec(
    points: seq<Point>,
    pntIdMap: seq<nat>,
    names: map<string, nat>,
    idToName: seq<string>,
    eps: real,
    box: Box)

  /** The result of an insertion: the updated vector and the id of the
      point. */
  datatype Inserted = Inserted(vec: PointVec, id: nat)

  /** What every operation keeps: ids and named ids refer to stored points
      and the box contains every stored point. */
  ghost predicate Valid(v: PointVec)
  {
    && (forall i :: 0 <= i < |v.pntIdMap| ==> v.pntIdMap[i] < |v.points|)
    && (forall k :: k in v.names ==> v.names[k] < |v.points|)
    && (forall i :: 0 <= i < |v.points| ==> Contains(v.box, v.points[i]))
  }

  /** The tolerance test the vector uses, as a relation on points. */
  function NearBy(eps: real): (near: (Point, Point) -> bool)
    ensures forall p, q :: near(p, q) == Near(p, q, eps)
  {
    (p: Point, q: Point) => Near(p, q, eps)
  }

  /** The linear scan of `uniqueInsert`: the first stored point within the
      tolerance of `p`, if there is one. */
  function FirstNear(points: seq<Point>, p: Point, eps: real): (r: Option<nat>)
    ensures r.None? <==> forall i :: 0 <= i < |points| ==> !Near(points[i], p, eps)
    ensures r.Some? ==> r.value < |points| && Near(points[r.value], p, eps)
    ensures r.Some? ==> forall j :: 0 <= j < r.value ==> !Near(points[j], p, eps)
  {
    if |points| == 0 then None
    else if Near(points[0], p, eps) then Some(0)
    else match FirstNear(points[1..], p, eps)
      case None => None
      case Some(i) => Some(i + 1)
  }

  /** `uniqueInsert`: when a stored point is within the tolerance, the id of
      the first such point, with nothing changed; otherwise `p` is appended,
      the box extended, and the new last index returned. */
  function UniqueInsert(v: PointVec, p: Point): (r: Inserted)
    ensures r.id < |r.vec.points|
    ensures r.vec.pntIdMap == v.pntIdMap && r.vec.names == v.names
    ensures r.vec.idToName == v.idToName && r.vec.eps == v.eps
    ensures (exists i :: 0 <= i < |v.points| && Near(v.points[i], p, v.eps)) ==>
              && r.vec == v && Near(v.points[r.id], p, v.eps)
              && forall j :: 0 <= j < r.id ==> !Near(v.points[j], p, v.eps)
    ensures (forall i :: 0 <= i < |v.points| ==> !Near(v.points[i], p, v.eps)) ==>
              && r.vec.points == v.points + [p] && r.id == |v.points|
              && Contains(r.vec.box, p)
              && forall q :: Contains(v.box, q) ==> Contains(r.vec.box, q)
  {
    match FirstNear(v.points, p, v.eps)
    case Some(i) => Inserted(v, i)
    case None =>
      Inserted(v.(points := v.points + [p], box := Extend(v.box, p)), |v.points|)
  }

  /** `push_back(pnt)`: the id of the inserted point is appended to the id
      map, an empty name to the index, and the id is returned. */
  function PushBack(v: PointVec, p: Point): (r: Inserted)
    ensures r.vec.points == UniqueInsert(v, p).vec.points && r.id == UniqueInsert(v, p).id
    ensures r.vec.pntIdMap == v.pntIdMap + [r.id]
    ensures r.vec.idToName == v.idToName + [""]
    ensures r.vec.names == v.names
    ensures r.vec.box == UniqueInsert(v, p).vec.box && r.vec.eps == v.eps
  {
    var ins := UniqueInsert(v, p);
    Inserted(ins.vec.(pntIdMap := v.pntIdMap + [ins.id], idToName := v.idToName + [""]), ins.id)
  }

  /** `push_back(pnt, name)`: without a name it is `push_back(pnt)`; a name
      already in the map only appends an empty name to the index and leaves
      the points, the id map and the name map alone; a fresh name is given
      to the id of the inserted point. */
  function PushBackNamed(v: PointVec, p: Point, name: Option<string>): (r: PointVec)
    ensures name.None? ==> r == PushBack(v, p).vec
    ensures name.Some? && name.value in v.names ==>
              r == v.(idToName := v.idToName + [""])
    ensures name.Some? && name.value !in v.names ==>
              && r.points == UniqueInsert(v, p).vec.points
              && r.pntIdMap == v.pntIdMap + [UniqueInsert(v, p).id]
              && r.names == v.names[name.value := UniqueInsert(v, p).id]
              && r.idToName == v.idToName + [name.value]
              && r.box == UniqueInsert(v, p).vec.box && r.eps == v.eps
  {
    match name
    case None => PushBack(v, p).vec
    case Some(nm) =>
      if nm in v.names then v.(idToName := v.idToName + [""])
      else
        var ins := UniqueInsert(v, p);
        ins.vec.(pntIdMap := v.pntIdMap + [ins.id],
                 names := v.names[nm := ins.id],
                 idToName := v.idToName + [nm])
  }

  /** `getItemNameByID`: the entry of the id -> name index. */
  function GetItemNameById(v: PointVec, id: nat): (r: string)
    requires id < |v.idToName|
    ensures r in v.idToName
  {
    v.idToName[id]
  }

  /** Inserting keeps the vector valid. */
  lemma UniqueInsertValid(v: PointVec, p: Point)
    requires Valid(v)
    ensures Valid(UniqueInsert(v, p).vec)
  {
    var r := UniqueInsert(v, p);
    if FirstNear(v.points, p, v.eps).None? {
      forall i | 0 <= i < |r.vec.points|
        ensures Contains(r.vec.box, r.vec.points[i])
      {
        if i < |v.points| {
          assert Contains(v.box, v.points[i]);
        }
      }
    }
  }

  /** Both overloads of `push_back` keep the vector valid. */
  lemma PushBackValid(v: PointVec, p: Point, name: Option<string>)
    requires Valid(v)
    ensures Valid(PushBack(v, p).vec)
    ensures Valid(PushBackNamed(v, p, name))
  {
    UniqueInsertValid(v, p);
  }

  /** With a non-negative tolerance, inserting the same point twice returns
      the same id and the second insertion changes nothing. */
  lemma UniqueInsertIdempotent(v: PointVec, p: Point)
    requires v.eps >= 0.0
    ensures UniqueInsert(UniqueInsert(v, p).vec, p) == UniqueInsert(v, p)
  {
    var r := UniqueInsert(v, p);
    if FirstNear(v.points, p, v.eps).None? {
      NearProperties(p, p, v.eps);
      assert r.vec.points[|v.points|] == p;
    }
  }

  /** A fresh name for a point that is already stored is accepted: it is
      given the id of the stored point, so two names share one point. */
  lemma SecondNameShared(v: PointVec, p: Point, first: string, name: string)
    requires Valid(v) && first in v.names && name !in v.names
    requires v.names[first] < |v.points| && Near(v.points[v.names[first]], p, v.eps)
    requires forall j :: 0 <= j < v.names[first] ==> !Near(v.points[j], p, v.eps)
    ensures PushBackNamed(v, p, Some(name)).points == v.points
    ensures PushBackNamed(v, p, Some(name)).names[name] == PushBackNamed(v, p, Some(name)).names[first]
  {
    assert UniqueInsert(v, p).id == v.names[first];
  }

  /** A rejected duplicate name still grows the id -> name index but not the
      id map, so the two lengths drift apart by one with every such call. */
  lemma DuplicateNameDrifts(v: PointVec, p: Point, name: string)
    requires name in v.names
    ensures var r := PushBackNamed(v, p, Some(name));
      && r.points == v.points && r.pntIdMap == v.pntIdMap && r.names == v.names
      && |r.idToName| - |r.pntIdMap| == |v.idToName| - |v.pntIdMap| + 1
  {
  }

  /** While the id -> name index has one entry per stored point, a fresh
      name pushed with a point that is not yet stored is found again by the
      point's id, and the index keeps one entry per stored point. */
  lemma FreshPointNameLookup(v: PointVec, p: Point, name: string)
    requires |v.idToName| == |v.points| && name !in v.names
    requires forall i :: 0 <= i < |v.points| ==> !Near(v.points[i], p, v.eps)
    ensures var r := PushBackNamed(v, p, Some(name));
      && r.names[name] == |v.points|
      && |r.idToName| == |r.points|
      && GetItemNameById(r, r.names[name]) == name
  {
  }

  /** A fresh name pushed with a point that is already stored gets the id of
      the stored point, but the index entry is appended at the end: looking
      up that id still gives the entry it had before, and from then on the
      index is one entry longer than the point vector. */
  lemma SharedPointNameLookup(v: PointVec, p: Point, name: string, i: nat)
    requires |v.idToName| == |v.points| && name !in v.names
    requires i < |v.points| && Near(v.points[i], p, v.eps)
    ensures var r := PushBackNamed(v, p, Some(name));
      && r.names[name] < |v.points|
      && |r.idToName| == |r.points| + 1
      && GetItemNameById(r, r.names[name]) == v.idToName[r.names[name]]
  {
  }

  /** Concretely: a second name for the one stored point is not what its id
      looks up. */
  lemma SecondNameNotFound()
    ensures var v := PointVec([Point(0.0, 0.0, 0.0)], [0], map["a" := 0], ["a"], 0.0,
                              Box(Point(0.0, 0.0, 0.0), Point(0.0, 0.0, 0.0)));
      var r := PushBackNamed(v, Point(0.0, 0.0, 0.0), Some("b"));
      && r.names["b"] == 0 && GetItemNameById(r, 0) == "a" && GetItemNameById(r, 1) == "b"
  {
  }

  /** The constructor: the bounding box of the input points, the duplicate
      removal with the tolerance `eps`, the reconciliation of the names
      with the new ids and the id -> name index over the final point count.
      `sigma` is the permutation the sort applies and `keys` the iteration
      order of `names`. */
  method Construct(pts: seq<Point>, sigma: seq<nat>, names: map<string, nat>, keys: seq<string>,
                   eps: real) returns (v: PointVec)
    requires |pts| >= 1 && IsPermutation(sigma, |pts|)
    requires IterationOrder(keys, names)
    requires forall k :: k in names ==> names[k] < |pts|
    ensures Valid(v) && v.eps == eps
    ensures |v.pntIdMap| == |pts| && 1 <= |v.points| <= |pts|
    ensures forall i, j :: 0 <= i < |pts| && 0 <= j < |pts| ==>
              (v.pntIdMap[i] == v.pntIdMap[j] <==>
               Group(Sorted(pts, sigma), NearBy(eps), sigma, i) == Group(Sorted(pts, sigma), NearBy(eps), sigma, j))
    ensures forall i :: 0 <= i < |pts| ==> Contains(v.box, pts[i])
    ensures v.names == Reconciled(names, v.pntIdMap)
    ensures |v.idToName| == |v.points|
    ensures forall id :: 0 <= id < |v.points| ==> GreatestName(v.names, id, GetItemNameById(v, id))
    ensures forall i :: 0 <= i < |pts| ==>
              v.points[v.pntIdMap[i]] == Sorted(pts, sigma)[Group(Sorted(pts, sigma), NearBy(eps), sigma, i)]
    ensures forall d :: 0 <= d < |v.points| ==> d in v.pntIdMap
    ensures InFirstAppearanceOrder(v.pntIdMap)
  {
    var box := BoxOf(pts);
    var out, ids := MakePntsUnique(pts, sigma, NearBy(eps));
    var names' := CorrectNameIdMapping(names, keys, ids);
    var keys' := Restrict(keys, names');
    var idToName := NameIndex(names', keys', |out|);
    v := PointVec(out, ids, names', idToName, eps, box);
    ConstructedValid(pts, sigma, eps, out, ids, names', idToName, box);
  }

  /** The constructed vector is valid: the new ids index the remaining
      points, the reconciled names carry new ids, and every remaining point
      is one of the input points, all of which the box contains. */
  lemma ConstructedValid(pts: seq<Point>, sigma: seq<nat>, eps: real, out: seq<Point>, ids: seq<nat>,
                         names: map<string, nat>, idToName: seq<string>, box: Box)
    requires |pts| >= 1 && IsPermutation(sigma, |pts|) && |ids| == |pts|
    requires forall i :: 0 <= i < |pts| ==> ids[i] < |out|
    requires forall i :: 0 <= i < |pts| ==>
               out[ids[i]] == Sorted(pts, sigma)[Group(Sorted(pts, sigma), NearBy(eps), sigma, i)]
    requires forall d :: 0 <= d < |out| ==> d in ids
    requires forall k :: k in names ==> names[k] in ids
    requires forall i :: 0 <= i < |pts| ==> Contains(box, pts[i])
    ensures Valid(PointVec(out, ids, names, idToName, eps, box))
  {
    var s := Sorted(pts, sigma);
    forall d | 0 <= d < |out|
      ensures Contains(box, out[d])
    {
      assert d in ids;
      var i :| 0 <= i < |ids| && ids[i] == d;
      var g := Group(s, NearBy(eps), sigma, i);
      assert out[d] == pts[sigma[g]];
    }
  }
}
