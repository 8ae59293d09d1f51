/** The name map of a point vector (`std::map<std::string, std::size_t>`):
    its iteration order, the id -> name index built from it, and the
    reconciliation of the names with the id map after duplicates were
    removed (`correctNameIDMapping`). */
module Names {

  /** The order of `std::string`'s `operator<`: lexicographic by character,
      a proper prefix before its extensions. */
  predicate StringLess(a: string, b: string)
  {
    if |a| == 0 then |b| > 0
    else if |b| == 0 then false
    else a[0] < b[0] || (a[0] == b[0] && StringLess(a[1..], b[1..]))
  }

  /** `keys` is the order in which a `std::map` visits the names: every name
      exactly once, in ascending order. */
  ghost predicate IterationOrder(keys: seq<string>, names: map<string, nat>)
  {
    (forall k :: k in names <==> k in keys) && KeysAscending(keys)
  }

  predicate KeysAscending(keys: seq<string>)
  {
    forall i, j :: 0 <= i < j < |keys| ==> StringLess(keys[i], keys[j])
  }

  /** Some name other than the empty string is given to `id`. */
  ghost predicate Named(names: map<string, nat>, id: nat)
  {
    exists k :: k in names && names[k] == id && k != ""
  }

  /** `nm` is the greatest name among `ks` that maps to `id`, or the empty
      string when no name among `ks` does. */
  ghost predicate GreatestAmong(names: map<string, nat>, ks: seq<string>, id: nat, nm: string)
    requires forall j :: 0 <= j < |ks| ==> ks[j] in names
  {
    && (nm == "" || (nm in ks && names[nm] == id))
    && (forall j :: 0 <= j < |ks| && names[ks[j]] == id ==>
          nm in ks && names[nm] == id && (ks[j] == nm || StringLess(ks[j], nm)))
  }

  /** `nm` is the greatest name of the whole map that maps to `id`, or the
      empty string when no name does. */
  ghost predicate GreatestName(names: map<string, nat>, id: nat, nm: string)
  {
    && (nm == "" || (nm in names && names[nm] == id))
    && (forall k :: k in names && names[k] == id ==>
          nm in names && names[nm] == id && (k == nm || StringLess(k, nm)))
  }

  /** Nothing is below the empty string. */
  lemma NothingBelowEmpty(k: string)
    ensures !StringLess(k, "")
  {
  }

  /** The id -> name index: a vector of `n` empty strings into which every
      name of the map, in iteration order, is written at its id. The last
      name written for an id, the greatest, wins. */
  method NameIndex(names: map<string, nat>, keys: seq<string>, n: nat) returns (r: seq<string>)
    requires IterationOrder(keys, names)
    requires forall k :: k in names ==> names[k] < n
    ensures |r| == n
    ensures forall id :: 0 <= id < n ==> GreatestName(names, id, r[id])
  {
    r := seq(n, _ => "");
    var i := 0;
    while i < |keys|
      invariant 0 <= i <= |keys| && |r| == n
      invariant forall id :: 0 <= id < n ==> GreatestAmong(names, keys[..i], id, r[id])
    {
      // the write of the name of the `i`-th key is in IndexStep
      r := IndexStep(names, keys, n, r, i);
      i := i + 1;
    }
    assert keys[..i] == keys;
    forall id | 0 <= id < n
      ensures GreatestName(names, id, r[id])
    {
      assert GreatestAmong(names, keys, id, r[id]);
    }
  }

  /** One write of the index loop: the name at `i` is greater than every
      name before it, so it becomes the greatest name of its id. */
  method IndexStep(names: map<string, nat>, keys: seq<string>, n: nat, r: seq<string>, i: nat)
    returns (r': seq<string>)
    requires IterationOrder(keys, names) && forall k :: k in names ==> names[k] < n
    requires i < |keys| && |r| == n
    requires forall id :: 0 <= id < n ==> GreatestAmong(names, keys[..i], id, r[id])
    ensures |r'| == n
    ensures forall id :: 0 <= id < n ==> GreatestAmong(names, keys[..i + 1], id, r'[id])
  {
    var x := keys[i];
    r' := r[names[x] := x];
    assert keys[..i + 1] == keys[..i] + [x];
    forall id | 0 <= id < n
      ensures GreatestAmong(names, keys[..i + 1], id, r'[id])
    {
      assert GreatestAmong(names, keys[..i], id, r[id]);
      var ks := keys[..i + 1];
      forall j | 0 <= j < i + 1 && names[ks[j]] == id
        ensures r'[id] in ks && names[r'[id]] == id
        ensures ks[j] == r'[id] || StringLess(ks[j], r'[id])
      {
        if j < i {
          assert ks[j] == keys[..i][j];
        }
      }
    }
  }

  /** The entry for a name given to `id` is erased: `id` is not a fixed
      point of the id map, its image is, and some non-empty name is already
      given to that image. */
  ghost predicate Erased(names: map<string, nat>, pntIdMap: seq<nat>, id: nat)
    requires id < |pntIdMap| && forall i :: 0 <= i < |pntIdMap| ==> pntIdMap[i] < |pntIdMap|
  {
    && pntIdMap[id] != id
    && pntIdMap[pntIdMap[id]] == pntIdMap[id]
    && Named(names, pntIdMap[id])
  }

  /** The name map after reconciliation, as a whole: the names whose entry
      is not erased, each given the image of its old id under the id map. */
  ghost function Reconciled(names: map<string, nat>, pntIdMap: seq<nat>): (r: map<string, nat>)
    requires forall k :: k in names ==> names[k] < |pntIdMap|
    requires forall i :: 0 <= i < |pntIdMap| ==> pntIdMap[i] < |pntIdMap|
    ensures r.Keys <= names.Keys
    ensures forall k :: k in names && pntIdMap[names[k]] == names[k] ==> k in r && r[k] == names[k]
    ensures forall k :: k in r ==> r[k] == pntIdMap[names[k]]
    ensures forall k :: k in names && k !in r ==>
              && pntIdMap[names[k]] != names[k] && pntIdMap[pntIdMap[names[k]]] == pntIdMap[names[k]]
              && exists k' :: k' in r && k' != "" && names[k'] == pntIdMap[names[k]]
  {
    map k | k in names && !Erased(names, pntIdMap, names[k]) :: pntIdMap[names[k]]
  }

  /** What the reconciliation loop knows before position `i` of the
      iteration order: the names visited so far have their final entry,
      the others still have their old one. */
  ghost predicate ReconciledUpTo(names: map<string, nat>, keys: seq<string>, pntIdMap: seq<nat>,
                           cur: map<string, nat>, i: nat)
    requires IterationOrder(keys, names) && i <= |keys|
    requires forall k :: k in names ==> names[k] < |pntIdMap|
    requires forall j :: 0 <= j < |pntIdMap| ==> pntIdMap[j] < |pntIdMap|
  {
    && cur.Keys <= names.Keys
    && (forall j :: 0 <= j < i ==>
          (keys[j] in cur <==> !Erased(names, pntIdMap, names[keys[j]])))
    && (forall j :: 0 <= j < i && keys[j] in cur ==> cur[keys[j]] == pntIdMap[names[keys[j]]])
    && (forall j :: i <= j < |keys| ==> keys[j] in cur && cur[keys[j]] == names[keys[j]])
  }

  /** Names come in the iteration order once each. */
  lemma KeysDistinct(keys: seq<string>, names: map<string, nat>, i: nat, j: nat)
    requires IterationOrder(keys, names) && i < |keys| && j < |keys| && i != j
    ensures keys[i] != keys[j]
  {
    if i < j {
      StringLessIrreflexive(keys[i]);
    } else {
      StringLessIrreflexive(keys[j]);
    }
  }

  lemma {:induction false} StringLessIrreflexive(a: string)
    ensures !StringLess(a, a)
    decreases |a|
  {
    if |a| > 0 {
      StringLessIrreflexive(a[1..]);
    }
  }

  /** One visit of the reconciliation loop: an entry whose id is a fixed
      point is left alone; otherwise, when the image is itself a fixed point
      that already has a name in `idNames`, the entry is erased, and in
      every other case it is rewritten to the image. */
  method ReconcileStep(names: map<string, nat>, keys: seq<string>, pntIdMap: seq<nat>,
                       idNames: seq<string>, cur: map<string, nat>, i: nat)
    returns (cur': map<string, nat>)
    requires IterationOrder(keys, names) && i < |keys|
    requires forall k :: k in names ==> names[k] < |pntIdMap|
    requires forall j :: 0 <= j < |pntIdMap| ==> pntIdMap[j] < |pntIdMap|
    requires |idNames| == |pntIdMap|
    requires forall id :: 0 <= id < |pntIdMap| ==> GreatestName(names, id, idNames[id])
    requires ReconciledUpTo(names, keys, pntIdMap, cur, i)
    ensures ReconciledUpTo(names, keys, pntIdMap, cur', i + 1)
  {
    var key := keys[i];
    var id := cur[key];
    if pntIdMap[id] == id {
      cur' := cur;
    } else if pntIdMap[pntIdMap[id]] == pntIdMap[id] {
      assert GreatestName(names, pntIdMap[id], idNames[pntIdMap[id]]);
      if |idNames[pntIdMap[id]]| != 0 {
        cur' := cur - {key};
      } else {
        forall k | k in names && names[k] == pntIdMap[id]
          ensures k == ""
        {
          NothingBelowEmpty(k);
        }
        cur' := cur[key := pntIdMap[id]];
      }
    } else {
      cur' := cur[key := pntIdMap[id]];
    }
    forall j | 0 <= j < |keys| && j != i
      ensures keys[j] != key
    {
      KeysDistinct(keys, names, i, j);
    }
  }

  /** `correctNameIDMapping`: the name index over the old ids, then one
      pass over the names in iteration order that erases or rewrites the
      entries whose id the duplicate removal changed. */
  method CorrectNameIdMapping(names: map<string, nat>, keys: seq<string>, pntIdMap: seq<nat>)
    returns (r: map<string, nat>)
    requires IterationOrder(keys, names)
    requires forall k :: k in names ==> names[k] < |pntIdMap|
    requires forall j :: 0 <= j < |pntIdMap| ==> pntIdMap[j] < |pntIdMap|
    ensures r == Reconciled(names, pntIdMap)
  {
    var idNames := NameIndex(names, keys, |pntIdMap|);
    r := names;
    var i := 0;
    while i < |keys|
      invariant 0 <= i <= |keys|
      invariant ReconciledUpTo(names, keys, pntIdMap, r, i)
    {
      // the three branches (keep, erase, rewrite) are in ReconcileStep
      r := ReconcileStep(names, keys, pntIdMap, idNames, r, i);
      i := i + 1;
    }
    ReconciledAtEnd(names, keys, pntIdMap, r);
  }

  /** Once every name was visited, the map is the reconciled one. */
  lemma ReconciledAtEnd(names: map<string, nat>, keys: seq<string>, pntIdMap: seq<nat>,
                        cur: map<string, nat>)
    requires IterationOrder(keys, names)
    requires forall k :: k in names ==> names[k] < |pntIdMap|
    requires forall j :: 0 <= j < |pntIdMap| ==> pntIdMap[j] < |pntIdMap|
    requires ReconciledUpTo(names, keys, pntIdMap, cur, |keys|)
    ensures cur == Reconciled(names, pntIdMap)
  {
    var R := Reconciled(names, pntIdMap);
    forall k | k in names
      ensures (k in cur <==> k in R) && (k in cur ==> cur[k] == R[k])
    {
      var j :| 0 <= j < |keys| && keys[j] == k;
    }
  }

  /** When every named id is a fixed point of the id map, the names are
      left as they are. */
  lemma ReconciledFixed(names: map<string, nat>, pntIdMap: seq<nat>)
    requires forall k :: k in names ==> names[k] < |pntIdMap|
    requires forall i :: 0 <= i < |pntIdMap| ==> pntIdMap[i] < |pntIdMap|
    requires forall k :: k in names ==> pntIdMap[names[k]] == names[k]
    ensures Reconciled(names, pntIdMap) == names
  {
  }

  /** The reconciliation compares new ids with old indices, so two names of
      merged points can both survive on one id: four points where 1 is a
      duplicate of 0 and 3 of 2 are renumbered to `[0, 0, 1, 1]`; the names
      `b1` on 2 and `b2` on 3 are both rewritten to id 1, and neither is
      erased. */
  lemma TwoNamesOneId()
    ensures Reconciled(map["b1" := 2, "b2" := 3], [0, 0, 1, 1]) == map["b1" := 1, "b2" := 1]
  {
    var names := map["b1" := 2, "b2" := 3];
    var pntIdMap: seq<nat> := [0, 0, 1, 1];
    assert !Erased(names, pntIdMap, 2);
    assert !Erased(names, pntIdMap, 3);
  }

  /** The name index is built once, before the loop, and is not updated
      when a name is moved onto an id: three points that all collapse onto
      0, with `x` on 1 and `y` on 2 and no name on 0, keep both names, now
      on id 0, although no id was shifted by the renumbering. */
  lemma StaleIndexKeepsBoth()
    ensures Reconciled(map["x" := 1, "y" := 2], [0, 0, 0]) == map["x" := 0, "y" := 0]
  {
    var names := map["x" := 1, "y" := 2];
    var pntIdMap: seq<nat> := [0, 0, 0];
    assert !Named(names, 0);
    assert !Erased(names, pntIdMap, 1);
    assert !Erased(names, pntIdMap, 2);
  }

  /** The iteration order of the names that remain in `sub`. */
  function Restrict(keys: seq<string>, sub: map<string, nat>): (r: seq<string>)
    requires KeysAscending(keys)
    ensures KeysAscending(r)
    ensures forall k :: k in r <==> k in keys && k in sub
  {
    if |keys| == 0 then []
    else
      var rest := Restrict(keys[1..], sub);
      if keys[0] in sub then
        assert forall j :: 0 <= j < |rest| ==> StringLess(keys[0], rest[j]) by {
          forall j | 0 <= j < |rest|
            ensures StringLess(keys[0], rest[j])
          {
            assert rest[j] in keys[1..];
            var b :| 0 <= b < |keys[1..]| && keys[1..][b] == rest[j];
            assert keys[b + 1] == rest[j];
          }
        }
        [keys[0]] + rest
      else rest
  }
}
