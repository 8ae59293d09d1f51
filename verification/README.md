# GeoLib::PointVec — a Dafny model of the point registry

`GeoLib::PointVec` keeps a vector of 3D points with stable integer ids and
optional names. Points closer than a tolerance (in the maximum norm) count
as the same point. This project models, in Dafny, what `GeoLib/PointVec.cpp`
does with indices, ids and names, and proves properties of it:

- the constructor: bounding box, duplicate removal, name reconciliation and
  the id -> name index;
- `makePntsUnique`, step by step:
  - the sort, taken as a permutation;
  - the scan that records runs of identical neighbours as a flat bounds vector;
  - the bubble pass that stabilises the permutation inside every run;
  - the collapse of every run onto its least original index;
  - the reverse permutation, and the removal of duplicates with order-preserving compaction;
  - the dense renumbering of the id map;
- `correctNameIDMapping`, the id -> name index, `uniqueInsert`, both overloads
  of `push_back`, and `getItemNameByID`.

Files and modules:

| file | module | what |
|---|---|---|
| geometry.dfy | Geometry | points, max-norm distance, `Near`, bounding box |
| permutations.dfy | Permutations | permutations of `0..n-1`, swap, inverse |
| runs.dfy | Runs | runs of near neighbours and the interval scan |
| stabilize.dfy | Stabilize | the bubble pass over every interval |
| idmap.dfy | IdMap | the collapse loop and groups of identical points |
| compaction.dfy | Compaction | reverse permutation, removal, renumbering |
| make_unique.dfy | MakeUnique | `makePntsUnique` as a whole |
| names.dfy | Names | name map order, id -> name index, `correctNameIDMapping` |
| point_vec.dfy | PointVecs | the registry and its operations |

Every step of `makePntsUnique` assumes only that `near` is some relation
between points. It is instantiated with the max-norm test (`NearBy(eps)`) in
the registry. The sort is a parameter `sigma`: any permutation of the input
indices, where sorted position `k` holds input point `sigma[k]`. Every
property holds for every such permutation.

A *group* is the set of input indices whose points land in one run of the
sorted vector. `IdMap.Group` names a group by the first sorted position of
its run. The surviving point of a group is the first sorted point of its
run (`out[ids[i]] == Sorted(pts, sigma)[Group(..., i)]`). That point need not
be the point of the least original index. The bubble pass reorders the
permutation vector but not the points, so the reverse permutation can move
a different point object of the run to the survivor's slot.

Where the code and the written description of the system disagree, the
model follows the code:

- A second, different name for a point that already has one is accepted
  (`push_back` lines 82-85). Only a name that is already in use is rejected
  (lines 75-80). See `PointVecs.SecondNameShared`.
- The interval bounds of the scan are not strictly increasing. Two runs that
  are neighbours in sorted order give touching intervals, for example
  `[0, 2, 2, 4]` for the points `A, A, B, B`. The model proves that every
  interval has at least two positions, and that each one ends no later than
  the next begins.
- `correctNameIDMapping` does not always leave one name per point. When it
  erases a name, the name it keeps is the one on the group's survivor: an
  erase needs the image `x` of the name's id to satisfy `_pnt_id_map[x] == x`,
  and a name on `x` to exist. But extra names are not always erased, for
  two reasons:
  - The loop runs after the renumbering, so it compares new ids with old
    indices. An image that is a new id need not be a fixed point in the old
    index space (`Names.TwoNamesOneId`).
  - The name index `id_names` is built once from the original map (lines
    189-192). It is not updated when line 210 moves a name onto a survivor
    that had no name, so a later name for the same survivor is moved there
    too (`Names.StaleIndexKeepsBoth`).
- Every `push_back` appends one entry to the id -> name index (lines 63, 71,
  77 and 85), also when no point is added. Once a duplicate point or a
  duplicate name has been pushed, the index is longer than the point
  vector, and `getItemNameByID` of a name's own id need not return that
  name (`PointVecs.SharedPointNameLookup`, `PointVecs.SecondNameNotFound`).
- Only runs of neighbours in sorted order are merged. Two points within the
  tolerance of each other both survive when a point that is near neither
  sorts between them, so the stored points are not pairwise apart by more
  than the tolerance, and the model does not claim they are.

## Model

| member | source | states |
|---|---|---|
| Geometry.NearProperties | GeoLib/PointVec.cpp:93 | two points are the same point when every coordinate gap is at most the tolerance; this test is symmetric, and a point is near itself exactly when the tolerance is non-negative |
| Geometry.Extend | GeoLib/PointVec.cpp:105-106 | the updated box contains the new point and everything the old box contained |
| Geometry.BoxOf | GeoLib/PointVec.cpp:35 | the box built from the input points contains every one of them |
| Permutations.SwapPermutation | GeoLib/PointVec.cpp:151-152 | swapping two entries of a permutation of `0..n-1` leaves a permutation |
| Permutations.Inverse | GeoLib/PointVec.cpp:161 | sorting the permutation vector back is its inverse: both compositions are the identity, and the result is a permutation |
| Runs.RunStart | GeoLib/PointVec.cpp:128-141 | the start of the run through sorted position `k`: every neighbour pair from it up to `k` is near and the pair just before it is not |
| Runs.RunStartUnique | GeoLib/PointVec.cpp:128-141 | these two conditions determine the run start |
| Runs.RunContiguous | GeoLib/PointVec.cpp:128-141 | every position between a run start and a member of the run belongs to that run |
| Runs.PairsOfFlat | GeoLib/PointVec.cpp:145-148 | reading the flat bounds vector back two at a time gives exactly the intervals that were pushed |
| Runs.IdenticalIntervals | GeoLib/PointVec.cpp:126-143 | the scan returns a flat vector of even length whose intervals are exactly the runs of two or more near neighbours, in order, with every non-start position covered |
| Runs.RunListShape | GeoLib/PointVec.cpp:126-143 | every interval holds at least two positions and lies inside `0..n`; the intervals are ascending and pairwise disjoint |
| Runs.IntervalsAreRuns | GeoLib/PointVec.cpp:126-143 | inside an interval every neighbour pair is near; the pairs straddling its two ends are not; every near pair lies inside an interval |
| Stabilize.BubblePass | GeoLib/PointVec.cpp:150-152 | one pass of compare-and-swap over every neighbour pair of an interval, whose entries from `last` on are already sorted and no smaller than those before, carries the largest entry before `last` to `last - 1`; it keeps the entries of the interval and leaves the rest alone |
| Stabilize.BubbleSortRange | GeoLib/PointVec.cpp:147-152 | the nested loops sort the interval ascending, keep its multiset of entries, leave every other position alone and keep a permutation a permutation |
| Stabilize.StabilizeStep | GeoLib/PointVec.cpp:145-153 | sorting interval `i` after the earlier ones keeps them sorted and leaves positions outside all intervals unchanged |
| Stabilize.StabilizeRuns | GeoLib/PointVec.cpp:145-153 | after the pass every interval is sorted and holds the entries it held before, every other position is unchanged, and the permutation stays a permutation |
| Stabilize.StableRunsAscend | GeoLib/PointVec.cpp:145-153 | along every run of the sorted points the permutation vector ascends |
| Stabilize.StableRunsStay | GeoLib/PointVec.cpp:145-153 | every original index stays inside the run it was sorted into |
| IdMap.Collapse | GeoLib/PointVec.cpp:156-158 | the collapse loop maps the original index at every sorted position to the original index at the start of its run |
| IdMap.GroupOfEntry | GeoLib/PointVec.cpp:145-158 | the original index held at a sorted position after the bubble pass belongs to the group of that position's run |
| IdMap.CollapsedIsLeast | GeoLib/PointVec.cpp:145-158 | after the collapse every original index maps to the least original index of its group |
| MakeUnique.Sorted | GeoLib/PointVec.cpp:121 | the sorted vector is a rearrangement of the input: the same multiset of points, position `k` holding input point `sigma[k]` |
| Permutations.RearrangedIota | GeoLib/PointVec.cpp:117-121 | whatever order the sort leaves the `iota`-filled index vector in, it is a permutation of `0..n-1`, which is what every step after the sort requires of `sigma` |
| Permutations.PermutedMultiset | GeoLib/PointVec.cpp:121 | rearranging a sequence by any permutation of its indices keeps its multiset of elements |
| MakeUnique.OneFixedPointPerGroup | GeoLib/PointVec.cpp:156-158 | every group has exactly one index that the collapsed map leaves in place, and every index maps to it |
| MakeUnique.LeastIdMap | GeoLib/PointVec.cpp:126-158 | the scan, the bubble pass and the collapse together map every index to the least index of its group |
| MakeUnique.IdsAgree | GeoLib/PointVec.cpp:174-183 | two indices get the same new id exactly when the collapsed map sends them to the same index |
| MakeUnique.IdsOnto | GeoLib/PointVec.cpp:174-183 | every new id below the number of survivors is given to some index |
| MakeUnique.IdsInFirstAppearance | GeoLib/PointVec.cpp:174-183 | an index whose new id no earlier index carries gets an id larger than all earlier ones |
| MakeUnique.NewIds | GeoLib/PointVec.cpp:164-183 | the new ids are dense below the survivor count, agree exactly where the collapsed map agrees, and come in order of first appearance |
| MakeUnique.GroupsOfLeast | GeoLib/PointVec.cpp:156-161 | two indices share a collapsed entry exactly when they share a group, and the reverse permutation leaves the run's first sorted point at that entry |
| MakeUnique.RemoveAndRenumber | GeoLib/PointVec.cpp:126-183 | everything after the sort: ids agree exactly for indices of one group, are dense and in first-appearance order, and each id's point is its group's first sorted point |
| MakeUnique.MakePntsUnique | GeoLib/PointVec.cpp:111-184 | the id map has one entry per input point, at least one point survives, ids are below the output size, agree exactly within a group, cover every output slot and come in first-appearance order, and each id holds its group's point |
| Compaction.Unpermute | GeoLib/PointVec.cpp:161 | the reverse permutation carries the point at sorted position `k` to position `p[k]` |
| Compaction.CountKeptStrict | GeoLib/PointVec.cpp:164-172 | survivors keep their relative order: a later survivor has a larger count |
| Compaction.CountKeptOnto | GeoLib/PointVec.cpp:164-172 | every position of the compacted vector holds some survivor |
| Compaction.RemoveDuplicates | GeoLib/PointVec.cpp:164-172 | the compacted vector has one slot per survivor, and survivor `k` lands at the number of survivors before it |
| Compaction.Renumber | GeoLib/PointVec.cpp:174-183 | a fixed point gets the number of fixed points before it, any other index the new id of its target, and every id is below the survivor count |
| Names.NameIndex | GeoLib/PointVec.cpp:189-192 | the id -> name vector holds, for every id, the greatest name mapped to it, or the empty string when none is |
| Names.Reconciled | GeoLib/PointVec.cpp:186-218 | no name is added; names on fixed points keep their id; every remaining name moves to the image of its id; a name is erased only when its id is not fixed, its image is, and a non-empty name that survives already sits on that image |
| Names.CorrectNameIdMapping | GeoLib/PointVec.cpp:186-218 | the loop that erases or rewrites entries while iterating leaves exactly the reconciled map |
| Names.ReconcileStep | GeoLib/PointVec.cpp:194-217 | one visit leaves a fixed entry alone, erases it when the image is fixed and already named, and otherwise rewrites it to the image |
| Names.ReconciledFixed | GeoLib/PointVec.cpp:198-201 | when every named id is a fixed point the name map is unchanged |
| Names.TwoNamesOneId | GeoLib/PointVec.cpp:194-217 | with ids renumbered to `[0, 0, 1, 1]`, names on old indices 2 and 3 both survive on id 1 |
| Names.StaleIndexKeepsBoth | GeoLib/PointVec.cpp:189-216 | with `x` on index 1, `y` on index 2 and all three indices collapsing onto 0, both names survive on id 0, because the index of named ids is not updated when `x` moves onto 0 |
| Names.Restrict | GeoLib/PointVec.cpp:52 | the remaining names are visited in ascending order, each once |
| PointVecs.FirstNear | GeoLib/PointVec.cpp:90-94 | the scan finds the first stored point within the tolerance, or reports that there is none |
| PointVecs.UniqueInsert | GeoLib/PointVec.cpp:88-109 | the id of the first near stored point with nothing changed; otherwise the point is appended, the box extended and the new last index returned; the id is always below the new size |
| PointVecs.UniqueInsertValid | GeoLib/PointVec.cpp:88-109 | inserting keeps every id and named id below the point count and every point inside the box |
| PointVecs.UniqueInsertIdempotent | GeoLib/PointVec.cpp:88-109 | with a non-negative tolerance a second insertion of the same point returns the same id and changes nothing |
| PointVecs.PushBack | GeoLib/PointVec.cpp:60-65 | the points and box become those of `uniqueInsert`, whose id is appended to the id map and returned; an empty name is appended to the index; names and tolerance are unchanged |
| PointVecs.PushBackNamed | GeoLib/PointVec.cpp:67-86 | no name: as `push_back(pnt)`; a name already in use: only an empty name is appended to the index; a fresh name: points and box become those of `uniqueInsert`, its id is appended and the name mapped to it and appended to the index; the tolerance never changes |
| PointVecs.PushBackValid | GeoLib/PointVec.cpp:60-86 | both overloads keep the registry valid |
| PointVecs.SecondNameShared | GeoLib/PointVec.cpp:82-85 | a fresh name for an already stored, already named point is accepted, and both names then map to the same id |
| PointVecs.DuplicateNameDrifts | GeoLib/PointVec.cpp:75-80 | a rejected name leaves points, ids and names alone but grows the index, so index and id map drift apart by one |
| PointVecs.GetItemNameById | GeoLib/PointVec.cpp:220-223 | the entry of the id -> name index at `id`, one of the names the index holds; it requires the id inside the index |
| PointVecs.FreshPointNameLookup | GeoLib/PointVec.cpp:220-223 | while the index has one entry per stored point, a fresh name pushed with a new point is what `getItemNameByID` returns for that point's id, and the index stays in step |
| PointVecs.SharedPointNameLookup | GeoLib/PointVec.cpp:220-223 | a fresh name pushed with an already stored point gets that point's id, but `getItemNameByID` of the id returns the entry it had before, and the index is now one entry longer than the point vector |
| PointVecs.SecondNameNotFound | GeoLib/PointVec.cpp:82-85 | with one stored point named `a`, pushing it again as `b` maps `b` to id 0, yet id 0 looks up `a` and `b` sits at index 1 |
| PointVecs.Construct | GeoLib/PointVec.cpp:31-55 | the constructed registry is valid, has one id per input point and ids agree exactly within a group, its box contains every input point, its names are the reconciled ones, and the index has one entry per point holding the greatest name on that id or the empty string; the stored point of every id is the first sorted point of its group, every id is used, and ids are numbered in first-appearance order |
| PointVecs.ConstructedValid | GeoLib/PointVec.cpp:42-54 | after construction the ids and the reconciled names refer to stored points, and the box contains every stored point |

## Left out

- The tolerance scaling at line 41 uses a square root and floating point. The model takes the absolute tolerance `eps` as a parameter and computes on `real` coordinates.
- `BaseLib::Quicksort` (lines 121 and 161) is not part of this model. The forward sort is the parameter `sigma`, which can be any permutation. The reverse sort is the inverse permutation (`Compaction.Unpermute`).
- The AABB class and the `TemplateVec` base are not part of this model. The box is a pair of min/max corners. The name map and the points are plain values.
- The `WARN` messages (lines 45-46 and 78) are logging only.
- `delete` of rejected points, and the pointer nulling at lines 166-167, are heap management. Removal is modelled as dropping the entry.
- `GeoLib/GeoType.h` (the point type enum) and `BaseLib/CPUTime.h` (timing) carry no behaviour of the registry.
- `MakeUnique.MakePntsUnique` requires at least one point. With none, `n_pnts_in_file - 1` at lines 128 and 156 wraps around.
- `Compaction.Renumber` requires that every entry of the id map is at most its index. The source relies on the collapse step for this; `MakeUnique.LeastMapCanonical` proves it.
- `Names.CorrectNameIdMapping` requires every named id and every id map entry to be an index of the id map. The source indexes `std::vector` without checks.
- `Names.NameIndex` requires every named id below the vector size. The write at line 53 is unchecked in the source.
- The iteration order of `std::map` is the parameter `keys`. `Names.IterationOrder` requires it to list every name once, in ascending `std::string` order.
- `push_back(pnt, nullptr)` is modelled as `PushBackNamed` with `None`. A missing name map is modelled as an empty map.
- `getItemNameByID` (`PointVecs.GetItemNameById`) requires an id inside the index; the source's `operator[]` is unchecked.
