/**
 * The plane registry as a value: what a `ControlData` record holds between
 * two commands. `planes` is the prefix `planes[0..numberOfPlanes)` of the C
 * array, in index order, and `capacity` is the number of allocated slots.
 */
module Registry {
  import opened Strings

  /** Slots allocated when the registry is created. */
  const InitialCapacity: nat := 10

  /** Slots added each time the array of IDs grows. */
  const GrowthStep: nat := 10

  datatype Record = Record(planes: seq<Id>, capacity: nat)

  /** What every add keeps: one slot is always free and the IDs are in order. */
  predicate Inv(r: Record) {
    |r.planes| + 1 <= r.capacity && Sorted(r.planes)
  }

  /** The registry `main` creates: no IDs, ten slots. */
  function Empty(): (r: Record)
    ensures Inv(r) && r.planes == [] && r.capacity == InitialCapacity
  {
    Record([], InitialCapacity)
  }

  /** The growth test of `handle_add`: `numberOfPlanes + 2 > capacity`. */
  predicate NeedsGrowth(r: Record)
    ensures Inv(r) ==> (NeedsGrowth(r) <==> |r.planes| + 1 == r.capacity)
  {
    |r.planes| + 2 > r.capacity
  }

  /**
   * `handle_add`: grow by ten slots when the test fires, then store the ID
   * and re-sort. `growthSucceeds` is the outcome of `realloc`; when growth is
   * needed and fails, the record is left exactly as it was.
   *
   * Appending and re-sorting the whole prefix is written as `InsertSorted`,
   * which gives the same sequence only when the stored IDs are already
   * sorted. That is every reachable record: `Empty` is sorted and
   * `AddPlaneKeepsInv` keeps it so, and `ControlData.HandleAdd` proves the
   * array's append-then-sort equal to this function under its invariant.
   */
  function AddPlane(r: Record, id: Id, growthSucceeds: bool): (r': Record)
    ensures r'.capacity == r.capacity || (NeedsGrowth(r) && r'.capacity == r.capacity + GrowthStep)
    ensures r'.capacity != r.capacity <==> NeedsGrowth(r) && growthSucceeds
    ensures NeedsGrowth(r) && !growthSucceeds ==> r' == r
    ensures !NeedsGrowth(r) || growthSucceeds ==>
      |r'.planes| == |r.planes| + 1 && multiset(r'.planes) == multiset(r.planes) + multiset{id}
  {
    if NeedsGrowth(r) && !growthSucceeds then r
    else
      var capacity := if NeedsGrowth(r) then r.capacity + GrowthStep else r.capacity;
      Record(InsertSorted(r.planes, id), capacity)
  }

  /** Every add, successful or not, keeps the invariant; in particular the
      count stays below the capacity. */
  lemma AddPlaneKeepsInv(r: Record, id: Id, growthSucceeds: bool)
    requires Inv(r)
    ensures Inv(AddPlane(r, id, growthSucceeds))
  {
    InsertSortedKeepsSorted(r.planes, id);
  }
}
