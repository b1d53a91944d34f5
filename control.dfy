/**
 * The registry as the server keeps it: a `ControlData` record whose array of
 * IDs is sorted in place and reallocated ten slots larger when full, and the
 * command handler that reads and updates it.
 */
module Control {
  import opened Strings
  import opened Registry
  import opened Dispatch

  /**
   * `lexicographic_order`: the quadratic exchange sort. For each position
   * `i`, every later entry that `strcmp` puts before `planes[i]` is swapped
   * into it. Only indices below `length` are touched.
   */
  method LexicographicOrder(planes: array<Id>, length: nat)
    requires length <= planes.Length
    modifies planes
    ensures Sorted(planes[..length])
    ensures multiset(planes[..length]) == multiset(old(planes[..length]))
    ensures planes[length..] == old(planes[length..])
  {
    var i := 0;
    while i < length
      invariant i <= length
      invariant SettledBelow(planes[..], i, length)
      invariant multiset(planes[..]) == multiset(old(planes[..]))
      invariant planes[length..] == old(planes[length..])
    {
      var j := i + 1;
      while j < length
        invariant i < j <= length
        invariant SettledBelow(planes[..], i, length)
        invariant LeastSoFar(planes[..], i, j)
        invariant multiset(planes[..]) == multiset(old(planes[..]))
        invariant planes[length..] == old(planes[length..])
      {
        if StrCmp(planes[i], planes[j]) > 0 {
          ExchangeKeepsOrder(planes[..], i, j, length);
          planes[i], planes[j] := planes[j], planes[i];
        } else {
          LeastSoFarExtends(planes[..], i, j);
        }
        j := j + 1;
      }
      SettledExtends(planes[..], i, length);
      i := i + 1;
    }
    PrefixMultiset(planes[..], old(planes[..]), length);
    assert planes[..length] == planes[..][..length];
  }

  /** The outer loop's invariant: the first `i` entries are sorted and each
      may precede every entry from `i` up to `n`. */
  ghost predicate SettledBelow(s: seq<Id>, i: nat, n: nat)
    requires i <= n <= |s|
  {
    Sorted(s[..i]) && forall p, q :: 0 <= p < i <= q < n ==> LessEq(s[p], s[q])
  }

  /** The inner loop's invariant: `s[i]` may precede each entry after it, up to `j`. */
  ghost predicate LeastSoFar(s: seq<Id>, i: nat, j: nat)
    requires i < j <= |s|
  {
    forall q :: i < q < j ==> LessEq(s[i], s[q])
  }

  /** Two sequences with the same entries and the same suffix from `n` on
      have the same entries before `n`. */
  lemma PrefixMultiset(a: seq<Id>, b: seq<Id>, n: nat)
    requires n <= |a| == |b| && multiset(a) == multiset(b) && a[n..] == b[n..]
    ensures multiset(a[..n]) == multiset(b[..n])
  {
    assert a == a[..n] + a[n..] && b == b[..n] + b[n..];
    assert multiset(a) == multiset(a[..n]) + multiset(a[n..]);
    assert multiset(b) == multiset(b[..n]) + multiset(b[n..]);
    assert multiset(a[..n]) == multiset(a) - multiset(a[n..]);
    assert multiset(b[..n]) == multiset(b) - multiset(b[n..]);
  }

  /** When `s[i]` and `s[j]` are out of order, exchanging them keeps both
      loop invariants and the multiset of entries. */
  lemma ExchangeKeepsOrder(s: seq<Id>, i: nat, j: nat, n: nat)
    requires i < j < n <= |s| && !LessEq(s[i], s[j])
    requires SettledBelow(s, i, n) && LeastSoFar(s, i, j)
    ensures SettledBelow(s[i := s[j]][j := s[i]], i, n)
    ensures LeastSoFar(s[i := s[j]][j := s[i]], i, j + 1)
    ensures multiset(s[i := s[j]][j := s[i]]) == multiset(s)
  {
    var t := s[i := s[j]][j := s[i]];
    assert t[..i] == s[..i];
    LessEqTotal(s[i], s[j]);
    forall q | i < q < j + 1 ensures LessEq(t[i], t[q]) {
      if q < j { LessEqTransitive(s[j], s[i], s[q]); }
    }
  }

  /** When `s[i]` and `s[j]` are in order, the inner invariant covers `j`. */
  lemma LeastSoFarExtends(s: seq<Id>, i: nat, j: nat)
    requires i < j < |s| && LessEq(s[i], s[j]) && LeastSoFar(s, i, j)
    ensures LeastSoFar(s, i, j + 1)
  {
  }

  /** A finished inner loop settles position `i`. */
  lemma SettledExtends(s: seq<Id>, i: nat, n: nat)
    requires i < n <= |s| && SettledBelow(s, i, n) && LeastSoFar(s, i, n)
    ensures SettledBelow(s, i + 1, n)
  {
  }

  /** Appending an ID to a sorted sequence and sorting the result gives the
      same sequence as inserting it in place. */
  lemma SortedAfterAppend(before: seq<Id>, x: Id, after: seq<Id>)
    requires Sorted(before) && Sorted(after)
    requires multiset(after) == multiset(before + [x])
    ensures after == InsertSorted(before, x)
  {
    InsertSortedKeepsSorted(before, x);
    assert multiset(before + [x]) == multiset(before) + multiset{x};
    SortedUnique(after, InsertSorted(before, x));
  }

  class ControlData {
    var capacity: nat
    var numberOfPlanes: nat
    var planes: array<Id>

    /** The array has `capacity` slots, one of them always free, and the
        stored prefix is sorted. */
    ghost predicate Valid()
      reads this, planes
    {
      planes.Length == capacity && numberOfPlanes <= capacity && Inv(Value())
    }

    /** The stored IDs and the capacity, as a value. */
    function Value(): Record
      reads this, planes
      requires numberOfPlanes <= planes.Length
    {
      Record(planes[..numberOfPlanes], capacity)
    }

    /** The record `main` sets up: ten slots, no IDs. */
    constructor ()
      ensures Valid() && fresh(planes)
      ensures Value() == Empty()
    {
      capacity := InitialCapacity;
      numberOfPlanes := 0;
      planes := new Id[InitialCapacity];
    }

    /**
     * `handle_add`: grow the array by ten slots when `numberOfPlanes + 2 >
     * capacity` (giving up, with nothing changed, when the reallocation
     * fails), store the ID in the next slot and re-sort the stored prefix.
     */
    method HandleAdd(buffer: Id, growthSucceeds: bool)
      requires Valid()
      modifies this, planes
      ensures Valid()
      ensures Value() == AddPlane(old(Value()), buffer, growthSucceeds)
    {
      if numberOfPlanes + 2 > capacity {
        if !growthSucceeds {
          return;
        }
        Grow();
      }
      Store(buffer);
    }

    /** The tail of `handle_add`: put the ID in the first free slot and
        re-sort the stored prefix. */
    method Store(buffer: Id)
      requires Valid() && numberOfPlanes + 2 <= capacity
      modifies this`numberOfPlanes, planes
      ensures Valid()
      ensures numberOfPlanes == old(numberOfPlanes) + 1
      ensures Value().planes == InsertSorted(old(Value().planes), buffer)
    {
      ghost var before := planes[..numberOfPlanes];
      planes[numberOfPlanes] := buffer;
      assert planes[..numberOfPlanes + 1] == before + [buffer];
      numberOfPlanes := numberOfPlanes + 1;
      LexicographicOrder(planes, numberOfPlanes);
      SortedAfterAppend(before, buffer, planes[..numberOfPlanes]);
    }

    /** The successful `realloc` of `handle_add`: ten more slots, with the old
        slots copied over. */
    method Grow()
      requires Valid()
      modifies this
      ensures Valid() && fresh(planes)
      ensures capacity == old(capacity) + GrowthStep && numberOfPlanes == old(numberOfPlanes)
      ensures Value().planes == old(Value().planes)
    {
      var biggerSize := capacity + GrowthStep;
      var newPlanes := new Id[biggerSize];
      forall k | 0 <= k < capacity {
        newPlanes[k] := planes[k];
      }
      assert newPlanes[..numberOfPlanes] == planes[..numberOfPlanes];
      capacity := biggerSize;
      planes := newPlanes;
    }

    /** The `log` answer: each stored ID and a newline, in index order, then
        the sentinel line. Reads the registry and changes nothing. */
    method WriteLog() returns (output: string)
      requires Valid()
      ensures output == LogText(Value().planes)
    {
      output := [];
      var i := 0;
      while i < numberOfPlanes
        invariant i <= numberOfPlanes
        invariant output == Lines(planes[..i])
      {
        LinesSnoc(planes[..i], planes[i]);
        assert planes[..i + 1] == planes[..i] + [planes[i]];
        output := output + planes[i] + "\n";
        i := i + 1;
      }
      assert planes[..i] == Value().planes;
      output := output + Sentinel + "\n";
    }

    /**
     * `handle_command`: `log`, or any line once the hang-up flag is set, is
     * answered from the registry; any other line is added to it.
     */
    method HandleCommand(buffer: Id, sighupHappen: bool, growthSucceeds: bool) returns (output: string)
      requires Valid()
      modifies this, planes
      ensures Valid()
      ensures Reply(Value(), output) == Step(old(Value()), buffer, sighupHappen, growthSucceeds)
    {
      if buffer == LogCommand || sighupHappen {
        output := WriteLog();
        return;
      }
      HandleAdd(buffer, growthSucceeds);
      output := [];
    }
  }
}
