/** The growable catalogue array (`ImageList`). */
module ImageLists {
  import opened ViewerTypes

  /** The capacity after growing a full list: 8 for the first allocation, then doubling. */
  function NextCapacity(capacity: nat): (n: nat)
    ensures n > capacity
    ensures capacity == 0 ==> n == 8
    ensures capacity > 0 ==> n == 2 * capacity
  {
    if capacity == 0 then 8 else capacity * 2
  }

  /** The capacities the list can reach: 0, then 8 doubled any number of times. */
  predicate ReachableCapacity(capacity: nat)
    decreases capacity
  {
    capacity == 0 || capacity == 8 || (capacity > 8 && capacity % 2 == 0 && ReachableCapacity(capacity / 2))
  }

  /** Growing keeps the capacity on the 8, 16, 32, ... ladder. */
  lemma {:induction false} GrowthStaysOnLadder(capacity: nat)
    requires ReachableCapacity(capacity)
    ensures ReachableCapacity(NextCapacity(capacity))
  {
    if capacity > 0 {
      assert NextCapacity(capacity) / 2 == capacity;
    }
  }

  class ImageList {
    var items: array<ImageMetadata>
    var size: nat
    var capacity: nat

    ghost predicate Valid()
      reads this
    {
      size <= capacity && capacity == items.Length && ReachableCapacity(capacity)
    }

    /** The entries in use, in order. */
    function Contents(): seq<ImageMetadata>
      reads this, items
      requires Valid()
    {
      items[..size]
    }

    /** `ImageList_init`: no storage yet. */
    constructor ()
      ensures Valid() && Contents() == [] && capacity == 0 && fresh(items)
    {
      items := new ImageMetadata[0];
      size, capacity := 0, 0;
    }

    /** `ImageList_add`. A full list is first reallocated to `NextCapacity`; when that
        reallocation fails (`reallocOk` false) the list is left exactly as it was. */
    method Add(item: ImageMetadata, reallocOk: bool)
      requires Valid()
      modifies this, items
      ensures Valid()
      ensures old(size) < old(capacity) ==>
        Contents() == old(Contents()) + [item] && capacity == old(capacity) && items == old(items)
      ensures old(size) >= old(capacity) && reallocOk ==>
        Contents() == old(Contents()) + [item] && capacity == NextCapacity(old(capacity)) && fresh(items)
      ensures old(size) >= old(capacity) && !reallocOk ==>
        size == old(size) && capacity == old(capacity) && items == old(items) && unchanged(items)
    {
      if size >= capacity {
        var n := NextCapacity(capacity);
        if !reallocOk {
          return;
        }
        GrowthStaysOnLadder(capacity);
        var moved := new ImageMetadata[n](k => item);
        forall k | 0 <= k < size {
          moved[k] := items[k];
        }
        items, capacity := moved, n;
      }
      items[size] := item;
      size := size + 1;
    }
  }
}
