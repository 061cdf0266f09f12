/**
  The slot-based inventory: a fixed array of 18 optional item references and
  the set of indices that are considered free. The intended invariant is that
  an index is free exactly when its slot holds no item; some operations keep
  it and some break it, and each method's contract says which.
*/
module InventoryStore {
  import opened Items

  /** Capacity of every inventory. */
  const Size: int := 18

  /** The smallest element of a non-empty set of indices. */
  ghost function Lowest(s: set<int>): (m: int)
    requires s != {}
    ensures m in s
    ensures forall x :: x in s ==> m <= x
  {
    Inhabited(s);
    var x :| x in s;
    if s - {x} == {} then
      assert forall y :: y in s ==> y == x by {
        forall y | y in s ensures y == x {
          assert y == x || y in s - {x};
        }
      }
      x
    else
      var m := Lowest(s - {x});
      assert forall y :: y in s ==> y == x || y in s - {x};
      if x < m then x else m
  }

  /** A non-empty set has an element. */
  lemma Inhabited(s: set<int>)
    requires s != {}
    ensures exists x :: x in s
  {
    if forall x :: x !in s {
      assert false;
    }
  }

  /** `s` with `i` added when `empty` holds and removed otherwise. */
  function MarkFree(s: set<int>, i: int, empty: bool): set<int>
  {
    if empty then s + {i} else s - {i}
  }

  /** The indices from `lo` up to, not including, `hi`. */
  function Range(lo: int, hi: int): (r: set<int>)
    ensures forall i :: i in r <==> lo <= i < hi
    decreases hi - lo
  {
    if lo >= hi then {} else {lo} + Range(lo + 1, hi)
  }

  /** Every index below the capacity, the free set of a fresh inventory. */
  function AllIndices(): set<int>
  {
    Range(0, Size)
  }

  // ---------------------------------------------------------------------------
  // The inventory as a value, for reasoning about sequences of stores.

  datatype Store = Store(slots: seq<Item?>, free: set<int>)

  /** The shape every inventory has: 18 slots and only in-range free indices. */
  ghost predicate WellFormed(st: Store)
  {
    |st.slots| == Size && forall i :: i in st.free ==> 0 <= i < Size
  }

  /** The central invariant: an index is free iff its slot is empty. */
  ghost predicate FreeIffEmpty(st: Store)
  {
    WellFormed(st) && forall i :: 0 <= i < Size ==> (i in st.free <==> st.slots[i] == null)
  }

  /** The effect of storing `item` in the lowest free slot, and the slot used (-1 on failure). */
  ghost function Stored(st: Store, item: Item?): (r: (Store, int))
    requires WellFormed(st)
    ensures WellFormed(r.0)
  {
    if item == null || st.free == {} then (st, -1)
    else
      var k := Lowest(st.free);
      (Store(st.slots[k := item], st.free - {k}), k)
  }

  /** The effect of storing each of `items` in turn, ignoring every failure. */
  ghost function StoredMany(st: Store, items: seq<Item?>): (r: Store)
    requires WellFormed(st)
    ensures WellFormed(r)
    decreases |items|
  {
    if items == [] then st else StoredMany(Stored(st, items[0]).0, items[1..])
  }

  /** The slot each store of the run used, in list order (-1 for a store that failed). */
  ghost function Placements(st: Store, items: seq<Item?>): (p: seq<int>)
    requires WellFormed(st)
    ensures |p| == |items|
    decreases |items|
  {
    if items == [] then []
    else
      var (st1, k) := Stored(st, items[0]);
      [k] + Placements(st1, items[1..])
  }

  /**
    The slot used by the last store of `x` that succeeded, according to the
    placements `p` of `items`, or -1 when none did.
  */
  ghost function LastPlacement(x: Item, items: seq<Item?>, p: seq<int>): int
    requires |p| == |items|
    decreases |items|
  {
    if items == [] then -1
    else if items[|items| - 1] == x && p[|p| - 1] != -1 then p[|p| - 1]
    else LastPlacement(x, items[..|items| - 1], p[..|p| - 1])
  }

  /** Extending the run by one store changes the last placement of `x` only if that store was of `x` and succeeded. */
  lemma LastPlacementStep(x: Item, items: seq<Item?>, p: seq<int>, i: int)
    requires |p| == |items| && 0 <= i < |items|
    ensures LastPlacement(x, items[..i + 1], p[..i + 1]) ==
      if items[i] == x && p[i] != -1 then p[i] else LastPlacement(x, items[..i], p[..i])
  {
    assert items[..i + 1][..i] == items[..i] && p[..i + 1][..i] == p[..i];
  }

  /**
    Storing a list only ever takes indices out of the free set, and the slots
    it did not take keep their contents.
  */
  lemma {:induction false} StoredManyTakesFreeSlots(st: Store, items: seq<Item?>)
    requires WellFormed(st)
    ensures var r := StoredMany(st, items);
      && r.free <= st.free
      && (forall k :: 0 <= k < Size && k !in st.free - r.free ==> r.slots[k] == st.slots[k])
    decreases |items|
  {
    if items != [] {
      var (st1, k) := Stored(st, items[0]);
      StoredManyTakesFreeSlots(st1, items[1..]);
    }
  }

  /** Every successful store of the run took a free index, and that index ends up holding its item. */
  lemma {:induction false} PlacementsFill(st: Store, items: seq<Item?>)
    requires WellFormed(st)
    ensures var p, r := Placements(st, items), StoredMany(st, items);
      forall i :: 0 <= i < |items| && p[i] != -1 ==>
        items[i] != null && p[i] in st.free - r.free && r.slots[p[i]] == items[i]
    decreases |items|
  {
    if items != [] {
      var (st1, k) := Stored(st, items[0]);
      var p, r := Placements(st, items), StoredMany(st, items);
      assert p == [k] + Placements(st1, items[1..]) && r == StoredMany(st1, items[1..]);
      PlacementsFill(st1, items[1..]);
      StoredManyTakesFreeSlots(st1, items[1..]);
      forall i | 0 <= i < |items| && p[i] != -1
        ensures items[i] != null && p[i] in st.free - r.free && r.slots[p[i]] == items[i]
      {
        if i > 0 {
          assert p[i] == Placements(st1, items[1..])[i - 1] && items[i] == items[1..][i - 1];
        }
      }
    }
  }

  /** Every index the run took was taken by one of its stores. */
  lemma {:induction false} PlacementsCover(st: Store, items: seq<Item?>)
    requires WellFormed(st)
    ensures forall k :: k in st.free - StoredMany(st, items).free ==>
      exists i :: 0 <= i < |items| && Placements(st, items)[i] == k
    decreases |items|
  {
    if items == [] {
      assert StoredMany(st, items) == st;
    } else {
      var (st1, k0) := Stored(st, items[0]);
      var p, r := Placements(st, items), StoredMany(st, items);
      var p1 := Placements(st1, items[1..]);
      assert p == [k0] + p1 && r == StoredMany(st1, items[1..]);
      PlacementsCover(st1, items[1..]);
      forall k | k in st.free - StoredMany(st, items).free
        ensures exists i :: 0 <= i < |items| && Placements(st, items)[i] == k
      {
        if k == k0 {
          assert p[0] == k;
        } else {
          assert k in st1.free - StoredMany(st1, items[1..]).free;
          var i :| 0 <= i < |items[1..]| && p1[i] == k;
          assert p[i + 1] == k;
        }
      }
      assert forall k :: k in st.free - StoredMany(st, items).free ==>
        exists i :: 0 <= i < |items| && Placements(st, items)[i] == k;
    }
  }

  /** For distinct items, the last placement of a stored item is the one it got. */
  lemma {:induction false} LastPlacementOfDistinct(items: seq<Item?>, p: seq<int>, i: int)
    requires |p| == |items| && Distinct(items) && 0 <= i < |items| && items[i] != null && p[i] != -1
    ensures LastPlacement(items[i], items, p) == p[i]
    decreases |items|
  {
    var n := |items| - 1;
    if i < n {
      assert items[..n][i] == items[i] && p[..n][i] == p[i];
      LastPlacementOfDistinct(items[..n], p[..n], i);
    }
  }

  /** No item occurs twice in `items`. */
  ghost predicate Distinct(items: seq<Item?>)
  {
    forall i, j :: 0 <= i < j < |items| ==> items[i] != items[j]
  }

  // ---------------------------------------------------------------------------
  // The inventory object.

  class Inventory {
    /** The backing array; the reference itself is never reassigned. */
    const slots: array<Item?>
    /** The indices considered free. */
    var emptySlots: set<int>

    ghost predicate Valid()
      reads this
    {
      slots.Length == Size && forall i :: i in emptySlots ==> 0 <= i < Size
    }

    ghost function Abstract(): Store
      reads this, slots
    {
      Store(slots[..], emptySlots)
    }

    /** The free set agrees with the array. */
    ghost predicate Consistent()
      reads this, slots
    {
      Valid() && FreeIffEmpty(Abstract())
    }

    /** The items the array holds (with null for the empty slots). */
    ghost function Held(): set<Item?>
      reads this, slots
    {
      set i | 0 <= i < slots.Length :: slots[i]
    }

    /** The occupant of slot `i`. */
    ghost function ItemAt(i: int): Item?
      reads this, slots
      requires 0 <= i < slots.Length
    {
      slots[i]
    }

    /** Every held item's back-reference names the slot holding it. */
    ghost predicate PositionsAgree()
      reads this, slots, Held()
    {
      forall i :: 0 <= i < slots.Length && ItemAt(i) != null ==> ItemAt(i).inventoryPosition == i
    }

    constructor ()
      ensures Valid() && Consistent() && fresh(slots)
      ensures forall i :: 0 <= i < Size ==> slots[i] == null
      ensures forall i :: i in emptySlots <==> 0 <= i < Size
      ensures HasFreeSlot()
    {
      slots := new Item?[Size](_ => null);
      emptySlots := AllIndices();
      new;
      assert 0 in emptySlots;
    }

    /** At least one index is free. */
    function HasFreeSlot(): (b: bool)
      reads this, slots
      ensures Consistent() ==> (b <==> exists i :: 0 <= i < Size && slots[i] == null)
    {
      if emptySlots == {} then false
      else
        Inhabited(emptySlots);
        true
    }

    /**
      The lowest free index and whether there is one (-1 when there is none);
      the free set is ordered and its first element taken.
    */
    method FirstFreeSlot() returns (found: bool, slotPosition: int)
      requires Valid()
      ensures found <==> emptySlots != {}
      ensures found ==> slotPosition == Lowest(emptySlots)
      ensures found && Consistent() ==> slots[slotPosition] == null
      ensures !found ==> slotPosition == -1
    {
      slotPosition := -1;
      var rest := emptySlots;
      while rest != {}
        invariant rest <= emptySlots
        invariant slotPosition == -1 <==> rest == emptySlots
        invariant slotPosition != -1 ==> slotPosition in emptySlots
        invariant forall x :: x in emptySlots - rest ==> slotPosition <= x
        decreases rest
      {
        Inhabited(rest);
        var x :| x in rest;
        if slotPosition == -1 || x < slotPosition {
          slotPosition := x;
        }
        assert forall y :: y in emptySlots - (rest - {x}) ==> y == x || y in emptySlots - rest;
        rest := rest - {x};
      }
      assert emptySlots - rest == emptySlots;
      found := slotPosition != -1;
    }

    /** Stores every item in turn; the ones that do not fit are dropped without notice. */
    method StoreMany(items: seq<Item?>)
      requires Valid()
      modifies this, slots, set x | x in items
      ensures Valid()
      ensures Abstract() == StoredMany(old(Abstract()), items)
      ensures forall x: Item :: x in items ==>
        var k := LastPlacement(x, items, Placements(old(Abstract()), items));
        x.inventoryPosition == if k == -1 then old(x.inventoryPosition) else k
      ensures Distinct(items) ==>
        forall k :: k in old(emptySlots) - emptySlots ==> slots[k] != null && slots[k].inventoryPosition == k
    {
      ghost var start := Abstract();
      ghost var placed := Placements(Abstract(), items);
      for i := 0 to |items|
        invariant Valid()
        invariant StoredMany(Abstract(), items[i..]) == StoredMany(old(Abstract()), items)
        invariant Placements(Abstract(), items[i..]) == placed[i..]
        invariant emptySlots <= old(emptySlots)
        invariant forall x: Item :: x in items ==>
          var k := LastPlacement(x, items[..i], placed[..i]);
          x.inventoryPosition == if k == -1 then old(x.inventoryPosition) else k
      {
        ghost var before := Abstract();
        assert items[i..][0] == items[i] && items[i..][1..] == items[i + 1..];
        var slot := StoreItem(items[i]);
        assert StoredMany(before, items[i..]) == StoredMany(Abstract(), items[i + 1..]);
        assert placed[i..] == [slot] + Placements(Abstract(), items[i + 1..]);
        assert placed[i..][1..] == placed[i + 1..];
        forall x: Item | x in items {
          LastPlacementStep(x, items, placed, i);
        }
      }
      assert items[|items|..] == [] && items[..|items|] == items && placed[..|items|] == placed;
      if Distinct(items) {
        PlacementsFill(start, items);
        PlacementsCover(start, items);
        forall k | k in old(emptySlots) - emptySlots
          ensures slots[k] != null && slots[k].inventoryPosition == k
        {
          var i :| 0 <= i < |items| && placed[i] == k;
          LastPlacementOfDistinct(items, placed, i);
        }
      }
    }

    /**
      Stores `item` in the lowest free slot and returns that slot; returns -1
      and changes nothing when the item is null or no slot is free.
    */
    method StoreItem(item: Item?) returns (slot: int)
      requires Valid()
      modifies this, slots, item
      ensures Valid()
      ensures (Abstract(), slot) == Stored(old(Abstract()), item)
      ensures slot == -1 <==> item == null || old(emptySlots) == {}
      ensures slot == -1 ==> slots[..] == old(slots[..]) && emptySlots == old(emptySlots)
      ensures slot == -1 && item != null ==> item.inventoryPosition == old(item.inventoryPosition)
      ensures slot != -1 ==>
        && slot == Lowest(old(emptySlots))
        && slots[..] == old(slots[..])[slot := item]
        && emptySlots == old(emptySlots) - {slot}
        && item != null && item.inventoryPosition == slot
      ensures old(Consistent()) ==> Consistent()
      ensures old(PositionsAgree()) && item !in old(slots[..]) ==> PositionsAgree()
    {
      if item == null {
        return -1;
      }
      var found, k := FirstFreeSlot();
      if !found {
        return -1;
      }
      slots[k] := item;
      emptySlots := emptySlots - {k};
      item.inventoryPosition := k;
      slot := k;
      forall i | 0 <= i < slots.Length && i != k && old(PositionsAgree()) && item !in old(slots[..])
        ensures ItemAt(i) != null ==> ItemAt(i).inventoryPosition == i
      {
        assert ItemAt(i) == old(ItemAt(i)) == old(slots[..])[i];
      }
    }

    /**
      Moves the back-references as if `item` and the occupant of `position`
      traded places, but never writes the array. Returns `(item, occupant)`.
    */
    method SwapItemInPosition(item: Item?, position: int) returns (r: (Item?, Item?))
      requires Valid() && 0 <= position < Size
      modifies this, item, slots[position]
      ensures Valid()
      ensures slots[..] == old(slots[..])
      ensures r == (item, old(slots[position]))
      ensures item == null && old(slots[position]) == null ==> emptySlots == old(emptySlots)
      ensures item == null && old(slots[position]) != null ==>
        emptySlots == old(emptySlots) + {position}
        && old(slots[position]).inventoryPosition == old(slots[position].inventoryPosition)
      ensures item != null && old(slots[position]) == null ==> emptySlots == old(emptySlots) + {position}
      ensures item != null && old(slots[position]) != null ==> emptySlots == old(emptySlots)
      ensures item != null && old(slots[position]) != item ==> item.inventoryPosition == position
      ensures item != null && old(slots[position]) != null && old(slots[position]) != item ==>
        old(slots[position]).inventoryPosition == old(item.inventoryPosition)
      ensures item != null && old(slots[position]) == item ==>
        item.inventoryPosition == old(item.inventoryPosition)
      ensures old(Consistent()) && (item != null || old(slots[position]) == null) ==> Consistent()
      ensures old(Consistent()) && item == null && old(slots[position]) != null ==> !Consistent()
    {
      var otherItem := slots[position];
      if item == null && otherItem == null {
        return (null, null);
      }
      if item != null {
        var itemPosition := item.inventoryPosition;
        item.inventoryPosition := position;
        if otherItem != null {
          otherItem.inventoryPosition := itemPosition;
        } else {
          emptySlots := emptySlots + {position};
        }
      } else {
        emptySlots := emptySlots + {position};
      }
      r := (item, otherItem);
    }

    /**
      Writes `item` (possibly null) into `position`. Without `force` an index
      that is not free is left alone and false is returned.
    */
    method StoreItemInPosition(item: Item?, position: int, force: bool) returns (ok: bool)
      requires Valid() && (force ==> 0 <= position < Size)
      modifies this, slots, item
      ensures Valid()
      ensures ok <==> force || position in old(emptySlots)
      ensures !ok ==> slots[..] == old(slots[..]) && emptySlots == old(emptySlots)
      ensures ok ==>
        && slots[..] == old(slots[..])[position := item]
        && emptySlots == MarkFree(old(emptySlots), position, item == null)
      ensures ok && item != null ==> item.inventoryPosition == position
      ensures !ok && item != null ==> item.inventoryPosition == old(item.inventoryPosition)
      ensures old(Consistent()) ==> Consistent()
      ensures old(PositionsAgree()) && (item == null || forall j :: 0 <= j < Size && j != position ==> old(slots[j]) != item)
        ==> PositionsAgree()
    {
      if position !in emptySlots && !force {
        return false;
      }
      slots[position] := item;
      if item != null {
        item.inventoryPosition := position;
        emptySlots := emptySlots - {position};
      } else {
        emptySlots := emptySlots + {position};
      }
      ok := true;
      forall i | 0 <= i < slots.Length && i != position && old(PositionsAgree()) && (item == null || old(slots[i]) != item)
        ensures ItemAt(i) != null ==> ItemAt(i).inventoryPosition == i
      {
        assert ItemAt(i) == old(ItemAt(i));
      }
    }

    /** Whether `position` is in the free set. */
    function SlotPositionIsFree(position: int): (b: bool)
      reads this, slots
      ensures Consistent() && 0 <= position < Size ==> (b <==> slots[position] == null)
      ensures Valid() && !(0 <= position < Size) ==> !b
    {
      position in emptySlots
    }

    /** `item` itself when some slot holds it, and null otherwise; nothing is removed. */
    function FetchItem(item: Item?): (r: Item?)
      reads this, slots, item
      ensures r != null ==> r == item && exists i :: 0 <= i < slots.Length && slots[i] == r
      ensures item != null && (exists i :: 0 <= i < slots.Length && slots[i] == item) ==> r == item
      ensures r != null && PositionsAgree() ==>
        0 <= r.inventoryPosition < slots.Length && slots[r.inventoryPosition] == r
    {
      if item != null && item in slots[..] then
        assert exists i :: 0 <= i < slots.Length && ItemAt(i) == item by {
          var i :| 0 <= i < |slots[..]| && slots[..][i] == item;
          assert ItemAt(i) == item;
        }
        item
      else null
    }

    /** The occupant of `position`; nothing is removed. */
    function FetchItemByPosition(position: int): (r: Item?)
      reads this, slots
      requires Valid() && 0 <= position < Size
      ensures Consistent() ==> (r == null <==> position in emptySlots)
      ensures r != null ==> r in Held()
    {
      slots[position]
    }

    /** A fresh copy of the array: writes to it do not reach the inventory. */
    method Items() returns (copy: array<Item?>)
      ensures fresh(copy) && copy[..] == slots[..]
    {
      copy := new Item?[slots.Length];
      forall i | 0 <= i < slots.Length {
        copy[i] := slots[i];
      }
    }

    /**
      Reports the occupant of a non-free `position` and marks it free. The
      clearing write goes to the copy made by `Items`, so the array still
      holds the item afterwards and the free set no longer agrees with it.
    */
    method RemoveItemFromSlot(position: int) returns (item: Item?)
      requires Valid() && 0 <= position < Size
      modifies this
      ensures Valid()
      ensures slots[..] == old(slots[..])
      ensures position in old(emptySlots) ==> item == null && emptySlots == old(emptySlots)
      ensures position !in old(emptySlots) ==> item == slots[position] && emptySlots == old(emptySlots) + {position}
      ensures old(Consistent()) && position !in old(emptySlots) ==> !Consistent()
    {
      if SlotPositionIsFree(position) {
        return null;
      }
      var snapshot := Items();
      item := snapshot[position];
      var discarded := Items();
      discarded[position] := null;
      emptySlots := emptySlots + {position};
    }

    /** What removing was evidently meant to do: clear the slot as well as free it. */
    method RemoveItemFromSlotCleared(position: int) returns (item: Item?)
      requires Valid() && 0 <= position < Size
      modifies this, slots
      ensures Valid()
      ensures position in old(emptySlots) ==> item == null && slots[..] == old(slots[..]) && emptySlots == old(emptySlots)
      ensures position !in old(emptySlots) ==>
        && item == old(slots[position])
        && slots[..] == old(slots[..])[position := null]
        && emptySlots == old(emptySlots) + {position}
      ensures old(Consistent()) ==> Consistent()
    {
      if SlotPositionIsFree(position) {
        return null;
      }
      item := slots[position];
      slots[position] := null;
      emptySlots := emptySlots + {position};
    }

    /**
      Exchanges the contents of two slots and sets each one's free-set
      membership from its new contents. Back-references are not touched.
    */
    method SwapSlotItems(a: int, b: int) returns (r: (Item?, Item?))
      requires Valid() && 0 <= a < Size && 0 <= b < Size
      modifies this, slots
      ensures Valid()
      ensures r == (old(slots[a]), old(slots[b]))
      ensures slots[..] == old(slots[..])[a := old(slots[b])][b := old(slots[a])]
      ensures a == b ==> slots[..] == old(slots[..])
      ensures (a in emptySlots <==> slots[a] == null) && (b in emptySlots <==> slots[b] == null)
      ensures emptySlots - {a, b} == old(emptySlots) - {a, b}
      ensures old(Consistent()) ==> Consistent()
      ensures old(PositionsAgree()) && a != b && old(slots[a]) != null ==> !PositionsAgree()
      ensures old(PositionsAgree()) && a != b && old(slots[b]) != null ==> !PositionsAgree()
    {
      var itemA := slots[a];
      var itemB := slots[b];
      slots[a] := itemB;
      slots[b] := itemA;
      emptySlots := MarkFree(emptySlots, a, itemB == null);
      emptySlots := MarkFree(emptySlots, b, itemA == null);
      r := (itemA, itemB);
      if old(PositionsAgree()) && a != b && itemA != null {
        assert old(ItemAt(a)) == itemA && ItemAt(b) == itemA;
      }
      if old(PositionsAgree()) && a != b && itemB != null {
        assert old(ItemAt(b)) == itemB && ItemAt(a) == itemB;
      }
    }
  }
}
