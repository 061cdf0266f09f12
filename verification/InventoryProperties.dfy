/**
  Properties of storing items one after another: the free-set invariant is
  kept, the lowest free indices are used first, and the items that do not
  fit are dropped.
*/
module InventoryProperties {
  import opened Items
  import opened InventoryStore

  /** How many of `items` are not null. */
  function NonNullCount(items: seq<Item?>): (n: nat)
    ensures n <= |items|
  {
    if items == [] then 0
    else (if items[0] == null then 0 else 1) + NonNullCount(items[1..])
  }

  function Min(a: int, b: int): int
  {
    if a < b then a else b
  }

  /** One store keeps the invariant that an index is free iff its slot is empty. */
  lemma StoredKeepsFreeIffEmpty(st: Store, item: Item?)
    requires FreeIffEmpty(st)
    ensures FreeIffEmpty(Stored(st, item).0)
    ensures Stored(st, item).1 != -1 ==> st.slots[Stored(st, item).1] == null
  {
  }

  /** A run of stores keeps that invariant too. */
  lemma {:induction false} StoredManyKeepsFreeIffEmpty(st: Store, items: seq<Item?>)
    requires FreeIffEmpty(st)
    ensures FreeIffEmpty(StoredMany(st, items))
    decreases |items|
  {
    if items != [] {
      StoredKeepsFreeIffEmpty(st, items[0]);
      StoredManyKeepsFreeIffEmpty(Stored(st, items[0]).0, items[1..]);
    }
  }

  /** One store either fails and changes nothing, or takes exactly one free index. */
  lemma StoredStep(st: Store, item: Item?)
    requires WellFormed(st)
    ensures var (st1, k) := Stored(st, item);
      && (k == -1 <==> item == null || st.free == {})
      && (k == -1 ==> st1 == st)
      && (k != -1 ==> k in st.free && st1.free == st.free - {k})
  {
  }

  /** Taking `k` out of `a` leaves one element fewer, inside and outside `c`. */
  lemma TakeOne(a: set<int>, b: set<int>, c: set<int>, k: int)
    requires k in a && b == a - {k} && c <= b
    ensures |b| == |a| - 1
    ensures |a - c| == |b - c| + 1
  {
    assert a - c == (b - c) + {k};
  }

  /**
    Storing a list uses as many indices as there are non-null items or free
    indices, whichever is fewer; the remaining items are dropped.
  */
  lemma {:induction false} StoredManyCount(st: Store, items: seq<Item?>)
    requires WellFormed(st)
    ensures var r := StoredMany(st, items);
      r.free <= st.free && |st.free - r.free| == Min(|st.free|, NonNullCount(items))
    decreases |items|
  {
    if items != [] {
      var (st1, k) := Stored(st, items[0]);
      StoredStep(st, items[0]);
      StoredManyCount(st1, items[1..]);
      if k != -1 {
        TakeOne(st.free, st1.free, StoredMany(st1, items[1..]).free, k);
      }
    }
  }

  /**
    Storing a list uses the lowest free indices: every index it took is below
    every index still free, and each one it took holds one of the items.
  */
  lemma {:induction false} StoredManyFillsLowest(st: Store, items: seq<Item?>)
    requires WellFormed(st)
    ensures var r := StoredMany(st, items);
      && (forall x, y :: x in st.free - r.free && y in r.free ==> x < y)
      && (forall k :: k in st.free - r.free ==> r.slots[k] != null && r.slots[k] in items)
    decreases |items|
  {
    if items != [] {
      var (st1, k) := Stored(st, items[0]);
      var r := StoredMany(st1, items[1..]);
      StoredManyFillsLowest(st1, items[1..]);
      StoredManyTakesFreeSlots(st1, items[1..]);
      assert forall x :: x in items[1..] ==> x in items;
      if k != -1 {
        assert forall x :: x in st.free - r.free ==> x == k || x in st1.free - r.free;
        assert r.slots[k] == st1.slots[k] == items[0];
      }
    }
  }

  /** On a full inventory every store fails and nothing changes. */
  lemma {:induction false} StoredManyOnFullIsNoOp(st: Store, items: seq<Item?>)
    requires WellFormed(st) && st.free == {}
    ensures StoredMany(st, items) == st
    decreases |items|
  {
    if items != [] {
      StoredManyOnFullIsNoOp(st, items[1..]);
    }
  }

  /** The non-null count of a prefix, split into its first element and the rest. */
  lemma NonNullCountPrefix(items: seq<Item?>, i: int)
    requires 0 < i <= |items|
    ensures NonNullCount(items[..i]) == (if items[0] == null then 0 else 1) + NonNullCount(items[1..][..i - 1])
  {
    assert items[..i][0] == items[0] && items[..i][1..] == items[1..][..i - 1];
  }

  /**
    Storing a list keeps exactly the first items that fit: the i-th store
    succeeds iff its item is not null and fewer non-null items than there are
    free indices came before it.
  */
  lemma {:induction false} StoredManyKeepsFirst(st: Store, items: seq<Item?>)
    requires WellFormed(st)
    ensures forall i :: 0 <= i < |items| ==>
      (Placements(st, items)[i] != -1 <==> items[i] != null && NonNullCount(items[..i]) < |st.free|)
    decreases |items|
  {
    if items != [] {
      var (st1, k) := Stored(st, items[0]);
      var p, p1 := Placements(st, items), Placements(st1, items[1..]);
      assert p == [k] + p1;
      StoredStep(st, items[0]);
      StoredManyKeepsFirst(st1, items[1..]);
      if k != -1 {
        TakeOne(st.free, st1.free, {}, k);
      }
      forall i | 0 <= i < |items|
        ensures p[i] != -1 <==> items[i] != null && NonNullCount(items[..i]) < |st.free|
      {
        if i == 0 {
          assert items[..0] == [];
        } else {
          assert p[i] == p1[i - 1] && items[i] == items[1..][i - 1];
          NonNullCountPrefix(items, i);
        }
      }
    }
  }

  /** The stores of a list that succeed take strictly increasing indices, in list order. */
  lemma {:induction false} StoredManyPlacesInOrder(st: Store, items: seq<Item?>)
    requires WellFormed(st)
    ensures forall i, j :: 0 <= i < j < |items| && Placements(st, items)[i] != -1 && Placements(st, items)[j] != -1 ==>
      Placements(st, items)[i] < Placements(st, items)[j]
    decreases |items|
  {
    if items != [] {
      var (st1, k) := Stored(st, items[0]);
      var p, p1 := Placements(st, items), Placements(st1, items[1..]);
      assert p == [k] + p1;
      StoredManyPlacesInOrder(st1, items[1..]);
      PlacementsFill(st1, items[1..]);
      StoredStep(st, items[0]);
      forall i, j | 0 <= i < j < |items| && p[i] != -1 && p[j] != -1
        ensures p[i] < p[j]
      {
        assert p[j] == p1[j - 1];
        if i == 0 {
          assert p1[j - 1] in st1.free;
          assert k == Lowest(st.free);
        } else {
          assert p[i] == p1[i - 1];
        }
      }
    }
  }

  /** The last placement of `x` is -1 iff no store of `x` succeeded. */
  lemma {:induction false} LastPlacementNone(x: Item, items: seq<Item?>, p: seq<int>)
    requires |p| == |items|
    ensures LastPlacement(x, items, p) == -1 <==> forall j :: 0 <= j < |items| && items[j] == x ==> p[j] == -1
    decreases |items|
  {
    if items != [] {
      var n := |items| - 1;
      LastPlacementNone(x, items[..n], p[..n]);
      assert forall j :: 0 <= j < n ==> items[..n][j] == items[j] && p[..n][j] == p[j];
    }
  }

  /**
    When a store of `x` succeeded, the last placement is the index taken by a
    store of `x` after which no store of `x` succeeded.
  */
  lemma {:induction false} LastPlacementFound(x: Item, items: seq<Item?>, p: seq<int>)
    requires |p| == |items| && LastPlacement(x, items, p) != -1
    ensures exists j :: 0 <= j < |items| && items[j] == x && p[j] == LastPlacement(x, items, p) &&
                        forall j' :: j < j' < |items| && items[j'] == x ==> p[j'] == -1
    decreases |items|
  {
    var n := |items| - 1;
    var k := LastPlacement(x, items, p);
    if items[n] == x && p[n] != -1 {
      assert items[n] == x && p[n] == k;
    } else {
      var items', p' := items[..n], p[..n];
      assert LastPlacement(x, items', p') == k;
      LastPlacementFound(x, items', p');
      var j :| 0 <= j < n && items'[j] == x && p'[j] == k &&
               forall j' :: j < j' < n && items'[j'] == x ==> p'[j'] == -1;
      forall j' | j < j' < |items| && items[j'] == x
        ensures p[j'] == -1
      {
        if j' < n {
          assert items'[j'] == items[j'] && p'[j'] == p[j'];
        }
      }
      assert items[j] == x && p[j] == k;
    }
  }
}
