/**
 * ShoppingListService: the in-memory shopping list. Items live in a backing
 * array whose first `count` slots are the live list, in display order.
 */
module Service {
  import opened Items
  import opened ItemLists

  /** Whether no id occurs twice in `ids`. */
  method AllDistinct(ids: seq<string>) returns (distinct: bool)
    ensures distinct == Distinct(ids)
  {
    for i := 0 to |ids|
      invariant forall j, m :: 0 <= j < m < i ==> ids[j] != ids[m]
    {
      if ids[i] in ids[..i] {
        assert !Distinct(ids) by {
          var j :| 0 <= j < i && ids[..i][j] == ids[i];
          assert ids[j] == ids[i];
        }
        return false;
      }
    }
    return true;
  }

  /**
   * Array.Resize: a fresh array of length `n` whose first slots hold the
   * elements of `a`, in order.
   */
  method Resize(a: array<Item>, n: nat) returns (b: array<Item>)
    requires a.Length <= n
    ensures fresh(b) && b.Length == n
    ensures b[..a.Length] == a[..]
  {
    b := new Item[n];
    for i := 0 to a.Length
      invariant forall k :: 0 <= k < i ==> b[k] == a[k]
    {
      b[i] := a[i];
    }
  }

  class ShoppingListService {
    /** The backing array; slots from `count` on are spare capacity. */
    var items: array<Item>
    /** Number of live items (the next free slot). */
    var count: nat

    ghost predicate Valid()
      reads this
    {
      count <= items.Length
    }

    /** The live list, in display order. */
    ghost function Contents(): seq<Item>
      reads this, items
      requires Valid()
    {
      items[..count]
    }

    /** Every live item has its own non-empty id. */
    ghost predicate Keyed()
      reads this, items
      requires Valid()
    {
      UniqueIds(Contents()) && forall x :: x in Contents() ==> x.id != ""
    }

    /** Capacity equals the live count: what growing by one slot per Add keeps. */
    ghost predicate Tight()
      reads this
    {
      items.Length == count
    }

    /** An empty list with no capacity. */
    constructor ()
      ensures Valid() && fresh(items)
      ensures Contents() == [] && Tight() && Keyed()
    {
      items := new Item[0];
      count := 0;
    }

    /** A snapshot of exactly the live items, never the spare capacity. */
    method GetAll() returns (snapshot: seq<Item>)
      requires Valid()
      ensures snapshot == Contents()
    {
      var copy := new Item[count];
      for i := 0 to count
        invariant forall k :: 0 <= k < i ==> copy[k] == items[k]
      {
        copy[i] := items[i];
      }
      snapshot := copy[..];
    }

    /**
     * The first live item carrying `id`, or None when there is none; with
     * non-empty ids the empty id finds nothing.
     */
    function GetById(id: string): (found: Option<Item>)
      reads this, items
      requires Valid()
      ensures found.None? <==> id !in Ids(Contents())
      ensures found.Some? ==> exists k :: 0 <= k < count && items[k] == found.value && items[k].id == id
                                             && forall j :: 0 <= j < k ==> items[j].id != id
      ensures id == "" && Keyed() ==> found.None?
    {
      match FirstWithId(items[..count], id)
      case None => None
      case Some(k) => Some(items[k])
    }

    /** Linear scan for the position of the first live item carrying `id`. */
    method Find(id: string) returns (position: Option<nat>)
      requires Valid()
      ensures position == FirstWithId(Contents(), id)
    {
      var i := 0;
      while i < count
        invariant i <= count
        invariant forall j :: 0 <= j < i ==> items[j].id != id
      {
        if items[i].id == id {
          assert Ids(Contents())[i] == id;
          return Some(i);
        }
        i := i + 1;
      }
      return None;
    }

    /**
     * Appends a new, not yet purchased item under the id the provider handed
     * out, growing the array by one slot when it is full.
     */
    method Add(id: string, name: string, quantity: int, notes: Option<string>) returns (item: Item)
      requires Valid()
      modifies this, items
      ensures Valid()
      ensures item == Item(id, name, quantity, notes, false)
      ensures Contents() == old(Contents()) + [item]
      ensures if old(count) == old(items.Length)
              then fresh(items) && items.Length == old(items.Length) + 1
              else items == old(items)
      ensures old(Tight()) ==> Tight()
      ensures old(Keyed()) && id != "" && id !in Ids(old(Contents())) ==> Keyed()
    {
      item := Item(id, name, quantity, notes, false);
      if items.Length == 0 || items.Length == count {
        items := Resize(items, items.Length + 1);
      }
      items[count] := item;
      count := count + 1;
      assert Contents() == old(Contents()) + [item];
      assert forall j :: 0 <= j < old(count) ==> Ids(old(Contents()))[j] == Contents()[j].id;
    }

    /**
     * Replaces name, quantity and notes of the item carrying `id`, keeping
     * its id and purchased flag; returns the updated item, or None.
     */
    method Update(id: string, name: string, quantity: int, notes: Option<string>) returns (updated: Option<Item>)
      requires Valid()
      modifies items
      ensures Valid()
      ensures Contents() == Updated(old(Contents()), id, name, quantity, notes)
      ensures updated.None? <==> id !in Ids(old(Contents()))
      ensures updated == GetById(id)
      ensures old(Keyed()) ==> Keyed()
    {
      var position := Find(id);
      match position {
        case None =>
          return None;
        case Some(k) =>
          items[k] := items[k].(name := name, quantity := quantity, notes := notes);
          assert items[..count] == Updated(old(items[..count]), id, name, quantity, notes);
          UpdatedFindsNewValues(old(items[..count]), id, name, quantity, notes);
          return Some(items[k]);
      }
    }

    /**
     * Keeps the live items admitted by `c`, in order, compacted into a fresh
     * array of the same capacity; returns how many were dropped.
     */
    method Compact(c: Criterion) returns (removed: nat)
      requires Valid()
      modifies this
      ensures Valid() && fresh(items) && items.Length == old(items.Length)
      ensures Contents() == Select(old(Contents()), c)
      ensures removed == old(count) - count
    {
      var kept := new Item[items.Length];
      var n := 0;
      for i := 0 to count
        modifies kept
        invariant n <= i
        invariant kept[..n] == Select(items[..i], c)
      {
        assert items[..i + 1] == items[..i] + [items[i]];
        if Admits(c, items[i]) {
          kept[n] := items[i];
          n := n + 1;
        }
      }
      assert items[..count] == old(Contents());
      removed := count - n;
      items, count := kept, n;
    }

    /**
     * Removes the item carrying `id` and closes the gap; false, with the
     * array and count untouched, when no live item carries it.
     */
    method Delete(id: string) returns (deleted: bool)
      requires Valid()
      modifies this
      ensures Valid() && items.Length == old(items.Length)
      ensures deleted <==> id in Ids(old(Contents()))
      ensures Contents() == Select(old(Contents()), NotId(id))
      ensures deleted ==> fresh(items)
      ensures !deleted ==> items == old(items) && count == old(count)
      ensures old(Keyed()) ==> Keyed()
      ensures old(Keyed()) && deleted ==> count == old(count) - 1
    {
      var position := Find(id);
      if position.None? {
        forall x | x in Contents() ensures x.id != id {
          var k :| 0 <= k < count && Contents()[k] == x;
          assert Ids(Contents())[k] == x.id;
        }
        SelectKeepsAll(Contents(), NotId(id));
        return false;
      }
      ghost var before := Contents();
      var _ := Compact(NotId(id));
      if UniqueIds(before) {
        SelectKeepsUnique(before, NotId(id));
        RemovePresentId(before, id);
      }
      return true;
    }

    /**
     * Case-insensitive search over name and notes. A null or empty query
     * returns every live item; otherwise the matches, in list order.
     */
    method Search(query: Option<string>) returns (found: seq<Item>)
      requires Valid()
      ensures query.None? || query == Some("") ==> found == Contents()
      ensures query.Some? ==> found == Select(Contents(), Matching(query.value))
    {
      if query.None? || query.value == "" {
        SearchEmptyQuery(Contents());
        return items[..count];
      }
      var c := Matching(query.value);
      var matches := new Item[count];
      var n := 0;
      for i := 0 to count
        invariant n <= i
        invariant matches[..n] == Select(items[..i], c)
      {
        assert items[..i + 1] == items[..i] + [items[i]];
        if Admits(c, items[i]) {
          matches[n] := items[i];
          n := n + 1;
        }
      }
      assert items[..count] == Contents();
      found := matches[..n];
    }

    /**
     * Removes every purchased item, keeping the others in order; returns how
     * many were removed, zero exactly when nothing was purchased.
     */
    method ClearPurchased() returns (removed: nat)
      requires Valid()
      modifies this
      ensures Valid()
      ensures fresh(items) && items.Length == old(items.Length)
      ensures Contents() == Select(old(Contents()), NotPurchased)
      ensures removed == old(count) - count
      ensures removed == 0 <==> forall x :: x in old(Contents()) ==> !x.purchased
      ensures forall x :: x in Contents() ==> !x.purchased
      ensures old(Keyed()) ==> Keyed()
    {
      ghost var before := Contents();
      removed := Compact(NotPurchased);
      SelectKeepsAll(before, NotPurchased);
      if UniqueIds(before) {
        SelectKeepsUnique(before, NotPurchased);
      }
    }

    /**
     * Flips the purchased flag of the item carrying `id`; false, with nothing
     * changed, when no live item carries it.
     */
    method TogglePurchased(id: string) returns (toggled: bool)
      requires Valid()
      modifies items
      ensures Valid()
      ensures toggled <==> id in Ids(old(Contents()))
      ensures Contents() == Toggled(old(Contents()), id)
      ensures old(Keyed()) ==> Keyed()
    {
      var position := Find(id);
      match position {
        case None =>
          return false;
        case Some(k) =>
          items[k] := items[k].(purchased := !items[k].purchased);
          assert items[..count] == Toggled(old(items[..count]), id);
          return true;
      }
    }

    /**
     * Lays the live items out in the order `orderedIds` names them, in a
     * fresh array; fails on an id that no live item carries.
     */
    method Arrange(orderedIds: seq<string>) returns (arranged: array<Item>, ok: bool)
      requires Valid()
      ensures fresh(arranged) && arranged.Length == |orderedIds|
      ensures ok <==> forall i :: 0 <= i < |orderedIds| ==> orderedIds[i] in Ids(Contents())
      ensures ok ==> arranged[..] == Reordered(Contents(), orderedIds)
    {
      ghost var live := Contents();
      arranged := new Item[|orderedIds|];
      for i := 0 to |orderedIds|
        modifies arranged
        invariant forall j :: 0 <= j < i ==> orderedIds[j] in Ids(live)
        invariant forall j :: 0 <= j < i ==> arranged[j] == live[FirstWithId(live, orderedIds[j]).value]
      {
        var position := FirstWithId(items[..count], orderedIds[i]);
        if position.None? {
          return arranged, false;
        }
        arranged[i] := items[position.value];
      }
      ok := true;
      assert arranged[..] == Reordered(live, orderedIds);
    }

    /** Whether every live item's id appears in `ids`. */
    method CoversLive(ids: seq<string>) returns (covered: bool)
      requires Valid()
      ensures covered <==> forall j :: 0 <= j < |Contents()| ==> Contents()[j].id in ids
    {
      for j := 0 to count
        invariant forall m :: 0 <= m < j ==> items[m].id in ids
      {
        if items[j].id !in ids {
          assert Contents()[j].id !in ids;
          return false;
        }
      }
      return true;
    }

    /**
     * Rearranges the live items into the order `orderedIds` gives. Fails,
     * changing nothing, unless the list names every live id exactly once.
     */
    method Reorder(orderedIds: seq<string>) returns (reordered: bool)
      requires Valid()
      modifies this
      ensures Valid()
      ensures reordered == ValidOrder(old(Contents()), orderedIds)
      ensures reordered ==> Contents() == Reordered(old(Contents()), orderedIds)
      ensures reordered ==> fresh(items)
      ensures !reordered ==> items == old(items) && count == old(count)
      ensures reordered && old(Keyed()) ==> Keyed()
    {
      if |orderedIds| == 0 || |orderedIds| != count {
        return false;
      }
      var distinct := AllDistinct(orderedIds);
      if !distinct {
        return false;
      }
      var arranged, ok := Arrange(orderedIds);
      if !ok {
        return false;
      }
      var covered := CoversLive(orderedIds);
      if !covered {
        return false;
      }
      ghost var before := Contents();
      items := arranged;
      if UniqueIds(before) {
        ReorderedIsPermutation(before, orderedIds);
      }
      return true;
    }
  }
}
