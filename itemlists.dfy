/**
 * The live sequence of items, as values: the lookups and rewrites that the
 * service's methods are proved against, and the properties they keep.
 */
module ItemLists {
  import opened Text
  import opened Items

  /** The ids of the items, in list order. */
  function Ids(s: seq<Item>): seq<string> {
    seq(|s|, i requires 0 <= i < |s| => s[i].id)
  }

  /** No element occurs twice. */
  ghost predicate Distinct<T>(a: seq<T>) {
    forall i, j :: 0 <= i < j < |a| ==> a[i] != a[j]
  }

  /** No two items share an id: `Distinct(Ids(s))`, as `UniqueIdsDistinct` shows. */
  ghost predicate UniqueIds(s: seq<Item>) {
    forall i, j :: 0 <= i < j < |s| ==> s[i].id != s[j].id
  }

  /** Unique ids are exactly a duplicate-free id sequence. */
  lemma UniqueIdsDistinct(s: seq<Item>)
    ensures UniqueIds(s) <==> Distinct(Ids(s))
  {
    assert forall i :: 0 <= i < |s| ==> Ids(s)[i] == s[i].id;
  }

  /**
   * Position of the first item carrying `id`, scanning from the front; None
   * exactly when no item carries it.
   */
  function FirstWithId(s: seq<Item>, id: string): (r: Option<nat>)
    ensures r.None? <==> id !in Ids(s)
    ensures r.Some? ==> r.value < |s| && s[r.value].id == id
    ensures r.Some? ==> forall j :: 0 <= j < r.value ==> s[j].id != id
  {
    if s == [] then None
    else if s[0].id == id then
      assert Ids(s)[0] == id;
      Some(0)
    else
      assert Ids(s) == [s[0].id] + Ids(s[1..]);
      match FirstWithId(s[1..], id)
      case None => None
      case Some(k) => Some(k + 1)
  }

  /** With unique ids, the first item carrying an item's id is that item. */
  lemma FirstWithIdUnique(s: seq<Item>, k: nat)
    requires UniqueIds(s) && k < |s|
    ensures FirstWithId(s, s[k].id) == Some(k)
  {
    assert Ids(s)[k] == s[k].id;
  }

  // ---------------------------------------------------------------------------
  // Order-preserving selection (Delete, ClearPurchased and Search)
  // ---------------------------------------------------------------------------

  /** The items admitted by `c`, in their original order. */
  function Select(s: seq<Item>, c: Criterion): (r: seq<Item>)
    ensures |r| <= |s|
    ensures forall x {:trigger x in r} :: x in r <==> x in s && Admits(c, x)
  {
    if s == [] then []
    else
      var last := s[|s| - 1];
      assert s == s[..|s| - 1] + [last];
      Select(s[..|s| - 1], c) + (if Admits(c, last) then [last] else [])
  }

  /** Selecting from a sequence extended by one item decides that item alone. */
  lemma SelectSnoc(s: seq<Item>, x: Item, c: Criterion)
    ensures Select(s + [x], c) == Select(s, c) + (if Admits(c, x) then [x] else [])
  {
    assert (s + [x])[..|s|] == s;
  }

  /** Selection distributes over concatenation: it never reorders. */
  lemma {:induction false} SelectAppend(a: seq<Item>, b: seq<Item>, c: Criterion)
    ensures Select(a + b, c) == Select(a, c) + Select(b, c)
    decreases |b|
  {
    if b == [] {
      assert a + b == a;
    } else {
      var init := b[..|b| - 1];
      assert (a + b)[..|a + b| - 1] == a + init;
      SelectAppend(a, init, c);
    }
  }

  /** Selection keeps a sequence whole exactly when it admits all of it. */
  lemma {:induction false} SelectKeepsAll(s: seq<Item>, c: Criterion)
    ensures Select(s, c) == s <==> forall x :: x in s ==> Admits(c, x)
    ensures |Select(s, c)| == |s| <==> Select(s, c) == s
    decreases |s|
  {
    if s != [] {
      var init := s[..|s| - 1];
      SelectKeepsAll(init, c);
      assert s == init + [s[|s| - 1]];
    }
  }

  /** Selecting twice with the same criterion is selecting once. */
  lemma SelectIdempotent(s: seq<Item>, c: Criterion)
    ensures Select(Select(s, c), c) == Select(s, c)
  {
    SelectKeepsAll(Select(s, c), c);
  }

  /** Selection keeps the ids unique. */
  lemma {:induction false} SelectKeepsUnique(s: seq<Item>, c: Criterion)
    requires UniqueIds(s)
    ensures UniqueIds(Select(s, c))
    decreases |s|
  {
    if s != [] {
      var init, last := s[..|s| - 1], s[|s| - 1];
      SelectKeepsUnique(init, c);
      var r := Select(init, c);
      forall x | x in r ensures x.id != last.id {
        var i :| 0 <= i < |init| && init[i] == x;
      }
    }
  }

  /**
   * Removing the id of the item at position k, in a list with unique ids,
   * closes the gap: the items before and after k stay, in order.
   */
  lemma {:induction false} RemoveIdAt(s: seq<Item>, k: nat)
    requires UniqueIds(s) && k < |s|
    ensures Select(s, NotId(s[k].id)) == s[..k] + s[k + 1..]
    ensures |Select(s, NotId(s[k].id))| == |s| - 1
  {
    var c := NotId(s[k].id);
    var before, after := s[..k], s[k + 1..];
    assert Select(before, c) == before by {
      forall x | x in before ensures Admits(c, x) {
        var i :| 0 <= i < |before| && before[i] == x;
        assert s[i] == x;
      }
      SelectKeepsAll(before, c);
    }
    assert Select(after, c) == after by {
      forall x | x in after ensures Admits(c, x) {
        var i :| 0 <= i < |after| && after[i] == x;
        assert s[k + 1 + i] == x;
      }
      SelectKeepsAll(after, c);
    }
    DropOne(s, k, c);
  }

  /** Selection that keeps both sides of position k and rejects k closes the gap. */
  lemma DropOne(s: seq<Item>, k: nat, c: Criterion)
    requires k < |s| && !Admits(c, s[k])
    requires Select(s[..k], c) == s[..k] && Select(s[k + 1..], c) == s[k + 1..]
    ensures Select(s, c) == s[..k] + s[k + 1..]
  {
    var before, after := s[..k], s[k + 1..];
    calc {
      Select(s, c);
      { assert s == s[..k] + s[k..] && s[k..] == [s[k]] + after; }
      Select(before + ([s[k]] + after), c);
      { SelectAppend(before, [s[k]] + after, c); }
      before + Select([s[k]] + after, c);
      { SelectAppend([s[k]], after, c); }
      before + (Select([s[k]], c) + after);
      { SelectSnoc([], s[k], c); assert [] + [s[k]] == [s[k]]; }
      before + after;
    }
  }

  /** With unique ids, deleting a present id shortens the list by exactly one. */
  lemma RemovePresentId(s: seq<Item>, id: string)
    requires UniqueIds(s) && id in Ids(s)
    ensures |Select(s, NotId(id))| == |s| - 1
  {
    var k :| 0 <= k < |s| && Ids(s)[k] == id;
    RemoveIdAt(s, k);
  }

  /** Searching for the empty query keeps every item. */
  lemma SearchEmptyQuery(s: seq<Item>)
    ensures Select(s, Matching("")) == s
  {
    forall x | x in s ensures Admits(Matching(""), x) {
      MatchesEmptyQuery(x);
    }
    SelectKeepsAll(s, Matching(""));
  }

  /** Queries that differ only in ASCII case find the same items. */
  lemma {:induction false} SearchIgnoresCase(s: seq<Item>, q1: string, q2: string)
    requires Lower(q1) == Lower(q2)
    ensures Select(s, Matching(q1)) == Select(s, Matching(q2))
    decreases |s|
  {
    if s != [] {
      SearchIgnoresCase(s[..|s| - 1], q1, q2);
    }
  }

  // ---------------------------------------------------------------------------
  // In-place rewrites of one item (Update and TogglePurchased)
  // ---------------------------------------------------------------------------

  /**
   * The list after updating the first item carrying `id`: its name, quantity
   * and notes are replaced; nothing changes when no item carries the id.
   */
  function Updated(s: seq<Item>, id: string, name: string, quantity: int, notes: Option<string>): (r: seq<Item>)
    ensures Ids(r) == Ids(s)
    ensures forall i :: 0 <= i < |s| ==> r[i].purchased == s[i].purchased
  {
    match FirstWithId(s, id)
    case None => s
    case Some(k) => s[k := s[k].(name := name, quantity := quantity, notes := notes)]
  }

  /** After an update the id leads to an item holding the new values. */
  lemma UpdatedFindsNewValues(s: seq<Item>, id: string, name: string, quantity: int, notes: Option<string>)
    requires id in Ids(s)
    ensures var r := Updated(s, id, name, quantity, notes);
      && FirstWithId(r, id) == FirstWithId(s, id)
      && var k := FirstWithId(r, id).value;
      && r[k] == Item(id, name, quantity, notes, s[k].purchased)
      && forall j :: 0 <= j < |s| && j != k ==> r[j] == s[j]
  {
    var r := Updated(s, id, name, quantity, notes);
    assert forall j :: 0 <= j < |s| ==> r[j].id == Ids(r)[j] == Ids(s)[j] == s[j].id;
  }

  /** The list after flipping the purchased flag of the first item carrying `id`. */
  function Toggled(s: seq<Item>, id: string): (r: seq<Item>)
    ensures Ids(r) == Ids(s)
  {
    match FirstWithId(s, id)
    case None => s
    case Some(k) => s[k := s[k].(purchased := !s[k].purchased)]
  }

  /** A toggle changes exactly the flag of the item carrying the id. */
  lemma ToggledFlipsOne(s: seq<Item>, id: string)
    requires id in Ids(s)
    ensures var r := Toggled(s, id);
      && var k := FirstWithId(s, id).value;
      && r[k] == s[k].(purchased := !s[k].purchased)
      && forall j :: 0 <= j < |s| && j != k ==> r[j] == s[j]
  {
  }

  /** Toggling the same id twice restores the list (false, true, false). */
  lemma ToggleTwice(s: seq<Item>, id: string)
    ensures Toggled(Toggled(s, id), id) == s
  {
    var t := Toggled(s, id);
    assert forall j :: 0 <= j < |s| ==> t[j].id == Ids(t)[j] == Ids(s)[j] == s[j].id;
  }

  // ---------------------------------------------------------------------------
  // Reordering
  // ---------------------------------------------------------------------------

  /**
   * `ids` names exactly the live items, once each: not empty, as long as the
   * list, no duplicate, no id that is not live, no live id left out.
   */
  ghost predicate ValidOrder(s: seq<Item>, ids: seq<string>) {
    && 0 < |ids| == |s|
    && Distinct(ids)
    && (forall i :: 0 <= i < |ids| ==> ids[i] in Ids(s))
    && (forall j :: 0 <= j < |s| ==> s[j].id in ids)
  }

  /** The live items rearranged so that their ids read `ids`. */
  function Reordered(s: seq<Item>, ids: seq<string>): (r: seq<Item>)
    requires forall i :: 0 <= i < |ids| ==> ids[i] in Ids(s)
    ensures Ids(r) == ids
    ensures forall x :: x in r ==> x in s
  {
    seq(|ids|, i requires 0 <= i < |ids| => s[FirstWithId(s, ids[i]).value])
  }

  /** In a duplicate-free sequence every element occurs once. */
  lemma {:induction false} DistinctOnce<T>(a: seq<T>, x: T)
    requires Distinct(a)
    ensures multiset(a)[x] == if x in a then 1 else 0
    decreases |a|
  {
    if a != [] {
      var tail := a[1..];
      assert Distinct(tail) by {
        forall i, j | 0 <= i < j < |tail| ensures tail[i] != tail[j] {
          assert a[i + 1] != a[j + 1];
        }
      }
      DistinctOnce(tail, x);
      assert a == [a[0]] + tail;
    }
  }

  /** Two duplicate-free sequences with the same elements are permutations of each other. */
  lemma SameElementsSameMultiset<T>(a: seq<T>, b: seq<T>)
    requires Distinct(a) && Distinct(b)
    requires forall x :: x in a <==> x in b
    ensures multiset(a) == multiset(b)
  {
    forall x ensures multiset(a)[x] == multiset(b)[x] {
      DistinctOnce(a, x);
      DistinctOnce(b, x);
    }
  }

  /**
   * A valid order over a list with unique ids rearranges the list: the
   * result is a permutation of it, and it keeps the ids unique.
   */
  lemma ReorderedIsPermutation(s: seq<Item>, ids: seq<string>)
    requires UniqueIds(s) && ValidOrder(s, ids)
    ensures multiset(Reordered(s, ids)) == multiset(s)
    ensures UniqueIds(Reordered(s, ids))
  {
    var r := Reordered(s, ids);
    assert forall i :: 0 <= i < |r| ==> r[i].id == Ids(r)[i] == ids[i];
    forall x | x in s ensures x in r {
      var j :| 0 <= j < |s| && s[j] == x;
      var i :| 0 <= i < |ids| && ids[i] == x.id;
      FirstWithIdUnique(s, j);
      assert r[i] == x;
    }
    SameElementsSameMultiset(r, s);
  }
}
