/**
 * Delete and Search as the service's code stands, kept beside the corrected
 * behaviour that the rest of the model uses, with inputs that tell them apart.
 */
module AsWritten {
  import opened Text
  import opened Items
  import opened ItemLists

  /**
   * Delete as written, on the backing array `arr` and the count `n`: whether
   * it reports a deletion, and the new count. The test for the id and the
   * copy both run over the whole array, slots past the count included. The
   * copy goes to a new array that is then dropped, so `arr` stays as it was
   * and the live list becomes `arr[..count]` for the new count.
   */
  function DeleteAsWritten(arr: seq<Item>, n: nat, id: string): (bool, nat) {
    if id !in Ids(arr) then (false, n) else (true, |Select(arr, NotId(id))|)
  }

  /**
   * On a full array with unique ids, deleting a present id as written
   * always loses the LAST item, and the item carrying the id stays live
   * unless it was the last one.
   */
  lemma DeleteAsWrittenLosesLast(s: seq<Item>, id: string)
    requires UniqueIds(s) && id in Ids(s)
    ensures DeleteAsWritten(s, |s|, id) == (true, |s| - 1)
    ensures s[|s| - 1].id != id ==> id in Ids(s[..|s| - 1])
  {
    RemovePresentId(s, id);
    if s[|s| - 1].id != id {
      var k :| 0 <= k < |s| && Ids(s)[k] == id;
      assert Ids(s[..|s| - 1])[k] == id;
    }
  }

  /** Deleting "a" from [a, b, c] as written leaves [a, b] live; the intended result is [b, c]. */
  lemma DeleteAsWrittenDropsWrongItem(a: Item, b: Item, c: Item)
    requires a.id == "a" && b.id == "b" && c.id == "c"
    ensures var (deleted, n) := DeleteAsWritten([a, b, c], 3, "a");
      deleted && [a, b, c][..n] == [a, b]
    ensures Select([a, b, c], NotId("a")) == [b, c]
  {
    assert Ids([a, b, c])[0] == "a";
    assert UniqueIds([a, b, c]);
    RemoveIdAt([a, b, c], 0);
    assert [a, b, c][1..] == [b, c];
  }

  /**
   * After that delete, "c" is no longer live, yet a second delete as written
   * still finds it in the stale slot and reports success, keeping [a, b].
   */
  lemma DeleteAsWrittenFindsStaleId(a: Item, b: Item, c: Item)
    requires a.id == "a" && b.id == "b" && c.id == "c"
    ensures DeleteAsWritten([a, b, c], 3, "a").1 == 2
    ensures "c" !in Ids([a, b, c][..2])
    ensures DeleteAsWritten([a, b, c], 2, "c") == (true, 2)
  {
    DeleteAsWrittenDropsWrongItem(a, b, c);
    assert Ids([a, b, c])[2] == "c";
    assert UniqueIds([a, b, c]);
    RemoveIdAt([a, b, c], 2);
  }

  /**
   * One item tested as written: ordinal (case-sensitive) containment in the
   * name, else in the notes; None where the notes are null and the code
   * dereferences them.
   */
  function MatchAsWritten(item: Item, query: string): (r: Option<bool>)
    ensures r.None? <==> (!exists k :: OccursAt(item.name, query, k)) && item.notes.None?
    ensures r == Some(true) <==>
      || (exists k :: OccursAt(item.name, query, k))
      || (item.notes.Some? && exists k :: OccursAt(item.notes.value, query, k))
  {
    if Contains(item.name, query) then Some(true)
    else if item.notes.None? then None
    else Some(Contains(item.notes.value, query))
  }

  /**
   * Search as written over the whole backing array `s`, whatever the count:
   * None when it throws; otherwise an array as long as `s` that holds each
   * match at the match's own position and an empty slot (None) everywhere
   * else. As written the array never holds a null slot: Add grows it one
   * slot at a time and fills that slot, and Delete never replaces it.
   */
  function SearchAsWritten(s: seq<Item>, query: Option<string>): (r: Option<seq<Option<Item>>>)
    ensures r.Some? ==> |r.value| == |s|
  {
    if query.None? || query.value == "" then
      Some(seq(|s|, i requires 0 <= i < |s| => Some(s[i])))
    else if exists i :: 0 <= i < |s| && MatchAsWritten(s[i], query.value).None? then
      None
    else
      Some(seq(|s|, i requires 0 <= i < |s| =>
        if MatchAsWritten(s[i], query.value) == Some(true) then Some(s[i]) else None))
  }

  /**
   * A search for "Orange" over the array [apple, orange] as written answers two slots,
   * the first empty; the intended result is just [orange].
   */
  lemma SearchAsWrittenLeavesGaps(apple: Item, orange: Item)
    requires apple == Item("1", "Apple", 3, Some("Green"), false)
    requires orange == Item("2", "Orange", 7, None, false)
    ensures SearchAsWritten([apple, orange], Some("Orange")) == Some([None, Some(orange)])
    ensures Select([apple, orange], Matching("Orange")) == [orange]
  {
    assert OccursAt("Orange", "Orange", 0);
    assert OccursAt(Lower("Orange"), Lower("Orange"), 0);
    assert MatchAsWritten(apple, "Orange") == Some(false);
    assert MatchAsWritten(orange, "Orange") == Some(true);
    var s := [apple, orange];
    assert !exists i :: 0 <= i < |s| && MatchAsWritten(s[i], "Orange").None? by {
      forall i | 0 <= i < |s| ensures MatchAsWritten(s[i], "Orange").Some? {
        assert i == 0 || i == 1;
      }
    }
    var slots := seq(|s|, i requires 0 <= i < |s| =>
      if MatchAsWritten(s[i], "Orange") == Some(true) then Some(s[i]) else None);
    assert slots[0] == None && slots[1] == Some(orange);
    assert slots == [None, Some(orange)];
    assert SearchAsWritten(s, Some("Orange")) == Some(slots);
    assert !MatchesQuery(apple, "Orange");
    SelectSnoc([apple], orange, Matching("Orange"));
    assert Select([apple], Matching("Orange")) == [] by {
      SelectSnoc([], apple, Matching("Orange"));
      assert [] + [apple] == [apple];
    }
    assert [apple] + [orange] == [apple, orange];
  }

  /**
   * A lower-case query "orange" as written misses the capitalised name and
   * then dereferences the null notes; the intended search finds the item.
   */
  lemma SearchAsWrittenIsCaseSensitive(orange: Item)
    requires orange == Item("2", "Orange", 7, None, false)
    ensures SearchAsWritten([orange], Some("orange")) == None
    ensures Select([orange], Matching("orange")) == [orange]
  {
    assert "Orange"[..6][0] != "orange"[0];
    assert MatchAsWritten(orange, "orange") == None;
    assert OccursAt(Lower("Orange"), Lower("orange"), 0) by {
      assert Lower("Orange") == "orange" && Lower("orange") == "orange";
    }
    SelectSnoc([], orange, Matching("orange"));
    assert [] + [orange] == [orange];
  }
}
