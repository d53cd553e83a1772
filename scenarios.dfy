/**
 * Concrete runs of the service taken from its test plan, proved from the
 * methods' contracts alone.
 */
module Scenarios {
  import opened Text
  import opened Items
  import opened ItemLists
  import opened Service

  /** The six items the search test adds, under ids "1".."6". */
  function SearchFixture(): seq<Item> {
    [ Item("1", "Banana", 2, Some("Yellow"), false),
      Item("2", "Apple", 3, Some("Green"), false),
      Item("3", "Orange", 4, Some("Orange"), false),
      Item("4", "Orange", 7, None, false),
      Item("5", "Pear", 7, Some("DarkGreen"), false),
      Item("6", "Pear", 8, Some("DarkOrange"), false) ]
  }

  /** Searching the fixture for "Orange" finds the two oranges and the dark-orange pear. */
  lemma SearchOrangeFindsThree()
    ensures var s := SearchFixture();
      Select(s, Matching("Orange")) == [s[2], s[3], s[5]]
  {
    var s := SearchFixture();
    BananaMisses();
    AppleMisses();
    OrangeHits(s[2]);
    OrangeHits(s[3]);
    DarkGreenPearMisses();
    DarkOrangePearHits();
    SelectThirdFourthSixth(s[0], s[1], s[2], s[3], s[4], s[5], Matching("Orange"));
    assert [s[0], s[1], s[2], s[3], s[4], s[5]] == s;
  }

  /** Selecting from six items admits exactly the third, fourth and sixth when only they pass. */
  lemma SelectThirdFourthSixth(u: Item, v: Item, w: Item, x: Item, y: Item, z: Item, c: Criterion)
    requires !Admits(c, u) && !Admits(c, v) && Admits(c, w) && Admits(c, x) && !Admits(c, y) && Admits(c, z)
    ensures Select([u, v, w, x, y, z], c) == [w, x, z]
  {
    assert Select([], c) == [];
    SelectSnoc([], u, c);
    assert [] + [u] == [u];
    SelectSnoc([u], v, c);
    assert [u] + [v] == [u, v];
    SelectSnoc([u, v], w, c);
    assert [u, v] + [w] == [u, v, w];
    SelectSnoc([u, v, w], x, c);
    assert [u, v, w] + [x] == [u, v, w, x];
    SelectSnoc([u, v, w, x], y, c);
    assert [u, v, w, x] + [y] == [u, v, w, x, y];
    SelectSnoc([u, v, w, x, y], z, c);
    assert [u, v, w, x, y] + [z] == [u, v, w, x, y, z];
  }

  /** A fresh list holding the six search-test items, added in order. */
  method SearchItems() returns (list: ShoppingListService)
    ensures fresh(list) && list.Valid()
    ensures list.Contents() == SearchFixture()
  {
    var s := SearchFixture();
    list := new ShoppingListService();
    var _ := list.Add("1", "Banana", 2, Some("Yellow"));
    assert list.Contents() == s[..1];
    var _ := list.Add("2", "Apple", 3, Some("Green"));
    assert list.Contents() == s[..2];
    var _ := list.Add("3", "Orange", 4, Some("Orange"));
    assert list.Contents() == s[..3];
    var _ := list.Add("4", "Orange", 7, None);
    assert list.Contents() == s[..4];
    var _ := list.Add("5", "Pear", 7, Some("DarkGreen"));
    assert list.Contents() == s[..5];
    var _ := list.Add("6", "Pear", 8, Some("DarkOrange"));
    assert list.Contents() == s[..6] == s;
  }

  /**
   * The search test run on the service: six Adds, then a search for
   * "Orange", which answers exactly three items.
   */
  method SearchOrange() returns (found: seq<Item>)
    ensures |found| == 3
    ensures found == [SearchFixture()[2], SearchFixture()[3], SearchFixture()[5]]
  {
    var list := SearchItems();
    SearchOrangeFindsThree();
    found := list.Search(Some("Orange"));
  }

  lemma AppleMisses()
    ensures !MatchesQuery(Item("2", "Apple", 3, Some("Green"), false), "Orange")
  {
  }

  lemma OrangeHits(item: Item)
    requires item.name == "Orange"
    ensures MatchesQuery(item, "Orange")
  {
    assert OccursAt(Lower("Orange"), Lower("Orange"), 0);
  }

  lemma BananaMisses()
    ensures !MatchesQuery(Item("1", "Banana", 2, Some("Yellow"), false), "Orange")
  {
    assert Lower("Orange") == "orange";
    assert Lower("Banana") == "banana" && "banana"[..6][0] != "orange"[0];
    assert Lower("Yellow") == "yellow" && "yellow"[..6][0] != "orange"[0];
  }

  lemma DarkGreenPearMisses()
    ensures !MatchesQuery(Item("5", "Pear", 7, Some("DarkGreen"), false), "Orange")
  {
    assert Lower("Orange") == "orange";
    assert Lower("DarkGreen") == "darkgreen";
    assert "darkgreen"[..6][0] != "orange"[0];
    assert "darkgreen"[1..][..6][0] != "orange"[0];
    assert "darkgreen"[1..][1..][..6][0] != "orange"[0];
    assert "darkgreen"[1..][1..][1..][..6][0] != "orange"[0];
  }

  lemma DarkOrangePearHits()
    ensures MatchesQuery(Item("6", "Pear", 8, Some("DarkOrange"), false), "Orange")
  {
    assert Lower("Orange") == "orange";
    assert Lower("DarkOrange") == "darkorange" && OccursAt("darkorange", "orange", 4);
  }

  /** The five items of the delete and clear tests, under ids "a".."e". */
  function FiveFixture(): seq<Item> {
    [ Item("a", "Milk", 1, None, false),
      Item("b", "Bread", 2, Some("Rye"), false),
      Item("c", "Eggs", 12, None, false),
      Item("d", "Apples", 10, Some("Pink Lady"), false),
      Item("e", "Coffee", 1, Some("Dark roast"), false) ]
  }

  /** A fresh list holding the five fixture items, added in order. */
  method FiveItems() returns (list: ShoppingListService)
    ensures fresh(list) && fresh(list.items) && list.Valid() && list.Tight()
    ensures list.Contents() == FiveFixture()
  {
    var s := FiveFixture();
    list := new ShoppingListService();
    var _ := list.Add("a", "Milk", 1, None);
    assert list.Contents() == s[..1];
    var _ := list.Add("b", "Bread", 2, Some("Rye"));
    assert list.Contents() == s[..2];
    var _ := list.Add("c", "Eggs", 12, None);
    assert list.Contents() == s[..3];
    var _ := list.Add("d", "Apples", 10, Some("Pink Lady"));
    assert list.Contents() == s[..4];
    var _ := list.Add("e", "Coffee", 1, Some("Dark roast"));
    assert list.Contents() == s[..5] == s;
  }

  /** The fixture's ids are "a".."e", so they are unique and non-empty. */
  lemma FiveFixtureKeyed()
    ensures Ids(FiveFixture()) == ["a", "b", "c", "d", "e"]
    ensures UniqueIds(FiveFixture())
  {
  }

  /**
   * Deleting the first, a middle or the last of five items leaves the other
   * four in their original order, and deleting an unknown id changes nothing.
   */
  method DeleteFromFive(k: nat) returns (deleted: bool, missing: bool, remaining: seq<string>)
    requires k < 5
    ensures deleted && !missing
    ensures remaining == ["a", "b", "c", "d", "e"][..k] + ["a", "b", "c", "d", "e"][k + 1..]
  {
    var list := FiveItems();
    DeleteFromFiveFixture(k);
    deleted := list.Delete(["a", "b", "c", "d", "e"][k]);
    missing := list.Delete("z");
    var snapshot := list.GetAll();
    remaining := Ids(snapshot);
  }

  /** The value-level facts behind DeleteFromFive. */
  lemma DeleteFromFiveFixture(k: nat)
    requires k < 5
    ensures var s, ids := FiveFixture(), ["a", "b", "c", "d", "e"];
      && ids[k] in Ids(s)
      && Ids(Select(s, NotId(ids[k]))) == ids[..k] + ids[k + 1..]
      && "z" !in Ids(Select(s, NotId(ids[k])))
  {
    var s, ids := FiveFixture(), ["a", "b", "c", "d", "e"];
    FiveFixtureKeyed();
    assert s[k].id == Ids(s)[k] == ids[k];
    RemoveIdAt(s, k);
    var r := s[..k] + s[k + 1..];
    assert Ids(r) == ids[..k] + ids[k + 1..];
  }

  /**
   * Toggling two of five items and clearing removes exactly those two; the
   * other three stay in order, and a second clear removes nothing.
   */
  method ClearTwoOfFive() returns (first: nat, second: nat, remaining: seq<string>)
    ensures first == 2 && second == 0
    ensures remaining == ["a", "c", "e"]
  {
    var list := ToggledFive();
    ghost var t := list.Contents();
    ClearSecondAndFourth(t[0], t[1], t[2], t[3], t[4]);
    assert [t[0], t[1], t[2], t[3], t[4]] == t;
    first := list.ClearPurchased();
    SelectIdempotent(t, NotPurchased);
    second := list.ClearPurchased();
    var snapshot := list.GetAll();
    remaining := Ids(snapshot);
  }

  /** The five fixture items after toggling "b" and then "d". */
  method ToggledFive() returns (list: ShoppingListService)
    ensures fresh(list) && fresh(list.items) && list.Valid()
    ensures list.Contents() == ToggledFixture()
  {
    list := FiveItems();
    var _ := list.TogglePurchased("b");
    var _ := list.TogglePurchased("d");
    TwoToggled();
  }

  /** The five fixture items with the second and fourth marked purchased. */
  function ToggledFixture(): seq<Item> {
    [ Item("a", "Milk", 1, None, false),
      Item("b", "Bread", 2, Some("Rye"), true),
      Item("c", "Eggs", 12, None, false),
      Item("d", "Apples", 10, Some("Pink Lady"), true),
      Item("e", "Coffee", 1, Some("Dark roast"), false) ]
  }

  /** Toggling "b" and then "d" marks the second and fourth items purchased. */
  lemma TwoToggled()
    ensures Toggled(Toggled(FiveFixture(), "b"), "d") == ToggledFixture()
  {
    var s := FiveFixture();
    FiveFixtureKeyed();
    FirstWithIdUnique(s, 1);
    var t1 := Toggled(s, "b");
    assert t1 == s[1 := s[1].(purchased := true)];
    assert Ids(t1)[3] == "d";
    FirstWithIdUnique(t1, 3);
  }

  /** Clearing a five-item list whose second and fourth items are purchased keeps the other three. */
  lemma ClearSecondAndFourth(v: Item, w: Item, x: Item, y: Item, z: Item)
    requires !v.purchased && w.purchased && !x.purchased && y.purchased && !z.purchased
    ensures Select([v, w, x, y, z], NotPurchased) == [v, x, z]
  {
    var c := NotPurchased;
    assert Select([], c) == [];
    SelectSnoc([], v, c);
    assert [] + [v] == [v];
    SelectSnoc([v], w, c);
    assert [v] + [w] == [v, w];
    SelectSnoc([v, w], x, c);
    assert [v, w] + [x] == [v, w, x];
    SelectSnoc([v, w, x], y, c);
    assert [v, w, x] + [y] == [v, w, x, y];
    SelectSnoc([v, w, x, y], z, c);
    assert [v, w, x, y] + [z] == [v, w, x, y, z];
  }

  /**
   * Reorder refuses an empty list, a duplicate, a missing and an extra id,
   * changing nothing, and then applies a full permutation of the ids.
   */
  method ReorderFive() returns (empty: bool, duplicate: bool, missing: bool, extra: bool, reversed: bool, order: seq<string>)
    ensures !empty && !duplicate && !missing && !extra
    ensures reversed && order == ["e", "d", "c", "b", "a"]
  {
    var list := FiveItems();
    FiveFixtureKeyed();
    empty := list.Reorder([]);
    missing := list.Reorder(["a", "b", "c", "d"]);
    extra := list.Reorder(["a", "b", "c", "d", "e", "z"]);
    duplicate := list.Reorder(["a", "a", "c", "d", "e"]);
    assert !Distinct(["a", "a", "c", "d", "e"]) by {
      assert ["a", "a", "c", "d", "e"][0] == ["a", "a", "c", "d", "e"][1];
    }
    ReversedIsValidOrder();
    reversed := list.Reorder(["e", "d", "c", "b", "a"]);
    var snapshot := list.GetAll();
    order := Ids(snapshot);
  }

  /** The reversed ids name every fixture item exactly once. */
  lemma ReversedIsValidOrder()
    ensures ValidOrder(FiveFixture(), ["e", "d", "c", "b", "a"])
  {
    FiveFixtureKeyed();
  }
}
