/**
 * The shopping item record and the per-item tests the service filters by.
 */
module Items {
  import opened Text

  datatype Option<T> = None | Some(value: T)

  /**
   * One entry of the shopping list. `id` is the opaque key handed out by the
   * id provider; `notes` is None where the record holds a null string.
   */
  datatype Item = Item(id: string, name: string, quantity: int, notes: Option<string>, purchased: bool)

  /**
   * Case-insensitive substring match of `query` against the name, or against
   * the notes when they are present.
   */
  predicate MatchesQuery(item: Item, query: string)
    ensures MatchesQuery(item, query) <==>
      || (exists k :: OccursAt(Lower(item.name), Lower(query), k))
      || (item.notes.Some? && exists k :: OccursAt(Lower(item.notes.value), Lower(query), k))
  {
    || Contains(Lower(item.name), Lower(query))
    || (item.notes.Some? && Contains(Lower(item.notes.value), Lower(query)))
  }

  /** Which items a compaction or a search keeps. */
  datatype Criterion =
    | NotId(id: string)        // Delete keeps every item but the one with this id
    | NotPurchased             // ClearPurchased keeps the items not yet bought
    | Matching(query: string)  // Search keeps the items matching the query

  predicate Admits(c: Criterion, item: Item) {
    match c
    case NotId(id) => item.id != id
    case NotPurchased => !item.purchased
    case Matching(query) => MatchesQuery(item, query)
  }

  /** Whether a query matches depends on the query only up to ASCII case. */
  lemma MatchesQueryIgnoresCase(item: Item, q1: string, q2: string)
    requires Lower(q1) == Lower(q2)
    ensures MatchesQuery(item, q1) == MatchesQuery(item, q2)
  {
  }

  /** The empty query matches every item. */
  lemma MatchesEmptyQuery(item: Item)
    ensures MatchesQuery(item, "")
  {
    ContainsEmpty(Lower(item.name));
  }
}
