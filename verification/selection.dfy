/**
 * The item-click lookup: map the id carried by a clicked preview back to a
 * record of the full catalog.
 */
module Selection {
  import opened Wrappers
  import opened Search

  /** The first book of `books` whose id is `id`, or None when no book has it. */
  function Lookup(books: seq<Book>, id: string): (r: Option<Book>)
    ensures r.Some? ==> r.value in books && r.value.id == id
    ensures r.None? <==> forall k :: 0 <= k < |books| ==> books[k].id != id
  {
    if books == [] then None
    else if books[0].id == id then Some(books[0])
    else Lookup(books[1..], id)
  }

  /** The lookup returns the book at the first position carrying the id. */
  lemma {:induction false} LookupFindsFirst(books: seq<Book>, id: string, k: nat)
    requires k < |books| && books[k].id == id
    requires forall j :: 0 <= j < k ==> books[j].id != id
    ensures Lookup(books, id) == Some(books[k])
  {
    if k > 0 {
      LookupFindsFirst(books[1..], id, k - 1);
    }
  }

  /** In a catalog whose ids are unique, every book is found by its own id. */
  lemma LookupByOwnId(books: seq<Book>, k: nat)
    requires k < |books|
    requires forall i, j :: 0 <= i < j < |books| ==> books[i].id != books[j].id
    ensures Lookup(books, books[k].id) == Some(books[k])
  {
    LookupFindsFirst(books, books[k].id, k);
  }

  /**
   * The handler's loop over the whole catalog: remember the first book whose
   * id equals the clicked id and stop once one is remembered.
   */
  method FindById(books: seq<Book>, id: string) returns (result: Option<Book>)
    ensures result == Lookup(books, id)
  {
    result := None;
    for i := 0 to |books|
      invariant result.None? ==> forall j :: 0 <= j < i ==> books[j].id != id
      invariant result.Some? ==> result == Lookup(books, id)
    {
      if result.Some? {
        break;
      }
      if books[i].id == id {
        LookupFindsFirst(books, id, i);
        result := Some(books[i]);
      }
    }
  }
}
