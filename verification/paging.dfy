/**
 * What one render step of the book list computes: the batch of previews it
 * appends and the arithmetic behind the "Show more" button.
 */
module Paging {
  import opened Search

  function Min(a: int, b: int): int {
    if a <= b then a else b
  }

  /**
   * `s.slice(start, end)` for non-negative bounds: the elements at positions
   * `start` up to (not including) `end` that exist, empty when `end` does not
   * exceed `start`.
   */
  function Slice<T>(s: seq<T>, start: nat, end: nat): (r: seq<T>)
    ensures |r| == if Min(end, |s|) <= start then 0 else Min(end, |s|) - start
    ensures forall k :: 0 <= k < |r| ==> start + k < |s| && r[k] == s[start + k]
  {
    var lo, hi := Min(start, |s|), Min(end, |s|);
    if lo <= hi then s[lo..hi] else []
  }

  /** The ids of a list of books, which is what a rendered preview list holds. */
  function Ids(books: seq<Book>): (r: seq<string>)
    ensures |r| == |books|
    ensures forall i :: 0 <= i < |books| ==> r[i] == books[i].id
  {
    seq(|books|, i requires 0 <= i < |books| => books[i].id)
  }

  lemma IdsAppend(a: seq<Book>, b: seq<Book>)
    ensures Ids(a + b) == Ids(a) + Ids(b)
  {
  }

  /** How many matches stay unrendered once pages 0 to `page` are shown; negative past the end. */
  function Remaining(count: nat, page: nat, pageSize: nat): int {
    count - (page + 1) * pageSize
  }

  /** The count the button displays: the remaining number clamped at 0. */
  function RemainingDisplay(remaining: int): nat {
    if remaining > 0 then remaining else 0
  }

  /** How many matches pages 0 to `page` cover. */
  function Shown(count: nat, page: nat, pageSize: nat): nat {
    Min(count, (page + 1) * pageSize)
  }

  /**
   * The button is disabled exactly when pages 0 to `page` cover every match,
   * and the count it displays is the number of matches not yet shown.
   */
  lemma RemainingCountsUnshown(count: nat, page: nat, pageSize: nat)
    requires pageSize > 0
    ensures Remaining(count, page, pageSize) < 1 <==> Shown(count, page, pageSize) == count
    ensures RemainingDisplay(Remaining(count, page, pageSize)) == count - Shown(count, page, pageSize)
  {
  }

  /**
   * Appending the batch of page `page` to the first `page` pages gives the
   * first `page + 1` pages: the list grows by cumulative append.
   */
  lemma NextPageExtendsWindow(matches: seq<Book>, page: nat, pageSize: nat)
    ensures page * pageSize <= (page + 1) * pageSize
    ensures Ids(matches[..Min(|matches|, page * pageSize)])
              + Ids(Slice(matches, page * pageSize, (page + 1) * pageSize))
            == Ids(matches[..Shown(|matches|, page, pageSize)])
  {
    var a, b := page * pageSize, (page + 1) * pageSize;
    assert a <= b by {
      assert b == a + pageSize;
    }
    var lo, hi := Min(|matches|, a), Min(|matches|, b);
    assert Slice(matches, a, b) == matches[lo..hi];
    assert matches[..lo] + matches[lo..hi] == matches[..hi];
    IdsAppend(matches[..lo], matches[lo..hi]);
  }

  /** A page past the end of the matches holds no books. */
  lemma PagePastEndIsEmpty(matches: seq<Book>, page: nat, pageSize: nat)
    requires Remaining(|matches|, page, pageSize) < 1
    ensures Slice(matches, (page + 1) * pageSize, (page + 2) * pageSize) == []
  {
  }

  /**
   * The fragment builder's loop: one preview, carrying the book's id, for
   * each book of `arrayOfBooks.slice(startIndex, endIndex)`.
   */
  method BookListFragment(arrayOfBooks: seq<Book>, startIndex: nat, endIndex: nat)
    returns (previews: seq<string>)
    ensures previews == Ids(Slice(arrayOfBooks, startIndex, endIndex))
  {
    var batch := Slice(arrayOfBooks, startIndex, endIndex);
    previews := [];
    for i := 0 to |batch|
      invariant previews == Ids(batch[..i])
    {
      assert batch[..i + 1] == batch[..i] + [batch[i]];
      IdsAppend(batch[..i], [batch[i]]);
      previews := previews + [batch[i].id];
    }
    assert batch[..|batch|] == batch;
  }
}
