/**
 * The search form's filter over the book catalog: a stable filter that keeps
 * a book when its title, author and genre all pass the submitted criteria.
 */
module Search {
  import opened Text

  /** The sentinel the author and genre selectors submit for "no constraint". */
  const Any := "any"

  /** A catalog record; `author` and `genres` are keys into the author and genre mappings. */
  datatype Book = Book(
    id: string,
    title: string,
    author: string,
    image: string,
    published: string,
    description: string,
    genres: seq<string>)

  /** The submitted search form: title query, author key or "any", genre key or "any". */
  datatype Criteria = Criteria(title: string, author: string, genre: string)

  /**
   * The title test. The emptiness check trims the query, but the substring
   * check uses the query as submitted, only lower-cased.
   */
  predicate TitleMatches(title: string, query: string) {
    Trim(query) == "" || Contains(Lower(title), Lower(query))
  }

  predicate AuthorMatches(book: Book, author: string) {
    author == Any || book.author == author
  }

  predicate GenreMatches(book: Book, genre: string) {
    genre == Any || genre in book.genres
  }

  /** A book passes the search when all three tests pass. */
  predicate Matches(book: Book, filters: Criteria) {
    TitleMatches(book.title, filters.title)
    && AuthorMatches(book, filters.author)
    && GenreMatches(book, filters.genre)
  }

  /** The books of `books` that pass the search, in catalog order. */
  function Selected(books: seq<Book>, filters: Criteria): (r: seq<Book>)
    ensures |r| <= |books|
    ensures forall b :: b in r ==> b in books
  {
    if books == [] then []
    else
      var last := books[|books| - 1];
      Selected(books[..|books| - 1], filters) + (if Matches(last, filters) then [last] else [])
  }

  /** The catalog positions the search keeps, in increasing order. */
  function KeptPositions(books: seq<Book>, filters: Criteria): (p: seq<nat>)
    ensures forall k :: 0 <= k < |p| ==> p[k] < |books|
    ensures forall k, l :: 0 <= k < l < |p| ==> p[k] < p[l]
  {
    if books == [] then []
    else
      var n := |books| - 1;
      KeptPositions(books[..n], filters) + (if Matches(books[n], filters) then [n] else [])
  }

  /** A position is kept exactly when the book there passes the search. */
  lemma {:induction false} KeptPositionsExact(books: seq<Book>, filters: Criteria, i: nat)
    requires i < |books|
    ensures i in KeptPositions(books, filters) <==> Matches(books[i], filters)
  {
    var n := |books| - 1;
    var p' := KeptPositions(books[..n], filters);
    var keep := Matches(books[n], filters);
    assert KeptPositions(books, filters) == p' + (if keep then [n] else []);
    if i < n {
      KeptPositionsExact(books[..n], filters, i);
      assert books[..n][i] == books[i];
      assert i in KeptPositions(books, filters) <==> i in p';
    } else {
      assert n !in p';
    }
  }

  /**
   * The result is the catalog read at the kept positions, in that order:
   * nothing is reordered, duplicated or dropped.
   */
  lemma {:induction false} SelectedIsOrderedSubsequence(books: seq<Book>, filters: Criteria)
    ensures |KeptPositions(books, filters)| == |Selected(books, filters)|
    ensures forall k :: 0 <= k < |KeptPositions(books, filters)| ==>
      Selected(books, filters)[k] == books[KeptPositions(books, filters)[k]]
  {
    if books != [] {
      var n := |books| - 1;
      var front := books[..n];
      SelectedIsOrderedSubsequence(front, filters);
      var r, p := Selected(books, filters), KeptPositions(books, filters);
      var r', p' := Selected(front, filters), KeptPositions(front, filters);
      assert r == r' + (if Matches(books[n], filters) then [books[n]] else []);
      assert p == p' + (if Matches(books[n], filters) then [n] else []);
      forall k | 0 <= k < |p|
        ensures r[k] == books[p[k]]
      {
        if k < |p'| {
          assert r[k] == r'[k] == front[p'[k]];
        }
      }
    }
  }

  /** A book is in the result exactly when it is in the catalog and passes all three tests. */
  lemma {:induction false} SelectedMembership(books: seq<Book>, filters: Criteria, b: Book)
    ensures b in Selected(books, filters) <==> b in books && Matches(b, filters)
  {
    if books != [] {
      var n := |books| - 1;
      var front, last := books[..n], books[n];
      SelectedMembership(front, filters, b);
      assert books == front + [last];
      var keep := Matches(last, filters);
      assert Selected(books, filters) == Selected(front, filters) + (if keep then [last] else []);
      assert b in books <==> b in front || b == last;
    }
  }

  /** When no catalog book passes the search, the result is empty rather than an error. */
  lemma {:induction false} SelectedEmptyWhenNothingMatches(books: seq<Book>, filters: Criteria)
    requires forall b :: b in books ==> !Matches(b, filters)
    ensures Selected(books, filters) == []
  {
    if books != [] {
      var n := |books| - 1;
      assert books[n] in books;
      assert forall b :: b in books[..n] ==> b in books;
      SelectedEmptyWhenNothingMatches(books[..n], filters);
    }
  }

  /** A blank title query does not constrain the title. */
  lemma BlankQueryMatchesEveryTitle(title: string, query: string)
    requires forall i :: 0 <= i < |query| ==> IsWhiteSpace(query[i])
    ensures TitleMatches(title, query)
  {
    TrimEmptyIffBlank(query);
  }

  /** The title test ignores the case of both the title and the query. */
  lemma TitleMatchIgnoresCase(title: string, query: string)
    ensures TitleMatches(title, query) <==> TitleMatches(Lower(title), Lower(query))
  {
    LowerKeepsBlankness(query);
    LowerIdempotent(title);
    LowerIdempotent(query);
  }

  /**
   * Because the substring test uses the untrimmed query, typing a title
   * followed by a space does not find that title, although the query is not
   * blank.
   */
  lemma UntrimmedQueryMissesTitle(title: string)
    requires Trim(title) != ""
    ensures Trim(title + " ") != ""
    ensures !TitleMatches(title, title + " ")
  {
    var query := title + " ";
    TrimEmptyIffBlank(title);
    TrimEmptyIffBlank(query);
    var i :| 0 <= i < |title| && !IsWhiteSpace(title[i]);
    assert query[i] == title[i];
    assert |Lower(query)| > |Lower(title)|;
  }

  /**
   * The inner loop of the search handler: whether the book's genres satisfy
   * the genre criterion, stopping at the first genre that matches.
   */
  method GenreMatch(book: Book, genre: string) returns (genreMatch: bool)
    ensures genreMatch <==> genre == Any || genre in book.genres
  {
    genreMatch := genre == Any;
    for j := 0 to |book.genres|
      invariant genreMatch <==> genre == Any || genre in book.genres[..j]
    {
      if genreMatch {
        break;
      }
      if book.genres[j] == genre {
        genreMatch := true;
      }
    }
    assert book.genres[..|book.genres|] == book.genres;
  }

  /** The search handler's loop: push each catalog book that passes the three tests. */
  method Filter(books: seq<Book>, filters: Criteria) returns (result: seq<Book>)
    ensures result == Selected(books, filters)
  {
    result := [];
    for i := 0 to |books|
      invariant result == Selected(books[..i], filters)
    {
      var book := books[i];
      var genreMatch := GenreMatch(book, filters.genre);
      ghost var keep := Matches(book, filters);
      if (Trim(filters.title) == "" || Contains(Lower(book.title), Lower(filters.title)))
        && (filters.author == Any || book.author == filters.author)
        && genreMatch
      {
        assert keep;
        result := result + [book];
      } else {
        assert !keep;
      }
      assert books[..i + 1][..i] == books[..i];
      assert Selected(books[..i + 1], filters) == Selected(books[..i], filters) + (if keep then [book] else []);
    }
    assert books[..|books|] == books;
  }
}
