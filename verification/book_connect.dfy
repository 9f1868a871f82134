/**
 * The browsing state the page's event handlers share: the current page, the
 * current matches, and what the book list, the "Show more" button, the
 * empty-results message and the detail dialog display.
 */
module BookConnect {
  import opened Wrappers
  import opened Search
  import opened Selection
  import opened Paging

  /** The fields the detail dialog shows for a book; the subtitle's year is not modelled. */
  datatype Detail = Detail(image: string, title: string, authorName: string, description: string)

  /** The author's display name as a template literal renders it: "undefined" for an unknown key. */
  function AuthorName(authors: map<string, string>, key: string): string {
    if key in authors then authors[key] else "undefined"
  }

  function DetailOf(authors: map<string, string>, book: Book): Detail {
    Detail(book.image, book.title, AuthorName(authors, book.author), book.description)
  }

  class App {
    /** The catalog, the author names and the page size, fixed for the session. */
    const books: seq<Book>
    const authors: map<string, string>
    const booksPerPage: nat

    /** `globalPage`: how many "Show more" clicks since the matches were last replaced. */
    var page: nat
    /** `globalMatches`: the result of the last search, or the whole catalog. */
    var matches: seq<Book>
    /** The ids of the previews in the book list, in display order. */
    var rendered: seq<string>
    var showMoreDisabled: bool
    /** The count shown in the "Show more" button. */
    var remainingShown: nat
    var emptyMessageShown: bool
    /** What the detail dialog was last opened with, if anything. */
    var detail: Option<Detail>

    /**
     * Between events: the list shows the first `page + 1` pages of the
     * matches, and the button reflects how many matches lie beyond them.
     */
    ghost predicate Valid()
      reads this
    {
      && booksPerPage > 0
      && (forall b :: b in matches ==> b in books)
      && rendered == Ids(matches[..Shown(|matches|, page, booksPerPage)])
      && showMoreDisabled == (Remaining(|matches|, page, booksPerPage) < 1)
      && remainingShown == RemainingDisplay(Remaining(|matches|, page, booksPerPage))
    }

    /**
     * What a render step needs: on page 0 nothing, on a later page the list
     * already showing the pages before it.
     */
    ghost predicate ReadyToLoad()
      reads this
    {
      && booksPerPage > 0
      && (forall b :: b in matches ==> b in books)
      && (page > 0 ==> rendered == Ids(matches[..Min(|matches|, page * booksPerPage)]))
    }

    /** Start-up: the whole catalog as matches, page 0, and the first page rendered. */
    constructor (books: seq<Book>, authors: map<string, string>, booksPerPage: nat)
      requires booksPerPage > 0
      ensures Valid()
      ensures this.books == books && this.authors == authors && this.booksPerPage == booksPerPage
      ensures page == 0 && matches == books
      ensures rendered == Ids(books[..Min(|books|, booksPerPage)])
      ensures !emptyMessageShown && detail == None
    {
      this.books := books;
      this.authors := authors;
      this.booksPerPage := booksPerPage;
      page := 0;
      matches := books;
      rendered := [];
      showMoreDisabled := false;
      remainingShown := 0;
      emptyMessageShown := false;
      detail := None;
      new;
      LoadNextPage();
    }

    /**
     * Render step: clear the list on page 0, append the current page's batch,
     * then update the button from the unclamped remaining count.
     */
    method LoadNextPage()
      requires ReadyToLoad()
      modifies this`rendered, this`showMoreDisabled, this`remainingShown
      ensures Valid()
      ensures rendered == (if page == 0 then [] else old(rendered))
        + Ids(Slice(matches, page * booksPerPage, (page + 1) * booksPerPage))
    {
      ghost var before := Ids(matches[..Min(|matches|, page * booksPerPage)]);
      if page == 0 {
        rendered := [];
        assert before == [];
      }
      assert rendered == before;
      var batch := BookListFragment(matches, page * booksPerPage, (page + 1) * booksPerPage);
      NextPageExtendsWindow(matches, page, booksPerPage);
      rendered := rendered + batch;
      var remainingBooks := Remaining(|matches|, page, booksPerPage);
      showMoreDisabled := remainingBooks < 1;
      remainingShown := if remainingBooks > 0 then remainingBooks else 0;
      RemainingCountsUnshown(|matches|, page, booksPerPage);
    }

    /**
     * Search submit: filter the whole catalog, then reset the browsing state
     * to the result.
     */
    method Search(filters: Criteria)
      requires Valid()
      modifies this
      ensures Valid()
      ensures page == 0 && matches == Selected(books, filters)
      ensures emptyMessageShown <==> |matches| == 0
      ensures rendered == Ids(matches[..Min(|matches|, booksPerPage)])
      ensures detail == old(detail)
    {
      var result := Filter(books, filters);
      ResetWith(result);
    }

    /**
     * The rest of the search handler: go back to page 0 with the new matches,
     * whatever the old state, show the empty-results message exactly when
     * there are none, and render the first page.
     */
    method ResetWith(result: seq<Book>)
      requires Valid()
      requires forall b :: b in result ==> b in books
      modifies this
      ensures Valid()
      ensures page == 0 && matches == result
      ensures emptyMessageShown <==> |matches| == 0
      ensures rendered == Ids(matches[..Min(|matches|, booksPerPage)])
      ensures detail == old(detail)
    {
      page := 0;
      matches := result;
      emptyMessageShown := |result| < 1;
      LoadNextPage();
      assert Shown(|matches|, 0, booksPerPage) == Min(|matches|, booksPerPage);
    }

    /**
     * "Show more": advance the page and render its batch. Nothing guards the
     * increment; once the button is disabled the batch is empty.
     */
    method ShowMore()
      requires Valid()
      modifies this
      ensures Valid()
      ensures page == old(page) + 1 && matches == old(matches)
      ensures rendered == old(rendered) + Ids(Slice(matches, page * booksPerPage, (page + 1) * booksPerPage))
      ensures old(showMoreDisabled) ==> rendered == old(rendered) && showMoreDisabled && remainingShown == 0
      ensures emptyMessageShown == old(emptyMessageShown) && detail == old(detail)
    {
      if showMoreDisabled {
        PagePastEndIsEmpty(matches, page, booksPerPage);
      }
      page := page + 1;
      LoadNextPage();
    }

    /**
     * Item click: a preview id that is empty selects nothing; otherwise the id
     * is looked up in the whole catalog and, when found, the detail dialog is
     * filled with that book. Browsing state is untouched.
     */
    method SelectItem(preview: string)
      requires Valid()
      modifies this`detail
      ensures Valid()
      ensures preview == "" ==> detail == old(detail)
      ensures preview != "" ==> detail == match Lookup(books, preview)
        case Some(book) => Some(DetailOf(authors, book))
        case None => old(detail)
      ensures preview in rendered && preview != "" ==> detail.Some?
    {
      if preview != "" {
        var active := FindById(books, preview);
        if active.Some? {
          detail := Some(DetailOf(authors, active.value));
        }
      }
      if preview in rendered {
        RenderedIdsResolve(preview);
      }
    }

    /**
     * Between events the button is disabled exactly when every match is in
     * the list, and its count is the number of matches not yet listed.
     */
    lemma ButtonReflectsList()
      requires Valid()
      ensures showMoreDisabled <==> |rendered| == |matches|
      ensures remainingShown == |matches| - |rendered|
    {
      RemainingCountsUnshown(|matches|, page, booksPerPage);
    }

    /** Every id in the list belongs to some catalog book, so clicking it finds one. */
    lemma RenderedIdsResolve(id: string)
      requires Valid() && id in rendered
      ensures Lookup(books, id).Some?
    {
      var shown := matches[..Shown(|matches|, page, booksPerPage)];
      var k :| 0 <= k < |rendered| && rendered[k] == id;
      assert shown[k] in matches;
    }
  }
}
