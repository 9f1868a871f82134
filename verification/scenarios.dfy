/**
 * Clients of the browsing state over a catalog of 25 books shown 10 at a
 * time. Every assertion follows from the contracts of App alone.
 */
module Scenarios {
  import opened Search
  import opened BookConnect

  function Catalog(): seq<Book> {
    seq(25, i => Book("b", "Title", "a1", "img", "2000-01-01", "text", ["g1"]))
  }

  /** Start-up shows 10 of 25; two clicks reach the end; a third adds nothing. */
  method PageThrough()
  {
    var app := new App(Catalog(), map["a1" := "Author"], 10);
    assert |app.rendered| == 10 && !app.showMoreDisabled && app.remainingShown == 15;

    app.ShowMore();
    assert |app.rendered| == 20 && !app.showMoreDisabled && app.remainingShown == 5;

    app.ShowMore();
    assert |app.rendered| == 25 && app.showMoreDisabled && app.remainingShown == 0;

    app.ShowMore();
    assert |app.rendered| == 25 && app.showMoreDisabled;
  }

  /** A search for a genre no book has empties the list and shows the message. */
  method SearchMissingGenre()
  {
    var app := new App(Catalog(), map["a1" := "Author"], 10);
    app.Search(Criteria("", Any, "g7"));
    assert forall b :: b in Catalog() ==> !GenreMatches(b, "g7");
    assert forall b :: b in Catalog() ==> !Matches(b, Criteria("", Any, "g7"));
    SelectedEmptyWhenNothingMatches(Catalog(), Criteria("", Any, "g7"));
    assert app.emptyMessageShown && app.showMoreDisabled && app.remainingShown == 0;
    assert app.rendered == [];
  }
}
