/**
  The bookshelf screen: a fixed five-book catalog, the text of the search
  field, and the list of books on display.

  The screen opens with an empty search field and the whole catalog on
  display. Every change of the field replaces the displayed list with the
  catalog filtered by the new text; the catalog itself never changes.
 */
module BookshelfApp {
  import opened BookSearch

  /*
    Cover image resource ids. The real values are generated by the Android
    build and never inspected by the search; distinct placeholders stand in.
   */
  const GreatGatsbyCover := 0
  const MockingbirdCover := 1
  const NineteenEightyFourCover := 2
  const PrideAndPrejudiceCover := 3
  const MobyDickCover := 4

  /** The catalog literal, in display order. */
  const Catalog: seq<Book> := [
    Book("The Great Gatsby", "F. Scott Fitzgerald", GreatGatsbyCover),
    Book("To Kill a Mockingbird", "Harper Lee", MockingbirdCover),
    Book("1984", "George Orwell", NineteenEightyFourCover),
    Book("Pride and Prejudice", "Jane Austen", PrideAndPrejudiceCover),
    Book("Moby-Dick", "Herman Melville", MobyDickCover)
  ]

  /** The screen's state: the catalog, the search field's text, and the books on display. */
  datatype Screen = Screen(catalog: seq<Book>, query: string, displayed: seq<Book>)

  /** What the screen keeps true: the display is the catalog filtered by the current text. */
  ghost predicate Valid(s: Screen) {
    s.displayed == Filter(s.catalog, s.query)
  }

  /** The screen as it opens: empty field, the whole catalog on display. */
  function Init(): (s: Screen)
    ensures s.catalog == Catalog && s.query == "" && s.displayed == Catalog
    ensures Valid(s)
  {
    FilterEmptyQuery(Catalog);
    Screen(Catalog, "", Catalog)
  }

  /** A change of the search field's text to `query`. */
  function SetQuery(s: Screen, query: string): (s': Screen)
    ensures s'.catalog == s.catalog
    ensures s'.query == query
    ensures IsSubsequence(s'.displayed, s.catalog)
    ensures forall b :: b in s'.displayed <==> b in s.catalog && Matches(b, query)
    ensures SelectsExactly(s'.displayed, s.catalog, query)
    ensures Valid(s')
  {
    FilterIsSubsequence(s.catalog, query);
    FilterSelectsExactly(s.catalog, query);
    Screen(s.catalog, query, Filter(s.catalog, query))
  }

  /** The screen after the field took the texts of `queries`, in order. */
  function Replay(s: Screen, queries: seq<string>): Screen
    decreases |queries|
  {
    if queries == [] then s else Replay(SetQuery(s, queries[0]), queries[1..])
  }

  /**
    After any run of field changes the catalog is untouched, the field
    holds the latest text, and the display is the catalog filtered by it.
   */
  lemma {:induction false} ReplayKeepsValid(s: Screen, queries: seq<string>)
    requires Valid(s)
    ensures Replay(s, queries).catalog == s.catalog
    ensures Valid(Replay(s, queries))
    ensures queries != [] ==> Replay(s, queries).query == queries[|queries| - 1]
    decreases |queries|
  {
    if queries != [] {
      var next := SetQuery(s, queries[0]);
      ReplayKeepsValid(next, queries[1..]);
    }
  }

  /** From the opening screen, the display always follows the latest text. */
  lemma SessionDisplaysLatestQuery(queries: seq<string>)
    ensures Replay(Init(), queries).catalog == Catalog
    ensures Replay(Init(), queries).displayed
         == Filter(Catalog, if queries == [] then "" else queries[|queries| - 1])
  {
    ReplayKeepsValid(Init(), queries);
  }

  /** The catalog entry `b` if it passes the filter for `query`, else nothing. */
  function Keep(b: Book, query: string): (r: seq<Book>)
    ensures r == Filter([b], query)
  {
    if Matches(b, query) then [b] else []
  }

  /** The filter over the catalog decides each of the five entries on its own. */
  lemma FilterCatalog(query: string)
    ensures Filter(Catalog, query)
         == Keep(Catalog[0], query) + Keep(Catalog[1], query) + Keep(Catalog[2], query)
          + Keep(Catalog[3], query) + Keep(Catalog[4], query)
  {
    var c := Catalog;
    assert c == [c[0]] + [c[1]] + [c[2]] + [c[3]] + [c[4]];
    FilterAppend([c[0]] + [c[1]] + [c[2]] + [c[3]], [c[4]], query);
    FilterAppend([c[0]] + [c[1]] + [c[2]], [c[3]], query);
    FilterAppend([c[0]] + [c[1]], [c[2]], query);
    FilterAppend([c[0]], [c[1]], query);
  }

  /** With the field empty the whole catalog is shown, as on opening. */
  lemma EmptyQueryShowsCatalog()
    ensures Filter(Catalog, "") == Catalog
    ensures SetQuery(Init(), "").displayed == Init().displayed
  {
    FilterEmptyQuery(Catalog);
  }
}
