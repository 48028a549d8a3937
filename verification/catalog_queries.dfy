/**
  What the bookshelf screen shows for particular search texts over its
  five-book catalog.

  Each scenario holds for every text with the given lower-case form, so
  "orwell", "Orwell" and "ORWELL" are covered by one lemma. A book is ruled
  out by a letter of the query that its title and its author lack in both
  cases; the letters each book lacks are checked once per book.
 */
module CatalogQueries {
  import opened CaseFold
  import opened TextSearch
  import opened BookSearch
  import opened BookshelfApp

  lemma GreatGatsbyLacks()
    ensures Avoids("The Great Gatsby", "wWxX") && Avoids("F. Scott Fitzgerald", "wWxX")
  {
  }

  lemma MockingbirdLacks()
    ensures Avoids("To Kill a Mockingbird", "wWxXhH") && Avoids("Harper Lee", "wWxXtT")
  {
  }

  lemma NineteenEightyFourLacks()
    ensures Avoids("1984", "xXtT") && Avoids("George Orwell", "xXtT")
  {
  }

  lemma PrideAndPrejudiceLacks()
    ensures Avoids("Pride and Prejudice", "wWxXtT") && Avoids("Jane Austen", "wWxXhH")
  {
  }

  lemma MobyDickLacks()
    ensures Avoids("Moby-Dick", "wWxXtT") && Avoids("Herman Melville", "wWxXtT")
  {
  }

  /** Only "George Orwell" among the titles and authors holds a 'w'. */
  lemma OrwellMissesOthers(query: string)
    requires Fold(query) == "orwell"
    ensures !Matches(Catalog[0], query) && !Matches(Catalog[1], query)
    ensures !Matches(Catalog[3], query) && !Matches(Catalog[4], query)
  {
    GreatGatsbyLacks();
    MockingbirdLacks();
    PrideAndPrejudiceLacks();
    MobyDickLacks();
    NotContainsMissingChar(Catalog[0].title, query, 2, "wWxX");
    NotContainsMissingChar(Catalog[0].author, query, 2, "wWxX");
    NotContainsMissingChar(Catalog[1].title, query, 2, "wWxXhH");
    NotContainsMissingChar(Catalog[1].author, query, 2, "wWxXtT");
    NotContainsMissingChar(Catalog[3].title, query, 2, "wWxXtT");
    NotContainsMissingChar(Catalog[3].author, query, 2, "wWxXhH");
    NotContainsMissingChar(Catalog[4].title, query, 2, "wWxXtT");
    NotContainsMissingChar(Catalog[4].author, query, 2, "wWxXtT");
  }

  /** Any spelling of "orwell" finds "1984" through its author. */
  lemma OrwellFindsOrwell(query: string)
    requires Fold(query) == "orwell"
    ensures Matches(Catalog[2], query)
  {
    assert Fold("George Orwell")[7..13] == "orwell";
    ContainsAtOccurrence(Catalog[2].author, query, 7);
  }

  /** Any spelling of "orwell" shows only "1984". */
  lemma OrwellQuery(query: string)
    requires Fold(query) == "orwell"
    ensures Filter(Catalog, query) == [Catalog[2]]
  {
    FilterCatalog(query);
    OrwellMissesOthers(query);
    OrwellFindsOrwell(query);
  }

  /** "1984", "The Great Gatsby" and "To Kill a Mockingbird" hold no 'x' in either case. */
  lemma FirstBooksLackX(query: string)
    requires Fold(query) == "xyz123"
    ensures !Matches(Catalog[0], query) && !Matches(Catalog[1], query) && !Matches(Catalog[2], query)
  {
    GreatGatsbyLacks();
    MockingbirdLacks();
    NineteenEightyFourLacks();
    NotContainsMissingChar(Catalog[0].title, query, 0, "wWxX");
    NotContainsMissingChar(Catalog[0].author, query, 0, "wWxX");
    NotContainsMissingChar(Catalog[1].title, query, 0, "wWxXhH");
    NotContainsMissingChar(Catalog[1].author, query, 0, "wWxXtT");
    NotContainsMissingChar(Catalog[2].title, query, 0, "xXtT");
    NotContainsMissingChar(Catalog[2].author, query, 0, "xXtT");
  }

  /** "Pride and Prejudice" and "Moby-Dick" hold no 'x' in either case. */
  lemma LastBooksLackX(query: string)
    requires Fold(query) == "xyz123"
    ensures !Matches(Catalog[3], query) && !Matches(Catalog[4], query)
  {
    PrideAndPrejudiceLacks();
    MobyDickLacks();
    NotContainsMissingChar(Catalog[3].title, query, 0, "wWxXtT");
    NotContainsMissingChar(Catalog[3].author, query, 0, "wWxXhH");
    NotContainsMissingChar(Catalog[4].title, query, 0, "wWxXtT");
    NotContainsMissingChar(Catalog[4].author, query, 0, "wWxXtT");
  }

  /** Any spelling of "xyz123" shows nothing. */
  lemma NoMatchQuery(query: string)
    requires Fold(query) == "xyz123"
    ensures Filter(Catalog, query) == []
  {
    FilterCatalog(query);
    FirstBooksLackX(query);
    LastBooksLackX(query);
  }

  /** Apart from the capitalised "The Great Gatsby", every title or author lacks a 't' or an 'h'. */
  lemma TheMissesOthers(query: string)
    requires Fold(query) == "the"
    ensures !Matches(Catalog[1], query) && !Matches(Catalog[2], query)
    ensures !Matches(Catalog[3], query) && !Matches(Catalog[4], query)
  {
    MockingbirdLacks();
    NineteenEightyFourLacks();
    PrideAndPrejudiceLacks();
    MobyDickLacks();
    NotContainsMissingChar(Catalog[1].title, query, 1, "wWxXhH");
    NotContainsMissingChar(Catalog[1].author, query, 0, "wWxXtT");
    NotContainsMissingChar(Catalog[2].title, query, 0, "xXtT");
    NotContainsMissingChar(Catalog[2].author, query, 0, "xXtT");
    NotContainsMissingChar(Catalog[3].title, query, 0, "wWxXtT");
    NotContainsMissingChar(Catalog[3].author, query, 1, "wWxXhH");
    NotContainsMissingChar(Catalog[4].title, query, 0, "wWxXtT");
    NotContainsMissingChar(Catalog[4].author, query, 0, "wWxXtT");
  }

  /** Any spelling of "the" matches the start of the title "The Great Gatsby". */
  lemma TheFindsGatsby(query: string)
    requires Fold(query) == "the"
    ensures Matches(Catalog[0], query)
  {
    assert Fold("The Great Gatsby")[0..3] == "the";
    ContainsAtOccurrence(Catalog[0].title, query, 0);
  }

  /** Any spelling of "the" shows only "The Great Gatsby", matched at the start of its title. */
  lemma TheQuery(query: string)
    requires Fold(query) == "the"
    ensures Filter(Catalog, query) == [Catalog[0]]
  {
    FilterCatalog(query);
    TheMissesOthers(query);
    TheFindsGatsby(query);
  }

  /** "The Great Gatsby" and "To Kill a Mockingbird" hold an 'a' in their titles. */
  lemma LetterAFindsFirstTitles(query: string)
    requires Fold(query) == "a"
    ensures Matches(Catalog[0], query) && Matches(Catalog[1], query)
  {
    assert Fold("The Great Gatsby")[7..8] == "a";
    ContainsAtOccurrence(Catalog[0].title, query, 7);
    assert Fold("To Kill a Mockingbird")[8..9] == "a";
    ContainsAtOccurrence(Catalog[1].title, query, 8);
  }

  /** "Pride and Prejudice" holds an 'a' in its title, "Moby-Dick" in "Herman Melville". */
  lemma LetterAFindsLastBooks(query: string)
    requires Fold(query) == "a"
    ensures Matches(Catalog[3], query) && Matches(Catalog[4], query)
  {
    assert Fold("Pride and Prejudice")[6..7] == "a";
    ContainsAtOccurrence(Catalog[3].title, query, 6);
    assert Fold("Herman Melville")[4..5] == "a";
    ContainsAtOccurrence(Catalog[4].author, query, 4);
  }

  /** Neither "1984" nor "George Orwell" holds an 'a' in either case. */
  lemma LetterAMisses(query: string)
    requires Fold(query) == "a"
    ensures !Matches(Catalog[2], query)
  {
    assert Avoids("1984", "aA") && Avoids("George Orwell", "aA");
    NotContainsMissingChar(Catalog[2].title, query, 0, "aA");
    NotContainsMissingChar(Catalog[2].author, query, 0, "aA");
  }

  lemma JoinFour<T>(a: T, b: T, d: T, e: T)
    ensures [a] + [b] + [] + [d] + [e] == [a, b, d, e]
  {
  }

  /** Any spelling of "a" shows every book except "1984", in catalog order. */
  lemma LetterAQuery(query: string)
    requires Fold(query) == "a"
    ensures Filter(Catalog, query) == [Catalog[0], Catalog[1], Catalog[3], Catalog[4]]
  {
    FilterCatalog(query);
    LetterAFindsFirstTitles(query);
    LetterAFindsLastBooks(query);
    LetterAMisses(query);
    JoinFour(Catalog[0], Catalog[1], Catalog[3], Catalog[4]);
  }
}
