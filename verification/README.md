# Bookshelf search, modelled in Dafny

The Bookshelf app shows one screen. It has a fixed catalog of five books, a
search field, and the list of books on display. The screen opens with an
empty field and the whole catalog on display. Every change of the field
replaces the display with the catalog filtered by the new text. A book passes
the filter when the text occurs in its title or in its author, ignoring
letter case. The catalog itself never changes.

The project models the following:

- the `Book` record;
- Kotlin's `String.contains(other, ignoreCase = true)`, the way the standard
  library computes it;
- the filter;
- the screen state, from opening through any run of edits to the field.

Kotlin's `contains` is computed by a linear `indexOf`. It tries every start
index from 0 up to and including the text's length. At each index,
`regionMatches` fails at once when the query would run past the end of the
text. Otherwise it compares characters pairwise by the same rule as
`Char.equals(ignoreCase = true)` (on the JVM, `java.lang.String.regionMatches(true, ...)`).

Modules:

- `CaseFold` (`case_fold.dfy`): case mapping and the case-insensitive character comparison.
- `TextSearch` (`text_search.dfy`): `regionMatches`, `indexOf` and `contains`, and
  their meaning in terms of the lower-cased strings.
- `BookSearch` (`book_search.dfy`): `Book`, the match predicate, the filter and
  its properties.
- `BookshelfApp` (`bookshelf_app.dfy`): the catalog literal, the screen state,
  the opening screen, a field change and a run of field changes.
- `CatalogQueries` (`catalog_queries.dfy`): the result of the filter over the
  catalog for the example queries "orwell", "xyz123", "the" and "a". Each
  example is proved for every query with that lower-case form, so one lemma
  covers "orwell", "Orwell" and "ORWELL".

For the query "a", the code keeps every book except "1984" by George Orwell.
"Moby-Dick" is kept because "Herman Melville" contains an 'a'.

## Model

All source paths are relative to the repository root.

| member | source | states |
|---|---|---|
| CaseFold.EqualsIgnoreCase | app/src/main/java/com/example/bookshelf/MainActivity.kt:67-68 | Kotlin's ignore-case character comparison (equal, or equal upper-case forms, or equal lower-case forms of those) holds exactly when both characters have the same lower-case form |
| TextSearch.CharsMatchFromMeaning | app/src/main/java/com/example/bookshelf/MainActivity.kt:67-68 | the character loop of `regionMatches` accepts exactly when every remaining pair of characters is equal ignoring case |
| TextSearch.RegionMatchesIffFoldedOccurrence | app/src/main/java/com/example/bookshelf/MainActivity.kt:67-68 | `regionMatches` at an offset holds exactly when the lower-cased query occurs in the lower-cased text at that offset; out-of-range offsets never match |
| TextSearch.IndexOfFromMeaning | app/src/main/java/com/example/bookshelf/MainActivity.kt:67-68 | the `indexOf` search from `start` returns -1 exactly when the lower-cased query occurs nowhere from `start` on; otherwise it returns an occurrence with none before it |
| TextSearch.ContainsIffFoldedSubstring | app/src/main/java/com/example/bookshelf/MainActivity.kt:67-68 | `contains(ignoreCase = true)` holds exactly when the lower-cased query is a substring of the lower-cased text |
| TextSearch.ContainsEmptyQuery | app/src/main/java/com/example/bookshelf/MainActivity.kt:67-68 | every text contains the empty query, found at index 0 |
| TextSearch.ContainsCaseInsensitive | app/src/main/java/com/example/bookshelf/MainActivity.kt:67-68 | two queries with the same lower-case form are found in exactly the same texts |
| TextSearch.NotContainsMissingChar | app/src/main/java/com/example/bookshelf/MainActivity.kt:67-68 | a text with neither case form of one of the query's letters does not contain the query |
| TextSearch.ContainsAtOccurrence | app/src/main/java/com/example/bookshelf/MainActivity.kt:67-68 | a text in which the lower-cased query occurs at some index contains the query |
| BookSearch.Filter | app/src/main/java/com/example/bookshelf/MainActivity.kt:66-69 | the filtered list is no longer than the input, and holds a book exactly when the input holds it and its title or author contains the query ignoring case |
| BookSearch.FilterPositions | app/src/main/java/com/example/bookshelf/MainActivity.kt:66-69 | the filtered list is the input's elements at an increasing run of positions, and those positions are exactly the ones whose book matches |
| BookSearch.FilterIsSubsequence | app/src/main/java/com/example/bookshelf/MainActivity.kt:66-69 | the filtered list is an order-preserving subsequence of the input |
| BookSearch.FilterSelectsExactly | app/src/main/java/com/example/bookshelf/MainActivity.kt:66-69 | the filtered list is exactly the input's matching entries, in input order and with duplicates kept |
| BookSearch.FilterMembership | app/src/main/java/com/example/bookshelf/MainActivity.kt:66-69 | a book is in the filtered list exactly when it is in the input and the lower-cased query is a substring of its lower-cased title or lower-cased author |
| BookSearch.FilterAppend | app/src/main/java/com/example/bookshelf/MainActivity.kt:66-69 | filtering a concatenation is the concatenation of the filtered parts |
| BookSearch.FilterKeepsAllMatching | app/src/main/java/com/example/bookshelf/MainActivity.kt:66-69 | a list whose every book matches comes through the filter unchanged |
| BookSearch.FilterEmptyQuery | app/src/main/java/com/example/bookshelf/MainActivity.kt:66-69 | the empty query returns the input unchanged |
| BookSearch.FilterIdempotent | app/src/main/java/com/example/bookshelf/MainActivity.kt:66-69 | filtering the filtered list again with the same query changes nothing |
| BookSearch.FilterCaseInsensitive | app/src/main/java/com/example/bookshelf/MainActivity.kt:66-69 | queries that differ only in letter case select the same list |
| BookSearch.FilterLoop | app/src/main/java/com/example/bookshelf/MainActivity.kt:66-69 | a loop that appends each matching book to a fresh list, in input order, computes the filter |
| BookshelfApp.Init | app/src/main/java/com/example/bookshelf/MainActivity.kt:82-89 | the screen opens with the five-book catalog, an empty field and the whole catalog on display, and the display is the catalog filtered by the empty field |
| BookshelfApp.SetQuery | app/src/main/java/com/example/bookshelf/MainActivity.kt:64-70 | a field change keeps the catalog, stores the new text, and displays the catalog's entries at exactly the positions whose book matches the text, in catalog order and with duplicates kept, which is the catalog filtered by the text |
| BookshelfApp.ReplayKeepsValid | app/src/main/java/com/example/bookshelf/MainActivity.kt:89-94 | after any run of field changes the catalog is unchanged, the field holds the latest text, and the display is the catalog filtered by it |
| BookshelfApp.SessionDisplaysLatestQuery | app/src/main/java/com/example/bookshelf/MainActivity.kt:82-94 | from the opening screen, after any run of field changes, the catalog is the five-book literal and the display is that catalog filtered by the latest text (by "" when there was none) |
| BookshelfApp.FilterCatalog | app/src/main/java/com/example/bookshelf/MainActivity.kt:82-88 | the filter over the catalog decides each of the five books on its own and keeps the survivors in catalog order |
| BookshelfApp.EmptyQueryShowsCatalog | app/src/main/java/com/example/bookshelf/MainActivity.kt:89 | clearing the field shows the whole catalog, the same display as on opening |
| CatalogQueries.OrwellQuery | app/src/main/java/com/example/bookshelf/MainActivity.kt:82-88 | any query whose lower-case form is "orwell" shows only "1984" |
| CatalogQueries.NoMatchQuery | app/src/main/java/com/example/bookshelf/MainActivity.kt:82-88 | any query whose lower-case form is "xyz123" shows no book |
| CatalogQueries.TheQuery | app/src/main/java/com/example/bookshelf/MainActivity.kt:82-88 | any query whose lower-case form is "the" shows only "The Great Gatsby" |
| CatalogQueries.LetterAQuery | app/src/main/java/com/example/bookshelf/MainActivity.kt:82-88 | any query whose lower-case form is "a" shows every book except "1984", in catalog order |

## Left out

- Rendering is left out because it only draws the list and never changes it. This covers `BookItem`, `BookList`, the layout and the text styles (MainActivity.kt:22-55, 91, 95-97).
- `MainActivity`, the theme and the preview are left out because they are Android lifecycle and tooling code (MainActivity.kt:100 on).
- Compose state is left out: `remember`, `mutableStateOf`, recomposition and the `onSearchResults` callback. The model uses one immutable `Screen` value in their place. Its query is the field's text and its display is `displayedBooks`. The callback passes the filtered list straight to the display, so the model assigns it directly.
- `TextFieldValue` is reduced to its text. The search reads only `query.text`, so the selection and composition parts are dropped.
- The cover image resource ids are generated by the Android build and are not known here. They stand in as the distinct placeholders 0 to 4, and the search never reads them.
- CaseFold.EqualsIgnoreCase: the case mapping covers the ASCII letters only. The JVM's Unicode case tables are not modelled, so results for letters outside ASCII may differ from the app's.
- The catalog list is rebuilt on every recomposition, always with the same five books. The model treats it as one constant.
- Strings are sequences of Unicode scalar values, not of UTF-16 code units as a Kotlin `String` is. A text or query holding a lone surrogate cannot be written, and indices differ for characters outside the Basic Multilingual Plane. For well-formed text the answer of `contains` is the same, because occurrences line up on character boundaries and the search only asks whether an index was found.
