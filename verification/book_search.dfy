/**
  The book record and the search filter of the bookshelf screen.

  On every change of the search field the screen keeps, in catalog order,
  exactly the books whose title or whose author contains the query text,
  ignoring case.
 */
module BookSearch {
  import opened CaseFold
  import opened TextSearch

  /** A book; the cover is an image resource id that the search never inspects. */
  datatype Book = Book(title: string, author: string, coverImageResId: int)

  /** The filter's predicate: the query occurs in the title or in the author, ignoring case. */
  predicate Matches(book: Book, query: string) {
    Contains(book.title, query) || Contains(book.author, query)
  }

  /** `books.filter { Matches(it, query) }`. */
  function Filter(books: seq<Book>, query: string): (r: seq<Book>)
    ensures |r| <= |books|
    ensures forall b :: b in r <==> b in books && Matches(b, query)
  {
    if books == [] then []
    else if Matches(books[0], query) then [books[0]] + Filter(books[1..], query)
    else Filter(books[1..], query)
  }

  /**
    `idx` lists, in increasing order, the positions of `ys` whose elements
    make up `xs`: `xs` is `ys` with some elements dropped and the rest kept
    in their relative order.
   */
  ghost predicate Embeds<T>(xs: seq<T>, ys: seq<T>, idx: seq<int>) {
    && |idx| == |xs|
    && (forall k :: 0 <= k < |idx| ==> 0 <= idx[k] < |ys| && xs[k] == ys[idx[k]])
    && (forall j, k :: 0 <= j < k < |idx| ==> idx[j] < idx[k])
  }

  ghost predicate IsSubsequence<T>(xs: seq<T>, ys: seq<T>) {
    exists idx :: Embeds(xs, ys, idx)
  }

  /**
    `xs` is `ys` cut down to exactly the entries that match `query`: the
    entries of `ys` at an increasing run of positions, and those positions
    are precisely the matching ones.
   */
  ghost predicate SelectsExactly(xs: seq<Book>, ys: seq<Book>, query: string) {
    exists idx :: Embeds(xs, ys, idx) && forall i :: 0 <= i < |ys| ==> (i in idx <==> Matches(ys[i], query))
  }

  /** Every position moved one place to the right. */
  function Shift(idx: seq<int>): seq<int> {
    seq(|idx|, k requires 0 <= k < |idx| => idx[k] + 1)
  }

  lemma ShiftMembers(idx: seq<int>, i: int)
    ensures i in Shift(idx) <==> i - 1 in idx
  {
    if i - 1 in idx {
      var k :| 0 <= k < |idx| && idx[k] == i - 1;
      assert Shift(idx)[k] == i;
    }
  }

  /** Dropping the new head `y` keeps an embedding, with the positions shifted. */
  lemma EmbedsSkipHead<T>(xs: seq<T>, y: T, ys: seq<T>, idx: seq<int>)
    requires Embeds(xs, ys, idx)
    ensures Embeds(xs, [y] + ys, Shift(idx))
  {
    forall k | 0 <= k < |idx|
      ensures xs[k] == ([y] + ys)[Shift(idx)[k]]
    {
    }
  }

  /** Keeping the new head `y` at position 0 extends an embedding. */
  lemma EmbedsKeepHead<T>(xs: seq<T>, y: T, ys: seq<T>, idx: seq<int>)
    requires Embeds(xs, ys, idx)
    ensures Embeds([y] + xs, [y] + ys, [0] + Shift(idx))
  {
    EmbedsSkipHead(xs, y, ys, idx);
    var r := [0] + Shift(idx);
    forall k | 0 < k < |r|
      ensures ([y] + xs)[k] == ([y] + ys)[r[k]]
    {
      assert r[k] == Shift(idx)[k - 1];
    }
  }

  /**
    The filter keeps exactly the matching positions of the input, in
    increasing order: `idx` holds the kept positions, every kept position
    matches, and every matching position is kept.
   */
  lemma {:induction false} FilterPositions(books: seq<Book>, query: string) returns (idx: seq<int>)
    ensures Embeds(Filter(books, query), books, idx)
    ensures forall i :: 0 <= i < |books| ==> (i in idx <==> Matches(books[i], query))
    decreases |books|
  {
    if books == [] {
      idx := [];
    } else {
      var rest := FilterPositions(books[1..], query);
      assert books == [books[0]] + books[1..];
      if Matches(books[0], query) {
        EmbedsKeepHead(Filter(books[1..], query), books[0], books[1..], rest);
        idx := [0] + Shift(rest);
      } else {
        EmbedsSkipHead(Filter(books[1..], query), books[0], books[1..], rest);
        idx := Shift(rest);
      }
      forall i | 0 <= i < |books|
        ensures i in idx <==> Matches(books[i], query)
      {
        ShiftMembers(rest, i);
        if i > 0 {
          assert books[i] == books[1..][i - 1];
        }
      }
    }
  }

  /** The result is an order-preserving subsequence of the input. */
  lemma FilterIsSubsequence(books: seq<Book>, query: string)
    ensures IsSubsequence(Filter(books, query), books)
  {
    var idx := FilterPositions(books, query);
  }

  /** The filter keeps exactly the matching entries, in order, duplicates included. */
  lemma FilterSelectsExactly(books: seq<Book>, query: string)
    ensures SelectsExactly(Filter(books, query), books, query)
  {
    var idx := FilterPositions(books, query);
  }

  /**
    A book of the input is kept exactly when the lower-cased query is a
    substring of its lower-cased title or of its lower-cased author.
   */
  lemma FilterMembership(books: seq<Book>, query: string, b: Book)
    ensures b in Filter(books, query) <==>
      b in books && (IsSubstring(Fold(query), Fold(b.title)) || IsSubstring(Fold(query), Fold(b.author)))
  {
    ContainsIffFoldedSubstring(b.title, query);
    ContainsIffFoldedSubstring(b.author, query);
  }

  /** Filtering a concatenation filters each part. */
  lemma {:induction false} FilterAppend(xs: seq<Book>, ys: seq<Book>, query: string)
    ensures Filter(xs + ys, query) == Filter(xs, query) + Filter(ys, query)
    decreases |xs|
  {
    if xs == [] {
      assert xs + ys == ys;
    } else {
      assert (xs + ys)[1..] == xs[1..] + ys;
      FilterAppend(xs[1..], ys, query);
    }
  }

  /** A list whose every book matches passes the filter unchanged. */
  lemma {:induction false} FilterKeepsAllMatching(books: seq<Book>, query: string)
    requires forall b :: b in books ==> Matches(b, query)
    ensures Filter(books, query) == books
    decreases |books|
  {
    if books != [] {
      assert books[0] in books;
      assert forall b :: b in books[1..] ==> b in books;
      FilterKeepsAllMatching(books[1..], query);
    }
  }

  /** An empty query keeps every book, in order. */
  lemma {:induction false} FilterEmptyQuery(books: seq<Book>)
    ensures Filter(books, "") == books
  {
    forall b | b in books
      ensures Matches(b, "")
    {
      ContainsEmptyQuery(b.title);
    }
    FilterKeepsAllMatching(books, "");
  }

  /** Filtering the filtered list again with the same query changes nothing. */
  lemma {:induction false} FilterIdempotent(books: seq<Book>, query: string)
    ensures Filter(Filter(books, query), query) == Filter(books, query)
  {
    FilterKeepsAllMatching(Filter(books, query), query);
  }

  /** Queries that differ only in letter case select the same books. */
  lemma {:induction false} FilterCaseInsensitive(books: seq<Book>, q1: string, q2: string)
    requires Fold(q1) == Fold(q2)
    ensures Filter(books, q1) == Filter(books, q2)
    decreases |books|
  {
    if books != [] {
      ContainsCaseInsensitive(books[0].title, q1, q2);
      ContainsCaseInsensitive(books[0].author, q1, q2);
      FilterCaseInsensitive(books[1..], q1, q2);
    }
  }

  /**
    The filter as a loop over the list that appends each matching book to a
    fresh result, the way the list's `filter` builds it.
   */
  method FilterLoop(books: seq<Book>, query: string) returns (result: seq<Book>)
    ensures result == Filter(books, query)
  {
    result := [];
    var i := 0;
    while i < |books|
      invariant 0 <= i <= |books|
      invariant result == Filter(books[..i], query)
    {
      FilterAppend(books[..i], [books[i]], query);
      assert books[..i + 1] == books[..i] + [books[i]];
      if Matches(books[i], query) {
        result := result + [books[i]];
      }
      i := i + 1;
    }
    assert books[..i] == books;
  }
}
