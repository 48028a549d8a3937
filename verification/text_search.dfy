/**
  Case-insensitive substring search, as the book filter performs it with
  `title.contains(query, ignoreCase = true)`.

  Kotlin answers that question with a linear `indexOf`: it tries every start
  index from 0 up to and including the length of the text, and at each one asks
  `regionMatches`, which fails at once when the query would run past the end of
  the text and otherwise compares the characters pairwise ignoring case.
  `contains` holds when that search finds an index.
 */
module TextSearch {
  import opened CaseFold

  /** `needle` appears in `hay` starting at index `i`. */
  ghost predicate OccursAt(needle: string, hay: string, i: int) {
    0 <= i && i + |needle| <= |hay| && hay[i..i + |needle|] == needle
  }

  /** Reference meaning of a substring: an occurrence at some index. */
  ghost predicate IsSubstring(needle: string, hay: string) {
    exists i :: OccursAt(needle, hay, i)
  }

  /**
    Kotlin's `regionMatches` with `ignoreCase = true`, comparing the whole
    `query` against `text` from index `offset`: false at once when the query
    would start before the text or run past its end.
   */
  predicate RegionMatches(text: string, offset: int, query: string) {
    if offset < 0 || offset > |text| - |query| then false
    else CharsMatchFrom(text, offset, query, 0)
  }

  /** The loop of `regionMatches`, from the `k`-th character of `query` on. */
  predicate CharsMatchFrom(text: string, offset: nat, query: string, k: nat)
    requires offset + |query| <= |text|
    decreases |query| - k
  {
    if k >= |query| then true
    else if !EqualsIgnoreCase(query[k], text[offset + k]) then false
    else CharsMatchFrom(text, offset, query, k + 1)
  }

  /**
    The loop of `indexOf`: the first index from `start` up to and including
    the length of `text` at which `query` matches, or -1 when there is none.
   */
  function IndexOfFrom(text: string, query: string, start: nat): int
    decreases |text| + 1 - start
  {
    if start > |text| then -1
    else if RegionMatches(text, start, query) then start
    else IndexOfFrom(text, query, start + 1)
  }

  function IndexOf(text: string, query: string): int {
    IndexOfFrom(text, query, 0)
  }

  /** `text.contains(query, ignoreCase = true)`. */
  predicate Contains(text: string, query: string) {
    IndexOf(text, query) >= 0
  }

  /** The character loop accepts exactly when every remaining pair is equal ignoring case. */
  lemma {:induction false} CharsMatchFromMeaning(text: string, offset: nat, query: string, k: nat)
    requires offset + |query| <= |text|
    ensures CharsMatchFrom(text, offset, query, k) <==>
      forall j :: k <= j < |query| ==> EqualsIgnoreCase(query[j], text[offset + j])
    decreases |query| - k
  {
    if k < |query| {
      CharsMatchFromMeaning(text, offset, query, k + 1);
    }
  }

  /** A match ignoring case is an occurrence of the lower-cased query in the lower-cased text. */
  lemma RegionMatchesIffFoldedOccurrence(text: string, offset: int, query: string)
    ensures RegionMatches(text, offset, query) <==> OccursAt(Fold(query), Fold(text), offset)
  {
    if 0 <= offset <= |text| - |query| {
      CharsMatchFromMeaning(text, offset, query, 0);
      var window := Fold(text)[offset..offset + |query|];
      assert forall k :: 0 <= k < |query| ==> window[k] == ToLower(text[offset + k]);
      if RegionMatches(text, offset, query) {
        assert window == Fold(query);
      }
      if OccursAt(Fold(query), Fold(text), offset) {
        forall k | 0 <= k < |query|
          ensures EqualsIgnoreCase(query[k], text[offset + k])
        {
          assert Fold(query)[k] == window[k];
        }
      }
    }
  }

  /**
    The search from `start` returns -1 exactly when the lower-cased query
    occurs nowhere from `start` on, and otherwise the first such index.
   */
  lemma {:induction false} IndexOfFromMeaning(text: string, query: string, start: nat)
    ensures var r := IndexOfFrom(text, query, start);
      && (r == -1 <==> forall i :: start <= i ==> !OccursAt(Fold(query), Fold(text), i))
      && (r != -1 ==> start <= r && OccursAt(Fold(query), Fold(text), r))
      && (forall i :: start <= i < r ==> !OccursAt(Fold(query), Fold(text), i))
    decreases |text| + 1 - start
  {
    RegionMatchesIffFoldedOccurrence(text, start, query);
    if start <= |text| && !RegionMatches(text, start, query) {
      IndexOfFromMeaning(text, query, start + 1);
    }
  }

  /**
    The search finds the query exactly when the lower-cased query is a
    substring of the lower-cased text.
   */
  lemma ContainsIffFoldedSubstring(text: string, query: string)
    ensures Contains(text, query) <==> IsSubstring(Fold(query), Fold(text))
  {
    IndexOfFromMeaning(text, query, 0);
  }

  /** Every text contains the empty query, found at index 0. */
  lemma ContainsEmptyQuery(text: string)
    ensures IndexOf(text, "") == 0
    ensures Contains(text, "")
  {
    assert RegionMatches(text, 0, "");
  }

  /** Queries with the same lower-case form are found in exactly the same texts. */
  lemma ContainsCaseInsensitive(text: string, q1: string, q2: string)
    requires Fold(q1) == Fold(q2)
    ensures Contains(text, q1) <==> Contains(text, q2)
  {
    ContainsIffFoldedSubstring(text, q1);
    ContainsIffFoldedSubstring(text, q2);
  }

  /** No character of `text` is one of `chars`. */
  predicate Avoids(text: string, chars: string) {
    forall i :: 0 <= i < |text| ==> text[i] !in chars
  }

  /**
    A query is not found when the text avoids both the lower-case and the
    upper-case form of the lower-cased `k`-th character of the query.
   */
  lemma NotContainsMissingChar(text: string, query: string, k: nat, chars: string)
    requires k < |query|
    requires Fold(query)[k] in chars && ToUpper(Fold(query)[k]) in chars
    requires Avoids(text, chars)
    ensures !Contains(text, query)
  {
    ContainsIffFoldedSubstring(text, query);
  }

  /** A query is found when its lower-case form occurs in the lower-cased text at some index. */
  lemma ContainsAtOccurrence(text: string, query: string, i: int)
    requires OccursAt(Fold(query), Fold(text), i)
    ensures Contains(text, query)
  {
    ContainsIffFoldedSubstring(text, query);
  }
}
