/**
 * Content pseudo-ratings: each common word acts as a virtual user who gives 10 to every joke
 * whose lower-cased text contains the word. This module holds the specification of the table;
 * the recommender builds it with nested loops.
 */
module ContentMatrix {
  import opened JokeIds
  import opened RatingTables

  /** The rating every pseudo-rating row carries. */
  const PseudoRating: real := 10.0

  /** str.lower() on ASCII letters. */
  function LowerChar(c: char): char {
    if 'A' <= c <= 'Z' then (c as int - 'A' as int + 'a' as int) as char else c
  }

  function Lower(s: string): string {
    seq(|s|, k requires 0 <= k < |s| => LowerChar(s[k]))
  }

  /** word stands in text starting at position k. */
  predicate OccursAt(word: string, text: string, k: int) {
    0 <= k <= |text| - |word| && text[k..k + |word|] == word
  }

  /** Python's `word in text`: word occurs as a contiguous substring (the empty word always does). */
  predicate Occurs(word: string, text: string) {
    exists k | 0 <= k <= |text| - |word| :: OccursAt(word, text, k)
  }

  /** The test of the inner loop: `word in text.lower()`. */
  predicate Matches(word: string, text: string) {
    Occurs(word, Lower(text))
  }

  /** The row appended for a word and the 0-based joke row j. */
  function PseudoRow(word: string, j: nat): Rating {
    Rating(word, JokeId(j + 1), PseudoRating)
  }

  /** The rows one word contributes, for the jokes in rows [0, n), in row order. */
  function WordRows(word: string, texts: seq<string>, n: nat): seq<Rating>
    requires n <= |texts|
  {
    if n == 0 then []
    else WordRows(word, texts, n - 1) + (if Matches(word, texts[n - 1]) then [PseudoRow(word, n - 1)] else [])
  }

  /** The whole pseudo-rating table: word by word, and for each word joke by joke. */
  function ContentRatings(words: seq<string>, texts: seq<string>): seq<Rating> {
    if words == [] then []
    else ContentRatings(words[..|words| - 1], texts) + WordRows(words[|words| - 1], texts, |texts|)
  }

  /** The indices of the jokes a word matches among rows [0, n). */
  function MatchingJokes(word: string, texts: seq<string>, n: nat): set<nat>
    requires n <= |texts|
  {
    set j: nat | j < n && Matches(word, texts[j])
  }

  /** The number of matching (word, joke) pairs, counted word by word. */
  function PairCount(words: seq<string>, texts: seq<string>): nat {
    if words == [] then 0
    else PairCount(words[..|words| - 1], texts) + |MatchingJokes(words[|words| - 1], texts, |texts|)|
  }

  lemma {:induction false} WordRowsMembers(word: string, texts: seq<string>, n: nat)
    requires n <= |texts|
    ensures forall x :: x in WordRows(word, texts, n) <==>
      exists j :: 0 <= j < n && Matches(word, texts[j]) && x == PseudoRow(word, j)
  {
    if n > 0 {
      WordRowsMembers(word, texts, n - 1);
    }
  }

  /** The rows of one word name jokes in strictly increasing row order, all below n. */
  lemma {:induction false} WordRowsAscending(word: string, texts: seq<string>, n: nat)
    requires n <= |texts|
    ensures forall p :: 0 <= p < |WordRows(word, texts, n)| ==>
      0 <= JokeIndexOf(WordRows(word, texts, n)[p].item) < n
    ensures forall p, q :: 0 <= p < q < |WordRows(word, texts, n)| ==>
      JokeIndexOf(WordRows(word, texts, n)[p].item) < JokeIndexOf(WordRows(word, texts, n)[q].item)
  {
    if n > 0 {
      WordRowsAscending(word, texts, n - 1);
      JokeIdRoundTrip(n);
    }
  }

  /** One word's rows are as many as the jokes it matches. */
  lemma {:induction false} WordRowsCount(word: string, texts: seq<string>, n: nat)
    requires n <= |texts|
    ensures |WordRows(word, texts, n)| == |MatchingJokes(word, texts, n)|
  {
    if n > 0 {
      WordRowsCount(word, texts, n - 1);
      var before := MatchingJokes(word, texts, n - 1);
      if Matches(word, texts[n - 1]) {
        assert MatchingJokes(word, texts, n) == before + {n - 1};
        assert n - 1 !in before;
      } else {
        assert MatchingJokes(word, texts, n) == before;
      }
    }
  }

  /**
   * A row is in the table exactly when it is (w, joke_{j+1}, 10) for a listed word w that
   * occurs in the lower-cased text of joke row j.
   */
  lemma {:induction false} ContentRatingsMembers(words: seq<string>, texts: seq<string>)
    ensures forall x :: x in ContentRatings(words, texts) <==>
      exists i, j :: 0 <= i < |words| && 0 <= j < |texts| && Matches(words[i], texts[j]) && x == PseudoRow(words[i], j)
  {
    if words != [] {
      var init := words[..|words| - 1];
      var last := words[|words| - 1];
      ContentRatingsMembers(init, texts);
      WordRowsMembers(last, texts, |texts|);
      forall x | x in ContentRatings(words, texts)
        ensures exists i, j :: 0 <= i < |words| && 0 <= j < |texts| && Matches(words[i], texts[j]) && x == PseudoRow(words[i], j)
      {
        if x in ContentRatings(init, texts) {
          var i, j :| 0 <= i < |init| && 0 <= j < |texts| && Matches(init[i], texts[j]) && x == PseudoRow(init[i], j);
          assert words[i] == init[i];
        } else {
          var j :| 0 <= j < |texts| && Matches(last, texts[j]) && x == PseudoRow(last, j);
          assert words[|words| - 1] == last;
        }
      }
      forall x | exists i, j :: 0 <= i < |words| && 0 <= j < |texts| && Matches(words[i], texts[j]) && x == PseudoRow(words[i], j)
        ensures x in ContentRatings(words, texts)
      {
        var i, j :| 0 <= i < |words| && 0 <= j < |texts| && Matches(words[i], texts[j]) && x == PseudoRow(words[i], j);
        if i < |words| - 1 {
          assert init[i] == words[i];
        }
      }
    }
  }

  /** Every row of the table has rating 10 and a listed word as its user. */
  lemma ContentRatingsAllTen(words: seq<string>, texts: seq<string>)
    ensures forall k :: 0 <= k < |ContentRatings(words, texts)| ==>
      ContentRatings(words, texts)[k].rating == 10.0 && ContentRatings(words, texts)[k].user in words
  {
    ContentRatingsMembers(words, texts);
    forall k | 0 <= k < |ContentRatings(words, texts)|
      ensures ContentRatings(words, texts)[k].rating == 10.0 && ContentRatings(words, texts)[k].user in words
    {
      var x := ContentRatings(words, texts)[k];
      assert x in ContentRatings(words, texts);
    }
  }

  /** The table has one row per matching (word, joke) pair. */
  lemma {:induction false} ContentRatingsCount(words: seq<string>, texts: seq<string>)
    ensures |ContentRatings(words, texts)| == PairCount(words, texts)
  {
    if words != [] {
      ContentRatingsCount(words[..|words| - 1], texts);
      WordRowsCount(words[|words| - 1], texts, |texts|);
    }
  }

  /** Word-major order: the rows of earlier words all come before the rows of later ones. */
  lemma {:induction false} ContentRatingsConcat(a: seq<string>, b: seq<string>, texts: seq<string>)
    ensures ContentRatings(a + b, texts) == ContentRatings(a, texts) + ContentRatings(b, texts)
  {
    if b == [] {
      assert a + b == a;
    } else {
      var ab := a + b;
      assert ab[..|ab| - 1] == a + b[..|b| - 1];
      assert ab[|ab| - 1] == b[|b| - 1];
      ContentRatingsConcat(a, b[..|b| - 1], texts);
    }
  }
}
