/**
 * The word-frequency script: lower-case the text, split it on whitespace,
 * strip a fixed set of punctuation characters from both ends of each token,
 * count the occurrences of each resulting word in a dictionary, and list the
 * (word, count) rows by count, highest first.
 */
module WordFrequency {
  import opened Text

  /** The characters `word.strip(",.!?\"'()")` removes. */
  const Punctuation: set<char> := {',', '.', '!', '?', '"', '\'', '(', ')'}

  /** `text.lower().split()`. */
  function Tokens(text: string): seq<string> {
    Split(Lower(text))
  }

  /** The dictionary key a token is counted under. */
  function Clean(token: string): string {
    StripChars(token, Punctuation)
  }

  function CleanAll(tokens: seq<string>): seq<string> {
    seq(|tokens|, k requires 0 <= k < |tokens| => Clean(tokens[k]))
  }

  /** How many of `words` are `w`. */
  function Occurrences(words: seq<string>, w: string): nat
    decreases |words|
  {
    if words == [] then 0
    else Occurrences(words[..|words| - 1], w) + (if words[|words| - 1] == w then 1 else 0)
  }

  /** The dictionary after counting `words` in order, one
      `word_count[word] = word_count.get(word, 0) + 1` each. */
  function Tally(words: seq<string>): map<string, int>
    decreases |words|
  {
    if words == [] then map[]
    else
      var counts := Tally(words[..|words| - 1]);
      var w := words[|words| - 1];
      counts[w := (if w in counts then counts[w] else 0) + 1]
  }

  /** The counting loop of the script. */
  method CountWords(text: string) returns (counts: map<string, int>)
    ensures counts == Tally(CleanAll(Tokens(text)))
  {
    var words := Split(Lower(text));
    counts := map[];
    for i := 0 to |words|
      invariant counts == Tally(CleanAll(words[..i]))
    {
      var word := StripChars(words[i], Punctuation);
      assert CleanAll(words[..i + 1])[..i] == CleanAll(words[..i]);
      counts := counts[word := (if word in counts then counts[word] else 0) + 1];
    }
    assert words[..|words|] == words;
  }

  /** The dictionary has a key for exactly the words that occur, and each
      key's count is the number of its occurrences. */
  lemma {:induction false} TallyCounts(words: seq<string>)
    ensures forall w :: w in Tally(words) <==> w in words
    ensures forall w :: w in Tally(words) ==> Tally(words)[w] == Occurrences(words, w)
    decreases |words|
  {
    if words != [] {
      var init := words[..|words| - 1];
      TallyCounts(init);
      var last := words[|words| - 1];
      assert words == init + [last];
      forall w
        ensures w in Tally(words) <==> w in words
        ensures w in Tally(words) ==> Tally(words)[w] == Occurrences(words, w)
      {
        assert w in words <==> w in init || w == last;
        OccursCounted(init, w);
      }
    }
  }

  /** Every key of the dictionary has count at least 1. */
  lemma TallyPositive(words: seq<string>)
    ensures forall w :: w in Tally(words) ==> Tally(words)[w] >= 1
  {
    TallyCounts(words);
    forall w | w in Tally(words) ensures Occurrences(words, w) >= 1 {
      OccursCounted(words, w);
    }
  }

  /** A word occurs at least once exactly when it is one of `words`. */
  lemma {:induction false} OccursCounted(words: seq<string>, w: string)
    ensures w in words <==> Occurrences(words, w) >= 1
    decreases |words|
  {
    if words != [] {
      var init := words[..|words| - 1];
      assert words == init + [words[|words| - 1]];
      OccursCounted(init, w);
    }
  }

  /** The sum of the values of a map. */
  ghost function SumValues(m: map<string, int>): int
    decreases |m|
  {
    if m == map[] then 0
    else
      var k :| k in m;
      assert |m - {k}| < |m| by {
        assert (m - {k}).Keys == m.Keys - {k};
      }
      m[k] + SumValues(m - {k})
  }

  /** Summing may start from any key. */
  lemma {:induction false} SumValuesRemove(m: map<string, int>, k: string)
    requires k in m
    ensures SumValues(m) == m[k] + SumValues(m - {k})
    decreases |m|
  {
    var j :| j in m && SumValues(m) == m[j] + SumValues(m - {j});
    if j != k {
      assert (m - {j}).Keys == m.Keys - {j};
      assert (m - {k}).Keys == m.Keys - {k};
      SumValuesRemove(m - {j}, k);
      SumValuesRemove(m - {k}, j);
      assert m - {j} - {k} == m - {k} - {j};
    }
  }

  /** The counts add up to the number of tokens. */
  lemma {:induction false} TallySum(words: seq<string>)
    ensures SumValues(Tally(words)) == |words|
    decreases |words|
  {
    if words != [] {
      var init := words[..|words| - 1];
      var m := Tally(init);
      var w := words[|words| - 1];
      var m' := Tally(words);
      TallySum(init);
      SumValuesRemove(m', w);
      if w in m {
        SumValuesRemove(m, w);
        assert m' - {w} == m - {w};
      } else {
        assert m' - {w} == m;
      }
    }
  }

  /** Counting is case-insensitive: texts that agree once lower-cased give the
      same tokens, and lower-casing the text first changes nothing. */
  lemma TokensIgnoreCase(text1: string, text2: string)
    requires Lower(text1) == Lower(text2)
    ensures Tokens(text1) == Tokens(text2)
    ensures Tokens(Lower(text1)) == Tokens(text1)
  {
    LowerIdempotent(text1);
  }

  /** A token made only of punctuation is counted under the empty string. */
  lemma PunctuationOnlyCountsAsEmpty(token: string)
    requires forall k :: 0 <= k < |token| ==> token[k] in Punctuation
    ensures Clean(token) == ""
  {
    StripAllGone(token, Punctuation);
  }

  /** Cleaning keeps a contiguous piece of the token: only punctuation is
      dropped, and only from the two ends. */
  lemma CleanKeepsInterior(token: string)
    ensures StripsTo(token, Punctuation, Clean(token))
  {
  }

  /** `rows` lists every key of `counts` once, with its count, by count from
      highest to lowest; rows with equal counts may come in any order. */
  ghost predicate IsRanking(rows: seq<(string, int)>, counts: map<string, int>) {
    && (forall i :: 0 <= i < |rows| ==> rows[i].0 in counts && rows[i].1 == counts[rows[i].0])
    && (forall w :: w in counts ==> exists i :: 0 <= i < |rows| && rows[i].0 == w)
    && (forall i, j :: 0 <= i < j < |rows| ==> rows[i].0 != rows[j].0)
    && (forall i, j :: 0 <= i < j < |rows| ==> rows[i].1 >= rows[j].1)
  }

  /** `k` is a key of `m` whose value no other key's exceeds. */
  predicate IsMaxKey(m: map<string, int>, k: string) {
    k in m && forall v :: v in m ==> m[v] <= m[k]
  }

  /** A non-empty map has a key of largest value. */
  lemma {:induction false} MaxKeyExists(m: map<string, int>) returns (best: string)
    requires m != map[]
    ensures IsMaxKey(m, best)
    decreases |m|
  {
    var j :| j in m;
    var rest := m - {j};
    assert rest.Keys == m.Keys - {j};
    best := j;
    if rest != map[] {
      var k := MaxKeyExists(rest);
      best := if m[j] > m[k] then j else k;
      forall v | v in m ensures m[v] <= m[best] {
        if v != j {
          assert v in rest;
        }
      }
    } else {
      forall v | v in m ensures m[v] <= m[best] {
        assert v == j || v in rest;
      }
    }
  }

  /** The rows so far come from `counts` with their counts, and `rest` holds
      the remaining keys of `counts` with theirs. */
  ghost predicate RowsFrom(rows: seq<(string, int)>, rest: map<string, int>, counts: map<string, int>) {
    && (forall w :: w in rest ==> w in counts && rest[w] == counts[w])
    && (forall i :: 0 <= i < |rows| ==> rows[i].0 in counts && rows[i].0 !in rest && rows[i].1 == counts[rows[i].0])
  }

  /** Every key of `counts` is still in `rest` or already has a row. */
  ghost predicate Covers(rows: seq<(string, int)>, rest: map<string, int>, counts: map<string, int>) {
    forall w :: w in counts ==> w in rest || exists i :: 0 <= i < |rows| && rows[i].0 == w
  }

  /** No key has two rows, and counts never increase down the rows. */
  ghost predicate DistinctDescending(rows: seq<(string, int)>) {
    && (forall i, j :: 0 <= i < j < |rows| ==> rows[i].0 != rows[j].0)
    && (forall i, j :: 0 <= i < j < |rows| ==> rows[i].1 >= rows[j].1)
  }

  /** No row's count is below a count still in `rest`. */
  ghost predicate AboveRest(rows: seq<(string, int)>, rest: map<string, int>) {
    forall i, w :: 0 <= i < |rows| && w in rest ==> rows[i].1 >= rest[w]
  }

  /** Halfway through ranking: `rows` ranks the keys of `counts` taken so far
      and `rest` holds the others. */
  ghost predicate RankedSoFar(rows: seq<(string, int)>, rest: map<string, int>, counts: map<string, int>) {
    RowsFrom(rows, rest, counts) && Covers(rows, rest, counts) && DistinctDescending(rows) && AboveRest(rows, rest)
  }

  lemma StepRowsFrom(rows: seq<(string, int)>, rest: map<string, int>, counts: map<string, int>, w: string)
    requires RowsFrom(rows, rest, counts) && w in rest
    ensures RowsFrom(rows + [(w, rest[w])], rest - {w}, counts)
  {
    var rows' := rows + [(w, rest[w])];
    assert forall i :: 0 <= i < |rows| ==> rows'[i] == rows[i];
  }

  lemma StepCovers(rows: seq<(string, int)>, rest: map<string, int>, counts: map<string, int>, w: string)
    requires Covers(rows, rest, counts) && w in rest
    ensures Covers(rows + [(w, rest[w])], rest - {w}, counts)
  {
    var rows' := rows + [(w, rest[w])];
    var rest' := rest - {w};
    forall x | x in counts ensures x in rest' || exists i :: 0 <= i < |rows'| && rows'[i].0 == x {
      if x == w {
        assert rows'[|rows|].0 == x;
      } else if x !in rest {
        var i :| 0 <= i < |rows| && rows[i].0 == x;
        assert rows'[i].0 == x;
      }
    }
  }

  lemma StepOrder(rows: seq<(string, int)>, rest: map<string, int>, counts: map<string, int>, w: string)
    requires RowsFrom(rows, rest, counts) && DistinctDescending(rows) && AboveRest(rows, rest) && IsMaxKey(rest, w)
    ensures DistinctDescending(rows + [(w, rest[w])]) && AboveRest(rows + [(w, rest[w])], rest - {w})
  {
    var rows' := rows + [(w, rest[w])];
    assert forall i :: 0 <= i < |rows| ==> rows'[i] == rows[i];
    assert rows'[|rows|] == (w, rest[w]);
  }

  /** Moving a key of largest count from `rest` to the end of `rows` keeps the ranking. */
  lemma RankStep(rows: seq<(string, int)>, rest: map<string, int>, counts: map<string, int>, w: string)
    requires RankedSoFar(rows, rest, counts) && IsMaxKey(rest, w)
    ensures RankedSoFar(rows + [(w, rest[w])], rest - {w}, counts)
  {
    StepRowsFrom(rows, rest, counts, w);
    StepCovers(rows, rest, counts, w);
    StepOrder(rows, rest, counts, w);
  }

  /** Once `rest` is empty, `rows` is a ranking of the whole dictionary. */
  lemma RankDone(rows: seq<(string, int)>, counts: map<string, int>)
    requires RankedSoFar(rows, map[], counts)
    ensures IsRanking(rows, counts)
  {
  }

  /** `DataFrame(list(word_count.items())).sort_values(by="Count", ascending=False)`:
      the dictionary's rows by count, highest first. */
  method RankByCount(counts: map<string, int>) returns (rows: seq<(string, int)>)
    ensures IsRanking(rows, counts)
  {
    rows := [];
    var rest := counts;
    while rest != map[]
      invariant RankedSoFar(rows, rest, counts)
      decreases |rest|
    {
      ghost var top := MaxKeyExists(rest);
      var w :| w in rest && IsMaxKey(rest, w);
      RankStep(rows, rest, counts, w);
      assert (rest - {w}).Keys == rest.Keys - {w};
      rows := rows + [(w, rest[w])];
      rest := rest - {w};
    }
    RankDone(rows, counts);
  }

  /** The whole script on a text, without the file I/O: count, then rank. */
  method WordCountTable(text: string) returns (rows: seq<(string, int)>)
    ensures IsRanking(rows, Tally(CleanAll(Tokens(text))))
  {
    var counts := CountWords(text);
    rows := RankByCount(counts);
  }
}
