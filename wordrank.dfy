/**
 * WordRank/portal.py: the script version. The whole text is split on
 * whitespace and lowercased, each word is counted into one dictionary, the
 * dictionary is inverted into count buckets, every bucket is sorted, the
 * buckets are listed from the largest count down, and the first five
 * (count, word) tuples are reported. There is no punctuation removal and
 * no stopword list.
 */
module WordRank {
  import opened Text
  import opened Counting
  import opened Ordering
  import opened Entries
  import opened Report

  /** The `range(min(5, len(result)))` bound. */
  const NumWordsToPrint: nat := 5

  /** `[word.lower() for word in words]`. */
  function Lowered(words: seq<string>): (lowered: seq<string>)
    ensures |lowered| == |words|
  {
    seq(|words|, i requires 0 <= i < |words| => Lower(words[i]))
  }

  /**
   * The counting loop: `totalwords` goes up once per word, and each word's
   * entry is created at 1 or incremented.
   */
  method CountWords(words: seq<string>) returns (totalwords: nat, wordcount: map<string, nat>)
    ensures totalwords == |words|
    ensures wordcount == Tally(map[], words)
  {
    totalwords, wordcount := 0, map[];
    for i := 0 to |words|
      invariant totalwords == i
      invariant wordcount == Tally(map[], words[..i])
    {
      var word := words[i];
      totalwords := totalwords + 1;
      if word in wordcount {
        wordcount := wordcount[word := wordcount[word] + 1];
      } else {
        wordcount := wordcount[word := 1];
      }
      TallySnoc(map[], words[..i], word);
      assert words[..i + 1] == words[..i] + [word];
    }
    assert words[..|words|] == words;
  }

  /** The dictionary the counting loop builds from the tokens of a text. */
  function WordCounts(tokens: seq<string>): map<string, nat> {
    Tally(map[], Lowered(tokens))
  }

  /**
   * What the counting loop leaves: the keys are exactly the lowercased
   * tokens, so none holds an uppercase letter; each count is the number of
   * tokens whose lowercase form is the key, at least one; and the counts add
   * up to the total number of tokens.
   */
  lemma ScriptCounts(tokens: seq<string>)
    ensures forall w :: w in WordCounts(tokens) <==> w in Lowered(tokens)
    ensures forall w :: Get(WordCounts(tokens), w) == multiset(Lowered(tokens))[w]
    ensures forall w :: w in WordCounts(tokens) ==> NoUpper(w)
    ensures Positive(WordCounts(tokens))
    ensures Sum(WordCounts(tokens)) == |tokens|
  {
    var words := Lowered(tokens);
    TallyCounts(map[], words);
    CountsFromEmpty(words);
    forall w | w in WordCounts(tokens) ensures NoUpper(w) {
      var i :| 0 <= i < |words| && words[i] == w;
      LowerFacts(tokens[i]);
    }
    SumTally(map[], words);
    assert Sum(map[]) == 0;
  }

  /**
   * The bucket loop: every word is appended to the list of its count, and a
   * count met for the first time starts a new list.
   */
  method BuildRanking(wordcount: map<string, nat>) returns (ranking: map<nat, seq<string>>)
    ensures RankingOf(ranking, wordcount)
  {
    ranking := map[];
    var items := Enumerate(wordcount.Keys);
    for k := 0 to |items|
      invariant forall c :: c in ranking ==> ranking[c] != []
      invariant forall c, i :: c in ranking && 0 <= i < |ranking[c]| ==>
        ranking[c][i] in items[..k] && ranking[c][i] in wordcount && wordcount[ranking[c][i]] == c
      invariant forall c, i, j :: c in ranking && 0 <= i < j < |ranking[c]| ==> ranking[c][i] != ranking[c][j]
      invariant forall w :: w in items[..k] ==> wordcount[w] in ranking && w in ranking[wordcount[w]]
    {
      var word := items[k];
      var count := wordcount[word];
      assert word !in items[..k] by {
        forall j | 0 <= j < k ensures items[j] != word {
          NoDuplicatesAt(items, j, k);
        }
      }
      if count in ranking {
        ranking := ranking[count := ranking[count] + [word]];
      } else {
        ranking := ranking[count := [word]];
      }
      assert items[..k + 1] == items[..k] + [word];
    }
    assert items[..|items|] == items;
  }

  /** Every bucket is in ascending word order. */
  predicate BucketsSorted(ranking: map<nat, seq<string>>) {
    forall c :: c in ranking ==> StrictlySortedBy(ranking[c], StrLess)
  }

  /** `ranking[rank] = sorted(ranking[rank])` for every bucket: same counts, each bucket a sorted permutation. */
  method SortBuckets(ranking: map<nat, seq<string>>) returns (sorted: map<nat, seq<string>>)
    ensures sorted.Keys == ranking.Keys
    ensures forall c :: c in sorted ==> SortedBy(sorted[c], StrLess) && multiset(sorted[c]) == multiset(ranking[c])
  {
    StrLessOrder();
    sorted := ranking;
    var ranks := Enumerate(ranking.Keys);
    for k := 0 to |ranks|
      invariant sorted.Keys == ranking.Keys
      invariant forall c :: c in sorted ==> multiset(sorted[c]) == multiset(ranking[c])
      invariant forall c :: c in ranks[..k] ==> SortedBy(sorted[c], StrLess)
    {
      var rank := ranks[k];
      var bucket := Sort(sorted[rank], StrLess);
      sorted := sorted[rank := bucket];
      assert ranks[..k + 1] == ranks[..k] + [rank];
    }
    assert ranks[..|ranks|] == ranks;
  }

  /**
   * Sorting the buckets keeps the inversion of the dictionary, and since a
   * bucket holds no word twice, each sorted bucket is strictly ascending.
   */
  lemma SortedBucketsRanking(before: map<nat, seq<string>>, after: map<nat, seq<string>>, wc: map<string, nat>)
    requires RankingOf(before, wc)
    requires after.Keys == before.Keys
    requires forall c :: c in after ==> SortedBy(after[c], StrLess) && multiset(after[c]) == multiset(before[c])
    ensures RankingOf(after, wc)
    ensures BucketsSorted(after)
  {
    StrLessOrder();
    forall c | c in after
      ensures after[c] != [] && NoDuplicates(after[c])
      ensures forall w :: w in after[c] <==> w in before[c]
    {
      DistinctNoDuplicates(before[c]);
      assert |after[c]| == |multiset(after[c])| == |before[c]|;
      forall w ensures w in after[c] <==> w in before[c] {
        assert w in after[c] <==> w in multiset(after[c]);
        assert w in before[c] <==> w in multiset(before[c]);
      }
    }
    forall c | c in after ensures StrictlySortedBy(after[c], StrLess) {
      SortedDistinct(after[c], StrLess);
    }
    forall c, i | c in after && 0 <= i < |after[c]| ensures after[c][i] in wc && wc[after[c][i]] == c {
      assert after[c][i] in before[c];
    }
    forall c, i, j | c in after && 0 <= i < j < |after[c]| ensures after[c][i] != after[c][j] {
      NoDuplicatesAt(after[c], i, j);
    }
  }

  /** The pairs of one bucket, in bucket order. */
  function Tagged(count: nat, words: seq<string>): seq<Entry> {
    seq(|words|, i requires 0 <= i < |words| => Entry(count, words[i]))
  }

  /** The buckets of `counts`, visited in that order, as one list of pairs. */
  function Flattened(counts: seq<nat>, ranking: map<nat, seq<string>>): seq<Entry>
    requires forall c :: c in counts ==> c in ranking
    decreases |counts|
  {
    if counts == [] then []
    else
      var last := counts[|counts| - 1];
      Flattened(counts[..|counts| - 1], ranking) + Tagged(last, ranking[last])
  }

  lemma FlattenedStep(counts: seq<nat>, i: int, ranking: map<nat, seq<string>>)
    requires forall c :: c in counts ==> c in ranking
    requires 0 <= i < |counts|
    ensures Flattened(counts[..i + 1], ranking) == Flattened(counts[..i], ranking) + Tagged(counts[i], ranking[counts[i]])
  {
    assert counts[..i + 1][..i] == counts[..i];
  }

  lemma TaggedStep(count: nat, words: seq<string>, k: int)
    requires 0 <= k < |words|
    ensures Tagged(count, words[..k + 1]) == Tagged(count, words[..k]) + [Entry(count, words[k])]
  {
  }

  /** The flattened list holds exactly the pairs of the visited buckets. */
  lemma {:induction false} FlattenedMembers(counts: seq<nat>, ranking: map<nat, seq<string>>)
    requires forall c :: c in counts ==> c in ranking
    ensures forall e :: e in Flattened(counts, ranking) <==> e.count in counts && InRanking(e, ranking)
    decreases |counts|
  {
    if counts != [] {
      var init := counts[..|counts| - 1];
      var last := counts[|counts| - 1];
      FlattenedMembers(init, ranking);
      assert counts == init + [last];
      forall e ensures e in Tagged(last, ranking[last]) <==> e.count == last && e.word in ranking[last] {
        if e in Tagged(last, ranking[last]) {
          var i :| 0 <= i < |ranking[last]| && Tagged(last, ranking[last])[i] == e;
        }
        if e.count == last && e.word in ranking[last] {
          var i :| 0 <= i < |ranking[last]| && ranking[last][i] == e.word;
          assert Tagged(last, ranking[last])[i] == e;
        }
      }
    }
  }

  /**
   * Visiting the counts from the largest down, with every bucket ascending,
   * lists the pairs by count descending and, within a count, by word
   * ascending.
   */
  lemma {:induction false} FlattenedSorted(counts: seq<nat>, ranking: map<nat, seq<string>>)
    requires forall c :: c in counts ==> c in ranking
    requires StrictlySortedBy(counts, Greater) && BucketsSorted(ranking)
    ensures StrictlySortedBy(Flattened(counts, ranking), CountDescWordAsc)
    decreases |counts|
  {
    if counts != [] {
      var init := counts[..|counts| - 1];
      var last := counts[|counts| - 1];
      var tagged := Tagged(last, ranking[last]);
      FlattenedSorted(init, ranking);
      FlattenedMembers(init, ranking);
      assert StrictlySortedBy(tagged, CountDescWordAsc) by {
        forall i, j | 0 <= i < j < |tagged| ensures CountDescWordAsc(tagged[i], tagged[j]) {
          assert StrLess(ranking[last][i], ranking[last][j]);
        }
      }
      forall x, y | x in Flattened(init, ranking) && y in tagged ensures CountDescWordAsc(x, y) {
        var i :| 0 <= i < |init| && init[i] == x.count;
        var j :| 0 <= j < |tagged| && tagged[j] == y;
        assert Greater(counts[i], counts[|counts| - 1]);
      }
      StrictlySortedAppend(Flattened(init, ranking), tagged, CountDescWordAsc);
    }
  }

  /**
   * `sorted(ranking.items(), key=get_count, reverse=True)`, keeping only the
   * counts: every count of the ranking once, from the largest down.
   */
  method SortedCounts(ranking: map<nat, seq<string>>) returns (counts: seq<nat>)
    ensures forall c :: c in counts <==> c in ranking
    ensures StrictlySortedBy(counts, Greater)
  {
    var items := Enumerate(ranking.Keys);
    GreaterOrder();
    counts := Sort(items, Greater);
    forall c ensures c in counts <==> c in items {
      assert c in counts <==> c in multiset(counts);
      assert c in items <==> c in multiset(items);
    }
    SortedDistinct(counts, Greater);
  }

  /** The inner loop: `result.append((count, word))` for each word of one bucket, in order. */
  method AppendBucket(result: seq<Entry>, count: nat, wordList: seq<string>) returns (r: seq<Entry>)
    ensures r == result + Tagged(count, wordList)
  {
    r := result;
    for k := 0 to |wordList|
      invariant r == result + Tagged(count, wordList[..k])
    {
      TaggedStep(count, wordList, k);
      r := r + [Entry(count, wordList[k])];
    }
    assert wordList[..|wordList|] == wordList;
  }

  /**
   * The flattening loop: the buckets are visited from the largest count
   * down, and each bucket's words are appended in bucket order. The result
   * lists exactly the pairs of the ranking; when every bucket is ascending,
   * it is ordered by count descending and, among equal counts, by word
   * ascending.
   */
  method Flatten(ranking: map<nat, seq<string>>) returns (result: seq<Entry>)
    ensures forall e :: e in result <==> InRanking(e, ranking)
    ensures BucketsSorted(ranking) ==> StrictlySortedBy(result, CountDescWordAsc)
  {
    var counts := SortedCounts(ranking);
    result := [];
    for i := 0 to |counts|
      invariant result == Flattened(counts[..i], ranking)
    {
      FlattenedStep(counts, i, ranking);
      result := AppendBucket(result, counts[i], ranking[counts[i]]);
    }
    assert counts[..|counts|] == counts;
    FlattenedMembers(counts, ranking);
    if BucketsSorted(ranking) {
      FlattenedSorted(counts, ranking);
    }
  }

  /** What the script computes from a text: the total and the ranked tuples. */
  ghost predicate ScriptResult(contents: string, totalwords: nat, result: seq<Entry>) {
    totalwords == |Split(contents)|
    && multiset(result) == multiset(Items(WordCounts(Split(contents))))
    && StrictlySortedBy(result, CountDescWordAsc)
  }

  /** The whole script on the text of a file: count, bucket, sort, flatten, report the top five. */
  method Run(contents: string) returns (totalwords: nat, result: seq<Entry>, output: seq<string>)
    ensures ScriptResult(contents, totalwords, result)
    ensures |result| == |WordCounts(Split(contents))|
    ensures |output| == 1 + (if |result| < NumWordsToPrint then |result| else NumWordsToPrint)
    ensures output[0] == TotalLine(totalwords)
    ensures forall i :: 1 <= i < |output| ==> output[i] == DetailLine(result[i - 1])
  {
    var words := Lowered(Split(contents));
    var wordcount;
    totalwords, wordcount := CountWords(words);
    var ranking := BuildRanking(wordcount);
    var sorted := SortBuckets(ranking);
    SortedBucketsRanking(ranking, sorted, wordcount);
    result := Flatten(sorted);
    EntryOrders();
    StrictlySortedNoDuplicates(result, CountDescWordAsc);
    RankingItems(sorted, wordcount);
    NoDuplicatesPermutation(result, Items(wordcount));
    ItemsCard(wordcount);
    output := TopLines(totalwords, result, NumWordsToPrint);
  }

  /** The script is deterministic: the same text gives the same total and the same ranked tuples. */
  lemma ScriptDeterministic(contents: string, t1: nat, r1: seq<Entry>, t2: nat, r2: seq<Entry>)
    requires ScriptResult(contents, t1, r1) && ScriptResult(contents, t2, r2)
    ensures t1 == t2 && r1 == r2
  {
    EntryOrders();
    StrictlySortedUnique(r1, r2, CountDescWordAsc);
  }
}
