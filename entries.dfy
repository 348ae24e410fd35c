/**
 * The ranking data both scripts share: the (count, word) result tuples, the
 * `count -> [word, ...]` inversion of a word-count dictionary, and the two
 * orders in which the scripts list the tuples.
 */
module Entries {
  import opened Ordering

  /** A result tuple `(count, word)`. */
  datatype Entry = Entry(count: nat, word: string)

  /** The dictionary's items as result tuples: `{(wc[w], w) for w in wc}`. */
  function Items(wc: map<string, nat>): set<Entry> {
    set w | w in wc :: Entry(wc[w], w)
  }

  lemma ItemsMembership(wc: map<string, nat>)
    ensures forall e :: e in Items(wc) <==> e.word in wc && wc[e.word] == e.count
  {
    forall e: Entry | e.word in wc && wc[e.word] == e.count ensures e in Items(wc) {
      assert e == Entry(wc[e.word], e.word);
    }
  }

  /** There is one tuple per word. */
  lemma {:induction false} ItemsCard(wc: map<string, nat>)
    ensures |Items(wc)| == |wc|
    decreases |wc|
  {
    if wc != map[] {
      var w :| w in wc;
      var rest := wc - {w};
      assert rest.Keys == wc.Keys - {w};
      ItemsCard(rest);
      ItemsMembership(wc);
      ItemsMembership(rest);
      var e := Entry(wc[w], w);
      assert e !in Items(rest);
      assert Items(wc) == Items(rest) + {e} by {
        forall x ensures x in Items(wc) <==> x in Items(rest) || x == e {
          if x.word == w {
            assert x in Items(wc) <==> x == e;
          }
        }
      }
    }
  }

  /** `(c, w)` is listed by the ranking: `w in ranking[c]`. */
  predicate InRanking(e: Entry, ranking: map<nat, seq<string>>) {
    e.count in ranking && e.word in ranking[e.count]
  }

  /**
   * `ranking` inverts `wc`: every bucket is non-empty, holds only words with
   * that count, holds none twice, and every word of `wc` is in the bucket of
   * its count.
   */
  ghost predicate RankingOf(ranking: map<nat, seq<string>>, wc: map<string, nat>) {
    (forall c :: c in ranking ==> ranking[c] != [])
    && (forall c, i :: c in ranking && 0 <= i < |ranking[c]| ==>
          ranking[c][i] in wc && wc[ranking[c][i]] == c)
    && (forall c, i, j :: c in ranking && 0 <= i < j < |ranking[c]| ==> ranking[c][i] != ranking[c][j])
    && (forall w :: w in wc ==> wc[w] in ranking && w in ranking[wc[w]])
  }

  /** The pairs listed by an inverted dictionary are exactly the dictionary's items. */
  lemma RankingItems(ranking: map<nat, seq<string>>, wc: map<string, nat>)
    requires RankingOf(ranking, wc)
    ensures forall e :: InRanking(e, ranking) <==> e in Items(wc)
  {
    ItemsMembership(wc);
    forall e: Entry | InRanking(e, ranking) ensures e in Items(wc) {
      var i :| 0 <= i < |ranking[e.count]| && ranking[e.count][i] == e.word;
    }
  }

  /** Each word lies in exactly one bucket, at exactly one position. */
  lemma RankingUnique(ranking: map<nat, seq<string>>, wc: map<string, nat>, w: string, c: nat, i: int)
    requires RankingOf(ranking, wc)
    requires c in ranking && 0 <= i < |ranking[c]| && ranking[c][i] == w
    ensures c == wc[w]
    ensures forall d, j :: d in ranking && 0 <= j < |ranking[d]| && ranking[d][j] == w ==> d == c && j == i
  {
    forall d, j | d in ranking && 0 <= j < |ranking[d]| && ranking[d][j] == w
      ensures d == c && j == i
    {
      assert d == wc[w];
    }
  }

  // ---------------------------------------------------------------- orders

  /** Python's `<` on `(count, word)` tuples: by count, then by word. */
  predicate TupleLess(a: Entry, b: Entry) {
    a.count < b.count || (a.count == b.count && StrLess(a.word, b.word))
  }

  /** The order of `sort(reverse=True)` on tuples: `a` is listed before `b` when `a > b`. */
  predicate TupleGreater(a: Entry, b: Entry) {
    TupleLess(b, a)
  }

  /** Count descending, and among equal counts word ascending. */
  predicate CountDescWordAsc(a: Entry, b: Entry) {
    a.count > b.count || (a.count == b.count && StrLess(a.word, b.word))
  }

  lemma EntryOrders()
    ensures StrictTotalOrder(TupleGreater)
    ensures StrictTotalOrder(CountDescWordAsc)
  {
    StrLessOrder();
    forall a: Entry, b: Entry | a != b
      ensures TupleGreater(a, b) || TupleGreater(b, a)
      ensures CountDescWordAsc(a, b) || CountDescWordAsc(b, a)
    {
      if a.count == b.count {
        assert a.word != b.word;
      }
    }
  }
}
