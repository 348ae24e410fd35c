/**
 * Word-count dictionaries as maps from words to positive counts, the single
 * update both scripts perform on them (`d[w] = d.get(w, 0) + 1`), and the sum
 * of their values.
 */
module Counting {

  /** `d.get(w, 0)`. */
  function Get(m: map<string, nat>, w: string): nat {
    if w in m then m[w] else 0
  }

  /** `d[w] = d.get(w, 0) + 1`: creates the entry at 1 or increments it; nothing else changes. */
  function Inc(m: map<string, nat>, w: string): (r: map<string, nat>)
    ensures r.Keys == m.Keys + {w}
    ensures r[w] == Get(m, w) + 1
    ensures forall v :: v in m && v != w ==> r[v] == m[v]
  {
    m[w := Get(m, w) + 1]
  }

  /** Applies Inc for each word of `ws`, first to last. */
  function Tally(m: map<string, nat>, ws: seq<string>): map<string, nat>
    decreases |ws|
  {
    if ws == [] then m else Inc(Tally(m, ws[..|ws| - 1]), ws[|ws| - 1])
  }

  lemma TallySnoc(m: map<string, nat>, ws: seq<string>, w: string)
    ensures Tally(m, ws + [w]) == Inc(Tally(m, ws), w)
  {
    assert (ws + [w])[..|ws|] == ws;
  }

  /** Tallying two stretches of words one after the other is tallying their concatenation. */
  lemma {:induction false} TallyAppend(m: map<string, nat>, a: seq<string>, b: seq<string>)
    ensures Tally(Tally(m, a), b) == Tally(m, a + b)
    decreases |b|
  {
    if b == [] {
      assert a + b == a;
    } else {
      var init := b[..|b| - 1];
      var last := b[|b| - 1];
      assert b == init + [last];
      assert a + b == (a + init) + [last];
      TallyAppend(m, a, init);
      TallySnoc(Tally(m, a), init, last);
      TallySnoc(m, a + init, last);
    }
  }

  /** After tallying, a word's count is its old count plus its number of occurrences, and the keys are the old keys plus the tallied words. */
  lemma {:induction false} TallyCounts(m: map<string, nat>, ws: seq<string>)
    ensures forall w :: Get(Tally(m, ws), w) == Get(m, w) + multiset(ws)[w]
    ensures forall w :: w in Tally(m, ws) <==> w in m || w in ws
    decreases |ws|
  {
    if ws != [] {
      var init := ws[..|ws| - 1];
      var last := ws[|ws| - 1];
      TallyCounts(m, init);
      assert ws == init + [last];
      assert multiset(ws) == multiset(init) + multiset{last};
    }
  }

  /** Counting from an empty dictionary: exactly the words that occur, each with its number of occurrences, never zero. */
  lemma CountsFromEmpty(ws: seq<string>)
    ensures forall w :: w in Tally(map[], ws) <==> w in ws
    ensures forall w :: w in Tally(map[], ws) ==> Tally(map[], ws)[w] == multiset(ws)[w] >= 1
  {
    TallyCounts(map[], ws);
    forall w | w in Tally(map[], ws)
      ensures Tally(map[], ws)[w] == multiset(ws)[w] >= 1
    {
      assert Get(Tally(map[], ws), w) == multiset(ws)[w];
    }
  }

  /** Every count is at least one: a key exists only once its word has occurred. */
  predicate Positive(m: map<string, nat>) {
    forall w :: w in m ==> m[w] >= 1
  }

  /** The sum of all counts. */
  ghost function Sum(m: map<string, nat>): nat
    decreases |m.Keys|
  {
    if m == map[] then 0
    else
      var w :| w in m;
      assert (m - {w}).Keys == m.Keys - {w};
      m[w] + Sum(m - {w})
  }

  /** The sum does not depend on which key is taken out first. */
  lemma {:induction false} SumRemove(m: map<string, nat>, w: string)
    requires w in m
    ensures Sum(m) == m[w] + Sum(m - {w})
    decreases |m.Keys|
  {
    var v :| v in m && Sum(m) == m[v] + Sum(m - {v});
    if v != w {
      assert (m - {v}).Keys == m.Keys - {v};
      assert (m - {w}).Keys == m.Keys - {w};
      SumRemove(m - {v}, w);
      SumRemove(m - {w}, v);
      assert m - {v} - {w} == m - {w} - {v};
    }
  }

  /** Each Inc adds exactly one to the sum. */
  lemma SumInc(m: map<string, nat>, w: string)
    ensures Sum(Inc(m, w)) == Sum(m) + 1
  {
    var r := Inc(m, w);
    SumRemove(r, w);
    assert r - {w} == m - {w};
    if w in m {
      SumRemove(m, w);
    } else {
      assert m - {w} == m;
    }
  }

  /** Tallying n words adds n to the sum. */
  lemma {:induction false} SumTally(m: map<string, nat>, ws: seq<string>)
    ensures Sum(Tally(m, ws)) == Sum(m) + |ws|
    decreases |ws|
  {
    if ws != [] {
      SumTally(m, ws[..|ws| - 1]);
      SumInc(Tally(m, ws[..|ws| - 1]), ws[|ws| - 1]);
    }
  }

  lemma {:induction false} TallyPositive(m: map<string, nat>, ws: seq<string>)
    requires Positive(m)
    ensures Positive(Tally(m, ws))
    decreases |ws|
  {
    if ws != [] {
      TallyPositive(m, ws[..|ws| - 1]);
    }
  }
}
