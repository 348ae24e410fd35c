/**
 * WordRank2/portal.py: the four-stage pipeline. Each whitespace-split token
 * is normalised (`transform_word`), classified as a stopword or not
 * (`isstopword`) and counted into one of two dictionaries (`store_word`,
 * `parse`); the content-word dictionary is inverted into count buckets
 * (`rank`), flattened into (count, word) tuples sorted in reverse tuple order
 * (`create_printable_list_of_tuples`) and the first ten are reported
 * (`print_top_n_words`). The module-level dictionaries `wordcount`,
 * `stopwords` and `ranking` are the fields of a `WordRanker` object.
 */
module WordRank2 {
  import opened Text
  import opened Counting
  import opened Ordering
  import opened Entries
  import opened Report

  /** `NUM_WORDS_TO_PRINT`. */
  const NumWordsToPrint: nat := 10

  // ---------------------------------------------------------------- isstopword

  /** The frozen set inside `isstopword`. */
  const Stopwords: set<string> := {
    "a", "an", "and", "are", "as", "at", "be", "but", "by", "for", "if",
    "in", "into", "is", "it", "no", "not", "of", "on", "or", "such", "that",
    "the", "their", "then", "there", "these", "they", "this", "to", "was",
    "will", "with"
  }

  /** `isstopword`: exact membership, no normalisation of its own. */
  predicate IsStopword(token: string) {
    token in Stopwords
  }

  /**
   * The test is exact: a listed word is a stopword, but neither a capitalised
   * nor a punctuated form of it is, and neither is the empty string.
   */
  lemma StopwordExact()
    ensures IsStopword("the") && IsStopword("with")
    ensures !IsStopword("The") && !IsStopword("the.") && !IsStopword("")
  {
  }

  // ---------------------------------------------------------------- transform_word

  /**
   * The characters of `puncList`: ``!()-[]{};:'"\,<>./?@#$%^&*_~`` and the two
   * curly double quotes.
   */
  const Punctuation: set<char> := {
    '!', '(', ')', '-', '[', ']', '{', '}', ';', ':', '\'', '"', '\U{201C}', '\U{201D}',
    '\\', ',', '<', '>', '.', '/', '?', '@', '#', '$', '%', '^', '&', '*', '_', '~'
  }

  /**
   * What `transform_word` computes: strip, lowercase, then delete every
   * punctuation character wherever it occurs. There is no possessive step.
   */
  function Normalize(token: string): string {
    DeleteAll(Lower(Strip(token)), Punctuation)
  }

  /**
   * The loop of `transform_word`: for each character of `s` that is listed in
   * `drop`, every occurrence of it in the current word is replaced by
   * nothing.
   */
  method DeleteListed(s: string, drop: set<char>) returns (word: string)
    ensures word == DeleteAll(s, drop)
  {
    word := s;
    ghost var seen: set<char> := {};
    DeleteAllNone(s, seen);
    for i := 0 to |s|
      invariant seen <= drop
      invariant forall j :: 0 <= j < i && s[j] in drop ==> s[j] in seen
      invariant word == DeleteAll(s, seen)
    {
      if s[i] in drop {
        ReplaceStep(s, seen, s[i]);
        word := Replace(word, s[i]);
        seen := seen + {s[i]};
      }
    }
    DeleteAllAgree(s, seen, drop);
  }

  /** Replacing one more character by nothing deletes it along with those deleted before. */
  lemma ReplaceStep(s: string, seen: set<char>, c: char)
    ensures Replace(DeleteAll(s, seen), c) == DeleteAll(s, seen + {c})
  {
    DeleteAllTwice(s, seen, {c});
  }

  /** `transform_word`: strip, lowercase, then the punctuation loop. */
  method TransformWord(token: string) returns (word: string)
    ensures word == Normalize(token)
  {
    word := DeleteListed(Lower(Strip(token)), Punctuation);
  }

  /**
   * The normal form holds no punctuation and no uppercase letter, and every
   * other character of the stripped, lowercased token with its multiplicity.
   */
  lemma NormalizeFacts(token: string)
    ensures forall i :: 0 <= i < |Normalize(token)| ==> Normalize(token)[i] !in Punctuation
    ensures NoUpper(Normalize(token))
    ensures forall c :: c !in Punctuation ==> multiset(Normalize(token))[c] == multiset(Lower(Strip(token)))[c]
  {
    var s := Lower(Strip(token));
    LowerFacts(Strip(token));
    forall c | c !in Punctuation ensures multiset(Normalize(token))[c] == multiset(s)[c] {
      DeleteAllCount(s, Punctuation, c);
    }
  }

  /** No punctuation character is a letter or whitespace. */
  lemma PunctuationIsPlain(c: char)
    requires c in Punctuation
    ensures !IsUpper(c) && !('a' <= c <= 'z') && !IsWhitespace(c) && LowerChar(c) == c
  {
  }

  /** A token without whitespace (any token `split` produces) has a normal form without whitespace. */
  lemma NormalizeNoWhitespace(token: string)
    requires NoWhitespace(token)
    ensures NoWhitespace(Normalize(token))
    ensures NoOuterWhitespace(Normalize(token))
  {
    StripNoWhitespace(token);
    LowerFacts(token);
    DeleteAllFrom(Lower(token), Punctuation);
  }

  /**
   * For a token with inner whitespace the result can start with a space:
   * deleting punctuation runs after stripping.
   */
  lemma NormalizeInnerSpace()
    ensures Normalize("! a") == " a"
  {
    var t := "! a";
    assert TrimLeft(t) == t;
    assert TrimRight(t) == t;
    assert Lower(t) == t;
    PunctuationIsPlainChars();
    assert DeleteAll(t[2..], Punctuation) == "a";
    assert DeleteAll(t[1..], Punctuation) == " a";
  }

  /** Membership facts for the characters the examples use. */
  lemma PunctuationIsPlainChars()
    ensures '!' in Punctuation && '.' in Punctuation && '-' in Punctuation && '\'' in Punctuation
    ensures ' ' !in Punctuation && 'a' !in Punctuation
  {
  }

  /** Stripping keeps no character that was not there: a clean string strips to a clean string. */
  lemma StripClean(r: string)
    requires NoUpper(r) && forall i :: 0 <= i < |r| ==> r[i] !in Punctuation
    ensures NoUpper(Strip(r)) && forall i :: 0 <= i < |Strip(r)| ==> Strip(r)[i] !in Punctuation
  {
    StripShape(r);
    var i, j :| 0 <= i <= j <= |r| && Strip(r) == r[i..j];
    assert forall k :: 0 <= k < |Strip(r)| ==> Strip(r)[k] == r[i + k];
  }

  /** Normalising twice is normalising once and stripping. */
  lemma NormalizeIdempotent(token: string)
    ensures Normalize(Normalize(token)) == Strip(Normalize(token))
  {
    var r := Normalize(token);
    NormalizeFacts(token);
    StripClean(r);
    var t := Strip(r);
    LowerFacts(t);
    DeleteAllNone(t, Punctuation);
  }

  /** On the whitespace-free tokens `parse` passes, normalising is idempotent. */
  lemma NormalizeIdempotentOnTokens(token: string)
    requires NoWhitespace(token)
    ensures Normalize(Normalize(token)) == Normalize(token)
  {
    NormalizeIdempotent(token);
    NormalizeNoWhitespace(token);
    StripNoWhitespace(Normalize(token));
  }

  /** Lowercasing cannot turn a character into punctuation. */
  lemma LowerPunctuation(c: char)
    requires LowerChar(c) in Punctuation
    ensures c in Punctuation
  {
    PunctuationIsPlain(LowerChar(c));
  }

  /** A character that survives nowhere was deleted. */
  lemma DeletedChar(s: string, i: int)
    requires DeleteAll(s, Punctuation) == [] && 0 <= i < |s|
    ensures s[i] in Punctuation
  {
    DeleteAllCount(s, Punctuation, s[i]);
    assert s[i] in multiset(s);
  }

  /** A whitespace-free token normalises to the empty string exactly when it is all punctuation. */
  lemma NormalizeEmpty(token: string)
    requires NoWhitespace(token)
    ensures Normalize(token) == [] <==> forall i :: 0 <= i < |token| ==> token[i] in Punctuation
  {
    StripNoWhitespace(token);
    var s := Lower(token);
    if forall i :: 0 <= i < |token| ==> token[i] in Punctuation {
      forall i | 0 <= i < |s| ensures s[i] in Punctuation {
        PunctuationIsPlain(token[i]);
      }
      DeleteAllEverything(s, Punctuation);
    }
    if Normalize(token) == [] {
      forall i | 0 <= i < |token| ensures token[i] in Punctuation {
        DeletedChar(s, i);
        LowerPunctuation(token[i]);
      }
    }
  }

  /** A lowercase letter is neither punctuation nor whitespace. */
  lemma LetterIsPlain(c: char)
    requires 'a' <= c <= 'z'
    ensures c !in Punctuation && !IsWhitespace(c) && !IsUpper(c)
  {
  }

  /** Deleting punctuation keeps a word of lowercase letters as it is. */
  lemma KeepLetters(w: string)
    requires forall k :: 0 <= k < |w| ==> 'a' <= w[k] <= 'z'
    ensures DeleteAll(w, Punctuation) == w
  {
    forall k | 0 <= k < |w| ensures w[k] !in Punctuation {
      LetterIsPlain(w[k]);
    }
    DeleteAllNone(w, Punctuation);
  }

  /** A word of lowercase letters is its own normal form. */
  lemma LetterWordIsNormal(w: string)
    requires forall k :: 0 <= k < |w| ==> 'a' <= w[k] <= 'z'
    ensures Normalize(w) == w
  {
    forall k | 0 <= k < |w| ensures !IsWhitespace(w[k]) && !IsUpper(w[k]) {
      LetterIsPlain(w[k]);
    }
    StripNoWhitespace(w);
    LowerFacts(w);
    KeepLetters(w);
  }

  /** `"Word's."` loses its apostrophe and full stop, but keeps the `s`: there is no possessive step. */
  lemma NormalizePossessive()
    ensures Normalize("Word's.") == "words"
  {
    PossessiveLowered();
    PossessiveDeleted();
  }

  lemma PossessiveLowered()
    ensures Lower(Strip("Word's.")) == "word's."
  {
    assert NoWhitespace("Word's.");
    StripNoWhitespace("Word's.");
  }

  lemma PossessiveDeleted()
    ensures DeleteAll("word's.", Punctuation) == "words"
  {
    PossessiveParts();
    TrailingMarkDeleted("word", "'");
    TrailingMarkDeleted("s", ".");
    DeleteJoin("word" + "'", "s" + ".", "word", "s");
  }

  lemma PossessiveParts()
    ensures "word's." == ("word" + "'") + ("s" + ".")
    ensures "words" == "word" + "s"
  {
  }

  /** Deleting from a concatenation deletes from each part. */
  lemma DeleteJoin(a: string, b: string, x: string, y: string)
    requires DeleteAll(a, Punctuation) == x && DeleteAll(b, Punctuation) == y
    ensures DeleteAll(a + b, Punctuation) == x + y
  {
    DeleteAllAppend(a, b, Punctuation);
  }

  /** Letters followed by one punctuation mark keep the letters only. */
  lemma TrailingMarkDeleted(w: string, m: string)
    requires forall k :: 0 <= k < |w| ==> 'a' <= w[k] <= 'z'
    requires |m| == 1 && m[0] in Punctuation
    ensures DeleteAll(w + m, Punctuation) == w
  {
    DeleteAllAppend(w, m, Punctuation);
    KeepLetters(w);
    DeleteAllEverything(m, Punctuation);
  }

  /** A token of punctuation only vanishes. */
  lemma NormalizeDashes()
    ensures Normalize("---") == ""
  {
    NormalizeEmpty("---");
  }

  // ---------------------------------------------------------------- the specification of parse

  /** The tokens `parse` reads: each line split on whitespace, line after line. */
  function Tokens(lines: seq<string>): seq<string> {
    SplitLines(lines)
  }

  /** The normal form of every token, in order. */
  function Normalized(tokens: seq<string>): (words: seq<string>)
    ensures |words| == |tokens|
  {
    seq(|tokens|, i requires 0 <= i < |tokens| => Normalize(tokens[i]))
  }

  lemma NormalizedStep(tokens: seq<string>, k: int)
    requires 0 <= k < |tokens|
    ensures Normalized(tokens[..k + 1]) == Normalized(tokens[..k]) + [Normalize(tokens[k])]
  {
  }

  /** The words satisfying `keep`, in order. */
  function Filter(words: seq<string>, keep: string -> bool): (kept: seq<string>)
    decreases |words|
  {
    if words == [] then []
    else
      var w := words[|words| - 1];
      Filter(words[..|words| - 1], keep) + (if keep(w) then [w] else [])
  }

  lemma FilterSnoc(words: seq<string>, w: string, keep: string -> bool)
    ensures Filter(words + [w], keep) == Filter(words, keep) + (if keep(w) then [w] else [])
  {
    assert (words + [w])[..|words|] == words;
  }

  /** Filtering keeps every occurrence of a kept word and none of any other. */
  lemma {:induction false} FilterCount(words: seq<string>, keep: string -> bool, w: string)
    ensures multiset(Filter(words, keep))[w] == if keep(w) then multiset(words)[w] else 0
    decreases |words|
  {
    if words != [] {
      var init := words[..|words| - 1];
      var last := words[|words| - 1];
      FilterCount(init, keep, w);
      assert words == init + [last];
      assert multiset(words) == multiset(init) + multiset{last};
    }
  }

  /**
   * Two filters that split the non-empty words between them account, with
   * the empty words, for every word.
   */
  lemma {:induction false} FilterSplit(words: seq<string>, a: string -> bool, b: string -> bool)
    requires forall w :: (a(w) || b(w) <==> w != []) && !(a(w) && b(w))
    ensures |Filter(words, a)| + |Filter(words, b)| + multiset(words)[[]] == |words|
    decreases |words|
  {
    if words != [] {
      var init := words[..|words| - 1];
      var last := words[|words| - 1];
      FilterSplit(init, a, b);
      assert words == init + [last];
      assert multiset(words) == multiset(init) + multiset{last};
    }
  }

  /** What `store_word` counts in `wordcount`: a non-empty non-stopword. */
  predicate IsContentWord(w: string) {
    w != [] && !IsStopword(w)
  }

  /** What `store_word` counts in `stopwords`: a non-empty stopword. */
  predicate IsStopwordHit(w: string) {
    w != [] && IsStopword(w)
  }

  /** The normal forms that `store_word` counts in `wordcount`, in order. */
  function ContentWords(words: seq<string>): seq<string> {
    Filter(words, IsContentWord)
  }

  /** The normal forms that `store_word` counts in `stopwords`, in order. */
  function StopwordHits(words: seq<string>): seq<string> {
    Filter(words, IsStopwordHit)
  }

  /** `wordcount` after parsing `tokens` into empty dictionaries. */
  function WordCounts(tokens: seq<string>): map<string, nat> {
    Tally(map[], ContentWords(Normalized(tokens)))
  }

  /** `stopwords` after parsing `tokens` into empty dictionaries. */
  function StopwordCounts(tokens: seq<string>): map<string, nat> {
    Tally(map[], StopwordHits(Normalized(tokens)))
  }

  /**
   * The counts `parse` leaves: every count is the number of tokens that
   * normalise to that key; `wordcount` keys are the non-empty normal forms
   * that are not stopwords, `stopwords` keys the stopword ones, so the key
   * sets are disjoint and every non-empty normal form that occurs is in
   * exactly one of them.
   */
  lemma ParseCounts(tokens: seq<string>)
    ensures forall w :: Get(WordCounts(tokens), w) == if w != [] && !IsStopword(w) then multiset(Normalized(tokens))[w] else 0
    ensures forall w :: Get(StopwordCounts(tokens), w) == if w != [] && IsStopword(w) then multiset(Normalized(tokens))[w] else 0
    ensures forall w :: w in WordCounts(tokens) <==> w in Normalized(tokens) && w != [] && !IsStopword(w)
    ensures forall w :: w in StopwordCounts(tokens) <==> w in Normalized(tokens) && w != [] && IsStopword(w)
    ensures WordCounts(tokens).Keys !! StopwordCounts(tokens).Keys
    ensures Positive(WordCounts(tokens)) && Positive(StopwordCounts(tokens))
  {
    var words := Normalized(tokens);
    TallyCounts(map[], ContentWords(words));
    TallyCounts(map[], StopwordHits(words));
    CountsFromEmpty(ContentWords(words));
    CountsFromEmpty(StopwordHits(words));
    forall w ensures multiset(ContentWords(words))[w] == (if w != [] && !IsStopword(w) then multiset(words)[w] else 0)
      && multiset(StopwordHits(words))[w] == (if w != [] && IsStopword(w) then multiset(words)[w] else 0)
    {
      FilterCount(words, IsContentWord, w);
      FilterCount(words, IsStopwordHit, w);
    }
  }

  /**
   * The total `parse` returns counts every token, so it is at least the sum
   * of both dictionaries; the difference is the number of tokens that
   * normalise to the empty string.
   */
  lemma ParseTotal(tokens: seq<string>)
    ensures Sum(WordCounts(tokens)) + Sum(StopwordCounts(tokens)) + multiset(Normalized(tokens))[[]] == |tokens|
    ensures Sum(WordCounts(tokens)) + Sum(StopwordCounts(tokens)) <= |tokens|
  {
    var words := Normalized(tokens);
    SumTally(map[], ContentWords(words));
    SumTally(map[], StopwordHits(words));
    assert Sum(map[]) == 0;
    FilterSplit(words, IsContentWord, IsStopwordHit);
  }

  lemma TokensSnoc(lines: seq<string>, line: string)
    ensures Tokens(lines + [line]) == Tokens(lines) + Split(line)
  {
    if lines == [] {
      assert [line][1..] == [];
    } else {
      assert (lines + [line])[1..] == lines[1..] + [line];
      TokensSnoc(lines[1..], line);
    }
  }

  /** Storing one more normal form increments its count if the filter keeps it and changes nothing otherwise. */
  lemma StoreStep(m: map<string, nat>, words: seq<string>, w: string, keep: string -> bool)
    ensures Tally(m, Filter(words + [w], keep)) ==
      if keep(w) then Inc(Tally(m, Filter(words, keep)), w) else Tally(m, Filter(words, keep))
  {
    FilterSnoc(words, w, keep);
    if keep(w) {
      TallySnoc(m, Filter(words, keep), w);
    } else {
      assert Filter(words + [w], keep) == Filter(words, keep);
    }
  }

  lemma {:induction false} FilterAppend(a: seq<string>, b: seq<string>, keep: string -> bool)
    ensures Filter(a + b, keep) == Filter(a, keep) + Filter(b, keep)
    decreases |b|
  {
    if b == [] {
      assert a + b == a;
    } else {
      var init := b[..|b| - 1];
      assert a + b == (a + init) + [b[|b| - 1]];
      assert b == init + [b[|b| - 1]];
      FilterSnoc(a + init, b[|b| - 1], keep);
      FilterSnoc(init, b[|b| - 1], keep);
      FilterAppend(a, init, keep);
    }
  }

  /** Storing the tokens of two stretches of text one after the other is storing their concatenation. */
  lemma StoreAppend(m: map<string, nat>, before: seq<string>, more: seq<string>, keep: string -> bool)
    ensures Tally(Tally(m, Filter(Normalized(before), keep)), Filter(Normalized(more), keep))
         == Tally(m, Filter(Normalized(before + more), keep))
  {
    assert Normalized(before + more) == Normalized(before) + Normalized(more);
    FilterAppend(Normalized(before), Normalized(more), keep);
    TallyAppend(m, Filter(Normalized(before), keep), Filter(Normalized(more), keep));
  }

  /** Storing the tokens of one more line. */
  lemma StoreLine(m: map<string, nat>, lines: seq<string>, line: int, keep: string -> bool)
    requires 0 <= line < |lines|
    ensures Tally(Tally(m, Filter(Normalized(Tokens(lines[..line])), keep)), Filter(Normalized(Split(lines[line])), keep))
         == Tally(m, Filter(Normalized(Tokens(lines[..line + 1])), keep))
  {
    TokensStep(lines, line);
    StoreAppend(m, Tokens(lines[..line]), Split(lines[line]), keep);
  }

  lemma TokensStep(lines: seq<string>, line: int)
    requires 0 <= line < |lines|
    ensures Tokens(lines[..line + 1]) == Tokens(lines[..line]) + Split(lines[line])
  {
    assert lines[..line + 1] == lines[..line] + [lines[line]];
    TokensSnoc(lines[..line], lines[line]);
  }

  // ---------------------------------------------------------------- the global state

  /** The module-level dictionaries of WordRank2/portal.py, as one object. */
  class WordRanker {
    var wordcount: map<string, nat>
    var stopwords: map<string, nat>
    var ranking: map<nat, seq<string>>

    /** Counts are positive; content-word keys are non-empty non-stopwords, stopword keys are stopwords. */
    ghost predicate Valid()
      reads this
      ensures Valid() ==> wordcount.Keys !! stopwords.Keys
    {
      Positive(wordcount) && Positive(stopwords)
      && (forall w :: w in wordcount ==> w != [] && !IsStopword(w))
      && (forall w :: w in stopwords ==> IsStopword(w))
    }

    /** The dictionaries as the module creates them: empty. */
    constructor ()
      ensures Valid()
      ensures wordcount == map[] && stopwords == map[] && ranking == map[]
    {
      wordcount, stopwords, ranking := map[], map[], map[];
    }

    /**
     * `store_word`: an empty token is refused and nothing changes; any other
     * is counted once, in `stopwords` if it is a stopword and in `wordcount`
     * otherwise, and no other entry changes.
     */
    method StoreWord(token: string) returns (stored: bool)
      requires Valid()
      modifies this
      ensures Valid()
      ensures stored <==> token != []
      ensures wordcount == if token != [] && !IsStopword(token) then Inc(old(wordcount), token) else old(wordcount)
      ensures stopwords == if token != [] && IsStopword(token) then Inc(old(stopwords), token) else old(stopwords)
      ensures ranking == old(ranking)
    {
      if token != [] {
        if !IsStopword(token) {
          wordcount := wordcount[token := Get(wordcount, token) + 1];
        } else {
          stopwords := stopwords[token := Get(stopwords, token) + 1];
        }
        return true;
      }
      return false;
    }

    /**
     * The inner token loop of `parse` for one line: every token is
     * normalised and counted, and its normal form is stored.
     */
    method ParseLine(words: seq<string>) returns (numWords: nat)
      requires Valid()
      modifies this
      ensures Valid()
      ensures numWords == |words|
      ensures wordcount == Tally(old(wordcount), ContentWords(Normalized(words)))
      ensures stopwords == Tally(old(stopwords), StopwordHits(Normalized(words)))
      ensures ranking == old(ranking)
    {
      numWords := 0;
      for k := 0 to |words|
        invariant Valid()
        invariant numWords == k
        invariant wordcount == Tally(old(wordcount), ContentWords(Normalized(words[..k])))
        invariant stopwords == Tally(old(stopwords), StopwordHits(Normalized(words[..k])))
        invariant ranking == old(ranking)
      {
        var transformedWord := TransformWord(words[k]);
        numWords := numWords + 1;
        var _ := StoreWord(transformedWord);
        NormalizedStep(words, k);
        StoreStep(old(wordcount), Normalized(words[..k]), transformedWord, IsContentWord);
        StoreStep(old(stopwords), Normalized(words[..k]), transformedWord, IsStopwordHit);
      }
      assert words[..|words|] == words;
    }

    /**
     * `parse` over the lines `readline` yields: every whitespace-split token
     * is counted in the total, and its normal form is stored.
     */
    method Parse(lines: seq<string>) returns (numWords: nat)
      requires Valid()
      modifies this
      ensures Valid()
      ensures numWords == |Tokens(lines)|
      ensures wordcount == Tally(old(wordcount), ContentWords(Normalized(Tokens(lines))))
      ensures stopwords == Tally(old(stopwords), StopwordHits(Normalized(Tokens(lines))))
      ensures ranking == old(ranking)
    {
      numWords := 0;
      for line := 0 to |lines|
        invariant Valid()
        invariant numWords == |Tokens(lines[..line])|
        invariant wordcount == Tally(old(wordcount), ContentWords(Normalized(Tokens(lines[..line]))))
        invariant stopwords == Tally(old(stopwords), StopwordHits(Normalized(Tokens(lines[..line]))))
        invariant ranking == old(ranking)
      {
        var words := Split(lines[line]);
        var n := ParseLine(words);
        numWords := numWords + n;
        StoreLine(old(wordcount), lines, line, IsContentWord);
        StoreLine(old(stopwords), lines, line, IsStopwordHit);
        TokensStep(lines, line);
      }
      assert lines[..|lines|] == lines;
    }

    /**
     * `rank`, from an empty `ranking`: every word of `wordcount` is appended
     * to the bucket of its count, so afterwards `ranking` inverts `wordcount`.
     */
    method Rank()
      requires Valid() && ranking == map[]
      modifies this
      ensures Valid()
      ensures wordcount == old(wordcount) && stopwords == old(stopwords)
      ensures RankingOf(ranking, wordcount)
    {
      var remaining := wordcount.Keys;
      while remaining != {}
        invariant remaining <= wordcount.Keys
        invariant wordcount == old(wordcount) && stopwords == old(stopwords)
        invariant forall c :: c in ranking ==> ranking[c] != []
        invariant forall c, i :: c in ranking && 0 <= i < |ranking[c]| ==>
          ranking[c][i] in wordcount && ranking[c][i] !in remaining && wordcount[ranking[c][i]] == c
        invariant forall c, i, j :: c in ranking && 0 <= i < j < |ranking[c]| ==> ranking[c][i] != ranking[c][j]
        invariant forall w :: w in wordcount && w !in remaining ==> wordcount[w] in ranking && w in ranking[wordcount[w]]
        decreases remaining
      {
        var word :| word in remaining;
        var count := wordcount[word];
        if count in ranking && ranking[count] != [] {
          ranking := ranking[count := ranking[count] + [word]];
        } else {
          ranking := ranking[count := [word]];
        }
        remaining := remaining - {word};
      }
    }

    /**
     * `create_printable_list_of_tuples`: one (count, word) tuple per word of
     * every bucket, sorted with `reverse=True`. The result is a permutation
     * of the items of `wordcount`, strictly decreasing in tuple order, so
     * equal counts come in descending word order.
     */
    method CreatePrintableListOfTuples() returns (result: seq<Entry>)
      requires RankingOf(ranking, wordcount)
      ensures forall e :: e in result <==> InRanking(e, ranking)
      ensures multiset(result) == multiset(Items(wordcount))
      ensures StrictlySortedBy(result, TupleGreater)
      ensures |result| == |wordcount|
    {
      result := [];
      var remaining := ranking.Keys;
      while remaining != {}
        invariant remaining <= ranking.Keys
        invariant NoDuplicates(result)
        invariant forall e :: e in result <==> InRanking(e, ranking) && e.count !in remaining
        decreases remaining
      {
        var count :| count in remaining;
        var wordList := ranking[count];
        for k := 0 to |wordList|
          invariant NoDuplicates(result)
          invariant forall e :: e in result <==>
            InRanking(e, ranking) && (e.count !in remaining || (e.count == count && e.word in wordList[..k]))
        {
          var e := Entry(count, wordList[k]);
          assert wordList[k] !in wordList[..k] by {
            assert forall j :: 0 <= j < k ==> wordList[j] != wordList[k];
          }
          result := result + [e];
          assert wordList[..k + 1] == wordList[..k] + [wordList[k]];
        }
        assert wordList[..|wordList|] == wordList;
        remaining := remaining - {count};
      }
      EntryOrders();
      var flat := result;
      result := Sort(flat, TupleGreater);
      forall e ensures e in result <==> e in flat {
        assert e in result <==> e in multiset(result);
        assert e in flat <==> e in multiset(flat);
      }
      SortedDistinct(result, TupleGreater);
      RankingItems(ranking, wordcount);
      NoDuplicatesPermutation(result, Items(wordcount));
      ItemsCard(wordcount);
    }
  }

  // ---------------------------------------------------------------- print_top_n_words and run

  /**
   * `print_top_n_words`: the total line, then one line for each of the first
   * `min(NUM_WORDS_TO_PRINT, len(result))` tuples, in result order.
   */
  method PrintTopNWords(totalWords: nat, result: seq<Entry>) returns (output: seq<string>)
    ensures |output| == 1 + (if |result| < NumWordsToPrint then |result| else NumWordsToPrint)
    ensures output[0] == TotalLine(totalWords)
    ensures forall i :: 1 <= i < |output| ==> output[i] == DetailLine(result[i - 1])
  {
    output := TopLines(totalWords, result, NumWordsToPrint);
  }

  /** What `run` produces for the lines of a file: the total, the ranked tuples and the report. */
  ghost predicate RunResult(lines: seq<string>, totalWords: nat, final: seq<Entry>) {
    totalWords == |Tokens(lines)|
    && multiset(final) == multiset(Items(WordCounts(Tokens(lines))))
    && StrictlySortedBy(final, TupleGreater)
  }

  /** `run` on fresh dictionaries: parse, rank, flatten and sort, report. */
  method Run(lines: seq<string>) returns (totalWords: nat, final: seq<Entry>, output: seq<string>)
    ensures RunResult(lines, totalWords, final)
    ensures |final| == |WordCounts(Tokens(lines))|
    ensures |output| == 1 + (if |final| < NumWordsToPrint then |final| else NumWordsToPrint)
    ensures output[0] == TotalLine(totalWords)
    ensures forall i :: 1 <= i < |output| ==> output[i] == DetailLine(final[i - 1])
  {
    var ranker := new WordRanker();
    totalWords := ranker.Parse(lines);
    ranker.Rank();
    final := ranker.CreatePrintableListOfTuples();
    output := PrintTopNWords(totalWords, final);
  }

  /** The pipeline is deterministic: the same lines give the same total and the same ranked tuples. */
  lemma RunDeterministic(lines: seq<string>, t1: nat, f1: seq<Entry>, t2: nat, f2: seq<Entry>)
    requires RunResult(lines, t1, f1) && RunResult(lines, t2, f2)
    ensures t1 == t2 && f1 == f2
  {
    EntryOrders();
    StrictlySortedUnique(f1, f2, TupleGreater);
  }

  /** Reading line by line counts the whitespace-split tokens of the whole text. */
  lemma RunCountsAllTokens(lines: seq<string>, totalWords: nat, final: seq<Entry>)
    requires LineTerminated(lines) && RunResult(lines, totalWords, final)
    ensures totalWords == |Split(Concat(lines))|
  {
    SplitLinesIsSplit(lines);
  }
}
