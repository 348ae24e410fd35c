# WordRank: a verified model of two word-frequency pipelines

The repository has two versions of one assignment. Each reads a text. Each
reduces its whitespace-split tokens to a total, and to a list of
`(count, word)` tuples ranked by count. Each prints the total and the leading
tuples.

- **WordRank2** (`WordRank2/portal.py`), the four-stage pipeline.
  - `transform_word` strips each token, lowercases it and deletes every punctuation character.
  - `isstopword` and `store_word` count the word in one of two dictionaries, `wordcount` or `stopwords`.
    The empty word is not stored, but `parse` still counts it in the total.
  - `rank` inverts `wordcount` into `count -> [word, ...]` buckets.
  - `create_printable_list_of_tuples` flattens the buckets into tuples and sorts them with `reverse=True`.
    Equal counts therefore come in descending word order.
  - `print_top_n_words` reports the total and the first ten tuples.
  - The module-level dictionaries are the fields of the class `WordRanker` (`wordrank2.dfy`).
    The functions that update them are its methods.
- **WordRank** (`WordRank/portal.py`), the earlier script.
  - It splits and lowercases only. There is no punctuation removal and no stopword list.
  - It counts into one dictionary and inverts it into buckets.
  - It sorts every bucket ascending and lists the buckets from the largest count down.
    Equal counts therefore come in ascending word order.
  - It reports the first five tuples (`wordrank.dfy`).

Each loop of the source is a method with its loop invariants. Each method is
proved against a specification function: `Normalize`, `Tally`, `Split`,
`Flattened`, `RankingOf`. The properties the programs promise are lemmas
about those functions.

Shared pieces:
- `text.dfy`: whitespace, `strip`, `lower`, `split` and character deletion.
- `counting.dfy`: count dictionaries as a fold over a word sequence, and their sum.
- `ordering.dfy`: string order, strict total orders, a sort and the uniqueness of strictly sorted sequences.
- `entries.dfy`: `(count, word)` entries, the inverted dictionary and the two tuple orders.
- `report.dfy`: the printed lines.

The input is the file's text as a string (WordRank) or as the sequence of
lines `readline` returns (WordRank2). The output is the sequence of lines
that would be printed.

## Model

| member | source | states |
|---|---|---|
| WordRank2.StopwordExact | WordRank2/portal.py:48-85 | The stopword test is exact membership: "the" and "with" are stopwords; "The", "the." and "" are not |
| WordRank2.DeleteListed | WordRank2/portal.py:113-115 | Replacing every occurrence of each listed character met in the word by nothing yields the word with exactly the listed characters deleted |
| WordRank2.TransformWord | WordRank2/portal.py:106-118 | The result is the stripped, lowercased token with every `puncList` character deleted |
| WordRank2.NormalizeFacts | WordRank2/portal.py:106-115 | A normalised token holds no punctuation and no uppercase letter, and keeps every other character of the stripped lowercase token as often as it occurred |
| WordRank2.NormalizeNoWhitespace | WordRank2/portal.py:109-115 | A whitespace-free token (any token `split` yields) normalises to a string with no whitespace, hence none at either end |
| WordRank2.NormalizeInnerSpace | WordRank2/portal.py:109-115 | A token with inner whitespace can gain outer whitespace: "! a" normalises to " a" |
| WordRank2.NormalizeIdempotent | WordRank2/portal.py:106-115 | Normalising a normal form again only strips it |
| WordRank2.NormalizeIdempotentOnTokens | WordRank2/portal.py:106-115 | On whitespace-free tokens normalising is idempotent |
| WordRank2.NormalizeEmpty | WordRank2/portal.py:106-115 | A whitespace-free token normalises to "" exactly when every character of it is punctuation |
| WordRank2.NormalizeDashes | WordRank2/portal.py:106-115 | "---" normalises to "" |
| WordRank2.NormalizePossessive | WordRank2/portal.py:113-115 | "Word's." normalises to "words": only the apostrophe and full stop go, the possessive `s` stays |
| WordRank2.LetterWordIsNormal | WordRank2/portal.py:106-115 | A word of lowercase letters is unchanged by normalising |
| WordRank2.WordRanker.constructor | WordRank2/portal.py:16-18 | The three dictionaries start empty |
| WordRank2.WordRanker.StoreWord | WordRank2/portal.py:131-139 | Returns true iff the token is non-empty; "" changes nothing; otherwise the token's entry goes up by exactly one (created at 1), in `stopwords` for a stopword and `wordcount` otherwise; nothing else changes and the key sets stay apart |
| WordRank2.WordRanker.ParseLine | WordRank2/portal.py:165-171 | One line's tokens are all counted in the returned number, and their normal forms are tallied into the right dictionary |
| WordRank2.WordRanker.Parse | WordRank2/portal.py:159-176 | Returns the number of whitespace-split tokens of all lines, empty normal forms included; the dictionaries end as the old ones plus the tallies of the content words and of the stopwords among the normal forms |
| WordRank2.ParseCounts | WordRank2/portal.py:131-171 | From empty dictionaries, every count is the number of tokens normalising to that key; `wordcount` keys are exactly the non-empty non-stopword normal forms, `stopwords` keys the stopword ones; the key sets are disjoint and every count is at least one |
| WordRank2.ParseTotal | WordRank2/portal.py:159-171 | The total equals both dictionaries' sums plus the number of tokens normalising to ""; so it is at least the sum of all counts |
| WordRank2.WordRanker.Rank | WordRank2/portal.py:185-189 | From an empty `ranking`, every bucket is non-empty, holds only words of that count and none twice, and every word of `wordcount` is in the bucket of its count; the dictionaries are unchanged |
| WordRank2.WordRanker.CreatePrintableListOfTuples | WordRank2/portal.py:218-224 | The result lists exactly the ranking's pairs; it is a permutation of the items of `wordcount`, strictly descending in tuple order (ties in descending word order), and as long as `wordcount` |
| WordRank2.PrintTopNWords | WordRank2/portal.py:235-237 | Exactly 1 + min(10, len(result)) lines: the total line, then line i names tuple i-1 |
| WordRank2.Run | WordRank2/portal.py:252-257 | On fresh dictionaries: the total is the token count, the result is the reverse-sorted permutation of the counted items, and the report is its first ten |
| WordRank2.RunDeterministic | WordRank2/portal.py:252-256 | Two runs on the same lines give the same total and the same list |
| WordRank2.RunCountsAllTokens | WordRank2/portal.py:164-165 | When the lines are as `readline` yields them, the total is the number of whitespace-split tokens of the whole text |
| Text.StripShape | WordRank2/portal.py:109 | `strip` removes exactly a whitespace prefix and a whitespace suffix and leaves no outer whitespace |
| Text.StripNoWhitespace | WordRank2/portal.py:109 | `strip` leaves a whitespace-free string as it is |
| Text.LowerFacts | WordRank/portal.py:28 | `lower` leaves no uppercase letter, keeps whitespace where it was, and changes nothing in a string with no uppercase letter |
| Text.DeleteAllAppend | WordRank2/portal.py:115 | Deleting characters works piecewise: the deletion of a concatenation is the concatenation of the deletions, so order is kept |
| Text.DeleteAllTwice | WordRank2/portal.py:115 | Deleting one set of characters and then another is deleting their union |
| Text.DeleteAllCount | WordRank2/portal.py:115 | A deleted character no longer occurs; every other character occurs as often as before |
| Text.Split | WordRank/portal.py:26 | Every token is non-empty and holds no whitespace |
| Text.SplitKeepsText | WordRank/portal.py:26 | Splitting loses only whitespace: the tokens, joined, are the text with its whitespace deleted |
| Text.SplitLinesIsSplit | WordRank2/portal.py:164-165 | Splitting line by line gives the tokens of the whole text, when every line but the last ends in whitespace |
| Counting.TallyCounts | WordRank/portal.py:34-37 | After counting, each word's count is its old count plus its number of occurrences, and the keys are the old keys plus the counted words |
| Counting.CountsFromEmpty | WordRank/portal.py:31-37 | Counting from empty gives exactly the words that occur, each with its number of occurrences, at least one |
| Counting.SumTally | WordRank/portal.py:31-37 | Counting n words raises the sum of the counts by n |
| Ordering.StrLessOrder | WordRank/portal.py:55 | Python's string `<` is a strict total order |
| Ordering.Sort | WordRank2/portal.py:222 | The result is sorted and a permutation of the input |
| Ordering.StrictlySortedUnique | WordRank2/portal.py:222 | Two strictly sorted permutations of the same values are equal |
| Ordering.Enumerate | WordRank2/portal.py:185 | Iterating over a dictionary visits every key exactly once |
| Entries.ItemsCard | WordRank2/portal.py:218-224 | There is one `(count, word)` item per word |
| Entries.RankingItems | WordRank2/portal.py:219-221 | The pairs an inverted dictionary lists are exactly the dictionary's items |
| Entries.RankingUnique | WordRank/portal.py:46-51 | In an inverted dictionary each word is in exactly one bucket, the one of its count, at exactly one position |
| Entries.EntryOrders | WordRank2/portal.py:222 | Both tuple orders, reverse tuple order and count-descending-word-ascending, are strict total orders |
| Report.NatToStringRoundTrip | WordRank2/portal.py:235 | The printed decimal digits of a count read back as that count |
| Report.TopLines | WordRank/portal.py:72-74 | Exactly 1 + min(n, len(result)) lines, the total first, then the leading tuples in result order |
| WordRank.CountWords | WordRank/portal.py:31-37 | The total is the number of words, and the dictionary is the count of each word |
| WordRank.ScriptCounts | WordRank/portal.py:26-37 | The keys are exactly the lowercased tokens and hold no uppercase letter; each count is the number of tokens lowercasing to the key, at least one; the counts add up to the total |
| WordRank.BuildRanking | WordRank/portal.py:46-51 | Every bucket is non-empty, holds only words of that count and none twice, and every word is in the bucket of its count |
| WordRank.SortBuckets | WordRank/portal.py:54-55 | The same counts; every bucket becomes a sorted permutation of itself |
| WordRank.SortedBucketsRanking | WordRank/portal.py:46-55 | After sorting, the buckets still invert the dictionary, and each is strictly ascending |
| WordRank.SortedCounts | WordRank/portal.py:67 | The counts of the ranking, each once, strictly descending |
| WordRank.AppendBucket | WordRank/portal.py:68-69 | Appends one tuple per word of the bucket, in bucket order |
| WordRank.FlattenedMembers | WordRank/portal.py:67-69 | The flattened list holds exactly the pairs of the visited buckets |
| WordRank.FlattenedSorted | WordRank/portal.py:67-69 | Visiting the counts in descending order, with ascending buckets, lists the pairs by count descending and then by word ascending |
| WordRank.Flatten | WordRank/portal.py:67-69 | The result lists exactly the ranking's pairs; with sorted buckets it is strictly ordered by count descending, with ties by word ascending |
| WordRank.Run | WordRank/portal.py:26-74 | The total is the token count; the result is a permutation of the counted items, ordered by count descending and word ascending, with one entry per word; the report has 1 + min(5, len(result)) lines |
| WordRank.ScriptDeterministic | WordRank/portal.py:26-69 | The same text gives the same total and the same list |

## Left out

- Command-line handling (`argv`, `usage`, `exit`/`sys_exit`) is not modelled. It is glue around the pipelines.
- File I/O is not modelled: `open`, `read`, `readline` and the `FileNotFoundError` branch with its message.
  WordRank takes the file's text as a string; WordRank2 takes the lines `readline` would return.
- Printing is not modelled. The output is the sequence of lines that would be printed.
- Unicode case mapping and whitespace are not modelled.
  - `lower` maps only `A`–`Z`.
  - `strip` and `split` use the ASCII whitespace characters (space, tab, newline, vertical tab, form feed, carriage return) and the four ASCII separators U+001C–U+001F.
  - The curly quotes U+201C and U+201D are plain members of the punctuation set.
- The iteration order of a Python dictionary is not modelled. Keys are chosen one at a time by an unspecified choice, and each is visited once.
  Every result that is returned is sorted, so the order does not show in it.
- Sort stability is not modelled. Both sorts order values without ties (distinct words, distinct counts), so every sorted permutation is the same list.
- `get_count` (WordRank/portal.py:62-63) is not a member of its own. The script sorts `(count, bucket)` items by count, and counts are distinct keys, so the model sorts the counts with `Greater`.
- WordRank2.WordRanker.Rank: requires an empty `ranking`. The globals are never reset, so a second `rank()` would append every word again; repeated runs are not modelled.
- WordRank2.WordRanker.CreatePrintableListOfTuples: requires that `ranking` inverts `wordcount`, as `rank` leaves it, rather than working from any `ranking`.
- WordRank2.StopwordExact: it checks examples only. Nothing proves that the stopword set has exactly 33 members; the 33 words are written out as in the source.
- WordRank2.NormalizeNoWhitespace: "no leading or trailing whitespace" holds only for tokens without whitespace. In general it fails, as `NormalizeInnerSpace` shows. `parse` only passes such tokens.
- WordRank2.NormalizeIdempotent: normalising twice equals normalising once only up to a final `strip`. It is plain idempotence on whitespace-free tokens (`NormalizeIdempotentOnTokens`).
- The docstring of `transform_word` (WordRank2/portal.py:93-94) promises removal of a trailing `'s`, but the code does not do it. The model does what the code does: the apostrophe is deleted as punctuation and the `s` stays (`NormalizePossessive`).
