# TwitGrep core, modelled in Dafny

TwitGrep scores short texts, such as tweets, with an n-gram table. The text
is normalised, cut into sentences, and each sentence is cut into words. The
words give sliding n-grams of every order from `min_n` to `max_n`.

- **Training** (`set_sentence_value`) appends a score to a list kept under
  each n-gram's string.
- **Scoring** (`get_sentence_value`) averages the stored lists. Each mean is
  weighted by the n-gram's order, and the weighted means are averaged again.
  When nothing matches, the score is 0.

Besides the scorer, the repository has two bag-of-words structures and a
stand-alone n-gram value type. This project models these parts:

| file | module | models |
|---|---|---|
| `wrappers.dfy` | `Wrappers` | `Option`, `Result`, and the Python exceptions the core can raise (`IndexError`, `ZeroDivisionError`, `TypeError`, `UnboundLocalError`) |
| `pystr.dfy` | `PyStr` | the Python `str` operations the core relies on: `lower` (ASCII), `isspace`, `strip`, `rstrip(ch)`, `replace`, `split(sep)`, `join`, `in` and `list.count`, with their algebra (join/split round trips, what strip and replace leave behind) |
| `text.dfy` | `Text` | text.py: `Word`, the normaliser, `split_sentences`, `split_sentence`, `normalize_and_split_sentences`, `NGram` and `make_ngrams` |
| `textmatrix.dfy` | `TextMatrix` | text.py's `set_sentence_value` and `get_sentence_value` over an `array` of dictionaries from n-gram string to list of scores, updated in place |
| `ngrammatrix.dfy` | `TwitgrepNGramMatrix` | twitgrep/ngrammatrix.py: the `NGramMatrix` class with its overridable `add_data` hook, and how it relates to text.py's table. The file imports nothing; the model uses text.py's `make_ngrams` and `split_sentence` for the names it calls |
| `bagofwords.dfy` | `BagOfWords` | bag_of_words.py: the ordered, de-duplicated, lower-cased word list and its frequency vectors |
| `twitgrep_bagofwords.dfy` | `TwitgrepBagOfWords` | twitgrep/bag_of_words.py: the word-to-count dictionary, kept in insertion order, and its stable sort by count |
| `ngram.dfy` | `NGrams` | ngram.py: `NGram` and `ValueNGram` over lists of strings, and the `%d` rendering of the value |

Loops of the source are modelled as methods with loop invariants. Each
method's result or new state is tied to a specification function, and the
properties are proved about those functions as lemmas.

Objects that update their own fields are classes with `modifies` clauses:
- the two bags;
- `NGramMatrix`;
- in text.py, the caller's table, which is an `array` of maps.

Python exceptions are `Err` results. The exception is `AttributeError` on an
n-gram built from an empty list. Preconditions exclude those paths instead (see
"Left out").

- Scores are integers and averages are exact `real` numbers.
- `str.lower` maps only `A`–`Z`.
- `str.isspace` is the exact set of code points Python treats as whitespace.

Where the code and its documentation disagree, the model follows the code:
- `normalize` is not idempotent. Deleting a `,` can leave two spaces in a row, which a second pass collapses ("a , b" becomes "a  b", then "a b"). `Text.NormalizeNotIdempotent` proves this. `Text.NormalizeIdempotent` proves idempotence for the inputs where it does hold.
- `remove_junk_chars` deletes only `,`, `:` and `;`. It does not delete `(` or `)`.
- twitgrep/bag_of_words.py does no lower-casing, although its docstring says it does (`TwitgrepBagOfWords.NoCaseFolding`).
- Lines 135-136 of text.py discard their results. So `split_sentences` does not turn `!` or `?` into `.`; only `normalize` does, beforehand.
- An empty word raises `IndexError` in `Word.__init__` (`word_text[0]`). So a sentence with an empty part, such as `""` or one with two spaces in a row, makes both `set_sentence_value` and `get_sentence_value` raise.
- In twitgrep/ngrammatrix.py, `avg` is assigned inside the loop over the stored list. A stored empty list therefore reuses the `avg` of an earlier n-gram, or raises `UnboundLocalError` when there is none. text.py raises `ZeroDivisionError` in the same situation (`TwitgrepNGramMatrix.StaleAverageAt`).
- The docstring of `sorted_matrix` in twitgrep/bag_of_words.py (lines 50-51) says the order is by descending frequency. The default `reverse=False` (lines 62-64) sorts ascending, as the doctest output shows. The model sorts ascending by default (`TwitgrepBagOfWords.DocSortedMatrix`).

## Model

| member | source | states |
|---|---|---|
| Text.NewWord | text.py:52-70 | with no explicit type: a text containing "://" is a URL; otherwise a first `@` gives a username, with `keep_case` then defaulting to true; otherwise `#` gives a tag, and anything else a plain word; an explicit type is kept; the text is lower-cased unless `keep_case` is true; the result is an IndexError exactly when no type is given and the text is empty |
| Text.WordEqualityIgnoresType | text.py:81-85 | two words with the same text compare equal whatever their types, although the words themselves differ exactly when the types do |
| Text.FoldedWordEquality | text.py:52-85 | two words whose case is folded compare equal exactly when their texts are equal ignoring case, whatever types were given or inferred |
| Text.UsernameEquality | text.py:52-85 | two inferred usernames with the default `keep_case` compare equal exactly when their texts are equal, case included |
| Text.DocWordEquality | text.py:38-44 | `Word("hello") == Word("there")` is false and `Word("hello") == Word("hello")` is true |
| Text.UnifySentenceDividers | text.py:110-117 | the length is kept; every `!` and `?` becomes `.`; every other character is unchanged |
| Text.RemoveJunkChars | text.py:120-127 | the result is the text with exactly the characters `,` `:` `;` deleted, in order |
| Text.NormalizeWhitespaceChars | text.py:188-194 | the output holds no LF, CR or tab, and each of its characters is a space or a character of the input |
| Text.CompactPartsClean | text.py:192 | parts with no whitespace, after the filter and strip, are all non-empty and whitespace-free |
| Text.CompactPartsKeepsClean | text.py:192 | parts that are already clean pass the filter and strip unchanged |
| Text.NormalizeWhitespaceWellSpaced | text.py:172-194 | when the only whitespace in the input is space, tab, CR or LF: the output has no space at either end, never two spaces in a row, no LF/CR/tab, and its only whitespace is the space |
| Text.NormalizeWhitespaceOfJoin | text.py:188-194 | clean parts joined by single spaces are a fixed point of `normalize_whitespace` |
| Text.NormalizeWhitespaceIdempotent | text.py:172-194 | `normalize_whitespace` is idempotent on text with plain whitespace |
| Text.NormalizeChars | text.py:99-127 | the output of `normalize` contains none of `!` `?` `,` `:` `;`, LF, CR or tab |
| Text.NormalizeAfterSpacing | text.py:103-105 | if the whitespace-normalised text has no `!` or `?`, `normalize` only deletes the junk characters from it |
| Text.NormalizeOfSettledJoin | text.py:99-107 | non-empty parts without whitespace, dividers other than `.`, or junk, joined by single spaces, are a fixed point of `normalize` |
| Text.NormalizeIdempotent | text.py:99-107 | `normalize` is idempotent on text whose only whitespace is space/tab/CR/LF and that contains no junk character |
| Text.NormalizeCommaExample | text.py:99-107 | `normalize("a , b")` is "a  b", with two spaces |
| Text.NormalizeDoubleSpaceExample | text.py:99-107 | `normalize("a  b")` is "a b" |
| Text.NormalizeNotIdempotent | text.py:99-107 | a second `normalize` can change the text: this holds for "a , b" |
| Text.SplitSentences | text.py:130-141 | `split_sentences` always returns at least one sentence |
| Text.SplitSentencesAt | text.py:134-139 | there is one sentence per piece of the whitespace-normalised text cut at ". "; sentence k is piece k stripped, and the last one also loses its trailing dots |
| Text.SplitSentencesFree | text.py:137-139 | no sentence contains ". " |
| Text.SplitSentencesTrimmed | text.py:137 | every sentence but the last has no whitespace at either end |
| Text.SplitSentencesShape | text.py:134-141 | no sentence contains ". ", all but the last are trimmed, and the last does not end in `.` |
| Text.SplitSentencesSingle | text.py:134-139 | a text whose normalised form has no ". " is a single sentence: that form stripped, without trailing dots |
| Text.SplitSentencesChars | text.py:134-137 | every character of a sentence is a space or a character of the text |
| Text.SentencesAvoid | text.py:134-139 | a character other than the space that is absent from the text is absent from every sentence |
| Text.NormalizeAndSplitSentences | text.py:155-169 | the result always holds at least one sentence |
| Text.NormalizeAndSplitSentencesChars | text.py:166-167 | no sentence holds `!`, `?`, a junk character, LF, CR or tab |
| Text.WordsOfOk | text.py:148-152 | the word list is made exactly when no part is empty, one word per part in order; otherwise an IndexError is raised |
| Text.SplitSentence | text.py:144-152 | the result is the words of the space-separated parts, or the IndexError of the first empty part |
| Text.SplitSentenceEmpty | text.py:144-152 | `split_sentence("")` raises IndexError |
| Text.SplitNormalizedSentence | text.py:144-152 | a non-empty whitespace-normalised text always splits into words, one per normalised part |
| Text.Len | text.py:234-235 | the length of an n-gram is its number of words, at least 1 |
| Text.ToString | text.py:240-246 | the result is the word texts joined by single spaces, with outer whitespace stripped |
| Text.Equals | text.py:248-256 | the result is true exactly when the lengths agree and the words are equal position by position, which is exactly when the word texts agree |
| Text.SameWordsSameKey | text.py:240-256 | equal n-grams have the same string, so they share a table key |
| Text.SplitKey | text.py:240-246 | clean word texts can be read back from the n-gram string by splitting it at spaces |
| Text.KeyDeterminesWords | text.py:240-256 | when no word text is empty or holds whitespace, equal strings mean equal n-grams |
| Text.KeyCollision | text.py:240-256 | word texts containing spaces can give two unequal n-grams the same string |
| Text.Windows | text.py:262-272 | there are `max(0, len(words) - n + 1)` n-grams |
| Text.MakeNGrams | text.py:259-272 | the result is the sliding windows of `n` words, left to right, each of length `n` |
| Text.WindowsAt | text.py:266-269 | the i-th n-gram is the slice `words[i:i + n]` |
| TextMatrix.OrderKeys | text.py:280-283 | an order has `max(0, len(words) - n + 1)` keys |
| TextMatrix.RecordAt | text.py:283-291 | after one order is recorded, the list under each key is the old list (or `[]`) followed by one copy of the value per occurrence of that key |
| TextMatrix.RecordKeys | text.py:283-291 | recording adds exactly the recorded keys to the dictionary |
| TextMatrix.RecordGrows | text.py:283-291 | recording only appends: the old list is a prefix of the new one |
| TextMatrix.RecordGrams | text.py:283-291 | the inner loop gives the row with the value appended under each n-gram's string in turn |
| TextMatrix.RecordOrder | text.py:281-291 | an order with no n-grams changes nothing; an order with n-grams but no row raises IndexError and changes nothing; otherwise that row is recorded and the others are unchanged |
| TextMatrix.TrainWords | text.py:279-291 | the table after the outer loop, and the exception raised if any, are those of the order-by-order specification |
| TextMatrix.SetSentenceValue | text.py:275-291 | the table is updated in place as training specifies; an exception leaves the updates of the earlier orders in place |
| TextMatrix.TrainFrame | text.py:279 | training keeps the number of orders and leaves the rows outside `min_n..max_n` unchanged |
| TextMatrix.TrainAppendOnly | text.py:286-291 | every stored list only grows at its end |
| TextMatrix.RecordKeepsListsNonEmpty | text.py:286-291 | a key that recording creates holds a non-empty list |
| TextMatrix.TrainKeepsListsNonEmpty | text.py:279-291 | when every stored list is non-empty before training, every one is non-empty after it |
| TextMatrix.TrainSucceeds | text.py:279-291 | training raises nothing when every order in `min_n..max_n` has a row |
| TextMatrix.TrainRecords | text.py:279-291 | for each order in range, the list under a key grows by one copy of the value per occurrence of that key among that order's n-grams |
| TextMatrix.TrainEmptyPart | text.py:279-280 | a sentence with an empty part raises IndexError and leaves the table unchanged |
| TextMatrix.SumScores | text.py:309-310 | the loop computes the sum of the list |
| TextMatrix.SumContributions | text.py:322 | the loop computes the sum of the contributions |
| TextMatrix.AverageOf | text.py:321-324 | the result is the mean of the contributions, or 0 when there are none |
| TextMatrix.KeyContribution | text.py:308-317 | a found list contributes its mean times `n`; an empty list raises ZeroDivisionError |
| TextMatrix.ScoreKeys | text.py:303-319 | one order's contributions, in key order: missing keys are skipped, and the first empty list stops with ZeroDivisionError |
| TextMatrix.ScoreNGrams | text.py:303-319 | as `ScoreKeys`, except that an order with n-grams but no row raises IndexError |
| TextMatrix.ScoreOrder | text.py:300-319 | one pass of the outer loop: the contributions of the order-`n` n-grams made from the words |
| TextMatrix.ScoreWords | text.py:300-319 | the outer loop gives the contributions of orders `min_n..max_n` in order, or the first exception |
| TextMatrix.GetSentenceValue | text.py:294-328 | the result is the average of the weighted means of the matched n-grams (0 when none match), or the exception raised |
| TextMatrix.OrderContributionsMissing | text.py:318-319 | keys missing from the row contribute nothing |
| TextMatrix.EmptyRowsContributeNothing | text.py:300-319 | a table with empty rows contributes nothing, unless an exception is raised |
| TextMatrix.EmptyTableScoresZero | text.py:321-324 | a table with empty rows, such as a fresh one, scores every sentence 0, unless an exception is raised |
| TextMatrix.NoMatchesContributeNothing | text.py:300-319 | when no n-gram of the orders is found in its row, the orders contribute no value and raise nothing |
| TextMatrix.NoMatchScoresZero | text.py:298-324 | a table, fresh or trained, in which no n-gram of the sentence is found scores the sentence 0; the one exception is a sentence with an empty part, which raises IndexError |
| TextMatrix.RecordedContributions | text.py:303-317 | keys recorded into an empty row with value v each contribute exactly `v * n` |
| TextMatrix.TrainThenScore | text.py:275-328 | training an empty table on a sentence's words at one order `n` and then scoring them at that order gives `value * n`, when there are at least `n` words |
| TwitgrepNGramMatrix.StoreUntouched | twitgrep/ngrammatrix.py:25-34 | a key the order does not produce keeps its presence and its content |
| TwitgrepNGramMatrix.StoreTouched | twitgrep/ngrammatrix.py:25-34 | a key produced k times holds `add_data` applied k times to its previous content (`[]` when absent) |
| TwitgrepNGramMatrix.SumAndAverage | twitgrep/ngrammatrix.py:58-61 | the loop returns the sum of the list; the `avg` it reassigns is the mean at loop exit, or the old `avg` when the list is empty |
| TwitgrepNGramMatrix.Contribute | twitgrep/ngrammatrix.py:56-66 | a found cell contributes `avg * n`; a stored `None` raises TypeError; an empty list reuses the earlier `avg`, or raises UnboundLocalError when there is none |
| TwitgrepNGramMatrix.NGramMatrix.constructor | twitgrep/ngrammatrix.py:10-16 | `min_n`, `max_n` and the hook are stored unchanged, and the matrix holds `max_n + 1` empty dictionaries |
| TwitgrepNGramMatrix.NGramMatrix.StoreNGrams | twitgrep/ngrammatrix.py:25-34 | row `n` holds `add_data(previous or [], data)` stored under each n-gram's string in turn; the other rows are unchanged |
| TwitgrepNGramMatrix.NGramMatrix.StoreOrder | twitgrep/ngrammatrix.py:22-34 | one pass of the outer loop stores the order-`n` n-grams of the words in row `n` |
| TwitgrepNGramMatrix.NGramMatrix.StoreWords | twitgrep/ngrammatrix.py:22-34 | the outer loop stores each order `min_n..max_n` in its row |
| TwitgrepNGramMatrix.NGramMatrix.SetSentenceValue | twitgrep/ngrammatrix.py:18-34 | the new matrix and any exception are those of the storing specification; a sentence with an empty part raises IndexError before anything is stored |
| TwitgrepNGramMatrix.NGramMatrix.ScanNGrams | twitgrep/ngrammatrix.py:52-68 | the inner loop skips missing keys and adds `avg * n` for each found one, stopping at the first exception |
| TwitgrepNGramMatrix.NGramMatrix.ScanOrder | twitgrep/ngrammatrix.py:49-68 | one pass of the outer loop scans the order-`n` n-grams of the words |
| TwitgrepNGramMatrix.NGramMatrix.ScanWords | twitgrep/ngrammatrix.py:49-68 | the outer loop scans orders `min_n..max_n` in turn, carrying `all_values` and `avg` across them |
| TwitgrepNGramMatrix.NGramMatrix.GetSentenceValue | twitgrep/ngrammatrix.py:43-75 | the result is the mean of `all_values`, or 0 when it is empty, or the exception raised |
| TwitgrepNGramMatrix.StoreOrdersFrame | twitgrep/ngrammatrix.py:22 | rows outside `min_n..max_n` are never written |
| TwitgrepNGramMatrix.StoreOrdersAt | twitgrep/ngrammatrix.py:22-34 | each row in range is that order's keys stored into the old row |
| TwitgrepNGramMatrix.StoreSentenceAt | twitgrep/ngrammatrix.py:18-34 | after storing: a key produced k times at order m holds `add_data` applied k times to its previous content; every other key of that row is unchanged |
| TwitgrepNGramMatrix.StoreSentenceFrame | twitgrep/ngrammatrix.py:22 | storing keeps the number of rows and leaves the rows outside `min_n..max_n` unchanged |
| TwitgrepNGramMatrix.IterateBase | twitgrep/ngrammatrix.py:36-41 | the base `add_data`, applied one or more times, gives `None` |
| TwitgrepNGramMatrix.BaseHookStoresNone | twitgrep/ngrammatrix.py:33-41 | with the base `add_data`, every key that a sentence touches holds `None` |
| TwitgrepNGramMatrix.BaseHookThenScoreFails | twitgrep/ngrammatrix.py:33-68 | scoring a sentence just stored with the base `add_data` raises TypeError, when the sentence has at least `min_n` words |
| TwitgrepNGramMatrix.EmptyMatrixScoresZero | twitgrep/ngrammatrix.py:70-75 | a matrix of empty dictionaries, such as a fresh one, scores every sentence 0; the one exception is a sentence with an empty part, which raises IndexError |
| TwitgrepNGramMatrix.MatrixAgreesWithTextModel | twitgrep/ngrammatrix.py:43-75 | while every stored list is non-empty, the class scores a sentence exactly as text.py's `get_sentence_value` does on the same lists |
| TwitgrepNGramMatrix.StaleAverageAt | twitgrep/ngrammatrix.py:56-64 | for any row and any earlier state: a found n-gram whose stored list is empty appends the previous n-gram's `avg`, weighted, and keeps that `avg`, or raises UnboundLocalError when there is none; text.py's table raises ZeroDivisionError on the same list |
| TwitgrepNGramMatrix.StaleAverage | twitgrep/ngrammatrix.py:58-61 | an example: with `[4]` stored before it, an empty list scores 4 again; alone it raises UnboundLocalError; text.py raises ZeroDivisionError |
| TwitgrepNGramMatrix.ScanKeysMissing | twitgrep/ngrammatrix.py:52-68 | keys that are all missing from the dictionary leave `all_values` and `avg` as they were |
| TwitgrepNGramMatrix.ScanOrdersMissing | twitgrep/ngrammatrix.py:49-68 | when no n-gram of the orders is found, the scan leaves `all_values` and `avg` as they were |
| TwitgrepNGramMatrix.NoMatchScoresZero | twitgrep/ngrammatrix.py:49-75 | a matrix, fresh or trained, in which no n-gram of the sentence is found scores the sentence 0; the one exception is a sentence with an empty part, which raises IndexError |
| BagOfWords.AddAllSettled | bag_of_words.py:62-65 | every stored word stays lower-case, and no word appears twice |
| BagOfWords.AddAllExtends | bag_of_words.py:62-65 | existing words are never removed or reordered: the old bag is a prefix of the new one |
| BagOfWords.AddAllElements | bag_of_words.py:62-65 | the bag holds exactly the old words and the lower-cased new ones |
| BagOfWords.AddAllPresent | bag_of_words.py:64-65 | adding words whose lower-case forms are all in the bag leaves it unchanged |
| BagOfWords.AddAllIdempotent | bag_of_words.py:62-65 | adding the same list twice gives the bag adding it once gives |
| BagOfWords.AddAllConcat | bag_of_words.py:48-65 | two calls of `add_words` give the bag that one call with both lists gives |
| BagOfWords.SizeCountsDistinct | bag_of_words.py:106-118 | `len` of a bag built from a list is the number of distinct lower-cased words in it |
| BagOfWords.FrequencyVecAt | bag_of_words.py:75-80 | the vector has one entry per bag word; entry i counts the bag's i-th word in `in_words` |
| BagOfWords.BagOfWords.constructor | bag_of_words.py:37-46 | with `None` the bag is empty; with a list it is that list added to an empty bag |
| BagOfWords.BagOfWords.AddWords | bag_of_words.py:48-65 | the new word list is the old one with each new lower-cased word appended in first-seen order; the bag stays lower-case and duplicate-free |
| BagOfWords.BagOfWords.GenFrequencyVec | bag_of_words.py:67-80 | the bag is unchanged; the result has length `len(bag)`, and entry i is the number of occurrences of word i in `in_words`, which is not lower-cased |
| BagOfWords.BagOfWords.Size | bag_of_words.py:106-118 | `len(bag)` is the number of distinct words in the bag |
| BagOfWords.DocBunch | bag_of_words.py:17-19 | `BagOfWords(["A", "bunch", "of", "words"])` holds `['a', 'bunch', 'of', 'words']` |
| BagOfWords.DocMoreWords | bag_of_words.py:23-25 | then adding `["Some", "more", "words"]` appends only "some" and "more" |
| BagOfWords.FrequencyIgnoresUpperCase | bag_of_words.py:77-78 | for any bag, adding a word with an upper-case letter to `in_words` leaves the frequency vector unchanged |
| BagOfWords.FrequencyIsCaseSensitive | bag_of_words.py:77-78 | an example: "Some" is not counted as "some" |
| TwitgrepBagOfWords.TallyWellFormed | twitgrep/bag_of_words.py:40-47 | the keys stay distinct and the same as the dictionary's, and every stored count is at least 1 |
| TwitgrepBagOfWords.TallyCounts | twitgrep/bag_of_words.py:40-47 | each count becomes the old count (0 when absent) plus the word's occurrences in the list |
| TwitgrepBagOfWords.TallyExtends | twitgrep/bag_of_words.py:40-47 | keys are only added, at the end of the insertion order |
| TwitgrepBagOfWords.TallyKeySet | twitgrep/bag_of_words.py:40-47 | the keys afterwards are the old keys together with the words of the list |
| TwitgrepBagOfWords.SizeCountsDistinct | twitgrep/bag_of_words.py:77-87 | `len` of a bag built from a list is the number of distinct words in it |
| TwitgrepBagOfWords.NoCaseFolding | twitgrep/bag_of_words.py:40-47 | "A" and "a" are counted as two different words |
| TwitgrepBagOfWords.SortPermutes | twitgrep/bag_of_words.py:62-64 | the sort is a permutation of the keys |
| TwitgrepBagOfWords.SortOrdered | twitgrep/bag_of_words.py:62-64 | the sort is non-decreasing by count, or non-increasing with `reverse` |
| TwitgrepBagOfWords.SortStable | twitgrep/bag_of_words.py:62-64 | keys with equal counts keep their insertion order, in either direction |
| TwitgrepBagOfWords.BagOfWords.constructor | twitgrep/bag_of_words.py:23-28 | with `None` the dictionary is empty; with a list it is that list counted into an empty one |
| TwitgrepBagOfWords.BagOfWords.AddWords | twitgrep/bag_of_words.py:30-47 | the new dictionary is the old one with each word's count increased by one per occurrence; a new key goes to the end of the order |
| TwitgrepBagOfWords.BagOfWords.Size | twitgrep/bag_of_words.py:77-87 | `len(bag)` is the number of keys |
| TwitgrepBagOfWords.BagOfWords.SortedMatrix | twitgrep/bag_of_words.py:49-65 | each key appears exactly once, paired with its count; the pairs are ordered by count in the requested direction; equal counts keep insertion order; the bag is unchanged |
| TwitgrepBagOfWords.DocCounts | twitgrep/bag_of_words.py:52-54 | adding "some silly words", then "some silly", then "some" counts some 3, silly 2, words 1 |
| TwitgrepBagOfWords.DocSortedMatrix | twitgrep/bag_of_words.py:55-59 | those counts sort to words 1, silly 2, some 3 |
| NGrams.JoinWords | ngram.py:39-45 | the loop gives the words joined by single spaces, outer whitespace stripped; clean words split back out of it |
| NGrams.NGram.constructor | ngram.py:27-31 | a non-empty list is stored as given |
| NGrams.NGram.Len | ngram.py:33-34 | `len(ngram)` is the number of words supplied, at least 1 |
| NGrams.NGram.ToString | ngram.py:39-45 | `str(ngram)` is the words joined by single spaces, outer whitespace stripped |
| NGrams.DigitsRoundTrip | ngram.py:67 | the decimal digits of a natural number are digits with no leading zero, and they read back as the number |
| NGrams.DecimalRoundTrip | ngram.py:67 | the `%d` rendering of an integer reads back as that integer |
| NGrams.ValueNGram.constructor | ngram.py:59-61 | the inherited `NGram` part is built from the words, and the value defaults to 0 |
| NGrams.ValueNGram.ToString | ngram.py:66-67 | the result is the inherited `NGram` string, then ": ", then the value in decimal |
| NGrams.DocValueNGram | ngram.py:52-56 | `ValueNGram(["some", "words"], value=3)` renders as "some words: 3" |

## Left out

- Console output: the `print` in `get_sentence_value` (text.py:326) and the error message of the base `add_data` (twitgrep/ngrammatrix.py:41).
- Floating point: averages are exact rationals, so IEEE rounding of Python's `/` is not modelled.
- Unicode case mapping: `str.lower` is modelled on `A`–`Z` only.
- The `__repr__` methods of every class, which are display strings. twitgrep/bag_of_words.py:75 would raise anyway, because it calls the dictionary.
- The bags' `__str__`, which shows Python's list and dict display.
- `demo()` in text.py, the empty `Sentence` class, and the doctest runners.
- The stop-word stage `remove_words`: twitgrep/text.py is not part of this model.
- The doctests of `normalize_and_split_sentences`, `normalize_whitespace` and `gen_frequency_vec` are not restated as lemmas. The general properties above cover what they show.
- The broken `NGram` doctest of ngram.py (`Word` is undefined there, and the expected output is wrong) is not restated.
- Text.MakeNGrams: requires `n >= 1`. The source's loop with `n <= 0` builds empty or negatively indexed slices, which is not modelled.
- TextMatrix.SetSentenceValue: requires `min_n >= 1`, because orders below 1 would need `make_ngrams` with `n <= 0`. The same holds for `GetSentenceValue` and the `NGramMatrix` methods.
- NGrams.NGram.constructor: requires a non-empty list. With an empty or falsy list the source leaves `self.words` unset, and every later use raises `AttributeError`. The same holds for `NGrams.ValueNGram.constructor`.
- Text.ToString: requires at least one word. For an empty list, text.py:228-232 never sets `self.words`, so `__str__`, `__len__` and `__eq__` raise `AttributeError`. `make_ngrams` builds such n-grams only for `n <= 0`, which `Text.MakeNGrams` excludes. The same holds for `Text.Len` and `Text.Equals`.
- NGrams.ValueNGram.ToString: the value is an integer. `%d` applied to a float, which truncates, is not modelled.
- The `add_data` hook is any function from (cell, score) to cell, where a cell is `None` or a list of integer scores. Hooks that return other kinds of objects are not modelled.
- Hook side effects: a Python `add_data` could mutate the list it is given in place, and a list object could be shared between keys. Cells are modelled as values, so this aliasing is not captured.
- The source calls `split_sentence` again on every pass of the outer loop. The model splits once, which gives the same words. When the loop is empty, the model does not split at all, just as the source does not.
- text.py's table is modelled as holding lists of integer scores only. Other objects stored under a key by other code are not modelled.
- Aliasing in text.py's table: its rows and lists are values. A caller that shares one dictionary between orders (`[{}] * (max_n + 1)`) or one list between keys would see an in-place `append` appear in several places. That is not captured.
- Missing imports: twitgrep/ngrammatrix.py imports nothing, so as written `make_ngrams` and `split_sentence` raise `NameError`. The model calls text.py's functions of those names instead.
- Division: `value_sum / len(values)` and `sum(all_values) / len(all_values)` in twitgrep/ngrammatrix.py are taken as Python 3 true division. The file's shebang names `python`, and under Python 2 these would floor-divide integers.
- `ValueNGram` inherits `__len__` from `NGram`; the model reaches it as `gram.Len()` rather than declaring it again.
