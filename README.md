# Sentiment analyzer — a Dafny model

This project models the core of a small Naive-Bayes-style sentiment
analyzer, the PHP class `SentimentAnalysis\Analyzer`. An analyzer holds:

- a list of class labels (`positive`, `negative`, `neutral`);
- a dictionary from token to label to count, seeded from one word list per label;
- an ignore list;
- a list of negation words.

To score a sentence, the analyzer takes these steps:

1. It fuses each negation word with the word after it ("not good" becomes
   "notgood").
2. It tokenizes the sentence: CRLF to space, ASCII lower-case, split on single
   spaces.
3. For each class it multiplies `count + 1` over the valid tokens.
4. `classify` returns the label of the top score. Ties go to the earliest
   label, because PHP 8's `arsort` is stable.

The model has four modules, one per file:

- `PhpStrings` (`strings.dfy`): the PHP string built-ins the analyzer calls,
  over byte strings. These are `strpos`, `str_replace`, `strtolower`,
  `explode` on a space, and `trim`. The analyzer never calls `implode`; its
  model `Join` is only a specification device, the inverse against which
  `explode`'s round trip is stated.
- `PhpArrays` (`arrays.dfy`): PHP arrays used as ordered string-keyed maps.
  These are `$t[$k] = $v`, a stable `arsort`, and the first position of the
  largest value.
- `Sentiment` (`sentiment.dfy`): the analyzer's logic as pure functions, with
  lemmas about them. It covers negation fusion, tokenisation, the token
  filter, the total dictionary lookup, the integer score product, dictionary
  seeding, the list loader and the choice of the top class.
- `Analyzers` (`analyzer.dfy`): the `Analyzer` class with the source's fields.
  Its methods run the source's loops and change its fields in place. Each is
  proved against the function in `Sentiment` that specifies it.

The PHP file's I/O becomes parameters:

- `wordsFor: string -> seq<string>` is the word list a data file
  `data/<name>.php` returns.
- `unescape: string -> string` stands for `stripcslashes`.

## Model

| member | source | states |
|---|---|---|
| PhpStrings.Occurs | src/Analyzer.php:116 | `strpos(s, w) !== false` holds iff `w` starts at some position of `s`, the end included, so the empty needle is always found |
| PhpStrings.Replace | src/Analyzer.php:117 | `str_replace` returns its subject when the pattern does not occur, never lengthens a string when the replacement is no longer than the pattern, and with a replacement one byte shorter shortens it by exactly the number of replacements |
| PhpStrings.Count | src/Analyzer.php:117 | the number of left-to-right, non-overlapping replacements is 0 iff the pattern does not occur |
| PhpStrings.OccursExtended | src/Analyzer.php:116-117 | a sentence containing `w + " "` contains `w` |
| PhpStrings.FirstCharMissing | src/Analyzer.php:116 | a needle whose first byte is missing from the haystack is not found by `strpos` |
| PhpStrings.ReplaceAbsent | src/Analyzer.php:117 | `str_replace` with a pattern that does not occur returns its subject unchanged and performs no replacement |
| PhpStrings.ReplaceKeepsPrefix | src/Analyzer.php:117 | a prefix in which no match of the pattern starts is copied unchanged, and `str_replace` resumes its scan after it |
| PhpStrings.ReplaceFirst | src/Analyzer.php:117 | at the first occurrence of the pattern: everything before it is kept, that occurrence becomes the replacement, and the scan resumes right after it; with `ReplaceAbsent` this fixes `str_replace`'s result on every input |
| PhpStrings.DeletesOnlyLength | src/Analyzer.php:117 | deleting characters never lengthens a string; the length lost is the number of deleted `c` |
| PhpStrings.DeletesOnlyTrans | src/Analyzer.php:115-119 | two successive rounds of space deletions are one round of space deletions |
| PhpStrings.ReplaceDropsLast | src/Analyzer.php:117 | replacing `w + " "` by `w` deletes only spaces and keeps every other byte in order |
| PhpStrings.LowerChar | src/Analyzer.php:128 | `strtolower` on one byte: the result is never an ASCII capital, is a space iff the input is, maps each capital to the letter 32 code points above it, and leaves every non-capital unchanged |
| PhpStrings.ToLower | src/Analyzer.php:128 | `strtolower` keeps the length, maps each byte by `LowerChar`, and keeps the number of spaces |
| PhpStrings.ToLowerNoUpper | src/Analyzer.php:128 | a string without capitals is its own lower case |
| PhpStrings.ToLowerIdempotent | src/Analyzer.php:128 | lower-casing twice is lower-casing once |
| PhpStrings.Split | src/Analyzer.php:128 | `explode(' ', s)` gives one more piece than `s` has spaces, no piece holds a space, and joining the pieces with spaces gives back `s` |
| PhpStrings.SplitPiecesFromSource | src/Analyzer.php:128 | every byte of every piece comes from the exploded string |
| PhpStrings.SplitAfterPrefix | src/Analyzer.php:128 | a space-free prefix joins the first piece |
| PhpStrings.SplitNoSpace | src/Analyzer.php:128 | a string without spaces explodes into itself alone |
| PhpStrings.SplitJoin | src/Analyzer.php:128 | `explode` undoes `implode` for a non-empty list of space-free pieces |
| PhpStrings.SkipTrimForward | src/Analyzer.php:143 | the scan of `ltrim` passes only trim bytes and stops at the end or at the first byte that is not one |
| PhpStrings.SkipTrimBackward | src/Analyzer.php:143 | the scan of `rtrim` passes only trim bytes and stops at the start or after the last byte that is not one |
| PhpStrings.TrimLeft | src/Analyzer.php:143 | `ltrim` returns a suffix of its argument, everything cut off is a trim byte, and the result does not start with one |
| PhpStrings.TrimRight | src/Analyzer.php:143 | `rtrim` returns a prefix of its argument, everything cut off is a trim byte, and the result does not end with one |
| PhpStrings.Trim | src/Analyzer.php:143 | `trim` leaves no trim byte at either end |
| PhpStrings.TrimSlice | src/Analyzer.php:143 | `trim` returns a slice of its argument, and everything cut off on either side is a trim byte |
| PhpStrings.TrimNothing | src/Analyzer.php:161 | a string with no trim byte at either end is its own trim |
| PhpStrings.TrimIdempotent | src/Analyzer.php:161 | trimming twice is trimming once |
| PhpArrays.IndexOfKey | src/Analyzer.php:57 | the position at which a present key is stored |
| PhpArrays.Put | src/Analyzer.php:57 | `$t[$k] = $v` keeps keys distinct; an existing key keeps its place, a new key is appended; key `k` maps to `v` and every other entry is unchanged |
| PhpArrays.Dedup | src/Analyzer.php:56-58 | the keys of a table filled class by class: the same elements as the class list, none repeated |
| PhpArrays.DedupPrefix | src/Analyzer.php:56-58 | the keys after the first `n` classes are a prefix of the final keys |
| PhpArrays.FirstMaxIndex | src/Analyzer.php:43-45 | a position holding the largest value, with every earlier value strictly smaller |
| PhpArrays.Insert | src/Analyzer.php:43 | one insertion step of the sort adds exactly one entry |
| PhpArrays.InsertPermutation | src/Analyzer.php:43 | one insertion step adds exactly the inserted entry to the multiset of entries |
| PhpArrays.InsertSorted | src/Analyzer.php:43 | inserting into a descending table keeps it descending, and the head changes only for a strictly larger value |
| PhpArrays.ArSort | src/Analyzer.php:43 | `arsort` keeps the number of entries |
| PhpArrays.ArSortPermutation | src/Analyzer.php:43 | `arsort` only reorders the entries: same multiset |
| PhpArrays.ArSortSorted | src/Analyzer.php:43 | after `arsort` the values are in non-increasing order |
| PhpArrays.ArSortHead | src/Analyzer.php:43-45 | after the stable `arsort`, the first entry is the earliest entry with the largest value |
| PhpArrays.WithValueAppend | src/Analyzer.php:43 | the entries of one value in a concatenation are those of the first part followed by those of the second |
| PhpArrays.InsertWithValue | src/Analyzer.php:43 | inserting an entry into a descending table puts it after every entry of equal value and leaves the entries of other values in their order |
| PhpArrays.ArSortStable | src/Analyzer.php:43 | `arsort` is stable: for every value, the entries holding it come out in the order they went in |
| PhpArrays.FirstMaxUnique | src/Analyzer.php:43-45 | the earliest position of the largest value is unique |
| Sentiment.FuseNegation | src/Analyzer.php:116-118 | the `strpos` guard makes no difference: one round equals the unguarded `str_replace`, for every word including the empty one |
| Sentiment.FuseNegationDeletesSpaces | src/Analyzer.php:117 | one round deletes one space per fused occurrence and keeps every other byte in order |
| Sentiment.FuseNegationFirst | src/Analyzer.php:116-117 | at the first `w + " "`, exactly its space is deleted, gluing `w` to the next word; the text before it is kept and the round resumes after that space |
| Sentiment.FuseNegations | src/Analyzer.php:113-122 | the whole fusion, one round per negation word in list order, only deletes spaces, so the output is never longer than the input |
| Sentiment.FuseNegationsNoMatch | src/Analyzer.php:113-122 | if no `w + " "` occurs for any negation word `w`, the sentence comes back unchanged |
| Sentiment.FuseOneWord | src/Analyzer.php:115-118 | with a single negation word the fusion is a single `str_replace` |
| Sentiment.CrlfToSpace | src/Analyzer.php:126 | replacing each CRLF by one space shortens the sentence by exactly one byte per CRLF |
| Sentiment.Tokenize | src/Analyzer.php:124-129 | one more token than the CRLF-replaced sentence has spaces, no token holds a space, and joining the tokens with spaces gives the lower-cased CRLF-replaced sentence |
| Sentiment.TokensAreLowerCase | src/Analyzer.php:128 | no token contains an ASCII capital |
| Sentiment.CrlfAbsent | src/Analyzer.php:126 | a sentence without a carriage return has no CRLF to replace |
| Sentiment.TokenizePlain | src/Analyzer.php:126-128 | without carriage returns or capitals, tokenizing is splitting alone |
| Sentiment.TokenizeWord | src/Analyzer.php:126-128 | a space-free sentence without carriage returns or capitals is a single token |
| Sentiment.IsValidToken | src/Analyzer.php:91-102 | a token is valid iff its byte length is within the bounds and it is not on the ignore list |
| Sentiment.EmptyTokenInvalid | src/Analyzer.php:91-95 | with a minimum length of at least 1 (the default), the empty token is never valid |
| Sentiment.DictionaryValue | src/Analyzer.php:104-111 | the lookup is total: the stored count when `dictionary[token][class]` is set, 0 otherwise |
| Sentiment.Factor | src/Analyzer.php:67-74 | a token multiplies the score by at least 1, and by exactly 1 when it is invalid |
| Sentiment.Product | src/Analyzer.php:63-75 | the integer product of `tokensScore`, one factor per token in order, is at least 1 |
| Sentiment.ProductAppend | src/Analyzer.php:67-75 | the product over two concatenated token lists is the product of their products |
| Sentiment.ProductExtract | src/Analyzer.php:67-75 | the product is the factor of any one token times the product over the other tokens |
| Sentiment.InvalidTokenNeutral | src/Analyzer.php:68-70 | adding or removing an invalid token anywhere leaves the product unchanged |
| Sentiment.ProductPermutation | src/Analyzer.php:67-75 | the product does not depend on the order of the tokens |
| Sentiment.EmptySentenceScoresOne | src/Analyzer.php:48-75 | an empty sentence becomes the single empty token, and every class's product is 1 |
| Sentiment.TrimAll | src/Analyzer.php:142-143 | one trimmed word per word, in order |
| Sentiment.SeedWord | src/Analyzer.php:145-147 | one seeding step adds the pair `(word, class)` with count 1 if it was absent; only that word may gain a key or an entry, and every entry present keeps its count |
| Sentiment.Seed | src/Analyzer.php:138-149 | every trimmed word of the list ends up with an entry for the class, and no entry present before is overwritten |
| Sentiment.SeedAll | src/Analyzer.php:131-136 | every trimmed word of every class's list ends up with an entry for that class, and no entry present before is overwritten |
| Sentiment.SeedEffect | src/Analyzer.php:138-149 | seeding gives every trimmed word an entry for the class; entries present before keep their counts; the new entries have count 1; nothing else changes |
| Sentiment.SeedFrame | src/Analyzer.php:145-146 | entries of other classes, and of words not on the list, are unchanged |
| Sentiment.SeedPresent | src/Analyzer.php:145 | seeding words that already have an entry for the class changes nothing |
| Sentiment.SeedIdempotent | src/Analyzer.php:138-149 | seeding twice with the same list has the effect of seeding once |
| Sentiment.SeedAllCountsOne | src/Analyzer.php:131-136 | seeding all classes stores only the count 1, so a dictionary of ones stays one of ones |
| Sentiment.SeededFactor | src/Analyzer.php:74 | for a dictionary built from empty by seeding, every token's factor is 1 or 2 |
| Sentiment.LoadWordsForList | src/Analyzer.php:156-163 | one entry per word, in order, each the unescaped trim of its word |
| Sentiment.Classify | src/Analyzer.php:39-46 | no label iff the score table is empty; otherwise the label of the earliest entry holding the largest score |
| Sentiment.ClassifyPicksEarliestTop | src/Analyzer.php:39-58 | for a table with one entry per class in class order: the label is a class, its score is maximal, and no class before it ties with it; no classes means no label |
| Sentiment.ClassifyTop | src/Analyzer.php:43-58 | the earliest top entry of a class table is a class with a maximal score that no earlier class ties |
| Sentiment.DedupOrder | src/Analyzer.php:56-58 | a class takes its place in the table before every class that first appears after it |
| Sentiment.FusionExample | src/Analyzer.php:113-129 | with the negation word "not", "not good" becomes "notgood", a single token |
| Sentiment.CaseSensitiveFusionExample | src/Analyzer.php:116-117 | fusion is case-sensitive: "Not good" keeps its space under the negation word "not" |
| Sentiment.TokenizeExample | src/Analyzer.php:124-129 | "Not good" tokenizes to "not" and "good" |
| Sentiment.ClassifyTieExample | src/Analyzer.php:43-45 | three tied scores of 0.333 give "positive", the first class |
| Sentiment.ClassifyTopExample | src/Analyzer.php:43-45 | a strictly larger score wins wherever it stands |
| Analyzers.Analyzer.constructor | src/Analyzer.php:7-28 | default classes and token-length bounds; the dictionary is seeded from empty for every class, so every count is 1; the ignore and negation lists are loaded |
| Analyzers.Analyzer.Setup | src/Analyzer.php:30-37 | the dictionary is seeded for every class, a dictionary of ones stays one of ones, and the ignore and negation lists are loaded from their lists |
| Analyzers.Analyzer.LoadAllClassesDictionary | src/Analyzer.php:131-136 | the dictionary becomes the old one seeded for each class in order, and a dictionary of ones stays one of ones |
| Analyzers.Analyzer.LoadDictionaryFor | src/Analyzer.php:138-149 | the dictionary becomes the old one seeded with the class's word list |
| Analyzers.Analyzer.RemoveSpaceFromNegationWords | src/Analyzer.php:113-122 | the result is the fusion over the negation list in list order; it only deletes spaces from the sentence and is never longer |
| Analyzers.Analyzer.TokensScore | src/Analyzer.php:63-78 | the score is the product of `count + 1` over the valid tokens, and at least 1 |
| Analyzers.Analyzer.ClassScores | src/Analyzer.php:54-58 | one entry per class, in class order, each holding that class's product over the given tokens |
| Analyzers.Analyzer.Scores | src/Analyzer.php:48-61 | one entry per class, in class order; each holds that class's product over the tokens of the fused sentence |

## Left out

- `loadWordsFor` and the `require` of `data/<name>.php` (src/Analyzer.php:151-154) are file I/O. The loaded lists are the parameter `wordsFor`.
- `stripcslashes` (src/Analyzer.php:161) is the parameter `unescape`. Its C-escape rules are not modelled.
- The prior probability table, and the multiply by it (src/Analyzer.php:15-19, 77), are floating point.
- `normalizeScoreValues` (src/Analyzer.php:80-89) is left out. It uses float division and `array_sum`. It rounds to three places with the mode argument 10, which is none of PHP's rounding-mode constants. Before PHP 8.4, `round` treats an unknown mode as `PHP_ROUND_HALF_UP`. From PHP 8.4 it throws a `ValueError`, so there `scores` and `classify` throw on every call. The model assumes PHP 8.2 or 8.3 and does not model this error path.
- Analyzers.Analyzer.TokensScore: returns the integer product without the multiply by the prior, which is floating point. The unbounded product equals PHP's only up to `PHP_INT_MAX`. Past it, `$score *=` silently turns the score into a float. That float may be rounded once the product's odd part needs more than 53 bits, and it becomes `INF` past about 2^1024. With seeded counts of 1 every product is a power of two, so it stays exact until then. With seeded counts of 1, `INF` takes more than 1023 dictionary hits in one sentence.
- Sentiment.Product: the same; it is the exact integer product, with none of PHP's switch to float.
- Analyzers.Analyzer.Scores: records the integer products, not the normalised, rounded float scores.
- Sentiment.Classify: takes the final score table as input, with abstract `real` values, rather than computing it from a sentence. So `Analyzer::classify` as one method is not modelled; its steps are `Scores`, then `Classify`. The scores it sees in PHP 8.2 and 8.3 are rounded floats. For example, three scores of 0.333 tie (`ClassifyTieExample`).
- Sentiment.IsValidToken: the `in_array` in `isValidToken` (src/Analyzer.php:101) compares loosely in PHP. Its numeric-string cases are left out; membership is exact string equality.
- Strings are byte strings, one `char` per byte. `strtolower` is ASCII-only, which matches PHP 8.2 and 8.3, the versions the model assumes. The locale-dependent lower-casing of older PHP versions is not modelled.
- PHP turns integer-like string keys such as `"123"` into integer keys. Dictionary lookups do not depend on key types, so the model keeps all keys as strings. One place does depend on them: `classify` returns `key($scores)` (src/Analyzer.php:45), so an integer-like class label comes back as a PHP int. The model returns it as the string.
- `key()` on an empty array returns `null`, modelled as `None`. The PHP class never has an empty class list unless a caller empties it.

An empty negation word needs no precondition. Its pattern `"" + " "` is a single space, so `str_replace` deletes every space, and `strpos` finds the empty needle. Both happen in the model exactly as in PHP 8.
