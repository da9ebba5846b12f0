# Spanish spelling practice: the judging and bookkeeping core

This project models the logic behind a Spanish spelling-bee practice app:

- **Spelling judgment.** `compareSpelling` of `src/App.jsx` decides whether a typed attempt is exact, correct up to accents, or wrong. A wrong attempt gets a similarity score from the Levenshtein edit distance. The spell and listen modes accept an attempt that is exact or accent-close. The older `study-guide.jsx` accepts only an exact, trimmed match.
- **Spoken letter names.** `matchLetterName` maps a recognised utterance ("be grande", "doble erre", "eñe", ...) to a letter. It uses a fixed priority cascade over two name tables.
- **Quiz distractors.** Both `generateMisspellings` functions apply a list of guarded single substitutions (b→v, rr→r, ü→u, ...), then deduplicate and filter. The app pads the result to three distractors; the study guide does not.
- **Word-list click.** Clicking a word moves it to the front of the filtered list.
- **Progress ledger** (`src/hooks/useProgress.js`). A map from word to right and wrong counts, with derived statistics: accuracy, mastered, category tallies and a mastered count.
- **Favourites set** (`src/hooks/useFavorites.js`).

Strings are sequences of characters. The Unicode behaviour the code relies on is written out as tables:

- `toLowerCase` over ASCII and Latin-1;
- canonical decomposition of the accented vowels, `ü` and `ñ` in both cases;
- removal of combining marks (all of U+0300–U+036F, U+0301 and U+0308, or U+0301 alone).

Scores are whole percentages. `RoundPercent(n, d)` is `Math.round(100 * n / d)` on exact rationals, with halves rounded up.

The modules follow the program:

| Module | Models |
|---|---|
| `Text` | `trim`, `toLowerCase`, NFD and mark removal, `stripAccents`, `includes`, `replace` |
| `EditDistance` | `levenshtein`, as a recursive specification and as the 2-D array method |
| `Percent` | rounding to whole percent |
| `Spelling` | `compareSpelling` and the app's `checkAnswer` |
| `LetterNames` | `matchLetterName`, over any tables |
| `LetterTables` | the app's name tables `LETTER_MULTI`, `LETTER_SINGLE` and `MULTI_KEYS` |
| `VoiceSpelling` | `matchLetterName` on those tables |
| `Seqs` | `[...new Set(xs)]`, `filter` and `slice` |
| `Rewrites` | the guarded-push rule lists, as data, and the loop that runs them |
| `Misspellings` | the app's `generateMisspellings` and the `buildQuiz` padding |
| `StudyGuide` | the study-guide versions |
| `WordList` | the click reorder |
| `Progress` | the ledger, as class `Ledger` |
| `Favorites` | the favourites, as class `FavoriteSet` |

Three behaviours of the code worth noting:

- `compareSpelling` trims only the attempt, not the target.
- `stripAccents` also removes the tilde of `ñ`.
- `getWordStats` compares the *rounded* accuracy with 80.

## Model

| member | source | states |
|---|---|---|
| Text.Trim | src/App.jsx:199 | `trim()`: the result neither starts nor ends with whitespace, and it is empty exactly when the input is all whitespace |
| Text.TrimIsInfix | src/App.jsx:199 | what `trim()` keeps is the stretch of the input between a leading and a trailing run of whitespace |
| Text.TrimStart | src/App.jsx:199 | the leading whitespace removed is all whitespace, and what is left starts with a non-space |
| Text.TrimEnd | src/App.jsx:199 | the trailing whitespace removed is all whitespace, and what is left ends with a non-space |
| Text.Lower | src/App.jsx:199 | `toLowerCase()` maps each character by the per-character table and keeps the length |
| Text.LowerChar | src/App.jsx:199 | a capital maps to the character 32 code points above it (its lower case), which is never upper case; whitespace stays whitespace; other characters are fixed |
| Text.LowerIdempotent | src/App.jsx:199 | lower-casing twice is lower-casing once |
| Text.TrimLowerCommute | src/App.jsx:162 | `toLowerCase().trim()` (matchLetterName) and `trim().toLowerCase()` (compareSpelling) agree |
| Text.NfdLower | src/App.jsx:843 | NFD of a lower-case letter is the letter itself, or a base vowel or `n` followed by one combining mark |
| Text.Nfd | src/App.jsx:843 | NFD of any character is itself, or a base vowel or `n` of either case followed by one combining mark; in the modelled table, a combining mark never decomposes |
| Text.StripChar | src/App.jsx:114 | one character after NFD, mark deletion and NFC: dropped exactly when it is a deleted mark, unchanged when nothing in it is deleted, its base letter when its mark is deleted, never leaving a deletable mark |
| Text.StripMarksBare | src/App.jsx:843 | nothing left after mark removal can be removed further |
| Text.StripMarksKeeps | src/App.jsx:114 | a character that the removal keeps whole survives it (`ñ` when only U+0301 and U+0308 are deleted) |
| Text.StripMarksFixes | src/App.jsx:114 | a string with nothing to delete is unchanged |
| Text.StripMarksAppend | src/App.jsx:843 | mark removal works character by character: it distributes over concatenation |
| Text.StripMarksIdempotent | src/App.jsx:843 | removing marks twice removes nothing more |
| Text.AsciiFixes | src/App.jsx:114 | a word of plain lower-case ASCII letters is unchanged by any mark removal |
| Text.StripAccents | src/App.jsx:843 | `stripAccents` never lengthens and leaves no upper-case letter |
| Text.StripAccentsPlain | src/App.jsx:843 | after `stripAccents` no accented letter, `ü`, `ñ` or combining mark is left |
| Text.StripAccentsIdempotent | src/App.jsx:843 | `stripAccents` applied twice equals applied once |
| Text.StripAccentsIgnoresCase | src/App.jsx:843 | `stripAccents` gives the same result on a lower-cased input |
| Text.StripMarksLowerCommute | src/App.jsx:843 | lower-casing before mark removal changes nothing once the result is lower-cased |
| Text.AmbonSameLetters | src/App.jsx:201-202 | "ambon" and "ambón" have the same accent-stripped form |
| Text.TrimAmbon | src/App.jsx:199 | "ambon" has no whitespace to trim |
| Text.AsciiStripAccents | src/App.jsx:843 | a word of plain lower-case letters is its own `stripAccents` form |
| Text.StripAccentsAmbon | src/App.jsx:843 | `stripAccents("ambón")` is "ambon" |
| Text.StripAccentsToBase | src/App.jsx:843 | a lower-case letter that decomposes onto a base and a mark strips to that base (á to a, ü to u, ñ to n) |
| Text.StripAccentsComposed | src/App.jsx:843 | every precomposed letter of either case strips to its lower-case base letter |
| Text.LowerAfterMarks | src/App.jsx:843 | when mark removal leaves plain lower-case letters, that is the `stripAccents` form |
| Text.NfdLowerBase | src/App.jsx:843 | a base vowel or `n` does not decompose |
| Text.IndexOf | src/App.jsx:116 | the first index where the pattern occurs, or none when it occurs nowhere |
| Text.ContainsAt | src/App.jsx:116 | `includes` holds whenever the pattern occurs at some index |
| Text.NotContains | src/App.jsx:116 | a pattern whose first character is absent is not included |
| Text.NotContainsPair | src/App.jsx:119 | a two-letter pattern that no adjacent pair spells is not included |
| Text.ReplaceFirst | src/App.jsx:116-129 | `replace` with a string pattern changes only the first occurrence, and nothing when there is none |
| EditDistance.Min3 | src/App.jsx:194 | `Math.min` of three: at most each argument and equal to one of them |
| EditDistance.LevBorders | src/App.jsx:190-191 | the table borders: distance to or from the empty string is the other length |
| EditDistance.LevCell | src/App.jsx:192-194 | each interior cell is the diagonal on equal letters, else one plus the least neighbour |
| EditDistance.LevZeroIffEqual | src/App.jsx:188-196 | the distance is 0 exactly when the strings are equal |
| EditDistance.LevAtMostMax | src/App.jsx:188-196 | the distance is at most the longer length |
| EditDistance.LevSymmetric | src/App.jsx:188-196 | the distance does not depend on the argument order |
| EditDistance.FillRow | src/App.jsx:193-194 | the inner loop fills row i with the distances of the first i letters of `a` to every prefix of `b`, rows above kept, later rows' first cells untouched |
| EditDistance.Levenshtein | src/App.jsx:188-196 | the nested loops over the `dp` array return the edit distance |
| Percent.RoundPercent | src/App.jsx:205 | `Math.round(100 * n / d)`: the integer nearest 100·n/d, halves up |
| Percent.RoundPercentAtLeast | src/hooks/useProgress.js:37-38 | the rounded percentage reaches p exactly when 200·n + d ≥ 2·d·p |
| Percent.RoundPercentBounds | src/App.jsx:205 | a ratio of at most 1 rounds to at most 100; 1 rounds to 100, 0 to 0; 100 is reached exactly when 199·d ≤ 200·n < 201·d |
| Percent.RoundPercentBelowFull | src/App.jsx:205 | a ratio below 1 with a denominator under 200 rounds below 100 |
| Spelling.Similarity | src/App.jsx:203-205 | the distance is at most the longer length, and the similarity is the rounded 100·(1 − dist/maxLen) within 0..100, or 0 when both forms are empty |
| Spelling.Compare | src/App.jsx:198-207 | `exact` iff the trimmed lower-cased attempt equals the lower-cased target; `accentClose` iff not exact and the `stripAccents` forms agree; never both; similarity 100 when exact, 95 when accent-close, never above 100 |
| Spelling.AcceptedIffSameLetters | src/App.jsx:626 | `exact \|\| accentClose` holds exactly when the trimmed attempt and the target have the same `stripAccents` form |
| Spelling.FallthroughSimilarity | src/App.jsx:203-206 | in the last branch the stripped forms differ, so maxLen > 0, and the similarity is the rounded ratio |
| Spelling.SimilarityBelowFull | src/App.jsx:203-205 | different stripped forms shorter than 200 letters score below 100 |
| Spelling.WrongBelowFull | src/App.jsx:203-206 | a rejected attempt scores below 100 while the stripped forms are shorter than 200 letters |
| Spelling.CompareIgnoresAttemptCase | src/App.jsx:199 | the attempt's case never changes the comparison |
| Spelling.AccentCloseExample | src/App.jsx:201-202 | "ambon" is accepted for "ambón" |
| Spelling.CheckAnswer | src/App.jsx:623-626 | a blank input is ignored; otherwise it is correct exactly when the trimmed input and the word have the same `stripAccents` form (also src/App.jsx:722-725) |
| LetterNames.OfLength | src/App.jsx:159 | selecting the names of one length keeps only names of that length, never more entries than the table |
| LetterNames.OfLengthAppend | src/App.jsx:159 | selecting one length distributes over concatenation |
| LetterNames.OfLengthSingle | src/App.jsx:159 | a one-entry list keeps its entry exactly when the name has that length |
| LetterNames.InsertByLength | src/App.jsx:159 | inserting an entry adds exactly that entry |
| LetterNames.InsertByLengthSorted | src/App.jsx:159 | inserting into a list sorted longest first keeps it sorted |
| LetterNames.InsertByLengthStable | src/App.jsx:159 | insertion keeps the relative order of names of equal length |
| LetterNames.SortByLength | src/App.jsx:159 | `sort((a, b) => b.length - a.length)`: longest first, a permutation of the keys |
| LetterNames.SortByLengthStable | src/App.jsx:159 | the sort is stable: equal-length names keep their table order |
| LetterNames.FirstHit | src/App.jsx:164-168 | the first table entry the utterance hits in a pass, and no hit before it |
| LetterNames.FirstHitNoneIff | src/App.jsx:164-168 | a pass finds nothing exactly when no entry's name is hit |
| LetterNames.HitContains | src/App.jsx:164-180 | every kind of hit puts the name inside the utterance |
| LetterNames.MatchName | src/App.jsx:161-186 | a match's `raw` occurs in the lower-cased, trimmed utterance, and an ambiguous match is "be", "ve" or "uve" |
| LetterNames.Scan | src/App.jsx:164-168 | the `for` loop with early return gives the first hit of the pass |
| LetterNames.MatchLetterName | src/App.jsx:161-186 | the cascade of loops and returns computes `MatchName` |
| LetterNames.MatchPrefersLongest | src/App.jsx:159-168 | no longer multi-word name matches the whole utterance than the one chosen |
| LetterNames.MatchWholeFirst | src/App.jsx:164-168 | when some multi-word name matches the whole utterance, the answer is the first multi-word entry (longest first) that matches it whole, never ambiguous |
| LetterNames.MatchExactSingle | src/App.jsx:170-172 | failing that, an exact single name gives its letter, ambiguous exactly for "be", "ve", "uve" |
| LetterNames.MatchWithinMulti | src/App.jsx:173-176 | with no whole or exact hit, a multi-word name contained in the utterance gives the letter of the first multi-word name contained, ahead of the later passes |
| LetterNames.MatchLongSingle | src/App.jsx:177-181 | with no earlier hit, a single-word name of three or more letters contained in the utterance gives the letter of the first name in table order that has three or more letters and is contained, ahead of the fallback; ambiguous exactly for be/ve/uve |
| LetterNames.MatchFallback | src/App.jsx:173-185 | when no table pass hits, a lone letter in [a-záéíóúüñ] is its own answer, anything else gives null |
| LetterNames.MatchNoneIff | src/App.jsx:161-186 | null exactly when no pass hits and the utterance is not a lone letter |
| LetterNames.MatchLetterFromTable | src/App.jsx:161-186 | every letter returned comes from a table entry whose name was matched, or is the lone letter itself |
| LetterNames.MatchAmbiguousLetter | src/App.jsx:170-180 | an ambiguous match is for "b" or "v" when the table spells those names so |
| LetterTables.MultiKeys | src/App.jsx:136-159 | `MULTI_KEYS` is sorted longest first and holds exactly the `LETTER_MULTI` entries |
| VoiceSpelling.MatchSpokenLetter | src/App.jsx:161-186 | `matchLetterName` on the app's tables |
| LetterTables.BVNamesSpellBOrV | src/App.jsx:150-158 | in `LETTER_SINGLE`, "be", "ve" and "uve" spell b or v |
| VoiceSpelling.AmbiguousIsBOrV | src/App.jsx:158-180 | an ambiguous spoken letter is b or v |
| Seqs.Distinct | src/App.jsx:130 | `[...new Set(xs)]`: no duplicates, and exactly the values of `xs` |
| Seqs.DistinctOfNoDup | src/App.jsx:130 | a list without duplicates is its own set |
| Seqs.DistinctOrder | src/App.jsx:130 | the set keeps the order of first occurrence |
| Seqs.Without | src/App.jsx:130 | `filter(r => r !== x)`: `x` gone, every other value kept, nothing new |
| Seqs.WithoutAbsent | src/App.jsx:130 | filtering out a value that is not there changes nothing |
| Seqs.WithoutNoDup | src/App.jsx:130 | filtering adds no duplicates |
| Seqs.Take | src/App.jsx:130 | `slice(0, n)`: a prefix of length min(n, length) |
| Seqs.NoDupPrefix | src/App.jsx:130 | a prefix of a duplicate-free list is duplicate-free |
| Seqs.FirstIndex | src/App.jsx:130 | the first index holding a value |
| Seqs.WithoutKeepsOrder | src/App.jsx:130 | filtering keeps first-occurrence order |
| Seqs.TakeKeepsOrder | src/App.jsx:130 | slicing keeps first-occurrence order |
| Rewrites.FirstMatchFrom | src/App.jsx:124 | the first position where `c(?=[ei])` or `a(?!$)` matches, and none before it |
| Rewrites.ReplaceAhead | src/App.jsx:124-128 | such a regex `replace` changes exactly the first match, and nothing when there is none |
| Rewrites.Splice | src/App.jsx:116-129 | replacing a span keeps everything before and after it |
| Rewrites.Run | src/App.jsx:113-129 | the guarded pushes push at most one value per rule |
| Rewrites.RunPushes | src/App.jsx:113-129 | every rule whose guard holds has its value pushed |
| Rewrites.RunLast | src/App.jsx:113-129 | the pushes of the last rule come after those of the rules before it |
| Rewrites.SilentWithout | src/App.jsx:116 | a rule guarded by `word.includes(p)` does not push for a word without `p` |
| Rewrites.SilentNoMatch | src/App.jsx:124 | a rule guarded by a regular-expression test does not push for a word the expression does not match |
| Rewrites.FiresLacksHas | src/App.jsx:128 | a rule guarded by `!word.includes(p) && word.includes(q)` pushes for a word without `p` and with `q` |
| Rewrites.FiresHasNotStarting | src/App.jsx:118 | a rule guarded by `word.includes(p) && !word.startsWith(q)` pushes for a word with `p` that does not start with `q` |
| Rewrites.RunFrom | src/App.jsx:113-129 | every value pushed comes from a rule whose guard held |
| Rewrites.RunNone | study-guide.jsx:210-223 | no rule firing means no results |
| Rewrites.RunRules | src/App.jsx:113-129 | the successive `if (...) results.push(...)` statements build exactly the pushed list |
| Rewrites.ApplySmall | src/App.jsx:116-129 | a one- or two-letter substitution changes at most two adjacent letters |
| Rewrites.RunSmallEdits | src/App.jsx:113-129 | each pushed value is such a small edit or comes from the accent rule |
| Misspellings.NoAccent | src/App.jsx:114 | the accent-free variant keeps no acute accent and no diaeresis |
| Misspellings.NoAccentKeepsEnye | src/App.jsx:114 | and it keeps `ñ` |
| Misspellings.AppRulesAreSmall | src/App.jsx:116-129 | every rule after the accent rule substitutes at most two letters by at most two |
| Misspellings.Misspellings | src/App.jsx:112-130 | `generateMisspellings` never returns the word, has no duplicates, at most 6 items, in first-occurrence rule order |
| Misspellings.GenerateMisspellings | src/App.jsx:112-130 | the pushes, the set, the filter and the slice compute `Misspellings` |
| Misspellings.MisspellingIsSmallEdit | src/App.jsx:113-129 | every distractor is the accent-free word or a change of at most two adjacent letters |
| Misspellings.MisspellingsOfferRule | src/App.jsx:113-130 | a rule that fires with a new value has it among the de-duplicated results, and it is offered exactly when fewer than six other values come before it |
| Misspellings.Reverse | src/App.jsx:526 | `split("").reverse().join("")` reverses the letters |
| Misspellings.DropLast | src/App.jsx:526 | `slice(0, -1)`, a definition |
| Misspellings.DropFirst | src/App.jsx:528 | `slice(1)`, a definition |
| Misspellings.FirstFresh | src/App.jsx:527 | the first swap that is neither the word nor already present, and every swap before it is one of those |
| Misspellings.FirstFreshIsFirst | src/App.jsx:527 | the `for ... break` loop stops at exactly that swap |
| Misspellings.PadStep | src/App.jsx:526-528 | one pass of the `while` body keeps the list, appends the first fresh swap if any, then `slice(1)` unchecked while still short; at most three |
| Misspellings.PadStepRepeats | src/App.jsx:528 | a short list already holding `slice(1)` holds it twice after one pass |
| Misspellings.Padded | src/App.jsx:525-529 | the loop ends with exactly three distractors when the rules give fewer, otherwise with the rule output, which it always extends with swaps and `slice(1)` only |
| Misspellings.WithSwap | src/App.jsx:527 | the first fresh swap is appended when there is one, else the list is unchanged |
| Misspellings.TrySwaps | src/App.jsx:527 | the `for ... break` loop over the swaps computes `WithSwap` |
| Misspellings.PadMisspellings | src/App.jsx:525-529 | the `while` loop computes `Padded` |
| Misspellings.Options | src/App.jsx:530 | `[w.word, ...misspellings.slice(0, 3)]`: the word first, then the first three distractors (all of them when fewer) in order |
| Misspellings.QuizOptionsAsWritten | src/App.jsx:524-530 | a question as written offers four options: the word, then the rule distractors in order, padded |
| Misspellings.PadRepeatsDropFirst | src/App.jsx:525-529 | when only `word.slice(1)` is there, the padding pushes it a second time |
| Misspellings.HolaKeepsMarks | src/App.jsx:114-115 | "hola" has nothing to strip, so the accent rule does not push |
| Misspellings.HolaDropsH | src/App.jsx:118 | the `h` rule fires on "hola" |
| Misspellings.HolaTriesA | src/App.jsx:128 | the `a(?!$)` rule's guard holds on "hola" |
| Misspellings.RuleSilentWithout | src/App.jsx:116-129 | a rule of the table guarded by `word.includes(p)` does not push for a word without `p` |
| Misspellings.RuleSilentNoMatch | src/App.jsx:124 | the `c(?=[ei])` rule does not push for a word without `c` |
| Misspellings.HolaFires | src/App.jsx:113-129 | on "hola" only the `h` rule and the `a(?!$)` rule fire |
| Misspellings.HolaValues | src/App.jsx:118-128 | they push "ola" and "hola" |
| Misspellings.HolaValueH | src/App.jsx:118 | the `h` rule turns "hola" into "ola" |
| Misspellings.HolaValueA | src/App.jsx:128 | the `a(?!$)` rule finds no `a` before the end of "hola" and gives it back |
| Misspellings.HolaPushes | src/App.jsx:113-129 | every value pushed for "hola" is "ola" or "hola" |
| Misspellings.HolaPushesOla | src/App.jsx:118 | "ola" is pushed for "hola" |
| Misspellings.OnlyDistractor | src/App.jsx:130 | results holding one other value and otherwise only the word keep just that value after the set and the filter |
| Misspellings.HolaMisspellings | src/App.jsx:112-130 | `generateMisspellings("hola")` is `["ola"]` |
| Misspellings.HolaPadded | src/App.jsx:525-529 | the padding turns `["ola"]` into `["ola", "aloh", "ola"]` |
| Misspellings.OptionsOfPadded | src/App.jsx:530 | with exactly three padded distractors, the options are the word followed by them |
| Misspellings.HolaRepeatsOption | src/App.jsx:524-530 | the "hola" question offers "ola" twice |
| Misspellings.Fresh | src/App.jsx:525-529 | a value differing from the word and from every distractor |
| Misspellings.PadStepDistinct | src/App.jsx:525-529 | corrected pass: exactly one new value, different from the word and the others |
| Misspellings.PaddedDistinct | src/App.jsx:525-529 | corrected padding: exactly three distractors (or the rule output if longer), all distinct, none the word |
| Misspellings.QuizOptions | src/App.jsx:524-530 | corrected options: four, word first, then the rule distractors in order, all different |
| StudyGuide.StudyMisspellings | study-guide.jsx:209-223 | the study guide's list never contains the word and has no duplicates, in first-occurrence order, and keeps every pushed value other than the word (no cap) |
| StudyGuide.StudyOffersRule | study-guide.jsx:209-223 | every rule that fires with a value other than the word has that value offered |
| StudyGuide.GenerateStudyMisspellings | study-guide.jsx:209-223 | the pushes, the set and the filter compute `StudyMisspellings` |
| StudyGuide.StudyBOrV | study-guide.jsx:213-214 | b→v and v→b never both fire |
| StudyGuide.StudyDoubleLetters | study-guide.jsx:216-218 | of rr→r, ll→l, cc→c at most one fires |
| StudyGuide.StudyNoAccentKeeps | study-guide.jsx:211 | removing only U+0301 keeps `ü` and `ñ` |
| StudyGuide.QuietFirst | study-guide.jsx:211-215 | on a word without a, b, c, h, l, r, v, z or accents, the first four rules stay silent |
| StudyGuide.QuietMiddle | study-guide.jsx:216-219 | so do the next four |
| StudyGuide.QuietLast | study-guide.jsx:220-222 | and the last three |
| StudyGuide.StudyOptions | study-guide.jsx:228-229 | the word first, then the first three study misspellings (all when fewer) in order, all different |
| StudyGuide.QuietWordAlone | study-guide.jsx:209-229 | such a word ("mes", "dos", "uno") gets no distractor and a one-option question |
| StudyGuide.StudyCheckAnswer | study-guide.jsx:294-297 | a blank input is ignored; otherwise correct exactly when the trimmed input equals the word (also study-guide.jsx:362-365) |
| StudyGuide.StudyStricterThanApp | study-guide.jsx:296 | every answer the study guide accepts the app accepts |
| StudyGuide.AppAcceptsMore | study-guide.jsx:296 | among answers the app accepts, the study guide rejects exactly those not equal to the word once trimmed |
| WordList.Others | src/App.jsx:873 | `filter(fw => fw.word !== w.word)`: every entry with another word is kept, none with that word, nothing new |
| WordList.OthersSubsequence | src/App.jsx:873 | the filter keeps the entries in their order |
| WordList.OthersAbsent | src/App.jsx:873 | when no entry has that word the filter changes nothing |
| WordList.Reorder | src/App.jsx:872-875 | the clicked word first, then every other entry in its original order, none with the clicked word (also src/App.jsx:1127) |
| WordList.OthersRemovesOne | src/App.jsx:873 | with unique words, the filter removes exactly the clicked entry |
| WordList.ReorderIsPermutation | src/App.jsx:872-875 | with unique words, the reordered list is a permutation of the list |
| Progress.LoadProgress | src/hooks/useProgress.js:5-8 | the stored ledger, or `{}` when it is missing or does not parse, a definition |
| Progress.Recorded | src/hooks/useProgress.js:17-27 | exactly one of `correct`/`wrong` goes up by one from the entry or from zeros, `lastSeen` becomes now, every other word unchanged |
| Progress.WordStats | src/hooks/useProgress.js:33-40 | absent word: zeros, not mastered; accuracy is the rounded percentage (0 with no attempts) within 0..100; mastered iff correct ≥ 3 and 200·correct ≥ 159·total |
| Progress.RecordedStats | src/hooks/useProgress.js:17-27 | recording adds one attempt to that word and leaves other words' statistics alone |
| Progress.RoundPercentMonotone | src/hooks/useProgress.js:37 | the rounded percentage follows the exact ratio's order |
| Progress.RoundPercentRight | src/hooks/useProgress.js:37 | c/t to (c+1)/(t+1) never rounds lower |
| Progress.RoundPercentWrong | src/hooks/useProgress.js:37 | c/t to c/(t+1) never rounds higher |
| Progress.RightAnswerAccuracy | src/hooks/useProgress.js:17-37 | a right answer never lowers the word's accuracy |
| Progress.WrongAnswerAccuracy | src/hooks/useProgress.js:17-37 | a wrong answer never raises it |
| Progress.MasteredCount | src/hooks/useProgress.js:53-59 | the count of entries with correct ≥ 3 and 5·correct ≥ 4·total never exceeds the ledger size |
| Progress.MasteredCountAtMost | src/hooks/useProgress.js:38-58 | the unrounded test is stricter: the count is at most the words `getWordStats` calls mastered |
| Progress.RoundingDisagreement | src/hooks/useProgress.js:37-57 | 35 right, 9 wrong: accuracy 80 and mastered in `getWordStats`, yet not counted by `getMasteredCount` |
| Progress.PracticedIn | src/hooks/useProgress.js:45-49 | practised words are at most all words |
| Progress.MasteredIn | src/hooks/useProgress.js:45-49 | mastered words are at most the practised ones |
| Progress.PracticedInCounts | src/hooks/useProgress.js:45-49 | the practised tally is the number of positions holding a word with at least one answer |
| Progress.MasteredInCounts | src/hooks/useProgress.js:45-49 | the mastered tally is the number of positions holding a word `getWordStats` calls mastered |
| Progress.Category | src/hooks/useProgress.js:42-51 | the tallies are the mastered and practised counts; percent is round(100·mastered/total), 0 for an empty list, 100 when all are mastered; mastered ≤ practiced ≤ total |
| Progress.Ledger.constructor | src/hooks/useProgress.js:15 | the ledger starts as `loadProgress` gives it |
| Progress.Ledger.RecordResult | src/hooks/useProgress.js:17-31 | `recordResult` replaces the ledger by `Recorded` of the old one |
| Progress.Ledger.GetCategoryStats | src/hooks/useProgress.js:42-51 | the `forEach` counting loop computes `Category` |
| Progress.Ledger.ResetProgress | src/hooks/useProgress.js:61-64 | the ledger becomes empty |
| Favorites.LoadFavorites | src/hooks/useFavorites.js:5-8 | the stored words without duplicates, or empty when missing or malformed; exactly the stored words are members |
| Favorites.Toggled | src/hooks/useFavorites.js:19-21 | the toggled word's membership flips, every other word's stays, no duplicates |
| Favorites.WithoutAppended | src/hooks/useFavorites.js:19-21 | deleting a word just added restores the list |
| Favorites.ToggleTwice | src/hooks/useFavorites.js:17-24 | toggling twice restores every membership; an absent word leaves the list as it was, a present one moves to the end |
| Favorites.FavoriteSet.constructor | src/hooks/useFavorites.js:15 | the set starts as `loadFavorites` gives it |
| Favorites.FavoriteSet.ToggleFavorite | src/hooks/useFavorites.js:17-27 | the set becomes `Toggled` of the old one and `isFavorite(word)` flips |
| Favorites.FavoriteSet.ClearFavorites | src/hooks/useFavorites.js:29-32 | the set is empty and `isFavorite` is false for every word |

## Left out

- Rendering, mode dispatch, timers, the category and search filters, and the speech and audio APIs. These are browser UI and foreign calls.
- `shuffleArray` is random. Options and rounds are modelled before the shuffle.
- `localStorage` writes (`saveProgress`, `saveFavorites`) are I/O. A stored JSON value that parses to something other than an object or array is not modelled.
- `Date.now()` is I/O. It is the parameter `now`.
- Floating point:
  - Similarity is in whole hundredths: `Math.round((1 - dist / maxLen) * 100)` on exact rationals. The final division by 100, and float rounding at exact halves, are not modelled.
  - `getMasteredCount`'s float ratio is taken as the exact test 5·correct ≥ 4·total.
- Progress.WordStats: the accuracy `Math.round((correct / total) * 100)` is rounded on exact rationals. In doubles the product can fall just below a half, so 23 right of 40 gives 57 in the source and 58 in the model.
- Progress.Category: the percent `Math.round((mastered / total) * 100)` has the same difference (29 of 200: 14 in the source, 15 in the model).
- Unicode:
  - Lower-casing covers A–Z and Latin-1 capitals only.
  - Decomposition covers the vowels with acute, grave and diaeresis, and `ñ`.
  - NFC recomposition is the identity on the modelled alphabet.
  - `split("")` in `Reverse` works on UTF-16 code units, which for this alphabet are the characters.
- Misspellings.Padded: the loop in the source terminates because each pass pushes `slice(1)` when still short. The model proves termination with the measure 3 − length.
- LetterNames.MatchName: `LETTER_SINGLE[t]` also finds inherited object properties such as "constructor". The model looks up only the table's own entries.
- StudyGuide.StudyMisspellings: the count is bounded by the eleven rules, not by the eight that the `else if` chains let fire together.
- Progress.WordStats: the `lastSeen` field that `{...entry}` carries into the result is not part of `Stats`.
- The app's `checkAnswer` side effects (score, missed list, `recordResult`, `voice.stop()`) are React state. Their ledger effect is `Progress.Ledger.RecordResult`.

## Findings

| source | as written | input that shows it | evidently intended | confidence | as-written member | corrected member |
|---|---|---|---|---|---|---|
| src/App.jsx:525-530 | after the swap loop, `word.slice(1)` is pushed without checking whether it is already a distractor | "hola": the rules give only "ola", and padding gives "ola", "aloh", "ola", so the options are "hola", "ola", "aloh", "ola" | three distinct distractors, none equal to the word | not executed | Misspellings.HolaRepeatsOption | Misspellings.QuizOptions |
