# Thai NLP pipeline in Dafny

A verified model of a small Thai text-analysis pipeline:

- **segmentation:** a greedy, single-pass word segmenter driven by a flat table of Thai rule words (`ThaiWordSegmentation.segmentWords`);
- **character classes:** classification of characters into consonants, vowels, tone marks, special characters and others;
- **analysis:** `ThaiNLPAnalyzer.analyzeText` collects word frequencies, character-class counts, a sentiment score and label, a politeness score and level, and question markers into one record;
- **responses:** `ThaiNLPSystem` scores a table of mapping entries against the input and its context, keeps the first entry of highest confidence, and otherwise falls back to one of four fixed replies.

Modules, one per file:

- `Strings` (`strings.dfy`): the JavaScript string operations the code relies on.
  - `trim`, with ECMAScript's whitespace set.
  - `includes`.
  - Joining words, and deleting whitespace, used to state what segmentation preserves.
- `Tallies` (`tallies.dfy`): the counting idiom `freq[x] = (freq[x] || 0) + 1` folded over a list, and the sum of a map's values.
- `ThaiWordSegmentation` (`segmentation.dfy`): the rule table, the special-character set, the three range predicates and the segmenter.
  - `Segment` is a left-to-right fold of `Step` over the text followed by `Finish`.
  - The method `SegmentWords` keeps the source's loop, mutable buffer and inner scan over the rule categories, and is proved equal to `Segment`.
- `ThaiNLPAnalyzer` (`analyzer.dfy`): the four lexicons, character classification, the scores, question markers and the analysis record.
  - `Analyze` specifies the record.
  - `AnalyzeText` computes it with the source's `forEach` passes as loops, each proved against its specification function.
- `ThaiNLPSystem` (`response_system.dfy`): confidence, the best-match scan, the default replies and `processInput`.

Confidence is counted in integer tenths: 10 for an exact match, 5 to 8 for containment, 0 otherwise. The source adds 0.1 in floating point. Every entry with k agreeing context fields computes the same value. The possible values 0, 0.5, 0.6, 0.7, 0.7999999999999999 and 1.0 are strictly ordered, so comparing tenths decides every `>` the way the floats do.

## Refinement of the "เพราะว่า is never emitted whole" property

`ThaiWordSegmentation.BecauseNeverWhole` proves this for text without whitespace: เพราะ is a rule word and fires first.

With whitespace the property fails:
- A space scanned while the buffer is empty does not trigger an emission, because the trimmed buffer is empty. So the space stays at the head of the buffer.
- A buffer that starts with whitespace never equals a rule word, so no rule fires until the next literal space.
- `SegmentSpaceBecauseThat` proves that `" เพราะว่า"` segments to `["เพราะว่า"]`.

The model keeps this behaviour as written.

## Model

| member | source | states |
|---|---|---|
| ThaiWordSegmentation.WordBreakRulesValid | ThaiNLPAnalyzer.js:7-20 | every word of the prefix, suffix and conjunction tables is non-empty and free of whitespace (all lie in the Thai block) |
| ThaiWordSegmentation.SegmentWords | ThaiNLPAnalyzer.js:40-73 | the loop with its growing buffer returns exactly `Segment(rules, text)`: a rule word is emitted as soon as the buffer equals it, a literal space emits the trimmed non-empty buffer, and the trimmed rest is the last word |
| ThaiWordSegmentation.RunWordsWellFormed | ThaiNLPAnalyzer.js:46-63 | every word emitted during the scan is non-empty and has no whitespace at either end |
| ThaiWordSegmentation.SegmentWordsWellFormed | ThaiNLPAnalyzer.js:58-72 | every returned word is non-empty, has no leading or trailing whitespace, and differs from `' '`, so the final filter removes nothing |
| ThaiWordSegmentation.RunBufferHasNoRulePrefix | ThaiNLPAnalyzer.js:46-56 | no non-empty prefix of the pending buffer is a rule word: the shortest matching buffer fires first |
| ThaiWordSegmentation.RunKeepsText | ThaiNLPAnalyzer.js:45-66 | the words emitted so far followed by the buffer hold exactly the non-whitespace characters scanned, in order |
| ThaiWordSegmentation.SegmentKeepsText | ThaiNLPAnalyzer.js:45-70 | deleting whitespace from the concatenated words gives the input with whitespace deleted |
| ThaiWordSegmentation.SegmentEmpty | ThaiNLPAnalyzer.js:41-45 | the empty text yields no words |
| ThaiWordSegmentation.RunWithoutSpace | ThaiNLPAnalyzer.js:46-63 | in text without a literal space every word emitted during the scan is a rule word |
| ThaiWordSegmentation.SegmentWithoutSpace | ThaiNLPAnalyzer.js:58 | only U+0020 splits: without one, every word but the last is a rule word (tabs and newlines stay in the buffer) |
| ThaiWordSegmentation.RunWithoutWhitespace | ThaiNLPAnalyzer.js:46-56 | on whitespace-free text the emitted words and the buffer spell the text, and each word is a rule word with no proper rule-word prefix |
| ThaiWordSegmentation.SegmentWithoutWhitespace | ThaiNLPAnalyzer.js:45-70 | on whitespace-free text the words concatenate to the text, all but the last are rule words, and no word has a proper prefix that is a rule word |
| ThaiWordSegmentation.BecauseNeverWhole | ThaiNLPAnalyzer.js:17-18 | in whitespace-free text เพราะว่า is never returned as one word |
| ThaiWordSegmentation.RunRestarts | ThaiNLPAnalyzer.js:51-52 | after an emission the buffer is empty and the rest of the text is segmented as if it stood alone |
| ThaiWordSegmentation.SegmentBecauseThat | ThaiNLPAnalyzer.js:17-18 | the text เพราะว่า segments to เพราะ, ว่า |
| ThaiWordSegmentation.LeadingWhitespaceBlocksRules | ThaiNLPAnalyzer.js:46-63 | once the buffer starts with whitespace, no rule fires and characters accumulate until the next literal space |
| ThaiWordSegmentation.SegmentAfterLeadingSpace | ThaiNLPAnalyzer.js:46-70 | a space followed by any whitespace-free word segments to that word alone, whatever rule words it contains |
| ThaiWordSegmentation.SegmentSpaceBecauseThat | ThaiNLPAnalyzer.js:17-18 | preceded by a space, เพราะว่า is returned whole |
| Strings.Trim | ThaiNLPAnalyzer.js:58 | `trim` is empty exactly for all-whitespace text and otherwise neither starts nor ends with whitespace |
| Strings.TrimIsSlice | ThaiNLPAnalyzer.js:58 | `trim` returns the slice of the text that follows its leading whitespace and is followed only by whitespace, so the inner text, inner whitespace included, is kept |
| Strings.TrimNoWhitespace | ThaiNLPAnalyzer.js:60 | trim leaves text without whitespace unchanged |
| Strings.StripTrim | ThaiNLPAnalyzer.js:60 | trimming never loses a non-whitespace character |
| Strings.ContainsAt | ThaiNLPSystem.js:51 | `includes` holds exactly when the needle occurs at some position of the haystack |
| Tallies.Tally | ThaiNLPAnalyzer.js:133-136 | the counts have one key per distinct element, each mapped to its positive number of occurrences |
| Tallies.TallySum | ThaiNLPAnalyzer.js:133-136 | the counts add up to the length of the list |
| ThaiNLPAnalyzer.ClassifyExactly | ThaiNLPAnalyzer.js:110-116 | each class holds exactly when its own range test holds (the three ranges are disjoint); only ฯ and ์ are classified special |
| ThaiNLPAnalyzer.SpecialCharsShadowed | ThaiNLPAnalyzer.js:22 | ๆ and ฿ classify as vowels and ็ ่ ้ ๊ ๋ as tone marks |
| ThaiNLPAnalyzer.ClassCountsSum | ThaiNLPAnalyzer.js:146-149 | the five class counts add up to the number of characters |
| ThaiNLPAnalyzer.CharacterCountsSum | ThaiNLPAnalyzer.js:145-149 | consonants, vowels, tones, special and the uncounted others add up to the length of the text |
| ThaiNLPAnalyzer.DistributionConsistent | ThaiNLPAnalyzer.js:150-153 | the distribution sums to the length, has a key for exactly the classes present, and agrees with the four counts |
| ThaiNLPAnalyzer.SentimentBounded | ThaiNLPAnalyzer.js:120-123 | the sentiment score lies between minus the number of words and the number of words |
| ThaiNLPAnalyzer.PolitenessBounded | ThaiNLPAnalyzer.js:120-123 | the politeness score lies between 0 and the number of words |
| ThaiNLPAnalyzer.MarkersInMembers | ThaiNLPAnalyzer.js:126-131 | the Set holds exactly the lexicon entries the text includes, each once |
| ThaiNLPAnalyzer.MarkersInIsOccurring | ThaiNLPAnalyzer.js:126-131 | over a lexicon without repeats the Set is the plain filter of occurring entries, in lexicon order |
| ThaiNLPAnalyzer.QuestionLexiconDistinct | ThaiNLPAnalyzer.js:80-83 | the question lexicon has no repeated entry |
| ThaiNLPAnalyzer.ScoreWords | ThaiNLPAnalyzer.js:118-124 | the `forEach` pass computes the sentiment and politeness scores of the word list |
| ThaiNLPAnalyzer.FindQuestionWords | ThaiNLPAnalyzer.js:126-131 | the `forEach` pass fills the Set with the question markers of the text |
| ThaiNLPAnalyzer.CountWords | ThaiNLPAnalyzer.js:133-136 | the `forEach` pass leaves the tally of the words |
| ThaiNLPAnalyzer.AnalyzeText | ThaiNLPAnalyzer.js:106-172 | the record returned is the specified analysis of the text |
| ThaiNLPAnalyzer.WordStatsConsistent | ThaiNLPAnalyzer.js:138-144 | the frequencies sum to the word count, count each word's occurrences, and uniqueWords is the number of distinct words |
| ThaiNLPAnalyzer.SentimentConsistent | ThaiNLPAnalyzer.js:155-159 | the absolute sentiment score is at most the word count; the label is positive, negative or neutral exactly as the score is positive, negative or zero |
| ThaiNLPAnalyzer.PolitenessConsistent | ThaiNLPAnalyzer.js:160-166 | the politeness score lies in [0, wordCount]; the level is very polite above 2, polite for 1 and 2, casual at 0 |
| ThaiNLPAnalyzer.QuestionsConsistent | ThaiNLPAnalyzer.js:167-170 | the question words are the lexicon entries the raw text contains, in lexicon order, and isQuestion holds iff one occurs |
| ThaiNLPAnalyzer.AnalyzeEmpty | ThaiNLPAnalyzer.js:138-171 | the empty text has no words, a neutral score, a casual style and no question |
| ThaiNLPSystem.NamesDistinct | ThaiNLPSystem.js:54-55 | label names are compared as strings, and distinct labels have distinct names |
| ThaiNLPSystem.ContextBonus | ThaiNLPSystem.js:53-57 | at most three tenths; none without a context; all three exactly when every field is present and equal to the input's |
| ThaiNLPSystem.Confidence | ThaiNLPSystem.js:49-61 | 10 exactly for an exact match, 0 exactly when neither string contains the other, and 5 to 8 otherwise |
| ThaiNLPSystem.EmptyStringScores | ThaiNLPSystem.js:51 | an empty target, or an empty input, scores at least 5 |
| ThaiNLPSystem.ContainedWithoutContext | ThaiNLPSystem.js:51-58 | a contained, non-identical target without a context scores exactly 5 |
| ThaiNLPSystem.BestIndex | ThaiNLPSystem.js:34-42 | over a list of scores: none exactly when every score is 0; otherwise the first maximal score, which is positive and strictly above every earlier one |
| ThaiNLPSystem.BestMatch | ThaiNLPSystem.js:33-42 | none exactly when every entry scores 0; otherwise the index of the first entry of maximal, positive confidence |
| ThaiNLPSystem.GenerateResponse | ThaiNLPSystem.js:32-47 | the scan with strict `>` returns the replacement of the kept entry, or the default reply when none is kept |
| ThaiNLPSystem.ResponseChoice | ThaiNLPSystem.js:44-46 | the default when all entries score 0, including the empty table; otherwise the replacement of the first maximal entry |
| ThaiNLPSystem.ExactMatchWins | ThaiNLPSystem.js:38-40 | the first entry whose target equals the input supplies the answer; a later entry never displaces it |
| ThaiNLPSystem.EmptyInputNeverDefaults | ThaiNLPSystem.js:51 | for the empty input a non-empty table always supplies a match |
| ThaiNLPSystem.SameMatchesSameResponse | ThaiNLPSystem.js:36-45 | the answer depends on the input only through the context and which targets equal or contain it or are contained in it |
| ThaiNLPSystem.SameConfidencesSameMatch | ThaiNLPSystem.js:36-42 | equal confidences for every entry select the same entry |
| ThaiNLPSystem.DefaultPrefix | ThaiNLPSystem.js:63-72 | the four fallback replies begin ขออ, ขอโ, ขอบ and เข้ |
| ThaiNLPSystem.DefaultResponseDecidedBy | ThaiNLPSystem.js:63-72 | two contexts get the same fallback exactly when they agree on being a question and on being very polite |
| ThaiNLPSystem.ProcessInput | ThaiNLPSystem.js:19-30 | the answer is the response chosen for the context made of the sentiment label, the politeness level and the question flag |
| ThaiNLPSystem.ProcessEmpty | ThaiNLPSystem.js:19-30 | with an empty table the empty input gets the casual non-question reply เข้าใจแล้ว ขอบคุณนะ |

## Left out

- Reading `custom_dict.json` and the never-used `customDict` (ThaiNLPAnalyzer.js:98-103): file I/O with no effect on any result.
- `loadMappings` and the constructors (ThaiNLPSystem.js:6-17): file I/O and JSON parsing. The table is a parameter: a sequence of entries with a string target, a string replacement and an optional context.
- The `module.exports` wiring: it has no behaviour.
- Floating point: confidence is in integer tenths, which order the entries exactly as the floats do (see above).
- UTF-16: text is a sequence of Unicode scalar values. `text.length`, `text[i]` and `Array.from` agree only on the Basic Multilingual Plane; characters outside it are not modelled.
- JavaScript object-key quirks of `wordFreq` and `distribution` (keys such as `__proto__`, key order): they are modelled as maps.
- Mapping entries whose target or replacement is not a string are not modelled. A context field holding a JSON value of another type never equals the input's context, so it is modelled as an absent field.
- ThaiWordSegmentation.SegmentWords: the final `.filter(w => w !== ' ')` is not applied; `SegmentWordsWellFormed` proves it removes nothing.
- ThaiNLPSystem.GenerateResponse: returns the reply string rather than a `{response}` object; `ProcessInput` wraps it as the source's `processInput` does.
