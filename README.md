# Jaide tutor core in Dafny

Jaide is an English-practice chatbot. This project models three parts of it and proves properties about each.

- **The pronunciation scorer** (`error_detection.dfy`, module `ErrorDetection`):
  - It splits the target and user phoneme lists (ARPAbet in the source's table) into words at the `" "` token. Any other symbol counts as one letter.
  - It compares each word pair with a longest-common-subsequence (LCS) table.
  - It maps the target phonemes that are not on the LCS onto character offsets of the target phrase, using the one-or-two-letters-per-phoneme table.
  - It reports red character marks, the mistakes of each word, and an accuracy percentage.
- **The phoneme front end** (`text_processing.dfy`, module `TextProcessing`):
  - It removes stress digits from the grapheme-to-phoneme output.
  - It translates ARPAbet into IPA through the fixed 39-entry table and keeps word separators.
- **The conversation state machine** (`jaide.dfy`, module `Jaide`):
  - The `Tutor` class holds the user's name, the current topic and question, the questions used so far, and the conversation state. It greets, takes a name, then asks practice questions.
  - The name fallback reads "my name is …", "i am …" and "i'm …".
  - The question picker changes topic once every question of the current topic is used.
  - Replies are filled in from the response, feedback and transition templates.

Two helper modules support them:

- `py_strings.dfy` (module `PyStrings`) models the Python string operations the core relies on: `split()`, `strip()`, `str.find` / `in`, `split(sep, 1)[1]`, `lower()`, `capitalize()`, `title()` and `' '.join`.
- `wrappers.dfy` (module `Wrappers`) holds `Option` and `Result`.

Outside services are not modelled. They become parameters of the operations that use them:

- the g2p model's phoneme output;
- spaCy's entity lists for the user input and for the corrected sentence;
- the grammar model's corrected sentence and its feedback lines.

Wherever the source calls `random.choice`, the model picks any allowed value with `:|`. The contracts then state what holds for every choice.

## Model

| member | source | states |
|---|---|---|
| ErrorDetection.CharCount | src/error_detection.py:3-15 | `PHONEME_MAPPINGS.get(p, 1)`: the table's count for a listed phoneme, 1 for any other, and always 1 or 2 |
| ErrorDetection.Lcs | src/error_detection.py:25-30 | the LCS length of two prefixes is at most either prefix's length |
| ErrorDetection.MatchesLength | src/error_detection.py:32-44 | the traceback path collects exactly `Lcs` matched pairs |
| ErrorDetection.MatchesAreCommonSubsequence | src/error_detection.py:32-44 | the traceback pairs are equal elements in strictly increasing positions of both lists |
| ErrorDetection.LcsIsLongest | src/error_detection.py:25-30 | no common subsequence is longer than the table's value, so the table holds the longest one |
| ErrorDetection.LcsTable | src/error_detection.py:22-30 | the filled `(m+1)×(n+1)` table holds the LCS length of every pair of prefixes |
| ErrorDetection.Traceback | src/error_detection.py:32-44 | the traceback loop collects the target indices of the LCS path |
| ErrorDetection.GetLcsIndices | src/error_detection.py:17-47 | the result is the set of target indices not on the LCS path |
| ErrorDetection.TargetsSize | src/error_detection.py:34-44 | the target indices of a strictly increasing path are distinct, so their count equals the path length |
| ErrorDetection.MispronouncedSize | src/error_detection.py:47 | the mispronounced indices are valid target indices, and there are `len(target) - LCS` of them |
| ErrorDetection.Mispronounced | src/error_detection.py:47 | every mispronounced index is a valid index of the target word |
| ErrorDetection.IdenticalHasNoErrors | src/error_detection.py:17-47 | a user word identical to the target has no mispronounced phoneme |
| ErrorDetection.EmptyUserAllErrors | src/error_detection.py:17-47 | against an empty user word, every target phoneme is mispronounced |
| ErrorDetection.CharMapping | src/error_detection.py:49-68 | entry `k` of the mapping is `(phoneme, k)`, and each phoneme index is in range |
| ErrorDetection.CharMapFrom | src/error_detection.py:58-67 | the loop adds an entry exactly when phonemes remain and the character offset is inside the word |
| ErrorDetection.CharMapRanges | src/error_detection.py:58-67 | the mapping covers consecutive character offsets, one pair per character, starting at the first offset |
| ErrorDetection.CharMapOrder | src/error_detection.py:58-67 | phoneme indices start at the first phoneme and rise by 0 or 1 from one entry to the next |
| ErrorDetection.CharMapCounts | src/error_detection.py:60-64 | each phoneme covered by the loop appears `PHONEME_MAPPINGS.get(p, 1)` times |
| ErrorDetection.CharMapStops | src/error_detection.py:58-64 | the loop adds nothing exactly when no phoneme is left or the offset is already at the word's end; otherwise it runs until the phonemes run out or the offset reaches the word's end, its last phoneme starts at an offset inside the word, and it ends at most one offset past the word |
| ErrorDetection.CharMapLastInside | src/error_detection.py:58-64 | the last phoneme the loop covers starts at a character offset inside the word |
| ErrorDetection.CharMappingOvershoot | src/error_detection.py:63-64 | a two-letter phoneme on the last letter maps one offset past the word (`"a"`, `["DH"]`) |
| ErrorDetection.CreatePhonemeToCharMapping | src/error_detection.py:49-68 | the nested loops build exactly `CharMapping(word, phonemes)` |
| ErrorDetection.Groups | src/error_detection.py:70-80 | splitting always yields at least one word |
| ErrorDetection.GroupsShape | src/error_detection.py:70-80 | there is one more word than there are `" "` tokens, and no word contains `" "` |
| ErrorDetection.JoinGroups | src/error_detection.py:70-80 | joining the split words with `" "` gives back the phoneme list |
| ErrorDetection.GroupsOfJoin | src/error_detection.py:70-80 | splitting a `" "`-join of separator-free words gives back those words |
| ErrorDetection.SplitPhonemes | src/error_detection.py:70-80 | the loop builds exactly `Groups(phonemes)` |
| ErrorDetection.WordEndsInPhrase | src/error_detection.py:109 | `word_start` plus the word's length stays within the space-joined phrase |
| ErrorDetection.WordStartNext | src/error_detection.py:109 | each word's `word_start` is the previous word's start plus its length plus one separating space |
| ErrorDetection.WordMarksMeaning | src/error_detection.py:111-115 | an offset is marked exactly when a mapping entry of a mispronounced phoneme points to it |
| ErrorDetection.WordErrors | src/error_detection.py:111-116 | a word lists at most as many mistakes as its mapping has entries |
| ErrorDetection.WordErrorsMeaning | src/error_detection.py:111-116 | each listed mistake is a target phoneme at a mispronounced index, and the list is empty exactly when no mapping entry names such an index |
| ErrorDetection.WordMarksCount | src/error_detection.py:111-116 | a word gets as many marks as listed mistakes, all inside its offsets |
| ErrorDetection.Analyses | src/error_detection.py:101-107 | there is one analysis per word, and its mapping only names phonemes of that word |
| ErrorDetection.AnalysesSound | src/error_detection.py:105-107 | each word has no more mispronounced indices than phonemes, and its mapping names the character offsets `0, 1, ...` and ends at most one offset past the word |
| ErrorDetection.ProgressNext | src/error_detection.py:99-123 | one loop iteration adds the word's marks, feedback entry and phoneme counts to the running totals |
| ErrorDetection.MarkWord | src/error_detection.py:110-116 | the inner loop adds the word's red marks to `incorrect_indices` and returns its mistakes |
| ErrorDetection.ScoreEachWord | src/error_detection.py:97-128 | the word loop builds the report `ScoreWords` describes, or fails with `IndexError` for a missing word |
| ErrorDetection.GetPronunciationScore | src/error_detection.py:82-128 | the score of a phrase is the word loop over the split phrase and the split phoneme lists |
| ErrorDetection.ProgressCounts | src/error_detection.py:122-123 | `0 <= correct <= total`, with equality exactly when no word has a mispronounced phoneme |
| ErrorDetection.ProgressFeedback | src/error_detection.py:118-121 | the feedback has one entry per word, holding that word and its mistakes |
| ErrorDetection.ProgressMarks | src/error_detection.py:115 | the marks stay below the next word's start, and the number of marks equals the number of listed mistakes |
| ErrorDetection.ProgressPerfect | src/error_detection.py:111-116 | with no mispronounced phoneme there are no marks and no mistakes |
| ErrorDetection.WordWithoutErrors | src/error_detection.py:111-116 | a word without mispronounced phonemes adds no mark and no mistake |
| ErrorDetection.ProgressTotal | src/error_detection.py:122 | `total_phonemes` is the number of target phonemes in the scored words |
| ErrorDetection.Accuracy | src/error_detection.py:125-126 | with no phonemes the accuracy stays 0; otherwise accuracy times `total_phonemes` equals `correct_phonemes` times 100 |
| ErrorDetection.RatioBounds | src/error_detection.py:126 | a ratio of a part to a positive whole, times 100, lies in `[0, 100]` and is 100 exactly when the part is the whole |
| ErrorDetection.AccuracyRange | src/error_detection.py:125-126 | accuracy lies in `[0, 100]`, is 100 exactly when there are phonemes and all are correct, and stays 0 when there are no phonemes |
| ErrorDetection.ScoreFailure | src/error_detection.py:99-102 | scoring fails exactly when the phrase has more words than either phoneme list |
| ErrorDetection.ScoreWords | src/error_detection.py:97-128 | the word loop fails exactly when the phrase has more words than either phoneme list, and otherwise gives one feedback entry per word |
| ErrorDetection.Score | src/error_detection.py:82-128 | a successful score has one feedback entry per word of the phrase |
| ErrorDetection.ScoreAccuracy | src/error_detection.py:82-128 | a report's accuracy lies in `[0, 100]`; it is 100 exactly when the words have target phonemes and none is mispronounced, and it stays 0 when the words have no target phoneme |
| ErrorDetection.ScoreMarks | src/error_detection.py:111-115 | every mark is `"red"`, lies within one offset past the joined phrase, and there is one mark per listed mistake |
| ErrorDetection.ProgressMarksMeaning | src/error_detection.py:111-115 | after `n` words, an offset is marked exactly when some word `i < n` has a mapping entry whose phoneme is mispronounced and whose offset, plus `word_start` of word `i`, is that offset |
| ErrorDetection.ScoreWordsMarksMeaning | src/error_detection.py:111-115 | a key of `incorrect_indices` is exactly `word_start` of some word `i` plus the character offset of a mapping entry of word `i` whose phoneme is mispronounced |
| ErrorDetection.ScoreMarksMeaning | src/error_detection.py:82-115 | the same characterisation of the keys of `incorrect_indices`, for the words and phoneme groups of the scored phrase |
| ErrorDetection.ScoreFeedback | src/error_detection.py:118-121 | feedback entry `i` is word `i` of the phrase, and its mistakes are target phonemes at mispronounced indices |
| ErrorDetection.PerfectScore | src/error_detection.py:82-128 | a user phoneme list identical to the target scores successfully with no marks and no mistakes, and with accuracy 100 when the words have target phonemes |
| TextProcessing.RemoveDigits | src/text_processing.py:13 | removing digits never lengthens a token |
| TextProcessing.RemoveDigitsClean | src/text_processing.py:13 | no digit is left |
| TextProcessing.RemoveDigitsKeeps | src/text_processing.py:13 | a token without digits is unchanged |
| TextProcessing.RemoveDigitsCounts | src/text_processing.py:13 | every non-digit character keeps its count, and digits are gone |
| TextProcessing.RemoveDigitsConcat | src/text_processing.py:13 | digit removal works piecewise over concatenation |
| TextProcessing.RemoveDigitsIdempotent | src/text_processing.py:13 | removing digits twice is the same as once |
| TextProcessing.StripStress | src/text_processing.py:13 | there is one output token per input token |
| TextProcessing.StripStressAt | src/text_processing.py:13 | token `i` of the output is token `i` of the input with its digits removed |
| TextProcessing.StripStressClean | src/text_processing.py:13 | no output token has a digit, and tokens without digits pass through unchanged |
| TextProcessing.StripStressIdempotent | src/text_processing.py:13 | stripping stress twice is the same as once |
| TextProcessing.ArpaKeyLength | src/text_processing.py:15-23 | every ARPAbet key has one or two letters |
| TextProcessing.ArpaToIpaInverse | src/text_processing.py:15-23 | every IPA value maps back to its ARPAbet key and is never the word separator |
| TextProcessing.SeparatorNotInTables | src/text_processing.py:31-34 | the `" "` separator is neither a key nor a value of the table, so the two branches never overlap |
| TextProcessing.ArpaToIpaInjective | src/text_processing.py:15-23 | distinct ARPAbet symbols have distinct IPA symbols |
| TextProcessing.IpaOf | src/text_processing.py:31-34 | a token contributes at most one symbol, and one exactly when it is an ARPAbet symbol or the separator; it contributes the separator exactly when it is the separator, and otherwise an IPA symbol that maps back to the token |
| TextProcessing.ToIpa | src/text_processing.py:30-34 | the IPA list is never longer than the token list |
| TextProcessing.TextToIpaPhoneme | src/text_processing.py:26-36 | the loop translates the stress-free tokens exactly as `ToIpa` describes |
| TextProcessing.ToIpaConcat | src/text_processing.py:30-34 | translation works piecewise over concatenation |
| TextProcessing.ToIpaShape | src/text_processing.py:30-34 | the output is no longer than the input, and each output token is the separator or an IPA symbol from the table |
| TextProcessing.ToIpaDropsUnknown | src/text_processing.py:30-34 | tokens that are neither symbols nor separators produce nothing |
| TextProcessing.ToIpaSeparators | src/text_processing.py:33-34 | the number of word separators is preserved, so word splitting sees the same number of words |
| TextProcessing.ToIpaRoundTrip | src/text_processing.py:30-34 | mapping the IPA output back gives the recognised input tokens, in order |
| TextProcessing.TextToIpaRoundTrip | src/text_processing.py:26-36 | the full conversion can be undone to the recognised stress-free tokens and never lengthens the list |
| PyStrings.SplitWhitespace | src/error_detection.py:90 | `str.split()` yields non-empty words without whitespace |
| PyStrings.Join | src/error_detection.py:109 | the length of a `' '.join` of at least one word is the total word length plus one per gap |
| PyStrings.SplitJoin | src/error_detection.py:90 | splitting a space-join of whitespace-free words gives back the words |
| PyStrings.SplitStrip | src/jaide.py:192 | `strip()` before `split()` changes nothing |
| PyStrings.SplitAllSpace | src/jaide.py:192 | `split()` is empty exactly when the string is all whitespace |
| PyStrings.SplitFirstWord | src/jaide.py:192 | `split()[0]` is the first run of non-space characters, after leading whitespace |
| PyStrings.Strip | src/jaide.py:192 | `strip()` never lengthens the text and leaves it empty or with non-whitespace at both ends |
| PyStrings.StripLeft | src/jaide.py:192 | the left strip is a suffix of the text, and what it removed is all whitespace |
| PyStrings.StripRight | src/jaide.py:192 | the right strip is a prefix of the text, and what it removed is all whitespace |
| PyStrings.Find | src/jaide.py:191-196 | the first occurrence of the pattern, or none when it occurs nowhere |
| PyStrings.AfterFirst | src/jaide.py:192-196 | `split(pat, 1)[1]` is the text after the first occurrence of the pattern: the pattern occurs just before it and nowhere earlier |
| PyStrings.LowerChar | src/jaide.py:187 | an upper-case letter becomes the lower-case letter 32 code points above it; every other character is unchanged |
| PyStrings.UpperChar | src/jaide.py:190 | a lower-case letter becomes an upper-case letter that lower-cases back to it; every other character is unchanged |
| PyStrings.Lower | src/jaide.py:187 | `lower()` keeps the length, lower-cases each character in place, and leaves no upper-case letter |
| PyStrings.Capitalize | src/jaide.py:190 | `capitalize()` keeps the length, upper-cases the first character and lower-cases every later one in place, so no lower-case letter comes first and no upper-case letter after it |
| PyStrings.CapitalizeNoSpace | src/jaide.py:192 | capitalizing a word without whitespace leaves it without whitespace |
| PyStrings.CapitalizeLower | src/jaide.py:187-190 | capitalizing the lower-cased input is the same as capitalizing the input |
| PyStrings.Title | src/jaide.py:275 | `title()` keeps the length |
| PyStrings.TitleAt | src/jaide.py:275 | a letter after a cased letter is lower-cased, and any other letter is upper-cased |
| Jaide.PracticeTopicsShape | src/jaide.py:34-105 | every practice topic has five questions |
| Jaide.Spaced | src/jaide.py:283 | `replace('_', ' ')` keeps the length, turns every `_` into a space, leaves no `_` and changes nothing else |
| Jaide.Format | src/jaide.py:302 | `format` replaces the first `{}` by the argument, keeping the text before and after it, or leaves a template without `{}` alone |
| Jaide.NameAfter | src/jaide.py:192-196 | the word after the phrase, capitalized, is a non-empty single word that does not start with a lower-case letter and has no upper-case letter after the first |
| Jaide.NameAfterMeaning | src/jaide.py:192-196 | the name is missing (Python's `IndexError`) exactly when only whitespace follows the first occurrence of the phrase; otherwise it is the capitalized first word after it |
| Jaide.DetectNameFallback | src/jaide.py:185-198 | a found name is non-empty, does not start with a lower-case letter and has no upper-case letter after the first; once a name is known, any reply that is not one word gives `"Friend"`; failure needs an unknown name |
| Jaide.NameFromPhrases | src/jaide.py:191-198 | a found name is non-empty, does not start with a lower-case letter and has no upper-case letter after the first; once a name is known the result is `"Friend"`; failure needs an unknown name |
| Jaide.FallbackChoice | src/jaide.py:191-198 | with no name known and a reply of other than one word, the rules apply in order: the word after "my name is", else after "i am", else after "i'm", else `"Friend"` |
| Jaide.OneWordName | src/jaide.py:189-190 | any reply that lower-cases to one word is the name, capitalized with its surrounding whitespace, whether or not a name is known |
| Jaide.IntroducedName | src/jaide.py:191-192 | "my name is w" gives `w` capitalized |
| Jaide.Unused | src/jaide.py:230-231 | the unused questions are at most the topic's questions |
| Jaide.UnusedMeaning | src/jaide.py:230-231 | a question is available exactly when it belongs to the topic and has not been used |
| Jaide.UnusedShrinks | src/jaide.py:241-243 | asking an available question leaves fewer available |
| Jaide.NextQuestionPossible | src/jaide.py:227-244 | a next question always exists, because every topic has questions and there are several topics |
| Jaide.NextQuestionFresh | src/jaide.py:230-243 | without a change of topic, the question was not asked before, and fewer questions remain available |
| Jaide.NextQuestionOnTopic | src/jaide.py:237-243 | all used questions belong to the current topic |
| Jaide.Exhausted | src/jaide.py:230-234 | a topic is exhausted exactly when all its questions have been used |
| Jaide.NextQuestion | src/jaide.py:227-244 | the asked question is in the new used set, which otherwise holds only questions used before |
| Jaide.FirstLabelled | src/jaide.py:273-276 | no text is found exactly when no entity has a wanted label; a found text is that of an entity with a wanted label |
| Jaide.FindEntity | src/jaide.py:293-296 | the loop returns the text of the first entity whose label is wanted |
| Jaide.NameFor | src/jaide.py:272-278 | a chosen name is never empty |
| Jaide.ChooseName | src/jaide.py:271-278 | the entity loop and fallback choose exactly the name `NameFor` describes |
| Jaide.NameGreeting | src/jaide.py:279-284 | the reply starts with "Nice to meet you, " and the name and ends with the question |
| Jaide.RelevantLabels | src/jaide.py:289 | a topic has wanted labels exactly when it has response templates |
| Jaide.CommentFor | src/jaide.py:298-304 | every allowed comment is non-empty |
| Jaide.Advance | src/jaide.py:258-287 | no reply returns to the greeting state, and after the greeting the state is `CONVERSING` |
| Jaide.AdvanceReachesConversing | src/jaide.py:266-281 | two replies always reach `CONVERSING`, and `CONVERSING` is kept |
| Jaide.Tutor.constructor | src/jaide.py:165-169 | a new tutor has no name, question or used questions, is in the greeting state, and its topic is a practice topic |
| Jaide.Tutor.ResetConversation | src/jaide.py:221-225 | the name and used questions are cleared, the state returns to the greeting, a practice topic is chosen, and the current question is kept |
| Jaide.Tutor.GetNextPracticeQuestion | src/jaide.py:227-244 | the question is an unused one of the current topic, or one of a different topic with the used set restarted once the topic is exhausted; `topic_changed` is reported exactly then |
| Jaide.Tutor.AcceptName | src/jaide.py:269-285 | the name `NameFor` chooses is stored, the state becomes `CONVERSING` and the first question is asked with the greeting; when no name can be determined, nothing changes |
| Jaide.Tutor.Greet | src/jaide.py:278-285 | the name is stored, the state becomes `CONVERSING` and the next practice question is asked in the greeting reply |
| Jaide.Tutor.Converse | src/jaide.py:287-318 | the comment, grammar feedback and next question are returned, with a transition line exactly when the topic changed |
| Jaide.Tutor.Respond | src/jaide.py:256-318 | each state's reply and next state, with the state invariant kept |

## Left out

- Outside services are represented only by their results:
  - g2p's phoneme output;
  - spaCy's entity lists;
  - the grammar model's corrected sentence and its feedback lines.
  - `check_grammar` and `explain_differences` (src/jaide.py:176-183 and src/jaide.py:200-219) are not modelled, because they only wrap foreign models.
- `get_pronunciation_help` and `bot_name` are not part of this model. Neither belongs to the scorer or the conversation state machine.
- `random.choice` becomes a nondeterministic choice among the allowed values.
  - Every contract holds for every choice.
  - The re-roll loop at src/jaide.py:235-236 is modelled by its outcome: a topic different from the previous one. Its possible non-termination under a bad random source is not modelled.
- `ErrorDetection.Accuracy` computes over Dafny's exact `real`, not Python's floating point.
- `PyStrings.Lower`, `PyStrings.Capitalize` and `PyStrings.Title` map case for ASCII letters only. Python maps all of Unicode.
- `TextProcessing.RemoveDigits` removes the ASCII digits `0`-`9`. Python's `\d` matches all Unicode decimal digits.
- `Jaide.Format` fills only the first `{}`. Every template in the source has at most one.
- `ErrorDetection.ScoreMarks`: a two-letter phoneme on a word's last letter marks one offset past the word (`ErrorDetection.CharMappingOvershoot`). This matches the source, so the bound is "within one offset past the phrase".
- The scorer compares phonemes by LCS only, and every mark is `"red"`. A phrase with more words than phoneme words fails with the `IndexError` of src/error_detection.py:101-102.
- `Jaide.DetectNameFallback` models two quirks of the source as written:
  - It checks for `"i am "` and `"i'm "` with a trailing space, but splits at `"i am"` and `"i'm"`. The name is therefore taken after the first `"i am"`, which may occur before the checked spaced one.
  - A one-word reply is capitalized with its surrounding whitespace kept, as `lower_input.capitalize()` does.
- Each of `get_lcs_indices`, `get_pronunciation_score` and `respond` is split into several Dafny methods to keep the proofs small. The pieces are `LcsTable`/`Traceback`, `ScoreEachWord`/`MarkWord`, and `AcceptName` (through `ChooseName` and `Tutor.Greet`)/`Converse`. `detect_name_fallback` is likewise split at its one-word test into `DetectNameFallback` and `NameFromPhrases`, which keeps the `elif` chain with its conditions in order.
- `grammar_feedback or []` is modelled as the feedback list. `check_grammar` always returns a list.
