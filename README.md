# Bilingual medical chatbot: a verified model of its decision logic

The system is a question-and-answer assistant about women's cancers that works in
English and Bengali. It has three parts, and this project models the decision logic
of each in Dafny:

- **The chat page** (`chatbot-frontend/src/app/page.tsx`).
  - It detects the language of a question by a script test.
  - It translates through a chain of providers: a primary translation route, then
    MyMemory (whose echo of the input is rejected), then a dictionary of medical
    terms used only towards Bengali, then the original text behind a marker.
  - It sends the question to the answer service and appends exactly one user
    message and one bot message per submission.
  - It captures speech into the input box and reads replies aloud, keeping at most
    one reply marked as speaking.
  - It has a single notification slot.
- **The keyword back end** (`main.py`).
  - Questions and rows are reduced to keyword sets, with stop words and punctuation
    removed for English and only punctuation removed for Bengali.
  - Rows are scored by Jaccard similarity.
  - The answer comes from the first row with the highest score.
- **The fuzzy-matching bot** (`chatbot.py`).
  - A normalized query is scored against every stored question.
  - The first row with the best score of at least 80 wins; otherwise a fixed
    message in the input's language is returned.
  - Each processed input adds one entry to the session history, and the history
    panel shows the last five entries, newest first.

## Modules

- `Wrappers` holds `Option`.
- `Text` holds the string operations the code borrows from its runtimes:
  - case folding;
  - literal case-insensitive global replacement, with the lemma that replacement
    leaves no occurrence behind when the replacement text cannot form one;
  - trimming with the JavaScript and the Python whitespace classes.
- `Language` holds the two languages and the Bengali-block test.
- `Translation` holds the translation chain as a function of the providers'
  outcomes (`Translate`). The imperative methods `TranslateChain`,
  `FallbackTranslation` and `SubstituteInOrder` are proved equal to it.
- `ChatPage` holds the class `Page`.
  - Its fields are the page's state: question, loading, history, listening,
    translating, toast, live audio and the question in flight.
  - Its methods are the handlers.
  - Its invariant `Valid` says that speaking flags follow the live audio, a reply
    is awaited exactly while loading, no translation runs between steps, and the
    page listens only when it has a recognizer.
  - A submission is split at its first asynchronous call into `Submit` and
    `Finish`. `AskQuestion` composes the two.
- `KeywordRetrieval` holds the keyword back end. The class `App` holds the global
  stop words, the processed table and the score column.
- `FuzzyMatcher` holds the fuzzy bot. `FindAnswer` is its loop. The class
  `Session` holds the chat history.

The following things become parameters of the model:
- what the network, the speech recognizer and the speech service did, as outcome
  datatypes;
- the tokenizer and the stop-word list;
- the fuzzy similarity score;
- the question's language on the keyword back end;
- the clock's timestamp.

Behaviours of the code that are easy to miss:

- **Starting capture while already listening.** The microphone button toggles, so
  pressing it while listening stops listening (`PressMic`). `StartListening` itself
  has no guard, and a recognizer that refuses a second start shows the start error.
- **Text typed during a round trip is lost.** The input box is cleared when the
  reply comes back, even if the user typed something meanwhile (`Finish`).
- **The last dictionary entry never applies.** Its key contains "too late", which
  the entry before it has already replaced (`LastTermNeverApplies`).
- **The Ask button plays no part.** `chatbot.py` decides whether to process an
  input from the input alone (`AskButtonIrrelevant`).
- **An empty table fails the keyword endpoint.** With no rows, the arg-max of
  `main.py` fails, which the framework reports as a server error (`EmptyTable`).

## Model

| member | source | states |
|---|---|---|
| Language.Opposite | chatbot-frontend/src/app/page.tsx:83 | the source language differs from the target |
| Language.Tag | chatbot-frontend/src/app/page.tsx:78 | English is written "en" and Bengali "bn", and no other language has either tag |
| Language.HasBengali | chatbot.py:101-103 | true exactly when some character lies in U+0980..U+09FF |
| Language.DetectLanguage | chatbot-frontend/src/app/page.tsx:78 | Bengali exactly when some character lies in the Bengali block, English exactly when none does |
| Language.NoBengaliIsEnglish | chatbot-frontend/src/app/page.tsx:78 | text without a Bengali code point (empty, digits, punctuation, Latin) is English |
| Language.DetectMonotone | chatbot-frontend/src/app/page.tsx:78 | a concatenation is Bengali exactly when one of its parts is |
| Text.LowerChar | chatbot-frontend/src/app/page.tsx:124 | A..Z move up by 32, every other character is unchanged |
| Text.Lower | chatbot.py:131 | same length, each character folded |
| Text.LowerIdempotent | chatbot.py:131 | folding twice equals folding once |
| Text.LowerSlice | chatbot.py:131 | folding commutes with taking a slice |
| Text.Trim | chatbot-frontend/src/app/page.tsx:323 | the trimmed text is a slice of the input, and every character outside the slice is whitespace |
| Text.TrimSlice | chatbot.py:131 | dropping leading then trailing whitespace leaves one slice with only whitespace around it |
| Text.Leftmost | chatbot-frontend/src/app/page.tsx:169-170 | the first position where the key occurs ignoring case, or the length when it does not occur |
| Text.OccursInside | chatbot-frontend/src/app/page.tsx:162-163 | an occurrence of a text containing the key is an occurrence of the key |
| Text.ReplaceAllIdentity | chatbot-frontend/src/app/page.tsx:170 | `ReplaceAll`, the global case-insensitive replace, leaves a text without the key unchanged |
| Text.ReplaceAllAtLeftmost | chatbot-frontend/src/app/page.tsx:169-170 | replacement copies up to the leftmost occurrence, inserts the replacement and continues after the occurrence |
| Text.ReplaceAllEmpty | chatbot-frontend/src/app/page.tsx:170 | with a non-empty replacement the result is empty exactly when the input is |
| Text.ReplaceAllRemovesKey | chatbot-frontend/src/app/page.tsx:169-170 | no occurrence is left when the replacement's end characters fold apart from the key's and the key does not occur in the replacement |
| Text.RemovesKeyStep | chatbot-frontend/src/app/page.tsx:169-170 | the inductive step: a text with no occurrence before the leftmost one, then the replacement, then an occurrence-free rest, has none |
| Text.NoOccurrenceAcross | chatbot-frontend/src/app/page.tsx:170 | no occurrence spans the prefix, the inserted replacement and the rest |
| Text.TrimStart | chatbot-frontend/src/app/page.tsx:323 | a suffix of the input; every dropped character is whitespace; the result does not start with whitespace |
| Text.TrimEnd | chatbot-frontend/src/app/page.tsx:323 | a prefix of the input; every dropped character is whitespace; the result does not end with whitespace |
| Text.TrimEmptyIff | chatbot-frontend/src/app/page.tsx:323 | a text trims to empty exactly when all its characters are whitespace |
| Text.TrimEnds | chatbot.py:131 | a non-empty trimmed text starts and ends with non-whitespace |
| Text.TrimIdentity | chatbot.py:131 | trimming leaves a text with non-whitespace ends unchanged |
| Translation.PrimaryRequestFor | chatbot-frontend/src/app/page.tsx:83-94 | the request carries the text and the target, and the source is the opposite language |
| Translation.LangPairNamesSourceThenTarget | chatbot-frontend/src/app/page.tsx:108 | `LangPair`, the MyMemory language pair, names the source, then the target |
| Translation.PrimaryAccepted | chatbot-frontend/src/app/page.tsx:97-101 | a result is taken exactly when the reply is ok and its text is present and non-empty, and the result is that text |
| Translation.SecondaryAccepted | chatbot-frontend/src/app/page.tsx:120-126 | a result is taken exactly when the status is 200, the text is present and non-empty, and it differs from the input other than in letter case; the result is that text |
| Translation.MedicalTerm | chatbot-frontend/src/app/page.tsx:147-164 | each of the sixteen entries has a non-empty key and replacement |
| Translation.MedicalTermsKeysNonEmpty | chatbot-frontend/src/app/page.tsx:147-164 | the dictionary `MedicalTerms` has sixteen entries, all keys and replacements non-empty |
| Translation.Fallback | chatbot-frontend/src/app/page.tsx:145-176 | the dictionary fallback never returns the empty text |
| Translation.SubstituteInOrder | chatbot-frontend/src/app/page.tsx:166-171 | the replacement loop equals `SubstituteAll`, every entry applied in listed order |
| Translation.FallbackTranslation | chatbot-frontend/src/app/page.tsx:145-176 | the fallback method returns what `Fallback` specifies |
| Translation.Translate | chatbot-frontend/src/app/page.tsx:80-143 | the chain always yields a non-empty text and never fails |
| Translation.TranslateChain | chatbot-frontend/src/app/page.tsx:80-143 | the chain as run step by step returns what `Translate` specifies |
| Translation.PrimaryDecidesFirst | chatbot-frontend/src/app/page.tsx:86-105 | an accepted primary result wins; any other primary outcome acts like a thrown call and falls through |
| Translation.EchoIsRejected | chatbot-frontend/src/app/page.tsx:120-127 | a secondary text equal to the input up to case counts as no result |
| Translation.BadStatusIsNoResult | chatbot-frontend/src/app/page.tsx:120 | a secondary reply whose status is not 200 counts as no result, whatever its text |
| Translation.SecondaryFailureIsUnavailable | chatbot-frontend/src/app/page.tsx:113-115 | a thrown or non-ok secondary request gives "[Translation unavailable] " + text |
| Translation.NoProviderResult | chatbot-frontend/src/app/page.tsx:129-135 | with no result taken, the dictionary answers towards Bengali and "[Translation failed] " + text towards English |
| Translation.SubstituteAllEmpty | chatbot-frontend/src/app/page.tsx:166-171 | substitution with non-empty replacements empties only the empty text |
| Translation.SubstituteAllIdentity | chatbot-frontend/src/app/page.tsx:172 | a text without any key is returned unchanged by substitution |
| Translation.NoTermGivesMarker | chatbot-frontend/src/app/page.tsx:172 | a text without any dictionary key comes back behind the Bengali marker |
| Translation.SubstituteAllAppend | chatbot-frontend/src/app/page.tsx:168-171 | substituting with two lists in a row equals substituting with their concatenation |
| Translation.TooLateFacts | chatbot-frontend/src/app/page.tsx:162-163 | the Bengali for "too late" cannot form "too late", and "too late" occurs in the last key |
| Translation.TooLateBlocked | chatbot-frontend/src/app/page.tsx:162 | the Bengali for "too late" folds apart from it at both ends and does not contain it |
| Translation.TooLateInLastKey | chatbot-frontend/src/app/page.tsx:163 | "too late" occurs at position 6 of the last key |
| Translation.ShadowedLastTerm | chatbot-frontend/src/app/page.tsx:168-171 | a last entry whose key contains the previous key, whose replacement cannot form it, has no effect |
| Translation.LastTermNeverApplies | chatbot-frontend/src/app/page.tsx:162-171 | the dictionary gives the same result without its last entry |
| ChatPage.SpeakOnly | chatbot-frontend/src/app/page.tsx:283-285 | only the given message is marked as speaking; everything else is unchanged |
| ChatPage.ClearSpeakingAt | chatbot-frontend/src/app/page.tsx:307-311 | only the given message loses its mark |
| ChatPage.ClearAllSpeaking | chatbot-frontend/src/app/page.tsx:318 | every mark is cleared and nothing else changes |
| ChatPage.ConsistentGivesOneSpeaker | chatbot-frontend/src/app/page.tsx:274-320 | marks that follow the live audio leave at most one message speaking |
| ChatPage.SpeakOnlyConsistent | chatbot-frontend/src/app/page.tsx:283-285 | marking one message agrees with that message's audio being live |
| ChatPage.ClearAtConsistent | chatbot-frontend/src/app/page.tsx:307-311 | clearing the live message's mark agrees with no audio being live |
| ChatPage.ClearAllConsistent | chatbot-frontend/src/app/page.tsx:318 | clearing every mark agrees with any audio state |
| ChatPage.AppendSilentConsistent | chatbot-frontend/src/app/page.tsx:335 | appending an unmarked message keeps the marks consistent |
| ChatPage.AppendTranscript | chatbot-frontend/src/app/page.tsx:197 | old input, then one space only when the old input is non-empty, then the transcript |
| ChatPage.RecognitionErrorMessage | chatbot-frontend/src/app/page.tsx:204-208 | every error code gives a non-empty message |
| ChatPage.RecognitionMessagesDistinct | chatbot-frontend/src/app/page.tsx:204-208 | the generic message exactly for unknown codes; the three known codes have distinct messages |
| ChatPage.UserMessage | chatbot-frontend/src/app/page.tsx:329-333 | a user message holds the question and its detected language, with no question fields and no mark |
| ChatPage.BotReply | chatbot-frontend/src/app/page.tsx:367 | the answer when it is present and non-empty, otherwise the fixed text |
| ChatPage.Apology | chatbot-frontend/src/app/page.tsx:390-392 | the apology is non-empty |
| ChatPage.ApologyInReplyLanguage | chatbot-frontend/src/app/page.tsx:390-392 | the apology is detected as the reply language |
| ChatPage.BengaliApologyIsBengali | chatbot-frontend/src/app/page.tsx:391 | the apology to an English question is Bengali |
| ChatPage.EnglishApologyIsEnglish | chatbot-frontend/src/app/page.tsx:392 | the apology to a Bengali question is English |
| ChatPage.RequestFor | chatbot-frontend/src/app/page.tsx:340-359 | an English question is sent as written, a Bengali one as its translation; the reply language is the other one |
| ChatPage.ReplyMessage | chatbot-frontend/src/app/page.tsx:366-401 | the bot message is in the reply language and records the question; its text is the answer (translated to Bengali for English questions) or the apology |
| ChatPage.ReplyNonEmpty | chatbot-frontend/src/app/page.tsx:366-401 | a bot message is never empty, and a failed round trip answers in the reply language |
| ChatPage.Page.constructor | chatbot-frontend/src/app/page.tsx:59-68 | the page starts with empty input, history and toast, not loading, listening or translating |
| ChatPage.Page.ShowToast | chatbot-frontend/src/app/page.tsx:73-76 | the notification slot is overwritten and nothing else changes |
| ChatPage.Page.DismissToast | chatbot-frontend/src/app/page.tsx:504 | the slot is hidden and nothing else changes |
| ChatPage.Page.EditQuestion | chatbot-frontend/src/app/page.tsx:497 | only the input changes |
| ChatPage.Page.StartListening | chatbot-frontend/src/app/page.tsx:246-260 | no recognizer: only the error toast; otherwise listening, or not listening with the start error when the start throws |
| ChatPage.Page.StopListening | chatbot-frontend/src/app/page.tsx:262-272 | acts only while listening, and always ends not listening, whatever the stop call did |
| ChatPage.Page.OnRecognitionResult | chatbot-frontend/src/app/page.tsx:195-199 | the transcript is appended to the input and listening ends |
| ChatPage.Page.OnRecognitionError | chatbot-frontend/src/app/page.tsx:201-210 | listening ends and the code's message is shown |
| ChatPage.Page.OnRecognitionEnd | chatbot-frontend/src/app/page.tsx:212 | listening ends and nothing else changes |
| ChatPage.Page.PressMic | chatbot-frontend/src/app/page.tsx:498 | no effect without a recognizer or while a question is in flight; otherwise stop while listening, start otherwise |
| ChatPage.Page.SpeakText | chatbot-frontend/src/app/page.tsx:274-320 | no effect for a missing or empty message; otherwise only that message is marked, and a failed request clears every mark and shows the error; the history length is kept |
| ChatPage.Page.OnPlaybackEnded | chatbot-frontend/src/app/page.tsx:307-309 | only the live message's mark is cleared |
| ChatPage.Page.OnPlaybackError | chatbot-frontend/src/app/page.tsx:310-313 | only the live message's mark is cleared and the playback error is shown |
| ChatPage.Page.TranslateText | chatbot-frontend/src/app/page.tsx:80-143 | returns what the chain specifies, and the translating flag is false afterwards on every path |
| ChatPage.Page.Submit | chatbot-frontend/src/app/page.tsx:322-336 | refused exactly for a blank input or a question in flight; otherwise the user message is appended and the page waits |
| ChatPage.Page.Finish | chatbot-frontend/src/app/page.tsx:338-408 | sends the right request, appends exactly one bot message, shows the error on failure, and clears loading and the input |
| ChatPage.Page.AskQuestion | chatbot-frontend/src/app/page.tsx:322-409 | refused with no change, or exactly the user message and then one bot message, the error toast only on a failed answer; listening and audio untouched |
| ChatPage.Page.KeyPress | chatbot-frontend/src/app/page.tsx:411-416 | Enter without Shift submits, with the user message, one bot message and the error toast only on a failed answer, listening and audio untouched; any other key changes nothing |
| KeywordRetrieval.PunctuationDropped | main.py:45 | for the substring test `InPunctuation`, the empty token, each punctuation character and each run of neighbouring ones are filtered out |
| KeywordRetrieval.AlnumTokenKept | main.py:45 | a token with a letter or digit is never taken for punctuation |
| KeywordRetrieval.RepeatTokenKept | main.py:45 | a token repeating a character is never taken for punctuation |
| KeywordRetrieval.ExtractKeywords | main.py:39-45 | no keywords for a non-string; otherwise exactly the lowercased tokens that are neither stop words nor punctuation |
| KeywordRetrieval.ExtractKeywordsBengali | main.py:47-52 | no keywords for a non-string; otherwise exactly the tokens that are not punctuation |
| KeywordRetrieval.EnglishIsLoweredBengaliLessStopWords | main.py:39-52 | English keywords are the Bengali extraction of the lowercased text less the stop words, so they are disjoint from stop words and punctuation |
| KeywordRetrieval.EnglishIgnoresCase | main.py:43 | English extraction ignores letter case |
| KeywordRetrieval.LessAsymmetric | main.py:133-134 | ratio order is irreflexive and asymmetric |
| KeywordRetrieval.Jaccard | main.py:54-58 | at most one, and zero exactly for disjoint sets |
| KeywordRetrieval.JaccardSymmetric | main.py:54-58 | symmetric in its two sets |
| KeywordRetrieval.JaccardOneIff | main.py:54-58 | one exactly for equal non-empty sets |
| KeywordRetrieval.JaccardAtMostOne | main.py:54-58 | never above one |
| KeywordRetrieval.FirstArgMax | main.py:134 | a maximal score, and no earlier score reaches it |
| KeywordRetrieval.FirstMaxUnique | main.py:134 | there is only one first maximum |
| KeywordRetrieval.DropIncomplete | main.py:87 | exactly the rows with all four columns present are kept |
| KeywordRetrieval.DropIncompleteOne | main.py:87 | a single row is kept exactly when it is complete |
| KeywordRetrieval.DropIncompleteAppend | main.py:87 | the kept rows of two tables are those of the first followed by those of the second, so order and repeated rows are kept |
| KeywordRetrieval.DropIncompleteIdempotent | main.py:87 | dropping twice drops nothing more |
| KeywordRetrieval.Preprocess | main.py:86-90 | complete rows in order, each with its English and Bengali keyword columns |
| KeywordRetrieval.RowKeywords | main.py:133 | `en_keywords` for English, `bn_keywords` for Bengali |
| KeywordRetrieval.RowAnswer | main.py:135 | `Answers` for English, `Ans_Bengali` for Bengali |
| KeywordRetrieval.Scores | main.py:133 | each row's Jaccard score against the language's keyword column |
| KeywordRetrieval.PerfectMatchScoresOne | main.py:133-135 | a row with exactly the question's non-empty keywords makes the returned score one |
| KeywordRetrieval.App.constructor | main.py:30-34 | no table is loaded and no stop words are set before setup |
| KeywordRetrieval.App.SetupApplication | main.py:73-94 | stop words set first, then the cleaned table with its keyword columns stored |
| KeywordRetrieval.App.AnswerQuestion | main.py:118-140 | the not-loaded error without a table; otherwise the score column is written and the first best row's answer is returned with its score and language |
| FuzzyMatcher.NotFound | chatbot.py:145 | the fallback message is non-empty |
| FuzzyMatcher.Normalize | chatbot.py:131 | the normalized query is no longer than the input, already lowercase, and empty exactly when the input is all whitespace |
| FuzzyMatcher.RowQuery | chatbot.py:139-149 | `Queries_Bengali` for Bengali input, `Queries` otherwise |
| FuzzyMatcher.RowAnswer | chatbot.py:142-152 | `Ans_Bengali` for Bengali input, `Answers` otherwise |
| FuzzyMatcher.NormalizeIdempotent | chatbot.py:131 | stripping and lowercasing twice changes nothing more |
| FuzzyMatcher.Scores | chatbot.py:138-139 | each row's score (`Score`) is taken against the normalized query and the row's lowercased question column |
| FuzzyMatcher.BestExistsUnlessNoneQualifies | chatbot.py:134-142 | either no row reaches 80 or some row is chosen, never both |
| FuzzyMatcher.BestUnique | chatbot.py:140 | at most one row is chosen |
| FuzzyMatcher.FirstMax | chatbot.py:140-142 | the first position of the largest score |
| FuzzyMatcher.OrNotFound | chatbot.py:145 | a non-empty answer is returned as is, an empty one becomes the fixed message |
| FuzzyMatcher.NewLeader | chatbot.py:140-142 | a row above the leader so far becomes the leader |
| FuzzyMatcher.FirstLeader | chatbot.py:140-142 | the first row to reach 80 leads |
| FuzzyMatcher.StillNone | chatbot.py:140 | a row below 80 keeps the state of no candidate |
| FuzzyMatcher.SameLeader | chatbot.py:140 | a row no higher than the leader leaves it in place |
| FuzzyMatcher.LeaderFits | chatbot.py:138-145 | the leader over all rows is the only chosen row, and its answer is the one called for |
| FuzzyMatcher.NoneFits | chatbot.py:145 | when no row reaches 80 the fixed message is called for |
| FuzzyMatcher.FindAnswer | chatbot.py:130-155 | the fixed message when no row reaches 80; otherwise the answer of the first row with the best score, or the fixed message when that answer is empty |
| FuzzyMatcher.ShouldProcess | chatbot.py:252-253 | processed exactly when the input has a non-whitespace character |
| FuzzyMatcher.AskButtonIrrelevant | chatbot.py:252 | the Ask button does not affect the decision |
| FuzzyMatcher.LanguageLabel | chatbot.py:256 | the Bengali label exactly for Bengali input, the English label exactly otherwise |
| FuzzyMatcher.RecentView | chatbot.py:309-310 | at most five entries, newest first, each labelled with its position in the whole history |
| FuzzyMatcher.RecentViewProperties | chatbot.py:309-310 | labels lie in range and name the entry shown, decrease down the list, and a new entry comes first |
| FuzzyMatcher.Session.constructor | chatbot.py:158-159 | the history starts empty |
| FuzzyMatcher.Session.ProcessInput | chatbot.py:200-269 | nothing happens for an empty table or a blank input; otherwise exactly one entry with the matched answer and the detected language is appended |
| FuzzyMatcher.Session.ClearHistory | chatbot.py:182-183 | the history becomes empty |

## Left out

- Network, audio and speech recognition. Each call is replaced by an outcome value
  given to the handler, and each handler is one atomic step, except that a
  submission is split into `Submit` and `Finish` at its first request.
- The auto-dismiss timer of the notification. The code never cancels an earlier
  timer, so `DismissToast` covers both the close button and any pending timer.
- Interleavings inside a translation. Translation is one atomic step, so
  `translating` is never observed true between steps. Its role as a submit guard
  is taken by `loading`, which also covers the whole round trip.
- Text.Lower: folds ASCII letters only. `toLowerCase`, `str.lower` and the
  regular expression's case-insensitive flag also fold other scripts, but Bengali
  and the dictionary keys have no letter case outside ASCII.
- Regular-expression semantics of the dictionary keys. Keys are modelled as
  literal text. Only the last key holds a metacharacter (a `?`), and any match of
  it would contain "too late", which cannot occur by then.
- `detect_language` of `main.py`, which relies on a remote translator. The language
  is a parameter of `AnswerQuestion`.
- The tokenizer and the loading of stop words. Both are parameters.
- `fuzz.partial_ratio`. It is a parameter returning 0 to 100.
- Floating point. Jaccard scores are exact ratios compared by cross-multiplication,
  so the rounding of the returned score is not modelled.
- `load_data` of `chatbot.py`. Its `astype(str)` turns a missing cell into the text
  "nan". The model receives the table already as text.
- A failed `load_data`. The model only covers the empty-table guard.
- ChatPage.Page.SpeakText: the pause of earlier audio is not modelled separately.
  The earlier audio's handlers are treated as dead once new audio is requested.
  `play()` rejecting is not modelled.
- ChatPage.Page.SpeakText: one atomic step across its request for audio, so a second
  read-aloud started while the first request is still in flight is not captured.
  In the code the pause reaches only audio that already exists, so the first
  request's audio can later play unmarked next to the second's; the single live
  audio of the model cannot represent two.
- ChatPage.Page.Finish: one atomic step across the request to the answer service and
  the translations around it, so handlers that run while those are in flight are
  modelled only before `Submit` or after `Finish`.
- KeywordRetrieval.App.AnswerQuestion: one atomic step. The endpoint is synchronous
  and the framework runs it on a thread pool, so concurrent requests race on the
  shared score column; the model does not capture that race.
- The speak button being disabled while its message is speaking.
- The recognition language setting.
- The dark theme, all rendering, the Streamlit widgets, the CSS and the delay
  before answering.
- `chatbot-frontend/src/app/layout.tsx`, `chatbot-frontend/next.config.ts` and
  `download_nltk.py`. They hold no decision logic.
