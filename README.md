# lingoRPG core, modelled in Dafny

lingoRPG is a language-learning web app. In its adventure mode a narrator
backend tells a role-play story, the player answers in the language being
learned, and each narrator reply may open with a `Correction: ` line that
fixes the player's last sentence. Replies are read aloud one sentence at a
time, with the sentence being read highlighted. A selected phrase opens a
translation popup, and a selected or double-clicked word goes into a
vocabulary deck that is reviewed as flashcards. The interface itself is
translated through a small lookup function with plural forms and
placeholders.

This project models the logic behind those features and proves what it
promises:

- `TextUtil` covers the string primitives the code relies on:
  - JavaScript `trim` with its whitespace set;
  - `split`/`join` on `'\n'`;
  - `startsWith`, `includes`, and ASCII `toLowerCase`.
- `ResponseParser` models the three correction-line parsers. They differ in how they strip quotes:
  - `services/parseResponse.ts`;
  - `utils/parseResponse.ts`;
  - the one inside the adventure screen.
- `Segmenter` covers the sentence segmenter that narration and highlighting share, and the lookup of the sentence under a clicked character. The segmenter is modelled twice: as written (`SentencesAsWritten`) and corrected (`Sentences`); the adventure screen is modelled with the corrected one (see Findings).
- `SpeechHighlighting` covers two things:
  - the word-at-position routine, which keeps the source's two scanning loops;
  - the per-character highlight and cursor tests.
- `Vocabulary` covers the deck and the flashcard review:
  - word normalisation;
  - add with de-duplication, and remove by id;
  - index clamping, wrap-around navigation, and card flipping.
- `Language` covers the native/learning language pair, including the swap when a choice collides with the other language. It also covers the `t` lookup with its plural blocks and `{{name}}` placeholders.
- `Selection` covers the mouse-up dispatch of the selection hook: ignore the selection, add it to the deck, or open the popup.
- `Adventure` models the adventure screen as two classes:
  - `Narrator` holds the playback state: idle, playing or paused; the message and sentence being read; the translation pause; the open selection; and the utterances handed to the speech engine.
  - `Game` holds the session: setup, transcript, round-robin turn order, the saved game, and the auto-play record. It drives the narrator.

External collaborators become inputs:
- An utterance is a numbered token. The engine reports a finished or failed utterance through the event methods `OnEnd`/`OnError`, which carry that token.
- "Is this utterance still the current one" is a token comparison.
- A backend reply is a parameter. `None` stands for a reply that never arrives.
- A translation is a string parameter.
- New ids are parameters.
- The saved game in browser storage is a field: absent, unreadable, or a parsed game.
- DOM facts, such as whether the mouse-up target is or lies inside an element with the `animate-fade-in-up` class (the popup's entry animation; any element with that class counts, not only the popup) or whether the selection is inside the transcript, are booleans.

## Model

| member | source | states |
|---|---|---|
| TextUtil.TrimShape | services/parseResponse.ts:10 | `trim` keeps one contiguous slice of its input; only whitespace is cut on either side, and the result has no whitespace at either edge |
| TextUtil.TrimStartRemovesSpace | services/parseResponse.ts:10 | everything the leading half of `trim` cuts is whitespace |
| TextUtil.TrimEndRemovesSpace | services/parseResponse.ts:10 | everything the trailing half of `trim` cuts is whitespace |
| TextUtil.TrimOfTrimmed | services/parseResponse.ts:10 | a string without whitespace at its edges is left unchanged by `trim` |
| TextUtil.TrimTwice | hooks/useSelectionTranslation.ts:16 | trimming is idempotent |
| TextUtil.TrimEmptyIffBlank | components/RpgMode.tsx:349 | `!s.trim()` holds exactly when every character of `s` is whitespace |
| TextUtil.TrimAllSpace | components/RpgMode.tsx:315 | a string of whitespace only trims to the empty string |
| TextUtil.ToLower | contexts/VocabularyContext.tsx:42 | lower-casing keeps the length and maps each character on its own |
| TextUtil.Split | services/parseResponse.ts:8 | `split('\n')` gives at least one line, and no line holds the separator |
| TextUtil.JoinSplit | services/parseResponse.ts:8-17 | joining the split lines with the same separator rebuilds the input |
| TextUtil.IndexOf | services/parseResponse.ts:8-9 | the first line ends at the first separator, or at the end of the text |
| TextUtil.SplitFirst | services/parseResponse.ts:8-17 | the first line is the text before the first `'\n'`, and the other lines joined back are exactly the text after it |
| ResponseParser.StripQuotes | services/parseResponse.ts:11-16 | a correction wrapped in matching `"` or `'` becomes its `slice(1, -1)`: the first and last character are cut, and a lone quote becomes empty; anything else is kept |
| ResponseParser.StripDoubleQuotes | utils/parseResponse.ts:6-8 | a correction wrapped in `"` becomes its `slice(1, -1)` (a lone `"` becomes empty); anything else, single quotes included, is kept |
| ResponseParser.NoPrefixKeepsInput | services/parseResponse.ts:8-20 | when the first line lacks the prefix, all three parsers return no correction and the whole input as the story |
| ResponseParser.PrefixSplitsCorrection | services/parseResponse.ts:9-18 | with the prefix, the correction is the trimmed rest of line 1 (quote-stripped per variant: both quote kinds, double only, or edges cut unconditionally) and the story is the trimmed text after the first newline, empty for a one-line input |
| ResponseParser.ParsersAgreeOnStory | utils/parseResponse.ts:1-13 | the three parsers always agree on the story and on whether a correction exists; they differ only in quote stripping |
| ResponseParser.InlineParts | components/RpgMode.tsx:336-345 | with the prefix, the inline parser's correction is present and single-line, and its story has no edge whitespace |
| ResponseParser.EmptyInput | services/parseResponse.ts:8-9 | the parsers are total: the empty response gives no correction and an empty story |
| ResponseParser.ComposedLines | services/parseResponse.ts:8-10 | a prefixed single line followed by a newline and a rest is recognised, its first line's remainder is that line, and the story part is the rest |
| ResponseParser.ParseWithCorrection | services/parseResponse.ts:9-18 | parsing `Correction: <line>\n<rest>` gives the stripped, trimmed line and the trimmed rest, for each of the three parsers |
| ResponseParser.OneLayerOnly | services/parseResponse.ts:11-16 | a doubly quoted correction keeps its inner pair of quotes |
| ResponseParser.MismatchedQuotesKept | services/parseResponse.ts:11-14 | `"abc'` and `'abc"` are kept intact |
| ResponseParser.QuotedStrip | utils/parseResponse.ts:6-8 | one layer of `"` is stripped by both file parsers; a single-quoted correction keeps its quotes in the utils parser only |
| ResponseParser.QuotedCorrectionParsed | tests/parseResponse.test.ts:5-12 | a quoted single-line correction followed by a story parses to the inner text and the trimmed story |
| ResponseParser.UnquotedCorrectionParsed | tests/parseResponse.test.ts:20-27 | an unquoted, already trimmed correction is kept whole by the file parsers, while the inline parser cuts its edges regardless |
| ResponseParser.TestNoCorrection | tests/parseResponse.test.ts:14-18 | a response without a correction is returned as the story |
| Segmenter.NonTerminatorRunEnd | components/RpgMode.tsx:156 | the `[^.!?]+` part of the sentence pattern ends at the first terminator or at the end of the text |
| Segmenter.TerminatorRunEnd | components/RpgMode.tsx:156 | the `[.!?]+` part ends at the first non-terminator |
| Segmenter.MatchesFrom | components/RpgMode.tsx:156-157 | the global matches of the sentence pattern are ordered, disjoint, non-empty, lie in the text, and each starts on a non-terminator |
| Segmenter.MatchTexts | components/RpgMode.tsx:157 | the matched strings are exactly the slices at the match positions |
| Segmenter.RunningOffsetsAt | components/RpgMode.tsx:158-162 | the k-th span starts at the running sum of earlier match lengths and is as long as its match |
| Segmenter.RunningOffsetsOrdered | components/RpgMode.tsx:158-162 | running-sum spans are ordered and do not overlap |
| Segmenter.KeepNonEmpty | components/RpgMode.tsx:163 | the filter never lengthens the list of spans |
| Segmenter.KeepNonEmptyMembers | components/RpgMode.tsx:163 | the filter keeps exactly the spans with non-empty trimmed text |
| Segmenter.KeepNonEmptyOrdered | components/RpgMode.tsx:163 | filtering keeps spans ordered |
| Segmenter.SentencesAsWrittenShape | components/RpgMode.tsx:154-164 | the segmenter as written: empty text gives no sentences, every sentence's text is non-empty and trimmed, spans are ordered and disjoint |
| Segmenter.SentencesShape | components/RpgMode.tsx:154-164 | the corrected segmenter: the same facts, and in addition each span lies in the text and its text is the trimmed slice between its offsets |
| Segmenter.AsWrittenAgreesWhenGapless | components/RpgMode.tsx:158-162 | when the pattern skips no character, the running-sum offsets equal the match positions and the two segmenters agree |
| Segmenter.LeadingTerminatorsShiftOffsets | components/RpgMode.tsx:158-162 | for leading terminators followed by a sentence, the as-written offsets point before the sentence; the corrected ones point at it |
| Segmenter.FindSentence | components/RpgMode.tsx:272 | `findIndex` returns the first span containing the character, or none when no span contains it |
| Segmenter.EveryWordCharInSentence | components/RpgMode.tsx:270-276 | clicking any character that is neither whitespace nor a terminator finds a sentence |
| Segmenter.CoveringMatch | components/RpgMode.tsx:156-157 | every non-terminator at or after the scan start lies inside some match |
| SpeechHighlighting.LeadEnd | components/SpeechHighlighting.tsx:27 | the leading punctuation run is maximal |
| SpeechHighlighting.TrailStart | components/SpeechHighlighting.tsx:27 | the trailing punctuation run is maximal and does not reach into the leading one |
| SpeechHighlighting.StripEdgesShape | components/SpeechHighlighting.tsx:27 | stripping keeps an inner slice whose edges are not punctuation, cutting only punctuation on both sides |
| SpeechHighlighting.StripEdgesKeepsClean | components/SpeechHighlighting.tsx:27 | a word without edge punctuation is unchanged; inner punctuation stays |
| SpeechHighlighting.RunIsMaximal | components/SpeechHighlighting.tsx:16-24 | the run found around a non-space position is whitespace-free and bounded by whitespace or the text's edges |
| SpeechHighlighting.GetWordAt | components/SpeechHighlighting.tsx:11-30 | the two scanning loops compute exactly the stripped maximal run, or nothing |
| SpeechHighlighting.WordAtIsSubstring | components/SpeechHighlighting.tsx:26-29 | a found word is non-empty, whitespace-free, free of edge punctuation, and a slice of the text inside the run around the position |
| SpeechHighlighting.WordAtNone | components/SpeechHighlighting.tsx:12-14 | nothing is found outside the text, on whitespace, or on a run of punctuation only |
| SpeechHighlighting.SameRunSameWord | components/SpeechHighlighting.tsx:16-24 | every position of one whitespace-free run yields the same word |
| SpeechHighlighting.CursorAtOnePlace | components/SpeechHighlighting.tsx:45 | the cursor marker is drawn before at most one character |
| SpeechHighlighting.HighlightOneSentence | components/SpeechHighlighting.tsx:44 | highlighting a sentence of the corrected segmenter `Segmenter.Sentences` marks characters of the text that no other of its sentences covers |
| Vocabulary.NormalizeShape | contexts/VocabularyContext.tsx:42 | a normalised word is the lower-cased, trimmed input minus at most one trailing mark, and has no upper-case ASCII letter |
| Vocabulary.NormalizeIgnoresCase | contexts/VocabularyContext.tsx:42 | normalisation does not depend on ASCII case |
| Vocabulary.NormalizeDropsOneMark | contexts/VocabularyContext.tsx:42 | one trailing mark is dropped from a clean word |
| Vocabulary.NormalizeKeepsSecondMark | contexts/VocabularyContext.tsx:42 | of two trailing marks only the last is dropped |
| Vocabulary.AddWordShape | contexts/VocabularyContext.tsx:41-60 | an add prepends one entry with the fresh id, the normalised word and the translation exactly when the word is non-empty, absent from the deck and the translation is meaningful; otherwise the deck is unchanged |
| Vocabulary.AddWordThenPresent | contexts/VocabularyContext.tsx:43-53 | after an add the normalised word is in the deck iff it was before or the add took place |
| Vocabulary.AddWordKeepsUnique | contexts/VocabularyContext.tsx:43-53 | an add keeps the normalised words of the deck distinct |
| Vocabulary.AddWordTwice | contexts/VocabularyContext.tsx:43 | adding the same word twice is the same as adding it once |
| Vocabulary.RemoveId | contexts/VocabularyContext.tsx:62-64 | removal never lengthens the deck |
| Vocabulary.RemoveIdMembers | contexts/VocabularyContext.tsx:62-64 | removal keeps exactly the entries with another id |
| Vocabulary.RemoveIdSplits | contexts/VocabularyContext.tsx:63 | removal works entry by entry, so the relative order of kept entries is preserved |
| Vocabulary.RemoveUnknownId | contexts/VocabularyContext.tsx:63 | removing an unknown id changes nothing |
| Vocabulary.RemoveIdKeepsUnique | contexts/VocabularyContext.tsx:63 | removal keeps the normalised words distinct |
| Vocabulary.RemoveUndoesAdd | contexts/VocabularyContext.tsx:52-63 | removing the fresh id of an add restores the deck |
| Vocabulary.Deck.constructor | contexts/VocabularyContext.tsx:20-34 | the deck starts with the stored words, or empty, and not loading |
| Vocabulary.Deck.AddVocabWord | contexts/VocabularyContext.tsx:41-60 | the new deck is the add rule applied to the old one; loading ends when a translation was requested; distinct words stay distinct |
| Vocabulary.Deck.RemoveVocabWord | contexts/VocabularyContext.tsx:62-64 | the new deck is the old one without the id; distinct words stay distinct |
| Vocabulary.Clamp | components/VocabularyReview.tsx:11-19 | an empty deck forces index 0; an index at or past the end becomes `n - 1`; an index in range is kept; a non-negative index always lands in range |
| Vocabulary.NextIndex | components/VocabularyReview.tsx:22-25 | on a deck of more than one card the index stays in range; otherwise it is unchanged |
| Vocabulary.NextIndexIterates | components/VocabularyReview.tsx:25 | k steps forward move the index k places, wrapping once |
| Vocabulary.NextCyclesThroughDeck | components/VocabularyReview.tsx:25 | going forward visits every other card before coming back after exactly one round |
| Vocabulary.Review.constructor | components/VocabularyReview.tsx:7-8 | review starts at the first card, unflipped |
| Vocabulary.Review.ClampIndex | components/VocabularyReview.tsx:11-19 | the index becomes the clamped index: `n - 1` when it was at or past the end, kept when in range, 0 on an empty deck; the flip state is kept and the index is valid for a non-empty deck |
| Vocabulary.Review.Next | components/VocabularyReview.tsx:21-34 | at most one card: nothing changes; otherwise the card is unflipped and the index moves one place, wrapping |
| Vocabulary.Review.Remove | components/VocabularyReview.tsx:36-49 | the card at the index is removed by its id and unflipped; with no card there nothing changes |
| Vocabulary.Review.Flip | components/VocabularyReview.tsx:70 | flipping toggles the card side only |
| Vocabulary.Review.Progress | components/VocabularyReview.tsx:92 | the label's denominator is the deck size and its numerator lies between 1 and it |
| Language.NatToString | contexts/LanguageContext.tsx:246 | `String(n)` of a count is never empty |
| Language.NatToStringValue | contexts/LanguageContext.tsx:246 | reading `String(n)` back as a decimal numeral (`Language.DigitsValue`) gives `n` |
| Language.NatToStringLeading | contexts/LanguageContext.tsx:246 | `String(n)` starts with `0` exactly when `n` is zero, so a count of two digits or more has no leading zero |
| Language.NatToStringDigits | contexts/LanguageContext.tsx:246 | `String(n)` of a count is made of decimal digits only |
| Language.WordCharsEnd | contexts/LanguageContext.tsx:246 | the `\w+` name of a placeholder is the maximal run of word characters |
| Language.NonBraceEnd | contexts/LanguageContext.tsx:243 | a `[^}]+` plural form ends at the first `}` |
| Language.PluralAt | contexts/LanguageContext.tsx:243 | a plural block matched at a position ends after it, within the string |
| Language.PlaceholderAt | contexts/LanguageContext.tsx:246 | a placeholder matched at a position ends at least five characters after its start (`{{`, a word character, `}}`) and no later than the string's end |
| Language.LookupFallbacks | contexts/LanguageContext.tsx:237-238 | an unknown language uses the English table; a missing or empty entry returns the key itself; otherwise the entry |
| Language.TPlainMessage | contexts/LanguageContext.tsx:240-249 | without options, or with a message without templates, `t` returns the looked-up message unchanged |
| Language.PluralsCopyPlain | contexts/LanguageContext.tsx:244 | plural replacement copies text without braces |
| Language.PlaceholdersCopyPlain | contexts/LanguageContext.tsx:246 | placeholder replacement copies text without braces |
| Language.PlaceholdersSkipPlain | contexts/LanguageContext.tsx:246 | placeholder replacement passes brace-free text through and continues after it |
| Language.PluralsSkipPlain | contexts/LanguageContext.tsx:244 | plural replacement passes brace-free text through and continues after it |
| Language.OnePlaceholder | contexts/LanguageContext.tsx:246 | `{{k}}` becomes `String(options[k])` when that option is truthy, and `k` itself when it is missing or falsy (such as 0 or the empty string) |
| Language.OnePluralBlock | contexts/LanguageContext.tsx:241-245 | a plural block between brace-free texts becomes its `one` form when the count is 1 and its `other` form otherwise; a block after a `{{count}}` is the case of Language.TCountedMessage |
| Language.PluralBlockMatches | contexts/LanguageContext.tsx:243 | the plural pattern matches a well-formed block and captures both forms |
| Language.PluralsPassPlaceholder | contexts/LanguageContext.tsx:243-244 | the plural pattern does not match at a `{{name}}` placeholder, so the plural pass copies the placeholder unchanged |
| Language.CountedPlurals | contexts/LanguageContext.tsx:241-245 | on a counted message (text, `{{name}}`, text, plural block, text) the plural pass keeps the placeholder and the surrounding text and rewrites only the block, to `one` or `other` |
| Language.PlaceholderThenPlain | contexts/LanguageContext.tsx:246 | a placeholder followed by brace-free text to the end is replaced and the text copied |
| Language.CountedPlaceholder | contexts/LanguageContext.tsx:246 | the placeholder pass over `p{{k}}r` with brace-free `p` and `r` replaces only the placeholder |
| Language.TCountedMessage | contexts/LanguageContext.tsx:236-249 | `t` on a counted message such as `playerCount` or `continueGamePrompt` (lines 69, 78, 157, 166): the block becomes its `one` form exactly when the count is the number 1 and its `other` form otherwise, the placeholder becomes `String(options[k])` when that option is truthy and `k` otherwise, the rest is copied; `{{count}}` reads `1` for a count of 1 and stays `count` for a count of 0 |
| Language.WithNative | contexts/LanguageContext.tsx:222-227 | choosing the native language sets it, and swaps the learning language to the old native one when they collide |
| Language.WithLearning | contexts/LanguageContext.tsx:229-234 | the symmetric rule for the learning language |
| Language.SettersKeepDistinct | contexts/LanguageContext.tsx:222-234 | both setters keep the native and learning languages different |
| Language.SwapTwiceRestores | contexts/LanguageContext.tsx:222-234 | choosing the other language swaps the pair, and swapping back restores it |
| Language.LanguageSettings.constructor | contexts/LanguageContext.tsx:204-205 | empty or missing stored values default to `pt` and `en` |
| Language.LanguageSettings.SetNativeLang | contexts/LanguageContext.tsx:222-227 | the new pair is the native-setter rule applied to the old one, and stays distinct |
| Language.LanguageSettings.SetLearningLang | contexts/LanguageContext.tsx:229-234 | the new pair is the learning-setter rule applied to the old one, and stays distinct |
| Selection.DecideMouseUp | hooks/useSelectionTranslation.ts:13-45 | a blank selection, a pending lookup, a target within an element with the `animate-fade-in-up` class (the popup, or any other element with that animation class) or an anchor outside the container is ignored, and only those are; a trimmed text without space or newline goes to the deck; any other trimmed text opens the popup |
| Selection.DecidedTextIsTrimmed | hooks/useSelectionTranslation.ts:16 | the text handed on has no whitespace at its edges |
| Selection.DecideOnTrimmed | hooks/useSelectionTranslation.ts:16 | only the trimmed selection decides the action |
| Selection.SelectionHook.constructor | hooks/useSelectionTranslation.ts:10 | no popup is open at first |
| Selection.SelectionHook.HandleMouseUp | hooks/useSelectionTranslation.ts:13-45 | ignoring changes nothing; a single word goes through the deck's add rule without opening a popup, and the deck is not loading afterwards; other text becomes the popup's text; distinct deck words stay distinct |
| Selection.SelectionHook.ClosePopup | hooks/useSelectionTranslation.ts:47-50 | closing always clears the selection |
| Adventure.JsRem | components/RpgMode.tsx:370 | JavaScript `%` keeps the sign of the dividend, stays below the divisor in size, and differs from the dividend by a multiple of the divisor |
| Adventure.NextPlayer | components/RpgMode.tsx:369-371 | the next player index stays in range, is one more, and wraps from the last player to 0 |
| Adventure.TurnsAdvance | components/RpgMode.tsx:369-371 | k sends move the turn k places on, wrapping once |
| Adventure.EveryPlayerGetsATurn | components/RpgMode.tsx:369-371 | every player gets the turn within n sends, and after n sends the turn is back where it began |
| Adventure.SavedGameReloads | components/RpgMode.tsx:87-102 | a game the save effect writes is accepted at reload exactly when its player count is not 0 |
| Adventure.BuildHistory | components/RpgMode.tsx:396-403 | the history is as long as the transcript; roles follow senders; player text is verbatim; a narrator message with a non-empty correction becomes `Correction: "<c>"\n<text>`, otherwise its text |
| Adventure.ReplayedTurnParsesBack | components/RpgMode.tsx:396-403 | a narrator turn replayed into the history (lines 396-403) parses back with the inline parser of lines 336-345 to the same correction and story |
| Adventure.DetachTwice | components/RpgMode.tsx:166-188 | detaching the same utterance a second time, as `stopPlayback` does after `playFromSentence` already has, changes nothing more |
| Adventure.AutoPlayOnce | components/RpgMode.tsx:305-307 | once its id is recorded a message is not auto-played again |
| Adventure.Detach | components/RpgMode.tsx:171-184 | detaching drops the handlers of exactly the current utterance and keeps the others as they were |
| Adventure.ResumeOnClose | components/RpgMode.tsx:69-79 | closing the popup resumes a translation pause only from `paused`; an idle narrator stays idle; without the flag the state is kept |
| Adventure.CloseAfterStopAsWritten | components/RpgMode.tsx:69-79 | the as-written resume turns a stopped narrator with a pending translation pause back to `playing`; the corrected one keeps it idle |
| Adventure.HighlightInActiveSentence | components/RpgMode.tsx:553-555 | only the message being read is highlighted, inside its text, and only in the active sentence, taken from the corrected segmenter `Segmenter.Sentences` |
| Adventure.CursorOnHighlight | components/RpgMode.tsx:553-555 | the cursor is shown only while playing, on the first highlighted character of the active sentence of the corrected segmenter |
| Adventure.CanSkipOnlyWhileSpeaking | components/RpgMode.tsx:428 | the skip buttons are enabled only while an utterance with attached handlers is current |
| Adventure.Narrator.constructor | components/RpgMode.tsx:39-65 | the narrator starts idle, with nothing active, no popup and no utterance |
| Adventure.Narrator.StopPlayback | components/RpgMode.tsx:166-176 | playback becomes idle, the current utterance's handlers are detached and it is no longer current; the active message and sentence are kept |
| Adventure.Narrator.PlayQueue | components/RpgMode.tsx:197-240 | past the last sentence playback stops; otherwise the sentence becomes active and a fresh current utterance carries its position |
| Adventure.Narrator.PlayFromSentence | components/RpgMode.tsx:178-242 | an empty message changes nothing; a start outside the sentences detaches the old utterance and ends idle; otherwise the message is read from that sentence with a fresh utterance |
| Adventure.Narrator.DetachCurrent | components/RpgMode.tsx:181-184 | the current utterance loses its handlers and stays current; nothing else changes |
| Adventure.Narrator.ReadMessage | components/RpgMode.tsx:181-242 | with the message's sentences known: a start outside them detaches the old utterance and ends idle; a start inside them makes that sentence active with a fresh current utterance |
| Adventure.Narrator.OnEnd | components/RpgMode.tsx:226-230 | a stale utterance's completion changes nothing; the current one's moves to the next sentence or stops after the last |
| Adventure.Narrator.OnError | components/RpgMode.tsx:232-237 | an `interrupted` error, or one from a detached utterance, changes nothing; any other error stops playback |
| Adventure.Narrator.HandlePlayPause | components/RpgMode.tsx:252-268 | on the active message `playing` and `paused` toggle; in every other case reading restarts from sentence 0 |
| Adventure.Narrator.HandleSentenceClick | components/RpgMode.tsx:270-276 | reading restarts from the first sentence, in the corrected segmenter's offsets, containing the clicked character; with none, nothing changes |
| Adventure.Narrator.SkipBack | components/RpgMode.tsx:434 | when skipping is possible and the first sentence is not active, reading restarts one sentence back; otherwise nothing changes |
| Adventure.Narrator.SkipForward | components/RpgMode.tsx:440 | when skipping is possible and the last sentence is not active, reading restarts one sentence on; otherwise nothing changes |
| Adventure.Narrator.OpenPopup | components/RpgMode.tsx:279-293 | reading in progress is paused and flagged as a translation pause (the pause of lines 127-137 as called from lines 279-293); the popup shows the text; the reading queue is kept |
| Adventure.Narrator.HandleMouseUp | components/RpgMode.tsx:115-146 | a trimmed selection with a space, inside the transcript and not in the popup, opens the popup; anything else changes nothing |
| Adventure.Narrator.ClosePopup | components/RpgMode.tsx:69-79 | the selection and the flag are cleared, and the state follows the corrected resume rule |
| Adventure.Narrator.ClearActive | components/RpgMode.tsx:379-380 | the active message and sentence are cleared, as both `startNewGame` (lines 379-380) and `handleContinueGame` (lines 414-415) do, and nothing else changes |
| Adventure.Game.constructor | components/RpgMode.tsx:39-65 | a new screen starts with an empty setup and transcript, no chat, and the storage as given |
| Adventure.Game.ChooseSetup | components/RpgMode.tsx:39-65 | the setup form sets theme, difficulty and player count only |
| Adventure.Game.LoadSaved | components/RpgMode.tsx:82-98 | an accepted saved game is offered for continuing; a rejected or unreadable one is removed; no saved game changes nothing |
| Adventure.Game.Persist | components/RpgMode.tsx:101-112 | a started game with a transcript, a theme, a difficulty and a player count is written to storage; otherwise storage is kept |
| Adventure.Game.AutoPlay | components/RpgMode.tsx:302-311 | a newest narrator message that is not loading and not yet played is read from sentence 0 and recorded; otherwise nothing changes |
| Adventure.Game.StartAdventure | components/RpgMode.tsx:313-334 | without a theme, a difficulty and a non-zero player count nothing changes; otherwise a chat opens, the popup closes by the corrected resume rule `Adventure.ResumeOnClose`, and the unparsed reply becomes the only message |
| Adventure.Game.Open | components/RpgMode.tsx:317-333 | the game starts with a fresh chat and an empty history; the transcript is the opening message once it comes, and loading ends then |
| Adventure.Game.SendMessage | components/RpgMode.tsx:347-374 | blank input, a pending reply or no chat change nothing; otherwise playback stops with the active message and sentence kept, the old utterance's handlers detached and the token counter kept, the popup closes (clearing the translation flag and the selection), the player's message records the current player, the parsed reply is appended, the turn rotates when there is more than one player, and the index stays in range; the popup closes by the corrected resume rule `Adventure.ResumeOnClose`, so the stopped narrator stays idle |
| Adventure.Game.Exchange | components/RpgMode.tsx:353-371 | the player's message is appended and loading starts; when the reply comes it is appended, the turn passes to the next player when there are several, and loading ends |
| Adventure.Game.StartNewGame | components/RpgMode.tsx:376-391 | playback stops (no utterance, the old utterance's handlers detached, the token counter kept) and the active message and sentence are cleared, the saved game is removed, and setup, transcript, turn, chat and played set are reset; loading, the translation-pause flag and the selection are kept |
| Adventure.Game.Reset | components/RpgMode.tsx:378-390 | the saved game is removed and setup, transcript, turn, chat and played set return to their initial values; loading is kept |
| Adventure.Game.ContinueGame | components/RpgMode.tsx:393-416 | an offered game with a difficulty is restored field by field, with a chat whose history is built from its transcript and no active message or sentence, the narrator otherwise as it was (state, translation flag, selection, utterance, handlers, token counter) and loading, storage and the offer kept; the restored ids are recorded as auto-played, so the auto-play condition is false afterwards, as the comment at line 414 intends (see Findings); otherwise nothing changes |
| Adventure.Game.ContinueGameAsWritten | components/RpgMode.tsx:393-416 | the same restoration as written: the narrator otherwise as it was and the auto-played ids left unchanged |
| Adventure.Game.ContinueArmsAutoPlayAsWritten | components/RpgMode.tsx:302-311 | as written, continuing a game whose last message is a narrator message not yet auto-played, while nothing is loading, leaves the auto-play condition true, so `Adventure.Game.AutoPlay` reads it aloud |
| Adventure.Game.ContinueThenAutoPlay | components/RpgMode.tsx:414 | with the corrected continue, the auto-play effect that follows starts no reading: the narrator keeps its state, utterance and handlers and has no active message |
| Adventure.MessageIds | components/RpgMode.tsx:305-307 | the ids recorded for a transcript are exactly those of its messages |
| Adventure.Game.Restore | components/RpgMode.tsx:406-413 | the saved game's theme, difficulty, player count, turn and transcript come back, with a chat holding the given history; the game is started and the continue screen is hidden |
| Adventure.Game.HandleWordDoubleClick | components/RpgMode.tsx:278-300 | reading in progress is paused for translation, the word goes through the deck's add rule, and the popup shows it; the deck's loading flag is kept when the add stops early (empty or known word) and is off once a lookup ends; distinct deck words stay distinct |

## Left out

- The speech engine is not modelled. This covers `speak`, `pause`, `resume`, `cancel`, voice lookup and the speech rate, which is a float.
  - An utterance is only a token.
  - The `speechSynthesis` availability guards are taken as always passing (components/RpgMode.tsx:71, 128, 167, 179, 246, 280).
  - The unmount cleanup effect (components/RpgMode.tsx:244-250) only cancels speech, so it is not modelled.
- `setTimeout` delays are treated as immediate steps: the 50 ms before the first utterance, the 250 ms flip animations, and the 50 ms mouse-up delay. Events that arrive during a delay are not modelled.
- Backend calls are treated as atomic. This covers the story chat, the translation call and the chat creation with its prompts.
  - A reply is a parameter.
  - A rejected call is a reply that never comes, which leaves the screen loading as the code does.
- React batching and stale closures are not modelled. Each handler sees the state left by the previous one. One consequence is also left out: two concurrent adds to the vocabulary deck can both pass the duplicate check (contexts/VocabularyContext.tsx:43, 53).
- Browser storage and JSON are left out:
  - The saved game is a `StoredGame` field.
  - The stored deck and the stored languages are constructor inputs.
  - The effects that write them back are not modelled, except the saved-game effect (`Game.Persist`).
- DOM geometry and the selection API become booleans and strings. The popup's screen position is left out.
- Fresh ids are parameters. Their uniqueness is not proved.
- Lower-casing covers ASCII letters only. Strings are sequences of characters, without UTF-16 surrogate handling.
- The translation tables are a parameter: a map from language to a table of keys and messages.
- `options[k]` lookups that hit JavaScript prototype properties are not modelled.
- Numbers are mathematical integers.
- Language.OnePluralBlock: needs brace-free text around the block. Real counted messages, with a `{{count}}` before the block, are covered by Language.TCountedMessage instead. No lemma covers several blocks, a placeholder after the block, or a placeholder inside a plural form.
- Adventure.Game.SendMessage: the input field's reset to empty is not modelled. The text is a parameter.
- Adventure.Narrator.HandleMouseUp: the `speakingState` dependency of the listener's registration is not modelled. The handler sees the current state.
- Adventure.Narrator: reads sentences from the corrected `Segmenter.Sentences` and closes the popup with the corrected `Adventure.ResumeOnClose`. The code as written is kept in `Segmenter.SentencesAsWritten` and `Adventure.ResumeOnCloseAsWritten`, whose effects are shown under Findings.
- Adventure.Game.ContinueGame: also records the restored message ids as auto-played, which the code does not do. The code as written is kept in `Adventure.Game.ContinueGameAsWritten`, whose effect is shown under Findings.
- The `chat` object is represented by `hasChat` and the `history` it was created with.
- The markup of the interface files is not part of this model.

## Findings

| source | as written | input that shows it | evidently intended | confidence | as-written member | corrected member |
|---|---|---|---|---|---|---|
| components/RpgMode.tsx:158-162 | a sentence's offsets are the running sum of earlier match lengths, so characters the pattern skips (leading `.!?`, or terminators after a closing quote) are not counted and later offsets point before their sentence | text `..Hi`: the only sentence is `Hi`, at offsets 2-4, but the code records 0-2, so the highlight covers `..` and a click on `H` finds no sentence | offsets are the positions of the matches in the text | high (by proof; not executed) | Segmenter.SentencesAsWritten, shown by Segmenter.LeadingTerminatorsShiftOffsets | Segmenter.Sentences, with Segmenter.SentencesShape and Segmenter.EveryWordCharInSentence |
| components/RpgMode.tsx:69-79 | `closePopup` sets `playing` whenever a translation pause is flagged, and `stopPlayback` leaves the flag set; `handleSendMessage` calls `stopPlayback` (350) and then `closePopup` (356) | read a message aloud, select a two-word phrase in it (the narrator pauses and the popup opens), then, without a mouse click (a mousedown outside the popup closes it, components/TranslationPopup.tsx:31-41), press Tab to reach the input, type a message and press Enter: the send stops playback and then closes the popup, and the narrator ends up `playing` with no utterance | resume only a narrator that is still paused | low (by proof; not executed; needs a keyboard-only send while the popup is open) | Adventure.ResumeOnCloseAsWritten, shown by Adventure.CloseAfterStopAsWritten | Adventure.ResumeOnClose, used by Adventure.Narrator.ClosePopup, whose invariant Adventure.Narrator.Valid keeps a non-idle narrator with a current utterance |
| components/RpgMode.tsx:393-416 | `handleContinueGame` clears the active message (the comment at line 414 says this is to keep audio from playing automatically) but neither fills nor clears `playedMessageIds`; the auto-play effect (lines 302-311) plays the newest narrator message whose id is not in that set | save a game whose last message is a narrator reply, reload the page (the played set starts empty) and press Continue: the restored last narrator message is read aloud at once | no audio plays when a saved game is continued | medium (by proof; not executed; browsers may block speech that no user gesture started, though the Continue click is one) | Adventure.Game.ContinueGameAsWritten, shown by Adventure.Game.ContinueArmsAutoPlayAsWritten | Adventure.Game.ContinueGame, which records the restored ids as auto-played, shown by Adventure.Game.ContinueThenAutoPlay |
