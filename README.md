# Oratory: the transcript analyser and the breathing pacer

Oratory is a diction-training web app for Turkish speakers. The speaker reads a
sample text aloud. The browser's speech recogniser delivers transcripts. The app's
analyser (`analyzeText` in `src/App.tsx`) turns each final transcript into
feedback items:

- dialect forms found by a table of regular expressions;
- grammar slips found by a second table;
- a speaking rate outside 100–180 words per minute;
- emphasis words of the sample text that were not spoken;
- the absence of pause marks;
- the absence of any emphasis mark.

The items are appended to the feedback list. A separate exercise screen
(`src/components/exercises/BreathingExercises.tsx`) paces breathing. A one-second
tick advances a timer, a phase cycling inhale, hold and exhale every four ticks,
and a progress counter modulo 100.

The model has five modules:

- `TextOps` (`text_ops.dfy`) is the JavaScript string behaviour the analyser relies on:
  - `trim`;
  - `split(/\s+/)`;
  - `split(' ')` and `join`;
  - the global match of `/"([^"]+)"/g` followed by `replace(/"/g, '')`.

  It proves a round trip for `split`/`join`. It also proves that the emphasis words
  of a text written in the catalog's markup are exactly the words that were marked.
- `Rules` (`rules.dfy`) holds the dialect and grammar tables and the five sample
  texts, copied literally. Each sample text is a value whose `Content()` rebuilds
  the text the app shows. The module proves that the analyser extracts from every
  catalog entry exactly the stress words it lists.
- `Analysis` (`analysis.dfy`) gives what one analysis appends as a function,
  `Batch`. It proves:
  - what a batch holds: item counts per rule, per word and per rhythm check;
  - the order of the six checks.

  It also defines `Step` and `Replay`: the effect of one call and of a sequence of
  calls on the pair (feedback list, last transcript analysed).
- `Sessions` (`session.dfy`) is the app's state as a class `Session`. Its handlers
  update the fields in place:
  - the analyser;
  - the recogniser's result handler;
  - `changeText`;
  - the text box;
  - start and stop.

  Every method's contract ties the new state to `Step`/`Replay` or states it
  outright.
- `Breathing` (`breathing.dfy`) is the pacer as a class `Pacer` with an invariant:
  the phase and the progress are functions of the tick count.

A feedback item is modelled by why it was raised (`Notice`), from which `Text()`
and `Kind()` give the message and the `type` the app stores. The regular-expression
engine for the two tables and `toLowerCase` are parameters (`Runtime`). The
one-character classes the analyser also uses (`/[,.!?]/`, `/!/`, `/\?/`,
`/[A-ZĞÜŞİÖÇ]+/`, `/[,.;:]/`, `\s`) are modelled exactly.

The model follows the code where a description of the app differs from it:

- Starting a recording and changing the text clear the feedback list but keep the
  last transcript analysed. A repeat of that transcript after a restart is
  therefore still ignored.
- The pronunciation check splits the lower-cased transcript on single spaces, so a
  word followed by punctuation counts as missing.

`Sessions.Session.AnalyzeText` takes the reference text as a parameter. That text
belongs to the render whose closure made the call, because the source reads
`currentTextIndex` inside the closure. The parameter states which render it was.

## Model

| member | source | states |
|---|---|---|
| TextOps.Find | src/App.tsx:272 | the first position whose character satisfies the predicate, or the length when none does |
| TextOps.IsSpace | src/App.tsx:259 | definition of `\s` and of what `trim()` strips: the ECMAScript white-space and line-terminator characters (properties: `TrimEnds`, `SplitOnSpaceRunsNoSpace`, `WordsPerMinuteCountsWords`) |
| TextOps.Occurs | src/App.tsx:236 | a one-character class matches somewhere exactly when some character of the string belongs to it |
| TextOps.FindSpaceFrom | src/App.tsx:259 | the first white-space position at or after `from`; everything before it is not white space |
| TextOps.SkipSpaces | src/App.tsx:259 | the end of the white-space run that starts at `from` |
| TextOps.SkipSpacesBack | src/App.tsx:259 | the start of the white-space run that ends at `hi`, not going below `lo` |
| TextOps.FindCharFrom | src/App.tsx:224 | the first occurrence of a character at or after `from`, or the length |
| TextOps.FindCharPast | src/App.tsx:224 | when the text from `from` is a character-free prefix, the character and a rest, the scan stops after the prefix and the rest follows it |
| TextOps.FindCharNone | src/App.tsx:224 | with no occurrence after `from`, the scan reaches the end |
| TextOps.TrimStart | src/App.tsx:259 | the start of `trim()` lies within the string |
| TextOps.TrimEnd | src/App.tsx:259 | the end of `trim()` lies between its start and the length |
| TextOps.TrimShape | src/App.tsx:259 | the string is its leading white space, then `trim()`, then its trailing white space |
| TextOps.TrimEnds | src/App.tsx:259 | a non-empty `trim()` neither starts nor ends with white space |
| TextOps.TrimEmpty | src/App.tsx:259 | `trim()` is empty exactly when the string is all white space |
| TextOps.Trim | src/App.tsx:259 | definition of `trim()`: the string between its leading and trailing white space (its properties are `TrimShape`, `TrimEnds`, `TrimEmpty`) |
| TextOps.SplitOnSpaceRuns | src/App.tsx:259 | definition of `split(/\s+/)`: the pieces between maximal white-space runs, "" giving [""] (properties: `SplitOnSpaceRunsNoSpace`, `PiecesAreWords`) |
| TextOps.SplitOn | src/App.tsx:224 | definition of `split(' ')`: every piece between two spaces, empty ones included (properties: `JoinSplitOn`, `SplitOnJoin`, `SplitOnPiecesFree`) |
| TextOps.EmphasisWords | src/App.tsx:220-222 | definition of the emphasis-word extraction: the quoted matches with their quotes removed, [] when there is none (properties: `EmphasisWordsShape`, `EmphasisWordsOfMarkup`) |
| TextOps.SplitRunsFrom | src/App.tsx:259 | `split(/\s+/)` always yields at least one piece |
| TextOps.SplitRunsNoSpace | src/App.tsx:259 | no piece of `split(/\s+/)` from `from` on holds white space |
| TextOps.SplitOnSpaceRunsNoSpace | src/App.tsx:259 | no piece of `split(/\s+/)` holds white space |
| TextOps.WordsPerMinute | src/App.tsx:258-262 | the rate is at least one word per minute, even for an empty transcript |
| TextOps.WordStartsSplit | src/App.tsx:259 | word starts in a range add up over a split of the range |
| TextOps.WordStartsOfSpaces | src/App.tsx:259 | a run of white space starts no word |
| TextOps.WordStartsOfWord | src/App.tsx:259 | a run without white space starts at most one word, at its first position |
| TextOps.WordStartsOfSlice | src/App.tsx:259 | word starts are the same in a slice that begins after white space |
| TextOps.PiecesAreWords | src/App.tsx:259 | for a text with no trailing white space, the pieces of `split(/\s+/)` from a word start are its words |
| TextOps.WordsPerMinuteCountsWords | src/App.tsx:258-262 | the rate equals the number of words of the transcript (a maximal run of non-space characters), or 1 when there is none |
| TextOps.SplitOnFrom | src/App.tsx:224 | `split(' ')` from `from` on yields at least one piece |
| TextOps.JoinCons | src/App.tsx:224 | joining a piece before a non-empty list puts one separator between them |
| TextOps.SplitOnFromFree | src/App.tsx:224 | no piece of `split` from `from` on holds the separator |
| TextOps.SplitOnPiecesFree | src/App.tsx:224 | no piece of `split(' ')` holds a space |
| TextOps.JoinSplitOnFrom | src/App.tsx:224 | joining the pieces from `from` on rebuilds the rest of the string |
| TextOps.JoinSplitOn | src/App.tsx:224 | `s.split(' ').join(' ') == s` for every string |
| TextOps.SplitOnFromJoin | src/App.tsx:224 | splitting a joined, separator-free list from `from` on gives the list back |
| TextOps.SplitOnJoin | src/App.tsx:224 | splitting the join of a non-empty separator-free list gives the list back |
| TextOps.QuotedSpansFrom | src/App.tsx:220-221 | each match of `/"([^"]+)"/g` from `from` on lies inside the string, after `from`, and is at least three characters long |
| TextOps.QuotedMatches | src/App.tsx:220-221 | one matched text per match position |
| TextOps.AllQuotedSpansCons | src/App.tsx:221 | a quoted span before a list of quoted spans makes a list of quoted spans |
| TextOps.QuotedSpansFromShape | src/App.tsx:221 | every match position from `from` on spans a quote, at least one non-quote character and a quote |
| TextOps.QuotedMatchesShape | src/App.tsx:220-221 | every matched text is a quote, at least one non-quote character and a quote |
| TextOps.RemoveQuotes | src/App.tsx:222 | `replace(/"/g, '')` leaves no quote and keeps every other character that occurs |
| TextOps.EmphasisWordsShape | src/App.tsx:220-222 | every emphasis word is non-empty and holds no quote |
| TextOps.Quoted | src/App.tsx:43 | each word wrapped in double quotes, one per word |
| TextOps.RemoveQuotesOfQuoteFree | src/App.tsx:222 | removing quotes from a quote-free string changes nothing |
| TextOps.RemoveQuotesOfQuoted | src/App.tsx:222 | removing quotes from a quoted word gives the word |
| TextOps.RemoveQuotesAppend | src/App.tsx:222 | removing quotes distributes over concatenation |
| TextOps.QuotedSpansAt | src/App.tsx:221 | two quotes with at least one character between them give the next match, and the search resumes after the closing quote |
| TextOps.QuotesAround | src/App.tsx:221 | in quote-free gap, quote, quote-free word, quote, the scans find the two quotes where they are |
| TextOps.SpansSpellCons | src/App.tsx:221 | a span spelling the first quoted word, before spans spelling the rest, spells all the words |
| TextOps.QuotedSpansFromMarkup | src/App.tsx:220-221 | in a text made of quote-free gaps and non-empty quote-free words, the match positions spell exactly the quoted words |
| TextOps.QuotedMatchesOfMarkup | src/App.tsx:220-221 | in such a text, the matches are exactly the quoted words, in order |
| TextOps.EmphasisWordsOfMarkup | src/App.tsx:220-222 | in such a text, the emphasis words are exactly the marked words, in order |
| Rules.SampleText.Content | src/App.tsx:38-74 | definition of a catalog entry's `content`: the passage, the stress-word heading, the stress words quoted and comma-separated, the pause heading and the pause note (property: `StressWordsOfContent`) |
| Rules.DialectRules | src/App.tsx:11-24 | the twelve dialect patterns, by source text, with their corrections, in table order |
| Rules.GrammarRules | src/App.tsx:27-36 | the eight grammar patterns, by source text, each with its correction or its warning, in table order |
| Rules.SampleTexts | src/App.tsx:38-74 | the five sample texts in the order `changeText` cycles through them |
| Rules.SampleText.Gaps | src/App.tsx:41-44 | one gap more than there are stress words |
| Rules.BaharSabahiQuoteFree | src/App.tsx:39-45 | the first entry's passage and pause note hold no double quote |
| Rules.BaharSabahiStressWords | src/App.tsx:39-45 | the analyser extracts exactly the first entry's four stress words from its content |
| Rules.DenizKenarindaQuoteFree | src/App.tsx:46-52 | the second entry's passage and pause note hold no double quote |
| Rules.DenizKenarindaStressWords | src/App.tsx:46-52 | the analyser extracts exactly the second entry's three stress words |
| Rules.SonbaharAksamiQuoteFree | src/App.tsx:53-59 | the third entry's passage and pause note hold no double quote |
| Rules.SonbaharAksamiStressWords | src/App.tsx:53-59 | the analyser extracts exactly the third entry's four stress words |
| Rules.YagmurluBirGunQuoteFree | src/App.tsx:60-66 | the fourth entry's passage and pause note hold no double quote |
| Rules.YagmurluBirGunStressWords | src/App.tsx:60-66 | the analyser extracts exactly the fourth entry's four stress words |
| Rules.KisGecesiQuoteFree | src/App.tsx:67-73 | the fifth entry's passage and pause note hold no double quote |
| Rules.KisGecesiStressWords | src/App.tsx:67-73 | the analyser extracts exactly the fifth entry's four stress words |
| Rules.StressWordsOfContent | src/App.tsx:38-74 | for any entry without quotes in its prose and with non-empty quote-free stress words, the emphasis words of its content are its stress words |
| Rules.CatalogStressWords | src/App.tsx:220-222 | for every catalog entry, the emphasis words of its content are exactly its stress words, in order |
| Analysis.Notice.Text | src/App.tsx:182-253 | definition of each item's message, with the grammar item's `warning \|\| template` fall-through (property: `GrammarTexts`) |
| Analysis.Notice.Kind | src/App.tsx:182-253 | definition of each item's `type`: dialect, grammar, rhythm for rate and pauses, pronunciation, emphasis |
| Analysis.GrammarTemplate | src/App.tsx:196 | definition of the grammar message shown when a rule has no warning (property: `GrammarTexts`) |
| Analysis.DialectItems | src/App.tsx:182-190 | definition of the dialect pass: one item per table entry whose pattern matches, in table order (properties: `DialectCount`, `DialectItemsOnly`, `BatchDialect`) |
| Analysis.GrammarItems | src/App.tsx:193-201 | definition of the grammar pass: one item per table entry whose pattern matches, in table order (properties: `GrammarCount`, `GrammarItemsOnly`, `BatchGrammar`) |
| Analysis.RateItems | src/App.tsx:204-217 | definition of the rate check: too fast above 180, else too slow below 100 (properties: `RateCount`, `BatchRate`) |
| Analysis.SpokenWords | src/App.tsx:224 | joining the spoken words with single spaces gives the lower-cased transcript back, and no spoken word holds a space (via `JoinSplitOn`, `SplitOnPiecesFree`; the converse is `SplitOnJoin`) |
| Analysis.IsMissing | src/App.tsx:226 | definition of the `!spokenWords.includes(word.toLowerCase())` test (properties: `BatchPronunciation`, `QuietMissing`) |
| Analysis.PronunciationItems | src/App.tsx:220-233 | definition of the emphasis-word pass: one item per emphasis word whose lower-case form is not a spoken word (properties: `PronunciationCount`, `BatchPronunciation`) |
| Analysis.PauseItems | src/App.tsx:236-243 | definition of the pause check: one item when no pause mark occurs (properties: `PauseCount`, `BatchPause`) |
| Analysis.ToneItems | src/App.tsx:246-253 | definition of the tone check: one item when no emphasis mark occurs (properties: `ToneCount`, `BatchTone`) |
| Analysis.Batch | src/App.tsx:179-253 | definition of `newErrors`: the six passes appended in the order the code runs them (properties: `BatchCount`, `BatchOrder` and the `Batch…` lemmas below) |
| Analysis.Emit | src/App.tsx:182-190 | a `forEach` that pushes at most one item per table entry |
| Analysis.EmitMember | src/App.tsx:182-190 | an item is pushed exactly when some entry passes the test and yields it |
| Analysis.EmitCount | src/App.tsx:182-190 | with distinct items per entry, each entry's item occurs as often as the entry occurs in the table, if it passes the test, and not at all otherwise |
| Analysis.EmitStage | src/App.tsx:182-190 | every item of one pass comes from that pass |
| Analysis.HasPauseMark | src/App.tsx:236 | `/[,.!?]/` matches exactly when one of those characters occurs |
| Analysis.IsPauseMark | src/App.tsx:236 | definition of the class `[,.!?]` (properties: `HasPauseMark`, `PauseMarkIsEmphasis`) |
| Analysis.AnalyzeEmphasis | src/App.tsx:264-273 | some emphasis pattern matches exactly when a `!`, `?`, capital of `[A-ZĞÜŞİÖÇ]` or one of `,.;:` occurs |
| Analysis.IsCapital | src/App.tsx:268 | definition of the case-sensitive class `[A-ZĞÜŞİÖÇ]` (property: `AnalyzeEmphasis`) |
| Analysis.IsClauseMark | src/App.tsx:269 | definition of the class `[,.;:]` (properties: `AnalyzeEmphasis`, `PauseMarkIsEmphasis`) |
| Analysis.DialectItemsOnly | src/App.tsx:182-190 | the dialect pass raises only dialect items |
| Analysis.GrammarItemsOnly | src/App.tsx:193-201 | the grammar pass raises only grammar items |
| Analysis.PronunciationItemsOnly | src/App.tsx:220-233 | the emphasis-word pass raises only missing-word items |
| Analysis.RateItemsOnly | src/App.tsx:204-217 | the rate check raises only the too-fast or too-slow item |
| Analysis.PauseItemsOnly | src/App.tsx:236-243 | the pause check raises only the no-pauses item |
| Analysis.ToneItemsOnly | src/App.tsx:246-253 | the tone check raises only the flat-tone item |
| Analysis.RhythmItemsOnly | src/App.tsx:204-253 | the rate, pause and tone checks raise only their own items |
| Analysis.DialectCount | src/App.tsx:182-190 | a dialect rule's item occurs once per occurrence of the rule when its pattern matches, never otherwise |
| Analysis.GrammarCount | src/App.tsx:193-201 | a grammar rule's item occurs once per occurrence of the rule when its pattern matches, never otherwise |
| Analysis.PronunciationCount | src/App.tsx:220-233 | a word is reported missing once per listing among the emphasis words when its lower-case form is not a spoken word, never otherwise |
| Analysis.CountOfParts | src/App.tsx:255 | occurrences in the concatenated passes add up |
| Analysis.BatchCount | src/App.tsx:179-255 | each item's count in one analysis is the sum of its counts in the six passes |
| Analysis.OrderedAppend | src/App.tsx:179-255 | appending a later pass to items in pass order keeps them in pass order |
| Analysis.OrderedRuns | src/App.tsx:179-255 | six passes appended in order are in pass order |
| Analysis.BatchOrder | src/App.tsx:179-255 | the items of one analysis are in the order of the checks: dialect, grammar, rate, pronunciation, pauses, tone |
| Analysis.BatchRate | src/App.tsx:204-217 | one analysis says too fast exactly when the rate is above 180, too slow exactly when it is below 100, each at most once |
| Analysis.RhythmNotFromWordChecks | src/App.tsx:182-233 | the table and word passes never raise a rhythm or tone item |
| Analysis.RateCount | src/App.tsx:204-217 | the rate check raises too fast exactly above 180 and too slow exactly below 100 |
| Analysis.PauseCount | src/App.tsx:236-243 | the pause check raises its item exactly when no pause mark occurs |
| Analysis.ToneCount | src/App.tsx:246-253 | the tone check raises its item exactly when no emphasis mark occurs |
| Analysis.BatchRateFast | src/App.tsx:204-210 | one analysis holds one too-fast item above 180 words, none otherwise |
| Analysis.BatchRateSlow | src/App.tsx:211-217 | one analysis holds one too-slow item below 100 words, none otherwise |
| Analysis.BatchPause | src/App.tsx:236-243 | one analysis holds one no-pauses item exactly when `/[,.!?]/` does not match |
| Analysis.BatchTone | src/App.tsx:246-253 | one analysis holds one flat-tone item exactly when no emphasis pattern matches |
| Analysis.PauseMarkIsEmphasis | src/App.tsx:236-273 | a transcript with a pause mark always has an emphasis mark |
| Analysis.FlatToneHasNoPauses | src/App.tsx:236-253 | a flat-tone item never comes without a no-pauses item |
| Analysis.BatchDialect | src/App.tsx:182-190 | in one analysis, a dialect rule is reported once per listing when its pattern matches the transcript and never otherwise |
| Analysis.BatchGrammar | src/App.tsx:193-201 | in one analysis, a grammar rule is reported once per listing when its pattern matches the transcript and never otherwise |
| Analysis.MissingWordNotFromTables | src/App.tsx:182-201 | the table passes never report a missing word |
| Analysis.MissingWordNotFromRhythm | src/App.tsx:204-253 | the rhythm and tone checks never report a missing word |
| Analysis.BatchMissingWords | src/App.tsx:220-233 | all missing-word items of an analysis come from the emphasis-word pass |
| Analysis.BatchPronunciation | src/App.tsx:220-233 | in one analysis, a word is reported missing once per listing among the reference's emphasis words when its lower-case form is not among the transcript's space-separated lower-case words, never otherwise |
| Analysis.GrammarTexts | src/App.tsx:193-199 | a grammar item shows the rule's warning when it has one, else the correction message |
| Analysis.Step | src/App.tsx:175-256 | one analyser call keeps the old list as a prefix and records the transcript; a repeat of the last transcript changes nothing; any other appends exactly one batch |
| Analysis.Replay | src/App.tsx:175-256 | no calls leave the state as it was |
| Analysis.ReplayAppends | src/App.tsx:255 | a sequence of calls only appends, and the last transcript is the last one passed |
| Analysis.ReplayConcat | src/App.tsx:175-256 | calls for `a + b` are the calls for `a` followed by those for `b` |
| Analysis.ReplaySnoc | src/App.tsx:175-256 | one more transcript is one more step |
| Analysis.ReplayRepeat | src/App.tsx:176 | a transcript delivered twice in a row is analysed once |
| Sessions.Finals | src/App.tsx:158-160 | no more final transcripts than results |
| Sessions.FinalsMember | src/App.tsx:158-163 | a transcript is handed to `analyzeText` exactly when some final result carries it; the duplicate guard at line 176 may still skip it |
| Sessions.FinalsSnoc | src/App.tsx:160-163 | a further final result adds its transcript; any other result adds nothing |
| Sessions.Concat | src/App.tsx:161 | the concatenation is at least as long as its last part |
| Sessions.ConcatSnoc | src/App.tsx:161 | appending a transcript extends the concatenation by it |
| Sessions.Pending | src/App.tsx:158 | definition of the results the handler visits: from `resultIndex` to the end, none when the index lies past the end (properties: `DoneAll`, `Session.DeliverResults`) |
| Sessions.DoneStep | src/App.tsx:158 | one more loop turn takes one more result |
| Sessions.DoneNone | src/App.tsx:157-158 | before the loop, no final transcript has been gathered |
| Sessions.DoneAll | src/App.tsx:158 | when the loop stops, every result from `resultIndex` on has been gone through |
| Sessions.DeliverStep | src/App.tsx:159-163 | a final result extends the recorded text and adds one analyser call; any other result changes neither |
| Sessions.Session.constructor | src/App.tsx:128-135 | the initial state: not recording, first sample text shown, nothing recorded, no feedback, nothing analysed yet |
| Sessions.Session.Reference | src/App.tsx:220 | definition of the reference text, the content of the sample text at `currentTextIndex` (properties: `CatalogStressWords`, `Session.OnResult`; the handler as written uses the first entry instead, see `StaleReferenceCounterexample`) |
| Sessions.Session.AnalyzeText | src/App.tsx:175-256 | the new feedback list and last transcript are one `Step` of the old ones |
| Sessions.Session.CollectNotices | src/App.tsx:179-253 | the items gathered are exactly `Batch` |
| Sessions.Session.DialectPass | src/App.tsx:182-190 | the loop over the dialect table pushes exactly the items of the dialect pass |
| Sessions.Session.GrammarPass | src/App.tsx:193-201 | the loop over the grammar table pushes exactly the items of the grammar pass |
| Sessions.Session.PronunciationPass | src/App.tsx:220-233 | the loop over the emphasis words pushes exactly the items of the pronunciation pass |
| Sessions.Session.OnResult | src/App.tsx:156-166 | the corrected handler: the state is the replay of the final transcripts against the text on screen, and the recorded text is their concatenation |
| Sessions.Session.OnResultAsWritten | src/App.tsx:144-166 | the handler as installed: the state is the replay of the final transcripts against the first sample text, whichever is on screen |
| Sessions.Session.DeliverResults | src/App.tsx:157-165 | the loop over the results from `resultIndex` on replays the final transcripts in order and records their concatenation |
| Sessions.Session.DeliverSegment | src/App.tsx:159-163 | one turn of that loop keeps both facts true for one more result |
| Sessions.Session.ChangeText | src/App.tsx:137-142 | the next sample text, cyclically, is on screen and the feedback list is empty |
| Sessions.Session.EditText | src/App.tsx:320 | the text box holds the typed value |
| Sessions.Session.StartRecording | src/App.tsx:275-279 | recording, with an empty feedback list |
| Sessions.Session.StopRecording | src/App.tsx:281-284 | not recording |
| Sessions.QuietMissing | src/App.tsx:220-233 | with no table match and identity lower-casing, an emphasis word that is not one of the transcript's space-separated words is reported missing as often as the reference lists it |
| Sessions.QuietBatchesDiffer | src/App.tsx:220-233 | two references that differ in one emphasis word the transcript leaves out give different analyses of that transcript |
| Sessions.QuietReplaysDiffer | src/App.tsx:175-233 | from the initial state (nothing analysed), such a non-empty transcript passes the duplicate guard and the two references leave different feedback lists |
| Sessions.StaleReferenceCounterexample | src/App.tsx:144-173 | from the initial state, the final transcript "merhaba" analysed against the first sample text leaves a different state from the same transcript analysed against the second, the one on screen after one `changeText` |
| Breathing.Next | src/components/exercises/BreathingExercises.tsx:18-21 | the next phase always differs from the current one |
| Breathing.NextCycles | src/components/exercises/BreathingExercises.tsx:18-21 | three advances return to the start through three distinct phases |
| Breathing.PhaseAt | src/components/exercises/BreathingExercises.tsx:15-22 | the first four ticks are inhale |
| Breathing.PhaseAtStep | src/components/exercises/BreathingExercises.tsx:16-22 | one tick changes the phase exactly when the new count is a multiple of four |
| Breathing.PhaseAtPeriod | src/components/exercises/BreathingExercises.tsx:16-22 | the phase repeats every twelve ticks |
| Breathing.ProgressStep | src/components/exercises/BreathingExercises.tsx:25 | counting modulo 100 one at a time stays equal to the count modulo 100 |
| Breathing.Pacer.constructor | src/components/exercises/BreathingExercises.tsx:4-7 | the initial state: timer 0, inactive, inhale, progress 0 |
| Breathing.Pacer.Tick | src/components/exercises/BreathingExercises.tsx:11-29 | when active: the timer goes up by one, the phase advances exactly when the new timer is a multiple of four, and progress goes up by one modulo 100; when inactive nothing changes; phase and progress stay functions of the timer |
| Breathing.Pacer.Reset | src/components/exercises/BreathingExercises.tsx:63-67 | timer and progress 0, phase inhale |
| Breathing.Pacer.Toggle | src/components/exercises/BreathingExercises.tsx:60 | the active flag flips |

## Left out

- The regular-expression engine for the dialect and grammar tables is a parameter
  (`Runtime.test`). The table sources are kept as text but not interpreted.
- `toLowerCase` is a parameter (`Runtime.lower`); Unicode case mapping is not modelled.
- `Date.now()` timestamps of the feedback items are not modelled. Items are
  compared by what raised them.
- The speech recogniser's setup, its language setting, `onerror`, `start`/`stop`
  and the `alert` for an unsupported browser are not modelled. Results enter as a
  `ResultEvent` value.
- The React render, the JSX, the `showExercises` toggle and the exercise lists
  (`dictionExercises`) are not modelled. Neither are the other exercise screens.
- The canvas drawing of the breathing screen is not modelled. It only reads the
  progress and the phase.
- `setInterval` scheduling is not modelled: `Breathing.Pacer.Tick` is one firing
  of the interval, and it does nothing while the pacer is inactive.
- Breathing.Next: its own contract says only that the phase changes. The full
  cycle is stated by `Breathing.NextCycles`.

## Findings

| source | as written | input that shows it | evidently intended | confidence | as-written member | corrected member |
|---|---|---|---|---|---|---|
| src/App.tsx:144-173 | the result handler is installed once, by an effect with no dependencies, so the `analyzeText` it calls is the one of the first render, which reads the emphasis words of the first sample text whichever text is on screen | press "change text" once (the second text, "Deniz Kenarında", is shown), then deliver the final transcript "merhaba" (non-empty, so it passes the duplicate guard): the app reports "erkenden", a word of the first text, as missing instead of the second text's words | emphasis words are taken from the sample text currently on screen | not executed | Sessions.Session.OnResultAsWritten, Sessions.StaleReferenceCounterexample | Sessions.Session.OnResult |
