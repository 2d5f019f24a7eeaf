# English tutor core: feedback extraction, progress statistics, conversation log

This project is a Dafny model of the text and data logic of an English-tutor
application. The tutor asks a chat model to reply to the learner. The model
ends its reply with labelled feedback blocks (`**Corrections:**`,
`**Vocabulary:**`, `**Grammar Tip:**` and their short spellings). Three
components handle that reply:

- the **feedback extractor** (`extract_feedback`) splits one reply into the
  conversational paragraph and three lists;
- the **conversation manager** appends one record per exchange to its
  history and can replace the history with the saved log;
- the **progress tracker** computes statistics over the saved turns: word
  totals, correction-free turns, the most frequent corrections, the learned
  vocabulary and grammar tips, the mean words per turn, and per-day buckets.

Modules:

- `Text` models the parts of Python's `str` the core uses:
  - the exact `str.isspace` character set;
  - `strip()`;
  - `split(sep)` with its inverse `sep.join`;
  - `split()` into words;
  - `sub in s`, and `s.split(sub)[-1]` scanned left to right the way
    Python splits.
- `TurnLog` is the saved record. A key missing from a loaded record reads
  as `""` or `[]`, which is what every `.get(key, default)` in the core
  substitutes.
- `FeedbackExtractor` holds the extractor:
  - `Extract` is a left fold of one `Step` per line, the specification;
  - `ExtractFeedback` is the source's loop, proved equal to it.

  The six label spellings are a parameter (`Labels`) of the scan and its
  lemmas; `SourceLabels` holds the spellings the source uses.
- `FeedbackProperties` proves what the scan promises.
- `Counting` models `collections.Counter` and its stable `most_common`.
- `Analytics` holds the specification folds of each statistic, the lemmas
  that tie each fold to an independent description, and the class
  `ProgressTracker`.
  - The statistics methods of `ProgressTracker` are loops proved equal to
    the folds.
  - None of them has a `modifies` clause, so none can change
    `conversations`, and calling one twice gives the same result.
  - `get_total_turns` is `ProgressTracker.TotalTurns`, the length of
    `conversations`.
- `Conversation` holds the class `ConversationManager` and two lemmas
  about one logged exchange. `LoggedExchange` states how it changes the
  word totals, the learned sets, the counted corrections, the
  correction-free count and the number of timestamped turns. `LoggedDay`
  states how it changes the daily buckets. The top-N error list and the
  average are reached only through the counted corrections and the word
  totals.

Three behaviours of the extractor that its code fixes and the model keeps:

- The text after a label on a label line is appended at the end of its
  section's list, after the items already there
  (modules/feedback.py:39-40).
- An unlabelled line is dropped when it is blank after stripping
  (modules/feedback.py:56).
- With no label in the reply, the paragraph is the non-blank stripped lines
  joined by single spaces (modules/feedback.py:56-58 and 67).

In the statistics, a correction or a learned entry that is blank after
stripping is skipped (modules/analytics.py:70, modules/analytics.py:87),
and a kept entry is stored as written, unstripped.

## Model

| member | source | states |
|---|---|---|
| Text.IsSpace | modules/feedback.py:32 | the characters Python's `str.isspace` accepts, which both `strip()` and `split()` treat as whitespace: U+0009-U+000D, U+001C-U+0020, U+0085, U+00A0, U+1680, U+2000-U+200A, U+2028, U+2029, U+202F, U+205F and U+3000 |
| Text.Strip | modules/feedback.py:32 | the result has no `str.isspace` character at either end and is no longer than the input |
| Text.StripEmptyIffBlank | modules/feedback.py:56 | a stripped line is empty exactly when every character of the raw line is whitespace, so `if line:` rejects exactly the blank lines |
| Text.StripIsSlice | modules/feedback.py:32 | `strip()` returns the contiguous slice of its argument that starts after the leading whitespace |
| Text.SplitOn | modules/feedback.py:25 | `split("\n")` returns at least one piece and no piece contains the separator |
| Text.SplitCount | modules/feedback.py:25 | there is exactly one more piece than there are separators in the text |
| Text.JoinOfSplit | modules/feedback.py:25 | joining the pieces with the separator gives back the original text, so no character is lost or added |
| Text.SplitOfJoin | modules/feedback.py:25 | splitting a join of separator-free pieces gives back those pieces (the inverse direction) |
| Text.WordCountIsRunCount | modules/analytics.py:44-45 | `len(text.split())` equals the number of maximal runs of non-whitespace characters, counted independently |
| Text.BlankHasNoWords | modules/analytics.py:44 | a text made only of whitespace, including the `""` default of a missing key, has no words |
| Text.Words | modules/analytics.py:44 | each word `split()` gives is non-empty and free of whitespace; their number is pinned by `WordCountIsRunCount` |
| Text.WordCount | modules/analytics.py:44-45 | `len(text.split())`; `WordCountIsRunCount` proves it equals the number of maximal non-whitespace runs |
| Text.Find | modules/feedback.py:35 | the search behind `Contains`, which models `in`: `-1` when the substring is absent, otherwise a position where it occurs |
| Text.Contains | modules/feedback.py:35 | `sub in s`: true exactly when `sub` occurs somewhere in `s`, by `FindIsFirst` |
| Text.FindIsFirst | modules/feedback.py:35 | `find` returns the first occurrence: any occurrence lies at or after it, so `sub in s` holds exactly when `find` is not `-1` |
| Text.LastPiece | modules/feedback.py:38 | `split(sub)[-1]` holds no occurrence of `sub`, is the whole text when `sub` is absent, and otherwise drops at least everything up to the end of the first occurrence; when `sub` overlaps itself these facts and `LastPieceFollowsSub` admit more than one suffix, and only the body fixes the one Python returns |
| Text.LastPieceFollowsSub | modules/feedback.py:38 | the last piece is a suffix of the text; when `sub` occurs, it begins right after an occurrence of `sub` |
| Text.LastPieceTwiceIsSuffix | modules/feedback.py:38 | splitting on one label and then on the other keeps a suffix of the line |
| Text.LastPieceTwiceKeepsAll | modules/feedback.py:38 | the two splits keep the whole line exactly when neither label occurs in it |
| Text.LastPieceTwiceFollows | modules/feedback.py:38 | when the two splits drop anything, what they keep begins right after an occurrence of one of the two labels |
| Text.LastPieceKeepsAbsence | modules/feedback.py:38 | the last piece contains no substring the text does not contain |
| Text.StripKeepsAbsence | modules/feedback.py:38 | stripping never creates an occurrence of a substring |
| FeedbackExtractor.AddItems | modules/feedback.py:40 | appending to one section's list leaves the paragraph and the other two lists unchanged |
| FeedbackExtractor.AfterLabels | modules/feedback.py:38 | the text kept from a marker line holds neither spelling of its label, has no outer whitespace, and loses everything up to the end of the first occurrence of the label split first |
| FeedbackExtractor.HasMarker | modules/feedback.py:35-48 | the test `A in line or B in line` for the two spellings of one section's label |
| FeedbackExtractor.MarkerContent | modules/feedback.py:38-50 | the `content = line.split(A)[-1].split(B)[-1].strip()` line of each labelled branch, with that section's two spellings |
| FeedbackExtractor.AfterLabelsKeeps | modules/feedback.py:38 | the kept text is the stripped rest of the line from a position that is 0 exactly when neither spelling occurs, and otherwise lies right after an occurrence of one of them |
| FeedbackExtractor.MarkedSection | modules/feedback.py:35-49 | the section a line announces is never the paragraph |
| FeedbackExtractor.MarkedSectionFindsLabel | modules/feedback.py:35-54 | a line announces a section exactly when it holds a label, the section announced is one whose label it holds, and corrections outrank vocabulary, which outranks grammar tips |
| FeedbackExtractor.Lines | modules/feedback.py:25 | the reply has one more line than it has newlines, and joining the lines with newlines gives it back |
| FeedbackExtractor.Step | modules/feedback.py:32-64 | one iteration of the loop on one raw line; `LabelLine`, `UnlabelledLine` and `BlankLineIgnored` state its effect on each kind of line |
| FeedbackExtractor.StepAddsAtMostOne | modules/feedback.py:35-64 | one line adds at most one list item |
| FeedbackExtractor.StepKeepsClean | modules/feedback.py:38-64 | any item a line adds is non-empty and stripped |
| FeedbackExtractor.Run | modules/feedback.py:31-64 | over any lines, the number of items grows by at most the number of lines, and clean lists stay clean |
| FeedbackExtractor.Extract | modules/feedback.py:1-69 | a result with all four fields exists for every input; the paragraph has no outer whitespace, every list item is non-empty and stripped, and there are no more items than lines |
| FeedbackExtractor.ScanLine | modules/feedback.py:32-64 | the loop body (label tests in priority order, cursor move, append) equals `Step` |
| FeedbackExtractor.ScanLines | modules/feedback.py:28-64 | the loop over the lines, from any state, equals the fold `Run` |
| FeedbackExtractor.ExtractFeedback | modules/feedback.py:17-69 | `extract_feedback` returns exactly `Extract(text)`, so all of `Extract`'s properties hold of it |
| FeedbackProperties.BlankLineIgnored | modules/feedback.py:56 | a line that is blank after stripping changes neither the cursor nor any section |
| FeedbackProperties.LabelLine | modules/feedback.py:35-52 | a marker line moves the cursor to its section and appends its remaining text only if that text is non-empty; the paragraph and other lists are unchanged; the kept text holds no label and is shorter than the line; a corrections marker wins over any other, and a vocabulary marker over a grammar marker |
| FeedbackProperties.MarkerContentDropsLabel | modules/feedback.py:38 | the text kept from a line holding a label holds neither spelling of that label and is strictly shorter than the line |
| FeedbackProperties.LabelContent | modules/feedback.py:38-52 | what a label line adds is the stripped rest of the line from right after an occurrence of one of its section's two spellings |
| FeedbackProperties.UnlabelledLine | modules/feedback.py:54-64 | a non-blank line without a marker keeps the cursor; it goes to the paragraph followed by one space, or becomes the last item of the cursor's list |
| FeedbackProperties.StepExtends | modules/feedback.py:35-64 | after one line, the old paragraph and each old list are prefixes of the new ones |
| FeedbackProperties.RunAppend | modules/feedback.py:31 | scanning `a + b` is scanning `a`, then `b` from the state `a` left |
| FeedbackProperties.RunExtends | modules/feedback.py:31-64 | items keep their input order: every earlier paragraph and list is a prefix of every later one |
| FeedbackProperties.LastLabel | modules/feedback.py:36-49 | the most recent marker never names the paragraph section |
| FeedbackProperties.NoLastLabel | modules/feedback.py:35-52 | there is no most recent marker exactly when no line holds a label |
| FeedbackProperties.CursorIsLastLabel | modules/feedback.py:28-49 | after a run, the cursor is the section of the most recent marker line, or where it started if there was none |
| FeedbackProperties.StepFrozen | modules/feedback.py:57-64 | once the cursor is on a list, one more line keeps it on a list and leaves the paragraph unchanged |
| FeedbackProperties.ResponseFrozen | modules/feedback.py:57-64 | once the cursor has left the paragraph it never returns, and the paragraph never changes again |
| FeedbackProperties.NoParagraphAfterLabel | modules/feedback.py:35-58 | the final paragraph is the one built before the first marker line; neither the marker line nor any later line adds to it |
| FeedbackProperties.LaterLineJoinsLastLabel | modules/feedback.py:54-64 | after a marker has been seen, a non-blank unmarked line becomes the last item of the most recent marker's section and changes nothing else |
| FeedbackProperties.SpacedIsJoin | modules/feedback.py:58 | writing each piece followed by a space is joining the pieces with single spaces plus one trailing space |
| FeedbackProperties.ParagraphLine | modules/feedback.py:56-58 | while the cursor is on the paragraph, an unmarked line appends its stripped text and a space if it is non-blank, and changes nothing else |
| FeedbackProperties.RunWithoutLabels | modules/feedback.py:54-58 | with no marker line, the cursor stays on the paragraph, the lists stay as they were, and the paragraph grows by the spaced non-blank lines |
| FeedbackProperties.NoLabels | modules/feedback.py:31-67 | a reply with no label gives three empty lists and, as paragraph, its non-blank stripped lines joined by single spaces |
| FeedbackProperties.ExtractEmpty | modules/feedback.py:17-67 | the empty reply gives an empty paragraph and three empty lists |
| FeedbackProperties.SectionLine | modules/feedback.py:54-64 | while the cursor is on a list, an unlabelled line appends its stripped text to that list unless it is blank, and changes nothing else |
| FeedbackProperties.RunInSection | modules/feedback.py:54-64 | while the cursor is on a list, unlabelled lines append their non-blank stripped text to it, in order, and change nothing else |
| FeedbackProperties.BlockRun | modules/feedback.py:35-64 | a label line followed by unlabelled lines moves the cursor to the label's section and appends the label line's content and then the non-blank later lines to that list; the paragraph and the other lists are unchanged |
| FeedbackProperties.TwoBlocks | modules/feedback.py:31-64 | two blocks of different sections in a row each fill their own list and change nothing else |
| FeedbackProperties.SwapBlocks | modules/feedback.py:31-64 | two blocks of different sections, for example a vocabulary block and a grammar-tip block, give the same paragraph and lists in either order |
| Counting.CountOf | modules/analytics.py:71 | `counter[c]`, where a key that was never added reads as 0 |
| Counting.Add | modules/analytics.py:71 | `counter[c] += 1` raises the count of `c` by one and no other count; a new key goes last, and a known key keeps its place |
| Counting.Entries | modules/analytics.py:73 | the counter's `(key, count)` pairs, one per key, in the order keys were first added, which is the order `most_common` breaks ties by |
| Counting.SortDesc | modules/analytics.py:73 | the sort returns a permutation of the pairs, in non-increasing order of count |
| Counting.SortStable | modules/analytics.py:73 | the sort is stable: the pairs of any one count keep their input order |
| Counting.MostCommonIsTop | modules/analytics.py:73 | `most_common(n)` has `min(n, len)` pairs (none for `n <= 0`), all taken from the counter, in non-increasing order of count |
| Counting.TopIsLargest | modules/analytics.py:73 | no pair that `most_common(n)` leaves out has a larger count than one it keeps |
| Counting.MostCommonStable | modules/analytics.py:73 | the pairs of equal count that are listed are a prefix of that count's pairs in first-seen key order |
| Counting.MostCommon | modules/analytics.py:73 | `most_common(n)`: the first `n` pairs of the stable descending sort; `MostCommonIsTop`, `TopIsLargest` and `MostCommonStable` state its properties |
| Analytics.TotalWordsAppend | modules/analytics.py:42-46 | word totals add up over concatenated logs |
| Analytics.TotalWordsCountsRuns | modules/analytics.py:38-56 | each word total is the number of maximal non-whitespace runs over all turns' texts |
| Analytics.SpokenText | modules/analytics.py:44-54 | the `turn.get("user", "")` or `turn.get("ai_response", "")` read; a missing key is the empty string of the turn record |
| Analytics.TotalWords | modules/analytics.py:38-56 | the sum over the turns of the word count of the user text or of the reply paragraph; `TotalWordsAppend` and `TotalWordsCountsRuns` state its properties |
| Analytics.CorrectionFreeCountIsExact | modules/analytics.py:121-131 | the count equals the number of turns whose corrections are empty or exactly `["None - well done!"]`, so it never exceeds the number of turns |
| Analytics.CorrectionFree | modules/analytics.py:128 | the test `not corrections or corrections == ["None - well done!"]` |
| Analytics.CorrectionFreeCount | modules/analytics.py:121-131 | the number of turns counted so far whose corrections are empty or only the well-done entry; `CorrectionFreeCountIsExact` characterises it |
| Analytics.Counted | modules/analytics.py:70 | the filter `correction.strip() and correction != "None - well done!"`: only a correction that is non-blank after stripping and not the well-done entry is counted |
| Analytics.TallyErrors | modules/analytics.py:65-71 | the counter built from the corrections has distinct keys, exactly the keys it counts, and every count is at least one |
| Analytics.TallyCounts | modules/analytics.py:65-71 | each string's count is its number of occurrences if it is counted (not blank after stripping, not the well-done entry), else zero; the keys are exactly the counted strings that occur |
| Analytics.TallyFirstSeen | modules/analytics.py:65-71 | keys are kept in first-seen order: counting more corrections only adds keys at the end |
| Analytics.EntryIsOccurrenceCount | modules/analytics.py:65-73 | every counter entry names a counted correction with its exact number of occurrences, at least one |
| Analytics.RecurringErrorsFacts | modules/analytics.py:58-73 | at most `top_n` pairs (none for `top_n <= 0`); each is a counted correction with its exact occurrence count across all turns |
| Analytics.RecurringErrors | modules/analytics.py:58-73 | `most_common(top_n)` of the counter of all turns' corrections; `RecurringErrorsFacts` states its properties |
| Analytics.CountCorrections | modules/analytics.py:68-71 | the inner loop over one turn's corrections gives the counter of all corrections seen so far |
| Analytics.LearnedSetMembers | modules/analytics.py:75-107 | a string is collected exactly when it is not blank after stripping and some turn lists it, as written |
| Analytics.LearnedList | modules/analytics.py:85-102 | the `turn.get("vocabulary", [])` or `turn.get("grammar_tips", [])` read |
| Analytics.LearnedSet | modules/analytics.py:75-107 | the union over the turns of their non-blank entries; `LearnedSetMembers` characterises it |
| Analytics.AddNonBlank | modules/analytics.py:86-88 | the inner loop adds exactly the non-blank entries of one list, unstripped |
| Analytics.DateOf | modules/analytics.py:192 | the date is a prefix of the timestamp without `T`, followed by `T` unless it is the whole timestamp |
| Analytics.DateOfIsFirstPiece | modules/analytics.py:192 | the date is `timestamp.split("T")[0]` |
| Analytics.DailyBuckets | modules/analytics.py:186-199 | there is a bucket for exactly the dates of timestamped turns; its `turns` is that day's number of turns and its `words` their summed user word counts |
| Analytics.Daily | modules/analytics.py:186-199 | the bucket map after a fold of `CountDay` over the turns; `DailyBuckets` and `DailyTurnsSum` characterise it |
| Analytics.Timestamped | modules/analytics.py:187-189 | `if not timestamp: continue`: a turn counts towards a day only when its timestamp is non-empty |
| Analytics.CountDay | modules/analytics.py:186-199 | one turn's step of the bucket fold; `CountDayHit` and `CountDayMiss` state its effect |
| Analytics.CountDayHit | modules/analytics.py:194-199 | a timestamped turn's bucket exists afterwards and gains one turn and the turn's user words |
| Analytics.CountDayMiss | modules/analytics.py:187-199 | every other bucket is unchanged, and a turn without a timestamp changes nothing |
| Analytics.DailyTurnsSum | modules/analytics.py:186-199 | the buckets' turns add up to the number of timestamped turns |
| Analytics.OpenAndCount | modules/analytics.py:192-199 | opening the bucket if new, then incrementing it, is one step of the bucket fold |
| Analytics.Mean | modules/analytics.py:113-119 | zero when there are no turns, otherwise the ratio whose product with the turn count is the word total; never negative |
| Analytics.ProgressTracker.constructor | modules/analytics.py:12-18 | the tracker starts with the parsed turns, or with none when the file is absent or unreadable |
| Analytics.ProgressTracker.LoadConversations | modules/analytics.py:20-30 | an absent file keeps the turns, a failed read empties them, a parsed file replaces them |
| Analytics.ProgressTracker.TotalTurns | modules/analytics.py:32-36 | the number of stored turns |
| Analytics.ProgressTracker.SumWords | modules/analytics.py:42-46 | the accumulator loop equals the word-total fold |
| Analytics.ProgressTracker.GetTotalWordsSpoken | modules/analytics.py:38-46 | equals the user word total, which `TotalWordsCountsRuns` ties to run counting |
| Analytics.ProgressTracker.GetTotalWordsHeard | modules/analytics.py:48-56 | equals the word total of the conversational replies |
| Analytics.ProgressTracker.GetRecurringErrors | modules/analytics.py:58-73 | the nested loop and `most_common` give exactly `RecurringErrors`, whose properties are proved above |
| Analytics.ProgressTracker.CollectLearned | modules/analytics.py:82-90 | the set-building loop equals the learned-set fold |
| Analytics.ProgressTracker.GetVocabularyLearned | modules/analytics.py:75-90 | equals the set characterised by `LearnedSetMembers` for vocabulary |
| Analytics.ProgressTracker.GetGrammarTips | modules/analytics.py:92-107 | equals the set characterised by `LearnedSetMembers` for grammar tips |
| Analytics.ProgressTracker.AverageWordsPerTurn | modules/analytics.py:109-119 | zero for an empty log (no division), otherwise the user word total divided by the number of turns, and never negative |
| Analytics.ProgressTracker.GetCorrectionFreeTurns | modules/analytics.py:121-131 | the counting loop equals the count that `CorrectionFreeCountIsExact` characterises |
| Analytics.ProgressTracker.GetDailyProgress | modules/analytics.py:177-201 | the loop builds exactly the bucket map characterised by `DailyBuckets` and `DailyTurnsSum` |
| Conversation.ConversationManager.constructor | modules/conversation.py:11-22 | a new manager has an empty history |
| Conversation.ConversationManager.AddTurn | modules/conversation.py:24-43 | exactly one record is appended, after the unchanged earlier ones, holding the timestamp, the user text, the raw reply and the extractor's paragraph and three lists |
| Conversation.ConversationManager.Load | modules/conversation.py:56-67 | an absent file keeps the history, a failed read or parse empties it, a parsed file replaces it wholesale |
| TurnLog.Turn | modules/conversation.py:33-41 | the seven keys of a saved turn; a key a loaded record lacks reads as the empty string or list, the default every `.get` in the core uses |
| Conversation.Record | modules/conversation.py:33-41 | the record holds the timestamp, the user text, the raw reply, and the extractor's paragraph and three lists |
| Conversation.LoggedExchange | modules/conversation.py:33-43 | logging an extracted reply adds the turn's words to both word totals, adds its vocabulary and tips to the learned sets, and appends its corrections to the counted ones (all but the well-done entry get counted); the correction-free count grows exactly when nothing or only the well-done entry was extracted; the number of timestamped turns grows exactly when the timestamp is non-empty |
| Conversation.LoggedDay | modules/conversation.py:33-43 | with a non-empty timestamp, the bucket of its date gains one turn and the user's words of this turn, opened if new; every other bucket, and every bucket when the timestamp is empty, is unchanged |

## Left out

- File input and output are not modelled.
  - The outcome of reading the log is a parameter (`LoadOutcome`: absent, unreadable, or parsed turns).
  - `ConversationManager.save`, `json.load`/`json.dump`, `os.makedirs` and the file names are left out.
  - Console messages are left out.
- `datetime.now().isoformat()` is replaced by a `timestamp` parameter of `AddTurn`.
- Analytics.ProgressTracker.AverageWordsPerTurn returns the exact ratio. It does not model `round(..., 1)` on binary floats, nor the integer `0` that Python returns for an empty log. Its contract gives the zero case, the ratio `total / turns` otherwise, and the sign.
- `get_report` (modules/analytics.py:133-175) is presentational text and is left out. Its line 155 divides by the turn count without a guard, so it fails on an empty log, unlike the guarded average.
- Analytics.ProgressTracker.GetDailyProgress returns a `map`. The insertion order of the dictionary's keys is not modelled.
- Analytics.ProgressTracker.GetRecurringErrors takes an integer `top_n`. `most_common(None)`, which returns every pair, is not modelled.
- Some malformed logs are not modelled: a log that parses to something other than a list of turns, and a list entry that is not a string (which `.strip()` would reject).
- Strings are sequences of Unicode scalar values. Lone surrogates, which a Python `str` can hold, are not modelled.
- The rest of the application is not part of this model:
  - the Streamlit and console front ends;
  - the chat, translation, speech-to-text and text-to-speech clients;
  - the speed-control window;
  - configuration loading.
