# meeting-filter, modelled in Dafny

meeting-filter streams meeting audio from a browser to a server and back.
On the way, the server bleeps banned words and personal data out of the audio.
It also sends the recognised text, so the dashboard can show a live transcript.

This project models the bookkeeping around that stream and proves properties of it. It covers:

- the dashboard's transcript reconciler, its client-side 20 ms framer, the splitting of a caption into plain and emphasised ("삐-") segments, the report history list, the date and duration strings, and the report carousel index;
- the playback jitter buffer of the audio worklet;
- the server's frame chunker and its sliding ring buffer;
- the word/character alignment used to map detector hits onto words;
- the detector's normaliser, its exact and fuzzy banned-word searches and the rule that ties them together;
- region merging, the K-chunk holdback and the "bleep until" sample index of the meeting socket handler;
- the masking of PCM samples over time regions;
- the login form's e-mail check.

Audio samples are integers or reals, or a generic element type where the code only moves them around.
Time is integer milliseconds, or reals for seconds.
Clock readings, the similarity score and the tone generator are parameters.

Modules, one file each:

- `Transcript` (transcript.dfy)
- `BleepText` (bleep_text.dfy)
- `Framing` (framer.dfy)
- `ReportHistory` (report_history.dfy)
- `DateFormat` (date_format.dfy)
- `Duration` (duration.dfy)
- `Carousel` (carousel.dfy)
- `Player` (player.dfy)
- `Chunker` (chunker.dfy)
- `Ring` (ring.dfy)
- `Align` (align.dfy)
- `Meeting` (meeting.dfy)
- `Rules` (rules.dfy)
- `Redact` (redact.dfy)
- `Email` (email.dfy)

Shared helpers: `Wrappers` (Option), `Chars` (the JavaScript and Python white-space sets, ASCII case mapping), `Numbers` (decimal strings, truncation toward zero), `Seqs` (concatenation of chunks) and `Sorting` (an insertion sort standing for Python's `sorted`: each element is inserted after every earlier one that is not greater, so, as in Python, elements that tie under the key keep their arrival order. At the fuzzy call site, backend-fastapi/app/detect/rules.py:88, elements that tie under the full three-part key are equal findings. At `merge_regions`, backend-fastapi/app/ws/meeting_ws.py:28, the key is the start only, so regions with the same start and different ends do tie, for instance the carried-in region beside a found region clipped to 0. For regions whose start is not after their end, the order of such ties does not change the merged result. The contracts state sortedness and permutation, not the arrival order of ties).

Three facts about the code that the model keeps:

- `MAX_TRANSCRIPT_LINES` is declared at frontend/dashboard.js:874 and never used, so the transcript history is never capped (`Transcript.OtherwiseAppends`).
- frontend/dashboard.js:942 drops a caption whose normal form has a `length` below two. `length` counts UTF-16 units, so a lone emoji passes. The texts "A", "A B", "A B" and "C" leave the single line "A B" (`Transcript.ScenarioShortLinesDropped`).
- frontend/dashboard.js:929 picks `meta.safe_text || meta.raw_text`. A `safe_text` that is only white space is therefore chosen over a usable `raw_text`, and the blank check at frontend/dashboard.js:932 then drops the whole message (`Transcript.Candidate`).

## Model

| member | source | states |
|---|---|---|
| Transcript.NormalizeLine | frontend/dashboard.js:877-882 | the result has no white space at either end and no two consecutive white-space characters, and every white-space character in it is a plain space |
| Transcript.NormalizeLineKeepsText | frontend/dashboard.js:877-882 | normalising changes only spacing and case: with the white space removed, the result is the lower-cased input with its white space removed |
| Transcript.NormalizeLineIdempotent | frontend/dashboard.js:877-882 | normalising a normalised line changes nothing |
| Transcript.NormalizeLineKeepsWords | frontend/dashboard.js:877-882 | the words (maximal runs of non-white-space characters) of the result are the lower-cased words of the input, and the result is exactly those words joined by single spaces |
| Transcript.Candidate | frontend/dashboard.js:921-935 | a string is taken as is; an object gives `safe_text` if truthy, else `raw_text` if truthy; nothing is taken when that choice is blank or absent, or when the argument is falsy or of another type |
| Transcript.Decide | frontend/dashboard.js:939-994 | any entry written carries the chosen text, its normal form (with a `length` of at least two UTF-16 units) and the clock reading |
| Transcript.IgnoresBlankAndShort | frontend/dashboard.js:921-942 | with no chosen text, or a normal form whose `length` is below two UTF-16 units, the history is unchanged |
| Transcript.SingleAstralCharIsLongEnough | frontend/dashboard.js:942 | a single character outside the Basic Multilingual Plane, such as an emoji, normalises to a `length` of two units, enough to pass the minimum |
| Chars.JsLengthOfBmp | frontend/dashboard.js:942 | on text inside the Basic Multilingual Plane, `length` equals the number of characters |
| Transcript.IgnoresRecentDuplicate | frontend/dashboard.js:952-957 | a text whose normal form equals that of one of the last three entries leaves the history unchanged |
| Transcript.EqualsLastUnreachable | frontend/dashboard.js:953-986 | the last entry is always within the three-entry window, so the later "equals last" test can never fire |
| Transcript.LongerRefinementOverwrites | frontend/dashboard.js:959-975 | a refinement longer in UTF-16 units (either normal form contains the other) arriving within 1000 ms replaces the last entry's text, normal form and time stamp, and the length is unchanged |
| Transcript.ShorterRefinementDropped | frontend/dashboard.js:965-979 | a refinement within 1000 ms that is not longer than the last entry leaves the history unchanged |
| Transcript.OtherwiseAppends | frontend/dashboard.js:953-994 | in every other case exactly one entry is appended after the untouched earlier entries, with no cap on the length |
| Transcript.RepeatedPushIgnored | frontend/dashboard.js:953-994 | once an input has changed the history, pushing the same input again at any time changes nothing |
| Transcript.ReconcileKeepsWellFormed | frontend/dashboard.js:939-994 | every history entry keeps holding the normal form of its own text, of at least two UTF-16 units |
| Transcript.ReconcileShape | frontend/dashboard.js:939-994 | one call grows the history by at most one entry and never changes an entry before the last |
| Transcript.ScenarioShortLinesDropped | frontend/dashboard.js:939-994 | "A"@0, "A B"@200, "A B"@5000, "C"@5100 leave the single entry ("A B", "a b", 200) |
| Transcript.Reconciler.AppendTranscript | frontend/dashboard.js:917-997 | the new history is the reconciled old one; it grows by at most one, and all entries but the last are untouched |
| Transcript.Reconciler.CompareWithLast | frontend/dashboard.js:959-994 | the comparison with the last entry leaves the history the comparison step prescribes: a longer refinement overwrites the last entry, a shorter one or an equal line is dropped, anything else is appended |
| BleepText.NextMatch | frontend/dashboard.js:890-894 | the next index at which `삐-` is followed by a non-white-space character, with no such index skipped |
| BleepText.RunEnd | frontend/dashboard.js:890 | the greedy `[^\s]+` run ends at white space or at the end of the text |
| BleepText.SplitBleepsCorrect | frontend/dashboard.js:884-913 | the segments concatenate back to the text; every emphasised segment is `삐-` plus one or more non-white-space characters, extended maximally; plain segments are non-empty, each is followed by an emphasised one or ends the text, and no match starts at any of their characters, reading on into the next segment |
| BleepText.SplitIsUnique | frontend/dashboard.js:884-913 | any segments of that shape that join to the text are exactly the rendered ones, so the leftmost-match loop is pinned down |
| BleepText.WellSplitUnique | frontend/dashboard.js:890-909 | two well-shaped splits of the same text are the same split |
| Framing.CutFrames | frontend/dashboard.js:1213-1224 | every frame holds exactly 320 samples, the frames concatenate to the consumed prefix, and fewer than 320 samples are left over |
| Framing.ClientFramer.OnMessage | frontend/dashboard.js:1201-1224 | with the socket closed nothing is sent and the carry is unchanged; otherwise the frames sent followed by the new carry equal the old carry followed by the block, and every frame holds exactly 320 samples |
| ReportHistory.WithoutId | frontend/dashboard.js:574-576 | the filter keeps exactly the entries with a different id, each taken from the history |
| ReportHistory.AppendReportHistory | frontend/dashboard.js:574-580 | 1 to 5 entries, the new report first, no other entry with its id, and as many of the others as fit |
| ReportHistory.OlderReportsKeepOrder | frontend/dashboard.js:576-577 | the entries after the first are a subsequence of the old history |
| ReportHistory.KeptUnlessReplacedOrFull | frontend/dashboard.js:574-577 | an entry with another id survives while the history holds fewer than five entries |
| ReportHistory.SurvivorPlacement | frontend/dashboard.js:574-577 | an older report with another id, preceded by c surviving older reports, is kept, at position 1 + c, exactly when c is below four, so the four newest survivors of the filter are kept |
| ReportHistory.WithoutIdAppend | frontend/dashboard.js:576 | filtering a concatenation is concatenating the filtered parts |
| ReportHistory.ReAddingNewestIsStable | frontend/dashboard.js:574-577 | adding the same report twice gives what adding it once gives |
| DateFormat.Pad2 | frontend/dashboard.js:191-192 | `padStart(2, "0")`: at least two digits, one leading zero added exactly below ten |
| DateFormat.FormatDate | frontend/dashboard.js:189-194 | the string ends in `-MM-DD` with two-digit month and day fields |
| DateFormat.FormatDateRoundTrip | frontend/dashboard.js:189-194 | reading the string back gives the year, the one-based month and the day |
| Duration.FormatReportDuration | frontend/dashboard.js:701-711 | for a count of at least an hour that is not whole hours the label is "H시간 M분" with H = minutes / 60 and M = minutes % 60; whole hours give "H시간"; under an hour gives "M분" |
| Duration.ReportDurationRoundTrip | frontend/dashboard.js:701-711 | reading the report duration string back gives the minutes |
| Duration.DiffMinutes | frontend/report.js:211-214 | the minute count is at least 1; the fallback is used only when the rounded difference is 0 |
| Duration.RoundMinutes | frontend/report.js:213 | `Math.round(ms / 60000)` lies within half a minute of the difference |
| Duration.SplitIsExact | frontend/report.js:215-216 | hours * 60 + minutes is the total, with 0 <= minutes < 60 |
| Duration.FormatDuration | frontend/report.js:210-224 | with d the minute count, the label is "H시간 M분" (H = d / 60, M = d % 60) when d is at least an hour and not whole hours, "H시간" for whole hours, and "M분" under an hour |
| Duration.FormatDurationRoundTrip | frontend/report.js:210-224 | reading the duration string back gives the minute count |
| Duration.FormatDurationHasNoZeroParts | frontend/report.js:210-224 | the string never starts with a zero and no part after a space is zero, so neither "0분" nor "0시간" appears |
| Carousel.NextIndex | frontend/dashboard.js:804-809 | moves forward by one unless on the last slide, and stays within the slides |
| Carousel.PrevIndex | frontend/dashboard.js:811-816 | moves back by one unless on the first slide, and never goes below zero |
| Carousel.NextThenPrev | frontend/dashboard.js:804-816 | going forward then back returns to a slide that is not the last |
| Carousel.PrevThenNext | frontend/dashboard.js:804-816 | going back then forward returns to a slide that is not the first |
| Carousel.ForwardStopsAtLast | frontend/dashboard.js:804-809 | n forward steps reach current + n, or stop at the last slide |
| Carousel.Carousel.NextSlide | frontend/dashboard.js:804-809 | the index becomes the next index, and stays within the slides |
| Carousel.Carousel.PrevSlide | frontend/dashboard.js:811-816 | the index becomes the previous index, and stays within the slides |
| Player.StartSamples | frontend/pcm-player-worklet.js:12 | `Math.floor(sampleRate * 1.5)` |
| Player.PcmPlayer.OnMessage | frontend/pcm-player-worklet.js:14-20 | a non-empty chunk is appended and the count grows by its length; an empty or missing one changes nothing; the count stays the total length of the queue |
| Player.PcmPlayer.Process | frontend/pcm-player-worklet.js:23-57 | `started` becomes set exactly when it was set or the prebuffer is full, and is never cleared. Before start the output is silent and the queue untouched. Once started the output is the first min(length, queued) queued samples then zeros, the queue loses exactly that prefix, and the count drops by as much |
| Player.PcmPlayer.TakeFromHead | frontend/pcm-player-worklet.js:40-52 | as many samples of the head chunk as fit are written at the cursor, the earlier output is kept, the queue loses exactly those samples and the count drops by as many |
| Chunker.TakeCount | backend-fastapi/app/audio/buffer.py:33-37 | the loop takes frames until their total reaches the target, and no frame after that |
| Chunker.TakenReachesTarget | backend-fastapi/app/audio/buffer.py:26-37 | when the queue holds at least the target, the frames taken reach it |
| Chunker.AudioChunker.Push | backend-fastapi/app/audio/buffer.py:21-23 | the frame is appended and its ms added; the total stays the sum over the queue |
| Chunker.AudioChunker.PopChunkIfReady | backend-fastapi/app/audio/buffer.py:25-40 | below the target nothing changes and None is returned; otherwise a prefix of whole frames is removed and returned as its joined data and its ms, the total drops by exactly that, and used ms >= chunk ms |
| Ring.EvictCount | backend-fastapi/app/audio/ring.py:19-21 | eviction stops at the first suffix within the limit |
| Ring.RingBuffer.Push | backend-fastapi/app/audio/ring.py:16-21 | the queue becomes the suffix of old queue + new entry that eviction leaves; the total stays the sum and, for a non-negative limit, is within it; the dump is a suffix of the old dump followed by the new data |
| Ring.RingBuffer.Dump | backend-fastapi/app/audio/ring.py:23-24 | the joined data of the queue, empty for an empty queue; reading it changes nothing |
| Ring.OversizedEntryEmpties | backend-fastapi/app/audio/ring.py:16-21 | with non-negative durations, an entry longer than the limit on its own evicts everything, itself included |
| Align.BuildTextAndWordCharRanges | backend-fastapi/app/detect/align.py:18-37 | the text is the words joined by single spaces; one range per word, each slicing to its word; each next range starts one past the previous end, at a space |
| Align.BuiltRangesOrdered | backend-fastapi/app/detect/align.py:25-37 | the ranges built are ordered |
| Align.WordSpanOf | backend-fastapi/app/detect/align.py:46-53 | None exactly when no range overlaps the span; otherwise the least and greatest overlapping indices, with start <= end |
| Align.CharspanToWordspan | backend-fastapi/app/detect/align.py:40-53 | the hit loop returns what the first-and-last-overlap definition gives |
| Align.HitsAreContiguous | backend-fastapi/app/detect/align.py:28-53 | for ordered ranges, every index between the first and last hit also overlaps the span |
| Meeting.MergeRegions | backend-fastapi/app/ws/meeting_ws.py:24-36 | empty exactly for empty input; never longer than the input; sorted by start with each next start more than the gap after the previous end; every input region lies within an output region; every output start and end comes from the input; every point of an output region, up to `gap` past its end, is within `gap` after an input region that the output region covers, so regions further apart than `gap` are never merged |
| Meeting.HoldbackChunks | backend-fastapi/app/ws/meeting_ws.py:50 | K is at least 1 and K chunks span the holdback; None for a zero chunk length |
| Meeting.HoldbackIsFewestChunks | backend-fastapi/app/ws/meeting_ws.py:50 | no smaller positive number of chunks spans the holdback |
| Meeting.DefaultHoldback | backend-fastapi/app/ws/meeting_ws.py:46-50 | the default settings (2000 ms holdback, 1000 ms chunks) give K = 2 |
| Meeting.EmitQueue.Offer | backend-fastapi/app/ws/meeting_ws.py:76-99 | nothing comes out until more than K chunks are held; what comes out is the oldest chunk, in offering order |
| Meeting.MergeKeepsExtremes | backend-fastapi/app/ws/meeting_ws.py:189-194 | merging keeps the earliest start and the latest end |
| Meeting.CarryEnd | backend-fastapi/app/ws/meeting_ws.py:182-183 | the carried-in bleep is clipped to the chunk |
| Meeting.BleepHold.Warmup | backend-fastapi/app/ws/meeting_ws.py:109-123 | the warm-up path only advances the sample count |
| Meeting.BleepHold.Step | backend-fastapi/app/ws/meeting_ws.py:163-194 | the hold index never decreases and is raised exactly to the new hold end when that is later; at most one region results, present exactly when something was found or a hold carries in; it covers every found region and the carried-in span, and starts at a found start or at 0; it is exactly the span from the earliest start to the latest end of the found regions and the carried-in span |
| Meeting.BleepHold.ExtendHold | backend-fastapi/app/ws/meeting_ws.py:168-179 | the sample count is untouched, and the hold becomes the end of the latest found region plus the 200 ms tail when that is later than the current hold |
| Meeting.CollapseWithCarry | backend-fastapi/app/ws/meeting_ws.py:181-194 | at most one region, present exactly when something was found or a carry exists; it covers every found region and the carry, starts at a found start or at the carry's start, and is exactly the span from the earliest start to the latest end of the found regions and the carry |
| Meeting.Span | backend-fastapi/app/ws/meeting_ws.py:190-194 | at most one region, none for no regions; it covers every region, and its start and end are a start and an end of the regions |
| Meeting.MergedPlusExtra | backend-fastapi/app/ws/meeting_ws.py:182-189 | adding the carried-in span to both the regions and their merge keeps the merge covering and sourced |
| Rules.NormalizeKoreanText | backend-fastapi/app/detect/rules.py:27-39 | the loop keeps the characters that are neither white space nor listed punctuation, in order, and upper-cases them |
| Rules.PunctuationRanges | backend-fastapi/app/detect/rules.py:36 | the listed punctuation is exactly the ASCII punctuation characters |
| Rules.NormalizedIsClean | backend-fastapi/app/detect/rules.py:27-39 | the normal form holds no white space, no listed punctuation and no lower-case ASCII letter |
| Rules.NormalizedIdempotent | backend-fastapi/app/detect/rules.py:27-39 | normalising twice is normalising once |
| Rules.Find | backend-fastapi/app/detect/rules.py:133 | `str.find`: the first occurrence at or after the start, or -1 when there is none |
| Rules.ExactFindings | backend-fastapi/app/detect/rules.py:127-137 | every finding is a 0.95 banned-word finding that slices to a checked word; every occurrence, overlapping ones included, of every word not skipped (ASCII and at most 3 long) is found |
| Rules.FuzzyCandidates | backend-fastapi/app/detect/rules.py:60-85 | the candidates are the window findings of every banned word, every window length in range and every window start, in the order the three loops append them |
| Rules.WordCandidates | backend-fastapi/app/detect/rules.py:62-85 | the findings of one banned word are appended, over its window lengths in increasing order |
| Rules.ScanWindows | backend-fastapi/app/detect/rules.py:70-85 | the findings of one window length are appended, window start by window start |
| Rules.WindowHitsSound | backend-fastapi/app/detect/rules.py:70-85 | every finding of one window length is that window scored against the word, non-empty after normalising and at or above the threshold |
| Rules.WindowHitsComplete | backend-fastapi/app/detect/rules.py:70-85 | every window of that length that normalises to something non-empty and scores at or above the threshold is found, with confidence min(0.99, score/100) |
| Rules.LengthHitsSound | backend-fastapi/app/detect/rules.py:66-85 | every finding over a range of window lengths has a length in that range and is a scoring window |
| Rules.LengthHitsComplete | backend-fastapi/app/detect/rules.py:66-85 | every scoring window whose length is in the range is found |
| Rules.WordsHitsSound | backend-fastapi/app/detect/rules.py:60-85 | every collected finding is a fuzzy candidate: a window of a length in [max(1, L-2), L+2] for some word, non-empty after normalising, scoring at least the threshold, with confidence min(0.99, score/100) |
| Rules.WordsHitsComplete | backend-fastapi/app/detect/rules.py:60-85 | every window of a tried length that normalises to something non-empty and scores at least the threshold against some word is collected, with its confidence |
| Rules.MergeOverlapping | backend-fastapi/app/detect/rules.py:90-106 | starts never decrease and each next start is after the previous end; every result is one of the candidates; never longer than the input and non-empty for non-empty input; a candidate that is not kept has another candidate whose closed span meets its own and which outranks or ties it on (confidence, length) |
| Rules.FindFuzzyBannedSpans | backend-fastapi/app/detect/rules.py:42-106 | the merged fuzzy findings are disjoint candidates within the text; every window that scores is reported or loses to a touching candidate that outranks or ties it; something is reported exactly when some window scores |
| Rules.FuzzyOutcome | backend-fastapi/app/detect/rules.py:60-106 | what the collection, the sort and the overlap pass give together: every scoring window is kept or outdone by a touching candidate, and the result is empty exactly when no window scores |
| Rules.Detect | backend-fastapi/app/detect/rules.py:109-146 | the pattern findings come first; every exact occurrence is found; the fuzzy search adds findings only when no banned-word finding exists; then the added findings are disjoint fuzzy candidates, every window scoring at least 92 is added or loses to a touching candidate, and something is added exactly when some window scores at least 92 |
| Rules.FuzzyOnlyWithoutExact | backend-fastapi/app/detect/rules.py:141-144 | a fuzzy finding added by the search never sits beside an exact banned-word finding |
| Redact.Silence | backend-fastapi/app/audio/redact.py:5-6 | zero bytes, as many as the input |
| Redact.WindowStart | backend-fastapi/app/audio/redact.py:31 | the clamped window start is never negative |
| Redact.WindowEnd | backend-fastapi/app/audio/redact.py:32 | the clamped window end is never past the block |
| Redact.BleepRegions | backend-fastapi/app/audio/redact.py:17-41 | same length; no regions gives the input back; each sample in some clamped window becomes the tone at its absolute index, and every other sample is kept; equal to painting the windows one after another |
| Redact.PaintIsBleeped | backend-fastapi/app/audio/redact.py:30-39 | overwriting the windows in order gives, sample by sample, the tone inside some window and the input elsewhere |
| Redact.OutsideWindowsUnchanged | backend-fastapi/app/audio/redact.py:30-39 | a sample outside every clamped window is unchanged |
| Redact.EmptyWindowIgnored | backend-fastapi/app/audio/redact.py:33-34 | a region whose clamped window is empty can be dropped without changing the result |
| Email.IsValidEmail | frontend/script.js:72-75 | true exactly when the address matches `^[^\s@]+@[^\s@]+\.[^\s@]+$`, read as a concatenation of its parts |
| Email.ValidEmailIff | frontend/script.js:73 | valid exactly when there is no white space, exactly one `@` with something before it, and a `.` in the part after it that is neither that part's first nor its last character |
| Email.ValidHasOneAt | frontend/script.js:73 | a valid address has exactly one `@` |
| Email.ValidHasNoSpace | frontend/script.js:73 | a valid address has no white space |
| Email.SubmitCheck | frontend/script.js:21-33 | an empty trimmed e-mail or an empty password is reported as missing before the pattern is checked; otherwise the address is accepted exactly when it is valid |
| Email.AcceptedIsWellShaped | frontend/script.js:21-33 | an accepted trimmed address has no white space and exactly one `@` |

## Left out

- The socket, the microphone, the audio context, DOM rendering, local storage and page navigation: all I/O. The model receives what these would deliver as parameters: the socket state, the clock reading, the message payload.
- Floating-point arithmetic is replaced by exact reals. This affects the region times, `int(t * sample_rate)` (truncation toward zero of the exact product) and `min(0.99, score / 100.0)`.
- The resampling and PCM conversion helpers of the dashboard, and the decoding of PCM16 bytes into samples in `pcm16_bleep_regions`: floating-point numerics. The masking is modelled on the decoded integer samples.
- The sine tone of `pcm16_bleep_regions` is an abstract function of the absolute sample index. `pcm16_bleep_full` is not part of this model.
- Rules.Detect: the regular-expression detectors (resident numbers, e-mail addresses, phone numbers, card numbers and the short Latin banned-word pattern) need a regex engine. Their findings are a parameter, `patternFindings`.
- Rules.FuzzyCandidates: `fuzz.ratio` comes from a foreign library and is an uninterpreted score function.
- Rules.FindFuzzyBannedSpans: the candidate order is stated as "sorted by start" rather than by the full three-part key, which is all the overlap pass relies on.
- Chars.ToLower, Chars.ToUpper: case mapping covers ASCII letters only; Unicode case mapping is not modelled. The two white-space sets (JavaScript `\s` and Python `str.isspace`) are written out.
- The conversion of detector findings into chunk-relative regions (backend-fastapi/app/ws/meeting_ws.py:125-161) depends on the speech recogniser's word timings. The regions found there are the `found` parameter of `Meeting.BleepHold.Step`.
- The speech recogniser (backend-fastapi/app/stt/whisper_stt.py) is not part of this model.
- The settings reader, the application entry point and the processor worklet that forwards microphone blocks are not part of this model.
- Carousel.Carousel.Refresh: refreshing the slide list does not clamp the current index, as in the source, so `InRange` holds again only after the caller resets the index.
- Meeting.HoldbackChunks: a zero chunk length, where Python raises `ZeroDivisionError`, is modelled as None.
- ReportHistory.AppendReportHistory: the reading and writing of local storage around the list update is left out.
