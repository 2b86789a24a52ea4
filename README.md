# Video translator core, modelled in Dafny

This project models the text and timing core of a video-translation pipeline. The pipeline
transcribes a video's speech, translates the transcript, cuts the translation into one piece per
spoken sentence, and builds SubRip subtitles and a dubbed audio track from those pieces.

| Dafny module | file | models |
|---|---|---|
| `Wrappers` | wrappers.dfy | `Option`, `Result` and the exceptions the pipeline raises |
| `Arith` | arith.dfy | small facts about integer division |
| `Text` | text.dfy | the Python string operations the code relies on: `split()`, `split(sep)`, `strip()`, `join`, `replace`, zero-padded integers |
| `SentenceWindows` | sentence_windows.dfy | `extract_sentences`: words to sentence windows, then the gap pass |
| `SentenceMatching` | sentence_matching.dfy | `split_into_matching_sentences` and `combine_sentences` |
| `DisplayFormat` | display_format.dfy | `split_text_advanced` and `format_sentence_for_display` |
| `SrtTime` | srt_time.dfy | `format_time_srt`, and reading a timecode back |
| `ManualSplit` | manual_split.dfy | `manual_split_sentences` |
| `AiSplit` | ai_split.dfy | `ai_split_sentences` once the model has replied: reply parsing, the content check, the shortest-pair merge and every fallback |
| `Subtitles` | subtitle.dfy | the cue loop of `create_subtitles` and the SubRip text it writes |
| `SpeechTiming` | speech_timing.dfy | the timing decisions of `generate_speech` |
| `VideoProcessor` | video_processor.dfy | `format_subtitle_text`, the block rewrite of `format_srt_file`, and the computed (unused) font size |
| `Translate` | translate.dfy | chunking, prompt and answer handling in `translate.py` |
| `Transcribe` | transcribe.dfy | how the transcription job is requested, and how its result is read |

Each loop of the source is a `method` with a `while` or `for` loop. Its postcondition ties the
result to a specification function over the inputs. The properties the code promises are proved
as lemmas about those functions: partitions, counts, what text survives, ordering, timing bounds,
round trips and the error cases. The services are parameters of the model:

- the transcription job's final status;
- the translation service and the language model, as functions from request to answer;
- the language model's reply to the split prompt, as `Option<string>`, where `None` means the call raised;
- the length of each synthesized sentence, as `nat -> Option<real>`, where `None` means synthesis raised.

Exceptions are `Err` values. `Err` is returned exactly where the code raises and the exception
escapes to the caller.

Behaviours of the code worth stating on their own, which the model follows:

- `create_subtitles` times every cue from the original sentence window. It never reads the
  back-to-back timing that `generate_speech` returns. It wraps lines at the default width of 50
  characters, whatever the target language.
- The two-sentence length split takes the first break character of the search window, scanning
  left to right (manual_split.py:92-96, 142-146).
- The Latin-script branch of `manual_split.py` has no content check. Only the `ja`/`zh` period
  split compares the parts with the text.
- `combine_sentences` closes group `k` once `(i + 1) / (n / t) >= k + 1` (sentence_utils.py:117-133),
  so group `k` starts at the least index `b` with `k * n <= b * t`.
- In `generate_speech`, when no sentence yields audio, `use_sequential_timing` is never assigned.
  Reading it at tts.py:372 raises; the model returns `Err(UnboundFlag)`.
- `process_locally` computes a font size, a line spacing and a bottom margin
  (video_processor.py:308-310), but passes none of them to ffmpeg. The SRT-to-ASS conversion
  (:313-318) and the burn-in (:321-335) run without style options, so the subtitles are drawn at
  ffmpeg's default size. The model states the bounds of the computed size only.
- The two-sentence case of `manual_split.py` raises `ZeroDivisionError` in two places: when the
  two windows' total duration is zero, and in the log line at :39 when both original texts are empty.
- `split_into_matching_sentences` with a target of zero raises `ZeroDivisionError` in
  `combine_sentences` when its sentence pass yields at least one non-blank piece. So
  `create_subtitles` fails on a transcript without words whose translation yields at least one
  non-blank piece.

Floating-point numbers are exact `real`s. Python's `int()` on a float is truncation toward zero.
The floating-point test `(i + 1) / (n / t) >= k + 1` of `combine_sentences`
(sentence_utils.py:116, :125) is restated on integers as `(i + 1) * t >= (k + 1) * n`, which is
equivalent in exact arithmetic for `n, t > 0`. Python's whitespace is the set that `str.isspace()` accepts.

## Model

| member | source | states |
|---|---|---|
| SentenceWindows.ExtractSentences | sentence_utils.py:6-53 | the windows are exactly the specified sentence windows after the gap pass |
| SentenceWindows.CollectWindows | sentence_utils.py:16-40 | the accumulation loop yields one window per word group of the sentence rule |
| SentenceWindows.ExtendIntoGaps | sentence_utils.py:42-50 | the gap loop moves each end but the last by the gap rule, toward the original next start |
| SentenceWindows.GroupShape | sentence_utils.py:19-35 | while the words are read, the closed groups plus the pending group are the words read so far; every closed group ends at its first terminal word; the pending group has no terminal word |
| SentenceWindows.GroupsShape | sentence_utils.py:19-40 | the groups concatenate to the input words; each group is non-empty; only its last word may end a sentence; every group but the last does end one |
| SentenceWindows.ExtractPartitions | sentence_utils.py:16-40 | the windows' words concatenate to the input; every window has a word; no words gives no windows and some words give some windows |
| SentenceWindows.ExtractClosesAtTerminals | sentence_utils.py:26-35 | a window closes exactly at a word ending in `. ! ? 。 ！ ？`: every window but the last ends at one, and no earlier word of a window is one |
| SentenceWindows.ExtractTiming | sentence_utils.py:24-50 | a window starts at its first word's start; it ends at its last word's end, moved by the gap rule toward the next window's start; the last window is not moved |
| SentenceWindows.GapFillBounds | sentence_utils.py:45-50 | an end only moves forward; it moves exactly when the gap exceeds 0.2 s, and then to the next start minus 20 % of the gap, still strictly before that start |
| SentenceWindows.ExtractMonotone | sentence_utils.py:42-50 | for words in time order, each window ends no later than the next one starts, after the gap pass |
| SentenceMatching.Mark | sentence_utils.py:67-68 | the `replace` loop puts a vertical bar, the cut mark, after every sentence mark |
| SentenceMatching.SplitClauses | sentence_utils.py:81-86 | the clause loop appends each sentence's stripped, non-empty clause pieces in order |
| SentenceMatching.SplitIntoMatchingSentences | sentence_utils.py:55-103 | computes the specified split, including the division-by-zero error |
| SentenceMatching.CombineSentences | sentence_utils.py:105-136 | the grouping loop computes the specified combination |
| SentenceMatching.BoundSpec | sentence_utils.py:117-129 | group `k` starts at the sentence with index `ceil(k * n / t)`, the least `b` with `k * n <= b * t` |
| SentenceMatching.RunSize | sentence_utils.py:117-129 | each group holds at least one sentence, and `n / t` sentences rounded down or up |
| SentenceMatching.CombineRuns | sentence_utils.py:105-136 | combining gives exactly `t` sentences made from `t` non-empty runs of consecutive inputs; the runs concatenate to the input, and each holds `n / t` sentences rounded down or up |
| SentenceMatching.CombineKeepsText | sentence_utils.py:123-133 | the combined sentences hold exactly the input's non-blank characters in order; stripped non-empty inputs give stripped non-empty outputs |
| SentenceMatching.PiecesKeepText | sentence_utils.py:67-70 | the first pass keeps every non-blank character except the vertical-bar cut marks |
| SentenceMatching.SplitEachKeepsText | sentence_utils.py:81-86 | the clause pass keeps every non-blank character of sentences free of vertical bars |
| SentenceMatching.MatchCount | sentence_utils.py:72-103 | the split raises exactly for target 0 with a non-empty first pass; it returns the target count whenever the first pass or the clause pass reaches it; otherwise it returns the first pass unchanged |
| SentenceMatching.MatchKeepsText | sentence_utils.py:55-103 | on every route the sentences are stripped and non-empty, and together hold exactly the text's non-blank characters, vertical bars aside |
| DisplayFormat.FormatSentenceForDisplay | sentence_utils.py:145-197 | computes the specified display lines |
| DisplayFormat.WrapTokens | sentence_utils.py:179-197 | the wrap loop computes the specified greedy wrap |
| DisplayFormat.MaxLineLengthTable | sentence_utils.py:160-169 | the width is 50 for en, 15 for ja, 30 for zh and ko, 40 for any other code, and the caller's value when no language is given |
| DisplayFormat.DisplayShort | sentence_utils.py:171-173 | a sentence within the width is its own single line |
| DisplayFormat.DisplayLong | sentence_utils.py:175-197 | a longer sentence becomes the space-joined greedy groups of its tokens; the groups partition the tokens, are non-empty and fit, and a line is closed only when the next token would overflow it |
| DisplayFormat.DisplayKeepsWords | sentence_utils.py:175-197 | outside Japanese, the lines' words in order are the sentence's words, and a line of two or more words is within the width |
| DisplayFormat.GreedyPartition | sentence_utils.py:182-191 | the greedy groups and the pending group partition the tokens; every closed group and, after a token, the pending group are non-empty |
| DisplayFormat.GreedyFits | sentence_utils.py:184-191 | every group of two or more tokens fits within the width |
| DisplayFormat.GreedyMaximal | sentence_utils.py:184-186 | a group is closed only when adding the next token would exceed the width |
| DisplayFormat.WrapGroupsShape | sentence_utils.py:179-195 | the line groups partition the tokens into non-empty runs that fit, and each closed run is maximal |
| DisplayFormat.WrapIsGreedy | sentence_utils.py:179-197 | on non-empty tokens, the lines are the space-joined greedy groups and none is empty |
| DisplayFormat.CutAfterMarksShape | sentence_utils.py:141-142 | the lookbehind split glues back to the input; every piece but the last ends with its only mark in `、。！？`, and the last piece holds none |
| DisplayFormat.SplitTextAdvancedKeepsText | sentence_utils.py:139-143 | the pieces are non-empty and stripped, and hold exactly the paragraph's non-blank characters |
| SrtTime.FieldsExact | sentence_utils.py:209-212 | minutes and seconds are below 60 and milliseconds below 1000; together the fields are the instant truncated to whole milliseconds |
| SrtTime.TimecodeLayout | sentence_utils.py:214 | the `HH:MM:SS,mmm` layout can be read back field by field |
| SrtTime.RenderRoundTrip | sentence_utils.py:214 | a timecode with fields in range is rendered zero-padded and reads back as the same instant |
| SrtTime.FormatTimeSrtRoundTrip | sentence_utils.py:199-214 | the text for a non-negative instant is a well-formed timecode that reads back as the instant floored to milliseconds |
| ManualSplit.ManualSplitSentences | manual_split.py:8-174 | computes the specified split, including its division-by-zero errors |
| ManualSplit.ManualSplitCount | manual_split.py:22-174 | any returned list has one piece per original sentence; only the two-sentence case can raise; one sentence gets the whole text |
| ManualSplit.ManualSplitTwo | manual_split.py:26-152 | two sentences raise division by zero exactly when the durations sum to zero or both original texts are empty; otherwise every route returns two strings |
| ManualSplit.ManualSplitMany | manual_split.py:154-174 | any other count gets the proportional slicing, one piece per sentence, without error |
| ManualSplit.SliceProportionally | manual_split.py:157-172 | the slicing loop computes the specified pieces |
| ManualSplit.CutOrdered | manual_split.py:167-171 | the cut offsets rise from 0 to the text's length |
| ManualSplit.ProportionalKeepsText | manual_split.py:157-172 | there are `n` pieces, piece `i` is the stripped slice between the `i`-th and next cut (the last runs to the end), and together they keep every non-blank character |
| ManualSplit.SplitInTwo | manual_split.py:42-152 | the two-sentence routes compute the specified pair |
| ManualSplit.PeriodSplitSound | manual_split.py:44-81 | an accepted period split is a pair that keeps the text's non-blank characters; its first part ends with `。`, and so does its second unless it is empty |
| ManualSplit.PeriodSplitEndsText | manual_split.py:44-81 | a period split is accepted only when the text's last non-blank character is `。` |
| ManualSplit.ScanForBreak | manual_split.py:92-96 | the scan returns the first break character's index in the search window, or none |
| ManualSplit.LengthSplit | manual_split.py:85-102 | the length split computes the specified cut pair |
| ManualSplit.LengthSplitKeepsText | manual_split.py:85-102 | the cut follows the first break character in the window (after it for ja/zh, at it otherwise), or is the raw offset when the window has none; the two stripped halves keep every non-blank character |
| ManualSplit.CutAtKeepsText | manual_split.py:98-99 | cutting in two and stripping both halves keeps every non-blank character |
| ManualSplit.CollectLatinParts | manual_split.py:108-118 | the accumulation loop computes the specified parts |
| ManualSplit.TryLatinSeparators | manual_split.py:106-132 | the separator loop computes the specified choice |
| ManualSplit.LatinSplitPair | manual_split.py:106-132 | when the Latin branch decides, it returns exactly two strings |
| ManualSplit.LatinStateKeepsText | manual_split.py:108-118 | with no blank piece between separators, the parts keep the text's non-blank characters, each separator's mark on the part before it |
| ManualSplit.LatinSplitDropsMark | manual_split.py:110-115 | a blank piece between two separators loses a mark: `"Hi. . Go"` gives `["Hi.", "Go"]`, which no longer holds the text's characters |
| AiSplit.AiSplitSentences | ai_split.py:9-164 | computes the specified result for a given reply, with every fallback |
| AiSplit.ParseReplyLines | ai_split.py:97-113 | the parsing loop computes the specified sentences |
| AiSplit.ParseReplyStripped | ai_split.py:97-113 | every parsed sentence is stripped |
| AiSplit.ParseFormattedReply | ai_split.py:55-59 | a reply in the requested `句子k: …` format, one stripped single-line sentence per line, parses back to exactly those sentences |
| AiSplit.ShortestPair | ai_split.py:140-146 | the chosen pair has the least combined length, and is the leftmost such pair |
| AiSplit.FindShortestPair | ai_split.py:140-146 | the search loop returns that pair |
| AiSplit.MergeShortestPairs | ai_split.py:136-153 | the merge loop computes the specified merges |
| AiSplit.MergeAtKeepsText | ai_split.py:149-150 | joining one pair with a space keeps every non-blank character in order |
| AiSplit.MergeDownShape | ai_split.py:136-153 | merging ends with exactly the target count and keeps every non-blank character |
| AiSplit.AiSplitCount | ai_split.py:116-158 | any returned list has one sentence per original sentence |
| AiSplit.AiSplitKeepsText | ai_split.py:116-153 | a reply that passes the content check, with as many sentences as the originals or more (and at least one original), is used, and the result keeps the translation's non-blank characters |
| AiSplit.AiSplitFallback | ai_split.py:23-164 | no reply, a reply that fails the content check, too few sentences, or sentences for no original all give the manual split's result |
| Subtitles.CreateSubtitleText | subtitle.py:26-106 | the cue loop computes the specified SubRip text, or the splitter's error |
| Subtitles.EmitSegment | subtitle.py:60-106 | one sentence's text is its cues' text, and the cue number advances by its cue count |
| Subtitles.EmitParts | subtitle.py:70-100 | the part loop emits `ceil(n / 2)` cues and advances the number by that much |
| Subtitles.MakePart | subtitle.py:78-94 | one pass of the part loop builds the specified part cue |
| Subtitles.SrtAppend | subtitle.py:97-105 | the SubRip text of two cue runs is their texts one after the other |
| Subtitles.CueIndices | subtitle.py:57-106 | cue numbers start at 1 and rise by one per cue across all sentences |
| Subtitles.CueLines | subtitle.py:60-106 | the cues of the first `k` pairs carry exactly those pairs' wrapped lines, in order |
| Subtitles.CuesShape | subtitle.py:56-106 | the cues are numbered 1, 2, … and show, in order, the wrapped lines of the first `min(len(sentences), len(windows))` sentences and nothing else |
| Subtitles.PartLinesSize | subtitle.py:78-81 | every part holds two lines, except possibly a last part of one |
| Subtitles.PartsLines | subtitle.py:78-81 | the first `k` parts carry the first `2k` wrapped lines, in order |
| Subtitles.PartCuesShape | subtitle.py:70-100 | a long sentence gets `ceil(n / 2)` consecutively numbered cues of one or two lines, all but the last of two, carrying all its lines in order |
| Subtitles.SegmentShort | subtitle.py:101-106 | a sentence of at most two lines is one cue spanning exactly its window |
| Subtitles.OffsetIsProduct | subtitle.py:90 | the part start offset is `k * base_duration` |
| Subtitles.BaseMultiple | subtitle.py:75-90 | in a window that does not run backwards, `j * base_duration` lies in the window for `j <= parts` |
| Subtitles.PartTiming | subtitle.py:75-94 | part `k` starts `k` base durations into the window and never ends after the window; in a forward window it lies inside the window, and a part that is not last ends where the next starts |
| Subtitles.SegmentTiming | subtitle.py:65-106 | in a forward window every cue of a sentence lies inside it, and consecutive cues meet |
| Subtitles.CreateSubtitlesFails | subtitle.py:31-35 | subtitle creation raises exactly when there are no words but the translation has sentences, and then with division by zero |
| SpeechTiming.PollyLanguageTable | tts.py:34-48 | the nine-entry voice language table, the default target `en`, and the caller's code for other languages |
| SpeechTiming.MaxEndIsMax | tts.py:98 | the track length is an end time of some word, and no word ends later |
| SpeechTiming.OriginalDurationSpec | tts.py:97-107 | a ValueError is raised exactly when no word ends after time zero; otherwise the length is the latest end, and positive |
| SpeechTiming.SplitForSpeech | tts.py:126-151 | the fallback chain of splitters computes the specified sentences |
| SpeechTiming.SpeechSentencesOk | tts.py:126-151 | with at least one window, the chain never raises |
| SpeechTiming.CollectSegments | tts.py:224-275 | the synthesis loop computes the specified survivors |
| SpeechTiming.SurvivorsSound | tts.py:224-275 | every survivor comes from a kept pair, with that pair's window, audio length and text, in pair order |
| SpeechTiming.SurvivorsComplete | tts.py:224-275 | every pair with a non-blank sentence and positive audio has a survivor |
| SpeechTiming.SortByStartSpec | tts.py:278 | the stable sort by start is a permutation, ordered by start, with equal starts kept in pair order |
| SpeechTiming.DetectOverlap | tts.py:297-327 | the flag is set exactly when some neighbours clash (`start + duration - 2 > next start`); the track is then rescheduled |
| SpeechTiming.Reschedule | tts.py:307-320 | the rescheduling loop computes the back-to-back schedule |
| SpeechTiming.ScheduleShape | tts.py:307-320 | the schedule starts at 0; each segment lasts its audio length; the next starts 0.1 s after it ends |
| SpeechTiming.ScheduleDisjoint | tts.py:307-320 | with audio of positive length, every span is positive and ends at least 0.1 s before any later span starts |
| SpeechTiming.ScheduleByDurations | tts.py:307-320 | the schedule depends only on the audio lengths |
| SpeechTiming.BuildAudioTiming | tts.py:372-385 | the record loop computes the specified `audio_timing` entries |
| SpeechTiming.AudioTimingSpec | tts.py:372-385 | `audio_timing` is None without rescheduling; otherwise it has one record per segment, with the pair's index, the original span and the back-to-back span, both as long as the audio, in time order |
| SpeechTiming.MixDelays | tts.py:335-343 | the mixing loop computes the specified delays |
| SpeechTiming.DelayFloor | tts.py:340-343 | a delay is the start floored to whole milliseconds |
| SpeechTiming.SequentialStartNonNegative | tts.py:314-320 | a back-to-back start is never negative |
| SpeechTiming.SequentialDelaysOrdered | tts.py:339-340 | back-to-back delays are non-negative and never decrease |
| SpeechTiming.PlanSpeech | tts.py:224-385 | synthesis, sorting, overlap detection, `audio_timing` and delays compute the specified plan |
| SpeechTiming.PlanOutcome | tts.py:277-385 | the plan fails, with the unbound flag, exactly when nothing survives; otherwise the segments are sorted and have audio, timing is kept exactly when they overlap, and every segment gets a delay |
| SpeechTiming.GenerateSpeechPlan | tts.py:28-385 | the checks and steps of `generate_speech` compute the specified plan |
| SpeechTiming.GenerateSpeechOutcome | tts.py:97-385 | the only errors are the invalid duration, exactly when no word ends after zero, and the unbound flag, exactly when nothing survives; a plan's segments are sorted and have audio, timing is kept exactly on overlap, and there is one delay per segment |
| VideoProcessor.FormatSubtitle | video_processor.py:426-461 | the loop computes the specified subtitle text |
| VideoProcessor.FormatSubtitleTextSpec | video_processor.py:437-461 | short text is unchanged; longer text is its greedy lines joined by newlines; splitting on newlines gives the lines back; the lines keep the words in order; a line of two or more words fits; an overlong line is a single word |
| VideoProcessor.FormatSrtContent | video_processor.py:386-417 | the block loop computes the specified file content |
| VideoProcessor.FormatBlockSpec | video_processor.py:394-413 | a block is kept exactly when it has three lines or more; it keeps its first four lines, and a block of three or four lines is unchanged |
| VideoProcessor.FormatBlockIdempotent | video_processor.py:394-413 | rewriting a rewritten block changes nothing |
| VideoProcessor.FormattedBlocksSpec | video_processor.py:391-417 | at most one block per input block survives, every kept block is already clean, and blocks of three or four lines pass unchanged |
| VideoProcessor.FontSizeBounds | video_processor.py:308 | the font size is between 16 and 24, and is `h // 25` for heights 400 to 624 |
| Translate.ChunksPartition | translate.py:73-74 | the chunks concatenate to the text; each is non-empty and at most the chunk size; all but the last are full; there are `ceil(len / size)` of them |
| Translate.ChunkAt | translate.py:74 | chunk `i` is the slice `text[i*size : i*size + size]` clipped to the text |
| Translate.TranslateChunks | translate.py:76-84 | the loop appends one answer per chunk, in chunk order |
| Translate.TranslateWithAmazonTranslate | translate.py:58-87 | computes the specified translation from 9000-character chunks |
| Translate.TranslateWithBedrock | translate.py:89-150 | computes the specified translation from 4000-character chunks |
| Translate.TranslateText | translate.py:9-56 | Bedrock is used exactly when a client is given; the transcript, words and both codes pass through |
| Translate.TranslateContent | translate.py:153-166 | the legacy entry swaps the argument order back and uses Bedrock only when asked and the client can be made |
| Translate.EmptyTranslation | translate.py:73-87 | an empty transcript translates to the empty string with no service call |
| Translate.SingleChunk | translate.py:73-87 | a text that fits one chunk gets the service's answer for the whole text, unjoined |
| Translate.JoinedInChunkOrder | translate.py:86-87 | answers are joined with single spaces in chunk order: with space-free answers, splitting on spaces gives one answer per chunk |
| Translate.LanguageNameDefault | translate.py:103-116 | every table code has its own name; only `en` and unknown codes read as English |
| Translate.PromptShape | translate.py:127 | the prompt starts with `Human: ` and ends with the chunk followed by the `Assistant:` turn |
| Translate.CleanCompletionStripped | translate.py:141-145 | a cleaned answer is stripped; without the prefix it is only stripped |
| Translate.CleanCompletionPrefix | translate.py:143-145 | an answer written after `Assistant: ` comes back as it is |
| Translate.CleanCompletionOnce | translate.py:143-145 | the prefix is removed once only |
| Transcribe.RequestForSpec | transcribe.py:28-51 | language identification is requested exactly when the code is missing, empty or `auto` in any letter case; otherwise the job uses the given code |
| Transcribe.LowerIsAuto | transcribe.py:28 | a string lower-cases to `auto` exactly when it spells `auto` in any mix of cases |
| Transcribe.CollectWords | transcribe.py:91-99 | the item loop computes the specified words or error |
| Transcribe.ExtractWordsSpec | transcribe.py:91-99 | the loop succeeds exactly when every pronunciation item has an alternative; it then yields one word per pronunciation item in order, with absent times read as 0 |
| Transcribe.TranscribeVideo | transcribe.py:65-108 | computes the specified transcription from the final job status |
| Transcribe.TranscribeResultSpec | transcribe.py:65-108 | a failed job or a result without transcripts raises; otherwise the first transcript, the result's language (or the requested code when it names none) and one word per pronunciation item are returned |
| Text.ConcatWords | manual_split.py:56 | `''.join(s.split())` is `s` without its blanks |
| Text.StripShape | sentence_utils.py:70 | `strip()` removes only blanks, and leaves nothing exactly when the string is all blank |
| Text.ParseZeroPad | sentence_utils.py:214 | a zero-padded integer reads back as itself, in at least the padding width |

## Left out

- I/O and services: reading and writing files and S3, Polly synthesis and voice probing,
  `ffmpeg`/`ffprobe`, Bedrock and Translate calls, Transcribe job start, polling and the result
  download. Their outcomes are parameters.
- `get_audio_duration` (tts.py:419-440) is folded into the audio-length parameter. A length of
  0, which it returns on failure, is skipped like any non-positive length.
- Logging, temporary directories, clean-up, job names, S3 keys, model ids, `max_tokens` and
  `temperature` are left out. They decide nothing the model states.
- IEEE floating point: the model computes on exact reals. Float rounding can move a truncated
  value across an integer in `int(total_length * (i / n))` (manual_split.py:167-171), in
  `combine_sentences`' group test, in `format_time_srt`'s milliseconds and in the `adelay`
  milliseconds. The model states the exact-arithmetic result.
- The transcript's number parsing (`float(item.get('start_time', 0))`) is taken as done: item
  times arrive as reals, and absent times read as 0.
- The `re.split` lookbehind of `split_text_advanced` is modelled directly as a cut after each of
  `、。！？`. No regular-expression engine is modelled.
- `str.lower()` is modelled on ASCII letters only. No other character lower-cases to a letter of `auto`.
- The font size at video_processor.py:298 is reassigned at :308, so only :308 is modelled. Neither value is used.
- The line spacing and bottom margin at video_processor.py:309-310 are computed and never used, so they are not modelled.
- The lines after the `return` at video_processor.py:462-466 are unreachable and not modelled.
- `format_srt_file`'s `except` branch copies the input file when reading or writing fails. It is
  I/O and not modelled.
- The ffmpeg filter string, `amix` and the volume are not modelled. Only the per-segment delays that feed them are.
- The prompt text of `ai_split_sentences` (ai_split.py:34-60) is not modelled. The model's reply
  is a parameter. The format the prompt requests is the one `AiSplit.ParseFormattedReply` reads back.
