/** Speech timing (`generate_speech` in tts.py): the translated sentences are paired with the
    original sentence windows, the pairs whose text is blank or whose synthesized audio is missing
    or empty are dropped, the rest are sorted by start time, and when two neighbours would overlap
    the whole track is replayed back to back. Synthesis, ffmpeg mixing and the upload are
    external; the duration synthesis yields for each pair is an input. */
module SpeechTiming {
  import opened Text
  import opened Wrappers
  import opened SentenceWindows
  import opened SentenceMatching
  import opened AiSplit
  import ManualSplit

  // ---------------------------------------------------------------------------
  // Voice language

  /** The table of Polly language codes for the target languages the pipeline knows. */
  const LanguageCodes: map<string, string> := map[
    "en" := "en-US", "zh" := "cmn-CN", "ja" := "ja-JP", "fr" := "fr-FR", "de" := "de-DE",
    "it" := "it-IT", "ko" := "ko-KR", "pt" := "pt-BR", "es" := "es-ES"]

  /** The target language of a request, `"en"` when it names none. */
  function TargetLanguage(target: Option<string>): string {
    target.GetOr("en")
  }

  /** The Polly language: the table's code for the target language, else the caller's code. */
  function PollyLanguage(target: Option<string>, languageCode: string): string {
    var t := TargetLanguage(target);
    if t in LanguageCodes then LanguageCodes[t] else languageCode
  }

  // ---------------------------------------------------------------------------
  // Original duration

  /** `max(word["end_time"] for word in words)`. */
  function MaxEnd(words: seq<Word>): real
    requires words != []
  {
    if |words| == 1 then words[0].end
    else
      var m := MaxEnd(words[..|words| - 1]);
      var e := words[|words| - 1].end;
      if e > m then e else m
  }

  /** The length of the original track, or the ValueError raised when it is zero or negative (no
      words count as a length of zero). */
  function OriginalDuration(words: seq<Word>): Result<real> {
    var maxEnd := if words == [] then 0.0 else MaxEnd(words);
    if maxEnd <= 0.0 then Err(InvalidDuration) else Ok(maxEnd)
  }

  // ---------------------------------------------------------------------------
  // Audio segments

  /** A synthesized sentence: its pair position, its original window, its audio's length and text. */
  datatype Segment = Segment(index: nat, start: real, end: real, duration: real, text: string)

  /** The segments kept among the first `k` sentence/window pairs: `audio(i)` is the length of the
      audio synthesized for pair `i`, or None when synthesis raised. */
  function SurvivorsUpTo(sentences: seq<string>, windows: seq<Window>, audio: nat -> Option<real>, k: nat)
    : seq<Segment>
    requires k <= |sentences| && k <= |windows|
  {
    if k == 0 then []
    else
      var before := SurvivorsUpTo(sentences, windows, audio, k - 1);
      var i := k - 1;
      if Strip(sentences[i]) == [] then before
      else match audio(i)
        case None => before
        case Some(duration) =>
          if duration <= 0.0 then before
          else before + [Segment(i, windows[i].start, windows[i].end, duration, sentences[i])]
  }

  /** The segments kept among all pairs of `zip(sentences, windows)`. */
  function Survivors(sentences: seq<string>, windows: seq<Window>, audio: nat -> Option<real>): seq<Segment> {
    SurvivorsUpTo(sentences, windows, audio, Paired(sentences, windows))
  }

  // ---------------------------------------------------------------------------
  // Sorting by start time

  /** `x` placed after every element of `s` whose start is not later than its own. */
  function Insert(s: seq<Segment>, x: Segment): (r: seq<Segment>)
    ensures |r| == |s| + 1
    ensures multiset(r) == multiset(s) + multiset{x}
  {
    if s == [] then [x]
    else if s[|s| - 1].start <= x.start then s + [x]
    else
      var r := Insert(s[..|s| - 1], x) + [s[|s| - 1]];
      assert s == s[..|s| - 1] + [s[|s| - 1]];
      r
  }

  /** `sort(key=lambda x: x["start"])`: a stable insertion sort on the start time. */
  function SortByStart(s: seq<Segment>): (r: seq<Segment>)
    ensures |r| == |s|
    ensures multiset(r) == multiset(s)
  {
    if s == [] then []
    else
      assert s == s[..|s| - 1] + [s[|s| - 1]];
      Insert(SortByStart(s[..|s| - 1]), s[|s| - 1])
  }

  // ---------------------------------------------------------------------------
  // Overlap and sequential timing

  /** Segment `a` runs past two seconds before its successor `b` starts. */
  predicate Clash(a: Segment, b: Segment) {
    a.start + a.duration - 2.0 > b.start
  }

  /** Some neighbours of the sorted track clash. */
  predicate Overlaps(s: seq<Segment>) {
    exists i :: 0 <= i < |s| - 1 && Clash(s[i], s[i + 1])
  }

  /** A segment with its back-to-back place in the track. */
  datatype Timed = Timed(segment: Segment, sequentialStart: real, sequentialEnd: real)

  /** The time the sequential schedule has used after `s`: each segment's length plus a 0.1 s gap. */
  function Elapsed(s: seq<Segment>): real {
    if s == [] then 0.0 else Elapsed(s[..|s| - 1]) + s[|s| - 1].duration + 0.1
  }

  /** The sequential schedule: each segment starts where the ones before it have left off. */
  function Schedule(s: seq<Segment>): (r: seq<Timed>)
    ensures |r| == |s|
  {
    seq(|s|, j requires 0 <= j < |s| => Timed(s[j], Elapsed(s[..j]), Elapsed(s[..j]) + s[j].duration))
  }

  /** One entry of `audio_timing`. */
  datatype TimingRecord = TimingRecord(index: nat, sequentialStart: real, sequentialEnd: real,
                                       originalStart: real, originalEnd: real, duration: real)

  function Record(t: Timed): TimingRecord {
    TimingRecord(t.segment.index, t.sequentialStart, t.sequentialEnd,
                 t.segment.start, t.segment.start + t.segment.duration, t.segment.duration)
  }

  function Records(timed: seq<Timed>): (r: seq<TimingRecord>)
    ensures |r| == |timed|
  {
    seq(|timed|, j requires 0 <= j < |timed| => Record(timed[j]))
  }

  /** `audio_timing`: None unless the track was replayed back to back. */
  function AudioTiming(s: seq<Segment>, sequential: bool): Option<seq<TimingRecord>> {
    if sequential then Some(Records(Schedule(s))) else None
  }

  /** `int(seconds * 1000)`: a delay in whole milliseconds. */
  function DelayMillis(seconds: real): int {
    Trunc(seconds * 1000.0)
  }

  /** The `adelay` of each segment in the mix, from the schedule in use. */
  function Delays(s: seq<Segment>, sequential: bool): (r: seq<int>)
    ensures |r| == |s|
  {
    seq(|s|, j requires 0 <= j < |s| =>
      DelayMillis(if sequential then Schedule(s)[j].sequentialStart else s[j].start))
  }

  // ---------------------------------------------------------------------------
  // The whole computation

  /** The sentences the audio is made from: the AI splitter, else the manual one, else the
      splitter by punctuation. */
  function SpeechSentences(text: string, windows: seq<Window>, language: string, reply: Option<string>)
    : Result<seq<string>>
  {
    match AiSplit.AiSplit(text, windows, language, reply)
    case Ok(sentences) => Ok(sentences)
    case Err(_) =>
      match ManualSplit.ManualSplit(text, windows, language)
      case Ok(sentences) => Ok(sentences)
      case Err(_) => Match(text, |windows|)
  }

  /** What `generate_speech` decides: the voice language, the track length, the sorted segments,
      `audio_timing` and the mix delays. */
  datatype SpeechPlan = SpeechPlan(language: string, duration: real, segments: seq<Segment>,
                                   timing: Option<seq<TimingRecord>>, delays: seq<int>)

  /** `generate_speech` on the words and translation of a request, the model's reply (None when
      the call failed) and the synthesized audio lengths; Err is the exception it raises. */
  function GenerateSpeech(words: seq<Word>, translated: string, target: Option<string>, languageCode: string,
                          reply: Option<string>, audio: nat -> Option<real>): Result<SpeechPlan>
  {
    match OriginalDuration(words)
    case Err(e) => Err(e)
    case Ok(duration) =>
      var windows := Extract(words);
      match SpeechSentences(translated, windows, TargetLanguage(target), reply)
      case Err(e) => Err(e)
      case Ok(sentences) => Plan(PollyLanguage(target, languageCode), duration, sentences, windows, audio)
  }

  /** The part of `generate_speech` after the split: synthesis, sorting and scheduling. */
  function Plan(language: string, duration: real, sentences: seq<string>, windows: seq<Window>,
                audio: nat -> Option<real>): Result<SpeechPlan>
  {
    var sorted := SortByStart(Survivors(sentences, windows, audio));
    if sorted == [] then Err(UnboundFlag)
    else
      var sequential := Overlaps(sorted);
      Ok(SpeechPlan(language, duration, sorted, AudioTiming(sorted, sequential), Delays(sorted, sequential)))
  }

  // ---------------------------------------------------------------------------
  // The source's loops

  /** The synthesis loop: blank sentences and missing or empty audio are skipped. */
  method CollectSegments(sentences: seq<string>, windows: seq<Window>, audio: nat -> Option<real>)
    returns (segments: seq<Segment>)
    ensures segments == Survivors(sentences, windows, audio)
  {
    segments := [];
    for i := 0 to Paired(sentences, windows)
      invariant segments == SurvivorsUpTo(sentences, windows, audio, i)
    {
      var sentence := sentences[i];
      if Strip(sentence) == [] {
        continue;
      }
      var synthesized := audio(i);
      if synthesized.None? {
        continue;
      }
      var duration := synthesized.value;
      if duration <= 0.0 {
        continue;
      }
      segments := segments + [Segment(i, windows[i].start, windows[i].end, duration, sentence)];
    }
  }

  /** The overlap loop: at the first clashing pair the track is rescheduled and the loop stops;
      the `else` of the loop clears the flag. */
  method DetectOverlap(segments: seq<Segment>) returns (sequential: bool, timed: seq<Timed>)
    ensures sequential == Overlaps(segments)
    ensures timed == if sequential then Schedule(segments) else []
  {
    timed := [];
    var i := 0;
    while i + 1 < |segments|
      invariant 0 <= i && (i < |segments| || i == 0)
      invariant forall k :: 0 <= k < i ==> !Clash(segments[k], segments[k + 1])
    {
      var current := segments[i];
      var next := segments[i + 1];
      if current.start + current.duration - 2.0 > next.start {
        timed := Reschedule(segments);
        sequential := true;
        return;
      }
      i := i + 1;
    }
    sequential := false;
  }

  /** The rescheduling loop, driven by the `current_time` accumulator. */
  method Reschedule(segments: seq<Segment>) returns (timed: seq<Timed>)
    ensures timed == Schedule(segments)
  {
    timed := [];
    var currentTime := 0.0;
    for j := 0 to |segments|
      invariant |timed| == j
      invariant currentTime == Elapsed(segments[..j])
      invariant forall k :: 0 <= k < j ==> timed[k] == Schedule(segments)[k]
    {
      var segment := segments[j];
      timed := timed + [Timed(segment, currentTime, currentTime + segment.duration)];
      assert segments[..j + 1][..j] == segments[..j];
      currentTime := currentTime + segment.duration + 0.1;
    }
  }

  /** The loop that builds `audio_timing` from the rescheduled segments. */
  method BuildAudioTiming(timed: seq<Timed>) returns (records: seq<TimingRecord>)
    ensures records == Records(timed)
  {
    records := [];
    for j := 0 to |timed|
      invariant |records| == j
      invariant forall k :: 0 <= k < j ==> records[k] == Record(timed[k])
    {
      var segment := timed[j].segment;
      records := records + [TimingRecord(segment.index, timed[j].sequentialStart, timed[j].sequentialEnd,
                                         segment.start, segment.start + segment.duration, segment.duration)];
    }
  }

  /** The mixing loop's delays, from the sequential start when the track was rescheduled. */
  method MixDelays(segments: seq<Segment>, sequential: bool, timed: seq<Timed>) returns (delays: seq<int>)
    requires sequential ==> timed == Schedule(segments)
    ensures delays == Delays(segments, sequential)
  {
    delays := [];
    for i := 0 to |segments|
      invariant |delays| == i
      invariant forall k :: 0 <= k < i ==> delays[k] == Delays(segments, sequential)[k]
    {
      var delayMs;
      if sequential {
        delayMs := Trunc(timed[i].sequentialStart * 1000.0);
      } else {
        delayMs := Trunc(segments[i].start * 1000.0);
      }
      delays := delays + [delayMs];
    }
  }

  /** `generate_speech` without the service calls: the same checks, in the same order. */
  method GenerateSpeechPlan(words: seq<Word>, translated: string, target: Option<string>, languageCode: string,
                            reply: Option<string>, audio: nat -> Option<real>)
    returns (r: Result<SpeechPlan>)
    ensures r == GenerateSpeech(words, translated, target, languageCode, reply, audio)
  {
    var targetLanguage := TargetLanguage(target);
    var pollyLanguage := if targetLanguage in LanguageCodes then LanguageCodes[targetLanguage] else languageCode;
    var duration := OriginalDuration(words);
    if duration.Err? {
      return Err(duration.error);
    }
    var windows := ExtractSentences(words);
    var split := SplitForSpeech(translated, windows, targetLanguage, reply);
    if split.Err? {
      return Err(split.error);
    }
    r := PlanSpeech(pollyLanguage, duration.value, split.value, windows, audio);
  }

  /** The fallback chain of splitters, each tried when the one before it raised. */
  method SplitForSpeech(text: string, windows: seq<Window>, language: string, reply: Option<string>)
    returns (r: Result<seq<string>>)
    ensures r == SpeechSentences(text, windows, language, reply)
  {
    r := AiSplitSentences(text, windows, language, reply);
    if r.Err? {
      r := ManualSplit.ManualSplitSentences(text, windows, language);
      if r.Err? {
        r := SplitIntoMatchingSentences(text, |windows|);
      }
    }
  }

  /** Synthesis, sorting, overlap detection, `audio_timing` and the mix delays. */
  method PlanSpeech(language: string, duration: real, sentences: seq<string>, windows: seq<Window>,
                    audio: nat -> Option<real>) returns (r: Result<SpeechPlan>)
    ensures r == Plan(language, duration, sentences, windows, audio)
  {
    var segments := CollectSegments(sentences, windows, audio);
    segments := SortByStart(segments);
    if segments == [] {
      return Err(UnboundFlag);
    }
    var sequential, timed := DetectOverlap(segments);
    var timing: Option<seq<TimingRecord>> := None;
    if sequential {
      var records := BuildAudioTiming(timed);
      timing := Some(records);
    }
    var delays := MixDelays(segments, sequential, timed);
    r := Ok(SpeechPlan(language, duration, segments, timing, delays));
  }


  // ---------------------------------------------------------------------------
  // Properties: voice language and original duration

  /** The table's nine codes, the default target `"en"`, and the caller's code for any other
      language: the voice language is always a table entry or the caller's code. */
  lemma PollyLanguageTable(target: Option<string>, languageCode: string)
    ensures PollyLanguage(None, languageCode) == "en-US"
    ensures PollyLanguage(Some("zh"), languageCode) == "cmn-CN"
    ensures PollyLanguage(Some("ja"), languageCode) == "ja-JP"
    ensures PollyLanguage(Some("ko"), languageCode) == "ko-KR"
    ensures PollyLanguage(Some("pt"), languageCode) == "pt-BR"
    ensures target.Some? && target.value !in LanguageCodes ==> PollyLanguage(target, languageCode) == languageCode
    ensures PollyLanguage(target, languageCode) in LanguageCodes.Values
      || PollyLanguage(target, languageCode) == languageCode
  {
  }

  /** `MaxEnd` is the largest end time, and some word ends then. */
  lemma {:induction false} MaxEndIsMax(words: seq<Word>)
    requires words != []
    ensures forall i :: 0 <= i < |words| ==> words[i].end <= MaxEnd(words)
    ensures exists i :: 0 <= i < |words| && words[i].end == MaxEnd(words)
  {
    if |words| > 1 {
      var prefix := words[..|words| - 1];
      MaxEndIsMax(prefix);
      var i :| 0 <= i < |prefix| && prefix[i].end == MaxEnd(prefix);
      assert words[i] == prefix[i];
      if words[|words| - 1].end > MaxEnd(prefix) {
        assert words[|words| - 1].end == MaxEnd(words);
      } else {
        assert words[i].end == MaxEnd(words);
      }
      forall k | 0 <= k < |words| - 1 ensures words[k].end <= MaxEnd(words) {
        assert words[k] == prefix[k];
      }
    } else {
      assert words[0].end == MaxEnd(words);
    }
  }

  /** The track length is the latest word end; ValueError exactly when there are no words or no
      word ends after time zero. */
  lemma OriginalDurationSpec(words: seq<Word>)
    ensures OriginalDuration(words).Err? <==> forall i :: 0 <= i < |words| ==> words[i].end <= 0.0
    ensures OriginalDuration(words).Err? ==> OriginalDuration(words).error == InvalidDuration
    ensures OriginalDuration(words).Ok? ==>
      OriginalDuration(words).value > 0.0
      && (forall i :: 0 <= i < |words| ==> words[i].end <= OriginalDuration(words).value)
      && (exists i :: 0 <= i < |words| && words[i].end == OriginalDuration(words).value)
  {
    if words != [] {
      MaxEndIsMax(words);
    }
  }

  // ---------------------------------------------------------------------------
  // Properties: the surviving segments

  /** Pair `i` yields a segment: its text is not blank and its audio exists and is not empty. */
  predicate Kept(sentences: seq<string>, audio: nat -> Option<real>, i: nat)
    requires i < |sentences|
  {
    !AllSpace(sentences[i]) && audio(i).Some? && audio(i).value > 0.0
  }

  /** A segment carries pair `i`'s window, audio length and text. */
  predicate FromPair(sentences: seq<string>, windows: seq<Window>, audio: nat -> Option<real>, seg: Segment)
  {
    seg.index < |sentences| && seg.index < |windows|
    && seg.start == windows[seg.index].start && seg.end == windows[seg.index].end
    && audio(seg.index) == Some(seg.duration) && seg.text == sentences[seg.index]
  }

  predicate IndicesIncrease(s: seq<Segment>) {
    forall a, b :: 0 <= a < b < |s| ==> s[a].index < s[b].index
  }

  /** One step of the synthesis loop: pair `k - 1` is appended exactly when it is kept. */
  lemma SurvivorsStep(sentences: seq<string>, windows: seq<Window>, audio: nat -> Option<real>, k: nat)
    requires 0 < k <= |sentences| && k <= |windows|
    ensures Kept(sentences, audio, k - 1) ==>
      SurvivorsUpTo(sentences, windows, audio, k) == SurvivorsUpTo(sentences, windows, audio, k - 1)
        + [Segment(k - 1, windows[k - 1].start, windows[k - 1].end, audio(k - 1).value, sentences[k - 1])]
    ensures !Kept(sentences, audio, k - 1) ==>
      SurvivorsUpTo(sentences, windows, audio, k) == SurvivorsUpTo(sentences, windows, audio, k - 1)
  {
    StripShape(sentences[k - 1]);
  }

  /** The segments of `s` are kept pairs below `k`, carrying their pairs' data, in pair order. */
  predicate SoundBelow(sentences: seq<string>, windows: seq<Window>, audio: nat -> Option<real>,
                       s: seq<Segment>, k: nat)
    requires k <= |sentences|
  {
    IndicesIncrease(s)
    && forall j :: 0 <= j < |s| ==>
      s[j].index < k && FromPair(sentences, windows, audio, s[j]) && Kept(sentences, audio, s[j].index)
  }

  lemma SoundStep(sentences: seq<string>, windows: seq<Window>, audio: nat -> Option<real>,
                  before: seq<Segment>, k: nat)
    requires 0 < k <= |sentences| && k <= |windows|
    requires SoundBelow(sentences, windows, audio, before, k - 1)
    ensures SoundBelow(sentences, windows, audio, before, k)
    ensures Kept(sentences, audio, k - 1) ==> SoundBelow(sentences, windows, audio,
      before + [Segment(k - 1, windows[k - 1].start, windows[k - 1].end, audio(k - 1).value, sentences[k - 1])], k)
  {
    if Kept(sentences, audio, k - 1) {
      var r := before + [Segment(k - 1, windows[k - 1].start, windows[k - 1].end, audio(k - 1).value, sentences[k - 1])];
      forall j | 0 <= j < |r| ensures
        r[j].index < k && FromPair(sentences, windows, audio, r[j]) && Kept(sentences, audio, r[j].index)
      {
        if j < |before| { assert r[j] == before[j]; }
      }
      forall a, b | 0 <= a < b < |r| ensures r[a].index < r[b].index {
        assert r[a] == before[a];
        if b < |before| { assert r[b] == before[b]; }
      }
    }
  }

  /** Every survivor among the first `k` pairs is a kept pair with its own window, audio length and
      text, and the survivors are in pair order. */
  lemma SurvivorsSound(sentences: seq<string>, windows: seq<Window>,
                        audio: nat -> Option<real>, k: nat)
    requires k <= |sentences| && k <= |windows|
    ensures IndicesIncrease(SurvivorsUpTo(sentences, windows, audio, k))
    ensures forall j :: 0 <= j < |SurvivorsUpTo(sentences, windows, audio, k)| ==>
      SurvivorsUpTo(sentences, windows, audio, k)[j].index < k
      && FromPair(sentences, windows, audio, SurvivorsUpTo(sentences, windows, audio, k)[j])
      && Kept(sentences, audio, SurvivorsUpTo(sentences, windows, audio, k)[j].index)
  {
    SoundUpTo(sentences, windows, audio, k);
  }

  lemma {:induction false} SoundUpTo(sentences: seq<string>, windows: seq<Window>,
                                      audio: nat -> Option<real>, k: nat)
    requires k <= |sentences| && k <= |windows|
    ensures SoundBelow(sentences, windows, audio, SurvivorsUpTo(sentences, windows, audio, k), k)
  {
    if k > 0 {
      SoundUpTo(sentences, windows, audio, k - 1);
      SoundAt(sentences, windows, audio, k);
    }
  }

  lemma SoundAt(sentences: seq<string>, windows: seq<Window>, audio: nat -> Option<real>, k: nat)
    requires 0 < k <= |sentences| && k <= |windows|
    requires SoundBelow(sentences, windows, audio, SurvivorsUpTo(sentences, windows, audio, k - 1), k - 1)
    ensures SoundBelow(sentences, windows, audio, SurvivorsUpTo(sentences, windows, audio, k), k)
  {
    SurvivorsStep(sentences, windows, audio, k);
    SoundStep(sentences, windows, audio, SurvivorsUpTo(sentences, windows, audio, k - 1), k);
  }

  /** Every kept pair below `k` has a segment in `s`. */
  predicate CompleteBelow(sentences: seq<string>, audio: nat -> Option<real>, s: seq<Segment>, k: nat)
    requires k <= |sentences|
  {
    forall i :: 0 <= i < k && Kept(sentences, audio, i) ==> exists seg :: seg in s && seg.index == i
  }

  lemma CompleteStep(sentences: seq<string>, windows: seq<Window>, audio: nat -> Option<real>,
                     before: seq<Segment>, k: nat)
    requires 0 < k <= |sentences| && k <= |windows|
    requires CompleteBelow(sentences, audio, before, k - 1)
    ensures !Kept(sentences, audio, k - 1) ==> CompleteBelow(sentences, audio, before, k)
    ensures Kept(sentences, audio, k - 1) ==> CompleteBelow(sentences, audio,
      before + [Segment(k - 1, windows[k - 1].start, windows[k - 1].end, audio(k - 1).value, sentences[k - 1])], k)
  {
    if Kept(sentences, audio, k - 1) {
      var r := before + [Segment(k - 1, windows[k - 1].start, windows[k - 1].end, audio(k - 1).value, sentences[k - 1])];
      forall i | 0 <= i < k && Kept(sentences, audio, i) ensures exists seg :: seg in r && seg.index == i {
        if i < k - 1 {
          var seg :| seg in before && seg.index == i;
          assert seg in r;
        } else {
          assert r[|before|] in r;
        }
      }
    }
  }

  lemma {:induction false} CompleteUpTo(sentences: seq<string>, windows: seq<Window>,
                                         audio: nat -> Option<real>, k: nat)
    requires k <= |sentences| && k <= |windows|
    ensures CompleteBelow(sentences, audio, SurvivorsUpTo(sentences, windows, audio, k), k)
  {
    if k > 0 {
      CompleteUpTo(sentences, windows, audio, k - 1);
      CompleteAt(sentences, windows, audio, k);
    }
  }

  lemma CompleteAt(sentences: seq<string>, windows: seq<Window>, audio: nat -> Option<real>, k: nat)
    requires 0 < k <= |sentences| && k <= |windows|
    requires CompleteBelow(sentences, audio, SurvivorsUpTo(sentences, windows, audio, k - 1), k - 1)
    ensures CompleteBelow(sentences, audio, SurvivorsUpTo(sentences, windows, audio, k), k)
  {
    SurvivorsStep(sentences, windows, audio, k);
    CompleteStep(sentences, windows, audio, SurvivorsUpTo(sentences, windows, audio, k - 1), k);
  }

  /** Every kept pair among the first `k` has a survivor. */
  lemma SurvivorsComplete(sentences: seq<string>, windows: seq<Window>,
                          audio: nat -> Option<real>, k: nat)
    requires k <= |sentences| && k <= |windows|
    ensures forall i :: 0 <= i < k && Kept(sentences, audio, i) ==>
      exists seg :: seg in SurvivorsUpTo(sentences, windows, audio, k) && seg.index == i
  {
    CompleteUpTo(sentences, windows, audio, k);
  }

  // ---------------------------------------------------------------------------
  // Properties: the sort

  /** `a` goes before `b`: an earlier start, or the same start and an earlier pair. */
  predicate Precedes(a: Segment, b: Segment) {
    a.start < b.start || (a.start == b.start && a.index < b.index)
  }

  /** Ordered by start time, and by pair position among equal starts. */
  predicate InOrder(s: seq<Segment>) {
    forall a, b :: 0 <= a < b < |s| ==> Precedes(s[a], s[b])
  }

  lemma InOrderPrefix(prefix: seq<Segment>, last: Segment)
    requires InOrder(prefix + [last])
    ensures InOrder(prefix)
    ensures forall y :: y in prefix ==> Precedes(y, last)
  {
    var s := prefix + [last];
    forall a, b | 0 <= a < b < |prefix| ensures Precedes(prefix[a], prefix[b]) {
      assert s[a] == prefix[a] && s[b] == prefix[b];
    }
    forall y | y in prefix ensures Precedes(y, last) {
      var a :| 0 <= a < |prefix| && prefix[a] == y;
      assert s[a] == y && s[|prefix|] == last;
    }
  }

  lemma InOrderSnoc(t: seq<Segment>, y: Segment)
    requires InOrder(t)
    requires forall z :: z in t ==> Precedes(z, y)
    ensures InOrder(t + [y])
  {
    forall a, b | 0 <= a < b < |t| + 1 ensures Precedes((t + [y])[a], (t + [y])[b]) {
      assert (t + [y])[a] == t[a];
      if b == |t| {
        assert t[a] in t;
      }
    }
  }

  /** Every element of `Insert(s, x)` is `x` or an element of `s`. */
  lemma InsertMembers(s: seq<Segment>, x: Segment, z: Segment)
    requires z in Insert(s, x)
    ensures z == x || z in s
  {
    assert z in multiset(Insert(s, x));
  }

  lemma {:induction false} InsertInOrder(s: seq<Segment>, x: Segment)
    requires InOrder(s)
    requires forall y :: y in s ==> y.index < x.index
    ensures InOrder(Insert(s, x))
  {
    if s == [] {
      assert Insert(s, x) == [x];
    } else if s[|s| - 1].start <= x.start {
      var last := s[|s| - 1];
      forall z | z in s ensures Precedes(z, x) {
      }
      InOrderSnoc(s, x);
    } else {
      var prefix := s[..|s| - 1];
      var last := s[|s| - 1];
      PrefixSnoc(s, |s|);
      PrefixAll(s);
      InOrderPrefix(prefix, last);
      forall y | y in prefix ensures y.index < x.index { assert y in s; }
      InsertInOrder(prefix, x);
      var ins := Insert(prefix, x);
      forall z | z in ins ensures Precedes(z, last) {
        InsertMembers(prefix, x, z);
      }
      InOrderSnoc(ins, last);
    }
  }

  /** Python's stable sort on the start time of segments in pair order: the result is a
      permutation of the input, sorted by start, with equal starts left in pair order. */
  lemma {:induction false} SortByStartSpec(s: seq<Segment>)
    requires IndicesIncrease(s)
    ensures multiset(SortByStart(s)) == multiset(s)
    ensures InOrder(SortByStart(s))
    ensures forall a, b :: 0 <= a < b < |s| ==> SortByStart(s)[a].start <= SortByStart(s)[b].start
  {
    if s != [] {
      var prefix := s[..|s| - 1];
      var x := s[|s| - 1];
      SortByStartSpec(prefix);
      var sorted := SortByStart(prefix);
      forall y | y in sorted ensures y.index < x.index {
        assert y in multiset(prefix);
        var k :| 0 <= k < |prefix| && prefix[k] == y;
        assert s[k] == y;
      }
      InsertInOrder(sorted, x);
    }
  }

  // ---------------------------------------------------------------------------
  // Properties: the sequential schedule

  lemma ElapsedStep(s: seq<Segment>, j: nat)
    requires j < |s|
    ensures Elapsed(s[..j + 1]) == Elapsed(s[..j]) + s[j].duration + 0.1
  {
    assert s[..j + 1][..j] == s[..j];
  }

  /** The schedule starts at 0, each segment lasts its audio's length, and the next one starts
      0.1 s after it ends. */
  lemma ScheduleShape(s: seq<Segment>)
    ensures |s| > 0 ==> Schedule(s)[0].sequentialStart == 0.0
    ensures forall j :: 0 <= j < |s| ==>
      Schedule(s)[j].segment == s[j] && Schedule(s)[j].sequentialEnd == Schedule(s)[j].sequentialStart + s[j].duration
    ensures forall j :: 0 <= j < |s| - 1 ==>
      Schedule(s)[j + 1].sequentialStart == Schedule(s)[j].sequentialEnd + 0.1
  {
    if |s| > 0 {
      assert s[..0] == [];
    }
    forall j | 0 <= j < |s| - 1
      ensures Schedule(s)[j + 1].sequentialStart == Schedule(s)[j].sequentialEnd + 0.1
    {
      ElapsedStep(s, j);
    }
  }

  predicate PositiveDurations(s: seq<Segment>) {
    forall j :: 0 <= j < |s| ==> s[j].duration > 0.0
  }

  lemma {:induction false} ElapsedGrows(s: seq<Segment>, j: nat, k: nat)
    requires PositiveDurations(s) && j < k <= |s|
    ensures Elapsed(s[..j]) + s[j].duration + 0.1 <= Elapsed(s[..k])
  {
    ElapsedStep(s, k - 1);
    if j < k - 1 {
      ElapsedGrows(s, j, k - 1);
    }
  }

  /** With audio of positive length the schedule never overlaps: every segment ends more than
      0.1 s before any later one starts, and each one has a positive span. */
  lemma ScheduleDisjoint(s: seq<Segment>)
    requires PositiveDurations(s)
    ensures forall j :: 0 <= j < |s| ==> Schedule(s)[j].sequentialStart < Schedule(s)[j].sequentialEnd
    ensures forall j, k :: 0 <= j < k < |s| ==> Schedule(s)[j].sequentialEnd + 0.1 <= Schedule(s)[k].sequentialStart
  {
    forall j, k | 0 <= j < k < |s|
      ensures Schedule(s)[j].sequentialEnd + 0.1 <= Schedule(s)[k].sequentialStart
    {
      ElapsedGrows(s, j, k);
    }
  }

  function Durations(s: seq<Segment>): (r: seq<real>)
    ensures |r| == |s|
  {
    seq(|s|, j requires 0 <= j < |s| => s[j].duration)
  }

  lemma {:induction false} ElapsedByDurations(a: seq<Segment>, b: seq<Segment>)
    requires Durations(a) == Durations(b)
    ensures Elapsed(a) == Elapsed(b)
    decreases |a|
  {
    if a != [] {
      var a' := a[..|a| - 1];
      var b' := b[..|b| - 1];
      assert Durations(a)[|a| - 1] == Durations(b)[|b| - 1];
      assert Durations(a') == Durations(b') by {
        forall j | 0 <= j < |a'| ensures Durations(a')[j] == Durations(b')[j] {
          assert Durations(a)[j] == Durations(b)[j];
        }
      }
      ElapsedByDurations(a', b');
    }
  }

  /** The schedule depends on nothing but the audio lengths: two tracks with the same lengths get
      the same times. */
  lemma ScheduleByDurations(a: seq<Segment>, b: seq<Segment>)
    requires Durations(a) == Durations(b)
    ensures forall j :: 0 <= j < |a| ==>
      Schedule(a)[j].sequentialStart == Schedule(b)[j].sequentialStart
      && Schedule(a)[j].sequentialEnd == Schedule(b)[j].sequentialEnd
  {
    forall j | 0 <= j < |a|
      ensures Schedule(a)[j].sequentialStart == Schedule(b)[j].sequentialStart
      ensures Schedule(a)[j].sequentialEnd == Schedule(b)[j].sequentialEnd
    {
      assert Durations(a[..j]) == Durations(b[..j]) by {
        forall i | 0 <= i < j ensures Durations(a[..j])[i] == Durations(b[..j])[i] {
          assert Durations(a)[i] == Durations(b)[i];
        }
      }
      ElapsedByDurations(a[..j], b[..j]);
      assert Durations(a)[j] == Durations(b)[j];
    }
  }

  /** `audio_timing` of a rescheduled track: one record per segment, in track order, carrying the
      pair's index, the back-to-back span and the original span, both as long as the audio; with
      audio of positive length the back-to-back spans follow one another 0.1 s apart or more. */
  lemma AudioTimingSpec(s: seq<Segment>)
    requires PositiveDurations(s)
    ensures AudioTiming(s, true).Some? && |AudioTiming(s, true).value| == |s|
    ensures AudioTiming(s, false) == None
    ensures forall j :: 0 <= j < |s| ==>
      var r := AudioTiming(s, true).value[j];
      r.index == s[j].index && r.duration == s[j].duration
      && r.originalStart == s[j].start && r.originalEnd == s[j].start + s[j].duration
      && r.sequentialEnd == r.sequentialStart + s[j].duration && r.sequentialStart >= 0.0
    ensures forall j, k :: 0 <= j < k < |s| ==>
      AudioTiming(s, true).value[j].sequentialEnd + 0.1 <= AudioTiming(s, true).value[k].sequentialStart
  {
    ScheduleShape(s);
    ScheduleDisjoint(s);
    forall j | 0 <= j < |s| ensures Schedule(s)[j].sequentialStart >= 0.0 {
      SequentialStartNonNegative(s, j);
    }
  }

  // ---------------------------------------------------------------------------
  // Properties: delays and the outcome of generate_speech

  /** For a time not before zero the delay is its floor in milliseconds. */
  lemma DelayFloor(seconds: real)
    requires seconds >= 0.0
    ensures 0 <= DelayMillis(seconds)
    ensures DelayMillis(seconds) as real <= seconds * 1000.0 < DelayMillis(seconds) as real + 1.0
  {
  }

  /** A back-to-back start is never before zero. */
  lemma SequentialStartNonNegative(s: seq<Segment>, j: nat)
    requires PositiveDurations(s) && j < |s|
    ensures Schedule(s)[j].sequentialStart >= 0.0
  {
    assert s[..0] == [];
    if j > 0 {
      ElapsedGrows(s, 0, j);
    }
  }

  lemma DelayStep(s: seq<Segment>, j: nat)
    requires PositiveDurations(s) && j + 1 < |s|
    ensures 0 <= Delays(s, true)[j] <= Delays(s, true)[j + 1]
  {
    SequentialStartNonNegative(s, j);
    ScheduleShape(s);
    var x := Schedule(s)[j].sequentialStart * 1000.0;
    var y := Schedule(s)[j + 1].sequentialStart * 1000.0;
    assert 0.0 <= x <= y;
    assert Delays(s, true)[j] == x.Floor;
    assert Delays(s, true)[j + 1] == y.Floor;
  }

  /** Played back to back, the segments' delays are not negative and never decrease. */
  lemma SequentialDelaysOrdered(s: seq<Segment>)
    requires PositiveDurations(s)
    ensures forall j :: 0 <= j < |s| ==> Delays(s, true)[j] >= 0
    ensures forall j :: 0 <= j < |s| - 1 ==> Delays(s, true)[j] <= Delays(s, true)[j + 1]
  {
    forall j | 0 <= j < |s| ensures Delays(s, true)[j] >= 0 {
      SequentialStartNonNegative(s, j);
    }
    forall j | 0 <= j < |s| - 1 ensures Delays(s, true)[j] <= Delays(s, true)[j + 1] {
      DelayStep(s, j);
    }
  }

  /** The splitter chain never fails once there is a window: the last splitter raises only for a
      target of zero. */
  lemma SpeechSentencesOk(text: string, windows: seq<Window>, language: string, reply: Option<string>)
    requires windows != []
    ensures SpeechSentences(text, windows, language, reply).Ok?
  {
    MatchCount(text, |windows|);
  }

  /** `generate_speech` raises ValueError exactly for a track of no length, raises on the unbound
      flag exactly when no segment survives, and raises nothing else; otherwise the segments are the
      survivors sorted stably by start, `audio_timing` is present exactly when two neighbours
      clash, and every segment gets a delay. */
  lemma GenerateSpeechOutcome(words: seq<Word>, translated: string, target: Option<string>, languageCode: string,
                              reply: Option<string>, audio: nat -> Option<real>)
    ensures GenerateSpeech(words, translated, target, languageCode, reply, audio).Err? ==>
      GenerateSpeech(words, translated, target, languageCode, reply, audio).error in {InvalidDuration, UnboundFlag}
    ensures GenerateSpeech(words, translated, target, languageCode, reply, audio) == Err(InvalidDuration)
      <==> forall i :: 0 <= i < |words| ==> words[i].end <= 0.0
    ensures OriginalDuration(words).Ok? ==>
      SpeechSentences(translated, Extract(words), TargetLanguage(target), reply).Ok? &&
      (GenerateSpeech(words, translated, target, languageCode, reply, audio) == Err(UnboundFlag)
       <==> Survivors(SpeechSentences(translated, Extract(words), TargetLanguage(target), reply).value,
                      Extract(words), audio) == [])
    ensures GenerateSpeech(words, translated, target, languageCode, reply, audio).Ok? ==>
      var plan := GenerateSpeech(words, translated, target, languageCode, reply, audio).value;
      plan.segments != [] && InOrder(plan.segments) && PositiveDurations(plan.segments)
      && (plan.timing.Some? <==> Overlaps(plan.segments))
      && |plan.delays| == |plan.segments|
  {
    OriginalDurationSpec(words);
    GenerateSpeechCases(words, translated, target, languageCode, reply, audio);
    if OriginalDuration(words).Ok? {
      var windows := Extract(words);
      var sentences := SpeechSentences(translated, windows, TargetLanguage(target), reply).value;
      PlanOutcome(PollyLanguage(target, languageCode), OriginalDuration(words).value, sentences, windows, audio);
    }
  }

  /** A track of some length always gets its sentences, so `generate_speech` is the plan for them. */
  lemma GenerateSpeechCases(words: seq<Word>, translated: string, target: Option<string>, languageCode: string,
                            reply: Option<string>, audio: nat -> Option<real>)
    ensures OriginalDuration(words).Err? ==>
      GenerateSpeech(words, translated, target, languageCode, reply, audio) == Err(OriginalDuration(words).error)
    ensures OriginalDuration(words).Ok? ==>
      SpeechSentences(translated, Extract(words), TargetLanguage(target), reply).Ok? &&
      GenerateSpeech(words, translated, target, languageCode, reply, audio)
      == Plan(PollyLanguage(target, languageCode), OriginalDuration(words).value,
              SpeechSentences(translated, Extract(words), TargetLanguage(target), reply).value, Extract(words), audio)
  {
    if OriginalDuration(words).Ok? {
      OriginalDurationSpec(words);
      ExtractEmpty(words);
      SpeechSentencesOk(translated, Extract(words), TargetLanguage(target), reply);
    }
  }

  /** Synthesis, sorting and scheduling fail exactly when no segment survives; otherwise the plan's
      segments are sorted, have audio, and the timing is kept exactly when two of them overlap. */
  lemma PlanOutcome(language: string, duration: real, sentences: seq<string>, windows: seq<Window>,
                    audio: nat -> Option<real>)
    ensures Plan(language, duration, sentences, windows, audio).Err? <==> Survivors(sentences, windows, audio) == []
    ensures Plan(language, duration, sentences, windows, audio).Err? ==>
      Plan(language, duration, sentences, windows, audio).error == UnboundFlag
    ensures Plan(language, duration, sentences, windows, audio).Ok? ==>
      var plan := Plan(language, duration, sentences, windows, audio).value;
      plan.segments != [] && InOrder(plan.segments) && PositiveDurations(plan.segments)
      && (plan.timing.Some? <==> Overlaps(plan.segments))
      && |plan.delays| == |plan.segments|
  {
    var survivors := Survivors(sentences, windows, audio);
    SurvivorsSound(sentences, windows, audio, Paired(sentences, windows));
    SortByStartSpec(survivors);
    SurvivorsPositive(sentences, windows, audio, survivors);
    PermutationPositive(survivors, SortByStart(survivors));
  }

  lemma SurvivorsPositive(sentences: seq<string>, windows: seq<Window>, audio: nat -> Option<real>,
                          survivors: seq<Segment>)
    requires forall j :: 0 <= j < |survivors| ==>
      FromPair(sentences, windows, audio, survivors[j]) && Kept(sentences, audio, survivors[j].index)
    ensures PositiveDurations(survivors)
  {
    forall j | 0 <= j < |survivors| ensures survivors[j].duration > 0.0 {
      assert Kept(sentences, audio, survivors[j].index);
    }
  }

  lemma PermutationPositive(s: seq<Segment>, t: seq<Segment>)
    requires multiset(t) == multiset(s) && PositiveDurations(s)
    ensures PositiveDurations(t)
  {
    forall j | 0 <= j < |t| ensures t[j].duration > 0.0 {
      assert t[j] in multiset(s);
      var k :| 0 <= k < |s| && s[k] == t[j];
    }
  }
}
