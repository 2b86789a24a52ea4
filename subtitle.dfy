/** Subtitle cues for the translated text (`create_subtitles` in subtitle.py): the translation is
    matched to the original sentence windows, each sentence is wrapped for display, and a sentence
    of more than two lines is shown as several cues that share its window. */
module Subtitles {
  import opened Text
  import opened Wrappers
  import opened SentenceWindows
  import opened SentenceMatching
  import opened DisplayFormat
  import opened SrtTime

  /** The line length `create_subtitles` wraps at: the default of `format_sentence_for_display`,
      since it passes no language. */
  const DisplayWidth: int := 50

  /** One SubRip cue: its number, its time span in seconds and its text lines. */
  datatype Cue = Cue(index: nat, start: real, end: real, lines: seq<string>)

  function MinReal(a: real, b: real): real { if b < a then b else a }

  /** `math.ceil(n / 2)`: how many cues of at most two lines `n` lines need. */
  function Parts(n: nat): nat { (n + 1) / 2 }

  /** The lines of part `k`: `lines[2k : min(2k + 2, n)]`. */
  function PartLines(lines: seq<string>, k: nat): seq<string>
    requires k < Parts(|lines|)
  {
    var from := 2 * k;
    var to := if from + 2 <= |lines| then from + 2 else |lines|;
    lines[from..to]
  }

  /** The length of each part of a window of `total` seconds shown as `parts` cues. */
  function BaseDuration(total: real, parts: nat): real
    requires parts >= 1
  {
    total / parts as real
  }

  /** `k * base`, written as `k` additions of `base`. */
  function Offset(k: nat, base: real): real {
    if k == 0 then 0.0 else Offset(k - 1, base) + base
  }

  /** Part `k` of a long sentence: it starts `k` base durations into the window and lasts one base
      duration, or half of one plus a second when it is a final part of one line, cut at the
      window's end. */
  function PartCue(lines: seq<string>, start: real, end: real, first: nat, k: nat): Cue
    requires k < Parts(|lines|)
  {
    var parts := Parts(|lines|);
    var base := BaseDuration(end - start, parts);
    var partLines := PartLines(lines, k);
    var duration := if k == parts - 1 && |partLines| == 1 then base / 2.0 + 1.0 else base;
    var partStart := start + Offset(k, base);
    Cue(first + k, partStart, MinReal(partStart + duration, end), partLines)
  }

  /** The first `k` parts of a long sentence. */
  function PartsUpTo(lines: seq<string>, start: real, end: real, first: nat, k: nat): (r: seq<Cue>)
    requires k <= Parts(|lines|)
    ensures |r| == k
  {
    if k == 0 then [] else PartsUpTo(lines, start, end, first, k - 1) + [PartCue(lines, start, end, first, k - 1)]
  }

  lemma {:induction false} PartsUpToAt(lines: seq<string>, start: real, end: real, first: nat, k: nat, j: nat)
    requires j < k <= Parts(|lines|)
    ensures PartsUpTo(lines, start, end, first, k)[j] == PartCue(lines, start, end, first, j)
  {
    if j < k - 1 {
      PartsUpToAt(lines, start, end, first, k - 1, j);
    }
  }

  /** All parts of a long sentence. */
  function PartCues(lines: seq<string>, start: real, end: real, first: nat): (r: seq<Cue>)
    ensures |r| == Parts(|lines|)
  {
    PartsUpTo(lines, start, end, first, Parts(|lines|))
  }

  /** The wrapped lines of each sentence, as `create_subtitles` displays them. */
  function Wrapped(sentences: seq<string>): (r: seq<seq<string>>)
    ensures |r| == |sentences|
  {
    seq(|sentences|, i requires 0 <= i < |sentences| => FormatForDisplay(sentences[i], DisplayWidth, None))
  }

  /** The cues of one sentence, wrapped into `lines`, in its window, numbered from `first`. */
  function SegmentCues(lines: seq<string>, window: Window, first: nat): seq<Cue> {
    if |lines| > 2 then PartCues(lines, window.start, window.end, first)
    else [Cue(first, window.start, window.end, lines)]
  }

  /** The cues of the first `k` pairs of wrapped sentence and window. */
  function CuesUpTo(wrapped: seq<seq<string>>, windows: seq<Window>, k: nat): seq<Cue>
    requires k <= |wrapped| && k <= |windows|
  {
    if k == 0 then []
    else
      var before := CuesUpTo(wrapped, windows, k - 1);
      before + SegmentCues(wrapped[k - 1], windows[k - 1], |before| + 1)
  }

  /** The cues of `zip(sentences, windows)`. */
  function Cues(sentences: seq<string>, windows: seq<Window>): seq<Cue> {
    CuesUpTo(Wrapped(sentences), windows, Paired(sentences, windows))
  }

  /** The text of one cue: its number, its two timecodes, its lines, and a blank line. */
  function CueText(c: Cue): string {
    Digits(c.index) + "\n" + FormatTimeSrt(c.start) + " --> " + FormatTimeSrt(c.end) + "\n"
      + Join("\n", c.lines) + "\n\n"
  }

  /** The texts of `cues` one after the other, each rendered by `render`. */
  function RenderAll(cues: seq<Cue>, render: Cue -> string): string {
    if cues == [] then [] else RenderAll(cues[..|cues| - 1], render) + render(cues[|cues| - 1])
  }

  /** The SubRip file: the cue texts one after the other. */
  function SrtContent(cues: seq<Cue>): string {
    RenderAll(cues, CueText)
  }

  /** The SubRip text `create_subtitles` uploads for a translation and the original words, or the
      error its splitter raises. */
  function CreateSubtitles(translated: string, words: seq<Word>): Result<string> {
    var windows := Extract(words);
    match Match(translated, |windows|)
    case Err(e) => Err(e)
    case Ok(sentences) => Ok(SrtContent(Cues(sentences, windows)))
  }

  // ---------------------------------------------------------------------------
  // The source's loops

  /** The cue loop of `create_subtitles`; the upload of the result is left out. */
  method CreateSubtitleText(translated: string, words: seq<Word>) returns (r: Result<string>)
    ensures r == CreateSubtitles(translated, words)
  {
    var windows := ExtractSentences(words);
    var matched := SplitIntoMatchingSentences(translated, |windows|);
    if matched.Err? {
      return Err(matched.error);
    }
    var sentences := matched.value;
    ghost var wrapped := Wrapped(sentences);
    var srtContent: string := [];
    var subtitleIndex: nat := 1;
    for i := 0 to Paired(sentences, windows)
      invariant srtContent == SrtContent(CuesUpTo(wrapped, windows, i))
      invariant subtitleIndex == |CuesUpTo(wrapped, windows, i)| + 1
    {
      ghost var before := CuesUpTo(wrapped, windows, i);
      var text, next := EmitSegment(sentences[i], windows[i], subtitleIndex);
      SrtAppend(before, SegmentCues(wrapped[i], windows[i], subtitleIndex));
      srtContent := srtContent + text;
      subtitleIndex := next;
    }
    r := Ok(srtContent);
  }

  /** The cues of one sentence: one cue for at most two lines, else the part loop. */
  method EmitSegment(sentence: string, window: Window, first: nat) returns (text: string, next: nat)
    ensures text == SrtContent(SegmentCues(FormatForDisplay(sentence, DisplayWidth, None), window, first))
    ensures next == first + |SegmentCues(FormatForDisplay(sentence, DisplayWidth, None), window, first)|
  {
    var lines := FormatSentenceForDisplay(sentence, DisplayWidth, None);
    if |lines| > 2 {
      text, next := EmitParts(lines, window.start, window.end, first);
    } else {
      var cue := Cue(first, window.start, window.end, lines);
      AppendCue([], cue);
      text := CueText(cue);
      next := first + 1;
    }
  }

  /** The part loop: `ceil(n / 2)` cues of at most two lines each. */
  method EmitParts(lines: seq<string>, startTime: real, endTime: real, first: nat) returns (text: string, next: nat)
    requires |lines| > 2
    ensures text == SrtContent(PartCues(lines, startTime, endTime, first))
    ensures next == first + Parts(|lines|)
  {
    var numParts := (|lines| + 1) / 2;
    var base := (endTime - startTime) / numParts as real;
    text := [];
    next := first;
    for k := 0 to numParts
      invariant text == SrtContent(PartsUpTo(lines, startTime, endTime, first, k))
      invariant next == first + k
    {
      var cue := MakePart(lines, startTime, endTime, base, first, k);
      AppendCue(PartsUpTo(lines, startTime, endTime, first, k), cue);
      text := text + CueText(cue);
      next := next + 1;
    }
  }

  /** One pass of the part loop: the lines, start and clamped end of part `k`. */
  method MakePart(lines: seq<string>, startTime: real, endTime: real, base: real, first: nat, k: nat)
    returns (cue: Cue)
    requires k < Parts(|lines|) && base == BaseDuration(endTime - startTime, Parts(|lines|))
    ensures cue == PartCue(lines, startTime, endTime, first, k)
  {
    var numParts := (|lines| + 1) / 2;
    var from := k * 2;
    var to := if from + 2 <= |lines| then from + 2 else |lines|;
    var partLines := lines[from..to];
    var duration := base;
    if k == numParts - 1 && |partLines| == 1 {
      duration := base / 2.0 + 1.0;
    }
    var partStart := startTime + k as real * base;
    OffsetIsProduct(k, base);
    var partEnd := MinReal(partStart + duration, endTime);
    cue := Cue(first + k, partStart, partEnd, partLines);
  }

  lemma AppendCue(cues: seq<Cue>, c: Cue)
    ensures SrtContent(cues + [c]) == SrtContent(cues) + CueText(c)
  {
    assert (cues + [c])[..|cues|] == cues;
  }

  lemma {:induction false} RenderAllAppend(a: seq<Cue>, b: seq<Cue>, render: Cue -> string)
    ensures RenderAll(a + b, render) == RenderAll(a, render) + RenderAll(b, render)
    decreases |b|
  {
    if b == [] {
      assert a + b == a;
    } else {
      var c, x := b[..|b| - 1], b[|b| - 1];
      RenderAllAppend(a, c, render);
      DropLastAppend(a, b);
      var ra, rc, rx := RenderAll(a, render), RenderAll(c, render), render(x);
      assert RenderAll(a + b, render) == (ra + rc) + rx;
      assert RenderAll(b, render) == rc + rx;
    }
  }

  lemma SrtAppend(a: seq<Cue>, b: seq<Cue>)
    ensures SrtContent(a + b) == SrtContent(a) + SrtContent(b)
  {
    RenderAllAppend(a, b, CueText);
  }

  // ---------------------------------------------------------------------------
  // Cue numbering

  /** The cues are numbered `from`, `from + 1`, ... in order. */
  predicate NumberedFrom(cues: seq<Cue>, from: nat) {
    forall j :: 0 <= j < |cues| ==> cues[j].index == from + j
  }

  lemma NumberedAppend(a: seq<Cue>, b: seq<Cue>, from: nat)
    requires NumberedFrom(a, from) && NumberedFrom(b, from + |a|)
    ensures NumberedFrom(a + b, from)
  {
    forall j | 0 <= j < |a + b| ensures (a + b)[j].index == from + j {
      if j >= |a| {
        assert (a + b)[j] == b[j - |a|];
      }
    }
  }

  /** A sentence's cues are numbered consecutively from `first`. */
  lemma SegmentIndices(lines: seq<string>, window: Window, first: nat)
    ensures NumberedFrom(SegmentCues(lines, window, first), first)
  {
    if |lines| > 2 {
      PartCuesShape(lines, window.start, window.end, first);
    }
  }

  /** Cue numbers start at 1 and go up by exactly one per cue, across all sentences. */
  lemma {:induction false} CueIndices(wrapped: seq<seq<string>>, windows: seq<Window>, k: nat)
    requires k <= |wrapped| && k <= |windows|
    ensures NumberedFrom(CuesUpTo(wrapped, windows, k), 1)
  {
    if k > 0 {
      CueIndices(wrapped, windows, k - 1);
      var seg := LastSegment(wrapped, windows, k);
      NumberedAppend(CuesUpTo(wrapped, windows, k - 1), seg, 1);
    }
  }

  // ---------------------------------------------------------------------------
  // Cue lines

  /** The lines of `cues`, in order. */
  function LinesOf(cues: seq<Cue>): seq<string> {
    if cues == [] then [] else LinesOf(cues[..|cues| - 1]) + cues[|cues| - 1].lines
  }

  lemma {:induction false} LinesOfAppend(a: seq<Cue>, b: seq<Cue>)
    ensures LinesOf(a + b) == LinesOf(a) + LinesOf(b)
    decreases |b|
  {
    if b == [] {
      assert a + b == a;
    } else {
      var c, x := b[..|b| - 1], b[|b| - 1];
      LinesOfAppend(a, c);
      DropLastAppend(a, b);
      var la, lc := LinesOf(a), LinesOf(c);
      assert LinesOf(a + b) == (la + lc) + x.lines;
      assert LinesOf(b) == lc + x.lines;
    }
  }

  /** Every part holds two lines except possibly a final part of one. */
  lemma PartLinesSize(lines: seq<string>, k: nat)
    requires k < Parts(|lines|)
    ensures k < Parts(|lines|) - 1 ==> |PartLines(lines, k)| == 2
    ensures 1 <= |PartLines(lines, k)| <= 2
  {
  }

  lemma LinesOfSnoc(cues: seq<Cue>, c: Cue)
    ensures LinesOf(cues + [c]) == LinesOf(cues) + c.lines
  {
    assert (cues + [c])[..|cues|] == cues;
  }

  /** The parts' lines, in order, are the first `2k` wrapped lines (or all of them). */
  lemma {:induction false} PartsLines(lines: seq<string>, start: real, end: real, first: nat, k: nat)
    requires k <= Parts(|lines|)
    ensures LinesOf(PartsUpTo(lines, start, end, first, k)) == lines[..if 2 * k <= |lines| then 2 * k else |lines|]
  {
    if k > 0 {
      PartsLines(lines, start, end, first, k - 1);
      var prev := PartsUpTo(lines, start, end, first, k - 1);
      var cue := PartCue(lines, start, end, first, k - 1);
      assert PartsUpTo(lines, start, end, first, k) == prev + [cue];
      LinesOfSnoc(prev, cue);
      var from := 2 * (k - 1);
      var to := if 2 * k <= |lines| then 2 * k else |lines|;
      assert cue.lines == lines[from..to];
      PrefixSplit(lines, from, to);
    } else {
      assert lines[..0] == [];
    }
  }

  /** A sentence of more than two lines becomes `ceil(n / 2)` cues, numbered on from `first`, of two
      lines each except possibly a final one of one line, whose lines together are the sentence's
      wrapped lines. */
  lemma PartCuesShape(lines: seq<string>, start: real, end: real, first: nat)
    requires |lines| > 2
    ensures |PartCues(lines, start, end, first)| == (|lines| + 1) / 2
    ensures forall k :: 0 <= k < |PartCues(lines, start, end, first)| ==>
      PartCues(lines, start, end, first)[k].index == first + k
      && 1 <= |PartCues(lines, start, end, first)[k].lines| <= 2
      && (k < |PartCues(lines, start, end, first)| - 1 ==> |PartCues(lines, start, end, first)[k].lines| == 2)
    ensures LinesOf(PartCues(lines, start, end, first)) == lines
  {
    var cues := PartCues(lines, start, end, first);
    PartsLines(lines, start, end, first, Parts(|lines|));
    assert lines[..|lines|] == lines;
    forall k | 0 <= k < |cues|
      ensures cues[k].index == first + k && 1 <= |cues[k].lines| <= 2
      ensures k < |cues| - 1 ==> |cues[k].lines| == 2
    {
      PartsUpToAt(lines, start, end, first, |cues|, k);
      PartLinesSize(lines, k);
    }
  }

  /** A sentence of at most two lines becomes one cue spanning exactly its window. */
  lemma SegmentShort(lines: seq<string>, window: Window, first: nat)
    requires |lines| <= 2
    ensures SegmentCues(lines, window, first) == [Cue(first, window.start, window.end, lines)]
  {
  }

  lemma SegmentLines(lines: seq<string>, window: Window, first: nat)
    ensures LinesOf(SegmentCues(lines, window, first)) == lines
  {
    if |lines| > 2 {
      PartCuesShape(lines, window.start, window.end, first);
    } else {
      assert [Cue(first, window.start, window.end, lines)][..0] == [];
    }
  }

  /** The cues of the first `k` pairs carry, in order, exactly those pairs' wrapped lines. */
  lemma {:induction false} CueLines(wrapped: seq<seq<string>>, windows: seq<Window>, k: nat)
    requires k <= |wrapped| && k <= |windows|
    ensures LinesOf(CuesUpTo(wrapped, windows, k)) == Concat(wrapped[..k])
  {
    if k > 0 {
      CueLines(wrapped, windows, k - 1);
      var seg := LastSegment(wrapped, windows, k);
      CueLinesStep(CuesUpTo(wrapped, windows, k - 1), seg, wrapped, k);
    } else {
      assert wrapped[..0] == [];
    }
  }

  /** The cues the `k`-th pair adds, with their lines. */
  lemma LastSegment(wrapped: seq<seq<string>>, windows: seq<Window>, k: nat) returns (seg: seq<Cue>)
    requires 0 < k <= |wrapped| && k <= |windows|
    ensures CuesUpTo(wrapped, windows, k) == CuesUpTo(wrapped, windows, k - 1) + seg
    ensures LinesOf(seg) == wrapped[k - 1]
    ensures NumberedFrom(seg, |CuesUpTo(wrapped, windows, k - 1)| + 1)
  {
    var before := CuesUpTo(wrapped, windows, k - 1);
    seg := SegmentCues(wrapped[k - 1], windows[k - 1], |before| + 1);
    SegmentLines(wrapped[k - 1], windows[k - 1], |before| + 1);
    SegmentIndices(wrapped[k - 1], windows[k - 1], |before| + 1);
  }

  lemma CueLinesStep(before: seq<Cue>, seg: seq<Cue>, wrapped: seq<seq<string>>, k: nat)
    requires 0 < k <= |wrapped|
    requires LinesOf(before) == Concat(wrapped[..k - 1]) && LinesOf(seg) == wrapped[k - 1]
    ensures LinesOf(before + seg) == Concat(wrapped[..k])
  {
    PrefixSnoc(wrapped, k);
    LinesOfAppend(before, seg);
    ConcatSnoc(wrapped[..k - 1], wrapped[k - 1]);
  }

  /** The cues of `create_subtitles` are numbered 1, 2, ... and show, in order, the wrapped lines of
      the first `min(len(sentences), len(windows))` sentences and nothing else. */
  lemma CuesShape(sentences: seq<string>, windows: seq<Window>)
    ensures NumberedFrom(Cues(sentences, windows), 1)
    ensures LinesOf(Cues(sentences, windows)) == Concat(Wrapped(sentences)[..Paired(sentences, windows)])
  {
    CueIndices(Wrapped(sentences), windows, Paired(sentences, windows));
    CueLines(Wrapped(sentences), windows, Paired(sentences, windows));
  }

  // ---------------------------------------------------------------------------
  // Cue timing

  lemma {:induction false} OffsetIsProduct(k: nat, base: real)
    ensures Offset(k, base) == k as real * base
  {
    if k > 0 {
      OffsetIsProduct(k - 1, base);
    }
  }

  /** `j` base durations fit in the window: `0 <= j * (total / parts) <= total` for `j <= parts`. */
  lemma BaseMultiple(j: nat, parts: nat, total: real)
    requires 1 <= parts && j <= parts && total >= 0.0
    ensures BaseDuration(total, parts) >= 0.0
    ensures 0.0 <= Offset(j, BaseDuration(total, parts)) <= total
  {
    var base := BaseDuration(total, parts);
    var p := parts as real;
    var x := j as real;
    OffsetIsProduct(j, base);
    assert base * p == total;
    assert base >= 0.0;
    MulNonNegative(x, base);
    MulNonNegative(p - x, base);
    assert (p - x) * base == p * base - x * base;
  }

  lemma MulNonNegative(a: real, b: real)
    requires a >= 0.0 && b >= 0.0
    ensures a * b >= 0.0
  {
  }

  /** Part `k` starts `k` base durations into the window and ends at the window's end at the
      latest; for a window that does not run backwards it lies inside the window, and a part that
      is not the last ends exactly where the next one starts. */
  lemma PartTiming(lines: seq<string>, start: real, end: real, first: nat, k: nat)
    requires k < Parts(|lines|)
    ensures PartCue(lines, start, end, first, k).start
      == start + Offset(k, BaseDuration(end - start, Parts(|lines|)))
    ensures PartCue(lines, start, end, first, k).end <= end
    ensures start <= end ==>
      start <= PartCue(lines, start, end, first, k).start <= PartCue(lines, start, end, first, k).end
    ensures start <= end && k + 1 < Parts(|lines|) ==>
      PartCue(lines, start, end, first, k).end == PartCue(lines, start, end, first, k + 1).start
  {
    var parts := Parts(|lines|);
    if start <= end {
      BaseMultiple(k, parts, end - start);
      if k + 1 < parts {
        BaseMultiple(k + 1, parts, end - start);
      }
    }
  }

  /** In a window that does not run backwards, every cue of a sentence lies inside the window, and
      each cue but the last ends exactly where the next one starts. */
  lemma SegmentTiming(lines: seq<string>, window: Window, first: nat)
    requires window.start <= window.end
    ensures forall j :: 0 <= j < |SegmentCues(lines, window, first)| ==>
      window.start <= SegmentCues(lines, window, first)[j].start
      <= SegmentCues(lines, window, first)[j].end <= window.end
    ensures forall j :: 0 <= j < |SegmentCues(lines, window, first)| - 1 ==>
      SegmentCues(lines, window, first)[j].end == SegmentCues(lines, window, first)[j + 1].start
  {
    if |lines| > 2 {
      var cues := PartCues(lines, window.start, window.end, first);
      forall j | 0 <= j < |cues|
        ensures window.start <= cues[j].start <= cues[j].end <= window.end
        ensures j < |cues| - 1 ==> cues[j].end == cues[j + 1].start
      {
        PartsUpToAt(lines, window.start, window.end, first, |cues|, j);
        PartTiming(lines, window.start, window.end, first, j);
        if j < |cues| - 1 {
          PartsUpToAt(lines, window.start, window.end, first, |cues|, j + 1);
        }
      }
    }
  }

  // ---------------------------------------------------------------------------
  // Failure

  /** `create_subtitles` fails exactly when there are no words to make windows from but the
      translation has sentences: the splitter then divides by a target of zero. */
  lemma CreateSubtitlesFails(translated: string, words: seq<Word>)
    ensures CreateSubtitles(translated, words).Err? <==> words == [] && InitialSentences(translated) != []
    ensures CreateSubtitles(translated, words).Err? ==> CreateSubtitles(translated, words).error == ZeroDivision
  {
    ExtractPartitions(words);
    MatchCount(translated, |Extract(words)|);
  }
}
