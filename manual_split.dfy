/** Rule-based splitting of a translation into as many sentences as the original has windows
    (`manual_split_sentences` in manual_split.py). */
module ManualSplit {
  import opened Text
  import opened Wrappers
  import opened Arith
  import opened SentenceWindows

  /** The characters after which the Japanese/Chinese length split prefers to cut. */
  const JaBreaks: seq<char> := ['、', '，', '。', '！', '？', ' ']

  /** The separators the other languages try, in this order. */
  const LatinSeps: seq<string> := [". ", "! ", "? "]

  /** `" ".join(w["word"] for w in sentence["words"])`: an original sentence's text. */
  function OriginalText(w: Window): string {
    JoinSpace(seq(|w.words|, k requires 0 <= k < |w.words| => w.words[k].text))
  }

  /** `first_time / (first_time + second_time)` for the two original windows; the log line that
      follows divides by the two original texts' total length, which raises when both are empty. */
  function FirstRatio(first: Window, second: Window): Result<real> {
    var firstTime := first.end - first.start;
    var total := firstTime + (second.end - second.start);
    if total == 0.0 then Err(ZeroDivision)
    else if |OriginalText(first)| + |OriginalText(second)| == 0 then Err(ZeroDivision)
    else Ok(firstTime / total)
  }

  /** `max(1, int(count * first_ratio))`. */
  function MergePoint(count: nat, ratio: real): int {
    Max(1, Trunc(count as real * ratio))
  }

  /** `s.endswith(c)`. */
  predicate EndsWith(s: string, c: char) {
    s != [] && s[|s| - 1] == c
  }

  /** `[p + c for p in parts]`. */
  function Suffixed(parts: seq<string>, c: char): (r: seq<string>)
    ensures |r| == |parts|
  {
    seq(|parts|, i requires 0 <= i < |parts| => parts[i] + [c])
  }

  // ---------------------------------------------------------------------------
  // Two original sentences, Japanese or Chinese

  /** The period split: `[p.strip() + '。' for p in text.split('。') if p.strip()]`, kept when it
      gives two parts, merged at the merge point when it gives more, and accepted only when it
      keeps the text's non-blank characters; `None` lets control fall through to the length split. */
  function PeriodSplit(text: string, ratio: real): Option<seq<string>> {
    if '。' !in text then None
    else
      var parts := Suffixed(StripAll(Split(text, "。")), '。');
      if |parts| == 2 then
        if Squeeze(Concat(parts)) == Squeeze(text) then Some(parts) else None
      else if |parts| > 2 then
        var mp := MergePoint(|parts|, ratio);
        var first := Concat(Before(parts, mp));
        var second := Concat(From(parts, mp));
        if Squeeze(first + second) == Squeeze(text) then Some([first, second]) else None
      else None
  }

  /** The first index in `[lo, hi)` whose character is one of `breaks`. */
  function FirstIndex(text: string, lo: int, hi: int, breaks: seq<char>): (r: Option<nat>)
    requires 0 <= lo && hi <= |text|
    ensures r.Some? ==> lo <= r.value < hi && text[r.value] in breaks
    ensures forall j :: lo <= j < hi && (r.None? || j < r.value) ==> text[j] !in breaks
    decreases hi - lo
  {
    if lo >= hi then None
    else if text[lo] in breaks then Some(lo)
    else FirstIndex(text, lo + 1, hi, breaks)
  }

  /** `split_point = int(len(text) * first_ratio)`. */
  function SplitPoint(text: string, ratio: real): int {
    Trunc(|text| as real * ratio)
  }

  /** The search window `[max(0, p - w), min(len, p + w))` with `w = min(20, len // 4)`. */
  function WindowLo(text: string, ratio: real): nat {
    var p := SplitPoint(text, ratio);
    Max(0, p - Min(20, |text| / 4))
  }

  function WindowHi(text: string, ratio: real): (hi: int)
    ensures hi <= |text|
  {
    var p := SplitPoint(text, ratio);
    Min(|text|, p + Min(20, |text| / 4))
  }

  /** Where the length split cuts: just after (`after`) or at the first break character in the
      window, else at the split point. */
  function LengthCut(text: string, ratio: real, breaks: seq<char>, after: bool): int {
    match FirstIndex(text, WindowLo(text, ratio), WindowHi(text, ratio), breaks)
    case Some(i) => if after then i + 1 else i
    case None => SplitPoint(text, ratio)
  }

  /** `[text[:cut].strip(), text[cut:].strip()]`. */
  function CutAt(text: string, cut: int): seq<string> {
    [Strip(Before(text, cut)), Strip(From(text, cut))]
  }

  // ---------------------------------------------------------------------------
  // Two original sentences, other languages

  /** The parts collected and the part pending after reading `pieces` with the loop of the
      Latin branch: a pending part is emitted with `mark` once a further piece arrives. */
  function LatinState(pieces: seq<string>, mark: string): (seq<string>, string) {
    if pieces == [] then ([], [])
    else
      var (parts, current) := LatinState(pieces[..|pieces| - 1], mark);
      var piece := Strip(pieces[|pieces| - 1]);
      if current != [] then (parts + [current + mark], piece) else (parts, piece)
  }

  /** The parts the Latin branch builds for separator `sep`. */
  function LatinParts(text: string, sep: string): seq<string>
    requires sep != []
  {
    var (parts, current) := LatinState(Split(text, sep), Strip(sep));
    if current != [] then parts + [current] else parts
  }

  /** The Latin branch: the first separator of `seps` present in the text that yields two or more
      parts decides; two parts are returned as they are, more are space-joined around the merge
      point. No check that the parts keep the text is made. */
  function LatinSplit(text: string, ratio: real, seps: seq<string>): Option<seq<string>>
    requires forall k :: 0 <= k < |seps| ==> seps[k] != []
  {
    if seps == [] then None
    else if Contains(text, seps[0]) && |LatinParts(text, seps[0])| >= 2 then
      var parts := LatinParts(text, seps[0]);
      if |parts| == 2 then Some(parts)
      else
        var mp := MergePoint(|parts|, ratio);
        Some([JoinSpace(Before(parts, mp)), JoinSpace(From(parts, mp))])
    else LatinSplit(text, ratio, seps[1..])
  }

  /** The two sentences for a known first-duration ratio. */
  function TwoWay(text: string, ratio: real, language: string): seq<string> {
    if language == "ja" || language == "zh" then
      match PeriodSplit(text, ratio)
      case Some(parts) => parts
      case None => CutAt(text, LengthCut(text, ratio, JaBreaks, true))
    else
      match LatinSplit(text, ratio, LatinSeps)
      case Some(parts) => parts
      case None => CutAt(text, LengthCut(text, ratio, [' '], false))
  }

  // ---------------------------------------------------------------------------
  // Three or more (or no) original sentences

  /** `int(L * (i / n))`: where slice `i` of `n` starts in a text of length `L`. */
  function Cut(length: nat, i: nat, n: nat): nat
    requires n >= 1
  {
    (length * i) / n
  }

  /** Piece `i` of `n`: `text[Cut(i):Cut(i + 1)].strip()`, and for the last piece `text[Cut(i):].strip()`. */
  function Piece(text: string, n: nat, i: nat): string
    requires i < n
  {
    CutOrdered(|text|, i, i + 1, n);
    CutOrdered(|text|, i + 1, n, n);
    if i == n - 1 then Strip(text[Cut(|text|, i, n)..])
    else Strip(text[Cut(|text|, i, n)..Cut(|text|, i + 1, n)])
  }

  /** The proportional slicing of the text into `n` pieces. */
  function Proportional(text: string, n: nat): (r: seq<string>)
    ensures |r| == n
  {
    seq(n, i requires 0 <= i < n => Piece(text, n, i))
  }

  /** The list `manual_split_sentences(text, originals, language)` returns, or the error it raises. */
  function ManualSplit(text: string, originals: seq<Window>, language: string): Result<seq<string>> {
    if |originals| == 1 then Ok([text])
    else if |originals| == 2 then
      match FirstRatio(originals[0], originals[1])
      case Err(e) => Err(e)
      case Ok(ratio) => Ok(TwoWay(text, ratio, language))
    else Ok(Proportional(text, |originals|))
  }

  // ---------------------------------------------------------------------------
  // The source's loops

  /** The break search: the scan stops at the first break character. */
  method ScanForBreak(text: string, lo: int, hi: int, breaks: seq<char>) returns (found: Option<nat>)
    requires 0 <= lo && hi <= |text|
    ensures found == FirstIndex(text, lo, hi, breaks)
  {
    var i := lo;
    while i < hi
      invariant lo <= i && (i <= hi || i == lo)
      invariant FirstIndex(text, i, hi, breaks) == FirstIndex(text, lo, hi, breaks)
      decreases hi - i
    {
      if text[i] in breaks {
        return Some(i);
      }
      i := i + 1;
    }
    return None;
  }

  /** The length split of either branch. */
  method LengthSplit(text: string, ratio: real, breaks: seq<char>, after: bool) returns (parts: seq<string>)
    ensures parts == CutAt(text, LengthCut(text, ratio, breaks, after))
  {
    var bestSplit := SplitPoint(text, ratio);
    var found := ScanForBreak(text, WindowLo(text, ratio), WindowHi(text, ratio), breaks);
    if found.Some? {
      bestSplit := if after then found.value + 1 else found.value;
    }
    assert bestSplit == LengthCut(text, ratio, breaks, after);
    parts := [Strip(Before(text, bestSplit)), Strip(From(text, bestSplit))];
  }

  /** The accumulation loop of the Latin branch. */
  method CollectLatinParts(text: string, sep: string) returns (parts: seq<string>)
    requires sep != []
    ensures parts == LatinParts(text, sep)
  {
    var pieces := Split(text, sep);
    var mark := Strip(sep);
    parts := [];
    var current: string := [];
    for i := 0 to |pieces|
      invariant (parts, current) == LatinState(pieces[..i], mark)
    {
      LatinTurn(pieces, i, mark);
      if current != [] {
        parts := parts + [current + mark];
        current := Strip(pieces[i]);
      } else {
        current := Strip(pieces[i]);
      }
    }
    PrefixAll(pieces);
    if current != [] {
      parts := parts + [current];
    }
  }

  /** One turn of the Latin loop, on the state of the pieces read so far. */
  lemma LatinTurn(pieces: seq<string>, i: nat, mark: string)
    requires i < |pieces|
    ensures LatinState(pieces[..i + 1], mark) ==
      var (parts, current) := LatinState(pieces[..i], mark);
      if current != [] then (parts + [current + mark], Strip(pieces[i])) else (parts, Strip(pieces[i]))
  {
    PrefixSnoc(pieces, i + 1);
  }

  /** The separator loop of the Latin branch. */
  method TryLatinSeparators(text: string, ratio: real) returns (r: Option<seq<string>>)
    ensures r == LatinSplit(text, ratio, LatinSeps)
  {
    for k := 0 to |LatinSeps|
      invariant LatinSplit(text, ratio, LatinSeps[k..]) == LatinSplit(text, ratio, LatinSeps)
    {
      assert LatinSeps[k..][1..] == LatinSeps[k + 1..];
      var sep := LatinSeps[k];
      if Contains(text, sep) {
        var parts := CollectLatinParts(text, sep);
        if |parts| == 2 {
          return Some(parts);
        } else if |parts| > 2 {
          var mergePoint := MergePoint(|parts|, ratio);
          return Some([JoinSpace(Before(parts, mergePoint)), JoinSpace(From(parts, mergePoint))]);
        }
      }
    }
    return None;
  }

  /** The two-sentence case once the ratio is known. */
  method SplitInTwo(text: string, ratio: real, language: string) returns (r: seq<string>)
    ensures r == TwoWay(text, ratio, language)
  {
    if language == "ja" || language == "zh" {
      var periods := PeriodSplit(text, ratio);
      if periods.Some? {
        return periods.value;
      }
      r := LengthSplit(text, ratio, JaBreaks, true);
    } else {
      var latin := TryLatinSeparators(text, ratio);
      if latin.Some? {
        return latin.value;
      }
      r := LengthSplit(text, ratio, [' '], false);
    }
  }

  /** The proportional loop for three or more sentences. */
  method SliceProportionally(text: string, n: nat) returns (r: seq<string>)
    ensures r == Proportional(text, n)
  {
    r := [];
    for i := 0 to n
      invariant r == Proportional(text, n)[..i]
    {
      CutOrdered(|text|, i, i + 1, n);
      CutOrdered(|text|, i + 1, n, n);
      var startIdx := (|text| * i) / n;
      var piece;
      if i == n - 1 {
        piece := Strip(text[startIdx..]);
      } else {
        var endIdx := (|text| * (i + 1)) / n;
        piece := Strip(text[startIdx..endIdx]);
      }
      assert piece == Piece(text, n, i);
      ProportionalSnoc(text, n, i, r);
      r := r + [piece];
    }
  }

  /** The two-window case of `manual_split_sentences`, on the two durations. */
  lemma TwoWindows(text: string, originals: seq<Window>, language: string, firstTime: real, secondTime: real)
    requires |originals| == 2
    requires firstTime == originals[0].end - originals[0].start
    requires secondTime == originals[1].end - originals[1].start
    ensures firstTime + secondTime == 0.0 ==> ManualSplit(text, originals, language) == Err(ZeroDivision)
    ensures firstTime + secondTime != 0.0 && |OriginalText(originals[0])| + |OriginalText(originals[1])| == 0 ==>
      ManualSplit(text, originals, language) == Err(ZeroDivision)
    ensures firstTime + secondTime != 0.0 && |OriginalText(originals[0])| + |OriginalText(originals[1])| != 0 ==>
      ManualSplit(text, originals, language) == Ok(TwoWay(text, firstTime / (firstTime + secondTime), language))
  {
  }

  /** `manual_split_sentences`. */
  method ManualSplitSentences(text: string, originals: seq<Window>, language: string)
    returns (r: Result<seq<string>>)
    ensures r == ManualSplit(text, originals, language)
  {
    if |originals| == 1 {
      return Ok([text]);
    }
    if |originals| == 2 {
      var firstTime := originals[0].end - originals[0].start;
      var secondTime := originals[1].end - originals[1].start;
      var totalTime := firstTime + secondTime;
      TwoWindows(text, originals, language, firstTime, secondTime);
      if totalTime == 0.0 {
        return Err(ZeroDivision);
      }
      var firstOrig := OriginalText(originals[0]);
      var secondOrig := OriginalText(originals[1]);
      if |firstOrig| + |secondOrig| == 0 {
        return Err(ZeroDivision);
      }
      var parts := SplitInTwo(text, firstTime / totalTime, language);
      return Ok(parts);
    }
    var parts := SliceProportionally(text, |originals|);
    return Ok(parts);
  }

  // ---------------------------------------------------------------------------
  // Proportional slicing

  /** Slice starts grow with the index, start at 0 and end at the text's end. */
  lemma ProportionalSnoc(text: string, n: nat, i: nat, r: seq<string>)
    requires i < n && r == Proportional(text, n)[..i]
    ensures r + [Piece(text, n, i)] == Proportional(text, n)[..i + 1]
  {
    PrefixSnoc(Proportional(text, n), i + 1);
  }

  lemma CutOrdered(length: nat, i: nat, j: nat, n: nat)
    requires 1 <= n && i <= j <= n
    ensures Cut(length, i, n) <= Cut(length, j, n) <= length
    ensures Cut(length, 0, n) == 0 && Cut(length, n, n) == length
  {
    MulLe(i, j, length);
    assert length * i <= length * j;
    DivMono(length * i, length * j, n);
    MulLe(j, n, length);
    DivMono(length * j, length * n, n);
    DivExact(length * n, n, length);
    DivExact(0, n, 0);
  }

  /** Piece `i` is the stripped slice between cuts `i` and `i + 1`. */
  lemma PieceSlice(text: string, n: nat, i: nat)
    requires i < n
    ensures Cut(|text|, i, n) <= Cut(|text|, i + 1, n) <= |text|
    ensures Piece(text, n, i) == Strip(text[Cut(|text|, i, n)..Cut(|text|, i + 1, n)])
  {
    CutOrdered(|text|, i, i + 1, n);
    CutOrdered(|text|, i + 1, n, n);
    var a := Cut(|text|, i, n);
    var b := Cut(|text|, i + 1, n);
    if i == n - 1 {
      assert b == |text|;
      assert text[a..] == text[a..b];
    }
  }

  /** The first `m` pieces keep the non-blank characters of the text up to cut `m`. */
  lemma {:induction false} ProportionalPrefix(text: string, n: nat, m: nat)
    requires 1 <= n && m <= n
    ensures Cut(|text|, m, n) <= |text|
    ensures Squeeze(Concat(Proportional(text, n)[..m])) == Squeeze(text[..Cut(|text|, m, n)])
  {
    CutOrdered(|text|, m, n, n);
    var r := Proportional(text, n);
    if m > 0 {
      ProportionalPrefix(text, n, m - 1);
      PrefixStep(text, n, m);
    } else {
      assert r[..0] == [];
      assert text[..0] == [];
    }
  }

  lemma PrefixStep(text: string, n: nat, m: nat)
    requires 1 <= n && 1 <= m <= n
    requires Cut(|text|, m - 1, n) <= |text|
    requires Squeeze(Concat(Proportional(text, n)[..m - 1])) == Squeeze(text[..Cut(|text|, m - 1, n)])
    ensures Cut(|text|, m, n) <= |text|
    ensures Squeeze(Concat(Proportional(text, n)[..m])) == Squeeze(text[..Cut(|text|, m, n)])
  {
    PieceSlice(text, n, m - 1);
    PrefixStepAt(Proportional(text, n), m, text, Cut(|text|, m - 1, n), Cut(|text|, m, n));
  }

  lemma PrefixStepAt(r: seq<string>, m: nat, text: string, a: nat, b: nat)
    requires 1 <= m <= |r| && a <= b <= |text| && r[m - 1] == Strip(text[a..b])
    requires Squeeze(Concat(r[..m - 1])) == Squeeze(text[..a])
    ensures Squeeze(Concat(r[..m])) == Squeeze(text[..b])
  {
    PrefixSnoc(r, m);
    SqueezeStep(r[..m - 1], r[m - 1], text, a, b);
  }

  /** Appending the stripped slice `text[a..b]` extends a prefix's non-blank characters from `a` to `b`. */
  lemma SqueezeStep(prev: seq<string>, last: string, text: string, a: nat, b: nat)
    requires a <= b <= |text| && last == Strip(text[a..b])
    requires Squeeze(Concat(prev)) == Squeeze(text[..a])
    ensures Squeeze(Concat(prev + [last])) == Squeeze(text[..b])
  {
    assert Squeeze(Concat(prev + [last])) == Squeeze(Concat(prev)) + Squeeze(last) by {
      ConcatSnoc(prev, last);
      SqueezeAppend(Concat(prev), last);
    }
    StripSqueeze(text[a..b]);
    assert Squeeze(text[..b]) == Squeeze(text[..a]) + Squeeze(text[a..b]) by {
      assert text[..b] == text[..a] + text[a..b];
      SqueezeAppend(text[..a], text[a..b]);
    }
  }

  /** For three or more sentences (and for none) the result has one piece per original sentence,
      each the stripped slice between consecutive proportional cuts, the cuts running from the start
      to the end of the text, and together the pieces keep every non-blank character of the text. */
  lemma ProportionalKeepsText(text: string, n: nat)
    requires n >= 1
    ensures |Proportional(text, n)| == n
    ensures Cut(|text|, 0, n) == 0 && Cut(|text|, n, n) == |text|
    ensures forall i :: 0 <= i < n ==> Proportional(text, n)[i] == Piece(text, n, i)
    ensures Squeeze(Concat(Proportional(text, n))) == Squeeze(text)
  {
    CutOrdered(|text|, 0, n, n);
    ProportionalPrefix(text, n, n);
    assert Proportional(text, n)[..n] == Proportional(text, n);
    assert text[..|text|] == text;
  }

  // ---------------------------------------------------------------------------
  // Properties of the whole function

  /** Whatever the route, a returned list has one sentence per original sentence; only the
      two-sentence case can raise, and one original sentence gets the translation whole. */
  lemma ManualSplitCount(text: string, originals: seq<Window>, language: string)
    ensures ManualSplit(text, originals, language).Ok? ==> |ManualSplit(text, originals, language).value| == |originals|
    ensures |originals| != 2 ==> ManualSplit(text, originals, language).Ok?
    ensures |originals| == 1 ==> ManualSplit(text, originals, language) == Ok([text])
  {
    if |originals| == 2 {
      ManualSplitTwo(text, originals, language);
    }
  }

  /** Two original sentences: a zero total duration, or two empty original texts, raise a
      division by zero, and otherwise every route returns exactly two strings. */
  lemma ManualSplitTwo(text: string, originals: seq<Window>, language: string)
    requires |originals| == 2
    ensures ManualSplit(text, originals, language).Err?
      <==> (originals[0].end - originals[0].start) + (originals[1].end - originals[1].start) == 0.0
           || |OriginalText(originals[0])| + |OriginalText(originals[1])| == 0
    ensures ManualSplit(text, originals, language).Err? ==> ManualSplit(text, originals, language).error == ZeroDivision
    ensures ManualSplit(text, originals, language).Ok? ==> |ManualSplit(text, originals, language).value| == 2
  {
    var r := FirstRatio(originals[0], originals[1]);
    if r.Ok? {
      if language == "ja" || language == "zh" {
        if PeriodSplit(text, r.value).Some? {
          PeriodSplitSound(text, r.value);
        }
      } else {
        LatinSplitPair(text, r.value, LatinSeps);
      }
    }
  }

  /** Any number of original sentences other than one or two: one piece each, no error. */
  lemma ManualSplitMany(text: string, originals: seq<Window>, language: string)
    requires |originals| != 1 && |originals| != 2
    ensures ManualSplit(text, originals, language) == Ok(Proportional(text, |originals|))
    ensures |ManualSplit(text, originals, language).value| == |originals|
  {
  }

  // ---------------------------------------------------------------------------
  // Properties of the two-sentence routes

  lemma {:induction false} ConcatEndsWith(parts: seq<string>, c: char)
    requires parts != [] && forall i :: 0 <= i < |parts| ==> EndsWith(parts[i], c)
    ensures EndsWith(Concat(parts), c)
  {
    if |parts| == 1 {
      ConcatOne(parts[0]);
    } else {
      ConcatEndsWith(parts[1..], c);
      assert Concat(parts) == parts[0] + Concat(parts[1..]);
    }
  }

  /** An accepted period split is a pair that keeps the text's non-blank characters; its first
      part ends with `。`, and so does its second unless the merge point took every part. */
  lemma PeriodSplitSound(text: string, ratio: real)
    requires PeriodSplit(text, ratio).Some?
    ensures var r := PeriodSplit(text, ratio).value;
      |r| == 2 && Squeeze(r[0] + r[1]) == Squeeze(text)
      && EndsWith(r[0], '。') && (r[1] == [] || EndsWith(r[1], '。'))
  {
    var parts := Suffixed(StripAll(Split(text, "。")), '。');
    var r := PeriodSplit(text, ratio).value;
    assert forall i :: 0 <= i < |parts| ==> EndsWith(parts[i], '。');
    if |parts| == 2 {
      assert Concat(parts) == parts[0] + Concat(parts[1..]);
      assert Concat(parts[1..]) == parts[1] + Concat(parts[2..]);
      assert Concat(parts) == r[0] + r[1];
    } else {
      var mp := MergePoint(|parts|, ratio);
      var head := Before(parts, mp);
      var tail := From(parts, mp);
      assert head != [];
      assert forall i :: 0 <= i < |head| ==> head[i] == parts[i];
      ConcatEndsWith(head, '。');
      if tail != [] {
        assert forall i :: 0 <= i < |tail| ==> tail[i] == parts[SliceIndex(mp, |parts|) + i];
        ConcatEndsWith(tail, '。');
      }
    }
  }

  /** A period split is accepted only when the text's last non-blank character is `。` (every
      part gets one); otherwise control falls through to the length split. */
  lemma PeriodSplitEndsText(text: string, ratio: real)
    requires PeriodSplit(text, ratio).Some?
    ensures Squeeze(text) != [] && Squeeze(text)[|Squeeze(text)| - 1] == '。'
  {
    PeriodSplitSound(text, ratio);
    var r := PeriodSplit(text, ratio).value;
    SqueezeAppend(r[0], r[1]);
    if r[1] != [] {
      SqueezeEnds(r[1], '。');
    } else {
      SqueezeEnds(r[0], '。');
    }
  }

  lemma {:induction false} SqueezeEnds(s: string, c: char)
    requires EndsWith(s, c) && !IsSpace(c)
    ensures Squeeze(s) != [] && Squeeze(s)[|Squeeze(s)| - 1] == c
  {
    assert s == s[..|s| - 1] + [c];
    SqueezeAppend(s[..|s| - 1], [c]);
  }

  /** The length split cuts just after (Japanese, Chinese) or at (other languages) the first break
      character scanning the window left to right, and at the split point when the window has none;
      the two stripped halves keep every non-blank character of the text. */
  lemma LengthSplitKeepsText(text: string, ratio: real, breaks: seq<char>, after: bool)
    ensures var lo := WindowLo(text, ratio);
      var hi := WindowHi(text, ratio);
      var cut := LengthCut(text, ratio, breaks, after);
      (forall j :: lo <= j < hi && text[j] in breaks ==> (if after then cut - 1 else cut) <= j)
      && ((exists j :: lo <= j < hi && text[j] in breaks) ==>
            lo <= (if after then cut - 1 else cut) < hi && text[if after then cut - 1 else cut] in breaks)
      && ((forall j :: lo <= j < hi ==> text[j] !in breaks) ==> cut == SplitPoint(text, ratio))
    ensures |CutAt(text, LengthCut(text, ratio, breaks, after))| == 2
    ensures Squeeze(CutAt(text, LengthCut(text, ratio, breaks, after))[0]
                    + CutAt(text, LengthCut(text, ratio, breaks, after))[1]) == Squeeze(text)
  {
    CutAtKeepsText(text, LengthCut(text, ratio, breaks, after));
  }

  /** Cutting a text in two and stripping both sides keeps its non-blank characters. */
  lemma CutAtKeepsText(text: string, cut: int)
    ensures |CutAt(text, cut)| == 2
    ensures Squeeze(CutAt(text, cut)[0] + CutAt(text, cut)[1]) == Squeeze(text)
  {
    var k := SliceIndex(cut, |text|);
    var a, b := text[..k], text[k..];
    assert CutAt(text, cut) == [Strip(a), Strip(b)];
    assert Squeeze(Strip(a) + Strip(b)) == Squeeze(a) + Squeeze(b) by {
      StripSqueeze(a);
      StripSqueeze(b);
      SqueezeAppend(Strip(a), Strip(b));
    }
    assert Squeeze(text) == Squeeze(a) + Squeeze(b) by {
      assert text == a + b;
      SqueezeAppend(a, b);
    }
  }

  /** When the Latin branch decides, it returns exactly two strings: the two parts as they are, or
      the parts space-joined on either side of the merge point. */
  lemma {:induction false} LatinSplitPair(text: string, ratio: real, seps: seq<string>)
    requires forall k :: 0 <= k < |seps| ==> seps[k] != []
    ensures LatinSplit(text, ratio, seps).Some? ==> |LatinSplit(text, ratio, seps).value| == 2
  {
    if seps != [] && !(Contains(text, seps[0]) && |LatinParts(text, seps[0])| >= 2) {
      LatinSplitPair(text, ratio, seps[1..]);
    }
  }

  /** When no piece between separators is blank, the Latin parts keep the text's non-blank
      characters: each separator's mark survives on the part before it. */
  lemma {:induction false} LatinStateKeepsText(pieces: seq<string>, sep: string)
    requires pieces != [] && forall i :: 0 <= i < |pieces| ==> !AllSpace(pieces[i])
    ensures LatinState(pieces, Strip(sep)).1 == Strip(pieces[|pieces| - 1])
    ensures Squeeze(Concat(LatinState(pieces, Strip(sep)).0) + LatinState(pieces, Strip(sep)).1)
      == Squeeze(Join(sep, pieces))
  {
    var n := |pieces|;
    var prefix, last := pieces[..n - 1], pieces[n - 1];
    PrefixSnoc(pieces, n);
    assert pieces[..n] == pieces;
    LatinStateSnoc(prefix, last, Strip(sep));
    if n > 1 {
      assert forall i :: 0 <= i < |prefix| ==> !AllSpace(prefix[i]);
      LatinStateKeepsText(prefix, sep);
      StripShape(prefix[n - 2]);
      LatinSnocKeepsText(prefix, last, sep);
    } else {
      LatinSingleKeepsText(last, sep);
      assert pieces == [last];
    }
  }

  lemma LatinSingleKeepsText(last: string, sep: string)
    ensures Squeeze(Concat(LatinState([last], Strip(sep)).0) + LatinState([last], Strip(sep)).1)
      == Squeeze(Join(sep, [last]))
  {
    LatinStateSnoc([], last, Strip(sep));
    assert [] + [last] == [last];
    StripSqueeze(last);
    assert Concat<char>([]) + Strip(last) == Strip(last);
  }

  /** The Latin loop's step for a further piece, when a part is pending. */
  lemma LatinSnocKeepsText(prefix: seq<string>, last: string, sep: string)
    requires prefix != [] && LatinState(prefix, Strip(sep)).1 != []
    requires Squeeze(Concat(LatinState(prefix, Strip(sep)).0) + LatinState(prefix, Strip(sep)).1)
      == Squeeze(Join(sep, prefix))
    ensures Squeeze(Concat(LatinState(prefix + [last], Strip(sep)).0) + LatinState(prefix + [last], Strip(sep)).1)
      == Squeeze(Join(sep, prefix + [last]))
  {
    var mark := Strip(sep);
    var (parts, current) := LatinState(prefix, mark);
    LatinStateSnoc(prefix, last, mark);
    StripSqueeze(sep);
    JoinSnoc(sep, prefix, last);
    LatinStep(parts, current, mark, Join(sep, prefix), sep, last);
  }

  /** One step of the Latin loop keeps the non-blank characters. */
  lemma LatinStep(parts: seq<string>, current: string, mark: string, joined: string, sep: string, last: string)
    requires Squeeze(Concat(parts) + current) == Squeeze(joined)
    requires Squeeze(mark) == Squeeze(sep)
    ensures Squeeze(Concat(parts + [current + mark]) + Strip(last)) == Squeeze(joined + sep + last)
  {
    var x := Concat(parts) + current;
    StripSqueeze(last);
    LatinStepShape(parts, current, mark, Strip(last));
    SqueezeThree(x, mark, Strip(last), joined, sep, last);
    assert joined + sep + last == joined + (sep + last);
  }

  lemma LatinStepShape(parts: seq<string>, current: string, mark: string, rest: string)
    ensures Concat(parts + [current + mark]) + rest == Concat(parts) + current + (mark + rest)
  {
    ConcatSnoc(parts, current + mark);
  }

  lemma SqueezeThree(x: string, mark: string, sl: string, joined: string, sep: string, last: string)
    requires Squeeze(x) == Squeeze(joined)
    requires Squeeze(mark) == Squeeze(sep)
    requires Squeeze(sl) == Squeeze(last)
    ensures Squeeze(x + (mark + sl)) == Squeeze(joined + (sep + last))
  {
    SqueezeAppend(x, mark + sl);
    SqueezeAppend(mark, sl);
    SqueezeAppend(sep, last);
    SqueezeAppend(joined, sep + last);
  }

  /** One more piece for the Latin loop. */
  lemma LatinStateSnoc(prefix: seq<string>, piece: string, mark: string)
    ensures LatinState(prefix + [piece], mark).1 == Strip(piece)
    ensures LatinState(prefix + [piece], mark).0 ==
      if LatinState(prefix, mark).1 != [] then LatinState(prefix, mark).0 + [LatinState(prefix, mark).1 + mark]
      else LatinState(prefix, mark).0
  {
    assert (prefix + [piece])[..|prefix|] == prefix;
  }

  /** A blank piece between two separators loses a separator's mark, and the Latin branch still
      returns the result: `"Hi. . Go"` gives `["Hi.", "Go"]`. */
  lemma LatinSplitDropsMark()
    ensures LatinParts("Hi. . Go", ". ") == ["Hi.", "Go"]
    ensures Squeeze(Concat(LatinParts("Hi. . Go", ". "))) != Squeeze("Hi. . Go")
  {
    LatinPartsExample();
    ConcatExample();
    SqueezeExample();
    SqueezeExample2();
    assert |"Hi.Go"| != |"Hi..Go"|;
  }

  // The lemmas from here to the end of the module serve only LatinSplitDropsMark: they
  // evaluate its one literal step by step and model no further source behaviour.

  /** A character that does not start a separator joins the first piece. */
  lemma SplitPlain(rest: string, sep: string, c: char)
    requires sep != [] && |sep| <= |rest| + 1 && c != sep[0]
    ensures Split([c] + rest, sep) == [[c] + Split(rest, sep)[0]] + Split(rest, sep)[1..]
  {
    assert ([c] + rest)[..|sep|][0] == c;
    assert ([c] + rest)[1..] == rest;
  }

  /** The pieces of the example text. */
  lemma SplitExample()
    ensures Split("Hi. . Go", ". ") == ["Hi", "", "Go"]
  {
    SplitExampleText();
    var go := Split("Go", ". ");
    assert go == ["Go"] by {
      assert Split("o", ". ") == ["o"];
      SplitPlain("o", ". ", 'G');
    }
    var three := Split(". . Go", ". ");
    assert three == ["", "", "Go"] by {
      SplitAtSep("Go", ". ");
      SplitAtSep(". Go", ". ");
    }
    SplitPlain(". . Go", ". ", 'i');
    SplitPlain("i. . Go", ". ", 'H');
  }

  lemma SplitExampleText()
    ensures ['G'] + "o" == "Go" && ". " + "Go" == ". Go" && ". " + ". Go" == ". . Go"
    ensures ['i'] + ". . Go" == "i. . Go" && ['H'] + "i. . Go" == "Hi. . Go"
    ensures ['i'] + "" == "i" && ['H'] + "i" == "Hi"
  {
  }

  /** A separator at the front gives an empty first piece. */
  lemma SplitAtSep(rest: string, sep: string)
    requires sep != []
    ensures Split(sep + rest, sep) == [[]] + Split(rest, sep)
  {
    assert (sep + rest)[..|sep|] == sep;
    assert (sep + rest)[|sep|..] == rest;
  }

  lemma StripExample()
    ensures Strip("Hi") == "Hi" && Strip("") == [] && Strip("Go") == "Go" && Strip(". ") == "."
  {
    StrippedStrip("Hi");
    StrippedStrip("Go");
    assert ". " == "." + " ";
    assert TrimEnd(". ") == ".";
  }

  lemma SqueezeExample()
    ensures Squeeze("Hi.Go") == "Hi.Go"
  {
    SqueezeNoSpace("Hi.Go");
  }

  lemma SqueezeExample2()
    ensures Squeeze("Hi. . Go") == "Hi..Go"
  {
    ExampleText();
    SqueezeAppend("Hi." + " .", " Go");
    SqueezeAppend("Hi.", " .");
    SqueezePieces();
  }

  lemma ExampleText()
    ensures "Hi. . Go" == "Hi." + " ." + " Go"
    ensures "Hi." + "." + "Go" == "Hi..Go"
  {
  }

  lemma SqueezePieces()
    ensures Squeeze("Hi.") == "Hi." && Squeeze(" .") == "." && Squeeze(" Go") == "Go"
  {
    BlankThenWord(".");
    BlankThenWord("Go");
    SqueezeNoSpace("Hi.");
  }

  lemma BlankThenWord(w: string)
    requires NoSpace(w)
    ensures Squeeze([' '] + w) == w
  {
    SqueezeCons(' ', w);
    SqueezeNoSpace(w);
  }

  lemma LatinPartsExample()
    ensures LatinParts("Hi. . Go", ". ") == ["Hi.", "Go"]
  {
    SplitExample();
    StripExample();
    LatinStateExample();
  }

  lemma ConcatExample()
    ensures Concat(["Hi.", "Go"]) == "Hi.Go"
  {
    ConcatOne("Go");
    assert ["Hi.", "Go"][1..] == ["Go"];
  }

  lemma LatinStateExample()
    ensures LatinState(["Hi", "", "Go"], ".") == (["Hi."], "Go")
  {
    var two: seq<string> := ["Hi", ""];
    LatinStateExampleTwo();
    StripExample();
    LatinStateSnoc(two, "Go", ".");
    assert two + ["Go"] == ["Hi", "", "Go"];
  }

  lemma LatinStateExampleTwo()
    ensures LatinState(["Hi", ""], ".") == (["Hi."], [])
  {
    var one: seq<string> := ["Hi"];
    LatinStateExampleOne();
    LatinStateSnoc(one, "", ".");
    assert one + [""] == ["Hi", ""];
    assert Strip("") == [];
    assert "Hi" + "." == "Hi.";
    assert [] + ["Hi."] == ["Hi."];
  }

  lemma LatinStateExampleOne()
    ensures LatinState(["Hi"], ".") == ([], "Hi")
  {
    StrippedStrip("Hi");
    LatinStateSnoc([], "Hi", ".");
    assert [] + ["Hi"] == ["Hi"];
  }
}
