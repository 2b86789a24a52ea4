/** Sentence windowing (`extract_sentences` in sentence_utils.py): a timestamped word list is
    cut into sentence windows at words that end a sentence, and each window but the last is
    then stretched into the pause that follows it. */
module SentenceWindows {
  import opened Text

  /** One recognised word with its timestamps in seconds. */
  datatype Word = Word(text: string, start: real, end: real)

  /** A sentence window: its time span and the words it covers. */
  datatype Window = Window(start: real, end: real, words: seq<Word>)

  /** The characters after which a sentence closes: `. ! ? 。 ！ ？`. */
  predicate IsTerminal(c: char) {
    c == '.' || c == '!' || c == '?' || c == '。' || c == '！' || c == '？'
  }

  /** `word.endswith(('.', '!', '?', '。', '！', '？'))`. */
  predicate EndsSentence(w: Word) {
    w.text != [] && IsTerminal(w.text[|w.text| - 1])
  }

  /** No word of `g` ends a sentence. */
  predicate Open(g: seq<Word>) {
    forall k :: 0 <= k < |g| ==> !EndsSentence(g[k])
  }

  /** A word group as the extractor closes it: non-empty, and only its last word may end a sentence. */
  predicate Sentence(g: seq<Word>) {
    g != [] && Open(g[..|g| - 1])
  }

  /** The grouping the extractor must produce: sentences, each but the last closed by a terminal word. */
  predicate SentenceSplit(groups: seq<seq<Word>>) {
    forall i :: 0 <= i < |groups| ==>
      Sentence(groups[i]) && (i < |groups| - 1 ==> EndsSentence(groups[i][|groups[i]| - 1]))
  }

  /** The closed groups and the pending group after reading `words` left to right. */
  function Group(words: seq<Word>): (seq<seq<Word>>, seq<Word>) {
    if words == [] then ([], [])
    else
      var (closed, pending) := Group(words[..|words| - 1]);
      var w := words[|words| - 1];
      if EndsSentence(w) then (closed + [pending + [w]], []) else (closed, pending + [w])
  }

  /** The word groups of the windows: the closed ones, then the pending one if any. */
  function Groups(words: seq<Word>): seq<seq<Word>> {
    var (closed, pending) := Group(words);
    if pending == [] then closed else closed + [pending]
  }

  /** A window before the gap pass: from its first word's start to its last word's end. */
  function RawWindow(g: seq<Word>): Window {
    if g == [] then Window(0.0, 0.0, []) else Window(g[0].start, g[|g| - 1].end, g)
  }

  function RawWindows(groups: seq<seq<Word>>): (r: seq<Window>)
    ensures |r| == |groups|
  {
    seq(|groups|, i requires 0 <= i < |groups| => RawWindow(groups[i]))
  }

  /** The gap rule: a pause longer than 0.2 s after a window is 80 % absorbed by it. */
  function GapFill(end: real, nextStart: real): real {
    var gap := nextStart - end;
    if gap > 0.2 then end + gap * 0.8 else end
  }

  /** The gap pass over a list of windows: only the ends change, and the last one never does. */
  function FillGaps(ws: seq<Window>): (r: seq<Window>)
    ensures |r| == |ws|
  {
    seq(|ws|, i requires 0 <= i < |ws| =>
      if i + 1 < |ws| then ws[i].(end := GapFill(ws[i].end, ws[i + 1].start)) else ws[i])
  }

  /** The windows `extract_sentences(words)` returns. */
  function Extract(words: seq<Word>): seq<Window> {
    FillGaps(RawWindows(Groups(words)))
  }

  function WordsOf(ws: seq<Window>): (r: seq<seq<Word>>)
    ensures |r| == |ws|
  {
    seq(|ws|, i requires 0 <= i < |ws| => ws[i].words)
  }

  /** The end time of a window's last word (its end before the gap pass). */
  function LastEnd(w: Window): real {
    if w.words == [] then w.end else w.words[|w.words| - 1].end
  }

  /** The number of pairs `zip(sentences, windows)` yields: the shorter length. */
  function Paired(sentences: seq<string>, windows: seq<Window>): nat {
    if |sentences| <= |windows| then |sentences| else |windows|
  }

  /** `extract_sentences`: the accumulation loop, then the gap loop, as in the source. */
  method ExtractSentences(words: seq<Word>) returns (windows: seq<Window>)
    ensures windows == Extract(words)
  {
    var sentences := CollectWindows(words);
    windows := ExtendIntoGaps(sentences);
  }

  /** The accumulation loop: a word ending a sentence closes the current window. */
  method CollectWindows(words: seq<Word>) returns (sentences: seq<Window>)
    ensures sentences == RawWindows(Groups(words))
  {
    sentences := [];
    var current := Window(0.0, 0.0, []);
    for i := 0 to |words|
      invariant sentences == RawWindows(Group(words[..i]).0)
      invariant current.words == Group(words[..i]).1
      invariant current.words != [] ==> current.end == current.words[|current.words| - 1].end
    {
      assert words[..i + 1][..i] == words[..i];
      var w := words[i];
      current := current.(words := current.words + [w], end := w.end);
      if EndsSentence(w) {
        current := current.(start := current.words[0].start);
        sentences := sentences + [current];
        current := Window(w.end, w.end, []);
      }
    }
    assert words[..|words|] == words;
    if current.words != [] {
      current := current.(start := current.words[0].start);
      sentences := sentences + [current];
    }
  }

  /** The gap loop: each window but the last absorbs 80 % of a pause longer than 0.2 s. */
  method ExtendIntoGaps(raw: seq<Window>) returns (sentences: seq<Window>)
    ensures sentences == FillGaps(raw)
  {
    sentences := raw;
    var i := 0;
    while i + 1 < |sentences|
      invariant |sentences| == |raw|
      invariant 0 <= i <= |raw|
      invariant forall k :: 0 <= k < |raw| && k < i ==> sentences[k] == FillGaps(raw)[k]
      invariant forall k :: i <= k < |raw| ==> sentences[k] == raw[k]
    {
      var gap := sentences[i + 1].start - sentences[i].end;
      ghost var before := sentences;
      if gap > 0.2 {
        sentences := sentences[i := sentences[i].(end := sentences[i].end + gap * 0.8)];
      }
      GapStep(raw, before, sentences, i);
      i := i + 1;
    }
  }

  /** One round of the gap loop: window `i` gets its final end and the later ones are untouched. */
  lemma GapStep(raw: seq<Window>, before: seq<Window>, after: seq<Window>, i: nat)
    requires |before| == |raw| && i + 1 < |raw|
    requires forall k :: 0 <= k < |raw| && k < i ==> before[k] == FillGaps(raw)[k]
    requires forall k :: i <= k < |raw| ==> before[k] == raw[k]
    requires after == if before[i + 1].start - before[i].end > 0.2
      then before[i := before[i].(end := before[i].end + (before[i + 1].start - before[i].end) * 0.8)]
      else before
    ensures |after| == |raw|
    ensures forall k :: 0 <= k < |raw| && k < i + 1 ==> after[k] == FillGaps(raw)[k]
    ensures forall k :: i + 1 <= k < |raw| ==> after[k] == raw[k]
  {
    assert before[i] == raw[i] && before[i + 1] == raw[i + 1];
  }

  // ---------------------------------------------------------------------------
  // Properties

  /** Every group of `closed` is a sentence ending in a terminal word. */
  predicate AllClosed(closed: seq<seq<Word>>) {
    forall i :: 0 <= i < |closed| ==> Sentence(closed[i]) && EndsSentence(closed[i][|closed[i]| - 1])
  }

  /** The accumulation keeps every word, closes only sentences, and leaves an open pending group. */
  lemma {:induction false} GroupShape(words: seq<Word>)
    ensures Concat(Group(words).0) + Group(words).1 == words
    ensures AllClosed(Group(words).0) && Open(Group(words).1)
  {
    if words != [] {
      var prefix := words[..|words| - 1];
      var w := words[|words| - 1];
      GroupShape(prefix);
      var (closed, pending) := Group(prefix);
      PrefixSnoc(words, |words|);
      PrefixAll(words);
      if EndsSentence(w) {
        CloseGroup(closed, pending, w, prefix);
      } else {
        ExtendGroup(closed, pending, w, prefix);
      }
    }
  }

  /** A terminal word closes the pending group. */
  lemma CloseGroup(closed: seq<seq<Word>>, pending: seq<Word>, w: Word, prefix: seq<Word>)
    requires Concat(closed) + pending == prefix && AllClosed(closed) && Open(pending)
    requires EndsSentence(w)
    ensures Concat(closed + [pending + [w]]) + [] == prefix + [w]
    ensures AllClosed(closed + [pending + [w]])
  {
    var g := pending + [w];
    ConcatSnoc(closed, g);
    assert g[..|g| - 1] == pending;
    var r := closed + [g];
    forall i | 0 <= i < |r| ensures Sentence(r[i]) && EndsSentence(r[i][|r[i]| - 1]) {
      if i < |closed| { assert r[i] == closed[i]; }
    }
  }

  /** Any other word joins the pending group. */
  lemma ExtendGroup(closed: seq<seq<Word>>, pending: seq<Word>, w: Word, prefix: seq<Word>)
    requires Concat(closed) + pending == prefix && Open(pending)
    requires !EndsSentence(w)
    ensures Concat(closed) + (pending + [w]) == prefix + [w]
    ensures Open(pending + [w])
  {
    forall k | 0 <= k < |pending| + 1 ensures !EndsSentence((pending + [w])[k]) {
      if k < |pending| { assert (pending + [w])[k] == pending[k]; }
    }
  }

  /** The windows' word lists are exactly the groups of the sentence rule. */
  lemma GroupsShape(words: seq<Word>)
    ensures Concat(Groups(words)) == words
    ensures SentenceSplit(Groups(words))
  {
    GroupShape(words);
    var (closed, pending) := Group(words);
    if pending != [] {
      ConcatSnoc(closed, pending);
    } else {
      assert Concat(closed) + [] == Concat(closed);
    }
  }

  /** The extractor partitions its input: the windows' words, concatenated, are the input words,
      every window holds at least one word, and no words means no windows. */
  lemma ExtractPartitions(words: seq<Word>)
    ensures Concat(WordsOf(Extract(words))) == words
    ensures forall i :: 0 <= i < |Extract(words)| ==> Extract(words)[i].words != []
    ensures words == [] <==> Extract(words) == []
  {
    GroupsShape(words);
    assert WordsOf(Extract(words)) == Groups(words);
  }

  /** No words means no windows, and some words mean some windows. */
  lemma ExtractEmpty(words: seq<Word>)
    ensures Extract(words) == [] <==> words == []
  {
    ExtractPartitions(words);
  }

  /** A window closes exactly at a word ending in `. ! ? 。 ！ ？`: every window but the last
      ends with such a word, and no earlier word of a window does. */
  lemma ExtractClosesAtTerminals(words: seq<Word>)
    ensures forall i :: 0 <= i < |Extract(words)| ==> Sentence(Extract(words)[i].words)
    ensures forall i :: 0 <= i < |Extract(words)| - 1 ==>
      Extract(words)[i].words != [] && EndsSentence(Extract(words)[i].words[|Extract(words)[i].words| - 1])
  {
    GroupsShape(words);
    assert WordsOf(Extract(words)) == Groups(words);
  }

  /** Each window starts at its first word; its end is its last word's end, moved by the gap
      rule toward the next window's start, and the last window is never extended. */
  lemma ExtractTiming(words: seq<Word>)
    ensures forall i :: 0 <= i < |Extract(words)| ==>
      Extract(words)[i].words != [] && Extract(words)[i].start == Extract(words)[i].words[0].start
    ensures forall i :: 0 <= i < |Extract(words)| ==>
      Extract(words)[i].end ==
        if i + 1 < |Extract(words)| then GapFill(LastEnd(Extract(words)[i]), Extract(words)[i + 1].start)
        else LastEnd(Extract(words)[i])
  {
    GroupsShape(words);
    var gs := Groups(words);
    forall i | 0 <= i < |gs| ensures gs[i] != [] {
      assert Sentence(gs[i]);
    }
  }

  /** The gap rule only moves an end forward, and a moved end stays strictly before the next start. */
  lemma GapFillBounds(end: real, nextStart: real)
    ensures GapFill(end, nextStart) >= end
    ensures GapFill(end, nextStart) != end <==> nextStart - end > 0.2
    ensures GapFill(end, nextStart) != end ==> GapFill(end, nextStart) < nextStart
    ensures GapFill(end, nextStart) != end ==> GapFill(end, nextStart) == nextStart - (nextStart - end) * 0.2
  {
  }

  /** Words in time order (each ends no later than the next starts). */
  predicate Chronological(words: seq<Word>) {
    forall k :: 0 <= k < |words| - 1 ==> words[k].end <= words[k + 1].start
  }

  lemma {:induction false} GroupBoundaryInOrder(gs: seq<seq<Word>>, i: nat)
    requires i + 1 < |gs| && forall j :: 0 <= j < |gs| ==> gs[j] != []
    requires Chronological(Concat(gs))
    ensures gs[i][|gs[i]| - 1].end <= gs[i + 1][0].start
  {
    var rest := Concat(gs[1..]);
    assert Concat(gs) == gs[0] + rest;
    if i == 0 {
      assert rest == gs[1] + Concat(gs[2..]);
      var k := |gs[0]| - 1;
      assert Concat(gs)[k] == gs[0][k];
      assert Concat(gs)[k + 1] == gs[1][0];
    } else {
      assert Chronological(rest) by {
        forall k | 0 <= k < |rest| - 1 ensures rest[k].end <= rest[k + 1].start {
          assert rest[k] == Concat(gs)[|gs[0]| + k];
          assert rest[k + 1] == Concat(gs)[|gs[0]| + k + 1];
        }
      }
      GroupBoundaryInOrder(gs[1..], i - 1);
    }
  }

  /** For words in time order the windows never overlap after the gap pass:
      each window ends no later than the next one starts. */
  lemma ExtractMonotone(words: seq<Word>)
    requires Chronological(words)
    ensures forall i :: 0 <= i < |Extract(words)| - 1 ==> Extract(words)[i].end <= Extract(words)[i + 1].start
  {
    var ws := Extract(words);
    var gs := Groups(words);
    GroupsShape(words);
    ExtractTiming(words);
    assert WordsOf(ws) == gs;
    forall i | 0 <= i < |ws| - 1 ensures ws[i].end <= ws[i + 1].start {
      forall j | 0 <= j < |gs| ensures gs[j] != [] { assert Sentence(gs[j]); }
      GroupBoundaryInOrder(gs, i);
      assert LastEnd(ws[i]) <= ws[i + 1].start;
      GapFillBounds(LastEnd(ws[i]), ws[i + 1].start);
    }
  }
}
