/** The post-processing of the language model's split (`ai_split_sentences` in ai_split.py): the
    reply is parsed into one sentence per line, checked against the translation, merged down to the
    number of original sentences when it has too many, and replaced by the rule-based split
    whenever it cannot be used. */
module AiSplit {
  import opened Text
  import opened Wrappers
  import opened SentenceWindows
  import opened ManualSplit

  /** The label the prompt asks the model to put before each sentence. */
  const Label: string := "句子"

  /** `line.split(':', 1)[1]`: what follows the first occurrence of `c`. */
  function AfterFirst(s: string, c: char): string {
    if s == [] then [] else if s[0] == c then s[1..] else AfterFirst(s[1..], c)
  }

  /** The sentence one line of the reply contributes, if any: blank lines none; a line with a colon
      the stripped text after its first colon; a line longer than the bare label that starts with it
      the stripped rest; any other line itself (all after the line is stripped). */
  function ParseLine(line: string): Option<string> {
    var l := Strip(line);
    if l == [] then None
    else if ':' in l then Some(Strip(AfterFirst(l, ':')))
    else if StartsWith(l, Label) && |l| > 2 then Some(Strip(l[2..]))
    else Some(l)
  }

  /** The sentences read from a list of lines, in order. */
  function ParseLines(lines: seq<string>): seq<string> {
    if lines == [] then []
    else
      ParseLines(lines[..|lines| - 1])
      + match ParseLine(lines[|lines| - 1]) case Some(x) => [x] case None => []
  }

  /** The sentences read from the model's reply: its stripped text, line by line. */
  function ParseReply(reply: string): seq<string> {
    ParseLines(Split(Strip(reply), "\n"))
  }

  /** The combined length of the adjacent pair starting at `i`. */
  function PairLength(s: seq<string>, i: nat): nat
    requires i + 1 < |s|
  {
    |s[i]| + |s[i + 1]|
  }

  /** The leftmost adjacent pair of least combined length among the first `k` pairs. */
  function ShortestPair(s: seq<string>, k: nat): (r: nat)
    requires 1 <= k < |s|
    ensures r < k
    ensures forall i :: 0 <= i < k ==> PairLength(s, r) <= PairLength(s, i)
    ensures forall i :: 0 <= i < r ==> PairLength(s, r) < PairLength(s, i)
  {
    if k == 1 then 0
    else
      var j := ShortestPair(s, k - 1);
      if PairLength(s, k - 1) < PairLength(s, j) then k - 1 else j
  }

  /** The list with the pair at `i` replaced by the two sentences joined with a space. */
  function MergeAt(s: seq<string>, i: nat): (r: seq<string>)
    requires i + 1 < |s|
    ensures |r| == |s| - 1
  {
    s[..i] + [s[i] + " " + s[i + 1]] + s[i + 2..]
  }

  /** The merge loop: join the shortest adjacent pair until `n` sentences remain. */
  function MergeDown(s: seq<string>, n: nat): (r: seq<string>)
    requires 1 <= n <= |s|
    decreases |s|
  {
    if |s| == n then s else MergeDown(MergeAt(s, ShortestPair(s, |s| - 1)), n)
  }

  /** The list `ai_split_sentences` returns, or the error it raises, given the model's reply
      (`None` when creating the client or calling the model fails). */
  function AiSplit(text: string, originals: seq<Window>, language: string, reply: Option<string>)
    : Result<seq<string>>
  {
    match reply
    case None => ManualSplit.ManualSplit(text, originals, language)
    case Some(r) =>
      var parsed := ParseReply(r);
      if Squeeze(Concat(parsed)) != Squeeze(text) then ManualSplit.ManualSplit(text, originals, language)
      else if |parsed| == |originals| then Ok(parsed)
      else if |parsed| > |originals| && |originals| >= 1 then Ok(MergeDown(parsed, |originals|))
      else ManualSplit.ManualSplit(text, originals, language)
  }

  // ---------------------------------------------------------------------------
  // The source's loops

  /** The reply-parsing loop. */
  method ParseReplyLines(reply: string) returns (sentences: seq<string>)
    ensures sentences == ParseReply(reply)
  {
    var lines := Split(Strip(reply), "\n");
    sentences := [];
    for i := 0 to |lines|
      invariant sentences == ParseLines(lines[..i])
    {
      assert lines[..i + 1][..i] == lines[..i];
      var line := Strip(lines[i]);
      if line == [] {
        continue;
      }
      if ':' in line {
        sentences := sentences + [Strip(AfterFirst(line, ':'))];
      } else if StartsWith(line, Label) && |line| > 2 {
        sentences := sentences + [Strip(line[2..])];
      } else {
        sentences := sentences + [line];
      }
    }
    assert lines[..|lines|] == lines;
  }

  /** The search for the shortest adjacent pair; `None` plays the part of `float('inf')`. */
  method FindShortestPair(s: seq<string>) returns (minIndex: nat)
    requires |s| >= 2
    ensures minIndex == ShortestPair(s, |s| - 1)
  {
    var minLength: Option<nat> := None;
    minIndex := 0;
    for i := 0 to |s| - 1
      invariant i == 0 ==> minLength.None? && minIndex == 0
      invariant i > 0 ==> minIndex == ShortestPair(s, i) && minLength == Some(PairLength(s, minIndex))
    {
      var combined := |s[i]| + |s[i + 1]|;
      if minLength.None? || combined < minLength.value {
        minLength := Some(combined);
        minIndex := i;
      }
    }
  }

  /** The merge loop. */
  method MergeShortestPairs(s: seq<string>, n: nat) returns (r: seq<string>)
    requires 1 <= n <= |s|
    ensures r == MergeDown(s, n)
  {
    r := s;
    while |r| > n
      invariant n <= |r| && MergeDown(r, n) == MergeDown(s, n)
      decreases |r|
    {
      var minIndex := FindShortestPair(r);
      ghost var before := r;
      r := r[minIndex := r[minIndex] + " " + r[minIndex + 1]];
      r := r[..minIndex + 1] + r[minIndex + 2..];
      assert r == MergeAt(before, minIndex);
    }
  }

  /** `ai_split_sentences` once the model has replied (or failed). */
  method AiSplitSentences(text: string, originals: seq<Window>, language: string, reply: Option<string>)
    returns (r: Result<seq<string>>)
    ensures r == AiSplit(text, originals, language, reply)
  {
    if reply.None? {
      r := ManualSplitSentences(text, originals, language);
      return;
    }
    var splitSentences := ParseReplyLines(reply.value);
    if Squeeze(Concat(splitSentences)) != Squeeze(text) {
      r := ManualSplitSentences(text, originals, language);
      return;
    }
    if |splitSentences| == |originals| {
      return Ok(splitSentences);
    }
    if |splitSentences| > |originals| && |originals| >= 1 {
      var merged := MergeShortestPairs(splitSentences, |originals|);
      return Ok(merged);
    }
    // with no original sentence the merge loop indexes past the end and the error is caught
    r := ManualSplitSentences(text, originals, language);
  }

  // ---------------------------------------------------------------------------
  // Merging

  /** Joining one pair with a space keeps every non-blank character, in order. */
  lemma MergeAtKeepsText(s: seq<string>, i: nat)
    requires i + 1 < |s|
    ensures Squeeze(Concat(MergeAt(s, i))) == Squeeze(Concat(s))
  {
    MergeAtConcat(s, i);
    SqueezeSpaceJoin(Concat(s[..i]), s[i], s[i + 1], Concat(s[i + 2..]));
  }

  lemma MergeAtConcat(s: seq<string>, i: nat)
    requires i + 1 < |s|
    ensures Concat(MergeAt(s, i)) == Concat(s[..i]) + (s[i] + " " + s[i + 1]) + Concat(s[i + 2..])
    ensures Concat(s) == Concat(s[..i]) + (s[i] + s[i + 1]) + Concat(s[i + 2..])
  {
    var pair := s[i] + " " + s[i + 1];
    assert s == s[..i] + [s[i], s[i + 1]] + s[i + 2..];
    ConcatAppend(s[..i] + [pair], s[i + 2..]);
    ConcatAppend(s[..i] + [s[i], s[i + 1]], s[i + 2..]);
    ConcatSnoc(s[..i], pair);
    ConcatAppend(s[..i], [s[i], s[i + 1]]);
    assert Concat([s[i], s[i + 1]]) == s[i] + s[i + 1] by {
      assert [s[i], s[i + 1]][1..] == [s[i + 1]];
      ConcatOne(s[i + 1]);
    }
  }

  lemma SqueezeSpaceJoin(a: string, x: string, y: string, b: string)
    ensures Squeeze(a + (x + " " + y) + b) == Squeeze(a + (x + y) + b)
  {
    SqueezeAppend(x, " ");
    SqueezeAllSpace(" ");
    SqueezeAppend(x + " ", y);
    SqueezeAppend(x, y);
    SqueezeFrame(a, x + " " + y, x + y, b);
  }

  lemma SqueezeFrame(a: string, m1: string, m2: string, b: string)
    requires Squeeze(m1) == Squeeze(m2)
    ensures Squeeze(a + m1 + b) == Squeeze(a + m2 + b)
  {
    SqueezeAppend(a + m1, b);
    SqueezeAppend(a + m2, b);
    SqueezeAppend(a, m1);
    SqueezeAppend(a, m2);
  }

  /** The merge loop ends with exactly `n` sentences and keeps every non-blank character. */
  lemma {:induction false} MergeDownShape(s: seq<string>, n: nat)
    requires 1 <= n <= |s|
    ensures |MergeDown(s, n)| == n
    ensures Squeeze(Concat(MergeDown(s, n))) == Squeeze(Concat(s))
    decreases |s|
  {
    if |s| != n {
      var i := ShortestPair(s, |s| - 1);
      MergeAtKeepsText(s, i);
      MergeDownShape(MergeAt(s, i), n);
    }
  }

  // ---------------------------------------------------------------------------
  // Parsing

  /** Every sentence read from a reply is stripped. */
  lemma {:induction false} ParseLinesStripped(lines: seq<string>)
    ensures forall i :: 0 <= i < |ParseLines(lines)| ==> Stripped(ParseLines(lines)[i])
  {
    if lines != [] {
      var prefix, line := lines[..|lines| - 1], lines[|lines| - 1];
      ParseLinesStripped(prefix);
      ParseLineStripped(line);
      var tail := match ParseLine(line) case Some(x) => [x] case None => [];
      assert ParseLines(lines) == ParseLines(prefix) + tail;
      StrippedAppend(ParseLines(prefix), tail);
    }
  }

  lemma ParseLineStripped(line: string)
    ensures ParseLine(line).Some? ==> Stripped(ParseLine(line).value)
  {
    var l := Strip(line);
    StripShape(line);
    if ':' in l {
      StripShape(AfterFirst(l, ':'));
    } else if StartsWith(l, Label) && |l| > 2 {
      StripShape(l[2..]);
    }
  }

  lemma StrippedAppend(a: seq<string>, b: seq<string>)
    requires forall i :: 0 <= i < |a| ==> Stripped(a[i])
    requires forall i :: 0 <= i < |b| ==> Stripped(b[i])
    ensures forall i :: 0 <= i < |a + b| ==> Stripped((a + b)[i])
  {
    forall i | 0 <= i < |a + b| ensures Stripped((a + b)[i]) {
      if i >= |a| {
        assert (a + b)[i] == b[i - |a|];
      }
    }
  }

  lemma ParseReplyStripped(reply: string)
    ensures forall i :: 0 <= i < |ParseReply(reply)| ==> Stripped(ParseReply(reply)[i])
  {
    ParseLinesStripped(Split(Strip(reply), "\n"));
  }

  /** The line the prompt asks for as sentence `k` (counted from 0): `句子{k+1}: {s}`. */
  function ReplyLine(k: nat, s: string): string {
    Label + Digits(k + 1) + ": " + s
  }

  /** A reply in exactly the requested format. */
  function FormatReply(sentences: seq<string>): string {
    Join("\n", seq(|sentences|, k requires 0 <= k < |sentences| => ReplyLine(k, sentences[k])))
  }

  lemma {:induction false} AfterFirstAt(a: string, c: char, b: string)
    requires c !in a
    ensures AfterFirst(a + [c] + b, c) == b
  {
    if a != [] {
      assert (a + [c] + b)[1..] == a[1..] + [c] + b;
      AfterFirstAt(a[1..], c, b);
    } else {
      assert (a + [c] + b)[1..] == b;
    }
  }

  lemma StripSpaceBefore(s: string)
    requires s != [] && Stripped(s)
    ensures Strip(" " + s) == s
  {
    assert (" " + s)[1..] == s;
    assert SpanSpace(" " + s) == 1;
    TrimEndStripped(s);
  }

  /** A requested line gives back its sentence, colons inside the sentence included. */
  lemma ParseReplyLine(k: nat, s: string)
    requires s != [] && Stripped(s)
    ensures ParseLine(ReplyLine(k, s)) == Some(s)
  {
    var head := Label + Digits(k + 1);
    var line := ReplyLine(k, s);
    assert line == head + [':'] + (" " + s);
    assert ':' !in head by {
      forall j | 0 <= j < |head| ensures head[j] != ':' {
        if j >= 2 { assert head[j] == Digits(k + 1)[j - 2]; }
      }
    }
    ReplyLineStripped(k, s);
    StrippedStrip(line);
    assert ':' in line by { assert line[|head|] == ':'; }
    AfterFirstAt(head, ':', " " + s);
    StripSpaceBefore(s);
  }

  lemma NoNewline(k: nat, s: string)
    requires '\n' !in s
    ensures '\n' !in ReplyLine(k, s)
  {
    var d := Digits(k + 1);
    forall j | 0 <= j < |ReplyLine(k, s)| ensures ReplyLine(k, s)[j] != '\n' {
      if 2 <= j < 2 + |d| {
        assert ReplyLine(k, s)[j] == d[j - 2];
      } else if j >= 4 + |d| {
        assert ReplyLine(k, s)[j] == s[j - 4 - |d|];
      }
    }
  }

  lemma {:induction false} ParseLinesOfReply(lines: seq<string>, sentences: seq<string>, m: nat)
    requires |lines| == |sentences| && m <= |lines|
    requires forall k :: 0 <= k < |lines| ==> ParseLine(lines[k]) == Some(sentences[k])
    ensures ParseLines(lines[..m]) == sentences[..m]
  {
    if m > 0 {
      ParseLinesOfReply(lines, sentences, m - 1);
      PrefixSnoc(lines, m);
      PrefixSnoc(sentences, m);
      ParseLinesSnoc(lines[..m - 1], lines[m - 1], sentences[m - 1]);
    }
  }

  lemma ParseLinesSnoc(prefix: seq<string>, line: string, x: string)
    requires ParseLine(line) == Some(x)
    ensures ParseLines(prefix + [line]) == ParseLines(prefix) + [x]
  {
    assert (prefix + [line])[..|prefix|] == prefix;
  }

  /** Round trip: a reply in the requested format, one stripped single-line sentence per line,
      is read back as exactly those sentences. */
  lemma ParseFormattedReply(sentences: seq<string>)
    requires forall k :: 0 <= k < |sentences| ==>
      sentences[k] != [] && Stripped(sentences[k]) && '\n' !in sentences[k]
    ensures ParseReply(FormatReply(sentences)) == sentences
  {
    var lines := seq(|sentences|, k requires 0 <= k < |sentences| => ReplyLine(k, sentences[k]));
    assert FormatReply(sentences) == Join("\n", lines);
    if sentences == [] {
      assert Join("\n", lines) == [];
      assert Split([], "\n") == [[]];
      assert ParseLines([[]]) == ParseLines([]);
    } else {
      forall k | 0 <= k < |lines|
        ensures lines[k] != [] && Stripped(lines[k]) && '\n' !in lines[k]
        ensures ParseLine(lines[k]) == Some(sentences[k])
      {
        NoNewline(k, sentences[k]);
        ReplyLineStripped(k, sentences[k]);
        ParseReplyLine(k, sentences[k]);
      }
      JoinedStripped(lines);
      ParseEachLine(lines, sentences);
      ParseJoinedLines(lines, sentences);
    }
  }

  lemma ReplyLineStripped(k: nat, s: string)
    requires s != [] && Stripped(s)
    ensures ReplyLine(k, s) != [] && Stripped(ReplyLine(k, s))
  {
    var line := ReplyLine(k, s);
    assert line[0] == '句';
    assert line[|line| - 1] == s[|s| - 1];
  }

  /** Lines joined with newlines, the first and last stripped, give a stripped text. */
  lemma JoinedStripped(lines: seq<string>)
    requires lines != [] && forall k :: 0 <= k < |lines| ==> lines[k] != [] && Stripped(lines[k])
    ensures Stripped(Join("\n", lines))
  {
    JoinEnds("\n", lines);
  }

  /** Reading back lines joined with newlines. */
  lemma ParseJoinedLines(lines: seq<string>, sentences: seq<string>)
    requires lines != [] && forall k :: 0 <= k < |lines| ==> '\n' !in lines[k]
    requires ParseLines(lines) == sentences
    requires Stripped(Join("\n", lines))
    ensures ParseLines(Split(Strip(Join("\n", lines)), "\n")) == sentences
  {
    StrippedStrip(Join("\n", lines));
    SplitJoinChar(lines, '\n');
  }

  /** Lines that each read as their sentence read as the list of sentences. */
  lemma ParseEachLine(lines: seq<string>, sentences: seq<string>)
    requires |lines| == |sentences|
    requires forall k :: 0 <= k < |lines| ==> ParseLine(lines[k]) == Some(sentences[k])
    ensures ParseLines(lines) == sentences
  {
    ParseLinesOfReply(lines, sentences, |lines|);
    PrefixAll(lines);
    PrefixAll(sentences);
  }

  // ---------------------------------------------------------------------------
  // The whole post-processing

  /** Whatever the route, a returned list has one sentence per original sentence. */
  lemma AiSplitCount(text: string, originals: seq<Window>, language: string, reply: Option<string>)
    ensures AiSplit(text, originals, language, reply).Ok? ==>
      |AiSplit(text, originals, language, reply).value| == |originals|
  {
    ManualSplitCount(text, originals, language);
    if reply.Some? && |ParseReply(reply.value)| > |originals| >= 1 {
      MergeDownShape(ParseReply(reply.value), |originals|);
    }
  }

  /** A reply that passes the content check and has at least as many sentences as the original
      (at least one) is used, and the result keeps every non-blank character of the translation. */
  lemma AiSplitKeepsText(text: string, originals: seq<Window>, language: string, reply: string)
    requires Squeeze(Concat(ParseReply(reply))) == Squeeze(text)
    requires |ParseReply(reply)| == |originals| || |ParseReply(reply)| > |originals| >= 1
    ensures AiSplit(text, originals, language, Some(reply)).Ok?
    ensures Squeeze(Concat(AiSplit(text, originals, language, Some(reply)).value)) == Squeeze(text)
  {
    if |ParseReply(reply)| != |originals| {
      MergeDownShape(ParseReply(reply), |originals|);
    }
  }

  /** In every other case (no reply, a reply that changes the text, too few sentences, or too many
      for no original sentence) the result is the rule-based split's. */
  lemma AiSplitFallback(text: string, originals: seq<Window>, language: string, reply: Option<string>)
    requires reply.Some? ==>
      Squeeze(Concat(ParseReply(reply.value))) != Squeeze(text)
      || |ParseReply(reply.value)| < |originals|
      || (|originals| == 0 && ParseReply(reply.value) != [])
    ensures AiSplit(text, originals, language, reply) == ManualSplit.ManualSplit(text, originals, language)
  {
  }
}
