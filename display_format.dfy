/** Greedy line wrapping of subtitle text (`split_text_advanced` and
    `format_sentence_for_display` in sentence_utils.py). */
module DisplayFormat {
  import opened Text
  import opened Wrappers

  /** The Japanese marks after which `split_text_advanced` cuts: `、 。 ！ ？`. */
  predicate IsJaMark(c: char) {
    c == '、' || c == '。' || c == '！' || c == '？'
  }

  /** `re.split(r'(?<=[、。！？])', s)`: the pieces between the empty matches after each mark. */
  function CutAfterMarks(s: string): (r: seq<string>)
    ensures r != []
  {
    if s == [] then [[]]
    else
      var rest := CutAfterMarks(s[1..]);
      if IsJaMark(s[0]) then [[s[0]]] + rest else [[s[0]] + rest[0]] + rest[1..]
  }

  /** `split_text_advanced(paragraph)`. */
  function SplitTextAdvanced(paragraph: string): seq<string> {
    StripAll(CutAfterMarks(paragraph))
  }

  /** The maximum line length `format_sentence_for_display` uses: by language when one is
      given (a non-empty code), otherwise the caller's value. */
  function MaxLineLength(language: Option<string>, given: int): int {
    if language.Some? && language.value != [] then
      if language.value == "en" then 50
      else if language.value == "ja" then 15
      else if language.value == "zh" || language.value == "ko" then 30
      else 40
    else given
  }

  /** The lines emitted so far and the current line after reading `tokens` left to right. */
  function WrapState(tokens: seq<string>, m: int): (seq<string>, string) {
    if tokens == [] then ([], [])
    else
      var (lines, current) := WrapState(tokens[..|tokens| - 1], m);
      var word := tokens[|tokens| - 1];
      if |current| + |word| + 1 > m && current != [] then (lines + [current], word)
      else if current != [] then (lines, current + " " + word)
      else (lines, word)
  }

  /** The greedy wrap loop shared by `format_sentence_for_display` and `format_subtitle_text`. */
  function Wrap(tokens: seq<string>, m: int): seq<string> {
    var (lines, current) := WrapState(tokens, m);
    if current != [] then lines + [current] else lines
  }

  /** The tokens a long sentence is cut into: the Japanese pieces for `ja`, else `split()`. */
  function Tokens(sentence: string, language: Option<string>): seq<string> {
    if language == Some("ja") then SplitTextAdvanced(sentence) else Words(sentence)
  }

  /** The lines `format_sentence_for_display(sentence, given, language)` returns. */
  function FormatForDisplay(sentence: string, given: int, language: Option<string>): seq<string> {
    var m := MaxLineLength(language, given);
    if |sentence| <= m then [sentence] else Wrap(Tokens(sentence, language), m)
  }

  /** The wrap loop. */
  method WrapTokens(tokens: seq<string>, m: int) returns (lines: seq<string>)
    ensures lines == Wrap(tokens, m)
  {
    lines := [];
    var current: string := [];
    for i := 0 to |tokens|
      invariant (lines, current) == WrapState(tokens[..i], m)
    {
      assert tokens[..i + 1][..i] == tokens[..i];
      var word := tokens[i];
      if |current| + |word| + 1 > m && current != [] {
        lines := lines + [current];
        current := word;
      } else if current != [] {
        current := current + " " + word;
      } else {
        current := word;
      }
    }
    assert tokens[..|tokens|] == tokens;
    if current != [] {
      lines := lines + [current];
    }
  }

  /** `format_sentence_for_display`. */
  method FormatSentenceForDisplay(sentence: string, given: int, language: Option<string>)
    returns (lines: seq<string>)
    ensures lines == FormatForDisplay(sentence, given, language)
  {
    var m := MaxLineLength(language, given);
    if |sentence| <= m {
      return [sentence];
    }
    var tokens := if language == Some("ja") then SplitTextAdvanced(sentence) else Words(sentence);
    lines := WrapTokens(tokens, m);
  }

  // ---------------------------------------------------------------------------
  // The greedy wrap in terms of token groups

  /** The token groups of the closed lines and of the current line. */
  function Greedy(tokens: seq<string>, m: int): (seq<seq<string>>, seq<string>) {
    if tokens == [] then ([], [])
    else
      var (groups, current) := Greedy(tokens[..|tokens| - 1], m);
      var word := tokens[|tokens| - 1];
      if current != [] && |JoinSpace(current)| + |word| + 1 > m then (groups + [current], [word])
      else (groups, current + [word])
  }

  /** The token groups of the lines `Wrap` returns. */
  function WrapGroups(tokens: seq<string>, m: int): seq<seq<string>> {
    var (groups, current) := Greedy(tokens, m);
    if current != [] then groups + [current] else groups
  }

  function JoinAll(groups: seq<seq<string>>): (r: seq<string>)
    ensures |r| == |groups|
  {
    seq(|groups|, i requires 0 <= i < |groups| => JoinSpace(groups[i]))
  }

  predicate NonEmptyAll(parts: seq<string>) {
    forall i :: 0 <= i < |parts| ==> parts[i] != []
  }

  /** A line of two or more tokens fits in `m`. */
  predicate Fits(group: seq<string>, m: int) {
    |group| >= 2 ==> |JoinSpace(group)| <= m
  }

  lemma {:induction false} JoinSpaceLength(parts: seq<string>, word: string)
    requires parts != []
    ensures |JoinSpace(parts + [word])| == |JoinSpace(parts)| + 1 + |word|
  {
    JoinSnoc(" ", parts, word);
  }

  lemma {:induction false} JoinSpaceNonEmpty(parts: seq<string>)
    requires parts != [] && NonEmptyAll(parts)
    ensures JoinSpace(parts) != []
  {
    if |parts| > 1 {
      assert JoinSpace(parts) == parts[0] + " " + JoinSpace(parts[1..]);
    }
  }

  /** The greedy groups partition the tokens, the groups are non-empty, and the current group is
      non-empty once a token has been read. */
  lemma {:induction false} GreedyPartition(tokens: seq<string>, m: int)
    ensures Concat(Greedy(tokens, m).0) + Greedy(tokens, m).1 == tokens
    ensures forall i :: 0 <= i < |Greedy(tokens, m).0| ==> Greedy(tokens, m).0[i] != []
    ensures tokens != [] ==> Greedy(tokens, m).1 != []
  {
    if tokens != [] {
      var prefix := tokens[..|tokens| - 1];
      var word := tokens[|tokens| - 1];
      PrefixSnoc(tokens, |tokens|);
      PrefixAll(tokens);
      GreedyPartition(prefix, m);
      var (groups, current) := Greedy(prefix, m);
      if current != [] && |JoinSpace(current)| + |word| + 1 > m {
        assert Greedy(tokens, m) == (groups + [current], [word]);
        GroupsClose(groups, current, prefix, word);
      } else {
        assert Greedy(tokens, m) == (groups, current + [word]);
        assert Concat(groups) + (current + [word]) == (Concat(groups) + current) + [word];
      }
    }
  }

  /** Closing the current group keeps the partition and the groups non-empty. */
  lemma GroupsClose(groups: seq<seq<string>>, current: seq<string>, prefix: seq<string>, word: string)
    requires Concat(groups) + current == prefix && current != []
    requires forall i :: 0 <= i < |groups| ==> groups[i] != []
    ensures Concat(groups + [current]) + [word] == prefix + [word]
    ensures forall i :: 0 <= i < |groups + [current]| ==> (groups + [current])[i] != []
  {
    ConcatSnoc(groups, current);
  }

  /** Every group of two or more tokens fits in `m`. */
  lemma {:induction false} GreedyFits(tokens: seq<string>, m: int)
    ensures forall i :: 0 <= i < |Greedy(tokens, m).0| ==> Fits(Greedy(tokens, m).0[i], m)
    ensures Fits(Greedy(tokens, m).1, m)
  {
    if tokens != [] {
      var prefix := tokens[..|tokens| - 1];
      var word := tokens[|tokens| - 1];
      GreedyFits(prefix, m);
      var (groups, current) := Greedy(prefix, m);
      if !(current != [] && |JoinSpace(current)| + |word| + 1 > m) && current != [] {
        JoinSpaceLength(current, word);
      }
    }
  }

  /** The group after closed group `i`: the next closed one, or the current one. */
  function After(groups: seq<seq<string>>, current: seq<string>, i: nat): seq<string>
    requires i < |groups|
  {
    if i + 1 < |groups| then groups[i + 1] else current
  }

  /** Closed group `i` was closed because the first token after it would overflow it. */
  predicate ClosedFull(groups: seq<seq<string>>, current: seq<string>, i: nat, m: int)
    requires i < |groups|
  {
    After(groups, current, i) != [] && |JoinSpace(groups[i])| + |After(groups, current, i)[0]| + 1 > m
  }

  /** A group is closed only when the first token of the group after it would overflow it. */
  lemma {:induction false} GreedyMaximal(tokens: seq<string>, m: int)
    ensures forall i :: 0 <= i < |Greedy(tokens, m).0| ==> ClosedFull(Greedy(tokens, m).0, Greedy(tokens, m).1, i, m)
  {
    if tokens != [] {
      var prefix := tokens[..|tokens| - 1];
      var word := tokens[|tokens| - 1];
      GreedyMaximal(prefix, m);
      var (groups, current) := Greedy(prefix, m);
      var (groups', current') := Greedy(tokens, m);
      if current != [] && |JoinSpace(current)| + |word| + 1 > m {
        assert groups' == groups + [current] && current' == [word];
        forall i | 0 <= i < |groups'| ensures ClosedFull(groups', current', i, m) {
          if i < |groups| {
            assert ClosedFull(groups, current, i, m);
            assert groups'[i] == groups[i];
            assert After(groups', current', i) == After(groups, current, i);
          }
        }
      } else if groups != [] {
        assert groups' == groups && current' == current + [word];
        assert ClosedFull(groups, current, |groups| - 1, m);
        assert (current + [word])[0] == current[0];
        forall i | 0 <= i < |groups'| ensures ClosedFull(groups', current', i, m) {
          assert ClosedFull(groups, current, i, m);
        }
      }
    }
  }

  /** The tokens of a greedy group are tokens of the input. */
  lemma GreedyNonEmpty(tokens: seq<string>, m: int)
    requires NonEmptyAll(tokens)
    ensures forall i :: 0 <= i < |Greedy(tokens, m).0| ==> NonEmptyAll(Greedy(tokens, m).0[i])
    ensures NonEmptyAll(Greedy(tokens, m).1)
  {
    GreedyPartition(tokens, m);
    SplitNonEmpty(Greedy(tokens, m).0, Greedy(tokens, m).1, tokens);
  }

  /** The parts of a list of non-empty tokens hold only non-empty tokens. */
  lemma SplitNonEmpty(groups: seq<seq<string>>, current: seq<string>, tokens: seq<string>)
    requires Concat(groups) + current == tokens && NonEmptyAll(tokens)
    ensures forall i :: 0 <= i < |groups| ==> NonEmptyAll(groups[i])
    ensures NonEmptyAll(current)
  {
    var parts := groups + [current];
    ConcatAppend(groups, [current]);
    ConcatOne(current);
    forall i | 0 <= i < |parts| ensures NonEmptyAll(parts[i]) {
      ConcatContains(parts, i);
      forall k | 0 <= k < |parts[i]| ensures parts[i][k] != [] {
        MemberNonEmpty(parts[i][k], tokens);
      }
    }
    assert forall i :: 0 <= i < |groups| ==> groups[i] == parts[i];
    assert current == parts[|groups|];
  }

  lemma MemberNonEmpty(x: string, tokens: seq<string>)
    requires x in tokens && NonEmptyAll(tokens)
    ensures x != []
  {
    var j :| 0 <= j < |tokens| && tokens[j] == x;
  }

  /** On non-empty tokens the string loop and the group view agree. */
  lemma {:induction false} WrapStateGroups(tokens: seq<string>, m: int)
    requires NonEmptyAll(tokens)
    ensures WrapState(tokens, m).0 == JoinAll(Greedy(tokens, m).0)
    ensures WrapState(tokens, m).1 == JoinSpace(Greedy(tokens, m).1)
  {
    if tokens != [] {
      var prefix := tokens[..|tokens| - 1];
      var word := tokens[|tokens| - 1];
      WrapStateGroups(prefix, m);
      GreedyNonEmpty(prefix, m);
      var (groups, current) := Greedy(prefix, m);
      if current != [] {
        JoinSpaceNonEmpty(current);
        JoinSnoc(" ", current, word);
      } else {
        assert JoinSpace([word]) == word;
      }
    }
  }

  /** The groups of the lines partition the tokens into non-empty runs; a run of two or more
      tokens fits; a run is closed only because the next run's first token would overflow it. */
  lemma WrapGroupsShape(tokens: seq<string>, m: int)
    ensures Concat(WrapGroups(tokens, m)) == tokens
    ensures forall i :: 0 <= i < |WrapGroups(tokens, m)| ==>
      WrapGroups(tokens, m)[i] != [] && Fits(WrapGroups(tokens, m)[i], m)
    ensures forall i :: 0 <= i < |WrapGroups(tokens, m)| - 1 ==>
      |JoinSpace(WrapGroups(tokens, m)[i])| + |WrapGroups(tokens, m)[i + 1][0]| + 1 > m
  {
    GreedyPartition(tokens, m);
    GreedyFits(tokens, m);
    GreedyMaximal(tokens, m);
    var (groups, current) := Greedy(tokens, m);
    var gs := WrapGroups(tokens, m);
    if current != [] {
      ConcatSnoc(groups, current);
      forall i | 0 <= i < |gs| - 1
        ensures |JoinSpace(gs[i])| + |gs[i + 1][0]| + 1 > m
      {
        assert ClosedFull(groups, current, i, m);
        assert gs[i] == groups[i] && gs[i + 1] == After(groups, current, i);
      }
    } else {
      assert tokens == [];
      assert Concat(groups) + [] == Concat(groups);
    }
  }

  /** The greedy wrap on non-empty tokens: the lines are the space-joined groups, all non-empty. */
  lemma WrapIsGreedy(tokens: seq<string>, m: int)
    requires NonEmptyAll(tokens)
    ensures Wrap(tokens, m) == JoinAll(WrapGroups(tokens, m))
    ensures NonEmptyAll(Wrap(tokens, m))
  {
    GreedyPartition(tokens, m);
    GreedyNonEmpty(tokens, m);
    WrapStateGroups(tokens, m);
    var (groups, current) := Greedy(tokens, m);
    var gs := WrapGroups(tokens, m);
    if current != [] {
      JoinSpaceNonEmpty(current);
      assert JoinAll(gs) == JoinAll(groups) + [JoinSpace(current)];
    }
    forall i | 0 <= i < |gs| ensures JoinAll(gs)[i] != [] {
      if i < |groups| {
        assert gs[i] == groups[i];
      }
      JoinSpaceNonEmpty(gs[i]);
    }
  }

  // ---------------------------------------------------------------------------
  // The Japanese cut

  /** No character of `piece` is a mark. */
  predicate MarkFree(piece: string) {
    forall j :: 0 <= j < |piece| ==> !IsJaMark(piece[j])
  }

  /** A piece closed by a mark: its only mark is its last character. */
  predicate ClosedPiece(piece: string) {
    piece != [] && IsJaMark(piece[|piece| - 1]) && MarkFree(piece[..|piece| - 1])
  }

  /** The cut pieces glue back to the input; every piece but the last ends with its only mark,
      and the last piece holds none. */
  lemma {:induction false} CutAfterMarksShape(s: string)
    ensures Concat(CutAfterMarks(s)) == s
    ensures forall i :: 0 <= i < |CutAfterMarks(s)| - 1 ==> ClosedPiece(CutAfterMarks(s)[i])
    ensures MarkFree(CutAfterMarks(s)[|CutAfterMarks(s)| - 1])
  {
    if s != [] {
      var rest := CutAfterMarks(s[1..]);
      CutAfterMarksShape(s[1..]);
      assert s == [s[0]] + s[1..];
      if IsJaMark(s[0]) {
        MarkPiece(s[0], rest);
      } else {
        JoinPiece(s[0], rest);
      }
    }
  }

  /** A mark closes a piece of its own in front of the pieces cut from the rest. */
  lemma MarkPiece(c: char, rest: seq<string>)
    requires IsJaMark(c) && rest != []
    requires forall i :: 0 <= i < |rest| - 1 ==> ClosedPiece(rest[i])
    requires MarkFree(rest[|rest| - 1])
    ensures Concat([[c]] + rest) == [c] + Concat(rest)
    ensures forall i :: 0 <= i < |[[c]] + rest| - 1 ==> ClosedPiece(([[c]] + rest)[i])
    ensures MarkFree(([[c]] + rest)[|[[c]] + rest| - 1])
  {
    ConcatCons([c], rest);
    assert [c][..0] == [];
    forall i | 0 < i < |[[c]] + rest| ensures ([[c]] + rest)[i] == rest[i - 1] { }
  }

  /** Any other character opens the first piece cut from the rest. */
  lemma JoinPiece(c: char, rest: seq<string>)
    requires !IsJaMark(c) && rest != []
    requires forall i :: 0 <= i < |rest| - 1 ==> ClosedPiece(rest[i])
    requires MarkFree(rest[|rest| - 1])
    ensures Concat([[c] + rest[0]] + rest[1..]) == [c] + Concat(rest)
    ensures forall i :: 0 <= i < |[[c] + rest[0]] + rest[1..]| - 1 ==> ClosedPiece(([[c] + rest[0]] + rest[1..])[i])
    ensures MarkFree(([[c] + rest[0]] + rest[1..])[|[[c] + rest[0]] + rest[1..]| - 1])
  {
    var head := [c] + rest[0];
    var r := [head] + rest[1..];
    JoinPieceConcat(c, rest);
    if |rest| > 1 {
      ConsClosed(c, rest[0]);
    } else {
      ConsMarkFree(c, rest[0]);
    }
    forall i | 0 < i < |r| ensures r[i] == rest[i] { }
  }

  lemma JoinPieceConcat(c: char, rest: seq<string>)
    requires rest != []
    ensures Concat([[c] + rest[0]] + rest[1..]) == [c] + Concat(rest)
  {
    ConcatCons([c] + rest[0], rest[1..]);
    AppendAssoc([c], rest[0], Concat(rest[1..]));
  }

  lemma ConsMarkFree(c: char, p: string)
    requires !IsJaMark(c) && MarkFree(p)
    ensures MarkFree([c] + p)
  {
    forall j | 0 < j < |[c] + p| ensures ([c] + p)[j] == p[j - 1] { }
  }

  lemma ConsClosed(c: char, p: string)
    requires !IsJaMark(c) && ClosedPiece(p)
    ensures ClosedPiece([c] + p)
  {
    var q := [c] + p;
    assert q[..|q| - 1] == [c] + p[..|p| - 1];
    ConsMarkFree(c, p[..|p| - 1]);
  }

  /** `split_text_advanced` yields non-empty stripped pieces that keep every non-blank character. */
  lemma SplitTextAdvancedKeepsText(paragraph: string)
    ensures Squeeze(Concat(SplitTextAdvanced(paragraph))) == Squeeze(paragraph)
    ensures forall i :: 0 <= i < |SplitTextAdvanced(paragraph)| ==>
      SplitTextAdvanced(paragraph)[i] != [] && Stripped(SplitTextAdvanced(paragraph)[i])
  {
    CutAfterMarksShape(paragraph);
    StripAllShape(CutAfterMarks(paragraph));
  }

  // ---------------------------------------------------------------------------
  // format_sentence_for_display

  /** The language table: en 50, ja 15, zh and ko 30, any other code 40, the caller's value
      when no language is given. */
  lemma MaxLineLengthTable(language: Option<string>, given: int)
    ensures language == Some("en") ==> MaxLineLength(language, given) == 50
    ensures language == Some("ja") ==> MaxLineLength(language, given) == 15
    ensures language == Some("zh") || language == Some("ko") ==> MaxLineLength(language, given) == 30
    ensures language.Some? && language.value !in {"", "en", "ja", "zh", "ko"} ==> MaxLineLength(language, given) == 40
    ensures language.None? || language == Some("") ==> MaxLineLength(language, given) == given
  {
  }

  /** A sentence that fits is returned unchanged as its only line. */
  lemma DisplayShort(sentence: string, given: int, language: Option<string>)
    requires |sentence| <= MaxLineLength(language, given)
    ensures FormatForDisplay(sentence, given, language) == [sentence]
  {
  }

  /** A sentence too long for one line is wrapped greedily: every line is non-empty, the lines
      are the space-joined runs of the tokens in order, any line of two or more tokens fits, and
      a line is closed only when the next token would not fit on it. */
  lemma DisplayLong(sentence: string, given: int, language: Option<string>)
    requires |sentence| > MaxLineLength(language, given)
    ensures var m := MaxLineLength(language, given);
      var lines := FormatForDisplay(sentence, given, language);
      var gs := WrapGroups(Tokens(sentence, language), m);
      lines == JoinAll(gs) && NonEmptyAll(lines) && Concat(gs) == Tokens(sentence, language)
      && (forall i :: 0 <= i < |gs| ==> gs[i] != [] && Fits(gs[i], m))
      && (forall i :: 0 <= i < |gs| - 1 ==> |lines[i]| + |gs[i + 1][0]| + 1 > m)
  {
    var tokens := Tokens(sentence, language);
    if language == Some("ja") {
      SplitTextAdvancedKeepsText(sentence);
    } else {
      WordsShape(sentence);
    }
    WrapIsGreedy(tokens, MaxLineLength(language, given));
    WrapGroupsShape(tokens, MaxLineLength(language, given));
  }

  /** The words of each line. */
  function LineWords(lines: seq<string>): (r: seq<seq<string>>)
    ensures |r| == |lines|
  {
    seq(|lines|, i requires 0 <= i < |lines| => Words(lines[i]))
  }

  /** Outside Japanese the words of the lines, in order, are the words of the sentence, and a
      line holding two or more words is at most the maximum long. */
  lemma DisplayKeepsWords(sentence: string, given: int, language: Option<string>)
    requires language != Some("ja")
    ensures var lines := FormatForDisplay(sentence, given, language);
      Concat(LineWords(lines)) == Words(sentence)
      && forall i :: 0 <= i < |lines| && |Words(lines[i])| >= 2 ==> |lines[i]| <= MaxLineLength(language, given)
  {
    var m := MaxLineLength(language, given);
    if |sentence| <= m {
      OneLineWords(sentence, m);
    } else {
      DisplayLong(sentence, given, language);
      WordsShape(sentence);
      LinesWords(WrapGroups(Words(sentence), m), FormatForDisplay(sentence, given, language), Words(sentence), m);
    }
  }

  lemma OneLineWords(sentence: string, m: int)
    requires |sentence| <= m
    ensures Concat(LineWords([sentence])) == Words(sentence)
    ensures forall i :: 0 <= i < 1 && |Words([sentence][i])| >= 2 ==> |[sentence][i]| <= m
  {
    assert LineWords([sentence]) == [Words(sentence)];
    ConcatOne(Words(sentence));
  }

  /** Lines joined from fitting groups of words: their words are the groups' words, and a line of
      two or more words fits. */
  lemma LinesWords(gs: seq<seq<string>>, lines: seq<string>, tokens: seq<string>, m: int)
    requires lines == JoinAll(gs) && Concat(gs) == tokens && IsWords(tokens)
    requires forall i :: 0 <= i < |gs| ==> gs[i] != [] && Fits(gs[i], m)
    ensures Concat(LineWords(lines)) == tokens
    ensures forall i :: 0 <= i < |lines| && |Words(lines[i])| >= 2 ==> |lines[i]| <= m
  {
    GroupWords(gs, lines);
    assert LineWords(lines) == gs;
  }

  /** The lines joined from groups of words split back into those groups. */
  lemma GroupWords(gs: seq<seq<string>>, lines: seq<string>)
    requires lines == JoinAll(gs) && IsWords(Concat(gs))
    ensures forall i :: 0 <= i < |lines| ==> Words(lines[i]) == gs[i]
  {
    forall i | 0 <= i < |gs| ensures Words(lines[i]) == gs[i] {
      assert IsWords(gs[i]) by {
        ConcatPartIn(gs, i);
      }
      WordsOfJoinSpace(gs[i]);
    }
  }

  /** Every token of a group of a partition is a token of the whole. */
  lemma {:induction false} ConcatPartIn(gs: seq<seq<string>>, i: nat)
    requires i < |gs| && IsWords(Concat(gs))
    ensures IsWords(gs[i])
  {
    assert Concat(gs) == gs[0] + Concat(gs[1..]);
    if i == 0 {
      forall j | 0 <= j < |gs[0]| ensures gs[0][j] != [] && NoSpace(gs[0][j]) {
        assert Concat(gs)[j] == gs[0][j];
      }
    } else {
      forall j | 0 <= j < |Concat(gs[1..])| ensures Concat(gs[1..])[j] != [] && NoSpace(Concat(gs[1..])[j]) {
        assert Concat(gs)[|gs[0]| + j] == Concat(gs[1..])[j];
      }
      ConcatPartIn(gs[1..], i - 1);
    }
  }
}
