/** Matching a translation to the original's sentence count (`split_into_matching_sentences`
    and `combine_sentences` in sentence_utils.py). */
module SentenceMatching {
  import opened Text
  import opened Wrappers
  import opened Arith

  /** The marks after which the first pass cuts: `. ! ? 。 ！ ？`. */
  const SentenceMarks: seq<char> := ['.', '!', '?', '。', '！', '？']

  /** The marks after which the second pass cuts: `, ; : ， ； ：`. */
  const ClauseMarks: seq<char> := [',', ';', ':', '，', '；', '：']

  /** `text` after `text = text.replace(c, c + '|')` for each mark `c` in turn. */
  function MarkAll(text: string, marks: seq<char>): string
    decreases |marks|
  {
    if marks == [] then text else MarkAll(ReplaceChar(text, marks[0], [marks[0], '|']), marks[1..])
  }

  /** `[p.strip() for p in marked.split('|') if p.strip()]` after marking `text`. */
  function Pieces(text: string, marks: seq<char>): seq<string> {
    StripAll(Split(MarkAll(text, marks), "|"))
  }

  /** The first pass: the text cut after each sentence mark. */
  function InitialSentences(text: string): seq<string> {
    Pieces(text, SentenceMarks)
  }

  /** The second pass: each sentence cut after each clause mark, the parts kept in order. */
  function ClauseSplit(sentences: seq<string>): seq<string> {
    SplitEach(sentences, ClauseMarks)
  }

  /** Each sentence cut after each of `marks`, the parts kept in order. */
  function SplitEach(sentences: seq<string>, marks: seq<char>): seq<string> {
    if sentences == [] then []
    else SplitEach(sentences[..|sentences| - 1], marks) + Pieces(sentences[|sentences| - 1], marks)
  }

  /** Where group `k` of `combine_sentences(s, t)` starts, for `n == len(s)`: the first index
      `i` with `i * t >= k * n`, i.e. the ceiling of `k * n / t`. */
  function Bound(k: nat, n: nat, t: nat): nat
    requires 1 <= t
  {
    var a: nat := k * n + t - 1;
    a / t
  }

  /** The runs of consecutive sentences that `combine_sentences` joins. */
  function Runs(sentences: seq<string>, t: nat): (r: seq<seq<string>>)
    requires 1 <= t <= |sentences|
    ensures |r| == t
  {
    var n := |sentences|;
    seq(t, k requires 0 <= k < t =>
      BoundStep(k, n, t);
      BoundMonotone(k + 1, t, n, t);
      BoundEnds(n, t);
      sentences[Bound(k, n, t)..Bound(k + 1, n, t)])
  }

  /** The list `combine_sentences(sentences, t)` returns. */
  function Combine(sentences: seq<string>, t: nat): (r: seq<string>)
    requires 1 <= t <= |sentences|
    ensures |r| == t
  {
    var runs := Runs(sentences, t);
    seq(t, k requires 0 <= k < t => JoinSpace(runs[k]))
  }

  /** The list `split_into_matching_sentences(text, target)` returns, or the error it raises. */
  function Match(text: string, target: nat): Result<seq<string>> {
    Decide(InitialSentences(text), ClauseSplit(InitialSentences(text)), target)
  }

  /** The choice among the first pass's pieces `initial` and the clause pass's pieces `more`. */
  function Decide(initial: seq<string>, more: seq<string>, target: nat): Result<seq<string>> {
    if |initial| == target then Ok(initial)
    else if |initial| < target && |more| > target then Ok(Combine(more, target))
    else if |initial| < target && |more| == target then Ok(more)
    else if |initial| > target then
      (if target == 0 then Err(ZeroDivision) else Ok(Combine(initial, target)))
    else Ok(initial)
  }

  // ---------------------------------------------------------------------------
  // The source's loops

  /** The `replace` loop over the marks. */
  method Mark(text: string, marks: seq<char>) returns (marked: string)
    ensures marked == MarkAll(text, marks)
  {
    marked := text;
    for k := 0 to |marks|
      invariant MarkAll(marked, marks[k..]) == MarkAll(text, marks)
    {
      assert marks[k..][1..] == marks[k + 1..];
      marked := ReplaceChar(marked, marks[k], [marks[k], '|']);
    }
    assert marks[|marks|..] == [];
  }

  /** `combine_sentences`: a run closes once `(i + 1) / (n / t)` reaches the next group number,
      a test stated here on integers as `(i + 1) * t >= (groups + 1) * n`. */
  method CombineSentences(sentences: seq<string>, t: nat) returns (combined: seq<string>)
    requires 1 <= t <= |sentences|
    ensures combined == Combine(sentences, t)
  {
    var n := |sentences|;
    BoundEnds(n, t);
    combined := [];
    var group: seq<string> := [];
    for i := 0 to n
      invariant CombineInvariant(sentences, t, combined, group, i)
    {
      var c := |combined|;
      CombineLoopStep(sentences, t, combined, group, i);
      group := group + [sentences[i]];
      if (i + 1) * t >= (c + 1) * n {
        combined := combined + [JoinSpace(group)];
        group := [];
        assert CombineInvariant(sentences, t, combined, [], i + 1);
      } else {
        assert CombineInvariant(sentences, t, combined, group, i + 1);
      }
    }
    CombineEnd(|combined|, n, t);
    assert combined == Combine(sentences, t)[..t];
    assert group == [];
    if group != [] {
      combined := combined + [JoinSpace(group)];
    }
  }

  /** The state of the combining loop before index `i`: the groups closed so far are the first
      joined runs, and `group` holds the sentences of the run in progress. */
  predicate CombineInvariant(sentences: seq<string>, t: nat, combined: seq<string>, group: seq<string>, i: nat)
    requires 1 <= t <= |sentences|
  {
    var n := |sentences|;
    |combined| <= t && i <= n && ClosedBefore(|combined|, i, n, t)
    && Bound(|combined|, n, t) <= i && group == sentences[Bound(|combined|, n, t)..i]
    && combined == Combine(sentences, t)[..|combined|]
  }

  /** One iteration of the combining loop keeps its invariant. */
  lemma CombineLoopStep(sentences: seq<string>, t: nat, combined: seq<string>, group: seq<string>, i: nat)
    requires 1 <= t <= |sentences| && i < |sentences|
    requires CombineInvariant(sentences, t, combined, group, i)
    ensures var n, c, g := |sentences|, |combined|, group + [sentences[i]];
      if (i + 1) * t >= (c + 1) * n then CombineInvariant(sentences, t, combined + [JoinSpace(g)], [], i + 1)
      else CombineInvariant(sentences, t, combined, g, i + 1)
  {
    var n, c, g := |sentences|, |combined|, group + [sentences[i]];
    var full := Combine(sentences, t);
    assert g == sentences[Bound(c, n, t)..i + 1];
    CombineStep(i, c, n, t);
    if (i + 1) * t >= (c + 1) * n {
      RunAt(sentences, t, c);
      assert full[c] == JoinSpace(g);
      assert full[..c + 1] == full[..c] + [full[c]];
    }
  }

  /** The clause loop: each sentence marked and cut, its stripped non-empty parts appended. */
  method SplitClauses(initial: seq<string>, marks: seq<char>) returns (more: seq<string>)
    ensures more == SplitEach(initial, marks)
  {
    more := [];
    for j := 0 to |initial|
      invariant more == SplitEach(initial[..j], marks)
    {
      assert initial[..j + 1][..j] == initial[..j];
      var sentence := Mark(initial[j], marks);
      var parts := StripAll(Split(sentence, "|"));
      more := more + parts;
    }
    assert initial[..|initial|] == initial;
  }

  /** `split_into_matching_sentences` with the three outcomes of the source. */
  method SplitIntoMatchingSentences(text: string, target: nat) returns (r: Result<seq<string>>)
    ensures r == Match(text, target)
  {
    var marked := Mark(text, SentenceMarks);
    var initial := StripAll(Split(marked, "|"));
    ghost var clauses := ClauseSplit(initial);
    assert Match(text, target) == Decide(initial, clauses, target);
    if |initial| == target {
      return Ok(initial);
    }
    if |initial| < target {
      var more := SplitClauses(initial, ClauseMarks);
      if |more| >= target {
        if |more| > target {
          var combined := CombineSentences(more, target);
          return Ok(combined);
        }
        return Ok(more);
      }
    }
    if |initial| > target {
      if target == 0 {
        return Err(ZeroDivision);
      }
      var combined := CombineSentences(initial, target);
      return Ok(combined);
    }
    return Ok(initial);
  }

  // ---------------------------------------------------------------------------
  // Group bounds

  /** Group `k` starts at the ceiling of `k * n / t`. */
  lemma BoundSpec(k: nat, n: nat, t: nat)
    requires 1 <= t
    ensures (Bound(k, n, t) - 1) * t < k * n <= Bound(k, n, t) * t
  {
    DivBounds(k * n + t - 1, t);
  }

  /** A bound is never left behind: group `k + 1` starts at least one sentence after group `k`. */
  lemma BoundStep(k: nat, n: nat, t: nat)
    requires 1 <= t <= n
    ensures Bound(k, n, t) + 1 <= Bound(k + 1, n, t)
  {
    var b := Bound(k, n, t);
    var b' := Bound(k + 1, n, t);
    BoundSpec(k, n, t);
    BoundSpec(k + 1, n, t);
    assert (k + 1) * n == k * n + n;
    if b' <= b {
      MulLe(b', b, t);
    }
  }

  lemma {:induction false} BoundMonotone(j: nat, k: nat, n: nat, t: nat)
    requires 1 <= t <= n && j <= k
    ensures Bound(j, n, t) <= Bound(k, n, t)
    decreases k - j
  {
    if j < k {
      BoundStep(j, n, t);
      BoundMonotone(j + 1, k, n, t);
    }
  }

  lemma BoundEnds(n: nat, t: nat)
    requires 1 <= t <= n
    ensures Bound(0, n, t) == 0 && Bound(t, n, t) == n
  {
    DivExact(0 * n + t - 1, t, 0);
    DivExact(t * n + t - 1, t, n);
  }

  /** Group `c` has started by index `i` once `c * n <= i * t`. */
  lemma BoundBelow(c: nat, i: nat, n: nat, t: nat)
    requires 1 <= t <= n && c * n <= i * t
    ensures Bound(c, n, t) <= i
  {
    BoundSpec(c, n, t);
    if Bound(c, n, t) > i {
      MulLe(i, Bound(c, n, t) - 1, t);
    }
  }

  /** `c` groups are closed before index `i`: `c == floor(i * t / n)`. */
  predicate ClosedBefore(c: nat, i: nat, n: nat, t: nat) {
    c * n <= i * t < (c + 1) * n
  }

  /** One step of the combining loop: the test closes group `c` at index `i` exactly when
      group `c + 1` starts at `i + 1`. */
  lemma CombineStep(i: nat, c: nat, n: nat, t: nat)
    requires 1 <= t <= n && i < n
    requires ClosedBefore(c, i, n, t)
    ensures (i + 1) * t < (c + 1) * n ==> ClosedBefore(c, i + 1, n, t) && Bound(c, n, t) <= i + 1
    ensures (i + 1) * t >= (c + 1) * n ==>
      ClosedBefore(c + 1, i + 1, n, t) && c + 1 <= t && Bound(c + 1, n, t) == i + 1
  {
    var it, cn := i * t, c * n;
    assert (i + 1) * t == it + t;
    assert (c + 1) * n == cn + n;
    assert (c + 2) * n == cn + n + n;
    if (i + 1) * t >= (c + 1) * n {
      CloseStep(i, c, n, t);
    } else {
      BoundBelow(c, i + 1, n, t);
    }
  }

  /** Closing group `c` at index `i`: the next group starts at `i + 1`, and it exists. */
  lemma CloseStep(i: nat, c: nat, n: nat, t: nat)
    requires 1 <= t <= n && i < n
    requires c * n <= i * t < (c + 1) * n <= (i + 1) * t
    ensures c + 1 <= t && Bound(c + 1, n, t) == i + 1
  {
    var a := (c + 1) * n + t - 1;
    assert (i + 1) * t <= a < (i + 2) * t by {
      assert (i + 2) * t == (i + 1) * t + t;
      assert (i + 1) * t == i * t + t;
    }
    DivExact(a, t, i + 1);
    if c + 1 > t {
      MulLe(t + 1, c + 1, n);
      MulLe(i + 1, n, t);
    }
  }

  /** After the last sentence exactly `t` groups are closed. */
  lemma CombineEnd(c: nat, n: nat, t: nat)
    requires 1 <= t <= n
    requires ClosedBefore(c, n, n, t)
    ensures c == t
  {
    if c > t {
      MulLe(t + 1, c, n);
    } else if c < t {
      MulLe(c + 1, t, n);
    }
  }

  /** A run holds `n / t` sentences rounded down or up, and at least one. */
  lemma RunSize(k: nat, n: nat, t: nat, d: int)
    requires 1 <= t <= n && d == Bound(k + 1, n, t) - Bound(k, n, t)
    ensures d >= 1
    ensures (d - 1) * t < n < (d + 1) * t
  {
    BoundStep(k, n, t);
    var b := Bound(k, n, t);
    var b' := Bound(k + 1, n, t);
    BoundSpec(k, n, t);
    BoundSpec(k + 1, n, t);
    assert (k + 1) * n == k * n + n;
    assert (b' - b - 1) * t == (b' - 1) * t - b * t;
    assert (b' - b + 1) * t == b' * t - (b - 1) * t;
  }

  // ---------------------------------------------------------------------------
  // Properties of combine_sentences

  lemma {:induction false} RunsPrefix(sentences: seq<string>, t: nat, m: nat)
    requires 1 <= t <= |sentences| && m <= t
    ensures Bound(m, |sentences|, t) <= |sentences|
    ensures Concat(Runs(sentences, t)[..m]) == sentences[..Bound(m, |sentences|, t)]
  {
    var n := |sentences|;
    BoundEnds(n, t);
    BoundMonotone(m, t, n, t);
    if m > 0 {
      RunsPrefix(sentences, t, m - 1);
      RunAt(sentences, t, m - 1);
      ConcatPrefixStep(Runs(sentences, t), sentences, m, Bound(m - 1, n, t), Bound(m, n, t));
    }
  }

  /** Appending the next slice extends a prefix of `s` built from consecutive slices. */
  lemma ConcatPrefixStep<T>(runs: seq<seq<T>>, s: seq<T>, m: nat, b0: nat, b1: nat)
    requires 0 < m <= |runs| && b0 <= b1 <= |s|
    requires Concat(runs[..m - 1]) == s[..b0] && runs[m - 1] == s[b0..b1]
    ensures Concat(runs[..m]) == s[..b1]
  {
    assert runs[..m] == runs[..m - 1] + [runs[m - 1]];
    ConcatSnoc(runs[..m - 1], runs[m - 1]);
    assert s[..b1] == s[..b0] + s[b0..b1];
  }

  lemma RunAt(sentences: seq<string>, t: nat, k: nat)
    requires 1 <= t <= |sentences| && k < t
    ensures Bound(k, |sentences|, t) < Bound(k + 1, |sentences|, t) <= |sentences|
    ensures Runs(sentences, t)[k] == sentences[Bound(k, |sentences|, t)..Bound(k + 1, |sentences|, t)]
    ensures |Runs(sentences, t)[k]| == Bound(k + 1, |sentences|, t) - Bound(k, |sentences|, t)
  {
    var n := |sentences|;
    BoundStep(k, n, t);
    BoundMonotone(k + 1, t, n, t);
    BoundEnds(n, t);
  }

  /** `combine_sentences(s, t)` cuts `s` into exactly `t` non-empty runs of consecutive sentences,
      in order and with nothing lost, and every run holds `len(s) / t` sentences rounded down or up. */
  lemma CombineRuns(sentences: seq<string>, t: nat)
    requires 1 <= t <= |sentences|
    ensures |Combine(sentences, t)| == t
    ensures Concat(Runs(sentences, t)) == sentences
    ensures forall k :: 0 <= k < t ==> Runs(sentences, t)[k] != []
    ensures forall k :: 0 <= k < t ==>
      (|Runs(sentences, t)[k]| - 1) * t < |sentences| < (|Runs(sentences, t)[k]| + 1) * t
  {
    var n := |sentences|;
    var runs := Runs(sentences, t);
    RunsPrefix(sentences, t, t);
    BoundEnds(n, t);
    assert runs[..t] == runs;
    forall k | 0 <= k < t
      ensures runs[k] != []
      ensures (|runs[k]| - 1) * t < n < (|runs[k]| + 1) * t
    {
      RunAt(sentences, t, k);
      RunSize(k, n, t, |runs[k]|);
    }
  }

  /** Joining a list of non-empty stripped sentences with single spaces gives a non-empty stripped sentence. */
  lemma {:induction false} JoinSpaceStripped(parts: seq<string>)
    requires parts != []
    requires forall i :: 0 <= i < |parts| ==> parts[i] != [] && Stripped(parts[i])
    ensures JoinSpace(parts) != [] && Stripped(JoinSpace(parts))
    ensures JoinSpace(parts)[0] == parts[0][0]
    ensures JoinSpace(parts)[|JoinSpace(parts)| - 1] == parts[|parts| - 1][|parts[|parts| - 1]| - 1]
  {
    if |parts| > 1 {
      JoinSpaceStripped(parts[1..]);
      var rest := JoinSpace(parts[1..]);
      assert JoinSpace(parts) == parts[0] + " " + rest;
    }
  }

  lemma {:induction false} SqueezeJoinedRuns(runs: seq<seq<string>>)
    ensures Squeeze(Concat(seq(|runs|, k requires 0 <= k < |runs| => JoinSpace(runs[k]))))
         == Squeeze(Concat(Concat(runs)))
  {
    var joined := seq(|runs|, k requires 0 <= k < |runs| => JoinSpace(runs[k]));
    if runs != [] {
      var rest := seq(|runs| - 1, k requires 0 <= k < |runs| - 1 => JoinSpace(runs[1..][k]));
      SqueezeJoinedRuns(runs[1..]);
      assert joined == [JoinSpace(runs[0])] + rest;
      assert Concat(joined) == JoinSpace(runs[0]) + Concat(rest);
      SqueezeAppend(JoinSpace(runs[0]), Concat(rest));
      SqueezeJoinSpace(runs[0]);
      ConcatAppend(runs[0], Concat(runs[1..]));
      SqueezeAppend(Concat(runs[0]), Concat(Concat(runs[1..])));
    }
  }

  /** Combining loses no text and adds only the joining spaces: the non-blank characters of the
      result are those of the input, and stripped, non-empty sentences stay stripped and non-empty. */
  lemma CombineKeepsText(sentences: seq<string>, t: nat)
    requires 1 <= t <= |sentences|
    ensures Squeeze(Concat(Combine(sentences, t))) == Squeeze(Concat(sentences))
    ensures Clean(sentences) ==> Clean(Combine(sentences, t))
  {
    var runs := Runs(sentences, t);
    assert Concat(runs) == sentences by {
      CombineRuns(sentences, t);
    }
    SqueezeJoinedRuns(runs);
    assert Combine(sentences, t) == seq(|runs|, k requires 0 <= k < |runs| => JoinSpace(runs[k]));
    if Clean(sentences) {
      CombineClean(sentences, t);
    }
  }

  lemma CombineClean(sentences: seq<string>, t: nat)
    requires 1 <= t <= |sentences| && Clean(sentences)
    ensures Clean(Combine(sentences, t))
  {
    forall k | 0 <= k < t
      ensures Combine(sentences, t)[k] != [] && Stripped(Combine(sentences, t)[k])
    {
      RunClean(sentences, t, k);
      JoinSpaceStripped(Runs(sentences, t)[k]);
    }
  }

  /** A run of clean sentences is a non-empty list of clean sentences. */
  lemma RunClean(sentences: seq<string>, t: nat, k: nat)
    requires 1 <= t <= |sentences| && k < t && Clean(sentences)
    ensures Runs(sentences, t)[k] != [] && Clean(Runs(sentences, t)[k])
  {
    RunAt(sentences, t, k);
    var run := Runs(sentences, t)[k];
    var b := Bound(k, |sentences|, t);
    forall j | 0 <= j < |run| ensures run[j] != [] && Stripped(run[j]) {
      assert run[j] == sentences[b + j];
    }
  }

  // ---------------------------------------------------------------------------
  // Properties of the two splitting passes

  /** No string of `parts` contains `c`. */
  predicate Avoids(parts: seq<string>, c: char) {
    forall i :: 0 <= i < |parts| ==> c !in parts[i]
  }

  lemma {:induction false} SplitAvoids(s: string, c: char)
    ensures Avoids(Split(s, [c]), c)
    decreases |s|
  {
    if |s| >= 1 {
      SplitAvoids(s[1..], c);
      var rest := Split(s[1..], [c]);
      if s[..1] != [c] {
        assert s[0] != c;
        var r := [[s[0]] + rest[0]] + rest[1..];
        forall i | 0 <= i < |r| ensures c !in r[i] {
          if i > 0 { assert r[i] == rest[i]; }
        }
      }
    }
  }

  lemma {:induction false} StripAllAvoids(parts: seq<string>, c: char)
    requires Avoids(parts, c)
    ensures Avoids(StripAll(parts), c)
  {
    if parts != [] {
      StripAllAvoids(parts[1..], c);
      StripShape(parts[0]);
    }
  }

  lemma {:induction false} MarkAllRemove(text: string, marks: seq<char>)
    requires '|' !in marks
    ensures RemoveChar(MarkAll(text, marks), '|') == RemoveChar(text, '|')
    decreases |marks|
  {
    if marks != [] {
      MarkAllRemove(ReplaceChar(text, marks[0], [marks[0], '|']), marks[1..]);
      RemoveMarks(text, marks[0], '|');
    }
  }

  /** Cutting after marks keeps every non-blank character except the `|` used as the cut. */
  lemma PiecesKeepText(text: string, marks: seq<char>)
    requires '|' !in marks
    ensures Squeeze(Concat(Pieces(text, marks))) == Squeeze(RemoveChar(text, '|'))
  {
    var marked := MarkAll(text, marks);
    StripAllShape(Split(marked, "|"));
    ConcatSplitChar(marked, '|');
    MarkAllRemove(text, marks);
  }

  /** The pieces are non-empty, stripped and free of `|`. */
  lemma PiecesShape(text: string, marks: seq<char>)
    ensures forall i :: 0 <= i < |Pieces(text, marks)| ==>
      Pieces(text, marks)[i] != [] && Stripped(Pieces(text, marks)[i])
    ensures Avoids(Pieces(text, marks), '|')
  {
    var marked := MarkAll(text, marks);
    StripAllShape(Split(marked, "|"));
    SplitAvoids(marked, '|');
    StripAllAvoids(Split(marked, "|"), '|');
  }

  /** A piece with a non-blank first character keeps some text. */
  lemma SqueezeNonBlank(s: string)
    requires s != [] && !IsSpace(s[0])
    ensures Squeeze(s) != []
  {
  }

  /** The clause pass yields non-empty, stripped pieces free of `|`. */
  lemma {:induction false} SplitEachPieces(sentences: seq<string>, marks: seq<char>)
    ensures forall i :: 0 <= i < |SplitEach(sentences, marks)| ==>
      SplitEach(sentences, marks)[i] != [] && Stripped(SplitEach(sentences, marks)[i])
    ensures Avoids(SplitEach(sentences, marks), '|')
  {
    if sentences != [] {
      SplitEachPieces(sentences[..|sentences| - 1], marks);
      PiecesShape(sentences[|sentences| - 1], marks);
    }
  }

  /** The clause pass keeps every non-blank character of sentences free of `|`. */
  lemma {:induction false} SplitEachKeepsText(sentences: seq<string>, marks: seq<char>)
    requires Avoids(sentences, '|') && '|' !in marks
    ensures Squeeze(Concat(SplitEach(sentences, marks))) == Squeeze(Concat(sentences))
  {
    if sentences != [] {
      var prefix := sentences[..|sentences| - 1];
      var last := sentences[|sentences| - 1];
      assert sentences == prefix + [last];
      assert Avoids(prefix, '|') && '|' !in last;
      SplitEachKeepsText(prefix, marks);
      PiecesKeepText(last, marks);
      RemoveAbsentChar(last, '|');
      SqueezeConcatStep(prefix, last, SplitEach(prefix, marks), Pieces(last, marks));
    }
  }

  /** Appending pieces that keep the text of one more part keeps the text of the longer list. */
  lemma SqueezeConcatStep(prefix: seq<string>, last: string, done: seq<string>, parts: seq<string>)
    requires Squeeze(Concat(done)) == Squeeze(Concat(prefix))
    requires Squeeze(Concat(parts)) == Squeeze(last)
    ensures Squeeze(Concat(done + parts)) == Squeeze(Concat(prefix + [last]))
  {
    ConcatAppend(done, parts);
    SqueezeAppend(Concat(done), Concat(parts));
    ConcatSnoc(prefix, last);
    SqueezeAppend(Concat(prefix), last);
  }

  /** The clause pass never yields fewer pieces than the non-empty stripped sentences it is given. */
  lemma {:induction false} SplitEachGrows(sentences: seq<string>, marks: seq<char>)
    requires Avoids(sentences, '|') && '|' !in marks
    requires forall i :: 0 <= i < |sentences| ==> sentences[i] != [] && Stripped(sentences[i])
    ensures |SplitEach(sentences, marks)| >= |sentences|
  {
    if sentences != [] {
      var last := sentences[|sentences| - 1];
      SplitEachGrows(sentences[..|sentences| - 1], marks);
      PiecesKeepText(last, marks);
      RemoveAbsentChar(last, '|');
      SqueezeNonBlank(last);
    }
  }

  /** `split_into_matching_sentences` fails only when asked for no sentences from a text that
      has some; it returns exactly the target count whenever either pass yields at least that
      many pieces, and otherwise the first pass's pieces. */
  lemma MatchCount(text: string, target: nat)
    ensures Match(text, target).Err? <==> target == 0 && InitialSentences(text) != []
    ensures Match(text, target).Err? ==> Match(text, target).error == ZeroDivision
    ensures Match(text, target).Ok? && |InitialSentences(text)| >= target ==>
      |Match(text, target).value| == target
    ensures Match(text, target).Ok? && |ClauseSplit(InitialSentences(text))| >= target ==>
      |Match(text, target).value| == target
    ensures |ClauseSplit(InitialSentences(text))| < target ==>
      Match(text, target) == Ok(InitialSentences(text))
  {
    MarksAvoidBar();
    PassesKeepText(text, SentenceMarks, ClauseMarks);
    DecideCount(InitialSentences(text), ClauseSplit(InitialSentences(text)), target);
  }

  lemma DecideCount(initial: seq<string>, more: seq<string>, target: nat)
    requires |more| >= |initial|
    ensures Decide(initial, more, target).Err? <==> target == 0 && initial != []
    ensures Decide(initial, more, target).Err? ==> Decide(initial, more, target).error == ZeroDivision
    ensures Decide(initial, more, target).Ok? && |initial| >= target ==> |Decide(initial, more, target).value| == target
    ensures Decide(initial, more, target).Ok? && |more| >= target ==> |Decide(initial, more, target).value| == target
    ensures |more| < target ==> Decide(initial, more, target) == Ok(initial)
  {
  }

  /** Every part is non-empty and stripped. */
  predicate Clean(parts: seq<string>) {
    forall i :: 0 <= i < |parts| ==> parts[i] != [] && Stripped(parts[i])
  }

  /** Whatever route it takes, `split_into_matching_sentences` returns non-empty stripped
      sentences that together hold exactly the non-blank characters of the text, `|` aside. */
  lemma MatchKeepsText(text: string, target: nat)
    requires Match(text, target).Ok?
    ensures Squeeze(Concat(Match(text, target).value)) == Squeeze(RemoveChar(text, '|'))
    ensures forall i :: 0 <= i < |Match(text, target).value| ==>
      Match(text, target).value[i] != [] && Stripped(Match(text, target).value[i])
  {
    MarksAvoidBar();
    PassesKeepText(text, SentenceMarks, ClauseMarks);
    DecideKeepsText(InitialSentences(text), ClauseSplit(InitialSentences(text)), target);
  }

  /** The cut marker `|` is none of the marks. */
  lemma MarksAvoidBar()
    ensures '|' !in SentenceMarks && '|' !in ClauseMarks
  {
  }

  /** The two passes yield clean pieces, the second at least as many as the first, and both keep
      the non-blank characters of the text, `|` aside. */
  lemma PassesKeepText(text: string, first: seq<char>, second: seq<char>)
    requires '|' !in first && '|' !in second
    ensures Clean(Pieces(text, first)) && Clean(SplitEach(Pieces(text, first), second))
    ensures |SplitEach(Pieces(text, first), second)| >= |Pieces(text, first)|
    ensures Squeeze(Concat(Pieces(text, first))) == Squeeze(RemoveChar(text, '|'))
    ensures Squeeze(Concat(SplitEach(Pieces(text, first), second))) == Squeeze(RemoveChar(text, '|'))
  {
    var initial := Pieces(text, first);
    PiecesShape(text, first);
    PiecesKeepText(text, first);
    SplitEachPieces(initial, second);
    SplitEachKeepsText(initial, second);
    SplitEachGrows(initial, second);
  }

  lemma DecideKeepsText(initial: seq<string>, more: seq<string>, target: nat)
    requires Decide(initial, more, target).Ok?
    requires Clean(initial) && Clean(more)
    requires Squeeze(Concat(more)) == Squeeze(Concat(initial))
    ensures Squeeze(Concat(Decide(initial, more, target).value)) == Squeeze(Concat(initial))
    ensures Clean(Decide(initial, more, target).value)
  {
    if |initial| < target && |more| > target {
      CombineKeepsText(more, target);
    } else if |initial| > target && target != 0 {
      CombineKeepsText(initial, target);
    }
  }
}
