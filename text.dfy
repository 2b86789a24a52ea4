/** The Python string operations the pipeline relies on, over `string` (a sequence of
    Unicode scalar values, as Python's `str`): whitespace, `split()`, `strip()`,
    `split(sep)`, `sep.join`, `replace`, slicing and decimal formatting. */
module Text {

  /** Python's `str.isspace()` for one character: what `split()` and `strip()` treat as blank. */
  predicate IsSpace(c: char) {
    ('\t' <= c <= '\r') || ('\U{1C}' <= c <= '\U{1F}') || c == ' ' || c == '\U{85}' || c == '\U{A0}'
    || c == '\U{1680}' || ('\U{2000}' <= c <= '\U{200A}') || c == '\U{2028}' || c == '\U{2029}'
    || c == '\U{202F}' || c == '\U{205F}' || c == '\U{3000}'
  }

  predicate NoSpace(s: string) {
    forall i :: 0 <= i < |s| ==> !IsSpace(s[i])
  }

  predicate AllSpace(s: string) {
    forall i :: 0 <= i < |s| ==> IsSpace(s[i])
  }

  /** A string `strip()` leaves unchanged: empty, or neither end is blank. */
  predicate Stripped(s: string) {
    s == [] || (!IsSpace(s[0]) && !IsSpace(s[|s| - 1]))
  }

  /** The characters of `s` that are not blank, in order. */
  function Squeeze(s: string): string {
    if s == [] then [] else (if IsSpace(s[0]) then [] else [s[0]]) + Squeeze(s[1..])
  }

  /** Python's `''.join(parts)` on strings; the flattening of a list of lists in general. */
  function Concat<T>(parts: seq<seq<T>>): seq<T> {
    if parts == [] then [] else parts[0] + Concat(parts[1..])
  }

  /** Python's `sep.join(parts)`. */
  function Join(sep: string, parts: seq<string>): string {
    if |parts| == 0 then []
    else if |parts| == 1 then parts[0]
    else parts[0] + sep + Join(sep, parts[1..])
  }

  function JoinSpace(parts: seq<string>): string {
    Join(" ", parts)
  }

  // ---------------------------------------------------------------------------
  // split() and strip()

  /** The length of the blank prefix of `s`. */
  function SpanSpace(s: string): (n: nat)
    ensures n <= |s|
    ensures forall i :: 0 <= i < n ==> IsSpace(s[i])
    ensures n < |s| ==> !IsSpace(s[n])
  {
    if s == [] || !IsSpace(s[0]) then 0 else 1 + SpanSpace(s[1..])
  }

  /** The length of the non-blank prefix of `s`. */
  function SpanWord(s: string): (n: nat)
    ensures n <= |s|
    ensures forall i :: 0 <= i < n ==> !IsSpace(s[i])
    ensures n < |s| ==> IsSpace(s[n])
  {
    if s == [] || IsSpace(s[0]) then 0 else 1 + SpanWord(s[1..])
  }

  /** Python's `s.split()`: the maximal runs of non-blank characters, in order. */
  function Words(s: string): seq<string>
    decreases |s|
  {
    var k := SpanSpace(s);
    if k == |s| then []
    else
      var t := s[k..];
      var n := SpanWord(t);
      assert t[0] == s[k] && n >= 1;
      [t[..n]] + Words(t[n..])
  }

  function TrimEnd(s: string): (r: string)
    ensures |r| <= |s| && r == s[..|r|]
    ensures forall i :: |r| <= i < |s| ==> IsSpace(s[i])
    ensures r == [] || !IsSpace(r[|r| - 1])
  {
    if s != [] && IsSpace(s[|s| - 1]) then TrimEnd(s[..|s| - 1]) else s
  }

  /** Python's `s.strip()`. */
  function Strip(s: string): string {
    TrimEnd(s[SpanSpace(s)..])
  }

  /** Python's `[p.strip() for p in parts if p.strip()]`. */
  function StripAll(parts: seq<string>): seq<string> {
    if parts == [] then []
    else (if Strip(parts[0]) == [] then [] else [Strip(parts[0])]) + StripAll(parts[1..])
  }

  // ---------------------------------------------------------------------------
  // split(sep), replace, membership, slicing

  predicate StartsWith(s: string, prefix: string) {
    |prefix| <= |s| && s[..|prefix|] == prefix
  }

  /** Python's `sub in s` for strings. */
  predicate Contains(s: string, sub: string)
    decreases |s|
  {
    StartsWith(s, sub) || (s != [] && Contains(s[1..], sub))
  }

  /** Python's `s.split(sep)` for a non-empty separator: cut at the leftmost
      non-overlapping occurrences; n occurrences give n + 1 pieces. */
  function Split(s: string, sep: string): (r: seq<string>)
    requires sep != []
    ensures r != []
    decreases |s|
  {
    if |s| < |sep| then [s]
    else if s[..|sep|] == sep then [[]] + Split(s[|sep|..], sep)
    else
      var rest := Split(s[1..], sep);
      [[s[0]] + rest[0]] + rest[1..]
  }

  /** A string without the separator character is a single piece. */
  lemma {:induction false} SplitNoSep(s: string, c: char)
    requires c !in s
    ensures Split(s, [c]) == [s]
    decreases |s|
  {
    if |s| >= 1 {
      assert s[..1] != [c] by { assert s[..1][0] == s[0]; }
      SplitNoSep(s[1..], c);
      assert [s[0]] + s[1..] == s;
    }
  }

  /** The first separator character closes the first piece. */
  lemma {:induction false} SplitAtSep(a: string, c: char, b: string)
    requires c !in a
    ensures Split(a + [c] + b, [c]) == [a] + Split(b, [c])
    decreases |a|
  {
    var s := a + [c] + b;
    if a == [] {
      assert s[..1] == [c] && s[1..] == b;
    } else {
      assert s[..1] != [c] by { assert s[..1][0] == a[0]; }
      assert s[1..] == a[1..] + [c] + b;
      SplitAtSep(a[1..], c, b);
      assert [a[0]] + a[1..] == a;
    }
  }

  /** Splitting a join on a character none of the parts contains gives the parts back. */
  lemma {:induction false} SplitJoinChar(parts: seq<string>, c: char)
    requires parts != [] && forall i :: 0 <= i < |parts| ==> c !in parts[i]
    ensures Split(Join([c], parts), [c]) == parts
  {
    if |parts| == 1 {
      SplitNoSep(parts[0], c);
    } else {
      SplitJoinChar(parts[1..], c);
      SplitAtSep(parts[0], c, Join([c], parts[1..]));
    }
  }

  /** A join starts with the first part's first character and ends with the last part's last one. */
  lemma {:induction false} JoinEnds(sep: string, parts: seq<string>)
    requires parts != [] && forall i :: 0 <= i < |parts| ==> parts[i] != []
    ensures Join(sep, parts) != []
    ensures Join(sep, parts)[0] == parts[0][0]
    ensures Join(sep, parts)[|Join(sep, parts)| - 1] == parts[|parts| - 1][|parts[|parts| - 1]| - 1]
  {
    if |parts| > 1 {
      JoinEnds(sep, parts[1..]);
    }
  }

  /** Python's `s.replace(c, r)` for a one-character pattern. */
  function ReplaceChar(s: string, c: char, r: string): string {
    if s == [] then [] else (if s[0] == c then r else [s[0]]) + ReplaceChar(s[1..], c, r)
  }

  /** `s` with every `c` deleted. */
  function RemoveChar(s: string, c: char): string {
    if s == [] then [] else (if s[0] == c then [] else [s[0]]) + RemoveChar(s[1..], c)
  }

  /** The non-negative index Python uses for a slice bound `i` on a sequence of length `n`. */
  function SliceIndex(i: int, n: nat): (k: nat)
    ensures k <= n
    ensures 0 <= i <= n ==> k == i
  {
    if i < 0 then (if n + i < 0 then 0 else n + i) else if i > n then n else i
  }

  /** Python's `s[:i]`. */
  function Before<T>(s: seq<T>, i: int): seq<T> {
    s[..SliceIndex(i, |s|)]
  }

  /** Python's `s[i:]`. */
  function From<T>(s: seq<T>, i: int): seq<T> {
    s[SliceIndex(i, |s|)..]
  }

  /** Python's `int(x)` on a real: truncation toward zero. */
  function Trunc(x: real): int {
    if x >= 0.0 then x.Floor else -((-x).Floor)
  }

  // ---------------------------------------------------------------------------
  // Decimal formatting

  function DigitChar(d: nat): char
    requires d < 10
  {
    ('0' as int + d) as char
  }

  predicate IsDigit(c: char) {
    '0' <= c <= '9'
  }

  /** Python's `str(n)` for a natural number. */
  function Digits(n: nat): (r: string)
    ensures r != [] && forall i :: 0 <= i < |r| ==> IsDigit(r[i])
  {
    if n < 10 then [DigitChar(n)] else Digits(n / 10) + [DigitChar(n % 10)]
  }

  function Zeros(k: nat): (r: string)
    ensures |r| == k && forall i :: 0 <= i < k ==> r[i] == '0'
  {
    if k == 0 then [] else Zeros(k - 1) + ['0']
  }

  /** Python's `f"{n:0{width}d}"` for n >= 0. */
  function ZeroPad(n: nat, width: nat): string {
    var d := Digits(n);
    if |d| >= width then d else Zeros(width - |d|) + d
  }

  /** Python's `f"{n:0{width}d}"` for any integer: the sign counts toward the width. */
  function FormatInt(n: int, width: nat): string {
    if n >= 0 then ZeroPad(n, width) else "-" + ZeroPad(-n, if width == 0 then 0 else width - 1)
  }

  /** Python's `int(s)` on a string of decimal digits. */
  function ParseDigits(s: string): nat
    requires forall i :: 0 <= i < |s| ==> IsDigit(s[i])
  {
    if s == [] then 0
    else
      assert IsDigit(s[|s| - 1]);
      10 * ParseDigits(s[..|s| - 1]) + (s[|s| - 1] as int - '0' as int)
  }

  // ===========================================================================
  // Lemmas

  lemma {:induction false} SqueezeAppend(a: string, b: string)
    ensures Squeeze(a + b) == Squeeze(a) + Squeeze(b)
  {
    if a == [] {
      assert a + b == b;
    } else {
      assert (a + b)[1..] == a[1..] + b;
      SqueezeAppend(a[1..], b);
    }
  }

  lemma SqueezeCons(c: char, rest: string)
    ensures Squeeze([c] + rest) == (if IsSpace(c) then [] else [c]) + Squeeze(rest)
  {
    assert ([c] + rest)[1..] == rest;
  }

  lemma {:induction false} SqueezeAllSpace(s: string)
    requires AllSpace(s)
    ensures Squeeze(s) == []
  {
    if s != [] { SqueezeAllSpace(s[1..]); }
  }

  lemma {:induction false} SqueezeNoSpace(s: string)
    requires NoSpace(s)
    ensures Squeeze(s) == s
  {
    if s != [] { SqueezeNoSpace(s[1..]); }
  }

  lemma {:induction false} ConcatAppend<T>(a: seq<seq<T>>, b: seq<seq<T>>)
    ensures Concat(a + b) == Concat(a) + Concat(b)
  {
    if a == [] {
      assert a + b == b;
    } else {
      assert (a + b)[1..] == a[1..] + b;
      ConcatAppend(a[1..], b);
    }
  }

  lemma ConcatOne<T>(x: seq<T>)
    ensures Concat([x]) == x
  {
    assert [x][1..] == [];
  }

  lemma ConcatSnoc<T>(a: seq<seq<T>>, x: seq<T>)
    ensures Concat(a + [x]) == Concat(a) + x
  {
    ConcatAppend(a, [x]);
    ConcatOne(x);
  }

  /** Every element of a part is an element of the flattening. */
  lemma {:induction false} ConcatContains<T>(parts: seq<seq<T>>, i: nat)
    requires i < |parts|
    ensures forall x :: x in parts[i] ==> x in Concat(parts)
  {
    assert Concat(parts) == parts[0] + Concat(parts[1..]);
    if i > 0 {
      ConcatContains(parts[1..], i - 1);
    }
  }

  lemma {:induction false} JoinSnoc(sep: string, a: seq<string>, x: string)
    requires a != []
    ensures Join(sep, a + [x]) == Join(sep, a) + sep + x
  {
    if |a| == 1 {
      assert (a + [x])[1..] == [x];
    } else {
      assert (a + [x])[1..] == a[1..] + [x];
      JoinSnoc(sep, a[1..], x);
    }
  }

  /** Blanks do not matter to a space-join: it squeezes to the squeezed concatenation. */
  lemma {:induction false} SqueezeJoinSpace(parts: seq<string>)
    ensures Squeeze(JoinSpace(parts)) == Squeeze(Concat(parts))
  {
    if |parts| == 1 {
      ConcatOne(parts[0]);
      assert parts == [parts[0]];
    } else if |parts| > 1 {
      SqueezeJoinSpace(parts[1..]);
      SqueezeAppend(parts[0] + " ", JoinSpace(parts[1..]));
      SqueezeAppend(parts[0], " ");
      SqueezeAppend(parts[0], Concat(parts[1..]));
      assert Squeeze(" ") == [];
    }
  }

  /** `''.join(s.split())` is `s` without its blanks. */
  lemma {:induction false} ConcatWords(s: string)
    ensures Concat(Words(s)) == Squeeze(s)
    decreases |s|
  {
    var k := SpanSpace(s);
    SqueezeSkipSpace(s, k);
    if k < |s| {
      var t := s[k..];
      var n := SpanWord(t);
      var rest := t[n..];
      SqueezeSkipWord(t, n);
      ConcatWords(rest);
      assert Words(s) == [t[..n]] + Words(rest);
      ConcatCons(t[..n], Words(rest));
    }
  }

  lemma SqueezeSkipSpace(s: string, k: nat)
    requires k <= |s| && forall i :: 0 <= i < k ==> IsSpace(s[i])
    ensures Squeeze(s) == Squeeze(s[k..])
  {
    assert s == s[..k] + s[k..];
    SqueezeAppend(s[..k], s[k..]);
    SqueezeAllSpace(s[..k]);
  }

  lemma SqueezeSkipWord(t: string, n: nat)
    requires n <= |t| && NoSpace(t[..n])
    ensures Squeeze(t) == t[..n] + Squeeze(t[n..])
  {
    assert t == t[..n] + t[n..];
    SqueezeAppend(t[..n], t[n..]);
    SqueezeNoSpace(t[..n]);
  }

  lemma ConcatCons<T>(x: seq<T>, xs: seq<seq<T>>)
    ensures Concat([x] + xs) == x + Concat(xs)
  {
    ConcatAppend([x], xs);
    ConcatOne(x);
  }

  /** Items of the form `split()` produces: non-empty and blank-free. */
  predicate IsWords(ws: seq<string>) {
    forall i :: 0 <= i < |ws| ==> ws[i] != [] && NoSpace(ws[i])
  }

  /** Every word of `s.split()` is non-empty and blank-free. */
  lemma {:induction false} WordsShape(s: string)
    ensures IsWords(Words(s))
    decreases |s|
  {
    var k := SpanSpace(s);
    if k < |s| {
      var t := s[k..];
      var n := SpanWord(t);
      WordsShape(t[n..]);
      assert NoSpace(t[..n]);
      assert Words(s) == [t[..n]] + Words(t[n..]);
    }
  }

  lemma {:induction false} WordsOfBlankStart(r: string)
    requires r != [] && IsSpace(r[0])
    ensures Words(r) == Words(r[1..])
  {
    assert SpanSpace(r) == 1 + SpanSpace(r[1..]);
    assert r[SpanSpace(r)..] == r[1..][SpanSpace(r[1..])..];
  }

  lemma {:induction false} SpanWordPrefix(w: string, r: string)
    requires NoSpace(w) && (r == [] || IsSpace(r[0]))
    ensures SpanWord(w + r) == |w|
    decreases |w|
  {
    if w != [] {
      assert (w + r)[1..] == w[1..] + r;
      SpanWordPrefix(w[1..], r);
    } else {
      assert w + r == r;
    }
  }

  lemma WordsCons(w: string, r: string)
    requires w != [] && NoSpace(w) && (r == [] || IsSpace(r[0]))
    ensures Words(w + r) == [w] + Words(r)
  {
    SpanWordPrefix(w, r);
    assert (w + r)[..|w|] == w;
    assert (w + r)[|w|..] == r;
  }

  lemma WordsSingle(w: string)
    requires w != [] && NoSpace(w)
    ensures Words(w) == [w]
  {
    WordsCons(w, []);
    assert w + [] == w;
    assert Words([]) == [];
  }

  /** Splitting a space-join of blank-free non-empty tokens gives back the tokens. */
  lemma {:induction false} WordsOfJoinSpace(tokens: seq<string>)
    requires IsWords(tokens)
    ensures Words(JoinSpace(tokens)) == tokens
  {
    if |tokens| == 1 {
      assert tokens[0] != [] && NoSpace(tokens[0]);
      WordsSingle(tokens[0]);
    } else if |tokens| > 1 {
      var head, tail := tokens[0], tokens[1..];
      assert IsWords(tail);
      var rest := JoinSpace(tail);
      WordsOfJoinSpace(tail);
      WordsSpaceCons(head, rest);
    }
  }

  lemma WordsSpaceCons(head: string, rest: string)
    requires head != [] && NoSpace(head)
    ensures Words(head + " " + rest) == [head] + Words(rest)
  {
    var blankRest := " " + rest;
    assert head + " " + rest == head + blankRest;
    WordsCons(head, blankRest);
    WordsOfBlankStart(blankRest);
    assert blankRest[1..] == rest;
  }

  lemma {:induction false} TrimEndShape(s: string)
    ensures Squeeze(TrimEnd(s)) == Squeeze(s)
    ensures TrimEnd(s) == [] <==> AllSpace(s)
    decreases |s|
  {
    if s != [] && IsSpace(s[|s| - 1]) {
      TrimEndShape(s[..|s| - 1]);
      assert s == s[..|s| - 1] + [s[|s| - 1]];
      SqueezeAppend(s[..|s| - 1], [s[|s| - 1]]);
    }
  }

  /** `strip()` removes only blanks, and leaves nothing exactly when `s` is all blank. */
  lemma StripShape(s: string)
    ensures Squeeze(Strip(s)) == Squeeze(s)
    ensures Stripped(Strip(s))
    ensures Strip(s) == [] <==> AllSpace(s)
    ensures Strip(s) == s[SpanSpace(s)..SpanSpace(s) + |Strip(s)|]
  {
    StripSqueeze(s);
    StripEmpty(s, SpanSpace(s));
  }

  /** `strip()` keeps the non-blank characters. */
  lemma StripSqueeze(s: string)
    ensures Squeeze(Strip(s)) == Squeeze(s)
  {
    var k := SpanSpace(s);
    var t := s[k..];
    assert s == s[..k] + t;
    SqueezeAppend(s[..k], t);
    SqueezeAllSpace(s[..k]);
    TrimEndShape(t);
  }

  lemma StripEmpty(s: string, k: nat)
    requires k == SpanSpace(s)
    ensures Strip(s) == [] <==> AllSpace(s)
  {
    TrimEndShape(s[k..]);
    if AllSpace(s[k..]) {
      assert k == |s|;
    }
  }

  lemma {:induction false} TrimEndStripped(s: string)
    requires s == [] || !IsSpace(s[|s| - 1])
    ensures TrimEnd(s) == s
  {
  }

  lemma StrippedStrip(s: string)
    requires Stripped(s)
    ensures Strip(s) == s
  {
    assert SpanSpace(s) == 0;
  }

  /** `[p.strip() for p in parts if p.strip()]` keeps every non-blank character, in order. */
  lemma {:induction false} StripAllShape(parts: seq<string>)
    ensures Squeeze(Concat(StripAll(parts))) == Squeeze(Concat(parts))
    ensures |StripAll(parts)| <= |parts|
    ensures forall i :: 0 <= i < |StripAll(parts)| ==> StripAll(parts)[i] != [] && Stripped(StripAll(parts)[i])
  {
    if parts != [] {
      var head := if Strip(parts[0]) == [] then [] else [Strip(parts[0])];
      StripAllShape(parts[1..]);
      StripShape(parts[0]);
      ConcatAppend(head, StripAll(parts[1..]));
      SqueezeAppend(Concat(head), Concat(StripAll(parts[1..])));
      SqueezeAppend(parts[0], Concat(parts[1..]));
      if head == [] {
        SqueezeAllSpace(parts[0]);
      } else {
        ConcatOne(Strip(parts[0]));
      }
    }
  }

  lemma {:induction false} JoinSplit(s: string, sep: string)
    requires sep != []
    ensures Join(sep, Split(s, sep)) == s
    decreases |s|
  {
    if |s| < |sep| {
    } else if s[..|sep|] == sep {
      JoinSplit(s[|sep|..], sep);
      JoinConsEmpty(sep, Split(s[|sep|..], sep));
      assert s == sep + s[|sep|..];
    } else {
      JoinSplit(s[1..], sep);
      JoinConsHead(sep, s[0], Split(s[1..], sep));
      assert s == [s[0]] + s[1..];
    }
  }

  lemma JoinConsEmpty(sep: string, rest: seq<string>)
    requires rest != []
    ensures Join(sep, [[]] + rest) == sep + Join(sep, rest)
  {
    assert ([[]] + rest)[1..] == rest;
  }

  lemma JoinConsHead(sep: string, c: char, rest: seq<string>)
    requires rest != []
    ensures Join(sep, [[c] + rest[0]] + rest[1..]) == [c] + Join(sep, rest)
  {
    var parts := [[c] + rest[0]] + rest[1..];
    if |rest| > 1 {
      assert parts[1..] == rest[1..];
    }
  }

  /** Splitting on a one-character separator and gluing the pieces deletes that character. */
  lemma {:induction false} ConcatSplitChar(s: string, c: char)
    ensures Concat(Split(s, [c])) == RemoveChar(s, c)
    decreases |s|
  {
    if |s| >= 1 {
      ConcatSplitChar(s[1..], c);
      var rest := Split(s[1..], [c]);
      if s[..1] == [c] {
        assert s[0] == c;
        assert Concat([[]] + rest) == [] + Concat(rest);
      } else {
        assert s[0] != c;
        assert ([[s[0]] + rest[0]] + rest[1..])[1..] == rest[1..];
        assert Concat(rest) == rest[0] + Concat(rest[1..]);
      }
    }
  }

  lemma {:induction false} RemoveCharAppend(a: string, b: string, c: char)
    ensures RemoveChar(a + b, c) == RemoveChar(a, c) + RemoveChar(b, c)
  {
    if a == [] {
      assert a + b == b;
    } else {
      assert (a + b)[1..] == a[1..] + b;
      RemoveCharAppend(a[1..], b, c);
    }
  }

  /** Marking every `c` with a following `bar` adds nothing but bars. */
  lemma {:induction false} RemoveMarks(s: string, c: char, bar: char)
    requires c != bar
    ensures RemoveChar(ReplaceChar(s, c, [c, bar]), bar) == RemoveChar(s, bar)
  {
    if s != [] {
      RemoveMarks(s[1..], c, bar);
      var head := if s[0] == c then [c, bar] else [s[0]];
      RemoveCharAppend(head, ReplaceChar(s[1..], c, [c, bar]), bar);
      assert RemoveChar([bar], bar) == [];
    }
  }

  lemma {:induction false} RemoveAbsentChar(s: string, c: char)
    requires c !in s
    ensures RemoveChar(s, c) == s
  {
    if s != [] { RemoveAbsentChar(s[1..], c); }
  }

  lemma {:induction false} ParseZeros(k: nat)
    ensures ParseDigits(Zeros(k)) == 0
  {
    if k > 0 {
      ParseZeros(k - 1);
      assert Zeros(k)[..k - 1] == Zeros(k - 1);
    }
  }

  lemma {:induction false} ParseLeadingZeros(k: nat, d: string)
    requires forall i :: 0 <= i < |d| ==> IsDigit(d[i])
    ensures ParseDigits(Zeros(k) + d) == ParseDigits(d)
    decreases |d|
  {
    if d == [] {
      assert Zeros(k) + d == Zeros(k);
      ParseZeros(k);
    } else {
      ParseLeadingZeros(k, d[..|d| - 1]);
      assert (Zeros(k) + d)[..|Zeros(k) + d| - 1] == Zeros(k) + d[..|d| - 1];
    }
  }

  /** `int(str(n)) == n`. */
  lemma {:induction false} ParseDigitsOf(n: nat)
    ensures ParseDigits(Digits(n)) == n
  {
    if n >= 10 {
      ParseDigitsOf(n / 10);
      var d := Digits(n);
      assert d[..|d| - 1] == Digits(n / 10);
    }
  }

  /** Zero padding is read back as the same number: `int(f"{n:0{w}d}") == n`. */
  lemma ParseZeroPad(n: nat, width: nat)
    ensures forall i :: 0 <= i < |ZeroPad(n, width)| ==> IsDigit(ZeroPad(n, width)[i])
    ensures ParseDigits(ZeroPad(n, width)) == n
    ensures |ZeroPad(n, width)| >= width
  {
    ParseDigitsOf(n);
    if |Digits(n)| < width {
      ParseLeadingZeros(width - |Digits(n)|, Digits(n));
    }
  }

  /** A number below 10^w takes exactly `w` characters once zero-padded to `w`. */
  lemma {:induction false} DigitsLength(n: nat, w: nat)
    requires w >= 1
    requires n < Pow10(w)
    ensures |Digits(n)| <= w
  {
    if n >= 10 {
      DigitsLength(n / 10, w - 1);
    }
  }

  function Pow10(k: nat): nat {
    if k == 0 then 1 else 10 * Pow10(k - 1)
  }

  // ---------------------------------------------------------------------------
  // Slicing steps

  lemma PrefixAll<T>(s: seq<T>)
    ensures s[..|s|] == s
  {
  }

  lemma PrefixSnoc<T>(s: seq<T>, k: nat)
    requires 0 < k <= |s|
    ensures s[..k] == s[..k - 1] + [s[k - 1]]
  {
  }

  lemma PrefixSplit<T>(s: seq<T>, from: nat, to: nat)
    requires from <= to <= |s|
    ensures s[..to] == s[..from] + s[from..to]
  {
  }

  lemma AppendAssoc<T>(a: seq<T>, b: seq<T>, c: seq<T>)
    ensures (a + b) + c == a + (b + c)
  {
  }

  lemma TakeDrop<T>(s: seq<T>, n: nat)
    requires n <= |s|
    ensures s[..n] + s[n..] == s
  {
  }

  lemma DropLastAppend<T>(a: seq<T>, b: seq<T>)
    requires b != []
    ensures (a + b)[..|a + b| - 1] == a + b[..|b| - 1]
    ensures (a + b)[|a + b| - 1] == b[|b| - 1]
  {
  }
}
