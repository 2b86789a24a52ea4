/** SubRip timecodes (`format_time_srt` in sentence_utils.py). */
module SrtTime {
  import opened Text

  /** Python's `x % d` on floats for a positive modulus: the remainder lies in `[0, d)`. */
  function RealMod(x: real, d: real): (r: real)
    requires d > 0.0
    ensures 0.0 <= r < d
  {
    FloorBounds(x, d);
    x - d * ((x / d).Floor as real)
  }

  /** `d * floor(x / d) <= x < d * floor(x / d) + d` for a positive `d`. */
  lemma FloorBounds(x: real, d: real)
    requires d > 0.0
    ensures d * ((x / d).Floor as real) <= x < d * ((x / d).Floor as real) + d
  {
    var y := x / d;
    ScaleBounds(x, d, y, y.Floor as real);
  }

  lemma ScaleBounds(x: real, d: real, y: real, q: real)
    requires d > 0.0 && x == d * y && q <= y < q + 1.0
    ensures d * q <= x < d * q + d
  {
    var e := q + 1.0 - y;
    assert e > 0.0;
    assert d * e > 0.0;
    assert d * q + d - x == d * e;
    assert x - d * q == d * (y - q);
  }

  /** The four numeric fields of a timecode. */
  datatype Timecode = Timecode(hours: int, minutes: int, seconds: int, millis: int)

  /** The fields `format_time_srt(s)` prints. */
  function Fields(s: real): Timecode {
    var hours := (s / 3600.0).Floor;
    var minutes := (RealMod(s, 3600.0) / 60.0).Floor;
    var remainder := RealMod(s, 60.0);
    var whole := Trunc(remainder);
    var millis := Trunc((remainder - whole as real) * 1000.0);
    Timecode(hours, minutes, whole, millis)
  }

  /** The f-string `{h:02d}:{m:02d}:{s:02d},{ms:03d}`. */
  function Render(t: Timecode): string {
    FormatInt(t.hours, 2) + ":" + FormatInt(t.minutes, 2) + ":" + FormatInt(t.seconds, 2) + ","
      + FormatInt(t.millis, 3)
  }

  /** `format_time_srt(s)`. */
  function FormatTimeSrt(s: real): string {
    Render(Fields(s))
  }

  predicate AllDigits(s: string) {
    forall i :: 0 <= i < |s| ==> IsDigit(s[i])
  }

  /** A string of the shape `H…H:MM:SS,mmm` with at least two hour digits. */
  predicate IsTimecode(t: string) {
    |t| >= 12 && t[|t| - 10] == ':' && t[|t| - 7] == ':' && t[|t| - 4] == ','
    && AllDigits(t[..|t| - 10]) && AllDigits(t[|t| - 9..|t| - 7])
    && AllDigits(t[|t| - 6..|t| - 4]) && AllDigits(t[|t| - 3..])
  }

  /** The instant a timecode denotes, in whole milliseconds. */
  function TimecodeMillis(t: string): nat
    requires IsTimecode(t)
  {
    ParseDigits(t[..|t| - 10]) * 3600000 + ParseDigits(t[|t| - 9..|t| - 7]) * 60000
    + ParseDigits(t[|t| - 6..|t| - 4]) * 1000 + ParseDigits(t[|t| - 3..])
  }

  lemma FloorShift(n: int, x: real)
    ensures (n as real + x).Floor == n + x.Floor
  {
  }

  /** The fields are in range, and together they are the instant truncated to milliseconds. */
  lemma FieldsExact(s: real)
    ensures s >= 0.0 ==> Fields(s).hours >= 0
    ensures 0 <= Fields(s).minutes < 60 && 0 <= Fields(s).seconds < 60 && 0 <= Fields(s).millis < 1000
    ensures Fields(s).hours * 3600000 + Fields(s).minutes * 60000 + Fields(s).seconds * 1000 + Fields(s).millis
      == (s * 1000.0).Floor
  {
    var h := (s / 3600.0).Floor;
    var r1 := RealMod(s, 3600.0);
    assert r1 == s - 3600.0 * h as real;
    var m := (r1 / 60.0).Floor;
    assert 0 <= m < 60;
    assert s / 60.0 == (60 * h) as real + r1 / 60.0;
    FloorShift(60 * h, r1 / 60.0);
    var rem := RealMod(s, 60.0);
    assert rem == r1 - 60.0 * m as real;
    var sec := rem.Floor;
    var frac := (rem - sec as real) * 1000.0;
    assert 0.0 <= frac < 1000.0;
    FloorShift(3600000 * h + 60000 * m + 1000 * sec, frac);
    assert (3600000 * h + 60000 * m + 1000 * sec) as real + frac == s * 1000.0;
  }

  /** A zero-padded field of a number below 10^w is exactly `w` digits long. */
  lemma PaddedField(n: nat, w: nat)
    requires 1 <= w && n < Pow10(w)
    ensures |ZeroPad(n, w)| == w && AllDigits(ZeroPad(n, w)) && ParseDigits(ZeroPad(n, w)) == n
  {
    ParseZeroPad(n, w);
    DigitsLength(n, w);
  }

  /** The layout `H…H:MM:SS,mmm` read back field by field. */
  lemma TimecodeLayout(hh: string, mm: string, ss: string, ms: string)
    requires |hh| >= 2 && |mm| == 2 && |ss| == 2 && |ms| == 3
    requires AllDigits(hh) && AllDigits(mm) && AllDigits(ss) && AllDigits(ms)
    ensures var t := hh + ":" + mm + ":" + ss + "," + ms;
      |t| == |hh| + 10 && t[..|t| - 10] == hh && t[|t| - 9..|t| - 7] == mm
      && t[|t| - 6..|t| - 4] == ss && t[|t| - 3..] == ms && IsTimecode(t)
  {
    var tail := [':'] + mm + [':'] + ss + [','] + ms;
    var t := hh + tail;
    assert t == hh + ":" + mm + ":" + ss + "," + ms;
    var n := |hh|;
    assert |tail| == 10;
    assert t[..n] == hh;
    assert t[n..] == tail;
    assert tail[1..3] == mm && tail[4..6] == ss && tail[7..] == ms;
    assert t[n + 1..n + 3] == tail[1..3];
    assert t[n + 4..n + 6] == tail[4..6];
    assert t[n + 7..] == tail[7..];
  }

  /** A rendered timecode with fields in range reads back as the instant it denotes. */
  lemma RenderRoundTrip(t: Timecode)
    requires t.hours >= 0 && 0 <= t.minutes < 60 && 0 <= t.seconds < 60 && 0 <= t.millis < 1000
    ensures IsTimecode(Render(t))
    ensures TimecodeMillis(Render(t)) == t.hours * 3600000 + t.minutes * 60000 + t.seconds * 1000 + t.millis
  {
    var hh := ZeroPad(t.hours, 2);
    var mm := ZeroPad(t.minutes, 2);
    var ss := ZeroPad(t.seconds, 2);
    var ms := ZeroPad(t.millis, 3);
    ParseZeroPad(t.hours, 2);
    PaddedField(t.minutes, 2);
    PaddedField(t.seconds, 2);
    PaddedField(t.millis, 3);
    assert Render(t) == hh + ":" + mm + ":" + ss + "," + ms;
    LayoutMillis(hh, mm, ss, ms);
  }

  /** The instant a laid-out timecode denotes, from its four digit fields. */
  lemma LayoutMillis(hh: string, mm: string, ss: string, ms: string)
    requires |hh| >= 2 && |mm| == 2 && |ss| == 2 && |ms| == 3
    requires AllDigits(hh) && AllDigits(mm) && AllDigits(ss) && AllDigits(ms)
    ensures IsTimecode(hh + ":" + mm + ":" + ss + "," + ms)
    ensures TimecodeMillis(hh + ":" + mm + ":" + ss + "," + ms)
      == ParseDigits(hh) * 3600000 + ParseDigits(mm) * 60000 + ParseDigits(ss) * 1000 + ParseDigits(ms)
  {
    TimecodeLayout(hh, mm, ss, ms);
  }

  /** Reading back a timecode printed for a non-negative instant gives the instant in whole
      milliseconds. */
  lemma FormatTimeSrtRoundTrip(s: real)
    requires s >= 0.0
    ensures IsTimecode(FormatTimeSrt(s))
    ensures TimecodeMillis(FormatTimeSrt(s)) == (s * 1000.0).Floor
  {
    FieldsExact(s);
    RenderRoundTrip(Fields(s));
  }
}
