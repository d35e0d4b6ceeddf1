/** The SubRip encoder of utils/srt.py: the timestamp formatter, which splits
    a millisecond count with `//` and `%`, and the document writer, which
    writes one cue per segment into a newly opened file. */
module Srt {
  import opened Decimal
  import opened Text
  import opened Segments
  import opened Sinks

  datatype Option<T> = None | Some(value: T)

  /** The four printed fields of a timestamp `H:MM:SS,mmm`. The hours are
      negative only for a negative count, which utils/srt.py does not reject. */
  datatype Fields = Fields(hours: int, minutes: nat, seconds: nat, millis: nat)

  /** The number of milliseconds the fields stand for. */
  function Total(f: Fields): int {
    f.hours * 3600000 + f.minutes * 60000 + f.seconds * 1000 + f.millis
  }

  /** Minutes and seconds below 60, milliseconds below 1000; hours unbounded. */
  predicate InRange(f: Fields) {
    f.minutes < 60 && f.seconds < 60 && f.millis < 1000
  }

  /** The split by floor division and remainder, as utils/srt.py writes it.
      Python's `//` and `%` by a positive divisor agree with Dafny's `/` and
      `%`, negative counts included, so every field but the hours lies in
      its range and the hours carry the sign. */
  function Split(ms: int): (f: Fields)
    ensures InRange(f)
    ensures ms >= 0 <==> f.hours >= 0
  {
    Fields(ms / 3600000, (ms % 3600000) / 60000, (ms % 60000) / 1000, ms % 1000)
  }

  /** The fields recombine to the count they were split from. */
  lemma SplitTotal(ms: int)
    ensures Total(Split(ms)) == ms
  {
    var h, r1 := ms / 3600000, ms % 3600000;
    var m, r2 := r1 / 60000, r1 % 60000;
    var s, x := r2 / 1000, r2 % 1000;
    DivModUnique(ms, 60000, h * 60 + m, r2);
    DivModUnique(ms, 1000, h * 3600 + m * 60 + s, x);
    assert Split(ms) == Fields(h, m, s, x);
  }

  lemma {:induction false} MulAtLeast(k: int, d: int)
    requires k >= 1 && d > 0
    ensures k * d >= d
    decreases k
  {
    if k > 1 {
      MulAtLeast(k - 1, d);
      assert k * d == (k - 1) * d + d;
    }
  }

  /** Floor division by a positive divisor has exactly one quotient and remainder. */
  lemma DivModUnique(x: int, d: int, q: int, r: int)
    requires d > 0 && 0 <= r < d && x == q * d + r
    ensures x / d == q && x % d == r
  {
    var q', r' := x / d, x % d;
    assert x == q' * d + r' && 0 <= r' < d;
    if q' > q {
      MulAtLeast(q' - q, d);
    } else if q' < q {
      MulAtLeast(q - q', d);
    }
  }

  /** There is only one way to write a count as in-range fields, so any split
      that recombines and respects the ranges is this one. */
  lemma SplitUnique(ms: int, f: Fields)
    requires Total(f) == ms && InRange(f)
    ensures f == Split(ms)
  {
    var belowMin := f.seconds * 1000 + f.millis;
    var below := f.minutes * 60000 + belowMin;
    DivModUnique(ms, 3600000, f.hours, below);
    DivModUnique(below, 60000, f.minutes, belowMin);
    DivModUnique(ms, 60000, f.hours * 60 + f.minutes, belowMin);
    DivModUnique(belowMin, 1000, f.seconds, f.millis);
    DivModUnique(ms, 1000, f.hours * 3600 + f.minutes * 60 + f.seconds, f.millis);
  }

  /** The printed timestamp: the hours in as many digits as they need (with
      a minus sign when negative), a colon, the minutes and the seconds
      zero-padded to two digits with a colon between them, a comma, and the
      milliseconds zero-padded to three digits. */
  function Render(f: Fields): (r: string)
    ensures |r| >= 11
  {
    Str(f.hours) + ":" + ZeroPad(f.minutes, 2) + ":" + ZeroPad(f.seconds, 2) + "," + ZeroPad(f.millis, 3)
  }

  /** `srt_format_timestamp` on a millisecond count. */
  function FormatTimestamp(ms: int): (r: string)
    ensures |r| >= 11
  {
    Render(Split(ms))
  }

  /** The shape `^\d+:\d{2}:\d{2},\d{3}$` with the hours written without
      leading zeros. */
  predicate Shaped(s: string) {
    |s| >= 11
    && Canonical(s[..|s| - 10])
    && s[|s| - 10] == ':' && AllDigits(s[|s| - 9..|s| - 7])
    && s[|s| - 7] == ':' && AllDigits(s[|s| - 6..|s| - 4])
    && s[|s| - 4] == ',' && AllDigits(s[|s| - 3..])
  }

  /** Where each field of a rendered timestamp sits: the minutes, seconds and
      milliseconds take exactly 2, 2 and 3 characters, the hours the rest. */
  lemma RenderSlices(f: Fields)
    requires InRange(f)
    ensures var s := Render(f);
      |s| == |Str(f.hours)| + 10
      && s[..|s| - 10] == Str(f.hours) && s[|s| - 10] == ':'
      && s[|s| - 9..|s| - 7] == ZeroPad(f.minutes, 2) && s[|s| - 7] == ':'
      && s[|s| - 6..|s| - 4] == ZeroPad(f.seconds, 2) && s[|s| - 4] == ','
      && s[|s| - 3..] == ZeroPad(f.millis, 3)
  {
    DecLength(f.minutes, 2);
    DecLength(f.seconds, 2);
    DecLength(f.millis, 3);
    var h, m, sec, x := Str(f.hours), ZeroPad(f.minutes, 2), ZeroPad(f.seconds, 2), ZeroPad(f.millis, 3);
    var tail := [':'] + m + [':'] + sec + [','] + x;
    assert |tail| == 10;
    assert Render(f) == h + tail;
    assert tail[1..3] == m && tail[4..6] == sec && tail[7..] == x;
  }

  /** Every formatted non-negative time has the shape `H:MM:SS,mmm`: the
      hours in as many digits as they need, the other fields in exactly 2, 2
      and 3. */
  lemma FormatShaped(ms: nat)
    ensures Shaped(FormatTimestamp(ms))
  {
    var f := Split(ms);
    RenderSlices(f);
    DecDigits(f.hours);
    ZeroPadDigits(f.minutes, 2);
    ZeroPadDigits(f.seconds, 2);
    ZeroPadDigits(f.millis, 3);
  }

  /** Reads `H:MM:SS,mmm` back into milliseconds; `None` for anything that is
      not shaped as the formatter writes or has out-of-range fields. */
  function ParseTimestamp(s: string): Option<nat> {
    if !Shaped(s) then None
    else
      var f := Fields(Value(s[..|s| - 10]), Value(s[|s| - 9..|s| - 7]),
                      Value(s[|s| - 6..|s| - 4]), Value(s[|s| - 3..]));
      if InRange(f) then Some(Total(f)) else None
  }

  /** Reading a formatted timestamp recovers the exact millisecond count. */
  lemma ParseFormat(ms: nat)
    ensures ParseTimestamp(FormatTimestamp(ms)) == Some(ms)
  {
    FormatShaped(ms);
    SplitTotal(ms);
    var f := Split(ms);
    RenderSlices(f);
    DecDigits(f.hours);
    ZeroPadDigits(f.minutes, 2);
    ZeroPadDigits(f.seconds, 2);
    ZeroPadDigits(f.millis, 3);
  }

  /** A shaped string is its four fields put back together with the separators. */
  lemma ShapedPieces(s: string)
    requires Shaped(s)
    ensures var n := |s|;
      s == s[..n - 10] + ":" + s[n - 9..n - 7] + ":" + s[n - 6..n - 4] + "," + s[n - 3..]
  {
    var n := |s|;
    assert s[n - 10..] == [':'] + s[n - 9..n - 7] + [':'] + s[n - 6..n - 4] + [','] + s[n - 3..];
    assert s == s[..n - 10] + s[n - 10..];
  }

  /** Conversely, every string the reader accepts is the formatting of what
      it reads, so the formatter is a bijection onto the accepted strings. */
  lemma FormatParse(s: string, ms: nat)
    requires ParseTimestamp(s) == Some(ms)
    ensures FormatTimestamp(ms) == s
  {
    var n := |s|;
    var hs, ms2, ss, xs := s[..n - 10], s[n - 9..n - 7], s[n - 6..n - 4], s[n - 3..];
    var f := Fields(Value(hs), Value(ms2), Value(ss), Value(xs));
    SplitUnique(ms, f);
    DecOfValue(hs);
    ZeroPadOfValue(ms2);
    ZeroPadOfValue(ss);
    ZeroPadOfValue(xs);
    ShapedPieces(s);
    assert Render(f) == hs + ":" + ms2 + ":" + ss + "," + xs;
  }

  /** Distinct non-negative times never print alike. */
  lemma FormatInjective(a: nat, b: nat)
    requires FormatTimestamp(a) == FormatTimestamp(b)
    ensures a == b
  {
    ParseFormat(a);
    ParseFormat(b);
  }

  /** The printed timestamp, given how each of its fields prints. */
  lemma FormatOfFields(ms: int, f: Fields, h: string, m: string, s: string, x: string)
    requires Split(ms) == f && Str(f.hours) == h
    requires ZeroPad(f.minutes, 2) == m && ZeroPad(f.seconds, 2) == s && ZeroPad(f.millis, 3) == x
    ensures FormatTimestamp(ms) == h + ":" + m + ":" + s + "," + x
  {
  }

  /** Zero prints with a single hour digit and all fields padded. */
  lemma FormatZero()
    ensures FormatTimestamp(0) == "0:00:00,000"
  {
    var f := Fields(0, 0, 0, 0);
    assert Split(0) == f;
    assert Str(0) == "0" && ZeroPad(0, 2) == "00" && ZeroPad(0, 3) == "000";
    FormatOfFields(0, f, "0", "00", "00", "000");
  }

  /** One hour, one minute, one and a half seconds. */
  lemma FormatMixed()
    ensures FormatTimestamp(3661500) == "1:01:01,500"
  {
    var f := Fields(1, 1, 1, 500);
    assert Split(3661500) == f;
    assert Str(1) == "1" && ZeroPad(1, 2) == "01" && ZeroPad(500, 3) == "500";
    FormatOfFields(3661500, f, "1", "01", "01", "500");
  }

  /** Ten hours: the hours take as many digits as they need. */
  lemma FormatTenHours()
    ensures FormatTimestamp(36000000) == "10:00:00,000"
  {
    var f := Fields(10, 0, 0, 0);
    assert Split(36000000) == f;
    assert Str(10) == "10" && ZeroPad(0, 2) == "00" && ZeroPad(0, 3) == "000";
    FormatOfFields(36000000, f, "10", "00", "00", "000");
  }

  /** A negative count is not rejected: floor division makes the hours
      negative and the other fields count up from there. */
  lemma FormatNegative()
    ensures FormatTimestamp(-1) == "-1:59:59,999"
  {
    var f := Fields(-1, 59, 59, 999);
    assert Split(-1) == f;
    assert Str(-1) == "-1" by { assert Dec(1) == "1"; }
    assert ZeroPad(59, 2) == "59" && ZeroPad(999, 3) == "999";
    FormatOfFields(-1, f, "-1", "59", "59", "999");
  }

  lemma FormatOneSecond()
    ensures FormatTimestamp(1000) == "0:00:01,000"
  {
    var f := Fields(0, 0, 1, 0);
    assert Split(1000) == f;
    assert Str(0) == "0" && ZeroPad(0, 2) == "00" && ZeroPad(1, 2) == "01" && ZeroPad(0, 3) == "000";
    FormatOfFields(1000, f, "0", "00", "01", "000");
  }

  lemma FormatTwoSeconds()
    ensures FormatTimestamp(2000) == "0:00:02,000"
  {
    var f := Fields(0, 0, 2, 0);
    assert Split(2000) == f;
    assert Str(0) == "0" && ZeroPad(0, 2) == "00" && ZeroPad(2, 2) == "02" && ZeroPad(0, 3) == "000";
    FormatOfFields(2000, f, "0", "00", "02", "000");
  }

  /** The first line of a cue: its number. */
  function IndexLine(index: nat): (r: string)
    ensures |r| >= 2 && r[|r| - 1] == '\n'
  {
    Dec(index) + "\n"
  }

  /** The second line of a cue: `start --> end`. */
  function TimingLine(seg: Segment): (r: string)
    ensures |r| >= 28 && r[|r| - 1] == '\n'
  {
    FormatTimestamp(seg.start) + " --> " + FormatTimestamp(seg.end) + "\n"
  }

  /** The text of a cue followed by the blank line that ends it; the text
      itself never grows. */
  function TextBlock(seg: Segment): (r: string)
    ensures 2 <= |r| <= |seg.text| + 2 && r[|r| - 2..] == "\n\n"
  {
    Sanitize(seg.text) + "\n\n"
  }

  /** One cue: its number, the time range, the sanitized text and a blank
      line, so every cue is at least 32 characters and ends in a blank line. */
  function Cue(index: nat, seg: Segment): (r: string)
    ensures |r| >= 32 && r[|r| - 2..] == "\n\n"
  {
    var head, block := IndexLine(index) + TimingLine(seg), TextBlock(seg);
    SuffixOfAppend(head, block);
    head + block
  }

  lemma SuffixOfAppend(x: string, y: string)
    requires |y| >= 2
    ensures (x + y)[|x + y| - 2..] == y[|y| - 2..]
  {
    assert (x + y)[|x + y| - 2..] == y[|y| - 2..];
  }

  /** The segments rendered in order, the one at position k with the number
      k + 1. */
  function Numbered(segs: seq<Segment>, render: (nat, Segment) -> string): (parts: seq<string>)
    ensures |parts| == |segs|
  {
    seq(|segs|, k requires 0 <= k < |segs| => render(k + 1, segs[k]))
  }

  /** The parts concatenated in order; the first part starts the result. */
  function Join(parts: seq<string>): (r: string)
    ensures parts != [] ==> parts[0] <= r
  {
    if parts == [] then [] else parts[0] + Join(parts[1..])
  }

  /** The whole document: the cues in input order, numbered from 1. No
      segments, no output. */
  function Document(segs: seq<Segment>): (r: string)
    ensures segs == [] ==> r == []
  {
    Join(Numbered(segs, Cue))
  }

  lemma {:induction false} JoinAppend(a: seq<string>, b: seq<string>)
    ensures Join(a + b) == Join(a) + Join(b)
  {
    if a == [] {
      assert a + b == b;
    } else {
      assert (a + b)[1..] == a[1..] + b;
      JoinAppend(a[1..], b);
    }
  }

  /** One more segment adds one more part, numbered after the others. */
  lemma NumberedAppend(segs: seq<Segment>, seg: Segment, render: (nat, Segment) -> string)
    ensures Join(Numbered(segs + [seg], render)) == Join(Numbered(segs, render)) + render(|segs| + 1, seg)
  {
    var last := render(|segs| + 1, seg);
    assert Numbered(segs + [seg], render) == Numbered(segs, render) + [last];
    JoinAppend(Numbered(segs, render), [last]);
    assert Join([last]) == last + Join([]);
  }

  /** Writing one more segment only appends its cue, numbered after all the
      earlier ones; what was written before is never changed. */
  lemma DocumentAppend(segs: seq<Segment>, seg: Segment)
    ensures Document(segs + [seg]) == Document(segs) + Cue(|segs| + 1, seg)
  {
    NumberedAppend(segs, seg, Cue);
  }

  lemma {:induction false} NumberedPrefix(segs: seq<Segment>, k: nat, render: (nat, Segment) -> string)
    requires k <= |segs|
    ensures Join(Numbered(segs[..k], render)) <= Join(Numbered(segs, render))
    decreases |segs| - k
  {
    if k < |segs| {
      NumberedAppend(segs[..k], segs[k], render);
      assert segs[..k] + [segs[k]] == segs[..k + 1];
      NumberedPrefix(segs, k + 1, render);
    } else {
      assert segs[..k] == segs;
    }
  }

  /** The document of a prefix of the segments is a prefix of the document:
      a writer interrupted after k segments leaves a prefix of the full file. */
  lemma DocumentPrefix(segs: seq<Segment>, k: nat)
    requires k <= |segs|
    ensures Document(segs[..k]) <= Document(segs)
  {
    NumberedPrefix(segs, k, Cue);
  }

  /** No segments, no output; and every segment yields a non-empty cue. */
  lemma DocumentEmpty(segs: seq<Segment>)
    ensures Document(segs) == [] <==> segs == []
  {
    if segs != [] {
      var parts := Numbered(segs, Cue);
      assert parts[0] == Cue(1, segs[0]);
      assert |Join(parts)| >= |parts[0]|;
    }
  }

  /** Only time and text decide the document; the segments' own ids do not. */
  lemma DocumentIgnoresIds(s: seq<Segment>, t: seq<Segment>)
    requires |s| == |t|
    requires forall k :: 0 <= k < |s| ==>
               s[k].start == t[k].start && s[k].end == t[k].end && s[k].text == t[k].text
    ensures Document(s) == Document(t)
  {
    assert Numbered(s, Cue) == Numbered(t, Cue) by {
      forall k | 0 <= k < |s| ensures Numbered(s, Cue)[k] == Numbered(t, Cue)[k] {
        assert s[k].(id := t[k].id) == t[k];
      }
    }
  }

  /** Two segments give their two cues, numbered 1 and 2. */
  lemma NumberedTwo(a: Segment, b: Segment, render: (nat, Segment) -> string)
    ensures Join(Numbered([a, b], render)) == render(1, a) + render(2, b)
  {
    NumberedAppend([], a, render);
    NumberedAppend([a], b, render);
    assert [] + [a] == [a] && [a] + [b] == [a, b];
    assert Numbered([], render) == [];
  }

  /** A cue's three lines, written out one piece at a time. */
  lemma CueLines(index: string, start: string, end: string, text: string)
    ensures index + "\n" + start + " --> " + end + "\n" + text + "\n" + "\n"
            == (index + "\n") + (start + " --> " + end + "\n") + (text + "\n\n")
  {
  }

  /** A whole document, byte for byte: a segment from 0 s to 1 s saying `A`
      and one from 1 s to 2 s whose text holds the timing delimiter, which
      loses one dash. The segments' ids play no part. */
  lemma DocumentExample(a: Segment, b: Segment)
    requires a.start == 0 && a.end == 1000 && a.text == "A"
    requires b.start == 1000 && b.end == 2000 && b.text == "B-->C"
    ensures Document([a, b])
            == "1" + "\n" + "0:00:00,000" + " --> " + "0:00:01,000" + "\n" + "A" + "\n" + "\n"
               + ("2" + "\n" + "0:00:01,000" + " --> " + "0:00:02,000" + "\n" + "B->C" + "\n" + "\n")
  {
    NumberedTwo(a, b, Cue);
    assert Dec(1) == "1" && Dec(2) == "2";
    FormatZero();
    FormatOneSecond();
    FormatTwoSeconds();
    SanitizeCleanExample();
    SanitizeArrowExample();
    CueLines("1", "0:00:00,000", "0:00:01,000", "A");
    CueLines("2", "0:00:01,000", "0:00:02,000", "B->C");
  }

  lemma AppendThree(w: string, x: string, y: string, z: string)
    ensures w + x + y + z == w + (x + y + z)
  {
  }

  /** The three writes of one loop iteration (number line, timing line, text
      block) extend the document by exactly the next cue. */
  lemma ThreeWritesAppendCue(segs: seq<Segment>, seg: Segment, written: string)
    requires written == Document(segs)
    ensures written + IndexLine(|segs| + 1) + TimingLine(seg) + TextBlock(seg) == Document(segs + [seg])
  {
    DocumentAppend(segs, seg);
    AppendThree(written, IndexLine(|segs| + 1), TimingLine(seg), TextBlock(seg));
  }

  lemma PrefixExtend(segs: seq<Segment>, i: nat)
    requires i < |segs|
    ensures segs[..i + 1] == segs[..i] + [segs[i]]
  {
  }

  /** `write_srt(segments, path)`: opens a new file and writes each segment's
      cue into it, numbered from 1 in input order. */
  method WriteSrt(segments: seq<Segment>) returns (f: TextSink)
    ensures fresh(f) && f.text == Document(segments)
  {
    f := new TextSink();
    var i := 0;
    while i < |segments|
      invariant 0 <= i <= |segments|
      invariant f.text == Document(segments[..i])
    {
      var seg := segments[i];
      PrefixExtend(segments, i);
      ThreeWritesAppendCue(segments[..i], seg, f.text);
      f.Write(IndexLine(i + 1));
      f.Write(TimingLine(seg));
      f.Write(TextBlock(seg));
      i := i + 1;
    }
    assert segments[..i] == segments;
  }
}
