/** The second copy of the SubRip encoder, in app.py: a formatter that asserts
    its input is non-negative and splits it by repeated subtraction, and a
    writer that counts cues and `print`s each one to a caller's file. */
module App {
  import opened Decimal
  import opened Text
  import opened Segments
  import opened Sinks
  import opened Srt

  /** The `AssertionError` raised by a failed `assert`, with its message. */
  datatype Error = AssertionError(message: string)

  datatype Result<T> = Ok(value: T) | Err(error: Error)

  const NegativeMessage: string := "non-negative timestamp expected"

  /** The split by repeated subtraction: each field is the quotient of what
      is left, and its share is then subtracted. The fields recombine, each
      lies in its range, and the split is the one utils/srt.py computes. */
  method SplitBySubtraction(ms: nat) returns (f: Fields)
    ensures Total(f) == ms && InRange(f) && f.hours >= 0
    ensures f == Split(ms)
  {
    var milliseconds := ms;
    var hours := milliseconds / 3600000;
    milliseconds := milliseconds - hours * 3600000;
    var minutes := milliseconds / 60000;
    milliseconds := milliseconds - minutes * 60000;
    var seconds := milliseconds / 1000;
    milliseconds := milliseconds - seconds * 1000;
    f := Fields(hours, minutes, seconds, milliseconds);
    SplitUnique(ms, f);
  }

  /** The two f-strings of app.py, `f"{hours}:"` and the rest, joined. */
  lemma JoinedFields(h: string, m: string, s: string, x: string)
    ensures h + ":" + (m + ":" + s + "," + x) == h + ":" + m + ":" + s + "," + x
  {
  }

  /** `srt_format_timestamp` of app.py on a millisecond count: a negative
      count fails the assertion; any other prints exactly as utils/srt.py
      prints it. */
  method FormatTimestamp(ms: int) returns (r: Result<string>)
    ensures ms < 0 ==> r == Err(AssertionError(NegativeMessage))
    ensures ms >= 0 ==> r == Ok(Srt.FormatTimestamp(ms))
  {
    if ms < 0 {
      return Err(AssertionError(NegativeMessage));
    }
    var f := SplitBySubtraction(ms);
    JoinedFields(Str(f.hours), ZeroPad(f.minutes, 2), ZeroPad(f.seconds, 2), ZeroPad(f.millis, 3));
    r := Ok(Str(f.hours) + ":" + (ZeroPad(f.minutes, 2) + ":" + ZeroPad(f.seconds, 2) + "," + ZeroPad(f.millis, 3)));
  }

  /** How many leading segments are printed before the first one with a
      negative time stops the writer. */
  function Completed(segs: seq<Segment>): (k: nat)
    ensures k <= |segs|
    ensures forall j :: 0 <= j < k ==> NonNegative(segs[j])
    ensures k < |segs| ==> !NonNegative(segs[k])
  {
    if segs == [] || !NonNegative(segs[0]) then 0 else 1 + Completed(segs[1..])
  }

  /** A segment within the printed prefix's reach that has no negative time
      is itself printed. */
  lemma CompletedNext(segs: seq<Segment>, k: nat)
    requires k <= Completed(segs) && k < |segs| && NonNegative(segs[k])
    ensures k < Completed(segs)
  {
  }

  /** The first segment with a negative time ends the printed prefix. */
  lemma CompletedStop(segs: seq<Segment>, k: nat)
    requires k <= Completed(segs) && k < |segs| && !NonNegative(segs[k])
    ensures k == Completed(segs)
  {
  }

  /** Every segment is printed exactly when no segment has a negative time. */
  lemma CompletedAll(segs: seq<Segment>)
    ensures Completed(segs) == |segs| <==> AllNonNegative(segs)
  {
  }

  lemma AppendTwo(w: string, x: string, y: string)
    ensures w + x + y == w + (x + y)
  {
  }

  /** One `print` of a cue body that ends in a newline, followed by print's
      own newline, extends the document by exactly the next cue. */
  lemma PrintAppendsCue(segs: seq<Segment>, seg: Segment, before: string, start: string, end: string)
    requires start == Srt.FormatTimestamp(seg.start) && end == Srt.FormatTimestamp(seg.end)
    ensures before + Document(segs)
              + (Dec(|segs| + 1) + "\n" + start + " --> " + end + "\n" + Sanitize(seg.text) + "\n") + "\n"
            == before + Document(segs + [seg])
  {
    DocumentAppend(segs, seg);
    var body := Dec(|segs| + 1) + "\n" + start + " --> " + end + "\n" + Sanitize(seg.text) + "\n";
    CueLines(Dec(|segs| + 1), start, end, Sanitize(seg.text));
    assert body + "\n" == Cue(|segs| + 1, seg);
    AppendTwo(before + Document(segs), body, "\n");
    AppendTwo(before, Document(segs), Cue(|segs| + 1, seg));
  }

  /** `write_srt(transcript, file)` of app.py: numbers the segments with a
      counter that is raised before each cue and prints each cue to `file`.
      The first segment with a negative time raises the formatter's
      assertion error; the cues before it have already been printed. */
  method WriteSrt(transcript: seq<Segment>, file: TextSink) returns (r: Result<()>)
    modifies file
    ensures r.Ok? <==> AllNonNegative(transcript)
    ensures r.Err? ==> r.error == AssertionError(NegativeMessage)
    ensures file.text == old(file.text) + Document(transcript[..Completed(transcript)])
    ensures r.Ok? ==> file.text == old(file.text) + Document(transcript)
    ensures transcript == [] ==> r.Ok? && file.text == old(file.text)
  {
    CompletedAll(transcript);
    var count := 0;
    for k := 0 to |transcript|
      invariant count == k <= Completed(transcript)
      invariant file.text == old(file.text) + Document(transcript[..k])
    {
      var segment := transcript[k];
      PrefixExtend(transcript, k);
      count := count + 1;
      var start := FormatTimestamp(segment.start);
      if start.Err? {
        CompletedStop(transcript, k);
        return Err(start.error);
      }
      var end := FormatTimestamp(segment.end);
      if end.Err? {
        CompletedStop(transcript, k);
        return Err(end.error);
      }
      CompletedNext(transcript, k);
      PrintAppendsCue(transcript[..k], segment, old(file.text), start.value, end.value);
      Print(Dec(count) + "\n" + start.value + " --> " + end.value + "\n" + Sanitize(segment.text) + "\n", file);
    }
    assert transcript[..|transcript|] == transcript;
    return Ok(());
  }
}
