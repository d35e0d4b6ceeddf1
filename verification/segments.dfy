/** The timed text segments the speech model hands to the encoder. */
module Segments {

  /** One transcribed span. `start` and `end` are whole milliseconds, the
      values the encoders obtain from `round(seconds * 1000.0)`; `id` is the
      model's own numbering, which the encoders never read. */
  datatype Segment = Segment(id: int, start: int, end: int, text: string)

  predicate NonNegative(seg: Segment) {
    seg.start >= 0 && seg.end >= 0
  }

  predicate AllNonNegative(segs: seq<Segment>) {
    forall k :: 0 <= k < |segs| ==> NonNegative(segs[k])
  }
}
