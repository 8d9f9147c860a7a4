/** What postcard makes of a `Vec<Span>` through the serde impls of this
    repository: each `TraceId` as its base64 text, each `DateTime` through
    `serde_datetime` as a bare `i64`, and the vector as a varint length
    followed by its elements. */
module SpanCodec {
  import opened Common
  import opened Postcard
  import DateTimes
  import TraceIds
  import Spans

  /** `serde_datetime::serialize`: the nanosecond count as an `i64`. */
  function SerializeDateTime(d: DateTimes.DateTime): seq<u8> {
    EncodeI64(DateTimes.IntoTimestampNanos(d))
  }

  /** `serde_datetime::deserialize`: an `i64`, taken as nanoseconds. */
  function DeserializeDateTime(s: seq<u8>): (r: Result<Decoded<DateTimes.DateTime>>)
    ensures r.Ok? ==> |r.value.rest| < |s|
  {
    match TakeI64(s)
    case Err(e) => Err(e)
    case Ok(d) => Ok(Decoded(DateTimes.FromTimestampNanos(d.value), d.rest))
  }

  /** Every timestamp, before the epoch and at both ends of the `i64` range
      included, reads back as itself. */
  lemma DateTimeRoundTrip(d: DateTimes.DateTime, rest: seq<u8>)
    ensures DeserializeDateTime(SerializeDateTime(d) + rest) == Ok(Decoded(d, rest))
  {
    I64RoundTrip(d.timestampNanos, rest);
  }

  /** The `Serialize` impl of `TraceId` over postcard: its text as a str. */
  function SerializeTraceId(t: TraceIds.TraceId): seq<u8> {
    EncodeStr(TraceIds.ToText(t))
  }

  /** The `Deserialize` impl of `TraceId` over postcard: a str, then the
      text checks. */
  function DeserializeTraceId(s: seq<u8>): (r: Result<Decoded<TraceIds.TraceId>>)
    ensures r.Ok? ==> |r.value.rest| < |s|
  {
    match TakeStr(s)
    case Err(e) => Err(e)
    case Ok(d) =>
      match TraceIds.FromText(d.value)
      case Err(e) => Err(e)
      case Ok(t) => Ok(Decoded(t, d.rest))
  }

  /** Every trace id reads back as itself. */
  lemma TraceIdRoundTrip(t: TraceIds.TraceId, rest: seq<u8>)
    ensures DeserializeTraceId(SerializeTraceId(t) + rest) == Ok(Decoded(t, rest))
  {
    StrRoundTrip(TraceIds.ToText(t), rest);
    TraceIds.TextRoundTrip(t, TraceIds.ToText(t));
  }

  /** A str of any length but 24 is refused as a trace id. */
  lemma TraceIdWrongLength(text: seq<u8>, rest: seq<u8>)
    requires |text| < 0x1_0000_0000_0000_0000 && |text| != TraceIds.BASE64_LENGTH
    ensures DeserializeTraceId(EncodeStr(text) + rest) == Err(LengthMismatch(24, |text|))
  {
    StrRoundTrip(text, rest);
  }

  /** The derived `Serialize` of `Span`: its fields in order. */
  function SerializeSpan(s: Spans.Span): seq<u8> {
    SerializeTraceId(s.traceId) + SerializeDateTime(s.spanTimestamp)
  }

  /** The derived `Deserialize` of `Span`. */
  function DeserializeSpan(s: seq<u8>): (r: Result<Decoded<Spans.Span>>)
    ensures r.Ok? ==> |r.value.rest| < |s|
  {
    match DeserializeTraceId(s)
    case Err(e) => Err(e)
    case Ok(t) =>
      match DeserializeDateTime(t.rest)
      case Err(e) => Err(e)
      case Ok(d) => Ok(Decoded(Spans.Span(t.value, d.value), d.rest))
  }

  /** Every span reads back as itself. */
  lemma SpanRoundTrip(s: Spans.Span, rest: seq<u8>)
    ensures DeserializeSpan(SerializeSpan(s) + rest) == Ok(Decoded(s, rest))
  {
    var time := SerializeDateTime(s.spanTimestamp);
    var input := SerializeTraceId(s.traceId) + (time + rest);
    ConcatAssoc(SerializeTraceId(s.traceId), time, rest);
    TraceIdRoundTrip(s.traceId, time + rest);
    assert DeserializeTraceId(input) == Ok(Decoded(s.traceId, time + rest));
    DateTimeRoundTrip(s.spanTimestamp, rest);
    assert DeserializeDateTime(time + rest) == Ok(Decoded(s.spanTimestamp, rest));
  }

  /** `to_allocvec` on a `Vec<Span>`: the length as a varint, then the
      elements. */
  function SerializeSpans(spans: seq<Spans.Span>): seq<u8>
    requires |spans| < 0x1_0000_0000_0000_0000
  {
    EncodeVarint(|spans|) + EncodeElements(spans, SerializeSpan)
  }

  /** `from_bytes` for a `Vec<Span>`: bytes left after the vector are
      ignored, as `from_bytes` ignores them. */
  function DeserializeSpans(s: seq<u8>): (r: Result<seq<Spans.Span>>)
    ensures r.Ok? ==> TakeVarint(s).Ok? && |r.value| == TakeVarint(s).value.value
  {
    match TakeVarint(s)
    case Err(e) => Err(e)
    case Ok(len) =>
      match TakeElements(len.rest, len.value, DeserializeSpan)
      case Err(e) => Err(e)
      case Ok(d) => Ok(d.value)
  }

  /** The span codec is a codec of single elements. */
  lemma SpanInverse()
    ensures Inverse(SerializeSpan, DeserializeSpan)
  {
    forall x, rest ensures DeserializeSpan(SerializeSpan(x) + rest) == Ok(Decoded(x, rest)) {
      SpanRoundTrip(x, rest);
    }
  }

  /** The round-trip law `main` asserts: decoding the encoding of any batch
      gives back the same spans, as many, in the same order. It holds for
      every length, the empty batch included, and every `i64` timestamp. */
  lemma SpansRoundTrip(spans: seq<Spans.Span>, rest: seq<u8>)
    requires |spans| < 0x1_0000_0000_0000_0000
    ensures DeserializeSpans(SerializeSpans(spans) + rest) == Ok(spans)
  {
    var elements := EncodeElements(spans, SerializeSpan);
    ConcatAssoc(EncodeVarint(|spans|), elements, rest);
    VarintRoundTrip(|spans|, elements + rest);
    SpanInverse();
    ElementsRoundTrip(spans, rest, SerializeSpan, DeserializeSpan);
  }
}
