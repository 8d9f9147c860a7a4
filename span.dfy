/** `Span`: a trace id and a timestamp, with the derived structural
    equality and field-by-field ordering. */
module Spans {
  import opened Common
  import opened Orderings
  import DateTimes
  import TraceIds

  datatype Span = Span(traceId: TraceIds.TraceId, spanTimestamp: DateTimes.DateTime)

  /** The derived `Ord`: the trace ids decide, byte-wise, and the timestamps
      only break a tie. */
  function Compare(a: Span, b: Span): Ordering {
    match TraceIds.Compare(a.traceId, b.traceId)
    case Equal => DateTimes.Compare(a.spanTimestamp, b.spanTimestamp)
    case other => other
  }

  /** The derived `PartialEq`: both fields equal. */
  predicate Eq(a: Span, b: Span) {
    a.traceId.bytes == b.traceId.bytes && a.spanTimestamp.timestampNanos == b.spanTimestamp.timestampNanos
  }

  /** Field-wise equality is equality of spans, and the order agrees with
      it. */
  lemma CompareEqual(a: Span, b: Span)
    ensures Eq(a, b) <==> a == b
    ensures Compare(a, b) == Equal <==> a == b
  {
  }

  /** `a` comes before `b` exactly when its trace id is lexicographically
      smaller, or the trace ids agree and its timestamp is earlier. */
  lemma CompareLess(a: Span, b: Span)
    ensures Compare(a, b) == Less <==>
      || CompareLex(a.traceId.bytes, b.traceId.bytes) == Less
      || (a.traceId == b.traceId && a.spanTimestamp.timestampNanos < b.spanTimestamp.timestampNanos)
  {
  }

  /** Comparing the other way round gives the reversed answer. */
  lemma CompareReverse(a: Span, b: Span)
    ensures Compare(b, a) == Compare(a, b).Reverse()
  {
    LexReverse(a.traceId.bytes, b.traceId.bytes);
  }

  /** "Comes before" is transitive, so spans are totally ordered. */
  lemma CompareTransitive(a: Span, b: Span, c: Span)
    requires Compare(a, b) == Less && Compare(b, c) == Less
    ensures Compare(a, c) == Less
  {
    var x, y, z := a.traceId.bytes, b.traceId.bytes, c.traceId.bytes;
    LexEqual(x, y);
    LexEqual(y, z);
    if CompareLex(x, y) == Less && CompareLex(y, z) == Less {
      LexTransitive(x, y, z);
    }
  }

  /** `Span::random`: a free trace id and a timestamp drawn from
      [0, i64::MAX]. */
  method Random() returns (s: Span)
    ensures 0 <= DateTimes.IntoTimestampNanos(s.spanTimestamp)
  {
    var traceId := TraceIds.Random();
    var nanos: int :| 0 <= nanos <= I64_MAX;
    s := Span(traceId, DateTimes.FromTimestampNanos(nanos));
  }
}
