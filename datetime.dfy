/** `DateTime`: a UNIX timestamp in nanoseconds, held as a Rust `i64` and
    converted to and from it verbatim. */
module DateTimes {
  import opened Common
  import opened Orderings

  datatype DateTime = DateTime(timestampNanos: i64)

  /** `DateTime::from_timestamp_nanos`. */
  function FromTimestampNanos(nanoseconds: i64): DateTime {
    DateTime(nanoseconds)
  }

  /** `DateTime::into_timestamp_nanos`. */
  function IntoTimestampNanos(d: DateTime): i64 {
    d.timestampNanos
  }

  /** The two conversions are inverse over the whole `i64` range, the
      negative values and both extremes included. */
  lemma NanosRoundTrip(n: i64, d: DateTime)
    ensures IntoTimestampNanos(FromTimestampNanos(n)) == n
    ensures FromTimestampNanos(IntoTimestampNanos(d)) == d
    ensures IntoTimestampNanos(FromTimestampNanos(I64_MIN)) == I64_MIN
    ensures IntoTimestampNanos(FromTimestampNanos(I64_MAX)) == I64_MAX
  {
  }

  /** The derived `Ord`: timestamps compare by their nanosecond count. */
  function Compare(a: DateTime, b: DateTime): (r: Ordering)
    ensures r == Less <==> IntoTimestampNanos(a) < IntoTimestampNanos(b)
    ensures r == Equal <==> a == b
  {
    CompareInt(a.timestampNanos, b.timestampNanos)
  }
}
