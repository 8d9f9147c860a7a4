/** The program itself: draw a random batch of spans, write it with
    postcard, read it back, and require the same spans, over and over. */
module Harness {
  import opened Common
  import Spans
  import SpanCodec

  /** How one round ends. `to_allocvec` never fails on spans, so the two
      ways the program can stop are `from_bytes(..).unwrap()` and
      `assert_eq!`. */
  datatype Outcome = Pass | DecodeFailed(error: Error) | Mismatch

  /** `random_spans`: between 1 and 10000 spans, each from `Span::random`. */
  method RandomSpans() returns (spans: seq<Spans.Span>)
    ensures 1 <= |spans| <= 10000
    ensures forall i | 0 <= i < |spans| :: 0 <= spans[i].spanTimestamp.timestampNanos
  {
    var length: int :| 1 <= length <= 10000;
    spans := [];
    while |spans| < length
      invariant |spans| <= length
      invariant forall i | 0 <= i < |spans| :: 0 <= spans[i].spanTimestamp.timestampNanos
    {
      var span := Spans.Random();
      spans := spans + [span];
    }
  }

  /** `assert_eq!` on two `Vec<Span>`: the same length and pairwise equal
      by the derived `PartialEq`. */
  predicate SameSpans(a: seq<Spans.Span>, b: seq<Spans.Span>) {
    |a| == |b| && forall i | 0 <= i < |a| :: Spans.Eq(a[i], b[i])
  }

  /** Vector equality is equality of the span sequences. */
  lemma SameSpansIsEquality(a: seq<Spans.Span>, b: seq<Spans.Span>)
    ensures SameSpans(a, b) <==> a == b
  {
    if SameSpans(a, b) {
      forall i | 0 <= i < |a| ensures a[i] == b[i] {
        Spans.CompareEqual(a[i], b[i]);
      }
    }
  }

  /** One round of the loop in `main`: the batch survives the trip through
      postcard, so neither the unwrap nor the assertion can stop it. */
  method Round(spans: seq<Spans.Span>) returns (outcome: Outcome)
    requires |spans| < 0x1_0000_0000_0000_0000
    ensures outcome == Pass
  {
    var output := SpanCodec.SerializeSpans(spans);
    var out := SpanCodec.DeserializeSpans(output);
    outcome := match out
      case Err(e) => DecodeFailed(e)
      case Ok(decoded) => if SameSpans(spans, decoded) then Pass else Mismatch;
    SpanCodec.SpansRoundTrip(spans, []);
    assert output + [] == output;
    SameSpansIsEquality(spans, spans);
  }

  /** `main`, cut off after `rounds` rounds: every round passes, so the
      loop runs them all. */
  method Run(rounds: nat) returns (passed: nat, outcome: Outcome)
    ensures outcome == Pass && passed == rounds
  {
    passed, outcome := 0, Pass;
    while passed < rounds && outcome == Pass
      invariant passed <= rounds && outcome == Pass
    {
      var spans := RandomSpans();
      outcome := Round(spans);
      if outcome == Pass {
        passed := passed + 1;
      }
    }
  }
}
