# force_check_postcard, modelled in Dafny

`force_check_postcard` is a small Rust program that stress-tests the round
trip of a `Vec<Span>` through the postcard binary format. A `Span` pairs a
`TraceId` (16 opaque bytes) with a `DateTime` (a UNIX timestamp in
nanoseconds, an `i64`). Over serde, a `TraceId` is written as its
24-character padded standard base64 text (RFC 4648, section 4), and read back
only from a text of exactly that length, decoded in place into a zeroed
16-byte buffer. A `DateTime` is written as its bare `i64`. `main` loops
forever: it draws a batch of 1 to 10000 random spans with timestamps in
`[0, i64::MAX]`, encodes it with `to_allocvec`, decodes it with `from_bytes`
and asserts that it got the same batch back.

This project models that core and proves its properties:

- `common.dfy` (`Common`): the Rust integer types `u8`, `u64`, `i64`, the
  error kinds, and `Option`/`Result`/`Decoded`.
- `ordering.dfy` (`Orderings`): Rust's `Ordering`, and the lexicographic order
  that the derived `Ord` of a byte array uses.
- `datetime.dfy` (`DateTimes`): `DateTime`, its `i64` conversions and its
  derived order.
- `base64.dfy` (`Base64`): the standard padded base64 alphabet, encoder and
  decoder. `DecodeSlice` is a method that writes into an `array`, as
  `decode_slice_unchecked` does.
- `trace_id.dfy` (`TraceIds`): `TraceId`, `BASE64_LENGTH`, `new`,
  `as_bytes`, `to_vec`, its text form, and the `Deserialize` impl as a method
  that decodes into a fresh 16-byte array.
- `span.dfy` (`Spans`): `Span`, with its derived equality and order.
- `postcard.dfy` (`Postcard`): the parts of postcard's documented wire format
  that a `Vec<Span>` uses. These are LEB128 varints (at most ten bytes for a
  `u64`), zigzag `i64`, length-prefixed strings, and length-prefixed
  sequences whose element codec is a parameter.
- `span_codec.dfy` (`SpanCodec`): the serde impls of this repository run
  through that format. It includes the batch round trip that `main` asserts.
- `harness.dfy` (`Harness`): `random_spans` as a nondeterministic choice in
  its ranges, one round of the loop, and the loop cut off after a given
  number of rounds.

The round trip is proved for every batch length below 2^64 and every `i64`
timestamp, not only for the ranges the generator draws from.

## Model

| member | source | states |
|---|---|---|
| DateTimes.NanosRoundTrip | src/main.rs:38-49 | `from_timestamp_nanos` and `into_timestamp_nanos` are inverse over all of `i64`, including `i64::MIN` and `i64::MAX` |
| DateTimes.Compare | src/main.rs:33-37 | the derived order: `Less` exactly when the nanosecond count is smaller, `Equal` exactly when the values are equal |
| TraceIds.AsBytes | src/main.rs:61-63 | `as_bytes` gives a 16-byte slice |
| TraceIds.ToVec | src/main.rs:65-67 | `to_vec` gives 16 bytes, the same as `as_bytes` |
| TraceIds.NewAsBytes | src/main.rs:57-63 | `new` keeps the bytes verbatim: `as_bytes(new(b)) == b` and `new(as_bytes(t)) == t` |
| TraceIds.ToText | src/main.rs:74-78 | the serialized text is always `BASE64_LENGTH` (24) characters long and ends in "==" |
| TraceIds.Deserialize | src/main.rs:81-106 | checking the length and then decoding into a zeroed 16-byte buffer in place gives exactly `FromText` of the text |
| TraceIds.FromTextWrongLength | src/main.rs:88-95 | a text whose length is not 24 is refused, with the expected length 24 and the actual length |
| TraceIds.TextRoundTrip | src/main.rs:74-106 | a text reads back as `t` if and only if it is the text `t` is written as |
| TraceIds.FromTextRejectsForeign | src/main.rs:96-105 | a 24-character text containing a byte outside the alphabet (other than '=') is refused as invalid base64 |
| TraceIds.FromTextRejectsBadPadding | src/main.rs:96-105 | a 24-character text that does not end in "==" is refused |
| TraceIds.FromTextAscii | src/main.rs:86-105 | every accepted text is ASCII, so the UTF-8 check on the string never changes the verdict |
| TraceIds.ZerosText | src/main.rs:76 | `3k + 1` zero bytes encode as `4k + 2` 'A's followed by "==" |
| TraceIds.ZeroText | src/main.rs:76 | the all-zero id is written "AAAAAAAAAAAAAAAAAAAAAA==" |
| TraceIds.Compare | src/main.rs:51-52 | the derived order on ids is `Equal` exactly when the ids are equal |
| Base64.SymbolInverse | src/main.rs:76 | the standard alphabet maps each of the 64 values to a distinct ASCII symbol other than '=', and back |
| Base64.GroupRoundTrip | src/main.rs:76-100 | a 1-3 byte group decodes back from its 4 characters |
| Base64.GroupInverse | src/main.rs:76-100 | a 4-character group that decodes is the encoding of what it decodes to |
| Base64.EncodeLength | src/main.rs:76 | `n` bytes encode to `4 * ceil(n / 3)` characters |
| Base64.DecodeGroupsEncode | src/main.rs:76-100 | reading the encoding of any bytes group by group, the last group allowed to be padded, gives those bytes |
| Base64.EncodeDecodeGroups | src/main.rs:76-100 | any text that reads group by group is the encoding of what it reads to |
| Base64.DecodeStep | src/main.rs:96-100 | one decoded group of four characters adds 1 to 3 bytes after those decoded so far (3 unless it is the last group), and the last group completes the decode |
| Base64.DecodeStepFails | src/main.rs:96-100 | a group that does not decode makes the whole text fail |
| Base64.DecodeEncode | src/main.rs:76-100 | decoding the encoding of any bytes gives those bytes |
| Base64.EncodeDecode | src/main.rs:76-100 | any text that decodes is the encoding of what it decodes to (the encoding is canonical) |
| Base64.EncodeSymbols | src/main.rs:76 | every encoded character is an alphabet symbol, except '=' in the last two places |
| Base64.EncodePadding | src/main.rs:76 | the number of trailing '=' is fixed by the length mod 3, and the bits below the last symbol are zero |
| Base64.DecodedLength | src/main.rs:96-100 | a text that decodes has length `4 * ceil(n / 3)` for the `n` bytes it decodes to |
| Base64.DecodeRejectsForeign | src/main.rs:97-100 | a byte outside the alphabet (other than '=') makes the decode fail |
| Base64.DecodeRejectsInnerPadding | src/main.rs:97-100 | a '=' before the last two places makes the decode fail |
| Base64.DecodeRejectsTrailingBits | src/main.rs:97-100 | a padded text with non-zero bits below its last symbol is refused |
| Base64.WriteAt | src/main.rs:96-100 | writing a decoded group into the buffer puts it after what was written and leaves the rest of the buffer alone |
| Base64.DecodeSlice | src/main.rs:96-100 | decoding into a buffer succeeds exactly when the text decodes and fits; it then writes the decoded bytes to the front and reports how many; it fails with "too small" when the text decodes but does not fit, and with "invalid" otherwise |
| Orderings.CompareInt | src/main.rs:33-37 | integer comparison gives `Less`, `Equal` or `Greater` exactly when `<`, `==` or `>` holds |
| Orderings.LexEqual | src/main.rs:51-52 | byte-wise lexicographic comparison gives `Equal` exactly on equal arrays |
| Orderings.LexReverse | src/main.rs:51-52 | swapping the arguments reverses the answer |
| Orderings.LexTransitive | src/main.rs:51-52 | "comes before" is transitive |
| Orderings.LexLessAt | src/main.rs:51-52 | on equal-length arrays, `a` comes before `b` exactly when they agree up to some index where `a` has the smaller byte |
| Spans.CompareEqual | src/main.rs:8-13 | the derived `PartialEq` (field-wise) is equality, and the derived `Ord` gives `Equal` exactly on equal spans |
| Spans.CompareLess | src/main.rs:8-13 | a span comes first exactly when its trace id is lexicographically smaller, or the ids are equal and its timestamp is earlier |
| Spans.CompareReverse | src/main.rs:8-13 | swapping the spans reverses the comparison |
| Spans.CompareTransitive | src/main.rs:8-13 | the span order is transitive |
| Spans.Random | src/main.rs:110-115 | a random span has a timestamp in `[0, i64::MAX]` |
| Postcard.TakeVarintAt | src/main.rs:138 | a varint read with byte `i` next yields a value below `2^(64 - 7i)` and consumes at least one byte from the front |
| Postcard.TakeVarint | src/main.rs:138 | a successful varint read leaves a strict suffix of its input |
| Postcard.VarintRoundTripAt | src/main.rs:136-138 | a value below `2^(64 - 7i)` reads back from its varint with byte `i` next, in at most `10 - i` bytes |
| Postcard.VarintRoundTrip | src/main.rs:136-138 | every `u64` reads back from its varint, which is at most ten bytes, and the bytes after it are left untouched |
| Postcard.ZigZagInverse | src/main.rs:22-30 | zigzag is a bijection between `i64` and `u64` |
| Postcard.I64RoundTrip | src/main.rs:22-30 | every `i64`, negative values and both extremes included, reads back as itself |
| Postcard.EncodeStr | src/main.rs:77 | a serialized string is longer than its bytes (it carries its length in front) |
| Postcard.StrRoundTrip | src/main.rs:77-86 | a string reads back as itself, whatever follows it |
| Postcard.StrTruncated | src/main.rs:86 | a string whose bytes end before its declared length is refused as "unexpected end" |
| Postcard.TakeElements | src/main.rs:138 | a successful read of `count` elements yields exactly `count` values |
| Postcard.ElementsRoundTrip | src/main.rs:136-138 | if single elements round-trip, a run of them reads back as the same elements in the same order, leaving what follows |
| SpanCodec.DateTimeRoundTrip | src/main.rs:14-31 | `serde_datetime` writes a timestamp that reads back as itself, for every `i64` |
| SpanCodec.TraceIdRoundTrip | src/main.rs:74-106 | a trace id written as a postcard string reads back as itself |
| SpanCodec.TraceIdWrongLength | src/main.rs:86-95 | a postcard string of any length but 24 is refused with `LengthMismatch(24, length)` |
| SpanCodec.SpanRoundTrip | src/main.rs:8-13 | the derived `Serialize`/`Deserialize` of a span round-trip, whatever follows |
| SpanCodec.SpanInverse | src/main.rs:8-13 | the span codec is an element codec whose reader inverts its writer |
| SpanCodec.DeserializeSpans | src/main.rs:138 | a decoded vector has exactly as many spans as its length prefix says |
| SpanCodec.SpansRoundTrip | src/main.rs:136-139 | `from_bytes(to_allocvec(spans))` gives back the same spans, with trailing bytes ignored |
| Harness.RandomSpans | src/main.rs:126-130 | a random batch has 1 to 10000 spans, each with a timestamp in `[0, i64::MAX]` |
| Harness.SameSpansIsEquality | src/main.rs:139 | `assert_eq!` on two vectors (same length, pairwise equal spans) holds exactly when the batches are equal |
| Harness.Round | src/main.rs:134-139 | one round of `main` never fails: neither `unwrap` nor `assert_eq!` can stop it |
| Harness.Run | src/main.rs:132-141 | the loop, cut off after `rounds` rounds, completes every round |

## Left out

- `TraceIds.FromText`: it returns `Err(OutputTooSmall)` for a 24-character text that decodes to 17 or 18 bytes (one or no '=' at the end). In the source, `decode_slice_unchecked` panics when its output slice is too small. The source never checks the decoded length itself.
- `TraceIds.Deserialize`: inherits that error in place of the panic, through `Base64.DecodeSlice`.
- `Base64.DecodeSlice`: models the base64 crate's decoder (standard alphabet, canonical padding, zero trailing bits), not its code. It reports "too small" rather than panicking.
- `TraceIds.Random`: the 16 bytes are chosen freely. It has no contract, since any id may come out; `rng.fill` and `ThreadRng` are not modelled.
- `Spans.Random`: the timestamp is any value in `[0, i64::MAX]`. `gen_range`'s distribution is not modelled.
- `Harness.RandomSpans`: the length is any value in `[1, 10000]`, with no distribution.
- `Harness.Run`: the `loop` in `main` never ends. The model runs a given number of rounds.
- `Harness.Round`: `to_allocvec` is total in the model. Its `unwrap` can only fail on allocation, which is not modelled.
- `Postcard.TakeStr`: postcard checks that the bytes are UTF-8. The model does not. `TraceIds.FromTextAscii` shows that every accepted text is ASCII anyway.
- Postcard is a foreign library. It is modelled from its documented wire format, not from its code: its error kinds, flavors and buffer handling are left out.
- Text is modelled as its bytes (`seq<u8>`), as Rust's `String::len` and `as_bytes` see it.
- `TraceId::base64_display` (src/main.rs:69-71): lazy `fmt` formatting through the base64 crate, with no logic of this repository.
- The text of the error messages built with `format!` (src/main.rs:89-93, 102). Only the error kind is kept.
- serde's `Serializer`/`Deserializer` traits. Each impl is modelled directly against the postcard format.
- The derived `Debug`, `Hash`, `Default` and `Clone`.
