/** The parts of postcard's wire format that a `Vec<Span>` goes through, as
    the library documents them: unsigned LEB128 varints for lengths and
    `u64`, zigzag for `i64`, and strings as a varint length followed by
    their bytes. This models the library, not code of this repository. */
module Postcard {
  import opened Common

  /** The varint of `n`: seven bits per byte, least significant group
      first, the high bit set on every byte but the last. */
  function EncodeVarint(n: nat): (r: seq<u8>)
    ensures 1 <= |r|
    decreases n
  {
    if n < 0x80 then [n] else [n % 0x80 + 0x80] + EncodeVarint(n / 0x80)
  }

  /** How large the value still to be read may be when byte `i` of a `u64`
      varint comes next: 2 to the power 64 - 7i. */
  function VarintLimit(i: nat): (r: nat)
    requires i <= 9
    ensures r >= 2
    decreases 9 - i
  {
    if i == 9 then 2 else 0x80 * VarintLimit(i + 1)
  }

  /** A `u64` varint with byte `i` next (postcard's `try_take_varint_u64`):
      the input must not run out, at most ten bytes are read, and the tenth
      may carry only the value's top bit. Longer encodings of a value
      (trailing 0x80 groups) are accepted, as postcard accepts them. */
  function TakeVarintAt(s: seq<u8>, i: nat): (r: Result<Decoded<nat>>)
    ensures r.Ok? ==> i <= 9 && r.value.value < VarintLimit(i)
    ensures r.Ok? ==> |r.value.rest| < |s| && r.value.rest == s[|s| - |r.value.rest|..]
    decreases 10 - i
  {
    if i >= 10 then Err(BadVarint)
    else if |s| == 0 then Err(UnexpectedEnd)
    else if s[0] < 0x80 then
      if i == 9 && s[0] > 1 then Err(BadVarint) else Ok(Decoded(s[0], s[1..]))
    else match TakeVarintAt(s[1..], i + 1)
      case Err(e) => Err(e)
      case Ok(d) => Ok(Decoded(s[0] - 0x80 + 0x80 * d.value, d.rest))
  }

  /** The `u64` (or `usize`) varint at the front of `s`. */
  function TakeVarint(s: seq<u8>): (r: Result<Decoded<u64>>)
    ensures r.Ok? ==> |r.value.rest| < |s| && r.value.rest == s[|s| - |r.value.rest|..]
  {
    match TakeVarintAt(s, 0)
    case Err(e) => Err(e)
    case Ok(d) =>
      VarintLimitTop();
      Ok(Decoded(d.value, d.rest))
  }

  /** VarintLimit(0) is 2 to the power 64: every `u64` has a varint. */
  lemma VarintLimitTop()
    ensures VarintLimit(0) == 0x1_0000_0000_0000_0000
  {
    assert VarintLimit(9) == 0x2;
    assert VarintLimit(8) == 0x100;
    assert VarintLimit(7) == 0x8000;
    assert VarintLimit(6) == 0x40_0000;
    assert VarintLimit(5) == 0x2000_0000;
    assert VarintLimit(4) == 0x10_0000_0000;
    assert VarintLimit(3) == 0x800_0000_0000;
    assert VarintLimit(2) == 0x4_0000_0000_0000;
    assert VarintLimit(1) == 0x200_0000_0000_0000;
  }

  /** A continuation byte in front of the rest of a varint adds its seven
      low bits below the value of the rest. */
  lemma TakeVarintStep(b: u8, t: seq<u8>, i: nat)
    requires i < 10 && b >= 0x80
    ensures TakeVarintAt([b] + t, i) == match TakeVarintAt(t, i + 1)
      case Err(e) => Err(e)
      case Ok(d) => Ok(Decoded(b - 0x80 + 0x80 * d.value, d.rest))
  {
    assert ([b] + t)[0] == b && ([b] + t)[1..] == t;
  }

  /** A value of eight bits or more is not the last byte's: one more byte
      follows, and it carries the value shifted right by seven. */
  lemma VarintLimitShift(n: nat, i: nat)
    requires i <= 9 && 0x80 <= n < VarintLimit(i)
    ensures i < 9 && n / 0x80 < VarintLimit(i + 1)
  {
    assert VarintLimit(9) == 2;
    assert VarintLimit(i) == 0x80 * VarintLimit(i + 1);
  }

  /** The varint of a value of eight bits or more, followed by `rest`: its
      low seven bits with the high bit set, then the varint of the rest. */
  lemma EncodeVarintSplit(n: nat, rest: seq<u8>)
    requires 0x80 <= n
    ensures EncodeVarint(n) + rest == [n % 0x80 + 0x80] + (EncodeVarint(n / 0x80) + rest)
  {
    assert EncodeVarint(n) == [n % 0x80 + 0x80] + EncodeVarint(n / 0x80);
  }

  /** Reading back a varint written with byte `i` next gives the value and
      leaves what follows it untouched. */
  lemma {:induction false} VarintRoundTripAt(n: nat, rest: seq<u8>, i: nat)
    requires i <= 9 && n < VarintLimit(i)
    ensures TakeVarintAt(EncodeVarint(n) + rest, i) == Ok(Decoded(n, rest))
    ensures |EncodeVarint(n)| <= 10 - i
    decreases n
  {
    if n < 0x80 {
      var s := EncodeVarint(n) + rest;
      assert EncodeVarint(n) == [n];
      assert s[0] == n && s[1..] == rest;
      assert i == 9 ==> n <= 1;
    } else {
      VarintLimitShift(n, i);
      EncodeVarintSplit(n, rest);
      VarintRoundTripAt(n / 0x80, rest, i + 1);
      TakeVarintStep(n % 0x80 + 0x80, EncodeVarint(n / 0x80) + rest, i);
    }
  }

  /** The varint round trip for every `u64`. */
  lemma VarintRoundTrip(n: u64, rest: seq<u8>)
    ensures TakeVarint(EncodeVarint(n) + rest) == Ok(Decoded(n, rest))
    ensures |EncodeVarint(n)| <= 10
  {
    VarintLimitTop();
    VarintRoundTripAt(n, rest, 0);
  }

  /** Zigzag (`(n << 1) ^ (n >> 63)`): 0, -1, 1, -2, 2, ... become
      0, 1, 2, 3, 4, ... */
  function ZigZag(n: i64): u64 {
    if n >= 0 then 2 * n else -2 * n - 1
  }

  /** Undoes zigzag (`(u >> 1) as i64 ^ -((u & 1) as i64)`). */
  function UnZigZag(u: u64): i64 {
    if u % 2 == 0 then u / 2 else -(u / 2) - 1
  }

  /** Zigzag is a bijection between `i64` and `u64`. */
  lemma ZigZagInverse(n: i64, u: u64)
    ensures UnZigZag(ZigZag(n)) == n
    ensures ZigZag(UnZigZag(u)) == u
  {
  }

  /** `serialize_i64`. */
  function EncodeI64(n: i64): seq<u8> {
    EncodeVarint(ZigZag(n))
  }

  /** `deserialize_i64`. */
  function TakeI64(s: seq<u8>): (r: Result<Decoded<i64>>)
    ensures r.Ok? ==> |r.value.rest| < |s|
  {
    match TakeVarint(s)
    case Err(e) => Err(e)
    case Ok(d) => Ok(Decoded(UnZigZag(d.value), d.rest))
  }

  /** Every `i64`, negative values and both extremes included, reads back
      as itself. */
  lemma I64RoundTrip(n: i64, rest: seq<u8>)
    ensures TakeI64(EncodeI64(n) + rest) == Ok(Decoded(n, rest))
  {
    VarintRoundTrip(ZigZag(n), rest);
    ZigZagInverse(n, 0);
  }

  /** `serialize_str`: the byte length as a varint, then the bytes. */
  function EncodeStr(text: seq<u8>): (r: seq<u8>)
    requires |text| < 0x1_0000_0000_0000_0000
    ensures |r| > |text|
  {
    EncodeVarint(|text|) + text
  }

  /** `deserialize_string`: a varint length, then that many bytes. The
      UTF-8 check that postcard applies to them is not modelled. */
  function TakeStr(s: seq<u8>): (r: Result<Decoded<seq<u8>>>)
    ensures r.Ok? ==> |r.value.rest| < |s|
  {
    match TakeVarint(s)
    case Err(e) => Err(e)
    case Ok(d) =>
      if |d.rest| < d.value then Err(UnexpectedEnd)
      else Ok(Decoded(d.rest[..d.value], d.rest[d.value..]))
  }

  /** A string reads back as itself, whatever follows it. */
  lemma StrRoundTrip(text: seq<u8>, rest: seq<u8>)
    requires |text| < 0x1_0000_0000_0000_0000
    ensures TakeStr(EncodeStr(text) + rest) == Ok(Decoded(text, rest))
  {
    VarintRoundTrip(|text|, text + rest);
    assert EncodeStr(text) + rest == EncodeVarint(|text|) + (text + rest);
    assert (text + rest)[..|text|] == text && (text + rest)[|text|..] == rest;
  }

  /** A string whose bytes end before its declared length is refused. */
  lemma StrTruncated(text: seq<u8>, cut: nat)
    requires |text| < 0x1_0000_0000_0000_0000 && cut < |text|
    ensures TakeStr(EncodeVarint(|text|) + text[..cut]) == Err(UnexpectedEnd)
  {
    VarintRoundTrip(|text|, text[..cut]);
  }

  /** The elements of a sequence, each written by `enc`, one after the
      other (postcard's `serialize_seq` after the length). */
  function EncodeElements<T>(xs: seq<T>, enc: T -> seq<u8>): seq<u8> {
    if xs == [] then [] else enc(xs[0]) + EncodeElements(xs[1..], enc)
  }

  /** `count` elements, each read by `take` from where the previous one
      stopped (postcard's `deserialize_seq` after the length). */
  function TakeElements<T>(s: seq<u8>, count: nat, take: seq<u8> -> Result<Decoded<T>>): (r: Result<Decoded<seq<T>>>)
    ensures r.Ok? ==> |r.value.value| == count
    decreases count
  {
    if count == 0 then Ok(Decoded([], s))
    else match take(s)
      case Err(e) => Err(e)
      case Ok(first) =>
        match TakeElements(first.rest, count - 1, take)
        case Err(e) => Err(e)
        case Ok(others) => Ok(Decoded([first.value] + others.value, others.rest))
  }

  /** `take` reads back whatever `enc` writes, and leaves what follows. */
  ghost predicate Inverse<T(!new)>(enc: T -> seq<u8>, take: seq<u8> -> Result<Decoded<T>>) {
    forall x, rest :: take(enc(x) + rest) == Ok(Decoded(x, rest))
  }

  /** When single elements round-trip, so does any run of them: same
      elements, same order, and whatever follows is left untouched. */
  lemma {:induction false} ElementsRoundTrip<T(!new)>(xs: seq<T>, rest: seq<u8>, enc: T -> seq<u8>, take: seq<u8> -> Result<Decoded<T>>)
    requires Inverse(enc, take)
    ensures TakeElements(EncodeElements(xs, enc) + rest, |xs|, take) == Ok(Decoded(xs, rest))
    decreases |xs|
  {
    if xs != [] {
      var head, others := enc(xs[0]), EncodeElements(xs[1..], enc);
      ElementsRoundTrip(xs[1..], rest, enc, take);
      ConcatAssoc(head, others, rest);
      assert EncodeElements(xs, enc) + rest == head + (others + rest);
      assert take(head + (others + rest)) == Ok(Decoded(xs[0], others + rest));
      assert [xs[0]] + xs[1..] == xs;
    } else {
      assert EncodeElements(xs, enc) + rest == rest;
    }
  }
}
