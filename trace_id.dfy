/** `TraceId`: 16 opaque bytes, written in text as their padded standard
    base64 (24 characters) and read back only from text of exactly that
    length. */
module TraceIds {
  import opened Common
  import opened Orderings
  import Base64

  /** `[u8; 16]`. */
  type Bytes16 = s: seq<u8> | |s| == 16 witness [0, 0, 0, 0, 0, 0, 0, 0, 0, 0, 0, 0, 0, 0, 0, 0]

  datatype TraceId = TraceId(bytes: Bytes16)

  /** `TraceId::BASE64_LENGTH`: the length of the text form, in bytes. */
  const BASE64_LENGTH: nat := 24

  /** `TraceId::new`. */
  function New(bytes: Bytes16): TraceId {
    TraceId(bytes)
  }

  /** `TraceId::as_bytes`: the raw bytes, as a slice. */
  function AsBytes(t: TraceId): (r: seq<u8>)
    ensures |r| == 16
  {
    t.bytes
  }

  /** `TraceId::to_vec`: the raw bytes, as an owned vector. */
  function ToVec(t: TraceId): (r: seq<u8>)
    ensures |r| == 16 && r == AsBytes(t)
  {
    t.bytes
  }

  /** `new` stores the bytes verbatim and `as_bytes` gives them back. */
  lemma NewAsBytes(b: Bytes16, t: TraceId)
    ensures AsBytes(New(b)) == b
    ensures New(AsBytes(t)) == t
  {
  }

  /** The text the `Serialize` impl writes: the standard base64 of the 16
      bytes, which is always BASE64_LENGTH characters ending in "==". */
  function ToText(t: TraceId): (text: seq<u8>)
    ensures |text| == BASE64_LENGTH
    ensures text[22] == Base64.PAD && text[23] == Base64.PAD
  {
    Base64.EncodeLength(t.bytes);
    Base64.EncodePadding(t.bytes);
    Base64.Encode(t.bytes)
  }

  /** What the `Deserialize` impl makes of a text: a length other than
      BASE64_LENGTH is refused before any decoding, then the text must be
      base64 that fills the 16-byte buffer exactly. */
  function FromText(text: seq<u8>): Result<TraceId> {
    if |text| != BASE64_LENGTH then Err(LengthMismatch(BASE64_LENGTH, |text|))
    else match Base64.Decode(text)
      case None => Err(InvalidBase64)
      case Some(b) => if |b| == 16 then Ok(TraceId(b)) else Err(OutputTooSmall)
  }

  /** The `Deserialize` impl: checks the length, then decodes into a zeroed
      16-byte buffer in place. */
  method Deserialize(text: seq<u8>) returns (r: Result<TraceId>)
    ensures r == FromText(text)
  {
    if |text| != BASE64_LENGTH {
      return Err(LengthMismatch(BASE64_LENGTH, |text|));
    }
    var traceId := new u8[16](_ => 0);
    var written := Base64.DecodeSlice(text, traceId);
    if written.Err? {
      return Err(written.error);
    }
    Base64.DecodedLength(text);
    assert traceId[..] == traceId[..written.value];
    return Ok(TraceId(traceId[..]));
  }

  /** A text of the wrong length is refused with the expected and the
      actual length. */
  lemma FromTextWrongLength(text: seq<u8>)
    requires |text| != BASE64_LENGTH
    ensures FromText(text) == Err(LengthMismatch(24, |text|))
  {
  }

  /** Reading a text gives `t` exactly when the text is what `t` is written
      as: the text round trip, in both directions. */
  lemma TextRoundTrip(t: TraceId, text: seq<u8>)
    ensures FromText(text) == Ok(t) <==> text == ToText(t)
  {
    Base64.DecodeEncode(t.bytes);
    if FromText(text) == Ok(t) {
      Base64.EncodeDecode(text);
    }
  }

  /** A 24-character text holding a byte outside the base64 alphabet is
      refused. */
  lemma FromTextRejectsForeign(text: seq<u8>, i: nat)
    requires |text| == BASE64_LENGTH && i < |text|
    requires Base64.ValueOf(text[i]).None? && text[i] != Base64.PAD
    ensures FromText(text) == Err(InvalidBase64)
  {
    Base64.DecodeRejectsForeign(text, i);
  }

  /** A 24-character text that does not end in "==" is refused: with one
      '=' or none it would decode to 17 or 18 bytes. */
  lemma FromTextRejectsBadPadding(text: seq<u8>)
    requires |text| == BASE64_LENGTH
    requires text[22] != Base64.PAD || text[23] != Base64.PAD
    ensures FromText(text).Err?
  {
    if FromText(text).Ok? {
      TextRoundTrip(FromText(text).value, text);
    }
  }

  /** Every text that is accepted is ASCII, so the UTF-8 check a string
      goes through first cannot change which texts are accepted. */
  lemma FromTextAscii(text: seq<u8>)
    requires FromText(text).Ok?
    ensures forall i | 0 <= i < |text| :: text[i] < 0x80
  {
    var b := Base64.Decode(text).value;
    Base64.EncodeDecode(text);
    Base64.EncodeSymbols(b);
    forall i | 0 <= i < |text| ensures text[i] < 0x80 {
      Base64.SymbolInverse(0, text[i]);
    }
  }

  /** Zero bytes encode to 'A's: a whole group to four, a last single byte
      to two and "==". */
  lemma ZeroGroups()
    ensures Base64.EncodeGroup([0, 0, 0]) == [0x41, 0x41, 0x41, 0x41]
    ensures Base64.EncodeGroup([0]) == [0x41, 0x41, Base64.PAD, Base64.PAD]
  {
  }

  /** `3k + 1` zero bytes are written as `4k + 2` 'A's and "==". */
  lemma {:induction false} ZerosText(k: nat)
    ensures Base64.Encode(Zeros(3 * k + 1)) == Repeat(0x41, 4 * k + 2) + [Base64.PAD, Base64.PAD]
  {
    var z := Zeros(3 * k + 1);
    ZeroGroups();
    if k == 0 {
      assert z == [0];
      assert Repeat(0x41, 2) == [0x41, 0x41];
    } else {
      var tail := Zeros(3 * (k - 1) + 1);
      assert Base64.Encode(z) == [0x41, 0x41, 0x41, 0x41] + Base64.Encode(tail) by {
        assert z[..3] == [0, 0, 0] && z[3..] == tail;
      }
      ZerosText(k - 1);
      var a := Repeat(0x41, 4 * (k - 1) + 2);
      assert Repeat(0x41, 4 * k + 2) == [0x41, 0x41, 0x41, 0x41] + a;
      assert [0x41, 0x41, 0x41, 0x41] + (a + [Base64.PAD, Base64.PAD])
          == [0x41, 0x41, 0x41, 0x41] + a + [Base64.PAD, Base64.PAD];
    }
  }

  /** `n` zero bytes. */
  function Zeros(n: nat): seq<u8> {
    seq(n, _ => 0)
  }

  /** `n` copies of the byte `c`. */
  function Repeat(c: u8, n: nat): seq<u8> {
    seq(n, _ => c)
  }

  /** The all-zero identifier is written "AAAAAAAAAAAAAAAAAAAAAA==". */
  lemma ZeroText()
    ensures ToText(New(Zeros(16)))
         == [0x41, 0x41, 0x41, 0x41, 0x41, 0x41, 0x41, 0x41, 0x41, 0x41, 0x41,
             0x41, 0x41, 0x41, 0x41, 0x41, 0x41, 0x41, 0x41, 0x41, 0x41, 0x41, 0x3D, 0x3D]
  {
    ZerosText(5);
    assert Repeat(0x41, 22) + [Base64.PAD, Base64.PAD]
        == [0x41, 0x41, 0x41, 0x41, 0x41, 0x41, 0x41, 0x41, 0x41, 0x41, 0x41,
            0x41, 0x41, 0x41, 0x41, 0x41, 0x41, 0x41, 0x41, 0x41, 0x41, 0x41, 0x3D, 0x3D];
  }

  /** The derived `Ord`: byte-wise lexicographic on the 16 bytes. */
  function Compare(a: TraceId, b: TraceId): (r: Ordering)
    ensures r == Equal <==> a == b
  {
    LexEqual(a.bytes, b.bytes);
    CompareLex(a.bytes, b.bytes)
  }

  /** `TraceId::random`: every one of the 16 bytes is chosen freely. */
  method Random() returns (t: TraceId)
  {
    var id := new u8[16](_ => 0);
    for i := 0 to 16 {
      var byte: u8 :| true;
      id[i] := byte;
    }
    t := TraceId(id[..]);
  }
}
