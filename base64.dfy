/** Base64 with the standard alphabet and padding (section 4 of RFC 4648),
    as the base64 crate's STANDARD engine applies it: the encoder always
    pads, and the decoder requires canonical padding and zero trailing bits.
    Text is handled as the bytes of an ASCII string. */
module Base64 {
  import opened Common

  /** A 6-bit group: the value of one base64 symbol. */
  type sextet = x: int | 0 <= x < 64

  /** The padding byte '='. */
  const PAD: u8 := 0x3D

  /** The symbol of a sextet: 'A'..'Z' for 0..25, 'a'..'z' for 26..51,
      '0'..'9' for 52..61, '+' for 62 and '/' for 63. */
  function Symbol(v: sextet): u8 {
    if v < 26 then 0x41 + v
    else if v < 52 then 0x61 + (v - 26)
    else if v < 62 then 0x30 + (v - 52)
    else if v == 62 then 0x2B
    else 0x2F
  }

  /** The sextet a byte stands for; None for a byte outside the alphabet,
      '=' included. */
  function ValueOf(c: u8): Option<sextet> {
    if 0x41 <= c <= 0x5A then Some(c - 0x41)
    else if 0x61 <= c <= 0x7A then Some(c - 0x61 + 26)
    else if 0x30 <= c <= 0x39 then Some(c - 0x30 + 52)
    else if c == 0x2B then Some(62)
    else if c == 0x2F then Some(63)
    else None
  }

  /** Symbol and ValueOf are inverse bijections between sextets and the 64
      alphabet bytes, all of them ASCII and none of them '='. */
  lemma SymbolInverse(v: sextet, c: u8)
    ensures ValueOf(Symbol(v)) == Some(v) && Symbol(v) != PAD && Symbol(v) < 0x80
    ensures ValueOf(c).Some? ==> Symbol(ValueOf(c).value) == c && c < 0x80
  {
  }

  /** One group of one to three bytes as four characters: a short group is
      filled with zero bits up to a whole sextet, then with '='. */
  function EncodeGroup(g: seq<u8>): seq<u8>
    requires 1 <= |g| <= 3
  {
    var a := g[0];
    var b := if |g| > 1 then g[1] else 0;
    var c := if |g| > 2 then g[2] else 0;
    [ Symbol(a / 4),
      Symbol(a % 4 * 16 + b / 16),
      if |g| > 1 then Symbol(b % 16 * 4 + c / 64) else PAD,
      if |g| > 2 then Symbol(c % 64) else PAD ]
  }

  /** The padded base64 text of `b`, three bytes to four characters. */
  function Encode(b: seq<u8>): seq<u8>
    decreases |b|
  {
    if |b| == 0 then []
    else if |b| <= 3 then EncodeGroup(b)
    else EncodeGroup(b[..3]) + Encode(b[3..])
  }

  /** One group of four characters. Only the last group of the text (`last`)
      may be padded: "xx==" gives one byte, "xxx=" two, and the bits that a
      padded group drops must be zero. */
  function DecodeGroup(q: seq<u8>, last: bool): Option<seq<u8>>
    requires |q| == 4
  {
    var w, x, y, z := ValueOf(q[0]), ValueOf(q[1]), ValueOf(q[2]), ValueOf(q[3]);
    if w.None? || x.None? then None
    else if last && q[2] == PAD && q[3] == PAD then
      if x.value % 16 == 0 then Some([w.value * 4 + x.value / 16]) else None
    else if y.None? then None
    else if last && q[3] == PAD then
      if y.value % 4 == 0 then Some([w.value * 4 + x.value / 16, x.value % 16 * 16 + y.value / 4])
      else None
    else if z.None? then None
    else Some([w.value * 4 + x.value / 16, x.value % 16 * 16 + y.value / 4, y.value % 4 * 64 + z.value])
  }

  /** `p` followed by a decoded tail, or None when the tail failed. */
  function Prepend(p: seq<u8>, tail: Option<seq<u8>>): Option<seq<u8>> {
    match tail
    case None => None
    case Some(t) => Some(p + t)
  }

  lemma PrependTwice(p: seq<u8>, q: seq<u8>, tail: Option<seq<u8>>)
    ensures Prepend(p, Prepend(q, tail)) == Prepend(p + q, tail)
  {
    if tail.Some? {
      assert p + (q + tail.value) == p + q + tail.value;
    }
  }

  /** The bytes a padded base64 text stands for; None when the text is not
      the canonical encoding of any byte sequence. The length must be a
      whole number of groups. */
  function Decode(s: seq<u8>): Option<seq<u8>> {
    if |s| % 4 != 0 then None else DecodeGroups(s)
  }

  /** The text group by group: every group but the last whole, the last
      one possibly padded. A piece shorter than a group decodes to None. */
  function DecodeGroups(s: seq<u8>): Option<seq<u8>>
    decreases |s|
  {
    if |s| == 0 then Some([])
    else if |s| < 4 then None
    else match DecodeGroup(s[..4], |s| == 4)
      case None => None
      case Some(g) => Prepend(g, DecodeGroups(s[4..]))
  }

  /** A text of one group decodes as a last group. */
  lemma DecodeLastGroup(q: seq<u8>)
    requires |q| == 4
    ensures DecodeGroups(q) == DecodeGroup(q, true)
  {
    assert q[..4] == q && q[4..] == [];
    if DecodeGroup(q, true).Some? {
      assert DecodeGroup(q, true).value + [] == DecodeGroup(q, true).value;
    }
  }

  /** A length of `k` whole groups is a multiple of four. */
  lemma WholeGroups(n: nat, k: nat)
    requires n == 4 * k
    ensures n % 4 == 0 && n / 4 == k
  {
  }

  /** Three bytes cut into four sextets, and back. */
  lemma SplitBits(a: u8, b: u8, c: u8)
    ensures var x, y := a % 4 * 16 + b / 16, b % 16 * 4 + c / 64;
      && 0 <= x < 64 && 0 <= y < 64
      && a / 4 * 4 + x / 16 == a
      && x % 16 == b / 16 && x % 16 * 16 + y / 4 == b
      && y % 4 == c / 64 && y % 4 * 64 + c % 64 == c
  {
  }

  /** Four sextets joined into three bytes, and back. */
  lemma JoinBits(w: sextet, x: sextet, y: sextet, z: sextet)
    ensures var a, b, c := w * 4 + x / 16, x % 16 * 16 + y / 4, y % 4 * 64 + z;
      && 0 <= a < 0x100 && 0 <= b < 0x100 && 0 <= c < 0x100
      && a / 4 == w && a % 4 * 16 + b / 16 == x
      && b % 16 * 4 + c / 64 == y && c % 64 == z
  {
  }

  /** Four symbols decode to the three bytes their sextets join into. */
  lemma DecodeSymbols3(w: sextet, x: sextet, y: sextet, z: sextet, last: bool)
    ensures DecodeGroup([Symbol(w), Symbol(x), Symbol(y), Symbol(z)], last)
      == Some([w * 4 + x / 16, x % 16 * 16 + y / 4, y % 4 * 64 + z])
  {
    SymbolInverse(w, 0);
    SymbolInverse(x, 0);
    SymbolInverse(y, 0);
    SymbolInverse(z, 0);
  }

  /** Three symbols and '=' end a text with two bytes, when the symbol
      before '=' drops only zero bits. */
  lemma DecodeSymbols2(w: sextet, x: sextet, y: sextet)
    requires y % 4 == 0
    ensures DecodeGroup([Symbol(w), Symbol(x), Symbol(y), PAD], true)
      == Some([w * 4 + x / 16, x % 16 * 16 + y / 4])
  {
    SymbolInverse(w, 0);
    SymbolInverse(x, 0);
    SymbolInverse(y, 0);
  }

  /** Two symbols and "==" end a text with one byte, when the symbol before
      "==" drops only zero bits. */
  lemma DecodeSymbols1(w: sextet, x: sextet)
    requires x % 16 == 0
    ensures DecodeGroup([Symbol(w), Symbol(x), PAD, PAD], true) == Some([w * 4 + x / 16])
  {
    SymbolInverse(w, 0);
    SymbolInverse(x, 0);
  }

  /** Three bytes decode back from their four symbols. */
  lemma RoundTrip3(a: u8, b: u8, c: u8, last: bool)
    ensures DecodeGroup(EncodeGroup([a, b, c]), last) == Some([a, b, c])
  {
    var x, y := a % 4 * 16 + b / 16, b % 16 * 4 + c / 64;
    assert 0 <= x < 64 && 0 <= y < 64
      && a / 4 * 4 + x / 16 == a && x % 16 * 16 + y / 4 == b && y % 4 * 64 + c % 64 == c by {
      SplitBits(a, b, c);
    }
    assert EncodeGroup([a, b, c]) == [Symbol(a / 4), Symbol(x), Symbol(y), Symbol(c % 64)];
    DecodeSymbols3(a / 4, x, y, c % 64, last);
  }

  /** Two final bytes decode back from "xxx=". */
  lemma RoundTrip2(a: u8, b: u8)
    ensures DecodeGroup(EncodeGroup([a, b]), true) == Some([a, b])
  {
    var x, y := a % 4 * 16 + b / 16, b % 16 * 4;
    assert 0 <= x < 64 && 0 <= y < 64 && y % 4 == 0
      && a / 4 * 4 + x / 16 == a && x % 16 * 16 + y / 4 == b by {
      SplitBits(a, b, 0);
    }
    assert EncodeGroup([a, b]) == [Symbol(a / 4), Symbol(x), Symbol(y), PAD];
    DecodeSymbols2(a / 4, x, y);
  }

  /** One final byte decodes back from "xx==". */
  lemma RoundTrip1(a: u8)
    ensures DecodeGroup(EncodeGroup([a]), true) == Some([a])
  {
    SplitBits(a, 0, 0);
    var w, x := a / 4, a % 4 * 16;
    assert EncodeGroup([a]) == [Symbol(w), Symbol(x), PAD, PAD];
    DecodeSymbols1(w, x);
  }

  /** Decoding a group undoes encoding it; a short group must be the last. */
  lemma GroupRoundTrip(g: seq<u8>, last: bool)
    requires 1 <= |g| <= 3
    requires |g| == 3 || last
    ensures DecodeGroup(EncodeGroup(g), last) == Some(g)
  {
    if |g| == 1 {
      assert g == [g[0]];
      RoundTrip1(g[0]);
    } else if |g| == 2 {
      assert g == [g[0], g[1]];
      RoundTrip2(g[0], g[1]);
    } else {
      assert g == [g[0], g[1], g[2]];
      RoundTrip3(g[0], g[1], g[2], last);
    }
  }

  /** The group joined from four sextets encodes back to their symbols,
      provided a short group drops only zero bits. */
  lemma EncodeJoined(g: seq<u8>, w: sextet, x: sextet, y: sextet, z: sextet)
    requires 1 <= |g| <= 3 && g[0] == w * 4 + x / 16
    requires |g| == 1 ==> x % 16 == 0
    requires |g| >= 2 ==> g[1] == x % 16 * 16 + y / 4
    requires |g| == 2 ==> y % 4 == 0
    requires |g| == 3 ==> g[2] == y % 4 * 64 + z
    ensures EncodeGroup(g) ==
      [Symbol(w), Symbol(x), if |g| > 1 then Symbol(y) else PAD, if |g| > 2 then Symbol(z) else PAD]
  {
    JoinBits(w, x, if |g| > 1 then y else 0, if |g| > 2 then z else 0);
  }

  /** A group that decodes is the encoding of what it decodes to. */
  lemma GroupInverse(q: seq<u8>, last: bool)
    requires |q| == 4 && DecodeGroup(q, last).Some?
    ensures var g := DecodeGroup(q, last).value;
      1 <= |g| <= 3 && (last || |g| == 3) && EncodeGroup(g) == q
  {
    var g := DecodeGroup(q, last).value;
    SymbolInverse(0, q[0]);
    SymbolInverse(0, q[1]);
    var w, x := ValueOf(q[0]).value, ValueOf(q[1]).value;
    assert q == [q[0], q[1], q[2], q[3]];
    if last && q[2] == PAD && q[3] == PAD {
      EncodeJoined(g, w, x, 0, 0);
    } else {
      SymbolInverse(0, q[2]);
      var y := ValueOf(q[2]).value;
      if last && q[3] == PAD {
        EncodeJoined(g, w, x, y, 0);
      } else {
        SymbolInverse(0, q[3]);
        EncodeJoined(g, w, x, y, ValueOf(q[3]).value);
      }
    }
  }

  /** Every three bytes, or part of three, become four characters. */
  lemma {:induction false} EncodeLength(b: seq<u8>)
    ensures |Encode(b)| == 4 * ((|b| + 2) / 3)
    decreases |b|
  {
    if |b| > 3 {
      EncodeLength(b[3..]);
    }
  }

  /** Decoding a whole group followed by more text: the group, then the
      rest. */
  lemma DecodeConcat(q: seq<u8>, t: seq<u8>)
    requires |q| == 4 && |t| > 0
    ensures DecodeGroups(q + t) == match DecodeGroup(q, false)
      case None => None
      case Some(g) => Prepend(g, DecodeGroups(t))
  {
    assert (q + t)[..4] == q && (q + t)[4..] == t;
  }

  /** Decoding the groups of an encoding gives back the bytes. */
  lemma {:induction false} DecodeGroupsEncode(b: seq<u8>)
    ensures DecodeGroups(Encode(b)) == Some(b)
    decreases |b|
  {
    if |b| == 0 {
    } else if |b| <= 3 {
      GroupRoundTrip(b, true);
      DecodeLastGroup(Encode(b));
    } else {
      var q, tail := EncodeGroup(b[..3]), Encode(b[3..]);
      assert |tail| > 0 by {
        EncodeLength(b[3..]);
      }
      assert DecodeGroups(q + tail) == Prepend(b[..3], DecodeGroups(tail)) by {
        DecodeConcat(q, tail);
        GroupRoundTrip(b[..3], false);
      }
      assert DecodeGroups(tail) == Some(b[3..]) by {
        DecodeGroupsEncode(b[3..]);
      }
      assert Encode(b) == q + tail;
      assert b[..3] + b[3..] == b;
    }
  }

  /** Decode undoes Encode for every byte sequence. */
  lemma DecodeEncode(b: seq<u8>)
    ensures Decode(Encode(b)) == Some(b)
  {
    var e := Encode(b);
    assert |e| % 4 == 0 by {
      EncodeLength(b);
      WholeGroups(|e|, (|b| + 2) / 3);
    }
    DecodeGroupsEncode(b);
  }

  /** Groups that decode are the encoding of what they decode to. */
  lemma {:induction false} EncodeDecodeGroups(s: seq<u8>)
    requires DecodeGroups(s).Some?
    ensures Encode(DecodeGroups(s).value) == s
    decreases |s|
  {
    var b := DecodeGroups(s).value;
    if |s| == 0 {
    } else if |s| == 4 {
      DecodeLastGroup(s);
      GroupInverse(s, true);
    } else {
      GroupInverse(s[..4], false);
      var g := DecodeGroup(s[..4], false).value;
      var t := DecodeGroups(s[4..]).value;
      EncodeDecodeGroups(s[4..]);
      assert b == g + t && b[..3] == g && b[3..] == t;
      assert t != [];
      assert s == s[..4] + s[4..];
    }
  }

  /** Encode undoes Decode: a text that decodes is the encoding of its bytes,
      so the decoder accepts exactly the canonical texts. */
  lemma EncodeDecode(s: seq<u8>)
    requires Decode(s).Some?
    ensures Encode(Decode(s).value) == s
  {
    EncodeDecodeGroups(s);
  }

  /** Every character of an encoding is an alphabet symbol, except '=',
      which appears only among the last two. */
  lemma {:induction false} EncodeSymbols(b: seq<u8>)
    ensures forall i | 0 <= i < |Encode(b)| ::
      ValueOf(Encode(b)[i]).Some? || (Encode(b)[i] == PAD && i >= |Encode(b)| - 2)
    decreases |b|
  {
    if 0 < |b| <= 3 {
      var e := Encode(b);
      forall i | 0 <= i < 4 ensures ValueOf(e[i]).Some? || (e[i] == PAD && i >= 2) {
        var a := b[0];
        var b1 := if |b| > 1 then b[1] else 0;
        var c := if |b| > 2 then b[2] else 0;
        SymbolInverse(a / 4, 0);
        SymbolInverse(a % 4 * 16 + b1 / 16, 0);
        SymbolInverse(b1 % 16 * 4 + c / 64, 0);
        SymbolInverse(c % 64, 0);
      }
    } else if |b| > 3 {
      var e := Encode(b);
      var head := EncodeGroup(b[..3]);
      var tail := Encode(b[3..]);
      EncodeSymbols(b[..3]);
      EncodeSymbols(b[3..]);
      EncodeLength(b[3..]);
      forall i | 0 <= i < |e| ensures ValueOf(e[i]).Some? || (e[i] == PAD && i >= |e| - 2) {
        if i < 4 {
          assert e[i] == Encode(b[..3])[i];
        } else {
          assert e[i] == tail[i - 4];
        }
      }
    }
  }

  /** Where a group's encoding holds '=' and which bits of its last symbol
      are zero. */
  lemma GroupPadding(g: seq<u8>)
    requires 1 <= |g| <= 3
    ensures var e := EncodeGroup(g);
      && (e[3] == PAD <==> |g| != 3)
      && (e[2] == PAD <==> |g| == 1)
      && (|g| == 1 ==> ValueOf(e[1]).Some? && ValueOf(e[1]).value % 16 == 0)
      && (|g| == 2 ==> ValueOf(e[2]).Some? && ValueOf(e[2]).value % 4 == 0)
  {
    var a := g[0];
    var b := if |g| > 1 then g[1] else 0;
    var c := if |g| > 2 then g[2] else 0;
    SplitBits(a, b, c);
    SymbolInverse(a % 4 * 16 + b / 16, 0);
    SymbolInverse(b % 16 * 4 + c / 64, 0);
    SymbolInverse(c % 64, 0);
  }

  /** Where an encoding ends in '=' and which bits of its last symbol are
      zero: "xx==" after one leftover byte, "xxx=" after two, none after a
      whole group. */
  lemma {:induction false} EncodePadding(b: seq<u8>)
    requires |b| > 0
    ensures var e := Encode(b);
      && |e| >= 4
      && (e[|e| - 1] == PAD <==> |b| % 3 != 0)
      && (e[|e| - 2] == PAD <==> |b| % 3 == 1)
      && (|b| % 3 == 1 ==> ValueOf(e[|e| - 3]).Some? && ValueOf(e[|e| - 3]).value % 16 == 0)
      && (|b| % 3 == 2 ==> ValueOf(e[|e| - 2]).Some? && ValueOf(e[|e| - 2]).value % 4 == 0)
    decreases |b|
  {
    if |b| <= 3 {
      GroupPadding(b);
    } else {
      var e := Encode(b);
      var tail := Encode(b[3..]);
      EncodePadding(b[3..]);
      assert |b[3..]| % 3 == |b| % 3;
      assert e == EncodeGroup(b[..3]) + tail;
      assert e[|e| - 1] == tail[|tail| - 1];
      assert e[|e| - 2] == tail[|tail| - 2];
      assert e[|e| - 3] == tail[|tail| - 3];
    }
  }

  /** A decoded text's length is fixed by the length of its bytes. */
  lemma DecodedLength(s: seq<u8>)
    requires Decode(s).Some?
    ensures |s| == 4 * ((|Decode(s).value| + 2) / 3)
  {
    EncodeDecode(s);
    EncodeLength(Decode(s).value);
  }

  /** A byte outside the alphabet, other than '=', makes decoding fail. */
  lemma DecodeRejectsForeign(s: seq<u8>, i: nat)
    requires i < |s| && ValueOf(s[i]).None? && s[i] != PAD
    ensures Decode(s).None?
  {
    if Decode(s).Some? {
      EncodeDecode(s);
      EncodeSymbols(Decode(s).value);
    }
  }

  /** '=' anywhere before the last two characters makes decoding fail. */
  lemma DecodeRejectsInnerPadding(s: seq<u8>, i: nat)
    requires i + 2 < |s| && s[i] == PAD
    ensures Decode(s).None?
  {
    if Decode(s).Some? {
      EncodeDecode(s);
      EncodeSymbols(Decode(s).value);
      SymbolInverse(0, s[i]);
    }
  }

  /** A padded last group whose dropped bits are not zero makes decoding
      fail ("AB==" is not canonical, "AA==" is). */
  lemma DecodeRejectsTrailingBits(s: seq<u8>)
    requires |s| >= 4 && s[|s| - 1] == PAD
    requires var k := if s[|s| - 2] == PAD then |s| - 3 else |s| - 2;
      ValueOf(s[k]).Some? && ValueOf(s[k]).value % (if s[|s| - 2] == PAD then 16 else 4) != 0
    ensures Decode(s).None?
  {
    if Decode(s).Some? {
      EncodeDecode(s);
      var b := Decode(s).value;
      EncodeLength(b);
      EncodePadding(b);
    }
  }

  /** Decoding the text from group `i` on: group `i` first, then the rest. */
  lemma DecodeFrom(input: seq<u8>, i: nat)
    requires 4 * i + 4 <= |input|
    ensures var q, last := input[4 * i..4 * i + 4], 4 * i + 4 == |input|;
      DecodeGroups(input[4 * i..]) == match DecodeGroup(q, last)
        case None => None
        case Some(g) => Prepend(g, DecodeGroups(input[4 * (i + 1)..]))
  {
    var rest, q, t := input[4 * i..], input[4 * i..4 * i + 4], input[4 * (i + 1)..];
    if 4 * i + 4 == |input| {
      assert rest == q && t == [];
      DecodeLastGroup(q);
      if DecodeGroup(q, true).Some? {
        assert DecodeGroup(q, true).value + [] == DecodeGroup(q, true).value;
      }
    } else {
      assert rest == q + t;
      DecodeConcat(q, t);
    }
  }

  /** One step of decoding group by group: with the bytes `done` of the
      groups before `i` in hand, a group that decodes to `g` extends them. */
  lemma DecodeStep(input: seq<u8>, i: nat, done: seq<u8>, g: seq<u8>)
    requires 4 * i + 4 <= |input|
    requires DecodeGroups(input) == Prepend(done, DecodeGroups(input[4 * i..]))
    requires DecodeGroup(input[4 * i..4 * i + 4], 4 * i + 4 == |input|) == Some(g)
    ensures 1 <= |g| <= 3 && (4 * i + 4 == |input| || |g| == 3)
    ensures DecodeGroups(input) == Prepend(done + g, DecodeGroups(input[4 * (i + 1)..]))
    ensures DecodeGroups(input).Some? ==> |DecodeGroups(input).value| >= |done| + |g|
    ensures 4 * i + 4 == |input| ==> DecodeGroups(input) == Some(done + g)
  {
    var last := 4 * i + 4 == |input|;
    var q := input[4 * i..4 * i + 4];
    DecodeFrom(input, i);
    GroupInverse(q, last);
    var tail := DecodeGroups(input[4 * (i + 1)..]);
    PrependTwice(done, g, tail);
    if last {
      assert input[4 * (i + 1)..] == [];
      assert done + g + [] == done + g;
    }
  }

  /** A group that does not decode sinks the whole text. */
  lemma DecodeStepFails(input: seq<u8>, i: nat, done: seq<u8>)
    requires 4 * i + 4 <= |input|
    requires DecodeGroups(input) == Prepend(done, DecodeGroups(input[4 * i..]))
    requires DecodeGroup(input[4 * i..4 * i + 4], 4 * i + 4 == |input|).None?
    ensures DecodeGroups(input).None?
  {
    DecodeFrom(input, i);
  }

  /** Writes `g` into `output` at `n`, leaving every other cell as it was. */
  method WriteAt(output: array<u8>, n: nat, g: seq<u8>)
    requires n + |g| <= output.Length
    modifies output
    ensures output[..n + |g|] == old(output[..n]) + g
    ensures output[n + |g|..] == old(output[n + |g|..])
  {
    for j := 0 to |g|
      invariant output[..n + j] == old(output[..n]) + g[..j]
      invariant output[n + j..] == old(output[n + j..])
    {
      output[n + j] := g[j];
      assert output[..n + j + 1] == output[..n + j] + [g[j]];
    }
    assert g[..|g|] == g;
  }

  /** The crate's `decode_slice_unchecked`: decodes `input` group by group
      into the front of `output`, writing nothing past the decoded bytes.
      A text that decodes to more bytes than `output` holds fails with
      OutputTooSmall where the crate panics. */
  method DecodeSlice(input: seq<u8>, output: array<u8>) returns (r: Result<nat>)
    modifies output
    ensures r.Ok? <==> Decode(input).Some? && |Decode(input).value| <= output.Length
    ensures r.Ok? ==> r.value == |Decode(input).value| && output[..r.value] == Decode(input).value
    ensures r.Ok? ==> output[r.value..] == old(output[r.value..])
    ensures r.Err? && Decode(input).Some? ==> r.error == OutputTooSmall
    ensures Decode(input).None? && 3 * (|input| / 4) <= output.Length + 3 ==> r == Err(InvalidBase64)
  {
    if |input| % 4 != 0 {
      return Err(InvalidBase64);
    }
    var groups := |input| / 4;
    assert |input| == 4 * groups && Decode(input) == DecodeGroups(input);
    var i, n: nat := 0, 0;
    ghost var decoded: seq<u8> := [];
    assert input[4 * i..] == input;
    if DecodeGroups(input).Some? {
      assert [] + DecodeGroups(input).value == DecodeGroups(input).value;
    }
    while i < groups
      invariant i <= groups && n == |decoded| <= output.Length
      invariant i < groups ==> n == 3 * i
      invariant output[..n] == decoded && output[n..] == old(output[n..])
      invariant DecodeGroups(input) == Prepend(decoded, DecodeGroups(input[4 * i..]))
    {
      var last := 4 * i + 4 == |input|;
      var bytes := DecodeGroup(input[4 * i..4 * i + 4], last);
      if bytes.None? {
        DecodeStepFails(input, i, decoded);
        return Err(InvalidBase64);
      }
      var g := bytes.value;
      DecodeStep(input, i, decoded, g);
      if n + |g| > output.Length {
        return Err(OutputTooSmall);
      }
      WriteAt(output, n, g);
      n, decoded := n + |g|, decoded + g;
      i := i + 1;
    }
    assert input[4 * i..] == [];
    return Ok(n);
  }
}
