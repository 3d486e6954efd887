/**
 * `std::str::from_utf8`: the bytes a string may be built from, and the
 * string they spell. Accepted are the shortest encodings of Unicode scalar
 * values only: no overlong forms, no surrogate halves, nothing above U+10FFFF.
 * The encoder is the reference the decoder is proved against.
 */
module Utf8 {

  import opened Wrappers
  import opened Http

  predicate IsContinuation(b: Byte) {
    0x80 <= b <= 0xBF
  }

  /**
   * The allowed range of the second byte of a three- or four-byte sequence,
   * which rules out overlong forms (after E0 and F0), surrogates (after ED)
   * and values past U+10FFFF (after F4).
   */
  function SecondByteLow(lead: Byte): Byte {
    if lead == 0xE0 then 0xA0 else if lead == 0xF0 then 0x90 else 0x80
  }

  function SecondByteHigh(lead: Byte): Byte {
    if lead == 0xED then 0x9F else if lead == 0xF4 then 0x8F else 0xBF
  }

  /** The scalar value at the start of `s` and the number of bytes it takes. */
  function DecodeFirst(s: seq<Byte>): (r: Option<(char, nat)>)
    ensures r.Some? ==> 1 <= r.value.1 <= 4 && r.value.1 <= |s|
  {
    if |s| == 0 then None
    else if s[0] < 0x80 then Some((s[0] as char, 1))
    else if 0xC2 <= s[0] <= 0xDF then DecodeTwo(s)
    else if 0xE0 <= s[0] <= 0xEF then DecodeThree(s)
    else if 0xF0 <= s[0] <= 0xF4 then DecodeFour(s)
    else None
  }

  /** A two-byte sequence: lead C2-DF (C0 and C1 would be overlong), one continuation byte. */
  function DecodeTwo(s: seq<Byte>): (r: Option<(char, nat)>)
    requires |s| > 0 && 0xC2 <= s[0] <= 0xDF
    ensures r.Some? ==> r.value.1 == 2 <= |s|
  {
    if |s| >= 2 && IsContinuation(s[1]) then
      Some((((s[0] as int - 0xC0) * 0x40 + (s[1] as int - 0x80)) as char, 2))
    else None
  }

  /** A three-byte sequence: lead E0-EF, a second byte in the lead's range, one continuation byte. */
  function DecodeThree(s: seq<Byte>): (r: Option<(char, nat)>)
    requires |s| > 0 && 0xE0 <= s[0] <= 0xEF
    ensures r.Some? ==> r.value.1 == 3 <= |s|
  {
    if |s| >= 3 && SecondByteLow(s[0]) <= s[1] <= SecondByteHigh(s[0]) && IsContinuation(s[2]) then
      Some((((s[0] as int - 0xE0) * 0x1000 + (s[1] as int - 0x80) * 0x40 + (s[2] as int - 0x80)) as char, 3))
    else None
  }

  /** A four-byte sequence: lead F0-F4, a second byte in the lead's range, two continuation bytes. */
  function DecodeFour(s: seq<Byte>): (r: Option<(char, nat)>)
    requires |s| > 0 && 0xF0 <= s[0] <= 0xF4
    ensures r.Some? ==> r.value.1 == 4 <= |s|
  {
    if |s| >= 4 && SecondByteLow(s[0]) <= s[1] <= SecondByteHigh(s[0])
       && IsContinuation(s[2]) && IsContinuation(s[3]) then
      Some((((s[0] as int - 0xF0) * 0x40000 + (s[1] as int - 0x80) * 0x1000
             + (s[2] as int - 0x80) * 0x40 + (s[3] as int - 0x80)) as char, 4))
    else None
  }

  /** The string `s` spells, or None when `s` is not well-formed UTF-8. */
  function Decode(s: seq<Byte>): (r: Option<string>)
    ensures r.Some? ==> |r.value| <= |s|
    decreases |s|
  {
    if |s| == 0 then Some([])
    else
      match DecodeFirst(s)
      case None => None
      case Some((c, n)) =>
        match Decode(s[n..])
        case None => None
        case Some(t) => Some([c] + t)
  }

  /** The shortest UTF-8 encoding of one scalar value. */
  function EncodeChar(c: char): (r: seq<Byte>)
    ensures 1 <= |r| <= 4
  {
    var v := c as int;
    if v < 0x80 then [v]
    else if v < 0x800 then [0xC0 + v / 0x40, 0x80 + v % 0x40]
    else if v < 0x1_0000 then [0xE0 + v / 0x1000, 0x80 + (v / 0x40) % 0x40, 0x80 + v % 0x40]
    else [0xF0 + v / 0x40000, 0x80 + (v / 0x1000) % 0x40, 0x80 + (v / 0x40) % 0x40, 0x80 + v % 0x40]
  }

  function Encode(s: string): (r: seq<Byte>)
    ensures |s| <= |r|
  {
    if |s| == 0 then [] else EncodeChar(s[0]) + Encode(s[1..])
  }

  /** Splitting a value into a high part and six low bits is unique. */
  lemma SixBits(v: int, hi: int, lo: int)
    requires 0 <= lo < 0x40 && v == hi * 0x40 + lo
    ensures v / 0x40 == hi && v % 0x40 == lo
  {
  }

  /** The encoding of a scalar value decodes to that value, whatever follows it. */
  lemma EncodeCharDecodes(c: char, rest: seq<Byte>)
    ensures DecodeFirst(EncodeChar(c) + rest) == Some((c, |EncodeChar(c)|))
  {
    var v := c as int;
    if 0x80 <= v < 0x800 {
      EncodeTwoDecodes(c, rest);
    } else if 0x800 <= v < 0x1_0000 {
      EncodeThreeDecodes(c, rest);
    } else if 0x1_0000 <= v {
      EncodeFourDecodes(c, rest);
    }
  }

  lemma EncodeTwoDecodes(c: char, rest: seq<Byte>)
    requires 0x80 <= c as int < 0x800
    ensures DecodeTwo(EncodeChar(c) + rest) == Some((c, 2))
  {
    var v := c as int;
    SixBits(v, v / 0x40, v % 0x40);
  }

  lemma EncodeThreeDecodes(c: char, rest: seq<Byte>)
    requires 0x800 <= c as int < 0x1_0000
    ensures DecodeThree(EncodeChar(c) + rest) == Some((c, 3))
  {
    var v := c as int;
    var s := EncodeChar(c) + rest;
    var q := v / 0x40;
    SixBits(q, q / 0x40, q % 0x40);
    assert v / 0x1000 == q / 0x40;
    assert s[0] == 0xE0 + q / 0x40 && s[1] == 0x80 + q % 0x40 && s[2] == 0x80 + v % 0x40;
  }

  lemma EncodeFourDecodes(c: char, rest: seq<Byte>)
    requires 0x1_0000 <= c as int
    ensures DecodeFour(EncodeChar(c) + rest) == Some((c, 4))
  {
    var v := c as int;
    var s := EncodeChar(c) + rest;
    var q := v / 0x40;
    var q2 := q / 0x40;
    SixBits(q, q2, q % 0x40);
    SixBits(q2, q2 / 0x40, q2 % 0x40);
    assert v / 0x1000 == q2;
    assert v / 0x40000 == q2 / 0x40;
    assert s[0] == 0xF0 + q2 / 0x40 && s[1] == 0x80 + q2 % 0x40;
    assert s[2] == 0x80 + q % 0x40 && s[3] == 0x80 + v % 0x40;
  }

  /** A sequence the decoder accepts at the start of `s` is the encoding of what it decoded. */
  lemma DecodeFirstIsEncoding(s: seq<Byte>)
    requires DecodeFirst(s).Some?
    ensures s[..DecodeFirst(s).value.1] == EncodeChar(DecodeFirst(s).value.0)
  {
    if 0xC2 <= s[0] <= 0xDF {
      DecodeTwoIsEncoding(s);
    } else if 0xE0 <= s[0] <= 0xEF {
      DecodeThreeIsEncoding(s);
    } else if 0xF0 <= s[0] <= 0xF4 {
      DecodeFourIsEncoding(s);
    }
  }

  lemma DecodeTwoIsEncoding(s: seq<Byte>)
    requires |s| > 0 && 0xC2 <= s[0] <= 0xDF && DecodeTwo(s).Some?
    ensures s[..2] == EncodeChar(DecodeTwo(s).value.0)
  {
    var v := DecodeTwo(s).value.0 as int;
    SixBits(v, s[0] - 0xC0, s[1] - 0x80);
  }

  lemma DecodeThreeIsEncoding(s: seq<Byte>)
    requires |s| > 0 && 0xE0 <= s[0] <= 0xEF && DecodeThree(s).Some?
    ensures s[..3] == EncodeChar(DecodeThree(s).value.0)
  {
    var v := DecodeThree(s).value.0 as int;
    var q: int := (s[0] - 0xE0) * 0x40 + (s[1] as int - 0x80);
    SixBits(v, q, s[2] - 0x80);
    SixBits(q, s[0] - 0xE0, s[1] - 0x80);
    assert v / 0x1000 == s[0] - 0xE0;
  }

  lemma DecodeFourIsEncoding(s: seq<Byte>)
    requires |s| > 0 && 0xF0 <= s[0] <= 0xF4 && DecodeFour(s).Some?
    ensures s[..4] == EncodeChar(DecodeFour(s).value.0)
  {
    var v := DecodeFour(s).value.0 as int;
    var q2: int := (s[0] - 0xF0) * 0x40 + (s[1] as int - 0x80);
    var q: int := q2 * 0x40 + (s[2] as int - 0x80);
    SixBits(v, q, s[3] - 0x80);
    SixBits(q, q2, s[2] - 0x80);
    SixBits(q2, s[0] - 0xF0, s[1] - 0x80);
    assert v / 0x1000 == q2;
    assert v / 0x40000 == s[0] - 0xF0;
  }

  /** Every string's encoding is accepted and decodes back to it. */
  lemma {:induction false} EncodeThenDecode(t: string)
    ensures Decode(Encode(t)) == Some(t)
  {
    if |t| > 0 {
      var e := EncodeChar(t[0]);
      var s := Encode(t);
      EncodeCharDecodes(t[0], Encode(t[1..]));
      assert s[|e|..] == Encode(t[1..]);
      EncodeThenDecode(t[1..]);
      assert [t[0]] + t[1..] == t;
    }
  }

  /** One step of an accepted decoding: the first scalar value, then the decoding of the rest. */
  lemma DecodeStep(s: seq<Byte>)
    requires |s| > 0 && Decode(s).Some?
    ensures DecodeFirst(s).Some?
    ensures Decode(s[DecodeFirst(s).value.1..]).Some?
    ensures Decode(s).value == [DecodeFirst(s).value.0] + Decode(s[DecodeFirst(s).value.1..]).value
  {
  }

  lemma EncodeCons(c: char, t: string)
    ensures Encode([c] + t) == EncodeChar(c) + Encode(t)
  {
    assert ([c] + t)[1..] == t;
  }

  /** Whatever the decoder accepts is exactly the encoding of the string it returns. */
  lemma {:induction false} DecodeThenEncode(s: seq<Byte>)
    requires Decode(s).Some?
    ensures Encode(Decode(s).value) == s
  {
    if |s| > 0 {
      DecodeStep(s);
      var c := DecodeFirst(s).value.0;
      var n := DecodeFirst(s).value.1;
      var rest := Decode(s[n..]).value;
      calc {
        Encode(Decode(s).value);
        Encode([c] + rest);
        { EncodeCons(c, rest); }
        EncodeChar(c) + Encode(rest);
        { DecodeFirstIsEncoding(s); DecodeThenEncode(s[n..]); }
        s[..n] + s[n..];
        s;
      }
    }
  }

  /** Decoding and encoding are inverse: `s` decodes to `t` exactly when `t` encodes to `s`. */
  lemma DecodeIffEncode(s: seq<Byte>, t: string)
    ensures Decode(s) == Some(t) <==> Encode(t) == s
  {
    if Decode(s) == Some(t) {
      DecodeThenEncode(s);
    }
    if Encode(t) == s {
      EncodeThenDecode(t);
    }
  }

  /** Forms that `from_utf8` rejects: an overlong encoding, a surrogate half, a stray
   *  continuation byte, and a value past U+10FFFF. */
  lemma RejectsMalformed()
    ensures Decode([0xC0, 0xAF]).None?
    ensures Decode([0xED, 0xA0, 0x80]).None?
    ensures Decode([0x80]).None?
    ensures Decode([0xF4, 0x90, 0x80, 0x80]).None?
  {
  }
}
