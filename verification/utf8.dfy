/** UTF-8, as Rust's `String` stores text: `as_bytes` is `Encode` and
    `String::from_utf8` is `Decode`. Well-formedness follows the grammar of
    section 4 of RFC 3629. Dafny's `char` is a Unicode scalar value, so a
    Dafny `string` is exactly the content of a Rust `String`. */
module Utf8 {
  import opened Bytes
  import opened Options
  import BigEndian

  /** `UTF8-tail = %x80-BF` */
  predicate IsTail(b: Byte) {
    0x80 <= b <= 0xBF
  }

  /** `UTF8-3` of the grammar, on its three bytes. */
  predicate IsUtf8Three(b0: Byte, b1: Byte, b2: Byte) {
    || (b0 == 0xE0 && 0xA0 <= b1 <= 0xBF && IsTail(b2))
    || (0xE1 <= b0 <= 0xEC && IsTail(b1) && IsTail(b2))
    || (b0 == 0xED && 0x80 <= b1 <= 0x9F && IsTail(b2))
    || (0xEE <= b0 <= 0xEF && IsTail(b1) && IsTail(b2))
  }

  /** `UTF8-4` of the grammar, on its four bytes. */
  predicate IsUtf8Four(b0: Byte, b1: Byte, b2: Byte, b3: Byte) {
    && IsTail(b2) && IsTail(b3)
    && (|| (b0 == 0xF0 && 0x90 <= b1 <= 0xBF)
        || (0xF1 <= b0 <= 0xF3 && IsTail(b1))
        || (b0 == 0xF4 && 0x80 <= b1 <= 0x8F))
  }

  /** Exactly one `UTF8-char` of the grammar in section 4 of RFC 3629. */
  predicate IsUtf8Char(c: seq<Byte>) {
    || (|c| == 1 && c[0] <= 0x7F)
    || (|c| == 2 && 0xC2 <= c[0] <= 0xDF && IsTail(c[1]))
    || (|c| == 3 && IsUtf8Three(c[0], c[1], c[2]))
    || (|c| == 4 && IsUtf8Four(c[0], c[1], c[2], c[3]))
  }

  /** `UTF8-octets = *( UTF8-char )`: the byte string splits into UTF-8 characters. */
  predicate WellFormed(s: seq<Byte>)
    decreases |s|
  {
    || |s| == 0
    || (1 <= |s| && IsUtf8Char(s[..1]) && WellFormed(s[1..]))
    || (2 <= |s| && IsUtf8Char(s[..2]) && WellFormed(s[2..]))
    || (3 <= |s| && IsUtf8Char(s[..3]) && WellFormed(s[3..]))
    || (4 <= |s| && IsUtf8Char(s[..4]) && WellFormed(s[4..]))
  }

  /** The UTF-8 encoding of one scalar value (section 3 of RFC 3629). */
  function EncodeChar(c: char): (r: seq<Byte>)
    ensures 1 <= |r| <= 4
  {
    var cp := c as int;
    if cp < 0x80 then [cp]
    else if cp < 0x800 then [0xC0 + cp / 64, 0x80 + cp % 64]
    else if cp < 0x1_0000 then [0xE0 + cp / 4096, 0x80 + (cp / 64) % 64, 0x80 + cp % 64]
    else [0xF0 + cp / 0x4_0000, 0x80 + (cp / 4096) % 64, 0x80 + (cp / 64) % 64, 0x80 + cp % 64]
  }

  /** The UTF-8 encoding of a string: Rust's `String::as_bytes`. */
  function Encode(s: string): (r: seq<Byte>)
    ensures |r| >= |s|
  {
    if |s| == 0 then [] else EncodeChar(s[0]) + Encode(s[1..])
  }

  /** Lowest second byte a lead byte of a multi-byte sequence admits. */
  function SecondMin(lead: Byte): Byte {
    if lead == 0xE0 then 0xA0 else if lead == 0xF0 then 0x90 else 0x80
  }

  /** Highest second byte a lead byte of a multi-byte sequence admits. */
  function SecondMax(lead: Byte): Byte {
    if lead == 0xED then 0x9F else if lead == 0xF4 then 0x8F else 0xBF
  }

  /** The scalar value of a two-byte sequence (five plus six payload bits). */
  function Value2(b0: Byte, b1: Byte): int {
    (b0 as int - 0xC0) * 64 + (b1 as int - 0x80)
  }

  /** The scalar value of a three-byte sequence (four plus six plus six payload bits). */
  function Value3(b0: Byte, b1: Byte, b2: Byte): int {
    (b0 as int - 0xE0) * 4096 + (b1 as int - 0x80) * 64 + (b2 as int - 0x80)
  }

  /** The scalar value of a four-byte sequence (three plus three times six payload bits). */
  function Value4(b0: Byte, b1: Byte, b2: Byte, b3: Byte): int {
    (b0 as int - 0xF0) * 0x4_0000 + (b1 as int - 0x80) * 4096 + (b2 as int - 0x80) * 64 + (b3 as int - 0x80)
  }

  /** Validates and decodes the first character of `s`, the way a UTF-8
      validator does: the lead byte fixes the length and the range of the
      second byte, the rest must be continuation bytes. Yields the character
      and the number of bytes it took, or None when `s` does not start with a
      well-formed character. */
  function DecodeChar(s: seq<Byte>): (r: Option<(char, nat)>)
    ensures r.Some? ==> 1 <= r.value.1 <= |s| && r.value.1 <= 4
  {
    if |s| == 0 then None
    else
      var b0 := s[0];
      if b0 < 0x80 then Some((b0 as char, 1))
      else if 0xC2 <= b0 <= 0xDF then
        if |s| < 2 || !IsTail(s[1]) then None
        else Some((Value2(b0, s[1]) as char, 2))
      else if 0xE0 <= b0 <= 0xEF then
        if |s| < 3 || !(SecondMin(b0) <= s[1] <= SecondMax(b0)) || !IsTail(s[2]) then None
        else Some((Value3(b0, s[1], s[2]) as char, 3))
      else if 0xF0 <= b0 <= 0xF4 then
        if |s| < 4 || !(SecondMin(b0) <= s[1] <= SecondMax(b0)) || !IsTail(s[2]) || !IsTail(s[3]) then None
        else Some((Value4(b0, s[1], s[2], s[3]) as char, 4))
      else None
  }

  /** `String::from_utf8`: the text the bytes encode, or None when they are
      not well-formed UTF-8. */
  function Decode(s: seq<Byte>): (r: Option<string>)
    ensures r.Some? ==> |r.value| <= |s|
    decreases |s|
  {
    if |s| == 0 then Some([])
    else
      match DecodeChar(s)
      case None => None
      case Some((c, n)) =>
        match Decode(s[n..])
        case None => None
        case Some(rest) => Some([c] + rest)
  }

  // ---- One character ----

  /** The base-64 digits of a scalar value, the payload groups of its encoding. */
  lemma Digits(cp: int)
    requires 0 <= cp < 0x11_0000
    ensures 0 <= cp % 64 < 64 && 0 <= (cp / 64) % 64 < 64 && 0 <= (cp / 4096) % 64 < 64
    ensures 0 <= cp / 0x4_0000 <= 0x10
    ensures cp / 64 == (cp / 4096) * 64 + (cp / 64) % 64
    ensures cp / 4096 == (cp / 0x4_0000) * 64 + (cp / 4096) % 64
    ensures cp == (cp / 64) * 64 + cp % 64
  {
    var d0, q1 := cp % 64, cp / 64;
    var d1, q2 := q1 % 64, q1 / 64;
    var d2, d3 := q2 % 64, q2 / 64;
    assert q1 * 64 + d0 == cp;
    BigEndian.DivModUnique(cp, 4096, q2, d1 * 64 + d0);
    BigEndian.DivModUnique(cp, 0x4_0000, d3, d2 * 4096 + d1 * 64 + d0);
  }

  /** Each encoded character is one `UTF8-char` of the grammar. */
  lemma EncodeCharWellFormed(c: char)
    ensures IsUtf8Char(EncodeChar(c))
  {
    Digits(c as int);
  }

  /** Decoding reads back the character an encoding starts with, whatever follows it. */
  lemma DecodeEncodeChar(c: char, rest: seq<Byte>)
    ensures DecodeChar(EncodeChar(c) + rest) == Some((c, |EncodeChar(c)|))
  {
    EncodeCharWellFormed(c);
    Digits(c as int);
  }

  /** Encoding the value of a two-byte sequence gives the sequence back. */
  lemma EncodeValue2(b0: Byte, b1: Byte)
    requires 0xC2 <= b0 <= 0xDF && IsTail(b1)
    ensures EncodeChar(Value2(b0, b1) as char) == [b0, b1]
  {
    BigEndian.DivModUnique(Value2(b0, b1), 64, b0 - 0xC0, b1 - 0x80);
  }

  /** Encoding the value of a three-byte sequence gives the sequence back. */
  lemma EncodeValue3(b0: Byte, b1: Byte, b2: Byte)
    requires IsUtf8Three(b0, b1, b2)
    ensures EncodeChar(Value3(b0, b1, b2) as char) == [b0, b1, b2]
  {
    var a, b, c := b0 - 0xE0, b1 - 0x80, b2 - 0x80;
    var cp := Value3(b0, b1, b2);
    BigEndian.DivModUnique(cp, 64, a * 64 + b, c);
    BigEndian.DivModUnique(a * 64 + b, 64, a, b);
    BigEndian.DivModUnique(cp, 4096, a, b * 64 + c);
  }

  /** Encoding the value of a four-byte sequence gives the sequence back. */
  lemma EncodeValue4(b0: Byte, b1: Byte, b2: Byte, b3: Byte)
    requires IsUtf8Four(b0, b1, b2, b3)
    ensures EncodeChar(Value4(b0, b1, b2, b3) as char) == [b0, b1, b2, b3]
  {
    var a, b, c, d := b0 - 0xF0, b1 - 0x80, b2 - 0x80, b3 - 0x80;
    var cp := Value4(b0, b1, b2, b3);
    BigEndian.DivModUnique(cp, 64, a * 4096 + b * 64 + c, d);
    BigEndian.DivModUnique(a * 4096 + b * 64 + c, 64, a * 64 + b, c);
    BigEndian.DivModUnique(cp, 4096, a * 64 + b, c * 64 + d);
    BigEndian.DivModUnique(a * 64 + b, 64, a, b);
    BigEndian.DivModUnique(cp, 0x4_0000, a, b * 4096 + c * 64 + d);
  }

  /** What DecodeChar accepts is one grammar character, and encoding the
      decoded character reproduces exactly the bytes it consumed. */
  lemma DecodeCharSound(s: seq<Byte>)
    requires DecodeChar(s).Some?
    ensures IsUtf8Char(s[..DecodeChar(s).value.1])
    ensures EncodeChar(DecodeChar(s).value.0) == s[..DecodeChar(s).value.1]
  {
    var n := DecodeChar(s).value.1;
    if n == 2 {
      EncodeValue2(s[0], s[1]);
    } else if n == 3 {
      EncodeValue3(s[0], s[1], s[2]);
    } else if n == 4 {
      EncodeValue4(s[0], s[1], s[2], s[3]);
    }
  }

  /** A grammar character at the head of `s` is what DecodeChar finds there:
      the lead byte alone fixes the character's length. */
  lemma DecodeCharComplete(s: seq<Byte>, n: nat)
    requires n <= |s| && IsUtf8Char(s[..n])
    ensures DecodeChar(s).Some? && DecodeChar(s).value.1 == n
  {
  }

  // ---- Whole strings ----

  /** Round trip: decoding the encoding of any text gives the text back. */
  lemma {:induction false} DecodeEncode(t: string)
    ensures Decode(Encode(t)) == Some(t)
    decreases |t|
  {
    if |t| > 0 {
      var e, rest := EncodeChar(t[0]), Encode(t[1..]);
      DecodeEncodeChar(t[0], rest);
      assert (e + rest)[|e|..] == rest;
      DecodeEncode(t[1..]);
      assert [t[0]] + t[1..] == t;
    }
  }

  /** The other round trip: whatever decodes, re-encodes to the same bytes,
      so Decode accepts each text under exactly one byte form. */
  lemma {:induction false} EncodeDecode(s: seq<Byte>)
    requires Decode(s).Some?
    ensures Encode(Decode(s).value) == s
    decreases |s|
  {
    if |s| > 0 {
      var n := DecodeChar(s).value.1;
      DecodeCharSound(s);
      EncodeDecode(s[n..]);
      assert s == s[..n] + s[n..];
    }
  }

  /** Decode succeeds exactly on the byte strings the grammar of section 4
      of RFC 3629 derives. */
  lemma {:induction false} DecodeIffWellFormed(s: seq<Byte>)
    ensures Decode(s).Some? <==> WellFormed(s)
    decreases |s|
  {
    if |s| > 0 {
      if Decode(s).Some? {
        var n := DecodeChar(s).value.1;
        DecodeCharSound(s);
        DecodeIffWellFormed(s[n..]);
      } else if WellFormed(s) {
        var n :| 1 <= n <= 4 && n <= |s| && IsUtf8Char(s[..n]) && WellFormed(s[n..]);
        DecodeCharComplete(s, n);
        DecodeIffWellFormed(s[n..]);
      }
    }
  }

  /** Every encoded text is well-formed UTF-8. */
  lemma EncodeWellFormed(t: string)
    ensures WellFormed(Encode(t))
  {
    DecodeEncode(t);
    DecodeIffWellFormed(Encode(t));
  }

  /** ASCII text is stored as its own character codes, one byte each. */
  lemma {:induction false} EncodeAscii(t: string)
    requires forall i :: 0 <= i < |t| ==> t[i] as int < 0x80
    ensures |Encode(t)| == |t|
    ensures forall i :: 0 <= i < |t| ==> Encode(t)[i] == t[i] as int
    decreases |t|
  {
    if |t| > 0 {
      EncodeAscii(t[1..]);
      assert Encode(t) == [t[0] as int] + Encode(t[1..]);
    }
  }
}
