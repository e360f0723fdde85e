/** The `KeyEncoder` trait and its implementations: fixed-width big-endian
    (two's complement for signed types) for the six integer types, raw UTF-8
    bytes for `String`, and the free `encode_key` that allocates a buffer of
    exactly `key_len` bytes. */
module KeyEncode {
  import opened Bytes
  import opened Options
  import BigEndian
  import Utf8

  /** The six integer types the key encoder is instantiated for. */
  datatype IntType = U16 | I16 | U32 | I32 | U64 | I64 {

    /** The encoded width in bytes (the `$size` of each instantiation). */
    function Width(): nat {
      match this
      case U16 | I16 => 2
      case U32 | I32 => 4
      case U64 | I64 => 8
    }

    predicate Signed() {
      I16? || I32? || I64?
    }

    /** Number of bit patterns of the type: 2^(8 * width). */
    function Modulus(): nat {
      BigEndian.Pow256(Width())
    }

    /** 2^(8 * width - 1): the weight of the top bit. */
    function Half(): nat {
      0x80 * BigEndian.Pow256(Width() - 1)
    }

    /** The values the Rust type can hold. */
    predicate Contains(v: int) {
      if Signed() then -(Half() as int) <= v < Half() else 0 <= v < Modulus()
    }
  }

  /** Which `decode_key` to call: the one of an integer type or of `String`. */
  datatype KeyType = IntKey(intType: IntType) | StringKey

  /** A key value: an integer of one of the six types, or a `String`. */
  datatype Key = Int(t: IntType, v: int) | Str(text: string) {
    predicate Valid() {
      Int? ==> t.Contains(v)
    }

    function Type(): KeyType {
      match this
      case Int(t, _) => IntKey(t)
      case Str(_) => StringKey
    }
  }

  /** A key a Rust value can actually be: integers are within their type's range. */
  type KeyValue = k: Key | k.Valid() witness Str([])

  /** The `std::io::ErrorKind`s the encoder reports. */
  datatype ErrorKind = UnexpectedEof | InvalidData

  /** `std::io::Result`, with the error reduced to its kind. */
  datatype Result<+T> = Ok(value: T) | Err(kind: ErrorKind)

  lemma HalfOfModulus(t: IntType)
    ensures 2 * t.Half() == t.Modulus()
  {
  }

  /** The concrete ranges: 2^16, 2^32 and 2^64 bit patterns. */
  lemma ModulusValues(t: IntType)
    ensures t.Width() == 2 ==> t.Modulus() == 0x1_0000
    ensures t.Width() == 4 ==> t.Modulus() == 0x1_0000_0000
    ensures t.Width() == 8 ==> t.Modulus() == 0x1_0000_0000_0000_0000
  {
    assert BigEndian.Pow256(2) == 0x1_0000;
    assert BigEndian.Pow256(4) == 0x1_0000_0000;
    assert BigEndian.Pow256(8) == 0x1_0000_0000_0000_0000;
  }

  /** The bit pattern of `v` read as an unsigned number of the same width:
      `v` itself, or `v + 2^(8 * width)` for a negative value (two's complement). */
  function ToBits(t: IntType, v: int): (u: nat)
    requires t.Contains(v)
    ensures u < t.Modulus()
    ensures !t.Signed() ==> u == v
    ensures t.Signed() ==> (u >= t.Half() <==> v < 0)
  {
    if v < 0 then v + t.Modulus() else v
  }

  /** The value of type `t` whose bit pattern is `u`: inverse of ToBits. */
  function FromBits(t: IntType, u: nat): (v: int)
    requires u < t.Modulus()
    ensures t.Contains(v) && ToBits(t, v) == u
  {
    if t.Signed() && u >= t.Half() then u - t.Modulus() else u
  }

  /** FromBits undoes ToBits. */
  lemma FromToBits(t: IntType, v: int)
    requires t.Contains(v)
    ensures FromBits(t, ToBits(t, v)) == v
  {
  }

  /** The bytes a key is stored under: big-endian bit pattern for integers
      (`write_u16` ... `write_i64` with `BigEndian`), the string's UTF-8
      bytes for `String` (`as_bytes`). */
  function KeyBytes(k: KeyValue): (r: seq<Byte>)
    ensures k.Int? ==> |r| == k.t.Width() && BigEndian.FromBytes(r) == ToBits(k.t, k.v)
    ensures k.Str? ==> Utf8.Decode(r) == Some(k.text)
  {
    match k
    case Int(t, v) =>
      BigEndian.FromToBytes(ToBits(t, v), t.Width());
      BigEndian.ToBytes(ToBits(t, v), t.Width())
    case Str(text) =>
      Utf8.DecodeEncode(text);
      Utf8.Encode(text)
  }

  /** `key_len`: the type's width for integers, and `self.len()` for a
      `String`, which counts UTF-8 bytes and not characters. It is exactly
      the number of bytes the key is stored under. */
  function KeyLen(k: KeyValue): (n: nat)
    ensures n == |KeyBytes(k)|
    ensures k.Int? ==> n in {2, 4, 8}
    ensures k.Str? ==> |k.text| <= n <= 4 * |k.text|
  {
    match k
    case Int(t, _) => t.Width()
    case Str(text) => EncodedLengthBound(text); |Utf8.Encode(text)|
  }

  /** UTF-8 takes one to four bytes per character. */
  lemma {:induction false} EncodedLengthBound(text: string)
    ensures |text| <= |Utf8.Encode(text)| <= 4 * |text|
  {
    if |text| > 0 {
      EncodedLengthBound(text[1..]);
    }
  }

  /** Integer `decode_key`: needs at least the type's width in bytes
      (`UnexpectedEof` otherwise) and reads only the first width bytes; the
      decoded key is stored under exactly those bytes. */
  function DecodeInt(t: IntType, bytes: seq<Byte>): (r: Result<KeyValue>)
    ensures r.Err? <==> |bytes| < t.Width()
    ensures r.Err? ==> r.kind == UnexpectedEof
    ensures r.Ok? ==> r.value.Int? && r.value.t == t
    ensures r.Ok? ==> KeyBytes(r.value) == bytes[..t.Width()]
  {
    if |bytes| < t.Width() then Err(UnexpectedEof)
    else
      var prefix := bytes[..t.Width()];
      BigEndian.ToFromBytes(prefix);
      Ok(Int(t, FromBits(t, BigEndian.FromBytes(prefix))))
  }

  /** `String` `decode_key`: the whole slice, with no length check; fails
      with `InvalidData` exactly when the bytes are not well-formed UTF-8,
      and otherwise yields the string stored under exactly these bytes. */
  function DecodeString(bytes: seq<Byte>): (r: Result<KeyValue>)
    ensures r.Err? <==> !Utf8.WellFormed(bytes)
    ensures r.Err? ==> r.kind == InvalidData
    ensures r.Ok? ==> r.value.Str? && KeyBytes(r.value) == bytes
  {
    Utf8.DecodeIffWellFormed(bytes);
    match Utf8.Decode(bytes)
    case None => Err(InvalidData)
    case Some(text) =>
      Utf8.EncodeDecode(bytes);
      Ok(Str(text))
  }

  /** `decode_key` of the type named by `kt`: integers need their width and
      read a prefix, strings need well-formed UTF-8 and read everything; a
      decoded key has the requested type and is stored under a prefix of the
      input. */
  function DecodeKey(kt: KeyType, bytes: seq<Byte>): (r: Result<KeyValue>)
    ensures kt.IntKey? ==> (r.Ok? <==> |bytes| >= kt.intType.Width())
    ensures kt.StringKey? ==> (r.Ok? <==> Utf8.WellFormed(bytes))
    ensures r.Err? ==> (r.kind == UnexpectedEof <==> kt.IntKey?)
    ensures r.Ok? ==> r.value.Type() == kt
    ensures r.Ok? ==> |KeyBytes(r.value)| <= |bytes| && KeyBytes(r.value) == bytes[..|KeyBytes(r.value)|]
  {
    match kt
    case IntKey(t) => DecodeInt(t, bytes)
    case StringKey => DecodeString(bytes)
  }

  /** Integer `encode_key` on a buffer, as a function of the buffer's
      contents: fails with `UnexpectedEof` exactly when the buffer is shorter
      than the type's width; otherwise reports the width as written and
      leaves every byte past it as it was, and the whole buffer now decodes
      to the value. */
  function IntEncodeInto(t: IntType, v: int, buf: seq<Byte>): (r: Result<(nat, seq<Byte>)>)
    requires t.Contains(v)
    ensures r.Err? <==> |buf| < t.Width()
    ensures r.Err? ==> r.kind == UnexpectedEof
    ensures r.Ok? ==> r.value.0 == t.Width() && |r.value.1| == |buf|
    ensures r.Ok? ==> r.value.1[t.Width()..] == buf[t.Width()..]
    ensures r.Ok? ==> DecodeInt(t, r.value.1) == Ok(Int(t, v))
  {
    var n := t.Width();
    if |buf| < n then Err(UnexpectedEof)
    else
      var out := KeyBytes(Int(t, v)) + buf[n..];
      IntRoundTripWithTrailing(Int(t, v), buf[n..]);
      Ok((n, out))
  }

  /** `String` `encode_key` on a buffer: fails with `UnexpectedEof` exactly
      when the buffer is shorter than the UTF-8 byte length; otherwise copies
      the bytes verbatim to the front, with no length prefix or terminator,
      reports that byte length, and leaves the rest of the buffer alone. */
  function StringEncodeInto(text: string, buf: seq<Byte>): (r: Result<(nat, seq<Byte>)>)
    ensures r.Err? <==> |buf| < |Utf8.Encode(text)|
    ensures r.Err? ==> r.kind == UnexpectedEof
    ensures r.Ok? ==> r.value.0 == |Utf8.Encode(text)| && |r.value.1| == |buf|
    ensures r.Ok? ==> r.value.1[..r.value.0] == Utf8.Encode(text)
    ensures r.Ok? ==> r.value.1[r.value.0..] == buf[r.value.0..]
  {
    var bytes := Utf8.Encode(text);
    if |buf| < |bytes| then Err(UnexpectedEof)
    else
      var out := bytes + buf[|bytes|..];
      assert out[..|bytes|] == bytes;
      Ok((|bytes|, out))
  }

  /** What `String` `encode_key` writes decodes back to the text. */
  lemma StringEncodeIntoDecodes(text: string, buf: seq<Byte>)
    requires |Utf8.Encode(text)| <= |buf|
    ensures var r := StringEncodeInto(text, buf);
      r.Ok? && DecodeString(r.value.1[..r.value.0]) == Ok(Str(text))
  {
    RoundTrip(Str(text));
  }

  /** `Cursor::write_all` from position 0: copies `data` to the front of
      `buf` and leaves every later byte alone. */
  method WriteAll(buf: array<Byte>, data: seq<Byte>)
    requires |data| <= buf.Length
    modifies buf
    ensures buf[..|data|] == data
    ensures buf[|data|..] == old(buf[|data|..])
  {
    var i := 0;
    while i < |data|
      invariant 0 <= i <= |data|
      invariant buf[..i] == data[..i]
      invariant buf[i..] == old(buf[i..])
    {
      buf[i] := data[i];
      i := i + 1;
    }
  }

  /** `encode_key(&self, bytes: &mut [u8])`: the length check, then the
      write into the caller's buffer; on failure the buffer is untouched. */
  method EncodeKeyInto(k: KeyValue, buf: array<Byte>) returns (r: Result<nat>)
    modifies buf
    ensures r.Err? <==> buf.Length < KeyLen(k)
    ensures r.Err? ==> r.kind == UnexpectedEof && buf[..] == old(buf[..])
    ensures r.Ok? ==> r.value == KeyLen(k) && buf[..r.value] == KeyBytes(k)
    ensures r.Ok? ==> buf[r.value..] == old(buf[r.value..])
    ensures r.Ok? ==> DecodeKey(k.Type(), buf[..r.value]) == Ok(k)
  {
    var n := KeyLen(k);
    if buf.Length < n {
      return Err(UnexpectedEof);
    }
    WriteAll(buf, KeyBytes(k));
    RoundTrip(k);
    return Ok(n);
  }

  /** The free `encode_key`: allocates exactly `key_len` zero bytes and
      encodes into them. The internal `unwrap` cannot fail, because the
      buffer is exactly as long as the length check demands. */
  method EncodeKey(k: KeyValue) returns (data: seq<Byte>)
    ensures |data| == KeyLen(k)
    ensures DecodeKey(k.Type(), data) == Ok(k)
  {
    var buf := new Byte[KeyLen(k)](_ => 0);
    var r := EncodeKeyInto(k, buf);
    assert r.Ok?;
    data := buf[..];
    assert data[..r.value] == data;
  }

  /** Round trip: every key decodes from its own bytes. */
  lemma RoundTrip(k: KeyValue)
    ensures DecodeKey(k.Type(), KeyBytes(k)) == Ok(k)
  {
    match k
    case Int(t, v) =>
      BigEndian.FromToBytes(ToBits(t, v), t.Width());
      assert KeyBytes(k)[..t.Width()] == KeyBytes(k);
      FromToBits(t, v);
    case Str(text) =>
      Utf8.DecodeEncode(text);
  }

  /** Integer decoding ignores whatever follows the key's width. */
  lemma IntDecodeIgnoresTrailing(t: IntType, bytes: seq<Byte>)
    requires |bytes| >= t.Width()
    ensures DecodeKey(IntKey(t), bytes) == DecodeKey(IntKey(t), bytes[..t.Width()])
  {
    assert bytes[..t.Width()][..t.Width()] == bytes[..t.Width()];
  }

  /** An integer key decodes from the front of any longer buffer. */
  lemma IntRoundTripWithTrailing(k: KeyValue, rest: seq<Byte>)
    requires k.Int?
    ensures DecodeKey(k.Type(), KeyBytes(k) + rest) == Ok(k)
  {
    var t := k.t;
    IntDecodeIgnoresTrailing(t, KeyBytes(k) + rest);
    assert (KeyBytes(k) + rest)[..t.Width()] == KeyBytes(k);
    RoundTrip(k);
  }

  /** A string key decodes only from the whole slice: bytes after the
      encoding become part of the decoded text. */
  lemma StringDecodeTakesWholeSlice(k: KeyValue, rest: seq<Byte>, tail: string)
    requires k.Str? && Utf8.Decode(rest) == Some(tail)
    ensures DecodeKey(StringKey, KeyBytes(k) + rest) == Ok(Str(k.text + tail))
  {
    Utf8.EncodeDecode(rest);
    EncodeAppend(k.text, tail);
    RoundTrip(Str(k.text + tail));
  }

  /** UTF-8 encoding distributes over concatenation. */
  lemma {:induction false} EncodeAppend(a: string, b: string)
    ensures Utf8.Encode(a + b) == Utf8.Encode(a) + Utf8.Encode(b)
    decreases |a|
  {
    if |a| > 0 {
      assert (a + b)[0] == a[0] && (a + b)[1..] == a[1..] + b;
      EncodeAppend(a[1..], b);
    } else {
      assert a + b == b;
    }
  }

  /** Unsigned types: numeric order is exactly the byte-wise order of the keys. */
  lemma UnsignedOrder(t: IntType, a: int, b: int)
    requires !t.Signed() && t.Contains(a) && t.Contains(b)
    ensures a < b <==> LexLess(KeyBytes(Int(t, a)), KeyBytes(Int(t, b)))
  {
    BigEndian.OrderPreserving(ToBits(t, a), ToBits(t, b), t.Width());
  }

  /** Signed types: a negative value has the top bit of its first byte set,
      a non-negative one does not. */
  lemma SignedTopBit(t: IntType, v: int)
    requires t.Signed() && t.Contains(v)
    ensures v < 0 <==> KeyBytes(Int(t, v))[0] >= 0x80
  {
    BigEndian.TopBit(ToBits(t, v), t.Width());
  }

  /** Signed types: values of the same sign sort numerically, and every
      negative value sorts after every non-negative one. */
  lemma SignedOrder(t: IntType, a: int, b: int)
    requires t.Signed() && t.Contains(a) && t.Contains(b)
    ensures LexLess(KeyBytes(Int(t, a)), KeyBytes(Int(t, b))) <==>
      (0 <= a && b < 0) || ((a < 0 <==> b < 0) && a < b)
  {
    HalfOfModulus(t);
    BigEndian.OrderPreserving(ToBits(t, a), ToBits(t, b), t.Width());
  }

  /** 256^n for the widths in use. */
  lemma Pow256Values()
    ensures BigEndian.Pow256(1) == 0x100 && BigEndian.Pow256(3) == 0x100_0000
    ensures BigEndian.Pow256(7) == 0x100_0000_0000_0000
  {
    assert BigEndian.Pow256(1) == 0x100;
    assert BigEndian.Pow256(2) == 0x1_0000;
    assert BigEndian.Pow256(3) == 0x100_0000;
    assert BigEndian.Pow256(4) == 0x1_0000_0000;
    assert BigEndian.Pow256(5) == 0x100_0000_0000;
    assert BigEndian.Pow256(6) == 0x1_0000_0000_0000;
  }

  /** An eight-byte big-endian string is the layout of the number it reads as. */
  lemma ReadsAs(s: seq<Byte>, v: nat)
    requires |s| == 8
    requires v == (((((((s[0] as int) * 0x100 + s[1]) * 0x100 + s[2]) * 0x100 + s[3]) * 0x100 + s[4]) * 0x100 + s[5]) * 0x100 + s[6]) * 0x100 + s[7]
    ensures v < BigEndian.Pow256(8) && BigEndian.ToBytes(v, 8) == s
  {
    Pow256Values();
    assert BigEndian.FromBytes(s) == v by {
      var f7 := BigEndian.FromBytes(s[7..]);
      assert f7 == s[7];
      assert BigEndian.FromBytes(s[6..]) == (s[6] as int) * 0x100 + s[7] by { assert s[6..][1..] == s[7..]; }
      assert BigEndian.FromBytes(s[5..]) == (s[5] as int) * 0x1_0000 + (s[6] as int) * 0x100 + s[7] by { assert s[5..][1..] == s[6..]; }
      assert BigEndian.FromBytes(s[4..]) == (s[4] as int) * 0x100_0000 + (s[5] as int) * 0x1_0000 + (s[6] as int) * 0x100 + s[7] by { assert s[4..][1..] == s[5..]; }
      assert BigEndian.FromBytes(s[3..]) == (s[3] as int) * 0x1_0000_0000 + (s[4] as int) * 0x100_0000 + (s[5] as int) * 0x1_0000 + (s[6] as int) * 0x100 + s[7] by { assert s[3..][1..] == s[4..]; }
      assert BigEndian.FromBytes(s[2..]) == (s[2] as int) * 0x100_0000_0000 + (s[3] as int) * 0x1_0000_0000 + (s[4] as int) * 0x100_0000 + (s[5] as int) * 0x1_0000 + (s[6] as int) * 0x100 + s[7] by { assert s[2..][1..] == s[3..]; }
      assert BigEndian.FromBytes(s[1..]) == (s[1] as int) * 0x1_0000_0000_0000 + (s[2] as int) * 0x100_0000_0000 + (s[3] as int) * 0x1_0000_0000 + (s[4] as int) * 0x100_0000 + (s[5] as int) * 0x1_0000 + (s[6] as int) * 0x100 + s[7] by { assert s[1..][1..] == s[2..]; }
    }
    BigEndian.ToFromBytes(s);
  }

  /** Test vector: `0x0123456789abcdef` as `u64`. */
  lemma VectorU64()
    ensures KeyBytes(Int(U64, 0x0123_4567_89ab_cdef)) == [0x01, 0x23, 0x45, 0x67, 0x89, 0xab, 0xcd, 0xef]
  {
    var s: seq<Byte> := [0x01, 0x23, 0x45, 0x67, 0x89, 0xab, 0xcd, 0xef];
    ReadsAs(s, 0x0123_4567_89ab_cdef);
  }

  /** Test vector: `-2` as `i64`. */
  lemma VectorI64()
    ensures KeyBytes(Int(I64, -2)) == [0xff, 0xff, 0xff, 0xff, 0xff, 0xff, 0xff, 0xfe]
  {
    var s: seq<Byte> := [0xff, 0xff, 0xff, 0xff, 0xff, 0xff, 0xff, 0xfe];
    ModulusValues(I64);
    ReadsAs(s, 0xffff_ffff_ffff_fffe);
  }

  /** Test vector: `0x01234567` as `u32`. */
  lemma VectorU32()
    ensures KeyBytes(Int(U32, 0x0123_4567)) == [0x01, 0x23, 0x45, 0x67]
  {
    Pow256Values();
  }

  /** Test vector: `-2` as `i32`. */
  lemma VectorI32()
    ensures KeyBytes(Int(I32, -2)) == [0xff, 0xff, 0xff, 0xfe]
  {
    Pow256Values();
    ModulusValues(I32);
  }

  /** Test vector: `0x0123` as `u16`. */
  lemma VectorU16()
    ensures KeyBytes(Int(U16, 0x0123)) == [0x01, 0x23]
  {
    Pow256Values();
  }

  /** Test vector: `-2` as `i16`. */
  lemma VectorI16()
    ensures KeyBytes(Int(I16, -2)) == [0xff, 0xfe]
  {
    Pow256Values();
    ModulusValues(I16);
  }

  /** Test vector: the derived `key_value` of a record whose `u64` key is 1. */
  lemma VectorKeyValueOne()
    ensures KeyBytes(Int(U64, 1)) == [0, 0, 0, 0, 0, 0, 0, 1]
  {
    var s: seq<Byte> := [0, 0, 0, 0, 0, 0, 0, 1];
    ReadsAs(s, 1);
  }

  /** The character codes of "hello world". */
  lemma HelloWorldCodes()
    ensures |"hello world"| == 11
    ensures forall i :: 0 <= i < 11 ==>
      "hello world"[i] as int == [0x68, 0x65, 0x6c, 0x6c, 0x6f, 0x20, 0x77, 0x6f, 0x72, 0x6c, 0x64][i]
  {
  }

  /** Test vector: an ASCII string is stored as its own bytes. */
  lemma VectorHelloWorld()
    ensures KeyBytes(Str("hello world")) == [0x68, 0x65, 0x6c, 0x6c, 0x6f, 0x20, 0x77, 0x6f, 0x72, 0x6c, 0x64]
  {
    HelloWorldCodes();
    Utf8.EncodeAscii("hello world");
  }
}
