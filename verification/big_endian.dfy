/** Fixed-width unsigned big-endian byte layout, the format `byteorder`'s
    `BigEndian` writes and reads. */
module BigEndian {
  import opened Bytes

  /** 256 to the power n: the number of values that fit in n bytes. */
  function Pow256(n: nat): (r: nat)
    ensures r >= 1
  {
    if n == 0 then 1 else 256 * Pow256(n - 1)
  }

  // Small facts about multiplication the solver does not find on its own,
  // stated as implications so that callers need no case split.

  lemma MulNonneg(a: int, b: int)
    requires a >= 0 && b >= 0
    ensures a * b >= 0
  {
  }

  lemma MulMonotone(a: int, b: int, p: int)
    requires p >= 0
    ensures a <= b ==> a * p <= b * p
  {
    if a <= b {
      MulNonneg(b - a, p);
      assert b * p == a * p + (b - a) * p;
    }
  }

  /** Quotient and remainder are determined by any decomposition v = q * p + r with 0 <= r < p. */
  lemma DivModUnique(v: int, p: int, q: int, r: int)
    requires p > 0 && 0 <= r < p && v == q * p + r
    ensures v / p == q && v % p == r
  {
    var q' := v / p;
    var r' := v % p;
    assert v == q' * p + r';
    MulMonotone(q' + 1, q, p);
    MulMonotone(q + 1, q', p);
    assert (q' + 1) * p == q' * p + p;
    assert (q + 1) * p == q * p + p;
  }

  /** Digit bounds: a value below 256 * p has a leading base-p digit below 256. */
  lemma DigitBound(v: int, p: int)
    requires p >= 1 && 0 <= v < 256 * p
    ensures 0 <= v / p < 256 && 0 <= v % p < p
  {
    var q := v / p;
    assert v == q * p + v % p;
    MulMonotone(256, q, p);
    MulMonotone(q, -1, p);
  }

  /** Leading digit and remainder of a value below 256^width, in base 256^(width-1). */
  lemma LeadingDigit(v: nat, width: nat)
    requires width > 0 && v < Pow256(width)
    ensures 0 <= v / Pow256(width - 1) < 256
    ensures 0 <= v % Pow256(width - 1) < Pow256(width - 1)
  {
    DigitBound(v, Pow256(width - 1));
  }

  /** The `width`-byte big-endian layout of `v`, most significant byte first. */
  function ToBytes(v: nat, width: nat): (r: seq<Byte>)
    requires v < Pow256(width)
    ensures |r| == width
    decreases width
  {
    if width == 0 then []
    else
      LeadingDigit(v, width);
      var p := Pow256(width - 1);
      var digit: Byte := v / p;
      [digit] + ToBytes(v % p, width - 1)
  }

  /** The number a big-endian byte string denotes. */
  function FromBytes(s: seq<Byte>): (r: nat)
    ensures r < Pow256(|s|)
    decreases |s|
  {
    if |s| == 0 then 0
    else
      var p := Pow256(|s| - 1);
      var rest := FromBytes(s[1..]);
      MulMonotone(s[0], 255, p);
      MulNonneg(s[0], p);
      s[0] * p + rest
  }

  /** Reading back what was written gives the value. */
  lemma {:induction false} FromToBytes(v: nat, width: nat)
    requires v < Pow256(width)
    ensures FromBytes(ToBytes(v, width)) == v
    decreases width
  {
    if width > 0 {
      var p := Pow256(width - 1);
      var s := ToBytes(v, width);
      assert s[0] == v / p && s[1..] == ToBytes(v % p, width - 1);
      FromToBytes(v % p, width - 1);
    }
  }

  /** Writing what was read gives the bytes back: the layout is a bijection
      between [0, 256^width) and the byte strings of length width. */
  lemma {:induction false} ToFromBytes(s: seq<Byte>)
    ensures ToBytes(FromBytes(s), |s|) == s
    decreases |s|
  {
    if |s| > 0 {
      var p := Pow256(|s| - 1);
      var rest := FromBytes(s[1..]);
      DivModUnique(FromBytes(s), p, s[0], rest);
      ToFromBytes(s[1..]);
      assert s == [s[0]] + s[1..];
    }
  }

  /** Numeric order of two values is decided by their leading digits first,
      then by the remainders. */
  lemma DigitOrder(a: nat, b: nat, p: nat)
    requires p >= 1
    ensures a / p < b / p ==> a < b
    ensures a / p == b / p ==> (a < b <==> a % p < b % p)
  {
    assert a == (a / p) * p + a % p;
    assert b == (b / p) * p + b % p;
    MulMonotone(a / p + 1, b / p, p);
    assert (a / p + 1) * p == (a / p) * p + p;
  }

  /** Order preservation: for a fixed width, numeric order on values is exactly
      the byte-wise lexicographic order on their layouts. */
  lemma {:induction false} OrderPreserving(a: nat, b: nat, width: nat)
    requires a < Pow256(width) && b < Pow256(width)
    ensures a < b <==> LexLess(ToBytes(a, width), ToBytes(b, width))
    decreases width
  {
    if width > 0 {
      var p := Pow256(width - 1);
      LeadingDigit(a, width);
      LeadingDigit(b, width);
      var sa := ToBytes(a, width);
      var sb := ToBytes(b, width);
      assert sa[0] == a / p && sa[1..] == ToBytes(a % p, width - 1);
      assert sb[0] == b / p && sb[1..] == ToBytes(b % p, width - 1);
      OrderPreserving(a % p, b % p, width - 1);
      DigitOrder(a, b, p);
      DigitOrder(b, a, p);
    }
  }

  /** The leading byte of the layout is at least 0x80 exactly when the value
      lies in the upper half of the range (its top bit is set). */
  lemma TopBit(v: nat, width: nat)
    requires width > 0 && v < Pow256(width)
    ensures ToBytes(v, width)[0] >= 0x80 <==> v >= 0x80 * Pow256(width - 1)
  {
    var p := Pow256(width - 1);
    DigitOrder(0x80 * p, v, p);
    DigitOrder(v, 0x80 * p, p);
    DivModUnique(0x80 * p, p, 0x80, 0);
  }
}
