/**
 * Go's 64-bit integers as the client and the command-line tool use them:
 * two's-complement wrap-around, the big-endian 8-byte counter encoding of
 * read-modify-write increments, and `strconv.ParseInt(s, 0, 64)`.
 */
module Numbers {
  import opened Wrappers
  import opened Text

  const TwoTo63: int := 0x8000_0000_0000_0000
  const TwoTo64: int := 0x1_0000_0000_0000_0000

  /** Go's `int64`. */
  type Int64 = x: int | -TwoTo63 <= x < TwoTo63

  /** The `int64` that Go's wrapping arithmetic yields for the exact value `x`. */
  function Wrap64(x: int): (r: Int64)
    ensures -TwoTo63 <= x < TwoTo63 ==> r == x
  {
    (x + TwoTo63) % TwoTo64 - TwoTo63
  }

  // ---------------------------------------------------------------------
  // Big-endian encoding (encoding/binary.BigEndian).
  // ---------------------------------------------------------------------

  /** The unsigned big-endian value of `b`. */
  function DecodeBigEndian(b: Bytes): nat
  {
    if |b| == 0 then 0 else DecodeBigEndian(b[..|b| - 1]) * 256 + b[|b| - 1] as int
  }

  function Pow256(n: nat): (p: nat)
    ensures p >= 1
  {
    if n == 0 then 1 else 256 * Pow256(n - 1)
  }

  /** `width` bytes holding `n` big-endian. */
  function EncodeBigEndian(n: nat, width: nat): (b: Bytes)
    requires n < Pow256(width)
    ensures |b| == width
    ensures DecodeBigEndian(b) == n
  {
    if width == 0 then []
    else
      var b := EncodeBigEndian(n / 256, width - 1) + [(n % 256) as char];
      assert b[..|b| - 1] == EncodeBigEndian(n / 256, width - 1);
      b
  }

  lemma {:induction false} DecodeBigEndianBound(b: Bytes)
    ensures DecodeBigEndian(b) < Pow256(|b|)
  {
    if |b| > 0 {
      DecodeBigEndianBound(b[..|b| - 1]);
    }
  }

  /** Decoding then encoding at the same width gives back the bytes. */
  lemma {:induction false} EncodeDecodeBigEndian(b: Bytes)
    ensures DecodeBigEndian(b) < Pow256(|b|)
    ensures EncodeBigEndian(DecodeBigEndian(b), |b|) == b
  {
    DecodeBigEndianBound(b);
    if |b| > 0 {
      var init := b[..|b| - 1];
      EncodeDecodeBigEndian(init);
      var n := DecodeBigEndian(b);
      assert n / 256 == DecodeBigEndian(init);
      assert ((n % 256) as char) == b[|b| - 1];
      assert b == init + [b[|b| - 1]];
    }
  }

  /** The 8 bytes of a signed 64-bit counter (two's complement, big-endian). */
  function EncodeInt64(x: Int64): (b: Bytes)
    ensures |b| == 8
  {
    assert Pow256(8) == TwoTo64;
    EncodeBigEndian(if x < 0 then x + TwoTo64 else x, 8)
  }

  /** The signed value of an 8-byte big-endian counter. */
  function DecodeInt64(b: Bytes): Int64
    requires |b| == 8
  {
    DecodeBigEndianBound(b);
    assert Pow256(8) == TwoTo64;
    var u := DecodeBigEndian(b);
    if u >= TwoTo63 then u - TwoTo64 else u
  }

  /** The counter encoding loses nothing: decoding recovers the value. */
  lemma Int64RoundTrip(x: Int64)
    ensures DecodeInt64(EncodeInt64(x)) == x
  {
    assert Pow256(8) == TwoTo64;
  }

  /** ... and every 8-byte value is the encoding of its decoding. */
  lemma Int64BytesRoundTrip(b: Bytes)
    requires |b| == 8
    ensures EncodeInt64(DecodeInt64(b)) == b
  {
    EncodeDecodeBigEndian(b);
    assert Pow256(8) == TwoTo64;
  }

  // ---------------------------------------------------------------------
  // strconv.ParseInt(s, 0, 64) and decimal formatting.
  // ---------------------------------------------------------------------

  /** The value of an ASCII digit or letter, as strconv reads digits. */
  function DigitValue(c: Byte): Option<nat>
  {
    if '0' <= c <= '9' then Some(c as int - '0' as int)
    else if 'a' <= c <= 'z' then Some(c as int - 'a' as int + 10)
    else if 'A' <= c <= 'Z' then Some(c as int - 'A' as int + 10)
    else None
  }

  /** The value of the digit string `s` in `base`, or `None` if a byte is not a digit of that base. */
  function ValueInBase(s: Bytes, base: nat): Option<nat>
  {
    if |s| == 0 then Some(0)
    else match ValueInBase(s[..|s| - 1], base)
      case None => None
      case Some(v) =>
        match DigitValue(s[|s| - 1])
        case None => None
        case Some(d) =>
          if d < base then
            assert v * base >= 0;
            Some(v * base + d)
          else None
  }

  /**
   * The unsigned part of `strconv.ParseUint(s, 0, 64)`: "0x"/"0X" selects
   * hexadecimal (and needs a digit after it), any other leading "0" selects
   * octal, and anything else is decimal. The range check is `ParseInt64`'s.
   */
  function ParseUnsigned(s: Bytes): Option<nat>
  {
    if |s| == 0 then None
    else if s[0] == '0' && |s| > 1 && (s[1] == 'x' || s[1] == 'X') then
      if |s| < 3 then None else ValueInBase(s[2..], 16)
    else if s[0] == '0' then ValueInBase(s[1..], 8)
    else ValueInBase(s, 10)
  }

  /**
   * `strconv.ParseInt(s, 0, 64)` with its error folded into `None`: an
   * optional sign, then `ParseUnsigned`, then the int64 range check.
   */
  function ParseInt64(s: Bytes): (r: Option<Int64>)
    ensures r.Some? ==> |s| > 0
  {
    if |s| == 0 then None
    else
      var neg := s[0] == '-';
      var body := if s[0] == '+' || s[0] == '-' then s[1..] else s;
      match ParseUnsigned(body)
      case None => None
      case Some(u) =>
        if !neg && u >= TwoTo63 then None
        else if neg && u > TwoTo63 then None
        else Some(if neg then -(u as int) else u as int)
  }

  function DigitChar(d: nat): (c: Byte)
    requires d < 10
    ensures DigitValue(c) == Some(d)
  {
    ('0' as int + d) as char
  }

  /** The decimal digits of `n`, without leading zeros. */
  function NatDigits(n: nat): (s: Bytes)
    ensures |s| > 0
    ensures n > 0 ==> s[0] != '0'
    ensures forall i :: 0 <= i < |s| ==> '0' <= s[i] <= '9'
  {
    if n < 10 then [DigitChar(n)] else NatDigits(n / 10) + [DigitChar(n % 10)]
  }

  /** `strconv.FormatInt(x, 10)`. */
  function FormatInt(x: int): Bytes
  {
    if x < 0 then "-" + NatDigits(-x) else NatDigits(x)
  }

  lemma {:induction false} NatDigitsValue(n: nat)
    ensures ValueInBase(NatDigits(n), 10) == Some(n)
  {
    if n >= 10 {
      NatDigitsValue(n / 10);
      var s := NatDigits(n);
      assert s[..|s| - 1] == NatDigits(n / 10);
    } else {
      var s := NatDigits(n);
      assert s[..0] == [];
    }
  }

  /** `ParseUnsigned` reads a formatted natural number back. */
  lemma ParseUnsignedDigits(n: nat)
    ensures ParseUnsigned(NatDigits(n)) == Some(n)
  {
    var s := NatDigits(n);
    NatDigitsValue(n);
    if n == 0 {
      assert s == "0";
      assert s[1..] == [];
    } else {
      assert s[0] != '0';
    }
  }

  /** Parsing reads back every int64 that `FormatInt` writes. */
  lemma ParseFormatInt(x: Int64)
    ensures ParseInt64(FormatInt(x)) == Some(x)
  {
    var m: nat := if x < 0 then -(x as int) else x as int;
    ParseUnsignedDigits(m);
    var s := FormatInt(x);
    if x < 0 {
      assert s[0] == '-' && s[1..] == NatDigits(m);
    } else {
      assert s == NatDigits(m);
      assert s[0] != '-' && s[0] != '+';
    }
  }

  /** ... and rejects every formatted value outside the int64 range. */
  lemma ParseFormatOutOfRange(x: int)
    requires x < -TwoTo63 || TwoTo63 <= x
    ensures ParseInt64(FormatInt(x)) == None
  {
    var m: nat := if x < 0 then -x else x;
    ParseUnsignedDigits(m);
    var s := FormatInt(x);
    if x < 0 {
      assert s[0] == '-' && s[1..] == NatDigits(m);
    } else {
      assert s == NatDigits(m);
      assert s[0] != '-' && s[0] != '+';
    }
  }

  /** The base prefixes of `strconv.ParseInt(s, 0, 64)`. */
  lemma ParseInt64Cases()
    ensures ParseInt64("") == None
    ensures ParseInt64("17") == Some(17)
    ensures ParseInt64("0x11") == Some(17)
    ensures ParseInt64("-0x11") == Some(-17)
    ensures ParseInt64("021") == Some(17)
    ensures ParseInt64("08") == None
    ensures ParseInt64("0x") == None
    ensures ParseInt64("+") == None
    ensures ParseInt64("12z") == None
  {
    var one: Bytes := "1";
    assert ValueInBase(one, 10) == Some(1) by { assert one[..0] == []; }
    assert ValueInBase(one, 16) == Some(1) by { assert one[..0] == []; }
    var two: Bytes := "2";
    assert ValueInBase(two, 8) == Some(2) by { assert two[..0] == []; }
    var s: Bytes := "17";
    assert s[..1] == one;
    assert ValueInBase(s, 10) == Some(17);
    var h: Bytes := "-0x11";
    assert h[1..][2..] == "11";
    var x: Bytes := "0x11";
    assert x[2..] == "11";
    var hh: Bytes := "11";
    assert hh[..1] == one;
    var o: Bytes := "021";
    assert o[1..] == "21";
    var oo: Bytes := "21";
    assert oo[..1] == two;
    var e: Bytes := "08";
    assert e[1..] == "8";
    var t: Bytes := "12z";
    assert t[..2] == "12";
    assert ValueInBase(t, 10) == None;
  }
}
