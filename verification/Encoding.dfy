/** Text and number encodings at the level of bytes: ASCII, little-endian u32, decimal, hex. */
module Encoding {
  import opened Basics

  predicate IsAscii(s: string) {
    forall i :: 0 <= i < |s| ==> s[i] as int < 128
  }

  /** The bytes of an ASCII literal. */
  function Ascii(s: string): (b: Bytes)
    requires IsAscii(s)
    ensures |b| == |s| && forall i :: 0 <= i < |s| ==> b[i] == s[i] as int
  {
    seq(|s|, i requires 0 <= i < |s| => s[i] as int as Byte)
  }

  // ---------------------------------------------------------------- little-endian numbers

  function Pow256(k: nat): (p: nat)
    ensures p > 0
  {
    if k == 0 then 1 else 0x100 * Pow256(k - 1)
  }

  function LeBytes(n: nat, count: nat): (b: Bytes)
    ensures |b| == count
  {
    if count == 0 then [] else [n % 0x100] + LeBytes(n / 0x100, count - 1)
  }

  function FromLe(b: Bytes): (n: nat)
    ensures n < Pow256(|b|)
  {
    if b == [] then 0 else b[0] as int + 0x100 * FromLe(b[1..])
  }

  lemma {:induction false} LeRoundTrip(n: nat, count: nat)
    requires n < Pow256(count)
    ensures FromLe(LeBytes(n, count)) == n
  {
    if count > 0 {
      LeRoundTrip(n / 0x100, count - 1);
      assert LeBytes(n, count)[1..] == LeBytes(n / 0x100, count - 1);
    }
  }

  lemma {:induction false} LeOfBytes(b: Bytes)
    ensures LeBytes(FromLe(b), |b|) == b
  {
    if b != [] {
      LeOfBytes(b[1..]);
      assert FromLe(b) % 0x100 == b[0] as int && FromLe(b) / 0x100 == FromLe(b[1..]);
      assert LeBytes(FromLe(b), |b|) == [b[0]] + LeBytes(FromLe(b[1..]), |b| - 1);
      assert b == [b[0]] + b[1..];
    }
  }

  function Le32(n: nat): Bytes {
    LeBytes(n, 4)
  }

  function FromLe32(b: Bytes): (n: nat)
    requires |b| == 4
    ensures n < U32_LIMIT
  {
    assert Pow256(4) == U32_LIMIT;
    FromLe(b)
  }

  lemma Le32RoundTrip(n: nat)
    requires n < U32_LIMIT
    ensures FromLe32(Le32(n)) == n
  {
    assert Pow256(4) == U32_LIMIT;
    LeRoundTrip(n, 4);
  }

  // ---------------------------------------------------------------- decimal

  const DIGIT_0: Byte := 48
  const PLUS: Byte := 43

  predicate IsDigit(c: Byte) {
    DIGIT_0 <= c < DIGIT_0 + 10
  }

  predicate AllDigits(s: Bytes) {
    forall i :: 0 <= i < |s| ==> IsDigit(s[i])
  }

  /** Decimal text without leading zeros. */
  function Decimal(n: nat): (s: Bytes)
    ensures |s| > 0 && AllDigits(s)
  {
    if n < 10 then [DIGIT_0 + n] else Decimal(n / 10) + [DIGIT_0 + n % 10]
  }

  /** The number written by a run of digits. */
  function DigitsValue(s: Bytes): nat
    requires AllDigits(s)
  {
    if s == [] then 0 else 10 * DigitsValue(s[..|s| - 1]) + (s[|s| - 1] - DIGIT_0)
  }

  lemma {:induction false} DecimalValue(n: nat)
    ensures DigitsValue(Decimal(n)) == n
  {
    if n >= 10 {
      DecimalValue(n / 10);
      assert Decimal(n)[..|Decimal(n)| - 1] == Decimal(n / 10);
    }
  }

  /** Rust's parse for u32: one optional plus sign, then at least one digit, within 32 bits. */
  function ParseU32(s: Bytes): Option<nat> {
    var digits := if |s| > 0 && s[0] == PLUS then s[1..] else s;
    if digits == [] || !AllDigits(digits) || DigitsValue(digits) >= U32_LIMIT then None
    else Some(DigitsValue(digits))
  }

  /** What is printed parses back exactly when it fits 32 bits. */
  lemma {:induction false} ParsePrinted(n: nat)
    ensures ParseU32(Decimal(n)) == if n < U32_LIMIT then Some(n) else None
  {
    DecimalValue(n);
    assert IsDigit(Decimal(n)[0]);
  }

  /** A leading plus sign is passed over, once. */
  lemma {:induction false} ParsePlus(n: nat)
    ensures ParseU32(Ascii("+") + Decimal(n)) == ParseU32(Decimal(n)) && ParseU32(Ascii("++") + Decimal(n)).None?
  {
    assert (Ascii("+") + Decimal(n))[1..] == Decimal(n);
    assert !IsDigit((Ascii("++") + Decimal(n))[1..][0]);
    assert IsDigit(Decimal(n)[0]);
  }

  // ---------------------------------------------------------------- hex

  type Nibble = n: int | 0 <= n < 16

  function HexDigit(n: Nibble): Byte {
    if n < 10 then 48 + n else 87 + n
  }

  function HexValue(c: Byte): Option<Nibble> {
    if 48 <= c < 58 then Some(c - 48)
    else if 97 <= c < 103 then Some(c - 87)
    else if 65 <= c < 71 then Some(c - 55)
    else None
  }

  function HexEncode(b: Bytes): Bytes {
    if b == [] then [] else [HexDigit(b[0] / 16), HexDigit(b[0] % 16)] + HexEncode(b[1..])
  }

  const HEX_DIGITS: Bytes := Ascii("0123456789abcdef")

  lemma {:induction false} HexText(b: Bytes, i: nat)
    requires i < |b|
    ensures |HexEncode(b)| == 2 * |b|
    ensures HexEncode(b)[2 * i] == HEX_DIGITS[b[i] / 16] && HexEncode(b)[2 * i + 1] == HEX_DIGITS[b[i] % 16]
  {
    HexLength(b);
    if i > 0 {
      HexText(b[1..], i - 1);
      assert HexEncode(b)[2..] == HexEncode(b[1..]);
      assert HexEncode(b)[2 * i] == HexEncode(b)[2..][2 * i - 2];
      assert HexEncode(b)[2 * i + 1] == HexEncode(b)[2..][2 * i - 1];
    } else {
      DigitText(b[0] / 16);
      DigitText(b[0] % 16);
    }
  }

  lemma {:induction false} HexLength(b: Bytes)
    ensures |HexEncode(b)| == 2 * |b|
  {
    if b != [] {
      HexLength(b[1..]);
    }
  }

  lemma {:induction false} DigitText(n: Nibble)
    ensures HexDigit(n) == HEX_DIGITS[n]
  {
  }

  /** The characters that are read as hex digits, in either case. */
  lemma {:induction false} HexValueIff(c: Byte, n: Nibble)
    ensures HexValue(c) == Some(n) <==> c == Ascii("0123456789abcdef")[n] || c == Ascii("0123456789ABCDEF")[n]
  {
  }

  function FromBytes(a: int, b: int, c: int, d: int): int {
    a + 0x100 * b + 0x1_0000 * c + 0x100_0000 * d
  }

  /** Four bytes, the lowest first. */
  lemma {:induction false} Le32Bytes(n: nat)
    requires n < U32_LIMIT
    ensures |Le32(n)| == 4 && FromBytes(Le32(n)[0], Le32(n)[1], Le32(n)[2], Le32(n)[3]) == n
  {
    Le32RoundTrip(n);
    var b := Le32(n);
    assert b == [b[0]] + [b[1]] + [b[2]] + [b[3]];
    assert b[1..][1..] == b[2..] && b[2..][1..] == b[3..] && b[3..][1..] == [];
    assert FromLe(b[3..]) == b[3] as int;
    assert FromLe(b[2..]) == b[2] as int + 0x100 * FromLe(b[3..]);
    assert FromLe(b[1..]) == b[1] as int + 0x100 * FromLe(b[2..]);
  }

  /** Pairs of hex digits of either case; anything else, or an odd length, is an error. */
  function HexDecode(s: Bytes): Option<Bytes> {
    if s == [] then Some([])
    else if |s| == 1 || HexValue(s[0]).None? || HexValue(s[1]).None? || HexDecode(s[2..]).None? then None
    else Some([16 * HexValue(s[0]).value as int + HexValue(s[1]).value as int] + HexDecode(s[2..]).value)
  }

  lemma {:induction false} HexRoundTrip(b: Bytes)
    ensures HexDecode(HexEncode(b)) == Some(b)
  {
    if b != [] {
      HexRoundTrip(b[1..]);
      assert HexEncode(b)[0] == HexDigit(b[0] / 16) && HexEncode(b)[1] == HexDigit(b[0] % 16);
      assert [b[0]] + b[1..] == b;
      assert HexEncode(b)[2..] == HexEncode(b[1..]);
    }
  }

  // ---------------------------------------------------------------- byte order and big-endian numbers

  /** Byte-wise lexicographic order, strict. */
  predicate Before(a: Bytes, b: Bytes) {
    if b == [] then false
    else if a == [] then true
    else if a[0] != b[0] then a[0] < b[0]
    else Before(a[1..], b[1..])
  }

  lemma {:induction false} NotBeforeItself(a: Bytes)
    ensures !Before(a, a)
  {
    if a != [] {
      NotBeforeItself(a[1..]);
    }
  }

  function FromBe(b: Bytes): (n: nat)
    ensures n < Pow256(|b|)
  {
    if b == [] then 0 else 0x100 * FromBe(b[..|b| - 1]) + b[|b| - 1] as int
  }

  /** The last byte decides only between buffers that agree up to it. */
  lemma {:induction false} BeforeByLast(a: Bytes, b: Bytes)
    requires |a| == |b| > 0
    ensures var n := |a| - 1;
            Before(a, b) <==> Before(a[..n], b[..n]) || (a[..n] == b[..n] && a[n] < b[n])
  {
    var n := |a| - 1;
    if n > 0 {
      BeforeByLast(a[1..], b[1..]);
      assert a[..n] == [a[0]] + a[1..][..n - 1] && b[..n] == [b[0]] + b[1..][..n - 1];
      assert a[..n][1..] == a[1..][..n - 1] && b[..n][1..] == b[1..][..n - 1];
    }
  }

  /** Between equally long buffers, byte order is the order of the big-endian numbers. */
  lemma {:induction false} BeforeIsLess(a: Bytes, b: Bytes)
    requires |a| == |b|
    ensures Before(a, b) <==> FromBe(a) < FromBe(b)
    ensures a == b <==> FromBe(a) == FromBe(b)
  {
    if a != [] {
      var n := |a| - 1;
      BeforeByLast(a, b);
      BeforeIsLess(a[..n], b[..n]);
      assert a == a[..n] + [a[n]] && b == b[..n] + [b[n]];
    }
  }
}
