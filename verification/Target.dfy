/**
 Compact difficulty targets: the 32-byte expansion of a `bits` field, read as a big-endian
 number, and the comparison of a block hash against it.
 */
module Target {
  import opened Basics
  import opened Encoding

  function Exponent(bits: nat): nat {
    bits / 0x100_0000
  }

  function Mantissa(bits: nat): nat {
    bits % 0x80_0000
  }

  predicate SignBit(bits: nat) {
    bits / 0x80_0000 % 2 == 1
  }

  /** The encodings consensus refuses. */
  predicate Refused(bits: nat) {
    SignBit(bits) || Mantissa(bits) == 0 || Exponent(bits) > 32
  }

  /** floor(mantissa * 256^(exponent - 3)) */
  function TargetValue(bits: nat): int {
    if Exponent(bits) >= 3 then Mantissa(bits) * Pow256(Exponent(bits) - 3)
    else Mantissa(bits) / Pow256(3 - Exponent(bits))
  }

  /** Bits put together from exponent, sign and mantissa: when they are refused, and the number they stand for. */
  lemma {:induction false} TargetOfParts(exponent: nat, negative: bool, mantissa: nat)
    requires mantissa < 0x80_0000
    ensures var bits := 0x100_0000 * exponent + (if negative then 0x80_0000 else 0) + mantissa;
            && (Refused(bits) <==> negative || mantissa == 0 || exponent > 32)
            && TargetValue(bits) == (if exponent > 3 then mantissa * Pow256(exponent - 3)
                                     else mantissa / Pow256(3 - exponent))
  {
    var bits := 0x100_0000 * exponent + (if negative then 0x80_0000 else 0) + mantissa;
    assert bits / 0x80_0000 == 2 * exponent + (if negative then 1 else 0) && bits % 0x80_0000 == mantissa;
    assert bits / 0x100_0000 == exponent;
  }

  function Zeros(n: nat): (z: Bytes)
    ensures |z| == n
  {
    if n == 0 then [] else Zeros(n - 1) + [0]
  }

  lemma {:induction false} ZerosAre(z: Bytes)
    requires forall i :: 0 <= i < |z| ==> z[i] == 0
    ensures z == Zeros(|z|)
  {
    if z != [] {
      ZerosAre(z[..|z| - 1]);
      assert z == z[..|z| - 1] + [z[|z| - 1]];
    }
  }

  lemma ScaleUp(x: nat, p: nat)
    ensures 0x100 * (x * p) == x * (0x100 * p)
  {
  }

  lemma {:induction false} TrailingZeros(b: Bytes, n: nat)
    ensures FromBe(b + Zeros(n)) == FromBe(b) * Pow256(n)
  {
    if n == 0 {
      assert b + Zeros(0) == b;
    } else {
      TrailingZeros(b, n - 1);
      assert (b + Zeros(n))[..|b| + n - 1] == b + Zeros(n - 1);
      ScaleUp(FromBe(b), Pow256(n - 1));
    }
  }

  lemma {:induction false} LeadingZeros(n: nat, b: Bytes)
    ensures FromBe(Zeros(n) + b) == FromBe(b)
  {
    if b == [] {
      assert Zeros(n) + [] == [] + Zeros(n);
      TrailingZeros([], n);
    } else {
      LeadingZeros(n, b[..|b| - 1]);
      assert (Zeros(n) + b)[..n + |b| - 1] == Zeros(n) + b[..|b| - 1];
    }
  }

  /** The low three bytes, most significant first. */
  function ThreeBytes(n: nat): (b: Bytes)
    requires n < 0x100_0000
    ensures |b| == 3 && FromBe(b) == n
  {
    var b := [n / 0x1_0000, n / 0x100 % 0x100, n % 0x100];
    assert b[..2][..1][..0] == [];
    assert FromBe(b[..2][..1]) == n / 0x1_0000;
    assert FromBe(b[..2]) == n / 0x100;
    b
  }

  /** Three bytes at `start` in a 32-byte buffer of zeros. */
  lemma {:induction false} PlacedValue(t: Bytes, start: nat, m: nat)
    requires |t| == 32 && start <= 29 && m < 0x100_0000
    requires t[start..start + 3] == ThreeBytes(m)
    requires forall i :: 0 <= i < 32 && !(start <= i < start + 3) ==> t[i] == 0
    ensures FromBe(t) == m * Pow256(29 - start)
  {
    var low := t[start + 3..];
    ZerosAre(t[..start]);
    ZerosAre(low);
    assert t == Zeros(start) + (ThreeBytes(m) + Zeros(29 - start));
    LeadingZeros(start, ThreeBytes(m) + Zeros(29 - start));
    TrailingZeros(ThreeBytes(m), 29 - start);
  }

  lemma SmallExponent(bits: nat)
    ensures Exponent(bits) <= 3 ==>
              var shifted := Mantissa(bits) / Pow256(3 - Exponent(bits));
              shifted < 0x100_0000 && shifted * Pow256(29 - 29) == TargetValue(bits)
  {
    assert Pow256(0) == 1 && Pow256(1) == 0x100 && Pow256(2) == 0x1_0000 && Pow256(3) == 0x100_0000;
  }

  /** Copies a number's three bytes into a buffer of zeros. */
  method CopyThree(t: array<Byte>, start: nat, m: nat)
    requires t.Length == 32 && start <= 29 && m < 0x100_0000 && forall i :: 0 <= i < 32 ==> t[i] == 0
    modifies t
    ensures FromBe(t[..]) == m * Pow256(29 - start)
  {
    var b := ThreeBytes(m);
    t[start], t[start + 1], t[start + 2] := b[0], b[1], b[2];
    assert t[start..start + 3] == b;
    PlacedValue(t[..], start, m);
  }

  /** A target exists exactly when the encoding is not refused, and its bytes spell the target value. */
  method TargetFromBits(bits: nat) returns (target: Option<Bytes>)
    requires bits < U32_LIMIT
    ensures target.None? <==> Refused(bits)
    ensures target.Some? ==> |target.value| == 32 && FromBe(target.value) == TargetValue(bits)
  {
    var exponent, mantissa := Exponent(bits), Mantissa(bits);
    if SignBit(bits) {
      return None;
    }
    if mantissa == 0 {
      return None;
    }
    var t := new Byte[32](_ => 0);
    if exponent <= 3 {
      var shifted := mantissa / Pow256(3 - exponent);
      SmallExponent(bits);
      CopyThree(t, 29, shifted);
    } else {
      if exponent > 32 {
        return None;
      }
      var start := 32 - exponent;
      if start + 3 > 32 {
        return None;
      }
      assert exponent - 3 == 29 - start;
      CopyThree(t, start, mantissa);
    }
    target := Some(t[..]);
  }

  /** A hash meets a field exactly when the field is not refused and the hash, as a number, is at most its value. */
  method MeetsTarget(hash: Bytes, bits: nat) returns (ok: bool)
    requires |hash| == 32 && bits < U32_LIMIT
    ensures ok <==> !Refused(bits) && FromBe(hash) <= TargetValue(bits)
  {
    var target := TargetFromBits(bits);
    if target.None? {
      return false;
    }
    BeforeIsLess(target.value, hash);
    ok := !Before(target.value, hash);
  }
}
