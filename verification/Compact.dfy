/**
 The compact form of difficulty targets, and the work a target stands for.
 */
module Compact {
  import opened Numbers
  import opened Arith

  const WIDTH := 8
  type Word = x: nat | x < B

  /** The exponent, mantissa and sign fields of a compact number. */
  function SizeOf(c: Word): nat {
    c / 0x100_0000
  }

  function MantissaOf(c: Word): nat {
    c % 0x80_0000
  }

  predicate SignOf(c: Word) {
    c / 0x80_0000 % 2 == 1
  }

  /** `mantissa * 256^(exponent - 3)`, rounded down: the number a compact form stands for. */
  ghost function Exact(c: Word): nat {
    if SizeOf(c) <= 3 then DivNonNegative(MantissaOf(c), Pow2(8 * (3 - SizeOf(c)))); MantissaOf(c) / Pow2(8 * (3 - SizeOf(c)))
    else MantissaOf(c) * Pow2(8 * (SizeOf(c) - 3))
  }

  lemma Modulus()
    ensures Radix(WIDTH) == Pow2(256)
  {
    RadixIsPow2(WIDTH);
  }

  lemma Powers()
    ensures Pow2(8) == 0x100 && Pow2(16) == 0x1_0000 && Pow2(23) == 0x80_0000 && Pow2(24) == 0x100_0000
  {
    assert Pow2(8) == 0x100;
    Pow2Add(8, 8);
    Pow2Add(8, 15);
    Pow2Add(8, 16);
    assert Pow2(7) == 0x80;
    Pow2Add(8, 7);
  }

  /** Sizes of 35 and more overflow, and 33 and 34 do when the mantissa has too many bytes. */
  lemma OverflowTest(word: nat, size: nat)
    requires word < 0x80_0000 && size > 3
    ensures word * Pow2(8 * (size - 3)) >= Pow2(256) <==>
            word != 0 && (size > 34 || (word > 0xff && size > 33) || (word > 0xffff && size > 32))
  {
    hide Pow2;
    var p := Pow2(8 * (size - 3));
    Powers();
    if size > 34 {
      Pow2Monotone(256, 8 * (size - 3));
      if word > 0 {
        MulMonotone(1, word, p);
      }
    } else if size > 31 {
      Pow2Add(8 * (35 - size), 8 * (size - 3));
      var limit := Pow2(8 * (35 - size));
      if word >= limit {
        MulMonotone(limit, word, p);
      } else {
        MulStrict(word, limit, p);
      }
    } else {
      Pow2Monotone(8 * (size - 3), 8 * 28);
      Pow2Add(8 * 28, 32);
      Pow2Limb();
      MulMonotone(word, 0x80_0000, p);
      MulMonotone(p, Pow2(8 * 28), 0x80_0000);
      MulStrict(0x80_0000, B, Pow2(8 * 28));
    }
  }

  /** Decodes a compact number modulo 2^256 and flags what does not fit. */
  method SetCompact(n: BaseUint, nCompact: Word) returns (fNegative: bool, fOverflow: bool)
    requires n.pn.Length == WIDTH
    modifies n.pn
    ensures n.V() == Exact(nCompact) % Pow2(256)
    ensures fOverflow <==> Exact(nCompact) >= Pow2(256)
    ensures fNegative <==> Exact(nCompact) != 0 && SignOf(nCompact)
  {
    hide Pow2, Radix, Val;
    Modulus();
    var nSize := nCompact / 0x100_0000;
    var nWord := nCompact % 0x80_0000;
    if nSize <= 3 {
      ShrBound(nWord, Pow2(8 * (3 - nSize)));
      nWord := nWord / Pow2(8 * (3 - nSize));
      n.AssignU64(nWord);
      SmallFits(nWord);
    } else {
      n.AssignU64(nWord);
      n.ShiftLeft(8 * (nSize - 3));
      OverflowTest(nWord, nSize);
      NonZero(nWord, Pow2(8 * (nSize - 3)));
    }
    fNegative := nWord != 0 && nCompact / 0x80_0000 % 2 == 1;
    fOverflow := nWord != 0 && (nSize > 34 || (nWord > 0xff && nSize > 33) || (nWord > 0xffff && nSize > 32));
  }

  lemma SmallFits(x: nat)
    requires x < B
    ensures x < Pow2(256) && x % Pow2(256) == x
  {
    hide Pow2;
    Pow2Limb();
    Pow2Strict(32, 256);
    DivModUnique(x, Pow2(256), 0, x);
  }

  lemma NonZero(x: nat, p: nat)
    requires p > 0
    ensures x * p != 0 <==> x != 0
  {
    if x > 0 {
      MulStrict(0, x, p);
    }
  }

  // ----------------------------------------------------------------------- encoding

  ghost function BitLength(v: nat): (n: nat)
    ensures HasBits(v, n)
  {
    if v == 0 then 0 else 1 + BitLength(v / 2)
  }

  /** The bytes needed for `v` and a sign bit. */
  ghost function Size(v: nat): nat {
    if v == 0 then 0 else BitLength(v) / 8 + 1
  }

  /** `v * 256^(3 - size)`, rounded down. */
  ghost function Scaled(v: nat, size: nat): nat {
    if size <= 3 then v * Pow2(8 * (3 - size))
    else DivNonNegative(v, Pow2(8 * (size - 3))); v / Pow2(8 * (size - 3))
  }

  /** `v` with all but its leading three bytes cleared: all but two, when the first is 0x80 or more. */
  ghost function Rounded(v: nat): nat {
    if Size(v) <= 3 then v
    else DivNonNegative(v, Pow2(8 * (Size(v) - 3))); v / Pow2(8 * (Size(v) - 3)) * Pow2(8 * (Size(v) - 3))
  }

  /** The compact form of `v`. */
  ghost function Encoded(v: nat, negative: bool): nat {
    var m := Scaled(v, Size(v));
    Size(v) * 0x100_0000 + (if negative && m != 0 then 0x80_0000 else 0) + m
  }

  /** Shifting moves the number of bits along. */
  lemma ScaledBits(v: nat, bits: nat, size: nat)
    requires HasBits(v, bits) && bits > 0 && bits + 24 > 8 * size
    ensures HasBits(Scaled(v, size), bits + 24 - 8 * size)
  {
    hide Pow2;
    if size <= 3 {
      var k := 8 * (3 - size);
      Pow2Add(bits - 1, k);
      Pow2Add(bits, k);
      MulMonotone(Pow2(bits - 1), v, Pow2(k));
      MulStrict(v, Pow2(bits), Pow2(k));
    } else {
      var k := 8 * (size - 3);
      Pow2Add(bits - 1 - k, k);
      Pow2Add(bits - k, k);
      DivModUnique(Pow2(bits - 1), Pow2(k), Pow2(bits - 1 - k), 0);
      DivMonotone(Pow2(bits - 1), v, Pow2(k));
      ShiftedDown(v, Pow2(k), Pow2(bits - k));
    }
  }

  /** The mantissa has 23 bits, and at least 16 when the number is not zero. */
  lemma MantissaFits(v: nat)
    ensures Scaled(v, Size(v)) < 0x80_0000
    ensures v != 0 ==> Scaled(v, Size(v)) >= 0x8000
  {
    hide Pow2;
    if v == 0 {
      assert 0 * Pow2(24) == 0;
    } else {
      var bits := BitLength(v);
      ScaledBits(v, bits, Size(v));
      var n := bits + 24 - 8 * Size(v);
      assert 16 <= n <= 23;
      Pow2Monotone(n, 23);
      Pow2Monotone(15, n - 1);
      Powers();
      Pow2Half();
    }
  }

  lemma Pow2Half()
    ensures Pow2(15) == 0x8000
  {
    assert Pow2(8) == 0x100 && Pow2(7) == 0x80;
    Pow2Add(8, 7);
  }

  lemma SizeFits(v: nat)
    requires v < Pow2(256)
    ensures Size(v) <= 33
  {
    hide Pow2;
    if v != 0 && BitLength(v) > 256 {
      Pow2Monotone(256, BitLength(v) - 1);
      assert false;
    }
  }

  lemma EncodedFields(v: nat, negative: bool)
    requires v < Pow2(256)
    ensures Encoded(v, negative) < B
    ensures var c := Encoded(v, negative);
            && SizeOf(c) == Size(v) && MantissaOf(c) == Scaled(v, Size(v))
            && (SignOf(c) <==> negative && Scaled(v, Size(v)) != 0)
  {
    hide Pow2, Size, Scaled;
    MantissaFits(v);
    SizeFits(v);
  }

  /** Decoding undoes encoding, up to rounding, and raises no flag but the sign asked for. */
  lemma DecodeEncoded(v: nat, negative: bool)
    requires v < Pow2(256)
    ensures Encoded(v, negative) < B
    ensures Exact(Encoded(v, negative)) == Rounded(v) <= v
    ensures SignOf(Encoded(v, negative)) <==> negative && v != 0
  {
    hide Pow2;
    EncodedFields(v, negative);
    MantissaFits(v);
    var size := Size(v);
    if size <= 3 {
      var p := Pow2(8 * (3 - size));
      DivModUnique(v * p, p, v, 0);
      NonZero(v, p);
    } else {
      var p := Pow2(8 * (size - 3));
      assert v == v / p * p + v % p;
    }
  }

  /** Rounding keeps the number of bits, so the rounded number has the same compact form. */
  lemma EncodeRounded(v: nat, negative: bool)
    ensures BitLength(Rounded(v)) == BitLength(v)
    ensures Encoded(Rounded(v), negative) == Encoded(v, negative)
  {
    hide Pow2, BitLength;
    var size := Size(v);
    if size > 3 {
      var k, bits := 8 * (size - 3), BitLength(v);
      var p := Pow2(k);
      Pow2Add(bits - 1 - k, k);
      DivModUnique(Pow2(bits - 1), p, Pow2(bits - 1 - k), 0);
      DivMonotone(Pow2(bits - 1), v, p);
      MulMonotone(Pow2(bits - 1 - k), v / p, p);
      assert v == v / p * p + v % p;
      BitsAreUnique(Rounded(v), bits, BitLength(Rounded(v)));
      DivModUnique(v / p * p, p, v / p, 0);
    }
  }

  /** Less than one unit of the last mantissa byte is lost. */
  lemma RoundingLoss(v: nat)
    ensures Size(v) <= 3 ==> Rounded(v) == v
    ensures Size(v) > 3 ==> Rounded(v) <= v < Rounded(v) + Pow2(8 * (Size(v) - 3))
  {
    hide Pow2;
    if Size(v) > 3 {
      var p := Pow2(8 * (Size(v) - 3));
      assert v == v / p * p + v % p;
    }
  }

  /** The leading three bytes, or all with zeros after them. */
  method LeadingBytes(n: BaseUint, nSize: nat) returns (nCompact: nat)
    requires n.pn.Length == WIDTH && nSize == (BitLength(n.V()) + 7) / 8
    ensures nCompact == Scaled(n.V(), nSize)
  {
    hide Pow2, Radix, Val, Scaled, BitLength;
    ghost var v := n.V();
    TopBytes(v, nSize);
    ScaledIs(v, nSize);
    var low;
    if nSize <= 3 {
      low := n.GetLow64();
      SmallNumber(v, nSize);
      nCompact := low * Pow2(8 * (3 - nSize)) % B;
    } else {
      var bn := new BaseUint.Copy(n);
      bn.ShiftRight(8 * (nSize - 3));
      low := bn.GetLow64();
      DivModUnique(Scaled(v, nSize), B * B, 0, Scaled(v, nSize));
      nCompact := low % B;
    }
  }

  /** Encodes the number; its two assertions never fire. */
  method GetCompact(n: BaseUint, fNegative: bool) returns (nCompact: nat)
    requires n.pn.Length == WIDTH
    ensures nCompact == Encoded(n.V(), fNegative) < B
  {
    hide Pow2, Radix, Val, BitOr, Encoded, Scaled, Size, BitLength;
    ghost var v := n.V();
    ValBound(n.pn[..]);
    Modulus();
    var bits := n.NumBits();
    BitsAreUnique(v, bits, BitLength(v));
    var nSize := (bits + 7) / 8;
    TopBytes(v, nSize);
    nCompact := LeadingBytes(n, nSize);
    SignShift(v, nSize);
    if nCompact / 0x80_0000 % 2 == 1 {
      nCompact := nCompact / 0x100;
      nSize := nSize + 1;
    }
    MantissaFits(v);
    SizeFits(v);
    assert nCompact < 0x80_0000 && nSize < 256;
    Join(nSize, nCompact);
    nCompact := BitOr(nCompact, nSize * 0x100_0000);
    nCompact := BitOr(nCompact, if fNegative && nCompact % 0x80_0000 != 0 then 0x80_0000 else 0);
    EncodedIs(v, fNegative);
  }

  lemma Join(size: nat, m: nat)
    requires m < 0x80_0000
    ensures BitOr(m, size * 0x100_0000) == size * 0x100_0000 + m
    ensures BitOr(size * 0x100_0000 + m, 0) == size * 0x100_0000 + m
    ensures BitOr(size * 0x100_0000 + m, 0x80_0000) == size * 0x100_0000 + 0x80_0000 + m
  {
    hide Pow2, BitOr;
    Powers();
    BitOrIsSum(size, m, 24);
    BitOrZero(size * 0x100_0000 + m);
    SetSign(size, m);
  }

  lemma EncodedIs(v: nat, negative: bool)
    requires v < Pow2(256)
    ensures Encoded(v, negative) == Size(v) * 0x100_0000 + (if negative && Scaled(v, Size(v)) != 0 then 0x80_0000 else 0) + Scaled(v, Size(v)) < B
  {
    EncodedFields(v, negative);
  }

  lemma SetSign(size: nat, m: nat)
    requires m < 0x80_0000
    ensures BitOr(size * 0x100_0000 + m, 0x80_0000) == size * 0x100_0000 + 0x80_0000 + m
  {
    hide BitOr, Pow2;
    Powers();
    Pow2Zero();
    Pow2Next(0);
    BitOrSplit(2 * size, 1, m, 0, 23);
    BitOrIsSum(size, 1, 1);
    BitOrZero(m);
  }

  lemma SmallNumber(v: nat, size: nat)
    requires size <= 3 && size == (BitLength(v) + 7) / 8
    ensures v < 0x100_0000 && v % (B * B) == v
  {
    hide Pow2, BitLength;
    Pow2Monotone(BitLength(v), 24);
    Powers();
  }

  lemma ScaledIs(v: nat, size: nat)
    ensures size <= 3 ==> Scaled(v, size) == v * Pow2(8 * (3 - size))
    ensures size > 3 ==> Scaled(v, size) == v / Pow2(8 * (size - 3))
  {
  }

  /** The leading three bytes. */
  lemma TopBytes(v: nat, size: nat)
    requires size == (BitLength(v) + 7) / 8
    ensures Scaled(v, size) < 0x100_0000
    ensures v != 0 ==> (Scaled(v, size) >= 0x80_0000 <==> BitLength(v) % 8 == 0)
  {
    hide Pow2, BitLength;
    Powers();
    if v != 0 {
      var bits := BitLength(v);
      ScaledBits(v, bits, size);
      var n := bits + 24 - 8 * size;
      Pow2Monotone(n, 24);
      if n == 24 {
      } else {
        Pow2Monotone(n, 23);
      }
    } else {
      assert 0 * Pow2(24) == 0;
    }
  }

  /** A leading byte of 0x80 or more makes room for the sign bit. */
  lemma SignShift(v: nat, size: nat)
    requires size == (BitLength(v) + 7) / 8
    ensures if Scaled(v, size) >= 0x80_0000 then Size(v) == size + 1 && Scaled(v, size + 1) == Scaled(v, size) / 0x100
            else Size(v) == size
  {
    hide Pow2, BitLength;
    TopBytes(v, size);
    Powers();
    if v == 0 {
      assert 0 * Pow2(24) == 0;
    } else if Scaled(v, size) >= 0x80_0000 {
      if size < 3 {
        Pow2Add(8 * (2 - size), 8);
        var p := Pow2(8 * (2 - size));
        assert v * (p * 0x100) == (v * p) * 0x100;
      } else if size == 3 {
        assert v * Pow2(0) == v by {
          Pow2Zero();
        }
      } else {
        Pow2Add(8 * (size - 3), 8);
        DivDiv(v, Pow2(8 * (size - 3)), 0x100);
      }
    }
  }

  /** For every number: encode, decode, encode again. */
  method RoundTrip(n: BaseUint) returns (c: nat, m: BaseUint, negative: bool, overflow: bool, c': nat)
    requires n.pn.Length == WIDTH
    ensures m.pn.Length == WIDTH && m.V() == Rounded(n.V())
    ensures !negative && !overflow && c' == c
  {
    hide Pow2, Radix, Val, Encoded, Exact, Rounded;
    ghost var v := n.V();
    ValBound(n.pn[..]);
    Modulus();
    c := GetCompact(n, false);
    m := new BaseUint(WIDTH);
    DecodeEncoded(v, false);
    DivModUnique(Rounded(v), Pow2(256), 0, Rounded(v));
    negative, overflow := SetCompact(m, c);
    EncodeRounded(v, false);
    c' := GetCompact(m, false);
  }

  // ------------------------------------------------------------------------- block proof

  /** A target that fits is not the largest number, so its successor fits too. */
  lemma TargetHasSuccessor(c: Word)
    requires Exact(c) < Pow2(256)
    ensures Exact(c) + 1 < Pow2(256)
  {
    hide Pow2;
    Pow2Next(255);
    if SizeOf(c) <= 3 {
      var x, p := MantissaOf(c), Pow2(8 * (3 - SizeOf(c)));
      ShrBound(x, p);
      SmallFits(B - 1);
      Pow2Limb();
      Pow2Strict(32, 256);
    } else {
      Pow2Next(8 * (SizeOf(c) - 3) - 1);
      var x, p := MantissaOf(c), Pow2(8 * (SizeOf(c) - 3) - 1);
      assert x * (2 * p) == 2 * (x * p);
    }
  }

  /** The work of a block: 2^256 divided by the target plus one, or zero for a bad target. */
  method GetBlockProof(nBits: Word) returns (r: BaseUint)
    ensures r.pn.Length == WIDTH
    ensures Exact(nBits) == 0 || SignOf(nBits) || Exact(nBits) >= Pow2(256) ==> r.V() == 0
    ensures !(Exact(nBits) == 0 || SignOf(nBits) || Exact(nBits) >= Pow2(256)) ==>
              r.V() == Pow2(256) / (Exact(nBits) + 1)
  {
    hide Pow2, Radix, Val, Exact;
    Modulus();
    var bnTarget := new BaseUint(WIDTH);
    var fNegative, fOverflow := SetCompact(bnTarget, nBits);
    var isZero := bnTarget.EqualToU64(0);
    ghost var t := Exact(nBits);
    if t < Pow2(256) {
      DivModUnique(t, Pow2(256), 0, t);
    }
    if fNegative || fOverflow || isZero {
      r := new BaseUint(WIDTH);
      return;
    }
    TargetHasSuccessor(nBits);
    ProofFits(t);
    r := bnTarget.Complement();
    var next := new BaseUint.Copy(bnTarget);
    var one := new BaseUint(WIDTH);
    one.AssignU64(1);
    next.Add(one);
    assert next.V() == t + 1;
    var thrown := r.Div(next);
    r.Add(one);
  }

  lemma ProofFits(t: nat)
    requires 0 < t && t + 1 < Pow2(256)
    ensures (t + 1) % Pow2(256) == t + 1
    ensures ((Pow2(256) - 1 - t) / (t + 1) + 1) % Pow2(256) == Pow2(256) / (t + 1)
  {
    hide Pow2;
    var m, d := Pow2(256), t + 1;
    DivModUnique(d, m, 0, d);
    DivPlusMultiple(m - d, d, 1);
    var q := m / d;
    assert m == q * d + m % d;
    if q >= m {
      MulMonotone(2, d, q);
      assert false;
    }
    DivNonNegative(m, d);
    DivModUnique(q, m, 0, q);
  }
}
