/**
 Unsigned integers of a fixed number of 32-bit limbs, updated in place.
 */
module Arith {
  import opened Numbers

  const B := 0x1_0000_0000
  type Limb = x: nat | x < B

  function Radix(n: nat): (r: nat)
    ensures r >= 1
  {
    if n == 0 then 1 else B * Radix(n - 1)
  }

  lemma {:induction false} RadixIsPow2(n: nat)
    ensures Radix(n) == Pow2(32 * n)
  {
    if n > 0 {
      RadixIsPow2(n - 1);
      Pow2Add(32, 32 * (n - 1));
      Pow2Limb();
    }
  }

  lemma Pow2Limb()
    ensures Pow2(32) == B
  {
    Pow2Add(8, 8);
    Pow2Add(16, 16);
    assert Pow2(8) == 256;
  }

  lemma {:induction false} RadixAdd(a: nat, b: nat)
    ensures Radix(a + b) == Radix(a) * Radix(b)
  {
    if a == 0 {
      assert Radix(0) * Radix(b) == Radix(b);
    } else {
      RadixAdd(a - 1, b);
      MulAssoc(B, Radix(a - 1), Radix(b));
    }
  }

  /** The number that limbs, the least significant first, stand for. */
  ghost function Val(s: seq<Limb>): (r: nat) {
    if s == [] then 0 else s[0] + B * Val(s[1..])
  }

  lemma {:induction false} ValBound(s: seq<Limb>)
    ensures Val(s) < Radix(|s|)
  {
    if s != [] {
      ValBound(s[1..]);
    }
  }

  lemma {:induction false} ValConcat(a: seq<Limb>, b: seq<Limb>)
    ensures Val(a + b) == Val(a) + Radix(|a|) * Val(b)
  {
    if a == [] {
      assert a + b == b && Radix(0) * Val(b) == Val(b);
    } else {
      ValConcat(a[1..], b);
      assert (a + b)[1..] == a[1..] + b;
      MulAssoc(B, Radix(|a| - 1), Val(b));
    }
  }

  lemma ValSplit(s: seq<Limb>, i: nat)
    requires i <= |s|
    ensures Val(s) == Val(s[..i]) + Radix(i) * Val(s[i..])
  {
    assert s == s[..i] + s[i..];
    ValConcat(s[..i], s[i..]);
  }

  lemma ValPrefix(s: seq<Limb>, i: nat)
    requires i < |s|
    ensures Val(s[..i + 1]) == Val(s[..i]) + Radix(i) * s[i]
  {
    assert s[..i + 1] == s[..i] + [s[i]];
    ValConcat(s[..i], [s[i]]);
    assert Val([s[i]]) == s[i] by {
      assert [s[i]][1..] == [];
    }
  }

  lemma {:induction false} ValZero(s: seq<Limb>)
    requires forall i :: 0 <= i < |s| ==> s[i] == 0
    ensures Val(s) == 0
  {
    if s != [] {
      ValZero(s[1..]);
    }
  }

  /** Different limbs make different numbers. */
  lemma {:induction false} ValInjective(a: seq<Limb>, b: seq<Limb>)
    requires |a| == |b| && Val(a) == Val(b)
    ensures a == b
  {
    if a != [] {
      DivModUnique(Val(a), B, Val(a[1..]), a[0]);
      DivModUnique(Val(b), B, Val(b[1..]), b[0]);
      ValInjective(a[1..], b[1..]);
      assert a == [a[0]] + a[1..] && b == [b[0]] + b[1..];
    }
  }

  /** What a carry loop leaves: the low limbs of a sum, the rest being lost. */
  lemma Truncated(v: nat, carry: nat, m: nat, sum: int)
    requires v < m && v + carry * m == sum
    ensures v == sum % m
  {
    DivModUnique(sum, m, carry, v);
  }

  class BaseUint {
    const pn: array<Limb>

    ghost function V(): nat
      reads pn
    {
      Val(pn[..])
    }

    /** 2^BITS */
    ghost function M(): nat {
      Radix(pn.Length)
    }

    /** `base_uint()`: zero. */
    constructor (width: nat)
      ensures fresh(pn) && pn.Length == width && V() == 0
    {
      pn := new Limb[width](_ => 0);
      new;
      ValZero(pn[..]);
    }

    constructor Copy(b: BaseUint)
      ensures fresh(pn) && pn.Length == b.pn.Length && pn[..] == b.pn[..]
    {
      pn := new Limb[b.pn.Length];
      new;
      for i := 0 to pn.Length
        invariant pn[..i] == b.pn[..i]
      {
        pn[i] := b.pn[i];
      }
    }

    /** `operator=` */
    method Assign(b: BaseUint)
      requires b.pn.Length == pn.Length
      modifies pn
      ensures pn[..] == old(b.pn[..])
    {
      for i := 0 to pn.Length
        invariant pn[..i] == old(b.pn[..i])
        invariant forall j :: i <= j < pn.Length ==> b.pn[j] == old(b.pn[j])
      {
        pn[i] := b.pn[i];
      }
    }

    /** `operator=(uint64_t)` */
    method AssignU64(b: nat)
      requires b < B * B && pn.Length >= 2
      modifies pn
      ensures V() == b
    {
      pn[0] := b % B;
      pn[1] := b / B;
      for i := 2 to pn.Length
        invariant pn[0] == b % B && pn[1] == b / B && forall j :: 2 <= j < i ==> pn[j] == 0
      {
        pn[i] := 0;
      }
      ValSplit(pn[..], 2);
      ValZero(pn[2..]);
      assert pn[..2] == [pn[0], pn[1]] && [pn[0], pn[1]][1..] == [pn[1]] && [pn[1]][1..] == [];
      assert pn[..][2..] == pn[2..] && pn[..][..2] == pn[..2];
    }

    method IsZero() returns (r: bool)
      ensures r <==> V() == 0
    {
      for i := 0 to pn.Length
        invariant forall j :: 0 <= j < i ==> pn[j] == 0
      {
        if pn[i] != 0 {
          ValSplit(pn[..], i);
          assert pn[..][i..][0] == pn[i] && Val(pn[..][i..]) > 0;
          MulStrict(0, Val(pn[..][i..]), Radix(i));
          return false;
        }
      }
      ValZero(pn[..]);
      return true;
    }

    /** `operator~` */
    method Complement() returns (r: BaseUint)
      ensures fresh(r) && fresh(r.pn) && r.pn.Length == pn.Length && r.V() == M() - 1 - V()
    {
      r := new BaseUint(pn.Length);
      for i := 0 to pn.Length
        invariant forall j :: 0 <= j < i ==> r.pn[j] == B - 1 - pn[j]
        invariant fresh(r.pn)
      {
        r.pn[i] := B - 1 - pn[i];
      }
      Complements(pn[..], r.pn[..]);
    }

    /** `operator++` */
    method Increment()
      modifies pn
      ensures V() == (old(V()) + 1) % M()
    {
      var i := 0;
      ghost var was := pn[..];
      while i < pn.Length && pn[i] == B - 1
        invariant 0 <= i <= pn.Length
        invariant forall j :: 0 <= j < i ==> pn[j] == 0 && was[j] == B - 1
        invariant pn[i..] == was[i..]
      {
        pn[i] := 0;
        i := i + 1;
      }
      if i < pn.Length {
        pn[i] := pn[i] + 1;
      }
      Incremented(was, pn[..], i);
    }

    /** `operator--` */
    method Decrement()
      modifies pn
      ensures V() == (old(V()) - 1) % M()
    {
      var i := 0;
      ghost var was := pn[..];
      while i < pn.Length && pn[i] == 0
        invariant 0 <= i <= pn.Length
        invariant forall j :: 0 <= j < i ==> was[j] == 0 && pn[j] == B - 1
        invariant pn[i..] == was[i..]
      {
        pn[i] := B - 1;
        i := i + 1;
      }
      if i < pn.Length {
        pn[i] := pn[i] - 1;
      }
      Incremented(pn[..], was, i);
      DecrementedMod(was, pn[..]);
    }

    /** `operator-` */
    method Negate() returns (r: BaseUint)
      ensures fresh(r) && fresh(r.pn) && r.pn.Length == pn.Length && r.V() == (0 - V()) % M()
    {
      r := Complement();
      r.Increment();
      ModPlusMultiple(0 - V(), M(), 1);
    }

    /** `operator+=`; the operand may be this number itself. */
    method Add(b: BaseUint)
      requires b.pn.Length == pn.Length
      modifies pn
      ensures V() == (old(V()) + old(b.V())) % M()
    {
      var carry := 0;
      ghost var was, other := pn[..], b.pn[..];
      for i := 0 to pn.Length
        invariant Val(pn[..i]) + carry * Radix(i) == Val(was[..i]) + Val(other[..i]) && 0 <= carry <= 1
        invariant pn[i..] == was[i..] && b.pn[i..] == other[i..]
      {
        assert b.pn[i] == b.pn[i..][0] && pn[i] == pn[i..][0];
        var n := carry + pn[i] + b.pn[i];
        ghost var before := pn[..];
        pn[i] := n % B;
        AddStep(before, was, other, pn[..], i, carry, n);
        carry := n / B;
      }
      Finished(was, other, pn[..]);
      ValBound(pn[..]);
      Truncated(V(), carry, M(), Val(was) + Val(other));
    }

    /** `operator-=` */
    method Subtract(b: BaseUint)
      requires b.pn.Length == pn.Length
      modifies pn
      ensures V() == (old(V()) - old(b.V())) % M()
    {
      hide Val, Radix;
      var neg := b.Negate();
      ghost var x: int, y: int := V(), b.V();
      Add(neg);
      SumMod(x, -y, M());
    }

    /** `operator*=(uint32_t)` */
    method MulU32(b32: Limb)
      modifies pn
      ensures V() == old(V()) * b32 % M()
    {
      hide Val, Radix;
      var carry := 0;
      ghost var was := pn[..];
      NoLimbs(was);
      for i := 0 to pn.Length
        invariant Val(pn[..i]) + carry * Radix(i) == Val(was[..i]) * b32 && 0 <= carry < B
        invariant pn[i..] == was[i..]
      {
        assert pn[i] == pn[i..][0];
        var n := carry + b32 * pn[i];
        LimbProduct(carry, 0, b32, pn[i]);
        ghost var before := pn[..];
        pn[i] := n % B;
        MulStep(before, was, pn[..], i, carry, b32, n);
        carry := n / B;
      }
      Finished(was, was, pn[..]);
      ValBound(pn[..]);
      Truncated(V(), carry, M(), Val(was) * b32);
    }

    /** Adds `x * b` at limb `j`, losing what does not fit. */
    method AddProduct(x: Limb, b: BaseUint, j: nat)
      requires b.pn.Length == pn.Length && j < pn.Length && (b.pn == pn ==> forall i :: 0 <= i < pn.Length ==> pn[i] == 0)
      modifies pn
      ensures b.pn == pn ==> forall i :: 0 <= i < pn.Length ==> pn[i] == 0
      ensures b.pn != pn ==> V() == (old(V()) + Radix(j) * (x * b.V())) % M()
    {
      hide Val, Radix;
      var carry := 0;
      ghost var was, other := pn[..], b.pn[..];
      NoLimbs(other);
      for i := 0 to pn.Length - j
        invariant b.pn == pn ==> carry == 0 && forall i :: 0 <= i < pn.Length ==> pn[i] == 0
        invariant b.pn != pn ==> Val(pn[..i + j]) + carry * Radix(i + j) == Val(was[..i + j]) + Radix(j) * (x * Val(other[..i]))
        invariant b.pn != pn ==> pn[i + j..] == was[i + j..] && b.pn[..] == other
        invariant 0 <= carry < B
      {
        assert pn[i + j] == pn[i + j..][0];
        var n := carry + pn[i + j] + x * b.pn[i];
        LimbProduct(carry, pn[i + j], x, b.pn[i]);
        ghost var before := pn[..];
        pn[i + j] := n % B;
        if b.pn != pn {
          RowStep(before, was, other, pn[..], i, j, carry, x, n);
        }
        carry := n / B;
      }
      if b.pn != pn {
        RowDone(was, other, pn[..], j, carry, x);
      }
    }

    /**
     `operator*=`.  The receiver is cleared before the operand is read, so
     multiplying a number by itself in place gives zero.
     */
    method Mul(b: BaseUint)
      requires b.pn.Length == pn.Length
      modifies pn
      ensures b.pn != pn ==> V() == old(V()) * old(b.V()) % M()
      ensures b.pn == pn ==> V() == 0
      ensures V() == old(V()) * old(b.V()) % M() <==> b.pn != pn || old(V()) * old(V()) % M() == 0
    {
      hide Val, Radix;
      var a := new BaseUint.Copy(this);
      Clear();
      ghost var x, y := a.pn[..], b.pn[..];
      NoLimbs(x);
      ValBound(pn[..]);
      ZeroProduct(Val(y), M());
      for j := 0 to pn.Length
        invariant b.pn == pn ==> forall i :: 0 <= i < pn.Length ==> pn[i] == 0
        invariant b.pn != pn ==> b.pn[..] == y && V() == Val(x[..j]) * Val(y) % M()
        invariant fresh(a.pn) && a.pn[..] == x
      {
        AddProduct(a.pn[j], b, j);
        ValPrefix(x, j);
        ProductRow(Val(x[..j]), Val(y), Radix(j), x[j], M());
      }
      Finished(x, x, pn[..]);
      if b.pn == pn {
        ValZero(pn[..]);
      }
    }

    method Clear()
      modifies pn
      ensures forall i :: 0 <= i < pn.Length ==> pn[i] == 0
      ensures V() == 0
    {
      for i := 0 to pn.Length
        invariant forall j :: 0 <= j < i ==> pn[j] == 0
      {
        pn[i] := 0;
      }
      ValZero(pn[..]);
    }

    /** `operator<<=` */
    method ShiftLeft(shift: nat)
      modifies pn
      ensures V() == old(V()) * Pow2(shift) % M()
    {
      hide Val, Radix, BitOr, Pow2, Shl, Shr, Left;
      var a := new BaseUint.Copy(this);
      Clear();
      ghost var x := a.pn[..];
      var k, s := shift / 32, shift % 32;
      NothingLeft(x, k, s);
      for i := 0 to pn.Length
        invariant fresh(a.pn) && a.pn[..] == x
        invariant forall c :: 0 <= c < pn.Length ==> pn[c] == Left(x, k, s, i, c)
      {
        LeftStep(x, k, s, i);
        if i + k + 1 < pn.Length && s != 0 {
          pn[i + k + 1] := BitOr(pn[i + k + 1], Shr(a.pn[i], 32 - s));
        }
        if i + k < pn.Length {
          pn[i + k] := BitOr(pn[i + k], Shl(a.pn[i], s));
        }
      }
      LeftVal(x, k, s, pn[..]);
    }

    /** `operator>>=` */
    method ShiftRight(shift: nat)
      modifies pn
      ensures V() == old(V()) / Pow2(shift)
    {
      hide Val, Radix, BitOr, Pow2, Shl, Shr, Right;
      var a := new BaseUint.Copy(this);
      Clear();
      ghost var x := a.pn[..];
      var k, s := shift / 32, shift % 32;
      NothingRight(x, k, s);
      for i := 0 to pn.Length
        invariant fresh(a.pn) && a.pn[..] == x
        invariant forall c :: 0 <= c < pn.Length ==> pn[c] == Right(x, k, s, i, c)
      {
        RightStep(x, k, s, i);
        if i - k - 1 >= 0 && s != 0 {
          pn[i - k - 1] := BitOr(pn[i - k - 1], Shl(a.pn[i], 32 - s));
        }
        if i - k >= 0 {
          pn[i - k] := BitOr(pn[i - k], Shr(a.pn[i], s));
        }
      }
      RightVal(x, k, s, pn[..]);
    }

    /** `bits()`: how many bits the number needs. */
    method NumBits() returns (n: nat)
      ensures HasBits(V(), n) && n <= 32 * pn.Length
    {
      hide Pow2, Val;
      for pos := pn.Length downto 0
        invariant forall j :: pos <= j < pn.Length ==> pn[j] == 0
      {
        if pn[pos] != 0 {
          Pow2Limb();
          for bits := 32 downto 1
            invariant pn[pos] < Pow2(bits)
          {
            Pow2Next(bits);
            TopBit(pn[pos], Pow2(bits));
            if pn[pos] / Pow2(bits) % 2 == 1 {
              TopLimb(pn[..], pos, bits);
              return 32 * pos + bits + 1;
            }
          }
          Pow2Zero();
          Pow2Next(0);
          TopLimb(pn[..], pos, 0);
          return 32 * pos + 1;
        }
      }
      ValZero(pn[..]);
      return 0;
    }

    method CompareTo(b: BaseUint) returns (r: int)
      requires b.pn.Length == pn.Length
      ensures r == if V() < b.V() then -1 else if V() > b.V() then 1 else 0
    {
      hide Val;
      for i := pn.Length downto 0
        invariant pn[i..] == b.pn[i..]
      {
        if pn[i] < b.pn[i] {
          LessAt(pn[..], b.pn[..], i);
          return -1;
        }
        if pn[i] > b.pn[i] {
          LessAt(b.pn[..], pn[..], i);
          return 1;
        }
      }
      assert pn[..] == pn[0..] && b.pn[..] == b.pn[0..];
      return 0;
    }

    /** `EqualTo(uint64_t)` */
    method EqualToU64(b: nat) returns (r: bool)
      requires b < B * B && pn.Length >= 2
      ensures r <==> V() == b
    {
      hide Val;
      for i := pn.Length downto 2
        invariant forall j :: i <= j < pn.Length ==> pn[j] == 0
      {
        if pn[i] != 0 {
          NotSmall(pn[..], i);
          return false;
        }
      }
      TwoLimbs(pn[..]);
      if pn[1] != b / B {
        return false;
      }
      if pn[0] != b % B {
        return false;
      }
      return true;
    }

    method GetLow64() returns (r: nat)
      requires pn.Length >= 2
      ensures r == V() % (B * B)
    {
      hide Val, Radix;
      r := BitOr(pn[0], pn[1] * B);
      Pow2Limb();
      BitOrIsSum(pn[1], pn[0], 32);
      LowLimbs(pn[..]);
    }

    /** Sets a bit that, with all below it, is clear. */
    method SetBit(shift: nat, ghost q: nat)
      requires shift < 32 * pn.Length && V() == q * Pow2(shift + 1)
      modifies pn
      ensures V() == old(V()) + Pow2(shift)
    {
      hide Val, Pow2, BitOr, Shl;
      ClearBit(pn[..], shift / 32, shift % 32, q);
      ghost var before := pn[..];
      pn[shift / 32] := BitOr(pn[shift / 32], Shl(1, shift % 32));
      assert pn[..] == before[shift / 32 := pn[shift / 32]];
    }

    /** Subtracts the shifted divisor if it fits, and sets the bit of the quotient. */
    method QuotientBit(num: BaseUint, div: BaseUint, shift: nat, ghost n0: nat, ghost d: nat, ghost q: nat) returns (ghost q': nat)
      requires num.pn != div.pn && pn != num.pn && pn != div.pn && num.pn.Length == div.pn.Length == pn.Length
      requires shift < 32 * pn.Length && V() == q * Pow2(shift + 1) && div.V() == d * Pow2(shift)
      requires Dividing(n0, d, q, num.V(), Pow2(shift + 1))
      modifies pn, num.pn
      ensures V() == q' * Pow2(shift) && Dividing(n0, d, q', num.V(), Pow2(shift))
    {
      hide Val, Radix, Pow2, Dividing;
      ghost var r, p := num.V(), Pow2(shift);
      Pow2Next(shift);
      var cmp := num.CompareTo(div);
      DivStep(n0, d, p, q, r);
      if cmp >= 0 {
        ValBound(num.pn[..]);
        num.Subtract(div);
        DivModUnique(r - d * p, M(), 0, r - d * p);
        SetBit(shift, q);
        q' := 2 * q + 1;
      } else {
        q' := 2 * q;
      }
    }

    /** `operator/=`: floor division; dividing by zero throws, after clearing the receiver. */
    method Div(b: BaseUint) returns (thrown: bool)
      requires b.pn.Length == pn.Length
      modifies pn
      ensures thrown <==> old(b.V()) == 0
      ensures V() == if old(b.V()) == 0 then 0 else old(V()) / old(b.V())
    {
      hide Val, Radix, Pow2, Dividing;
      var div := new BaseUint.Copy(b);
      var num := new BaseUint.Copy(this);
      ghost var n0, d := V(), b.V();
      ValBound(pn[..]);
      Clear();
      var numBits := num.NumBits();
      var divBits := div.NumBits();
      if divBits == 0 {
        return true;
      }
      DivStart(n0, d, numBits, divBits, pn.Length);
      if divBits > numBits {
        return false;
      }
      var shift := numBits - divBits;
      div.ShiftLeft(shift);
      ghost var q := 0;
      while shift >= 0
        invariant -1 <= shift < 32 * pn.Length
        invariant fresh(num.pn) && fresh(div.pn) && num.pn != div.pn && num.pn.Length == div.pn.Length == pn.Length
        invariant V() == q * Pow2(shift + 1) && Dividing(n0, d, q, num.V(), Pow2(shift + 1))
        invariant shift >= 0 ==> div.V() == d * Pow2(shift)
      {
        q := QuotientBit(num, div, shift, n0, d, q);
        div.ShiftRight(1);
        HalfShift(d, shift);
        shift := shift - 1;
      }
      DivEnd(n0, d, q, num.V());
      return false;
    }
  }

  lemma SumMod(x: int, y: int, m: nat)
    requires m > 0
    ensures (x + y % m) % m == (x + y) % m
  {
    assert y == (y / m) * m + y % m;
    ModPlusMultiple(x + y % m, m, y / m);
  }

  lemma Finished(a: seq<Limb>, b: seq<Limb>, c: seq<Limb>)
    requires |a| == |b| == |c|
    ensures a[..|c|] == a && b[..|c|] == b && c[..|c|] == c
  {
  }

  lemma AddStep(before: seq<Limb>, was: seq<Limb>, other: seq<Limb>, after: seq<Limb>, i: nat, carry: nat, n: nat)
    requires i < |before| == |was| == |other| && after == before[i := n % B] && n == carry + was[i] + other[i]
    requires Val(before[..i]) + carry * Radix(i) == Val(was[..i]) + Val(other[..i])
    ensures Val(after[..i + 1]) + n / B * Radix(i + 1) == Val(was[..i + 1]) + Val(other[..i + 1])
  {
    ValPrefix(was, i);
    ValPrefix(other, i);
    ValPrefix(after, i);
    assert after[..i] == before[..i];
    CarryStep(Radix(i), Val(before[..i]), Val(was[..i]) + Val(other[..i]), carry, n - carry, n / B, n % B);
    MulDistributes(Radix(i), was[i], other[i]);
  }

  /** Splitting `carry + x` into the next limb and the next carry keeps the sum. */
  lemma CarryStep(r: nat, v: int, sum: int, carry: nat, x: nat, q: nat, m: nat)
    requires v + carry * r == sum && carry + x == q * B + m
    ensures v + r * m + q * (B * r) == sum + r * x
  {
    assert r * (carry + x) == r * carry + r * x;
    assert r * (q * B + m) == q * (B * r) + r * m;
  }

  lemma {:induction false} Complements(a: seq<Limb>, b: seq<Limb>)
    requires |a| == |b| && forall i :: 0 <= i < |a| ==> b[i] == B - 1 - a[i]
    ensures Val(b) == Radix(|a|) - 1 - Val(a)
  {
    if a != [] {
      Complements(a[1..], b[1..]);
    }
  }

  /** The limbs below `i` wrapped and limb `i`, if any, went up by one. */
  lemma Incremented(a: seq<Limb>, b: seq<Limb>, i: nat)
    requires i <= |a| == |b| && forall j :: 0 <= j < i ==> a[j] == B - 1 && b[j] == 0
    requires i < |a| ==> b[i] as int == a[i] as int + 1 && b[i + 1..] == a[i + 1..]
    ensures Val(b) == (Val(a) + 1) % Radix(|a|)
  {
    hide Val;
    ValSplit(a, i);
    ValSplit(b, i);
    ValZero(b[..i]);
    Complements(b[..i], a[..i]);
    ValBound(b);
    if i < |a| {
      NextUp(a[i..], b[i..]);
      MulOneMore(Radix(i), Val(a[i..]));
      DivModUnique(Val(a) + 1, Radix(|a|), 0, Val(b));
    } else {
      ValZero(a[i..]);
      ValZero(b[i..]);
      DivModUnique(Val(a) + 1, Radix(|a|), 1, 0);
    }
  }

  lemma NextUp(a: seq<Limb>, b: seq<Limb>)
    requires 0 < |a| == |b| && b[0] as int == a[0] as int + 1 && b[1..] == a[1..]
    ensures Val(b) == Val(a) + 1
  {
  }

  lemma MulDistributes(r: int, x: int, y: int)
    ensures r * (x + y) == r * x + r * y
  {
  }

  lemma MulOneMore(r: nat, x: nat)
    ensures r * (x + 1) == r * x + r
  {
  }

  lemma DecrementedMod(was: seq<Limb>, now: seq<Limb>)
    requires |was| == |now| && Val(was) == (Val(now) + 1) % Radix(|now|)
    ensures Val(now) == (Val(was) - 1) % Radix(|now|)
  {
    var m := Radix(|now|);
    ValBound(now);
    if Val(now) + 1 == m {
      DivModUnique(m, m, 1, 0);
      DivModUnique(-1, m, -1, m - 1);
    } else {
      DivModUnique(Val(now) + 1, m, 0, Val(now) + 1);
      DivModUnique(Val(now), m, 0, Val(now));
    }
  }

  lemma NoLimbs(s: seq<Limb>)
    ensures Val(s[..0]) == 0 && Radix(0) == 1
  {
  }

  /** A limb product and two limbs fit in 64 bits. */
  lemma LimbProduct(carry: nat, p: Limb, x: Limb, y: Limb)
    requires carry < B
    ensures 0 <= x * y && (carry + p + x * y) / B < B
  {
    MulMonotone(x, B - 1, y);
    MulMonotone(y, B - 1, B - 1);
  }

  lemma MulStep(before: seq<Limb>, was: seq<Limb>, after: seq<Limb>, i: nat, carry: nat, x: Limb, n: nat)
    requires i < |before| == |was| && after == before[i := n % B] && n == carry + x * was[i]
    requires Val(before[..i]) + carry * Radix(i) == Val(was[..i]) * x
    ensures Val(after[..i + 1]) + n / B * Radix(i + 1) == Val(was[..i + 1]) * x
  {
    hide Val;
    ValPrefix(was, i);
    ValPrefix(after, i);
    assert after[..i] == before[..i];
    CarryStep(Radix(i), Val(before[..i]), Val(was[..i]) * x, carry, n - carry, n / B, n % B);
    RowTerm(Val(was[..i]), Radix(i), was[i], x);
  }

  lemma RowTerm(v: int, r: int, w: int, x: int)
    ensures (v + r * w) * x == v * x + r * (x * w)
  {
  }

  lemma RowStep(before: seq<Limb>, was: seq<Limb>, other: seq<Limb>, after: seq<Limb>, i: nat, j: nat, carry: nat, x: Limb, n: nat)
    requires i + j < |before| == |was| == |other| && after == before[i + j := n % B] && n == carry + was[i + j] + x * other[i]
    requires Val(before[..i + j]) + carry * Radix(i + j) == Val(was[..i + j]) + Radix(j) * (x * Val(other[..i]))
    ensures Val(after[..i + 1 + j]) + n / B * Radix(i + 1 + j) == Val(was[..i + 1 + j]) + Radix(j) * (x * Val(other[..i + 1]))
  {
    hide Val, Radix;
    ValPrefix(was, i + j);
    ValPrefix(after, i + j);
    ValPrefix(other, i);
    assert after[..i + j] == before[..i + j];
    RadixAdd(j, i);
    RadixNext(i + j);
    RowArith(Radix(j), Radix(i), Val(before[..i + j]), Val(was[..i + j]), Val(other[..i]), carry, was[i + j], x, other[i], n / B, n % B);
  }

  lemma RadixNext(n: nat)
    ensures Radix(n + 1) == B * Radix(n)
  {
  }

  lemma RowArith(rj: nat, ri: nat, v: nat, w: nat, o: nat, carry: nat, d: nat, x: nat, y: nat, q: nat, m: nat)
    requires v + carry * (rj * ri) == w + rj * (x * o) && carry + d + x * y == q * B + m
    ensures v + rj * ri * m + q * (B * (rj * ri)) == w + rj * ri * d + rj * (x * (o + ri * y))
  {
    var r := rj * ri;
    NestedTerm(rj, x, o, ri, y);
    MulDistributes(r, d, x * y);
    CarryStep(r, v, w + rj * (x * o), carry, d + x * y, q, m);
  }

  lemma NestedTerm(rj: int, x: int, v: int, ri: int, w: int)
    ensures rj * (x * (v + ri * w)) == rj * (x * v) + (rj * ri) * (x * w)
  {
  }

  lemma RowDone(was: seq<Limb>, other: seq<Limb>, now: seq<Limb>, j: nat, carry: nat, x: nat)
    requires j <= |was| == |other| == |now|
    requires var w := |was|; Val(now[..w]) + carry * Radix(w) == Val(was[..w]) + Radix(j) * (x * Val(other[..w - j]))
    ensures Val(now) == (Val(was) + Radix(j) * (x * Val(other))) % Radix(|was|)
  {
    hide Val, Radix;
    var w := |was|;
    Finished(was, other, now);
    ValSplit(other, w - j);
    RadixAdd(j, w - j);
    ValBound(now);
    RowEnd(Val(now), carry, Val(was), Radix(j), x, Val(other[..w - j]), Radix(w - j), Val(other[w - j..]));
  }

  lemma RowEnd(now: nat, carry: nat, was: nat, rj: nat, x: nat, lo: nat, rw: nat, rest: nat)
    requires now < rj * rw && now + carry * (rj * rw) == was + rj * (x * lo)
    ensures now == (was + rj * (x * (lo + rw * rest))) % (rj * rw)
  {
    NestedTerm(rj, x, lo, rw, rest);
    MulDistributes(rj * rw, carry, x * rest);
    Truncated(now, carry + x * rest, rj * rw, was + rj * (x * (lo + rw * rest)));
  }

  lemma ProductRow(v: int, y: int, r: int, x: int, m: nat)
    requires m > 0
    ensures (v * y % m + r * (x * y)) % m == (v + r * x) * y % m
  {
    SumMod(r * (x * y), v * y, m);
    assert (v + r * x) * y == v * y + r * (x * y);
  }

  lemma ZeroProduct(y: int, m: nat)
    requires m > 0
    ensures 0 * y % m == 0
  {
    DivModUnique(0, m, 0, 0);
  }

  // ------------------------------------------------------------------------ shifts

  /** `x << n` and `x >> n` on 32 bits. */
  function Shl(x: Limb, n: nat): Limb {
    x * Pow2(n) % B
  }

  function Shr(x: Limb, n: nat): Limb {
    ShrBound(x, Pow2(n));
    x / Pow2(n)
  }

  lemma ShrBound(x: Limb, d: nat)
    requires d > 0
    ensures 0 <= x / d < B
  {
    MulMonotone(1, d, B);
    ShiftedDown(x, d, B);
  }

  /** The bits of `x << s` that move to the next limb. */
  function High(x: Limb, s: nat): Limb
    requires s < 32
  {
    if s == 0 then 0 else Shr(x, 32 - s)
  }

  lemma SplitLimb(s: nat)
    requires s <= 32
    ensures Pow2(s) * Pow2(32 - s) == B
  {
    Pow2Add(s, 32 - s);
    Pow2Limb();
  }

  lemma HighLow(x: nat, s: nat)
    requires x < B && s < 32
    ensures x * Pow2(s) == Shl(x, s) + B * High(x, s)
  {
    hide Pow2;
    SplitLimb(s);
    ScaledDiv(x, Pow2(32 - s), Pow2(s), B);
    if s == 0 {
      Pow2Limb();
      DivModUnique(x, B, 0, x);
    }
  }

  /** Scaling both sides scales the remainder and keeps the quotient. */
  lemma ScaledDiv(x: nat, d: nat, e: nat, m: nat)
    requires d > 0 && e > 0 && d * e == m
    ensures m > 0 && x * e / m == x / d && x * e % m == (x % d) * e
  {
    MulStrict(0, d, e);
    var q, r := x / d, x % d;
    assert x == q * d + r;
    assert (q * d + r) * e == q * (d * e) + r * e;
    Disjoint(r, d, e, 0);
    DivModUnique(x * e, m, q, r * e);
  }

  /** The shifted limb and the bits coming from the limb below do not overlap. */
  lemma OrLow(below: Limb, x: Limb, s: nat)
    requires s < 32
    ensures BitOr(High(below, s), Shl(x, s)) == High(below, s) + Shl(x, s) < B
    ensures BitOr(0, Shl(x, s)) == Shl(x, s)
    ensures BitOr(0, High(x, s)) == High(x, s)
  {
    hide BitOr, Shl, Shr;
    BitOrZero(Shl(x, s));
    BitOrZero(High(x, s));
    if s != 0 {
      OrShifted(below, x, s);
    }
  }

  lemma OrShifted(below: nat, x: nat, s: nat)
    requires 0 < s < 32 && below < B && x < B
    ensures BitOr(Shr(below, 32 - s), Shl(x, s)) == Shr(below, 32 - s) + Shl(x, s) < B
  {
    hide Pow2, BitOr, Shl, Shr;
    SplitLimb(s);
    ShrIs(below, 32 - s);
    ShiftedDown(below, Pow2(32 - s), Pow2(s));
    ShlIsMultiple(x, s);
    OrApart(below / Pow2(32 - s), x % Pow2(32 - s), s);
  }

  lemma ShrIs(x: nat, n: nat)
    requires x < B
    ensures Shr(x, n) == x / Pow2(n)
  {
  }

  lemma OrApart(low: nat, high: nat, s: nat)
    requires s <= 32 && low < Pow2(s) && high < Pow2(32 - s)
    ensures BitOr(low, high * Pow2(s)) == low + high * Pow2(s) < B
  {
    hide Pow2, BitOr;
    SplitLimb(s);
    BitOrIsSum(high, low, s);
    Disjoint(high, Pow2(32 - s), Pow2(s), low);
  }

  lemma ShlIsMultiple(x: nat, s: nat)
    requires x < B && s <= 32
    ensures Shl(x, s) == (x % Pow2(32 - s)) * Pow2(s)
  {
    hide Pow2;
    SplitLimb(s);
    ScaledDiv(x, Pow2(32 - s), Pow2(s), B);
  }

  lemma Disjoint(x: nat, d: nat, e: nat, y: nat)
    requires x < d && y < e
    ensures x * e + y < d * e
  {
    MulMonotone(x + 1, d, e);
    assert (x + 1) * e == x * e + e;
  }

  lemma ShiftedDown(x: nat, d: nat, e: nat)
    requires d > 0 && x < e * d
    ensures x / d < e
  {
    if x / d >= e {
      MulMonotone(e, x / d, d);
      assert false;
    }
  }

  /** Limb `c` after `i` steps of a left shift by `32 * k + s`. */
  ghost function Left(x: seq<Limb>, k: nat, s: nat, i: nat, c: nat): nat
    requires i <= |x| && s < 32
  {
    (if k <= c < k + i then Shl(x[c - k], s) else 0) + (if k < c <= k + i then High(x[c - k - 1], s) else 0)
  }

  lemma NothingLeft(x: seq<Limb>, k: nat, s: nat)
    requires s < 32
    ensures forall c: nat :: Left(x, k, s, 0, c) == 0
  {
  }

  lemma LeftStep(x: seq<Limb>, k: nat, s: nat, i: nat)
    requires i < |x| && s < 32
    ensures forall c: nat :: c != i + k && c != i + k + 1 ==> Left(x, k, s, i + 1, c) == Left(x, k, s, i, c)
    ensures Left(x, k, s, i + 1, i + k + 1) == BitOr(Left(x, k, s, i, i + k + 1), if s == 0 then 0 else Shr(x[i], 32 - s)) < B
    ensures Left(x, k, s, i + 1, i + k) == BitOr(Left(x, k, s, i, i + k), Shl(x[i], s)) < B
    ensures s == 0 ==> Left(x, k, s, i + 1, i + k + 1) == Left(x, k, s, i, i + k + 1)
  {
    hide Pow2, BitOr, Shl, Shr;
    OrLow(if i == 0 then 0 else x[i - 1], x[i], s);
  }

  lemma {:induction false} LeftPrefix(x: seq<Limb>, k: nat, s: nat, now: seq<Limb>, j: nat)
    requires k + j <= |now| == |x| && s < 32 && forall c :: 0 <= c < |now| ==> now[c] == Left(x, k, s, |x|, c)
    ensures Radix(k) * (Pow2(s) * Val(x[..j])) == Val(now[..k + j]) + Radix(k + j) * (if j == 0 then 0 else High(x[j - 1], s))
  {
    hide Val, Pow2, High, Shl;
    if j == 0 {
      ValZero(now[..k]);
      NoLimbs(x);
      assert Radix(k) * (Pow2(s) * 0) == 0;
    } else {
      LeftPrefix(x, k, s, now, j - 1);
      ValPrefix(x, j - 1);
      ValPrefix(now, k + j - 1);
      RadixAdd(k, j - 1);
      var carry := if j == 1 then 0 else High(x[j - 2], s);
      HighLow(x[j - 1], s);
      LeftTerm(Radix(k), Pow2(s), Val(x[..j - 1]), Radix(j - 1), x[j - 1], Val(now[..k + j - 1]), carry,
               Shl(x[j - 1], s), High(x[j - 1], s));
    }
  }

  lemma LeftTerm(rk: nat, p: nat, v: nat, rj: nat, x: nat, now: nat, carry: nat, low: nat, high: nat)
    requires rk * (p * v) == now + rk * rj * carry && x * p == low + B * high
    ensures rk * (p * (v + rj * x)) == now + rk * rj * (low + carry) + B * (rk * rj) * high
  {
    assert rk * (p * (v + rj * x)) == rk * (p * v) + rk * rj * (x * p);
    assert rk * rj * (low + B * high) == rk * rj * low + B * (rk * rj) * high;
    MulDistributes(rk * rj, low, carry);
  }

  lemma LeftVal(x: seq<Limb>, k: nat, s: nat, now: seq<Limb>)
    requires |now| == |x| && s < 32 && forall c :: 0 <= c < |now| ==> now[c] == Left(x, k, s, |x|, c)
    ensures Val(now) == Val(x) * Pow2(32 * k + s) % Radix(|x|)
  {
    hide Val, Radix, Pow2, High, Shl;
    var w := |x|;
    RadixIsPow2(k);
    Pow2Add(32 * k, s);
    ValBound(now);
    if k >= w {
      ValZero(now);
      RadixAdd(w, k - w);
      WholeShift(Val(x), Radix(w), Radix(k - w), Pow2(s));
    } else {
      var j := w - k;
      LeftPrefix(x, k, s, now, j);
      Finished(now, now, now);
      ValSplit(x, j);
      RadixAdd(k, j);
      LeftEnd(Radix(k), Pow2(s), Val(x[..j]), Radix(j), Val(x[j..]), Val(now), High(x[j - 1], s));
    }
  }

  lemma WholeShift(x: nat, m: nat, r: nat, p: nat)
    requires m > 0
    ensures x * (m * r * p) % m == 0
  {
    assert x * (m * r * p) == (x * r * p) * m + 0;
    DivModUnique(x * (m * r * p), m, x * r * p, 0);
  }

  lemma LeftEnd(rk: nat, p: nat, lo: nat, rj: nat, hi: nat, now: nat, carry: nat)
    requires rk * (p * lo) == now + rk * rj * carry && now < rk * rj
    ensures now == (lo + rj * hi) * (rk * p) % (rk * rj)
  {
    assert (lo + rj * hi) * (rk * p) == rk * (p * lo) + rk * rj * (p * hi);
    MulDistributes(rk * rj, carry, p * hi);
    Truncated(now, carry + p * hi, rk * rj, (lo + rj * hi) * (rk * p));
  }

  /** Limb `c` after `i` steps of a right shift by `32 * k + s`. */
  ghost function Right(x: seq<Limb>, k: nat, s: nat, i: nat, c: nat): nat
    requires i <= |x| && s < 32
  {
    (if c + k < i then Shr(x[c + k], s) else 0) + (if c + k + 1 < i && s != 0 then Shl(x[c + k + 1], 32 - s) else 0)
  }

  lemma NothingRight(x: seq<Limb>, k: nat, s: nat)
    requires s < 32
    ensures forall c: nat :: Right(x, k, s, 0, c) == 0
  {
  }

  /** The bits shifted down from the limb above fall on free places. */
  lemma OrHigh(x: nat, above: nat, s: nat)
    requires 0 < s < 32 && x < B && above < B
    ensures BitOr(Shr(x, s), Shl(above, 32 - s)) == Shr(x, s) + Shl(above, 32 - s) < B
  {
    hide Pow2, BitOr, Shl, Shr;
    SplitLimb(s);
    ShrIs(x, s);
    ShiftedDown(x, Pow2(s), Pow2(32 - s));
    ShlIsMultiple(above, 32 - s);
    OrApart(x / Pow2(s), above % Pow2(s), 32 - s);
  }

  lemma RightStep(x: seq<Limb>, k: nat, s: nat, i: nat)
    requires i < |x| && s < 32
    ensures forall c: nat :: c != i - k && c != i - k - 1 ==> Right(x, k, s, i + 1, c) == Right(x, k, s, i, c)
    ensures i - k - 1 >= 0 && s != 0 ==> Right(x, k, s, i + 1, i - k - 1) == BitOr(Right(x, k, s, i, i - k - 1), Shl(x[i], 32 - s)) < B
    ensures i - k - 1 >= 0 && s == 0 ==> Right(x, k, s, i + 1, i - k - 1) == Right(x, k, s, i, i - k - 1)
    ensures i - k >= 0 ==> Right(x, k, s, i + 1, i - k) == BitOr(Right(x, k, s, i, i - k), Shr(x[i], s)) < B
  {
    hide Pow2, BitOr, Shl, Shr;
    BitOrZero(Shr(x[i], s));
    if s != 0 {
      OrHigh(if i == 0 then 0 else x[i - 1], x[i], s);
    }
  }

  lemma {:induction false} RightSuffix(x: seq<Limb>, k: nat, s: nat, now: seq<Limb>, c: nat)
    requires c <= |now| == |x| && s < 32 && forall c :: 0 <= c < |now| ==> now[c] == Right(x, k, s, |x|, c)
    ensures Val(now[c..]) == if c + k <= |x| then Val(x[c + k..]) / Pow2(s) else 0
    decreases |x| - c
  {
    hide Pow2, Shl, Shr, Val;
    if c + k >= |x| {
      ValZero(now[c..]);
      DivModUnique(0, Pow2(s), 0, 0);
      ValZero(x[|x|..]);
    } else {
      RightSuffix(x, k, s, now, c + 1);
      assert now[c..][1..] == now[c + 1..] && x[c + k..][1..] == x[c + k + 1..];
      FirstLimb(now[c..]);
      RightLimb(x[c + k..], s);
    }
  }

  /** The first limb of a right shift and the rest of it. */
  lemma RightLimb(x: seq<Limb>, s: nat)
    requires x != [] && s < 32
    ensures Val(x) / Pow2(s) == Shr(x[0], s) + (if |x| > 1 && s != 0 then Shl(x[1], 32 - s) else 0) + B * (Val(x[1..]) / Pow2(s))
  {
    hide Pow2, Shl, Val;
    var rest, d, e := x[1..], Pow2(s), Pow2(32 - s);
    SplitLimb(s);
    ShlIsMultiple(if |x| > 1 then x[1] else 0, 32 - s);
    assert s == 0 ==> d == 1 by {
      Pow2Zero();
    }
    FirstLimb(x);
    LowBits(rest, d, e);
    RightTerm(x[0], Val(rest), d, e);
  }

  lemma Pow2Zero()
    ensures Pow2(0) == 1
  {
  }

  /** The bits below a divisor of the limb size are those of the first limb. */
  lemma LowBits(x: seq<Limb>, d: nat, e: nat)
    requires d * e == B
    ensures d > 0 && Val(x) % d == if x == [] then 0 else x[0] % d
    ensures d == 1 ==> Val(x) % d == 0
  {
    if x == [] {
      DivModUnique(0, d, 0, 0);
    } else {
      assert B * Val(x[1..]) == (e * Val(x[1..])) * d;
      ModPlusMultiple(x[0], d, e * Val(x[1..]));
    }
  }

  lemma RightTerm(x: nat, rest: nat, d: nat, e: nat)
    requires d > 0 && d * e == B
    ensures (x + B * rest) / d == x / d + (rest % d) * e + B * (rest / d)
  {
    var q, r := rest / d, rest % d;
    assert B * rest == (e * rest) * d;
    DivPlusMultiple(x, d, e * rest);
    assert e * (q * d + r) == (d * e) * q + r * e;
  }

  lemma RightVal(x: seq<Limb>, k: nat, s: nat, now: seq<Limb>)
    requires |now| == |x| && s < 32 && forall c :: 0 <= c < |now| ==> now[c] == Right(x, k, s, |x|, c)
    ensures Val(now) == Val(x) / Pow2(32 * k + s)
  {
    hide Val, Radix, Pow2;
    RadixIsPow2(k);
    Pow2Add(32 * k, s);
    DivDiv(Val(x), Radix(k), Pow2(s));
    RightSuffix(x, k, s, now, 0);
    assert now[0..] == now;
    if k <= |x| {
      ValSplit(x, k);
      ValBound(x[..k]);
      DivModUnique(Val(x), Radix(k), Val(x[k..]), Val(x[..k]));
    } else {
      ValBound(x);
      RadixIsPow2(|x|);
      Pow2Monotone(32 * |x|, 32 * k);
      DivModUnique(Val(x), Radix(k), 0, Val(x));
      DivModUnique(0, Pow2(s), 0, 0);
    }
  }

  // ------------------------------------------------------------- comparison and division

  lemma Pow2Next(n: nat)
    ensures Pow2(n + 1) == 2 * Pow2(n)
  {
  }

  lemma TopBit(x: nat, p: nat)
    requires p > 0 && x < 2 * p
    ensures x / p % 2 == 1 <==> x >= p
  {
    if x >= p {
      DivModUnique(x, p, 1, x - p);
    } else {
      DivModUnique(x, p, 0, x);
    }
  }

  lemma OneLimb(s: seq<Limb>)
    requires |s| > 0 && forall j :: 1 <= j < |s| ==> s[j] == 0
    ensures Val(s) == s[0]
  {
    ValZero(s[1..]);
  }

  lemma TopLimb(s: seq<Limb>, pos: nat, t: nat)
    requires pos < |s| && (forall j :: pos < j < |s| ==> s[j] == 0) && t < 32 && Pow2(t) <= s[pos] < Pow2(t + 1)
    ensures HasBits(Val(s), 32 * pos + t + 1)
  {
    hide Val, Radix, Pow2;
    ValSplit(s, pos);
    OneLimb(s[pos..]);
    ValBound(s[..pos]);
    RadixIsPow2(pos);
    Pow2Add(32 * pos, t);
    Pow2Add(32 * pos, t + 1);
    ScaledBounds(Radix(pos), Val(s[..pos]), s[pos], Pow2(t), Pow2(t + 1));
  }

  lemma ScaledBounds(r: nat, lo: nat, x: nat, p: nat, q: nat)
    requires lo < r && p <= x < q
    ensures r * p <= lo + r * x < r * q
  {
    MulMonotone(p, x, r);
    MulMonotone(x + 1, q, r);
    assert (x + 1) * r == r * x + r;
  }

  lemma LessAt(a: seq<Limb>, b: seq<Limb>, i: nat)
    requires i < |a| == |b| && a[i] < b[i] && a[i + 1..] == b[i + 1..]
    ensures Val(a) < Val(b)
  {
    hide Val, Radix;
    ValSplit(a, i);
    ValSplit(b, i);
    ValBound(a[..i]);
    FirstLimb(a[i..]);
    FirstLimb(b[i..]);
    assert a[i..][1..] == b[i..][1..];
    ScaledBounds(Radix(i), Val(a[..i]), Val(a[i..]), Val(a[i..]), Val(b[i..]));
  }

  lemma TwoLimbs(s: seq<Limb>)
    requires |s| >= 2 && forall j :: 2 <= j < |s| ==> s[j] == 0
    ensures Val(s) == s[0] + B * s[1]
  {
    OneLimb(s[1..]);
  }

  lemma NotSmall(s: seq<Limb>, i: nat)
    requires 2 <= i < |s| && s[i] != 0
    ensures Val(s) >= B * B
  {
    ValSplit(s, i);
    assert Val(s[i..]) >= s[i..][0] > 0;
    RadixAdd(2, i - 2);
    MulMonotone(1, Radix(i - 2), B * B);
    assert Radix(2) == B * Radix(1) == B * (B * Radix(0));
    MulMonotone(1, Val(s[i..]), Radix(i));
  }

  lemma LowLimbs(s: seq<Limb>)
    requires |s| >= 2
    ensures Val(s) % (B * B) == s[0] + B * s[1]
  {
    assert Val(s) == s[0] + B * (s[1..][0] + B * Val(s[1..][1..]));
    DivModUnique(Val(s), B * B, Val(s[1..][1..]), s[0] + B * s[1]);
  }

  /** A limb that starts a multiple of `2^(32 i + t + 1)` has its bits up to `t` clear. */
  lemma ClearBit(s: seq<Limb>, i: nat, t: nat, q: nat)
    requires i < |s| && t < 32 && Val(s) == q * Pow2(32 * i + t + 1)
    ensures BitOr(s[i], Shl(1, t)) == s[i] + Pow2(t) < B
    ensures Val(s[i := s[i] + Pow2(t)]) == Val(s) + Pow2(32 * i + t)
  {
    hide Radix, Pow2, BitOr, Val;
    var p, e := Pow2(t + 1), Pow2(31 - t);
    ValSplit(s, i);
    RadixIsPow2(i);
    Pow2Add(32 * i, t + 1);
    Pow2Add(32 * i, t);
    SplitLimb(t + 1);
    ValBound(s[..i]);
    FirstLimb(s[i..]);
    AlignedLimb(Radix(i), Val(s[..i]), Val(s[i..]), q, p);
    var rest := Val(s[i..][1..]);
    LimbMultiple(s[i], rest, q, p, e);
    var y := q - e * rest;
    Pow2Next(t);
    BitOrIsSum(y, Pow2(t), t + 1);
    OneShifted(t);
    TopHalf(y, p, e, Pow2(t));
    BumpLimb(s, i, Pow2(t));
  }

  lemma FirstLimb(s: seq<Limb>)
    requires s != []
    ensures Val(s) == s[0] + B * Val(s[1..])
  {
  }

  lemma AlignedLimb(r: nat, lo: nat, hi: nat, q: nat, p: nat)
    requires lo < r && lo + r * hi == q * (r * p)
    ensures lo == 0 && hi == q * p
  {
    DivModUnique(lo + r * hi, r, hi, lo);
    DivModUnique(q * (r * p), r, q * p, 0);
  }

  lemma LimbMultiple(x: nat, rest: nat, q: nat, p: nat, e: nat)
    requires x + B * rest == q * p && p * e == B && p > 0
    ensures x == (q - e * rest) * p && q - e * rest >= 0
  {
    assert (q - e * rest) * p == q * p - (p * e) * rest;
    if q - e * rest < 0 {
      MulStrict(q - e * rest, 0, p);
      assert false;
    }
  }

  lemma OneShifted(t: nat)
    requires t < 32
    ensures Shl(1, t) == Pow2(t)
  {
    Pow2Limb();
    Pow2Strict(t, 32);
    DivModUnique(Pow2(t), B, 0, Pow2(t));
  }

  lemma TopHalf(y: nat, p: nat, e: nat, h: nat)
    requires y * p < B && p * e == B && h < p
    ensures y * p + h < B
  {
    if y >= e {
      MulMonotone(e, y, p);
      assert false;
    }
    Disjoint(y, e, p, h);
  }

  lemma BumpLimb(s: seq<Limb>, i: nat, x: nat)
    requires i < |s| && s[i] + x < B
    ensures Val(s[i := s[i] + x]) == Val(s) + Radix(i) * x
  {
    var s' := s[i := s[i] + x];
    ValSplit(s, i);
    ValSplit(s', i);
    assert s'[..i] == s[..i] && s'[i..][1..] == s[i..][1..];
    MulDistributes(Radix(i), Val(s[i..]), x);
  }

  /** Aligning the divisor with the dividend loses nothing and leaves less than two divisors. */
  lemma DivStart(n: nat, d: nat, numBits: nat, divBits: nat, width: nat)
    requires HasBits(n, numBits) && HasBits(d, divBits) && divBits > 0 && numBits <= 32 * width
    ensures d > 0
    ensures divBits > numBits ==> n / d == 0
    ensures divBits <= numBits ==>
              var shift := numBits - divBits;
              d * Pow2(shift) % Radix(width) == d * Pow2(shift) && Dividing(n, d, 0, n, Pow2(shift + 1)) && 0 * Pow2(shift + 1) == 0
  {
    hide Pow2, Radix;
    if divBits > numBits {
      Pow2Monotone(numBits, divBits - 1);
      DivModUnique(n, d, 0, n);
    } else {
      var shift := numBits - divBits;
      Pow2Add(divBits, shift);
      Pow2Add(divBits - 1, shift + 1);
      MulStrict(d, Pow2(divBits), Pow2(shift));
      MulMonotone(Pow2(divBits - 1), d, Pow2(shift + 1));
      RadixIsPow2(width);
      Pow2Monotone(numBits, 32 * width);
      DivModUnique(d * Pow2(shift), Radix(width), 0, d * Pow2(shift));
    }
  }

  /** `q * p` is the quotient so far, and what remains is less than `p` divisors. */
  ghost predicate Dividing(n: nat, d: nat, q: nat, r: nat, p: nat) {
    n == q * p * d + r && r < d * p
  }

  /** One more quotient bit. */
  lemma DivStep(n: nat, d: nat, p: nat, q: nat, r: nat)
    requires Dividing(n, d, q, r, 2 * p)
    ensures r < d * p ==> Dividing(n, d, 2 * q, r, p) && (2 * q) * p == q * (2 * p)
    ensures r >= d * p ==> Dividing(n, d, 2 * q + 1, r - d * p, p) && (2 * q + 1) * p == q * (2 * p) + p
  {
    assert q * (2 * p) == (2 * q) * p;
    assert (2 * q + 1) * p == (2 * q) * p + p;
    assert ((2 * q) * p + p) * d == (2 * q) * p * d + d * p;
    assert d * (2 * p) == 2 * (d * p);
  }

  lemma DivEnd(n: nat, d: nat, q: nat, r: nat)
    requires d > 0 && Dividing(n, d, q, r, Pow2(0))
    ensures n / d == q && q * Pow2(0) == q
  {
    DivModUnique(n, d, q, r);
  }

  lemma HalfShift(d: nat, shift: nat)
    ensures Pow2(1) == 2
    ensures shift > 0 ==> d * Pow2(shift) / 2 == d * Pow2(shift - 1)
  {
    if shift > 0 {
      assert d * Pow2(shift) == (d * Pow2(shift - 1)) * 2 + 0;
      DivModUnique(d * Pow2(shift), 2, d * Pow2(shift - 1), 0);
    }
  }

  /** Three times itself, in place, on eight limbs. */
  method SquareExample() returns (zero: bool)
    ensures zero
  {
    var x := new BaseUint(8);
    x.AssignU64(3);
    x.Mul(x);
    zero := x.IsZero();
  }
}
