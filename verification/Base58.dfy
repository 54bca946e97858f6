/**
 Base58 strings, with and without a checksum.
 */
module Base58 {
  import opened Numbers

  type Byte = x: nat | x < 256

  // ---------------------------------------------------------------------- positional values

  function Pow(b: nat, n: nat): (r: nat)
    ensures b > 0 ==> r > 0
  {
    if n == 0 then 1 else b * Pow(b, n - 1)
  }

  lemma {:induction false} PowAdd(b: nat, m: nat, n: nat)
    ensures Pow(b, m + n) == Pow(b, m) * Pow(b, n)
  {
    if m == 0 {
      assert Pow(b, 0) * Pow(b, n) == Pow(b, n);
    } else {
      PowAdd(b, m - 1, n);
      MulAssoc(b, Pow(b, m - 1), Pow(b, n));
    }
  }

  lemma {:induction false} PowPow(b: nat, m: nat, n: nat)
    ensures m * n >= 0 && Pow(Pow(b, m), n) == Pow(b, m * n)
  {
    if n > 0 {
      PowPow(b, m, n - 1);
      assert m * n == m + m * (n - 1);
      PowAdd(b, m, m * (n - 1));
    } else {
      assert m * 0 == 0;
    }
  }

  lemma {:induction false} PowMonotone(b: nat, m: nat, n: nat)
    requires b > 0 && m <= n
    ensures Pow(b, m) <= Pow(b, n)
    decreases n - m
  {
    if m < n {
      PowMonotone(b, m + 1, n);
      MulMonotone(1, b, Pow(b, m));
    }
  }

  lemma {:induction false} BaseMonotone(x: nat, y: nat, k: nat)
    requires x <= y
    ensures Pow(x, k) <= Pow(y, k)
  {
    if k > 0 {
      BaseMonotone(x, y, k - 1);
      MulMonotone(x, y, Pow(x, k - 1));
      MulMonotone(Pow(x, k - 1), Pow(y, k - 1), y);
    }
  }

  lemma {:induction false} BaseStrict(x: nat, y: nat, k: nat)
    requires x < y && k > 0
    ensures Pow(x, k) < Pow(y, k)
  {
    BaseMonotone(x, y, k - 1);
    MulMonotone(Pow(x, k - 1), Pow(y, k - 1), x);
    MulStrict(x, y, Pow(y, k - 1));
  }

  /** Comparing a power of two numbers compares the numbers. */
  lemma RootMonotone(x: nat, y: nat, k: nat)
    requires k > 0 && Pow(x, k) <= Pow(y, k)
    ensures x <= y
  {
    if y < x {
      BaseStrict(y, x, k);
      assert false;
    }
  }

  predicate InBase(s: seq<nat>, base: nat) {
    forall i :: 0 <= i < |s| ==> s[i] < base
  }

  /** The number that digits, the most significant first, stand for. */
  function Val(s: seq<nat>, base: nat): (r: nat) {
    if s == [] then 0 else Val(s[..|s| - 1], base) * base + s[|s| - 1]
  }

  lemma {:induction false} ValConcat(a: seq<nat>, b: seq<nat>, base: nat)
    ensures Val(a + b, base) == Val(a, base) * Pow(base, |b|) + Val(b, base)
  {
    if b == [] {
      assert a + b == a && Val(a, base) * 1 == Val(a, base);
    } else {
      var n := |b| - 1;
      ValConcat(a, b[..n], base);
      assert (a + b)[..|a + b| - 1] == a + b[..n];
      Horner(Val(a, base), Pow(base, n), Val(b[..n], base), base);
    }
  }

  lemma Horner(x: nat, p: nat, v: nat, base: nat)
    ensures (x * p + v) * base == x * (base * p) + v * base
  {
  }

  lemma ValSnoc(s: seq<nat>, d: nat, base: nat)
    ensures Val(s + [d], base) == Val(s, base) * base + d
  {
    assert (s + [d])[..|s|] == s;
  }

  lemma {:induction false} ValBound(s: seq<nat>, base: nat)
    requires InBase(s, base) && base > 0
    ensures Val(s, base) < Pow(base, |s|)
  {
    if s != [] {
      var n := |s| - 1;
      ValBound(s[..n], base);
      MulMonotone(Val(s[..n], base) + 1, Pow(base, n), base);
      assert (Val(s[..n], base) + 1) * base == Val(s[..n], base) * base + base;
    }
  }

  lemma {:induction false} ValZeros(s: seq<nat>, base: nat)
    requires forall i :: 0 <= i < |s| ==> s[i] == 0
    ensures Val(s, base) == 0
  {
    if s != [] {
      ValZeros(s[..|s| - 1], base);
      assert 0 * base == 0;
    }
  }

  /** The digits of a number, without leading zeros. */
  function Digits(n: nat, base: nat): (r: seq<nat>)
    requires base >= 2
    ensures InBase(r, base)
    decreases n
  {
    if n == 0 then [] else
    DivSmaller(n, base);
    DivNonNegative(n, base);
    Digits(n / base, base) + [n % base]
  }

  lemma DivSmaller(n: nat, d: nat)
    requires n > 0 && d >= 2
    ensures n / d < n
  {
    if n / d >= n {
      MulMonotone(n, n / d, d);
      MulMonotone(2, d, n);
      assert false;
    }
  }

  lemma {:induction false} ValDigits(n: nat, base: nat)
    requires base >= 2
    ensures Val(Digits(n, base), base) == n
    ensures Digits(n, base) != [] ==> Digits(n, base)[0] != 0
    decreases n
  {
    hide Val;
    if n > 0 {
      DivSmaller(n, base);
      DivNonNegative(n, base);
      var q, r := n / base, n % base;
      ValDigits(q, base);
      ValSnoc(Digits(q, base), r, base);
      QuotientAndRest(n, base, q, r);
    } else {
      ValZeros([], base);
    }
  }

  lemma QuotientAndRest(n: nat, base: nat, q: nat, r: nat)
    requires base > 0 && q == n / base && r == n % base
    ensures q * base + r == n
  {
  }

  /** Only one digit string without leading zeros stands for a number. */
  lemma {:induction false} DigitsOfVal(s: seq<nat>, base: nat)
    requires base >= 2 && InBase(s, base) && (s != [] ==> s[0] != 0)
    ensures Digits(Val(s, base), base) == s
  {
    if s != [] {
      var n := |s| - 1;
      var v := Val(s[..n], base);
      DigitsOfVal(s[..n], base);
      DivModUnique(Val(s, base), base, v, s[n]);
      if n == 0 {
        assert Val(s, base) == s[0];
      } else {
        NonZero(s[..n], base);
        MulMonotone(1, v, base);
      }
      assert s == s[..n] + [s[n]];
    }
  }

  lemma {:induction false} NonZero(s: seq<nat>, base: nat)
    requires base > 0 && s != [] && s[0] != 0
    ensures Val(s, base) > 0
  {
    if |s| > 1 {
      NonZero(s[..|s| - 1], base);
      MulStrict(0, Val(s[..|s| - 1], base), base);
    } else {
      assert s[..0] == [];
    }
  }

  // ------------------------------------------------------------------ the buffers are big enough

  lemma Convergents()
    ensures Pow(256, 8) <= Pow(58, 11)
    ensures Pow(58, 71) <= Pow(256, 52)
  {
    hide Pow;
    Literals();
    PowAdd(58, 4, 4);
    PowAdd(58, 8, 3);
    PowAdd(58, 4, 3);
    PowAdd(58, 8, 8);
    PowAdd(58, 16, 16);
    PowAdd(58, 32, 32);
    PowAdd(58, 64, 7);
    PowAdd(256, 4, 4);
    PowAdd(256, 8, 8);
    PowAdd(256, 16, 16);
    PowAdd(256, 32, 16);
    PowAdd(256, 48, 4);
  }

  lemma Literals()
    ensures Pow(58, 4) == 11316496 && Pow(58, 3) == 195112 && Pow(256, 4) == 4294967296
  {
  }

  /** 138 base-58 digits and one hold any 100 bytes: log(256) / log(58) < 11 / 8 < 138 / 100. */
  lemma EncodeBufferFits(n: nat)
    ensures Pow(256, n) <= Pow(58, n * 138 / 100 + 1)
  {
    hide Pow;
    var s := n * 138 / 100 + 1;
    Convergents();
    PowPow(256, n, 8);
    PowPow(256, 8, n);
    BaseMonotone(Pow(256, 8), Pow(58, 11), n);
    PowPow(58, 11, n);
    PowMonotone(58, 11 * n, s * 8);
    PowPow(58, s, 8);
    RootMonotone(Pow(256, n), Pow(58, s), 8);
  }

  /** 733 bytes and one hold any 1000 base-58 digits: log(58) / log(256) < 52 / 71 < 733 / 1000. */
  lemma DecodeBufferFits(n: nat)
    ensures Pow(58, n) <= Pow(256, n * 733 / 1000 + 1)
  {
    hide Pow;
    var s := n * 733 / 1000 + 1;
    Convergents();
    PowPow(58, n, 71);
    PowPow(58, 71, n);
    BaseMonotone(Pow(58, 71), Pow(256, 52), n);
    PowPow(256, 52, n);
    PowMonotone(256, 52 * n, s * 71);
    PowPow(256, s, 71);
    RootMonotone(Pow(58, n), Pow(256, s), 71);
  }

  // -------------------------------------------------------------------------- one more digit

  lemma SuffixStep(s: seq<nat>, i: nat, base: nat)
    requires i < |s|
    ensures Val(s[|s| - i - 1..], base) == s[|s| - i - 1] * Pow(base, i) + Val(s[|s| - i..], base)
  {
    var k := |s| - i - 1;
    assert s[k..] == [s[k]] + s[k + 1..];
    ValConcat([s[k]], s[k + 1..], base);
    assert Val([s[k]], base) == s[k] by {
      assert [s[k]] == [] + [s[k]];
      ValSnoc([], s[k], base);
    }
  }

  /** One round of the carry loop. */
  lemma CarryStep(was: seq<nat>, now: seq<nat>, after: seq<nat>, i: nat, base: nat, mul: nat, ch: nat, carry: nat, n: nat)
    requires i < |was| == |now| && base > 0 && n == carry + mul * was[|was| - i - 1]
    requires after == now[|now| - i - 1 := n % base]
    requires Val(now[|now| - i..], base) + carry * Pow(base, i) == mul * Val(was[|was| - i..], base) + ch
    ensures Val(after[|now| - i - 1..], base) + n / base * Pow(base, i + 1) == mul * Val(was[|was| - i - 1..], base) + ch
  {
    hide Val;
    SuffixStep(was, i, base);
    SuffixStep(after, i, base);
    assert after[|now| - i..] == now[|now| - i..];
    CarryArith(Pow(base, i), base, n / base, n % base, n, carry, mul, was[|was| - i - 1],
               Val(now[|now| - i..], base), Val(was[|was| - i..], base), ch);
  }

  lemma CarryArith(p: nat, base: nat, q: nat, m: nat, n: nat, carry: nat, mul: nat, d: nat, v: nat, w: nat, ch: nat)
    requires n == q * base + m && n == carry + mul * d && v + carry * p == mul * w + ch
    ensures (m * p + v) + q * (base * p) == mul * (d * p + w) + ch
  {
    assert (q * base + m) * p == q * (base * p) + m * p;
    assert (carry + mul * d) * p == carry * p + mul * (d * p);
    assert mul * (d * p + w) == mul * (d * p) + mul * w;
  }

  /** `b = b * mul + ch` on a buffer whose digits above the last `length` are zero; no carry is left over. */
  method MulAdd(b: array<nat>, base: nat, mul: nat, ch: nat, length: nat) returns (length': nat)
    requires base > 0 && InBase(b[..], base) && length <= b.Length
    requires forall j :: 0 <= j < b.Length - length ==> b[j] == 0
    requires mul * Val(b[..], base) + ch < Pow(base, b.Length)
    modifies b
    ensures InBase(b[..], base) && length' <= b.Length
    ensures forall j :: 0 <= j < b.Length - length' ==> b[j] == 0
    ensures Val(b[..], base) == mul * old(Val(b[..], base)) + ch
  {
    hide Val, Pow;
    ghost var was := b[..];
    var size, carry, i := b.Length, ch, 0;
    NothingYet(was, base, mul, ch);
    while (carry != 0 || i < length) && i < size
      invariant 0 <= i <= size && 0 <= carry
      invariant InBase(b[..], base)
      invariant b[..size - i] == was[..size - i]
      invariant Val(b[..][size - i..], base) + carry * Pow(base, i) == mul * Val(was[size - i..], base) + ch
      decreases size - i
    {
      ghost var now := b[..];
      var at := size - 1 - i;
      assert b[at] == b[..size - i][at] == was[at];
      MulNonNegative(mul, b[at]);
      var n := carry + mul * b[at];
      DivNonNegative(n, base);
      b[at] := n % base;
      CarryStep(was, now, b[..], i, base, mul, ch, carry, n);
      carry := n / base;
      i := i + 1;
    }
    AllDone(was, b[..], i, base, mul, ch, carry);
    assert carry == 0;
    return i;
  }

  lemma MulNonNegative(x: nat, y: nat)
    ensures x * y >= 0
  {
  }

  lemma NothingYet(s: seq<nat>, base: nat, mul: nat, ch: nat)
    ensures Val(s[|s|..], base) + ch * Pow(base, 0) == mul * Val(s[|s|..], base) + ch
  {
    assert mul * 0 == 0;
  }

  lemma AllDone(was: seq<nat>, now: seq<nat>, i: nat, base: nat, mul: nat, ch: nat, carry: nat)
    requires i <= |was| == |now| && base > 0 && now[..|now| - i] == was[..|was| - i]
    requires Val(now[|now| - i..], base) + carry * Pow(base, i) == mul * Val(was[|was| - i..], base) + ch
    requires i == |was| || (carry == 0 && forall j :: 0 <= j < |was| - i ==> was[j] == 0)
    requires mul * Val(was, base) + ch < Pow(base, |was|)
    ensures carry == 0 && Val(now, base) == mul * Val(was, base) + ch
  {
    hide Val, Pow;
    if i == |was| {
      assert now[0..] == now && was[0..] == was;
      if carry > 0 {
        MulMonotone(1, carry, Pow(base, i));
        assert false;
      }
    } else {
      ValOfTail(now, |now| - i, base);
      ValOfTail(was, |was| - i, base);
      assert 0 * Pow(base, i) == 0;
    }
  }

  lemma ValOfTail(s: seq<nat>, n: nat, base: nat)
    requires n <= |s| && forall i :: 0 <= i < n ==> s[i] == 0
    ensures Val(s[n..], base) == Val(s, base)
  {
    hide Val;
    assert s == s[..n] + s[n..];
    ValConcat(s[..n], s[n..], base);
    ValZeros(s[..n], base);
    assert 0 * Pow(base, |s[n..]|) == 0;
  }

  // ------------------------------------------------------------------------------ the alphabet

  /** The 58 characters in order: digits and letters without `0`, `I`, `O` and `l`. */
  function Base58Char(v: nat): char
    requires v < 58
  {
    if v < 9 then '1' + v as char
    else if v < 17 then 'A' + (v - 9) as char
    else if v < 22 then 'J' + (v - 17) as char
    else if v < 33 then 'P' + (v - 22) as char
    else if v < 44 then 'a' + (v - 33) as char
    else 'm' + (v - 44) as char
  }

  /** The place of a character in the alphabet, or -1. */
  function IndexOf(c: char): int {
    if '1' <= c <= '9' then c as int - '1' as int
    else if 'A' <= c <= 'H' then c as int - 'A' as int + 9
    else if 'J' <= c <= 'N' then c as int - 'J' as int + 17
    else if 'P' <= c <= 'Z' then c as int - 'P' as int + 22
    else if 'a' <= c <= 'k' then c as int - 'a' as int + 33
    else if 'm' <= c <= 'z' then c as int - 'm' as int + 44
    else -1
  }

  /** `isspace` in the default locale. */
  predicate IsSpace(c: char) {
    c == ' ' || '\t' <= c <= '\r'
  }

  lemma CharInverse(v: nat)
    requires v < 58
    ensures IndexOf(Base58Char(v)) == v && !IsSpace(Base58Char(v))
  {
  }

  lemma IndexInverse(c: char)
    ensures IndexOf(c) == -1 || (0 <= IndexOf(c) < 58 && Base58Char(IndexOf(c)) == c)
  {
  }

  predicate AllBase58(s: string) {
    forall i :: 0 <= i < |s| ==> IndexOf(s[i]) >= 0
  }

  function Chars(v: seq<nat>): (r: string)
    requires InBase(v, 58)
    ensures |r| == |v| && forall i :: 0 <= i < |v| ==> r[i] == Base58Char(v[i])
  {
    seq(|v|, i requires 0 <= i < |v| => Base58Char(v[i]))
  }

  function Indexes(s: string): (r: seq<nat>)
    requires AllBase58(s)
    ensures |r| == |s| && InBase(r, 58) && forall i :: 0 <= i < |s| ==> r[i] == IndexOf(s[i])
  {
    seq(|s|, i requires 0 <= i < |s| => IndexOf(s[i]))
  }

  lemma CharsOfIndexes(s: string)
    requires AllBase58(s)
    ensures Chars(Indexes(s)) == s
  {
    forall i | 0 <= i < |s| ensures Chars(Indexes(s))[i] == s[i] {
      IndexInverse(s[i]);
    }
  }

  lemma IndexesOfChars(v: seq<nat>)
    requires InBase(v, 58)
    ensures AllBase58(Chars(v)) && Indexes(Chars(v)) == v
  {
    forall i | 0 <= i < |v| ensures IndexOf(Chars(v)[i]) == v[i] {
      CharInverse(v[i]);
    }
  }

  /** How many zeros the sequence starts with. */
  function Leading(s: seq<nat>): (n: nat)
    ensures n <= |s| && (forall i :: 0 <= i < n ==> s[i] == 0) && (n < |s| ==> s[n] != 0)
  {
    if s == [] || s[0] != 0 then 0 else 1 + Leading(s[1..])
  }

  lemma LeadingIs(s: seq<nat>, n: nat)
    requires n <= |s| && (forall i :: 0 <= i < n ==> s[i] == 0) && (n < |s| ==> s[n] != 0)
    ensures Leading(s) == n
  {
  }

  function Zeros(n: nat): (r: seq<nat>)
    ensures |r| == n && forall i :: 0 <= i < n ==> r[i] == 0
  {
    seq(n, _ => 0)
  }

  /** Digits in another base, one zero for each leading zero. */
  function Rebased(s: seq<nat>, from: nat, to: nat): (r: seq<nat>)
    requires to >= 2
    ensures InBase(r, to)
  {
    Zeros(Leading(s)) + Digits(Val(s, from), to)
  }

  /** Changing the base and changing it back is the identity, leading zeros included. */
  lemma RebasedBack(s: seq<nat>, from: nat, to: nat)
    requires from >= 2 && to >= 2 && InBase(s, from)
    ensures Rebased(Rebased(s, from, to), to, from) == s
  {
    hide Val, Digits;
    var n := Leading(s);
    var tail, d := s[n..], Digits(Val(s, from), to);
    assert s == s[..n] + tail;
    ValConcat(s[..n], tail, from);
    ValZeros(s[..n], from);
    assert 0 * Pow(from, |tail|) == 0;
    ValDigits(Val(s, from), to);
    LeadingIs(Zeros(n) + d, n);
    ValConcat(Zeros(n), d, to);
    ValZeros(Zeros(n), to);
    assert 0 * Pow(to, |d|) == 0;
    DigitsOfVal(tail, from);
    assert s[..n] == Zeros(n);
  }

  /** The Base58 form of a byte string. */
  function Encoded(b: seq<Byte>): string {
    Chars(Rebased(b, 256, 58))
  }

  function Decoded(s: string): (r: seq<Byte>)
    requires AllBase58(s)
  {
    ToBytes(Rebased(Indexes(s), 58, 256))
  }

  function ToBytes(s: seq<nat>): (r: seq<Byte>)
    requires InBase(s, 256)
    ensures r == s
  {
    seq(|s|, i requires 0 <= i < |s| => s[i])
  }

  /** Encoding is a bijection between byte strings and strings over the alphabet. */
  lemma DecodedEncoded(b: seq<Byte>)
    ensures AllBase58(Encoded(b)) && Decoded(Encoded(b)) == b
  {
    hide Rebased;
    IndexesOfChars(Rebased(b, 256, 58));
    RebasedBack(b, 256, 58);
  }

  lemma EncodedDecoded(s: string)
    requires AllBase58(s)
    ensures Encoded(Decoded(s)) == s
  {
    hide Rebased;
    RebasedBack(Indexes(s), 58, 256);
    CharsOfIndexes(s);
  }

  // -------------------------------------------------------------------------------- encoding

  /** Where the digits in a buffer start, and that they are the digits of its value. */
  lemma BufferDigits(b: seq<nat>, k: nat, base: nat)
    requires base >= 2 && InBase(b, base) && k <= |b| && (forall i :: 0 <= i < k ==> b[i] == 0) && (k < |b| ==> b[k] != 0)
    ensures Digits(Val(b, base), base) == b[k..]
  {
    hide Val, Digits;
    assert b == b[..k] + b[k..];
    ValConcat(b[..k], b[k..], base);
    ValZeros(b[..k], base);
    assert 0 * Pow(base, |b[k..]|) == 0;
    DigitsOfVal(b[k..], base);
  }

  lemma FitsSoFar(s: seq<nat>, k: nat, from: nat, to: nat, size: nat)
    requires k < |s| && InBase(s, from) && from > 0 && Pow(from, |s|) <= Pow(to, size)
    ensures from * Val(s[..k], from) + s[k] == Val(s[..k + 1], from) < Pow(to, size)
  {
    hide Pow;
    ValSnoc(s[..k], s[k], from);
    assert s[..k + 1] == s[..k] + [s[k]];
    ValBound(s[..k + 1], from);
    PowMonotone(from, k + 1, |s|);
  }

  lemma NewBuffer(b: seq<nat>, base: nat)
    requires base > 0 && forall i :: 0 <= i < |b| ==> b[i] == 0
    ensures InBase(b, base) && Val(b, base) == Val([], base)
  {
    ValZeros(b, base);
  }

  /** Skips the zeros at the front of a buffer. */
  method SkipZeros(b: array<nat>, from: nat) returns (it: nat)
    requires from <= b.Length && forall j :: 0 <= j < from ==> b[j] == 0
    ensures it <= b.Length && (forall j :: 0 <= j < it ==> b[j] == 0) && (it < b.Length ==> b[it] != 0)
  {
    it := from;
    while it < b.Length && b[it] == 0
      invariant from <= it <= b.Length && forall j :: 0 <= j < it ==> b[j] == 0
    {
      it := it + 1;
    }
  }

  /** Both `assert(carry == 0)` hold for input of any length. */
  method EncodeBase58(vch: seq<Byte>) returns (str: string)
    ensures str == Encoded(vch)
  {
    hide Val, Pow, Digits;
    var zeroes := 0;
    while zeroes < |vch| && vch[zeroes] == 0
      invariant zeroes <= |vch| && forall i :: 0 <= i < zeroes ==> vch[i] == 0
    {
      zeroes := zeroes + 1;
    }
    LeadingIs(vch, zeroes);
    ghost var tail: seq<nat> := vch[zeroes..];
    ValOfTail(vch, zeroes, 256);
    var size, length: nat := (|vch| - zeroes) * 138 / 100 + 1, 0;
    EncodeBufferFits(|vch| - zeroes);
    var b58 := new nat[size](_ => 0);
    NewBuffer(b58[..], 58);
    SameEmpty(tail);
    for k := 0 to |vch| - zeroes
      invariant InBase(b58[..], 58) && length <= size && Val(b58[..], 58) == Val(tail[..k], 256)
      invariant forall j :: 0 <= j < size - length ==> b58[j] == 0
    {
      FitsSoFar(tail, k, 256, 58, size);
      length := MulAdd(b58, 58, 256, vch[zeroes + k], length);
    }
    assert tail[..|tail|] == tail;
    var it := SkipZeros(b58, size - length);
    BufferDigits(b58[..], it, 58);
    str := Translate(zeroes, b58, it);
  }

  /** Ones for the leading zeros, then the digits of the buffer as characters. */
  method Translate(zeroes: nat, b58: array<nat>, it: nat) returns (str: string)
    requires it <= b58.Length && InBase(b58[..], 58)
    ensures str == Chars(Zeros(zeroes) + b58[it..])
  {
    hide Base58Char;
    str := seq(zeroes, _ => '1');
    for j := it to b58.Length
      invariant str == seq(zeroes, _ => '1') + Chars(b58[it..])[..j - it]
    {
      str := str + [Base58Char(b58[j])];
    }
    OnesAreZeros(zeroes, b58[it..]);
  }

  lemma SameEmpty(s: seq<nat>)
    ensures Val([], 58) == Val([], 256) == 0 && s[..0] == []
  {
  }

  lemma OnesAreZeros(n: nat, d: seq<nat>)
    requires InBase(d, 58)
    ensures seq(n, _ => '1') + Chars(d)[..|d|] == Chars(Zeros(n) + d)
  {
  }

  // -------------------------------------------------------------------------------- decoding

  predicate Spaces(s: string) {
    forall i :: 0 <= i < |s| ==> IsSpace(s[i])
  }

  /** Alphabet characters with nothing but spaces around them. */
  ghost predicate Spaced(s: string, lead: string, core: string, trail: string) {
    s == lead + core + trail && Spaces(lead) && AllBase58(core) && Spaces(trail)
  }

  ghost predicate IsSpaced(s: string) {
    exists lead, core, trail :: Spaced(s, lead, core, trail)
  }

  /** The bytes stand for the alphabet characters of a spaced string, whichever way it is split. */
  ghost predicate StandsFor(s: string, vch: seq<Byte>) {
    forall lead, core, trail :: Spaced(s, lead, core, trail) ==> vch == Decoded(core)
  }

  lemma NoSpaces(s: string, i: nat)
    requires AllBase58(s) && i < |s|
    ensures !IsSpace(s[i])
  {
  }

  /** A character that is neither a space nor in the alphabet spoils the string. */
  lemma BadCharacter(s: string, p: nat)
    requires p < |s| && !IsSpace(s[p]) && IndexOf(s[p]) < 0
    ensures forall lead, core, trail :: !Spaced(s, lead, core, trail)
  {
    forall lead, core, trail ensures !Spaced(s, lead, core, trail) {
      if Spaced(s, lead, core, trail) {
        InCore(s, lead, core, trail, p);
        assert false;
      }
    }
  }

  lemma InCore(s: string, lead: string, core: string, trail: string, p: nat)
    requires Spaced(s, lead, core, trail) && p < |s| && !IsSpace(s[p])
    ensures |lead| <= p < |lead| + |core| && s[p] == core[p - |lead|] && IndexOf(s[p]) >= 0
  {
    PartAt(s, lead, core, trail, p);
  }

  lemma PartAt(s: string, lead: string, core: string, trail: string, p: nat)
    requires s == lead + core + trail && p < |s|
    ensures s[p] == if p < |lead| then lead[p] else if p < |lead| + |core| then core[p - |lead|] else trail[p - |lead| - |core|]
  {
  }

  /** A space between two other characters spoils the string. */
  lemma SplitCore(s: string, r: nat, q: nat, p: nat)
    requires r < q < p < |s| && !IsSpace(s[r]) && IsSpace(s[q]) && !IsSpace(s[p])
    ensures forall lead, core, trail :: !Spaced(s, lead, core, trail)
  {
    forall lead, core, trail ensures !Spaced(s, lead, core, trail) {
      if Spaced(s, lead, core, trail) {
        InCore(s, lead, core, trail, r);
        InCore(s, lead, core, trail, p);
        SpaceInCore(s, lead, core, trail, q);
        assert false;
      }
    }
  }

  lemma SpaceInCore(s: string, lead: string, core: string, trail: string, q: nat)
    requires Spaced(s, lead, core, trail) && |lead| <= q < |lead| + |core|
    ensures !IsSpace(s[q])
  {
    assert s[q] == core[q - |lead|];
    NoSpaces(core, q - |lead|);
  }

  /** Steps over spaces. */
  method SkipSpaces(s: string, from: nat) returns (p: nat)
    requires from <= |s|
    ensures from <= p <= |s| && (forall i :: from <= i < p ==> IsSpace(s[i])) && (p < |s| ==> !IsSpace(s[p]))
  {
    p := from;
    while p < |s| && IsSpace(s[p])
      invariant from <= p <= |s| && forall i :: from <= i < p ==> IsSpace(s[i])
    {
      p := p + 1;
    }
  }

  /** Decodes the characters between spaces, if they are all in the alphabet and nothing else follows. */
  method DecodeBase58(psz: string) returns (ok: bool, vch: seq<Byte>)
    ensures ok == IsSpaced(psz) && (ok ==> StandsFor(psz, vch))
  {
    hide Val, Pow, Digits, Decoded, IsSpace, IndexOf;
    vch := [];
    var start := SkipSpaces(psz, 0);
    var p, zeroes := start, 0;
    OneIsZero();
    while p < |psz| && psz[p] == '1'
      invariant start <= p <= |psz| && zeroes == p - start
      invariant forall i :: start <= i < p ==> psz[i] == '1'
    {
      zeroes := zeroes + 1;
      p := p + 1;
    }
    ghost var body := p;
    var size, length: nat := (|psz| - p) * 733 / 1000 + 1, 0;
    DecodeBufferFits(|psz| - p);
    var b256 := new nat[size](_ => 0);
    NewBuffer(b256[..], 256);
    ghost var digits: seq<nat> := [];
    SameEmpty(digits);
    while p < |psz| && !IsSpace(psz[p])
      invariant body <= p <= |psz| && |digits| == p - body && InBase(digits, 58)
      invariant forall i :: 0 <= i < |digits| ==> IndexOf(psz[body + i]) == digits[i]
      invariant InBase(b256[..], 256) && length <= size && Val(b256[..], 256) == Val(digits, 58)
      invariant forall j :: 0 <= j < size - length ==> b256[j] == 0
    {
      var ch := IndexOf(psz[p]);
      IndexInverse(psz[p]);
      if ch == -1 {
        BadCharacter(psz, p);
        return false, vch;
      }
      OneMoreDigit(digits, ch, |psz| - body, size);
      length := MulAdd(b256, 256, 58, ch, length);
      digits := digits + [ch];
      p := p + 1;
    }
    ghost var end := p;
    p := SkipSpaces(psz, p);
    if p != |psz| {
      assert !IsSpace(psz[start]);
      SplitCore(psz, start, end, p);
      return false, vch;
    }
    var it := SkipZeros(b256, size - length);
    BufferDigits(b256[..], it, 256);
    vch := seq(zeroes, _ => 0);
    for j := it to size
      invariant vch == Zeros(zeroes) + b256[it..j]
    {
      vch := vch + [b256[j]];
    }
    assert b256[it..size] == b256[it..];
    CoreDecodes(psz, start, body, end, digits, vch);
    ok := true;
  }

  lemma OneIsZero()
    ensures IndexOf('1') == 0 && !IsSpace('1')
    ensures forall c: char :: IndexOf(c) == 0 ==> c == '1'
  {
  }

  lemma OneMoreDigit(d: seq<nat>, ch: nat, n: nat, size: nat)
    requires InBase(d, 58) && ch < 58 && |d| < n && Pow(58, n) <= Pow(256, size)
    ensures 58 * Val(d, 58) + ch == Val(d + [ch], 58) < Pow(256, size)
  {
    hide Pow;
    ValSnoc(d, ch, 58);
    ValBound(d + [ch], 58);
    PowMonotone(58, |d| + 1, n);
  }

  lemma CoreDecodes(psz: string, start: nat, body: nat, end: nat, digits: seq<nat>, vch: seq<Byte>)
    requires start <= body <= end <= |psz|
    requires forall i :: 0 <= i < start ==> IsSpace(psz[i])
    requires forall i :: end <= i < |psz| ==> IsSpace(psz[i])
    requires forall i :: start <= i < body ==> psz[i] == '1'
    requires body < |psz| ==> psz[body] != '1'
    requires |digits| == end - body && InBase(digits, 58)
    requires forall i :: 0 <= i < |digits| ==> IndexOf(psz[body + i]) == digits[i]
    requires vch == Zeros(body - start) + Digits(Val(digits, 58), 256)
    ensures IsSpaced(psz) && StandsFor(psz, vch)
  {
    hide Val, Digits, IsSpace, IndexOf, Rebased, Leading, AllBase58, Indexes;
    CoreIndexes(psz, start, body, end, digits);
    RebasedIs(Indexes(psz[start..end]), body - start, digits);
    SpacedCore(psz, start, end);
    forall lead, core, trail | Spaced(psz, lead, core, trail) ensures vch == Decoded(core) {
      OneCore(psz, lead, core, trail, psz[..start], psz[start..end], psz[end..]);
    }
  }

  lemma SpacedCore(psz: string, start: nat, end: nat)
    requires start <= end <= |psz| && AllBase58(psz[start..end])
    requires forall i :: 0 <= i < start ==> IsSpace(psz[i])
    requires forall i :: end <= i < |psz| ==> IsSpace(psz[i])
    ensures Spaced(psz, psz[..start], psz[start..end], psz[end..])
  {
    hide IsSpace, AllBase58;
    assert psz == psz[..start] + psz[start..end] + psz[end..];
  }

  lemma CoreIndexes(psz: string, start: nat, body: nat, end: nat, digits: seq<nat>)
    requires start <= body <= end <= |psz|
    requires forall i :: start <= i < body ==> psz[i] == '1'
    requires body < |psz| ==> psz[body] != '1'
    requires |digits| == end - body && forall i :: 0 <= i < |digits| ==> IndexOf(psz[body + i]) == digits[i]
    ensures var core := psz[start..end]; AllBase58(core) && Indexes(core) == Zeros(body - start) + digits
    ensures digits != [] ==> digits[0] != 0
  {
    hide IndexOf;
    var core := psz[start..end];
    OneIsZero();
    forall i | 0 <= i < |core| ensures IndexOf(core[i]) == (if i < body - start then 0 else digits[i - (body - start)]) {
      assert core[i] == psz[start + i];
      if i >= body - start {
        assert psz[start + i] == psz[body + (i - (body - start))];
      }
    }
    if digits != [] {
      assert IndexOf(psz[body + 0]) == digits[0];
    }
  }

  lemma RebasedIs(s: seq<nat>, n: nat, digits: seq<nat>)
    requires s == Zeros(n) + digits && (digits != [] ==> digits[0] != 0)
    ensures Rebased(s, 58, 256) == Zeros(n) + Digits(Val(digits, 58), 256)
  {
    hide Val, Digits;
    LeadingIs(s, n);
    ValOfTail(s, n, 58);
    assert s[n..] == digits;
  }

  /** A string as a C function sees it. */
  function CStr(s: string): (r: string)
    ensures r <= s && '\0' !in r && (|r| < |s| ==> s[|r|] == '\0')
  {
    if s == "" || s[0] == '\0' then "" else [s[0]] + CStr(s[1..])
  }

  /** The overload for strings, which stops at the first NUL. */
  method DecodeBase58String(str: string) returns (ok: bool, vch: seq<Byte>)
    ensures ok == IsSpaced(CStr(str)) && (ok ==> StandsFor(CStr(str), vch))
  {
    hide IsSpaced, StandsFor;
    ok, vch := DecodeBase58(CStr(str));
  }

  // ---------------------------------------------------------------------------- with a checksum

  /** The first four bytes of a hash. */
  type Check = s: seq<Byte> | |s| == 4 witness [0, 0, 0, 0]

  method EncodeBase58Check(vchIn: seq<Byte>, hash: seq<Byte> -> Check) returns (str: string)
    ensures str == Encoded(vchIn + hash(vchIn))
  {
    str := EncodeBase58(vchIn + hash(vchIn));
  }

  /** True exactly for spaced Base58 strings that end with the check of what is before it. */
  method DecodeBase58Check(psz: string, hash: seq<Byte> -> Check) returns (ok: bool, vchRet: seq<Byte>)
    ensures ok ==> exists lead, core, trail :: Spaced(psz, lead, core, trail) && Decoded(core) == vchRet + hash(vchRet)
    ensures !ok ==> vchRet == [] &&
                    forall lead, core, trail, v :: Spaced(psz, lead, core, trail) ==> Decoded(core) != v + hash(v)
  {
    hide Decoded, IsSpace, IndexOf, AllBase58;
    ok, vchRet := DecodeBase58(psz);
    if !ok || |vchRet| < 4 {
      return false, [];
    }
    var n := |vchRet| - 4;
    assert vchRet == vchRet[..n] + vchRet[n..];
    if hash(vchRet[..n]) != vchRet[n..] {
      forall lead, core, trail, v | Spaced(psz, lead, core, trail) ensures Decoded(core) != v + hash(v) {
        assert |v + hash(v)| == n + 4 ==> (v + hash(v))[..n] == v && (v + hash(v))[n..] == hash(v);
      }
      return false, [];
    }
    vchRet := vchRet[..n];
  }

  /** The characters between the spaces are determined. */
  lemma OneCore(s: string, l: string, c: string, t: string, l': string, c': string, t': string)
    requires Spaced(s, l, c, t) && Spaced(s, l', c', t')
    ensures c == c'
  {
    if c != "" {
      NoSpaces(c, 0);
      NoSpaces(c, |c| - 1);
      assert s[|l|] == c[0] && s[|l| + |c| - 1] == c[|c| - 1];
      InCore(s, l', c', t', |l|);
      InCore(s, l', c', t', |l| + |c| - 1);
    }
    if c' != "" {
      NoSpaces(c', 0);
      NoSpaces(c', |c'| - 1);
      assert s[|l'|] == c'[0] && s[|l'| + |c'| - 1] == c'[|c'| - 1];
      InCore(s, l, c, t, |l'|);
      InCore(s, l, c, t, |l'| + |c'| - 1);
    }
    assert c == s[|l|..|l| + |c|] && c' == s[|l'|..|l'| + |c'|];
  }

  /** What is encoded decodes to itself, with and without a checksum. */
  method RoundTrip(vch: seq<Byte>, hash: seq<Byte> -> Check) returns (ok: bool, back: seq<Byte>, ok': bool, back': seq<Byte>)
    ensures ok && back == vch && ok' && back' == vch
  {
    hide Decoded, Encoded, IsSpace, IndexOf, AllBase58;
    var s := EncodeBase58(vch);
    DecodedEncoded(vch);
    assert Spaced(s, "", s, "");
    ok, back := DecodeBase58(s);
    var s' := EncodeBase58Check(vch, hash);
    DecodedEncoded(vch + hash(vch));
    assert Spaced(s', "", s', "");
    ok', back' := DecodeBase58Check(s', hash);
    ghost var lead', core', trail' :| Spaced(s', lead', core', trail') && Decoded(core') == back' + hash(back');
    OneCore(s', "", s', "", lead', core', trail');
    assert |back'| == |vch|;
    assert back' == (back' + hash(back'))[..|vch|] == (vch + hash(vch))[..|vch|] == vch;
  }
}
