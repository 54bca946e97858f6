/**
 Bech32 strings and their checksum.
 */
module Bech32 {
  import opened Numbers
  import opened Gf32

  // ---------------------------------------------------------------- 32-bit words as bits

  /** A 32-bit word as its bits, the lowest first. */
  type Word = s: seq<bool> | |s| == 32 witness seq(32, _ => false)
  type Byte = x: nat | x < 256

  function Zero(): Word {
    seq(32, _ => false)
  }

  function BitsOf(n: nat, k: nat): (r: seq<bool>)
    ensures |r| == k
  {
    if k == 0 then [] else [n % 2 == 1] + BitsOf(n / 2, k - 1)
  }

  function Bits(n: nat): Word {
    BitsOf(n, 32)
  }

  function ValueOf(b: seq<bool>): (r: nat) {
    if b == [] then 0 else (if b[0] then 1 else 0) + 2 * ValueOf(b[1..])
  }

  function Xor(x: Word, y: Word): Word {
    seq(32, i requires 0 <= i < 32 => x[i] != y[i])
  }

  function And(x: Word, y: Word): Word {
    seq(32, i requires 0 <= i < 32 => x[i] && y[i])
  }

  function Shl(x: Word, n: nat): Word {
    seq(32, i requires 0 <= i < 32 => i >= n && x[i - n])
  }

  function Shr(x: Word, n: nat): Word {
    seq(32, i requires 0 <= i < 32 => i + n < 32 && x[i + n])
  }

  // -------------------------------------------------------------------------- the checksum

  const K0: Word := Bits(0x3b6a57b2)
  const K1: Word := Bits(0x26508e6d)
  const K2: Word := Bits(0x1ea119fa)
  const K3: Word := Bits(0x3d4233dd)
  const K4: Word := Bits(0x2a1462b3)

  /** `k` if the bit is set. */
  function On(b: bool, k: Word): Word {
    if b then k else Zero()
  }

  /** 0x1ffffff */
  function Low25(): Word {
    seq(32, i => i < 25)
  }

  /** `(c & 0x1ffffff) << 5` */
  function Shifted(c: Word): Word {
    Shl(And(c, Low25()), 5)
  }

  /** One step: multiply by x, add `v`, and reduce by the generator. */
  function Step(c: Word, v: Word): Word {
    Xor(Xor(Xor(Xor(Xor(Xor(Shifted(c), v), On(c[25], K0)), On(c[26], K1)), On(c[27], K2)), On(c[28], K3)), On(c[29], K4))
  }

  /** The checksum state after a list of coefficients. */
  function Run(c: Word, v: seq<Word>): Word {
    if v == [] then c else Step(Run(c, v[..|v| - 1]), v[|v| - 1])
  }

  function Words(v: seq<Byte>): (r: seq<Word>)
    ensures |r| == |v| && forall i :: 0 <= i < |v| ==> r[i] == Bits(v[i])
  {
    seq(|v|, i requires 0 <= i < |v| => Bits(v[i]))
  }

  /** The six groups of five bits are the coefficients of what v(x), with a one in front, leaves modulo g(x). */
  method PolyMod(v: seq<Byte>) returns (c: Word)
    ensures AllSymbols(v) ==> IsRemainder([ONE] + Elements(v), Generator(), Coeffs(c)) && Below(c, 30)
    ensures c == Run(Bits(1), Words(v))
  {
    hide Run, Bits, Step, BitsOf, IsRemainder, Generator, Coeffs;
    c := Bits(1);
    RunNothing(c, Words(v));
    for i := 0 to |v|
      invariant c == Run(Bits(1), Words(v)[..i])
    {
      ghost var was := c;
      c := PolyModStep(c, Bits(v[i]));
      RunMore(Bits(1), Words(v), i);
    }
    assert Words(v)[..|v|] == Words(v);
    if AllSymbols(v) {
      RunIsRemainder(v);
    }
  }

  /** c(x) becomes c(x) x + v modulo g(x). */
  method PolyModStep(c: Word, v: Word) returns (r: Word)
    ensures Below(v, 5) ==> Coeffs(r) == Reduced(Coeffs(c), Five(v))
    ensures r == Step(c, v)
  {
    hide Bits, BitsOf, Xor, Coeffs, Reduced, Below;
    if Below(v, 5) {
      StepDivides(c, v);
    }
    var c0 := Shr(c, 25);
    r := Xor(Shl(And(c, Low25()), 5), v);
    XorZero(r);
    if c0[0] {
      r := Xor(r, K0);
    }
    XorZero(r);
    if c0[1] {
      r := Xor(r, K1);
    }
    XorZero(r);
    if c0[2] {
      r := Xor(r, K2);
    }
    XorZero(r);
    if c0[3] {
      r := Xor(r, K3);
    }
    XorZero(r);
    if c0[4] {
      r := Xor(r, K4);
    }
  }

  // ----------------------------------------------------------- the checksum as a remainder

  /** The field element written {n}. */
  function Element(n: nat): F {
    Five(BitsOf(n, 5))
  }

  /** The element with the lowest five of these bits. */
  function Five(b: seq<bool>): F
    requires |b| >= 5
  {
    F(b[0], b[1], b[2], b[3], b[4])
  }

  function Elements(v: seq<Byte>): (r: Poly)
    ensures |r| == |v| && forall i :: 0 <= i < |v| ==> r[i] == Element(v[i])
  {
    seq(|v|, i requires 0 <= i < |v| => Element(v[i]))
  }

  /** g(x) without its highest term, which is x^6 modulo g(x). */
  function Tail(): (r: Poly)
    ensures |r| == 6
  {
    [Element(29), Element(22), Element(20), Element(21), Element(29), Element(18)]
  }

  /** g(x) = x^6 + {29}x^5 + {22}x^4 + {20}x^3 + {21}x^2 + {29}x + {18} */
  function Generator(): Poly {
    [ONE] + Tail()
  }

  /** Coefficient number `t` of a state, the highest first. */
  function Coeff(c: Word, t: nat): F
    requires t < 6
  {
    Five(c[25 - 5 * t..30 - 5 * t])
  }

  function Coeffs(c: Word): (r: Poly)
    ensures |r| == 6 && forall t :: 0 <= t < 6 ==> r[t] == Coeff(c, t)
  {
    seq(6, t requires 0 <= t < 6 => Coeff(c, t))
  }

  /** r(x) x + v modulo g(x): the highest coefficient turns into that multiple of x^6 modulo g(x). */
  function Reduced(r: Poly, v: F): (r': Poly)
    requires |r| == 6
    ensures |r'| == 6
  {
    Plus(r[1..] + [v], Scale(r[0], Tail()))
  }

  lemma {:induction false} DropBits(n: nat, k: nat, j: nat)
    requires j <= k
    ensures BitsOf(n, k)[j..] == BitsOf(n / Pow2(j), k - j)
  {
    if j > 0 {
      DropBits(n / 2, k - 1, j - 1);
      assert BitsOf(n, k)[j..] == BitsOf(n / 2, k - 1)[j - 1..];
      DivDiv(n, 2, Pow2(j - 1));
    }
  }

  lemma {:induction false} TakeBits(n: nat, k: nat, j: nat)
    requires j <= k
    ensures BitsOf(n, k)[..j] == BitsOf(n, j)
  {
    if j > 0 {
      TakeBits(n / 2, k - 1, j - 1);
      assert BitsOf(n, k)[..j] == [n % 2 == 1] + BitsOf(n / 2, k - 1)[..j - 1];
    }
  }

  /** A coefficient of a packed number. */
  lemma CoeffOf(n: nat, t: nat)
    requires t < 6
    ensures Coeff(Bits(n), t) == Element(n / Pow2(25 - 5 * t))
  {
    var j := 25 - 5 * t;
    DropBits(n, 32, j);
    TakeBits(n / Pow2(j), 32 - j, 5);
    assert BitsOf(n, 32)[j..j + 5] == BitsOf(n, 32)[j..][..5];
  }

  lemma FiveBits(m: nat)
    ensures Element(m) == F(m % 2 == 1, m / 2 % 2 == 1, m / 4 % 2 == 1, m / 8 % 2 == 1, m / 16 % 2 == 1)
  {
    assert m / 2 / 2 == m / 4 && m / 4 / 2 == m / 8 && m / 8 / 2 == m / 16;
    assert BitsOf(m, 5) == [m % 2 == 1] + BitsOf(m / 2, 4);
    assert BitsOf(m / 2, 4) == [m / 2 % 2 == 1] + BitsOf(m / 4, 3);
    assert BitsOf(m / 4, 3) == [m / 4 % 2 == 1] + BitsOf(m / 8, 2);
    assert BitsOf(m / 8, 2) == [m / 8 % 2 == 1] + BitsOf(m / 16, 1);
    assert BitsOf(m / 16, 1) == [m / 16 % 2 == 1] + BitsOf(m / 32, 0);
  }

  lemma Powers()
    ensures Pow2(0) == 1 && Pow2(5) == 32 && Pow2(10) == 1024 && Pow2(15) == 32768 && Pow2(20) == 1048576 && Pow2(25) == 33554432
  {
    assert Pow2(5) == 32;
    Pow2Add(5, 5);
    Pow2Add(10, 5);
    Pow2Add(10, 10);
    Pow2Add(20, 5);
  }

  /** The coefficients of a packed number, as numbers. */
  lemma Unpacked(n: nat)
    ensures Coeffs(Bits(n)) == [Element(n / 33554432), Element(n / 1048576), Element(n / 32768), Element(n / 1024), Element(n / 32), Element(n)]
  {
    hide Bits, BitsOf, Coeff;
    Powers();
    CoeffOf(n, 0);
    CoeffOf(n, 1);
    CoeffOf(n, 2);
    CoeffOf(n, 3);
    CoeffOf(n, 4);
    CoeffOf(n, 5);
  }

  lemma {:induction false} LowBitsOnly(m: nat, q: nat, r: nat, k: nat)
    requires m == Pow2(k) * q + r
    ensures BitsOf(m, k) == BitsOf(r, k)
  {
    if k > 0 {
      MulAssoc(2, Pow2(k - 1), q);
      var p := Pow2(k - 1) * q;
      assert m == 2 * p + r;
      LowBitsOnly(m / 2, q, r / 2, k - 1);
    }
  }

  lemma SameElement(m: nat, q: nat, r: nat)
    requires m == 32 * q + r
    ensures Element(m) == Element(r)
  {
    assert Pow2(5) == 32;
    LowBitsOnly(m, q, r, 5);
  }

  /** The coefficients of {2^n} x^6 modulo g(x). */
  function Multiple(n: nat): (r: seq<nat>)
    requires n < 5
    ensures |r| == 6 && forall t :: 0 <= t < 6 ==> r[t] < 32
  {
    match n
    case 0 => [29, 22, 20, 21, 29, 18]
    case 1 => [19, 5, 1, 3, 19, 13]
    case 2 => [15, 10, 2, 6, 15, 26]
    case 3 => [30, 20, 4, 12, 30, 29]
    case _ => [21, 1, 8, 24, 21, 19]
  }

  /** The constants of the code. */
  function Feedback(n: nat): Word
    requires n < 5
  {
    match n
    case 0 => K0
    case 1 => K1
    case 2 => K2
    case 3 => K3
    case _ => K4
  }

  lemma Unpack0()
    ensures Coeffs(K0) == [Element(29), Element(22), Element(20), Element(21), Element(29), Element(18)]
  {
    hide Bits, BitsOf, Element;
    Unpacked(0x3b6a57b2);
    SameElement(950, 29, 22);
    SameElement(30420, 950, 20);
    SameElement(973461, 30420, 21);
    SameElement(31150781, 973461, 29);
    SameElement(996825010, 31150781, 18);
  }

  lemma Unpack1()
    ensures Coeffs(K1) == [Element(19), Element(5), Element(1), Element(3), Element(19), Element(13)]
  {
    hide Bits, BitsOf, Element;
    Unpacked(0x26508e6d);
    SameElement(613, 19, 5);
    SameElement(19617, 613, 1);
    SameElement(627747, 19617, 3);
    SameElement(20087923, 627747, 19);
    SameElement(642813549, 20087923, 13);
  }

  lemma Unpack2()
    ensures Coeffs(K2) == [Element(15), Element(10), Element(2), Element(6), Element(15), Element(26)]
  {
    hide Bits, BitsOf, Element;
    Unpacked(0x1ea119fa);
    SameElement(490, 15, 10);
    SameElement(15682, 490, 2);
    SameElement(501830, 15682, 6);
    SameElement(16058575, 501830, 15);
    SameElement(513874426, 16058575, 26);
  }

  lemma Unpack3()
    ensures Coeffs(K3) == [Element(30), Element(20), Element(4), Element(12), Element(30), Element(29)]
  {
    hide Bits, BitsOf, Element;
    Unpacked(0x3d4233dd);
    SameElement(980, 30, 20);
    SameElement(31364, 980, 4);
    SameElement(1003660, 31364, 12);
    SameElement(32117150, 1003660, 30);
    SameElement(1027748829, 32117150, 29);
  }

  lemma Unpack4()
    ensures Coeffs(K4) == [Element(21), Element(1), Element(8), Element(24), Element(21), Element(19)]
  {
    hide Bits, BitsOf, Element;
    Unpacked(0x2a1462b3);
    SameElement(673, 21, 1);
    SameElement(21544, 673, 8);
    SameElement(689432, 21544, 24);
    SameElement(22061845, 689432, 21);
    SameElement(705979059, 22061845, 19);
  }

  lemma FeedbackCoeff(n: nat, t: nat)
    requires n < 5 && t < 6
    ensures Coeff(Feedback(n), t) == Element(Multiple(n)[t])
  {
    hide Bits, BitsOf, Element, Coeff;
    Unpack0();
    Unpack1();
    Unpack2();
    Unpack3();
    Unpack4();
    assert Coeffs(Feedback(n))[t] == Coeff(Feedback(n), t);
  }

  /** `r` is `m` times {2}. */
  lemma Doubling(m: nat, r: nat)
    requires r % 2 == m / 16 % 2 && r / 2 % 2 == m % 2 && r / 4 % 2 == m / 2 % 2 && r / 16 % 2 == m / 8 % 2
    requires r / 8 % 2 == 1 <==> m / 4 % 2 != m / 16 % 2
    ensures TimesA(Element(m)) == Element(r)
  {
    hide Element;
    FiveBits(m);
    FiveBits(r);
  }

  lemma Doubled0(t: nat)
    requires t < 6
    ensures TimesA(Element(Multiple(0)[t])) == Element(Multiple(1)[t])
  {
    hide Element, TimesA;
    match t
    case 0 => Doubling(29, 19);
    case 1 => Doubling(22, 5);
    case 2 => Doubling(20, 1);
    case 3 => Doubling(21, 3);
    case 4 => Doubling(29, 19);
    case _ => Doubling(18, 13);
  }

  lemma Doubled1(t: nat)
    requires t < 6
    ensures TimesA(Element(Multiple(1)[t])) == Element(Multiple(2)[t])
  {
    hide Element, TimesA;
    match t
    case 0 => Doubling(19, 15);
    case 1 => Doubling(5, 10);
    case 2 => Doubling(1, 2);
    case 3 => Doubling(3, 6);
    case 4 => Doubling(19, 15);
    case _ => Doubling(13, 26);
  }

  lemma Doubled2(t: nat)
    requires t < 6
    ensures TimesA(Element(Multiple(2)[t])) == Element(Multiple(3)[t])
  {
    hide Element, TimesA;
    match t
    case 0 => Doubling(15, 30);
    case 1 => Doubling(10, 20);
    case 2 => Doubling(2, 4);
    case 3 => Doubling(6, 12);
    case 4 => Doubling(15, 30);
    case _ => Doubling(26, 29);
  }

  lemma Doubled3(t: nat)
    requires t < 6
    ensures TimesA(Element(Multiple(3)[t])) == Element(Multiple(4)[t])
  {
    hide Element, TimesA;
    match t
    case 0 => Doubling(30, 21);
    case 1 => Doubling(20, 1);
    case 2 => Doubling(4, 8);
    case 3 => Doubling(12, 24);
    case 4 => Doubling(30, 21);
    case _ => Doubling(29, 19);
  }

  lemma DoubledRow(n: nat, t: nat)
    requires n < 4 && t < 6
    ensures TimesA(Element(Multiple(n)[t])) == Element(Multiple(n + 1)[t])
  {
    hide Element, TimesA;
    match n
    case 0 => Doubled0(t);
    case 1 => Doubled1(t);
    case 2 => Doubled2(t);
    case _ => Doubled3(t);
  }

  lemma {:induction false} MultipleIs(n: nat, t: nat)
    requires n < 5 && t < 6
    ensures TimesPower(Tail()[t], n) == Element(Multiple(n)[t])
  {
    hide Element, TimesA;
    if n > 0 {
      MultipleIs(n - 1, t);
      DoubledRow(n - 1, t);
    }
  }

  /** The constants of the code are {1}, {2}, {4}, {8} and {16} times x^6 modulo g(x). */
  lemma FeedbackIs(n: nat, t: nat)
    requires n < 5 && t < 6
    ensures Coeff(Feedback(n), t) == TimesPower(Tail()[t], n)
  {
    hide Element, TimesA, Feedback, Multiple, Tail, TimesPower, Coeff;
    FeedbackCoeff(n, t);
    MultipleIs(n, t);
  }

  /** The bits of a step. */
  lemma StepBit(c: Word, v: Word, i: nat)
    requires i < 32
    ensures Step(c, v)[i] == ((((((
            (5 <= i < 30 && c[i - 5]) != v[i]) != (c[25] && K0[i])) != (c[26] && K1[i])) != (c[27] && K2[i])) != (c[28] && K3[i])) != (c[29] && K4[i]))
  {
    hide Bits, BitsOf;
  }

  lemma MulBit(x: F, y: F, b: nat)
    requires b < 5
    ensures Bit(Mul(x, y), b) == (((((x.a0 && Bit(y, b)) != (x.a1 && Bit(TimesPower(y, 1), b))) != (x.a2 && Bit(TimesPower(y, 2), b)))
                                   != (x.a3 && Bit(TimesPower(y, 3), b))) != (x.a4 && Bit(TimesPower(y, 4), b)))
  {
    hide TimesPower, Add, When, Bit;
    var m0, m1, m2 := When(x.a0, y), When(x.a1, TimesPower(y, 1)), When(x.a2, TimesPower(y, 2));
    var m3, m4 := When(x.a3, TimesPower(y, 3)), When(x.a4, TimesPower(y, 4));
    AddBit(m0, m1, b);
    AddBit(Add(m0, m1), m2, b);
    AddBit(Add(Add(m0, m1), m2), m3, b);
    AddBit(Add(Add(Add(m0, m1), m2), m3), m4, b);
    WhenBit(x.a0, y, b);
    WhenBit(x.a1, TimesPower(y, 1), b);
    WhenBit(x.a2, TimesPower(y, 2), b);
    WhenBit(x.a3, TimesPower(y, 3), b);
    WhenBit(x.a4, TimesPower(y, 4), b);
  }

  lemma FeedbackBit(n: nat, t: nat, b: nat)
    requires n < 5 && t < 6 && b < 5
    ensures Feedback(n)[25 - 5 * t + b] == Bit(TimesPower(Tail()[t], n), b)
  {
    hide Feedback, Tail, TimesPower;
    FeedbackIs(n, t);
    CoeffBit(Feedback(n), t, b);
  }

  lemma StepCoeffBit(c: Word, v: Word, t: nat, b: nat)
    requires Below(v, 5) && t < 6 && b < 5
    ensures Bit(Coeff(Step(c, v), t), b) == (Bit(if t < 5 then Coeff(c, t + 1) else Five(v), b) != Bit(Mul(Coeff(c, 0), Tail()[t]), b))
  {
    hide Step, Mul, TimesPower, Bits, BitsOf, Tail;
    var i := 25 - 5 * t + b;
    CoeffBit(Step(c, v), t, b);
    if t < 5 {
      CoeffBit(c, t + 1, b);
    }
    StepBit(c, v, i);
    MulBit(Coeff(c, 0), Tail()[t], b);
    FeedbackBit(0, t, b);
    FeedbackBit(1, t, b);
    FeedbackBit(2, t, b);
    FeedbackBit(3, t, b);
    FeedbackBit(4, t, b);
    PowerZero(Tail()[t]);
  }

  lemma CoeffBit(c: Word, t: nat, b: nat)
    requires t < 6 && b < 5
    ensures Bit(Coeff(c, t), b) == c[25 - 5 * t + b]
  {
  }

  lemma PowerZero(x: F)
    ensures TimesPower(x, 0) == x
  {
  }

  /** One step of the code is one step of long division by g(x). */
  lemma StepDivides(c: Word, v: Word)
    requires Below(v, 5)
    ensures Coeffs(Step(c, v)) == Reduced(Coeffs(c), Five(v))
  {
    hide Step, Mul, Tail, Add, Coeff, Below, Five;
    var l, r := Coeffs(Step(c, v)), Reduced(Coeffs(c), Five(v));
    forall t | 0 <= t < 6 ensures l[t] == r[t] {
      StepCoeff(c, v, t);
    }
  }

  lemma StepCoeff(c: Word, v: Word, t: nat)
    requires Below(v, 5) && t < 6
    ensures Coeff(Step(c, v), t) == Add(if t < 5 then Coeff(c, t + 1) else Five(v), Mul(Coeff(c, 0), Tail()[t]))
  {
    hide Step, Mul, Tail, Coeff, Five;
    StepCoeffBit(c, v, t, 0);
    StepCoeffBit(c, v, t, 1);
    StepCoeffBit(c, v, t, 2);
    StepCoeffBit(c, v, t, 3);
    StepCoeffBit(c, v, t, 4);
  }

  lemma FrontBits(x: nat)
    ensures Five(Bits(x)) == Element(x)
  {
    TakeBits(x, 32, 5);
  }

  /** The state after some symbols, with the quotient so far. */
  lemma {:induction false} RunDivides(v: seq<Byte>) returns (q: Poly)
    requires AllSymbols(v)
    ensures |q| == |v|
    ensures Plus(Times(q, Generator()), Coeffs(Run(Bits(1), Words(v)))) == Gf32.Zeros(5) + [ONE] + Elements(v)
  {
    hide Step, Bits, Times, Coeffs, Tail, Element, Mul, Add;
    if v == [] {
      q := [];
      NothingDivided();
      assert Elements(v) == [];
      assert Run(Bits(1), Words(v)) == Bits(1);
    } else {
      var n := |v| - 1;
      var p := RunDivides(v[..n]);
      var c := Run(Bits(1), Words(v[..n]));
      assert Words(v)[..n] == Words(v[..n]);
      SymbolBits(v[n]);
      FrontBits(v[n]);
      StepDivides(c, Bits(v[n]));
      q := p + [Coeffs(c)[0]];
      BringDown(Tail(), p, Coeffs(c), Element(v[n]));
      assert Elements(v) == Elements(v[..n]) + [Element(v[n])];
    }
  }

  lemma NothingDivided()
    ensures Plus(Times([], Generator()), Coeffs(Bits(1))) == Gf32.Zeros(5) + [ONE]
  {
    hide Bits, BitsOf, Tail, Coeffs, Times;
    OneCoeffs();
    TimesNothing(Generator());
    ZerosPlus(Coeffs(Bits(1)));
  }

  lemma SmallElements()
    ensures Element(0) == ZERO && Element(1) == ONE
  {
    hide Element;
    FiveBits(0);
    FiveBits(1);
  }

  /** The state 1 is the constant polynomial 1. */
  lemma OneCoeffs()
    ensures Coeffs(Bits(1)) == Gf32.Zeros(5) + [ONE]
  {
    hide Bits, BitsOf, Element, Coeffs;
    Unpacked(1);
    SmallElements();
  }

  /** The checksum state is what the polynomial leaves modulo g(x). */
  lemma RunIsRemainder(v: seq<Byte>)
    requires AllSymbols(v)
    ensures var c := Run(Bits(1), Words(v)); IsRemainder([ONE] + Elements(v), Generator(), Coeffs(c)) && Below(c, 30)
  {
    hide Bits, Run, Times, Plus, Coeffs, Tail;
    var q := RunDivides(v);
    assert Gf32.Zeros(5) + [ONE] + Elements(v) == Gf32.Zeros(5) + ([ONE] + Elements(v));
    assert Divided([ONE] + Elements(v), Generator(), q, Coeffs(Run(Bits(1), Words(v))));
    OneBelow();
    WordsAreSymbols(v);
    RunStaysBelow(Bits(1), Words(v));
  }

  lemma {:induction false} SameCoeffs(c: Word, d: Word)
    requires Below(c, 30) && Below(d, 30) && Coeffs(c) == Coeffs(d)
    ensures c == d
  {
    forall i | 0 <= i < 30 ensures c[i] == d[i] {
      var t := 5 - i / 5;
      assert Coeffs(c)[t] == Coeffs(d)[t];
      CoeffBit(c, t, i % 5);
      CoeffBit(d, t, i % 5);
    }
  }

  /** A prefix and symbols verify exactly if their polynomial leaves 1 modulo g(x). */
  lemma VerifiedIff(hrp: string, values: seq<Byte>)
    requires AllBytes(hrp) && AllSymbols(values)
    ensures Verified(hrp, values) <==>
            IsRemainder([ONE] + Elements(Expanded(hrp) + values), Generator(), Gf32.Zeros(5) + [ONE])
  {
    hide Bits, Run, Coeffs, Tail, IsRemainder, Words;
    var v := Expanded(hrp) + values;
    var f, c := [ONE] + Elements(v), Run(Bits(1), Words(v));
    RunIsRemainder(v);
    OneCoeffs();
    OneBelow();
    if IsRemainder(f, Generator(), Coeffs(Bits(1))) {
      RemainderUnique(f, Generator(), Coeffs(c), Coeffs(Bits(1)));
      SameCoeffs(c, Bits(1));
    }
  }

  lemma XorZero(x: Word)
    ensures Xor(x, Zero()) == x
  {
  }

  lemma RunNothing(c: Word, v: seq<Word>)
    ensures Run(c, v[..0]) == c
  {
  }

  lemma RunMore(c: Word, v: seq<Word>, i: nat)
    requires i < |v|
    ensures Run(c, v[..i + 1]) == Step(Run(c, v[..i]), v[i])
  {
    assert v[..i + 1][..i] == v[..i];
  }

  // ----------------------------------------------------------------------------- linearity

  function XorAll(x: seq<Word>, y: seq<Word>): (r: seq<Word>)
    requires |x| == |y|
    ensures |r| == |x|
  {
    seq(|x|, i requires 0 <= i < |x| => Xor(x[i], y[i]))
  }

  lemma StepIsLinear(c: Word, v: Word, d: Word, w: Word)
    ensures Step(Xor(c, d), Xor(v, w)) == Xor(Step(c, v), Step(d, w))
  {
    hide Bits, BitsOf, Xor, On, Shifted;
    ShiftedIsLinear(c, d);
    XorSwap(Shifted(c), Shifted(d), v, w);
    var s0, t0 := Xor(Shifted(c), v), Xor(Shifted(d), w);
    FeedIsLinear(s0, t0, c, d, 25, K0);
    var s1, t1 := Xor(s0, On(c[25], K0)), Xor(t0, On(d[25], K0));
    FeedIsLinear(s1, t1, c, d, 26, K1);
    var s2, t2 := Xor(s1, On(c[26], K1)), Xor(t1, On(d[26], K1));
    FeedIsLinear(s2, t2, c, d, 27, K2);
    var s3, t3 := Xor(s2, On(c[27], K2)), Xor(t2, On(d[27], K2));
    FeedIsLinear(s3, t3, c, d, 28, K3);
    var s4, t4 := Xor(s3, On(c[28], K3)), Xor(t3, On(d[28], K3));
    FeedIsLinear(s4, t4, c, d, 29, K4);
  }

  lemma XorSwap(a: Word, b: Word, c: Word, d: Word)
    ensures Xor(Xor(a, b), Xor(c, d)) == Xor(Xor(a, c), Xor(b, d))
  {
  }

  lemma ShiftedIsLinear(c: Word, d: Word)
    ensures Shifted(Xor(c, d)) == Xor(Shifted(c), Shifted(d))
  {
  }

  lemma FeedIsLinear(s: Word, t: Word, c: Word, d: Word, j: nat, k: Word)
    requires j < 32
    ensures Xor(Xor(s, t), On(Xor(c, d)[j], k)) == Xor(Xor(s, On(c[j], k)), Xor(t, On(d[j], k)))
  {
    assert On(Xor(c, d)[j], k) == Xor(On(c[j], k), On(d[j], k));
    XorSwap(s, t, On(c[j], k), On(d[j], k));
  }

  /** The checksum of a sum is the sum of the checksums. */
  lemma {:induction false} RunIsLinear(c: Word, v: seq<Word>, d: Word, w: seq<Word>)
    requires |v| == |w|
    ensures Run(Xor(c, d), XorAll(v, w)) == Xor(Run(c, v), Run(d, w))
  {
    hide Step;
    if v != [] {
      var n := |v| - 1;
      RunIsLinear(c, v[..n], d, w[..n]);
      assert XorAll(v, w)[..n] == XorAll(v[..n], w[..n]);
      StepIsLinear(Run(c, v[..n]), v[n], Run(d, w[..n]), w[n]);
    }
  }

  /** Words below 2^n. */
  predicate Below(c: Word, n: nat) {
    forall i :: n <= i < 32 ==> !c[i]
  }

  lemma {:induction false} BitsAbove(n: nat, k: nat, m: nat)
    requires n < Pow2(m)
    ensures forall i :: m <= i < k ==> !BitsOf(n, k)[i]
  {
    if k > 0 && m > 0 {
      BitsAbove(n / 2, k - 1, m - 1);
    } else if k > 0 {
      BitsAbove(0, k - 1, 0);
    }
  }

  lemma Pow30()
    ensures Pow2(30) == 0x4000_0000
  {
    assert Pow2(5) == 32;
    Pow2Add(5, 5);
    Pow2Add(10, 10);
    Pow2Add(20, 10);
  }

  lemma GeneratorsBelow()
    ensures Below(K0, 30) && Below(K1, 30) && Below(K2, 30) && Below(K3, 30) && Below(K4, 30)
  {
    Pow30();
    BitsAbove(0x3b6a57b2, 32, 30);
    BitsAbove(0x26508e6d, 32, 30);
    BitsAbove(0x1ea119fa, 32, 30);
    BitsAbove(0x3d4233dd, 32, 30);
    BitsAbove(0x2a1462b3, 32, 30);
  }

  /** The state stays below 2^30. */
  lemma StepStaysBelow(c: Word, v: Word)
    requires Below(v, 30)
    ensures Below(Step(c, v), 30)
  {
    hide Bits, BitsOf;
    GeneratorsBelow();
  }

  lemma LowBits(n: nat)
    ensures var b := Bits(n); b[0] == (n % 2 == 1) && b[1] == (n / 2 % 2 == 1) && b[2] == (n / 4 % 2 == 1)
                              && b[3] == (n / 8 % 2 == 1) && b[4] == (n / 16 % 2 == 1)
  {
    assert n / 2 / 2 == n / 4 && n / 4 / 2 == n / 8 && n / 8 / 2 == n / 16;
    assert BitsOf(n, 32)[1] == BitsOf(n / 2, 31)[0];
    assert BitsOf(n, 32)[2] == BitsOf(n / 2, 31)[1] == BitsOf(n / 4, 30)[0];
    assert BitsOf(n, 32)[3] == BitsOf(n / 2, 31)[2] == BitsOf(n / 4, 30)[1] == BitsOf(n / 8, 29)[0];
    assert BitsOf(n, 32)[4] == BitsOf(n / 2, 31)[3] == BitsOf(n / 4, 30)[2] == BitsOf(n / 8, 29)[1] == BitsOf(n / 16, 28)[0];
  }

  /** Only the zero state steps to the zero state, so a step loses nothing. */
  lemma StepKernel(e: Word)
    requires Below(e, 30) && Step(e, Zero()) == Zero()
    ensures e == Zero()
  {
    hide Bits, BitsOf;
    LowBits(0x3b6a57b2);
    LowBits(0x26508e6d);
    LowBits(0x1ea119fa);
    LowBits(0x3d4233dd);
    LowBits(0x2a1462b3);
    StepBits(e, 0);
    StepBits(e, 1);
    StepBits(e, 2);
    StepBits(e, 3);
    StepBits(e, 4);
    assert !e[25] && !e[26] && !e[27] && !e[28] && !e[29];
    forall i | 0 <= i < 25 ensures !e[i] {
      StepBits(e, i + 5);
    }
  }

  /** The bits of a step with nothing added. */
  lemma StepBits(e: Word, i: nat)
    requires i < 32
    ensures Step(e, Zero())[i] == (((((
            (5 <= i < 30 && e[i - 5]) != (e[25] && K0[i])) != (e[26] && K1[i])) != (e[27] && K2[i])) != (e[28] && K3[i])) != (e[29] && K4[i]))
  {
    hide Bits, BitsOf;
  }

  lemma {:induction false} RunConcat(c: Word, v: seq<Word>, w: seq<Word>)
    ensures Run(c, v + w) == Run(Run(c, v), w)
  {
    hide Step;
    if w == [] {
      assert v + w == v;
    } else {
      var n := |w| - 1;
      RunConcat(c, v, w[..n]);
      assert (v + w)[..|v + w| - 1] == v + w[..n];
    }
  }

  ghost predicate Symbols(v: seq<Word>) {
    forall i :: 0 <= i < |v| ==> Below(v[i], 5)
  }

  /** Without feedback a step only shifts the symbol in. */
  lemma QuietStep(c: Word, v: Word, i: nat)
    requires Below(c, 25) && Below(v, 5) && i < 32
    ensures Step(c, v)[i] == if i < 5 then v[i] else i < 30 && c[i - 5]
  {
    hide Bits, BitsOf;
  }

  /** Six symbols from the zero state are packed side by side: the state is zero only if they all are. */
  lemma {:induction false} PackedZero(v: seq<Word>)
    requires |v| <= 6 && Symbols(v)
    ensures Below(Run(Zero(), v), 5 * |v|)
    ensures Run(Zero(), v) == Zero() ==> forall i :: 0 <= i < |v| ==> v[i] == Zero()
  {
    hide Step;
    if v != [] {
      var n := |v| - 1;
      PackedZero(v[..n]);
      var c := Run(Zero(), v[..n]);
      forall i | 0 <= i < 32 ensures Step(c, v[n])[i] == if i < 5 then v[n][i] else i < 30 && c[i - 5] {
        QuietStep(c, v[n], i);
      }
      if Step(c, v[n]) == Zero() {
        assert forall i :: 0 <= i < 5 ==> !Step(c, v[n])[i];
        assert v[n] == Zero();
        forall i | 0 <= i < 25 ensures !c[i] {
          assert !Step(c, v[n])[i + 5];
        }
        assert c == Zero();
        forall i | 0 <= i < |v| ensures v[i] == Zero() {
          assert i < n ==> v[i] == v[..n][i];
        }
      }
    }
  }

  function Zeros(n: nat): (r: seq<Word>)
    ensures |r| == n
  {
    seq(n, _ => Zero())
  }

  lemma ZeroStep()
    ensures Step(Zero(), Zero()) == Zero()
  {
    hide Bits, BitsOf;
    XorZero(Zero());
  }

  /** Zero symbols keep a zero state zero and any other state different from zero. */
  lemma {:induction false} RunZeros(c: Word, n: nat)
    requires Below(c, 30)
    ensures Below(Run(c, Zeros(n)), 30)
    ensures Run(c, Zeros(n)) == Zero() <==> c == Zero()
  {
    hide Step;
    if n > 0 {
      RunZeros(c, n - 1);
      assert Zeros(n)[..n - 1] == Zeros(n - 1);
      var d := Run(c, Zeros(n - 1));
      StepStaysBelow(d, Zero());
      ZeroStep();
      if Step(d, Zero()) == Zero() {
        StepKernel(d);
      }
    }
  }

  /** Symbols `v`, with any number of zero symbols on both sides. */
  lemma BurstIsSeen(before: nat, v: seq<Word>, after: nat)
    requires |v| <= 6 && Symbols(v) && exists i :: 0 <= i < |v| && v[i] != Zero()
    ensures Run(Zero(), Zeros(before) + v + Zeros(after)) != Zero()
  {
    hide Step, Run;
    RunConcat(Zero(), Zeros(before) + v, Zeros(after));
    RunConcat(Zero(), Zeros(before), v);
    RunZeros(Zero(), before);
    PackedZero(v);
    RunZeros(Run(Zero(), v), after);
  }

  lemma XorSelf(x: Word, y: Word)
    ensures Xor(x, x) == Zero() && (Xor(x, y) == Zero() <==> x == y) && Xor(x, Xor(x, y)) == y && Xor(Zero(), x) == x
  {
    if Xor(x, y) == Zero() {
      forall i | 0 <= i < 32 ensures x[i] == y[i] {
        assert !Xor(x, y)[i];
      }
    }
  }

  // ------------------------------------------------------------------------- bytes and bits

  lemma {:induction false} ValueOfBits(n: nat, k: nat)
    requires n < Pow2(k)
    ensures ValueOf(BitsOf(n, k)) == n
  {
    if k > 0 {
      ValueOfBits(n / 2, k - 1);
      assert BitsOf(n, k)[1..] == BitsOf(n / 2, k - 1);
    }
  }

  lemma {:induction false} BitsOfValue(b: seq<bool>)
    ensures ValueOf(b) < Pow2(|b|) && BitsOf(ValueOf(b), |b|) == b
  {
    if b != [] {
      BitsOfValue(b[1..]);
      assert ValueOf(b) / 2 == ValueOf(b[1..]);
      assert b == [b[0]] + b[1..];
    }
  }

  lemma SymbolBits(x: nat)
    requires x < 32
    ensures Below(Bits(x), 5)
  {
    assert Pow2(5) == 32;
    BitsAbove(x, 32, 5);
  }

  lemma SameBits(x: nat, y: nat)
    requires x < 32 && y < 32 && Bits(x) == Bits(y)
    ensures x == y
  {
    assert Pow2(5) == 32;
    Pow2Monotone(5, 32);
    ValueOfBits(x, 32);
    ValueOfBits(y, 32);
  }

  // --------------------------------------------------------------------- symbols of a string

  /** The character set, and its inverse on characters that are not upper case. */
  function Charset(v: nat): char
    requires v < 32
  {
    match v
    case 0 => 'q'
    case 1 => 'p'
    case 2 => 'z'
    case 3 => 'r'
    case 4 => 'y'
    case 5 => '9'
    case 6 => 'x'
    case 7 => '8'
    case 8 => 'g'
    case 9 => 'f'
    case 10 => '2'
    case 11 => 't'
    case 12 => 'v'
    case 13 => 'd'
    case 14 => 'w'
    case 15 => '0'
    case 16 => 's'
    case 17 => '3'
    case 18 => 'j'
    case 19 => 'n'
    case 20 => '5'
    case 21 => '4'
    case 22 => 'k'
    case 23 => 'h'
    case 24 => 'c'
    case 25 => 'e'
    case 26 => '6'
    case 27 => 'm'
    case 28 => 'u'
    case 29 => 'a'
    case 30 => '7'
    case _ => 'l'
  }

  function LowerRev(c: char): int {
    match c
    case 'q' => 0
    case 'p' => 1
    case 'z' => 2
    case 'r' => 3
    case 'y' => 4
    case '9' => 5
    case 'x' => 6
    case '8' => 7
    case 'g' => 8
    case 'f' => 9
    case '2' => 10
    case 't' => 11
    case 'v' => 12
    case 'd' => 13
    case 'w' => 14
    case '0' => 15
    case 's' => 16
    case '3' => 17
    case 'j' => 18
    case 'n' => 19
    case '5' => 20
    case '4' => 21
    case 'k' => 22
    case 'h' => 23
    case 'c' => 24
    case 'e' => 25
    case '6' => 26
    case 'm' => 27
    case 'u' => 28
    case 'a' => 29
    case '7' => 30
    case 'l' => 31
    case _ => -1
  }

  function LowerCase(c: char): char {
    if 'A' <= c <= 'Z' then c - 'A' + 'a' else c
  }

  /** CHARSET_REV, which has the same entries for both cases of a letter. */
  function CharsetRev(c: char): int {
    LowerRev(LowerCase(c))
  }

  lemma CharsetInverse(v: nat)
    requires v < 32
    ensures var c := Charset(v); '!' <= c <= '~' && CharsetRev(c) == v && c != '1' && !('A' <= c <= 'Z')
  {
  }

  lemma RevInverse(c: char)
    ensures CharsetRev(c) == -1 || (0 <= CharsetRev(c) < 32 && Charset(CharsetRev(c)) == LowerCase(c))
  {
  }

  predicate AllSymbols(v: seq<Byte>) {
    forall i :: 0 <= i < |v| ==> v[i] < 32
  }

  predicate AllBytes(s: string) {
    forall i :: 0 <= i < |s| ==> s[i] as int < 256
  }

  function Expanded(hrp: string): (r: seq<Byte>)
    requires AllBytes(hrp)
    ensures |r| == 2 * |hrp| + 1 && AllSymbols(r)
  {
    seq(|hrp|, i requires 0 <= i < |hrp| => hrp[i] as int / 32) + [0] + seq(|hrp|, i requires 0 <= i < |hrp| => hrp[i] as int % 32)
  }

  method ExpandHRP(hrp: string) returns (ret: seq<Byte>)
    requires AllBytes(hrp)
    ensures ret == Expanded(hrp)
  {
    var n := |hrp|;
    var a := new Byte[2 * n + 1](_ => 0);
    for i := 0 to n
      invariant forall j :: 0 <= j < i ==> a[j] == hrp[j] as int / 32 && a[j + n + 1] == hrp[j] as int % 32
    {
      a[i] := hrp[i] as int / 32;
      a[i + n + 1] := hrp[i] as int % 32;
    }
    a[n] := 0;
    ret := a[..];
    forall i | 0 <= i < 2 * n + 1 ensures ret[i] == Expanded(hrp)[i] {
      assert i > n ==> ret[i] == a[(i - n - 1) + n + 1];
    }
  }

  /** The checksum of a prefix and symbols comes out as one. */
  ghost predicate Verified(hrp: string, values: seq<Byte>)
    requires AllBytes(hrp)
  {
    Run(Bits(1), Words(Expanded(hrp) + values)) == Bits(1)
  }

  method VerifyChecksum(hrp: string, values: seq<Byte>) returns (ok: bool)
    requires AllBytes(hrp)
    ensures ok == Verified(hrp, values)
  {
    var enc := ExpandHRP(hrp);
    var c := PolyMod(enc + values);
    ok := c == Bits(1);
  }

  lemma WordsConcat(a: seq<Byte>, b: seq<Byte>)
    ensures Words(a + b) == Words(a) + Words(b)
  {
    hide Bits;
  }

  lemma WordsAreSymbols(v: seq<Byte>)
    requires AllSymbols(v)
    ensures Symbols(Words(v))
  {
    hide Bits;
    forall i | 0 <= i < |v| ensures Below(Words(v)[i], 5) {
      SymbolBits(v[i]);
    }
  }

  // ------------------------------------------------------------------- checksum properties

  /** `(c >> (5 * j)) & 31` */
  function Group(c: Word, j: nat): Word {
    And(Shr(c, 5 * j), Bits(31))
  }

  lemma GroupBits(c: Word, j: nat)
    ensures Below(Group(c, j), 5)
    ensures forall i :: 0 <= i < 5 ==> Group(c, j)[i] == (i + 5 * j < 32 && c[i + 5 * j])
  {
    hide Bits, BitsOf;
    SymbolBits(31);
    LowBits(31);
  }

  /** Shifting the next group back in undoes the shift. */
  lemma RegroupStep(c: Word, j: nat)
    requires Below(c, 30) && j <= 5
    ensures Step(Shr(c, 5 * (j + 1)), Group(c, j)) == Shr(c, 5 * j)
  {
    hide Step, Group;
    GroupBits(c, j);
    var d := Shr(c, 5 * (j + 1));
    forall i | 0 <= i < 32 ensures Step(d, Group(c, j))[i] == Shr(c, 5 * j)[i] {
      QuietStep(d, Group(c, j), i);
    }
  }

  /** The six groups of a word, the highest first, lead from zero to the word. */
  lemma {:induction false} Regroup(c: Word, v: seq<Word>, n: nat)
    requires Below(c, 30) && n <= |v| == 6 && forall i :: 0 <= i < 6 ==> v[i] == Group(c, 5 - i)
    ensures Run(Zero(), v[..n]) == Shr(c, 5 * (6 - n))
  {
    hide Step, Group;
    if n == 0 {
      assert Shr(c, 30) == Zero();
    } else {
      Regroup(c, v, n - 1);
      RunMore(Zero(), v, n - 1);
      RegroupStep(c, 6 - n);
    }
  }

  function GroupValue(c: Word, j: nat): (r: Byte)
    ensures r < 32 && Bits(r) == Group(c, j)
  {
    var g := Group(c, j);
    GroupValueFits(g, j, c);
    ValueOf(g)
  }

  lemma GroupValueFits(g: Word, j: nat, c: Word)
    requires g == Group(c, j)
    ensures ValueOf(g) < 32 && Bits(ValueOf(g)) == g
  {
    hide Bits, Group;
    GroupBits(c, j);
    FiveBitValue(g);
    BitsOfValue(g);
    BitsIs(ValueOf(g));
  }

  lemma BitsIs(n: nat)
    ensures Bits(n) == BitsOf(n, 32)
  {
  }

  lemma {:induction false} NoBits(b: seq<bool>)
    requires forall i :: 0 <= i < |b| ==> !b[i]
    ensures ValueOf(b) == 0
  {
    if b != [] {
      NoBits(b[1..]);
    }
  }

  lemma FiveBitValue(g: Word)
    requires Below(g, 5)
    ensures ValueOf(g) < 32
  {
    NoBits(g[5..]);
    assert g[1..][1..] == g[2..] && g[2..][1..] == g[3..] && g[3..][1..] == g[4..] && g[4..][1..] == g[5..];
    assert ValueOf(g) == (if g[0] then 1 else 0) + 2 * ValueOf(g[1..]);
    assert ValueOf(g[1..]) == (if g[1] then 1 else 0) + 2 * ValueOf(g[2..]);
    assert ValueOf(g[2..]) == (if g[2] then 1 else 0) + 2 * ValueOf(g[3..]);
    assert ValueOf(g[3..]) == (if g[3] then 1 else 0) + 2 * ValueOf(g[4..]);
    assert ValueOf(g[4..]) == (if g[4] then 1 else 0) + 2 * ValueOf(g[5..]);
  }

  lemma {:induction false} RunStaysBelow(c: Word, v: seq<Word>)
    requires Below(c, 30) && Symbols(v)
    ensures Below(Run(c, v), 30)
  {
    hide Step;
    if v != [] {
      RunStaysBelow(c, v[..|v| - 1]);
      StepStaysBelow(Run(c, v[..|v| - 1]), v[|v| - 1]);
    }
  }

  /** Adding the difference of the two checksums into the last symbols turns one into the other. */
  lemma ChecksumWorks(s: Word, chk: seq<Word>, m: Word)
    requires |chk| == 6 && m == Run(s, Zeros(6)) && Run(Zero(), chk) == Xor(m, Bits(1))
    ensures Run(s, chk) == Bits(1)
  {
    hide Step, Run, Bits;
    RunIsLinear(s, Zeros(6), Zero(), chk);
    XorZero(s);
    assert XorAll(Zeros(6), chk) == chk by {
      forall i | 0 <= i < 6 ensures Xor(Zeros(6)[i], chk[i]) == chk[i] {
        XorSelf(chk[i], chk[i]);
      }
    }
    XorSelf(m, Bits(1));
  }

  lemma OneBelow()
    ensures Below(Bits(1), 30)
  {
    assert Pow2(1) == 2;
    BitsAbove(1, 32, 1);
  }

  /** Appending the created checksum makes the whole verify. */
  method CreateChecksum(hrp: string, values: seq<Byte>) returns (ret: seq<Byte>)
    requires AllBytes(hrp) && AllSymbols(values)
    ensures |ret| == 6 && AllSymbols(ret) && Verified(hrp, values + ret)
  {
    hide Step, Run, Bits, Group;
    var enc := ExpandHRP(hrp);
    enc := enc + values;
    var m := PolyMod(enc + [0, 0, 0, 0, 0, 0]);
    var mod := Xor(m, Bits(1));
    ret := [];
    for i := 0 to 6
      invariant |ret| == i && AllSymbols(ret) && forall j :: 0 <= j < i ==> Bits(ret[j]) == Group(mod, 5 - j)
    {
      ret := ret + [GroupValue(mod, 5 - i)];
    }
    CreatedVerifies(hrp, values, enc, m, mod, ret);
  }

  lemma CreatedVerifies(hrp: string, values: seq<Byte>, enc: seq<Byte>, m: Word, mod: Word, ret: seq<Byte>)
    requires AllBytes(hrp) && AllSymbols(values) && enc == Expanded(hrp) + values
    requires m == Run(Bits(1), Words(enc + [0, 0, 0, 0, 0, 0])) && mod == Xor(m, Bits(1))
    requires |ret| == 6 && forall j :: 0 <= j < 6 ==> Bits(ret[j]) == Group(mod, 5 - j)
    ensures Verified(hrp, values + ret)
  {
    hide Step, Run, Bits, Group;
    var zeros := [0, 0, 0, 0, 0, 0];
    var s := Run(Bits(1), Words(enc));
    WordsConcat(enc, zeros);
    ZeroWords();
    RunConcat(Bits(1), Words(enc), Words(zeros));
    OneBelow();
    WordsAreSymbols(enc + zeros);
    RunStaysBelow(Bits(1), Words(enc + zeros));
    Regroup(mod, Words(ret), 6);
    assert Words(ret)[..6] == Words(ret) && Shr(mod, 0) == mod;
    ChecksumWorks(s, Words(ret), m);
    WordsConcat(enc, ret);
    RunConcat(Bits(1), Words(enc), Words(ret));
    assert Expanded(hrp) + (values + ret) == enc + ret;
  }

  lemma ZeroWords()
    ensures Words([0, 0, 0, 0, 0, 0]) == Zeros(6)
  {
    assert Bits(0) == Zero() by {
      BitsAbove(0, 32, 0);
    }
  }

  /** Symbol lists of equal length whose words differ by `e` have checksums that differ by the run of `e` from zero. */
  lemma DifferentBy(hrp: string, v: seq<Byte>, w: seq<Byte>)
    requires AllBytes(hrp) && |v| == |w| && Verified(hrp, v) && Verified(hrp, w)
    ensures Run(Zero(), XorAll(Words(v), Words(w))) == Zero()
  {
    hide Step, Run, Bits;
    var head := Words(Expanded(hrp));
    var s := Run(Bits(1), head);
    WordsConcat(Expanded(hrp), v);
    WordsConcat(Expanded(hrp), w);
    RunConcat(Bits(1), head, Words(v));
    RunConcat(Bits(1), head, Words(w));
    RunIsLinear(s, Words(v), s, Words(w));
    XorSelf(s, s);
    XorSelf(Bits(1), Bits(1));
  }

  /**
   Any change within six consecutive symbols of a valid list, one symbol in
   particular, makes it invalid, whatever its length.
   */
  lemma BurstDetected(hrp: string, v: seq<Byte>, w: seq<Byte>, from: nat)
    requires AllBytes(hrp) && AllSymbols(v) && AllSymbols(w) && |v| == |w| && v != w
    requires forall i :: 0 <= i < |v| && v[i] != w[i] ==> from <= i < from + 6
    requires Verified(hrp, v)
    ensures !Verified(hrp, w)
  {
    hide Step, Run, Bits, Words, XorAll, Verified;
    var at :| 0 <= at < |v| && v[at] != w[at];
    var start := if from < |v| then from else |v|;
    var end := if from + 6 < |v| then from + 6 else |v|;
    var e := XorAll(Words(v), Words(w));
    Differences(v, w);
    BurstRuns(e, start, end, at);
    if Verified(hrp, w) {
      DifferentBy(hrp, v, w);
      assert false;
    }
  }

  lemma BurstRuns(e: seq<Word>, start: nat, end: nat, at: nat)
    requires start <= at < end <= |e| && end <= start + 6 && Symbols(e) && e[at] != Zero()
    requires forall i :: 0 <= i < |e| && !(start <= i < end) ==> e[i] == Zero()
    ensures Run(Zero(), e) != Zero()
  {
    hide Step, Run, Below;
    var x := e[start..end];
    assert e == Zeros(start) + x + Zeros(|e| - end);
    assert x[at - start] == e[at];
    BurstIsSeen(start, x, |e| - end);
  }

  lemma Differences(v: seq<Byte>, w: seq<Byte>)
    requires AllSymbols(v) && AllSymbols(w) && |v| == |w|
    ensures var e := XorAll(Words(v), Words(w));
            |e| == |v| && Symbols(e) && forall i :: 0 <= i < |v| ==> (e[i] == Zero() <==> v[i] == w[i])
  {
    hide Bits;
    var e := XorAll(Words(v), Words(w));
    forall i | 0 <= i < |v| ensures Below(e[i], 5) && (e[i] == Zero() <==> v[i] == w[i]) {
      SymbolBits(v[i]);
      SymbolBits(w[i]);
      XorSelf(Bits(v[i]), Bits(w[i]));
      if e[i] == Zero() {
        SameBits(v[i], w[i]);
      }
    }
  }

  /** A prefix and data have only one checksum. */
  lemma OnlyChecksum(hrp: string, values: seq<Byte>, a: seq<Byte>, b: seq<Byte>)
    requires AllBytes(hrp) && AllSymbols(values) && |a| == |b| == 6 && AllSymbols(a) && AllSymbols(b)
    requires Verified(hrp, values + a) && Verified(hrp, values + b)
    ensures a == b
  {
    hide Verified;
    assert (values + a)[|values|..] == a && (values + b)[|values|..] == b;
    if a != b {
      BurstDetected(hrp, values + a, values + b, |values|);
      assert false;
    }
  }

  // ------------------------------------------------------------------- encoding and decoding

  function Chars(v: seq<Byte>): (r: string)
    requires AllSymbols(v)
    ensures |r| == |v| && forall i :: 0 <= i < |v| ==> r[i] == Charset(v[i])
  {
    seq(|v|, i requires 0 <= i < |v| => Charset(v[i]))
  }

  function Lowered(s: string): (r: string)
    ensures |r| == |s| && forall i :: 0 <= i < |s| ==> r[i] == LowerCase(s[i])
  {
    seq(|s|, i requires 0 <= i < |s| => LowerCase(s[i]))
  }

  predicate Printable(s: string) {
    forall i :: 0 <= i < |s| ==> '!' <= s[i] <= '~'
  }

  predicate HasLower(s: string) {
    exists i :: 0 <= i < |s| && 'a' <= s[i] <= 'z'
  }

  predicate HasUpper(s: string) {
    exists i :: 0 <= i < |s| && 'A' <= s[i] <= 'Z'
  }

  /** The string spells a prefix, the separator, data and a checksum that verifies. */
  ghost predicate Spells(s: string, hrp: string, values: seq<Byte>, chk: seq<Byte>) {
    && hrp != "" && Printable(hrp) && AllSymbols(values) && |chk| == 6 && AllSymbols(chk)
    && Lowered(s) == hrp + "1" + Chars(values + chk)
    && Verified(hrp, values + chk)
  }

  /** The Bech32 strings: printable, not of mixed case, at most 90 long, and well spelled. */
  ghost predicate Accepted(s: string, hrp: string, values: seq<Byte>, chk: seq<Byte>) {
    Printable(s) && !(HasLower(s) && HasUpper(s)) && |s| <= 90 && Spells(s, hrp, values, chk)
  }

  /** Six symbols that make the data verify. */
  ghost predicate IsChecksum(hrp: string, values: seq<Byte>, chk: seq<Byte>) {
    AllBytes(hrp) && |chk| == 6 && AllSymbols(chk) && Verified(hrp, values + chk)
  }

  method Encode(hrp: string, values: seq<Byte>) returns (ret: string)
    requires AllBytes(hrp) && AllSymbols(values)
    ensures exists chk :: IsChecksum(hrp, values, chk) && ret == hrp + "1" + Chars(values + chk)
  {
    hide Verified, Charset;
    var checksum := CreateChecksum(hrp, values);
    var combined := values + checksum;
    ret := hrp + "1";
    for i := 0 to |combined|
      invariant ret == hrp + "1" + Chars(combined)[..i]
    {
      ret := ret + [Charset(combined[i])];
    }
    assert Chars(combined)[..|combined|] == Chars(combined);
    assert IsChecksum(hrp, values, checksum);
  }

  /** `rfind`; -1 for npos. */
  method RFind(s: string, c: char) returns (pos: int)
    ensures -1 <= pos < |s| && (pos >= 0 ==> s[pos] == c) && forall i :: pos < i < |s| ==> s[i] != c
  {
    for i := |s| downto 0
      invariant forall j :: i <= j < |s| ==> s[j] != c
    {
      if s[i] == c {
        return i;
      }
    }
    return -1;
  }

  /** The pass over the characters of a string. */
  method CheckCase(s: string) returns (printable: bool, lower: bool, upper: bool)
    ensures printable == Printable(s)
    ensures printable ==> lower == HasLower(s) && upper == HasUpper(s)
  {
    lower, upper := false, false;
    for i := 0 to |s|
      invariant forall j :: 0 <= j < i ==> '!' <= s[j] <= '~'
      invariant lower <==> exists j :: 0 <= j < i && 'a' <= s[j] <= 'z'
      invariant upper <==> exists j :: 0 <= j < i && 'A' <= s[j] <= 'Z'
    {
      var c := s[i];
      if c < '!' || c > '~' {
        return false, lower, upper;
      }
      if 'a' <= c <= 'z' {
        lower := true;
      }
      if 'A' <= c <= 'Z' {
        upper := true;
      }
    }
    return true, lower, upper;
  }

  /** A well spelled string falls apart at its last separator in one way only. */
  lemma SpellingParts(s: string, hrp: string, values: seq<Byte>, chk: seq<Byte>)
    requires Spells(s, hrp, values, chk)
    ensures |s| == |hrp| + 1 + |values| + 6 && s[|hrp|] == '1' && forall i :: |hrp| < i < |s| ==> s[i] != '1'
    ensures hrp == Lowered(s[..|hrp|])
    ensures forall i :: 0 <= i < |values| + 6 ==> CharsetRev(s[|hrp| + 1 + i]) == (values + chk)[i]
  {
    hide Verified, Charset, LowerRev;
    var low := Lowered(s);
    assert |low| == |s|;
    assert low[|hrp|] == '1';
    forall i | 0 <= i < |values| + 6
      ensures CharsetRev(s[|hrp| + 1 + i]) == (values + chk)[i] && s[|hrp| + 1 + i] != '1'
    {
      var c := s[|hrp| + 1 + i];
      assert LowerCase(c) == low[|hrp| + 1 + i] == Charset((values + chk)[i]);
      CharsetInverse((values + chk)[i]);
    }
    assert forall i :: |hrp| < i < |s| ==> s[i] == s[|hrp| + 1 + (i - |hrp| - 1)];
    assert hrp == low[..|hrp|];
  }

  lemma SpelledBy(s: string, pos: nat, values: seq<Byte>)
    requires 0 < pos && pos + 7 <= |s| && s[pos] == '1' && Printable(s) && |values| == |s| - 1 - pos
    requires forall i :: 0 <= i < |values| ==> CharsetRev(s[i + pos + 1]) == values[i]
    requires AllBytes(Lowered(s[..pos])) && Verified(Lowered(s[..pos]), values)
    ensures AllSymbols(values) && Spells(s, Lowered(s[..pos]), values[..|values| - 6], values[|values| - 6..])
  {
    hide Verified, Charset, LowerRev;
    var hrp := Lowered(s[..pos]);
    forall i | 0 <= i < |values| ensures values[i] < 32 && Charset(values[i]) == LowerCase(s[i + pos + 1]) {
      RevInverse(s[i + pos + 1]);
    }
    assert values[..|values| - 6] + values[|values| - 6..] == values;
    Reassembled(s, pos, values);
    LoweredPrintable(s[..pos]);
  }

  lemma LoweredPrintable(s: string)
    requires Printable(s)
    ensures Printable(Lowered(s))
  {
  }

  lemma Reassembled(s: string, pos: nat, values: seq<Byte>)
    requires pos < |s| && s[pos] == '1' && |values| == |s| - 1 - pos && AllSymbols(values)
    requires forall i :: 0 <= i < |values| ==> Charset(values[i]) == LowerCase(s[i + pos + 1])
    ensures Lowered(s) == Lowered(s[..pos]) + "1" + Chars(values)
  {
    hide Charset;
    var low, parts := Lowered(s), Lowered(s[..pos]) + "1" + Chars(values);
    forall i | 0 <= i < |s| ensures low[i] == parts[i] {
      if i > pos {
        assert parts[i] == Chars(values)[i - pos - 1] == Charset(values[i - pos - 1]);
        assert s[i] == s[(i - pos - 1) + pos + 1];
      }
    }
  }

  /** Returns the parts of an accepted string, and empty parts for every other string. */
  method Decode(str: string) returns (hrp: string, data: seq<Byte>, ghost chk: seq<Byte>)
    ensures hrp != "" ==> Accepted(str, hrp, data, chk)
    ensures hrp == "" ==> data == [] && forall h, v, c :: !Accepted(str, h, v, c)
  {
    hide Verified, Charset, LowerRev, Spells;
    var printable, lower, upper := CheckCase(str);
    if !printable || (lower && upper) {
      return "", [], [];
    }
    var pos := RFind(str, '1');
    Separated(str, pos);
    if |str| > 90 || pos == -1 || pos == 0 || pos + 7 > |str| {
      return "", [], [];
    }
    var values: seq<Byte> := [];
    for i := 0 to |str| - 1 - pos
      invariant |values| == i && forall j :: 0 <= j < i ==> CharsetRev(str[j + pos + 1]) == values[j]
    {
      var rev := CharsetRev(str[i + pos + 1]);
      RevInverse(str[i + pos + 1]);
      if rev == -1 {
        BadSymbol(str, pos, i);
        return "", [], [];
      }
      values := values + [rev];
    }
    hrp := "";
    for i := 0 to pos
      invariant hrp == Lowered(str[..pos])[..i]
    {
      hrp := hrp + [LowerCase(str[i])];
    }
    assert hrp == Lowered(str[..pos]);
    LoweredBytes(str, pos);
    var ok := VerifyChecksum(hrp, values);
    if !ok {
      BadChecksum(str, pos, values);
      return "", [], [];
    }
    SpelledBy(str, pos, values);
    data := values[..|values| - 6];
    chk := values[|values| - 6..];
  }

  lemma LoweredBytes(s: string, pos: nat)
    requires pos <= |s| && Printable(s)
    ensures AllBytes(Lowered(s[..pos]))
  {
  }

  /** An accepted string has its separator, the last `1`, where `rfind` finds it. */
  lemma Separated(s: string, pos: int)
    requires -1 <= pos < |s| && (pos >= 0 ==> s[pos] == '1') && forall i :: pos < i < |s| ==> s[i] != '1'
    ensures forall h, v, c :: Spells(s, h, v, c) ==> |h| == pos > 0 && pos + 7 <= |s|
  {
    hide Spells;
    forall h, v, c | Spells(s, h, v, c) ensures |h| == pos > 0 && pos + 7 <= |s| {
      SpellingParts(s, h, v, c);
      NonEmptyPrefix(s, h, v, c);
    }
  }

  lemma NonEmptyPrefix(s: string, hrp: string, values: seq<Byte>, chk: seq<Byte>)
    requires Spells(s, hrp, values, chk)
    ensures |hrp| > 0
  {
  }

  lemma GoodSymbol(s: string, hrp: string, values: seq<Byte>, chk: seq<Byte>, i: nat)
    requires Spells(s, hrp, values, chk) && |hrp| < |s| && i < |s| - 1 - |hrp|
    ensures CharsetRev(s[i + |hrp| + 1]) >= 0
  {
    hide Verified, Charset, LowerRev;
    SpellingParts(s, hrp, values, chk);
    assert CharsetRev(s[|hrp| + 1 + i]) == (values + chk)[i];
  }

  lemma BadSymbol(s: string, pos: nat, i: nat)
    requires forall h, v, c :: Spells(s, h, v, c) ==> |h| == pos
    requires i < |s| - 1 - pos && CharsetRev(s[i + pos + 1]) == -1
    ensures forall h, v, c :: !Spells(s, h, v, c)
  {
    hide Spells, LowerRev;
    forall h, v, c ensures !Spells(s, h, v, c) {
      if Spells(s, h, v, c) {
        GoodSymbol(s, h, v, c, i);
        assert false;
      }
    }
  }

  lemma BadChecksum(s: string, pos: nat, values: seq<Byte>)
    requires forall h, v, c :: Spells(s, h, v, c) ==> |h| == pos
    requires pos <= |s| && |values| == |s| - 1 - pos && forall i :: 0 <= i < |values| ==> CharsetRev(s[i + pos + 1]) == values[i]
    requires AllBytes(Lowered(s[..pos])) && !Verified(Lowered(s[..pos]), values)
    ensures forall h, v, c :: !Spells(s, h, v, c)
  {
    hide Verified, LowerRev, Charset;
    forall h, v, c ensures !Spells(s, h, v, c) {
      if Spells(s, h, v, c) {
        SpellingParts(s, h, v, c);
        SameValues(s, pos, v + c, values);
        assert false;
      }
    }
  }

  lemma SameValues(s: string, pos: nat, v: seq<Byte>, w: seq<Byte>)
    requires |v| == |w| == |s| - 1 - pos
    requires forall i :: 0 <= i < |v| ==> CharsetRev(s[pos + 1 + i]) == v[i]
    requires forall i :: 0 <= i < |w| ==> CharsetRev(s[i + pos + 1]) == w[i]
    ensures v == w
  {
    forall i | 0 <= i < |v| ensures v[i] == w[i] {
      assert pos + 1 + i == i + pos + 1;
    }
  }

  /** What is encoded within the limits of the format decodes to itself. */
  method EncodeDecode(hrp: string, values: seq<Byte>) returns (hrp': string, values': seq<Byte>)
    requires hrp != "" && Printable(hrp) && !HasUpper(hrp) && AllSymbols(values) && |hrp| + 7 + |values| <= 90
    ensures hrp' == hrp && values' == values
  {
    hide Verified, Charset, LowerRev, Spells;
    var s := Encode(hrp, values);
    ghost var chk :| IsChecksum(hrp, values, chk) && s == hrp + "1" + Chars(values + chk);
    EncodedAccepted(s, hrp, values, chk);
    ghost var chk';
    hrp', values', chk' := Decode(s);
    OneSpelling(s, hrp, values, chk, hrp', values', chk');
  }

  lemma EncodedAccepted(s: string, hrp: string, values: seq<Byte>, chk: seq<Byte>)
    requires hrp != "" && Printable(hrp) && !HasUpper(hrp) && AllSymbols(values) && |hrp| + 7 + |values| <= 90
    requires |chk| == 6 && AllSymbols(chk) && Verified(hrp, values + chk) && s == hrp + "1" + Chars(values + chk)
    ensures Accepted(s, hrp, values, chk)
  {
    hide Verified, Charset, LowerRev;
    forall i | 0 <= i < |s| ensures '!' <= s[i] <= '~' && !('A' <= s[i] <= 'Z') {
      if i > |hrp| {
        CharsetInverse((values + chk)[i - |hrp| - 1]);
      }
    }
    assert Lowered(s) == s;
  }

  /** A string spells one prefix and one list of symbols. */
  lemma OneSpelling(s: string, h: string, v: seq<Byte>, c: seq<Byte>, h': string, v': seq<Byte>, c': seq<Byte>)
    requires Spells(s, h, v, c) && Spells(s, h', v', c')
    ensures h == h' && v == v' && c == c'
  {
    hide Verified, Charset, LowerRev;
    SpellingParts(s, h, v, c);
    SpellingParts(s, h', v', c');
    assert |h| == |h'|;
    assert v + c == v' + c' by {
      forall i | 0 <= i < |v + c| ensures (v + c)[i] == (v' + c')[i] {
      }
    }
    assert v == (v + c)[..|v|] && v' == (v' + c')[..|v|] && c == (v + c)[|v|..] && c' == (v' + c')[|v|..];
  }

  /** Decoding and encoding again gives the string in lower case. */
  method DecodeEncode(str: string) returns (ok: bool, again: string)
    ensures ok <==> exists h, v, c :: Accepted(str, h, v, c)
    ensures ok ==> again == Lowered(str)
  {
    hide Verified, Charset, LowerRev, Printable;
    var hrp, data, chk := Decode(str);
    ok := hrp != "";
    again := "";
    if ok {
      PrintableBytes(hrp);
      again := Encode(hrp, data);
      ghost var chk' :| IsChecksum(hrp, data, chk') && again == hrp + "1" + Chars(data + chk');
      OnlyChecksum(hrp, data, chk, chk');
    }
  }

  lemma PrintableBytes(s: string)
    requires Printable(s)
    ensures AllBytes(s)
  {
  }
}
