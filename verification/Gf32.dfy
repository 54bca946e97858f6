/**
 The field GF(32) and polynomials over it: the arithmetic in which the Bech32
 checksum is defined.
 */
module Gf32 {
  /** A field element: a polynomial in `a` over GF(2) of degree below five, by its coefficients. */
  datatype F = F(a0: bool, a1: bool, a2: bool, a3: bool, a4: bool)

  const ZERO := F(false, false, false, false, false)
  const ONE := F(true, false, false, false, false)

  /** Coefficient number `i`. */
  function Bit(x: F, i: nat): bool {
    match i
    case 0 => x.a0
    case 1 => x.a1
    case 2 => x.a2
    case 3 => x.a3
    case _ => x.a4
  }

  function Add(x: F, y: F): F {
    F(x.a0 != y.a0, x.a1 != y.a1, x.a2 != y.a2, x.a3 != y.a3, x.a4 != y.a4)
  }

  /** Times `a`, modulo a^5 + a^3 + 1. */
  function TimesA(x: F): F {
    F(x.a4, x.a0, x.a1, x.a2 != x.a4, x.a3)
  }

  /** Times `a^n`. */
  function TimesPower(x: F, n: nat): F {
    if n == 0 then x else TimesA(TimesPower(x, n - 1))
  }

  function When(b: bool, x: F): F {
    if b then x else ZERO
  }

  /** The product of the two as polynomials in `a`, modulo a^5 + a^3 + 1: one multiple of `y` for each power of `a` in `x`. */
  function Mul(x: F, y: F): F {
    Add(Add(Add(Add(When(x.a0, y), When(x.a1, TimesPower(y, 1))), When(x.a2, TimesPower(y, 2))),
            When(x.a3, TimesPower(y, 3))), When(x.a4, TimesPower(y, 4)))
  }

  lemma AddLaws(x: F, y: F, z: F)
    ensures Add(x, y) == Add(y, x) && Add(Add(x, y), z) == Add(x, Add(y, z)) && Add(x, ZERO) == x && Add(x, x) == ZERO
  {
  }

  lemma AddBit(x: F, y: F, i: nat)
    ensures Bit(Add(x, y), i) == (Bit(x, i) != Bit(y, i))
  {
  }

  lemma WhenBit(b: bool, x: F, i: nat)
    ensures Bit(When(b, x), i) == (b && Bit(x, i))
  {
  }

  /** Adding the same element twice changes nothing. */
  lemma AddTwice(x: F, y: F)
    ensures Add(Add(x, y), y) == x && Add(y, Add(x, y)) == x
  {
  }

  lemma MulOne(x: F)
    ensures Mul(x, ONE) == x
  {
    assert TimesPower(ONE, 1) == F(false, true, false, false, false);
    assert TimesPower(ONE, 2) == TimesA(TimesPower(ONE, 1)) == F(false, false, true, false, false);
    assert TimesPower(ONE, 3) == TimesA(TimesPower(ONE, 2)) == F(false, false, false, true, false);
    assert TimesPower(ONE, 4) == TimesA(TimesPower(ONE, 3)) == F(false, false, false, false, true);
  }

  /** {5} * {26} = {9} */
  lemma MulExample()
    ensures Mul(F(true, false, true, false, false), F(false, true, false, true, true)) == F(true, false, false, true, false)
  {
    var y := F(false, true, false, true, true);
    assert TimesPower(y, 1) == TimesA(y) == F(true, false, true, true, true);
    assert TimesPower(y, 2) == TimesA(TimesPower(y, 1)) == F(true, true, false, false, true);
  }

  // ------------------------------------------------------------------------------ polynomials

  /** Coefficients, the highest first. */
  type Poly = seq<F>

  function Zeros(n: nat): (r: Poly)
    ensures |r| == n && forall i :: 0 <= i < n ==> r[i] == ZERO
  {
    seq(n, _ => ZERO)
  }

  /** The sum, for `q` with no more coefficients than `p`. */
  function Plus(p: Poly, q: Poly): (r: Poly)
    requires |q| <= |p|
    ensures |r| == |p|
    ensures forall i :: 0 <= i < |p| ==> r[i] == if i < |p| - |q| then p[i] else Add(p[i], q[i - (|p| - |q|)])
  {
    var d := |p| - |q|;
    seq(|p|, i requires 0 <= i < |p| => if i < d then p[i] else Add(p[i], q[i - d]))
  }

  function Scale(c: F, p: Poly): (r: Poly)
    ensures |r| == |p| && forall i :: 0 <= i < |p| ==> r[i] == Mul(c, p[i])
  {
    seq(|p|, i requires 0 <= i < |p| => Mul(c, p[i]))
  }

  /** The product: (q x + c) g = (q g) x + c g. */
  function Times(q: Poly, g: Poly): (r: Poly)
    requires |g| > 0
    ensures |r| == |q| + |g| - 1
  {
    if q == [] then Zeros(|g| - 1)
    else Plus(Times(q[..|q| - 1], g) + [ZERO], Scale(q[|q| - 1], g))
  }

  /** `r` is what division of `f` by `g` leaves. */
  ghost predicate IsRemainder(f: Poly, g: Poly, r: Poly) {
    |g| > 0 && |r| == |g| - 1 && exists q :: Divided(f, g, q, r)
  }

  /** f = q g + r, with leading zeros for `f` if it is the shorter one. */
  ghost predicate Divided(f: Poly, g: Poly, q: Poly, r: Poly)
    requires |g| > 0 && |r| == |g| - 1
  {
    |f| <= |q| + |r| && Plus(Times(q, g), r) == Zeros(|q| + |r| - |f|) + f
  }

  // ------------------------------------------------------------- the remainder is determined

  /** The highest coefficient of a product with a monic polynomial, and what is left without it. */
  lemma {:induction false} TimesFront(c: F, q: Poly, g: Poly)
    requires |g| > 0 && g[0] == ONE
    ensures var t := Times([c] + q, g); t[0] == c && t[1..] == TailPlus(c, g, Times(q, g))
  {
    hide Mul, Add, TailPlus, Times, Plus, Scale;
    if q == [] {
      assert [c] + q == [c];
      TimesConstant(c, g);
    } else {
      var n := |q| - 1;
      TimesFront(c, q[..n], g);
      assert ([c] + q)[..n + 1] == [c] + q[..n];
      TimesMore([c] + q, g);
      TimesMore(q, g);
      TailPlusStep(c, g, Times(q[..n], g), Scale(q[n], g));
      PlusTail(Times([c] + q[..n], g) + [ZERO], Scale(q[n], g));
      assert (Times([c] + q[..n], g) + [ZERO])[1..] == Times([c] + q[..n], g)[1..] + [ZERO];
    }
  }

  lemma TimesMore(q: Poly, g: Poly)
    requires |g| > 0 && q != []
    ensures Times(q, g) == Plus(Times(q[..|q| - 1], g) + [ZERO], Scale(q[|q| - 1], g))
  {
  }

  lemma TimesConstant(c: F, g: Poly)
    requires |g| > 0 && g[0] == ONE
    ensures var t := Times([c], g); t[0] == c && t[1..] == TailPlus(c, g, Times([], g))
  {
    hide Mul, Add, Plus, Times, TailPlus, Scale, Zeros;
    assert [c][..0] == [];
    TimesMore([c], g);
    TimesNothing(g);
    assert Times([], g) + [ZERO] == Zeros(|g|);
    ZerosPlus(Scale(c, g));
    ScaleTail(c, g);
  }

  lemma ScaleTail(c: F, g: Poly)
    requires |g| > 0 && g[0] == ONE
    ensures Scale(c, g)[0] == c && Scale(c, g)[1..] == TailPlus(c, g, Zeros(|g| - 1))
  {
    hide Mul, Add, TailPlus, Scale, Zeros;
    MulOne(c);
    var l, r := Scale(c, g)[1..], TailPlus(c, g, Zeros(|g| - 1));
    forall i | 0 <= i < |g| - 1 ensures l[i] == r[i] {
      AddLaws(Mul(c, g[i + 1]), ZERO, ZERO);
      AddLaws(ZERO, Mul(c, g[i + 1]), ZERO);
    }
  }

  /** `t` with the tail of c g added at its high end. */
  function TailPlus(c: F, g: Poly, t: Poly): (r: Poly)
    requires 0 < |g| <= |t| + 1
    ensures |r| == |t| && forall i :: 0 <= i < |t| ==> r[i] == if i < |g| - 1 then Add(t[i], Mul(c, g[i + 1])) else t[i]
  {
    seq(|t|, i requires 0 <= i < |t| => if i < |g| - 1 then Add(t[i], Mul(c, g[i + 1])) else t[i])
  }

  lemma TailPlusStep(c: F, g: Poly, t: Poly, s: Poly)
    requires 0 < |g| <= |t| + 1 && |s| == |g|
    ensures Plus(TailPlus(c, g, t) + [ZERO], s) == TailPlus(c, g, Plus(t + [ZERO], s))
  {
    hide Mul, Add;
    var l, r := Plus(TailPlus(c, g, t) + [ZERO], s), TailPlus(c, g, Plus(t + [ZERO], s));
    forall i | 0 <= i < |l| ensures l[i] == r[i] {
      if i < |g| - 1 && i >= |t| + 1 - |s| {
        var a, b, d := t[i], Mul(c, g[i + 1]), s[i - (|t| + 1 - |s|)];
        AddLaws(a, b, d);
        AddLaws(b, d, a);
        AddLaws(a, d, b);
      }
    }
  }

  lemma CancelMiddle(a: F, m: F, p: F, a': F, p': F)
    ensures Add(Add(a, m), p) == Add(Add(a', m), p') <==> Add(a, p) == Add(a', p')
    ensures Add(a, m) == Add(a', m) <==> a == a'
  {
    hide Add;
    AddTwice(a, m);
    AddTwice(a', m);
    AddExchange(a, m, p);
    AddExchange(a', m, p');
    AddTwice(Add(a, p), m);
    AddTwice(Add(a', p'), m);
  }

  lemma AddExchange(a: F, m: F, p: F)
    ensures Add(Add(a, m), p) == Add(Add(a, p), m)
  {
  }

  /** The same leading coefficient can be taken off on both sides. */
  lemma CancelFront(c: F, g: Poly, t: Poly, r: Poly, t': Poly, r': Poly)
    requires 0 < |g| <= |t| + 1 && |t| == |t'| && |r| == |r'| == |g| - 1
    requires Plus(TailPlus(c, g, t), r) == Plus(TailPlus(c, g, t'), r')
    ensures Plus(t, r) == Plus(t', r')
  {
    hide Mul, Add;
    var d := |t| - |r|;
    forall i | 0 <= i < |t| ensures Plus(t, r)[i] == Plus(t', r')[i] {
      assert Plus(TailPlus(c, g, t), r)[i] == Plus(TailPlus(c, g, t'), r')[i];
      var m := if i < |g| - 1 then Mul(c, g[i + 1]) else ZERO;
      if i < d {
        CancelMiddle(t[i], m, ZERO, t'[i], ZERO);
      } else {
        CancelMiddle(t[i], m, r[i - d], t'[i], r'[i - d]);
      }
    }
  }

  lemma ZerosPlus(r: Poly)
    ensures Plus(Zeros(|r|), r) == r
  {
    hide Add;
    forall i | 0 <= i < |r| ensures Add(ZERO, r[i]) == r[i] {
      AddLaws(ZERO, r[i], ZERO);
      AddLaws(r[i], ZERO, ZERO);
    }
  }

  lemma PlusTail(t: Poly, r: Poly)
    requires |r| < |t|
    ensures Plus(t, r)[0] == t[0] && Plus(t, r)[1..] == Plus(t[1..], r)
  {
    hide Add;
  }

  /** Division by a monic polynomial has one result. */
  lemma {:induction false} DivisionUnique(g: Poly, q: Poly, r: Poly, q': Poly, r': Poly)
    requires |g| > 0 && g[0] == ONE && |r| == |r'| == |g| - 1 && |q| == |q'|
    requires Plus(Times(q, g), r) == Plus(Times(q', g), r')
    ensures q == q' && r == r'
    decreases |q|
  {
    hide Times, TailPlus;
    if q == [] {
      TimesNothing(g);
      ZerosPlus(r);
      ZerosPlus(r');
    } else {
      var p, p' := q[1..], q'[1..];
      assert q == [q[0]] + p && q' == [q'[0]] + p';
      TimesFront(q[0], p, g);
      TimesFront(q'[0], p', g);
      PlusTail(Times(q, g), r);
      PlusTail(Times(q', g), r');
      CancelFront(q[0], g, Times(p, g), r, Times(p', g), r');
      DivisionUnique(g, p, r, p', r');
    }
  }

  lemma TimesNothing(g: Poly)
    requires |g| > 0
    ensures Times([], g) == Zeros(|g| - 1)
  {
  }

  lemma MulZero(x: F)
    ensures Mul(ZERO, x) == ZERO
  {
  }

  /** A quotient may have leading zeros. */
  lemma {:induction false} LongerQuotient(f: Poly, g: Poly, q: Poly, r: Poly, n: nat)
    requires |g| > 0 && g[0] == ONE && |r| == |g| - 1 && Divided(f, g, q, r)
    ensures Divided(f, g, Zeros(n) + q, r)
  {
    hide Times, Mul, Add, Plus, TailPlus;
    if n == 0 {
      assert Zeros(0) + q == q;
    } else {
      LongerQuotient(f, g, q, r, n - 1);
      var p := Zeros(n - 1) + q;
      assert Zeros(n) + q == [ZERO] + p;
      TimesFront(ZERO, p, g);
      NoTail(g, Times(p, g));
      PlusTail(Times([ZERO] + p, g), r);
      assert Zeros(|q| + n + |r| - |f|) + f == [ZERO] + (Zeros(|q| + n - 1 + |r| - |f|) + f);
    }
  }

  lemma NoTail(g: Poly, t: Poly)
    requires 0 < |g| <= |t| + 1
    ensures TailPlus(ZERO, g, t) == t
  {
    hide Mul, Add;
    forall i | 0 <= i < |t| ensures TailPlus(ZERO, g, t)[i] == t[i] {
      if i < |g| - 1 {
        MulZero(g[i + 1]);
        AddLaws(t[i], ZERO, ZERO);
      }
    }
  }

  /** A monic polynomial leaves only one remainder. */
  lemma RemainderUnique(f: Poly, g: Poly, r: Poly, r': Poly)
    requires IsRemainder(f, g, r) && IsRemainder(f, g, r') && g[0] == ONE
    ensures r == r'
  {
    hide Times, Plus, Divided;
    var q :| Divided(f, g, q, r);
    var q' :| Divided(f, g, q', r');
    LongerQuotient(f, g, q, r, |q'|);
    LongerQuotient(f, g, q', r', |q|);
    SameDivision(f, g, Zeros(|q'|) + q, r, Zeros(|q|) + q', r');
  }

  lemma SameDivision(f: Poly, g: Poly, q: Poly, r: Poly, q': Poly, r': Poly)
    requires |g| > 0 && g[0] == ONE && |r| == |r'| == |g| - 1 && |q| == |q'|
    requires Divided(f, g, q, r) && Divided(f, g, q', r')
    ensures r == r'
  {
    hide Times, Plus;
    DivisionUnique(g, q, r, q', r');
  }

  // ------------------------------------------------------------------------- long division

  /** Long division by g = x^n + k, one more coefficient `v` brought down: r x + v is reduced by r[0] g. */
  lemma BringDown(k: Poly, q: Poly, r: Poly, v: F)
    requires |k| > 0 && |r| == |k|
    ensures Plus(Times(q + [r[0]], [ONE] + k), Plus(r[1..] + [v], Scale(r[0], k))) == Plus(Times(q, [ONE] + k), r) + [v]
  {
    hide Mul, Add, Plus, Scale, Times;
    var g := [ONE] + k;
    var t, c := Times(q, g), r[0];
    assert (q + [c])[..|q|] == q;
    TimesMore(q + [c], g);
    var t' := Plus(t + [ZERO], Scale(c, g));
    var r' := Plus(r[1..] + [v], Scale(c, k));
    MulOne(c);
    forall i | 0 <= i <= |q| + |k| ensures Plus(t', r')[i] == (Plus(t, r) + [v])[i] {
      if i > |q| {
        BroughtDown(k, t, r, v, |q|, i);
      }
    }
  }

  lemma BroughtDown(k: Poly, t: Poly, r: Poly, v: F, n: nat, i: nat)
    requires |k| > 0 && |r| == |k| && |t| == n + |k| && n < i <= n + |k|
    ensures Plus(Plus(t + [ZERO], Scale(r[0], [ONE] + k)), Plus(r[1..] + [v], Scale(r[0], k)))[i] == (Plus(t, r) + [v])[i]
  {
    hide Mul, Add, Plus, Scale;
    var j := i - n - 1;
    var x, m, y := (t + [ZERO])[i], Mul(r[0], k[j]), (r[1..] + [v])[j];
    AddAround(x, m, y);
    AddLaws(v, ZERO, ZERO);
    AddLaws(ZERO, v, ZERO);
  }

  lemma AddAround(x: F, m: F, y: F)
    ensures Add(Add(x, m), Add(y, m)) == Add(x, y)
  {
  }
}
