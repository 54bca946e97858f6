/**
 The heights a walk back through the skip list visits, and how many there are.
 */
module SkipList {
  import opened Numbers

  // ------------------------------------------------------------------ skip heights

  function BitAnd(a: nat, b: nat): (r: nat)
    ensures r <= a && r <= b
  {
    if a == 0 || b == 0 then 0
    else (if a % 2 == 1 && b % 2 == 1 then 1 else 0) + 2 * BitAnd(a / 2, b / 2)
  }

  function InvertLowestOne(n: nat): nat {
    if n == 0 then 0 else BitAnd(n, n - 1)
  }

  lemma {:induction false} BitAndSelf(n: nat)
    ensures BitAnd(n, n) == n
  {
    if n != 0 {
      BitAndSelf(n / 2);
    }
  }

  lemma InvertOdd(m: nat)
    ensures InvertLowestOne(2 * m + 1) == 2 * m
  {
    BitAndSelf(m);
  }

  lemma InvertEven(x: nat)
    requires x > 0
    ensures InvertLowestOne(2 * x) == 2 * InvertLowestOne(x)
  {
    assert (2 * x - 1) / 2 == x - 1;
  }

  /** The lowest one bit, and only it, becomes zero. */
  lemma {:induction false} LowestOneInverted(m: nat, k: nat)
    ensures InvertLowestOne((2 * m + 1) * Pow2(k)) == 2 * m * Pow2(k)
  {
    hide InvertLowestOne;
    InvertOdd(m);
    if k > 0 {
      LowestOneInverted(m, k - 1);
      Doubled(2 * m + 1, k);
      Doubled(2 * m, k);
      MulStrict(0, 2 * m + 1, Pow2(k - 1));
      InvertEven((2 * m + 1) * Pow2(k - 1));
    }
  }

  /** The height `pskip` jumps back to; strictly lower than a positive height. */
  function GetSkipHeight(height: nat): (r: nat)
    ensures height > 0 ==> r < height
  {
    if height < 2 then 0
    else if height % 2 == 1 then InvertLowestOne(InvertLowestOne(height - 1)) + 1
    else InvertLowestOne(height)
  }

  // --------------------------------------------------------------------- the walk

  /** Where the walk to height `t` goes from `h`, if all skip pointers are set. */
  function Next(h: nat, t: nat): (r: nat)
    requires t < h
    ensures t <= r < h
  {
    var heightSkip, heightSkipPrev := GetSkipHeight(h), GetSkipHeight(h - 1);
    if heightSkip == t || (heightSkip > t && !(heightSkipPrev < heightSkip - 2 && heightSkipPrev >= t)) then heightSkip
    else h - 1
  }

  function Steps(h: nat, t: nat): nat
    requires t <= h
  {
    if h == t then 0 else 1 + Steps(Next(h, t), t)
  }

  // ------------------------------------------------------------- multiples of powers of two

  /** `e` is a multiple of 2^j. */
  predicate Multiple(j: nat, e: nat) {
    j == 0 || (e % 2 == 0 && Multiple(j - 1, e / 2))
  }

  /** The position of the lowest one bit. */
  function Lowest(e: nat): nat
    requires e > 0
  {
    if e % 2 == 1 then 0 else 1 + Lowest(e / 2)
  }

  lemma {:induction false} InvertIs(e: nat)
    requires e > 0
    ensures Pow2(Lowest(e)) <= e && InvertLowestOne(e) == e - Pow2(Lowest(e))
    ensures Multiple(Lowest(e), e) && Multiple(Lowest(e) + 1, InvertLowestOne(e))
  {
    hide InvertLowestOne, Multiple, Lowest, Pow2;
    SmallPowers();
    if e % 2 == 1 {
      LowestOdd(e);
      InvertOdd(e / 2);
      OneMultiple(e - 1);
      NoMultiple(e);
    } else {
      var half := e / 2;
      assert e == 2 * half;
      InvertIs(half);
      InvertEven(half);
      LowestEven(half);
      NextPow(Lowest(half));
      DoubleMultiple(Lowest(half), half);
      DoubleMultiple(Lowest(half) + 1, InvertLowestOne(half));
    }
  }

  lemma LowestOdd(e: nat)
    requires e % 2 == 1
    ensures Lowest(e) == 0
  {
  }

  lemma LowestEven(half: nat)
    requires half > 0
    ensures Lowest(2 * half) == Lowest(half) + 1
  {
  }

  lemma DoubleMultiple(j: nat, half: nat)
    ensures Multiple(j + 1, 2 * half) <==> Multiple(j, half)
  {
  }

  lemma NoMultiple(e: nat)
    ensures Multiple(0, e)
  {
  }

  lemma LowestPositive(e: nat)
    requires e > 0 && e % 2 == 0
    ensures Lowest(e) >= 1
  {
  }

  lemma {:induction false} LowestAtLeast(j: nat, e: nat)
    requires Multiple(j, e) && e > 0
    ensures j <= Lowest(e) && Pow2(j) <= e
  {
    if j > 0 {
      LowestAtLeast(j - 1, e / 2);
    }
  }

  lemma {:induction false} FewerZeros(i: nat, j: nat, e: nat)
    requires i <= j && Multiple(j, e)
    ensures Multiple(i, e)
  {
    if i > 0 {
      FewerZeros(i - 1, j - 1, e / 2);
    }
  }

  /** Clearing the lowest one bit of a multiple takes off a power at least as high, and gives a higher multiple. */
  lemma InvertMultiple(j: nat, e: nat)
    requires Multiple(j, e) && e > 0
    ensures InvertLowestOne(e) + Pow2(j) <= e && Multiple(j + 1, InvertLowestOne(e))
  {
    hide InvertLowestOne, Multiple;
    LowestAtLeast(j, e);
    InvertIs(e);
    Pow2Monotone(j, Lowest(e));
    FewerZeros(j + 1, Lowest(e) + 1, InvertLowestOne(e));
  }

  lemma {:induction false} LowestBelow(e: nat, k: nat)
    requires 0 < e < Pow2(k)
    ensures Lowest(e) < k
  {
    if e % 2 == 0 {
      LowestBelow(e / 2, k - 1);
    }
  }

  /** Taking a lower power off a multiple leaves that power as the lowest one bit. */
  lemma {:induction false} LowestAfter(m: nat, h: nat, c: nat)
    requires Multiple(m, h) && h > 0 && c < m
    ensures Pow2(c) < h && Lowest(h - Pow2(c)) == c && Multiple(c, h - Pow2(c))
  {
    if c > 0 {
      LowestAfter(m - 1, h / 2, c - 1);
      assert h - Pow2(c) == 2 * (h / 2 - Pow2(c - 1));
    }
  }

  lemma InvertAfter(m: nat, h: nat, c: nat)
    requires Multiple(m, h) && h > 0 && c < m
    ensures Pow2(c + 1) <= h && InvertLowestOne(h - Pow2(c)) == h - Pow2(c + 1)
  {
    hide InvertLowestOne, Multiple, Lowest;
    LowestAfter(m, h, c);
    InvertIs(h - Pow2(c));
  }

  lemma Pow2Order(a: nat, b: nat)
    requires Pow2(a) < Pow2(b)
    ensures a < b
  {
    if b <= a {
      Pow2Monotone(b, a);
    }
  }

  lemma EvenMultiple(j: nat, e: nat)
    requires Multiple(j, e) && j >= 1
    ensures e % 2 == 0
  {
  }

  lemma InvertAtMost(e: nat)
    ensures InvertLowestOne(e) <= e
  {
  }

  // ------------------------------------------------------------------------- the bound

  /** The most steps from a multiple of 2^m to a target less than 2^m below it. */
  function Descent(m: nat): nat {
    match m
    case 0 => 0
    case 1 => 1
    case 2 => 3
    case 3 => 5
    case _ => Descent(m - 1) + (m + 3) / 2
  }

  /** The most steps from a height below 2^k. */
  function MaxSteps(k: nat): nat
    requires k >= 1
  {
    Descent(k - 1) + if k - 4 > k / 2 + 1 then k - 4 else k / 2 + 1
  }

  lemma {:induction false} DescentGrows(a: nat, b: nat)
    requires a <= b
    ensures Descent(a) <= Descent(b) && b <= Descent(b)
    decreases b
  {
    if b > 3 {
      DescentGrows(if a == b then b - 1 else a, b - 1);
    }
  }

  /** A multiple of four and at most two steps below. */
  lemma TwoSteps(h: nat, t: nat)
    requires Multiple(2, h) && t <= h <= t + 2
    ensures Steps(h, t) <= 2
  {
    hide InvertLowestOne, Multiple;
    if t < h {
      InvertMultiple(2, h);
      EvenMultiple(2, h);
      assert Next(h, t) == h - 1;
      if t < h - 1 {
        InvertAfter(2, h, 1);
        InvertAtMost(InvertLowestOne(h - 2));
        assert Next(h - 1, t) == h - 2;
        assert Steps(h, t) == 1 + Steps(h - 1, t) == 2 + Steps(h - 2, t);
      }
    }
  }

  /** From a multiple of 2^m to a target less than 2^m below. */
  lemma {:induction false} Descend(m: nat, h: nat, t: nat)
    requires Multiple(m, h) && t <= h < t + Pow2(m)
    ensures Steps(h, t) <= Descent(m)
    decreases m, m + 1
  {
    hide InvertLowestOne, Multiple;
    if t < h {
      if m == 0 {
        assert false;
      }
      InvertMultiple(m, h);
      EvenMultiple(m, h);
      assert GetSkipHeight(h) == InvertLowestOne(h) < t;
      assert Next(h, t) == h - 1;
      Leaps(m, h, 0, t);
    }
  }

  /** The odd heights 1, 7, 31, ... below the multiple are reached in one leap each. */
  lemma {:induction false} Leaps(m: nat, h: nat, i: nat, t: nat)
    requires Multiple(m, h) && h > 0 && h < t + Pow2(m) && t + Pow2(2 * i + 1) <= h + 1
    ensures Steps(h + 1 - Pow2(2 * i + 1), t) + i + 1 <= Descent(m)
    decreases m, m - 2 * i
  {
    hide InvertLowestOne, Multiple, Lowest, Pow2, Descent;
    var c := 2 * i + 1;
    var a, b := h + 1 - Pow2(c), h - Pow2(c);
    DescentGrows(m, m);
    NextPow(c);
    NextPow(c + 1);
    if t == a {
      AtLeastPow(c, m, h - t);
    } else {
      Pow2Order(c, m);
      LowestAfter(m, h, c);
      EvenMultiple(c, b);
      InvertAfter(m, h, c);
      InvertAtMost(InvertLowestOne(b));
      if m > c + 1 {
        InvertAfter(m, h, c + 1);
        if h + 1 - Pow2(c + 2) >= t {
          assert Next(a, t) == h + 1 - Pow2(c + 2);
          Leaps(m, h, i + 1, t);
          return;
        }
      }
      if GetSkipHeight(a) == t {
        assert Next(a, t) == t;
      } else {
        assert Next(a, t) == b;
        BelowLeap(m, h, i, t);
      }
    }
  }

  lemma NextPow(c: nat)
    ensures Pow2(c + 1) == 2 * Pow2(c) && Pow2(c) >= 1
  {
  }

  lemma AtLeastPow(c: nat, m: nat, d: nat)
    requires Pow2(c) == d + 1 && d < Pow2(m)
    ensures c <= m
  {
    if m < c {
      Pow2Strict(m, c);
    }
  }

  /** The walk from the even height just below the last leap. */
  lemma {:induction false} BelowLeap(m: nat, h: nat, i: nat, t: nat)
    requires Multiple(m, h) && h > 0 && 2 * i + 1 < m && h < t + Pow2(m) && t + Pow2(2 * i + 1) <= h
    requires m > 2 * i + 2 ==> h + 1 < t + Pow2(2 * i + 3)
    ensures Steps(h - Pow2(2 * i + 1), t) + i + 2 <= Descent(m)
    decreases m, 0
  {
    hide InvertLowestOne, Multiple, Lowest, Pow2, Descent;
    var c := 2 * i + 1;
    var b := h - Pow2(c);
    DescentGrows(m, m);
    DescentSteps(i);
    NextPow(c);
    NextPow(c + 1);
    LowestAfter(m, h, c);
    EvenMultiple(c, b);
    InvertAfter(m, h, c);
    if t + Pow2(c + 1) > h {
      DescentGrows(c + 1, m);
      Descend(c, b, t);
    } else {
      Pow2Order(c + 1, m);
      DescentGrows(c + 2, m);
      LowestAfter(m, h, c + 1);
      if t + Pow2(c + 1) < h {
        LeapGuard(m, h, i, t);
      }
      assert Next(b, t) == h - Pow2(c + 1);
      if i == 0 {
        SmallPowers();
        TwoSteps(h - Pow2(c + 1), t);
      } else {
        Descend(c + 1, h - Pow2(c + 1), t);
      }
    }
  }

  lemma DescentSteps(i: nat)
    ensures i + 2 + Descent(2 * i + 1) <= Descent(2 * i + 2)
    ensures if i == 0 then Descent(3) == 5 else i + 3 + Descent(2 * i + 2) <= Descent(2 * i + 3)
  {
  }

  lemma SmallPowers()
    ensures Pow2(0) == 1 && Pow2(1) == 2 && Pow2(2) == 4 && Pow2(3) == 8
  {
  }

  /** The pointer of the block before is no better. */
  lemma LeapGuard(m: nat, h: nat, i: nat, t: nat)
    requires Multiple(m, h) && h > 0 && 2 * i + 2 < m && t + Pow2(2 * i + 2) < h && h + 1 < t + Pow2(2 * i + 3)
    ensures var b := h - Pow2(2 * i + 1);
            b >= 4 && !(GetSkipHeight(b - 1) < h - Pow2(2 * i + 2) - 2 && GetSkipHeight(b - 1) >= t)
  {
    hide InvertLowestOne, Multiple, Lowest, Pow2;
    var c := 2 * i + 1;
    var b := h - Pow2(c);
    SmallPowers();
    NextPow(c);
    LowestAfter(m, h, c);
    EvenMultiple(c, b);
    if i == 0 {
      InvertAfter(m, h, 2);
      InvertAtMost(h - 8);
    } else {
      FewerZeros(3, c, b);
      LowestAtLeast(3, b);
      InvertAfter(3, b, 1);
      InvertAfter(3, b, 2);
      Pow2Monotone(3, c);
    }
  }

  // ------------------------------------------------------------------- from any height

  /** From an even height when the target is above all but its two lowest one bits. */
  lemma LastBits(k: nat, e: nat, t: nat)
    requires 0 < e < Pow2(k) && e % 2 == 0 && InvertLowestOne(InvertLowestOne(e)) + 1 < t <= e
    ensures Steps(e, t) <= Descent(k - 1) + if Lowest(e) == k - 1 then 0 else 1
  {
    hide InvertLowestOne, Multiple, Lowest, Pow2, Descent;
    var f := InvertLowestOne(e);
    InvertIs(e);
    LowestBelow(e, k);
    if f < t {
      DescentGrows(Lowest(e), k - 1);
      Descend(Lowest(e), e, t);
    } else {
      InvertIs(f);
      LowestBelow(f, k);
      LowestHigher(e);
      DescentGrows(Lowest(f), k - 1);
      EvenGuard(e, t);
      assert Next(e, t) == f;
      Descend(Lowest(f), f, t);
    }
  }

  lemma LowestHigher(e: nat)
    requires e > 0 && InvertLowestOne(e) > 0
    ensures Lowest(e) < Lowest(InvertLowestOne(e))
  {
    hide InvertLowestOne;
    InvertIs(e);
    LowestAtLeast(Lowest(e) + 1, InvertLowestOne(e));
  }

  /** The pointer of the block before an even height leads to at most all but its two lowest one bits, or close by. */
  lemma EvenGuard(e: nat, t: nat)
    requires e > 0 && e % 2 == 0
    ensures var p := GetSkipHeight(e - 1);
            p <= InvertLowestOne(InvertLowestOne(e)) + 1 || p >= InvertLowestOne(e) - 2
    ensures Multiple(3, e) ==> GetSkipHeight(e - 1) >= InvertLowestOne(e) - 2
  {
    hide InvertLowestOne, Multiple, Pow2, GetSkipHeight, Lowest;
    SkipBefore(e);
    LowestPositive(e);
    SmallPowers();
    InvertIs(e);
    if Lowest(e) >= 3 {
      FewerZeros(3, Lowest(e), e);
      BeforeEight(e);
    } else {
      if Multiple(3, e) {
        LowestAtLeast(3, e);
      }
      if Lowest(e) == 2 {
        InvertAfter(2, e, 1);
      } else {
        InvertAtMost(InvertLowestOne(InvertLowestOne(e)));
      }
    }
  }

  lemma BeforeEight(e: nat)
    requires Multiple(3, e) && e > 0
    ensures e >= 8 && InvertLowestOne(InvertLowestOne(e - 2)) == e - 8 && InvertLowestOne(e) <= e - 8
  {
    hide InvertLowestOne, Multiple, Pow2, Lowest;
    SmallPowers();
    LowestAtLeast(3, e);
    InvertAfter(3, e, 1);
    InvertAfter(3, e, 2);
    InvertMultiple(3, e);
  }

  lemma SkipBefore(e: nat)
    requires e > 0 && e % 2 == 0
    ensures GetSkipHeight(e - 1) == if e == 2 then 0 else InvertLowestOne(InvertLowestOne(e - 2)) + 1
  {
  }

  /** From the odd height above a multiple of 2^j: each leap clears two one bits. */
  lemma {:induction false} OddPhase(k: nat, j: nat, e: nat, t: nat)
    requires 1 <= j < k && Multiple(j, e) && e < Pow2(k) && t <= e + 1
    ensures Steps(e + 1, t) <= Descent(k - 1) + (k - j) / 2 + 1
    decreases e
  {
    hide InvertLowestOne, Multiple, Lowest, Pow2, Descent;
    DescentGrows(1, k - 1);
    if t == e + 1 {
    } else if e == 0 {
      StepsFromOne(t);
    } else {
      var f := InvertLowestOne(e);
      var g := InvertLowestOne(f);
      EvenMultiple(j, e);
      InvertMultiple(j, e);
      InvertAtMost(f);
      assert GetSkipHeight(e) == f && GetSkipHeight(e + 1) == g + 1;
      if g + 1 >= t {
        assert Next(e + 1, t) == g + 1;
        if g == 0 {
          StepsFromOne(t);
        } else {
          TwoCleared(j, k, e);
          OddPhase(k, j + 2, g, t);
        }
      } else {
        assert Next(e + 1, t) == e;
        LowestAtLeast(j, e);
        LowestBelow(e, k);
        LastBits(k, e, t);
      }
    }
  }

  lemma StepsFromOne(t: nat)
    requires t <= 1
    ensures Steps(1, t) <= 1
  {
  }

  lemma TwoCleared(j: nat, k: nat, e: nat)
    requires Multiple(j, e) && 0 < e < Pow2(k) && InvertLowestOne(InvertLowestOne(e)) > 0
    ensures var g := InvertLowestOne(InvertLowestOne(e)); Multiple(j + 2, g) && g < e && j + 2 < k
  {
    hide InvertLowestOne, Multiple, Lowest, Pow2;
    var f := InvertLowestOne(e);
    var g := InvertLowestOne(f);
    InvertMultiple(j, e);
    InvertAtMost(f);
    InvertMultiple(j + 1, f);
    LowestAtLeast(j + 2, g);
    LowestBelow(g, k);
    NextPow(j);
  }

  /** From a multiple of 2^j, eight at least: each leap clears one bit. */
  lemma {:induction false} EvenPhase(k: nat, j: nat, e: nat, t: nat)
    requires 3 <= j < k && Multiple(j, e) && 0 < e < Pow2(k) && t <= e
    ensures Steps(e, t) <= Descent(k - 1) + (k - 1 - j)
    decreases e
  {
    hide InvertLowestOne, Multiple, Lowest, Pow2, Descent;
    DescentGrows(1, k - 1);
    if t < e {
      var f := InvertLowestOne(e);
      EvenMultiple(j, e);
      InvertIs(e);
      if f < t {
        LowestBelow(e, k);
        DescentGrows(Lowest(e), k - 1);
        Descend(Lowest(e), e, t);
      } else {
        FewerZeros(3, j, e);
        EvenGuard(e, t);
        assert Next(e, t) == f;
        if f > 0 {
          InvertMultiple(j, e);
          LowestAtLeast(j + 1, f);
          LowestBelow(f, k);
          NextPow(j);
          EvenPhase(k, j + 1, f, t);
        }
      }
    }
  }

  /** From an even height that is no multiple of eight. */
  lemma SmallStart(k: nat, h: nat, t: nat)
    requires 0 < h < Pow2(k) && h % 2 == 0 && 1 <= Lowest(h) <= 2 && t <= h
    ensures k >= 2 && Steps(h, t) <= Descent(k - 1) + k / 2 + 1
  {
    hide InvertLowestOne, Multiple, Lowest, Pow2, Descent, Steps;
    LowestBelow(h, k);
    DescentGrows(1, k - 1);
    if InvertLowestOne(InvertLowestOne(h)) + 1 < t {
      LastBits(k, h, t);
    } else if t == h {
      NoMore(t);
    } else if Lowest(h) == 1 {
      FromTwo(k, h, t);
    } else {
      FromFour(k, h, t);
    }
  }

  /** The block before goes on with a leap over two one bits above the lowest two places. */
  lemma OverTwo(k: nat, e: nat, t: nat)
    requires Multiple(2, e) && 0 < e < Pow2(k) && k >= 2
    requires var g := InvertLowestOne(InvertLowestOne(e)); g + 1 >= t
    ensures var g := InvertLowestOne(InvertLowestOne(e)); 2 + Steps(g + 1, t) <= Descent(k - 1) + k / 2 + 1
  {
    hide InvertLowestOne, Multiple, Lowest, Pow2, Descent;
    var g := InvertLowestOne(InvertLowestOne(e));
    DescentGrows(1, k - 1);
    LowestAtLeast(2, e);
    LowestBelow(e, k);
    if g == 0 {
      StepsFromOne(t);
    } else {
      TwoCleared(2, k, e);
      OddPhase(k, 4, g, t);
    }
  }

  lemma FromTwo(k: nat, h: nat, t: nat)
    requires 0 < h < Pow2(k) && h % 2 == 0 && Lowest(h) == 1 && k >= 2 && t < h
    ensures Steps(h, t) <= Descent(k - 1) + k / 2 + 1
  {
    hide InvertLowestOne, Multiple, Lowest, Pow2, Descent, Steps;
    DescentGrows(1, k - 1);
    SmallPowers();
    InvertIs(h);
    if t < h - 2 {
      FromTwoOn(k, h, t);
    } else {
      assert GetSkipHeight(h) == h - 2;
      assert Next(h, t) == t;
      OneMore(h, t);
      NoMore(t);
    }
  }

  lemma FromTwoOn(k: nat, h: nat, t: nat)
    requires 2 < h < Pow2(k) && h % 2 == 0 && Multiple(2, h - 2) && k >= 2 && t < h - 2 && InvertLowestOne(h) == h - 2
    ensures Steps(h, t) <= Descent(k - 1) + k / 2 + 1
  {
    hide InvertLowestOne, Multiple, Lowest, Pow2, Descent, Steps;
    var f := h - 2;
    var g := InvertLowestOne(f);
    var p := InvertLowestOne(g) + 1;
    SkipBefore(h);
    SmallPowers();
    InvertMultiple(2, f);
    InvertAtMost(g);
    assert GetSkipHeight(h) == f && GetSkipHeight(h - 1) == p && GetSkipHeight(h - 2) == g;
    if p >= t && p < f - 2 {
      assert Next(h, t) == h - 1;
      assert Next(h - 1, t) == p;
      TwoMore(h, t);
      OverTwo(k, f, t);
    } else {
      assert Next(h, t) == f;
      OneMore(h, t);
      LastBits(k, f, t);
    }
  }

  lemma NoMore(t: nat)
    ensures Steps(t, t) == 0
  {
  }

  lemma OneMore(h: nat, t: nat)
    requires t < h
    ensures Steps(h, t) == 1 + Steps(Next(h, t), t)
  {
  }

  lemma TwoMore(h: nat, t: nat)
    requires t < h - 1 && Next(h, t) == h - 1
    ensures Steps(h, t) == 2 + Steps(Next(h - 1, t), t)
  {
    OneMore(h, t);
    OneMore(h - 1, t);
  }

  lemma FromFour(k: nat, h: nat, t: nat)
    requires 0 < h < Pow2(k) && h % 2 == 0 && Lowest(h) == 2 && k >= 2 && t < h
    requires t <= InvertLowestOne(InvertLowestOne(h)) + 1
    ensures Steps(h, t) <= Descent(k - 1) + k / 2 + 1
  {
    hide InvertLowestOne, Multiple, Lowest, Pow2, Descent, Steps;
    DescentGrows(1, k - 1);
    SmallPowers();
    InvertIs(h);
    InvertAfter(2, h, 1);
    SkipBefore(h);
    var f := h - 4;
    var g := InvertLowestOne(f);
    OneMore(h, t);
    if f == t {
      assert Next(h, t) == f;
      NoMore(t);
    } else if f == 0 {
      FromExactlyFour(t);
    } else {
      InvertMultiple(3, f);
      assert GetSkipHeight(h) == f && GetSkipHeight(h - 1) == g + 1 < f - 2 && GetSkipHeight(h - 2) == f;
      assert Next(h, t) == h - 1;
      assert Next(h - 1, t) == g + 1;
      TwoMore(h, t);
      OverTwo(k, h, t);
    }
  }

  lemma FromExactlyFour(t: nat)
    requires t <= InvertLowestOne(InvertLowestOne(4)) + 1 && InvertLowestOne(4) == 0
    ensures Steps(4, t) <= 3
  {
    hide InvertLowestOne;
    InvertAtMost(0);
    Zero();
    if t == 1 {
      assert Next(4, 1) == 3;
      SkipBefore(4);
      assert Next(3, 1) == 1;
      assert Steps(4, 1) == 1 + Steps(3, 1) == 2 + Steps(1, 1);
    } else {
      assert Next(4, 0) == 0;
    }
  }

  lemma Zero()
    ensures InvertLowestOne(0) == 0 && InvertLowestOne(2) == 0
  {
    InvertEven(1);
    InvertOdd(0);
  }

  /** From every height below 2^k. */
  lemma StepsBounded(k: nat, h: nat, t: nat)
    requires k >= 1 && t <= h < Pow2(k)
    ensures Steps(h, t) <= MaxSteps(k)
  {
    hide InvertLowestOne, Multiple, Lowest, Pow2, Descent;
    SmallPowers();
    DescentGrows(0, k - 1);
    if h <= 1 {
      StepsFromOne(t);
    } else if h % 2 == 1 {
      if k == 1 {
        assert false;
      }
      OneMultiple(h - 1);
      OddPhase(k, 1, h - 1, t);
    } else {
      LowestPositive(h);
      LowestBelow(h, k);
      if Lowest(h) >= 3 {
        InvertIs(h);
        FewerZeros(3, Lowest(h), h);
        EvenPhase(k, 3, h, t);
      } else {
        SmallStart(k, h, t);
      }
    }
  }

  lemma OneMultiple(e: nat)
    requires e % 2 == 0
    ensures Multiple(1, e)
  {
  }

  /** The figure the source gives: 110 steps for 2^18 blocks. */
  lemma MaxFor18()
    ensures MaxSteps(18) == 110 && Pow2(18) == 262144
  {
    assert Descent(5) == 12 && Descent(7) == 21;
    assert Descent(9) == 32 && Descent(11) == 45;
    assert Descent(13) == 60 && Descent(15) == 77;
    assert Descent(17) == 96;
    assert Pow2(6) == 64;
    Pow2Add(6, 6);
    Pow2Add(12, 6);
  }
}
