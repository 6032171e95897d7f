/** operator~: the integer square root by Newton's iteration on LN values. */
module Newton {
  import opened Digits
  import opened Representation
  import opened Comparator
  import opened Additive
  import opened Division
  import opened Conversions

  /** x is the integer square root of n. */
  predicate IsRoot(n: nat, x: nat)
  {
    x * x <= n < (x + 1) * (x + 1)
  }

  /** x is not below the integer square root of n: n < (x + 1)^2. */
  predicate NotBelowRoot(n: nat, x: nat)
  {
    n < (x + 1) * (x + 1)
  }

  /** One Newton step for the square root of n from x, in integer arithmetic. */
  function Step(n: nat, x: nat): nat
    requires x >= 1
  {
    (x + n / x) / 2
  }

  lemma SquareMonotone(a: int, b: int)
    requires 0 <= a <= b
    ensures a * a <= b * b
  {
    MulBoth(a, a, b, b);
  }

  lemma MulBoth(a: int, b: int, c: int, d: int)
    requires 0 <= a <= c && 0 <= b <= d
    ensures a * b <= c * d
  {
    assert a * b <= a * d;
    assert a * d <= c * d;
  }

  /** (x + p)^2 >= 4xp. */
  lemma MeanBound(x: int, p: int)
    ensures (x + p) * (x + p) >= 4 * (x * p)
  {
    var e := x - p;
    assert (x + p) * (x + p) == e * e + 4 * (x * p);
    assert e * e >= 0;
  }

  lemma QuotientBound(n: nat, x: nat)
    requires x >= 1
    ensures n < (n / x + 1) * x && (n / x) * x <= n
  {
    var q := n / x;
    assert n == q * x + n % x;
    assert (q + 1) * x == q * x + x;
  }

  /** A Newton step y from any x >= 1 stays positive and does not fall below the
      root: n < (y + 1)^2. */
  lemma NewtonStep(n: nat, x: nat, y: nat)
    requires x >= 1 && n >= 1 && y == Step(n, x)
    ensures y >= 1
    ensures NotBelowRoot(n, y)
  {
    var q := n / x;
    QuotientBound(n, x);
    assert x + q >= 2 by {
      if x == 1 {
        assert q * x == q;
      }
    }
    Halving(x + q, y);
    RootBound(n, x, q, y);
  }

  lemma Halving(a: nat, h: nat)
    requires h == a / 2
    ensures 2 * h <= a < 2 * h + 2
  {
  }

  /** The arithmetic of NewtonStep: n < (q + 1) x and 2 (y + 1) > x + q give
      n < (y + 1)^2, since (x + q + 1)^2 >= 4 x (q + 1). */
  lemma RootBound(n: nat, x: nat, q: nat, y: nat)
    requires n < (q + 1) * x && 2 * (y + 1) >= x + q + 1
    ensures n < (y + 1) * (y + 1)
  {
    var s := x + q + 1;
    var t := 2 * (y + 1);
    SquareMonotone(s, t);
    MeanBound(x, q + 1);
    Quadruple(y + 1, t);
    var p := x * (q + 1);
    assert p == (q + 1) * x;
  }

  lemma Quadruple(a: int, t: int)
    requires t == 2 * a
    ensures t * t == 4 * (a * a)
  {
  }

  /** When the step does not move below x, x is at most the root: x * x <= n. */
  lemma NewtonStop(n: nat, x: nat)
    requires x >= 1 && Step(n, x) >= x
    ensures x * x <= n
  {
    var q := n / x;
    assert q >= x;
    QuotientBound(n, x);
    MulBoth(x, x, q, x);
  }

  /** The first step, (n + 1) / 2, is the Newton step from x = n. */
  lemma FirstStep(n: nat)
    requires n >= 1
    ensures Step(n, n) == (n + 1) / 2
  {
  }

  /** The starting point x = n is not below the root. */
  lemma StartAbove(n: nat)
    ensures NotBelowRoot(n, n)
  {
    SquareMonotone(n, n + 1);
  }

  /** The LN constants 1 and 2 that operator~ converts: one byte each. */
  lemma SmallConstants()
    ensures FromInt(1) == Num([1], false, false)
    ensures FromInt(2) == Num([2], false, false)
  {
    assert Val([1]) == 1 && Val([2]) == 2 by {
      ValCons(1, []);
      ValCons(2, []);
      assert [1] + [] == [1] && [2] + [] == [2];
    }
    ToDigitsOfVal([1]);
    ToDigitsOfVal([2]);
  }

  /** operator/ by the LN constant 2 on a non-empty tidy non-negative value:
      normalised digits holding half of it, rounded down. */
  lemma Half(s: Num)
    requires !s.negative && !s.nan && |s.data| >= 1 && Tidy(s.data)
    ensures var y := Quotient(s, FromInt(2));
      !y.negative && !y.nan && Normalised(y.data) && Val(y.data) == Val(s.data) / 2
  {
    SmallConstants();
    var two := Num([2], false, false);
    assert Val(two.data) == 2 by { ValCons(2, []); assert [2] + [] == [2]; }
    IsZeroValue(two);
    DivideValue(s, two);
  }

  /** operator/ on two non-negative LN values, both tidy or the same number, with a
      non-zero divisor: the quotient's digits are tidy and hold the integer quotient. */
  lemma NonNegativeQuotient(a: Num, b: Num)
    requires !a.negative && !a.nan && !b.negative && !b.nan && Val(b.data) > 0
    requires (Tidy(a.data) && Tidy(b.data)) || b == a
    ensures var q := Quotient(a, b);
      !q.negative && !q.nan && Tidy(q.data) && Val(q.data) == Val(a.data) / Val(b.data)
  {
    IsZeroValue(b);
    if Tidy(a.data) && Tidy(b.data) {
      DivideValue(a, b);
    } else {
      SelfDivide(a);
      assert Val([1]) == 1 by { ValCons(1, []); assert [1] + [] == [1]; }
    }
  }

  /** operator+ on two non-negative LN values: normalised digits holding the sum. */
  lemma NonNegativeSum(a: Num, b: Num)
    requires !a.negative && !a.nan && !b.negative && !b.nan
    ensures var s := Plus(a, b);
      !s.negative && !s.nan && Normalised(s.data) && Val(s.data) == Val(a.data) + Val(b.data)
  {
  }

  /** (x + n / x) / 2 computed with operator+ and operator/ is the Newton step. */
  lemma StepValue(n: Num, x: Num, q: Num, s: Num, y: Num)
    requires !n.negative && !n.nan && !x.negative && !x.nan && Val(x.data) >= 1
    requires (Tidy(n.data) && Tidy(x.data)) || x == n
    requires q == Quotient(n, x) && s == Plus(x, q) && y == Quotient(s, FromInt(2))
    ensures !y.negative && !y.nan && Normalised(y.data)
    ensures Val(y.data) == Step(Val(n.data), Val(x.data))
  {
    NonNegativeQuotient(n, x);
    NonNegativeSum(x, q);
    assert |s.data| >= 1;
    Half(s);
  }

  /** What operator~'s loop keeps: x >= 1 is not below the root of n and is tidy
      (or still n itself), and y is the Newton step from x, normalised. */
  predicate LoopState(n: Num, x: Num, y: Num)
  {
    && !n.negative && !n.nan && Val(n.data) >= 1
    && !x.negative && !x.nan && Val(x.data) >= 1 && (Tidy(x.data) || x == n)
    && NotBelowRoot(Val(n.data), Val(x.data))
    && !y.negative && !y.nan && Normalised(y.data)
    && Val(y.data) == Step(Val(n.data), Val(x.data))
  }

  /** Before the loop: x = n and y = (n + 1) / 2. */
  lemma LoopEntry(n: Num, y: Num)
    requires !n.negative && !n.nan && Val(n.data) >= 1
    requires y == Quotient(Plus(n, FromInt(1)), FromInt(2))
    ensures LoopState(n, n, y)
  {
    var v := Val(n.data);
    SmallConstants();
    var s := Plus(n, FromInt(1));
    NonNegativeSum(n, FromInt(1));
    assert Val(FromInt(1).data) == 1 by { ValCons(1, []); assert [1] + [] == [1]; }
    assert |s.data| >= 1;
    Half(s);
    FirstStep(v);
    StartAbove(v);
  }

  /** One iteration on a tidy n: when y < x, x := y and the next step keep the
      loop state, and x gets shorter or, at equal length, smaller. */
  lemma LoopBody(n: Num, x: Num, y: Num, y': Num)
    requires LoopState(n, x, y) && Less(y, x) && Tidy(n.data)
    requires y' == NextGuess(n, y)
    ensures LoopState(n, y, y')
    ensures |y.data| < |x.data| || (|y.data| == |x.data| && Val(y.data) < Val(x.data))
  {
    LoopTest(y, x);
    NewtonStep(Val(n.data), Val(x.data), Val(y.data));
    GuessValue(n, y);
  }

  lemma GuessValue(n: Num, x: Num)
    requires !n.negative && !n.nan && !x.negative && !x.nan && Val(x.data) >= 1
    requires (Tidy(n.data) && Tidy(x.data)) || x == n
    ensures var y := NextGuess(n, x);
      !y.negative && !y.nan && Normalised(y.data) && Val(y.data) == Step(Val(n.data), Val(x.data))
  {
    StepValue(n, x, Quotient(n, x), Plus(x, Quotient(n, x)), NextGuess(n, x));
  }

  /** After the loop: y >= x, so x is the integer square root of n. */
  lemma LoopExit(n: Num, x: Num, y: Num)
    requires LoopState(n, x, y) && !Less(y, x)
    ensures !x.negative && !x.nan && IsRoot(Val(n.data), Val(x.data))
  {
    LoopTest(y, x);
    NewtonStop(Val(n.data), Val(x.data));
  }

  /** The loop test y < x on a tidy y and a non-negative x: when it holds,
      y is no longer than x and, at equal length, smaller; when it fails, y >= x. */
  lemma LoopTest(y: Num, x: Num)
    requires !y.negative && !y.nan && Tidy(y.data) && !x.negative && !x.nan
    ensures Less(y, x) ==> |y.data| < |x.data| || (|y.data| == |x.data| && Val(y.data) < Val(x.data))
    ensures !Less(y, x) ==> Val(y.data) >= Val(x.data)
  {
    CompareNonNegative(y, x);
    if |y.data| > |x.data| {
      TidyLonger(y.data, x.data);
    }
  }

  /** The body of operator~'s loop: (x + n / x) / 2 with operator/, operator+ and
      the LN constant 2. */
  function NextGuess(n: Num, x: Num): Num
  {
    Quotient(Plus(x, Quotient(n, x)), FromInt(2))
  }

  /** From non-negative n and x the next guess is NaN (x is zero) or a tidy
      non-negative number, whatever the digits of n and x. */
  lemma GuessShape(n: Num, x: Num)
    requires !n.negative && !n.nan && !x.negative && !x.nan
    ensures var y := NextGuess(n, x); y.nan || (!y.negative && Tidy(y.data))
  {
    SmallConstants();
    DivideValue(n, x);
    var q := Quotient(n, x);
    if !q.nan {
      var s := Plus(x, q);
      assert s == Add(x, q);
      IsZeroValue(FromInt(2));
      DivideValue(s, FromInt(2));
    }
  }

  /** operator~'s loop from the pair (x, y): while y < x, x := y and
      y := NextGuess(n, x); the x it stops at, never NaN or negative. */
  function SqrtLoop(n: Num, x: Num, y: Num): (r: Num)
    requires !n.negative && !n.nan && !x.negative && !x.nan
    requires y.nan || (!y.negative && Tidy(y.data))
    ensures !r.negative && !r.nan
    decreases |x.data|, Val(x.data)
  {
    if Less(y, x) then
      LoopTest(y, x);
      GuessShape(n, y);
      SqrtLoop(n, y, NextGuess(n, y))
    else x
  }

  /** operator~: NaN for NaN or a set sign flag, zero for zero, otherwise the loop
      from x = n and y = (n + 1) / 2. */
  function Sqrt(n: Num): Num
  {
    if n.negative || n.nan then NaN()
    else if IsZero(n) then Zero()
    else
      IsZeroValue(n);
      LoopEntry(n, Quotient(Plus(n, FromInt(1)), FromInt(2)));
      SqrtLoop(n, n, Quotient(Plus(n, FromInt(1)), FromInt(2)))
  }

  /** On a tidy n the loop, from a state of LoopState, stops at the integer square root. */
  lemma {:induction false} SqrtLoopRoot(n: Num, x: Num, y: Num)
    requires Tidy(n.data) && LoopState(n, x, y)
    ensures IsRoot(Val(n.data), Val(SqrtLoop(n, x, y).data))
    decreases |x.data|, Val(x.data)
  {
    if Less(y, x) {
      LoopBody(n, x, y, NextGuess(n, y));
      SqrtLoopRoot(n, y, NextGuess(n, y));
    } else {
      LoopExit(n, x, y);
    }
  }

  /** operator~ is NaN exactly for NaN or a set sign flag, zero for zero, never
      negative, and on tidy digits the integer square root. */
  lemma SqrtValue(n: Num)
    ensures Sqrt(n).nan <==> n.negative || n.nan
    ensures n.negative || n.nan ==> Sqrt(n) == NaN()
    ensures !n.negative && !n.nan ==> !Sqrt(n).negative
    ensures !n.negative && !n.nan && IsZero(n) ==> Sqrt(n) == Zero()
    ensures !n.negative && !n.nan && Tidy(n.data) ==> IsRoot(Val(n.data), Val(Sqrt(n).data))
  {
    if !n.negative && !n.nan {
      if IsZero(n) {
        assert Val([0]) == 0 by { ValCons(0, []); assert [0] + [] == [0]; }
      } else if Tidy(n.data) {
        IsZeroValue(n);
        var y := Quotient(Plus(n, FromInt(1)), FromInt(2));
        LoopEntry(n, y);
        SqrtLoopRoot(n, n, y);
      }
    }
  }
}
