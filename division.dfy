/** divide_ on the magnitudes it is called with, and the signed operators / and %. */
module Division {
  import opened Digits
  import opened Representation
  import C = Comparator
  import A = Additive
  import M = Multiplicative
  import L = LongDivision

  /** divide_: (NaN, NaN) for a zero divisor, (0, dividend) when the dividend has
      fewer stored bytes than the divisor, otherwise divide_'s two loops on a
      zero-filled quotient of |dividend| - |divisor| + 1 bytes and the dividend,
      then remove_zeros_ on both. Its callers only pass results of abs_ on non-NaN
      operands, so both flags are clear. The loops compare by stored length, so a
      dividend with a top zero byte can make them wrap (see DivideValue). */
  function Divide(x: Num, y: Num): (Num, Num)
    requires !x.negative && !x.nan && !y.negative && !y.nan
  {
    if IsZero(y) then (NaN(), NaN())
    else if |x.data| < |y.data| then (Zero(), x)
    else
      IsZeroValue(y);
      var l := L.Loop(Zeros(|x.data| - |y.data| + 1), x, y, |x.data|);
      (RemoveZeros(Num(l.0, false, false)), RemoveZeros(l.1))
  }

  /** operator/: NaN-propagating; the quotient of the magnitudes, negated when
      exactly one operand carries the sign flag. */
  function Quotient(x: Num, y: Num): Num
  {
    if x.nan || y.nan then NaN()
    else if x.negative && y.negative then Divide(Abs(x), Abs(y)).0
    else if x.negative || y.negative then Negate(Divide(Abs(x), Abs(y)).0)
    else Divide(x, y).0
  }

  /** operator%: NaN-propagating; the remainder of the magnitudes, negated when
      exactly one operand carries the sign flag. */
  function Remainder(x: Num, y: Num): Num
  {
    if x.nan || y.nan then NaN()
    else if x.negative && y.negative then Divide(Abs(x), Abs(y)).1
    else if x.negative || y.negative then Negate(Divide(Abs(x), Abs(y)).1)
    else Divide(x, y).1
  }

  lemma DivMod(a: nat, b: nat)
    requires b > 0
    ensures (a / b) * b + a % b == a && 0 <= a % b < b
  {
  }

  /** A dividend shorter than a stored non-zero divisor is smaller than it, so
      (0, dividend) is its quotient and remainder. */
  lemma ShortDividend(x: seq<Byte>, y: seq<Byte>)
    requires |x| < |y| && Tidy(y) && Val(y) > 0
    ensures Val(x) < Val(y) && Val(x) / Val(y) == 0 && Val(x) % Val(y) == Val(x)
  {
    ValBound(x);
    PowMonotone(|x|, |y| - 1);
    assert Normalised(y);
    ValLowerBound(y);
    SmallQuotient(Val(x), Val(y));
  }

  lemma SmallQuotient(a: int, b: int)
    requires 0 <= a < b
    ensures a / b == 0 && a % b == a
  {
  }

  /** On tidy operands, the divisor non-zero and no longer than the dividend,
      divide_'s loops leave the quotient and remainder of the values. */
  lemma LongDivideValue(x: Num, y: Num)
    requires !x.negative && !x.nan && !y.negative && !y.nan && !IsZero(y)
    requires Tidy(x.data) && Tidy(y.data) && |y.data| <= |x.data|
    ensures Val(Divide(x, y).0.data) == Val(x.data) / Val(y.data)
    ensures Val(Divide(x, y).1.data) == Val(x.data) % Val(y.data)
  {
    IsZeroValue(y);
    var k := |x.data| - |y.data| + 1;
    L.DividingEntry(x, y);
    L.LoopDivided(Zeros(k), x, x, y, k, |x.data|);
    var l := L.Loop(Zeros(k), x, y, |x.data|);
    assert l.1 == Num(l.1.data, false, false);
    L.DividedTrim(l.0, l.1.data, x, y);
    L.DivModUnique(Val(x.data), Val(y.data), Val(Trim(l.0)), Val(Trim(l.1.data)));
  }

  /** divide_ with a zero divisor gives (NaN, NaN); with a non-zero one both results
      are numbers without the sign flag, the quotient tidy, both normalised when
      the loops ran, and the remainder tidy whenever the dividend is. On a tidy
      divisor and a dividend that is tidy or shorter, they are the quotient and
      remainder of the magnitudes. */
  lemma DivideValue(x: Num, y: Num)
    requires !x.negative && !x.nan && !y.negative && !y.nan
    ensures IsZero(y) ==> Divide(x, y) == (NaN(), NaN())
    ensures !IsZero(y) ==>
      && !Divide(x, y).0.negative && !Divide(x, y).0.nan && Tidy(Divide(x, y).0.data)
      && !Divide(x, y).1.negative && !Divide(x, y).1.nan
    ensures !IsZero(y) && |y.data| <= |x.data| ==>
      Normalised(Divide(x, y).0.data) && Normalised(Divide(x, y).1.data)
    ensures !IsZero(y) && Tidy(x.data) ==> Tidy(Divide(x, y).1.data)
    ensures Val(y.data) > 0 && Tidy(y.data) && (Tidy(x.data) || |x.data| < |y.data|) ==>
      && Val(Divide(x, y).0.data) == Val(x.data) / Val(y.data)
      && Val(Divide(x, y).1.data) == Val(x.data) % Val(y.data)
  {
    if !IsZero(y) {
      IsZeroValue(y);
      if |x.data| < |y.data| {
        if Tidy(y.data) {
          ShortDividend(x.data, y.data);
        }
      } else if Tidy(x.data) && Tidy(y.data) {
        LongDivideValue(x, y);
      }
    }
  }

  /** A non-zero magnitude divided by itself, whatever its top bytes: the loops
      subtract it once, leaving the quotient 1 and no remainder bytes. */
  lemma SelfDivide(a: Num)
    requires !a.negative && !a.nan && !IsZero(a)
    ensures Divide(a, a) == (Num([1], false, false), Num([], false, false))
  {
    IsZeroValue(a);
    var n := |a.data|;
    SelfCount(a);
    var l := L.Loop(Zeros(1), a, a, n);
    assert L.Step(Zeros(1), a, a, n) == ([1], Num([], false, false)) by {
      assert Zeros(1)[0 := 1] == [1];
    }
    var d := Num([], false, false);
    C.CompareNonNegative(d, a);
    assert L.Loop([1], d, a, n) == ([1], d);
    assert l == L.Loop([1], d, a, n);
  }

  /** The shift for a magnitude against itself is 0, and the inner loop subtracts
      it once, to no bytes at all. */
  lemma SelfCount(a: Num)
    requires !a.negative && !a.nan && Val(a.data) > 0
    ensures C.GreaterEq(a, a) && L.Shift(a, a) == 0
    ensures L.Count(a, a, 0, |a.data|) == (Num([], false, false), 1)
  {
    C.CompareAntisymmetric(a, a);
    assert M.ShiftLeft(a, 0) == a by {
      assert Zeros(0) + a.data == a.data;
    }
    SelfMinus(a);
    var d := Num([], false, false);
    C.CompareNonNegative(d, a);
    assert |a.data| > 0;
    assert L.Count(d, a, 1, |a.data|) == (d, 1);
  }

  /** operator- of a non-negative magnitude and itself leaves no bytes. */
  lemma SelfMinus(a: Num)
    requires !a.negative && !a.nan
    ensures A.Minus(a, a) == Num([], false, false)
  {
    C.CompareAntisymmetric(a, a);
    assert !C.Less(a, a);
    assert A.Minus(a, a) == A.SubtractNoSwap(a, a);
    assert A.Low(a.data, |a.data|) == a.data;
    assert A.Difference(a.data, a.data) == 0 by {
      var v := Val(a.data);
      assert (v - v) % Pow(|a.data|) == 0;
    }
    assert ToDigits(0) == [];
  }

  /** The signed quotient and remainder: NaN when an operand is NaN or the divisor
      is zero; otherwise numbers whose sign flag is set exactly when the operands'
      flags differ, holding the quotient and remainder of the magnitudes when the
      divisor is tidy and the dividend tidy or shorter. */
  lemma QuotientRemainderValue(x: Num, y: Num)
    ensures x.nan || y.nan ==> Quotient(x, y) == NaN() && Remainder(x, y) == NaN()
    ensures !x.nan && !y.nan && IsZero(y) ==> Quotient(x, y).nan && Remainder(x, y).nan
    ensures !x.nan && !y.nan && !IsZero(y) ==>
      && !Quotient(x, y).nan && !Remainder(x, y).nan
      && Quotient(x, y).negative == (x.negative != y.negative)
      && Remainder(x, y).negative == (x.negative != y.negative)
    ensures !x.nan && !y.nan && Val(y.data) > 0 && Tidy(y.data) && (Tidy(x.data) || |x.data| < |y.data|) ==>
      && Val(Quotient(x, y).data) == Val(x.data) / Val(y.data)
      && Val(Remainder(x, y).data) == Val(x.data) % Val(y.data)
  {
    if !x.nan && !y.nan {
      DivideValue(Abs(x), Abs(y));
    }
  }

  /** For a tidy divisor without the sign flag, and a dividend that is tidy or
      shorter, the operators satisfy the division identity q * b + r == a with
      |r| < b, the remainder taking the dividend's sign. */
  lemma PositiveDivisorIdentity(x: Num, y: Num)
    requires !x.nan && !y.nan && !y.negative && !IsZero(y) && Tidy(y.data)
    requires Tidy(x.data) || |x.data| < |y.data|
    ensures Value(Quotient(x, y)) * Value(y) + Value(Remainder(x, y)) == Value(x)
    ensures -Value(y) < Value(Remainder(x, y)) < Value(y)
    ensures Value(Remainder(x, y)) != 0 ==> (Value(Remainder(x, y)) < 0 <==> Value(x) < 0)
  {
    QuotientRemainderValue(x, y);
    IsZeroValue(y);
    SignedResults(x, y, Quotient(x, y), Remainder(x, y));
  }

  /** The identity for results q and r of the magnitudes' quotient and remainder,
      both carrying the dividend's sign flag. */
  lemma SignedResults(x: Num, y: Num, q: Num, r: Num)
    requires !y.negative && Val(y.data) > 0
    requires q.negative == x.negative && r.negative == x.negative
    requires Val(q.data) == Val(x.data) / Val(y.data) && Val(r.data) == Val(x.data) % Val(y.data)
    ensures Value(q) * Value(y) + Value(r) == Value(x)
    ensures -Value(y) < Value(r) < Value(y)
    ensures Value(r) != 0 ==> (Value(r) < 0 <==> Value(x) < 0)
  {
    var a, b := Val(x.data), Val(y.data);
    DivMod(a, b);
    SignedDivision(a, b, a / b, a % b, x.negative);
  }

  /** a = q b + r, negated on both sides when the dividend carries the sign. */
  lemma SignedDivision(a: int, b: int, q: int, r: int, neg: bool)
    requires q * b + r == a
    ensures (if neg then -q else q) * b + (if neg then -r else r) == (if neg then -a else a)
  {
    if neg {
      assert (-q) * b == -(q * b);
    }
  }
}
