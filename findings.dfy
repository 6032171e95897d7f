/** Six places where the library as written departs from what it evidently
    intends. For each: an input that exhibits the code's behaviour, and a
    corrected definition with the property the code was meant to have. */
module Findings {
  import opened Digits
  import opened Representation
  import C = Comparator
  import A = Additive
  import M = Multiplicative
  import Q = Division
  import L = LongDivision
  import V = Conversions

  // compare_ on two negatives of different stored length.

  /** compare_ as written ranks two negatives by stored length as if they were
      non-negative: -257 (two bytes) compares above -1 (one byte). */
  lemma NegativeLengthsMisordered()
    ensures var x, y := Num([1, 1], true, false), Num([1], true, false);
      Value(x) == -257 && Value(y) == -1 && C.Compare(x, y) == 1 && C.Greater(x, y)
  {
    assert [1, 1][..1] == [1] && [1][..0] == [];
  }

  /** compare_ with the stored-length results inverted for two negatives, as its
      digit scan already is: ret and -ret in place of -1 and 1. */
  function CompareCorrected(x: Num, y: Num): int
  {
    if x.negative && !y.negative then -1
    else if !x.negative && y.negative then 1
    else
      var ret := if x.negative && y.negative then 1 else -1;
      if |x.data| < |y.data| then ret
      else if |x.data| > |y.data| then -ret
      else C.CompareFrom(x.data, y.data, |x.data|, ret)
  }

  /** What remove_zeros_ leaves: no top zero byte, and no sign flag on an empty number. */
  predicate Canonical(x: Num)
  {
    Normalised(x.data) && (|x.data| == 0 ==> !x.negative)
  }

  /** On canonical numbers the corrected comparison is the sign of the difference
      of the signed values; it differs from compare_ only for two negatives of
      different stored length. */
  lemma CompareCorrectedValue(x: Num, y: Num)
    ensures Canonical(x) && Canonical(y) ==> CompareCorrected(x, y) == Sign(Value(x) - Value(y))
    ensures !(x.negative && y.negative && |x.data| != |y.data|) ==> CompareCorrected(x, y) == C.Compare(x, y)
  {
    if Canonical(x) && Canonical(y) {
      if !x.negative && !y.negative {
        C.CompareNormalised(x, y);
      } else if x.negative && y.negative {
        if |x.data| < |y.data| {
          TidyLonger(y.data, x.data);
        } else if |x.data| > |y.data| {
          TidyLonger(x.data, y.data);
        } else {
          C.CompareFullScan(x.data, y.data, 1);
        }
      } else if x.negative {
        ValLowerBound(x.data);
      } else {
        ValLowerBound(y.data);
      }
    }
  }

  // Zero stored in two ways.

  /** remove_zeros_ leaves no byte for zero, while LN(0) and create_zero_ keep one,
      and compare_ ranks by stored length first: LN(5) - LN(5) == LN(0) is false. */
  lemma ZeroDifferenceUnequal()
    ensures var d := A.Minus(V.FromInt(5), V.FromInt(5));
      Value(d) == 0 && d.data == [] && V.FromInt(0) == Zero()
      && C.Compare(d, V.FromInt(0)) == -1 && !C.Equal(d, V.FromInt(0))
  {
    var five := V.FromInt(5);
    V.FromIntValue(5);
    A.MinusValue(five, five);
    C.CompareAntisymmetric(five, five);
    var d := A.Minus(five, five);
    assert !d.negative;
    if |d.data| > 0 {
      ValLowerBound(d.data);
    }
  }

  /** remove_zeros_ stopping at one byte, so that zero is stored as LN(0) and
      create_zero_ store it: the value is kept and a non-empty input gives stored
      (tidy, non-empty) digits. */
  function TrimKeepingOne(s: seq<Byte>): (r: seq<Byte>)
    ensures Val(r) == Val(s) && |r| <= |s|
    ensures |s| > 0 ==> Stored(r)
  {
    if |s| > 1 && s[|s| - 1] == 0 then TrimKeepingOne(s[..|s| - 1]) else s
  }

  /** With one byte kept, compare_ on two non-negative results is exactly the sign
      of the difference. */
  lemma TrimKeepingOneCompares(a: seq<Byte>, b: seq<Byte>)
    requires |a| > 0 && |b| > 0
    ensures C.Compare(Num(TrimKeepingOne(a), false, false), Num(TrimKeepingOne(b), false, false))
      == Sign(Val(a) - Val(b))
  {
    var x, y := Num(TrimKeepingOne(a), false, false), Num(TrimKeepingOne(b), false, false);
    C.CompareStored(x, y);
  }

  /** With one byte kept, every zero is stored as LN(0) stores it. */
  lemma TrimKeepingOneZero(a: seq<Byte>)
    requires |a| > 0 && Val(a) == 0
    ensures Num(TrimKeepingOne(a), false, false) == Zero() == V.FromInt(0)
  {
    var r := TrimKeepingOne(a);
    if r != [0] {
      ValLowerBound(r);
    }
  }

  // operator long long on magnitudes in [2^63, 2^64).

  /** operator long long as written: 2^63 in eight bytes passes the size test and
      the uint64_t is returned as INT64_MIN. */
  lemma LongLongWraps()
    ensures var x := Num([0, 0, 0, 0, 0, 0, 0, 0x80], false, false);
      Value(x) == -V.INT64_MIN && V.ToInt64(x) == V.Success(V.INT64_MIN)
  {
    var s: seq<Byte> := [0, 0, 0, 0, 0, 0, 0, 0x80];
    assert s == Zeros(7) + [0x80];
    ValAppend(Zeros(7), [0x80]);
    ValZeros(7);
    assert Val([0x80]) == 0x80 by { assert [0x80][..0] == []; }
    PowEight();
    assert Pow(8) == BASE * Pow(7);
  }

  /** operator long long with the range test the size test stands in for: NaN
      and values outside long long fail, and every other value converts as is. */
  function ToInt64Checked(x: Num): V.Result<int>
  {
    if x.nan then V.Failure(V.NAN_MESSAGE)
    else if !V.IsInt64(Value(x)) then V.Failure(V.TOO_LARGE_MESSAGE)
    else V.Success(Value(x))
  }

  /** The checked conversion succeeds exactly on long long values, returns the
      value itself, agrees with operator long long wherever that one is right, and
      completes the round trip from LN(long long). */
  lemma ToInt64CheckedValue(x: Num)
    ensures ToInt64Checked(x).Success? <==> !x.nan && V.IsInt64(Value(x))
    ensures ToInt64Checked(x).Success? ==> ToInt64Checked(x).value == Value(x)
    ensures !x.nan && |x.data| <= V.INT64_BYTES && V.IsInt64(Value(x)) ==>
      ToInt64Checked(x) == V.ToInt64(x)
    ensures V.IsInt64(Value(x)) && !x.nan ==> ToInt64Checked(V.FromInt(Value(x))) == V.Success(Value(x))
  {
    if !x.nan && V.IsInt64(Value(x)) {
      V.FromIntValue(Value(x));
      if |x.data| <= V.INT64_BYTES {
        V.ToInt64Value(x);
      }
    }
  }

  // The sign of operator%.

  /** operator% as written gives the remainder the sign flag when exactly one
      operand has it, so on -7 and -2, stored tidily as LN(-7) and LN(-2) store
      them, -7 % -2 is 1 while -7 / -2 is 3: q * b + r is -5, not -7. */
  lemma RemainderSignBreaksIdentity(a: Num, b: Num)
    requires a.negative && b.negative && !a.nan && !b.nan && Tidy(a.data) && Tidy(b.data)
    requires Val(a.data) == 7 && Val(b.data) == 2
    ensures Value(a) == -7 && Value(b) == -2
    ensures Value(Q.Quotient(a, b)) == 3 && Value(Q.Remainder(a, b)) == 1
    ensures Value(Q.Quotient(a, b)) * Value(b) + Value(Q.Remainder(a, b)) == -5
  {
    IsZeroValue(b);
    QuotientSignedValue(a, b);
    RemainderSignedValue(a, b);
  }

  /** The signed value of operator% as written on a non-zero tidy divisor: the
      remainder of the magnitudes, negated when the sign flags differ. */
  lemma RemainderSignedValue(x: Num, y: Num)
    requires !x.nan && !y.nan && Val(y.data) > 0 && Tidy(y.data)
    requires Tidy(x.data) || |x.data| < |y.data|
    ensures Value(Q.Remainder(x, y)) ==
      if x.negative != y.negative then -(Val(x.data) % Val(y.data)) else Val(x.data) % Val(y.data)
  {
    IsZeroValue(y);
    Q.QuotientRemainderValue(x, y);
  }

  /** operator% with the remainder negated exactly when the dividend is negative,
      as the built-in % on long long does. */
  function RemainderCorrected(x: Num, y: Num): Num
  {
    if x.nan || y.nan then NaN()
    else if x.negative then Negate(Q.Divide(Abs(x), Abs(y)).1)
    else Q.Divide(Abs(x), Abs(y)).1
  }

  /** The corrected remainder is the remainder of the magnitudes, carrying the
      dividend's sign flag and never NaN for a non-zero tidy divisor. */
  lemma RemainderCorrectedValue(x: Num, y: Num)
    requires !x.nan && !y.nan && Val(y.data) > 0 && Tidy(y.data)
    requires Tidy(x.data) || |x.data| < |y.data|
    ensures Value(RemainderCorrected(x, y)) ==
      if x.negative then -(Val(x.data) % Val(y.data)) else Val(x.data) % Val(y.data)
    ensures !RemainderCorrected(x, y).nan
  {
    IsZeroValue(y);
    Q.DivideValue(Abs(x), Abs(y));
  }

  /** The signed value of operator/ on a non-zero tidy divisor: the quotient of the
      magnitudes, negated when the sign flags differ. */
  lemma QuotientSignedValue(x: Num, y: Num)
    requires !x.nan && !y.nan && Val(y.data) > 0 && Tidy(y.data)
    requires Tidy(x.data) || |x.data| < |y.data|
    ensures Value(Q.Quotient(x, y)) ==
      if x.negative != y.negative then -(Val(x.data) / Val(y.data)) else Val(x.data) / Val(y.data)
  {
    IsZeroValue(y);
    Q.QuotientRemainderValue(x, y);
  }

  /** With operator/ the corrected remainder satisfies q * b + r == a with |r| < |b|
      and r taking the dividend's sign, for either sign of the divisor. */
  lemma RemainderCorrectedIdentity(x: Num, y: Num)
    requires !x.nan && !y.nan && Val(y.data) > 0 && Tidy(y.data)
    requires Tidy(x.data) || |x.data| < |y.data|
    ensures Value(Q.Quotient(x, y)) * Value(y) + Value(RemainderCorrected(x, y)) == Value(x)
    ensures -(Val(y.data) as int) < Value(RemainderCorrected(x, y)) < Val(y.data)
    ensures Value(RemainderCorrected(x, y)) != 0 ==> (Value(RemainderCorrected(x, y)) < 0 <==> Value(x) < 0)
  {
    IsZeroValue(y);
    var a, b := Val(x.data), Val(y.data);
    Q.DivMod(a, b);
    QuotientSignedValue(x, y);
    RemainderCorrectedValue(x, y);
    SignedIdentity(a, b, a / b, a % b, x.negative, y.negative,
                   Value(Q.Quotient(x, y)), Value(y), Value(RemainderCorrected(x, y)), Value(x));
  }

  /** For a divisor without the sign flag the corrected remainder is operator% itself. */
  lemma RemainderCorrectedAgrees(x: Num, y: Num)
    requires !y.negative
    ensures RemainderCorrected(x, y) == Q.Remainder(x, y)
  {
  }

  /** a == q b + r on magnitudes, with the quotient negated when the signs differ and
      the remainder when the dividend is negative, gives the signed identity and its
      bounds. */
  lemma SignedIdentity(a: int, b: int, q: int, r: int, nx: bool, ny: bool, qv: int, bv: int, rv: int, xv: int)
    requires q * b + r == a && 0 <= q && 0 <= r < b
    requires qv == (if nx != ny then -q else q) && bv == (if ny then -b else b)
    requires rv == (if nx then -r else r) && xv == (if nx then -a else a)
    ensures qv * bv + rv == xv && -b < rv < b
    ensures rv != 0 ==> (rv < 0 <==> xv < 0)
  {
    assert q * b >= 0;
    if nx != ny {
      if ny {
        assert (-q) * (-b) == q * b;
      } else {
        assert (-q) * b == -(q * b);
      }
    } else if ny {
      assert q * (-b) == -(q * b);
    }
  }

  // divide_ on a dividend with top zero bytes.

  /** The first pass of divide_'s outer loop on the bytes [5, 0, 0] (5, as the
      parser stores "000005") and [3]: the shift is 1, the first subtraction of the
      multiple 768 wraps to 16776453 because compare_ ranks the three bytes above
      the two, and the inner loop then counts 1 + 21844 subtractions, which the
      uint8_t digit holds as 85, leaving 261. */
  lemma WrapFirstPass(x: Num, y: Num)
    requires x == Num([5, 0, 0], false, false) && y == Num([3], false, false)
    ensures C.GreaterEq(x, y) && L.Shift(x, y) == 1
    ensures var s := L.Step(Zeros(3), x, y, 3);
      && s.0 == [0, 85, 0] && !s.1.negative && !s.1.nan && |s.1.data| <= 3
      && Tidy(s.1.data) && Val(s.1.data) == 261
  {
    WrapShift(x, y);
    var mult := M.ShiftLeft(y, 1);
    WrapSubtraction(x, mult);
    var r1 := A.Minus(x, mult);
    assert L.Count(x, mult, 0, 3) == L.Count(r1, mult, 1, 3);
    WrapCount(r1, mult);
    assert Zeros(3)[1 := 85] == [0, 85, 0];
  }

  /** The shift divide_ picks for [5, 0, 0] against [3]: [0, 0, 3] is larger, so 1,
      with the multiple [0, 3]. */
  lemma WrapShift(x: Num, y: Num)
    requires x == Num([5, 0, 0], false, false) && y == Num([3], false, false)
    ensures C.GreaterEq(x, y) && L.Shift(x, y) == 1 && M.ShiftLeft(y, 1).data == [0, 3]
  {
    C.CompareNonNegative(x, y);
    var top := M.ShiftLeft(y, 2);
    C.CompareNonNegative(x, top);
    assert Val(x.data) == 5;
    assert Zeros(1) + [3] == [0, 3];
  }

  /** subtract_ on [5, 0, 0] and [0, 3]: compare_ ranks the longer operand above,
      so the borrow loop runs and wraps to 5 - 768 + 2^24. */
  lemma WrapSubtraction(x: Num, mult: Num)
    requires x == Num([5, 0, 0], false, false) && !mult.negative && !mult.nan && mult.data == [0, 3]
    ensures C.GreaterEq(x, mult)
    ensures var r := A.Minus(x, mult);
      !r.negative && !r.nan && |r.data| <= 3 && Normalised(r.data) && Val(r.data) == 16776453
  {
    C.CompareNonNegative(x, mult);
    assert A.Low(mult.data, 3) == [0, 3];
    assert Val(x.data) == 5 by {
      assert x.data[..2] == [5, 0] && [5, 0][..1] == [5] && [5][..0] == [];
    }
    assert Val(mult.data) == 768 by {
      assert mult.data[..1] == [0] && [0][..0] == [];
    }
    ValBound(x.data);
    assert Pow(3) == 16777216;
    var d := A.Difference(x.data, mult.data);
    assert d == (5 - 768) % 16777216;
    assert d == 16776453;
    ToDigitsLength(d, 3);
  }

  /** The inner loop from 16776453 against 768 with the digit at 1: it ends at
      16776453 mod 768 == 261, the digit at (1 + 21844) mod 256 == 85. */
  lemma WrapCount(r: Num, mult: Num)
    requires !r.negative && !r.nan && |r.data| <= 3 && Normalised(r.data) && Val(r.data) == 16776453
    requires !mult.negative && !mult.nan && mult.data == [0, 3]
    ensures var c := L.Count(r, mult, 1, 3);
      c.1 == 85 && !c.0.negative && !c.0.nan && |c.0.data| <= 3 && Tidy(c.0.data) && Val(c.0.data) == 261
  {
    assert Val(mult.data) == 768 by {
      assert mult.data[..1] == [0] && [0][..0] == [];
    }
    L.CountValue(r, mult, 1, 3);
  }

  /** From the quotient bytes [0, 85, 0] and a tidy remainder of value 261, the
      outer loop divides exactly, as if the dividend had been 85 * 768 + 261 ==
      65541: it ends with the quotient 21847 and no remainder. */
  lemma WrapRemainingPasses(q: seq<Byte>, r: Num, y: Num)
    requires q == [0, 85, 0] && y == Num([3], false, false)
    requires !r.negative && !r.nan && |r.data| <= 3 && Tidy(r.data) && Val(r.data) == 261
    ensures Val(L.Loop(q, r, y, 3).0) == 21847 && Val(L.Loop(q, r, y, 3).1.data) == 0
  {
    var x' := Num([5, 0, 1], false, false);
    assert Val(q) == 21760 && Val(x'.data) == 65541 by {
      assert q[..2] == [0, 85] && [0, 85][..1] == [0] && [0][..0] == [];
      assert x'.data[..2] == [5, 0] && [5, 0][..1] == [5] && [5][..0] == [];
      assert Pow(2) == 65536;
    }
    assert Val(y.data) == 3 by {
      assert y.data[..0] == [];
    }
    assert L.Dividing(q, r, x', y, 1);
    L.LoopDivided(q, r, x', y, 1, 3);
    var l := L.Loop(q, r, y, 3);
    L.DivModUnique(65541, 3, Val(l.0), Val(l.1.data));
  }

  /** divide_ as written on the bytes [5, 0, 0] and [3]: 5 / 3 comes out as 21847
      with remainder 0, and so do operator/ and operator% on those operands, where
      the values give 1 and 2. */
  lemma UntidyDividendWraps(x: Num, y: Num)
    requires x == Num([5, 0, 0], false, false) && y == Num([3], false, false)
    ensures Val(x.data) == 5 && Val(y.data) == 3
    ensures Val(x.data) / Val(y.data) == 1 && Val(x.data) % Val(y.data) == 2
    ensures Val(Q.Divide(x, y).0.data) == 21847 && Val(Q.Divide(x, y).1.data) == 0
    ensures Value(Q.Quotient(x, y)) == 21847 && Value(Q.Remainder(x, y)) == 0
  {
    assert Val(x.data) == 5;
    assert Val(y.data) == 3 by {
      assert y.data[..0] == [];
    }
    IsZeroValue(y);
    WrapFirstPass(x, y);
    var s := L.Step(Zeros(3), x, y, 3);
    L.StepProgress(Zeros(3), x, y, 3);
    assert L.Loop(Zeros(3), x, y, 3) == L.Loop(s.0, s.1, y, 3);
    WrapRemainingPasses(s.0, s.1, y);
    var l := L.Loop(Zeros(3), x, y, 3);
    RemoveZerosProperties(Num(l.0, false, false));
    RemoveZerosProperties(l.1);
  }

  /** divide_ with remove_zeros_ applied to both operands first, so that the loops'
      length comparisons are comparisons of values. */
  function DivideTrimmed(x: Num, y: Num): (Num, Num)
    requires !x.negative && !x.nan && !y.negative && !y.nan
  {
    RemoveZerosProperties(x);
    RemoveZerosProperties(y);
    Q.Divide(RemoveZeros(x), RemoveZeros(y))
  }

  /** The trimmed division is (NaN, NaN) exactly for a zero divisor and otherwise
      gives the quotient and remainder of the values for every pair of operands,
      top zero bytes or not; on tidy operands it is divide_'s result in value. */
  lemma DivideTrimmedValue(x: Num, y: Num)
    requires !x.negative && !x.nan && !y.negative && !y.nan
    ensures Val(y.data) == 0 ==> DivideTrimmed(x, y) == (NaN(), NaN())
    ensures Val(y.data) > 0 ==>
      && !DivideTrimmed(x, y).0.nan && !DivideTrimmed(x, y).1.nan
      && Val(DivideTrimmed(x, y).0.data) == Val(x.data) / Val(y.data)
      && Val(DivideTrimmed(x, y).1.data) == Val(x.data) % Val(y.data)
    ensures Val(y.data) > 0 && Tidy(x.data) && Tidy(y.data) ==>
      && Val(DivideTrimmed(x, y).0.data) == Val(Q.Divide(x, y).0.data)
      && Val(DivideTrimmed(x, y).1.data) == Val(Q.Divide(x, y).1.data)
  {
    var tx, ty := RemoveZeros(x), RemoveZeros(y);
    RemoveZerosProperties(x);
    RemoveZerosProperties(y);
    IsZeroValue(y);
    IsZeroValue(ty);
    Q.DivideValue(tx, ty);
    Q.DivideValue(x, y);
  }

  // subtract_ on an operand with top zero bytes.

  /** operator- as written on 5 and the bytes [3, 0] (3, as the parser stores
      "0003"): compare_ ranks the two bytes above the one, so subtract_ swaps and
      its borrow loop wraps: 5 - 3 comes out as -65534. */
  lemma UntidySubtraction(x: Num, y: Num)
    requires x == Num([5], false, false) && y == Num([3, 0], false, false)
    ensures Val(x.data) == 5 && Val(y.data) == 3
    ensures Value(A.Minus(x, y)) == -65534
  {
    assert x.data[..0] == [] && y.data[..1] == [3] && [3][..0] == [];
    assert C.Less(x, y);
    assert A.Low(x.data, 2) == [5];
    assert A.Difference(y.data, x.data) == 65534 by {
      assert Pow(2) == 65536;
    }
  }

  /** operator- with remove_zeros_ applied to both operands first. */
  function MinusTrimmed(x: Num, y: Num): Num
  {
    A.Minus(RemoveZeros(x), RemoveZeros(y))
  }

  /** The trimmed subtraction is NaN exactly when an operand is, and otherwise
      stands for the signed difference of the values, top zero bytes or not; on
      tidy operands it agrees with operator- in value. */
  lemma MinusTrimmedValue(x: Num, y: Num)
    ensures MinusTrimmed(x, y).nan <==> x.nan || y.nan
    ensures !x.nan && !y.nan ==>
      Normalised(MinusTrimmed(x, y).data) && Value(MinusTrimmed(x, y)) == Value(x) - Value(y)
    ensures !x.nan && !y.nan && Tidy(x.data) && Tidy(y.data) ==>
      Value(MinusTrimmed(x, y)) == Value(A.Minus(x, y))
  {
    RemoveZerosProperties(x);
    RemoveZerosProperties(y);
    A.MinusValue(RemoveZeros(x), RemoveZeros(y));
    A.MinusValue(x, y);
  }
}
