/** compare_ and the six relational operators built on it. */
module Comparator {
  import opened Digits
  import opened Representation

  /** The top-down digit scan of compare_ over positions i-1 down to 0: the
      first differing digit decides, giving ret when a's digit is smaller. */
  function CompareFrom(a: seq<Byte>, b: seq<Byte>, i: nat, ret: int): int
    requires i <= |a| && i <= |b|
    decreases i
  {
    if i == 0 then 0
    else if a[i - 1] < b[i - 1] then ret
    else if a[i - 1] > b[i - 1] then -ret
    else CompareFrom(a, b, i - 1, ret)
  }

  /** compare_ as written: sign flags first, then the stored byte counts (for
      two negatives as well), then the digit scan with ret inverted for two negatives. */
  function Compare(x: Num, y: Num): int
  {
    if x.negative && !y.negative then -1
    else if !x.negative && y.negative then 1
    else
      var ret := if x.negative && y.negative then 1 else -1;
      if |x.data| < |y.data| then -1
      else if |x.data| > |y.data| then 1
      else CompareFrom(x.data, y.data, |x.data|, ret)
  }

  predicate Less(x: Num, y: Num)
  {
    !x.nan && !y.nan && Compare(x, y) < 0
  }

  predicate LessEq(x: Num, y: Num)
  {
    !x.nan && !y.nan && Compare(x, y) <= 0
  }

  predicate Greater(x: Num, y: Num)
  {
    !x.nan && !y.nan && Compare(x, y) > 0
  }

  predicate GreaterEq(x: Num, y: Num)
  {
    !x.nan && !y.nan && Compare(x, y) >= 0
  }

  predicate Equal(x: Num, y: Num)
  {
    !x.nan && !y.nan && Compare(x, y) == 0
  }

  predicate NotEqual(x: Num, y: Num)
  {
    !x.nan && !y.nan && Compare(x, y) != 0
  }

  /** Two equally long digit sequences whose top digits differ are ordered by those digits. */
  lemma TopDigitDecides(s: seq<Byte>, t: seq<Byte>)
    requires |s| == |t| > 0 && s[|s| - 1] < t[|t| - 1]
    ensures Val(s) < Val(t)
  {
    var n := |s| - 1;
    ValBound(s[..n]);
    TopTermDecides(Val(s[..n]), Pow(n), s[n], Val(t[..n]), t[n]);
  }

  lemma TopTermDecides(lo: int, p: int, x: int, hi: int, y: int)
    requires 0 <= lo < p && 0 <= hi && x < y
    ensures lo + p * x < hi + p * y
  {
    assert p * y >= p * (x + 1) by { MulLeft(p, x + 1, y); }
  }

  /** The digit scan over the lowest i positions orders the two i-digit prefixes. */
  lemma {:induction false} CompareFromValue(a: seq<Byte>, b: seq<Byte>, i: nat, ret: int)
    requires i <= |a| && i <= |b|
    ensures CompareFrom(a, b, i, ret) ==
      if Val(a[..i]) < Val(b[..i]) then ret
      else if Val(a[..i]) > Val(b[..i]) then -ret
      else 0
    decreases i
  {
    if i > 0 {
      var n := i - 1;
      ValPrefix(a, n);
      ValPrefix(b, n);
      assert a[..i][..n] == a[..n] && b[..i][..n] == b[..n];
      if a[n] < b[n] {
        TopDigitDecides(a[..i], b[..i]);
      } else if a[n] > b[n] {
        TopDigitDecides(b[..i], a[..i]);
      } else {
        CompareFromValue(a, b, n, ret);
      }
    }
  }

  /** compare_ scans the whole of two equally long digit sequences. */
  lemma CompareFullScan(a: seq<Byte>, b: seq<Byte>, ret: int)
    requires |a| == |b|
    ensures CompareFrom(a, b, |a|, ret) ==
      if Val(a) < Val(b) then ret else if Val(a) > Val(b) then -ret else 0
  {
    CompareFromValue(a, b, |a|, ret);
    assert a[..|a|] == a && b[..|b|] == b;
  }

  /** compare_ is antisymmetric on all inputs. */
  lemma CompareAntisymmetric(x: Num, y: Num)
    ensures Compare(y, x) == -Compare(x, y)
  {
    if x.negative == y.negative && |x.data| == |y.data| {
      var ret := if x.negative then 1 else -1;
      CompareFullScan(x.data, y.data, ret);
      CompareFullScan(y.data, x.data, ret);
    }
  }

  /** For operands without the sign flag, compare_ orders by stored length first
      and by value between equally long operands. */
  lemma CompareNonNegative(x: Num, y: Num)
    requires !x.negative && !y.negative
    ensures Compare(x, y) ==
      if |x.data| < |y.data| then -1
      else if |x.data| > |y.data| then 1
      else Sign(Val(x.data) - Val(y.data))
  {
    if |x.data| == |y.data| {
      CompareFullScan(x.data, y.data, -1);
    }
  }

  /** For normalised non-negative operands the sign of compare_ is the sign of the difference. */
  lemma CompareNormalised(x: Num, y: Num)
    requires !x.negative && !y.negative && Normalised(x.data) && Normalised(y.data)
    ensures Compare(x, y) == Sign(Val(x.data) - Val(y.data))
  {
    CompareNonNegative(x, y);
    if |x.data| < |y.data| {
      TidyLonger(y.data, x.data);
    } else if |x.data| > |y.data| {
      TidyLonger(x.data, y.data);
    }
  }

  /** On tidy non-negative operands (zero possibly stored as one zero byte) compare_
      agrees with the values whenever they differ, and reports 0 only for equal digits. */
  lemma CompareTidy(x: Num, y: Num)
    requires !x.negative && !y.negative && Tidy(x.data) && Tidy(y.data)
    ensures Val(x.data) < Val(y.data) ==> Compare(x, y) < 0
    ensures Val(x.data) > Val(y.data) ==> Compare(x, y) > 0
    ensures Compare(x, y) == 0 ==> x.data == y.data
  {
    CompareNonNegative(x, y);
    if |x.data| < |y.data| {
      TidyLonger(y.data, x.data);
    } else if |x.data| > |y.data| {
      TidyLonger(x.data, y.data);
    } else if Val(x.data) == Val(y.data) {
      SameLengthUnique(x.data, y.data);
    }
  }

  /** On stored (tidy, non-empty) non-negative operands the sign of compare_ is
      exactly the sign of the difference, zero included. */
  lemma CompareStored(x: Num, y: Num)
    requires !x.negative && !y.negative && Stored(x.data) && Stored(y.data)
    ensures Compare(x, y) == Sign(Val(x.data) - Val(y.data))
  {
    CompareNonNegative(x, y);
    if |x.data| < |y.data| {
      TidyLonger(y.data, x.data);
      assert Normalised(y.data);
    } else if |x.data| > |y.data| {
      TidyLonger(x.data, y.data);
      assert Normalised(x.data);
    }
  }

  /** Two negatives of equal stored length are ordered correctly by their signed values. */
  lemma CompareNegativeSameLength(x: Num, y: Num)
    requires x.negative && y.negative && |x.data| == |y.data|
    ensures Compare(x, y) == Sign(Value(x) - Value(y))
  {
    CompareFullScan(x.data, y.data, 1);
  }

  /** The relational operators: all six are false when either side is NaN, and
      otherwise they are the mutually consistent readings of one compare_ result. */
  lemma RelationalOperators(x: Num, y: Num)
    ensures (x.nan || y.nan) ==>
      !Less(x, y) && !LessEq(x, y) && !Greater(x, y) && !GreaterEq(x, y) && !Equal(x, y) && !NotEqual(x, y)
    ensures !x.nan && !y.nan ==>
      && (Less(x, y) <==> Greater(y, x))
      && (LessEq(x, y) <==> GreaterEq(y, x))
      && (LessEq(x, y) <==> !Greater(x, y))
      && (GreaterEq(x, y) <==> !Less(x, y))
      && (Equal(x, y) <==> Equal(y, x))
      && (NotEqual(x, y) <==> !Equal(x, y))
  {
    CompareAntisymmetric(x, y);
  }
}
