/** Magnitude addition add_, magnitude subtraction subtract_, and the signed
    operators + and - that dispatch to them. */
module Additive {
  import opened Digits
  import opened Representation
  import opened Comparator

  /** add_: the canonical digits of the sum of the two magnitudes, flags clear
      (the operands' flags are not read). */
  function Add(x: Num, y: Num): (r: Num)
    ensures !r.negative && !r.nan && Normalised(r.data)
    ensures |r.data| <= Max(|x.data|, |y.data|) + 1
  {
    var n := Max(|x.data|, |y.data|);
    ValBound(x.data);
    ValBound(y.data);
    PowMonotone(|x.data|, n);
    PowMonotone(|y.data|, n);
    ToDigitsLength(Val(x.data) + Val(y.data), n + 1);
    Num(ToDigits(Val(x.data) + Val(y.data)), false, false)
  }

  /** The digits of rhs that subtract_'s loop reads: those below lhs.size_. */
  function Low(b: seq<Byte>, n: nat): seq<Byte>
  {
    b[..Min(n, |b|)]
  }

  /** What subtract_'s borrow loop leaves in lhs.size_ bytes: the difference
      modulo 256^lhs.size_ (a final borrow is dropped). */
  function Difference(a: seq<Byte>, b: seq<Byte>): nat
  {
    (Val(a) - Val(Low(b, |a|))) % Pow(|a|)
  }

  /** subtract_ once the swap test has failed: the trimmed borrow-loop result, flags clear. */
  function SubtractNoSwap(x: Num, y: Num): Num
  {
    Num(ToDigits(Difference(x.data, y.data)), false, false)
  }

  /** subtract_: when lhs < rhs it subtracts the other way round and negates. */
  function Subtract(x: Num, y: Num): Num
  {
    if Less(x, y) then Negate(SubtractNoSwap(y, x)) else SubtractNoSwap(x, y)
  }

  /** operator+: NaN-propagating, dispatching on the two sign flags. */
  function Plus(x: Num, y: Num): Num
  {
    if x.nan || y.nan then NaN()
    else if x.negative && y.negative then Negate(Add(Abs(x), Abs(y)))
    else if x.negative then Subtract(y, Abs(x))
    else if y.negative then Subtract(x, Abs(y))
    else Add(x, y)
  }

  /** operator-: NaN-propagating, dispatching on the two sign flags. */
  function Minus(x: Num, y: Num): Num
  {
    if x.nan || y.nan then NaN()
    else if x.negative && y.negative then Subtract(Abs(y), Abs(x))
    else if x.negative then Negate(Add(Abs(x), y))
    else if y.negative then Add(x, Abs(y))
    else Subtract(x, y)
  }

  /** When lhs >= rhs and lhs is tidy, rhs is no longer than lhs and the borrow
      loop ends without a final borrow: the result is the exact difference. */
  lemma NoFinalBorrow(x: Num, y: Num)
    requires !x.negative && !y.negative && !x.nan && !y.nan
    requires Tidy(x.data) && !Less(x, y)
    ensures |y.data| <= |x.data|
    ensures Difference(x.data, y.data) == Val(x.data) - Val(y.data)
  {
    CompareNonNegative(x, y);
    if |x.data| > |y.data| {
      TidyLonger(x.data, y.data);
    }
    assert Low(y.data, |x.data|) == y.data;
    ValBound(x.data);
    ModSmall(Val(x.data) - Val(y.data), Pow(|x.data|));
  }

  lemma ModSmall(v: int, p: int)
    requires 0 <= v < p
    ensures v % p == v
  {
  }

  /** subtract_ on tidy non-negative magnitudes: the exact difference, normalised,
      with the sign flag set exactly when lhs < rhs. */
  lemma SubtractValue(x: Num, y: Num)
    requires !x.negative && !y.negative && !x.nan && !y.nan
    requires Tidy(x.data) && Tidy(y.data)
    ensures var r := Subtract(x, y);
      && !r.nan && Normalised(r.data)
      && r.negative == Less(x, y)
      && Value(r) == Val(x.data) - Val(y.data)
  {
    if Less(x, y) {
      CompareAntisymmetric(x, y);
      NoFinalBorrow(y, x);
    } else {
      NoFinalBorrow(x, y);
    }
  }

  /** A left operand at least as large as the right one yields the exact
      difference of the magnitudes (possibly flagged negative when it is zero). */
  lemma SubtractNonNegative(x: Num, y: Num)
    requires !x.negative && !y.negative && !x.nan && !y.nan
    requires Tidy(x.data) && Tidy(y.data) && Val(x.data) >= Val(y.data)
    ensures var r := Subtract(x, y);
      !r.nan && Normalised(r.data) && Val(r.data) == Val(x.data) - Val(y.data)
  {
    SubtractValue(x, y);
  }

  /** subtract_ undoes add_: (x + y) - y has the value of x, for tidy y. */
  lemma SubtractUndoesAdd(x: Num, y: Num)
    requires !y.negative && !y.nan && Tidy(y.data)
    ensures Value(Subtract(Add(x, y), y)) == Val(x.data)
  {
    SubtractValue(Add(x, y), y);
  }

  /** operator+: NaN if either operand is NaN, otherwise on tidy operands the
      signed sum, with normalised digits. */
  lemma PlusValue(x: Num, y: Num)
    ensures x.nan || y.nan ==> Plus(x, y) == NaN()
    ensures !x.nan && !y.nan && Tidy(x.data) && Tidy(y.data) ==>
      var r := Plus(x, y);
      !r.nan && Normalised(r.data) && Value(r) == Value(x) + Value(y)
  {
    if !x.nan && !y.nan && Tidy(x.data) && Tidy(y.data) {
      if x.negative && !y.negative {
        SubtractValue(y, Abs(x));
      } else if !x.negative && y.negative {
        SubtractValue(x, Abs(y));
      }
    }
  }

  /** operator-: NaN if either operand is NaN, otherwise on tidy operands the
      signed difference, with normalised digits. */
  lemma MinusValue(x: Num, y: Num)
    ensures x.nan || y.nan ==> Minus(x, y) == NaN()
    ensures !x.nan && !y.nan && Tidy(x.data) && Tidy(y.data) ==>
      var r := Minus(x, y);
      !r.nan && Normalised(r.data) && Value(r) == Value(x) - Value(y)
  {
    if !x.nan && !y.nan && Tidy(x.data) && Tidy(y.data) {
      if x.negative && y.negative {
        SubtractValue(Abs(y), Abs(x));
      } else if !x.negative && !y.negative {
        SubtractValue(x, y);
      }
    }
  }
}
