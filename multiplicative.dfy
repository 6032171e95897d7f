/** shift_left_, pad_, schoolbook multiply_slow_, the Karatsuba multiply_ and
    the signed operator*, which multiply_ itself calls on the halves. */
module Multiplicative {
  import opened Digits
  import opened Representation
  import opened Comparator
  import opened Additive

  /** shift_left_: k zero bytes below the digits; the fresh result has clear flags. */
  function ShiftLeft(x: Num, k: nat): (r: Num)
    ensures |r.data| == |x.data| + k && !r.negative && !r.nan
    ensures Val(r.data) == Pow(k) * Val(x.data)
  {
    ValShifted(x.data, k);
    Num(Zeros(k) + x.data, false, false)
  }

  /** pad_: the digits widened with zero bytes to n bytes; clear flags. */
  function Pad(x: Num, n: nat): (r: Num)
    requires |x.data| <= n
    ensures |r.data| == n && !r.negative && !r.nan
    ensures Val(r.data) == Val(x.data)
  {
    ValPadded(x.data, n - |x.data|);
    Num(x.data + Zeros(n - |x.data|), false, false)
  }

  /** multiply_slow_: create_zero_ when either operand is zero, otherwise the
      trimmed schoolbook product of the magnitudes with clear flags. */
  function MultiplySlow(x: Num, y: Num): Num
  {
    if IsZero(x) || IsZero(y) then Zero()
    else Num(ToDigits(Val(x.data) * Val(y.data)), false, false)
  }

  /** multiply_: zero check, schoolbook when the shorter operand has at most
      SIZE_FOR_FAST bytes, otherwise one Karatsuba step on the operands padded
      to a common size. */
  function Multiply(x: Num, y: Num): Num
    decreases |x.data| + |y.data|, 1
  {
    if IsZero(x) || IsZero(y) then Zero()
    else if Min(|x.data|, |y.data|) <= SIZE_FOR_FAST then MultiplySlow(x, y)
    else
      var tl := if |x.data| < |y.data| then Pad(x, |y.data|) else x;
      var tr := if |y.data| < |x.data| then Pad(y, |x.data|) else y;
      Karatsuba(tl, tr)
  }

  /** The Karatsuba step of multiply_ on two operands of common size s: the high
      parts b, d keep s/2 bytes, the low parts a, c keep m = s - s/2 bytes, and the
      result is bd * 256^(2m) + ((a + b)(c + d) - ac - bd) * 256^m + ac, computed
      with the signed operators. */
  function Karatsuba(tl: Num, tr: Num): Num
    requires |tl.data| == |tr.data|
    decreases |tl.data| + SIZE_FOR_FAST + 1, 0
  {
    var s := |tl.data|;
    var m := s - s / 2;
    var a := Num(tl.data[..m], false, false);
    var b := Num(tl.data[m..], false, false);
    var c := Num(tr.data[..m], false, false);
    var d := Num(tr.data[m..], false, false);
    Recombine(Times(a, c), Times(b, d), Times(Plus(a, b), Plus(c, d)), m)
  }

  /** The last line of multiply_: shift_left_(bd, 2m) + shift_left_(abcd - ac - bd, m) + ac. */
  function Recombine(ac: Num, bd: Num, abcd: Num, m: nat): Num
  {
    Plus(Plus(ShiftLeft(bd, m + m), ShiftLeft(Minus(Minus(abcd, ac), bd), m)), ac)
  }

  /** operator*: NaN-propagating; multiplies the magnitudes and negates the
      result when exactly one operand carries the sign flag. */
  function Times(x: Num, y: Num): Num
    decreases |x.data| + |y.data|, 2
  {
    if x.nan || y.nan then NaN()
    else if x.negative && y.negative then Multiply(Abs(x), Abs(y))
    else if x.negative || y.negative then Negate(Multiply(Abs(x), Abs(y)))
    else Multiply(x, y)
  }

  /** The Karatsuba identity, with p = 256^m splitting both operands and pp = p * p. */
  lemma KaratsubaArith(a: nat, b: nat, c: nat, d: nat, p: nat, pp: nat,
                       ab: int, cd: int, ac: int, bd: int, abcd: int, x: int, y: int)
    requires pp == p * p && ab == a + b && cd == c + d
    requires ac == a * c && bd == b * d && abcd == ab * cd
    requires x == a + p * b && y == c + p * d
    ensures abcd - ac >= bd
    ensures pp * bd + p * (abcd - ac - bd) + ac == x * y
  {
    var ad := a * d;
    var bc := b * c;
    Expand(a, b, c, d, ac, ad, bc, bd);
    assert abcd == ac + ad + bc + bd;
    assert ad >= 0 && bc >= 0 by { ProductNonNegative(a, d); ProductNonNegative(b, c); }
    var pb := p * b;
    var pd := p * d;
    Expand(a, pb, c, pd, ac, a * pd, pb * c, pb * pd);
    assert a * pd == p * ad && pb * c == p * bc && pb * pd == pp * bd by {
      Rearrange(a, p, d);
      Rearrange(c, p, b);
      Square(p, b, d);
    }
    assert p * (abcd - ac - bd) == p * ad + p * bc by { MulSum(p, ad, bc); }
  }

  /** (a + b)(c + d) multiplied out. */
  lemma Expand(a: int, b: int, c: int, d: int, ac: int, ad: int, bc: int, bd: int)
    requires ac == a * c && ad == a * d && bc == b * c && bd == b * d
    ensures (a + b) * (c + d) == ac + ad + bc + bd
  {
    MulSum(a + b, c, d);
    MulSum(c, a, b);
    MulSum(d, a, b);
  }

  lemma MulSum(p: int, x: int, y: int)
    ensures p * (x + y) == p * x + p * y
    ensures (x + y) * p == x * p + y * p
  {
  }

  lemma ProductNonNegative(x: nat, y: nat)
    ensures x * y >= 0
  {
  }

  lemma Rearrange(a: int, p: int, d: int)
    ensures a * (p * d) == p * (a * d) && (p * d) * a == p * (a * d)
  {
  }

  lemma Square(p: int, b: int, d: int)
    ensures (p * b) * (p * d) == (p * p) * (b * d)
  {
  }

  lemma SignedProduct(x: Num, y: Num, r: Num)
    requires Val(r.data) == Val(x.data) * Val(y.data)
    requires r.negative == (x.negative != y.negative)
    ensures Value(r) == Value(x) * Value(y)
  {
    SignRule(Val(x.data), Val(y.data), Val(r.data), x.negative, y.negative);
  }

  /** The sign rule of a product, on magnitudes p, q with sign flags sx, sy. */
  lemma SignRule(p: int, q: int, pq: int, sx: bool, sy: bool)
    requires pq == p * q
    ensures (if sx != sy then -pq else pq) == (if sx then -p else p) * (if sy then -q else q)
  {
    if sx && !sy {
      assert (-p) * q == -(p * q);
    } else if !sx && sy {
      assert p * (-q) == -(p * q);
    } else if sx && sy {
      assert (-p) * (-q) == p * q;
    }
  }

  /** multiply_slow_ returns the exact product of the magnitudes in tidy form,
      and for non-NaN operands a zero product is create_zero_. */
  lemma MultiplySlowValue(x: Num, y: Num)
    ensures var r := MultiplySlow(x, y);
      && !r.negative && !r.nan && Tidy(r.data)
      && Val(r.data) == Val(x.data) * Val(y.data)
      && (!x.nan && !y.nan ==> Stored(r.data))
  {
    if IsZero(x) {
      ValZeroIff(x.data);
    } else if IsZero(y) {
      ValZeroIff(y.data);
    } else if !x.nan && !y.nan {
      ValZeroIff(x.data);
      ValZeroIff(y.data);
      ProductPositive(Val(x.data), Val(y.data));
    }
  }

  lemma ProductPositive(p: int, q: int)
    requires p > 0 && q > 0
    ensures p * q > 0
  {
  }

  lemma ProductOfEquals(p: int, q: int, p1: int, q1: int)
    requires p == p1 && q == q1
    ensures p * q == p1 * q1
  {
  }

  /** multiply_ returns the exact product of the magnitudes on both paths, in tidy
      form without flags; for non-NaN operands the digits are non-empty. */
  lemma {:induction false} MultiplyValue(x: Num, y: Num)
    ensures var r := Multiply(x, y);
      && !r.negative && !r.nan && Tidy(r.data)
      && Val(r.data) == Val(x.data) * Val(y.data)
      && (!x.nan && !y.nan ==> Stored(r.data))
    decreases |x.data| + |y.data|, 2
  {
    if IsZero(x) {
      ValZeroIff(x.data);
    } else if IsZero(y) {
      ValZeroIff(y.data);
    } else if Min(|x.data|, |y.data|) <= SIZE_FOR_FAST {
      MultiplySlowValue(x, y);
    } else {
      MultiplyFastValue(x, y);
    }
  }

  /** The Karatsuba branch of multiply_ on two operands longer than SIZE_FOR_FAST. */
  lemma {:induction false} MultiplyFastValue(x: Num, y: Num)
    requires !IsZero(x) && !IsZero(y) && Min(|x.data|, |y.data|) > SIZE_FOR_FAST
    ensures !Multiply(x, y).negative && !Multiply(x, y).nan && Normalised(Multiply(x, y).data)
    ensures Val(Multiply(x, y).data) == Val(x.data) * Val(y.data)
    ensures !x.nan && !y.nan ==> |Multiply(x, y).data| > 0
    decreases |x.data| + |y.data|, 1
  {
    var tl := if |x.data| < |y.data| then Pad(x, |y.data|) else x;
    var tr := if |y.data| < |x.data| then Pad(y, |x.data|) else y;
    var k := Karatsuba(tl, tr);
    KaratsubaValue(tl, tr);
    ProductOfEquals(Val(tl.data), Val(tr.data), Val(x.data), Val(y.data));
    if !x.nan && !y.nan {
      ValZeroIff(x.data);
      ValZeroIff(y.data);
      ProductPositive(Val(x.data), Val(y.data));
    }
    MultiplyUnfold(x, y, k);
  }

  /** multiply_'s Karatsuba branch, with the padded operands written out. */
  lemma MultiplyUnfold(x: Num, y: Num, k: Num)
    requires !IsZero(x) && !IsZero(y) && Min(|x.data|, |y.data|) > SIZE_FOR_FAST
    requires k == Karatsuba(if |x.data| < |y.data| then Pad(x, |y.data|) else x,
                            if |y.data| < |x.data| then Pad(y, |x.data|) else y)
    ensures Multiply(x, y) == k
  {
  }

  /** The Karatsuba step is the exact product of its two equally long operands,
      normalised and without flags. */
  lemma {:induction false} KaratsubaValue(tl: Num, tr: Num)
    requires |tl.data| == |tr.data|
    ensures !Karatsuba(tl, tr).negative && !Karatsuba(tl, tr).nan
    ensures Normalised(Karatsuba(tl, tr).data)
    ensures Val(Karatsuba(tl, tr).data) == Val(tl.data) * Val(tr.data)
    decreases |tl.data| + SIZE_FOR_FAST + 1, 0
  {
    var s := |tl.data|;
    var m := s - s / 2;
    var a := Num(tl.data[..m], false, false);
    var b := Num(tl.data[m..], false, false);
    var c := Num(tr.data[..m], false, false);
    var d := Num(tr.data[m..], false, false);
    var ab := Plus(a, b);
    var cd := Plus(c, d);
    PlusMagnitudes(a, b);
    PlusMagnitudes(c, d);
    var ac := Times(a, c);
    var bd := Times(b, d);
    var abcd := Times(ab, cd);
    TimesValue(a, c);
    TimesValue(b, d);
    TimesValue(ab, cd);
    var r := Recombine(ac, bd, abcd, m);
    KaratsubaCombine(ac, bd, abcd, tl.data, tr.data, m, Val(ab.data), Val(cd.data));
    KaratsubaUnfold(tl, tr, m, r);
  }

  /** Karatsuba's body, with its split operands written out. */
  lemma KaratsubaUnfold(tl: Num, tr: Num, m: nat, r: Num)
    requires |tl.data| == |tr.data| && m == |tl.data| - |tl.data| / 2
    requires r == Recombine(Times(Num(tl.data[..m], false, false), Num(tr.data[..m], false, false)),
                            Times(Num(tl.data[m..], false, false), Num(tr.data[m..], false, false)),
                            Times(Plus(Num(tl.data[..m], false, false), Num(tl.data[m..], false, false)),
                                  Plus(Num(tr.data[..m], false, false), Num(tr.data[m..], false, false))),
                            m)
    ensures Karatsuba(tl, tr) == r
  {
  }

  /** operator+ on two magnitudes without flags is add_: the exact sum, with at
      most one byte more than the longer operand. */
  lemma PlusMagnitudes(x: Num, y: Num)
    requires !x.negative && !y.negative && !x.nan && !y.nan
    ensures var r := Plus(x, y);
      && !r.negative && !r.nan && Normalised(r.data)
      && |r.data| <= Max(|x.data|, |y.data|) + 1
      && Val(r.data) == Val(x.data) + Val(y.data)
  {
  }

  /** operator+ on two magnitudes of at most n bytes gives at most n + 1 bytes. */
  lemma SumSize(x: Num, y: Num, r: Num, n: nat)
    requires !x.negative && !y.negative && !x.nan && !y.nan
    requires |x.data| <= n && |y.data| <= n && r == Plus(x, y)
    ensures |r.data| <= n + 1
  {
    PlusMagnitudes(x, y);
  }

  /** The Karatsuba identity on two digit sequences split at m, with ab, cd the
      sums of the halves, ac, bd, abcd the three products and mid = abcd - ac - bd. */
  lemma KaratsubaSplit(t: seq<Byte>, u: seq<Byte>, m: nat, ab: int, cd: int, ac: int, bd: int, abcd: int, mid: int)
    requires m <= |t| && m <= |u|
    requires ab == Val(t[..m]) + Val(t[m..]) && cd == Val(u[..m]) + Val(u[m..])
    requires ac == Val(t[..m]) * Val(u[..m]) && bd == Val(t[m..]) * Val(u[m..]) && abcd == ab * cd
    requires mid == abcd - ac - bd
    ensures mid >= 0
    ensures Pow(m + m) * bd + Pow(m) * mid + ac == Val(t) * Val(u)
  {
    SplitValue(t, m);
    SplitValue(u, m);
    PowAdd(m, m);
    KaratsubaArith(Val(t[..m]), Val(t[m..]), Val(u[..m]), Val(u[m..]), Pow(m), Pow(m + m),
                   ab, cd, ac, bd, abcd, Val(t), Val(u));
  }

  /** Splitting a digit sequence at m: low part plus 256^m times the high part. */
  lemma SplitValue(t: seq<Byte>, m: nat)
    requires m <= |t|
    ensures Val(t) == Val(t[..m]) + Pow(m) * Val(t[m..])
  {
    assert t == t[..m] + t[m..];
    ValAppend(t[..m], t[m..]);
  }

  /** The recombination line of multiply_: from ac, bd and (a+b)(c+d), stored and
      exact, the shifted sums and differences give (a + 256^m b)(c + 256^m d). */
  lemma KaratsubaCombine(ac: Num, bd: Num, abcd: Num, t: seq<Byte>, u: seq<Byte>, m: nat, ab: int, cd: int)
    requires m <= |t| && m <= |u|
    requires !ac.negative && !ac.nan && Stored(ac.data)
    requires !bd.negative && !bd.nan && Stored(bd.data)
    requires !abcd.negative && !abcd.nan && Stored(abcd.data)
    requires ab == Val(t[..m]) + Val(t[m..]) && cd == Val(u[..m]) + Val(u[m..])
    requires Val(ac.data) == Val(t[..m]) * Val(u[..m]) && Val(bd.data) == Val(t[m..]) * Val(u[m..])
    requires Val(abcd.data) == ab * cd
    ensures !Recombine(ac, bd, abcd, m).negative && !Recombine(ac, bd, abcd, m).nan
    ensures Normalised(Recombine(ac, bd, abcd, m).data)
    ensures Val(Recombine(ac, bd, abcd, m).data) == Val(t) * Val(u)
  {
    var mid := Val(abcd.data) - Val(ac.data) - Val(bd.data);
    KaratsubaSplit(t, u, m, ab, cd, Val(ac.data), Val(bd.data), Val(abcd.data), mid);
    MiddleTerm(abcd, ac, bd);
    ShiftedSum(bd, Minus(Minus(abcd, ac), bd), ac, m, mid);
  }

  /** The middle term (a+b)(c+d) - ac - bd of multiply_, computed with two
      operator- on stored magnitudes, is exact. */
  lemma MiddleTerm(abcd: Num, ac: Num, bd: Num)
    requires !ac.negative && !ac.nan && Stored(ac.data)
    requires !bd.negative && !bd.nan && Stored(bd.data)
    requires !abcd.negative && !abcd.nan && Stored(abcd.data)
    requires Val(abcd.data) - Val(ac.data) >= Val(bd.data)
    ensures var x2 := Minus(Minus(abcd, ac), bd);
      !x2.nan && Val(x2.data) == Val(abcd.data) - Val(ac.data) - Val(bd.data)
  {
    CompareStored(abcd, ac);
    SubtractValue(abcd, ac);
    var x1 := Minus(abcd, ac);
    assert x1 == Subtract(abcd, ac);
    SubtractNonNegative(x1, bd);
    assert Minus(x1, bd) == Subtract(x1, bd);
  }

  /** The two operator+ of multiply_'s last line on non-NaN operands: the exact
      sum 256^(2m) bd + 256^m mid + ac, normalised and without flags. */
  lemma ShiftedSum(bd: Num, x2: Num, ac: Num, m: nat, mid: int)
    requires !bd.nan && !x2.nan && !ac.negative && !ac.nan
    requires Val(x2.data) == mid
    ensures var r := Plus(Plus(ShiftLeft(bd, m + m), ShiftLeft(x2, m)), ac);
      && !r.negative && !r.nan && Normalised(r.data)
      && Val(r.data) == Pow(m + m) * Val(bd.data) + Pow(m) * mid + Val(ac.data)
  {
    var s1 := ShiftLeft(bd, m + m);
    var s2 := ShiftLeft(x2, m);
    var t := Plus(s1, s2);
    assert t == Add(s1, s2);
    assert Plus(t, ac) == Add(t, ac);
  }

  /** operator*: NaN when either operand is NaN; otherwise the magnitude is the
      product of the magnitudes, stored, and the sign flag is set iff exactly one
      operand has it. */
  lemma {:induction false} TimesValue(x: Num, y: Num)
    ensures x.nan || y.nan ==> Times(x, y) == NaN()
    ensures !x.nan && !y.nan ==>
      var r := Times(x, y);
      && !r.nan && Stored(r.data)
      && Val(r.data) == Val(x.data) * Val(y.data)
      && r.negative == (x.negative != y.negative)
    decreases |x.data| + |y.data|, 3
  {
    if !x.nan && !y.nan {
      MultiplyValue(Abs(x), Abs(y));
    }
  }

  /** operator* on signed values: the value of the result is the product of the
      operands' values. */
  lemma TimesSignedValue(x: Num, y: Num)
    requires !x.nan && !y.nan
    ensures Value(Times(x, y)) == Value(x) * Value(y)
  {
    TimesValue(x, y);
    SignedProduct(x, y, Times(x, y));
  }
}
