/** Base-256 digit sequences: the magnitude of an LN, least significant byte first.
    `Val` is the abstraction every algorithm of the library is proved against. */
module Digits {

  /** Width of one digit in bits (BITS_COUNT_ in LN.h). */
  const BITS_COUNT: nat := 8
  /** The largest digit (MAX_VALUE_ in LN.h). */
  const MAX_VALUE: nat := 0xFF
  /** The digit base: the borrow correction of subtract_ adds MAX_VALUE_ + 1. */
  const BASE: nat := MAX_VALUE + 1
  /** Operand length at or below which multiply_ uses schoolbook multiplication (size_for_fast_). */
  const SIZE_FOR_FAST: nat := 256

  /** One element of data_: a uint8_t. */
  type Byte = x: int | 0 <= x < 256

  function Sign(v: int): int
  {
    if v < 0 then -1 else if v > 0 then 1 else 0
  }

  function Max(a: int, b: int): int
  {
    if a < b then b else a
  }

  function Min(a: int, b: int): int
  {
    if a < b then a else b
  }

  /** 256^k, the weight of digit k. */
  function Pow(k: nat): (p: nat)
    ensures p >= 1
  {
    if k == 0 then 1 else BASE * Pow(k - 1)
  }

  /** The little-endian value of a digit sequence: sum of s[i] * 256^i. */
  function Val(s: seq<Byte>): nat
  {
    if |s| == 0 then 0 else Val(s[..|s| - 1]) + Pow(|s| - 1) * s[|s| - 1]
  }

  /** No most-significant zero digit: size_ == 0 || data_[size_ - 1] != 0. */
  predicate Normalised(s: seq<Byte>)
  {
    |s| == 0 || s[|s| - 1] != 0
  }

  /** Normalised, or the single zero byte that LN(0) and create_zero_ store. */
  predicate Tidy(s: seq<Byte>)
  {
    Normalised(s) || s == [0]
  }

  /** Tidy and non-empty: how LN(v), create_zero_ and multiply_ store a value. */
  predicate Stored(s: seq<Byte>)
  {
    Tidy(s) && |s| > 0
  }

  function Zeros(k: nat): (z: seq<Byte>)
    ensures |z| == k && forall i :: 0 <= i < k ==> z[i] == 0
  {
    seq(k, _ => 0)
  }

  /** remove_zeros_ on the digits: drop most-significant zero digits. */
  function Trim(s: seq<Byte>): (r: seq<Byte>)
    ensures |r| <= |s| && r == s[..|r|]
    ensures Normalised(r)
    ensures forall j :: |r| <= j < |s| ==> s[j] == 0
  {
    if |s| > 0 && s[|s| - 1] == 0 then Trim(s[..|s| - 1]) else s
  }

  /** The canonical (normalised) digits of a natural number. */
  function ToDigits(n: nat): (r: seq<Byte>)
    ensures Normalised(r)
    ensures Val(r) == n
    decreases n
  {
    if n == 0 then []
    else
      var rest := ToDigits(n / BASE);
      ValCons(n % BASE, rest);
      [n % BASE] + rest
  }

  // ---------------------------------------------------------------------------
  // Arithmetic facts about Pow and Val
  // ---------------------------------------------------------------------------

  lemma {:induction false} PowAdd(a: nat, b: nat)
    ensures Pow(a + b) == Pow(a) * Pow(b)
    decreases a
  {
    if a > 0 {
      PowAdd(a - 1, b);
      assert Pow(a + b) == BASE * Pow(a - 1 + b);
    }
  }

  lemma {:induction false} PowMonotone(a: nat, b: nat)
    requires a <= b
    ensures Pow(a) <= Pow(b)
    decreases b
  {
    if a < b {
      PowMonotone(a, b - 1);
    }
  }

  lemma PowEight()
    ensures Pow(8) == 0x1_0000_0000_0000_0000
  {
    assert Pow(1) == 0x100;
    assert Pow(2) == 0x1_0000;
    assert Pow(3) == 0x100_0000;
    assert Pow(4) == 0x1_0000_0000;
    assert Pow(5) == 0x100_0000_0000;
    assert Pow(6) == 0x1_0000_0000_0000;
    assert Pow(7) == 0x100_0000_0000_0000;
  }

  lemma MulLeft(a: nat, b: int, c: int)
    requires b <= c
    ensures a * b <= a * c
  {
  }

  /** A multiple p * r of p >= 0 is 0 for r = 0, at least p for r >= 1 and at most -p
      for r <= -1. */
  lemma MulSign(p: nat, r: int)
    ensures r == 0 ==> p * r == 0
    ensures r >= 1 ==> p * r >= p
    ensures r <= -1 ==> p * r + p <= 0
  {
    if r >= 1 {
      MulLeft(p, 1, r);
    }
    if r <= -1 {
      MulLeft(p, r, -1);
    }
  }

  /** A product with p >= 0 only grows strictly when the other factor does. */
  lemma MulCancel(p: nat, a: int, b: int)
    ensures p * a < p * b ==> a < b
  {
    if b <= a {
      MulLeft(p, b, a);
    }
  }

  /** Pow is strictly increasing, so comparing powers compares exponents. */
  lemma PowOrder(a: nat, b: nat)
    ensures Pow(a) < Pow(b) ==> a < b
  {
    if b <= a {
      PowMonotone(b, a);
    }
  }

  /** Every digit sequence denotes a number below 256^|s|. */
  lemma {:induction false} ValBound(s: seq<Byte>)
    ensures Val(s) < Pow(|s|)
    decreases |s|
  {
    if |s| > 0 {
      var n := |s| - 1;
      ValBound(s[..n]);
      MulLeft(Pow(n), s[n], MAX_VALUE);
      assert Pow(n + 1) == BASE * Pow(n);
    }
  }

  /** Adding one digit on top (Val's own unfolding, stated for prefixes). */
  lemma ValPrefix(s: seq<Byte>, i: nat)
    requires i < |s|
    ensures Val(s[..i + 1]) == Val(s[..i]) + Pow(i) * s[i]
  {
    assert s[..i + 1][..i] == s[..i];
  }

  lemma Distribute(p: int, q: int, a: int, d: int)
    ensures p * a + (p * q) * d == p * (a + q * d)
  {
  }

  /** Concatenation: the digits of t sit above those of s. */
  lemma {:induction false} ValAppend(s: seq<Byte>, t: seq<Byte>)
    ensures Val(s + t) == Val(s) + Pow(|s|) * Val(t)
    decreases |t|
  {
    if |t| == 0 {
      assert s + t == s;
    } else {
      var t' := t[..|t| - 1];
      var k := |t| - 1;
      assert (s + t)[..|s + t| - 1] == s + t';
      assert (s + t)[|s + t| - 1] == t[k];
      ValAppend(s, t');
      PowAdd(|s|, k);
      assert Val(s + t) == Val(s + t') + Pow(|s| + k) * t[k];
      Distribute(Pow(|s|), Pow(k), Val(t'), t[k]);
    }
  }

  lemma ValCons(d: Byte, s: seq<Byte>)
    ensures Val([d] + s) == d + BASE * Val(s)
  {
    ValAppend([d], s);
    assert [d][..0] == [];
  }

  lemma ValZeros(k: nat)
    ensures Val(Zeros(k)) == 0
  {
    ValZeroIff(Zeros(k));
  }

  /** A value is zero exactly when every digit is zero (is_zero's loop). */
  lemma {:induction false} ValZeroIff(s: seq<Byte>)
    ensures Val(s) == 0 <==> forall i :: 0 <= i < |s| ==> s[i] == 0
    decreases |s|
  {
    if |s| > 0 {
      var n := |s| - 1;
      ValZeroIff(s[..n]);
      if Val(s) == 0 {
        assert Pow(n) * s[n] == 0;
        assert s[n] == 0;
        forall i | 0 <= i < |s| ensures s[i] == 0 {
          if i < n { assert s[..n][i] == s[i]; }
        }
      }
      if forall i :: 0 <= i < |s| ==> s[i] == 0 {
        assert forall i :: 0 <= i < n ==> s[..n][i] == 0;
        assert s[n] == 0;
      }
    }
  }

  /** Padding with zero digits on top keeps the value (pad_). */
  lemma ValPadded(s: seq<Byte>, k: nat)
    ensures Val(s + Zeros(k)) == Val(s)
  {
    ValAppend(s, Zeros(k));
    ValZeros(k);
  }

  /** Prepending zero digits multiplies by 256^k (shift_left_). */
  lemma ValShifted(s: seq<Byte>, k: nat)
    ensures Val(Zeros(k) + s) == Pow(k) * Val(s)
  {
    ValAppend(Zeros(k), s);
    ValZeros(k);
  }

  /** A normalised non-empty sequence has its top digit set, so its value is at least 256^(|s|-1). */
  lemma ValLowerBound(s: seq<Byte>)
    requires Normalised(s) && |s| > 0
    ensures Val(s) >= Pow(|s| - 1)
  {
    var n := |s| - 1;
    MulLeft(Pow(n), 1, s[n]);
  }

  /** A tidy sequence needs all its digits: any shorter sequence denotes less. */
  lemma TidyLonger(s: seq<Byte>, t: seq<Byte>)
    requires Tidy(s) && |s| > |t|
    ensures Val(s) >= Val(t)
    ensures Normalised(s) ==> Val(s) > Val(t)
  {
    ValBound(t);
    if Normalised(s) {
      ValLowerBound(s);
      PowMonotone(|t|, |s| - 1);
    } else {
      assert s == [0];
      assert |t| == 0;
    }
  }

  lemma UpdateArith(a: int, p: int, x: int, v: int, vh: int)
    ensures (a + p * v + 256 * p * vh) - (a + p * x + 256 * p * vh) == (v - x) * p
  {
  }

  /** The value of lo + [x] + hi, for the digit x at position |lo|. */
  lemma ValAround(lo: seq<Byte>, x: Byte, hi: seq<Byte>)
    ensures Val(lo + [x] + hi) == Val(lo) + Pow(|lo|) * x + BASE * Pow(|lo|) * Val(hi)
  {
    ValAppend(lo + [x], hi);
    ValPrefix(lo + [x], |lo|);
    assert (lo + [x])[..|lo|] == lo;
    assert (lo + [x])[..|lo| + 1] == lo + [x];
  }

  /** Changing one digit changes the value by the difference times that digit's weight. */
  lemma ValUpdate(s: seq<Byte>, j: nat, v: Byte)
    requires j < |s|
    ensures Val(s[j := v]) == Val(s) + (v - s[j]) * Pow(j)
  {
    var lo, hi := s[..j], s[j + 1..];
    assert s == lo + [s[j]] + hi;
    assert s[j := v] == lo + [v] + hi;
    ValAround(lo, s[j], hi);
    ValAround(lo, v, hi);
    UpdateArith(Val(lo), Pow(j), s[j], v, Val(hi));
  }

  /** The top digit and the rest of a sequence are recovered from its value. */
  lemma SplitUnique(a: nat, x: int, b: nat, y: int, p: nat)
    requires p > 0 && a < p && b < p
    requires a + p * x == b + p * y
    ensures x == y && a == b
  {
    assert p * x - p * y == p * (x - y);
    MulSign(p, x - y);
  }

  /** Two sequences of the same length with the same value are equal. */
  lemma {:induction false} SameLengthUnique(s: seq<Byte>, t: seq<Byte>)
    requires |s| == |t| && Val(s) == Val(t)
    ensures s == t
    decreases |s|
  {
    if |s| > 0 {
      var n := |s| - 1;
      ValBound(s[..n]);
      ValBound(t[..n]);
      SplitUnique(Val(s[..n]), s[n], Val(t[..n]), t[n], Pow(n));
      SameLengthUnique(s[..n], t[..n]);
      assert s == s[..n] + [s[n]];
      assert t == t[..n] + [t[n]];
    }
  }

  /** The normalised representation of a number is unique. */
  lemma NormalisedUnique(s: seq<Byte>, t: seq<Byte>)
    requires Normalised(s) && Normalised(t) && Val(s) == Val(t)
    ensures s == t
  {
    LongerIsLarger(s, t);
    LongerIsLarger(t, s);
    SameLengthUnique(s, t);
  }

  /** A normalised sequence longer than t denotes more than t. */
  lemma LongerIsLarger(s: seq<Byte>, t: seq<Byte>)
    requires Normalised(s)
    ensures |s| > |t| ==> Val(s) > Val(t)
  {
    if |s| > |t| {
      TidyLonger(s, t);
    }
  }

  lemma ToDigitsOfVal(s: seq<Byte>)
    requires Normalised(s)
    ensures ToDigits(Val(s)) == s
  {
    NormalisedUnique(ToDigits(Val(s)), s);
  }

  /** Trimming keeps the value, so it yields the canonical digits. */
  lemma TrimIsCanonical(s: seq<Byte>)
    ensures Val(Trim(s)) == Val(s)
    ensures Trim(s) == ToDigits(Val(s))
  {
    var r := Trim(s);
    assert s == r + s[|r|..];
    assert s[|r|..] == Zeros(|s| - |r|);
    ValPadded(r, |s| - |r|);
    ToDigitsOfVal(r);
  }

  /** Trimming a normalised sequence changes nothing (so remove_zeros_ is idempotent). */
  lemma TrimNormalised(s: seq<Byte>)
    requires Normalised(s)
    ensures Trim(s) == s
  {
  }

  /** The canonical digits of n < 256^k need at most k bytes. */
  lemma ToDigitsLength(n: nat, k: nat)
    requires n < Pow(k)
    ensures |ToDigits(n)| <= k
  {
    var r := ToDigits(n);
    if |r| > 0 {
      ValLowerBound(r);
      PowOrder(|r| - 1, k);
    }
  }

  /** A tidy sequence is all zeros exactly when it is [] or [0]. */
  lemma TidyZero(s: seq<Byte>)
    requires Tidy(s)
    ensures Val(s) == 0 <==> (s == [] || s == [0])
  {
    if Normalised(s) && |s| > 0 {
      ValLowerBound(s);
    }
  }
}
