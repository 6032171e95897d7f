/** The value-level state of an LN and the operations that only rearrange it:
    the two factory values, negate, abs_ and remove_zeros_. */
module Representation {
  import opened Digits

  /** What an LN holds: its live digits data_[0..size_), negative_ and nan_. */
  datatype Num = Num(data: seq<Byte>, negative: bool, nan: bool)

  /** The signed integer a non-NaN LN stands for (a "negative zero" stands for 0). */
  function Value(x: Num): int
  {
    var m: int := Val(x.data);
    if x.negative then -m else m
  }

  /** is_zero: false for NaN, otherwise every live digit is zero. */
  predicate IsZero(x: Num)
  {
    !x.nan && forall i :: 0 <= i < |x.data| ==> x.data[i] == 0
  }

  /** create_zero_ and the default LN(): one zero byte, non-negative, not NaN. */
  function Zero(): Num
  {
    Num([0], false, false)
  }

  /** create_nan_: a default LN with nan_ set. */
  function NaN(): Num
  {
    Num([0], false, true)
  }

  /** negate: a copy with the sign flag flipped unconditionally. */
  function Negate(x: Num): (r: Num)
    ensures r.data == x.data && r.nan == x.nan && r.negative != x.negative
    ensures !x.nan ==> Value(r) == -Value(x)
  {
    Num(x.data, !x.negative, x.nan)
  }

  /** abs_: a copy with the sign flag cleared. */
  function Abs(x: Num): (r: Num)
    ensures r.data == x.data && r.nan == x.nan && !r.negative
    ensures Value(r) == if Value(x) < 0 then -Value(x) else Value(x)
  {
    Num(x.data, false, x.nan)
  }

  /** remove_zeros_: drop the top zero digits; an empty result loses its sign. */
  function RemoveZeros(x: Num): Num
  {
    var t := Trim(x.data);
    Num(t, if |t| == 0 then false else x.negative, x.nan)
  }

  /** is_zero agrees with the value of the digits. */
  lemma IsZeroValue(x: Num)
    requires !x.nan
    ensures IsZero(x) <==> Val(x.data) == 0
  {
    ValZeroIff(x.data);
  }

  /** remove_zeros_ only drops top zero digits, keeps the value, leaves normalised
      digits, clears the sign exactly when nothing is left, and is idempotent. */
  lemma RemoveZerosProperties(x: Num)
    ensures var r := RemoveZeros(x);
      && Normalised(r.data)
      && r.data == x.data[..|r.data|]
      && (forall j :: |r.data| <= j < |x.data| ==> x.data[j] == 0)
      && Val(r.data) == Val(x.data)
      && Value(r) == Value(x)
      && r.nan == x.nan
      && r.negative == (x.negative && |r.data| > 0)
      && RemoveZeros(r) == r
  {
    TrimIsCanonical(x.data);
    TrimNormalised(Trim(x.data));
  }
}
