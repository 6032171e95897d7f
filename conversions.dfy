/** The machine-integer conversions: LN(long long), operator long long and
    operator bool, with long long as a 64-bit two's-complement integer. */
module Conversions {
  import opened Digits
  import opened Representation

  const INT64_MIN: int := -0x8000_0000_0000_0000
  const INT64_MAX: int := 0x7FFF_FFFF_FFFF_FFFF
  /** 2^64, the modulus of uint64_t arithmetic. */
  const UINT64_RANGE: int := 0x1_0000_0000_0000_0000
  /** sizeof(long long): the most bytes operator long long accepts. */
  const INT64_BYTES: nat := 8

  predicate IsInt64(v: int)
  {
    INT64_MIN <= v <= INT64_MAX
  }

  /** A conversion that either succeeds or raises std::overflow_error with a message. */
  datatype Result<T> = Success(value: T) | Failure(error: string)

  const NAN_MESSAGE: string := "Conversion to long long failed. Value is NaN."
  const TOO_LARGE_MESSAGE: string := "Conversion to long long failed. Value too large."

  /** LN(long long): one zero byte for 0; otherwise the trimmed bytes of |v|
      (2^63 for INT64_MIN) and the sign flag set iff v < 0. */
  function FromInt(v: int): Num
    requires IsInt64(v)
  {
    if v == 0 then Zero()
    else Num(ToDigits(if v < 0 then -v else v), v < 0, false)
  }

  /** The long long a uint64_t value u (taken modulo 2^64) is returned as. */
  function Wrap64(u: int): int
  {
    var m := u % UINT64_RANGE;
    if m > INT64_MAX then m - UINT64_RANGE else m
  }

  /** operator long long: fails on NaN and on more than eight stored bytes;
      otherwise the bytes assembled into a uint64_t, negated modulo 2^64 when
      the sign flag is set, and returned as a long long. */
  function ToInt64(x: Num): Result<int>
  {
    if x.nan then Failure(NAN_MESSAGE)
    else if |x.data| > INT64_BYTES then Failure(TOO_LARGE_MESSAGE)
    else Success(Wrap64(Value(x)))
  }

  /** operator bool: !is_zero(), so NaN converts to true. */
  function ToBool(x: Num): bool
  {
    !IsZero(x)
  }

  /** LN(v) stands for v: its magnitude is |v| (2^63 for INT64_MIN), the sign flag
      is set iff v < 0, the bytes are normalised except that 0 keeps one zero byte,
      and a non-zero value takes at most eight bytes. */
  lemma FromIntValue(v: int)
    requires IsInt64(v)
    ensures var r := FromInt(v);
      && !r.nan && r.negative == (v < 0) && Value(r) == v
      && Val(r.data) == (if v < 0 then -v else v)
      && (v == 0 ==> r.data == [0])
      && (v != 0 ==> Normalised(r.data) && 0 < |r.data| <= INT64_BYTES)
  {
    var r := FromInt(v);
    if v != 0 {
      var m := if v < 0 then -v else v;
      PowEight();
      ToDigitsLength(m, 8);
      assert r.data != [] by {
        assert Val([]) == 0;
      }
    }
  }

  /** Wrap64 is the unique long long congruent to u modulo 2^64, so it leaves
      every long long unchanged. */
  lemma Wrap64Properties(u: int)
    ensures IsInt64(Wrap64(u))
    ensures (Wrap64(u) - u) % UINT64_RANGE == 0
    ensures IsInt64(u) ==> Wrap64(u) == u
  {
    var m := u % UINT64_RANGE;
    var q := u / UINT64_RANGE;
    assert u == q * UINT64_RANGE + m;
    if Wrap64(u) == m - UINT64_RANGE {
      assert Wrap64(u) - u == (-1 - q) * UINT64_RANGE;
    } else {
      assert Wrap64(u) - u == (-q) * UINT64_RANGE;
    }
    if IsInt64(u) {
      if u < 0 {
        assert (u + UINT64_RANGE) % UINT64_RANGE == u + UINT64_RANGE;
        ModShift(u);
      }
    }
  }

  /** Wrap64 only depends on its argument modulo 2^64. */
  lemma Wrap64Mod(u: int)
    ensures Wrap64(u % UINT64_RANGE) == Wrap64(u)
  {
  }

  lemma ModShift(u: int)
    requires INT64_MIN <= u < 0
    ensures u % UINT64_RANGE == u + UINT64_RANGE
  {
  }

  /** operator long long fails exactly on NaN or on more than eight stored bytes,
      with the message of that case. */
  lemma ToInt64Failure(x: Num)
    ensures ToInt64(x).Failure? <==> x.nan || |x.data| > INT64_BYTES
    ensures x.nan ==> ToInt64(x) == Failure(NAN_MESSAGE)
    ensures !x.nan && |x.data| > INT64_BYTES ==> ToInt64(x) == Failure(TOO_LARGE_MESSAGE)
  {
  }

  /** On at most eight bytes whose signed value is a long long, the conversion
      returns exactly that value; in general it returns the value modulo 2^64. */
  lemma ToInt64Value(x: Num)
    requires !x.nan && |x.data| <= INT64_BYTES
    ensures ToInt64(x).Success?
    ensures (ToInt64(x).value - Value(x)) % UINT64_RANGE == 0
    ensures IsInt64(ToInt64(x).value)
    ensures IsInt64(Value(x)) ==> ToInt64(x).value == Value(x)
  {
    Wrap64Properties(Value(x));
  }

  /** A long long survives the round trip through LN, INT64_MIN included. */
  lemma FromIntRoundTrip(v: int)
    requires IsInt64(v)
    ensures ToInt64(FromInt(v)) == Success(v)
  {
    FromIntValue(v);
    ToInt64Value(FromInt(v));
  }

  /** operator bool: true for NaN, otherwise true iff the value is non-zero. */
  lemma ToBoolValue(x: Num)
    ensures x.nan ==> ToBool(x)
    ensures !x.nan ==> (ToBool(x) <==> Value(x) != 0)
  {
    if !x.nan {
      IsZeroValue(x);
    }
  }
}
