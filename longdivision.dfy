/** The two loops of divide_: choosing the shifted divisor, subtracting it while
    the remainder is at least as large, and the measure both loops decrease. */
module LongDivision {
  import opened Digits
  import opened Representation
  import opened Comparator
  import opened Additive
  import opened Multiplicative

  /** What divide_'s loops decrease: the remainder's value, raised by 256^n while its
      top byte is zero. An untidy remainder can wrap in the first subtraction and
      grow, but the subtraction always leaves normalised digits. */
  function Progress(r: Num, n: nat): nat
  {
    Val(r.data) + (if Normalised(r.data) then 0 else Pow(n))
  }

  /** remainder -= multiple, for a remainder of at most n bytes that compares at
      least as large as a non-zero multiple: normalised digits, no longer than
      before, a smaller Progress, and the exact difference when the remainder is tidy. */
  lemma SubtractStep(rem: Num, mult: Num, n: nat)
    requires !rem.negative && !rem.nan && !mult.negative && !mult.nan
    requires Val(mult.data) > 0 && GreaterEq(rem, mult) && |rem.data| <= n
    ensures var r := Minus(rem, mult);
      && !r.negative && !r.nan && Normalised(r.data) && |r.data| <= |rem.data|
      && Progress(r, n) < Progress(rem, n)
      && (Tidy(rem.data) ==> Val(r.data) == Val(rem.data) - Val(mult.data))
  {
    var r := Minus(rem, mult);
    assert r == SubtractNoSwap(rem, mult);
    ToDigitsLength(Difference(rem.data, mult.data), |rem.data|);
    if Tidy(rem.data) {
      NoFinalBorrow(rem, mult);
    } else {
      ValBound(r.data);
      PowMonotone(|r.data|, n);
    }
  }

  /** The first multiple of divide_'s outer loop: shift = |rem| - |divisor| does
      not underflow, and when the divisor shifted that far exceeds rem, shift > 0,
      so --shift does not underflow either and rem is at least the new multiple. */
  lemma ChooseShift(rem: Num, div: Num)
    requires !rem.negative && !rem.nan && !div.negative && !div.nan
    requires GreaterEq(rem, div)
    ensures |div.data| <= |rem.data|
    ensures var s := |rem.data| - |div.data|;
      Less(rem, ShiftLeft(div, s)) ==> s > 0 && GreaterEq(rem, ShiftLeft(div, s - 1))
  {
    CompareNonNegative(rem, div);
    assert ShiftLeft(div, 0) == div by {
      assert Zeros(0) + div.data == div.data;
    }
    var s := |rem.data| - |div.data|;
    if s > 0 {
      CompareNonNegative(rem, ShiftLeft(div, s - 1));
    }
  }

  /** A tidy non-zero divisor has its top byte set, so a remainder of at least its
      length is below 256^(shift + 1) times it, shift = |rem| - |divisor|: below 256
      times the first multiple. */
  lemma FullMultipleBound(rem: Num, div: Num)
    requires Tidy(div.data) && Val(div.data) > 0 && |div.data| <= |rem.data|
    ensures var s := |rem.data| - |div.data|;
      && Val(rem.data) < Pow(s + 1) * Val(div.data)
      && Pow(s + 1) * Val(div.data) == 256 * Val(ShiftLeft(div, s).data)
  {
    var s := |rem.data| - |div.data|;
    var k := |div.data| - 1;
    TidyZero(div.data);
    ValLowerBound(div.data);
    ValBound(rem.data);
    PowAdd(s + 1, k);
    assert s + 1 + k == |rem.data|;
    MulLeft(Pow(s + 1), Pow(k), Val(div.data));
    PowStep(s, Val(div.data));
  }

  /** 256^(t + 1) v == 256 (256^t v). */
  lemma PowStep(t: nat, v: int)
    ensures Pow(t + 1) * v == 256 * (Pow(t) * v)
  {
    assert Pow(t + 1) == 256 * Pow(t);
  }

  /** When rem is below the divisor shifted by t + 1 bytes and as long as it, rem is
      below 256^(t + 1) times the divisor: 256 times the multiple shifted by t. */
  lemma LessMultipleBound(rem: Num, div: Num, t: nat)
    requires !rem.negative && !rem.nan && !div.nan
    requires |ShiftLeft(div, t + 1).data| == |rem.data| && Less(rem, ShiftLeft(div, t + 1))
    ensures Val(rem.data) < Pow(t + 1) * Val(div.data)
    ensures Pow(t + 1) * Val(div.data) == 256 * Val(ShiftLeft(div, t).data)
  {
    CompareNonNegative(rem, ShiftLeft(div, t + 1));
    PowStep(t, Val(div.data));
  }

  /** A tidy remainder at least the divisor shifted by t bytes, and below the divisor
      times 256^hi, has t < hi: the quotient byte lands below every byte written before. */
  lemma ShiftBelow(rem: Num, div: Num, t: nat, hi: nat)
    requires !rem.negative && !rem.nan && !div.nan && Tidy(rem.data)
    requires GreaterEq(rem, ShiftLeft(div, t))
    requires Val(rem.data) < Pow(hi) * Val(div.data)
    ensures t < hi
  {
    AtLeast(rem, ShiftLeft(div, t));
    WeightBelow(Val(rem.data), Val(div.data), t, hi);
  }

  /** 256^t v <= w < 256^hi v forces t < hi. */
  lemma WeightBelow(w: int, v: nat, t: nat, hi: nat)
    requires Pow(t) * v <= w < Pow(hi) * v
    ensures t < hi
  {
    assert v * Pow(t) < v * Pow(hi) by {
      assert v * Pow(t) == Pow(t) * v && v * Pow(hi) == Pow(hi) * v;
    }
    MulCancel(v, Pow(t), Pow(hi));
    PowOrder(t, hi);
  }

  /** compare_ >= 0 from a tidy non-negative lhs means a value at least rhs's. */
  lemma AtLeast(x: Num, y: Num)
    requires !x.negative && !y.negative && Tidy(x.data) && Compare(x, y) >= 0
    ensures Val(x.data) >= Val(y.data)
  {
    CompareNonNegative(x, y);
    if |x.data| > |y.data| {
      TidyLonger(x.data, y.data);
    }
  }

  /** compare_ < 0 against a normalised non-negative rhs means a value below rhs's. */
  lemma Below(x: Num, y: Num)
    requires !x.negative && !y.negative && Normalised(y.data) && Compare(x, y) < 0
    ensures Val(x.data) < Val(y.data)
  {
    CompareNonNegative(x, y);
    if |x.data| < |y.data| {
      TidyLonger(y.data, x.data);
    }
  }

  /** Shifting a normalised non-empty divisor keeps its top byte on top. */
  lemma ShiftedNormalised(div: Num, t: nat)
    requires Normalised(div.data) && |div.data| > 0
    ensures Normalised(ShiftLeft(div, t).data)
  {
    var s := ShiftLeft(div, t).data;
    assert s[|s| - 1] == div.data[|div.data| - 1];
  }

  /** A tidy non-zero divisor is normalised and non-empty. */
  lemma TidyDivisor(div: Num)
    requires Tidy(div.data) && Val(div.data) > 0
    ensures Normalised(div.data) && |div.data| > 0
  {
    TidyZero(div.data);
  }

  /** What divide_'s inner loop keeps after subtracting mult from rem0 (started: at
      least once), with the uint8_t counter d: a magnitude no longer than rem0,
      still rem0 before the first subtraction and normalised with a smaller Progress
      after it; from a tidy rem0 below 256 mult, rem0 - d * mult exactly. */
  predicate Counted(r: Num, started: bool, d: nat, rem0: Num, mult: Num, n: nat)
  {
    && !r.negative && !r.nan && |r.data| <= |rem0.data|
    && (!started ==> r == rem0 && d == 0)
    && (started ==> Normalised(r.data) && Progress(r, n) < Progress(rem0, n))
    && (Tidy(rem0.data) && Val(rem0.data) < 256 * Val(mult.data) ==>
          Tidy(r.data) && Val(r.data) + d * Val(mult.data) == Val(rem0.data))
  }

  /** The inner loop starts from rem0 with the counter at 0. */
  lemma CountedEntry(rem0: Num, mult: Num, n: nat)
    requires !rem0.negative && !rem0.nan
    ensures Counted(rem0, false, 0, rem0, mult, n)
  {
    assert 0 * Val(mult.data) == 0;
  }

  /** One more subtraction keeps Counted, with the counter incremented modulo 256,
      and lowers Progress. */
  lemma CountedStep(r: Num, started: bool, d: nat, rem0: Num, mult: Num, n: nat)
    requires Counted(r, started, d, rem0, mult, n) && |rem0.data| <= n
    requires !mult.negative && !mult.nan && Val(mult.data) > 0 && GreaterEq(r, mult)
    ensures Counted(Minus(r, mult), true, (d + 1) % 256, rem0, mult, n)
    ensures Progress(Minus(r, mult), n) < Progress(r, n)
  {
    var r' := Minus(r, mult);
    SubtractStep(r, mult, n);
    if Tidy(rem0.data) && Val(rem0.data) < 256 * Val(mult.data) {
      CountStep(d, Val(mult.data), Val(r.data), Val(r'.data), Val(rem0.data));
    }
  }

  /** One subtraction of the inner loop: when d subtractions of vm from v0 < 256 vm
      leave vr >= vm, the counter d + 1 does not wrap and vr - vm == v0 - (d + 1) vm. */
  lemma CountStep(d: nat, vm: nat, vr: int, vr': int, v0: int)
    requires vr + d * vm == v0 && vm <= vr && v0 < 256 * vm && vr' == vr - vm
    ensures (d + 1) % 256 == d + 1
    ensures vr' + ((d + 1) % 256) * vm == v0
  {
    assert (d + 1) * vm == d * vm + vm;
    MulCancel(vm, d + 1, 256);
    assert vm * (d + 1) == (d + 1) * vm && vm * 256 == 256 * vm;
  }

  /** divide_'s inner loop from the remainder r with the uint8_t counter at d: while
      r >= mult, r -= mult and the counter goes up modulo 256. It stops with a
      remainder below mult, no longer than r. */
  function Count(r: Num, mult: Num, d: Byte, n: nat): (c: (Num, Byte))
    requires !r.negative && !r.nan && !mult.negative && !mult.nan
    requires Val(mult.data) > 0 && |r.data| <= n
    ensures !c.0.negative && !c.0.nan && |c.0.data| <= |r.data| && !GreaterEq(c.0, mult)
    decreases Progress(r, n)
  {
    if GreaterEq(r, mult) then
      SubtractStep(r, mult, n);
      Count(Minus(r, mult), mult, (d + 1) % 256, n)
    else (r, d)
  }

  /** The whole inner loop keeps Counted from the state it starts in; it has
      started once the first comparison succeeds. */
  lemma {:induction false} CountKeeps(r: Num, started: bool, d: Byte, rem0: Num, mult: Num, n: nat)
    requires Counted(r, started, d, rem0, mult, n) && |rem0.data| <= n
    requires !mult.negative && !mult.nan && Val(mult.data) > 0
    ensures Counted(Count(r, mult, d, n).0, started || GreaterEq(r, mult), Count(r, mult, d, n).1, rem0, mult, n)
    decreases Progress(r, n)
  {
    if GreaterEq(r, mult) {
      CountedStep(r, started, d, rem0, mult, n);
      CountKeeps(Minus(r, mult), true, (d + 1) % 256, rem0, mult, n);
    }
  }

  /** From a tidy remainder and a normalised multiple the inner loop divides, however
      large the quotient: it leaves r mod mult, and the counter moves on by the
      quotient modulo 256, so it wraps once the quotient reaches 256. */
  lemma {:induction false} CountValue(r: Num, mult: Num, d: Byte, n: nat)
    requires !r.negative && !r.nan && !mult.negative && !mult.nan
    requires Val(mult.data) > 0 && |r.data| <= n && Tidy(r.data) && Normalised(mult.data)
    ensures var c := Count(r, mult, d, n);
      && Tidy(c.0.data) && Val(c.0.data) == Val(r.data) % Val(mult.data)
      && c.1 == (d + Val(r.data) / Val(mult.data)) % 256
    decreases Progress(r, n)
  {
    if GreaterEq(r, mult) {
      AtLeast(r, mult);
      SubtractStep(r, mult, n);
      CountValue(Minus(r, mult), mult, (d + 1) % 256, n);
      TakeOne(Val(r.data), Val(mult.data), d);
    } else {
      Below(r, mult);
      Q0(Val(r.data), Val(mult.data));
    }
  }

  lemma Q0(a: nat, m: nat)
    requires a < m
    ensures a / m == 0 && a % m == a
  {
  }

  /** Taking m from a >= m lowers the quotient by one and keeps the remainder, so a
      counter bumped modulo 256 first ends where it would have. */
  lemma TakeOne(a: nat, m: nat, d: nat)
    requires a >= m > 0
    ensures (a - m) % m == a % m
    ensures ((d + 1) % 256 + (a - m) / m) % 256 == (d + a / m) % 256
  {
    var q, r := a / m, a % m;
    assert q * m + r == a;
    assert (q - 1) * m + r == a - m;
    DivModUnique(a - m, m, q - 1, r);
    ModShift(d + 1, q - 1);
  }

  /** Reducing the first summand modulo 256 does not change the sum modulo 256. */
  lemma ModShift(a: nat, b: nat)
    ensures (a % 256 + b) % 256 == (a + b) % 256
  {
    var k := a / 256;
    assert a == 256 * k + a % 256;
    assert a + b == 256 * k + (a % 256 + b);
    DivModUnique(a % 256 + b, 256, (a % 256 + b) / 256, (a % 256 + b) % 256);
    DivModUnique(a + b, 256, k + (a % 256 + b) / 256, (a % 256 + b) % 256);
  }

  /** The shift of divide_'s outer loop for rem >= div: |rem| - |div|, one less when
      the divisor shifted that far exceeds rem. It does not go below zero, it leaves
      the shifted divisor no longer than rem, and rem is at least that multiple. */
  function Shift(rem: Num, div: Num): (t: nat)
    requires !rem.negative && !rem.nan && !div.negative && !div.nan && GreaterEq(rem, div)
    ensures t + |div.data| <= |rem.data| && GreaterEq(rem, ShiftLeft(div, t))
  {
    ChooseShift(rem, div);
    var s := |rem.data| - |div.data|;
    if Less(rem, ShiftLeft(div, s)) then s - 1 else s
  }

  /** On a tidy non-zero divisor rem is below 256 times the multiple Shift picks, so
      the inner loop's counter does not wrap. */
  lemma ShiftBound(rem: Num, div: Num)
    requires !rem.negative && !rem.nan && !div.negative && !div.nan && GreaterEq(rem, div)
    requires Tidy(div.data) && Val(div.data) > 0
    ensures Val(rem.data) < 256 * Val(ShiftLeft(div, Shift(rem, div)).data)
  {
    ChooseShift(rem, div);
    var s := |rem.data| - |div.data|;
    if Less(rem, ShiftLeft(div, s)) {
      LessMultipleBound(rem, div, s - 1);
    } else {
      FullMultipleBound(rem, div);
    }
  }

  /** One pass of divide_'s outer loop on the quotient bytes q and a remainder
      rem >= div: the inner loop's count of subtractions of div * 256^t, t =
      Shift(rem, div), is written at q[t], with the remainder it leaves. */
  function Step(q: seq<Byte>, rem: Num, div: Num, n: nat): (s: (seq<Byte>, Num))
    requires !rem.negative && !rem.nan && !div.negative && !div.nan
    requires Val(div.data) > 0 && GreaterEq(rem, div) && |rem.data| <= n && |q| == n - |div.data| + 1
    ensures |s.0| == |q| && !s.1.negative && !s.1.nan && |s.1.data| <= n
  {
    var t := Shift(rem, div);
    ShiftedPositive(div, t);
    var c := Count(rem, ShiftLeft(div, t), 0, n);
    (q[t := c.1], c.0)
  }

  /** Each pass lowers Progress: its inner loop subtracts at least once. */
  lemma StepProgress(q: seq<Byte>, rem: Num, div: Num, n: nat)
    requires !rem.negative && !rem.nan && !div.negative && !div.nan
    requires Val(div.data) > 0 && GreaterEq(rem, div) && |rem.data| <= n && |q| == n - |div.data| + 1
    ensures Progress(Step(q, rem, div, n).1, n) < Progress(rem, n)
  {
    var t := Shift(rem, div);
    ShiftedPositive(div, t);
    CountedEntry(rem, ShiftLeft(div, t), n);
    CountKeeps(rem, false, 0, rem, ShiftLeft(div, t), n);
  }

  /** divide_'s outer loop: passes of Step while rem >= div. It stops with the
      quotient bytes, still |q| of them, and a remainder below the divisor. */
  function Loop(q: seq<Byte>, rem: Num, div: Num, n: nat): (l: (seq<Byte>, Num))
    requires !rem.negative && !rem.nan && !div.negative && !div.nan
    requires Val(div.data) > 0 && |rem.data| <= n && |q| == n - |div.data| + 1
    ensures |l.0| == |q| && !l.1.negative && !l.1.nan && !GreaterEq(l.1, div)
    decreases Progress(rem, n)
  {
    if GreaterEq(rem, div) then
      StepProgress(q, rem, div, n);
      var s := Step(q, rem, div, n);
      Loop(s.0, s.1, div, n)
    else (q, rem)
  }

  /** What divide_'s outer loop keeps on tidy operands: the quotient bytes q and the
      remainder r give q * div + r == x, r is tidy and below div * 256^hi, and the
      bytes of q from hi down are still zero. */
  predicate Dividing(q: seq<Byte>, r: Num, x: Num, div: Num, hi: nat)
  {
    && Tidy(r.data) && hi <= |q|
    && Val(q) * Val(div.data) + Val(r.data) == Val(x.data)
    && Val(r.data) < Pow(hi) * Val(div.data)
    && forall k :: 0 <= k < hi ==> q[k] == 0
  }

  /** The outer loop starts from a zero quotient of |x| - |div| + 1 bytes and r = x. */
  lemma DividingEntry(x: Num, div: Num)
    requires Tidy(x.data) && Tidy(div.data) && Val(div.data) > 0 && |div.data| <= |x.data|
    ensures Dividing(Zeros(|x.data| - |div.data| + 1), x, x, div, |x.data| - |div.data| + 1)
  {
    ValZeros(|x.data| - |div.data| + 1);
    FullMultipleBound(x, div);
  }

  /** A non-zero divisor shifted by t bytes is non-zero. */
  lemma ShiftedPositive(div: Num, t: nat)
    requires Val(div.data) > 0
    ensures Val(ShiftLeft(div, t).data) > 0
  {
    MulSign(Val(div.data), Pow(t));
    assert Val(div.data) * Pow(t) == Pow(t) * Val(div.data);
  }

  /** One outer iteration on tidy operands: the multiple div * 256^t chosen with rem
      below 256 multiples, and the inner loop's count d with r' = rem - d * multiple
      below the multiple. Then t < hi, so q[t] was still zero, and storing d there
      keeps the loop's relation with hi = t. */
  lemma DividingStep(q: seq<Byte>, rem: Num, x: Num, div: Num, hi: nat, t: nat, r': Num, d: Byte)
    requires Dividing(q, rem, x, div, hi) && !rem.negative && !rem.nan
    requires !div.negative && !div.nan && Tidy(div.data) && Val(div.data) > 0
    requires GreaterEq(rem, ShiftLeft(div, t)) && Val(rem.data) < 256 * Val(ShiftLeft(div, t).data)
    requires !r'.negative && !r'.nan && Normalised(r'.data) && !GreaterEq(r', ShiftLeft(div, t))
    requires Val(r'.data) + d * Val(ShiftLeft(div, t).data) == Val(rem.data)
    ensures t < hi && Dividing(q[t := d], r', x, div, t)
  {
    var mult := ShiftLeft(div, t);
    ShiftBelow(rem, div, t, hi);
    ValUpdate(q, t, d);
    QuotientStep(Val(q), Pow(t), d, Val(div.data), Val(mult.data), Val(rem.data),
                 Val(r'.data), Val(x.data), Val(q[t := d]));
    TidyDivisor(div);
    ShiftedNormalised(div, t);
    Below(r', mult);
  }

  /** When the outer loop stops, remainder < divisor: q and r are the quotient and
      remainder of x by div. */
  lemma DividingExit(q: seq<Byte>, r: Num, x: Num, div: Num, hi: nat)
    requires Dividing(q, r, x, div, hi) && !r.negative && !r.nan
    requires !div.negative && !div.nan && Tidy(div.data) && Val(div.data) > 0
    requires !GreaterEq(r, div)
    ensures Divided(q, r, x, div)
  {
    TidyDivisor(div);
    Below(r, div);
  }

  /** On tidy operands a pass of Step keeps Dividing, the zero bytes of q now
      starting at the shift it used. */
  lemma StepDividing(q: seq<Byte>, rem: Num, x: Num, div: Num, hi: nat, n: nat)
    requires !rem.negative && !rem.nan && !div.negative && !div.nan
    requires Val(div.data) > 0 && GreaterEq(rem, div) && |rem.data| <= n && |q| == n - |div.data| + 1
    requires Tidy(div.data) && Dividing(q, rem, x, div, hi)
    ensures Dividing(Step(q, rem, div, n).0, Step(q, rem, div, n).1, x, div, Shift(rem, div))
  {
    var t := Shift(rem, div);
    var mult := ShiftLeft(div, t);
    ShiftedPositive(div, t);
    ShiftBound(rem, div);
    CountedEntry(rem, mult, n);
    CountKeeps(rem, false, 0, rem, mult, n);
    var c := Count(rem, mult, 0, n);
    DividingStep(q, rem, x, div, hi, t, c.0, c.1);
  }

  /** On tidy operands the outer loop, from a state of Dividing, ends in Divided. */
  lemma {:induction false} LoopDivided(q: seq<Byte>, rem: Num, x: Num, div: Num, hi: nat, n: nat)
    requires !rem.negative && !rem.nan && !div.negative && !div.nan
    requires Val(div.data) > 0 && |rem.data| <= n && |q| == n - |div.data| + 1
    requires Tidy(div.data) && Dividing(q, rem, x, div, hi)
    ensures Divided(Loop(q, rem, div, n).0, Loop(q, rem, div, n).1, x, div)
    decreases Progress(rem, n)
  {
    if GreaterEq(rem, div) {
      StepProgress(q, rem, div, n);
      StepDividing(q, rem, x, div, hi, n);
      var s := Step(q, rem, div, n);
      LoopDivided(s.0, s.1, x, div, Shift(rem, div), n);
    } else {
      DividingExit(q, rem, x, div, hi);
    }
  }

  /** What the loops leave behind: q * div + r == x with a tidy remainder below div. */
  predicate Divided(q: seq<Byte>, r: Num, x: Num, div: Num)
  {
    Tidy(r.data) && Val(q) * Val(div.data) + Val(r.data) == Val(x.data) && Val(r.data) < Val(div.data)
  }

  /** remove_zeros_ on both results keeps q * div + r == x with r < div. */
  lemma DividedTrim(q: seq<Byte>, r: seq<Byte>, x: Num, div: Num)
    requires Divided(q, Num(r, false, false), x, div)
    ensures Divided(Trim(q), Num(Trim(r), false, false), x, div)
  {
    TrimIsCanonical(q);
    TrimIsCanonical(r);
  }

  /** Writing the digit dg at weight p of the quotient keeps q * vd + rem == x
      when the remainder loses dg times the multiple vm = p * vd. */
  lemma QuotientStep(q: int, p: int, dg: int, vd: int, vm: int, r0: int, r1: int, x: int, q1: int)
    requires q * vd + r0 == x && vm == p * vd && r1 + dg * vm == r0 && q1 == q + dg * p
    ensures q1 * vd + r1 == x
  {
    assert q1 * vd == q * vd + (dg * p) * vd;
    assert dg * vm == (dg * p) * vd;
  }

  /** q * b + r == a with 0 <= r < b determines q and r as a / b and a % b. */
  lemma DivModUnique(a: nat, b: nat, q: nat, r: nat)
    requires b > 0 && q * b + r == a && r < b
    ensures q == a / b && r == a % b
  {
    var q0, r0 := a / b, a % b;
    assert q0 * b + r0 == a;
    assert (q - q0) * b == r0 - r;
    MulSign(b, q - q0);
    assert b * (q - q0) == (q - q0) * b;
  }
}
