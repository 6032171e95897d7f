/** Arithmetic facts that the loops of the LN class keep as invariants: one step of
    a byte-by-byte split, carry and borrow propagation, and the schoolbook row. */
module LoopFacts {
  import opened Digits
  import R = Representation
  import V = Conversions
  import A = Additive
  import M = Multiplicative

  /** Taking the low byte and shifting right by eight bits keeps p * v. */
  lemma ByteSplitStep(p: int, v: int)
    ensures p * (v % 256) + (256 * p) * (v / 256) == p * v
  {
    var lo := v % 256;
    var hi := v / 256;
    assert v == lo + 256 * hi;
    assert p * v == p * lo + p * (256 * hi);
    assert p * (256 * hi) == (256 * p) * hi;
  }

  /** After splitting a long long (or its magnitude) v0 into eight bytes of value low,
      what is left in the shifted variable is 0 for v0 >= 0 and -1 for v0 < 0, so
      low is v0 modulo 2^64. */
  lemma SplitResidue(v0: int, low: nat, rest: int, p: int)
    requires p > 0 && low < p && -p <= v0 < p
    requires low + p * rest == v0
    ensures v0 >= 0 ==> low == v0
    ensures v0 < 0 ==> low == v0 + p
  {
    MulSign(p, rest);
    MulSign(p, rest + 1);
    assert p * (rest + 1) == p * rest + p;
  }

  /** One step of LN(long long)'s byte loop: writing v & 0xFF at index i and shifting
      v right by eight bits keeps Val(bytes[..i]) + 256^i * v. */
  lemma SplitStep(prev: seq<Byte>, now: seq<Byte>, i: nat, v: int, v0: int)
    requires i < |now| && now[..i] == prev && now[i] == v % 256
    requires Val(prev) + Pow(i) * v == v0
    ensures Val(now[..i + 1]) + Pow(i + 1) * (v / 256) == v0
  {
    ValPrefix(now, i);
    ByteSplitStep(Pow(i), v);
  }

  /** After LN(long long)'s byte loop over the eight bytes of v0 (value itself for
      INT64_MIN, its magnitude otherwise), remove_zeros_ leaves LN(value). */
  lemma SplitResult(value: int, s: seq<Byte>, rest: int)
    requires V.IsInt64(value) && value != 0 && |s| == V.INT64_BYTES
    requires Val(s) + Pow(8) * rest == (if value == V.INT64_MIN || value > 0 then value else -value)
    ensures R.RemoveZeros(R.Num(s, value < 0, false)) == V.FromInt(value)
  {
    PowEight();
    ValBound(s);
    var v0 := if value == V.INT64_MIN || value > 0 then value else -value;
    SplitResidue(v0, Val(s), rest, Pow(8));
    TrimIsCanonical(s);
  }

  /** One step of add_'s ripple-carry loop: the written byte and the new carry
      account for the two digits and the old carry. */
  lemma CarryStep(p: int, low: int, carry: int, a: int, b: int, sum: int)
    requires sum == a + carry + b
    ensures low + p * (sum % 256) + (256 * p) * (sum / 256) == (low + p * carry) + p * a + p * b
  {
    ByteSplitStep(p, sum);
    assert p * sum == p * carry + p * a + p * b;
  }

  /** One step of subtract_'s borrow loop: d is the byte difference a - borrow - b
      and the stored byte is d, corrected by 256 together with a new borrow when
      it is negative. */
  lemma BorrowStep(p: int, low: int, borrow: int, a: int, b: int, d: int, stored: int, borrow': int)
    requires d == a - borrow - b
    requires stored - 256 * borrow' == d
    ensures (low + p * stored) - (256 * p) * borrow' == (low - p * borrow) + p * a - p * b
  {
    assert p * stored - (256 * p) * borrow' == p * d;
    assert p * d == p * a - p * borrow - p * b;
  }

  /** subtract_'s loop result: 0 <= r < P and r - P * borrow == d with the borrow
      a bit means r is d taken modulo P. */
  lemma DropBorrow(r: int, d: int, borrow: int, p: int)
    requires 0 <= r < p && (borrow == 0 || borrow == 1)
    requires r - p * borrow == d
    ensures r == d % p
  {
    if borrow == 1 {
      assert d + p == r;
    }
  }

  /** One step of add_'s loop at index i: sum = lhs_i + carry (+ rhs_i below
      rhs.size_), the byte sum & 0xFF and the carry sum >> 8 keep the running sum. */
  lemma CarryLoopStep(x: seq<Byte>, y: seq<Byte>, prev: seq<Byte>, now: seq<Byte>,
                      i: nat, carry: int, sum: int)
    requires i < |x| && i < |now| && now[..i] == prev
    requires Val(prev) + Pow(i) * carry == Val(x[..i]) + Val(A.Low(y, i))
    requires sum == x[i] + carry + (if i < |y| then y[i] else 0)
    requires now[i] == sum % 256
    ensures Val(now[..i + 1]) + Pow(i + 1) * (sum / 256) == Val(x[..i + 1]) + Val(A.Low(y, i + 1))
  {
    ValPrefix(now, i);
    ValPrefix(x, i);
    var b := if i < |y| then y[i] else 0;
    if i < |y| {
      ValPrefix(y, i);
      assert A.Low(y, i + 1) == y[..i + 1] && A.Low(y, i) == y[..i];
    } else {
      assert A.Low(y, i + 1) == A.Low(y, i);
    }
    CarryStep(Pow(i), Val(prev), carry, x[i], b, sum);
  }

  /** add_ after its loop: the bytes below lhs.size_, the carry written at lhs.size_
      and the zero above it, once trimmed, are add_'s result. */
  lemma AddResult(x: R.Num, y: R.Num, s: seq<Byte>, carry: Byte)
    requires |y.data| <= |x.data| && |s| == |x.data| + 2
    requires s[|x.data|] == carry && s[|x.data| + 1] == 0
    requires Val(s[..|x.data|]) + Pow(|x.data|) * carry == Val(x.data) + Val(A.Low(y.data, |x.data|))
    ensures R.RemoveZeros(R.Num(s, false, false)) == A.Add(x, y)
  {
    var n := |x.data|;
    assert Val(s) == Val(x.data) + Val(y.data) by {
      assert s == s[..n + 1] + Zeros(1);
      ValPadded(s[..n + 1], 1);
      ValPrefix(s, n);
      assert A.Low(y.data, n) == y.data;
    }
    RemoveZerosCanonical(s);
  }

  /** subtract_'s byte difference in uint16_t: lhs_i - borrow, minus rhs_i below
      rhs.size_, each wrapping modulo 2^16; above 0xFF it takes a borrow and adds
      0x100 (wrapping again). The stored byte and the new borrow give back the
      exact difference of the digits. */
  lemma Uint16Borrow(a: Byte, borrow: int, has: bool, b: Byte, w1: int, w2: int, w3: int, borrow': int)
    requires borrow == 0 || borrow == 1
    requires w1 == (a - borrow) % 0x1_0000
    requires w2 == if has then (w1 - b) % 0x1_0000 else w1
    requires w2 > 0xFF ==> borrow' == 1 && w3 == (w2 + 0x100) % 0x1_0000
    requires w2 <= 0xFF ==> borrow' == 0 && w3 == w2
    ensures 0 <= w3 < 256 && w3 % 256 == w3
    ensures w3 - 256 * borrow' == a - borrow - (if has then b else 0)
  {
  }

  /** One step of subtract_'s loop at index i: the stored byte and the new borrow
      keep the running difference. */
  lemma BorrowLoopStep(x: seq<Byte>, y: seq<Byte>, prev: seq<Byte>, now: seq<Byte>,
                       i: nat, borrow: int, stored: int, borrow': int)
    requires i < |x| && i < |now| && now[..i] == prev
    requires Val(prev) - Pow(i) * borrow == Val(x[..i]) - Val(A.Low(y, i))
    requires stored - 256 * borrow' == x[i] - borrow - (if i < |y| then y[i] else 0)
    requires now[i] == stored
    ensures Val(now[..i + 1]) - Pow(i + 1) * borrow' == Val(x[..i + 1]) - Val(A.Low(y, i + 1))
  {
    ValPrefix(now, i);
    ValPrefix(x, i);
    var b := if i < |y| then y[i] else 0;
    if i < |y| {
      ValPrefix(y, i);
      assert A.Low(y, i + 1) == y[..i + 1] && A.Low(y, i) == y[..i];
    } else {
      assert A.Low(y, i + 1) == A.Low(y, i);
    }
    BorrowStep(Pow(i), Val(prev), borrow, x[i], b, x[i] - borrow - b, stored, borrow');
  }

  /** subtract_ after its loop: the lhs.size_ bytes, trimmed, are the difference
      modulo 256^lhs.size_, whatever the final borrow. */
  lemma SubtractResult(x: R.Num, y: R.Num, s: seq<Byte>, borrow: int)
    requires |s| == |x.data| && (borrow == 0 || borrow == 1)
    requires Val(s) - Pow(|s|) * borrow == Val(x.data[..|s|]) - Val(A.Low(y.data, |s|))
    ensures R.RemoveZeros(R.Num(s, false, false)) == A.SubtractNoSwap(x, y)
  {
    var n := |s|;
    assert Val(s) == A.Difference(x.data, y.data) by {
      assert x.data[..n] == x.data;
      ValBound(s);
      DropBorrow(Val(s), Val(x.data) - Val(A.Low(y.data, n)), borrow, Pow(n));
    }
    RemoveZerosCanonical(s);
  }

  /** One inner step of multiply_slow_: the product digit and the new carry keep
      Val(result) + p * carry == base + a * w * Val(rhs[..j]). */
  lemma ProductStep(v: int, old_: int, p: int, carry: int, a: int, b: int, w: int, pj: int,
                    vj: int, base: int, product: int)
    requires p == w * pj
    requires v + p * carry == base + a * w * vj
    requires product == a * b + carry + old_
    ensures (v + (product % 256 - old_) * p) + (256 * p) * (product / 256)
            == base + a * w * (vj + pj * b)
  {
    ByteSplitStep(p, product);
    assert (product % 256 - old_) * p == p * (product % 256) - p * old_;
    assert p * product == p * (a * b) + p * carry + p * old_;
    assert p * (a * b) == a * w * (pj * b) by {
      assert p * (a * b) == (w * pj) * (a * b);
    }
    assert a * w * (vj + pj * b) == a * w * vj + a * w * (pj * b);
  }

  /** A schoolbook product digit fits in 16 bits. */
  lemma ProductFits(a: Byte, b: Byte, carry: Byte, old_: Byte)
    ensures 0 <= a * b && a * b + carry + old_ <= 0xFFFF
  {
    MulLeft(a, 0, b);
    MulLeft(a, b, 255);
    MulLeft(255, a, 255);
    assert a * 255 == 255 * a;
  }

  /** One inner step of multiply_slow_ at row i, column j: product = a * b + carry
      + result_{i+j} fits in uint16_t, its low byte goes to i + j and its high byte
      is the next carry; the buffer plus the pending carry keeps its value at the
      start of the row plus a * 256^i * Val(rhs[..j]). */
  lemma SlowInnerStep(buf: seq<Byte>, buf': seq<Byte>, i: nat, j: nat, a: Byte, carry: Byte,
                      y: seq<Byte>, base: int, product: int)
    requires i + j < |buf| && j < |y|
    requires Val(buf) + Pow(i + j) * carry == base + a * Pow(i) * Val(y[..j])
    requires product == a * y[j] + carry + buf[i + j]
    requires buf' == buf[i + j := product % 256]
    ensures 0 <= product <= 0xFFFF && 0 <= product / 256 < 256
    ensures Val(buf') + Pow(i + j + 1) * (product / 256) == base + a * Pow(i) * Val(y[..j + 1])
  {
    ProductFits(a, y[j], carry, buf[i + j]);
    ValUpdate(buf, i + j, product % 256);
    PowAdd(i, j);
    ValPrefix(y, j);
    assert Pow(i + j + 1) == 256 * Pow(i + j);
    ProductStep(Val(buf), buf[i + j], Pow(i + j), carry, a, y[j], Pow(i), Pow(j), Val(y[..j]), base, product);
  }

  /** The end of a row of multiply_slow_: storing a non-zero carry in a zero byte at
      position k adds 256^k * carry to the buffer. */
  lemma RowCarry(buf: seq<Byte>, buf': seq<Byte>, k: nat, carry: Byte)
    requires k < |buf| && buf[k] == 0
    requires buf' == if carry > 0 then buf[k := carry] else buf
    ensures Val(buf') == Val(buf) + Pow(k) * carry
  {
    if carry > 0 {
      ValUpdate(buf, k, carry);
    }
  }

  /** Row i of multiply_slow_ adds lhs_i * 256^i * Val(rhs) to the buffer, which then
      holds Val(lhs[..i + 1]) * Val(rhs). */
  lemma RowArith(lo: int, p: int, a: int, v: int, before: int, after: int, next: int)
    requires before == lo * v && after == before + a * p * v
    requires next == lo + p * a
    ensures after == next * v
  {
    assert (lo + p * a) * v == lo * v + (p * a) * v;
    assert (p * a) * v == a * p * v;
  }

  /** multiply_slow_ after its loops: the buffer holds the product, and
      remove_zeros_ leaves multiply_slow_'s result. */
  lemma SlowResult(x: R.Num, y: R.Num, buf: seq<Byte>)
    requires !R.IsZero(x) && !R.IsZero(y)
    requires Val(buf) == Val(x.data[..|x.data|]) * Val(y.data)
    ensures R.RemoveZeros(R.Num(buf, false, false)) == M.MultiplySlow(x, y)
  {
    assert x.data[..|x.data|] == x.data;
    RemoveZerosCanonical(buf);
  }

  /** remove_zeros_ on a non-negative buffer leaves the canonical digits of its value. */
  lemma RemoveZerosCanonical(s: seq<Byte>)
    ensures R.RemoveZeros(R.Num(s, false, false)) == R.Num(ToDigits(Val(s)), false, false)
  {
    TrimIsCanonical(s);
  }
}
