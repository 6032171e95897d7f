/** The class LN: its four fields, its constructors, and the methods that fill,
    scan or trim the digit buffer in place. Every method is proved to leave or
    return exactly the value-level result of the corresponding pure model. */
module LongNumber {
  import opened Digits
  import opened LoopFacts
  import R = Representation
  import C = Comparator
  import A = Additive
  import M = Multiplicative
  import Q = Division
  import H = HexCodec
  import V = Conversions
  import N = Newton
  import D = LongDivision

  class LN {
    /** data_: the digit buffer, little-endian; only data_[0..size_) is live. */
    var data: array<Byte>
    var size: nat
    var negative: bool
    var nan: bool

    ghost predicate Valid()
      reads this
    {
      size <= data.Length
    }

    /** The value-level state: the live digits and the two flags. */
    ghost function Model(): R.Num
      reads this, data
      requires Valid()
    {
      R.Num(data[..size], negative, nan)
    }

    /** LN(): the default argument 0, stored as one zero byte. */
    constructor ()
      ensures Valid() && fresh(data)
      ensures Model() == R.Zero()
    {
      data := new Byte[1](_ => 0);
      size := 1;
      negative := false;
      nan := false;
      new;
      assert data[..1] == [0];
    }

    /** LN(const LN&): alloc_(other.size_), both flags, then the live bytes. */
    constructor Copy(other: LN)
      requires other.Valid()
      ensures Valid() && fresh(data)
      ensures Model() == other.Model()
    {
      data := new Byte[0];
      size := 0;
      negative := false;
      nan := false;
      new;
      Alloc(other.size);
      negative := other.negative;
      nan := other.nan;
      forall i | 0 <= i < size {
        data[i] := other.data[i];
      }
    }

    /** LN(long long): one zero byte for 0; otherwise eight bytes filled by the
        shift loop and trimmed. For INT64_MIN the special-case writes are all
        overwritten: the loop splits INT64_MIN itself, with & 0xFF as the residue
        modulo 256 and the arithmetic >>= 8 as floor division, which leaves the
        bytes of 2^63. */
    constructor FromInt(value: int)
      requires V.IsInt64(value)
      ensures Valid() && fresh(data)
      ensures Model() == V.FromInt(value)
    {
      data := new Byte[0];
      size := 0;
      negative := false;
      nan := false;
      new;
      if value == 0 {
        Alloc(1);
        assert Zeros(1) == [0];
        return;
      }
      Alloc(V.INT64_BYTES);
      var v := value;
      if v == V.INT64_MIN {
        negative := true;
        data[0] := H.FromHex('8');
        for i := 1 to size
          invariant fresh(data) && size == data.Length == 8 && negative && !nan
        {
          data[i] := 0;
        }
      } else if v < 0 {
        negative := true;
        v := -v;
      }
      ghost var v0 := v;
      for i := 0 to size
        invariant fresh(data) && size == data.Length == 8 && negative == (value < 0) && !nan
        invariant Val(data[..i]) + Pow(i) * v == v0
      {
        ghost var prev := data[..i];
        data[i] := v % 256;
        SplitStep(prev, data[..], i, v, v0);
        assert data[..][..i + 1] == data[..i + 1];
        v := v / 256;
      }
      assert data[..] == data[..8];
      SplitResult(value, data[..8], v);
      RemoveZeros();
    }

    /** LN(string_view): zero for the empty token; otherwise the sign and the 0x
        prefix are stripped, (k + 1) / 2 bytes are allocated and filled from the top,
        and nothing is trimmed. */
    constructor Parse(str: string)
      requires H.ParseableToken(str)
      ensures Valid() && fresh(data)
      ensures Model() == H.Parse(str)
    {
      data := new Byte[1](_ => 0);
      size := 1;
      negative := false;
      nan := false;
      new;
      if |str| == 0 {
        assert data[..1] == [0];
        return;
      }
      var neg := false;
      var s := str;
      if s[0] == '-' {
        neg := true;
        s := s[1..];
      }
      if |s| >= 2 && s[0] == '0' && H.ToUpper(s[1]) == 'X' {
        s := s[2..];
      }
      assert s == H.DigitPart(str);
      var byteCount := (|s| + 1) / 2;
      Alloc(byteCount);
      negative := neg;
      ReadBytes(s, data);
      assert data[..size] == data[..];
    }

    /** The byte writes of LN(string_view) into its fresh buffer: the top byte from
        the first character alone (odd length, shift = 1) or from the first two, then
        byte n - 1 - i, for i from 1 up, from characters i * 2 - shift and
        i * 2 + 1 - shift. */
    static method ReadBytes(s: string, data: array<Byte>)
      requires |s| > 0 && data.Length == (|s| + 1) / 2
      modifies data
      ensures data[..] == H.ParseBytes(s)
    {
      var byteCount := data.Length;
      var shift := 0;
      var top;
      if |s| % 2 == 1 {
        top := H.FromHex(s[0]);
        shift := 1;
      } else {
        top := H.Combine(H.FromHex(s[0]), H.FromHex(s[1]));
      }
      data[byteCount - 1] := top;
      H.ParseTop(s, data[..], top);
      for i := 1 to byteCount
        invariant H.ReadFromTop(s, data[..], i)
      {
        H.PairInRange(s, i, shift);
        var highNibble := H.FromHex(s[i * 2 - shift]);
        var lowNibble := H.FromHex(s[i * 2 + 1 - shift]);
        ghost var before := data[..];
        data[byteCount - i - 1] := H.Combine(highNibble, lowNibble);
        H.ParseStep(s, before, i, shift, i * 2 - shift, data[byteCount - i - 1], data[..]);
      }
      H.ParseBytesFrom(s, data[..]);
    }

    /** alloc_: a fresh zero-filled buffer of n bytes; both flags cleared. */
    method Alloc(n: nat)
      modifies this
      ensures Valid() && fresh(data) && data.Length == n && size == n
      ensures Model() == R.Num(Zeros(n), false, false)
    {
      data := new Byte[n](_ => 0);
      size := n;
      negative := false;
      nan := false;
      assert data[..n] == Zeros(n);
    }

    /** remove_zeros_: size_ steps down over top zero bytes; an empty result loses its sign. */
    method RemoveZeros()
      requires Valid()
      modifies this
      ensures Valid() && data == old(data)
      ensures Model() == R.RemoveZeros(old(Model()))
    {
      while size > 0 && data[size - 1] == 0
        invariant size <= old(size) && data == old(data)
        invariant negative == old(negative) && nan == old(nan)
        invariant Trim(data[..size]) == Trim(old(data[..size]))
        decreases size
      {
        assert data[..size][..size - 1] == data[..size - 1];
        size := size - 1;
      }
      if size == 0 {
        negative := false;
      }
    }

    /** is_zero: false for NaN; otherwise true iff every live byte is zero. */
    method IsZero() returns (b: bool)
      requires Valid()
      ensures b == R.IsZero(Model())
    {
      if nan {
        return false;
      }
      if size == 0 {
        return true;
      }
      for i := 0 to size
        invariant forall j :: 0 <= j < i ==> data[j] == 0
      {
        if data[i] != 0 {
          return false;
        }
      }
      return true;
    }

    /** is_negative: reads negative_. */
    method IsNegative() returns (b: bool)
      requires Valid()
      ensures b == Model().negative
    {
      return negative;
    }

    /** is_nan: reads nan_. */
    method IsNaN() returns (b: bool)
      requires Valid()
      ensures b == Model().nan
    {
      return nan;
    }

    /** size(): reads size_, the number of live bytes. */
    method Size() returns (n: nat)
      requires Valid()
      ensures n == |Model().data|
    {
      return size;
    }

    /** create_zero_: a default LN. */
    static method CreateZero() returns (r: LN)
      ensures fresh(r) && fresh(r.data) && r.Valid()
      ensures r.Model() == R.Zero()
    {
      r := new LN();
    }

    /** create_nan_: a default LN with nan_ set. */
    static method CreateNaN() returns (r: LN)
      ensures fresh(r) && fresh(r.data) && r.Valid()
      ensures r.Model() == R.NaN()
    {
      r := new LN();
      r.nan := true;
    }

    /** abs_: a copy with the sign flag cleared. */
    static method Abs(obj: LN) returns (r: LN)
      requires obj.Valid()
      ensures fresh(r) && fresh(r.data) && r.Valid()
      ensures r.Model() == R.Abs(obj.Model())
    {
      r := new LN.Copy(obj);
      r.negative := false;
    }

    /** negate: a copy with the sign flag flipped. */
    method Negate() returns (r: LN)
      requires Valid()
      ensures fresh(r) && fresh(r.data) && r.Valid()
      ensures r.Model() == R.Negate(Model())
    {
      r := new LN.Copy(this);
      r.negative := !r.negative;
    }

    /** Unary operator-: negate. */
    method Neg() returns (r: LN)
      requires Valid()
      ensures fresh(r) && fresh(r.data) && r.Valid()
      ensures r.Model() == R.Negate(Model())
    {
      r := Negate();
    }

    /** shift_left_: a fresh buffer of size_ + shift bytes with the digits copied above shift zeros. */
    static method ShiftLeft(number: LN, shift: nat) returns (r: LN)
      requires number.Valid()
      ensures fresh(r) && fresh(r.data) && r.Valid()
      ensures r.Model() == M.ShiftLeft(number.Model(), shift)
    {
      r := new LN();
      r.size := number.size + shift;
      r.Alloc(r.size);
      forall i | 0 <= i < number.size {
        r.data[shift + i] := number.data[i];
      }
      assert r.data[..r.size] == Zeros(shift) + number.data[..number.size];
    }

    /** pad_: a fresh zero buffer of n bytes with the digits copied to its bottom. */
    static method Pad(number: LN, n: nat) returns (r: LN)
      requires number.Valid() && number.size <= n
      ensures fresh(r) && fresh(r.data) && r.Valid()
      ensures r.Model() == M.Pad(number.Model(), n)
    {
      r := new LN();
      r.Alloc(n);
      forall i | 0 <= i < number.size {
        r.data[i] := number.data[i];
      }
      assert r.data[..n] == number.data[..number.size] + Zeros(n - number.size);
    }

    /** add_: the longer operand first; result.size_ = lhs.size_ + 1 is overwritten by
        alloc_(result.size_ + 1), so the buffer has lhs.size_ + 2 zero bytes; the
        ripple-carry loop, the final carry at lhs.size_, and remove_zeros_. */
    static method Add(lhs: LN, rhs: LN) returns (r: LN)
      requires lhs.Valid() && rhs.Valid()
      ensures fresh(r) && fresh(r.data) && r.Valid()
      ensures r.Model() == A.Add(lhs.Model(), rhs.Model())
      decreases if lhs.size < rhs.size then 1 else 0
    {
      if lhs.size < rhs.size {
        r := Add(rhs, lhs);
        return;
      }
      ghost var mx, my := lhs.Model(), rhs.Model();
      r := new LN();
      r.size := lhs.size + 1;
      r.Alloc(r.size + 1);
      assert r.data[lhs.size + 1] == 0;
      var carry := AddDigits(r.data, lhs, rhs);
      ghost var low := r.data[..lhs.size];
      r.data[lhs.size] := carry;
      ghost var sum := r.data[..r.size];
      assert sum[..lhs.size] == low && sum[lhs.size] == carry && sum[lhs.size + 1] == 0;
      AddResult(mx, my, sum, carry);
      assert r.Model() == R.Num(sum, false, false);
      r.RemoveZeros();
    }

    /** add_'s loop: sum = lhs_i + carry (+ rhs_i below rhs.size_) in uint16_t, its
        low byte stored at i and sum >> 8 the next carry, which is returned. The
        lhs.size_ bytes written plus the carry at weight 256^lhs.size_ are the sum of
        the two magnitudes; the bytes from lhs.size_ up are not touched. */
    static method AddDigits(buf: array<Byte>, lhs: LN, rhs: LN) returns (carry: Byte)
      requires lhs.Valid() && rhs.Valid() && rhs.size <= lhs.size < buf.Length
      requires buf != lhs.data && buf != rhs.data
      modifies buf
      ensures carry <= 1
      ensures Val(buf[..lhs.size]) + Pow(lhs.size) * carry
              == Val(lhs.data[..lhs.size]) + Val(A.Low(rhs.data[..rhs.size], lhs.size))
      ensures forall k :: lhs.size <= k < buf.Length ==> buf[k] == old(buf[k])
    {
      ghost var x := lhs.data[..lhs.size];
      ghost var y := rhs.data[..rhs.size];
      carry := 0;
      for i := 0 to lhs.size
        invariant carry <= 1
        invariant Val(buf[..i]) + Pow(i) * carry == Val(x[..i]) + Val(A.Low(y, i))
        invariant forall k :: lhs.size <= k < buf.Length ==> buf[k] == old(buf[k])
      {
        var sum: int := lhs.data[i] + carry;
        if i < rhs.size {
          sum := sum + rhs.data[i];
        }
        ghost var prev := buf[..i];
        buf[i] := sum % 256;
        CarryLoopStep(x, y, prev, buf[..], i, carry, sum);
        assert buf[..][..i + 1] == buf[..i + 1];
        carry := sum / 256;
      }
      assert x[..lhs.size] == x;
    }

    /** subtract_: when lhs < rhs, the reversed difference negated; otherwise a
        buffer of lhs.size_ bytes filled by the uint16_t borrow loop over the digits
        of lhs (those of rhs below lhs.size_), then remove_zeros_. */
    static method Subtract(lhs: LN, rhs: LN) returns (r: LN)
      requires lhs.Valid() && rhs.Valid()
      ensures fresh(r) && fresh(r.data) && r.Valid()
      ensures r.Model() == A.Subtract(lhs.Model(), rhs.Model())
      decreases if C.Less(lhs.Model(), rhs.Model()) then 1 else 0
    {
      var less := lhs.Less(rhs);
      if less {
        C.CompareAntisymmetric(lhs.Model(), rhs.Model());
        var t := Subtract(rhs, lhs);
        r := t.Negate();
        return;
      }
      ghost var x := lhs.data[..lhs.size];
      ghost var y := rhs.data[..rhs.size];
      r := new LN();
      r.size := lhs.size;
      r.Alloc(r.size);
      var borrow: int := 0;
      for i := 0 to lhs.size
        invariant fresh(r.data) && r.size == r.data.Length == lhs.size
        invariant !r.negative && !r.nan
        invariant borrow == 0 || borrow == 1
        invariant Val(r.data[..i]) - Pow(i) * borrow == Val(x[..i]) - Val(A.Low(y, i))
      {
        var a := lhs.data[i];
        var has := i < rhs.size;
        var b: Byte := if has then rhs.data[i] else 0;
        var diff: int := (a - borrow) % 0x1_0000;
        ghost var w1 := diff;
        if has {
          diff := (diff - b) % 0x1_0000;
        }
        ghost var w2 := diff;
        var borrow': int := 0;
        if diff > 0xFF {
          borrow' := 1;
          diff := (diff + 0x100) % 0x1_0000;
        }
        Uint16Borrow(a, borrow, has, b, w1, w2, diff, borrow');
        ghost var prev := r.data[..i];
        r.data[i] := diff % 256;
        BorrowLoopStep(x, y, prev, r.data[..], i, borrow, diff, borrow');
        assert r.data[..][..i + 1] == r.data[..i + 1];
        borrow := borrow';
      }
      assert r.data[..r.size] == r.data[..lhs.size];
      SubtractResult(lhs.Model(), rhs.Model(), r.data[..r.size], borrow);
      r.RemoveZeros();
    }

    /** multiply_slow_: zero when either side is zero; otherwise a buffer of
        lhs.size_ + rhs.size_ zero bytes, one row of byte products per digit of lhs,
        the row's last carry stored above it when non-zero, and remove_zeros_. */
    static method MultiplySlow(lhs: LN, rhs: LN) returns (r: LN)
      requires lhs.Valid() && rhs.Valid()
      ensures fresh(r) && fresh(r.data) && r.Valid()
      ensures r.Model() == M.MultiplySlow(lhs.Model(), rhs.Model())
    {
      var lz := lhs.IsZero();
      var rz := rhs.IsZero();
      if lz || rz {
        r := CreateZero();
        return;
      }
      ghost var mx, my := lhs.Model(), rhs.Model();
      r := new LN();
      r.size := lhs.size + rhs.size;
      r.Alloc(r.size);
      Rows(r.data, lhs, rhs);
      assert r.data[..r.size] == r.data[..] && mx.data[..|mx.data|] == mx.data;
      SlowResult(mx, my, r.data[..r.size]);
      assert r.Model() == R.Num(r.data[..r.size], false, false);
      r.RemoveZeros();
    }

    /** multiply_slow_'s outer loop: one row per digit of lhs, added into a buffer of
        lhs.size_ + rhs.size_ zero bytes, which then holds the product. */
    static method Rows(buf: array<Byte>, lhs: LN, rhs: LN)
      requires lhs.Valid() && rhs.Valid() && buf != lhs.data && buf != rhs.data
      requires buf.Length == lhs.size + rhs.size && forall k :: 0 <= k < buf.Length ==> buf[k] == 0
      modifies buf
      ensures Val(buf[..]) == Val(lhs.Model().data) * Val(rhs.Model().data)
    {
      ghost var x := lhs.data[..lhs.size];
      ghost var y := rhs.data[..rhs.size];
      assert buf[..] == Zeros(buf.Length) && x[..0] == [];
      ValZeros(buf.Length);
      assert Val(buf[..]) == Val(x[..0]) * Val(y) by { assert Val(x[..0]) == 0; }
      for i := 0 to lhs.size
        invariant Val(buf[..]) == Val(x[..i]) * Val(y)
        invariant forall k :: i + rhs.size <= k < buf.Length ==> buf[k] == 0
      {
        var digitA := lhs.data[i];
        ghost var before := Val(buf[..]);
        MultiplyRow(buf, i, digitA, rhs, y);
        ValPrefix(x, i);
        RowArith(Val(x[..i]), Pow(i), digitA, Val(y), before, Val(buf[..]), Val(x[..i + 1]));
      }
      assert x[..lhs.size] == x;
    }

    /** Row i of multiply_slow_: for each digit j of rhs, product = digitA * rhs_j
        + carry + result_{i+j} in uint16_t, its low byte stored at i + j and its high
        byte (static_cast<uint8_t>(product >> 8)) the next carry; a non-zero last carry
        is stored in the zero byte at i + rhs.size_. The buffer gains
        digitA * 256^i * Val(rhs) and the bytes above i + rhs.size_ are not touched. */
    static method MultiplyRow(buf: array<Byte>, i: nat, digitA: Byte, rhs: LN, ghost y: seq<Byte>)
      requires rhs.Valid() && buf != rhs.data && i + rhs.size < buf.Length
      requires y == rhs.data[..rhs.size]
      requires forall k :: i + rhs.size <= k < buf.Length ==> buf[k] == 0
      modifies buf
      ensures Val(buf[..]) == Val(old(buf[..])) + digitA * Pow(i) * Val(y)
      ensures forall k :: i + rhs.size < k < buf.Length ==> buf[k] == 0
    {
      ghost var base := Val(buf[..]);
      var carry: Byte := 0;
      assert y[..0] == [];
      for j := 0 to rhs.size
        invariant Val(buf[..]) + Pow(i + j) * carry == base + digitA * Pow(i) * Val(y[..j])
        invariant forall k :: i + rhs.size <= k < buf.Length ==> buf[k] == old(buf[k])
      {
        var digitB := rhs.data[j];
        var product: int := digitA * digitB + carry + buf[i + j];
        ghost var prev := buf[..];
        buf[i + j] := product % 256;
        SlowInnerStep(prev, buf[..], i, j, digitA, carry, y, base, product);
        carry := product / 256;
      }
      assert y[..rhs.size] == y;
      ghost var row := buf[..];
      if carry > 0 {
        buf[i + rhs.size] := carry;
      }
      RowCarry(row, buf[..], i + rhs.size, carry);
    }

    /** operator+: NaN when either side is NaN; otherwise add_ or subtract_ on the
        magnitudes, as the two sign flags select. */
    static method Plus(lhs: LN, rhs: LN) returns (r: LN)
      requires lhs.Valid() && rhs.Valid()
      ensures fresh(r) && fresh(r.data) && r.Valid()
      ensures r.Model() == A.Plus(lhs.Model(), rhs.Model())
    {
      if lhs.nan || rhs.nan {
        r := CreateNaN();
      } else if lhs.negative && rhs.negative {
        var a := Abs(lhs);
        var b := Abs(rhs);
        var s := Add(a, b);
        r := s.Negate();
      } else if lhs.negative {
        var a := Abs(lhs);
        r := Subtract(rhs, a);
      } else if rhs.negative {
        var b := Abs(rhs);
        r := Subtract(lhs, b);
      } else {
        r := Add(lhs, rhs);
      }
    }

    /** operator-: NaN when either side is NaN; otherwise add_ or subtract_ on the
        magnitudes, as the two sign flags select. */
    static method Minus(lhs: LN, rhs: LN) returns (r: LN)
      requires lhs.Valid() && rhs.Valid()
      ensures fresh(r) && fresh(r.data) && r.Valid()
      ensures r.Model() == A.Minus(lhs.Model(), rhs.Model())
    {
      if lhs.nan || rhs.nan {
        r := CreateNaN();
      } else if lhs.negative && rhs.negative {
        var a := Abs(lhs);
        var b := Abs(rhs);
        r := Subtract(b, a);
      } else if lhs.negative {
        var a := Abs(lhs);
        var s := Add(a, rhs);
        r := s.Negate();
      } else if rhs.negative {
        var b := Abs(rhs);
        r := Add(lhs, b);
      } else {
        r := Subtract(lhs, rhs);
      }
    }

    /** multiply_'s alloc_(n) and memcpy from data_ + from: the n bytes of number
        starting at from, with both flags clear. */
    static method Slice(number: LN, from: nat, n: nat) returns (r: LN)
      requires number.Valid() && from + n <= number.size
      ensures fresh(r) && fresh(r.data) && r.Valid() && r.size == n
      ensures r.Model() == R.Num(number.Model().data[from..from + n], false, false)
    {
      r := new LN();
      r.Alloc(n);
      forall i | 0 <= i < n {
        r.data[i] := number.data[from + i];
      }
      assert forall i | 0 <= i < n :: r.data[..n][i] == number.data[..number.size][from..from + n][i];
      assert r.data[..n] == number.data[..number.size][from..from + n];
    }

    /** multiply_: zero when either side is zero, multiply_slow_ when the shorter
        side has at most SIZE_FOR_FAST bytes, otherwise one Karatsuba step: both
        sides padded to a common size s, split into low parts a, c of s - s/2 bytes
        and high parts b, d, three products by operator*, and the recombination
        shift_left_(bd, 2m) + shift_left_(abcd - ac - bd, m) + ac. */
    static method Multiply(lhs: LN, rhs: LN) returns (r: LN)
      requires lhs.Valid() && rhs.Valid()
      ensures fresh(r) && fresh(r.data) && r.Valid()
      ensures r.Model() == M.Multiply(lhs.Model(), rhs.Model())
      decreases lhs.size + rhs.size, 2
    {
      var lz := lhs.IsZero();
      var rz := rhs.IsZero();
      if lz || rz {
        r := CreateZero();
        return;
      }
      if Min(lhs.size, rhs.size) <= SIZE_FOR_FAST {
        r := MultiplySlow(lhs, rhs);
        return;
      }
      var tl, tr := lhs, rhs;
      if lhs.size < rhs.size {
        tl := Pad(lhs, rhs.size);
      }
      if rhs.size < lhs.size {
        tr := Pad(rhs, lhs.size);
      }
      r := Karatsuba(tl, tr);
      M.MultiplyUnfold(lhs.Model(), rhs.Model(), r.Model());
    }

    /** The Karatsuba step of multiply_ on two sides of common size s: n = s / 2
        bytes from the top go to b and d, the s - n low bytes to a and c. */
    static method Karatsuba(tl: LN, tr: LN) returns (r: LN)
      requires tl.Valid() && tr.Valid() && tl.size == tr.size
      ensures fresh(r) && fresh(r.data) && r.Valid()
      ensures r.Model() == M.Karatsuba(tl.Model(), tr.Model())
      decreases tl.size + SIZE_FOR_FAST + 1, 1
    {
      ghost var ml, mr := tl.Model(), tr.Model();
      assert |ml.data| == |mr.data| == tl.size;
      var n := Min(tl.size, tr.size) / 2;
      var b := Slice(tl, tl.size - n, n);
      var d := Slice(tr, tr.size - n, n);
      var a := Slice(tl, 0, tl.size - n);
      var c := Slice(tr, 0, tr.size - n);
      n := tl.size - n;
      assert a.Model() == R.Num(ml.data[..n], false, false) && b.Model() == R.Num(ml.data[n..], false, false);
      assert c.Model() == R.Num(mr.data[..n], false, false) && d.Model() == R.Num(mr.data[n..], false, false);
      r := Combine(a, b, c, d, n);
      M.KaratsubaUnfold(ml, mr, n, r.Model());
    }

    /** The products of multiply_'s Karatsuba step, ac = a * c, bd = b * d and
        abcd = (a + b) * (c + d) by operator*, and their recombination. */
    static method Combine(a: LN, b: LN, c: LN, d: LN, m: nat) returns (r: LN)
      requires a.Valid() && b.Valid() && c.Valid() && d.Valid()
      requires a.size == c.size == m && b.size == d.size && b.size <= m <= b.size + 1
      requires !a.negative && !a.nan && !b.negative && !b.nan
      requires !c.negative && !c.nan && !d.negative && !d.nan
      ensures fresh(r) && fresh(r.data) && r.Valid()
      ensures r.Model() == M.Recombine(M.Times(a.Model(), c.Model()), M.Times(b.Model(), d.Model()),
                                       M.Times(A.Plus(a.Model(), b.Model()), A.Plus(c.Model(), d.Model())), m)
      decreases a.size + b.size + SIZE_FOR_FAST + 1, 0
    {
      ghost var ma, mb, mc, md := a.Model(), b.Model(), c.Model(), d.Model();
      var ac := Times(a, c);
      var bd := Times(b, d);
      var ab := Plus(a, b);
      ghost var mab := ab.Model();
      M.SumSize(ma, mb, mab, m);
      var cd := Plus(c, d);
      ghost var mcd := cd.Model();
      M.SumSize(mc, md, mcd, m);
      var abcd := Times(ab, cd);
      r := Recombine(ac, bd, abcd, m);
    }

    /** The last line of multiply_: shift_left_(bd, 2m) + shift_left_(abcd - ac - bd, m) + ac. */
    static method Recombine(ac: LN, bd: LN, abcd: LN, m: nat) returns (r: LN)
      requires ac.Valid() && bd.Valid() && abcd.Valid()
      ensures fresh(r) && fresh(r.data) && r.Valid()
      ensures r.Model() == M.Recombine(ac.Model(), bd.Model(), abcd.Model(), m)
    {
      var high := ShiftLeft(bd, m + m);
      var middle := Middle(ac, bd, abcd, m);
      var sum := Plus(high, middle);
      r := Plus(sum, ac);
    }

    /** The middle term of multiply_'s last line: shift_left_(abcd - ac - bd, m). */
    static method Middle(ac: LN, bd: LN, abcd: LN, m: nat) returns (r: LN)
      requires ac.Valid() && bd.Valid() && abcd.Valid()
      ensures fresh(r) && fresh(r.data) && r.Valid()
      ensures r.Model() == M.ShiftLeft(A.Minus(A.Minus(abcd.Model(), ac.Model()), bd.Model()), m)
    {
      var t1 := Minus(abcd, ac);
      var t2 := Minus(t1, bd);
      r := ShiftLeft(t2, m);
    }

    /** operator*: NaN when either side is NaN; otherwise multiply_ on the
        magnitudes, negated when exactly one side carries the sign flag. */
    static method Times(lhs: LN, rhs: LN) returns (r: LN)
      requires lhs.Valid() && rhs.Valid()
      ensures fresh(r) && fresh(r.data) && r.Valid()
      ensures r.Model() == M.Times(lhs.Model(), rhs.Model())
      decreases lhs.size + rhs.size, 3
    {
      if lhs.nan || rhs.nan {
        r := CreateNaN();
      } else if lhs.negative && rhs.negative {
        var a := Abs(lhs);
        var b := Abs(rhs);
        r := Multiply(a, b);
      } else if lhs.negative || rhs.negative {
        var a := Abs(lhs);
        var b := Abs(rhs);
        var p := Multiply(a, b);
        r := p.Negate();
      } else {
        r := Multiply(lhs, rhs);
      }
    }

    /** divide_'s inner loop: remainder -= multiple while remainder >= multiple,
        counting the subtractions in a uint8_t; this is LongDivision.Count from
        the remainder with the counter at 0. */
    static method TakeDigit(rem: LN, multiple: LN, ghost n: nat) returns (r: LN, digit: Byte)
      requires rem.Valid() && multiple.Valid() && rem.size <= n
      requires !rem.negative && !rem.nan && !multiple.negative && !multiple.nan
      requires Val(multiple.Model().data) > 0
      ensures r.Valid() && (r == rem || (fresh(r) && fresh(r.data)))
      ensures (r.Model(), digit) == D.Count(rem.Model(), multiple.Model(), 0, n)
    {
      ghost var mm := multiple.Model();
      r := rem;
      digit := 0;
      var more := r.GreaterEq(multiple);
      while more
        invariant r.Valid() && (r == rem || (fresh(r) && fresh(r.data)))
        invariant !r.negative && !r.nan && r.size <= n
        invariant D.Count(r.Model(), mm, digit, n) == D.Count(rem.Model(), mm, 0, n)
        invariant more == C.GreaterEq(r.Model(), mm)
        decreases D.Progress(r.Model(), n)
      {
        D.SubtractStep(r.Model(), mm, n);
        r := Minus(r, multiple);
        digit := (digit + 1) % 256;
        more := r.GreaterEq(multiple);
      }
    }

    /** The multiple of divide_'s outer loop, for remainder >= divisor: shift =
        |remainder| - |divisor| and multiple = shift_left_(divisor, shift), with
        shift one less when remainder < multiple; the shift is LongDivision.Shift. */
    static method Multiple(rem: LN, divisor: LN) returns (shift: nat, multiple: LN)
      requires rem.Valid() && divisor.Valid()
      requires !rem.negative && !rem.nan && !divisor.negative && !divisor.nan
      requires C.GreaterEq(rem.Model(), divisor.Model())
      ensures fresh(multiple) && fresh(multiple.data) && multiple.Valid()
      ensures shift == D.Shift(rem.Model(), divisor.Model())
      ensures multiple.Model() == M.ShiftLeft(divisor.Model(), shift)
    {
      D.ChooseShift(rem.Model(), divisor.Model());
      shift := rem.size - divisor.size;
      multiple := ShiftLeft(divisor, shift);
      var less := rem.Less(multiple);
      if less {
        shift := shift - 1;
        multiple := ShiftLeft(divisor, shift);
      }
    }

    /** One pass of divide_'s outer loop: the multiple, and the inner loop's count
        written into the quotient at its shift; this is LongDivision.Step. */
    static method DivideStep(q: array<Byte>, rem: LN, divisor: LN, ghost n: nat) returns (r: LN)
      requires rem.Valid() && divisor.Valid() && q != rem.data && q != divisor.data
      requires !rem.negative && !rem.nan && !divisor.negative && !divisor.nan
      requires Val(divisor.Model().data) > 0 && C.GreaterEq(rem.Model(), divisor.Model())
      requires rem.size <= n && q.Length == n - divisor.size + 1
      modifies q
      ensures r.Valid() && (r == rem || (fresh(r) && fresh(r.data)))
      ensures (q[..], r.Model()) == D.Step(old(q[..]), rem.Model(), divisor.Model(), n)
    {
      var shift, multiple := Multiple(rem, divisor);
      D.ShiftedPositive(divisor.Model(), shift);
      var digit;
      r, digit := TakeDigit(rem, multiple, n);
      q[shift] := digit;
    }

    /** divide_'s outer loop over the quotient buffer q (|dividend| - |divisor| + 1
        zero bytes) and a remainder starting at the dividend: passes of DivideStep
        while remainder >= divisor; this is LongDivision.Loop. */
    static method DivideLoop(q: array<Byte>, rem0: LN, divisor: LN, ghost x: R.Num, ghost dm: R.Num) returns (rem: LN)
      requires rem0.Valid() && divisor.Valid() && q != rem0.data && q != divisor.data
      requires !rem0.negative && !rem0.nan && !divisor.negative && !divisor.nan
      requires Val(divisor.Model().data) > 0 && divisor.size <= rem0.size
      requires rem0.Model() == x && divisor.Model() == dm
      requires q.Length == rem0.size - divisor.size + 1 && forall k :: 0 <= k < q.Length ==> q[k] == 0
      modifies q
      ensures rem.Valid() && (rem == rem0 || (fresh(rem) && fresh(rem.data)))
      ensures (q[..], rem.Model()) == D.Loop(Zeros(q.Length), x, dm, |x.data|)
    {
      ghost var n := rem0.size;
      assert q[..] == Zeros(q.Length);
      rem := rem0;
      var more := rem.GreaterEq(divisor);
      while more
        invariant rem.Valid() && (rem == rem0 || (fresh(rem) && fresh(rem.data)))
        invariant !rem.negative && !rem.nan && rem.size <= n
        invariant more == C.GreaterEq(rem.Model(), dm)
        invariant D.Loop(q[..], rem.Model(), dm, n) == D.Loop(Zeros(q.Length), x, dm, n)
        decreases D.Progress(rem.Model(), n)
      {
        D.StepProgress(q[..], rem.Model(), dm, n);
        rem := DivideStep(q, rem, divisor, n);
        more := rem.GreaterEq(divisor);
      }
    }

    /** divide_: (NaN, NaN) for a zero divisor, (0, a copy of the dividend) for a
        dividend with fewer stored bytes, otherwise DivideLong: Division.Divide on
        every pair of magnitudes. */
    static method Divide(dividend: LN, divisor: LN) returns (quotient: LN, remainder: LN)
      requires dividend.Valid() && divisor.Valid()
      requires !dividend.negative && !dividend.nan && !divisor.negative && !divisor.nan
      ensures fresh(quotient) && fresh(quotient.data) && quotient.Valid()
      ensures fresh(remainder) && fresh(remainder.data) && remainder.Valid()
      ensures (quotient.Model(), remainder.Model()) == Q.Divide(dividend.Model(), divisor.Model())
      ensures !R.IsZero(divisor.Model()) ==>
        !quotient.negative && !quotient.nan && !remainder.negative && !remainder.nan
      ensures !R.IsZero(divisor.Model()) ==> Tidy(quotient.Model().data)
    {
      ghost var x, y := dividend.Model(), divisor.Model();
      Q.DivideValue(x, y);
      var z := divisor.IsZero();
      if z {
        quotient := CreateNaN();
        remainder := CreateNaN();
        return;
      }
      R.IsZeroValue(divisor.Model());
      if dividend.size < divisor.size {
        quotient := CreateZero();
        remainder := new LN.Copy(dividend);
        return;
      }
      quotient, remainder := DivideLong(dividend, divisor, x, y);
      assert dividend.Model() == x && divisor.Model() == y;
    }

    /** The last branch of divide_, on the magnitudes x and y: the loops of
        DivideLoops, then remove_zeros_ on both results, which is Division.Divide. */
    static method DivideLong(dividend: LN, divisor: LN, ghost x: R.Num, ghost y: R.Num) returns (quotient: LN, remainder: LN)
      requires dividend.Valid() && divisor.Valid() && dividend.Model() == x && divisor.Model() == y
      requires !x.negative && !x.nan && !y.negative && !y.nan
      requires Val(y.data) > 0 && |y.data| <= |x.data|
      ensures fresh(quotient) && fresh(quotient.data) && quotient.Valid()
      ensures fresh(remainder) && fresh(remainder.data) && remainder.Valid()
      ensures (quotient.Model(), remainder.Model()) == Q.Divide(x, y)
    {
      R.IsZeroValue(y);
      quotient, remainder := DivideLoops(dividend, divisor, x, y);
      ghost var rm := remainder.Model();
      quotient.RemoveZeros();
      ghost var qm := quotient.Model();
      remainder.RemoveZeros();
      assert quotient.Model() == qm;
    }

    /** divide_'s loops on a fresh zero-filled quotient of |dividend| - |divisor| + 1
        bytes and a copy of the dividend, before remove_zeros_: LongDivision.Loop. */
    static method DivideLoops(dividend: LN, divisor: LN, ghost x: R.Num, ghost y: R.Num) returns (quotient: LN, remainder: LN)
      requires dividend.Valid() && divisor.Valid() && dividend.Model() == x && divisor.Model() == y
      requires !x.negative && !x.nan && !y.negative && !y.nan
      requires Val(y.data) > 0 && |y.data| <= |x.data|
      ensures fresh(quotient) && fresh(quotient.data) && quotient.Valid()
      ensures fresh(remainder) && fresh(remainder.data) && remainder.Valid()
      ensures quotient != remainder && quotient.data != remainder.data
      ensures var l := D.Loop(Zeros(|x.data| - |y.data| + 1), x, y, |x.data|);
        quotient.Model() == R.Num(l.0, false, false) && remainder.Model() == l.1
    {
      var k := dividend.size - divisor.size + 1;
      quotient := new LN();
      quotient.Alloc(k);
      var work := new LN.Copy(dividend);
      remainder := DivideLoop(quotient.data, work, divisor, x, y);
    }

    /** operator/: NaN when either side is NaN; otherwise the quotient of divide_ on
        the magnitudes, negated when exactly one side carries the sign flag. */
    static method Quotient(lhs: LN, rhs: LN) returns (r: LN)
      requires lhs.Valid() && rhs.Valid()
      ensures fresh(r) && fresh(r.data) && r.Valid()
      ensures r.Model() == Q.Quotient(lhs.Model(), rhs.Model())
      ensures !lhs.nan && !rhs.nan && !lhs.negative && !rhs.negative ==>
        r.nan || (!r.negative && Tidy(r.Model().data))
    {
      if lhs.nan || rhs.nan {
        r := CreateNaN();
        return;
      }
      var a := Abs(lhs);
      var b := Abs(rhs);
      var quotient, remainder := Divide(a, b);
      if lhs.negative != rhs.negative {
        r := quotient.Negate();
      } else {
        r := quotient;
      }
    }

    /** operator%: NaN when either side is NaN; otherwise the remainder of divide_
        on the magnitudes, negated when exactly one side carries the sign flag. */
    static method Remainder(lhs: LN, rhs: LN) returns (r: LN)
      requires lhs.Valid() && rhs.Valid()
      ensures fresh(r) && fresh(r.data) && r.Valid()
      ensures r.Model() == Q.Remainder(lhs.Model(), rhs.Model())
    {
      if lhs.nan || rhs.nan {
        r := CreateNaN();
        return;
      }
      var a := Abs(lhs);
      var b := Abs(rhs);
      var quotient, remainder := Divide(a, b);
      if lhs.negative != rhs.negative {
        r := remainder.Negate();
      } else {
        r := remainder;
      }
    }

    /** operator~: NaN for NaN or a set sign flag (negative zero included), zero for
        zero, otherwise Newton's iteration from x = a copy of n and y = (x + 1) / 2,
        x := y and y := (x + n / x) / 2 while y < x, built from operator+ and
        operator/: Newton.Sqrt. The result is always a non-negative number; for
        tidy digits it is the integer square root. */
    static method Sqrt(n: LN) returns (r: LN)
      requires n.Valid()
      ensures fresh(r) && fresh(r.data) && r.Valid()
      ensures r.Model() == N.Sqrt(n.Model())
      ensures n.negative || n.nan ==> r.Model() == R.NaN()
      ensures !n.negative && !n.nan && R.IsZero(n.Model()) ==> r.Model() == R.Zero()
      ensures !n.negative && !n.nan ==> !r.negative && !r.nan
      ensures !n.negative && !n.nan && Tidy(n.Model().data) ==>
        N.IsRoot(Val(n.Model().data), Val(r.Model().data))
    {
      N.SqrtValue(n.Model());
      if n.negative || n.nan {
        r := CreateNaN();
        return;
      }
      var z := n.IsZero();
      if z {
        r := CreateZero();
        return;
      }
      ghost var nm := n.Model();
      R.IsZeroValue(nm);
      N.SmallConstants();
      var one := new LN.FromInt(1);
      var two := new LN.FromInt(2);
      var x := new LN.Copy(n);
      var s := Plus(x, one);
      var y := Quotient(s, two);
      N.LoopEntry(nm, y.Model());
      r := NewtonLoop(n, x, y, two);
    }

    /** operator~'s loop: while y < x, x := y and y := (x + n / x) / 2; the result
        is the last x, Newton.SqrtLoop. */
    static method NewtonLoop(n: LN, x0: LN, y0: LN, two: LN) returns (r: LN)
      requires n.Valid() && x0.Valid() && y0.Valid() && two.Valid() && two.Model() == V.FromInt(2)
      requires !n.negative && !n.nan && !x0.negative && !x0.nan
      requires y0.nan || (!y0.negative && Tidy(y0.Model().data))
      ensures r.Valid() && (r == x0 || r == y0 || (fresh(r) && fresh(r.data)))
      ensures r.Model() == N.SqrtLoop(n.Model(), x0.Model(), y0.Model())
    {
      ghost var nm := n.Model();
      var x, y := x0, y0;
      var more := y.Less(x);
      while more
        invariant x.Valid() && (x == x0 || x == y0 || (fresh(x) && fresh(x.data)))
        invariant y.Valid() && (y == y0 || (fresh(y) && fresh(y.data)))
        invariant !x.negative && !x.nan && (y.nan || (!y.negative && Tidy(y.Model().data)))
        invariant more == C.Less(y.Model(), x.Model())
        invariant N.SqrtLoop(nm, x.Model(), y.Model()) == N.SqrtLoop(nm, x0.Model(), y0.Model())
        decreases x.size, Val(x.Model().data)
      {
        N.LoopTest(y.Model(), x.Model());
        x := y;
        y := NewtonStep(n, x, two);
        more := y.Less(x);
      }
      r := x;
    }

    /** The body of operator~'s loop: (x + n / x) / 2 with operator/ and operator+,
        Newton.NextGuess; NaN or a tidy non-negative number. */
    static method NewtonStep(n: LN, x: LN, two: LN) returns (y: LN)
      requires n.Valid() && x.Valid() && two.Valid() && two.Model() == V.FromInt(2)
      requires !n.negative && !n.nan && !x.negative && !x.nan
      ensures fresh(y) && fresh(y.data) && y.Valid()
      ensures y.Model() == N.NextGuess(n.Model(), x.Model())
      ensures y.nan || (!y.negative && Tidy(y.Model().data))
    {
      N.GuessShape(n.Model(), x.Model());
      var q := Quotient(n, x);
      var t := Plus(x, q);
      y := Quotient(t, two);
    }

    /** compare_: the sign flags, then the sizes, then the top-down scan whose
        result is inverted for two negatives. */
    static method Compare(lhs: LN, rhs: LN) returns (c: int)
      requires lhs.Valid() && rhs.Valid()
      ensures c == C.Compare(lhs.Model(), rhs.Model())
    {
      var ret := -1;
      if lhs.negative && !rhs.negative {
        return -1;
      }
      if !lhs.negative && rhs.negative {
        return 1;
      }
      if lhs.negative && rhs.negative {
        ret := 1;
      }
      if lhs.size < rhs.size {
        return -1;
      } else if lhs.size > rhs.size {
        return 1;
      }
      ghost var a := lhs.data[..lhs.size];
      ghost var b := rhs.data[..rhs.size];
      var i := lhs.size;
      while i > 0
        invariant 0 <= i <= lhs.size
        invariant C.CompareFrom(a, b, lhs.size, ret) == C.CompareFrom(a, b, i, ret)
      {
        var digitA := lhs.data[i - 1];
        var digitB := rhs.data[i - 1];
        if digitA < digitB {
          return ret;
        } else if digitA > digitB {
          return -ret;
        }
        i := i - 1;
      }
      return 0;
    }

    /** operator<: false with a NaN side, otherwise compare_ < 0. */
    method Less(other: LN) returns (b: bool)
      requires Valid() && other.Valid()
      ensures b == C.Less(Model(), other.Model())
    {
      if nan || other.nan {
        return false;
      }
      var c := Compare(this, other);
      return c < 0;
    }

    /** operator<=: false with a NaN side, otherwise compare_ <= 0. */
    method LessEq(other: LN) returns (b: bool)
      requires Valid() && other.Valid()
      ensures b == C.LessEq(Model(), other.Model())
    {
      if nan || other.nan {
        return false;
      }
      var c := Compare(this, other);
      return c <= 0;
    }

    /** operator>: false with a NaN side, otherwise compare_ > 0. */
    method Greater(other: LN) returns (b: bool)
      requires Valid() && other.Valid()
      ensures b == C.Greater(Model(), other.Model())
    {
      if nan || other.nan {
        return false;
      }
      var c := Compare(this, other);
      return c > 0;
    }

    /** operator>=: false with a NaN side, otherwise compare_ >= 0. */
    method GreaterEq(other: LN) returns (b: bool)
      requires Valid() && other.Valid()
      ensures b == C.GreaterEq(Model(), other.Model())
    {
      if nan || other.nan {
        return false;
      }
      var c := Compare(this, other);
      return c >= 0;
    }

    /** operator==: false with a NaN side, otherwise compare_ == 0. */
    method Equal(other: LN) returns (b: bool)
      requires Valid() && other.Valid()
      ensures b == C.Equal(Model(), other.Model())
    {
      if nan || other.nan {
        return false;
      }
      var c := Compare(this, other);
      return c == 0;
    }

    /** operator!=: false with a NaN side, otherwise compare_ != 0. */
    method NotEqual(other: LN) returns (b: bool)
      requires Valid() && other.Valid()
      ensures b == C.NotEqual(Model(), other.Model())
    {
      if nan || other.nan {
        return false;
      }
      var c := Compare(this, other);
      return c != 0;
    }

    /** operator bool: !is_zero(). */
    method ToBool() returns (b: bool)
      requires Valid()
      ensures b == V.ToBool(Model())
    {
      var z := IsZero();
      return !z;
    }

    /** operator long long: the two overflow_error cases, then the bytes assembled
        into a uint64_t (each byte shifted to bit 8i; the shifted bytes do not
        overlap, so the OR is a sum), negated modulo 2^64 for a set sign flag. */
    method ToInt64() returns (r: V.Result<int>)
      requires Valid()
      ensures r == V.ToInt64(Model())
    {
      if nan {
        return V.Failure(V.NAN_MESSAGE);
      }
      if size > V.INT64_BYTES {
        return V.Failure(V.TOO_LARGE_MESSAGE);
      }
      ghost var s := data[..size];
      var value: int := 0;
      for i := 0 to size
        invariant value == Val(s[..i])
      {
        ValPrefix(s, i);
        value := value + Pow(i) * data[i];
      }
      assert s[..size] == s;
      if negative {
        value := (-value) % V.UINT64_RANGE;
        V.Wrap64Mod(R.Value(Model()));
      }
      return V.Success(V.Wrap64(value));
    }

    /** print, returning the text it writes: "NaN\n", "0\n", or an optional '-',
        two hex digits per byte from the top (the top byte's zero high nibble left
        out), and a newline. */
    method Print() returns (out: string)
      requires Valid()
      ensures out == H.PrintText(Model())
    {
      if nan {
        return "NaN\n";
      }
      var z := IsZero();
      if z {
        return "0\n";
      }
      ghost var s := data[..size];
      ghost var sign: string := if negative then "-" else "";
      out := "";
      if negative {
        out := out + "-";
      }
      var i := size;
      while i > 0
        invariant 0 <= i <= size
        invariant i == size ==> out == sign
        invariant i < size ==> out + H.Nibbles(s[..i]) == sign + H.HexBody(s)
      {
        ghost var before := out;
        var high := H.ToHexChar(data[i - 1] / 16);
        var low := H.ToHexChar(data[i - 1] % 16);
        if !(i == size && data[i - 1] / 16 == 0) {
          out := out + [high];
        }
        out := out + [low];
        H.PrintStep(s, i, sign, before, high, low, out);
        i := i - 1;
      }
      assert s[..0] == [];
      out := out + "\n";
    }
  }
}
