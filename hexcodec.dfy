/** The hex text format: from_hex, to_hex_char, the token parser LN(string_view)
    and the text that print writes. */
module HexCodec {
  import opened Digits
  import opened Representation

  /** The sixteen characters print uses, in order of value. */
  const HEX_DIGITS: string := "0123456789ABCDEF"

  /** toupper in the "C" locale: only 'a'..'z' change. */
  function ToUpper(c: char): char
  {
    if 'a' <= c <= 'z' then (c as int - 32) as char else c
  }

  predicate IsHexDigit(c: char)
  {
    '0' <= c <= '9' || 'A' <= c <= 'F' || 'a' <= c <= 'f'
  }

  /** The value a hex digit stands for (the reference reading of a digit). */
  function DigitValue(c: char): nat
    requires IsHexDigit(c)
  {
    if '0' <= c <= '9' then c as int - '0' as int
    else if 'A' <= c <= 'F' then c as int - 'A' as int + 10
    else c as int - 'a' as int + 10
  }

  /** from_hex: a decimal digit gives its value, any other character ch gives
      toupper(ch) - 'A' + 10 truncated to a byte (no validation). */
  function FromHex(c: char): Byte
  {
    var u := ToUpper(c);
    if '0' <= u <= '9' then u as int - '0' as int
    else (u as int - 'A' as int + 10) % 256
  }

  /** to_hex_char: '0' + v below ten, otherwise 'A' + v - 10 as an 8-bit char. */
  function ToHexChar(v: Byte): char
  {
    if v <= 9 then ('0' as int + v) as char
    else (('A' as int + v - 10) % 256) as char
  }

  /** from_hex reads every hex digit, in either case, as its value. */
  lemma FromHexValue(c: char)
    requires IsHexDigit(c)
    ensures FromHex(c) == DigitValue(c) < 16
  {
  }

  /** to_hex_char writes a nibble as the upper-case digit of that value, and
      from_hex reads it back. */
  lemma HexCharRoundTrip(v: Byte)
    requires v < 16
    ensures ToHexChar(v) == HEX_DIGITS[v]
    ensures IsHexDigit(ToHexChar(v)) && DigitValue(ToHexChar(v)) == v
    ensures FromHex(ToHexChar(v)) == v
  {
  }

  /** The token without its leading '-' (if any). */
  function Unsigned(s: string): string
  {
    if |s| > 0 && s[0] == '-' then s[1..] else s
  }

  /** The digit part: the unsigned token without a leading "0x" or "0X". */
  function DigitPart(s: string): string
  {
    var t := Unsigned(s);
    if |t| >= 2 && t[0] == '0' && ToUpper(t[1]) == 'X' then t[2..] else t
  }

  /** What the parser demands: an empty token (read as zero), or at least
      one character left after the sign and the prefix are stripped. */
  predicate ParseableToken(s: string)
  {
    |s| == 0 || |DigitPart(s)| > 0
  }

  /** (high << 4) | low on the promoted int, stored into one byte. */
  function Combine(high: Byte, low: Byte): Byte
  {
    BitOr(high * 16, low) % 256
  }

  /** The bitwise OR of two naturals, bit by bit from the lowest. */
  function BitOr(a: nat, b: nat): nat
    decreases a + b
  {
    if a == 0 then b
    else if b == 0 then a
    else 2 * BitOr(a / 2, b / 2) + (if a % 2 == 1 || b % 2 == 1 then 1 else 0)
  }

  /** 2^k. */
  function Two(k: nat): nat
  {
    if k == 0 then 1 else 2 * Two(k - 1)
  }

  /** OR-ing bits below position k into a value shifted left by k adds them. */
  lemma {:induction false} BitOrShifted(h: nat, l: nat, k: nat)
    requires l < Two(k)
    ensures BitOr(h * Two(k), l) == h * Two(k) + l
    decreases k
  {
    if k > 0 && h * Two(k) != 0 && l != 0 {
      var a := h * Two(k);
      assert a == 2 * (h * Two(k - 1));
      BitOrShifted(h, l / 2, k - 1);
    }
  }

  /** The bytes LN(string_view) writes for a digit part d: (|d| + 1) / 2 bytes,
      byte k read from the two characters that end 2k characters before the end
      of d, except that an odd-length d gives its first character a byte of its own. */
  function ParseBytes(d: string): seq<Byte>
    requires |d| > 0
  {
    seq((|d| + 1) / 2, k requires 0 <= k < (|d| + 1) / 2 => ParsedAt(d, k))
  }

  /** Byte k of ParseBytes(d): i = n - 1 - k counts bytes from the top, and an
      odd-length d is read as if shifted one character to the left. */
  function ParsedAt(d: string, k: nat): Byte
    requires k < (|d| + 1) / 2
  {
    var n := (|d| + 1) / 2;
    var shift := |d| % 2;
    HalfLength(|d|);
    var i := n - 1 - k;
    if i == 0 && shift == 1 then FromHex(d[0])
    else Combine(FromHex(d[2 * i - shift]), FromHex(d[2 * i + 1 - shift]))
  }

  /** The top i bytes of b (all of it when i == |b|) are those of ParseBytes(d). */
  predicate ReadFromTop(d: string, b: seq<Byte>, i: nat)
    decreases i
  {
    && |d| > 0 && |b| == (|d| + 1) / 2 && i <= |b|
    && (i == 0 || (ReadFromTop(d, b, i - 1) && b[|b| - i] == ParsedAt(d, |b| - i)))
  }

  /** ReadFromTop only looks at the top i bytes. */
  lemma {:induction false} ReadFromTopFrame(d: string, b: seq<Byte>, b': seq<Byte>, i: nat)
    requires ReadFromTop(d, b, i) && |b'| == |b|
    requires forall j :: |b| - i <= j < |b| ==> b'[j] == b[j]
    ensures ReadFromTop(d, b', i)
    decreases i
  {
    if i > 0 {
      ReadFromTopFrame(d, b, b', i - 1);
    }
  }

  /** Each of the top i bytes is the one ParseBytes(d) has there. */
  lemma {:induction false} ReadFromTopAt(d: string, b: seq<Byte>, i: nat, j: nat)
    requires ReadFromTop(d, b, i) && |b| - i <= j < |b|
    ensures b[j] == ParsedAt(d, j)
    decreases i
  {
    if j > |b| - i {
      ReadFromTopAt(d, b, i - 1, j);
    }
  }

  /** The constructor's first write: the top byte is the lone first character of
      an odd-length d, and the first two characters otherwise. */
  lemma ParseTop(d: string, b: seq<Byte>, top: Byte)
    requires |d| > 0 && |b| == (|d| + 1) / 2
    requires |d| % 2 == 1 ==> top == FromHex(d[0])
    requires |d| % 2 == 0 ==> |d| >= 2 && top == Combine(FromHex(d[0]), FromHex(d[1]))
    requires b[|b| - 1] == top
    ensures ReadFromTop(d, b, 1)
  {
    HalfLength(|d|);
  }

  /** The constructor's loop step: the byte written at index n - 1 - i, for a top
      index i >= 1, combines characters i * 2 - shift and i * 2 + 1 - shift. */
  lemma ParseStep(d: string, b: seq<Byte>, i: nat, shift: nat, c: nat, byte: Byte, b': seq<Byte>)
    requires shift == |d| % 2 && 1 <= i < (|d| + 1) / 2
    requires ReadFromTop(d, b, i)
    requires c == i * 2 - shift && c + 1 < |d|
    requires byte == Combine(FromHex(d[c]), FromHex(d[c + 1]))
    requires b' == b[|b| - 1 - i := byte]
    ensures ReadFromTop(d, b', i + 1)
  {
    HalfLength(|d|);
    ReadFromTopFrame(d, b, b', i);
  }

  /** The constructor's character indices are in range: i * 2 + 1 - shift < |d|. */
  lemma PairInRange(d: string, i: nat, shift: nat)
    requires shift == |d| % 2 && 1 <= i < (|d| + 1) / 2
    ensures 0 <= i * 2 - shift && i * 2 + 1 - shift < |d|
  {
    HalfLength(|d|);
  }

  /** Bytes read from the top all the way down are ParseBytes. */
  lemma ParseBytesFrom(d: string, b: seq<Byte>)
    requires ReadFromTop(d, b, |b|)
    ensures b == ParseBytes(d)
  {
    forall j | 0 <= j < |b|
      ensures b[j] == ParsedAt(d, j)
    {
      ReadFromTopAt(d, b, |b|, j);
    }
  }

  lemma HalfLength(len: nat)
    ensures len % 2 <= 1 && len == 2 * ((len + 1) / 2) - len % 2
  {
  }

  /** LN(string_view): the empty token is zero; otherwise the sign flag records
      a leading '-' and the digits are read without any trimming. */
  function Parse(s: string): Num
    requires ParseableToken(s)
  {
    if |s| == 0 then Zero()
    else Num(ParseBytes(DigitPart(s)), s[0] == '-', false)
  }

  /** The big-endian value of a string of hex digits. */
  function HexValue(d: string): nat
    requires forall i :: 0 <= i < |d| ==> IsHexDigit(d[i])
  {
    if |d| == 0 then 0 else 16 * HexValue(d[..|d| - 1]) + DigitValue(d[|d| - 1])
  }

  predicate AllHex(d: string)
  {
    forall i :: 0 <= i < |d| ==> IsHexDigit(d[i])
  }

  /** Combine of two nibbles is the two-digit byte they spell. */
  lemma CombineNibbles(high: Byte, low: Byte)
    requires high < 16 && low < 16
    ensures Combine(high, low) == 16 * high + low
  {
    assert Two(4) == 16;
    BitOrShifted(high, low, 4);
  }

  /** Reading more than two digits: the last two make the lowest byte, and the
      rest is read as a shorter digit part. */
  lemma ParseBytesLastPair(d: string)
    requires |d| >= 3
    ensures ParseBytes(d) ==
      [Combine(FromHex(d[|d| - 2]), FromHex(d[|d| - 1]))] + ParseBytes(d[..|d| - 2])
  {
    var e := d[..|d| - 2];
    var n := (|d| + 1) / 2;
    var lhs := ParseBytes(d);
    var rhs := [Combine(FromHex(d[|d| - 2]), FromHex(d[|d| - 1]))] + ParseBytes(e);
    assert (|e| + 1) / 2 == n - 1;
    assert |lhs| == |rhs| == n;
    forall k | 0 <= k < n
      ensures lhs[k] == rhs[k]
    {
      if k == 0 {
        ParsedAtBottom(d);
      } else {
        ParsedAtPrefix(d, k);
        assert rhs[k] == ParseBytes(e)[k - 1];
      }
    }
  }

  lemma ParsedAtBottom(d: string)
    requires |d| >= 3
    ensures ParsedAt(d, 0) == Combine(FromHex(d[|d| - 2]), FromHex(d[|d| - 1]))
  {
    HalfLength(|d|);
  }

  lemma ParsedAtPrefix(d: string, k: nat)
    requires |d| >= 3 && 1 <= k < (|d| + 1) / 2
    ensures ParsedAt(d, k) == ParsedAt(d[..|d| - 2], k - 1)
  {
    var e := d[..|d| - 2];
    HalfLength(|d|);
    HalfLength(|e|);
    assert |e| % 2 == |d| % 2 && (|e| + 1) / 2 == (|d| + 1) / 2 - 1;
    var i := (|d| + 1) / 2 - 1 - k;
    var shift := |d| % 2;
    if i == 0 && shift == 1 {
      assert e[0] == d[0];
    } else {
      assert e[2 * i - shift] == d[2 * i - shift] && e[2 * i + 1 - shift] == d[2 * i + 1 - shift];
    }
  }

  /** The hex value of a digit string ending in two digits c1 c2. */
  lemma HexValueLastPair(d: string)
    requires |d| >= 2 && AllHex(d)
    ensures HexValue(d) == 256 * HexValue(d[..|d| - 2])
                           + 16 * DigitValue(d[|d| - 2]) + DigitValue(d[|d| - 1])
  {
    var e := d[..|d| - 1];
    assert e[..|e| - 1] == d[..|d| - 2];
  }

  /** The bytes of a digit part of hex digits have its hex value. */
  lemma {:induction false} ParseBytesValue(d: string)
    requires |d| > 0 && AllHex(d)
    ensures Val(ParseBytes(d)) == HexValue(d)
    decreases |d|
  {
    if |d| <= 2 {
      ParseShort(d);
    } else {
      var e := d[..|d| - 2];
      var low := Combine(FromHex(d[|d| - 2]), FromHex(d[|d| - 1]));
      assert low == 16 * DigitValue(d[|d| - 2]) + DigitValue(d[|d| - 1]) by {
        FromHexValue(d[|d| - 2]);
        FromHexValue(d[|d| - 1]);
        CombineNibbles(FromHex(d[|d| - 2]), FromHex(d[|d| - 1]));
      }
      ParseBytesLastPair(d);
      ParseBytesValue(e);
      ValCons(low, ParseBytes(e));
      HexValueLastPair(d);
    }
  }

  /** One or two hex digits make one byte with their hex value. */
  lemma ParseShort(d: string)
    requires 0 < |d| <= 2 && AllHex(d)
    ensures Val(ParseBytes(d)) == HexValue(d)
  {
    var r := ParseBytes(d);
    assert |r| == 1;
    assert [r[0]] == r;
    ValCons(r[0], []);
    FromHexValue(d[0]);
    if |d| == 1 {
      assert d[..0] == [];
    } else {
      FromHexValue(d[1]);
      CombineNibbles(FromHex(d[0]), FromHex(d[1]));
      HexValueLastPair(d);
      assert d[..0] == [];
    }
  }

  /** LN(string_view) on a token with an optional '-', an optional "0x" or "0X"
      and k >= 1 hex digits: (k + 1) / 2 bytes, untrimmed, holding the hex value
      of the digits, the sign flag set iff the token starts with '-', not NaN. */
  lemma ParseProperties(s: string)
    requires |DigitPart(s)| > 0 && AllHex(DigitPart(s))
    ensures ParseableToken(s)
    ensures var r := Parse(s);
      && |r.data| == (|DigitPart(s)| + 1) / 2
      && r.negative == (s[0] == '-')
      && !r.nan
      && Val(r.data) == HexValue(DigitPart(s))
  {
    ParseBytesValue(DigitPart(s));
  }

  /** The two characters print writes for every byte, most significant byte first:
      the high nibble (byte >> 4), then the low nibble (byte & 0xf). */
  function Nibbles(s: seq<Byte>): (t: string)
    ensures |t| == 2 * |s|
  {
    if |s| == 0 then ""
    else
      var top := s[|s| - 1];
      [ToHexChar(top / 16), ToHexChar(top % 16)] + Nibbles(s[..|s| - 1])
  }

  /** The digits print writes for a non-empty magnitude: the top byte's high
      nibble is left out when it is zero. */
  function HexBody(s: seq<Byte>): string
    requires |s| > 0
  {
    if s[|s| - 1] / 16 == 0 then Nibbles(s)[1..] else Nibbles(s)
  }

  /** The nibbles of the lowest i bytes: those of byte i - 1, then the lower ones. */
  lemma NibblesPrefix(s: seq<Byte>, i: nat)
    requires 0 < i <= |s|
    ensures Nibbles(s[..i]) ==
      [ToHexChar(s[i - 1] / 16), ToHexChar(s[i - 1] % 16)] + Nibbles(s[..i - 1])
  {
    assert s[..i][..i - 1] == s[..i - 1];
  }

  /** print's digits start with the top byte: its low nibble alone when the high
      one is zero, otherwise both. */
  lemma HexBodyTop(s: seq<Byte>)
    requires |s| > 0
    ensures var b := s[|s| - 1];
      HexBody(s) == (if b / 16 == 0 then [ToHexChar(b % 16)]
                     else [ToHexChar(b / 16), ToHexChar(b % 16)]) + Nibbles(s[..|s| - 1])
  {
  }

  /** One pass of print's loop, for byte i - 1: what was written before, followed
      by the digits still to come, is the whole body. */
  lemma PrintStep(s: seq<Byte>, i: nat, sign: string, before: string, high: char, low: char, out: string)
    requires 0 < i <= |s|
    requires i == |s| ==> before == sign
    requires i < |s| ==> before + Nibbles(s[..i]) == sign + HexBody(s)
    requires high == ToHexChar(s[i - 1] / 16) && low == ToHexChar(s[i - 1] % 16)
    requires i == |s| && s[i - 1] / 16 == 0 ==> out == before + [low]
    requires !(i == |s| && s[i - 1] / 16 == 0) ==> out == before + [high] + [low]
    ensures out + Nibbles(s[..i - 1]) == sign + HexBody(s)
  {
    if i == |s| {
      PrintTop(s, sign, high, low, out);
    } else {
      PrintLower(s, i, before, high, low, out, sign + HexBody(s));
    }
  }

  /** A later pass of print's loop, for byte i - 1 below the top: both of its
      nibbles are written. */
  lemma PrintLower(s: seq<Byte>, i: nat, before: string, high: char, low: char, out: string, whole: string)
    requires 0 < i <= |s| && before + Nibbles(s[..i]) == whole
    requires high == ToHexChar(s[i - 1] / 16) && low == ToHexChar(s[i - 1] % 16)
    requires out == before + [high] + [low]
    ensures out + Nibbles(s[..i - 1]) == whole
  {
    var rest := Nibbles(s[..i - 1]);
    NibblesPrefix(s, i);
    assert out + rest == before + ([high, low] + rest);
  }

  /** The first pass of print's loop, for the top byte. */
  lemma PrintTop(s: seq<Byte>, sign: string, high: char, low: char, out: string)
    requires |s| > 0
    requires high == ToHexChar(s[|s| - 1] / 16) && low == ToHexChar(s[|s| - 1] % 16)
    requires s[|s| - 1] / 16 == 0 ==> out == sign + [low]
    requires s[|s| - 1] / 16 != 0 ==> out == sign + [high] + [low]
    ensures out + Nibbles(s[..|s| - 1]) == sign + HexBody(s)
  {
    var rest := Nibbles(s[..|s| - 1]);
    HexBodyTop(s);
    if s[|s| - 1] / 16 == 0 {
      assert out + rest == sign + ([low] + rest);
    } else {
      assert out + rest == sign + ([high, low] + rest);
    }
  }

  /** The text print writes: "NaN\n", "0\n" for zero, otherwise an optional '-',
      the hex digits and a newline. */
  function PrintText(x: Num): string
  {
    if x.nan then "NaN\n"
    else if IsZero(x) then "0\n"
    else (if x.negative then "-" else "") + HexBody(x.data) + "\n"
  }

  /** What print writes: upper-case hex digits with no leading zero for a
      normalised magnitude, their hex value being the magnitude. */
  lemma PrintDigits(x: Num)
    requires !x.nan && !IsZero(x)
    ensures var t := HexBody(x.data);
      && |t| > 0 && AllHex(t)
      && (forall i :: 0 <= i < |t| ==> '0' <= t[i] <= '9' || 'A' <= t[i] <= 'F')
      && (Normalised(x.data) ==> t[0] != '0')
      && PrintText(x) == (if x.negative then "-" else "") + t + "\n"
  {
    var s := x.data;
    var t := HexBody(s);
    forall j | 0 <= j < 2 * |s|
      ensures '0' <= Nibbles(s)[j] <= '9' || 'A' <= Nibbles(s)[j] <= 'F'
    {
      NibbleUpper(s, j);
    }
    if Normalised(x.data) {
      var b := s[|s| - 1];
      NibbleAt(s, 0);
      HexCharRoundTrip(b / 16);
      HexCharRoundTrip(b % 16);
    }
  }

  /** Every character of Nibbles is an upper-case hex digit. */
  lemma NibbleUpper(s: seq<Byte>, j: nat)
    requires j < 2 * |s|
    ensures '0' <= Nibbles(s)[j] <= '9' || 'A' <= Nibbles(s)[j] <= 'F'
  {
    var i := j / 2;
    assert j == 2 * i || j == 2 * i + 1;
    var b := s[|s| - 1 - i];
    NibbleAt(s, i);
    if j == 2 * i {
      HexCharUpper(b / 16);
    } else {
      HexCharUpper(b % 16);
    }
  }

  /** to_hex_char writes a nibble as a digit or an upper-case letter. */
  lemma HexCharUpper(v: Byte)
    requires v < 16
    ensures '0' <= ToHexChar(v) <= '9' || 'A' <= ToHexChar(v) <= 'F'
  {
  }

  /** Parsing what print writes for a normalised non-NaN value (newline dropped)
      gives back the same bytes and sign; zero prints as "0", which parses to zero. */
  lemma PrintParseRoundTrip(x: Num)
    requires !x.nan && Normalised(x.data)
    ensures var t := PrintText(x);
      && |t| > 0 && t[|t| - 1] == '\n'
      && ParseableToken(t[..|t| - 1])
      && Parse(t[..|t| - 1]) == (if IsZero(x) then Zero() else x)
  {
    var text := PrintText(x);
    if IsZero(x) {
      assert text[..|text| - 1] == "0";
      var zero := ParseBytes("0");
      assert |zero| == 1 && zero[0] == FromHex('0') == 0;
      assert zero == [0];
    } else {
      var s := x.data;
      var body := HexBody(s);
      PrintDigits(x);
      var sign: string := if x.negative then "-" else "";
      assert text == sign + body + "\n";
      var token := text[..|text| - 1];
      assert token == sign + body;
      assert Unsigned(token) == body;
      assert DigitPart(token) == body;
      HexBodyParses(s);
    }
  }

  /** The bytes recovered from print's digits are the bytes printed. */
  lemma HexBodyParses(s: seq<Byte>)
    requires Normalised(s) && |s| > 0
    ensures ParseBytes(HexBody(s)) == s
  {
    var d := HexBody(s);
    var odd := s[|s| - 1] / 16 == 0;
    var shift := if odd then 1 else 0;
    assert |d| == 2 * |s| - shift;
    HalfLength(|d|);
    assert (|d| + 1) / 2 == |s| && |d| % 2 == shift;
    var r := ParseBytes(d);
    forall k | 0 <= k < |s|
      ensures r[k] == s[k]
    {
      ParsedByte(s, k);
    }
  }

  /** Byte k of print's digits, read back. */
  lemma ParsedByte(s: seq<Byte>, k: nat)
    requires Normalised(s) && k < |s|
    ensures |ParseBytes(HexBody(s))| == |s| && ParseBytes(HexBody(s))[k] == s[k]
  {
    var shift := if s[|s| - 1] / 16 == 0 then 1 else 0;
    var d := HexBody(s);
    BodyChars(s, d, k, |s| - 1 - k, shift);
    PairReadBack(d, k, |s| - 1 - k, shift, s[k]);
  }

  /** The two characters that hold byte i places below the top of a digit part,
      read as ParsedAt reads them, spell the byte b. */
  predicate NibblesAt(d: string, i: nat, shift: nat, b: Byte)
  {
    if i == 0 && shift == 1 then b / 16 == 0 && |d| > 0 && d[0] == ToHexChar(b % 16)
    else 2 * i >= shift && 2 * i + 1 - shift < |d| &&
         d[2 * i - shift] == ToHexChar(b / 16) && d[2 * i + 1 - shift] == ToHexChar(b % 16)
  }

  /** Where print puts the two nibbles of byte k: for an odd-length body the top
      byte has only its low nibble, at the front. */
  lemma BodyChars(s: seq<Byte>, d: string, k: nat, i: nat, shift: nat)
    requires Normalised(s) && k < |s| && d == HexBody(s) && i == |s| - 1 - k
    requires shift == if s[|s| - 1] / 16 == 0 then 1 else 0
    ensures (|d| + 1) / 2 == |s| && |d| % 2 == shift
    ensures NibblesAt(d, i, shift, s[k])
  {
    var nib := Nibbles(s);
    assert d == nib[shift..];
    assert |d| == 2 * |s| - shift;
    HalfLength(|d|);
    NibbleAt(s, i);
    if !(i == 0 && shift == 1) {
      assert d[2 * i - shift] == nib[2 * i] && d[2 * i + 1 - shift] == nib[2 * i + 1];
    }
  }

  /** Reading byte k of a digit part whose characters there are the nibbles of b gives b. */
  lemma PairReadBack(d: string, k: nat, i: nat, shift: nat, b: Byte)
    requires k < (|d| + 1) / 2 && shift == |d| % 2 && i == (|d| + 1) / 2 - 1 - k
    requires NibblesAt(d, i, shift, b)
    ensures |ParseBytes(d)| == (|d| + 1) / 2 && ParseBytes(d)[k] == b
  {
    ByteNibbles(b);
    HalfLength(|d|);
  }

  /** A byte is the combination of its two nibbles, each printed and read back unchanged. */
  lemma ByteNibbles(b: Byte)
    ensures b / 16 < 16 && b % 16 < 16
    ensures FromHex(ToHexChar(b / 16)) == b / 16 && FromHex(ToHexChar(b % 16)) == b % 16
    ensures Combine(b / 16, b % 16) == b
    ensures b / 16 == 0 ==> b % 16 == b
  {
    HexCharRoundTrip(b / 16);
    HexCharRoundTrip(b % 16);
    CombineNibbles(b / 16, b % 16);
  }

  /** The two characters print writes for the byte i places below the top. */
  lemma {:induction false} NibbleAt(s: seq<Byte>, i: nat)
    requires i < |s|
    ensures Nibbles(s)[2 * i] == ToHexChar(s[|s| - 1 - i] / 16)
    ensures Nibbles(s)[2 * i + 1] == ToHexChar(s[|s| - 1 - i] % 16)
    decreases i
  {
    if i > 0 {
      var rest := s[..|s| - 1];
      NibbleAt(rest, i - 1);
      assert rest[|rest| - 1 - (i - 1)] == s[|s| - 1 - i];
    }
  }
}
