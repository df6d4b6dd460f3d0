/** Hexadecimal text as textToColor writes it: `value.toString(16)` for a
    non-negative integer (lower-case digits, no leading zeros) and the
    two-digit padding `('00' + s).substr(-2)`; plus the reading of hex text
    back into numbers, which the round-trip lemmas use. */
module HexFormat {

  predicate IsLowerHexDigit(c: char) {
    '0' <= c <= '9' || 'a' <= c <= 'f'
  }

  predicate IsLowerHex(s: string) {
    forall i :: 0 <= i < |s| ==> IsLowerHexDigit(s[i])
  }

  type Byte = b: int | 0 <= b < 256

  /** The digit `Number.prototype.toString(16)` writes for `d`. */
  function DigitChar(d: nat): (c: char)
    requires d < 16
    ensures IsLowerHexDigit(c)
    ensures d < 10 <==> c <= '9'
  {
    if d < 10 then ('0' as int + d) as char else ('a' as int + d - 10) as char
  }

  /** The value of a hex digit; any other character reads as 0. */
  function DigitValue(c: char): (d: nat)
    ensures d < 16
    ensures IsLowerHexDigit(c) ==> DigitChar(d) == c
  {
    if '0' <= c <= '9' then c as int - '0' as int
    else if 'a' <= c <= 'f' then c as int - 'a' as int + 10
    else 0
  }

  /** The number a string of hex digits denotes, most significant digit first. */
  function HexValue(s: string): nat {
    if s == [] then 0 else 16 * HexValue(s[..|s| - 1]) + DigitValue(s[|s| - 1])
  }

  /** `v.toString(16)` for a non-negative integer `v`. */
  function ToHexString(v: nat): (s: string)
    ensures |s| >= 1
    ensures s[0] == '0' ==> v == 0
    ensures v < 16 <==> |s| == 1
    ensures 16 <= v < 256 ==> |s| == 2
    decreases v
  {
    if v < 16 then [DigitChar(v)] else ToHexString(v / 16) + [DigitChar(v % 16)]
  }

  /** `toString(16)` writes only lower-case hex digits. */
  lemma {:induction false} ToHexStringIsHex(v: nat)
    ensures IsLowerHex(ToHexString(v))
    decreases v
  {
    if v >= 16 {
      ToHexStringIsHex(v / 16);
    }
  }

  /** `s.substr(-n)`: the last `n` elements of `s`, or all of `s` when it is shorter. */
  function SubstrFromEnd<T>(s: seq<T>, n: nat): (r: seq<T>)
    ensures |r| == if |s| < n then |s| else n
    ensures forall i :: 0 <= i < |r| ==> r[i] == s[|s| - |r| + i]
  {
    s[if |s| < n then 0 else |s| - n..]
  }

  /** `('00' + v.toString(16)).substr(-2)`: one byte as exactly two digits. */
  function PadByte(v: Byte): (s: string)
    ensures |s| == 2
  {
    SubstrFromEnd("00" + ToHexString(v), 2)
  }

  /** Reading back what `toString(16)` wrote gives the number. */
  lemma {:induction false} ToHexStringRoundTrip(v: nat)
    ensures HexValue(ToHexString(v)) == v
    decreases v
  {
    if v >= 16 {
      ToHexStringRoundTrip(v / 16);
      var s := ToHexString(v);
      assert s[..|s| - 1] == ToHexString(v / 16);
    }
  }

  /** What the padding keeps of a one- or two-digit string. */
  lemma PadShape(t: string)
    requires 1 <= |t| <= 2
    ensures SubstrFromEnd("00" + t, 2) == if |t| == 1 then ['0'] + t else t
  {
    var u := "00" + t;
    if |t| == 1 {
      assert u[|u| - 2..] == ['0'] + t;
    } else {
      assert u[|u| - 2..] == t;
    }
  }

  /** A padded byte is two lower-case hex digits. */
  lemma PadByteIsHex(v: Byte)
    ensures IsLowerHex(PadByte(v))
  {
    ToHexStringIsHex(v);
    PadShape(ToHexString(v));
  }

  /** Reading back a padded byte gives the byte. */
  lemma PadByteRoundTrip(v: Byte)
    ensures HexValue(PadByte(v)) == v
  {
    var s, t := PadByte(v), ToHexString(v);
    ToHexStringRoundTrip(v);
    PadShape(t);
    if v < 16 {
      assert s[..1] == ['0'] && s[..1][..0] == [];
    }
  }

  lemma HexValueOfPair(s: string)
    requires |s| == 2
    ensures HexValue(s) == 16 * DigitValue(s[0]) + DigitValue(s[1])
  {
    assert s[..1] == [s[0]] && s[..1][..0] == [];
    assert HexValue(s[..1]) == DigitValue(s[0]);
  }

  /** `toString(16)` of a byte of at least 16 is its two digits. */
  lemma ToHexStringOfPair(hi: nat, lo: nat)
    requires 1 <= hi < 16 && lo < 16
    ensures ToHexString(16 * hi + lo) == [DigitChar(hi), DigitChar(lo)]
  {
    var v := 16 * hi + lo;
    assert v / 16 == hi && v % 16 == lo;
    assert ToHexString(hi) == [DigitChar(hi)];
  }

  /** A pair whose first digit is `0` is the padding of a one-digit string. */
  lemma PadOfSmall(s: string)
    requires |s| == 2 && IsLowerHex(s) && s[0] == '0'
    ensures PadByte(DigitValue(s[1])) == s
  {
    var t := ToHexString(DigitValue(s[1]));
    PadShape(t);
    assert t == [s[1]];
  }

  /** A pair whose first digit is not `0` is exactly what `toString(16)` writes. */
  lemma PadOfLarge(s: string)
    requires |s| == 2 && IsLowerHex(s) && s[0] != '0'
    ensures 16 * DigitValue(s[0]) + DigitValue(s[1]) < 256
    ensures PadByte(16 * DigitValue(s[0]) + DigitValue(s[1])) == s
  {
    var hi, lo := DigitValue(s[0]), DigitValue(s[1]);
    assert IsLowerHexDigit(s[0]) && IsLowerHexDigit(s[1]);
    assert DigitChar(hi) == s[0] && DigitChar(lo) == s[1];
    assert DigitChar(0) == '0';
    ToHexStringOfPair(hi, lo);
    assert ToHexString(16 * hi + lo) == s;
    PadShape(s);
  }

  /** Every two-digit hex string is the padding of the byte it denotes, so
      PadByte is a bijection between 0..255 and those strings. */
  lemma ParsePadRoundTrip(s: string)
    requires |s| == 2 && IsLowerHex(s)
    ensures HexValue(s) < 256 && PadByte(HexValue(s)) == s
  {
    HexValueOfPair(s);
    if s[0] == '0' {
      PadOfSmall(s);
    } else {
      PadOfLarge(s);
    }
  }

  /** Bytes written one after the other as padded hex pairs, as the formatting
      loop of textToColor appends them. */
  function HexPairs(bytes: seq<Byte>): (s: string)
    ensures |s| == 2 * |bytes|
  {
    if bytes == [] then []
    else HexPairs(bytes[..|bytes| - 1]) + PadByte(bytes[|bytes| - 1])
  }

  /** Reading a string of hex pairs back into the numbers they spell (a
      single trailing digit is ignored). */
  function ParseHexPairs(s: string): (values: seq<nat>)
    ensures |values| == |s| / 2
  {
    if |s| < 2 then []
    else ParseHexPairs(s[..|s| - 2]) + [HexValue(s[|s| - 2..])]
  }

  /** One more byte appends one more pair. */
  lemma HexPairsSnoc(bytes: seq<Byte>, n: nat)
    requires 0 < n <= |bytes|
    ensures HexPairs(bytes[..n]) == HexPairs(bytes[..n - 1]) + PadByte(bytes[n - 1])
  {
    assert bytes[..n][..n - 1] == bytes[..n - 1];
  }

  /** Hex pairs are lower-case hex digits throughout. */
  lemma {:induction false} HexPairsIsHex(bytes: seq<Byte>)
    ensures IsLowerHex(HexPairs(bytes))
  {
    if bytes != [] {
      HexPairsIsHex(bytes[..|bytes| - 1]);
      PadByteIsHex(bytes[|bytes| - 1]);
    }
  }

  /** Parsing the pairs recovers exactly the bytes written. */
  lemma {:induction false} HexPairsRoundTrip(bytes: seq<Byte>)
    ensures ParseHexPairs(HexPairs(bytes)) == bytes
  {
    if bytes != [] {
      var init, last := bytes[..|bytes| - 1], bytes[|bytes| - 1];
      assert bytes == init + [last];
      var s := HexPairs(bytes);
      var front, pair := s[..|s| - 2], s[|s| - 2..];
      assert front == HexPairs(init) && pair == PadByte(last);
      assert ParseHexPairs(s) == ParseHexPairs(front) + [HexValue(pair)];
      HexPairsRoundTrip(init);
      PadByteRoundTrip(last);
    }
  }
}
