/** textToColor (src/App.js:188-199): a 31-multiplier rolling hash over the
    UTF-16 code units of the text, whose three low bytes, low byte first,
    become a `#xxxxxx` colour.

    The accumulator `hash` is a JavaScript number and is never wrapped: only
    the operand `hash << 5` passes through ToInt32, so `hash` itself grows
    without bound. Its low 32 bits nonetheless follow the 32-bit recurrence
    `h' = 31 * h + c`, and those are the only bits the colour reads. */
module ColorHash {
  import opened JsNumbers
  import opened HexFormat

  /** A UTF-16 code unit, the value `charCodeAt` returns. */
  type CodeUnit = c: int | 0 <= c < 0x1_0000

  /** A JavaScript string: a sequence of UTF-16 code units. */
  type JsString = seq<CodeUnit>

  /** Texts shorter than this keep every intermediate value of the hash
      below 2^53, where double arithmetic is exact (see AccumulateExact). */
  const MaxExactLength: nat := 0x20_0000

  /** The most one loop iteration can add to the magnitude of `hash`. */
  const StepGrowth: nat := 0x8000_0000 + 0xFFFF

  /** One iteration of the hashing loop: `hash = c + ((hash << 5) - hash)`. */
  function Step(hash: int, c: CodeUnit): int {
    c + (ShiftLeft(hash, 5) - hash)
  }

  /** The value of `hash` once the loop has consumed all of `text`. */
  function Accumulate(text: JsString): int {
    if text == [] then 0 else Step(Accumulate(text[..|text| - 1]), text[|text| - 1])
  }

  /** The reference hash: `h' = 31 * h + c` in 32-bit unsigned arithmetic. */
  function Hash32(text: JsString): (r: nat)
    ensures r < TwoTo32
  {
    if text == [] then 0 else (31 * Hash32(text[..|text| - 1]) + text[|text| - 1]) % TwoTo32
  }

  /** Byte `i` of a 32-bit value: bits 8i to 8i+7. */
  function ByteOf(h: nat, i: nat): (b: nat)
    ensures b < 256
  {
    h / Pow2(8 * i) % 256
  }

  /** Adding a multiple of 2^32 does not change a value modulo 2^32. */
  lemma ModMultiple(x: int, k: int)
    ensures (x + TwoTo32 * k) % TwoTo32 == x % TwoTo32
  {
    var d, m := x / TwoTo32, x % TwoTo32;
    assert x + TwoTo32 * k == TwoTo32 * (d + k) + m;
  }

  /** One step, modulo 2^32, is the 32-bit recurrence step: `(hash << 5) - hash`
      is congruent to 31 * hash. */
  lemma StepCongruence(hash: int, c: CodeUnit)
    ensures Step(hash, c) % TwoTo32 == (31 * (hash % TwoTo32) + c) % TwoTo32
  {
    var s := ShiftLeft(hash, 5);
    Pow2Values();
    assert (s - hash * 32) % TwoTo32 == 0;
    var q := (s - hash * 32) / TwoTo32;
    assert s == hash * 32 + TwoTo32 * q;
    var d, m := hash / TwoTo32, hash % TwoTo32;
    assert hash == TwoTo32 * d + m;
    assert Step(hash, c) == 31 * m + c + TwoTo32 * (q + 31 * d);
    ModMultiple(31 * m + c, q + 31 * d);
  }

  /** The unwrapped accumulator agrees with the 32-bit hash in its low 32 bits. */
  lemma {:induction false} AccumulateMatchesHash32(text: JsString)
    ensures Accumulate(text) % TwoTo32 == Hash32(text)
  {
    if text != [] {
      var prefix := text[..|text| - 1];
      AccumulateMatchesHash32(prefix);
      StepCongruence(Accumulate(prefix), text[|text| - 1]);
    }
  }

  /** Each character moves `hash` by at most StepGrowth. */
  lemma {:induction false} AccumulateBound(text: JsString)
    ensures -|text| * StepGrowth <= Accumulate(text) <= |text| * StepGrowth
  {
    if text != [] {
      AccumulateBound(text[..|text| - 1]);
    }
  }

  /** For texts within MaxExactLength, every value the loop computes (the
      accumulator after each prefix and the difference `(hash << 5) - hash`)
      is an integer below 2^53 in magnitude, so the double arithmetic of the
      source loses nothing and unbounded integers model it exactly. */
  lemma AccumulateExact(text: JsString)
    requires |text| < MaxExactLength
    ensures forall k :: 0 <= k <= |text| ==> -MaxSafe < Accumulate(text[..k]) < MaxSafe
    ensures forall k :: 0 <= k < |text| ==>
      -MaxSafe < ShiftLeft(Accumulate(text[..k]), 5) - Accumulate(text[..k]) < MaxSafe
  {
    forall k | 0 <= k <= |text|
      ensures -(MaxSafe - TwoTo31) < Accumulate(text[..k]) < MaxSafe - TwoTo31
    {
      AccumulateBound(text[..k]);
    }
  }

  /** Byte `i` of the colour, `(hash >> (i * 8)) & 0xFF`. */
  function ColorByte(hash: int, i: nat): Byte {
    LowByte(ShiftRight(hash, i * 8))
  }

  /** The three bytes the formatting loop reads, in the order it appends them. */
  function ColorBytes(hash: int): seq<Byte> {
    [ColorByte(hash, 0), ColorByte(hash, 1), ColorByte(hash, 2)]
  }

  /** The colour string after `n` iterations of the formatting loop. */
  function ColorPrefix(hash: int, n: nat): string
    requires n <= 3
  {
    if n == 0 then "#" else ColorPrefix(hash, n - 1) + PadByte(ColorByte(hash, n - 1))
  }

  /** textToColor(text) as a value. */
  function ColorCode(text: JsString): string {
    ColorPrefix(Accumulate(text), 3)
  }

  /** Dropping the first element of a concatenation drops it from the left part. */
  lemma DropFirstOfAppend<T>(p: seq<T>, q: seq<T>)
    requires |p| >= 1
    ensures (p + q)[1..] == p[1..] + q
  {
  }

  /** After `n` iterations the colour is `#` followed by the hex pairs of the
      first `n` colour bytes. */
  lemma {:induction false} ColorPrefixPairs(hash: int, n: nat)
    requires n <= 3
    ensures |ColorPrefix(hash, n)| >= 1 && ColorPrefix(hash, n)[0] == '#'
    ensures ColorPrefix(hash, n)[1..] == HexPairs(ColorBytes(hash)[..n])
  {
    if n > 0 {
      ColorPrefixPairs(hash, n - 1);
      HexPairsSnoc(ColorBytes(hash), n);
      DropFirstOfAppend(ColorPrefix(hash, n - 1), PadByte(ColorByte(hash, n - 1)));
    }
  }

  lemma ColorByte0(hash: int)
    ensures ColorByte(hash, 0) == (hash % TwoTo32) % 256
  {
    Pow2Values();
  }

  lemma ColorByte1(hash: int)
    ensures ColorByte(hash, 1) == (hash % TwoTo32) / 256 % 256
  {
    Pow2Values();
    var m := hash % TwoTo32;
    if m >= TwoTo31 {
      assert (m - TwoTo32) / 256 == m / 256 - 256 * 0x1_0000;
    }
  }

  lemma ColorByte2(hash: int)
    ensures ColorByte(hash, 2) == (hash % TwoTo32) / 65536 % 256
  {
    Pow2Values();
    var m := hash % TwoTo32;
    if m >= TwoTo31 {
      assert (m - TwoTo32) / 65536 == m / 65536 - 256 * 0x100;
    }
  }

  /** Shifting right by at most 16 bits and keeping the low byte reads the
      bits of the value modulo 2^32: the sign bits that `>>` copies in land
      at bit 16 or above after the shift, never in bits 0-7. */
  lemma ColorByteIsHashByte(hash: int, i: nat)
    requires i < 3
    ensures ColorByte(hash, i) == ByteOf(hash % TwoTo32, i)
  {
    Pow2Values();
    if i == 0 {
      ColorByte0(hash);
    } else if i == 1 {
      ColorByte1(hash);
    } else {
      ColorByte2(hash);
    }
  }

  /** The colour of any text is `#` and six lower-case hex digits. */
  lemma ColorCodeFormat(text: JsString)
    ensures |ColorCode(text)| == 7 && ColorCode(text)[0] == '#'
    ensures IsLowerHex(ColorCode(text)[1..])
  {
    var bytes := ColorBytes(Accumulate(text));
    ColorPrefixPairs(Accumulate(text), 3);
    assert bytes[..3] == bytes;
    HexPairsIsHex(bytes);
  }

  /** The three digit pairs of the colour (characters 1-2, 3-4 and 5-6) read
      back as bytes 0, 1 and 2 of the 32-bit hash: low byte first. */
  lemma ColorCodeBytes(text: JsString)
    ensures ParseHexPairs(ColorCode(text)[1..]) ==
      [ByteOf(Hash32(text), 0), ByteOf(Hash32(text), 1), ByteOf(Hash32(text), 2)]
  {
    var hash := Accumulate(text);
    var bytes := ColorBytes(hash);
    ColorPrefixPairs(hash, 3);
    assert bytes[..3] == bytes;
    HexPairsRoundTrip(bytes);
    AccumulateMatchesHash32(text);
    ColorByteIsHashByte(hash, 0);
    ColorByteIsHashByte(hash, 1);
    ColorByteIsHashByte(hash, 2);
  }

  /** The empty text leaves `hash` at 0 and gives black. */
  lemma EmptyTextIsBlack()
    ensures ColorCode([]) == "#000000"
  {
    ColorByteIsHashByte(0, 0);
    ColorByteIsHashByte(0, 1);
    ColorByteIsHashByte(0, 2);
    assert ColorBytes(0) == [0, 0, 0];
    assert PadByte(0) == "00";
    assert HexPairs([0]) == "00";
    assert [0, 0][..1] == [0] && [0, 0, 0][..2] == [0, 0];
  }

  /** The hashing loop of textToColor. */
  method HashText(text: JsString) returns (hash: int)
    requires |text| < MaxExactLength
    ensures hash == Accumulate(text)
  {
    hash := 0;
    for i := 0 to |text|
      invariant hash == Accumulate(text[..i])
    {
      assert text[..i + 1][..i] == text[..i];
      hash := Step(hash, text[i]);
    }
    assert text[..|text|] == text;
  }

  /** textToColor: the hashing loop, then the formatting loop, which appends
      bytes 0, 1 and 2 of `hash` as hex pairs. */
  method TextToColor(text: JsString) returns (color: string)
    requires |text| < MaxExactLength
    ensures color == ColorCode(text)
  {
    var hash := HashText(text);
    color := "#";
    for i := 0 to 3
      invariant color == ColorPrefix(hash, i)
    {
      var value := LowByte(ShiftRight(hash, i * 8));
      color := color + PadByte(value);
    }
  }
}
