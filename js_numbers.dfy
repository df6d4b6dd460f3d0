/** The fragment of JavaScript number semantics that the colour hash relies on.
    JavaScript numbers are doubles. The values the hash computes are integers,
    and a double is exact for integers of magnitude below 2^53, so numbers are
    modelled as unbounded `int`s; the model is exact where values stay below
    2^53, which ColorHash.AccumulateExact establishes for texts under 2^21 code
    units. Only the 32-bit conversions of the bitwise operators
    (ToInt32 in section 7.1.5 of ECMAScript 2017, the 8th edition of ECMA-262,
    the shift operators of its section 12.9 and the binary bitwise operators
    of its section 12.12) are written out. */
module JsNumbers {

  const TwoTo31: int := 0x8000_0000
  const TwoTo32: int := 0x1_0000_0000

  /** 2^53: every integer of smaller magnitude is represented exactly by a double. */
  const MaxSafe: int := 0x20_0000_0000_0000

  predicate IsInt32(x: int) {
    -TwoTo31 <= x < TwoTo31
  }

  function Pow2(k: nat): (r: nat)
    ensures r > 0
  {
    if k == 0 then 1 else 2 * Pow2(k - 1)
  }

  /** The powers of two the colour hash shifts by. */
  lemma Pow2Values()
    ensures Pow2(0) == 1 && Pow2(5) == 32 && Pow2(8) == 256 && Pow2(16) == 65536
  {
    assert Pow2(1) == 2 && Pow2(2) == 4 && Pow2(3) == 8 && Pow2(4) == 16;
    assert Pow2(5) == 32 && Pow2(6) == 64 && Pow2(7) == 128 && Pow2(8) == 256;
    assert Pow2(9) == 512 && Pow2(10) == 1024 && Pow2(11) == 2048 && Pow2(12) == 4096;
    assert Pow2(13) == 8192 && Pow2(14) == 16384 && Pow2(15) == 32768;
  }

  /** ToInt32 of an integral number: the representative of `x` modulo 2^32
      in the signed 32-bit range. */
  function ToInt32(x: int): (r: int)
    ensures IsInt32(r)
    ensures (x - r) % TwoTo32 == 0
    ensures IsInt32(x) ==> r == x
  {
    var m := x % TwoTo32;
    if m < TwoTo31 then m else m - TwoTo32
  }

  /** Two numbers that agree modulo 2^32 still agree once both are scaled by `p`. */
  lemma ScaledCongruence(a: int, b: int, p: int)
    requires (a - b) % TwoTo32 == 0
    ensures (a * p - b * p) % TwoTo32 == 0
  {
    var q := (a - b) / TwoTo32;
    assert a - b == TwoTo32 * q;
    assert a * p - b * p == (a - b) * p;
    assert a * p - b * p == TwoTo32 * (q * p);
  }

  lemma CongruenceTransitive(a: int, b: int, c: int)
    requires (a - b) % TwoTo32 == 0 && (b - c) % TwoTo32 == 0
    ensures (a - c) % TwoTo32 == 0
  {
    var q1, q2 := (a - b) / TwoTo32, (b - c) / TwoTo32;
    assert a - c == TwoTo32 * (q1 + q2);
  }

  lemma {:induction false} MulAtLeast(p: int, n: nat)
    requires p >= 1
    ensures p * n >= n
  {
    if n > 0 {
      MulAtLeast(p, n - 1);
      assert p * n == p * (n - 1) + p;
    }
  }

  /** Floor division by a positive number moves a value towards zero without crossing it. */
  lemma DivTowardsZero(t: int, p: int)
    requires p >= 1
    ensures t >= 0 ==> 0 <= t / p <= t
    ensures t < 0 ==> t <= t / p < 0
  {
    var q, m := t / p, t % p;
    assert t == p * q + m && 0 <= m < p;
    if q >= 0 {
      MulAtLeast(p, q);
    } else {
      MulAtLeast(p, -q - 1);
      assert p * q == -(p * (-q - 1)) - p;
    }
  }

  /** Floor division leaves its result times the divisor at most `t`, and one
      divisor short of exceeding it. */
  lemma FloorBounds(t: int, p: int)
    requires p >= 1
    ensures (t / p) * p <= t < (t / p + 1) * p
  {
    var q, m := t / p, t % p;
    assert t == p * q + m && 0 <= m < p;
    assert (q + 1) * p == q * p + p;
  }

  /** `x << k`: the left operand goes through ToInt32, the count is taken
      modulo 32, and the shifted value wraps around to a signed 32-bit integer. */
  function ShiftLeft(x: int, k: nat): (r: int)
    ensures IsInt32(r)
    ensures (r - x * Pow2(k % 32)) % TwoTo32 == 0
  {
    var p := Pow2(k % 32);
    var t := ToInt32(x);
    var r := ToInt32(t * p);
    ScaledCongruence(t, x, p);
    CongruenceTransitive(r, t * p, x * p);
    r
  }

  /** `x >> k`: the sign-propagating shift, the floor of ToInt32(x) / 2^(k mod 32). */
  function ShiftRight(x: int, k: nat): (r: int)
    ensures IsInt32(r)
    ensures ToInt32(x) >= 0 ==> r >= 0  // a corollary of the floor bounds below
    ensures r * Pow2(k % 32) <= ToInt32(x) < (r + 1) * Pow2(k % 32)
  {
    var p, t := Pow2(k % 32), ToInt32(x);
    DivTowardsZero(t, p);
    FloorBounds(t, p);
    t / p
  }

  /** `x & 0xFF`: the low byte of the two's-complement form of ToInt32(x). */
  function LowByte(x: int): (r: int)
    ensures 0 <= r < 256
    ensures r == x % 256
  {
    var t := ToInt32(x);
    var q := (x - t) / TwoTo32;
    assert x - t == TwoTo32 * q;
    var d, m := x / 256, x % 256;
    assert t == 256 * (d - 0x100_0000 * q) + m;
    t % 256
  }
}
