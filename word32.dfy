/** Unsigned 32-bit words (the UINT32 of fifo.h) and the bitwise AND that
    the queue uses to turn a counter into a slot index. Integers are
    unbounded in Dafny, so the wrap-around of C's unsigned arithmetic is
    written out here. */
module Word32 {

  const WORD: nat := 0x1_0000_0000

  /** A value of C type uint32_t. */
  type u32 = x: int | 0 <= x < 0x1_0000_0000

  /** a + k computed in uint32_t arithmetic (modulo 2^32). */
  function Add(a: u32, k: nat): (r: u32)
    ensures (r - a - k) % WORD == 0
  {
    (a + k) % WORD
  }

  /** The value a fetch-and-add of 1 leaves behind: the successor of a,
      with 2^32 - 1 wrapping round to 0. */
  function Inc(a: u32): (r: u32)
    ensures r == if a == WORD - 1 then 0 else a + 1
  {
    Add(a, 1)
  }

  /** The unsigned difference to - from, i.e. how many increments lead
      from `from` to `to`. */
  function Distance(from: u32, to: u32): (d: nat)
    ensures d < WORD && Add(from, d) == to
  {
    (to - from) % WORD
  }

  /** Distance is the only number of increments below 2^32 that leads from
      `from` to `to`. */
  lemma DistanceUnique(from: u32, to: u32, d: nat)
    requires d < WORD && Add(from, d) == to
    ensures Distance(from, to) == d
  {
    if from + d >= WORD {
      assert (from + d) % WORD == from + d - WORD;
    }
  }

  /** One more increment after j increments is j + 1 increments, as long as
      j + 1 stays inside one word. */
  lemma AddInc(a: u32, j: nat)
    requires j < WORD
    ensures Add(Inc(a), j) == Add(a, j + 1)
  {
  }

  function Pow2(k: nat): (p: nat)
    ensures p >= 1
  {
    if k == 0 then 1 else 2 * Pow2(k - 1)
  }

  /** C's `&` on unsigned integers, bit by bit from the least significant
      bit upwards. The result is no larger than either operand. */
  function BitAnd(a: nat, b: nat): (r: nat)
    ensures r <= a && r <= b
  {
    if a == 0 || b == 0 then 0
    else 2 * BitAnd(a / 2, b / 2) + (if a % 2 == 1 && b % 2 == 1 then 1 else 0)
  }

  lemma MulAtLeast(d: int, n: int)
    requires d > 0 && n >= 1
    ensures d * n >= d
  {
    assert d * n == d + d * (n - 1);
    if n > 1 { MulAtLeast(d, n - 1); }
  }

  /** The remainder is determined by any decomposition x == d * a + r with
      0 <= r < d. */
  lemma ModUnique(x: int, d: int, a: int, r: int)
    requires d > 0 && x == d * a + r && 0 <= r < d
    ensures x % d == r
  {
    var n := a - x / d;
    assert d * n == x % d - r by {
      assert x == d * (x / d) + x % d;
      assert d * a - d * (x / d) == d * n;
    }
    if n >= 1 { MulAtLeast(d, n); }
    else if n <= -1 { MulAtLeast(d, -n); }
  }

  /** Adding a multiple of d does not change the remainder modulo d. */
  lemma ModShift(x: int, d: int, m: int)
    requires d > 0
    ensures (x + d * m) % d == x % d
  {
    assert x + d * m == d * (x / d + m) + x % d by {
      assert x == d * (x / d) + x % d;
      assert d * (x / d + m) == d * (x / d) + d * m;
    }
    ModUnique(x + d * m, d, x / d + m, x % d);
  }

  lemma DivModSplit(x: nat, p: nat)
    requires p >= 1
    ensures 2 * ((x / 2) % p) + x % 2 == x % (2 * p)
  {
    var q := x / 2;
    var a := q / p;
    var b := q % p;
    assert q == p * a + b;
    assert x == 2 * q + x % 2;
    assert x == (2 * p) * a + (2 * b + x % 2) by {
      assert 2 * (p * a) == (2 * p) * a;
    }
    ModUnique(x, 2 * p, a, 2 * b + x % 2);
  }

  lemma OddHalf(p: nat)
    requires p >= 1
    ensures (2 * p - 1) % 2 == 1 && (2 * p - 1) / 2 == p - 1
  {
  }

  lemma BitAndOdd(x: nat, m: nat)
    requires x > 0 && m % 2 == 1
    ensures BitAnd(x, m) == 2 * BitAnd(x / 2, m / 2) + x % 2
  {
  }

  /** Masking with 2^k - 1 keeps the k low bits: it is the remainder
      modulo 2^k. */
  lemma {:induction false} BitAndLowMask(x: nat, k: nat)
    ensures BitAnd(x, Pow2(k) - 1) == x % Pow2(k)
  {
    if k == 0 {
      assert Pow2(k) == 1;
    } else if x == 0 {
      ModUnique(0, Pow2(k), 0, 0);
    } else {
      var p := Pow2(k - 1);
      assert Pow2(k) == 2 * p;
      OddHalf(p);
      BitAndOdd(x, 2 * p - 1);
      BitAndLowMask(x / 2, k - 1);
      DivModSplit(x, p);
    }
  }

  lemma Pow2Ten()
    ensures Pow2(10) == 1024
  {
    assert Pow2(2) == 4;
    assert Pow2(4) == 16;
    assert Pow2(6) == 64;
    assert Pow2(8) == 256;
  }
}
