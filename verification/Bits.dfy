/** Bitwise "and" on natural numbers, powers of two, and the two idioms the
    queues rely on: masking by (size - 1), and the test x & (x - 1) == 0. */
module Bits {

  const TWO_32: int := 0x1_0000_0000
  const TWO_63: int := 0x8000_0000_0000_0000
  const TWO_64: int := 0x1_0000_0000_0000_0000

  function Bit(b: bool): nat { if b then 1 else 0 }

  /** Unsigned 32-bit arithmetic. */
  function U32(x: int): nat {
    x % TWO_32
  }

  /** Unsigned 64-bit arithmetic. */
  function U64(x: int): nat {
    x % TWO_64
  }

  type Byte = x: int | 0 <= x < 256

  function Pow2(k: nat): (r: nat)
    ensures r >= 1
  {
    if k == 0 then 1 else 2 * Pow2(k - 1)
  }

  function And(x: nat, y: nat): nat {
    if x == 0 || y == 0 then 0
    else 2 * And(x / 2, y / 2) + (if x % 2 == 1 && y % 2 == 1 then 1 else 0)
  }

  ghost predicate IsPow2(n: nat) {
    exists k: nat :: n == Pow2(k)
  }

  /** Masking with 2^k - 1 is the remainder modulo 2^k. */
  lemma {:induction false} MaskIsMod(x: nat, k: nat)
    ensures And(x, Pow2(k) - 1) == x % Pow2(k)
  {
    if k != 0 && x != 0 {
      var m := Pow2(k - 1);
      MaskIsMod(x / 2, k - 1);
      assert (2 * m - 1) / 2 == m - 1 && (2 * m - 1) % 2 == 1;
      HalveMod(x, m);
    }
  }

  lemma HalveMod(x: nat, m: nat)
    requires m >= 1
    ensures x % (2 * m) == 2 * ((x / 2) % m) + x % 2
  {
    var q, r := x / 2 / m, (x / 2) % m;
    assert x / 2 == m * q + r;
    assert 2 * (m * q) == (2 * m) * q;
    DivModUnique(x, 2 * m, q, 2 * r + x % 2);
  }

  /** The same for a size known to be a power of two. */
  lemma MaskBySize(x: nat, size: nat)
    requires IsPow2(size)
    ensures And(x, size - 1) == x % size
  {
    var k: nat :| size == Pow2(k);
    MaskIsMod(x, k);
  }

  lemma DivModUnique(x: int, d: nat, q: int, r: int)
    requires d > 0 && x == d * q + r && 0 <= r < d
    ensures x / d == q && x % d == r
  {
    var q', r' := x / d, x % d;
    MulDistributes(d, q, q');
    if q > q' {
      MulAtLeast(d, q - q');
    } else if q < q' {
      MulDistributes(d, q', q);
      MulAtLeast(d, q' - q);
    }
  }

  lemma MulDistributes(d: int, a: int, b: int)
    ensures d * (a - b) == d * a - d * b
  {
  }

  lemma MulAtLeast(d: nat, n: int)
    requires n >= 1
    ensures d * n >= d
  {
    assert d * n == d * (n - 1) + d;
  }

  /** x & (x - 1) == 0 accepts exactly zero and the powers of two. */
  lemma {:induction false} PowerOfTwoTest(n: nat)
    requires n >= 1
    ensures And(n, n - 1) == 0 <==> IsPow2(n)
  {
    if n == 1 {
      assert Pow2(0) == 1;
    } else if n % 2 == 0 {
      PowerOfTwoTest(n / 2);
      assert (n - 1) / 2 == n / 2 - 1;
      if IsPow2(n / 2) {
        var k: nat :| n / 2 == Pow2(k);
        assert n == Pow2(k + 1);
      }
      if IsPow2(n) {
        var k: nat :| n == Pow2(k);
        assert n / 2 == Pow2(k - 1);
      }
    } else {
      AndSelf(n / 2);
      assert (n - 1) / 2 == n / 2;
      assert forall k: nat :: Pow2(k) == 1 || Pow2(k) % 2 == 0;
    }
  }

  lemma {:induction false} AndSelf(n: nat)
    ensures And(n, n) == n
  {
    if n != 0 {
      AndSelf(n / 2);
    }
  }

  /** Two positions at most `size` apart share a slot exactly when they are
      equal or a whole turn apart. */
  lemma SlotClash(size: nat, p: nat, q: nat)
    requires size >= 1 && p <= q <= p + size
    ensures p % size == q % size <==> p == q || q == p + size
  {
    var r := p % size;
    assert p == size * (p / size) + r;
    if q < p + size - r {
      DivModUnique(q, size, p / size, q - p + r);
    } else {
      assert q == size * (p / size + 1) + (q - p + r - size);
      if q - p + r - size < size {
        DivModUnique(q, size, p / size + 1, q - p + r - size);
      }
    }
  }

  lemma SmallMod(x: nat, d: nat)
    requires x < d
    ensures x % d == x
  {
    DivModUnique(x, d, 0, x);
  }

  // ------------------------------------------------ powers of two and wrapping

  lemma {:induction false} Divides(k: nat, l: nat)
    requires k <= l
    ensures Pow2(l) % Pow2(k) == 0
    decreases l - k
  {
    if k == l {
      DivModUnique(Pow2(l), Pow2(k), 1, 0);
    } else {
      Divides(k, l - 1);
      DivModUnique(Pow2(l), Pow2(k), 2 * (Pow2(l - 1) / Pow2(k)), 0);
    }
  }

  lemma {:induction false} Monotone(k: nat, l: nat)
    requires k <= l
    ensures Pow2(k) <= Pow2(l)
  {
    if k < l {
      Monotone(k, l - 1);
    }
  }

  lemma TwoTo32()
    ensures Pow2(32) == TWO_32
  {
    assert Pow2(8) == 256;
    assert Pow2(16) == 65536;
    assert Pow2(24) == 16777216;
  }

  lemma TwoTo64()
    ensures Pow2(64) == TWO_64
  {
    TwoTo32();
    assert Pow2(40) == 256 * TWO_32;
    assert Pow2(48) == 65536 * TWO_32;
    assert Pow2(56) == 16777216 * TWO_32;
  }

  /** A remainder modulo a multiple of the size has the same remainder by the size. */
  lemma ModOfMod(x: int, big: nat, size: nat)
    requires size >= 1 && big >= 1 && big == size * (big / size)
    ensures x % big % size == x % size
  {
    var (q, w, v) := (big / size, x / big, x % big);
    assert x == big * w + v && v == size * (v / size) + v % size;
    assert size * q * w == size * (q * w);
    assert size * (q * w + v / size) == size * (q * w) + size * (v / size);
    hide *;
    DivModUnique(x, size, q * w + v / size, v % size);
  }
}
