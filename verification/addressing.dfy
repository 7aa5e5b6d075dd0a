/**
 Masked addressing of the circular buffer.

 Every access to the buffer reduces a signed index with `& mask`, where `mask`
 is an unsigned 32-bit value equal to `size - 1`. In C++ the signed index is
 first converted to `uint32_t` (reduction modulo 2^32), then the two words are
 combined bit by bit. This module models both steps exactly on unbounded
 integers and proves that, for a power-of-two `size`, the result is the
 Euclidean remainder `idx % size`, so it always lies in `[0, size)`.
 */
module Addressing {

  /** 2^32: unsigned 32-bit arithmetic is arithmetic modulo this value. */
  const Uint32Modulus: int := 0x1_0000_0000

  /** The largest value of a C++ `int` (two's complement, 32 bits). */
  const Int32Max: int := 0x7FFF_FFFF

  /** Conversion of a signed integer to `uint32_t`. */
  function ToUint32(x: int): (u: nat)
    ensures u < Uint32Modulus
    ensures (x - u) % Uint32Modulus == 0
    ensures 0 <= x < Uint32Modulus ==> u == x
  {
    x % Uint32Modulus
  }

  /** Bitwise AND of two non-negative integers, one bit at a time. */
  function BitAnd(a: nat, b: nat): (r: nat)
    ensures r <= a && r <= b
    decreases a
  {
    if a == 0 || b == 0 then 0
    else 2 * BitAnd(a / 2, b / 2) + (if a % 2 == 1 && b % 2 == 1 then 1 else 0)
  }

  /** `n` is 2^k for some k >= 0. */
  predicate IsPow2(n: int)
    decreases n
  {
    n == 1 || (n > 1 && n % 2 == 0 && IsPow2(n / 2))
  }

  /** The address `idx & mask` that every buffer access computes. */
  function Masked(idx: int, mask: nat): (slot: nat)
    ensures slot <= mask
  {
    BitAnd(ToUint32(idx), mask)
  }

  /**
   The power-of-two test of `initBuffer`, `(n & (n - 1)) == 0`, as written.
   It accepts zero, which is not a power of two.
   */
  predicate PowerOfTwoCheck(n: int): (ok: bool)
    requires 0 <= n <= Int32Max
    ensures ok <==> (n == 0 || IsPow2(n))
  {
    if n > 0 then AndPredecessor(n); BitAnd(ToUint32(n), ToUint32(n - 1)) == 0
    else BitAnd(ToUint32(n), ToUint32(n - 1)) == 0
  }

  /** The capacity test `initBuffer` needs: a positive power of two. */
  predicate CapacityOk(n: int): (ok: bool)
    requires 0 <= n <= Int32Max
    ensures ok <==> IsPow2(n)
  {
    n > 0 && PowerOfTwoCheck(n)
  }

  /** Zero passes the as-written check, and a buffer of size zero gets the all-ones mask. */
  lemma ZeroCapacityPassesCheck()
    ensures PowerOfTwoCheck(0) && !IsPow2(0)
    ensures ToUint32(0 - 1) == Uint32Modulus - 1
    ensures Masked(1, ToUint32(0 - 1)) == 1
  {
  }

  /** For n >= 1, `n & (n - 1)` is zero exactly when n is a power of two. */
  lemma {:induction false} AndPredecessor(n: int)
    requires n >= 1
    ensures (BitAnd(n, n - 1) == 0) <==> IsPow2(n)
    decreases n
  {
    if n == 1 {
    } else if n % 2 == 0 {
      assert (n - 1) / 2 == n / 2 - 1;
      assert BitAnd(n, n - 1) == 2 * BitAnd(n / 2, n / 2 - 1);
      AndPredecessor(n / 2);
    } else {
      assert (n - 1) / 2 == n / 2;
      assert BitAnd(n, n - 1) == 2 * BitAnd(n / 2, n / 2);
      AndSelf(n / 2);
    }
  }

  /** `m & m == m`. */
  lemma {:induction false} AndSelf(m: nat)
    ensures BitAnd(m, m) == m
    decreases m
  {
    if m != 0 {
      AndSelf(m / 2);
    }
  }

  /** Euclidean division is determined by its quotient and remainder. */
  lemma ModUnique(a: int, n: int, q: int, r: int)
    requires n > 0 && a == n * q + r && 0 <= r < n
    ensures a / n == q && a % n == r
  {
    var q', r' := a / n, a % n;
    assert n * (q - q') == r' - r;
    if q > q' {
      MulAtLeast(n, q - q');
    } else if q < q' {
      MulAtLeast(n, q' - q);
    }
  }

  /** A positive multiple of n is at least n. */
  lemma {:induction false} MulAtLeast(n: int, k: int)
    requires n > 0 && k >= 1
    ensures n * k >= n
    decreases k
  {
    if k > 1 {
      MulAtLeast(n, k - 1);
      assert n * k == n * (k - 1) + n;
    }
  }

  /** Adding a multiple of n does not change the remainder modulo n. */
  lemma ModAddMultiple(x: int, n: int, k: int)
    requires n > 0
    ensures (x + n * k) % n == x % n
  {
    assert x + n * k == n * (x / n + k) + x % n;
    ModUnique(x + n * k, n, x / n + k, x % n);
  }

  /** Reducing the subtrahend first does not change the remainder. */
  lemma ModSubMod(a: int, b: int, n: int)
    requires n > 0
    ensures (a - b % n) % n == (a - b) % n
  {
    assert a - b % n == (a - b) + n * (b / n);
    ModAddMultiple(a - b, n, b / n);
  }

  /** Two positions less than n apart never share a slot. */
  lemma SlotsDistinct(p: int, d: int, n: int)
    requires 0 < d < n
    ensures p % n != (p - d) % n
  {
    var r := p % n;
    if r - d >= 0 {
      ModUnique(r - d, n, 0, r - d);
    } else {
      ModUnique(r - d, n, -1, r - d + n);
    }
    assert (p - d) % n == (r - d) % n by {
      assert p - d == (r - d) + n * (p / n);
      ModAddMultiple(r - d, n, p / n);
    }
  }

  /** Halving both sides of a remainder modulo an even number. */
  lemma ModDouble(a: nat, m: int)
    requires m > 0
    ensures a % (2 * m) == 2 * ((a / 2) % m) + a % 2
  {
    var h := a / 2;
    assert h == m * (h / m) + h % m;
    assert a == (2 * m) * (h / m) + (2 * (h % m) + a % 2);
    ModUnique(a, 2 * m, h / m, 2 * (h % m) + a % 2);
  }

  /** A power of two divides every larger power of two. */
  lemma {:induction false} Pow2Divides(n: int, m: int)
    requires IsPow2(n) && IsPow2(m) && n <= m
    ensures m % n == 0
    decreases m
  {
    if n == 1 {
    } else {
      Pow2Divides(n / 2, m / 2);
      var t := (m / 2) / (n / 2);
      assert m / 2 == (n / 2) * t;
      assert m == n * t;
      ModUnique(m, n, t, 0);
    }
  }

  /** Masking with `size - 1` keeps the low bits: it is the remainder modulo `size`. */
  lemma {:induction false} MaskIsMod(a: nat, size: int)
    requires IsPow2(size)
    ensures BitAnd(a, size - 1) == a % size
    decreases size
  {
    if size > 1 {
      MaskIsMod(a / 2, size / 2);
      if a != 0 {
        assert (size - 1) / 2 == size / 2 - 1;
        assert BitAnd(a, size - 1) == 2 * BitAnd(a / 2, size / 2 - 1) + a % 2;
        ModDouble(a, size / 2);
      }
    }
  }

  /** 2^32 is a power of two. */
  lemma Uint32ModulusIsPow2()
    ensures IsPow2(Uint32Modulus)
  {
    Pow2IsPow2(32);
    Pow2Of32();
  }

  /** 2^32 written out. */
  lemma Pow2Of32()
    ensures Pow2(32) == Uint32Modulus
  {
    Pow2Add(16, 16);
    Pow2Add(8, 8);
    assert Pow2(8) == 256;
  }

  /** 2^(a+b) == 2^a * 2^b. */
  lemma {:induction false} Pow2Add(a: nat, b: nat)
    ensures Pow2(a + b) == Pow2(a) * Pow2(b)
  {
    if a > 0 {
      Pow2Add(a - 1, b);
    }
  }

  /** Every 2^k passes IsPow2. */
  lemma {:induction false} Pow2IsPow2(k: nat)
    ensures IsPow2(Pow2(k))
  {
    if k > 0 {
      Pow2IsPow2(k - 1);
      assert Pow2(k) / 2 == Pow2(k - 1);
    }
  }

  /** 2^k. */
  function Pow2(k: nat): nat
  {
    if k == 0 then 1 else 2 * Pow2(k - 1)
  }

  /** Reducing modulo a multiple of n first does not change the remainder modulo n. */
  lemma ModOfMultiple(x: int, m: int, n: int)
    requires n > 0 && m > 0 && m % n == 0
    ensures (x % m) % n == x % n
  {
    var t, q, u := m / n, x / m, x % m;
    assert m == n * t;
    assert x == m * q + u;
    assert m * q == n * (t * q);
    ModAddMultiple(u, n, t * q);
  }

  /** The conversion to `uint32_t` is invisible modulo a power of two up to 2^32. */
  lemma WrapThenMod(x: int, size: int)
    requires IsPow2(size) && size <= Uint32Modulus
    ensures ToUint32(x) % size == x % size
  {
    Uint32ModulusIsPow2();
    Pow2Divides(size, Uint32Modulus);
    ModOfMultiple(x, Uint32Modulus, size);
  }

  /**
   The address of every access, `idx & (size - 1)`, is `idx % size`: it lies in
   `[0, size)`, also for the negative tap `integral - 1`.
   */
  lemma MaskedIsMod(idx: int, size: int)
    requires IsPow2(size) && size <= Uint32Modulus
    ensures Masked(idx, size - 1) == idx % size
    ensures 0 <= Masked(idx, size - 1) < size
  {
    MaskIsMod(ToUint32(idx), size);
    WrapThenMod(idx, size);
  }
}
