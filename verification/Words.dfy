/** Signed 64-bit arithmetic: wrap-around, powers of two and the left shift. */
module Words {

  const TWO63: int := 0x8000_0000_0000_0000
  const TWO64: int := 0x1_0000_0000_0000_0000

  /** Two's-complement wrap-around to a signed 64-bit value. */
  function Wrap64(x: int): (r: int)
    ensures -TWO63 <= r < TWO63
    ensures -TWO63 <= x < TWO63 ==> r == x
  {
    (x + TWO63) % TWO64 - TWO63
  }

  /** It is the one such value that differs from `x` by a multiple of 2^64. */
  lemma WrapIsCongruent(x: int) returns (k: int)
    ensures Wrap64(x) == x + k * TWO64
  {
    k := -((x + TWO63) / TWO64);
  }

  function Pow2(n: nat): (p: int)
    ensures p >= 1
  {
    if n == 0 then 1 else 2 * Pow2(n - 1)
  }

  /** The left shift 1<<n on a signed 64-bit one. */
  function ShiftOne(n: nat): int {
    if n < 63 then Pow2(n) else if n == 63 then -TWO63 else 0
  }

  lemma ModShift(x: int, q: int)
    ensures (x - q * TWO64) % TWO64 == x % TWO64
  {
    var d, r := x / TWO64, x % TWO64;
    assert x - q * TWO64 == (d - q) * TWO64 + r;
    ModUnique(d - q, r);
  }

  lemma ModUnique(d: int, r: int)
    requires 0 <= r < TWO64
    ensures (d * TWO64 + r) % TWO64 == r
  {
  }

  /** Reducing to 64 bits in between does not change what a product is reduced to. */
  lemma WrapProduct(a: int, b: int)
    ensures Wrap64(a * Wrap64(b)) == Wrap64(a * b)
  {
    var q := (b + TWO63) / TWO64;
    assert Wrap64(b) == b - q * TWO64;
    Distribute(a, b, q);
    ModShift(a * b + TWO63, a * q);
  }

  lemma Distribute(a: int, b: int, q: int)
    ensures a * (b - q * TWO64) == a * b - (a * q) * TWO64
  {
  }

  /** Shifting a one is the power of two, reduced to 64 bits. */
  lemma ShiftIsWrapped(n: nat)
    ensures ShiftOne(n) == Wrap64(Pow2(n))
  {
    if n < 63 {
      Pow2At63();
      Pow2Grows(n, 62);
    } else if n == 63 {
      Pow2At63();
    } else {
      Pow2Beyond(n);
      ModUnique(Pow2(n - 64), TWO63);
    }
  }

  lemma {:induction false} Pow2Beyond(n: nat)
    requires n >= 64
    ensures Pow2(n) == Pow2(n - 64) * TWO64
  {
    if n == 64 {
      Pow2At63();
    } else {
      Pow2Beyond(n - 1);
    }
  }

  lemma {:induction false} Pow2Grows(m: nat, n: nat)
    requires m <= n
    ensures Pow2(m) <= Pow2(n)
    decreases n
  {
    if m < n {
      Pow2Grows(m, n - 1);
    }
  }

  lemma Pow2At63()
    ensures Pow2(62) == 0x4000_0000_0000_0000 && Pow2(63) == TWO63
  {
    assert Pow2(8) == 256;
    assert Pow2(16) == 65536;
    assert Pow2(24) == 0x100_0000;
    assert Pow2(32) == 0x1_0000_0000;
    assert Pow2(40) == 0x100_0000_0000;
    assert Pow2(48) == 0x1_0000_0000_0000;
    assert Pow2(56) == 0x100_0000_0000_0000;
    assert Pow2(60) == 0x1000_0000_0000_0000;
    assert Pow2(62) == 0x4000_0000_0000_0000;
  }
}
