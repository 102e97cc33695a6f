/**
 * Fixed-width unsigned integers as the encoder's C code uses them:
 * wrap-around modulo 2^32 or 2^64, two's-complement reinterpretation and
 * the bitwise AND/NOT that its masks are written with.
 */
module Words {

  const U32_MODULUS: nat := 0x1_0000_0000
  const U64_MODULUS: nat := 0x1_0000_0000_0000_0000

  type u8 = x: int | 0 <= x < 0x100
  type u32 = x: int | 0 <= x < 0x1_0000_0000
  type u64 = x: int | 0 <= x < 0x1_0000_0000_0000_0000

  function Pow2(n: nat): (r: nat)
    ensures r >= 1
  {
    if n == 0 then 1 else 2 * Pow2(n - 1)
  }

  /** Reduction of an arbitrary integer result into uint32_t. */
  function Wrap32(x: int): (r: u32)
    ensures (r - x) % U32_MODULUS == 0
    ensures 0 <= x < U32_MODULUS ==> r == x
  {
    x % U32_MODULUS
  }

  /** Reduction of an arbitrary integer result into size_t (64 bits). */
  function Wrap64(x: int): (r: u64)
    ensures (r - x) % U64_MODULUS == 0
    ensures 0 <= x < U64_MODULUS ==> r == x
  {
    x % U64_MODULUS
  }

  /** A uint32_t value stored into an `int`: two's-complement reinterpretation. */
  function AsInt32(x: u32): (r: int)
    ensures -0x8000_0000 <= r < 0x8000_0000
    ensures (r - x) % U32_MODULUS == 0
    ensures x < 0x8000_0000 <==> r == x
  {
    if x < 0x8000_0000 then x else x - U32_MODULUS
  }

  /** Bitwise AND of the low n bits of x and y (least significant bit first). */
  function And(x: nat, y: nat, n: nat): (r: nat)
    ensures r < Pow2(n)
  {
    if n == 0 then 0
    else (if x % 2 == 1 && y % 2 == 1 then 1 else 0) + 2 * And(x / 2, y / 2, n - 1)
  }

  /** Bitwise complement within n bits. */
  function Not(x: nat, n: nat): (r: nat)
    requires x < Pow2(n)
    ensures r < Pow2(n)
  {
    Pow2(n) - 1 - x
  }

  /** x and its complement have no bit in common. */
  lemma {:induction false} AndNot(x: nat, n: nat)
    requires x < Pow2(n)
    ensures And(x, Not(x, n), n) == 0
  {
    if n > 0 {
      var a, c := x / 2, Not(x, n);
      assert c == 2 * (Pow2(n - 1) - 1 - a) + (1 - x % 2);
      assert c % 2 == 1 - x % 2 && c / 2 == Not(a, n - 1);
      AndNot(a, n - 1);
    }
  }

  lemma {:induction false} Pow2Monotone(k: nat, n: nat)
    requires k <= n
    ensures Pow2(k) <= Pow2(n)
  {
    if k < n {
      Pow2Monotone(k, n - 1);
    }
  }

  /** x % m is determined by any decomposition x == m*q + r with 0 <= r < m. */
  lemma ModUnique(x: int, m: int, q: int, r: int)
    requires m > 0 && x == m * q + r && 0 <= r < m
    ensures x % m == r && x / m == q
  {
    var q' := x / m;
    var r' := x % m;
    assert x == m * q' + r';
    if q' > q {
      assert m * q' >= m * (q + 1) by { MulMonotone(m, q + 1, q'); }
    } else if q' < q {
      assert m * q >= m * (q' + 1) by { MulMonotone(m, q' + 1, q); }
    }
  }

  /** x - x % m is the largest multiple of m not above x. */
  lemma RoundDown(x: nat, m: nat)
    requires m > 0
    ensures (x - x % m) % m == 0 && x - x % m <= x < x - x % m + m
  {
    ModUnique(x - x % m, m, x / m, 0);
  }

  lemma MulMonotone(m: int, a: int, b: int)
    requires m > 0 && a <= b
    ensures m * a <= m * b
  {
  }

  /** The low k bits of x are its lowest bit followed by the low k-1 bits of x/2. */
  lemma ModPow2Split(x: nat, k: nat)
    requires k > 0
    ensures x % Pow2(k) == x % 2 + 2 * ((x / 2) % Pow2(k - 1))
  {
    var h := x / 2;
    var m := Pow2(k - 1);
    var a, r := h / m, h % m;
    assert h == m * a + r;
    assert x == Pow2(k) * a + (x % 2 + 2 * r);
    ModUnique(x, Pow2(k), a, x % 2 + 2 * r);
  }

  lemma {:induction false} AndAllOnes(x: nat, n: nat)
    requires x < Pow2(n)
    ensures And(x, Pow2(n) - 1, n) == x
  {
    if n > 0 {
      assert (Pow2(n) - 1) / 2 == Pow2(n - 1) - 1;
      assert (Pow2(n) - 1) % 2 == 1;
      AndAllOnes(x / 2, n - 1);
    }
  }

  /** The low k bits of x, lowest bit first. */
  function LowBits(x: nat, k: nat): nat
  {
    if k == 0 then 0 else x % 2 + 2 * LowBits(x / 2, k - 1)
  }

  lemma {:induction false} LowBitsMod(x: nat, k: nat)
    ensures LowBits(x, k) == x % Pow2(k)
  {
    if k > 0 {
      LowBitsMod(x / 2, k - 1);
      ModPow2Split(x, k);
    }
  }

  /**
   * Masking with the complement of 2^k - 1 clears the low k bits:
   * x & ~(2^k - 1) == x - x % 2^k.
   */
  lemma AndClearsLowBits(x: nat, n: nat, k: nat)
    requires k <= n && x < Pow2(n)
    ensures Pow2(k) <= Pow2(n)
    ensures And(x, Pow2(n) - Pow2(k), n) == x - x % Pow2(k)
  {
    Pow2Monotone(k, n);
    AndClearsBits(x, n, k, Pow2(n) - Pow2(k));
    LowBitsMod(x, k);
  }

  lemma {:induction false} AndClearsBits(x: nat, n: nat, k: nat, mask: nat)
    requires k <= n && x < Pow2(n) && mask == Pow2(n) - Pow2(k)
    ensures And(x, mask, n) == x - LowBits(x, k)
  {
    if k == 0 {
      AndAllOnes(x, n);
    } else {
      var h, half := x / 2, Pow2(n - 1) - Pow2(k - 1);
      HalfBelow(x, n);
      Pow2Monotone(k - 1, n - 1);
      AndClearsBits(h, n - 1, k - 1, half);
      HalveMask(n, k);
      AndEven(x, mask, half, n);
      ClearedLowBits(x, h, x % 2, And(x, mask, n), LowBits(h, k - 1), LowBits(x, k));
    }
  }

  lemma ClearedLowBits(x: int, h: int, b: int, a: int, r: int, low: int)
    requires x == 2 * h + b && a == 2 * (h - r) && low == b + 2 * r
    ensures a == x - low
  {
  }

  lemma HalveMask(n: nat, k: nat)
    requires 0 < k <= n
    ensures Pow2(n) - Pow2(k) == 2 * (Pow2(n - 1) - Pow2(k - 1))
  {
  }

  lemma HalfBelow(x: nat, n: nat)
    requires n > 0 && x < Pow2(n)
    ensures x / 2 < Pow2(n - 1)
  {
  }

  /** ANDing with an even mask: the low bit is 0 and the rest is the AND of the halves. */
  lemma AndEven(x: nat, y: nat, half: nat, n: nat)
    requires n > 0 && y == 2 * half
    ensures And(x, y, n) == 2 * And(x / 2, half, n - 1)
  {
    assert y % 2 == 0 && y / 2 == half;
  }

  /** x & ~(a - 1) for a power of two a == 2^k, within n bits. */
  lemma MaskWithComplement(x: nat, n: nat, k: nat)
    requires k <= n && x < Pow2(n)
    ensures Pow2(k) - 1 < Pow2(n)
    ensures And(x, Not(Pow2(k) - 1, n), n) == x - x % Pow2(k)
  {
    Pow2Monotone(k, n);
    AndClearsLowBits(x, n, k);
  }

  /** x & ~(m - 1) for m == 2^k: x rounded down to a multiple of m. */
  lemma ClearLowBits(x: nat, n: nat, k: nat, m: nat)
    requires k <= n && x < Pow2(n) && m == Pow2(k)
    ensures m - 1 < Pow2(n)
    ensures var r := And(x, Not(m - 1, n), n);
      r == x - x % m && r % m == 0 && r <= x < r + m
  {
    MaskWithComplement(x, n, k);
    RoundDown(x, m);
  }

  lemma Pow2Values()
    ensures Pow2(4) == 16 && Pow2(6) == 64
    ensures Pow2(32) == U32_MODULUS && Pow2(64) == U64_MODULUS
  {
    assert Pow2(8) == 256;
    assert Pow2(16) == 65536;
    assert Pow2(32) == Pow2(16) * Pow2(16) by { Pow2Add(16, 16); }
    assert Pow2(64) == Pow2(32) * Pow2(32) by { Pow2Add(32, 32); }
  }

  lemma SmallPow2()
    ensures Pow2(1) == 2 && Pow2(2) == 4 && Pow2(4) == 16 && Pow2(5) == 32 && Pow2(8) == 256
  {
    assert Pow2(4) == 16;
  }

  lemma {:induction false} Pow2Add(a: nat, b: nat)
    ensures Pow2(a + b) == Pow2(a) * Pow2(b)
  {
    if a > 0 {
      Pow2Add(a - 1, b);
    }
  }
}
