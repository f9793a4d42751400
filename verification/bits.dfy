/** Integer helpers for the 32-bit address arithmetic of the trie: powers of
    two, the bit test `a & (1 << k)`, alignment of a value to a power of two,
    and the facts about them the prefix proofs rest on. Bits and alignment are
    defined by repeated halving, so that proofs about them stay within linear
    arithmetic. */
module Bits {

  /** 2^k, as `1 << k` in the source. */
  function Pow2(k: nat): (r: nat)
    ensures r >= 1
  {
    if k == 0 then 1 else 2 * Pow2(k - 1)
  }

  /** Number of distinct 32-bit addresses. */
  const AddressSpace: nat := 0x1_0000_0000

  /** Whether bit `k` of `a` is set, i.e. whether `a & (1 << k)` is non-zero. */
  predicate BitSet(a: nat, k: nat) {
    if k == 0 then a % 2 == 1 else BitSet(a / 2, k - 1)
  }

  /** Whether the low `k` bits of `b` are all zero, i.e. 2^k divides `b`. */
  predicate Aligned(b: nat, k: nat) {
    k == 0 || (b % 2 == 0 && Aligned(b / 2, k - 1))
  }

  /** The low 32 bits of a value: the part of it the trie ever looks at. */
  function Low32(a: nat): (r: nat)
    ensures r < AddressSpace
  {
    a % AddressSpace
  }

  /** A value that already fits in 32 bits is its own low part. */
  lemma Low32Fits(a: nat)
    requires a < AddressSpace
    ensures Low32(a) == a
  {
  }

  lemma Pow2Is32()
    ensures Pow2(32) == AddressSpace
  {
    assert Pow2(2) == 4;
    assert Pow2(4) == 16;
    assert Pow2(6) == 64;
    assert Pow2(8) == 256;
    Pow2Split(8, 8);
    Pow2Split(16, 16);
  }

  lemma Pow2Split(k: nat, j: nat)
    ensures Pow2(k + j) == Pow2(k) * Pow2(j)
    decreases j
  {
    if j > 0 {
      Pow2Split(k, j - 1);
      calc {
        Pow2(k + j);
        2 * Pow2(k + j - 1);
        2 * (Pow2(k) * Pow2(j - 1));
        Pow2(k) * (2 * Pow2(j - 1));
      }
    }
  }

  lemma {:induction false} Pow2Mono(k: nat, j: nat)
    requires k <= j
    ensures Pow2(k) <= Pow2(j)
    decreases j
  {
    if k < j {
      Pow2Mono(k, j - 1);
    }
  }

  /** Euclidean division is determined by any quotient/remainder pair. */
  lemma DivModUnique(a: int, q: int, m: int, r: int)
    requires m > 0 && 0 <= r < m && a == q * m + r
    ensures a / m == q && a % m == r
  {
    var q', r' := a / m, a % m;
    assert a == q' * m + r';
    assert (q' - q) * m == r - r';
    if q' > q {
      MulAtLeast(q' - q, m);
    } else if q' < q {
      MulAtLeast(q - q', m);
    }
  }

  lemma MulAtLeast(c: int, m: int)
    requires c >= 1 && m > 0
    ensures c * m >= m
  {
  }

  /** Alignment to 2^k is divisibility by 2^k. */
  lemma {:induction false} AlignedIsDivisible(b: nat, k: nat)
    ensures Aligned(b, k) <==> b % Pow2(k) == 0
    decreases k
  {
    if k > 0 {
      AlignedIsDivisible(b / 2, k - 1);
      var p := Pow2(k - 1);
      assert Pow2(k) == 2 * p;
      var h, e := b / 2, b % 2;
      var q, r := h / p, h % p;
      assert h == q * p + r;
      assert q * (2 * p) == 2 * (q * p);
      assert b == q * (2 * p) + (2 * r + e);
      DivModUnique(b, q, 2 * p, 2 * r + e);
    }
  }

  /** Halving a value cut to its low m bits cuts its half to m - 1 bits, and
      keeps the lowest bit. */
  lemma HalfOfLow(a: nat, m: nat)
    requires m >= 1
    ensures (a % Pow2(m)) / 2 == (a / 2) % Pow2(m - 1)
    ensures (a % Pow2(m)) % 2 == a % 2
  {
    var p := Pow2(m - 1);
    var q, r := a / (2 * p), a % (2 * p);
    assert a == q * (2 * p) + r;
    assert a / 2 == q * p + r / 2 by {
      assert a == 2 * (q * p) + r;
      DivModUnique(a, q * p + r / 2, 2, r % 2);
    }
    DivModUnique(a / 2, q, p, r / 2);
    DivModUnique(a, q * p + r / 2, 2, r % 2);
  }

  /** Bit `k` of a value below bit m is bit `k` of its low m bits. */
  lemma {:induction false} BitOfLow(a: nat, k: nat, m: nat)
    requires k < m
    ensures BitSet(a, k) <==> BitSet(a % Pow2(m), k)
    decreases k
  {
    HalfOfLow(a, m);
    if k > 0 {
      BitOfLow(a / 2, k - 1, m - 1);
    }
  }

  /** Bit `k < 32` of `a` is bit `k` of its low 32 bits. */
  lemma BitOfLow32(a: nat, k: nat)
    requires k < 32
    ensures BitSet(a, k) <==> BitSet(Low32(a), k)
  {
    Pow2Is32();
    BitOfLow(a, k, 32);
  }

  /** Inside an aligned block [b, b + 2^(k+1)), bit k of x says which half x
      is in. */
  lemma {:induction false} HalfByBit(b: nat, x: nat, k: nat)
    requires Aligned(b, k + 1)
    requires b <= x < b + 2 * Pow2(k)
    ensures BitSet(x, k) <==> x >= b + Pow2(k)
    decreases k
  {
    if k > 0 {
      HalfByBit(b / 2, x / 2, k - 1);
    }
  }

  /** Both halves of an aligned block are aligned at the half size. */
  lemma {:induction false} HalvesAligned(b: nat, k: nat)
    requires Aligned(b, k + 1)
    ensures Aligned(b, k) && Aligned(b + Pow2(k), k)
    decreases k
  {
    if k > 0 {
      HalvesAligned(b / 2, k - 1);
      assert (b + Pow2(k)) / 2 == b / 2 + Pow2(k - 1);
    }
  }

  /** Zero is aligned to every power of two. */
  lemma {:induction false} ZeroAligned(k: nat)
    ensures Aligned(0, k)
    decreases k
  {
    if k > 0 {
      ZeroAligned(k - 1);
    }
  }

  /** A power of two is aligned to every smaller power of two. */
  lemma {:induction false} Pow2Aligned(j: nat, k: nat)
    requires k <= j
    ensures Aligned(Pow2(j), k)
    decreases k
  {
    if k > 0 {
      DivModUnique(Pow2(j), Pow2(j - 1), 2, 0);
      Pow2Aligned(j - 1, k - 1);
    }
  }

  /** Alignment to a power of two implies alignment to every smaller one. */
  lemma {:induction false} AlignedWeaken(b: nat, j: nat, k: nat)
    requires Aligned(b, j) && k <= j
    ensures Aligned(b, k)
    decreases k
  {
    if k > 0 {
      AlignedWeaken(b / 2, j - 1, k - 1);
    }
  }

  /** An aligned block start below an aligned limit leaves room for the block. */
  lemma {:induction false} AlignedFits(a: nat, lim: nat, k: nat)
    requires Aligned(a, k) && Aligned(lim, k) && a < lim
    ensures a + Pow2(k) <= lim
    decreases k
  {
    if k > 0 {
      AlignedFits(a / 2, lim / 2, k - 1);
    }
  }

  /** A remainder never exceeds what it is taken of. */
  lemma ModBelow(a: nat, m: nat)
    requires m > 0
    ensures a % m <= a
  {
    if a < m {
      DivModUnique(a, 0, m, a);
    }
  }

  /** In a block of size s whose start b is a multiple of s, every x of the
      block has b as x with its remainder cleared. */
  lemma DivisibleBlockStart(b: nat, x: nat, s: nat)
    requires s > 0 && b % s == 0 && b <= x < b + s
    ensures b == x - x % s
  {
    var m := b / s;
    assert b == m * s + b % s;
    DivModUnique(x, m, s, x - b);
  }

  /** In an aligned block that holds x, the block start is x with its low
      bits cleared. */
  lemma BlockStart(b: nat, x: nat, k: nat)
    requires Aligned(b, k) && b <= x < b + Pow2(k)
    ensures b == x - x % Pow2(k)
  {
    AlignedIsDivisible(b, k);
    DivisibleBlockStart(b, x, Pow2(k));
  }
}
