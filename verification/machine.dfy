/** Fixed-width machine integers as the Rust source uses them. */
module Machine {

  /** 2^64, one past the largest `u64`. */
  const U64_LIMIT: int := 0x1_0000_0000_0000_0000

  /** Rust's `u64`. Every `+`, `-` and `*` on this type must stay in range:
      that is exactly the check a debug build performs (it panics otherwise),
      so an expression that verifies here never overflows in the source. */
  newtype u64 = x: int | 0 <= x < 0x1_0000_0000_0000_0000

  /** Rust's `u8`, one byte. */
  newtype u8 = x: int | 0 <= x < 0x100

  /** The value a release build keeps when an intermediate leaves the
      `u64` range: two's-complement wrap-around. */
  function Wrap(x: int): (r: u64)
    ensures (x - r as int) % U64_LIMIT == 0
    ensures 0 <= x < U64_LIMIT ==> r as int == x
  {
    (x % U64_LIMIT) as u64
  }

  function Pow2(n: nat): (r: nat)
    ensures r >= 1
  {
    if n == 0 then 1 else 2 * Pow2(n - 1)
  }

  lemma {:induction false} Pow2Monotone(i: nat, j: nat)
    requires i <= j
    ensures Pow2(i) <= Pow2(j)
    decreases j - i
  {
    if i < j {
      Pow2Monotone(i, j - 1);
    }
  }

  lemma {:induction false} Pow2Add(m: nat, n: nat)
    ensures Pow2(m + n) == Pow2(m) * Pow2(n)
  {
    if m > 0 {
      Pow2Add(m - 1, n);
      assert Pow2(m + n) == 2 * Pow2(m - 1 + n);
    }
  }

  lemma Pow2At64()
    ensures Pow2(32) == 0x1_0000_0000
    ensures Pow2(63) == 0x8000_0000_0000_0000
    ensures Pow2(64) == U64_LIMIT
  {
    assert Pow2(2) == 4;
    Pow2Add(2, 2);
    assert Pow2(4) == 0x10;
    Pow2Add(4, 4);
    assert Pow2(8) == 0x100;
    Pow2Add(8, 8);
    assert Pow2(16) == 0x1_0000;
    Pow2Add(16, 16);
    assert Pow2(32) == 0x1_0000_0000;
    Pow2Add(32, 32);
    assert Pow2(64) == 2 * Pow2(63);
  }

  /** `u64::ilog2`: the position of the highest set bit. Rust panics on 0,
      hence the precondition. */
  function ILog2(x: u64): (k: nat)
    requires x > 0
    ensures Pow2(k) <= x as int < Pow2(k + 1)
  {
    if x == 1 then 0 else 1 + ILog2(x / 2)
  }

  /** The floor logarithm is determined by its bracketing powers of two. */
  lemma ILog2Unique(x: u64, k: nat)
    requires x > 0
    requires Pow2(k) <= x as int < Pow2(k + 1)
    ensures ILog2(x) == k
  {
    var j := ILog2(x);
    if j < k {
      Pow2Monotone(j + 1, k);
    } else if k < j {
      Pow2Monotone(k + 1, j);
    }
  }
}
