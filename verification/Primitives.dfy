/** Result types and the machine-integer widths shared by the model. */
module Primitives {

  datatype Option<+T> = None | Some(value: T)

  datatype Result<+T, +E> = Ok(value: T) | Err(error: E)

  const U32_SIZE: nat := 0x1_0000_0000
  const U64_SIZE: nat := 0x1_0000_0000_0000_0000

  type u8 = x: nat | x < 0x100
  type u32 = x: nat | x < U32_SIZE
  type u64 = x: nat | x < U64_SIZE

  function Min(a: nat, b: nat): nat {
    if a <= b then a else b
  }

  function Max(a: nat, b: nat): nat {
    if a <= b then b else a
  }

  predicate IsPowerOfTwo(n: nat) {
    n == 1 || (n > 0 && n % 2 == 0 && IsPowerOfTwo(n / 2))
  }

  /** Rounds up to a multiple of `alignment`; for a power of two this is the source's add-and-mask. */
  function AlignUp(value: nat, alignment: nat): nat
    requires alignment > 0
  {
    (value + alignment - 1) / alignment * alignment
  }

  /** Quotient and remainder are determined by the division equation. */
  lemma DivModUnique(a: nat, d: nat, q: nat, r: nat)
    requires a == q * d + r && r < d
    ensures a / d == q && a % d == r
  {
    var k := a / d - q;
    assert k * d == a / d * d - q * d;
    assert k * d == r - a % d;
  }

  lemma QuotientBounds(a: nat, d: nat)
    requires d > 0
    ensures a / d * d <= a < a / d * d + d
  {
  }

  /** The multiple of `d` just above or at a value is at most any other multiple above it. */
  lemma LeastMultiple(value: nat, d: nat, q: nat, k: nat)
    requires d > 0 && q * d < value + d && value <= k * d
    ensures q * d <= k * d
  {
    if k < q {
      MulBelow(k, q, d);
    } else {
      MulAtMost(q, k, d);
    }
  }

  /** `AlignUp` is the least multiple at or above `value`. */
  lemma AlignUpLeast(value: nat, alignment: nat, a: nat)
    requires alignment > 0
    ensures value <= AlignUp(value, alignment) < value + alignment
    ensures AlignUp(value, alignment) % alignment == 0
    ensures value <= a && a % alignment == 0 ==> AlignUp(value, alignment) <= a
  {
    var q := (value + alignment - 1) / alignment;
    QuotientBounds(value + alignment - 1, alignment);
    DivModUnique(q * alignment, alignment, q, 0);
    if value <= a && a % alignment == 0 {
      LeastMultiple(value, alignment, q, a / alignment);
    }
  }

  lemma MulBelow(k: nat, q: nat, d: nat)
    requires k < q
    ensures k * d + d <= q * d
  {
    assert q * d == k * d + (q - k) * d;
    MulAtMost(1, q - k, d);
  }

  lemma MulAtMost(k: nat, q: nat, d: nat)
    requires k <= q
    ensures k * d <= q * d
  {
  }

  // ---- powers of two -----------------------------------------------------------------------

  function Pow2(k: nat): nat {
    if k == 0 then 1 else 2 * Pow2(k - 1)
  }

  lemma {:induction false} Pow2Add(j: nat, k: nat)
    ensures Pow2(j + k) == Pow2(j) * Pow2(k)
  {
    if j > 0 {
      Pow2Add(j - 1, k);
    }
  }

  lemma WordSize()
    ensures Pow2(64) == U64_SIZE
  {
    assert Pow2(8) == 0x100;
    Pow2Add(8, 8);
    Pow2Add(16, 16);
    Pow2Add(32, 32);
  }

  lemma {:induction false} PowerDivides(n: nat, k: nat)
    requires IsPowerOfTwo(n) && n <= Pow2(k)
    ensures exists q: nat :: Pow2(k) == q * n
  {
    if n == 1 {
      assert Pow2(k) == Pow2(k) * n;
    } else if k > 0 {
      PowerDivides(n / 2, k - 1);
      var q: nat :| Pow2(k - 1) == q * (n / 2);
      assert Pow2(k) == q * n by {
        assert n == 2 * (n / 2);
        assert 2 * (q * (n / 2)) == q * (2 * (n / 2));
      }
    }
  }

  /** When rounding `value` up overflows 64 bits, no 64-bit multiple at or above it exists. */
  lemma NoMultipleLeft(value: nat, alignment: nat, a: nat)
    requires IsPowerOfTwo(alignment) && alignment < U64_SIZE
    requires value + alignment - 1 >= U64_SIZE
    requires value <= a && a % alignment == 0
    ensures a >= U64_SIZE
  {
    WordSize();
    PowerDivides(alignment, 64);
    var q: nat :| Pow2(64) == q * alignment;
    ExactQuotient(a, alignment);
    MultiplesApart(a / alignment, q, alignment);
  }

  lemma ExactQuotient(a: nat, d: nat)
    requires d > 0 && a % d == 0
    ensures a == a / d * d
  {
  }

  /** A multiple less than one step below another is not below it. */
  lemma MultiplesApart(m: nat, q: nat, d: nat)
    requires m * d + d > q * d
    ensures m * d >= q * d
  {
    if m < q {
      MulBelow(m, q, d);
    } else {
      MulAtMost(q, m, d);
    }
  }
}
