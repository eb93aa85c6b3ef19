/** The arithmetic of the pooled allocator: rounding to the alignment, and the
    ladder of bucket sizes, each twice the one before, within 32-bit integers. */
module BufferLadder {

  import opened Results

  const MAX_INT: int := 0x7FFF_FFFF

  type Int32 = x: int | -0x8000_0000 <= x <= 0x7FFF_FFFF

  type Capacity = c: int | 0 <= c <= 0x7FFF_FFFF

  const BUCKETS: nat := 16

  /** x << 1 on 32-bit integers. */
  function ShiftLeft(x: Int32): Int32 {
    if 2 * x > MAX_INT then 2 * x - 0x1_0000_0000
    else if 2 * x < -0x8000_0000 then 2 * x + 0x1_0000_0000
    else 2 * x
  }

  function Min(x: int, y: int): int {
    if x <= y then x else y
  }

  function Max(x: int, y: int): int {
    if x <= y then y else x
  }

  /** Rounding, in 64-bit arithmetic that cannot overflow. */
  function RoundUp(requested: nat, alignment: nat): nat
    requires alignment >= 1
  {
    (requested + alignment - 1) / alignment * alignment
  }

  function RoundedCapacity(requested: Capacity, alignment: nat): Result<Capacity>
    requires alignment >= 1
  {
    var rounded := RoundUp(requested, alignment);
    if rounded > MAX_INT then Err(TooLarge) else Ok(rounded)
  }

  predicate Aligned(n: nat, alignment: nat)
    requires alignment >= 1
  {
    n % alignment == 0
  }

  lemma TimesMonotone(p: int, q: int, a: nat)
    requires p <= q
    ensures p * a <= q * a
  {
    assert q * a == p * a + (q - p) * a;
  }

  lemma MultipleAligned(q: nat, a: nat)
    requires a >= 1
    ensures Aligned(q * a, a)
  {
    var x := q * a;
    var p, r := x / a, x % a;
    assert x == p * a + r && r < a;
    assert (p + 1) * a == p * a + a && (q + 1) * a == q * a + a;
    if p < q {
      TimesMonotone(p + 1, q, a);
    } else if q < p {
      TimesMonotone(q + 1, p, a);
    }
  }

  lemma AlignedIsTimes(m: nat, a: nat) returns (p: nat)
    requires a >= 1 && Aligned(m, a)
    ensures m == p * a
  {
    p := m / a;
  }

  lemma RoundUpCovers(n: nat, a: nat)
    requires a >= 1
    ensures n <= RoundUp(n, a) < n + a && Aligned(RoundUp(n, a), a)
  {
    var x := n + a - 1;
    var q := x / a;
    MultipleAligned(q, a);
    assert x == q * a + x % a;
  }

  /** Rounding up gives the least multiple that is not below the request. */
  lemma RoundUpLeast(n: nat, a: nat, m: nat)
    requires a >= 1
    ensures n <= RoundUp(n, a) && Aligned(RoundUp(n, a), a)
    ensures Aligned(m, a) && n <= m ==> RoundUp(n, a) <= m
  {
    RoundUpCovers(n, a);
    if Aligned(m, a) && n <= m {
      var p := AlignedIsTimes(m, a);
      var q := (n + a - 1) / a;
      hide Aligned;
      assert (p + 1) * a == m + a;
      if p < q {
        TimesMonotone(p + 1, q, a);
      } else {
        TimesMonotone(q, p, a);
      }
    }
  }

  lemma RoundUpAgain(n: nat, a: nat)
    requires a >= 1
    ensures RoundUp(RoundUp(n, a), a) == RoundUp(n, a)
  {
    RoundUpLeast(n, a, 0);
    RoundUpLeast(RoundUp(n, a), a, RoundUp(n, a));
  }

  // ----- the ladder -----

  /** The size of bucket i. */
  function Base(first: nat, i: nat): nat {
    if i == 0 then first else 2 * Base(first, i - 1)
  }

  lemma {:induction false} BaseAligned(first: nat, i: nat, a: nat)
    requires a >= 1 && Aligned(first, a)
    ensures Aligned(Base(first, i), a)
  {
    if i > 0 {
      BaseAligned(first, i - 1, a);
      var q := AlignedIsTimes(Base(first, i - 1), a);
      MultipleAligned(2 * q, a);
      hide Aligned;
      assert (2 * q) * a == 2 * (q * a);
    }
  }

  lemma {:induction false} BasePositive(first: nat, i: nat)
    ensures first > 0 ==> Base(first, i) > 0
  {
    if i > 0 {
      BasePositive(first, i - 1);
    }
  }

  /** There are as many buckets as fit: sixteen, or up to the first that is at
      least half of the largest capacity. */
  ghost predicate Ladder(first: nat, n: nat) {
    && 1 <= first && 1 <= n <= 16
    && (forall j :: 0 <= j < n - 1 ==> Base(first, j) < MAX_INT / 2)
    && (n == 16 || Base(first, n - 1) >= MAX_INT / 2)
  }

  lemma DoublingFits(c: Int32)
    requires 0 < c < MAX_INT / 2
    ensures Min(MAX_INT, ShiftLeft(c)) == 2 * c
  {
  }

  /** No step of the ladder leaves the 32-bit range, so neither the shift nor
      the cap at the largest integer ever changes a bucket size. */
  lemma LadderFits(first: nat, n: nat, i: nat)
    requires Ladder(first, n) && first <= MAX_INT && i < n
    ensures 0 < Base(first, i) <= MAX_INT
    ensures i + 1 < n ==> Min(MAX_INT, ShiftLeft(Base(first, i))) == Base(first, i + 1)
  {
    BasePositive(first, i);
    if i > 0 {
      assert Base(first, i - 1) < MAX_INT / 2;
    }
  }

  /** The bucket of a rounded capacity: the least whose size covers it, or the
      last. */
  ghost predicate IsBucket(first: nat, n: nat, rounded: nat, i: nat) {
    && i < n
    && (forall j :: 0 <= j < i ==> Base(first, j) < rounded)
    && (i + 1 < n ==> rounded <= Base(first, i))
  }

  /** The bucket is unique, and larger capacities have no lower buckets. */
  lemma BucketMonotone(first: nat, n: nat, r1: nat, i1: nat, r2: nat, i2: nat)
    requires IsBucket(first, n, r1, i1) && IsBucket(first, n, r2, i2) && r1 <= r2
    ensures i1 <= i2
    ensures r1 == r2 ==> i1 == i2
  {
    assert i2 < i1 ==> Base(first, i2) < r1;
    assert i1 < i2 ==> Base(first, i1) < r2;
  }

  // ----- the two facts the allocator rests on -----

  /** A buffer in a higher bucket than the request's is large enough, whatever
      its own alignment. */
  lemma HigherSuffices(first: nat, n: nat, a: nat, capacity: nat, i: nat, request: nat, k: nat)
    requires a >= 1 && Aligned(first, a)
    requires IsBucket(first, n, RoundUp(capacity, a), i) && IsBucket(first, n, request, k) && k < i
    ensures capacity >= request
  {
    assert Base(first, k) < RoundUp(capacity, a);
    BaseAligned(first, k, a);
    RoundUpLeast(capacity, a, Base(first, k));
  }

  /** A buffer in a lower bucket than the request's is too small. */
  lemma LowerFails(first: nat, n: nat, a: nat, capacity: nat, i: nat, request: nat, k: nat)
    requires a >= 1
    requires IsBucket(first, n, RoundUp(capacity, a), i) && IsBucket(first, n, request, k) && i < k
    ensures capacity < request
  {
    assert Base(first, i) < request;
    RoundUpLeast(capacity, a, 0);
  }
}
