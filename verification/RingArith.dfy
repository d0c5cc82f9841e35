/** The index arithmetic of the ring (cpp/include/spsc_queue.h): 64-bit unsigned values,
    a power-of-two capacity, and masking in place of remainders. */
module RingArith {
  const WORD: nat := 0x1_0000_0000_0000_0000

  /** Bitwise and. */
  function And(x: nat, y: nat): (r: nat)
    decreases x
  {
    if x == 0 || y == 0 then 0 else 2 * And(x / 2, y / 2) + (x % 2) * (y % 2)
  }

  function Pow2(k: nat): (p: nat)
    ensures p > 0
  {
    if k == 0 then 1 else 2 * Pow2(k - 1)
  }

  /** a - b on unsigned 64-bit words. */
  function SubWrap(a: nat, b: nat): nat
    requires a < WORD && b < WORD
  {
    if a >= b then a - b else a - b + WORD
  }

  /** Masking with 2^k - 1 is the remainder modulo 2^k. */
  lemma {:induction false} MaskIsRemainder(x: nat, k: nat)
    ensures And(x, Pow2(k) - 1) == x % Pow2(k)
    decreases k
  {
    if k > 0 {
      var h := Pow2(k - 1);
      MaskIsRemainder(x / 2, k - 1);
      AndHalf(x, h);
      HalfRemainder(x, h);
    } else {
      assert x % 1 == 0;
    }
  }

  lemma AndHalf(x: nat, h: nat)
    requires h > 0
    ensures And(x, 2 * h - 1) == 2 * And(x / 2, h - 1) + x % 2
  {
    HalfMask(h);
    var y := 2 * h - 1;
    assert y % 2 == 1 && (x % 2) * (y % 2) == x % 2;
  }

  lemma HalfMask(h: nat)
    requires h > 0
    ensures (2 * h - 1) / 2 == h - 1 && (2 * h - 1) % 2 == 1
  {
  }

  lemma HalfRemainder(x: nat, h: nat)
    requires h > 0
    ensures x % (2 * h) == 2 * ((x / 2) % h) + x % 2
  {
    var q, r := (x / 2) / h, (x / 2) % h;
    assert x == 2 * (q * h + r) + x % 2;
    RemainderIs(x, 2 * h, q, 2 * r + x % 2);
  }

  /** The remainder is the only r in range with x == q * n + r. */
  lemma RemainderIs(x: int, n: nat, q: int, r: int)
    requires n > 0 && 0 <= r < n && x == q * n + r
    ensures x % n == r
  {
    var d := q - x / n;
    Distribute(q, x / n, n);
    assert d * n == x % n - r;
    if d >= 1 { AtLeast(d, n); }
    if d <= -1 { AtLeast(-d, n); }
  }

  lemma Distribute(a: int, b: int, n: int)
    ensures (a - b) * n == a * n - b * n
  {
  }

  lemma AtLeast(d: int, n: int)
    requires d >= 1 && n > 0
    ensures d * n >= n && (-d) * n <= -n
  {
    assert (d - 1) * n >= 0;
    Distribute(d, 1, n);
  }

  lemma AddMultiple(x: int, n: nat, m: int)
    requires n > 0
    ensures (x + m * n) % n == x % n
  {
    RemainderIs(x + m * n, n, x / n + m, x % n);
  }

  lemma WordMultiple(k: nat)
    requires k <= 64
    ensures WORD == Pow2(64 - k) * Pow2(k)
  {
    PowSum(64 - k, k);
    WordIsPow2();
  }

  lemma WordIsPow2()
    ensures Pow2(64) == WORD
  {
    assert Pow2(8) == 256;
    PowSum(8, 8);
    PowSum(16, 16);
    PowSum(32, 32);
  }

  lemma {:induction false} PowSum(a: nat, b: nat)
    ensures Pow2(a + b) == Pow2(a) * Pow2(b)
  {
    if a > 0 {
      PowSum(a - 1, b);
      Halve(Pow2(a - 1), Pow2(b));
    }
  }

  lemma Halve(x: int, y: int)
    ensures 2 * (x * y) == (2 * x) * y
  {
  }

  /** Masking a difference is the difference modulo the capacity, even when the subtraction wraps. */
  lemma {:induction false} MaskedDifference(a: nat, b: nat, k: nat)
    requires a < WORD && b < WORD && k <= 64
    ensures And(SubWrap(a, b), Pow2(k) - 1) == (a - b) % Pow2(k)
  {
    MaskIsRemainder(SubWrap(a, b), k);
    WordMultiple(k);
    AddMultiple(a - b, Pow2(k), Pow2(64 - k));
  }

  /** a + b on unsigned 64-bit words. */
  function AddWrap(a: nat, b: nat): nat { (a + b) % WORD }

  /** The slot i places after slot h, and the number of places from h to t, in a ring of cap slots. */
  function Slot(h: nat, i: nat, cap: nat): (r: nat)
    requires h < cap && i <= cap
    ensures r < cap
  {
    if h + i < cap then h + i else h + i - cap
  }

  function Dist(h: nat, t: nat, cap: nat): (r: nat)
    requires h < cap && t < cap
    ensures r < cap && Slot(h, r, cap) == t
  {
    if t >= h then t - h else t - h + cap
  }

  /** The masked index computations of the queue are these two functions, for every capacity
      that normalize_capacity can return. */
  lemma {:induction false} MaskedIndex(h: nat, i: nat, k: nat)
    requires k <= 63 && h < Pow2(k) && i <= Pow2(k)
    ensures And(AddWrap(h, i), Pow2(k) - 1) == Slot(h, i, Pow2(k))
  {
    var cap := Pow2(k);
    Pow63();
    PowBound(k, 63);
    NoWrap(h + i);
    MaskIsRemainder(h + i, k);
    SlotIsRemainder(h, i, cap);
  }

  lemma NoWrap(x: nat)
    requires x < WORD
    ensures x % WORD == x
  {
  }

  lemma SlotIsRemainder(h: nat, i: nat, cap: nat)
    requires h < cap && i <= cap
    ensures (h + i) % cap == Slot(h, i, cap)
  {
    if h + i < cap {
      RemainderIs(h + i, cap, 0, h + i);
    } else {
      RemainderIs(h + i, cap, 1, h + i - cap);
    }
  }

  lemma {:induction false} MaskedDistance(h: nat, t: nat, k: nat)
    requires k <= 63 && h < Pow2(k) && t < Pow2(k)
    ensures h < WORD && t < WORD && And(SubWrap(t, h), Pow2(k) - 1) == Dist(h, t, Pow2(k))
  {
    Pow63();
    PowBound(k, 63);
    MaskedDifference(t, h, k);
    RemainderIs(t - h, Pow2(k), if t >= h then 0 else -1, Dist(h, t, Pow2(k)));
  }

  // ---- normalize_capacity ---------------------------------------------------------

  /** The loop variable after k doublings of a 64-bit word that starts at 1. */
  function Doubled(k: nat): nat { if k < 64 then Pow2(k) else 0 }

  lemma {:induction false} PowBound(j: nat, k: nat)
    requires j <= k
    ensures Pow2(j) <= Pow2(k)
    ensures j < k ==> 2 * Pow2(j) <= Pow2(k)
  {
    if j < k { PowBound(j, k - 1); }
  }

  lemma Pow63()
    ensures Pow2(63) == WORD / 2
  {
    WordMultiple(63);
    assert Pow2(1) == 2 * Pow2(0);
  }

  /** Doubled is what shifting left by one computes in 64 bits. */
  lemma DoublingStep(k: nat)
    ensures Doubled(k) < WORD && Doubled(k + 1) == (2 * Doubled(k)) % WORD
  {
    Pow63();
    if k < 64 { PowBound(k, 63); }
  }

  /** The least power of two that is at least max(cap, 2). */
  method NormalizeCapacity(cap: nat) returns (n: nat)
    requires cap <= WORD / 2
    ensures n >= cap && n >= 2 && n < WORD
    ensures exists k: nat :: 1 <= k <= 63 && n == Pow2(k)
    ensures forall k: nat :: Pow2(k) >= cap && Pow2(k) >= 2 ==> n <= Pow2(k)
  {
    var c := if cap < 2 then 2 else cap;
    n := 1;
    ghost var k: nat := 0;
    Pow63();
    while n < c
      invariant k <= 63 && n == Pow2(k) && n < WORD
      invariant k > 0 ==> Pow2(k - 1) < c
      decreases 63 - k
    {
      if k == 63 { assert false; }
      DoublingStep(k);
      PowBound(k + 1, 63);
      n := (n * 2) % WORD;
      k := k + 1;
    }
    forall j: nat | Pow2(j) >= c ensures n <= Pow2(j) {
      if j < k { PowBound(j, k - 1); } else { PowBound(k, j); }
    }
  }

  /** The loop exits for exactly the capacities up to 2^63; beyond that the shifted word
      falls to zero and stays below every request. */
  lemma TerminatesExactlyUpTo(cap: nat)
    requires cap < WORD
    ensures (exists k: nat :: Doubled(k) >= cap && Doubled(k) >= 2) <==> cap <= WORD / 2
  {
    Pow63();
    if cap <= WORD / 2 {
      assert Doubled(63) >= cap;
    } else {
      forall k: nat ensures Doubled(k) < cap {
        if k < 64 { PowBound(k, 63); }
      }
    }
  }
}
