/** C's `&` on two's-complement integers, and the masks the sources build from powers of two. */
module Bits {

  function Pow2(n: nat): (p: nat)
    ensures p >= 1
  {
    if n == 0 then 1 else 2 * Pow2(n - 1)
  }

  /** Bitwise `x & mask`.  `x` may be negative: halving rounds down, which is an arithmetic shift,
      so the bits of `x` are those of its two's complement of any width. */
  function And(x: int, mask: nat): nat
    decreases mask
  {
    if mask == 0 then 0 else (x % 2) * (mask % 2) + 2 * And(x / 2, mask / 2)
  }

  lemma MultipleIsFar(n: int, d: int)
    requires d >= 0
    ensures n > 0 ==> n * d >= d
    ensures n < 0 ==> n * d <= -d
  {
    if n > 0 {
      assert (n - 1) * d == n * d - d;
    } else if n < 0 {
      assert (-n - 1) * d == -(n * d) - d;
    }
  }

  lemma ModIsUnique(x: int, d: nat, q: int, r: nat)
    requires r < d && x == q * d + r
    ensures x % d == r && x / d == q
  {
    var q', r' := x / d, x % d;
    assert x == q' * d + r';
    assert (q - q') * d == r' - r;
    MultipleIsFar(q - q', d);
  }

  lemma Pow2Monotone(k: nat, w: nat)
    requires k <= w
    ensures Pow2(k) <= Pow2(w)
    decreases w
  {
    if k < w {
      Pow2Monotone(k, w - 1);
    }
  }

  lemma DivModParts(x: int, d: nat)
    requires d > 0
    ensures x == x / d * d + x % d && 0 <= x % d < d
  {
  }

  predicate Multiple(x: int, d: nat)
    requires d > 0
  {
    x % d == 0
  }

  lemma MultiplesAdd(x: int, y: int, d: nat)
    requires d > 0 && Multiple(x, d) && Multiple(y, d)
    ensures Multiple(x + y, d) && Multiple(x - y, d)
  {
    DivModParts(x, d);
    DivModParts(y, d);
    ModIsUnique(x + y, d, x / d + y / d, 0);
    ModIsUnique(x - y, d, x / d - y / d, 0);
  }

  /** The remainder modulo `2 * half`, from the remainder of `x / 2` modulo `half`. */
  lemma ModByHalves(x: int, half: nat)
    requires half > 0
    ensures x % (2 * half) == 2 * (x / 2 % half) + x % 2
  {
    var q, r := x / 2 / half, x / 2 % half;
    assert x / 2 == q * half + r;
    assert x == q * (2 * half) + (2 * r + x % 2);
    ModIsUnique(x, 2 * half, q, 2 * r + x % 2);
  }

  lemma {:induction false} AndOdd(x: int, m: nat)
    ensures And(x, 2 * m + 1) == x % 2 + 2 * And(x / 2, m)
  {
    assert (2 * m + 1) / 2 == m && (2 * m + 1) % 2 == 1;
  }

  lemma {:induction false} AndNone(x: int)
    ensures And(x, 0) == 0
  {
  }

  /** Masking with `2^k - 1` is reduction modulo `2^k`, for negative numbers too. */
  lemma {:induction false} AndLowMask(x: int, k: nat)
    ensures And(x, Pow2(k) - 1) == x % Pow2(k)
    decreases k
  {
    hide And;
    if k == 0 {
      AndNone(x);
    } else {
      var half := Pow2(k - 1);
      AndLowMask(x / 2, k - 1);
      ModByHalves(x, half);
      AndOdd(x, half - 1);
    }
  }

  /** Masking with `~(2^k - 1)`, taken at width `w`, rounds down to a multiple of `2^k`. */
  lemma {:induction false} AndHighMask(x: nat, k: nat, w: nat)
    requires k <= w && x < Pow2(w)
    ensures Pow2(k) <= Pow2(w)
    ensures And(x, Pow2(w) - Pow2(k)) == RoundedDown(x, Pow2(k))
  {
    hide And, RoundedDown;
    Pow2Monotone(k, w);
    if k == 0 {
      AndLowMask(x, w);
      ModIsUnique(x, Pow2(w), 0, x);
      RoundedToOne(x);
    } else {
      Pow2Monotone(k - 1, w - 1);
      AndHighMask(x / 2, k - 1, w - 1);
      RoundedByHalves(x, Pow2(k - 1));
      HighMaskStep(x, k, w);
    }
  }

  /** The largest multiple of `d` that is not above `x`. */
  function RoundedDown(x: nat, d: nat): int
    requires d > 0
  {
    x - x % d
  }

  lemma RoundedToOne(x: nat)
    ensures RoundedDown(x, 1) == x
  {
  }

  lemma RoundedByHalves(x: nat, half: nat)
    requires half > 0
    ensures RoundedDown(x, 2 * half) == 2 * RoundedDown(x / 2, half)
  {
    ModByHalves(x, half);
  }

  lemma HighMaskStep(x: nat, k: nat, w: nat)
    requires 0 < k <= w && Pow2(k) <= Pow2(w) && Pow2(k - 1) <= Pow2(w - 1)
    ensures And(x, Pow2(w) - Pow2(k)) == 2 * And(x / 2, Pow2(w - 1) - Pow2(k - 1))
  {
    hide And;
    AndEven(x, Pow2(w - 1) - Pow2(k - 1));
  }

  lemma {:induction false} AndEven(x: nat, m: nat)
    ensures And(x, 2 * m) == 2 * And(x / 2, m)
  {
    if m == 0 {
      AndNone(x / 2);
    }
  }
}
