/** How os/lib/trickle-timer.c keeps Imin * 2^Imax within half the range of the clock: the check of the
    pair and the generic search for the largest Imax. */
module TrickleImax {
  import opened Bits

  // ---------------------------------------------------------------------------------------------
  // The largest Imax

  lemma Pow2Add(m: nat, n: nat)
    ensures Pow2(m + n) == Pow2(m) * Pow2(n)
  {
    if n > 0 {
      Pow2Add(m, n - 1);
    }
  }

  /** `TRICKLE_TIMER_IPAIR_IS_BAD` */
  predicate PairIsBad(iMin: nat, iMax: nat, width: nat) {
    (Pow2(width) - 1) / Pow2(iMax + 1) < iMin - 1
  }

  lemma LessTimes(a: nat, b: nat, c: nat)
    requires c > 0
    ensures a * c <= b * c <==> a <= b
  {
    MultipleIsFar(a - b, c);
    assert (a - b) * c == a * c - b * c;
  }

  lemma FloorOfAllOnes(p: nat, q: nat)
    requires p > 0 && q > 0
    ensures q * p * 2 > 0 && (q * p * 2 - 1) / (2 * p) == q - 1
  {
    var d := 2 * p;
    assert (q - 1) * d == q * p * 2 - d;
    ModIsUnique(q * p * 2 - 1, d, q - 1, d - 1);
  }

  /** The shift and comparison find exactly the pairs for which Imin * 2^Imax is over half the clock's range. */
  lemma BadPairsAreTooLong(iMin: nat, iMax: nat, width: nat)
    requires iMin >= 2 && width >= 1
    ensures PairIsBad(iMin, iMax, width) <==> iMin * Pow2(iMax) > Pow2(width - 1)
  {
    if iMax + 1 <= width {
      var p, q := Pow2(iMax), Pow2(width - 1 - iMax);
      Pow2Add(width - 1 - iMax, iMax);
      assert Pow2(width) == q * p * 2;
      FloorOfAllOnes(p, q);
      LessTimes(iMin, q, p);
    } else {
      var p := Pow2(iMax);
      Pow2Monotone(width, iMax);
      ModIsUnique(Pow2(width) - 1, 2 * p, 0, Pow2(width) - 1);
      LessTimes(2, iMin, p);
    }
  }

  /** One step of the count: the top `i` bits of a value are clear exactly when it is below 2^(width - i). */
  lemma TopBitsClear(value: nat, i: nat, width: nat)
    requires i <= width && value < Pow2(width)
    ensures Pow2(width - i) <= Pow2(width)
    ensures And(value, Pow2(width) - Pow2(width - i)) == 0 <==> value < Pow2(width - i)
  {
    hide And, Pow2, RoundedDown;
    AndHighMask(value, width - i, width);
    RoundedToNothing(value, Pow2(width - i));
  }

  lemma RoundedToNothing(x: nat, d: nat)
    requires d > 0
    ensures RoundedDown(x, d) == 0 <==> x < d
  {
    DivModParts(x, d);
    if x < d {
      ModIsUnique(x, d, 0, x);
    }
  }

  /** The mask of the top `2 * i` bits, shifted left by `i`, is the mask of the top `i` bits. */
  lemma MaskMoves(i: nat, width: nat)
    requires 2 * i <= width
    ensures (Pow2(width) - Pow2(width - 2 * i)) * Pow2(i) % Pow2(width) == Pow2(width) - Pow2(width - i)
  {
    hide Pow2;
    Pow2Add(width - 2 * i, i);
    Pow2Add(width - i, i);
    MaskValue(Pow2(i), Pow2(width - 2 * i), Pow2(width - i), Pow2(width));
  }

  lemma MaskValue(a: nat, b: nat, c: nat, n: nat)
    requires a > 0 && c > 0 && c == b * a && n == c * a
    ensures c <= n && (n - b) * a % n == n - c
  {
    LessTimes(1, a, c);
    assert (n - b) * a == n * a - b * a;
    assert (a - 1) * n == n * a - n;
    ModIsUnique((n - b) * a, n, a - 1, n - c);
  }

  lemma Pow2Values()
    ensures Pow2(0) == 1 && Pow2(1) == 2 && Pow2(8) == 0x100 && Pow2(16) == 0x1_0000
    ensures Pow2(15) == 0x8000 && Pow2(31) == 0x8000_0000 && Pow2(32) == 0x1_0000_0000
  {
    hide Pow2;
    Pow2Of8();
    Pow2Add(8, 8);
    Pow2Add(16, 16);
    PreviousPow2(16);
    PreviousPow2(32);
  }

  lemma Pow2Of8()
    ensures Pow2(0) == 1 && Pow2(1) == 2 && Pow2(8) == 0x100
  {
  }

  lemma PreviousPow2(n: nat)
    requires n > 0
    ensures Pow2(n) == 2 * Pow2(n - 1)
  {
  }

  /** A value with `i` clear top bits can be shifted left by `i`. */
  lemma ValueMoves(v: nat, zeros: nat, i: nat, width: nat)
    requires 2 * i <= width && Pow2(width - 2 * i) <= v * Pow2(zeros) < Pow2(width - i)
    ensures v * Pow2(zeros) * Pow2(i) % Pow2(width) == v * Pow2(zeros + i)
    ensures Pow2(width - i) <= v * Pow2(zeros + i) < Pow2(width)
  {
    hide Pow2;
    Pow2Add(zeros, i);
    Pow2Add(width - 2 * i, i);
    Pow2Add(width - i, i);
    MovedValue(v, Pow2(zeros), Pow2(i), Pow2(width - 2 * i), Pow2(width - i));
  }

  lemma MovedValue(v: nat, z: nat, p: nat, low: nat, high: nat)
    requires p > 0 && low <= v * z < high
    ensures v * z * p == v * (z * p) && low * p <= v * (z * p) < high * p && high * p > 0
    ensures v * z * p % (high * p) == v * (z * p)
  {
    var value := v * z;
    assert value * p == v * (z * p);
    LessTimes(low, value, p);
    LessTimes(high, value, p);
    ModIsUnique(value * p, high * p, 0, value * p);
  }

  /** The count of leading zeros of Imin - 1, less one, is the answer. */
  lemma CountedZeros(iMin: nat, zeros: nat, width: nat)
    requires 1 <= zeros <= width && iMin >= 2
    requires Pow2(width - 1) <= (iMin - 1) * Pow2(zeros) < Pow2(width)
    ensures iMin * Pow2(zeros - 1) <= Pow2(width - 1) < iMin * Pow2(zeros)
  {
    var z, q := Pow2(zeros), Pow2(width - zeros);
    Pow2Add(width - zeros, zeros);
    Pow2Add(width - zeros, zeros - 1);
    LessTimes(q, iMin - 1, z);
    LessTimes(iMin, q, Pow2(zeros - 1));
    LessTimes(iMin, iMin - 1, z);
  }

  /** The count so far, when the `last` top bits tried have not all been zero. */
  ghost predicate Counted(v: nat, zeros: nat, value: nat, last: nat, width: nat) {
    zeros + last <= width && value == v * Pow2(zeros) && Pow2(width - last) <= value < Pow2(width)
  }

  /** The mask, moved by `i`, covers the top `i` bits. */
  ghost predicate MaskReady(mask: nat, i: nat, width: nat) {
    i <= width && mask * Pow2(i) % Pow2(width) == Pow2(width) - Pow2(width - i)
  }

  lemma CountStarts(v: nat, width: nat)
    requires (width == 16 || width == 32) && 0 < v < Pow2(width)
    ensures Counted(v, 0, v, width, width) && MaskReady(0xffff, width / 8 * 4, width)
  {
    hide Pow2;
    Pow2Values();
  }

  lemma CountGoesOn(v: nat, zeros: nat, value: nat, i: nat, width: nat)
    requires i > 0 && Counted(v, zeros, value, 2 * i, width)
    ensures Pow2(width - i) <= Pow2(width)
    ensures if And(value, Pow2(width) - Pow2(width - i)) == 0
            then Counted(v, zeros + i, value * Pow2(i) % Pow2(width), i, width)
            else Counted(v, zeros, value, i, width)
  {
    hide Pow2, And;
    TopBitsClear(value, i, width);
    if value < Pow2(width - i) {
      ValueMoves(v, zeros, i, width);
    }
  }

  /** `max_imax`, the generic one: how often a value can be doubled without going over half the clock's range. */
  method MaxImax(iMin: nat, width: nat) returns (iMax: nat)
    requires width == 16 || width == 32
    requires 2 <= iMin <= (Pow2(width) - 1) / 2
    ensures iMin * Pow2(iMax) <= Pow2(width - 1) < iMin * Pow2(iMax + 1)
    ensures iMax < width
  {
    hide Pow2, And, Counted, MaskReady;
    var zeros: nat, mask: nat, value: nat := 0, 0xffff, iMin - 1;
    var i := width / 8 * 4;
    CountStarts(iMin - 1, width);
    while i > 0
      invariant i == 0 || i == 1 || i == 2 || i == 4 || i == 8 || i == 16
      invariant i < width && (i > 0 ==> MaskReady(mask, i, width))
      invariant Counted(iMin - 1, zeros, value, if i > 0 then 2 * i else 1, width)
    {
      MoveMask(mask, i, width);
      CountGoesOn(iMin - 1, zeros, value, i, width);
      mask := mask * Pow2(i) % Pow2(width);
      if And(value, mask) == 0 {
        zeros := zeros + i;
        value := value * Pow2(i) % Pow2(width);
      }
      i := i / 2;
    }
    CountEnds(iMin, zeros, value, width);
    iMax := zeros - 1;
  }

  lemma MoveMask(mask: nat, i: nat, width: nat)
    requires i > 0 && MaskReady(mask, i, width)
    ensures var moved := mask * Pow2(i) % Pow2(width);
            moved == Pow2(width) - Pow2(width - i) && (i % 2 == 0 ==> MaskReady(moved, i / 2, width))
  {
    hide Pow2;
    if i % 2 == 0 {
      MaskMoves(i / 2, width);
    }
  }

  lemma CountEnds(iMin: nat, zeros: nat, value: nat, width: nat)
    requires width > 0 && 2 <= iMin <= (Pow2(width) - 1) / 2 && Counted(iMin - 1, zeros, value, 1, width)
    ensures 1 <= zeros <= width && iMin * Pow2(zeros - 1) <= Pow2(width - 1) < iMin * Pow2(zeros)
  {
    hide Pow2;
    PreviousPow2(width);
    if zeros == 0 {
      Pow2Values();
    }
    CountedZeros(iMin, zeros, width);
  }

  /** It is the largest exponent that fits. */
  lemma LargestImax(iMin: nat, iMax: nat, other: nat, bound: nat)
    requires iMin * Pow2(iMax) <= bound < iMin * Pow2(iMax + 1)
    ensures iMin * Pow2(other) <= bound <==> other <= iMax
  {
    if other <= iMax {
      Pow2Monotone(other, iMax);
      TimesMonotone(iMin, Pow2(other), Pow2(iMax));
    } else {
      Pow2Monotone(iMax + 1, other);
      TimesMonotone(iMin, Pow2(iMax + 1), Pow2(other));
    }
  }

  lemma TimesMonotone(c: nat, a: nat, b: nat)
    requires a <= b
    ensures c * a <= c * b
  {
    assert c * (b - a) == c * b - c * a;
  }
}
