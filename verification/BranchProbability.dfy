/** Probabilities as fractions of 2^31, block masses as 64-bit numbers, and the product of the two. */
module BranchProbability {
  import opened Bits

  const TWO32: nat := 0x1_0000_0000
  const MAX32: nat := TWO32 - 1
  const MAX64: nat := 0xffff_ffff_ffff_ffff

  /** The denominator of every probability. */
  const ONE: nat := 0x8000_0000

  /** num * n / d, rounded down, or the largest number where that does not fit; worked out in digits of 32 bits. */
  function Scale(num: nat, n: nat, d: nat): nat
    requires num <= MAX64 && n <= MAX32 && 0 < d <= MAX32
  {
    if num == 0 || d == n then num
    else
      DivideProduct((num / TWO32) * n, (num % TWO32) * n, d)
  }

  /** The quotient of productHigh * 2^32 + productLow, by d. */
  function DivideProduct(productHigh: nat, productLow: nat, d: nat): nat
    requires d > 0
  {
    var upper, lower := (productHigh / TWO32) % TWO32, productLow % TWO32;
    var midPartial := productHigh % TWO32;
    var mid := (midPartial + productLow / TWO32) % TWO32;
    Divide((upper + if mid < midPartial then 1 else 0) % TWO32, mid, lower, d)
  }

  function Quotient(x: nat, d: nat): nat
    requires d > 0
  {
    x / d
  }

  function Remainder(x: nat, d: nat): nat
    requires d > 0
  {
    x % d
  }

  /** The quotient of three digits, by d. */
  function Divide(upper: nat, mid: nat, lower: nat, d: nat): nat
    requires 0 < d
  {
    if upper >= d then MAX64
    else
      var rem := upper * TWO32 + mid;
      var upperQ := Quotient(rem, d);
      if upperQ > MAX32 then MAX64
      else
        var lowerQ := Quotient(Remainder(rem, d) * TWO32 + lower, d);
        var q := (upperQ * TWO32 + lowerQ) % (MAX64 + 1);
        if q < lowerQ then MAX64 else q
  }

  lemma MulAtMost(a: nat, b: nat, x: nat, y: nat)
    requires a <= x && b <= y
    ensures a * b <= x * y
  {
    assert x * y - a * b == x * (y - b) + (x - a) * b;
    assert x * (y - b) >= 0 && (x - a) * b >= 0;
  }

  lemma Distributes(h: nat, l: nat, n: nat)
    ensures (h * TWO32 + l) * n == (h * n) * TWO32 + l * n
  {
  }

  lemma Carry(ph: nat, pl: nat)
    requires ph <= MAX32 * MAX32 && pl <= MAX32 * MAX32
    ensures var midPartial := ph % TWO32;
            var mid := (midPartial + pl / TWO32) % TWO32;
            var upper := ph / TWO32 + if mid < midPartial then 1 else 0;
            && ph * TWO32 + pl == (upper * TWO32 + mid) * TWO32 + pl % TWO32
            && ph / TWO32 < TWO32 && upper < TWO32
  {
  }

  /** Division digit by digit. */
  lemma LongDivision(rem: nat, lower: nat, d: nat)
    requires d > 0
    ensures Quotient(rem * TWO32 + lower, d)
         == Quotient(rem, d) * TWO32 + Quotient(Remainder(rem, d) * TWO32 + lower, d)
    ensures Remainder(rem, d) < d
  {
    var q, r := rem / d, rem % d;
    var q', r' := (r * TWO32 + lower) / d, (r * TWO32 + lower) % d;
    assert rem == d * q + r;
    Regroup(d, q, r, q', r', lower);
    RemainderIs(rem * TWO32 + lower, d, q * TWO32 + q', r');
  }

  lemma Regroup(d: nat, q: nat, r: nat, q': nat, r': nat, lower: nat)
    requires r * TWO32 + lower == d * q' + r'
    ensures (d * q + r) * TWO32 + lower == d * (q * TWO32 + q') + r'
  {
  }

  lemma QuotientBelow(x: nat, d: nat, b: nat)
    requires d > 0
    ensures Quotient(x, d) < b <==> x < d * b
  {
    var q := x / d;
    assert x == d * q + x % d;
    if q < b {
      MulAtMost(d, q + 1, d, b);
      assert d * (q + 1) == d * q + d;
    } else {
      MulAtMost(d, b, d, q);
    }
  }

  /** The digits come to the exact quotient, rounded down. */
  lemma ScaleIsExact(num: nat, n: nat, d: nat)
    requires num <= MAX64 && n <= MAX32 && 0 < d <= MAX32
    ensures var q := Quotient(num * n, d);
            Scale(num, n, d) == if q <= MAX64 then q else MAX64
  {
    hide DivideProduct;
    if num == 0 {
      RemainderIs(0, d, 0, 0);
    } else if d == n {
      RemainderIs(num * n, d, num, 0);
    } else {
      var h, l := num / TWO32, num % TWO32;
      MulAtMost(h, n, MAX32, MAX32);
      MulAtMost(l, n, MAX32, MAX32);
      Distributes(h, l, n);
      ProductIsExact(h * n, l * n, d);
      assert num == h * TWO32 + l;
    }
  }

  lemma ProductIsExact(ph: nat, pl: nat, d: nat)
    requires ph <= MAX32 * MAX32 && pl <= MAX32 * MAX32 && d > 0
    ensures var q := Quotient(ph * TWO32 + pl, d);
            DivideProduct(ph, pl, d) == if q <= MAX64 then q else MAX64
  {
    hide Quotient, Divide;
    Carry(ph, pl);
    var midPartial := ph % TWO32;
    var mid := (midPartial + pl / TWO32) % TWO32;
    DivideIsExact(ph / TWO32 + if mid < midPartial then 1 else 0, mid, pl % TWO32, d);
  }

  lemma DivideIsExact(upper: nat, mid: nat, lower: nat, d: nat)
    requires upper < TWO32 && mid < TWO32 && lower < TWO32 && d > 0
    ensures var q := Quotient((upper * TWO32 + mid) * TWO32 + lower, d);
            Divide(upper, mid, lower, d) == if q <= MAX64 then q else MAX64
  {
    hide Quotient, Remainder;
    var rem := upper * TWO32 + mid;
    LongDivision(rem, lower, d);
    if upper >= d {
      QuotientBelow(rem * TWO32 + lower, d, MAX64 + 1);
      TooLarge(upper, mid, lower, d);
    } else {
      QuotientBelow(rem, d, TWO32);
      DigitsBelow(upper, d, mid);
      QuotientBelow(Remainder(rem, d) * TWO32 + lower, d, TWO32);
      DigitsBelow(Remainder(rem, d), d, lower);
    }
  }

  lemma TooLarge(upper: nat, mid: nat, lower: nat, d: nat)
    requires upper >= d
    ensures (upper * TWO32 + mid) * TWO32 + lower >= d * (MAX64 + 1)
  {
  }

  lemma DigitsBelow(a: nat, d: nat, b: nat)
    requires a < d && b < TWO32
    ensures a * TWO32 + b < d * TWO32
  {
  }

  // ----- Probabilities -----

  /** The numerator of the probability w / total, rounded to nearest. */
  function Numerator(w: nat, total: nat): (n: nat)
    requires 0 < total <= MAX32 && w <= total
  {
    if total == ONE then w else (w * ONE + total / 2) / total
  }

  /** r is x / p to the nearest whole number, upwards from the middle. */
  predicate IsRounded(r: int, x: int, p: nat) {
    2 * (p * r) - p <= 2 * x < 2 * (p * r) + p
  }

  lemma NumeratorRounds(w: nat, total: nat)
    requires 0 < total <= MAX32 && w <= total
    ensures IsRounded(Numerator(w, total), w * ONE, total)
  {
    if total != ONE {
      RoundedQuotient(w * ONE, total);
    }
  }

  lemma RoundedQuotient(x: nat, p: nat)
    requires p > 0
    ensures IsRounded((x + p / 2) / p, x, p)
  {
    var y := x + p / 2;
    assert y == p * (y / p) + y % p;
  }

  lemma NumeratorAtMostOne(w: nat, total: nat)
    requires 0 < total <= MAX32 && w <= total
    ensures Numerator(w, total) <= ONE
    ensures w == total ==> Numerator(w, total) == ONE
  {
    if total != ONE {
      QuotientBelow(w * ONE + total / 2, total, ONE + 1);
      if w == total {
        RemainderIs(w * ONE + total / 2, total, ONE, total / 2);
      }
    }
  }

  /** A mass times the probability w / total. */
  function Part(mass: nat, w: nat, total: nat): nat
    requires mass <= MAX64 && 0 < total <= MAX32 && w <= total
  {
    NumeratorAtMostOne(w, total);
    Scale(mass, Numerator(w, total), ONE)
  }

  /** p is the mass times the fraction nearest to w / total that has 2^31 below, rounded down. */
  ghost predicate IsPart(p: nat, mass: nat, w: nat, total: nat) {
    exists n: nat :: IsRounded(n, w * ONE, total) && n <= ONE && ONE * p <= mass * n < ONE * p + ONE
  }

  lemma PartIs(mass: nat, w: nat, total: nat)
    requires mass <= MAX64 && 0 < total <= MAX32 && w <= total
    ensures IsPart(Part(mass, w, total), mass, w, total)
  {
    hide Numerator, Scale;
    PartAtMost(mass, w, total);
    NumeratorAtMostOne(w, total);
    NumeratorRounds(w, total);
    var n := Numerator(w, total);
    ScaleIsExact(mass, n, ONE);
    MulAtMost(mass, n, mass, ONE);
    QuotientBelow(mass * n, ONE, mass + 1);
    var q := Quotient(mass * n, ONE);
    assert mass * n == ONE * q + (mass * n) % ONE;
  }

  /** So it is the weight's share of the mass, but for less than one and a part in 2^32 of the mass. */
  lemma PartIsShare(p: nat, mass: nat, w: nat, total: nat)
    requires IsPart(p, mass, w, total) && total > 0
    ensures (p * total - mass * w) * TWO32 <= mass * total
    ensures (mass * w - p * total) * TWO32 < mass * total + total * TWO32
  {
    var n: nat :| IsRounded(n, w * ONE, total) && n <= ONE && ONE * p <= mass * n < ONE * p + ONE;
    var e := n * total - w * ONE;
    assert 0 - total <= 2 * e <= total;
    ShareError(p, mass, w, total, n, e);
  }

  lemma ShareError(p: nat, mass: nat, w: nat, total: nat, n: nat, e: int)
    requires e == n * total - w * ONE && 0 - total <= 2 * e <= total && total > 0
    requires ONE * p <= mass * n < ONE * p + ONE
    ensures (p * total - mass * w) * TWO32 <= mass * total
    ensures (mass * w - p * total) * TWO32 < mass * total + total * TWO32
  {
    var r := mass * n - ONE * p;
    assert mass * e == (mass * n) * total - (mass * w) * ONE by {
      assert mass * (n * total) == (mass * n) * total && mass * (w * ONE) == (mass * w) * ONE;
      assert mass * (n * total - w * ONE) == mass * (n * total) - mass * (w * ONE);
    }
    assert (mass * n) * total == ONE * (p * total) + r * total by {
      assert (ONE * p + r) * total == ONE * (p * total) + r * total;
    }
    assert 0 <= r * total && r * total < ONE * total by {
      MulAtMost(r, total, ONE - 1, total);
      assert r * total >= 0;
    }
    Bounded(mass, 2 * e, total);
    assert mass * (2 * e) == 2 * (mass * e);
  }

  lemma Bounded(m: nat, e: int, b: nat)
    requires 0 - b <= e <= b
    ensures 0 - m * b <= m * e <= m * b
  {
    assert m * (b - e) >= 0 && m * (b + e) >= 0;
  }

  /** It is no more than the mass, and all of it where the weight is all there is. */
  lemma PartAtMost(mass: nat, w: nat, total: nat)
    requires mass <= MAX64 && 0 < total <= MAX32 && w <= total
    ensures Part(mass, w, total) <= mass
    ensures w == total ==> Part(mass, w, total) == mass
  {
    NumeratorAtMostOne(w, total);
    var n := Numerator(w, total);
    ScaleIsExact(mass, n, ONE);
    MulAtMost(mass, n, mass, ONE);
    QuotientBelow(mass * n, ONE, mass + 1);
  }
}
