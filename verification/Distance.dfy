/** When two accesses, some distance apart in a 64-bit address space, have no byte in common. */
module Distance {
  import opened Bits

  /** The length of an access that may be of any length. */
  const UNKNOWN_SIZE: nat := TWO64 - 1

  ghost predicate SameByte(d: int, i: int, j: int) {
    Cong(d + i, j, TWO64)
  }

  /** n1 bytes, starting d after another n2 bytes, have none in common with them, around the end of the address
      space too. */
  ghost predicate Disjoint(d: int, n1: nat, n2: nat) {
    forall i: nat, j: nat | i < n1 && j < n2 :: !SameByte(d, i, j)
  }

  lemma GapDisjoint(d: int, n1: nat, n2: nat)
    requires n2 <= d % TWO64 && d % TWO64 + n1 <= TWO64
    ensures Disjoint(d, n1, n2)
  {
    forall i: nat, j: nat | i < n1 && j < n2
      ensures !SameByte(d, i, j)
    {
      SameByteNear(d, i, j);
    }
  }

  lemma SameByteNear(d: int, i: int, j: int)
    ensures SameByte(d, i, j) && j - TWO64 < d % TWO64 + i < j + TWO64 ==> d % TWO64 + i == j
  {
    if SameByte(d, i, j) && j - TWO64 < d % TWO64 + i < j + TWO64 {
      CongRem(d, TWO64);
      CongSame(i, TWO64);
      CongAdd(d % TWO64, d, i, i, TWO64);
      CongTrans(d % TWO64 + i, d + i, j, TWO64);
      CongClose(d % TWO64 + i, j, TWO64);
    }
  }

  lemma EmptyDisjoint(d: int, n1: nat, n2: nat)
    requires n1 == 0 || n2 == 0
    ensures Disjoint(d, n1, n2)
  {
  }

  lemma CongDisjoint(d: int, d': int, n1: nat, n2: nat)
    requires Cong(d, d', TWO64) && Disjoint(d', n1, n2)
    ensures Disjoint(d, n1, n2)
  {
    forall i: nat, j: nat | i < n1 && j < n2
      ensures !SameByte(d, i, j)
    {
      assert !SameByte(d', i, j);
      CongSameByte(d, d', i, j);
    }
  }

  lemma CongSameByte(d: int, d': int, i: int, j: int)
    requires Cong(d, d', TWO64)
    ensures SameByte(d, i, j) ==> SameByte(d', i, j)
  {
    if SameByte(d, i, j) {
      CongSym(d, d', TWO64);
      CongSame(i, TWO64);
      CongAdd(d', d, i, i, TWO64);
      CongTrans(d' + i, d + i, j, TWO64);
    }
  }

  /** A distance of at least `gap` both ways around leaves room for accesses no longer than that. */
  lemma FarDisjoint(d: int, gap: int, n1: nat, n2: nat)
    requires n1 <= gap && n2 <= gap
    requires gap <= d <= TWO64 - gap || gap <= -d <= TWO64 - gap
    ensures Disjoint(d, n1, n2)
  {
    if n1 == 0 || n2 == 0 {
      EmptyDisjoint(d, n1, n2);
    } else {
      var r := if d >= 0 then d else d + TWO64;
      RemainderIs(d, TWO64, if d >= 0 then 0 else -1, r);
      GapDisjoint(d, n1, n2);
    }
  }

  // ----- Two variables a constant apart -----

  function Abs(x: int): nat {
    if x < 0 then 0 - x else x
  }

  /** The least distance between two w-bit words that differ by d. */
  function MinDiff(d: nat, w: nat): nat
    requires d < Pow2(w)
  {
    var wrapped := (0 - d) % Pow2(w);
    if d <= wrapped then d else wrapped
  }

  /** The least distance in bytes, in 64-bit arithmetic. */
  function GapBytes(d: nat, w: nat, scale: int): nat
    requires d < Pow2(w)
  {
    (MinDiff(d, w) * Abs(scale)) % TWO64
  }

  /** The test, in 64-bit arithmetic: both accesses, and the constant, fit into the least distance. */
  predicate GapSuffices(d: nat, w: nat, scale: int, n1: nat, n2: nat, base: int)
    requires d < Pow2(w)
  {
    (n1 + Abs(base)) % TWO64 <= GapBytes(d, w, scale) && (n2 + Abs(base)) % TWO64 <= GapBytes(d, w, scale)
  }

  /** Where a test on one difference is passed, so is that on one no nearer. */
  lemma GapWider(r: nat, d: nat, w: nat, scale: int, n1: nat, n2: nat, base: int)
    requires r < Pow2(w) && d < Pow2(w) && GapBytes(r, w, scale) <= GapBytes(d, w, scale)
    requires GapSuffices(r, w, scale, n1, n2, base)
    ensures GapSuffices(d, w, scale, n1, n2, base)
  {
  }

  lemma MinDiffIs(d: nat, w: nat)
    requires d < Pow2(w)
    ensures MinDiff(d, w) == if d == 0 then 0 else if d <= Pow2(w) - d then d else Pow2(w) - d
  {
    if d > 0 {
      RemainderIs(0 - d, Pow2(w), -1, Pow2(w) - d);
    } else {
      RemainderIs(0, Pow2(w), 0, 0);
    }
  }

  /** Words that differ by d modulo 2^w are at least the least distance apart, and at least as far from differing by
      2^wide, for any wide no less than w. */
  lemma ApartAtLeast(diff: int, d: nat, w: nat, wide: nat)
    requires w <= wide && d < Pow2(w)
    requires Cong(diff, d, Pow2(w)) && 0 - Pow2(wide) < diff < Pow2(wide)
    ensures MinDiff(d, w) <= Abs(diff) <= Pow2(wide) - MinDiff(d, w)
  {
    MinDiffIs(d, w);
    NotBelow(diff, d, w);
    Shifted(diff, d, w, wide, 1);
    Shifted(diff, d, w, wide, -1);
    NotBelow(diff - Pow2(wide), d, w);
    NotBelow(diff + Pow2(wide), d, w);
  }

  lemma Shifted(diff: int, d: nat, w: nat, wide: nat, k: int)
    requires w <= wide && Cong(diff, d, Pow2(w))
    ensures Cong(diff + k * Pow2(wide), d, Pow2(w))
  {
    hide *;
    PowAdd(w, wide - w);
    Associative(Pow2(w), Pow2(wide - w), k);
    CongIntro(diff + k * Pow2(wide), diff, Pow2(wide - w) * k, Pow2(w));
    CongTrans(diff + k * Pow2(wide), diff, d, Pow2(w));
  }

  lemma NotBelow(diff: int, d: nat, w: nat)
    requires d < Pow2(w) && Cong(diff, d, Pow2(w))
    ensures MinDiff(d, w) <= Abs(diff)
  {
    MinDiffIs(d, w);
    if diff >= 0 && diff < d {
      CongClose(diff, d, Pow2(w));
    } else if diff < 0 && -diff < Pow2(w) - d {
      CongClose(diff, d, Pow2(w));
    }
  }

  /** The test is right where scale * 2^wide fits into the address space. */
  lemma GapSound(diff: int, d: nat, w: nat, wide: nat, scale: int, n1: nat, n2: nat, base: int)
    requires w <= wide && d < Pow2(w)
    requires Cong(diff, d, Pow2(w)) && 0 - Pow2(wide) < diff < Pow2(wide)
    requires n1 + Abs(base) < TWO64 && n2 + Abs(base) < TWO64
    requires Abs(scale) * Pow2(wide) <= TWO64
    requires GapSuffices(d, w, scale, n1, n2, base)
    ensures Disjoint(base + scale * diff, n1, n2)
  {
    var m, s, P := MinDiff(d, w), Abs(scale), Pow2(wide);
    ApartAtLeast(diff, d, w, wide);
    Bytes(m, s, n1, n2, base);
    ScaledApart(m, diff, P, scale);
    RemainderIs(m * s, TWO64, 0, m * s);
    FarFromBase(scale * diff, m * s, base, n1, n2);
  }

  lemma Bytes(m: nat, s: nat, n1: nat, n2: nat, base: int)
    requires n1 + Abs(base) < TWO64 && n2 + Abs(base) < TWO64
    ensures (n1 + Abs(base)) % TWO64 == n1 + Abs(base) && (n2 + Abs(base)) % TWO64 == n2 + Abs(base)
    ensures (m * s) % TWO64 <= m * s
  {
    RemainderAtMost(m * s, TWO64);
  }

  lemma ScaledApart(m: nat, diff: int, P: nat, scale: int)
    requires m <= Abs(diff) <= P - m
    requires Abs(scale) * P <= TWO64
    ensures m * Abs(scale) <= Abs(scale * diff) <= TWO64 - m * Abs(scale)
  {
    var s := Abs(scale);
    MulMonotone(m, Abs(diff), s);
    MulMonotone(Abs(diff), P - m, s);
    assert s * (P - m) == s * P - s * m;
    AbsProduct(scale, diff);
  }

  lemma FarFromBase(p: int, bytes: nat, base: int, n1: nat, n2: nat)
    requires bytes <= Abs(p) <= TWO64 - bytes
    requires n1 + Abs(base) <= bytes && n2 + Abs(base) <= bytes
    ensures Disjoint(base + p, n1, n2)
  {
    FarDisjoint(base + p, bytes - Abs(base), n1, n2);
  }

  /** It is also right where the distance itself stays within half the address space, even on a difference recorded as
      another one, if that is no further apart. */
  lemma GapSoundWithoutWrap(diff: int, r: nat, d: nat, w: nat, scale: int, n1: nat, n2: nat, base: int)
    requires r < Pow2(w) && d < Pow2(w) && Cong(diff, d, Pow2(w))
    requires n1 < TWO63 && n2 < TWO63 && Abs(base) <= TWO63
    requires 0 - TWO63 <= base + scale * diff <= TWO63
    requires GapSuffices(r, w, scale, n1, n2, base) && GapBytes(r, w, scale) <= MinDiff(d, w) * Abs(scale)
    ensures Disjoint(base + scale * diff, n1, n2)
  {
    hide Disjoint, MinDiff, Pow2, Cong;
    var m, s := MinDiff(d, w), Abs(scale);
    NotBelow(diff, d, w);
    MulMonotone(m, Abs(diff), s);
    AbsProduct(scale, diff);
    Bytes(m, s, n1, n2, base);
    NearDisjoint(scale * diff, base, n1, n2);
  }

  lemma NearDisjoint(p: int, base: int, n1: nat, n2: nat)
    requires n1 <= TWO63 && n2 <= TWO63 && 0 - TWO63 <= base + p <= TWO63
    requires n1 + Abs(base) <= Abs(p) && n2 + Abs(base) <= Abs(p)
    ensures Disjoint(base + p, n1, n2)
  {
    FarDisjoint(base + p, if n1 <= n2 then n2 else n1, n1, n2);
  }

  lemma RemainderAtMost(x: nat, m: nat)
    requires m > 0
    ensures x % m <= x
  {
    assert x == m * (x / m) + x % m;
    AtLeastOnce(m, x / m);
  }

  lemma MulMonotone(a: int, b: int, s: nat)
    ensures a <= b ==> s * a <= s * b
    ensures a * s == s * a
  {
    if a <= b {
      assert s * (b - a) >= 0;
    }
  }

  lemma AbsProduct(a: int, b: int)
    ensures Abs(a * b) == Abs(a) * Abs(b)
  {
    var x, y: int := Abs(a), Abs(b);
    assert x * y >= 0;
    assert (0 - x) * y == 0 - x * y && x * (0 - y) == 0 - x * y && (0 - x) * (0 - y) == x * y;
  }

  /** How many steps of size s fit before the end of the address space. */
  lemma Rounds(s: nat) returns (n: nat)
    requires s > 0
    ensures s * n <= TWO64 - 1 < s * n + s
  {
    n := (TWO64 - 1) / s;
    assert TWO64 - 1 == s * n + (TWO64 - 1) % s;
  }

  /** Where it does not fit, some difference brings the accesses within one scale of each other around the end. */
  lemma Overlapping(s: nat, w: nat) returns (n: nat, size: nat)
    requires s < TWO63 && s * Pow2(w) > TWO64
    ensures n < Pow2(w) && size < UNKNOWN_SIZE
    ensures GapSuffices(n, w, s, size, size, 0)
    ensures !Disjoint(s * n, size, size)
  {
    hide Pow2, MinDiff;
    assert s > 0;
    n := Rounds(s);
    var P := Pow2(w);
    MulMonotone(P, n, s);
    MulMonotone(n, 1, s);
    var m := MinDiff(n, w);
    MinDiffIs(n, w);
    MulMonotone(1, m, s);
    MulMonotone(m, n, s);
    size := if s * m < UNKNOWN_SIZE then s * m else UNKNOWN_SIZE - 1;
    RemainderIs(s * m, TWO64, 0, s * m);
    var r := TWO64 - s * n;
    if m == 1 {
      assert n + 1 == P;
      assert s * P == s * n + s;
    } else {
      MulMonotone(2, m, s);
    }
    CongIntro(s * n + r, 0, 1, TWO64);
    assert SameByte(s * n, r, 0);
  }

  // ----- The one scale that has no negative -----

  /** For it the test is right whatever the lengths that do not overflow. */
  lemma LeastScale(diff: int, d: nat, w: nat, scale: int, n1: nat, n2: nat, base: int)
    requires w > 0 && d < Pow2(w) && Cong(diff, d, Pow2(w)) && Abs(scale) == TWO63
    requires n1 + Abs(base) < TWO64 && n2 + Abs(base) < TWO64 && GapSuffices(d, w, scale, n1, n2, base)
    ensures Disjoint(base + scale * diff, n1, n2)
  {
    hide Disjoint, Cong, Pow2, MinDiff;
    var m := MinDiff(d, w);
    SameParity(diff, d, w);
    Bytes(m, TWO63, n1, n2, base);
    LeastGap(d, w, scale);
    if m % 2 == 0 {
      EmptyDisjoint(base + scale * diff, n1, n2);
    } else {
      OddMultiple(scale, diff, base);
      OppositeDisjoint(base, n1, n2);
      CongDisjoint(base + scale * diff, base + TWO63, n1, n2);
    }
  }

  lemma LeastGap(d: nat, w: nat, scale: int)
    requires d < Pow2(w) && Abs(scale) == TWO63
    ensures GapBytes(d, w, scale) == if MinDiff(d, w) % 2 == 0 then 0 else TWO63
  {
    hide MinDiff, Pow2;
    var m := MinDiff(d, w);
    RemainderIs(m * TWO63, TWO64, m / 2, if m % 2 == 0 then 0 else TWO63);
  }

  lemma OddMultiple(scale: int, diff: int, base: int)
    requires Abs(scale) == TWO63
    ensures diff % 2 == 1 ==> Cong(base + scale * diff, base + TWO63, TWO64)
    ensures diff % 2 == 0 ==> Cong(base + scale * diff, base, TWO64)
  {
    hide Cong;
    var h := diff / 2;
    assert diff == 2 * h + diff % 2;
    if diff % 2 == 1 {
      CongIntro(base + scale * diff, base + TWO63, if scale > 0 then h else 0 - h - 1, TWO64);
    } else {
      CongIntro(base + scale * diff, base, if scale > 0 then h else 0 - h, TWO64);
    }
  }

  lemma OppositeDisjoint(base: int, n1: nat, n2: nat)
    requires n1 + Abs(base) <= TWO63 && n2 + Abs(base) <= TWO63
    ensures Disjoint(base + TWO63, n1, n2)
  {
    if n1 == 0 || n2 == 0 {
      EmptyDisjoint(base + TWO63, n1, n2);
    } else {
      RemainderIs(base + TWO63, TWO64, 0, base + TWO63);
      GapDisjoint(base + TWO63, n1, n2);
    }
  }

  lemma SameParity(diff: int, d: nat, w: nat)
    requires w > 0 && d < Pow2(w) && Cong(diff, d, Pow2(w))
    ensures MinDiff(d, w) % 2 == diff % 2
  {
    MinDiffIs(d, w);
    Halves(w);
    CongWeaken(diff, d, 1, w);
    var k := CongElim(diff, d, Pow2(1));
    Parity(diff, d, Pow2(w - 1), k, MinDiff(d, w));
  }

  lemma Halves(w: nat)
    requires w > 0
    ensures Pow2(w) == 2 * Pow2(w - 1)
  {
  }

  lemma Parity(diff: int, d: nat, half: nat, k: int, m: nat)
    requires diff - d == 2 * k && (m == d || m == 2 * half - d)
    ensures m % 2 == diff % 2
  {
  }

  // ----- Accesses that overlap -----

  /** Accesses longer than half the address space overlap wherever they are. */
  lemma LongOverlap(d: int, n: nat)
    requires n > TWO63
    ensures !Disjoint(d, n, n)
  {
    var r := d % TWO64;
    CongRem(d, TWO64);
    CongSym(r, d, TWO64);
    NearOverlap(d, if r < n then r else r - TWO64, n);
  }

  /** And so do accesses longer than their distance. */
  lemma NearOverlap(d: int, p: int, n: nat)
    requires Abs(p) < n && (Cong(d, p, TWO64) || Cong(d, p + TWO64, TWO64))
    ensures !Disjoint(d, n, n)
  {
    if !Cong(d, p, TWO64) {
      CongIntro(p + TWO64, p, 1, TWO64);
      CongTrans(d, p + TWO64, p, TWO64);
    }
    if p >= 0 {
      assert SameByte(d, 0, p);
    } else {
      CongSame(0 - p, TWO64);
      CongAdd(d, p, 0 - p, 0 - p, TWO64);
      assert SameByte(d, 0 - p, 0);
    }
  }

  /** Accesses of a length that makes the sum exactly 2^64, from addresses the constant apart. */
  lemma LengthOverflows(base: int, n: nat)
    requires Abs(base) < TWO63 && n + Abs(base) == TWO64
    ensures (n + Abs(base)) % TWO64 == 0 && !Disjoint(base, n, n)
  {
    RemainderIs(n + Abs(base), TWO64, 1, 0);
    CongSame(base, TWO64);
    NearOverlap(base, base, n);
  }
}
