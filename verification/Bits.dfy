/** Machine arithmetic: powers of two, bitwise operations on natural numbers, and congruences. */
module Bits {
  function Pow2(n: nat): (p: nat)
    ensures p > 0
  {
    if n == 0 then 1 else 2 * Pow2(n - 1)
  }

  const TWO63: nat := 0x8000_0000_0000_0000
  const TWO64: nat := 0x1_0000_0000_0000_0000

  lemma {:induction false} PowAdd(m: nat, n: nat)
    ensures Pow2(m + n) == Pow2(m) * Pow2(n)
  {
    if m > 0 {
      PowAdd(m - 1, n);
      assert 2 * Pow2(m - 1) * Pow2(n) == Pow2(m) * Pow2(n);
    }
  }

  lemma {:induction false} PowMonotone(m: nat, n: nat)
    requires m <= n
    ensures Pow2(m) <= Pow2(n)
  {
    if m < n {
      PowMonotone(m, n - 1);
    }
  }

  lemma Pow64()
    ensures Pow2(64) == TWO64 && Pow2(63) == TWO63
  {
    assert Pow2(8) == 256;
    PowAdd(8, 8);
    PowAdd(16, 16);
    PowAdd(32, 32);
    assert Pow2(64) == 2 * Pow2(63);
  }

  // ----- Bitwise operations -----

  function BitAnd(a: nat, b: nat): nat {
    if a == 0 || b == 0 then 0
    else 2 * BitAnd(a / 2, b / 2) + (if a % 2 == 1 && b % 2 == 1 then 1 else 0)
  }

  function BitOr(a: nat, b: nat): nat
    decreases a + b
  {
    if a == 0 then b else if b == 0 then a
    else 2 * BitOr(a / 2, b / 2) + (if a % 2 == 1 || b % 2 == 1 then 1 else 0)
  }

  function BitXor(a: nat, b: nat): nat
    decreases a + b
  {
    if a == 0 then b else if b == 0 then a
    else 2 * BitXor(a / 2, b / 2) + (if a % 2 != b % 2 then 1 else 0)
  }

  /** Numbers with no common bit are added by or. */
  lemma {:induction false} OrOfDisjoint(a: nat, b: nat)
    requires BitAnd(a, b) == 0
    ensures BitOr(a, b) == a + b
  {
    if a != 0 && b != 0 {
      OrOfDisjoint(a / 2, b / 2);
    }
  }

  lemma {:induction false} XorSelf(a: nat)
    ensures BitXor(a, a) == 0
  {
    if a != 0 {
      XorSelf(a / 2);
    }
  }

  lemma {:induction false} AndSelf(a: nat)
    ensures BitAnd(a, a) == a
  {
    if a != 0 {
      AndSelf(a / 2);
    }
  }

  lemma {:induction false} XorBelow(a: nat)
    requires a % 2 == 1
    ensures BitXor(a, a - 1) == 1 && BitAnd(a, a - 1) == a - 1
  {
    if a != 1 {
      XorSelf(a / 2);
      AndSelf(a / 2);
    }
  }

  /** The power of two that m ^ (m & (m - 1)) leaves of m: its lowest set bit. */
  function LowestBit(m: nat): nat {
    if m == 0 then 0 else BitXor(m, BitAnd(m, m - 1))
  }

  lemma {:induction false} LowestBitDouble(m: nat)
    requires m > 0
    ensures LowestBit(2 * m) == 2 * LowestBit(m)
  {
    assert (2 * m) / 2 == m && (2 * m - 1) / 2 == m - 1;
    assert BitAnd(2 * m, 2 * m - 1) == 2 * BitAnd(m, m - 1);
    var a := BitAnd(m, m - 1);
    assert (2 * a) / 2 == a;
    if a == 0 {
      assert BitXor(2 * m, 0) == 2 * m;
    } else {
      assert BitXor(2 * m, 2 * a) == 2 * BitXor(m, a);
    }
  }

  /** It is the largest power of two that divides m. */
  lemma {:induction false} LowestBitDivides(m: nat) returns (k: nat)
    requires m > 0
    ensures LowestBit(m) == Pow2(k) && m % Pow2(k) == 0 && m % Pow2(k + 1) != 0
  {
    if m % 2 == 1 {
      XorBelow(m);
      AndXorOdd(m);
      k := 0;
    } else {
      k := LowestBitDivides(m / 2);
      LowestBitDouble(m / 2);
      k := k + 1;
      DividesHalf(m, k);
      DividesHalf(m, k + 1);
    }
  }

  lemma AndXorOdd(m: nat)
    requires m % 2 == 1
    ensures LowestBit(m) == 1
  {
    XorBelow(m);
  }

  lemma Multiple(q: int, m: nat)
    requires m > 0
    ensures (m * q) % m == 0
  {
    CongIntro(m * q, 0, q, m);
  }

  /** A power of two divides an or exactly when it divides both sides. */
  lemma {:induction false} DividesOr(a: nat, b: nat, k: nat)
    ensures BitOr(a, b) % Pow2(k) == 0 <==> a % Pow2(k) == 0 && b % Pow2(k) == 0
  {
    if a == 0 || b == 0 || k == 0 {
    } else {
      DividesOr(a / 2, b / 2, k - 1);
      DividesHalf(a, k);
      DividesHalf(b, k);
      DividesHalf(BitOr(a, b), k);
    }
  }

  lemma DividesHalf(a: nat, k: nat)
    requires k > 0
    ensures a % Pow2(k) == 0 <==> a % 2 == 0 && (a / 2) % Pow2(k - 1) == 0
  {
    var p := Pow2(k - 1);
    if a % 2 == 0 && (a / 2) % p == 0 {
      var q := a / 2 / p;
      assert a == (2 * p) * q by { assert a / 2 == p * q; }
      Multiple(q, 2 * p);
    }
    if a % (2 * p) == 0 {
      var q := a / (2 * p);
      assert a == 2 * (p * q);
      assert a / 2 == p * q;
      Multiple(q, p);
    }
  }

  /** Masking with a power of two less one is the remainder. */
  lemma {:induction false} AndMask(a: nat, k: nat)
    ensures BitAnd(a, Pow2(k) - 1) == a % Pow2(k)
  {
    if a == 0 || k == 0 {
    } else {
      var p := Pow2(k - 1);
      assert (2 * p - 1) / 2 == p - 1 && (2 * p - 1) % 2 == 1;
      AndMask(a / 2, k - 1);
      RemainderDouble(a, p);
    }
  }

  lemma RemainderDouble(a: nat, p: nat)
    requires p > 0
    ensures a % (2 * p) == 2 * ((a / 2) % p) + a % 2
  {
    var q, r := (a / 2) / p, (a / 2) % p;
    assert a / 2 == p * q + r;
    assert a == (2 * p) * q + (2 * r + a % 2);
    RemainderIs(a, 2 * p, q, 2 * r + a % 2);
  }

  // ----- Congruences -----

  predicate Cong(x: int, y: int, m: nat)
    requires m > 0
  {
    (x - y) % m == 0
  }

  /** x and y differ by k times m. */
  lemma CongIntro(x: int, y: int, k: int, m: nat)
    requires m > 0 && x - y == m * k
    ensures Cong(x, y, m)
  {
    RemainderIs(x - y, m, k, 0);
  }

  lemma RemainderIs(x: int, m: nat, q: int, r: int)
    requires m > 0 && x == m * q + r && 0 <= r < m
    ensures x % m == r && x / m == q
  {
    var q' := x / m;
    assert x == m * q' + x % m;
    assert m * (q' - q) == r - x % m;
    AtLeastOnce(m, q' - q);
  }

  /** A multiple of m by anything but 0 is at least m away from 0. */
  lemma AtLeastOnce(m: nat, k: int)
    ensures k >= 1 ==> m * k >= m
    ensures k <= -1 ==> m * k <= 0 - m
  {
    if k >= 1 {
      assert m * (k - 1) >= 0;
    } else if k <= -1 {
      assert m * (-1 - k) >= 0;
    }
  }

  lemma CongElim(x: int, y: int, m: nat) returns (k: int)
    requires m > 0 && Cong(x, y, m)
    ensures x - y == m * k
  {
    k := (x - y) / m;
  }

  lemma CongSame(x: int, m: nat)
    requires m > 0
    ensures Cong(x, x, m)
  {
  }

  lemma CongRem(x: int, m: nat)
    requires m > 0
    ensures Cong(x % m, x, m)
  {
    CongIntro(x % m, x, -(x / m), m);
  }

  lemma CongSym(x: int, y: int, m: nat)
    requires m > 0 && Cong(x, y, m)
    ensures Cong(y, x, m)
  {
    var k := CongElim(x, y, m);
    CongIntro(y, x, -k, m);
  }

  lemma CongTrans(x: int, y: int, z: int, m: nat)
    requires m > 0 && Cong(x, y, m) && Cong(y, z, m)
    ensures Cong(x, z, m)
  {
    var k := CongElim(x, y, m);
    var l := CongElim(y, z, m);
    CongIntro(x, z, k + l, m);
  }

  lemma CongAdd(x: int, y: int, a: int, b: int, m: nat)
    requires m > 0 && Cong(x, y, m) && Cong(a, b, m)
    ensures Cong(x + a, y + b, m) && Cong(x - a, y - b, m)
  {
    var k := CongElim(x, y, m);
    var l := CongElim(a, b, m);
    CongIntro(x + a, y + b, k + l, m);
    CongIntro(x - a, y - b, k - l, m);
  }

  lemma CongScale(x: int, y: int, c: int, m: nat)
    requires m > 0 && Cong(x, y, m)
    ensures Cong(x * c, y * c, m)
  {
    var k := CongElim(x, y, m);
    assert x * c - y * c == m * (k * c);
    CongIntro(x * c, y * c, k * c, m);
  }

  lemma Associative(a: int, b: int, c: int)
    ensures (a * b) * c == a * (b * c)
  {
  }

  /** A congruence holds modulo every smaller power of two. */
  lemma CongWeaken(x: int, y: int, small: nat, big: nat)
    requires small <= big && Cong(x, y, Pow2(big))
    ensures Cong(x, y, Pow2(small))
  {
    var k := CongElim(x, y, Pow2(big));
    PowAdd(small, big - small);
    Associative(Pow2(small), Pow2(big - small), k);
    CongIntro(x, y, Pow2(big - small) * k, Pow2(small));
  }

  /** Congruent numbers less than the modulus apart are equal. */
  lemma CongClose(x: int, y: int, m: nat)
    requires m > 0 && Cong(x, y, m) && 0 - m < x - y < m
    ensures x == y
  {
    var k := CongElim(x, y, m);
    AtLeastOnce(m, k);
  }

  // ----- Two's complement -----

  /** The signed reading of a w-bit pattern. */
  function Signed(u: int, w: nat): (s: int)
    requires w > 0
  {
    var r := u % Pow2(w);
    if r < Pow2(w - 1) then r else r - Pow2(w)
  }

  lemma SignedRange(u: int, w: nat)
    requires w > 0
    ensures 0 - Pow2(w - 1) <= Signed(u, w) < Pow2(w - 1)
    ensures Cong(Signed(u, w), u, Pow2(w))
  {
    var r := u % Pow2(w);
    CongRem(u, Pow2(w));
    CongIntro(r - Pow2(w), r, -1, Pow2(w));
    if r >= Pow2(w - 1) {
      CongTrans(r - Pow2(w), r, u, Pow2(w));
    }
  }
}
