/** Exactly when the test for two variables a constant apart is right, over all words the variables may hold and every
    way they may be extended. */
module ExtendedWords {
  import opened Bits
  import opened Distance
  import opened ExactLinear

  // ----- Differences of extended words -----

  /** First sign-extended and then zero-extended: negative words become large numbers of more than w bits. */
  predicate Mixed(zext: nat, sext: nat) {
    zext > 0 && sext > 0
  }

  function Difference(a: nat, b: nat, w: nat, zext: nat, sext: nat): int
    requires w > 0
  {
    Extend(a, w, zext, sext) - Extend(b, w, zext, sext)
  }

  /** How far apart the words themselves are. */
  function Apart(a: nat, b: nat, w: nat): (d: nat)
    ensures d < Pow2(w)
  {
    (a - b) % Pow2(w)
  }

  lemma ExtendWord(a: nat, w: nat, zext: nat, sext: nat)
    requires w > 0 && a < Pow2(w)
    ensures Signed(a, w) == if a < Pow2(w - 1) then a else a - Pow2(w)
    ensures Extend(a, w, zext, sext) ==
            if zext == 0 || a < Pow2(w - 1) then Signed(a, w) else Signed(a, w) + Pow2(w + sext)
    ensures Pow2(w) <= Pow2(w + sext) && Pow2(w) == 2 * Pow2(w - 1)
  {
    RemainderIs(a, Pow2(w), 0, a);
    PowMonotone(w, w + sext);
    hide Pow2;
    Halves(w);
    var x, P := Signed(a, w), Pow2(w + sext);
    RemainderIs(x, P, if x < 0 then -1 else 0, if x < 0 then x + P else x);
  }

  /** The extended words differ as the signed ones do, or, where one is negative and the other is not, by as much less
      than the range of the extended ones. */
  lemma DifferenceIs(a: nat, b: nat, w: nat, zext: nat, sext: nat)
    requires w > 0 && a < Pow2(w) && b < Pow2(w)
    ensures var e, D := Signed(a, w) - Signed(b, w), Difference(a, b, w, zext, sext);
            && 0 - Pow2(w) < e < Pow2(w) && Cong(e, Apart(a, b, w), Pow2(w)) && Cong(D, Apart(a, b, w), Pow2(w))
            && (!Mixed(zext, sext) ==> 0 - Pow2(w) < D < Pow2(w))
            && (Mixed(zext, sext) ==>
                  D == e || (e > 0 && D == e - Pow2(w + sext)) || (e < 0 && D == e + Pow2(w + sext)))
  {
    hide Extend, Signed, Cong, Pow2;
    ExtendWord(a, w, zext, sext);
    ExtendWord(b, w, zext, sext);
    SignedRange(a, w);
    SignedRange(b, w);
    var P, e, D := Pow2(w), Signed(a, w) - Signed(b, w), Difference(a, b, w, zext, sext);
    CongAdd(Signed(a, w), a, Signed(b, w), b, P);
    CongRem(a - b, P);
    CongSym(Apart(a, b, w), a - b, P);
    CongTrans(e, a - b, Apart(a, b, w), P);
    Turned(e, Apart(a, b, w), w, sext);
  }

  lemma Turned(e: int, d: nat, w: nat, sext: nat)
    requires Cong(e, d, Pow2(w))
    ensures Cong(e + Pow2(w + sext), d, Pow2(w)) && Cong(e - Pow2(w + sext), d, Pow2(w))
  {
    Shifted(e, d, w, w + sext, 1);
    Shifted(e, d, w, w + sext, -1);
  }

  // ----- When nothing goes all the way round -----

  /** What scale times the range of the extended words leaves over, going round the address space. */
  function LeftOver(s: nat, w: nat, sext: nat): (t: nat)
    ensures t < TWO64
  {
    (s * Pow2(w + sext)) % TWO64
  }

  /** The scale has no negative, or scale times 2^w fits into the address space; and where words are extended both ways,
      scale times their range leaves nothing over, or no less than that. */
  predicate ScaleFits(s: nat, w: nat, zext: nat, sext: nat) {
    || s == TWO63
    || (s * Pow2(w) <= TWO64
        && (Mixed(zext, sext) ==> LeftOver(s, w, sext) == 0 || LeftOver(s, w, sext) >= s * Pow2(w)))
  }

  /** Words of opposite sign, extended both ways. */
  lemma OppositeSound(e: int, D: int, d: nat, w: nat, sext: nat, scale: int, n1: nat, n2: nat, base: int)
    requires d < Pow2(w) && 0 - Pow2(w) < e < Pow2(w) && Cong(e, d, Pow2(w))
    requires (e > 0 && D == e - Pow2(w + sext)) || (e < 0 && D == e + Pow2(w + sext))
    requires var s, t := Abs(scale), LeftOver(Abs(scale), w, sext);
             s * Pow2(w) <= TWO64 && (t == 0 || t >= s * Pow2(w))
    requires n1 + Abs(base) < TWO64 && n2 + Abs(base) < TWO64 && GapSuffices(d, w, scale, n1, n2, base)
    ensures Disjoint(base + scale * D, n1, n2)
  {
    hide Disjoint, Pow2, Cong, MinDiff, LeftOver;
    var s, t, m, k := Abs(scale), LeftOver(Abs(scale), w, sext), MinDiff(d, w), Abs(e);
    ApartAtLeast(e, d, w, w);
    Bytes(m, s, n1, n2, base);
    OppositeApart(s, t, m, k, Pow2(w));
    var p := RoundTrip(scale, e, D, w, sext);
    FarFromBase(p, s * m, base, n1, n2);
    CongSame(base, TWO64);
    CongAdd(base, base, scale * D, p, TWO64);
    CongDisjoint(base + scale * D, base + p, n1, n2);
  }

  lemma OppositeApart(s: nat, t: nat, m: nat, k: nat, P: nat)
    requires m <= k <= P - m && s * P <= TWO64 && t < TWO64 && (t == 0 || t >= s * P)
    ensures s * m <= Abs(s * k - t) <= TWO64 - s * m
  {
    MulMonotone(m, k, s);
    MulMonotone(k, P - m, s);
    assert s * (P - m) == s * P - s * m;
  }

  /** Going round the address space, the scaled difference is that of the words, less what is left over. */
  lemma RoundTrip(scale: int, e: int, D: int, w: nat, sext: nat) returns (p: int)
    requires (e > 0 && D == e - Pow2(w + sext)) || (e < 0 && D == e + Pow2(w + sext))
    ensures Cong(scale * D, p, TWO64)
    ensures Abs(p) == Abs(Abs(scale) * Abs(e) - LeftOver(Abs(scale), w, sext))
    ensures e > 0 && scale >= 0 ==> p == scale * e - LeftOver(scale, w, sext)
  {
    hide Cong, Pow2;
    var W, s := Pow2(w + sext), Abs(scale);
    var q, t := (s * W) / TWO64, (s * W) % TWO64;
    assert s * W == TWO64 * q + t;
    var sign := if (e > 0) == (scale >= 0) then 1 else -1;
    p := sign * (s * Abs(e) - t);
    SignedProduct(scale, e, D, W, sign);
    CongIntro(scale * D, p, 0 - sign * q, TWO64);
  }

  lemma SignedProduct(scale: int, e: int, D: int, W: nat, sign: int)
    requires (e > 0 && D == e - W) || (e < 0 && D == e + W)
    requires sign == if (e > 0) == (scale >= 0) then 1 else -1
    ensures scale * D == sign * (Abs(scale) * Abs(e) - Abs(scale) * W)
    ensures e > 0 && scale >= 0 ==> Abs(scale) * Abs(e) == scale * e
  {
    var s, k: int := Abs(scale), Abs(e);
    assert s * k - s * W == s * (k - W);
    if e > 0 {
      assert D == k - W;
      assert (0 - s) * (k - W) == 0 - s * (k - W);
    } else {
      assert D == 0 - (k - W);
      assert (0 - s) * (0 - (k - W)) == s * (k - W) && s * (0 - (k - W)) == 0 - s * (k - W);
    }
  }

  /** Where nothing goes all the way round, the test is right about words that are recorded no further apart than they
      are. */
  lemma WordsSound(a: nat, b: nat, w: nat, zext: nat, sext: nat, r: nat, scale: int, n1: nat, n2: nat, base: int)
    requires w > 0 && a < Pow2(w) && b < Pow2(w) && r < Pow2(w) && ScaleFits(Abs(scale), w, zext, sext)
    requires n1 + Abs(base) < TWO64 && n2 + Abs(base) < TWO64 && GapSuffices(r, w, scale, n1, n2, base)
    requires GapBytes(r, w, scale) <= GapBytes(Apart(a, b, w), w, scale)
    ensures Disjoint(base + scale * Difference(a, b, w, zext, sext), n1, n2)
  {
    hide Disjoint, GapSuffices, GapBytes, Cong, Pow2, Extend, Difference, LeftOver, Signed, Apart, MinDiff;
    var d, e, D := Apart(a, b, w), Signed(a, w) - Signed(b, w), Difference(a, b, w, zext, sext);
    GapWider(r, d, w, scale, n1, n2, base);
    DifferenceIs(a, b, w, zext, sext);
    if Abs(scale) == TWO63 {
      LeastScale(D, d, w, scale, n1, n2, base);
    } else if Mixed(zext, sext) && D != e {
      OppositeSound(e, D, d, w, sext, scale, n1, n2, base);
    } else {
      GapSound(D, d, w, w, scale, n1, n2, base);
    }
  }

  // ----- When something does -----

  /** Words of opposite sign, any number of steps apart. */
  lemma OppositeWords(k: nat, w: nat) returns (a: nat, b: nat)
    requires w > 0 && 0 < k < Pow2(w)
    ensures a < Pow2(w - 1) <= b < Pow2(w) && Signed(a, w) - Signed(b, w) == k && Apart(a, b, w) == k
  {
    var h := Pow2(w - 1);
    Halves(w);
    hide Pow2;
    a, b := if k <= h then 0 else k - h, if k <= h then 2 * h - k else h;
    ExtendWord(a, w, 0, 0);
    ExtendWord(b, w, 0, 0);
    RemainderIs(a - b, Pow2(w), -1, k);
  }

  /** Words that, extended one way only, differ by a number less than 2^w. */
  lemma WordsApart(k: nat, w: nat, zext: nat, sext: nat) returns (a: nat, b: nat)
    requires w > 0 && k < Pow2(w) && !Mixed(zext, sext)
    ensures a < Pow2(w) && b < Pow2(w) && Difference(a, b, w, zext, sext) == k && Apart(a, b, w) == k
  {
    if zext == 0 && k > 0 {
      a, b := OppositeWords(k, w);
    } else {
      a, b := k, 0;
      RemainderIs(k, Pow2(w), 0, k);
    }
    ExtendWord(a, w, zext, sext);
    ExtendWord(b, w, zext, sext);
  }

  /** The number of steps that brings words of opposite sign within a step of what is left over. */
  lemma Landing(s: nat, t: nat, P: nat) returns (k: nat)
    requires 0 < t < s * P && P >= 2
    ensures 0 < k < P && Abs(s * k - t) < s
  {
    assert s > 0;
    var q := t / s;
    assert t == s * q + t % s;
    k := if q == 0 then 1 else q;
    MulMonotone(P, q, s);
  }

  /** Extended both ways, with something left over that is too little. */
  lemma LandsTooNear(s: nat, w: nat, zext: nat, sext: nat) returns (a: nat, b: nat, size: nat)
    requires w > 0 && zext > 0 && s * Pow2(w) <= TWO64 && 0 < LeftOver(s, w, sext) < s * Pow2(w)
    ensures a < Pow2(w) && b < Pow2(w) && size <= TWO63
    ensures !Disjoint(s * Difference(a, b, w, zext, sext), size, size)
    ensures GapSuffices(Apart(a, b, w), w, s, size, size, 0)
  {
    hide Pow2, Disjoint, Signed, LeftOver, Cong, Apart, Extend, Difference, GapSuffices;
    Halves(w);
    var k := Landing(s, LeftOver(s, w, sext), Pow2(w));
    a, b := OppositeWords(k, w);
    size := LeastSize(s, k, w);
    OppositeDifference(a, b, w, zext, sext);
    var D := Difference(a, b, w, zext, sext);
    var p := RoundTrip(s, k, D, w, sext);
    NearOverlap(s * D, p, size);
  }

  /** Accesses just as long as the least distance. */
  lemma LeastSize(s: nat, k: nat, w: nat) returns (size: nat)
    requires 0 < k < Pow2(w) && s * Pow2(w) <= TWO64
    ensures s <= size <= TWO63 && GapSuffices(k, w, s, size, size, 0)
  {
    hide Pow2, MinDiff;
    MinDiffIs(k, w);
    LeastIsSmall(s, MinDiff(k, w), k, Pow2(w));
    size := s * MinDiff(k, w);
    assert MinDiff(k, w) * s == size;
    RemainderIs(size, TWO64, 0, size);
  }

  lemma OppositeDifference(a: nat, b: nat, w: nat, zext: nat, sext: nat)
    requires w > 0 && zext > 0 && a < Pow2(w - 1) <= b < Pow2(w)
    ensures Difference(a, b, w, zext, sext) == Signed(a, w) - Signed(b, w) - Pow2(w + sext)
  {
    ExtendWord(a, w, zext, sext);
    ExtendWord(b, w, zext, sext);
  }

  lemma LeastIsSmall(s: nat, m: nat, k: nat, P: nat)
    requires 0 < k < P && s * P <= TWO64 && (m == k || m == P - k) && m <= k && m <= P - k
    ensures s <= s * m <= TWO63
  {
    MulMonotone(1, m, s);
    MulMonotone(2 * m, P, s);
    assert s * (2 * m) == 2 * (s * m);
  }

  /** Extended both ways, with a scale that is too large: words half the address space apart, or nearly. */
  lemma TooLarge(s: nat, w: nat) returns (a: nat, b: nat, size: nat)
    requires w > 0 && s < TWO63 && s * Pow2(w) > TWO64
    ensures a < Pow2(w) && b < Pow2(w) && TWO63 < size < UNKNOWN_SIZE
    ensures GapSuffices(Apart(a, b, w), w, s, size, size, 0)
  {
    hide Pow2, Signed, Apart, MinDiff;
    Halves(w);
    var h := Pow2(w - 1);
    var k := StepsPastHalf(s, h);
    a, b := OppositeWords(k, w);
    MinDiffIs(k, w);
    size := if s * k < UNKNOWN_SIZE then s * k else UNKNOWN_SIZE - 1;
    RemainderIs(s * k, TWO64, 0, s * k);
    RemainderIs(size + Abs(0), TWO64, 0, size);
    assert k * s == s * k;
  }

  lemma StepsPastHalf(s: nat, h: nat) returns (k: nat)
    requires s < TWO63 && s * (2 * h) > TWO64
    ensures 0 < k <= h && TWO63 < s * k < TWO64
  {
    assert s * (2 * h) == 2 * (s * h);
    if s * h < TWO64 {
      k := h;
    } else {
      k := Rounds(s);
      MulMonotone(h, k, s);
      MulMonotone(k, h, s);
    }
  }

  // ----- Over all words -----

  /** The test on the recorded difference r goes right for these words, accesses and constant offset. */
  ghost predicate RightFor(s: nat, w: nat, zext: nat, sext: nat, r: nat, a: nat, b: nat, n1: nat, n2: nat, base: int)
    requires w > 0 && r < Pow2(w)
  {
    (&& n1 < UNKNOWN_SIZE && n2 < UNKNOWN_SIZE && n1 + Abs(base) < TWO64 && n2 + Abs(base) < TWO64
     && GapSuffices(r, w, s, n1, n2, base)) ==>
      Disjoint(base + s * Difference(a, b, w, zext, sext), n1, n2)
  }

  /** It goes right for all words that differ by d, all lengths that do not overflow, and all constant offsets. */
  ghost predicate RightApart(s: nat, w: nat, zext: nat, sext: nat, r: nat, d: nat)
    requires w > 0 && r < Pow2(w)
  {
    forall a: nat, b: nat, n1: nat, n2: nat, base: int | a < Pow2(w) && b < Pow2(w) && Apart(a, b, w) == d ::
      RightFor(s, w, zext, sext, r, a, b, n1, n2, base)
  }

  ghost predicate AlwaysRight(s: nat, w: nat, zext: nat, sext: nat)
    requires w > 0
  {
    forall d: nat | d < Pow2(w) :: RightApart(s, w, zext, sext, d, d)
  }

  /** On the true difference the test never goes wrong exactly when nothing goes all the way round, whichever way the
      words are extended. */
  lemma RightIffScaleFits(s: nat, w: nat, zext: nat, sext: nat)
    requires w > 0 && s <= TWO63
    ensures AlwaysRight(s, w, zext, sext) <==> ScaleFits(s, w, zext, sext)
  {
    hide RightFor, ScaleFits, Pow2, Apart, Difference;
    if ScaleFits(s, w, zext, sext) {
      forall d: nat | d < Pow2(w)
        ensures RightApart(s, w, zext, sext, d, d)
      {
        SoundApart(s, w, zext, sext, d, d);
      }
    } else {
      var a, b, size := GoesWrong(s, w, zext, sext);
      var d := Apart(a, b, w);
      assert !RightFor(s, w, zext, sext, d, a, b, size, size, 0);
      assert !RightApart(s, w, zext, sext, d, d);
    }
  }

  lemma SoundApart(s: nat, w: nat, zext: nat, sext: nat, r: nat, d: nat)
    requires w > 0 && s <= TWO63 && r < Pow2(w) && d < Pow2(w) && ScaleFits(s, w, zext, sext)
    requires GapBytes(r, w, s) <= GapBytes(d, w, s)
    ensures RightApart(s, w, zext, sext, r, d)
  {
    hide Pow2, Apart, Difference, GapBytes, GapSuffices, Disjoint, ScaleFits;
    forall a: nat, b: nat, n1: nat, n2: nat, base: int | a < Pow2(w) && b < Pow2(w) && Apart(a, b, w) == d
      ensures RightFor(s, w, zext, sext, r, a, b, n1, n2, base)
    {
      if n1 + Abs(base) < TWO64 && n2 + Abs(base) < TWO64 && GapSuffices(r, w, s, n1, n2, base) {
        WordsSound(a, b, w, zext, sext, r, s, n1, n2, base);
      }
    }
  }

  lemma GoesWrong(s: nat, w: nat, zext: nat, sext: nat) returns (a: nat, b: nat, size: nat)
    requires w > 0 && s <= TWO63 && !ScaleFits(s, w, zext, sext)
    ensures a < Pow2(w) && b < Pow2(w) && !RightFor(s, w, zext, sext, Apart(a, b, w), a, b, size, size, 0)
  {
    hide Pow2, Apart, Difference, GapSuffices, Disjoint, LeftOver;
    if !Mixed(zext, sext) {
      var k;
      k, size := Overlapping(s, w);
      a, b := WordsApart(k, w, zext, sext);
    } else if s * Pow2(w) <= TWO64 {
      a, b, size := LandsTooNear(s, w, zext, sext);
    } else {
      a, b, size := TooLarge(s, w);
      LongOverlap(s * Difference(a, b, w, zext, sext), size);
    }
  }

  // ----- Recorded differences that are not the true ones -----

  /** Words whose signed readings are not negative, as near to each other as words that differ by d can be. */
  lemma NearWords(d: nat, w: nat, zext: nat, sext: nat) returns (a: nat, b: nat)
    requires w > 0 && d < Pow2(w) && MinDiff(d, w) < Pow2(w - 1)
    ensures a < Pow2(w) && b < Pow2(w) && Apart(a, b, w) == d
    ensures Difference(a, b, w, zext, sext) == if d < Pow2(w - 1) then MinDiff(d, w) else 0 - MinDiff(d, w)
  {
    MinDiffIs(d, w);
    Halves(w);
    var m := MinDiff(d, w);
    a, b := if d < Pow2(w - 1) then m else 0, if d < Pow2(w - 1) then 0 else m;
    hide Pow2, MinDiff;
    ExtendWord(a, w, zext, sext);
    ExtendWord(b, w, zext, sext);
    RemainderIs(a - b, Pow2(w), if d < Pow2(w - 1) then 0 else -1, d);
  }

  lemma LeastBelowHalf(r: nat, d: nat, w: nat, s: nat)
    requires w > 0 && r < Pow2(w) && d < Pow2(w) && GapBytes(r, w, s) > MinDiff(d, w) * s
    ensures MinDiff(d, w) < MinDiff(r, w) && MinDiff(d, w) < Pow2(w - 1)
  {
    Halves(w);
    MinDiffIs(r, w);
    hide Pow2, MinDiff;
    RemainderAtMost(MinDiff(r, w) * s, TWO64);
    MulMonotone(MinDiff(r, w), MinDiff(d, w), s);
  }

  /** Where nothing goes all the way round, the test on a recorded difference is right for all words that differ by d
      exactly when the least distance it goes by is no more than the true one. */
  lemma RightIffNoNearer(s: nat, w: nat, zext: nat, sext: nat, r: nat, d: nat)
    requires w > 0 && s <= TWO63 && r < Pow2(w) && d < Pow2(w) && ScaleFits(s, w, zext, sext)
    ensures RightApart(s, w, zext, sext, r, d) <==> GapBytes(r, w, s) <= GapBytes(d, w, s)
  {
    hide RightFor, Pow2, Apart, Difference, GapBytes, MinDiff, ScaleFits;
    if GapBytes(r, w, s) <= GapBytes(d, w, s) {
      SoundApart(s, w, zext, sext, r, d);
    } else {
      var a, b := TooNear(s, w, zext, sext, r, d);
      assert !RightFor(s, w, zext, sext, r, a, b, GapBytes(r, w, s), GapBytes(r, w, s), 0);
    }
  }

  lemma TooNear(s: nat, w: nat, zext: nat, sext: nat, r: nat, d: nat) returns (a: nat, b: nat)
    requires w > 0 && s <= TWO63 && r < Pow2(w) && d < Pow2(w) && ScaleFits(s, w, zext, sext)
    requires GapBytes(r, w, s) > GapBytes(d, w, s)
    ensures a < Pow2(w) && b < Pow2(w) && Apart(a, b, w) == d
    ensures !RightFor(s, w, zext, sext, r, a, b, GapBytes(r, w, s), GapBytes(r, w, s), 0)
  {
    hide Pow2, Apart, Difference, Disjoint, LeftOver, MinDiff, GapBytes;
    var n := GapBytes(r, w, s);
    GapFits(r, w, s, zext, sext);
    GapFits(d, w, s, zext, sext);
    RemainderIs(n + Abs(0), TWO64, 0, n);
    if s == TWO63 {
      LeastGap(r, w, s);
      LeastGap(d, w, s);
      a, b := d, 0;
      Itself(d, w);
      DifferenceIs(a, b, w, zext, sext);
      var D := Difference(a, b, w, zext, sext);
      SameParity(D, d, w);
      OddMultiple(s, D, 0);
      NearOverlap(s * D, 0, n);
    } else {
      LeastBelowHalf(r, d, w, s);
      a, b := NearWords(d, w, zext, sext);
      var D := Difference(a, b, w, zext, sext);
      AbsProduct(s, D);
      CongSame(s * D, TWO64);
      NearOverlap(s * D, s * D, n);
    }
  }

  lemma Itself(d: nat, w: nat)
    requires d < Pow2(w)
    ensures Apart(d, 0, w) == d && 0 < Pow2(w)
  {
    RemainderIs(d, Pow2(w), 0, d);
  }

  lemma GapFits(d: nat, w: nat, s: nat, zext: nat, sext: nat)
    requires w > 0 && d < Pow2(w) && s <= TWO63 && ScaleFits(s, w, zext, sext)
    ensures GapBytes(d, w, s) <= TWO63
    ensures s < TWO63 ==> GapBytes(d, w, s) == MinDiff(d, w) * s
  {
    hide Pow2, MinDiff, LeftOver;
    MinDiffIs(d, w);
    var m := MinDiff(d, w);
    if s == TWO63 {
      LeastGap(d, w, s);
    } else {
      MulMonotone(2 * m, Pow2(w), s);
      assert s * (2 * m) == 2 * (m * s);
      RemainderIs(m * s, TWO64, 0, m * s);
    }
  }

  /** The test goes right for these words, where the distance stays within half the address space. */
  ghost predicate RightInReach(s: nat, w: nat, zext: nat, sext: nat, r: nat, a: nat, b: nat, n1: nat, n2: nat,
                               base: int)
    requires w > 0 && r < Pow2(w)
  {
    var D := base + s * Difference(a, b, w, zext, sext);
    (&& n1 < TWO63 && n2 < TWO63 && Abs(base) <= TWO63 && 0 - TWO63 <= D <= TWO63
     && GapSuffices(r, w, s, n1, n2, base)) ==>
      Disjoint(D, n1, n2)
  }

  ghost predicate RightApartInReach(s: nat, w: nat, zext: nat, sext: nat, r: nat, d: nat)
    requires w > 0 && r < Pow2(w)
  {
    forall a: nat, b: nat, n1: nat, n2: nat, base: int | a < Pow2(w) && b < Pow2(w) && Apart(a, b, w) == d ::
      RightInReach(s, w, zext, sext, r, a, b, n1, n2, base)
  }

  /** There, whatever the scale, it is right for all words that differ by d exactly when the least distance it goes by
      is no more than the true one as a whole number. */
  lemma InReachIffNoNearer(s: nat, w: nat, zext: nat, sext: nat, r: nat, d: nat)
    requires w > 0 && r < Pow2(w) && d < Pow2(w)
    ensures RightApartInReach(s, w, zext, sext, r, d) <==> GapBytes(r, w, s) <= MinDiff(d, w) * s
  {
    hide RightInReach, Pow2, Apart, Difference, GapBytes, MinDiff;
    if GapBytes(r, w, s) <= MinDiff(d, w) * s {
      forall a: nat, b: nat, n1: nat, n2: nat, base: int | a < Pow2(w) && b < Pow2(w) && Apart(a, b, w) == d
        ensures RightInReach(s, w, zext, sext, r, a, b, n1, n2, base)
      {
        SoundInReach(s, w, zext, sext, r, a, b, n1, n2, base);
      }
    } else {
      var a, b, n, base := TooNearInReach(s, w, zext, sext, r, d);
      assert !RightInReach(s, w, zext, sext, r, a, b, n, n, base);
    }
  }

  lemma SoundInReach(s: nat, w: nat, zext: nat, sext: nat, r: nat, a: nat, b: nat, n1: nat, n2: nat, base: int)
    requires w > 0 && r < Pow2(w) && a < Pow2(w) && b < Pow2(w)
    requires GapBytes(r, w, s) <= MinDiff(Apart(a, b, w), w) * s
    ensures RightInReach(s, w, zext, sext, r, a, b, n1, n2, base)
  {
    hide Pow2, Apart, Difference, GapBytes, GapSuffices, MinDiff, Disjoint;
    DifferenceIs(a, b, w, zext, sext);
    var D := Difference(a, b, w, zext, sext);
    if n1 < TWO63 && n2 < TWO63 && Abs(base) <= TWO63 && 0 - TWO63 <= base + s * D <= TWO63
       && GapSuffices(r, w, s, n1, n2, base) {
      GapSoundWithoutWrap(D, r, Apart(a, b, w), w, s, n1, n2, base);
    }
  }

  lemma TooNearInReach(s: nat, w: nat, zext: nat, sext: nat, r: nat, d: nat)
    returns (a: nat, b: nat, n: nat, base: int)
    requires w > 0 && r < Pow2(w) && d < Pow2(w) && GapBytes(r, w, s) > MinDiff(d, w) * s
    ensures a < Pow2(w) && b < Pow2(w) && Apart(a, b, w) == d
    ensures !RightInReach(s, w, zext, sext, r, a, b, n, n, base)
  {
    hide Pow2, Apart, Difference, GapBytes, MinDiff, Disjoint;
    LeastBelowHalf(r, d, w, s);
    a, b := NearWords(d, w, zext, sext);
    var D := Difference(a, b, w, zext, sext);
    var p, q := s * D, MinDiff(d, w) * s;
    AbsProduct(s, D);
    GapInWord(r, w, s);
    n, base := Straddling(p, q);
    RemainderIs(n + Abs(base), TWO64, 0, n + Abs(base));
    CongSame(base + p, TWO64);
    NearOverlap(base + p, base + p, n);
  }

  lemma GapInWord(r: nat, w: nat, s: int)
    requires r < Pow2(w)
    ensures GapBytes(r, w, s) < TWO64
  {
  }

  /** A length and a constant offset that together are one more than the distance, and that bring it into reach. */
  lemma Straddling(p: int, q: nat) returns (n: nat, base: int)
    requires Abs(p) == q < UNKNOWN_SIZE
    ensures n < TWO63 && Abs(base) <= TWO63 && n + Abs(base) == q + 1
    ensures Abs(base + p) < n
  {
    if q + 1 < TWO63 {
      n, base := q + 1, 0;
    } else {
      n := TWO63 - 1;
      base := if p >= 0 then 0 - (q + 1 - n) else q + 1 - n;
    }
  }

  // ----- What the test goes by -----

  ghost predicate WordsAt(a: nat, b: nat, d: nat, w: nat) {
    a < Pow2(w) && b < Pow2(w) && Apart(a, b, w) == d
  }

  /** No two words that differ by d modulo 2^w are nearer to each other, as numbers, than m, and some are as near. */
  ghost predicate Nearest(m: nat, d: nat, w: nat) {
    && (exists a: nat, b: nat :: WordsAt(a, b, d, w) && Abs(a - b) == m)
    && (forall a: nat, b: nat | WordsAt(a, b, d, w) :: m <= Abs(a - b))
  }

  lemma MinDiffIsNearest(d: nat, w: nat)
    requires d < Pow2(w)
    ensures Nearest(MinDiff(d, w), d, w)
  {
    hide Pow2, Cong;
    var P := Pow2(w);
    MinDiffIs(d, w);
    var a, b := if d <= P - d then d else 0, if d <= P - d then 0 else P - d;
    RemainderIs(a - b, P, if d <= P - d then 0 else -1, d);
    assert WordsAt(a, b, d, w) && Abs(a - b) == MinDiff(d, w);
    forall a: nat, b: nat | WordsAt(a, b, d, w)
      ensures MinDiff(d, w) <= Abs(a - b)
    {
      CongRem(a - b, P);
      CongSym(d, a - b, P);
      NotBelow(a - b, d, w);
    }
  }

  lemma NearestIsMinDiff(m: nat, d: nat, w: nat)
    requires d < Pow2(w) && Nearest(m, d, w)
    ensures m == MinDiff(d, w)
  {
    hide Pow2, MinDiff, WordsAt;
    MinDiffIsNearest(d, w);
    var a: nat, b: nat :| WordsAt(a, b, d, w) && Abs(a - b) == m;
    var a': nat, b': nat :| WordsAt(a', b', d, w) && Abs(a' - b') == MinDiff(d, w);
  }

  /** The access and the constant fit between any two words that differ by d. */
  ghost predicate FitsBetween(n: nat, base: int, scale: int, d: nat, w: nat) {
    forall a: nat, b: nat | WordsAt(a, b, d, w) :: n + Abs(base) <= Abs(scale) * Abs(a - b)
  }

  /** In 64-bit arithmetic, the test asks whether the accesses fit into scale times the least distance of words that
      differ by d. */
  lemma GapSufficesIff(d: nat, w: nat, scale: int, n1: nat, n2: nat, base: int)
    requires d < Pow2(w)
    ensures GapSuffices(d, w, scale, n1, n2, base) <==>
            exists m: nat :: Nearest(m, d, w) && (n1 + Abs(base)) % TWO64 <= (m * Abs(scale)) % TWO64
                             && (n2 + Abs(base)) % TWO64 <= (m * Abs(scale)) % TWO64
  {
    hide Nearest, MinDiff, Pow2;
    MinDiffIsNearest(d, w);
    forall m: nat | Nearest(m, d, w)
      ensures m == MinDiff(d, w)
    {
      NearestIsMinDiff(m, d, w);
    }
  }

  /** So where nothing overflows, whether both fit between any two such words. */
  lemma GapSufficesIffFits(d: nat, w: nat, scale: int, n1: nat, n2: nat, base: int)
    requires d < Pow2(w) && Abs(scale) * Pow2(w) <= TWO64
    requires n1 + Abs(base) < TWO64 && n2 + Abs(base) < TWO64
    ensures GapSuffices(d, w, scale, n1, n2, base) <==>
            FitsBetween(n1, base, scale, d, w) && FitsBetween(n2, base, scale, d, w)
  {
    hide Pow2, MinDiff, WordsAt;
    var m, s := MinDiff(d, w), Abs(scale);
    MinDiffIsNearest(d, w);
    MinDiffIs(d, w);
    MulMonotone(2 * m, Pow2(w), s);
    assert s * (2 * m) == 2 * (m * s);
    RemainderIs(m * s, TWO64, 0, m * s);
    Bytes(m, s, n1, n2, base);
    FitsIff(n1, base, scale, m, d, w);
    FitsIff(n2, base, scale, m, d, w);
  }

  lemma FitsIff(n: nat, base: int, scale: int, m: nat, d: nat, w: nat)
    requires Nearest(m, d, w)
    ensures FitsBetween(n, base, scale, d, w) <==> n + Abs(base) <= m * Abs(scale)
  {
    hide WordsAt;
    var s := Abs(scale);
    var a: nat, b: nat :| WordsAt(a, b, d, w) && Abs(a - b) == m;
    MulMonotone(m, m, s);
    if n + Abs(base) <= m * s {
      forall a: nat, b: nat | WordsAt(a, b, d, w)
        ensures n + Abs(base) <= s * Abs(a - b)
      {
        MulMonotone(m, Abs(a - b), s);
      }
    }
  }

  // ----- Lengths that overflow -----

  /** The test goes right for all words and all accesses of up to `most` bytes. */
  ghost predicate RightUpTo(s: nat, w: nat, zext: nat, sext: nat, base: int, most: nat)
    requires w > 0
  {
    forall a: nat, b: nat, n1: nat, n2: nat | a < Pow2(w) && b < Pow2(w) && n1 <= most && n2 <= most ::
      RightAt(s, w, zext, sext, a, b, n1, n2, base)
  }

  ghost predicate RightAt(s: nat, w: nat, zext: nat, sext: nat, a: nat, b: nat, n1: nat, n2: nat, base: int)
    requires w > 0
  {
    GapSuffices(Apart(a, b, w), w, s, n1, n2, base) ==>
      Disjoint(base + s * Difference(a, b, w, zext, sext), n1, n2)
  }

  /** Where nothing goes all the way round, the test is right for all accesses up to a length exactly when that length
      and the constant do not overflow together. */
  lemma RightIffLengthsFit(s: nat, w: nat, zext: nat, sext: nat, base: int, most: nat)
    requires w > 0 && 0 < s <= TWO63 && ScaleFits(s, w, zext, sext) && 0 - TWO63 <= base < TWO63
    ensures RightUpTo(s, w, zext, sext, base, most) <==> most + Abs(base) < TWO64
  {
    hide ScaleFits, Pow2, Apart, Difference, GapBytes, GapSuffices, Disjoint;
    if most + Abs(base) < TWO64 {
      forall a: nat, b: nat, n1: nat, n2: nat | a < Pow2(w) && b < Pow2(w) && n1 <= most && n2 <= most
        ensures RightAt(s, w, zext, sext, a, b, n1, n2, base)
      {
        if GapSuffices(Apart(a, b, w), w, s, n1, n2, base) {
          WordsSound(a, b, w, zext, sext, Apart(a, b, w), s, n1, n2, base);
        }
      }
    } else {
      var a, b := LengthsOverflow(s, w, zext, sext, base);
      var n := TWO64 - Abs(base);
      assert !RightAt(s, w, zext, sext, a, b, n, n, base);
    }
  }

  /** The test sees a length of 0: with equal words, or, half the address space apart, with words that differ by 1. */
  lemma LengthsOverflow(s: nat, w: nat, zext: nat, sext: nat, base: int) returns (a: nat, b: nat)
    requires w > 0 && 0 < s <= TWO63 && ScaleFits(s, w, zext, sext) && 0 - TWO63 <= base < TWO63
    ensures a < Pow2(w) && b < Pow2(w) && !RightAt(s, w, zext, sext, a, b, TWO64 - Abs(base), TWO64 - Abs(base), base)
  {
    hide Pow2, Apart, Extend, GapBytes, Disjoint, ScaleFits;
    var n := TWO64 - Abs(base);
    RemainderIs(n + Abs(base), TWO64, 1, 0);
    if base != 0 - TWO63 {
      Halves(w);
      a, b := 0, 0;
      LengthOverflows(base, n);
      assert s * Difference(0, 0, w, zext, sext) == 0;
    } else {
      var p;
      a, b, p := OneStep(s, w, zext, sext);
      OppositeOverlap(s * Difference(a, b, w, zext, sext), p);
    }
  }

  /** Words whose scaled difference is not a multiple of the address space. */
  lemma OneStep(s: nat, w: nat, zext: nat, sext: nat) returns (a: nat, b: nat, p: nat)
    requires w > 0 && 0 < s <= TWO63 && ScaleFits(s, w, zext, sext)
    ensures a < Pow2(w) && b < Pow2(w) && 0 < p < TWO64
    ensures Cong(s * Difference(a, b, w, zext, sext), p, TWO64)
  {
    Halves(w);
    hide Pow2, LeftOver;
    if Mixed(zext, sext) && w == 1 {
      a, b, p := OneBit(s, zext, sext);
    } else if Mixed(zext, sext) {
      Halves(w - 1);
      a, b, p := 1, 0, s;
      ExtendWord(1, w, zext, sext);
      ExtendWord(0, w, zext, sext);
      CongSame(s, TWO64);
    } else {
      a, b := WordsApart(1, w, zext, sext);
      p := s;
      CongSame(s, TWO64);
    }
  }

  lemma OneBit(s: nat, zext: nat, sext: nat) returns (a: nat, b: nat, p: nat)
    requires zext > 0 && sext > 0 && 0 < s <= TWO63 && ScaleFits(s, 1, zext, sext)
    ensures a < Pow2(1) && b < Pow2(1) && 0 < p < TWO64 && Cong(s * Difference(a, b, 1, zext, sext), p, TWO64)
  {
    assert Pow2(0) == 1 && Pow2(1) == 2;
    hide Pow2;
    a, b := OppositeWords(1, 1);
    OppositeDifference(a, b, 1, zext, sext);
    var t := LeftOver(s, 1, sext);
    var x := RoundTrip(s, 1, Difference(a, b, 1, zext, sext), 1, sext);
    if s == TWO63 {
      LeastLeavesNothing(sext);
    }
    p := if t == 0 then s else s - t + TWO64;
    CongIntro(s - t + TWO64, s - t, 1, TWO64);
    CongSym(s - t + TWO64, s - t, TWO64);
    if t != 0 {
      CongTrans(s * Difference(a, b, 1, zext, sext), s - t, p, TWO64);
    }
  }

  lemma LeastLeavesNothing(sext: nat)
    ensures LeftOver(TWO63, 1, sext) == 0
  {
    var h := Pow2(sext);
    assert Pow2(1 + sext) == 2 * h;
    RemainderIs(TWO63 * (2 * h), TWO64, h, 0);
  }

  lemma OppositeOverlap(x: int, p: nat)
    requires 0 < p < TWO64 && Cong(x, p, TWO64)
    ensures !Disjoint(0 - TWO63 + x, TWO63, TWO63)
  {
    hide Disjoint, Cong;
    CongSame(0 - TWO63, TWO64);
    CongAdd(0 - TWO63, 0 - TWO63, x, p, TWO64);
    NearOverlap(0 - TWO63 + x, p - TWO63, TWO63);
  }
}
