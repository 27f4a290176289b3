/** Whether two accesses at a constant and some scaled variables apart have a byte in common: the tests on the
    decomposed addresses, in the order they are tried. */
module GepAlias {
  import opened Basics
  import opened Bits
  import opened Distance
  import opened LinearExpr
  import opened ExactLinear
  import opened SignedSums
  import opened ExtendedWords
  import opened PointerOffsets

  datatype AliasResult = NoAlias | MayAlias | PartialAlias | MustAlias

  /** What is known about the sign of a value. */
  datatype Sign = NonNegative | Negative | Unknown

  type KnownSign = Value -> Sign

  ghost predicate SignRight(known: KnownSign, v: Value, env: Env) {
    Readable(v, env) ==>
      && (known(v) == NonNegative ==> Signed(Eval(v, env).value, Width(v)) >= 0)
      && (known(v) == Negative ==> Signed(Eval(v, env).value, Width(v)) < 0)
  }

  ghost predicate SignSound(known: KnownSign, env: Env) {
    forall v :: SignRight(known, v, env)
  }

  ghost predicate AllReadable(idx: seq<Index>, env: Env) {
    forall i | 0 <= i < |idx| :: Readable(idx[i].v, env)
  }

  predicate AllTyped(idx: seq<Index>) {
    forall i | 0 <= i < |idx| :: WellTyped(idx[i].v)
  }

  // ----- The remainder the scales leave alone -----

  predicate DivideAll(idx: seq<Index>, k: nat) {
    forall i | 0 <= i < |idx| :: idx[i].scale % Pow2(k) == 0
  }

  lemma {:induction false} SumDivisible(idx: seq<Index>, k: nat, env: Env)
    requires DivideAll(idx, k)
    ensures Cong(Sum(idx, env), 0, Pow2(k))
  {
    if idx == [] {
      CongSame(0, Pow2(k));
    } else {
      SumDivisible(idx[1..], k, env);
      CongScale(idx[0].scale, 0, Variable(idx[0], env), Pow2(k));
      CongAdd(idx[0].scale * Variable(idx[0], env), 0, Sum(idx[1..], env), 0, Pow2(k));
    }
  }

  /** Where the scales are multiples of 2^k, the accesses are disjoint if the remainder of the constant keeps them
      so. */
  lemma RemainderDisjoint(base: int, d: int, k: nat, n1: nat, n2: nat)
    requires k <= 64 && Cong(d, base, Pow2(k))
    requires n2 <= base % Pow2(k) && n1 <= Pow2(k) - base % Pow2(k)
    ensures Disjoint(d, n1, n2)
  {
    hide Disjoint, Pow2;
    var M, r := Pow2(k), d % TWO64;
    Pow64();
    PowAdd(k, 64 - k);
    CongRem(d, TWO64);
    CongWeaken(r, d, k, 64);
    CongTrans(r, d, base, M);
    CongRem(base, M);
    CongSym(base % M, base, M);
    CongTrans(r, base, base % M, M);
    CongRemainder(r, base % M, M);
    NextMultiple(r, M, Pow2(64 - k));
    GapDisjoint(d, n1, n2);
  }

  lemma NextMultiple(r: nat, M: nat, t: nat)
    requires M > 0 && r < M * t
    ensures r % M <= r && r - r % M + M <= M * t
  {
    var q := r / M;
    assert r == M * q + r % M;
    AtLeastOnce(M, q - t);
    AtLeastOnce(M, q);
    assert q < t;
    assert M * (t - q) == M * t - M * q;
    AtLeastOnce(M, t - q);
  }

  /** There is room for both accesses between multiples of 2^k. */
  predicate RoomAt(base: int, k: nat, n1: nat, n2: nat) {
    n2 <= base % Pow2(k) && n1 <= Pow2(k) - base % Pow2(k)
  }

  ghost predicate DisjointAt(base: int, m: int, k: nat, n1: nat, n2: nat) {
    Disjoint(base + Pow2(k) * m, n1, n2)
  }

  /** Accesses of a byte or more have room exactly when they are disjoint whatever multiple of 2^k is added: the test
      cannot be made any better from the remainder alone. */
  lemma RoomIffDisjoint(base: int, k: nat, n1: nat, n2: nat)
    requires k <= 64 && n1 > 0 && n2 > 0
    ensures RoomAt(base, k, n1, n2) <==> forall m: int :: DisjointAt(base, m, k, n1, n2)
  {
    var M, r, q := Pow2(k), base % Pow2(k), base / Pow2(k);
    if RoomAt(base, k, n1, n2) {
      forall m: int
        ensures DisjointAt(base, m, k, n1, n2)
      {
        CongIntro(base + M * m, base, m, M);
        RemainderDisjoint(base, base + M * m, k, n1, n2);
      }
    } else if n2 > r {
      Back(base, M, q, r);
      CongSame(r, TWO64);
      assert SameByte(r, 0, r);
      assert !DisjointAt(base, 0 - q, k, n1, n2);
    } else {
      Back(base, M, q, r);
      CongSame(0, TWO64);
      assert SameByte(r - M, M - r, 0);
      assert !DisjointAt(base, 0 - q - 1, k, n1, n2);
    }
  }

  lemma Back(base: int, M: nat, q: int, r: int)
    requires base == M * q + r
    ensures base + M * (0 - q) == r && base + M * (0 - q - 1) == r - M
  {
  }

  /** The larger the modulus, the more room. */
  lemma RoomGrows(base: int, k: nat, k': nat, n1: nat, n2: nat)
    requires k <= k' && RoomAt(base, k, n1, n2)
    ensures RoomAt(base, k', n1, n2)
  {
    var M, r := Pow2(k), base % Pow2(k');
    PowAdd(k, k' - k);
    CongRem(base, Pow2(k'));
    CongWeaken(r, base, k, k');
    CongRem(base, M);
    CongSym(base % M, base, M);
    CongTrans(r, base, base % M, M);
    CongRemainder(r, base % M, M);
    hide Pow2;
    NextMultiple(r, M, Pow2(k' - k));
  }

  lemma UnsignedDivisible(scale: int, k: nat)
    requires k <= 64
    ensures scale % Pow2(k) == 0 <==> Unsigned64(scale) % Pow2(k) == 0
  {
    Pow64();
    CongRem(scale, TWO64);
    CongWeaken(scale % TWO64, scale, k, 64);
    CongSym(scale % TWO64, scale, Pow2(k));
    if Cong(scale, 0, Pow2(k)) {
      CongTrans(scale % TWO64, scale, 0, Pow2(k));
    }
    if Cong(scale % TWO64, 0, Pow2(k)) {
      CongTrans(scale, scale % TWO64, 0, Pow2(k));
    }
  }

  // ----- Signs -----

  /** The variable times its scale is not negative. */
  predicate PositiveTerm(i: Index, known: KnownSign) {
    var isZExt := i.zext > 0 || i.v.ZExt?;
    var zero := known(i.v) == NonNegative || isZExt;
    var one := known(i.v) == Negative && !isZExt;
    (zero && i.scale >= 0) || (one && i.scale < 0)
  }

  lemma PositiveTermIs(i: Index, known: KnownSign, env: Env)
    requires PositiveTerm(i, known) && SignRight(known, i.v, env) && Readable(i.v, env)
    ensures i.scale * Variable(i, env) >= 0
  {
    var x, w := Eval(i.v, env).value, Width(i.v);
    if i.v.ZExt? {
      EvalFits(i.v.operand, env);
      PowMonotone(Width(i.v.operand), w - 1);
      RemainderIs(x, Pow2(w), 0, x);
    }
    SameSign(i.scale, Variable(i, env));
  }

  lemma SameSign(a: int, b: int)
    ensures (a >= 0 && b >= 0) || (a <= 0 && b <= 0) ==> a * b >= 0
  {
  }

  /** What is known of the variable allows it to be x. */
  predicate Allowed(i: Index, known: KnownSign, x: int) {
    if i.zext > 0 || i.v.ZExt? then x >= 0
    else match known(i.v)
         case NonNegative => x >= 0
         case Negative => x < 0
         case Unknown => true
  }

  /** A term is taken not to be negative exactly when what is known of the variable makes sure of it. */
  lemma PositiveTermIff(i: Index, known: KnownSign)
    requires i.scale != 0
    ensures PositiveTerm(i, known) <==> forall x | Allowed(i, known, x) :: i.scale * x >= 0
  {
    if PositiveTerm(i, known) {
      forall x | Allowed(i, known, x)
        ensures i.scale * x >= 0
      {
        SameSign(i.scale, x);
      }
    } else {
      var x := if i.scale > 0 then -1 else 1;
      assert Allowed(i, known, x) && i.scale * x < 0;
    }
  }

  lemma {:induction false} PositiveSum(idx: seq<Index>, known: KnownSign, env: Env)
    requires AllPositive(idx, known)
    requires SignSound(known, env) && AllReadable(idx, env)
    ensures Sum(idx, env) >= 0
  {
    if idx != [] {
      assert SignRight(known, idx[0].v, env);
      PositiveTermIs(idx[0], known, env);
      PositiveSum(idx[1..], known, env);
    }
  }

  /** The bits are divisible by just those powers of two that divide every scale. */
  ghost predicate Gathered(bits: nat, idx: seq<Index>) {
    && bits < TWO64
    && (idx != [] ==> bits > 0)
    && forall k: nat | k <= 64 :: bits % Pow2(k) == 0 <==> DivideAll(idx, k)
  }

  predicate AllPositive(idx: seq<Index>, known: KnownSign) {
    forall i | 0 <= i < |idx| :: PositiveTerm(idx[i], known)
  }

  /** Gather the bits of all scales, and whether no term can be negative. */
  method ScanIndices(idx: seq<Index>, known: KnownSign) returns (bits: nat, allPositive: bool)
    requires Scales(idx)
    ensures Gathered(bits, idx)
    ensures allPositive <==> AllPositive(idx, known)
  {
    bits, allPositive := 0, true;
    NothingGathered(known);
    assert idx[..0] == [] && idx[..|idx|] == idx;
    for n := 0 to |idx|
      invariant Gathered(bits, idx[..n])
      invariant allPositive <==> AllPositive(idx[..n], known)
    {
      hide *;
      assert idx[..n + 1] == idx[..n] + [idx[n]];
      GatherOneMore(bits, idx, n);
      PositiveOneMore(idx[..n], idx[n], known);
      bits := BitOr(bits, Unsigned64(idx[n].scale));
      if allPositive {
        allPositive := PositiveTerm(idx[n], known);
      }
    }
  }

  function Unsigned64(x: int): nat {
    x % TWO64
  }

  lemma NothingGathered(known: KnownSign)
    ensures Gathered(0, []) && AllPositive([], known)
  {
  }

  lemma GatherOneMore(bits: nat, idx: seq<Index>, n: nat)
    requires n < |idx| && Scales(idx) && Gathered(bits, idx[..n])
    ensures Gathered(BitOr(bits, Unsigned64(idx[n].scale)), idx[..n + 1])
  {
    var s := Unsigned64(idx[n].scale);
    Pow64();
    if s == 0 {
      CongClose(idx[n].scale, 0, TWO64);
    }
    OrFits(bits, s, 64);
    OrPositive(bits, s);
    forall k: nat | k <= 64
      ensures BitOr(bits, s) % Pow2(k) == 0 <==> DivideAll(idx[..n + 1], k)
    {
      DividesOr(bits, s, k);
      UnsignedDivisible(idx[n].scale, k);
      assert idx[..n + 1] == idx[..n] + [idx[n]];
      DivideOneMore(idx[..n], idx[n], k);
    }
  }

  lemma PositiveOneMore(idx: seq<Index>, x: Index, known: KnownSign)
    ensures AllPositive(idx + [x], known) <==> AllPositive(idx, known) && PositiveTerm(x, known)
  {
    if AllPositive(idx + [x], known) {
      assert (idx + [x])[|idx|] == x;
      assert forall i | 0 <= i < |idx| :: (idx + [x])[i] == idx[i];
    }
  }

  lemma DivideOneMore(idx: seq<Index>, x: Index, k: nat)
    ensures DivideAll(idx + [x], k) <==> DivideAll(idx, k) && x.scale % Pow2(k) == 0
  {
    if DivideAll(idx + [x], k) {
      assert (idx + [x])[|idx|] == x;
      assert forall i | 0 <= i < |idx| :: (idx + [x])[i] == idx[i];
    }
  }

  lemma {:induction false} OrPositive(a: nat, b: nat)
    requires b > 0
    ensures BitOr(a, b) > 0
  {
    if a != 0 && b / 2 > 0 {
      OrPositive(a / 2, b / 2);
    }
  }

  // ----- Two variables a constant apart -----

  /** Variables that are extended alike are of one width: every one is extended to the width of a pointer. */
  predicate SameWidths(idx: seq<Index>) {
    forall i, j | 0 <= i < j < |idx| && idx[i].zext == idx[j].zext && idx[i].sext == idx[j].sext ::
      Width(idx[i].v) == Width(idx[j].v)
  }

  /** Two variables with opposite scales that are a constant apart, and accesses short enough for the least distance. */
  predicate ConstantOffsetHeuristic(masked: Masked, same: Same, idx: seq<Index>, v1Size: nat, v2Size: nat, base: int)
    requires AllTyped(idx)
  {
    if |idx| != 2 || v1Size == UNKNOWN_SIZE || v2Size == UNKNOWN_SIZE then false
    else
      var x, y := idx[0], idx[1];
      if x.zext != y.zext || x.sext != y.sext || x.scale != Wrap64(0 - y.scale) then false
      else
        var w := Width(y.v);
        var l, m := GetLinear(masked, x.v, w, 0, 0, 0), GetLinear(masked, y.v, w, 0, 0, 0);
        if l.scale != m.scale || l.zext != m.zext || l.sext != m.sext || !same(l.value, m.value) then false
        else GapSuffices((l.offset - m.offset) % Pow2(w), w, x.scale, v1Size, v2Size, base)
  }

  /** Two variables with the same decomposition but for the offset. */
  predicate SameLine(masked: Masked, idx: seq<Index>) {
    && |idx| == 2 && AllTyped(idx) && Width(idx[0].v) == Width(idx[1].v)
    && var l, m := Decomposition(masked, idx[0].v), Decomposition(masked, idx[1].v);
       l.value == m.value && l.scale == m.scale && l.zext == m.zext && l.sext == m.sext
  }

  /** How far apart the recorded offsets are, and the words. */
  function Recorded(masked: Masked, idx: seq<Index>): (r: nat)
    requires |idx| == 2 && AllTyped(idx)
    ensures r < Pow2(Width(idx[1].v))
  {
    RecordedDistance(masked, idx[0].v, idx[1].v) % Pow2(Width(idx[1].v))
  }

  ghost function ApartAt(idx: seq<Index>, env: Env): (d: nat)
    requires |idx| == 2 && AllTyped(idx) && AllReadable(idx, env)
    ensures d < Pow2(Width(idx[1].v))
  {
    Apart(Eval(idx[0].v, env).value, Eval(idx[1].v, env).value, Width(idx[1].v))
  }

  /** The least distance that the recorded offsets say, in bytes, is no more than that of the words. */
  ghost predicate NoNearer(masked: Masked, idx: seq<Index>, env: Env)
    requires |idx| == 2 && AllTyped(idx) && AllReadable(idx, env)
  {
    var w, s := Width(idx[1].v), idx[0].scale;
    GapBytes(Recorded(masked, idx), w, s) <= GapBytes(ApartAt(idx, env), w, s)
  }

  /** It is no more than that of the words as a whole number; for the scale that has no negative, only in 64-bit
      arithmetic. */
  ghost predicate NoNearerInReach(masked: Masked, idx: seq<Index>, env: Env)
    requires |idx| == 2 && AllTyped(idx) && AllReadable(idx, env)
  {
    var w, s, d := Width(idx[1].v), idx[0].scale, ApartAt(idx, env);
    GapBytes(Recorded(masked, idx), w, s) <= if Abs(s) == TWO63 then GapBytes(d, w, s) else MinDiff(d, w) * Abs(s)
  }

  /** Both can be told from the lines with every constant extended by itself. */
  lemma NoNearerByLines(masked: Masked, idx: seq<Index>, env: Env)
    requires SameLine(masked, idx) && AllReadable(idx, env) && MaskSound(masked, env)
    requires SignsKept(masked, idx[0].v, Width(idx[0].v), 0, env)
    requires SignsKept(masked, idx[1].v, Width(idx[1].v), 0, env)
    ensures var u, v, w, s := idx[0].v, idx[1].v, Width(idx[1].v), idx[0].scale;
            var r, d := Recorded(masked, idx), LineDistance(masked, u, v, ExtendedValue(masked, u, env)) % Pow2(w);
            && (NoNearer(masked, idx, env) <==> GapBytes(r, w, s) <= GapBytes(d, w, s))
            && (Abs(s) != TWO63 ==>
                  (NoNearerInReach(masked, idx, env) <==> GapBytes(r, w, s) <= MinDiff(d, w) * Abs(s)))
  {
    hide GetLinear, Eval, SignsKept, ExtendedValue, TrueLine, MaskSound, MinDiff, GapBytes, Recorded, LineDistance,
         Pow2, Cong, Decomposition;
    var u, v, w := idx[0].v, idx[1].v, Width(idx[1].v);
    SameValue(masked, u, v, env);
    LinesApart(masked, u, v, env);
    CongRemainders(LineDistance(masked, u, v, ExtendedValue(masked, u, env)), Eval(u, env).value - Eval(v, env).value,
                   Pow2(w));
  }

  lemma CongRemainders(x: int, y: int, m: nat)
    requires m > 0 && Cong(x, y, m)
    ensures x % m == y % m
  {
    CongRem(y, m);
    CongSym(y % m, y, m);
    CongTrans(x, y, y % m, m);
    CongRemainder(x, y % m, m);
  }

  /** They hold where the recorded offsets are as far apart as the lines, which is just where they are as far apart as
      the words. */
  lemma NoNearerIfSame(masked: Masked, idx: seq<Index>, env: Env)
    requires SameLine(masked, idx) && AllReadable(idx, env) && MaskSound(masked, env)
    requires SignsKept(masked, idx[0].v, Width(idx[0].v), 0, env)
    requires SignsKept(masked, idx[1].v, Width(idx[1].v), 0, env)
    requires var u, v := idx[0].v, idx[1].v;
             Cong(RecordedDistance(masked, u, v), LineDistance(masked, u, v, ExtendedValue(masked, u, env)),
                  Pow2(Width(u)))
    ensures Recorded(masked, idx) == ApartAt(idx, env)
    ensures NoNearer(masked, idx, env) && NoNearerInReach(masked, idx, env)
  {
    hide GetLinear, Eval, SignsKept, ExtendedValue, TrueLine, MaskSound, MinDiff, LineDistance, Pow2, Cong,
         Decomposition;
    var u, v, w := idx[0].v, idx[1].v, Width(idx[1].v);
    SameValue(masked, u, v, env);
    DistanceIff(masked, u, v, env);
    CongRemainders(RecordedDistance(masked, u, v), Eval(u, env).value - Eval(v, env).value, Pow2(w));
    RemainderAtMost(MinDiff(ApartAt(idx, env), w) * Abs(idx[0].scale), TWO64);
  }

  /** Nothing is lost where nothing is sign-extended. */
  lemma KeptWithoutSExt(masked: Masked, idx: seq<Index>, env: Env)
    requires SameLine(masked, idx) && AllReadable(idx, env) && MaskSound(masked, env)
    requires !SignExtends(idx[0].v) && !SignExtends(idx[1].v)
    ensures Recorded(masked, idx) == ApartAt(idx, env)
    ensures NoNearer(masked, idx, env) && NoNearerInReach(masked, idx, env)
  {
    var u, v, w := idx[0].v, idx[1].v, Width(idx[0].v);
    TrueWithoutSExt(masked, u, w, 0, [], env);
    TrueWithoutSExt(masked, v, w, 0, [], env);
    hide GetLinear, TrueLine, SignsKept, Eval, Pow2, Cong, LineDistance, ExtendedValue, NoNearer, NoNearerInReach,
         Recorded, MaskSound;
    var k, l, s, t, P := Decomposition(masked, u), Decomposition(masked, v), Line0(masked, u), Line0(masked, v),
      Pow2(w);
    CongSym(k.scale, s.scale, P);
    CongTrans(s.scale, k.scale, t.scale, P);
    CongAdd(k.offset, s.offset, l.offset, t.offset, P);
    SameDistance(masked, u, v, ExtendedValue(masked, u, env));
    NoNearerIfSame(masked, idx, env);
  }

  /** Nor where only sums are sign-extended, of signed constants that add up to something that fits. */
  lemma KeptWhereSumsFit(masked: Masked, idx: seq<Index>, env: Env)
    requires SameLine(masked, idx) && AllReadable(idx, env) && MaskSound(masked, env)
    requires Additive(idx[0].v) && Additive(idx[1].v)
    requires AllFit(masked, idx[0].v, Width(idx[0].v), 0) && AllFit(masked, idx[1].v, Width(idx[1].v), 0)
    ensures Recorded(masked, idx) == ApartAt(idx, env)
    ensures NoNearer(masked, idx, env) && NoNearerInReach(masked, idx, env)
  {
    var u, v, w := idx[0].v, idx[1].v, Width(idx[0].v);
    SumOffsets(masked, u, env);
    SumOffsets(masked, v, env);
    hide GetLinear, TrueLine, SignsKept, Eval, Pow2, AllFit, MaskSound, Cong, LineDistance, ExtendedValue, NoNearer,
         NoNearerInReach, Recorded;
    var k, l, s, t, P := Decomposition(masked, u), Decomposition(masked, v), Line0(masked, u), Line0(masked, v),
      Pow2(w);
    CongSame(s.scale, P);
    CongAdd(k.offset, s.offset, l.offset, t.offset, P);
    SameDistance(masked, u, v, ExtendedValue(masked, u, env));
    NoNearerIfSame(masked, idx, env);
  }

  lemma SameDistance(masked: Masked, u: Value, v: Value, x: int)
    requires WellTyped(u) && WellTyped(v) && Width(u) == Width(v)
    requires Cong(Line0(masked, u).scale, Line0(masked, v).scale, Pow2(Width(u)))
    requires Cong(RecordedDistance(masked, u, v), Line0(masked, u).offset - Line0(masked, v).offset, Pow2(Width(u)))
    ensures Cong(RecordedDistance(masked, u, v), LineDistance(masked, u, v, x), Pow2(Width(u)))
  {
    hide GetLinear, TrueLine, Pow2, Cong, LineDistance, WellTyped, RecordedDistance, Line0;
    SameScales(masked, u, v, x);
    var d, e, P := LineDistance(masked, u, v, x), Line0(masked, u).offset - Line0(masked, v).offset, Pow2(Width(u));
    CongSym(d, e, P);
    CongTrans(RecordedDistance(masked, u, v), e, d, P);
  }

  /** Where two decompositions have the same value, extended alike, that is the same number. */
  lemma SameValue(masked: Masked, u: Value, v: Value, env: Env)
    requires WellTyped(u) && WellTyped(v) && Decomposition(masked, u).value == Decomposition(masked, v).value
    requires Decomposition(masked, u).zext == Decomposition(masked, v).zext
    requires Decomposition(masked, u).sext == Decomposition(masked, v).sext
    ensures ExtendedValue(masked, u, env) == ExtendedValue(masked, v, env)
  {
    hide GetLinear, Eval, WellTyped;
  }

  /** What the test goes by. */
  lemma HeuristicSame(masked: Masked, same: Same, idx: seq<Index>, n1: nat, n2: nat, base: int)
    requires SameSound(same) && AllTyped(idx) && SameWidths(idx)
    requires ConstantOffsetHeuristic(masked, same, idx, n1, n2, base)
    ensures SameLine(masked, idx) && n1 != UNKNOWN_SIZE && n2 != UNKNOWN_SIZE
    ensures idx[0].zext == idx[1].zext && idx[0].sext == idx[1].sext && idx[0].scale == Wrap64(0 - idx[1].scale)
    ensures GapSuffices(Recorded(masked, idx), Width(idx[1].v), idx[0].scale, n1, n2, base)
  {
    hide GetLinear, GapSuffices, Pow2, Wrap64;
    assert SameWidths(idx) && Width(idx[0].v) == Width(idx[1].v);
  }

  /** What makes the test look at the least distance at all. */
  predicate Comparable(masked: Masked, same: Same, idx: seq<Index>, n1: nat, n2: nat) {
    && |idx| == 2 && AllTyped(idx) && n1 != UNKNOWN_SIZE && n2 != UNKNOWN_SIZE
    && idx[0].zext == idx[1].zext && idx[0].sext == idx[1].sext && idx[0].scale == Wrap64(0 - idx[1].scale)
    && var l, m := Decomposition(masked, idx[0].v), Decomposition(masked, idx[1].v);
       l.scale == m.scale && l.zext == m.zext && l.sext == m.sext && same(l.value, m.value)
  }

  /** The test says yes exactly to accesses of known sizes at two variables of the same decomposition, extended alike
      and with opposite scales, that fit with the constant offset into scale times the least distance of words that
      differ as the recorded offsets do. */
  lemma HeuristicIff(masked: Masked, same: Same, idx: seq<Index>, n1: nat, n2: nat, base: int)
    requires AllTyped(idx) && SameWidths(idx)
    ensures ConstantOffsetHeuristic(masked, same, idx, n1, n2, base) <==>
            && Comparable(masked, same, idx, n1, n2)
            && exists m: nat :: Nearest(m, Recorded(masked, idx), Width(idx[1].v))
                                && (n1 + Abs(base)) % TWO64 <= (m * Abs(idx[0].scale)) % TWO64
                                && (n2 + Abs(base)) % TWO64 <= (m * Abs(idx[0].scale)) % TWO64
  {
    hide GetLinear, GapSuffices, Pow2, Wrap64, Nearest, ConstantOffsetHeuristic, Recorded;
    HeuristicIsGap(masked, same, idx, n1, n2, base);
    if Comparable(masked, same, idx, n1, n2) {
      GapSufficesIff(Recorded(masked, idx), Width(idx[1].v), idx[0].scale, n1, n2, base);
    }
  }

  lemma HeuristicIsGap(masked: Masked, same: Same, idx: seq<Index>, n1: nat, n2: nat, base: int)
    requires AllTyped(idx) && SameWidths(idx)
    ensures ConstantOffsetHeuristic(masked, same, idx, n1, n2, base) <==>
            && Comparable(masked, same, idx, n1, n2)
            && GapSuffices(Recorded(masked, idx), Width(idx[1].v), idx[0].scale, n1, n2, base)
  {
    hide GetLinear, GapSuffices, Pow2, Wrap64;
    if |idx| == 2 && idx[0].zext == idx[1].zext && idx[0].sext == idx[1].sext {
      assert SameWidths(idx) && Width(idx[0].v) == Width(idx[1].v);
    }
  }

  /** Where nothing overflows, and recorded and true distance are the same: exactly when the accesses fit between any
      two words that differ as the values of the variables do. */
  lemma HeuristicIffFits(masked: Masked, same: Same, idx: seq<Index>, n1: nat, n2: nat, base: int, env: Env)
    requires AllTyped(idx) && SameWidths(idx) && AllReadable(idx, env) && Comparable(masked, same, idx, n1, n2)
    requires Recorded(masked, idx) == ApartAt(idx, env) && Abs(idx[0].scale) * Pow2(Width(idx[1].v)) <= TWO64
    requires n1 + Abs(base) < TWO64 && n2 + Abs(base) < TWO64
    ensures var d, w, s := ApartAt(idx, env), Width(idx[1].v), idx[0].scale;
            ConstantOffsetHeuristic(masked, same, idx, n1, n2, base) <==>
            FitsBetween(n1, base, s, d, w) && FitsBetween(n2, base, s, d, w)
  {
    hide GetLinear, GapSuffices, Pow2, Wrap64, FitsBetween, Eval;
    assert SameWidths(idx) && Width(idx[0].v) == Width(idx[1].v);
    GapSufficesIffFits(Recorded(masked, idx), Width(idx[1].v), idx[0].scale, n1, n2, base);
  }

  lemma SumOfTwo(idx: seq<Index>, env: Env)
    requires |idx| == 2
    ensures Sum(idx, env) == idx[0].scale * Variable(idx[0], env) + idx[1].scale * Variable(idx[1], env)
  {
    hide Variable;
    var rest := idx[1..];
    assert rest[0] == idx[1] && rest[1..] == [];
    assert Sum(rest, env) == rest[0].scale * Variable(rest[0], env) + Sum(rest[1..], env);
  }

  lemma OppositeScales(s: int, t: int)
    requires InInt64(t) && s == Wrap64(0 - t)
    ensures s == 0 - t || s == t == 0 - TWO63
    ensures forall e :: Cong(t * e, (0 - s) * e, TWO64)
  {
    if t != 0 - TWO63 {
      CongClose(s, 0 - t, TWO64);
    } else {
      CongIntro(0 - TWO63, TWO63, -1, TWO64);
      CongSym(s, 0 - t, TWO64);
      CongTrans(0 - TWO63, TWO63, s, TWO64);
      CongClose(0 - TWO63, s, TWO64);
    }
    forall e
      ensures Cong(t * e, (0 - s) * e, TWO64)
    {
      CongSym(s, 0 - t, TWO64);
      CongSame(0, TWO64);
      CongAdd(0, 0, 0 - t, s, TWO64);
      CongScale(t, 0 - s, e, TWO64);
    }
  }

  /** In 64-bit arithmetic the two terms are scale times the difference of the variables. */
  lemma TwoTerms(idx: seq<Index>, env: Env)
    requires |idx| == 2 && InInt64(idx[1].scale) && idx[0].scale == Wrap64(0 - idx[1].scale)
    ensures Cong(Sum(idx, env), idx[0].scale * (Variable(idx[0], env) - Variable(idx[1], env)), TWO64)
    ensures idx[0].scale == 0 - idx[1].scale ==>
              Sum(idx, env) == idx[0].scale * (Variable(idx[0], env) - Variable(idx[1], env))
  {
    var s, t, e, f := idx[0].scale, idx[1].scale, Variable(idx[0], env), Variable(idx[1], env);
    SumOfTwo(idx, env);
    OppositeScales(s, t);
    hide *;
    CongSame(s * e, TWO64);
    CongAdd(s * e, s * e, t * f, (0 - s) * f, TWO64);
    Factored(s, e, f);
  }

  lemma Factored(s: int, e: int, f: int)
    ensures s * e + (0 - s) * f == s * (e - f) && (0 - s) * f == 0 - s * f
  {
  }

  /** The distance, as a whole number, stays within half the address space. */
  ghost predicate InReach(idx: seq<Index>, base: int, env: Env) {
    0 - TWO63 <= base + Sum(idx, env) <= TWO63
  }

  /** Neither the scaled variables nor the lengths go all the way round the address space. */
  predicate NotAround(idx: seq<Index>, base: int, n1: nat, n2: nat) {
    && |idx| == 2 && n1 + Abs(base) < TWO64 && n2 + Abs(base) < TWO64
    && ScaleFits(Abs(idx[0].scale), Width(idx[1].v), idx[0].zext, idx[0].sext)
  }

  /** The variables differ as extended words do. */
  lemma VariablesApart(idx: seq<Index>, env: Env)
    requires |idx| == 2 && AllTyped(idx) && AllReadable(idx, env) && Width(idx[0].v) == Width(idx[1].v)
    requires idx[0].zext == idx[1].zext && idx[0].sext == idx[1].sext
    ensures var a, b, w := Eval(idx[0].v, env).value, Eval(idx[1].v, env).value, Width(idx[1].v);
            && w > 0 && a < Pow2(w) && b < Pow2(w)
            && Variable(idx[0], env) - Variable(idx[1], env) == Difference(a, b, w, idx[0].zext, idx[0].sext)
  {
    hide Extend, Eval, Pow2;
    EvalFits(idx[0].v, env);
    EvalFits(idx[1].v, env);
  }

  /** When the heuristic answers yes, the accesses are disjoint for every value of the variables, around the end of the
      address space too, if neither the scaled variables nor the lengths go all the way round it. */
  lemma HeuristicSound(masked: Masked, same: Same, idx: seq<Index>, n1: nat, n2: nat, base: int, env: Env)
    requires SameSound(same) && AllTyped(idx) && SameWidths(idx) && AllReadable(idx, env) && Scales(idx)
    requires ConstantOffsetHeuristic(masked, same, idx, n1, n2, base) && NoNearer(masked, idx, env)
    requires NotAround(idx, base, n1, n2)
    ensures Disjoint(base + Sum(idx, env), n1, n2)
  {
    hide Sum, Disjoint, GapSuffices, Eval, SameSound, Difference, Apart, Variable, Pow2, Cong, GapBytes, ScaleFits,
         SameLine, Recorded, WellTyped;
    HeuristicSame(masked, same, idx, n1, n2, base);
    VariablesApart(idx, env);
    var a, b, w, s := Eval(idx[0].v, env).value, Eval(idx[1].v, env).value, Width(idx[1].v), idx[0].scale;
    WordsSound(a, b, w, idx[0].zext, idx[0].sext, Recorded(masked, idx), s, n1, n2, base);
    TwoTerms(idx, env);
    var D := Difference(a, b, w, idx[0].zext, idx[0].sext);
    CongSame(base, TWO64);
    CongAdd(base, base, Sum(idx, env), s * D, TWO64);
    CongDisjoint(base + Sum(idx, env), base + s * D, n1, n2);
  }

  /** It is also right, whatever the scale, where the distance stays within half the address space. */
  lemma HeuristicSoundWithoutWrap(masked: Masked, same: Same, idx: seq<Index>, n1: nat, n2: nat, base: int, env: Env)
    requires SameSound(same) && AllTyped(idx) && SameWidths(idx) && AllReadable(idx, env) && Scales(idx)
    requires ConstantOffsetHeuristic(masked, same, idx, n1, n2, base) && NoNearerInReach(masked, idx, env)
    requires n1 < TWO63 && n2 < TWO63 && InInt64(base) && InReach(idx, base, env)
    ensures Disjoint(base + Sum(idx, env), n1, n2)
  {
    hide Sum, Disjoint, GapSuffices, Eval, SameSound, Difference, Variable, Pow2, Cong, GapBytes, SameLine, Recorded,
         WellTyped, MinDiff, LeftOver;
    if Abs(idx[0].scale) == TWO63 {
      HeuristicSound(masked, same, idx, n1, n2, base, env);
    } else {
      HeuristicSame(masked, same, idx, n1, n2, base);
      VariablesApart(idx, env);
      var a, b, w, s := Eval(idx[0].v, env).value, Eval(idx[1].v, env).value, Width(idx[1].v), idx[0].scale;
      DifferenceIs(a, b, w, idx[0].zext, idx[0].sext);
      TwoTerms(idx, env);
      OppositeScales(s, idx[1].scale);
      GapSoundWithoutWrap(Difference(a, b, w, idx[0].zext, idx[0].sext), Recorded(masked, idx), Apart(a, b, w), w, s,
                          n1, n2, base);
    }
  }

  function FirstSum(): Value {
    SExt(Binary(Add, Opaque(0, 8), 120, true, false), 16)
  }

  function SecondSum(): Value {
    SExt(Binary(Add, Binary(Add, Opaque(0, 8), 65, true, false), 65, true, false), 16)
  }

  lemma SumsEvaluate(env: Env)
    requires env(0) == Some(200)
    ensures WellTyped(FirstSum()) && Eval(FirstSum(), env) == Some(64)
    ensures WellTyped(SecondSum()) && Eval(SecondSum(), env) == Some(74)
  {
    SmallPowers();
    var x := Opaque(0, 8);
    assert Eval(x, env) == Some(200);
    assert Signed(200, 8) == -56 && Signed(120, 8) == 120 && Signed(65, 8) == 65 && Signed(9, 8) == 9;
    assert Eval(FirstSum().operand, env) == Some(64);
    assert Eval(SecondSum().operand.lhs, env) == Some(9);
    assert Eval(SecondSum().operand, env) == Some(74);
    assert Signed(64, 8) == 64 && Signed(74, 8) == 74;
  }

  lemma SumsDecompose(masked: Masked)
    ensures WellTyped(FirstSum()) && WellTyped(SecondSum())
    ensures GetLinear(masked, FirstSum(), 16, 0, 0, 0) == Linear(Opaque(0, 8), 1, 120, 0, 8, true, false)
    ensures GetLinear(masked, SecondSum(), 16, 0, 0, 0) == Linear(Opaque(0, 8), 1, 65410, 0, 8, true, false)
  {
    hide Pow2;
    SmallPowers();
    var x := Opaque(0, 8);
    assert GetLinear(masked, x, 16, 0, 0, 2) == Undecomposed(x, 0, 0);
    assert GetLinear(masked, x, 16, 0, 0, 3) == Undecomposed(x, 0, 0);
    assert GetLinear(masked, FirstSum().operand, 16, 0, 0, 1) == Linear(x, 1, 120, 0, 0, true, false);
    assert GetLinear(masked, SecondSum().operand.lhs, 16, 0, 0, 2) == Linear(x, 1, 65, 0, 0, true, false);
    assert GetLinear(masked, SecondSum().operand, 16, 0, 0, 1) == Linear(x, 1, 130, 0, 0, true, false);
    assert Signed(120, 8) == 120 && Signed(130, 8) == -126;
  }

  lemma SumsApart()
    ensures GapSuffices((120 - 65410) % Pow2(16), 16, 1, 100, 100, 0) && !Disjoint(-10, 100, 100)
    ensures 1 == Wrap64(0 - -1)
  {
    hide Disjoint, Cong, Pow2, MinDiff, Wrap64;
    SmallPowers();
    RemainderIs(120 - 65410, 65536, -1, 246);
    MinDiffIs(246, 16);
    CongSame(-10, TWO64);
    NearOverlap(-10, -10, 100);
    CongClose(Wrap64(1), 1, TWO64);
  }

  lemma SumsAreWide()
    ensures Width(FirstSum()) == Width(SecondSum()) == 16
  {
  }

  lemma SumsVariables(env: Env)
    requires env(0) == Some(200)
    ensures Variable(Index(FirstSum(), 48, 0, 1), env) == 64 && Variable(Index(SecondSum(), 48, 0, -1), env) == 74
  {
    SmallPowers();
    SumsEvaluate(env);
    assert Pow2(15) == 32768;
    assert Signed(64, 16) == 64 && Signed(74, 16) == 74;
  }

  /** Where sign extension loses bits, the heuristic goes wrong: x + 120 and x + 65 + 65, both sign-extended from 8 bits
      to 16, are 10 apart, but their decompositions are 246 apart, and accesses of 100 bytes are said not to overlap. */
  lemma SignExtendedSumsMislead(masked: Masked, same: Same, env: Env)
    requires env(0) == Some(200) && same(Opaque(0, 8), Opaque(0, 8))
    ensures var idx := [Index(FirstSum(), 48, 0, 1), Index(SecondSum(), 48, 0, -1)];
            && AllTyped(idx) && AllReadable(idx, env)
            && ConstantOffsetHeuristic(masked, same, idx, 100, 100, 0)
            && Sum(idx, env) == -10 && !Disjoint(-10, 100, 100)
  {
    hide Pow2, Variable, Sum, Disjoint, GapSuffices, GetLinear, Wrap64, Eval, MinDiff, Signed, WellTyped, FirstSum,
         SecondSum;
    var idx := [Index(FirstSum(), 48, 0, 1), Index(SecondSum(), 48, 0, -1)];
    SumsAreWide();
    SumsEvaluate(env);
    SumsDecompose(masked);
    SumOfTwo(idx, env);
    SumsVariables(env);
    SumsApart();
  }

  /** x + 1 and x, 8 bits wide, sign-extended to 62 bits and then zero-extended. */
  function MixedPair(): seq<Index> {
    var x := Opaque(0, 8);
    [Index(Binary(Add, x, 1, false, true), 2, 54, MIXED_SCALE), Index(x, 2, 54, 0 - MIXED_SCALE)]
  }

  const MIXED_SCALE: nat := 0x40_0000_0000_0001

  lemma MixedDecompose(masked: Masked)
    ensures AllTyped(MixedPair())
    ensures GetLinear(masked, MixedPair()[0].v, 8, 0, 0, 0) == Linear(Opaque(0, 8), 1, 1, 0, 0, false, true)
    ensures GetLinear(masked, MixedPair()[1].v, 8, 0, 0, 0) == Undecomposed(Opaque(0, 8), 0, 0)
  {
    hide Pow2;
    SmallPowers();
    assert GetLinear(masked, Opaque(0, 8), 8, 0, 0, 1) == Undecomposed(Opaque(0, 8), 0, 0);
  }

  lemma MixedEvaluate(env: Env)
    requires env(0) == Some(127)
    ensures AllTyped(MixedPair()) && AllReadable(MixedPair(), env)
    ensures Eval(MixedPair()[0].v, env) == Some(128) && Eval(MixedPair()[1].v, env) == Some(127)
  {
    hide Pow2;
    SmallPowers();
    assert Eval(Opaque(0, 8), env) == Some(127);
  }

  lemma MixedDifference()
    ensures Difference(128, 127, 8, 2, 54) == 0x4000_0000_0000_0000 - 255
    ensures Pow2(8) == 256 && Pow2(62) == 0x4000_0000_0000_0000
  {
    SmallPowers();
    Pow64();
    Halves(63);
    hide Pow2;
    Halves(8);
    ExtendWord(128, 8, 2, 54);
    ExtendWord(127, 8, 2, 54);
  }

  lemma MixedTooNear()
    ensures GapSuffices(1 % Pow2(8), 8, MIXED_SCALE, MIXED_SCALE, MIXED_SCALE, 0)
    ensures !Disjoint(MIXED_SCALE * (0x4000_0000_0000_0000 - 255), MIXED_SCALE, MIXED_SCALE)
    ensures MIXED_SCALE * Pow2(8) <= TWO64 && !ScaleFits(MIXED_SCALE, 8, 2, 54)
    ensures MIXED_SCALE == Wrap64(0 - (0 - MIXED_SCALE))
  {
    hide Disjoint, Cong, Pow2, MinDiff;
    MixedDifference();
    MinDiffIs(1, 8);
    RemainderIs(MIXED_SCALE, TWO64, 0, MIXED_SCALE);
    RemainderIs(MIXED_SCALE * 0x4000_0000_0000_0000, TWO64, 0x10_0000_0000_0000, 0x4000_0000_0000_0000);
    var d, p := MIXED_SCALE * (0x4000_0000_0000_0000 - 255), 0x40_0000_0000_0000 - 255;
    CongIntro(d, p, 0x10_0000_0000_0000, TWO64);
    NearOverlap(d, p, MIXED_SCALE);
    CongClose(Wrap64(MIXED_SCALE), MIXED_SCALE, TWO64);
  }

  /** Extended both ways, two variables one apart land so near each other around the end of the address space that the
      accesses, which are said not to overlap, do, although scale * 2^width fits. */
  lemma MixedExtensionsMislead(masked: Masked, same: Same, env: Env)
    requires env(0) == Some(127) && same(Opaque(0, 8), Opaque(0, 8))
    ensures AllTyped(MixedPair()) && AllReadable(MixedPair(), env)
    ensures ConstantOffsetHeuristic(masked, same, MixedPair(), MIXED_SCALE, MIXED_SCALE, 0)
    ensures MIXED_SCALE * Pow2(8) <= TWO64 && NoNearer(masked, MixedPair(), env)
    ensures !Disjoint(Sum(MixedPair(), env), MIXED_SCALE, MIXED_SCALE)
  {
    hide Pow2, Variable, Sum, Disjoint, GapSuffices, GetLinear, Wrap64, Eval, Extend, WellTyped, ScaleFits;
    var idx := MixedPair();
    MixedDecompose(masked);
    MixedEvaluate(env);
    MixedDifference();
    MixedTooNear();
    assert Recorded(masked, idx) == 1 % Pow2(8) && ApartAt(idx, env) == 1 % Pow2(8);
    VariablesApart(idx, env);
    SumOfTwo(idx, env);
    Factored(MIXED_SCALE, Variable(idx[0], env), Variable(idx[1], env));
  }

  // ----- All the tests -----

  predicate Query(idx: seq<Index>, v1Size: nat, v2Size: nat, base: int) {
    && Scales(idx) && AllTyped(idx) && SameWidths(idx)
    && v1Size <= UNKNOWN_SIZE && v2Size <= UNKNOWN_SIZE && InInt64(base)
  }

  /** The accesses are as long as was said, and shorter than half the address space. */
  ghost predicate Lengths(v1Size: nat, v2Size: nat, n1: nat, n2: nat) {
    && n1 < TWO63 && n2 < TWO63
    && (v1Size != UNKNOWN_SIZE ==> n1 == v1Size) && (v2Size != UNKNOWN_SIZE ==> n2 == v2Size)
  }

  /** What holds when the accesses are made: nothing is poison, the oracles are right, and the accesses are as long as
      was said. */
  ghost predicate Situation(masked: Masked, known: KnownSign, idx: seq<Index>, v1Size: nat, v2Size: nat,
                            env: Env, n1: nat, n2: nat) {
    && AllTyped(idx) && AllReadable(idx, env) && MaskSound(masked, env) && SignSound(known, env)
    && Lengths(v1Size, v2Size, n1, n2)
  }

  /** The access at the positive distance ends before the address space does. */
  ghost predicate NotPastEnd(idx: seq<Index>, base: int, env: Env, n1: nat) {
    base + Sum(idx, env) + n1 <= TWO64
  }

  /** A test separates the accesses, and what that test relies on holds. The test on the remainder relies on nothing. */
  ghost predicate Justified(masked: Masked, same: Same, known: KnownSign, idx: seq<Index>, v1Size: nat, v2Size: nat,
                            base: int, env: Env, n1: nat, n2: nat)
    requires AllTyped(idx)
  {
    || (v1Size != UNKNOWN_SIZE && v2Size != UNKNOWN_SIZE && SomeRoom(idx, v1Size, v2Size, base))
    || (AllPositive(idx, known) && 0 < base && v2Size <= base && NotPastEnd(idx, base, env, n1))
    || (ConstantOffsetHeuristic(masked, same, idx, v1Size, v2Size, base) && AllReadable(idx, env)
        && ((InReach(idx, base, env) && NoNearerInReach(masked, idx, env))
            || (NotAround(idx, base, n1, n2) && NoNearer(masked, idx, env))))
  }

  /** The answer is right in a situation, if it is justified when it is that the accesses do not overlap. */
  ghost predicate RightThere(r: AliasResult, masked: Masked, same: Same, known: KnownSign, idx: seq<Index>, v1Size: nat,
                             v2Size: nat, base: int, env: Env, n1: nat, n2: nat, d: int)
  {
    Situation(masked, known, idx, v1Size, v2Size, env, n1, n2) ==>
      (r == NoAlias && idx != [] ==> Justified(masked, same, known, idx, v1Size, v2Size, base, env, n1, n2)) ==>
        Right(r, d, n1, n2)
  }

  ghost predicate Right(r: AliasResult, d: int, n1: nat, n2: nat) {
    && (r == NoAlias ==> Disjoint(d, n1, n2))
    && (r == MustAlias ==> Cong(d, 0, TWO64))
    && (r == PartialAlias && n1 > 0 && n2 > 0 ==> !Cong(d, 0, TWO64) && !Disjoint(d, n1, n2))
  }

  ghost predicate RightOffsets(r: AliasResult, masked: Masked, same: Same, known: KnownSign, idx: seq<Index>,
                               v1Size: nat, v2Size: nat, base: int, env: Env, n1: nat, n2: nat) {
    RightThere(r, masked, same, known, idx, v1Size, v2Size, base, env, n1, n2, base + Sum(idx, env))
  }

  ghost predicate RightGeps(r: AliasResult, masked: Masked, same: Same, known: KnownSign, idx: seq<Index>, v1Size: nat,
                            v2Size: nat, base: int, env: Env, n1: nat, n2: nat,
                            base1: int, idx1: seq<Index>, base2: int, idx2: seq<Index>) {
    RightThere(r, masked, same, known, idx, v1Size, v2Size, base, env, n1, n2,
               (base1 + Sum(idx1, env)) - (base2 + Sum(idx2, env)))
  }

  /** Accesses a constant apart. */
  method AliasConstant(base: int, v1Size: nat, v2Size: nat) returns (r: AliasResult)
    requires InInt64(base) && v1Size <= UNKNOWN_SIZE && v2Size <= UNKNOWN_SIZE
    ensures forall n1: nat, n2: nat | Lengths(v1Size, v2Size, n1, n2) :: Right(r, base, n1, n2)
    ensures r == MayAlias <==> base != 0 && (v2Size == UNKNOWN_SIZE || (base < 0 && v1Size == UNKNOWN_SIZE))
    ensures r == MustAlias <==> base == 0
  {
    hide Disjoint, Cong;
    r := MayAlias;
    if base == 0 {
      r := MustAlias;
    } else if base >= 0 {
      if v2Size != UNKNOWN_SIZE {
        r := if base < v2Size then PartialAlias else NoAlias;
      }
    } else if v1Size != UNKNOWN_SIZE && v2Size != UNKNOWN_SIZE {
      r := if 0 - base < v1Size then PartialAlias else NoAlias;
    }
    forall n1: nat, n2: nat | Lengths(v1Size, v2Size, n1, n2)
      ensures Right(r, base, n1, n2)
    {
      ConstantRight(base, n1, n2);
    }
  }

  lemma ConstantRight(base: int, n1: nat, n2: nat)
    requires InInt64(base) && n1 < TWO63 && n2 < TWO63
    ensures base == 0 ==> Cong(base, 0, TWO64)
    ensures base != 0 ==> !Cong(base, 0, TWO64)
    ensures base >= n2 || (base < 0 && 0 - base >= n1) ==> Disjoint(base, n1, n2)
    ensures 0 <= base < n2 && n1 > 0 ==> !Disjoint(base, n1, n2)
    ensures 0 < 0 - base < n1 && n2 > 0 ==> !Disjoint(base, n1, n2)
  {
    if Cong(base, 0, TWO64) {
      CongClose(base, 0, TWO64);
    }
    if base >= n2 {
      RemainderIs(base, TWO64, 0, base);
      GapDisjoint(base, n1, n2);
    } else if base < 0 && 0 - base >= n1 {
      RemainderIs(base, TWO64, -1, base + TWO64);
      GapDisjoint(base, n1, n2);
    }
    CongSame(base, TWO64);
    CongSame(0, TWO64);
    if 0 <= base < n2 && n1 > 0 {
      assert SameByte(base, 0, base);
    }
    if 0 < 0 - base < n1 && n2 > 0 {
      assert SameByte(base, 0 - base, 0);
    }
  }

  /** One of the three tests separates the accesses. The first one looks for any modulus that leaves room. */
  ghost predicate Separates(masked: Masked, same: Same, known: KnownSign, idx: seq<Index>, v1Size: nat, v2Size: nat,
                            base: int)
    requires AllTyped(idx)
  {
    || (v1Size != UNKNOWN_SIZE && v2Size != UNKNOWN_SIZE && SomeRoom(idx, v1Size, v2Size, base))
    || (AllPositive(idx, known) && 0 < base && v2Size <= base)
    || ConstantOffsetHeuristic(masked, same, idx, v1Size, v2Size, base)
  }

  /** Accesses a constant and some variables apart. */
  method AliasVariable(masked: Masked, same: Same, known: KnownSign, base: int, idx: seq<Index>, v1Size: nat,
                       v2Size: nat)
    returns (r: AliasResult)
    requires SameSound(same) && Query(idx, v1Size, v2Size, base) && idx != []
    ensures forall env, n1: nat, n2: nat ::
              RightOffsets(r, masked, same, known, idx, v1Size, v2Size, base, env, n1, n2)
    ensures r == if Separates(masked, same, known, idx, v1Size, v2Size, base) then NoAlias else MayAlias
  {
    hide Disjoint, Cong, Situation, ConstantOffsetHeuristic, LowestBit, BitAnd, Pow2, Gathered, AllPositive, Right,
         DivideAll, GetLinear, Eval, Sum, SomeRoom, Justified, RightOffsets;
    var bits, allPositive := ScanIndices(idx, known);
    var modulo := LowestBit(bits);
    ghost var k := ModuloIsPower(bits, idx);
    MaskIsRemainder(base, k);
    BestRoom(idx, v1Size, v2Size, base, k);
    var modOffset := BitAnd(Unsigned64(base), modulo - 1);
    if v1Size != UNKNOWN_SIZE && v2Size != UNKNOWN_SIZE && modOffset >= v2Size && v1Size <= modulo - modOffset {
      r := NoAlias;
    } else if allPositive && base > 0 && v2Size <= base {
      r := NoAlias;
    } else if ConstantOffsetHeuristic(masked, same, idx, v1Size, v2Size, base) {
      r := NoAlias;
    } else {
      r := MayAlias;
    }
    forall env, n1: nat, n2: nat
      ensures RightOffsets(r, masked, same, known, idx, v1Size, v2Size, base, env, n1, n2)
    {
      hide *;
      AnswerRight(r, masked, same, known, idx, v1Size, v2Size, base, env, n1, n2);
    }
  }

  /** Whichever test a no is justified by, the accesses are disjoint. */
  lemma AnswerRight(r: AliasResult, masked: Masked, same: Same, known: KnownSign, idx: seq<Index>, v1Size: nat,
                    v2Size: nat, base: int, env: Env, n1: nat, n2: nat)
    requires SameSound(same) && Query(idx, v1Size, v2Size, base) && idx != [] && (r == NoAlias || r == MayAlias)
    ensures RightOffsets(r, masked, same, known, idx, v1Size, v2Size, base, env, n1, n2)
  {
    hide Sum, Disjoint, Cong, ConstantOffsetHeuristic, NoNearer, NoNearerInReach, SomeRoom, AllPositive, NotAround,
         InReach, NotPastEnd, MaskSound, SignSound, AllReadable, SameSound;
    if r == NoAlias && Situation(masked, known, idx, v1Size, v2Size, env, n1, n2)
       && Justified(masked, same, known, idx, v1Size, v2Size, base, env, n1, n2) {
      if v1Size != UNKNOWN_SIZE && v2Size != UNKNOWN_SIZE && SomeRoom(idx, v1Size, v2Size, base) {
        RoomRight(idx, v1Size, v2Size, base, env);
      } else if AllPositive(idx, known) && 0 < base && v2Size <= base && NotPastEnd(idx, base, env, n1) {
        PositiveRight(masked, known, idx, v1Size, v2Size, base, env, n1, n2);
      } else {
        HeuristicRight(masked, same, known, idx, v1Size, v2Size, base, env, n1, n2);
      }
    }
  }

  lemma RoomRight(idx: seq<Index>, n1: nat, n2: nat, base: int, env: Env)
    requires SomeRoom(idx, n1, n2, base)
    ensures Disjoint(base + Sum(idx, env), n1, n2)
  {
    var k: nat :| k <= 64 && DivideAll(idx, k) && RoomAt(base, k, n1, n2);
    ModuloSound(base, idx, k, n1, n2, env);
  }

  lemma ModuloIsPower(bits: nat, idx: seq<Index>) returns (k: nat)
    requires Gathered(bits, idx) && idx != []
    ensures k <= 64 && LowestBit(bits) == Pow2(k) && DivideAll(idx, k)
    ensures forall k': nat | k' <= 64 && DivideAll(idx, k') :: k' <= k
  {
    k := LowestBitDivides(bits);
    ModuloFits(bits, k);
    forall k': nat | k' <= 64 && DivideAll(idx, k')
      ensures k' <= k
    {
      assert bits % Pow2(k') == 0;
      if k' > k {
        CongWeaken(bits, 0, k + 1, k');
        assert false;
      }
    }
  }

  /** Some power of two divides all scales and leaves room for both accesses. */
  ghost predicate SomeRoom(idx: seq<Index>, v1Size: nat, v2Size: nat, base: int) {
    exists k: nat :: k <= 64 && DivideAll(idx, k) && RoomAt(base, k, v1Size, v2Size)
  }

  lemma BestRoom(idx: seq<Index>, v1Size: nat, v2Size: nat, base: int, k: nat)
    requires k <= 64 && DivideAll(idx, k) && forall k': nat | k' <= 64 && DivideAll(idx, k') :: k' <= k
    ensures SomeRoom(idx, v1Size, v2Size, base) <==> RoomAt(base, k, v1Size, v2Size)
  {
    hide DivideAll, RoomAt;
    if SomeRoom(idx, v1Size, v2Size, base) {
      var k': nat :| k' <= 64 && DivideAll(idx, k') && RoomAt(base, k', v1Size, v2Size);
      RoomGrows(base, k', k, v1Size, v2Size);
    }
  }

  lemma ModuloFits(bits: nat, k: nat)
    requires 0 < bits < TWO64 && bits % Pow2(k) == 0
    ensures k <= 64
  {
    if k > 64 {
      PowMonotone(64, k);
      Pow64();
      RemainderIs(bits, Pow2(k), 0, bits);
      assert false;
    }
  }

  lemma MaskIsRemainder(base: int, k: nat)
    requires k <= 64
    ensures BitAnd(Unsigned64(base), Pow2(k) - 1) == base % Pow2(k)
  {
    AndMask(base % TWO64, k);
    Pow64();
    CongRem(base, TWO64);
    CongWeaken(base % TWO64, base, k, 64);
    CongRem(base, Pow2(k));
    CongSym(base % Pow2(k), base, Pow2(k));
    CongTrans(base % TWO64, base, base % Pow2(k), Pow2(k));
    CongRemainder(base % TWO64, base % Pow2(k), Pow2(k));
  }

  /** When the test on the remainder answers yes, the accesses are disjoint for every value of the variables, around the
      end of the address space too. */
  lemma ModuloSound(base: int, idx: seq<Index>, k: nat, n1: nat, n2: nat, env: Env)
    requires k <= 64 && DivideAll(idx, k)
    requires n2 <= base % Pow2(k) && n1 <= Pow2(k) - base % Pow2(k)
    ensures Disjoint(base + Sum(idx, env), n1, n2)
  {
    SumDivisible(idx, k, env);
    CongSame(base, Pow2(k));
    CongAdd(base, base, Sum(idx, env), 0, Pow2(k));
    RemainderDisjoint(base, base + Sum(idx, env), k, n1, n2);
  }

  lemma PositiveRight(masked: Masked, known: KnownSign, idx: seq<Index>, v1Size: nat, v2Size: nat, base: int,
                      env: Env, n1: nat, n2: nat)
    requires Situation(masked, known, idx, v1Size, v2Size, env, n1, n2) && NotPastEnd(idx, base, env, n1)
    requires AllPositive(idx, known) && 0 < base && v2Size <= base && InInt64(base)
    ensures Disjoint(base + Sum(idx, env), n1, n2)
  {
    PositiveSum(idx, known, env);
    PositiveApart(base + Sum(idx, env), n1, n2);
  }

  /** Where the test on positive terms says yes, the accesses are disjoint up to the end of the address space, and as
      soon as the first one goes past it they overlap. */
  lemma PositiveIff(known: KnownSign, idx: seq<Index>, base: int, env: Env, n1: nat, n2: nat)
    requires SignSound(known, env) && AllReadable(idx, env) && AllPositive(idx, known) && 0 < base && n2 <= base
    requires n1 > 0 && n2 > 0 && base + Sum(idx, env) < TWO64 + n2
    ensures Disjoint(base + Sum(idx, env), n1, n2) <==> NotPastEnd(idx, base, env, n1)
  {
    PositiveSum(idx, known, env);
    var d := base + Sum(idx, env);
    if d + n1 <= TWO64 {
      PositiveApart(d, n1, n2);
    } else if d < TWO64 {
      CongIntro(TWO64, 0, 1, TWO64);
      assert SameByte(d, TWO64 - d, 0);
    } else {
      CongIntro(d, d - TWO64, 1, TWO64);
      assert SameByte(d, 0, d - TWO64);
    }
  }

  lemma PositiveApart(d: int, n1: nat, n2: nat)
    requires 0 < d && n2 <= d && d + n1 <= TWO64
    ensures Disjoint(d, n1, n2)
  {
    if n1 == 0 {
      EmptyDisjoint(d, n1, n2);
    } else {
      RemainderIs(d, TWO64, 0, d);
      GapDisjoint(d, n1, n2);
    }
  }

  lemma HeuristicRight(masked: Masked, same: Same, known: KnownSign, idx: seq<Index>, v1Size: nat, v2Size: nat,
                       base: int, env: Env, n1: nat, n2: nat)
    requires SameSound(same) && Query(idx, v1Size, v2Size, base)
    requires Situation(masked, known, idx, v1Size, v2Size, env, n1, n2)
    requires ConstantOffsetHeuristic(masked, same, idx, v1Size, v2Size, base)
    requires (InReach(idx, base, env) && NoNearerInReach(masked, idx, env))
             || (NotAround(idx, base, n1, n2) && NoNearer(masked, idx, env))
    ensures Disjoint(base + Sum(idx, env), n1, n2)
  {
    hide InReach, NoNearer, NoNearerInReach, NotAround, Disjoint, Sum, SameLine;
    HeuristicSame(masked, same, idx, v1Size, v2Size, base);
    assert n1 == v1Size && n2 == v2Size;
    if InReach(idx, base, env) && NoNearerInReach(masked, idx, env) {
      HeuristicSoundWithoutWrap(masked, same, idx, n1, n2, base, env);
    } else {
      HeuristicSound(masked, same, idx, n1, n2, base, env);
    }
  }

  /** Accesses base plus scaled variables apart. */
  method AliasOffsets(masked: Masked, same: Same, known: KnownSign, base: int, idx: seq<Index>, v1Size: nat,
                      v2Size: nat)
    returns (r: AliasResult)
    requires SameSound(same) && Query(idx, v1Size, v2Size, base)
    ensures forall env, n1: nat, n2: nat ::
              RightOffsets(r, masked, same, known, idx, v1Size, v2Size, base, env, n1, n2)
    ensures if idx == [] then
              && (r == MayAlias <==> base != 0 && (v2Size == UNKNOWN_SIZE || (base < 0 && v1Size == UNKNOWN_SIZE)))
              && (r == MustAlias <==> base == 0)
            else r == if Separates(masked, same, known, idx, v1Size, v2Size, base) then NoAlias else MayAlias
  {
    hide Situation, Right, Disjoint, Cong, Sum, Separates, Justified, RightOffsets, RightGeps;
    if idx == [] {
      r := AliasConstant(base, v1Size, v2Size);
      forall env, n1: nat, n2: nat
        ensures RightOffsets(r, masked, same, known, idx, v1Size, v2Size, base, env, n1, n2)
      {
        ConstantAnswer(r, masked, same, known, idx, v1Size, v2Size, base, env, n1, n2);
      }
    } else {
      r := AliasVariable(masked, same, known, base, idx, v1Size, v2Size);
    }
  }

  lemma ConstantAnswer(r: AliasResult, masked: Masked, same: Same, known: KnownSign, idx: seq<Index>, v1Size: nat,
                       v2Size: nat, base: int, env: Env, n1: nat, n2: nat)
    requires idx == [] && (Lengths(v1Size, v2Size, n1, n2) ==> Right(r, base, n1, n2))
    ensures RightOffsets(r, masked, same, known, idx, v1Size, v2Size, base, env, n1, n2)
  {
    hide Right, Justified;
  }

  /** Two addresses, each a base plus scaled variables, off the same object. The answer is right about the accesses made
      through them. The difference of the addresses is returned with it. */
  method AliasGeps(masked: Masked, same: Same, known: KnownSign, base1: int, idx1: seq<Index>, v1Size: nat,
                   base2: int, idx2: seq<Index>, v2Size: nat)
    returns (r: AliasResult, base: int, idx: seq<Index>)
    requires SameSound(same) && Query(idx1, v1Size, v2Size, base1) && Query(idx2, v1Size, v2Size, base2)
    requires SameWidths(idx1 + idx2)
    ensures forall env, n1: nat, n2: nat ::
              RightGeps(r, masked, same, known, idx, v1Size, v2Size, base, env, n1, n2, base1, idx1, base2, idx2)
    ensures forall env :: Cong(base + Sum(idx, env), (base1 + Sum(idx1, env)) - (base2 + Sum(idx2, env)), TWO64)
    ensures base1 == base2 && idx1 == idx2 && (forall i <- idx1 :: same(i.v, i.v)) ==> r == MustAlias
    ensures if idx == [] then
              r == MayAlias <==> base != 0 && (v2Size == UNKNOWN_SIZE || (base < 0 && v1Size == UNKNOWN_SIZE))
            else
              && AllTyped(idx)
              && r == if Separates(masked, same, known, idx, v1Size, v2Size, base) then NoAlias else MayAlias
  {
    hide Situation, Right, Disjoint, Cong, Sum, IsDifference, Separates, Justified, RightOffsets, RightGeps;
    base := Wrap64(base1 - base2);
    WrapZero();
    idx := GetIndexDifference(idx1, idx2, same);
    StillTyped(idx, idx1 + idx2);
    r := AliasOffsets(masked, same, known, base, idx, v1Size, v2Size);
    DifferenceRight(r, masked, same, known, idx, v1Size, v2Size, base, base1, idx1, base2, idx2);
  }

  /** An answer that is right about the difference is right about the addresses. */
  lemma DifferenceRight(r: AliasResult, masked: Masked, same: Same, known: KnownSign, idx: seq<Index>, v1Size: nat,
                        v2Size: nat, base: int, base1: int, idx1: seq<Index>, base2: int, idx2: seq<Index>)
    requires Cong(base, base1 - base2, TWO64) && IsDifference(idx, idx1, idx2)
    requires forall env, n1: nat, n2: nat ::
               RightOffsets(r, masked, same, known, idx, v1Size, v2Size, base, env, n1, n2)
    ensures forall env, n1: nat, n2: nat ::
              RightGeps(r, masked, same, known, idx, v1Size, v2Size, base, env, n1, n2, base1, idx1, base2, idx2)
    ensures forall env :: Cong(base + Sum(idx, env), (base1 + Sum(idx1, env)) - (base2 + Sum(idx2, env)), TWO64)
  {
    hide RightThere, Sum, Cong, IsDifference;
    DifferenceCong(base1, idx1, base2, idx2, base, idx);
    forall env, n1: nat, n2: nat
      ensures RightGeps(r, masked, same, known, idx, v1Size, v2Size, base, env, n1, n2, base1, idx1, base2, idx2)
    {
      assert RightOffsets(r, masked, same, known, idx, v1Size, v2Size, base, env, n1, n2);
      AnswerModulo(r, masked, same, known, idx, v1Size, v2Size, base, env, n1, n2,
                   base + Sum(idx, env), (base1 + Sum(idx1, env)) - (base2 + Sum(idx2, env)));
    }
  }

  lemma WrapZero()
    ensures Wrap64(0) == 0
  {
    CongClose(Wrap64(0), 0, TWO64);
  }

  lemma StillTyped(idx: seq<Index>, from: seq<Index>)
    requires Rescaled(idx, from) && AllTyped(from) && SameWidths(from)
    ensures AllTyped(idx) && SameWidths(idx)
  {
    forall i | 0 <= i < |idx|
      ensures exists a ::
                && 0 <= a < |from| && idx[i].v == from[a].v
                && idx[i].zext == from[a].zext && idx[i].sext == from[a].sext
    {
      assert Occurs(idx[i], from);
    }
  }

  lemma DifferenceCong(base1: int, idx1: seq<Index>, base2: int, idx2: seq<Index>, base: int, idx: seq<Index>)
    requires Cong(base, base1 - base2, TWO64) && IsDifference(idx, idx1, idx2)
    ensures forall env :: Cong(base + Sum(idx, env), (base1 + Sum(idx1, env)) - (base2 + Sum(idx2, env)), TWO64)
  {
    forall env
      ensures Cong(base + Sum(idx, env), (base1 + Sum(idx1, env)) - (base2 + Sum(idx2, env)), TWO64)
    {
      CongAdd(base, base1 - base2, Sum(idx, env), Sum(idx1, env) - Sum(idx2, env), TWO64);
    }
  }

  lemma AnswerModulo(r: AliasResult, masked: Masked, same: Same, known: KnownSign, idx: seq<Index>, v1Size: nat,
                     v2Size: nat, base: int, env: Env, n1: nat, n2: nat, d: int, d': int)
    requires RightThere(r, masked, same, known, idx, v1Size, v2Size, base, env, n1, n2, d) && Cong(d, d', TWO64)
    ensures RightThere(r, masked, same, known, idx, v1Size, v2Size, base, env, n1, n2, d')
  {
    hide Situation, Right, Justified;
    if Right(r, d, n1, n2) {
      RightModulo(r, d, d', n1, n2);
    }
  }

  lemma RightModulo(r: AliasResult, d: int, d': int, n1: nat, n2: nat)
    requires Right(r, d, n1, n2) && Cong(d, d', TWO64)
    ensures Right(r, d', n1, n2)
  {
    CongSym(d, d', TWO64);
    if Cong(d, 0, TWO64) {
      CongTrans(d', d, 0, TWO64);
    }
    if Cong(d', 0, TWO64) {
      CongTrans(d, d', 0, TWO64);
    }
    if Disjoint(d, n1, n2) {
      CongDisjoint(d', d, n1, n2);
    }
    if Disjoint(d', n1, n2) {
      CongDisjoint(d, d', n1, n2);
    }
  }
}
