/** Branch weights from profile data: scaled to 32 bits, turned into probabilities, and taken from edges to
    unreachable code. */
module EdgeWeights {
  import opened Basics
  import opened Bits
  import opened BranchProbability

  /** The probability of an edge to unreachable code, as a numerator. */
  const UR_TAKEN: nat := 1

  /** What the weights are divided by so that their sum fits into 32 bits. */
  function ScalingFactor(sum: nat): nat {
    if sum > MAX32 then sum / MAX32 + 1 else 1
  }

  predicate Divided(scaled: seq<nat>, ws: seq<nat>, factor: nat)
    requires factor > 0
  {
    |scaled| == |ws| && forall i | 0 <= i < |ws| :: scaled[i] == ws[i] / factor
  }

  lemma {:induction false} DividedTotal(scaled: seq<nat>, ws: seq<nat>, factor: nat)
    requires factor > 0 && Divided(scaled, ws, factor)
    ensures Total(scaled) * factor <= Total(ws)
  {
    if ws != [] {
      var n := |ws| - 1;
      DividedTotal(scaled[..n], ws[..n], factor);
      QuotientTimes(ws[n], factor);
      Sums(Total(scaled[..n]), scaled[n], factor);
    }
  }

  lemma QuotientTimes(x: nat, d: nat)
    requires d > 0
    ensures (x / d) * d <= x
  {
    assert x == d * (x / d) + x % d;
  }

  lemma Sums(a: nat, b: nat, d: nat)
    ensures (a + b) * d == a * d + b * d
  {
  }

  lemma Exceeds(total: nat, sum: nat)
    ensures total > MAX32 ==> total * ScalingFactor(sum) > sum
  {
    if total > MAX32 {
      var f := ScalingFactor(sum);
      MulAtMost(TWO32, f, total, f);
      assert sum == MAX32 * (sum / MAX32) + sum % MAX32;
    }
  }

  function Ones(n: nat): seq<nat> {
    seq(n, _ => 1)
  }

  function Quotients(ws: seq<nat>, factor: nat): (r: seq<nat>)
    requires factor > 0
    ensures Divided(r, ws, factor)
  {
    seq(|ws|, i requires 0 <= i < |ws| => ws[i] / factor)
  }

  /** The weights that are used: what is left of the given ones, if something is and leads to a reachable block. */
  function FinalWeights(weights: seq<nat>, anyReachable: bool): (ws: seq<nat>)
    ensures |ws| == |weights|
  {
    var ws := Quotients(weights, ScalingFactor(Total(weights)));
    if anyReachable && Total(ws) > 0 then ws else Ones(|weights|)
  }

  lemma FinalWeightsFit(weights: seq<nat>, anyReachable: bool)
    requires 0 < |weights| <= MAX32
    ensures var ws := FinalWeights(weights, anyReachable);
            0 < Total(ws) <= MAX32 && forall i | 0 <= i < |ws| :: ws[i] <= Total(ws)
  {
    var factor := ScalingFactor(Total(weights));
    var scaled, ws := Quotients(weights, factor), FinalWeights(weights, anyReachable);
    DividedTotal(scaled, weights, factor);
    Exceeds(Total(scaled), Total(weights));
    OnesTotal(Ones(|weights|));
    forall i | 0 <= i < |ws|
      ensures ws[i] <= Total(ws)
    {
      TotalAtLeast(ws, i);
    }
  }

  /** The least number by which a sum that does not fit into 32 bits has to be divided, so that it fits whatever is
      lost by rounding. */
  predicate IsDivisor(d: nat, sum: nat) {
    && d > 0
    && if sum <= MAX32 then d == 1 else (d - 1) * MAX32 <= sum < d * MAX32
  }

  lemma ScalingFactorIs(sum: nat)
    ensures IsDivisor(ScalingFactor(sum), sum)
  {
    assert sum == MAX32 * (sum / MAX32) + sum % MAX32;
  }

  /** The given weights divided by d, except that all are equal when every quotient is 0 or nothing is reachable. */
  predicate UsedBy(ws: seq<nat>, weights: seq<nat>, anyReachable: bool, d: nat) {
    && d > 0
    && if anyReachable && exists i :: 0 <= i < |weights| && weights[i] >= d then Divided(ws, weights, d)
       else |ws| == |weights| && forall i | 0 <= i < |ws| :: ws[i] == 1
  }

  ghost predicate Used(ws: seq<nat>, weights: seq<nat>, anyReachable: bool) {
    exists d :: IsDivisor(d, Total(weights)) && UsedBy(ws, weights, anyReachable, d)
  }

  /** What that comes to: a sum that fits into 32 bits is not divided, and any other by no more than it must be. */
  lemma FinalWeightsAre(weights: seq<nat>, anyReachable: bool)
    ensures Used(FinalWeights(weights, anyReachable), weights, anyReachable)
  {
    ScalingFactorIs(Total(weights));
    FinalWeightsBy(weights, anyReachable);
    hide UsedBy, IsDivisor;
    assert UsedBy(FinalWeights(weights, anyReachable), weights, anyReachable, ScalingFactor(Total(weights)));
  }

  lemma FinalWeightsBy(weights: seq<nat>, anyReachable: bool)
    ensures UsedBy(FinalWeights(weights, anyReachable), weights, anyReachable, ScalingFactor(Total(weights)))
  {
    var factor := ScalingFactor(Total(weights));
    var ws := Quotients(weights, factor);
    forall i | 0 <= i < |weights|
      ensures weights[i] >= factor <==> ws[i] > 0
      ensures ws[i] <= Total(ws)
    {
      TotalAtLeast(ws, i);
      QuotientPositive(weights[i], factor);
    }
    if Total(ws) > 0 && forall i | 0 <= i < |weights| :: ws[i] == 0 {
      ZerosTotal(ws);
    }
  }

  lemma {:induction false} ZerosTotal(ws: seq<nat>)
    requires forall i | 0 <= i < |ws| :: ws[i] == 0
    ensures Total(ws) == 0
  {
    if ws != [] {
      ZerosTotal(ws[..|ws| - 1]);
    }
  }

  lemma QuotientPositive(x: nat, d: nat)
    requires d > 0
    ensures x >= d <==> x / d > 0
  {
    assert x == d * (x / d) + x % d;
    if x / d > 0 {
      MulAtMost(1, d, x / d, d);
    }
  }

  /** The weights to use, and their sum: scaled down until the sum fits into 32 bits, and all equal where nothing is
      left or nothing is reachable. */
  method ScaleWeights(weights: seq<nat>, anyReachable: bool) returns (ws: seq<nat>, sum: nat)
    requires 0 < |weights| <= MAX32
    ensures ws == FinalWeights(weights, anyReachable) && 0 < sum == Total(ws) <= MAX32
    ensures Used(ws, weights, anyReachable)
  {
    hide Used, IsDivisor, UsedBy;
    FinalWeightsAre(weights, anyReachable);
    sum := 0;
    for i := 0 to |weights|
      invariant sum == Total(weights[..i])
    {
      assert weights[..i + 1] == weights[..i] + [weights[i]];
      TotalSnoc(weights[..i], weights[i]);
      sum := sum + weights[i];
    }
    assert weights[..|weights|] == weights;
    ws := weights;
    var factor := ScalingFactor(sum);
    if factor > 1 {
      ws, sum := DivideWeights(weights, factor);
    }
    assert ws == Quotients(weights, factor);
    if sum == 0 || !anyReachable {
      ws := Ones(|weights|);
      sum := |weights|;
      OnesTotal(ws);
    }
    FinalWeightsFit(weights, anyReachable);
  }

  lemma {:induction false} OnesTotal(ws: seq<nat>)
    requires forall i | 0 <= i < |ws| :: ws[i] == 1
    ensures Total(ws) == |ws|
  {
    if ws != [] {
      OnesTotal(ws[..|ws| - 1]);
    }
  }

  method DivideWeights(weights: seq<nat>, factor: nat) returns (ws: seq<nat>, sum: nat)
    requires factor > 0
    ensures Divided(ws, weights, factor) && sum == Total(ws)
  {
    ws, sum := weights, 0;
    for i := 0 to |ws|
      invariant |ws| == |weights| && sum == Total(ws[..i])
      invariant forall k | 0 <= k < i :: ws[k] == Quotient(weights[k], factor)
      invariant forall k | i <= k < |ws| :: ws[k] == weights[k]
    {
      ghost var before := ws[..i];
      ws := ws[i := Quotient(ws[i], factor)];
      assert ws[..i + 1] == before + [ws[i]];
      TotalSnoc(before, ws[i]);
      sum := sum + ws[i];
    }
    assert ws[..|ws|] == ws;
  }

  // ----- Probabilities -----

  function Numerators(ws: seq<nat>, sum: nat): (bp: seq<nat>)
    requires 0 < sum <= MAX32 && forall i | 0 <= i < |ws| :: ws[i] <= sum
    ensures |bp| == |ws| && forall i | 0 <= i < |ws| :: bp[i] == Numerator(ws[i], sum)
  {
    seq(|ws|, i requires 0 <= i < |ws| => Numerator(ws[i], sum))
  }

  lemma NumeratorNear(w: nat, sum: nat)
    requires 0 < sum <= MAX32 && w <= sum
    ensures 2 * w * ONE - sum <= 2 * Numerator(w, sum) * sum <= 2 * w * ONE + sum
  {
    NumeratorRounds(w, sum);
    Twice(Numerator(w, sum), sum);
  }

  lemma Twice(q: nat, d: nat)
    ensures 2 * q * d == 2 * (d * q)
  {
  }

  /** Half a unit at most is gained or lost on every edge. */
  lemma {:induction false} NumeratorsNear(ws: seq<nat>, bp: seq<nat>, sum: nat)
    requires 0 < sum <= MAX32 && |bp| == |ws|
    requires forall i | 0 <= i < |ws| :: ws[i] <= sum && bp[i] == Numerator(ws[i], sum)
    ensures 2 * Total(ws) * ONE - |ws| * sum <= 2 * Total(bp) * sum <= 2 * Total(ws) * ONE + |ws| * sum
  {
    if ws != [] {
      var n := |ws| - 1;
      NumeratorsNear(ws[..n], bp[..n], sum);
      NumeratorNear(ws[n], sum);
      NearSums(Total(bp[..n]), bp[n], n, sum);
    }
  }

  lemma NearSums(a: nat, b: nat, n: nat, sum: nat)
    ensures 2 * (a + b) * sum == 2 * a * sum + 2 * b * sum && (n + 1) * sum == n * sum + sum
  {
  }

  /** The probabilities of the edges come to one, give or take half a unit for each. */
  lemma ProbabilitiesComeToOne(ws: seq<nat>, sum: nat)
    requires 0 < sum == Total(ws) <= MAX32 && forall i | 0 <= i < |ws| :: ws[i] <= sum
    ensures 2 * ONE - |ws| <= 2 * Total(Numerators(ws, sum)) <= 2 * ONE + |ws|
  {
    var bp := Numerators(ws, sum);
    NumeratorsNear(ws, bp, sum);
    Cancel(2 * Total(bp), 2 * ONE, |ws|, sum);
  }

  lemma Cancel(t: nat, one: nat, n: nat, sum: nat)
    requires sum > 0 && sum * one - n * sum <= t * sum <= sum * one + n * sum
    ensures one - n <= t <= one + n
  {
    assert (one + n) * sum == sum * one + n * sum;
    assert (t + n) * sum == t * sum + n * sum;
    Steps(one + n, t, sum);
    Steps(t + n, one, sum);
  }

  lemma Steps(a: nat, b: nat, p: nat)
    ensures a < b ==> a * p + p <= b * p
  {
    if a < b {
      MulAtMost(a + 1, p, b, p);
      assert (a + 1) * p == a * p + p;
    }
  }

  // ----- Where the probabilities come from -----

  ghost predicate RoundedFrom(base: seq<nat>, ws: seq<nat>) {
    && 0 < Total(ws) <= MAX32 && |base| == |ws|
    && forall i | 0 <= i < |ws| :: IsRounded(base[i], ws[i] * ONE, Total(ws))
  }

  /** Each is the used weight's part of their sum, to the nearest. */
  ghost predicate FromWeights(base: seq<nat>, weights: seq<nat>, anyReachable: bool) {
    exists ws :: Used(ws, weights, anyReachable) && RoundedFrom(base, ws)
  }

  lemma BaseFromWeights(weights: seq<nat>, unreachable: seq<bool>)
    requires 0 < |weights| <= MAX32
    ensures FromWeights(BaseProbabilities(weights, unreachable), weights, CountReachable(unreachable) > 0)
  {
    hide Used, UsedBy, FinalWeights;
    var any := CountReachable(unreachable) > 0;
    var ws, base := FinalWeights(weights, any), BaseProbabilities(weights, unreachable);
    FinalWeightsFit(weights, any);
    FinalWeightsAre(weights, any);
    forall i | 0 <= i < |ws|
      ensures IsRounded(base[i], ws[i] * ONE, Total(ws))
    {
      NumeratorRounds(ws[i], Total(ws));
    }
    assert RoundedFrom(base, ws);
  }

  /** Dividing loses less than d on each weight. */
  lemma {:induction false} DividedAtLeast(scaled: seq<nat>, ws: seq<nat>, d: nat)
    requires d > 0 && Divided(scaled, ws, d)
    ensures Total(ws) <= d * Total(scaled) + |ws| * (d - 1)
  {
    if ws != [] {
      var n := |ws| - 1;
      DividedAtLeast(scaled[..n], ws[..n], d);
      assert ws[n] == d * (ws[n] / d) + ws[n] % d;
      LossAdds(Total(scaled[..n]), scaled[n], d, n);
    }
  }

  lemma LossAdds(a: nat, b: nat, d: nat, n: nat)
    requires d > 0
    ensures d * (a + b) == d * a + d * b && (n + 1) * (d - 1) == n * (d - 1) + (d - 1)
  {
  }

  /** Where the weights fit into 32 bits, each probability is the weight's part of their sum, to the nearest. */
  lemma ProbabilitiesExact(base: seq<nat>, weights: seq<nat>, i: nat)
    requires FromWeights(base, weights, true) && 0 < Total(weights) <= MAX32 && i < |weights|
    ensures |base| == |weights| && IsRounded(base[i], weights[i] * ONE, Total(weights))
  {
    var ws :| Used(ws, weights, true) && RoundedFrom(base, ws);
    SomePositive(weights);
    hide IsRounded;
    assert ws == weights;
  }

  lemma {:induction false} SomePositive(ws: seq<nat>)
    requires Total(ws) > 0
    ensures exists i :: 0 <= i < |ws| && ws[i] >= 1
  {
    if forall i | 0 <= i < |ws| :: ws[i] == 0 {
      ZerosTotal(ws);
    }
  }

  /** Where they do not, it is off by no more than half a unit and two parts in 2^32, or so, for each edge. */
  lemma ProbabilitiesNear(base: seq<nat>, weights: seq<nat>, i: nat)
    requires FromWeights(base, weights, true) && Total(weights) > MAX32 && i < |weights| < MAX32
    ensures |base| == |weights|
    ensures var s, k := Total(weights), MAX32 - |weights|;
            var off := base[i] * s - weights[i] * ONE;
            0 - s * (k + 4 * ONE * |weights|) <= 2 * off * k <= s * (k + 4 * ONE * |weights|)
  {
    hide IsRounded, RoundedFrom, IsDivisor, UsedBy, Divided;
    var ws :| Used(ws, weights, true) && RoundedFrom(base, ws);
    var d: nat :| IsDivisor(d, Total(weights)) && UsedBy(ws, weights, true, d);
    DivisorIs(d, Total(weights));
    QuotientsUsed(ws, weights, d);
    DividedAt(ws, weights, d, i);
    DividedTotal(ws, weights, d);
    DividedAtLeast(ws, weights, d);
    RoundedAt(base, ws, i);
    TotalAtLeast(weights, i);
    Off(base[i], ws[i], weights[i], Total(ws), Total(weights), d, |weights|);
  }

  lemma RoundedAt(base: seq<nat>, ws: seq<nat>, i: nat)
    requires RoundedFrom(base, ws) && i < |ws|
    ensures |base| == |ws| && IsRounded(base[i], ws[i] * ONE, Total(ws))
  {
  }

  lemma DivisorIs(d: nat, sum: nat)
    requires IsDivisor(d, sum) && sum > MAX32
    ensures d >= 2 && (d - 1) * MAX32 <= sum < d * MAX32
  {
  }

  lemma DividedAt(ws: seq<nat>, weights: seq<nat>, d: nat, i: nat)
    requires d > 0 && Divided(ws, weights, d) && i < |weights|
    ensures |ws| == |weights| && d * ws[i] <= weights[i] < d * ws[i] + d
  {
    assert weights[i] == d * (weights[i] / d) + weights[i] % d;
  }

  /** Of a sum that large, something is left. */
  lemma QuotientsUsed(ws: seq<nat>, weights: seq<nat>, d: nat)
    requires d >= 2 && (d - 1) * MAX32 <= Total(weights) && |weights| < MAX32 && UsedBy(ws, weights, true, d)
    ensures Divided(ws, weights, d)
  {
    if forall i | 0 <= i < |weights| :: weights[i] < d {
      SmallTotal(weights, d);
      Fewer(|weights|, d);
      assert false;
    }
  }

  lemma Fewer(n: nat, d: nat)
    requires n < MAX32 && d >= 2
    ensures n * (d - 1) < (d - 1) * MAX32
  {
    MulAtMost(n, d - 1, MAX32 - 1, d - 1);
    assert (MAX32 - 1) * (d - 1) == (d - 1) * MAX32 - (d - 1);
  }

  lemma {:induction false} SmallTotal(ws: seq<nat>, d: nat)
    requires d > 0 && forall i | 0 <= i < |ws| :: ws[i] < d
    ensures Total(ws) <= |ws| * (d - 1)
  {
    if ws != [] {
      var n := |ws| - 1;
      SmallTotal(ws[..n], d);
      LossAdds(0, 0, d, n);
    }
  }

  lemma Off(b: nat, x: nat, W: nat, T: nat, S: nat, d: nat, n: nat)
    requires d >= 2 && 0 < n < MAX32 && (d - 1) * MAX32 <= S && W <= S
    requires d * x <= W < d * x + d && T * d <= S <= d * T + n * (d - 1) && IsRounded(b, x * ONE, T)
    ensures var off, k := b * S - W * ONE, MAX32 - n;
            0 - S * (k + 4 * ONE * n) <= 2 * off * k <= S * (k + 4 * ONE * n)
  {
    EnoughLeft(T, S, d, n);
    var y, z, e := x * S - W * T, b * S - W * ONE, 2 * (T * b) - 2 * (x * ONE);
    QuotientOff(x, W, T, S, d, n);
    Combination(b, x, W, T, S);
    Times(S, e, T);
    var E := 2 * ONE * (n * S);
    assert 0 - (S * T + E) <= T * (2 * z) <= S * T + E;
    Shrink(T, MAX32 - n, 2 * z, S, E);
    Parts(S, MAX32 - n, n, z);
  }

  lemma Times(a: nat, e: int, b: nat)
    requires 0 - b <= e <= b
    ensures 0 - a * b <= a * e <= a * b
  {
    assert a * (b - e) >= 0 && a * (b + e) >= 0;
  }

  lemma Combination(b: int, x: int, W: int, T: int, S: int)
    ensures T * (2 * (b * S - W * ONE)) == S * (2 * (T * b) - 2 * (x * ONE)) + 2 * ONE * (x * S - W * T)
  {
    var p, q, r := T * b * S, T * W, S * x;
    assert T * (b * S - W * ONE) == p - q * ONE && S * (T * b - x * ONE) == p - r * ONE && x * S - W * T == r - q;
  }

  lemma EnoughLeft(T: nat, S: nat, d: nat, n: nat)
    requires d >= 2 && n < MAX32 && (d - 1) * MAX32 <= S <= d * T + n * (d - 1)
    ensures MAX32 - n <= 2 * T
  {
    var k: nat := d - 1;
    MulAtMost(d, T, 2 * k, T);
    assert 2 * k * T == k * (2 * T);
    var u := MAX32 - n - 2 * T;
    assert k * u == k * MAX32 - n * k - k * (2 * T);
    AtLeastOnce(k, u);
  }

  /** The quotients' parts of their sum are near the weights' parts of theirs. */
  lemma QuotientOff(x: nat, W: nat, T: nat, S: nat, d: nat, n: nat)
    requires d >= 2 && n > 0 && W <= S && d * x <= W < d * x + d && T * d <= S <= d * T + n * (d - 1)
    ensures 0 - n * S <= x * S - W * T <= n * S
  {
    var a: nat, A: nat, y := W - d * x, S - d * T, x * S - W * T;
    Lost(x, W, T, S, d, a, A);
    assert W * A >= 0 && a * S >= 0;
    MulAtMost(W, A, S, n * (d - 1));
    MulAtMost(a, S, d - 1, S);
    Bounds(S, n, d);
    Cancelled(d, y, n * S);
  }

  lemma Bounds(S: nat, n: nat, d: nat)
    requires d >= 2 && n > 0
    ensures S * (n * (d - 1)) <= d * (n * S) && (d - 1) * S <= d * (n * S)
  {
    var k: nat := d - 1;
    assert S * (n * k) == k * (n * S);
    MulAtMost(1, S, n, S);
    MulAtMost(k, S, k, n * S);
    MulAtMost(k, n * S, d, n * S);
  }

  lemma Lost(x: int, W: int, T: int, S: int, d: int, a: int, A: int)
    requires W == d * x + a && S == d * T + A
    ensures d * (x * S - W * T) == W * A - a * S
  {
    var p, q := x * S, W * T;
    assert d * (p - q) == d * p - d * q;
    assert d * p == (d * x) * S && d * q == W * (d * T);
    assert (W - a) * S == W * S - a * S && W * (S - A) == W * S - W * A;
  }

  lemma Cancelled(d: nat, y: int, c: nat)
    requires d > 0 && 0 - d * c <= d * y <= d * c
    ensures 0 - c <= y <= c
  {
    AtLeastOnce(d, y - c);
    AtLeastOnce(d, 0 - y - c);
    assert d * (y - c) == d * y - d * c && d * (0 - y - c) == 0 - d * y - d * c;
  }

  lemma Shrink(T: nat, k: nat, z: int, S: nat, E: nat)
    requires k <= 2 * T && 0 - (S * T + E) <= T * z <= S * T + E
    ensures 0 - (S * k + 2 * E) <= z * k <= S * k + 2 * E
  {
    assert T * (z - S) == T * z - S * T && T * (0 - z - S) == 0 - T * z - S * T;
    ShrinkOne(T, k, z - S, E);
    ShrinkOne(T, k, 0 - z - S, E);
    assert (z - S) * k == z * k - S * k && (0 - z - S) * k == 0 - z * k - S * k;
  }

  lemma ShrinkOne(T: nat, k: nat, u: int, E: nat)
    requires k <= 2 * T && T * u <= E
    ensures u * k <= 2 * E
  {
    if u > 0 {
      MulAtMost(u, k, u, 2 * T);
      assert u * (2 * T) == 2 * (T * u);
    } else {
      assert (0 - u) * k >= 0;
      assert (0 - u) * k == 0 - u * k;
    }
  }

  lemma Parts(S: nat, k: nat, n: nat, z: int)
    ensures S * k + 2 * (2 * ONE * (n * S)) == S * (k + 4 * ONE * n)
    ensures (2 * z) * k == 2 * z * k
  {
    assert S * (4 * ONE * n) == 4 * ONE * (n * S);
    assert S * (k + 4 * ONE * n) == S * k + S * (4 * ONE * n);
  }

  // ----- Unreachable edges -----

  function CountReachable(unreachable: seq<bool>): nat {
    if unreachable == [] then 0
    else CountReachable(unreachable[..|unreachable| - 1]) + if unreachable[|unreachable| - 1] then 0 else 1
  }

  function AddProbability(a: nat, b: nat): nat {
    if a + b > ONE then ONE else a + b
  }

  /** What an edge to unreachable code has over one unit. */
  function Over(p: nat, unreachable: bool): nat {
    if unreachable && p > UR_TAKEN then p - UR_TAKEN else 0
  }

  function TotalOver(base: seq<nat>, unreachable: seq<bool>): nat
    requires |base| == |unreachable|
  {
    if base == [] then 0
    else
      var n := |base| - 1;
      TotalOver(base[..n], unreachable[..n]) + Over(base[n], unreachable[n])
  }

  /** A sum of probabilities, which stops at one. */
  function Capped(x: nat): nat {
    if x > ONE then ONE else x
  }

  /** The probabilities before edges to unreachable code are looked at. */
  function BaseProbabilities(weights: seq<nat>, unreachable: seq<bool>): (bp: seq<nat>)
    requires 0 < |weights| <= MAX32
    ensures |bp| == |weights|
  {
    var ws := FinalWeights(weights, CountReachable(unreachable) > 0);
    FinalWeightsFit(weights, CountReachable(unreachable) > 0);
    Numerators(ws, Total(ws))
  }

  /** What a reachable edge gets. */
  function PerEdge(base: seq<nat>, unreachable: seq<bool>): nat
    requires |base| == |unreachable| && CountReachable(unreachable) > 0
  {
    Quotient(Capped(TotalOver(base, unreachable)), CountReachable(unreachable))
  }

  /** Edges to unreachable code keep one unit at most; what they had beyond that is shared out evenly. */
  ghost predicate Adjusted(bp: seq<nat>, base: seq<nat>, unreachable: seq<bool>)
    requires CountReachable(unreachable) > 0
  {
    && |bp| == |base| == |unreachable|
    && forall i | 0 <= i < |bp| ::
         bp[i] == if unreachable[i] then if base[i] <= UR_TAKEN then base[i] else UR_TAKEN
                  else AddProbability(base[i], PerEdge(base, unreachable))
  }

  /** Every edge with what it keeps: those to unreachable code keep one unit at most. */
  predicate Kept(mid: seq<nat>, base: seq<nat>, unreachable: seq<bool>) {
    && |mid| == |base| == |unreachable|
    && forall i | 0 <= i < |mid| :: mid[i] == if unreachable[i] && base[i] > 1 then 1 else base[i]
  }

  /** Every reachable edge gets the same, the most that what is to be given away, one at most, is enough for. */
  ghost predicate GivenOut(bp: seq<nat>, mid: seq<nat>, base: seq<nat>, unreachable: seq<bool>, each: nat) {
    && |bp| == |mid| == |base| == |unreachable|
    && Total(mid) <= Total(base)
    && (var over, r := if Total(base) - Total(mid) > ONE then ONE else Total(base) - Total(mid),
          CountReachable(unreachable);
        r * each <= over < r * each + r)
    && forall i | 0 <= i < |bp| ::
         bp[i] == if unreachable[i] then mid[i] else if mid[i] + each > ONE then ONE else mid[i] + each
  }

  ghost predicate Settled(bp: seq<nat>, base: seq<nat>, unreachable: seq<bool>) {
    if 0 < CountReachable(unreachable) < |unreachable|
    then exists mid, each: nat :: Kept(mid, base, unreachable) && GivenOut(bp, mid, base, unreachable, each)
    else bp == base
  }

  function Keeps(base: seq<nat>, unreachable: seq<bool>): (mid: seq<nat>)
    requires |base| == |unreachable|
    ensures Kept(mid, base, unreachable)
  {
    seq(|base|, i requires 0 <= i < |base| => base[i] - Over(base[i], unreachable[i]))
  }

  lemma {:induction false} OverIsRest(mid: seq<nat>, base: seq<nat>, unreachable: seq<bool>)
    requires Kept(mid, base, unreachable)
    ensures Total(mid) + TotalOver(base, unreachable) == Total(base)
  {
    if base != [] {
      var n := |base| - 1;
      OverIsRest(mid[..n], base[..n], unreachable[..n]);
    }
  }

  lemma AdjustedSettles(bp: seq<nat>, base: seq<nat>, unreachable: seq<bool>)
    requires 0 < CountReachable(unreachable) < |unreachable| && Adjusted(bp, base, unreachable)
    ensures Settled(bp, base, unreachable)
  {
    var mid, each := Keeps(base, unreachable), PerEdge(base, unreachable);
    OverIsRest(mid, base, unreachable);
    Share(Capped(TotalOver(base, unreachable)), CountReachable(unreachable));
    assert GivenOut(bp, mid, base, unreachable, each);
  }

  /** Take what edges to unreachable code have over one unit. */
  method TakeFromUnreachable(base: seq<nat>, unreachable: seq<bool>) returns (bp: seq<nat>, toDistribute: nat)
    requires |base| == |unreachable|
    ensures |bp| == |base| && toDistribute == Capped(TotalOver(base, unreachable))
    ensures forall i | 0 <= i < |bp| ::
              bp[i] == if unreachable[i] && base[i] > UR_TAKEN then UR_TAKEN else base[i]
    ensures Total(bp) + toDistribute <= Total(base)
    ensures Total(base) <= ONE ==> Total(bp) + toDistribute == Total(base)
  {
    bp, toDistribute := base, 0;
    assert base[..|base|] == base && unreachable[..|base|] == unreachable;
    for i := 0 to |base|
      invariant |bp| == |base| && toDistribute == Capped(TotalOver(base[..i], unreachable[..i]))
      invariant forall k | 0 <= k < i :: bp[k] == if unreachable[k] && base[k] > UR_TAKEN then UR_TAKEN else base[k]
      invariant forall k | i <= k < |bp| :: bp[k] == base[k]
      invariant Total(bp) + toDistribute <= Total(base)
      invariant Total(base) <= ONE ==> Total(bp) + toDistribute == Total(base)
    {
      assert base[..i + 1][..i] == base[..i] && unreachable[..i + 1][..i] == unreachable[..i];
      if unreachable[i] && UR_TAKEN < bp[i] {
        TotalUpdate(bp, i, UR_TAKEN);
        toDistribute := AddProbability(toDistribute, bp[i] - UR_TAKEN);
        bp := bp[i := UR_TAKEN];
      }
    }
  }

  /** Give every reachable edge its share. */
  method GiveToReachable(mid: seq<nat>, unreachable: seq<bool>, perEdge: nat) returns (bp: seq<nat>)
    requires |mid| == |unreachable| && forall i | 0 <= i < |mid| :: mid[i] <= ONE
    ensures |bp| == |mid|
    ensures forall i | 0 <= i < |bp| :: bp[i] == if unreachable[i] then mid[i] else AddProbability(mid[i], perEdge)
    ensures Total(bp) <= Total(mid) + CountReachable(unreachable) * perEdge
    ensures Total(mid) + perEdge <= ONE ==> Total(bp) == Total(mid) + CountReachable(unreachable) * perEdge
  {
    bp := mid;
    ghost var given := 0;
    assert unreachable[..|unreachable|] == unreachable;
    for i := 0 to |mid|
      invariant |bp| == |mid|
      invariant forall k | 0 <= k < i :: bp[k] == if unreachable[k] then mid[k] else AddProbability(mid[k], perEdge)
      invariant forall k | i <= k < |bp| :: bp[k] == mid[k]
      invariant given == CountReachable(unreachable[..i])
      invariant Total(bp) <= Total(mid) + given * perEdge
      invariant Total(mid) + perEdge <= ONE ==> Total(bp) == Total(mid) + given * perEdge
    {
      assert unreachable[..i + 1][..i] == unreachable[..i];
      if !unreachable[i] {
        TotalUpdate(bp, i, AddProbability(bp[i], perEdge));
        TotalAtLeast(mid, i);
        OneMore(given, perEdge);
        bp := bp[i := AddProbability(bp[i], perEdge)];
        given := given + 1;
      }
    }
  }

  lemma OneMore(n: nat, x: nat)
    ensures (n + 1) * x == n * x + x
  {
  }

  /** The probabilities of a block's edges, from the weights in its profile data and from which edges lead to code
      marked unreachable. */
  method CalcMetadataWeights(weights: seq<nat>, unreachable: seq<bool>) returns (bp: seq<nat>)
    requires 1 < |weights| == |unreachable| <= MAX32
    ensures var base := BaseProbabilities(weights, unreachable);
            && (if 0 < CountReachable(unreachable) < |unreachable| then Adjusted(bp, base, unreachable) else bp == base)
            && Total(bp) <= Total(base)
            && (Total(base) <= ONE ==> Total(base) - CountReachable(unreachable) <= Total(bp))
            && FromWeights(base, weights, CountReachable(unreachable) > 0) && Settled(bp, base, unreachable)
  {
    hide Used, UsedBy, Settled, FromWeights;
    BaseFromWeights(weights, unreachable);
    var reachable := Count(unreachable);
    var ws, sum := ScaleWeights(weights, reachable > 0);
    FinalWeightsFit(weights, reachable > 0);
    bp := Numerators(ws, sum);
    ghost var base := bp;
    assert base == BaseProbabilities(weights, unreachable);
    if reachable < |unreachable| && reachable > 0 {
      forall i | 0 <= i < |base|
        ensures base[i] <= ONE
      {
        NumeratorAtMostOne(ws[i], sum);
      }
      var toDistribute;
      bp, toDistribute := TakeFromUnreachable(bp, unreachable);
      if toDistribute > 0 {
        var perEdge := Quotient(toDistribute, reachable);
        Share(toDistribute, reachable);
        bp := GiveToReachable(bp, unreachable, perEdge);
      } else {
        Share(0, reachable);
      }
      AdjustedSettles(bp, base, unreachable);
    } else {
      NothingSettled(bp, unreachable);
    }
  }

  lemma NothingSettled(bp: seq<nat>, unreachable: seq<bool>)
    requires !(0 < CountReachable(unreachable) < |unreachable|)
    ensures Settled(bp, bp, unreachable)
  {
  }

  method Count(unreachable: seq<bool>) returns (n: nat)
    ensures n == CountReachable(unreachable)
  {
    n := 0;
    assert unreachable[..|unreachable|] == unreachable;
    for i := 0 to |unreachable|
      invariant n == CountReachable(unreachable[..i])
    {
      assert unreachable[..i + 1][..i] == unreachable[..i];
      if !unreachable[i] {
        n := n + 1;
      }
    }
  }

  lemma Share(x: nat, n: nat)
    requires n > 0
    ensures n * Quotient(x, n) <= x < n * Quotient(x, n) + n && Quotient(x, n) <= x
  {
    var q := Quotient(x, n);
    assert x == n * q + x % n;
    MulAtMost(1, q, n, q);
  }
}
