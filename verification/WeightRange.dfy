/** When the normalized total fits into 32 bits, in terms of what a caller knows: the sum of the weights and the
    number of targets. */
module WeightRange {
  import opened Bits
  import opened BranchProbability
  import opened Distributions

  /** Whatever the weights, as long as they have this sum and so many targets, their total fits. */
  ghost predicate EveryListFits(sum: nat, count: nat) {
    forall ws, result :: ListFits(sum, count, ws, result)
  }

  ghost predicate ListFits(sum: nat, count: nat, ws: seq<Weight>, result: seq<Weight>) {
    Positive(ws) && Sum(ws) == sum && |result| == count && Normalized(result, ws, Shift(sum % (MAX64 + 1), sum > MAX64))
    ==> Sum(result) <= MAX32
  }

  /** For a list whose sum overflows, once: the total fits whatever the single weights exactly when sum and number of
      targets are within the bound. The worst lists have two weights that are rounded up, and the others are 1. */
  lemma EveryListFitsIff(sum: nat, count: nat)
    requires MAX64 < sum <= 2 * MAX64 + 1 && 2 <= count <= 0x8000_0000
    ensures EveryListFits(sum, count) <==>
            sum + (count - 1) * 0x2_0000_0000 < 0x2_0000_0000_0000_0000 + (count - 2)
  {
    if Fits(sum, count) {
      forall ws, result
        ensures ListFits(sum, count, ws, result)
      {
        if Positive(ws) && Sum(ws) == sum && |result| == count && Normalized(result, ws, 33) {
          NormalizedFits(ws, result);
        }
      }
    } else {
      var ws, result := WorstList(sum, count);
      assert !ListFits(sum, count, ws, result);
    }
  }

  lemma NormalizedFits(ws: seq<Weight>, result: seq<Weight>)
    requires MAX64 < Sum(ws) <= 2 * MAX64 + 1 && Normalized(result, ws, 33) && |result| > 1 && Fits(Sum(ws), |result|)
    ensures Sum(result) <= MAX32
  {
    var c: seq<Weight> :| NormalizedFrom(result, c, ws, 33);
    ScaledFits(c, ws, result, 0, true);
  }

  /** So a caller that knows the sum of its weights and how many there are may rely on the bound. */
  lemma CallerBound(ws: seq<Weight>)
    requires Positive(ws) && 0 < Sum(ws) <= 2 * MAX64 + 1 && Fits(Sum(ws), |ws|)
    ensures TotalFits(ws, Shift(Sum(ws) % (MAX64 + 1), Sum(ws) > MAX64))
  {
    hide Shift, Scaled, Normalized, Fits;
    var total, didOverflow := Sum(ws) % (MAX64 + 1), Sum(ws) > MAX64;
    forall result | Normalized(result, ws, Shift(total, didOverflow))
      ensures Sum(result) <= MAX32
    {
      BoundHolds(ws, result, total, didOverflow);
    }
  }

  lemma BoundHolds(ws: seq<Weight>, result: seq<Weight>, total: nat, didOverflow: bool)
    requires Fits(Sum(ws), |ws|) && Normalized(result, ws, Shift(total, didOverflow))
    requires total <= MAX64 && (didOverflow <==> Sum(ws) > MAX64) && (!didOverflow ==> total == Sum(ws))
    ensures Sum(result) <= MAX32
  {
    hide Shift, Scaled, Fits, Combined;
    var c: seq<Weight> :| NormalizedFrom(result, c, ws, Shift(total, didOverflow));
    CombinedTargets(c, ws);
    FitsFewer(Sum(ws), |ws|, |c|);
    if |c| == 1 {
      SumSnoc([], result[0]);
      assert result == [] + [result[0]];
    } else {
      ScaledFits(c, ws, result, total, didOverflow);
    }
  }

  lemma FitsFewer(sum: nat, n: nat, m: nat)
    requires Fits(sum, n) && m <= n
    ensures Fits(sum, m)
  {
  }

  lemma CombinedTargets(c: seq<Weight>, ws: seq<Weight>)
    requires Combined(c, ws)
    ensures |c| <= |ws|
  {
    assert forall w | w in c :: HasTarget(c, w.target);
    FewerTargets(c, ws);
  }

  lemma {:induction false} FewerTargets(c: seq<Weight>, ws: seq<Weight>)
    requires Distinct(c) && forall w | w in c :: HasTarget(ws, w.target)
    ensures |c| <= |ws|
    decreases |c|
  {
    if c != [] {
      var n := |c| - 1;
      assert c[n] in c;
      var x :| x in ws && x.target == c[n].target;
      var j :| 0 <= j < |ws| && ws[j] == x;
      var rest := ws[..j] + ws[j + 1..];
      forall w | w in c[..n]
        ensures HasTarget(rest, w.target)
      {
        var k :| 0 <= k < n && c[k] == w;
        assert w in c;
        var y :| y in ws && y.target == w.target;
        assert y in rest;
      }
      FewerTargets(c[..n], rest);
    }
  }

  /** Two weights of the largest size round to a total of 2^32, one more than fits. */
  lemma TwoLargestDoNotFit()
    ensures var ws := TwoAndOnes(0, MAX64, MAX64);
            && Positive(ws) && Sum(ws) == 2 * MAX64 && !Fits(Sum(ws), 2)
            && Normalized(TwoAndOnes(0, 0x8000_0000, 0x8000_0000), ws, 33)
            && Sum(TwoAndOnes(0, 0x8000_0000, 0x8000_0000)) == TWO32
  {
    ScaledBy33(1);
    ScaledBy33(MAX64);
    hide Scaled;
    TwoAndOnesNormalized(0, MAX64, MAX64, 33);
    TwoAndOnesSum(0, MAX64, MAX64);
    TwoAndOnesSum(0, 0x8000_0000, 0x8000_0000);
  }

  // ----- The worst lists -----

  function Ones(n: nat): (ws: seq<Weight>)
    ensures |ws| == n && forall i | 0 <= i < n :: ws[i] == Weight(Local, i, 1)
  {
    seq(n, i requires 0 <= i < n => Weight(Local, i, 1))
  }

  lemma {:induction false} OnesSum(n: nat)
    ensures Sum(Ones(n)) == n
  {
    if n > 0 {
      OnesSum(n - 1);
      assert Ones(n)[..n - 1] == Ones(n - 1);
    }
  }

  /** n weights of 1, and two more. */
  function TwoAndOnes(n: nat, a: nat, b: nat): seq<Weight> {
    Ones(n) + [Weight(Local, n, a)] + [Weight(Local, n + 1, b)]
  }

  lemma TwoAndOnesSum(n: nat, a: nat, b: nat)
    ensures Sum(TwoAndOnes(n, a, b)) == n + a + b
  {
    OnesSum(n);
    SumSnoc(Ones(n), Weight(Local, n, a));
    SumSnoc(Ones(n) + [Weight(Local, n, a)], Weight(Local, n + 1, b));
  }

  /** Where every weight has its own target, nothing is combined. */
  lemma TwoAndOnesNormalized(n: nat, a: nat, b: nat, shift: nat)
    requires 1 <= a <= MAX64 && 1 <= b <= MAX64 && Scaled(1, shift) == 1
    ensures Positive(TwoAndOnes(n, a, b))
    ensures Normalized(TwoAndOnes(n, Scaled(a, shift), Scaled(b, shift)), TwoAndOnes(n, a, b), shift)
  {
    var ws, result := TwoAndOnes(n, a, b), TwoAndOnes(n, Scaled(a, shift), Scaled(b, shift));
    TargetsAreIndices(n, a, b);
    forall w | w in ws
      ensures 1 <= w.amount <= MAX64 && w.amount == Saturated(SumTo(ws, w.target))
    {
      var i :| 0 <= i < |ws| && ws[i] == w;
      OnlyOneTo(ws, i);
    }
    forall w, x | w in ws && x in ws && w.target == x.target
      ensures w.kind == x.kind
    {
    }
    assert Combined(ws, ws);
    forall i | 0 <= i < |ws|
      ensures result[i] == ws[i].(amount := Scaled(ws[i].amount, shift))
    {
    }
    hide Combined, Scaled;
    assert NormalizedFrom(result, ws, ws, shift);
  }

  lemma TargetsAreIndices(n: nat, a: nat, b: nat)
    ensures var ws := TwoAndOnes(n, a, b);
            |ws| == n + 2 && Distinct(ws) && forall i | 0 <= i < |ws| :: ws[i].target == i && ws[i].kind == Local
  {
  }

  /** Where the two weights do not fit into 64 bits, which is possible for no weights but two, a third one goes to the
      second target. */
  lemma WorstList(sum: nat, count: nat) returns (ws: seq<Weight>, result: seq<Weight>)
    requires MAX64 < sum <= 2 * MAX64 + 1 && 2 <= count <= 0x8000_0000 && !Fits(sum, count)
    ensures Positive(ws) && Sum(ws) == sum && |result| == count
    ensures Normalized(result, ws, 33) && Sum(result) > MAX32
  {
    hide Scaled, TwoAndOnes, Normalized;
    var n := count - 2;
    var r := sum - n;
    ScaledBy33(1);
    if r > 2 * MAX64 {
      ws, result := LargestList();
    } else {
      var a := if r > 2 * MAX64 - MAX32 then MAX64 else MAX64 - MAX32;
      var b := r - a;
      WorstAmounts(sum, count, a, b);
      ws, result := TwoAndOnes(n, a, b), TwoAndOnes(n, Scaled(a, 33), Scaled(b, 33));
      TwoAndOnesNormalized(n, a, b, 33);
      TwoAndOnesSum(n, a, b);
      TwoAndOnesSum(n, Scaled(a, 33), Scaled(b, 33));
      TargetsAreIndices(n, Scaled(a, 33), Scaled(b, 33));
    }
  }

  lemma WorstAmounts(sum: nat, count: nat, a: int, b: int)
    requires MAX64 < sum <= 2 * MAX64 + 1 && 2 <= count <= 0x8000_0000 && !Fits(sum, count)
    requires var r := sum - (count - 2);
             r <= 2 * MAX64 && a == (if r > 2 * MAX64 - MAX32 then MAX64 else MAX64 - MAX32) && b == r - a
    ensures 1 <= a <= MAX64 && 1 <= b <= MAX64
    ensures count - 2 + Scaled(a, 33) + Scaled(b, 33) > MAX32
  {
    hide Scaled;
    ScaledAtLeast(a, 0x8000_0000);
    if a == MAX64 {
      ScaledAtLeast(b, 0x8000_0000);
    } else if count - 2 < 0x8000_0000 {
      ScaledAtLeast(b, 0x8000_0000 - (count - 2));
    }
  }

  lemma ScaledAtLeast(x: nat, q: nat)
    requires 1 <= x <= MAX64 && q * 0x2_0000_0000 <= x + TWO32
    ensures Scaled(x, 33) >= q
  {
    ScaledBy33(x);
    hide Scaled;
  }

  /** The largest sum there is, for two targets. */
  lemma LargestList() returns (ws: seq<Weight>, result: seq<Weight>)
    ensures Positive(ws) && Sum(ws) == 2 * MAX64 + 1 && |result| == 2
    ensures Normalized(result, ws, 33) && Sum(result) > MAX32
  {
    hide Combined, Scaled, TwoAndOnes, Normalized;
    var c := TwoAndOnes(0, MAX64, MAX64);
    var w := Weight(Local, 1, 1);
    ws, result := c + [w], TwoAndOnes(0, 0x8000_0000, 0x8000_0000);
    TwoAndOnesSum(0, MAX64, MAX64);
    TwoAndOnesSum(0, 0x8000_0000, 0x8000_0000);
    SumSnoc(c, w);
    LargestCombined(c, w);
    LargestNormalized(c, ws);
    TargetsAreIndices(0, 0x8000_0000, 0x8000_0000);
  }

  lemma LargestNormalized(c: seq<Weight>, ws: seq<Weight>)
    requires c == TwoAndOnes(0, MAX64, MAX64) && Combined(c, ws) && Positive(c)
    ensures Normalized(TwoAndOnes(0, 0x8000_0000, 0x8000_0000), ws, 33)
  {
    hide Combined, Scaled, Positive;
    ScaledBy33(MAX64);
    assert NormalizedFrom(TwoAndOnes(0, 0x8000_0000, 0x8000_0000), c, ws, 33);
  }

  lemma LargestCombined(c: seq<Weight>, w: Weight)
    requires c == TwoAndOnes(0, MAX64, MAX64) && w == Weight(Local, 1, 1)
    ensures Combined(c, c + [w]) && Positive(c) && Positive(c + [w])
  {
    SumSnoc(c, w);
    TargetsAreIndices(0, MAX64, MAX64);
    hide TwoAndOnes;
    OnlyOneTo(c, 0);
    OnlyOneTo(c, 1);
    assert c[0].amount == c[1].amount == MAX64;
    assert c[0] in c && c[1] in c;
    forall x
      ensures x in c <==> x == c[0] || x == c[1]
    {
    }
  }
}
