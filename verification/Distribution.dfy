/** Weights of a block's successors: gathering them, adding up those of one successor, and scaling them to 32 bits. */
module Distributions {
  import opened Basics
  import opened Bits
  import opened BranchProbability

  type Node = nat

  datatype Kind = Local | Exit | Backedge

  datatype Weight = Weight(kind: Kind, target: Node, amount: nat)

  // ----- Sums -----

  function Sum(ws: seq<Weight>): nat {
    if ws == [] then 0 else Sum(ws[..|ws| - 1]) + ws[|ws| - 1].amount
  }

  function AmountTo(w: Weight, t: Node): nat {
    if w.target == t then w.amount else 0
  }

  function SumTo(ws: seq<Weight>, t: Node): nat {
    if ws == [] then 0 else SumTo(ws[..|ws| - 1], t) + AmountTo(ws[|ws| - 1], t)
  }

  /** The sum as far as 64 bits go. */
  function Saturated(x: nat): nat {
    if x <= MAX64 then x else MAX64
  }

  predicate HasTarget(ws: seq<Weight>, t: Node) {
    exists w | w in ws :: w.target == t
  }

  predicate Distinct(ws: seq<Weight>) {
    forall i, j | 0 <= i < j < |ws| :: ws[i].target != ws[j].target
  }

  predicate Positive(ws: seq<Weight>) {
    forall w | w in ws :: 1 <= w.amount <= MAX64
  }

  /** Edges to the same node are of the same kind. */
  predicate KindsAgree(ws: seq<Weight>) {
    forall w, x | w in ws && x in ws && w.target == x.target :: w.kind == x.kind
  }

  lemma {:induction false} SumAppend(a: seq<Weight>, b: seq<Weight>)
    ensures Sum(a + b) == Sum(a) + Sum(b)
    ensures forall t :: SumTo(a + b, t) == SumTo(a, t) + SumTo(b, t)
  {
    if b == [] {
      assert a + b == a;
    } else {
      assert (a + b)[..|a + b| - 1] == a + b[..|b| - 1];
      SumAppend(a, b[..|b| - 1]);
    }
  }

  lemma SumSnoc(a: seq<Weight>, w: Weight)
    ensures Sum(a + [w]) == Sum(a) + w.amount
    ensures forall t :: SumTo(a + [w], t) == SumTo(a, t) + AmountTo(w, t)
  {
    assert (a + [w])[..|a + [w]| - 1] == a;
  }

  lemma {:induction false} NoneTo(ws: seq<Weight>, t: Node)
    requires !HasTarget(ws, t)
    ensures SumTo(ws, t) == 0
  {
    if ws != [] {
      NoneTo(ws[..|ws| - 1], t);
    }
  }

  lemma {:induction false} SumToAtMost(ws: seq<Weight>, t: Node)
    ensures SumTo(ws, t) <= Sum(ws)
  {
    if ws != [] {
      SumToAtMost(ws[..|ws| - 1], t);
    }
  }

  lemma {:induction false} SumToAtLeast(ws: seq<Weight>, i: nat)
    requires i < |ws|
    ensures SumTo(ws, ws[i].target) >= ws[i].amount
  {
    if i < |ws| - 1 {
      SumToAtLeast(ws[..|ws| - 1], i);
    }
  }

  /** Reordering changes no sum. */
  lemma {:induction false} SumPermutation(a: seq<Weight>, b: seq<Weight>)
    requires multiset(a) == multiset(b)
    ensures Sum(a) == Sum(b)
    ensures forall t :: SumTo(a, t) == SumTo(b, t)
    decreases |a|
  {
    if a == [] {
      assert |multiset(b)| == 0;
    } else {
      var w, a' := a[|a| - 1], a[..|a| - 1];
      var j := Elsewhere(a, b);
      var b', rest := b[..j] + b[j + 1..], [w] + b[j + 1..];
      SumPermutation(a', b');
      SumAppend(b[..j], rest);
      SumAppend([w], b[j + 1..]);
      SumAppend(b[..j], b[j + 1..]);
      assert b[..j] + rest == b;
      SumSnoc([], w);
      assert [] + [w] == [w] && a' + [w] == a;
      SumSnoc(a', w);
    }
  }

  /** The last of a is somewhere in b, and what is left of both is the same. */
  lemma Elsewhere(a: seq<Weight>, b: seq<Weight>) returns (j: nat)
    requires a != [] && multiset(a) == multiset(b)
    ensures j < |b| && b[j] == a[|a| - 1]
    ensures multiset(a[..|a| - 1]) == multiset(b[..j] + b[j + 1..])
  {
    var w := a[|a| - 1];
    assert a == a[..|a| - 1] + [w];
    assert w in multiset(a);
    j :| 0 <= j < |b| && b[j] == w;
    assert b == b[..j] + [w] + b[j + 1..];
    assert multiset(b) == multiset(b[..j]) + multiset{w} + multiset(b[j + 1..]);
    assert multiset(a) == multiset(a[..|a| - 1]) + multiset{w};
    assert multiset(a[..|a| - 1]) == multiset(a) - multiset{w};
    assert multiset(b[..j] + b[j + 1..]) == multiset(b) - multiset{w};
  }

  // ----- One weight per target -----

  /** One weight for every target, of its kind, with the sum of what leads there. */
  ghost predicate Combined(c: seq<Weight>, ws: seq<Weight>) {
    && Distinct(c)
    && (forall t :: HasTarget(c, t) <==> HasTarget(ws, t))
    && (forall w | w in c :: w.amount == Saturated(SumTo(ws, w.target)))
    && (forall w, x | w in c && x in ws && w.target == x.target :: w.kind == x.kind)
  }

  lemma CombinedOfReordered(c: seq<Weight>, a: seq<Weight>, b: seq<Weight>)
    requires multiset(a) == multiset(b) && Combined(c, a)
    ensures Combined(c, b)
  {
    SumPermutation(a, b);
    SameElements(a, b);
    assert forall t :: HasTarget(a, t) <==> HasTarget(b, t);
  }

  lemma SameElements(a: seq<Weight>, b: seq<Weight>)
    requires multiset(a) == multiset(b)
    ensures forall w :: w in a <==> w in b
  {
    forall w
      ensures w in a <==> w in b
    {
      assert w in a <==> w in multiset(a);
      assert w in b <==> w in multiset(b);
    }
  }

  /** The weights of one more target, all together. */
  lemma CombineGroup(c: seq<Weight>, before: seq<Weight>, group: seq<Weight>, w: Weight)
    requires Combined(c, before) && !HasTarget(before, w.target) && group != []
    requires forall x | x in group :: x.target == w.target && x.kind == w.kind
    requires w.amount == Saturated(SumTo(group, w.target))
    ensures Combined(c + [w], before + group)
  {
    hide SumTo;
    var c', ws := c + [w], before + group;
    SumAppend(before, group);
    NoneTo(before, w.target);
    assert group[0] in group;
    forall t | t != w.target
      ensures SumTo(group, t) == 0
    {
      NoneTo(group, t);
    }
    assert forall x | x in c :: HasTarget(c, x.target);
    forall t
      ensures HasTarget(c', t) <==> HasTarget(ws, t)
    {
      GroupTargets(c, before, group, w, t);
    }
    forall i, j | 0 <= i < j < |c'|
      ensures c'[i].target != c'[j].target
    {
      assert c'[i] == c[i];
    }
  }

  lemma GroupTargets(c: seq<Weight>, before: seq<Weight>, group: seq<Weight>, w: Weight, t: Node)
    requires HasTarget(c, t) <==> HasTarget(before, t)
    requires group != [] && forall x | x in group :: x.target == w.target
    ensures HasTarget(c + [w], t) <==> HasTarget(before + group, t)
  {
    assert group[0] in group && group[0] in before + group && w in c + [w];
    if HasTarget(c, t) {
      var x :| x in before && x.target == t;
      assert x in before + group;
    }
    if HasTarget(before, t) {
      var x :| x in c && x.target == t;
      assert x in c + [w];
    }
  }

  /** One weight added to another to the same node, or taking the place of none. */
  function CombineWeight(w: Weight, other: Weight): Weight {
    if w.amount == 0 then other
    else w.(amount := if w.amount + other.amount > MAX64 then MAX64 else w.amount + other.amount)
  }

  lemma CombineWeightAdds(w: Weight, x: nat, other: Weight)
    requires w.amount == Saturated(x) && 1 <= other.amount <= MAX64
    ensures CombineWeight(w, other).amount == Saturated(x + other.amount)
  {
  }

  // ----- By sorting -----

  type Sorter = seq<Weight> -> seq<Weight>

  predicate SortedByTarget(ws: seq<Weight>) {
    forall i, j | 0 <= i < j < |ws| :: ws[i].target <= ws[j].target
  }

  ghost predicate SortsOne(sort: Sorter, ws: seq<Weight>) {
    multiset(sort(ws)) == multiset(ws) && SortedByTarget(sort(ws))
  }

  ghost predicate Sorts(sort: Sorter) {
    forall ws :: SortsOne(sort, ws)
  }

  predicate Group(ws: seq<Weight>, i: nat, l: nat)
  {
    i < l <= |ws| && forall k | i <= k < l :: ws[k].target == ws[i].target
  }

  lemma PermutedKeeps(a: seq<Weight>, b: seq<Weight>)
    requires multiset(a) == multiset(b) && Positive(b) && KindsAgree(b)
    ensures |a| == |b| && Positive(a) && KindsAgree(a)
  {
    assert |multiset(a)| == |multiset(b)|;
    SameElements(a, b);
  }

  /** Put the weight at i at o, and add to it what follows to the same node. */
  method CombineRun(before: seq<Weight>, ghost s: seq<Weight>, o: nat, i: nat) returns (ws: seq<Weight>, l: nat)
    requires o <= i < |before| == |s| && Positive(s) && KindsAgree(s)
    requires forall k | i <= k < |s| :: before[k] == s[k]
    ensures |ws| == |s| && (forall k | 0 <= k < o :: ws[k] == before[k]) && Group(s, i, l)
    ensures forall k | l <= k < |s| :: ws[k] == s[k]
    ensures l < |s| ==> s[l].target != s[i].target
    ensures ws[o] == Weight(s[i].kind, s[i].target, Saturated(SumTo(s[i..l], s[i].target)))
            && 1 <= ws[o].amount <= MAX64
  {
    hide Positive, KindsAgree, SumTo, Saturated, CombineWeight;
    ws := before[o := before[i]];
    l := i + 1;
    GroupStarts(s, i);
    while l != |ws| && ws[i].target == ws[l].target
      invariant i < l <= |ws| == |s| && ws[i].target == s[i].target
      invariant forall k | 0 <= k < o :: ws[k] == before[k]
      invariant forall k | l <= k < |s| :: ws[k] == s[k]
      invariant Group(s, i, l)
      invariant ws[o] == Weight(s[i].kind, s[i].target, Saturated(SumTo(s[i..l], s[i].target)))
      invariant 1 <= ws[o].amount <= MAX64
      decreases |s| - l
    {
      GroupGrows(s, i, l, ws[o]);
      ws := ws[o := CombineWeight(ws[o], ws[l])];
      l := l + 1;
    }
  }

  /** Compact in place: neighbours to the same node are added into one entry. */
  method CompactSorted(s: seq<Weight>) returns (ws: seq<Weight>)
    requires SortedByTarget(s) && Positive(s) && KindsAgree(s)
    ensures Combined(ws, s) && Positive(ws)
  {
    hide *;
    ws := s;
    var o, i := 0, 0;
    ghost var c: seq<Weight> := [];
    NothingCombined();
    assert s[..0] == [] && s[..|s|] == s;
    while i != |ws|
      invariant |c| == o <= i <= |ws| == |s|
      invariant forall k | i <= k < |s| :: ws[k] == s[k]
      invariant forall k | 0 <= k < o :: ws[k] == c[k]
      invariant Combined(c, s[..i]) && Positive(c)
      invariant 0 < i < |s| ==> s[i - 1].target < s[i].target
      decreases |s| - i
    {
      var l;
      ws, l := CombineRun(ws, s, o, i);
      GroupLonger(s, i, l);
      NextRun(s, i, l, c, ws[o]);
      c := c + [ws[o]];
      o, i := o + 1, l;
    }
    ws := ws[..o];
    assert ws == c;
  }

  lemma NextRun(s: seq<Weight>, i: nat, l: nat, c: seq<Weight>, w: Weight)
    requires SortedByTarget(s) && KindsAgree(s) && Group(s, i, l)
    requires Combined(c, s[..i]) && Positive(c) && (0 < i ==> s[i - 1].target < s[i].target)
    requires w == Weight(s[i].kind, s[i].target, Saturated(SumTo(s[i..l], s[i].target))) && 1 <= w.amount <= MAX64
    requires l < |s| ==> s[l].target != s[i].target
    ensures Combined(c + [w], s[..l]) && Positive(c + [w])
    ensures l < |s| ==> s[l - 1].target < s[l].target
  {
    GroupEnds(s, i, l, c, w);
    PositiveSnoc(c, w);
  }

  /** Sort so that edges to the same node are neighbours, and combine those. */
  method CombineWeightsBySorting(weights: seq<Weight>, sort: Sorter) returns (ws: seq<Weight>)
    requires Sorts(sort) && Positive(weights) && KindsAgree(weights)
    ensures Combined(ws, weights) && Positive(ws)
  {
    var s := sort(weights);
    assert SortsOne(sort, weights);
    PermutedKeeps(s, weights);
    ws := CompactSorted(s);
    CombinedOfReordered(ws, s, weights);
  }

  lemma GroupLonger(ws: seq<Weight>, i: nat, l: nat)
    requires Group(ws, i, l)
    ensures i < l <= |ws|
  {
  }

  lemma NothingCombined()
    ensures Combined([], []) && Positive([])
  {
  }

  lemma PositiveSnoc(ws: seq<Weight>, w: Weight)
    requires Positive(ws) && 1 <= w.amount <= MAX64
    ensures Positive(ws + [w])
  {
  }

  lemma GroupStarts(s: seq<Weight>, i: nat)
    requires i < |s| && Positive(s)
    ensures Group(s, i, i + 1) && SumTo(s[i..i + 1], s[i].target) == s[i].amount
    ensures Saturated(s[i].amount) == s[i].amount && 1 <= s[i].amount <= MAX64
  {
    assert s[i] in s;
    assert s[i..i + 1] == [] + [s[i]];
    SumSnoc([], s[i]);
  }

  lemma GroupGrows(s: seq<Weight>, i: nat, l: nat, w: Weight)
    requires i < l < |s| && Positive(s) && Group(s, i, l) && s[l].target == s[i].target
    requires w == Weight(s[i].kind, s[i].target, Saturated(SumTo(s[i..l], s[i].target))) && 1 <= w.amount <= MAX64
    ensures Group(s, i, l + 1)
    ensures CombineWeight(w, s[l]) == Weight(s[i].kind, s[i].target, Saturated(SumTo(s[i..l + 1], s[i].target)))
    ensures 1 <= CombineWeight(w, s[l]).amount <= MAX64
  {
    assert s[i..l + 1] == s[i..l] + [s[l]];
    SumSnoc(s[i..l], s[l]);
    CombineWeightAdds(w, SumTo(s[i..l], s[i].target), s[l]);
  }

  lemma GroupEnds(s: seq<Weight>, i: nat, l: nat, c: seq<Weight>, w: Weight)
    requires SortedByTarget(s) && KindsAgree(s) && Group(s, i, l)
    requires Combined(c, s[..i]) && (0 < i ==> s[i - 1].target < s[i].target)
    requires w == Weight(s[i].kind, s[i].target, Saturated(SumTo(s[i..l], s[i].target)))
    requires l < |s| ==> s[l].target != s[i].target
    ensures Combined(c + [w], s[..l])
    ensures l < |s| ==> s[l - 1].target < s[l].target
  {
    hide Combined, SumTo, Saturated;
    assert s[..l] == s[..i] + s[i..l];
    assert forall k | 0 <= k < i :: s[k].target <= s[i - 1].target < w.target;
    assert forall x | x in s[..i] :: x.target != w.target;
    forall x | x in s[i..l]
      ensures x.target == w.target && x.kind == w.kind
    {
      var k :| i <= k < l && s[k] == x;
      assert s[i] in s && s[k] in s;
    }
    CombineGroup(c, s[..i], s[i..l], w);
    if l < |s| {
      assert s[l - 1].target <= s[l].target;
    }
  }

  // ----- By hashing -----

  /** The order in which a hash table gives out its keys. */
  type Enumerator = map<Node, Weight> -> seq<Node>

  ghost predicate EnumeratesOne(order: Enumerator, m: map<Node, Weight>) {
    && (forall k :: k in order(m) <==> k in m)
    && (forall i, j | 0 <= i < j < |order(m)| :: order(m)[i] != order(m)[j])
  }

  ghost predicate Enumerates(order: Enumerator) {
    forall m :: EnumeratesOne(order, m)
  }

  /** An entry is what the weights to one target come to. */
  ghost predicate EntryOf(e: Weight, t: Node, ws: seq<Weight>) {
    && e.target == t && e.amount == Saturated(SumTo(ws, t)) && 1 <= e.amount
    && forall w | w in ws && w.target == t :: e.kind == w.kind
  }

  /** The table holds what the weights so far come to. */
  ghost predicate TableOf(m: map<Node, Weight>, ws: seq<Weight>) {
    && (forall t :: t in m <==> HasTarget(ws, t))
    && (forall t | t in m :: EntryOf(m[t], t, ws))
  }

  lemma EntryKept(e: Weight, t: Node, ws: seq<Weight>, w: Weight)
    requires EntryOf(e, t, ws) && w.target != t
    ensures EntryOf(e, t, ws + [w])
  {
    SumSnoc(ws, w);
  }

  lemma EntryAdded(e: Weight, ws: seq<Weight>, w: Weight)
    requires EntryOf(e, w.target, ws) && HasTarget(ws, w.target) && 1 <= w.amount <= MAX64
    requires forall x | x in ws && x.target == w.target :: x.kind == w.kind
    ensures EntryOf(CombineWeight(e, w), w.target, ws + [w])
  {
    SumSnoc(ws, w);
    CombineWeightAdds(e, SumTo(ws, w.target), w);
    var x :| x in ws && x.target == w.target;
  }

  lemma EntryNew(ws: seq<Weight>, w: Weight)
    requires !HasTarget(ws, w.target) && 1 <= w.amount <= MAX64
    ensures EntryOf(w, w.target, ws + [w])
  {
    SumSnoc(ws, w);
    NoneTo(ws, w.target);
  }

  lemma TableGrows(m: map<Node, Weight>, ws: seq<Weight>, i: nat, m': map<Node, Weight>)
    requires i < |ws| && Positive(ws) && KindsAgree(ws) && TableOf(m, ws[..i])
    requires m' == m[ws[i].target := if ws[i].target in m then CombineWeight(m[ws[i].target], ws[i]) else ws[i]]
    ensures TableOf(m', ws[..i + 1])
  {
    var w, before := ws[i], ws[..i];
    assert ws[..i + 1] == before + [w];
    assert w in ws && forall x | x in before :: x in ws;
    forall t
      ensures t in m' <==> HasTarget(before + [w], t)
    {
      TargetsSnoc(before, w, t);
    }
    forall t | t in m'
      ensures EntryOf(m'[t], t, before + [w])
    {
      if t != w.target {
        EntryKept(m[t], t, before, w);
      } else if t in m {
        EntryAdded(m[t], before, w);
      } else {
        EntryNew(before, w);
      }
    }
  }

  lemma TargetsSnoc(ws: seq<Weight>, w: Weight, t: Node)
    ensures HasTarget(ws + [w], t) <==> HasTarget(ws, t) || w.target == t
  {
    if HasTarget(ws, t) {
      var x :| x in ws && x.target == t;
      assert x in ws + [w];
    }
    assert w in ws + [w];
  }

  method CombineWeightsByHashing(weights: seq<Weight>, order: Enumerator) returns (ws: seq<Weight>)
    requires Enumerates(order) && Positive(weights) && KindsAgree(weights)
    ensures Combined(ws, weights) && Positive(ws)
  {
    var combined: map<Node, Weight> := map[];
    assert weights[..0] == [];
    for i := 0 to |weights|
      invariant TableOf(combined, weights[..i])
    {
      var w := weights[i];
      ghost var before := combined;
      combined := combined[w.target := if w.target in combined then CombineWeight(combined[w.target], w) else w];
      TableGrows(before, weights, i, combined);
    }
    assert weights[..|weights|] == weights;
    if |weights| == |combined| {
      AllDifferent(weights, combined);
      ws := weights;
    } else {
      var keys := order(combined);
      assert EnumeratesOne(order, combined);
      assert forall k | k in keys :: k in combined;
      ws := seq(|keys|, i requires 0 <= i < |keys| => combined[keys[i]]);
      TableRead(combined, weights, keys, ws);
    }
  }

  lemma TableRead(m: map<Node, Weight>, ws: seq<Weight>, keys: seq<Node>, c: seq<Weight>)
    requires TableOf(m, ws) && (forall k :: k in keys <==> k in m)
    requires forall i, j | 0 <= i < j < |keys| :: keys[i] != keys[j]
    requires |c| == |keys| && forall i | 0 <= i < |c| :: c[i] == m[keys[i]]
    ensures Combined(c, ws) && Positive(c)
  {
    forall t
      ensures HasTarget(c, t) <==> t in m
    {
      if t in m {
        assert t in keys;
        var i :| 0 <= i < |keys| && keys[i] == t;
        assert c[i] in c && c[i].target == t;
      }
      if HasTarget(c, t) {
        var i :| 0 <= i < |c| && c[i].target == t;
        assert keys[i] in keys;
      }
    }
    forall w | w in c
      ensures w.target in m && w == m[w.target]
    {
      var i :| 0 <= i < |c| && c[i] == w;
      assert keys[i] in keys;
    }
  }

  /** With as many targets as weights, no two weights lead to the same node. */
  lemma AllDifferent(ws: seq<Weight>, m: map<Node, Weight>)
    requires TableOf(m, ws) && |ws| == |m| && Positive(ws) && KindsAgree(ws)
    ensures Combined(ws, ws)
  {
    assert m.Keys == TargetsOf(ws);
    DistinctByCount(ws);
    forall w | w in ws
      ensures w.amount == Saturated(SumTo(ws, w.target))
    {
      var i :| 0 <= i < |ws| && ws[i] == w;
      OnlyOneTo(ws, i);
    }
  }

  function TargetsOf(ws: seq<Weight>): set<Node> {
    set w | w in ws :: w.target
  }

  lemma {:induction false} DistinctByCount(ws: seq<Weight>)
    ensures |TargetsOf(ws)| <= |ws|
    ensures |TargetsOf(ws)| == |ws| ==> Distinct(ws)
  {
    hide TargetsOf, Distinct;
    if ws != [] {
      var n := |ws| - 1;
      DistinctByCount(ws[..n]);
      TargetsOfLast(ws);
      DistinctWithLast(ws);
    } else {
      NoTargets();
    }
  }

  lemma NoTargets()
    ensures TargetsOf([]) == {} && Distinct([])
  {
  }

  lemma TargetsOfLast(ws: seq<Weight>)
    requires ws != []
    ensures var n := |ws| - 1; TargetsOf(ws) == TargetsOf(ws[..n]) + {ws[n].target}
  {
    var n := |ws| - 1;
    assert ws == ws[..n] + [ws[n]];
  }

  lemma DistinctWithLast(ws: seq<Weight>)
    requires ws != []
    ensures Distinct(ws[..|ws| - 1]) && ws[|ws| - 1].target !in TargetsOf(ws[..|ws| - 1]) ==> Distinct(ws)
  {
    var before, n := ws[..|ws| - 1], |ws| - 1;
    if Distinct(before) && ws[n].target !in TargetsOf(before) {
      forall i, j | 0 <= i < j < |ws|
        ensures ws[i].target != ws[j].target
      {
        assert before[i] == ws[i] && before[i] in before;
        assert j < n ==> before[j] == ws[j];
      }
    }
  }

  lemma {:induction false} OnlyOneTo(ws: seq<Weight>, i: nat)
    requires i < |ws| && Distinct(ws)
    ensures SumTo(ws, ws[i].target) == ws[i].amount
  {
    var n := |ws| - 1;
    assert forall k | 0 <= k < n :: ws[..n][k] == ws[k];
    if i < n {
      OnlyOneTo(ws[..n], i);
    } else {
      NoneTo(ws[..n], ws[i].target);
    }
  }

  method CombineWeights(weights: seq<Weight>, sort: Sorter, order: Enumerator) returns (ws: seq<Weight>)
    requires Sorts(sort) && Enumerates(order) && Positive(weights) && KindsAgree(weights)
    ensures Combined(ws, weights) && Positive(ws)
  {
    if |weights| > 128 {
      ws := CombineWeightsByHashing(weights, order);
    } else {
      ws := CombineWeightsBySorting(weights, sort);
    }
  }

  /** However they are combined, the same targets get the same amounts and kinds. */
  lemma CombinedAgree(a: seq<Weight>, b: seq<Weight>, ws: seq<Weight>, ws': seq<Weight>)
    requires multiset(ws) == multiset(ws') && Combined(a, ws) && Combined(b, ws')
    ensures forall w :: w in a <==> w in b
  {
    CombinedOfReordered(b, ws', ws);
    forall w
      ensures w in a <==> w in b
    {
      if w in a {
        CombinedHas(a, b, ws, w);
      }
      if w in b {
        CombinedHas(b, a, ws, w);
      }
    }
  }

  lemma CombinedHas(a: seq<Weight>, b: seq<Weight>, ws: seq<Weight>, w: Weight)
    requires Combined(a, ws) && Combined(b, ws) && w in a
    ensures w in b
  {
    assert HasTarget(a, w.target) && HasTarget(ws, w.target) && HasTarget(b, w.target);
    var y :| y in b && y.target == w.target;
    var x :| x in ws && x.target == w.target;
    assert y == w;
  }

  // ----- Scaling to 32 bits -----

  function BitLength(x: nat): nat {
    if x == 0 then 0 else 1 + BitLength(x / 2)
  }

  lemma {:induction false} BitLengthBounds(x: nat)
    requires x > 0
    ensures BitLength(x) > 0 && Pow2(BitLength(x) - 1) <= x < Pow2(BitLength(x))
  {
    if x > 1 {
      BitLengthBounds(x / 2);
    }
  }

  function CountLeadingZeros(x: nat): nat {
    if BitLength(x) <= 64 then 64 - BitLength(x) else 0
  }

  lemma BitLengthOf64(x: nat)
    requires 0 < x <= MAX64
    ensures BitLength(x) <= 64 && CountLeadingZeros(x) == 64 - BitLength(x)
  {
    BitLengthBounds(x);
    Pow64();
    if BitLength(x) > 64 {
      PowMonotone(64, BitLength(x) - 1);
      assert false;
    }
  }

  /** How far the weights are shifted right: one more than it takes for the total to fit into 32 bits. */
  function Shift(total: nat, didOverflow: bool): nat {
    if didOverflow then 33
    else if total > MAX32 then 33 - Min(CountLeadingZeros(total), 33)
    else 0
  }

  function ShiftRightAndRound(n: nat, shift: nat): nat {
    if shift == 0 then n else Quotient(n, Pow2(shift)) + Quotient(n, Pow2(shift - 1)) % 2
  }

  function Scaled(n: nat, shift: nat): nat {
    var r := ShiftRightAndRound(n, shift);
    if r < 1 then 1 else r
  }

  /** Rounding goes up by less than one. */
  lemma ScaledAtMost(n: nat, shift: nat)
    ensures Scaled(n, shift) >= 1
    ensures Scaled(n, shift) * Pow2(shift) <= n + Pow2(shift)
  {
    assert Pow2(0) == 1;
    hide Pow2;
    if shift > 0 {
      RoundedAtMost(n, Quotient(n, Pow2(shift - 1)) % 2, Pow2(shift));
    }
  }

  lemma RoundedAtMost(n: nat, r: nat, p: nat)
    requires r <= 1 && p > 0
    ensures (Quotient(n, p) + r) * p <= n + p
  {
    var q := n / p;
    assert n == p * q + n % p;
    Distributive(q, r, p);
  }

  lemma Distributive(q: nat, r: nat, p: nat)
    requires r <= 1
    ensures (q + r) * p == p * q + r * p && r * p <= p
  {
  }

  /** The sum of the scaled weights, scaled back, is the sum of the weights and at most one unit for each. */
  lemma {:induction false} ScaledSumAtMost(ws: seq<Weight>, scaled: seq<Weight>, shift: nat)
    requires |ws| == |scaled| && forall i | 0 <= i < |ws| :: scaled[i].amount == Scaled(ws[i].amount, shift)
    ensures Sum(scaled) * Pow2(shift) <= Sum(ws) + |ws| * Pow2(shift)
    decreases |ws|
  {
    if ws != [] {
      var n := |ws| - 1;
      ScaledSumAtMost(ws[..n], scaled[..n], shift);
      ScaledAtMost(ws[n].amount, shift);
      AddedUp(Sum(scaled[..n]), scaled[n].amount, n, Pow2(shift));
    }
  }

  lemma AddedUp(a: nat, b: nat, n: nat, p: nat)
    ensures (a + b) * p == a * p + b * p && (n + 1) * p == n * p + p
  {
  }

  /** Distinct weights have no more between them than all weights. */
  lemma {:induction false} CombinedSum(c: seq<Weight>, ws: seq<Weight>)
    requires Distinct(c) && forall w | w in c :: w.amount <= SumTo(ws, w.target)
    ensures Sum(c) <= Sum(ws)
    ensures (forall t | SumTo(ws, t) > 0 :: HasTarget(c, t))
            && (forall w | w in c :: w.amount == SumTo(ws, w.target)) ==>
              Sum(c) == Sum(ws)
    decreases |c|
  {
    if c == [] {
      if forall t | SumTo(ws, t) > 0 :: HasTarget(c, t) {
        NothingAnywhere(ws);
      }
    } else {
      var n := |c| - 1;
      var w, rest := c[n], Without(ws, c[n].target);
      assert c == c[..n] + [w] && w in c;
      WithoutSums(ws, w.target);
      forall x | x in c[..n]
        ensures x in c && x.target != w.target
      {
        var k :| 0 <= k < n && c[k] == x;
      }
      CombinedSum(c[..n], rest);
      if forall t | SumTo(ws, t) > 0 :: HasTarget(c, t) {
        forall t | SumTo(rest, t) > 0
          ensures HasTarget(c[..n], t)
        {
          assert HasTarget(c, t) && t != w.target;
        }
      }
    }
  }

  lemma {:induction false} NothingAnywhere(ws: seq<Weight>)
    requires forall t :: SumTo(ws, t) == 0
    ensures Sum(ws) == 0
  {
    if ws != [] {
      var n := |ws| - 1;
      SumToAtLeast(ws, n);
      assert ws == ws[..n] + [ws[n]];
      SumSnoc(ws[..n], ws[n]);
      NothingAnywhere(ws[..n]);
    }
  }

  function Without(ws: seq<Weight>, t: Node): seq<Weight> {
    if ws == [] then [] else
    var w := ws[|ws| - 1];
    Without(ws[..|ws| - 1], t) + (if w.target == t then [] else [w])
  }

  lemma {:induction false} WithoutSums(ws: seq<Weight>, t: Node)
    ensures Sum(Without(ws, t)) + SumTo(ws, t) == Sum(ws)
    ensures forall u :: SumTo(Without(ws, t), u) == if u == t then 0 else SumTo(ws, u)
  {
    if ws != [] {
      var n := |ws| - 1;
      WithoutSums(ws[..n], t);
      if ws[n].target != t {
        SumSnoc(Without(ws[..n], t), ws[n]);
      } else {
        assert Without(ws, t) == Without(ws[..n], t);
      }
    }
  }

  /** The weights left after normalizing: one for every target; alone, it is 1; otherwise it is the sum, shifted and
      rounded, and never 0. */
  ghost predicate Normalized(result: seq<Weight>, ws: seq<Weight>, shift: nat) {
    exists c :: NormalizedFrom(result, c, ws, shift)
  }

  ghost predicate NormalizedFrom(result: seq<Weight>, c: seq<Weight>, ws: seq<Weight>, shift: nat) {
    && Combined(c, ws) && Positive(c) && |result| == |c|
    && forall i | 0 <= i < |c| ::
         result[i] == c[i].(amount := if |c| == 1 then 1 else Scaled(c[i].amount, shift))
  }

  /** The total fits into 32 bits, as the last assertion demands. */
  ghost predicate TotalFits(ws: seq<Weight>, shift: nat) {
    forall result | Normalized(result, ws, shift) :: Sum(result) <= MAX32
  }

  /** What a caller may know beforehand: the true sum of the weights and the number of targets. */
  predicate Fits(sum: nat, count: nat) {
    && count <= 0x8000_0000
    && (sum > MAX64 && count > 1 ==> sum + (count - 1) * 0x2_0000_0000 < 0x2_0000_0000_0000_0000 + (count - 2))
  }

  lemma ScaledFits(c: seq<Weight>, ws: seq<Weight>, scaled: seq<Weight>, total: nat, didOverflow: bool)
    requires Combined(c, ws) && Positive(c)
    requires total <= MAX64 && (didOverflow <==> Sum(ws) > MAX64) && (!didOverflow ==> total == Sum(ws))
    requires |scaled| == |c| && forall i | 0 <= i < |c| ::
             scaled[i].amount == Scaled(c[i].amount, Shift(total, didOverflow))
    requires Fits(Sum(ws), |c|)
    ensures Sum(scaled) <= MAX32
  {
    hide Pow2, BitLength, Combined, Scaled, Larges, Fits, Sum;
    var shift := Shift(total, didOverflow);
    CombinedSumAtMost(c, ws);
    FewTargets(Sum(ws), |c|);
    if didOverflow {
      ScaledSumBy33(c, scaled);
      LargesAtMost(c);
      OverflowFits(Sum(scaled), Larges(c), Sum(ws), |c|);
    } else if total > MAX32 {
      ScaledSumAtMost(c, scaled, shift);
      ShiftIs(total);
      MulAtMost(|c|, Pow2(shift), 0x8000_0000, Pow2(shift));
      CancelScale(Sum(scaled), TWO32, Pow2(shift));
    } else {
      ScaledByNothing(c, scaled);
    }
  }

  lemma FewTargets(sum: nat, count: nat)
    requires Fits(sum, count)
    ensures count <= 0x8000_0000
  {
  }

  lemma OverflowFits(total: nat, larges: nat, sum: nat, count: nat)
    requires Fits(sum, count) && sum > MAX64
    requires 0x2_0000_0000 * total + larges * MAX32 <= sum + count * 0x1_ffff_ffff
    requires total <= count + larges * 0x7fff_ffff && larges <= count
    ensures total <= MAX32
  {
    if larges >= 2 {
      assert larges * MAX32 >= 2 * MAX32;
    }
  }

  // ----- Shifting by 33 -----

  /** Whether a weight is more than what is rounded away. */
  function Large(x: nat): nat {
    if x >= TWO32 then 1 else 0
  }

  function Larges(ws: seq<Weight>): nat {
    if ws == [] then 0 else Larges(ws[..|ws| - 1]) + Large(ws[|ws| - 1].amount)
  }

  lemma {:induction false} LargesAtMost(ws: seq<Weight>)
    ensures Larges(ws) <= |ws|
  {
    if ws != [] {
      LargesAtMost(ws[..|ws| - 1]);
    }
  }

  lemma ScaledBy33(x: nat)
    requires 1 <= x <= MAX64
    ensures Scaled(x, 33) == if x < 3 * TWO32 then 1 else (x + TWO32) / 0x2_0000_0000
  {
    Pow32();
    hide Pow2;
    assert Quotient(x, Pow2(32)) == 2 * (x / 0x2_0000_0000) + (x / TWO32) % 2;
  }

  /** A large weight gains half a unit by rounding, and a small one gains less than a unit. Few large weights cannot
      come to more than half of what fits. */
  lemma {:induction false} ScaledSumBy33(c: seq<Weight>, scaled: seq<Weight>)
    requires Positive(c) && |scaled| == |c| && forall i | 0 <= i < |c| :: scaled[i].amount == Scaled(c[i].amount, 33)
    ensures 0x2_0000_0000 * Sum(scaled) + Larges(c) * MAX32 <= Sum(c) + |c| * 0x1_ffff_ffff
    ensures Sum(scaled) <= |c| + Larges(c) * 0x7fff_ffff
    decreases |c|
  {
    hide Scaled, Large, Positive;
    if c != [] {
      var n := |c| - 1;
      PositiveLast(c);
      ScaledSumBy33(c[..n], scaled[..n]);
      BoundsBy33(c[n].amount);
    }
  }

  lemma PositiveLast(c: seq<Weight>)
    requires Positive(c) && c != []
    ensures Positive(c[..|c| - 1]) && 1 <= c[|c| - 1].amount <= MAX64
  {
    assert c[|c| - 1] in c && forall w | w in c[..|c| - 1] :: w in c;
  }

  lemma BoundsBy33(x: nat)
    requires 1 <= x <= MAX64
    ensures 0x2_0000_0000 * Scaled(x, 33) + Large(x) * MAX32 <= x + 0x1_ffff_ffff
    ensures Scaled(x, 33) <= 1 + Large(x) * 0x7fff_ffff
  {
    ScaledBy33(x);
    hide Scaled;
  }

  lemma CombinedSumAtMost(c: seq<Weight>, ws: seq<Weight>)
    requires Combined(c, ws)
    ensures Sum(c) <= Sum(ws)
  {
    CombinedSum(c, ws);
  }

  lemma Pow32()
    ensures Pow2(31) == 0x8000_0000 && Pow2(32) == TWO32 && Pow2(33) == 2 * TWO32
  {
    assert Pow2(8) == 256;
    PowAdd(8, 8);
    PowAdd(16, 16);
    assert Pow2(32) == 2 * Pow2(31);
  }

  /** The total, shifted, is below 2^31. */
  lemma ShiftIs(total: nat)
    requires MAX32 < total <= MAX64
    ensures var shift := Shift(total, false);
            shift > 0 && 0x4000_0000 * Pow2(shift) <= total < 0x8000_0000 * Pow2(shift)
  {
    BitLengthOf64(total);
    BitLengthBounds(total);
    Pow32();
    var len := BitLength(total);
    if len <= 32 {
      PowMonotone(len, 32);
      assert false;
    }
    PowAdd(31, len - 31);
    PowAdd(30, len - 31);
  }

  // ----- What normalizing comes to -----

  /** How many bits are shifted out: none where the sum fits into 32 bits; so many that it takes up 31 bits then; and 33
      where it does not fit into 64. */
  predicate TakesShift(k: nat, sum: nat) {
    if sum > MAX64 then k == 33
    else if sum > MAX32 then 0x4000_0000 * Pow2(k) <= sum < 0x8000_0000 * Pow2(k)
    else k == 0
  }

  /** The amount is the sum divided by 2^k to the nearest, but not 0; a sum stops at the largest 64-bit number. */
  predicate IsNormal(amount: nat, sum: nat, k: nat) {
    var x := if sum <= MAX64 then sum else MAX64;
    IsRounded(amount, x, Pow2(k)) || (amount == 1 && IsRounded(0, x, Pow2(k)))
  }

  /** One weight for every target, of its kind: alone, it is 1; otherwise it is the sum of what leads there, normal. */
  ghost predicate NormalBy(result: seq<Weight>, ws: seq<Weight>, k: nat) {
    && Distinct(result)
    && (forall t :: HasTarget(result, t) <==> HasTarget(ws, t))
    && (forall w, x | w in result && x in ws && w.target == x.target :: w.kind == x.kind)
    && forall w | w in result :: if |result| == 1 then w.amount == 1 else IsNormal(w.amount, SumTo(ws, w.target), k)
  }

  lemma ScaledIsNormal(sum: nat, k: nat)
    ensures IsNormal(Scaled(Saturated(sum), k), sum, k)
  {
    var x := Saturated(sum);
    assert IsRounded(ShiftRightAndRound(x, k), x, Pow2(k)) by {
      ShiftRounds(x, k);
    }
    hide ShiftRightAndRound, IsRounded, Pow2;
  }

  lemma ShiftRounds(x: nat, k: nat)
    ensures IsRounded(ShiftRightAndRound(x, k), x, Pow2(k))
  {
    if k > 0 {
      HalfBit(x, Pow2(k - 1));
    }
  }

  /** The highest bit that is shifted out says which way to round. */
  lemma HalfBit(x: nat, h: nat)
    requires h > 0
    ensures IsRounded(Quotient(x, 2 * h) + Quotient(x, h) % 2, x, 2 * h)
  {
    hide IsRounded, Quotient;
    var q := Quotient(x, 2 * h);
    var r := WhatIsLeft(x, 2 * h);
    Doubled(h, q);
    if r >= h {
      QuotientIs(x, h, 2 * q + 1, r - h);
      Nearest(q + 1, x, h, (2 * h) * q, r);
    } else {
      QuotientIs(x, h, 2 * q, r);
      Nearest(q, x, h, (2 * h) * q, r);
    }
  }

  lemma WhatIsLeft(x: nat, d: nat) returns (r: nat)
    requires d > 0
    ensures x == d * Quotient(x, d) + r && r < d
  {
    r := x % d;
  }

  lemma QuotientIs(x: nat, d: nat, q: nat, r: nat)
    requires d > 0 && x == d * q + r && r < d
    ensures Quotient(x, d) == q
  {
    RemainderIs(x, d, q, r);
  }

  lemma Doubled(h: nat, q: nat)
    ensures h * (2 * q) == (2 * h) * q && h * (2 * q + 1) == (2 * h) * q + h
    ensures (2 * h) * (q + 1) == (2 * h) * q + 2 * h
  {
  }

  lemma Nearest(n: nat, x: nat, h: nat, m: nat, r: nat)
    requires x == m + r && r < 2 * h && (2 * h) * n == if r >= h then m + 2 * h else m
    ensures IsRounded(n, x, 2 * h)
  {
  }

  lemma NormalizedIs(result: seq<Weight>, ws: seq<Weight>, total: nat, didOverflow: bool)
    requires Normalized(result, ws, Shift(total, didOverflow)) && total <= MAX64
    requires Sum(ws) == total + if didOverflow then MAX64 + 1 else 0
    ensures TakesShift(Shift(total, didOverflow), Sum(ws)) && NormalBy(result, ws, Shift(total, didOverflow))
  {
    hide Pow2, BitLength, CountLeadingZeros, Scaled, IsNormal, Sum;
    var k := Shift(total, didOverflow);
    if total > MAX32 {
      ShiftIs(total);
    }
    hide Shift;
    var c: seq<Weight> :| NormalizedFrom(result, c, ws, k);
    forall w | w in result
      ensures if |result| == 1 then w.amount == 1 else IsNormal(w.amount, SumTo(ws, w.target), k)
      ensures forall x | x in ws && w.target == x.target :: w.kind == x.kind
    {
      var i :| 0 <= i < |result| && result[i] == w;
      assert c[i] in c;
      ScaledIsNormal(SumTo(ws, w.target), k);
    }
    forall t
      ensures HasTarget(result, t) <==> HasTarget(ws, t)
    {
      SameTargets(result, c, t);
    }
  }

  lemma SameTargets(a: seq<Weight>, b: seq<Weight>, t: Node)
    requires |a| == |b| && forall i | 0 <= i < |a| :: a[i].target == b[i].target
    ensures HasTarget(a, t) <==> HasTarget(b, t)
  {
    if HasTarget(a, t) {
      var w :| w in a && w.target == t;
      var i :| 0 <= i < |a| && a[i] == w;
      assert b[i] in b;
    }
    if HasTarget(b, t) {
      var w :| w in b && w.target == t;
      var i :| 0 <= i < |b| && b[i] == w;
      assert a[i] in a;
    }
  }

  lemma ScaledByNothing(c: seq<Weight>, scaled: seq<Weight>)
    requires Positive(c) && |scaled| == |c| && forall i | 0 <= i < |c| :: scaled[i].amount == Scaled(c[i].amount, 0)
    ensures Sum(scaled) == Sum(c)
  {
    assert forall i | 0 <= i < |c| :: c[i] in c;
    SameAmounts(c, scaled);
  }

  lemma CancelScale(a: nat, b: nat, p: nat)
    requires a * p < b * p
    ensures a < b
  {
    if a >= b {
      MulAtMost(b, p, a, p);
    }
  }

  lemma {:induction false} SameAmounts(a: seq<Weight>, b: seq<Weight>)
    requires |a| == |b| && forall i | 0 <= i < |a| :: a[i].amount == b[i].amount
    ensures Sum(a) == Sum(b)
  {
    if a != [] {
      SameAmounts(a[..|a| - 1], b[..|b| - 1]);
    }
  }

  lemma {:induction false} AmountsAtMost(ws: seq<Weight>)
    ensures forall w | w in ws :: w.amount <= Sum(ws)
  {
    if ws != [] {
      AmountsAtMost(ws[..|ws| - 1]);
      assert ws == ws[..|ws| - 1] + [ws[|ws| - 1]];
    }
  }

  lemma OneMoreWeight(ws: seq<Weight>, w: Weight)
    requires Positive(ws) && KindsAgree(ws) && 1 <= w.amount <= MAX64
    requires forall x | x in ws && x.target == w.target :: x.kind == w.kind
    ensures Positive(ws + [w]) && KindsAgree(ws + [w]) && Sum(ws + [w]) == Sum(ws) + w.amount
  {
    SumSnoc(ws, w);
  }

  class Distribution {
    var weights: seq<Weight>
    var total: nat
    var didOverflow: bool

    /** The total is the sum of the weights, in 64 bits; whether it overflowed, once, is noted. */
    predicate Gathered()
      reads this
    {
      && Positive(weights) && KindsAgree(weights)
      && total <= MAX64
      && Sum(weights) == total + if didOverflow then MAX64 + 1 else 0
    }

    constructor ()
      ensures Gathered() && weights == []
    {
      weights, total, didOverflow := [], 0, false;
    }

    /** Add a weight; the total must not overflow twice. */
    method Add(node: Node, amount: nat, kind: Kind)
      requires Gathered() && 1 <= amount <= MAX64
      requires forall w | w in weights && w.target == node :: w.kind == kind
      requires Sum(weights) + amount <= 2 * MAX64 + 1
      modifies this
      ensures Gathered() && weights == old(weights) + [Weight(kind, node, amount)]
    {
      hide Positive, KindsAgree, Sum;
      var newTotal := (total + amount) % (MAX64 + 1);
      var isOverflow := newTotal < total;
      OneMoreWeight(weights, Weight(kind, node, amount));
      didOverflow := didOverflow || isOverflow;
      total := newTotal;
      weights := weights + [Weight(kind, node, amount)];
    }

    /** One weight per target, all of them in 32 bits, and the total is their sum. */
    method Normalize(sort: Sorter, order: Enumerator)
      requires Gathered() && Sorts(sort) && Enumerates(order)
      modifies this
      ensures old(weights) == [] ==> weights == [] && total == old(total)
      ensures old(weights) != [] ==>
                && weights != []
                && Normalized(weights, old(weights), Shift(old(total), old(didOverflow)))
                && (exists k: nat :: TakesShift(k, old(Sum(weights))) && NormalBy(weights, old(weights), k))
                && total == Sum(weights)
                && forall w | w in weights :: 1 <= w.amount <= MAX32
      ensures old(weights) != [] && Fits(old(Sum(weights)), |weights|) ==> total <= MAX32
      ensures old(weights) != [] && TotalFits(old(weights), Shift(old(total), old(didOverflow))) ==> total <= MAX32
    {
      hide NormalBy, TakesShift, Normalized, Combined, Fits, Shift, Sum, Positive, KindsAgree, Scaled;
      if weights == [] {
        return;
      }
      ghost var ws := weights;
      OneAlready(ws);
      if |weights| > 1 {
        weights := CombineWeights(weights, sort, order);
      }
      ghost var c := weights;
      CombinedNotEmpty(c, ws);
      if |weights| == 1 {
        total := 1;
        weights := [weights[0].(amount := 1)];
        LoneWeight(weights[0], c, ws, Shift(old(total), didOverflow));
        NormalizedIs(weights, ws, old(total), didOverflow);
        return;
      }
      var shift := Shift(total, didOverflow);
      if shift == 0 {
        NoShift(c, ws, total, didOverflow);
        NormalizedIs(c, ws, total, didOverflow);
        return;
      }
      total, weights := ScaleWeights(weights, shift);
      AllScaled(weights, c, ws, old(total), didOverflow);
      NormalizedIs(weights, ws, old(total), didOverflow);
    }
  }

  /** Shift every weight, and add them up again. */
  method ScaleWeights(c: seq<Weight>, shift: nat) returns (total: nat, ws: seq<Weight>)
    ensures |ws| == |c| && total == Sum(ws)
    ensures forall i | 0 <= i < |c| :: ws[i] == c[i].(amount := Scaled(c[i].amount, shift))
  {
    total, ws := 0, c;
    for i := 0 to |ws|
      invariant |ws| == |c| && total == Sum(ws[..i])
      invariant forall k | 0 <= k < i :: ws[k] == c[k].(amount := Scaled(c[k].amount, shift))
      invariant forall k | i <= k < |c| :: ws[k] == c[k]
    {
      ghost var before := ws[..i];
      ws := ws[i := ws[i].(amount := Scaled(ws[i].amount, shift))];
      assert ws[..i + 1] == before + [ws[i]];
      SumSnoc(before, ws[i]);
      total := total + ws[i].amount;
    }
    assert ws[..|ws|] == ws;
  }

  lemma OneAlready(ws: seq<Weight>)
    requires Positive(ws)
    ensures |ws| == 1 ==> Combined(ws, ws)
  {
    if |ws| == 1 {
      OnlyOneTo(ws, 0);
      assert ws[0] in ws;
    }
  }

  lemma CombinedNotEmpty(c: seq<Weight>, ws: seq<Weight>)
    requires Combined(c, ws) && ws != []
    ensures c != []
  {
    assert ws[0] in ws;
    assert HasTarget(ws, ws[0].target);
  }

  lemma LoneWeight(w: Weight, c: seq<Weight>, ws: seq<Weight>, shift: nat)
    requires Combined(c, ws) && Positive(c) && |c| == 1 && w == c[0].(amount := 1)
    ensures Normalized([w], ws, shift) && Sum([w]) == 1
  {
    assert NormalizedFrom([w], c, ws, shift);
    SumSnoc([], w);
    assert [] + [w] == [w];
  }

  lemma AllScaled(result: seq<Weight>, c: seq<Weight>, ws: seq<Weight>, total: nat, didOverflow: bool)
    requires Combined(c, ws) && Positive(c) && |c| > 1 && |result| == |c| && total <= MAX64
    requires Sum(ws) == total + if didOverflow then MAX64 + 1 else 0
    requires forall i | 0 <= i < |c| :: result[i] == c[i].(amount := Scaled(c[i].amount, Shift(total, didOverflow)))
    ensures Normalized(result, ws, Shift(total, didOverflow))
    ensures forall w | w in result :: 1 <= w.amount <= MAX32
    ensures Fits(Sum(ws), |result|) ==> Sum(result) <= MAX32
  {
    assert NormalizedFrom(result, c, ws, Shift(total, didOverflow));
    if Fits(Sum(ws), |result|) {
      ScaledFits(c, ws, result, total, didOverflow);
    }
    forall w | w in result
      ensures 1 <= w.amount <= MAX32
    {
      var i :| 0 <= i < |result| && result[i] == w;
      CombinedSumAtMost(c, ws);
      AmountsAtMost(c);
      assert c[i] in c;
      hide Combined, Normalized, Scaled, Shift;
      EachFits(c[i].amount, total, didOverflow);
    }
  }

  /** A single weight always fits. */
  lemma EachFits(x: nat, total: nat, didOverflow: bool)
    requires 1 <= x <= MAX64 && total <= MAX64 && (didOverflow || x <= total)
    ensures 1 <= Scaled(x, Shift(total, didOverflow)) <= MAX32
  {
    var shift := Shift(total, didOverflow);
    ScaledAtMost(x, shift);
    if didOverflow {
      ScaledBy33(x);
    } else if total > MAX32 {
      ShiftIs(total);
      hide Scaled, Shift, Pow2;
      assert 0x8000_0001 * Pow2(shift) == 0x8000_0000 * Pow2(shift) + Pow2(shift);
      CancelScale(Scaled(x, shift), 0x8000_0001, Pow2(shift));
    }
  }

  /** Where nothing is shifted, the total was right before combining and still is. */
  lemma NoShift(c: seq<Weight>, ws: seq<Weight>, total: nat, didOverflow: bool)
    requires Combined(c, ws) && Positive(c) && |c| > 1 && total <= MAX64
    requires Sum(ws) == total + if didOverflow then MAX64 + 1 else 0
    requires Shift(total, didOverflow) == 0
    ensures Normalized(c, ws, 0) && total == Sum(c) <= MAX32
    ensures forall w | w in c :: 1 <= w.amount <= MAX32
  {
    if total > MAX32 {
      ShiftIs(total);
      assert false;
    }
    forall t
      ensures SumTo(ws, t) <= Sum(ws)
    {
      SumToAtMost(ws, t);
    }
    forall t | SumTo(ws, t) > 0
      ensures HasTarget(c, t)
    {
      if !HasTarget(ws, t) {
        NoneTo(ws, t);
      }
    }
    CombinedSum(c, ws);
    AmountsAtMost(c);
    assert forall i | 0 <= i < |c| :: c[i] in c;
    assert NormalizedFrom(c, c, ws, 0);
  }
}
