/** When an alias set tracker saturates, in terms of the pointers that were added. */
module AliasSetLimit {
  import opened Basics
  import opened AliasSets

  /** Some pointer that v is connected with need not be v's alias. */
  ghost predicate IsLoose(alias: Oracle, among: set<Value>, v: Value) {
    exists w :: w in among && w != v && Connected(alias, among, v, w) && alias(v, w) != MustAlias
  }

  ghost function Loose(alias: Oracle, among: set<Value>): set<Value> {
    set v | v in among && IsLoose(alias, among, v)
  }

  lemma LooseMore(alias: Oracle, among: set<Value>, more: set<Value>)
    requires among <= more
    ensures Loose(alias, among) <= Loose(alias, more) && |Loose(alias, among)| <= |Loose(alias, more)|
  {
    forall v | v in Loose(alias, among)
      ensures v in Loose(alias, more)
    {
      var w :| w in among && w != v && Connected(alias, among, v, w) && alias(v, w) != MustAlias;
      ConnectedMore(alias, among, more, v, w);
    }
    SubsetSize(Loose(alias, among), Loose(alias, more));
  }

  lemma SubsetSize(a: set<Value>, b: set<Value>)
    requires a <= b
    ensures |a| <= |b|
  {
    assert b == a + (b - a);
  }

  lemma LooseAtMost(alias: Oracle, among: set<Value>)
    ensures |Loose(alias, among)| <= |among|
  {
    SubsetSize(Loose(alias, among), among);
  }

  // ----- The total -----

  function Listed(ps: seq<Value>): set<Value> {
    set p | p in ps
  }

  lemma {:induction false} ListedSize(ps: seq<Value>)
    requires NoDuplicates(ps)
    ensures |Listed(ps)| == |ps|
  {
    if ps == [] {
      assert Listed(ps) == {};
    } else {
      var n := |ps| - 1;
      ListedSize(ps[..n]);
      assert ps == ps[..n] + [ps[n]];
      assert Listed(ps) == Listed(ps[..n]) + {ps[n]};
      assert ps[n] !in ps[..n];
    }
  }

  /** The pointers of the may-alias sets among those listed. */
  ghost function MayPtrs(t: Tracker, list: seq<SetId>): set<Value>
    requires forall s <- list :: s in t.sets
  {
    if list == [] then {}
    else (if t.sets[list[0]].may then Listed(t.sets[list[0]].ptrs) else {}) + MayPtrs(t, list[1..])
  }

  lemma {:induction false} InMayPtrs(t: Tracker, list: seq<SetId>, v: Value)
    requires forall s <- list :: s in t.sets
    ensures v in MayPtrs(t, list) <==> exists s :: s in list && t.sets[s].may && v in t.sets[s].ptrs
  {
    if list != [] {
      InMayPtrs(t, list[1..], v);
      assert forall s :: s in list <==> s == list[0] || s in list[1..];
    }
  }

  lemma {:induction false} SumMayCounts(t: Tracker, list: seq<SetId>)
    requires Core(t, None) && Increasing(list) && forall s <- list :: s in t.sets
    ensures SumMay(t.sets, list) == |MayPtrs(t, list)|
  {
    if list != [] {
      var s, rest := list[0], list[1..];
      SumMayCounts(t, rest);
      ListedSize(t.sets[s].ptrs);
      assert s !in rest;
      forall v | v in t.sets[s].ptrs
        ensures v !in MayPtrs(t, rest)
      {
        InMayPtrs(t, rest, v);
        forall r | r in rest && v in t.sets[r].ptrs
          ensures r == s
        {
          OneList(t, s, r, v);
        }
      }
      assert Listed(t.sets[s].ptrs) !! MayPtrs(t, rest);
    }
  }

  lemma OneList(t: Tracker, s: SetId, r: SetId, v: Value)
    requires Core(t, None) && s in t.sets && r in t.sets && v in t.sets[s].ptrs && v in t.sets[r].ptrs
    ensures s == r
  {
    RecordOfListed(t, s, v);
    RecordOfListed(t, r, v);
  }

  lemma RecordOfListed(t: Tracker, s: SetId, v: Value)
    requires Core(t, None) && s in t.sets && v in t.sets[s].ptrs
    ensures v in t.recs && t.recs[v] in t.sets && Target(t, t.recs[v]) == s
  {
    assert ListedRecorded(t);
  }

  // ----- Loose pointers are those of may-alias sets -----

  lemma MayIffLoose(alias: Oracle, t: Tracker, v: Value)
    requires Consistent(alias) && Inv(alias, t) && t.any.None? && v in t.recs
    ensures ForwardOk(t) && t.recs[v] in t.sets
    ensures t.sets[Target(t, t.recs[v])].may <==> IsLoose(alias, t.recs.Keys, v)
  {
    hide Separated, Joined, RefsOk, TotalOk, AnyOk, Connected;
    var s := Target(t, t.recs[v]);
    assert RecordsListed(t) && ListedRecorded(t);
    var ptrs := t.sets[s].ptrs;
    assert v in ptrs && NoDuplicates(ptrs);
    if t.sets[s].may {
      assert MustOk(alias, t);
      var w := Stranger(alias, ptrs, v);
      assert w in ptrs;
      SameSetIffConnected(alias, t, v, w);
    }
    if IsLoose(alias, t.recs.Keys, v) {
      var w :| w in t.recs && w != v && Connected(alias, t.recs.Keys, v, w) && alias(v, w) != MustAlias;
      SameSetIffConnected(alias, t, v, w);
      assert w in ptrs && MustOk(alias, t);
      if !t.sets[s].may {
        AllMust(alias, ptrs, v, w);
        assert false;
      }
    }
  }

  /** In a set that is not all must-alias, every pointer has one it need not alias. */
  lemma Stranger(alias: Oracle, ptrs: seq<Value>, v: Value) returns (w: Value)
    requires Consistent(alias) && NoDuplicates(ptrs) && v in ptrs
    requires exists i :: 0 < i < |ptrs| && alias(ptrs[0], ptrs[i]) != MustAlias
    ensures w in ptrs && w != v && alias(v, w) != MustAlias
  {
    var i :| 0 < i < |ptrs| && alias(ptrs[0], ptrs[i]) != MustAlias;
    w := if v != ptrs[0] && alias(v, ptrs[0]) != MustAlias then ptrs[0] else ptrs[i];
    assert alias(v, ptrs[0]) == alias(ptrs[0], v);
  }

  lemma AllMust(alias: Oracle, ptrs: seq<Value>, v: Value, w: Value)
    requires Consistent(alias) && v in ptrs && w in ptrs && v != w
    requires forall i | 0 < i < |ptrs| :: alias(ptrs[0], ptrs[i]) == MustAlias
    ensures alias(v, w) == MustAlias
  {
    assert alias(v, w) == alias(w, v);
    var i :| 0 <= i < |ptrs| && ptrs[i] == v;
    var j :| 0 <= j < |ptrs| && ptrs[j] == w;
    if i > 0 && j > 0 {
      assert alias(ptrs[0], v) == MustAlias && alias(ptrs[0], w) == MustAlias;
    }
  }

  /** The total of an unsaturated tracker is the number of loose pointers. */
  lemma TotalIsLoose(alias: Oracle, t: Tracker)
    requires Consistent(alias) && Inv(alias, t) && t.any.None?
    ensures t.total == |Loose(alias, t.recs.Keys)|
  {
    hide *;
    ListFacts(alias, t);
    SumMayCounts(t, t.list);
    forall v
      ensures v in MayPtrs(t, t.list) <==> v in Loose(alias, t.recs.Keys)
    {
      MayPtrIffLoose(alias, t, v);
    }
    assert MayPtrs(t, t.list) == Loose(alias, t.recs.Keys);
  }

  lemma ListFacts(alias: Oracle, t: Tracker)
    requires Inv(alias, t)
    ensures Core(t, None) && Increasing(t.list) && (forall s <- t.list :: s in t.sets)
    ensures t.total == SumMay(t.sets, t.list)
  {
  }

  lemma MayPtrIffLoose(alias: Oracle, t: Tracker, v: Value)
    requires Consistent(alias) && Inv(alias, t) && t.any.None? && forall s <- t.list :: s in t.sets
    ensures v in MayPtrs(t, t.list) <==> v in Loose(alias, t.recs.Keys)
  {
    hide IsLoose, Target, MayPtrs, MustOk, Separated, Joined, Connected;
    InMayPtrs(t, t.list, v);
    InMaySet(t, v);
    if v in t.recs {
      MayIffLoose(alias, t, v);
    }
  }

  lemma InMaySet(t: Tracker, v: Value)
    requires Core(t, None)
    ensures v in t.recs ==> t.recs[v] in t.sets
    ensures (exists s :: s in t.list && t.sets[s].may && v in t.sets[s].ptrs) <==>
            v in t.recs && t.sets[Target(t, t.recs[v])].may
  {
    assert RecordsListed(t);
    if v in t.recs {
      var s := Target(t, t.recs[v]);
      assert s in t.list && v in t.sets[s].ptrs;
    }
    forall s | s in t.list && v in t.sets[s].ptrs
      ensures v in t.recs && Target(t, t.recs[v]) == s
    {
      RecordOfListed(t, s, v);
    }
  }
}
