/** The operations of the tracker as functions on its state, and what each of them keeps. */
module AliasSetOps {
  import opened Basics
  import opened AliasSets

  /** More pointers than this in may-alias sets saturate the tracker. */
  const SATURATION_THRESHOLD := 250

  // ----- The operations -----

  /** A new pointer goes to the end of a live set. A must-alias set whose first pointer need not be the new one
      becomes a may-alias set. */
  function AddToSet(alias: Oracle, t: Tracker, s: SetId, v: Value): Tracker
    requires s in t.sets
  {
    var a := t.sets[s];
    var downgrade := !a.may && a.ptrs != [] && alias(a.ptrs[0], v) != MustAlias;
    var may := a.may || downgrade;
    t.(sets := t.sets[s := a.(may := may, setSize := a.setSize + 1, ptrs := a.ptrs + [v], refCount := a.refCount + 1)],
       recs := t.recs[v := s],
       total := t.total + (if downgrade then a.setSize else 0) + (if may then 1 else 0))
  }

  function NewSet(t: Tracker, aliasAny: bool): Tracker {
    t.(list := t.list + [t.next], sets := t.sets[t.next := AliasSet([], None, 0, aliasAny, aliasAny, 0)],
       any := if aliasAny then Some(t.next) else t.any, next := t.next + 1)
  }

  /** The pointers of set b go to the end of set a, and b forwards to a from now on. */
  function MergeSetIn(alias: Oracle, t: Tracker, a: SetId, b: SetId): Tracker
    requires a in t.sets && b in t.sets
    requires !t.sets[a].may && !t.sets[b].may ==> t.sets[a].ptrs != [] && t.sets[b].ptrs != []
  {
    var A, B := t.sets[a], t.sets[b];
    var may := A.may || B.may || alias(A.ptrs[0], B.ptrs[0]) != MustAlias;
    t.(sets := t.sets[b := B.(forward := Some(a), ptrs := [], setSize := 0)]
                     [a := A.(may := may, refCount := A.refCount + 1, ptrs := A.ptrs + B.ptrs,
                              setSize := A.setSize + B.setSize)],
       total := t.total + (if may && !A.may then A.setSize else 0) + (if may && !B.may then B.setSize else 0))
  }

  /** Whether the pointer may alias one of the set: of a must-alias set only the first pointer is asked. */
  predicate Aliases(alias: Oracle, a: AliasSet, v: Value)
    requires !a.may ==> a.ptrs != []
  {
    || a.aliasAny
    || if !a.may then alias(a.ptrs[0], v) != NoAlias else exists p <- a.ptrs :: alias(v, p) != NoAlias
  }

  function Remove(list: seq<SetId>, s: SetId): seq<SetId> {
    if list == [] then [] else if list[0] == s then list[1..] else [list[0]] + Remove(list[1..], s)
  }

  function Erase(t: Tracker, s: SetId): Tracker
    requires s in t.sets
  {
    t.(list := Remove(t.list, s), sets := t.sets - {s}, total := t.total - MaySize(t.sets[s]))
  }

  /** Give up a reference to s; a set nobody refers to is taken out of the list, giving up its own reference. */
  function DropRef(t: Tracker, s: SetId): Tracker
    requires s in t.sets && t.sets[s].refCount > 0
    decreases |t.sets|
  {
    var a := t.sets[s];
    var t1 := t.(sets := t.sets[s := a.(refCount := a.refCount - 1)]);
    if a.refCount > 1 then t1
    else
      var t2 := Erase(t1, s);
      assert t2.sets.Keys == t.sets.Keys - {s};
      assert |t2.sets.Keys| < |t.sets.Keys|;
      if a.forward.Some? && a.forward.value in t2.sets && t2.sets[a.forward.value].refCount > 0
      then DropRef(t2, a.forward.value) else t2
  }

  function AddRef(t: Tracker, s: SetId): Tracker
    requires s in t.sets
  {
    t.(sets := t.sets[s := t.sets[s].(refCount := t.sets[s].refCount + 1)])
  }

  function SetForward(t: Tracker, s: SetId, f: SetId): Tracker
    requires s in t.sets
  {
    t.(sets := t.sets[s := t.sets[s].(forward := Some(f))])
  }

  // ----- Facts about the shape -----

  lemma {:induction false} TargetSame(t: Tracker, t': Tracker, s: SetId)
    requires ForwardOk(t) && ForwardOk(t') && s in t.sets
    requires t.sets.Keys <= t'.sets.Keys
    requires forall x <- t.sets :: t'.sets[x].forward == t.sets[x].forward
    ensures Target(t', s) == Target(t, s)
    decreases s
  {
    match t.sets[s].forward
    case None =>
    case Some(f) => if f < s { TargetSame(t, t', f); }
  }

  lemma {:induction false} SumSame(sets: map<SetId, AliasSet>, sets': map<SetId, AliasSet>, list: seq<SetId>)
    requires forall s <- list :: s in sets && s in sets' && MaySize(sets'[s]) == MaySize(sets[s])
    ensures SumMay(sets', list) == SumMay(sets, list)
  {
    if list != [] {
      SumSame(sets, sets', list[1..]);
    }
  }

  /** Changing one set changes the sum by what it changes in that set. */
  lemma {:induction false} SumUpdate(sets: map<SetId, AliasSet>, list: seq<SetId>, s: SetId, a: AliasSet)
    requires Increasing(list) && s in list && forall x <- list :: x in sets
    ensures SumMay(sets[s := a], list) == SumMay(sets, list) - MaySize(sets[s]) + MaySize(a)
  {
    if list[0] == s {
      SumSame(sets, sets[s := a], list[1..]);
    } else {
      assert list == [list[0]] + list[1..];
      SumUpdate(sets, list[1..], s, a);
    }
  }

  lemma {:induction false} SumAppend(sets: map<SetId, AliasSet>, list: seq<SetId>, s: SetId)
    requires forall x <- list + [s] :: x in sets
    ensures SumMay(sets, list + [s]) == SumMay(sets, list) + MaySize(sets[s])
  {
    if list == [] {
      assert list + [s] == [s];
    } else {
      assert (list + [s])[1..] == list[1..] + [s];
      SumAppend(sets, list[1..], s);
    }
  }

  lemma {:induction false} RemoveOk(sets: map<SetId, AliasSet>, list: seq<SetId>, s: SetId)
    requires Increasing(list) && s in list && forall x <- list :: x in sets
    ensures Increasing(Remove(list, s))
    ensures forall x :: x in Remove(list, s) <==> x in list && x != s
    ensures SumMay(sets - {s}, Remove(list, s)) == SumMay(sets, list) - MaySize(sets[s])
  {
    assert list == [list[0]] + list[1..];
    if list[0] == s {
      SumSame(sets, sets - {s}, list[1..]);
    } else {
      RemoveOk(sets, list[1..], s);
      var rest := Remove(list[1..], s);
      assert ([list[0]] + rest)[1..] == rest;
    }
  }

  // ----- Adding a pointer to a set -----

  lemma AddToSetFields(alias: Oracle, t: Tracker, s: SetId, v: Value)
    requires s in t.sets
    ensures var t' := AddToSet(alias, t, s, v);
            && t'.list == t.list && t'.any == t.any && t'.next == t.next && t'.sets.Keys == t.sets.Keys
            && t'.recs == t.recs[v := s]
            && (forall x <- t.sets | x != s :: t'.sets[x] == t.sets[x])
            && (forall x <- t.sets ::
                  && t'.sets[x].forward == t.sets[x].forward && t'.sets[x].aliasAny == t.sets[x].aliasAny
                  && (t.sets[x].may ==> t'.sets[x].may))
            && t'.sets[s].ptrs == t.sets[s].ptrs + [v] && t'.sets[s].setSize == t.sets[s].setSize + 1
  {
  }

  lemma AddToSetShape(alias: Oracle, t: Tracker, s: SetId, v: Value)
    requires ListOk(t) && ForwardOk(t) && s in t.sets
    ensures ListOk(AddToSet(alias, t, s, v)) && ForwardOk(AddToSet(alias, t, s, v))
    ensures forall x <- t.sets :: Target(AddToSet(alias, t, s, v), x) == Target(t, x)
  {
    var t' := AddToSet(alias, t, s, v);
    AddToSetFields(alias, t, s, v);
    hide AddToSet;
    forall x <- t.sets
      ensures Target(t', x) == Target(t, x)
    {
      TargetSame(t, t', x);
    }
  }

  lemma AddToSetRecords(alias: Oracle, t: Tracker, s: SetId, v: Value)
    requires ListOk(t) && ForwardOk(t) && RecordsListed(t) && Live(t, s)
    ensures ForwardOk(AddToSet(alias, t, s, v)) && RecordsListed(AddToSet(alias, t, s, v))
  {
    var t' := AddToSet(alias, t, s, v);
    AddToSetShape(alias, t, s, v);
    AddToSetFields(alias, t, s, v);
    hide AddToSet;
    forall w <- t'.recs
      ensures t'.recs[w] in t'.sets && w in t'.sets[Target(t', t'.recs[w])].ptrs
    {
      if w != v {
        assert t.recs[w] in t.sets && w in t.sets[Target(t, t.recs[w])].ptrs;
      }
    }
  }

  lemma AddToSetListed(alias: Oracle, t: Tracker, s: SetId, v: Value)
    requires ListOk(t) && ForwardOk(t) && ListedRecorded(t) && Live(t, s) && v !in t.recs
    ensures ForwardOk(AddToSet(alias, t, s, v)) && ListedRecorded(AddToSet(alias, t, s, v))
  {
    var t' := AddToSet(alias, t, s, v);
    AddToSetShape(alias, t, s, v);
    AddToSetFields(alias, t, s, v);
    hide AddToSet;
    forall x, w | x in t'.sets && w in t'.sets[x].ptrs
      ensures w in t'.recs && t'.recs[w] in t'.sets && Target(t', t'.recs[w]) == x
    {
      if !(w == v && x == s) {
        assert w in t.sets[x].ptrs;
      }
    }
  }

  lemma AddToSetPtrs(alias: Oracle, t: Tracker, s: SetId, v: Value)
    requires ListOk(t) && ForwardOk(t) && PtrsOk(t) && Live(t, s) && v !in t.recs
    ensures ForwardOk(AddToSet(alias, t, s, v)) && PtrsOk(AddToSet(alias, t, s, v))
  {
    AddToSetRecords(alias, t, s, v);
    AddToSetListed(alias, t, s, v);
    assert SetOk(t.sets[s]);
    assert v !in t.sets[s].ptrs;
    hide RecordsListed;
    hide ListedRecorded;
  }

  lemma SameForwarders(t: Tracker, t': Tracker, x: SetId)
    requires t'.sets.Keys == t.sets.Keys && forall y <- t.sets :: t'.sets[y].forward == t.sets[y].forward
    ensures ForwardersTo(t', x) == ForwardersTo(t, x)
  {
  }

  lemma AddedRecords(t: Tracker, t': Tracker, s: SetId, v: Value, x: SetId)
    requires v !in t.recs && t'.recs == t.recs[v := s]
    ensures |RecordsOf(t', x)| == |RecordsOf(t, x)| + if x == s then 1 else 0
  {
    assert v !in RecordsOf(t, x);
    assert RecordsOf(t', x) == RecordsOf(t, x) + (if x == s then {v} else {});
  }

  lemma AddedRefs(t: Tracker, t': Tracker, s: SetId, v: Value, x: SetId)
    requires s in t.sets && v !in t.recs && t'.recs == t.recs[v := s] && t'.sets.Keys == t.sets.Keys
    requires forall y <- t.sets :: t'.sets[y].forward == t.sets[y].forward
    ensures Refs(t', x) == Refs(t, x) + if x == s then 1 else 0
  {
    SameForwarders(t, t', x);
    AddedRecords(t, t', s, v, x);
  }

  lemma AddToSetRefs(alias: Oracle, t: Tracker, s: SetId, v: Value)
    requires RefsOk(t, None) && s in t.sets && v !in t.recs
    ensures RefsOk(AddToSet(alias, t, s, v), None)
  {
    hide RecordsOf, ForwardersTo;
    var t' := AddToSet(alias, t, s, v);
    forall x <- t'.sets
      ensures t'.sets[x].refCount == Refs(t', x)
    {
      assert x in t.sets;
      AddedRefs(t, t', s, v, x);
    }
  }

  lemma AddToSetTotal(alias: Oracle, t: Tracker, s: SetId, v: Value)
    requires ListOk(t) && TotalOk(t) && s in t.sets
    ensures ListOk(AddToSet(alias, t, s, v)) && TotalOk(AddToSet(alias, t, s, v))
  {
    SumUpdate(t.sets, t.list, s, AddToSet(alias, t, s, v).sets[s]);
  }

  lemma AddToSetCore(alias: Oracle, t: Tracker, s: SetId, v: Value)
    requires Core(t, None) && Live(t, s) && v !in t.recs
    ensures Core(AddToSet(alias, t, s, v), None)
  {
    hide AddToSet, PtrsOk, RefsOk, TotalOk, ListOk, ForwardOk;
    AddToSetShape(alias, t, s, v);
    AddToSetPtrs(alias, t, s, v);
    AddToSetRefs(alias, t, s, v);
    AddToSetTotal(alias, t, s, v);
    AddToSetFields(alias, t, s, v);
  }

  lemma AddToSetMust(alias: Oracle, t: Tracker, s: SetId, v: Value)
    requires MustOk(alias, t) && Live(t, s)
    ensures MustOk(alias, AddToSet(alias, t, s, v))
  {
    var t' := AddToSet(alias, t, s, v);
    var before, after := t.sets[s].ptrs, t'.sets[s].ptrs;
    if t.any != Some(s) {
      assert forall i | 0 <= i < |before| :: after[i] == before[i];
      assert after[|before|] == v;
    }
  }

  lemma NewSetListOk(t: Tracker, aliasAny: bool)
    requires ListOk(t)
    ensures ListOk(NewSet(t, aliasAny)) && t.next !in t.sets
  {
    var t' := NewSet(t, aliasAny);
    assert forall x :: x in t'.list <==> x in t.list || x == t.next;
    forall i | 0 <= i < |t.list|
      ensures t.list[i] < t.next
    {
      assert t.list[i] in t.list;
    }
  }

  lemma NewSetForwardOk(t: Tracker, aliasAny: bool)
    requires ForwardOk(t) && t.any.None? && t.next !in t.sets
    ensures ForwardOk(NewSet(t, aliasAny))
  {
  }

  lemma NewSetShape(t: Tracker, aliasAny: bool)
    requires ListOk(t) && ForwardOk(t) && t.any.None?
    ensures ListOk(NewSet(t, aliasAny)) && ForwardOk(NewSet(t, aliasAny)) && t.next !in t.sets
    ensures forall x <- t.sets :: Target(NewSet(t, aliasAny), x) == Target(t, x)
  {
    hide ListOk, Increasing, Target;
    var t' := NewSet(t, aliasAny);
    NewSetListOk(t, aliasAny);
    NewSetForwardOk(t, aliasAny);
    forall x <- t.sets
      ensures Target(t', x) == Target(t, x)
    {
      TargetSame(t, t', x);
    }
  }

  lemma NewSetPtrs(t: Tracker, aliasAny: bool)
    requires ListOk(t) && ForwardOk(t) && t.any.None? && PtrsOk(t)
    ensures ForwardOk(NewSet(t, aliasAny)) && PtrsOk(NewSet(t, aliasAny))
  {
    var t' := NewSet(t, aliasAny);
    NewSetShape(t, aliasAny);
    assert RecordsListed(t') by {
      forall w <- t'.recs
        ensures t'.recs[w] in t'.sets && w in t'.sets[Target(t', t'.recs[w])].ptrs
      {
        assert t.recs[w] in t.sets && w in t.sets[Target(t, t.recs[w])].ptrs;
      }
    }
    assert ListedRecorded(t') by {
      forall x, w | x in t'.sets && w in t'.sets[x].ptrs
        ensures w in t'.recs && t'.recs[w] in t'.sets && Target(t', t'.recs[w]) == x
      {
        assert x in t.sets && w in t.sets[x].ptrs;
      }
    }
    hide RecordsListed;
    hide ListedRecorded;
    hide ForwardOk;
    hide ListOk;
  }

  lemma NewSetRefs(t: Tracker, aliasAny: bool)
    requires ListOk(t) && ForwardOk(t) && t.any.None? && PtrsOk(t) && RefsOk(t, None)
    ensures RefsOk(NewSet(t, aliasAny), None)
  {
    var t' := NewSet(t, aliasAny);
    assert t.next !in t.sets;
    forall x <- t'.sets
      ensures t'.sets[x].refCount == Refs(t', x)
    {
      assert ForwardersTo(t', x) == if x == t.next then {} else ForwardersTo(t, x);
      assert RecordsOf(t', x) == if x == t.next then {} else RecordsOf(t, x);
    }
  }

  lemma NewSetCore(t: Tracker, aliasAny: bool)
    requires Core(t, None) && t.any.None?
    ensures Core(NewSet(t, aliasAny), None)
    ensures forall x <- t.sets :: Target(NewSet(t, aliasAny), x) == Target(t, x)
  {
    var t' := NewSet(t, aliasAny);
    NewSetShape(t, aliasAny);
    NewSetPtrs(t, aliasAny);
    NewSetRefs(t, aliasAny);
    SumSame(t.sets, t'.sets, t.list);
    SumAppend(t'.sets, t.list, t.next);
  }

  // ----- Merging two sets -----

  /** Set b may be merged into set a. */
  ghost predicate CanMerge(t: Tracker, a: SetId, b: SetId) {
    && Live(t, a) && Live(t, b) && a != b && t.any != Some(b) && (a < b || t.any == Some(a))
    && (!t.sets[a].may && !t.sets[b].may ==> t.sets[a].ptrs != [] && t.sets[b].ptrs != [])
  }

  lemma MergeFields(alias: Oracle, t: Tracker, a: SetId, b: SetId)
    requires CanMerge(t, a, b)
    ensures var t' := MergeSetIn(alias, t, a, b);
            && t'.list == t.list && t'.any == t.any && t'.next == t.next && t'.recs == t.recs
            && t'.sets.Keys == t.sets.Keys
            && (forall x <- t.sets | x != a && x != b :: t'.sets[x] == t.sets[x])
            && t'.sets[b].forward == Some(a) && t'.sets[b].ptrs == [] && t'.sets[b].setSize == 0
            && t'.sets[a].forward == t.sets[a].forward && t'.sets[a].ptrs == t.sets[a].ptrs + t.sets[b].ptrs
            && t'.sets[a].setSize == t.sets[a].setSize + t.sets[b].setSize
            && t'.sets[a].refCount == t.sets[a].refCount + 1 && t'.sets[b].refCount == t.sets[b].refCount
            && (forall x <- t.sets :: t'.sets[x].aliasAny == t.sets[x].aliasAny)
            && (t.sets[a].may ==> t'.sets[a].may)
  {
  }

  lemma {:induction false} MergeTarget(t: Tracker, t': Tracker, a: SetId, b: SetId, x: SetId)
    requires ForwardOk(t) && ForwardOk(t') && x in t.sets && t'.sets.Keys == t.sets.Keys
    requires CanMerge(t, a, b) && t'.any == t.any
    requires forall y <- t.sets | y != b :: t'.sets[y].forward == t.sets[y].forward
    requires t'.sets[b].forward == Some(a)
    ensures Target(t', x) == if Target(t, x) == b then a else Target(t, x)
    decreases x
  {
    if x == b {
      assert Target(t', a) == a;
    } else {
      match t.sets[x].forward
      case None =>
      case Some(f) => if f < x { MergeTarget(t, t', a, b, f); }
    }
  }

  lemma MergeForwardOk(alias: Oracle, t: Tracker, a: SetId, b: SetId)
    requires ForwardOk(t) && CanMerge(t, a, b)
    ensures ForwardOk(MergeSetIn(alias, t, a, b))
  {
    var t' := MergeSetIn(alias, t, a, b);
    MergeFields(alias, t, a, b);
    hide MergeSetIn;
    forall s <- t'.sets | t'.sets[s].forward.Some?
      ensures var f := t'.sets[s].forward.value; f in t'.sets && (f < s || t'.any == Some(f))
    {
      assert s in t.sets;
    }
  }

  lemma MergeListOk(t: Tracker, t': Tracker)
    requires ListOk(t) && t'.list == t.list && t'.next == t.next && t'.sets.Keys == t.sets.Keys
    ensures ListOk(t')
  {
  }

  lemma MergeShape(alias: Oracle, t: Tracker, a: SetId, b: SetId)
    requires ListOk(t) && ForwardOk(t) && CanMerge(t, a, b)
    ensures ListOk(MergeSetIn(alias, t, a, b)) && ForwardOk(MergeSetIn(alias, t, a, b))
    ensures forall x <- t.sets :: Target(MergeSetIn(alias, t, a, b), x) == if Target(t, x) == b then a else Target(t, x)
  {
    hide MergeSetIn, ListOk, ForwardOk, Target;
    var t' := MergeSetIn(alias, t, a, b);
    MergeFields(alias, t, a, b);
    MergeForwardOk(alias, t, a, b);
    MergeListOk(t, t');
    forall x <- t.sets
      ensures Target(t', x) == if Target(t, x) == b then a else Target(t, x)
    {
      MergeTarget(t, t', a, b, x);
    }
  }

  lemma MergeLive(t: Tracker, a: SetId, b: SetId)
    requires CanMerge(t, a, b)
    ensures a in t.sets && b in t.sets && a != b
    ensures !t.sets[a].may && !t.sets[b].may ==> t.sets[a].ptrs != [] && t.sets[b].ptrs != []
  {
  }

  /** The pointer is listed by the set its record resolves to. */
  predicate ListedAt(t: Tracker, w: Value)
    requires ForwardOk(t)
  {
    w in t.recs && t.recs[w] in t.sets && w in t.sets[Target(t, t.recs[w])].ptrs
  }

  lemma RecordListed(t: Tracker, w: Value)
    requires ForwardOk(t) && RecordsListed(t) && w in t.recs
    ensures ListedAt(t, w)
  {
  }

  lemma AllRecordsListed(t: Tracker)
    requires ForwardOk(t) && forall w <- t.recs :: ListedAt(t, w)
    ensures RecordsListed(t)
  {
    hide Target, ForwardOk;
  }

  lemma MergedListedAt(t: Tracker, t': Tracker, a: SetId, b: SetId, w: Value)
    requires ForwardOk(t) && ForwardOk(t') && ListedAt(t, w) && t'.recs == t.recs && t'.sets.Keys == t.sets.Keys
    requires a in t.sets && b in t.sets && a != b
    requires forall x <- t.sets :: Target(t', x) == if Target(t, x) == b then a else Target(t, x)
    requires forall x <- t.sets | x != a && x != b :: t'.sets[x] == t.sets[x]
    requires t'.sets[a].ptrs == t.sets[a].ptrs + t.sets[b].ptrs
    ensures ListedAt(t', w)
  {
    hide Target, ForwardOk;
    var x, r := t.recs[w], Target(t, t.recs[w]);
    assert Target(t', x) == if r == b then a else r;
  }

  lemma MergedRecords(t: Tracker, t': Tracker, a: SetId, b: SetId)
    requires ForwardOk(t) && ForwardOk(t') && RecordsListed(t) && t'.recs == t.recs && t'.sets.Keys == t.sets.Keys
    requires a in t.sets && b in t.sets && a != b
    requires forall x <- t.sets :: Target(t', x) == if Target(t, x) == b then a else Target(t, x)
    requires forall x <- t.sets | x != a && x != b :: t'.sets[x] == t.sets[x]
    requires t'.sets[a].ptrs == t.sets[a].ptrs + t.sets[b].ptrs
    ensures RecordsListed(t')
  {
    hide *;
    forall w <- t'.recs
      ensures ListedAt(t', w)
    {
      RecordListed(t, w);
      MergedListedAt(t, t', a, b, w);
    }
    AllRecordsListed(t');
  }

  lemma MergeRecords(alias: Oracle, t: Tracker, a: SetId, b: SetId)
    requires ListOk(t) && ForwardOk(t) && CanMerge(t, a, b) && RecordsListed(t)
    ensures ForwardOk(MergeSetIn(alias, t, a, b)) && RecordsListed(MergeSetIn(alias, t, a, b))
  {
    hide *;
    MergeLive(t, a, b);
    MergeFields(alias, t, a, b);
    MergeShape(alias, t, a, b);
    MergedRecords(t, MergeSetIn(alias, t, a, b), a, b);
  }

  lemma MergeListed(alias: Oracle, t: Tracker, a: SetId, b: SetId)
    requires ListOk(t) && ForwardOk(t) && CanMerge(t, a, b) && ListedRecorded(t)
    ensures ForwardOk(MergeSetIn(alias, t, a, b)) && ListedRecorded(MergeSetIn(alias, t, a, b))
  {
    var t' := MergeSetIn(alias, t, a, b);
    MergeFields(alias, t, a, b);
    MergeShape(alias, t, a, b);
    hide MergeSetIn;
    forall x, w | x in t'.sets && w in t'.sets[x].ptrs
      ensures w in t'.recs && t'.recs[w] in t'.sets && Target(t', t'.recs[w]) == x
    {
      var y := if x == a && w in t.sets[b].ptrs then b else x;
      assert w in t.sets[y].ptrs;
    }
  }

  lemma MergedDistinct(t: Tracker, a: SetId, b: SetId)
    requires ForwardOk(t) && PtrsOk(t) && a in t.sets && b in t.sets && a != b
    ensures NoDuplicates(t.sets[a].ptrs + t.sets[b].ptrs)
  {
    assert SetOk(t.sets[a]) && SetOk(t.sets[b]);
    var vs := t.sets[a].ptrs + t.sets[b].ptrs;
    var n := |t.sets[a].ptrs|;
    forall i, j | 0 <= i < j < |vs|
      ensures vs[i] != vs[j]
    {
      if i < n <= j {
        assert vs[i] in t.sets[a].ptrs && vs[j] in t.sets[b].ptrs;
        assert Target(t, t.recs[vs[i]]) == a && Target(t, t.recs[vs[j]]) == b;
      } else if n <= i {
        assert vs[i] == t.sets[b].ptrs[i - n] && vs[j] == t.sets[b].ptrs[j - n];
      }
    }
  }

  lemma MergeForwarders(t: Tracker, t': Tracker, a: SetId, b: SetId, x: SetId)
    requires t'.sets.Keys == t.sets.Keys && Live(t, b) && b in t'.sets && t'.sets[b].forward == Some(a)
    requires forall y <- t.sets | y != b :: t'.sets[y].forward == t.sets[y].forward
    ensures |ForwardersTo(t', x)| == |ForwardersTo(t, x)| + (if x == a then 1 else 0)
  {
    assert ForwardersTo(t', x) == ForwardersTo(t, x) + (if x == a then {b} else {});
  }

  lemma MergeRefs(alias: Oracle, t: Tracker, a: SetId, b: SetId)
    requires RefsOk(t, None) && CanMerge(t, a, b)
    ensures RefsOk(MergeSetIn(alias, t, a, b), None)
  {
    var t' := MergeSetIn(alias, t, a, b);
    MergeFields(alias, t, a, b);
    hide MergeSetIn;
    forall x <- t'.sets
      ensures t'.sets[x].refCount == Refs(t', x)
    {
      assert x in t.sets && t.sets[x].refCount == Refs(t, x);
      assert RecordsOf(t', x) == RecordsOf(t, x);
      MergeForwarders(t, t', a, b, x);
    }
  }

  lemma MergeTotal(alias: Oracle, t: Tracker, a: SetId, b: SetId)
    requires ListOk(t) && TotalOk(t) && CanMerge(t, a, b)
    ensures ListOk(MergeSetIn(alias, t, a, b)) && TotalOk(MergeSetIn(alias, t, a, b))
  {
    var t' := MergeSetIn(alias, t, a, b);
    var sets1 := t.sets[b := t'.sets[b]];
    SumUpdate(t.sets, t.list, b, t'.sets[b]);
    SumUpdate(sets1, t.list, a, t'.sets[a]);
    assert t'.sets == sets1[a := t'.sets[a]];
  }

  lemma MergePtrs(alias: Oracle, t: Tracker, a: SetId, b: SetId)
    requires ListOk(t) && ForwardOk(t) && PtrsOk(t) && CanMerge(t, a, b)
    ensures ForwardOk(MergeSetIn(alias, t, a, b)) && PtrsOk(MergeSetIn(alias, t, a, b))
  {
    MergeFields(alias, t, a, b);
    MergeRecords(alias, t, a, b);
    MergeListed(alias, t, a, b);
    MergedDistinct(t, a, b);
    assert SetOk(t.sets[a]) && SetOk(t.sets[b]);
    hide MergeSetIn;
    hide RecordsListed;
    hide ListedRecorded;
    hide ForwardOk;
    hide ListOk;
  }

  lemma MergeCore(alias: Oracle, t: Tracker, a: SetId, b: SetId)
    requires Core(t, None) && CanMerge(t, a, b)
    ensures Core(MergeSetIn(alias, t, a, b), None)
  {
    hide MergeSetIn, PtrsOk, RefsOk, TotalOk, ListOk, ForwardOk, AnyOk, CanMerge;
    MergeShape(alias, t, a, b);
    MergePtrs(alias, t, a, b);
    MergeRefs(alias, t, a, b);
    MergeTotal(alias, t, a, b);
    MergeAny(alias, t, a, b);
  }

  lemma MergeAny(alias: Oracle, t: Tracker, a: SetId, b: SetId)
    requires AnyOk(t) && CanMerge(t, a, b)
    ensures AnyOk(MergeSetIn(alias, t, a, b))
  {
  }

  /** Two must-alias sets whose first pointers must alias each other make one must-alias set, and only then. */
  lemma MergeMust(alias: Oracle, t: Tracker, a: SetId, b: SetId)
    requires Consistent(alias) && MustOk(alias, t) && CanMerge(t, a, b) && t.any.None?
    requires ForwardOk(t) && PtrsOk(t) && Filled(t)
    ensures MustOk(alias, MergeSetIn(alias, t, a, b))
  {
    var t' := MergeSetIn(alias, t, a, b);
    var ps, qs, vs := t.sets[a].ptrs, t.sets[b].ptrs, t'.sets[a].ptrs;
    MergedDistinct(t, a, b);
    assert vs == ps + qs;
    var A, B := t.sets[a], t.sets[b];
    MergedFlag(alias, ps, qs);
    assert !A.may <==> AllMust(alias, ps);
    assert !B.may <==> AllMust(alias, qs);
    assert !t'.sets[a].may <==> AllMust(alias, vs);
  }

  predicate AllMust(alias: Oracle, ptrs: seq<Value>) {
    forall i | 0 < i < |ptrs| :: alias(ptrs[0], ptrs[i]) == MustAlias
  }

  lemma MergedFlag(alias: Oracle, ps: seq<Value>, qs: seq<Value>)
    requires Consistent(alias) && ps != [] && qs != [] && NoDuplicates(ps + qs)
    ensures AllMust(alias, ps + qs) <==> AllMust(alias, ps) && AllMust(alias, qs) && alias(ps[0], qs[0]) == MustAlias
  {
    var vs := ps + qs;
    assert forall i | 0 <= i < |ps| :: vs[i] == ps[i];
    assert forall i | 0 <= i < |qs| :: vs[|ps| + i] == qs[i];
    if alias(ps[0], qs[0]) == MustAlias {
      forall i | 0 < i < |qs|
        ensures alias(ps[0], qs[i]) == alias(qs[0], qs[i])
      {
        assert vs[0] != vs[|ps| + i] && vs[|ps|] != vs[|ps| + i];
      }
      if AllMust(alias, ps) && AllMust(alias, qs) {
        forall i | 0 < i < |vs|
          ensures alias(vs[0], vs[i]) == MustAlias
        {
          if i >= |ps| {
            assert vs[i] == qs[i - |ps|];
          }
        }
      }
      if AllMust(alias, vs) {
        forall i | 0 < i < |qs|
          ensures alias(qs[0], qs[i]) == MustAlias
        {
          assert alias(vs[0], vs[|ps| + i]) == MustAlias;
        }
      }
    } else {
      assert alias(vs[0], vs[|ps|]) != MustAlias;
    }
  }

  /** Asking only the first pointer of a must-alias set is asking all of them. */
  lemma AliasesExact(alias: Oracle, t: Tracker, s: SetId, v: Value)
    requires Consistent(alias) && MustOk(alias, t) && Live(t, s) && t.sets[s].ptrs != [] && v !in t.sets[s].ptrs
    requires t.any.None? && !t.sets[s].aliasAny
    ensures Aliases(alias, t.sets[s], v) <==> exists p <- t.sets[s].ptrs :: alias(p, v) != NoAlias
  {
    var ps := t.sets[s].ptrs;
    if !t.sets[s].may {
      forall p <- ps
        ensures alias(p, v) == alias(ps[0], v)
      {
        var i :| 0 <= i < |ps| && ps[i] == p;
        assert v != ps[0] && v != ps[i];
      }
      assert ps[0] in ps;
    }
  }

  // ----- Giving up references -----

  /** The chain from x to its target ends in a set that forwards to the target, if it has any links. */
  lemma {:induction false} LastForwarder(t: Tracker, x: SetId) returns (y: SetId)
    requires ForwardOk(t) && x in t.sets && t.sets[x].forward.Some?
    ensures y in t.sets && t.sets[y].forward == Some(Target(t, x))
    decreases x
  {
    var f := t.sets[x].forward.value;
    if f < x && t.sets[f].forward.Some? {
      y := LastForwarder(t, f);
    } else {
      y := x;
    }
  }

  /** A live set with pointers is referred to. */
  lemma LiveHasRefs(t: Tracker, s: SetId)
    requires ForwardOk(t) && PtrsOk(t) && Live(t, s) && t.sets[s].ptrs != []
    ensures Refs(t, s) > 0
  {
    var v := t.sets[s].ptrs[0];
    var r := t.recs[v];
    assert v in t.sets[s].ptrs && Target(t, r) == s;
    if r == s {
      assert v in RecordsOf(t, s);
    } else {
      var y := LastForwarder(t, r);
      assert y in ForwardersTo(t, s);
    }
  }

  /** A set nobody refers to may be erased; what it forwarded to then has one reference too many. */
  lemma EraseShape(t: Tracker, s: SetId)
    requires ListOk(t) && ForwardOk(t) && s in t.sets && ForwardersTo(t, s) == {} && t.any != Some(s)
    ensures ListOk(Erase(t, s)) && ForwardOk(Erase(t, s))
    ensures forall x <- t.sets | x != s :: Target(Erase(t, s), x) == Target(t, x)
  {
    var t' := Erase(t, s);
    RemoveOk(t.sets, t.list, s);
    forall x <- t'.sets | t'.sets[x].forward.Some?
      ensures var f := t'.sets[x].forward.value; f in t'.sets && (f < x || t'.any == Some(f))
    {
      assert x !in ForwardersTo(t, s);
    }
    forall x <- t'.sets
      ensures Target(t', x) == Target(t, x)
    {
      TargetSameBack(t', t, x);
    }
  }

  lemma {:induction false} TargetSameBack(t': Tracker, t: Tracker, x: SetId)
    requires ForwardOk(t) && ForwardOk(t') && x in t'.sets && t'.sets.Keys <= t.sets.Keys
    requires forall y <- t'.sets :: t'.sets[y].forward == t.sets[y].forward
    ensures Target(t', x) == Target(t, x)
    decreases x
  {
    match t'.sets[x].forward
    case None =>
    case Some(f) => if f < x { TargetSameBack(t', t, f); }
  }

  lemma EraseFields(t: Tracker, s: SetId)
    requires s in t.sets
    ensures var t' := Erase(t, s);
            && t'.recs == t.recs && t'.any == t.any && t'.next == t.next && t'.sets.Keys == t.sets.Keys - {s}
            && forall x <- t'.sets :: t'.sets[x] == t.sets[x]
  {
  }

  lemma NoRecordsNone(t: Tracker, s: SetId)
    requires RecordsOf(t, s) == {}
    ensures forall w <- t.recs :: t.recs[w] != s
  {
    forall w <- t.recs
      ensures t.recs[w] != s
    {
      assert w !in RecordsOf(t, s);
    }
  }

  lemma EraseRecords(t: Tracker, s: SetId)
    requires ListOk(t) && ForwardOk(t) && RecordsListed(t) && s in t.sets && t.sets[s].forward.Some?
    requires ForwardersTo(t, s) == {} && RecordsOf(t, s) == {} && t.any != Some(s)
    ensures ForwardOk(Erase(t, s)) && RecordsListed(Erase(t, s))
  {
    hide Erase, ListOk, ForwardOk, Target, ForwardersTo, RecordsOf;
    NoRecordsNone(t, s);
    EraseShape(t, s);
    EraseFields(t, s);
    var t' := Erase(t, s);
    forall w <- t'.recs
      ensures t'.recs[w] in t'.sets && w in t'.sets[Target(t', t'.recs[w])].ptrs
    {
      assert t.recs[w] in t.sets && w in t.sets[Target(t, t.recs[w])].ptrs;
    }
  }

  lemma EraseListed(t: Tracker, s: SetId)
    requires ListOk(t) && ForwardOk(t) && ListedRecorded(t) && s in t.sets && t.sets[s].forward.Some?
    requires ForwardersTo(t, s) == {} && RecordsOf(t, s) == {} && t.any != Some(s)
    ensures ForwardOk(Erase(t, s)) && ListedRecorded(Erase(t, s))
  {
    hide Erase, ListOk, ForwardOk, Target, ForwardersTo, RecordsOf;
    NoRecordsNone(t, s);
    EraseShape(t, s);
    EraseFields(t, s);
    var t' := Erase(t, s);
    forall x, w | x in t'.sets && w in t'.sets[x].ptrs
      ensures w in t'.recs && t'.recs[w] in t'.sets && Target(t', t'.recs[w]) == x
    {
      assert x in t.sets && w in t.sets[x].ptrs;
    }
  }

  lemma ErasePtrs(t: Tracker, s: SetId)
    requires ListOk(t) && ForwardOk(t) && PtrsOk(t) && s in t.sets && t.sets[s].forward.Some?
    requires ForwardersTo(t, s) == {} && RecordsOf(t, s) == {} && t.any != Some(s)
    ensures ForwardOk(Erase(t, s)) && PtrsOk(Erase(t, s))
  {
    EraseFields(t, s);
    EraseRecords(t, s);
    EraseListed(t, s);
    hide Erase;
    hide RecordsListed;
    hide ListedRecorded;
  }

  lemma EraseRefs(t: Tracker, s: SetId)
    requires RefsOk(t, None) && s in t.sets && ForwardersTo(t, s) == {} && RecordsOf(t, s) == {}
    ensures RefsOk(Erase(t, s), t.sets[s].forward)
  {
    var t' := Erase(t, s);
    forall x <- t'.sets
      ensures t'.sets[x].refCount == Refs(t', x) + if t.sets[s].forward == Some(x) then 1 else 0
    {
      assert x in t.sets && t.sets[x].refCount == Refs(t, x);
      assert RecordsOf(t', x) == RecordsOf(t, x);
      EraseForwarders(t, s, x);
    }
  }

  lemma EraseForwarders(t: Tracker, s: SetId, x: SetId)
    requires s in t.sets
    ensures |ForwardersTo(t, x)| == |ForwardersTo(Erase(t, s), x)| + if t.sets[s].forward == Some(x) then 1 else 0
  {
    var t' := Erase(t, s);
    assert ForwardersTo(t, x) == ForwardersTo(t', x) + (if t.sets[s].forward == Some(x) then {s} else {});
  }

  lemma AnyIsLive(t: Tracker)
    requires ForwardOk(t)
    ensures t.any.Some? ==> Live(t, t.any.value)
  {
  }

  lemma EraseCore(t: Tracker, s: SetId)
    requires Core(t, None) && s in t.sets && t.sets[s].forward.Some? && Refs(t, s) == 0
    ensures Core(Erase(t, s), t.sets[s].forward)
  {
    hide Erase;
    hide PtrsOk;
    hide ListOk;
    hide ForwardOk;
    hide RefsOk;
    assert ForwardersTo(t, s) == {} && RecordsOf(t, s) == {};
    assert t.any != Some(s) by {
      AnyIsLive(t);
    }
    EraseShape(t, s);
    ErasePtrs(t, s);
    EraseRefs(t, s);
    EraseTotal(t, s);
    EraseFields(t, s);
  }

  lemma EraseTotal(t: Tracker, s: SetId)
    requires ListOk(t) && TotalOk(t) && s in t.sets
    ensures ListOk(Erase(t, s)) && TotalOk(Erase(t, s))
  {
    RemoveOk(t.sets, t.list, s);
  }

  /** Lowering the count of a set does not touch anything else. */
  lemma LowerCore(t: Tracker, s: SetId)
    requires Core(t, Some(s)) && s in t.sets
    ensures t.sets[s].refCount > 0
    ensures Core(Lowered(t, s), None)
  {
    assert t.sets[s].refCount == Refs(t, s) + 1;
    ChangeCount(t, Some(s), s, t.sets[s].refCount - 1, None);
  }

  /** Changing a reference count keeps everything but the counts. */
  lemma ChangeCount(t: Tracker, owing: Option<SetId>, s: SetId, count: nat, owing': Option<SetId>)
    requires Core(t, owing) && s in t.sets
    requires count == Refs(t, s) + if owing' == Some(s) then 1 else 0
    requires forall x <- t.sets | x != s :: owing == Some(x) <==> owing' == Some(x)
    ensures Core(t.(sets := t.sets[s := t.sets[s].(refCount := count)]), owing')
    ensures forall x <- t.sets :: Target(t.(sets := t.sets[s := t.sets[s].(refCount := count)]), x) == Target(t, x)
  {
    hide PtrsOk;
    hide ListOk;
    hide TotalOk;
    hide ForwardOk;
    hide RefsOk;
    var t' := t.(sets := t.sets[s := t.sets[s].(refCount := count)]);
    assert t'.sets.Keys == t.sets.Keys;
    SameButCounts(t, t');
    CountsAfter(t, t', owing, s, owing');
  }

  lemma CountsAfter(t: Tracker, t': Tracker, owing: Option<SetId>, s: SetId, owing': Option<SetId>)
    requires OnlyCounts(t, t') && RefsOk(t, owing) && s in t.sets
    requires forall x <- t.sets | x != s :: t'.sets[x] == t.sets[x] && (owing == Some(x) <==> owing' == Some(x))
    requires t'.sets[s].refCount == Refs(t, s) + if owing' == Some(s) then 1 else 0
    ensures RefsOk(t', owing')
  {
    forall x <- t'.sets
      ensures t'.sets[x].refCount == Refs(t', x) + if owing' == Some(x) then 1 else 0
    {
      assert RecordsOf(t', x) == RecordsOf(t, x);
      assert ForwardersTo(t', x) == ForwardersTo(t, x);
      assert t.sets[x].refCount == Refs(t, x) + if owing == Some(x) then 1 else 0;
    }
  }

  /** Two states that differ only in reference counts. */
  ghost predicate OnlyCounts(t: Tracker, t': Tracker) {
    && t'.list == t.list && t'.recs == t.recs && t'.total == t.total && t'.any == t.any && t'.next == t.next
    && t'.sets.Keys == t.sets.Keys
    && forall x <- t.sets :: t'.sets[x] == t.sets[x].(refCount := t'.sets[x].refCount)
  }

  lemma SameCountsShape(t: Tracker, t': Tracker)
    requires OnlyCounts(t, t') && ListOk(t) && ForwardOk(t)
    ensures ListOk(t') && ForwardOk(t') && forall x <- t.list :: x in t.sets
  {
  }

  lemma SameCountsPtrs(t: Tracker, t': Tracker)
    requires OnlyCounts(t, t') && ForwardOk(t) && ForwardOk(t') && PtrsOk(t)
    requires forall x <- t.sets :: Target(t', x) == Target(t, x)
    ensures PtrsOk(t')
  {
    hide Target, ForwardOk;
    assert forall x <- t.sets :: t'.sets[x].ptrs == t.sets[x].ptrs;
    SamePtrs(t, t');
  }

  lemma SameCountsTargets(t: Tracker, t': Tracker)
    requires OnlyCounts(t, t') && ForwardOk(t) && ForwardOk(t')
    ensures forall x <- t.sets :: Target(t', x) == Target(t, x)
  {
    hide Target, ForwardOk;
    forall x <- t.sets
      ensures Target(t', x) == Target(t, x)
    {
      TargetSame(t, t', x);
    }
  }

  lemma SameCountsTotal(t: Tracker, t': Tracker)
    requires OnlyCounts(t, t') && ListOk(t) && ListOk(t') && TotalOk(t) && AnyOk(t)
    ensures TotalOk(t') && AnyOk(t')
  {
    hide Increasing;
    assert forall x <- t.list :: MaySize(t'.sets[x]) == MaySize(t.sets[x]);
    SumSame(t.sets, t'.sets, t.list);
  }

  lemma SameButCounts(t: Tracker, t': Tracker)
    requires OnlyCounts(t, t')
    requires ListOk(t) && ForwardOk(t) && PtrsOk(t) && TotalOk(t) && AnyOk(t)
    ensures ListOk(t') && ForwardOk(t') && PtrsOk(t') && TotalOk(t') && AnyOk(t')
    ensures forall x <- t.sets :: Target(t', x) == Target(t, x)
  {
    hide *;
    SameCountsShape(t, t');
    SameCountsTargets(t, t');
    SameCountsPtrs(t, t');
    SameCountsTotal(t, t');
  }

  /** What giving up a reference leaves as it was: only sets that forward, and are older than those of `above`,
      may be gone, and only counts have changed in the others. */
  ghost predicate Pruned(t: Tracker, t': Tracker, above: SetId) {
    && t'.recs == t.recs && t'.any == t.any && t'.next == t.next
    && t'.sets.Keys <= t.sets.Keys
    && (forall x <- t'.sets :: t'.sets[x] == t.sets[x].(refCount := t'.sets[x].refCount))
    && (forall x <- t.sets | x !in t'.sets :: t.sets[x].forward.Some? && x <= above)
  }

  lemma PrunedTarget(t: Tracker, t': Tracker, above: SetId)
    requires Pruned(t, t', above) && ForwardOk(t) && ForwardOk(t')
    ensures forall x <- t'.sets :: Target(t', x) == Target(t, x)
  {
    forall x <- t'.sets
      ensures Target(t', x) == Target(t, x)
    {
      TargetSameBack(t', t, x);
    }
  }

  /** A set whose count has come down to nothing forwards, and nobody refers to it. */
  lemma Unreferenced(t: Tracker, s: SetId)
    requires Core(t, None) && Filled(t) && s in t.sets && t.sets[s].refCount == 0
    ensures Refs(t, s) == 0 && t.sets[s].forward.Some? && t.sets[s].forward.value in t.sets
    ensures t.sets[s].forward.value != s
  {
    assert t.sets[s].refCount == Refs(t, s);
    if Live(t, s) {
      LiveHasRefs(t, s);
    } else if t.sets[s].forward == Some(s) {
      assert s in ForwardersTo(t, s);
    }
  }

  lemma OwingHasCount(t: Tracker, s: SetId)
    requires Core(t, Some(s)) && s in t.sets
    ensures t.sets[s].refCount > 0
  {
    assert t.sets[s].refCount == Refs(t, s) + 1;
  }

  /** The state with one reference to s less. */
  function Lowered(t: Tracker, s: SetId): Tracker
    requires s in t.sets && t.sets[s].refCount > 0
  {
    t.(sets := t.sets[s := t.sets[s].(refCount := t.sets[s].refCount - 1)])
  }

  lemma LowerPruned(t: Tracker, s: SetId)
    requires s in t.sets && t.sets[s].refCount > 0 && Filled(t)
    ensures var t1 := Lowered(t, s);
            && Pruned(t, t1, s) && Filled(t1) && t1.recs == t.recs && t1.any == t.any && t1.next == t.next
            && t1.sets.Keys == t.sets.Keys && (forall x <- t.sets | x != s :: t1.sets[x] == t.sets[x])
            && t1.sets[s] == t.sets[s].(refCount := t.sets[s].refCount - 1)
  {
  }

  lemma DropRefIs(t: Tracker, s: SetId)
    requires s in t.sets && t.sets[s].refCount > 0
    ensures var t1 := Lowered(t, s);
            && s in t1.sets
            && (t1.sets[s].refCount > 0 ==> DropRef(t, s) == t1)
            && (t1.sets[s].refCount == 0 ==>
                  var t2 := Erase(t1, s);
                  var f := t.sets[s].forward;
                  f.Some? && f.value in t2.sets && t2.sets[f.value].refCount > 0 ==>
                    DropRef(t, s) == DropRef(t2, f.value))
  {
  }

  lemma EraseFilled(t1: Tracker, t2: Tracker)
    requires Filled(t1) && t2.sets.Keys <= t1.sets.Keys && forall x <- t2.sets :: t2.sets[x] == t1.sets[x]
    ensures Filled(t2)
  {
  }

  lemma NotLive(t: Tracker, s: SetId)
    requires s in t.sets && t.sets[s].forward.Some?
    ensures !Live(t, s)
  {
  }

  /** Giving up a reference: afterwards the counts are exact again, and every set still referred to is there. */
  lemma {:induction false} DropRefCore(t: Tracker, s: SetId)
    requires Core(t, Some(s)) && Filled(t) && s in t.sets
    ensures t.sets[s].refCount > 0
    ensures var t' := DropRef(t, s); Core(t', None) && Filled(t') && Pruned(t, t', s)
    ensures Live(t, s) ==> DropRef(t, s).sets.Keys == t.sets.Keys
    decreases |t.sets|
  {
    hide *;
    LowerCore(t, s);
    var t1 := Lowered(t, s);
    LowerPruned(t, s);
    DropRefIs(t, s);
    if t1.sets[s].refCount == 0 {
      Unreferenced(t1, s);
      var f := t.sets[s].forward.value;
      EraseCore(t1, s);
      var t2 := Erase(t1, s);
      EraseFields(t1, s);
      EraseFilled(t1, t2);
      OwingHasCount(t2, f);
      assert |t2.sets.Keys| < |t.sets.Keys|;
      DropRefCore(t2, f);
      CoreForward(t, Some(s));
      DropAfterErase(t, t2, DropRef(t2, f), s, f);
      NotLive(t, s);
    }
  }

  lemma CoreForward(t: Tracker, owing: Option<SetId>)
    requires Core(t, owing)
    ensures ListOk(t) && ForwardOk(t) && PtrsOk(t)
  {
  }

  lemma DropAfterErase(t: Tracker, t2: Tracker, t': Tracker, s: SetId, f: SetId)
    requires ForwardOk(t) && s in t.sets && t.sets[s].forward == Some(f)
    requires t2.recs == t.recs && t2.any == t.any && t2.next == t.next && t2.sets.Keys == t.sets.Keys - {s}
    requires f in t2.sets
    requires forall x <- t2.sets :: t2.sets[x] == t.sets[x]
    requires Pruned(t2, t', f) && (Live(t2, f) ==> t'.sets.Keys == t2.sets.Keys)
    ensures Pruned(t, t', s)
  {
    forall x <- t.sets | x !in t'.sets
      ensures t.sets[x].forward.Some? && x <= s
    {
      if x != s {
        assert x in t2.sets && x <= f;
      }
    }
  }

  // ----- Shortening the chains -----

  /** The live sets are the same, but for their reference counts. */
  ghost predicate SameLive(t: Tracker, t': Tracker) {
    && t'.recs.Keys == t.recs.Keys && t'.any == t.any && t'.next == t.next
    && (forall x :: Live(t', x) <==> Live(t, x))
    && (forall x | Live(t, x) :: t'.sets[x] == t.sets[x].(refCount := t'.sets[x].refCount))
  }

  lemma SameLiveTrans(t: Tracker, t': Tracker, t'': Tracker)
    requires SameLive(t, t') && SameLive(t', t'')
    ensures SameLive(t, t'')
  {
  }

  lemma PrunedSameLive(t: Tracker, t': Tracker, above: SetId)
    requires Pruned(t, t', above)
    ensures SameLive(t, t')
  {
  }

  lemma InvSameLive(alias: Oracle, t: Tracker, t': Tracker)
    requires Inv(alias, t) && Core(t', None) && Filled(t') && SameLive(t, t')
    ensures Inv(alias, t')
  {
    hide Core;
    SameLivePtrs(t, t', None);
    match t.any
    case None =>
      assert MustOk(alias, t');
      assert forall x <- t'.sets | t'.sets[x].ptrs != [] :: x in t.sets && t'.sets[x].ptrs == t.sets[x].ptrs;
      assert Separated(alias, t');
      assert Joined(alias, t', t'.recs.Keys);
    case Some(a) =>
      forall s <- t'.sets | s != a
        ensures t'.sets[s].forward.Some?
      {
        assert Live(t', s) ==> Live(t, s);
      }
  }

  lemma SameLivePtrs(t: Tracker, t': Tracker, owing: Option<SetId>)
    requires Core(t', owing) && SameLive(t, t')
    ensures forall x <- t'.sets | t'.sets[x].ptrs != [] :: Live(t', x)
  {
    forall x <- t'.sets | t'.sets[x].ptrs != []
      ensures Live(t', x)
    {
      assert SetOk(t'.sets[x]);
    }
  }

  /** A set that forwards to f, on the way to d, may forward to d at once. */
  ghost predicate CanRedirect(t: Tracker, x: SetId, f: SetId, d: SetId) {
    && ForwardOk(t) && x in t.sets && t.sets[x].forward == Some(f) && f != d && Target(t, x) == d
    && (d < x || t.any == Some(d))
  }

  function Redirected(t: Tracker, x: SetId, d: SetId): Tracker
    requires x in t.sets && d in t.sets
  {
    AddRef(SetForward(t, x, d), d)
  }

  lemma RedirectFields(t: Tracker, x: SetId, f: SetId, d: SetId)
    requires CanRedirect(t, x, f, d)
    ensures d in t.sets && f in t.sets && x != d && f < x
    ensures var t' := Redirected(t, x, d);
            && t'.list == t.list && t'.recs == t.recs && t'.total == t.total && t'.any == t.any && t'.next == t.next
            && t'.sets.Keys == t.sets.Keys
            && (forall y <- t.sets | y != x && y != d :: t'.sets[y] == t.sets[y])
            && t'.sets[x] == t.sets[x].(forward := Some(d))
            && t'.sets[d] == t.sets[d].(refCount := t.sets[d].refCount + 1)
  {
  }

  lemma {:induction false} RedirectTarget(t: Tracker, t': Tracker, x: SetId, f: SetId, d: SetId, y: SetId)
    requires CanRedirect(t, x, f, d) && ForwardOk(t') && y in t.sets && t'.sets.Keys == t.sets.Keys && t'.any == t.any
    requires forall z <- t.sets | z != x :: t'.sets[z].forward == t.sets[z].forward
    requires t'.sets[x].forward == Some(d)
    ensures Target(t', y) == Target(t, y)
    decreases y
  {
    if y == x {
      assert t'.sets[d].forward == None;
      assert Target(t', d) == d;
    } else {
      match t.sets[y].forward
      case None =>
      case Some(g) => if g < y { RedirectTarget(t, t', x, f, d, g); }
    }
  }

  /** Every set still there resolves as before. */
  ghost predicate SameTargets(t: Tracker, t': Tracker) {
    && ForwardOk(t) && ForwardOk(t') && t'.sets.Keys <= t.sets.Keys
    && forall y <- t'.sets :: Target(t', y) == Target(t, y)
  }

  lemma SameTargetsTrans(t: Tracker, t': Tracker, t'': Tracker)
    requires SameTargets(t, t') && SameTargets(t', t'')
    ensures SameTargets(t, t'')
  {
  }

  lemma RedirectForwardOk(t: Tracker, x: SetId, f: SetId, d: SetId)
    requires CanRedirect(t, x, f, d)
    ensures d in t.sets && ForwardOk(Redirected(t, x, d)) && SameTargets(t, Redirected(t, x, d))
  {
    var t' := Redirected(t, x, d);
    RedirectFields(t, x, f, d);
    hide Redirected;
    assert ForwardOk(t');
    hide ForwardOk;
    forall y <- t.sets
      ensures Target(t', y) == Target(t, y)
    {
      RedirectTarget(t, t', x, f, d, y);
    }
  }

  lemma RedirectShape(t: Tracker, x: SetId, f: SetId, d: SetId)
    requires CanRedirect(t, x, f, d) && ListOk(t) && TotalOk(t) && AnyOk(t)
    ensures var t' := Redirected(t, x, d); ListOk(t') && TotalOk(t') && AnyOk(t')
  {
    hide Redirected, CanRedirect, AnyOk, SumMay;
    RedirectForwards(t, x, f, d);
    RedirectFields(t, x, f, d);
    RedirectAny(t, x, f, d);
    var t' := Redirected(t, x, d);
    assert forall y <- t.sets :: MaySize(t'.sets[y]) == MaySize(t.sets[y]);
    assert forall y <- t.list :: y in t.sets;
    SumSame(t.sets, t'.sets, t.list);
  }

  lemma RedirectAny(t: Tracker, x: SetId, f: SetId, d: SetId)
    requires CanRedirect(t, x, f, d) && AnyOk(t)
    ensures AnyOk(Redirected(t, x, d))
  {
    RedirectFields(t, x, f, d);
    hide Redirected, CanRedirect;
  }

  lemma RedirectForwards(t: Tracker, x: SetId, f: SetId, d: SetId)
    requires CanRedirect(t, x, f, d)
    ensures x in t.sets && t.sets[x].forward.Some? && ForwardOk(t)
  {
  }

  /** Where the same pointers are listed and everything resolves as before, all is still in order. */
  lemma SamePtrs(t: Tracker, t': Tracker)
    requires ForwardOk(t) && PtrsOk(t) && SameTargets(t, t') && t'.recs == t.recs && t'.sets.Keys == t.sets.Keys
    requires forall y <- t.sets :: t'.sets[y].ptrs == t.sets[y].ptrs && t'.sets[y].setSize == t.sets[y].setSize
                                   && (t'.sets[y].forward.Some? ==> t.sets[y].forward.Some?)
    ensures PtrsOk(t')
  {
    hide Target, ForwardOk;
    SameRecordsListed(t, t');
    SameListedRecorded(t, t');
    forall y <- t'.sets
      ensures SetOk(t'.sets[y])
    {
      assert SetOk(t.sets[y]);
    }
  }

  lemma SameRecordsListed(t: Tracker, t': Tracker)
    requires ForwardOk(t) && RecordsListed(t) && SameTargets(t, t') && t'.recs == t.recs && t'.sets.Keys == t.sets.Keys
    requires forall y <- t.sets :: t'.sets[y].ptrs == t.sets[y].ptrs
    ensures RecordsListed(t')
  {
    hide Target, ForwardOk;
    forall w <- t'.recs
      ensures t'.recs[w] in t'.sets && w in t'.sets[Target(t', t'.recs[w])].ptrs
    {
      assert w in t.sets[Target(t, t.recs[w])].ptrs;
    }
  }

  lemma SameListedRecorded(t: Tracker, t': Tracker)
    requires ForwardOk(t) && ListedRecorded(t) && SameTargets(t, t') && t'.recs == t.recs && t'.sets.Keys == t.sets.Keys
    requires forall y <- t.sets :: t'.sets[y].ptrs == t.sets[y].ptrs
    ensures ListedRecorded(t')
  {
    hide Target, ForwardOk;
    forall y, v | y in t'.sets && v in t'.sets[y].ptrs
      ensures v in t'.recs && t'.recs[v] in t'.sets && Target(t', t'.recs[v]) == y
    {
      assert v in t.sets[y].ptrs;
    }
  }

  lemma RedirectPtrs(t: Tracker, x: SetId, f: SetId, d: SetId)
    requires CanRedirect(t, x, f, d) && ListOk(t) && PtrsOk(t) && TotalOk(t) && AnyOk(t)
    ensures var t' := Redirected(t, x, d); ForwardOk(t') && PtrsOk(t')
  {
    hide Redirected, ListOk, Target, ForwardOk, PtrsOk, CanRedirect, TotalOk, AnyOk;
    RedirectFields(t, x, f, d);
    RedirectForwardOk(t, x, f, d);
    RedirectForwards(t, x, f, d);
    SamePtrs(t, Redirected(t, x, d));
  }

  lemma RedirectForwarders(t: Tracker, t': Tracker, x: SetId, f: SetId, d: SetId, y: SetId)
    requires x in t.sets && t.sets[x].forward == Some(f) && f != d && t'.sets.Keys == t.sets.Keys
    requires t'.sets[x].forward == Some(d)
    requires forall z <- t.sets | z != x :: t'.sets[z].forward == t.sets[z].forward
    ensures |ForwardersTo(t', y)| + (if y == f then 1 else 0) == |ForwardersTo(t, y)| + (if y == d then 1 else 0)
  {
    if y == f {
      assert ForwardersTo(t, y) == ForwardersTo(t', y) + {x};
    } else if y == d {
      assert ForwardersTo(t', y) == ForwardersTo(t, y) + {x};
    } else {
      assert ForwardersTo(t', y) == ForwardersTo(t, y);
    }
  }

  lemma RedirectRefs(t: Tracker, x: SetId, f: SetId, d: SetId)
    requires CanRedirect(t, x, f, d) && RefsOk(t, None)
    ensures RefsOk(Redirected(t, x, d), Some(f))
  {
    var t' := Redirected(t, x, d);
    RedirectFields(t, x, f, d);
    hide Redirected;
    forall y <- t'.sets
      ensures t'.sets[y].refCount == Refs(t', y) + if f == y then 1 else 0
    {
      assert t.sets[y].refCount == Refs(t, y);
      assert RecordsOf(t', y) == RecordsOf(t, y);
      RedirectForwarders(t, t', x, f, d, y);
      hide ForwardersTo;
      hide CanRedirect;
    }
  }

  lemma RedirectFilled(t: Tracker, x: SetId, f: SetId, d: SetId)
    requires Filled(t) && CanRedirect(t, x, f, d)
    ensures x in t.sets && d in t.sets && f in t.sets && f < x && Filled(Redirected(t, x, d))
  {
    RedirectFields(t, x, f, d);
    hide Redirected;
    hide Target;
  }

  lemma RedirectedCore(t: Tracker, x: SetId, f: SetId, d: SetId)
    requires Core(t, None) && Filled(t) && CanRedirect(t, x, f, d)
    ensures x in t.sets && d in t.sets && f in t.sets && f < x
    ensures var t1 := Redirected(t, x, d);
            Core(t1, Some(f)) && Filled(t1) && SameLive(t, t1) && SameTargets(t, t1)
  {
    hide Filled;
    hide CanRedirect;
    hide SameTargets;
    hide SameLive;
    hide ListOk;
    hide PtrsOk;
    hide RefsOk;
    hide TotalOk;
    hide ForwardOk;
    RedirectFilled(t, x, f, d);
    RedirectForwardOk(t, x, f, d);
    RedirectShape(t, x, f, d);
    RedirectPtrs(t, x, f, d);
    RedirectRefs(t, x, f, d);
    RedirectSameLive(t, Redirected(t, x, d), x, f, d);
    hide Redirected;
  }

  /** What redirecting a set and giving up its old reference comes to. */
  ghost predicate RedirectDone(t: Tracker, t': Tracker, x: SetId, f: SetId, d: SetId) {
    && Core(t', None) && Filled(t') && SameLive(t, t') && SameTargets(t, t') && t'.recs == t.recs
    && x in t'.sets && x in t.sets && t'.sets[x].forward == Some(d)
    && (forall y <- t'.sets | y != x :: y in t.sets && t'.sets[y].forward == t.sets[y].forward)
    && (forall y <- t.sets | y > f :: y in t'.sets)
  }

  lemma RedirectCore(t: Tracker, x: SetId, f: SetId, d: SetId)
    requires Core(t, None) && Filled(t) && CanRedirect(t, x, f, d)
    ensures x in t.sets && d in t.sets
    ensures var t1 := Redirected(t, x, d);
            && f in t1.sets && t1.sets[f].refCount > 0
            && RedirectDone(t, DropRef(t1, f), x, f, d)
  {
    hide Core;
    hide Filled;
    hide SameLive;
    hide SameTargets;
    hide DropRef;
    RedirectedCore(t, x, f, d);
    RedirectFields(t, x, f, d);
    hide CanRedirect;
    var t1 := Redirected(t, x, d);
    hide Redirected;
    DropRefCore(t1, f);
    var t' := DropRef(t1, f);
    PrunedSameTargets(t1, t', f);
    PrunedSameLive(t1, t', f);
    SameLiveTrans(t, t1, t');
    SameTargetsTrans(t, t1, t');
  }

  lemma PrunedSameTargets(t: Tracker, t': Tracker, above: SetId)
    requires Core(t, Some(above)) && Core(t', None) && Pruned(t, t', above)
    ensures SameTargets(t, t')
  {
    PrunedTarget(t, t', above);
  }

  lemma RedirectSameLive(t: Tracker, t1: Tracker, x: SetId, f: SetId, d: SetId)
    requires CanRedirect(t, x, f, d) && d in t.sets && t1 == Redirected(t, x, d)
    ensures SameLive(t, t1)
  {
    RedirectFields(t, x, f, d);
    hide Redirected;
  }

  // ----- Looking for the sets a new pointer aliases -----

  /** Part of the list has been looked at for the new pointer v; the sets found to alias it are merged into one. */
  ghost predicate Scanning(alias: Oracle, t0: Tracker, t: Tracker, v: Value, todo: seq<SetId>, found: Option<SetId>) {
    && Core(t, None) && Filled(t) && t.any.None? && v !in t.recs
    && t.recs == t0.recs && t.list == t0.list && t.next == t0.next
    && MustOk(alias, t) && Separated(alias, t) && Joined(alias, t, t.recs.Keys + {v})
    && Increasing(todo) && (forall s <- todo :: s in t.sets)
    && (forall s <- t.sets | s !in todo && found != Some(s) :: Unrelated(alias, t.sets[s], v))
    && (found.Some? ==> Live(t, found.value) && (forall s <- todo :: found.value < s)
                        && Reaching(alias, t.recs.Keys + {v}, t.sets[found.value], v)
                        && MayJoin(alias, t.sets[found.value], v))
  }

  /** A pointer that does not alias the first of a must-alias set cannot be put into it. */
  predicate MayJoin(alias: Oracle, a: AliasSet, v: Value) {
    !a.may && a.ptrs != [] ==> alias(a.ptrs[0], v) != NoAlias
  }

  lemma AliasedMayJoin(alias: Oracle, t: Tracker, v: Value, s: SetId)
    requires Core(t, None) && t.any.None? && s in t.sets && (!t.sets[s].may ==> t.sets[s].ptrs != [])
    requires Aliases(alias, t.sets[s], v)
    ensures MayJoin(alias, t.sets[s], v)
  {
    assert AnyOk(t);
  }

  lemma MergedMayJoin(alias: Oracle, t: Tracker, a: SetId, b: SetId, v: Value)
    requires CanMerge(t, a, b) && t.sets[a].ptrs != [] && MayJoin(alias, t.sets[a], v)
    ensures MayJoin(alias, MergeSetIn(alias, t, a, b).sets[a], v)
  {
  }

  predicate Unrelated(alias: Oracle, a: AliasSet, v: Value) {
    forall p <- a.ptrs :: alias(p, v) == NoAlias
  }

  ghost predicate Reaching(alias: Oracle, among: set<Value>, a: AliasSet, v: Value) {
    forall p <- a.ptrs :: Connected(alias, among, p, v)
  }

  lemma ScanStart(alias: Oracle, t: Tracker, v: Value)
    requires Inv(alias, t) && t.any.None? && v !in t.recs
    ensures Scanning(alias, t, t, v, t.list, None)
  {
    hide Core;
    hide Connected;
    CoreForward(t, None);
    forall s, p, q | s in t.sets && p in t.sets[s].ptrs && q in t.sets[s].ptrs
      ensures Connected(alias, t.recs.Keys + {v}, p, q)
    {
      ConnectedMore(alias, t.recs.Keys, t.recs.Keys + {v}, p, q);
    }
  }

  /** Pointers that are not in the tracker yet are in no list. */
  lemma NewPointerUnlisted(t: Tracker, v: Value, s: SetId)
    requires Core(t, None) && v !in t.recs && s in t.sets
    ensures v !in t.sets[s].ptrs
  {
    assert ListedRecorded(t);
  }

  lemma TailFacts(todo: seq<SetId>)
    requires Increasing(todo) && todo != []
    ensures Increasing(todo[1..]) && (forall s <- todo[1..] :: todo[0] < s && s in todo) && todo[0] !in todo[1..]
    ensures forall s <- todo :: s == todo[0] || s in todo[1..]
  {
    assert todo == [todo[0]] + todo[1..];
  }

  lemma NextUnrelated(alias: Oracle, t: Tracker, v: Value, cur: SetId)
    requires Consistent(alias) && Core(t, None) && Filled(t) && t.any.None? && MustOk(alias, t) && v !in t.recs
    requires cur in t.sets && (Live(t, cur) ==> t.sets[cur].ptrs != [] && !Aliases(alias, t.sets[cur], v))
    ensures Unrelated(alias, t.sets[cur], v)
  {
    NewPointerUnlisted(t, v, cur);
    assert SetOk(t.sets[cur]);
    if Live(t, cur) {
      AliasesExact(alias, t, cur, v);
    }
  }

  /** The next set forwards, or does not alias the pointer. */
  lemma ScanSkip(alias: Oracle, t0: Tracker, t: Tracker, v: Value, todo: seq<SetId>, found: Option<SetId>)
    requires Consistent(alias) && Scanning(alias, t0, t, v, todo, found) && todo != []
    requires Live(t, todo[0]) ==> !Aliases(alias, t.sets[todo[0]], v)
    ensures Scanning(alias, t0, t, v, todo[1..], found)
  {
    hide Core, MustOk, Separated, Joined, Reaching, Unrelated, Aliases, Consistent;
    TailFacts(todo);
    NextUnrelated(alias, t, v, todo[0]);
  }

  lemma AliasedReaches(alias: Oracle, t0: Tracker, t: Tracker, v: Value, todo: seq<SetId>, found: Option<SetId>)
    requires Consistent(alias) && Scanning(alias, t0, t, v, todo, found) && todo != []
    requires Live(t, todo[0]) && Aliases(alias, t.sets[todo[0]], v)
    ensures Reaching(alias, t.recs.Keys + {v}, t.sets[todo[0]], v)
  {
    var cur, among := todo[0], t.recs.Keys + {v};
    NewPointerUnlisted(t, v, cur);
    AliasesExact(alias, t, cur, v);
    var q :| q in t.sets[cur].ptrs && alias(q, v) != NoAlias;
    assert q in t.recs by {
      assert ListedRecorded(t);
    }
    hide Core;
    ConnectedStep(alias, among, q, v);
    forall p <- t.sets[cur].ptrs
      ensures Connected(alias, among, p, v)
    {
      assert Connected(alias, among, p, q);
      ConnectedTrans(alias, among, p, q, v);
    }
  }

  /** The first set that aliases the pointer. */
  lemma ScanFind(alias: Oracle, t0: Tracker, t: Tracker, v: Value, todo: seq<SetId>)
    requires Consistent(alias) && Scanning(alias, t0, t, v, todo, None) && todo != []
    requires Live(t, todo[0]) && Aliases(alias, t.sets[todo[0]], v)
    ensures Scanning(alias, t0, t, v, todo[1..], Some(todo[0]))
  {
    AliasedReaches(alias, t0, t, v, todo, None);
    TailFacts(todo);
    AliasedMayJoin(alias, t, v, todo[0]);
    hide MayJoin, Aliases;
    hide Core;
    hide MustOk;
    hide Separated;
    hide Joined;
    hide Reaching;
    hide Unrelated;
  }

  lemma ScanCanMerge(t: Tracker, a: SetId, b: SetId)
    requires Filled(t) && t.any.None? && Live(t, a) && Live(t, b) && a < b
    ensures CanMerge(t, a, b)
    ensures !t.sets[a].may && !t.sets[b].may ==> t.sets[a].ptrs != [] && t.sets[b].ptrs != []
  {
    FilledAt(t, a);
    FilledAt(t, b);
  }

  /** Another set that aliases the pointer is merged into the first. */
  lemma ScanMerge(alias: Oracle, t0: Tracker, t: Tracker, v: Value, todo: seq<SetId>, f: SetId)
    requires Consistent(alias) && Scanning(alias, t0, t, v, todo, Some(f)) && todo != []
    requires Live(t, todo[0]) && Aliases(alias, t.sets[todo[0]], v)
    ensures CanMerge(t, f, todo[0])
    ensures Scanning(alias, t0, MergeSetIn(alias, t, f, todo[0]), v, todo[1..], Some(f))
  {
    hide Core, MustOk, Reaching, Separated, Joined, PtrsOk, ForwardOk, ListOk, Filled, Unrelated, Aliases, Consistent,
         MergeSetIn, CanMerge, Increasing, MayJoin;
    var cur, among := todo[0], t.recs.Keys + {v};
    AliasedReaches(alias, t0, t, v, todo, Some(f));
    TailFacts(todo);
    assert cur in todo;
    ScanCanMerge(t, f, cur);
    FilledAt(t, f);
    MergedMayJoin(alias, t, f, cur, v);
    MergeUnrelated(alias, t, f, cur, v, todo);
    MergeCore(alias, t, f, cur);
    CoreForward(t, None);
    MergeMust(alias, t, f, cur);
    MergeFields(alias, t, f, cur);
    MergeFilled(alias, t, f, cur);
    var t' := MergeSetIn(alias, t, f, cur);
    MergeReaching(alias, t, t', f, cur, v, among);
    MergeSeparated(alias, t, t', f, cur);
    MergeJoined(alias, t, t', f, cur, v, among);
  }

  lemma MergeUnrelated(alias: Oracle, t: Tracker, f: SetId, cur: SetId, v: Value, todo: seq<SetId>)
    requires CanMerge(t, f, cur) && todo != [] && todo[0] == cur
    requires forall s <- t.sets | s !in todo && s != f :: Unrelated(alias, t.sets[s], v)
    ensures var t' := MergeSetIn(alias, t, f, cur);
            forall s <- t'.sets | s !in todo[1..] && s != f :: Unrelated(alias, t'.sets[s], v)
  {
    MergeFields(alias, t, f, cur);
    hide MergeSetIn, CanMerge, Unrelated;
    var t' := MergeSetIn(alias, t, f, cur);
    EmptyUnrelated(alias, t'.sets[cur], v);
    forall s <- t'.sets | s !in todo[1..] && s != f
      ensures Unrelated(alias, t'.sets[s], v)
    {
      assert s == cur || s !in todo;
    }
  }

  lemma FilledAt(t: Tracker, s: SetId)
    requires Filled(t) && Live(t, s)
    ensures t.sets[s].ptrs != []
  {
  }

  lemma MergeFilled(alias: Oracle, t: Tracker, a: SetId, b: SetId)
    requires CanMerge(t, a, b) && Filled(t)
    ensures Filled(MergeSetIn(alias, t, a, b))
  {
    MergeFields(alias, t, a, b);
    hide MergeSetIn;
  }

  lemma EmptyUnrelated(alias: Oracle, a: AliasSet, v: Value)
    requires a.ptrs == []
    ensures Unrelated(alias, a, v)
  {
  }

  lemma MergeReaching(alias: Oracle, t: Tracker, t': Tracker, a: SetId, b: SetId, v: Value, among: set<Value>)
    requires a in t.sets && b in t.sets && a in t'.sets && t'.sets[a].ptrs == t.sets[a].ptrs + t.sets[b].ptrs
    requires Reaching(alias, among, t.sets[a], v) && Reaching(alias, among, t.sets[b], v)
    ensures Reaching(alias, among, t'.sets[a], v)
  {
  }

  lemma MergeSeparated(alias: Oracle, t: Tracker, t': Tracker, a: SetId, b: SetId)
    requires Separated(alias, t) && a in t.sets && b in t.sets && a != b && t'.sets.Keys == t.sets.Keys
    requires t'.sets[a].ptrs == t.sets[a].ptrs + t.sets[b].ptrs && t'.sets[b].ptrs == []
    requires forall x <- t.sets | x != a && x != b :: t'.sets[x] == t.sets[x]
    ensures Separated(alias, t')
  {
    forall s, r, v, w | s in t'.sets && r in t'.sets && s != r && v in t'.sets[s].ptrs && w in t'.sets[r].ptrs
      ensures alias(v, w) == NoAlias
    {
      var s0 := if s == a && v in t.sets[b].ptrs then b else s;
      var r0 := if r == a && w in t.sets[b].ptrs then b else r;
      assert v in t.sets[s0].ptrs && w in t.sets[r0].ptrs && s0 != r0;
    }
  }

  lemma MergeJoined(alias: Oracle, t: Tracker, t': Tracker, a: SetId, b: SetId, v: Value, among: set<Value>)
    requires Consistent(alias) && Joined(alias, t, among) && a in t.sets && b in t.sets && a != b
    requires t'.sets.Keys == t.sets.Keys
    requires t'.sets[a].ptrs == t.sets[a].ptrs + t.sets[b].ptrs && t'.sets[b].ptrs == []
    requires forall x <- t.sets | x != a && x != b :: t'.sets[x] == t.sets[x]
    requires Reaching(alias, among, t'.sets[a], v)
    ensures Joined(alias, t', among)
  {
    hide Connected;
    forall s, p, q | s in t'.sets && p in t'.sets[s].ptrs && q in t'.sets[s].ptrs
      ensures Connected(alias, among, p, q)
    {
      if s == a {
        assert Connected(alias, among, p, v) && Connected(alias, among, q, v);
        ConnectedSym(alias, among, q, v);
        ConnectedTrans(alias, among, p, v, q);
      } else {
        assert p in t.sets[s].ptrs && q in t.sets[s].ptrs;
      }
    }
  }

  /** All sets have been looked at: the pointer belongs in the set found. */
  lemma ScanEndFound(alias: Oracle, t0: Tracker, t: Tracker, v: Value, f: SetId)
    requires Consistent(alias) && Scanning(alias, t0, t, v, [], Some(f))
    ensures f in t.sets && v !in t.recs && MayJoin(alias, t.sets[f], v) && Inv(alias, AddToSet(alias, t, f, v))
    ensures var t' := AddToSet(alias, t, f, v); t'.recs == t0.recs[v := f] && t'.any.None? && Live(t', f)
  {
    hide Core;
    hide MustOk;
    hide Separated;
    hide Joined;
    hide Reaching;
    hide Unrelated;
    var t', among := AddToSet(alias, t, f, v), t.recs.Keys + {v};
    AddToSetCore(alias, t, f, v);
    AddToSetMust(alias, t, f, v);
    AddToSetFields(alias, t, f, v);
    hide AddToSet;
    assert t'.recs.Keys == among;
    AddSeparated(alias, t, t', f, v);
    AddJoined(alias, t, t', f, v, among);
  }

  predicate Apart(alias: Oracle, a: AliasSet, b: AliasSet) {
    forall p <- a.ptrs, q <- b.ptrs :: alias(p, q) == NoAlias
  }

  lemma SeparatedApart(alias: Oracle, t: Tracker, s: SetId, r: SetId)
    requires Separated(alias, t) && s in t.sets && r in t.sets && s != r
    ensures Apart(alias, t.sets[s], t.sets[r])
  {
  }

  lemma ApartSeparated(alias: Oracle, t: Tracker)
    requires forall s, r | s in t.sets && r in t.sets && s != r :: Apart(alias, t.sets[s], t.sets[r])
    ensures Separated(alias, t)
  {
  }

  lemma ApartAdded(alias: Oracle, t: Tracker, t': Tracker, f: SetId, v: Value, s: SetId, r: SetId)
    requires Consistent(alias) && f in t.sets && t'.sets.Keys == t.sets.Keys && s in t.sets && r in t.sets && s != r
    requires Apart(alias, t.sets[s], t.sets[r])
    requires t'.sets[f].ptrs == t.sets[f].ptrs + [v] && forall x <- t.sets | x != f :: t'.sets[x] == t.sets[x]
    requires forall x <- t.sets | x != f :: Unrelated(alias, t.sets[x], v)
    ensures Apart(alias, t'.sets[s], t'.sets[r])
  {
    assert s != f ==> Unrelated(alias, t.sets[s], v);
    assert r != f ==> Unrelated(alias, t.sets[r], v);
    assert forall x, y :: alias(x, y) == alias(y, x);
  }

  lemma AddSeparated(alias: Oracle, t: Tracker, t': Tracker, f: SetId, v: Value)
    requires Consistent(alias) && Separated(alias, t) && f in t.sets && t'.sets.Keys == t.sets.Keys
    requires t'.sets[f].ptrs == t.sets[f].ptrs + [v] && forall x <- t.sets | x != f :: t'.sets[x] == t.sets[x]
    requires forall s <- t.sets | s != f :: Unrelated(alias, t.sets[s], v)
    ensures Separated(alias, t')
  {
    hide *;
    forall s, r | s in t'.sets && r in t'.sets && s != r
      ensures Apart(alias, t'.sets[s], t'.sets[r])
    {
      SeparatedApart(alias, t, s, r);
      ApartAdded(alias, t, t', f, v, s, r);
    }
    ApartSeparated(alias, t');
  }

  lemma AddJoined(alias: Oracle, t: Tracker, t': Tracker, f: SetId, v: Value, among: set<Value>)
    requires Consistent(alias) && Joined(alias, t, among) && f in t.sets && t'.sets.Keys == t.sets.Keys && v in among
    requires t'.sets[f].ptrs == t.sets[f].ptrs + [v] && forall x <- t.sets | x != f :: t'.sets[x] == t.sets[x]
    requires Reaching(alias, among, t.sets[f], v)
    ensures Joined(alias, t', among)
  {
    hide Connected;
    ConnectedSelf(alias, among, v);
    forall s, p, q | s in t'.sets && p in t'.sets[s].ptrs && q in t'.sets[s].ptrs
      ensures Connected(alias, among, p, q)
    {
      if s == f {
        assert Connected(alias, among, p, v) && Connected(alias, among, q, v);
        ConnectedSym(alias, among, q, v);
        ConnectedTrans(alias, among, p, v, q);
      } else {
        assert p in t.sets[s].ptrs && q in t.sets[s].ptrs;
      }
    }
  }

  /** No set aliases the pointer: it gets a set of its own. */
  lemma ScanEndNew(alias: Oracle, t0: Tracker, t: Tracker, v: Value)
    requires Consistent(alias) && Scanning(alias, t0, t, v, [], None)
    ensures t.next in NewSet(t, false).sets && v !in NewSet(t, false).recs
    ensures MayJoin(alias, NewSet(t, false).sets[t.next], v)
    ensures Inv(alias, AddToSet(alias, NewSet(t, false), t.next, v))
    ensures var t' := AddToSet(alias, NewSet(t, false), t.next, v);
            t'.recs == t0.recs[v := t.next] && t'.any.None? && Live(t', t.next)
  {
    hide Core;
    hide MustOk;
    hide Separated;
    hide Joined;
    hide Unrelated;
    hide Filled;
    var t1 := NewSet(t, false);
    NewSetCore(t, false);
    NewSetEmpty(alias, t0, t, v);
    hide NewSet;
    var t' := AddToSet(alias, t1, t.next, v);
    AddToSetCore(alias, t1, t.next, v);
    AddToSetMust(alias, t1, t.next, v);
    AddToSetFields(alias, t1, t.next, v);
    hide AddToSet;
    assert t'.recs.Keys == t.recs.Keys + {v};
    AddSeparated(alias, t1, t', t.next, v);
    AddJoined(alias, t1, t', t.next, v, t'.recs.Keys);
    NowFilled(t, t1, t', t.next);
  }

  lemma NowFilled(t: Tracker, t1: Tracker, t': Tracker, n: SetId)
    requires Filled(t) && t1.sets.Keys == t.sets.Keys + {n} && t'.sets.Keys == t1.sets.Keys && t'.sets[n].ptrs != []
    requires forall x <- t.sets | x != n :: t1.sets[x] == t.sets[x]
    requires forall x <- t1.sets | x != n :: t'.sets[x] == t1.sets[x]
    ensures Filled(t')
  {
  }

  lemma ScanningCore(alias: Oracle, t0: Tracker, t: Tracker, v: Value, todo: seq<SetId>, found: Option<SetId>)
    requires Scanning(alias, t0, t, v, todo, found)
    ensures t.next !in t.sets
  {
    CoreForward(t, None);
  }

  lemma NewSetFields(t: Tracker)
    requires t.next !in t.sets
    ensures var t1 := NewSet(t, false);
            && t1.sets.Keys == t.sets.Keys + {t.next} && t1.any == t.any && t1.recs == t.recs
            && (forall x <- t.sets :: t1.sets[x] == t.sets[x])
            && Live(t1, t.next) && t1.sets[t.next].ptrs == [] && !t1.sets[t.next].may
  {
  }

  lemma EmptyMust(alias: Oracle, t: Tracker, t1: Tracker, n: SetId)
    requires MustOk(alias, t) && t1.any == t.any && t1.sets.Keys == t.sets.Keys + {n} && n !in t.sets
    requires (forall x <- t.sets :: t1.sets[x] == t.sets[x]) && t1.sets[n].ptrs == [] && !t1.sets[n].may
    ensures MustOk(alias, t1)
  {
  }

  lemma EmptySeparated(alias: Oracle, t: Tracker, t1: Tracker, n: SetId)
    requires Separated(alias, t) && t1.sets.Keys == t.sets.Keys + {n}
    requires (forall x <- t.sets :: t1.sets[x] == t.sets[x]) && t1.sets[n].ptrs == []
    ensures Separated(alias, t1)
  {
  }

  lemma EmptyJoined(alias: Oracle, t: Tracker, t1: Tracker, n: SetId, among: set<Value>)
    requires Joined(alias, t, among) && t1.sets.Keys == t.sets.Keys + {n}
    requires (forall x <- t.sets :: t1.sets[x] == t.sets[x]) && t1.sets[n].ptrs == []
    ensures Joined(alias, t1, among)
  {
    hide Connected;
  }

  lemma EmptyReaching(alias: Oracle, a: AliasSet, among: set<Value>, v: Value)
    requires a.ptrs == []
    ensures Reaching(alias, among, a, v) && Unrelated(alias, a, v)
  {
  }

  /** A new empty set changes none of the relations between pointers. */
  lemma NewSetEmpty(alias: Oracle, t0: Tracker, t: Tracker, v: Value)
    requires Scanning(alias, t0, t, v, [], None)
    ensures var t1 := NewSet(t, false);
            && t.next !in t.sets && t1.sets.Keys == t.sets.Keys + {t.next} && t1.any == t.any && t1.recs == t.recs
            && (forall x <- t.sets :: t1.sets[x] == t.sets[x])
            && Live(t1, t.next) && t1.sets[t.next].ptrs == []
            && MustOk(alias, t1) && Separated(alias, t1) && Joined(alias, t1, t.recs.Keys + {v})
            && Reaching(alias, t.recs.Keys + {v}, t1.sets[t.next], v)
            && (forall s <- t1.sets :: Unrelated(alias, t1.sets[s], v))
  {
    hide Core, Connected, Consistent, MustOk, Separated, Joined, Reaching, Unrelated, NewSet, Live;
    ScanningCore(alias, t0, t, v, [], None);
    NewSetFields(t);
    var t1 := NewSet(t, false);
    EmptyMust(alias, t, t1, t.next);
    EmptySeparated(alias, t, t1, t.next);
    EmptyJoined(alias, t, t1, t.next, t.recs.Keys + {v});
    EmptyReaching(alias, t1.sets[t.next], t.recs.Keys + {v}, v);
  }

  // ----- Saturation -----

  /** Part of the list has been folded into the set a of a tracker that is becoming saturated. */
  ghost predicate Folding(t0: Tracker, t: Tracker, a: SetId, todo: seq<SetId>) {
    && Core(t, None) && t.any == Some(a) && t.recs == t0.recs
    && Increasing(todo) && (forall s <- todo :: s in t.sets && s < a)
    && (forall s <- todo | t.sets[s].forward.Some? :: t.sets[s].forward.value < s)
    && (forall s <- t.sets | s !in todo && s != a :: t.sets[s].forward == Some(a))
    && (forall s <- t.sets | s != a && t.sets[s].forward.None? :: t.sets[s].ptrs != [])
    && (t.sets[a].ptrs != [] || forall s <- t.sets :: s == a || s in todo)
  }

  lemma InvUnsaturated(alias: Oracle, t: Tracker)
    requires Inv(alias, t) && t.any.None?
    ensures Core(t, None) && Filled(t) && ListOk(t) && ForwardOk(t) && t.next !in t.sets
  {
    CoreForward(t, None);
  }

  lemma NewAnyFields(t: Tracker)
    requires t.next !in t.sets
    ensures var t1 := NewSet(t, true);
            && t1.sets.Keys == t.sets.Keys + {t.next} && t1.any == Some(t.next) && t1.recs == t.recs
            && (forall x <- t.sets :: t1.sets[x] == t.sets[x]) && t1.sets[t.next].forward == None
  {
  }

  lemma FoldingFirst(t: Tracker, t1: Tracker)
    requires ListOk(t) && ForwardOk(t) && Filled(t) && t.any.None? && t.next !in t.sets && Core(t1, None)
    requires t1.sets.Keys == t.sets.Keys + {t.next} && t1.any == Some(t.next) && t1.recs == t.recs
    requires (forall x <- t.sets :: t1.sets[x] == t.sets[x]) && t1.sets[t.next].forward == None
    ensures Folding(t, t1, t.next, t.list)
  {
    hide Core;
  }

  lemma FoldStart(alias: Oracle, t: Tracker)
    requires Inv(alias, t) && t.any.None?
    ensures Folding(t, NewSet(t, true), t.next, t.list)
  {
    hide *;
    InvUnsaturated(alias, t);
    NewSetCore(t, true);
    NewAnyFields(t);
    FoldingFirst(t, NewSet(t, true));
  }

  /** The next set forwards already: it forwards to a instead. */
  lemma FoldForward(t0: Tracker, t: Tracker, a: SetId, todo: seq<SetId>)
    requires Folding(t0, t, a, todo) && todo != [] && t.sets[todo[0]].forward.Some?
    ensures var f := t.sets[todo[0]].forward.value;
            && a in t.sets && Filled(t) && CanRedirect(t, todo[0], f, a)
            && f in Redirected(t, todo[0], a).sets && Redirected(t, todo[0], a).sets[f].refCount > 0
            && Core(Redirected(t, todo[0], a), Some(f)) && Filled(Redirected(t, todo[0], a))
            && Folding(t0, DropRef(Redirected(t, todo[0], a), f), a, todo[1..])
  {
    hide Core;
    hide Filled;
    hide RedirectDone;
    hide CanRedirect;
    hide Redirected;
    hide DropRef;
    var cur := todo[0];
    var f := t.sets[cur].forward.value;
    FoldForwardTarget(t0, t, a, todo);
    RedirectedCore(t, cur, f, a);
    RedirectCore(t, cur, f, a);
    FoldedForward(t0, t, a, todo, f, DropRef(Redirected(t, cur, a), f));
  }

  lemma FoldedForward(t0: Tracker, t: Tracker, a: SetId, todo: seq<SetId>, f: SetId, t': Tracker)
    requires Folding(t0, t, a, todo) && todo != [] && f < todo[0] && RedirectDone(t, t', todo[0], f, a) && Live(t, a)
    requires t.sets[a].ptrs != []
    ensures Folding(t0, t', a, todo[1..])
  {
    hide Core;
    hide SameTargets;
    TailFacts(todo);
    assert Live(t', a) && t'.sets[a].ptrs == t.sets[a].ptrs;
    forall s <- t'.sets | s != a && t'.sets[s].forward.None?
      ensures t'.sets[s].ptrs != []
    {
      assert Live(t', s) && Live(t, s);
    }
  }

  lemma FoldForwardTarget(t0: Tracker, t: Tracker, a: SetId, todo: seq<SetId>)
    requires Folding(t0, t, a, todo) && todo != [] && t.sets[todo[0]].forward.Some?
    ensures a in t.sets && Filled(t) && Live(t, a) && t.sets[a].ptrs != []
    ensures var f := t.sets[todo[0]].forward.value; f < todo[0] && CanRedirect(t, todo[0], f, a)
  {
    var cur := todo[0];
    var f := t.sets[cur].forward.value;
    TailFacts(todo);
    CoreForward(t, None);
    AnyIsLive(t);
    hide Core;
    hide PtrsOk;
    hide ListOk;
    assert f in t.sets && f < cur && f !in todo;
    assert t.sets[f].forward == Some(a) && Target(t, f) == a;
  }

  /** The next set is live: its pointers go to a. */
  lemma FoldMerge(alias: Oracle, t0: Tracker, t: Tracker, a: SetId, todo: seq<SetId>)
    requires Folding(t0, t, a, todo) && todo != [] && t.sets[todo[0]].forward.None?
    ensures CanMerge(t, a, todo[0])
    ensures Folding(t0, MergeSetIn(alias, t, a, todo[0]), a, todo[1..])
  {
    FoldCanMerge(t0, t, a, todo);
    MergeCore(alias, t, a, todo[0]);
    MergeFields(alias, t, a, todo[0]);
    hide MergeSetIn;
    hide CanMerge;
    hide Core;
    FoldedMerge(t0, t, a, todo, MergeSetIn(alias, t, a, todo[0]));
  }

  lemma FoldCanMerge(t0: Tracker, t: Tracker, a: SetId, todo: seq<SetId>)
    requires Folding(t0, t, a, todo) && todo != [] && t.sets[todo[0]].forward.None?
    ensures CanMerge(t, a, todo[0])
  {
    assert AnyOk(t);
    CoreForward(t, None);
    AnyIsLive(t);
    hide Core;
    hide PtrsOk;
    hide ForwardOk;
    hide ListOk;
    assert todo[0] in todo;
  }

  lemma FoldedMerge(t0: Tracker, t: Tracker, a: SetId, todo: seq<SetId>, t': Tracker)
    requires Folding(t0, t, a, todo) && todo != [] && t.sets[todo[0]].forward.None? && a in t.sets
    requires Core(t', None) && t'.any == t.any && t'.recs == t.recs && t'.sets.Keys == t.sets.Keys
    requires forall x <- t.sets | x != a && x != todo[0] :: t'.sets[x] == t.sets[x]
    requires t'.sets[todo[0]].forward == Some(a) && t'.sets[a].forward == t.sets[a].forward
    requires t'.sets[a].ptrs == t.sets[a].ptrs + t.sets[todo[0]].ptrs
    ensures Folding(t0, t', a, todo[1..])
  {
    hide Core;
    TailFacts(todo);
    assert t'.sets[a].ptrs != [] by {
      assert t.sets[todo[0]].ptrs != [];
    }
  }

  lemma FoldingFacts(t0: Tracker, t: Tracker, a: SetId)
    requires Folding(t0, t, a, [])
    ensures Core(t, None) && t.any == Some(a) && t.recs == t0.recs && a in t.sets
    ensures forall s <- t.sets | s != a :: t.sets[s].forward == Some(a)
    ensures t.sets[a].ptrs != [] ==> Filled(t)
  {
    CoreForward(t, None);
    AnyIsLive(t);
    hide Core;
  }

  /** With one live set, every pointer is listed there. */
  lemma RecordHome(t: Tracker, a: SetId, v: Value)
    requires ForwardOk(t) && PtrsOk(t) && a in t.sets && (forall s <- t.sets | s != a :: t.sets[s].forward == Some(a))
    requires v in t.recs
    ensures t.sets[a].ptrs != []
  {
    assert RecordsListed(t);
    var r := Target(t, t.recs[v]);
    hide Target, ForwardOk;
    assert Live(t, r);
    assert v in t.sets[r].ptrs;
  }

  lemma FoldedInv(alias: Oracle, t: Tracker, a: SetId)
    requires Core(t, None) && Filled(t) && t.any == Some(a)
    requires forall s <- t.sets | s != a :: t.sets[s].forward == Some(a)
    ensures Inv(alias, t)
  {
    hide Core, Filled;
  }

  /** Everything is folded into one set: the tracker is saturated. */
  lemma FoldEnd(alias: Oracle, t0: Tracker, t: Tracker, a: SetId)
    requires Folding(t0, t, a, []) && t0.recs != map[]
    ensures Inv(alias, t)
  {
    hide *;
    FoldingFacts(t0, t, a);
    CoreForward(t, None);
    var v :| v in t0.recs;
    RecordHome(t, a, v);
    FoldedInv(alias, t, a);
  }

  /** A tracker with something in may-alias sets has pointers. */
  lemma TotalMeansPointers(alias: Oracle, t: Tracker)
    requires Inv(alias, t) && t.total > 0
    ensures t.recs != map[]
  {
    if t.list != [] {
      var s := t.list[0];
      assert s in t.list;
      var r := Target(t, s);
      assert t.sets[r].ptrs != [];
      var v := t.sets[r].ptrs[0];
      assert v in t.sets[r].ptrs && v in t.recs by {
        assert ListedRecorded(t);
      }
    }
  }

  // ----- Shortening the chain of a pointer's record -----

  function Rerecorded(t: Tracker, v: Value, d: SetId): Tracker
    requires d in t.sets
  {
    AddRef(t.(recs := t.recs[v := d]), d)
  }

  ghost predicate CanRerecord(t: Tracker, v: Value, s: SetId, d: SetId) {
    ForwardOk(t) && v in t.recs && t.recs[v] == s && s in t.sets && s != d && Target(t, s) == d
  }

  lemma RerecordFields(t: Tracker, v: Value, s: SetId, d: SetId)
    requires CanRerecord(t, v, s, d)
    ensures Live(t, d)
    ensures var t' := Rerecorded(t, v, d);
            && t'.list == t.list && t'.total == t.total && t'.any == t.any && t'.next == t.next
            && t'.recs == t.recs[v := d] && t'.sets.Keys == t.sets.Keys
            && (forall y <- t.sets | y != d :: t'.sets[y] == t.sets[y])
            && t'.sets[d] == t.sets[d].(refCount := t.sets[d].refCount + 1)
  {
  }

  lemma RerecordForwardOk(t: Tracker, v: Value, s: SetId, d: SetId)
    requires CanRerecord(t, v, s, d)
    ensures Live(t, d) && Target(t, d) == d && SameTargets(t, Rerecorded(t, v, d))
  {
    var t' := Rerecorded(t, v, d);
    RerecordFields(t, v, s, d);
    hide Rerecorded;
    assert ForwardOk(t');
    forall y <- t'.sets
      ensures Target(t', y) == Target(t, y)
    {
      TargetSameBack(t', t, y);
    }
  }

  lemma RerecordShape(t: Tracker, v: Value, s: SetId, d: SetId)
    requires CanRerecord(t, v, s, d) && ListOk(t) && TotalOk(t) && AnyOk(t)
    ensures Live(t, d)
    ensures var t' := Rerecorded(t, v, d); ListOk(t') && TotalOk(t') && AnyOk(t')
  {
    var t' := Rerecorded(t, v, d);
    RerecordFields(t, v, s, d);
    hide Rerecorded;
    hide CanRerecord;
    SumSame(t.sets, t'.sets, t.list);
  }

  /** The pointers listed, and where the records resolve to, are the same. */
  ghost predicate SameHomes(t: Tracker, t': Tracker)
    requires ForwardOk(t) && ForwardOk(t')
  {
    && t'.sets.Keys == t.sets.Keys && t'.recs.Keys == t.recs.Keys
    && (forall y <- t.sets :: t'.sets[y].(refCount := 0) == t.sets[y].(refCount := 0))
    && (forall w <- t.recs ::
          t.recs[w] in t.sets && t'.recs[w] in t.sets && Target(t', t'.recs[w]) == Target(t, t.recs[w]))
  }

  lemma SameHomesPtrs(t: Tracker, t': Tracker)
    requires ForwardOk(t) && ForwardOk(t') && PtrsOk(t) && SameHomes(t, t')
    ensures PtrsOk(t')
  {
    hide Target, ForwardOk;
    assert forall y <- t.sets :: t'.sets[y].ptrs == t.sets[y].ptrs;
    assert RecordsListed(t') by {
      forall w <- t'.recs
        ensures t'.recs[w] in t'.sets && w in t'.sets[Target(t', t'.recs[w])].ptrs
      {
        assert w in t.sets[Target(t, t.recs[w])].ptrs;
      }
    }
    assert ListedRecorded(t');
  }

  lemma RerecordPtrs(t: Tracker, v: Value, s: SetId, d: SetId)
    requires CanRerecord(t, v, s, d) && PtrsOk(t)
    ensures Live(t, d) && ForwardOk(t)
    ensures ForwardOk(Rerecorded(t, v, d)) && PtrsOk(Rerecorded(t, v, d))
  {
    hide PtrsOk;
    hide CanRerecord;
    RerecordFields(t, v, s, d);
    RerecordForwardOk(t, v, s, d);
    RerecordHomes(t, v, s, d);
    SameHomesPtrs(t, Rerecorded(t, v, d));
  }

  lemma TargetsForward(t: Tracker, t': Tracker)
    requires SameTargets(t, t')
    ensures ForwardOk(t) && ForwardOk(t')
  {
  }

  /** The pointer's record resolves as before. */
  predicate HomeKept(t: Tracker, t': Tracker, w: Value)
    requires ForwardOk(t) && ForwardOk(t') && w in t.recs
  {
    w in t'.recs && t.recs[w] in t.sets && t'.recs[w] in t.sets && t'.recs[w] in t'.sets
    && Target(t', t'.recs[w]) == Target(t, t.recs[w])
  }

  lemma RerecordedHome(t: Tracker, t': Tracker, v: Value, s: SetId, d: SetId, w: Value)
    requires CanRerecord(t, v, s, d) && SameTargets(t, t') && d in t.sets && Target(t, d) == d
    requires t'.recs == t.recs[v := d] && t'.sets.Keys == t.sets.Keys && ForwardOk(t) && ListedAt(t, w)
    ensures ForwardOk(t') && HomeKept(t, t', w)
  {
    hide Target, ForwardOk;
  }

  lemma HomesKept(t: Tracker, t': Tracker, d: SetId)
    requires ForwardOk(t) && ForwardOk(t') && t'.sets.Keys == t.sets.Keys && t'.recs.Keys == t.recs.Keys && d in t.sets
    requires (forall y <- t.sets | y != d :: t'.sets[y] == t.sets[y])
    requires t'.sets[d] == t.sets[d].(refCount := t.sets[d].refCount + 1)
    requires forall w <- t.recs :: HomeKept(t, t', w)
    ensures SameHomes(t, t')
  {
    hide Target, ForwardOk;
  }

  lemma RerecordedHomes(t: Tracker, t': Tracker, v: Value, s: SetId, d: SetId)
    requires CanRerecord(t, v, s, d) && RecordsListed(t) && SameTargets(t, t') && d in t.sets && Target(t, d) == d
    requires t'.recs == t.recs[v := d] && t'.sets.Keys == t.sets.Keys && v in t.recs
    requires (forall y <- t.sets | y != d :: t'.sets[y] == t.sets[y])
    requires t'.sets[d] == t.sets[d].(refCount := t.sets[d].refCount + 1)
    ensures ForwardOk(t') && SameHomes(t, t')
  {
    hide *;
    TargetsForward(t, t');
    forall w <- t.recs
      ensures HomeKept(t, t', w)
    {
      RecordListed(t, w);
      RerecordedHome(t, t', v, s, d, w);
    }
    HomesKept(t, t', d);
  }

  lemma RecordsListedHere(t: Tracker, v: Value, s: SetId, d: SetId)
    requires CanRerecord(t, v, s, d) && PtrsOk(t)
    ensures ForwardOk(t) && RecordsListed(t) && d in t.sets && v in t.recs
  {
  }

  lemma RerecordHomes(t: Tracker, v: Value, s: SetId, d: SetId)
    requires CanRerecord(t, v, s, d) && PtrsOk(t)
    ensures Live(t, d) && ForwardOk(Rerecorded(t, v, d)) && SameHomes(t, Rerecorded(t, v, d))
  {
    hide *;
    RerecordFields(t, v, s, d);
    RerecordForwardOk(t, v, s, d);
    RecordsListedHere(t, v, s, d);
    RerecordedHomes(t, Rerecorded(t, v, d), v, s, d);
  }

  lemma RerecordRefs(t: Tracker, v: Value, s: SetId, d: SetId)
    requires CanRerecord(t, v, s, d) && RefsOk(t, None)
    ensures Live(t, d) && RefsOk(Rerecorded(t, v, d), Some(s))
  {
    var t' := Rerecorded(t, v, d);
    RerecordFields(t, v, s, d);
    hide Rerecorded;
    forall y <- t'.sets
      ensures t'.sets[y].refCount == Refs(t', y) + if s == y then 1 else 0
    {
      assert t.sets[y].refCount == Refs(t, y);
      assert ForwardersTo(t', y) == ForwardersTo(t, y);
      RerecordRecords(t, t', v, s, d, y);
      hide RecordsOf;
    }
  }

  lemma RerecordRecords(t: Tracker, t': Tracker, v: Value, s: SetId, d: SetId, y: SetId)
    requires v in t.recs && t.recs[v] == s && s != d && t'.recs == t.recs[v := d]
    ensures |RecordsOf(t', y)| + (if y == s then 1 else 0) == |RecordsOf(t, y)| + (if y == d then 1 else 0)
  {
    var a, b := RecordsOf(t, y), RecordsOf(t', y);
    assert forall x :: x in b <==> if x == v then y == d else x in a;
    assert v in a <==> y == s;
    hide RecordsOf;
    if y == s {
      assert a == b + {v};
    } else if y == d {
      assert b == a + {v};
    } else {
      assert a == b;
    }
  }

  lemma RerecordCore(t: Tracker, v: Value, s: SetId, d: SetId)
    requires Core(t, None) && Filled(t) && CanRerecord(t, v, s, d)
    ensures Live(t, d)
    ensures var t1 := Rerecorded(t, v, d);
            && s in t1.sets && Core(t1, Some(s)) && Filled(t1) && SameLive(t, t1)
            && t1.sets[s].refCount > 0 && Core(DropRef(t1, s), None) && Filled(DropRef(t1, s))
            && SameLive(t, DropRef(t1, s)) && DropRef(t1, s).recs == t1.recs
  {
    hide ListOk;
    hide ForwardOk;
    hide TotalOk;
    hide PtrsOk;
    hide RefsOk;
    hide SameTargets;
    hide DropRef;
    RerecordForwardOk(t, v, s, d);
    RerecordShape(t, v, s, d);
    RerecordPtrs(t, v, s, d);
    RerecordRefs(t, v, s, d);
    RerecordFields(t, v, s, d);
    var t1 := Rerecorded(t, v, d);
    hide Rerecorded;
    assert t1.recs.Keys == t.recs.Keys;
    DropRefCore(t1, s);
    PrunedSameLive(t1, DropRef(t1, s), s);
    SameLiveTrans(t, t1, DropRef(t1, s));
  }
}
