/** The alias set tracker as the object its clients use: pointers are added one after the other, and its fields
    are updated in place. */
module AliasSetTrackers {
  import opened Basics
  import opened AliasSets
  import opened AliasSetLimit
  import opened AliasSetOps

  class AliasSetTracker {
    const alias: Oracle
    var list: seq<SetId>
    var sets: map<SetId, AliasSet>
    var recs: map<Value, SetId>
    var total: int
    var any: Option<SetId>
    var next: SetId

    function State(): Tracker
      reads this
    {
      Tracker(list, sets, recs, total, any, next)
    }

    ghost predicate Valid()
      reads this
    {
      Consistent(alias) && Inv(alias, State())
    }

    constructor (alias: Oracle)
      requires Consistent(alias)
      ensures Valid() && this.alias == alias && recs == map[] && any.None?
    {
      this.alias := alias;
      list, sets, recs, total, any, next := [], map[], map[], 0, None, 0;
    }

    /** Merge the pointers of set b into set a. */
    method MergeSets(a: SetId, b: SetId)
      requires CanMerge(State(), a, b) && SetOk(sets[b])
      modifies this
      ensures State() == MergeSetIn(alias, old(State()), a, b)
    {
      var A, B := sets[a], sets[b];
      var wasMust := !A.may;
      var may := A.may || B.may;
      if !may {
        if alias(A.ptrs[0], B.ptrs[0]) != MustAlias {
          may := true;
        }
      }
      if may {
        if wasMust {
          total := total + A.setSize;
        }
        if !B.may {
          total := total + B.setSize;
        }
      }
      var ptrs, setSize := A.ptrs, A.setSize;
      if B.ptrs != [] {
        setSize := setSize + B.setSize;
        ptrs := ptrs + B.ptrs;
      }
      assert ptrs == A.ptrs + B.ptrs;
      sets := sets[b := B.(forward := Some(a), ptrs := [], setSize := 0)]
                  [a := A.(may := may, refCount := A.refCount + 1, ptrs := ptrs, setSize := setSize)];
    }

    /** Put a new pointer into set s. */
    method AddToSetOf(s: SetId, v: Value)
      requires s in sets && v !in recs && MayJoin(alias, sets[s], v)
      modifies this
      ensures State() == AddToSet(alias, old(State()), s, v)
    {
      var a := sets[s];
      var may := a.may;
      if !a.may {
        if a.ptrs != [] {
          if alias(a.ptrs[0], v) != MustAlias {
            may := true;
            total := total + a.setSize;
          }
          assert alias(a.ptrs[0], v) != NoAlias;
        }
      }
      recs := recs[v := s];
      sets := sets[s := a.(may := may, setSize := a.setSize + 1, ptrs := a.ptrs + [v], refCount := a.refCount + 1)];
      if may {
        total := total + 1;
      }
    }

    method PushSet(aliasAny: bool) returns (s: SetId)
      modifies this
      ensures s == old(next) && State() == NewSet(old(State()), aliasAny)
    {
      s := next;
      list := list + [s];
      sets := sets[s := AliasSet([], None, 0, aliasAny, aliasAny, 0)];
      if aliasAny {
        any := Some(s);
      }
      next := next + 1;
    }

    /** Give up a reference to s, taking it out of the list if it was the last. */
    method DropReference(s: SetId)
      requires Core(State(), Some(s)) && Filled(State()) && s in sets
      modifies this
      ensures old(State()).sets[s].refCount > 0
      ensures State() == DropRef(old(State()), s)
      decreases |sets|
    {
      hide Core;
      OwingHasCount(State(), s);
      LowerCore(State(), s);
      sets := sets[s := sets[s].(refCount := sets[s].refCount - 1)];
      if sets[s].refCount == 0 {
        Unreferenced(State(), s);
        EraseCore(State(), s);
        EraseFields(State(), s);
        RemoveFromTracker(s);
      }
    }

    /** Take a set that nobody refers to out of the list, giving up its reference to the one it forwards to. */
    method RemoveFromTracker(s: SetId)
      requires s in sets && sets[s].forward.Some?
      requires var t := Erase(State(), s);
               var f := sets[s].forward.value;
               Core(t, Some(f)) && Filled(t) && f in t.sets && f != s
      modifies this
      ensures var t := Erase(old(State()), s);
              var f := old(State()).sets[s].forward.value;
              t.sets[f].refCount > 0 && State() == DropRef(t, f)
      decreases |sets|, 0
    {
      hide Core;
      var f := sets[s].forward.value;
      if sets[s].may {
        total := total - sets[s].setSize;
      }
      assert |sets - {s}| < |sets| by {
        assert (sets - {s}).Keys == sets.Keys - {s};
        assert |sets.Keys - {s}| < |sets.Keys|;
      }
      list := Remove(list, s);
      sets := sets - {s};
      DropReference(f);
    }

    /** The set at the end of the forwarding chain of s. Every set on the way forwards to it afterwards. */
    method GetForwardedTarget(s: SetId) returns (dest: SetId)
      requires Core(State(), None) && Filled(State()) && s in sets
      modifies this
      ensures Core(State(), None) && Filled(State())
      ensures SameLive(old(State()), State()) && SameTargets(old(State()), State()) && recs == old(recs)
      ensures s in sets && dest == Target(old(State()), s)
      ensures sets[s].forward == if dest == s then None else Some(dest)
      ensures old(sets)[s].forward.None? ==> State() == old(State())
      ensures forall y <- old(sets) | y > s :: y in sets && sets[y].forward == old(sets)[y].forward
      decreases if sets[s].forward.None? then 0 else s + 1
    {
      hide Core;
      hide SameLive;
      hide SameTargets;
      hide Filled;
      hide ForwardOk;
      hide Target;
      hide CanRedirect;
      hide PtrsOk, DropRef, Refs, RefsOk, ListOk;
      CoreForward(State(), None);
      ghost var t0 := State();
      StaysPut(t0);
      if sets[s].forward.None? {
        LiveTarget(t0, s);
        return s;
      }
      var f := sets[s].forward.value;
      ForwardStep(t0, s);
      dest := GetForwardedTarget(f);
      ghost var t := State();
      if f >= s {
        return;
      }
      SameLiveAny(t0, t);
      TargetOfForward(t0, t, s, f);
      if dest != f {
        RedirectedCore(t, s, f, dest);
        RedirectCore(t, s, f, dest);
        sets := sets[s := sets[s].(forward := Some(dest))];
        sets := sets[dest := sets[dest].(refCount := sets[dest].refCount + 1)];
        assert State() == Redirected(t, s, dest);
        DropReference(f);
        SameLiveTrans(t0, t, State());
        SameTargetsTrans(t0, t, State());
      }
    }

    /** The live set of a pointer that has been added, shortening the chain from its record. */
    method GetAliasSet(v: Value) returns (s: SetId)
      requires Valid() && v in recs
      modifies this
      ensures Valid() && SameLive(old(State()), State())
      ensures v in recs && recs[v] == s && Live(State(), s)
    {
      hide Core;
      hide Inv;
      hide SameLive;
      hide SameTargets;
      hide Filled;
      hide ForwardOk;
      hide Target;
      hide CanRerecord;
      hide Consistent;
      InvCore(alias, State());
      RecordKnown(State(), v);
      StaysPut(State());
      ghost var t0 := State();
      s := recs[v];
      if sets[s].forward.Some? {
        var oldSet := s;
        s := GetForwardedTarget(oldSet);
        ghost var t := State();
        ForwardedRecord(t0, t, v, oldSet, s);
        RerecordCore(t, v, oldSet, s);
        recs := recs[v := s];
        sets := sets[s := sets[s].(refCount := sets[s].refCount + 1)];
        assert State() == Rerecorded(t, v, s);
        DropReference(oldSet);
        SameLiveTrans(t0, t, State());
        InvSameLive(alias, t0, State());
        TargetStaysLive(t0, State(), oldSet, s);
      }
    }

    /** Merge all sets the new pointer may alias into the first of them, if there is one. */
    method MergeAliasSetsForPointer(v: Value) returns (found: Option<SetId>)
      requires Valid() && any.None? && v !in recs
      modifies this
      ensures Scanning(alias, old(State()), State(), v, [], found)
    {
      hide Core;
      hide Separated;
      hide Joined;
      hide Inv;
      found := None;
      ghost var t0 := State();
      ScanStart(alias, t0, v);
      var i := 0;
      assert list[0..] == list;
      while i < |list|
        invariant 0 <= i <= |list|
        invariant Scanning(alias, t0, State(), v, list[i..], found)
      {
        var cur := list[i];
        assert list[i..][0] == cur && list[i..][1..] == list[i + 1..];
        assert cur in list[i..];
        if sets[cur].forward.Some? || !Aliases(alias, sets[cur], v) {
          ScanSkip(alias, t0, State(), v, list[i..], found);
        } else if found.None? {
          ScanFind(alias, t0, State(), v, list[i..]);
          found := Some(cur);
        } else {
          ScanMerge(alias, t0, State(), v, list[i..], found.value);
          CoreSetOk(State(), cur);
          MergeSets(found.value, cur);
        }
        i := i + 1;
      }
    }

    /** The live set of a pointer, which is added if it is new. */
    method GetAliasSetForPointer(v: Value) returns (s: SetId)
      requires Valid()
      modifies this
      ensures Valid() && any == old(any) && recs.Keys == old(recs).Keys + {v}
      ensures Home(State(), v, s)
    {
      hide Core;
      hide Scanning;
      hide Home;
      hide Inv;
      if any.Some? {
        s := any.value;
        SaturatedAny(alias, State());
        if v in recs {
          SaturatedHome(alias, State(), s, v);
        } else {
          SaturatedAdd(alias, State(), s, v);
          AddToSetOf(s, v);
        }
      } else if v in recs {
        s := GetAliasSet(v);
        LiveRecordHome(alias, State(), v);
      } else {
        var found := MergeAliasSetsForPointer(v);
        ghost var t := State();
        if found.Some? {
          s := found.value;
          ScanEndFound(alias, old(State()), t, v, s);
        } else {
          ScanEndNew(alias, old(State()), t, v);
          s := PushSet(false);
        }
        AddToSetOf(s, v);
        LiveRecordHome(alias, State(), v);
      }
    }

    /** Fold all sets into one that is taken to alias every pointer. */
    method MergeAllAliasSets() returns (s: SetId)
      requires Valid() && any.None? && total > SATURATION_THRESHOLD
      modifies this
      ensures Valid() && any == Some(s) && recs == old(recs)
    {
      hide Core;
      hide Inv;
      hide Folding;
      hide Filled;
      hide CanRedirect;
      hide CanMerge;
      var all := list;
      ghost var t0 := State();
      TotalMeansPointers(alias, t0);
      FoldStart(alias, t0);
      s := PushSet(true);
      var i := 0;
      assert all[0..] == all;
      while i < |all|
        invariant 0 <= i <= |all|
        invariant Folding(t0, State(), s, all[i..])
      {
        var cur := all[i];
        assert all[i..][0] == cur && all[i..][1..] == all[i + 1..];
        FoldKnown(t0, State(), s, all[i..]);
        if sets[cur].forward.Some? {
          var f := sets[cur].forward.value;
          FoldForward(t0, State(), s, all[i..]);
          ghost var t := State();
          sets := sets[cur := sets[cur].(forward := Some(s))];
          sets := sets[s := sets[s].(refCount := sets[s].refCount + 1)];
          assert State() == Redirected(t, cur, s);
          DropReference(f);
        } else {
          FoldMerge(alias, t0, State(), s, all[i..]);
          CoreSetOk(State(), cur);
          MergeSets(s, cur);
        }
        i := i + 1;
      }
      assert all[i..] == [];
      FoldEnd(alias, t0, State(), s);
      FoldKnown(t0, State(), s, []);
    }

    /** Add a pointer, and saturate the tracker when more than 250 pointers are in may-alias sets: those that are
        connected with a pointer they need not alias. Answers with the set the pointer now belongs to. */
    method AddPointer(v: Value) returns (s: SetId)
      requires Valid()
      modifies this
      ensures Valid() && recs.Keys == old(recs).Keys + {v}
      ensures old(any).Some? ==> any == old(any)
      ensures old(any).None? ==> (any.Some? <==> |Loose(alias, recs.Keys)| > 250)
      ensures any.None? ==> total <= 250
      ensures Home(State(), v, s)
    {
      hide Inv, Home, Loose;
      s := GetAliasSetForPointer(v);
      if any.None? {
        TotalIsLoose(alias, State());
      }
      if any.None? && total > SATURATION_THRESHOLD {
        s := MergeAllAliasSets();
        SaturatedHome(alias, State(), s, v);
      }
    }

    /** Any sequence of pointers may be added. While the tracker is not saturated, two of them are in the same
        set exactly when a chain of pairwise aliasing pointers connects them; once it is saturated, all of them
        are in one set. It is saturated exactly when more than 250 pointers are connected with one they need not
        alias, so never by 250 pointers or fewer. */
    method AddPointers(vs: seq<Value>)
      requires Valid()
      modifies this
      ensures Valid() && recs.Keys == old(recs).Keys + set v <- vs
      ensures ForwardOk(State()) && forall v <- recs :: recs[v] in sets
      ensures any.None? ==> forall v, w | v in recs && w in recs ::
                Target(State(), recs[v]) == Target(State(), recs[w]) <==> Connected(alias, recs.Keys, v, w)
      ensures any.Some? ==> (forall x: SetId :: Live(State(), x) <==> any == Some(x))
                            && forall v <- recs :: Target(State(), recs[v]) == any.value
      ensures old(any).None? && |Loose(alias, old(recs).Keys)| <= 250 ==>
                (any.Some? <==> |Loose(alias, recs.Keys)| > 250)
      ensures old(any).None? && |recs.Keys| <= 250 ==> any.None?
    {
      hide Inv, Home, Connected, Loose;
      for i := 0 to |vs|
        invariant Valid() && recs.Keys == old(recs).Keys + set v <- vs[..i]
        invariant old(any).None? && |Loose(alias, old(recs).Keys)| <= 250 ==>
                    (any.Some? <==> |Loose(alias, recs.Keys)| > 250)
      {
        LooseMore(alias, recs.Keys, recs.Keys + {vs[i]});
        var s := AddPointer(vs[i]);
        assert vs[..i + 1] == vs[..i] + [vs[i]];
      }
      assert vs[..|vs|] == vs;
      LooseAtMost(alias, recs.Keys);
      LooseMore(alias, old(recs).Keys, recs.Keys);
      InvResolves(alias, State());
      if any.None? {
        forall v, w | v in recs && w in recs
          ensures Target(State(), recs[v]) == Target(State(), recs[w]) <==> Connected(alias, recs.Keys, v, w)
        {
          SameSetIffConnected(alias, State(), v, w);
        }
      } else {
        OneLiveSet(alias, State());
      }
    }
  }

  /** The record of v resolves to s. */
  ghost predicate Home(t: Tracker, v: Value, s: SetId) {
    ForwardOk(t) && v in t.recs && t.recs[v] in t.sets && Target(t, t.recs[v]) == s
  }

  lemma FoldKnown(t0: Tracker, t: Tracker, a: SetId, todo: seq<SetId>)
    requires Folding(t0, t, a, todo)
    ensures Core(t, None) && a in t.sets && t.any == Some(a) && t.recs == t0.recs
    ensures todo != [] ==> todo[0] in t.sets
  {
    assert todo != [] ==> todo[0] in todo;
  }

  lemma InvCore(alias: Oracle, t: Tracker)
    requires Inv(alias, t)
    ensures Core(t, None) && Filled(t) && ForwardOk(t)
  {
  }

  lemma TargetStaysLive(t: Tracker, t': Tracker, s: SetId, d: SetId)
    requires ForwardOk(t) && s in t.sets && Target(t, s) == d && SameLive(t, t')
    ensures Live(t', d)
  {
  }

  lemma RecordKnown(t: Tracker, v: Value)
    requires Core(t, None) && v in t.recs
    ensures ForwardOk(t) && t.recs[v] in t.sets
  {
    assert RecordsListed(t);
  }

  lemma CoreSetOk(t: Tracker, s: SetId)
    requires Core(t, None) && s in t.sets
    ensures SetOk(t.sets[s])
  {
  }

  /** The record still names a set that is there after its chain has been shortened. */
  lemma ForwardedRecord(t0: Tracker, t: Tracker, v: Value, s: SetId, d: SetId)
    requires SameTargets(t0, t) && s in t.sets && t.recs == t0.recs && v in t.recs && t.recs[v] == s
    requires t0.sets[s].forward.Some? && d == Target(t0, s)
    ensures CanRerecord(t, v, s, d)
  {
    assert Live(t0, d);
  }

  lemma LiveRecordHome(alias: Oracle, t: Tracker, v: Value)
    requires Inv(alias, t) && v in t.recs && Live(t, t.recs[v])
    ensures Home(t, v, t.recs[v])
  {
  }

  lemma SaturatedAny(alias: Oracle, t: Tracker)
    requires Inv(alias, t) && t.any.Some?
    ensures Core(t, None) && Live(t, t.any.value)
  {
  }

  /** In a saturated tracker every pointer is in its only set. */
  lemma SaturatedHome(alias: Oracle, t: Tracker, s: SetId, v: Value)
    requires Inv(alias, t) && t.any == Some(s) && v in t.recs
    ensures Home(t, v, s)
  {
    assert RecordsListed(t);
    assert Live(t, Target(t, t.recs[v]));
  }

  lemma OneLiveSet(alias: Oracle, t: Tracker)
    requires Inv(alias, t) && t.any.Some?
    ensures ForwardOk(t)
    ensures forall x: SetId :: Live(t, x) <==> t.any == Some(x)
    ensures forall v <- t.recs :: t.recs[v] in t.sets && Target(t, t.recs[v]) == t.any.value
  {
    SaturatedAny(alias, t);
    forall v <- t.recs
      ensures t.recs[v] in t.sets && Target(t, t.recs[v]) == t.any.value
    {
      SaturatedHome(alias, t, t.any.value, v);
    }
  }

  lemma SaturatedAdd(alias: Oracle, t: Tracker, s: SetId, v: Value)
    requires Inv(alias, t) && t.any == Some(s) && v !in t.recs
    ensures s in t.sets && MayJoin(alias, t.sets[s], v)
    ensures var t' := AddToSet(alias, t, s, v); Inv(alias, t') && Home(t', v, s)
  {
    AddToSetCore(alias, t, s, v);
    AddToSetFields(alias, t, s, v);
    hide AddToSet;
    hide Core;
    var t' := AddToSet(alias, t, s, v);
    SaturatedHome(alias, t', s, v);
  }

  lemma StaysPut(t: Tracker)
    requires ForwardOk(t)
    ensures SameLive(t, t) && SameTargets(t, t)
  {
  }

  lemma LiveTarget(t: Tracker, s: SetId)
    requires ForwardOk(t) && Live(t, s)
    ensures Target(t, s) == s
  {
  }

  lemma SameLiveAny(t: Tracker, t': Tracker)
    requires SameLive(t, t')
    ensures t'.any == t.any
  {
  }

  lemma ForwardStep(t: Tracker, s: SetId)
    requires ForwardOk(t) && s in t.sets && t.sets[s].forward.Some?
    ensures var f := t.sets[s].forward.value;
            f in t.sets && Target(t, s) == Target(t, f) && f != s && (f > s ==> Live(t, f) && Target(t, f) == f)
  {
  }

  lemma {:induction false} TargetIsOlder(t: Tracker, s: SetId)
    requires ForwardOk(t) && s in t.sets
    ensures Target(t, s) <= s || t.any == Some(Target(t, s))
    decreases s
  {
    match t.sets[s].forward
    case None =>
    case Some(f) => if f < s { TargetIsOlder(t, f); }
  }

  /** After the chain has been shortened from f on, s can be redirected to the end of it. */
  lemma TargetOfForward(t0: Tracker, t: Tracker, s: SetId, f: SetId)
    requires SameTargets(t0, t) && s in t.sets && t.sets[s].forward == Some(f) && f < s
    requires f in t0.sets && Target(t0, s) == Target(t0, f) && t.any == t0.any
    ensures Target(t0, f) != f ==> CanRedirect(t, s, f, Target(t0, f))
  {
    assert Target(t, s) == Target(t0, s);
    TargetIsOlder(t0, f);
    hide Target;
  }
}
