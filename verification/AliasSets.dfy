/** Alias sets: what the tracker's data structure is, and what each operation on it does. */
module AliasSets {
  import opened Basics

  type Value = nat
  type SetId = nat

  datatype AliasResult = NoAlias | MayAlias | PartialAlias | MustAlias

  /** The alias analysis, for pointers that each have one access size. */
  type Oracle = (Value, Value) -> AliasResult

  /** What is asked of the analysis: the order of its arguments does not matter, and pointers that must
      alias each other relate alike to every third one. */
  ghost predicate Consistent(alias: Oracle) {
    && (forall x, y :: alias(x, y) == alias(y, x))
    && (forall x, y, z | alias(x, y) == MustAlias && z != x && z != y :: alias(x, z) == alias(y, z))
  }

  /** An alias set. Sets that were merged into another one forward to it and keep no pointers. */
  datatype AliasSet = AliasSet(ptrs: seq<Value>, forward: Option<SetId>, refCount: nat, aliasAny: bool, may: bool,
                               setSize: nat)

  /** The sets in the order they were made, the set each pointer's record names, the total size of the may-alias
      sets, and the one set of a saturated tracker. */
  datatype Tracker = Tracker(list: seq<SetId>, sets: map<SetId, AliasSet>, recs: map<Value, SetId>, total: int,
                             any: Option<SetId>, next: SetId)

  // ----- The shape of the structure -----

  predicate Increasing(list: seq<SetId>) {
    forall i, j | 0 <= i < j < |list| :: list[i] < list[j]
  }

  predicate ListOk(t: Tracker) {
    && Increasing(t.list)
    && (forall s <- t.list :: s in t.sets && s < t.next)
    && (forall s <- t.sets :: s in t.list)
  }

  predicate Live(t: Tracker, s: SetId) {
    s in t.sets && t.sets[s].forward == None
  }

  /** A forwarding set forwards to an older one, or to the set of a saturated tracker, which forwards nowhere. */
  predicate ForwardOk(t: Tracker) {
    && (t.any.Some? ==> Live(t, t.any.value))
    && forall s <- t.sets :: t.sets[s].forward.Some? ==>
         var f := t.sets[s].forward.value;
         f in t.sets && (f < s || t.any == Some(f))
  }

  /** The set at the end of the forwarding chain. */
  function Target(t: Tracker, s: SetId): (r: SetId)
    requires ForwardOk(t) && s in t.sets
    ensures Live(t, r)
    decreases s
  {
    match t.sets[s].forward
    case None => s
    case Some(f) => if f < s then Target(t, f) else f
  }

  predicate SetOk(a: AliasSet) {
    a.setSize == |a.ptrs| && NoDuplicates(a.ptrs) && (a.forward.Some? ==> a.ptrs == [])
  }

  /** Every pointer is listed by the set its record resolves to. */
  predicate RecordsListed(t: Tracker)
    requires ForwardOk(t)
  {
    forall v <- t.recs :: t.recs[v] in t.sets && v in t.sets[Target(t, t.recs[v])].ptrs
  }

  /** The record of every listed pointer resolves to the set that lists it. */
  predicate ListedRecorded(t: Tracker)
    requires ForwardOk(t)
  {
    forall s, v | s in t.sets && v in t.sets[s].ptrs :: v in t.recs && t.recs[v] in t.sets && Target(t, t.recs[v]) == s
  }

  /** Every pointer is in exactly one list, that of the set its record resolves to. */
  predicate PtrsOk(t: Tracker)
    requires ForwardOk(t)
  {
    && (forall s <- t.sets :: SetOk(t.sets[s]))
    && RecordsListed(t) && ListedRecorded(t)
  }

  /** No live set is empty. */
  predicate Filled(t: Tracker) {
    forall s <- t.sets :: t.sets[s].forward.None? ==> t.sets[s].ptrs != []
  }

  function RecordsOf(t: Tracker, s: SetId): set<Value> {
    set v | v in t.recs && t.recs[v] == s
  }

  function ForwardersTo(t: Tracker, s: SetId): set<SetId> {
    set x | x in t.sets && t.sets[x].forward == Some(s)
  }

  function Refs(t: Tracker, s: SetId): nat {
    |RecordsOf(t, s)| + |ForwardersTo(t, s)|
  }

  /** Reference counts are exact, but for one set that still has to give up a reference. */
  predicate RefsOk(t: Tracker, owing: Option<SetId>) {
    forall s <- t.sets :: t.sets[s].refCount == Refs(t, s) + if owing == Some(s) then 1 else 0
  }

  function MaySize(a: AliasSet): nat {
    if a.may then a.setSize else 0
  }

  function SumMay(sets: map<SetId, AliasSet>, list: seq<SetId>): nat
    requires forall s <- list :: s in sets
  {
    if list == [] then 0 else MaySize(sets[list[0]]) + SumMay(sets, list[1..])
  }

  predicate TotalOk(t: Tracker)
    requires ListOk(t)
  {
    t.total == SumMay(t.sets, t.list)
  }

  /** A must-alias set holds pointers that must alias its first one; a may-alias set does not, unless the
      tracker is saturated. */
  predicate MustOk(alias: Oracle, t: Tracker) {
    forall s <- t.sets | t.sets[s].forward.None? && t.any != Some(s) ::
      var ptrs := t.sets[s].ptrs;
      !t.sets[s].may <==> forall i | 0 < i < |ptrs| :: alias(ptrs[0], ptrs[i]) == MustAlias
  }

  /** Only the set of a saturated tracker is taken to alias everything, and it is a may-alias set. */
  predicate AnyOk(t: Tracker) {
    && (forall s <- t.sets :: t.sets[s].aliasAny <==> t.any == Some(s))
    && (t.any.Some? ==> t.any.value in t.sets && t.sets[t.any.value].may)
  }

  /** What always holds, in the middle of an operation too. */
  ghost predicate Core(t: Tracker, owing: Option<SetId>) {
    ListOk(t) && ForwardOk(t) && PtrsOk(t) && RefsOk(t, owing) && TotalOk(t) && AnyOk(t)
  }

  // ----- Connected pointers -----

  ghost predicate IsChain(alias: Oracle, among: set<Value>, chain: seq<Value>) {
    && chain != []
    && (forall v <- chain :: v in among)
    && (forall i | 0 <= i < |chain| - 1 :: alias(chain[i], chain[i + 1]) != NoAlias)
  }

  /** A chain of pointers, each aliasing the next, leads from v to w. */
  ghost predicate Connected(alias: Oracle, among: set<Value>, v: Value, w: Value) {
    exists chain :: IsChain(alias, among, chain) && chain[0] == v && chain[|chain| - 1] == w
  }

  lemma ConnectedSelf(alias: Oracle, among: set<Value>, v: Value)
    requires v in among
    ensures Connected(alias, among, v, v)
  {
    assert IsChain(alias, among, [v]);
  }

  lemma ConnectedStep(alias: Oracle, among: set<Value>, v: Value, w: Value)
    requires v in among && w in among && alias(v, w) != NoAlias
    ensures Connected(alias, among, v, w)
  {
    assert IsChain(alias, among, [v, w]);
  }

  lemma ConnectedTrans(alias: Oracle, among: set<Value>, u: Value, v: Value, w: Value)
    requires Connected(alias, among, u, v) && Connected(alias, among, v, w)
    ensures Connected(alias, among, u, w)
  {
    var c :| IsChain(alias, among, c) && c[0] == u && c[|c| - 1] == v;
    var d :| IsChain(alias, among, d) && d[0] == v && d[|d| - 1] == w;
    var e := c + d[1..];
    forall i | 0 <= i < |e| - 1
      ensures alias(e[i], e[i + 1]) != NoAlias
    {
      if i >= |c| - 1 {
        assert e[i] == d[i - (|c| - 1)] && e[i + 1] == d[i + 1 - (|c| - 1)];
      }
    }
    assert IsChain(alias, among, e);
  }

  lemma ConnectedSym(alias: Oracle, among: set<Value>, v: Value, w: Value)
    requires Consistent(alias) && Connected(alias, among, v, w)
    ensures Connected(alias, among, w, v)
  {
    var c :| IsChain(alias, among, c) && c[0] == v && c[|c| - 1] == w;
    var d := seq(|c|, i requires 0 <= i < |c| => c[|c| - 1 - i]);
    assert IsChain(alias, among, d);
  }

  lemma ConnectedMore(alias: Oracle, among: set<Value>, more: set<Value>, v: Value, w: Value)
    requires among <= more && Connected(alias, among, v, w)
    ensures Connected(alias, more, v, w)
  {
    var c :| IsChain(alias, among, c) && c[0] == v && c[|c| - 1] == w;
    assert IsChain(alias, more, c);
  }

  // ----- Invariants of an unsaturated and of a saturated tracker -----

  /** Pointers in different sets do not alias. */
  predicate Separated(alias: Oracle, t: Tracker) {
    forall s <- t.sets, r <- t.sets | s != r :: forall v <- t.sets[s].ptrs, w <- t.sets[r].ptrs ::
      alias(v, w) == NoAlias
  }

  /** Pointers in one set are connected. */
  ghost predicate Joined(alias: Oracle, t: Tracker, among: set<Value>) {
    forall s <- t.sets :: forall v <- t.sets[s].ptrs, w <- t.sets[s].ptrs :: Connected(alias, among, v, w)
  }

  ghost predicate Inv(alias: Oracle, t: Tracker) {
    && Core(t, None) && Filled(t)
    && match t.any
       case None => MustOk(alias, t) && Separated(alias, t) && Joined(alias, t, t.recs.Keys)
       case Some(a) => forall s <- t.sets | s != a :: t.sets[s].forward.Some?
  }

  lemma InvResolves(alias: Oracle, t: Tracker)
    requires Inv(alias, t)
    ensures ForwardOk(t) && forall v <- t.recs :: t.recs[v] in t.sets
  {
  }

  lemma ChainOf(alias: Oracle, among: set<Value>, v: Value, w: Value) returns (c: seq<Value>)
    requires Connected(alias, among, v, w)
    ensures IsChain(alias, among, c) && c != [] && c[0] == v && c[|c| - 1] == w
  {
    c :| IsChain(alias, among, c) && c[0] == v && c[|c| - 1] == w;
  }

  /** In an unsaturated tracker two pointers resolve to the same set exactly when they are connected: the live
      sets are the connected components. */
  lemma SameSetIffConnected(alias: Oracle, t: Tracker, v: Value, w: Value)
    requires Consistent(alias) && Inv(alias, t) && t.any.None?
    requires v in t.recs && w in t.recs
    ensures Target(t, t.recs[v]) == Target(t, t.recs[w]) <==> Connected(alias, t.recs.Keys, v, w)
  {
    hide *;
    InvResolves(alias, t);
    if Target(t, t.recs[v]) == Target(t, t.recs[w]) {
      SameSetConnected(alias, t, v, w);
    }
    if Connected(alias, t.recs.Keys, v, w) {
      var c := ChainOf(alias, t.recs.Keys, v, w);
      ChainStays(alias, t, c, |c| - 1);
    }
  }

  lemma SameSetConnected(alias: Oracle, t: Tracker, v: Value, w: Value)
    requires Inv(alias, t) && t.any.None?
    requires v in t.recs && w in t.recs && Target(t, t.recs[v]) == Target(t, t.recs[w])
    ensures Connected(alias, t.recs.Keys, v, w)
  {
    var s := Target(t, t.recs[v]);
    assert v in t.sets[s].ptrs && w in t.sets[s].ptrs;
  }

  lemma {:induction false} ChainStays(alias: Oracle, t: Tracker, c: seq<Value>, n: nat)
    requires Inv(alias, t) && t.any.None?
    requires IsChain(alias, t.recs.Keys, c) && n < |c|
    ensures c[0] in t.recs && c[n] in t.recs && Target(t, t.recs[c[0]]) == Target(t, t.recs[c[n]])
  {
    if n > 0 {
      ChainStays(alias, t, c, n - 1);
      assert c[n - 1] in t.recs && c[n] in t.recs;
      var s, r := Target(t, t.recs[c[n - 1]]), Target(t, t.recs[c[n]]);
      assert c[n - 1] in t.sets[s].ptrs && c[n] in t.sets[r].ptrs;
      assert alias(c[n - 1], c[n - 1 + 1]) != NoAlias;
    }
  }
}
