/** Choosing the headers of a strongly connected part of the graph that has several entries. */
module IrreducibleHeaders {
  import opened Basics

  /** Nodes are numbered in block order; each has a list of predecessors, of which some may lie outside the part. */
  type Node = nat
  type Preds = Node -> seq<Node>

  predicate IsEntry(preds: Preds, scc: set<Node>, n: Node) {
    exists p | p in preds(n) :: p !in scc
  }

  /** The nodes of the part, given in any order. */
  function Part(order: seq<Node>): set<Node> {
    set n | n in order
  }

  /** An edge that does not go forward, and not from an entry. */
  predicate IsBackward(preds: Preds, scc: set<Node>, n: Node, p: Node) {
    p in preds(n) && p >= n && !(p in scc && IsEntry(preds, scc, p))
  }

  predicate GoneBackTo(preds: Preds, scc: set<Node>, n: Node) {
    exists p | p in preds(n) :: IsBackward(preds, scc, n, p)
  }

  predicate IsExtra(preds: Preds, scc: set<Node>, n: Node) {
    !IsEntry(preds, scc, n) && GoneBackTo(preds, scc, n)
  }

  predicate IsHeader(preds: Preds, scc: set<Node>, n: Node) {
    IsEntry(preds, scc, n) || IsExtra(preds, scc, n)
  }

  // ----- Sorting -----

  type Sorter = seq<Node> -> seq<Node>

  predicate Ascending(ns: seq<Node>) {
    forall i, j | 0 <= i < j < |ns| :: ns[i] <= ns[j]
  }

  predicate StrictlyAscending(ns: seq<Node>) {
    forall i, j | 0 <= i < j < |ns| :: ns[i] < ns[j]
  }

  ghost predicate SortsOne(sort: Sorter, ns: seq<Node>) {
    Ascending(sort(ns)) && multiset(sort(ns)) == multiset(ns)
  }

  ghost predicate Sorts(sort: Sorter) {
    forall ns :: SortsOne(sort, ns)
  }

  lemma SortedDistinct(sort: Sorter, ns: seq<Node>)
    requires Sorts(sort) && NoDuplicates(ns)
    ensures StrictlyAscending(sort(ns)) && forall n :: n in sort(ns) <==> n in ns
  {
    assert SortsOne(sort, ns);
    var r := sort(ns);
    forall n
      ensures n in r <==> n in ns
    {
      assert n in r <==> n in multiset(r);
      assert n in ns <==> n in multiset(ns);
    }
    CountsAtMostOne(ns);
    forall i, j | 0 <= i < j < |r|
      ensures r[i] < r[j]
    {
      TwiceCounts(r, i, j);
      assert multiset(r)[r[i]] == multiset(ns)[r[i]];
    }
  }

  lemma TwiceCounts(r: seq<Node>, i: nat, j: nat)
    requires i < j < |r|
    ensures r[i] == r[j] ==> multiset(r)[r[i]] >= 2
  {
    assert r == r[..j] + [r[j]] + r[j + 1..];
    assert r[i] in r[..j];
    assert multiset(r) == multiset(r[..j]) + multiset{r[j]} + multiset(r[j + 1..]);
    assert r[i] in multiset(r[..j]);
  }

  lemma {:induction false} CountsAtMostOne(ns: seq<Node>)
    requires NoDuplicates(ns)
    ensures forall n :: multiset(ns)[n] <= 1
  {
    if ns != [] {
      var k := |ns| - 1;
      CountsAtMostOne(ns[..k]);
      assert ns == ns[..k] + [ns[k]];
      assert ns[k] !in ns[..k];
      assert ns[k] !in multiset(ns[..k]);
    }
  }

  // ----- The choice -----

  /** An edge from outside enters at n. */
  method HasEntryEdge(preds: Preds, scc: set<Node>, n: Node) returns (found: bool)
    ensures found <==> IsEntry(preds, scc, n)
  {
    var ps: seq<Node> := preds(n);
    for i := 0 to |ps|
      invariant forall k | 0 <= k < i :: ps[k] in scc
    {
      if ps[i] in scc {
        continue;
      }
      return true;
    }
    return false;
  }

  method HasBackwardEdge(preds: Preds, inSCC: map<Node, bool>, n: Node) returns (found: bool)
    requires forall p | p in inSCC :: inSCC[p] <==> IsEntry(preds, inSCC.Keys, p)
    ensures found <==> GoneBackTo(preds, inSCC.Keys, n)
  {
    var ps: seq<Node> := preds(n);
    for i := 0 to |ps|
      invariant forall k | 0 <= k < i :: !IsBackward(preds, inSCC.Keys, n, ps[k])
    {
      if ps[i] < n {
        continue;
      }
      if ps[i] in inSCC && inSCC[ps[i]] {
        continue;
      }
      assert ps[i] in ps && IsBackward(preds, inSCC.Keys, n, ps[i]);
      return true;
    }
    return false;
  }

  /** The first entries of `order` that satisfy p, in order. */
  ghost predicate Picked(ns: seq<Node>, order: seq<Node>, i: nat, p: Node -> bool)
    requires i <= |order|
  {
    && NoDuplicates(ns)
    && forall n :: n in ns <==> exists k | 0 <= k < i :: order[k] == n && p(n)
  }

  ghost function Entry(preds: Preds, scc: set<Node>): Node -> bool {
    (n: Node) => IsEntry(preds, scc, n)
  }

  ghost function Extra(preds: Preds, scc: set<Node>): Node -> bool {
    (n: Node) => IsExtra(preds, scc, n)
  }

  ghost function Other(preds: Preds, scc: set<Node>): Node -> bool {
    (n: Node) => !IsHeader(preds, scc, n)
  }

  lemma PickNext(ns: seq<Node>, order: seq<Node>, i: nat, p: Node -> bool)
    requires i < |order| && NoDuplicates(order) && Picked(ns, order, i, p)
    ensures Picked(if p(order[i]) then ns + [order[i]] else ns, order, i + 1, p)
    ensures order[i] !in ns
  {
    var n := order[i];
    assert n !in ns;
    var ns' := if p(n) then ns + [n] else ns;
    forall x
      ensures x in ns' <==> exists k | 0 <= k < i + 1 :: order[k] == x && p(x)
    {
      if x in ns {
        var k :| 0 <= k < i && order[k] == x && p(x);
      }
    }
  }

  /** The entries of the part. */
  method FindEntries(preds: Preds, order: seq<Node>, scc: set<Node>)
    returns (inSCC: map<Node, bool>, headers: seq<Node>)
    requires NoDuplicates(order) && scc == Part(order)
    ensures inSCC.Keys == scc && forall p | p in inSCC :: inSCC[p] <==> IsEntry(preds, scc, p)
    ensures Picked(headers, order, |order|, Entry(preds, scc))
  {
    inSCC, headers := map n | n in scc :: false, [];
    for i := 0 to |order|
      invariant inSCC.Keys == scc
      invariant forall k | 0 <= k < |order| :: inSCC[order[k]] <==> k < i && IsEntry(preds, scc, order[k])
      invariant Picked(headers, order, i, Entry(preds, scc))
    {
      PickNext(headers, order, i, Entry(preds, scc));
      var found := HasEntryEdge(preds, scc, order[i]);
      if found {
        inSCC := inSCC[order[i] := true];
        headers := headers + [order[i]];
      }
    }
  }

  ghost predicate EntriesAndExtras(headers: seq<Node>, entries: seq<Node>, order: seq<Node>, preds: Preds,
                                   scc: set<Node>) {
    exists extras :: headers == entries + extras && Picked(extras, order, |order|, Extra(preds, scc))
  }

  lemma HeadersAre(headers: seq<Node>, entries: seq<Node>, order: seq<Node>, preds: Preds, scc: set<Node>)
    requires EntriesAndExtras(headers, entries, order, preds, scc)
    requires Picked(entries, order, |order|, Entry(preds, scc))
    ensures NoDuplicates(headers) && forall n :: n in headers <==> n in order && IsHeader(preds, scc, n)
  {
    var extras :| headers == entries + extras && Picked(extras, order, |order|, Extra(preds, scc));
    PickedAre(entries, order, Entry(preds, scc));
    PickedAre(extras, order, Extra(preds, scc));
    forall n
      ensures n in headers <==> n in order && IsHeader(preds, scc, n)
    {
      assert n in headers <==> n in entries || n in extras;
    }
    forall i, j | 0 <= i < j < |headers|
      ensures headers[i] != headers[j]
    {
      if i < |entries| <= j {
        assert headers[i] in entries && headers[j] in extras;
      }
    }
  }

  /** The extra headers among the nodes that are not entries, and the other nodes. */
  method FindExtras(preds: Preds, order: seq<Node>, inSCC: map<Node, bool>, entries: seq<Node>)
    returns (headers: seq<Node>, others: seq<Node>)
    requires NoDuplicates(order) && inSCC.Keys == Part(order)
    requires forall p | p in inSCC :: inSCC[p] <==> IsEntry(preds, inSCC.Keys, p)
    requires Picked(entries, order, |order|, Entry(preds, inSCC.Keys)) && entries != []
    ensures EntriesAndExtras(headers, entries, order, preds, inSCC.Keys)
    ensures Picked(others, order, |order|, Other(preds, inSCC.Keys))
  {
    hide Picked, IsEntry, GoneBackTo, Entry, Extra, Other;
    ghost var scc := inSCC.Keys;
    ghost var extras: seq<Node> := [];
    headers, others := entries, [];
    NothingPicked(order, Extra(preds, scc));
    NothingPicked(order, Other(preds, scc));
    for i := 0 to |order|
      invariant headers == entries + extras
      invariant Picked(extras, order, i, Extra(preds, scc))
      invariant Picked(others, order, i, Other(preds, scc))
    {
      var n := order[i];
      PickNext(extras, order, i, Extra(preds, scc));
      PickNext(others, order, i, Other(preds, scc));
      Choices(preds, scc, n);
      if inSCC[n] {
        continue;
      }
      NotAnEntry(entries, order, Entry(preds, scc), n);
      var found := HasBackwardEdge(preds, inSCC, n);
      if found {
        headers := headers + [n];
        extras := extras + [n];
      }
      assert headers[|headers| - 1] == if extras == [] then entries[|entries| - 1] else extras[|extras| - 1];
      if headers[|headers| - 1] == n {
        continue;
      }
      others := others + [n];
    }
    assert EntriesAndExtras(headers, entries, order, preds, scc);
  }

  lemma NothingPicked(order: seq<Node>, p: Node -> bool)
    ensures Picked([], order, 0, p)
  {
  }

  lemma Choices(preds: Preds, scc: set<Node>, n: Node)
    ensures Entry(preds, scc)(n) <==> IsEntry(preds, scc, n)
    ensures Extra(preds, scc)(n) <==> !IsEntry(preds, scc, n) && GoneBackTo(preds, scc, n)
    ensures Other(preds, scc)(n) <==> !IsEntry(preds, scc, n) && !GoneBackTo(preds, scc, n)
  {
  }

  lemma NotAnEntry(entries: seq<Node>, order: seq<Node>, p: Node -> bool, n: Node)
    requires Picked(entries, order, |order|, p) && !p(n)
    ensures n !in entries
  {
  }

  /** The headers are all the entries, and what else has an edge going back to it from a node that is no entry; the
      others are the rest. Both come sorted. There must be an entry. */
  method FindIrreducibleHeaders(preds: Preds, order: seq<Node>, sort: Sorter)
    returns (headers: seq<Node>, others: seq<Node>)
    requires NoDuplicates(order) && Sorts(sort)
    requires exists n | n in order :: IsEntry(preds, Part(order), n)
    ensures StrictlyAscending(headers) && StrictlyAscending(others)
    ensures forall n :: n in headers <==> n in order && IsHeader(preds, Part(order), n)
    ensures forall n :: n in others <==> n in order && !IsHeader(preds, Part(order), n)
  {
    ghost var scc := Part(order);
    var inSCC;
    inSCC, headers := FindEntries(preds, order, Part(order));
    ghost var entries := headers;
    PickedAre(entries, order, Entry(preds, scc));
    others := [];
    if |headers| == |inSCC| {
      AllEntries(headers, order, preds, scc);
      headers := sort(headers);
      SortedDistinct(sort, entries);
      return;
    }
    headers, others := FindExtras(preds, order, inSCC, headers);
    HeadersAre(headers, entries, order, preds, scc);
    PickedAre(others, order, Other(preds, scc));
    SortedDistinct(sort, headers);
    SortedDistinct(sort, others);
    headers, others := sort(headers), sort(others);
  }

  lemma PickedAre(ns: seq<Node>, order: seq<Node>, p: Node -> bool)
    requires Picked(ns, order, |order|, p)
    ensures NoDuplicates(ns) && forall n :: n in ns <==> n in order && p(n)
  {
  }

  lemma AllEntries(entries: seq<Node>, order: seq<Node>, preds: Preds, scc: set<Node>)
    requires NoDuplicates(entries) && scc == Part(order) && |entries| == |scc|
    requires forall n :: n in entries <==> n in order && IsEntry(preds, scc, n)
    ensures forall n | n in order :: IsEntry(preds, scc, n)
  {
    CountDistinct(entries);
    assert Part(entries) <= scc;
    SubsetSameSize(Part(entries), scc);
    assert forall n | n in order :: n in Part(entries);
  }

  lemma {:induction false} CountDistinct(ns: seq<Node>)
    requires NoDuplicates(ns)
    ensures |Part(ns)| == |ns|
  {
    if ns == [] {
      assert Part(ns) == {};
    } else {
      var k := |ns| - 1;
      CountDistinct(ns[..k]);
      assert ns == ns[..k] + [ns[k]];
      assert Part(ns) == Part(ns[..k]) + {ns[k]};
      assert ns[k] !in ns[..k];
    }
  }

  lemma SubsetSameSize(a: set<Node>, b: set<Node>)
    requires a <= b && |a| == |b|
    ensures a == b
  {
    assert b == a + (b - a);
  }

  // ----- What it is for -----

  /** Every edge between two nodes that are not headers goes forward. */
  lemma OthersGoForward(preds: Preds, scc: set<Node>, p: Node, n: Node)
    requires p in scc && n in scc && p in preds(n)
    requires !IsHeader(preds, scc, p) && !IsHeader(preds, scc, n)
    ensures p < n
  {
    assert !IsBackward(preds, scc, n, p);
  }

  /** A closed walk within the part, along one edge or more. */
  ghost predicate IsCycle(preds: Preds, scc: set<Node>, walk: seq<Node>) {
    && |walk| > 1 && walk[0] == walk[|walk| - 1]
    && (forall i | 0 <= i < |walk| :: walk[i] in scc)
    && (forall i | 0 < i < |walk| :: walk[i - 1] in preds(walk[i]))
  }

  /** So every cycle within the part goes through a header. */
  lemma CyclesMeetHeaders(preds: Preds, scc: set<Node>, walk: seq<Node>)
    requires IsCycle(preds, scc, walk)
    ensures exists i :: 0 <= i < |walk| && IsHeader(preds, scc, walk[i])
  {
    if forall i | 0 <= i < |walk| :: !IsHeader(preds, scc, walk[i]) {
      WalkRises(preds, scc, walk, |walk| - 1);
      assert false;
    }
  }

  lemma {:induction false} WalkRises(preds: Preds, scc: set<Node>, walk: seq<Node>, i: nat)
    requires IsCycle(preds, scc, walk) && 0 < i < |walk|
    requires forall k | 0 <= k < |walk| :: !IsHeader(preds, scc, walk[k])
    ensures walk[0] < walk[i]
  {
    if i > 1 {
      WalkRises(preds, scc, walk, i - 1);
    }
    OthersGoForward(preds, scc, walk[i - 1], walk[i]);
  }
}
