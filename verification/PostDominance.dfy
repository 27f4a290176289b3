/** Marking the blocks that certainly end in unreachable code, and those that certainly come to a cold call. */
module PostDominance {
  import opened Cfg

  /** How a block ends. An invoke goes on to a normal block, or unwinds to another. */
  datatype Terminator = Unreachable | Deoptimize | Return | Jump(targets: seq<Block>) | Invoke(normal: Block,
                                                                                               unwind: Block)

  datatype BlockData = BlockData(end: Terminator, callsCold: bool)

  type Function = seq<BlockData>

  function Successors(t: Terminator): seq<Block> {
    match t
    case Jump(targets) => targets
    case Invoke(normal, unwind) => [normal, unwind]
    case _ => []
  }

  /** The edges taken when nothing unwinds. */
  function NormalSuccessors(t: Terminator): seq<Block> {
    if t.Invoke? then [t.normal] else Successors(t)
  }

  /** What the two lists hold. */
  lemma EdgesAre(t: Terminator, b: Block)
    ensures b in NormalSuccessors(t) <==> (t.Jump? && b in t.targets) || (t.Invoke? && b == t.normal)
    ensures b in Successors(t) <==> (t.Jump? && b in t.targets) || (t.Invoke? && (b == t.normal || b == t.unwind))
  {
    match t
    case Jump(_) =>
    case Invoke(_, _) =>
    case _ =>
  }

  predicate IsFunction(f: Function) {
    forall b, s | 0 <= b < |f| && s in Successors(f[b].end) :: s < |f|
  }

  /** A block is marked when it ends in unreachable code, or goes on normally to marked blocks only. */
  predicate EndsUnreachable(f: Function, marked: set<Block>, b: Block)
    requires b < |f|
  {
    var t := f[b].end;
    if Successors(t) == [] then t.Unreachable? || t.Deoptimize?
    else forall s | s in NormalSuccessors(t) :: s in marked
  }

  /** A block that goes on at all is marked when it calls a cold function, or goes on normally to marked blocks only. */
  predicate ComesToCold(f: Function, marked: set<Block>, b: Block)
    requires b < |f|
  {
    var t := f[b].end;
    Successors(t) != [] && (f[b].callsCold || forall s | s in NormalSuccessors(t) :: s in marked)
  }

  // ----- The walk -----

  predicate IsOrder(f: Function, order: seq<Block>) {
    && (forall i | 0 <= i < |order| :: order[i] < |f|)
    && forall i, j | 0 <= i < j < |order| :: order[i] != order[j]
  }

  ghost function Visited(order: seq<Block>, i: nat): set<Block>
    requires i <= |order|
  {
    set k | 0 <= k < i :: order[k]
  }

  /** Every visited block is marked just when it should be, given the marks on the blocks visited before it. */
  ghost predicate Marks(order: seq<Block>, i: nat, marked: set<Block>, rule: (set<Block>, Block) -> bool)
    requires i <= |order|
  {
    && marked <= Visited(order, i)
    && forall k | 0 <= k < i :: order[k] in marked <==> rule(marked * Visited(order, k), order[k])
  }

  ghost function UnreachableRule(f: Function): (set<Block>, Block) -> bool {
    (marked: set<Block>, b: Block) => b < |f| && EndsUnreachable(f, marked, b)
  }

  ghost function ColdRule(f: Function): (set<Block>, Block) -> bool {
    (marked: set<Block>, b: Block) => b < |f| && ComesToCold(f, marked, b)
  }

  lemma MarkNext(order: seq<Block>, i: nat, marked: set<Block>, rule: (set<Block>, Block) -> bool)
    requires i < |order| && Marks(order, i, marked, rule)
    requires forall j, k | 0 <= j < k < |order| :: order[j] != order[k]
    ensures order[i] !in marked
    ensures Marks(order, i + 1, if rule(marked, order[i]) then marked + {order[i]} else marked, rule)
  {
    var marked' := if rule(marked, order[i]) then marked + {order[i]} else marked;
    assert order[i] !in Visited(order, i);
    forall k | 0 <= k < i + 1
      ensures order[k] in marked' <==> rule(marked' * Visited(order, k), order[k])
    {
      assert order[i] !in Visited(order, k);
      assert marked' * Visited(order, k) == marked * Visited(order, k);
      if k == i {
        assert marked * Visited(order, i) == marked;
      }
    }
  }

  class BranchProbabilityInfo {
    var postDominatedByUnreachable: set<Block>
    var postDominatedByColdCall: set<Block>

    constructor ()
      ensures postDominatedByUnreachable == {} && postDominatedByColdCall == {}
    {
      postDominatedByUnreachable, postDominatedByColdCall := {}, {};
    }

    method UpdatePostDominatedByUnreachable(f: Function, b: Block)
      requires b < |f|
      modifies this`postDominatedByUnreachable
      ensures postDominatedByUnreachable ==
              old(postDominatedByUnreachable) + if EndsUnreachable(f, old(postDominatedByUnreachable), b) then {b}
                else {}
    {
      var t := f[b].end;
      if Successors(t) == [] {
        if t.Unreachable? || t.Deoptimize? {
          postDominatedByUnreachable := postDominatedByUnreachable + {b};
        }
        return;
      }
      if t.Invoke? {
        if t.normal in postDominatedByUnreachable {
          postDominatedByUnreachable := postDominatedByUnreachable + {b};
        }
        return;
      }
      var ss := Successors(t);
      for i := 0 to |ss|
        invariant forall k | 0 <= k < i :: ss[k] in postDominatedByUnreachable
        invariant postDominatedByUnreachable == old(postDominatedByUnreachable)
      {
        if ss[i] !in postDominatedByUnreachable {
          assert ss[i] in NormalSuccessors(t);
          return;
        }
      }
      postDominatedByUnreachable := postDominatedByUnreachable + {b};
    }

    method UpdatePostDominatedByColdCall(f: Function, b: Block)
      requires b < |f| && b !in postDominatedByColdCall
      modifies this`postDominatedByColdCall
      ensures postDominatedByColdCall ==
              old(postDominatedByColdCall) + if ComesToCold(f, old(postDominatedByColdCall), b) then {b} else {}
    {
      var t := f[b].end;
      var ss := Successors(t);
      if ss == [] {
        return;
      }
      if forall s | s in ss :: s in postDominatedByColdCall {
        postDominatedByColdCall := postDominatedByColdCall + {b};
        return;
      }
      if t.Invoke? && t.normal in postDominatedByColdCall {
        postDominatedByColdCall := postDominatedByColdCall + {b};
        return;
      }
      if f[b].callsCold {
        postDominatedByColdCall := postDominatedByColdCall + {b};
      }
    }

    /** Walk the blocks in the given order, post-order in the original, and mark them. */
    method Walk(f: Function, order: seq<Block>)
      requires IsFunction(f) && IsOrder(f, order)
      requires postDominatedByUnreachable == {} && postDominatedByColdCall == {}
      modifies this
      ensures Marks(order, |order|, postDominatedByUnreachable, UnreachableRule(f))
      ensures Marks(order, |order|, postDominatedByColdCall, ColdRule(f))
    {
      for i := 0 to |order|
        invariant Marks(order, i, postDominatedByUnreachable, UnreachableRule(f))
        invariant Marks(order, i, postDominatedByColdCall, ColdRule(f))
      {
        MarkNext(order, i, postDominatedByUnreachable, UnreachableRule(f));
        MarkNext(order, i, postDominatedByColdCall, ColdRule(f));
        UpdatePostDominatedByUnreachable(f, order[i]);
        UpdatePostDominatedByColdCall(f, order[i]);
      }
    }
  }

  // ----- What a mark means -----

  ghost predicate IsNormalPath(f: Function, path: seq<Block>) {
    && path != []
    && (forall i | 0 <= i < |path| :: path[i] < |f|)
    && forall i | 0 <= i < |path| - 1 :: path[i + 1] in NormalSuccessors(f[path[i]].end)
  }

  /** Whatever follows the k-th block normally is marked and was visited before it. */
  ghost predicate GoesBack(f: Function, order: seq<Block>, marked: set<Block>, k: nat)
    requires IsOrder(f, order) && k < |order|
  {
    forall s | s in NormalSuccessors(f[order[k]].end) :: s in marked && s in Visited(order, k)
  }

  lemma {:induction false} PathGoesBack(f: Function, order: seq<Block>, marked: set<Block>, path: seq<Block>, k: nat,
                                        i: nat)
    returns (j: nat)
    requires IsOrder(f, order) && IsNormalPath(f, path) && i < |path|
    requires k < |order| && path[0] == order[k] && path[0] in marked
    requires forall h, m | 0 <= h < |order| && 0 <= m < i && order[h] == path[m] && path[m] in marked ::
               GoesBack(f, order, marked, h)
    ensures j + i <= k && path[i] == order[j] && path[i] in marked
  {
    j := k;
    if i > 0 {
      var h := PathGoesBack(f, order, marked, path, k, i - 1);
      assert GoesBack(f, order, marked, h);
      assert path[i - 1 + 1] in NormalSuccessors(f[path[i - 1]].end);
      j :| 0 <= j < h && order[j] == path[i];
    }
  }

  /** A walk that only goes back is no longer than the walk of the blocks, and never comes to a block twice. */
  lemma PathGoesBackEverywhere(f: Function, order: seq<Block>, marked: set<Block>, path: seq<Block>, k: nat)
    requires IsOrder(f, order) && IsNormalPath(f, path)
    requires k < |order| && path[0] == order[k] && path[0] in marked
    requires forall h, m | 0 <= h < |order| && 0 <= m < |path| && order[h] == path[m] && path[m] in marked ::
               GoesBack(f, order, marked, h) || NormalSuccessors(f[path[m]].end) == []
    ensures |path| <= |order|
    ensures forall i | 0 <= i < |path| :: path[i] in marked
    ensures forall i, j | 0 <= i < j < |path| :: path[i] != path[j]
  {
    forall h, m | 0 <= h < |order| && 0 <= m < |path| - 1 && order[h] == path[m] && path[m] in marked
      ensures GoesBack(f, order, marked, h)
    {
      assert path[m + 1] in NormalSuccessors(f[path[m]].end);
    }
    forall i | 0 <= i < |path|
      ensures path[i] in marked && i <= k
    {
      var j := PathGoesBack(f, order, marked, path, k, i);
    }
    forall i, j | 0 <= i < j < |path|
      ensures path[i] != path[j]
    {
      NoReturn(f, order, marked, path, k, i, j);
    }
    assert path[|path| - 1] in marked;
  }

  lemma NoReturn(f: Function, order: seq<Block>, marked: set<Block>, path: seq<Block>, k: nat, i: nat, j: nat)
    requires IsOrder(f, order) && IsNormalPath(f, path) && i < j < |path|
    requires k < |order| && path[0] == order[k] && path[0] in marked
    requires forall h, m | 0 <= h < |order| && 0 <= m < |path| - 1 && order[h] == path[m] && path[m] in marked ::
               GoesBack(f, order, marked, h)
    ensures path[i] != path[j]
  {
    var h := PathGoesBack(f, order, marked, path, k, i);
    var tail := path[i..];
    assert IsNormalPath(f, tail) by {
      forall m | 0 <= m < |tail| - 1
        ensures tail[m + 1] in NormalSuccessors(f[tail[m]].end)
      {
        assert path[i + m + 1] in NormalSuccessors(f[path[i + m]].end);
      }
    }
    var l := PathGoesBack(f, order, marked, tail, h, j - i);
    assert tail[j - i] == path[j];
  }

  lemma VisitedWhere(order: seq<Block>, n: nat, b: Block) returns (k: nat)
    requires n <= |order| && b in Visited(order, n)
    ensures k < n && order[k] == b
  {
    k :| 0 <= k < n && order[k] == b;
  }

  /** Every normal path from a block marked unreachable runs through marked blocks only, is no longer than the walk so
      far, never cycles, and goes on unless it has ended in unreachable code. */
  lemma MarkedEndsUnreachable(f: Function, order: seq<Block>, marked: set<Block>, path: seq<Block>)
    requires IsFunction(f) && IsOrder(f, order) && Marks(order, |order|, marked, UnreachableRule(f))
    requires IsNormalPath(f, path) && path[0] in marked
    ensures |path| <= |order|
    ensures forall i, j | 0 <= i < j < |path| :: path[i] != path[j]
    ensures var last := f[path[|path| - 1]].end;
            NormalSuccessors(last) == [] ==> last.Unreachable? || last.Deoptimize?
  {
    var k := VisitedWhere(order, |order|, path[0]);
    forall h | 0 <= h < |order| && order[h] in marked
      ensures GoesBack(f, order, marked, h) || NormalSuccessors(f[order[h]].end) == []
      ensures EndsUnreachable(f, marked * Visited(order, h), order[h])
    {
      assert UnreachableRule(f)(marked * Visited(order, h), order[h]);
    }
    PathGoesBackEverywhere(f, order, marked, path, k);
    var last := path[|path| - 1];
    assert last in marked;
    var h := VisitedWhere(order, |order|, last);
    assert EndsUnreachable(f, marked * Visited(order, h), last);
  }

  /** A normal path from a block marked cold that meets no cold call is no longer than the walk so far, never cycles,
      and goes on: every way on comes to a cold call. */
  lemma MarkedComesToCold(f: Function, order: seq<Block>, marked: set<Block>, path: seq<Block>)
    requires IsFunction(f) && IsOrder(f, order) && Marks(order, |order|, marked, ColdRule(f))
    requires IsNormalPath(f, path) && path[0] in marked
    requires forall i | 0 <= i < |path| :: !f[path[i]].callsCold
    ensures |path| <= |order|
    ensures forall i, j | 0 <= i < j < |path| :: path[i] != path[j]
    ensures NormalSuccessors(f[path[|path| - 1]].end) != []
  {
    var k := VisitedWhere(order, |order|, path[0]);
    forall h | 0 <= h < |order| && order[h] in marked
      ensures f[order[h]].callsCold || GoesBack(f, order, marked, h)
      ensures Successors(f[order[h]].end) != []
    {
      assert ColdRule(f)(marked * Visited(order, h), order[h]);
    }
    PathGoesBackEverywhere(f, order, marked, path, k);
    var last := path[|path| - 1];
    assert last in marked;
    var h := VisitedWhere(order, |order|, last);
    assert Successors(f[order[h]].end) != [];
  }

  // ----- A mark says no less than that -----

  /** The second block was visited before the first. */
  ghost predicate StepsBack(order: seq<Block>, a: Block, b: Block) {
    exists k | 0 <= k < |order| :: order[k] == a && b in Visited(order, k)
  }

  /** The last edge of the path leads to a block that was not visited before, as an edge that closes a cycle does. */
  ghost predicate TurnsBack(order: seq<Block>, path: seq<Block>) {
    |path| > 1 && !StepsBack(order, path[|path| - 2], path[|path| - 1])
  }

  ghost predicate EndsOrGoesOn(f: Function, path: seq<Block>)
    requires IsNormalPath(f, path)
  {
    var last := f[path[|path| - 1]].end;
    last.Unreachable? || last.Deoptimize? || NormalSuccessors(last) != []
  }

  lemma PathGrows(f: Function, b: Block, rest: seq<Block>)
    requires IsNormalPath(f, rest) && b < |f| && rest[0] in NormalSuccessors(f[b].end)
    ensures IsNormalPath(f, [b] + rest)
  {
    var path := [b] + rest;
    forall i | 0 <= i < |path| - 1
      ensures path[i + 1] in NormalSuccessors(f[path[i]].end)
    {
      if i > 0 {
        assert rest[i - 1 + 1] in NormalSuccessors(f[rest[i - 1]].end);
      }
    }
  }

  lemma EdgePath(f: Function, b: Block, s: Block)
    requires IsFunction(f) && b < |f| && s in NormalSuccessors(f[b].end)
    ensures IsNormalPath(f, [b, s])
  {
    assert s in Successors(f[b].end);
  }

  lemma PathTail(f: Function, path: seq<Block>)
    requires IsNormalPath(f, path) && |path| > 1
    ensures IsNormalPath(f, path[1..]) && path[1] in NormalSuccessors(f[path[0]].end)
  {
    assert path[0 + 1] in NormalSuccessors(f[path[0]].end);
    var rest := path[1..];
    forall i | 0 <= i < |rest| - 1
      ensures rest[i + 1] in NormalSuccessors(f[rest[i]].end)
    {
      assert path[i + 1 + 1] in NormalSuccessors(f[path[i + 1]].end);
    }
  }

  lemma StepNotBack(order: seq<Block>, k: nat, s: Block)
    requires k < |order| && s !in Visited(order, k) && forall i, j | 0 <= i < j < |order| :: order[i] != order[j]
    ensures !StepsBack(order, order[k], s)
  {
  }

  /** From every block that is not marked, some normal path ends in code that is not unreachable, or goes on to a block
      that was not visited before. */
  lemma {:induction false} UnmarkedEscapes(f: Function, order: seq<Block>, marked: set<Block>, k: nat)
    returns (path: seq<Block>)
    requires IsFunction(f) && IsOrder(f, order) && Marks(order, |order|, marked, UnreachableRule(f))
    requires k < |order| && order[k] !in marked
    ensures IsNormalPath(f, path) && path[0] == order[k]
    ensures !EndsOrGoesOn(f, path) || TurnsBack(order, path)
    decreases k
  {
    var b := order[k];
    assert !UnreachableRule(f)(marked * Visited(order, k), b);
    if Successors(f[b].end) == [] {
      path := [b];
    } else {
      var s :| s in NormalSuccessors(f[b].end) && s !in marked * Visited(order, k);
      if s in Visited(order, k) {
        var j := VisitedWhere(order, k, s);
        var rest := UnmarkedEscapes(f, order, marked, j);
        path := [b] + rest;
        PathGrows(f, b, rest);
      } else {
        path := [b, s];
        EdgePath(f, b, s);
        StepNotBack(order, k, s);
      }
    }
  }

  /** A block is marked unreachable exactly when every normal path from it goes from each block to one visited before,
      and goes on until it ends in unreachable code. This holds of any order, and of functions with cycles. */
  lemma MarkedIffEndsUnreachable(f: Function, order: seq<Block>, marked: set<Block>, k: nat)
    requires IsFunction(f) && IsOrder(f, order) && Marks(order, |order|, marked, UnreachableRule(f)) && k < |order|
    ensures order[k] in marked <==>
            forall path | IsNormalPath(f, path) && path[0] == order[k] ::
              EndsOrGoesOn(f, path) && !TurnsBack(order, path)
  {
    if order[k] in marked {
      forall path | IsNormalPath(f, path) && path[0] == order[k]
        ensures EndsOrGoesOn(f, path) && !TurnsBack(order, path)
      {
        MarkedEndsUnreachable(f, order, marked, path);
        MarkedStepsBack(f, order, marked, path, k);
      }
    } else {
      var path := UnmarkedEscapes(f, order, marked, k);
    }
  }

  lemma {:induction false} MarkedStepsBack(f: Function, order: seq<Block>, marked: set<Block>, path: seq<Block>, k: nat)
    requires IsFunction(f) && IsOrder(f, order) && Marks(order, |order|, marked, UnreachableRule(f))
    requires IsNormalPath(f, path) && k < |order| && path[0] == order[k] && path[0] in marked
    ensures !TurnsBack(order, path)
    decreases |path|
  {
    assert UnreachableRule(f)(marked * Visited(order, k), order[k]);
    if |path| > 1 {
      PathTail(f, path);
      assert path[1] in marked * Visited(order, k);
      if |path| > 2 {
        var j := VisitedWhere(order, k, path[1]);
        MarkedStepsBack(f, order, marked, path[1..], j);
      }
    }
  }

  /** A normal path that comes to no cold call before its last block, and there ends, or has gone on to a block that was
      not visited before. Calls in the last block do not count. */
  ghost predicate AvoidsCold(f: Function, order: seq<Block>, path: seq<Block>)
    requires IsNormalPath(f, path)
  {
    && (Successors(f[path[|path| - 1]].end) == [] || TurnsBack(order, path))
    && forall i | 0 <= i < |path| - 1 :: !f[path[i]].callsCold
  }

  lemma {:induction false} UnmarkedAvoidsCold(f: Function, order: seq<Block>, marked: set<Block>, k: nat)
    returns (path: seq<Block>)
    requires IsFunction(f) && IsOrder(f, order) && Marks(order, |order|, marked, ColdRule(f))
    requires k < |order| && order[k] !in marked
    ensures IsNormalPath(f, path) && path[0] == order[k] && AvoidsCold(f, order, path)
    decreases k
  {
    var b := order[k];
    assert !ColdRule(f)(marked * Visited(order, k), b);
    if Successors(f[b].end) == [] {
      path := [b];
    } else {
      var s :| s in NormalSuccessors(f[b].end) && s !in marked * Visited(order, k);
      if s in Visited(order, k) {
        var j := VisitedWhere(order, k, s);
        var rest := UnmarkedAvoidsCold(f, order, marked, j);
        path := [b] + rest;
        PathGrows(f, b, rest);
      } else {
        path := [b, s];
        EdgePath(f, b, s);
        StepNotBack(order, k, s);
      }
    }
  }

  /** A block is marked cold exactly when no normal path from it avoids cold calls. */
  lemma MarkedIffComesToCold(f: Function, order: seq<Block>, marked: set<Block>, k: nat)
    requires IsFunction(f) && IsOrder(f, order) && Marks(order, |order|, marked, ColdRule(f)) && k < |order|
    ensures order[k] in marked <==>
            !exists path :: IsNormalPath(f, path) && path[0] == order[k] && AvoidsCold(f, order, path)
  {
    if order[k] in marked {
      forall path | IsNormalPath(f, path) && path[0] == order[k]
        ensures !AvoidsCold(f, order, path)
      {
        MarkedMeetsCold(f, order, marked, path, k);
      }
    } else {
      var path := UnmarkedAvoidsCold(f, order, marked, k);
    }
  }

  lemma {:induction false} MarkedMeetsCold(f: Function, order: seq<Block>, marked: set<Block>, path: seq<Block>, k: nat)
    requires IsFunction(f) && IsOrder(f, order) && Marks(order, |order|, marked, ColdRule(f))
    requires IsNormalPath(f, path) && k < |order| && path[0] == order[k] && path[0] in marked
    ensures !AvoidsCold(f, order, path)
    decreases |path|
  {
    assert ColdRule(f)(marked * Visited(order, k), order[k]);
    if |path| > 1 && !f[path[0]].callsCold {
      PathTail(f, path);
      assert path[1] in marked * Visited(order, k);
      var j := VisitedWhere(order, k, path[1]);
      MarkedMeetsCold(f, order, marked, path[1..], j);
      if AvoidsCold(f, order, path) {
        AvoidsColdLater(f, order, path, k);
      }
    }
  }

  lemma AvoidsColdLater(f: Function, order: seq<Block>, path: seq<Block>, k: nat)
    requires IsNormalPath(f, path) && AvoidsCold(f, order, path) && |path| > 1 && IsNormalPath(f, path[1..])
    requires k < |order| && path[0] == order[k] && path[1] in Visited(order, k)
    ensures AvoidsCold(f, order, path[1..])
  {
    var rest := path[1..];
    assert forall i | 0 <= i < |rest| :: rest[i] == path[i + 1];
  }

  // ----- Where no normal edge goes to a later block -----

  /** What follows a block normally is always visited before it, as in post-order where there are no cycles. */
  ghost predicate SuccessorsFirst(f: Function, order: seq<Block>)
    requires IsOrder(f, order)
  {
    forall k, s | 0 <= k < |order| && s in NormalSuccessors(f[order[k]].end) :: s in Visited(order, k)
  }

  lemma {:induction false} NeverTurnsBack(f: Function, order: seq<Block>, path: seq<Block>, k: nat)
    requires IsOrder(f, order) && SuccessorsFirst(f, order) && IsNormalPath(f, path) && k < |order|
             && path[0] == order[k]
    ensures !TurnsBack(order, path)
    decreases |path|
  {
    if |path| > 1 {
      PathTail(f, path);
      if |path| > 2 {
        var j := VisitedWhere(order, k, path[1]);
        NeverTurnsBack(f, order, path[1..], j);
      }
    }
  }

  /** There a block is marked exactly when every normal path that goes no further has ended in unreachable code. */
  lemma MarkedIffAllEndUnreachable(f: Function, order: seq<Block>, marked: set<Block>, k: nat)
    requires IsFunction(f) && IsOrder(f, order) && Marks(order, |order|, marked, UnreachableRule(f)) && k < |order|
    requires SuccessorsFirst(f, order)
    ensures order[k] in marked <==>
            forall path | IsNormalPath(f, path) && path[0] == order[k] :: EndsOrGoesOn(f, path)
  {
    MarkedIffEndsUnreachable(f, order, marked, k);
    forall path | IsNormalPath(f, path) && path[0] == order[k]
      ensures !TurnsBack(order, path)
    {
      NeverTurnsBack(f, order, path, k);
    }
  }
}
