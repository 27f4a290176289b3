/** The worklist query whether control can get from some blocks to another, with its short cuts through dominators and
    loops, and its limit on the blocks looked at. */
module Reachability {
  import opened Basics
  import opened Cfg

  /** What the dominator tree of a function answers. */
  datatype DominatorTree = DominatorTree(fromEntry: set<Block>, dominations: set<(Block, Block)>) {
    predicate IsReachableFromEntry(b: Block) {
      b in fromEntry
    }

    predicate Dominates(a: Block, b: Block) {
      (a, b) in dominations
    }
  }

  /** The tree answers truly: a dominates b when every path from the entry to b goes through a. */
  ghost predicate IsDominatorTree(g: Graph, dt: DominatorTree) {
    && (forall b: Block | b < |g| :: dt.IsReachableFromEntry(b) <==> Reaches(g, 0, b))
    && (forall a: Block, b: Block | a < |g| && b < |g| ::
          dt.Dominates(a, b) <==> forall path | PathFromTo(g, path, 0, b) :: a in path)
  }

  /** A loop knows the loop directly around it and all its blocks, those of the loops inside included. */
  datatype Loop = Loop(parent: Option<nat>, blocks: seq<Block>)

  /** The loops, outer ones before those inside, and the innermost loop of each block that is in a loop. */
  datatype LoopInfo = LoopInfo(loops: seq<Loop>, loopFor: map<Block, nat>)

  predicate ParentsFirst(li: LoopInfo) {
    && (forall l | 0 <= l < |li.loops| :: li.loops[l].parent.Some? ==> li.loops[l].parent.value < l)
    && (forall b <- li.loopFor :: li.loopFor[b] < |li.loops|)
  }

  /** The loop around l, and around no other loop. */
  function Outermost(li: LoopInfo, l: nat): (top: nat)
    requires ParentsFirst(li) && l < |li.loops|
    ensures top < |li.loops|
  {
    if li.loops[l].parent.Some? then Outermost(li, li.loops[l].parent.value) else l
  }

  function OuterLoop(li: LoopInfo, b: Block): (l: Option<nat>)
    requires ParentsFirst(li)
    ensures l.Some? ==> l.value < |li.loops|
  {
    if b in li.loopFor then Some(Outermost(li, li.loopFor[b])) else None
  }

  /** b can be reached from a along one edge or more. */
  ghost predicate Follows(g: Graph, a: Block, b: Block) {
    a < |g| && exists s :: s in g[a] && Reaches(g, s, b)
  }

  /** The loops are truly those of the graph: an outermost loop holds exactly the blocks whose loops it is outermost of,
      and within a loop control can go from any block round to any other. */
  ghost predicate IsLoopInfo(g: Graph, li: LoopInfo) {
    && ParentsFirst(li)
    && (forall l, b | 0 <= l < |li.loops| && b in li.loops[l].blocks :: b < |g|)
    && (forall b <- li.loopFor :: b in li.loops[li.loopFor[b]].blocks)
    && (forall l, b | 0 <= l < |li.loops| && li.loops[l].parent.None? ::
          b in li.loops[l].blocks <==> OuterLoop(li, b) == Some(l))
    && (forall l, a, b | 0 <= l < |li.loops| && a in li.loops[l].blocks && b in li.loops[l].blocks :: Follows(g, a, b))
  }

  ghost predicate TrueDominators(g: Graph, dt: Option<DominatorTree>) {
    dt.Some? ==> IsDominatorTree(g, dt.value)
  }

  ghost predicate TrueLoops(g: Graph, li: Option<LoopInfo>) {
    li.Some? ==> IsLoopInfo(g, li.value)
  }

  predicate Ordered(li: Option<LoopInfo>) {
    li.Some? ==> ParentsFirst(li.value)
  }

  lemma FollowsReaches(g: Graph, a: Block, b: Block)
    requires IsGraph(g) && Follows(g, a, b)
    ensures Reaches(g, a, b)
  {
    var s :| s in g[a] && Reaches(g, s, b);
    ReachesStep(g, a, s);
    ReachesTrans(g, a, s, b);
  }

  lemma LoopsOrdered(g: Graph, li: Option<LoopInfo>)
    requires TrueLoops(g, li)
    ensures Ordered(li)
  {
  }

  lemma OutermostHasNoParent(li: LoopInfo, l: nat)
    requires ParentsFirst(li) && l < |li.loops|
    ensures li.loops[Outermost(li, l)].parent.None?
  {
  }

  lemma SameLoop(g: Graph, li: LoopInfo, a: Block, b: Block)
    requires IsGraph(g) && IsLoopInfo(g, li)
    requires OuterLoop(li, a).Some? && OuterLoop(li, a) == OuterLoop(li, b)
    ensures Reaches(g, a, b)
  {
    OutermostHasNoParent(li, li.loopFor[a]);
    FollowsReaches(g, a, b);
  }

  /** A block on every path from the entry to a block that the entry does reach, reaches it. */
  lemma DominatorReaches(g: Graph, dt: DominatorTree, a: Block, b: Block)
    requires IsGraph(g) && IsDominatorTree(g, dt) && a < |g| && b < |g|
    requires dt.IsReachableFromEntry(b) && dt.Dominates(a, b)
    ensures Reaches(g, a, b)
  {
    var path :| PathFromTo(g, path, 0, b);
    var i :| 0 <= i < |path| && path[i] == a;
    PathReaches(g, path, i, |path| - 1);
  }

  method GetOutermostLoop(li: LoopInfo, b: Block) returns (l: Option<nat>)
    requires ParentsFirst(li)
    ensures l == OuterLoop(li, b)
  {
    if b !in li.loopFor {
      return None;
    }
    var cur: nat := li.loopFor[b];
    while li.loops[cur].parent.Some?
      invariant cur < |li.loops| && Outermost(li, cur) == Outermost(li, li.loopFor[b])
      decreases cur
    {
      cur := li.loops[cur].parent.value;
    }
    l := Some(cur);
  }

  method LoopContainsBoth(li: LoopInfo, a: Block, b: Block) returns (both: bool)
    requires ParentsFirst(li)
    ensures both <==> OuterLoop(li, a).Some? && OuterLoop(li, a) == OuterLoop(li, b)
  {
    var l1 := GetOutermostLoop(li, a);
    var l2 := GetOutermostLoop(li, b);
    both := l1.Some? && l1 == l2;
  }

  ghost predicate IsExit(g: Graph, blocks: seq<Block>, s: Block) {
    s !in blocks && exists b :: b in blocks && b < |g| && s in g[b]
  }

  ghost predicate ExitsAppended(g: Graph, blocks: seq<Block>, worklist0: seq<Block>, worklist: seq<Block>) {
    worklist0 <= worklist && forall s :: s in worklist[|worklist0|..] <==> IsExit(g, blocks, s)
  }

  /** Appends every block outside the loop that a block of it branches to. */
  method GetExitBlocks(g: Graph, blocks: seq<Block>, worklist0: seq<Block>) returns (worklist: seq<Block>)
    requires IsGraph(g) && forall k | 0 <= k < |blocks| :: blocks[k] < |g|
    ensures ExitsAppended(g, blocks, worklist0, worklist)
  {
    worklist := worklist0;
    for i := 0 to |blocks|
      invariant worklist0 <= worklist
      invariant forall s <- worklist[|worklist0|..] :: IsExit(g, blocks, s)
      invariant forall k, s | 0 <= k < i && s in g[blocks[k]] && s !in blocks :: s in worklist[|worklist0|..]
    {
      var succs := g[blocks[i]];
      for j := 0 to |succs|
        invariant worklist0 <= worklist
        invariant forall s <- worklist[|worklist0|..] :: IsExit(g, blocks, s)
        invariant forall k, s | 0 <= k < i && s in g[blocks[k]] && s !in blocks :: s in worklist[|worklist0|..]
        invariant forall k | 0 <= k < j && succs[k] !in blocks :: succs[k] in worklist[|worklist0|..]
      {
        if succs[j] !in blocks {
          assert IsExit(g, blocks, succs[j]);
          assert (worklist + [succs[j]])[|worklist0|..] == worklist[|worklist0|..] + [succs[j]];
          worklist := worklist + [succs[j]];
        }
      }
    }
  }

  predicate AreBlocks(g: Graph, bs: seq<Block>) {
    forall b <- bs :: b < |g|
  }

  const LIMIT: nat := 32

  ghost predicate ReachedFrom(g: Graph, from: seq<Block>, b: Block) {
    exists a :: a in from && Reaches(g, a, b)
  }

  ghost predicate AllReached(g: Graph, from: seq<Block>, seen: set<Block>) {
    forall b <- seen :: ReachedFrom(g, from, b)
  }

  ghost predicate ManyReached(g: Graph, from: seq<Block>) {
    exists seen: set<Block> :: |seen| == 32 && AllReached(g, from, seen)
  }

  /** Where a visited block leads: out of its outermost loop when it is in one, to its successors when it is not. */
  ghost predicate LeadsTo(g: Graph, li: Option<LoopInfo>, b: Block, s: Block)
    requires Ordered(li)
  {
    if li.Some? && OuterLoop(li.value, b).Some?
    then IsExit(g, li.value.loops[OuterLoop(li.value, b).value].blocks, s)
    else b < |g| && s in g[b]
  }

  ghost predicate IsTrail(g: Graph, li: Option<LoopInfo>, trail: seq<Block>)
    requires Ordered(li)
  {
    trail != [] && forall i | 0 <= i < |trail| - 1 :: LeadsTo(g, li, trail[i], trail[i + 1])
  }

  /** The walk can come to the block: a start block, or what one of these leads to, and so on. Blocks of loops that are
      skipped are not among them. */
  ghost predicate Led(g: Graph, li: Option<LoopInfo>, from: seq<Block>, b: Block)
    requires Ordered(li)
  {
    exists trail :: IsTrail(g, li, trail) && trail[0] in from && trail[|trail| - 1] == b
  }

  ghost predicate AllLed(g: Graph, li: Option<LoopInfo>, from: seq<Block>, seen: set<Block>)
    requires Ordered(li)
  {
    forall b <- seen :: Led(g, li, from, b)
  }

  /** The walk can come to so many blocks that it hits its limit. */
  ghost predicate ManyLed(g: Graph, li: Option<LoopInfo>, from: seq<Block>)
    requires Ordered(li)
  {
    exists seen: set<Block> :: |seen| == 32 && AllLed(g, li, from, seen)
  }

  lemma LedStarts(g: Graph, li: Option<LoopInfo>, from: seq<Block>)
    requires Ordered(li)
    ensures forall b <- from :: Led(g, li, from, b)
  {
    forall b | b in from
      ensures Led(g, li, from, b)
    {
      assert IsTrail(g, li, [b]);
    }
  }

  lemma LedOn(g: Graph, li: Option<LoopInfo>, from: seq<Block>, b: Block)
    requires Ordered(li) && Led(g, li, from, b)
    ensures forall s | LeadsTo(g, li, b, s) :: Led(g, li, from, s)
  {
    forall s | LeadsTo(g, li, b, s)
      ensures Led(g, li, from, s)
    {
      var trail :| IsTrail(g, li, trail) && trail[0] in from && trail[|trail| - 1] == b;
      assert IsTrail(g, li, trail + [s]);
    }
  }

  /** What has been visited and what is still to do is all led to. */
  ghost predicate WalkLed(g: Graph, from: seq<Block>, li: Option<LoopInfo>, visited: set<Block>, worklist: seq<Block>)
    requires Ordered(li)
  {
    AllLed(g, li, from, visited) && forall b <- worklist :: Led(g, li, from, b)
  }

  lemma LedBlock(g: Graph, from: seq<Block>, li: Option<LoopInfo>, visited: set<Block>, worklist: seq<Block>)
    requires Ordered(li) && worklist != [] && WalkLed(g, from, li, visited, worklist)
    ensures var b, rest := worklist[|worklist| - 1], worklist[..|worklist| - 1];
            && WalkLed(g, from, li, visited, rest)
            && WalkLed(g, from, li, visited + {b}, rest)
            && Led(g, li, from, b)
            && (|visited + {b}| == 32 ==> ManyLed(g, li, from))
  {
    var b, rest := worklist[|worklist| - 1], worklist[..|worklist| - 1];
    assert b in worklist && forall x | x in rest :: x in worklist;
    assert AllLed(g, li, from, visited + {b});
  }

  lemma LedNext(g: Graph, from: seq<Block>, li: Option<LoopInfo>, visited: set<Block>, worklist: seq<Block>, b: Block,
                worklist': seq<Block>)
    requires Ordered(li) && WalkLed(g, from, li, visited, worklist) && Led(g, li, from, b)
    requires NextAppended(g, li, b, worklist, worklist')
    ensures WalkLed(g, from, li, visited, worklist')
  {
    LedOn(g, li, from, b);
    hide Led, LeadsTo;
    assert worklist' == worklist + worklist'[|worklist|..];
  }

  /** When nothing is left, every block led to has been visited. */
  lemma {:induction false} TrailVisited(g: Graph, from: seq<Block>, stop: Block, li: Option<LoopInfo>,
                                        visited: set<Block>, trail: seq<Block>, i: nat)
    requires Ordered(li) && QueryOk(g, from, stop, li, visited, [])
    requires IsTrail(g, li, trail) && trail[0] in from && i < |trail|
    ensures trail[i] in visited
  {
    if i > 0 {
      TrailVisited(g, from, stop, li, visited, trail, i - 1);
      assert LeadsTo(g, li, trail[i - 1], trail[i - 1 + 1]);
    }
  }

  lemma LedVisited(g: Graph, from: seq<Block>, stop: Block, li: Option<LoopInfo>, visited: set<Block>)
    requires Ordered(li) && QueryOk(g, from, stop, li, visited, []) && |visited| < 32
    ensures !ManyLed(g, li, from)
  {
    forall seen: set<Block> | AllLed(g, li, from, seen)
      ensures |seen| < 32
    {
      forall b | b in seen
        ensures b in visited
      {
        var trail :| IsTrail(g, li, trail) && trail[0] in from && trail[|trail| - 1] == b;
        TrailVisited(g, from, stop, li, visited, trail, |trail| - 1);
      }
      Smaller(seen, visited);
    }
  }

  /** Whatever is led to is reached. */
  lemma {:induction false} TrailReached(g: Graph, from: seq<Block>, li: Option<LoopInfo>, trail: seq<Block>, i: nat)
    requires IsGraph(g) && TrueLoops(g, li) && AreBlocks(g, from)
    requires IsTrail(g, li, trail) && trail[0] in from && i < |trail|
    ensures ReachedFrom(g, from, trail[i])
  {
    if i == 0 {
      ReachesSelf(g, trail[0]);
    } else {
      TrailReached(g, from, li, trail, i - 1);
      assert LeadsTo(g, li, trail[i - 1], trail[i - 1 + 1]);
      LeadsToReached(g, from, li, trail[i - 1], trail[i]);
    }
  }

  /** So the limit is not hit unless that many blocks can be reached. */
  lemma ManyLedReached(g: Graph, li: Option<LoopInfo>, from: seq<Block>)
    requires IsGraph(g) && TrueLoops(g, li) && AreBlocks(g, from) && ManyLed(g, li, from)
    ensures ManyReached(g, from)
  {
    var seen: set<Block> :| |seen| == 32 && AllLed(g, li, from, seen);
    forall b | b in seen
      ensures ReachedFrom(g, from, b)
    {
      var trail :| IsTrail(g, li, trail) && trail[0] in from && trail[|trail| - 1] == b;
      TrailReached(g, from, li, trail, |trail| - 1);
    }
    assert AllReached(g, from, seen);
  }

  ghost predicate NextAppended(g: Graph, li: Option<LoopInfo>, b: Block, before: seq<Block>, worklist: seq<Block>)
    requires Ordered(li)
  {
    before <= worklist && forall s :: s in worklist[|before|..] <==> LeadsTo(g, li, b, s)
  }

  /** A visited block, or one in the outermost loop of a visited block. */
  ghost predicate Covered(li: Option<LoopInfo>, visited: set<Block>, b: Block)
    requires Ordered(li)
  {
    b in visited
    || (li.Some? && OuterLoop(li.value, b).Some? && exists v <- visited ::
        OuterLoop(li.value, v) == OuterLoop(li.value, b))
  }

  ghost predicate QueryOk(g: Graph, from: seq<Block>, stop: Block, li: Option<LoopInfo>, visited: set<Block>,
                          worklist: seq<Block>)
    requires Ordered(li)
  {
    && (forall b <- from :: b in visited || b in worklist)
    && (forall b <- worklist :: b < |g| && ReachedFrom(g, from, b))
    && (forall b <- visited :: b < |g| && ReachedFrom(g, from, b))
    && (forall b, s | b in visited && LeadsTo(g, li, b, s) :: s in visited || s in worklist)
    && !Covered(li, visited, stop)
  }

  /** What a block in hand leads to, its start reaches. */
  lemma LeadsToReached(g: Graph, from: seq<Block>, li: Option<LoopInfo>, b: Block, s: Block)
    requires IsGraph(g) && TrueLoops(g, li) && ReachedFrom(g, from, b) && LeadsTo(g, li, b, s)
    ensures s < |g| && ReachedFrom(g, from, s)
  {
    var a :| a in from && Reaches(g, a, b);
    if li.Some? && OuterLoop(li.value, b).Some? {
      var l := OuterLoop(li.value, b).value;
      OutermostHasNoParent(li.value, li.value.loopFor[b]);
      var e :| e in li.value.loops[l].blocks && e < |g| && s in g[e];
      FollowsReaches(g, b, e);
      ReachesTrans(g, a, b, e);
      ReachesStep(g, e, s);
      ReachesTrans(g, a, e, s);
    } else {
      ReachesStep(g, b, s);
      ReachesTrans(g, a, b, s);
    }
  }

  /** With nothing left to visit, the covered blocks have no way out. */
  lemma CoveredClosed(g: Graph, from: seq<Block>, stop: Block, li: Option<LoopInfo>, visited: set<Block>, b: Block,
                      s: Block)
    requires IsGraph(g) && TrueLoops(g, li) && QueryOk(g, from, stop, li, visited, [])
    requires Covered(li, visited, b) && b < |g| && s in g[b]
    ensures Covered(li, visited, s)
  {
    if li.Some? && OuterLoop(li.value, b).Some? {
      var l := OuterLoop(li.value, b).value;
      var v :| v in visited && OuterLoop(li.value, v) == OuterLoop(li.value, b);
      OutermostHasNoParent(li.value, li.value.loopFor[b]);
      assert b in li.value.loops[l].blocks;
      if s in li.value.loops[l].blocks {
        assert OuterLoop(li.value, s) == Some(l);
      } else {
        assert IsExit(g, li.value.loops[l].blocks, s);
        assert LeadsTo(g, li, v, s);
      }
    } else {
      assert LeadsTo(g, li, b, s);
    }
  }

  /** With nothing left to visit, the block asked for cannot be reached. */
  lemma NothingLeft(g: Graph, from: seq<Block>, stop: Block, li: Option<LoopInfo>, visited: set<Block>)
    requires IsGraph(g) && TrueLoops(g, li) && QueryOk(g, from, stop, li, visited, [])
    ensures !ReachedFrom(g, from, stop)
  {
    if a :| a in from && Reaches(g, a, stop) {
      var path :| PathFromTo(g, path, a, stop);
      CoveredPath(g, from, stop, li, visited, path, |path| - 1);
      assert false;
    }
  }

  lemma {:induction false} CoveredPath(g: Graph, from: seq<Block>, stop: Block, li: Option<LoopInfo>,
                                       visited: set<Block>, path: seq<Block>, i: nat)
    requires IsGraph(g) && TrueLoops(g, li) && QueryOk(g, from, stop, li, visited, [])
    requires IsPath(g, path) && path[0] in from && i < |path|
    ensures Covered(li, visited, path[i])
  {
    if i > 0 {
      CoveredPath(g, from, stop, li, visited, path, i - 1);
      assert path[i - 1 + 1] in g[path[i - 1]];
      CoveredClosed(g, from, stop, li, visited, path[i - 1], path[i]);
    }
  }

  /** The blocks differ and no loop contains both. */
  predicate Apart(li: Option<LoopInfo>, a: Block, b: Block)
    requires Ordered(li)
  {
    a != b && !(li.Some? && OuterLoop(li.value, a).Some? && OuterLoop(li.value, a) == OuterLoop(li.value, b))
  }

  /** Visiting one more block, from which the block asked for is not at once seen to be reached. */
  lemma VisitBlock(g: Graph, from: seq<Block>, stop: Block, li: Option<LoopInfo>, visited: set<Block>,
                   worklist: seq<Block>, b: Block, worklist': seq<Block>)
    requires IsGraph(g) && TrueLoops(g, li) && QueryOk(g, from, stop, li, visited, worklist + [b])
    requires Apart(li, b, stop)
    requires NextAppended(g, li, b, worklist, worklist')
    ensures QueryOk(g, from, stop, li, visited + {b}, worklist')
  {
    assert b in worklist + [b];
    assert worklist' == worklist + worklist'[|worklist|..];
    forall s | s in worklist'
      ensures s < |g| && ReachedFrom(g, from, s)
    {
      if s in worklist {
        assert s in worklist + [b];
      } else {
        LeadsToReached(g, from, li, b, s);
      }
    }
  }

  /** Dropping a block that was visited before. */
  lemma DropBlock(g: Graph, from: seq<Block>, stop: Block, li: Option<LoopInfo>, visited: set<Block>,
                  worklist: seq<Block>, b: Block)
    requires Ordered(li)
    requires QueryOk(g, from, stop, li, visited, worklist + [b]) && b in visited
    ensures QueryOk(g, from, stop, li, visited, worklist)
  {
    assert forall x | x in worklist + [b] :: x in worklist || x == b;
    assert forall x | x in worklist :: x in worklist + [b];
  }

  lemma ReachedBy(g: Graph, from: seq<Block>, b: Block, stop: Block)
    requires ReachedFrom(g, from, b) && Reaches(g, b, stop)
    ensures ReachedFrom(g, from, stop)
  {
    var a :| a in from && Reaches(g, a, b);
    ReachesTrans(g, a, b, stop);
  }

  lemma QueryStarts(g: Graph, from: seq<Block>, stop: Block, li: Option<LoopInfo>)
    requires IsGraph(g) && TrueLoops(g, li) && AreBlocks(g, from)
    ensures QueryOk(g, from, stop, li, {}, from)
  {
    forall b | b in from
      ensures ReachedFrom(g, from, b)
    {
      ReachesSelf(g, b);
    }
  }

  /** The last block on the worklist is reached, and if it was visited before it can be dropped. */
  lemma InHand(g: Graph, from: seq<Block>, stop: Block, li: Option<LoopInfo>, visited: set<Block>, worklist: seq<Block>)
    requires Ordered(li) && worklist != []
    requires QueryOk(g, from, stop, li, visited, worklist)
    ensures var b, rest := worklist[|worklist| - 1], worklist[..|worklist| - 1];
            && b < |g| && ReachedFrom(g, from, b)
            && QueryOk(g, from, stop, li, visited, rest + [b])
            && (b in visited ==> QueryOk(g, from, stop, li, visited, rest))
            && (b !in visited ==> |visited + {b}| == |visited| + 1)
  {
    var b, rest := worklist[|worklist| - 1], worklist[..|worklist| - 1];
    assert rest + [b] == worklist;
    assert b in worklist;
    hide LeadsTo;
    hide Covered;
    hide ReachedFrom;
    if b in visited {
      DropBlock(g, from, stop, li, visited, rest, b);
    }
  }

  // ----- The walk as a whole -----

  ghost predicate WalkOk(g: Graph, from: seq<Block>, stop: Block, li: Option<LoopInfo>, visited: set<Block>,
                         worklist: seq<Block>)
    requires Ordered(li)
  {
    QueryOk(g, from, stop, li, visited, worklist) && WalkLed(g, from, li, visited, worklist)
  }

  lemma WalkStarts(g: Graph, from: seq<Block>, stop: Block, li: Option<LoopInfo>)
    requires IsGraph(g) && TrueLoops(g, li) && AreBlocks(g, from)
    ensures WalkOk(g, from, stop, li, {}, from) && LIMIT == 32
  {
    hide QueryOk, Led;
    QueryStarts(g, from, stop, li);
    LedStarts(g, li, from);
  }

  lemma WalkInHand(g: Graph, from: seq<Block>, stop: Block, li: Option<LoopInfo>, visited: set<Block>,
                   worklist: seq<Block>)
    requires Ordered(li) && worklist != []
    requires WalkOk(g, from, stop, li, visited, worklist)
    ensures var b, rest := worklist[|worklist| - 1], worklist[..|worklist| - 1];
            && b < |g| && ReachedFrom(g, from, b)
            && (b in visited ==> WalkOk(g, from, stop, li, visited, rest))
            && (b !in visited ==> |visited + {b}| == |visited| + 1)
            && (|visited + {b}| == 32 ==> ManyLed(g, li, from))
  {
    hide QueryOk, WalkLed, ManyLed, ReachedFrom;
    InHand(g, from, stop, li, visited, worklist);
    LedBlock(g, from, li, visited, worklist);
  }

  lemma WalkOn(g: Graph, from: seq<Block>, stop: Block, li: Option<LoopInfo>, visited: set<Block>,
               worklist: seq<Block>, b: Block, worklist': seq<Block>)
    requires IsGraph(g) && TrueLoops(g, li) && Apart(li, b, stop)
    requires WalkOk(g, from, stop, li, visited, worklist + [b])
    requires NextAppended(g, li, b, worklist, worklist')
    ensures WalkOk(g, from, stop, li, visited + {b}, worklist')
  {
    hide QueryOk, WalkLed, NextAppended, Apart;
    assert (worklist + [b])[..|worklist|] == worklist;
    LedBlock(g, from, li, visited, worklist + [b]);
    VisitBlock(g, from, stop, li, visited, worklist, b, worklist');
    LedNext(g, from, li, visited + {b}, worklist, b, worklist');
  }

  lemma WalkEnds(g: Graph, from: seq<Block>, stop: Block, li: Option<LoopInfo>, visited: set<Block>)
    requires IsGraph(g) && TrueLoops(g, li) && WalkOk(g, from, stop, li, visited, []) && |visited| < 32
    ensures !ReachedFrom(g, from, stop) && !ManyLed(g, li, from)
  {
    hide QueryOk, WalkLed, ReachedFrom, ManyLed;
    NothingLeft(g, from, stop, li, visited);
    LedVisited(g, from, stop, li, visited);
  }

  lemma LoopBlocks(g: Graph, li: LoopInfo, l: nat)
    requires IsLoopInfo(g, li) && l < |li.loops|
    ensures forall k | 0 <= k < |li.loops[l].blocks| :: li.loops[l].blocks[k] < |g|
  {
    forall k | 0 <= k < |li.loops[l].blocks|
      ensures li.loops[l].blocks[k] < |g|
    {
      assert li.loops[l].blocks[k] in li.loops[l].blocks;
    }
  }

  /** The blocks put on the worklist are those the visited block leads to. */
  lemma NewWork(g: Graph, li: Option<LoopInfo>, b: Block, outer: Option<nat>, before: seq<Block>, worklist: seq<Block>)
    requires b < |g| && Ordered(li)
    requires outer == if li.Some? then OuterLoop(li.value, b) else None
    requires outer.None? ==> worklist == before + g[b]
    requires outer.Some? ==> ExitsAppended(g, li.value.loops[outer.value].blocks, before, worklist)
    ensures NextAppended(g, li, b, before, worklist)
  {
    if outer.None? {
      assert worklist[|before|..] == g[b];
    }
  }

  /** The tests that settle the query at one block. */
  method SeenToReach(g: Graph, bb: Block, stop: Block, dt: Option<DominatorTree>, li: Option<LoopInfo>)
    returns (seen: bool)
    requires IsGraph(g) && TrueDominators(g, dt) && TrueLoops(g, li) && bb < |g| && stop < |g|
    requires dt.Some? ==> dt.value.IsReachableFromEntry(stop)
    ensures seen ==> Reaches(g, bb, stop)
    ensures !seen ==> Apart(li, bb, stop)
  {
    if bb == stop {
      ReachesSelf(g, bb);
      return true;
    }
    if dt.Some? && dt.value.Dominates(bb, stop) {
      DominatorReaches(g, dt.value, bb, stop);
      return true;
    }
    if li.Some? {
      var both := LoopContainsBoth(li.value, bb, stop);
      if both {
        SameLoop(g, li.value, bb, stop);
        return true;
      }
    }
    return false;
  }

  /** Appends the blocks the block leads to. */
  method AppendNext(g: Graph, li: Option<LoopInfo>, bb: Block, before: seq<Block>) returns (worklist: seq<Block>)
    requires IsGraph(g) && TrueLoops(g, li) && bb < |g|
    ensures NextAppended(g, li, bb, before, worklist)
  {
    var outer := None;
    if li.Some? {
      outer := GetOutermostLoop(li.value, bb);
    }
    if outer.Some? {
      LoopBlocks(g, li.value, outer.value);
      worklist := GetExitBlocks(g, li.value.loops[outer.value].blocks, before);
    } else {
      worklist := before + g[bb];
    }
    NewWork(g, li, bb, outer, before, worklist);
  }

  /** False is always right; true is right unless the walk can come to 32 blocks, those of skipped loops not counted,
      and then the answer is always true. */
  method IsPotentiallyReachableFromMany(g: Graph, from: seq<Block>, stop: Block, dt0: Option<DominatorTree>,
                                        li: Option<LoopInfo>)
    returns (maybe: bool)
    requires IsGraph(g) && TrueDominators(g, dt0) && TrueLoops(g, li)
    requires from != [] && stop < |g| && AreBlocks(g, from)
    ensures maybe <==> ReachedFrom(g, from, stop) || ManyLed(g, li, from)
  {
    hide *;
    LoopsOrdered(g, li);
    var dt := dt0;
    if dt.Some? && !dt.value.IsReachableFromEntry(stop) {
      dt := None;
    }
    var limit := LIMIT;
    var visited: set<Block> := {};
    var worklist := from;
    WalkStarts(g, from, stop, li);
    while worklist != []
      invariant WalkOk(g, from, stop, li, visited, worklist)
      invariant limit > 0 && |visited| + limit == 32
      decreases limit, |worklist|
    {
      var bb := worklist[|worklist| - 1];
      WalkInHand(g, from, stop, li, visited, worklist);
      ghost var worklist0 := worklist;
      worklist := worklist[..|worklist| - 1];
      assert worklist + [bb] == worklist0;
      if bb in visited {
        continue;
      }
      ghost var visited0 := visited;
      visited := visited + {bb};
      var seen := SeenToReach(g, bb, stop, dt, li);
      if seen {
        ReachedBy(g, from, bb, stop);
        return true;
      }
      limit := limit - 1;
      if limit == 0 {
        return true;
      }
      ghost var before := worklist;
      worklist := AppendNext(g, li, bb, worklist);
      WalkOn(g, from, stop, li, visited0, before, bb, worklist);
    }
    WalkEnds(g, from, stop, li, visited);
    return false;
  }

  /** Between whole blocks. */
  method IsPotentiallyReachable(g: Graph, a: Block, b: Block, dt: Option<DominatorTree>, li: Option<LoopInfo>)
    returns (maybe: bool)
    requires IsGraph(g) && TrueDominators(g, dt) && TrueLoops(g, li) && a < |g| && b < |g|
    ensures maybe <==> Reaches(g, a, b) || ManyLed(g, li, [a])
  {
    maybe := IsPotentiallyReachableFromMany(g, [a], b, dt, li);
    assert a in [a];
    assert Reaches(g, a, b) ==> ReachedFrom(g, [a], b);
  }

  /** The place of an instruction: its block, and how many come before it there. */
  datatype Instruction = Instruction(block: Block, place: nat)

  /** Control can get from instruction a to instruction b: onward in one block, or along an edge or more. */
  ghost predicate InstructionReaches(g: Graph, a: Instruction, b: Instruction) {
    (a.block == b.block && a.place <= b.place) || Follows(g, a.block, b.block)
  }

  lemma SuccessorsFollow(g: Graph, a: Block, b: Block)
    requires IsGraph(g) && a < |g|
    ensures ReachedFrom(g, g[a], b) <==> Follows(g, a, b)
  {
    if ReachedFrom(g, g[a], b) {
      var s :| s in g[a] && Reaches(g, s, b);
      assert Follows(g, a, b);
    }
    if Follows(g, a, b) {
      var s :| s in g[a] && Reaches(g, s, b);
      assert ReachedFrom(g, g[a], b);
    }
  }

  /** The many blocks reached from the successors are reached from the block. */
  lemma ManyAhead(g: Graph, a: Block)
    requires IsGraph(g) && a < |g| && ManyReached(g, g[a])
    ensures ManyReached(g, [a])
  {
    var seen: set<Block> :| |seen| == 32 && AllReached(g, g[a], seen);
    forall b | b in seen
      ensures ReachedFrom(g, [a], b)
    {
      SuccessorsFollow(g, a, b);
      FollowsReaches(g, a, b);
      assert a in [a];
    }
  }

  /** Between blocks that differ, following an edge or more is reaching. */
  lemma ReachesOther(g: Graph, a: Block, b: Block)
    requires IsGraph(g) && a < |g| && a != b
    ensures Reaches(g, a, b) <==> Follows(g, a, b)
  {
    if Reaches(g, a, b) {
      var path :| PathFromTo(g, path, a, b);
      assert path[1] in g[path[0]];
      PathReaches(g, path, 1, |path| - 1);
    }
    if Follows(g, a, b) {
      FollowsReaches(g, a, b);
    }
  }

  /** Two blocks without edges: from the entry block the other one is not reached, although the query says that it may
      be. */
  lemma EntryAnswersTrue()
    ensures IsGraph([[], []]) && !Reaches([[], []], 0, 1) && !ManyReached([[], []], [0])
    ensures !InstructionReaches([[], []], Instruction(0, 0), Instruction(1, 0))
  {
    var g: Graph := [[], []];
    forall path | IsPath(g, path)
      ensures |path| == 1
    {
      NoEdgeNoStep(g, path);
    }
    OnlyItself(g);
  }

  lemma NoEdgeNoStep(g: Graph, path: seq<Block>)
    requires IsPath(g, path) && forall b | 0 <= b < |g| :: g[b] == []
    ensures |path| == 1
  {
    if |path| > 1 {
      FirstEdge(g, path);
    }
  }

  lemma FirstEdge(g: Graph, path: seq<Block>)
    requires IsPath(g, path) && |path| > 1
    ensures path[0] < |g| && path[1] in g[path[0]]
  {
    assert path[0 + 1] == path[1];
  }

  lemma OnlyItself(g: Graph)
    requires g == [[], []]
    ensures !ManyReached(g, [0])
  {
    forall seen: set<Block> | AllReached(g, [0], seen)
      ensures |seen| < 32
    {
      forall b | b in seen
        ensures b in {0, 1}
      {
      }
      Smaller(seen, {0, 1});
    }
  }

  lemma Smaller(a: set<Block>, b: set<Block>)
    requires a <= b
    ensures |a| <= |b|
  {
    assert b == a + (b - a);
  }

  /** A block no edge leads to is followed by nothing. */
  lemma NoWayBack(g: Graph, a: Block, b: Block)
    requires IsGraph(g) && forall c | 0 <= c < |g| :: b !in g[c]
    ensures !Follows(g, a, b)
  {
    if Follows(g, a, b) {
      LastEdge(g, a, b);
    }
  }

  lemma LastEdge(g: Graph, a: Block, b: Block)
    requires IsGraph(g) && Follows(g, a, b)
    ensures exists c | 0 <= c < |g| :: b in g[c]
  {
    var s :| s in g[a] && Reaches(g, s, b);
    var path :| PathFromTo(g, path, s, b);
    if |path| > 1 {
      assert path[|path| - 2 + 1] in g[path[|path| - 2]];
    }
  }

  /** Where the walk between instructions starts. */
  function Ahead(g: Graph, a: Instruction, b: Instruction): seq<Block>
    requires a.block < |g|
  {
    if a.block == b.block then g[a.block] else [a.block]
  }

  /** The walk between instructions does not hit its limit unless that many blocks can be reached. */
  lemma ManyAheadReached(g: Graph, li: Option<LoopInfo>, a: Instruction, b: Instruction)
    requires IsGraph(g) && TrueLoops(g, li) && a.block < |g| && ManyLed(g, li, Ahead(g, a, b))
    ensures ManyReached(g, [a.block])
  {
    ManyLedReached(g, li, Ahead(g, a, b));
    if a.block == b.block {
      ManyAhead(g, a.block);
    }
  }

  /** Between instructions, in a function whose entry block has no predecessors: the answer is true exactly when control
      can get there, or the walk, which is not made into or out of the entry block, hits its limit, or the question is
      about the way out of the entry block into another. In the last case it is right exactly when the entry reaches
      that. */
  method IsPotentiallyReachableInstruction(g: Graph, sizes: seq<nat>, a: Instruction, b: Instruction,
                                           dt: Option<DominatorTree>, li: Option<LoopInfo>) returns (maybe: bool)
    requires IsGraph(g) && TrueDominators(g, dt) && TrueLoops(g, li) && |sizes| == |g|
    requires a.block < |g| && a.place < sizes[a.block] && b.block < |g| && b.place < sizes[b.block]
    requires forall c | 0 <= c < |g| :: 0 !in g[c]
    ensures maybe <==>
            || InstructionReaches(g, a, b)
            || (a.block == 0 && b.block != 0)
            || (a.block != 0 && b.block != 0 && ManyLed(g, li, Ahead(g, a, b)))
    ensures a.block == 0 && b.block != 0 ==> (InstructionReaches(g, a, b) <==> Reaches(g, 0, b.block))
  {
    var worklist: seq<Block> := [];
    if a.block == b.block {
      var bb := a.block;
      if li.Some? && bb in li.value.loopFor {
        assert bb in li.value.loops[li.value.loopFor[bb]].blocks;
        return true;
      }
      for i := a.place to sizes[bb]
        invariant b.place < a.place || i <= b.place
      {
        if i == b.place {
          return true;
        }
      }
      if bb == 0 {
        NoWayBack(g, 0, 0);
        return false;
      }
      worklist := worklist + g[bb];
      if worklist == [] {
        return false;
      }
      assert worklist == g[bb];
    } else {
      worklist := worklist + [a.block];
    }
    if a.block == 0 {
      ReachesOther(g, 0, b.block);
      return true;
    }
    if b.block == 0 {
      NoWayBack(g, a.block, 0);
      return false;
    }
    maybe := IsPotentiallyReachableFromMany(g, worklist, b.block, dt, li);
    if a.block == b.block {
      SuccessorsFollow(g, a.block, b.block);
    } else {
      ReachesOther(g, a.block, b.block);
      assert a.block in [a.block];
    }
  }
}
