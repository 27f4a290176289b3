/** The depth-first search that finds the edges closing cycles. */
module Backedges {
  import opened Cfg

  type Edge = (Block, Block)

  ghost function EdgeSet(result: seq<Edge>): set<Edge> {
    set e: Edge | e in result
  }

  /** A closed walk along one edge or more, none of them cut. */
  ghost predicate UncutCycle(g: Graph, cut: set<Edge>, walk: seq<Block>) {
    && IsPath(g, walk) && |walk| > 1 && walk[0] == walk[|walk| - 1]
    && forall i | 0 <= i < |walk| - 1 :: (walk[i], walk[i + 1]) !in cut
  }

  /** With the edges gone, no cycle is left among the blocks the entry leads to. */
  ghost predicate BreaksAllCycles(g: Graph, result: seq<Edge>) {
    forall walk | IsPath(g, walk) && Reaches(g, 0, walk[0]) :: !UncutCycle(g, EdgeSet(result), walk)
  }

  /** The edge closes a cycle that the entry leads to. */
  ghost predicate ClosesCycle(g: Graph, e: Edge) {
    e.0 < |g| && e.1 in g[e.0] && Reaches(g, 0, e.0) && Reaches(g, e.1, e.0)
  }

  datatype Frame = Frame(block: Block, taken: nat)

  /** The stack is a path from the entry, each block the last successor taken by the one below it. */
  ghost predicate StackOk(g: Graph, stack: seq<Frame>) {
    && (forall i | 0 <= i < |stack| :: stack[i].block < |g| && stack[i].taken <= |g[stack[i].block]|)
    && (stack != [] ==> stack[0].block == 0)
    && (forall i | 0 <= i < |stack| - 1 ::
          stack[i].taken > 0 && stack[i + 1].block == g[stack[i].block][stack[i].taken - 1])
    && (forall i, j | 0 <= i < j < |stack| :: stack[i].block != stack[j].block)
  }

  ghost function OnStack(stack: seq<Frame>): set<Block> {
    set i | 0 <= i < |stack| :: stack[i].block
  }

  /** Successor s of block b needs no more attention: its edge is reported, or it is finished. */
  predicate Settled(b: Block, s: Block, done: map<Block, nat>, result: seq<Edge>) {
    (b, s) in result || s in done
  }

  /** Finished blocks are numbered in the order they finish; edges that are not reported lead to smaller numbers. */
  predicate DoneOk(g: Graph, done: map<Block, nat>, result: seq<Edge>) {
    && (forall b <- done :: b < |g| && done[b] < |done|)
    && (forall b, s | b in done && b < |g| && s in g[b] :: (b, s) in result || (s in done && done[s] < done[b]))
  }

  /** Every successor already taken is settled, but for the one whose search is under way. */
  predicate TakenOk(g: Graph, stack: seq<Frame>, done: map<Block, nat>, result: seq<Edge>) {
    forall i, k | 0 <= i < |stack| && 0 <= k < stack[i].taken && stack[i].block < |g| && k < |g[stack[i].block]| ::
      || Settled(stack[i].block, g[stack[i].block][k], done, result)
      || (i + 1 < |stack| && k == stack[i].taken - 1)
  }

  ghost predicate ResultOk(g: Graph, result: seq<Edge>) {
    forall e <- result :: ClosesCycle(g, e)
  }

  ghost predicate SearchOk(g: Graph, visited: set<Block>, stack: seq<Frame>, done: map<Block, nat>, result: seq<Edge>) {
    && StackOk(g, stack) && DoneOk(g, done, result) && TakenOk(g, stack, done, result) && ResultOk(g, result)
    && visited == OnStack(stack) + done.Keys && OnStack(stack) !! done.Keys
    && 0 in visited
    && (forall e <- result :: e.1 in visited)
  }

  /** What is below on the stack reaches what is above. */
  lemma StackReaches(g: Graph, stack: seq<Frame>, i: nat, j: nat)
    requires IsGraph(g) && StackOk(g, stack) && i <= j < |stack|
    ensures Reaches(g, stack[i].block, stack[j].block)
  {
    var path := seq(|stack|, k requires 0 <= k < |stack| => stack[k].block);
    PathReaches(g, path, i, j);
  }

  /** The edges not reported lead from greater to smaller numbers, so they close no cycle. */
  lemma {:induction false} NumbersFall(g: Graph, done: map<Block, nat>, result: seq<Edge>, walk: seq<Block>, i: nat)
    requires DoneOk(g, done, result) && IsPath(g, walk) && i < |walk| && walk[0] in done
    requires forall k | 0 <= k < |walk| - 1 :: (walk[k], walk[k + 1]) !in result
    ensures walk[i] in done && done[walk[i]] <= done[walk[0]] - i
  {
    if i > 0 {
      NumbersFall(g, done, result, walk, i - 1);
      assert walk[i - 1 + 1] in g[walk[i - 1]];
      assert (walk[i - 1], walk[i - 1 + 1]) !in result;
    }
  }

  /** When the search is over, every block the entry reaches is finished. */
  lemma AllDone(g: Graph, visited: set<Block>, done: map<Block, nat>, result: seq<Edge>, b: Block)
    requires SearchOk(g, visited, [], done, result) && Reaches(g, 0, b)
    ensures b in done
  {
    var path :| PathFromTo(g, path, 0, b);
    assert visited == done.Keys;
    forall a, s | a in done.Keys && a < |g| && s in g[a]
      ensures s in done.Keys
    {
      if (a, s) in result {
        assert (a, s).1 in visited;
      }
    }
    ClosedReaches(g, done.Keys, path, |path| - 1);
  }

  lemma NoCycleLeft(g: Graph, visited: set<Block>, done: map<Block, nat>, result: seq<Edge>, walk: seq<Block>)
    requires SearchOk(g, visited, [], done, result)
    requires IsPath(g, walk) && Reaches(g, 0, walk[0])
    ensures !UncutCycle(g, EdgeSet(result), walk)
  {
    if UncutCycle(g, EdgeSet(result), walk) {
      AllDone(g, visited, done, result, walk[0]);
      NumbersFall(g, done, result, walk, |walk| - 1);
      assert false;
    }
  }

  lemma ReportedCloses(g: Graph, stack: seq<Frame>, bb: Block)
    requires IsGraph(g) && StackOk(g, stack) && stack != [] && bb in OnStack(stack)
    requires var top := stack[|stack| - 1]; bb in g[top.block]
    ensures ClosesCycle(g, (stack[|stack| - 1].block, bb))
  {
    var i :| 0 <= i < |stack| && stack[i].block == bb;
    StackReaches(g, stack, i, |stack| - 1);
    StackReaches(g, stack, 0, |stack| - 1);
  }

  /** The stack with its top frame one successor further. */
  function Advanced(stack: seq<Frame>): (next: seq<Frame>)
    requires stack != []
    ensures |next| == |stack| && next[..|stack| - 1] == stack[..|stack| - 1]
    ensures next[|stack| - 1] == Frame(stack[|stack| - 1].block, stack[|stack| - 1].taken + 1)
  {
    stack[|stack| - 1 := Frame(stack[|stack| - 1].block, stack[|stack| - 1].taken + 1)]
  }

  lemma AdvancedBlocks(stack: seq<Frame>)
    requires stack != []
    ensures OnStack(Advanced(stack)) == OnStack(stack)
  {
    var next := Advanced(stack);
    assert forall i | 0 <= i < |stack| :: next[i].block == stack[i].block;
  }

  ghost predicate AtSuccessor(g: Graph, stack: seq<Frame>, bb: Block) {
    && stack != []
    && var top := stack[|stack| - 1];
       top.block < |g| && top.taken < |g[top.block]| && bb == g[top.block][top.taken]
  }

  lemma AdvancedStackOk(g: Graph, stack: seq<Frame>, bb: Block)
    requires StackOk(g, stack) && AtSuccessor(g, stack, bb)
    ensures StackOk(g, Advanced(stack))
  {
  }

  lemma AdvancedTakenOk(g: Graph, stack: seq<Frame>, done: map<Block, nat>, result: seq<Edge>, more: seq<Edge>,
                        bb: Block)
    requires TakenOk(g, stack, done, result) && AtSuccessor(g, stack, bb)
    requires Settled(stack[|stack| - 1].block, bb, done, result + more)
    ensures TakenOk(g, Advanced(stack), done, result + more)
  {
    var next := Advanced(stack);
    forall i, k | 0 <= i < |next| && 0 <= k < next[i].taken && next[i].block < |g| && k < |g[next[i].block]|
      ensures
        || Settled(next[i].block, g[next[i].block][k], done, result + more)
        || (i + 1 < |next| && k == next[i].taken - 1)
    {
      if i < |stack| - 1 || k < stack[i].taken {
        assert i < |stack| - 1 ==> next[..|stack| - 1][i] == stack[..|stack| - 1][i];
        assert Settled(stack[i].block, g[stack[i].block][k], done, result)
               || (i + 1 < |stack| && k == stack[i].taken - 1);
      }
    }
  }

  lemma StepReport(g: Graph, visited: set<Block>, stack: seq<Frame>, done: map<Block, nat>, result: seq<Edge>,
                   bb: Block)
    requires IsGraph(g) && SearchOk(g, visited, stack, done, result) && AtSuccessor(g, stack, bb)
    requires bb in OnStack(stack)
    ensures SearchOk(g, visited, Advanced(stack), done, result + [(stack[|stack| - 1].block, bb)])
    ensures OnStack(Advanced(stack)) == OnStack(stack)
  {
    hide OnStack, StackOk, TakenOk, ClosesCycle, Advanced;
    var e := (stack[|stack| - 1].block, bb);
    AdvancedBlocks(stack);
    AdvancedStackOk(g, stack, bb);
    assert e in result + [e];
    AdvancedTakenOk(g, stack, done, result, [e], bb);
    ReportedCloses(g, stack, bb);
  }

  lemma StepSkip(g: Graph, visited: set<Block>, stack: seq<Frame>, done: map<Block, nat>, result: seq<Edge>, bb: Block)
    requires IsGraph(g) && SearchOk(g, visited, stack, done, result) && AtSuccessor(g, stack, bb)
    requires bb in visited && bb !in OnStack(stack)
    ensures SearchOk(g, visited, Advanced(stack), done, result)
    ensures OnStack(Advanced(stack)) == OnStack(stack)
  {
    AdvancedBlocks(stack);
    AdvancedStackOk(g, stack, bb);
    assert result + [] == result;
    AdvancedTakenOk(g, stack, done, result, [], bb);
    hide StackOk;
    hide TakenOk;
    hide Advanced;
  }

  lemma PushedBlocks(stack: seq<Frame>, bb: Block)
    ensures OnStack(stack + [Frame(bb, 0)]) == OnStack(stack) + {bb}
  {
    var next := stack + [Frame(bb, 0)];
    assert next[|stack|].block == bb;
    assert forall i | 0 <= i < |stack| :: next[i].block == stack[i].block;
  }

  lemma PushedStackOk(g: Graph, stack: seq<Frame>, bb: Block)
    requires StackOk(g, stack) && stack != [] && bb !in OnStack(stack) && bb < |g|
    requires var top := stack[|stack| - 1]; top.taken > 0 && g[top.block][top.taken - 1] == bb
    ensures StackOk(g, stack + [Frame(bb, 0)])
  {
    assert forall i | 0 <= i < |stack| :: stack[i].block in OnStack(stack);
  }

  lemma PushedTakenOk(g: Graph, stack: seq<Frame>, done: map<Block, nat>, result: seq<Edge>, bb: Block)
    requires TakenOk(g, stack, done, result) && AtSuccessor(g, stack, bb)
    ensures TakenOk(g, Advanced(stack) + [Frame(bb, 0)], done, result)
  {
    var next := Advanced(stack) + [Frame(bb, 0)];
    forall i, k | 0 <= i < |next| && 0 <= k < next[i].taken && next[i].block < |g| && k < |g[next[i].block]|
      ensures
        || Settled(next[i].block, g[next[i].block][k], done, result)
        || (i + 1 < |next| && k == next[i].taken - 1)
    {
      if i < |stack| - 1 || k < stack[i].taken {
        assert i < |stack| - 1 ==> next[..|stack| - 1][i] == stack[..|stack| - 1][i];
        assert Settled(stack[i].block, g[stack[i].block][k], done, result)
               || (i + 1 < |stack| && k == stack[i].taken - 1);
      }
    }
  }

  lemma StepDown(g: Graph, visited: set<Block>, stack: seq<Frame>, done: map<Block, nat>, result: seq<Edge>, bb: Block)
    requires IsGraph(g) && SearchOk(g, visited, stack, done, result) && AtSuccessor(g, stack, bb)
    requires bb !in visited
    ensures SearchOk(g, visited + {bb}, Advanced(stack) + [Frame(bb, 0)], done, result)
    ensures OnStack(Advanced(stack) + [Frame(bb, 0)]) == OnStack(stack) + {bb}
  {
    AdvancedBlocks(stack);
    AdvancedStackOk(g, stack, bb);
    PushedBlocks(Advanced(stack), bb);
    assert bb in g[stack[|stack| - 1].block];
    PushedStackOk(g, Advanced(stack), bb);
    PushedTakenOk(g, stack, done, result, bb);
    hide OnStack;
    hide StackOk;
    hide TakenOk;
    hide DoneOk;
    hide ResultOk;
    hide Advanced;
    hide AtSuccessor;
  }

  lemma PoppedBlocks(g: Graph, stack: seq<Frame>)
    requires StackOk(g, stack) && stack != []
    ensures OnStack(stack[..|stack| - 1]) == OnStack(stack) - {stack[|stack| - 1].block}
    ensures stack[|stack| - 1].block in OnStack(stack)
  {
    var top := |stack| - 1;
    var b := stack[top].block;
    forall x | x in OnStack(stack) - {b}
      ensures x in OnStack(stack[..top])
    {
      var i :| 0 <= i < |stack| && stack[i].block == x;
      assert stack[..top][i].block == x;
    }
  }

  lemma PoppedDoneOk(g: Graph, stack: seq<Frame>, done: map<Block, nat>, result: seq<Edge>)
    requires StackOk(g, stack) && DoneOk(g, done, result) && TakenOk(g, stack, done, result) && stack != []
    requires stack[|stack| - 1].taken == |g[stack[|stack| - 1].block]| && stack[|stack| - 1].block !in done
    ensures DoneOk(g, done[stack[|stack| - 1].block := |done|], result)
  {
    var top := |stack| - 1;
    var b := stack[top].block;
    var next := done[b := |done|];
    assert |next| == |done| + 1 by {
      assert next.Keys == done.Keys + {b};
    }
    forall s | s in g[b]
      ensures (b, s) in result || (s in next && next[s] < next[b])
    {
      var k :| 0 <= k < |g[b]| && g[b][k] == s;
      assert k < stack[top].taken;
      assert Settled(b, s, done, result);
    }
  }

  lemma PoppedTakenOk(g: Graph, stack: seq<Frame>, done: map<Block, nat>, result: seq<Edge>)
    requires StackOk(g, stack) && TakenOk(g, stack, done, result) && stack != []
    ensures TakenOk(g, stack[..|stack| - 1], done[stack[|stack| - 1].block := |done|], result)
  {
    var top := |stack| - 1;
    var next := stack[..top];
    var done' := done[stack[top].block := |done|];
    forall i, k | 0 <= i < |next| && 0 <= k < next[i].taken && next[i].block < |g| && k < |g[next[i].block]|
      ensures
        || Settled(next[i].block, g[next[i].block][k], done', result)
        || (i + 1 < |next| && k == next[i].taken - 1)
    {
      assert Settled(stack[i].block, g[stack[i].block][k], done, result) || k == stack[i].taken - 1;
      if i == top - 1 && k == stack[i].taken - 1 {
        assert stack[i + 1].block == g[stack[i].block][k];
      }
    }
  }

  lemma StepUp(g: Graph, visited: set<Block>, stack: seq<Frame>, done: map<Block, nat>, result: seq<Edge>)
    requires IsGraph(g) && SearchOk(g, visited, stack, done, result) && stack != []
    requires stack[|stack| - 1].block < |g| && stack[|stack| - 1].taken == |g[stack[|stack| - 1].block]|
    ensures SearchOk(g, visited, stack[..|stack| - 1], done[stack[|stack| - 1].block := |done|], result)
    ensures OnStack(stack[..|stack| - 1]) == OnStack(stack) - {stack[|stack| - 1].block}
  {
    hide OnStack;
    hide TakenOk;
    hide DoneOk;
    hide ResultOk;
    PoppedBlocks(g, stack);
    PoppedDoneOk(g, stack, done, result);
    PoppedTakenOk(g, stack, done, result);
    assert StackOk(g, stack[..|stack| - 1]);
    hide StackOk;
  }

  lemma StackFits(g: Graph, visited: set<Block>, stack: seq<Frame>, done: map<Block, nat>, result: seq<Edge>)
    requires SearchOk(g, visited, stack, done, result)
    ensures |visited| <= |g| && forall b <- visited :: b < |g|
  {
    AtMost(visited, |g|);
  }

  lemma {:induction false} AtMost(s: set<Block>, n: nat)
    requires forall b <- s :: b < n
    ensures |s| <= n
  {
    if n > 0 {
      AtMost(s - {n - 1}, n - 1);
    } else {
      assert s == {};
    }
  }

  // ----- Every reported edge is needed -----

  /** With all the reported edges gone but this one, a cycle is left that the entry leads to. */
  ghost predicate Needed(g: Graph, result: seq<Edge>, e: Edge) {
    exists walk :: Reaches(g, 0, e.0) && UncutCycle(g, EdgeSet(result) - {e}, walk) && walk[0] == e.0
  }

  ghost predicate TreePath(g: Graph, tree: set<Edge>, path: seq<Block>, e: Edge) {
    PathFromTo(g, path, e.1, e.0) && Climbs(path, tree)
  }

  ghost predicate ClosedByTree(g: Graph, tree: set<Edge>, e: Edge) {
    exists path :: TreePath(g, tree, path, e)
  }

  predicate Climbs(bs: seq<Block>, tree: set<Edge>) {
    forall i | 0 <= i < |bs| - 1 :: (bs[i], bs[i + 1]) in tree
  }

  /** Each of the blocks was first visited from the one before it. */
  ghost predicate OnlyFromBelow(bs: seq<Block>, tree: set<Edge>) {
    forall i, b | 0 <= i < |bs| && (b, bs[i]) in tree :: i > 0 && bs[i - 1] == b
  }

  function Blocks(stack: seq<Frame>): (bs: seq<Block>)
    ensures |bs| == |stack| && forall i | 0 <= i < |bs| :: bs[i] == stack[i].block
  {
    seq(|stack|, k requires 0 <= k < |stack| => stack[k].block)
  }

  /** The edges along which blocks were first visited, given the blocks on the stack: they are not reported, they lead
      up the stack one block at a time, and every reported edge closes a cycle with them. */
  ghost predicate TreeOk(g: Graph, visited: set<Block>, bs: seq<Block>, tree: set<Edge>, result: seq<Edge>) {
    && Climbs(bs, tree) && OnlyFromBelow(bs, tree)
    && (forall e <- tree :: e.1 in visited)
    && (forall e <- result :: e !in tree && ClosedByTree(g, tree, e))
  }

  lemma StackBlocksAre(g: Graph, stack: seq<Frame>)
    requires IsGraph(g) && StackOk(g, stack) && stack != []
    ensures Blocks(Advanced(stack)) == Blocks(stack)
    ensures Blocks(stack[..|stack| - 1]) == Blocks(stack)[..|stack| - 1]
    ensures forall bb :: Blocks(Advanced(stack) + [Frame(bb, 0)]) == Blocks(stack) + [bb]
    ensures IsPath(g, Blocks(stack)) && forall b <- Blocks(stack) :: b in OnStack(stack)
    ensures forall i, j | 0 <= i < j < |stack| :: Blocks(stack)[i] != Blocks(stack)[j]
  {
    assert forall i | 0 <= i < |stack| :: Advanced(stack)[i].block == stack[i].block;
    var path := Blocks(stack);
    forall i | 0 <= i < |stack| - 1
      ensures path[i + 1] in g[path[i]]
    {
      assert stack[i + 1].block == g[stack[i].block][stack[i].taken - 1];
    }
  }

  lemma TreeReport(g: Graph, visited: set<Block>, bs: seq<Block>, tree: set<Edge>, result: seq<Edge>, i: nat)
    requires TreeOk(g, visited, bs, tree, result) && i < |bs| && IsPath(g, bs)
    requires forall i, j | 0 <= i < j < |bs| :: bs[i] != bs[j]
    ensures TreeOk(g, visited, bs, tree, result + [(bs[|bs| - 1], bs[i])])
  {
    var e := (bs[|bs| - 1], bs[i]);
    NotInTree(bs, tree, i);
    ClosedByTail(g, tree, bs, i);
    hide Climbs, OnlyFromBelow, IsPath, ClosedByTree;
  }

  /** An edge from the last block back to one of them is not the one along which that was first visited. */
  lemma NotInTree(bs: seq<Block>, tree: set<Edge>, i: nat)
    requires OnlyFromBelow(bs, tree) && i < |bs| && forall i, j | 0 <= i < j < |bs| :: bs[i] != bs[j]
    ensures (bs[|bs| - 1], bs[i]) !in tree
  {
  }

  lemma ClosedByTail(g: Graph, tree: set<Edge>, bs: seq<Block>, i: nat)
    requires Climbs(bs, tree) && IsPath(g, bs) && i < |bs|
    ensures ClosedByTree(g, tree, (bs[|bs| - 1], bs[i]))
  {
    var path := bs[i..];
    forall k | 0 <= k < |path| - 1
      ensures path[k + 1] in g[path[k]] && (path[k], path[k + 1]) in tree
    {
      assert path[k] == bs[i + k] && path[k + 1] == bs[i + k + 1];
    }
    assert TreePath(g, tree, path, (bs[|bs| - 1], bs[i]));
  }

  lemma TreeDown(g: Graph, visited: set<Block>, bs: seq<Block>, tree: set<Edge>, result: seq<Edge>, bb: Block)
    requires TreeOk(g, visited, bs, tree, result) && bs != [] && bb !in visited
    requires (forall b <- bs :: b in visited) && forall e <- result :: e.1 in visited
    ensures TreeOk(g, visited + {bb}, bs + [bb], tree + {(bs[|bs| - 1], bb)}, result)
  {
    var tree' := tree + {(bs[|bs| - 1], bb)};
    TreePushed(visited, bs, tree, bb);
    forall e <- result
      ensures ClosedByTree(g, tree', e)
    {
      StillClosed(g, tree, tree', e);
    }
    hide Climbs, OnlyFromBelow, ClosedByTree;
  }

  lemma StillClosed(g: Graph, tree: set<Edge>, tree': set<Edge>, e: Edge)
    requires ClosedByTree(g, tree, e) && tree <= tree'
    ensures ClosedByTree(g, tree', e)
  {
    var path :| TreePath(g, tree, path, e);
    assert TreePath(g, tree', path, e);
  }

  lemma TreePushed(visited: set<Block>, bs: seq<Block>, tree: set<Edge>, bb: Block)
    requires Climbs(bs, tree) && OnlyFromBelow(bs, tree) && bs != [] && bb !in visited
    requires (forall b <- bs :: b in visited) && forall e <- tree :: e.1 in visited
    ensures Climbs(bs + [bb], tree + {(bs[|bs| - 1], bb)}) && OnlyFromBelow(bs + [bb], tree + {(bs[|bs| - 1], bb)})
  {
    var bs', tree' := bs + [bb], tree + {(bs[|bs| - 1], bb)};
    forall i, b | 0 <= i < |bs'| && (b, bs'[i]) in tree'
      ensures i > 0 && bs'[i - 1] == b
    {
      if i < |bs| {
        assert bs'[i] == bs[i] && bs[i] in bs;
      }
    }
  }

  lemma TreeUp(g: Graph, visited: set<Block>, bs: seq<Block>, tree: set<Edge>, result: seq<Edge>)
    requires TreeOk(g, visited, bs, tree, result) && bs != []
    ensures TreeOk(g, visited, bs[..|bs| - 1], tree, result)
  {
    var bs' := bs[..|bs| - 1];
    assert forall i | 0 <= i < |bs'| :: bs'[i] == bs[i];
  }

  lemma WhereOnStack(stack: seq<Frame>, bb: Block) returns (i: nat)
    requires bb in OnStack(stack)
    ensures i < |stack| && Blocks(stack)[i] == bb
  {
    i :| 0 <= i < |stack| && stack[i].block == bb;
  }

  lemma SearchFacts(g: Graph, visited: set<Block>, stack: seq<Frame>, done: map<Block, nat>, result: seq<Edge>)
    requires SearchOk(g, visited, stack, done, result)
    ensures StackOk(g, stack) && OnStack(stack) <= visited
    ensures forall e <- result :: e.1 in visited && ClosesCycle(g, e)
  {
  }

  ghost predicate StackTreeOk(g: Graph, visited: set<Block>, stack: seq<Frame>, tree: set<Edge>, result: seq<Edge>) {
    TreeOk(g, visited, Blocks(stack), tree, result)
  }

  lemma StackDown(g: Graph, visited: set<Block>, stack: seq<Frame>, done: map<Block, nat>, tree: set<Edge>,
                  result: seq<Edge>, bb: Block)
    requires IsGraph(g) && SearchOk(g, visited, stack, done, result) && StackTreeOk(g, visited, stack, tree, result)
    requires stack != [] && bb !in visited
    ensures StackTreeOk(g, visited + {bb}, Advanced(stack) + [Frame(bb, 0)], tree + {(stack[|stack| - 1].block, bb)},
                        result)
  {
    hide TreeOk, SearchOk, StackOk;
    SearchFacts(g, visited, stack, done, result);
    StackBlocksAre(g, stack);
    TreeDown(g, visited, Blocks(stack), tree, result, bb);
  }

  lemma StackReport(g: Graph, visited: set<Block>, stack: seq<Frame>, done: map<Block, nat>, tree: set<Edge>,
                    result: seq<Edge>, bb: Block)
    requires IsGraph(g) && SearchOk(g, visited, stack, done, result) && StackTreeOk(g, visited, stack, tree, result)
    requires stack != [] && bb in OnStack(stack)
    ensures StackTreeOk(g, visited, Advanced(stack), tree, result + [(stack[|stack| - 1].block, bb)])
  {
    hide TreeOk, SearchOk, StackOk;
    SearchFacts(g, visited, stack, done, result);
    StackBlocksAre(g, stack);
    var i := WhereOnStack(stack, bb);
    TreeReport(g, visited, Blocks(stack), tree, result, i);
  }

  lemma StackSkip(g: Graph, visited: set<Block>, stack: seq<Frame>, done: map<Block, nat>, tree: set<Edge>,
                  result: seq<Edge>)
    requires IsGraph(g) && SearchOk(g, visited, stack, done, result) && StackTreeOk(g, visited, stack, tree, result)
    requires stack != []
    ensures StackTreeOk(g, visited, Advanced(stack), tree, result)
  {
    SearchFacts(g, visited, stack, done, result);
    StackBlocksAre(g, stack);
  }

  lemma StackUp(g: Graph, visited: set<Block>, stack: seq<Frame>, done: map<Block, nat>, tree: set<Edge>,
                result: seq<Edge>)
    requires IsGraph(g) && SearchOk(g, visited, stack, done, result) && StackTreeOk(g, visited, stack, tree, result)
    requires stack != []
    ensures StackTreeOk(g, visited, stack[..|stack| - 1], tree, result)
  {
    hide TreeOk, SearchOk, StackOk;
    SearchFacts(g, visited, stack, done, result);
    StackBlocksAre(g, stack);
    TreeUp(g, visited, Blocks(stack), tree, result);
  }

  lemma AllNeeded(g: Graph, visited: set<Block>, tree: set<Edge>, result: seq<Edge>)
    requires IsGraph(g) && StackTreeOk(g, visited, [], tree, result) && forall e <- result :: ClosesCycle(g, e)
    ensures forall e <- result :: Needed(g, result, e)
  {
    forall e <- result
      ensures Needed(g, result, e)
    {
      assert ClosesCycle(g, e) && ClosedByTree(g, tree, e);
      var path :| TreePath(g, tree, path, e);
      var walk := [e.0] + path;
      forall i | 0 <= i < |walk| - 1
        ensures (walk[i], walk[i + 1]) !in EdgeSet(result) - {e} && walk[i + 1] in g[walk[i]]
      {
        if i > 0 {
          assert (path[i - 1], path[i - 1 + 1]) in tree;
        }
      }
      assert UncutCycle(g, EdgeSet(result) - {e}, walk);
    }
  }

  /** Every reported edge closes a cycle the entry leads to; with the reported edges gone no cycle is left among the
      blocks the entry leads to; and none of them could be left out. */
  method FindFunctionBackedges(g: Graph) returns (result: seq<Edge>)
    requires IsGraph(g)
    ensures forall e <- result :: ClosesCycle(g, e)
    ensures BreaksAllCycles(g, result)
    ensures forall e <- result :: Needed(g, result, e)
  {
    hide StackTreeOk, Needed, StackOk;
    hide SearchOk;
    hide OnStack;
    hide BreaksAllCycles;
    hide ClosesCycle;
    hide IsPath;
    hide Reaches;
    result := [];
    var bb: Block := 0;
    if g[bb] == [] {
      LoneEntry(g);
      return;
    }
    var visited: set<Block> := {bb};
    var visitStack := [Frame(bb, 0)];
    var inStack := {bb};
    ghost var done: map<Block, nat> := map[];
    ghost var tree: set<Edge> := {};
    SearchStarts(g);
    while visitStack != []
      invariant SearchOk(g, visited, visitStack, done, result)
      invariant StackTreeOk(g, visited, visitStack, tree, result)
      invariant inStack == OnStack(visitStack)
      decreases |g| - |visited|, |visitStack|
    {
      var top := |visitStack| - 1;
      var parent := visitStack[top].block;
      var foundNew := false;
      ghost var visited0 := visited;
      StackBlocks(g, visited, visitStack, done, result);
      StackFits(g, visited, visitStack, done, result);
      while visitStack[top].taken < |g[parent]|
        invariant |visitStack| == top + 1 && visitStack[top].block == parent && visitStack[top].taken <= |g[parent]|
        invariant SearchOk(g, visited, visitStack, done, result)
        invariant StackTreeOk(g, visited, visitStack, tree, result)
        invariant inStack == OnStack(visitStack) && visited == visited0
        invariant !foundNew
        decreases |g[parent]| - visitStack[top].taken
      {
        bb := g[parent][visitStack[top].taken];
        if bb !in visited {
          StackDown(g, visited, visitStack, done, tree, result, bb);
          tree := tree + {(parent, bb)};
          StepDown(g, visited, visitStack, done, result, bb);
          foundNew := true;
          visited := visited + {bb};
          visitStack := Advanced(visitStack);
          break;
        }
        if bb in inStack {
          StackReport(g, visited, visitStack, done, tree, result, bb);
          StepReport(g, visited, visitStack, done, result, bb);
          result := result + [(parent, bb)];
        } else {
          StackSkip(g, visited, visitStack, done, tree, result);
          StepSkip(g, visited, visitStack, done, result, bb);
        }
        visitStack := Advanced(visitStack);
      }
      if foundNew {
        inStack := inStack + {bb};
        visitStack := visitStack + [Frame(bb, 0)];
        StackFits(g, visited, visitStack, done, result);
      } else {
        StackUp(g, visited, visitStack, done, tree, result);
        StepUp(g, visited, visitStack, done, result);
        done := done[parent := |done|];
        inStack := inStack - {parent};
        visitStack := visitStack[..top];
      }
    }
    SearchEnds(g, visited, done, result);
    AllNeeded(g, visited, tree, result);
  }

  lemma SearchEnds(g: Graph, visited: set<Block>, done: map<Block, nat>, result: seq<Edge>)
    requires SearchOk(g, visited, [], done, result)
    ensures BreaksAllCycles(g, result)
    ensures forall e <- result :: ClosesCycle(g, e)
  {
    forall walk | IsPath(g, walk) && Reaches(g, 0, walk[0])
      ensures !UncutCycle(g, EdgeSet(result), walk)
    {
      NoCycleLeft(g, visited, done, result, walk);
    }
  }

  lemma StackBlocks(g: Graph, visited: set<Block>, stack: seq<Frame>, done: map<Block, nat>, result: seq<Edge>)
    requires SearchOk(g, visited, stack, done, result) && stack != []
    ensures stack[|stack| - 1].block < |g| && stack[|stack| - 1].taken <= |g[stack[|stack| - 1].block]|
  {
  }

  lemma SearchStarts(g: Graph)
    requires IsGraph(g)
    ensures SearchOk(g, {0}, [Frame(0, 0)], map[], [])
    ensures OnStack([Frame(0, 0)]) == {0}
    ensures StackTreeOk(g, {0}, [Frame(0, 0)], {}, [])
  {
    assert [Frame(0, 0)][0].block == 0;
    assert OnStack([Frame(0, 0)]) == {0};
  }

  /** An entry without successors leads nowhere. */
  lemma LoneEntry(g: Graph)
    requires IsGraph(g) && g[0] == []
    ensures BreaksAllCycles(g, [])
  {
    assert OnStack([]) == {};
    assert SearchOk(g, {0}, [], map[0 := 0], []);
    forall walk | IsPath(g, walk) && Reaches(g, 0, walk[0])
      ensures !UncutCycle(g, EdgeSet([]), walk)
    {
      NoCycleLeft(g, {0}, map[0 := 0], [], walk);
    }
  }

  /** So there are edges to report exactly when the entry leads to a cycle. */
  lemma ReportedIffCyclic(g: Graph, result: seq<Edge>)
    requires IsGraph(g) && BreaksAllCycles(g, result) && forall e <- result :: ClosesCycle(g, e)
    ensures result == [] <==> forall walk | IsPath(g, walk) && Reaches(g, 0, walk[0]) :: !UncutCycle(g, {}, walk)
  {
    if result == [] {
      assert EdgeSet(result) == {};
    } else {
      var e := result[0];
      assert ClosesCycle(g, e);
      var path :| PathFromTo(g, path, e.1, e.0);
      var walk := [e.0] + path;
      assert UncutCycle(g, {}, walk) && Reaches(g, 0, walk[0]);
    }
  }
}
