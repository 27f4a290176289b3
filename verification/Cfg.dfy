/** Control-flow graphs: blocks numbered from the entry, 0, with a list of successors each, and paths in them. */
module Cfg {
  type Block = nat

  type Graph = seq<seq<Block>>

  /** There is an entry block, and every successor is a block. */
  predicate IsGraph(g: Graph) {
    g != [] && forall b, s | 0 <= b < |g| && s in g[b] :: s < |g|
  }

  ghost predicate IsPath(g: Graph, path: seq<Block>) {
    && path != []
    && (forall i | 0 <= i < |path| :: path[i] < |g|)
    && (forall i | 0 <= i < |path| - 1 :: path[i + 1] in g[path[i]])
  }

  ghost predicate PathFromTo(g: Graph, path: seq<Block>, a: Block, b: Block) {
    IsPath(g, path) && path[0] == a && path[|path| - 1] == b
  }

  /** b can be reached from a, along no edges or more. */
  ghost predicate Reaches(g: Graph, a: Block, b: Block) {
    exists path :: PathFromTo(g, path, a, b)
  }

  lemma ReachesSelf(g: Graph, a: Block)
    requires a < |g|
    ensures Reaches(g, a, a)
  {
    assert PathFromTo(g, [a], a, a);
  }

  lemma ReachesStep(g: Graph, a: Block, b: Block)
    requires IsGraph(g) && a < |g| && b in g[a]
    ensures Reaches(g, a, b)
  {
    assert PathFromTo(g, [a, b], a, b);
  }

  lemma ReachesTrans(g: Graph, a: Block, b: Block, c: Block)
    requires Reaches(g, a, b) && Reaches(g, b, c)
    ensures Reaches(g, a, c)
  {
    var p :| PathFromTo(g, p, a, b);
    var q :| PathFromTo(g, q, b, c);
    var r := p + q[1..];
    forall i | 0 <= i < |r| - 1
      ensures r[i + 1] in g[r[i]]
    {
      if i >= |p| - 1 {
        assert r[i] == q[i - (|p| - 1)] && r[i + 1] == q[i + 1 - (|p| - 1)];
      }
    }
    assert PathFromTo(g, r, a, c);
  }

  /** What is reached along a path from a is reached from every block before it on the path. */
  lemma PathReaches(g: Graph, path: seq<Block>, i: nat, j: nat)
    requires IsPath(g, path) && i <= j < |path|
    ensures Reaches(g, path[i], path[j])
  {
    assert PathFromTo(g, path[i..j + 1], path[i], path[j]);
  }

  /** A set closed under successors holds every block reached from it. */
  lemma {:induction false} ClosedReaches(g: Graph, closed: set<Block>, path: seq<Block>, i: nat)
    requires IsPath(g, path) && i < |path|
    requires path[0] in closed
    requires forall b, s | b in closed && b < |g| && s in g[b] :: s in closed
    ensures path[i] in closed
  {
    if i > 0 {
      ClosedReaches(g, closed, path, i - 1);
      assert path[i - 1 + 1] in g[path[i - 1]];
    }
  }
}
