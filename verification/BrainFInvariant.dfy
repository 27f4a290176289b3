/** What every graph under construction satisfies, and how each way of adding to it keeps that. */
module BrainFInvariant {
  import opened BrainFIR

  /** A claim, for each block, of registers that have been assigned whenever the block is entered. */
  type Availability = seq<set<Reg>>

  /** What is assigned at the end of block b. */
  ghost function AtEnd(g: Graph, av: Availability, b: BlockId): set<Reg>
    requires b < |g| == |av|
  {
    av[b] + Defs(g[b])
  }

  /** A block still open has no terminator yet; another ends in its only one. */
  predicate BlockShape(b: Block, isOpen: bool) {
    PhiOnlyFirst(b) && if isOpen then NoTerminator(b) else OneTerminatorAtEnd(b)
  }

  predicate NoTerminator(b: Block) {
    forall i | 0 <= i < |b| :: !IsTerminator(b[i])
  }

  predicate Shapes(g: Graph, open: set<BlockId>) {
    && (forall b <- open :: b < |g|)
    && forall b | 0 <= b < |g| :: BlockShape(g[b], b in open)
  }

  predicate EdgesInside(g: Graph) {
    forall b, s | 0 <= b < |g| && s in Succs(g[b]) :: 0 < s < |g|
  }

  ghost predicate PhisMatch(g: Graph) {
    forall b | 0 <= b < |g| :: OneIncomingPerPredecessor(g, b)
  }

  /** Registers are numbered in the order they are handed out, each to one instruction. */
  predicate Numbered(g: Graph, next: Reg) {
    && SingleAssignment(g)
    && forall b, i | 0 <= b < |g| && 0 <= i < |g[b]| && HasDst(g[b][i]) :: g[b][i].dst < next
  }

  ghost predicate EdgesCarry(g: Graph, av: Availability)
    requires |g| == |av|
  {
    forall b, s | 0 <= b < |g| && s in Succs(g[b]) && s < |g| :: av[s] <= AtEnd(g, av, b)
  }

  ghost predicate UsesCovered(g: Graph, av: Availability)
    requires |g| == |av|
  {
    forall b, i | 0 <= b < |g| && 0 <= i < |g[b]| :: Uses(g[b][i]) <= av[b] + Defs(g[b][..i])
  }

  ghost predicate PhiUsesCovered(g: Graph, av: Availability)
    requires |g| == |av|
  {
    forall b, j | 0 <= b < |g| && g[b] != [] && g[b][0].Phi? && 0 <= j < |g[b][0].incoming| ::
      var (r, a) := g[b][0].incoming[j];
      a < |g| && r in AtEnd(g, av, a)
  }

  /** The claim holds: nothing is claimed for the entry, every edge brings what its target claims, and every
      use is covered. */
  ghost predicate Certified(g: Graph, av: Availability, next: Reg) {
    && |g| == |av| > 0
    && av[0] == {}
    && (forall b, r | 0 <= b < |g| && r in av[b] :: r < next)
    && EdgesCarry(g, av)
    && UsesCovered(g, av)
    && PhiUsesCovered(g, av)
  }

  ghost predicate GraphOk(g: Graph, av: Availability, open: set<BlockId>, next: Reg) {
    && Shapes(g, open)
    && EdgesInside(g)
    && PhisMatch(g)
    && Numbered(g, next)
    && Certified(g, av, next)
  }

  // ----- A finished graph is well formed -----

  /** Along a way from the entry, everything claimed for its last block has been assigned in the blocks before. */
  lemma {:induction false} PathAssigns(g: Graph, av: Availability, next: Reg, path: seq<BlockId>, r: Reg)
    requires Certified(g, av, next) && IsPath(g, path)
    requires r in av[path[|path| - 1]]
    ensures exists k | 0 <= k < |path| - 1 :: path[k] < |g| && r in Defs(g[path[k]])
    decreases |path|
  {
    var n := |path| - 1;
    assert n > 0;
    var a := path[n - 1];
    assert path[n] in Succs(g[a]);
    assert av[path[n]] <= AtEnd(g, av, a);
    if r !in Defs(g[a]) {
      var before := path[..n];
      assert IsPath(g, before) && before[|before| - 1] == a;
      PathAssigns(g, av, next, before, r);
      var k :| 0 <= k < |before| - 1 && before[k] < |g| && r in Defs(g[before[k]]);
      assert path[k] == before[k];
    }
  }

  lemma ClaimsAreAssigned(g: Graph, av: Availability, next: Reg, b: BlockId, r: Reg)
    requires Certified(g, av, next) && b < |g| && r in av[b]
    ensures AssignedBefore(g, b, r)
  {
    forall path | IsPath(g, path) && path[|path| - 1] == b
      ensures exists k | 0 <= k < |path| - 1 :: path[k] < |g| && r in Defs(g[path[k]])
    {
      PathAssigns(g, av, next, path, r);
    }
  }

  lemma FinishedIsWellFormed(g: Graph, av: Availability, next: Reg)
    requires GraphOk(g, av, {}, next)
    ensures WellFormed(g)
  {
    assert Preds(g, 0) == {};
    forall b, i, r | 0 <= b < |g| && 0 <= i < |g[b]| && r in Uses(g[b][i])
      ensures r in Defs(g[b][..i]) || AssignedBefore(g, b, r)
    {
      assert Uses(g[b][i]) <= av[b] + Defs(g[b][..i]);
      if r in av[b] {
        ClaimsAreAssigned(g, av, next, b, r);
      }
    }
    forall b, j | 0 <= b < |g| && g[b] != [] && g[b][0].Phi? && 0 <= j < |g[b][0].incoming|
      ensures var (r, a) := g[b][0].incoming[j];
              a < |g| && (r in Defs(g[a]) || AssignedBefore(g, a, r))
    {
      var (r, a) := g[b][0].incoming[j];
      if r in av[a] {
        ClaimsAreAssigned(g, av, next, a, r);
      }
    }
  }

  // ----- An instruction at the end of an open block -----

  lemma DefsAppend(b: Block, i: Instr)
    ensures Defs(b + [i]) == Defs(b) + (if HasDst(i) then {i.dst} else {})
  {
    var b' := b + [i];
    forall r
      ensures r in Defs(b') <==> r in Defs(b) || (HasDst(i) && r == i.dst)
    {
      if r in Defs(b) {
        var k :| 0 <= k < |b| && HasDst(b[k]) && b[k].dst == r;
        assert b'[k] == b[k];
      }
      if HasDst(i) && r == i.dst {
        assert b'[|b|] == i;
      }
    }
  }

  function Append(g: Graph, b: BlockId, i: Instr): Graph
    requires b < |g|
  {
    g[b := g[b] + [i]]
  }

  lemma AppendEdges(g: Graph, open: set<BlockId>, b: BlockId, i: Instr)
    requires Shapes(g, open) && b in open && !IsTerminator(i) && !i.Phi?
    ensures Shapes(Append(g, b, i), open)
    ensures forall c | 0 <= c < |g| :: Succs(Append(g, b, i)[c]) == Succs(g[c])
    ensures forall c | 0 <= c < |g| :: Preds(Append(g, b, i), c) == Preds(g, c)
  {
    assert g[b] != [] ==> !IsTerminator(g[b][|g[b]| - 1]);
  }

  lemma AppendPhis(g: Graph, open: set<BlockId>, b: BlockId, i: Instr)
    requires Shapes(g, open) && PhisMatch(g) && b in open && !IsTerminator(i) && !i.Phi?
    ensures PhisMatch(Append(g, b, i))
  {
    AppendEdges(g, open, b, i);
    var g' := Append(g, b, i);
    forall c | 0 <= c < |g'|
      ensures OneIncomingPerPredecessor(g', c)
    {
      assert OneIncomingPerPredecessor(g, c);
    }
  }

  lemma AppendNumbered(g: Graph, next: Reg, b: BlockId, i: Instr)
    requires Numbered(g, next) && b < |g|
    requires HasDst(i) ==> i.dst == next
    ensures Numbered(Append(g, b, i), next + 1)
  {
    var g' := Append(g, b, i);
    assert forall c, j | 0 <= c < |g'| && 0 <= j < |g'[c]| ::
        g'[c][j] == if c == b && j == |g[b]| then i else g[c][j];
  }

  lemma AppendCarries(g: Graph, av: Availability, open: set<BlockId>, b: BlockId, i: Instr)
    requires Shapes(g, open) && |g| == |av| && EdgesCarry(g, av) && PhiUsesCovered(g, av)
    requires b in open && !IsTerminator(i) && !i.Phi?
    ensures EdgesCarry(Append(g, b, i), av)
    ensures PhiUsesCovered(Append(g, b, i), av)
  {
    var g' := Append(g, b, i);
    AppendEdges(g, open, b, i);
    DefsAppend(g[b], i);
    assert forall c | 0 <= c < |g| :: AtEnd(g, av, c) <= AtEnd(g', av, c);
    forall c, s | 0 <= c < |g'| && s in Succs(g'[c]) && s < |g'|
      ensures av[s] <= AtEnd(g', av, c)
    {
      assert s in Succs(g[c]);
    }
    forall c, j | 0 <= c < |g'| && g'[c] != [] && g'[c][0].Phi? && 0 <= j < |g'[c][0].incoming|
      ensures var (r, a) := g'[c][0].incoming[j];
              a < |g'| && r in AtEnd(g', av, a)
    {
      assert g[c] != [] && g[c][0] == g'[c][0];
      var (r, a) := g[c][0].incoming[j];
      assert a < |g| && r in AtEnd(g, av, a);
    }
  }

  lemma AppendUses(g: Graph, av: Availability, b: BlockId, i: Instr)
    requires |g| == |av| && UsesCovered(g, av)
    requires b < |g| && Uses(i) <= AtEnd(g, av, b)
    ensures UsesCovered(Append(g, b, i), av)
  {
    var g' := Append(g, b, i);
    forall c, j | 0 <= c < |g'| && 0 <= j < |g'[c]|
      ensures Uses(g'[c][j]) <= av[c] + Defs(g'[c][..j])
    {
      if c == b && j == |g[b]| {
        assert g'[b][..j] == g[b];
      } else {
        assert g'[c][j] == g[c][j] && g'[c][..j] == g[c][..j];
      }
    }
  }

  lemma AppendOk(g: Graph, av: Availability, open: set<BlockId>, next: Reg, b: BlockId, i: Instr)
    requires GraphOk(g, av, open, next)
    requires b in open && !IsTerminator(i) && !i.Phi?
    requires Uses(i) <= AtEnd(g, av, b)
    requires HasDst(i) ==> i.dst == next
    ensures GraphOk(Append(g, b, i), av, open, next + 1)
  {
    AppendEdges(g, open, b, i);
    AppendPhis(g, open, b, i);
    AppendNumbered(g, next, b, i);
    AppendCarries(g, av, open, b, i);
    AppendUses(g, av, b, i);
  }

  // ----- A new block -----

  /** A new block, empty or with a phi that has no incoming values yet. */
  lemma AddBlockOk(g: Graph, av: Availability, open: set<BlockId>, next: Reg, block: Block, claim: set<Reg>)
    requires GraphOk(g, av, open, next)
    requires block == [] || block == [Phi(next, [])]
    requires forall r <- claim :: r < next + |block|
    ensures GraphOk(g + [block], av + [claim], open + {|g|}, next + |block|)
  {
    AddBlockPhis(g, block, next);
    AddBlockCertified(g, av, open, next, block, claim);
    AddBlockShapes(g, open, block, next);
    AddBlockNumbered(g, block, next);
  }

  lemma AddBlockShapes(g: Graph, open: set<BlockId>, block: Block, next: Reg)
    requires Shapes(g, open) && EdgesInside(g)
    requires block == [] || block == [Phi(next, [])]
    ensures Shapes(g + [block], open + {|g|})
    ensures EdgesInside(g + [block])
  {
    var g' := g + [block];
    assert BlockShape(block, true);
    assert forall c | 0 <= c < |g| :: g'[c] == g[c] && BlockShape(g[c], c in open);
    assert Succs(block) == {};
  }

  lemma AddBlockNumbered(g: Graph, block: Block, next: Reg)
    requires Numbered(g, next)
    requires block == [] || block == [Phi(next, [])]
    ensures Numbered(g + [block], next + |block|)
  {
    var g' := g + [block];
    assert forall c | 0 <= c < |g| :: g'[c] == g[c];
  }

  lemma AddBlockPhis(g: Graph, block: Block, next: Reg)
    requires EdgesInside(g) && PhisMatch(g)
    requires block == [] || block == [Phi(next, [])]
    ensures PhisMatch(g + [block])
  {
    var g' := g + [block];
    assert forall c | 0 <= c < |g| :: g'[c] == g[c];
    forall c | 0 <= c < |g'|
      ensures OneIncomingPerPredecessor(g', c)
    {
      if c < |g| {
        assert Preds(g', c) == Preds(g, c);
        assert OneIncomingPerPredecessor(g, c);
      } else {
        assert Preds(g', c) == {};
      }
    }
  }

  lemma AddBlockCertified(g: Graph, av: Availability, open: set<BlockId>, next: Reg, block: Block, claim: set<Reg>)
    requires Certified(g, av, next) && EdgesInside(g)
    requires block == [] || block == [Phi(next, [])]
    requires forall r <- claim :: r < next + |block|
    ensures Certified(g + [block], av + [claim], next + |block|)
  {
    var g', av' := g + [block], av + [claim];
    assert forall c | 0 <= c < |g| :: g'[c] == g[c] && av'[c] == av[c] && AtEnd(g', av', c) == AtEnd(g, av, c);
    forall c, s | 0 <= c < |g'| && s in Succs(g'[c]) && s < |g'|
      ensures av'[s] <= AtEnd(g', av', c)
    {
      assert c < |g| && s in Succs(g[c]);
    }
    assert UsesCovered(g', av');
    forall c, j | 0 <= c < |g'| && g'[c] != [] && g'[c][0].Phi? && 0 <= j < |g'[c][0].incoming|
      ensures var (r, a) := g'[c][0].incoming[j];
              a < |g'| && r in AtEnd(g', av', a)
    {
      assert c < |g|;
      var (r, a) := g[c][0].incoming[j];
      assert a < |g| && r in AtEnd(g, av, a);
    }
  }

  // ----- A terminator -----

  function AddIncoming(b: Block, r: Reg, from: BlockId): Block {
    if b != [] && b[0].Phi? then [b[0].(incoming := b[0].incoming + [(r, from)])] + b[1..] else b
  }

  /** Block a is ended by a branch, and each phi there is told that r comes from a. */
  function Jump(g: Graph, a: BlockId, term: Instr, r: Reg): Graph {
    seq(|g|, b requires 0 <= b < |g| =>
      if b == a then g[a] + [term] else if b in Targets(term) then AddIncoming(g[b], r, a) else g[b])
  }

  lemma AddIncomingKeeps(b: Block, r: Reg, from: BlockId)
    ensures var b' := AddIncoming(b, r, from);
            && |b'| == |b| && Succs(b') == Succs(b) && Defs(b') == Defs(b)
            && forall i | 0 <= i < |b| ::
                 && (i > 0 ==> b'[i] == b[i])
                 && Uses(b'[i]) == Uses(b[i]) && IsTerminator(b'[i]) == IsTerminator(b[i])
                 && b'[i].Phi? == b[i].Phi? && HasDst(b'[i]) == HasDst(b[i])
                 && (HasDst(b[i]) ==> b'[i].dst == b[i].dst)
                 && Defs(b'[..i]) == Defs(b[..i])
  {
    var b' := AddIncoming(b, r, from);
    forall i | 0 <= i <= |b|
      ensures Defs(b'[..i]) == Defs(b[..i])
    {
      SameDefs(b'[..i], b[..i]);
    }
    assert b'[..|b|] == b' && b[..|b|] == b;
  }

  lemma SameDefs(b: Block, c: Block)
    requires |b| == |c|
    requires forall i | 0 <= i < |b| :: HasDst(b[i]) == HasDst(c[i]) && (HasDst(c[i]) ==> b[i].dst == c[i].dst)
    ensures Defs(b) == Defs(c)
  {
  }

  /** The branch may be put there: its targets are other blocks inside the graph, what they claim is assigned
      at the end of a, and r is too if one of them has a phi. */
  ghost predicate CanJump(g: Graph, av: Availability, open: set<BlockId>, a: BlockId, term: Instr, r: Reg) {
    && |g| == |av| && a in open && a < |g|
    && (term.Br? || term.CondBr?) && a !in Targets(term)
    && Uses(term) <= AtEnd(g, av, a)
    && forall t <- Targets(term) ::
         && 0 < t < |g| && av[t] <= AtEnd(g, av, a)
         && (g[t] != [] && g[t][0].Phi? ==> r in AtEnd(g, av, a))
  }

  /** Block by block, what a jump changes. */
  lemma JumpBlocks(g: Graph, av: Availability, open: set<BlockId>, a: BlockId, term: Instr, r: Reg)
    requires Shapes(g, open) && CanJump(g, av, open, a, term, r)
    ensures var g' := Jump(g, a, term, r);
            && |g'| == |g| && g'[a] == g[a] + [term]
            && Succs(g'[a]) == Targets(term) && Succs(g[a]) == {} && Defs(g'[a]) == Defs(g[a])
            && forall b | 0 <= b < |g| && b != a ::
                 && g'[b] == (if b in Targets(term) then AddIncoming(g[b], r, a) else g[b])
                 && Succs(g'[b]) == Succs(g[b]) && Defs(g'[b]) == Defs(g[b])
  {
    DefsAppend(g[a], term);
    var g': Graph := Jump(g, a, term, r);
    forall b | 0 <= b < |g| && b != a
      ensures Succs(g'[b]) == Succs(g[b]) && Defs(g'[b]) == Defs(g[b])
    {
      AddIncomingKeeps(g[b], r, a);
    }
  }

  lemma JumpPreds(g: Graph, av: Availability, open: set<BlockId>, a: BlockId, term: Instr, r: Reg, b: BlockId)
    requires Shapes(g, open) && CanJump(g, av, open, a, term, r)
    ensures a !in Preds(g, b)
    ensures Preds(Jump(g, a, term, r), b) == Preds(g, b) + (if b in Targets(term) then {a} else {})
  {
    JumpBlocks(g, av, open, a, term, r);
  }

  lemma JumpShapes(g: Graph, av: Availability, open: set<BlockId>, a: BlockId, term: Instr, r: Reg)
    requires Shapes(g, open) && CanJump(g, av, open, a, term, r)
    ensures Shapes(Jump(g, a, term, r), open - {a})
  {
    var g': Graph := Jump(g, a, term, r);
    forall b | 0 <= b < |g'|
      ensures BlockShape(g'[b], b in open - {a})
    {
      assert BlockShape(g[b], b in open);
      if b == a {
        assert g'[b] == g[a] + [term];
        ClosingShape(g[a], term);
      } else if b in Targets(term) {
        AddIncomingShape(g[b], b in open, r, a);
        assert g'[b] == AddIncoming(g[b], r, a);
      } else {
        assert g'[b] == g[b];
      }
    }
  }

  lemma ClosingShape(b: Block, term: Instr)
    requires BlockShape(b, true) && IsTerminator(term)
    ensures BlockShape(b + [term], false)
  {
  }

  lemma AddIncomingShape(b: Block, isOpen: bool, r: Reg, from: BlockId)
    requires BlockShape(b, isOpen)
    ensures BlockShape(AddIncoming(b, r, from), isOpen)
  {
    AddIncomingKeeps(b, r, from);
  }

  lemma JumpInside(g: Graph, av: Availability, open: set<BlockId>, a: BlockId, term: Instr, r: Reg)
    requires Shapes(g, open) && EdgesInside(g) && CanJump(g, av, open, a, term, r)
    ensures EdgesInside(Jump(g, a, term, r))
  {
    JumpBlocks(g, av, open, a, term, r);
  }

  lemma JumpNumbered(g: Graph, av: Availability, open: set<BlockId>, next: Reg, a: BlockId, term: Instr, r: Reg)
    requires Shapes(g, open) && Numbered(g, next) && CanJump(g, av, open, a, term, r)
    ensures Numbered(Jump(g, a, term, r), next)
  {
    var g': Graph := Jump(g, a, term, r);
    JumpBlocks(g, av, open, a, term, r);
    forall b, i | 0 <= b < |g'| && 0 <= i < |g'[b]| && HasDst(g'[b][i])
      ensures i < |g[b]| && HasDst(g[b][i]) && g[b][i].dst == g'[b][i].dst
    {
      if b != a {
        AddIncomingKeeps(g[b], r, a);
      }
    }
  }

  /** The incoming list of a block the jump goes to grows by one entry, for its new predecessor. */
  lemma JumpPhis(g: Graph, av: Availability, open: set<BlockId>, a: BlockId, term: Instr, r: Reg)
    requires Shapes(g, open) && PhisMatch(g) && CanJump(g, av, open, a, term, r)
    ensures PhisMatch(Jump(g, a, term, r))
  {
    var g': Graph := Jump(g, a, term, r);
    JumpBlocks(g, av, open, a, term, r);
    forall b | 0 <= b < |g'|
      ensures OneIncomingPerPredecessor(g', b)
    {
      JumpPreds(g, av, open, a, term, r, b);
      assert OneIncomingPerPredecessor(g, b);
      if b in Targets(term) && g[b] != [] && g[b][0].Phi? {
        IncomingGrows(g[b][0].incoming, Preds(g, b), r, a);
        assert g'[b][0].incoming == g[b][0].incoming + [(r, a)];
      } else if b == a && g[b] == [] {
        assert g'[b] == [term];
      }
    }
  }

  lemma IncomingGrows(incoming: seq<(Reg, BlockId)>, from: set<BlockId>, r: Reg, a: BlockId)
    requires IncomingFrom(incoming, from) && a !in from
    ensures IncomingFrom(incoming + [(r, a)], from + {a})
  {
    var more := incoming + [(r, a)];
    forall i | 0 <= i < |incoming|
      ensures incoming[i].1 in from
    {
    }
    forall b
      ensures b in (set i | 0 <= i < |more| :: more[i].1) <==> b in from + {a}
    {
      if b in from {
        var i :| 0 <= i < |incoming| && incoming[i].1 == b;
        assert more[i].1 == b;
      }
      if b == a {
        assert more[|incoming|].1 == a;
      }
    }
  }

  lemma JumpCarries(g: Graph, av: Availability, open: set<BlockId>, a: BlockId, term: Instr, r: Reg)
    requires Shapes(g, open) && CanJump(g, av, open, a, term, r)
    requires EdgesCarry(g, av)
    ensures EdgesCarry(Jump(g, a, term, r), av)
  {
    var g': Graph := Jump(g, a, term, r);
    JumpBlocks(g, av, open, a, term, r);
    forall b | 0 <= b < |g|
      ensures AtEnd(g', av, b) == AtEnd(g, av, b)
    {
    }
    forall b, s | 0 <= b < |g'| && s in Succs(g'[b]) && s < |g'|
      ensures av[s] <= AtEnd(g', av, b)
    {
      if b == a {
        JumpTarget(g, av, open, a, term, r, s);
      } else {
        assert Succs(g'[b]) == Succs(g[b]);
        EdgeCarries(g, av, b, s);
      }
    }
  }

  lemma JumpTarget(g: Graph, av: Availability, open: set<BlockId>, a: BlockId, term: Instr, r: Reg, s: BlockId)
    requires CanJump(g, av, open, a, term, r) && s in Targets(term)
    ensures s < |g| && av[s] <= AtEnd(g, av, a)
  {
  }

  lemma EdgeCarries(g: Graph, av: Availability, b: BlockId, s: BlockId)
    requires |g| == |av| && EdgesCarry(g, av) && b < |g| && s < |g| && s in Succs(g[b])
    ensures av[s] <= AtEnd(g, av, b)
  {
  }

  lemma JumpUses(g: Graph, av: Availability, open: set<BlockId>, a: BlockId, term: Instr, r: Reg)
    requires Shapes(g, open) && CanJump(g, av, open, a, term, r)
    requires UsesCovered(g, av)
    ensures UsesCovered(Jump(g, a, term, r), av)
  {
    var g': Graph := Jump(g, a, term, r);
    JumpBlocks(g, av, open, a, term, r);
    forall b, i | 0 <= b < |g'| && 0 <= i < |g'[b]|
      ensures Uses(g'[b][i]) <= av[b] + Defs(g'[b][..i])
    {
      if b == a && i == |g[b]| {
        assert g'[b][..i] == g[b];
      } else if b == a {
        assert g'[b][i] == g[b][i] && g'[b][..i] == g[b][..i];
      } else {
        AddIncomingKeeps(g[b], r, a);
        assert Uses(g[b][i]) <= av[b] + Defs(g[b][..i]);
      }
    }
  }

  lemma JumpPhiUses(g: Graph, av: Availability, open: set<BlockId>, a: BlockId, term: Instr, r: Reg)
    requires Shapes(g, open) && CanJump(g, av, open, a, term, r)
    requires PhiUsesCovered(g, av)
    ensures PhiUsesCovered(Jump(g, a, term, r), av)
  {
    var g': Graph := Jump(g, a, term, r);
    JumpBlocks(g, av, open, a, term, r);
    forall b, j | 0 <= b < |g'| && g'[b] != [] && g'[b][0].Phi? && 0 <= j < |g'[b][0].incoming|
      ensures var (q, c) := g'[b][0].incoming[j];
              c < |g'| && q in AtEnd(g', av, c)
    {
      assert g[b] != [] && g[b][0].Phi?;
      if j < |g[b][0].incoming| {
        assert g'[b][0].incoming[j] == g[b][0].incoming[j];
        var (q, c) := g[b][0].incoming[j];
        assert c < |g| && q in AtEnd(g, av, c);
      } else {
        assert g'[b][0].incoming[j] == (r, a);
      }
    }
  }

  lemma JumpOk(g: Graph, av: Availability, open: set<BlockId>, next: Reg, a: BlockId, term: Instr, r: Reg)
    requires GraphOk(g, av, open, next) && CanJump(g, av, open, a, term, r)
    ensures GraphOk(Jump(g, a, term, r), av, open - {a}, next)
  {
    JumpShapes(g, av, open, a, term, r);
    JumpInside(g, av, open, a, term, r);
    JumpNumbered(g, av, open, next, a, term, r);
    JumpPhis(g, av, open, a, term, r);
    JumpCarries(g, av, open, a, term, r);
    JumpUses(g, av, open, a, term, r);
    JumpPhiUses(g, av, open, a, term, r);
  }
}
