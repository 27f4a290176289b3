/** When a graph is the compiled form of a program, and why running it then does what the program does. */
module BrainFCode {
  import opened Machines
  import opened BrainFLang
  import opened BrainFIR

  // Registers and blocks with a fixed meaning.
  const ARR: Reg := 0
  const ARRMAX: Reg := 1
  const FIRST_HEAD: Reg := 2
  const ENTRY: BlockId := 0
  const ENDBB: BlockId := 1
  const ABERRORBB: BlockId := 2

  /** A place in the graph: an instruction, and the register that holds the head there. */
  datatype Place = Place(bb: BlockId, idx: nat, head: Reg)

  /** There are at least n more instructions at the place. */
  predicate Has(g: Graph, p: Place, n: nat) {
    p.bb < |g| && p.idx + n <= |g[p.bb]|
  }

  /** A register that is none of the fixed ones and not the head. */
  predicate Temp(p: Place, r: Reg) {
    r >= FIRST_HEAD && r != p.head
  }

  predicate ReadAt(g: Graph, p: Place) {
    && Has(g, p, 3)
    && var b := g[p.bb];
    && b[p.idx].GetChar? && Temp(p, b[p.idx].dst)
    && b[p.idx + 1].Trunc? && b[p.idx + 1].src == b[p.idx].dst && Temp(p, b[p.idx + 1].dst)
    && b[p.idx + 2] == Store(b[p.idx + 1].dst, p.head)
  }

  predicate WriteAt(g: Graph, p: Place) {
    && Has(g, p, 3)
    && var b := g[p.bb];
    && b[p.idx].Load? && b[p.idx].ptr == p.head && Temp(p, b[p.idx].dst)
    && b[p.idx + 1].SExt? && b[p.idx + 1].src == b[p.idx].dst && Temp(p, b[p.idx + 1].dst)
    && b[p.idx + 2] == PutChar(b[p.idx + 1].dst)
  }

  predicate ChangeAt(g: Graph, p: Place, amount: int) {
    && Has(g, p, 3)
    && var b := g[p.bb];
    && b[p.idx].Load? && b[p.idx].ptr == p.head && Temp(p, b[p.idx].dst)
    && b[p.idx + 1].AddI8? && b[p.idx + 1].src == b[p.idx].dst && Temp(p, b[p.idx + 1].dst)
    && b[p.idx + 1].amount == amount % 256
    && b[p.idx + 2] == Store(b[p.idx + 1].dst, p.head)
  }

  predicate GepAt(g: Graph, p: Place, offset: int) {
    && Has(g, p, 1)
    && var i := g[p.bb][p.idx];
    && i.Gep? && i.base == p.head && i.offset == offset && Temp(p, i.dst)
  }

  /** After the move at p: leave for the error block if the new head is outside the tape. */
  predicate BoundsCheckAt(g: Graph, p: Place) {
    && Has(g, p, 5)
    && var b := g[p.bb];
    && b[p.idx].Gep?
    && var q := Place(p.bb, p.idx + 1, b[p.idx].dst);
    && b[p.idx + 1].ICmpUGE? && b[p.idx + 1].left == q.head && b[p.idx + 1].right == ARRMAX && Temp(q, b[p.idx + 1].dst)
    && b[p.idx + 2].ICmpULT? && b[p.idx + 2].left == q.head && b[p.idx + 2].right == ARR && Temp(q, b[p.idx + 2].dst)
    && b[p.idx + 2].dst != b[p.idx + 1].dst
    && b[p.idx + 3].Or? && b[p.idx + 3].left == b[p.idx + 1].dst && b[p.idx + 3].right == b[p.idx + 2].dst
    && Temp(q, b[p.idx + 3].dst)
    && b[p.idx + 4].CondBr? && b[p.idx + 4].cond == b[p.idx + 3].dst && b[p.idx + 4].ifTrue == ABERRORBB
    && b[p.idx + 4].ifFalse < |g|
  }

  /** The parts of a compiled loop: the block with the test, the ways in (from before the loop and from the
      end of the body), the body and the block after the loop. */
  datatype LoopParts = LoopParts(test: BlockId, phi: Reg, latch: BlockId, latchHead: Reg,
                                 body: BlockId, exit: BlockId, exitHead: Reg)

  predicate TestBlock(g: Graph, test: BlockId) {
    && test < |g| && |g[test]| == 4
    && var b := g[test];
    && b[0].Phi? && |b[0].incoming| == 2 && b[0].dst >= FIRST_HEAD
    && b[0].incoming[0].1 < |g| && b[0].incoming[1].1 < |g| && b[0].incoming[0].1 != b[0].incoming[1].1
    && var p := Place(test, 1, b[0].dst);
    && b[1].Load? && b[1].ptr == p.head && Temp(p, b[1].dst)
    && b[2].ICmpEqZero? && b[2].src == b[1].dst && Temp(p, b[2].dst)
    && b[3].CondBr? && b[3].cond == b[2].dst && b[3].ifTrue < |g| && b[3].ifFalse < |g|
    && g[b[3].ifTrue] != []
    && var e := g[b[3].ifTrue][0];
    && e.Phi? && e.incoming == [(b[0].dst, test)] && e.dst >= FIRST_HEAD
  }

  function Parts(g: Graph, test: BlockId): LoopParts
    requires TestBlock(g, test)
  {
    var b := g[test];
    LoopParts(test, b[0].dst, b[0].incoming[1].1, b[0].incoming[1].0, b[3].ifFalse, b[3].ifTrue, g[b[3].ifTrue][0].dst)
  }

  /** The block at the place ends by entering the loop tested in `test`, bringing this head. */
  predicate EntersAt(g: Graph, p: Place, test: BlockId) {
    && TestBlock(g, test)
    && Has(g, p, 1) && p.idx + 1 == |g[p.bb]| && g[p.bb][p.idx] == Br(test)
    && (p.head, p.bb) in g[test][0].incoming
  }

  predicate LoopAt(g: Graph, p: Place) {
    && Has(g, p, 1) && g[p.bb][p.idx].Br?
    && var test := g[p.bb][p.idx].target;
    && EntersAt(g, p, test)
    && g[test][0].incoming[0] == (p.head, p.bb)
  }

  function BodyPlace(l: LoopParts): Place { Place(l.body, 0, l.phi) }

  function ExitPlace(l: LoopParts): Place { Place(l.exit, 1, l.exitHead) }

  /** The place where the code of a command ends. */
  function Next(g: Graph, checked: bool, p: Place, c: Cmd): Place {
    match c
    case Move(_) =>
      if !GepAt(g, p, c.offset) then p
      else
        var head := g[p.bb][p.idx].dst;
        if checked && BoundsCheckAt(g, p) then Place(g[p.bb][p.idx + 4].ifFalse, 0, head)
        else Place(p.bb, p.idx + 1, head)
    case Loop(_) => if LoopAt(g, p) then ExitPlace(Parts(g, g[p.bb][p.idx].target)) else p
    case _ => p.(idx := p.idx + 3)
  }

  function End(g: Graph, checked: bool, p: Place, cs: seq<Cmd>): Place
    decreases cs
  {
    if cs == [] then p else End(g, checked, Next(g, checked, p, cs[0]), cs[1..])
  }

  /** The graph has the code of the program cs at the place. */
  predicate Code(g: Graph, checked: bool, p: Place, cs: seq<Cmd>)
    decreases cs
  {
    cs != [] ==> CodeOf(g, checked, p, cs[0]) && Code(g, checked, Next(g, checked, p, cs[0]), cs[1..])
  }

  predicate CodeOf(g: Graph, checked: bool, p: Place, c: Cmd)
    decreases c
  {
    match c
    case Read => ReadAt(g, p)
    case Write => WriteAt(g, p)
    case Change(k) => ChangeAt(g, p, k)
    case Move(k) => GepAt(g, p, k) && (checked ==> BoundsCheckAt(g, p))
    case Loop(body) =>
      && LoopAt(g, p)
      && var l := Parts(g, g[p.bb][p.idx].target);
      && Code(g, checked, BodyPlace(l), body)
      && var q := End(g, checked, BodyPlace(l), body);
      && EntersAt(g, q, l.test) && q.bb == l.latch && q.head == l.latchHead
  }

  // ----- Growing a graph keeps the code it has -----

  /** The block of a loop test while the loop is being compiled: a phi with its first value, which comes from
      a block that branches here. */
  predicate OpenTest(g: Graph, b: BlockId) {
    && b < |g| && |g[b]| == 1 && g[b][0].Phi? && |g[b][0].incoming| == 1
    && var a := g[b][0].incoming[0].1;
       a < |g| && g[a] != [] && g[a][|g[a]| - 1] == Br(b)
  }

  /** Blocks are only added to, and not once they are closed; open loop tests may change. */
  ghost predicate Extends(g: Graph, g': Graph) {
    && |g| <= |g'|
    && forall b | 0 <= b < |g| :: if Closed(g[b]) then g'[b] == g[b] else OpenTest(g, b) || g[b] <= g'[b]
  }

  lemma TestBlockStays(g: Graph, g': Graph, test: BlockId)
    requires Extends(g, g') && TestBlock(g, test)
    ensures TestBlock(g', test) && Parts(g', test) == Parts(g, test) && g'[test] == g[test]
  {
    assert Closed(g[test]);
    var exit := g[test][3].ifTrue;
    assert !OpenTest(g, exit);
    assert g[exit] <= g'[exit];
  }

  lemma EntersStays(g: Graph, g': Graph, p: Place, test: BlockId)
    requires Extends(g, g') && EntersAt(g, p, test)
    ensures EntersAt(g', p, test)
  {
    TestBlockStays(g, g', test);
    assert Closed(g[p.bb]);
  }

  lemma {:induction false} CodeStays(g: Graph, g': Graph, checked: bool, p: Place, cs: seq<Cmd>)
    requires Extends(g, g')
    requires Code(g, checked, p, cs)
    ensures Code(g', checked, p, cs)
    ensures End(g', checked, p, cs) == End(g, checked, p, cs)
    decreases cs
  {
    if cs != [] {
      CodeOfStays(g, g', checked, p, cs[0]);
      CodeStays(g, g', checked, Next(g, checked, p, cs[0]), cs[1..]);
    }
  }

  lemma {:induction false} CodeOfStays(g: Graph, g': Graph, checked: bool, p: Place, c: Cmd)
    requires Extends(g, g')
    requires CodeOf(g, checked, p, c)
    ensures CodeOf(g', checked, p, c)
    ensures Next(g', checked, p, c) == Next(g, checked, p, c)
    decreases c
  {
    assert p.bb < |g| && !OpenTest(g, p.bb) && g[p.bb] <= g'[p.bb];
    match c
    case Loop(body) =>
      var test := g[p.bb][p.idx].target;
      EntersStays(g, g', p, test);
      TestBlockStays(g, g', test);
      var l := Parts(g, test);
      CodeStays(g, g', checked, BodyPlace(l), body);
      EntersStays(g, g', End(g, checked, BodyPlace(l), body), test);
    case _ =>
  }

  lemma {:induction false} CodeAppend(g: Graph, checked: bool, p: Place, cs: seq<Cmd>, c: Cmd)
    requires Code(g, checked, p, cs)
    requires CodeOf(g, checked, End(g, checked, p, cs), c)
    ensures Code(g, checked, p, cs + [c])
    ensures End(g, checked, p, cs + [c]) == Next(g, checked, End(g, checked, p, cs), c)
    decreases cs
  {
    if cs == [] {
      assert cs + [c] == [c];
      assert End(g, checked, Next(g, checked, p, c), []) == Next(g, checked, p, c);
    } else {
      assert (cs + [c])[1..] == cs[1..] + [c];
      CodeAppend(g, checked, Next(g, checked, p, cs[0]), cs[1..], c);
    }
  }
}
