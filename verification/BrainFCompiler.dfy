/** The one-pass compiler: it reads the text once, with one symbol of lookahead, and appends instructions and
    blocks to the graph as it goes. */
module BrainFCompiler {
  import opened Basics
  import opened BrainFLang
  import opened BrainFCoalesce
  import opened BrainFIR
  import opened BrainFCode
  import opened BrainFSim
  import opened BrainFInvariant
  import opened BrainFCorrect

  datatype Symbol = SYM_NONE | SYM_READ | SYM_WRITE | SYM_MOVE | SYM_CHANGE | SYM_LOOP | SYM_ENDLOOP | SYM_EOF

  // ----- The symbols still to come -----

  /** What a symbol variable of the compiler stands for. */
  function Meaning(s: Symbol, value: int): seq<Sym> {
    match s
    case SYM_NONE => []
    case SYM_READ => [SymRead]
    case SYM_WRITE => [SymWrite]
    case SYM_MOVE => [SymMove(value)]
    case SYM_CHANGE => [SymChange(value)]
    case SYM_LOOP => [SymLoop]
    case SYM_ENDLOOP => [SymEndLoop]
    case SYM_EOF => []
  }

  function JoinAll(xs: seq<Sym>, ys: seq<Sym>): seq<Sym> {
    if xs == [] then ys else Join(xs[0], ys)
  }

  /** The symbols not yet acted on: the current one, the one looked ahead at, and those of the unread text. */
  function Pending(cur: Symbol, curvalue: int, nxt: Symbol, nextvalue: int, unread: string): seq<Sym> {
    if nxt == SYM_NONE then JoinAll(Meaning(cur, curvalue), Lex(unread))
    else Meaning(cur, curvalue) + JoinAll(Meaning(nxt, nextvalue), Lex(unread))
  }

  predicate Runs(s: Symbol) { s == SYM_MOVE || s == SYM_CHANGE }

  /** The current symbol can be acted on: a run is known to be over because something else follows it. */
  predicate Complete(cur: Symbol, nxt: Symbol) {
    cur != SYM_NONE && (nxt != SYM_NONE <==> Runs(cur)) && nxt != cur
  }

  lemma LexStep(text: string, pos: nat)
    requires pos < |text|
    ensures Lex(text[pos..]) == JoinAll(SymOf(text[pos]), Lex(text[pos + 1..]))
  {
    var rest := text[pos..];
    assert rest[1..] == text[pos + 1..];
    var x := SymOf(text[pos]);
    if x != [] {
      assert (x + Symbols(rest[1..]))[1..] == Symbols(rest[1..]);
    } else {
      assert x + Symbols(rest[1..]) == Symbols(rest[1..]);
    }
  }

  lemma AtEof(cur: Symbol, curvalue: int, nextvalue: int, unread: string)
    requires unread == "" && (cur == SYM_NONE || Runs(cur))
    ensures Pending(cur, curvalue, SYM_NONE, nextvalue, unread)
         == if cur == SYM_NONE then Pending(SYM_EOF, curvalue, SYM_NONE, nextvalue, unread)
            else Pending(cur, curvalue, SYM_EOF, 0, unread)
  {
  }

  /** Acting on the current symbol. */
  lemma PendingHead(cur: Symbol, curvalue: int, nxt: Symbol, nextvalue: int, unread: string)
    requires Complete(cur, nxt)
    ensures Pending(cur, curvalue, nxt, nextvalue, unread)
         == Meaning(cur, curvalue) + Pending(nxt, nextvalue, SYM_NONE, 0, unread)
  {
  }

  lemma PendingStep(cs: seq<Cmd>, cur: Symbol, curvalue: int, nxt: Symbol, nextvalue: int,
                    unread: string, unread': string, c: Cmd)
    requires Complete(cur, nxt)
    requires if cur == SYM_LOOP then c.Loop? && Lex(unread) == Flatten(c.body) + [SymEndLoop] + Lex(unread')
             else unread == unread' && !c.Loop? && Meaning(cur, curvalue) == [SymOfCmd(c)]
    ensures Flatten(cs) + Pending(cur, curvalue, nxt, nextvalue, unread)
         == Flatten(cs + [c]) + Pending(nxt, nextvalue, SYM_NONE, 0, unread')
  {
    PendingHead(cur, curvalue, nxt, nextvalue, unread);
    FlattenAppend(cs, [c]);
    FlattenOne(c);
    if cur == SYM_LOOP {
      PendingNothing(nextvalue, 0, unread);
      PendingNothing(nextvalue, 0, unread');
    }
    Regroup(Flatten(cs), Flatten([c]), if cur == SYM_LOOP then Flatten(c.body) else [],
            Pending(nxt, nextvalue, SYM_NONE, 0, unread'));
  }

  lemma Regroup(xs: seq<Sym>, ys: seq<Sym>, body: seq<Sym>, zs: seq<Sym>)
    ensures xs + (ys + zs) == xs + ys + zs
    ensures [SymLoop] + (body + [SymEndLoop] + zs) == ([SymLoop] + body + [SymEndLoop]) + zs
  {
  }

  lemma FlattenOne(c: Cmd)
    ensures Flatten([c]) == if c.Loop? then [SymLoop] + Flatten(c.body) + [SymEndLoop] else [SymOfCmd(c)]
  {
    assert Flatten([c][1..]) == [];
  }

  lemma NextCharacter(cur: Symbol, curvalue: int, nextvalue: int, text: string, pos: nat)
    requires pos < |text|
    ensures JoinAll(Meaning(cur, curvalue), JoinAll(SymOf(text[pos]), Lex(text[pos + 1..])))
         == Pending(cur, curvalue, SYM_NONE, nextvalue, text[pos..])
  {
    hide Lex, Join, SymOf, Meaning;
    LexStep(text, pos);
  }

  lemma PendingStart(unread: string)
    ensures Lex(unread) == Flatten([]) + Pending(SYM_NONE, 0, SYM_NONE, 0, unread)
  {
  }

  lemma PendingNothing(curvalue: int, nextvalue: int, unread: string)
    ensures Pending(SYM_NONE, curvalue, SYM_NONE, nextvalue, unread) == Lex(unread)
  {
  }

  /** A loop whose rest is unbalanced makes the whole unbalanced. */
  lemma PendingUnbalanced(cs: seq<Cmd>, curvalue: int, nextvalue: int, unread: string, depth: nat)
    requires !Balanced(Lex(unread), depth + 1)
    ensures !Balanced(Flatten(cs) + Pending(SYM_LOOP, curvalue, SYM_NONE, nextvalue, unread), depth)
  {
    var rest := Pending(SYM_LOOP, curvalue, SYM_NONE, nextvalue, unread);
    assert rest == [SymLoop] + Lex(unread);
    assert rest[1..] == Lex(unread);
    BalancedAfterProgram(cs, rest, depth);
  }

  lemma PendingAtEnd(cur: Symbol, curvalue: int, nxt: Symbol, nextvalue: int, unread: string)
    requires Complete(cur, nxt)
    requires cur == SYM_EOF ==> unread == ""
    ensures cur == SYM_EOF ==> Pending(cur, curvalue, nxt, nextvalue, unread) == []
    ensures cur == SYM_ENDLOOP ==> Pending(cur, curvalue, nxt, nextvalue, unread) == [SymEndLoop] + Lex(unread)
  {
    assert Lex("") == [];
    hide Lex;
  }

  lemma BalancedAfterEnd(ys: seq<Sym>, d: nat)
    ensures Balanced([], d) == (d == 0)
    ensures Balanced([SymEndLoop] + ys, 0) == false
  {
    assert ([SymEndLoop] + ys)[0] == SymEndLoop;
  }

  lemma PendingEnd(cs: seq<Cmd>, cur: Symbol, curvalue: int, nxt: Symbol, nextvalue: int, unread: string, depth: nat)
    requires Complete(cur, nxt) && (cur == SYM_EOF || cur == SYM_ENDLOOP)
    requires cur == SYM_EOF ==> unread == ""
    ensures var rest := Pending(cur, curvalue, nxt, nextvalue, unread);
            && (cur == SYM_EOF ==> rest == [] && Flatten(cs) + rest == Flatten(cs))
            && (cur == SYM_ENDLOOP ==> rest == [SymEndLoop] + Lex(unread)
                                       && Flatten(cs) + rest == Flatten(cs) + [SymEndLoop] + Lex(unread))
            && ((cur == SYM_EOF) != (depth == 0) ==> !Balanced(Flatten(cs) + rest, depth))
  {
    hide Flatten, Lex, Balanced;
    PendingAtEnd(cur, curvalue, nxt, nextvalue, unread);
    BalancedAfterEnd(Lex(unread), depth);
    BalancedAfterProgram(cs, Pending(cur, curvalue, nxt, nextvalue, unread), depth);
  }

  lemma JoinTwice(x: Sym, y: Sym, zs: seq<Sym>)
    requires (x.SymMove? && y.SymMove?) || (x.SymChange? && y.SymChange?)
    ensures Join(x, Join(y, zs)) == Join(if x.SymMove? then SymMove(x.offset + y.offset)
                                         else SymChange(x.amount + y.amount), zs)
  {
    var ys := Join(y, zs);
    assert ys != [] && (y.SymMove? <==> ys[0].SymMove?);
  }

  /** Symbols that are not of one run are kept apart. */
  lemma JoinApart(cur: Symbol, curvalue: int, nxt: Symbol, nextvalue: int, zs: seq<Sym>)
    requires Complete(cur, nxt) && nxt != SYM_NONE && nxt != SYM_EOF
    ensures JoinAll(Meaning(cur, curvalue), JoinAll(Meaning(nxt, nextvalue), zs))
         == Meaning(cur, curvalue) + JoinAll(Meaning(nxt, nextvalue), zs)
  {
  }

  // ----- Balanced brackets -----

  /** The brackets match, given that d loops are open. */
  predicate Balanced(xs: seq<Sym>, d: nat) {
    if xs == [] then d == 0
    else if xs[0].SymLoop? then Balanced(xs[1..], d + 1)
    else if xs[0].SymEndLoop? then d > 0 && Balanced(xs[1..], d - 1)
    else Balanced(xs[1..], d)
  }

  lemma {:induction false} BalancedAfterProgram(cs: seq<Cmd>, ys: seq<Sym>, d: nat)
    ensures Balanced(Flatten(cs) + ys, d) == Balanced(ys, d)
    decreases cs
  {
    hide Flatten;
    FlattenStarts(cs);
    var zs := Flatten(cs) + ys;
    if cs == [] {
      assert zs == ys;
    } else {
      assert zs[0] == SymOfCmd(cs[0]);
      if cs[0].Loop? {
        LoopTail(cs, ys);
        var rest := [SymEndLoop] + (Flatten(cs[1..]) + ys);
        BalancedAfterProgram(cs[0].body, rest, d + 1);
        assert rest[1..] == Flatten(cs[1..]) + ys;
      } else {
        PlainTail(cs, ys);
      }
      BalancedAfterProgram(cs[1..], ys, d);
    }
  }

  lemma {:induction false} BalancedCoalesce(xs: seq<Sym>, d: nat)
    ensures Balanced(Coalesce(xs), d) == Balanced(xs, d)
    decreases xs
  {
    if xs != [] {
      var ys := Coalesce(xs[1..]);
      if xs[0].SymLoop? {
        BalancedCoalesce(xs[1..], d + 1);
      } else if xs[0].SymEndLoop? && d > 0 {
        BalancedCoalesce(xs[1..], d - 1);
      } else {
        BalancedCoalesce(xs[1..], d);
      }
      assert Join(xs[0], ys) == [Join(xs[0], ys)[0]] + Join(xs[0], ys)[1..];
      if ys != [] {
        assert ys == [ys[0]] + ys[1..];
      }
    }
  }

  /** The symbols of a balanced text are those of a program; the part up to the bracket that closes the
      innermost open loop is the program inside it. */
  lemma {:induction false} BalancedHasProgram(xs: seq<Sym>, d: nat) returns (cs: seq<Cmd>, rest: seq<Sym>)
    requires Balanced(xs, d)
    ensures xs == Flatten(cs) + rest && |rest| <= |xs|
    ensures if d == 0 then rest == [] else rest != [] && rest[0] == SymEndLoop && Balanced(rest[1..], d - 1)
    decreases |xs|
  {
    hide Flatten;
    if xs == [] || xs[0].SymEndLoop? {
      cs, rest := [], xs;
      FlattenStarts([]);
      assert [] + xs == xs;
    } else if xs[0].SymLoop? {
      var body, after := BalancedHasProgram(xs[1..], d + 1);
      cs, rest := BalancedHasProgram(after[1..], d);
      FlattenLoop(body, cs);
      LoopText(xs, Flatten(body), after, Flatten(cs), rest);
      cs := [Loop(body)] + cs;
    } else {
      cs, rest := BalancedHasProgram(xs[1..], d);
      var c := CmdOfSym(xs[0]);
      FlattenPlain(c, cs);
      assert xs == [xs[0]] + xs[1..];
      assert [xs[0]] + (Flatten(cs) + rest) == [xs[0]] + Flatten(cs) + rest;
      cs := [c] + cs;
    }
  }

  function CmdOfSym(x: Sym): (c: Cmd)
    requires !x.SymLoop? && !x.SymEndLoop?
    ensures !c.Loop? && SymOfCmd(c) == x
  {
    match x
    case SymRead => Read
    case SymWrite => Write
    case SymMove(k) => Move(k)
    case SymChange(k) => Change(k)
  }

  lemma LoopText(xs: seq<Sym>, body: seq<Sym>, after: seq<Sym>, f: seq<Sym>, rest: seq<Sym>)
    requires xs != [] && xs[0] == SymLoop && xs[1..] == body + after
    requires after != [] && after[0] == SymEndLoop && after[1..] == f + rest
    ensures xs == [SymLoop] + body + [SymEndLoop] + f + rest
  {
    assert after == [SymEndLoop] + after[1..] && xs == [SymLoop] + xs[1..];
  }

  /** A program can be read off its symbols in one way only. */
  lemma {:induction false} FlattenUnique(cs: seq<Cmd>, ds: seq<Cmd>, xs: seq<Sym>, ys: seq<Sym>)
    requires Flatten(cs) + xs == Flatten(ds) + ys
    requires xs == [] || xs[0].SymEndLoop?
    requires ys == [] || ys[0].SymEndLoop?
    ensures cs == ds && xs == ys
    decreases cs
  {
    hide Flatten;
    FlattenStarts(cs);
    FlattenStarts(ds);
    var zs := Flatten(cs) + xs;
    assert cs == [] ==> zs == xs;
    assert ds == [] ==> zs == ys;
    assert cs != [] ==> zs != [] && zs[0] == Flatten(cs)[0];
    assert ds != [] ==> zs != [] && zs[0] == Flatten(ds)[0];
    if cs != [] && ds != [] {
      assert zs[0] == SymOfCmd(cs[0]) == SymOfCmd(ds[0]);
      if cs[0].Loop? {
        LoopTail(cs, xs);
        LoopTail(ds, ys);
        var xs1, ys1 := Flatten(cs[1..]) + xs, Flatten(ds[1..]) + ys;
        FlattenUnique(cs[0].body, ds[0].body, [SymEndLoop] + xs1, [SymEndLoop] + ys1);
        assert ([SymEndLoop] + xs1)[1..] == xs1 && ([SymEndLoop] + ys1)[1..] == ys1;
      } else {
        PlainTail(cs, xs);
        PlainTail(ds, ys);
      }
      FlattenUnique(cs[1..], ds[1..], xs, ys);
      assert cs == [cs[0]] + cs[1..] && ds == [ds[0]] + ds[1..];
    }
  }

  lemma PlainTail(cs: seq<Cmd>, xs: seq<Sym>)
    requires cs != [] && !cs[0].Loop?
    ensures (Flatten(cs) + xs)[1..] == Flatten(cs[1..]) + xs
  {
    var rest := Flatten(cs[1..]);
    assert Flatten(cs) == [SymOfCmd(cs[0])] + rest;
    assert [SymOfCmd(cs[0])] + rest + xs == [SymOfCmd(cs[0])] + (rest + xs);
  }

  lemma LoopTail(cs: seq<Cmd>, xs: seq<Sym>)
    requires cs != [] && cs[0].Loop?
    ensures (Flatten(cs) + xs)[1..] == Flatten(cs[0].body) + ([SymEndLoop] + (Flatten(cs[1..]) + xs))
  {
    var body, rest := Flatten(cs[0].body), Flatten(cs[1..]);
    assert Flatten(cs) + xs == [SymLoop] + (body + ([SymEndLoop] + (rest + xs)));
  }

  lemma FlattenStarts(cs: seq<Cmd>)
    ensures cs == [] ==> Flatten(cs) == []
    ensures cs != [] ==> Flatten(cs) != [] && Flatten(cs)[0] == SymOfCmd(cs[0]) && !Flatten(cs)[0].SymEndLoop?
  {
  }

  // ----- The compiler -----

  function Base(checked: bool): set<Reg> {
    if checked then {ARR, ARRMAX} else {ARR}
  }

  /** Only block a has been added to, not beginning with a phi, and new blocks have been made. */
  ghost predicate Grown(g: Graph, g': Graph, a: BlockId) {
    && |g| <= |g'| && a < |g|
    && g[a] <= g'[a] && (g[a] == [] && g'[a] != [] ==> !g'[a][0].Phi?)
    && forall b | 0 <= b < |g| && b != a :: g'[b] == g[b]
  }

  lemma GrownExtends(g: Graph, g': Graph, a: BlockId, open: set<BlockId>)
    requires Grown(g, g', a) && Shapes(g, open) && a in open
    ensures Extends(g, g')
  {
    assert BlockShape(g[a], true);
  }

  lemma OpenIsNotFixed(g: Graph, av: Availability, open: set<BlockId>, next: Reg, checked: bool, b: BlockId)
    requires GraphOk(g, av, open, next) && FixedBlocks(g, checked) && b in open
    ensures b != ENDBB && (checked ==> b != ABERRORBB)
  {
    assert BlockShape(g[b], true);
    assert IsTerminator(g[ENDBB][1]);
    assert checked ==> IsTerminator(g[ABERRORBB][1]);
  }

  /** A block that begins with a phi is not the entry: a phi has a value for every predecessor, and the entry
      claims nothing. */
  lemma OpenIsNotEntry(g: Graph, av: Availability, open: set<BlockId>, next: Reg, b: BlockId)
    requires GraphOk(g, av, open, next) && b < |g| && ARR in av[b]
    ensures b != 0
  {
  }

  lemma OpenShapes(g: Graph, av: Availability, open: set<BlockId>, next: Reg)
    requires GraphOk(g, av, open, next)
    ensures Shapes(g, open)
  {
  }

  /** A jump to blocks without a phi only adds the branch. */
  lemma PlainJumpOk(g: Graph, av: Availability, open: set<BlockId>, next: Reg, a: BlockId, term: Instr, r: Reg)
    requires GraphOk(g, av, open, next) && CanJump(g, av, open, a, term, r)
    requires forall t <- Targets(term) :: g[t] == [] || !g[t][0].Phi?
    ensures GraphOk(Append(g, a, term), av, open - {a}, next)
  {
    JumpOk(g, av, open, next, a, term, r);
    hide GraphOk;
    assert Jump(g, a, term, r) == Append(g, a, term);
  }

  /** Going from g to g' has added the code of the command c at p, and it ends at p'. */
  ghost predicate Emitted(g: Graph, g': Graph, checked: bool, p: Place, c: Cmd, p': Place) {
    && Grown(g, g', p.bb)
    && CodeOf(g', checked, p, c) && p' == Next(g', checked, p, c)
    && (p'.bb == p.bb || p'.bb >= |g|)
  }

  /** The instructions are the code of the command, with the head in this register. */
  predicate IsCodeOf(c: Cmd, head: Reg, i0: Instr, i1: Instr, i2: Instr) {
    var b: Block := [i0, i1, i2];
    var p := Place(0, 0, head);
    match c
    case Read => ReadAt([b], p)
    case Write => WriteAt([b], p)
    case Change(k) => ChangeAt([b], p, k)
    case _ => false
  }

  /** A command that stays in its block has been emitted once its three instructions have been appended. */
  lemma StraightCodeIsEmitted(g: Graph, checked: bool, p: Place, c: Cmd, i0: Instr, i1: Instr, i2: Instr)
    requires p.bb < |g| && p.idx == |g[p.bb]|
    requires IsCodeOf(c, p.head, i0, i1, i2)
    ensures Emitted(g, Append(Append(Append(g, p.bb, i0), p.bb, i1), p.bb, i2), checked, p, c, p.(idx := p.idx + 3))
  {
    var g' := Append(Append(Append(g, p.bb, i0), p.bb, i1), p.bb, i2);
    var b: Block := [i0, i1, i2];
    assert b[0] == i0 && b[1] == i1 && b[2] == i2;
    assert g'[p.bb] == g[p.bb] + b;
  }

  /** The graph after a loop has been opened in block a: the branch to the test block, the test block with its
      phi, and the empty body block. */
  function LoopOpened(g: Graph, a: BlockId, head: Reg, phi: Reg): Graph
    requires a < |g|
  {
    Append(g, a, Br(|g|)) + [[Phi(phi, [(head, a)])], []]
  }

  lemma LoopOpenedOk(g: Graph, av: Availability, open: set<BlockId>, next: Reg, checked: bool, a: BlockId, head: Reg)
    requires GraphOk(g, av, open, next) && 0 < |g| == |av| && a in open && a < |g|
    requires Base(checked) + {head} <= AtEnd(g, av, a)
    requires forall r <- Base(checked) :: r < next
    ensures GraphOk(LoopOpened(g, a, head, next), av + [Base(checked), Base(checked) + {next}],
                    open - {a} + {|g|, |g| + 1}, next + 1)
  {
    hide GraphOk;
    var test := |g|;
    var g1, av1 := g + [[Phi(next, [])]], av + [Base(checked)];
    var g2, av2 := g1 + [[]], av1 + [Base(checked) + {next}];
    AddBlockOk(g, av, open, next, [Phi(next, [])], Base(checked));
    AddBlockOk(g1, av1, open + {test}, next + 1, [], Base(checked) + {next});
    assert AtEnd(g2, av2, a) == AtEnd(g, av, a);
    var open2 := open + {test} + {test + 1};
    JumpOk(g2, av2, open2, next + 1, a, Br(test), head);
    LoopOpenedBlocks(g, a, head, next);
    assert av2 == av + [Base(checked), Base(checked) + {next}];
    assert open2 - {a} == open - {a} + {|g|, |g| + 1};
  }

  lemma AddFirstIncoming(d: Reg, r: Reg, from: BlockId)
    ensures AddIncoming([Phi(d, [])], r, from) == [Phi(d, [(r, from)])]
  {
    var b: Block := [Phi(d, [])];
    assert b[1..] == [];
    assert [] + [(r, from)] == [(r, from)];
    assert [Phi(d, [(r, from)])] + [] == [Phi(d, [(r, from)])];
  }

  lemma LoopOpenedBlocks(g: Graph, a: BlockId, head: Reg, phi: Reg)
    requires a < |g|
    ensures Jump(g + [[Phi(phi, [])]] + [[]], a, Br(|g|), head) == LoopOpened(g, a, head, phi)
  {
    var test := |g|;
    var g2 := g + [[Phi(phi, [])]] + [[]];
    var g3: Graph := Jump(g2, a, Br(test), head);
    assert g2[test] == [Phi(phi, [])];
    AddFirstIncoming(phi, head, a);
    assert g3[test] == [Phi(phi, [(head, a)])];
    forall b | 0 <= b < |g3|
      ensures g3[b] == LoopOpened(g, a, head, phi)[b]
    {
      if b < |g| {
        assert g2[b] == g[b];
      }
    }
  }

  /** The graph after the loop tested in `test` has been closed at the end of block a: the branch back, the
      test itself, and the block after the loop. */
  function LoopClosed(g: Graph, a: BlockId, head: Reg, test: BlockId, body: BlockId, next: Reg): Graph
    requires a < |g| && test < |g| && a != test && g[test] != [] && g[test][0].Phi?
  {
    var phi := g[test][0];
    Append(g, a, Br(test))
      [test := [phi.(incoming := phi.incoming + [(head, a)]), Load(next, phi.dst), ICmpEqZero(next + 1, next),
                CondBr(next + 1, |g|, body)]]
    + [[Phi(next + 2, [(phi.dst, test)])]]
  }

  /** The first three additions: the branch back, the load and the comparison. */
  function LatchClosed(g: Graph, a: BlockId, head: Reg, test: BlockId, next: Reg): Graph
    requires a < |g| && test < |g| && a != test && g[test] != [] && g[test][0].Phi?
  {
    Append(Append(Jump(g, a, Br(test), head), test, Load(next, g[test][0].dst)), test, ICmpEqZero(next + 1, next))
  }

  lemma LatchClosedOk(g: Graph, av: Availability, open: set<BlockId>, next: Reg, a: BlockId, head: Reg, test: BlockId)
    requires GraphOk(g, av, open, next) && |g| == |av| && a in open && a < |g|
    requires head in AtEnd(g, av, a)
    requires test in open && 0 < test < |g| && test != a && |g[test]| == 1 && g[test][0].Phi?
    requires av[test] <= AtEnd(g, av, a)
    ensures var g3 := LatchClosed(g, a, head, test, next);
            && GraphOk(g3, av, open - {a}, next + 2) && |g3| == |g|
            && {g[test][0].dst, next + 1} <= Defs(g3[test])
  {
    hide GraphOk;
    var phi := g[test][0].dst;
    assert g[test] == [g[test][0]];
    assert phi in Defs(g[test]);
    var g1: Graph := Jump(g, a, Br(test), head);
    JumpOk(g, av, open, next, a, Br(test), head);
    assert g1[test] == AddIncoming(g[test], head, a);
    AddIncomingKeeps(g[test], head, a);
    LoopTestOk(g1, av, open - {a}, next, test, phi);
  }

  /** The load and the comparison in the test block. */
  lemma LoopTestOk(g: Graph, av: Availability, open: set<BlockId>, next: Reg, test: BlockId, phi: Reg)
    requires GraphOk(g, av, open, next) && |g| == |av| && test in open && test < |g| && phi in Defs(g[test])
    ensures var g' := Append(Append(g, test, Load(next, phi)), test, ICmpEqZero(next + 1, next));
            && GraphOk(g', av, open, next + 2)
            && {phi, next + 1} <= Defs(g'[test])
  {
    hide GraphOk, Defs;
    var g1 := Append(g, test, Load(next, phi));
    AppendOk(g, av, open, next, test, Load(next, phi));
    DefsAppend(g[test], Load(next, phi));
    AppendOk(g1, av, open, next + 1, test, ICmpEqZero(next + 1, next));
    DefsAppend(g1[test], ICmpEqZero(next + 1, next));
  }

  lemma LatchKeepsBody(g: Graph, a: BlockId, head: Reg, test: BlockId, body: BlockId, next: Reg)
    requires a < |g| && test < |g| && a != test && g[test] != [] && g[test][0].Phi?
    requires body < |g| && body != test && (g[body] == [] || !g[body][0].Phi?)
    ensures var b: Block := LatchClosed(g, a, head, test, next)[body];
            b == [] || !b[0].Phi?
  {
  }

  lemma LoopClosedOk(g: Graph, av: Availability, open: set<BlockId>, next: Reg, checked: bool,
                     a: BlockId, head: Reg, test: BlockId, body: BlockId)
    requires GraphOk(g, av, open, next) && |g| == |av| && a in open && a < |g|
    requires Base(checked) + {head} <= AtEnd(g, av, a)
    requires forall r <- Base(checked) :: r < next
    requires test in open && 0 < test < |g| && test != a && |g[test]| == 1 && g[test][0].Phi?
             && av[test] == Base(checked)
    requires 0 < body < |g| && body != test && av[body] == Base(checked) + {g[test][0].dst}
    requires g[body] == [] || !g[body][0].Phi?
    ensures GraphOk(LoopClosed(g, a, head, test, body, next), av + [Base(checked)], open - {a, test} + {|g|}, next + 3)
  {
    hide GraphOk;
    hide LoopClosed;
    LatchClosedOk(g, av, open, next, a, head, test);
    var g3: Graph := LatchClosed(g, a, head, test, next);
    LatchKeepsBody(g, a, head, test, body, next);
    hide LatchClosed;
    TestClosedOk(g3, av, open - {a}, next + 2, checked, test, body, g[test][0].dst, next + 1);
    LoopClosedBlocks(g, a, head, test, body, next);
    assert open - {a} - {test} + {|g3|} == open - {a, test} + {|g|};
  }

  /** The block after the loop and the branch of the test. */
  lemma TestClosedOk(g: Graph, av: Availability, open: set<BlockId>, next: Reg, checked: bool,
                     test: BlockId, body: BlockId, phi: Reg, cond: Reg)
    requires GraphOk(g, av, open, next) && |g| == |av| && test in open && 0 < test < |g|
    requires av[test] == Base(checked) && {phi, cond} <= Defs(g[test])
    requires 0 < body < |g| && body != test && av[body] == Base(checked) + {phi}
    requires g[body] == [] || !g[body][0].Phi?
    requires forall r <- Base(checked) :: r < next
    ensures GraphOk(Jump(g + [[Phi(next, [])]], test, CondBr(cond, |g|, body), phi), av + [Base(checked)],
                    open - {test} + {|g|}, next + 1)
  {
    hide GraphOk;
    var exit := |g|;
    var g4, av4, o4 := g + [[Phi(next, [])]], av + [Base(checked)], open + {exit};
    AddBlockOk(g, av, open, next, [Phi(next, [])], Base(checked));
    assert AtEnd(g4, av4, test) == AtEnd(g, av, test);
    JumpOk(g4, av4, o4, next + 1, test, CondBr(cond, exit, body), phi);
    assert o4 - {test} == open - {test} + {exit};
  }

  /** What the first three additions leave in each block. */
  lemma LatchClosedBlocks(g: Graph, a: BlockId, head: Reg, test: BlockId, next: Reg)
    requires a < |g| && test < |g| && a != test && |g[test]| == 1 && g[test][0].Phi?
    ensures var g': Graph, phi := LatchClosed(g, a, head, test, next), g[test][0];
            && |g'| == |g|
            && g'[test] == [phi.(incoming := phi.incoming + [(head, a)]), Load(next, phi.dst),
                            ICmpEqZero(next + 1, next)]
            && forall b | 0 <= b < |g| && b != test :: g'[b] == if b == a then g[a] + [Br(test)] else g[b]
  {
    var phi := g[test][0];
    var g1: Graph := Jump(g, a, Br(test), head);
    var g2 := Append(g1, test, Load(next, phi.dst));
    assert g[test] == [phi];
    assert g1[test] == [phi.(incoming := phi.incoming + [(head, a)])];
    assert g2[test] == g1[test] + [Load(next, phi.dst)];
  }

  /** The five additions together. */
  lemma LoopClosedBlocks(g: Graph, a: BlockId, head: Reg, test: BlockId, body: BlockId, next: Reg)
    requires a < |g| && test < |g| && a != test && |g[test]| == 1 && g[test][0].Phi?
    requires body < |g| && body != test && (g[body] == [] || !g[body][0].Phi?)
    ensures var phi := g[test][0].dst;
            var g4 := LatchClosed(g, a, head, test, next) + [[Phi(next + 2, [])]];
            Jump(g4, test, CondBr(next + 1, |g|, body), phi) == LoopClosed(g, a, head, test, body, next)
  {
    hide LatchClosed;
    LatchClosedBlocks(g, a, head, test, next);
    LatchKeepsBody(g, a, head, test, body, next);
    var phi := g[test][0].dst;
    var g4 := LatchClosed(g, a, head, test, next) + [[Phi(next + 2, [])]];
    var g5: Graph := Jump(g4, test, CondBr(next + 1, |g|, body), phi);
    var h := LoopClosed(g, a, head, test, body, next);
    assert g5[test] == g4[test] + [CondBr(next + 1, |g|, body)] == h[test];
    AddFirstIncoming(next + 2, phi, test);
    assert g5[|g|] == AddIncoming(g4[|g|], phi, test) == h[|g|];
    forall b | 0 <= b < |g5|
      ensures g5[b] == h[b]
    {
      if b < |g| && b != test {
        assert g5[b] == g4[b];
      }
    }
  }

  /** What the compiler relies on holds again for the block after the loop. */
  lemma LoopClosedReady(g: Graph, av: Availability, open: set<BlockId>, next: Reg, checked: bool,
                        a: BlockId, head: Reg, test: BlockId, body: BlockId)
    requires GraphOk(g, av, open, next) && |g| == |av| && a in open && (forall b <- open :: b < |g|)
    requires FixedBlocks(g, checked) && FIRST_HEAD < next
    requires Base(checked) + {head} <= AtEnd(g, av, a)
    requires test in open && test != a && |g[test]| == 1 && g[test][0].Phi? && av[test] == Base(checked)
    requires 0 < body < |g| && body != test && av[body] == Base(checked) + {g[test][0].dst}
    requires g[body] == [] || !g[body][0].Phi?
    ensures var g' := LoopClosed(g, a, head, test, body, next);
            var av' := av + [Base(checked)];
            && GraphOk(g', av', open - {a, test} + {|g|}, next + 3)
            && |g'| == |av'| == |g| + 1 && FixedBlocks(g', checked)
            && Base(checked) + {next + 2} <= AtEnd(g', av', |g|)
  {
    hide GraphOk;
    OpenIsNotFixed(g, av, open, next, checked, a);
    OpenIsNotFixed(g, av, open, next, checked, test);
    OpenIsNotEntry(g, av, open, next, test);
    LoopClosedOk(g, av, open, next, checked, a, head, test, body);
    assert LoopClosed(g, a, head, test, body, next)[|g|][0].dst == next + 2;
  }

  /** The same in the order the compiler does it. */
  lemma CloseLoopSteps(g: Graph, a: BlockId, head: Reg, test: BlockId, body: BlockId, next: Reg)
    requires a < |g| && test < |g| && a != test && |g[test]| == 1 && g[test][0].Phi?
    ensures var phi := g[test][0].dst;
            var g1 := g[a := g[a] + [Br(test)]];
            var node := g1[test][0];
            var g2 := g1[test := [node.(incoming := node.incoming + [(head, a)])]];
            var g3 := g2[test := g2[test] + [Load(next, phi)]];
            var g4 := g3[test := g3[test] + [ICmpEqZero(next + 1, next)]];
            var g5 := g4 + [[]];
            var g6 := g5[test := g5[test] + [CondBr(next + 1, |g4|, body)]];
            g6[|g4| := [Phi(next + 2, [(phi, test)])]] == LoopClosed(g, a, head, test, body, next)
  {
    var phi := g[test][0].dst;
    var node := g[test][0];
    var block: Block := [node.(incoming := node.incoming + [(head, a)])] + [Load(next, phi)]
                        + [ICmpEqZero(next + 1, next)] + [CondBr(next + 1, |g|, body)];
    assert block == LoopClosed(g, a, head, test, body, next)[test];
    assert g[a := g[a] + [Br(test)]][test := block] + [[Phi(next + 2, [(phi, test)])]]
        == LoopClosed(g, a, head, test, body, next);
  }

  // ----- Putting the pieces together -----

  /** The code of cs runs from p0 to the end of the block now being added to, where p is. */
  ghost predicate Written(g0: Graph, g: Graph, checked: bool, p0: Place, cs: seq<Cmd>, p: Place) {
    && Grown(g0, g, p0.bb)
    && (p.bb == p0.bb || p.bb >= |g0|)
    && Code(g, checked, p0, cs) && End(g, checked, p0, cs) == p
  }

  lemma WriteCommand(g0: Graph, g: Graph, g': Graph, checked: bool, p0: Place, cs: seq<Cmd>, p: Place, c: Cmd,
                     p': Place, open: set<BlockId>)
    requires Written(g0, g, checked, p0, cs, p)
    requires Shapes(g, open) && p.bb in open
    requires Emitted(g, g', checked, p, c, p')
    ensures Written(g0, g', checked, p0, cs + [c], p')
    ensures p'.bb == p0.bb || p'.bb >= |g0|
  {
    GrownExtends(g, g', p.bb, open);
    CodeStays(g, g', checked, p0, cs);
    CodeAppend(g', checked, p0, cs, c);
  }

  lemma WriteNothing(g0: Graph, checked: bool, p0: Place)
    requires p0.bb < |g0|
    ensures Written(g0, g0, checked, p0, [], p0)
  {
  }

  /** While the body of a loop is compiled, its test block stays as it was begun. */
  lemma StillInLoop(g0: Graph, g: Graph, checked: bool, p0: Place, cs: seq<Cmd>, p: Place, test: BlockId)
    requires Written(g0, g, checked, p0, cs, p)
    requires test < |g0| && test != p0.bb && g0[p0.bb] == []
    ensures g[test] == g0[test] && test < |g| && p0.bb < |g|
    ensures g[p0.bb] == [] || !g[p0.bb][0].Phi?
  {
  }

  /** The loop whose test block and empty body block were the last blocks of g has been compiled in g'. */
  ghost predicate LoopDone(g: Graph, g': Graph, checked: bool, test: BlockId, bodybb: BlockId, cs: seq<Cmd>,
                           p': Place) {
    && |g| <= |g'| && test < |g| && bodybb < |g|
    && (forall b | 0 <= b < |g| && b != test && b != bodybb :: g'[b] == g[b])
    && TestBlock(g', test) && g[test] != [] && g[test][0].Phi? && |g[test][0].incoming| == 1
    && g'[test][0].incoming[0] == g[test][0].incoming[0]
    && p'.bb >= |g|
    && var l := Parts(g', test);
    && l.body == bodybb && p' == ExitPlace(l)
    && Code(g', checked, BodyPlace(l), cs)
    && var q := End(g', checked, BodyPlace(l), cs);
    && EntersAt(g', q, test) && q.bb == l.latch && q.head == l.latchHead
  }

  lemma LoopIsEmitted(g: Graph, g': Graph, checked: bool, p: Place, phi: Reg, cs: seq<Cmd>, p': Place)
    requires p.bb < |g| && p.idx == |g[p.bb]|
    requires LoopDone(LoopOpened(g, p.bb, p.head, phi), g', checked, |g|, |g| + 1, cs, p')
    ensures Emitted(g, g', checked, p, Loop(cs), p')
  {
    var h := LoopOpened(g, p.bb, p.head, phi);
    assert h[p.bb] == g[p.bb] + [Br(|g|)];
    assert h[|g|] == [Phi(phi, [(p.head, p.bb)])];
    assert g'[|g|][0].incoming[0] == (p.head, p.bb);
    assert EntersAt(g', p, |g|);
  }

  /** Closing the loop after its body has been written. */
  lemma LoopIsDone(g0: Graph, g: Graph, checked: bool, test: BlockId, phi: Reg, bodybb: BlockId, cs: seq<Cmd>,
                   p: Place, next: Reg, open: set<BlockId>)
    requires Shapes(g, open) && p.bb in open && test in open && test != p.bb
    requires OpenTest(g0, test) && test != bodybb && g[test] == g0[test] && phi == g0[test][0].dst
    requires Written(g0, g, checked, Place(bodybb, 0, phi), cs, p) && g0[bodybb] == []
    requires p.bb < |g| && p.idx == |g[p.bb]|
    requires g0[test][0].incoming[0].1 !in open && g0[test][0].incoming[0].1 != bodybb
    requires FIRST_HEAD <= phi < next
    ensures LoopDone(g0, LoopClosed(g, p.bb, p.head, test, bodybb, next), checked, test, bodybb, cs,
                     Place(|g|, 1, next + 2))
  {
    var g' := LoopClosed(g, p.bb, p.head, test, bodybb, next);
    var p0 := Place(bodybb, 0, phi);
    assert OpenTest(g, test);
    assert BlockShape(g[p.bb], true) && BlockShape(g[test], true);
    assert Extends(g, g');
    CodeStays(g, g', checked, p0, cs);
    assert g'[p.bb] == g[p.bb] + [Br(test)];
    assert TestBlock(g', test);
  }

  function StartGraph(checked: bool, size: nat): Graph {
    [Header(checked, size), [Free(ARR), Ret]] + (if checked then [[Puts, Br(ENDBB)]] else [])
  }

  function StartAvailability(checked: bool): Availability {
    [{}, {ARR}] + (if checked then [{ARR}] else [])
  }

  lemma StartIsOk(checked: bool, size: nat)
    ensures GraphOk(StartGraph(checked, size), StartAvailability(checked), {ENTRY}, FIRST_HEAD + 1)
  {
    StartShapes(checked, size);
    StartNumbered(checked, size);
    StartEdges(checked, size);
    StartUses(checked, size);
    StartPhis(checked, size);
  }

  lemma StartPhis(checked: bool, size: nat)
    ensures PhisMatch(StartGraph(checked, size))
    ensures PhiUsesCovered(StartGraph(checked, size), StartAvailability(checked))
  {
    var g: Graph := StartGraph(checked, size);
    assert forall b | 0 <= b < |g| :: !g[b][0].Phi?;
  }

  lemma StartNumbered(checked: bool, size: nat)
    ensures Numbered(StartGraph(checked, size), FIRST_HEAD + 1)
  {
    var g: Graph := StartGraph(checked, size);
    var h: Block := Header(checked, size);
    assert g[0] == h && g[1] == [Free(ARR), Ret] && (checked ==> g[2] == [Puts, Br(ENDBB)]);
    assert h[0] == Malloc(ARR, size) && h[1] == Memset(ARR, size);
    if checked {
      assert h[2] == Gep(ARRMAX, ARR, size) && h[3] == Gep(FIRST_HEAD, ARR, size / 2) && |h| == 4;
    } else {
      assert h[2] == Gep(FIRST_HEAD, ARR, size / 2) && |h| == 3;
    }
    assert forall b, i | 0 <= b < |g| && 0 <= i < |g[b]| :: HasDst(g[b][i]) ==> b == 0 && i != 1;
  }

  lemma StartEdges(checked: bool, size: nat)
    ensures EdgesCarry(StartGraph(checked, size), StartAvailability(checked))
  {
    var g: Graph, h: Block := StartGraph(checked, size), Header(checked, size);
    assert g[0] == h && g[1] == [Free(ARR), Ret] && (checked ==> g[2] == [Puts, Br(ENDBB)]);
    assert h[|h| - 1] == Gep(FIRST_HEAD, ARR, size / 2);
    assert forall b | 0 <= b < |g| :: Succs(g[b]) == if b == 2 then {ENDBB} else {};
  }

  lemma StartShapes(checked: bool, size: nat)
    ensures Shapes(StartGraph(checked, size), {ENTRY})
    ensures EdgesInside(StartGraph(checked, size))
  {
    var g := StartGraph(checked, size);
    assert NoTerminator(Header(checked, size));
    assert forall b | 0 <= b < |g| :: BlockShape(g[b], b in {ENTRY});
  }

  lemma StartUses(checked: bool, size: nat)
    ensures UsesCovered(StartGraph(checked, size), StartAvailability(checked))
  {
    var g: Graph, av := StartGraph(checked, size), StartAvailability(checked);
    var h := Header(checked, size);
    forall b, i | 0 <= b < |g| && 0 <= i < |g[b]|
      ensures Uses(g[b][i]) <= av[b] + Defs(g[b][..i])
    {
      if b == 0 && i > 0 {
        assert g[b][..i][0] == Malloc(ARR, size);
        assert ARR in Defs(g[b][..i]);
      }
    }
  }

  class BrainF {
    const text: string
    const memtotal: nat
    const checked: bool
    /** How much of the text has been read. */
    var pos: nat
    var blocks: Graph
    /** The block instructions are appended to. */
    var insert: BlockId
    /** The register that holds the head. */
    var curhead: Reg
    /** The next register to hand out. */
    var next: Reg
    ghost var avail: Availability
    ghost var open: set<BlockId>

    ghost predicate Ready()
      reads this
    {
      && GraphOk(blocks, avail, open, next)
      && insert in open && |blocks| == |avail| && (forall b <- open :: b < |blocks|)
      && FixedBlocks(blocks, checked)
      && Base(checked) <= AtEnd(blocks, avail, insert)
      && curhead in AtEnd(blocks, avail, insert) && FIRST_HEAD <= curhead < next
      && avail[ENDBB] == {ARR} && (checked ==> avail[ABERRORBB] == {ARR})
      && pos <= |text|
    }

    ghost function Here(): Place
      reads this
      requires insert < |blocks|
    {
      Place(insert, |blocks[insert]|, curhead)
    }

    /** Append an instruction that neither ends the block nor is a phi. */
    method Emit(i: Instr)
      requires Ready()
      requires !IsTerminator(i) && !i.Phi?
      requires Uses(i) <= AtEnd(blocks, avail, insert)
      requires HasDst(i) ==> i.dst == next
      modifies this`blocks, this`next
      ensures Ready()
      ensures blocks == Append(old(blocks), insert, i) && next == old(next) + 1
      ensures HasDst(i) ==> i.dst in AtEnd(blocks, avail, insert)
      ensures AtEnd(old(blocks), avail, insert) <= AtEnd(blocks, avail, insert)
    {
      hide GraphOk;
      OpenIsNotFixed(blocks, avail, open, next, checked, insert);
      AppendOk(blocks, avail, open, next, insert, i);
      DefsAppend(blocks[insert], i);
      blocks := blocks[insert := blocks[insert] + [i]];
      next := next + 1;
    }

    method EmitRead()
      requires Ready()
      modifies this`blocks, this`next
      ensures Ready() && next >= old(next)
      ensures Emitted(old(blocks), blocks, checked, old(Here()), Read, Here())
    {
      hide GraphOk, FixedBlocks, Defs, AtEnd, CodeOf, Next, Emitted;
      var tape0 := next;
      Emit(GetChar(tape0));
      var tape1 := next;
      Emit(Trunc(tape1, tape0));
      Emit(Store(tape1, curhead));
      StraightCodeIsEmitted(old(blocks), checked, old(Here()), Read, GetChar(tape0), Trunc(tape1, tape0),
                            Store(tape1, curhead));
    }

    method EmitWrite()
      requires Ready()
      modifies this`blocks, this`next
      ensures Ready() && next >= old(next)
      ensures Emitted(old(blocks), blocks, checked, old(Here()), Write, Here())
    {
      hide GraphOk, FixedBlocks, Defs, AtEnd, CodeOf, Next, Emitted;
      var tape0 := next;
      Emit(Load(tape0, curhead));
      var tape1 := next;
      Emit(SExt(tape1, tape0));
      Emit(PutChar(tape1));
      StraightCodeIsEmitted(old(blocks), checked, old(Here()), Write, Load(tape0, curhead), SExt(tape1, tape0),
                            PutChar(tape1));
    }

    method EmitChange(amount: int)
      requires Ready()
      modifies this`blocks, this`next
      ensures Ready() && next >= old(next)
      ensures Emitted(old(blocks), blocks, checked, old(Here()), Change(amount), Here())
    {
      hide GraphOk, FixedBlocks, Defs, AtEnd, CodeOf, Next, Emitted;
      var tape0 := next;
      Emit(Load(tape0, curhead));
      var tape1 := next;
      Emit(AddI8(tape1, tape0, amount % 256));
      Emit(Store(tape1, curhead));
      StraightCodeIsEmitted(old(blocks), checked, old(Here()), Change(amount),
                            Load(tape0, curhead), AddI8(tape1, tape0, amount % 256), Store(tape1, curhead));
    }

    method EmitMove(offset: int)
      requires Ready()
      modifies this
      ensures Ready() && next >= old(next) && pos == old(pos) && old(avail) <= avail
      ensures open == old(open) - {old(insert)} + {insert}
      ensures Emitted(old(blocks), blocks, checked, old(Here()), Move(offset), Here())
    {
      hide GraphOk;
      var head := next;
      Emit(Gep(head, curhead, offset));
      curhead := head;
      if checked {
        EmitBoundsCheck();
      }
    }

    /** A new block, open, empty or with a phi that has no incoming values yet. */
    method NewBlock(block: Block, ghost claim: set<Reg>) returns (b: BlockId)
      requires Ready()
      requires block == [] || block == [Phi(next, [])]
      requires forall r <- claim :: r < next + |block|
      modifies this`blocks, this`next, this`avail, this`open
      ensures Ready()
      ensures b == |old(blocks)| && blocks == old(blocks) + [block] && avail == old(avail) + [claim]
      ensures open == old(open) + {b} && next == old(next) + |block| && b !in old(open)
    {
      hide GraphOk;
      AddBlockOk(blocks, avail, open, next, block, claim);
      b := |blocks|;
      blocks := blocks + [block];
      avail := avail + [claim];
      open := open + {b};
      next := next + |block|;
      assert AtEnd(blocks, avail, insert) == AtEnd(old(blocks), old(avail), insert);
    }

    /** Go on in an open block where the head is known, after ending the current one with a branch whose
        targets have no phi. */
    method Branch(term: Instr, cont: BlockId)
      requires Ready()
      requires CanJump(blocks, avail, open, insert, term, curhead)
      requires forall t <- Targets(term) :: blocks[t] == [] || !blocks[t][0].Phi?
      requires cont in open && cont != insert && cont < |blocks|
      requires Base(checked) + {curhead} <= AtEnd(blocks, avail, cont)
      modifies this`blocks, this`insert, this`open
      ensures Ready()
      ensures blocks == Append(old(blocks), old(insert), term) && insert == cont && open == old(open) - {old(insert)}
    {
      hide GraphOk;
      OpenIsNotFixed(blocks, avail, open, next, checked, insert);
      PlainJumpOk(blocks, avail, open, next, insert, term, curhead);
      blocks := blocks[insert := blocks[insert] + [term]];
      open := open - {insert};
      insert := cont;
    }

    /** Compare the head with both ends of the tape. */
    method EmitOutsideTest() returns (test: Reg)
      requires Ready() && checked
      modifies this`blocks, this`next
      ensures Ready() && next >= old(next) && test == old(next) + 2
      ensures blocks == old(blocks)[insert := old(blocks)[insert] + OutsideTest(curhead, old(next))]
      ensures test in AtEnd(blocks, avail, insert)
    {
      hide GraphOk;
      var test0 := next;
      Emit(ICmpUGE(test0, curhead, ARRMAX));
      var test1 := next;
      Emit(ICmpULT(test1, curhead, ARR));
      test := next;
      Emit(Or(test, test0, test1));
      assert blocks[insert] == old(blocks)[insert] + OutsideTest(curhead, old(next));
    }

    /** Leave for the error block if the head is outside the tape; go on in a new block. */
    method EmitBoundsCheck()
      requires Ready() && checked
      modifies this
      ensures Ready() && next >= old(next) && pos == old(pos) && old(avail) <= avail && curhead == old(curhead)
      ensures open == old(open) - {old(insert)} + {insert}
      ensures Grown(old(blocks), blocks, old(insert)) && insert == |old(blocks)| && blocks[insert] == []
      ensures blocks[old(insert)] == old(blocks)[old(insert)]
                                     + OutsideTest(curhead, old(next)) + [CondBr(old(next) + 2, ABERRORBB, insert)]
    {
      hide GraphOk, Shapes, Defs;
      OpenIsNotFixed(blocks, avail, open, next, checked, insert);
      var test := EmitOutsideTest();
      var nextbb := NewBlock([], Base(checked) + {curhead});
      Branch(CondBr(test, ABERRORBB, nextbb), nextbb);
    }

    /** Start a loop: branch to a new test block, begin its phi with the head as it is now, and go on in the
        body. The rest of the test block is left for the end of the loop. */
    method OpenLoop() returns (phi: Reg, bodybb: BlockId, testbb: BlockId)
      requires Ready()
      modifies this`blocks, this`insert, this`curhead, this`next, this`avail, this`open
      ensures Ready()
      ensures testbb == |old(blocks)| && bodybb == testbb + 1 && phi == old(next) && next == phi + 1
      ensures blocks == LoopOpened(old(blocks), old(insert), old(curhead), phi)
      ensures insert == bodybb && curhead == phi
      ensures avail == old(avail) + [Base(checked), Base(checked) + {phi}]
      ensures open == old(open) - {old(insert)} + {testbb, bodybb}
      ensures old(insert) !in open && testbb !in old(open) && bodybb !in old(open)
    {
      hide GraphOk, Shapes, Defs;
      OpenIsNotFixed(blocks, avail, open, next, checked, insert);
      LoopOpenedOk(blocks, avail, open, next, checked, insert, curhead);
      ghost var after := LoopOpened(blocks, insert, curhead, next);
      testbb := |blocks|;
      blocks := blocks + [[]];
      blocks := blocks[insert := blocks[insert] + [Br(testbb)]];
      var bb0 := insert;
      bodybb := |blocks|;
      blocks := blocks + [[]];
      insert := bodybb;
      phi := next;
      next := next + 1;
      blocks := blocks[testbb := [Phi(phi, [(curhead, bb0)])]];
      assert blocks == after;
      curhead := phi;
      avail := avail + [Base(checked), Base(checked) + {phi}];
      open := open - {bb0} + {testbb, bodybb};
    }

    /** Finish the loop whose phi is the only instruction of testbb: branch back, give the phi its second value,
        test the cell under the head, and go on in a new block. */
    method CloseLoop(phi: Reg, oldbb: BlockId, testbb: BlockId)
      requires Ready()
      requires testbb in open && testbb != insert && |blocks[testbb]| == 1 && blocks[testbb][0].Phi?
      requires phi == blocks[testbb][0].dst && avail[testbb] == Base(checked)
      requires 0 < oldbb < |blocks| && oldbb != testbb && avail[oldbb] == Base(checked) + {phi}
      requires blocks[oldbb] == [] || !blocks[oldbb][0].Phi?
      modifies this`blocks, this`insert, this`curhead, this`next, this`avail, this`open
      ensures Ready()
      ensures blocks == LoopClosed(old(blocks), old(insert), old(curhead), testbb, oldbb, old(next))
      ensures insert == |old(blocks)| && curhead == old(next) + 2 && next == old(next) + 3
      ensures Here() == Place(insert, 1, curhead)
      ensures avail == old(avail) + [Base(checked)]
      ensures open == old(open) - {old(insert), testbb} + {insert}
      ensures insert !in old(open)
    {
      hide GraphOk, Shapes, Defs;
      hide LoopClosed;
      LoopClosedReady(blocks, avail, open, next, checked, insert, curhead, testbb, oldbb);
      CloseLoopSteps(blocks, insert, curhead, testbb, oldbb, next);
      ghost var latch := insert;
      var g := blocks;
      g := g[insert := g[insert] + [Br(testbb)]];
      var node := g[testbb][0];
      g := g[testbb := [node.(incoming := node.incoming + [(curhead, insert)])]];
      var tape0, test0 := next, next + 1;
      g := g[testbb := g[testbb] + [Load(tape0, phi)]];
      g := g[testbb := g[testbb] + [ICmpEqZero(test0, tape0)]];
      var bb0 := |g|;
      g := g + [[]];
      g := g[testbb := g[testbb] + [CondBr(test0, bb0, oldbb)]];
      insert := bb0;
      curhead := next + 2;
      blocks := g[bb0 := [Phi(curhead, [(phi, testbb)])]];
      next := next + 3;
      avail := avail + [Base(checked)];
      open := open - {latch, testbb} + {insert};
    }

    /** Read on until the current symbol is complete: a run of moves or changes goes on until another symbol
        (or the end of the text) has been seen, which becomes the lookahead. */
    method ReadSymbols(cursym0: Symbol, curvalue0: int)
      returns (cursym: Symbol, curvalue: int, nextsym: Symbol, nextvalue: int)
      requires pos <= |text|
      modifies this`pos
      ensures old(pos) <= pos <= |text|
      ensures Complete(cursym, nextsym) && cursym != SYM_NONE
      ensures Pending(cursym, curvalue, nextsym, nextvalue, text[pos..])
           == Pending(cursym0, curvalue0, SYM_NONE, 0, text[old(pos)..])
      ensures SYM_EOF in {cursym, nextsym} && cursym0 != SYM_EOF ==> pos == |text|
      ensures pos == old(pos) ==>
                cursym == (if cursym0 == SYM_NONE then SYM_EOF else cursym0) && nextsym in {SYM_NONE, SYM_EOF}
      ensures cursym0 == SYM_EOF ==> cursym == SYM_EOF && pos == old(pos)
    {
      hide Lex, Join, JoinAll, Meaning, SymOf, Symbols, Coalesce, Pending;
      cursym, curvalue, nextsym, nextvalue := cursym0, curvalue0, SYM_NONE, 0;
      ghost var all := Pending(cursym0, curvalue0, SYM_NONE, 0, text[pos..]);
      var loop := cursym == SYM_NONE || Runs(cursym);
      while loop
        invariant old(pos) <= pos <= |text|
        invariant loop ==> nextsym == SYM_NONE && (cursym == SYM_NONE || Runs(cursym))
        invariant !loop ==> Complete(cursym, nextsym)
        invariant Pending(cursym, curvalue, nextsym, nextvalue, text[pos..]) == all
        invariant SYM_EOF in {cursym, nextsym} && cursym0 != SYM_EOF ==> pos == |text|
        invariant pos == old(pos) && loop ==> cursym == cursym0
        invariant pos == old(pos) && !loop ==>
                    cursym == (if cursym0 == SYM_NONE then SYM_EOF else cursym0) && nextsym in {SYM_NONE, SYM_EOF}
        invariant cursym0 == SYM_EOF ==> !loop && cursym == SYM_EOF && pos == old(pos)
        decreases |text| - pos, loop
      {
        if pos == |text| {
          AtEof(cursym, curvalue, nextvalue, text[pos..]);
          if cursym == SYM_NONE {
            cursym := SYM_EOF;
          } else {
            nextsym, nextvalue := SYM_EOF, 0;
          }
          loop := false;
        } else {
          var c := text[pos];
          NextCharacter(cursym, curvalue, nextvalue, text, pos);
          pos := pos + 1;
          cursym, curvalue, nextsym, nextvalue, loop := Accept(cursym, curvalue, c, text[pos..]);
        }
      }
    }

    /** What one character does to the current symbol and the lookahead. */
    static method Accept(cursym0: Symbol, curvalue0: int, c: char, ghost unread: string)
      returns (cursym: Symbol, curvalue: int, nextsym: Symbol, nextvalue: int, loop: bool)
      requires cursym0 == SYM_NONE || Runs(cursym0)
      ensures loop ==> nextsym == SYM_NONE && (cursym == SYM_NONE || Runs(cursym))
      ensures !loop ==> Complete(cursym, nextsym)
      ensures SYM_EOF !in {cursym, nextsym}
      ensures Pending(cursym, curvalue, nextsym, nextvalue, unread)
           == JoinAll(Meaning(cursym0, curvalue0), JoinAll(SymOf(c), Lex(unread)))
    {
      hide Lex, Flatten, Symbols, Coalesce, Join;
      cursym, curvalue, nextsym, nextvalue, loop := cursym0, curvalue0, SYM_NONE, 0, true;
      if c == '+' || c == '-' {
        var direction := if c == '-' then -1 else 1;
        if cursym == SYM_CHANGE {
          JoinTwice(SymChange(curvalue), SymChange(direction), Lex(unread));
          curvalue := curvalue + direction;
        } else if cursym == SYM_NONE {
          cursym, curvalue := SYM_CHANGE, direction;
        } else {
          nextsym, nextvalue, loop := SYM_CHANGE, direction, false;
        }
      } else if c == '<' || c == '>' {
        var direction := if c == '<' then -1 else 1;
        if cursym == SYM_MOVE {
          JoinTwice(SymMove(curvalue), SymMove(direction), Lex(unread));
          curvalue := curvalue + direction;
        } else if cursym == SYM_NONE {
          cursym, curvalue := SYM_MOVE, direction;
        } else {
          nextsym, nextvalue, loop := SYM_MOVE, direction, false;
        }
      } else if c == ',' || c == '.' || c == '[' || c == ']' {
        var sym := if c == ',' then SYM_READ else if c == '.' then SYM_WRITE
          else if c == '[' then SYM_LOOP else SYM_ENDLOOP;
        if cursym == SYM_NONE {
          cursym := sym;
        } else {
          nextsym := sym;
        }
        loop := false;
      }
      if nextsym != SYM_NONE {
        JoinApart(cursym, curvalue, nextsym, nextvalue, Lex(unread));
      }
    }

    /** The loop being compiled has its test block begun and its body still empty. */
    ghost predicate InLoop(phi: Reg, oldbb: BlockId, testbb: BlockId)
      reads this
    {
      && testbb in open && testbb != insert && OpenTest(blocks, testbb) && blocks[testbb][0].dst == phi
      && blocks[testbb][0].incoming[0].1 !in open && 0 < testbb < |avail| && avail[testbb] == Base(checked)
      && oldbb == insert && 0 < oldbb < |avail| && oldbb < |blocks| && blocks[oldbb] == [] && curhead == phi
      && avail[oldbb] == Base(checked) + {phi}
    }

    /** The closing bracket of a loop whose body has been written. */
    method EndLoop(phi: Reg, oldbb: BlockId, testbb: BlockId, ghost g0: Graph, ghost cs: seq<Cmd>)
      requires Ready()
      requires oldbb < |g0| && testbb < |g0| && g0[oldbb] == [] && oldbb != testbb && 0 < oldbb
      requires OpenTest(g0, testbb) && g0[testbb][0].dst == phi && FIRST_HEAD <= phi < next
      requires testbb in open && testbb != insert
      requires var h := g0[testbb][0].incoming[0].1; h !in open && h != oldbb
      requires |g0| <= |avail| && avail[testbb] == Base(checked) && avail[oldbb] == Base(checked) + {phi}
      requires Written(g0, blocks, checked, Place(oldbb, 0, phi), cs, Here())
      modifies this`blocks, this`insert, this`curhead, this`next, this`avail, this`open
      ensures Ready() && next >= old(next) && old(avail) <= avail
      ensures open == old(open) - {old(insert), testbb} + {insert}
      ensures LoopDone(g0, blocks, checked, testbb, oldbb, cs, Here())
    {
      hide GraphOk;
      hide Written;
      hide FixedBlocks;
      hide LoopDone;
      hide LoopClosed;
      ghost var g, p, next0, open1 := blocks, Here(), next, open;
      OpenShapes(g, avail, open, next);
      StillInLoop(g0, g, checked, Place(oldbb, 0, phi), cs, p, testbb);
      CloseLoop(phi, oldbb, testbb);
      LoopIsDone(g0, g, checked, testbb, phi, oldbb, cs, p, next0, open1);
    }

    /** Append the code of one symbol; for a loop, of everything up to its closing bracket. */
    method WriteSymbol(cursym: Symbol, curvalue: int, ghost depth: nat) returns (ok: bool, ghost c: Cmd)
      requires Ready()
      requires cursym in {SYM_READ, SYM_WRITE, SYM_MOVE, SYM_CHANGE, SYM_LOOP}
      modifies this
      ensures old(pos) <= pos <= |text|
      ensures ok ==> && Ready() && next >= old(next) && old(avail) <= avail
                     && open == old(open) - {old(insert)} + {insert}
                     && Emitted(old(blocks), blocks, checked, old(Here()), c, Here())
      ensures cursym != SYM_LOOP ==> ok && pos == old(pos) && !c.Loop? && Meaning(cursym, curvalue) == [SymOfCmd(c)]
      ensures cursym == SYM_LOOP ==>
                if ok then c.Loop? && Lex(text[old(pos)..]) == Flatten(c.body) + [SymEndLoop] + Lex(text[pos..])
                else !Balanced(Lex(text[old(pos)..]), depth + 1)
      decreases |text| - pos, 1
    {
      hide GraphOk;
      hide Lex;
      hide CodeOf;
      ok := true;
      match cursym {
        case SYM_READ =>
          EmitRead();
          c := Read;
        case SYM_WRITE =>
          EmitWrite();
          c := Write;
        case SYM_MOVE =>
          EmitMove(curvalue);
          c := Move(curvalue);
        case SYM_CHANGE =>
          EmitChange(curvalue);
          c := Change(curvalue);
        case SYM_LOOP =>
          ok, c := WriteLoop(depth);
      }
    }

    method WriteLoop(ghost depth: nat) returns (ok: bool, ghost c: Cmd)
      requires Ready()
      modifies this
      ensures old(pos) <= pos <= |text|
      ensures ok ==> && Ready() && next >= old(next) && old(avail) <= avail
                     && open == old(open) - {old(insert)} + {insert}
                     && Emitted(old(blocks), blocks, checked, old(Here()), c, Here())
                     && c.Loop? && Lex(text[old(pos)..]) == Flatten(c.body) + [SymEndLoop] + Lex(text[pos..])
      ensures !ok ==> !Balanced(Lex(text[old(pos)..]), depth + 1)
      decreases |text| - pos, 0, 1
    {
      hide GraphOk;
      hide Lex;
      hide CodeOf;
      ghost var g, p := blocks, Here();
      var phi, bodybb, testbb := OpenLoop();
      ghost var cs;
      ok, cs := Readloop(Some(phi), bodybb, testbb, depth + 1);
      c := Loop(cs);
      if ok {
        LoopIsEmitted(g, blocks, checked, p, phi, cs, Here());
      }
    }

    /** Append the code of one symbol to the code of the commands before it. */
    method AddSymbol(cursym: Symbol, curvalue: int, ghost nextsym: Symbol, ghost nextvalue: int,
                     ghost g0: Graph, ghost p0: Place, ghost cs: seq<Cmd>, ghost depth: nat)
      returns (ok: bool, ghost cs': seq<Cmd>)
      requires Ready()
      requires cursym in {SYM_READ, SYM_WRITE, SYM_MOVE, SYM_CHANGE, SYM_LOOP} && Complete(cursym, nextsym)
      requires Written(g0, blocks, checked, p0, cs, Here())
      modifies this
      ensures old(pos) <= pos <= |text| && (cursym != SYM_LOOP ==> pos == old(pos))
      ensures ok ==> && Ready() && next >= old(next) && old(avail) <= avail
                     && open == old(open) - {old(insert)} + {insert} && (insert == p0.bb || insert >= |g0|)
                     && Written(g0, blocks, checked, p0, cs', Here())
                     && Flatten(cs) + Pending(cursym, curvalue, nextsym, nextvalue, text[old(pos)..])
                        == Flatten(cs') + Pending(nextsym, nextvalue, SYM_NONE, 0, text[pos..])
      ensures !ok ==> !Balanced(Flatten(cs) + Pending(cursym, curvalue, nextsym, nextvalue, text[old(pos)..]), depth)
      decreases |text| - pos, 2
    {
      hide GraphOk, Lex, CodeOf, Written, FixedBlocks, Emitted, Pending, Flatten, Balanced, Grown, Code, End, Shapes,
           Defs, AtEnd, Base;
      ghost var g, p, open0, text0, c := blocks, Here(), open, text[pos..], Read;
      OpenShapes(g, avail, open, next);
      ok, c := WriteSymbol(cursym, curvalue, depth);
      if ok {
        PendingStep(cs, cursym, curvalue, nextsym, nextvalue, text0, text[pos..], c);
        WriteCommand(g0, g, blocks, checked, p0, cs, p, c, Here(), open0);
        cs' := cs + [c];
      } else {
        PendingUnbalanced(cs, curvalue, nextvalue, text0, depth);
        cs' := cs;
      }
    }

    /** The program has been read to its end: go to the end block. */
    method Finish(ghost g0: Graph, ghost p0: Place, ghost cs: seq<Cmd>)
      requires Ready()
      requires Written(g0, blocks, checked, p0, cs, Here())
      modifies this`blocks, this`open
      ensures GraphOk(blocks, avail, open, next) && open == old(open) - {insert}
      ensures FixedBlocks(blocks, checked)
      ensures Grown(g0, blocks, p0.bb)
      ensures Code(blocks, checked, p0, cs)
      ensures StackCode(blocks, checked, End(blocks, checked, p0, cs), Outermost, curhead)
    {
      hide GraphOk;
      hide CodeOf;
      OpenIsNotFixed(blocks, avail, open, next, checked, insert);
      PlainJumpOk(blocks, avail, open, next, insert, Br(ENDBB), curhead);
      ghost var g := blocks;
      blocks := blocks[insert := blocks[insert] + [Br(ENDBB)]];
      OpenShapes(g, avail, open, next);
      GrownExtends(g, blocks, insert, open);
      CodeStays(g, blocks, checked, p0, cs);
      open := open - {insert};
    }

    /** Compile up to the bracket that ends the loop, or up to the end of the text outside every loop. Stops
        with an error when there is no such bracket, or one too many. */
    method Readloop(phi: Option<Reg>, oldbb: BlockId, testbb: BlockId, ghost depth: nat)
      returns (ok: bool, ghost cs: seq<Cmd>)
      requires Ready()
      requires phi.Some? <==> depth > 0
      requires phi.Some? ==> InLoop(phi.value, oldbb, testbb)
      modifies this
      ensures old(pos) <= pos <= |text|
      ensures !ok ==> !Balanced(Lex(text[old(pos)..]), depth)
      ensures ok ==> next >= old(next) && old(avail) <= avail
      ensures ok && phi.None? ==>
                && Lex(text[old(pos)..]) == Flatten(cs)
                && GraphOk(blocks, avail, open, next) && open == old(open) - {old(insert)}
                && FixedBlocks(blocks, checked)
                && Grown(old(blocks), blocks, old(insert))
                && Code(blocks, checked, old(Here()), cs)
                && StackCode(blocks, checked, End(blocks, checked, old(Here()), cs), Outermost, curhead)
      ensures ok && phi.Some? ==>
                && Ready() && open == old(open) - {old(insert), testbb} + {insert}
                && Lex(text[old(pos)..]) == Flatten(cs) + [SymEndLoop] + Lex(text[pos..])
                && LoopDone(old(blocks), blocks, checked, testbb, oldbb, cs, Here())
      decreases |text| - pos, 0, 0
    {
      hide GraphOk, Lex, CodeOf, Written, FixedBlocks, StackCode, LoopDone, Emitted, Pending, Flatten, Balanced,
           Grown, Code, End, LoopClosed, Shapes, Defs, AtEnd, Base, Complete, Runs;
      var cursym, curvalue, nextsym, nextvalue := SYM_NONE, 0, SYM_NONE, 0;
      cs, ok := [], true;
      ghost var g0, p0, open0 := blocks, Here(), open;
      ghost var unread := Lex(text[pos..]);
      WriteNothing(g0, checked, p0);
      PendingStart(text[pos..]);
      while cursym != SYM_EOF && cursym != SYM_ENDLOOP
        invariant Ready() && next >= old(next) && old(avail) <= avail
        invariant old(pos) <= pos && (cursym != SYM_NONE ==> pos > old(pos) || cursym == SYM_EOF)
        invariant open == open0 - {p0.bb} + {insert} && (insert == p0.bb || insert >= |g0|)
        invariant Written(g0, blocks, checked, p0, cs, Here())
        invariant if cursym == SYM_NONE then nextsym == SYM_NONE else Complete(cursym, nextsym)
        invariant unread == Flatten(cs) + Pending(cursym, curvalue, nextsym, nextvalue, text[pos..])
        invariant SYM_EOF in {cursym, nextsym} ==> pos == |text|
        decreases 2 * (|text| - pos) + (if nextsym in {SYM_NONE, SYM_EOF} then 0 else 1), cursym != SYM_EOF
      {
        if cursym != SYM_NONE {
          ok, cs := AddSymbol(cursym, curvalue, nextsym, nextvalue, g0, p0, cs, depth);
          if !ok {
            return;
          }
        } else {
          PendingNothing(curvalue, nextvalue, text[pos..]);
          PendingNothing(nextvalue, 0, text[pos..]);
        }
        cursym, curvalue, nextsym, nextvalue := ReadSymbols(nextsym, nextvalue);
      }
      PendingEnd(cs, cursym, curvalue, nextsym, nextvalue, text[pos..], depth);
      if cursym == SYM_ENDLOOP {
        if phi.None? {
          ok := false;
          return;
        }
        EndLoop(phi.value, oldbb, testbb, g0, cs);
      } else {
        ok := phi.None?;
        if ok {
          Finish(g0, p0, cs);
        }
      }
    }

    constructor (text: string, memtotal: nat, checked: bool)
      ensures this.text == text && this.memtotal == memtotal && this.checked == checked
    {
      this.text, this.memtotal, this.checked := text, memtotal, checked;
      pos, blocks, insert, curhead, next, avail, open := 0, [], 0, 0, 0, [], {};
    }

    /** The entry block up to where the program's code begins, the end block, and the error block. */
    method EmitHeader()
      modifies this
      ensures Ready() && pos == 0
      ensures blocks == StartGraph(checked, memtotal)
      ensures insert == ENTRY && curhead == FIRST_HEAD && open == {ENTRY}
    {
      hide GraphOk, FixedBlocks, Defs, Header, StartGraph, StartAvailability, AtEnd;
      var block: Block := [Malloc(ARR, memtotal), Memset(ARR, memtotal)];
      if checked {
        block := block + [Gep(ARRMAX, ARR, memtotal)];
      }
      block := block + [Gep(FIRST_HEAD, ARR, memtotal / 2)];
      blocks := [block, [Free(ARR), Ret]];
      if checked {
        blocks := blocks + [[Puts, Br(ENDBB)]];
      }
      StartGraphSteps(checked, memtotal);
      pos, insert, curhead, next := 0, ENTRY, FIRST_HEAD, FIRST_HEAD + 1;
      avail, open := StartAvailability(checked), {ENTRY};
      StartReady(checked, memtotal);
    }

    /** Compile the whole text. It fails exactly when the brackets do not match. Otherwise the graph is well
        formed, and it is the compiled form of the program the text spells, with its runs added up. */
    method Parse() returns (ok: bool)
      modifies this
      ensures ok <==> Balanced(Symbols(text), 0)
      ensures ok ==> WellFormed(blocks)
      ensures ok ==> forall cs | Flatten(cs) == Symbols(text) ::
              Compiled(blocks, checked, memtotal, Shorten(cs), curhead)
    {
      EmitHeader();
      hide GraphOk;
      ghost var cs;
      ok, cs := Readloop(None, 0, 0, 0);
      assert text[0..] == text;
      BalancedCoalesce(Symbols(text), 0);
      if ok {
        BalancedAfterProgram(cs, [], 0);
        assert Flatten(cs) + [] == Flatten(cs);
        assert open == {};
        FinishedIsWellFormed(blocks, avail, next);
        forall ds | Flatten(ds) == Symbols(text)
          ensures Compiled(blocks, checked, memtotal, Shorten(ds), curhead)
        {
          FlattenShorten(ds);
          assert Flatten(Shorten(ds)) + [] == Flatten(cs) + [];
          FlattenUnique(Shorten(ds), cs, [], []);
        }
      }
    }
  }

  /** The blocks as they are made one after the other. */
  lemma StartGraphSteps(checked: bool, size: nat)
    ensures var start: Block := [Malloc(ARR, size), Memset(ARR, size)];
            var block := (if checked then start + [Gep(ARRMAX, ARR, size)] else start)
                         + [Gep(FIRST_HEAD, ARR, size / 2)];
            var g: Graph := [block, [Free(ARR), Ret]];
            (if checked then g + [[Puts, Br(ENDBB)]] else g) == StartGraph(checked, size)
  {
    var start: Block := [Malloc(ARR, size), Memset(ARR, size)];
    assert (if checked then start + [Gep(ARRMAX, ARR, size)] else start) + [Gep(FIRST_HEAD, ARR, size / 2)]
        == Header(checked, size);
  }

  lemma StartReady(checked: bool, size: nat)
    ensures var g, av := StartGraph(checked, size), StartAvailability(checked);
            && GraphOk(g, av, {ENTRY}, FIRST_HEAD + 1) && FixedBlocks(g, checked)
            && 0 < |g| == |av| == (if checked then 3 else 2)
            && Base(checked) + {FIRST_HEAD} <= AtEnd(g, av, ENTRY)
            && av[ENDBB] == {ARR} && (checked ==> av[ABERRORBB] == {ARR})
  {
    hide GraphOk;
    StartIsOk(checked, size);
    StartDefs(checked, size);
  }

  lemma StartDefs(checked: bool, size: nat)
    ensures Base(checked) + {FIRST_HEAD} <= Defs(Header(checked, size))
  {
    var h := Header(checked, size);
    assert h[0].dst == ARR && h[|h| - 1].dst == FIRST_HEAD && (checked ==> h[2].dst == ARRMAX);
  }

  /** The comparisons of a bounds check, using registers from `first` on. */
  function OutsideTest(head: Reg, first: Reg): Block {
    [ICmpUGE(first, head, ARRMAX), ICmpULT(first + 1, head, ARR), Or(first + 2, first, first + 1)]
  }
}
