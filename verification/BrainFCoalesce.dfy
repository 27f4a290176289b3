/** Adding up runs of moves and runs of changes does not alter what a program does. */
module BrainFCoalesce {
  import opened Machines
  import opened BrainFLang

  function JoinCmd(c: Cmd, ds: seq<Cmd>): seq<Cmd> {
    if c.Move? && ds != [] && ds[0].Move? then [Move(c.offset + ds[0].offset)] + ds[1..]
    else if c.Change? && ds != [] && ds[0].Change? then [Change(c.amount + ds[0].amount)] + ds[1..]
    else [c] + ds
  }

  /** The nested program with its runs added up, inside loops as well. */
  function Shorten(cs: seq<Cmd>): seq<Cmd> {
    if cs == [] then []
    else if cs[0].Loop? then [Loop(Shorten(cs[0].body))] + Shorten(cs[1..])
    else JoinCmd(cs[0], Shorten(cs[1..]))
  }

  /** What two symbols in a row become. */
  function JoinPair(x: Sym, y: Sym): seq<Sym> {
    if x.SymMove? && y.SymMove? then [SymMove(x.offset + y.offset)]
    else if x.SymChange? && y.SymChange? then [SymChange(x.amount + y.amount)]
    else [x, y]
  }

  lemma JoinIsPair(x: Sym, ys: seq<Sym>)
    requires ys != []
    ensures Join(x, ys) == JoinPair(x, ys[0]) + ys[1..]
  {
    assert ys == [ys[0]] + ys[1..];
  }

  /** Nothing is added up across a bracket, a read or a write. */
  lemma JoinStops(x: Sym, ys: seq<Sym>)
    requires (!x.SymMove? && !x.SymChange?) || ys == [] || (!ys[0].SymMove? && !ys[0].SymChange?)
    ensures Join(x, ys) == [x] + ys
  {
  }

  lemma JoinAppend(x: Sym, ys: seq<Sym>, tail: seq<Sym>)
    requires ys != [] || (tail != [] && !tail[0].SymMove? && !tail[0].SymChange?)
    ensures Join(x, ys + tail) == Join(x, ys) + tail
  {
    hide Join, JoinPair;
    if ys == [] {
      assert ys + tail == tail && [x] + ys == [x];
      JoinStops(x, ys);
      JoinStops(x, tail);
    } else {
      assert (ys + tail)[0] == ys[0] && (ys + tail)[1..] == ys[1..] + tail;
      JoinIsPair(x, ys);
      JoinIsPair(x, ys + tail);
      Associate(JoinPair(x, ys[0]), ys[1..], tail);
    }
  }

  lemma Associate(xs: seq<Sym>, ys: seq<Sym>, zs: seq<Sym>)
    ensures xs + (ys + zs) == xs + ys + zs
  {
  }

  /** A loop bracket keeps what is before it and what is after it apart. */
  lemma {:induction false} CoalesceAround(xs: seq<Sym>, y: Sym, zs: seq<Sym>)
    requires !y.SymMove? && !y.SymChange?
    ensures Coalesce(xs + [y] + zs) == Coalesce(xs) + [y] + Coalesce(zs)
  {
    hide Coalesce, Join;
    CoalesceUnfolds(xs);
    CoalesceUnfolds(xs + [y] + zs);
    var tail := [y] + Coalesce(zs);
    if xs == [] {
      assert xs + [y] + zs == [y] + zs;
      assert ([y] + zs)[1..] == zs;
      JoinStops(y, Coalesce(zs));
      assert [] + [y] + Coalesce(zs) == tail;
    } else {
      assert (xs + [y] + zs)[1..] == xs[1..] + [y] + zs;
      CoalesceAround(xs[1..], y, zs);
      var rest := Coalesce(xs[1..]);
      assert rest + [y] + Coalesce(zs) == rest + tail;
      JoinAppend(xs[0], rest, tail);
      assert Join(xs[0], rest) + tail == Join(xs[0], rest) + [y] + Coalesce(zs);
    }
  }

  lemma CoalesceUnfolds(xs: seq<Sym>)
    ensures Coalesce(xs) == if xs == [] then [] else Join(xs[0], Coalesce(xs[1..]))
  {
  }

  /** Shortening keeps the kind of the first command. */
  lemma ShortenFirst(cs: seq<Cmd>)
    ensures cs == [] <==> Shorten(cs) == []
    ensures cs != [] ==> (cs[0].Move? <==> Shorten(cs)[0].Move?) && (cs[0].Change? <==> Shorten(cs)[0].Change?)
  {
  }

  /** Shortening the nested program and coalescing its symbols is the same thing. */
  lemma {:induction false} FlattenShorten(cs: seq<Cmd>)
    ensures Flatten(Shorten(cs)) == Coalesce(Flatten(cs))
  {
    if cs != [] {
      FlattenShorten(cs[1..]);
      if cs[0].Loop? {
        FlattenShorten(cs[0].body);
        FlattenLoop(cs[0].body, cs[1..]);
        FlattenLoop(Shorten(cs[0].body), Shorten(cs[1..]));
        CoalesceLoop(Flatten(cs[0].body), Flatten(cs[1..]));
        assert cs == [cs[0]] + cs[1..];
      } else {
        FlattenJoin(cs[0], Shorten(cs[1..]));
        assert ([SymOfCmd(cs[0])] + Flatten(cs[1..]))[1..] == Flatten(cs[1..]);
      }
    }
  }

  lemma FlattenLoop(body: seq<Cmd>, rest: seq<Cmd>)
    ensures Flatten([Loop(body)] + rest) == [SymLoop] + Flatten(body) + [SymEndLoop] + Flatten(rest)
  {
    assert ([Loop(body)] + rest)[1..] == rest;
  }

  lemma CoalesceLoop(xs: seq<Sym>, ys: seq<Sym>)
    ensures Coalesce([SymLoop] + xs + [SymEndLoop] + ys) == [SymLoop] + Coalesce(xs) + [SymEndLoop] + Coalesce(ys)
  {
    var tail := xs + [SymEndLoop] + ys;
    assert [SymLoop] + xs + [SymEndLoop] + ys == [SymLoop] + tail;
    assert ([SymLoop] + tail)[1..] == tail;
    CoalesceAround(xs, SymEndLoop, ys);
    assert [SymLoop] + (Coalesce(xs) + [SymEndLoop] + Coalesce(ys))
        == [SymLoop] + Coalesce(xs) + [SymEndLoop] + Coalesce(ys);
  }

  lemma FlattenPlain(c: Cmd, cs: seq<Cmd>)
    requires !c.Loop?
    ensures Flatten([c] + cs) == [SymOfCmd(c)] + Flatten(cs)
  {
    assert ([c] + cs)[1..] == cs;
  }

  lemma FlattenFirst(ds: seq<Cmd>)
    requires ds != []
    ensures Flatten(ds) != [] && Flatten(ds)[0] == SymOfCmd(ds[0])
    ensures !ds[0].Loop? ==> Flatten(ds)[1..] == Flatten(ds[1..])
  {
  }

  lemma FlattenJoin(c: Cmd, ds: seq<Cmd>)
    requires !c.Loop?
    ensures Flatten(JoinCmd(c, ds)) == Join(SymOfCmd(c), Flatten(ds))
  {
    hide Flatten, Join;
    FlattenPlain(c, ds);
    if ds != [] {
      FlattenFirst(ds);
    } else {
      NothingToFlatten();
    }
    if ds == [] || ds[0].Loop? {
      JoinStops(SymOfCmd(c), Flatten(ds));
    } else {
      JoinIsPair(SymOfCmd(c), Flatten(ds));
      if c.Move? && ds[0].Move? {
        FlattenPlain(Move(c.offset + ds[0].offset), ds[1..]);
      } else if c.Change? && ds[0].Change? {
        FlattenPlain(Change(c.amount + ds[0].amount), ds[1..]);
      } else {
        assert [SymOfCmd(c), SymOfCmd(ds[0])] + Flatten(ds)[1..] == [SymOfCmd(c)] + Flatten(ds);
      }
    }
  }

  lemma NothingToFlatten()
    ensures Flatten([]) == []
  {
  }

  function ShortenStack(k: Stack): Stack {
    match k
    case Outermost => Outermost
    case Inside(body, rest, outer) => Inside(Shorten(body), Shorten(rest), ShortenStack(outer))
  }

  function ShortenState(s: State): State {
    s.(code := Shorten(s.code), stack := ShortenStack(s.stack))
  }

  ghost function Shortened(): (State, State) -> bool {
    (s: State, t: State) => t == ShortenState(s)
  }

  /** A run of moves, executed one by one, is a single move of the shortened program. */
  lemma {:induction false} MoveRun(s: State) returns (n: nat, k: int)
    requires s.status == Running && s.code != [] && s.code[0].Move?
    ensures 1 <= n <= |s.code|
    ensures Iter(Stepper(false), n, s) == s.(code := s.code[n..], head := s.head + k)
    ensures Shorten(s.code) == [Move(k)] + Shorten(s.code[n..])
    decreases |s.code|
  {
    var rest := s.code[1..];
    var s1 := s.(code := rest, head := s.head + s.code[0].offset);
    assert Stepper(false)(s) == s1;
    ShortenFirst(rest);
    if rest != [] && rest[0].Move? {
      var n1, k1 := MoveRun(s1);
      n, k := n1 + 1, s.code[0].offset + k1;
      assert rest[n1..] == s.code[n..];
      IterAdd(Stepper(false), 1, n1, s);
    } else {
      n, k := 1, s.code[0].offset;
      assert Iter(Stepper(false), 1, s) == Iter(Stepper(false), 0, s1);
    }
  }

  /** A run of changes to a cell on the tape is a single change of the shortened program. */
  lemma {:induction false} ChangeRun(checked: bool, s: State) returns (n: nat, k: int)
    requires s.status == Running && s.code != [] && s.code[0].Change? && s.OnTape()
    ensures 1 <= n <= |s.code|
    ensures Iter(Stepper(checked), n, s)
         == s.(code := s.code[n..], tape := s.tape[s.head := (s.tape[s.head] + k) % 256])
    ensures Shorten(s.code) == [Change(k)] + Shorten(s.code[n..])
    decreases |s.code|
  {
    var rest := s.code[1..];
    var s1 := s.(code := rest, tape := s.tape[s.head := (s.tape[s.head] + s.code[0].amount) % 256]);
    assert Stepper(checked)(s) == s1;
    ShortenFirst(rest);
    if rest != [] && rest[0].Change? {
      var n1, k1 := ChangeRun(checked, s1);
      n, k := n1 + 1, s.code[0].amount + k1;
      assert rest[n1..] == s.code[n..];
      IterAdd(Stepper(checked), 1, n1, s);
      AddTwice(s.tape[s.head], s.code[0].amount, k1);
      assert s1.tape[s.head := (s1.tape[s.head] + k1) % 256] == s.tape[s.head := (s.tape[s.head] + k) % 256];
    } else {
      n, k := 1, s.code[0].amount;
      assert Iter(Stepper(checked), 1, s) == Iter(Stepper(checked), 0, s1);
    }
  }

  lemma AddTwice(v: int, a: int, b: int)
    ensures ((v + a) % 256 + b) % 256 == (v + (a + b)) % 256
  {
  }

  /** A step that is not part of a run is the same step in the shortened program. */
  lemma ShortenedStep(s: State)
    requires s.status != Running || s.code == [] || !(s.code[0].Move? || (s.code[0].Change? && s.OnTape()))
    ensures Step(false, ShortenState(s)) == ShortenState(Step(false, s))
  {
    ShortenFirst(s.code);
    if s.status == Running && s.code != [] && !s.code[0].Change? {
      assert ShortenState(s).code[1..] == Shorten(s.code[1..]);
    }
  }

  lemma ShortenedAdvances(s: State)
    ensures Advances(Stepper(false), Stepper(false), Shortened(), s, ShortenState(s))
  {
    var f := Stepper(false);
    var t := ShortenState(s);
    var n: nat := 1;
    ShortenFirst(s.code);
    if s.status == Running && s.code != [] && s.code[0].Move? {
      var k;
      n, k := MoveRun(s);
      assert t.code[1..] == Shorten(s.code[n..]);
    } else if s.status == Running && s.code != [] && s.code[0].Change? && s.OnTape() {
      var k;
      n, k := ChangeRun(false, s);
      assert t.code[1..] == Shorten(s.code[n..]);
    } else {
      assert Iter(f, 1, s) == Iter(f, 0, f(s));
      ShortenedStep(s);
    }
    assert Iter(f, 1, t) == Iter(f, 0, f(t));
    assert Shortened()(Iter(f, n, s), Iter(f, 1, t));
  }

  lemma ShortenedObserves()
    ensures forall s, t | Shortened()(s, t) :: Observer()(s) == Observer()(t)
  {
    forall s, t | Shortened()(s, t)
      ensures Observer()(s) == Observer()(t)
    {
      assert t == ShortenState(s);
    }
  }

  lemma ShortenedSimulates()
    ensures Simulates(Stepper(false), Stepper(false), Shortened())
  {
    hide Advances;
    forall s, t | Shortened()(s, t)
      ensures Advances(Stepper(false), Stepper(false), Shortened(), s, t)
    {
      ShortenedAdvances(s);
    }
  }

  /** A program that has run to its end stays there. */
  lemma {:induction false} StoppedStays(checked: bool, s: State, n: nat)
    requires s.status != Running
    ensures Iter(Stepper(checked), n, s) == s
  {
    if n > 0 {
      StoppedStays(checked, s, n - 1);
    }
  }

  /** When the program has run to its end, so has its shortened form, and the head, the tape, the trace and the rest
      of the input are the same. */
  lemma ShortenedEnds(cs: seq<Cmd>, size: nat, input: seq<Byte>, n: nat) returns (m: nat)
    requires Iter(Stepper(false), n, Start(cs, size, input)).status == Halted
    ensures Iter(Stepper(false), m, Start(Shorten(cs), size, input))
         == ShortenState(Iter(Stepper(false), n, Start(cs, size, input)))
  {
    hide Shorten;
    var f, s, t := Stepper(false), Start(cs, size, input), Start(Shorten(cs), size, input);
    ShortenedSimulates();
    assert t == ShortenState(s);
    hide ShortenState;
    var i: nat;
    i, m := Cofinal(f, f, Shortened(), s, t, n);
    IterAdd(f, n, i - n, s);
    StoppedStays(false, Iter(f, n, s), i - n);
  }

  /** The other way round. */
  lemma ShortenedEndsBack(cs: seq<Cmd>, size: nat, input: seq<Byte>, m: nat) returns (n: nat)
    requires Iter(Stepper(false), m, Start(Shorten(cs), size, input)).status == Halted
    ensures Iter(Stepper(false), m, Start(Shorten(cs), size, input))
         == ShortenState(Iter(Stepper(false), n, Start(cs, size, input)))
  {
    hide Shorten;
    var f, s, t := Stepper(false), Start(cs, size, input), Start(Shorten(cs), size, input);
    ShortenedSimulates();
    assert t == ShortenState(s);
    hide ShortenState;
    var j: nat;
    n, j := Cofinal(f, f, Shortened(), s, t, m);
    IterAdd(f, m, j - m, t);
    StoppedStays(false, Iter(f, m, t), j - m);
  }

  /** Without bounds checks, a program and its shortened form cannot be told apart. */
  lemma ShorteningPreservesMeaning(cs: seq<Cmd>, size: nat, input: seq<Byte>)
    ensures Refines(Stepper(false), Observer(), Start(cs, size, input),
                    Stepper(false), Observer(), Start(Shorten(cs), size, input))
    ensures Refines(Stepper(false), Observer(), Start(Shorten(cs), size, input),
                    Stepper(false), Observer(), Start(cs, size, input))
  {
    hide Refines, Shorten, Monotone;
    var f, o, rel := Stepper(false), Observer(), Shortened();
    var s, t := Start(cs, size, input), Start(Shorten(cs), size, input);
    StepMonotone(false);
    ShortenedSimulates();
    ShortenedObserves();
    assert t == ShortenState(s);
    SimulationGivesRefinement(f, o, s, f, o, t, rel);
    SimulationGivesConverse(f, o, s, f, o, t, rel);
  }
}
