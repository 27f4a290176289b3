/** What a compiled program does when it is run. */
module BrainFCorrect {
  import opened Machines
  import opened BrainFLang
  import opened BrainFCoalesce
  import opened BrainFIR
  import opened BrainFCode
  import opened BrainFSim
  import opened BrainFRuns

  /** The entry block: allocate the tape, clear it, compute its end if moves are checked, and put the head
      in the middle. */
  function Header(checked: bool, size: nat): Block {
    [Malloc(ARR, size), Memset(ARR, size)]
    + (if checked then [Gep(ARRMAX, ARR, size)] else [])
    + [Gep(FIRST_HEAD, ARR, size / 2)]
  }

  function CodeStart(checked: bool, size: nat): Place {
    Place(ENTRY, |Header(checked, size)|, FIRST_HEAD)
  }

  /** The graph is the compiled form of the program, which leaves the head in lastHead. */
  predicate Compiled(g: Graph, checked: bool, size: nat, cs: seq<Cmd>, lastHead: Reg) {
    && FixedBlocks(g, checked)
    && Header(checked, size) <= g[ENTRY]
    && Code(g, checked, CodeStart(checked, size), cs)
    && StackCode(g, checked, End(g, checked, CodeStart(checked, size), cs), Outermost, lastHead)
  }

  ghost function Relation(g: Graph, checked: bool, size: nat, lastHead: Reg): (State, TState) -> bool {
    (s: State, t: TState) => exists h: Reg :: Related(g, checked, size, lastHead, s, t, h)
  }

  /** The state after the tape is allocated and cleared. */
  function Allocated(size: nat, garbage: seq<Byte>, input: seq<Byte>): TState {
    TStart(garbage, input).Assign(ARR, 0).(alive := true, mem := Zeros(size), idx := 2)
  }

  lemma RunAllocation(g: Graph, size: nat, garbage: seq<Byte>, input: seq<Byte>)
    requires ENTRY < |g| && [Malloc(ARR, size), Memset(ARR, size)] <= g[ENTRY] && |garbage| == size
    ensures Reaches(g, TStart(garbage, input), Allocated(size, garbage, input))
  {
    hide Reaches;
    var t := TStart(garbage, input);
    assert [Malloc(ARR, size), Memset(ARR, size)][0] == g[ENTRY][0];
    assert [Malloc(ARR, size), Memset(ARR, size)][1] == g[ENTRY][1];
    var t1 := t.Assign(ARR, 0).(alive := true);
    assert garbage[..0] + Zeros(size) + garbage[0 + size..] == Zeros(size);
    TwoSteps(g, t, t1, Allocated(size, garbage, input));
  }

  lemma RunHeader(g: Graph, checked: bool, size: nat, cs: seq<Cmd>, lastHead: Reg, garbage: seq<Byte>, input: seq<Byte>)
    returns (t': TState)
    requires Compiled(g, checked, size, cs, lastHead) && |garbage| == size
    ensures Reaches(g, TStart(garbage, input), t')
    ensures Related(g, checked, size, lastHead, Start(cs, size, input), t', FIRST_HEAD)
  {
    hide Reaches, Code, StackCode, End, Incoming;
    var t := TStart(garbage, input);
    var h := Header(checked, size);
    assert forall k | 0 <= k < |h| :: g[ENTRY][k] == h[k];
    var t2 := Allocated(size, garbage, input);
    RunAllocation(g, size, garbage, input);
    var t3 := t2;
    if checked {
      t3 := t2.Assign(ARRMAX, size);
      OneStep(g, t2, t3);
      Then(g, t, t2, t3);
    }
    t' := t3.Assign(FIRST_HEAD, size / 2);
    OneStep(g, t3, t');
    Then(g, t, t3, t');
  }

  lemma RelationAdvances(g: Graph, checked: bool, size: nat, lastHead: Reg)
    requires FixedBlocks(g, checked)
    ensures Simulates(Stepper(checked), TStepper(g), Relation(g, checked, size, lastHead))
    ensures forall s, t | Relation(g, checked, size, lastHead)(s, t) :: Observer()(s) == TObserver()(t)
  {
    var rel := Relation(g, checked, size, lastHead);
    forall s, t | rel(s, t)
      ensures Advances(Stepper(checked), TStepper(g), rel, s, t)
    {
      var h: Reg :| Related(g, checked, size, lastHead, s, t, h);
      var t', h' := SimStep(g, checked, size, lastHead, s, t, h);
      var j: nat :| j >= 1 && Iter(TStepper(g), j, t) == t';
      assert Iter(Stepper(checked), 1, s) == Iter(Stepper(checked), 0, Stepper(checked)(s));
      assert rel(Iter(Stepper(checked), 1, s), Iter(TStepper(g), j, t));
    }
  }

  /** A compiled program, checked or not, cannot be told apart from the program: the same bytes are read and
      written in the same order, both stop or both go on, both use a cell off the tape or neither does, both
      leave the tape with the message or neither does, and the tape is the same in the end. */
  lemma CompiledRunsProgram(g: Graph, checked: bool, size: nat, cs: seq<Cmd>, lastHead: Reg,
                            garbage: seq<Byte>, input: seq<Byte>)
    requires Compiled(g, checked, size, cs, lastHead) && |garbage| == size
    ensures Equivalent(Stepper(checked), Observer(), Start(cs, size, input),
                       TStepper(g), TObserver(), TStart(garbage, input))
  {
    var f, o, s := Stepper(checked), Observer(), Start(cs, size, input);
    var g', o', t := TStepper(g), TObserver(), TStart(garbage, input);
    var rel := Relation(g, checked, size, lastHead);
    var t' := RunHeader(g, checked, size, cs, lastHead, garbage, input);
    assert rel(s, t');
    RelationAdvances(g, checked, size, lastHead);
    StepMonotone(checked);
    TStepMonotone(g);
    SimulationGivesRefinement(f, o, s, g', o', t', rel);
    SimulationGivesConverse(f, o, s, g', o', t', rel);
    var j: nat :| j >= 1 && Iter(g', j, t) == t';
    RefinesAfterPrologue(f, o, s, g', o', t, t', j);
  }

  /** Without bounds checks the graph of the shortened program runs like the program taken character by
      character. */
  lemma UncheckedRunsCharacters(g: Graph, size: nat, cs: seq<Cmd>, lastHead: Reg,
                                garbage: seq<Byte>, input: seq<Byte>)
    requires Compiled(g, false, size, Shorten(cs), lastHead) && |garbage| == size
    ensures Equivalent(Stepper(false), Observer(), Start(cs, size, input),
                       TStepper(g), TObserver(), TStart(garbage, input))
  {
    var f, o, s, s' := Stepper(false), Observer(), Start(cs, size, input), Start(Shorten(cs), size, input);
    CompiledRunsProgram(g, false, size, Shorten(cs), lastHead, garbage, input);
    ShorteningPreservesMeaning(cs, size, input);
    RefinesTransitive(f, o, s, f, o, s', TStepper(g), TObserver(), TStart(garbage, input));
    RefinesTransitive(TStepper(g), TObserver(), TStart(garbage, input), f, o, s', f, o, s);
  }

  /** With bounds checks it does as well, where no run of moves passes over an end of the tape and comes back. */
  lemma CheckedRunsCharacters(g: Graph, size: nat, cs: seq<Cmd>, lastHead: Reg,
                              garbage: seq<Byte>, input: seq<Byte>)
    requires Compiled(g, true, size, Shorten(cs), lastHead) && |garbage| == size
    requires NeverPasses(Start(cs, size, input))
    ensures Equivalent(Stepper(true), Observer(), Start(cs, size, input),
                       TStepper(g), TObserver(), TStart(garbage, input))
  {
    hide NeverPasses, Compiled, Shorten;
    var f, o, s, s' := Stepper(true), Observer(), Start(cs, size, input), Start(Shorten(cs), size, input);
    CompiledRunsProgram(g, true, size, Shorten(cs), lastHead, garbage, input);
    CheckedShorteningPreservesMeaning(cs, size, input);
    RefinesTransitive(f, o, s, f, o, s', TStepper(g), TObserver(), TStart(garbage, input));
    RefinesTransitive(TStepper(g), TObserver(), TStart(garbage, input), f, o, s', f, o, s);
  }

  /** The graph has returned, with the head in lastHead. */
  ghost predicate Returned(lastHead: Reg, s: State, t: TState) {
    && t.outcome == Exited && t.mem == s.tape && t.trace == s.trace
    && lastHead in t.env && t.env[lastHead] == s.head
  }

  lemma HaltedReturned(g: Graph, checked: bool, size: nat, lastHead: Reg, s: State, t: TState)
    requires Relation(g, checked, size, lastHead)(s, t) && s.status == Halted
    ensures Returned(lastHead, s, t)
  {
    var h: Reg :| Related(g, checked, size, lastHead, s, t, h);
  }

  /** When the program ends by running to its end, so does the graph, with the head in lastHead. */
  lemma FinalHead(g: Graph, checked: bool, size: nat, cs: seq<Cmd>, lastHead: Reg,
                  garbage: seq<Byte>, input: seq<Byte>, n: nat) returns (m: nat)
    requires Compiled(g, checked, size, cs, lastHead) && |garbage| == size
    requires Iter(Stepper(checked), n, Start(cs, size, input)).status == Halted
    ensures Returned(lastHead, Iter(Stepper(checked), n, Start(cs, size, input)),
                     Iter(TStepper(g), m, TStart(garbage, input)))
  {
    hide Code, StackCode, Related, Returned, Header, End;
    var t' := RunHeader(g, checked, size, cs, lastHead, garbage, input);
    var k: nat :| k >= 1 && Iter(TStepper(g), k, TStart(garbage, input)) == t';
    var j := FinalHeadAfterHeader(g, checked, size, lastHead, Start(cs, size, input), t', FIRST_HEAD, n);
    IterAdd(TStepper(g), k, j, TStart(garbage, input));
    m := k + j;
  }

  lemma FinalHeadAfterHeader(g: Graph, checked: bool, size: nat, lastHead: Reg, s: State, t: TState, h: Reg, n: nat)
    returns (j: nat)
    requires FixedBlocks(g, checked)
    requires Related(g, checked, size, lastHead, s, t, h)
    requires Iter(Stepper(checked), n, s).status == Halted
    ensures Returned(lastHead, Iter(Stepper(checked), n, s), Iter(TStepper(g), j, t))
  {
    var rel := Relation(g, checked, size, lastHead);
    assert rel(s, t);
    RelationAdvances(g, checked, size, lastHead);
    var i: nat;
    i, j := Cofinal(Stepper(checked), TStepper(g), rel, s, t, n);
    IterAdd(Stepper(checked), n, i - n, s);
    StoppedStays(checked, Iter(Stepper(checked), n, s), i - n);
    HaltedReturned(g, checked, size, lastHead, Iter(Stepper(checked), n, s), Iter(TStepper(g), j, t));
  }

  /** Without bounds checks, when the program taken character by character runs to its end, so does the graph, with
      that program's head, tape and trace. */
  lemma UncheckedFinalHead(g: Graph, size: nat, cs: seq<Cmd>, lastHead: Reg,
                           garbage: seq<Byte>, input: seq<Byte>, n: nat) returns (m: nat)
    requires Compiled(g, false, size, Shorten(cs), lastHead) && |garbage| == size
    requires Iter(Stepper(false), n, Start(cs, size, input)).status == Halted
    ensures Returned(lastHead, Iter(Stepper(false), n, Start(cs, size, input)),
                     Iter(TStepper(g), m, TStart(garbage, input)))
  {
    var k := ShortenedEnds(cs, size, input, n);
    m := FinalHead(g, false, size, Shorten(cs), lastHead, garbage, input, k);
  }

  /** And when the graph has returned, the program taken character by character has run to its end, with that head. */
  lemma UncheckedReturned(g: Graph, size: nat, cs: seq<Cmd>, lastHead: Reg,
                          garbage: seq<Byte>, input: seq<Byte>, m: nat) returns (n: nat)
    requires Compiled(g, false, size, Shorten(cs), lastHead) && |garbage| == size
    requires Iter(TStepper(g), m, TStart(garbage, input)).outcome == Exited
    ensures Iter(Stepper(false), n, Start(cs, size, input)).status == Halted
    ensures Returned(lastHead, Iter(Stepper(false), n, Start(cs, size, input)),
                     Iter(TStepper(g), m, TStart(garbage, input)))
  {
    var s, t := Start(cs, size, input), TStart(garbage, input);
    UncheckedRunsCharacters(g, size, cs, lastHead, garbage, input);
    assert Matched(TObserver()(Iter(TStepper(g), m, t)), Stepper(false), Observer(), s);
    n :| Leads(TObserver()(Iter(TStepper(g), m, t)), Observer()(Iter(Stepper(false), n, s)));
    NeverLeaves(s, n);
    var k := UncheckedFinalHead(g, size, cs, lastHead, garbage, input, n);
    ExitedStays(g, t, k, m);
  }

  /** Without bounds checks, no program leaves the tape with the message. */
  lemma {:induction false} NeverLeaves(s: State, n: nat)
    requires s.status != LeftTape
    ensures Iter(Stepper(false), n, s).status != LeftTape
    decreases n
  {
    if n > 0 {
      NeverLeaves(Step(false, s), n - 1);
    }
  }

  lemma ExitedStays(g: Graph, t: TState, k: nat, m: nat)
    requires Iter(TStepper(g), k, t).outcome != Ongoing && Iter(TStepper(g), m, t).outcome != Ongoing
    ensures Iter(TStepper(g), k, t) == Iter(TStepper(g), m, t)
  {
    if k <= m {
      IterAdd(TStepper(g), k, m - k, t);
      TStoppedStays(g, Iter(TStepper(g), k, t), m - k);
    } else {
      IterAdd(TStepper(g), m, k - m, t);
      TStoppedStays(g, Iter(TStepper(g), m, t), k - m);
    }
  }

  lemma {:induction false} TStoppedStays(g: Graph, t: TState, n: nat)
    requires t.outcome != Ongoing
    ensures Iter(TStepper(g), n, t) == t
  {
    if n > 0 {
      TStoppedStays(g, t, n - 1);
    }
  }

  // ----- Bounds checks -----

  /** A checked program never uses a cell outside the tape. */
  lemma {:induction false} CheckedNeverFaults(s: State, n: nat)
    requires s.status != Faulted && (s.status == Running ==> s.OnTape())
    ensures Iter(Stepper(true), n, s).status != Faulted
    decreases n
  {
    if n > 0 {
      CheckedNeverFaults(Step(true, s), n - 1);
    }
  }

  /** With bounds checks and a tape that is not empty, no run of a compiled program ever crashes. */
  lemma CheckedNeverCrashes(g: Graph, size: nat, cs: seq<Cmd>, lastHead: Reg,
                            garbage: seq<Byte>, input: seq<Byte>, n: nat)
    requires Compiled(g, true, size, cs, lastHead) && |garbage| == size > 0
    ensures Iter(TStepper(g), n, TStart(garbage, input)).outcome != Crashed
  {
    var s, t := Start(cs, size, input), Iter(TStepper(g), n, TStart(garbage, input));
    CompiledRunsProgram(g, true, size, cs, lastHead, garbage, input);
    assert Matched(TObserver()(t), Stepper(true), Observer(), s);
    var m: nat :| Leads(TObserver()(t), Observer()(Iter(Stepper(true), m, s)));
    CheckedNeverFaults(s, m);
  }

  /** So in every reachable state, the address a load or store is about to use lies on the tape, and every
      register an instruction reads has been assigned. */
  lemma CheckedAccessesOnTape(g: Graph, size: nat, cs: seq<Cmd>, lastHead: Reg,
                              garbage: seq<Byte>, input: seq<Byte>, n: nat)
    requires Compiled(g, true, size, cs, lastHead) && |garbage| == size > 0
    ensures var t := Iter(TStepper(g), n, TStart(garbage, input));
            t.outcome == Ongoing ==>
              && t.bb < |g| && t.idx < |g[t.bb]| && Uses(g[t.bb][t.idx]) <= t.env.Keys
              && var i := g[t.bb][t.idx];
                 (i.Load? || i.Store? ==> 0 <= t.env[i.ptr] < size)
  {
    hide Compiled;
    var t := Iter(TStepper(g), n, TStart(garbage, input));
    CheckedNeverCrashes(g, size, cs, lastHead, garbage, input, n + 1);
    IterAdd(TStepper(g), n, 1, TStart(garbage, input));
    assert Iter(TStepper(g), 1, t) == Iter(TStepper(g), 0, TStep(g, t));
    MemoryKeepsSize(g, TStart(garbage, input), n);
  }

  lemma {:induction false} MemoryKeepsSize(g: Graph, t: TState, n: nat)
    ensures |Iter(TStepper(g), n, t).mem| == |t.mem|
    decreases n
  {
    if n > 0 {
      MemoryKeepsSize(g, TStep(g, t), n - 1);
    }
  }

  /** Whenever the program has taken n steps, the graph comes to a state that mirrors it. */
  lemma {:induction false} KeepsUp(g: Graph, checked: bool, size: nat, lastHead: Reg, s: State, t: TState, h: Reg,
                                   n: nat)
    returns (t': TState, h': Reg)
    requires FixedBlocks(g, checked) && Related(g, checked, size, lastHead, s, t, h)
    ensures Related(g, checked, size, lastHead, Iter(Stepper(checked), n, s), t', h')
    ensures n > 0 ==> Reaches(g, t, t')
    ensures n == 0 ==> t' == t
    decreases n
  {
    hide Related, Reaches, FixedBlocks;
    t', h' := t, h;
    if n > 0 {
      var t1, h1 := SimStep(g, checked, size, lastHead, s, t, h);
      t', h' := KeepsUp(g, checked, size, lastHead, Step(checked, s), t1, h1, n - 1);
      if n > 1 {
        Then(g, t, t1, t');
      }
    }
  }

  lemma StepsTo(g: Graph, t: TState, k: nat, t1: TState) returns (m: nat)
    requires Reaches(g, Iter(TStepper(g), k, t), t1)
    ensures m > k && Iter(TStepper(g), m, t) == t1
  {
    var j: nat :| j >= 1 && Iter(TStepper(g), j, Iter(TStepper(g), k, t)) == t1;
    IterAdd(TStepper(g), k, j, t);
    m := k + j;
  }

  /** Control is at the error block, then at the end block with the message printed, and then it has returned, with
      the tape as it was. */
  ghost predicate Leaves(s: State, t1: TState, t2: TState, t3: TState) {
    && t1.bb == ABERRORBB && t1.idx == 0 && t1.outcome == Ongoing && t1.trace == s.trace
    && t2.bb == ENDBB && t2.idx == 0 && t2.outcome == Ongoing && t2.trace == s.trace + [Message]
    && t3.outcome == Exited && t3.trace == s.trace + [Message] && t3.mem == s.tape
  }

  /** A move whose total ends outside the tape stops the run: control goes to the error block, from there to the end
      block, and out; the message is the last thing printed, and the tape is left as it is. */
  lemma LeavingTheTape(g: Graph, size: nat, cs: seq<Cmd>, lastHead: Reg,
                       garbage: seq<Byte>, input: seq<Byte>, n: nat) returns (m1: nat, m2: nat, m: nat)
    requires Compiled(g, true, size, cs, lastHead) && |garbage| == size
    requires var s := Iter(Stepper(true), n, Start(cs, size, input));
             s.status == Running && s.code != [] && s.code[0].Move? && !(0 <= s.head + s.code[0].offset < |s.tape|)
    ensures m1 < m2 < m
    ensures Leaves(Iter(Stepper(true), n, Start(cs, size, input)),
                   Iter(TStepper(g), m1, TStart(garbage, input)),
                   Iter(TStepper(g), m2, TStart(garbage, input)),
                   Iter(TStepper(g), m, TStart(garbage, input)))
  {
    hide Reaches, StackCode, End, Header, CodeStart;
    var s0, t, s := Start(cs, size, input), TStart(garbage, input), Iter(Stepper(true), n, Start(cs, size, input));
    var t0 := RunHeader(g, true, size, cs, lastHead, garbage, input);
    var k := StepsTo(g, t, 0, t0);
    var t', h' := KeepsUp(g, true, size, lastHead, s0, t0, FIRST_HEAD, n);
    if n > 0 {
      k := StepsTo(g, t, k, t');
    }
    MovePlace(g, size, lastHead, s, t', h');
    var t1, t2, t3 := RunLeave(g, size, s, t', h');
    m1 := StepsTo(g, t, k, t1);
    m2 := StepsTo(g, t, m1, t2);
    m := StepsTo(g, t, m2, t3);
  }

  lemma MovePlace(g: Graph, size: nat, lastHead: Reg, s: State, t: TState, h: Reg)
    requires Related(g, true, size, lastHead, s, t, h) && s.status == Running && s.code != [] && s.code[0].Move?
    ensures Mirrors(g, true, size, s, t, h) && |s.tape| == size
    ensures GepAt(g, Place(t.bb, t.idx, h), s.code[0].offset) && BoundsCheckAt(g, Place(t.bb, t.idx, h))
  {
    assert CodeOf(g, true, Place(t.bb, t.idx, h), s.code[0]);
  }
}
