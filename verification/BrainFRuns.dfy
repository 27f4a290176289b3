/** Runs of moves under bounds checks. A run is checked once, where it ends, so it may pass over the end of the tape
    and come back. */
module BrainFRuns {
  import opened Machines
  import opened BrainFLang
  import opened BrainFCoalesce

  /** How many moves the code begins with. */
  function RunLength(cs: seq<Cmd>): (n: nat)
    ensures n <= |cs|
  {
    if cs != [] && cs[0].Move? then 1 + RunLength(cs[1..]) else 0
  }

  function RunSum(cs: seq<Cmd>, i: nat): int
    requires i <= RunLength(cs)
  {
    if i == 0 then 0 else cs[0].offset + RunSum(cs[1..], i - 1)
  }

  predicate Inside(s: State, head: int) {
    0 <= head < |s.tape|
  }

  predicate StraysAt(s: State, i: nat) {
    1 <= i <= RunLength(s.code) && !Inside(s, s.head + RunSum(s.code, i))
  }

  /** Some move of the run that is about to be taken ends off the tape. */
  ghost predicate Strays(s: State) {
    exists i: nat :: StraysAt(s, i)
  }

  /** The run ends on the tape. */
  predicate EndsInside(s: State) {
    Inside(s, s.head + RunSum(s.code, RunLength(s.code)))
  }

  predicate AtMove(s: State) {
    s.status == Running && s.code != [] && s.code[0].Move?
  }

  /** The run passes over an end of the tape and comes back. */
  ghost predicate Passes(s: State) {
    AtMove(s) && Strays(s) && EndsInside(s)
  }

  // ----- One run -----

  function Moved(s: State): State
    requires AtMove(s)
  {
    s.(code := s.code[1..], head := s.head + s.code[0].offset)
  }

  lemma StraysLater(s: State)
    requires AtMove(s) && Inside(s, s.head + s.code[0].offset)
    ensures Strays(s) <==> Strays(Moved(s))
    ensures RunLength(s.code) > 1 ==> (EndsInside(s) <==> EndsInside(Moved(s)))
  {
    var t := Moved(s);
    if Strays(s) {
      var i: nat :| StraysAt(s, i);
      assert StraysAt(t, i - 1);
    }
    if Strays(t) {
      var i: nat :| StraysAt(t, i);
      assert StraysAt(s, i + 1);
    }
  }

  /** With bounds checks after every move, a run that does not stray is taken to its end. */
  lemma {:induction false} KeptInside(s: State)
    requires s.status == Running && !Strays(s)
    ensures var n := RunLength(s.code);
            Iter(Stepper(true), n, s) == s.(code := s.code[n..], head := s.head + RunSum(s.code, n))
    decreases |s.code|
  {
    var n := RunLength(s.code);
    if n > 0 {
      assert !StraysAt(s, 1);
      assert RunSum(s.code[1..], 0) == 0;
      StraysLater(s);
      KeptInside(Moved(s));
      assert s.code[1..][n - 1..] == s.code[n..];
    }
  }

  /** One that strays leaves the tape on the way: the message is printed, and nothing else happens. */
  lemma {:induction false} LeftOnTheWay(s: State) returns (i: nat)
    requires s.status == Running && Strays(s)
    ensures 1 <= i <= RunLength(s.code)
    ensures var t := Iter(Stepper(true), i, s);
            t.status == LeftTape && t.trace == s.trace + [Message] && t.tape == s.tape
    decreases |s.code|
  {
    if Inside(s, s.head + s.code[0].offset) {
      StraysLater(s);
      i := LeftOnTheWay(Moved(s));
      i := i + 1;
    } else {
      i := 1;
      assert Iter(Stepper(true), 1, s) == Iter(Stepper(true), 0, Step(true, s));
    }
  }

  /** The shortened program takes the run in one move. */
  lemma {:induction false} ShortenRun(cs: seq<Cmd>)
    requires cs != [] && cs[0].Move?
    ensures var n := RunLength(cs);
            Shorten(cs) == [Move(RunSum(cs, n))] + Shorten(cs[n..])
  {
    var n := RunLength(cs);
    ShortenFirst(cs[1..]);
    assert RunLength(cs[1..]) == n - 1;
    if n > 1 {
      ShortenRun(cs[1..]);
      assert cs[1..][n - 1..] == cs[n..];
    } else {
      assert RunSum(cs[1..], 0) == 0;
    }
  }

  lemma ShortenedMove(s: State)
    requires AtMove(s)
    ensures var n, t := RunLength(s.code), ShortenState(s);
            && t.code == [Move(RunSum(s.code, n))] + Shorten(s.code[n..]) && t.code[1..] == Shorten(s.code[n..])
  {
    ShortenRun(s.code);
  }

  /** The program taken character by character leaves the tape in the course of the run. */
  ghost predicate LeavesInRun(s: State) {
    exists i: nat :: i <= RunLength(s.code) && Iter(Stepper(true), i, s).status == LeftTape
  }

  /** Taking a run character by character and taking it in one move part exactly when it strays and its end is on the
      tape: one has left the tape, and the other goes on. Otherwise both leave the tape and show the same, or both come
      to the same state. */
  lemma RunsPartIffPasses(s: State)
    requires AtMove(s)
    ensures var t := Step(true, ShortenState(s));
            && (t.status == LeftTape <==> !EndsInside(s))
            && (LeavesInRun(s) <==> Strays(s))
            && (LeavesInRun(s) != (t.status == LeftTape) <==> Passes(s))
            && (!Strays(s) ==> t == ShortenState(Iter(Stepper(true), RunLength(s.code), s)))
            && (!EndsInside(s) ==> t.trace == s.trace + [Message] && t.tape == s.tape)
  {
    hide Strays, EndsInside, Shorten, ShortenStack, RunSum, LeavesInRun;
    OneMove(s);
    if !EndsInside(s) {
      StraysAtEnd(s);
    }
    if Strays(s) {
      StraysLeaves(s);
    } else {
      KeptInside(s);
      StaysInRun(s);
    }
  }

  /** The shortened program's one move. */
  lemma OneMove(s: State)
    requires AtMove(s)
    ensures var n, t, head := RunLength(s.code), ShortenState(s), s.head + RunSum(s.code, RunLength(s.code));
            Step(true, t) == if EndsInside(s) then t.(code := Shorten(s.code[n..]), head := head)
                             else t.(code := Shorten(s.code[n..]), head := head, trace := s.trace + [Message],
                                     status := LeftTape)
  {
    ShortenedMove(s);
    hide Shorten, ShortenStack, RunSum, RunLength;
  }

  lemma StraysAtEnd(s: State)
    requires AtMove(s) && !EndsInside(s)
    ensures Strays(s)
  {
    assert StraysAt(s, RunLength(s.code));
  }

  lemma StraysLeaves(s: State)
    requires s.status == Running && Strays(s)
    ensures LeavesInRun(s)
  {
    var i := LeftOnTheWay(s);
  }

  lemma StaysInRun(s: State)
    requires s.status == Running && !Strays(s)
    ensures !LeavesInRun(s)
  {
    var n := RunLength(s.code);
    KeptInside(s);
    hide Strays, RunLength;
    forall i: nat | i <= n
      ensures Iter(Stepper(true), i, s).status != LeftTape
    {
      IterAdd(Stepper(true), i, n - i, s);
      if Iter(Stepper(true), i, s).status == LeftTape {
        StoppedStays(true, Iter(Stepper(true), i, s), n - i);
      }
    }
  }

  // ----- Whole programs -----

  ghost predicate NeverPasses(s: State) {
    forall n: nat {:trigger Iter(Stepper(true), n, s)} :: !Passes(Iter(Stepper(true), n, s))
  }

  lemma NeverPassesLater(s: State, i: nat)
    requires NeverPasses(s)
    ensures NeverPasses(Iter(Stepper(true), i, s))
  {
    var s' := Iter(Stepper(true), i, s);
    forall n: nat
      ensures !Passes(Iter(Stepper(true), n, s'))
    {
      IterAdd(Stepper(true), i, n, s);
    }
  }

  predicate Alike(s: State, t: State) {
    if s.status == LeftTape then t.status == LeftTape && Observe(s) == Observe(t) else t == ShortenState(s)
  }

  ghost function CheckedShortened(): (State, State) -> bool {
    (s: State, t: State) => NeverPasses(s) && Alike(s, t)
  }

  lemma AlikeAfterRun(s: State) returns (i: nat)
    requires AtMove(s) && !Passes(s)
    ensures i >= 1 && Alike(Iter(Stepper(true), i, s), Step(true, ShortenState(s)))
  {
    RunsPartIffPasses(s);
    if Strays(s) {
      i := LeftOnTheWay(s);
    } else {
      i := RunLength(s.code);
      KeptInside(s);
    }
  }

  lemma AlikeAfterStep(s: State)
    requires s.status == Running && !AtMove(s) && (s.code != [] && s.code[0].Change? ==> !s.OnTape())
    ensures Alike(Step(true, s), Step(true, ShortenState(s)))
  {
    ShortenFirst(s.code);
    if s.code != [] && !s.code[0].Change? {
      assert ShortenState(s).code[1..] == Shorten(s.code[1..]);
    }
  }

  lemma AlikeAdvances(s: State, t: State)
    requires NeverPasses(s) && Alike(s, t)
    ensures Advances(Stepper(true), Stepper(true), CheckedShortened(), s, t)
  {
    var f := Stepper(true);
    var n: nat := 1;
    assert Iter(f, 1, s) == Iter(f, 0, f(s)) && Iter(f, 1, t) == Iter(f, 0, f(t));
    if AtMove(s) {
      assert s == Iter(f, 0, s);
      n := AlikeAfterRun(s);
    } else if s.status == Running && s.code != [] && s.code[0].Change? && s.OnTape() {
      n := AlikeAfterChanges(s);
    } else if s.status == Running {
      AlikeAfterStep(s);
    }
    NeverPassesLater(s, n);
    assert CheckedShortened()(Iter(f, n, s), Iter(f, 1, t));
  }

  lemma AlikeAfterChanges(s: State) returns (n: nat)
    requires s.status == Running && s.code != [] && s.code[0].Change? && s.OnTape()
    ensures n >= 1 && Alike(Iter(Stepper(true), n, s), Step(true, ShortenState(s)))
  {
    var k;
    n, k := ChangeRun(true, s);
    assert ShortenState(s).code[1..] == Shorten(s.code[n..]);
  }

  lemma AlikeSimulates()
    ensures Simulates(Stepper(true), Stepper(true), CheckedShortened())
    ensures forall s, t | CheckedShortened()(s, t) :: Observer()(s) == Observer()(t)
  {
    forall s, t | CheckedShortened()(s, t)
      ensures Advances(Stepper(true), Stepper(true), CheckedShortened(), s, t)
      ensures Observer()(s) == Observer()(t)
    {
      hide Advances, NeverPasses, Shorten, ShortenStack;
      AlikeAdvances(s, t);
    }
  }

  /** With bounds checks, a program none of whose runs ever passes over an end of the tape cannot be told apart from its
      shortened form. */
  lemma CheckedShorteningPreservesMeaning(cs: seq<Cmd>, size: nat, input: seq<Byte>)
    requires NeverPasses(Start(cs, size, input))
    ensures Equivalent(Stepper(true), Observer(), Start(cs, size, input),
                       Stepper(true), Observer(), Start(Shorten(cs), size, input))
  {
    hide Refines, Shorten, Monotone, NeverPasses;
    var f, o, rel := Stepper(true), Observer(), CheckedShortened();
    var s, t := Start(cs, size, input), Start(Shorten(cs), size, input);
    StepMonotone(true);
    AlikeSimulates();
    assert Alike(s, t);
    SimulationGivesRefinement(f, o, s, f, o, t, rel);
    SimulationGivesConverse(f, o, s, f, o, t, rel);
  }

  // ----- Runs that go one way -----

  predicate OneWayRun(cs: seq<Cmd>) {
    || (forall i | 0 <= i < RunLength(cs) :: cs[i].Move? && cs[i].offset >= 0)
    || (forall i | 0 <= i < RunLength(cs) :: cs[i].Move? && cs[i].offset <= 0)
  }

  /** Every run of moves goes one way, in loops as well. */
  predicate OneWay(cs: seq<Cmd>) {
    cs == [] || (OneWayRun(cs) && (cs[0].Loop? ==> OneWay(cs[0].body)) && OneWay(cs[1..]))
  }

  predicate OneWayStack(k: Stack) {
    match k
    case Outermost => true
    case Inside(body, rest, outer) => OneWay(body) && OneWay(rest) && OneWayStack(outer)
  }

  predicate OneWayState(s: State) {
    && OneWay(s.code) && OneWayStack(s.stack)
    && (s.status == Running ==> s.OnTape() || s.tape == [])
  }

  lemma {:induction false} SumRises(cs: seq<Cmd>, i: nat, j: nat)
    requires i <= j <= RunLength(cs) && OneWayRun(cs)
    ensures 0 <= RunSum(cs, i) <= RunSum(cs, j) || RunSum(cs, j) <= RunSum(cs, i) <= 0
    decreases j
  {
    if j > 0 {
      assert RunLength(cs[1..]) == RunLength(cs) - 1;
      var up := forall i | 0 <= i < RunLength(cs) :: cs[i].Move? && cs[i].offset >= 0;
      assert forall i | 0 <= i < RunLength(cs[1..]) :: cs[1..][i] == cs[i + 1];
      SumSign(cs, j, up);
      SumSign(cs, i, up);
      if i > 0 {
        SumRises(cs[1..], i - 1, j - 1);
        SumSign(cs[1..], i - 1, up);
        SumSign(cs[1..], j - 1, up);
      }
    }
  }

  lemma {:induction false} SumSign(cs: seq<Cmd>, i: nat, up: bool)
    requires i <= RunLength(cs)
    requires forall i | 0 <= i < RunLength(cs) :: cs[i].Move? && if up then cs[i].offset >= 0 else cs[i].offset <= 0
    ensures if up then RunSum(cs, i) >= 0 else RunSum(cs, i) <= 0
  {
    if i > 0 {
      assert forall i | 0 <= i < RunLength(cs[1..]) :: cs[1..][i] == cs[i + 1];
      SumSign(cs[1..], i - 1, up);
    }
  }

  /** A run that goes one way does not come back. */
  lemma OneWayDoesNotPass(s: State)
    requires OneWayState(s)
    ensures !Passes(s)
  {
    if AtMove(s) && Strays(s) {
      var i: nat :| StraysAt(s, i);
      SumRises(s.code, i, RunLength(s.code));
    }
  }

  lemma OneWayStep(s: State)
    requires OneWayState(s)
    ensures OneWayState(Step(true, s))
  {
  }

  lemma {:induction false} OneWayNeverPasses(s: State)
    requires OneWayState(s)
    ensures NeverPasses(s)
  {
    forall n: nat
      ensures !Passes(Iter(Stepper(true), n, s))
    {
      OneWayIter(s, n);
      OneWayDoesNotPass(Iter(Stepper(true), n, s));
    }
  }

  lemma {:induction false} OneWayIter(s: State, n: nat)
    requires OneWayState(s)
    ensures OneWayState(Iter(Stepper(true), n, s))
    decreases n
  {
    if n > 0 {
      OneWayStep(s);
      OneWayIter(Step(true, s), n - 1);
    }
  }

  /** So with bounds checks, a program whose runs of moves all go one way cannot be told apart from its shortened
      form, on any tape and any input. */
  lemma OneWayPreservesMeaning(cs: seq<Cmd>, size: nat, input: seq<Byte>)
    requires OneWay(cs)
    ensures Equivalent(Stepper(true), Observer(), Start(cs, size, input),
                       Stepper(true), Observer(), Start(Shorten(cs), size, input))
  {
    OneWayNeverPasses(Start(cs, size, input));
    CheckedShorteningPreservesMeaning(cs, size, input);
  }

  // ----- A run that passes -----

  function LeftRight(): seq<Cmd> {
    [Move(-1), Move(1)]
  }

  lemma {:induction false} NothingShown(s: State, n: nat)
    requires s.trace == [] && s.stack == Outermost && s.status != LeftTape && s.tape != [] && s.head == 0
    requires s.code == [] || s.code == [Move(0)]
    ensures Iter(Stepper(true), n, s).trace == []
    decreases n
  {
    if n > 0 {
      assert [Move(0)][1..] == [];
      NothingShown(Step(true, s), n - 1);
    }
  }

  /** One step left and one step right, on a tape of one cell: character by character the first move leaves the tape,
      and the message is printed; the shortened program moves nowhere and runs to its end. */
  lemma PassingOverTheEnd(input: seq<Byte>)
    ensures Flatten(LeftRight()) == Symbols("<>") && Shorten(LeftRight()) == [Move(0)]
    ensures Passes(Start(LeftRight(), 1, input))
    ensures Iter(Stepper(true), 1, Start(LeftRight(), 1, input)).status == LeftTape
    ensures Iter(Stepper(true), 2, Start(Shorten(LeftRight()), 1, input)).status == Halted
    ensures !Equivalent(Stepper(true), Observer(), Start(LeftRight(), 1, input),
                        Stepper(true), Observer(), Start(Shorten(LeftRight()), 1, input))
  {
    var f, cs := Stepper(true), LeftRight();
    assert cs[1..] == [Move(1)] && cs[1..][1..] == [] && [Move(0)][1..] == [];
    assert "<>"[1..] == ">" && ">"[1..] == "";
    var s, t := Start(cs, 1, input), Start([Move(0)], 1, input);
    assert StraysAt(s, 1) && RunSum(cs, 1) == -1 && RunSum(cs, 2) == 0;
    assert Iter(f, 1, s) == Iter(f, 0, Step(true, s));
    assert Iter(f, 2, t) == Iter(f, 1, Step(true, t)) == Iter(f, 0, Step(true, Step(true, t)));
    if Refines(f, Observer(), s, f, Observer(), t) {
      assert Matched(Observer()(Iter(f, 1, s)), f, Observer(), t);
      var m: nat :| Leads(Observer()(Iter(f, 1, s)), Observer()(Iter(f, m, t)));
      NothingShown(t, m);
      assert false;
    }
  }
}
