/** Threads that wait for one another: each blocks until another thread releases them and enough of them have come. */
module Barrier {
  // ----- The shared counters -----

  datatype Counters = Counters(n: nat, waitFor: nat)

  datatype Effect = Effect(counters: Counters, broadcast: bool)

  /** What a blocking thread does with the counters: it wakes everyone, itself included, or waits. */
  function BlockEffect(c: Counters): Effect {
    if c.waitFor > 0 && c.n + 1 == c.waitFor then Effect(Counters(0, 0), true)
    else Effect(c.(n := c.n + 1), false)
  }

  function ReleaseEffect(c: Counters, num: nat): Effect {
    if c.n >= num then Effect(Counters(0, 0), true) else Effect(c.(waitFor := num), false)
  }

  class WaitForThreads {
    var n: nat
    var waitFor: nat

    function Shared(): Counters
      reads this
    {
      Counters(n, waitFor)
    }

    constructor ()
      ensures Shared() == Counters(0, 0)
    {
      n, waitFor := 0, 0;
    }

    /** What is done under the lock: the thread goes on if it wakes the others, and waits if it does not. */
    method Block() returns (broadcast: bool)
      requires waitFor == 0 || n + 1 <= waitFor
      modifies this
      ensures Effect(Shared(), broadcast) == BlockEffect(old(Shared()))
    {
      n := n + 1;
      assert waitFor == 0 || n <= waitFor;
      if waitFor > 0 && n == waitFor {
        UnblockThreads();
        broadcast := true;
      } else {
        broadcast := false;
      }
    }

    method ReleaseThreads(num: nat) returns (broadcast: bool)
      modifies this
      ensures Effect(Shared(), broadcast) == ReleaseEffect(old(Shared()), num)
    {
      if n >= num {
        UnblockThreads();
        broadcast := true;
      } else {
        waitFor := num;
        broadcast := false;
      }
    }

    method UnblockThreads()
      modifies this
      ensures Shared() == Counters(0, 0)
    {
      n := 0;
      waitFor := 0;
    }
  }

  // ----- The threads -----

  /** Where a thread is: before the lock, holding it, waiting on the condition, woken but without the lock, holding
      the lock again on its way out, or gone. */
  datatype Phase = Before | Locked | Waiting | Woken | Leaving | Gone

  /** Threads 0 up to the last but one block; the last one releases. */
  datatype State = State(counters: Counters, holder: int, phases: seq<Phase>)

  const NOBODY: int := -1

  predicate IsInit(s: State) {
    s.counters == Counters(0, 0) && s.holder == NOBODY && |s.phases| > 0 && forall t | 0 <= t < |s.phases| ::
      s.phases[t] == Before
  }

  /** The number of blocking threads. */
  function Callers(s: State): nat {
    if s.phases == [] then 0 else |s.phases| - 1
  }

  function WakeAll(phases: seq<Phase>): (r: seq<Phase>)
    ensures |r| == |phases|
    ensures forall t | 0 <= t < |r| :: r[t] == if phases[t] == Waiting then Woken else phases[t]
  {
    seq(|phases|, t requires 0 <= t < |phases| => if phases[t] == Waiting then Woken else phases[t])
  }

  /** What thread t does under the lock, up to leaving or waiting, which gives up the lock. */
  function Body(s: State, t: nat): State
    requires t < |s.phases|
  {
    var e := if t < Callers(s) then BlockEffect(s.counters) else ReleaseEffect(s.counters, Callers(s));
    if e.broadcast then State(e.counters, s.holder, WakeAll(s.phases)[t := Leaving])
    else State(e.counters, NOBODY, s.phases[t := Waiting])
  }

  /** One step of thread t, where it can take one. */
  predicate Step(s: State, t: nat, s': State) {
    && t < |s.phases|
    && match s.phases[t]
       case Before => s.holder == NOBODY && s' == s.(holder := t, phases := s.phases[t := Locked])
       case Locked => s.holder == t && s' == Body(s, t)
       case Waiting => false
       case Woken => s.holder == NOBODY && s' == s.(holder := t, phases := s.phases[t := Leaving])
       case Leaving => s.holder == t && s' == s.(holder := NOBODY, phases := s.phases[t := Gone])
       case Gone => false
  }

  ghost predicate CanStep(s: State) {
    exists t: nat, s' :: Step(s, t, s')
  }

  /** A run, in any interleaving. */
  ghost predicate IsRun(run: seq<State>) {
    && run != [] && IsInit(run[0])
    && forall i | 0 <= i < |run| - 1 :: StepOfSome(run[i], run[i + 1])
  }

  ghost predicate StepOfSome(s: State, s': State) {
    exists t: nat :: Step(s, t, s')
  }

  // ----- The invariant -----

  /** The thread has done its part with the counters. */
  predicate Arrived(p: Phase) {
    p != Before && p != Locked
  }

  function ArrivedCount(phases: seq<Phase>): nat {
    if phases == [] then 0
    else ArrivedCount(phases[..|phases| - 1]) + if Arrived(phases[|phases| - 1]) then 1 else 0
  }

  lemma {:induction false} CountAtMost(phases: seq<Phase>)
    ensures ArrivedCount(phases) <= |phases|
    ensures ArrivedCount(phases) == |phases| <==> forall t | 0 <= t < |phases| :: Arrived(phases[t])
  {
    if phases != [] {
      var k := |phases| - 1;
      CountAtMost(phases[..k]);
      assert forall t | 0 <= t < k :: phases[..k][t] == phases[t];
    }
  }

  lemma {:induction false} CountUpdate(phases: seq<Phase>, t: nat, p: Phase)
    requires t < |phases|
    ensures ArrivedCount(phases[t := p])
         == ArrivedCount(phases) - (if Arrived(phases[t]) then 1 else 0) + (if Arrived(p) then 1 else 0)
  {
    var k := |phases| - 1;
    if t < k {
      CountUpdate(phases[..k], t, p);
      assert phases[t := p][..k] == phases[..k][t := p];
    } else {
      assert phases[t := p][..k] == phases[..k];
    }
  }

  lemma {:induction false} CountSame(a: seq<Phase>, b: seq<Phase>)
    requires |a| == |b| && forall t | 0 <= t < |a| :: Arrived(a[t]) <==> Arrived(b[t])
    ensures ArrivedCount(a) == ArrivedCount(b)
  {
    if a != [] {
      CountSame(a[..|a| - 1], b[..|b| - 1]);
    }
  }

  /** Nobody has been woken. */
  predicate NotReleased(s: State)
    requires |s.phases| > 0
  {
    var k := Callers(s);
    && (forall t | 0 <= t < |s.phases| :: s.phases[t] in {Before, Locked, Waiting})
    && s.counters.n == ArrivedCount(s.phases[..k])
    && s.counters.waitFor == (if s.phases[k] == Waiting then k else 0)
    && (s.phases[k] == Waiting ==> s.counters.n < k)
  }

  /** Everyone has been woken. */
  predicate Released(s: State) {
    && (forall t | 0 <= t < |s.phases| :: s.phases[t] in {Woken, Leaving, Gone})
    && s.counters == Counters(0, 0)
  }

  predicate Inv(s: State) {
    && |s.phases| > 0
    && (NotReleased(s) || Released(s))
    && (s.holder == NOBODY || 0 <= s.holder < |s.phases|)
    && forall t | 0 <= t < |s.phases| :: s.holder == t <==> s.phases[t] in {Locked, Leaving}
  }

  lemma InitInv(s: State)
    requires IsInit(s)
    ensures Inv(s)
  {
    var k := Callers(s);
    CountNone(s.phases[..k]);
  }

  lemma {:induction false} CountNone(phases: seq<Phase>)
    requires forall t | 0 <= t < |phases| :: !Arrived(phases[t])
    ensures ArrivedCount(phases) == 0
  {
    if phases != [] {
      CountNone(phases[..|phases| - 1]);
    }
  }

  /** When thread t, under the lock, is about to do its part, not all have arrived. */
  lemma OneMissing(s: State, t: nat)
    requires Inv(s) && t < Callers(s) && s.phases[t] == Locked
    ensures NotReleased(s) && s.counters.n < Callers(s)
  {
    var k := Callers(s);
    CountAtMost(s.phases[..k]);
    assert !Arrived(s.phases[..k][t]);
  }

  lemma CallerBody(s: State, t: nat)
    requires Inv(s) && t < Callers(s) && s.phases[t] == Locked
    ensures Inv(Body(s, t))
  {
    OneMissing(s, t);
    CallerCount(s, t);
    if s.counters.waitFor > 0 && s.counters.n + 1 == s.counters.waitFor {
      CallerWakes(s, t);
    } else {
      CallerWaits(s, t);
    }
  }

  lemma CallerCount(s: State, t: nat)
    requires Inv(s) && t < Callers(s) && s.phases[t] == Locked
    ensures var first := s.phases[..Callers(s)][t := Waiting];
            && ArrivedCount(first) == ArrivedCount(s.phases[..Callers(s)]) + 1
            && (ArrivedCount(first) == Callers(s) ==> forall u | 0 <= u < Callers(s) :: Arrived(first[u]))
  {
    var first := s.phases[..Callers(s)];
    CountUpdate(first, t, Waiting);
    CountAtMost(first[t := Waiting]);
  }

  lemma CallerWakes(s: State, t: nat)
    requires Inv(s) && NotReleased(s) && t < Callers(s) && s.phases[t] == Locked
    requires s.counters.waitFor > 0 && s.counters.n + 1 == s.counters.waitFor
    ensures Inv(Body(s, t))
  {
    hide ArrivedCount;
    var k := Callers(s);
    CallerCount(s, t);
    var first := s.phases[..k][t := Waiting];
    assert s.counters.waitFor == k;
    assert forall u | 0 <= u < k :: Arrived(first[u]) && (u != t ==> first[u] == s.phases[u]);
  }

  lemma CallerWaits(s: State, t: nat)
    requires Inv(s) && NotReleased(s) && t < Callers(s) && s.phases[t] == Locked && s.counters.n < Callers(s)
    requires !(s.counters.waitFor > 0 && s.counters.n + 1 == s.counters.waitFor)
    ensures Inv(Body(s, t))
  {
    hide ArrivedCount;
    CallerCount(s, t);
    assert Body(s, t).phases[..Callers(s)] == s.phases[..Callers(s)][t := Waiting];
  }

  lemma ReleaserBody(s: State)
    requires Inv(s) && s.phases[Callers(s)] == Locked
    ensures Inv(Body(s, Callers(s)))
  {
    var k := Callers(s);
    var s' := Body(s, k);
    assert NotReleased(s);
    var first := s.phases[..k];
    CountAtMost(first);
    if s.counters.n >= k {
      forall u | 0 <= u < |s.phases|
        ensures s'.phases[u] in {Woken, Leaving}
      {
        assert u < k ==> Arrived(first[u]);
      }
    } else {
      assert s'.phases[..k] == first;
    }
  }

  lemma OtherStep(s: State, t: nat, s': State)
    requires Inv(s) && Step(s, t, s') && s.phases[t] != Locked
    ensures Inv(s')
  {
    var k := Callers(s);
    CountSame(s.phases[..k], s'.phases[..k]);
  }

  lemma StepInv(s: State, t: nat, s': State)
    requires Inv(s) && Step(s, t, s')
    ensures Inv(s') && |s'.phases| == |s.phases|
  {
    if s.phases[t] != Locked {
      OtherStep(s, t, s');
    } else if t < Callers(s) {
      CallerBody(s, t);
    } else {
      ReleaserBody(s);
    }
  }

  // ----- What holds of every run -----

  lemma {:induction false} RunInv(run: seq<State>, i: nat)
    requires IsRun(run) && i < |run|
    ensures Inv(run[i]) && |run[i].phases| == |run[0].phases|
  {
    if i == 0 {
      InitInv(run[0]);
    } else {
      RunInv(run, i - 1);
      assert StepOfSome(run[i - 1], run[i - 1 + 1]);
      var t: nat :| Step(run[i - 1], t, run[i]);
      StepInv(run[i - 1], t, run[i]);
    }
  }

  /** No thread gets past the barrier before all threads that block have come, and the one that releases. */
  lemma NoneLeavesEarly(run: seq<State>, i: nat, t: nat, u: nat)
    requires IsRun(run) && i < |run| && t < |run[i].phases| && u < |run[i].phases|
    requires run[i].phases[t] in {Woken, Leaving, Gone}
    ensures Arrived(run[i].phases[u])
  {
    RunInv(run, i);
  }

  /** The assertion on the count holds whenever a blocking thread gets to it. */
  lemma AssertionHolds(run: seq<State>, i: nat, t: nat)
    requires IsRun(run) && i < |run| && t < Callers(run[i]) && run[i].phases[t] == Locked
    ensures run[i].counters.waitFor == 0 || run[i].counters.n + 1 <= run[i].counters.waitFor
  {
    RunInv(run, i);
    OneMissing(run[i], t);
  }

  /** At most one thread holds the lock. */
  lemma LockExclusive(run: seq<State>, i: nat, t: nat, u: nat)
    requires IsRun(run) && i < |run| && t < |run[i].phases| && u < |run[i].phases|
    requires run[i].phases[t] in {Locked, Leaving} && run[i].phases[u] in {Locked, Leaving}
    ensures t == u
  {
    RunInv(run, i);
  }

  /** A run that can go no further has let every thread through. */
  lemma NoneStuck(run: seq<State>)
    requires IsRun(run) && !CanStep(run[|run| - 1])
    ensures AllGone(run[|run| - 1])
  {
    var s := run[|run| - 1];
    RunInv(run, |run| - 1);
    if s.holder != NOBODY {
      var t := s.holder;
      if s.phases[t] == Locked {
        assert Step(s, t, Body(s, t));
      } else {
        assert Step(s, t, s.(holder := NOBODY, phases := s.phases[t := Gone]));
      }
      assert false;
    }
    forall t | 0 <= t < |s.phases|
      ensures s.phases[t] in {Waiting, Gone}
    {
      assert !Step(s, t, s.(holder := t, phases := s.phases[t := Locked]));
      assert !Step(s, t, s.(holder := t, phases := s.phases[t := Leaving]));
    }
    CountAtMost(s.phases[..Callers(s)]);
    assert s.phases[Callers(s)] in {Waiting, Gone};
  }

  predicate AllGone(s: State) {
    forall t | 0 <= t < |s.phases| :: s.phases[t] == Gone
  }

  // ----- Every run ends -----

  function Rank(p: Phase): nat {
    match p
    case Before => 5
    case Locked => 4
    case Waiting => 3
    case Woken => 2
    case Leaving => 1
    case Gone => 0
  }

  function Ranks(phases: seq<Phase>): nat {
    if phases == [] then 0 else Ranks(phases[..|phases| - 1]) + Rank(phases[|phases| - 1])
  }

  lemma {:induction false} RanksFall(a: seq<Phase>, b: seq<Phase>, t: nat)
    requires |a| == |b| && (forall u | 0 <= u < |a| :: Rank(b[u]) <= Rank(a[u]))
    ensures Ranks(b) <= Ranks(a)
    ensures t < |a| && Rank(b[t]) < Rank(a[t]) ==> Ranks(b) < Ranks(a)
  {
    if a != [] {
      RanksFall(a[..|a| - 1], b[..|b| - 1], t);
    }
  }

  lemma StepFalls(s: State, t: nat, s': State)
    requires Step(s, t, s')
    ensures Ranks(s'.phases) < Ranks(s.phases) && |s'.phases| == |s.phases|
  {
    RanksFall(s.phases, s'.phases, t);
  }

  lemma {:induction false} RanksAtMost(phases: seq<Phase>)
    ensures Ranks(phases) <= 5 * |phases|
  {
    if phases != [] {
      RanksAtMost(phases[..|phases| - 1]);
    }
  }

  lemma {:induction false} RunFalls(run: seq<State>, i: nat)
    requires IsRun(run) && i < |run|
    ensures Ranks(run[i].phases) + i <= 5 * |run[0].phases|
  {
    if i == 0 {
      RanksAtMost(run[0].phases);
    } else {
      RunFalls(run, i - 1);
      assert StepOfSome(run[i - 1], run[i - 1 + 1]);
      var t: nat :| Step(run[i - 1], t, run[i]);
      StepFalls(run[i - 1], t, run[i]);
    }
  }

  /** No run takes more than five steps for every thread. */
  lemma RunsEnd(run: seq<State>)
    requires IsRun(run)
    ensures |run| <= 5 * |run[0].phases| + 1
  {
    RunFalls(run, |run| - 1);
  }
}
