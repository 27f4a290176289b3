/** Deterministic machines, what an outside observer sees of them, and simulation between them. */
module Machines {

  /** The state after n steps. A machine that has stopped keeps its state. */
  ghost function Iter<S>(step: S -> S, n: nat, s: S): S {
    if n == 0 then s else Iter(step, n - 1, step(s))
  }

  lemma {:induction false} IterAdd<S>(step: S -> S, m: nat, n: nat, s: S)
    ensures Iter(step, m + n, s) == Iter(step, n, Iter(step, m, s))
  {
    if m > 0 {
      IterAdd(step, m - 1, n, step(s));
    }
  }

  /** How a run ended, as far as the environment can tell. */
  datatype Outcome = Ongoing | Exited | Crashed

  /** What the environment sees of a state: the I/O events so far, the tape and the outcome. */
  datatype Observation<E> = Observation(trace: seq<E>, tape: seq<int>, outcome: Outcome)

  /** A later observation extends the events of an earlier one, and a stopped run stays as it is. */
  ghost predicate Leads<E>(early: Observation<E>, late: Observation<E>) {
    && early.trace <= late.trace
    && (early.outcome != Ongoing ==> early == late)
  }

  ghost predicate Monotone<S(!new), E>(step: S -> S, obs: S -> Observation<E>) {
    forall s :: Leads(obs(s), obs(step(s)))
  }

  lemma {:induction false} IterLeads<S(!new), E>(step: S -> S, obs: S -> Observation<E>, n: nat, s: S)
    requires Monotone(step, obs)
    ensures Leads(obs(s), obs(Iter(step, n, s)))
  {
    if n > 0 {
      IterLeads(step, obs, n - 1, step(s));
      assert Leads(obs(s), obs(step(s)));
    }
  }

  /** Related states can both move on, one step or more each, to related states. */
  ghost predicate Simulates<S(!new), T(!new)>(f: S -> S, g: T -> T, rel: (S, T) -> bool) {
    forall s, t {:trigger Advances(f, g, rel, s, t)} | rel(s, t) :: Advances(f, g, rel, s, t)
  }

  ghost predicate Advances<S, T>(f: S -> S, g: T -> T, rel: (S, T) -> bool, s: S, t: T) {
    exists i: nat, j: nat | i >= 1 && j >= 1 :: rel(Iter(f, i, s), Iter(g, j, t))
  }

  /** However far either machine runs, there is a later moment at which the two are related again. */
  lemma {:induction false} Cofinal<S(!new), T(!new)>(f: S -> S, g: T -> T, rel: (S, T) -> bool, s: S, t: T, n: nat)
    returns (i: nat, j: nat)
    requires rel(s, t)
    requires Simulates(f, g, rel)
    ensures i >= n && j >= n
    ensures rel(Iter(f, i, s), Iter(g, j, t))
  {
    i, j := 0, 0;
    var s', t' := s, t;
    for k := 0 to n
      invariant i >= k && j >= k
      invariant s' == Iter(f, i, s) && t' == Iter(g, j, t)
      invariant rel(s', t')
    {
      assert Advances(f, g, rel, s', t');
      var di: nat, dj: nat :| di >= 1 && dj >= 1 && rel(Iter(f, di, s'), Iter(g, dj, t'));
      IterAdd(f, i, di, s);
      IterAdd(g, j, dj, t);
      i, j, s', t' := i + di, j + dj, Iter(f, di, s'), Iter(g, dj, t');
    }
  }

  /** Some state of the second machine's run shows at least what o shows. */
  ghost predicate Matched<T, E>(o: Observation<E>, g: T -> T, og: T -> Observation<E>, t: T) {
    exists m: nat :: Leads(o, og(Iter(g, m, t)))
  }

  /** Everything the first machine ever shows is also shown by the second. */
  ghost predicate Refines<S, T, E>(f: S -> S, of: S -> Observation<E>, s: S,
                                   g: T -> T, og: T -> Observation<E>, t: T) {
    forall n: nat {:trigger Matched(of(Iter(f, n, s)), g, og, t)} :: Matched(of(Iter(f, n, s)), g, og, t)
  }

  /** The two machines cannot be told apart: they agree on every event, on whether and how they stop,
      and on the tape they leave behind. */
  ghost predicate Equivalent<S, T, E>(f: S -> S, of: S -> Observation<E>, s: S,
                                      g: T -> T, og: T -> Observation<E>, t: T) {
    Refines(f, of, s, g, og, t) && Refines(g, og, t, f, of, s)
  }

  /** If the first machine at step i shows what the second shows at step j, then whatever it showed
      earlier is covered too. */
  lemma MatchedEarlier<S(!new), T, E>(f: S -> S, of: S -> Observation<E>, s: S, n: nat, i: nat,
                                      g: T -> T, og: T -> Observation<E>, t: T, j: nat)
    requires Monotone(f, of)
    requires n <= i
    requires of(Iter(f, i, s)) == og(Iter(g, j, t))
    ensures Matched(of(Iter(f, n, s)), g, og, t)
  {
    IterAdd(f, n, i - n, s);
    IterLeads(f, of, i - n, Iter(f, n, s));
    assert Leads(of(Iter(f, n, s)), og(Iter(g, j, t)));
  }

  /** One direction of a simulation. */
  lemma SimulationGivesRefinement<S(!new), T(!new), E>(f: S -> S, of: S -> Observation<E>, s: S,
                                                       g: T -> T, og: T -> Observation<E>, t: T,
                                                       rel: (S, T) -> bool)
    requires Monotone(f, of)
    requires rel(s, t)
    requires Simulates(f, g, rel)
    requires forall s', t' | rel(s', t') :: of(s') == og(t')
    ensures Refines(f, of, s, g, og, t)
  {
    forall n: nat
      ensures Matched(of(Iter(f, n, s)), g, og, t)
    {
      var i, j := Cofinal(f, g, rel, s, t, n);
      MatchedEarlier(f, of, s, n, i, g, og, t, j);
    }
  }

  /** The other direction. */
  lemma SimulationGivesConverse<S(!new), T(!new), E>(f: S -> S, of: S -> Observation<E>, s: S,
                                                     g: T -> T, og: T -> Observation<E>, t: T,
                                                     rel: (S, T) -> bool)
    requires Monotone(g, og)
    requires rel(s, t)
    requires Simulates(f, g, rel)
    requires forall s', t' | rel(s', t') :: of(s') == og(t')
    ensures Refines(g, og, t, f, of, s)
  {
    forall n: nat
      ensures Matched(og(Iter(g, n, t)), f, of, s)
    {
      var i, j := Cofinal(f, g, rel, s, t, n);
      MatchedEarlier(g, og, t, n, j, f, of, s, i);
    }
  }

  lemma RefinesTransitive<S, T, U, E>(f: S -> S, of: S -> Observation<E>, s: S,
                                      g: T -> T, og: T -> Observation<E>, t: T,
                                      h: U -> U, oh: U -> Observation<E>, u: U)
    requires Refines(f, of, s, g, og, t) && Refines(g, og, t, h, oh, u)
    ensures Refines(f, of, s, h, oh, u)
  {
    forall n: nat
      ensures Matched(of(Iter(f, n, s)), h, oh, u)
    {
      assert Matched(of(Iter(f, n, s)), g, og, t);
      var m: nat :| Leads(of(Iter(f, n, s)), og(Iter(g, m, t)));
      assert Matched(og(Iter(g, m, t)), h, oh, u);
      var k: nat :| Leads(og(Iter(g, m, t)), oh(Iter(h, k, u)));
      assert Leads(of(Iter(f, n, s)), oh(Iter(h, k, u)));
    }
  }

  /** A few steps taken before the run proper do not matter. */
  lemma RefinesAfterPrologue<S, T(!new), E>(f: S -> S, of: S -> Observation<E>, s: S,
                                            g: T -> T, og: T -> Observation<E>, t: T, t': T, j: nat)
    requires Monotone(g, og)
    requires t' == Iter(g, j, t)
    ensures Refines(f, of, s, g, og, t') ==> Refines(f, of, s, g, og, t)
    ensures Refines(g, og, t', f, of, s) ==> Refines(g, og, t, f, of, s)
  {
    if Refines(f, of, s, g, og, t') {
      forall n: nat
        ensures Matched(of(Iter(f, n, s)), g, og, t)
      {
        assert Matched(of(Iter(f, n, s)), g, og, t');
        var m: nat :| Leads(of(Iter(f, n, s)), og(Iter(g, m, t')));
        IterAdd(g, j, m, t);
        assert Leads(of(Iter(f, n, s)), og(Iter(g, j + m, t)));
      }
    }
    if Refines(g, og, t', f, of, s) {
      forall n: nat
        ensures Matched(og(Iter(g, n, t)), f, of, s)
      {
        if n >= j {
          IterAdd(g, j, n - j, t);
          assert Matched(og(Iter(g, n - j, t')), f, of, s);
        } else {
          assert Matched(og(Iter(g, 0, t')), f, of, s);
          var m: nat :| Leads(og(t'), of(Iter(f, m, s)));
          IterAdd(g, n, j - n, t);
          IterLeads(g, og, j - n, Iter(g, n, t));
          assert Leads(og(Iter(g, n, t)), of(Iter(f, m, s)));
        }
      }
    }
  }
}
