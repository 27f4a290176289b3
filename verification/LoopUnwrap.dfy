/** Unwrapping the loops: from masses within each loop to frequencies within the function. */
module LoopUnwrap {
  import opened Basics
  import opened BranchProbability

  /** A loop: the loop around it, its headers followed by its other members, and its mass within the loop around it. A
      loop inside counts as one member, by one of its headers. */
  datatype LoopData = LoopData(parent: Option<nat>, numHeaders: nat, nodes: seq<nat>, mass: nat)

  /** The innermost loop of each block, the mass of each block within it, and the loops. */
  datatype Structure = Structure(loopOf: seq<Option<nat>>, mass: seq<nat>, loops: seq<LoopData>)

  /** A mass as a fraction of the full one. */
  function ToScaled(mass: nat): real {
    if mass == MAX64 then 1.0 else (mass + 1) as real / 18446744073709551616.0
  }

  /** The full mass included. */
  lemma ToScaledIs(mass: nat)
    requires mass <= MAX64
    ensures ToScaled(mass) == (mass + 1) as real / 18446744073709551616.0
  {
  }

  function Times(a: real, b: real): real {
    a * b
  }

  predicate IsHeader(s: Structure, l: nat, b: nat)
    requires l < |s.loops|
  {
    var loop := s.loops[l];
    loop.numHeaders <= |loop.nodes| && b in loop.nodes[..loop.numHeaders]
  }

  /** Loops are listed after the loops around them. */
  predicate OuterFirst(s: Structure) {
    && |s.mass| == |s.loopOf|
    && (forall l | 0 <= l < |s.loops| && s.loops[l].parent.Some? :: s.loops[l].parent.value < l)
    && (forall b | 0 <= b < |s.loopOf| && s.loopOf[b].Some? :: s.loopOf[b].value < |s.loops|)
  }

  /** Loop l is around loop x. */
  predicate Around(s: Structure, l: nat, x: nat)
    requires OuterFirst(s) && x < |s.loops|
    decreases x
  {
    s.loops[x].parent.Some? && (s.loops[x].parent.value == l || Around(s, l, s.loops[x].parent.value))
  }

  /** Of the loops that x is in, or x itself, the one just inside l. */
  function JustInside(s: Structure, l: nat, x: nat): (c: nat)
    requires OuterFirst(s) && x < |s.loops| && Around(s, l, x)
    ensures c <= x && s.loops[c].parent == Some(l)
    decreases x
  {
    if s.loops[x].parent.value == l then x else JustInside(s, l, s.loops[x].parent.value)
  }

  /** What a member of a loop stands for: a block, or a loop inside. */
  datatype Target = Block(b: nat) | Loop(l: nat)

  /** b is one of the headers, which come first. */
  predicate OneOfHeaders(loop: LoopData, b: nat) {
    loop.numHeaders <= |loop.nodes| && exists i :: 0 <= i < loop.numHeaders && loop.nodes[i] == b
  }

  predicate IsMember(s: Structure, l: nat, b: nat)
    requires OuterFirst(s)
  {
    && b < |s.loopOf| && s.loopOf[b].Some?
    && (s.loopOf[b].value == l || (Around(s, l, s.loopOf[b].value) && OneOfHeaders(s.loops[s.loopOf[b].value], b)))
  }

  function TargetOf(s: Structure, l: nat, b: nat): Target
    requires OuterFirst(s) && IsMember(s, l, b)
  {
    if s.loopOf[b].value == l then Block(b) else Loop(JustInside(s, l, s.loopOf[b].value))
  }

  /** The target is a block of l, or a loop just inside l. */
  predicate BelongsTo(s: Structure, l: nat, t: Target) {
    match t
    case Block(b) => b < |s.loopOf| && s.loopOf[b] == Some(l)
    case Loop(c) => c < |s.loops| && s.loops[c].parent == Some(l)
  }

  /** The members of a loop are its blocks and the loops just inside it, each once. */
  ghost predicate MembersRight(s: Structure, l: nat)
    requires OuterFirst(s) && l < |s.loops|
  {
    var nodes := s.loops[l].nodes;
    && (forall b | b in nodes :: IsMember(s, l, b))
    && (forall i, j | 0 <= i < j < |nodes| :: TargetOf(s, l, nodes[i]) != TargetOf(s, l, nodes[j]))
    && (forall t | BelongsTo(s, l, t) :: exists b :: b in nodes && TargetOf(s, l, b) == t)
  }

  ghost predicate WellNested(s: Structure) {
    OuterFirst(s) && forall l | 0 <= l < |s.loops| :: MembersRight(s, l)
  }

  // ----- The closed form -----

  /** The loops around a loop, and itself, outermost first. */
  function Enclosing(s: Structure, l: nat): seq<nat>
    requires OuterFirst(s) && l < |s.loops|
    decreases l
  {
    (if s.loops[l].parent.Some? then Enclosing(s, s.loops[l].parent.value) else []) + [l]
  }

  /** Scale times mass, over all the loops. */
  function Product(s: Structure, scales: seq<real>, ls: seq<nat>): real
    requires |scales| == |s.loops| && forall i | 0 <= i < |ls| :: ls[i] < |s.loops|
  {
    if ls == [] then 1.0
    else
      var l := ls[|ls| - 1];
      Times(Product(s, scales, ls[..|ls| - 1]), Times(scales[l], ToScaled(s.loops[l].mass)))
  }

  lemma EnclosingAreLoops(s: Structure, l: nat)
    requires OuterFirst(s) && l < |s.loops|
    ensures forall i | 0 <= i < |Enclosing(s, l)| :: Enclosing(s, l)[i] < |s.loops|
    decreases l
  {
    if s.loops[l].parent.Some? {
      EnclosingAreLoops(s, s.loops[l].parent.value);
    }
  }

  /** What a loop's members are multiplied by in the end. */
  function Factor(s: Structure, scales: seq<real>, l: nat): real
    requires OuterFirst(s) && l < |s.loops| == |scales|
  {
    EnclosingAreLoops(s, l);
    Product(s, scales, Enclosing(s, l))
  }

  /** What the loop itself is multiplied by in the end. */
  function OuterFactor(s: Structure, scales: seq<real>, parent: Option<nat>): real
    requires OuterFirst(s) && |s.loops| == |scales| && (parent.Some? ==> parent.value < |s.loops|)
  {
    if parent.Some? then Factor(s, scales, parent.value) else 1.0
  }

  lemma FactorIs(s: Structure, scales: seq<real>, l: nat)
    requires OuterFirst(s) && l < |s.loops| == |scales|
    ensures Factor(s, scales, l)
         == Times(Times(OuterFactor(s, scales, s.loops[l].parent), scales[l]), ToScaled(s.loops[l].mass))
    ensures s.loops[l].mass <= MAX64 ==>
              Factor(s, scales, l) == OuterFactor(s, scales, s.loops[l].parent) * scales[l]
                                      * ((s.loops[l].mass + 1) as real / 18446744073709551616.0)
    ensures s.loops[l].parent.None? ==> OuterFactor(s, scales, s.loops[l].parent) == 1.0
  {
    hide ToScaled, Times;
    if s.loops[l].mass <= MAX64 {
      InNumbers(OuterFactor(s, scales, s.loops[l].parent), scales[l], s.loops[l].mass);
    }
    EnclosingAreLoops(s, l);
    var outer := if s.loops[l].parent.Some? then Enclosing(s, s.loops[l].parent.value) else [];
    if s.loops[l].parent.Some? {
      EnclosingAreLoops(s, s.loops[l].parent.value);
    }
    ProductSnoc(s, scales, outer, l);
    Regroup(Product(s, scales, outer), scales[l], ToScaled(s.loops[l].mass));
  }

  lemma InNumbers(a: real, b: real, mass: nat)
    requires mass <= MAX64
    ensures Times(Times(a, b), ToScaled(mass)) == a * b * ((mass + 1) as real / 18446744073709551616.0)
    ensures Times(a, ToScaled(mass)) == a * ((mass + 1) as real / 18446744073709551616.0)
  {
    ToScaledIs(mass);
  }

  lemma ProductSnoc(s: Structure, scales: seq<real>, ls: seq<nat>, l: nat)
    requires |scales| == |s.loops| && l < |s.loops| && forall i | 0 <= i < |ls| :: ls[i] < |s.loops|
    ensures Product(s, scales, ls + [l]) == Times(Product(s, scales, ls), Times(scales[l], ToScaled(s.loops[l].mass)))
  {
    hide ToScaled, Times;
    assert (ls + [l])[..|ls|] == ls;
  }

  lemma Regroup(a: real, b: real, c: real)
    ensures Times(Times(a, b), c) == Times(a, Times(b, c))
  {
  }

  // ----- Unwrapping -----

  /** What a block's frequency is once the members of the loops before k are visited, and of k those in `done`. */
  function FreqAt(s: Structure, scales0: seq<real>, k: nat, done: set<Target>, b: nat): real
    requires OuterFirst(s) && |scales0| == |s.loops| && b < |s.loopOf|
  {
    var l := s.loopOf[b];
    if l.Some? && (l.value < k || Block(b) in done) then Times(Factor(s, scales0, l.value), ToScaled(s.mass[b]))
    else ToScaled(s.mass[b])
  }

  /** What a loop's scale is then, the loops before `upto` having been multiplied by their own mass. */
  function ScaleAt(s: Structure, scales0: seq<real>, k: nat, done: set<Target>, upto: nat, l: nat): real
    requires OuterFirst(s) && |scales0| == |s.loops| && l < |s.loops|
  {
    var p := s.loops[l].parent;
    if l < upto then Factor(s, scales0, l)
    else if p.Some? && (p.value < k || Loop(l) in done) then Times(Factor(s, scales0, p.value), scales0[l])
    else scales0[l]
  }

  ghost predicate UnwrappedTo(s: Structure, scales0: seq<real>, k: nat, done: set<Target>, upto: nat,
                              freqs: seq<real>, scales: seq<real>, packaged: seq<bool>)
    requires OuterFirst(s) && |scales0| == |s.loops|
  {
    && |freqs| == |s.loopOf| && |scales| == |packaged| == |s.loops|
    && (forall b | 0 <= b < |freqs| :: freqs[b] == FreqAt(s, scales0, k, done, b))
    && (forall l | 0 <= l < |scales| :: scales[l] == ScaleAt(s, scales0, k, done, upto, l))
    && PackagedFrom(packaged, upto)
  }

  predicate PackagedFrom(packaged: seq<bool>, upto: nat) {
    forall l | 0 <= l < |packaged| :: packaged[l] <==> l >= upto
  }

  class BlockFrequencies {
    const s: Structure
    var freqs: seq<real>
    var scales: seq<real>
    var packaged: seq<bool>

    constructor (s: Structure, scales: seq<real>)
      requires WellNested(s) && |scales| == |s.loops|
      ensures this.s == s && this.scales == scales && packaged == seq(|s.loops|, _ => true)
    {
      this.s, this.scales := s, scales;
      freqs, packaged := [], seq(|s.loops|, _ => true);
    }

    predicate IsAPackage(b: nat)
      requires OuterFirst(s) && |packaged| == |s.loops| && b < |s.loopOf|
      reads this
    {
      s.loopOf[b].Some? && IsHeader(s, s.loopOf[b].value, b) && packaged[s.loopOf[b].value]
    }

    /** The outermost packaged loop that the block is in. */
    method GetPackagedLoop(b: nat, ghost l: nat) returns (c: nat)
      requires OuterFirst(s) && |packaged| == |s.loops| && b < |s.loopOf| && l < |s.loops|
      requires s.loopOf[b].Some? && Around(s, l, s.loopOf[b].value)
      requires PackagedFrom(packaged, l + 1)
      ensures c == JustInside(s, l, s.loopOf[b].value)
    {
      c := s.loopOf[b].value;
      while s.loops[c].parent.Some? && packaged[s.loops[c].parent.value]
        invariant c < |s.loops| && Around(s, l, c)
        invariant JustInside(s, l, c) == JustInside(s, l, s.loopOf[b].value)
        decreases c
      {
        AroundBefore(s, l, c);
        c := s.loops[c].parent.value;
      }
      AroundBefore(s, l, c);
    }

    /** Multiply what a member stands for by the loop's scale. */
    method VisitMember(l: nat, b: nat)
      requires OuterFirst(s) && |freqs| == |s.loopOf| && |packaged| == |scales| == |s.loops| && l < |s.loops|
      requires IsMember(s, l, b) && PackagedFrom(packaged, l + 1)
      modifies this
      ensures packaged == old(packaged)
      ensures freqs == FreqsVisited(TargetOf(s, l, b), old(freqs), old(scales[l]))
      ensures scales == ScalesVisited(TargetOf(s, l, b), old(scales), old(scales[l]))
    {
      hide Times;
      MemberPackaged(s, l, b, packaged);
      if IsAPackage(b) {
        var c := GetPackagedLoop(b, l);
        assert TargetOf(s, l, b) == Loop(c);
        scales := scales[c := Times(scales[l], scales[c])];
      } else {
        freqs := freqs[b := Times(scales[l], freqs[b])];
      }
    }

    /** Unwrap a loop: multiply its scale by its mass, and all its members by the result. */
    method UnwrapLoop(l: nat, ghost scales0: seq<real>)
      requires WellNested(s) && |scales0| == |s.loops| && l < |s.loops|
      requires UnwrappedTo(s, scales0, l, {}, l, freqs, scales, packaged)
      modifies this
      ensures UnwrappedTo(s, scales0, l + 1, {}, l + 1, freqs, scales, packaged)
    {
      ghost var scales1, packaged1 := scales, packaged;
      scales := scales[l := Times(scales[l], ToScaled(s.loops[l].mass))];
      packaged := packaged[l := false];
      Opened(s, scales0, l, freqs, scales1, packaged1);
      var nodes := s.loops[l].nodes;
      ghost var done: set<Target> := {};
      assert MembersRight(s, l);
      for i := 0 to |nodes|
        invariant UnwrappedTo(s, scales0, l, done, l + 1, freqs, scales, packaged)
        invariant done == Targets(s, l, nodes, i)
      {
        hide *;
        ghost var t := NextTarget(s, l, i, done);
        ghost var freqs2, scales2 := freqs, scales;
        Lengths(s, scales0, l, done, l + 1, freqs, scales, packaged);
        VisitMember(l, nodes[i]);
        Visited(s, scales0, l, done, t, freqs2, scales2, packaged);
        done := done + {t};
      }
      AllVisited(s, scales0, l, done, freqs, scales, packaged);
    }

    /** Start with the masses within the loops, and unwrap the loops, outer ones first. Every block then has its mass,
        times scale and mass of every loop around it. */
    method UnwrapLoops()
      requires WellNested(s) && |scales| == |s.loops| && packaged == seq(|s.loops|, _ => true)
      modifies this
      ensures |freqs| == |s.loopOf|
      ensures forall b | 0 <= b < |freqs| ::
                freqs[b] == Times(OuterFactor(s, old(scales), s.loopOf[b]), ToScaled(s.mass[b]))
      ensures forall b | 0 <= b < |freqs| && s.mass[b] <= MAX64 ::
                freqs[b] == OuterFactor(s, old(scales), s.loopOf[b])
                            * ((s.mass[b] + 1) as real / 18446744073709551616.0)
      ensures |scales| == |s.loops| && forall l | 0 <= l < |scales| :: scales[l] == Factor(s, old(scales), l)
    {
      hide *;
      ghost var scales0 := scales;
      MassForEach(s);
      freqs := seq(|s.loopOf|, b requires 0 <= b < |s.mass| => ToScaled(s.mass[b]));
      NothingUnwrapped(s, scales0, freqs, packaged);
      for l := 0 to |s.loops|
        invariant UnwrappedTo(s, scales0, l, {}, l, freqs, scales, packaged)
      {
        UnwrapLoop(l, scales0);
      }
      AllUnwrapped(s, scales0, freqs, scales, packaged);
    }
  }

  lemma MassForEach(s: Structure)
    requires WellNested(s)
    ensures OuterFirst(s) && |s.mass| == |s.loopOf|
    ensures forall b | 0 <= b < |s.loopOf| && s.loopOf[b].Some? :: s.loopOf[b].value < |s.loops|
  {
  }

  lemma NothingUnwrapped(s: Structure, scales: seq<real>, freqs: seq<real>, packaged: seq<bool>)
    requires OuterFirst(s) && |scales| == |s.loops| && packaged == seq(|s.loops|, _ => true)
    requires |freqs| == |s.loopOf| && forall b | 0 <= b < |freqs| :: freqs[b] == ToScaled(s.mass[b])
    ensures UnwrappedTo(s, scales, 0, {}, 0, freqs, scales, packaged)
  {
    hide ToScaled, Times, Factor;
  }

  lemma AllUnwrapped(s: Structure, scales0: seq<real>, freqs: seq<real>, scales: seq<real>, packaged: seq<bool>)
    requires OuterFirst(s) && |scales0| == |s.loops|
    requires UnwrappedTo(s, scales0, |s.loops|, {}, |s.loops|, freqs, scales, packaged)
    ensures |freqs| == |s.loopOf| && |scales| == |s.loops|
    ensures forall b | 0 <= b < |freqs| ::
              freqs[b] == Times(OuterFactor(s, scales0, s.loopOf[b]), ToScaled(s.mass[b]))
    ensures forall b | 0 <= b < |freqs| && s.mass[b] <= MAX64 ::
              freqs[b] == OuterFactor(s, scales0, s.loopOf[b]) * ((s.mass[b] + 1) as real / 18446744073709551616.0)
    ensures forall l | 0 <= l < |scales| :: scales[l] == Factor(s, scales0, l)
  {
    hide ToScaled, Times, Factor;
    forall b | 0 <= b < |freqs|
      ensures freqs[b] == Times(OuterFactor(s, scales0, s.loopOf[b]), ToScaled(s.mass[b]))
    {
      NoLoopAround(ToScaled(s.mass[b]));
    }
    forall b | 0 <= b < |freqs| && s.mass[b] <= MAX64
      ensures freqs[b] == OuterFactor(s, scales0, s.loopOf[b]) * ((s.mass[b] + 1) as real / 18446744073709551616.0)
    {
      InNumbers(OuterFactor(s, scales0, s.loopOf[b]), 1.0, s.mass[b]);
    }
  }

  lemma NoLoopAround(x: real)
    ensures Times(1.0, x) == x
  {
  }

  /** The members that are packaged are the loops inside. */
  lemma MemberPackaged(s: Structure, l: nat, b: nat, packaged: seq<bool>)
    requires OuterFirst(s) && |packaged| == |s.loops| && l < |s.loops| && IsMember(s, l, b)
    requires PackagedFrom(packaged, l + 1)
    ensures var x := s.loopOf[b].value;
            if TargetOf(s, l, b).Loop? then Around(s, l, x) && IsHeader(s, x, b) && packaged[x] else !packaged[x]
  {
    if s.loopOf[b].value != l {
      AroundBefore(s, l, s.loopOf[b].value);
    }
  }

  function FreqsVisited(t: Target, freqs: seq<real>, scale: real): seq<real> {
    if t.Block? && t.b < |freqs| then freqs[t.b := Times(scale, freqs[t.b])] else freqs
  }

  function ScalesVisited(t: Target, scales: seq<real>, scale: real): seq<real> {
    if t.Loop? && t.l < |scales| then scales[t.l := Times(scale, scales[t.l])] else scales
  }

  ghost function Targets(s: Structure, l: nat, nodes: seq<nat>, i: nat): set<Target>
    requires OuterFirst(s)
  {
    set j | 0 <= j < i && j < |nodes| && IsMember(s, l, nodes[j]) :: TargetOf(s, l, nodes[j])
  }

  lemma Opened(s: Structure, scales0: seq<real>, l: nat, freqs: seq<real>, scales: seq<real>, packaged: seq<bool>)
    requires OuterFirst(s) && |scales0| == |s.loops| && l < |s.loops|
    requires UnwrappedTo(s, scales0, l, {}, l, freqs, scales, packaged)
    ensures UnwrappedTo(s, scales0, l, {}, l + 1, freqs, scales[l := Times(scales[l], ToScaled(s.loops[l].mass))],
                        packaged[l := false])
    ensures Targets(s, l, s.loops[l].nodes, 0) == {}
  {
    hide Factor, ToScaled;
    FactorIs(s, scales0, l);
    assert ScaleAt(s, scales0, l, {}, l, l) == Times(OuterFactor(s, scales0, s.loops[l].parent), scales0[l]);
    assert ScaleAt(s, scales0, l, {}, l + 1, l) == Factor(s, scales0, l);
  }

  lemma Lengths(s: Structure, scales0: seq<real>, k: nat, done: set<Target>, upto: nat,
                freqs: seq<real>, scales: seq<real>, packaged: seq<bool>)
    requires OuterFirst(s) && |scales0| == |s.loops|
    requires UnwrappedTo(s, scales0, k, done, upto, freqs, scales, packaged)
    ensures |freqs| == |s.loopOf| && |scales| == |packaged| == |s.loops| && PackagedFrom(packaged, upto)
  {
  }

  lemma NextTarget(s: Structure, l: nat, i: nat, done: set<Target>) returns (t: Target)
    requires WellNested(s) && l < |s.loops| && i < |s.loops[l].nodes| && done == Targets(s, l, s.loops[l].nodes, i)
    ensures OuterFirst(s) && IsMember(s, l, s.loops[l].nodes[i]) && t == TargetOf(s, l, s.loops[l].nodes[i])
    ensures t !in done && BelongsTo(s, l, t) && done + {t} == Targets(s, l, s.loops[l].nodes, i + 1)
  {
    assert MembersRight(s, l);
    var nodes := s.loops[l].nodes;
    assert nodes[i] in nodes;
    t := TargetOf(s, l, nodes[i]);
    assert forall j | 0 <= j < i :: TargetOf(s, l, nodes[j]) != t;
  }

  lemma Visited(s: Structure, scales0: seq<real>, l: nat, done: set<Target>, t: Target,
                freqs: seq<real>, scales: seq<real>, packaged: seq<bool>)
    requires OuterFirst(s) && |scales0| == |s.loops| == |scales| && l < |s.loops|
    requires UnwrappedTo(s, scales0, l, done, l + 1, freqs, scales, packaged) && t !in done && BelongsTo(s, l, t)
    ensures UnwrappedTo(s, scales0, l, done + {t}, l + 1, FreqsVisited(t, freqs, scales[l]),
                        ScalesVisited(t, scales, scales[l]), packaged)
  {
    hide Factor, Times, ToScaled;
    assert scales[l] == Factor(s, scales0, l);
    var freqs', scales' := FreqsVisited(t, freqs, scales[l]), ScalesVisited(t, scales, scales[l]);
    forall b | 0 <= b < |freqs|
      ensures freqs'[b] == FreqAt(s, scales0, l, done + {t}, b)
    {
      assert freqs[b] == FreqAt(s, scales0, l, done, b);
    }
    forall c | 0 <= c < |scales|
      ensures scales'[c] == ScaleAt(s, scales0, l, done + {t}, l + 1, c)
    {
      assert scales[c] == ScaleAt(s, scales0, l, done, l + 1, c);
    }
  }

  lemma AllVisited(s: Structure, scales0: seq<real>, l: nat, done: set<Target>,
                   freqs: seq<real>, scales: seq<real>, packaged: seq<bool>)
    requires WellNested(s) && |scales0| == |s.loops| && l < |s.loops|
    requires UnwrappedTo(s, scales0, l, done, l + 1, freqs, scales, packaged)
    requires done == Targets(s, l, s.loops[l].nodes, |s.loops[l].nodes|)
    ensures UnwrappedTo(s, scales0, l + 1, {}, l + 1, freqs, scales, packaged)
  {
    hide Factor, Times, ToScaled;
    assert MembersRight(s, l);
    forall t | BelongsTo(s, l, t)
      ensures t in done
    {
      var b :| b in s.loops[l].nodes && TargetOf(s, l, b) == t;
    }
    forall b | 0 <= b < |freqs|
      ensures freqs[b] == FreqAt(s, scales0, l + 1, {}, b)
    {
      assert freqs[b] == FreqAt(s, scales0, l, done, b);
      assert s.loopOf[b] == Some(l) ==> BelongsTo(s, l, Block(b));
      assert Block(b) in done ==> s.loopOf[b] == Some(l);
    }
    forall c | 0 <= c < |scales|
      ensures scales[c] == ScaleAt(s, scales0, l + 1, {}, l + 1, c)
    {
      assert scales[c] == ScaleAt(s, scales0, l, done, l + 1, c);
      assert s.loops[c].parent == Some(l) ==> BelongsTo(s, l, Loop(c));
      assert Loop(c) in done ==> s.loops[c].parent == Some(l);
    }
  }

  lemma AroundBefore(s: Structure, l: nat, x: nat)
    requires OuterFirst(s) && x < |s.loops| && Around(s, l, x)
    ensures l < x && (s.loops[x].parent.value <= l ==> s.loops[x].parent.value == l)
    decreases x
  {
    if s.loops[x].parent.value != l {
      AroundBefore(s, l, s.loops[x].parent.value);
    }
  }
}
