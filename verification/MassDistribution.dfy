/** Splitting the mass of a block among its successors, and booking the portions. */
module MassDistribution {
  import opened Basics
  import opened Bits
  import opened BranchProbability
  import opened Distributions

  // ----- The portions -----

  /** Each portion is the part of what is left of the mass that the weight is of what is left of the weights. */
  ghost predicate Dithered(ps: seq<nat>, ws: seq<Weight>, mass: nat) {
    && |ps| == |ws|
    && forall i | 0 <= i < |ws| :: DitheredAt(ps, ws, mass, i)
  }

  ghost predicate DitheredAt(ps: seq<nat>, ws: seq<Weight>, mass: nat, i: nat)
    requires i < |ps| == |ws|
  {
    var w, m := Sum(ws) - Sum(ws[..i]), mass - Total(ps[..i]);
    && 0 <= m <= MAX64 && 0 < w <= MAX32 && ws[i].amount <= w
    && ps[i] == Part(m, ws[i].amount, w)
  }

  /** The last portion is all that is left, so the portions come to the mass exactly. */
  lemma PortionsAreAll(ps: seq<nat>, ws: seq<Weight>, mass: nat)
    requires Dithered(ps, ws, mass) && ws != []
    ensures Total(ps) == mass
  {
    var n := |ws| - 1;
    assert DitheredAt(ps, ws, mass, n);
    assert Sum(ws) - Sum(ws[..n]) == ws[n].amount;
    PartAtMost(mass - Total(ps[..n]), ws[n].amount, ws[n].amount);
  }

  // ----- What a portion has to do with its weight -----

  /** The portion is no further from the weight's share of the mass than so many units and parts in 2^32 of the mass. */
  ghost predicate NearShare(p: nat, mass: nat, w: nat, total: nat, steps: nat) {
    Within((p * total - mass * w) * TWO32, steps * (total * (TWO32 + mass)))
  }

  predicate Within(x: int, bound: nat) {
    0 - bound <= x <= bound
  }

  /** Dithering: after i portions, what is left of the mass is still what is left of the weights' share of it, but for a
      unit and a part in 2^32 for each portion taken. */
  lemma {:induction false} LeftIsShare(ps: seq<nat>, ws: seq<Weight>, mass: nat, i: nat)
    requires Dithered(ps, ws, mass) && i < |ws|
    ensures Sum(ws[..i]) <= Sum(ws) && Total(ps[..i]) <= mass
    ensures NearShare(mass - Total(ps[..i]), mass, Sum(ws) - Sum(ws[..i]), Sum(ws), i)
  {
    hide IsPart, Part, NearShare, Sum, Total;
    assert DitheredAt(ps, ws, mass, i);
    if i == 0 {
      NothingTakenYet(mass, Sum(ws));
      assert ws[..0] == [] && ps[..0] == [];
      NoneToAdd();
    } else {
      LeftIsShare(ps, ws, mass, i - 1);
      assert DitheredAt(ps, ws, mass, i - 1);
      OneMoreTaken(ps, ws, i);
      var w, m := Sum(ws) - Sum(ws[..i - 1]), mass - Total(ps[..i - 1]);
      PartNear(ps[i - 1], m, ws[i - 1].amount, w, mass);
      TakenOff(ps[i - 1], m, ws[i - 1].amount, w, mass, Sum(ws), i - 1);
    }
  }

  lemma NoneToAdd()
    ensures Sum([]) == 0 && Total([]) == 0
  {
  }

  lemma NothingTakenYet(mass: nat, total: nat)
    ensures NearShare(mass, mass, total, total, 0)
  {
    assert mass * total - mass * total == 0;
  }

  lemma OneMoreTaken(ps: seq<nat>, ws: seq<Weight>, i: nat)
    requires 0 < i <= |ws| == |ps|
    ensures Sum(ws[..i]) == Sum(ws[..i - 1]) + ws[i - 1].amount && Total(ps[..i]) == Total(ps[..i - 1]) + ps[i - 1]
  {
    assert ws[..i] == ws[..i - 1] + [ws[i - 1]] && ps[..i] == ps[..i - 1] + [ps[i - 1]];
    SumSnoc(ws[..i - 1], ws[i - 1]);
    TotalSnoc(ps[..i - 1], ps[i - 1]);
  }

  lemma PartNear(p: nat, m: nat, x: nat, w: nat, mass: nat)
    requires m <= mass && m <= MAX64 && 0 < w <= MAX32 && x <= w && p == Part(m, x, w)
    ensures Within((p * w - m * x) * TWO32, w * (TWO32 + mass))
  {
    hide Part, IsPart;
    PartIs(m, x, w);
    PartIsShare(p, m, x, w);
    MulAtMost(m, w, mass, w);
    assert w * (TWO32 + mass) == w * TWO32 + mass * w;
  }

  /** A bound on a product by w bounds the other factor. */
  lemma CancelWithin(w: nat, d: int, b: nat)
    requires w > 0 && Within(w * d, w * b)
    ensures Within(d, b)
  {
    AtLeastOnce(w, d - b);
    AtLeastOnce(w, 0 - d - b);
    assert w * (d - b) == w * d - w * b && w * (0 - d - b) == 0 - w * d - w * b;
  }

  lemma WithinSum(x: int, y: int, a: nat, b: nat)
    requires Within(x, a) && Within(y, b)
    ensures Within(x + y, a + b)
  {
  }

  lemma WithinTimes(c: nat, x: int, a: nat)
    requires Within(x, a)
    ensures Within(c * x, c * a)
  {
    assert c * (a - x) >= 0 && c * (a + x) >= 0;
  }

  /** W is the sum of the weights, w what is left of it, m what is left of the mass M, x the weight, p its portion. */
  lemma TakenOff(p: nat, m: nat, x: nat, w: nat, M: nat, W: nat, steps: nat)
    requires 0 < w <= W && x <= w && p <= m
    requires NearShare(m, M, w, W, steps) && Within((p * w - m * x) * TWO32, w * (TWO32 + M))
    ensures NearShare(m - p, M, w - x, W, steps + 1)
  {
    hide Within;
    WithinNegated((p * w - m * x) * TWO32, w * (TWO32 + M));
    var D, theta, B := (m * W - M * w) * TWO32, (p * w - m * x) * TWO32, W * (TWO32 + M);
    LeftExpands(p, m, x, w, M, W);
    Enough(w - x, w, steps, W, M);
    CancelSum(w, ((m - p) * W - M * (w - x)) * TWO32, w - x, D, steps * B, W, 0 - theta, w * (TWO32 + M),
              (steps + 1) * B);
  }

  /** A number, times w, that is the sum of two products with bounded factors. */
  lemma CancelSum(w: nat, e: int, y: nat, d: int, a: nat, z: nat, t: int, b: nat, c: nat)
    requires w > 0 && Within(d, a) && Within(t, b) && w * e == y * d + z * t && y * a + z * b <= w * c
    ensures Within(e, c)
  {
    hide Within;
    WithinTimes(y, d, a);
    WithinTimes(z, t, b);
    WithinSum(y * d, z * t, y * a, z * b);
    WithinWider(w * e, y * a + z * b, w * c);
    CancelWithin(w, e, c);
  }

  lemma WithinNegated(x: int, a: nat)
    requires Within(x, a)
    ensures Within(0 - x, a)
  {
  }

  lemma WithinWider(x: int, a: nat, b: nat)
    requires Within(x, a) && a <= b
    ensures Within(x, b)
  {
  }

  lemma Enough(y: nat, w: nat, steps: nat, W: nat, M: nat)
    requires y <= w
    ensures var B := W * (TWO32 + M); y * (steps * B) + W * (w * (TWO32 + M)) <= w * ((steps + 1) * B)
  {
    var b := TWO32 + M;
    var B := W * b;
    MulAtMost(y, steps * B, w, steps * B);
    Associative(W, w, b);
    Associative(w, W, b);
    assert (steps + 1) * B == steps * B + B;
    assert w * (steps * B + B) == w * (steps * B) + w * B;
  }

  lemma LeftExpands(p: int, m: int, x: int, w: int, M: int, W: int)
    ensures (w - x) * ((m * W - M * w) * TWO32) - W * ((p * w - m * x) * TWO32)
         == w * (((m - p) * W - M * (w - x)) * TWO32)
    ensures W * (0 - (p * w - m * x) * TWO32) == 0 - W * ((p * w - m * x) * TWO32)
  {
    var a, b, c, d, e := w * m * W, w * M * w, x * m * W, x * M * w, W * p * w;
    assert (w - x) * (m * W - M * w) == a - b - c + d;
    assert W * (p * w - m * x) == e - c;
    assert w * ((m - p) * W - M * (w - x)) == a - e - b + d;
    Scaled32(w - x, m * W - M * w);
    Scaled32(W, p * w - m * x);
    Scaled32(w, (m - p) * W - M * (w - x));
  }

  lemma Scaled32(a: int, b: int)
    ensures a * (b * TWO32) == (a * b) * TWO32
  {
  }

  /** Every portion is its weight's share of the whole mass, but for a unit and a part in 2^32 for it and each one taken
      before. */
  lemma PortionsAreShares(ps: seq<nat>, ws: seq<Weight>, mass: nat, i: nat)
    requires Dithered(ps, ws, mass) && i < |ws|
    ensures NearShare(ps[i], mass, ws[i].amount, Sum(ws), i + 1)
  {
    hide IsPart, Part;
    LeftIsShare(ps, ws, mass, i);
    assert DitheredAt(ps, ws, mass, i);
    var w, m := Sum(ws) - Sum(ws[..i]), mass - Total(ps[..i]);
    PartNear(ps[i], m, ws[i].amount, w, mass);
    ShareOfLeft(ps[i], m, ws[i].amount, w, mass, Sum(ws), i);
  }

  lemma ShareOfLeft(p: nat, m: nat, x: nat, w: nat, M: nat, W: nat, steps: nat)
    requires 0 < w <= W && x <= w
    requires NearShare(m, M, w, W, steps) && Within((p * w - m * x) * TWO32, w * (TWO32 + M))
    ensures NearShare(p, M, x, W, steps + 1)
  {
    hide Within;
    var D, theta, B := (m * W - M * w) * TWO32, (p * w - m * x) * TWO32, W * (TWO32 + M);
    ShareExpands(p, m, x, w, M, W);
    Enough(x, w, steps, W, M);
    CancelSum(w, (p * W - M * x) * TWO32, x, D, steps * B, W, theta, w * (TWO32 + M), (steps + 1) * B);
  }

  lemma ShareExpands(p: int, m: int, x: int, w: int, M: int, W: int)
    ensures x * ((m * W - M * w) * TWO32) + W * ((p * w - m * x) * TWO32) == w * ((p * W - M * x) * TWO32)
  {
    var c, d, e := x * m * W, x * M * w, W * p * w;
    assert x * (m * W - M * w) == c - d && W * (p * w - m * x) == e - c && w * (p * W - M * x) == e - d;
    Scaled32(x, m * W - M * w);
    Scaled32(W, p * w - m * x);
    Scaled32(w, p * W - M * x);
  }

  /** What is left of a number in 32 bits. */
  function Low32(x: nat): nat {
    x % TWO32
  }

  lemma InWord(x: nat)
    ensures x <= MAX32 ==> Low32(x) == x
  {
  }

  class DitheringDistributer {
    var remWeight: nat
    var remMass: nat

    /** Normalize the distribution, and start with all of the mass and of the weight. */
    constructor (dist: Distribution, mass: nat, sort: Sorter, order: Enumerator)
      requires dist.Gathered() && Sorts(sort) && Enumerates(order) && mass <= MAX64
      modifies dist
      ensures old(dist.weights) == [] ==> dist.weights == []
      ensures old(dist.weights) != [] ==>
                && dist.weights != []
                && Normalized(dist.weights, old(dist.weights), Shift(old(dist.total), old(dist.didOverflow)))
                && forall w | w in dist.weights :: 1 <= w.amount <= MAX32
      ensures old(dist.weights) != []
              && TotalFits(old(dist.weights), Shift(old(dist.total), old(dist.didOverflow))) ==>
                remWeight == Sum(dist.weights) <= MAX32
      ensures remMass == mass
    {
      hide *;
      new;
      dist.Normalize(sort, order);
      InWord(dist.total);
      remWeight, remMass := Low32(dist.total), mass;
    }

    /** The portion of one weight, taken off what is left. */
    method TakeMass(weight: nat) returns (mass: nat)
      requires 0 < weight <= remWeight <= MAX32 && remMass <= MAX64
      modifies this
      ensures mass == Part(old(remMass), weight, old(remWeight)) <= old(remMass)
      ensures IsPart(mass, old(remMass), weight, old(remWeight))
      ensures NearShare(mass, old(remMass), weight, old(remWeight), 1)
      ensures remWeight == old(remWeight) - weight && remMass == old(remMass) - mass
    {
      hide Part, IsPart;
      PartAtMost(remMass, weight, remWeight);
      PartIs(remMass, weight, remWeight);
      mass := Part(remMass, weight, remWeight);
      remWeight := remWeight - weight;
      PartNear(mass, remMass, weight, old(remWeight), remMass);
      remMass := SubtractMass(remMass, mass);
    }
  }

  /** Masses stop at full and at empty. */
  function AddMass(a: nat, b: nat): nat {
    if a + b <= MAX64 then a + b else MAX64
  }

  function SubtractMass(a: nat, b: nat): nat {
    if b <= a then a - b else 0
  }

  // ----- Where the portions go -----

  /** The masses of the blocks, what comes back to each header of the loop, and what leaves it. */
  datatype Masses = Masses(working: seq<nat>, backedge: seq<nat>, exits: seq<(Node, nat)>)
  {
    function ExitMasses(): seq<nat> {
      seq(|exits|, i requires 0 <= i < |exits| => exits[i].1)
    }

    function InAll(): nat {
      Total(working) + Total(backedge) + Total(ExitMasses())
    }
  }

  function HeaderIndex(headers: seq<Node>, t: Node): (i: nat)
    requires t in headers
    ensures i < |headers| && headers[i] == t
  {
    if headers[0] == t then 0 else 1 + HeaderIndex(headers[1..], t)
  }

  /** Every weight leads somewhere that there is a mass for. */
  ghost predicate Bookable(m: Masses, headers: seq<Node>, ws: seq<Weight>) {
    && |m.backedge| == |headers|
    && forall w | w in ws :: Booked(m, headers, w)
  }

  predicate Booked(m: Masses, headers: seq<Node>, w: Weight) {
    (w.kind == Local ==> w.target < |m.working|) && (w.kind == Backedge ==> w.target in headers)
  }

  function Credit(m: Masses, headers: seq<Node>, w: Weight, taken: nat): Masses
    requires |m.backedge| == |headers| && Booked(m, headers, w)
  {
    match w.kind
    case Local => m.(working := m.working[w.target := AddMass(m.working[w.target], taken)])
    case Backedge =>
      var i := HeaderIndex(headers, w.target);
      m.(backedge := m.backedge[i := AddMass(m.backedge[i], taken)])
    case Exit => m.(exits := m.exits + [(w.target, taken)])
  }

  /** The mass that the portion is added to. */
  function Cell(m: Masses, headers: seq<Node>, w: Weight): nat
    requires |m.backedge| == |headers| && Booked(m, headers, w)
  {
    match w.kind
    case Local => m.working[w.target]
    case Backedge => m.backedge[HeaderIndex(headers, w.target)]
    case Exit => 0
  }

  ghost function Credits(m: Masses, headers: seq<Node>, ws: seq<Weight>, ps: seq<nat>): (r: Masses)
    requires |ws| == |ps| && Bookable(m, headers, ws)
    ensures |r.working| == |m.working| && |r.backedge| == |m.backedge|
  {
    if ws == [] then m
    else
      var n := |ws| - 1;
      var before := Credits(m, headers, ws[..n], ps[..n]);
      assert ws[n] in ws;
      Credit(before, headers, ws[n], ps[n])
  }

  /** No mass gets full on the way. */
  ghost predicate NoneSaturates(m: Masses, headers: seq<Node>, ws: seq<Weight>, ps: seq<nat>)
    requires |ws| == |ps| && Bookable(m, headers, ws)
  {
    forall i | 0 <= i < |ws| :: RoomFor(m, headers, ws, ps, i)
  }

  ghost predicate RoomFor(m: Masses, headers: seq<Node>, ws: seq<Weight>, ps: seq<nat>, i: nat)
    requires i < |ws| == |ps| && Bookable(m, headers, ws)
  {
    assert forall w | w in ws[..i] :: w in ws;
    assert ws[i] in ws;
    Cell(Credits(m, headers, ws[..i], ps[..i]), headers, ws[i]) + ps[i] <= MAX64
  }

  lemma CreditAdds(m: Masses, headers: seq<Node>, w: Weight, taken: nat)
    requires |m.backedge| == |headers| && Booked(m, headers, w) && taken <= MAX64 && Cell(m, headers, w) <= MAX64
    ensures Credit(m, headers, w, taken).InAll() <= m.InAll() + taken
    ensures Credit(m, headers, w, taken).InAll() == m.InAll() + taken <==> Cell(m, headers, w) + taken <= MAX64
  {
    match w.kind
    case Local => TotalUpdate(m.working, w.target, AddMass(m.working[w.target], taken));
    case Backedge =>
      var i := HeaderIndex(headers, w.target);
      TotalUpdate(m.backedge, i, AddMass(m.backedge[i], taken));
    case Exit =>
      assert Credit(m, headers, w, taken).ExitMasses() == m.ExitMasses() + [taken];
      TotalSnoc(m.ExitMasses(), taken);
  }

  predicate InRange(xs: seq<nat>) {
    forall x | x in xs :: x <= MAX64
  }

  lemma CreditInRange(m: Masses, headers: seq<Node>, w: Weight, taken: nat)
    requires |m.backedge| == |headers| && Booked(m, headers, w)
    requires InRange(m.working) && InRange(m.backedge)
    ensures var r := Credit(m, headers, w, taken); InRange(r.working) && InRange(r.backedge)
    ensures Cell(m, headers, w) <= MAX64
  {
    match w.kind
    case Local => UpdateInRange(m.working, w.target, AddMass(m.working[w.target], taken));
    case Backedge =>
      var i := HeaderIndex(headers, w.target);
      UpdateInRange(m.backedge, i, AddMass(m.backedge[i], taken));
    case Exit =>
  }

  lemma UpdateInRange(xs: seq<nat>, i: nat, x: nat)
    requires i < |xs| && InRange(xs) && x <= MAX64
    ensures InRange(xs[i := x]) && xs[i] <= MAX64
  {
    assert xs[i] in xs;
    var ys := xs[i := x];
    forall y | y in ys
      ensures y <= MAX64
    {
      var k :| 0 <= k < |xs| && ys[k] == y;
      assert xs[k] in xs;
    }
  }

  /** Booking adds the portions to the masses in all, no more; all of them exactly when no mass gets full. */
  lemma {:induction false} CreditsAdd(m: Masses, headers: seq<Node>, ws: seq<Weight>, ps: seq<nat>)
    requires |ws| == |ps| && Bookable(m, headers, ws) && InRange(ps) && InRange(m.working) && InRange(m.backedge)
    ensures var r := Credits(m, headers, ws, ps);
            && InRange(r.working) && InRange(r.backedge)
            && r.InAll() <= m.InAll() + Total(ps)
            && (r.InAll() == m.InAll() + Total(ps) <==> NoneSaturates(m, headers, ws, ps))
    decreases |ws|
  {
    if ws != [] {
      var n := |ws| - 1;
      assert forall w | w in ws[..n] :: w in ws;
      assert ws[n] in ws && ps[n] in ps && forall x | x in ps[..n] :: x in ps;
      CreditsAdd(m, headers, ws[..n], ps[..n]);
      var before := Credits(m, headers, ws[..n], ps[..n]);
      CreditInRange(before, headers, ws[n], ps[n]);
      CreditAdds(before, headers, ws[n], ps[n]);
      SaturatesLater(m, headers, ws, ps);
    }
  }

  lemma SaturatesLater(m: Masses, headers: seq<Node>, ws: seq<Weight>, ps: seq<nat>)
    requires |ws| == |ps| && Bookable(m, headers, ws) && ws != []
    ensures var n := |ws| - 1;
            && Bookable(m, headers, ws[..n])
            && (NoneSaturates(m, headers, ws, ps) <==>
                NoneSaturates(m, headers, ws[..n], ps[..n]) && RoomFor(m, headers, ws, ps, n))
  {
    var n := |ws| - 1;
    assert forall w | w in ws[..n] :: w in ws;
    forall i | 0 <= i < n
      ensures RoomFor(m, headers, ws[..n], ps[..n], i) <==> RoomFor(m, headers, ws, ps, i)
    {
      assert ws[..n][..i] == ws[..i] && ps[..n][..i] == ps[..i];
    }
  }

  /** No mass is lost: what a block's successors, its loop's headers and its exits get is the block's mass exactly, if
      none of them gets full. */
  lemma NoMassIsLost(m: Masses, headers: seq<Node>, ws: seq<Weight>, ps: seq<nat>, mass: nat)
    requires ws != [] && Dithered(ps, ws, mass) && mass <= MAX64
    requires Bookable(m, headers, ws) && InRange(m.working) && InRange(m.backedge)
    ensures Credits(m, headers, ws, ps).InAll() == m.InAll() + mass <==> NoneSaturates(m, headers, ws, ps)
  {
    PortionsAreAll(ps, ws, mass);
    PortionsInRange(ps, mass);
    CreditsAdd(m, headers, ws, ps);
  }

  // ----- One mass for each target -----

  /** What is added stops at full. */
  predicate Added(after: nat, before: nat, x: nat) {
    after == if before + x <= MAX64 then before + x else MAX64
  }

  /** The exits, in order, with what each gets. */
  function ExitsOf(ws: seq<Weight>, ps: seq<nat>): seq<(Node, nat)>
    requires |ws| == |ps|
  {
    if ws == [] then []
    else
      var n := |ws| - 1;
      ExitsOf(ws[..n], ps[..n]) + if ws[n].kind == Exit then [(ws[n].target, ps[n])] else []
  }

  predicate LeadsToBlock(ws: seq<Weight>, t: nat) {
    exists i :: 0 <= i < |ws| && ws[i].kind == Local && ws[i].target == t
  }

  predicate LeadsToHeader(ws: seq<Weight>, headers: seq<Node>, h: nat) {
    exists i :: 0 <= i < |ws| && ws[i].kind == Backedge && ws[i].target in headers
                && HeaderIndex(headers, ws[i].target) == h
  }

  ghost predicate PortionBooked(m: Masses, r: Masses, headers: seq<Node>, ws: seq<Weight>, ps: seq<nat>, i: nat)
    requires i < |ws| == |ps|
  {
    && (ws[i].kind == Local ==>
          && ws[i].target < |m.working| == |r.working|
          && Added(r.working[ws[i].target], m.working[ws[i].target], ps[i]))
    && (ws[i].kind == Backedge ==>
          && ws[i].target in headers && |m.backedge| == |r.backedge| == |headers|
          && var h := HeaderIndex(headers, ws[i].target); Added(r.backedge[h], m.backedge[h], ps[i]))
  }

  /** Every block and header a weight leads to gets that weight's portion, and no other does; the exits are listed with
      theirs. */
  ghost predicate EachBooked(m: Masses, r: Masses, headers: seq<Node>, ws: seq<Weight>, ps: seq<nat>)
    requires |ws| == |ps|
  {
    && |r.working| == |m.working| && |r.backedge| == |m.backedge| && r.exits == m.exits + ExitsOf(ws, ps)
    && (forall i | 0 <= i < |ws| :: PortionBooked(m, r, headers, ws, ps, i))
    && (forall t | 0 <= t < |m.working| && !LeadsToBlock(ws, t) :: r.working[t] == m.working[t])
    && (forall h | 0 <= h < |m.backedge| && !LeadsToHeader(ws, headers, h) :: r.backedge[h] == m.backedge[h])
  }

  lemma {:induction false} CreditsBookEach(m: Masses, headers: seq<Node>, ws: seq<Weight>, ps: seq<nat>)
    requires |ws| == |ps| && Bookable(m, headers, ws) && Distinct(ws)
    ensures EachBooked(m, Credits(m, headers, ws, ps), headers, ws, ps)
    decreases |ws|
  {
    if ws != [] {
      var n := |ws| - 1;
      assert forall w | w in ws[..n] :: w in ws;
      assert ws[n] in ws;
      CreditsBookEach(m, headers, ws[..n], ps[..n]);
      BookOneMore(m, Credits(m, headers, ws[..n], ps[..n]), headers, ws, ps);
    }
  }

  /** The last weight's portion, with the others booked. */
  lemma BookOneMore(m: Masses, before: Masses, headers: seq<Node>, ws: seq<Weight>, ps: seq<nat>)
    requires |ws| == |ps| && ws != [] && Distinct(ws) && Bookable(m, headers, ws) && Booked(m, headers, ws[|ws| - 1])
    requires EachBooked(m, before, headers, ws[..|ws| - 1], ps[..|ws| - 1]) && |before.backedge| == |headers|
    ensures Booked(before, headers, ws[|ws| - 1])
    ensures EachBooked(m, Credit(before, headers, ws[|ws| - 1], ps[|ws| - 1]), headers, ws, ps)
  {
    var n := |ws| - 1;
    var w, r := ws[n], Credit(before, headers, ws[n], ps[n]);
    assert w.kind == Local ==> !LeadsToBlock(ws[..n], w.target);
    assert w.kind == Backedge ==> !LeadsToHeader(ws[..n], headers, HeaderIndex(headers, w.target));
    forall i | 0 <= i < |ws|
      ensures PortionBooked(m, r, headers, ws, ps, i)
    {
      if i < n {
        assert PortionBooked(m, before, headers, ws[..n], ps[..n], i);
        assert ws[..n][i] == ws[i] && ps[..n][i] == ps[i];
      }
    }
    forall t | 0 <= t < |m.working| && !LeadsToBlock(ws, t)
      ensures r.working[t] == m.working[t]
    {
      NotBefore(ws, headers, t, 0);
    }
    forall h | 0 <= h < |m.backedge| && !LeadsToHeader(ws, headers, h)
      ensures r.backedge[h] == m.backedge[h]
    {
      NotBefore(ws, headers, 0, h);
    }
  }

  lemma NotBefore(ws: seq<Weight>, headers: seq<Node>, t: nat, h: nat)
    requires ws != []
    ensures var n := |ws| - 1;
            && (!LeadsToBlock(ws, t) ==> !LeadsToBlock(ws[..n], t) && !(ws[n].kind == Local && ws[n].target == t))
            && (!LeadsToHeader(ws, headers, h) ==>
                  && !LeadsToHeader(ws[..n], headers, h)
                  && !(ws[n].kind == Backedge && ws[n].target in headers && HeaderIndex(headers, ws[n].target) == h))
  {
    var n := |ws| - 1;
    if LeadsToBlock(ws[..n], t) {
      var i :| 0 <= i < n && ws[..n][i].kind == Local && ws[..n][i].target == t;
      assert ws[i].kind == Local && ws[i].target == t;
    }
    if LeadsToHeader(ws[..n], headers, h) {
      var i :| 0 <= i < n && ws[..n][i].kind == Backedge && ws[..n][i].target in headers
               && HeaderIndex(headers, ws[..n][i].target) == h;
      assert ws[i].kind == Backedge && ws[i].target in headers && HeaderIndex(headers, ws[i].target) == h;
    }
  }

  /** Every target's mass has room for its portion. */
  ghost predicate RoomForEach(m: Masses, headers: seq<Node>, ws: seq<Weight>, ps: seq<nat>)
    requires |ws| == |ps| && Bookable(m, headers, ws)
  {
    forall i | 0 <= i < |ws| :: CellHolds(m, headers, ws, ps, i)
  }

  ghost predicate CellHolds(m: Masses, headers: seq<Node>, ws: seq<Weight>, ps: seq<nat>, i: nat)
    requires i < |ws| == |ps| && Bookable(m, headers, ws)
  {
    assert ws[i] in ws;
    Cell(m, headers, ws[i]) + ps[i] <= MAX64
  }

  /** Normalized weights have one target each. */
  lemma NormalizedDistinct(result: seq<Weight>, ws: seq<Weight>, shift: nat)
    requires Normalized(result, ws, shift)
    ensures Distinct(result)
  {
    var c: seq<Weight> :| NormalizedFrom(result, c, ws, shift);
    assert forall i | 0 <= i < |c| :: result[i].target == c[i].target;
  }

  lemma OtherCell(m: Masses, headers: seq<Node>, w: Weight, taken: nat, x: Weight)
    requires |m.backedge| == |headers| && Booked(m, headers, w) && Booked(m, headers, x) && w.target != x.target
    ensures Booked(Credit(m, headers, w, taken), headers, x)
    ensures Cell(Credit(m, headers, w, taken), headers, x) == Cell(m, headers, x)
  {
  }

  /** What is booked for other targets leaves a mass alone. */
  lemma {:induction false} CellUntouched(m: Masses, headers: seq<Node>, ws: seq<Weight>, ps: seq<nat>, x: Weight)
    requires |ws| == |ps| && Bookable(m, headers, ws) && Booked(m, headers, x)
    requires forall w | w in ws :: w.target != x.target
    ensures Booked(Credits(m, headers, ws, ps), headers, x)
    ensures Cell(Credits(m, headers, ws, ps), headers, x) == Cell(m, headers, x)
    decreases |ws|
  {
    if ws != [] {
      var n := |ws| - 1;
      assert ws[n] in ws;
      CellUntouched(m, headers, ws[..n], ps[..n], x);
      OtherCell(Credits(m, headers, ws[..n], ps[..n]), headers, ws[n], ps[n], x);
    }
  }

  lemma RoomOnTheWay(m: Masses, headers: seq<Node>, ws: seq<Weight>, ps: seq<nat>)
    requires |ws| == |ps| && Bookable(m, headers, ws) && Distinct(ws)
    ensures NoneSaturates(m, headers, ws, ps) <==> RoomForEach(m, headers, ws, ps)
  {
    forall i | 0 <= i < |ws|
      ensures RoomFor(m, headers, ws, ps, i) <==> CellHolds(m, headers, ws, ps, i)
    {
      assert forall w | w in ws[..i] :: w in ws;
      assert ws[i] in ws;
      CellUntouched(m, headers, ws[..i], ps[..i], ws[i]);
    }
  }

  /** So for weights as they come out of normalizing, no mass is lost exactly when every target's mass, as it was,
      has room for that target's portion. */
  lemma NoMassIsLostEach(m: Masses, headers: seq<Node>, ws: seq<Weight>, ps: seq<nat>, mass: nat, from: seq<Weight>,
                         shift: nat)
    requires ws != [] && Normalized(ws, from, shift) && Dithered(ps, ws, mass) && mass <= MAX64
    requires Bookable(m, headers, ws) && InRange(m.working) && InRange(m.backedge)
    ensures Credits(m, headers, ws, ps).InAll() == m.InAll() + mass <==> RoomForEach(m, headers, ws, ps)
  {
    NormalizedDistinct(ws, from, shift);
    NoMassIsLost(m, headers, ws, ps, mass);
    RoomOnTheWay(m, headers, ws, ps);
  }

  lemma {:induction false} PortionsInRange(ps: seq<nat>, mass: nat)
    requires Total(ps) <= mass <= MAX64
    ensures InRange(ps)
  {
    if ps != [] {
      var n := |ps| - 1;
      PortionsInRange(ps[..n], mass);
      assert forall x | x in ps :: x in ps[..n] || x == ps[n];
    }
  }

  class BlockFrequencyInfo {
    var working: seq<nat>
    var headers: seq<Node>
    var backedgeMass: seq<nat>
    var exits: seq<(Node, nat)>

    function Books(): Masses
      reads this
    {
      Masses(working, backedgeMass, exits)
    }

    /** Distribute the mass of a block to its successors as laid out in dist. */
    method DistributeMass(source: Node, dist: Distribution, sort: Sorter, order: Enumerator)
      returns (ghost ps: seq<nat>)
      requires dist.Gathered() && dist.weights != [] && Sorts(sort) && Enumerates(order)
      requires source < |working| && working[source] <= MAX64
      requires Bookable(Books(), headers, dist.weights)
      requires TotalFits(dist.weights, Shift(dist.total, dist.didOverflow))
      modifies this, dist
      ensures Normalized(dist.weights, old(dist.weights), Shift(old(dist.total), old(dist.didOverflow)))
      ensures Dithered(ps, dist.weights, old(working[source]))
      ensures headers == old(headers) && Bookable(old(Books()), headers, dist.weights)
      ensures Books() == Credits(old(Books()), headers, dist.weights, ps)
      ensures EachBooked(old(Books()), Books(), headers, dist.weights, ps)
      ensures forall i | 0 <= i < |ps| ::
                NearShare(ps[i], old(working[source]), dist.weights[i].amount, Sum(dist.weights), i + 1)
    {
      hide *;
      var mass := working[source];
      var d := new DitheringDistributer(dist, mass, sort, order);
      ghost var m := old(Books());
      ghost var ws := dist.weights;
      StillBookable(m, headers, dist.weights, old(dist.weights), Shift(old(dist.total), old(dist.didOverflow)));
      ps := [];
      NothingTaken(m, headers, ws, mass);
      for i := 0 to |dist.weights|
        invariant dist.weights == ws && headers == old(headers) && Bookable(m, headers, ws)
        invariant TakenSoFar(ps, ws, mass, i, d.remWeight, d.remMass)
        invariant Books() == BooksAfter(m, headers, ws, ps, i)
      {
        var w := dist.weights[i];
        NextTaken(ps, ws, mass, i, d.remWeight, d.remMass);
        ghost var remWeight, remMass := d.remWeight, d.remMass;
        var taken := d.TakeMass(w.amount);
        MoreTaken(ps, ws, mass, i, remWeight, remMass, taken);
        NextBooked(m, headers, ws, ps, i, taken);
        Book(w, taken);
        ps := ps + [taken];
      }
      AllTaken(m, headers, ws, ps, mass, d.remWeight, d.remMass);
      AllShared(m, headers, ws, ps, mass, old(dist.weights), Shift(old(dist.total), old(dist.didOverflow)));
    }

    /** Add a portion to the mass it goes to. */
    method Book(w: Weight, taken: nat)
      requires |Books().backedge| == |headers| && Booked(Books(), headers, w)
      modifies this
      ensures headers == old(headers)
      ensures Books() == Credit(old(Books()), headers, w, taken)
    {
      if w.kind == Local {
        working := working[w.target := AddMass(working[w.target], taken)];
        return;
      }
      if w.kind == Backedge {
        var i := HeaderIndex(headers, w.target);
        backedgeMass := backedgeMass[i := AddMass(backedgeMass[i], taken)];
        return;
      }
      exits := exits + [(w.target, taken)];
    }
  }

  // ----- The loop -----

  lemma AllShared(m: Masses, headers: seq<Node>, ws: seq<Weight>, ps: seq<nat>, mass: nat, from: seq<Weight>,
                  shift: nat)
    requires Normalized(ws, from, shift) && Dithered(ps, ws, mass) && Bookable(m, headers, ws)
    ensures |ps| == |ws| && EachBooked(m, Credits(m, headers, ws, ps), headers, ws, ps)
    ensures forall i | 0 <= i < |ps| :: NearShare(ps[i], mass, ws[i].amount, Sum(ws), i + 1)
  {
    hide NearShare, EachBooked;
    NormalizedDistinct(ws, from, shift);
    CreditsBookEach(m, headers, ws, ps);
    forall i | 0 <= i < |ps|
      ensures NearShare(ps[i], mass, ws[i].amount, Sum(ws), i + 1)
    {
      PortionsAreShares(ps, ws, mass, i);
    }
  }

  lemma StillBookable(m: Masses, headers: seq<Node>, ws: seq<Weight>, old_ws: seq<Weight>, shift: nat)
    requires Normalized(ws, old_ws, shift) && Bookable(m, headers, old_ws)
    ensures Bookable(m, headers, ws)
  {
    hide Normalized;
    forall w | w in ws
      ensures Booked(m, headers, w)
    {
      var x := Origin(ws, old_ws, shift, w);
      assert Booked(m, headers, x);
    }
  }

  /** Every normalized weight goes where one of the weights goes, as one of the same kind. */
  lemma Origin(ws: seq<Weight>, old_ws: seq<Weight>, shift: nat, w: Weight) returns (x: Weight)
    requires Normalized(ws, old_ws, shift) && w in ws
    ensures x in old_ws && x.target == w.target && x.kind == w.kind
  {
    var c: seq<Weight> :| NormalizedFrom(ws, c, old_ws, shift);
    var i :| 0 <= i < |ws| && ws[i] == w;
    assert c[i] in c;
    assert HasTarget(c, c[i].target);
    assert HasTarget(old_ws, c[i].target);
    x :| x in old_ws && x.target == w.target;
  }

  /** After i portions. */
  ghost predicate TakenSoFar(ps: seq<nat>, ws: seq<Weight>, mass: nat, i: nat, remWeight: nat, remMass: nat) {
    && |ps| == i <= |ws| && mass <= MAX64 && Sum(ws) <= MAX32 && (forall w | w in ws :: 1 <= w.amount)
    && remWeight == Sum(ws) - Sum(ws[..i]) && remMass == mass - Total(ps)
    && forall k | 0 <= k < i :: DitheredPrefix(ps, ws, mass, k)
  }

  ghost predicate DitheredPrefix(ps: seq<nat>, ws: seq<Weight>, mass: nat, k: nat)
    requires k < |ps| <= |ws|
  {
    var w, m := Sum(ws) - Sum(ws[..k]), mass - Total(ps[..k]);
    && 0 <= m <= MAX64 && 0 < w <= MAX32 && ws[k].amount <= w
    && ps[k] == Part(m, ws[k].amount, w)
  }

  ghost function BooksAfter(m: Masses, headers: seq<Node>, ws: seq<Weight>, ps: seq<nat>, i: nat): Masses {
    if |ps| == i <= |ws| && Bookable(m, headers, ws[..i]) then Credits(m, headers, ws[..i], ps) else m
  }

  lemma NothingTaken(m: Masses, headers: seq<Node>, ws: seq<Weight>, mass: nat)
    requires Bookable(m, headers, ws)
    requires mass <= MAX64 && Sum(ws) <= MAX32 && forall w | w in ws :: 1 <= w.amount
    ensures BooksAfter(m, headers, ws, [], 0) == m
    ensures TakenSoFar([], ws, mass, 0, Sum(ws), mass)
  {
  }

  lemma {:induction false} SumOfPrefix(ws: seq<Weight>, i: nat)
    requires i <= |ws|
    ensures Sum(ws[..i]) <= Sum(ws)
  {
    SumAppend(ws[..i], ws[i..]);
    assert ws == ws[..i] + ws[i..];
  }

  lemma NextTaken(ps: seq<nat>, ws: seq<Weight>, mass: nat, i: nat, remWeight: nat, remMass: nat)
    requires TakenSoFar(ps, ws, mass, i, remWeight, remMass) && i < |ws|
    ensures |ps| == i && 0 < ws[i].amount <= remWeight <= MAX32 && remMass <= MAX64
  {
    assert ws[i] in ws;
    assert ws[..i + 1] == ws[..i] + [ws[i]];
    SumSnoc(ws[..i], ws[i]);
    SumOfPrefix(ws, i + 1);
  }

  lemma MoreTaken(ps: seq<nat>, ws: seq<Weight>, mass: nat, i: nat, remWeight: nat, remMass: nat, taken: nat)
    requires TakenSoFar(ps, ws, mass, i, remWeight, remMass) && i < |ws|
    requires 0 < ws[i].amount <= remWeight <= MAX32 && remMass <= MAX64
    requires taken == Part(remMass, ws[i].amount, remWeight) <= remMass
    ensures TakenSoFar(ps + [taken], ws, mass, i + 1, remWeight - ws[i].amount, remMass - taken)
  {
    hide Part, Sum, Total;
    assert ws[..i + 1] == ws[..i] + [ws[i]];
    SumSnoc(ws[..i], ws[i]);
    TotalSnoc(ps, taken);
    var ps' := ps + [taken];
    forall k | 0 <= k < i + 1
      ensures DitheredPrefix(ps', ws, mass, k)
    {
      assert ps'[..k] == ps[..k];
      if k == i {
        assert ps[..i] == ps;
      } else {
        assert DitheredPrefix(ps, ws, mass, k);
      }
    }
  }

  lemma NextBooked(m: Masses, headers: seq<Node>, ws: seq<Weight>, ps: seq<nat>, i: nat, taken: nat)
    requires i < |ws| && |ps| == i && Bookable(m, headers, ws)
    ensures var before := BooksAfter(m, headers, ws, ps, i);
            && |before.backedge| == |headers| && Booked(before, headers, ws[i])
            && BooksAfter(m, headers, ws, ps + [taken], i + 1) == Credit(before, headers, ws[i], taken)
  {
    assert forall w | w in ws[..i + 1] || w in ws[..i] :: w in ws;
    assert ws[i] in ws;
    assert ws[..i + 1][..i] == ws[..i] && (ps + [taken])[..i] == ps;
  }

  lemma AllTaken(m: Masses, headers: seq<Node>, ws: seq<Weight>, ps: seq<nat>, mass: nat, remWeight: nat, remMass: nat)
    requires TakenSoFar(ps, ws, mass, |ws|, remWeight, remMass) && Bookable(m, headers, ws)
    ensures Dithered(ps, ws, mass) && BooksAfter(m, headers, ws, ps, |ws|) == Credits(m, headers, ws, ps)
  {
    assert ws[..|ws|] == ws;
    forall i | 0 <= i < |ws|
      ensures DitheredAt(ps, ws, mass, i)
    {
      assert DitheredPrefix(ps, ws, mass, i);
    }
  }
}
