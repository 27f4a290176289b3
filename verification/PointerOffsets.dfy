/** Pointers as a base plus scaled variables: the difference of two, and what it says about the accesses made
    through them. */
module PointerOffsets {
  import opened Basics
  import opened Bits
  import opened Distance
  import opened LinearExpr
  import opened ExactLinear

  /** The variable, sign-extended by sext bits and then zero-extended by zext, times the scale. */
  datatype Index = Index(v: Value, zext: nat, sext: nat, scale: int)

  predicate InInt64(x: int) {
    0 - TWO63 <= x < TWO63
  }

  function Wrap64(x: int): (r: int)
    ensures InInt64(r) && Cong(r, x, TWO64)
  {
    Pow64();
    SignedRange(x, 64);
    Signed(x, 64)
  }

  ghost predicate Readable(v: Value, env: Env) {
    WellTyped(v) && Eval(v, env).Some?
  }

  ghost function Variable(i: Index, env: Env): int {
    if Readable(i.v, env) then Extend(Eval(i.v, env).value, Width(i.v), i.zext, i.sext) else 0
  }

  /** What the variables add to the address, as a whole number. */
  ghost function Sum(idx: seq<Index>, env: Env): int {
    if idx == [] then 0 else idx[0].scale * Variable(idx[0], env) + Sum(idx[1..], env)
  }

  lemma {:induction false} SumAppend(a: seq<Index>, b: seq<Index>, env: Env)
    ensures Sum(a + b, env) == Sum(a, env) + Sum(b, env)
  {
    if a == [] {
      assert a + b == b;
    } else {
      assert (a + b)[1..] == a[1..] + b;
      SumAppend(a[1..], b, env);
    }
  }

  lemma SumAt(idx: seq<Index>, j: nat, env: Env)
    requires j < |idx|
    ensures Sum(idx, env) == Sum(idx[..j], env) + idx[j].scale * Variable(idx[j], env) + Sum(idx[j + 1..], env)
  {
    assert idx == idx[..j] + idx[j..] && idx[j..][1..] == idx[j + 1..];
    SumAppend(idx[..j], idx[j..], env);
  }

  // ----- The difference of two lists -----

  /** Whether two values are certainly the same, in every round of a loop. */
  type Same = (Value, Value) -> bool

  ghost predicate SameSound(same: Same) {
    forall a, b | same(a, b) :: a == b
  }

  predicate Scales(idx: seq<Index>) {
    forall i | 0 <= i < |idx| :: InInt64(idx[i].scale) && idx[i].scale != 0
  }

  predicate Matches(same: Same, a: Index, b: Index) {
    same(a.v, b.v) && a.zext == b.zext && a.sext == b.sext
  }

  /** No two entries are for the same variable, extended alike. */
  predicate NoneMatch(same: Same, idx: seq<Index>) {
    forall i, j | 0 <= i < j < |idx| ::
      !(same(idx[i].v, idx[j].v) && idx[i].zext == idx[j].zext && idx[i].sext == idx[j].sext)
  }

  /** The variables of `next` add what those of `dest` do, less scale times that of x. */
  ghost predicate Subtracted(next: seq<Index>, dest: seq<Index>, x: Index) {
    forall env :: Cong(Sum(next, env), Sum(dest, env) - x.scale * Variable(x, env), TWO64)
  }

  lemma ReplaceSubtracts(dest: seq<Index>, j: nat, x: Index, scale: int, next: seq<Index>)
    requires j < |dest| && dest[j].v == x.v && dest[j].zext == x.zext && dest[j].sext == x.sext
    requires Cong(scale, dest[j].scale - x.scale, TWO64)
    requires next == dest[..j] + (if scale == 0 then [] else [dest[j].(scale := scale)]) + dest[j + 1..]
    ensures Subtracted(next, dest, x)
  {
    hide Cong, Extend, Eval, WellTyped;
    forall env
      ensures Cong(Sum(next, env), Sum(dest, env) - x.scale * Variable(x, env), TWO64)
    {
      var t := Variable(x, env);
      var mid := if scale == 0 then [] else [dest[j].(scale := scale)];
      SumAt(dest, j, env);
      SumAppend(dest[..j] + mid, dest[j + 1..], env);
      SumAppend(dest[..j], mid, env);
      assert Variable(dest[j], env) == t;
      assert Sum(mid, env) == scale * t;
      CongScale(scale, dest[j].scale - x.scale, t, TWO64);
      Distribute(dest[j].scale, x.scale, t);
      var rest := Sum(dest[..j], env) + Sum(dest[j + 1..], env);
      CongSame(rest, TWO64);
      CongAdd(scale * t, dest[j].scale * t - x.scale * t, rest, rest, TWO64);
    }
  }

  lemma Distribute(a: int, b: int, t: int)
    ensures (a - b) * t == a * t - b * t
  {
  }

  lemma AppendSubtracts(dest: seq<Index>, x: Index, scale: int)
    requires Cong(scale, 0 - x.scale, TWO64)
    ensures Subtracted(dest + [x.(scale := scale)], dest, x)
  {
    forall env
      ensures Cong(Sum(dest + [x.(scale := scale)], env), Sum(dest, env) - x.scale * Variable(x, env), TWO64)
    {
      var t := Variable(x, env);
      SumAppend(dest, [x.(scale := scale)], env);
      assert Sum([x.(scale := scale)], env) == scale * t;
      CongScale(scale, 0 - x.scale, t, TWO64);
      Distribute(0, x.scale, t);
      CongSame(Sum(dest, env), TWO64);
      CongAdd(Sum(dest, env), Sum(dest, env), scale * t, (0 - x.scale) * t, TWO64);
    }
  }

  /** The variables of dest add the difference of what those of dest0 and of src do, in 64-bit arithmetic. */
  ghost predicate IsDifference(dest: seq<Index>, dest0: seq<Index>, src: seq<Index>) {
    forall env :: Cong(Sum(dest, env), Sum(dest0, env) - Sum(src, env), TWO64)
  }

  /** Every entry is one of the given ones, with another scale perhaps. */
  ghost predicate Rescaled(dest: seq<Index>, from: seq<Index>) {
    forall x | x in dest :: Occurs(x, from)
  }

  ghost predicate Occurs(x: Index, from: seq<Index>) {
    exists y | y in from :: x == y.(scale := x.scale)
  }

  lemma SubtractMore(next: seq<Index>, dest: seq<Index>, dest0: seq<Index>, src: seq<Index>, i: nat)
    requires i < |src| && Subtracted(next, dest, src[i]) && IsDifference(dest, dest0, src[..i])
    ensures IsDifference(next, dest0, src[..i + 1])
  {
    forall env
      ensures Cong(Sum(next, env), Sum(dest0, env) - Sum(src[..i + 1], env), TWO64)
    {
      var x := src[i].scale * Variable(src[i], env);
      assert src[..i + 1] == src[..i] + [src[i]];
      SumAppend(src[..i], [src[i]], env);
      CongSame(x, TWO64);
      CongAdd(Sum(dest, env), Sum(dest0, env) - Sum(src[..i], env), x, x, TWO64);
      CongTrans(Sum(next, env), Sum(dest, env) - x, Sum(dest0, env) - Sum(src[..i], env) - x, TWO64);
    }
  }

  /** A difference of two numbers in range is not a multiple of 2^64. */
  lemma NotZero(a: int, b: int)
    requires InInt64(a) && InInt64(b) && a != b
    ensures Wrap64(a - b) != 0
  {
    if Wrap64(a - b) == 0 {
      CongSym(0, a - b, TWO64);
      CongIntro(a, b, CongElim0(a - b), TWO64);
      CongClose(a, b, TWO64);
      assert false;
    }
  }

  ghost function CongElim0(x: int): (k: int)
    requires Cong(x, 0, TWO64)
    ensures x == TWO64 * k
  {
    x / TWO64
  }

  /** One round: take x from the first entry for the same variable, dropping the entry where nothing is left, or add an
      entry for it. */
  method SubtractIndex(dest: seq<Index>, x: Index, same: Same) returns (next: seq<Index>)
    requires SameSound(same) && Scales(dest) && InInt64(x.scale) && x.scale != 0
    ensures Subtracted(next, dest, x) && Scales(next) && Rescaled(next, dest + [x])
    ensures NoneMatch(same, dest) ==> NoneMatch(same, next)
    ensures dest != [] && dest[0] == x && same(x.v, x.v) ==> next == dest[1..]
  {
    hide Cong, Subtracted, InInt64;
    var j := 0;
    while j < |dest| && !Matches(same, dest[j], x)
      invariant j <= |dest|
      invariant forall k | 0 <= k < j :: !Matches(same, dest[k], x)
    {
      j := j + 1;
    }
    if j < |dest| {
      if dest[j].scale != x.scale {
        var scale := Wrap64(dest[j].scale - x.scale);
        NotZero(dest[j].scale, x.scale);
        next := dest[j := dest[j].(scale := scale)];
        assert next == dest[..j] + [dest[j].(scale := scale)] + dest[j + 1..];
        ReplaceSubtracts(dest, j, x, scale, next);
      } else {
        next := dest[..j] + dest[j + 1..];
        assert next == dest[..j] + [] + dest[j + 1..];
        CongSame(0, TWO64);
        ReplaceSubtracts(dest, j, x, 0, next);
      }
    } else {
      var scale := Wrap64(0 - x.scale);
      Int64Zero();
      NotZero(0, x.scale);
      next := dest + [x.(scale := scale)];
      AppendSubtracts(dest, x, scale);
    }
    forall y | y in next
      ensures Occurs(y, dest + [x])
    {
      if y in dest {
        assert y in dest + [x] && y == y.(scale := y.scale);
      } else if j < |dest| {
        assert dest[j] in dest + [x] && y == dest[j].(scale := y.scale);
      } else {
        assert x in dest + [x] && y == x.(scale := y.scale);
      }
    }
  }

  lemma Int64Zero()
    ensures InInt64(0)
  {
  }

  /** Take the variables of src from those of dest0: whatever their values, the sum comes out as the difference, in
      64-bit arithmetic, and no variable is left with scale 0. Where no variable came twice none comes twice
      afterwards, and from a list taken from itself nothing is left. */
  method GetIndexDifference(dest0: seq<Index>, src: seq<Index>, same: Same) returns (dest: seq<Index>)
    requires SameSound(same) && Scales(dest0) && Scales(src)
    ensures IsDifference(dest, dest0, src)
    ensures Scales(dest)
    ensures Rescaled(dest, dest0 + src)
    ensures NoneMatch(same, dest0) ==> NoneMatch(same, dest)
    ensures src == dest0 && (forall x <- src :: same(x.v, x.v)) ==> dest == []
  {
    hide IsDifference, Rescaled, NoneMatch, Sum, Cong;
    dest := dest0;
    DifferenceStarts(dest0);
    assert src[..0] == [];
    for i := 0 to |src|
      invariant IsDifference(dest, dest0, src[..i])
      invariant Scales(dest)
      invariant Rescaled(dest, dest0 + src)
      invariant NoneMatch(same, dest0) ==> NoneMatch(same, dest)
      invariant src == dest0 && (forall x <- src :: same(x.v, x.v)) ==> dest == src[i..]
    {
      assert src[i] in src;
      var next := SubtractIndex(dest, src[i], same);
      SubtractMore(next, dest, dest0, src, i);
      StillRescaled(next, dest, src[i], dest0 + src);
      dest := next;
    }
    assert src[..|src|] == src;
  }

  lemma DifferenceStarts(dest: seq<Index>)
    ensures IsDifference(dest, dest, []) && forall more :: Rescaled(dest, dest + more)
  {
    forall env
      ensures Cong(Sum(dest, env), Sum(dest, env) - Sum([], env), TWO64)
    {
      CongSame(Sum(dest, env), TWO64);
    }
    forall more, x | x in dest
      ensures Occurs(x, dest + more)
    {
      assert x in dest + more && x == x.(scale := x.scale);
    }
  }

  lemma StillRescaled(next: seq<Index>, dest: seq<Index>, x: Index, from: seq<Index>)
    requires Rescaled(next, dest + [x]) && Rescaled(dest, from) && x in from
    ensures Rescaled(next, from)
  {
    forall y | y in next
      ensures Occurs(y, from)
    {
      var z :| z in dest + [x] && y == z.(scale := y.scale);
      if z in dest {
        var u :| u in from && z == u.(scale := z.scale);
        assert u in from && y == u.(scale := y.scale);
      } else {
        assert x in from && y == x.(scale := y.scale);
      }
    }
  }
}
