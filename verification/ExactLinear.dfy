/** What scale, value, offset and the counted bits of extension stand for together, and exactly when that is the
    expression. The reference is the line that comes out when the extensions are moved inwards past every operation,
    each constant being extended by itself. */
module ExactLinear {
  import opened Basics
  import opened Bits
  import opened LinearExpr

  /** A w-bit word extended: as a sign where only sign bits were added, otherwise as the unsigned number. */
  function Extend(x: nat, w: nat, zext: nat, sext: nat): int
    requires w > 0
  {
    if zext > 0 then Signed(x, w) % Pow2(w + sext) else Signed(x, w)
  }

  // ----- Extensions, one after the other -----

  datatype Extension = Extension(sign: bool, to: nat)

  function ExtendOnce(e: Extension, a: nat, n: nat): nat
    requires n > 0
  {
    if e.sign then Signed(a, n) % Pow2(e.to) else a
  }

  /** Each extension is to more bits than the one before, the first to more than n. */
  predicate Widening(es: seq<Extension>, n: nat) {
    es == [] || (n < es[0].to && Widening(es[1..], es[0].to))
  }

  function FinalWidth(es: seq<Extension>, n: nat): nat {
    if es == [] then n else FinalWidth(es[1..], es[0].to)
  }

  function ExtendAll(es: seq<Extension>, a: nat, n: nat): nat
    requires n > 0 && Widening(es, n)
  {
    if es == [] then a else ExtendAll(es[1..], ExtendOnce(es[0], a, n), es[0].to)
  }

  predicate HasSign(es: seq<Extension>) {
    exists e | e in es :: e.sign
  }

  predicate HasZero(es: seq<Extension>) {
    exists e | e in es :: !e.sign
  }

  lemma ConsFacts(e: Extension, es: seq<Extension>, n: nat)
    requires 0 < n < e.to && Widening(es, e.to)
    ensures Widening([e] + es, n) && FinalWidth([e] + es, n) == FinalWidth(es, e.to)
    ensures forall a: nat :: ExtendAll([e] + es, a, n) == ExtendAll(es, ExtendOnce(e, a, n), e.to)
    ensures HasSign([e] + es) <==> e.sign || HasSign(es)
    ensures HasZero([e] + es) <==> !e.sign || HasZero(es)
  {
    assert ([e] + es)[1..] == es && ([e] + es)[0] == e;
    if HasSign(es) {
      var x :| x in es && x.sign;
      assert x in [e] + es;
    }
    if HasZero(es) {
      var x :| x in es && !x.sign;
      assert x in [e] + es;
    }
    assert e in [e] + es;
  }

  lemma NoExtensions(es: seq<Extension>)
    ensures es == [] <==> !HasSign(es) && !HasZero(es)
  {
    if es != [] {
      assert es[0] in es;
    }
  }

  lemma {:induction false} NeverNarrower(es: seq<Extension>, n: nat)
    requires Widening(es, n)
    ensures FinalWidth(es, n) >= n
  {
    if es != [] {
      NeverNarrower(es[1..], es[0].to);
    }
  }

  lemma ExtendOnceFits(e: Extension, a: nat, n: nat)
    requires 0 < n < e.to && a < Pow2(n)
    ensures ExtendOnce(e, a, n) < Pow2(e.to)
  {
    PowMonotone(n, e.to);
  }

  // ----- Moving an extension past an operation -----

  lemma SignedOf(a: nat, n: nat)
    requires n > 0 && a < Pow2(n)
    ensures Signed(a, n) == if a < Pow2(n - 1) then a else a - Pow2(n)
    ensures Pow2(n) == 2 * Pow2(n - 1)
  {
    RemainderIs(a, Pow2(n), 0, a);
  }

  /** A number below 2^n is its own signed reading in more bits. */
  lemma SignedWider(a: nat, n: nat, m: nat)
    requires 0 < n < m && a < Pow2(n)
    ensures Signed(a, m) == a
  {
    PowMonotone(n, m - 1);
    PowMonotone(n, m);
    SignedOf(a, m);
  }

  lemma FitsWider(x: int, n: nat, m: nat)
    requires 0 < n < m && FitsSigned(x, n)
    ensures FitsSigned(x, m)
  {
    PowMonotone(n - 1, m - 1);
  }

  lemma SignedOfFitting(x: int, n: nat)
    requires n > 0 && FitsSigned(x, n)
    ensures Signed(x % Pow2(n), n) == x
  {
    var P := Pow2(n);
    CongRem(x, P);
    SignedRange(x % P, n);
    CongTrans(Signed(x % P, n), x % P, x, P);
    CongClose(Signed(x % P, n), x, P);
  }

  /** Sign extension keeps the signed reading. */
  lemma SignedKept(a: nat, n: nat, m: nat)
    requires 0 < n < m
    ensures Signed(Signed(a, n) % Pow2(m), m) == Signed(a, n)
  {
    SignedRange(a, n);
    FitsWider(Signed(a, n), n, m);
    SignedOfFitting(Signed(a, n), m);
  }

  predicate Linearly(op: Opcode) {
    op == Add || op == Sub || op == Mul
  }

  lemma PushZero(op: Opcode, a: nat, c: nat, n: nat, m: nat, nsw: bool)
    requires Linearly(op) && 0 < n < m && a < Pow2(n) && c < Pow2(n) && Apply(op, a, c, n, nsw, true).Some?
    ensures Apply(op, a, c, m, nsw, true) == Apply(op, a, c, n, nsw, true)
  {
    SignedWider(a, n, m);
    SignedWider(c, n, m);
    PowMonotone(n, m - 1);
    PowMonotone(n, m);
    var e := Exact(op, a, c);
    RemainderIs(e, Pow2(n), 0, e);
    RemainderIs(e, Pow2(m), 0, e);
  }

  /** Where the signed operation does not wrap, neither does the one on the extended words, in both senses. */
  lemma PushSign(op: Opcode, a: nat, c: nat, n: nat, m: nat, nuw: bool)
    requires Linearly(op) && 0 < n < m && a < Pow2(n) && c < Pow2(n) && Apply(op, a, c, n, true, nuw).Some?
    ensures var a', c' := Signed(a, n) % Pow2(m), Signed(c, n) % Pow2(m);
            Apply(op, a', c', m, true, nuw) == Some(Signed(Apply(op, a, c, n, true, nuw).value, n) % Pow2(m))
  {
    var a', c' := Signed(a, n) % Pow2(m), Signed(c, n) % Pow2(m);
    var e := ExactSigned(op, Signed(a, n), c, n);
    SignedKept(a, n, m);
    SignedKept(c, n, m);
    FitsWider(e, n, m);
    assert ExactSigned(op, Signed(a', m), c', m) == e;
    if nuw {
      NoUnsignedWrap(op, a, c, n, m);
    }
    ExactIsSigned(op, a, c, n);
    ExactIsSigned(op, a', c', m);
    var P, Q := Pow2(n), Pow2(m);
    CongRemainders(Exact(op, a, c), e, P);
    SignedOfFitting(e, n);
    CongRemainders(Exact(op, a', c'), e, Q);
  }

  lemma CongRemainders(x: int, y: int, m: nat)
    requires m > 0 && Cong(x, y, m)
    ensures x % m == y % m
  {
    CongRem(x, m);
    CongRem(y, m);
    CongSym(y % m, y, m);
    CongTrans(x % m, x, y, m);
    CongTrans(x % m, y, y % m, m);
    CongClose(x % m, y % m, m);
  }

  lemma ExactIsSigned(op: Opcode, a: nat, c: nat, n: nat)
    requires Linearly(op) && n > 0
    ensures Cong(Exact(op, a, c), ExactSigned(op, Signed(a, n), c, n), Pow2(n))
  {
    var s, t, P := Signed(a, n), Signed(c, n), Pow2(n);
    SignedRange(a, n);
    SignedRange(c, n);
    CongSym(s, a, P);
    CongSym(t, c, P);
    hide Signed, Pow2;
    CongAdd(a, s, c, t, P);
    CongMul(a, s, c, t, P);
  }

  lemma CongMul(x: int, y: int, a: int, b: int, m: nat)
    requires m > 0 && Cong(x, y, m) && Cong(a, b, m)
    ensures Cong(x * a, y * b, m)
  {
    CongScale(x, y, a, m);
    CongScale(a, b, y, m);
    Swap(a, y);
    Swap(b, y);
    CongTrans(x * a, y * a, y * b, m);
  }

  lemma Swap(a: int, b: int)
    ensures a * b == b * a
  {
  }

  lemma NoUnsignedWrap(op: Opcode, a: nat, c: nat, n: nat, m: nat)
    requires Linearly(op) && 0 < n < m && a < Pow2(n) && c < Pow2(n) && 0 <= Exact(op, a, c) < Pow2(n)
    requires FitsSigned(ExactSigned(op, Signed(a, n), c, n), n)
    ensures 0 <= Exact(op, Signed(a, n) % Pow2(m), Signed(c, n) % Pow2(m)) < Pow2(m)
  {
    var h, P, Q := Pow2(n - 1), Pow2(n), Pow2(m);
    Extended(a, n, m);
    Extended(c, n, m);
    SignedOf(a, n);
    SignedOf(c, n);
    PowMonotone(n, m);
    var a', c' := Signed(a, n) % Q, Signed(c, n) % Q;
    if op == Mul {
      hide Pow2, Signed;
      SmallProduct(a, c, h, P, Q, a', c');
    }
  }

  /** The extended pattern: the same, or with all the new bits set. */
  lemma Extended(a: nat, n: nat, m: nat)
    requires 0 < n < m && a < Pow2(n)
    ensures Signed(a, n) % Pow2(m) == if a < Pow2(n - 1) then a else a + (Pow2(m) - Pow2(n))
  {
    SignedOf(a, n);
    PowMonotone(n, m);
    if a < Pow2(n - 1) {
      RemainderIs(a, Pow2(m), 0, a);
    } else {
      RemainderIs(a - Pow2(n), Pow2(m), -1, a - Pow2(n) + Pow2(m));
    }
  }

  /** If one factor has its sign bit set, the other is at most 1. */
  lemma SmallProduct(a: nat, c: nat, h: nat, P: nat, Q: nat, a': nat, c': nat)
    requires 0 < h && P == 2 * h && P <= Q && a < P && c < P && a * c < P
    requires a' == (if a < h then a else a + (Q - P)) && c' == (if c < h then c else c + (Q - P))
    requires var s, t := if a < h then a else a - P, if c < h then c else c - P; s * t < h
    ensures 0 <= a' * c' < Q
  {
    if a >= h && c >= 2 {
      TwiceAtLeast(c, a);
    }
    if c >= h && a >= 2 {
      TwiceAtLeast(a, c);
    }
    assert a == 0 || c == 0 || a == 1 || c == 1 || (a < h && c < h);
    if a == 0 || c == 0 {
      assert a' == 0 || c' == 0 || h == 0;
    }
  }

  lemma TwiceAtLeast(x: nat, y: nat)
    requires x >= 2
    ensures x * y >= 2 * y && y * x >= 2 * y
  {
    assert (x - 2) * y >= 0;
  }

  /** An or of disjoint bits is a sum that wraps in neither sense. */
  lemma OrIsAdd(a: nat, c: nat, n: nat)
    requires n > 0 && a < Pow2(n) && c < Pow2(n) && BitAnd(a, c) == 0
    ensures Apply(Add, a, c, n, true, true) == Some(BitOr(a, c))
  {
    hide BitOr, BitAnd;
    OrOfDisjoint(a, c);
    OrFits(a, c, n);
    SignedOf(a, n);
    SignedOf(c, n);
    if a < Pow2(n - 1) && c < Pow2(n - 1) {
      OrFits(a, c, n - 1);
    }
    RemainderIs(a + c, Pow2(n), 0, a + c);
  }

  /** All extensions may be moved inwards where what they need does not happen: a sign extension needs the operation not
      to wrap as a signed one, a zero extension as an unsigned one. */
  lemma {:induction false} PushAll(es: seq<Extension>, op: Opcode, a: nat, c: nat, n: nat, nsw: bool, nuw: bool)
    requires Linearly(op) && n > 0 && Widening(es, n) && a < Pow2(n) && c < Pow2(n)
    requires Apply(op, a, c, n, nsw, nuw).Some?
    requires (HasSign(es) ==> nsw) && (HasZero(es) ==> nuw)
    ensures FinalWidth(es, n) > 0
    ensures Apply(op, ExtendAll(es, a, n), ExtendAll(es, c, n), FinalWidth(es, n), nsw, nuw)
         == Some(ExtendAll(es, Apply(op, a, c, n, nsw, nuw).value, n))
    decreases |es|
  {
    if es != [] {
      var e, rest := es[0], es[1..];
      assert es == [e] + rest;
      ConsFacts(e, rest, n);
      if e.sign {
        PushSign(op, a, c, n, e.to, nuw);
      } else {
        PushZero(op, a, c, n, e.to, nsw);
      }
      ExtendOnceFits(e, a, n);
      ExtendOnceFits(e, c, n);
      hide Apply, Signed, Pow2;
      PushAll(rest, op, ExtendOnce(e, a, n), ExtendOnce(e, c, n), e.to, nsw, nuw);
    }
  }

  // ----- The line with every constant extended by itself -----

  datatype Coefficients = Coefficients(scale: int, offset: int)

  function Step(op: Opcode, t: Coefficients, k: nat): Coefficients {
    match op
    case Or => t.(offset := t.offset + k)
    case Add => t.(offset := t.offset + k)
    case Sub => t.(offset := t.offset - k)
    case Mul => Coefficients(t.scale * k, t.offset * k)
    case Shl => Coefficients(t.scale * Pow2(k), t.offset * Pow2(k))
  }

  /** Whether the decomposition goes on inside an extension. */
  predicate LooksThrough(r0: Linear, sign: bool) {
    if sign && r0.zext == 0 then r0.nsw else r0.nuw
  }

  /** How an extension counts: a sign extension of something zero-extended counts as a zero extension. Constants are
      extended as signs there only where that cannot wrap. */
  function Counted(r0: Linear, v: Value): Extension
    requires v.ZExt? || v.SExt?
  {
    Extension(v.SExt? && (r0.zext == 0 || (r0.nuw && r0.nsw)), v.width)
  }

  /** The decomposition of v, which is extended by es, with the constants extended on the way. */
  function TrueLine(masked: Masked, v: Value, w: nat, depth: nat, es: seq<Extension>): Coefficients
    requires WellTyped(v) && Widening(es, Width(v))
    decreases v, 0
  {
    if depth == MAX_DEPTH then Coefficients(1, 0)
    else
      match v
      case Constant(bits, width) => Coefficients(0, ExtendAll(es, bits, width))
      case Opaque(_, _) => Coefficients(1, 0)
      case Binary(op, lhs, rhs, _, _) =>
        if op == Or && !masked(lhs, rhs) then Coefficients(1, 0)
        else
          var k := if op == Shl then rhs else ExtendAll(es, rhs, Width(lhs));
          Step(op, TrueLine(masked, lhs, w, depth + 1, es), k)
      case ZExt(x, width) =>
        var r0 := GetLinear(masked, x, w, 0, 0, depth + 1);
        if LooksThrough(r0, false) then Inner(masked, x, w, depth, Counted(r0, v), es) else Coefficients(1, 0)
      case SExt(x, width) =>
        var r0 := GetLinear(masked, x, w, 0, 0, depth + 1);
        if LooksThrough(r0, true) then Inner(masked, x, w, depth, Counted(r0, v), es) else Coefficients(1, 0)
  }

  function Inner(masked: Masked, x: Value, w: nat, depth: nat, e: Extension, es: seq<Extension>): Coefficients
    requires WellTyped(x) && Width(x) < e.to && Widening(es, e.to)
    decreases x, 1
  {
    ConsFacts(e, es, Width(x));
    TrueLine(masked, x, w, depth + 1, [e] + es)
  }

  /** How the value that is returned is extended, the innermost extension first. */
  function LeafExtensions(masked: Masked, v: Value, w: nat, depth: nat): seq<Extension>
    requires WellTyped(v)
  {
    if depth == MAX_DEPTH then []
    else
      match v
      case Constant(_, _) => []
      case Opaque(_, _) => []
      case Binary(op, lhs, rhs, _, _) =>
        if op == Or && !masked(lhs, rhs) then [] else LeafExtensions(masked, lhs, w, depth + 1)
      case ZExt(x, _) =>
        var r0 := GetLinear(masked, x, w, 0, 0, depth + 1);
        (if LooksThrough(r0, false) then LeafExtensions(masked, x, w, depth + 1) else []) + [Counted(r0, v)]
      case SExt(x, _) =>
        var r0 := GetLinear(masked, x, w, 0, 0, depth + 1);
        (if LooksThrough(r0, true) then LeafExtensions(masked, x, w, depth + 1) else []) + [Counted(r0, v)]
  }

  /** Where a sign extension is taken for a zero extension, what it extends is not negative. */
  predicate SignsKept(masked: Masked, v: Value, w: nat, depth: nat, env: Env)
    requires WellTyped(v)
  {
    depth == MAX_DEPTH ||
    match v
    case Constant(_, _) => true
    case Opaque(_, _) => true
    case Binary(op, lhs, rhs, _, _) => (op == Or && !masked(lhs, rhs)) || SignsKept(masked, lhs, w, depth + 1, env)
    case ZExt(x, _) =>
      var r0 := GetLinear(masked, x, w, 0, 0, depth + 1);
      LooksThrough(r0, false) ==> SignsKept(masked, x, w, depth + 1, env)
    case SExt(x, _) =>
      var r0 := GetLinear(masked, x, w, 0, 0, depth + 1);
      && (LooksThrough(r0, true) ==> SignsKept(masked, x, w, depth + 1, env))
      && (!Counted(r0, v).sign && Eval(x, env).Some? ==> Eval(x, env).value < Pow2(Width(x) - 1))
  }

  // ----- It is the expression -----

  lemma {:induction false} WideningAppend(ds: seq<Extension>, es: seq<Extension>, n: nat)
    requires n > 0 && Widening(ds, n) && Widening(es, FinalWidth(ds, n))
    ensures FinalWidth(ds, n) > 0
    ensures Widening(ds + es, n) && FinalWidth(ds + es, n) == FinalWidth(es, FinalWidth(ds, n))
    ensures forall a: nat :: ExtendAll(ds + es, a, n) == ExtendAll(es, ExtendAll(ds, a, n), FinalWidth(ds, n))
    decreases |ds|
  {
    if ds == [] {
      assert ds + es == es;
    } else {
      assert ds == [ds[0]] + ds[1..] && ds + es == [ds[0]] + (ds[1..] + es);
      WideningAppend(ds[1..], es, ds[0].to);
      ConsFacts(ds[0], ds[1..], n);
      ConsFacts(ds[0], ds[1..] + es, n);
    }
  }

  /** The extensions of the returned value lead from its width to that of the expression. */
  lemma {:induction false} LeafWidths(masked: Masked, v: Value, w: nat, depth: nat)
    requires WellTyped(v)
    ensures var r, ds := GetLinear(masked, v, w, 0, 0, depth), LeafExtensions(masked, v, w, depth);
            Width(r.value) > 0 && Widening(ds, Width(r.value)) && FinalWidth(ds, Width(r.value)) == Width(v)
    decreases v
  {
    hide Signed, Pow2, ExtendAll;
    if depth != MAX_DEPTH {
      match v
      case Constant(_, _) =>
      case Opaque(_, _) =>
      case Binary(_, lhs, _, _, _) => LeafWidths(masked, lhs, w, depth + 1);
      case ZExt(x, _) =>
        LeafWidths(masked, x, w, depth + 1);
        LeafWidthsExtended(masked, v, x, w, depth);
      case SExt(x, _) =>
        LeafWidths(masked, x, w, depth + 1);
        LeafWidthsExtended(masked, v, x, w, depth);
    }
  }

  lemma LeafWidthsExtended(masked: Masked, v: Value, x: Value, w: nat, depth: nat)
    requires WellTyped(v) && depth != MAX_DEPTH && (v.ZExt? || v.SExt?) && v.operand == x
    requires var r, ds := GetLinear(masked, x, w, 0, 0, depth + 1), LeafExtensions(masked, x, w, depth + 1);
             Width(r.value) > 0 && Widening(ds, Width(r.value)) && FinalWidth(ds, Width(r.value)) == Width(x)
    ensures var r, ds := GetLinear(masked, v, w, 0, 0, depth), LeafExtensions(masked, v, w, depth);
            Width(r.value) > 0 && Widening(ds, Width(r.value)) && FinalWidth(ds, Width(r.value)) == Width(v)
  {
    hide Signed, Pow2, ExtendAll;
    var r0 := GetLinear(masked, x, w, 0, 0, depth + 1);
    var e, ds := Counted(r0, v), LeafExtensions(masked, x, w, depth + 1);
    ConsFacts(e, [], Width(x));
    assert [e] + [] == [e];
    WideningAppend(ds, [e], Width(r0.value));
    assert [] + [e] == [e];
  }

  /** The returned value, extended to the width of the expression. */
  function LeafWord(masked: Masked, v: Value, w: nat, depth: nat, env: Env): nat
    requires WellTyped(v)
  {
    LeafWidths(masked, v, w, depth);
    var x := GetLinear(masked, v, w, 0, 0, depth).value;
    if WellTyped(x) && Eval(x, env).Some? then
      ExtendAll(LeafExtensions(masked, v, w, depth), Eval(x, env).value, Width(x))
    else 0
  }

  ghost predicate OnLine(t: Coefficients, x: int, y: int, w: nat) {
    Cong(t.scale * x + t.offset, y, Pow2(w))
  }

  lemma OnItself(x: int, w: nat)
    ensures OnLine(Coefficients(1, 0), x, x, w)
  {
    CongSame(x, Pow2(w));
  }

  /** An operation on words that does not wrap moves the line along. */
  lemma StepOnLine(op: Opcode, t: Coefficients, x: int, a: nat, k: nat, w: nat, nsw: bool, nuw: bool)
    requires w > 0 && OnLine(t, x, a, w) && op != Or && Apply(op, a, k, w, nsw, nuw).Some?
    ensures OnLine(Step(op, t, k), x, Apply(op, a, k, w, nsw, nuw).value, w)
  {
    var P, e := Pow2(w), Exact(op, a, k);
    StepExact(op, t, x, a, k, w);
    CongRem(e, P);
    CongSym(e % P, e, P);
    var t' := Step(op, t, k);
    CongTrans(t'.scale * x + t'.offset, e, e % P, P);
  }

  lemma StepExact(op: Opcode, t: Coefficients, x: int, a: nat, k: nat, w: nat)
    requires OnLine(t, x, a, w)
    ensures OnLine(Step(op, t, k), x, Exact(op, a, k), w)
  {
    var P, y := Pow2(w), t.scale * x + t.offset;
    CongSame(k, P);
    CongAdd(y, a, k, k, P);
    var f := if op == Mul then k else Pow2(k);
    CongScale(y, a, f, P);
    hide Pow2;
    ScaledLine(t.scale, x, t.offset, f);
  }

  lemma ScaledLine(s: int, x: int, o: int, f: int)
    ensures (s * x + o) * f == (s * f) * x + o * f
  {
  }

  /** What an extension is counted as is what it does. */
  lemma CountedRight(masked: Masked, v: Value, w: nat, depth: nat, env: Env)
    requires WellTyped(v) && (v.ZExt? || v.SExt?) && depth != MAX_DEPTH && Eval(v, env).Some?
    requires SignsKept(masked, v, w, depth, env)
    ensures var x := v.operand;
            Eval(v, env).value == ExtendOnce(Counted(GetLinear(masked, x, w, 0, 0, depth + 1), v),
                                             Eval(x, env).value, Width(x))
  {
    var x, a := v.operand, Eval(v.operand, env).value;
    EvalFits(x, env);
    if v.SExt? {
      Extended(a, Width(x), v.width);
    }
  }

  /** Looking through an extension adds it to those of the value. */
  lemma LeafWordExtended(masked: Masked, v: Value, w: nat, depth: nat, env: Env)
    requires WellTyped(v) && (v.ZExt? || v.SExt?) && depth != MAX_DEPTH
    requires var r := GetLinear(masked, v, w, 0, 0, depth); WellTyped(r.value) && Eval(r.value, env).Some?
    ensures var x := v.operand;
            var r0 := GetLinear(masked, x, w, 0, 0, depth + 1);
            var e := Counted(r0, v);
            if LooksThrough(r0, v.SExt?) then
              && GetLinear(masked, v, w, 0, 0, depth).value == r0.value
              && LeafWord(masked, v, w, depth, env) == ExtendOnce(e, LeafWord(masked, x, w, depth + 1, env), Width(x))
            else
              && GetLinear(masked, v, w, 0, 0, depth).value == x
              && LeafWord(masked, v, w, depth, env) == ExtendOnce(e, Eval(x, env).value, Width(x))
  {
    var x := v.operand;
    var r0 := GetLinear(masked, x, w, 0, 0, depth + 1);
    var e := Counted(r0, v);
    hide Signed, Pow2, Eval, ExtendOnce;
    LeafWidths(masked, x, w, depth + 1);
    LeafWidths(masked, v, w, depth);
    assert [e] == [e] + [] && [] + [e] == [e];
    ConsFacts(e, [], Width(x));
    if LooksThrough(r0, v.SExt?) {
      WideningAppend(LeafExtensions(masked, x, w, depth + 1), [e], Width(r0.value));
    }
  }

  /** The true line goes through the expression, extended by es: wherever what the extensions need does not wrap, and a
      sign extension is taken for a zero extension only where that makes no difference. */
  lemma {:induction false} TrueLineIs(masked: Masked, v: Value, w: nat, depth: nat, es: seq<Extension>, env: Env)
    requires WellTyped(v) && MaskSound(masked, env) && Eval(v, env).Some? && SignsKept(masked, v, w, depth, env)
    requires Widening(es, Width(v)) && FinalWidth(es, Width(v)) == w
    requires var r := GetLinear(masked, v, w, 0, 0, depth); (HasSign(es) ==> r.nsw) && (HasZero(es) ==> r.nuw)
    ensures var r := GetLinear(masked, v, w, 0, 0, depth); WellTyped(r.value) && Eval(r.value, env).Some?
    ensures OnLine(TrueLine(masked, v, w, depth, es), ExtendAll(es, LeafWord(masked, v, w, depth, env), Width(v)),
                   ExtendAll(es, Eval(v, env).value, Width(v)), w)
    decreases v
  {
    hide Signed, Pow2, Apply, OnLine, SignsKept, MaskSound, ExtendOnce, BitOr, BitAnd, Step, HasSign, HasZero, LeafWord;
    var a := Eval(v, env).value;
    if depth == MAX_DEPTH || v.Constant? || v.Opaque? || (v.Binary? && v.op == Or && !masked(v.lhs, v.rhs)) {
      LeafIsLine(masked, v, w, depth, es, env);
    } else if v.Binary? {
      NeverNarrower(es, Width(v));
      BinaryFlags(masked, v, w, depth, env);
      TrueLineIs(masked, v.lhs, w, depth + 1, es, env);
      BinaryIsLine(masked, v, w, depth, es, env);
    } else {
      var r0 := GetLinear(masked, v.operand, w, 0, 0, depth + 1);
      var e := Counted(r0, v);
      ExtensionFlags(masked, v, w, depth, env);
      ConsFacts(e, es, Width(v.operand));
      if LooksThrough(r0, v.SExt?) {
        TrueLineIs(masked, v.operand, w, depth + 1, [e] + es, env);
      }
      ExtensionIsLine(masked, v, w, depth, es, env);
    }
  }

  lemma LeafIsLine(masked: Masked, v: Value, w: nat, depth: nat, es: seq<Extension>, env: Env)
    requires WellTyped(v) && Eval(v, env).Some? && Widening(es, Width(v)) && FinalWidth(es, Width(v)) == w
    requires depth == MAX_DEPTH || v.Constant? || v.Opaque? || (v.Binary? && v.op == Or && !masked(v.lhs, v.rhs))
    ensures GetLinear(masked, v, w, 0, 0, depth).value == v
    ensures OnLine(TrueLine(masked, v, w, depth, es), ExtendAll(es, LeafWord(masked, v, w, depth, env), Width(v)),
                   ExtendAll(es, Eval(v, env).value, Width(v)), w)
  {
    var a := ExtendAll(es, Eval(v, env).value, Width(v));
    assert LeafWord(masked, v, w, depth, env) == Eval(v, env).value;
    OnItself(a, w);
    CongSame(a, Pow2(w));
  }

  /** What the flags of an operation's decomposition say about the operation and its operand. */
  lemma BinaryFlags(masked: Masked, v: Value, w: nat, depth: nat, env: Env)
    requires WellTyped(v) && v.Binary? && depth != MAX_DEPTH && (v.op == Or ==> masked(v.lhs, v.rhs))
    requires Eval(v, env).Some? && Width(v) <= w
    ensures Eval(v.lhs, env).Some?
    ensures SignsKept(masked, v, w, depth, env) ==> SignsKept(masked, v.lhs, w, depth + 1, env)
    ensures var r, r0 := GetLinear(masked, v, w, 0, 0, depth), GetLinear(masked, v.lhs, w, 0, 0, depth + 1);
            && r.value == r0.value && (r.nsw ==> r0.nsw) && (r.nuw ==> r0.nuw)
            && (v.op == Shl ==> !r.nsw && !r.nuw)
            && (v.op != Or && v.op != Shl ==> (r.nsw ==> v.nsw) && (r.nuw ==> v.nuw))
  {
  }

  lemma BinaryIsLine(masked: Masked, v: Value, w: nat, depth: nat, es: seq<Extension>, env: Env)
    requires WellTyped(v) && v.Binary? && depth != MAX_DEPTH && (v.op == Or ==> masked(v.lhs, v.rhs))
    requires MaskSound(masked, env) && Eval(v, env).Some? && Eval(v.lhs, env).Some?
    requires Widening(es, Width(v)) && FinalWidth(es, Width(v)) == w && w > 0
    requires var r := GetLinear(masked, v, w, 0, 0, depth);
             && (HasSign(es) ==> r.nsw) && (HasZero(es) ==> r.nuw)
             && r.value == GetLinear(masked, v.lhs, w, 0, 0, depth + 1).value
             && (v.op == Shl ==> !r.nsw && !r.nuw)
             && (v.op != Or && v.op != Shl ==> (r.nsw ==> v.nsw) && (r.nuw ==> v.nuw))
    requires OnLine(TrueLine(masked, v.lhs, w, depth + 1, es),
                    ExtendAll(es, LeafWord(masked, v.lhs, w, depth + 1, env), Width(v)),
                    ExtendAll(es, Eval(v.lhs, env).value, Width(v)), w)
    ensures OnLine(TrueLine(masked, v, w, depth, es), ExtendAll(es, LeafWord(masked, v, w, depth, env), Width(v)),
                   ExtendAll(es, Eval(v, env).value, Width(v)), w)
  {
    hide Signed, Pow2, OnLine, SignsKept, ExtendOnce, BitOr, BitAnd, Step, HasSign, HasZero, Combine;
    var a, c, n := Eval(v.lhs, env).value, v.rhs, Width(v);
    var t, x := TrueLine(masked, v.lhs, w, depth + 1, es), ExtendAll(es, LeafWord(masked, v.lhs, w, depth + 1, env), n);
    assert LeafWord(masked, v, w, depth, env) == LeafWord(masked, v.lhs, w, depth + 1, env);
    EvalFits(v.lhs, env);
    if v.op == Or {
      OrIsAdd(a, c, n);
      hide Apply;
      PushAll(es, Add, a, c, n, true, true);
      StepOnLine(Add, t, x, ExtendAll(es, a, n), ExtendAll(es, c, n), w, true, true);
      OrSteps(t, ExtendAll(es, c, n));
    } else if v.op == Shl {
      NoExtensions(es);
      StepOnLine(Shl, t, x, a, c, w, v.nsw, v.nuw);
    } else {
      hide Apply;
      PushAll(es, v.op, a, c, n, v.nsw, v.nuw);
      StepOnLine(v.op, t, x, ExtendAll(es, a, n), ExtendAll(es, c, n), w, v.nsw, v.nuw);
    }
  }

  lemma OrSteps(t: Coefficients, k: nat)
    ensures Step(Or, t, k) == Step(Add, t, k)
  {
  }

  /** What the flags of an extension's decomposition say about those of what it extends. */
  lemma ExtensionFlags(masked: Masked, v: Value, w: nat, depth: nat, env: Env)
    requires WellTyped(v) && (v.ZExt? || v.SExt?) && depth != MAX_DEPTH && Eval(v, env).Some?
    ensures Eval(v.operand, env).Some?
    ensures var r, r0 := GetLinear(masked, v, w, 0, 0, depth), GetLinear(masked, v.operand, w, 0, 0, depth + 1);
            && r.nsw == r0.nsw && r.nuw == r0.nuw
            && (LooksThrough(r0, v.SExt?) ==>
                && (SignsKept(masked, v, w, depth, env) ==> SignsKept(masked, v.operand, w, depth + 1, env))
                && (Counted(r0, v).sign ==> r0.nsw) && (!Counted(r0, v).sign ==> r0.nuw))
  {
    hide Signed, Pow2;
  }

  lemma ExtensionIsLine(masked: Masked, v: Value, w: nat, depth: nat, es: seq<Extension>, env: Env)
    requires WellTyped(v) && (v.ZExt? || v.SExt?) && depth != MAX_DEPTH && Eval(v, env).Some?
    requires SignsKept(masked, v, w, depth, env) && Widening(es, Width(v)) && FinalWidth(es, Width(v)) == w
    requires var r0 := GetLinear(masked, v.operand, w, 0, 0, depth + 1);
             var e := Counted(r0, v);
             LooksThrough(r0, v.SExt?) ==>
               && Widening([e] + es, Width(v.operand))
               && WellTyped(r0.value) && Eval(r0.value, env).Some?
               && OnLine(TrueLine(masked, v.operand, w, depth + 1, [e] + es),
                         ExtendAll([e] + es, LeafWord(masked, v.operand, w, depth + 1, env), Width(v.operand)),
                         ExtendAll([e] + es, Eval(v.operand, env).value, Width(v.operand)), w)
    ensures var r := GetLinear(masked, v, w, 0, 0, depth); WellTyped(r.value) && Eval(r.value, env).Some?
    ensures OnLine(TrueLine(masked, v, w, depth, es), ExtendAll(es, LeafWord(masked, v, w, depth, env), Width(v)),
                   ExtendAll(es, Eval(v, env).value, Width(v)), w)
  {
    hide Signed, Pow2, OnLine, SignsKept, ExtendOnce, HasSign, HasZero, LeafWord, Widening, ExtendAll;
    var x := v.operand;
    var e := Counted(GetLinear(masked, x, w, 0, 0, depth + 1), v);
    CountedRight(masked, v, w, depth, env);
    LeafWordExtended(masked, v, w, depth, env);
    ConsFacts(e, es, Width(x));
    OnItself(ExtendAll(es, Eval(v, env).value, Width(v)), w);
  }

  // ----- The counts say how the value is extended -----

  /** The bits of zero extension and of sign extension. */
  datatype Counts = Counts(zext: nat, sext: nat)

  function Count(ds: seq<Extension>, n: nat): Counts
    requires Widening(ds, n)
    decreases |ds|
  {
    if ds == [] then Counts(0, 0)
    else
      var last := |ds| - 1;
      PrefixWidening(ds, n);
      var before, e := Count(ds[..last], n), ds[last];
      var wider := e.to - FinalWidth(ds[..last], n);
      if e.sign && before.zext == 0 then before.(sext := before.sext + wider) else before.(zext := before.zext + wider)
  }

  lemma {:induction false} PrefixWidening(ds: seq<Extension>, n: nat)
    requires Widening(ds, n) && ds != []
    ensures var last := |ds| - 1;
            Widening(ds[..last], n) && FinalWidth(ds[..last], n) < ds[last].to == FinalWidth(ds, n)
    decreases |ds|
  {
    var last := |ds| - 1;
    if last > 0 {
      PrefixWidening(ds[1..], ds[0].to);
      assert ds[..last][1..] == ds[1..][..last - 1];
    }
  }

  lemma CountLast(ds: seq<Extension>, e: Extension, n: nat)
    requires n > 0 && Widening(ds, n) && FinalWidth(ds, n) < e.to
    ensures Widening(ds + [e], n)
    ensures var before, wider := Count(ds, n), e.to - FinalWidth(ds, n);
            Count(ds + [e], n) == if e.sign && before.zext == 0 then before.(sext := before.sext + wider)
                                  else before.(zext := before.zext + wider)
    ensures FinalWidth(ds + [e], n) == e.to && FinalWidth(ds, n) > 0
    ensures forall a: nat :: ExtendAll(ds + [e], a, n) == ExtendOnce(e, ExtendAll(ds, a, n), FinalWidth(ds, n))
  {
    hide ExtendOnce;
    NeverNarrower(ds, n);
    ConsFacts(e, [], FinalWidth(ds, n));
    assert [e] + [] == [e];
    WideningAppend(ds, [e], n);
    assert (ds + [e])[..|ds|] == ds;
  }

  /** What the counts mean is what the extensions do. */
  lemma {:induction false} CountsMean(ds: seq<Extension>, a: nat, n: nat)
    requires n > 0 && Widening(ds, n) && a < Pow2(n)
    ensures var c := Count(ds, n);
            && FinalWidth(ds, n) == n + c.zext + c.sext
            && ExtendAll(ds, a, n) == Signed(a, n) % Pow2(n + c.sext) < Pow2(n + c.sext)
    decreases |ds|
  {
    if ds == [] {
      SignedRange(a, n);
      CongRemainders(Signed(a, n), a, Pow2(n));
      RemainderIs(a, Pow2(n), 0, a);
    } else {
      var last := |ds| - 1;
      PrefixWidening(ds, n);
      CountsMean(ds[..last], a, n);
      assert ds == ds[..last] + [ds[last]];
      CountLast(ds[..last], ds[last], n);
      hide Count, ExtendAll, FinalWidth;
      CountsMeanLast(Count(ds[..last], n), ds[last], a, n);
    }
  }

  lemma CountsMeanLast(c: Counts, e: Extension, a: nat, n: nat)
    requires n > 0 && n + c.zext + c.sext < e.to
    ensures var b := Signed(a, n) % Pow2(n + c.sext);
            ExtendOnce(e, b, n + c.zext + c.sext) ==
            if e.sign && c.zext == 0 then Signed(a, n) % Pow2(e.to) else b
  {
    var b := Signed(a, n) % Pow2(n + c.sext);
    if e.sign {
      if c.zext > 0 {
        SignedWider(b, n + c.sext, n + c.zext + c.sext);
        PowMonotone(n + c.sext, e.to);
        RemainderIs(b, Pow2(e.to), 0, b);
      } else if c.sext > 0 {
        SignedKept(a, n, n + c.sext);
      } else {
        SignedRange(a, n);
        SignedOfFitting(Signed(a, n), n);
      }
    }
  }

  /** The decomposition counts so. */
  lemma {:induction false} CountsMatch(masked: Masked, v: Value, w: nat, depth: nat)
    requires WellTyped(v)
    ensures var r, ds := GetLinear(masked, v, w, 0, 0, depth), LeafExtensions(masked, v, w, depth);
            && Width(r.value) > 0 && Widening(ds, Width(r.value)) && FinalWidth(ds, Width(r.value)) == Width(v)
            && Count(ds, Width(r.value)) == Counts(r.zext, r.sext)
    decreases v
  {
    hide Signed, Pow2, Combine;
    LeafWidths(masked, v, w, depth);
    if depth != MAX_DEPTH {
      match v
      case Constant(_, _) =>
      case Opaque(_, _) =>
      case Binary(op, lhs, rhs, _, _) =>
        CountsMatch(masked, lhs, w, depth + 1);
        CombineKeepsCounts(op, GetLinear(masked, lhs, w, 0, 0, depth + 1), rhs, w);
      case ZExt(x, _) =>
        CountsMatch(masked, x, w, depth + 1);
        CountsMatchExtended(masked, v, w, depth);
      case SExt(x, _) =>
        CountsMatch(masked, x, w, depth + 1);
        CountsMatchExtended(masked, v, w, depth);
    }
  }

  lemma CombineKeepsCounts(op: Opcode, r: Linear, c: nat, w: nat)
    ensures var r' := Combine(op, r, c, w); r'.value == r.value && r'.zext == r.zext && r'.sext == r.sext
  {
  }

  lemma NothingCounted(n: nat)
    ensures Widening([], n) && FinalWidth([], n) == n && Count([], n) == Counts(0, 0)
  {
  }

  lemma ExtensionFields(masked: Masked, v: Value, w: nat, depth: nat)
    requires WellTyped(v) && (v.ZExt? || v.SExt?) && depth != MAX_DEPTH
    ensures var r, r0 := GetLinear(masked, v, w, 0, 0, depth), GetLinear(masked, v.operand, w, 0, 0, depth + 1);
            var e, through, wider := Counted(r0, v), LooksThrough(r0, v.SExt?), v.width - Width(v.operand);
            var c := if through then Counts(r0.zext, r0.sext) else Counts(0, 0);
            && e.to == v.width
            && r.value == (if through then r0.value else v.operand)
            && LeafExtensions(masked, v, w, depth)
               == (if through then LeafExtensions(masked, v.operand, w, depth + 1) else []) + [e]
            && Counts(r.zext, r.sext) == if e.sign && c.zext == 0 then c.(sext := c.sext + wider)
                                         else c.(zext := c.zext + wider)
  {
    hide Signed, Pow2;
  }

  lemma CountsMatchExtended(masked: Masked, v: Value, w: nat, depth: nat)
    requires WellTyped(v) && (v.ZExt? || v.SExt?) && depth != MAX_DEPTH
    requires var r, ds := GetLinear(masked, v.operand, w, 0, 0, depth + 1),
             LeafExtensions(masked, v.operand, w, depth + 1);
             && Width(r.value) > 0 && Widening(ds, Width(r.value)) && FinalWidth(ds, Width(r.value)) == Width(v.operand)
             && Count(ds, Width(r.value)) == Counts(r.zext, r.sext)
    requires var r, ds := GetLinear(masked, v, w, 0, 0, depth), LeafExtensions(masked, v, w, depth);
             Width(r.value) > 0 && Widening(ds, Width(r.value)) && FinalWidth(ds, Width(r.value)) == Width(v)
    ensures var r, ds := GetLinear(masked, v, w, 0, 0, depth), LeafExtensions(masked, v, w, depth);
            Count(ds, Width(r.value)) == Counts(r.zext, r.sext)
  {
    hide Signed, Pow2, Count, GetLinear, LeafExtensions, LooksThrough, Counted, Widening, FinalWidth;
    ExtensionFields(masked, v, w, depth);
    var x := v.operand;
    var r0 := GetLinear(masked, x, w, 0, 0, depth + 1);
    var e := Counted(r0, v);
    NothingCounted(Width(x));
    if LooksThrough(r0, v.SExt?) {
      CountLast(LeafExtensions(masked, x, w, depth + 1), e, Width(r0.value));
    } else {
      assert [] + [e] == [e];
      CountLast([], e, Width(x));
    }
  }

  // ----- Exactly when the decomposition is right -----

  function Line0(masked: Masked, v: Value): Coefficients
    requires WellTyped(v)
  {
    TrueLine(masked, v, Width(v), 0, [])
  }

  function Decomposition(masked: Masked, v: Value): Linear
    requires WellTyped(v)
  {
    GetLinear(masked, v, Width(v), 0, 0, 0)
  }

  /** The value, extended as the decomposition counts. */
  ghost function ExtendedValue(masked: Masked, v: Value, env: Env): int
    requires WellTyped(v)
  {
    var r := Decomposition(masked, v);
    LeafWidths(masked, v, Width(v), 0);
    if WellTyped(r.value) && Eval(r.value, env).Some? then
      Extend(Eval(r.value, env).value, Width(r.value), r.zext, r.sext)
    else 0
  }

  /** Scale * extended value + offset, in words as wide as the expression, is the expression. */
  ghost predicate ReadsRight(masked: Masked, v: Value, env: Env)
    requires WellTyped(v) && Eval(v, env).Some?
  {
    var r := Decomposition(masked, v);
    Cong(r.scale * ExtendedValue(masked, v, env) + r.offset, Eval(v, env).value, Pow2(Width(v)))
  }

  /** The counted extensions of the value are those of the leaf. */
  lemma ExtendedLeaf(masked: Masked, v: Value, env: Env)
    requires WellTyped(v)
    requires var x := Decomposition(masked, v).value; WellTyped(x) && Eval(x, env).Some?
    ensures Cong(LeafWord(masked, v, Width(v), 0, env), ExtendedValue(masked, v, env), Pow2(Width(v)))
  {
    hide Signed, Pow2, Count, ExtendAll, FinalWidth, Widening, Eval, GetLinear, LeafExtensions;
    var r, ds := Decomposition(masked, v), LeafExtensions(masked, v, Width(v), 0);
    var a, n := Eval(r.value, env).value, Width(r.value);
    EvalFits(r.value, env);
    CountsMatch(masked, v, Width(v), 0);
    CountsMean(ds, a, n);
    if r.zext > 0 {
      CongSame(Signed(a, n) % Pow2(n + r.sext), Pow2(Width(v)));
    } else {
      CongRem(Signed(a, n), Pow2(Width(v)));
    }
  }

  /** The true line, read with the extensions as counted, is the expression. */
  lemma TrueLineReadsRight(masked: Masked, v: Value, env: Env)
    requires WellTyped(v) && MaskSound(masked, env) && Eval(v, env).Some? && SignsKept(masked, v, Width(v), 0, env)
    ensures var t := Line0(masked, v);
            Cong(t.scale * ExtendedValue(masked, v, env) + t.offset, Eval(v, env).value, Pow2(Width(v)))
  {
    hide Signed, Pow2, SignsKept, MaskSound, ExtendedValue, LeafWord, TrueLine;
    var t, x, y, P := Line0(masked, v), LeafWord(masked, v, Width(v), 0, env), ExtendedValue(masked, v, env),
      Pow2(Width(v));
    TrueLineIs(masked, v, Width(v), 0, [], env);
    ExtendedLeaf(masked, v, env);
    CongSym(x, y, P);
    CongScale(y, x, t.scale, P);
    Swap(y, t.scale);
    Swap(x, t.scale);
    CongSame(t.offset, P);
    CongAdd(t.scale * y, t.scale * x, t.offset, t.offset, P);
    CongTrans(t.scale * y + t.offset, t.scale * x + t.offset, Eval(v, env).value, P);
  }

  /** What the decomposition gets wrong: nothing but the constants, by these amounts. So it is right exactly when they
      come to nothing; and where the scale is right, exactly when the offset is, in every environment or in none. */
  lemma ReadsRightIff(masked: Masked, v: Value, env: Env)
    requires WellTyped(v) && MaskSound(masked, env) && Eval(v, env).Some? && SignsKept(masked, v, Width(v), 0, env)
    ensures var r, t, P := Decomposition(masked, v), Line0(masked, v), Pow2(Width(v));
            && (ReadsRight(masked, v, env) <==>
                Cong((r.scale - t.scale) * ExtendedValue(masked, v, env), t.offset - r.offset, P))
            && (Cong(r.scale, t.scale, P) ==> (ReadsRight(masked, v, env) <==> Cong(r.offset, t.offset, P)))
  {
    hide Signed, Pow2, SignsKept, MaskSound, ExtendedValue, TrueLine, GetLinear, Eval, WellTyped, Line0,
         Decomposition, Cong;
    TrueLineReadsRight(masked, v, env);
    var r, t := Decomposition(masked, v), Line0(masked, v);
    LinesAgreeIff(r.scale, r.offset, t.scale, t.offset, ExtendedValue(masked, v, env), Eval(v, env).value,
                  Pow2(Width(v)));
  }

  lemma LinesAgreeIff(s: int, o: int, s': int, o': int, x: int, y: int, P: nat)
    requires P > 0 && Cong(s' * x + o', y, P)
    ensures Cong(s * x + o, y, P) <==> Cong((s - s') * x, o' - o, P)
    ensures Cong(s, s', P) ==> (Cong(s * x + o, y, P) <==> Cong(o, o', P))
  {
    assert (s - s') * x == s * x - s' * x;
    CongSym(s' * x + o', y, P);
    if Cong(s * x + o, y, P) {
      CongTrans(s * x + o, y, s' * x + o', P);
      CongSame(s' * x + o, P);
      CongAdd(s * x + o, s' * x + o', s' * x + o, s' * x + o, P);
    }
    if Cong((s - s') * x, o' - o, P) {
      CongSame(s' * x + o, P);
      CongAdd((s - s') * x, o' - o, s' * x + o, s' * x + o, P);
      CongTrans(s * x + o, s' * x + o', y, P);
    }
    if Cong(s, s', P) {
      CongScale(s, s', x, P);
      CongSame(s' * x, P);
      CongAdd(s * x, s' * x, s' * x, s' * x, P);
      CongSym(s * x - s' * x, 0, P);
      if Cong((s - s') * x, o' - o, P) {
        CongTrans(0, (s - s') * x, o' - o, P);
        CongSame(o, P);
        CongAdd(0, o' - o, o, o, P);
      }
      if Cong(o, o', P) {
        CongSym(0, (s - s') * x, P);
        CongSame(o, P);
        CongAdd(o, o', o, o, P);
        CongTrans((s - s') * x, 0, o' - o, P);
      }
    }
  }
}
