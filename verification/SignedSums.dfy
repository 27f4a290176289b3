/** When the decomposition is right, in terms of the constants an expression is written with; and when the difference of
    two decompositions is right although neither need be. */
module SignedSums {
  import opened Basics
  import opened Bits
  import opened LinearExpr
  import opened ExactLinear

  // ----- Sums -----

  /** Sign extensions, and sums with constants. */
  predicate Additive(v: Value) {
    match v
    case Constant(_, _) => true
    case Opaque(_, _) => true
    case Binary(op, lhs, _, _, _) => (op == Or || op == Add || op == Sub) && Additive(lhs)
    case ZExt(_, _) => false
    case SExt(x, _) => Additive(x)
  }

  /** What the constants add up to that the decomposition looks at, read as signed numbers, without wrapping. */
  function SignedSum(masked: Masked, v: Value, w: nat, depth: nat): int
    requires WellTyped(v)
  {
    if depth == MAX_DEPTH then 0
    else
      match v
      case Constant(bits, width) => Signed(bits, width)
      case Opaque(_, _) => 0
      case Binary(op, lhs, rhs, _, _) =>
        if op == Or && !masked(lhs, rhs) then 0
        else
          var c := Signed(rhs, Width(lhs));
          SignedSum(masked, lhs, w, depth + 1) + if op == Sub then 0 - c else c
      case ZExt(_, _) => 0
      case SExt(x, _) => if GetLinear(masked, x, w, 0, 0, depth + 1).nsw then SignedSum(masked, x, w, depth + 1) else 0
  }

  /** Below every sign extension that is looked through, the constants add up to something that fits what is
      extended. */
  predicate AllFit(masked: Masked, v: Value, w: nat, depth: nat)
    requires WellTyped(v)
  {
    depth == MAX_DEPTH ||
    match v
    case Constant(_, _) => true
    case Opaque(_, _) => true
    case Binary(op, lhs, rhs, _, _) => (op == Or && !masked(lhs, rhs)) || AllFit(masked, lhs, w, depth + 1)
    case ZExt(_, _) => true
    case SExt(x, _) =>
      GetLinear(masked, x, w, 0, 0, depth + 1).nsw ==>
        AllFit(masked, x, w, depth + 1) && FitsSigned(SignedSum(masked, x, w, depth + 1), Width(x))
  }

  /** The recorded offset is the sum, in the low bits, exactly when the sums fit; and where nothing wraps, the value
      differs from the expression by the sum. */
  ghost predicate SumState(masked: Masked, v: Value, w: nat, depth: nat, a: nat)
    requires WellTyped(v)
  {
    var r, s := GetLinear(masked, v, w, 0, 0, depth), SignedSum(masked, v, w, depth);
    && r.zext == 0
    && (Cong(r.offset, s, Pow2(Width(v))) <==> AllFit(masked, v, w, depth))
    && (r.nsw ==> FitsSigned(Signed(a, Width(v)) - s, Width(v)))
  }

  lemma {:induction false} SumsFit(masked: Masked, v: Value, w: nat, depth: nat, env: Env)
    requires WellTyped(v) && Width(v) <= w && Additive(v) && MaskSound(masked, env) && Eval(v, env).Some?
    ensures SumState(masked, v, w, depth, Eval(v, env).value)
    decreases v
  {
    hide SumState, Signed, Pow2, Apply, BitOr, BitAnd, MaskSound;
    if depth == MAX_DEPTH || v.Constant? || v.Opaque? || (v.Binary? && v.op == Or && !masked(v.lhs, v.rhs)) {
      LeafSum(masked, v, w, depth, Eval(v, env).value);
    } else if v.Binary? {
      SumsFit(masked, v.lhs, w, depth + 1, env);
      BinarySum(masked, v, w, depth, env);
    } else {
      SumsFit(masked, v.operand, w, depth + 1, env);
      ExtendedSum(masked, v, w, depth, env);
    }
  }

  lemma LeafSum(masked: Masked, v: Value, w: nat, depth: nat, a: nat)
    requires WellTyped(v) && Width(v) <= w && (v.Constant? ==> a == v.bits)
    requires depth == MAX_DEPTH || v.Constant? || v.Opaque? || (v.Binary? && v.op == Or && !masked(v.lhs, v.rhs))
    ensures SumState(masked, v, w, depth, a)
  {
    var n := Width(v);
    SignedRange(a, n);
    CongSame(0, Pow2(n));
    if depth != MAX_DEPTH && v.Constant? {
      RemWeaken(v.bits, n, w);
      CongSym(Signed(a, n), a, Pow2(n));
      CongTrans(v.bits % Pow2(w), v.bits, Signed(a, n), Pow2(n));
    }
  }

  lemma BinarySum(masked: Masked, v: Value, w: nat, depth: nat, env: Env)
    requires WellTyped(v) && Width(v) <= w && v.Binary? && (v.op == Or || v.op == Add || v.op == Sub)
             && depth != MAX_DEPTH
    requires v.op == Or ==> masked(v.lhs, v.rhs)
    requires MaskSound(masked, env) && Eval(v, env).Some? && Eval(v.lhs, env).Some?
    requires SumState(masked, v.lhs, w, depth + 1, Eval(v.lhs, env).value)
    ensures SumState(masked, v, w, depth, Eval(v, env).value)
  {
    hide GetLinear, SignedSum, AllFit, Eval, Signed, Pow2, MaskSound;
    var n: nat, c: int := Width(v), v.rhs;
    var r0, s0 := GetLinear(masked, v.lhs, w, 0, 0, depth + 1), SignedSum(masked, v.lhs, w, depth + 1);
    var d: int := if v.op == Sub then 0 - c else c;
    var k: int := if v.op == Sub then 0 - Signed(c, n) else Signed(c, n);
    var r := GetLinear(masked, v, w, 0, 0, depth);
    BinaryOffset(masked, v, w, depth);
    SumOfBinary(masked, v, w, depth);
    RemWeaken(r0.offset + d, n, w);
    SignedRange(c, n);
    BothMove(r0.offset, s0, d, k, r.offset, c, Signed(c, n), Pow2(n));
    if r.nsw {
      SignedSumOf(masked, v, env);
    }
  }

  lemma BinaryOffset(masked: Masked, v: Value, w: nat, depth: nat)
    requires WellTyped(v) && v.Binary? && (v.op == Or || v.op == Add || v.op == Sub) && depth != MAX_DEPTH
    requires v.op == Or ==> masked(v.lhs, v.rhs)
    ensures var r, r0 := GetLinear(masked, v, w, 0, 0, depth), GetLinear(masked, v.lhs, w, 0, 0, depth + 1);
            && r.offset == (r0.offset + if v.op == Sub then 0 - v.rhs else v.rhs) % Pow2(w)
            && r.zext == r0.zext && (r.nsw ==> r0.nsw && (v.op != Or ==> v.nsw))
  {
  }

  lemma SumOfBinary(masked: Masked, v: Value, w: nat, depth: nat)
    requires WellTyped(v) && v.Binary? && depth != MAX_DEPTH && (v.op == Or ==> masked(v.lhs, v.rhs))
    ensures var c := Signed(v.rhs, Width(v.lhs));
            SignedSum(masked, v, w, depth) == SignedSum(masked, v.lhs, w, depth + 1) + if v.op == Sub then 0 - c else c
    ensures AllFit(masked, v, w, depth) <==> AllFit(masked, v.lhs, w, depth + 1)
  {
  }

  /** Adding congruent numbers changes nothing about a congruence. */
  lemma BothMove(o: int, s: int, d: int, k: int, o': int, c: int, c': int, P: nat)
    requires P > 0 && Cong(o', o + d, P) && Cong(c', c, P) && ((d == c && k == c') || (d == 0 - c && k == 0 - c'))
    ensures Cong(o', s + k, P) <==> Cong(o, s, P)
  {
    CongSame(0, P);
    CongAdd(0, 0, c', c, P);
    assert Cong(k, d, P);
    CongSym(k, d, P);
    if Cong(o, s, P) {
      CongAdd(o, s, d, k, P);
      CongTrans(o', o + d, s + k, P);
    }
    if Cong(o', s + k, P) {
      CongSym(o', o + d, P);
      CongTrans(o + d, o', s + k, P);
      CongAdd(o + d, s + k, d, k, P);
    }
  }

  /** Where it does not wrap, the signed value moves by the signed constant. */
  lemma SignedSumOf(masked: Masked, v: Value, env: Env)
    requires WellTyped(v) && v.Binary? && (v.op == Or || v.op == Add || v.op == Sub)
    requires if v.op == Or then MaskSound(masked, env) && masked(v.lhs, v.rhs) else v.nsw
    requires Eval(v, env).Some? && Eval(v.lhs, env).Some?
    ensures var n, c := Width(v), Signed(v.rhs, Width(v));
            Signed(Eval(v, env).value, n) == Signed(Eval(v.lhs, env).value, n) + if v.op == Sub then 0 - c else c
  {
    var n, a, c := Width(v), Eval(v.lhs, env).value, v.rhs;
    EvalFits(v.lhs, env);
    hide BitOr, BitAnd;
    if v.op == Or {
      OrIsAdd(a, c, n);
    }
    var op := if v.op == Or then Add else v.op;
    var e := ExactSigned(op, Signed(a, n), c, n);
    ExactIsSigned(op, a, c, n);
    CongRemainders(Exact(op, a, c), e, Pow2(n));
    SignedOfFitting(e, n);
  }

  lemma ExtendedSum(masked: Masked, v: Value, w: nat, depth: nat, env: Env)
    requires WellTyped(v) && Width(v) <= w && v.SExt? && depth != MAX_DEPTH
    requires Eval(v, env).Some? && Eval(v.operand, env).Some?
    requires SumState(masked, v.operand, w, depth + 1, Eval(v.operand, env).value)
    ensures SumState(masked, v, w, depth, Eval(v, env).value)
  {
    var x, n, a := v.operand, Width(v.operand), Eval(v.operand, env).value;
    var r0, s := GetLinear(masked, x, w, 0, 0, depth + 1), SignedSum(masked, x, w, depth + 1);
    var r := GetLinear(masked, v, w, 0, 0, depth);
    var W := v.width;
    SignedKept(a, n, W);
    SignedRange(a, n);
    hide Signed, Pow2, Eval;
    if r0.nsw {
      var o := Signed(r0.offset, n);
      assert r.offset == (o % Pow2(W)) % Pow2(w);
      FitsWider(Signed(a, n) - s, n, W);
      OffsetExtended(r0.offset, s, Signed(a, n), n, W, w);
    } else {
      CongSame(0, Pow2(W));
      FitsWider(Signed(a, n), n, W);
    }
  }

  /** The extended offset is the sum exactly when the offset was, and the sum fits. */
  lemma OffsetExtended(o: nat, s: int, a: int, n: nat, W: nat, w: nat)
    requires 0 < n < W <= w && FitsSigned(a, n) && FitsSigned(a - s, n)
    ensures Cong((Signed(o, n) % Pow2(W)) % Pow2(w), s, Pow2(W)) <==> Cong(o, s, Pow2(n)) && FitsSigned(s, n)
  {
    var t, P, Q := Signed(o, n), Pow2(n), Pow2(W);
    var o' := (t % Q) % Pow2(w);
    RemWeaken(t % Q, W, w);
    CongRem(t, Q);
    CongTrans(o', t % Q, t, Q);
    CongSym(o', t, Q);
    SignedRange(o, n);
    CongSym(t, o, P);
    PowMonotone(n, W - 1);
    assert Pow2(n) == 2 * Pow2(n - 1) && Pow2(W) == 2 * Pow2(W - 1);
    if Cong(o', s, Q) {
      CongTrans(t, o', s, Q);
      CongClose(t, s, Q);
      CongSame(s, P);
    }
    if Cong(o, s, P) && FitsSigned(s, n) {
      CongTrans(t, o, s, P);
      CongClose(t, s, P);
    }
  }

  // ----- The true line of a sum -----

  predicate AllSigns(es: seq<Extension>) {
    forall e | e in es :: e.sign
  }

  lemma {:induction false} SignsExtend(es: seq<Extension>, a: nat, n: nat)
    requires n > 0 && Widening(es, n) && AllSigns(es)
    ensures FinalWidth(es, n) >= n && Cong(ExtendAll(es, a, n), Signed(a, n), Pow2(FinalWidth(es, n)))
    decreases |es|
  {
    NeverNarrower(es, n);
    if es == [] {
      SignedRange(a, n);
      CongSym(Signed(a, n), a, Pow2(n));
    } else {
      assert es[0] in es && forall e | e in es[1..] :: e in es;
      SignsExtend(es[1..], ExtendOnce(es[0], a, n), es[0].to);
      SignedKept(a, n, es[0].to);
    }
  }

  lemma {:induction false} SumLine(masked: Masked, v: Value, w: nat, depth: nat, es: seq<Extension>)
    requires WellTyped(v) && Additive(v) && Widening(es, Width(v)) && FinalWidth(es, Width(v)) == w && AllSigns(es)
    ensures var r, t := GetLinear(masked, v, w, 0, 0, depth), TrueLine(masked, v, w, depth, es);
            && r.zext == 0 && r.scale == t.scale
            && Cong(t.offset, SignedSum(masked, v, w, depth), Pow2(w))
    decreases v
  {
    hide Signed, Pow2, ExtendAll, FinalWidth;
    CongSame(0, Pow2(w));
    if depth != MAX_DEPTH {
      match v
      case Constant(bits, width) => SignsExtend(es, bits, width);
      case Opaque(_, _) =>
      case Binary(op, lhs, rhs, _, _) =>
        if op != Or || masked(lhs, rhs) {
          SumLine(masked, lhs, w, depth + 1, es);
          SignsExtend(es, rhs, Width(lhs));
          var k, t := ExtendAll(es, rhs, Width(lhs)), TrueLine(masked, lhs, w, depth + 1, es);
          CongAdd(t.offset, SignedSum(masked, lhs, w, depth + 1), k, Signed(rhs, Width(lhs)), Pow2(w));
        }
      case SExt(x, width) =>
        NoZeroCounted(masked, x, w, depth + 1);
        if GetLinear(masked, x, w, 0, 0, depth + 1).nsw {
          var e := Extension(true, width);
          ConsFacts(e, es, Width(x));
          SumLine(masked, x, w, depth + 1, [e] + es);
        }
    }
  }

  lemma {:induction false} NoZeroCounted(masked: Masked, v: Value, w: nat, depth: nat)
    requires WellTyped(v) && Additive(v)
    ensures GetLinear(masked, v, w, 0, 0, depth).zext == 0
    decreases v
  {
    hide Signed, Pow2;
    if depth != MAX_DEPTH {
      match v
      case Constant(_, _) =>
      case Opaque(_, _) =>
      case Binary(_, lhs, _, _, _) => NoZeroCounted(masked, lhs, w, depth + 1);
      case SExt(x, _) => NoZeroCounted(masked, x, w, depth + 1);
    }
  }

  lemma {:induction false} SignsOfSums(masked: Masked, v: Value, w: nat, depth: nat, env: Env)
    requires WellTyped(v) && Additive(v)
    ensures SignsKept(masked, v, w, depth, env)
    decreases v
  {
    hide Signed, Pow2, Eval;
    if depth != MAX_DEPTH {
      match v
      case Constant(_, _) =>
      case Opaque(_, _) =>
      case Binary(_, lhs, _, _, _) => SignsOfSums(masked, lhs, w, depth + 1, env);
      case SExt(x, _) =>
        NoZeroCounted(masked, x, w, depth + 1);
        SignsOfSums(masked, x, w, depth + 1, env);
    }
  }

  /** For sign extensions of sums of sign extensions of sums, and so on, the decomposition is right exactly when below
      every sign extension that is looked through the signed constants add up to something that fits what is extended:
      in every environment in which nothing wraps that must not, or in none. */
  lemma RightIffSumsFit(masked: Masked, v: Value, env: Env)
    requires WellTyped(v) && Additive(v) && MaskSound(masked, env) && Eval(v, env).Some?
    ensures ReadsRight(masked, v, env) <==> AllFit(masked, v, Width(v), 0)
  {
    var w := Width(v);
    SumsFit(masked, v, w, 0, env);
    SumLine(masked, v, w, 0, []);
    SignsOfSums(masked, v, w, 0, env);
    ReadsRightIff(masked, v, env);
    hide GetLinear, TrueLine, SignedSum, AllFit, ReadsRight, Eval, SignsKept, MaskSound, Pow2, Signed;
    var r, t, s, P := Decomposition(masked, v), Line0(masked, v), SignedSum(masked, v, w, 0), Pow2(w);
    CongSame(r.scale, P);
    if Cong(r.offset, s, P) {
      CongSym(t.offset, s, P);
      CongTrans(r.offset, s, t.offset, P);
    }
    if Cong(r.offset, t.offset, P) {
      CongTrans(r.offset, t.offset, s, P);
    }
  }

  /** Where the sums fit, the recorded offset is that of the true line. */
  lemma SumOffsets(masked: Masked, v: Value, env: Env)
    requires WellTyped(v) && Additive(v) && MaskSound(masked, env) && Eval(v, env).Some?
             && AllFit(masked, v, Width(v), 0)
    ensures Decomposition(masked, v).scale == Line0(masked, v).scale && SignsKept(masked, v, Width(v), 0, env)
    ensures Cong(Decomposition(masked, v).offset, Line0(masked, v).offset, Pow2(Width(v)))
  {
    var w := Width(v);
    SumsFit(masked, v, w, 0, env);
    SumLine(masked, v, w, 0, []);
    SignsOfSums(masked, v, w, 0, env);
    hide GetLinear, TrueLine, SignedSum, AllFit, Eval, SignsKept, MaskSound, Pow2;
    var t, s := Line0(masked, v), SignedSum(masked, v, w, 0);
    CongSym(t.offset, s, Pow2(w));
    CongTrans(Decomposition(masked, v).offset, s, t.offset, Pow2(w));
  }

  // ----- Products -----

  function SignedProduct(id: nat, n: nat, c: nat, nuw: bool, width: nat): Value {
    SExt(Binary(Mul, Opaque(id, n), c, true, nuw), width)
  }

  /** For the sign extension of a product with a constant, the decomposition is right exactly when the constant's sign
      bit is not set, or the variable is a multiple of what the extension adds. */
  lemma RightIffFactorFits(masked: Masked, id: nat, n: nat, c: nat, nuw: bool, width: nat, env: Env)
    requires 0 < n < width && c < Pow2(n) && WellTyped(SignedProduct(id, n, c, nuw, width))
    requires MaskSound(masked, env) && Eval(SignedProduct(id, n, c, nuw, width), env).Some?
    ensures env(id).Some?
    ensures ReadsRight(masked, SignedProduct(id, n, c, nuw, width), env) <==>
            c < Pow2(n - 1) || Cong(Signed(env(id).value, n), 0, Pow2(width - n))
  {
    hide GetLinear, TrueLine, ReadsRight, Eval, SignsKept, MaskSound, Signed, ExtendedValue, Pow2, Decomposition,
         Line0, Cong, WellTyped, SignedProduct;
    var v := SignedProduct(id, n, c, nuw, width);
    ProductDecomposes(masked, id, n, c, nuw, width, env);
    ReadsRightIff(masked, v, env);
    FactorKeptIff(Signed(env(id).value, n), c, n, width);
  }

  lemma FactorKeptIff(x: int, c: nat, n: nat, width: nat)
    requires 0 < n < width && c < Pow2(n)
    ensures Cong((c - Signed(c, n) % Pow2(width)) * x, 0, Pow2(width)) <==>
            c < Pow2(n - 1) || Cong(x, 0, Pow2(width - n))
  {
    Extended(c, n, width);
    PowAdd(n, width - n);
    hide Signed, Pow2;
    FactorKept(x, c, Signed(c, n) % Pow2(width), Pow2(n), Pow2(width - n), Pow2(width));
  }

  lemma FactorKept(x: int, c: nat, c': nat, P: nat, R: nat, Q: nat)
    requires P > 0 && R > 0 && Q == P * R && (c' == c || c' == c + (Q - P))
    ensures c' == c ==> Cong((c - c') * x, 0, Q)
    ensures c' == c + (Q - P) ==> (Cong((c - c') * x, 0, Q) <==> Cong(x, 0, R))
  {
    hide Cong;
    if c' == c {
      assert (c - c') * x == 0;
      CongSame(0, Q);
    }
    if c' == c + (Q - P) {
      assert c - c' == P - Q;
      FactorLost(x, P, R, Q);
    }
  }

  lemma ProductDecomposes(masked: Masked, id: nat, n: nat, c: nat, nuw: bool, width: nat, env: Env)
    requires 0 < n < width && c < Pow2(n) && WellTyped(SignedProduct(id, n, c, nuw, width))
    requires Eval(SignedProduct(id, n, c, nuw, width), env).Some?
    ensures var v := SignedProduct(id, n, c, nuw, width);
            && env(id).Some? && SignsKept(masked, v, width, 0, env) && Width(v) == width
            && Decomposition(masked, v).scale == c && Decomposition(masked, v).offset == 0
            && Line0(masked, v) == Coefficients(Signed(c, n) % Pow2(width), 0)
            && ExtendedValue(masked, v, env) == Signed(env(id).value, n)
  {
    hide Signed, Pow2, Apply, TrueLine, Line0, GetLinear, ExtendedValue, SignsKept;
    ProductInside(masked, id, n, c, nuw, width);
    ProductLine(masked, id, n, c, nuw, width);
    ProductValue(masked, id, n, c, nuw, width, env);
  }

  lemma ProductValue(masked: Masked, id: nat, n: nat, c: nat, nuw: bool, width: nat, env: Env)
    requires 0 < n < width && c < Pow2(n) && WellTyped(SignedProduct(id, n, c, nuw, width))
    requires Eval(SignedProduct(id, n, c, nuw, width), env).Some?
    ensures var v := SignedProduct(id, n, c, nuw, width);
            && env(id).Some? && SignsKept(masked, v, width, 0, env)
            && ExtendedValue(masked, v, env) == Signed(env(id).value, n)
  {
    hide Signed, Pow2, Apply, GetLinear;
    ProductInside(masked, id, n, c, nuw, width);
    SignsOfProduct(masked, id, n, c, nuw, width, env);
    var v, x := SignedProduct(id, n, c, nuw, width), Opaque(id, n);
    assert Eval(v.operand, env).Some? && Eval(x, env).Some?;
    SignedOfPattern(env(id).value, n);
  }

  lemma SignsOfProduct(masked: Masked, id: nat, n: nat, c: nat, nuw: bool, width: nat, env: Env)
    requires 0 < n < width && c < Pow2(n) && WellTyped(SignedProduct(id, n, c, nuw, width))
    ensures SignsKept(masked, SignedProduct(id, n, c, nuw, width), width, 0, env)
  {
    hide Signed, Pow2, Apply, GetLinear, Eval;
    ProductInside(masked, id, n, c, nuw, width);
    var v, x := SignedProduct(id, n, c, nuw, width), Opaque(id, n);
    assert SignsKept(masked, x, width, 2, env) && SignsKept(masked, v.operand, width, 1, env);
  }

  lemma ProductInside(masked: Masked, id: nat, n: nat, c: nat, nuw: bool, width: nat)
    requires 0 < n < width && c < Pow2(n) && WellTyped(SignedProduct(id, n, c, nuw, width))
    ensures var v := SignedProduct(id, n, c, nuw, width);
            && GetLinear(masked, v.operand, width, 0, 0, 1) == Linear(Opaque(id, n), c, 0, 0, 0, true, nuw)
            && GetLinear(masked, v, width, 0, 0, 0) == Linear(Opaque(id, n), c, 0, 0, width - n, true, nuw)
  {
    var v, x := SignedProduct(id, n, c, nuw, width), Opaque(id, n);
    PowMonotone(n, width);
    RemainderIs(c, Pow2(width), 0, c);
    RemainderIs(0, Pow2(width), 0, 0);
    RemainderIs(0, Pow2(n), 0, 0);
    assert Signed(0, n) == 0;
    hide Pow2, Signed;
    assert GetLinear(masked, x, width, 0, 0, 2) == Undecomposed(x, 0, 0);
    assert GetLinear(masked, v.operand, width, 0, 0, 1) == Linear(x, c, 0, 0, 0, true, nuw);
  }

  lemma ProductLine(masked: Masked, id: nat, n: nat, c: nat, nuw: bool, width: nat)
    requires 0 < n < width && c < Pow2(n) && WellTyped(SignedProduct(id, n, c, nuw, width))
    ensures Line0(masked, SignedProduct(id, n, c, nuw, width)) == Coefficients(Signed(c, n) % Pow2(width), 0)
  {
    hide Pow2, Signed, GetLinear, ExtendAll;
    ProductInside(masked, id, n, c, nuw, width);
    var v, x, e := SignedProduct(id, n, c, nuw, width), Opaque(id, n), Extension(true, width);
    ConsFacts(e, [], n);
    assert [e] + [] == [e];
    ExtendedByOne(e, c, n);
    assert TrueLine(masked, x, width, 2, [e]) == Coefficients(1, 0);
    assert TrueLine(masked, v.operand, width, 1, [e]) == Step(Mul, Coefficients(1, 0), ExtendAll([e], c, n));
    assert Inner(masked, v.operand, width, 0, e, []) == TrueLine(masked, v.operand, width, 1, [e]);
    assert Counted(GetLinear(masked, v.operand, width, 0, 0, 1), v) == e;
  }

  lemma ExtendedByOne(e: Extension, a: nat, n: nat)
    requires 0 < n < e.to
    ensures Widening([e], n) && ExtendAll([e], a, n) == ExtendOnce(e, a, n)
  {
    hide ExtendOnce;
    ConsFacts(e, [], n);
    assert [e] + [] == [e];
  }

  lemma SignedOfPattern(u: nat, n: nat)
    requires n > 0
    ensures Signed(u % Pow2(n), n) == Signed(u, n)
  {
    var P, r := Pow2(n), u % Pow2(n);
    hide Pow2;
    RemainderIs(r, P, 0, r);
  }

  /** The scale is off by the difference of the moduli. */
  lemma FactorLost(x: int, P: nat, R: nat, Q: nat)
    requires P > 0 && R > 0 && Q == P * R
    ensures Cong((P - Q) * x, 0, Q) <==> Cong(x, 0, R)
  {
    hide Cong;
    assert (P - Q) * x == P * x - Q * x;
    if Cong(x, 0, R) {
      var k := CongElim(x, 0, R);
      Associative(P, R, k);
      assert Q * k - Q * x == Q * (k - x);
      CongIntro((P - Q) * x, 0, k - x, Q);
    }
    if Cong((P - Q) * x, 0, Q) {
      var k := CongElim((P - Q) * x, 0, Q);
      assert Q * k + Q * x == Q * (k + x);
      Associative(P, R, k + x);
      Cancel(P, x, R * (k + x));
      CongIntro(x, 0, k + x, R);
    }
  }

  lemma Cancel(p: nat, a: int, b: int)
    requires p > 0 && p * a == p * b
    ensures a == b
  {
    AtLeastOnce(p, a - b);
    assert p * (a - b) == p * a - p * b;
  }

  // ----- Sign extensions taken for zero extensions -----

  /** A sign extension that is taken for a zero extension is decomposed as that is. Where that is right, it is right
      for the sign extension exactly when what is extended is not negative. */
  lemma RightIffNotNegative(masked: Masked, x: Value, width: nat, env: Env)
    requires WellTyped(SExt(x, width)) && Eval(x, env).Some?
    requires GetLinear(masked, x, width, 0, 0, 1).zext != 0 && ReadsRight(masked, ZExt(x, width), env)
    ensures Decomposition(masked, SExt(x, width)) == Decomposition(masked, ZExt(x, width))
    ensures ReadsRight(masked, SExt(x, width), env) <==> Signed(Eval(x, env).value, Width(x)) >= 0
  {
    hide GetLinear, ExtendedValue, Pow2, Decomposition, Cong, Signed, Eval, WellTyped;
    SameDecomposition(masked, x, width, env);
    BothExtensions(x, width, env);
    var v := SExt(x, width);
    ReadsIff(Decomposition(masked, v).scale * ExtendedValue(masked, v, env) + Decomposition(masked, v).offset,
             Eval(x, env).value, Eval(v, env).value, Pow2(width));
  }

  lemma BothExtensions(x: Value, width: nat, env: Env)
    requires WellTyped(SExt(x, width)) && Eval(x, env).Some?
    ensures WellTyped(x) && Width(x) > 0 && Eval(SExt(x, width), env).Some?
    ensures var a, b := Eval(x, env).value, Eval(SExt(x, width), env).value;
            a < Pow2(width) && b < Pow2(width) && (a == b <==> Signed(a, Width(x)) >= 0)
  {
    hide Signed, Pow2;
    EvalFits(x, env);
    ExtensionsAgree(Eval(x, env).value, Width(x), width);
  }

  lemma ExtensionsAgree(a: nat, n: nat, m: nat)
    requires 0 < n < m && a < Pow2(n)
    ensures a < Pow2(m) && (a == Signed(a, n) % Pow2(m) <==> Signed(a, n) >= 0)
  {
    Extended(a, n, m);
    SignedOf(a, n);
    PowMonotone(n, m);
    PowMonotone(n + 1, m);
  }

  lemma ReadsIff(line: int, a: nat, b: nat, Q: nat)
    requires a < Q && b < Q && Cong(line, a, Q)
    ensures Cong(line, b, Q) <==> a == b
  {
    if Cong(line, b, Q) {
      CongSym(line, b, Q);
      CongTrans(b, line, a, Q);
      CongClose(b, a, Q);
    }
  }

  lemma SameDecomposition(masked: Masked, x: Value, width: nat, env: Env)
    requires WellTyped(SExt(x, width)) && Eval(x, env).Some? && GetLinear(masked, x, width, 0, 0, 1).zext != 0
    ensures Decomposition(masked, SExt(x, width)) == Decomposition(masked, ZExt(x, width))
    ensures ExtendedValue(masked, SExt(x, width), env) == ExtendedValue(masked, ZExt(x, width), env)
    ensures Eval(ZExt(x, width), env) == Eval(x, env)
  {
    hide Signed, Pow2;
  }

  // ----- Without sign extension -----

  predicate AllZeros(es: seq<Extension>) {
    forall e | e in es :: !e.sign
  }

  lemma {:induction false} ZerosExtend(es: seq<Extension>, a: nat, n: nat)
    requires n > 0 && Widening(es, n) && AllZeros(es)
    ensures ExtendAll(es, a, n) == a
    decreases |es|
  {
    if es != [] {
      assert es[0] in es && forall e | e in es[1..] :: e in es;
      ZerosExtend(es[1..], a, es[0].to);
    }
  }

  /** Where nothing is sign-extended, scale and offset are those of the true line, and no sign is mistaken. */
  lemma {:induction false} TrueWithoutSExt(masked: Masked, v: Value, w: nat, depth: nat, es: seq<Extension>, env: Env)
    requires WellTyped(v) && !SignExtends(v) && Widening(es, Width(v)) && FinalWidth(es, Width(v)) == w && AllZeros(es)
    requires Eval(v, env).Some?
    ensures var r, t, P := GetLinear(masked, v, w, 0, 0, depth), TrueLine(masked, v, w, depth, es), Pow2(w);
            Cong(r.scale, t.scale, P) && Cong(r.offset, t.offset, P)
    ensures SignsKept(masked, v, w, depth, env)
    decreases v
  {
    hide Signed, Pow2, ExtendAll, FinalWidth, Apply, Combine, Step, BitOr, BitAnd;
    CongSame(0, Pow2(w));
    CongSame(1, Pow2(w));
    NeverNarrower(es, Width(v));
    if depth != MAX_DEPTH {
      match v
      case Constant(bits, width) =>
        ZerosExtend(es, bits, width);
        CongRem(bits, Pow2(w));
      case Opaque(_, _) =>
      case Binary(op, lhs, rhs, _, _) =>
        if op != Or || masked(lhs, rhs) {
          TrueWithoutSExt(masked, lhs, w, depth + 1, es, env);
          ZerosExtend(es, rhs, Width(lhs));
          ShiftsInside(v, env);
          StepsTogether(op, GetLinear(masked, lhs, w, 0, 0, depth + 1), TrueLine(masked, lhs, w, depth + 1, es), rhs,
                        w);
        }
      case ZExt(x, width) =>
        if GetLinear(masked, x, w, 0, 0, depth + 1).nuw {
          var e := Extension(false, width);
          ConsFacts(e, es, Width(x));
          TrueWithoutSExt(masked, x, w, depth + 1, [e] + es, env);
        }
    }
  }

  lemma ShiftsInside(v: Value, env: Env)
    requires WellTyped(v) && v.Binary? && Eval(v, env).Some?
    ensures Eval(v.lhs, env).Some? && (v.op == Shl ==> v.rhs < Width(v))
  {
  }

  lemma StepsTogether(op: Opcode, r: Linear, t: Coefficients, c: nat, w: nat)
    requires Cong(r.scale, t.scale, Pow2(w)) && Cong(r.offset, t.offset, Pow2(w)) && (op == Shl ==> c <= w)
    ensures var r', t' := Combine(op, r, c, w), Step(op, t, c);
            Cong(r'.scale, t'.scale, Pow2(w)) && Cong(r'.offset, t'.offset, Pow2(w))
  {
    var P := Pow2(w);
    var f := if op == Mul then c else if op == Shl then Pow2(c) else 1;
    var d: int := if op == Sub then 0 - c else if op == Mul || op == Shl then 0 else c;
    CongScale(r.scale, t.scale, f, P);
    CongScale(r.offset, t.offset, f, P);
    CongSame(d, P);
    CongAdd(r.offset * f, t.offset * f, d, d, P);
    CongRem(r.scale * f, P);
    CongRem(r.offset * f + d, P);
    CongTrans((r.scale * f) % P, r.scale * f, t.scale * f, P);
    CongTrans((r.offset * f + d) % P, r.offset * f + d, t.offset * f + d, P);
  }

  // ----- Differences -----

  function RecordedDistance(masked: Masked, u: Value, v: Value): int
    requires WellTyped(u) && WellTyped(v)
  {
    Decomposition(masked, u).offset - Decomposition(masked, v).offset
  }

  /** How far apart the two are with every constant extended by itself, where their common value, extended, is x. */
  function LineDistance(masked: Masked, u: Value, v: Value, x: int): int
    requires WellTyped(u) && WellTyped(v)
  {
    var s, t := Line0(masked, u), Line0(masked, v);
    (s.scale - t.scale) * x + (s.offset - t.offset)
  }

  /** Two expressions of one width with the same value, extended alike, are that far apart. */
  lemma LinesApart(masked: Masked, u: Value, v: Value, env: Env)
    requires WellTyped(u) && WellTyped(v) && Width(u) == Width(v) && MaskSound(masked, env)
    requires Eval(u, env).Some? && Eval(v, env).Some?
    requires SignsKept(masked, u, Width(u), 0, env) && SignsKept(masked, v, Width(v), 0, env)
    requires ExtendedValue(masked, u, env) == ExtendedValue(masked, v, env)
    ensures Cong(LineDistance(masked, u, v, ExtendedValue(masked, u, env)), Eval(u, env).value - Eval(v, env).value,
                 Pow2(Width(u)))
  {
    hide GetLinear, TrueLine, Eval, SignsKept, MaskSound, Pow2, ExtendedValue, Line0, Decomposition, WellTyped, Cong;
    TrueLineReadsRight(masked, u, env);
    TrueLineReadsRight(masked, v, env);
    var s, t, x, P := Line0(masked, u), Line0(masked, v), ExtendedValue(masked, u, env), Pow2(Width(u));
    CongAdd(s.scale * x + s.offset, Eval(u, env).value, t.scale * x + t.offset, Eval(v, env).value, P);
    Regroup(s.scale, t.scale, x, s.offset, t.offset);
  }

  lemma Regroup(s: int, t: int, x: int, c: int, d: int)
    ensures (s * x + c) - (t * x + d) == (s - t) * x + (c - d)
  {
  }

  /** So the difference of the recorded offsets is that of the expressions exactly when it is that of the lines,
      although neither decomposition need be right. */
  lemma DistanceIff(masked: Masked, u: Value, v: Value, env: Env)
    requires WellTyped(u) && WellTyped(v) && Width(u) == Width(v) && MaskSound(masked, env)
    requires Eval(u, env).Some? && Eval(v, env).Some?
    requires SignsKept(masked, u, Width(u), 0, env) && SignsKept(masked, v, Width(v), 0, env)
    requires ExtendedValue(masked, u, env) == ExtendedValue(masked, v, env)
    ensures Cong(RecordedDistance(masked, u, v), Eval(u, env).value - Eval(v, env).value, Pow2(Width(u))) <==>
            Cong(RecordedDistance(masked, u, v), LineDistance(masked, u, v, ExtendedValue(masked, u, env)),
                 Pow2(Width(u)))
  {
    hide GetLinear, TrueLine, Eval, SignsKept, MaskSound, Pow2, ExtendedValue, LineDistance, Decomposition, WellTyped,
         Cong;
    LinesApart(masked, u, v, env);
    var P, r, e := Pow2(Width(u)), RecordedDistance(masked, u, v), Eval(u, env).value - Eval(v, env).value;
    var d := LineDistance(masked, u, v, ExtendedValue(masked, u, env));
    CongSym(d, e, P);
    if Cong(r, e, P) {
      CongTrans(r, e, d, P);
    }
    if Cong(r, d, P) {
      CongTrans(r, d, e, P);
    }
  }

  /** Where the true scales are the same, the distance of the lines does not depend on the value. */
  lemma SameScales(masked: Masked, u: Value, v: Value, x: int)
    requires WellTyped(u) && WellTyped(v) && Width(u) == Width(v)
    requires Cong(Line0(masked, u).scale, Line0(masked, v).scale, Pow2(Width(u)))
    ensures Cong(LineDistance(masked, u, v, x), Line0(masked, u).offset - Line0(masked, v).offset, Pow2(Width(u)))
  {
    hide TrueLine, Pow2, Cong, Line0, WellTyped;
    var s, t, P := Line0(masked, u), Line0(masked, v), Pow2(Width(u));
    CongSame(t.scale, P);
    CongAdd(s.scale, t.scale, t.scale, t.scale, P);
    CongScale(s.scale - t.scale, 0, x, P);
    CongSame(s.offset - t.offset, P);
    CongAdd((s.scale - t.scale) * x, 0, s.offset - t.offset, s.offset - t.offset, P);
  }
}
