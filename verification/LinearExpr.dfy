/** Integer expressions over machine words, and their decomposition into scale * value + offset. */
module LinearExpr {
  import opened Basics
  import opened Bits

  datatype Opcode = Or | Add | Sub | Mul | Shl

  /** Values as far as the decomposition looks into them. Anything else is opaque: other operators, and
      operators whose right operand is not constant. */
  datatype Value =
    | Constant(bits: nat, width: nat)
    | Opaque(id: nat, width: nat)
    | Binary(op: Opcode, lhs: Value, rhs: nat, nsw: bool, nuw: bool)
    | ZExt(operand: Value, width: nat)
    | SExt(operand: Value, width: nat)

  function Width(v: Value): nat {
    if v.Binary? then Width(v.lhs) else v.width
  }

  predicate WellTyped(v: Value) {
    && Width(v) > 0
    && match v
       case Constant(bits, width) => bits < Pow2(width)
       case Opaque(_, _) => true
       case Binary(_, lhs, rhs, _, _) => WellTyped(lhs) && rhs < Pow2(Width(lhs))
       case ZExt(x, width) => WellTyped(x) && Width(x) < width
       case SExt(x, width) => WellTyped(x) && Width(x) < width
  }

  // ----- What an expression means -----

  /** A value for every opaque expression; none where it is poison. */
  type Env = nat -> Option<nat>

  predicate FitsSigned(x: int, w: nat)
    requires w > 0
  {
    0 - Pow2(w - 1) <= x < Pow2(w - 1)
  }

  /** The operation on whole numbers, without a word to fit into. */
  function Exact(op: Opcode, a: int, c: nat): int {
    match op
    case Or => a + c
    case Add => a + c
    case Sub => a - c
    case Mul => a * c
    case Shl => a * Pow2(c)
  }

  /** The operation on the signed readings. */
  function ExactSigned(op: Opcode, a: int, c: nat, w: nat): int
    requires w > 0
  {
    match op
    case Or => a
    case Add => a + Signed(c, w)
    case Sub => a - Signed(c, w)
    case Mul => a * Signed(c, w)
    case Shl => a * Pow2(c)
  }

  /** The operation on words of w bits. Wrapping where that was ruled out, and shifting everything out, is poison. */
  function Apply(op: Opcode, a: nat, c: nat, w: nat, nsw: bool, nuw: bool): Option<nat>
    requires w > 0
  {
    if op == Or then Some(BitOr(a, c))
    else if op == Shl && c >= w then None
    else if nuw && !(0 <= Exact(op, a, c) < Pow2(w)) then None
    else if nsw && !FitsSigned(ExactSigned(op, Signed(a, w), c, w), w) then None
    else Some(Exact(op, a, c) % Pow2(w))
  }

  function Eval(v: Value, env: Env): Option<nat>
    requires WellTyped(v)
  {
    match v
    case Constant(bits, _) => Some(bits)
    case Opaque(id, width) => if env(id).None? then None else Some(env(id).value % Pow2(width))
    case Binary(op, lhs, rhs, nsw, nuw) =>
      var a := Eval(lhs, env);
      if a.None? then None else Apply(op, a.value, rhs, Width(lhs), nsw, nuw)
    case ZExt(x, _) => Eval(x, env)
    case SExt(x, width) =>
      var a := Eval(x, env);
      if a.None? then None else Some(Signed(a.value, Width(x)) % Pow2(width))
  }

  // ----- The decomposition -----

  /** An oracle that says which bits of a value are known to be zero. */
  type Masked = (Value, nat) -> bool

  ghost predicate MaskSound(masked: Masked, env: Env) {
    forall v, c | WellTyped(v) && masked(v, c) && Eval(v, env).Some? :: BitAnd(Eval(v, env).value, c) == 0
  }

  const MAX_DEPTH := 6

  /** The value stands for scale * value + offset; zext and sext count the bits it was extended by on the way. */
  datatype Linear = Linear(value: Value, scale: nat, offset: nat, zext: nat, sext: nat, nsw: bool, nuw: bool)

  function Undecomposed(v: Value, zext: nat, sext: nat): Linear {
    Linear(v, 1, 0, zext, sext, true, true)
  }

  /** What an operation with a constant does to scale and offset, in words of w bits. */
  function Combine(op: Opcode, r: Linear, c: nat, w: nat): Linear {
    match op
    case Or => r.(offset := (r.offset + c) % Pow2(w))
    case Add => r.(offset := (r.offset + c) % Pow2(w))
    case Sub => r.(offset := (r.offset - c) % Pow2(w))
    case Mul => r.(offset := (r.offset * c) % Pow2(w), scale := (r.scale * c) % Pow2(w))
    case Shl => if w < c then r.(scale := 1, offset := 0)
                else r.(offset := (r.offset * Pow2(c)) % Pow2(w), scale := (r.scale * Pow2(c)) % Pow2(w),
                        nsw := false, nuw := false)
  }

  /** The decomposition of v, with scale and offset in words of w bits, zext and sext bits of extension having been
      looked through already. */
  function GetLinear(masked: Masked, v: Value, w: nat, zext: nat, sext: nat, depth: nat): Linear
    requires WellTyped(v)
  {
    if depth == MAX_DEPTH then Undecomposed(v, zext, sext)
    else
      match v
      case Constant(bits, _) => Linear(v, 0, bits % Pow2(w), zext, sext, true, true)
      case Opaque(_, _) => Undecomposed(v, zext, sext)
      case Binary(op, lhs, rhs, nsw, nuw) =>
        if op == Or && !masked(lhs, rhs) then Undecomposed(v, zext, sext)
        else
          var r := Combine(op, GetLinear(masked, lhs, w, zext, sext, depth + 1), rhs, w);
          if op == Or || op == Shl then r else r.(nsw := r.nsw && nsw, nuw := r.nuw && nuw)
      case SExt(x, width) =>
        var r := GetLinear(masked, x, w, zext, sext, depth + 1);
        var wider := width - Width(x);
        if r.zext == 0 then
          if r.nsw then
            r.(offset := (Signed(r.offset, Width(x)) % Pow2(width)) % Pow2(w), sext := r.sext + wider)
          else r.(value := x, scale := 1, offset := 0, zext := zext, sext := sext + wider)
        else
          if r.nuw then r.(zext := r.zext + wider)
          else r.(value := x, scale := 1, offset := 0, zext := zext + wider, sext := sext)
      case ZExt(x, width) =>
        var r := GetLinear(masked, x, w, zext, sext, depth + 1);
        var wider := width - Width(x);
        if r.nuw then r.(zext := r.zext + wider)
        else r.(value := x, scale := 1, offset := 0, zext := zext + wider, sext := sext)
  }

  /** How many low bits of v the decomposition accounts for: all w, unless a sign extension was looked through; then no
      more than its operand has. */
  function KeptBits(masked: Masked, v: Value, w: nat, zext: nat, sext: nat, depth: nat): nat
    requires WellTyped(v)
  {
    if depth == MAX_DEPTH then w
    else
      match v
      case Constant(_, _) => w
      case Opaque(_, _) => w
      case Binary(op, lhs, rhs, _, _) =>
        if op == Or && !masked(lhs, rhs) then w else KeptBits(masked, lhs, w, zext, sext, depth + 1)
      case ZExt(x, _) =>
        if GetLinear(masked, x, w, zext, sext, depth + 1).nuw then KeptBits(masked, x, w, zext, sext, depth + 1) else w
      case SExt(x, _) =>
        var r := GetLinear(masked, x, w, zext, sext, depth + 1);
        if (if r.zext == 0 then r.nsw else r.nuw) then Min(Width(x), KeptBits(masked, x, w, zext, sext, depth + 1))
        else Width(x)
  }

  // ----- It keeps the meaning -----

  function Line(r: Linear, x: int): int {
    r.scale * x + r.offset
  }

  lemma EvalFits(v: Value, env: Env)
    requires WellTyped(v) && Eval(v, env).Some?
    ensures Eval(v, env).value < Pow2(Width(v))
  {
    match v
    case Constant(_, _) =>
    case Opaque(_, _) =>
    case Binary(op, lhs, rhs, _, _) =>
      EvalFits(lhs, env);
      if op == Or {
        OrFits(Eval(lhs, env).value, rhs, Width(lhs));
      }
    case ZExt(x, width) =>
      EvalFits(x, env);
      PowMonotone(Width(x), width);
    case SExt(_, _) =>
  }

  lemma {:induction false} OrFits(a: nat, b: nat, w: nat)
    requires a < Pow2(w) && b < Pow2(w)
    ensures BitOr(a, b) < Pow2(w)
  {
    if a != 0 && b != 0 {
      OrFits(a / 2, b / 2, w - 1);
    }
  }

  /** Scale and offset follow the operation. */
  lemma CombineExact(op: Opcode, r: Linear, c: nat, w: nat, x: int, a: int, m: nat)
    requires m <= w && (op == Shl ==> c <= w)
    requires Cong(Line(r, x), a, Pow2(m))
    ensures Cong(Line(Combine(op, r, c, w), x), Exact(op, a, c), Pow2(m))
  {
    var r' := Combine(op, r, c, w);
    var f := if op == Mul then c else if op == Shl then Pow2(c) else 1;
    var d: int := if op == Sub then 0 - c else if op == Mul || op == Shl then 0 else c;
    RemWeaken(r.offset * f + d, m, w);
    CongIntro(r.scale, r.scale, 0, Pow2(m));
    RemWeaken(r.scale * f, m, w);
    LineScaled(r.scale, r.offset, x, a, f, d, r'.scale, r'.offset, Pow2(m));
  }

  lemma LineScaled(s: int, o: int, x: int, a: int, f: int, d: int, s': int, o': int, m: nat)
    requires m > 0 && Cong(s * x + o, a, m) && Cong(s', s * f, m) && Cong(o', o * f + d, m)
    ensures Cong(s' * x + o', a * f + d, m)
  {
    hide *;
    CongScale(s * x + o, a, f, m);
    CongSame(d, m);
    CongAdd((s * x + o) * f, a * f, d, d, m);
    CongScale(s', s * f, x, m);
    CongAdd(s' * x, (s * f) * x, o', o * f + d, m);
    assert (s * f) * x + (o * f + d) == (s * x + o) * f + d;
    CongTrans(s' * x + o', (s * x + o) * f + d, a * f + d, m);
  }

  lemma RemWeaken(x: int, m: nat, w: nat)
    requires m <= w
    ensures Cong(x % Pow2(w), x, Pow2(m))
  {
    CongRem(x, Pow2(w));
    CongWeaken(x % Pow2(w), x, m, w);
  }

  /** The decomposition agrees with the value on the kept bits, or as many of them as the value has; on all of them
      where no operation on the way may have wrapped. */
  ghost predicate Agrees(r: Linear, kept: nat, x: nat, v: nat, width: nat) {
    && Cong(Line(r, x), v, Pow2(Min(kept, width)))
    && (r.nuw ==> Cong(Line(r, x), v, Pow2(kept)))
  }

  lemma {:induction false} Decomposes(masked: Masked, v: Value, w: nat, zext: nat, sext: nat, depth: nat, env: Env)
    requires WellTyped(v) && Width(v) <= w && MaskSound(masked, env)
    requires Eval(v, env).Some?
    ensures var r := GetLinear(masked, v, w, zext, sext, depth);
            && WellTyped(r.value) && Eval(r.value, env).Some?
            && Width(r.value) <= KeptBits(masked, v, w, zext, sext, depth) <= w
            && Width(r.value) <= Width(v)
            && Agrees(r, KeptBits(masked, v, w, zext, sext, depth), Eval(r.value, env).value, Eval(v, env).value,
                      Width(v))
    decreases v
  {
    hide Cong, Pow2, Signed, BitOr, BitAnd, Apply, Exact, Combine, Agrees, MaskSound;
    var r := GetLinear(masked, v, w, zext, sext, depth);
    var kept := KeptBits(masked, v, w, zext, sext, depth);
    var val := Eval(v, env).value;
    if depth == MAX_DEPTH {
      AgreesSelf(r, kept, val, Width(v));
    } else {
      match v
      case Constant(bits, _) =>
        ConstantAgrees(r, bits, w, Width(v));
      case Opaque(_, _) =>
        AgreesSelf(r, kept, val, Width(v));
      case Binary(op, lhs, rhs, nsw, nuw) =>
        if op == Or && !masked(lhs, rhs) {
          AgreesSelf(r, kept, val, Width(v));
        } else {
          Decomposes(masked, lhs, w, zext, sext, depth + 1, env);
          CombineKeepsValue(op, GetLinear(masked, lhs, w, zext, sext, depth + 1), rhs, w);
          BinaryAgrees(masked, v, w, zext, sext, depth, env);
        }
      case ZExt(x, width) =>
        Decomposes(masked, x, w, zext, sext, depth + 1, env);
        var r0 := GetLinear(masked, x, w, zext, sext, depth + 1);
        if r0.nuw {
          AgreesWider(r0, r, kept, Eval(r.value, env).value, val, Width(x), width);
        } else {
          AgreesSelf(r, kept, val, Width(v));
        }
      case SExt(x, width) =>
        Decomposes(masked, x, w, zext, sext, depth + 1, env);
        SExtAgrees(masked, v, w, zext, sext, depth, env);
    }
  }

  lemma CombineKeepsValue(op: Opcode, r: Linear, c: nat, w: nat)
    ensures Combine(op, r, c, w).value == r.value
  {
  }

  /** A decomposition of something that does not wrap agrees with its zero extension. */
  lemma AgreesWider(r0: Linear, r: Linear, kept: nat, x: nat, v: nat, n: nat, width: nat)
    requires Agrees(r0, kept, x, v, n) && r0.nuw && r.scale == r0.scale && r.offset == r0.offset
    ensures Agrees(r, kept, x, v, width)
  {
    CongWeaken(Line(r, x), v, Min(kept, width), kept);
  }

  lemma ConstantAgrees(r: Linear, bits: nat, w: nat, width: nat)
    requires r.scale == 0 && r.offset == bits % Pow2(w)
    ensures Agrees(r, w, bits, bits, width)
  {
    RemWeaken(bits, w, w);
    CongWeaken(bits % Pow2(w), bits, Min(w, width), w);
  }

  lemma AgreesSelf(r: Linear, kept: nat, v: nat, width: nat)
    requires r.scale == 1 && r.offset == 0
    ensures Agrees(r, kept, v, v, width)
  {
    CongIntro(Line(r, v), v, 0, Pow2(kept));
    CongIntro(Line(r, v), v, 0, Pow2(Min(kept, width)));
  }

  lemma BinaryAgrees(masked: Masked, v: Value, w: nat, zext: nat, sext: nat, depth: nat, env: Env)
    requires WellTyped(v) && v.Binary? && Width(v) <= w && MaskSound(masked, env)
    requires depth != MAX_DEPTH && Eval(v, env).Some? && (v.op == Or ==> masked(v.lhs, v.rhs))
    requires var r0 := GetLinear(masked, v.lhs, w, zext, sext, depth + 1);
             && WellTyped(r0.value) && Eval(r0.value, env).Some?
             && KeptBits(masked, v.lhs, w, zext, sext, depth + 1) <= w
             && Agrees(r0, KeptBits(masked, v.lhs, w, zext, sext, depth + 1), Eval(r0.value, env).value,
                       Eval(v.lhs, env).value, Width(v))
    ensures var r := GetLinear(masked, v, w, zext, sext, depth);
            Agrees(r, KeptBits(masked, v, w, zext, sext, depth), Eval(r.value, env).value, Eval(v, env).value, Width(v))
  {
    hide Cong, Pow2, Signed, BitOr, BitAnd;
    var r0, r := GetLinear(masked, v.lhs, w, zext, sext, depth + 1), GetLinear(masked, v, w, zext, sext, depth);
    var kept := KeptBits(masked, v, w, zext, sext, depth);
    var x, a, val := Eval(r0.value, env).value, Eval(v.lhs, env).value, Eval(v, env).value;
    var low, e := Min(kept, Width(v)), Exact(v.op, a, v.rhs);
    var r1 := Combine(v.op, r0, v.rhs, w);
    assert Line(r, x) == Line(r1, x) && r.value == r0.value;
    CombineExact(v.op, r0, v.rhs, w, x, a, low);
    if v.op == Or {
      OrOfDisjoint(a, v.rhs);
    } else {
      RemWeaken(e, low, Width(v));
      CongSym(e % Pow2(Width(v)), e, Pow2(low));
      CongTrans(Line(r, x), e, val, Pow2(low));
    }
    if r.nuw {
      CombineExact(v.op, r0, v.rhs, w, x, a, kept);
      if v.op != Or {
        RemainderIs(e, Pow2(Width(v)), 0, e);
      }
    }
  }

  lemma SExtAgrees(masked: Masked, v: Value, w: nat, zext: nat, sext: nat, depth: nat, env: Env)
    requires WellTyped(v) && v.SExt? && Width(v) <= w && depth != MAX_DEPTH && Eval(v, env).Some?
    requires var r0 := GetLinear(masked, v.operand, w, zext, sext, depth + 1);
             && WellTyped(r0.value) && Eval(r0.value, env).Some?
             && Agrees(r0, KeptBits(masked, v.operand, w, zext, sext, depth + 1), Eval(r0.value, env).value,
                       Eval(v.operand, env).value, Width(v.operand))
    ensures var r := GetLinear(masked, v, w, zext, sext, depth);
            Agrees(r, KeptBits(masked, v, w, zext, sext, depth), Eval(r.value, env).value, Eval(v, env).value, Width(v))
  {
    hide Cong, Pow2, Signed, BitOr, BitAnd, Apply, Exact, Combine;
    var r0, r := GetLinear(masked, v.operand, w, zext, sext, depth + 1), GetLinear(masked, v, w, zext, sext, depth);
    var kept, n := KeptBits(masked, v, w, zext, sext, depth), Width(v.operand);
    var x, a, val := Eval(r.value, env).value, Eval(v.operand, env).value, Eval(v, env).value;
    assert kept <= n && Min(kept, Width(v)) == kept;
    SignExtended(a, n, v.width, kept);
    CongSym(val, a, Pow2(kept));
    if r0.zext == 0 && r0.nsw {
      var o := Signed(r0.offset, n) % Pow2(v.width);
      SignExtended(r0.offset, n, v.width, kept);
      RemWeaken(o, kept, w);
      CongTrans(r.offset, o, r0.offset, Pow2(kept));
      CongSame(r.scale * x, Pow2(kept));
      CongAdd(r.scale * x, r0.scale * x, r.offset, r0.offset, Pow2(kept));
      CongTrans(Line(r, x), Line(r0, x), a, Pow2(kept));
    } else if r0.zext == 0 || !r0.nuw {
      CongSame(a, Pow2(kept));
    }
    CongTrans(Line(r, x), a, val, Pow2(kept));
  }

  /** Sign extension keeps the low bits. */
  lemma SignExtended(a: nat, n: nat, width: nat, m: nat)
    requires m <= n < width && n > 0
    ensures Cong(Signed(a, n) % Pow2(width), a, Pow2(m))
  {
    SignedRange(a, n);
    CongWeaken(Signed(a, n), a, m, n);
    RemWeaken(Signed(a, n), m, width);
    CongTrans(Signed(a, n) % Pow2(width), Signed(a, n), a, Pow2(m));
  }

  // ----- What follows -----

  predicate SignExtends(v: Value) {
    match v
    case Constant(_, _) => false
    case Opaque(_, _) => false
    case Binary(_, lhs, _, _, _) => SignExtends(lhs)
    case ZExt(x, _) => SignExtends(x)
    case SExt(_, _) => true
  }

  /** No bit is lost when nothing is sign-extended. */
  lemma {:induction false} AllBitsKept(masked: Masked, v: Value, w: nat, zext: nat, sext: nat, depth: nat)
    requires WellTyped(v) && !SignExtends(v)
    ensures KeptBits(masked, v, w, zext, sext, depth) == w
  {
    if depth != MAX_DEPTH {
      match v
      case Constant(_, _) =>
      case Opaque(_, _) =>
      case Binary(_, lhs, _, _, _) => AllBitsKept(masked, lhs, w, zext, sext, depth + 1);
      case ZExt(x, _) => AllBitsKept(masked, x, w, zext, sext, depth + 1);
      case SExt(_, _) =>
    }
  }

  /** Without sign extension, scale * value + offset is the expression, in all its bits. */
  lemma LinearIsExact(masked: Masked, v: Value, env: Env)
    requires WellTyped(v) && !SignExtends(v) && MaskSound(masked, env) && Eval(v, env).Some?
    ensures var r := GetLinear(masked, v, Width(v), 0, 0, 0);
            && WellTyped(r.value) && Eval(r.value, env).Some?
            && Line(r, Eval(r.value, env).value) % Pow2(Width(v)) == Eval(v, env).value
  {
    Decomposes(masked, v, Width(v), 0, 0, 0, env);
    AllBitsKept(masked, v, Width(v), 0, 0, 0);
    EvalFits(v, env);
    var r := GetLinear(masked, v, Width(v), 0, 0, 0);
    CongRemainder(Line(r, Eval(r.value, env).value), Eval(v, env).value, Pow2(Width(v)));
  }

  lemma CongRemainder(x: int, y: nat, m: nat)
    requires y < m && Cong(x, y, m)
    ensures x % m == y
  {
    CongRem(x, m);
    CongTrans(x % m, x, y, m);
    CongClose(x % m, y, m);
  }

  /** With sign extension, it is the expression in as many low bits as the value it was decomposed into has. */
  lemma LinearIsExactInLowBits(masked: Masked, v: Value, env: Env)
    requires WellTyped(v) && MaskSound(masked, env) && Eval(v, env).Some?
    ensures var r := GetLinear(masked, v, Width(v), 0, 0, 0);
            && WellTyped(r.value) && Eval(r.value, env).Some?
            && Cong(Line(r, Eval(r.value, env).value), Eval(v, env).value, Pow2(Width(r.value)))
  {
    Decomposes(masked, v, Width(v), 0, 0, 0, env);
    var r := GetLinear(masked, v, Width(v), 0, 0, 0);
    CongWeaken(Line(r, Eval(r.value, env).value), Eval(v, env).value, Width(r.value),
               Min(KeptBits(masked, v, Width(v), 0, 0, 0), Width(v)));
  }

  /** Every bit of extension that was looked through is counted, once. */
  lemma {:induction false} ExtensionsCounted(masked: Masked, v: Value, w: nat, zext: nat, sext: nat, depth: nat)
    requires WellTyped(v)
    ensures var r := GetLinear(masked, v, w, zext, sext, depth);
            Width(r.value) + r.zext + r.sext == Width(v) + zext + sext
    decreases v
  {
    hide Signed, Pow2;
    if depth != MAX_DEPTH {
      match v
      case Constant(_, _) =>
      case Opaque(_, _) =>
      case Binary(_, lhs, _, _, _) => ExtensionsCounted(masked, lhs, w, zext, sext, depth + 1);
      case ZExt(x, _) => ExtensionsCounted(masked, x, w, zext, sext, depth + 1);
      case SExt(x, _) => ExtensionsCounted(masked, x, w, zext, sext, depth + 1);
    }
  }

  function Leaf(v: Value): Value {
    match v
    case Constant(_, _) => v
    case Opaque(_, _) => v
    case Binary(_, lhs, _, _, _) => Leaf(lhs)
    case ZExt(x, _) => Leaf(x)
    case SExt(x, _) => Leaf(x)
  }

  function Height(v: Value): nat {
    match v
    case Constant(_, _) => 0
    case Opaque(_, _) => 0
    case Binary(_, lhs, _, _, _) => 1 + Height(lhs)
    case ZExt(x, _) => 1 + Height(x)
    case SExt(x, _) => 1 + Height(x)
  }

  lemma LeafHeight(v: Value)
    ensures Height(Leaf(v)) == 0
  {
  }

  /** No sum or product down to the leaf may wrap, as a signed one or as an unsigned one, and nothing is shifted, unless
      everything is shifted out of w bits. */
  predicate NoWrap(v: Value, w: nat, signed: bool) {
    match v
    case Constant(_, _) => true
    case Opaque(_, _) => true
    case Binary(op, lhs, rhs, nsw, nuw) =>
      && NoWrap(lhs, w, signed)
      && (op == Or || if op == Shl then rhs > w else if signed then nsw else nuw)
    case ZExt(x, _) => NoWrap(x, w, signed)
    case SExt(x, _) => NoWrap(x, w, signed)
  }

  predicate HasZExt(v: Value) {
    match v
    case Constant(_, _) => false
    case Opaque(_, _) => false
    case Binary(_, lhs, _, _, _) => HasZExt(lhs)
    case ZExt(_, _) => true
    case SExt(x, _) => HasZExt(x)
  }

  /** Nothing in the expression stops the decomposition: ors are of disjoint bits, below a zero extension no unsigned
      operation may wrap, and below a sign extension no signed one, or no unsigned one where that is taken for a zero
      extension. */
  predicate Peels(masked: Masked, v: Value, w: nat) {
    match v
    case Constant(_, _) => true
    case Opaque(_, _) => true
    case Binary(op, lhs, rhs, _, _) => (op == Or ==> masked(lhs, rhs)) && Peels(masked, lhs, w)
    case ZExt(x, _) => Peels(masked, x, w) && NoWrap(x, w, false)
    case SExt(x, _) => Peels(masked, x, w) && NoWrap(x, w, !HasZExt(x))
  }

  /** Where the decomposition gets to, and what the flags and the counted bits then are. */
  ghost predicate Peeled(masked: Masked, v: Value, w: nat, sext: nat, depth: nat)
    requires WellTyped(v)
  {
    var r := GetLinear(masked, v, w, 0, sext, depth);
    && (r.value == Leaf(v) <==> Peels(masked, v, w) && depth + Height(v) <= 6)
    && (Peels(masked, v, w) && depth + Height(v) <= 6 ==>
          && (r.nsw <==> NoWrap(v, w, true)) && (r.nuw <==> NoWrap(v, w, false))
          && (r.zext > 0 <==> HasZExt(v)))
  }

  lemma PeeledBinary(masked: Masked, v: Value, w: nat, sext: nat, depth: nat)
    requires WellTyped(v) && v.Binary? && depth < 6 && Peeled(masked, v.lhs, w, sext, depth + 1)
    ensures Peeled(masked, v, w, sext, depth)
  {
    hide Pow2;
    LeafHeight(v);
  }

  lemma PeeledExtension(masked: Masked, v: Value, w: nat, sext: nat, depth: nat)
    requires WellTyped(v) && (v.ZExt? || v.SExt?) && depth < 6 && Peeled(masked, v.operand, w, sext, depth + 1)
    ensures Peeled(masked, v, w, sext, depth)
  {
    hide Signed, Pow2;
    LeafHeight(v.operand);
    WrapsHigh(v.operand, w);
  }

  /** The decomposition gets to the innermost value exactly where nothing stops it and the expression is no more than
      six operations deep. */
  lemma {:induction false} PeelsIff(masked: Masked, v: Value, w: nat, sext: nat, depth: nat)
    requires WellTyped(v) && depth <= 6
    ensures var r := GetLinear(masked, v, w, 0, sext, depth);
            r.value == Leaf(v) <==> Peels(masked, v, w) && depth + Height(v) <= 6
    ensures Peeled(masked, v, w, sext, depth)
    decreases v
  {
    if depth == 6 || v.Constant? || v.Opaque? {
      hide Pow2;
      LeafHeight(v);
    } else if v.Binary? {
      hide GetLinear, Peels, Leaf, Height;
      PeelsIff(masked, v.lhs, w, sext, depth + 1);
      PeeledBinary(masked, v, w, sext, depth);
    } else {
      hide GetLinear, Peels, Leaf, Height;
      PeelsIff(masked, v.operand, w, sext, depth + 1);
      PeeledExtension(masked, v, w, sext, depth);
    }
  }

  /** Only an operation can wrap. */
  lemma WrapsHigh(v: Value, w: nat)
    ensures Height(v) == 0 ==> NoWrap(v, w, true) && NoWrap(v, w, false) && Leaf(v) == v
  {
  }

  lemma SmallPowers()
    ensures Pow2(4) == 16 && Pow2(7) == 128 && Pow2(8) == 256 && Pow2(16) == 65536
  {
    PowAdd(8, 8);
  }

  /** The high bits are indeed lost: x * -1, sign-extended to 16 bits, is taken for 255 * x, and where x is 1 it is
      -1. */
  lemma HighBitsLost(masked: Masked, env: Env)
    requires env(0) == Some(1)
    ensures var x := Opaque(0, 8);
            var v := SExt(Binary(Mul, x, 255, true, false), 16);
            && WellTyped(v) && Eval(v, env) == Some(65535)
            && GetLinear(masked, v, 16, 0, 0, 0) == Linear(x, 255, 0, 0, 8, true, false)
  {
    SmallPowers();
    var x := Opaque(0, 8);
    var product := Binary(Mul, x, 255, true, false);
    assert Eval(x, env) == Some(1);
    assert Signed(1, 8) == 1 && Signed(255, 8) == -1;
    assert Eval(product, env) == Some(255);
    assert GetLinear(masked, x, 16, 0, 0, 2) == Undecomposed(x, 0, 0);
    assert GetLinear(masked, product, 16, 0, 0, 1) == Linear(x, 255, 0, 0, 0, true, false);
  }

  /** A sign extension of something that wraps around a zero extension is taken for a zero extension of it: the two have
      the same decomposition, but 201 in 8 bits extends to 65481 or to 201. */
  lemma SignExtensionTakenForZeroExtension(masked: Masked, env: Env)
    requires env(0) == Some(1)
    ensures var sum := Binary(Add, ZExt(Opaque(0, 4), 8), 200, false, false);
            && WellTyped(SExt(sum, 16)) && WellTyped(ZExt(sum, 16))
            && GetLinear(masked, SExt(sum, 16), 16, 0, 0, 0) == GetLinear(masked, ZExt(sum, 16), 16, 0, 0, 0)
            && Eval(SExt(sum, 16), env) == Some(65481) && Eval(ZExt(sum, 16), env) == Some(201)
  {
    SmallPowers();
    var x := ZExt(Opaque(0, 4), 8);
    var sum := Binary(Add, x, 200, false, false);
    assert Eval(x, env) == Some(1);
    assert Eval(sum, env) == Some(201);
    assert Signed(201, 8) == -55;
    assert GetLinear(masked, x.operand, 16, 0, 0, 3) == Undecomposed(x.operand, 0, 0);
    assert GetLinear(masked, x, 16, 0, 0, 2) == Linear(x.operand, 1, 0, 4, 0, true, true);
    assert GetLinear(masked, sum, 16, 0, 0, 1) == Linear(x.operand, 1, 200, 4, 0, false, false);
  }
}
