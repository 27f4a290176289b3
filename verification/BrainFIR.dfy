/** The intermediate representation the compiler emits: blocks of instructions over registers that are
    each assigned in one place, and the machine that runs them. */
module BrainFIR {
  import opened Machines
  import opened BrainFLang

  type Reg = nat
  type BlockId = nat

  /** A pointer is an offset from the start of the tape's allocation. */
  datatype Instr =
    | Malloc(dst: Reg, size: nat)
    | Memset(ptr: Reg, size: nat)
    | Free(ptr: Reg)
    | Gep(dst: Reg, base: Reg, offset: int)
    | GetChar(dst: Reg)
    | PutChar(src: Reg)
    | Puts
    | Trunc(dst: Reg, src: Reg)
    | SExt(dst: Reg, src: Reg)
    | Load(dst: Reg, ptr: Reg)
    | Store(src: Reg, ptr: Reg)
    | AddI8(dst: Reg, src: Reg, amount: Byte)
    | ICmpUGE(dst: Reg, left: Reg, right: Reg)
    | ICmpULT(dst: Reg, left: Reg, right: Reg)
    | Or(dst: Reg, left: Reg, right: Reg)
    | ICmpEqZero(dst: Reg, src: Reg)
    | Phi(dst: Reg, incoming: seq<(Reg, BlockId)>)
    | Br(target: BlockId)
    | CondBr(cond: Reg, ifTrue: BlockId, ifFalse: BlockId)
    | Ret

  type Block = seq<Instr>
  type Graph = seq<Block>

  predicate IsTerminator(i: Instr) {
    i.Br? || i.CondBr? || i.Ret?
  }

  /** The last instruction ends the block. */
  predicate Closed(b: Block) {
    b != [] && IsTerminator(b[|b| - 1])
  }

  function Targets(i: Instr): set<BlockId> {
    match i
    case Br(t) => {t}
    case CondBr(_, t, f) => {t, f}
    case _ => {}
  }

  function Succs(b: Block): set<BlockId> {
    if b == [] then {} else Targets(b[|b| - 1])
  }

  /** The registers an instruction reads; a phi reads in its predecessors instead. */
  function Uses(i: Instr): set<Reg> {
    match i
    case Memset(p, _) => {p}
    case Free(p) => {p}
    case Gep(_, p, _) => {p}
    case PutChar(s) => {s}
    case Trunc(_, s) => {s}
    case SExt(_, s) => {s}
    case Load(_, p) => {p}
    case Store(s, p) => {s, p}
    case AddI8(_, s, _) => {s}
    case ICmpUGE(_, l, r) => {l, r}
    case ICmpULT(_, l, r) => {l, r}
    case Or(_, l, r) => {l, r}
    case ICmpEqZero(_, s) => {s}
    case CondBr(c, _, _) => {c}
    case _ => {}
  }

  predicate HasDst(i: Instr) {
    || i.Malloc? || i.Gep? || i.GetChar? || i.Trunc? || i.SExt? || i.Load? || i.AddI8?
    || i.ICmpUGE? || i.ICmpULT? || i.Or? || i.ICmpEqZero? || i.Phi?
  }

  /** The registers a block assigns. */
  ghost function Defs(b: Block): set<Reg> {
    set i | 0 <= i < |b| && HasDst(b[i]) :: b[i].dst
  }

  // ----- Running a graph -----

  type Env = map<Reg, int>

  /** `prev` is the block control came from; `alive` holds between the allocation and its release. */
  datatype TState = TState(bb: BlockId, idx: nat, prev: BlockId, env: Env, mem: seq<Byte>, alive: bool,
                           input: seq<Byte>, trace: seq<Event>, outcome: Outcome)
  {
    /** The address may be accessed. */
    predicate Accessible(p: int) { alive && 0 <= p < |mem| }

    function Assign(r: Reg, v: int): TState {
      this.(env := env[r := v], idx := idx + 1)
    }

    function Jump(target: BlockId): TState {
      this.(bb := target, idx := 0, prev := bb)
    }
  }

  /** A run starts at the entry block with whatever bytes the allocation happens to hold. */
  function TStart(garbage: seq<Byte>, input: seq<Byte>): TState {
    TState(0, 0, 0, map[], garbage, false, input, [], Ongoing)
  }

  /** The register a phi takes its value from. */
  function Incoming(incoming: seq<(Reg, BlockId)>, from: BlockId): seq<Reg> {
    if incoming == [] then []
    else if incoming[0].1 == from then [incoming[0].0]
    else Incoming(incoming[1..], from)
  }

  function Truth(b: bool): int { if b then 1 else 0 }

  /** Instructions that only compute a value from registers. */
  predicate IsPure(i: Instr) {
    i.Gep? || i.Trunc? || i.SExt? || i.AddI8? || i.ICmpUGE? || i.ICmpULT? || i.Or? || i.ICmpEqZero?
  }

  function Value(i: Instr, env: Env): int
    requires IsPure(i) && Uses(i) <= env.Keys
  {
    match i
    case Gep(_, p, k) => env[p] + k
    case Trunc(_, s) => env[s] % 256
    case SExt(_, s) => if env[s] >= 128 then env[s] - 256 else env[s]
    case AddI8(_, s, k) => (env[s] + k) % 256
    case ICmpUGE(_, l, r) => Truth(env[l] >= env[r])
    case ICmpULT(_, l, r) => Truth(env[l] < env[r])
    case Or(_, l, r) => Truth(env[l] != 0 || env[r] != 0)
    case ICmpEqZero(_, s) => Truth(env[s] == 0)
  }

  /** Control flow. */
  function Transfer(i: Instr, t: TState): TState
    requires IsTerminator(i) && Uses(i) <= t.env.Keys
  {
    match i
    case Br(b) => t.Jump(b)
    case CondBr(c, b0, b1) => t.Jump(if t.env[c] != 0 then b0 else b1)
    case Ret => t.(outcome := Exited)
  }

  /** Memory, input and output, and the merging of values at a join. */
  function Effect(i: Instr, t: TState): TState
    requires !IsPure(i) && !IsTerminator(i) && Uses(i) <= t.env.Keys
  {
    var crash := t.(outcome := Crashed);
    match i
    case Malloc(d, n) => if |t.mem| == n then t.Assign(d, 0).(alive := true) else crash
    case Memset(p, n) =>
      var a := t.env[p];
      if t.alive && 0 <= a && a + n <= |t.mem| then
        t.(mem := t.mem[..a] + Zeros(n) + t.mem[a + n..], idx := t.idx + 1)
      else crash
    case Free(p) => if t.alive && t.env[p] == 0 then t.(alive := false, idx := t.idx + 1) else crash
    case GetChar(d) =>
      // getchar answers -1 at the end of the input
      t.Assign(d, if t.input == [] then -1 else t.input[0])
      .(input := RestOfInput(t.input), trace := t.trace + [Got(NextByte(t.input))])
    case PutChar(s) =>
      // putchar writes its argument as an unsigned char
      t.(trace := t.trace + [Put(t.env[s] % 256)], idx := t.idx + 1)
    case Puts => t.(trace := t.trace + [Message], idx := t.idx + 1)
    case Load(d, p) => if t.Accessible(t.env[p]) then t.Assign(d, t.mem[t.env[p]]) else crash
    case Store(s, p) =>
      if t.Accessible(t.env[p]) then t.(mem := t.mem[t.env[p] := t.env[s] % 256], idx := t.idx + 1) else crash
    case Phi(d, incoming) =>
      var from := Incoming(incoming, t.prev);
      if from != [] && from[0] in t.env then t.Assign(d, t.env[from[0]]) else crash
  }

  /** One instruction. A read of a register that was never assigned, an access outside the live
      allocation and running off a block all crash. */
  function Exec(i: Instr, t: TState): TState
    requires Uses(i) <= t.env.Keys
  {
    if IsPure(i) then t.Assign(i.dst, Value(i, t.env))
    else if IsTerminator(i) then Transfer(i, t)
    else Effect(i, t)
  }

  function TStep(g: Graph, t: TState): TState {
    if t.outcome != Ongoing then t
    else if t.bb < |g| && t.idx < |g[t.bb]| && Uses(g[t.bb][t.idx]) <= t.env.Keys then Exec(g[t.bb][t.idx], t)
    else t.(outcome := Crashed)
  }

  ghost function TStepper(g: Graph): TState -> TState {
    (t: TState) => TStep(g, t)
  }

  ghost function TObserver(): TState -> Observation<Event> {
    (t: TState) => Observation(t.trace, t.mem, t.outcome)
  }

  lemma TStepMonotone(g: Graph)
    ensures Monotone(TStepper(g), TObserver())
  {
  }

  // ----- Well-formed graphs -----

  /** A way through the graph from the entry block. */
  ghost predicate IsPath(g: Graph, path: seq<BlockId>) {
    && path != [] && path[0] == 0
    && (forall k | 0 <= k < |path| :: path[k] < |g|)
    && (forall k | 0 < k < |path| :: path[k] in Succs(g[path[k - 1]]))
  }

  /** On every way from the entry to block b, r has been assigned before b is entered. */
  ghost predicate AssignedBefore(g: Graph, b: BlockId, r: Reg) {
    forall path | IsPath(g, path) && path[|path| - 1] == b ::
      exists k | 0 <= k < |path| - 1 :: path[k] < |g| && r in Defs(g[path[k]])
  }

  ghost function Preds(g: Graph, b: BlockId): set<BlockId> {
    set a | 0 <= a < |g| && b in Succs(g[a])
  }

  predicate OneTerminatorAtEnd(b: Block) {
    Closed(b) && forall i | 0 <= i < |b| - 1 :: !IsTerminator(b[i])
  }

  predicate PhiOnlyFirst(b: Block) {
    forall i | 0 < i < |b| :: !b[i].Phi?
  }

  ghost predicate OneIncomingPerPredecessor(g: Graph, b: BlockId)
    requires b < |g|
  {
    g[b] != [] && g[b][0].Phi? ==> IncomingFrom(g[b][0].incoming, Preds(g, b))
  }

  /** The incoming list names each block of the set once, and no other. */
  ghost predicate IncomingFrom(incoming: seq<(Reg, BlockId)>, from: set<BlockId>) {
    && (forall i, j | 0 <= i < j < |incoming| :: incoming[i].1 != incoming[j].1)
    && (set i | 0 <= i < |incoming| :: incoming[i].1) == from
  }

  /** No register is assigned by two instructions. */
  predicate SingleAssignment(g: Graph) {
    forall a, i, b, j | 0 <= a < |g| && 0 <= b < |g| && 0 <= i < |g[a]| && 0 <= j < |g[b]| ::
      HasDst(g[a][i]) && HasDst(g[b][j]) && g[a][i].dst == g[b][j].dst ==> a == b && i == j
  }

  /** Every use of a register comes after its assignment: earlier in the block, or in a block on every
      way there; a phi's use counts at the end of the predecessor. */
  ghost predicate UsesDominated(g: Graph) {
    && (forall b, i, r | 0 <= b < |g| && 0 <= i < |g[b]| && r in Uses(g[b][i]) ::
          r in Defs(g[b][..i]) || AssignedBefore(g, b, r))
    && (forall b, j | 0 <= b < |g| && g[b] != [] && g[b][0].Phi? && 0 <= j < |g[b][0].incoming| ::
          var (r, a) := g[b][0].incoming[j];
          a < |g| && (r in Defs(g[a]) || AssignedBefore(g, a, r)))
  }

  ghost predicate WellFormed(g: Graph) {
    && g != []
    && Preds(g, 0) == {}
    && (forall b | 0 <= b < |g| :: OneTerminatorAtEnd(g[b]) && PhiOnlyFirst(g[b]))
    && (forall b, s | 0 <= b < |g| && s in Succs(g[b]) :: s < |g|)
    && (forall b | 0 <= b < |g| :: OneIncomingPerPredecessor(g, b))
    && SingleAssignment(g)
    && UsesDominated(g)
  }
}
