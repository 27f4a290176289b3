/** Running the compiled form of a program, step for step with the program. */
module BrainFSim {
  import opened Machines
  import opened BrainFLang
  import opened BrainFIR
  import opened BrainFCode

  /** The blocks every compiled program has: the end, and with bounds checks the error block. */
  predicate FixedBlocks(g: Graph, checked: bool) {
    && |g| > ABERRORBB + (if checked then 0 else -1)
    && g[ENDBB] == [Free(ARR), Ret]
    && (checked ==> g[ABERRORBB] == [Puts, Br(ENDBB)])
  }

  /** What follows the code of the innermost loop body (or of the program) at place p is what the stack says. */
  predicate StackCode(g: Graph, checked: bool, p: Place, k: Stack, lastHead: Reg)
    decreases k
  {
    && Has(g, p, 1) && g[p.bb][p.idx].Br?
    && match k
       case Outermost => g[p.bb][p.idx] == Br(ENDBB) && p.head == lastHead
       case Inside(body, rest, outer) =>
         var test := g[p.bb][p.idx].target;
         && EntersAt(g, p, test)
         && var l := Parts(g, test);
         && Code(g, checked, BodyPlace(l), body)
         && EntersAt(g, End(g, checked, BodyPlace(l), body), test)
         && Code(g, checked, ExitPlace(l), rest)
         && StackCode(g, checked, End(g, checked, ExitPlace(l), rest), outer, lastHead)
  }

  /** The registers with a fixed meaning hold it. */
  predicate FixedRegs(checked: bool, size: nat, env: Env) {
    && ARR in env && env[ARR] == 0
    && (checked ==> ARRMAX in env && env[ARRMAX] == size)
  }

  /** The machine state t with the head in register h mirrors the program state s. */
  predicate Mirrors(g: Graph, checked: bool, size: nat, s: State, t: TState, h: Reg) {
    && t.outcome == Ongoing && t.alive
    && t.mem == s.tape && |s.tape| == size && t.input == s.input && t.trace == s.trace
    && FixedRegs(checked, size, t.env)
    && h >= FIRST_HEAD && h in t.env && t.env[h] == s.head
  }

  predicate Related(g: Graph, checked: bool, size: nat, lastHead: Reg, s: State, t: TState, h: Reg) {
    if s.status == Running then
      var p := Place(t.bb, t.idx, h);
      && Mirrors(g, checked, size, s, t, h)
      && Code(g, checked, p, s.code)
      && StackCode(g, checked, End(g, checked, p, s.code), s.stack, lastHead)
    else
      && Observe(s) == Observation(t.trace, t.mem, t.outcome)
      && (s.status == Halted ==> lastHead in t.env && t.env[lastHead] == s.head)
  }

  /** The machine gets from t to t' in one step or more. */
  ghost predicate Reaches(g: Graph, t: TState, t': TState) {
    exists j: nat :: j >= 1 && Iter(TStepper(g), j, t) == t'
  }

  lemma OneStep(g: Graph, t: TState, t': TState)
    requires TStep(g, t) == t'
    ensures Reaches(g, t, t')
  {
    assert Iter(TStepper(g), 1, t) == Iter(TStepper(g), 0, TStepper(g)(t));
  }

  lemma Then(g: Graph, t: TState, t': TState, t'': TState)
    requires Reaches(g, t, t') && Reaches(g, t', t'')
    ensures Reaches(g, t, t'')
  {
    var i: nat :| i >= 1 && Iter(TStepper(g), i, t) == t';
    var j: nat :| j >= 1 && Iter(TStepper(g), j, t') == t'';
    IterAdd(TStepper(g), i, j, t);
  }

  lemma TwoSteps(g: Graph, t: TState, t1: TState, t2: TState)
    requires TStep(g, t) == t1 && TStep(g, t1) == t2
    ensures Reaches(g, t, t2)
  {
    OneStep(g, t, t1);
    OneStep(g, t1, t2);
    Then(g, t, t1, t2);
  }

  /** The instruction the machine is about to execute. */
  ghost predicate About(g: Graph, t: TState, i: Instr) {
    t.outcome == Ongoing && t.bb < |g| && t.idx < |g[t.bb]| && g[t.bb][t.idx] == i && Uses(i) <= t.env.Keys
  }

  lemma DoPure(g: Graph, t: TState, i: Instr) returns (t': TState)
    requires About(g, t, i) && IsPure(i)
    ensures t' == t.Assign(i.dst, Value(i, t.env)) && Reaches(g, t, t')
  {
    t' := t.Assign(i.dst, Value(i, t.env));
    OneStep(g, t, t');
  }

  lemma DoLoad(g: Graph, t: TState, d: Reg, p: Reg) returns (t': TState)
    requires About(g, t, Load(d, p))
    ensures t' == if t.Accessible(t.env[p]) then t.Assign(d, t.mem[t.env[p]]) else t.(outcome := Crashed)
    ensures Reaches(g, t, t')
  {
    t' := if t.Accessible(t.env[p]) then t.Assign(d, t.mem[t.env[p]]) else t.(outcome := Crashed);
    OneStep(g, t, t');
  }

  lemma DoStore(g: Graph, t: TState, r: Reg, p: Reg) returns (t': TState)
    requires About(g, t, Store(r, p))
    ensures t' == if t.Accessible(t.env[p]) then t.(mem := t.mem[t.env[p] := t.env[r] % 256], idx := t.idx + 1)
                  else t.(outcome := Crashed)
    ensures Reaches(g, t, t')
  {
    t' := if t.Accessible(t.env[p]) then t.(mem := t.mem[t.env[p] := t.env[r] % 256], idx := t.idx + 1)
          else t.(outcome := Crashed);
    OneStep(g, t, t');
  }

  lemma DoGetChar(g: Graph, t: TState, d: Reg) returns (t': TState)
    requires About(g, t, GetChar(d))
    ensures t' == t.Assign(d, if t.input == [] then -1 else t.input[0])
                  .(input := RestOfInput(t.input), trace := t.trace + [Got(NextByte(t.input))])
    ensures Reaches(g, t, t')
  {
    t' := t.Assign(d, if t.input == [] then -1 else t.input[0])
          .(input := RestOfInput(t.input), trace := t.trace + [Got(NextByte(t.input))]);
    OneStep(g, t, t');
  }

  lemma DoPutChar(g: Graph, t: TState, r: Reg) returns (t': TState)
    requires About(g, t, PutChar(r))
    ensures t' == t.(trace := t.trace + [Put(t.env[r] % 256)], idx := t.idx + 1) && Reaches(g, t, t')
  {
    t' := t.(trace := t.trace + [Put(t.env[r] % 256)], idx := t.idx + 1);
    OneStep(g, t, t');
  }

  lemma DoBranch(g: Graph, t: TState, c: Reg, b0: BlockId, b1: BlockId) returns (t': TState)
    requires About(g, t, CondBr(c, b0, b1))
    ensures t' == t.Jump(if t.env[c] != 0 then b0 else b1) && Reaches(g, t, t')
  {
    t' := t.Jump(if t.env[c] != 0 then b0 else b1);
    OneStep(g, t, t');
  }

  lemma IncomingFound(incoming: seq<(Reg, BlockId)>, r: Reg, b: BlockId)
    requires |incoming| == 2 && incoming[0].1 != incoming[1].1
    requires (r, b) in incoming
    ensures Incoming(incoming, b) == [r]
  {
    assert incoming == [incoming[0]] + [incoming[1]];
    assert incoming[1..] == [incoming[1]];
    if incoming[0].1 != b {
      assert Incoming(incoming, b) == Incoming([incoming[1]], b);
    }
  }

  // ----- The loop test -----

  /** The branch to the test block and the phi there. */
  lemma EnterTest(g: Graph, t: TState, h: Reg, test: BlockId) returns (t': TState)
    requires t.outcome == Ongoing && h in t.env
    requires EntersAt(g, Place(t.bb, t.idx, h), test)
    ensures t' == t.Jump(test).Assign(g[test][0].dst, t.env[h])
    ensures Reaches(g, t, t')
  {
    IncomingFound(g[test][0].incoming, h, t.bb);
    t' := t.Jump(test).Assign(g[test][0].dst, t.env[h]);
    TwoSteps(g, t, t.Jump(test), t');
  }

  /** The load, the comparison and the branch in the test block. */
  lemma RunTestBlock(g: Graph, t: TState, test: BlockId, head: int) returns (t': TState)
    requires TestBlock(g, test)
    requires t.outcome == Ongoing && t.bb == test && t.idx == 1
    requires g[test][0].dst in t.env && t.env[g[test][0].dst] == head && t.Accessible(head)
    ensures var zero := t.mem[head] == 0;
            var env := t.env[g[test][1].dst := t.mem[head]][g[test][2].dst := Truth(zero)];
            t' == t.(env := env).Jump(if zero then Parts(g, test).exit else Parts(g, test).body)
    ensures Reaches(g, t, t')
  {
    var b := g[test];
    var t1 := DoLoad(g, t, b[1].dst, b[1].ptr);
    var t2 := DoPure(g, t1, b[2]);
    Then(g, t, t1, t2);
    t' := DoBranch(g, t2, b[3].cond, b[3].ifTrue, b[3].ifFalse);
    Then(g, t, t2, t');
  }

  /** The phi of the block after the loop. */
  lemma EnterExit(g: Graph, t: TState, test: BlockId) returns (t': TState)
    requires TestBlock(g, test) && t.outcome == Ongoing
    requires var l := Parts(g, test); t.bb == l.exit && t.idx == 0 && t.prev == test && l.phi in t.env
    ensures var l := Parts(g, test); t' == t.Assign(l.exitHead, t.env[l.phi])
    ensures Reaches(g, t, t')
  {
    var l := Parts(g, test);
    assert Incoming(g[l.exit][0].incoming, test) == [l.phi];
    t' := t.Assign(l.exitHead, t.env[l.phi]);
    OneStep(g, t, t');
  }

  /** The whole loop test, from the branch to the test block up to the loop body or the code after the loop. */
  lemma RunTest(g: Graph, checked: bool, size: nat, s: State, t: TState, h: Reg, test: BlockId)
    returns (t': TState, h': Reg)
    requires Mirrors(g, checked, size, s, t, h)
    requires EntersAt(g, Place(t.bb, t.idx, h), test)
    ensures Reaches(g, t, t')
    ensures !s.OnTape() ==> t'.outcome == Crashed && t'.mem == t.mem && t'.trace == t.trace
    ensures s.OnTape() ==> Mirrors(g, checked, size, s, t', h')
    ensures s.OnTape() ==> Place(t'.bb, t'.idx, h') ==
                           (if s.tape[s.head] == 0 then ExitPlace(Parts(g, test)) else BodyPlace(Parts(g, test)))
  {
    hide Reaches;
    var l := Parts(g, test);
    var t2 := EnterTest(g, t, h, test);
    h' := l.phi;
    if !s.OnTape() {
      t' := t2.(outcome := Crashed);
      OneStep(g, t2, t');
    } else {
      t' := RunTestBlock(g, t2, test, s.head);
      if s.tape[s.head] == 0 {
        var t5 := t';
        t' := EnterExit(g, t5, test);
        h' := l.exitHead;
        Then(g, t2, t5, t');
      }
    }
    Then(g, t, t2, t');
  }

  // ----- Commands that stay in their block -----

  /** The machine has run through the instructions of a command that stays in its block; off the tape it
      has crashed instead. */
  ghost predicate StraightLine(g: Graph, checked: bool, size: nat, s: State, t: TState, h: Reg, t': TState) {
    var s' := Step(checked, s);
    && Reaches(g, t, t')
    && if s.OnTape() then Mirrors(g, checked, size, s', t', h) && t'.bb == t.bb && t'.idx == t.idx + 3
       else t'.outcome == Crashed && t'.mem == s'.tape && t'.trace == s'.trace
  }

  /** Truncating what getchar answers gives the byte read, and 255 at the end of the input. */
  lemma TruncatedInput(input: seq<Byte>)
    ensures (if input == [] then -1 else input[0]) % 256 == NextByte(input) == NextByte(input) % 256
  {
  }

  lemma SimRead(g: Graph, checked: bool, size: nat, s: State, t: TState, h: Reg)
    returns (t': TState)
    requires Mirrors(g, checked, size, s, t, h) && ReadAt(g, Place(t.bb, t.idx, h))
    requires s.status == Running && s.code != [] && s.code[0] == Read
    ensures StraightLine(g, checked, size, s, t, h, t')
  {
    hide Reaches;
    var b := g[t.bb];
    TruncatedInput(t.input);
    var t1 := DoGetChar(g, t, b[t.idx].dst);
    var t2 := DoPure(g, t1, b[t.idx + 1]);
    Then(g, t, t1, t2);
    t' := DoStore(g, t2, b[t.idx + 1].dst, h);
    Then(g, t, t2, t');
  }

  lemma SignExtended(v: Byte)
    ensures (if v >= 128 then v - 256 else v) % 256 == v
  {
  }

  lemma AddByte(v: int, k: int)
    ensures (v + k % 256) % 256 == (v + k) % 256 == (v + k) % 256 % 256
  {
  }

  lemma SimWrite(g: Graph, checked: bool, size: nat, s: State, t: TState, h: Reg)
    returns (t': TState)
    requires Mirrors(g, checked, size, s, t, h) && WriteAt(g, Place(t.bb, t.idx, h))
    requires s.status == Running && s.code != [] && s.code[0] == Write
    ensures StraightLine(g, checked, size, s, t, h, t')
  {
    hide Reaches;
    var b := g[t.bb];
    t' := DoLoad(g, t, b[t.idx].dst, h);
    if s.OnTape() {
      SignExtended(s.tape[s.head]);
      var t1 := t';
      var t2 := DoPure(g, t1, b[t.idx + 1]);
      Then(g, t, t1, t2);
      t' := DoPutChar(g, t2, b[t.idx + 1].dst);
      Then(g, t, t2, t');
    }
  }

  lemma SimChange(g: Graph, checked: bool, size: nat, s: State, t: TState, h: Reg)
    returns (t': TState)
    requires s.status == Running && s.code != [] && s.code[0].Change?
    requires Mirrors(g, checked, size, s, t, h) && ChangeAt(g, Place(t.bb, t.idx, h), s.code[0].amount)
    ensures StraightLine(g, checked, size, s, t, h, t')
  {
    hide Reaches;
    var b := g[t.bb];
    t' := DoLoad(g, t, b[t.idx].dst, h);
    if s.OnTape() {
      AddByte(s.tape[s.head], s.code[0].amount);
      var t1 := t';
      var t2 := DoPure(g, t1, b[t.idx + 1]);
      Then(g, t, t1, t2);
      t' := DoStore(g, t2, b[t.idx + 1].dst, h);
      Then(g, t, t2, t');
    }
  }

  // ----- Moves -----

  /** The end block releases the tape and returns. */
  lemma RunEnd(g: Graph, checked: bool, t: TState) returns (t': TState)
    requires FixedBlocks(g, checked)
    requires t.bb == ENDBB && t.idx == 0 && t.outcome == Ongoing && t.alive && ARR in t.env && t.env[ARR] == 0
    ensures t' == t.(alive := false, idx := 1, outcome := Exited)
    ensures Reaches(g, t, t')
  {
    t' := t.(alive := false, idx := 1, outcome := Exited);
    TwoSteps(g, t, t.(alive := false, idx := 1), t');
  }

  /** The error block prints the message and goes to the end. */
  lemma RunError(g: Graph, t: TState) returns (t': TState)
    requires FixedBlocks(g, true)
    requires t.bb == ABERRORBB && t.idx == 0 && t.outcome == Ongoing && t.alive && ARR in t.env && t.env[ARR] == 0
    ensures t'.outcome == Exited && t'.mem == t.mem && t'.trace == t.trace + [Message]
    ensures Reaches(g, t, t')
  {
    var t1 := RunMessage(g, t);
    t' := RunEnd(g, true, t1);
    Then(g, t, t1, t');
  }

  /** The error block itself. */
  lemma RunMessage(g: Graph, t: TState) returns (t': TState)
    requires FixedBlocks(g, true)
    requires t.bb == ABERRORBB && t.idx == 0 && t.outcome == Ongoing
    ensures t' == t.(trace := t.trace + [Message], idx := 1).Jump(ENDBB)
    ensures Reaches(g, t, t')
  {
    var t1 := t.(trace := t.trace + [Message], idx := 1);
    t' := t1.Jump(ENDBB);
    TwoSteps(g, t, t1, t');
  }

  /** Where a move that leaves the tape takes the machine: to the error block, from there to the end block, and out. */
  lemma RunLeave(g: Graph, size: nat, s: State, t: TState, h: Reg) returns (t1: TState, t2: TState, t3: TState)
    requires s.status == Running && s.code != [] && s.code[0].Move? && !(0 <= s.head + s.code[0].offset < size)
    requires FixedBlocks(g, true)
    requires Mirrors(g, true, size, s, t, h) && GepAt(g, Place(t.bb, t.idx, h), s.code[0].offset)
    requires BoundsCheckAt(g, Place(t.bb, t.idx, h))
    ensures Reaches(g, t, t1) && Reaches(g, t1, t2) && Reaches(g, t2, t3)
    ensures t1.bb == ABERRORBB && t1.idx == 0 && t1.outcome == Ongoing && t1.trace == s.trace
    ensures t2.bb == ENDBB && t2.idx == 0 && t2.outcome == Ongoing && t2.trace == s.trace + [Message]
    ensures t3.outcome == Exited && t3.trace == s.trace + [Message] && t3.mem == s.tape
  {
    hide Reaches;
    var t0 := DoPure(g, t, g[t.bb][t.idx]);
    t1 := RunBoundsCheck(g, t0, Place(t.bb, t.idx, h), s.head + s.code[0].offset, size);
    Then(g, t, t0, t1);
    t2 := RunMessage(g, t1);
    t3 := RunEnd(g, true, t2);
  }

  /** The two comparisons of the new head with the ends of the tape, and the branch on them. */
  lemma RunBoundsCheck(g: Graph, t: TState, p: Place, head: int, size: nat) returns (t': TState)
    requires BoundsCheckAt(g, p)
    requires t.outcome == Ongoing && t.bb == p.bb && t.idx == p.idx + 1
    requires FixedRegs(true, size, t.env)
    requires var h := g[p.bb][p.idx].dst; h in t.env && t.env[h] == head
    ensures var b := g[p.bb];
            var env := t.env[b[p.idx + 1].dst := Truth(head >= size)][b[p.idx + 2].dst := Truth(head < 0)]
                       [b[p.idx + 3].dst := Truth(head >= size || head < 0)];
            t' == t.(env := env).Jump(if 0 <= head < size then b[p.idx + 4].ifFalse else ABERRORBB)
    ensures Reaches(g, t, t')
  {
    hide Reaches;
    var b := g[p.bb];
    var t2 := DoPure(g, t, b[p.idx + 1]);
    var t3 := DoPure(g, t2, b[p.idx + 2]);
    Then(g, t, t2, t3);
    var t4 := DoPure(g, t3, b[p.idx + 3]);
    Then(g, t, t3, t4);
    t' := DoBranch(g, t4, b[p.idx + 4].cond, ABERRORBB, b[p.idx + 4].ifFalse);
    Then(g, t, t4, t');
  }

  /** A move, with its bounds check if there is one. A head that has left the tape goes through the error
      block to the end. */
  lemma SimMove(g: Graph, checked: bool, size: nat, s: State, t: TState, h: Reg)
    returns (t': TState)
    requires s.status == Running && s.code != [] && s.code[0].Move?
    requires FixedBlocks(g, checked)
    requires Mirrors(g, checked, size, s, t, h) && GepAt(g, Place(t.bb, t.idx, h), s.code[0].offset)
    requires checked ==> BoundsCheckAt(g, Place(t.bb, t.idx, h))
    ensures Reaches(g, t, t')
    ensures var s' := Step(checked, s);
            var q := Next(g, checked, Place(t.bb, t.idx, h), s.code[0]);
            if s'.status == Running then Mirrors(g, checked, size, s', t', q.head) && t'.bb == q.bb && t'.idx == q.idx
            else t'.outcome == Exited && t'.mem == s'.tape && t'.trace == s'.trace
  {
    var head := s.head + s.code[0].offset;
    t' := DoPure(g, t, g[t.bb][t.idx]);
    if checked {
      var t1 := t';
      t' := RunBoundsCheck(g, t1, Place(t.bb, t.idx, h), head, size);
      Then(g, t, t1, t');
      if !(0 <= head < size) {
        var t5 := t';
        t' := RunError(g, t5);
        Then(g, t, t5, t');
      }
    }
  }

  // ----- All together -----

  /** Every step of the program is matched by steps of the machine. */
  lemma SimStep(g: Graph, checked: bool, size: nat, lastHead: Reg, s: State, t: TState, h: Reg)
    returns (t': TState, h': Reg)
    requires FixedBlocks(g, checked)
    requires Related(g, checked, size, lastHead, s, t, h)
    ensures Reaches(g, t, t')
    ensures Related(g, checked, size, lastHead, Step(checked, s), t', h')
  {
    hide Reaches;
    var p := Place(t.bb, t.idx, h);
    h' := h;
    if s.status != Running {
      t' := t;
      OneStep(g, t, t');
    } else if s.code == [] {
      t', h' := SimEmpty(g, checked, size, lastHead, s, t, h);
    } else {
      assert CodeOf(g, checked, p, s.code[0]);
      assert Code(g, checked, Next(g, checked, p, s.code[0]), s.code[1..]);
      if s.code[0].Loop? {
        t', h' := RunTest(g, checked, size, s, t, h, g[t.bb][t.idx].target);
      } else {
        t', h' := SimPlain(g, checked, size, s, t, h);
      }
    }
  }

  /** A command that is not a loop. */
  lemma SimPlain(g: Graph, checked: bool, size: nat, s: State, t: TState, h: Reg)
    returns (t': TState, h': Reg)
    requires s.status == Running && s.code != [] && !s.code[0].Loop?
    requires FixedBlocks(g, checked)
    requires Mirrors(g, checked, size, s, t, h)
    requires CodeOf(g, checked, Place(t.bb, t.idx, h), s.code[0])
    ensures Reaches(g, t, t')
    ensures var s' := Step(checked, s);
            if s'.status == Running then
              Mirrors(g, checked, size, s', t', h')
              && Place(t'.bb, t'.idx, h') == Next(g, checked, Place(t.bb, t.idx, h), s.code[0])
            else Observe(s') == Observation(t'.trace, t'.mem, t'.outcome)
  {
    h' := h;
    match s.code[0]
    case Read => t' := SimRead(g, checked, size, s, t, h);
    case Write => t' := SimWrite(g, checked, size, s, t, h);
    case Change(_) => t' := SimChange(g, checked, size, s, t, h);
    case Move(_) =>
      t' := SimMove(g, checked, size, s, t, h);
      h' := Next(g, checked, Place(t.bb, t.idx, h), s.code[0]).head;
  }

  /** At the end of the program or of a loop body. */
  lemma SimEmpty(g: Graph, checked: bool, size: nat, lastHead: Reg, s: State, t: TState, h: Reg)
    returns (t': TState, h': Reg)
    requires FixedBlocks(g, checked)
    requires s.status == Running && s.code == []
    requires Related(g, checked, size, lastHead, s, t, h)
    ensures Reaches(g, t, t')
    ensures Related(g, checked, size, lastHead, Step(checked, s), t', h')
  {
    match s.stack
    case Outermost =>
      var t1 := t.Jump(ENDBB);
      OneStep(g, t, t1);
      t' := RunEnd(g, checked, t1);
      h' := h;
      Then(g, t, t1, t');
    case Inside(body, rest, outer) =>
      t', h' := RunTest(g, checked, size, s, t, h, g[t.bb][t.idx].target);
  }
}
