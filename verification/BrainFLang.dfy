/** The BrainF language: its symbols, its programs, and what running a program means. */
module BrainFLang {
  import opened Machines

  type Byte = x: int | 0 <= x < 256

  /** The symbols the compiler works with. A character is a move or a change by one; the compiler
      adds up neighbouring moves, and neighbouring changes. */
  datatype Sym = SymRead | SymWrite | SymMove(offset: int) | SymChange(amount: int) | SymLoop | SymEndLoop

  /** The symbol a character stands for; every other character is a comment. */
  function SymOf(c: char): seq<Sym> {
    if c == '-' then [SymChange(-1)]
    else if c == '+' then [SymChange(1)]
    else if c == '<' then [SymMove(-1)]
    else if c == '>' then [SymMove(1)]
    else if c == ',' then [SymRead]
    else if c == '.' then [SymWrite]
    else if c == '[' then [SymLoop]
    else if c == ']' then [SymEndLoop]
    else []
  }

  /** The program text, one symbol per character, comments dropped. */
  function Symbols(text: string): seq<Sym> {
    if text == "" then [] else SymOf(text[0]) + Symbols(text[1..])
  }

  /** Put a symbol in front, adding it to the next one where both are moves or both are changes. */
  function Join(x: Sym, ys: seq<Sym>): seq<Sym> {
    if x.SymMove? && ys != [] && ys[0].SymMove? then [SymMove(x.offset + ys[0].offset)] + ys[1..]
    else if x.SymChange? && ys != [] && ys[0].SymChange? then [SymChange(x.amount + ys[0].amount)] + ys[1..]
    else [x] + ys
  }

  /** Every run of moves and every run of changes added up. */
  function Coalesce(xs: seq<Sym>): seq<Sym> {
    if xs == [] then [] else Join(xs[0], Coalesce(xs[1..]))
  }

  /** The symbols the compiler acts on for a piece of text. */
  function Lex(text: string): seq<Sym> {
    Coalesce(Symbols(text))
  }

  /** Programs with their loops nested. */
  datatype Cmd = Read | Write | Move(offset: int) | Change(amount: int) | Loop(body: seq<Cmd>)

  /** The symbol of a command that is not a loop. */
  function SymOfCmd(c: Cmd): Sym {
    match c
    case Read => SymRead
    case Write => SymWrite
    case Move(k) => SymMove(k)
    case Change(k) => SymChange(k)
    case Loop(_) => SymLoop
  }

  /** A program written out as symbols. */
  function Flatten(cs: seq<Cmd>): seq<Sym> {
    if cs == [] then []
    else if cs[0].Loop? then [SymLoop] + Flatten(cs[0].body) + [SymEndLoop] + Flatten(cs[1..])
    else [SymOfCmd(cs[0])] + Flatten(cs[1..])
  }

  lemma {:induction false} FlattenAppend(cs: seq<Cmd>, ds: seq<Cmd>)
    ensures Flatten(cs + ds) == Flatten(cs) + Flatten(ds)
  {
    if cs == [] {
      assert cs + ds == ds;
    } else {
      assert (cs + ds)[1..] == cs[1..] + ds;
      FlattenAppend(cs[1..], ds);
    }
  }

  // ----- Running a program -----

  /** What the program does to the outside world: bytes read (255 at end of input), bytes written,
      and the message that the head has left the tape. */
  datatype Event = Got(b: Byte) | Put(b: Byte) | Message

  /** The loops the program is inside of, innermost first, each with what follows it. */
  datatype Stack = Outermost | Inside(body: seq<Cmd>, rest: seq<Cmd>, outer: Stack)

  datatype Status = Running | Halted | LeftTape | Faulted

  datatype State = State(code: seq<Cmd>, stack: Stack, head: int, tape: seq<Byte>,
                         input: seq<Byte>, trace: seq<Event>, status: Status)
  {
    /** The head is on the tape, so the cell under it may be used. */
    predicate OnTape() { 0 <= head < |tape| }
  }

  function Zeros(n: nat): (zs: seq<Byte>)
    ensures |zs| == n && forall i | 0 <= i < n :: zs[i] == 0
  {
    seq(n, _ => 0)
  }

  /** A running program starts in the middle of a zeroed tape. */
  function Start(cs: seq<Cmd>, size: nat, input: seq<Byte>): State {
    State(cs, Outermost, size / 2, Zeros(size), input, [], Running)
  }

  function NextByte(input: seq<Byte>): Byte {
    if input == [] then 255 else input[0]
  }

  function RestOfInput(input: seq<Byte>): seq<Byte> {
    if input == [] then [] else input[1..]
  }

  /** Test the cell under the head: go on with `again` if it is not zero, leave with `after` if it is. */
  function Test(s: State, again: seq<Cmd>, inside: Stack, after: seq<Cmd>, outside: Stack): State {
    if !s.OnTape() then s.(status := Faulted)
    else if s.tape[s.head] == 0 then s.(code := after, stack := outside)
    else s.(code := again, stack := inside)
  }

  /** One command. Using a cell outside the tape is a fault. With bounds checks a move that ends outside
      the tape prints the message and stops. */
  function Step(checked: bool, s: State): State {
    if s.status != Running then s
    else if s.code == [] then
      match s.stack
      case Outermost => s.(status := Halted)
      case Inside(body, rest, outer) => Test(s, body, s.stack, rest, outer)
    else
      var rest := s.code[1..];
      match s.code[0]
      case Read =>
        var b := NextByte(s.input);
        var s' := s.(input := RestOfInput(s.input), trace := s.trace + [Got(b)]);
        if !s.OnTape() then s'.(status := Faulted)
        else s'.(code := rest, tape := s.tape[s.head := b])
      case Write =>
        if !s.OnTape() then s.(status := Faulted)
        else s.(code := rest, trace := s.trace + [Put(s.tape[s.head])])
      case Move(k) =>
        var s' := s.(code := rest, head := s.head + k);
        if checked && !s'.OnTape() then s'.(trace := s.trace + [Message], status := LeftTape) else s'
      case Change(k) =>
        if !s.OnTape() then s.(status := Faulted)
        else s.(code := rest, tape := s.tape[s.head := (s.tape[s.head] + k) % 256])
      case Loop(body) =>
        Test(s, body, Inside(body, rest, s.stack), rest, s.stack)
  }

  ghost function Stepper(checked: bool): State -> State {
    (s: State) => Step(checked, s)
  }

  function Observe(s: State): Observation<Event> {
    Observation(s.trace, s.tape,
                match s.status
                case Running => Ongoing
                case Halted => Exited
                case LeftTape => Exited
                case Faulted => Crashed)
  }

  ghost function Observer(): State -> Observation<Event> {
    (s: State) => Observe(s)
  }

  lemma StepMonotone(checked: bool)
    ensures Monotone(Stepper(checked), Observer())
  {
  }
}
