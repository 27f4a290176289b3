/** Taking apart nested names as the Itanium C++ ABI mangles them. */
module ItaniumNames {
  import opened Basics

  predicate IsDigit(c: char) {
    '0' <= c <= '9'
  }

  /** The characters of a substitution, between S and the underscore. */
  predicate IsSeqIdChar(c: char) {
    IsDigit(c) || 'A' <= c <= 'Z'
  }

  predicate IsQualifier(c: char) {
    c in "rVKRO"
  }

  predicate StrictSuffix(r: string, s: string) {
    |r| < |s| && r == s[|s| - |r|..]
  }

  lemma SuffixesOf(t: string, s: string)
    requires StrictSuffix(t, s)
    ensures |t| < |s| && forall r | StrictSuffix(r, t) :: StrictSuffix(r, s)
  {
  }

  lemma TailIsSuffix(s: string)
    ensures s != "" ==> StrictSuffix(s[1..], s)
  {
  }

  lemma DropIsSuffix(s: string, k: nat, n: nat)
    ensures 0 < k < |s| ==> StrictSuffix(Drop(s[k..], n), s)
  {
  }

  predicate Starts(s: string, c: char) {
    s != "" && s[0] == c
  }

  /** The number of characters at the start of s that satisfy p. */
  function Leading(s: string, p: char -> bool): (n: nat)
    ensures n <= |s|
    ensures forall i | 0 <= i < n :: p(s[i])
    ensures n < |s| ==> !p(s[n])
  {
    if s == "" || !p(s[0]) then 0 else 1 + Leading(s[1..], p)
  }

  lemma {:induction false} LeadingIs(s: string, p: char -> bool, n: nat)
    requires n <= |s| && (forall i | 0 <= i < n :: p(s[i])) && (n < |s| ==> !p(s[n]))
    ensures Leading(s, p) == n
  {
    if n > 0 {
      LeadingIs(s[1..], p, n - 1);
    }
  }

  /** The longest prefix of characters that satisfy p, leaving at least one character; what a greedy match of one or
      more of them followed by anything takes. */
  function GreedyPrefix(s: string, p: char -> bool): (k: nat)
    ensures k < |s| || (s == "" && k == 0)
  {
    var n := Leading(s, p);
    if n < |s| || n == 0 then n else n - 1
  }

  function DigitValue(c: char): nat
    requires IsDigit(c)
  {
    (c - '0') as nat
  }

  function ParseInt(s: string): nat
    requires forall i | 0 <= i < |s| :: IsDigit(s[i])
  {
    if s == "" then 0 else 10 * ParseInt(s[..|s| - 1]) + DigitValue(s[|s| - 1])
  }

  function Drop(s: string, n: nat): string {
    if n <= |s| then s[n..] else ""
  }

  function Take(s: string, n: nat): string {
    if n <= |s| then s[..n] else s
  }

  /** A number at the start of s, with at least one character after it. */
  function Number(s: string): (r: Option<(nat, nat)>)
    ensures r.Some? ==> 0 < r.value.0 < |s|
  {
    var k := GreedyPrefix(s, IsDigit);
    if k == 0 then None else Some((k, ParseInt(s[..k])))
  }

  /** What follows a substitution at the start of s, with at least one character there. */
  function AfterSubstitution(s: string): (r: Option<string>)
    ensures r.Some? ==> StrictSuffix(r.value, s) && r.value != ""
  {
    if !Starts(s, 'S') then None
    else
      var k := 1 + Leading(s[1..], IsSeqIdChar);
      if k + 1 < |s| && s[k] == '_' then Some(s[k + 1..]) else None
  }

  /** A name at the start of s, and the rest; a constructor or destructor; or anything up to the next E. */
  function ParseName(s: string): (r: Option<(string, string)>)
    ensures r.Some? ==> StrictSuffix(r.value.1, s)
  {
    var number := Number(s);
    if number.Some? then
      var (k, n) := number.value;
      Some((s[..k] + Take(s[k..], n), Drop(s[k..], n)))
    else if |s| > 2 && s[0] in "CD" && s[1] in "123" then Some((s[..2], s[2..]))
    else
      var k := GreedyPrefix(s, c => c != 'E');
      if k == 0 then None else Some((s[..k], s[k..]))
  }

  // ----- Templates and nested names -----

  datatype Skipped = Rest(rest: string) | NoRest | TooComplexTemplate

  datatype Nested = Parsed(names: seq<(string, bool)>, rest: string) | Failed | TooComplex

  /** Skip a template's arguments from inside it, up to the E that ends it. */
  function SkipArguments(s: string): (r: Skipped)
    ensures r.Rest? ==> StrictSuffix(r.rest, s)
    decreases |s|, 1
  {
    if s == "" then NoRest
    else
      hide StrictSuffix;
      TailIsSuffix(s);
      SuffixesOf(s[1..], s);
      var number, substitution := Number(s), AfterSubstitution(s);
      if number.Some? then
        var rest := Drop(s[number.value.0..], number.value.1);
        DropIsSuffix(s, number.value.0, number.value.1);
        SuffixesOf(rest, s);
        SkipArguments(rest)
      else if substitution.Some? then
        SuffixesOf(substitution.value, s);
        SkipArguments(substitution.value)
      else if s[0] == 'I' then
        match SkipArguments(s[1..])
        case Rest(rest) =>
          SuffixesOf(rest, s);
          SkipArguments(rest)
        case NoRest => NoRest
        case TooComplexTemplate => TooComplexTemplate
      else if s[0] == 'N' then
        match ParseNested(s)
        case Parsed(_, rest) =>
          SuffixesOf(rest, s);
          SkipArguments(rest)
        case Failed => NoRest
        case TooComplex => TooComplexTemplate
      else if s[0] == 'L' || s[0] == 'X' then TooComplexTemplate
      else if s[0] == 'E' then Rest(s[1..])
      else SkipArguments(s[1..])
  }

  function Prepend(names: seq<(string, bool)>, r: Nested): Nested {
    if r.Parsed? then Parsed(names + r.names, r.rest) else r
  }

  /** The names up to the E that ends the nesting. */
  function ParseNames(s: string): (r: Nested)
    ensures r.Parsed? ==> StrictSuffix(r.rest, s)
    decreases |s|, 0
  {
    hide StrictSuffix;
    TailIsSuffix(s);
    if s == "" then Failed
    else if s[0] == 'E' then Parsed([], s[1..])
    else
      match ParseName(s)
      case None => Failed
      case Some((name, rest)) =>
        SuffixesOf(rest, s);
        if Starts(rest, 'I') then
          TailIsSuffix(rest);
          SuffixesOf(rest[1..], s);
          match SkipArguments(rest[1..])
          case Rest(rest') =>
            SuffixesOf(rest', s);
            Prepend([(name, true)], ParseNames(rest'))
          case NoRest => Failed
          case TooComplexTemplate => TooComplex
        else Prepend([(name, false)], ParseNames(rest))
  }

  /** Past the N, a substitution, and qualifiers. */
  function InsideNested(s: string): (r: string)
    requires Starts(s, 'N')
    ensures StrictSuffix(r, s)
  {
    var substitution := AfterSubstitution(s[1..]);
    var inside := if substitution.Some? then substitution.value else s[1..];
    inside[GreedyPrefix(inside, IsQualifier)..]
  }

  function ParseNested(s: string): (r: Nested)
    requires Starts(s, 'N')
    ensures r.Parsed? ==> StrictSuffix(r.rest, s)
    decreases |s|, 0
  {
    ParseNames(InsideNested(s))
  }

  // ----- The loops -----

  method SkipItaniumTemplate(arg: string) returns (r: Skipped)
    requires Starts(arg, 'I')
    ensures r == SkipArguments(arg[1..])
    decreases |arg|
  {
    var tmp := arg[1..];
    while tmp != ""
      invariant |tmp| < |arg|
      invariant SkipArguments(arg[1..]) == SkipArguments(tmp)
      decreases |tmp|
    {
      var number := Number(tmp);
      if number.Some? {
        tmp := Drop(tmp[number.value.0..], number.value.1);
        continue;
      }
      var substitution := AfterSubstitution(tmp);
      if substitution.Some? {
        tmp := substitution.value;
      } else if tmp[0] == 'I' {
        var inner := SkipItaniumTemplate(tmp);
        if !inner.Rest? {
          return inner;
        }
        tmp := inner.rest;
      } else if tmp[0] == 'N' {
        var nested := ParseItaniumNestedName(tmp);
        if nested.TooComplex? {
          return TooComplexTemplate;
        }
        if nested.Failed? {
          return NoRest;
        }
        tmp := nested.rest;
      } else if tmp[0] == 'L' || tmp[0] == 'X' {
        return TooComplexTemplate;
      } else if tmp[0] == 'E' {
        return Rest(tmp[1..]);
      } else {
        tmp := tmp[1..];
      }
    }
    return NoRest;
  }

  lemma PrependTwice(a: seq<(string, bool)>, b: seq<(string, bool)>, r: Nested)
    ensures Prepend(a, Prepend(b, r)) == Prepend(a + b, r)
  {
    if r.Parsed? {
      assert a + (b + r.names) == a + b + r.names;
    }
  }

  method ParseItaniumNestedName(arg: string) returns (r: Nested)
    requires Starts(arg, 'N')
    ensures r == ParseNested(arg)
    decreases |arg|
  {
    hide AfterSubstitution, GreedyPrefix, ParseName, SkipArguments, IsQualifier, Leading;
    var ret: seq<(string, bool)> := [];
    var substitution := AfterSubstitution(arg[1..]);
    var tmp := if substitution.Some? then substitution.value else arg[1..];
    tmp := tmp[GreedyPrefix(tmp, IsQualifier)..];
    assert tmp == InsideNested(arg);
    while tmp != ""
      invariant |tmp| < |arg|
      invariant ParseNested(arg) == Prepend(ret, ParseNames(tmp))
      decreases |tmp|
    {
      if tmp[0] == 'E' {
        assert ret + [] == ret;
        return Parsed(ret, tmp[1..]);
      }
      var name := ParseName(tmp);
      if name.None? {
        return Failed;
      }
      var (namePart, rest) := name.value;
      var isTemplate := false;
      if Starts(rest, 'I') {
        var skipped := SkipItaniumTemplate(rest);
        if skipped.TooComplexTemplate? {
          return TooComplex;
        }
        if skipped.NoRest? {
          return Failed;
        }
        rest := skipped.rest;
        isTemplate := true;
      }
      PrependTwice(ret, [(namePart, isTemplate)], ParseNames(rest));
      ret, tmp := ret + [(namePart, isTemplate)], rest;
    }
    return Failed;
  }

  // ----- Printing -----

  function Decimal(n: nat): (s: string)
    ensures s != "" && forall i | 0 <= i < |s| :: IsDigit(s[i])
  {
    if n < 10 then ['0' + n as char] else Decimal(n / 10) + ['0' + (n % 10) as char]
  }

  lemma {:induction false} DecimalParses(n: nat)
    ensures ParseInt(Decimal(n)) == n
  {
    if n >= 10 {
      DecimalParses(n / 10);
      assert Decimal(n)[..|Decimal(n)| - 1] == Decimal(n / 10);
    } else {
      assert Decimal(n)[..0] == "";
    }
  }

  /** An identifier, or a constructor or destructor, perhaps with template arguments; or an operator. */
  datatype Component =
    | Identifier(id: string, args: Arguments)
    | Special(kind: char, variant: char, args: Arguments)
    | Operator(op: string, args: Arguments)

  datatype Arguments = NoTemplate | TemplateOf(list: seq<Argument>)

  datatype Argument =
    | Letter(c: char)
    | Name(id: string)
    | Substitution(seqId: string)
    | Template(args: seq<Argument>)
    | NestedName(prefix: Prefix, names: seq<Component>)

  /** What may come before the names of a nested name. */
  datatype Prefix = Prefix(substitution: Option<string>, qualifiers: string)

  predicate IsIdentifier(id: string) {
    id != "" && !('0' <= id[0] <= '9')
  }

  predicate IsSeqId(s: string) {
    forall i | 0 <= i < |s| :: '0' <= s[i] <= '9' || 'A' <= s[i] <= 'Z'
  }

  predicate GoodPrefix(p: Prefix) {
    && (p.substitution.Some? ==> IsSeqId(p.substitution.value))
    && forall i | 0 <= i < |p.qualifiers| :: p.qualifiers[i] in "rVKRO"
  }

  /** What is taken for an operator: it could not be anything else, and no E ends it early. */
  predicate IsOperator(op: string) {
    && op != "" && !('0' <= op[0] <= '9') && op[0] != 'I' && 'E' !in op
    && !(|op| > 1 && op[0] in "CD" && op[1] in "123")
  }

  /** An operator comes last. */
  predicate OperatorLast(cs: seq<Component>) {
    forall i | 0 <= i < |cs| && cs[i].Operator? :: i == |cs| - 1
  }

  /** And not at once after the qualifiers, where its letters might be taken for more of them. */
  predicate OperatorAfter(cs: seq<Component>) {
    OperatorLast(cs) && (cs != [] ==> !cs[0].Operator?)
  }

  predicate GoodComponent(c: Component) {
    && (match c
        case Identifier(id, _) => IsIdentifier(id)
        case Special(kind, variant, _) => kind in "CD" && variant in "123"
        case Operator(op, args) => IsOperator(op) && args.NoTemplate?)
    && (c.args.TemplateOf? ==> forall a | a in c.args.list :: GoodArgument(a))
  }

  predicate GoodArgument(a: Argument) {
    match a
    case Letter(c) => !('0' <= c <= '9') && c !in "SINLXE"
    case Name(id) => IsIdentifier(id)
    case Substitution(seqId) => IsSeqId(seqId)
    case Template(args) => forall x | x in args :: GoodArgument(x)
    case NestedName(prefix, names) =>
      GoodPrefix(prefix) && OperatorAfter(names) && forall c | c in names :: GoodComponent(c)
  }

  function PrintIdentifier(id: string): string {
    Decimal(|id|) + id
  }

  function PrintSubstitution(seqId: string): string {
    "S" + seqId + "_"
  }

  function PrintPrefix(p: Prefix): string {
    (if p.substitution.Some? then PrintSubstitution(p.substitution.value) else "") + p.qualifiers
  }

  /** The name of a component, without its template arguments. */
  function ComponentName(c: Component): string {
    match c
    case Identifier(id, _) => PrintIdentifier(id)
    case Special(kind, variant, _) => [kind, variant]
    case Operator(op, _) => op
  }

  function PrintComponent(c: Component): string {
    ComponentName(c) + if c.args.TemplateOf? then PrintTemplate(c.args.list) else ""
  }

  function PrintComponents(cs: seq<Component>): string
    decreases cs, 0
  {
    if cs == [] then "" else PrintComponent(cs[0]) + PrintComponents(cs[1..])
  }

  function PrintTemplate(args: seq<Argument>): string
    decreases args, 1
  {
    "I" + PrintArguments(args) + "E"
  }

  function PrintArgument(a: Argument): string {
    match a
    case Letter(c) => [c]
    case Name(id) => PrintIdentifier(id)
    case Substitution(seqId) => PrintSubstitution(seqId)
    case Template(inner) => PrintTemplate(inner)
    case NestedName(prefix, names) => PrintNested(prefix, names)
  }

  function PrintArguments(args: seq<Argument>): string
    decreases args, 0
  {
    if args == [] then "" else PrintArgument(args[0]) + PrintArguments(args[1..])
  }

  function PrintNested(prefix: Prefix, names: seq<Component>): string
    decreases names, 1
  {
    "N" + PrintPrefix(prefix) + PrintComponents(names) + "E"
  }

  /** The list a parser should give back. */
  function Names(cs: seq<Component>): seq<(string, bool)> {
    seq(|cs|, i requires 0 <= i < |cs| => (ComponentName(cs[i]), cs[i].args.TemplateOf?))
  }

  // ----- Parsing what was printed -----

  lemma NumberOfPrinted(id: string, rest: string)
    requires IsIdentifier(id)
    ensures var s := PrintIdentifier(id) + rest;
            var k := |Decimal(|id|)|;
            && Number(s) == Some((k, |id|)) && k <= |s|
            && s[..k] + Take(s[k..], |id|) == PrintIdentifier(id) && Drop(s[k..], |id|) == rest
  {
    var digits := Decimal(|id|);
    var s := PrintIdentifier(id) + rest;
    var k := |digits|;
    assert s == digits + (id + rest);
    LeadingIs(s, IsDigit, k);
    assert s[..k] == digits && s[k..] == id + rest;
    DecimalParses(|id|);
    assert (id + rest)[..|id|] == id && (id + rest)[|id|..] == rest;
  }

  lemma NotANumber(s: string)
    requires s != "" && !IsDigit(s[0])
    ensures Number(s) == None
  {
  }

  lemma NotASubstitution(s: string)
    requires !Starts(s, 'S')
    ensures AfterSubstitution(s) == None
  {
  }

  lemma SubstitutionPrinted(seqId: string, rest: string)
    requires IsSeqId(seqId) && rest != ""
    ensures AfterSubstitution(PrintSubstitution(seqId) + rest) == Some(rest)
  {
    var s := PrintSubstitution(seqId) + rest;
    assert s[1..] == seqId + ("_" + rest);
    LeadingIs(s[1..], IsSeqIdChar, |seqId|);
    assert s[|seqId| + 1] == '_' && s[|seqId| + 2..] == rest;
  }

  /** How the rest of a printed nested name starts: with a digit, a C, a D, an E, or an operator. */
  lemma ComponentsStart(cs: seq<Component>, rest: string)
    requires forall c | c in cs :: GoodComponent(c)
    ensures var s := PrintComponents(cs) + "E" + rest;
            && s != "" && s[0] != 'I'
            && (cs == [] || !cs[0].Operator? ==> IsDigit(s[0]) || s[0] in "CDE")
  {
    if cs != [] {
      assert GoodComponent(cs[0]);
      NameStarts(cs[0]);
      assert PrintComponent(cs[0])[0] == ComponentName(cs[0])[0];
    }
  }

  lemma NameStarts(c: Component)
    requires GoodComponent(c)
    ensures ComponentName(c) != "" && ComponentName(c)[0] != 'I'
    ensures !c.Operator? ==> IsDigit(ComponentName(c)[0]) || ComponentName(c)[0] in "CD"
  {
  }

  lemma Associate(a: string, b: string, c: string, d: string)
    ensures (a + b) + c == a + (b + c)
    ensures a + b + c + d == a + (b + c + d)
  {
  }

  lemma {:induction false} SkipsArguments(args: seq<Argument>, rest: string)
    requires forall a | a in args :: GoodArgument(a)
    ensures SkipArguments(PrintArguments(args) + "E" + rest) == Rest(rest)
    decreases args, 0
  {
    if args == [] {
      assert PrintArguments(args) + "E" + rest == "E" + rest;
      SkipsEnd(rest);
    } else {
      var tail := PrintArguments(args[1..]) + "E" + rest;
      assert args[0] in args;
      SkipsArguments(args[1..], rest);
      SkipsArgument(args[0], tail);
      Associate(PrintArgument(args[0]), PrintArguments(args[1..]), "E", rest);
    }
  }

  lemma SkipsEnd(rest: string)
    ensures SkipArguments("E" + rest) == Rest(rest)
  {
    var s := "E" + rest;
    NotANumber(s);
    assert s[1..] == rest;
  }

  lemma {:induction false} SkipsArgument(a: Argument, tail: string)
    requires GoodArgument(a) && tail != ""
    ensures SkipArguments(PrintArgument(a) + tail) == SkipArguments(tail)
    decreases a
  {
    hide SkipArguments, ParseNested, PrintArguments, PrintComponents, PrintIdentifier, PrintSubstitution,
         PrintPrefix, Names;
    match a
    case Letter(c) => SkipsLetter(c, tail);
    case Name(id) => SkipsName(id, tail);
    case Substitution(seqId) => SkipsSubstitution(seqId, tail);
    case Template(inner) =>
      SkipsArguments(inner, tail);
      SkipsTemplate(PrintArguments(inner), tail);
    case NestedName(prefix, names) =>
      ParsesComponents(names, tail);
      ParsesPrinted(prefix, names, tail);
      SkipsNested(PrintNested(prefix, names) + tail, Names(names), tail);
  }

  lemma SkipsLetter(c: char, tail: string)
    requires !IsDigit(c) && c !in "SINLXE"
    ensures SkipArguments([c] + tail) == SkipArguments(tail)
  {
    hide Number, AfterSubstitution, ParseNested;
    var s := [c] + tail;
    NotANumber(s);
    NotASubstitution(s);
    assert s[1..] == tail;
  }

  lemma SkipsName(id: string, tail: string)
    requires IsIdentifier(id)
    ensures SkipArguments(PrintIdentifier(id) + tail) == SkipArguments(tail)
  {
    NumberOfPrinted(id, tail);
  }

  lemma SkipsSubstitution(seqId: string, tail: string)
    requires IsSeqId(seqId) && tail != ""
    ensures SkipArguments(PrintSubstitution(seqId) + tail) == SkipArguments(tail)
  {
    SubstitutionPrinted(seqId, tail);
    NotANumber(PrintSubstitution(seqId) + tail);
  }

  lemma SkipsTemplate(inside: string, tail: string)
    requires SkipArguments(inside + "E" + tail) == Rest(tail)
    ensures SkipArguments("I" + inside + "E" + tail) == SkipArguments(tail)
  {
    hide SkipArguments;
    var s := "I" + inside + "E" + tail;
    assert s[1..] == inside + "E" + tail;
    SkipsInner(s, tail);
  }

  lemma SkipsInner(s: string, tail: string)
    requires Starts(s, 'I') && SkipArguments(s[1..]) == Rest(tail)
    ensures SkipArguments(s) == SkipArguments(tail)
  {
    hide Number, AfterSubstitution, ParseNested;
    NotANumber(s);
    NotASubstitution(s);
  }

  lemma SkipsNested(s: string, names: seq<(string, bool)>, tail: string)
    requires Starts(s, 'N') && ParseNested(s) == Parsed(names, tail)
    ensures SkipArguments(s) == SkipArguments(tail)
  {
    hide Number, AfterSubstitution, ParseNested;
    NotANumber(s);
    NotASubstitution(s);
  }

  lemma NamePrinted(c: Component, tail: string)
    requires GoodComponent(c) && tail != "" && (c.Operator? ==> tail[0] == 'E')
    ensures ParseName(ComponentName(c) + tail) == Some((ComponentName(c), tail))
  {
    var s := ComponentName(c) + tail;
    match c
    case Identifier(id, _) => NumberOfPrinted(id, tail);
    case Special(kind, variant, _) =>
      NotANumber(s);
      assert s[..2] == [kind, variant] && s[2..] == tail;
    case Operator(op, _) => OperatorTaken(op, tail);
  }

  /** An operator is taken up to the next E. */
  lemma OperatorTaken(op: string, tail: string)
    requires IsOperator(op) && Starts(tail, 'E')
    ensures ParseName(op + tail) == Some((op, tail))
  {
    var s := op + tail;
    NotANumber(s);
    assert s[|op|] == 'E' && s[..|op|] == op && s[|op|..] == tail;
    LeadingIs(s, c => c != 'E', |op|);
  }

  lemma {:induction false} ParsesComponents(cs: seq<Component>, rest: string)
    requires OperatorLast(cs) && forall c | c in cs :: GoodComponent(c)
    ensures ParseNames(PrintComponents(cs) + "E" + rest) == Parsed(Names(cs), rest)
    decreases cs, 0
  {
    if cs == [] {
      assert PrintComponents(cs) + "E" + rest == "E" + rest;
      ParsesEnd(rest);
    } else {
      var c, tail := cs[0], PrintComponents(cs[1..]) + "E" + rest;
      assert c in cs;
      ParsesComponents(cs[1..], rest);
      ComponentsStart(cs[1..], rest);
      AfterOperator(cs, rest);
      ParsesComponent(c, tail);
      Associate(PrintComponent(c), PrintComponents(cs[1..]), "E", rest);
      NamesCons(cs);
    }
  }

  lemma AfterOperator(cs: seq<Component>, rest: string)
    requires cs != [] && OperatorLast(cs)
    ensures OperatorLast(cs[1..]) && (cs[0].Operator? ==> Starts(PrintComponents(cs[1..]) + "E" + rest, 'E'))
  {
    if cs[0].Operator? {
      assert cs[1..] == [];
      assert PrintComponents([]) + "E" + rest == "E" + rest;
    }
  }

  lemma ParsesEnd(rest: string)
    ensures ParseNames("E" + rest) == Parsed([], rest)
  {
    assert ("E" + rest)[1..] == rest;
  }

  lemma NamesCons(cs: seq<Component>)
    requires cs != []
    ensures Names(cs) == [(ComponentName(cs[0]), cs[0].args.TemplateOf?)] + Names(cs[1..])
  {
  }

  lemma {:induction false} ParsesComponent(c: Component, tail: string)
    requires GoodComponent(c) && tail != "" && tail[0] != 'I' && (c.Operator? ==> tail[0] == 'E')
    ensures ParseNames(PrintComponent(c) + tail) == Prepend([(ComponentName(c), c.args.TemplateOf?)], ParseNames(tail))
    decreases c
  {
    hide SkipArguments, ParseNames, PrintArguments, ComponentName, ParseName, Prepend;
    if c.args.TemplateOf? {
      SkipsArguments(c.args.list, tail);
      var inside := PrintArguments(c.args.list) + "E" + tail;
      assert PrintComponent(c) + tail == ComponentName(c) + ("I" + inside);
      NamePrinted(c, "I" + inside);
      ParsesTemplate(ComponentName(c) + ("I" + inside), c, inside, tail);
    } else {
      assert PrintComponent(c) + tail == ComponentName(c) + tail;
      NamePrinted(c, tail);
      ParsesPlain(ComponentName(c) + tail, c, tail);
    }
  }

  lemma NameNotEmpty(c: Component)
    requires GoodComponent(c)
    ensures ComponentName(c) != "" && ComponentName(c)[0] != 'E'
  {
  }

  lemma ParsesTemplate(s: string, c: Component, inside: string, tail: string)
    requires GoodComponent(c) && s == ComponentName(c) + ("I" + inside)
    requires ParseName(s) == Some((ComponentName(c), "I" + inside)) && SkipArguments(inside) == Rest(tail)
    ensures ParseNames(s) == Prepend([(ComponentName(c), true)], ParseNames(tail))
  {
    hide GoodComponent, ParseName, SkipArguments, ComponentName;
    NameNotEmpty(c);
    assert ("I" + inside)[1..] == inside;
  }

  lemma ParsesPlain(s: string, c: Component, tail: string)
    requires GoodComponent(c) && s == ComponentName(c) + tail && tail != "" && tail[0] != 'I'
    requires ParseName(s) == Some((ComponentName(c), tail))
    ensures ParseNames(s) == Prepend([(ComponentName(c), false)], ParseNames(tail))
  {
    NameNotEmpty(c);
  }

  /** Before the names, everything else is skipped. */
  lemma ParsesPrinted(prefix: Prefix, names: seq<Component>, rest: string)
    requires GoodPrefix(prefix) && OperatorAfter(names) && forall c | c in names :: GoodComponent(c)
    ensures var s := PrintNested(prefix, names) + rest;
            && Starts(s, 'N') && ParseNested(s) == ParseNames(PrintComponents(names) + "E" + rest)
  {
    hide PrintComponents, PrintPrefix, ParseNames, AfterSubstitution, GreedyPrefix;
    ComponentsStart(names, rest);
    PrefixSkipped(prefix, PrintComponents(names) + "E" + rest);
    AfterN(PrintPrefix(prefix), PrintComponents(names), rest);
  }

  lemma AfterN(prefix: string, names: string, rest: string)
    ensures var s := "N" + prefix + names + "E" + rest;
            s[0] == 'N' && s[1..] == prefix + (names + "E" + rest)
  {
  }

  lemma PrefixSkipped(prefix: Prefix, tail: string)
    requires GoodPrefix(prefix) && tail != "" && (IsDigit(tail[0]) || tail[0] in "CDE")
    ensures var s := PrintPrefix(prefix) + tail;
            var inside := if AfterSubstitution(s).Some? then AfterSubstitution(s).value else s;
            inside[GreedyPrefix(inside, IsQualifier)..] == tail
  {
    hide AfterSubstitution, PrintSubstitution;
    var s, inside := PrintPrefix(prefix) + tail, prefix.qualifiers + tail;
    assert inside[0] == if prefix.qualifiers == "" then tail[0] else prefix.qualifiers[0];
    if prefix.substitution.Some? {
      SubstitutionPrinted(prefix.substitution.value, inside);
      assert s == PrintSubstitution(prefix.substitution.value) + inside;
    } else {
      assert s == inside;
      NotASubstitution(s);
    }
    LeadingIs(inside, IsQualifier, |prefix.qualifiers|);
    assert inside[|prefix.qualifiers|..] == tail;
  }

  /** The parser inverts the printer: a printed nested name, whatever follows it, gives back its names, whether each has
      template arguments, and what follows. */
  lemma ParserInvertsPrinter(prefix: Prefix, names: seq<Component>, rest: string)
    requires GoodPrefix(prefix) && OperatorAfter(names) && forall c | c in names :: GoodComponent(c)
    ensures var s := PrintNested(prefix, names) + rest;
            Starts(s, 'N') && ParseNested(s) == Parsed(Names(names), rest)
  {
    ParsesPrinted(prefix, names, rest);
    ParsesComponents(names, rest);
  }

  // ----- Any string -----

  /** A number is taken as far as it goes, but for the last character. */
  lemma NumberIs(s: string)
    ensures match Number(s)
            case None => |s| < 2 || !IsDigit(s[0])
            case Some((k, n)) =>
              && 0 < k < |s| && (forall i | 0 <= i < k :: IsDigit(s[i])) && n == ParseInt(s[..k])
              && (k == |s| - 1 || !IsDigit(s[k]))
  {
  }

  /** A name that starts with a number is so many characters, or all there are; a constructor or destructor is two; and
      anything else goes up to the next E, or leaves the last character. Nothing is lost. */
  lemma ParseNameTakes(s: string)
    ensures match ParseName(s)
            case None => Number(s).None? && (|s| < 2 || s[0] == 'E')
            case Some((name, rest)) =>
              && name + rest == s && name != ""
              && if Number(s).Some? then |name| == Min(Number(s).value.0 + Number(s).value.1, |s|)
                 else if |s| > 2 && s[0] in "CD" && s[1] in "123" then |name| == 2
                 else 'E' !in name && (Starts(rest, 'E') || |rest| == 1)
  {
    if Number(s).Some? {
      var (k, n) := Number(s).value;
      assert s == s[..k] + (Take(s[k..], n) + Drop(s[k..], n));
    }
  }

  /** A substitution is taken off exactly where one was printed. */
  lemma SubstitutionIff(s: string, rest: string)
    ensures AfterSubstitution(s) == Some(rest) <==>
            rest != "" && exists seqId :: IsSeqId(seqId) && s == PrintSubstitution(seqId) + rest
  {
    if AfterSubstitution(s) == Some(rest) {
      var k := Leading(s[1..], IsSeqIdChar);
      var seqId := s[1..][..k];
      assert s == "S" + seqId + "_" + rest;
      assert IsSeqId(seqId) && s == PrintSubstitution(seqId) + rest;
    }
    if rest != "" && exists seqId :: IsSeqId(seqId) && s == PrintSubstitution(seqId) + rest {
      var seqId :| IsSeqId(seqId) && s == PrintSubstitution(seqId) + rest;
      SubstitutionPrinted(seqId, rest);
    }
  }

  lemma {:induction false} SkipsBefore(args: seq<Argument>, tail: string)
    requires (forall a | a in args :: GoodArgument(a)) && tail != ""
    ensures SkipArguments(PrintArguments(args) + tail) == SkipArguments(tail)
  {
    if args == [] {
      assert PrintArguments(args) + tail == tail;
    } else {
      assert args[0] in args;
      SkipsBefore(args[1..], tail);
      SkipsArgument(args[0], PrintArguments(args[1..]) + tail);
      assert PrintArguments(args) + tail == PrintArgument(args[0]) + (PrintArguments(args[1..]) + tail);
    }
  }

  lemma BeforeStarts(cs: seq<Component>, tail: string)
    requires forall c | c in cs :: GoodComponent(c) && !c.Operator?
    requires tail != "" && tail[0] != 'I'
    ensures var s := PrintComponents(cs) + tail;
            s != "" && s[0] != 'I' && (cs != [] ==> IsDigit(s[0]) || s[0] in "CD")
  {
    if cs != [] {
      assert cs[0] in cs;
      NameStarts(cs[0]);
      assert PrintComponent(cs[0])[0] == ComponentName(cs[0])[0];
    }
  }

  lemma {:induction false} ParsesBefore(cs: seq<Component>, tail: string)
    requires forall c | c in cs :: GoodComponent(c) && !c.Operator?
    requires tail != "" && tail[0] != 'I'
    ensures ParseNames(PrintComponents(cs) + tail) == Prepend(Names(cs), ParseNames(tail))
  {
    hide GoodComponent, ParseNames, ComponentName, Prepend, PrintComponent;
    if cs == [] {
      assert PrintComponents(cs) + tail == tail && Names(cs) == [];
      NothingBefore(ParseNames(tail));
    } else {
      var c, after := cs[0], PrintComponents(cs[1..]) + tail;
      assert c in cs;
      ParsesBefore(cs[1..], tail);
      BeforeStarts(cs[1..], tail);
      ParsesComponent(c, after);
      assert PrintComponents(cs) + tail == PrintComponent(c) + after;
      NamesCons(cs);
      PrependTwice([(ComponentName(c), c.args.TemplateOf?)], Names(cs[1..]), ParseNames(tail));
    }
  }

  lemma NothingBefore(r: Nested)
    ensures Prepend([], r) == r
  {
  }

  /** Whatever was printed before it, a literal or an expression in template arguments is given up on. */
  lemma GivesUp(args: seq<Argument>, c: char, more: string)
    requires (forall a | a in args :: GoodArgument(a)) && c in "LX"
    ensures SkipArguments(PrintArguments(args) + ([c] + more)) == TooComplexTemplate
  {
    SkipsBefore(args, [c] + more);
    NotANumber([c] + more);
    NotASubstitution([c] + more);
  }

  /** Where the text ends before the arguments do, nothing is left. */
  lemma ArgumentsCutOff(args: seq<Argument>, c: char)
    requires (forall a | a in args :: GoodArgument(a)) && c !in "NLXE"
    ensures SkipArguments(PrintArguments(args) + [c]) == NoRest
  {
    SkipsBefore(args, [c]);
    OneCharacter(c);
  }

  lemma OneCharacter(c: char)
    requires c !in "NLXE"
    ensures SkipArguments([c]) == NoRest
  {
    var s: string := [c];
    assert Number(s) == None && AfterSubstitution(s) == None;
    assert s[1..] == "" && SkipArguments("") == NoRest;
  }

  /** A nested name in which template arguments are given up on is too complex as a whole; and where the arguments are
      cut off, there is no name. */
  lemma NestedFails(prefix: Prefix, names: seq<Component>, last: Component, args: seq<Argument>, tail: string)
    requires GoodPrefix(prefix) && forall c | c in names :: GoodComponent(c) && !c.Operator?
    requires GoodComponent(last) && !last.Operator? && last.args.NoTemplate? && tail != ""
    requires forall a | a in args :: GoodArgument(a)
    ensures var s := "N" + PrintPrefix(prefix) + PrintComponents(names) + ComponentName(last) + "I"
                     + PrintArguments(args) + tail;
            && Starts(s, 'N')
            && (SkipArguments(tail) == TooComplexTemplate ==> ParseNested(s) == TooComplex)
            && (SkipArguments(tail) == NoRest ==> ParseNested(s) == Failed)
  {
    hide SkipArguments, ParseNames, AfterSubstitution, GreedyPrefix, GoodComponent, GoodPrefix, PrintPrefix;
    var inside := PrintArguments(args) + tail;
    var named := ComponentName(last) + ("I" + inside);
    SkipsBefore(args, tail);
    NamePrinted(last, "I" + inside);
    NameStarts(last);
    TemplateFails(named, ComponentName(last), inside);
    ParsesBefore(names, named);
    BeforeStarts(names, named);
    PrefixSkipped(prefix, PrintComponents(names) + named);
    Spelled(PrintPrefix(prefix), PrintComponents(names), ComponentName(last), PrintArguments(args), tail);
  }

  lemma Spelled(prefix: string, names: string, last: string, args: string, tail: string)
    ensures var s := "N" + prefix + names + last + "I" + args + tail;
            s[0] == 'N' && s[1..] == prefix + (names + (last + ("I" + (args + tail))))
  {
  }

  lemma TemplateFails(s: string, name: string, inside: string)
    requires s == name + ("I" + inside) && ParseName(s) == Some((name, "I" + inside)) && name != "" && name[0] != 'E'
    ensures SkipArguments(inside) == TooComplexTemplate ==> ParseNames(s) == TooComplex
    ensures SkipArguments(inside) == NoRest ==> ParseNames(s) == Failed
  {
    hide ParseName, SkipArguments;
    assert ("I" + inside)[1..] == inside;
  }

  /** Nor is there one where an identifier is cut off. */
  lemma IdentifierCutOff(prefix: Prefix, names: seq<Component>, id: string, n: nat)
    requires GoodPrefix(prefix) && forall c | c in names :: GoodComponent(c) && !c.Operator?
    requires IsIdentifier(id) && n >= |id|
    ensures var s := "N" + PrintPrefix(prefix) + PrintComponents(names) + Decimal(n) + id;
            Starts(s, 'N') && ParseNested(s) == Failed
  {
    hide ParseNames, AfterSubstitution, GreedyPrefix, GoodComponent, GoodPrefix, PrintPrefix;
    var cut := Decimal(n) + id;
    CutIdentifier(id, n);
    ParsesBefore(names, cut);
    BeforeStarts(names, cut);
    PrefixSkipped(prefix, PrintComponents(names) + cut);
    SpelledCut(PrintPrefix(prefix), PrintComponents(names), Decimal(n), id);
  }

  lemma SpelledCut(prefix: string, names: string, digits: string, id: string)
    ensures var s := "N" + prefix + names + digits + id;
            s[0] == 'N' && s[1..] == prefix + (names + (digits + id))
  {
  }

  lemma CutIdentifier(id: string, n: nat)
    requires IsIdentifier(id) && n >= |id|
    ensures var s := Decimal(n) + id; IsDigit(s[0]) && ParseNames(s) == Failed
  {
    var digits := Decimal(n);
    var s := digits + id;
    LeadingIs(s, IsDigit, |digits|);
    assert s[..|digits|] == digits && s[|digits|..] == id;
    DecimalParses(n);
    assert Drop(id, n) == "";
    assert ParseNames("") == Failed;
  }
}
