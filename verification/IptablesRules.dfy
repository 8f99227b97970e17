/**
  iptables instructions as the firewall writes them, the parser that reads the
  deleting ones back, and the comparison of an instruction with a listed rule.

  An instruction is the list of its space-separated fields. A field is a word, or
  the printed form of a value: a comma-separated list of decimal numbers, an IP
  prefix, a list of connection states or a list of TCP flags. Reading such a
  field back gives the value that was printed.
 */
module IptablesRules {
  import opened Wrappers

  /** An IP prefix; address and length are numbers of the prefix's own family. */
  datatype Prefix = Prefix(v6: bool, address: nat, bits: nat)

  datatype TcpFlag = FIN | SYN | RST | PSH | ACK | URG | ECE | CWR

  datatype Field =
    | Word(text: string)
    | Numbers(numbers: seq<nat>)
    | Cidr(prefix: Prefix)
    | States(states: seq<string>)
    | Flags(flags: seq<TcpFlag>)

  /** The instruction record that the parser fills in. */
  datatype Instruction = Instruction(
    table: string,
    append: bool,
    chain: string,
    target: string,
    protocol: string,
    inInterface: string,
    outInterface: string,
    source: Option<Prefix>,
    sourcePort: nat,
    destination: Option<Prefix>,
    destinationPort: nat,
    toPorts: seq<nat>,
    states: seq<string>,
    mask: seq<TcpFlag>,
    comparison: seq<TcpFlag>,
    markInvert: bool,
    markValue: nat)

  const EMPTY := Instruction("", false, "", "", "", "", "", None, 0, None, 0, [], [], [], [], false, 0)

  // -------------------------------------------------------------- the parser

  datatype Parsed<T> = Ok(value: T) | Malformed | Panics

  /** The fields consumed by one flag, and the record after it. */
  datatype Step = Step(consumed: nat, instruction: Instruction)

  function ParsePort(f: Field): Option<nat> {
    if f.Numbers? && |f.numbers| == 1 && f.numbers[0] < 0x1_0000 then Some(f.numbers[0]) else None
  }

  datatype Flag =
    | TableFlag | DeleteFlag | AppendFlag | JumpFlag | ProtocolFlag | MatchFlag | MarkFlag | InFlag | OutFlag
    | SourceFlag | SportFlag | DestinationFlag | DportFlag | CtStateFlag | ToPortsFlag | TcpFlagsFlag | UnknownFlag

  function FlagOf(f: Field): Flag {
    if !f.Word? then UnknownFlag
    else if f.text == "-t" || f.text == "--table" then TableFlag
    else if f.text == "-D" || f.text == "--delete" then DeleteFlag
    else if f.text == "-A" || f.text == "--append" then AppendFlag
    else if f.text == "-j" || f.text == "--jump" then JumpFlag
    else if f.text == "-p" || f.text == "--protocol" then ProtocolFlag
    else if f.text == "-m" || f.text == "--match" then MatchFlag
    else if f.text == "--mark" then MarkFlag
    else if f.text == "-i" || f.text == "--in-interface" then InFlag
    else if f.text == "-o" || f.text == "--out-interface" then OutFlag
    else if f.text == "-s" || f.text == "--source" then SourceFlag
    else if f.text == "--sport" then SportFlag
    else if f.text == "-d" || f.text == "--destination" then DestinationFlag
    else if f.text == "--dport" then DportFlag
    else if f.text == "--ctstate" then CtStateFlag
    else if f.text == "--to-ports" then ToPortsFlag
    else if f.text == "--tcp-flags" then TcpFlagsFlag
    else UnknownFlag
  }

  /**
    The flag fields[0] and its values. With conntrack set, this is how the iptables
    program reads its arguments, which also knows that match module; without, it is
    the repository's own parser, which does not.
   */
  function ParseFlag(fields: seq<Field>, i: Instruction, conntrack: bool): (r: Parsed<Step>)
    requires fields != []
    ensures r.Ok? ==> 2 <= r.value.consumed <= |fields|
  {
    var flag := FlagOf(fields[0]);
    if |fields| < (if flag.TcpFlagsFlag? then 3 else 2) then Malformed
    else if flag.MatchFlag? then ParseMatch(fields, i, conntrack)
    else if flag.TcpFlagsFlag? then
      if fields[1].Flags? && fields[2].Flags?
      then Ok(Step(3, i.(mask := fields[1].flags, comparison := fields[2].flags))) else Malformed
    else
      match SetValue(flag, fields[1], i)
      case Some(next) => Ok(Step(2, next))
      case None =>
        // the error message for a mark prints the third field
        if flag.MarkFlag? && |fields| < 3 then Panics else Malformed
  }

  /** The flags with one value. */
  function SetValue(flag: Flag, value: Field, i: Instruction): Option<Instruction> {
    match flag
    case TableFlag => if value.Word? then Some(i.(table := value.text)) else None
    case DeleteFlag => if value.Word? then Some(i.(append := false, chain := value.text)) else None
    case AppendFlag => if value.Word? then Some(i.(append := true, chain := value.text)) else None
    case JumpFlag => if value.Word? then Some(i.(target := value.text)) else None
    case ProtocolFlag => if value.Word? then Some(i.(protocol := value.text)) else None
    case InFlag => if value.Word? then Some(i.(inInterface := value.text)) else None
    case OutFlag => if value.Word? then Some(i.(outInterface := value.text)) else None
    case SourceFlag => if value.Cidr? then Some(i.(source := Some(value.prefix))) else None
    case DestinationFlag => if value.Cidr? then Some(i.(destination := Some(value.prefix))) else None
    case SportFlag =>
      if ParsePort(value).Some? then Some(i.(sourcePort := ParsePort(value).value)) else None
    case DportFlag =>
      if ParsePort(value).Some? then Some(i.(destinationPort := ParsePort(value).value)) else None
    case CtStateFlag => if value.States? then Some(i.(states := value.states)) else None
    case ToPortsFlag =>
      if value.Numbers? && forall n <- value.numbers :: n < 0x1_0000
      then Some(i.(toPorts := value.numbers)) else None
    case MarkFlag =>
      if value.Numbers? && |value.numbers| == 1 && value.numbers[0] < 0x1_0000_0000
      then Some(i.(markValue := value.numbers[0])) else None
    case _ => None
  }

  /** A match module, with its optional inversion. */
  function ParseMatch(fields: seq<Field>, i: Instruction, conntrack: bool): (r: Parsed<Step>)
    requires 2 <= |fields|
    ensures r.Ok? ==> 2 <= r.value.consumed <= |fields|
  {
    if fields[1] == Word("tcp") || fields[1] == Word("udp") then Ok(Step(2, i))
    else if fields[1] == Word("conntrack") && conntrack then Ok(Step(2, i))
    else if fields[1] == Word("mark") then
      if |fields| < 3 then Panics          // reads past the last field
      else if fields[2] == Word("!") then Ok(Step(3, i.(markInvert := true)))
      else Malformed
    else Malformed
  }

  function ParseFrom(fields: seq<Field>, i: Instruction, conntrack: bool): Parsed<Instruction>
    decreases |fields|
  {
    if fields == [] then Ok(if i.table == "" then i.(table := "filter") else i)
    else match ParseFlag(fields, i, conntrack)
      case Ok(step) => ParseFrom(fields[step.consumed..], step.instruction, conntrack)
      case Malformed => Malformed
      case Panics => Panics
  }

  function Parse(fields: seq<Field>, conntrack: bool): Parsed<Instruction> {
    if fields == [] then Malformed else ParseFrom(fields, EMPTY, conntrack)
  }

  method ParseInstruction(fields: seq<Field>) returns (r: Parsed<Instruction>)
    ensures r == Parse(fields, false)
  {
    hide ParseFlag, FlagOf;
    if fields == [] {
      return Malformed;
    }
    var instruction := EMPTY;
    var i := 0;
    while i < |fields|
      invariant 0 <= i <= |fields|
      invariant Parse(fields, false) == ParseFrom(fields[i..], instruction, false)
    {
      match ParseFlag(fields[i..], instruction, false) {
        case Ok(step) =>
          assert fields[i..][step.consumed..] == fields[i + step.consumed..];
          instruction, i := step.instruction, i + step.consumed;
        case Malformed => return Malformed;
        case Panics => return Panics;
      }
    }
    if instruction.table == "" {
      instruction := instruction.(table := "filter");
    }
    return Ok(instruction);
  }

  // ------------------------------------------------- what the firewall writes

  /** One setting of an instruction, in any of the forms the firewall writes. */
  datatype Clause =
    | Table(table: string)
    | Append(chain: string)
    | Delete(chain: string)
    | Jump(target: string)
    | Protocol(protocol: string)
    | MatchProtocol(protocol: string)
    | NotMark(value: nat)
    | In(intf: string)
    | Out(intf: string)
    | Source(prefix: Prefix)
    | SourcePort(port: nat)
    | Destination(prefix: Prefix)
    | DestinationPort(port: nat)
    | ToPorts(ports: seq<nat>)
    | TcpFlags(mask: seq<TcpFlag>, comparison: seq<TcpFlag>)

  function Print(c: Clause): seq<Field> {
    match c
    case Table(t) => [Word("-t"), Word(t)]
    case Append(chain) => [Word("--append"), Word(chain)]
    case Delete(chain) => [Word("--delete"), Word(chain)]
    case Jump(t) => [Word("-j"), Word(t)]
    case Protocol(p) => [Word("-p"), Word(p)]
    case MatchProtocol(p) => [Word("-m"), Word(p)]
    case NotMark(n) => [Word("-m"), Word("mark"), Word("!"), Word("--mark"), Numbers([n])]
    case In(intf) => [Word("-i"), Word(intf)]
    case Out(intf) => [Word("-o"), Word(intf)]
    case Source(p) => [Word("-s"), Cidr(p)]
    case SourcePort(n) => [Word("--sport"), Numbers([n])]
    case Destination(p) => [Word("-d"), Cidr(p)]
    case DestinationPort(n) => [Word("--dport"), Numbers([n])]
    case ToPorts(ports) => [Word("--to-ports"), Numbers(ports)]
    case TcpFlags(mask, comparison) => [Word("--tcp-flags"), Flags(mask), Flags(comparison)]
  }

  function PrintAll(cs: seq<Clause>): seq<Field> {
    if cs == [] then [] else Print(cs[0]) + PrintAll(cs[1..])
  }

  /** Values that fit the machine integers they are kept in, and a protocol with a match module. */
  ghost predicate Writable(c: Clause) {
    match c
    case MatchProtocol(p) => p == "tcp" || p == "udp"
    case NotMark(n) => n < 0x1_0000_0000
    case SourcePort(n) => n < 0x1_0000
    case DestinationPort(n) => n < 0x1_0000
    case ToPorts(ports) => forall n :: n in ports ==> n < 0x1_0000
    case _ => true
  }

  ghost predicate AllWritable(cs: seq<Clause>) {
    forall c :: c in cs ==> Writable(c)
  }

  /** What a clause says about the rule. */
  ghost function Effect(c: Clause, i: Instruction): Instruction {
    match c
    case Table(t) => i.(table := t)
    case Append(chain) => i.(append := true, chain := chain)
    case Delete(chain) => i.(append := false, chain := chain)
    case Jump(t) => i.(target := t)
    case Protocol(p) => i.(protocol := p)
    case MatchProtocol(_) => i
    case NotMark(n) => i.(markInvert := true, markValue := n)
    case In(intf) => i.(inInterface := intf)
    case Out(intf) => i.(outInterface := intf)
    case Source(p) => i.(source := Some(p))
    case SourcePort(n) => i.(sourcePort := n)
    case Destination(p) => i.(destination := Some(p))
    case DestinationPort(n) => i.(destinationPort := n)
    case ToPorts(ports) => i.(toPorts := ports)
    case TcpFlags(mask, comparison) => i.(mask := mask, comparison := comparison)
  }

  ghost function Effects(cs: seq<Clause>, i: Instruction): Instruction {
    if cs == [] then i else Effects(cs[1..], Effect(cs[0], i))
  }

  lemma ShortFlags()
    ensures FlagOf(Word("-t")) == TableFlag && FlagOf(Word("-j")) == JumpFlag
    ensures FlagOf(Word("-p")) == ProtocolFlag && FlagOf(Word("-m")) == MatchFlag
    ensures FlagOf(Word("-i")) == InFlag && FlagOf(Word("-o")) == OutFlag
    ensures FlagOf(Word("-s")) == SourceFlag && FlagOf(Word("-d")) == DestinationFlag
  {
  }

  lemma LongMatchFlags()
    ensures FlagOf(Word("--table")) == TableFlag && FlagOf(Word("--jump")) == JumpFlag
    ensures FlagOf(Word("--protocol")) == ProtocolFlag && FlagOf(Word("--match")) == MatchFlag
  {
  }

  lemma LongAddressFlags()
    ensures FlagOf(Word("--in-interface")) == InFlag && FlagOf(Word("--out-interface")) == OutFlag
    ensures FlagOf(Word("--source")) == SourceFlag && FlagOf(Word("--destination")) == DestinationFlag
  {
  }

  lemma ShortVerbFlags()
    ensures FlagOf(Word("-A")) == AppendFlag && FlagOf(Word("-D")) == DeleteFlag
  {
  }

  /** Ten flags have a short and a long name, which mean the same. */
  lemma LongFlags()
    ensures FlagOf(Word("--table")) == FlagOf(Word("-t")) && FlagOf(Word("--delete")) == FlagOf(Word("-D"))
    ensures FlagOf(Word("--append")) == FlagOf(Word("-A")) && FlagOf(Word("--jump")) == FlagOf(Word("-j"))
    ensures FlagOf(Word("--protocol")) == FlagOf(Word("-p")) && FlagOf(Word("--match")) == FlagOf(Word("-m"))
    ensures FlagOf(Word("--in-interface")) == FlagOf(Word("-i")) && FlagOf(Word("--out-interface")) == FlagOf(Word("-o"))
    ensures FlagOf(Word("--source")) == FlagOf(Word("-s")) && FlagOf(Word("--destination")) == FlagOf(Word("-d"))
  {
    hide FlagOf;
    ShortFlags();
    VerbFlags();
    ShortVerbFlags();
    LongMatchFlags();
    LongAddressFlags();
  }

  lemma VerbFlags()
    ensures FlagOf(Word("--append")) == AppendFlag && FlagOf(Word("--delete")) == DeleteFlag
    ensures FlagOf(Word("--mark")) == MarkFlag
  {
  }

  lemma PortFlags()
    ensures FlagOf(Word("--sport")) == SportFlag && FlagOf(Word("--dport")) == DportFlag
    ensures FlagOf(Word("--to-ports")) == ToPortsFlag && FlagOf(Word("--tcp-flags")) == TcpFlagsFlag
  {
  }

  /** One printed clause is read back as its effect, whatever follows. */
  lemma ParsePrintedClause(c: Clause, rest: seq<Field>, i: Instruction, conntrack: bool)
    requires Writable(c)
    ensures ParseFrom(Print(c) + rest, i, conntrack) == ParseFrom(rest, Effect(c, i), conntrack)
  {
    ShortFlags();
    VerbFlags();
    PortFlags();
    hide FlagOf;
    var fields := Print(c) + rest;
    if c.NotMark? {
      assert fields[3..] == [Word("--mark"), Numbers([c.value])] + rest;
      assert fields[3..][2..] == rest;
    } else if c.TcpFlags? {
      assert fields[3..] == rest;
    } else {
      assert fields[2..] == rest;
    }
  }

  /** Printed clauses, in any order and with repetitions, are read back as their joint effect. */
  lemma {:induction false} ParsePrinted(cs: seq<Clause>, i: Instruction, conntrack: bool)
    requires AllWritable(cs)
    ensures ParseFrom(PrintAll(cs), i, conntrack) == ParseFrom([], Effects(cs, i), conntrack)
  {
    if cs != [] {
      ParsePrintedClause(cs[0], PrintAll(cs[1..]), i, conntrack);
      ParsePrinted(cs[1..], Effect(cs[0], i), conntrack);
    }
  }

  const ANY4 := Prefix(false, 0, 0)

  ghost function If(written: bool, c: Clause): seq<Clause> {
    if written then [c] else []
  }

  /** The clauses of a record, in one canonical order; settings left empty are not written. */
  ghost function ClausesOf(i: Instruction): seq<Clause> {
    If(i.table != "filter", Table(i.table))
    + (If(i.append, Append(i.chain))
    + (If(!i.append, Delete(i.chain))
    + (If(i.inInterface != "", In(i.inInterface))
    + (If(i.outInterface != "", Out(i.outInterface))
    + MatchClauses(i)))))
  }

  ghost function MatchClauses(i: Instruction): seq<Clause> {
    If(i.protocol != "", Protocol(i.protocol))
    + (If(i.protocol == "tcp" || i.protocol == "udp", MatchProtocol(i.protocol))
    + (If(i.source.Some?, Source(i.source.GetOr(ANY4)))
    + PlaceClauses(i)))
  }

  ghost function PlaceClauses(i: Instruction): seq<Clause> {
    If(i.sourcePort != 0, SourcePort(i.sourcePort))
    + (If(i.destination.Some?, Destination(i.destination.GetOr(ANY4)))
    + (If(i.destinationPort != 0, DestinationPort(i.destinationPort))
    + FlagClauses(i)))
  }

  ghost function FlagClauses(i: Instruction): seq<Clause> {
    If(i.mask != [] || i.comparison != [], TcpFlags(i.mask, i.comparison))
    + (If(i.markInvert, NotMark(i.markValue))
    + TargetClauses(i))
  }

  ghost function TargetClauses(i: Instruction): seq<Clause> {
    If(i.target != "", Jump(i.target))
    + (If(i.toPorts != [], ToPorts(i.toPorts))
    + [])
  }

  /** The records the parser can be given: no connection states, marks only inverted. */
  ghost predicate DeleteParsable(i: Instruction) {
    && i.table != "" && i.states == []
    && i.sourcePort < 0x1_0000 && i.destinationPort < 0x1_0000
    && (forall n :: n in i.toPorts ==> n < 0x1_0000)
    && i.markValue < 0x1_0000_0000 && (!i.markInvert ==> i.markValue == 0)
  }

  lemma NoClauses(i: Instruction)
    ensures Effects([], i) == i && AllWritable([])
  {
  }

  lemma Next(written: bool, c: Clause, rest: seq<Clause>, i: Instruction) returns (next: Instruction)
    ensures next == if written then Effect(c, i) else i
    ensures Effects(If(written, c) + rest, i) == Effects(rest, next)
    ensures AllWritable(rest) && (written ==> Writable(c)) ==> AllWritable(If(written, c) + rest)
  {
    next := if written then Effect(c, i) else i;
    assert If(written, c) + rest == if written then [c] + rest else rest;
  }

  lemma PrintIf(written: bool, c: Clause, rest: seq<Clause>)
    ensures PrintAll(If(written, c) + rest) == (if written then Print(c) else []) + PrintAll(rest)
  {
    assert If(written, c) + rest == if written then [c] + rest else rest;
  }

  lemma ClausesSetChain(i: Instruction, i0: Instruction) returns (e: Instruction)
    ensures e == i0.(table := if i.table == "filter" then i0.table else i.table, append := i.append, chain := i.chain,
                     inInterface := if i.inInterface == "" then i0.inInterface else i.inInterface,
                     outInterface := if i.outInterface == "" then i0.outInterface else i.outInterface)
    ensures Effects(ClausesOf(i), i0) == Effects(MatchClauses(i), e)
    ensures DeleteParsable(i) && AllWritable(MatchClauses(i)) ==> AllWritable(ClausesOf(i))
  {
    var r5: seq<Clause> := MatchClauses(i);
    var r4 := If(i.outInterface != "", Out(i.outInterface)) + r5;
    var r3 := If(i.inInterface != "", In(i.inInterface)) + r4;
    var r2 := If(!i.append, Delete(i.chain)) + r3;
    var r1 := If(i.append, Append(i.chain)) + r2;
    hide Effects, AllWritable, MatchClauses;
    e := Next(i.table != "filter", Table(i.table), r1, i0);
    e := Next(i.append, Append(i.chain), r2, e);
    e := Next(!i.append, Delete(i.chain), r3, e);
    e := Next(i.inInterface != "", In(i.inInterface), r4, e);
    e := Next(i.outInterface != "", Out(i.outInterface), r5, e);
  }

  lemma ClausesSetMatch(i: Instruction, i0: Instruction) returns (e: Instruction)
    ensures e == i0.(protocol := if i.protocol == "" then i0.protocol else i.protocol,
                     source := if i.source.None? then i0.source else i.source)
    ensures Effects(MatchClauses(i), i0) == Effects(PlaceClauses(i), e)
    ensures DeleteParsable(i) && AllWritable(PlaceClauses(i)) ==> AllWritable(MatchClauses(i))
  {
    var r3: seq<Clause> := PlaceClauses(i);
    var r2 := If(i.source.Some?, Source(i.source.GetOr(ANY4))) + r3;
    var r1 := If(i.protocol == "tcp" || i.protocol == "udp", MatchProtocol(i.protocol)) + r2;
    hide Effects, AllWritable, PlaceClauses;
    e := Next(i.protocol != "", Protocol(i.protocol), r1, i0);
    e := Next(i.protocol == "tcp" || i.protocol == "udp", MatchProtocol(i.protocol), r2, e);
    e := Next(i.source.Some?, Source(i.source.GetOr(ANY4)), r3, e);
  }

  lemma ClausesSetPlace(i: Instruction, i0: Instruction) returns (e: Instruction)
    ensures e == i0.(sourcePort := if i.sourcePort == 0 then i0.sourcePort else i.sourcePort,
                     destination := if i.destination.None? then i0.destination else i.destination,
                     destinationPort := if i.destinationPort == 0 then i0.destinationPort else i.destinationPort)
    ensures Effects(PlaceClauses(i), i0) == Effects(FlagClauses(i), e)
    ensures DeleteParsable(i) && AllWritable(FlagClauses(i)) ==> AllWritable(PlaceClauses(i))
  {
    var r3: seq<Clause> := FlagClauses(i);
    var r2 := If(i.destinationPort != 0, DestinationPort(i.destinationPort)) + r3;
    var r1 := If(i.destination.Some?, Destination(i.destination.GetOr(ANY4))) + r2;
    hide Effects, AllWritable, FlagClauses;
    e := Next(i.sourcePort != 0, SourcePort(i.sourcePort), r1, i0);
    e := Next(i.destination.Some?, Destination(i.destination.GetOr(ANY4)), r2, e);
    e := Next(i.destinationPort != 0, DestinationPort(i.destinationPort), r3, e);
  }

  lemma ClausesSetFlags(i: Instruction, i0: Instruction) returns (e: Instruction)
    ensures e == i0.(mask := if i.mask == i.comparison == [] then i0.mask else i.mask,
                     comparison := if i.mask == i.comparison == [] then i0.comparison else i.comparison,
                     markInvert := i0.markInvert || i.markInvert,
                     markValue := if i.markInvert then i.markValue else i0.markValue)
    ensures Effects(FlagClauses(i), i0) == Effects(TargetClauses(i), e)
    ensures DeleteParsable(i) && AllWritable(TargetClauses(i)) ==> AllWritable(FlagClauses(i))
  {
    var r2: seq<Clause> := TargetClauses(i);
    var r1 := If(i.markInvert, NotMark(i.markValue)) + r2;
    hide Effects, AllWritable, TargetClauses;
    e := Next(i.mask != [] || i.comparison != [], TcpFlags(i.mask, i.comparison), r1, i0);
    e := Next(i.markInvert, NotMark(i.markValue), r2, e);
  }

  lemma ClausesSetTarget(i: Instruction, i0: Instruction) returns (e: Instruction)
    ensures e == i0.(target := if i.target == "" then i0.target else i.target,
                     toPorts := if i.toPorts == [] then i0.toPorts else i.toPorts)
    ensures Effects(TargetClauses(i), i0) == e
    ensures DeleteParsable(i) ==> AllWritable(TargetClauses(i))
  {
    var r2: seq<Clause> := [];
    var r1 := If(i.toPorts != [], ToPorts(i.toPorts)) + r2;
    hide Effects, AllWritable;
    e := Next(i.target != "", Jump(i.target), r1, i0);
    e := Next(i.toPorts != [], ToPorts(i.toPorts), r2, e);
    NoClauses(e);
  }

  /** Every parsable record is what the parser makes of its printed form. */
  lemma PrintParseRoundTrip(i: Instruction, conntrack: bool)
    requires DeleteParsable(i)
    ensures Parse(PrintAll(ClausesOf(i)), conntrack) == Ok(i)
  {
    var chained := ClausesSetChain(i, EMPTY);
    var matched := ClausesSetMatch(i, chained);
    var placed := ClausesSetPlace(i, matched);
    var flagged := ClausesSetFlags(i, placed);
    var done := ClausesSetTarget(i, flagged);
    ParsePrinted(ClausesOf(i), EMPTY, conntrack);
    assert done == i.(table := chained.table);
  }
}
