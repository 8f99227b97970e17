/** The iptables side of the firewall: instructions run one by one, and transactions of them. */
module Iptables {
  import opened Wrappers
  import opened IptablesRules
  import opened IptablesKernel

  datatype Error = CommandFailed | InstructionMalformed | ParserPanic | NatMissing | NeedIp6Tables | PolicyUnknown

  datatype Outcome = Done | Failed(error: Error)

  /** An instruction for iptables or, with v6 set, for ip6tables. */
  datatype Instr = Instr(v6: bool, fields: seq<Field>)

  // ------------------------------------------------- what instructions do

  /** A delete instruction by rule matching, rather than by line number. */
  function IsDeleteMatch(fields: seq<Field>): bool {
    if fields == [] then false
    else if fields[0] != Word("-D") && fields[0] != Word("--delete") then IsDeleteMatch(fields[1..])
    else if |fields| == 1 then false          // malformed: no chain name
    else if |fields| == 2 then true
    else ParsePort(fields[2]).None?           // not a line number
  }

  /**
    What the iptables program itself does when no system error occurs, for the
    appending and policy instructions; None if it rejects the instruction.
   */
  function Program(rs: Ruleset, fields: seq<Field>, v6: bool, hasNat: bool): Option<Ruleset> {
    if |fields| == 3 && fields[0] == Word("--policy") && fields[1].Word? && fields[2].Word? then
      Some(rs.(policies := rs.policies[fields[1].text := fields[2].text]))
    else match Parse(fields, true)
      case Ok(i) =>
        if i.append && i.chain != "" && OfFamily(i, v6) && (i.table == "nat" ==> hasNat)
        then Some(rs.(rules := rs.rules + [RuleOf(i, v6)])) else None
      case _ => None
  }

  /** The rules after one instruction that does not fail; None if it always fails. */
  ghost function Exec(rs: Ruleset, fields: seq<Field>, v6: bool, hasNat: bool): Option<Ruleset> {
    if !IsDeleteMatch(fields) then Program(rs, fields, v6, hasNat)
    else match Parse(fields, false)
      case Ok(i) => if i.table == "nat" ==> hasNat then Some(rs.(rules := DeleteFirst(rs.rules, i))) else None
      case _ => None
  }

  ghost function Run(p: Platform, k: Kernel, x: Instr): Option<Kernel> {
    if !x.v6 then
      match Exec(k.v4, x.fields, false, true)
      case Some(rs) => Some(k.(v4 := rs))
      case None => None
    else if !p.ip6Tables then Some(k)
    else
      match Exec(k.v6, x.fields, true, p.ip6Nat)
      case Some(rs) => Some(k.(v6 := rs))
      case None => None
  }

  ghost function RunAll(p: Platform, k: Kernel, xs: seq<Instr>): Option<Kernel>
    decreases |xs|
  {
    if xs == [] then Some(k)
    else match Run(p, k, xs[0])
      case Some(next) => RunAll(p, next, xs[1..])
      case None => None
  }

  /** The error that an instruction is refused with when no command fails. */
  ghost function Refusal(p: Platform, k: Kernel, x: Instr): Error
    requires Run(p, k, x).None?
  {
    if IsDeleteMatch(x.fields) then
      match Parse(x.fields, false)
      case Ok(_) => NatMissing
      case Panics => ParserPanic
      case Malformed => InstructionMalformed
    else if x.v6 && !p.ip6Nat && Program(k.v6, x.fields, true, true).Some? then NatMissing
    else InstructionMalformed
  }

  ghost function Attempt(p: Platform, k: Kernel, x: Instr): Outcome {
    if Run(p, k, x).Some? then Done else Failed(Refusal(p, k, x))
  }

  /** How instructions, one after the other, end when no command fails. */
  ghost function AttemptAll(p: Platform, k: Kernel, xs: seq<Instr>): (o: Outcome)
    ensures o.Done? <==> RunAll(p, k, xs).Some?
    decreases |xs|
  {
    if xs == [] then Done
    else match Run(p, k, xs[0])
      case Some(next) => AttemptAll(p, next, xs[1..])
      case None => Failed(Refusal(p, k, xs[0]))
  }

  lemma OneInstruction(p: Platform, k: Kernel, xs: seq<Instr>, n: nat)
    requires n < |xs|
    ensures RunAll(p, k, xs[n..]) == match Run(p, k, xs[n]) case Some(next) => RunAll(p, next, xs[n + 1..]) case None => None
    ensures AttemptAll(p, k, xs[n..])
            == match Run(p, k, xs[n])
               case Some(next) => AttemptAll(p, next, xs[n + 1..])
               case None => Attempt(p, k, xs[n])
  {
    hide Run;
    assert xs[n..][1..] == xs[n + 1..];
  }

  lemma RunKeepsOther(p: Platform, k: Kernel, x: Instr)
    ensures Run(p, k, x).Some? ==>
              (!x.v6 ==> Run(p, k, x).value.v6 == k.v6) && (x.v6 ==> Run(p, k, x).value.v4 == k.v4)
              && (!p.ip6Tables ==> Run(p, k, x).value.v6 == k.v6)
    ensures x.v6 && !p.ip6Tables ==> Run(p, k, x) == Some(k)
  {
    hide Exec;
  }

  lemma NoInstruction(p: Platform, k: Kernel, xs: seq<Instr>)
    ensures RunAll(p, k, xs[|xs|..]) == Some(k) && AttemptAll(p, k, xs[|xs|..]) == Done
  {
  }

  /** A redirection that IPv6 NAT is missing for is no failure, once its IPv4 part is accepted. */
  ghost function AttemptRedirect(p: Platform, k: Kernel, intf: string, port: nat, to: nat, remove: bool): Outcome {
    var list := RedirectAndAccept(intf, port, to, remove);
    match RunAll(p, k, OnlyV4(list))
    case None => AttemptAll(p, k, OnlyV4(list))
    case Some(mid) =>
      if AttemptAll(p, mid, OnlyV6(list)) == Failed(NatMissing) then Done else AttemptAll(p, mid, OnlyV6(list))
  }

  lemma {:induction false} RunAllConcat(p: Platform, k: Kernel, xs: seq<Instr>, ys: seq<Instr>)
    ensures RunAll(p, k, xs + ys) == match RunAll(p, k, xs) case Some(next) => RunAll(p, next, ys) case None => None
    decreases |xs|
  {
    if xs == [] {
      assert xs + ys == ys;
    } else {
      assert (xs + ys)[1..] == xs[1..] + ys;
      match Run(p, k, xs[0])
      case Some(next) => RunAllConcat(p, next, xs[1..], ys);
      case None =>
    }
  }

  function OnlyV4(list: seq<seq<Field>>): seq<Instr> {
    seq(|list|, i requires 0 <= i < |list| => Instr(false, list[i]))
  }

  function OnlyV6(list: seq<seq<Field>>): seq<Instr> {
    seq(|list|, i requires 0 <= i < |list| => Instr(true, list[i]))
  }

  /** Each instruction first for iptables, then for ip6tables. */
  function Both(list: seq<seq<Field>>): seq<Instr> {
    if list == [] then [] else [Instr(false, list[0]), Instr(true, list[0])] + Both(list[1..])
  }

  // ------------------------------------------------- what the firewall writes

  /** The clauses of an instruction, in the order the firewall writes them. */
  function Verb(remove: bool, chain: string): Clause {
    if remove then Clause.Delete(chain) else Clause.Append(chain)
  }

  /** An interface flag: none for all interfaces; a flag without its value if the name is empty. */
  function InFlagFields(intf: string): seq<Field> {
    if intf == "*" then [] else if intf == "" then [Word("-i")] else Print(In(intf))
  }

  function OutFlagFields(intf: string): seq<Field> {
    if intf == "*" then [] else if intf == "" then [Word("-o")] else Print(Out(intf))
  }

  function AcceptPort(intf: string, protocol: string, port: nat, remove: bool): seq<Field> {
    Print(Verb(remove, "INPUT")) + InFlagFields(intf)
    + PrintAll([Protocol(protocol), MatchProtocol(protocol), DestinationPort(port), Jump("ACCEPT")])
  }

  function Redirect(intf: string, protocol: string, port: nat, to: nat, remove: bool): seq<Field> {
    PrintAll([Table("nat"), Verb(remove, "PREROUTING")]) + InFlagFields(intf)
    + PrintAll([Protocol(protocol), DestinationPort(port), Jump("REDIRECT"), ToPorts([to])])
  }

  function RedirectAndAccept(intf: string, port: nat, to: nat, remove: bool): seq<seq<Field>> {
    [Redirect(intf, "tcp", port, to, remove), AcceptPort(intf, "tcp", to, remove),
     Redirect(intf, "udp", port, to, remove), AcceptPort(intf, "udp", to, remove)]
  }

  function OutputToSubnet(intf: string, source: Prefix, destination: Prefix, remove: bool): seq<Field> {
    Print(Verb(remove, "OUTPUT")) + OutFlagFields(intf)
    + PrintAll([Source(source), Destination(destination), Jump("ACCEPT")])
  }

  function Policy(chain: string, policy: string): seq<Field> {
    [Word("--policy"), Word(chain), Word(policy)]
  }

  function AllPolicies(policy: string): seq<seq<Field>> {
    [Policy("INPUT", policy), Policy("OUTPUT", policy), Policy("FORWARD", policy)]
  }

  function InputThrough(intf: string): seq<Field> {
    PrintAll([Clause.Append("INPUT"), In(intf), Jump("ACCEPT")])
  }

  function OutputThrough(intf: string): seq<Field> {
    PrintAll([Clause.Append("OUTPUT"), Out(intf), Jump("ACCEPT")])
  }

  function EstablishedRelated(chain: string): seq<Field> {
    Print(Clause.Append(chain))
    + [Word("-m"), Word("conntrack"), Word("--ctstate"), States(["ESTABLISHED", "RELATED"])]
    + Print(Jump("ACCEPT"))
  }

  function OutputToVpn(intf: string, server: Prefix, protocol: string, port: nat): seq<Field> {
    PrintAll([Clause.Append("OUTPUT"), Destination(server), Out(intf), Protocol(protocol), MatchProtocol(protocol),
              DestinationPort(port), Jump("ACCEPT")])
  }

  // ff02::1:ff00:0/104, the solicited-node multicast addresses
  const SOLICITED_NODE := Prefix(true, 0xff02_0000_0000_0000_0000_0001_ff00_0000, 104)

  function MulticastOutput(intf: string): seq<Field> {
    Print(Clause.Append("OUTPUT")) + OutFlagFields(intf) + PrintAll([Destination(SOLICITED_NODE), Jump("ACCEPT")])
  }

  function InputToSubnet(intf: string, destination: Prefix): seq<Field> {
    Print(Clause.Append("INPUT")) + InFlagFields(intf) + PrintAll([Destination(destination), Jump("ACCEPT")])
  }

  /** A successful redirection: applied in full or, without IPv6 NAT, not at all. */
  ghost predicate Redirects(p: Platform, k: Kernel, next: Kernel, intf: string, port: nat, to: nat, remove: bool) {
    var list := RedirectAndAccept(intf, port, to, remove);
    || RunAll(p, k, OnlyV4(list) + OnlyV6(list)) == Some(next)
    || (p.ip6Tables && !p.ip6Nat && next == k && RunAll(p, k, OnlyV4(list)).Some?)
  }

  // ---------------------------------------------------------------- the class

  /** The snapshot taken by saveAndRestoreIPv6: nothing to restore without ip6tables. */
  datatype Saved = SaveFailed | NothingToRestore | Saved(rules: Ruleset)

  class Config {
    var v4: Ruleset
    var v6: Ruleset
    const platform: Platform
    ghost var failures: nat      // commands that have failed so far

    constructor (v4: Ruleset, v6: Ruleset, platform: Platform)
      ensures this.v4 == v4 && this.v6 == v6 && this.platform == platform
    {
      this.v4, this.v6, this.platform, failures := v4, v6, platform, 0;
    }

    function State(): Kernel
      reads this`v4, this`v6
    {
      Kernel(v4, v6)
    }

    /** Any command may fail: killed, out of memory, table locked. */
    method CommandFails() returns (fails: bool)
      modifies this`failures
      ensures failures == old(failures) + if fails then 1 else 0
    {
      fails := *;
      if fails {
        failures := failures + 1;
      }
    }

    /** No call gets past a command that fails; without any, it ends as attempted. */
    ghost predicate Ends(before: nat, o: Outcome, attempt: Outcome)
      reads this`failures
    {
      failures >= before && o == if failures == before then attempt else Failed(CommandFailed)
    }

    /** One instruction for one family, which has to be there. */
    ghost function AttemptOne(is6: bool, fields: seq<Field>, k: Kernel): Outcome {
      if is6 && !platform.ip6Tables then Failed(NeedIp6Tables) else Attempt(platform, k, Instr(is6, fields))
    }

    method IsDeleteMatchInstruction(fields: seq<Field>) returns (r: bool)
      ensures r == IsDeleteMatch(fields)
    {
      for i := 0 to |fields|
        invariant IsDeleteMatch(fields) == IsDeleteMatch(fields[i..])
      {
        if fields[i] == Word("-D") || fields[i] == Word("--delete") {
          if i == |fields| - 1 {
            return false;
          } else if i == |fields| - 2 {
            return true;
          } else {
            return ParsePort(fields[i + 2]).None?;
          }
        }
      }
      return false;
    }

    /** Deleting by match: parse, list the chain, find the line, delete it. */
    method DeleteRule(fields: seq<Field>, is6: bool) returns (o: Outcome)
      requires IsDeleteMatch(fields) && (is6 ==> platform.ip6Tables)
      modifies this`v4, this`v6, this`failures
      ensures Ends(old(failures), o, Attempt(platform, old(State()), Instr(is6, fields)))
      ensures o.Done? ==> Run(platform, old(State()), Instr(is6, fields)) == Some(State())
      ensures o.Failed? ==> State() == old(State())
      ensures o == Failed(NatMissing) ==> is6 && !platform.ip6Nat
    {
      var target := ParseInstruction(fields);
      if !target.Ok? {
        return Failed(if target.Panics? then ParserPanic else InstructionMalformed);
      }
      var i := target.value;
      var fails := CommandFails();
      if fails {
        return Failed(CommandFailed);
      } else if is6 && i.table == "nat" && !platform.ip6Nat {
        return Failed(NatMissing);
      }
      var line := FindLineNumber(if is6 then v6.rules else v4.rules, i);
      if line == 0 {
        return Done;
      }
      fails := CommandFails();
      if fails {
        return Failed(CommandFailed);
      }
      if is6 {
        v6 := v6.(rules := DeleteLine(v6.rules, i.table, i.chain, line));
      } else {
        v4 := v4.(rules := DeleteLine(v4.rules, i.table, i.chain, line));
      }
      return Done;
    }

    /** runIptablesInstructionNoSave, and runIP6tablesInstructionNoSave with is6 set. */
    method RunInstructionNoSave(fields: seq<Field>, is6: bool) returns (o: Outcome)
      modifies this`v4, this`v6, this`failures
      ensures Ends(old(failures), o, Attempt(platform, old(State()), Instr(is6, fields)))
      ensures o.Done? ==> Run(platform, old(State()), Instr(is6, fields)) == Some(State())
      ensures o.Failed? ==> State() == old(State())
      ensures o == Failed(NatMissing) ==> is6 && platform.ip6Tables && !platform.ip6Nat
      ensures is6 && !platform.ip6Tables ==> o.Done?
    {
      if is6 && !platform.ip6Tables {
        return Done;
      }
      var isDelete := IsDeleteMatchInstruction(fields);
      if isDelete {
        o := DeleteRule(fields, is6);
        return;
      }
      var fails := CommandFails();
      if fails {
        return Failed(CommandFailed);
      }
      var after := Program(if is6 then v6 else v4, fields, is6, is6 ==> platform.ip6Nat);
      if after.None? {
        var natMissing := is6 && !platform.ip6Nat && Program(v6, fields, true, true).Some?;
        return Failed(if natMissing then NatMissing else InstructionMalformed);
      }
      if is6 {
        v6 := after.value;
      } else {
        v4 := after.value;
      }
      return Done;
    }

    /** A loop over instructions, without any rollback. */
    method RunNoSave(xs: seq<Instr>) returns (o: Outcome)
      modifies this`v4, this`v6, this`failures
      ensures Ends(old(failures), o, AttemptAll(platform, old(State()), xs))
      ensures o.Done? ==> RunAll(platform, old(State()), xs) == Some(State())
      ensures (forall x :: x in xs ==> !x.v6) ==> v6 == old(v6)
      ensures (forall x :: x in xs ==> x.v6) ==> v4 == old(v4)
      ensures o == Failed(NatMissing) ==> platform.ip6Tables && !platform.ip6Nat && exists x :: x in xs && x.v6
      ensures !platform.ip6Tables ==> v6 == old(v6)
      ensures !platform.ip6Tables && (forall x :: x in xs ==> x.v6) ==> o.Done?
    {
      hide Run, RunAll, AttemptAll;
      ghost var all, attempt := RunAll(platform, State(), xs), AttemptAll(platform, State(), xs);
      assert xs[0..] == xs;
      for n := 0 to |xs|
        invariant RunAll(platform, State(), xs[n..]) == all && AttemptAll(platform, State(), xs[n..]) == attempt
        invariant failures == old(failures)
        invariant (forall x :: x in xs ==> !x.v6) ==> v6 == old(v6)
        invariant (forall x :: x in xs ==> x.v6) ==> v4 == old(v4)
        invariant !platform.ip6Tables ==> v6 == old(v6)
      {
        OneInstruction(platform, State(), xs, n);
        assert xs[n] in xs && xs[n] == Instr(xs[n].v6, xs[n].fields);
        ghost var before := State();
        RunKeepsOther(platform, before, xs[n]);
        o := RunInstructionNoSave(xs[n].fields, xs[n].v6);
        if o.Failed? {
          return;
        }
      }
      NoInstruction(platform, State(), xs);
      return Done;
    }

    method SaveIPv4() returns (saved: Saved)
      modifies this`failures
      ensures failures == old(failures) + if saved.SaveFailed? then 1 else 0
      ensures saved == SaveFailed || saved == Saved(v4)
    {
      var fails := CommandFails();
      saved := if fails then SaveFailed else Saved(v4);
    }

    method SaveIPv6() returns (saved: Saved)
      modifies this`failures
      ensures failures == old(failures) + if saved.SaveFailed? then 1 else 0
      ensures !platform.ip6Tables ==> saved == NothingToRestore
      ensures platform.ip6Tables ==> saved == SaveFailed || saved == Saved(v6)
    {
      if !platform.ip6Tables {
        return NothingToRestore;
      }
      var fails := CommandFails();
      saved := if fails then SaveFailed else Saved(v6);
    }

    /** The restore functions: there is none to call when nothing was saved. */
    method RestoreIPv4(saved: Saved)
      requires saved.Saved?
      modifies this`v4
      ensures v4 == saved.rules
    {
      v4 := saved.rules;
    }

    method RestoreIPv6(saved: Saved)
      requires saved.Saved?
      modifies this`v6
      ensures v6 == saved.rules
    {
      v6 := saved.rules;
    }

    /** The combined restore function, which skips IPv6 when there is nothing to restore. */
    method Restore(saved4: Saved, saved6: Saved)
      requires saved4.Saved? && !saved6.SaveFailed?
      modifies this`v4, this`v6
      ensures v4 == saved4.rules
      ensures v6 == if saved6.Saved? then saved6.rules else old(v6)
    {
      RestoreIPv4(saved4);
      if !saved6.NothingToRestore? {
        RestoreIPv6(saved6);
      }
    }

    method RunIptablesInstructions(list: seq<seq<Field>>) returns (o: Outcome)
      modifies this`v4, this`v6, this`failures
      ensures Ends(old(failures), o, AttemptAll(platform, old(State()), OnlyV4(list)))
      ensures o.Done? ==> RunAll(platform, old(State()), OnlyV4(list)) == Some(State())
      ensures o.Failed? ==> State() == old(State())
      ensures !platform.ip6Tables ==> v6 == old(v6)
    {
      var saved := SaveIPv4();
      if saved.SaveFailed? {
        return Failed(CommandFailed);
      }
      o := RunNoSave(OnlyV4(list));
      if o.Failed? {
        RestoreIPv4(saved);
      }
    }

    method RunIp6tablesInstructions(list: seq<seq<Field>>) returns (o: Outcome)
      modifies this`v4, this`v6, this`failures
      ensures Ends(old(failures), o, AttemptAll(platform, old(State()), OnlyV6(list)))
      ensures o.Done? ==> RunAll(platform, old(State()), OnlyV6(list)) == Some(State())
      ensures o.Failed? ==> State() == old(State())
      ensures !platform.ip6Tables ==> v6 == old(v6)
    {
      var saved := SaveIPv6();
      if saved.SaveFailed? {
        return Failed(CommandFailed);
      }
      o := RunNoSave(OnlyV6(list));
      if o.Failed? {
        RestoreIPv6(saved);
      }
    }

    /** Both tables are saved first, and both are restored if any instruction fails on either. */
    method RunMixedIptablesInstructions(list: seq<seq<Field>>) returns (o: Outcome)
      modifies this`v4, this`v6, this`failures
      ensures Ends(old(failures), o, AttemptAll(platform, old(State()), Both(list)))
      ensures o.Done? ==> RunAll(platform, old(State()), Both(list)) == Some(State())
      ensures o.Failed? ==> State() == old(State())
      ensures !platform.ip6Tables ==> v6 == old(v6)
    {
      var saved4 := SaveIPv4();
      if saved4.SaveFailed? {
        return Failed(CommandFailed);
      }
      var saved6 := SaveIPv6();
      if saved6.SaveFailed? {
        return Failed(CommandFailed);
      }
      o := RunNoSave(Both(list));
      if o.Failed? {
        Restore(saved4, saved6);
      }
    }

    method AcceptInputToPort(intf: string, port: nat, remove: bool) returns (o: Outcome)
      modifies this`v4, this`v6, this`failures
      ensures Ends(old(failures), o, AttemptAll(platform, old(State()), Both([AcceptPort(intf, "tcp", port, remove),
                                                                               AcceptPort(intf, "udp", port, remove)])))
      ensures o.Done? ==>
                RunAll(platform, old(State()), Both([AcceptPort(intf, "tcp", port, remove),
                                                     AcceptPort(intf, "udp", port, remove)])) == Some(State())
      ensures o.Failed? ==> State() == old(State())
      ensures !platform.ip6Tables ==> v6 == old(v6)
    {
      o := RunMixedIptablesInstructions([AcceptPort(intf, "tcp", port, remove), AcceptPort(intf, "udp", port, remove)]);
    }

    /**
      All eight instructions apply, or none does. Success can also mean that nothing
      was done: when the kernel has no IPv6 NAT, the IPv4 part is undone as well.
     */
    method RedirectPort(intf: string, port: nat, to: nat, remove: bool) returns (o: Outcome)
      modifies this`v4, this`v6, this`failures
      ensures Ends(old(failures), o, AttemptRedirect(platform, old(State()), intf, port, to, remove))
      ensures o.Failed? ==> State() == old(State())
      ensures o.Done? ==> Redirects(platform, old(State()), State(), intf, port, to, remove)
      ensures !platform.ip6Tables ==> v6 == old(v6)
    {
      var saved4 := SaveIPv4();
      if saved4.SaveFailed? {
        return Failed(CommandFailed);
      }
      var saved6 := SaveIPv6();
      if saved6.SaveFailed? {
        return Failed(CommandFailed);
      }
      var list := RedirectAndAccept(intf, port, to, remove);
      o := RunNoSave(OnlyV4(list));
      if o.Failed? {
        Restore(saved4, saved6);
        return;
      }
      RunAllConcat(platform, old(State()), OnlyV4(list), OnlyV6(list));
      o := RunNoSave(OnlyV6(list));
      if o.Failed? {
        Restore(saved4, saved6);
        if o.error.NatMissing? {
          return Done;
        }
      }
    }

    /** One rule, for the family of its prefixes. */
    method AcceptOutputFromIPToSubnet(intf: string, source: Prefix, destination: Prefix,
                                      remove: bool) returns (o: Outcome)
      modifies this`v4, this`v6, this`failures
      ensures Ends(old(failures), o, AttemptOne(source.v6 || destination.v6, OutputToSubnet(intf, source, destination, remove),
                                               old(State())))
      ensures o.Failed? ==> State() == old(State())
      ensures !platform.ip6Tables ==> v6 == old(v6)
      ensures var is6 := source.v6 || destination.v6;
              o.Done? ==>
                (is6 ==> platform.ip6Tables)
                && Run(platform, old(State()), Instr(is6, OutputToSubnet(intf, source, destination, remove))) == Some(State())
    {
      var fields := OutputToSubnet(intf, source, destination, remove);
      if !source.v6 && !destination.v6 {
        o := RunIptablesInstructions([fields]);
      } else if !platform.ip6Tables {
        return Failed(NeedIp6Tables);
      } else {
        o := RunIp6tablesInstructions([fields]);
      }
    }

    method SetIPv4AllPolicies(policy: string) returns (o: Outcome)
      modifies this`v4, this`v6, this`failures
      ensures policy == "ACCEPT" || policy == "DROP" ==>
                Ends(old(failures), o, AttemptAll(platform, old(State()), OnlyV4(AllPolicies(policy))))
      ensures policy != "ACCEPT" && policy != "DROP" ==> o == Failed(PolicyUnknown)
      ensures o.Done? ==> RunAll(platform, old(State()), OnlyV4(AllPolicies(policy))) == Some(State())
      ensures o.Failed? ==> State() == old(State())
      ensures !platform.ip6Tables ==> v6 == old(v6)
    {
      if policy != "ACCEPT" && policy != "DROP" {
        return Failed(PolicyUnknown);
      }
      o := RunIptablesInstructions(AllPolicies(policy));
    }

    method SetIPv6AllPolicies(policy: string) returns (o: Outcome)
      modifies this`v4, this`v6, this`failures
      ensures policy == "ACCEPT" || policy == "DROP" ==>
                Ends(old(failures), o, AttemptAll(platform, old(State()), OnlyV6(AllPolicies(policy))))
      ensures policy != "ACCEPT" && policy != "DROP" ==> o == Failed(PolicyUnknown)
      ensures o.Done? ==> RunAll(platform, old(State()), OnlyV6(AllPolicies(policy))) == Some(State())
      ensures o.Failed? ==> State() == old(State())
      ensures !platform.ip6Tables ==> v6 == old(v6)
    {
      if policy != "ACCEPT" && policy != "DROP" {
        return Failed(PolicyUnknown);
      }
      o := RunIp6tablesInstructions(AllPolicies(policy));
    }

    /** One rule for the family of the destination; without ip6tables there is nothing to do for IPv6. */
    method AcceptInputToSubnet(intf: string, destination: Prefix) returns (o: Outcome)
      modifies this`v4, this`v6, this`failures
      ensures Ends(old(failures), o, Attempt(platform, old(State()), Instr(destination.v6, InputToSubnet(intf, destination))))
      ensures o.Done? ==>
                RunAll(platform, old(State()), [Instr(destination.v6, InputToSubnet(intf, destination))]) == Some(State())
      ensures o.Failed? ==> State() == old(State())
      ensures !platform.ip6Tables ==> v6 == old(v6)
    {
      hide InputToSubnet, Run;
      var fields := InputToSubnet(intf, destination);
      if !destination.v6 {
        assert OnlyV4([fields]) == [Instr(false, fields)];
        o := RunIptablesInstructions([fields]);
      } else {
        assert OnlyV6([fields]) == [Instr(true, fields)];
        o := RunIp6tablesInstructions([fields]);
      }
    }

    /** One rule for the family of an address: ip6tables is then needed for IPv6. */
    method RunForFamily(fields: seq<Field>, is6: bool) returns (o: Outcome)
      modifies this`v4, this`v6, this`failures
      ensures Ends(old(failures), o, AttemptOne(is6, fields, old(State())))
      ensures o.Done? ==> RunAll(platform, old(State()), [Instr(is6, fields)]) == Some(State())
      ensures o.Failed? ==> State() == old(State())
      ensures !platform.ip6Tables ==> v6 == old(v6)
      ensures is6 && !platform.ip6Tables ==> o == Failed(NeedIp6Tables)
    {
      if !is6 {
        assert OnlyV4([fields]) == [Instr(false, fields)];
        o := RunIptablesInstructions([fields]);
      } else if !platform.ip6Tables {
        return Failed(NeedIp6Tables);
      } else {
        assert OnlyV6([fields]) == [Instr(true, fields)];
        o := RunIp6tablesInstructions([fields]);
      }
    }
  }
}
