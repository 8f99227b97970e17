# Verified models of Gluetun

Gluetun is a VPN client in a container: it supervises a VPN process, keeps a
kill-switch firewall in step with it, finds the path MTU of the tunnel and merges
lists of VPN servers. This project models the parts of it that carry a real
argument, and proves what each of them is for. `dafny verify dfyconfig.toml` checks
the whole project with Dafny 4.11.

| files | component |
|---|---|
| `Base58` | the Base58 encoder of generated API keys, in place over a byte buffer |
| `VpnLoop`, `VpnAnswers` | the start/stop protocol between `ApplyStatus` callers, the VPN loop and its runners |
| `ModuleLoader`, `ModuleOrder` | the depth-first loading of kernel modules and their dependencies |
| `IptablesRules`, `IptablesKernel`, `Iptables`, `RuleRoundTrip` | iptables instructions, their parser, the rules in the kernel, and transactions with rollback |
| `PortRules`, `PortRedirections`, `FirewallRules`, `BaseRules`, `BaseMeaning`, `FirewallSync`, `OutboundSubnets`, `Subnets`, `Enabling`, `Attempts`, `Firewall` | the firewall: what it tracks against what is in the kernel |
| `MtuTests`, `PathMtu`, `IcmpMtu` | the path MTU searches over TCP and ICMP |
| `Checksum`, `TcpOptions`, `TcpHeader`, `TcpPacket` | the packets of that search: headers, options, checksums and sizes |
| `CommandSplit`, `CommandQuoting`, `CommandSpelling` | splitting a command into words by the quoting rules of the shell |
| `ServerOrder`, `ServerMerge`, `ServerKeys` | the order of servers, and the merge of built-in and persisted servers |
| `OpenVpnExtract`, `OpenVpnConf`, `OpenVpnOptions` | rewriting a custom OpenVPN configuration and reading it back |
| `Wrappers` | the option type |

Concurrency is modelled by a transition system (`VpnLoop`) or by the mutex that each
method holds (`Firewall`, `Iptables`): a run is then a sequence of method calls. Any
command of the system may fail at any time; whether it does is a nondeterministic
choice inside the method that issues it. A ghost field counts the commands that have
failed, so that contracts also say how a call ends when none does.

## Where the code and its documentation disagree

The models follow the code. These lemmas say where it does not do what its comments
or names promise, and when it does.

- The MTU list is documented to have at most eleven values and to need three searches
  for 1728 values. It has twelve values exactly when the bounds are eleven apart
  (`MtuTests.AtMostElevenIff`), and three rounds are enough for every path exactly when
  the bounds are at most 1210 apart (`PathMtu.ThreeRoundsIff`).
- The ICMP search counts replies, not tests. With a reply that comes twice it reports a
  size that was never answered (`IcmpMtu.DuplicateReplies`); a value found was answered,
  or is the smallest, exactly when no round ended without an error while its largest size
  was not answered (`IcmpMtu.FoundAnsweredIff`). A timeout is taken to mean that the
  largest size failed, even if its reply came (`IcmpMtu.LostReply`); everything answered
  is covered by the value found exactly when that did not happen (`IcmpMtu.NothingLostIff`).
  Identifiers are 16 random bits: on a path without cut replies the search fails exactly
  when a test that gets through shares its identifier with a larger one
  (`IcmpMtu.FindsPathMtu`).
- `RedirectPort` is documented to remove a redirection when the destination port is 0. The
  port ends up without one exactly when the firewall is disabled
  (`PortRedirections.ZeroRemovesIff`).
- `portRedirections.remove` shortens the list it ranges over. It panics exactly when
  more entries match than the entries after the last match allow for
  (`PortRedirections.Remove`); an enabled firewall never gets there, a disabled one
  does for an empty interface name (`PortRedirections.RemoveFromAllInterfacesPanics`).
- Where the kernel has no IPv6 NAT, a redirection is undone for IPv4 as well and still
  reported as a success (`PortRules.SucceedsWithoutNat`): a success was applied exactly
  if there is NAT (`PortRules.RedirectAppliedIff`).
- The kernel masks prefixes, and the delete compares the prefix as it was written. A rule
  for 192.168.1.5/24 is not found again, which is no error (`RuleRoundTrip.HostBitsStay`):
  appending and deleting restores the rules exactly when the prefixes are masked
  (`RuleRoundTrip.AppendThenDelete`), and a change of outbound subnets in which nothing fails
  leaves rules over exactly when a subnet that goes has a default route and is not masked
  (`Firewall.Config.SetOutboundSubnets`).
- `ApplyStatus` is documented to be synchronous and thread safe. A request that is to be
  sent to the loop waits for ever exactly when the loop is not where it takes such a request:
  it handles a crash, was cancelled or has ended (`VpnLoop.RequestWaitsForeverIff`). A crash
  handler that meets a stop request then waits for ever as well
  (`VpnLoop.StopMeetsCrashIsForever`). After a stop call whose context has ended, nobody waits
  for the loop's answer, and exactly then the loop is stuck with it, cancelled or not
  (`VpnLoop.StopAnswerIsStuckIff`); after a start call whose context has ended, the VPN can run
  with a status that says Starting and that no call changes (`VpnLoop.UnansweredForever`).
- `ApplyStatus` is documented to wait for the loop to fully change its status. A start call
  whose context does not end waits for ever exactly when the loop has already reported the
  outcome, before the call listened, or was cancelled before it could
  (`VpnAnswers.StartAnswerIsLostIff`). After a crash, the loop's new runner is reported with
  status Running exactly if no report to the user is pending; otherwise the VPN can run on
  under status Crashed (`VpnAnswers.RestartIsReportedIff`, `VpnAnswers.RestartIsUnreported`).
- After a runner reports a nil error within the grace
  period, a stopped VPN restarts by itself (`VpnLoop.StoppedVpnRestarts`); a stopped VPN
  stays stopped exactly when its loop waits on an open channel or has ended, or a start is
  about to be requested anyway (`VpnLoop.StaysStoppedIff`). A loop cancelled after a stop
  never ends, and one cancelled after an early nil error closes a closed channel
  (`VpnLoop.CancelledLoopEndsIff`).
- A word that begins with a backslash and something else than a newline keeps the
  command splitter busy for ever (`CommandQuoting.SplitEndsAs`). So words quoted with
  backslashes come back exactly when none is empty, has a newline, or begins with a
  character that has to be quoted (`CommandSpelling.SplitOfBackslashedIff`).
- An interface name that is empty is documented to mean all interfaces. The instructions for
  ports and redirections are refused exactly then (`Attempts.AcceptPortAttempt`,
  `Attempts.RedirectAttempt`).
- The key of a server is meant to tell servers apart. A TCP server whose hostname is `udp-`
  followed by another hostname has the key of a server for both protocols on that other host
  (`ServerKeys.SameKeyIff`), and takes its place in a merge (`ServerKeys.OtherServerIsLost`);
  a built-in server and one to be kept are both merged exactly when they do not share a key
  in this sense (`ServerKeys.BothMergedIff`).
- Persisted servers from the future are logged as ignored, but those marked as kept are
  merged (`ServerMerge.FutureServerIsMerged`); they are ignored exactly when each is the
  first built-in server with its key (`ServerMerge.FutureIsIgnoredIff`).
- Merging again can lose a kept server (`ServerMerge.SecondKeptIsNotIdempotent`): merging
  is idempotent, whatever was persisted, exactly if of built-in servers with one key only
  the first is marked as kept (`ServerMerge.StableIff`).

## Model

| member | source | states |
|---|---|---|
| `Radix.TranscodeRoundTrip` | internal/cli/genkey.go:27-66 | changing the radix of a numeral and back, with one leading zero kept for each, gives the numeral |
| `Base58.DecodeAfterEncode` | internal/cli/genkey.go:27-66 | decoding the Base58 text of any byte string gives the byte string |
| `Base58.EncodeAfterDecode` | internal/cli/genkey.go:27-66 | every text over the alphabet is the encoding of what it decodes to |
| `Base58.EncodedShape` | internal/cli/genkey.go:27-66 | the text has exactly one '1' for each leading zero byte, and its first other digit is not a '1' |
| `Base58.PeriodBound` | internal/cli/genkey.go:36-38 | 2^240 <= 58^41, the witness for the size of the buffer |
| `Base58.BufferIsLargeEnough` | internal/cli/genkey.go:36-38 | 256^k <= 58^(555k/406 + 1) for every length k |
| `Base58.CarryFits` | internal/cli/genkey.go:42-51 | when the carry loop has reached the watermark, no carry is left as long as the number fits |
| `Base58.AddByte` | internal/cli/genkey.go:44-50 | one turn multiplies the number in the buffer by 256 and adds the byte, never leaves the buffer, and keeps the cells of leading zeros zero |
| `Base58.RewriteAsText` | internal/cli/genkey.go:59-65 | the overlapping rewrite gives the text of exactly the digits from the offset on |
| `Base58.Convert` | internal/cli/genkey.go:40-51 | the buffer ends up holding the value of the whole byte string |
| `Base58.Base58Encode` | internal/cli/genkey.go:27-66 | the in-place algorithm yields the Base58 encoding |
| `VpnLoop.StepKeepsInv` | internal/vpn/run.go:12-127 | every action of a caller, the loop or a runner keeps the invariant: mutexes, runners, and what statuses and calls in progress mean |
| `VpnLoop.AtMostOneRunner` | internal/vpn/run.go:21-126 | in every reachable state at most one VPN runner is alive, whatever the calls, cancellations and crashes |
| `VpnLoop.CallsAreSerialised` | internal/loopstate/apply.go:18-79 | at most one ApplyStatus call is past the loop mutex, and none while the loop handles a crash |
| `VpnLoop.StoppedMeansStopped` | internal/vpn/run.go:75-126 | status Stopped means that no runner is alive, and that the loop is settled unless it has received, or can receive, from a closed channel |
| `VpnLoop.StopAnswerIsTrue` | internal/loopstate/apply.go:54-73 | a call that is about to answer "stopped" does so with no runner alive |
| `VpnLoop.PanicNeedsNilExit` | internal/vpn/helpers.go:13-34 | the loop closes a closed channel only after a runner reported a nil error within the grace period |
| `VpnLoop.PanicIsReachable` | internal/vpn/run.go:94-99 | a reachable state in which it did |
| `VpnLoop.CancelledLoopEndsIff` | internal/vpn/run.go:94-99 | a cancelled loop that waits for the last error never ends exactly when its runner has gone and the channel is open, and can close a closed channel exactly when it is closed |
| `VpnLoop.CancelAfterStop` | internal/vpn/run.go:94-109 | a reachable state, by cancelling after a stop, in which it never ends |
| `VpnLoop.StaysStopped` | internal/vpn/run.go:75-126 | over any run without a start request, a settled loop stays stopped with no runner alive |
| `VpnLoop.StaysStoppedIff` | internal/vpn/run.go:75-126 | in any reachable stopped state, all runs without a start request stay stopped exactly when the loop waits for a start on an open channel or has ended, or the holder of the loop mutex is about to request a start |
| `VpnLoop.StoppedVpnRestarts` | internal/vpn/helpers.go:13-34 | a concrete run: after an early nil error a stopped VPN launches a runner without any start request |
| `VpnLoop.StopMeetsCrashIsReachable` | internal/vpn/run.go:113-122 | a reachable state in which a stop request and the crash handler wait for each other |
| `VpnLoop.StopMeetsCrashIsForever` | internal/vpn/run.go:113-122 | from such a state on neither of them ever moves, and the status stays Stopping |
| `VpnLoop.RequestWaitsForeverIff` | internal/loopstate/apply.go:43-63 | in any reachable state, a start or stop request that is to be sent waits over all runs exactly when the loop is not in its select, nor, for a start, waiting for its first one; the loop then handles a crash, was cancelled or has ended |
| `VpnLoop.StopMeetsCancellation` | internal/vpn/run.go:94-109 | a reachable state in which a stop request waits for a cancelled loop |
| `VpnLoop.StartMeetsCrash` | internal/vpn/run.go:110-122 | a reachable state in which a start request and the crash handler wait for each other |
| `VpnLoop.StopAnswerIsStuckIff` | internal/loopstate/apply.go:63-73 | a loop that is to report that it has stopped does so never, over all runs, exactly when no caller waits for it; the status is Stopping |
| `VpnLoop.StopIsAbandoned` | internal/vpn/run.go:100-109 | a reachable such state without any caller |
| `VpnLoop.UnansweredForever` | internal/loopstate/apply.go:30-52 | a running VPN whose start call was abandoned keeps its runner and status Starting over any run in which the runner does not exit, whatever is requested |
| `VpnLoop.StartIsAbandoned` | internal/vpn/run.go:85-92 | a reachable such state without any caller |
| `VpnAnswers.AnswersAreTrue` | internal/loopstate/apply.go:29-79 | a call about to answer "stopped" does so in status Stopped with no runner alive; one about to answer "running", in status Running with a runner in the loop's select, unless the loop has left it for a crash or a cancellation |
| `VpnAnswers.AnswerIs` | internal/loopstate/apply.go:29-79 | whatever happens after a call has looked at the status, it answers that status if there is nothing to do; else Running or Crashed for a start and Stopped for a stop; or Starting or Stopping, exactly if its context ended first |
| `VpnAnswers.EndsWhenCancelled` | internal/vpn/run.go:12-22 | the loop ends only after its cancellation |
| `VpnAnswers.StartAnswerIsLostIff` | internal/vpn/helpers.go:41-51 | in any reachable state, a start call whose context does not end waits over all runs exactly when the loop is past its report or was cancelled before it |
| `VpnAnswers.StartAnswerIsLost` | internal/vpn/helpers.go:41-51 | a reachable state in which it does, with the VPN running |
| `VpnAnswers.RestartIsReportedIff` | internal/vpn/helpers.go:41-51 | in any reachable state after a crash, all runs of the restart end with status Running when the loop enters its select, exactly if no report to the user is pending |
| `VpnAnswers.RestartIsPossible` | internal/vpn/run.go:21-92 | unless it is cancelled, the loop can get from there to a new runner in its select |
| `VpnAnswers.RestartIsUnreported` | internal/vpn/helpers.go:41-51 | a reachable state in which the VPN runs under status Crashed, which no call changes |
| `ModuleLoader.VisitCorrect` | internal/mod/load_linux.go:22-55 | visiting a module loads all it needs, each after its dependencies and at most once, or fails with a walk that explains the error |
| `ModuleLoader.VisitAllCorrect` | internal/mod/load_linux.go:36-43 | the same for a list of dependencies |
| `ModuleLoader.ProbeCorrect` | internal/mod/probe_linux.go:40-69 | for any graph and any load failures: success means that every transitively required module was loaded, once, after its dependencies; a reported circular dependency is a cycle reachable from the root |
| `ModuleLoader.ProbeSucceedsIff` | internal/mod/probe_linux.go:40-69 | probing succeeds exactly when every walk along unloaded dependencies stays in the map, loads, and never comes back to itself |
| `ModuleLoader.ProbeStopsAtFailure` | internal/mod/load_linux.go:47-52 | for any graph, states and load failures: every load action succeeded but for the last one, which failed exactly when the error says so |
| `ModuleOrder.ProbeReportsFirst` | internal/mod/load_linux.go:22-55 | the error of a failing probe is that of the first bad walk from the root, in the order in which dependencies are listed, with what lies beyond a module before the module itself |
| `ModuleOrder.FirstBadIsUnique` | internal/mod/load_linux.go:22-55 | there is one such walk, and it is bad for one error: so the error is determined by the graph and the load failures |
| `ModuleLoader.Loader.InitDependencies` | internal/mod/load_linux.go:22-55 | the coloured recursion over the map computes the visit, on every graph |
| `ModuleLoader.Loader.ModProbe` | internal/mod/probe_linux.go:40-69 | the root of the search computes the probe |
| `IptablesRules.ParseInstruction` | internal/firewall/iptables/parse.go:85-102 | the loop over flags, with its errors and its panic, gives the record that the round trips below are about |
| `IptablesRules.ParsePrinted` | internal/firewall/iptables/parse.go:104-179 | clauses printed in any order, with repetitions, are read back as their joint effect |
| `IptablesRules.PrintParseRoundTrip` | internal/firewall/iptables/parse.go:12-35 | every delete-parsable record is what the parser makes of its printed form |
| `IptablesRules.LongFlags` | internal/firewall/iptables/parse.go:112-157 | ten flags have a short and a long name that mean the same |
| `IptablesKernel.EqualIffSameRule` | internal/firewall/iptables/parse.go:37-81 | comparing an instruction with a listed rule tells exactly whether its prefixes are masked and it would make that rule |
| `IptablesKernel.FindLineNumber` | internal/firewall/iptables/delete.go:71-102 | the line found is the first rule equal to the instruction, and 0 only if there is none |
| `IptablesKernel.DeleteTakesOne` | internal/firewall/iptables/delete.go:35-69 | deleting takes away one rule equal to the instruction, if there is one, as a multiset; with a prefix that is not masked, none |
| `IptablesKernel.DeleteKeepsOthers` | internal/firewall/iptables/delete.go:35-69 | all other rules stay, in the same order |
| `RuleRoundTrip.AppendThenDelete` | internal/firewall/iptables/delete.go:15-69 | for any clauses, appending a rule and running the matching delete restores the rules as a multiset exactly if the prefixes are masked, and all other rules in their order; otherwise the rule stays |
| `RuleRoundTrip.AppendThenDeleteRecord` | internal/firewall/iptables/parse.go:12-35 | the same for every delete-parsable record, with its instructions in canonical form |
| `RuleRoundTrip.DropResetsReverted` | internal/firewall/iptables/tcp.go:73-99 | dropping outgoing resets between two addresses adds that one rule, with its ports, flags and mark, and reverting it restores the rules |
| `RuleRoundTrip.HostBitsStay` | internal/firewall/iptables/parse.go:68-71 | a concrete prefix that is not masked |
| `RuleRoundTrip.DeleteAbsent` | internal/firewall/iptables/delete.go:52-56 | a delete changes nothing exactly when its rule is not there or a prefix is not masked |
| `Iptables.Config.IsDeleteMatchInstruction` | internal/firewall/iptables/delete.go:15-33 | a delete flag followed by a chain and no line number, anywhere in the instruction |
| `Iptables.Config.DeleteRule` | internal/firewall/iptables/delete.go:35-69 | success removes the first match; any failure leaves both tables as they were; without a failing command the outcome is exact: success, also when no rule matches, unless the instruction cannot be read or its table is missing |
| `Iptables.Config.RunInstructionNoSave` | internal/firewall/iptables/iptables.go:85-99 | one instruction is applied or nothing changes; without ip6tables an IPv6 instruction does nothing; without a failing command it fails only if it is refused, with the error of that |
| `Iptables.Config.Restore` | internal/firewall/iptables/atomic.go:22-41 | the combined restore puts back the saved tables and never calls an absent IPv6 restore |
| `Iptables.Config.RunIptablesInstructions` | internal/firewall/iptables/iptables.go:44-58 | all instructions are applied, or the kernel is as before; without a failing command the first refused instruction, if any, decides the outcome |
| `Iptables.Config.RunIp6tablesInstructions` | internal/firewall/iptables/ip6tables.go:26-48 | the same for IPv6; the restore function is only called when there is one |
| `Iptables.Config.RunMixedIptablesInstructions` | internal/firewall/iptables/iptablesmix.go:7-23 | all instructions are applied to both tables, or both tables are as before, with the outcome exact in the same way |
| `Iptables.Config.AcceptInputToPort` | internal/firewall/iptables/iptables.go:225-234 | the four instructions of a port, all or none |
| `Iptables.Config.RedirectPort` | internal/firewall/iptables/iptables.go:241-296 | the eight instructions of a redirection, all or none; without IPv6 NAT success may mean none; without a failing command, missing IPv6 NAT is a success once the IPv4 part is accepted |
| `Iptables.Config.AcceptOutputFromIPToSubnet` | internal/firewall/iptables/iptables.go:187-206 | one rule for the family of its addresses, or nothing; IPv6 needs ip6tables |
| `PortRules.AcceptPortReadAs` | internal/firewall/iptables/iptables.go:225-234 | the accepting and deleting instructions of a port, read back, are about the same rule |
| `PortRules.RedirectReadAs` | internal/firewall/iptables/iptables.go:260-270 | so are those of a redirection |
| `PortRules.OutputToSubnetReadAs` | internal/firewall/iptables/iptables.go:196-200 | so are those of a subnet |
| `PortRules.AcceptNeedsInterface` | internal/firewall/iptables/iptables.go:226-229 | with an empty interface name the instructions of a port are always rejected |
| `PortRules.RedirectionNeedsInterface` | internal/firewall/iptables/iptables.go:244-247 | and so are those of a redirection |
| `PortRules.AcceptPortEffect` | internal/firewall/iptables/iptables.go:225-234 | a successful call adds, or takes away, exactly the rules of that port |
| `PortRules.RedirectEffect` | internal/firewall/iptables/iptables.go:258-282 | a redirection applied in full adds, or takes away, exactly its eight rules |
| `PortRules.RedirectAppliedIff` | internal/firewall/iptables/iptables.go:272-293 | a redirection reported as a success was applied in full exactly if there is IPv6 NAT, and otherwise nothing was done |
| `PortRules.SucceedsWithoutNat` | internal/firewall/iptables/iptables.go:283-291 | without IPv6 NAT, any redirection can be reported as added with nothing done |
| `Attempts.AcceptPortAttempt` | internal/firewall/iptables/iptables.go:225-234 | without a failing command, the instructions of a port are accepted exactly on a named interface |
| `Attempts.RedirectAttempt` | internal/firewall/iptables/iptables.go:241-296 | without a failing command, a redirection ends with success exactly on a named interface, with IPv6 NAT or without it |
| `PortRedirections.Remove` | internal/firewall/redirect.go:80-91 | the removal while ranging panics exactly when too many entries match after too few others; otherwise exactly the matches are gone |
| `PortRedirections.RemovableIffInReach` | internal/firewall/redirect.go:80-91 | that condition says that every match is removed while the shortened list still reaches it |
| `PortRedirections.RemoveFromAllInterfacesPanics` | internal/firewall/redirect.go:80-91 | a concrete list on which removal from all interfaces panics |
| `PortRedirections.UniqueRemovable` | internal/firewall/redirect.go:80-91 | with no port redirected twice on an interface, removal from that interface is safe |
| `PortRedirections.Check` | internal/firewall/redirect.go:93-114 | the first overlapping entry decides: the same destination already, or a conflict |
| `PortRedirections.RedirectedUnique` | internal/firewall/redirect.go:44-75 | no port is ever redirected twice on one interface |
| `PortRedirections.RedirectedGoesThere` | internal/firewall/redirect.go:8-12 | afterwards some entry covers the interface and leads to the port asked for; without entries for all interfaces it is the only one |
| `PortRedirections.ZeroRemovesIff` | internal/firewall/redirect.go:8-12 | asked for destination port 0, the port ends up without a redirection exactly when the firewall is disabled |
| `PortRedirections.Track` | internal/firewall/redirect.go:30-46 | what a disabled firewall tracks, and exactly when tracking panics |
| `PortRedirections.PanicsOnAllInterfacesOnly` | internal/firewall/redirect.go:80-91 | a panic takes an empty interface name |
| `Subnets.FindSubnetsToChange` | internal/subnet/subsets.go:7-43 | exactly the new entries and exactly the obsolete ones, with repetitions |
| `Subnets.RemoveSubnetFromSubnets` | internal/subnet/subsets.go:45-55 | the swap delete takes away one entry, as a multiset |
| `Subnets.ChangesReachRequest` | internal/subnet/subsets.go:7-43 | removing the obsolete entries and adding the new ones gives the requested set |
| `FirewallRules.AgreesAfterAdding` | internal/firewall/ports.go:38-43 | port rules that come on both sides keep the kernel and the tracked state in agreement |
| `FirewallRules.AgreesAfterRemoving` | internal/firewall/ports.go:69-77 | and so do port rules that go on both sides |
| `FirewallSync.SyncAfterRedirectPort` | internal/firewall/redirect.go:68-75 | a redirection that did not fail can be tracked, also without IPv6 NAT, where it stands for no rules |
| `FirewallSync.SyncAfterUnredirectPort` | internal/firewall/redirect.go:56-65 | a removed redirection can be forgotten, in either case |
| `FirewallSync.RemovesOne` | internal/firewall/redirect.go:64-65 | on an enabled firewall the removal of a tracked redirection is safe and takes that one entry |
| `OutboundSubnets.TrackMore` | internal/firewall/outboundsubnets.go:67-93 | a subnet whose rules were all added can be tracked, and rules and entries grow together |
| `OutboundSubnets.TrackLess` | internal/firewall/outboundsubnets.go:38-65 | a subnet is forgotten with its rules; those that could not be deleted, and no others, are left over, and what other entries stand for stays in the kernel |
| `OutboundSubnets.RequestIsTracked` | internal/firewall/outboundsubnets.go:12-36 | with a default route for every subnet, what is tracked is the requested set |
| `BaseMeaning.ThroughMeans` | internal/firewall/iptables/iptables.go:114-141 | the loopback instructions add a rule that accepts everything through the interface, in and out |
| `BaseMeaning.EstablishedMeans` | internal/firewall/iptables/iptables.go:143-148 | the connection tracking instruction adds a rule for established and related packets only |
| `BaseMeaning.VpnMeans` | internal/firewall/iptables/iptables.go:150-163 | the VPN instruction adds a rule for the server's address, port and protocol on one interface |
| `BaseMeaning.MulticastMeans` | internal/firewall/iptables/iptables.go:212-219 | the neighbour discovery instruction adds a rule for the solicited-node addresses on one interface |
| `BaseMeaning.InputToSubnetMeans` | internal/firewall/iptables/iptables.go:119-135 | the instruction adds a rule for packets to a local network, as the kernel masks it, in through its interface |
| `BaseMeaning.OutputToSubnetMeans` | internal/firewall/iptables/iptables.go:187-206 | the instruction adds a rule from one address to one subnet out of an interface |
| `BaseMeaning.BaseRulesAre` | internal/firewall/enable.go:62-110 | the base rules of a family are exactly: loopback and established traffic both ways, the VPN server out of each interface with a default route, and for each local network traffic to it from the own address, traffic into it, and IPv6 neighbour discovery |
| `Enabling.PoliciesSet` | internal/firewall/enable.go:54-60 | after both calls all chains drop by default and no rule has changed |
| `Enabling.RunAllAdds` | internal/firewall/enable.go:62-110 | a transaction of base instructions adds exactly the rules of its instructions |
| `Enabling.ExactAfterConserved` | internal/firewall/outboundsubnets.go:12-94 | subnet changes that are conserved, failures included, keep every other rule accounted for |
| `Enabling.WholeKernel` | internal/firewall/enable.go:42-125 | the rules of each family are those of the snapshot, the base, the tracked subnets, the tracked ports, the redirections where there is IPv6 NAT, and what failures left over, each as often |
| `Firewall.Config.KernelIsAccountedFor` | internal/firewall/enable.go:10-125 | at any time while enabled: exactly the rules that the snapshot, the base and the tracked state stand for, redirections only where there is IPv6 NAT, and rules left over from failures, each of a subnet that was tracked or asked for; everything else is dropped |
| `Firewall.Config.SetAllowedPort` | internal/firewall/ports.go:9-46 | a port is tracked exactly when its rules are in the kernel, with or without IPv6 NAT; a failure changes nothing, and without a failing command it takes an empty interface name; no other rule or policy is touched |
| `Firewall.Config.RemoveAllowedPort` | internal/firewall/ports.go:48-83 | interfaces whose rules are gone are forgotten one by one, in any order, and agreement holds wherever a failure stops it; without a failing command it succeeds |
| `Firewall.Config.RedirectPort` | internal/firewall/redirect.go:13-75 | the tracked list afterwards, exactly when it panics (source port 0, or a disabled firewall), what destination port 0 does, agreement with the kernel even when only the conflicting redirection was removed, and success unless a command fails or the firewall is enabled and the interface name empty |
| `Firewall.Config.AddSubnetRules` | internal/firewall/outboundsubnets.go:69-86 | one rule for each default route of the subnet's family, or those of a prefix of the routes on failure |
| `Firewall.Config.RemoveSubnetRules` | internal/firewall/outboundsubnets.go:40-58 | the rules of all routes are deleted, as far as no deletion fails, if the subnet is masked; otherwise the kernel does not change at all |
| `Firewall.Config.SetOutboundSubnets` | internal/firewall/outboundsubnets.go:12-36 | what is tracked afterwards as a multiset, also after a failure; kernel rules, entries and what is left over change by the same rules; if nothing failed, rules are left over exactly when an entry that goes has a default route and is not masked; without a failing command, it ends without any failure exactly if ip6tables is there or not needed; port rules are untouched |
| `Firewall.Config.Enable` | internal/firewall/enable.go:42-125 | all rules of the base and of the tracked state are added, or the kernel is as before enabling |
| `Firewall.Config.SetEnabled` | internal/firewall/enable.go:10-40 | a failing enable leaves the kernel as it was, disabling restores the kernel of the last enabling, and everything tracked survives both; without a failing command, enabling fails exactly if an interface name is empty, or ip6tables is missing for the VPN server, a local network or a subnet |
| `MtuTests.MtusSpread` | internal/pmtud/test/mtu.go:8-17 | strictly increasing from the least to the greatest value, at distances of at most a tenth rounded up; one value exactly when they are equal |
| `MtuTests.MtusAreNearest` | internal/pmtud/test/mtu.go:29-36 | the values are the nearest ones to eleven equidistant points, half rounded up |
| `MtuTests.WidestGapIsReached` | internal/pmtud/test/mtu.go:29-35 | some distance is that wide |
| `MtuTests.AtMostElevenIff` | internal/pmtud/test/mtu.go:8-17 | at most eleven values, unless the bounds are eleven apart |
| `MtuTests.MakeMTUsToTest` | internal/pmtud/test/mtu.go:18-39 | the loops, counting up or stepping by tenths, produce that list; bounds in the wrong order panic |
| `MtuTests.CountingEndsIff` | internal/pmtud/test/mtu.go:24-28 | for bounds at most eleven apart, the 32-bit counter ever passes the greatest value exactly when that is not 2^32 - 1 |
| `PathMtu.PathMtuDiscover` | internal/pmtud/tcp/multi.go:119-182 | the recursive method with its test array computes the search, and ends for all replies |
| `PathMtu.FindsPathMtu` | internal/pmtud/tcp/multi.go:119-182 | on a path that delivers exactly sizes up to P, with P at least the minimum, the answer is P or the maximum, whichever is smaller |
| `PathMtu.NothingFoundBelow` | internal/pmtud/tcp/multi.go:124-127 | below the minimum nothing is found, except when minimum and maximum are equal |
| `PathMtu.FoundPassedOrIsMin` | internal/pmtud/tcp/multi.go:167-181 | for arbitrary replies, a value found passed a test that was sent, or is the initial minimum |
| `PathMtu.CancelledIff` | internal/pmtud/tcp/multi.go:162-165 | the search is cut short exactly when one of the rounds it enters is cancelled |
| `PathMtu.RoundsAreTried` | internal/pmtud/tcp/multi.go:119-182 | on a steady path, a search that is not cancelled enters exactly as many rounds as the next three rows count |
| `PathMtu.WithinReach` | internal/pmtud/test/mtu.go:14-17 | up to 11, 120, 1210 values apart, one, two, three rounds are enough on every path |
| `PathMtu.BeyondReach` | internal/pmtud/test/mtu.go:14-17 | beyond that some path takes more |
| `PathMtu.ThreeRoundsIff` | internal/pmtud/test/mtu.go:14-17 | a search that is not cancelled enters at most three rounds on every path exactly up to 1210 values apart |
| `IcmpMtu.CollectReplies` | internal/pmtud/icmp/multi.go:114-193 | a test is marked exactly when a reply was accepted for it; no error means as many accepted replies as tests |
| `IcmpMtu.AllAnsweredIff` | internal/pmtud/icmp/multi.go:80-83 | without an error, all sizes were answered exactly when no reply came twice |
| `IcmpMtu.CollectEndsAs` | internal/pmtud/icmp/multi.go:124-193 | collecting ends without an error as soon as enough replies have come, with an error at the first bad message before that, and with a timeout if there is neither |
| `IcmpMtu.CollectsOneWay` | internal/pmtud/icmp/multi.go:124-193 | the three exclude each other, so that the messages determine how it ends |
| `IcmpMtu.ErrorIff` | internal/pmtud/icmp/multi.go:98-101 | a search whose tests can be sent fails exactly when the collection fails in one of its rounds |
| `IcmpMtu.PmtudMultiSizes` | internal/pmtud/icmp/multi.go:23-104 | the recursive method computes the search |
| `IcmpMtu.FoundAnsweredIff` | internal/pmtud/icmp/multi.go:80-104 | for arbitrary replies, a value found was answered in a round that was sent, or is the initial minimum, exactly when no round sent ended without an error while its largest size was not answered |
| `IcmpMtu.NoDuplicatesAreEnough` | internal/pmtud/icmp/multi.go:172 | rounds in which no reply comes twice meet that condition |
| `IcmpMtu.FindsPathMtu` | internal/pmtud/icmp/multi.go:23-193 | when every size up to P is answered once, in any order, in full or cut, with ignored and foreign messages in between: the answer is P or the maximum, if no answered test sent shares its identifier with a larger one; otherwise, and with no reply cut, an error |
| `IcmpMtu.NothingFoundBelow` | internal/pmtud/icmp/multi.go:84-97 | on such a path, below the minimum nothing is found, except when minimum and maximum are equal |
| `IcmpMtu.NoisyNetworkIsSteady` | internal/pmtud/icmp/message.go:11-21 | a network with 16-bit identifiers, ignored and foreign messages and cut replies that meets all of these conditions |
| `IcmpMtu.DuplicateReplies` | internal/pmtud/icmp/multi.go:172 | a concrete network on which a size that was never answered is reported |
| `IcmpMtu.LostReply` | internal/pmtud/icmp/multi.go:84-94 | a concrete network on which the largest size is answered and not reported |
| `IcmpMtu.LargestReportedIff` | internal/pmtud/icmp/multi.go:80-94 | when the largest size of a round is answered and the round does not fail, it is reported exactly if no timeout came |
| `IcmpMtu.NothingLostIff` | internal/pmtud/icmp/multi.go:84-94 | for arbitrary replies, a value found is as large as everything answered exactly when no round that timed out had its largest size answered |
| `Checksum.AddWords` | internal/pmtud/tcp/tcpheader.go:50-58 | the 32-bit sum of a slice's words, without wrap-around |
| `Checksum.Fold` | internal/pmtud/ip/ipheader.go:52-54 | folding ends, with the same remainder modulo 65535, and with zero only for zero |
| `Checksum.IpChecksum` | internal/pmtud/ip/ipheader.go:41-56 | the loops compute the checksum |
| `Checksum.PaddedWithZero` | internal/pmtud/ip/ipheader.go:49-51 | an odd number of bytes is summed as if a zero byte followed |
| `Checksum.ChecksumCancels` | internal/pmtud/ip/ipheader.go:35-37 | with the checksum written over two zero bytes at an even place, the checksum is zero (section 3.1 of RFC 791, section 3.1 of RFC 9293) |
| `Checksum.ChangeIsDetected` | internal/pmtud/ip/ipheader.go:41-56 | a word other than 65535 put where there were zeros changes the checksum |
| `TcpOptions.ParseTcpOptions` | internal/pmtud/tcp/tcpheader.go:218-294 | the loop stays in range, ends on every input, and computes the parse |
| `TcpOptions.AcceptsExactly` | internal/pmtud/tcp/tcpheader.go:218-294 | accepted are exactly the encodings of lists of options with an end, and the last value of each kind wins (section 3.2 of RFC 9293, sections 2.2 and 3.2 of RFC 7323) |
| `TcpHeader.MakeTcpHeader` | internal/pmtud/tcp/tcpheader.go:13-28 | the buffer holds the fields in network order, a data offset of 20 bytes and window 5840 |
| `TcpHeader.ParseTcpHeader` | internal/pmtud/tcp/tcpheader.go:131-195 | the fields, the options and the type, or the first error |
| `TcpHeader.TypedIff` | internal/pmtud/tcp/tcpheader.go:159-190 | a packet has a type exactly when one of the five lowest flags is set |
| `TcpHeader.TypeIs` | internal/pmtud/tcp/tcpheader.go:159-190 | which of the eight types a packet has, for all combinations of its flags |
| `TcpHeader.ParseRoundTrip` | internal/pmtud/tcp/tcpheader.go:131-195 | parsing a header with options and a payload gives back all fields and options |
| `TcpHeader.MadeIsParsed` | internal/pmtud/tcp/tcpheader.go:13-28 | a made header, with any checksum and payload, is parsed back |
| `TcpHeader.MadeWithoutType` | internal/pmtud/tcp/tcpheader.go:187-189 | with none of those flags it is not |
| `TcpHeader.TcpChecksum` | internal/pmtud/tcp/tcpheader.go:31-63 | the three slices are summed as their concatenation, pseudo header first, without wrap-around |
| `TcpPacket.HeaderV4` | internal/pmtud/ip/ipheader.go:17-39 | the header with don't-fragment, the total length and the checksum in its place |
| `TcpPacket.HeaderV4Verifies` | internal/pmtud/ip/ipheader.go:17-39 | its checksum is zero |
| `TcpPacket.V4Fields` | internal/pmtud/ip/ipheader.go:17-39 | version, lengths, don't-fragment, time to live, protocol and addresses, where section 3.1 of RFC 791 has them |
| `TcpPacket.V6Fields` | internal/pmtud/ip/ipheader.go:61-79 | the fields of an IPv6 header |
| `TcpPacket.PseudoHeaderIs` | internal/pmtud/tcp/tcpheader.go:31-48 | the pseudo header taken from the IP header is the one that the receiver makes from the addresses |
| `TcpPacket.CreatePacket` | internal/pmtud/tcp/packet.go:57-99 | the packet is the IP header (IPv4 only), the TCP header with its checksum, the data, and zeros where the 16-bit data length was cut |
| `TcpPacket.PacketIsSound` | internal/pmtud/tcp/packet.go:57-99 | the IP header verifies, the segment verifies with the pseudo header that the receiver makes from the addresses (section 3.1 of RFC 9293, section 8.1 of RFC 8200), and the receiver reads back type, ports, sequence numbers and flags |
| `TcpPacket.CreateAckPacket` | internal/pmtud/tcp/packet.go:26-55 | the packet for an MTU test has that size, counting the IPv6 header the kernel adds, and is received as a PSH-ACK with its ports, sequence number and acknowledgement; too small an MTU panics |
| `TcpPacket.CreateSynPacket` | internal/pmtud/tcp/packet.go:12-24 | the same for a SYN, which acknowledges nothing |
| `TcpPacket.CreateRstPacket` | internal/pmtud/tcp/packet.go:39-42 | and for a RST without data |
| `CommandSplit.SplitWord` | internal/command/split.go:65-95 | the scanner with its index and buffer reads a word as the quoting rules say |
| `CommandSplit.HandleDoubleQuoted` | internal/command/split.go:97-123 | so does the one between double quotes, with its five escapes |
| `CommandSplit.HandleSingleQuoted` | internal/command/split.go:125-136 | and the one between single quotes |
| `CommandSplit.HandleEscaped` | internal/command/split.go:138-150 | and the one after a backslash |
| `CommandSplit.RestIsShorter` | internal/command/split.go:36-60 | every word takes at least one character, so that splitting moves on |
| `CommandSplit.SplitCommand` | internal/command/split.go:26-62 | the whole splitter agrees with the rules on every input, the one loop without progress included |
| `CommandQuoting.SplitOfJoined` | internal/command/split.go:22-62 | splitting the single-quoted words of any list, joined by spaces, gives back the list |
| `CommandQuoting.SplitEndsAs` | internal/command/split.go:36-60 | splitting does not end exactly when some word begins with a backslash and no newline; otherwise the place where the command ends tells the error, or that there is none |
| `CommandQuoting.BackslashLetterDiverges` | internal/command/split.go:42-50 | the shortest such command |
| `CommandSpelling.SplitOfDoubleQuoted` | internal/command/split.go:97-123 | double quoting any words, with a backslash before each dollar sign, backquote, double quote and backslash, is undone by splitting |
| `CommandSpelling.BackslashInDouble` | internal/command/split.go:108-119 | between double quotes a backslash goes before these four characters, vanishes with a newline, and stays before any other character |
| `CommandSpelling.SplitOfBackslashedIff` | internal/command/split.go:138-150 | words with a backslash before each special character come back exactly when none is empty, has a newline or begins with a special character |
| `CommandSpelling.SplitOfSpelled` | internal/command/split.go:22-62 | words that are written in any of these ways, each in its own, come back |
| `CommandSpelling.PiecesReadAs` | internal/command/split.go:65-95 | and so do words in pieces that are written in different ways |
| `CommandSpelling.BlankSeparates` | internal/command/split.go:38-41 | a space, a tab or a newline ends a word and is skipped before one |
| `ServerOrder.LessIsAsymmetric` | internal/models/sort.go:17-42 | servers are incomparable exactly when all eight fields agree |
| `ServerOrder.LessIsTransitive` | internal/models/sort.go:17-42 | the order is transitive |
| `ServerOrder.NotLessIsTransitive` | internal/models/sort.go:17-42 | and a strict weak order |
| `ServerOrder.LessIff` | internal/models/sort.go:17-42 | the first of the eight fields that differs decides, the smaller value coming first |
| `ServerOrder.StringLessIff` | internal/models/sort.go:17-42 | texts compare as prefixes, or by the first character that differs |
| `ServerOrder.Sort` | internal/storage/merge.go:78 | sorting through Less and Swap gives a sorted permutation |
| `ServerMerge.MergeProviderServers` | internal/storage/merge.go:30-81 | a newer persisted list is used as it is; otherwise the sorted merge of the built-in and the kept servers |
| `ServerMerge.OneForEachKey` | internal/storage/merge.go:50-76 | with distinct built-in keys, exactly one server for each key of both lists, the kept one winning |
| `ServerKeys.OneForEachServer` | internal/storage/merge.go:50-76 | the same in terms of VPN type, network protocols and hostname: the last one that is to be kept, else the built-in one |
| `ServerKeys.SameKeyIff` | internal/models/server.go:92-102 | two servers share a key exactly when these fields agree, or one is for TCP only, the other for TCP and UDP, and the first hostname is `udp-` and the second |
| `ServerKeys.BothMergedIff` | internal/storage/merge.go:61-76 | a built-in server and one to be kept are both merged exactly when they do not share a key in that sense |
| `ServerKeys.OtherServerIsLost` | internal/models/server.go:92-102 | a concrete server that is lost to one on another host |
| `ServerKeys.NewerWins` | internal/storage/merge.go:30-48 | the outcome has the newer timestamp that is not in the future; only a list that is really newer brings in servers that are neither built in nor kept |
| `ServerMerge.MergeIsIdempotent` | internal/storage/merge.go:30-81 | merging the outcome again gives the same servers, as long as only the first built-in server of a key is marked as kept |
| `ServerMerge.StableIff` | internal/storage/merge.go:30-81 | merging is idempotent for all persisted lists, times and orders of equal sort keys exactly under that condition |
| `ServerMerge.FutureIsIgnoredIff` | internal/storage/merge.go:34-39 | a list from the future changes nothing exactly when every server it keeps is the first built-in one with its key |
| `ServerMerge.FutureServerIsMerged` | internal/storage/merge.go:34-39 | for every built-in list, a server from the future that is merged |
| `ServerMerge.DistinctKeysAreEnough` | internal/storage/merge.go:61-71 | distinct keys meet that condition |
| `ServerMerge.SecondKeptIsNotIdempotent` | internal/storage/merge.go:61-71 | a concrete list that does not |
| `OpenVpnConf.HasPrefixOneOf` | internal/provider/custom/openvpnconf.go:107-114 | whether any of the prefixes fits |
| `OpenVpnConf.ModifyConfig` | internal/provider/custom/openvpnconf.go:33-105 | the filtered lines in order, then the added lines |
| `OpenVpnConf.ModifyIsIdempotent` | internal/provider/custom/openvpnconf.go:33-105 | modifying twice is modifying once |
| `OpenVpnConf.ModifyReplaces` | internal/provider/custom/openvpnconf.go:33-105 | modifying for another connection leaves no trace of the first |
| `OpenVpnOptions.SettingsAreWritten` | internal/provider/custom/openvpnconf.go:33-105 | for each of ten options: exactly the line that the settings call for, if any, and the file's own lines for it exactly if nothing was asked for |
| `OpenVpnOptions.FlagsAreWritten` | internal/provider/custom/openvpnconf.go:72-103 | the lines without a value that are always there, and those for an unprivileged process and without IPv6 |
| `OpenVpnExtract.UpdatesKeepFirst` | internal/models/connection.go:37-47 | after any number of updates each field has the first value that set it, and a field that nothing sets is not set |
| `OpenVpnExtract.ExtractDataFromLines` | internal/openvpn/extract/extract.go:16-53 | the loop computes the extraction, first come, first served |
| `OpenVpnExtract.DefaultsAre` | internal/openvpn/extract/extract.go:35-52 | what is read has an address, a protocol and a port from 1 to 65535: UDP if no line names a protocol, and 443 for TCP or 1194 for UDP if no line names a port |
| `OpenVpnExtract.RemoteLine` | internal/openvpn/extract/extract.go:119-155 | remote lines of two, three and four fields are read as written |
| `OpenVpnExtract.ProtoAndPortLines` | internal/openvpn/extract/extract.go:86-175 | proto and port lines are read as written, or refused |
| `OpenVpnExtract.ProtocolNames` | internal/openvpn/extract/extract.go:97-111 | the seven names of the two protocols |
| `OpenVpnConf.ExtractOfModified` | internal/provider/custom/openvpnconf.go:72-105 | reading a modified configuration gives the connection, but for the port of a port line of its own |
| `OpenVpnConf.RoundTripIff` | internal/openvpn/extract/extract.go:16-84 | the connection is read back exactly when no port line is kept, or only readable ones of which the first says the same port |

## Left out

- Sockets, netlink, process execution, files, HTTP and DNS: each is a success or failure, or a parameter.
- Liveness of the loops: beyond safety, only what waits for ever is claimed; timers and back-off times are actions that may happen at any moment.
- The status mutex: the short critical section that stores a status is one action of the VPN loop, and status Completed never occurs in it.
- `tunnelReady`, `onTunnelUp` and the port forwarding, DNS, proxy and shadowsocks loops: other uses of the same protocol.
- Reading modules.dep and finding module paths: the dependency map is given, and loading a module is a predicate on its path.
- Failing restores: `iptables-restore` is assumed to succeed, as a failure of it is only logged.
- The text of instructions and listings: fields are tokens, and the listing of a chain is its rules; line numbers are unbounded, where the source keeps 16 bits.
- Interface names with white space, or equal to `-D` or `--delete`, which would change how an instruction is read.
- User post rules and the VPN interface rule: no rules file is there, and `SetVPNConnection` is not modelled, since it ignores failed deletions by design.
- The version checks of iptables, and the check for the mark module before resets are dropped.
- MtuTests.MakeMTUsToTest: computes over reals, where the source uses floating point; a tie could be rounded the other way there. Bounds for which it never ends are excluded (`MtuTests.CountingEndsIff`).
- PathMtu.PathMtuDiscover: replies are a function of the round and the size, and finding the server with the largest MSS is left out.
- IcmpMtu.PmtudMultiSizes: message parsing is an event, and echo identifiers are given, so that they may collide.
- IcmpMtu.FindsPathMtu: with shared identifiers and replies cut to 556 bytes, where a reply may be counted for the wrong test, the result is not determined.
- TcpPacket.CreatePacket: the bytes of the payload are arbitrary; only their number is modelled. Byte order on Darwin differs and is left out.
- CommandSplit.SplitCommand: text is a list of runes, so that invalid UTF-8 is left out.
- ServerMerge.MergeProviderServers: the fields of a server outside its key and its order are one value, and the logger is left out.
- OpenVpnExtract.ExtractDataFromLines: an address is what the address parser that is passed along makes of its text; a printed address is assumed to be read back and to have no white space and no `#`.
- Settings, provider constants, certificates, markdown and JSON formatting, loggers and mocks.
