# caly in Dafny

A model of the algorithmic core of caly, the proxy controller, with proofs. One module per component; each file
names the component it models. `Common.dfy` holds what several of them share.

| file | component |
|---|---|
| `Graph.dfy`, `Kahn.dfy`, `ActorTopology.dfy`, `DependencyDiscipline.dfy` | the two repository gates built on Kahn's algorithm |
| `GroupCycles.dfy` | the recursive search that marks proxy-group cycles in the entry tree |
| `DialerChain.dfy` | the three-colour validation of chained dialers |
| `Text.dfy`, `RuleLine.dfy`, `RouteRender.dfy` | Clash rule lines and their compilation into a sing-box route table |
| `DnsWire.dfy`, `DnsProbe.dfy` | the DNS probe's wire codec, classification and receive loop |
| `CrashLoop.dfy`, `ExitMonitor.dfy` | the restart backoff policy and the monitor loop that drives it |
| `DualCore.dfy` | the owner of two kernels: start, stop, restart, switch with rollback |
| `CellText.dfy`, `TableLayout.dfy` | measuring, truncating and laying out terminal tables |
| `ProfileCache.dfy` | the profile cache on disk, a write stopping after any file step |
| `EventReplica.dfy` | event cursors, a client replica under loss and restarts, and the sequencer |
| `Cidr.dfy` | matching addresses against CIDR blocks |

Code that updates things in place is imperative here too: loops with invariants, classes for the policy, the
two-kernel owner, the profile store and the sequencer, arrays for the table widths. Each such method is proved equal
to a function of its inputs or its old state, and the theorems are about those functions.

Inputs that come from outside are parameters: what the operating system does to a launch, a stop or a file step, what
arrives on a socket and when, the order a set, dictionary or ordered map is walked in, the width of a character, the
parser of an IP address, the sidecar codec, and the fold that applies an event. Numbers are unbounded except the `u64` fields of
the policy and the event sequence, whose saturation and exhaustion are modelled.

## Where the code and its words differ

- Backoff reset. The comments ask for a full 5000 ms of running (crates/caly-composition/src/recovery.rs:23-24 and
  30-32). The loop ticks before it sleeps, so the reset comes at the tenth clean poll, with exactly nine sleeps,
  4500 ms, behind it: `RaisedBackoffResetsEarly` for every run, `EarlyResetHappens` for a concrete one.
- Two kernels never racing (crates/caly-backends/src/dual.rs:85-86). True of what the backends own, at every moment of
  a switch. A process whose reap failed is no longer owned and may still be alive: `RollbackBesideALeak` shows two live
  processes. `MomentsAloneIff` says of which operations this is true, `OverlapIff` after which runs, and
  `ProcessesAreExclusiveIffNoOrphans` of which states when every reap succeeds.
- Rules behind a MATCH. The renderer keeps emitting them in front of the final outbound, so they overtake it:
  `LateRuleOvertakes`, with the exact condition in `RenderedMeansRules`.
- A proxy named `DIRECT` or `REJECT` prints as the built-in policy: `ProxyNamedDirectIsLost`, with the exact condition
  in `RoundTripsIffCanonical`.
- A write that is not stopped can fail after it has replaced the body: `MalformedSidecarFailsLate`. It reads back if and
  only if a validator came with it or the sidecar can be read: `ReadsBackIff`. No history of the store itself leaves a
  sidecar that cannot be read: `SidecarsAlwaysRead`.
- Group cycles. The flag is said to mark members on a cycle (crates/caly-cli/src/entry_tree.rs:524-526). A name means the
  first group declared under it, but every declaration is searched as an owner, so a shadowed one can be flagged where
  its name lies on no cycle: `ShadowedGroupIsFlagged`, with the exact relation in `FlaggedIsOnCycle`.
- Truncation to at most `max` columns (crates/caly-cli/src/output.rs:224). An escape that hides another one in front of a
  bracket is copied as a sequence and measured as text: `HiddenEscapeOverflows`. The bound holds whenever the text fits
  or the cut goes past no such pair (`TruncatedFits`), and with terminal widths exactly then (`TruncatedFitsIff`).
- Table width. A cell that ends inside a sequence swallows the opening of the next one: `UnterminatedCellOverflows`.
  Columns that end so are exactly those some complete cell behind them makes too wide (`TakesAnyIff`), and a given row
  keeps its places exactly when each of its cells can follow (`RowKeepsPlacesIff`). Such rows fit: `EveryLineFits`.
- A corrupt sidecar is said to read as a mismatch (crates/caly-profile/src/profile_store.rs:141-144); the code reports it
  as malformed, and only a wrong length as a mismatch: `SidecarErrors`.
- The guard at the top of the stability tick can never be taken: `EarlyReturnIsDead`.

The meaning of a sing-box route key is taken to be that of the Clash matcher it stands for, which is what its name
documents; the kernel itself is outside the repository.

## Model

| member | source | states |
|---|---|---|
| Kahn.Visit | scripts/check-actor-topology.py:32-43 | for every edge list, self and parallel edges included, the loop ends and visits all nodes if and only if the graph has no directed cycle, cycles being defined by walks |
| Kahn.VisitOne | scripts/check-actor-topology.py:35-40 | one turn takes a node without unvisited predecessors and leaves the counts and the ready stack exact for the nodes still waiting |
| Kahn.Release | scripts/check-actor-topology.py:37-40 | paying off every listed successor, repeated ones included, reaches the counts without the visited node and queues exactly those at zero |
| Kahn.AllVisitedIffAcyclic | scripts/check-actor-topology.py:41-43 | with the ready stack empty, nothing waits if and only if the graph is acyclic: a stuck set contains a cycle, a visiting order rules one out |
| Kahn.PendingWithout | scripts/check-actor-topology.py:37-38 | visiting a node lowers the number of pending edges into any target by exactly its edges to it |
| ActorTopology.Build | scripts/check-actor-topology.py:23-31 | stops at the first self edge if there is one, otherwise fills exactly the successor lists and edge counts |
| ActorTopology.Check | scripts/check-actor-topology.py:16-45 | passes if and only if there are edges and no directed cycle; the empty and the self-edge verdicts are also exact, and the node named is that of the first self edge |
| DependencyDiscipline.ReadCoordinates | scripts/check-dependency-discipline.py:67-75 | collects the declared layers and reports the packages without them, in package order |
| DependencyDiscipline.ReadEdges | scripts/check-dependency-discipline.py:77-88 | the edges are exactly the internal, non-dev dependencies between packages of the workspace |
| DependencyDiscipline.CheckLayers | scripts/check-dependency-discipline.py:90-101 | the report lists the bad edges source by source and, for each source, in the sort order of names |
| DependencyDiscipline.BadEdgesAreReported | scripts/check-dependency-discipline.py:90-101 | that list holds exactly the internal edges that neither descend strictly nor are declared peers of one layer, each once |
| DependencyDiscipline.CheckCycle | scripts/check-dependency-discipline.py:103-118 | true if and only if the internal graph is acyclic, self-dependencies included |
| DependencyDiscipline.Check | scripts/check-dependency-discipline.py:60-118 | a problem is reported if and only if the discipline names it; the whole report in its order: missing coordinates by package, bad edges by package and target name, then the cycle |
| DependencyDiscipline.StrictLayersAreAcyclic | scripts/check-dependency-discipline.py:90-118 | if every internal edge strictly descends, no cycle is reported |
| DependencyDiscipline.SelfDependencyIsReported | scripts/check-dependency-discipline.py:103-118 | a package that depends on itself is reported as a cycle whatever its peer list allows |
| DependencyDiscipline.CyclesAreDeclaredPeers | scripts/check-dependency-discipline.py:90-118 | when every edge passes the layer check, each edge of a cycle is a declared peer edge |
| GroupCycles.ReachesBack | crates/caly-cli/src/entry_tree.rs:551-574 | terminates on every group list; true only if references lead to the target; false leaves a seen set that is closed under references and avoids the target |
| GroupCycles.AnyMemberReaches | crates/caly-cli/src/entry_tree.rs:566-573 | the loop over member slots keeps the explored set closed except for the group being walked, and closes it at its end |
| GroupCycles.ReferencesBack | crates/caly-cli/src/entry_tree.rs:532-538 | started with nothing seen, the search is true if and only if a path of group references leads from one name to the other, on cyclic, dangling and duplicate-named lists |
| GroupCycles.OwnerFlags | crates/caly-cli/src/entry_tree.rs:530-542 | one flag per member slot, set exactly for group slots that lead back to the owner |
| GroupCycles.MemberCycles | crates/caly-cli/src/entry_tree.rs:527-546 | the flags of every group have its shape and mark exactly the slots that lead back |
| GroupCycles.FlaggedIsOnCycle | crates/caly-cli/src/entry_tree.rs:524-546 | for every owner, shadowed ones included, and every group slot: a closed walk through the owner's name takes the slot first if and only if the slot is flagged and the name refers by it |
| GroupCycles.UniqueNamesFlagCycles | crates/caly-cli/src/entry_tree.rs:524-546 | without repeated names a slot is flagged if and only if it starts a cycle |
| GroupCycles.ShadowedGroupIsFlagged | crates/caly-cli/src/entry_tree.rs:527-546 | a second group under one name with a flagged slot, in a list without any cycle |
| GroupCycles.AcyclicShowsNoFlag | crates/caly-cli/src/entry_tree.rs:524-526 | on an acyclic list a flag can only stand on a slot by which its owner's name does not refer |
| DialerChain.FindMissing | crates/caly-subscription/src/chain.rs:38-47 | finds the first reference in key order that is outside the map, and nothing if and only if there is none |
| DialerChain.WalkChain | crates/caly-subscription/src/chain.rs:55-80 | a walk either settles every node it entered, leaving none Visiting, or names a node on a cycle; it enters no settled node and none twice |
| DialerChain.SettlePath | crates/caly-subscription/src/chain.rs:63-78 | a finished path can be ordered: each of its nodes gets a depth above its dialer's |
| DialerChain.PathClosesCycle | crates/caly-subscription/src/chain.rs:66-67 | meeting a node of the current path means that node lies on a cycle |
| DialerChain.ValidateChains | crates/caly-subscription/src/chain.rs:33-53 | accepts if and only if every dialer is known and the map has no cycle; a missing dialer reported is the first in key order, a cycle node reported is on a cycle, and over all walks no node is entered twice |
| RuleLine.ParseFlags | crates/caly-domain/src/rule.rs:429-439 | the accumulating loop computes the flags denoted by the tokens, or the first bad token's error |
| RuleLine.LineMeansRule | crates/caly-domain/src/rule.rs:331-386 | the accepted language, exactly: a line parses to a rule if and only if it is neither blank nor a comment and its trimmed fields spell that rule by the grammar, either address keyword, flags in any order and number, any padding |
| RuleLine.ParsedIsCanonical | crates/caly-domain/src/rule.rs:331-386 | every accepted line yields a rule in canonical form: trimmed comma-free bounded texts, no name that reads as a built-in policy |
| RuleLine.CanonicalRoundTrips | crates/caly-domain/src/rule.rs:278-396 | a canonical rule, printed and parsed, comes back, whatever its matcher, policy and flags |
| RuleLine.ParsePrintParse | crates/caly-domain/src/rule.rs:331-396 | parsing, printing and parsing again gives the same rule for every accepted line |
| RuleLine.RoundTripsIffCanonical | crates/caly-domain/src/rule.rs:278-396 | a rule, however built, survives printing and parsing if and only if it is canonical |
| RuleLine.AcceptedRulesAreTheCanonicalOnes | crates/caly-domain/src/rule.rs:331-386 | the rules some line parses to are exactly the canonical ones |
| RuleLine.PrintSeparatesRules | crates/caly-domain/src/rule.rs:389-396 | two accepted lines print alike if and only if they parse to the same rule |
| RuleLine.ProxyNamedDirectIsLost | crates/caly-domain/src/rule.rs:257-275 | a proxy called DIRECT comes back as the bypass policy |
| RouteRender.HostOnlyIsOffline | crates/caly-domain/src/rule.rs:399-416 | on a connection of which only the host is known, a matcher's meaning is the offline host test |
| RouteRender.FirstHitIsMatchHost | crates/caly-domain/src/rule.rs:453-455 | the first rule that hits such a connection is the one the offline search returns |
| RouteRender.FirstHitIsMatchIp | crates/caly-profile/src/rule_match.rs:16-41 | on a connection of which only the address is known, the first rule that hits is the first whose block shares the address's leading bits, or a catch-all |
| RouteRender.ObjectMeansMatcher | crates/caly-coreconf/src/rules.rs:458-530 | a rendered route object carries the given outbound and hits exactly the connections its matcher hits, for any choice of the blocks and rule-sets a connection falls under |
| RouteRender.DroppedIff | crates/caly-coreconf/src/rules.rs:430-530 | a rule is erased if and only if it names a proxy in a document without proxies or its matcher has no sing-box form |
| RouteRender.RenderOne | crates/caly-coreconf/src/rules.rs:119-155 | one turn: the object emitted, the final outbound, the block flag and the skip, each exact |
| RouteRender.RenderRules | crates/caly-coreconf/src/rules.rs:114-156 | the loop emits the representable ordinary rules in order, keeps the first representable catch-all as final, counts the rest, and flags block exactly when an ordinary rule steers to it |
| RouteRender.RouteIsFirstApplicable | crates/caly-coreconf/src/rules.rs:118-156 | the table sends a connection where its first applicable source rule says, else to the final outbound |
| RouteRender.DecisionIsFirstDeciding | crates/caly-domain/src/rule.rs:453-455 | the source list with unrepresentable rules erased decides by its first representable rule that hits, catch-alls included, else by default |
| RouteRender.RenderedMeansRules | crates/caly-coreconf/src/rules.rs:108-175 | for every rule list and connection, table and list agree if and only if no ordinary rule behind the first representable catch-all overtakes it with another outbound |
| RouteRender.CatchAllLastIsFaithful | crates/caly-coreconf/src/rules.rs:119-128 | with no representable ordinary rule behind a representable catch-all, table and list agree on every connection |
| RouteRender.HostsAreRoutedAsMatched | crates/caly-coreconf/src/rules.rs:108-175 | for every host, the table's outbound is that of the rule the offline search picks, under the same exact condition |
| RouteRender.AddressesAreRoutedAsMatched | crates/caly-coreconf/src/rules.rs:108-175 | for every address, the table's outbound is that of the first kept rule the address falls under, or the default if there is none, under the same exact condition |
| RouteRender.LateRuleOvertakes | crates/caly-coreconf/src/rules.rs:119-128 | MATCH to direct followed by a rejecting domain rule: the list says direct, the table blocks |
| RouteRender.EveryRuleIsAccounted | crates/caly-coreconf/src/rules.rs:118-156 | every source rule is emitted, counted as skipped, or a catch-all that became final or came after it |
| RouteRender.EmittedTagsComeFromRules | crates/caly-coreconf/src/rules.rs:129-148 | every emitted outbound is the tag of some ordinary source rule's policy |
| RouteRender.FinalIsATag | crates/caly-coreconf/src/rules.rs:119-128 | a final outbound taken from the rules is the tag of some catch-all's policy |
| RouteRender.HeadlessMeansMatcher | crates/caly-coreconf/src/rules.rs:362-380 | a headless rule hits exactly what its matcher hits |
| RouteRender.ConvertLine | crates/caly-coreconf/src/rules.rs:283-323 | a payload line becomes the headless rule its behaviour gives it, or one skip |
| RouteRender.UnconvertedIff | crates/caly-coreconf/src/rules.rs:287-320 | exactly which content lines of each behaviour have no headless form |
| RouteRender.InlinePayloadRules | crates/caly-coreconf/src/rules.rs:279-326 | headless rules come in line order, and rules and skips together number the non-blank, non-comment lines |
| RouteRender.PayloadMeaning | crates/caly-coreconf/src/rules.rs:279-326 | a converted rule-set hits a connection if and only if one of its convertible lines does |
| RouteRender.IntervalRoundsUp | crates/caly-coreconf/src/rules.rs:414-424 | the download interval is the declared one rounded up to whole seconds, and zero only for zero |
| RouteRender.ProviderToSource | crates/caly-coreconf/src/rules.rs:202-262 | every field of a provider's source, and the number of its unconverted lines |
| RouteRender.BuildRuleSets | crates/caly-coreconf/src/rules.rs:184-193 | one source per provider in order, with every field, and the sum of the unconverted lines |
| RouteRender.RuleSetMeansLines | crates/caly-coreconf/src/rules.rs:279-326 | a compiled RULE-SET rule over a compiled inline provider hits a connection if and only if one of the provider's convertible lines does |
| RouteRender.RenderSingBoxRules | crates/caly-coreconf/src/rules.rs:108-175 | the whole result: agreement with the rule list on every connection under the exact condition, the account of every rule and payload line, the block flag set whenever block is used, and no proxy or group tag unless proxies are representable |
| DnsWire.SkipName | crates/caly-dns/src/probe.rs:374-392 | the loop terminates on arbitrary bytes, reads inside the message only, and computes the label-by-label skip |
| DnsWire.SkipsEncodedName | crates/caly-dns/src/probe.rs:374-392 | a name encoded as sections 3.1 and 4.1.4 of RFC 1035 say, plain or compressed, is skipped to its last byte |
| DnsWire.NameAtIsEncoded | crates/caly-dns/src/probe.rs:374-392 | a name stands label by label in a message if and only if its encoding does |
| DnsWire.SkippedIsNameAt | crates/caly-dns/src/probe.rs:374-392 | conversely, a skip that ends inside the message has passed over a name |
| DnsWire.DecodesNameAt | crates/caly-dns/src/probe.rs:407-417 | a reader independent of the skipper recovers the labels of an uncompressed name and its end |
| DnsWire.SkipQuestion | crates/caly-dns/src/probe.rs:365-371 | succeeds if and only if a question stands there, and ends where it does |
| DnsWire.SkipQuestions | crates/caly-dns/src/probe.rs:339-342 | the loop over the question count, failing at the first question that is not there |
| DnsWire.SkipsEncodedQuestions | crates/caly-dns/src/probe.rs:339-342 | an encoded question section of any length is skipped to its last byte |
| DnsWire.ReadRecord | crates/caly-dns/src/probe.rs:343-360 | one turn of the answer loop: stop, the address of an address record that stands there, or the next offset |
| DnsWire.ScanAnswers | crates/caly-dns/src/probe.rs:343-361 | the loop over the answer count returns the first address or nothing |
| DnsWire.ScansEncodedRecords | crates/caly-dns/src/probe.rs:343-361 | over an encoded answer section of any records the result is its first record of TYPE 1 with four data bytes |
| DnsWire.ParseFirstA | crates/caly-dns/src/probe.rs:331-362 | on every message of at least twelve bytes it terminates with every index in range; an address comes back if and only if the message holds it as its first address record |
| DnsWire.ReadsFirstAddress | crates/caly-dns/src/probe.rs:331-362 | on every well-formed response, any question count, plain or compressed names, mixed record types, trailing sections, the result is the first address record's data |
| DnsWire.MoreTurnsChangeNothing | crates/caly-dns/src/probe.rs:343-361 | once an address is found, a larger answer count finds the same one |
| DnsWire.AddressIffHeld | crates/caly-dns/src/probe.rs:331-362 | on arbitrary bytes an address comes back if and only if the message holds its questions and then whole records of which the last, and no earlier one, is an address record, with that address |
| DnsWire.HeldIsRead | crates/caly-dns/src/probe.rs:331-362 | a held address is read whatever follows it, more announced answers included |
| DnsWire.ReadIsHeld | crates/caly-dns/src/probe.rs:331-362 | from any successful parse the questions and records that justify it can be given |
| DnsProbe.EncodeDomain | crates/caly-dns/src/probe.rs:407-417 | accepts exactly the domains whose labels are 1 to 63 ASCII characters and writes their length-prefixed encoding |
| DnsProbe.BuildQuery | crates/caly-dns/src/probe.rs:398-428 | accepts exactly the domains that also fit 255 bytes, and writes header, name, type and class |
| DnsProbe.QueryRoundTrip | crates/caly-dns/src/probe.rs:365-428 | a query is 16 to 271 bytes, its name decodes to the domain's labels, and skipping its question lands on its end |
| DnsProbe.DomainIsRecovered | crates/caly-dns/src/probe.rs:398-428 | the decoded labels joined by dots are the domain |
| DnsProbe.ClassifyDatagram | crates/caly-dns/src/probe.rs:310-327 | a datagram settles the probe if and only if it has a whole header, the query's id and the response bit; it is a refusal exactly for a non-zero response code, and an address is one the message holds |
| DnsProbe.AnswerIsResolved | crates/caly-dns/src/probe.rs:310-362 | a well-formed answer to the query resolves to its first address |
| DnsProbe.EchoIsDropped | crates/caly-dns/src/probe.rs:310-327 | a query sent back, the same or another with its id, is never taken for an answer |
| DnsProbe.ReceiveLoop | crates/caly-dns/src/probe.rs:103-134 | the loop settles with the first turn that is not a stray datagram |
| DnsProbe.StraysChangeNothing | crates/caly-dns/src/probe.rs:103-134 | removing every stray datagram, however many and wherever they arrive, leaves the outcome |
| DnsProbe.AnswersAreAuthentic | crates/caly-dns/src/probe.rs:103-134 | an answer or refusal comes from a datagram with the query's id and the response bit, and every turn before it was stray |
| CrashLoop.CrashLoopPolicy.WithBounds | crates/caly-composition/src/recovery.rs:48-56 | a new policy waits the initial backoff with clear counters |
| CrashLoop.CrashLoopPolicy.Grow | crates/caly-composition/src/recovery.rs:93-96 | doubles the backoff with 64-bit saturation under the ceiling, nothing else changes |
| CrashLoop.CrashLoopPolicy.OnCrash | crates/caly-composition/src/recovery.rs:64-71 | the new state: one more crash, a cleared window, growth from the second crash on |
| CrashLoop.CrashLoopPolicy.OnRestartFailed | crates/caly-composition/src/recovery.rs:74-77 | the new state: a cleared window and growth |
| CrashLoop.CrashLoopPolicy.OnStableTick | crates/caly-composition/src/recovery.rs:81-91 | the new state and whether the window closed and reset the policy |
| CrashLoop.ClosedForm | crates/caly-composition/src/recovery.rs:42-97 | after every event sequence the backoff is min(initial * 2^k, max) with k the growths since the last reset, the crash count is that of the crashes since, and the quiet time is below the window; saturation never shows when bounds are 64-bit |
| CrashLoop.BackoffInBounds | crates/caly-composition/src/recovery.rs:58-97 | with ordered bounds the backoff never leaves them |
| CrashLoop.EarlyReturnIsDead | crates/caly-composition/src/recovery.rs:81-91 | after every event sequence a tick resets if and only if the quiet time and the tick fill the window, so the early return is never taken |
| ExitMonitor.ExitMonitorLoop | crates/caly-composition/src/recovery.rs:119-182 | the loop, driving the policy object, leaves the trace, restart count and observation of the step-by-step machine, for every sequence of outcomes and cancellations |
| ExitMonitor.StepKeepsInv | crates/caly-composition/src/recovery.rs:123-148 | every turn keeps the invariant that ties the policy to the events of the trace and the spell of clean polls |
| ExitMonitor.EveryRunIsGood | crates/caly-composition/src/recovery.rs:119-182 | in every run each action is justified by the trace before it (waits equal the policy's backoff, restarts follow waits, resets follow ten clean polls) and the restart count is the number of successful restarts, saturated |
| ExitMonitor.ObservedTellsTrace | crates/caly-composition/src/recovery.rs:143-175 | in every run the observed counters are the restarts so far and the wait behind the last successful one, or zero backoff after a reset |
| ExitMonitor.WaitsStayInBounds | crates/caly-composition/src/recovery.rs:157-182 | with ordered bounds every wait of every run lies within them |
| ExitMonitor.NoPollDuringOutage | crates/caly-composition/src/recovery.rs:123-142 | between a crash and any later poll there is a successful restart |
| ExitMonitor.OnlyTheTenthTickResets | crates/caly-composition/src/recovery.rs:143-147 | during a spell of clean polls only the tenth tick resets the backoff |
| ExitMonitor.OnlyCleanPollsLower | crates/caly-composition/src/recovery.rs:64-77 | neither a crash, a restart, failed or not, nor the end of the run lowers a raised backoff |
| ExitMonitor.RaisedBackoffResetsEarly | crates/caly-composition/src/recovery.rs:143-147 | in every run, whatever the turn, a raised backoff is lowered or returns to the initial one only after a successful restart and ten consecutive clean polls, with exactly 4500 ms slept in between |
| ExitMonitor.EarlyResetHappens | crates/caly-composition/src/recovery.rs:119-150 | a run in which a raised backoff of 2000 is reset to 1000 after 4500 ms |
| DualCore.DualCoreLifecycle.constructor | crates/caly-backends/src/dual.rs:32-42 | holds the given cell and backends |
| DualCore.DualCoreLifecycle.StartBackend | crates/caly-backends/src/lifecycle.rs:327-398 | an owned kernel is left alone, otherwise one launch decides; the other backend is untouched |
| DualCore.DualCoreLifecycle.StopBackend | crates/caly-backends/src/lifecycle.rs:400-442 | stopping nothing succeeds; otherwise ownership is given up whatever the stop reports |
| DualCore.DualCoreLifecycle.RestartBackend | crates/caly-backends/src/lifecycle.rs:444-499 | a failed check or stop launches nothing; otherwise one launch decides; the states passed through |
| DualCore.DualCoreLifecycle.RollBack | crates/caly-backends/src/dual.rs:93-108 | the cell flipped back and the previous kernel relaunched, in that order |
| DualCore.DualCoreLifecycle.MoveTo | crates/caly-backends/src/dual.rs:85-109 | the result of a switch to another kernel and every state of cell and backends it passes through |
| DualCore.DualCoreLifecycle.SwitchCore | crates/caly-backends/src/dual.rs:75-110 | the cell and both backends after a switch, and every state passed through, restart of the active target included |
| DualCore.StepKeepsExclusive | crates/caly-backends/src/dual.rs:49-149 | every operation and process exit keeps that only the active cell's backend owns a kernel |
| DualCore.RunKeepsExclusive | crates/caly-backends/src/dual.rs:49-149 | so does every sequence of non-overlapping operations with arbitrary failures |
| DualCore.SwitchOutcome | crates/caly-backends/src/dual.rs:75-110 | after any run, a successful switch leaves the target active, alive and owned alone, a failed one leaves the cell where it was |
| DualCore.RollbackRestoresService | crates/caly-backends/src/dual.rs:93-108 | a failed switch to another kernel leaves the previous one owned and alive if and only if its stop succeeded or it was not running, and its relaunch is ready |
| DualCore.MomentsFromTo | crates/caly-backends/src/dual.rs:75-149 | the states of any operation lead from the state before it to the state after it |
| DualCore.SwitchNeverOverlaps | crates/caly-backends/src/dual.rs:85-109 | in none of the states `MoveTo` passes through, rollback included, do both backends own a kernel |
| DualCore.MomentsAloneIff | crates/caly-backends/src/dual.rs:75-149 | from a state without unowned processes, two are alive at some moment of an operation if and only if it is a switch to another kernel behind a clean stop whose launch is unready and not reaped and whose rollback launch leaves a process as well |
| DualCore.OverlapIff | crates/caly-backends/src/dual.rs:75-149 | the same of the next operation after any run in which every reap succeeded |
| DualCore.LeakFreeRun | crates/caly-platform/src/process/mod.rs:79-109 | over any run in which every reap succeeds no unowned process is added |
| DualCore.ProcessesAreExclusiveIffNoOrphans | crates/caly-backends/src/dual.rs:85-88 | at every moment of every operation of every leak-free run from a state at most one kernel process is alive, if and only if no unowned process is alive in that state |
| DualCore.RollbackBesideALeak | crates/caly-backends/src/dual.rs:91-108 | an unready launch whose reap fails, then the rollback: two live processes |
| CellText.MeasureVisible | crates/caly-cli/src/output.rs:196-214 | the scan computes the width of the text without its CSI sequences, terminated or not |
| CellText.ClosedConcat | crates/caly-cli/src/output.rs:196-214 | text whose escapes are complete is measured independently of what follows it |
| CellText.ShutConcat | crates/caly-cli/src/output.rs:196-214 | text that does not end inside a sequence can be followed by ordinary text at no extra width |
| CellText.PlainConcat | crates/caly-cli/src/output.rs:196-214 | any text can be followed by text without escapes at no extra width |
| CellText.PrefixIsNoWider | crates/caly-cli/src/output.rs:196-214 | cutting any text anywhere never makes it wider |
| CellText.CopyFitting | crates/caly-cli/src/output.rs:231-259 | the copying loop yields exactly the prefix that fits the room |
| CellText.TruncateVisible | crates/caly-cli/src/output.rs:227-262 | text that fits is returned as it is, other text as that prefix and an ellipsis |
| CellText.TruncatedFits | crates/caly-cli/src/output.rs:224-262 | text ends within its columns if it fits them, or if there is at least one and the cut goes past no escape that hides another one in front of a bracket; with no columns, if and only if it fits |
| CellText.SteadyNeverCrosses | crates/caly-cli/src/output.rs:236-250 | text without such a pair is never cut past one, whatever the widths and columns |
| CellText.TruncatedFitsIff | crates/caly-cli/src/output.rs:224-262 | for widths of at most two, one for the bytes that end a sequence, and text whose escapes hide no character of some width and no escape inside a hidden sequence: the bound holds if and only if that condition does |
| CellText.HiddenEscapeOverflows | crates/caly-cli/src/output.rs:236-250 | six characters of one column each, truncated to two columns, measure four |
| CellText.HiddenCharacterMakesUp | crates/caly-cli/src/output.rs:236-250 | eight characters cut past such a pair that still end within their three columns, because an escape hides a wide one |
| CellText.TruncatedStaysWhole | crates/caly-cli/src/output.rs:224-262 | under the condition of `TruncatedFits`, truncation leaves complete escapes complete and opens no sequence |
| CellText.CutIsMaximal | crates/caly-cli/src/output.rs:234-258 | truncation of the text of `TruncatedFitsIff`, unterminated sequences included, stops only when its columns are full or the next character would not fit, if it goes past no such pair; for any widths |
| CellText.CutIsMaximalIff | crates/caly-cli/src/output.rs:234-258 | with the widths and text of `TruncatedFitsIff`, of text at least two columns too wide, it stops there if and only if it goes past no such pair |
| CellText.HiddenCharacterWastesRoom | crates/caly-cli/src/output.rs:236-250 | an escape before an ordinary character wastes a column |
| CellText.UnterminatedSequenceWidens | crates/caly-cli/src/output.rs:200-208 | an unterminated sequence swallows the opening of the next one: the parts measure zero, together two |
| CellText.SanitizedKeepsEscapes | crates/caly-cli/src/output.rs:270-272 | sanitising neither completes nor breaks an escape |
| TableLayout.ScaleColumns | crates/caly-cli/src/output.rs:296-298 | every width in place becomes its proportional share, at least two |
| TableLayout.TrimColumns | crates/caly-cli/src/output.rs:299-307 | the greedy loop terminates with the trimmed widths |
| TableLayout.ShrinkWidthsToFit | crates/caly-cli/src/output.rs:279-308 | the widths in place become the shrunk widths |
| TableLayout.TrimmingLevels | crates/caly-cli/src/output.rs:299-307 | trimming ends within the available columns, exactly filling them, or with every width two; it takes from the widest only, so widths cut stay level |
| TableLayout.ShrunkFits | crates/caly-cli/src/output.rs:279-308 | the shrunk widths fit if and only if the widths did or two per column do |
| TableLayout.NaturalWidthIsWidestCell | crates/caly-cli/src/output.rs:338-348 | a column is as wide as its widest capped cell and no wider |
| TableLayout.MeasureColumns | crates/caly-cli/src/output.rs:338-348 | the two passes compute those widths, rows of any length included |
| TableLayout.PadRow | crates/caly-cli/src/output.rs:353-372 | a row is its truncated, padded cells joined by two spaces with the end trimmed |
| TableLayout.ColumnsAlign | crates/caly-cli/src/output.rs:356-366 | up to any column every row of cells with complete escapes spends exactly the same visible width |
| TableLayout.ColumnTakesIff | crates/caly-cli/src/output.rs:356-366 | a column adds no more than its width and its separator if and only if no sequence is open before it or what that sequence leaves of the cell takes no more than its place |
| TableLayout.ColumnsNoWider | crates/caly-cli/src/output.rs:356-366 | up to any column a row spends no more, if each cell can follow the columns before it |
| TableLayout.RowKeepsPlacesIff | crates/caly-cli/src/output.rs:356-366 | no column of a row takes more than its place if and only if each cell can follow |
| TableLayout.ShutRowsFollow | crates/caly-cli/src/output.rs:356-366 | rows in which no escape comes behind an unterminated sequence are such rows |
| TableLayout.LineWidth | crates/caly-cli/src/output.rs:353-372 | under that condition a line is no wider than the widths and their separators |
| TableLayout.FullRowFitsIff | crates/caly-cli/src/output.rs:337-379 | a full row of cells with complete escapes, cut past no hidden sequence, fits the terminal before its padding is trimmed if and only if the separators fit beside the natural widths or beside two per column |
| TableLayout.EveryLineFits | crates/caly-cli/src/output.rs:337-379 | if they do, every line fits whose cells are cut past no hidden sequence and can each follow the columns before |
| TableLayout.SteadyRowIsSound | crates/caly-cli/src/output.rs:337-379 | cells without hidden sequences, and without escapes behind an unterminated one, make such a line in any table |
| TableLayout.UnterminatedCellOverflows | crates/caly-cli/src/output.rs:353-372 | a table of three columns' width that gets a line of four on a terminal of three |
| TableLayout.TakesAnyIff | crates/caly-cli/src/output.rs:353-372 | the columns of a row keep within their widths whatever complete cell comes next, in whatever column, if and only if they do not end inside a sequence |
| TableLayout.FourEachAreEnough | crates/caly-cli/src/output.rs:280-284 | 4n - 2 terminal columns are enough for n table columns, for the lines of `EveryLineFits` |
| TableLayout.RenderAligned | crates/caly-cli/src/output.rs:337-379 | the measured, shrunk and padded lines, header first |
| TableLayout.RenderTsv | crates/caly-cli/src/output.rs:329-336 | the sanitised cells joined by tabs, header first |
| TableLayout.RenderTable | crates/caly-cli/src/output.rs:316-381 | either form, and the width bound on every line of the aligned one |
| TableLayout.TsvKeepsColumns | crates/caly-cli/src/output.rs:264-272 | a tab-separated line splits back into its sanitised cells, none of which breaks the line |
| ProfileCache.IdsShareNothing | crates/caly-profile/src/profile_store.rs:123-139 | distinct path-safe ids share no file, temporary ones included |
| ProfileCache.ProfileStore.ReadBody | crates/caly-profile/src/profile_store.rs:145-164 | the body, nothing, or the error the sidecar check gives |
| ProfileCache.SidecarErrors | crates/caly-profile/src/profile_store.rs:145-164 | a mismatch is reported if and only if a body within the limit has a sidecar that decodes to another length, a malformed one if and only if it has one that does not decode |
| ProfileCache.ProfileStore.WriteFull | crates/caly-profile/src/profile_store.rs:186-234 | the disk after the file steps taken, for a stop after any of them; an unstopped write succeeds if and only if it is not refused and a validator came with it or the sidecar can be read |
| ProfileCache.ProfileStore.RemoveCached | crates/caly-profile/src/profile_store.rs:277-294 | the disk after one or both removals; only an unsafe id is an error |
| ProfileCache.FilesAfterWrite | crates/caly-profile/src/profile_store.rs:186-234 | body and sidecar are each the old or the new one, and when |
| ProfileCache.ReadAfterStoppedWrite | crates/caly-profile/src/profile_store.rs:145-234 | what a read returns after a write stopped at any step |
| ProfileCache.NeverAPartialBody | crates/caly-profile/src/profile_store.rs:145-234 | a read after a write stopped anywhere is the whole old result, the whole new body, or a reported mismatch; over a sidecar that was malformed it may also be that error |
| ProfileCache.ReadsBackIff | crates/caly-profile/src/profile_store.rs:186-248 | a write that is not stopped reads back if and only if a validator came with it or the sidecar could be read before it |
| ProfileCache.FinishedWriteReadsBack | crates/caly-profile/src/profile_store.rs:186-248 | such a write reads back its body and the validators given or kept |
| ProfileCache.MalformedSidecarFailsLate | crates/caly-profile/src/profile_store.rs:186-248 | any other write replaces the body and then fails, and reads keep failing |
| ProfileCache.OtherIdsUntouched | crates/caly-profile/src/profile_store.rs:123-294 | an operation on one id leaves every file of every other id alone |
| ProfileCache.OthersCannotDisturb | crates/caly-profile/src/profile_store.rs:145-294 | any history of operations on other ids leaves what a read of this id returns |
| ProfileCache.SidecarsAlwaysRead | crates/caly-profile/src/profile_store.rs:186-294 | no history of writes stopped anywhere and removals leaves a sidecar that cannot be read |
| ProfileCache.EveryReadIsWhole | crates/caly-profile/src/profile_store.rs:145-294 | over any such history a read of any id is nothing, a body some write of that id was given whole, or a reported mismatch |
| ProfileCache.WritesAlwaysFinish | crates/caly-profile/src/profile_store.rs:186-294 | after any such history an unstopped write that is not refused reads back |
| EventReplica.NextKeepsInv | crates/caly-domain/src/event.rs:82-93 | every publication, arrival of any cursor and daemon restart keeps the replica invariant and never moves the cursor back |
| EventReplica.CursorNeverMovesBack | crates/caly-domain/src/event.rs:82-93 | over any run the cursor never moves back |
| EventReplica.ReplicaIsSafe | crates/caly-domain/src/event.rs:26-93 | under any loss, duplication, reordering and restarts the client holds the fold of a prefix of its epoch's log and has applied no event twice |
| EventReplica.NewestEventCatchesUp | crates/caly-domain/src/event.rs:82-93 | the arrival of the running daemon's newest event leaves the client up to date |
| EventReplica.DispositionIsExact | crates/caly-domain/src/event.rs:82-93 | in terms of the log: an arrival is stale if and only if the client's prefix holds it, and applied if and only if it is the one entry by which the prefix grows |
| EventReplica.ArrivalIsIdempotent | crates/caly-domain/src/event.rs:82-93 | an arrival repeated at once changes nothing more |
| EventReplica.EventSequencer.NewAt | crates/caly-application/src/events/sequencer.rs:52-67 | refuses exactly a window without room, otherwise starts at the given position with an empty window |
| EventReplica.EventSequencer.TryPublish | crates/caly-application/src/events/sequencer.rs:70-116 | a number is consumed and the event kept only when the projector accepts it; exhaustion and both refusals hand the event back |
| EventReplica.EventSequencer.LowerBound | crates/caly-application/src/events/sequencer.rs:118-130 | the binary search finds the first window entry past a sequence number |
| EventReplica.EventSequencer.ReplayAfter | crates/caly-application/src/events/sequencer.rs:89-106 | answers if and only if the cursor is of this epoch and within the window, with exactly the events after it, numbered consecutively |
| EventReplica.ReplayAppliesWhole | crates/caly-application/src/events/sequencer.rs:89-106 | a client that takes in such a replay applies every entry and ends at the sequencer's position and state |
| Cidr.MaskIsLeadingOnes | crates/caly-profile/src/rule_match.rs:50-82 | the shifted mask is prefix ones followed by zeros, prefix zero included |
| Cidr.MasksAgree | crates/caly-profile/src/rule_match.rs:50-82 | two words agree under the mask if and only if their quotients by 2^(width - prefix) are equal, for every width |
| Cidr.ContainsIffPrefixShared | crates/caly-profile/src/rule_match.rs:50-82 | a block contains an address if and only if both are of one family, the prefix is not over-wide, and the leading bits are equal |
| Cidr.LongerPrefixIsNarrower | crates/caly-profile/src/rule_match.rs:50-82 | membership at a longer prefix implies membership at every shorter one |
| Cidr.EqualPrefixesCoincideOrPart | crates/caly-profile/src/rule_match.rs:50-82 | two blocks of one prefix length that share an address contain the same addresses |
| Cidr.MatchesIffFallsUnder | crates/caly-profile/src/rule_match.rs:21-41 | a rule matches an address text if and only if it is a catch-all or a parsable block around the parsed address |
| Cidr.MatchIp | crates/caly-profile/src/rule_match.rs:16-41 | returns the first rule the address falls under, or nothing if and only if there is none |

## Left out

- Overlapping lifecycle operations: the active-core lock is released before a dispatched operation runs, so exclusivity is stated for operations that do not overlap.
- The kernels behind the lifecycle backend: readiness, reaping and exit are outcomes given to each operation.
- Sockets, the TCP probe and the nameserver resolver: the receive loop is given what arrives.
- Resolving and rendering the entry tree, of which only the cycle marks are modelled.
- Hot reload, and the decimal text of a download interval.
- Character width tables, IP text parsing and sidecar serialisation: parameters.
- File permissions and I/O errors: a write stops after any file step, with the file in hand whole or a prefix.
- The scan for forbidden external crates.
- Wrap-around of `usize` in offsets, widths and counters.
- DependencyDiscipline.Check: the comparison of names is a parameter, given as the list of all names in sort order.
- TableLayout.ColumnsAlign: for complete escapes only, since a lone escape or an unterminated sequence hides some of the padding behind it; `ColumnsNoWider` is what is left then.
- TableLayout.FullRowFitsIff: for complete escapes only, as above.
- CellText.TruncatedFitsIff: for text whose escapes hide no character of some width and whose hidden sequences hold no escape. A hidden character is copied at a width it is not measured at, and the columns wasted on it can make up for a pair the cut went past: `HiddenCharacterMakesUp`. `TruncatedFits` has no such restriction.
- CellText.CutIsMaximal: shuts out text with an escape in front of a character of some width, which is copied at a width it is not measured at; `HiddenCharacterWastesRoom` is an example.
- RouteRender.ObjectMeansMatcher: which blocks and remote rule-sets a connection falls under is a parameter; `FirstHitIsMatchIp` and `RuleSetMeansLines` tie it to address arithmetic and to inline payloads.
