# ADQ: model and proofs

ADQ lets a utility query the meters of its customers without learning single readings. Each meter sends its
contribution through an overlay to one proxy in each of 2f + 1 groups; the proxies agree on what they received,
every group adds up its contributions along a tree, and the server takes the majority of the group results.
This project models that protocol, from the overlay arithmetic to the server's vote, and proves what each part
promises. Notation: n meters, L = ceil(log2 n), f = L failures tolerated, S = 2f + L^2 + 1 rounds to a phase.

| file | part of the system |
|---|---|
| `NumberTheory.dfy`, `Fermat.dfy`, `Bytes.dfy`, `Collections.dfy`, `Results.dfy` | powers, residues, counting, primes, byte strings, sets |
| `Overlay.dfy` | `mod_pow`, gossip targets and predecessors with their memo tables, what the rounds connect |
| `Groups.dfy` | group partition, tree parents and children, picking proxies |
| `PathSpec.dfy`, `PathFinder.dfy` | the path search: specification and its properties, then the loops, proved equal to it |
| `Messages.dfy`, `ProtocolSpec.dfy`, `ProtocolState.dfy` | messages and onions, one node's rounds as functions, then the mutable state, proved equal to them |
| `NodeEvents.dfy` | what single events do to a node: deliveries, batches, ends of rounds, timeouts, late messages |
| `LockStep.dfy`, `RoundSystem.dfy`, `RoundTermination.dfy` | all nodes together: in lock step, then asynchronously, then how such runs end |
| `OnionDelivery.dfy`, `PathDelivery.dfy` | how onions travel, and where path messages stop |
| `Multicast.dfy`, `ShuffleResult.dfy`, `AgreementRounds.dfy` | what nodes put into circulation, what the proxies hold after the shuffle, and what is delivered to them in the rounds after it |
| `Agreement.dfy`, `AgreementRun.dfy` | Crusader Agreement at a node, and between nodes of which some are Byzantine |
| `Contributions.dfy`, `TreeAggregation.dfy`, `AggregationRun.dfy`, `GroupTotals.dfy` | contributions and aggregates, a tree node, all tree nodes, what each group's root reports |
| `AggregationPhase.dfy` | the protocol's handlers around a tree node, proved equal to the functions of `AggregationRun.dfy` |
| `QueryServer.dfy`, `TimeBudget.dfy` | the server's vote and the rounds it allows |
| `FailSilent.dfy`, `WholeQuery.dfy` | agreement, trees and vote put together with failing nodes, then the shuffle before them |
| `BlindRSA.dfy` | blind signatures |
| `Codec.dfy`, `Layout.dfy`, `Wire.dfy` | byte form of messages and batches, what stands at which place in it, and how the messages of the rounds look in it |
| `Ini.dfy` | configuration files |

Code that updates state is a class or a method with loops, each proved equal to a function; the lemmas are about
those functions. Hash-set order and random choices are nondeterministic, or parameters. Signatures are ideal: a
genuine one names its signer and what was signed. Encryption is a lock that only its owner opens.

Nothing in the code catches an exception, so one that leaves a handler ends the process. In the rounds, where the
phase is then `Crashed`, that is opening another node's lock and a search for paths that fails; in the agreement
phases it is looking up a signer without a public key, after which a node has no state (`None`). `RunsThrough`
says of a world that in lock step every node can open everything it receives and finds all its paths. What is
claimed of all nodes together holds in every run up to the first crash, and runs finish exactly in such worlds.

Where the code does less than its comments or its design suggest, the code is modelled as it is, and the table
has a lemma with the failing input and one with the exact condition: `mod_pow` above 65536, overlays of even
size, early phase-2 messages, phase-1 messages with several signatures, signers without a key, the number of
proxies an acceptance needs, path messages locked for their last hop, the server's timers, INI names and values
that do not read back. As to that number: a node never puts its own signature into its own map, so it needs f + 1
other proxies, and f silent ones of 2f + 1 already keep all others from accepting; only up to f - 1 silent nodes
are tolerated. The server's own limit on failures is a parameter: the program in `apps/smart_meters/UtilityServer.cpp` never sets it, so it counts with none. A key
meets `SecretKey.Valid` only with true primes; `BlindRSA.SmallKey` exhibits one.

## Model

| member | source | states |
|---|---|---|
| Overlay.ModPow | src/util/Overlay.cpp:23-32 | the loop computes `WrappedPow`, the power with the 32-bit wrap of each square written out |
| Overlay.WrappedPowIsPow | src/util/Overlay.cpp:23-32 | when no wrap can show in a residue, the loop's result is the true power modulo `mod` |
| Overlay.ModPowOfTwoExact | src/util/Overlay.cpp:23-32 | for a modulus of at least 2, powers of two come out right for all 32-bit exponents if and only if the modulus is at most 65536 or divides 2^32 |
| Overlay.GossipTables.GossipTarget | src/util/Overlay.cpp:34-45 | returns i plus `mod_pow(2, t, n)`, modulo n, and records it; the memo tables never disagree with the formula |
| Overlay.GossipTables.GossipPredecessor | src/util/Overlay.cpp:59-69 | returns j minus `mod_pow(2, t, n)`, modulo n, and records it; the memo tables never disagree with the formula |
| Overlay.ModSubtract | src/util/Overlay.cpp:55-57 | with C's truncating remainder, the result is the difference reduced into 0..m-1 |
| Overlay.GossipInverse | src/util/Overlay.cpp:34-69 | in every round the gossip map is a bijection whose inverse is the predecessor map |
| Overlay.CoveringWalk | src/util/Overlay.cpp:42-42 | over an odd n of at most 65536, L consecutive rounds lead from any node to any other by waiting or gossiping |
| Overlay.CoversExactlyWhenMixing | src/util/Overlay.cpp:23-42 | every window of L rounds connects all pairs if and only if n is odd and at most 65536; above that the wrap in `mod_pow` stops the gossip |
| Overlay.WalkKeepsParity | src/util/Overlay.cpp:23-42 | over any other n, from round 32 on no gossip leads from an even id to an odd one or back |
| Overlay.ContactsEveryOtherOnce | src/util/Overlay.cpp:34-45 | if n is at most 65536 and the powers of two run through all nonzero residues, any n - 1 consecutive rounds contact every other node exactly once |
| Groups.GroupsTile | src/util/Overlay.cpp:71-79 | the groups are non-empty intervals laid end to end over all ids; the last two sizes differ by at most one |
| Groups.GroupForIsInterval | src/util/Overlay.cpp:126-141 | the group number computed for an id is that of the one interval that holds it |
| Groups.TreeShape | src/util/Overlay.cpp:143-189 | parent and children are the implicit binary heap over the group's interval |
| Groups.ParentChildInverse | src/util/Overlay.cpp:143-189 | a node is another's child if and only if the other is its parent, and then they share a group |
| Groups.ClimbReachesRoot | src/util/Overlay.cpp:143-158 | repeated parent steps reach the group's first id after at most log2 of the group's size |
| Groups.RandomIntExclude | src/util/Overlay.cpp:81-84 | a choice within the bounds other than the excluded number |
| Groups.PickProxies | src/util/Overlay.cpp:86-124 | throws exactly when a standard group has fewer than two members; otherwise one proxy per group, in group order, never the node itself |
| PathSpec.InfectedIsReachable | src/util/PathFinder.cpp:123-154 | after k rounds the infected set is exactly what k wait-or-gossip steps reach without entering excluded nodes or the target |
| PathSpec.ArrivesIsCanArrive | src/util/PathFinder.cpp:134-138 | the target is taken in a round exactly when some such walk can first step onto it then, no earlier than the minimum length |
| PathSpec.FindIsExact | src/util/PathFinder.cpp:123-156 | the search throws if and only if no arrival is possible in its window, and otherwise returns a path of the earliest arrival |
| PathSpec.RouteIsRoute | src/util/PathFinder.cpp:138-147 | following parents back gives a gossip edge in each hop's round, each node at its first infection |
| PathSpec.RouteTakesFirstOpportunity | src/util/PathFinder.cpp:127-153 | between two hops of a path the earlier node never gossips to the later one in an earlier round |
| PathSpec.RouteIsSimple | src/util/PathFinder.cpp:127-153 | no node occurs twice on a path |
| PathSpec.FullPathIsGood | src/util/PathFinder.cpp:123-156 | a found path is simple, timed, ends at its target in its round, and enters no excluded node before |
| PathSpec.FoundPathsAreDisjoint | src/util/PathFinder.cpp:67-105 | when the call returns: one good path per target, through no other target, no two sharing an intermediate node |
| PathSpec.FindPathsIsExact | src/util/PathFinder.cpp:67-105 | the call returns exactly the first arrivals, from round start + 3 to start + L * targets + 2, of walks that enter no target and no interior of a path before; it throws exactly at a target beyond the overlay, or one no such walk reaches in that window |
| PathSpec.PathsEndInWindow | src/util/PathFinder.cpp:127-138 | no path gossips to its target before round start + 3, nor from round start + L * targets + 3 on |
| PathSpec.DirectEdgeIsTaken | src/util/PathFinder.cpp:127-147 | a source that gossips to the target in round start + 3 is its only predecessor on the path |
| PathSpec.SingleTargetNeverFails | src/util/PathFinder.cpp:67-76 | with one target other than the source, over an odd n of at most 65536, the call never throws |
| PathSpec.SingleSearchesSucceedExactlyWhenMixing | src/util/PathFinder.cpp:67-76 | single-target searches all succeed if and only if n is odd and at most 65536 |
| PathSpec.NoSearchFails | src/util/PathFinder.cpp:67-76 | if n is at most 65536, the powers of two run through all nonzero residues, and n - 1 is at most L times the number of targets, the call never throws, whatever it excludes, and plans every path within n + 2 rounds |
| PathFinder.PathBackwards | src/util/PathFinder.cpp:138-147 | the loop over the parent links yields the nodes of the chain, source first, then the target |
| PathFinder.InfectOneRound | src/util/PathFinder.cpp:127-153 | whatever the order of the hash set, one round either returns the specified path or infects exactly the specified nodes with the specified parents |
| PathFinder.FindPath | src/util/PathFinder.cpp:123-156 | the loops return exactly the path of the specification, or fail with it |
| PathFinder.FindAnother | src/util/PathFinder.cpp:94-105 | rejects a target beyond the overlay, otherwise finds the path and adds exactly its interior nodes to the used set |
| PathFinder.FindPaths | src/util/PathFinder.cpp:67-76 | the whole call equals the specified successive searches, without the source node on each path |
| Messages.BuildEncryptedOnion | include/adq/messaging/detail/OverlayMessage_impl.hpp:147-163 | the loop from the last hop outward builds one layer per hop, each locked for the hop it is addressed to |
| ProtocolSpec.PhasesEndExactly | include/adq/core/detail/ProtocolState_impl.hpp:217-269 | shuffle, phase 1 and phase 2 end at rounds S, 2S and 3S exactly, phase 1 always before phase 2; a node crashes there if and only if the search for the paths it then needs fails |
| ProtocolSpec.PhaseLength | include/adq/core/detail/ProtocolState_impl.hpp:217-269 | a phase takes 2L + L^2 + 1 rounds |
| ProtocolSpec.BatchShape | include/adq/core/detail/ProtocolState_impl.hpp:327-373 | every message sent in a round carries sender and round, and exactly the last one is final |
| ProtocolSpec.EndRound | include/adq/core/detail/ProtocolState_impl.hpp:217-324 | the mutual recursion of ending a round, handling what was buffered, and ending again terminates, and stays on the phase schedule |
| ProtocolSpec.RunTakesEveryRoundOnce | include/adq/core/detail/ProtocolState_impl.hpp:98-392 | in every run of one query, with any timeouts, dead predecessors, failed sends, unreadable messages and failed path searches, a node takes rounds 0, 1, 2, ... once each, sends one batch in each to that round's target, and stops after 3S unless it crashes before |
| NodeEvents.AgreementTakesPayloads | include/adq/core/detail/ProtocolState_impl.hpp:112-133 | in the agreement phases each payload delivered to the node as its destination, and no other, is handed on, in order and unverified |
| NodeEvents.OwnMessageIsTakenIn | include/adq/core/detail/ProtocolState_impl.hpp:131-132 | in particular a message locked for the node, carrying a payload to it, adds that payload to its votes and changes nothing else |
| NodeEvents.ShuffleKeepsVerified | include/adq/core/detail/ProtocolState_impl.hpp:112-158 | in the shuffle exactly the verified ones are kept, and outside both phases none |
| NodeEvents.DeliveryLeavesBehind | include/adq/core/detail/ProtocolState_impl.hpp:103-129 | what waits at a node after a delivery is what waited, then the path message for its next hop, then the message inside |
| NodeEvents.SendingConserves | include/adq/core/detail/ProtocolState_impl.hpp:327-373 | the messages of a batch and those that wait after it are, each as often as before, those that waited and the new ones |
| NodeEvents.WhatLeaves | include/adq/core/detail/ProtocolState_impl.hpp:331-351 | what leaves is for this round's target, or new and to be flooded; what waits is neither |
| NodeEvents.LeavingInOrder | include/adq/core/detail/ProtocolState_impl.hpp:331-351 | both keep their order |
| NodeEvents.NothingToSend | include/adq/core/detail/ProtocolState_impl.hpp:361-372 | with nothing to send the batch is one message to the target, which changes nothing at any node |
| NodeEvents.EndRoundMovesOn | include/adq/core/detail/ProtocolState_impl.hpp:272-324 | however many rounds end in one go, the node stands in no newly started round whose predecessor it holds for dead; it comes to hold for dead exactly the targets and predecessors its batches and pings do not reach on the way |
| NodeEvents.FirstLiveRound | include/adq/core/detail/ProtocolState_impl.hpp:318-323 | with nothing buffered it goes on to the first round whose predecessor it does not hold for dead, unless it stops before |
| NodeEvents.UnansweredTimeoutEndsRound | include/adq/core/detail/ProtocolState_impl.hpp:388-391 | a timeout without an answer from the predecessor brings the node to a later round, having sent a batch, or stops it |
| NodeEvents.AnsweredTimeoutWaits | include/adq/core/detail/ProtocolState_impl.hpp:377-387 | a timeout with an answer leaves round, state and batches alone, and the predecessor is held for dead exactly if the next ping fails |
| NodeEvents.RejectedChangesNothing | include/adq/core/detail/QueryClient_impl.hpp:47-65 | a message of an earlier round, or not gossiped to this node, changes nothing; one of a later round is kept and nothing else |
| NodeEvents.RejectedDoNotMatter | include/adq/core/detail/QueryClient_impl.hpp:47-65 | every run, timeouts included, ends in the same node as without its late and misrouted messages |
| ProtocolState.ProtocolState.HandleSignatureResponse | include/adq/core/detail/ProtocolState_impl.hpp:200-214 | starting the shuffle by ending round -1 gives the specified state; without paths for the onions the node crashes |
| Multicast.EncryptedMulticastToProxies | include/adq/core/detail/ProtocolState_impl.hpp:200-214 | the onions a contribution starts with: one for each path found from round 0 on, or the search's exception |
| Multicast.EncryptedMulticastFrom | include/adq/core/detail/ProtocolState_impl.hpp:230-241 | the messages for a signed value: one for each path found from the next round on, locked for the path's last node |
| ProtocolState.ProtocolState.EndOverlayRound | include/adq/core/detail/ProtocolState_impl.hpp:217-269 | the new state is the specified one, phase transition and failed path search included |
| ProtocolState.ProtocolState.CommonEndOverlayRound | include/adq/core/detail/ProtocolState_impl.hpp:272-324 | next round's batch, ping of the predecessor and replay of buffered messages, to the specified state |
| ProtocolState.ProtocolState.SendOverlayMessageBatch | include/adq/core/detail/ProtocolState_impl.hpp:327-373 | sends what leaves for this round's target in order, or a dummy, keeps the rest, and marks the peer failed when the send fails |
| ProtocolState.ProtocolState.PingPredecessor | include/adq/core/detail/ProtocolState_impl.hpp:285-296 | a predecessor not yet held for dead is pinged and held for dead exactly if the ping fails |
| ProtocolState.ProtocolState.HandleOverlayMessage | include/adq/core/detail/ProtocolState_impl.hpp:98-139 | opening and delivering a message, and ending the round on the final one, gives the specified state; a body locked for another node crashes the node before anything is kept |
| ProtocolState.ProtocolState.TakeFutureMessages | include/adq/core/detail/ProtocolState_impl.hpp:299-309 | takes exactly the buffered messages of the current round, in order |
| ProtocolState.ProtocolState.HandleRoundTimeout | include/adq/core/detail/ProtocolState_impl.hpp:376-392 | waits on when the predecessor answered, otherwise ends the round |
| ProtocolState.QueryClient.HandleMessage | include/adq/core/detail/QueryClient_impl.hpp:46-66 | messages of the current round are handled, early ones kept, late and misrouted ones dropped |
| LockStep.IncomingShape | include/adq/core/detail/ProtocolState_impl.hpp:327-373 | in each round a node's incoming batch is one whole batch of its predecessor, with one final message at its end |
| LockStep.LockStepOnSchedule | include/adq/core/detail/ProtocolState_impl.hpp:217-269 | when all nodes move together each living one is in the phase its round demands |
| LockStep.LockStepFinishes | include/adq/core/detail/ProtocolState_impl.hpp:171-188 | a node still alive after round 3S is in the aggregate phase, done with the overlay |
| LockStep.AliveExactlyWhenPassed | include/adq/core/detail/ProtocolState_impl.hpp:98-269 | in lock step a node is alive in a round if and only if it found all the paths it needed and could open everything it received before |
| LockStep.AddressedWorldsRunThrough | include/adq/core/detail/ProtocolState_impl.hpp:98-269 | if all path searches succeed, and onions and multicast messages are locked, at every depth, for nobody but the node they go to, nothing throws in lock step |
| RoundSystem.RunsSimulateLockStep | include/adq/core/detail/ProtocolState_impl.hpp:98-324 | in every asynchronous run without timeouts, whatever the timing, as long as no node has crashed a node in round t is in exactly the state it would have if all nodes took every round together |
| RoundSystem.RunsThroughWithoutCrash | include/adq/core/detail/ProtocolState_impl.hpp:98-324 | if nothing throws in lock step no run ever crashes a node, whatever its timing |
| RoundSystem.NothingIsTooOld | include/adq/core/detail/QueryClient_impl.hpp:55-62 | as long as no node has crashed, no batch in flight is ever for a round its recipient has left: the "too old" branch is never taken |
| RoundSystem.SkewIsBounded | include/adq/core/detail/ProtocolState_impl.hpp:272-324 | over an odd n of at most 65536, as long as no node has crashed, no two nodes are ever more than L rounds apart |
| RoundSystem.RunsMakeProgress | include/adq/core/detail/ProtocolState_impl.hpp:272-324 | until a node crashes or every node is done some signature can arrive or some batch can be delivered |
| RoundTermination.RunsAreShort | include/adq/core/detail/ProtocolState_impl.hpp:272-324 | in any world, crashes included, a run has at most n starts and n(3S + 1) deliveries |
| RoundTermination.StoppedRunsAreFinished | include/adq/core/detail/ProtocolState_impl.hpp:98-324 | a run that can go no further has brought every node to the final lock-step state if and only if nothing throws in lock step |
| OnionDelivery.SendOrHold | include/adq/core/detail/ProtocolState_impl.hpp:331-351 | a waiting message leaves in the first round whose target is its next hop, and waits on otherwise |
| OnionDelivery.LayerOpened | include/adq/core/detail/ProtocolState_impl.hpp:103-135 | a layer locked for its receiver is opened: an inner layer waits, a verified payload joins the contributions |
| OnionDelivery.OneHop | include/adq/core/detail/ProtocolState_impl.hpp:98-139 | a layer is held in every round before the planned one and reaches the next hop in exactly the round the search infected it |
| OnionDelivery.LayersArriveAsPlanned | src/util/PathFinder.cpp:127-153 | by induction over the path: every intermediate node gets its layer in exactly its planned round |
| OnionDelivery.TargetReached | include/adq/core/detail/ProtocolState_impl.hpp:98-139 | the target gets the last layer no later than planned, and in the shuffle keeps the verified payload |
| OnionDelivery.OnionsDeliverInEveryRun | include/adq/core/detail/ProtocolState_impl.hpp:200-214 | in every asynchronous run without timeouts, as long as no node has crashed, a target past its planned round holds the contribution, if the plan falls inside the shuffle |
| OnionDelivery.OnionIsAddressed | include/adq/messaging/detail/OverlayMessage_impl.hpp:147-163 | onions are locked, layer by layer, for the hops they go to, so no onion ever crashes a node |
| ShuffleResult.ShuffleDeliversExactly | include/adq/core/detail/ProtocolState_impl.hpp:98-214 | in every such run a node that has left the shuffle holds exactly the contributions for which the last hop of a path to it, once reached, gossips to it by round S, and nothing else |
| ShuffleResult.NamedArrive | include/adq/core/detail/ProtocolState_impl.hpp:200-214 | these are contributions that name the node as a proxy, and all of those if every contribution gets to each of its proxies that way |
| ShuffleResult.SuitedSharesGetThere | src/util/PathFinder.cpp:67-76 | over an overlay as in `PathSpec.NoSearchFails` with n + 1 at most S, all contributors find their paths and every contribution gets to each of its proxies that way |
| AgreementRounds.SignedValuesLeave | include/adq/core/detail/ProtocolState_impl.hpp:217-244 | at the end of round S a node multicasts what its script makes of exactly the contributions it holds |
| AgreementRounds.VotesInEveryRun | include/adq/core/detail/ProtocolState_impl.hpp:131-132 | in every such run the messages handed to a node's agreement phases are, in order, the payloads delivered to it as their destination in the rounds after S that it has left |
| AgreementRounds.AcceptedValuesLeave | include/adq/core/detail/ProtocolState_impl.hpp:246-260 | at the end of round 2S it multicasts what its script makes of those delivered in rounds S + 1 to 2S |
| AgreementRounds.SingleHopValuesAreTakenIn | include/adq/core/detail/ProtocolState_impl.hpp:217-244 | a value signed for a proxy that its signer gossips to by round 2S is among them |
| PathDelivery.PayloadArrivesExactlyWhenOpen | include/adq/core/detail/ProtocolState_impl.hpp:98-135 | handed on by each hop as it was kept there, a payload reaches the last hop's phase if and only if the body was open or locked for the first hop; otherwise the first hop crashes |
| PathDelivery.LockedForLastHop | include/adq/core/detail/ProtocolState_impl.hpp:230-241 | locked for its last hop, as the agreement phases send it, a payload arrives over a path of one hop; over more the first hop crashes and the message never leaves it |
| PathDelivery.LockedForAnotherStopsEveryRun | include/adq/core/detail/ProtocolState_impl.hpp:98-107 | no run finishes in which a node waits to send a message locked for another node than its next hop and meets that hop before round 3S is over |
| PathDelivery.SigningOverSeveralHopsStopsEveryRun | include/adq/core/detail/ProtocolState_impl.hpp:217-244 | in particular none in which a node signs a value for a proxy over a found path of several hops that is planned to end by round 3S |
| Agreement.CrusaderAgreementState.HandlePhase1Message | include/adq/core/detail/CrusaderAgreementState_impl.hpp:70-89 | throws exactly when the first signer has no key; rejects when its signature does not verify; stores a new value whole, or adds that one signature |
| Agreement.CrusaderAgreementState.HandlePhase2Message | include/adq/core/detail/CrusaderAgreementState_impl.hpp:92-126 | throws exactly when the accepter has no key, or the package verifies and another signer has none; rejects a bad package signature; otherwise merges the surviving signatures if at least L others are valid |
| Agreement.CrusaderAgreementState.Validate | include/adq/core/detail/CrusaderAgreementState_impl.hpp:98-113 | the erase-while-iterating loop throws at a signer without a key, and otherwise keeps the accepter's entry and the valid ones, and counts the valid ones |
| Agreement.CrusaderAgreementState.FinishPhase1 | include/adq/core/detail/CrusaderAgreementState_impl.hpp:20-44 | one signed package to each other proxy of each value with more than L signatures, and to nobody else |
| Agreement.CrusaderAgreementState.FinishPhase2 | include/adq/core/detail/CrusaderAgreementState_impl.hpp:47-58 | returns exactly the values with more than L signatures |
| AgreementRun.SurvivesExactlyWhenKnown | include/adq/core/detail/CryptoLibrary_impl.hpp:38-71 | after a list of messages a node is still running if and only if it has the keys of all signers it looked up, and then in the state the messages lead to |
| AgreementRun.Phase1StoresExactly | include/adq/core/detail/CrusaderAgreementState_impl.hpp:70-89 | a phase-1 message brings the id of its first signature, if that is genuine, and all its ids if the value is new; no other value changes |
| AgreementRun.Phase2StoresExactly | include/adq/core/detail/CrusaderAgreementState_impl.hpp:92-126 | an accept message brings the ids of the other genuine signatures and its accepter's entry, if its package is genuine and at least L others are; no other value changes |
| AgreementRun.EntriesStay | include/adq/core/detail/CrusaderAgreementState_impl.hpp:86-88 | an entry once stored is never replaced, whatever arrives later |
| AgreementRun.AcceptMessagesExactly | include/adq/core/detail/CrusaderAgreementState_impl.hpp:20-44 | accept messages go to the other proxies of each value with more than L signatures and to nobody else, each genuine and carrying all signatures held |
| AgreementRun.HandlingIsConfluent | include/adq/core/detail/CrusaderAgreementState_impl.hpp:70-126 | the same messages in any order and number end the process, or leave the same signer ids per value and the same accepted values, if every phase-1 message carries at most one signature or a first one that fails |
| AgreementRun.CommutesExactlyWhenAdditive | include/adq/core/detail/CrusaderAgreementState_impl.hpp:70-126 | a message commutes with all such messages if and only if it is such a message itself or ends the process |
| AgreementRun.HoldersAccept | include/adq/core/detail/ProtocolState_impl.hpp:219-244 | if f + 2 proxies hold a value and their phase-1 messages arrive, among any others, each of them survives if and only if it has the keys of all signers it looks up, and then accepts the value |
| AgreementRun.AcceptsExactlyWhenEnoughHold | include/adq/core/detail/CrusaderAgreementState_impl.hpp:47-89 | a proxy that gets exactly what some senders sign for it accepts a value if and only if f + 1 of them other than itself hold it |
| AgreementRun.SilentFStopAcceptance | include/adq/core/detail/ProtocolState_impl.hpp:219-244 | so f silent ones of 2f + 1 proxies keep every other from accepting a value that all of them hold |
| AgreementRun.AcceptancePropagates | include/adq/core/detail/CrusaderAgreementState_impl.hpp:20-126 | a proxy that accepts a value after any mix of messages of both phases that brought only genuine signatures convinces every proxy its messages reach, among any other messages that do not end the process |
| AgreementRun.AcceptancePropagatesExactlyWhenEntriesLast | include/adq/core/detail/CrusaderAgreementState_impl.hpp:20-126 | after any messages it survives, an accepting proxy convinces every node its message reaches, among any that do not end the process, if and only if L + 1 of the entries it holds are genuine or its own and it and all signers of its entries have keys |
| AgreementRun.UnknownEntryEndsRecipients | include/adq/core/detail/CrusaderAgreementState_impl.hpp:92-113 | with L + 1 lasting entries and one under an id without a key, stored with them unchecked, the accept message ends the process of every node that gets it |
| AgreementRun.PropagatesExactlyWhenEntriesSurvive | include/adq/core/detail/CrusaderAgreementState_impl.hpp:92-122 | an accept message alone convinces a node if and only if its package verifies, all its signers have keys, and L + 1 of its entries survive the check |
| AgreementRun.EarlyPhase2NeedNotPropagate | include/adq/core/detail/CrusaderAgreementState_impl.hpp:102-106 | an acceptance that rests on the sender's unchecked entry in an early phase-2 message does not propagate |
| AgreementRun.AcceptedWasSignedByCorrect | include/adq/core/detail/CrusaderAgreementState_impl.hpp:70-126 | in every run with at most f Byzantine nodes and unforgeable signatures, whose phase-1 messages are harmless where they are handled and may end the process of others, what a running correct node accepts some correct node held and signed |
| AgreementRun.ExtraSignaturesAreNotChecked | include/adq/core/detail/CrusaderAgreementState_impl.hpp:76-85 | a phase-1 message with several signatures is stored whole after a check of the first alone |
| AgreementRun.VerifiedExactlyWhenHarmless | include/adq/core/detail/CrusaderAgreementState_impl.hpp:70-89 | a phase-1 message leaves a node running with only genuine signatures for its value if and only if it is harmless: the first signer has a key, and the value is known already, or the first signature fails, or all of them verify |
| AgreementRun.OneSignatureIsHarmless | include/adq/core/detail/CrusaderAgreementState_impl.hpp:76-85 | a message with at most one signature, as the comment in the code expects it, is harmless if and only if its signer has a key |
| Contributions.TotalUnion | include/adq/core/detail/TreeAggregationState_impl.hpp:48-50 | the aggregate of two bags of contributions is the combination of their aggregates |
| Contributions.AggregateIsTotal | include/adq/core/detail/TreeAggregationState_impl.hpp:63-71 | aggregating a list of records depends only on the bag of contributions in it |
| TreeAggregation.AbsorbAdds | include/adq/core/detail/TreeAggregationState_impl.hpp:40-56 | taking in a child's message adds exactly the contributions it describes |
| TreeAggregation.CloseDescribes | include/adq/core/detail/TreeAggregationState_impl.hpp:59-77 | the message sent describes the node's own contributions and everything its children reported |
| TreeAggregation.TreeAggregationState.Initialize | include/adq/core/detail/TreeAggregationState_impl.hpp:20-32 | waits for exactly the children that exist and have not failed |
| TreeAggregation.TreeAggregationState.HandleMessage | include/adq/core/detail/TreeAggregationState_impl.hpp:40-56 | stores the first value, combines later ones, counts the child |
| TreeAggregation.TreeAggregationState.CollectValues | include/adq/core/detail/TreeAggregationState_impl.hpp:63-66 | in any order of the set the collected records aggregate to the same value |
| TreeAggregation.TreeAggregationState.ComputeAndSendAggregate | include/adq/core/detail/TreeAggregationState_impl.hpp:59-77 | sends the parent one message with own and intermediate values and the contributor count |
| AggregationPhase.AggregateState.SendAggregateIfDone | include/adq/core/detail/ProtocolState_impl.hpp:191-197 | once enough children have reported, sends the aggregate and leaves the phase |
| AggregationPhase.AggregateState.HandleAggregationMessage | include/adq/core/detail/ProtocolState_impl.hpp:165-168 | takes in a child's message and sends the aggregate if that was the last needed |
| AggregationPhase.AggregateState.StartAggregatePhase | include/adq/core/detail/ProtocolState_impl.hpp:171-188 | sends at once if no child is awaited; otherwise takes in, in order, everything that came early |
| AggregationPhase.AggregateState.ReceiveAggregationMessage | include/adq/core/detail/QueryClient_impl.hpp:69-81 | messages of other groups are dropped, those of the own group handled while aggregating and kept otherwise |
| AggregationRun.LiveNodesReportOnce | include/adq/core/detail/ProtocolState_impl.hpp:165-197 | under any interleaving, early arrivals included, a live node sends at most one message: to its parent, the fold and count over everything below it |
| AggregationRun.AllHeard | include/adq/core/detail/TreeAggregationState_impl.hpp:35-37 | a node that has counted as many reports as it needs has the report of every live child |
| AggregationRun.DispatchExactly | include/adq/core/detail/QueryClient_impl.hpp:69-81 | a message of another group changes nothing; one of the own group is kept, or while collecting counted as a child's, and the last one needed makes the node send |
| AggregationRun.RunsMakeProgress | include/adq/core/detail/ProtocolState_impl.hpp:171-197 | while a live node has not reported, some node can start or some report can arrive |
| AggregationRun.RunsAreShort | include/adq/core/detail/ProtocolState_impl.hpp:165-197 | no run has more than 2n steps |
| AggregationRun.StoppedRunsAreComplete | include/adq/core/detail/ProtocolState_impl.hpp:165-197 | when nothing more can happen every live node has sent exactly its one report |
| GroupTotals.OverlayForestIsWellFormed | src/util/Overlay.cpp:126-189 | the parent and child arithmetic forms one tree per group, for all sizes |
| GroupTotals.BelowIsCollected | include/adq/core/detail/TreeAggregationState_impl.hpp:20-77 | a node's report covers exactly the nodes joined to it by live tree edges |
| GroupTotals.CountedOnceOrNotAtAll | include/adq/core/detail/TreeAggregationState_impl.hpp:59-77 | whatever has failed and whatever other groups accepted, a report from a group whose live members accepted what names them counts a contribution once if live edges join its proxy to the reporting node, and otherwise not at all |
| GroupTotals.SoundRootReportsAll | include/adq/core/detail/TreeAggregationState_impl.hpp:59-77 | the root of a group whose members are all live and accepted what names them covers all contributions, each once, whatever happens in other groups |
| GroupTotals.SoundRootSendsAll | include/adq/core/detail/TreeAggregationState_impl.hpp:59-77 | every complete run ends with the root of every such group having sent the utility the aggregate and number of all contributions, and nothing else |
| GroupTotals.MostGroupsAreUntouched | src/util/Overlay.cpp:71-79 | at most f bad nodes leave at least f + 1 of the 2f + 1 groups without one |
| QueryServer.WinnerIsVoted | include/adq/core/detail/QueryServer_impl.hpp:82-89 | among at most 2f + 1 results one with f + 1 copies is the one voted for, whatever the iteration order |
| QueryServer.StoreAt | include/adq/core/detail/QueryServer_impl.hpp:91-94 | the result vector grows with empty entries as needed and changes at the query's number only |
| QueryServer.QueryServer.StartQuery | include/adq/core/detail/QueryServer_impl.hpp:50-67 | clears the results, opens the query and arms its timer |
| QueryServer.QueryServer.FindWinner | include/adq/core/detail/QueryServer_impl.hpp:82-89 | looking at the results in any order finds the vote |
| QueryServer.QueryServer.EndQuery | include/adq/core/detail/QueryServer_impl.hpp:80-109 | stores and reports the vote, clears the results, closes the query |
| QueryServer.QueryServer.HandleMessage | include/adq/core/detail/QueryServer_impl.hpp:121-139 | keeps the result, ends the query with the (2f + 1)-th, otherwise re-arms the timer |
| QueryServer.QueryServer.HandleTimeout | include/adq/core/detail/QueryServer_impl.hpp:132-137 | a firing timer ends the query |
| QueryServer.RunsStayValid | include/adq/core/detail/QueryServer_impl.hpp:121-139 | between events an open query holds at most 2f results and exactly one live timer, a closed one no timer |
| QueryServer.EachQueryEndsOnce | include/adq/core/detail/QueryServer_impl.hpp:80-139 | every query asked is reported exactly once, in order; only the last may still be open |
| QueryServer.ReportIsMajority | include/adq/core/detail/QueryServer_impl.hpp:80-103 | what is stored and reported is the vote on exactly the results that arrived since the query began |
| QueryServer.EventOutcome | include/adq/core/detail/QueryServer_impl.hpp:50-139 | a new query starts without results; a result is kept; the event that ends a query reports and stores once; after that nothing is reported |
| QueryServer.HonestMajorityAnswers | include/adq/core/detail/QueryServer_impl.hpp:80-139 | at most 2f + 1 results of which f + 1 agree end the query with that answer, by the last of them or, if they are fewer, by the timer |
| QueryServer.QueryAnswersTotal | include/adq/core/detail/QueryServer_impl.hpp:80-139 | end to end, with at most f nodes that failed or accepted anything else than what names them: if the groups without such a node are heard, among any other results up to 2f + 1 in all, the answer is the aggregate of all contributions, each counted once |
| FailSilent.AcceptsExactlyWhatIsSpokenFor | include/adq/core/detail/CrusaderAgreementState_impl.hpp:20-126 | with any silent nodes and the phase-1 messages of the others delivered at last, in any order and with any accept messages in between, each other node survives and accepts exactly those of the contributions naming it that f + 2 speaking proxies hold |
| FailSilent.AgreementKeepsHeld | include/adq/core/detail/CrusaderAgreementState_impl.hpp:20-126 | so with fewer than f silent nodes each other node accepts exactly the contributions it held |
| FailSilent.QueryAnswersTotal | include/adq/core/detail/QueryServer_impl.hpp:80-139 | from what the named proxies hold after the shuffle, with fewer than f nodes silent from then on and at most f bad in all, through agreement and trees in any order, to a vote over the results of the groups without a bad node and arbitrary others, the server reports the aggregate of all contributions, each counted once |
| WholeQuery.QueryAnswersTotal | include/adq/core/detail/QueryServer_impl.hpp:80-139 | end to end, with nodes failing after the shuffle as above: from the first onions, all of which get there in time, through every asynchronous run of the shuffle, agreement, trees and vote, the server reports the aggregate of all contributions, each counted once |
| WholeQuery.NoSearchThrowsOver29Or37 | src/util/PathFinder.cpp:67-76 | over 29 or 37 meters no search that the shuffle or the agreement makes ever throws, and its paths are planned within n + 2 rounds |
| WholeQuery.QueryOver29Or37AnswersTotal | include/adq/core/detail/QueryServer_impl.hpp:80-139 | the same over 29 or 37 meters with nothing assumed of the path searches: each contributor multicasts to one proxy per group |
| TimeBudget.LastIsDeepest | src/util/Overlay.cpp:143-158 | the height of a group's tree is the depth of its last member |
| TimeBudget.InTimeExactlyWhenSmall | include/adq/core/detail/QueryServer_impl.hpp:59-66 | the first timer covers a group's result if and only if the group has fewer than 2^(k - 1) members |
| TimeBudget.NoResultInTime | include/adq/core/detail/QueryServer_impl.hpp:59-66 | so it covers no group's result, for any number of meters |
| TimeBudget.EarliestResultMissesBy | include/adq/core/detail/QueryServer_impl.hpp:59-66 | what is missing for the earliest result is one round trip, or two if and only if n is 2^k times the number of groups |
| TimeBudget.UnsetFailuresMissBy | include/adq/core/detail/QueryServer_impl.hpp:59-66 | with the number of failures never set in the server's process a result misses by 5L + 2 and the height of its tree |
| TimeBudget.LaterTimersSuffice | include/adq/core/detail/QueryServer_impl.hpp:121-139 | whenever proxies can be picked at all, the timer armed by one result covers the wait for any other group's |
| TimeBudget.MissedWith37 | include/adq/core/detail/QueryServer_impl.hpp:59-66 | with 37 meters the first result is one round trip late, the last three |
| TimeBudget.LaterTimerShortWith16 | include/adq/core/detail/QueryServer_impl.hpp:174-178 | with groups of a single member a later timer can fall short as well |
| Fermat.ExponentsInverse | src/openssl/blind_rsa.c:623-625 | exponents inverse modulo p - 1 and modulo q - 1, that is, modulo their least common multiple, undo each other on every residue modulo p q |
| BlindRSA.UnblindingUndoesBlinding | src/openssl/blind_rsa.c:691-691 | unblinding the signature of a blinded message gives m^d mod n, independent of the blinding factor (sections 4.2 to 4.4 of RFC 9474) |
| BlindRSA.SignatureRecovers | src/openssl/blind_rsa.c:653-654 | raising a signature to e gives the message back |
| BlindRSA.AnyMessageCouldBeBlinded | src/openssl/blind_rsa.c:454-481 | for any two invertible messages, whatever was blinded for one some factor blinds for the other |
| BlindRSA.OneFactorPerBlindedMessage | src/openssl/blind_rsa.c:454-481 | and only one factor does |
| BlindRSA.CheckCanonical | src/openssl/blind_rsa.c:506-546 | accepts exactly the strings of full length whose big-endian value is below n |
| BlindRSA.OneStringPerResidue | src/openssl/blind_rsa.c:506-546 | each residue has exactly one string that is accepted |
| Bytes.FirstByteCountsMost | src/openssl/blind_rsa.c:506-546 | the first byte of a number counts most |
| BlindRSA.Blind | src/openssl/blind_rsa.c:434-504 | blinds with the first drawn number that is not 1 and is invertible; fails exactly when the draws run out first |
| BlindRSA.BlindSign | src/openssl/blind_rsa.c:607-630 | signs exactly the canonical messages |
| BlindRSA.Finalize | src/openssl/blind_rsa.c:669-724 | succeeds exactly when the lengths fit and what the unblinded signature recovers passes the padding check |
| BlindRSA.ExchangeYieldsSignature | src/openssl/blind_rsa.c:434-709 | the whole exchange on byte strings ends with the plain signature, and the check sees exactly the padded message |
| Codec.SizeIsLength | include/adq/messaging/detail/OverlayMessage_impl.hpp:69-77 | `bytes_size` is the number of bytes written, for bodies nested to any depth |
| Codec.WriteInts | include/adq/mutils-serialization/SerializationSupport.hpp:828-846 | writes a four-byte count and the elements, and nothing outside that range of the buffer |
| Codec.ReadInts | include/adq/mutils-serialization/SerializationSupport.hpp:1069-1086 | reads back the list whose bytes stand at the offset |
| Codec.WriteEnvelope | include/adq/messaging/detail/OverlayMessage_impl.hpp:87-101 | writes the fields, the flag and the enclosed body in order |
| Codec.ReadEnvelope | include/adq/messaging/detail/OverlayMessage_impl.hpp:125-145 | reads back the envelope whose bytes stand at the offset, whatever follows |
| Codec.WritePath | include/adq/messaging/detail/PathOverlayMessage_impl.hpp:32-38 | writes the remaining path before the common fields |
| Codec.WriteContribution | include/adq/messaging/detail/ValueContribution_impl.hpp:25-32 | writes query number, value, proxies and the fixed-length signature |
| Codec.ReadContribution | include/adq/messaging/detail/ValueContribution_impl.hpp:48-64 | reads back the contribution whose bytes stand at the offset |
| Codec.WriteBody | include/adq/messaging/detail/OverlayMessage_impl.hpp:104-109 | writes type and fields, exactly `bytes_size` bytes |
| Codec.ReadBody | include/adq/messaging/detail/MessageBody_impl.hpp:18-41 | dispatches on the type and returns the body whose bytes stand at the offset, whatever follows |
| Codec.PrefixCode | include/adq/messaging/detail/MessageBody_impl.hpp:18-41 | bytes of a body followed by anything split in only one way |
| Codec.WriteTransport | include/adq/messaging/detail/OverlayTransportMessage_impl.hpp:45-51 | writes type, round, final flag, sender and body |
| Codec.ReadTransport | include/adq/messaging/detail/OverlayTransportMessage_impl.hpp:62-103 | reads back the transport message whose bytes stand at the offset |
| Codec.WriteMessage | include/adq/messaging/detail/AggregationMessage_impl.hpp:36-43 | each kind of message writes its type and fields, exactly `bytes_size` bytes |
| Codec.ReadMessage | include/adq/core/detail/NetworkManager_impl.hpp:127-146 | dispatches on the type the message begins with and returns the message whose bytes stand at the offset |
| Codec.Send | include/adq/core/detail/NetworkManager_impl.hpp:183-238 | fills a buffer of exactly the right size with length, count and messages |
| Codec.ReceiveMessage | include/adq/core/detail/NetworkManager_impl.hpp:114-171 | hands on exactly the messages of the batch, in order, whatever mix of overlay, ping and aggregation messages |
| Layout.BodyStands | include/adq/messaging/detail/OverlayMessage_impl.hpp:87-109 | byte by byte: a body begins with its type 0, 1, 4, 5 or 6 in two bytes, and its fields follow at fixed places, numbers in four bytes, least significant first |
| Layout.BatchStands | include/adq/core/detail/NetworkManager_impl.hpp:183-196 | byte by byte: a batch begins with eight bytes of length and eight of count; each message follows the one before and begins with its type 0, 1 or 2 in two bytes |
| Wire.DecryptionIsOpening | include/adq/core/detail/CryptoLibrary_impl.hpp:123-140 | decrypting a locked message's enclosed bytes succeeds if and only if the message opens, and yields the bytes of what it then encloses and of no other body |
| Wire.BatchLosesNothing | include/adq/core/detail/NetworkManager_impl.hpp:183-196 | two lists of round messages with the same bytes on the wire are the same list |
| Ini.TrimFacts | include/adq/config/inifile-cpp/inicpp.h:41-56 | trimming leaves a part without space at its ends, and an already trimmed string itself |
| Ini.TrimDropsSpace | include/adq/config/inifile-cpp/inicpp.h:28-56 | exactly six characters are space |
| Ini.IniFile.EraseCommentIn | include/adq/config/inifile-cpp/inicpp.h:423-443 | the recursion removes a comment, or the escape before it and goes on behind |
| Ini.EraseCommentsExactly | include/adq/config/inifile-cpp/inicpp.h:423-450 | erasing comments leaves the part of a line before its first unescaped `#` or `;`, without the backslashes before the others |
| Ini.IniFile.WriteEscaped | include/adq/config/inifile-cpp/inicpp.h:479-498 | appends the string with an escape before each comment prefix |
| Ini.EraseUndoesEscape | include/adq/config/inifile-cpp/inicpp.h:423-498 | erasing both kinds of comment undoes the escapes, for every string |
| Ini.CommentsDoNotMatter | include/adq/config/inifile-cpp/inicpp.h:423-450 | in any text an unescaped comment behind any line, with or without space before it, changes nothing of what is read, errors included |
| Ini.CommentLinesDoNotMatter | include/adq/config/inifile-cpp/inicpp.h:586-603 | nor does a line that is only a comment, wherever it is inserted |
| Ini.CommentedReadsBack | include/adq/config/inifile-cpp/inicpp.h:586-719 | so a clean file written in any order reads back as itself with a comment behind one of its lines |
| Ini.IniFile.Decode | include/adq/config/inifile-cpp/inicpp.h:586-680 | reads line by line up to the first error; the sections read and the error are the specified ones |
| Ini.IniFile.HandleLine | include/adq/config/inifile-cpp/inicpp.h:597-678 | one line opens a section, sets a field, is skipped, or is one of four errors |
| Ini.LineErrorsExactly | include/adq/config/inifile-cpp/inicpp.h:605-660 | each of the four errors occurs exactly for the lines it is meant for, and changes nothing |
| Ini.SectionLineExactly | include/adq/config/inifile-cpp/inicpp.h:605-633 | a line `[name]` makes the section current, adds it if it is new, and keeps all fields |
| Ini.FieldLineExactly | include/adq/config/inifile-cpp/inicpp.h:635-678 | a line `key=value` sets that key of the current section to that value, both trimmed, and nothing else; the first `=` counts |
| Ini.IniFile.Encode | include/adq/config/inifile-cpp/inicpp.h:700-719 | writes every section and every field once, in some order |
| Ini.DecodedIsClean | include/adq/config/inifile-cpp/inicpp.h:586-680 | whatever the text, reading yields only names, keys and values that can be written back |
| Ini.ReadsBackExactlyWhenClean | include/adq/config/inifile-cpp/inicpp.h:586-719 | a file written in any order reads back as itself, without error, if and only if section names are non-empty without `]`, keys trimmed without `=` or a leading `[`, values trimmed, and nothing holds a newline |
| Ini.SpacedKeyIsLost | include/adq/config/inifile-cpp/inicpp.h:586-719 | a key with a space in front is written and not read back |

## Left out

- Several queries at once: one query is modelled, so query numbers on overlay messages and the server's pending batches are not; a batch of server queries can leave two timers live.
- Sockets, timers as real time, logging, configuration access, key files and the padding and hashing of signatures: a timeout is an event that may happen, the padding check is a parameter.
- The agreement phases inside the round model: which messages are multicast there is a parameter, and their delivery an assumption of the agreement lemmas, because a path message locked for its last hop crashes the first of several hops.
- ProtocolState.ProtocolState.HandleSignatureResponse: the onions are a parameter; `Multicast.EncryptedMulticastToProxies` builds them.
- ProtocolState.ProtocolState.EndOverlayRound: the messages multicast at the ends of the shuffle and of phase 1 are script parameters; `Multicast.EncryptedMulticastFrom` builds those for one value.
- ProtocolState.ProtocolState.HandleOverlayMessage: which contributions verify is a parameter; opening for the wrong node always fails, where the cipher's padding check would let a few through.
- ProtocolState.ProtocolState.TakeFutureMessages: no query numbers, so the test for the current query is left out.
- ProtocolState.QueryClient.HandleMessage: no query numbers, so the branches for other queries are left out.
- Agreement.CrusaderAgreementState.FinishPhase1: finding paths and encrypting the accept messages are left out. The source makes room for one id fewer than the value has proxies, so it presumes the node is one of them; the model addresses all proxies but the node.
- Agreement.CrusaderAgreementState.HandlePhase1Message: the ids that have keys are a parameter, the same for all nodes. As configured they are 0 to n - 1 (src/config/Configuration.cpp:139-149); the table lacks the utility's key, whose lookup in src/core/CryptoLibrary.cpp:33 would throw before any query; the model presumes it is there.
- AgreementRun.ConvincesEveryNode: speaks of nodes whose other messages do not end their processes.
- AggregationPhase.AggregateState.ReceiveAggregationMessage: no query numbers, so the test on early messages is left out.
- OnionDelivery.OnionsDeliverInEveryRun: claims arrival by the planned round, and only for plans inside the shuffle, because the path search allows L rounds per target plus 3, which can exceed S; `ShuffleResult.ShuffleDeliversExactly` covers all plans.
- RoundSystem.SkewIsBounded: runs without timeouts, up to the first crash; with failures and timeouts only the schedule of single nodes is proved.
- FailSilent.QueryAnswersTotal: assumes that the phase-1 messages of speaking nodes arrive, which the code lacks over paths of several hops; so does `WholeQuery.QueryAnswersTotal`. Bad nodes fall silent or fail, accept anything and report anything to the server; that they send harmful agreement messages, or reports into other groups, is not covered.
- QueryServer.QueryAnswersTotal: at most 2f + 1 results in all, because the server does not check who sends them and ends with the (2f + 1)-th.
- TimeBudget.NoResultInTime: counts every overlay round, tree step and hop as one round trip, the unit the server counts in; steps that take less leave room. The exchange of signatures before round 0 is not counted.
- AggregationRun.LiveNodesReportOnce: the failed set is fixed during a run and known to all; an aggregate function is a commutative monoid whose unit is the aggregate of the empty list.
- QueryServer.QueryServer.StartQuery: sending the request to the meters and clearing the set of meters signed for are left out, and so is signing; the fields `query_num` and `query_finished` have no initial value in the source, so the model starts with no query open.
- QueryServer.QueryServer.EndQuery: the start of a pending batch query is left out.
- Signed values and agreement values as bytes: their signature map is sized with four bytes for its count and written with eight, so they do not round-trip; they are datatypes in the agreement model.
- Codec.ReadBody: reads only what was written; on other bytes the source runs into an assertion or undefined behaviour. Integers are least significant byte first, counts below 2^31.
- Codec.ReceiveMessage: batches of overlay, ping and aggregation messages; query requests and signature messages are left out, and so are the framing of pings and of messages to the utility, which carry no count.
- Ini.IniFile.Decode: default separator, prefixes and escape only, no multi-line values, no conversion of values, no line numbers in errors.
- The prime table, fixed-point division, `Random.hpp`, the timer manager and the meter simulator: they would only add easy members.
