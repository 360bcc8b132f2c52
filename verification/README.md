# CaRT protocols and data structures in Dafny

This project models the parts of CaRT, a C RPC transport, that are protocols or data structures of
their own, and proves what they keep over every input, every run or every interleaving.

* **SWIM membership** (`SwimMember`, `SwimContext`, `SwimNode`, `SwimGossip`, `SwimUpdates`,
  `SwimPasses`, `SwimSuspects`, `SwimTimers`, `SwimPing`, `SwimCluster`, `SwimDeath`). `SwimContext` is
  one node: the locked sections of `swim.c` as functions from one context to the next, and a class that
  runs them in place against these. `SwimNode` interleaves locked sections in any order with any
  messages. `SwimCluster` puts N nodes on a network that loses, duplicates and reorders. The results: no
  belief about a live member outruns that member's own incarnation, every suspicion is refuted, gossip is
  a join on (incarnation, dead) and nodes converge, an update is passed on exactly as often as configured,
  no timer kills a member before its full time unless an acknowledged message to it failed, a silent
  target is pinged through a subgroup of exactly two requests, and nobody is believed dead anywhere unless some node's
  timer has run its full time or an acknowledged message to that member failed.
* **Collective RPC** (`RankList`, `Arith`, `Topologies`, `Knomial`, `Kary`, `Broadcast`, `Tree`,
  `Corpc`, `CorpcRun`, `CorpcCodes`, `Collective`). From tree arithmetic on 32-bit ranks to the promise
  made to the caller: code 0 means that the handler ran exactly once on exactly the requested ranks, and
  any other code was brought in, exactly so, at one of them.
* **Flow control and timeouts** (`FlowControl`, `Timeouts`) and **the binary heap** below them
  (`HeapOrder`, `ChunkStore`, `BinHeap`).
* **Hybrid logical clock** (`Hlc`), **IV fetch coalescing** (`IvFetch`) and **secondary-group rank
  maps** (`RankGroup`).

A run is a sequence of steps; a step that is not enabled changes nothing, so a statement about every
sequence is a statement about every interleaving. Objects that the source changes in place are classes
whose methods are proved equal to functions on their abstract value; the theorems are about those
functions.

Where the code differs from what its comments or the literature say, the model follows the code, and
lemmas show the difference:

* `d_rank_list_dup_sort_uniq` leaves two of three copies of a rank (`RankList.TripleKeepsTwo`); it
  yields a set if and only if no rank is given more than twice (`RankList.DupSortUniqIsSetIff`).
* At one incarnation an ALIVE update overrides SUSPECT, so the status of a member is not part of the
  gossip order and depends on delivery order (`SwimMember.StatusDependsOnOrder`,
  `SwimMember.StatusIsLast`); all orders agree if and only if the updates at the top incarnation carry
  one status (`SwimMember.StatusAgreesIff`).
* A failed acknowledged message marks a member DEAD but leaves it on the suspect list, so that a later
  suspicion inherits the old deadline and the timer may kill one millisecond after it
  (`SwimSuspects.KilledAfterOneMillisecond`, with the exact condition in
  `SwimSuspects.SuspicionRunsOut`).
* 32-bit sums and products wrap in very large trees: a binomial root lists itself, a k-ary rank lists a
  child of another (`Knomial.WrapsToRoot`, `Kary.WrapsToWrongChild`, with the exact conditions in
  `Knomial.ListedIff`, `Kary.ListedIff`, `Tree.RotationIff`, `Tree.ListedIff` and `Tree.ParentIff`).
* A collective whose local dispatch fails after a child has replied never completes at that node
  (`CorpcRun.ParkedReplyIsLost`, with the exact condition in `CorpcRun.EndedCompletesIff`).
* An IV key-in-progress entry is never freed once a second fetch has slipped in between the two visits
  of a response handler (`IvFetch.EntryStaysBehind`, with the exact condition in
  `IvFetch.RestingEntry`), and a fetch callback that fetches the same key again while its handler holds
  the entry waits for its own lock for good (`IvFetch.RefetchDeadlocks`, with the exact condition in
  `IvFetch.EveryFetchEnds`).
* `crt_group_mod_get` allocates one place per member for the ranks to remove; a removal that names a
  member twice may need more (`RankGroup.RemovedOverflow`, with the exact condition in
  `RankGroup.RemovedFitIff`).

## Model

| member | source | states |
|---|---|---|
| `SwimMember.AbsorbIsJoin` | src/swim/swim.c:201-336 | alive, suspect and dead updates each act on (incarnation, dead or not) as the lexicographic join |
| `SwimMember.AbsorbAllIsTop` | src/swim/swim.c:201-336 | any sequence of updates leaves the least upper bound of the start and the updates |
| `SwimMember.GossipConverges` | src/swim/swim.c:201-336 | records that start equal and absorb the same set of updates, in any order and number, agree on incarnation and death |
| `SwimMember.StatusIsLast` | src/swim/swim.c:215-222 | a member that is not dead ends with the status of the last update at its final incarnation |
| `SwimMember.StatusDependsOnOrder` | src/swim/swim.c:215-242 | two orders of ALIVE and SUSPECT at one incarnation end in different statuses |
| `SwimMember.StatusAgreesIff` | src/swim/swim.c:215-242 | all orders and numbers of the same updates end in one status iff the updates at the top incarnation, where nobody says DEAD, carry one status |
| `SwimContext.ChooseFindsIff` | src/cart/crt_swim.c:244-312 | the circular search finds a target if and only if an eligible member exists, for lists at most one longer than the group |
| `SwimContext.SeekMisses` | src/cart/crt_swim.c:255-267 | a search that gives up has passed only ineligible members |
| `SwimContext.SeekFirst` | src/cart/crt_swim.c:244-312 | a search that finds a member finds the first one after the cursor: ALIVE for helpers, not DEAD for targets |
| `SwimContext.GatherExact` | src/swim/swim.c:436-456 | the subgroup is the next two ALIVE members in turn, the same one twice if there is only one, or empty if there is none |
| `SwimContext.SwimContext.constructor` | src/swim/swim.c:493-518 | a new context: empty lists, no target, itself ALIVE and all others INACTIVE at incarnation 0 |
| `SwimContext.SwimContext.UpdatesNotify` | src/swim/swim.c:172-199 | the update about a member is renewed in place or put first with count 0, and its record set |
| `SwimContext.SwimContext.MemberAlive` | src/swim/swim.c:201-245 | accepted exactly under the join test; the suspicion is dropped and the ping timeout grows |
| `SwimContext.SwimContext.MemberDead` | src/swim/swim.c:247-285 | accepted exactly under the join test; the suspicion is dropped |
| `SwimContext.SwimContext.MemberSuspect` | src/swim/swim.c:287-336 | accepted exactly under the join test; an unlisted member is listed with a full timeout |
| `SwimContext.SwimContext.UpdateSuspected` | src/swim/swim.c:338-396 | one pass over the suspects: gossiped suspicions are prolonged and confirmed with their origin, own ones kill |
| `SwimContext.SwimContext.IpingsUpdate` | src/swim/swim.c:415-434 | exactly the overdue indirect pings are dropped |
| `SwimContext.SwimContext.GetTarget` | src/cart/crt_swim.c:244-312 | the loop over the circular list equals the search of the model |
| `SwimContext.SwimContext.SubgroupInit` | src/swim/swim.c:436-456 | up to two alive helpers, in list order |
| `SwimContext.SwimContext.ProgressTick` | src/swim/swim.c:613-748 | the switch on the ping state equals the transition function |
| `SwimContext.SwimContext.AskNext` | src/swim/swim.c:693-745 | the TIMEDOUT case in place equals the escalation that `SwimTimers.TimeoutAsks` describes |
| `SwimContext.SwimContext.UpdatesSend` | src/swim/swim.c:78-170 | message and update list equal the functions that `SwimUpdates.MessageNames` and `SwimUpdates.StaysListedIff` describe, and when nothing is sent |
| `SwimContext.SwimContext.FillPiggyback` | src/swim/swim.c:117-155 | the walk over the update list equals the function that `SwimUpdates.KeepsCarried` describes |
| `SwimContext.SwimContext.ParseMessage` | src/swim/swim.c:767-940 | a received message changes records, lists, ping state and pending answers as specified, with shutdown |
| `SwimContext.SwimContext.ParseUpdates` | src/swim/swim.c:785-881 | entries are processed up to one that declares the node dead; acknowledgements are recognised |
| `SwimContext.SwimContext.Reply` | src/swim/swim.c:883-937 | answer a ping, pass on an answer, or ping for somebody else |
| `SwimContext.SwimContext.ForwardResponse` | src/swim/swim.c:946-967 | the first node that asked gets the answer and is taken off the list |
| `SwimNode.ApplyKeeps` | src/swim/swim.c:201-336 | every accepted update keeps the list invariants |
| `SwimNode.ExpireKeeps` | src/swim/swim.c:338-396 | the pass over the suspects keeps the list invariants although it edits the list it walks |
| `SwimNode.MessageSound` | src/swim/swim.c:92-155 | a message names its subject first, holds each member once, fits its buffer and repeats the sender's records |
| `SwimNode.RunKeeps` | src/swim/swim.c:172-336 | in every run, failed acknowledgements included, every SUSPECT member is on the suspect list and whoever else is on it is DEAD, both lists hold each member once, the node never targets itself and stays ALIVE to itself, members and settings stay, and the ping timeout only grows |
| `SwimNode.StartInv` | src/swim/swim.c:493-518 | a new node satisfies the invariant |
| `SwimGossip.HearAllAbsorbs` | src/swim/swim.c:793-881 | one message moves the record of another member exactly by the join of its entries |
| `SwimGossip.NodesConverge` | src/swim/swim.c:767-940 | nodes that receive the same set of updates about a third member, in different messages, orders and numbers, agree on its incarnation and death |
| `SwimGossip.PiggybackedAtMost` | src/swim/swim.c:117-155 | in every run an update is piggybacked at most sc_piggyback_tx_max + 1 times per notification |
| `SwimUpdates.KeepsCarried` | src/swim/swim.c:117-155 | a message leaves exactly the updates it has room for on the list, counted once more, until they exceed sc_piggyback_tx_max, and carries exactly those of them that are not its subject or sender |
| `SwimUpdates.CarriesFirst` | src/swim/swim.c:117-147 | the carried entries are the first in list order, as many as there is room for |
| `SwimUpdates.KeepsOrder` | src/swim/swim.c:117-155 | what stays on the list stays in order |
| `SwimUpdates.NoRoomIsFull` | src/swim/swim.c:121-127 | an update is dropped for lack of room only by a message that is full |
| `SwimUpdates.MessageNames` | src/swim/swim.c:96-147 | a message names exactly its subject, its sender and the listed members it has room for |
| `SwimUpdates.StaysListedIff` | src/swim/swim.c:117-155 | in every run an update stays listed, counted once per message, exactly as long as every message since its last notification had room for it and there were at most sc_piggyback_tx_max of them |
| `SwimUpdates.NotifiedIsFresh` | src/swim/swim.c:172-199 | every notification puts the update on the list with count 0 |
| `SwimUpdates.ListedAfterNotice` | src/swim/swim.c:172-199 | a member nobody gave notice of never gets on the list |
| `SwimUpdates.NewsGoesOut` | src/swim/swim.c:187-196 | news about a member not yet listed is the first entry the next message carries |
| `SwimPasses.PassExact` | src/swim/swim.c:353-391 | one pass leaves a suspicion, prolongs a gossiped one as the node's own, or ends an own one in death at the incarnation on record |
| `SwimPasses.PassAsks` | src/swim/swim.c:362-409 | a pass asks for exactly the confirmations of overdue gossiped suspicions, from where they came, in list order |
| `SwimPasses.SuspicionEnds` | src/swim/swim.c:287-396 | a suspicion that nothing interrupts: full timeout, confirmation asked from its origin, one more ping timeout, death; an own one dies after the full timeout |
| `SwimPasses.HeardFrom` | src/swim/swim.c:321-328 | a suspicion started by a message is credited to its sender with a full timeout |
| `SwimPasses.PendingExact` | src/swim/swim.c:415-434 | exactly the indirect-ping requests whose time is over are forgotten |
| `SwimPasses.PendingInOrder` | src/swim/swim.c:415-434 | the others stay in order |
| `SwimPasses.RequestRemembered` | src/swim/swim.c:905-937 | a request about a SUSPECT that is not the own target is remembered behind earlier ones for one ping timeout, and the target pinged unless it already is; nothing otherwise |
| `SwimPasses.ForwardsToFirst` | src/swim/swim.c:890-904 | an answer goes to the node that asked first, the others keep waiting in order |
| `SwimPasses.EveryAskerTold` | src/swim/swim.c:943-967 | all nodes that asked are told once each, in the order they asked |
| `SwimSuspects.SuspectListExact` | src/swim/swim.c:201-336 | in every run, a member to which no acknowledged message failed is on the suspect list iff its record says SUSPECT |
| `SwimSuspects.SuspicionRunsOut` | src/swim/swim.c:338-396 | in every run, a member killed by the suspicion timer has been on the list without a break for more than 3 * 2400 ms, and SUSPECT all that time iff no acknowledged message to it failed in between |
| `SwimSuspects.KilledAfterOneMillisecond` | src/cart/crt_swim.c:163-177 | a run in which a failed acknowledgement leaves an old deadline behind, and a fresh suspicion ends in death after 1 ms |
| `SwimSuspects.StepFair` | src/swim/swim.c:303-328 | everything an event can do to the deadline of a suspicion: none moves back and a new one is a full timeout ahead |
| `SwimTimers.PingRunsOut` | src/swim/swim.c:613-748 | in every run, a member killed by the ping machine was pinged directly, then through the subgroup of the next two ALIVE members, each of its requests made once and no other, stayed in DPINGED, TIMEDOUT and IPINGED without an answer, more than 3 * 800 ms |
| `SwimTimers.PingsSpaced` | src/swim/swim.c:633-650 | in every run two direct pings are more than a protocol period apart |
| `SwimTimers.StepMoves` | src/swim/swim.c:632-747 | everything an event can do to the ping state machine: an answer and nothing else acknowledges, and the loop moves on exactly when a deadline has passed or the target is settled |
| `SwimTimers.TimeoutAsks` | src/swim/swim.c:693-732 | after a timeout one request about the target goes to the next helper, and the wait starts with the last one; without helpers the next target follows |
| `SwimTimers.HelpersAsked` | src/swim/swim.c:693-732 | in every run, when the wait for helpers starts, exactly a whole subgroup has been asked, in order |
| `SwimTimers.NextInTurn` | src/cart/crt_swim.c:244-277 | a settled target is followed by the next member in the circular list that is not DEAD; without one the node shuts down |
| `SwimTimers.ProgressRecords` | src/swim/swim.c:652-691 | what the progress loop writes: SUSPECT after a direct, DEAD after an indirect timeout, at the incarnation on record, and nothing else |
| `SwimTimers.ClearedSlows` | src/swim/swim.c:224-238 | the ping timeout grows by one step exactly when a suspect is cleared, up to a whole period |
| `SwimTimers.RunTimeout` | src/swim/swim.c:224-238 | in every run it stays within one and three times its first value |
| `SwimPing.PingReceived` | src/swim/swim.c:856-889 | a pinged node answers its sender, and shuts down exactly when the sender records it dead |
| `SwimPing.DirectPing` | src/swim/swim.c:633-650 | ping, answer and acknowledgement across both nodes |
| `SwimPing.HelpRequested` | src/swim/swim.c:905-937 | a helper pings for the asking node and remembers it |
| `SwimPing.HelpAnswered` | src/swim/swim.c:890-904 | the answer makes the helper record the target ALIVE and tell the node that asked |
| `SwimPing.HelperAcksIff` | src/swim/swim.c:800-812 | a helper's message acknowledges an indirect ping iff it says the target is ALIVE |
| `SwimPing.IndirectPing` | src/swim/swim.c:693-732 | the request a timed-out ping decides on, sent, answered and passed on, acknowledges the ping iff the helper still records the target ALIVE when it passes the answer on; other events may come in between |
| `SwimCluster.NobodyOutrunsItself` | src/swim/swim.c:813-851 | in every run of N nodes over a lossy, duplicating, reordering network no record and no message that is not DEAD has an incarnation above the member's own |
| `SwimCluster.SuspicionIsRefuted` | src/swim/swim.c:813-851 | a node that handles a suspicion of itself ends strictly above it, and above all that anybody not believing it dead knows |
| `SwimCluster.RefutesOnce` | src/swim/swim.c:813-851 | in every run a message raises the receiver's incarnation by exactly one if it suspects the current one, and not at all otherwise |
| `SwimCluster.FailureSticks` | src/cart/crt_swim.c:163-177 | after a failed acknowledged message only an update beyond the raised incarnation changes the record |
| `SwimCluster.DoKeeps` | src/swim/swim.c:78-170 | every step of the cluster keeps the bound, own incarnations only grow, nobody writes to itself |
| `SwimCluster.FailedOk` | src/cart/crt_swim.c:150-180 | a failed acknowledged message keeps the bound although it raises the incarnation |
| `SwimCluster.InitialIsFresh` | src/cart/crt_swim.c:617-685 | the records made by rank addition are the start of a run |
| `SwimDeath.DeathHasOrigin` | src/swim/swim.c:247-285 | in every run, a belief or message anywhere that x is dead goes back to a timer of some node or a failed acknowledged message to x |
| `SwimDeath.RunProjects` | src/swim/swim.c:568-765 | a node of the cluster runs as a node on its own, failed acknowledgements included |
| `SwimDeath.StartIsNew` | src/cart/crt_swim.c:617-685 | nodes made by rank addition, with the members in any order, are new |
| `SwimDeath.DeathTakesTime` | src/swim/swim.c:352-394 | in every run of new nodes in which no acknowledged message to x fails, x believed dead anywhere means some node had suspected it without a break for more than 3 * 2400 ms or pinged it, directly and through a subgroup, in vain for more than 3 * 800 ms |
| `RankList.DupSortUniq` | src/gurt/misc.c:83-130 | the copy is sorted and thinned as the in-place loop does it |
| `RankList.UniqInPlace` | src/gurt/misc.c:104-126 | the shifting loop equals its specification |
| `RankList.UniqCount` | src/gurt/misc.c:104-126 | of k copies of a rank (k + 1) / 2 survive |
| `RankList.UniqSorted` | src/gurt/misc.c:104-126 | the result is sorted and has the same members |
| `RankList.DupSortUniqIsSetIff` | src/gurt/misc.c:83-130 | each rank comes out once if and only if none went in more than twice |
| `RankList.TripleKeepsTwo` | src/gurt/misc.c:110-121 | three copies leave two |
| `RankList.Filter` | src/gurt/misc.c:140-176 | the in-place filter equals selection by membership |
| `RankList.KeptSelects` | src/gurt/misc.c:140-176 | filtering keeps exactly the ranks asked for, in order, without new duplicates |
| `RankList.RankInList` | src/gurt/misc.c:389-403 | membership |
| `RankList.IdxInList` | src/gurt/misc.c:410-430 | the first index, or an error when absent |
| `Knomial.DigitsRoundTrip` | src/cart/crt_tree_knomial.c:52-84 | encoding in base ratio and decoding is the identity |
| `Knomial.DigitsFit` | src/cart/crt_tree_knomial.c:72-84 | a 32-bit rank has at most 32 digits |
| `Knomial.IntToKnomial` | src/cart/crt_tree_knomial.c:72-84 | the digit array holds the digits, zeros above |
| `Knomial.KnomialToInt` | src/cart/crt_tree_knomial.c:52-70 | the digit array is summed to its value |
| `Knomial.GetParent` | src/cart/crt_tree_knomial.c:116-132 | clearing the lowest non-zero digit gives the k-nomial parent |
| `Knomial.GetChildren` | src/cart/crt_tree_knomial.c:86-114 | on all 32-bit inputs the nested loops with early return list the candidates modulo 2^32 up to the first outside the group |
| `Knomial.CandidatesExact` | src/cart/crt_tree_knomial.c:86-114 | without wrap-around the candidates in the group are exactly the ranks whose parent is the caller, once each |
| `Knomial.ListedIff` | src/cart/crt_tree_knomial.c:93-110 | the listed ranks are exactly the children iff the first candidate outside the group does not wrap into it |
| `Knomial.SmallSurvives` | src/cart/crt_tree_knomial.c:93-110 | it never does in groups of at most 2^32 / 3 ranks |
| `Knomial.WrapsToRoot` | src/cart/crt_tree_knomial.c:97-111 | with ratio 2 and 2^31 + 1 ranks the root is listed as its own child |
| `Knomial.DepthIsDigits` | src/cart/crt_tree_knomial.c:116-132 | the number of parents up to the root is the number of non-zero digits |
| `Kary.GetChildren` | src/cart/crt_tree_kary.c:46-65 | on all 32-bit inputs the loop lists the candidates modulo 2^32 up to the first outside the group |
| `Kary.CandidatesExact` | src/cart/crt_tree_kary.c:46-65 | without wrap-around the candidates in the group are exactly the ranks whose parent is the caller |
| `Kary.ListedIff` | src/cart/crt_tree_kary.c:55-58 | the listed ranks are exactly the children iff rank times ratio does not wrap, or wraps outside the group |
| `Kary.WrapsToWrongChild` | src/cart/crt_tree_kary.c:55-58 | with ratio 2 and 2^31 + 1 ranks the last rank lists rank 1 |
| `Kary.GetParent` | src/cart/crt_tree_kary.c:111-133 | the k-ary parent |
| `Topologies.ChildrenBelowExact` | src/cart/crt_tree_knomial.c:86-132 | children and parent are mutual inverses: x is listed for p iff 0 < x < size and its parent is p, once |
| `Broadcast.BroadcastOnce` | src/cart/crt_corpc.c:853-906 | forwarding along the child lists of a tree reaches every node exactly once |
| `Tree.Rotation` | src/cart/crt_tree.h:138-156 | without wrap-around group rank and tree rank translate into each other without loss, the root being tree rank 0 |
| `Tree.RotationIff` | src/cart/crt_tree.h:138-156 | for all 32-bit sizes each translation is right iff its sum does not wrap, and a rank other than the root becomes tree rank 0 iff its sum is 2^32 |
| `Tree.ChildrenCount` | src/cart/crt_tree_knomial.c:134-152 | on all 32-bit inputs the count agrees with the list, for all three topologies |
| `Tree.Children` | src/cart/crt_tree_knomial.c:154-177 | on all 32-bit inputs the array gets the candidates of the topology, translated modulo 2^32, for all three topologies |
| `Tree.ListedIff` | src/cart/crt_tree_knomial.c:166-175 | for a rank whose own translation does not wrap, these are exactly its children iff neither the first candidate outside the group nor a child translated back wraps |
| `Tree.FitsListed` | src/cart/crt_tree_kary.c:83-108 | in groups that fit, every rank lists exactly its children, for all three topologies |
| `Tree.FlatChildren` | src/cart/crt_tree_flat.c:62-79 | every rank but the root |
| `Tree.Parent` | src/cart/crt_tree_knomial.c:179-201 | on all 32-bit inputs that pass its assertion, the parent as translated modulo 2^32, an error at the root |
| `Tree.ParentIff` | src/cart/crt_tree_knomial.c:193-198 | for a rank whose own translation does not wrap, that is the group rank of its parent iff translating the parent back does not wrap |
| `Tree.FitsParent` | src/cart/crt_tree_kary.c:110-133 | in groups that fit, the assertion holds and the parent is right |
| `Tree.ChildListExact` | src/cart/crt_tree.h:138-156 | child lists in group ranks are exact under the rotation |
| `Tree.TopologyIsTree` | src/cart/crt_tree_kary.c:46-133 | every topology, ratio, size and root makes a tree |
| `Tree.EveryRankOnce` | src/cart/crt_tree_flat.c:46-94 | forwarding from the root visits every group rank exactly once, for flat, k-ary and k-nomial trees |
| `Tree.KnomialPath` | src/cart/crt_tree_knomial.c:116-132 | parents lead from any rank to the root within the number of base-ratio digits |
| `Tree.GetFilteredRankList` | src/cart/crt_tree.c:46-114 | the filtered list and the positions of root and self, with every error case |
| `Tree.FilterGroupSelects` | src/cart/crt_tree.c:46-114 | the target group is sorted, free of duplicates and holds exactly the members the filter keeps |
| `Tree.ExclusiveAcceptedIff` | src/cart/crt_tree.c:68-78 | an exclusive list is accepted iff all its ranks are members and none is listed more than twice |
| `Tree.GetChildren` | src/cart/crt_tree.c:203-305 | version check, filtering and child ranks together, on all 32-bit inputs; in groups that fit, exactly the children |
| `Corpc.CorpcInfo.constructor` | src/cart/crt_corpc.c:44-108 | a new collective has no children, no counts and no code |
| `Corpc.CorpcInfo.FailChildRpc` | src/cart/crt_corpc.c:588-621 | failed children are counted and may complete the node |
| `Corpc.CorpcInfo.ReplyHdlr` | src/cart/crt_corpc.c:623-773 | the reply handler in place equals the transition function that `CorpcCodes.StepCode` and `CorpcCodes.RepliesInOrder` describe |
| `Corpc.CorpcInfo.DrainReplied` | src/cart/crt_corpc.c:677-703 | parked replies are merged in order |
| `Corpc.MergeAccounts` | src/cart/crt_corpc.c:705-741 | merging a reply moves its child from outstanding to merged, and no child is lost or counted twice |
| `Corpc.ParkAccounts` | src/cart/crt_corpc.c:742-748 | parking a reply moves its child from outstanding to parked, and no child is lost or counted twice |
| `Corpc.ForwardKeeps` | src/cart/crt_corpc.c:853-906 | forwarding keeps the per-node accounts of children sent, failed and outstanding |
| `Corpc.DispatchKeeps` | src/cart/crt_corpc.c:908-921 | local dispatch keeps them; on failure it counts the node itself as failed |
| `Corpc.SettleKeeps` | src/cart/crt_corpc.c:923-926 | so does the second locked section of a failed dispatch, which ends the local part |
| `Corpc.LocalReplyKeeps` | src/cart/crt_corpc.c:677-748 | the local reply keeps them |
| `Corpc.ChildReplyKeeps` | src/cart/crt_corpc.c:623-773 | a child's reply keeps them |
| `CorpcRun.CompletesAtMostOnce` | src/cart/crt_corpc.c:646-766 | in every run a node completes and dispatches at most once, merges no child reply before the local one unless the root is excluded, and each counted reply exactly once, exactly one of them by copying if the root is excluded and there is output to aggregate |
| `CorpcRun.StepAdvances` | src/cart/crt_corpc.c:533-586 | in every step results and sent requests of a node only grow, an error code never turns back to success, and a node still without error newly hears only from a child with code 0 |
| `CorpcRun.CodeZeroMeansAll` | src/cart/crt_corpc.c:588-773 | in every run code 0 at the root means code 0 and one handler run at every node |
| `CorpcRun.OneRequestEach` | src/cart/crt_corpc.c:853-906 | no node is sent a second request |
| `CorpcRun.StepProgresses` | src/cart/crt_corpc.c:775-943 | every step that does something lowers a measure, so runs end |
| `CorpcRun.EndedCompletesIff` | src/cart/crt_corpc.c:917-926 | once nothing is left to do at a node that took part, whatever the rest of the tree does, it has completed exactly once, or never iff some step settled a failed local dispatch there while a reply was parked |
| `CorpcRun.LostIffStranded` | src/cart/crt_corpc.c:742-748 | such a step is the only way for a reply to stay parked at a finished node whose dispatch failed |
| `CorpcRun.ParkedReplyIsLost` | src/cart/crt_corpc.c:917-935 | a run of two nodes that has ended and in which the root never completes |
| `CorpcRun.RootCompletes` | src/cart/crt_corpc.c:588-773 | once nothing is left to do at the root, it has completed exactly once, unless it lost a parked reply, which takes a failed local dispatch |
| `CorpcRun.LostRequestCompletes` | src/cart/crt_corpc.c:623-773 | a run in which the request never reaches the child, its RPC fails with rc, and the root completes with rc |
| `CorpcCodes.StepCode` | src/cart/crt_corpc.c:533-544 | the code of a node is the last one a step brought to it, and its header holds one of the codes it has had |
| `CorpcCodes.CodeHasOrigin` | src/cart/crt_corpc.c:657-666 | in every run, an error code a node completes with was brought in, exactly so, by some step at that node or below it |
| `CorpcCodes.OneCode` | src/cart/crt_corpc.c:546-586 | if only one error code occurs in a run, every node completes with it or with success |
| `CorpcCodes.HeaderIsResult` | src/cart/crt_corpc.c:546-562 | the code in the reply of a node that completed is the code it completed with |
| `CorpcCodes.RepliesInOrder` | src/cart/crt_corpc.c:677-748 | in every run replies are used in the order of arrival, parked ones included |
| `Collective.TargetGroupIsScope` | src/cart/crt_corpc.c:414-442 | filter adjustment and filtering give the requested ranks plus the initiator, flagged exactly when it was not requested |
| `Collective.TargetGroupExists` | src/cart/crt_corpc.c:414-442 | a non-exclusive collective always has a target group, an exclusive one iff all listed ranks are members and none is listed more than twice |
| `Collective.CodeZero` | src/cart/crt_corpc.c:588-773 | for every group, filter, topology and run, code 0 means the handler ran exactly once on every requested rank and on no other |
| `Collective.ErrorCode` | src/cart/crt_corpc.c:588-773 | an error code the initiator's callback gets was brought in, exactly so, at some rank of the target group; if only one code occurs it is that one |
| `Collective.CallbackOnce` | src/cart/crt_corpc.c:546-586 | the initiator's callback comes at most once; once nothing is left to do at the initiator, exactly once iff its own dispatch did not fail over a parked reply |
| `FlowControl.UntrackStartsOne` | src/cart/crt_context.c:1010-1044 | releasing a request starts exactly the oldest waiting one, or none if none waits |
| `FlowControl.RunKeeps` | src/cart/crt_context.c:889-929 | at every unlock of every run: queues match counters, at most credits in flight, waiting only when all credits are used, nothing lost or doubled, first come first started among requests that do not jump the queue |
| `FlowControl.FrontStartsFirst` | src/cart/crt_context.c:896-907 | in every run a queue-front request tracked while all credits are used starts before every request that was waiting then |
| `FlowControl.FrontStartsNext` | src/cart/crt_context.c:896-907 | if nobody else jumps the queue after it, it is the next one to start |
| `FlowControl.CountersExact` | src/cart/crt_context.c:988-995 | epi_reply_num counts exactly the completed requests, epi_req_num these and the ones in flight |
| `FlowControl.Endpoint.ReqTrack` | src/cart/crt_context.c:889-929 | the request goes in flight or to the head or tail of the wait queue, as `FlowControl.RunKeeps` and `FlowControl.FrontStartsFirst` describe |
| `FlowControl.Endpoint.UntrackLocked` | src/cart/crt_context.c:976-1046 | the locked part equals the specification and returns the requests to send |
| `FlowControl.Endpoint.ProcessWaitQ` | src/cart/crt_context.c:1014-1044 | the promotion loop takes the head of the queue while credits last |
| `FlowControl.Endpoint.ReqUntrack` | src/cart/crt_context.c:946-1063 | the recursion over requests that cannot be sent ends, and leaves the state that cutting the wait queue after the first sendable request gives |
| `FlowControl.SettledStep` | src/cart/crt_context.c:1046-1060 | that state is one untracking followed by the same for the started request if it cannot be sent |
| `FlowControl.SettledExact` | src/cart/crt_context.c:946-1063 | untracked end exactly the request and those that left the wait queue but cannot be sent, in flight exactly the old ones and those that left it and can; order is kept |
| `Timeouts.RequestTimeouts.Track` | src/cart/crt_context.c:579-605 | the request is in the heap and flagged, unless every slot is used |
| `Timeouts.RequestTimeouts.Untrack` | src/cart/crt_context.c:607-623 | the request is out of the heap and not flagged |
| `Timeouts.RequestTimeouts.ForceTimeout` | src/cart/crt_context.c:1440-1469 | deadline 0, and tracked again, unless it was not tracked and every slot is used |
| `Timeouts.RequestTimeouts.TimeoutCheck` | src/cart/crt_context.c:772-807 | one sweep takes out exactly the requests whose deadline has come, in order of deadline, and leaves exactly the later ones |
| `HeapOrder.UpOrders` | src/gurt/heap.c:382-416 | bubbling restores the order and keeps the nodes |
| `HeapOrder.DownOrders` | src/gurt/heap.c:428-485 | sinking restores the order and keeps the nodes |
| `HeapOrder.InsertOrders` | src/gurt/heap.c:487-531 | insertion keeps the order and adds exactly the node |
| `HeapOrder.RemoveOrders` | src/gurt/heap.c:533-570 | removal of any node, bubbling and sinking only if unmoved, keeps the order and exactly the other nodes, whatever hop_compare does with equal keys |
| `HeapOrder.RootLeast` | src/gurt/heap.c:580-599 | the root has the least key |
| `BinHeap.BinHeap.constructor` | src/gurt/heap.c:189-226 | an empty heap |
| `BinHeap.BinHeap.Bubble` | src/gurt/heap.c:382-416 | the loop over slots equals bubbling, and every chn_idx is the node's slot again |
| `BinHeap.BinHeap.Sink` | src/gurt/heap.c:428-485 | the loop over slots equals sinking, and every chn_idx is the node's slot again |
| `BinHeap.BinHeap.Insert` | src/gurt/heap.c:487-531 | order, indices and node set after insertion; it fails only when all slots are used |
| `BinHeap.BinHeap.Remove` | src/gurt/heap.c:533-570 | order, indices and node set after removal of any node, whose index is poisoned |
| `BinHeap.BinHeap.RemoveRoot` | src/gurt/heap.c:580-599 | the least node, or null when empty |
| `BinHeap.BinHeap.Find` | src/gurt/heap.c:342-370 | the node at an index, or null beyond the count |
| `ChunkStore.ChunkStore.Grow` | src/gurt/heap.c:102-187 | one more chunk through three levels of tables, no existing slot changes, refusal exactly when the tables are full |
| `ChunkStore.ChunkStore.Get` | src/gurt/heap.c:326-340 | every index below the high-water mark reads its element of the flat sequence |
| `ChunkStore.ChunkStore.Set` | src/gurt/heap.c:326-340 | writing an index changes that element only |
| `ChunkStore.ChunkStore.LiesThere` | src/gurt/heap.c:326-340 | in every valid store the tables lead from the computed place of an index to its element of the flat sequence |
| `ChunkStore.IndexOfPlace` | src/gurt/heap.c:326-340 | the slot computation has an inverse, and stays inside the tables exactly up to their capacity |
| `ChunkStore.PlaceOfIndex` | src/gurt/heap.c:326-340 | every slot of the tables has an index |
| `ChunkStore.PlacesApart` | src/gurt/heap.c:326-340 | different indices never share a slot |
| `Hlc.NextLocalAdvances` | src/cart/crt_hlc.c:67-78 | a local stamp moves the clock forward iff the clock is not at its last value |
| `Hlc.NextReceiveAdvances` | src/cart/crt_hlc.c:80-98 | a receive stamp passes clock and message iff neither is at the last value |
| `Hlc.NextLocalIsMax` | src/cart/crt_hlc.c:67-78 | short of the last value a local stamp is the larger of physical time and clock + 1 |
| `Hlc.NextReceiveIsMax` | src/cart/crt_hlc.c:80-98 | short of the last value a receive stamp is the largest of physical time, clock + 1 and message + 1 |
| `Hlc.StampFollowsTime` | src/cart/crt_hlc.c:50-98 | in every interleaving without 64-bit wrap, a stamp is the least value not below the time its call read that follows the clock and the message |
| `Hlc.DriftBound` | src/cart/crt_hlc.c:51-98 | in every run no clock or stamp exceeds the largest reading plus the number of clock events, also when the time call fails or the clock wraps |
| `Hlc.Causality` | src/cart/crt_hg_proc.c:714-723 | in every interleaving of threads and processes an event that happens before another has the smaller stamp, absent 64-bit wrap |
| `Hlc.StampsDistinct` | src/cart/crt_hlc.c:67-98 | stamps of one process are distinct and increase in compare-and-swap order, absent 64-bit wrap |
| `IvFetch.OneRpcPerKey` | src/cart/crt_iv.c:1157-1191 | in every interleaving at most one fetch of a key has an RPC or a response under way |
| `IvFetch.WaitingMeansBusy` | src/cart/crt_iv.c:362-386 | a pending fetch implies another one under way |
| `IvFetch.EntryOutlivesHandlers` | src/cart/crt_iv.c:607-626 | an entry that a handler will still lock has not been freed |
| `IvFetch.ToldAtMostOnce` | src/cart/crt_iv.c:472-602 | no caller is told twice |
| `IvFetch.ToldInTurn` | src/cart/crt_iv.c:473-602 | in every run the fetches that found an RPC in progress are told in the order they were issued |
| `IvFetch.OwnCallerInTurn` | src/cart/crt_iv.c:1107-1128 | when a handler tells a waiting caller, its own has been told iff the fetch succeeded |
| `IvFetch.EveryFetchEnds` | src/cart/crt_iv.c:451-630 | at rest every fetch is over and was told exactly once, iff no callback fetched the key again while its handler held the entry |
| `IvFetch.StuckIffRefetched` | src/cart/crt_iv.c:551-608 | a thread waits for its own lock iff some callback fetched the key again inside a drain |
| `IvFetch.StuckStays` | src/cart/crt_iv.c:1156-1159 | it does so for good, and no fetch of the key gets past it |
| `IvFetch.RefetchDeadlocks` | src/cart/crt_iv.c:1103-1127 | four steps that end so |
| `IvFetch.StepLowers` | src/cart/crt_iv.c:451-630 | every step but a new fetch lowers a measure |
| `IvFetch.RunsEnd` | src/cart/crt_iv.c:451-630 | in every run at most six steps are taken per fetch issued |
| `IvFetch.SomebodyMoves` | src/cart/crt_iv.c:1067-1133 | while a fetch is not over and no thread waits for its own lock, some thread can go on |
| `IvFetch.RestingEntry` | src/cart/crt_iv.c:607-626 | at rest an entry is left iff some handler of the run, on its second visit, found another RPC in progress, or a callback fetched the key again under the lock |
| `IvFetch.KeptIffSkipped` | src/cart/crt_iv.c:610-626 | an entry holds a reference nobody will drop iff some handler of the run found another RPC in progress, and it is then never freed |
| `IvFetch.EntryStaysBehind` | src/cart/crt_iv.c:607-626 | a concrete run that leaves an entry behind |
| `RankGroup.AddKeeps` | src/cart/crt_group.c:2472-2545 | adding a member keeps free indices, holes, size and linear list in step |
| `RankGroup.DropKeeps` | src/cart/crt_group.c:2733-2747 | removing a member keeps them in step |
| `RankGroup.AddRankKeeps` | src/cart/crt_group.c:3163-3251 | an accepted addition keeps the tables inverse, in range and equal to the member list |
| `RankGroup.RemoveRankKeeps` | src/cart/crt_group.c:2689-2763 | a removal keeps the tables inverse, in range and equal to the member list |
| `RankGroup.RemoveUndoesAdd` | src/cart/crt_group.c:3642-3657 | removing what was added restores both tables, and the member list up to new holes at its end |
| `RankGroup.AddReusesIndex` | src/cart/crt_group.c:2472-2545 | the index that became free last is used first |
| `RankGroup.AcceptedIffConsistent` | src/cart/crt_group.c:3163-3251 | an addition is accepted iff the group is consistent after it, and is out of group iff the primary rank is no member |
| `RankGroup.RemovePrimaryKeeps` | src/cart/crt_group.c:2765-2802 | after a primary rank has gone no table leads to it |
| `RankGroup.ModifyKeeps` | src/cart/crt_group.c:3553-3657 | every modification keeps the group consistent, and a refused one changes no mapping and no member |
| `RankGroup.ModifyExact` | src/cart/crt_group.c:3309-3421 | a modification that succeeds leaves exactly the wanted members with their primary ranks |
| `RankGroup.ModifyAcceptedIff` | src/cart/crt_group.c:3553-3657 | a replacement or addition is accepted iff all new pairs are free, lead into the primary group and share no rank; otherwise the error describes the first pair that is not |
| `RankGroup.RemovedFitIff` | src/cart/crt_group.c:3327-3331 | the ranks to remove fit into one place per member iff a removal repeats members no more often than there are members it does not list |
| `RankGroup.DistinctNeverRepeats` | src/cart/crt_group.c:3389-3397 | a list without repetitions has none to count, so it always fits |
| `RankGroup.RemovedOverflow` | src/cart/crt_group.c:3389-3397 | removing the only member twice needs two places |
| `RankGroup.SecondaryGroup.constructor` | src/cart/crt_group.c:2972-3081 | an empty group is consistent |
| `RankGroup.SecondaryGroup.RegenLinearList` | src/cart/crt_group.c:2428-2470 | the linear list is the member list without holes, also of an empty group |
| `RankGroup.SecondaryGroup.AddToMembsList` | src/cart/crt_group.c:2472-2545 | first free index, growing by 32 holes when there is none |
| `RankGroup.SecondaryGroup.RankAdd` | src/cart/crt_group.c:3163-3251 | both tables and the list, or the error and no change |
| `RankGroup.SecondaryGroup.RankRemove` | src/cart/crt_group.c:2689-2763 | both tables and the list, or the error and no change |
| `RankGroup.SecondaryGroup.ModGet` | src/cart/crt_group.c:3309-3421 | positions to add and ranks to remove for each operation, and whether they fit into the arrays allocated for them |
| `RankGroup.SecondaryGroup.SecondaryModify` | src/cart/crt_group.c:3553-3657 | the loops and the clean-up equal the specification; whether all writes stayed inside their arrays |

## Left out

- Mercury and network calls, bulk transfer, serialisation, logging, environment parsing, fault injection and the tools: input and output, or thin layers over libraries that are not part of this model.
- Allocation failure: every allocation succeeds; only the refusal of a full heap is modelled.
- Locks, reference counts of RPCs, groups and namespaces, and freeing: a locked section is one step.
- SWIM membership changes during a run: the member list is fixed, so the branches for vanished members are present but never taken.
- SWIM incarnations and times are unbounded integers; a 64-bit wrap would take 2^64 suspicions or milliseconds.
- SWIM time within one locked section is one reading of the clock, and a clock that fails and returns 0 is not modelled.
- The shutdown of a SWIM node takes effect between locked sections; a thread that read the own id just before is not modelled. The read and write of crt_swim_cli_cb are one step.
- SwimTimers.PingRunsOut: assumes that the clock readings of the progress loop do not go back, which a monotonic clock gives.
- Tree.GetFilteredRankList: works in one rank space; the source mixes primary and secondary ranks when it filters a secondary group.
- The library sort behind d_rank_list_sort is insertion sort here; only its result matters.
- Collective RPC: the run assumes that all nodes see the same members, version and filter, and that every node lists exactly its children, which `Tree.FitsListed` gives for groups that fit; chained bulk transfers and user pre-forward callbacks other than their return code are left out.
- FlowControl.Endpoint.ReqUntrack: a request is untracked only when it is not waiting, as the source asserts; the user abort of a request that is still queued is left out, and so is exactly-once completion of point-to-point RPCs.
- Timeout callbacks and the decisions of the timeout handler after a sweep: they only dispatch on the request's state.
- A heap node and the RPC it is embedded in are one object, so the conversion between the two is not modelled.
- The compare-and-swap loops of the hybrid clock are steps of a machine, one per atomic access, instead of loops.
- IV fetch is modelled on values, one key at a time, with creation and sending of the RPC succeeding; the source leaves pending fetches behind when sending fails. A callback that fetches another key takes the namespace lock under the entry's lock and can block against a thread that takes them the other way round; with one key that is not modelled. Bulk transfer, refresh and update paths are left out.
- What the program does after a write past the end of the array that `crt_group_mod_get` allocates: undefined in C, so the model only says when it happens.
- Setting the own rank of a secondary group, URI caches, and the reserved rank value as a member.
- Opcode registration (crt_register.c), the self-test client and service, crt_launch and the control tool: table lookups, measurements and command lines, with no property beyond what their code says. The progress loop and address lookup hand over to Mercury.
