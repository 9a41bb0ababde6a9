# Verification of udprelayd

udprelayd sends every datagram it receives on an outward interface over several UDP relays at once, each copy under the
same 16-bit sequence number, and at the other end forwards the first copy of each number that arrives. This project
models the core of that program in Dafny and proves it.

The proof is layered the way the program is, and each layer is used by the next through its abstract view only.

1. **Ring** (`CList`). clist.h's doubly linked ring on a heap of nodes, seen as a sequence. `Foreach` is CLIST_FOREACH
   with a body that deletes any subset of the nodes; deleted nodes have arbitrary links afterwards.
2. **Red-black tree**. `RbTree` holds sglib.h's algorithms on tree values, `RbFix` and `RbCorrect` prove them correct,
   `RbNodes` proves which nodes they are made of, and `RbHeap`, `RbDelete` and `RbSearch` prove the pointer code, which
   rewrites links and colours in place, equal to the algorithms on values. The macro's left and right instances are one
   method with a `Side` parameter.
3. **Window** (`Window`, `SeenLookup`). seen_lookup.c's pool, two rings and tree implement one question: is the number
   among the last n accepted?
4. **Relays** (`RelaySpec`, `RelayOrder`, `RelayObject`, `Fleet`). relay.c's buffer and queue are one FIFO. A ledger of
   what happened to every datagram states conservation; the class writes into it the bytes it hands to sendto. Indices
   given to the datagrams tell in which order they leave. What sendto and recvfrom answer is a parameter of every step.
5. **Node** (`NodeSpec`, `RelayRing`, `NodeObject`, `NodeRuns`, `RoundRobin`, `Survival`,
   `Forwarding`, `Scenarios`). udprelayd.c's loops over the ring, dispatching in both
   directions, and its main loop, as a class that refines a state machine on values; then invariants of that machine over
   all runs.
6. **Network** (`ExactlyOnce`, `EndToEnd`). Two nodes and a network that loses, duplicates and reorders.

The main results, in the order of their dependence:

- any subset deleted during CLIST_FOREACH leaves every node visited once and the survivors in order (`CList.Foreach`);
- insertion and deletion keep every red-black rule, deletion reports exactly whether height was lost, the asserts and the
  dead branches of the deletion fix-up are never reached, and no key ever moves between nodes;
- `lookup_push` decides membership in the last n accepted, over every run, in logarithmic time (`SeenLookup.Lookup.Push`);
- exactly-once acceptance holds on every run with reordering below w and gaps up to g *if and only if* n >= 2w - 1 and
  n * g + w <= 65536 (`ExactlyOnce.ExactlyOnceIff`), so the bounds cannot be improved;
- over every run of the main loop nothing received is unread at its head, every live relay was offered exactly the packets
  broadcast so far, and the outward relay exactly the payloads the window let pass (`NodeRuns.ServeSound`), which the
  class with its rings, buffers, tree and counter implements (`NodeObject.Udprelay.Serve`);
- over every run of a relay, datagrams leave in the order offered *if and only if* no offer is answered out of turn, and
  those deferred leave in the order offered always (`RelayOrder.OrderIff`);
- over every run of the main loop that drops no relay, the relays lead the broadcasts in turn
  (`RoundRobin.RoundRobin`, `RoundRobin.EachLeadsOnce`), and the class's ring is the one these lemmas speak of;
- an iteration stops the node, dereferences NULL, or drops a relay from the ring exactly on the answers that the source
  treats so, loop by loop and relay by relay (`Survival.StopsIff`, `Survival.CrashesIff`, `Survival.KeepsPlaceIff`);
- the fresh payloads of a receiving loop, and of a whole run, are sent, queued or dropped as the outward socket answers each
  of them (`Forwarding.LoopForwards`, `Forwarding.ServeForwards`), and a relay without a remote address learns one exactly by
  reading a datagram (`RelaySpec.AddressIff`, `Forwarding.AddressFromStart`);
- end to end, the receiver's outward relay is offered the payload of every index that arrived, once, byte for byte, and sends
  them all when its socket takes what it is given (`EndToEnd.ExactlyOnceDelivery`).

Properties one might expect that the code does not have, each with its exact condition and an input on which it fails:

- `udprelay_dispatch_inbound` reads the head of the ring after the loop, which is NULL when no relay is left.
  `NodeRuns.CrashIff` and `Survival.CrashesIff` say exactly when: there is a datagram to send and every relay, if any, fails
  for good.
  `Scenarios.DispatchCrashes` is a run that gets there.
- An empty datagram deferred while nothing is pending is lost without a trace, since a send size of 0 reads as an empty
  buffer: `RelaySpec.VanishesIff`. A relayed packet of two bytes has an empty payload, so it can occur:
  `Scenarios.EmptyPayloadVanishes`.
- Datagrams need not leave a relay in the order offered, because a send is tried at once whatever is pending.
  `RelayOrder.OrderIff`: they do exactly if no offer of the run is taken or refused while something is pending (and none
  vanishes). `RelaySpec.DeferredIsOvertaken` and `RelayOrder.OvertakenOutOfOrder` give the shortest run on which they do not.
- A relay can lose its place in the ring although its own socket works, because the *outward* relay fails on what it
  brought. `NodeRuns.LosesPlaceIff`: exactly if its packet is fresh, the outward relay has a remote address, and that
  relay's socket fails for good or sends the empty payload of a two-byte packet at once, since sendto then returns 0. In
  `Scenarios.HealthyRelayIsDropped` such a packet removes a node's only relay.
- A window of 65536 or more numbers can be driven into a state that rejects everything for ever, a smaller one never
  (`Window.SaturationIff`, `Window.SaturatedForever`).
- With an empty pool `lookup_push` finds no node to reuse, with any other it does (`SeenLookup.Lookup.NodeToReuseIff`).

## Model

| member | source | states |
|---|---|---|
| `CList.AddLast` | clist.h:10-29 | the new node is the last of the ring, whose links form one cycle through the old nodes in order and it |
| `CList.Del` | clist.h:37-48 | removing any member leaves the ring of the others in order, head NULL exactly if none is left |
| `CList.LinksAreInverse` | clist.h:10-48 | next and prev undo each other at every node and stay within the ring |
| `CList.RingReadsOneSequence` | clist.h:10-48 | the links reachable from the head determine the sequence: a ring has one reading |
| `CList.LookaheadIsNext` | clist.h:50-53 | whatever was deleted before it, the lookahead is the node after the token, NULL at the ring's end, although the head may have moved |
| `CList.Foreach` | clist.h:50-53 | deleting any subset while iterating visits every original node once, in order, and leaves the survivors in order |
| `CList.RingRotates` | udprelayd.c:175 | moving the head to the next node rotates the sequence by one |
| `RbFix.FixInsertionOrder` | sglib.h:1445-1482 | the insertion fix-up and its mirror image keep the in-order sequence |
| `RbFix.FixInsertionRedBlack` | sglib.h:1445-1482 | below a black node it turns a child with a red-red edge at its root into a red-black tree of the same black height |
| `RbFix.SiblingExists` | sglib.h:1487-1551 | beside a side that lost height a sibling exists, and a red one has a black child next to the loss: the guarded branches are dead |
| `RbFix.FixDeletionOrder` | sglib.h:1484-1602 | every case of the deletion fix-up and its mirror image keeps the in-order sequence |
| `RbFix.RedSiblingRestores` | sglib.h:1497-1554 | beside a red sibling the fix-up restores the red-black rules without losing height |
| `RbFix.BlackSiblingRestores` | sglib.h:1555-1600 | beside a black sibling it restores them and reports exactly whether height was lost |
| `RbFix.FixDeletionRedBlack` | sglib.h:1484-1602 | it restores the red-black rules, its result is true exactly if height was lost, and its root is red only if the old one was |
| `RbCorrect.AddRecursiveOrder` | sglib.h:1626-1643 | a recursive insertion puts the entry where the order wants it and moves nothing else |
| `RbCorrect.AddRecursiveRedBlack` | sglib.h:1626-1643 | it keeps the black height; a red-red edge appears only at the root of a formerly red subtree, to one child |
| `RbCorrect.AddCorrect` | sglib.h:1713-1717 | insertion into a valid tree gives a valid tree with the entry added |
| `RbCorrect.OnlyChild` | sglib.h:1653-1695 | an only child is red below black, so the two assignments of 1 to the result are never reached |
| `RbCorrect.DeleteRightmostOrder` | sglib.h:1645-1666 | removing the rightmost node removes the last of the order |
| `RbCorrect.DeleteRightmostRedBlack` | sglib.h:1645-1666 | it keeps the red-black rules and reports exactly whether height was lost |
| `RbCorrect.DeleteRootOrder` | sglib.h:1689-1707 | putting the predecessor in the place of the deleted node keeps the order of the rest |
| `RbCorrect.DeleteRootRedBlack` | sglib.h:1689-1707 | it keeps the red-black rules and reports exactly whether height was lost |
| `RbCorrect.DeleteRecursiveOrder` | sglib.h:1668-1711 | deleting the i-th entry leaves the others in order |
| `RbCorrect.DeleteRecursiveRedBlack` | sglib.h:1668-1711 | every recursive call returns true exactly if its subtree's black height fell by one, and its root is red only if it was |
| `RbCorrect.DeleteCorrect` | sglib.h:1719-1722 | deletion of a member of a valid tree gives a valid tree without it |
| `RbNodes.AddRecursiveNodes` | sglib.h:1626-1643 | insertion adds the one node and duplicates none |
| `RbNodes.DeleteRootNodes` | sglib.h:1699-1707 | relinking the predecessor loses only the deleted node |
| `RbNodes.DeleteRecursiveNodes` | sglib.h:1668-1711 | deletion loses only the deleted node and duplicates none |
| `RbHeap.FixInsertionDiscrepancy` | sglib.h:1445-1482 | the pointer code of the insertion fix-up builds the tree of the algorithm on values |
| `RbHeap.AddRecursive` | sglib.h:1626-1643 | so does the recursive insertion, with the subtracting 32-bit comparator and the address tie-break |
| `RbHeap.Add` | sglib.h:1713-1717 | insertion in the heap gives a valid tree of the old nodes and the new one, each with the number it had |
| `RbHeap.FixBesideBlack` | sglib.h:1555-1600 | the pointer code beside a black sibling builds the tree of the algorithm on values |
| `RbHeap.FixBesideRed` | sglib.h:1497-1554 | so does that beside a red sibling, with or without a child of it next to the loss |
| `RbHeap.FixDeletionDiscrepancy` | sglib.h:1484-1602 | the whole fix-up on pointers, on every input its asserts let through |
| `RbDelete.DeleteRightmostLeaf` | sglib.h:1645-1666 | the rightmost node is unlinked and handed out with its own number |
| `RbDelete.DeleteFound` | sglib.h:1689-1707 | the predecessor node takes over links and colour, not the key |
| `RbDelete.DeleteRecursive` | sglib.h:1668-1711 | the search arrives at the node itself, so neither assert about non-members fires |
| `RbDelete.Delete` | sglib.h:1719-1722 | deletion in the heap gives a valid tree of the other nodes, each with the number it had |
| `RbSearch.CompareExact` | seen_lookup.c:64 | the subtracting comparator has the sign of the comparison if and only if the difference fits in 32 bits |
| `RbSearch.HeightIsLogarithmic` | sglib.h:783-794 | a valid tree of n nodes is at most 2 log2(n + 1) high |
| `RbSearch.FindMember` | sglib.h:783-794 | the search finds a node with the number if and only if there is one, within 2 log2(n + 1) steps |
| `RbSearch.CheckRecursive` | sglib.h:1865-1882 | the recursive check passes if and only if parents and children are ordered, no red-red edge exists and every path has the depth expected |
| `RbSearch.ConsistencyCheck` | sglib.h:1884-1889 | the whole check passes if and only if, besides, the root is black |
| `RbSearch.ValidIsConsistent` | sglib.h:1865-1889 | the trees of the program satisfy the order the check asks for |
| `SeenLookup.Lookup.constructor` | seen_lookup.c:69-82 | a new lookup of any size is valid and has accepted nothing |
| `SeenLookup.Lookup.Evict` | seen_lookup.c:92-97 | the oldest node is unlinked from ring and tree, and nothing else |
| `SeenLookup.Lookup.TakeFree` | seen_lookup.c:98-102 | the first free node is unlinked from the free ring |
| `SeenLookup.Lookup.Insert` | seen_lookup.c:104-107 | a node in neither ring takes the number and becomes the newest; the nodes of both rings keep theirs |
| `SeenLookup.Lookup.Push` | seen_lookup.c:85-110 | true if and only if the number is not among the last n accepted; the arrival ring, oldest first, is reused oldest first; the tree indexes exactly it; over every run, within 2 log2(items + 1) steps of the search |
| `SeenLookup.Lookup.TieBreakUnused` | seen_lookup.c:87-106 | on every reachable state the tree's numbers are pairwise distinct and increasing, and the tree passes the consistency check |
| `SeenLookup.Lookup.ArrivalCarries` | seen_lookup.c:42-43 | the k-th node of the arrival ring carries the k-th of the last n accepted numbers |
| `SeenLookup.Lookup.NodeToReuseIff` | seen_lookup.c:92-102 | the node to be reused exists if and only if the pool is not empty |
| `SeenLookup.Lookup.TreeSize` | seen_lookup.c:42-48 | the tree has `items` entries on every reachable state |
| `SeenLookup.Lookup.PoolIsCovered` | seen_lookup.c:34-49 | every node of the pool is in exactly one of the two rings |
| `SeenLookup.IndexedNums` | seen_lookup.c:87 | the tree holds a number if and only if a node of the arrival ring does |
| `Window.WindowNoRepeats` | seen_lookup.c:85-110 | over every run the last n accepted are pairwise distinct |
| `Window.NarrowNeverSaturates` | seen_lookup.c:85-110 | with n below 65536 every reachable state accepts some 16-bit number |
| `Window.SaturationIff` | seen_lookup.c:85-110 | a state that rejects every 16-bit number is reachable if and only if n is at least 65536 |
| `Window.SaturatedForever` | seen_lookup.c:85-110 | from such a state every continuation is rejected in full |
| `ExactlyOnce.RunIsFirsts` | seen_lookup.c:85-110 | under the bounds the accepted numbers are those of the first arrivals, in order |
| `ExactlyOnce.BoundsSuffice` | seen_lookup.c:85-110 | under the bounds an arrival is accepted if and only if its index has not arrived before |
| `ExactlyOnce.ShortWindowFails` | seen_lookup.c:85-110 | with n below 2w - 1 a concrete admissible run accepts a duplicate |
| `ExactlyOnce.WideWindowFails` | seen_lookup.c:85-110 | with n * g + w above 65536 a concrete admissible run rejects a new datagram |
| `ExactlyOnce.ExactlyOnceIff` | seen_lookup.c:85-110 | exactly-once on every admissible run holds if and only if n >= 2w - 1 and n * g + w <= 65536 |
| `RelaySpec.RunConserves` | relay.c:245-385 | over every run what was taken is sent, dropped, pending or a vanished empty datagram, and the deferred leave in order |
| `RelaySpec.VanishesIff` | relay.c:269-290 | a datagram vanishes exactly if it is empty and deferred while nothing is pending |
| `RelaySpec.Conservation` | relay.c:245-385 | without empty datagrams, what was taken is in exactly one of sent, dropped and pending, contents unchanged |
| `RelaySpec.DeferredIsOvertaken` | relay.c:251-253 | a datagram sent while another waits: the witness that the condition of `RelayOrder.OrderIff` can fail |
| `RelayOrder.MarkOrdered` | relay.c:245-382 | a step out of turn breaks the order of leaving, and no other step breaks or mends it |
| `RelayOrder.RunOrdered` | relay.c:245-382 | over every run the indices name exactly the ledger's datagrams, and the order is kept if and only if no step was out of turn |
| `RelayOrder.OrderIff` | relay.c:245-382 | from a new relay: indices leave in the order offered, those pending last, if and only if no offer was taken or refused while something was pending (or vanished); the deferred leave in the order offered always |
| `RelayOrder.OvertakenOutOfOrder` | relay.c:251-253 | the shortest run that breaks the order |
| `RelaySpec.ReadsWhole` | relay.c:306-337 | a datagram of fewer than 65536 bytes is kept whole, a longer one cut there, and one that is unread is never overwritten |
| `RelaySpec.LearnsIff` | relay.c:328-333 | a step gives a relay a remote address exactly if it had none of its own and reads a datagram |
| `RelaySpec.AddressIff` | relay.c:246-249 | over every run, a relay without a remote address of its own has one exactly once it has read a datagram, and drops all it is offered until then |
| `RelaySpec.Drains` | relay.c:339-382 | a socket that takes what it is given empties the FIFO in order, one datagram an iteration |
| `RelayObject.Relay.Queued` | relay.c:236-238 | a relay is watched for writing exactly while its FIFO is not empty |
| `RelayObject.Relay.SendTo` | relay.c:252 | the bytes handed over go on record as sent if the network took any, as dropped if it refused them for good |
| `RelayObject.Relay.Enqueue` | relay.c:245-293 | buffer and queue refine one FIFO; every branch hands sendto the datagram itself and has the result and the ledger of the specification |
| `RelayObject.Relay.Defer` | relay.c:268-290 | the datagram is the newest of the FIFO, or is empty and vanishes |
| `RelayObject.Relay.Buffer` | relay.c:277-290 | the send buffer grows when too small and holds the datagram; the size in use never exceeds it |
| `RelayObject.Relay.Receive` | relay.c:296-303 | what was received is handed out once |
| `RelayObject.Relay.HandleRead` | relay.c:306-337 | a datagram is read only into an empty receive buffer, truncated to its size, and its sender is remembered if there is no remote address of its own |
| `RelayObject.Relay.HandleWrite` | relay.c:339-382 | sendto gets exactly the bytes of the oldest deferred datagram, which leaves unless the socket would block or fails |
| `RelayObject.Relay.Handle` | relay.c:305-385 | both halves, the write skipped after a hard read error |
| `Fleet.EnqueueAt` | relay.c:245-293 | a relay's enqueue leaves every other relay as it was |
| `Fleet.HandleAt` | relay.c:305-385 | so does its handling of events |
| `NodeSpec.HeaderRoundTrip` | udprelayd.c:144-149 | stripping the header of a packet gives back counter and payload, for every payload |
| `NodeSpec.StripRoundTrip` | udprelayd.c:125-140 | prepending the header stripped gives back the packet |
| `RelayRing.NewRelays` | udprelayd.c:80-105 | the outward relay and the ring's, each with its own entry's remote address or ready to learn one |
| `RelayRing.AddRelays` | udprelayd.c:91-105 | one relay per configuration entry, in order, counted, each with its own entry's remote address or ready to learn one |
| `RelayRing.EachRelay` | udprelayd.c:157-172 | in a loop over the ring every relay acts once, in order, and those that fail are unlinked on the way |
| `RelayRing.Sweep` | udprelayd.c:276-284 | what such a loop leaves: the relays that did not fail, in order, counted, each as its step left it |
| `NodeObject.Udprelay.constructor` | udprelayd.c:70-112 | a node with one relay per entry, in order, which has that entry's remote address or is ready to learn one; an empty window of any size and counter 0 |
| `NodeObject.Udprelay.DispatchInbound` | udprelayd.c:144-178 | every relay present is offered the same packet once; the survivors are the ring, rotated by one, and counted; dropped are exactly the relays with a remote address whose own socket fails for good; the counter moves on modulo 65536 |
| `NodeObject.Udprelay.DispatchReceived` | udprelayd.c:296-307 | every datagram received goes through the lookup once, in ring order; gone are exactly the relays the dispatch of whose datagram failed |
| `NodeObject.DispatchRelayed` | udprelayd.c:125-141 | short packets and duplicates are dropped, any other is forwarded without its header |
| `NodeObject.ReceiveSweep` | udprelayd.c:296-307 | the receiving loop on the ring, the outward relay and the lookup refines its specification |
| `NodeObject.Udprelay.HandleAll` | udprelayd.c:271-284 | the loop ends exactly if the outward relay's event is a hard error or an empty transfer, and a relay of the ring loses its place exactly on such an event of its own |
| `NodeObject.Udprelay.Inbound` | udprelayd.c:286-293 | what the outward relay received is fetched and broadcast, nothing if it received nothing |
| `NodeObject.Udprelay.Iterate` | udprelayd.c:269-307 | one iteration on rings, buffers, tree and counter is the iteration on values, and the ring holds the nodes `RoundRobin.Left` names |
| `NodeObject.Udprelay.Serve` | udprelayd.c:247-307 | so is every run of the main loop, which goes on exactly if every iteration does, and the ring holds the nodes `RoundRobin.Present` names |
| `NodeRuns.BeginStates` | udprelayd.c:80-105 | every relay begins with its own entry's remote address, or with none and ready to learn one, and with nothing on record |
| `NodeRuns.HandledPicks` | udprelayd.c:275-284 | what the handling loop leaves: each relay kept, as its own event left it |
| `NodeRuns.BroadcastPicks` | udprelayd.c:157-175 | what a broadcast leaves: each relay kept, in rotated order, as the answer at its own position left it |
| `NodeRuns.Fates` | udprelayd.c:269-293 | every relay left when the receiving loop begins has handled its event and was offered the packet once |
| `NodeRuns.CrashIff` | udprelayd.c:174-175 | dispatching runs out of relays if and only if there is a datagram and every relay has a remote address and fails for good |
| `NodeRuns.DispatchedIsRead` | udprelayd.c:269-307 | each datagram read in an iteration is dispatched once in it, unless its relay is removed first |
| `NodeRuns.RecordsAll` | udprelayd.c:296-307 | the receiving loop forwards, in order, exactly the payloads whose numbers are not in the window |
| `NodeRuns.IterateSound` | udprelayd.c:269-307 | an iteration keeps the invariant of the main loop |
| `NodeRuns.ServeSound` | udprelayd.c:247-307 | at the head of every iteration of every run nothing is unread, every relay was offered exactly the packets so far, the outward relay exactly the payloads let pass, and all account for what they took |
| `NodeRuns.LosesPlaceIff` | udprelayd.c:296-307 | the dispatch of a relay's datagram fails if and only if it is fresh and the outward relay, having a remote address, fails for good or sends an empty payload |
| `Survival.StopsIff` | udprelayd.c:270-273 | the main loop stops if and only if the outward relay's event is a hard error, or receives or sends nothing at all |
| `Survival.CrashesIff` | udprelayd.c:174-175 | it dereferences NULL if and only if it does not stop, reads a datagram, and every relay handling leaves has a remote address and fails for good |
| `Survival.HandlingKeepsIff` | udprelayd.c:276-284 | the handling loop drops a relay if and only if its own event is one on which it fails |
| `Survival.BroadcastKeepsIff` | udprelayd.c:157-172 | a broadcast drops a relay if and only if it has a remote address and its own socket fails for good |
| `Survival.ReceivingKeepsIff` | udprelayd.c:296-307 | the receiving loop drops a relay if and only if the dispatch of its own datagram fails |
| `Survival.KeepsPlaceIff` | udprelayd.c:269-307 | the three together, over one iteration, on the identities in the ring |
| `Forwarding.LoopForwards` | udprelayd.c:296-307 | before an outward relay with a remote address, the receiving loop has exactly the fresh payloads sent, queued, dropped or refused, each as the socket answers it, in order |
| `Forwarding.LoopDiscards` | relay.c:246-249 | without a remote address it has them all dropped |
| `Forwarding.ForwardsAlike` | relay.c:251-292 | if all are answered alike, they are all sent, all queued or all dropped, in order |
| `Forwarding.ServeForwards` | udprelayd.c:247-307 | over every run of the main loop: what was taken, what was deferred, and that all are sent, or dropped, before a socket that always takes, or always refuses |
| `Forwarding.ServeQueues` | relay.c:265-292 | over every run, the payloads that found the socket blocked leave or wait in order |
| `Forwarding.ServeDelivers` | udprelayd.c:125-141 | from the start with a remote address and no empty payload: all offered are sent, waiting or gone in order, or dropped, as the socket answers, and all are taken unless it fails for good |
| `Forwarding.OutwardLearnsIff` | relay.c:328-333 | over every run the outward relay has a remote address exactly if it had, or is ready to learn one and a datagram it read was broadcast |
| `Forwarding.AddressFromStart` | relay.c:328-333 | from the start: exactly if its entry gives one, or something was broadcast |
| `RoundRobin.WholeIteration` | udprelayd.c:269-307 | an iteration that drops no relay leaves the ring as it was, or rotated by one if it broadcast, led by its first relay |
| `RoundRobin.RoundRobin` | udprelayd.c:174-175 | over every run of the main loop that drops no relay, the j-th broadcast is led by the relay that stood j places on, modulo their number, and k broadcasts move every relay k places |
| `RoundRobin.EachLeadsOnce` | udprelayd.c:174-175 | in any n consecutive broadcasts over n relays, none dropped, each relay leads exactly one |
| `Scenarios.DispatchCrashes` | udprelayd.c:174-175 | a run from the start that dereferences NULL: one relay, which fails on the first datagram |
| `Scenarios.EmptyPayloadVanishes` | relay.c:269-290 | a run from the start in which a two-byte packet's payload is deferred and lost |
| `Scenarios.HealthyRelayIsDropped` | udprelayd.c:301-306 | a run from the start in which a two-byte packet removes the only relay |
| `EndToEnd.PassedAreFirsts` | udprelayd.c:125-141 | under the bounds the payloads let pass are those of the first arrivals, in order |
| `EndToEnd.ExactlyOnceDelivery` | udprelayd.c:125-178 | from any run of a sender to any run of a receiver: each index that arrived is offered outward once, in order of first arrival, byte for byte; with a remote address they are all sent when the socket takes what it is given |

## Left out

- Address resolution, sockets, `select`, signals, logging and daemonising: a relay keeps only whether it has a remote
  address, and what the system calls answer is a parameter of each step.
- Parsing of the configuration. The number of tracked packets may be 0, which config.c does not exclude, but then only
  the start is modelled: `lookup_push` and the main loop are described for a pool with at least one node.
- The rest of sglib.h and the unused `CLIST_ADD_AFTER` and `CLIST_ADD_FIRST`.
- The debug fields of the packet header.
- Failure of `malloc`, and `free`: a node or relay that was freed is one the rings no longer hold. In `CList.Foreach` its
  links become arbitrary.
- Negative keys: numbers are taken from the non-negative 32-bit integers, of which the receiver supplies 16-bit ones.
- The layout of structs: a ring node has links and a `data` field, which for the lookup is one record of number, colour
  and children; a pointer to a field becomes a returned root; the address used for breaking ties is a constant of the node.
- A relay's queue is a sequence field, not a ring of heap nodes, so the ring operations on it are not proved again.
- RbHeap.FixDeletionDiscrepancy: where one of the macro's asserts fails the program aborts, which is not modelled.
- RbHeap.FixBesideRed: likewise for the assert about the child of the red sibling.
- RbHeap.FixInsertionDiscrepancy: the child that was inserted into is taken to exist, as it always does.
- NodeObject.Udprelay.DispatchInbound: after the NULL dereference nothing is modelled.
- The end of the main loop: what the outward relay's failure leaves is not described, since the program exits.
