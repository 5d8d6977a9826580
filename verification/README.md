# simp_dserver: a model with proofs

simp_dserver answers DNS queries of type A. Three threads pass request nodes through
lock-free rings: one receives and answers, one parses and asks the cache, one talks to
the upstream server. The cache is an array of red-black trees. This project models
these parts in Dafny and proves what they promise each other.

* **Red-black tree** (`RbTheory`, `RbBalance`: trees as mathematics; `RbHeap`, `RbSplice`:
  trees in memory; `RbTree`, `RbCursor`: the operations on linked nodes). `Valid()` says that
  the links in memory are those of the ghost `tree`: child links, parent links and root
  pointer agree and no node occurs twice. `Balanced` says: black root, no red child of a red
  node, equally many black nodes on all ways down. A `Path` is the way from a position up
  to the root; `Plug` puts a tree at its end. `struct rb_node` and the
  `struct net_hashmap_node` around it are one object.
* **Cache** (`Names`, `HashMap`, `FirstWrites`, `Cache`): string comparison and hash on signed characters
  and 32-bit words, the descents in a bucket, and the bucket array, which refines a map in
  which the first write wins.
* **Ring** (`Ring` and the `Ring...` modules): a transition system with any number of
  producers and consumers, one access to shared memory a step (the guard, which reads
  locals only, goes with the CAS). A schedule is any sequence of events, so that a statement
  over all schedules is one over all interleavings. The same step function serves 32-bit
  and unbounded counters, and both orders of the two loads in `dequeue`. `RingWrap` says when
  the two kinds of counters agree, `RingLap` what happens when they do not. `RingTheorems`,
  `RingProgress` and `RingRace.SafeExactlyWhen` speak of unbounded counters, `RingWords` says
  what of it holds on 32-bit words. `NetRing` is the object with its 32-bit fields as a single
  thread uses it.
* **Pending table** (`Lists`, `Buckets`, `Pending`, `Forwarder`): the circular lists of
  forwarded requests, which together stand for one sequence in send order.
* **Messages** (`Wire`, `QueryParser`, `Answer`, `RoundTrip`): RFC 1035 names (section 3.1) and
  resource records (section 4.1.3), the parser, the answer writer and the answer walk.
* **Pipeline** (`Pipeline` and the `Pipeline...` modules): the way of all requests through
  rings, hands and table, with the rings as queues and the cache as a map. An enqueue is one step
  there, the one at which the ring decides: its successful CAS, or the load of cons.tail after
  which it refuses. The worker's look-up and its enqueue are two steps, so that the cache may
  change in between. A response is the octets in the forwarder's buffer, walked as the program
  walks them. `PipelineEnds` says when exactly a request is answered or dropped,
  `PipelineProgress` that all can be answered. `PipelineLinks` and `PipelineThreads` prove that
  the receiver, the parser, the sender, the response handling, the answerer and the rings of the
  other modules make these steps.

## Where the code does less than its comments say

* `dequeue` is marked "multi-cores safe" (net_ring/net_ring_common.c:117). It is so for one
  consumer, and every ring of the server has one. With two, `RingRace.RaceRun` is a run in
  which three items leave a ring that two entered: `prod.tail` is loaded before
  `cons.head`, so that the head can be ahead of the loaded tail and the unsigned difference is
  huge. `RingRace.SafeExactlyWhen` gives the exact condition. The configuration
  `swapped` is a variant of the program, not the program: there the two loads are exchanged,
  and the ring is safe for any number of consumers.
* Comparing 32-bit words takes a positive multiple of 2^32 for 0. `RingWrap.RunAgrees` says
  that words do the work of unbounded counters in exactly those runs in which no guard and no
  CAS is misled in this way. It takes fewer than 2^32 reservations between the loads of one
  call to mislead its guard: in `RingLap.RefusedThoughEmpty` `enqueue` refuses an item though
  the ring is empty at both of its loads. With 2^32 of them a CAS on a full ring succeeds and
  an item is lost (`RingLap.LapLosesItem`). One producer and one consumer cannot be misled, and
  `RingLap.WordsSafeExactlyWhen` says that only they are safe without an assumption on the run.
  The bundle ring has two producers.
* `enqueue` of the program's ring refuses only when the ring is full if and only if there is one
  producer (`RingWords.RefusalsRightExactlyWhen`, one consumer assumed).
* Two outstanding requests may have one id, as the clients choose it. A response is taken for one
  to the older of them and walked from behind the question of that one
  (`PipelineResponses.ResponseMeetsAsker`). When the names are equally long the walk finds the
  records of the other question, and the hosts can be cached with each other's address
  (`PipelineResponses.AddressesSwapped`); when one name is an octet longer the walk misses an only
  record, and both are cached with 0 (`PipelineResponses.AddressesMissed`).
* A request whose look-up comes before an insert and whose enqueue comes after it is forwarded
  although its name has an address (`PipelineResponses.LookUpOvertaken`).
* A name whose first stored address is 0 (a response without an A record) is never answered
  from the cache and never stored again: `Pipeline.FirstAddressDecides`.
* `inside_strcmp` is an order only for names that part within 513 characters
  (`Names.StrCmp`); all names the server stores are shorter than 512.
* The TTL is 128 times 65536 plus what the buffer held, not 128 seconds; the record of
  `Answer.AnswerRecord` keeps its lower half free.
* No caller looks at the result of `enqueue`: a request that finds a ring full is lost. The
  pipeline counts it as dropped.

## Model

| member | source | states |
|---|---|---|
| RbTree.RbRoot.RotateLeft | net_hashmap/net_hashmap_rbtree.c:5-26 | exactly which links of which nodes change, and that no other field of the tree does |
| RbTree.RbRoot.RotateRight | net_hashmap/net_hashmap_rbtree.c:28-49 | the mirror image |
| RbTree.RbRoot.RotateLeftIn | net_hashmap/net_hashmap_rbtree.c:5-26 | at any position of any tree in memory those link changes are the left rotation, all other subtrees and parents intact |
| RbTree.RbRoot.RotateRightIn | net_hashmap/net_hashmap_rbtree.c:28-49 | the same for the right rotation |
| RbTree.RbRoot.SetColor | net_hashmap/net_hashmap_rbtree.h:23-33 | one node changes its colour and nothing else changes |
| RbTree.RbRoot.LinkNode | net_hashmap/net_hashmap_rbtree.h:53-60 | the node becomes a red leaf at the free link |
| RbBalance.InsertRotatedLeft | net_hashmap/net_hashmap_rbtree.c:73-84 | the rotations under a black uncle keep order and black height, and bring the conflict nearer to the root |
| RbBalance.InsertRotatedRight | net_hashmap/net_hashmap_rbtree.c:97-108 | the mirror image |
| RbTree.RbRoot.InsertColorLeft | net_hashmap/net_hashmap_rbtree.c:59-85 | one iteration: memory again holds a tree with at most one red-red conflict, order kept, conflict strictly nearer to the root |
| RbTree.RbRoot.InsertColorRight | net_hashmap/net_hashmap_rbtree.c:86-109 | the mirror image |
| RbTree.RbRoot.InsertColor | net_hashmap/net_hashmap_rbtree.c:51-112 | the fix-up ends in a balanced tree with the same order |
| RbTree.RbRoot.LinkAndColor | net_hashmap/net_hashmap_core.c:89-91 | at any free link of any valid balanced tree: the result is valid and balanced, and the order has the new node at that place |
| RbBalance.RedSiblingLeft | net_hashmap/net_hashmap_rbtree.c:123-130 | after the rotation of a red sibling the hole has a black sibling, order and heights as before |
| RbBalance.RedSiblingRight | net_hashmap/net_hashmap_rbtree.c:158-165 | the mirror image |
| RbBalance.EraseRecoloredLeft | net_hashmap/net_hashmap_rbtree.c:131-137 | recolouring the sibling moves the missing black node up one level |
| RbBalance.EraseRecoloredRight | net_hashmap/net_hashmap_rbtree.c:166-172 | the mirror image |
| RbBalance.EraseFinishedLeft | net_hashmap/net_hashmap_rbtree.c:138-154 | with a red nephew the rotations give a balanced tree of the same order |
| RbBalance.EraseFinishedRight | net_hashmap/net_hashmap_rbtree.c:173-188 | the mirror image |
| RbBalance.EraseExit | net_hashmap/net_hashmap_rbtree.c:190-192 | blackening the node at which the loop ends restores balance |
| RbTree.RbRoot.EraseColorStep | net_hashmap/net_hashmap_rbtree.c:121-189 | one iteration in memory: order kept, still one black node short at the hole, which is higher or red, or all is repaired |
| RbTree.RbRoot.EraseColor | net_hashmap/net_hashmap_rbtree.c:114-192 | the fix-up terminates in a balanced tree of the same order |
| RbTree.RbRoot.Successor | net_hashmap/net_hashmap_rbtree.c:207-209 | the search finds the leftmost node of the right subtree, which follows the victim in order |
| RbTree.RbRoot.TakePlace | net_hashmap/net_hashmap_rbtree.c:211-241 | exactly which fields change when the successor takes the victim's place, whether or not it is the victim's child |
| RbSplice.TakingPlaceAtTree | net_hashmap/net_hashmap_rbtree.c:211-241 | those field changes are: the successor leaves its place to its right child and stands where the victim stood |
| RbTree.RbRoot.Unlink | net_hashmap/net_hashmap_rbtree.c:246-258 | exactly which fields change when a node with at most one child goes |
| RbSplice.TakingPlaceOrder | net_hashmap/net_hashmap_rbtree.c:200-244 | the order afterwards lacks just the victim |
| RbTree.RbRoot.Erase | net_hashmap/net_hashmap_rbtree.c:194-263 | from any valid balanced tree any node can be erased: valid, balanced, and the order is the old one without that node |
| RbTree.RbRoot.ReplaceNode | net_hashmap/net_hashmap_rbtree.c:331-353 | memory holds the same tree with the new node for the victim |
| RbSplice.SubstBalanced | net_hashmap/net_hashmap_rbtree.c:331-353 | that tree is balanced if the old one was, and has its order with one node exchanged |
| RbSplice.InverseLinks | net_hashmap/net_hashmap_rbtree.h:53-60 | in a tree in memory parent links are inverse to child links, and only the root has no parent |
| RbCursor.First | net_hashmap/net_hashmap_rbtree.c:265-275 | the first node in order, NULL for the empty tree |
| RbCursor.Last | net_hashmap/net_hashmap_rbtree.c:277-287 | the last node in order, NULL for the empty tree |
| RbCursor.Next | net_hashmap/net_hashmap_rbtree.c:289-308 | the next node in order, NULL behind the last |
| RbCursor.Prev | net_hashmap/net_hashmap_rbtree.c:310-329 | the previous node in order, NULL before the first |
| RbCursor.PrevUndoesNext | net_hashmap/net_hashmap_rbtree.c:289-329 | the two cursors undo each other wherever they do not yield NULL |
| RbCursor.Walk | net_hashmap/net_hashmap_rbtree.c:265-308 | from `rb_first` on, `rb_next` visits every node once in order and then ends |
| RbTheory.LogarithmicHeight | net_hashmap/net_hashmap_rbtree.c:51-112 | a balanced tree of n nodes has height at most 2*log2(n+1) |
| Names.StrCmp | net_hashmap/net_hashmap_core.c:25-53 | dictionary order by signed characters for strings that part within 513 characters, else -1; the NULL cases |
| Names.LexZero | net_hashmap/net_hashmap_core.c:25-53 | the comparison is 0 exactly for equal names |
| Names.LexReversed | net_hashmap/net_hashmap_core.c:25-53 | it is antisymmetric and total |
| Names.LexTransitive | net_hashmap/net_hashmap_core.c:25-53 | it is transitive |
| Names.InsideHash | net_hashmap/net_hashmap_core.c:14-23 | the shift-and-add loop on 32-bit words computes hash * 33 + char modulo 2^32, cut to ten bits |
| HashMap.FindPlace | net_hashmap/net_hashmap_core.c:76-87 | finds a node of the name if there is one, else the one free link that keeps the order; at most 2*log2(n+1) steps |
| HashMap.InsideInsert | net_hashmap/net_hashmap_core.c:67-94 | 0 and one node more for a new name, -1 and no field of any node changed for a known one; the bucket stays a balanced ordered tree |
| HashMap.InsideSearch | net_hashmap/net_hashmap_core.c:122-142 | the address stored under the name, 0 if there is none; at most 2*log2(n+1) steps |
| Cache.HashTable.constructor | net_hashmap/net_hashmap_core.c:55-65 | an empty map |
| Cache.HashTable.Insert | net_hashmap/net_hashmap_core.c:96-119 | the map gains the binding exactly when the name has none, and -1 is returned exactly when it has one |
| Cache.HashTable.Search | net_hashmap/net_hashmap_core.c:144-155 | the address bound to the name in the map, else 0 |
| Cache.HashTable.InsertAll | net_xml/net_xml_config.c:82-100 | a series of inserts gives the map of the first writes |
| FirstWrites.FirstWriteWins | net_hashmap/net_hashmap_core.c:67-119 | after any series of inserts exactly the inserted names are bound, each to its first address |
| RingSafety.RunSafe | net_ring/net_ring_common.c:84-153 | in every state of every run the invariant holds: counters ordered and at most `mask` apart, reserved counters owned, published slots intact |
| RingSafety.StepKeeps | net_ring/net_ring_common.c:84-153 | each step of any thread keeps the invariant |
| RingTheorems.DequeuedIsPrefix | net_ring/net_ring_common.c:102-109 | what was handed out is a prefix of what was put in, in the order of the CAS on prod.head |
| RingTheorems.ReservedByOne | net_ring/net_ring_common.c:101-109 | a counter is reserved and unpublished exactly when one thread, and only one, has it in hand |
| RingTheorems.UnreadSlotsStay | net_ring/net_ring_common.c:105-105 | no step overwrites a published item that was not taken |
| RingTheorems.RingIsQueue | net_ring/net_ring_common.c:84-153 | every step leaves the queue, appends the item of the producer whose CAS succeeds, or hands out the oldest to the consumer that returns; never more than `mask` items |
| RingTheorems.CallItem | net_ring/net_ring_common.c:84-105 | the item that a call under way carries is the one it was called with |
| RingTheorems.RefusedOnlyWhenFull | net_ring/net_ring_common.c:91-99 | with unbounded counters: `enqueue` returns -1 only if all usable slots were taken when the refused call loaded cons.tail, its last step before the guard |
| RingTheorems.RefusedExactlyWhenEmpty | net_ring/net_ring_common.c:127-136 | with unbounded counters and one consumer: `dequeue` returns -1 exactly when nothing published was unread as that very call loaded prod.tail for its guard |
| RingTheorems.FreshRingAccepts | net_ring/net_ring_common.c:43-65 | with unbounded counters: no enqueue is refused before `nem` items were accepted |
| RingWords.RefusedOnlyWhenFullOnWords | net_ring/net_ring_common.c:91-99 | on 32-bit words, in a run in which nobody is misled: `enqueue` returns -1 only if all usable slots were taken when the refused call loaded cons.tail |
| RingWords.RefusedExactlyWhenEmptyOnWords | net_ring/net_ring_common.c:127-136 | on 32-bit words, in such a run with one consumer: `dequeue` returns -1 exactly when nothing published was unread as that very call loaded prod.tail |
| RingWords.RefusalsRightExactlyWhen | net_ring/net_ring_common.c:91-99 | on 32-bit words and over all runs with one consumer: every refused `enqueue` found the ring full at its load of cons.tail exactly when there is one producer |
| RingWords.FreshRingAcceptsOnWords | net_ring/net_ring_common.c:43-65 | on 32-bit words and over all runs: no enqueue is refused before `nem` items were accepted |
| RingWords.NotStuckOnWords | net_ring/net_ring_common.c:101-109 | on 32-bit words, in a run in which nobody is misled: while a call is under way, some call under way can make a real step |
| RingTheorems.AlignPow2 | net_ring/net_ring_common.c:25-37 | the least power of two above the argument, at least 2 |
| RingTheorems.Create | net_ring/net_ring_common.c:43-78 | the size exceeds `nem` and divides 2^32 |
| RingProgress.TurnIsHeld | net_ring/net_ring_common.c:105-111 | with unbounded counters: if a producer is past its CAS, the one whose turn it is finishes without waiting: at most three steps of its own publish its item and return 0 |
| RingProgress.ConsumerTurnIsHeld | net_ring/net_ring_common.c:144-152 | the same for consumers: at most three steps of its own hand out the oldest item |
| RingProgress.NotStuck | net_ring/net_ring_common.c:101-109 | with unbounded counters: while a call is under way, some call under way can make a real step |
| RingProgress.EveryStepDecreases | net_ring/net_ring_common.c:91-109 | every real step of a call under way decreases the measure |
| RingProgress.NoEndlessRun | net_ring/net_ring_common.c:91-109 | without new calls a run has no more real steps than the measure says |
| RingProgress.Completes | net_ring/net_ring_common.c:101-153 | from every reachable state all calls under way can be run to their end |
| RingWrap.StepAgrees | net_ring/net_ring_common.c:91-148 | a step on 32-bit words is the step on unbounded counters exactly when its guard and, if it comes to that, its CAS meet no positive multiple of 2^32 |
| RingWrap.RunAgrees | net_ring/net_ring_common.c:91-148 | the 32-bit ring is the unbounded ring seen in words, across any number of wraps, throughout exactly those runs in which no guard and no CAS is misled |
| RingWrap.WrappedDequeuedIsPrefix | net_ring/net_ring_common.c:84-153 | in those runs the 32-bit ring hands out a prefix of what was put in |
| RingWrap.CasOutcome | net_ring/net_ring_common.c:8-23 | the CAS on words agrees with that on counters exactly unless a positive multiple of 2^32 reservations fell between |
| RingWrap.GuardOutcome | net_ring/net_ring_common.c:94-99 | the guard on words agrees with that on counters exactly unless its sum is a positive multiple of 2^32 |
| RingWrap.FewReservations | net_ring/net_ring_common.c:91-103 | with fewer than 2^32 - mask reservations between load and CAS a producer is not misled |
| RingWrap.SingleConsumerNotLapped | net_ring/net_ring_common.c:127-136 | guard and CAS of a single consumer are never misled |
| RingLap.RefusedThoughEmpty | net_ring/net_ring_common.c:91-99 | a run of the 32-bit ring with fewer than 2^32 reservations in which `enqueue` refuses an item of an empty ring |
| RingLap.LapLosesItem | net_ring/net_ring_common.c:91-105 | with a second producer and 2^32 reservations during one call, for every ring size: a run of the 32-bit ring in which the item put in last is handed out for the oldest one waiting, which is lost |
| RingLap.ShortRun | net_ring/net_ring_common.c:91-148 | in a run of at most 2^32 - mask steps no thread is misled, however many there are |
| RingLap.UnmisledSafeExactlyWhen | net_ring/net_ring_common.c:84-153 | all runs of the 32-bit ring in which nobody is misled are safe exactly when there is at most one consumer or the loads are exchanged |
| RingLap.WordsSafeExactlyWhen | net_ring/net_ring_common.c:84-153 | all runs whatever of the program's 32-bit ring are safe exactly when there is one producer and one consumer |
| RingRace.SoloEnqueue | net_ring/net_ring_common.c:84-114 | undisturbed, `enqueue` whose guard passes appends the item and returns 0, with any counters of either kind |
| RingRace.SoloDequeue | net_ring/net_ring_common.c:120-153 | undisturbed, `dequeue` whose guard passes hands out the oldest slot and returns 0, with any counters of either kind |
| RingRace.RaceRun | net_ring/net_ring_common.c:127-144 | with two consumers a run of three dequeued items after two enqueued ones |
| RingRace.SafeExactlyWhen | net_ring/net_ring_common.c:116-153 | with unbounded counters all runs are safe exactly when there is at most one consumer or the loads are exchanged (for 32-bit words see `RingLap`) |
| NetRing.NetRing.constructor | net_ring/net_ring_common.c:43-78 | an empty ring with more than `nem` slots |
| NetRing.NetRing.Enqueue | net_ring/net_ring_common.c:84-114 | with 32-bit counters: -1 exactly when `mask` items are in, else the item is last |
| NetRing.NetRing.Dequeue | net_ring/net_ring_common.c:120-153 | with 32-bit counters: -1 exactly when empty, else the first item |
| Lists.InitListHead | net_common/net_common_list.h:43-47 | an empty circular list |
| Lists.ListAdd | net_common/net_common_list.h:56-64 | the four links |
| Lists.ListAddTail | net_common/net_common_list.h:93-96 | the list in both directions with the node at its end |
| Lists.ListDel | net_common/net_common_list.h:123-128 | the list in both directions without the entry, whose links are NULL |
| Pending.PendingTable.constructor | net_forward/net_forward.c:281-289 | nothing outstanding |
| Pending.PendingTable.Send | net_forward/net_forward.c:55-63 | RD is set; every bucket links exactly the outstanding requests that hash there, in send order, the new one last |
| Pending.PendingTable.Match | net_forward/net_forward.c:78-88 | finds and unlinks exactly the oldest outstanding request with the id, all buckets staying as above; null exactly when there is none |
| Pending.OldestPlace | net_forward/net_forward.c:81-88 | the first of its bucket with the id is the oldest of all |
| Forwarder.ParseResponse | net_forward/net_forward.c:70-143 | the oldest request with the response's id leaves the table, gets the address that a walk from behind its own question finds or keeps its own, its name is cached with it unless it was cached before, and it goes to the end of the bundle ring unless that is full |
| Wire.SameId | net_forward/net_forward.c:76-83 | two ids are equal exactly when both of their octets are |
| Wire.AddressOctets | net_forward/net_forward.c:107-107 | the four octets of an address go out as they came in |
| Wire.DottedLength | net_work/net_work.c:66-83 | the dotted name is two octets shorter than the name on the wire |
| Wire.SplitDotted | net_work/net_work.c:66-83 | without dots inside labels the labels can be told from the dotted name |
| QueryParser.CopyName | net_work/net_work.c:67-83 | the label loop writes the labels joined by dots, and nothing behind them, and stops at the final zero |
| QueryParser.AcceptedIsQuery | net_work/net_work.c:33-92 | the parser's tests hold exactly of the queries written out in octets |
| QueryParser.AcceptedMessage | net_work/net_work.c:33-92 | of all messages composed of id, flags, four counts, name and type exactly those are accepted that have counts 1, 0, 0 and 0 or 1, a name that is not the root, and type A, whatever id and flags are |
| QueryParser.ReadQuestion | net_work/net_work.c:33-97 | accepts exactly the queries written out in octets: one question, no answer and authority, none or one additional record, a name that is not the root, type A; id, name and host_len of an accepted request |
| QueryParser.Parse | net_work/net_work.c:26-114 | 0 exactly for the queries written out in octets, else -1; a request with a cached non-zero address goes with it to the end of the bundle ring, all others to the end of the forward ring, unless that ring is full |
| Answer.WriteBack | net_bundle/net_bundle_core.c:147-187 | the reply, which `Answer.ReplyKeeps` says in octets |
| Answer.ReplyKeeps | net_bundle/net_bundle_core.c:147-187 | in octets: QR and RA set and the other fourteen flag bits kept, answer count 0 1, the sixteen octets of answer, id, question and all else as in the query |
| RoundTrip.Reply | net_bundle/net_bundle_core.c:147-187 | the method leaves these octets in the node's buffer |
| Answer.SkipName | net_forward/net_forward.c:119-119 | ends one past the first zero octet |
| Answer.EnterRecord | net_forward/net_forward.c:99-134 | for any octets: where the program reads a data length, and that length |
| Answer.Walk | net_forward/net_forward.c:90-135 | on any octets among which it stays in the buffer the loop ends with what `Answer.WalkFrom` says |
| Answer.OverRecord | net_forward/net_forward.c:99-134 | for both forms of owner name the walk steps from a well-formed record to exactly the next one |
| Answer.WalkOverRecords | net_forward/net_forward.c:90-135 | on any sequence of well-formed records the walk ends with the address of the first one with four octets of data, else the one before |
| Answer.WalkInOctets | net_forward/net_forward.c:99-134 | in octets: behind a pointer to whatever place (first octet from 192 on) or a plain name, four octets of data are the address, and other data are stepped over |
| Answer.BesideRecord | net_forward/net_forward.c:90-135 | begun one octet beside the only record of a message, the walk misses it |
| Wire.FirstAddressIsFirst | net_forward/net_forward.c:104-108 | that is the first such record, or none exists |
| Answer.ReplyReadBack | net_bundle/net_bundle_core.c:159-187 | the octets behind the question of a reply are one record with the address |
| Answer.WriteThenWalk | net_bundle/net_bundle_core.c:147-187 | what `write_back` writes the walk reads back, for every name length and address |
| RoundTrip.ParseReplyWalk | net_work/net_work.c:60-97 | parser, writer and walk agree: for every query that ends at its question the address comes back, in a reply with QR and RA set, one answer, and every other bit of header and question kept |
| Pipeline.RunOnePlace | net_bundle/net_bundle_core.c:98-119 | in every state of every run each received request is in exactly one place |
| Pipeline.AllAccountedFor | net_work/net_work.c:99-110 | received = under way + answered + dropped, and no ring is overfull |
| Pipeline.AnsweredIsFinal | net_bundle/net_bundle_core.c:147-224 | an answered or dropped request is so once, is in no other place, and in no continuation is there a step that touches it |
| PipelineEnds.EndsExactlyWhen | net_bundle/net_bundle_core.c:98-119 | over every run: a request is among the answered ones exactly when the answering thread has sent the reply to it, and among the dropped ones exactly when it was rejected or offered to a ring that held `cap` items |
| PipelineProgress.AnswersInOrder | net_bundle/net_bundle_core.c:212-222 | from any state with an empty hand the answering thread, by taking and replying, answers all requests of the bundle ring in their order and changes nothing else |
| PipelineProgress.StepLowersAhead | net_work/net_work.c:128-138 | every step that changes anything and brings no new request lowers the work ahead, so that no run goes on without new requests |
| PipelineProgress.ThreadsDrain | net_forward/net_forward.c:177-189 | from every reachable state the threads alone can end every request or bring it into the table, dropping no query |
| PipelineProgress.AllAnswered | net_bundle/net_bundle_core.c:212-222 | from every reachable state, with an upstream server that responds to each id, every query not dropped before can be answered, in a bounded number of steps |
| PipelineProgress.BareResponds | net_forward/net_forward.c:76-83 | there is such a server: one that sends the ids back |
| PipelineProgress.AnsweredFromCache | net_work/net_work.c:99-110 | with idle threads a query for a cached name is answered with the cached address, and nothing else changes |
| PipelineProgress.ConfiguredAnswered | net_bundle/net_bundle_core.c:212-222 | after start-up a query for a configured name is answered with the first address configured for it |
| PipelineProgress.AnsweredFromUpstream | net_forward/net_forward.c:137-140 | with idle threads a query for a name without an address is forwarded, stored and answered with what its walk finds in the response |
| PipelineProgress.AskedTwice | net_forward/net_forward.c:137-140 | the first answer for a name comes from upstream, the next repeats it from the cache |
| Pipeline.HitsAgree | net_work/net_work.c:99-110 | all answers from the cache for one name carry the same address, the first one stored, and it is not 0 |
| Pipeline.FirstAddressDecides | net_work/net_work.c:99-110 | once a name is cached: if with a non-zero address no request for it looked up later is forwarded, if with 0 none is answered from the cache, in any continuation |
| Pipeline.RunRecords | net_work/net_work.c:99-110 | in every state of every run only requests whose look-up found no address are on the way upstream or back |
| PipelineResponses.ResponseMeetsAsker | net_forward/net_forward.c:76-140 | in every reachable state a message that begins with the two octets of an outstanding query takes out, answers and caches the oldest query with these octets, with what the walk from behind that one's question finds; it is the query itself exactly when no older one has them |
| PipelineResponses.HeardAtSameLength | net_forward/net_forward.c:91-92 | the answers behind one question are found by every request whose name has the same length |
| PipelineResponses.UnheardBeside | net_forward/net_forward.c:91-92 | with a name one octet longer or shorter the only answer is not found |
| PipelineResponses.DuplicateIds | net_forward/net_forward.c:81-92 | a run in which two hosts are asked for under one id: each is cached with what a walk from behind its own question finds in the first, or second, message |
| PipelineResponses.AddressesSwapped | net_forward/net_forward.c:81-92 | for names of equal length and responses in the other order: each host is cached with the address of the other |
| PipelineResponses.AddressesMissed | net_forward/net_forward.c:81-92 | for names that differ by one octet and responses of one compressed address record: both are cached with 0 |
| PipelineResponses.LookUpOvertaken | net_work/net_work.c:99-110 | a run in which a request is forwarded although its name got an address between its look-up and its enqueue |
| PipelineLinks.ParserFollows | net_work/net_work.c:26-114 | the parser does to cache, rings and node what the two steps of the worker do in the pipeline |
| PipelineLinks.ResponseFollows | net_forward/net_forward.c:70-143 | the handling of a response does to table, cache, ring and nodes what the two steps of the forwarder do in the pipeline |
| PipelineThreads.ReceiveFollows | net_bundle/net_bundle_core.c:98-119 | the receiver does what the arrival of a request does: a new node with the message in a zeroed buffer, last in the work ring, or lost when that is full |
| PipelineThreads.TakeFollows | net_work/net_work.c:130-135 | the worker's dequeue does what its step does |
| PipelineThreads.SendFollows | net_forward/net_forward.c:55-63 | dequeue and `gethostaddr` do to ring and table what the two steps of the forwarder do; the message goes upstream with RD set and all else as it was |
| PipelineThreads.AnswerFollows | net_bundle/net_bundle_core.c:212-222 | dequeue and `write_back` do what the two steps of the answering thread do: the oldest request of the ring is answered, its reply carrying its address, in octets; -1 and no change when there is none |
| PipelineThreads.ServeCached | net_work/net_work.c:99-110 | parser and answerer together turn a query for a cached name, in octets, into the reply with the cached address, in octets |
| PipelineLinks.RingsAreQueues | net_ring/net_ring_common.c:84-153 | each step of the pipeline is at each of the three rings a step of the queue that the ring was proved to be |

## Left out

- Sockets, libevent, threads, condition variables, sleeps and start-up order: receiving and sending are steps or parameters.
- net_xml and net_main: configured records are a series of inserts.
- The read-write locks: an insert or a search in a bucket is one step.
- Hardware memory order and the inline assembly: CAS is one step under sequential consistency.
- The packing of parent and colour into one word, which rests on the alignment of nodes: they are two fields.
- Allocation failure, and the empty functions `earse` and `destroy`.
- List functions that the server does not use.
- Ring.Step: `enqueue` and `dequeue` under concurrency are steps between values of a state, since calls of Dafny methods do not interleave; `NetRing` has the object and its loops for undisturbed calls. `x & mask` is written `x % size`, the same for a power of two.
- NetRing.NetRing.Enqueue: undisturbed calls only, so that the spin loop is passed at once.
- RingTheorems.AlignPow2: arguments from 2^29 on are excluded, because the shift by offset + 1 would leave the range of int.
- RingWrap.WrappedDequeuedIsPrefix: only runs in which no guard and no CAS is misled by words; the order fails in others, as `RingLap.LapLosesItem` shows.
- Pending.PendingTable.Match: the program does not notice an unmatched response and goes on with the list head; the model returns null there, and `Forwarder.ParseResponse` is about matched responses.
- Forwarder.ParseResponse: responses whose walk stays in the buffer of 2048 octets; the bundle ring is taken undisturbed, and `address` stands for the address of a node, which is what the ring stores.
- QueryParser.Parse: an accepted header must be followed by a name of labels of 1 to 63 non-zero octets whose dotted form is shorter than 512; only the fields that later steps read are kept (`phost` and `flags` are addresses into the request); the rings are taken undisturbed.
- Answer.WriteBack: the query ends at most 16 octets before the end of the buffer; the send and the freeing are steps of `Pipeline`.
- RoundTrip.ParseReplyWalk: queries without an additional record, so that the message ends at its question.
- PipelineThreads.AnswerFollows: replies that fit into the buffer, as for `Answer.WriteBack`; `nodes` stands for what the addresses in a ring point to.
- PipelineProgress.AllAnswered: that some schedule answers all; that the threads of the machine follow such a one is up to its scheduler and the upstream server.
- Pipeline.RunOnePlace: rings and cache appear as the queue and the map that the other modules prove them to be; a thread's own steps may come in any order, which allows more runs than the program has.
- Cache.HashTable.Insert: names are shorter than 512, as the `domain` field demands, and have no zero octet; a node refused with -1 is never freed, which the model does not count.
