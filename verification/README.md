# A model of cctrl's core library in Dafny

cctrl is a C library for servers. This project models the parts of it in which a small slip does lasting harm, and
proves what they are for:

- ordered trees kept in linked nodes with parent links: a red-black tree, an AVL tree and a B-tree (`BinTree`,
  `RbShape`, `RbTree`, `AvlShape`, `AvlTree`, `BShape`, `BNeeds`, `BNodes`, `BSplit`, `BTree`, over the maps of
  `Records`). Nodes live on the heap; a ghost tree says what they spell out, and each pointer write is proved against
  it.
- lock-free and locked sharing between threads: the ring of several producers and consumers, the queue with its block
  pool on top of it, the table of reference counts and the ticket lock (`Ring`, `RingSafety`, `RingFifo`, `RingZero`,
  `RingLap`, `RingCreat`, `Queue`, `Mref`, `MrefCalls`, `MrefWrap`, `TicketLock`, over `Arith`). Each is a state
  machine whose steps are the atomic steps of the code on its own 16- or 32-bit words; theorems are about every run of
  any number of threads.
- memory: the slab allocator over its page descriptors and bitmaps (`Bits`, `SlabLinks`, `SlabShape`, `SlabPlan`,
  `SlabLive`, `Slab`, `SlabInit`) and the bump-pointer pool (`MemPool`).
- text and streams: the XML parser, printers and length counters over linked nodes (`Xml`, `XmlTrip`, `XmlNodes`,
  `XmlBuild`, `XmlReader`, `XmlPrint`, `XmlLayout`, `XmlLength`, `XmlWhole`) and the grammar the parser is for
  (`XmlGrammar`, `XmlTokens`, `XmlAccept`), the framing of messages out of partial reads (`AccRsvr`), the write vector
  (`Iovec`), Knuth-Morris-Pratt search (`Kmp`) and the buffering and padding of MD5 and SHA-256 (`Digest`, `Md5`,
  `Sha256`).
- the timer heap (`Timer`), calendar time (`LocalTime`) and the sort (`QuickSort`).

Code that changes memory is a class or a method with loops, proved against a specification function; what the code
promises is then proved of that function. Allocation that may fail, what `read` returns, and the callbacks' verdicts
are parameters.

## Findings

Where the code does not keep its promise on every input, the model keeps the code as it is; a lemma or method names an
input or a run, and a contract says exactly when the promise holds.

- An empty `ring_mpush` (`num` 0) can set the producers' tail back, after which a consumer is handed a value nobody
  pushed: `RingZero.EmptyPushTurnsBack`, `RingZero.EmptyPushForges` (src/lib/core/ring.c:106-134). An empty
  `ring_mpop` can set the consumers' tail back, after which nobody pushes or gets anything again, short of an empty
  push: `RingZero.EmptyPopTurnsBack`, `RingZero.EmptyPopWedges`, `RingZero.WedgedForEver`
  (src/lib/core/ring.c:149-181). A thread that sleeps before its compare-and-set while the head goes round its 32 bits
  can reserve places in a full ring: `RingLap.LapOverfills` (src/lib/core/ring.c:112-122). All three runs are given
  for rings of every size. Exactly when a step is safe, for requests of any number: `RingSafety.StepKeepsExactly`.
- `power2` of more than 2^30 is -2^31, so no ring of that size is made: `RingCreat.Power2`, `Queue.QueueCreat`
  (src/lib/core/comm.c:22-37).
- With more than 2^16 threads at once two can hold the ticket lock: `TicketLock.TwoInside`; exactly when, over all
  runs of n threads: `TicketLock.ExcludesExactly` (src/incl/ticket_lock.h:19-51).
- `mref_inc` on a count of 2^32 - 1 makes it 0, and then a block is given back while 2^32 references are held:
  `MrefWrap.WrapLosesBlock`; exactly when a step is safe: `MrefWrap.KeepsExactly` (src/lib/core/mref.c:181-249).
- `slab_alloc` passes its page count in 32 bits: 2^44 + 4096 bytes are answered with one page, and 2^44 bytes mark
  descriptors past the last one: `Slab.CountIsCut`; the block is long enough exactly below 2^32 pages:
  `Slab.BlockSuffices`; `Slab.SlabPool.Alloc` says when the marks run over (src/lib/core/slab.c:189-200,
  src/lib/core/slab.c:604-647).
- `slab_init` on memory whose alignment leaves the page area past the end tells the free list of 2^32 - 1 pages:
  `SlabInit.TooManyPages`; exactly when: `SlabInit.PagesFit` (src/lib/core/slab.c:149-156).
- `slab_dealloc` takes two kinds of pointer for blocks though they are none, the first page of a free run and the
  chunks that the bitmap of a page of small chunks takes up: `Slab.Strays` finds both on every new pool, and
  `Slab.SlabPool.Admits` says that exactly these pass beside the live blocks (src/lib/core/slab.c:419-560). The first
  kind does no harm to the pool: `Slab.SlabPool.Dealloc`.
- `timer_task_stop` never lets the moved entry rise: the heap stays one exactly when that entry is due no sooner than
  the one above the gap: `Timer.TimerQueue.Stop`, and `Timer.StopBreaks` is a run that breaks it. It also goes by the
  place noted in the entry, which `timer_task_start` leaves wrong for the entries it pushes down, `timer_task_pop` for
  the one it moves, and `timer_task_stop` for one that sinks to the bottom; an entry that is queued is then not found:
  `Timer.StopMisses`; exactly when the notes stay right is in `Timer.TimerQueue.Start`, `Pop` and `Stop`
  (src/lib/core/timer.c:124-298).
- `local_time` takes every fourth year for a leap year, and is right exactly before 1 March 2100:
  `LocalTime.RightUntil` (src/lib/core/redo.c:471-555).
- `sha256_calculate` drops bit 31 of the low count: the padding is that of FIPS 180-4 exactly when the message length
  modulo 2^32 is below 2^31: `Sha256.MessageIsPadded` (3rd/crypt/sha256.c:148).
- `md5_update` never ends for a long piece after a partial block, as the loop's place wraps: `Md5.NoEnd`,
  `Md5.GoesRound`; exactly when: `Md5.LoopEnds` (3rd/crypt/md5.c:139). `UINT4` is an `unsigned long`, which is wider
  than four bytes on many machines; the model takes the four-byte word its name and RFC 1321 ask for.
- `kmp_gen_next` asks `calloc` for as many bytes as the pattern has characters and writes that many ints: an entry
  lies in the allocation exactly when it is in the first quarter: `Kmp.EntryFits`, `Kmp.Matcher.GenNext`
  (src/demo/kmp/kmp.c:20).
- `btree_split` with no memory for its node leaves a node over its limit, and with no memory for a new root loses the
  records from the separating one on: `BTree.BTree.OverfullIs`, `BTree.RootHalved`; exactly when an insertion has
  memory enough: `BTree.BTree.Insert` (src/lib/core/btree.c:226-248).
- `mem_pool_alloc` compares sizes as unsigned: its test is right for every place exactly when the block ends on an
  alignment boundary: `MemPool.PassesIsRight` (src/lib/core/mem_pool.c:133-140).

## Model

| member | source | states |
|---|---|---|
| `RbTree.RbTree.constructor` | src/lib/core/rb_tree.c:161-194 | the new tree is valid and stands for the empty map, its root being the sentinel |
| `RbTree.RbTree.Insert` | src/lib/core/rb_tree.c:257-309 | from any valid red-black tree to a valid one whose map has the record added; a key already there is reported and an allocation failure is, and in both cases the tree is the same tree as before |
| `RbTree.RbTree.InsertFirst` | src/lib/core/rb_tree.c:262-274 | the first record of an empty tree: a black root, and the map has it |
| `RbTree.RbTree.InsertBelow` | src/lib/core/rb_tree.c:282-303 | a red node hung where the search ended and repaired: valid, fresh nodes only, the map with the record added |
| `RbTree.RbTree.CreatNode` | src/lib/core/rb_tree.c:212-231 | the heap afterwards is exactly the old tree with a one-node tree in the empty place, links in both directions included |
| `RbTree.RbTree.InsertFixup` | src/lib/core/rb_tree.c:325-403 | the loop ends; the tree it leaves is red-black and has the records, in order, that it was given |
| `RbTree.RbTree.LeftUncleRed` | src/lib/core/rb_tree.c:338-347 | red uncle, parent a left child: the two turn black, the disorder is two levels higher, nothing else changes |
| `RbTree.RbTree.LeftOuterTurn` | src/lib/core/rb_tree.c:348-358 | black uncle, outer grandchild: one rotation and the subtree is black at its root and balanced at the same black height |
| `RbTree.RbTree.LeftInnerTurn` | src/lib/core/rb_tree.c:359-366 | black uncle, inner grandchild: a rotation turns it into the outer case with the same records in order |
| `RbTree.RbTree.RightUncleRed` | src/lib/core/rb_tree.c:370-380 | red uncle, parent a right child: the two turn black, the disorder is two levels higher, nothing else changes |
| `RbTree.RbTree.RightOuterTurn` | src/lib/core/rb_tree.c:389-398 | black uncle, outer grandchild on the right: one rotation and the subtree is black at its root and balanced at the same black height |
| `RbTree.RbTree.RightInnerTurn` | src/lib/core/rb_tree.c:382-387 | black uncle, inner grandchild on the right: a rotation turns it into the outer case with the same records in order |
| `RbTree.RbTree.RightRotate` | src/lib/core/rb_tree.c:81-99 | the heap afterwards is the tree with that subtree rotated right, all parent links right, and the records in the same order |
| `RbTree.RbTree.LeftRotate` | src/lib/core/rb_tree.c:123-141 | the heap afterwards is the tree with that subtree rotated left, all parent links right, and the records in the same order |
| `BinTree.RotatedRight` | src/lib/core/rb_tree.c:81-99 | the pointer writes of a right rotation, and no others, turn a heap that holds a tree into one that holds the rotated tree |
| `BinTree.RotatedLeft` | src/lib/core/rb_tree.c:123-141 | the pointer writes of a left rotation, and no others, turn a heap that holds a tree into one that holds the rotated tree |
| `BinTree.PlugKeepsOrder` | src/lib/core/rb_tree.c:257-657 | a subtree put back in its place stands between the same records as before: why local repairs keep the order |
| `RbTree.RbTree.Delete` | src/lib/core/rb_tree.c:419-440 | from any valid tree to a valid one whose map lacks the key; the record handed out is the one the map had; a missing key changes nothing |
| `RbTree.RbTree.DeleteFound` | src/lib/core/rb_tree.c:426-429 | the count goes down by one modulo 2^64 and the map loses the key |
| `RbTree.RbTree.DeleteNode` | src/lib/core/rb_tree.c:454-541 | the record of that node is gone and no other, the tree is red-black, and the node freed is one of its nodes |
| `RbTree.RbTree.DeleteSuccessor` | src/lib/core/rb_tree.c:510-540 | a node with two children takes over its successor's record and the successor's node goes: in order, exactly the record of the first is missing |
| `RbTree.RbTree.Successor` | src/lib/core/rb_tree.c:511-515 | the leftmost node of the right subtree, reached without changing anything |
| `RbTree.RbTree.Unlink` | src/lib/core/rb_tree.c:460-483 | a node with at most one child is taken out; the child, or the shared sentinel, gets its parent link |
| `RbTree.RbTree.DeleteFixup` | src/lib/core/rb_tree.c:555-657 | the loop ends although the sentinel lends its parent link, and leaves a red-black tree with the records it was given |
| `RbTree.RbTree.RepairLeft` | src/lib/core/rb_tree.c:563-604 | one round with the focus a left child: the black shortage is gone or strictly nearer the root |
| `RbTree.RbTree.RepairRight` | src/lib/core/rb_tree.c:605-648 | one round with the focus a right child: the same |
| `RbTree.RbTree.LeftBrotherRed` | src/lib/core/rb_tree.c:566-576 | red brother: a rotation gives the focus a black brother below a red parent |
| `RbTree.RbTree.LeftBrotherPaint` | src/lib/core/rb_tree.c:578-581 | black brother with black children: it turns red and the shortage moves to the parent |
| `RbTree.RbTree.LeftNephewTurn` | src/lib/core/rb_tree.c:583-593 | black brother whose inner child is red: a rotation makes the outer child red |
| `RbTree.RbTree.LeftLastTurn` | src/lib/core/rb_tree.c:595-603 | black brother whose outer child is red: one rotation and the whole tree is red-black again |
| `RbTree.RbTree.RightBrotherRed` | src/lib/core/rb_tree.c:608-619 | red brother on the left: a rotation gives the focus a black brother below a red parent |
| `RbTree.RbTree.RightBrotherPaint` | src/lib/core/rb_tree.c:621-624 | black brother on the left with black children: it turns red and the shortage moves to the parent |
| `RbTree.RbTree.RightNephewTurn` | src/lib/core/rb_tree.c:626-636 | black brother on the left whose inner child is red: a rotation makes the outer child red |
| `RbTree.RbTree.RightLastTurn` | src/lib/core/rb_tree.c:638-646 | black brother on the left whose outer child is red: one rotation and the whole tree is red-black again |
| `RbTree.RbTree.Blacken` | src/lib/core/rb_tree.c:651-656 | painting the focus black ends the repair with a red-black tree |
| `RbTree.RbTree.Query` | src/lib/core/rb_tree.c:846-863 | the answer is the lookup in the map, for every key |
| `RbTree.RbTree.Trav` | src/lib/core/rb_tree.c:981-1047 | the callback sees every record exactly once in ascending key order, and the 512-entry stack never fills for a tree a 64-bit count can count |
| `RbTree.RbTree.Find` | src/lib/core/rb_tree.c:1062-1142 | the first record in that order that the callback accepts, or none when it accepts none |
| `RbTree.RbTree.OnlyChildIsLeaf` | src/lib/core/rb_tree.c:1015-1040 | beside a missing child stands at most a single red leaf: what the stack-driven walk relies on |
| `RbTree.RbTree.PushLeft` | src/lib/core/rb_tree.c:988-1003 | the way down to the leftmost node is pushed and the walk is where the next record is |
| `Records.FirstMatchIsFirst` | src/lib/core/rb_tree.c:1062-1142 | the first match is accepted, stands in the sequence, and nothing before it is accepted; there is none exactly when nothing is accepted |
| `RbShape.PlugKeepsBalance` | src/lib/core/rb_tree.c:325-657 | a balanced subtree in a path that allows its root's colour makes a red-black whole |
| `RbShape.BalancedDepth` | src/lib/core/rb_tree.c:981-1047 | a balanced tree of black height h is at most 2h (+1) deep and has at least 2^h - 1 records |
| `RbShape.DepthBound` | src/incl/rb_tree.h:13 | a red-black tree counted by a 64-bit word is at most 128 deep, a quarter of the stack |
| `AvlTree.AvlTree.constructor` | src/lib/core/avl_tree.c:75-105 | the new tree is valid and empty |
| `AvlTree.AvlTree.Insert` | src/lib/core/avl_tree.c:126-155 | valid tree to valid tree, every stored factor the difference of the heights; the map with the record added, or unchanged with the code that says why |
| `AvlTree.AvlTree.InsertFirst` | src/lib/core/avl_tree.c:132-147 | the first node is a balanced root |
| `AvlTree.AvlTree.InsertAt` | src/lib/core/avl_tree.c:174-187 | one level of the recursion: the records with the new one put in order, `taller` exactly when the height grew |
| `AvlTree.AvlTree.InsertLeft` | src/lib/core/avl_tree.c:267-315 | into the left side: the same contract, through the factor update or a rotation |
| `AvlTree.AvlTree.InsertRight` | src/lib/core/avl_tree.c:203-251 | into the right side: the same contract |
| `AvlTree.AvlTree.SpinLeft` | src/lib/core/avl_tree.c:339-352 | the single left rotation on the heap: links, parent links and the two factors |
| `AvlTree.AvlTree.SpinRight` | src/lib/core/avl_tree.c:491-504 | the single right rotation on the heap |
| `AvlTree.AvlTree.TwistLeft` | src/lib/core/avl_tree.c:379-417 | the double rotation on the heap, with the three factors by the factor of the node brought up |
| `AvlTree.AvlTree.TwistRight` | src/lib/core/avl_tree.c:541-580 | the double rotation to the right on the heap, with the three factors by the factor of the node brought up |
| `AvlTree.AvlTree.RightBalance` | src/lib/core/avl_tree.c:454-466 | a right side two levels deeper is balanced again with the records in order and the height it had before the insertion |
| `AvlTree.AvlTree.LeftBalance` | src/lib/core/avl_tree.c:617-633 | a left side two levels deeper is balanced again with the records in order and the height it had before the insertion |
| `AvlTree.AvlTree.Delete` | src/lib/core/avl_tree.c:736-746 | valid tree to valid tree whose map lacks the key; the record handed out is the one that was there; a missing key changes nothing |
| `AvlTree.AvlTree.DeleteAt` | src/lib/core/avl_tree.c:763-837 | one level of the recursion: the record gone, `lower` exactly when the height shrank, the count down by one when something was found |
| `AvlTree.AvlTree.DeleteLeft` | src/lib/core/avl_tree.c:771-783 | into the left side: the same contract |
| `AvlTree.AvlTree.DeleteRight` | src/lib/core/avl_tree.c:784-797 | into the right side: the same contract |
| `AvlTree.AvlTree.ReplaceAndDelete` | src/lib/core/avl_tree.c:855-895 | the last record of the left subtree moves to the node above and its own node goes, all the way down the right spine with the balance repaired |
| `AvlTree.AvlTree.DeleteLeftBalance` | src/lib/core/avl_tree.c:910-999 | a left side one level lower: balanced again, in order, `lower` telling the new height |
| `AvlTree.AvlTree.DeleteRightBalance` | src/lib/core/avl_tree.c:1014-1104 | a right side one level lower: balanced again, in order, `lower` telling the new height |
| `AvlTree.AvlTree.Query` | src/lib/core/avl_tree.c:648-665 | the answer is the lookup in the map |
| `AvlShape.SpunLeftFits` | src/lib/core/avl_tree.c:339-352 | after a single rotation the factors written are the heights' differences, in both cases of the child's factor |
| `AvlShape.SpunRightFits` | src/lib/core/avl_tree.c:491-504 | after a single rotation to the right the factors written are the heights' differences |
| `AvlShape.TwistedLeftFits` | src/lib/core/avl_tree.c:379-417 | after a double rotation the three factors written are the heights' differences, for each factor of the inner grandchild |
| `AvlShape.TwistedRightFits` | src/lib/core/avl_tree.c:541-580 | after a double rotation to the right the three factors written are the heights' differences, for each factor of the inner grandchild |
| `AvlShape.PutIsAdd` | src/lib/core/avl_tree.c:126-155 | putting a record into a sorted run adds it to the map unless the key is there, and keeps the run sorted |
| `AvlShape.WithoutIsRemove` | src/lib/core/avl_tree.c:736-746 | taking a key out of a sorted run removes it from the map, and keeps the run sorted |
| `BTree.Creat` | src/lib/core/btree.c:40-71 | no tree for an order below three; otherwise an empty valid tree with the limits of that order |
| `BTree.BTree.constructor` | src/lib/core/btree.c:40-71 | the limits are m-1, ceil(m/2)-1 and m/2, and the tree is empty and valid |
| `BShape.OrderIsRight` | src/lib/core/btree.c:50-62 | those limits give both halves of an overfull node enough records, for every order from three on |
| `BTree.BSearch` | src/lib/core/btree.c:90-111 | the place returned holds the key or is next to where it would be: everything before is smaller or everything behind is greater |
| `BTree.BTree.Query` | src/lib/core/btree.c:728-746 | the answer is the lookup in the map |
| `BTree.BTree.Insert` | src/lib/core/btree.c:126-166 | a key that is there changes nothing; otherwise 0 comes back exactly when the allocator grants the nodes the way of that key needs, and then the map gains the record and the tree is valid: sorted within and across nodes, leaves at one depth, sizes within the limits, parent links right. With a refusal it says which of two damages is left |
| `BTree.BTree.FirstNode` | src/lib/core/btree.c:132-147 | the first record becomes a root leaf exactly when one node is granted; otherwise nothing changes |
| `BTree.BTree.InsertAt` | src/lib/core/btree.c:183-203 | the record goes into the leaf at its place; 0 comes back exactly when the nodes needed are granted, and the tree is then valid and of the enlarged map |
| `BTree.InsertInto` | src/lib/core/btree.c:186-199 | the buffers of the leaf are shifted by one place and hold the new record |
| `BTree.BTree.Split` | src/lib/core/btree.c:217-299 | however far the splits climb they end, and 0 comes back exactly when as many nodes are granted as are still due; the tree is then valid with the same records, and otherwise in one of the two damaged states |
| `BTree.BTree.SplitRoot` | src/lib/core/btree.c:242-258 | one round at the root, done exactly when two nodes are granted: a new root over the halves; or, with one node only, a valid tree of the lower half |
| `BTree.BTree.SplitInner` | src/lib/core/btree.c:259-286 | one round below the root, done exactly when a node is granted: the record between the halves is in the parent, which alone may now be overfull, and one node less is due |
| `BNeeds.WayOfSearch` | src/lib/core/btree.c:148-166 | the nodes the search goes through are those from which the nodes needed are reckoned |
| `BNeeds.DueAtFirst` | src/lib/core/btree.c:217-299 | reckoned from the root before the insertion or from the leaf after it, the same number of nodes is needed: one for each full node from the leaf up, and one more when the root is among them |
| `BNeeds.OneLessDue` | src/lib/core/btree.c:259-286 | a round that hands a record to the parent leaves one node less to ask for |
| `BNeeds.DueWhile` | src/lib/core/btree.c:221-223 | a node is due exactly while one holds too many records |
| `BTree.BTree.OverfullIs` | src/lib/core/btree.c:226-229 | an overfull node left behind: all records are there and linked in order, and the tree is not valid |
| `BTree.RootHalved` | src/lib/core/btree.c:237-247 | an overfull root with its count cut and its upper half hung nowhere is a tree in order of exactly the records below the one between the halves |
| `BTree.CutOff` | src/lib/core/btree.c:231-238 | the upper part of the node is in the new one, key by key and child by child |
| `BTree.PutRecord` | src/lib/core/btree.c:260-285 | the separating record lands behind all smaller ones and before all greater ones of the parent, with the new child after it |
| `BTree.HangRoot` | src/lib/core/btree.c:244-258 | the new root has the one record and the two halves as its children |
| `BTree.Clear` | src/lib/core/btree.c:287-289 | the places after the cut are cleared |
| `BTree.Adopt` | src/lib/core/btree.c:291-296 | the children that moved have the new node as their parent |
| `BTree.HalveInner` | src/lib/core/btree.c:226-297 | all steps of a round below the root together are the cut of that child, and nothing else changes in memory |
| `BTree.HalveRoot` | src/lib/core/btree.c:226-297 | all steps of a round at the root together are the cut of the root |
| `BSplit.CutKeeps` | src/lib/core/btree.c:226-297 | a memory that holds the parent's tree, cut like that, holds the tree with the child replaced by its halves and the record between them |
| `BSplit.RootKeeps` | src/lib/core/btree.c:226-297 | a memory that holds an overfull root, cut like that, holds a new root over its halves with the record between them |
| `BShape.HalvesInOrder` | src/lib/core/btree.c:217-299 | the halves with the record between them have the records of the node, in order |
| `BShape.HalvesFit` | src/lib/core/btree.c:217-299 | both halves of an overfull node are within the limits |
| `BShape.WidenedInOrder` | src/lib/core/btree.c:217-299 | the widened parent has the same records in order |
| `BShape.AlmostUp` | src/lib/core/btree.c:217-299 | after a round the only node that may be overfull is one level higher |
| `BShape.LeafMisses` | src/lib/core/btree.c:126-166 | where the search ends in a leaf the key is in no node of the tree, and the record put there is in order |
| `Ring.TrackIsStep` | src/lib/core/ring.c:106-181 | every atomic step of the code on 32-bit words is the step of the unbounded model seen modulo 2^32, for any number of threads |
| `RingSafety.StepKeepsInv` | src/lib/core/ring.c:106-181 | the invariant survives every step that turns no tail back and in which no compare-and-set wins on a head come round: cons.tail <= cons.head <= prod.tail <= prod.head <= cons.tail + max, pending reservations tile the gaps, and no slot is overwritten before it is read |
| `RingSafety.StepKeepsExactly` | src/lib/core/ring.c:106-181 | a step keeps the invariant if and only if it stores no tail older than the one there and a winning compare-and-set finds the places or values it asks for |
| `RingSafety.ShortSleeps` | src/lib/core/ring.c:112-166 | no compare-and-set wins on a head come round as long as no thread sleeps there for a lap of 2^32 |
| `RingSafety.RoomReserved` | src/lib/core/ring.c:112-122 | a winning compare-and-set of a producer stays within the room there is, wrap-around included |
| `RingSafety.ValuesTaken` | src/lib/core/ring.c:155-166 | a winning compare-and-set of a consumer stays within what is published |
| `RingSafety.TurnCome` | src/lib/core/ring.c:128-174 | the wait for one's turn ends exactly when the tail has come to one's own interval |
| `RingSafety.ReadsLog` | src/lib/core/ring.c:168-171 | what a consumer copies out is what was pushed at that index |
| `RingFifo.StepIsFifo` | src/lib/core/ring.c:106-181 | every step is one step of an atomic bounded first-in-first-out queue, or none |
| `RingFifo.StepDelivers` | src/lib/core/ring.c:149-181 | a consumer hands its caller exactly what the queue gave it |
| `RingFifo.StepReports` | src/lib/core/ring.c:106-134 | a producer reports exactly what it put in |
| `RingFifo.RunRefines` | src/lib/core/ring.c:106-181 | over whole runs of any length and any number of threads the code follows the atomic queue and keeps the count |
| `RingFifo.RunDelivers` | src/lib/core/ring.c:106-181 | over whole runs, per thread: delivered plus in hand is what was in hand plus what the queue gave, and the same for pushes |
| `RingFifo.CreatedIsSound` | src/lib/core/ring.c:26-52 | a new ring meets the invariant, is empty, and its count is right |
| `RingFifo.EmptyMeansEmpty` | src/lib/core/ring.c:149-181 | wherever a consumer stands, its next step either goes on with the same request, or returns all it asked for, or returns nothing while fewer values are queued than it asked for; short of a head so old that the difference runs over 32 bits |
| `RingFifo.FullMeansFull` | src/lib/core/ring.c:106-134 | wherever a producer stands, its next step either goes on with the same values, or reports them pushed, or fails with fewer places free than it needs, counting those reserved; with no one else at work the queue is too full. Short of a head so old that the room runs over 32 bits |
| `RingFifo.PushReservesAlone` | src/lib/core/ring.c:112-122 | a producer left alone while there is room has its places within six steps, even after losing its compare-and-set |
| `RingFifo.PopTakesAlone` | src/lib/core/ring.c:155-166 | a consumer left alone while there are the values it asks for has them within six steps, even after losing its compare-and-set |
| `RingFifo.CallsReturn` | src/lib/core/ring.c:106-181 | a thread takes on exactly the request it is given, and every call ends in a return |
| `RingFifo.OnlyWaits` | src/lib/core/ring.c:128-174 | the only step that changes nothing is a wait for one's turn |
| `RingFifo.RecentlyRead` | src/lib/core/ring.c:113-159 | a head is not that old while it has moved on by less than 2^32 - max since it was read |
| `RingFifo.FirstInLineMoves` | src/lib/core/ring.c:128-174 | whenever a tail lags its head, some thread holds the very interval the tail has come to, and its next step changes something: the waits cannot all block each other |
| `RingFifo.StepKeepsCount` | src/lib/core/ring.c:131-178 | `num`, with the additions and subtractions still owed, is the distance of the tails modulo 2^32 after every step |
| `RingZero.EmptyPushTurnsBack` | src/lib/core/ring.c:106-134 | an empty push can set the producers' tail back |
| `RingZero.EmptyPushForges` | src/lib/core/ring.c:106-134 | on a new ring of any size, with any number of threads from three on: a run with an empty push in it in which one place is ever reserved and two values are popped |
| `RingZero.EmptyPopTurnsBack` | src/lib/core/ring.c:149-181 | an empty pop can set the consumers' tail back |
| `RingZero.EmptyPopWedges` | src/lib/core/ring.c:149-181 | on a new ring of any size, with any number of threads from three on: a run with an empty pop in it to a wedged ring that holds max - 1 values |
| `RingZero.WedgedForEver` | src/lib/core/ring.c:106-181 | from a wedged ring no run without an empty push pushes anything or hands a caller anything |
| `RingLap.LapOverfills` | src/lib/core/ring.c:112-122 | on a new ring of any size: a run in which a producer sleeps before its compare-and-set while the head goes round, and then max + 1 places are reserved |
| `RingCreat.Power2` | src/lib/core/comm.c:22-37 | the least power of two not below the argument; 0 for 0; past 2^30 the result is negative |
| `RingCreat.PowerTest` | src/incl/comm.h:76 | the bit test holds exactly of the powers of two |
| `RingCreat.MaskIsRemainder` | src/lib/core/ring.c:44-47 | masking with max - 1 is the remainder by max, so masked word indices and unbounded ones name the same slot |
| `RingCreat.PushesAlone` | src/lib/core/ring.c:66-69 | a thread alone on a ring with room pushes in nine steps |
| `Queue.SlotCreat` | src/lib/core/slot.c:57-67 | the pool's ring ends up holding every block in order: none of the pushes fails |
| `Queue.QueueCreat` | src/lib/core/queue.c:27-57 | refused for zero, for a size no ring can have and without memory; otherwise every block is free once, nothing is queued, and the invariant holds |
| `Queue.FilledIsSound` | src/lib/core/slot.c:26-67 | the filled ring meets the invariant of the ring and queues exactly the blocks |
| `Queue.QueueCreated` | src/lib/core/queue.c:27-57 | the whole system starts within its invariant |
| `Queue.BlocksDiffer` | src/lib/core/slot.c:57-67 | the blocks have different addresses |
| `Queue.MallocIsRight` | src/lib/core/slot.c:82-89 | the sizes turned down are exactly those for which neighbouring blocks would overlap |
| `Queue.AdvanceKeeps` | src/incl/queue.h:21-27 | every move of every thread keeps every block in exactly one of the free ring, one thread's hands, the queue ring |
| `Queue.PlayKeeps` | src/incl/queue.h:21-27 | every run, for any number of threads, keeps every block in exactly one of those places, and the total is the number of blocks created |
| `Queue.PushNeverRefused` | src/incl/queue.h:23-24 | no move of any thread, wherever it stands, refuses a push or a freeing of blocks it holds, as long as the head read is not so old that the room runs over 32 bits |
| `Queue.BlocksFit` | src/incl/queue.h:23-24 | the blocks a thread is about to push fit beside all that is in the ring or reserved |
| `Queue.OnePlace` | src/incl/queue.h:21-27 | each block is in one place, and in the hands of at most one thread |
| `Mref.StepKeeps` | src/lib/core/mref.c:85-249 | the invariant survives every step of every interleaving that does not count up past 2^32 - 1: counts are exact, no entry is lost, no zero count without a thread on its way to remove it |
| `MrefWrap.KeepsExactly` | src/lib/core/mref.c:85-249 | a step keeps the invariant if and only if it does not count up past 2^32 - 1 |
| `MrefWrap.WrapLosesBlock` | src/lib/core/mref.c:181-249 | a run, with any number of threads, after which a block is back in its pool while 2^32 references to it are held |
| `Mref.TouchedIsThere` | src/lib/core/mref.c:181-249 | no thread touches an item that was removed |
| `Mref.DeallocIsLast` | src/lib/core/mref.c:237-246 | a block is given back only when no reference is left or owed, its entry is out of the table, its count is 0, and no other thread touches the item |
| `Mref.FreshIsNew` | src/lib/core/mref.c:116-151 | a block just allocated is not in the table, and is there with one reference once inserted |
| `Mref.HeldIsFound` | src/lib/core/mref.c:187-197 | while somebody holds a reference the lookup finds the entry |
| `Mref.WhenQuiet` | src/lib/core/mref.c:85-249 | with no call under way the table has exactly the live blocks, and every count is the number of references and not 0 |
| `Mref.RunKeeps` | src/lib/core/mref.c:85-249 | over every run: given back plus still live is handed out plus live before, and no item is given back twice, addresses reused or not |
| `Mref.AllGivenBack` | src/lib/core/mref.c:85-249 | a run that ends with no reference left has given back exactly what it handed out and leaves an empty table |
| `Mref.StartIsSound` | src/lib/core/mref.c:58-69 | the empty table meets the invariant |
| `MrefCalls.CallBegins` | src/lib/core/mref.c:85-187 | a thread takes on exactly the call it is given: the block allocated is live, the reference given up is no longer held, nothing else changes |
| `MrefCalls.CountTells` | src/lib/core/mref.c:119-278 | counting up makes the caller a holder, counting down or looking makes nobody one; the answer is the number of references there then are, held or on their way to being given up |
| `MrefCalls.RefsStay` | src/lib/core/mref.c:85-249 | no step outside counting up, inserting and starting to give up touches the references |
| `MrefCalls.CallsEnd` | src/lib/core/mref.c:85-249 | a step of a thread inside a call that does not wait for a lock brings the calls nearer their end |
| `MrefCalls.RunEnds` | src/lib/core/mref.c:85-249 | a run without new calls and waits ends: it has at most eleven steps a thread |
| `MrefCalls.SomeoneMoves` | src/lib/core/mref.c:116-246 | while some thread is inside a call there is one that waits for no lock: the slots' locks cannot block each other |
| `TicketLock.TrackIsStep` | src/incl/ticket_lock.h:19-51 | every atomic step on the 16-bit words is the unbounded step seen modulo 2^16 |
| `TicketLock.StepKeeps` | src/incl/ticket_lock.h:19-51 | the invariant survives every step as long as no more than 2^16 threads hold or wait |
| `TicketLock.OneInside` | src/incl/ticket_lock.h:19-41 | mutual exclusion |
| `TicketLock.InOrder` | src/incl/ticket_lock.h:19-41 | threads enter in the order of their tickets |
| `TicketLock.SomeoneMoves` | src/incl/ticket_lock.h:44-51 | while somebody waits, the holder or the first in line can move |
| `TicketLock.RunKeeps` | src/incl/ticket_lock.h:19-51 | over every such run, of any length, the words follow |
| `TicketLock.StartIsSound` | src/incl/ticket_lock.h:11-16 | the free lock meets the invariant |
| `TicketLock.TwoInside` | src/incl/ticket_lock.h:19-51 | for every number of threads above 2^16: a run after which two are inside at once |
| `TicketLock.ExcludesExactly` | src/incl/ticket_lock.h:19-51 | no run of n threads has two inside if and only if n <= 2^16 |
| `SlabInit.Init` | src/lib/core/slab.c:89-164 | what comes of any memory and size: refused, a page area past the end, no page, or a valid empty pool; its pages are all that fit between their start and the end of the memory, and they start less than a page behind the head and a descriptor for every page hoped for |
| `SlabInit.PagesFit` | src/lib/core/slab.c:146-157 | the pages the free list is told of lie inside the memory exactly when the page area begins there |
| `SlabInit.KeptIs` | src/lib/core/slab.c:146-157 | the pages kept are those that fit behind their start, never more than there are descriptors for |
| `SlabInit.TooManyPages` | src/lib/core/slab.c:146-157 | a pool of one page at an unlucky address is told of 2^32 - 1 pages |
| `Slab.SlabPool.constructor` | src/lib/core/slab.c:122-157 | one free run of all the pages, every list empty, nothing live |
| `Slab.SlabPool.Alloc` | src/lib/core/slab.c:180-396 | 0, and then there was no room; or an address that was not live, of a block of the length computed; or, for a page count cut to zero, marks past the last descriptor |
| `Slab.BlockSuffices` | src/lib/core/slab.c:189-200 | the block is as long as asked for exactly when the page count fits the 32 bits it is passed in |
| `Slab.CountIsCut` | src/lib/core/slab.c:189-200 | 2^44 + 4096 bytes get one page, 2^44 bytes none |
| `Slab.ShiftOf` | src/lib/core/slab.c:202-212 | the loop finds the smallest chunk size that holds the request |
| `Slab.SlabPool.AllocPages` | src/lib/core/slab.c:604-647 | the first n pages of a free run of at least n, or none when there is no such run |
| `Slab.SlabPool.AllocChunk` | src/lib/core/slab.c:214-383 | a chunk of the size class that was not live; without one, no free page and no free chunk of that class is left |
| `Slab.SlabPool.AllocFromPage` | src/lib/core/slab.c:330-383 | a free page cut for the class, its first usable chunk handed out |
| `Slab.SlabPool.TakeChunk` | src/lib/core/slab.c:217-328 | a free chunk of the first page of the list; a page with none left leaves the list |
| `Slab.SlabPool.MarkChunk` | src/lib/core/slab.c:223-327 | the bit of a chunk that was free is set and no other, under all three encodings, and `full` tells whether it was the last |
| `Slab.SlabPool.CutPage` | src/lib/core/slab.c:333-382 | the page is cut with its own bitmap marked as taken where the bitmap is in the page |
| `Slab.SlabPool.Dealloc` | src/lib/core/slab.c:410-590 | the pointer of a live block frees that block and no other; any other pointer into the pages, even the first page of a free run, leaves the live blocks and a valid pool, short of one into a bitmap |
| `Slab.SlabPool.DeallocRun` | src/lib/core/slab.c:546-571 | a used run becomes a free one; a free run given back once more moves to the front of the free list and nothing else changes |
| `Slab.Strays` | src/lib/core/slab.c:419-560 | on every new pool the first page of the free run passes the checks, and once eight bytes are out so does the start of their page, and neither is a block |
| `SlabPlan.RunAgain` | src/lib/core/slab.c:662-684 | a free run taken off the free list and put in front keeps the invariant |
| `Slab.SlabPool.Admits` | src/lib/core/slab.c:419-560 | the checks pass exactly live blocks and strays |
| `Slab.SlabPool.FreeChunk` | src/lib/core/slab.c:425-545 | the chunk is free again; a full page returns to its list, an emptied one to the free pages |
| `Slab.SlabPool.ClearChunk` | src/lib/core/slab.c:439-534 | the bit of that chunk is cleared and no other |
| `Slab.SlabPool.IsEmpty` | src/lib/core/slab.c:453-538 | the test for an empty page is right under all three encodings |
| `Slab.SlabPool.Relist` | src/lib/core/slab.c:440-449 | the page is first on the list of its class |
| `Slab.SlabPool.DeallocPages` | src/lib/core/slab.c:662-684 | the run is first on the free list and off the list it was on |
| `Slab.SlabPool.DeallocEmpty` | src/lib/core/slab.c:471-473 | an emptied chunk page becomes a free run, and nothing live changes |
| `Slab.SlabPool.BlocksSound` | src/lib/core/slab.c:180-684 | the live blocks are disjoint, inside the page area, aligned to their size and clear of every in-page bitmap |
| `SlabLive.BlocksApart` | src/lib/core/slab.c:180-684 | no two blocks overlap |
| `SlabLive.BitmapClear` | src/lib/core/slab.c:333-360 | no live block touches the bitmap of a page of small chunks |
| `SlabLive.LiveMoves` | src/lib/core/slab.c:180-684 | an operation that makes one block come and one go changes the map of live blocks by exactly those |
| `SlabLive.PointerTells` | src/lib/core/slab.c:419-470 | a pointer is at a chunk exactly when the address of that chunk is the pointer |
| `SlabPlan.MarkedKeeps` | src/lib/core/slab.c:223-323 | a chunk taken or given back while another stays free keeps the invariant |
| `SlabPlan.MarkedFills` | src/lib/core/slab.c:236-316 | the last chunk taken and the page unlinked keeps it |
| `SlabPlan.MarkedReturns` | src/lib/core/slab.c:440-449 | a chunk given back to a full page relinks the page |
| `SlabPlan.CutKeeps` | src/lib/core/slab.c:330-383 | a page cut and put on an empty list keeps it |
| `SlabPlan.SplitCarves` | src/lib/core/slab.c:611-618 | the first pages of a longer run taken: the rest takes its place in the free list |
| `SlabPlan.WholeCarves` | src/lib/core/slab.c:619-623 | a run taken whole leaves the free list |
| `SlabPlan.RunReleases` | src/lib/core/slab.c:662-684 | a run given back is a free run, and free and used runs still cut up the page array |
| `SlabPlan.PageReleases` | src/lib/core/slab.c:662-684 | a chunk page given back leaves its list and is a free run |
| `SlabLinks.Unlinked` | src/lib/core/slab.c:619-623 | joining its neighbours takes a page off a doubly linked list |
| `SlabLinks.Pushed` | src/lib/core/slab.c:678-683 | a page put behind the head is first on the list |
| `SlabLinks.Replaced` | src/lib/core/slab.c:611-618 | a page put between the neighbours of another takes its place |
| `SlabShape.Marked` | src/lib/core/slab.c:223-307 | setting or clearing the bit of a chunk changes that chunk only, under all three encodings |
| `SlabShape.FullSmall` | src/lib/core/slab.c:236-250 | a page of small chunks is full exactly when its bitmap words are all ones |
| `SlabShape.FullExact` | src/lib/core/slab.c:268-278 | a page of exact chunks is full exactly when its word is all ones, empty exactly when it is zero |
| `SlabShape.FullBig` | src/lib/core/slab.c:291-316 | a page of big chunks is full or empty exactly when the upper half of its word is the mask or zero |
| `SlabShape.EmptySmall` | src/lib/core/slab.c:453-471 | a page of small chunks is empty exactly when only the bits of its own bitmap are set |
| `XmlAccept.ReadsTheGrammar` | src/lib/core/xml_comm.c:243-324 | a text is read exactly when nodes of the grammar spell it: properly nested elements whose end tags bear their names, comments, version lines and white space, no deeper than the stack; and however it is spelled out, the tree is the one those nodes mean |
| `XmlAccept.NodesRead` | src/lib/core/xml_comm.c:243-324 | from any state, nodes spelled at the place reached are read, and the open element gets exactly the elements they mean |
| `XmlAccept.Recover` | src/lib/core/xml_comm.c:243-324 | from any state a text that is read was spelled: nodes inside each open element, with the end tags of those very elements in between |
| `XmlAccept.OnlyMeaning` | src/lib/core/xml_comm.c:243-324 | two texts spelled by nodes of the same meaning are read alike |
| `XmlAccept.NothingMeant` | src/lib/core/xml_comm.c:337-446 | comments, version lines and white space between tags mean nothing wherever they stand |
| `XmlAccept.EitherQuote` | src/lib/core/xml_comm.c:710-873 | an attribute means the same in single and in double quotes |
| `XmlAccept.EndRead` | src/lib/core/xml_comm.c:538-576 | an end tag closes the element whose name it bears |
| `XmlTokens.HeadScan` | src/lib/core/xml_comm.c:593-661 | a start tag that may be written is read as its name and attributes |
| `XmlTokens.ScanHead` | src/lib/core/xml_comm.c:593-661 | a start tag that is read may be written |
| `XmlTokens.PairRead` | src/lib/core/xml_comm.c:710-873 | an attribute that may be written is read as its name and value, with white space wherever it is allowed |
| `XmlTokens.ScanPair` | src/lib/core/xml_comm.c:710-873 | an attribute that is read may be written |
| `XmlTokens.InnerRead` | src/lib/core/xml_comm.c:944-1063 | what may stand before the first tag inside an element is read as its value or as none |
| `XmlTokens.ScanInner` | src/lib/core/xml_comm.c:944-1063 | a value that is read may be written |
| `XmlTokens.NoteRead` | src/lib/core/xml_comm.c:424-446 | a comment without two dashes in a row is passed over |
| `XmlTokens.ScanNote` | src/lib/core/xml_comm.c:424-446 | a comment that is passed over has no two dashes in a row and is closed |
| `XmlTokens.VersionRead` | src/lib/core/xml_comm.c:337-411 | a version line of attributes is passed over |
| `XmlTokens.ScanVersion` | src/lib/core/xml_comm.c:337-411 | a version line that is passed over has well-formed attributes, no white space before their signs, and its end |
| `XmlTrip.ParseOfText` | src/lib/core/xml_comm.c:243-324 | printing a forest of well-formed trees, packed or laid out, and parsing gives the forest back, for every forest within the stack depth |
| `XmlTrip.ElemRead` | src/lib/core/xml_comm.c:479-576 | parsing the text of an element appends that element to the open one, whatever follows |
| `XmlTrip.AttrsRead` | src/lib/core/xml_comm.c:710-873 | the text of attributes reads back as those attributes |
| `XmlTrip.StartRead` | src/lib/core/xml_comm.c:593-661 | the text of a start tag reads back as its name and attributes |
| `XmlTrip.ValueRead` | src/lib/core/xml_comm.c:944-1063 | the text of a value reads back as that value |
| `XmlTrip.TextIsUnique` | src/lib/core/xml_print.c:413-610 | no two forests of well-formed trees are printed alike, even in different layouts |
| `XmlReader.Reader.constructor` | src/lib/core/xml_comm.c:142-170 | an empty root and nothing open |
| `XmlReader.Reader.ParseAll` | src/lib/core/xml_comm.c:243-324 | succeeds exactly when the text is read by the parser as a function, and then the linked nodes in memory are the tree it gives, with nothing left open |
| `XmlReader.Reader.ParseRound` | src/lib/core/xml_comm.c:262-318 | one round at a bracket is one step of that language |
| `XmlReader.Reader.ParseMark` | src/lib/core/xml_comm.c:479-524 | a tag: the element, with its name, attributes and value, is the last child of the open one |
| `XmlReader.Reader.ParseEnd` | src/lib/core/xml_comm.c:538-576 | an end tag closes the open element exactly when the names agree |
| `XmlReader.Reader.ParseVersion` | src/lib/core/xml_comm.c:337-411 | a version line is skipped exactly when it is well formed |
| `XmlReader.Reader.ParseNote` | src/lib/core/xml_comm.c:424-446 | a comment is skipped exactly when it is closed |
| `XmlReader.Reader.GetName` | src/lib/core/xml_comm.c:593-661 | the new node is linked and pushed; the name is the run of name characters |
| `XmlReader.Reader.GetAttr` | src/lib/core/xml_comm.c:710-873 | the attributes read are at the end of the node's list, in order |
| `XmlReader.Reader.GetValue` | src/lib/core/xml_comm.c:944-1063 | the value is the text up to the bracket without the white space before it |
| `XmlBuild.ChildJoins` | src/lib/core/xml_comm.c:606-628 | linking a new last child leaves a tree in memory with that child added |
| `XmlBuild.AttrJoins` | src/lib/core/xml_comm.c:845-852 | linking a new last attribute leaves a tree with that attribute added |
| `XmlNodes.Frame` | src/lib/core/xml_comm.c:593-873 | a subtree is untouched by writes to nodes elsewhere |
| `XmlNodes.PutKeeps` | src/lib/core/xml_comm.c:593-873 | a change at the innermost open element that leaves a tree there leaves one everywhere |
| `XmlPrint.PrintTree` | src/lib/core/xml_print.c:569-610 | the explicit-stack walk prints exactly the text of the recursive printer, and succeeds exactly when the tree is within the stack depth; the nodes are unchanged |
| `XmlPrint.PrintNext` | src/lib/core/xml_print.c:495-551 | the step to the next element prints the end tags due in between |
| `XmlPrint.PrintHead` | src/lib/core/xml_print.c:413-477 | name, attributes and value of one element |
| `XmlPrint.PrintAttrs` | src/lib/core/xml_print.c:420-431 | the attributes from the cursor on, which stops at the first child element |
| `XmlPrint.GoesDown` | src/lib/core/xml_print.c:500-505 | going down to the first child leaves exactly the rest of the text to print |
| `XmlPrint.GoesOn` | src/lib/core/xml_print.c:509-550 | going on to the next child leaves exactly the rest of the text to print |
| `XmlPrint.Ends` | src/lib/core/xml_print.c:509-550 | closing an element prints its end tag when it has one and leaves exactly the rest of the text to print |
| `XmlLayout.TextIsLines` | src/lib/core/xml_print.c:617-804 | packed and laid out, what is printed is the same tags in the same order: run together, or each on its line behind one tab less than its depth |
| `XmlLayout.Deeper` | src/lib/core/xml_print.c:617-804 | a tag stands as much deeper as its element lies below |
| `XmlLength.TreeLen` | src/lib/core/xml_comm.c:1362-1404 | the length walk succeeds exactly when printing does and returns the number of characters printed |
| `XmlLength.NextLen` | src/lib/core/xml_comm.c:1269-1348 | the step of the length walk adds the length of the end tags due in between |
| `XmlLength.AttrsLen` | src/lib/core/xml_print.c:209-222 | the length of the attributes |
| `XmlLength.ValueLen` | src/lib/core/xml_print.c:247-267 | the length of a value with the brackets around it |
| `XmlLength.CountThenPrint` | src/lib/core/xml_print.c:366-410 | counting and printing succeed together and agree, in both layouts |
| `XmlWhole.PrintAll` | src/lib/core/xml_tree.c:337-407 | printing all children of the root is the text of the forest |
| `XmlWhole.PrintAndRead` | src/lib/core/xml_tree.c:379-407 | a tree in memory printed and parsed again is the same tree in memory |
| `XmlWhole.ReadText` | src/lib/core/xml_tree.c:121-159 | a text gives a tree in memory exactly when nodes of the grammar spell it, and the linked nodes are then the tree those nodes mean |
| `Kmp.Matcher.GenNext` | src/demo/kmp/kmp.c:15-43 | the loop ends with the optimised table: each entry the longest border followed by another character; and whether the entries lie in the bytes allocated |
| `Kmp.Matcher.Match` | src/demo/kmp/kmp.c:91-111 | the first occurrence of the pattern, or -1 exactly when there is none, for every text |
| `Kmp.Matcher.constructor` | src/demo/kmp/kmp.c:57-76 | the table is right for every pattern, the empty one included, and never lies in the bytes allocated for it |
| `Kmp.EntryFits` | src/demo/kmp/kmp.c:20 | an entry lies in the allocation exactly when it is in the first quarter of the table |
| `Kmp.NextOfBorder` | src/demo/kmp/kmp.c:32-36 | a border followed by the same character passes on its own entry |
| `Kmp.CandidateFallsBack` | src/demo/kmp/kmp.c:37-39 | falling back through the table misses no border |
| `Kmp.MismatchSkips` | src/demo/kmp/kmp.c:100-102 | the jump after a mismatch passes no occurrence |
| `Timer.TimerQueue.constructor` | src/lib/core/timer.c:20-41 | the new heap is empty |
| `Timer.TimerQueue.Start` | src/lib/core/timer.c:124-169 | the heap gains the entry and stays one, or is unchanged when it cannot grow; the note of the entry's own place is right, and all notes stay right exactly when it did not rise |
| `Timer.TimerQueue.SiftUp` | src/lib/core/timer.c:152-164 | rising from the end restores the order; the entry ends where its note says, at the end exactly when the one above is due no later |
| `Timer.TimerQueue.SiftDown` | src/lib/core/timer.c:196-223 | sinking restores the order, with the root's single child at place 1; with notes, all are right at the end exactly when a place is below the one reached |
| `Timer.TimerQueue.Pop` | src/lib/core/timer.c:182-228 | an entry due no later than any other, and only that one, is gone; the notes stay right exactly when nothing is left |
| `Timer.TimerQueue.Stop` | src/lib/core/timer.c:242-298 | found exactly when the entry stands where its note says; then it alone is gone, the order survives exactly when the last entry is due no sooner than the one above the gap, and the notes exactly when that entry ends above a child or nothing moved |
| `Timer.StopMisses` | src/lib/core/timer.c:242-255 | a run at whose end an entry that is queued is not found |
| `Timer.StopBreaks` | src/lib/core/timer.c:266-294 | a run at whose end an entry is taken out and the heap is out of order |
| `Timer.ComeInOrder` | src/lib/core/timer.c:124-169 | entries that come in the order of a heap stay where they come in |
| `Timer.Joins` | src/lib/core/timer.c:156-164 | an entry that rises leaves wrong the note of the one it pushed to the end; one that does not leaves all right |
| `Timer.LastMoved` | src/lib/core/timer.c:196-223 | the last entry, once moved without a note, has a wrong one |
| `Timer.Lands` | src/lib/core/timer.c:270-286 | the entry that sank is noted exactly when there is a place below it; at the bottom the note goes to the entry taken out |
| `Timer.TimerQueue.Grow` | src/lib/core/timer.c:128-145 | growing keeps every entry |
| `Timer.RootIsLeast` | src/lib/core/timer.c:182-196 | in a heap with root 0 over place 1 and parent i/2 the root is due first |
| `Timer.LeastChild` | src/lib/core/timer.c:202-214 | place 2 is looked at below the root too, and never picked, because a tie goes to the left |
| `LocalTime.LocalTime` | src/lib/core/redo.c:471-555 | the fields are the date by the every-fourth-year rule, and the Gregorian date exactly before 1 March 2100 |
| `LocalTime.RightUntil` | src/lib/core/redo.c:471-555 | the two calendars give the same fields exactly before that moment |
| `LocalTime.YearOf` | src/lib/core/redo.c:494-524 | the loop over years ends within the four-year cycle with the hours left of the year |
| `LocalTime.MonthOf` | src/lib/core/redo.c:529-554 | the loop over months ends within the year with the day of the month |
| `Md5.DigestPieces` | 3rd/crypt/md5.c:116-180 | however a message is cut, the compression function is fed exactly the padded message of sections 3.1 and 3.2 of RFC 1321 |
| `Md5.Context.constructor` | 3rd/crypt/md5.c:101-110 | a new context stands for the empty message |
| `Md5.Context.Update` | 3rd/crypt/md5.c:116-151 | the context stands for the message with the piece appended |
| `Md5.Context.Feed` | 3rd/crypt/md5.c:131-151 | whole blocks go into the state, the rest into the buffer |
| `Md5.Context.FeedBlocks` | 3rd/crypt/md5.c:135-141 | the loop takes whole blocks as long as there are any |
| `Md5.Context.CountUp` | 3rd/crypt/md5.c:124-128 | the two words count the bits modulo 2^64, carry included |
| `Md5.Context.Final` | 3rd/crypt/md5.c:156-180 | the state is that of the whole padded message |
| `Md5.LoopEnds` | 3rd/crypt/md5.c:135-141 | the loop ends exactly when the buffer was empty or the piece is shorter than 2^32 less what the buffer holds |
| `Md5.GoesRound` | 3rd/crypt/md5.c:135-141 | otherwise its test holds at every place it comes to, and the places repeat |
| `Md5.NoEnd` | 3rd/crypt/md5.c:135-141 | one byte and then 2^32 - 1 bytes: it never ends |
| `Md5.Encode` | 3rd/crypt/md5.c:275-285 | words to bytes, lowest first |
| `Md5.Decode` | 3rd/crypt/md5.c:290-298 | bytes to words, lowest first |
| `Md5.WordsRoundTrip` | 3rd/crypt/md5.c:275-298 | the two undo each other |
| `Md5.PadIs` | 3rd/crypt/md5.c:162-170 | the padding and the length complete the padded message |
| `Digest.AbsorbMore` | 3rd/crypt/md5.c:116-151 | folding in more bytes needs only the state and the bytes left over |
| `Digest.PaddedIsWhole` | 3rd/crypt/md5.c:156-180 | the padded message is whole blocks, begins with the message, and is as short as can be |
| `Sha256.DigestPieces` | 3rd/crypt/sha256.c:68-158 | however a message is cut, refusal and digest depend on the whole only, and the digest is that of section 5.1.1 of FIPS 180-4 while the low count has its top bit clear |
| `Sha256.Hash.constructor` | 3rd/crypt/sha256.c:45-65 | a new hash stands for the empty message |
| `Sha256.Hash.Calculate` | 3rd/crypt/sha256.c:68-158 | refused exactly from 2^61 bytes on; otherwise the value is that of the padded message so far, with the length words as computed |
| `Sha256.Hash.FullBlocks` | 3rd/crypt/sha256.c:96-107 | whole blocks go into the state, the rest is left over |
| `Sha256.Hash.LastBytes` | 3rd/crypt/sha256.c:110-128 | the bytes left over are in both buffers, followed by zeroes |
| `Sha256.Hash.LastBlocks` | 3rd/crypt/sha256.c:130-149 | the closing bit and the length, in one block or in two |
| `Sha256.MessageIsPadded` | 3rd/crypt/sha256.c:147-148 | the padding is that of FIPS 180-4 exactly when the message length modulo 2^32 is below 2^31 |
| `Sha256.CountsAdd` | 3rd/crypt/sha256.c:80-87 | the two counts add up with the carry |
| `AccRsvr.Serve` | src/lib/access/acc_rsvr.c:722-810 | the messages are the complete frames, in order and however reads cut the stream, of the bytes before the connection ends, or the first of them up to the one that memory or the callback denies; and it counts as up exactly when no read found it closed, reset or failed and nothing was denied |
| `AccRsvr.Receiver.RecvData` | src/lib/access/acc_rsvr.c:722-810 | at every return what was delivered is all frames of the bytes read so far. Within a frame the code is that of the last event met: EAGAIN only where nothing is there to read, a close for the end of the stream and for a reset in a head, an error for the rest; between frames it is an error, and memory for the next or the callback's consent to the last was denied |
| `AccRsvr.Receiver.Head` | src/lib/access/acc_rsvr.c:603-637 | the head is complete, or the bytes so far are kept and the code is that of the last event: again, close for an end or a reset, error |
| `AccRsvr.Receiver.Body` | src/lib/access/acc_rsvr.c:653-683 | the body is complete, or the bytes so far are kept and the code is that of the last event: again, close for an end, error, for a reset too |
| `AccRsvr.Receiver.Post` | src/lib/access/acc_rsvr.c:699-707 | the frame is delivered and the receiver starts over, unless the callback refuses that frame |
| `AccRsvr.SplitIsUnique` | src/lib/access/acc_rsvr.c:722-810 | splitting is the only way to read a stream as frames followed by part of one |
| `AccRsvr.SplitIsWhole` | src/lib/access/acc_rsvr.c:722-810 | the frames and the rest, put together again, are the stream: splitting loses nothing |
| `AccRsvr.SplitGrows` | src/lib/access/acc_rsvr.c:722-810 | what has arrived of a stream splits into the first of its frames |
| `MemPool.Pool.constructor` | src/lib/core/mem_pool.c:29-50 | an empty pool of one block |
| `MemPool.Pool.Alloc` | src/lib/core/mem_pool.c:126-144 | an aligned chunk, apart from every chunk out, in the first block from `current` on that has room, or else in a new one; none exactly when no such block has room and there is no memory |
| `MemPool.Pool.Nalloc` | src/lib/core/mem_pool.c:158-176 | the same without alignment: the first block with room, else a new one, and none exactly when neither is to be had |
| `MemPool.Pool.AllocBlock` | src/lib/core/mem_pool.c:190-226 | none exactly without memory; otherwise a new last block serves the request, and every other block from `current` on has failed once more |
| `MemPool.Pool.CountFailures` | src/lib/core/mem_pool.c:213-223 | the blocks from `current` on have failed once more, and the search will begin behind the last of them that had failed more than four times before |
| `MemPool.Pool.Reset` | src/lib/core/mem_pool.c:94-112 | nothing is out any more, and every block is kept, empty again and with no failure counted |
| `MemPool.PassesIsRight` | src/lib/core/mem_pool.c:133-140 | the test for room is right for every place in a block exactly when the block ends on an alignment boundary |
| `Iovec.Wiov.constructor` | src/lib/core/iovec.c:28-46 | an empty vector of at most 1024 places |
| `Iovec.Init` | src/lib/core/iovec.c:28-46 | a vector exactly when there is memory for both arrays |
| `Iovec.Wiov.Add` | src/incl/iovec.h:50-63 | the item and its bytes are queued last |
| `Iovec.Wiov.Adjust` | src/lib/core/iovec.c:107-131 | after a write of n bytes exactly n bytes less are queued, every completed item is called back once and in order, and the next one has bytes left |
| `Iovec.Wiov.Clean` | src/lib/core/iovec.c:82-93 | every item left is called back as failed, once |
| `QuickSort.Once` | src/lib/core/quick_sort.c:66-95 | the first element ends at its place: none greater before it, none smaller behind, the stretch rearranged |
| `QuickSort.Sort` | src/lib/core/quick_sort.c:110-122 | the stretch is sorted and rearranged, the rest untouched |
| `QuickSort.QuickSort` | src/lib/core/quick_sort.c:37-51 | the array is sorted and has the elements it had |

## Left out

- RbTree, AvlTree and BTree keys are integers in their order; the comparison callbacks are not modelled.
- Counts of records are taken modulo 2^64; a freed node is one that is no longer in the tree's set of nodes.
- The printing, destroying and, for AVL, traversing functions of the trees would add only easier members.
- The B-tree's removal and merging are not modelled; buffers of a node are fixed-length sequence fields, and the
  allocator is taken to clear what it hands out.
- Ring: atomic steps are interleaved in one order (sequential consistency).
- RingFifo.RunRefines: runs in which a compare-and-set wins on a head come round, or an empty request stores a tail
  older than the one there, are excluded, since they can break the queue (`RingSafety.StepKeepsExactly`).
- RingFifo.RunDelivers: the same runs are excluded.
- Queue.PushNeverRefused: a head so old that the room reckoned from it runs over 32 bits is excluded.
- RingCreat.Power2: negative sizes are not modelled, as the shift the code makes for them is undefined in C.
- Queue.QueueCreat: negative sizes are not modelled either; destroying rings and queues is not.
- Mref: runs that count up past 2^32 - 1 are excluded (`MrefWrap.KeepsExactly`); `mref_init` and the hash table are a
  map with the locks the code takes; requests of size 0 and failed allocations leave the table as it is.
- Slab.SlabPool.Dealloc: pointers outside the page area, and those to the chunks that a bitmap takes up, are excluded
  by its precondition; `Slab.SlabPool.Admits` says exactly which pass the checks.
- Slab.SlabPool.Alloc: after marks that run past the last descriptor nothing more is said of the pool.
- SlabInit.Init: the memory is smaller than 16 TiB; a pool with no page goes no further.
- Slab: clearing the memory handed out, the log and the lock are not modelled; bitmaps of a page are at most 8 words.
- Timer: due times lie so close that their difference fits the 64 bits of the comparison; the thread that runs due
  tasks and the lock are not modelled.
- LocalTime.LocalTime: moments before 1970 at UTC+8 or from 2^32 hours on are excluded; `tm_yday` is not modelled.
- Md5.Context.Update: pieces on which the loop does not end (`Md5.LoopEnds`) are excluded.
- Md5.DigestPieces: the same pieces are excluded.
- Sha256.Hash.Calculate: one call gets less than 2^31 bytes, as the code counts them in an `int`.
- Sha256.DigestPieces: so does each piece.
- The compression functions of MD5 and SHA-256 and the writing out of the digest bytes are abstract; a block of
  SHA-256 is seen as 64 bytes, highest first.
- AccRsvr.Serve: a head has at least one byte and a frame fits the buffer; the buffer's reference count is reduced to
  there or not; memory and the callback answer by the number of the frame; after a close or an error the receiver is
  not used again. Sending is not modelled.
- Xml: the options `__XML_ESC_PARSE__`, `__XML_PACK_CMARK__` and `__XML_EITHER_CHILD_OR_VALUE__`, which are off;
  printing to a file, searching, editing and freeing; failed allocations; lengths beyond an `int`. What a failed parse
  leaves of the tree is not said. The packed and the laid out printers are one model with a style as parameter.
- Kmp: lengths are not negative, and the table is modelled with room for all its entries.
- MemPool.Pool.Alloc: sizes above the pool's largest, which go to `malloc`, are excluded, and so from `Nalloc`; the
  aligned chunks of `mem_pool_mem_align` are not modelled.
- MemPool.Pool.constructor: the size is a multiple of 8 and at least 56; the chain of blocks is a sequence.
- Iovec: the callbacks are a log of what was called. QuickSort compares integers.
- The shared-memory containers, the trie, hash tables, lists, sockets, logging, the message bus and the programs built
  on them are not part of this model.
