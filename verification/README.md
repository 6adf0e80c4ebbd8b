# Verified models of a collection of algorithms

The repository collects independent pieces of algorithmic code. This project models eight of them
in Dafny and proves what they are for:

* Paxos with a durable log (`mit_6.824/paxos.cc`, `mit_6.824/log.cc`): agreement in every run with
  lost, late and repeated messages and with crashing nodes, and recovery from the printed log.
* The in-memory B+ tree (`go_learn/b+tree_in_mem/btree/b+tree.go`): a finite map through all
  splits, steals and merges, its shape, the chain of leaves, and the range iterator, down to the
  nodes on the heap and their arrays.
* The Huffman coder (`huffman/huffman.cpp`): optimal codes and the file round trip.
* At-most-once RPC (`mit_6.824/rpc/rpc.cc`): the client's acknowledgement window and the server's
  reply window over an unreliable network.
* The cached lock protocol (`mit_6.824/lock_client_cache_rsm.cc`,
  `mit_6.824/lock_server_cache_rsm.cc`): mutual exclusion in every interleaving, and the state
  transfer of the lock table over the marshalling buffers.
* The KMP automaton (`string_match/kmp_dfa.cpp`), Floyd's shortest paths with 32-bit sums, from the
  road list to the printed route (`shortest_path/shortest_path.cpp`), and the page allocator (`diskbased_bplus_tree/arena.c`).

Code that changes state is written as classes and methods with loops, and each method is tied to a
specification function or predicate. What the program promises is proved about those functions:
for all inputs, or as an invariant of a step system and a theorem over all its runs. A step system
is a datatype of steps, a predicate `Enabled`, a function `Apply`, an invariant `Inv` that every
step keeps, and a predicate `IsRun` over sequences of states.

Where a property does not hold of the code as it is, there is a lemma with a concrete case, and the
property is proved under the exact condition:

* `acceptreq` does not look at the instance of a request. Agreement holds in all runs if and only
  if accept requests do not reach nodes that have committed (`AgreementNeedsTimelyAccepts`).
* `FindRange` yields the range if and only if the leaf that the lower bound is routed to has a key
  at or above it, or the range is empty (`ScanIsExactWhen`, `ScanMisses`). The iterator never meets
  an empty leaf if and only if the degree is at least 3 (`ScanNeedsDegreeThree`, `DegreeTwo`).
* The nodes of a B+ tree keep their sizes in all histories if and only if the degree is odd, and only
  then does no insertion ever run past the arrays of a node (`ShapeNeedsOddDegree`,
  `RoomNeedsOddDegree`; `DegreeFour` is a history of ten insertions). The contents are those of a
  finite map for every degree from 2 on.
* After a restart n_a <= n_h can fail for a node that has accepted nothing yet; it holds if and only
  if the node has accepted or promised a number, or the names left over from the instance before are
  in order (`PromiseInvariant`, `RestartMisorders`).
* Huffman coding gives a text back if and only if it has two different bytes and no byte 255
  (`FileRoundTrip`, `OneLetterIsLost`, `MarkedByteIsLost`).
* `add_reply` finds its entry if and only if the client has not acknowledged the call meanwhile,
  which it does when it gives up waiting (`AddReplyFindsEntry`, `LateReplyHasNoEntry`).
* A log reads back as written if and only if node names are single words and values have no line
  break (`LogRoundTrip`, `NameOfTwoWords`). `unmarshal_state` yields the table sent if and only if
  the server has no other locks (`TransferIsExactWhen`, `OldLockStays`).
* A release that is executed after its call has returned is harmless if and only if its client
  neither has the lock nor has been granted it for its call (`LateReleaseHarmlessWhen`,
  `LateReleaseBreaks`). Acquires may be executed late.
* With negative roads the distances are all right if and only if no walk of negative length is
  shorter than the road between its ends, and INT_MAX, which stands for no road, plus a negative
  road undercuts no walk (`FloydExactWhen`). The printed answers have a condition of their own
  (`AnswersRightWhen`). One negative road can be enough to fail (`OneNegativeRoad`,
  `EndlessRecursion`), and no negative lower bound on the lengths is enough (`RightFromZero`).
* A question about a name that is no city is answered correctly if and only if no earlier question
  has named it, since looking it up enters it (`LaterAnswerRightWhen`).
* The 32-bit test on the length of a string is exact if and only if index and length add up to less
  than 2^32 (`LengthTestIsExactWhen`, `AllOnesOverread`).
* `arena_alloc` hands out memory inside the block it found if and only if the request is for more
  than -8 bytes (`PlaceInsideWhen`).

## Model

| member | source | states |
|---|---|---|
| `PaxosAcceptor.AtLeastTotal` | mit_6.824/paxos.cc:18-28 | the order on proposal numbers is total and antisymmetric |
| `PaxosAcceptor.AtLeastTransitive` | mit_6.824/paxos.cc:18-28 | the order on proposal numbers is transitive |
| `PaxosAcceptor.GreaterIsNotAtLeast` | mit_6.824/paxos.cc:18-28 | `a > b` holds exactly if `b >= a` does not |
| `PaxosAcceptor.PrepareRecoverable` | mit_6.824/paxos.cc:266-290 | a prepare request logs what it changes: replaying the log still gives the acceptor |
| `PaxosAcceptor.AcceptRecoverable` | mit_6.824/paxos.cc:293-309 | an accept request keeps the acceptor recoverable from its log |
| `PaxosAcceptor.CommitRecoverable` | mit_6.824/paxos.cc:330-351 | a commit keeps the acceptor recoverable from its log |
| `PaxosAcceptor.RestartRecoverable` | mit_6.824/log.cc:17-58 | an acceptor that was read from a log is recoverable from it |
| `PaxosAcceptor.AcceptorServer.constructor` | mit_6.824/paxos.cc:240-259 | a starting acceptor is the replay of its log, plus instance 1 on the first node |
| `PaxosAcceptor.AcceptorServer.LogRead` | mit_6.824/log.cc:17-58 | reading records in order gives the replayed state |
| `PaxosAcceptor.AcceptorServer.PrepareReq` | mit_6.824/paxos.cc:266-290 | the new state and reply, and recoverability is kept |
| `PaxosAcceptor.AcceptorServer.AcceptReq` | mit_6.824/paxos.cc:293-309 | the new state and reply, and recoverability is kept |
| `PaxosAcceptor.AcceptorServer.CommitWo` | mit_6.824/paxos.cc:330-351 | the new state, and recoverability is kept |
| `PaxosAcceptor.AcceptorServer.DecideReq` | mit_6.824/paxos.cc:312-328 | the new state; false exactly where a check of the program fails |
| `Paxos.Majority` | mit_6.824/paxos.cc:60-72 | counts the members of the first list that occur in the second |
| `Paxos.MajoritiesMeet` | mit_6.824/paxos.cc:60-72 | two majorities of a list have a member in common |
| `Paxos.NumbersProposeOnce` | mit_6.824/paxos.cc:83-141 | at most one run with a given number reaches its accept phase, although numbers are not durable |
| `Paxos.ValueComesFromVote` | mit_6.824/paxos.cc:148-189 | a run above a chosen one takes its value from a vote at or above the chosen one |
| `Paxos.HigherRunsAgree` | mit_6.824/paxos.cc:90-189 | once a value is chosen, every run with a higher number proposes it |
| `Paxos.InvGivesAgreement` | mit_6.824/paxos.cc:90-189 | in a state with the invariant no two nodes have committed different values |
| `PaxosSafety.PromisedNumber` | mit_6.824/paxos.cc:279-309 | a number that a node has voted for, while the instance is open there, is at most the highest it has promised |
| `PaxosSafety.AcceptAtPromise` | mit_6.824/paxos.cc:301-306 | in a state with the invariant, an accept request that an open node does not refuse has the number n_h |
| `PaxosSafety.GotPromiseBest` | mit_6.824/paxos.cc:175-187 | the prepare loop keeps the value of the highest vote reported |
| `PaxosSafety.DeliverPrepareKeeps` | mit_6.824/paxos.cc:266-290 | answering a prepare keeps the invariant |
| `PaxosSafety.DeliverAcceptKeeps` | mit_6.824/paxos.cc:293-309 | answering an accept keeps the invariant, if it comes before the commit |
| `PaxosSafety.DecideCheckHolds` | mit_6.824/paxos.cc:312-328 | the checks in decidereq never fail, and what is committed was chosen |
| `PaxosSafety.GotOldKeeps` | mit_6.824/paxos.cc:175-178 | committing on an old-instance reply keeps the invariant |
| `PaxosSafety.CrashKeeps` | mit_6.824/log.cc:17-58 | a node that crashes at any point and reads its log keeps the invariant |
| `PaxosSafety.StepKeeps` | mit_6.824/paxos.cc:90-358 | every step of proposers, acceptors and the network keeps the invariant |
| `PaxosSafety.PaxosAgreement` | mit_6.824/paxos.cc:90-358 | in every run no two nodes commit different values for the instance, and no decide request fails its check |
| `PaxosSafety.PromiseInvariant` | mit_6.824/paxos.cc:279-309 | in every state of every run n_a <= n_h for a node that has accepted; for any node exactly if it has accepted or promised something, or the leftover names are in order |
| `PaxosSafety.AcceptsMatchPromise` | mit_6.824/paxos.cc:119-128 | in every state of every run an accept request succeeds exactly if its number is n_h, and then n_a becomes n_h |
| `PaxosSafety.LeftOverLog` | mit_6.824/log.cc:85-131 | requests after which the log of a node is a given one |
| `PaxosSafety.RestartMisorders` | mit_6.824/log.cc:37-39 | reading that log leaves n_h = (0, a) and n_a = (0, b), a state in which a run can start and n_a <= n_h fails |
| `PaxosSafety.CommittedStays` | mit_6.824/paxos.cc:330-351 | a committed value stays committed, whatever happens next |
| `PaxosLateAccept.LateAccept` | mit_6.824/paxos.cc:293-309 | a run in which an accept reaches a node that has committed, and two nodes commit different values |
| `PaxosLateAccept.AgreementNeedsTimelyAccepts` | mit_6.824/paxos.cc:293-309 | all runs agree if and only if accepts never reach nodes that have committed |
| `PaxosProposer.ProposerServer.SetN` | mit_6.824/paxos.cc:83-88 | the new number is above the acceptor's and above all earlier ones |
| `PaxosProposer.ProposerServer.Prepare` | mit_6.824/paxos.cc:148-189 | the nodes that promised, in order, and a value of highest number, as the steps of the step system collect them; an old-instance reply is committed and ends the loop |
| `PaxosProposer.ProposerServer.Accept` | mit_6.824/paxos.cc:192-216 | the nodes that accepted, in order |
| `PaxosProposer.ProposerServer.Run` | mit_6.824/paxos.cc:90-141 | accepts go to promisers only, decides to accepters only, each exactly after a majority; the outcome is the one that PaxosCall.CallIsSteps has for the step system |
| `PaxosCall.PrepareLoopIsSteps` | mit_6.824/paxos.cc:157-187 | the prepare loop, with anything going on between its turns, is a sequence of steps of the step system and collects what the program collects |
| `PaxosCall.AcceptLoopIsSteps` | mit_6.824/paxos.cc:196-215 | the accept loop likewise |
| `PaxosCall.DecideLoopIsSteps` | mit_6.824/paxos.cc:219-236 | the decide loop likewise; every node that accepted is sent the value |
| `PaxosCall.CallIsSteps` | mit_6.824/paxos.cc:90-236 | a whole call, with the ends of its phases and the decides, is a sequence of steps of the step system, and its run ends as the loops compute it from the answers |
| `PaxosCall.CallFromStart` | mit_6.824/paxos.cc:83-141 | the same from the moment at which the proposer takes its number |
| `PaxosCall.OldCallIsSteps` | mit_6.824/paxos.cc:174-177 | a call that an old-instance reply cuts short is a sequence of steps too |
| `PaxosLogText.LogRoundTrip` | mit_6.824/log.cc:17-58 | a log reads back as written if and only if every record is printable |
| `PaxosLogText.NameOfTwoWords` | mit_6.824/log.cc:41-43 | a promise to a node called "a b" does not read back |
| `PaxosLogText.CrashRecovery` | mit_6.824/log.cc:17-58 | after any requests, parsing and replaying the printed log gives the acceptor back, up to the node part of a zero number |
| `PaxosLogText.LogFile.LogInstance` | mit_6.824/log.cc:85-97 | appends the record of a decided instance |
| `PaxosLogText.LogFile.LogProp` | mit_6.824/log.cc:101-112 | appends the record of a promise |
| `PaxosLogText.LogFile.LogAccept` | mit_6.824/log.cc:117-131 | appends the record of a vote |
| `PaxosLogText.Stream.ReadWord` | mit_6.824/log.cc:26 | skips white space and reads a word, as the parser function does |
| `PaxosLogText.Stream.ReadNumber` | mit_6.824/log.cc:29 | reads a decimal number of 32 bits, or fails |
| `PaxosLogText.Stream.ReadLine` | mit_6.824/log.cc:30-31 | drops a character and reads a line |
| `PaxosLogText.LogRead` | mit_6.824/log.cc:17-58 | a new acceptor that reads a log file is the replay of the parsed records; false exactly if the text does not parse |
| `BTree.PutIsUpdate` | go_learn/b+tree_in_mem/btree/b+tree.go:111-131 | putting a pair into a sorted list is map update |
| `BTree.RemoveIsRemoval` | go_learn/b+tree_in_mem/btree/b+tree.go:157-182 | removing a key from a sorted list is map removal |
| `BTree.GetIsLookup` | go_learn/b+tree_in_mem/btree/b+tree.go:537-543 | searching a sorted list is map lookup |
| `BTreeBody.BodyCut` | go_learn/b+tree_in_mem/btree/b+tree.go:458-480 | the two halves of a split inner node are in order, with the middle key between them |
| `BTreeBody.BodyJoin` | go_learn/b+tree_in_mem/btree/b+tree.go:372-388 | two inner nodes joined around their separator are in order |
| `BTreeBody.OkOrdered` | go_learn/b+tree_in_mem/btree/b+tree.go:295-303 | all entries of a subtree are sorted and within the bounds of its separators |
| `BTreeInsert.InsertOk` | go_learn/b+tree_in_mem/btree/b+tree.go:545-556 | insertion keeps order, bounds and equal depth for every degree, and all sizes for odd ones; the tree grows exactly if the root splits |
| `BTreeInsert.InsertItems` | go_learn/b+tree_in_mem/btree/b+tree.go:545-556 | the entries after an insertion are the sorted list with the pair put in |
| `BTreeInsert.TakeChildLeaves` | go_learn/b+tree_in_mem/btree/b+tree.go:436-483 | shifts and splits above the leaves do not change the list of leaves |
| `BTreeDelete.StealFromRightOk` | go_learn/b+tree_in_mem/btree/b+tree.go:362-370 | a steal from the right keeps order and bounds, and for odd degrees sizes |
| `BTreeDelete.StealFromLeftOk` | go_learn/b+tree_in_mem/btree/b+tree.go:352-360 | a steal from the left keeps order and bounds, and for odd degrees sizes |
| `BTreeDelete.StealDoesNotSplit` | go_learn/b+tree_in_mem/btree/b+tree.go:206-211 | the insertion inside a steal finds room |
| `BTreeDelete.MergeOk` | go_learn/b+tree_in_mem/btree/b+tree.go:372-388 | a merge keeps order and bounds, and for odd degrees sizes |
| `BTreeDelete.RefillOk` | go_learn/b+tree_in_mem/btree/b+tree.go:319-349 | a child that became too small is put right by a steal or a merge; sizes for odd degrees |
| `BTreeDelete.DeleteOk` | go_learn/b+tree_in_mem/btree/b+tree.go:558-567 | deletion keeps order, bounds and equal depth for every degree, and all sizes for odd ones; the tree loses a level exactly if the root runs out of keys |
| `BTreeMeaning.StealFromRightEffect` | go_learn/b+tree_in_mem/btree/b+tree.go:213-218 | a steal keeps the entries in order and the leaves in the chain |
| `BTreeMeaning.StealFromLeftEffect` | go_learn/b+tree_in_mem/btree/b+tree.go:206-211 | a steal keeps the entries in order and the leaves in the chain |
| `BTreeMeaning.MergeEffect` | go_learn/b+tree_in_mem/btree/b+tree.go:220-235 | a merge keeps the entries in order and takes one leaf out of the chain |
| `BTreeMeaning.DeleteItems` | go_learn/b+tree_in_mem/btree/b+tree.go:558-567 | the entries after a deletion are the sorted list without the key; at most one leaf disappears, next to the one it was merged into |
| `BTreeMeaning.InsertIdsEffect` | go_learn/b+tree_in_mem/btree/b+tree.go:132-152 | at most one leaf appears, right after the one it was split from |
| `BTreeMap.RelinkKeepsChain` | go_learn/b+tree_in_mem/btree/b+tree.go:144-152 | the pointer writes of splits and merges keep next and prev in key order |
| `BTreeMap.FindRefines` | go_learn/b+tree_in_mem/btree/b+tree.go:537-543 | Find is map lookup |
| `BTreeMap.InsertRefines` | go_learn/b+tree_in_mem/btree/b+tree.go:545-556 | Insert is map update and keeps order and chain, for every degree from 2 on |
| `BTreeMap.DeleteRefines` | go_learn/b+tree_in_mem/btree/b+tree.go:558-567 | Delete is map removal and keeps order and chain, for every degree from 2 on |
| `BTreeMap.TreeRefinesMap` | go_learn/b+tree_in_mem/btree/b+tree.go:511-567 | after every sequence of operations on an empty tree of any degree from 2 on the contents are those of a finite map, and tree and chain are in order |
| `BTreeMap.OkHasRoom` | go_learn/b+tree_in_mem/btree/b+tree.go:123-131 | with all nodes below the degree, no insertion runs past an array |
| `BTreeMap.OddDegreeKeepsShape` | go_learn/b+tree_in_mem/btree/b+tree.go:511-567 | for odd degrees, after every sequence of operations all nodes but the root have between degree/2 and degree-1 keys, and no insertion runs past an array |
| `BTreeDegree.EvenDegreeUnderflows` | go_learn/b+tree_in_mem/btree/b+tree.go:458-463 | for every even degree, a number of ascending insertions after which an inner node has too few keys |
| `BTreeDegree.DegreeFour` | go_learn/b+tree_in_mem/btree/b+tree.go:458-463 | for degree 4 these are the insertions of 0 to 9 |
| `BTreeDegree.EvenDegreeOverflows` | go_learn/b+tree_in_mem/btree/b+tree.go:372-388 | for every even degree, a history with insertions and deletions after which an insertion runs past an array |
| `BTreeDegree.ShapeNeedsOddDegree` | go_learn/b+tree_in_mem/btree/b+tree.go:511-567 | all nodes keep their sizes in all histories if and only if the degree is odd |
| `BTreeDegree.RoomNeedsOddDegree` | go_learn/b+tree_in_mem/btree/b+tree.go:449-456 | no history leads to an insertion that runs past an array if and only if the degree is odd |
| `BTreeScan.ScanIsExactWhen` | go_learn/b+tree_in_mem/btree/b+tree.go:519-535 | a scan yields the pairs in [low, high) if and only if it has no lower bound, its bound finds a key in its leaf, or the range is empty |
| `BTreeScan.StoredKeyStarts` | go_learn/b+tree_in_mem/btree/b+tree.go:519-535 | a lower bound that is a stored key always works |
| `BTreeScan.ScanMisses` | go_learn/b+tree_in_mem/btree/b+tree.go:95-108 | a tree and a bound for which the scan misses entries |
| `BTreeStock.InsertStocked` | go_learn/b+tree_in_mem/btree/b+tree.go:458-463 | from degree 3 on, insertion leaves an entry in every leaf and a separator in every inner node |
| `BTreeStock.DeleteStocked` | go_learn/b+tree_in_mem/btree/b+tree.go:309-350 | deletion does so too, down to a root that is a leaf |
| `BTreeStock.DegreeTwo` | go_learn/b+tree_in_mem/btree/b+tree.go:319-349 | with degree 2, three insertions and a deletion after which one leaf of three is empty |
| `BTreeStock.ScanNeedsDegreeThree` | go_learn/b+tree_in_mem/btree/b+tree.go:593-608 | no leaf of several is empty in any history if and only if the degree is at least 3, so one step along the chain is enough |
| `BTreeApi.BPlusTree.constructor` | go_learn/b+tree_in_mem/btree/b+tree.go:511-516 | a new tree of any degree from 2 on is the empty map |
| `BTreeApi.BPlusTree.Insert` | go_learn/b+tree_in_mem/btree/b+tree.go:545-556 | on the heap: the nodes hold the tree value after the insertion, and the contents are updated at the key; with an odd degree for every tree, with an even one unless the program stops on a full node |
| `BTreeApi.BPlusTree.Delete` | go_learn/b+tree_in_mem/btree/b+tree.go:558-567 | on the heap: the nodes hold the tree value after the deletion, the key is gone and all else is as before |
| `BTreeApi.BPlusTree.Find` | go_learn/b+tree_in_mem/btree/b+tree.go:537-543 | the value stored for the key, if any |
| `BTreeApi.Locate` | go_learn/b+tree_in_mem/btree/b+tree.go:295-303 | the leaf object and slot that a key is routed to |
| `BTreeApi.FindMinLeaf` | go_learn/b+tree_in_mem/btree/b+tree.go:305-307 | the first leaf object of the chain |
| `BTreeApi.HeapChainIsLinks` | go_learn/b+tree_in_mem/btree/b+tree.go:144-152 | the next and prev pointers of the leaf objects are the links by leaf id that splits and merges rewrite |
| `BTreeApi.RangeCursor.constructor` | go_learn/b+tree_in_mem/btree/b+tree.go:519-535 | what lies ahead of a new cursor |
| `BTreeApi.RangeCursor.HasNext` | go_learn/b+tree_in_mem/btree/b+tree.go:593-608 | whether there is a next entry below the bound; stepping to the next leaf does not change what lies ahead |
| `BTreeApi.RangeCursor.Next` | go_learn/b+tree_in_mem/btree/b+tree.go:610-615 | yields the first entry ahead |
| `BTreeApi.Drain` | go_learn/b+tree_in_mem/btree/b+tree.go:593-615 | a cursor yields what lies ahead of it up to its bound |
| `BTreeApi.Scan` | go_learn/b+tree_in_mem/btree/b+tree.go:519-615 | FindRange and the whole iteration, with the condition under which the result is the range |
| `BTreeNodes.LeafNode.Position` | go_learn/b+tree_in_mem/btree/b+tree.go:95-108 | the first slot with a key at or above the one sought |
| `BTreeNodes.LeafNode.InsertKV` | go_learn/b+tree_in_mem/btree/b+tree.go:111-155 | in place what insertion does to a leaf value, with the pointers of a split |
| `BTreeNodes.LeafNode.Delete` | go_learn/b+tree_in_mem/btree/b+tree.go:157-172 | in place what removal does to the sorted entries |
| `BTreeNodes.LeafNode.DelByIndex` | go_learn/b+tree_in_mem/btree/b+tree.go:174-182 | closes the gap |
| `BTreeNodes.LeafNode.StealFromLeft` | go_learn/b+tree_in_mem/btree/b+tree.go:206-211 | in place what a steal does to two leaf values |
| `BTreeNodes.LeafNode.StealFromRight` | go_learn/b+tree_in_mem/btree/b+tree.go:213-218 | in place what a steal does to two leaf values |
| `BTreeNodes.LeafNode.MergeWithRight` | go_learn/b+tree_in_mem/btree/b+tree.go:220-235 | appends the right leaf and takes it out of the chain |
| `BTreeNodes.InternalNode.ChildFor` | go_learn/b+tree_in_mem/btree/b+tree.go:437-442 | the child that a key is routed to |
| `BTreeNodes.InternalNode.InsertChild` | go_learn/b+tree_in_mem/btree/b+tree.go:449-483 | puts in a separator and a child, and splits a full node |
| `BTreeNodes.InternalNode.SplitOff` | go_learn/b+tree_in_mem/btree/b+tree.go:458-480 | the middle key goes up, the rest falls into two |
| `BTreeNodes.InternalNode.DelKeyAndPtr` | go_learn/b+tree_in_mem/btree/b+tree.go:403-413 | closes the gaps of a key and a pointer |
| `BTreeNodes.InternalNode.StealFromLeft` | go_learn/b+tree_in_mem/btree/b+tree.go:352-360 | the separator comes down, the greatest key of the left node goes up, its last child moves over |
| `BTreeNodes.InternalNode.StealFromRight` | go_learn/b+tree_in_mem/btree/b+tree.go:362-370 | the separator comes down, the smallest key of the right node goes up, its first child moves over |
| `BTreeNodes.InternalNode.MergeWithRight` | go_learn/b+tree_in_mem/btree/b+tree.go:372-388 | keys and children of both with the separator between; fits the arrays if the keys do |
| `BTreeHeap.StandsAround` | go_learn/b+tree_in_mem/btree/b+tree.go:436-447 | a row of children holds its trees if and only if a part of it does and what is around it fits, with no object shared and the chain of leaves linked through |
| `BTreeHeap.InsertLeaf` | go_learn/b+tree_in_mem/btree/b+tree.go:111-155 | in the arrays of one leaf and its neighbours what insertion does to the leaf value |
| `BTreeHeap.InsertAmong` | go_learn/b+tree_in_mem/btree/b+tree.go:444 | the insertion into one child leaves the other children and the chain around it in order |
| `BTreeHeap.TakeIn` | go_learn/b+tree_in_mem/btree/b+tree.go:449-483 | a node takes in the right half of a split child; a split leaves two nodes that hold the two tree values |
| `BTreeHeap.InsertInner` | go_learn/b+tree_in_mem/btree/b+tree.go:436-483 | an inner node, its subtree and the chain after an insertion |
| `BTreeHeap.InsertKV` | go_learn/b+tree_in_mem/btree/b+tree.go:436-483 | the recursion over nodes: the objects hold what insertion does to the tree value, no object is shared, the leaves stay a doubly linked list, and only old or new objects are used |
| `BTreeHeapDelete.ChoiceFits` | go_learn/b+tree_in_mem/btree/b+tree.go:319-348 | every node that a repair works on has the room and the keys that its array operation needs, for every degree from 2 on |
| `BTreeHeapDelete.ChoiceIsRefill` | go_learn/b+tree_in_mem/btree/b+tree.go:319-348 | the four cases of a repair are those of the tree value |
| `BTreeHeapDelete.Choose` | go_learn/b+tree_in_mem/btree/b+tree.go:319-348 | which neighbour and which repair the program takes |
| `BTreeHeapDelete.FixLeaves` | go_learn/b+tree_in_mem/btree/b+tree.go:206-235 | steals and merges of two leaf objects, with the chain |
| `BTreeHeapDelete.StealInnerRight` | go_learn/b+tree_in_mem/btree/b+tree.go:362-370 | a steal between two inner nodes moves a subtree without touching it |
| `BTreeHeapDelete.StealInnerLeft` | go_learn/b+tree_in_mem/btree/b+tree.go:352-360 | a steal between two inner nodes moves a subtree without touching it |
| `BTreeHeapDelete.JoinInners` | go_learn/b+tree_in_mem/btree/b+tree.go:372-388 | a merge of two inner nodes |
| `BTreeHeapDelete.Repair` | go_learn/b+tree_in_mem/btree/b+tree.go:319-348 | two children are repaired and their parent takes note, in keys and pointers |
| `BTreeHeapDelete.SettleNode` | go_learn/b+tree_in_mem/btree/b+tree.go:318-349 | what follows the deletion in a child |
| `BTreeHeapDelete.DeleteKey` | go_learn/b+tree_in_mem/btree/b+tree.go:309-350 | the recursion over nodes: the objects hold what deletion does to the tree value, no object is shared or new, and the leaves stay a doubly linked list |
| `HuffmanOptimality.LowerBoundStep` | huffman/huffman.cpp:154-170 | a lower bound on all codes for the weights after merging two least ones gives one for the weights before |
| `HuffmanOptimality.TreeIsComplete` | huffman/huffman.cpp:136-171 | the depths of a binary tree fill Kraft's sum exactly and cost its path length |
| `HuffmanOptimality.BoundMet` | huffman/huffman.cpp:136-171 | a tree that meets the bound costs at most as much as any tree over the same letters and counts |
| `HuffmanTree.AdoptLinked` | huffman/huffman.cpp:154-170 | a new parent keeps the index array a forest of ascending indices |
| `HuffmanTree.BuildStep` | huffman/huffman.cpp:154-170 | merging the two lightest trees keeps the letters and the lower bound |
| `HuffmanTree.BuildEnd` | huffman/huffman.cpp:154-171 | the one tree left is a cheapest one over all letters |
| `HuffmanTree.PopMin` | huffman/huffman.cpp:155-160 | takes some node of least count out of the heap |
| `HuffmanTree.HuffmanEncoder.MakeLeaves` | huffman/huffman.cpp:138-148 | one leaf for each letter in order |
| `HuffmanTree.HuffmanEncoder.MergeAll` | huffman/huffman.cpp:150-170 | merges until one tree is left |
| `HuffmanTree.HuffmanEncoder.BuildTree` | huffman/huffman.cpp:136-171 | the tree has exactly the counted letters and no tree over them is cheaper |
| `HuffmanBits.BitVec.Add` | huffman/huffman.cpp:63-92 | adds a bit to the buffer |
| `HuffmanBits.BitVec.Output` | huffman/huffman.cpp:63-92 | writes bytes that pack the bits and empties the buffer |
| `HuffmanBits.BitStream.Get` | huffman/huffman.cpp:94-124 | takes the next bit, across chunks |
| `HuffmanBits.BitStream.Refill` | huffman/huffman.cpp:94-124 | reads the next chunk without losing or adding a bit |
| `HuffmanBits.PacksAppend` | huffman/huffman.cpp:63-92 | full chunks written one after the other pack the whole bit string |
| `HuffmanCodec.DescendAlongCode` | huffman/huffman.cpp:269-285 | following the code of a node from the root arrives at that node |
| `HuffmanCodec.DecodeAllBits` | huffman/huffman.cpp:269-285 | with two letters or more, decoding the codes of a text gives it back exactly if no byte is 255 |
| `HuffmanCodec.FewestBits` | huffman/huffman.cpp:186-216 | the bits written are the weighted path length of the tree |
| `HuffmanCodec.IntRoundTrip` | huffman/huffman.cpp:16-60 | integers are read back as written |
| `HuffmanCodec.NodeRoundTrip` | huffman/huffman.cpp:16-60 | tree nodes are read back as written |
| `HuffmanCodec.NodesRoundTrip` | huffman/huffman.cpp:254-267 | the node array is read back as written |
| `HuffmanCodec.ReadBack` | huffman/huffman.cpp:225-252 | all parts of a file are found where they were written |
| `HuffmanCodec.FileRoundTrip` | huffman/huffman.cpp:254-285 | decoding a coded file gives the text back if and only if it has two different bytes and none is 255 |
| `HuffmanLost.OneLetterIsLost` | huffman/huffman.cpp:186-216 | the file for the bytes 7, 7 decodes to nothing |
| `HuffmanLost.MarkedByteIsLost` | huffman/huffman.cpp:269-285 | the file for the bytes 255, 0 does not decode |
| `HuffmanCodec.CountLetters` | huffman/huffman.cpp:225-233 | how often each character occurs |
| `HuffmanCodec.Climb` | huffman/huffman.cpp:186-216 | the code of a leaf, backwards |
| `HuffmanCodec.EmitCode` | huffman/huffman.cpp:186-216 | adds a code, writing full buffers |
| `HuffmanCodec.EncodeLetters` | huffman/huffman.cpp:186-216 | the file gets the packed codes of the text |
| `HuffmanCodec.OutputTree` | huffman/huffman.cpp:173-184 | the file gets the number of nodes and the nodes |
| `HuffmanCodec.Encode` | huffman/huffman.cpp:225-252 | a cheapest tree for the counts, its path length in bits, and a file that decodes to the text exactly under the condition |
| `HuffmanCodec.ReadNodes` | huffman/huffman.cpp:254-267 | reads the node array |
| `HuffmanCodec.ReadLetter` | huffman/huffman.cpp:269-285 | walks from the root to a leaf |
| `HuffmanCodec.ReadText` | huffman/huffman.cpp:269-285 | decodes all bits of the stream |
| `HuffmanCodec.Decode` | huffman/huffman.cpp:287-297 | decodes a file as the specification does |
| `RpcClient.FrontIsPrefixEnd` | mit_6.824/rpc/rpc.cc:385-408 | the front of the window ends the largest prefix of finished ids |
| `RpcClient.ReportKeeps` | mit_6.824/rpc/rpc.cc:385-408 | reporting an id, even twice, keeps the front at the end of the finished prefix and never moves it back |
| `RpcClient.AckWindow.UpdateXidRep` | mit_6.824/rpc/rpc.cc:385-408 | the new window, with its front at the end of the finished prefix |
| `RpcClient.AckWindow.Compress` | mit_6.824/rpc/rpc.cc:402-407 | drops the front as long as its successor follows, also past repeated ids |
| `RpcServer.CheckMeans` | mit_6.824/rpc/rpc.cc:664-725 | FORGOTTEN exactly for acknowledged ids, NEW exactly for ids neither acknowledged nor in the window; no id twice |
| `RpcServer.CheckKeeps` | mit_6.824/rpc/rpc.cc:697-725 | exactly the acknowledged entries leave the window, and only a new one enters |
| `RpcServer.AddReplyKeeps` | mit_6.824/rpc/rpc.cc:732-750 | the entry of the id, and no other, gets the reply |
| `RpcServer.ReplyCache.Decide` | mit_6.824/rpc/rpc.cc:553-587 | a client with a nonce gets its window and is classified; one without is always NEW |
| `RpcServer.ReplyCache.CheckDuplicateAndUpdate` | mit_6.824/rpc/rpc.cc:664-725 | classification and new window of the client |
| `RpcServer.ReplyCache.StoreReply` | mit_6.824/rpc/rpc.cc:732-750 | the reply is stored, or there is no entry |
| `RpcServer.Erase` | mit_6.824/rpc/rpc.cc:697-706 | the entries above the acknowledged id, in order |
| `RpcSystem.StepKeeps` | mit_6.824/rpc/rpc.cc:189-750 | every step of clients, network and server keeps the invariant |
| `RpcSystem.AtMostOnce` | mit_6.824/rpc/rpc.cc:664-750 | in every run no call is started twice, no window holds an id twice, and all replies to a call carry what its one execution returned |
| `RpcSystem.DoneRepeatsReply` | mit_6.824/rpc/rpc.cc:708-719 | DONE returns the bytes stored for the call |
| `RpcSystem.OutstandingNotForgotten` | mit_6.824/rpc/rpc.cc:208-214 | every request has xid > xid_rep, and a call that is not finished at its client is never FORGOTTEN |
| `RpcSystem.AcknowledgesFinishedPrefix` | mit_6.824/rpc/rpc.cc:208-214 | in every run what a client acknowledges is the largest prefix of its finished ids |
| `RpcSystem.AddReplyFindsEntry` | mit_6.824/rpc/rpc.cc:732-750 | add_reply finds its entry if and only if the id has not been acknowledged |
| `RpcSystem.LateReplyHasNoEntry` | mit_6.824/rpc/rpc.cc:286-293 | a run in which the client gives up and add_reply does not find the entry |
| `Marshall.IntBack` | mit_6.824/rpc/rpc.cc:839-848 | a 32-bit number is read back as written, and nothing else is consumed |
| `Marshall.LongBack` | mit_6.824/rpc/rpc.cc:865-871 | a 64-bit number is read back as written |
| `Marshall.StringBack` | mit_6.824/rpc/rpc.cc:857-863 | a string is read back as written |
| `Marshall.Writer.RawByte` | mit_6.824/rpc/rpc.cc:777-787 | appends a byte, doubling a full buffer |
| `Marshall.Writer.RawBytes` | mit_6.824/rpc/rpc.cc:789-800 | appends bytes; the new capacity is always enough |
| `Marshall.Writer.PutInt` | mit_6.824/rpc/rpc.cc:839-848 | appends the big-endian bytes |
| `Marshall.Writer.PutLong` | mit_6.824/rpc/rpc.cc:865-871 | appends both halves |
| `Marshall.Writer.PutString` | mit_6.824/rpc/rpc.cc:857-863 | appends length and bytes |
| `Marshall.Scanner.RawByte` | mit_6.824/rpc/rpc.cc:912-921 | the next byte, or 0 and no longer ok |
| `Marshall.Scanner.GetInt` | mit_6.824/rpc/rpc.cc:961-969 | reads four bytes |
| `Marshall.Scanner.GetLong` | mit_6.824/rpc/rpc.cc:981-989 | reads both halves |
| `Marshall.LengthTestIsExactWhen` | mit_6.824/rpc/rpc.cc:1002-1006 | the 32-bit length test is the exact one if and only if index and length add up to less than 2^32 |
| `Marshall.AllOnesOverread` | mit_6.824/rpc/rpc.cc:1002-1006 | the length 2^32 - 1 at the beginning of a buffer passes the test, although the string is not there |
| `Marshall.Scanner.GetString` | mit_6.824/rpc/rpc.cc:991-1012 | reads a string, or is no longer ok, or reads outside of the buffer, and when each happens |
| `LockTransfer.TransferMerges` | mit_6.824/lock_server_cache_rsm.cc:229-243 | decoding a marshalled table merges it into the one that is there and consumes the bytes exactly |
| `LockTransfer.TransferIsExactWhen` | mit_6.824/lock_server_cache_rsm.cc:213-243 | an empty server gets the same table; any server does if and only if it has no other locks |
| `LockTransfer.OldLockStays` | mit_6.824/lock_server_cache_rsm.cc:229-243 | a server with another lock does not end up with the table sent |
| `LockTransfer.InfoBack` | mit_6.824/lock_server_cache_rsm.h:28-54 | an entry with its set of waiters is read back as written, in whatever order the set is listed |
| `LockTransfer.PutInfo` | mit_6.824/lock_server_cache_rsm.h:43-54 | writes an entry and each waiter once |
| `LockTransfer.GetInfo` | mit_6.824/lock_server_cache_rsm.h:28-41 | reads an entry; reads outside of the buffer only if the entry is not there in full |
| `LockTransfer.MarshalState` | mit_6.824/lock_server_cache_rsm.cc:213-227 | writes a listing of the whole table, each lock once; decoding it gives the table and uses up the bytes |
| `LockTransfer.UnmarshalState` | mit_6.824/lock_server_cache_rsm.cc:229-243 | reads a table, and tells whether the bytes were used up; reads outside of the buffer only if the bytes are not those of a table |
| `LockTransfer.Transfer` | mit_6.824/lock_server_cache_rsm.cc:213-243 | a table sent to an empty server arrives unchanged, and nothing outside of the buffer is read |
| `LockServer.GrantMeans` | mit_6.824/lock_server_cache_rsm.cc:112-188 | who is the holder after a grant, and when a grant was possible |
| `LockServer.RefusalMeans` | mit_6.824/lock_server_cache_rsm.cc:112-188 | a refusal leaves the holder alone and remembers the caller |
| `LockServer.Server.Acquire` | mit_6.824/lock_server_cache_rsm.cc:112-188 | the new table, the reply, and when the holder is to be revoked |
| `LockServer.Server.Release` | mit_6.824/lock_server_cache_rsm.cc:190-211 | the new table |
| `LockProtocol.Client.Acquire` | mit_6.824/lock_client_cache_rsm.cc:63-126 | the client's record up to the first call, and whether to call or to wait |
| `LockProtocol.Client.Release` | mit_6.824/lock_client_cache_rsm.cc:128-161 | keeps an unrevoked lock, gives back a revoked one |
| `LockProtocol.Client.RevokeHandler` | mit_6.824/lock_client_cache_rsm.cc:163-186 | marks the lock, and gives it back at once if it is free |
| `LockProtocol.Client.CallServer` | mit_6.824/lock_client_cache_rsm.cc:86-103 | each acquire call takes the shared counter as it is then; a retry flag that was waited for is reset |
| `LockProtocol.Client.AcquireReply` | mit_6.824/lock_client_cache_rsm.cc:86-110 | the record after the reply |
| `LockProtocol.Client.ReleaseReply` | mit_6.824/lock_client_cache_rsm.cc:149-157 | the record after the release call |
| `LockProtocol.Client.RetryHandler` | mit_6.824/lock_client_cache_rsm.cc:188-198 | sets the retry flag |
| `LockProtocol.ExecAcquireTable` | mit_6.824/lock_server_cache_rsm.cc:112-188 | an acquire never takes the lock from a client that has it, and answers OK only to the holder, also when executed again |
| `LockProtocol.AcquireTable` | mit_6.824/lock_server_cache_rsm.cc:112-188 | the same for an acquire executed at any time with any id |
| `LockProtocol.StepKeeps` | mit_6.824/lock_client_cache_rsm.cc:63-198 | every step of clients, server and messages keeps the invariant |
| `LockProtocol.MutualExclusion` | mit_6.824/lock_client_cache_rsm.cc:63-187 | in every run at most one client has a lock, and the server has it recorded as unavailable with that holder |
| `LockProtocol.FlushedBeforeGrant` | mit_6.824/lock_client_cache_rsm.cc:145-152 | when a lock is granted, dorelease has run at every other client since it had the lock |
| `LockLate.GoesKeeps` | mit_6.824/lock_server_cache_rsm.cc:112-211 | steps, acquires executed late and harmless releases executed late keep the invariant |
| `LockLate.LateReleaseHarmlessWhen` | mit_6.824/lock_server_cache_rsm.cc:190-211 | wherever a run has got to, executing an old release can lead to two clients having the lock if and only if its client has the lock or has been granted it for its call |
| `LockLate.HarmfulRelease` | mit_6.824/lock_server_cache_rsm.cc:190-211 | a run after which an old release is not harmless |
| `LockLate.LateReleaseBreaks` | mit_6.824/lock_server_cache_rsm.cc:190-211 | a run in which a release is executed again after its client has got the lock back, and two clients have the lock |
| `LockLate.ExclusionNeedsPromptReleases` | mit_6.824/lock_server_cache_rsm.cc:112-211 | with acquires executed late, all runs exclude each other if and only if releases are executed late only where they are harmless |
| `Kmp.Transition` | string_match/kmp_dfa.cpp:27-28 | the state alone decides the next state, whatever was read before |
| `Kmp.LaterColumn` | string_match/kmp_dfa.cpp:14-17 | a column is that of the restart state except for the matching character |
| `Kmp.BuildDfa` | string_match/kmp_dfa.cpp:7-21 | entry (c, j) is the length of the longest pattern prefix that ends the first j pattern characters followed by c |
| `Kmp.GreedyIsLeftmostDisjoint` | string_match/kmp_dfa.cpp:23-37 | the naive scan reports disjoint occurrences, and every occurrence is reported or begins inside a reported one |
| `Kmp.Search` | string_match/kmp_dfa.cpp:23-37 | reports exactly what the naive scan reports |
| `ShortestPath.WrapDetectsOverflow` | shortest_path/shortest_path.cpp:105 | on lengths that are not negative the test for a negative sum rejects exactly the sums that do not fit 32 bits |
| `ShortestPath.GuardOnAnyInts` | shortest_path/shortest_path.cpp:105 | which sums of two 32-bit integers pass the test; INT_MAX plus a negative length does |
| `ShortestPath.IdxIsRowMajor` | shortest_path/shortest_path.cpp:69 | the place of entry (i, j) in the flat table |
| `ShortestPath.NumberCity` | shortest_path/shortest_path.cpp:50-57 | gives a new city the next number and keeps the others |
| `ShortestPath.ReadLines` | shortest_path/shortest_path.cpp:44-59 | numbers all cities in order of appearance and translates the roads; gives up exactly at a length of INT_MAX |
| `ShortestPath.FilledIsTabled` | shortest_path/shortest_path.cpp:62-73 | entry (i, j) of the matrix is the last road read from city i to city j, or INT_MAX |
| `ShortestPath.CityGraph.FillTables` | shortest_path/shortest_path.cpp:62-80 | the matrix with the edges entered in order, and no intermediates |
| `ShortestPath.CityGraph.BuildGraph` | shortest_path/shortest_path.cpp:28-82 | the matrix of the roads read |
| `ShortestPath.CityGraph.Floyd` | shortest_path/shortest_path.cpp:98-111 | the tables that the loops leave, for all lengths; FloydExact and FloydText say when they are right |
| `FloydExact.OnlySmaller` | shortest_path/shortest_path.cpp:102-108 | entries only get smaller, and one that has its last value keeps its intermediate |
| `FloydExact.AcceptedSum` | shortest_path/shortest_path.cpp:105 | under the condition, whatever sum the test lets through is the true sum and backed by a walk that is no longer |
| `FloydExact.VisitCovers` | shortest_path/shortest_path.cpp:102-108 | under the condition, an entry that was offered a city exceeds no walk through the cities up to it |
| `FloydExact.SoundIsRight` | shortest_path/shortest_path.cpp:98-111 | under the condition each entry is the smaller of INT_MAX and the length of a shortest non-empty walk |
| `FloydExact.FloydExactWhen` | shortest_path/shortest_path.cpp:98-111 | for every 32-bit matrix all entries are right if and only if no walk of negative length is shorter than the road between its ends, and INT_MAX plus a negative road undercuts no walk |
| `FloydText.PathIsRecursion` | shortest_path/shortest_path.cpp:84-96 | what the recursion of path returns, and that it does not return |
| `FloydText.RecordedWalk` | shortest_path/shortest_path.cpp:84-96 | the recorded intermediates spell a real walk of exactly the recorded length |
| `FloydText.ToldIsWhole` | shortest_path/shortest_path.cpp:84-96 | where all that is printed is right, no recorded intermediate has a half without a path |
| `FloydText.PathsExactWhen` | shortest_path/shortest_path.cpp:84-111 | everything printed is right if and only if no walk of negative length is shorter than the road between its ends, and the walks that INT_MAX plus a negative road could hide are shorter or found before |
| `ShortestRoute.ToldIsCorrect` | shortest_path/shortest_path.cpp:134-145 | a reply is right for the matrix if and only if it is right for the roads read |
| `ShortestRoute.AnswersRightWhen` | shortest_path/shortest_path.cpp:28-145 | all questions about a road list are answered with a shortest route, or with "no path" exactly if every route is too long, if and only if its matrix meets the condition |
| `ShortestRoute.NotNegative` | shortest_path/shortest_path.cpp:28-145 | it does if no length is negative |
| `ShortestRoute.LaterAnswerRightWhen` | shortest_path/shortest_path.cpp:120-145 | in a list of questions an answer is right if and only if it is about two cities, or names one that is no city and was not asked for before |
| `ShortestRoute.HandleUserInput` | shortest_path/shortest_path.cpp:113-152 | the answers to a list of questions; an unknown name is entered as number 0 |
| `ShortestRoute.Solve` | shortest_path/shortest_path.cpp:28-163 | reading the roads, computing the tables and answering the questions, put together, for all lengths |
| `NegativeRoads.OneNegativeRoad` | shortest_path/shortest_path.cpp:105 | one road of any negative length above INT_MIN: the table ends up with a way from a city that no road leaves, and the path printed has "no path" inside |
| `NegativeRoads.EndlessRecursion` | shortest_path/shortest_path.cpp:84-96 | a road of length -5 from a city to itself: the recursion for a path from it never ends |
| `NegativeRoads.RightFromZero` | shortest_path/shortest_path.cpp:46 | all road lists with lengths from a bound on get the right table and the right answers if and only if the bound is not negative |
| `NegativeRoads.ThereAndBack` | shortest_path/shortest_path.cpp:98-111 | a matrix with a negative road that meets the condition |
| `NegativeRoads.LowestRoad` | shortest_path/shortest_path.cpp:105 | a single road of length INT_MIN meets it too |
| `Arena.InitialWellFormed` | diskbased_bplus_tree/arena.c:30-41 | the new page is one free block |
| `Arena.LiveDetermines` | diskbased_bplus_tree/arena.c:30-95 | the live blocks determine the whole page: tiled, with no two free blocks side by side |
| `Arena.AllReturned` | diskbased_bplus_tree/arena.c:70-95 | with everything returned the page is the initial one |
| `Arena.AllocateWellFormed` | diskbased_bplus_tree/arena.c:44-68 | an allocation keeps the page well formed and adds exactly the new block |
| `Arena.ReleaseUndoesAllocate` | diskbased_bplus_tree/arena.c:44-95 | returning a block right away restores the page |
| `Arena.Page.constructor` | diskbased_bplus_tree/arena.c:20-41 | an empty leaf whose page is one free block |
| `Arena.Page.Alloc` | diskbased_bplus_tree/arena.c:44-68 | the tail of the first block that is large enough; 0 exactly if none is; the words of live blocks and of the node header stay |
| `Arena.PlaceInsideWhen` | diskbased_bplus_tree/arena.c:51-64 | what is handed out lies inside the block found if and only if the request is for more than -8 bytes |
| `Arena.Page.FindPlace` | diskbased_bplus_tree/arena.c:76-80 | the list nodes on either side of a block |
| `Arena.Page.Free` | diskbased_bplus_tree/arena.c:70-95 | exactly the block leaves the live ones and the page stays well formed, joined on both sides; the words of the other live blocks and of the node header stay |
| `Arena.Page.LinkPlace` | diskbased_bplus_tree/arena.c:88-93 | links or swallows the returned block on the left |
| `Arena.Page.Write` | diskbased_bplus_tree/arena.c:64 | what the owner of a block writes does not disturb the page |

## Left out

- Paxos: one instance at a time, with nodes that have decided exactly the earlier instances; a list of nodes that is the same for all runs of the instance; proposed values that are not empty, since the program takes an empty value for none; the callback to the configuration layer.
- PaxosSafety.DeliverAcceptKeeps: assumes that an accept request reaches a node before it commits the instance. The program does not ensure it, and without it agreement fails (PaxosLateAccept.LateAccept).
- PaxosLogText.Stream.ReadNumber: reads digits only; a sign, which C++ streams accept, never occurs in a log.
- PaxosLogText.LogRead: stops where a record does not parse; the effect of a half-read record on the acceptor is not modelled.
- PaxosProposer.ProposerServer.Prepare: the answers of the other nodes are given in advance; PaxosCall.PrepareLoopIsSteps has the loop with everything that may go on between its turns.
- PaxosProposer.ProposerServer.Run: as PaxosProposer.ProposerServer.Prepare; see PaxosCall.CallIsSteps.
- BTreeApi.BPlusTree.Insert: with an even degree it is stated for insertions that find room; by BTreeDegree.RoomNeedsOddDegree there are others, on which the program stops with an index out of range.
- BTreeApi.RangeCursor.constructor: with degree 2 it is stated for trees in which no leaf of several is empty; from degree 3 on this always holds (BTreeStock.ScanNeedsDegreeThree).
- BTreeApi.Scan: as BTreeApi.RangeCursor.constructor; over an empty leaf the iterator would yield an unused slot.
- BTreeNodes.LeafNode.InsertKV: keys and values are one array of pairs; slots that are no longer used are not reset to zero values; node ids, which only label the printed graph, are ghost.
- BTreeApi.BPlusTree.constructor: degrees 0 and 1, with which the first or second insertion of a key already fails.
- BTree: keys are integers; the source also allows strings.
- HuffmanTree.PopMin: the heap functions of the C++ library are taken by contract, any node of least count.
- HuffmanCodec.Encode: texts of at most INT_MAX bytes, and files whose number of bits fits an int; beyond that the counters of the program overflow.
- HuffmanCodec.Decode: a run that prints for ever or reads outside the tree is a failed decoding here.
- RpcSystem: transaction ids and counters do not wrap around, client nonces are not 0, and servers do not restart; sockets, threads and timers are steps that may happen at any time.
- Marshall: the packing of request and reply headers, vectors and maps of other types, and sizes beyond 32 bits.
- Marshall.Scanner.GetString: what a read outside of the buffer yields, and what the reader does after it.
- LockTransfer.MarshalState: at most 2^32 locks, fewer than 2^31 waiters per lock and names shorter than 2^32 bytes.
- LockProtocol: the replicated server is one atomic service that executes a request one or more times before its call returns (LockLate.LateReleaseHarmlessWhen says what later executions would do); progress, the retryer and revoker threads and condition variables.
- LockServer.Server.Acquire: the branch for repeated requests uses the waiters of the lock, where the program uses a pointer that it has not set.
- Kmp.BuildDfa: non-empty patterns, and characters that are valid table indices (0 to 255).
- ShortestPath.CityGraph.Floyd: signed overflow wraps around.
- ShortestRoute.HandleUserInput: after a question whose path recursion does not end, or that reads the table of an empty road list, there are no further answers.
- Arena.Page.Alloc: requests for -8 bytes or less, for which the program writes behind the block it found (Arena.PlaceInsideWhen); the page is an array of 4-byte words.
- Arena.Page.Free: only blocks that are live, as the program demands of its callers.
- View changes of the replicated state machine, heartbeats and the configuration server, the file system client and server, the event-driven server and the Swift client: input and output and thread timing.
- The other trees (`b+tree/`, `btree/`, the memory-mapped ones), the on-disk lists of `db/`, the earlier lock variants, sorting and puzzle programs: they would only add easier members.
