# Verification of redbrouk

A Dafny model of an in-memory key/value store, with proofs. `dafny verify dfyconfig.toml` checks all of it.

The store has four layers, and so has the model:

1. **A red-black tree with parent pointers** (`SbtNodes`, `Shapes`, `Links`, `Repair`, `Removal`, `Order`, `RbTree`).
   Nodes are heap objects with parent, child, key and colour fields; NILNODE is one more object that all trees share,
   and deletion writes its parent field as the source does. Every tree has a ghost inductive shape. The two repair
   loops are functions on a shape with a hole (`Repair`), and the pointer loops are proved to compute them
   (`RbTree`). The state of the insert loop is "one red-red edge, at this node", that of the delete loop is "one
   subtree one black node short, at this node".
2. **An incrementally rehashed intrusive hash set** (`HashChains`, `IntrusiveHash`): two live tables over arrays of
   bucket chains, 64 nodes moved per operation. The hash function is any function from keys to numbers.
3. **A sorted set with two indexes** (`ScoreChains`, `TSet`, `TwoSets`): the same nodes by name in the hash set and by
   score in the tree, with the nodes of one score chained behind one tree node.
4. **Wire framing, the drain loop, the string commands, and the slot-reusing map** (`Wire`, `Connections`,
   `Commands`, `Service`, `SlotMap`).

Every class has a predicate `Valid` that all its operations keep, so what the contracts say holds over every run of
operations; `TwoSets` shows the same for several sorted sets, which share NILNODE. `Service` puts the commands behind
the wire. Methods are proved against functions of the old state; lemmas then say what those functions mean.

## Where the model departs from the text

At the places below the text contradicts what the code around it relies on. The model takes what is evidently meant
and names the line in a comment. The modules `TreeAsWritten`, `HashAsWritten`, `SetAsWritten` and `AsWritten` model the
text itself there: they show inputs that go wrong and exactly when the text does what is meant.

| text | what the text does | what the model does |
|---|---|---|
| src/sbtree.cpp:159 | takes NILNODE (key 0) for a node with the key 0 | tests real nodes only |
| src/sbtree.cpp:352 | steps from the root to NILNODE as its parent | a parent is not null and not NILNODE |
| src/sbtree.cpp:50, 75 | a rotation at a root below NILNODE writes NILNODE's child link | likewise |
| src/sbtree.cpp:248, 267 | a climb goes on through such a child link of NILNODE | likewise |
| src/sbtree.cpp:402-405, 472, 475-476 | leaves the root pointer behind | the root pointer follows Y and rotations at the root |
| src/sbtree.cpp:452 | leaves the loop after the red-sibling rotation | goes on, with a red parent |
| src/sbtree.cpp:470 | goes on at the grandparent | goes on at the parent |
| src/hash.cpp:102 | tests the address of a bucket | tests the bucket, as src/kvt_set.cpp:108-112 does |
| src/kvt_tset.cpp:39 | drops the rest of a chain | keeps it behind the new node |
| src/kvt_tset.cpp:76-84 | treats every node as the head of its chain | unlinks inner nodes from their chain |
| src/kvt_tset.cpp:156 | tests the end of a walk for null only | NILNODE ends it too |
| src/io.cpp:148 | copies new bytes to in_start | copies them to in_end |
| src/io.cpp:344-358 | reads an unset pointer when the key holds a string | overwrites the string |
| src/io.cpp:445-448 | keeps the first node as the head of the chain | the head follows the walk |

Everything else follows the text, also where it is surprising: `del` of a key that holds a sorted set removes it and
answers RES_OK with an error message, `emplace` does not look whether the key is there, and `tadd` ignores a last name
without a score.

## Model

| member | source | states |
|---|---|---|
| SbtNodes.SbtNode.constructor | src/kvt_tset.h:54 | a node starts red, without a parent, both children NILNODE |
| SbtNodes.SbtNode.Sentinel | src/sbtree.h:53 | NILNODE: black, key 0, all links null |
| RbTrees.RbTree.constructor | src/kvt_tset.h:26 | the empty tree (a null root) is a valid one |
| RbTrees.RbTree.Kept | src/sbtree.cpp:365 | a tree depends on its own nodes and root pointer only; what another tree below the same NILNODE does to NILNODE, its parent field above all, does not touch it |
| RbTrees.RbTree.RotateLeft | src/sbtree.cpp:42-62 | the memory after it is the old one with exactly the links of a left rotation changed, parent links included |
| RbTrees.RbTree.RotateRight | src/sbtree.cpp:66-87 | the mirror image |
| RbTrees.RbTree.Rotate | src/sbtree.cpp:42-87 | on a well-linked tree a rotation at any node is the rotation of the inductive tree there; nothing around it moves, and the sentinel is not written |
| Links.RotLinked | src/sbtree.cpp:42-87 | the link changes of a rotation turn a memory that represents one shape into one that represents the rotated shape, with all parent links right |
| Shapes.RotInorder | src/sbtree.cpp:42-87 | a rotation keeps the in-order sequence, whatever the colours |
| RbTrees.RbTree.Transplant | src/sbtree.cpp:113-123 | b takes the place of a below a's parent, and nothing else changes |
| RbTrees.RbTree.Descend | src/sbtree.cpp:132-138 | the search loop ends at the only place where the key can be, within Height steps |
| RbTrees.RbTree.SbtSearch | src/sbtree.cpp:128-141 | a node with the key is found exactly when some node in order has it; with n nodes, 2^steps is at most (n+1)^2 |
| Order.HeightBound | src/sbtree.cpp:319-477 | a red-black tree of n nodes is at most 2*log2(n+1) high |
| Order.BalIsPaths | src/sbtree.cpp:319-477 | the balance that the invariant speaks of recursively is: all paths out of the tree meet the same number of black nodes |
| RbTrees.RbTree.SbtInsert | src/sbtree.cpp:143-165 | the node is hung at its place exactly when no node has its key; otherwise not one field changes |
| RbTrees.RbTree.SbtRotate | src/sbtree.cpp:291-314 | the middle one of node, parent and grandparent comes up, in all four directions |
| Repair.RiseGood | src/sbtree.cpp:333-340 | rotating and recolouring removes the red-red edge and leaves a black subtree of the height that was there |
| Repair.RiseInorder | src/sbtree.cpp:333-340 | and keeps the in-order sequence |
| Repair.RecolorGood | src/sbtree.cpp:326-332 | recolouring keeps all black counts equal and moves the one red-red edge two levels up |
| RbTrees.RbTree.InsFixPass | src/sbtree.cpp:323-341 | one pass of the loop on pointers: it goes on at the grandparent after recolouring exactly when the uncle is red, else it ends after one rotation |
| Repair.InsFixGood | src/sbtree.cpp:319-342 | from one red-red edge at `node` the loop makes a tree that is red-black once its root is black, in the same order |
| Repair.InsFixRoot | src/sbtree.cpp:352-354 | afterwards the true root is the old root or its immediate parent, so that one step up is enough |
| RbTrees.RbTree.RbtFix | src/sbtree.cpp:319-342 | the pointer loop computes exactly the repair function of the lemmas |
| RbTrees.RbTree.RbtInsert | src/sbtree.cpp:344-357 | valid tree in, valid tree out; the in-order sequence is the sorted insertion of the node, or the key was there, NILNODE is returned and nothing changed |
| Repair.SiblingExists | src/sbtree.cpp:411-421 | at the start of every pass of the delete loop the sibling is a real node, and a red parent has a black sibling |
| Repair.RedParentGood | src/sbtree.cpp:423-441 | with a red parent one pass clears the shortage |
| Repair.RedSiblingGood | src/sbtree.cpp:442-453 | a red sibling does not: the shortage stays at `node`, whose parent is red now |
| Repair.RedNephewGood | src/sbtree.cpp:454-462 | a red nephew clears it |
| Repair.RedNieceGood | src/sbtree.cpp:463-467 | a red niece clears it |
| Repair.RecolorShort | src/sbtree.cpp:469-470 | with none of these the sibling turns red and the shortage is at the parent |
| Repair.DelFixGood | src/sbtree.cpp:408-477 | from exactly one subtree one black node short the loop makes a red-black tree in the same order |
| RbTrees.RbTree.LookAround | src/sbtree.cpp:412-421 | what the pass reads through pointers (side, sibling, niece, nephew and their colours) is what the shape says |
| RbTrees.RbTree.FixRedParent | src/sbtree.cpp:423-441 | the pointer work of that case, both sides; the root pointer follows a rotation at the root |
| RbTrees.RbTree.FixRedSibling | src/sbtree.cpp:442-453 | likewise |
| RbTrees.RbTree.FixRedNephew | src/sbtree.cpp:454-462 | likewise |
| RbTrees.RbTree.FixRedNiece | src/sbtree.cpp:463-467 | likewise |
| RbTrees.RbTree.DelFixPass | src/sbtree.cpp:411-473 | every pass starts with exactly one subtree one black node short; it ends the repair, or hands the shortage to a state with a strictly smaller measure |
| RbTrees.RbTree.RbtDelFix | src/sbtree.cpp:408-477 | the pointer loop ends with the tree of the repair function and the root pointer at its root |
| RbTrees.RbTree.LeftMost | src/sbtree.cpp:383-385 | the loop finds the leftmost node |
| RbTrees.RbTree.TakeOver | src/sbtree.cpp:389-399 | Y takes over parent, children and colour of the deleted node; its own old colour is reported |
| RbTrees.RbTree.DetachInner | src/sbtree.cpp:382-400 | deleting a node with two children up to the repair, also when Y is its right child |
| Removal.UnlinkedGood | src/sbtree.cpp:360-403 | before the repair exactly one subtree is one black node short when was_black, and nothing is wrong when not |
| Removal.DeletedGood | src/sbtree.cpp:360-477 | deleting any node of any red-black tree leaves a red-black tree whose in-order sequence is the old one minus that node |
| RbTrees.RbTree.DeletePointers | src/sbtree.cpp:360-406 | the pointer work computes exactly that tree, with the root pointer at its root |
| RbTrees.RbTree.RbtDelete | src/sbtree.cpp:360-477 | valid tree in, valid tree out, without exactly that node |
| RbTrees.RbTree.SbtWalkForw | src/sbtree.cpp:236-254 | from child and parent links alone: the in-order next node, none after the last; the climb ends |
| RbTrees.RbTree.SbtWalkBack | src/sbtree.cpp:255-273 | the in-order previous node, none before the first |
| RbTrees.RbTree.WalksUndo | src/sbtree.cpp:236-273 | b is next after a exactly when a is previous before b |
| RbTrees.RbTree.SbtWalk | src/sbtree.cpp:275-289 | k steps lead to the node k places on, a negative offset ~offset places back, or out of the tree; from no node they lead to none |
| RbTrees.RbTree.SbtAt | src/sbtree.cpp:220-234 | counting through the shared index finds place offset - index of the subtree, or passes over all its nodes |
| RbTrees.RbTree.SbtAtRoot | src/sbtree.cpp:216-219 | sbt_at(root, k) is the node at place k in order, that is, what k steps of sbt_walk from the leftmost node give |
| RbTrees.RbTree.SbtReplace | src/sbtree.cpp:196-214 | shape, colours, links and keys stay, only the identity of one node changes |
| Order.ReplacedFacts | src/sbtree.cpp:196-214 | such a change keeps a red-black search tree one |
| HashChains.MaskIsMod | src/hash.cpp:7 | hval & mask is hval modulo the bucket count, for every power of two |
| HashChains.CountIsPow2 | src/hash.h:48 | 8, and twice as much after every migration, is a power of two |
| HashChains.SizeIsSum | src/hash.h:37 | the size of a table is the number of its nodes |
| HashChains.SomeBucket | src/hash.cpp:100-105 | while prev.size > 0 a bucket at or after migrate_pos is not empty, so that the loop stays in range |
| IntrusiveHash.PushedOk | src/hash.cpp:6-12 | insertion puts a node that was in no chain into the bucket of its hash, once |
| IntrusiveHash.DroppedOk | src/hash.cpp:32-38 | removal through the slot that iht_get found takes exactly that node out, at the head of a bucket or further down |
| IntrusiveHash.IHTab.MkTable | src/hash.h:47-65 | a table of a power of two of empty buckets |
| IntrusiveHash.IHTab.Insert | src/hash.cpp:6-12 | bucket head, link and size change as PushedOk says |
| IntrusiveHash.IHTab.Get | src/hash.cpp:14-30 | the slot of a node with that hash value and key, or there is none in the whole table |
| IntrusiveHash.IHTab.Del | src/hash.cpp:32-38 | slot and size change as DroppedOk says |
| IntrusiveHash.LoadFactor | src/hash.cpp:82-115 | between operations the table in use has fewer nodes than buckets, even counting those still to come |
| IntrusiveHash.Moved | src/hash.cpp:107 | moving one node keeps: every node once, in the bucket its hash selects |
| IntrusiveHash.IHSet.TMigrate | src/hash.cpp:52-57 | the table in use becomes the older one, a table of twice as many buckets takes its place |
| IntrusiveHash.IHSet.Prehash | src/hash.cpp:97-115 | it terminates, stays in range, moves 64 nodes or all that are left, and frees a table that is empty then |
| IntrusiveHash.IHSet.MigrateIfFull | src/hash.cpp:87-92 | a migration starts with exactly as many nodes as buckets, and only when none is going on |
| IntrusiveHash.IHSet.Find | src/hash.cpp:59-67 | some node of the key, or there is none; nodes move between the tables, the set does not change |
| IntrusiveHash.IHSet.Remove | src/hash.cpp:68-80 | one node of the key goes, from either table, or there is none |
| IntrusiveHash.IHSet.Insert | src/hash.cpp:82-95 | the node comes in; every migration is over before the table in use could fill again (64*(total-P) + prev.size + 64 <= P) |
| IntrusiveHash.IHSet.SizeIs | src/kvt_tset.h:30-32 | curr.size + prev.size is the number of nodes, and less than the bucket count |
| ScoreChains.TSTNode.constructor | src/kvt_tset.h:47-60 | mk_tstn: both hooks lead back to the node, hash and score as given |
| ScoreChains.AddFlat | src/kvt_tset.cpp:34-50 | insertion puts exactly the new node somewhere into the score order, and the rest stays |
| ScoreChains.AddNewScore | src/kvt_tset.cpp:41-43 | a new score makes a chain of its own at its place in the tree order |
| ScoreChains.AddKnownScore | src/kvt_tset.cpp:37-40 | a known score: the node goes behind the head, before the rest of the chain |
| ScoreChains.OmitFlat | src/kvt_tset.cpp:70-90 | deletion takes exactly that node out of the score order |
| ScoreChains.OmitSingle | src/kvt_tset.cpp:82-84 | the only node of a chain goes with its tree node |
| ScoreChains.OmitHead | src/kvt_tset.cpp:76-81 | the second node takes the place of the head |
| ScoreChains.OmitInner | src/kvt_tset.cpp:76-81 | a later node is unlinked |
| ScoreChains.FlatSorted | src/kvt_tset.cpp:34-50 | the chains one after another are sorted by score |
| ScoreChains.OnlyHeads | src/kvt_tset.cpp:37-43 | exactly the heads of chains hang in the tree |
| ScoreChains.BackAt | src/kvt_tset.cpp:137-154 | in the order of a walk backward an element comes behind all chains of higher scores, and behind those before it in its own |
| TSets.TSet.constructor | src/kvt_tset.h:24-28 | the empty sorted set as its fields are initialised: null root, no tables |
| TSets.AgreeAdd | src/kvt_tset.cpp:34-50 | after an insertion both indexes hold the same nodes, each once, each chain one score, no name twice |
| TSets.AgreeDrop | src/kvt_tset.cpp:70-90 | and after a deletion |
| TSets.TSet.TsInsert | src/kvt_tset.cpp:34-50 | both indexes still agree, the node has come in at its place |
| TSets.NewNameIff | src/kvt_tset.cpp:34-50 | ts_insert does not look at names: the indexes agree afterwards exactly when the name was new |
| TSets.TSet.TsInsertN | src/kvt_tset.cpp:52-60 | the same for a name and a score |
| TSets.TSet.UnlinkInner | src/kvt_tset.cpp:76-84 | a node that is not the head leaves the tree untouched and its chain without it |
| TSets.TSet.HandOver | src/kvt_tset.cpp:76-81 | a head hands its tree place to the second node |
| TSets.TSet.DropChain | src/kvt_tset.cpp:82-84 | a lone head goes with its tree node |
| TSets.TSet.DeleteName | src/kvt_tset.cpp:74 | what ihs_del by name removes is the hook of that very node |
| TSets.TSet.TsDelete | src/kvt_tset.cpp:70-90 | both indexes agree on all nodes but that one; a null pointer gives false and changes nothing |
| TSets.TSet.TsUpdate | src/kvt_tset.cpp:96-108 | the same nodes, that one with the new score at its new place; a null pointer gives false and changes nothing |
| TSets.TSet.TsFind | src/kvt_tset.cpp:17-32 | the node of that name, or there is none |
| TSets.HookCount | src/kvt_tset.h:30-32 | there are as many hash hooks as nodes |
| TSets.TSet.SizeIs | src/kvt_tset.h:30-32 | ts_size is the number of nodes in score order, each of them once |
| TSets.TSet.InOrder | src/kvt_tset.cpp:130-174 | the order that ts_at and ts_walk read in is that of the scores |
| TSets.TSet.Next | src/kvt_tset.cpp:142-154 | one step leads to the next element, along a chain or to the head of the next one |
| TSets.TSet.Previous | src/kvt_tset.cpp:137-154 | one step backward: still forward along the chain, else to the head of the chain before |
| TSets.TSet.TsWalk | src/kvt_tset.cpp:130-157 | that many elements on, null exactly one past the end; for a negative offset element ~offset of the walk backward; the head of the chain follows |
| TSets.TSet.TsAt | src/kvt_tset.cpp:159-174 | element k of the chains one after another |
| TSets.TSet.TRange | src/io.cpp:428-448 | RANGE_OOB exactly when the end is size or more, or below -size; else the names at begin to end, or to size + end for a negative end |
| TSets.TSet.AddOne | src/io.cpp:469-478 | one pair: the set says what a plain map says after one assignment; the pair counts as inserted exactly when the name was not there |
| TSets.TSet.TAdd | src/io.cpp:453-484 | a whole run of pairs is a run of assignments to a plain map from names to scores; the counts are right; a last argument without a partner is not looked at |
| TSets.AssignedLast | src/io.cpp:469-478 | after a run of pairs a name has the score behind its last mention |
| TSets.AssignedOther | src/io.cpp:469-478 | and a name that is not mentioned has what it had |
| SlotMaps.LiveCount | src/kvt_map.h:45 | there are positions_used - the length of free_list live slots |
| SlotMaps.Room | src/kvt_map.cpp:42-47 | while the map is not full emplace has a slot in range, and that slot is not live |
| SlotMaps.Taken | src/kvt_map.cpp:40-53 | taking it keeps: live and free slots disjoint, without repetition, together [0, positions_used), one pair to a live slot |
| SlotMaps.GivenBack | src/kvt_map.cpp:75-79 | and so does giving one back |
| SlotMaps.IntrusiveHashMap.constructor | src/kvt_map.h:37-39 | an empty map |
| SlotMaps.IntrusiveHashMap.Clear | src/kvt_map.h:62-66 | no node, no slot used, none free |
| SlotMaps.IntrusiveHashMap.SizeIs | src/kvt_map.h:45-47 | get_size = nodes in the table = positions_used - the length of free_list |
| SlotMaps.IntrusiveHashMap.Emplace | src/kvt_map.cpp:40-53 | the pair sits in a slot that was not live; for a new key the map means one assignment more, for a known key it means no map any more |
| SlotMaps.IntrusiveHashMap.Remove | src/kvt_map.cpp:64-104 | the pair of the key goes and its slot is free again, or there is none |
| SlotMaps.IntrusiveHashMap.Get | src/kvt_map.cpp:24-38 | the value of the key, the empty string when there is none |
| SlotMaps.IntrusiveHashMap.Find | src/kvt_map.cpp:13-23 | whether some pair has the key |
| Wire.NumU32 | src/io.cpp:243-244 | a length is written lowest byte first; reading it back gives it modulo 2^32 |
| Wire.U32Num | src/io.cpp:243-244 | and four bytes are the writing of what they read as |
| Wire.ReadIsStrings | src/io.cpp:286-301 | strings that are read are exactly those that were written |
| Wire.ParseIff | src/io.cpp:273-304 | a byte string parses to c exactly when it is the body of c with at most 20000 strings |
| Wire.ParseRoundTrip | test/pl_client.cc:54-75 | encode then parse gives c, and no two byte strings parse to the same c |
| Wire.ParseReq | src/io.cpp:273-304 | the loop accepts exactly what Parse accepts and yields the same strings; -1 otherwise |
| Wire.SendReq | test/pl_client.cc:54-75 | the frame of the command; failure exactly when the 32-bit length of its body is over 4096; a write past the buffer exactly when that length wrapped |
| Wire.ReadPacked | test/pl_client.cc:77-114 | read_res finds a response at the front of a stream exactly when make_response wrote it there and it is no longer than 4096 bytes |
| Wire.OnTheWire | src/io.cpp:227-236 | the request `get k` and the answer that there is no such key, byte for byte |
| Connections.LookMore | src/io.cpp:239-271 | more bytes do not change what a whole or refused front of the buffer holds |
| Connections.DrainSplit | src/io.cpp:239-271 | draining a + b is draining a, then the rest with b behind it, unless a closed the connection |
| Connections.Pipelining | src/io.cpp:148-150 | however a stream is cut, the same commands run in the same order with the same output, and it stops at the same bad frame |
| Connections.FrameFront | src/io.cpp:239-263 | a frame that the client writes is run exactly when its body has at most 20000 bytes, else the connection is closed |
| Connections.ClientStream | test/pl_client.cc:54-75 | a run of commands that fit is run as it was sent, one answer each, and what comes behind it starts from the database that it left |
| Connections.StreamIs | src/io.cpp:239-271 | any stream is the frames of the commands that ran, then the beginning of a frame when the connection is open, a bad frame when it is not |
| Connections.BadFrameCloses | src/io.cpp:245-263 | in any chunks: commands that fit, then a length over 20000 or a body that is no command, then anything: the commands run and are answered, nothing else does, the connection is closed |
| Connections.OpenIff | src/io.cpp:239-263 | in any chunks of any stream the connection is open exactly when no such frame was reached |
| Connections.WaitIff | src/io.cpp:240-253 | what the server waits on is the beginning of a frame of at most 20000 bytes, and nothing else |
| Connections.OutIsAnswers | src/io.cpp:227-271 | whatever came in, the output is the answers to the commands that ran, in order |
| Connections.ReadBack | test/pl_client.cc:77-114 | the client reads back exactly these answers if and only if none is too long for it |
| Connections.EndToEnd | test/pl_client.cc:54-114 | client to server and back, over any chunks, with the database that the commands leave |
| Connections.Conn.MakeResponse | src/io.cpp:227-236 | length, status and data are appended behind what is there |
| Connections.Conn.TryRequest | src/io.cpp:239-271 | one step of Drain: a command runs and its bytes are consumed, or it waits, or it closes |
| Connections.Conn.HandleRead | src/io.cpp:123-158 | after a chunk the connection is where Drain of all pending bytes says |
| Connections.Conn.Serve | src/io.cpp:123-158 | over all its chunks a connection ends where Drain of the whole stream does |
| Commands.PlainLaws | src/io.cpp:309-386 | the plain operations that GetVal, SetVal and DelVal are proved to compute: what was set is what get finds and del answers, until it is deleted; other keys do not notice |
| Commands.Store.GetVal | src/io.cpp:309-333 | RES_NX for an absent key, the string that the plain map has, RES_OK with the mismatch text for a sorted set |
| Commands.Store.SetVal | src/io.cpp:334-359 | the plain map with the string at the key and RES_OK; RES_ERR and no change when it holds a sorted set |
| Commands.Store.DelVal | src/io.cpp:360-386 | RES_NX and no change for an absent key; else the plain map without it, and RES_OK with the string that was there, or with the mismatch text |
| Commands.Store.Emplace | src/io.cpp:185-190 | a new entry for a key that has none |
| Commands.Store.DoRequest | src/io.cpp:201-224 | the dispatch by name and number of arguments; RES_ERR and no change for a command that is not known |
| Service.SetThenGet | src/io.cpp:201-271 | a set and a get over the wire, in any chunks: both run and answer status 0, the get finds the value, the client reads both answers exactly when they are short enough |
| Service.SetDelGet | src/io.cpp:201-271 | set, del, get of one key in any chunks: status 0 with the value that was set, from del too, then status 2; the key is gone |
| Service.AbsentKey | src/io.cpp:319-322 | get or del of an absent key over the wire: the client reads status 2 without text, nothing changes |
| Service.UnknownCommand | src/io.cpp:221-223 | a command of no known name and length over the wire: the client reads status 1 without text, nothing changes |
| Service.OnSortedSet | src/io.cpp:325-386 | get, set and del over the wire of a key that holds a sorted set: status 0, 1 and 0; only del changes anything |
| Service.GetAnswer | src/io.cpp:309-333 | every answer of get, with its status number |
| Service.SetAnswer | src/io.cpp:334-359 | every answer of set, with its status number |
| Service.DelAnswer | src/io.cpp:360-386 | every answer of del, with its status number |
| Service.CharsInjective | src/io.cpp:294 | different byte strings are different keys |
| TSets.TSet.Kept | src/sbtree.cpp:365 | a sorted set depends on nothing that another set below the same NILNODE writes |
| TwoSets.InsertBeside | src/kvt_tset.cpp:52-60 | inserting into one set leaves another one valid and in the same order, and the two separate |
| TwoSets.DeleteBeside | src/kvt_tset.cpp:70-90 | so does deleting, although it writes the shared NILNODE |
| TwoSets.UpdateBeside | src/kvt_tset.cpp:96-108 | and updating |
| TreeAsWritten.DelFixTextIff | src/sbtree.cpp:408-477 | the text keeps black counts equal exactly when its first pass is one of those that repair at once |
| TreeAsWritten.RedSiblingExample | src/sbtree.cpp:442-453 | four nodes on which it does not |
| TreeAsWritten.RootTextIff | src/sbtree.cpp:402-406 | the root pointer that the text of rbt_delete leaves, by lines 402-405, the return at 472 and lines 475-476, is the root of the tree that deletion means exactly when the loop is not called, or it does not end with a rotation at the root and the deleted node was not the root or the loop arrives there |
| TreeAsWritten.RootExample | src/sbtree.cpp:402-406 | three black nodes: after deleting the root the pointer is still at the deleted node |
| TreeAsWritten.RootStays | src/sbtree.cpp:454-461 | a single rotation changes the root of the whole tree exactly when the parent is the root |
| TreeAsWritten.RefusedText | src/sbtree.cpp:143-160 | for any tree, a key that is not in it is refused exactly when it is 0 and the root pointer is not null |
| TreeAsWritten.ZeroRefused | src/sbtree.cpp:159-160 | a tree with the one key 1 refuses the key 0 |
| TreeAsWritten.RbtInsertText | src/sbtree.cpp:344-357 | the step to the root's parent leaves the tree exactly when the root pointer was NILNODE before an insertion into an empty tree, or when the root hangs below NILNODE and the repair did not lift another one |
| TreeAsWritten.EmptiedTree | src/sbtree.cpp:360-477 | an insertion and a deletion leave NILNODE in the root pointer |
| TreeAsWritten.StepLost | src/sbtree.cpp:352-353 | the insertion after that is lost |
| TreeAsWritten.RootBelowNil | src/sbtree.cpp:162-163 | without the step its node is a root below NILNODE |
| TreeAsWritten.RotTextIff | src/sbtree.cpp:50-55 | a rotation of the text is the one that is meant exactly when the node does not hang below NILNODE, or NILNODE has the new child already; else it writes that child link |
| TreeAsWritten.ClimbText | src/sbtree.cpp:248-251 | the climb from the last (first) node goes on past the root exactly when the root hangs below NILNODE and is its right (left) child |
| TreeAsWritten.RotThenClimb | src/sbtree.cpp:50-61 | a left rotation of the text at a root below NILNODE makes it so |
| HashAsWritten.PrehashTextIff | src/hash.cpp:100-109 | no empty bucket is taken from exactly when the bucket at migrate_pos has enough nodes for the whole call |
| HashAsWritten.PrehashExample | src/hash.cpp:100-109 | a full table of eight buckets with one node each, just migrated, where it has not |
| SetAsWritten.ChainTextIff | src/kvt_tset.cpp:39 | the chain keeps its nodes exactly when its head was alone |
| SetAsWritten.OnlyHeadsInTree | src/kvt_tset.cpp:76-84 | a node is in the tree that ts_delete works on exactly when it heads its chain |
| SetAsWritten.DeleteTextIff | src/kvt_tset.cpp:70-90 | after the text of ts_delete the chains are those without the node exactly when it headed its chain; otherwise the node is still there and what came behind it is not |
| SetAsWritten.SecondStays | src/kvt_tset.cpp:70-90 | two nodes of one score: the second is deleted and stays |
| SetAsWritten.HooksTextIff | src/kvt_tset.cpp:76-84 | for such a node the tree stays as it is exactly when no parent in the tree is left over (src/kvt_tset.cpp:100-103 keeps it), or the last of a chain has one without a left child |
| SetAsWritten.PastEndText | src/kvt_tset.cpp:149-156 | ts_walk past the last element returns a pointer that is not null exactly when the tree hangs below NILNODE |
| SetAsWritten.WalkToNowhere | src/kvt_tset.cpp:149-156 | a set that was emptied and has one element again does so |
| SetAsWritten.RangeTextIff | src/io.cpp:442-448 | from any element on, the listed slice is right exactly when it ends in the chain it began in, or the walk from its first element leads to the next chain and it ends there |
| SetAsWritten.RangeExample | src/io.cpp:445-448 | three scores, where the third is not reached |
| SetAsWritten.RangeInside | src/io.cpp:444-448 | a range that begins at the second of two equal scores and ends there |
| AsWritten.ReadTextIff | src/io.cpp:148 | new bytes land right, whatever they are, exactly when nothing was pending |
| AsWritten.SetTextIff | src/io.cpp:344-358 | set is defined and right exactly when the key has no string yet |

## Left out

- Sockets, poll, signals, sending, and the connection's own states other than open and closed: system calls. A
  connection here is its buffers and cursors; the buffers are as long as they need to be and not shared.
- src/kvt_set.cpp and src/kvt_hash_t.h: the rehashing of src/hash.cpp once more.
- ts_seek: its header comment and its code disagree on what the closest match is.
- sbt_detach, sbt_min, sbt_max, rotate_lr, rotate_rl: the red-black code does not use them.
- TsInsert: a name that is already in the set; the source lets it in, and then the indexes do not agree any more
  (NewNameIff).
- TsInsertN: likewise.
- TsAt: negative offsets do not pass its first assertion, which compares them as unsigned.
- mk_tset and mk_ihset: they make a table of eight buckets at once; the server creates its sets without them.
- TRange: the `int` loop index and the parsing of the bounds are not modelled; `begin` is what the assertions of ts_at
  ask for.
- TAdd: the wording of the answer and strtod are not modelled; a score is whatever a given function reads.
- ts_deleten: it is ts_find followed by ts_delete.
- IEEE floating point: scores are real numbers, so NaN and signed zero do not occur.
- XXH64: the hash is any function, so all results hold for it; size_t overflow of sizes is not modelled.
- The bplace path of mk_ihtable and ihs_load other than 1: never taken.
- Freeing and placement new: a freed table is no longer referenced, and a pair constructed in a slot is a new object.
- IntrusiveHashMap::insert of a caller's own pair: its node lies in no slot, so that removing it would push a foreign
  pointer to the free list.
- DoRequest: the commands on sorted sets are modelled on the set itself (TAdd, TRange), without find_tset; in `Service`
  they are a parameter, so that its results hold whatever they do.
- SetVal: the array of 16384 entries must not be used up, as the source does not check it.
- The wording of answers, logging and printing: presentation.
