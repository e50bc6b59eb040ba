# dvpn: a Dafny model of its routing core

dvpn is a small routing daemon. Nodes advertise themselves in link-state advertisements (LSAs),
pass each other's LSAs on with their own id in front of the path, pick the best LSA of every id
under a valley-free policy, and build a routing table from the bests. This project models that
core and proves what it is for. `dafny verify dfyconfig.toml` checks everything.

The parts, and the main result of each:

* **Shortest paths** (`Graphs`, `Dijkstra`, `Spf`). `spf_run` is Dijkstra's search over an array
  heap with back-pointers, decrease-key and a tie-break by id, on mutable nodes. It computes least
  costs over all walks and a parent that does not depend on insertion order.
* **Constrained shortest paths** (`Routes`, `LayeredSearch`, `Relabel`, `Cspf`). The two-layer graph
  of `cspf.c` has exactly the valley-free routes as its walks, at equal cost. `Relabel` carries
  results between the abstract layers and the nodes that stand for them.
* **LSAs and their wire format** (`Lsas`, `LsaObjects`, `Varint`, `Codec`, `Serialiser`,
  `Deserialiser`, `Repeats`, `Signing`, `Accounting`, `Reprint`, `Reader`). Ordered attribute trees with size
  accounting, the nested printer and parser, the signed projection, path prepending, and the framing
  of a byte stream that arrives in arbitrary chunks.
* **Comparison of LSAs** (`AvlDiff`, `LsaDiff`).
* **The policy on one path** (`PathCost`). The phase machine of `lsa_path_cost` accepts exactly the
  paths that some walk through the two-layer graph visits, at the cost of that walk.
* **Replication** (`AdjRibIn`, `LocRib`, `RtBuilder`, `Writer`, `Session`, `Daemon`, `Replication`).
  Each stage keeps an incremental copy of a filtered view of the one before. `Daemon` puts the
  objects of one process together; `Replication` follows one connection over whole runs.
* **The own LSA** (`Mylsa`). What a daemon builds, versions and signs is accepted by every node it
  reaches, after any chain of hops, and what is accepted was signed by the owner of its id.
* **A network of daemons** (`Network`). Paths stay free of loops in every run and no LSA returns to a node
  it went through; routes lead to the peer an LSA came from; the messages nodes exchange are what the
  bytes their writers print are read as.
* **Fingerprints and reconfiguration** (`Base32`, `ConfDiff`).

Trees of the source (`iv_avl`) are sorted sequences or maps, lists are sequences, and every `abort()`,
and every null pointer that is followed, is either shown not to be reached, or is a result of its own
(`Abort`, `Dead`, `ok == false`, `aborted`) with a statement of when it occurs; what is not stated of them is
under "Left out". Objects that the source updates in place are classes. Hashing and signature checks are parameters (`AdjRibIn.Crypto`).

Where the code and a natural reading of it differ, the model follows the code, and the exact condition
is proved:

* `highest_version_seen` is raised when an LSA is added to the Loc-RIB, not when one is modified; it bounds
  the stored versions as long as no modification brings a version beyond it (`LocRib.ModKeepsBound`,
  `LocRib.ModBreaksBound`).
* `lsa_diff` ignores the signed bit of plain attributes at the top level (`LsaDiff.NoDiffs`,
  `LsaDiff.SignedBitUnseen`).
* A ten-byte integer may lose its high bits when it is read (`Varint.EncDec`, `Varint.LongIntLosesBits`).
* A frame of length 1 to 31 is reported as incomplete, however many bytes follow (`Codec.ShortFrameWaits`,
  `Codec.OneByteFrameWaits`, `Reader.ShortFrameBlocks`).
* `attr_tree_free` looks at the root of a nested set without a test. Dropping the last reference to an LSA is
  safe iff no set inside it is empty (`LsaObjects.LsaObject.Release`), and such an LSA can be received
  (`Codec.EmptySetArrives`); on the error path of the parser the half-built tree may be one
  (`Codec.EmptySetFails`). In a network of nodes that run this code no such LSA is ever held or sent
  (`Network.DropsAreSafe`).
* A well-formed frame ends the program iff some set in it, at any level, holds two attributes of one key
  (`Repeats.RepeatsEndFrame`, `Repeats.RepeatArrives`); otherwise it is read as the ordered tree of its
  attributes. This is for keys of up to 65536 bytes; a longer one does not fit a reader's buffer.
* Routes of two ids with the same address disturb each other (`RtBuilder.MatchesIffInjective`,
  `RtBuilder.CollidingIds`).
* The rollback in `cle_mod` deletes the old listen entry where `cce_mod` inserts it; the entry is then
  in neither tree (`ConfDiff.EntriesKept`). What is deleted is a node that is in no tree any more; `iv_avl`
  then writes to the links of its former parent, so after a failed start of a listen entry others may be
  lost as well. Starting a listen entry never fails in `dvpn.c`.

## Model

| member | source | states |
|---|---|---|
| Spf.PushDown | spf.c:59-91 | restores heap order below the root while the heap stays a bijection between slots and `heapidx` of the queued nodes |
| Spf.PullUp | spf.c:93-112 | restores heap order after a cost went down, with the same bijection |
| Spf.Pop | spf.c:152-159 | takes a node no queued node is cheaper than, and leaves an ordered heap of the others |
| Spf.Improve | spf.c:171-180 | a node joins the heap only when it is first reached, so the heap never outgrows its array, and `pull_up` acts on a queued node |
| Spf.RelaxEdge | spf.c:161-184 | one edge updates costs, parents and heap as the pure step says; it aborts exactly where that step does |
| Spf.Nl | spf.c:114-126 | aborts exactly when the ids differ in no byte, and otherwise says whether the first differing byte is smaller in the first id |
| Bytes.Memcmp | spf.c:118-123 | the byte comparison has the sign of the lexicographic order, and is zero only for equal strings |
| Spf.Search | spf.c:149-185 | the main loop ends with every reached node settled, or aborts on a graph with equal ids into one node or a free way back to the source |
| Spf.Context.Prepare | spf.c:134-147 | the first loop establishes the search's initial state and queue |
| Spf.Context.Run | spf.c:128-186 | on a closed graph with non-negative costs and path sums below INT_MAX, costs are least over all walks (INT_MAX iff unreachable) and parents canonical; without equal ids into one node and free returns no abort is reached, and a run that ends has shown that no walk back to the source is free |
| Dijkstra.PopIsLeast | spf.c:149-159 | no walk reaches the popped node more cheaply than its cost |
| Dijkstra.RelaxInv | spf.c:161-184 | one edge keeps the search invariant: sound costs, relaxed edges, least-id parents so far |
| Dijkstra.ImproveShape | spf.c:171-180 | an improved node is neither popped nor the source |
| Dijkstra.RelaxAborts | spf.c:114-126 | the equal-id abort needs two edges from one id into one node, or a zero-cost way back to the source |
| Dijkstra.FinalCosts | spf.c:128-186 | at the end a cost is INT_MAX iff no walk exists and otherwise the least of all walk costs |
| Dijkstra.FinalParents | spf.c:170-183 | no parent iff source or unreachable, and otherwise the canonical one |
| Dijkstra.CanonicalParentUnique | spf.c:170-183 | the smallest-id tight predecessor is unique, so the order of nodes and edges plays no part |
| Dijkstra.TightWalk | spf.c:170-183 | every node with a parent has a walk of exactly its computed cost whose last step leaves that parent |
| Routes.RouteToWalk | cspf.c:24-37 | every valley-free route is a walk of equal cost, through the same nodes, from layer a of its start to layer b of its end |
| Routes.WalkToRoute | cspf.c:46-83 | every walk from layer a is a route of equal cost over the nodes it visits, climbing only if it ends in layer a and valley-free otherwise |
| Routes.LayersEncodeRoutes | cspf.c:46-83 | least walk costs to layer b are exactly least valley-free route costs, and reachability agrees |
| LayeredSearch.LayersAreUnambiguous | cspf.c:24-83 | with one link per ordered pair and no self-links no two edges from one id enter the same layered node |
| LayeredSearch.NoFreeReturnToSource | cspf.c:24-83 | with positive link costs no zero-cost walk returns to the source |
| LayeredSearch.ParentPrecedes | cspf.c:119-131 | the layered parent, looked at through the free step down, is a different node that precedes the target on a cheapest route, and absent iff the target is the source or has no route |
| Relabel.MapSolved | cspf.c:24-37 | a solved graph stays solved when its vertices are renamed one to one |
| Cspf.CContext.NodeAdd | cspf.c:24-37 | adds both layers and the free step between them; the context stays an image of the layered graph |
| Cspf.CContext.EdgeAdd | cspf.c:46-83 | adds to each layer the edges of the link's type, so the context shows the layered graph of all links added |
| Cspf.CContext.Run | cspf.c:114-117 | solves the layered graph, without an abort on simple links |
| Cspf.CContext.NodeCost | cspf.c:133-136 | least cost of a valley-free route, INT_MAX iff there is none |
| Cspf.CContext.NodeParent | cspf.c:119-131 | cookie of another node that precedes this one on a cheapest valley-free route; null iff source or unreachable |
| PathCost.LsaPathCost | loc_rib.c:84-155 | the loop over path bytes computes the phase machine's verdict and cost |
| PathCost.LsaPeerInfo.Get | lsa_peer.c:28-55 | fills metric and flags from a signed PEER set, with defaults for what is missing, unsigned or of the wrong size |
| PathCost.PeerInfoBytes | lsa_peer.c:41-52 | two metric bytes are read high byte first; flag bit 0 is a customer and bit 1 a transit |
| PathCost.PeerDefaults | lsa_peer.c:35-52 | a peer counts iff its signed set is there; a missing, unsigned or wrongly sized metric is 1 and flags are none |
| PathCost.VersionDefault | loc_rib.c:43-61 | without eight signed bytes the version is 0 |
| PathCost.PolicyAgrees | loc_rib.c:108-154 | from a known node, a path is accepted at cost c iff some valley-free route over the RIB's links visits exactly its nodes at cost c |
| PathCost.PolicyNotBelowCspf | loc_rib.c:108-154 | an accepted path is a walk of its cost in the layered graph, so no best is cheaper than the constrained shortest path |
| PathCost.PolicyAgreesWithLayers | loc_rib.c:108-154 | from a known node, a path is accepted at cost c iff some walk of cost c from layer a of that node to layer b visits exactly its nodes |
| PathCost.PolicyAgreesWithoutSelf | loc_rib.c:108-154 | without an own id the empty path costs nothing, and any other is accepted at cost c iff its first node is known and a valley-free route of cost c from there visits the rest |
| PathCost.LinksExist | lsa_peer.c:28-55 | every RIB has a list of exactly its links, one for each ordered pair of nodes that list each other |
| PathCost.CostBound | loc_rib.c:84-155 | costs fit `int` and meet the two marks exactly when the LSA is outdated or the policy rejects |
| Lsas.FindUnique | lsa.c:188-224 | in an ordered set the lookup of a member's key returns that member |
| Lsas.InsertSorted | lsa.c:293-327 | inserting a new key keeps the set ordered |
| LsaObjects.InsertAtSize | lsa.c:293-327 | an insertion anywhere in the tree grows the recursive size by the attribute's size |
| LsaObjects.LsaObject.AddAttr | lsa.c:293-327 | inserts at the given nested set; order kept and `bytes` exactly the recursive size |
| LsaObjects.LsaObject.AddAttrSet | lsa.c:343-377 | the same for an empty nested set |
| LsaObjects.LsaObject.DelAttr | lsa.c:379-417 | removes exactly that attribute and takes it and everything inside it off `bytes`, or follows a null pointer iff a set inside a deleted set is empty |
| LsaObjects.LsaObject.FreeTree | lsa.c:90-110 | takes exactly the recursive size of a tree off `bytes`, or follows a null pointer iff the tree or a set inside it is empty |
| LsaObjects.LsaObject.Release | lsa.c:112-119 | dropping a reference is safe iff it is not the last one or no set inside the LSA is empty |
| Varint.DecEnc | lsa_deserialise.c:51-71 | reading what was printed returns the value and its length, whatever follows |
| Varint.EncDec | lsa_deserialise.c:51-71 | printing what was read gives the same bytes iff it took fewer than ten bytes or dropped no bit |
| Varint.LongIntLosesBits | lsa_deserialise.c:51-71 | ten bytes that are read, and printed as others |
| Varint.DecStable | lsa_deserialise.c:51-71 | a finished or failed read does not change when bytes are appended |
| Varint.DecRange | lsa_deserialise.c:51-71 | read values fit 64 bits |
| Codec.ParseEnc | lsa_deserialise.c:95-157 | parsing printed attributes gives them back, with the prefix in each plain ADV_PATH and nothing else changed |
| Codec.FrameRoundTrip | lsa_deserialise.c:159-206 | reading a printed frame yields the LSA with the prefix in its path and consumes exactly its bytes, whatever follows |
| Codec.EncInjective | lsa_serialise.c:204-215 | equal prints of ordered trees mean equal trees |
| Codec.WireFormat | lsa_serialise.c:56-149 | the bytes of a sample with a prefix, a key, a nested set and a long integer, in full and signed only |
| Codec.UnknownFlags | lsa_deserialise.c:95-157 | flag bits without a meaning are read and forgotten |
| Codec.DeserStable | lsa_deserialise.c:159-206 | every result but "more" stands when bytes are appended |
| Codec.EmptySetArrives | lsa.c:102-107 | a 36-byte frame is read as an LSA with an empty set, which cannot be freed |
| Codec.EmptySetFails | lsa_deserialise.c:201-203 | a malformed attribute that would be the first of a set makes the error path follow a null pointer |
| Codec.PrefixKeepsSets | lsa_serialise.c:124-147 | passing an LSA on neither adds nor removes empty sets |
| Codec.ShortFrameWaits | lsa_deserialise.c:185-199 | a frame that is all there is reported as incomplete iff its length is 1 to 31 |
| Repeats.RepeatsEndParse | lsa.c:305-307 | for attributes in any order the parse ends the program iff some set, at any level, holds a key twice; otherwise it gives the ordered tree |
| Repeats.RepeatsEndFrame | lsa_deserialise.c:159-206 | the same for whole frames, whatever follows them |
| Repeats.ArrangedTree | lsa.c:293-327 | the tree is ordered with unique keys at every level |
| Repeats.ArrangedMembers | lsa.c:293-327 | it holds each attribute of the list exactly once |
| Repeats.RepeatArrives | lsa.c:305-307 | a 39-byte frame that ends the program |
| Serialiser.Dst.Append | lsa_serialise.c:33-54 | everything is counted, and as much as fits is stored |
| Serialiser.Dst.AppendInt | lsa_serialise.c:56-77 | the ten-group loop that skips leading zero groups prints the canonical integer |
| Serialiser.SetSerialiseLength | lsa_serialise.c:151-164 | the length pass returns the length that is printed |
| Serialiser.AttrSerialise | lsa_serialise.c:83-132 | appends the attribute as `Codec.EncAttr` has it |
| Serialiser.AttrsSerialise | lsa_serialise.c:134-149 | appends the set as `Codec.EncAttrs` has it |
| Serialiser.Serialise | lsa_serialise.c:173-197 | writes the frame, as far as it fits, and aborts exactly on a wrong length |
| Serialiser.SerialiseFrame | dgp_writer.c:70-79 | within the buffer test the printed bytes are the whole frame |
| Deserialiser.Src.ReadUint64 | lsa_deserialise.c:51-71 | the cursor loop decodes one integer and advances past it |
| Deserialiser.DeserialiseAttrSet | lsa_deserialise.c:95-157 | fills the set at its place in the tree as the parse function has it, also as far as it gets before a failure |
| Deserialiser.Deserialise | lsa_deserialise.c:159-206 | returns the object, the length or the error that `Codec.Deser` gives; a failure whose half-built tree cannot be freed is an abort |
| Signing.EncSigned | lsa_serialise.c:83-149 | signed-only printing is full printing of the signed sub-tree |
| Signing.SignedBytesOfPart | adj_rib_in.c:152-163 | the verified bytes are the frame of the signed sub-tree |
| Signing.SignedPart | lsa_serialise.c:83-88 | the signed part is signed at every level, and a tree signed throughout is its own signed part |
| Signing.SignedMembers | lsa_serialise.c:83-116 | it has exactly the signed attributes, plain ones unchanged and sets with their signed part |
| Signing.SignedBytesBind | adj_rib_in.c:152-172 | two LSAs have the same signed bytes iff they have the same id and the same signed part |
| Signing.HopDelivers | lsa_serialise.c:124-147 | after any chain of hops the next node reads the LSA with all hop ids in front of its path |
| Signing.SignedBytesSurvive | adj_rib_in.c:152-167 | the bytes a signature covers survive any number of hops iff no plain ADV_PATH is signed |
| Signing.DeserRegular | lsa_deserialise.c:95-157 | whatever parses is ordered with unique keys, non-negative types and at most eight levels |
| Accounting.EncAttrsSize | lsa.c:226-250 | printed attributes take at most their accounted size and one prefix for each rewritten attribute |
| Accounting.FrameSize | lsa.c:226-250 | a frame takes at most `bytes` and one prefix for each rewritten attribute |
| Accounting.LimitFitsBuffers | dgp_writer.c:70-79 | for every LSA within the size limit the buffer aborts of writer and reader are not reached and the frame fits a reader's buffer |
| Reprint.ReprintNoLonger | lsa_deserialise.c:159-206 | printing a received LSA again takes no more bytes than its frame |
| Reprint.ReceivedComparable | lsa_diff.c:72-78 | the size abort of `attr_cmp` is not reached on received LSAs |
| Reader.StreamSplit | dgp_reader.c:90-116 | parsing a stream may stop anywhere and resume with the bytes left over |
| Reader.ChunkingIsIrrelevant | dgp_reader.c:62-119 | however a stream is cut into reads, the LSAs and the end of the link are those of the whole stream |
| Reader.Drained | dgp_reader.c:99-116 | what stays buffered is shorter than the buffer and holds no complete frame |
| Reader.ShortFrameBlocks | dgp_reader.c:99-103 | a stream with such a frame in front never delivers an LSA, and the link is closed once the buffer is full |
| Reader.FramesThenFailure | dgp_reader.c:90-113 | behind whole frames a malformed one closes the link after their LSAs, one that aborts ends the program, an incomplete one waits until the buffer is full |
| Reader.DgpReader.Read | dgp_reader.c:62-119 | one read delivers exactly the frames it completes, and a success leaves room for the next read |
| AvlDiff.WalkIsRight | util.c:75-122 | each call is the right one for its key |
| AvlDiff.WalkIncreases | util.c:75-122 | calls come in key order, at most one for each key |
| AvlDiff.WalkCovers | util.c:75-122 | every element of both trees is in a call |
| LsaDiff.AttrCmp | lsa_diff.c:56-88 | zero iff the contents agree, where signed bits count only on and inside sets |
| LsaDiff.Diff | lsa_diff.c:122-143 | returns the number of keys whose attributes differ |
| LsaDiff.NoDiffs | lsa_diff.c:122-143 | no key differs iff the trees are equal up to the signed bit of plain top-level attributes |
| LsaDiff.NoDiffsByAttribute | lsa_diff.c:56-88 | no key differs iff the trees have the same keys and data in turn, and the same signed bit on sets |
| LsaDiff.SignedBitUnseen | lsa_diff.c:56-88 | two ordered trees that differ, in a signed bit, and have no difference |
| LocRib.SelectIsBest | loc_rib.c:193-212 | the selection is an eligible LSA of least cost, and of least path length among those; there is none iff all are outdated |
| LocRib.CostInputs | loc_rib.c:63-82 | costs never read what a recompute writes |
| LocRib.RecentIsNewest | loc_rib.c:63-82 | the recent LSA of an id is the stored one of the greatest version and then address, and there is none iff the id is unknown or every stored version is below the mark |
| LocRib.LinkEnds | loc_rib.c:115-150 | the newest LSAs of two ids are linked iff each lists the other; the cost is the first one's metric, and the link climbs or descends iff both ends say so |
| LocRib.LinksHaveEnds | loc_rib.c:115-150 | every link of the RIB is one between two such LSAs |
| LocRib.CachedIsBest | loc_rib.c:179-239 | with no recompute due every `best` is that selection, and null iff its cost is INELIGIBLE |
| LocRib.TiesGoToOldest | loc_rib.c:193-212 | of LSAs as good as the best, the best is the one of the lowest version and address |
| LocRib.BestNotBelowCspf | loc_rib.c:84-239 | no cached best is cheaper than the least cost in the layered graph of the RIB's links |
| LocRib.FollowSplit | loc_rib.c:214-236 | a listener may join between any two events |
| LocRib.ChangesFollow | loc_rib.c:214-236 | the events of one change take a listener's view from the old bests to the new ones, each as it expects |
| LocRib.PutRefOk | loc_rib.c:381-405 | storing a new object keeps the trees ordered and adds exactly it |
| LocRib.DelRefOk | loc_rib.c:455-475 | deleting a stored object keeps the trees ordered and removes exactly it |
| LocRib.AddRaisesMark | loc_rib.c:399-401 | an addition raises `highest_version_seen` of its id to the new version if that is higher, and touches no other entry |
| LocRib.MarkIsHighest | loc_rib.c:381-475 | in every history it is the greatest version ever added under the id |
| LocRib.BestIsCurrent | loc_rib.c:84-95 | in every history, with no recompute due, an id has a best iff it stores an LSA no older than any ever added, and no best is older than that |
| LocRib.NewestIsEligible | loc_rib.c:381-405 | an addition with no newer version seen leaves its id with a best at the next recompute |
| LocRib.AddKeepsBound | loc_rib.c:399-401 | after an addition no stored version is above `highest_version_seen` if none was before |
| LocRib.DelKeepsBound | loc_rib.c:455-475 | the same for a deletion |
| LocRib.ModKeepsBound | loc_rib.c:432-453 | after a modification that holds iff the new version is not above it |
| LocRib.ModBreaksBound | loc_rib.c:432-453 | a stored LSA whose next version breaks it |
| LocRib.LocRib.AddLsa | loc_rib.c:381-405 | adds the object without the duplicate abort, raises the mark to its version if that is higher, and asks for a recompute |
| LocRib.LocRib.ModLsa | loc_rib.c:432-453 | replaces the object without an abort, and leaves `highest_version_seen` |
| LocRib.LocRib.DelLsa | loc_rib.c:455-475 | removes the object without an abort |
| LocRib.LocRib.RecomputeRid | loc_rib.c:179-239 | renews one entry, tells listeners exactly the change, and keeps their view equal to the bests |
| LocRib.LocRib.Recompute | loc_rib.c:241-252 | one pass in any order of the ids leaves every entry right |
| RtBuilder.BuildMatches | rt_builder.c:83-158 | in every run over ids with distinct addresses the table is the one computed from the bests alone |
| RtBuilder.MatchesIffInjective | util.c:255-262 | the table is right in every run over a set of ids iff their addresses are distinct |
| RtBuilder.CollidingIds | util.c:255-262 | two ids that have one address |
| RtBuilder.AddressBytes | util.c:255-262 | an address is a fixed prefix and bytes 10 to 21 of the id |
| RtBuilder.RouteOfPath | rt_builder.c:28-81 | with p the best's path without an own id in front, there is a route iff the best is reachable and p is not empty; it is attached iff p has one hop, and else goes by the address of p's first hop |
| RtBuilder.RouteHasBest | rt_builder.c:126-158 | every route is that of some reachable best |
| RtBuilder.RtBuilder.GetNh | rt_builder.c:53-81 | the address of the path's first hop, or of its second if the first is this node, and none if that is the last; its aborts are not reached |
| RtBuilder.RtBuilder.Map | rt_builder.c:28-51 | an LSA gets a route iff it is reachable and leads away from this node |
| RtBuilder.RtBuilder.LsaMod | rt_builder.c:135-149 | keeps the table right across the filter; each callback is told the route the table has |
| RtBuilder.RtBuilder.Listen | rt_builder.c:126-158 | after any expected events the table is computed from the bests they lead to |
| AdjRibIn.LsaPathContains | lsa_path.c:26-41 | true iff the id is a hop of the path |
| AdjRibIn.PathPrepended | lsa_serialise.c:124-147 | passing an LSA on puts the sender in front of its path |
| AdjRibIn.AdjRibIn.Map | adj_rib_in.c:82-177 | passes exactly the LSAs that fit, start with the peer, avoid this node and are authentic |
| AdjRibIn.AcceptedVouched | adj_rib_in.c:116-172 | what passes carries a key whose id is its own and a signature that verifies over the frame of its signed part |
| AdjRibIn.AcceptedWasIssued | adj_rib_in.c:116-172 | if keys verify only what their owners signed, an accepted LSA has the signed part of one they issued under its id |
| AdjRibIn.SignedInputs | lsa_peer.c:28-55 | version and peer information are those of the signed part |
| AdjRibIn.AcceptedInputs | adj_rib_in.c:116-172 | so version and peer information of an accepted LSA are those of one its owner issued |
| AdjRibIn.TravelPath | lsa_serialise.c:124-147 | a chain of hops puts their ids in front of the path, the last one first, and changes no attribute of another type |
| AdjRibIn.HonestAccepted | adj_rib_in.c:82-177 | an originator's LSA with an unsigned empty path, its key and its signature passes after a chain of hops iff the last hop is the peer, this node is not among them, and it is within the size limit |
| AdjRibIn.AdjRibIn.Notify | adj_rib_in.c:179-210 | size and Loc-RIB change by exactly what passes of the old and the new LSA |
| AdjRibIn.AdjRibIn.AddLsa | adj_rib_in.c:222-268 | a withdrawal or an LSA beyond the quota leaves none of its id, any other is there, and one that does not differ changes nothing; the Loc-RIB has exactly this peer's accepted LSAs, whose bytes `size` is, within the quota |
| AdjRibIn.AdjRibIn.DelLsa | adj_rib_in.c:212-220 | the same for a withdrawal |
| AdjRibIn.AdjRibIn.Truncate | adj_rib_in.c:270-280 | empties the store, its size and its part of the Loc-RIB |
| Session.StreamComparable | dgp_reader.c:90-112 | every LSA off a stream can be stored and compared |
| Session.Session.Readable | dgp_reader.c:62-119 | a chunk updates the store by exactly the frames it completes, each weighed against the bytes accepted when it comes |
| Daemon.Daemon.OnLsa | rib_listener_to_loc.c:27-47 | the Loc-RIB stays the own LSA and what all readers accept; as a node of the network the daemon hears one LSA |
| Daemon.Daemon.Disconnect | dgp_reader.c:121-130 | a peer that leaves takes exactly its LSAs along; the node's step is a leave |
| Daemon.Daemon.Renew | dvpn.c:258-304 | a new own LSA takes the place of the old one; the node's step is a renewal |
| Daemon.Daemon.Recompute | loc_rib.c:241-252 | afterwards bests are true bests and the routing table is the one computed from them; the node's step is a recompute that tells listeners just the changes |
| Daemon.Daemon.Connect | dgp_reader.c:37-50 | a new peer starts with an empty store and contributes nothing; the node's step is a join |
| Writer.DgpWriter.OutputLsa | dgp_writer.c:49-94 | writes the new LSA iff the peer is not in its path; a withdrawal iff it is, or there is none, and the peer is not in the old one's path; else nothing; without the buffer aborts |
| Writer.DgpWriter.RibDump | dgp_writer.c:136-162 | a new peer is sent what it would have been sent had it listened while the bests, and nothing else, were added |
| Replication.FrameAppends | dgp_writer.c:70-81 | a frame after whole frames adds its LSA, with the sender in the path, to the stream |
| Replication.WantStep | dgp_writer.c:49-68 | each event's message takes the wanted bests from before it to after it, across the filter too |
| Replication.WantedPaths | dgp_writer.c:32-47 | the peer should have exactly the bests whose path avoids it, each with this node in front |
| Replication.ReceiveContents | adj_rib_in.c:222-268 | without an overflow the store takes the message, up to what `lsa_diff` cannot see |
| Replication.StepReplicated | dgp_writer.c:49-162 | every event, keepalive and arrival keeps the connection replicated |
| Replication.AlwaysReplicated | dgp_reader.c:90-116 | in every state of every run without overflow, applying what is in flight gives exactly the bests that avoid the receiver, with the sender in front |
| Replication.QuietMeansEqual | dgp_reader.c:90-116 | once all bytes are read the store equals the wanted bests and nothing is buffered |
| Network.WireBytes | dgp_writer.c:70-119 | what a writer sends of any orderly events is read as the messages the network exchanges for them, with nothing left waiting |
| Network.WireWanted | dgp_writer.c:49-68 | these messages take what the peer should have from before the events to after them |
| Network.DumpBytes | dgp_writer.c:136-162 | a dump is read as the messages of a join, and gives the peer exactly the bests that avoid it, with the sender in front |
| Network.AcceptedSound | adj_rib_in.c:102-114 | what a node accepts from a peer has a sound path there and can be dropped safely |
| Network.StoredSound | adj_rib_in.c:179-210 | every stored LSA is the own one or in the store of a connected peer it starts with |
| Network.StepSound | dgp_writer.c:39-46 | every step of every daemon keeps all paths sound, in Loc-RIBs, among the bests, in stores and under way |
| Network.NoLoops | adj_rib_in.c:102-114 | in every run each LSA in a Loc-RIB has a path without repetition that avoids the node and ends at the originator; the path is empty iff the LSA is the own one, and otherwise a connected peer's store has the LSA and the path starts with that peer; dropping it is safe |
| Network.BestsSound | dgp_writer.c:39-46 | the same paths hold for every cached best, which may be older than the stores |
| Network.NothingReturns | dgp_writer.c:39-46 | in every run, every LSA under way to a node or in its stores has the sender in front of a path without that node |
| Network.GatewayIsPeer | rt_builder.c:53-81 | in every run, once the recompute is done, a reachable best of another node has its route by the connected peer that sent it, attached iff that peer is the originator; the own LSA has none |
| Network.DropsAreSafe | lsa.c:112-119 | in every run no LSA in a Loc-RIB, in a store or under way has an empty set inside, so dropping it is safe |
| Mylsa.UpdateVersion | dvpn.c:162-187 | replaces the version by the clock's or by one more, whichever is greater |
| Mylsa.Sign | dvpn.c:209-256 | replaces the signature by one over the frame of the signed part; aborts iff that is beyond the buffer test |
| Mylsa.AddPeer | dvpn.c:258-286 | builds, versions and signs the LSA with one peer more; aborts iff the peer is listed, its type has no flags, or there is too much to sign |
| Mylsa.DelPeer | dvpn.c:288-304 | the same with one peer less |
| Mylsa.Start | dvpn.c:985-993 | builds and signs the first LSA |
| Mylsa.AddedPeer | dvpn.c:258-286 | the new peer is read back with its cost and type, the others as before; the version grows and is not behind the clock; the LSA stays one of this kind |
| Mylsa.DeletedPeer | dvpn.c:288-304 | the peer is gone, the others are read as before, and the same |
| Mylsa.RestartIsNewer | dvpn.c:189-195 | a restart is newer than every version of up to 255 renewals in the same second |
| Mylsa.PeerSize | lsa.c:226-250 | a peer accounts for exactly 135 bytes |
| Mylsa.TravelSize | lsa_serialise.c:124-147 | each hop adds exactly one id to the size |
| Mylsa.ConfiguredLink | dvpn.c:134-151 | two nodes that list each other with configured types and costs are linked at the first one's cost, as transit, customer or inner peer iff both types say so |
| Mylsa.AcceptedEverywhere | adj_rib_in.c:82-177 | a node's own LSA is accepted after a chain of hops iff the last hop is the peer, the node is not among them, and size and hops are within the limit |
| Base32.PrintFingerprint | util.c:219-238 | 52 lower-case characters that spell every bit of the id |
| Base32.ParseFingerprint | util.c:147-170 | succeeds iff 52 characters are of the alphabet, and then reads the bits they spell |
| Base32.ParseOfPrint | util.c:147-238 | parsing what was printed returns the same id |
| Base32.PrintOfParse | util.c:147-238 | printing what was parsed gives the lower-case string iff the last character's value is at most 1 |
| Base32.ValueCharacter | util.c:128-145 | characters of one value differ in case only |
| Base32.AlphabetOrder | util.c:216-217 | the alphabet is the digits and the lower-case letters but a, e, i and o, in order |
| ConfDiff.Request.Add | confdiff.c:27-40 | moves the entry over, and back if it fails to start |
| ConfDiff.Request.Mod | confdiff.c:42-75 | swaps a changed entry, or settles its rollback as the code does; walks the entries of a socket; aborts iff neither form of a changed entry starts |
| ConfDiff.Request.Del | confdiff.c:77-87 | moves the entry to the other tree |
| ConfDiff.Request.Rollback | confdiff.c:142-153 | puts the new entry back and the old one where `cce_mod` or `cle_mod` leaves it; aborts iff the old entry does not start again |
| ConfDiff.Request.Diff | util.c:75-122 | the walk aborts iff some key held by both trees does; otherwise, though callbacks move nodes between the trees, each key of either has exactly one callback, in key order, and the outcome is that of the keys taken separately |
| ConfDiff.DiffConfigs | confdiff.c:201-210 | connect entries are walked, and sockets unless that aborted, each with its outcome or its abort |
| ConfDiff.NewConfigIsLive | confdiff.c:201-210 | when every start succeeds nothing aborts and the live configuration has the keys and compared settings of the new one |
| ConfDiff.LiveEntry | confdiff.c:42-75 | under each key the old object stays live if nothing compared differs; else the new one if it starts, and else, of a connect entry, the old one |
| ConfDiff.AbortsWithoutEither | confdiff.c:42-75 | a walk of entries aborts iff a changed entry starts in neither form |
| ConfDiff.SocketsAbort | confdiff.c:171-199 | a walk of sockets aborts iff that of the entries of a socket in both trees does |
| ConfDiff.EntriesKept | confdiff.c:142-156 | every entry object ends in exactly one tree iff no changed listen entry fails to start |
| ConfDiff.SocketsKept | confdiff.c:171-199 | sockets change sides whole, and those in both trees stay and have their entries walked |

## Left out

* Sockets, reads and writes that fail, timers, keepalive timeouts, signals, TLS and the packet tunnel: a
  connection is a byte sequence, and a torn-down one is a reader that disconnects.
* The allocator: allocation succeeds, and an object's address is a number that no object still held has.
* AdjRibIn.AdjRibIn.AddLsa: stores, the reader and the Loc-RIB do not count references. When the last one to an
  LSA with an empty set inside is let go, the program ends as `LsaObjects.LsaObject.Release` says, which they do
  not model; what is proved of them holds until then. Here it is the LSA that is replaced or dropped.
* AdjRibIn.AdjRibIn.DelLsa: the same for the LSA that is withdrawn.
* AdjRibIn.AdjRibIn.Truncate: the same for each LSA of the store.
* LocRib.LocRib.RecomputeRid: the same for an old best that is stored no more.
* Reader.DgpReader.Read: the same for its own reference to an LSA that nothing keeps (no remote id, a withdrawal,
  beyond the quota, no difference), which goes at dgp_reader.c:109; such an LSA leaves the link open here.
* Session.Session.Readable: the same, after the store has taken each LSA.
* Spf.Context.Run: with two edges from equal ids into one node, whether the abort is reached depends on the order
  in which nodes leave the heap; that such edges or a free return are needed for it is proved.
* ConfDiff.Request.Rollback: deleting an entry that is in no tree changes nothing here, while in `iv_avl` it may
  damage the tree the entry was in.
* AVL rebalancing: trees are sorted sequences or maps.
* The removal of nodes and edges from a graph (`spf_node_del`, `cspf_edge_del` and their like).
* Parsing of the configuration file, the printing and monitoring tools, and `parse_hostname_fingerprint`.
* Listener lists: the Loc-RIB keeps one log of the events all its listeners are told.
* Starting and stopping entries in `confdiff.c`: a start succeeds or fails by object, and what runs is not tracked.
* Attributes of nested sets are values addressed by a path through the tree, not objects of their own.
* Copying LSAs attribute by attribute (`lsa_clone`): a copy takes over the values an LSA is made of, which are
  not shared.
* Graph edges and Loc-RIB records are values; graph nodes, contexts, RIBs, readers and writers are objects.
* AdjRibIn.Authentic: a key or signature that is a nested set is hashed as a value, while the code hashes the
  memory of its tree header; whether that passes is left to the parameter.
* LocRib.Storable: an own LSA within the size limit is assumed, since `dvpn.c` does not check it.
* Codec.ParseAttrs: lengths are unbounded integers within a buffer, so the truncation of a key length beyond
  31 bits to `int` does not occur.
* Network.Step: nodes run the modelled code and links deliver whole LSAs in order; `Network.WireBytes` ties them to
  the writer's bytes, and `Reader.ChunkingIsIrrelevant` to how these arrive.
