# Verified models of the Ionian storage node

This project models the parts of the Ionian storage node on which the correctness of stored and
transferred data rests, and proves what they promise.  `dafny verify dfyconfig.toml` checks it.

**The Merkle stack.**  Three layers have to agree on every input.

* `common/append_merkle` keeps a versioned tree as a vector of layers.  It recomputes only what an
  operation touched, pads the right edge with the hashes of zero subtrees, and may hold unknown
  nodes that are filled in later.  `AppendMerkle.AppendMerkleTree` carries the true leaves as a
  ghost field; its invariant says that every known node of every layer is the node of the perfect
  padded tree over those leaves (`PaddedTree.Node`), that the right edge and the root are known,
  and that every retained commit can still be restored.  Every operation states exactly when it
  keeps it: appends, single subtrees, fills with the true leaf, commits of the next number and
  reverts to a non-empty version always do, a fill with a wrong leaf never does, and `update_last`
  and `append_subtree_list` do under the exact conditions below.  Each contract also says whether `update_last` may follow, so mixed runs can be derived.
* `common/merkle_light` builds a flat array bottom-up, with links for odd nodes.  `LightMerkle`
  shows that the array and the link map hold exactly the nodes of the tree of section 2.1 of
  RFC 6962 (without the prefixes), and that proofs are the audit paths of section 2.1.1.
* `node/shared_types` turns positions into paths and back, and splices a flow proof and a node
  proof into one proof for a file segment (`FileProofs`, `Segments`, `SegmentProofs`).

**Around it.**  SSZ containers (`Ssz`), the Kademlia bucket iterators (`KBuckets`), splitting and
reassembly of NODES packets (`NodesPackets`), the upload window (`WriteControl`), the announcement
cache (`LocationCache`), the log confirmation queue (`ConfirmationQueue`), chained sealing (`Seal`),
and padding and segment arithmetic (`Segmentation`).

**Hypotheses.**  Hashes are terms: `Parent` is a constructor, hence injective, and never the null
or the default hash.  `EndPad(h + 1)` is `Parent(EndPad(h), EndPad(h))`.  Integers are unbounded
except where a width is written out.  Clocks, random choices and record distances are parameters.

**Where the code does not do what one would expect.**  The models follow the code.

* `append_subtree_list` recomputes once at the end.  If a deeper subtree follows a shallower one,
  either its root comes to stand too far left, so that the nodes above its last leaf and the root of
  the tree stay unknown (`DepthOrder.IncreasingDepthLosesRoot`), or the recomputation meets an old
  incomplete node in the middle of a layer and panics (`DepthOrder.IncreasingDepthPanics`).
  Lists of given depths are right whatever their subtrees hold if and only if the depths never
  increase (`DepthOrder.DepthsExact`).  For one list the same holds (`DepthOrder.OrderExact`),
  unless all that is appended to the old incomplete block is padding, which changes no node there
  (`DepthOrder.PaddingLeafHidesIncrease`).
* `update_last` recomputes a node only if both its children are known.  The result is right if and
  only if the leaf is unchanged or every left sibling on the path of the last leaf is known
  (`LastLeaf.UpdateExact`); appends and subtrees of depth 1 make them known, a deeper subtree leaves
  one unknown, and then the old parents stay (`LastLeaf.UpdateAfterSubtreeGoesStale`).
* `fill_leaf` is documented to panic if the leaf changes the root.  It does not: a wrong leaf is
  carried up as long as the nodes beside its path are known.  It panics if and only if it gets as far
  as a known node that is not the last of its layer; otherwise it is stored, and the root changes if
  and only if every node beside the path is known (`FilledLeaf.FillExact`).
  `AppendMerkle.WrongFillRun` changes the root with one wrong and one true leaf.
* A fill between a commit and a revert is kept by the revert, but a right-edge parent that it had
  completed becomes unknown again (`AppendMerkle.RevertAfterFillReopens`).  A closed tree is
  closed again after a revert if and only if no recorded right-edge node is unknown although the
  live tree knows its children (`Versions.RevertedClosed`).  Without a fill the layers come back exactly; with fills, they hold
  at least what was committed.
* `clear_after` forgets a root also if an earlier, retained commit has the same root
  (`Versions.RootsCleared`, in the contract of `RevertTo`; `AppendMerkle.SharedRootRun`).
* `reset` empties the layers but not the versions; the tree is valid again if and only if all
  retained versions are empty.
* A single proof accepted by `append_merkle` shows the node that as many turns of its path lead to
  as it has siblings (`AppendProofs.ProofShows`).  If all leaves are perfect
  trees of the leaf height, plain data for height 0, it shows a leaf if and only if it has as many
  siblings as the tree is deep (`AppendProofs.ShowsLeafExactly`).  Its position is the one shown
  if and only if all surplus path bits turn left (`AppendProofs.SurplusBits`).
  `SurplusPathMovesPosition` and `ShallowProofShowsInnerNode` are inputs for both.  A range proof
  with surplus path bits is never accepted (`RangeProofs.AcceptedIsShaped`), though the
  source does not look for them; it is rejected or the validation panics.
* SSZ offsets are cut to 32 bits.  A container comes back from its encoding if and only if all
  offsets fit (`Ssz.RoundTrip`).
* The closest-bucket iterator yields bucket 0 twice when the lowest bit of the distance is set, and
  nothing at all when the target is the local key.
* Slots that are open when their file is removed are never given back to the writing limit
  (`lost` in `WriteControl`).
* The announcement counter is never decreased.  It therefore only bounds the real number from
  above, and evicting starts early.  The evicted announcement is the oldest of its file.
  It is the oldest of all files, in every cache with these priorities, if and only if no other file
  has a priority below its timestamp (`LocationCache.OldestExactly`); in `StalePriorityRun` it is not.
* `confirm_logs` with a chain shorter than the delay wraps around.  Only blocks that are deep enough
  are confirmed if and only if the chain is as long as the delay, or all waiting blocks are above
  the wrapped difference (`ConfirmationQueue.ConfirmsOnlyDeep`, `ConfirmationQueue.EarlyConfirmRun`).
* The packet receiver waits for `max_nodes_response / 3 + 1` packets; a list split into more
  packets is cut off (`NodesPackets.ReassembledExactly`).

## Model

| member | source | states |
|---|---|---|
| `PaddedTree.RootIsMth` | common/append_merkle/src/merkle_tree.rs:31-47 | the recursive padded tree used as the reference is the RFC 6962 tree hash of the leaves padded with zero-leaf hashes to a power of two |
| `PaddedTree.NodeIsMth` | common/append_merkle/src/merkle_tree.rs:31-47 | every node of the padded tree is the tree hash of its block of padded leaves |
| `AppendMerkle.AppendMerkleTree.constructor` | common/append_merkle/src/lib.rs:33-128 | `new` and `new_with_depth`: a tree over given leaves, with or without a fixed depth and a first commit, is valid and fully known; the one root it accepts is that of the first commit, if there is one and leaves |
| `AppendMerkle.NewWithSubtrees` | common/append_merkle/src/lib.rs:61-88 | fails exactly like the list of subtrees; for non-increasing depths the tree over all leaves with its first commit, whose root alone is accepted, otherwise a panic or not that tree |
| `AppendMerkle.AppendMerkleTree.Append` | common/append_merkle/src/lib.rs:131-134 | one more true leaf; every node again equals its recursive definition; full knowledge is kept, commits stay restorable, and the new leaf may be updated |
| `AppendMerkle.AppendMerkleTree.AppendList` | common/append_merkle/src/lib.rs:136-140 | the same for a list of leaves, including the empty list |
| `AppendMerkle.AppendMerkleTree.UpdateLast` | common/append_merkle/src/lib.rs:165-173 | the layers are right for the replaced last leaf if and only if it is unchanged or the left siblings on its path were known, which stays as it was; on an empty tree the leaf is the first |
| `LastLeaf.UpdateExact` | common/append_merkle/src/lib.rs:165-173 | for every tree and leaf: the recomputation rewrites the path of the last leaf as far as it is known, and the result is right if and only if the leaf is unchanged or all left siblings on the path are known |
| `LastLeaf.PathKeeps` | common/append_merkle/src/lib.rs:165-173 | rewriting the path changes nothing beside it and keeps which of its siblings are known, full knowledge and closedness |
| `LastLeaf.LeftKnownDone` | common/append_merkle/src/lib.rs:131-140 | after leaves were appended and recomputed, every left sibling on the path of the last leaf is known |
| `LastLeaf.FullyLeftKnown` | common/append_merkle/src/lib.rs:165-173 | a fully known tree may always be updated |
| `LastLeaf.UpdateAfterSubtreeGoesStale` | common/append_merkle/src/lib.rs:165-173 | a concrete tree with a subtree of depth 2 in which an update leaves the old root |
| `AppendMerkle.AppendMerkleTree.FillLeaf` | common/append_merkle/src/lib.rs:178-185 | for any tree, index and leaf: what the run of the recomputation says, or the panic; the true leaf makes more nodes known, forgets none and does not change the root; for a wrong one, exactly when it panics and when the root changes |
| `FilledLeaf.FillExact` | common/append_merkle/src/lib.rs:175-185 | for every tree, leaf and wrong value: panics if and only if the value reaches a known node in the middle of a layer; otherwise the root changes, into that over the changed leaves, if and only if every node beside the path is known |
| `FilledLeaf.RunFill` | common/append_merkle/src/lib.rs:263-343 | layer by layer: the changed node on the path as far as its siblings are known, true nodes elsewhere and above |
| `FilledLeaf.RunAbove` | common/append_merkle/src/lib.rs:263-343 | a run does not depend on the layers below the one it has reached |
| `AppendMerkle.WrongFillRun` | common/append_merkle/src/lib.rs:175-185 | a tree of two unknown leaves whose root is another one after a wrong and a true leaf, without a panic |
| `AppendMerkle.AppendMerkleTree.AppendSubtreeInner` | common/append_merkle/src/lib.rs:345-363 | fails exactly for depth 0 or a misaligned tree; otherwise places the root above unknown nodes |
| `AppendMerkle.AppendMerkleTree.AppendSubtree` | common/append_merkle/src/lib.rs:147-152 | the leaves under the subtree root become true leaves; known nodes stay right; the last leaf may be updated if and only if the depth is 1 |
| `AppendMerkle.AppendMerkleTree.AppendSubtreeList` | common/append_merkle/src/lib.rs:154-161 | for any list: fails exactly if some subtree has depth 0 or is misaligned, with the ones before it pushed and not recomputed; a list of non-increasing depth appends all leaves; with an increase, and a leaf beside the old ones that is no padding, it panics or does not leave the tree |
| `DepthOrder.OrderedPushable` | common/append_merkle/src/lib.rs:154-161 | without an increase, all subtrees are aligned if and only if the first one is and none has depth 0 |
| `DepthOrder.OrderWorks` | common/append_merkle/src/lib.rs:154-161 | pushing subtrees of non-increasing depth and recomputing once gives the tree over all leaves, with no condition on what they hold |
| `DepthOrder.IncreaseFails` | common/append_merkle/src/lib.rs:154-161 | after an increase in depth, the recomputation panics or leaves a wrong node or an unknown root |
| `DepthOrder.OrderExact` | common/append_merkle/src/lib.rs:154-161 | a pushed list recomputes to the tree over all leaves if and only if its depths never increase |
| `DepthOrder.DepthsExact` | common/append_merkle/src/lib.rs:154-161 | for every tree and all depths: the lists with these depths all work if and only if the depths never increase |
| `DepthOrder.IncreasingDepthLosesRoot` | common/append_merkle/src/lib.rs:154-161 | a concrete list of increasing depth after whose recomputation the last node of layer 1 and the root are unknown |
| `DepthOrder.IncreasingDepthPanics` | common/append_merkle/src/lib.rs:154-161 | a concrete tree and list of increasing depth on which the recomputation panics |
| `DepthOrder.PaddingLeafHidesIncrease` | common/append_merkle/src/lib.rs:154-161 | a concrete list of increasing depth that works, because its first leaf is the padding leaf |
| `AppendMerkle.AppendMerkleTree.BeforeExtendLayer` | common/append_merkle/src/lib.rs:247-251 | a layer is added exactly when the height is the next one |
| `AppendMerkle.AppendMerkleTree.Recompute` | common/append_merkle/src/lib.rs:263-343 | on any layers, the loop does what the recursive definition of a run says, and panics exactly where that one does |
| `Recompute.RecomputeRight` | common/append_merkle/src/lib.rs:263-343 | from layers right up to the touched range a run reaches right layers everywhere, keeps what lies to the left, and does not panic |
| `Recompute.RunSteps` | common/append_merkle/src/lib.rs:263-343 | any run keeps a node, or replaces an unknown or last one by the parent of its children, layer by layer |
| `Recompute.UpdateParents` | common/append_merkle/src/lib.rs:274-331 | one layer of the recomputation writes exactly the parents of the touched children, tells the last one written, and panics exactly if a known parent in the middle would change |
| `Recompute.NoPanic` | common/append_merkle/src/lib.rs:310-326 | a known parent is never contradicted by its recomputed value, so the panic branch is dead |
| `Layers.RootKnown` | common/append_merkle/src/lib.rs:263-343 | the root of a valid tree is known and is the root of the padded tree |
| `Layers.ClosedFromLeaves` | common/append_merkle/src/lib.rs:178-185 | once all leaves are filled, every node is known and right |
| `Layers.Canonical` | common/append_merkle/src/lib.rs:131-173 | two fully known valid trees over the same leaves are equal, however the leaves came in |
| `AppendMerkle.RootIsPaddedMth` | common/append_merkle/src/lib.rs:131-173 | the root of any valid tree is the tree hash of its padded leaves |
| `AppendMerkle.AppendMerkleTree.Commit` | common/append_merkle/src/lib.rs:222-245 | the present right edge is recorded under the number and its root leads to it; the accepted roots are the old ones and the present one; nothing else changes; panics exactly if a layer is empty or the top is not one node; on a valid tree it does not, and a number that follows on the retained ones keeps it valid |
| `AppendMerkle.AppendMerkleTree.CollectRightMost` | common/append_merkle/src/lib.rs:235-238 | the right edge that a commit records: position and hash of the last node of each layer |
| `AppendMerkle.AppendMerkleTree.RevertTo` | common/append_merkle/src/lib.rs:371-390 | succeeds exactly for a retained number or an empty tree; restores the committed layers exactly if nothing was filled since, and at least them otherwise; stays closed exactly if the recorded edge allows it; later commits go, and a root is still accepted exactly if it was and no dropped version has it |
| `AppendMerkle.AppendMerkleTree.RestoreLayers` | common/append_merkle/src/lib.rs:371-390 | the layers become those cut back to the recorded right edge |
| `AppendMerkle.AppendMerkleTree.ClearAfter` | common/append_merkle/src/lib.rs:418-428 | exactly the later versions go, and exactly their roots |
| `AppendMerkle.AppendMerkleTree.Reset` | common/append_merkle/src/lib.rs:411-416 | the layers are empty again and the accepted roots are as before; the tree is valid if and only if all retained versions are empty |
| `AppendMerkle.SharedRootRun` | common/append_merkle/src/lib.rs:418-428 | two commits of one root and a revert to the first leave a retained version that its root does not lead to |
| `AppendMerkle.RevertAfterFillReopens` | common/append_merkle/src/lib.rs:371-390 | a run with a fill between commit and revert that leaves a known pair under an unknown parent |
| `Versions.RevertedClosed` | common/append_merkle/src/lib.rs:371-390 | a closed tree cut back to a recorded right edge is closed if and only if no recorded node is unknown above children that the live tree knows |
| `Versions.RevertedWellFormed` | common/append_merkle/src/lib.rs:371-390 | cutting the live layers back to the recorded right edge gives a valid tree over the committed leaves |
| `Versions.HistoryShowsReverted` | common/append_merkle/src/lib.rs:442-515 | the history overlay reads, node for node, as the reverted tree would |
| `AppendMerkle.AppendMerkleTree.AtRootVersion` | common/append_merkle/src/lib.rs:392-409 | succeeds exactly for accepted roots, and the view reads as the tree that a revert to that version would leave, which is the snapshot if nothing was filled since |
| `AppendMerkle.AppendMerkleTree.ProofAtRoot` | common/append_merkle/src/lib.rs:392-409 | exists exactly for a known leaf of an accepted version, shows the old root, and is accepted if and only if all nodes beside its path are known |
| `AppendMerkle.AppendMerkleTree.LeafAt` | common/append_merkle/src/lib.rs:208-218 | in range exactly below the leaf count; reported exactly if it is known, and then the true one |
| `AppendMerkle.AppendMerkleTree.GenRangeProof` | common/append_merkle/src/lib.rs:187-202 | exists exactly if both ends are known leaves, shows the root, and is accepted for the leaves between them if and only if all nodes beside both paths are known |
| `TreeRead.GenProof` | common/append_merkle/src/merkle_tree.rs:66-110 | a proof exists exactly for known leaves in range, and lists the siblings of the path |
| `TreeRead.GeneratedProofValid` | common/append_merkle/src/merkle_tree.rs:66-110 | a generated proof is accepted for a position if and only if it is its own index and all its siblings are known |
| `AppendProofs.ComputePosition` | common/append_merkle/src/proof.rs:79-87 | the position loop computes the number whose bits the path spells |
| `AppendProofs.PositionIsPath` | common/append_merkle/src/proof.rs:79-87 | a path spells exactly one position below two to its length, and every such position has one path |
| `AppendProofs.ValidateIntegrity` | common/append_merkle/src/proof.rs:37-54 | succeeds exactly if climbing from the item reaches the root |
| `AppendProofs.Validate` | common/append_merkle/src/proof.rs:56-67 | accepts exactly if the item, the position and the climb agree, and runs off the path exactly if there are more siblings than path bits |
| `AppendProofs.ClimbAbove` | common/append_merkle/src/proof.rs:37-54 | from any height, climbing reaches a tree node if and only if it starts at the node below and every sibling is the true one |
| `AppendProofs.ClimbIsNode` | common/append_merkle/src/proof.rs:37-54 | climbing reaches a tree node if and only if the item is the leaf and every sibling is the true one |
| `AppendProofs.ProofShows` | common/append_merkle/src/proof.rs:37-87 | any accepted proof with k siblings under a root of some height shows the node k layers down that the first k turns lead to |
| `AppendProofs.NoDeeperThanTree` | common/append_merkle/src/proof.rs:37-87 | an accepted proof has no more siblings than the root is high, and shows a perfect tree of the remaining height |
| `AppendProofs.ShowsLeafExactly` | common/append_merkle/src/proof.rs:37-87 | for any leaf height: an accepted proof shows a leaf if and only if it has as many siblings as the tree is deep |
| `AppendProofs.SurplusBits` | common/append_merkle/src/proof.rs:79-87 | path bits beyond the siblings leave the position as it is if and only if they all turn left |
| `AppendProofs.SingleSound` | common/append_merkle/src/proof.rs:37-87 | an accepted proof as deep as the tree forces the item to be the padded leaf at the position, and all siblings to be true |
| `AppendProofs.SingleComplete` | common/append_merkle/src/proof.rs:37-87 | a proof that starts at the true leaf is accepted if and only if the position is its own and its siblings are true |
| `AppendProofs.SurplusPathMovesPosition` | common/append_merkle/src/proof.rs:37-87 | with more path than lemmas, an accepted proof can name a wrong position |
| `AppendProofs.ShallowProofShowsInnerNode` | common/append_merkle/src/proof.rs:37-87 | a proof shallower than the tree can be accepted for an inner node |
| `RangeProofs.BuildParents` | common/append_merkle/src/proof.rs:115-166 | one round computes the parents of a run of nodes with its two outer siblings |
| `RangeProofs.HashUp` | common/append_merkle/src/proof.rs:115-166 | once both positions match the range, the rounds end in a single node: the error branch and the final assertion are dead; a sibling is missing exactly where a path bit needs one that is not there |
| `RangeProofs.ValidateRange` | common/append_merkle/src/proof.rs:104-166 | for any proofs: accepts exactly if both proofs and the hashed-up range agree, and panics exactly if a proof runs off its path or a needed sibling is missing |
| `RangeProofs.AcceptedIsShaped` | common/append_merkle/src/proof.rs:104-166 | an accepted range proof has exactly one sibling for each path bit on both sides |
| `RangeProofs.LongerEndsElsewhere` | common/append_merkle/src/proof.rs:104-166 | two climbs with the same turns and the same outer siblings end apart if one of them goes on |
| `RangeProofs.RangeSound` | common/append_merkle/src/proof.rs:104-166 | an accepted range proof under the root of a tree forces every claimed node to be the one at its position, as many layers down as the proof is long |
| `RangeProofs.RangeComplete` | common/append_merkle/src/proof.rs:104-166 | the true leaves with two accepted end proofs are accepted |
| `RangeProofs.RangeExact` | common/append_merkle/src/proof.rs:104-166 | under the root of a tree as deep as the proof, a range is accepted if and only if both ends are proven by shaped proofs and all leaves are the true ones |
| `Rfc6962.AuditPathClimbs` | common/merkle_light/src/lib.rs:10-20 | climbing the audit path of a leaf reaches the tree hash |
| `LightShape.SubIsMth` | common/merkle_light/src/merkle.rs:71-134 | the bottom-up node i of layer h is the tree hash of the leaves below it |
| `LightShape.SubPathIsAuditPath` | common/merkle_light/src/merkle.rs:137-195 | the siblings met going up, with odd nodes promoted, are the audit path within the block |
| `LightMerkle.MerkleTree.constructor` | common/merkle_light/src/merkle.rs:238-272 | from non-default leaves the array and links describe the tree over them |
| `LightMerkle.MerkleTree.Build` | common/merkle_light/src/merkle.rs:71-134 | the layers and links built bottom-up are those of the tree; the unwrap and the assertion never fire |
| `LightMerkle.MerkleTree.ComputePair` | common/merkle_light/src/merkle.rs:85-119 | each pair gives its parent, or a promoted link, through all four cases |
| `LightMerkle.LinksStep` | common/merkle_light/src/merkle.rs:120-129 | applying the one link update of a layer keeps every link pointing at the real hash it stands for |
| `LightMerkle.SourceHolds` | common/merkle_light/src/merkle.rs:71-134 | every node, promoted or not, is found at its source as a real hash |
| `LightMerkle.MerkleTree.RootIsMth` | common/merkle_light/src/merkle.rs:198-200 | the last array element is the RFC 6962 tree hash and not the default hash |
| `LightMerkle.MerkleTree.GenProof` | common/merkle_light/src/merkle.rs:137-195 | the proof of leaf i is well shaped and its steps are the audit path of i |
| `LightMerkle.ValidateLight` | common/merkle_light/src/proof.rs:44-69 | succeeds exactly if the folded hash is the root |
| `LightMerkle.AuditPathAccepted` | common/merkle_light/src/proof.rs:44-69 | an audit path with the right ends validates |
| `BitSmear.NextPow2` | common/merkle_light/src/merkle.rs:288-300 | a power of two, not below the argument, whose half is below it |
| `BitSmear.ComputeNextPow2` | common/merkle_light/src/merkle.rs:288-300 | the six smearing steps compute it for all arguments up to two to the 63 |
| `FileProofs.ComputePathPosition` | node/shared_types/src/lib.rs:254-282 | the loop from the root down computes the position, or the error, that the recursive definition gives |
| `FileProofs.PositionUnique` | node/shared_types/src/lib.rs:254-282 | a path yields index m in a tree of n leaves if and only if it is the path of leaf m |
| `FileProofs.AuditPathBits` | node/shared_types/src/lib.rs:254-282 | the turns of an audit path are the path bits of its index |
| `FileProofs.ValidateFileProof` | node/shared_types/src/lib.rs:212-252 | accepts, rejects and fails exactly as shape, ends, position and climb say |
| `FileProofs.ClimbIsMth` | node/shared_types/src/lib.rs:212-252 | steps with the turns of leaf m reach the tree hash if and only if they are its audit path from that leaf |
| `FileProofs.FileProofExact` | node/shared_types/src/lib.rs:212-252 | a file proof is accepted for a leaf and a position if and only if it is the proof of that leaf of the file |
| `SegmentProofs.NodesToRoot` | node/log_entry_sync/src/sync_manager/log_entry_fetcher.rs:332-338 | the loop computes the right fold of the submission nodes |
| `SegmentProofs.FoldIsMth` | node/log_entry_sync/src/sync_manager/log_entry_fetcher.rs:332-338 | for nodes of strictly decreasing depth the right fold is the tree hash over all chunks |
| `SegmentProofs.NumEntries` | node/shared_types/src/lib.rs:97-105 | the number of chunks under all nodes |
| `SegmentProofs.ComputeMerkleRoot` | node/shared_types/src/proof.rs:204-219 | for any list of nodes: the fold of the last ones below a depth, or none if the last one is not |
| `SegmentProofs.TrailingZerosAre` | common/merkle_light/src/merkle.rs:303-305 | an odd number times two to the s has s trailing zeros |
| `Segments.SegsMth` | node/shared_types/src/proof.rs:102-127 | the tree over segment roots has the same root as the tree over chunks |
| `Segments.BlockPath` | node/shared_types/src/proof.rs:46-95 | inside a node, the audit path over segments is the path of the perfect tree above the segments |
| `SegmentProofs.FindNode` | node/shared_types/src/proof.rs:140-162 | the search stops at the node that holds the segment, having collected the siblings to its left |
| `SegmentProofs.SkipNode` | node/shared_types/src/proof.rs:140-162 | passing over a node prepends its root as a left sibling to the audit path |
| `SegmentProofs.StopAtNode` | node/shared_types/src/proof.rs:164-178 | stopping in a node leaves the root of the later nodes as the one right sibling |
| `SegmentProofs.ComputeNodeProof` | node/shared_types/src/proof.rs:129-201 | gives the whole proof of a segment that spans the remaining nodes, or the outer part for a segment inside a node |
| `SegmentProofs.FlowSliceIsAudit` | node/shared_types/src/proof.rs:46-95 | the part of a flow proof between segment height and node height is the audit path inside the node |
| `SegmentProofs.SplicedProof` | node/shared_types/src/proof.rs:46-95 | flow part and outer part together are the audit path of the segment in the file |
| `SegmentProofs.ComputeSegmentRoot` | node/shared_types/src/lib.rs:307-324 | for a segment of two to the s chunks, the root of the padded tree of height s over the hashes; for a full one, their tree hash; for any other size, that of the hashes followed by zero hashes |
| `SegmentProofs.ComputeSegmentProofFull` | node/shared_types/src/proof.rs:46-95 | the splice succeeds and is the proof of the segment |
| `SegmentProofs.ComputeSegmentProof` | node/shared_types/src/proof.rs:102-127 | succeeds exactly for an aligned segment inside the file, with a proof that validates to the file root at the segment's index; the data need agree with the file element by element only, and may stop where the file holds zeros |
| `Ssz.OffsetTruncates` | version-meld/eth2_ssz/src/encode.rs:139-167 | the four bytes of a length, least significant first, and the number read back from them both give its low 32 bits |
| `Ssz.OffsetDetermined` | version-meld/eth2_ssz/src/decode.rs:360-372 | four bytes are the encoding of the offset they decode to |
| `Ssz.SszEncoder.Container` | version-meld/eth2_ssz/src/encode.rs:95-103 | an encoder that has written nothing |
| `Ssz.SszEncoder.Append` | version-meld/eth2_ssz/src/encode.rs:106-125 | the fixed and the variable part both grow as the format says for the appended item |
| `Ssz.SszEncoder.Finalize` | version-meld/eth2_ssz/src/encode.rs:129-134 | with the true fixed length the buffer has gained the encoding of all items |
| `Ssz.SanitizeOffset` | version-meld/eth2_ssz/src/decode.rs:72-91 | an offset passes exactly if it is in bounds, not decreasing and not into or beyond the start of the variable part; otherwise the first of the four checks that fails is the error |
| `Ssz.SszDecoderBuilder.constructor` | version-meld/eth2_ssz/src/decode.rs:141-148 | a builder with nothing registered |
| `Ssz.SszDecoderBuilder.RegisterType` | version-meld/eth2_ssz/src/decode.rs:181-216 | the index stays within the bytes; an error means that no container starting with these shapes decodes, and tells exactly which check failed |
| `Ssz.SszDecoderBuilder.Build` | version-meld/eth2_ssz/src/decode.rs:218-262 | returns the items the offsets describe; an error means that there are none, and which side the first offset is on |
| `Ssz.DecodeContainer` | version-meld/eth2_ssz/src/decode.rs:141-262 | whatever decodes is an encoding of the result within the limit; what fails is no such encoding of anything |
| `Ssz.DecodesExactly` | version-meld/eth2_ssz/src/decode.rs:181-262 | bytes decode to items if and only if they are the encoding of those items and all offsets fit |
| `Ssz.RoundTrip` | version-meld/eth2_ssz/src/encode.rs:95-134 | items come back from their encoding if and only if all offsets fit 32 bits |
| `KBuckets.BucketIndex` | version-meld/discv5/src/kbucket.rs:207-211 | the highest set bit of the distance, none exactly for distance zero |
| `KBuckets.XorBits` | version-meld/discv5/src/kbucket/key.rs:81-85 | a bit of the distance is set exactly where the keys differ |
| `KBuckets.XorTriangle` | version-meld/discv5/src/kbucket/key.rs:81-85 | the distance of two keys can be had from their distances to a third |
| `KBuckets.BucketOrder` | version-meld/discv5/src/kbucket.rs:721-753 | for keys of different buckets, one bit of the target's distance decides which is closer to the target |
| `KBuckets.VisitsInOrder` | version-meld/discv5/src/kbucket.rs:785-816 | set bits downwards, bucket 0, clear bits upwards: each bucket comes before all that are further away |
| `KBuckets.VisitsTimes` | version-meld/discv5/src/kbucket.rs:785-816 | every bucket is visited once, bucket 0 twice exactly when the lowest bit is set |
| `KBuckets.ClosestBucketsIter.constructor` | version-meld/discv5/src/kbucket.rs:756-762 | starts at the highest set bit, so that exactly these visits remain |
| `KBuckets.ClosestBucketsIter.NextIn` | version-meld/discv5/src/kbucket.rs:764-772 | the next lower set bit, or none |
| `KBuckets.ClosestBucketsIter.NextOut` | version-meld/discv5/src/kbucket.rs:774-782 | the next higher clear bit, or none |
| `KBuckets.ClosestBucketsIter.Next` | version-meld/discv5/src/kbucket.rs:788-815 | each call takes the first of the remaining visits, in every state, and ends for good |
| `KBuckets.ClosestIter.constructor` | version-meld/discv5/src/kbucket.rs:616-633 | the keys to come are those of the visits, bucket by bucket |
| `KBuckets.ClosestIter.Next` | version-meld/discv5/src/kbucket.rs:828-855 | each call takes the first of the keys to come |
| `KBuckets.ClosestIsSortedScan` | version-meld/discv5/src/kbucket.rs:818-855 | the keys yielded for a non-local target are the whole table, with bucket 0 repeated if the lowest bit is set, sorted by distance |
| `KBuckets.LocalTargetYieldsNothing` | version-meld/discv5/src/kbucket.rs:756-762 | for the local key itself nothing is yielded |
| `NodesPackets.SplitNodes` | version-meld/discv5/src/service.rs:961-1005 | the packets concatenate to the records and carry their true count; each stays below 1280 - 104 bytes unless it is one record, and could not have taken the first record of the next |
| `NodesPackets.BudgetKept` | version-meld/discv5/src/service.rs:966-995 | all packets are within the budget if and only if every record is on its own |
| `NodesPackets.AtLeastThree` | version-meld/discv5/src/service.rs:615-618 | with records of at most 300 bytes every packet but the last holds three or more |
| `NodesPackets.PacketCount` | version-meld/discv5/src/service.rs:615-618 | so n such records need at most n / 3 packets, rounded up |
| `NodesPackets.RetainFilters` | version-meld/discv5/src/service.rs:675-683 | what is retained are exactly the wanted records, in their order |
| `NodesPackets.RetainCount` | version-meld/discv5/src/service.rs:675-683 | a wanted record is retained as often as it came, an unwanted one never |
| `Filters.FilteredOnce` | version-meld/discv5/src/service.rs:675-683 | only one list holds exactly the wanted elements of another in their order |
| `NodesPackets.Requester.HandleNodes` | version-meld/discv5/src/service.rs:703-748 | retains the wanted records, and stores and waits, or reports and forgets, exactly as count, total and the limit of a third of the configured number plus one say; other requests and nodes are untouched |
| `NodesPackets.Requester.Receive` | version-meld/discv5/src/service.rs:703-748 | packets in order lead to one report, of the wanted records of as many packets as are waited for |
| `NodesPackets.ReassembledExactly` | version-meld/discv5/src/service.rs:717-730 | the report is the whole list if and only if there are no more packets than are waited for |
| `NodesPackets.Exchange` | version-meld/discv5/src/service.rs:906-1005 | up to one more than the configured number of small records, as the sender can build, arrive as one more report: every reported record is wanted, and every wanted one is reported, in order |
| `WriteControl.CtrlWindow.constructor` | node/chunk_pool/src/mem_pool/chunk_write_control.rs:25-31 | an empty window at segment 0 |
| `WriteControl.CtrlWindow.CheckDuplicate` | node/chunk_pool/src/mem_pool/chunk_write_control.rs:33-37 | a segment is a duplicate exactly if it is finished or being written |
| `WriteControl.CtrlWindow.StartWriting` | node/chunk_pool/src/mem_pool/chunk_write_control.rs:41-57 | opens a slot exactly if it lies below the right end of the window |
| `WriteControl.CtrlWindow.RollbackWriting` | node/chunk_pool/src/mem_pool/chunk_write_control.rs:59-62 | closes a slot without finishing it |
| `WriteControl.CtrlWindow.FinishWriting` | node/chunk_pool/src/mem_pool/chunk_write_control.rs:64-75 | the segment joins the finished ones, and the left boundary is again the first unfinished segment |
| `WriteControl.ChunkPoolWriteCtrl.constructor` | node/chunk_pool/src/mem_pool/chunk_write_control.rs:111-117 | no files, nothing open, nothing lost |
| `WriteControl.ChunkPoolWriteCtrl.RemoveFile` | node/chunk_pool/src/mem_pool/chunk_write_control.rs:123-125 | the file's open slots are lost to the counter, which keeps counting them |
| `WriteControl.ChunkPoolWriteCtrl.WriteSegment` | node/chunk_pool/src/mem_pool/chunk_write_control.rs:127-166 | opens one slot exactly if the segment is new and no error occurs; the counter stays within the limit and is the open plus the lost slots; a reverted file loses its slots, the counter unchanged; a complete file opens none in range; which files are there on every outcome, and a new one has the given size and nothing finished |
| `WriteControl.ChunkPoolWriteCtrl.OnWriteSucceeded` | node/chunk_pool/src/mem_pool/chunk_write_control.rs:168-186 | reports completion exactly when all segments are finished, which an in-range segment can bring about only once |
| `WriteControl.ChunkPoolWriteCtrl.OnWriteFailed` | node/chunk_pool/src/mem_pool/chunk_write_control.rs:188-199 | closes the slot and finishes nothing |
| `LocationCache.AnnouncementCache.constructor` | node/file_location_cache/src/file_location_cache.rs:31-40 | an empty cache with a positive capacity |
| `LocationCache.AnnouncementCache.PeekPriority` | node/file_location_cache/src/file_location_cache.rs:43-46 | the timestamp of some announcement than which none is older, none exactly for an empty cache |
| `LocationCache.AnnouncementCache.Pop` | node/file_location_cache/src/file_location_cache.rs:49-52 | an oldest announcement leaves map and queue together |
| `LocationCache.AnnouncementCache.GarbageCollect` | node/file_location_cache/src/file_location_cache.rs:59-73 | exactly the announcements whose timestamp plus the timeout is not above now go, and are counted |
| `LocationCache.AnnouncementCache.Insert` | node/file_location_cache/src/file_location_cache.rs:76-97 | an announcement not later than the live one of its peer changes nothing else; another one is put in, and if that exceeds the capacity an oldest one goes; the cache is not empty afterwards |
| `LocationCache.AnnouncementCache.Random` | node/file_location_cache/src/file_location_cache.rs:100-115 | some live announcement, none exactly if all have expired |
| `LocationCache.AnnouncementCache.All` | node/file_location_cache/src/file_location_cache.rs:118-122 | all live announcements |
| `LocationCache.FileCache.constructor` | node/file_location_cache/src/file_location_cache.rs:142-149 | an empty cache in which both levels agree |
| `LocationCache.FileCache.Insert` | node/file_location_cache/src/file_location_cache.rs:152-176 | both levels stay in agreement, the counter bounds the real number so the expect holds, and the real number stays within the limit; the one that goes, if any, is the oldest of the file in front, and the priorities follow |
| `LocationCache.FileCache.Pop` | node/file_location_cache/src/file_location_cache.rs:179-191 | one oldest announcement of the file in front goes, with the file if it was the last; oldest of all if no other priority is below its timestamp |
| `LocationCache.OldestExactly` | node/file_location_cache/src/file_location_cache.rs:179-191 | an oldest announcement of a file is the oldest of all, in every cache with the same priorities and that file, if and only if no other priority is below its timestamp |
| `LocationCache.EvictsOldest` | node/file_location_cache/src/file_location_cache.rs:179-191 | the announcement that goes is the oldest of all exactly under that condition, which an up-to-date priority implies |
| `LocationCache.StalePriorityRun` | node/file_location_cache/src/file_location_cache.rs:152-191 | three insertions after which the announcement that goes is not the oldest of all, because a priority is out of date |
| `LocationCache.FileCache.UpdateAfterGc` | node/file_location_cache/src/file_location_cache.rs:201-224 | map, queue and counter agree again after a collection; the file's priority is that of its oldest announcement if any were collected, and all other priorities stay; the expects hold |
| `LocationCache.FileCache.Random` | node/file_location_cache/src/file_location_cache.rs:194-199 | a live announcement of the file, none exactly if there is none; emptied files go, the priorities follow and the counter stays |
| `LocationCache.FileCache.All` | node/file_location_cache/src/file_location_cache.rs:227-232 | the live announcements of the file; emptied files go, the priorities follow and the counter stays |
| `LocationCache.SettledSize` | node/file_location_cache/src/file_location_cache.rs:152-176 | replacing the announcements of one file changes the real number by the difference |
| `ConfirmationQueue.LogConfirmationQueue.constructor` | node/log_entry_sync/src/sync_manager/log_entry_fetcher.rs:225-231 | an empty queue |
| `ConfirmationQueue.Merge` | node/log_entry_sync/src/sync_manager/log_entry_fetcher.rs:238-255 | removed and new logs, each grouped by increasing block in arrival order, none lost; fails exactly if a block is missing |
| `ConfirmationQueue.PickFilters` | node/log_entry_sync/src/sync_manager/log_entry_fetcher.rs:238-255 | the removed logs, and the new ones, are taken apart without loss and in order |
| `ConfirmationQueue.OfBlockFilters` | node/log_entry_sync/src/sync_manager/log_entry_fetcher.rs:238-255 | the group of a block is exactly its logs in arrival order |
| `ConfirmationQueue.LogConfirmationQueue.Truncate` | node/log_entry_sync/src/sync_manager/log_entry_fetcher.rs:260-264 | exactly the blocks below the given one stay |
| `ConfirmationQueue.LogConfirmationQueue.Extend` | node/log_entry_sync/src/sync_manager/log_entry_fetcher.rs:279-284 | all new blocks are added, exactly if the first is above the last queued one, or none |
| `ConfirmationQueue.LogConfirmationQueue.Push` | node/log_entry_sync/src/sync_manager/log_entry_fetcher.rs:237-287 | on every outcome the queue increases strictly and is exactly the blocks below the lowest removed one, plus the new blocks on success; every log taken in is queued, confirmed or dropped |
| `ConfirmationQueue.LogConfirmationQueue.ConfirmLogs` | node/log_entry_sync/src/sync_manager/log_entry_fetcher.rs:289-304 | confirms exactly the blocks whose number plus the delay is at most the latest one, or, on a chain shorter than the delay, at most that plus two to the 64, and returns their logs in block order |
| `ConfirmationQueue.ConfirmsOnlyDeep` | node/log_entry_sync/src/sync_manager/log_entry_fetcher.rs:289-304 | only blocks that are deep enough are confirmed if and only if the chain is as long as the delay or all waiting blocks are above the wrapped difference |
| `ConfirmationQueue.EarlyConfirmRun` | node/log_entry_sync/src/sync_manager/log_entry_fetcher.rs:289-304 | a pushed log of block 3 is confirmed at block 5 under a delay of twelve |
| `Seal.SealWithMask` | common/ionian_seal/src/lib.rs:24-31 | byte by byte: the first 32 are masked with the given mask, each later one with its place in the hash of the sealed 32-byte word before |
| `Seal.UnsealWithMask` | common/ionian_seal/src/lib.rs:33-44 | byte by byte: the same with the hash of the word before as it was in the sealed buffer |
| `Seal.SealedBytes` | common/ionian_seal/src/lib.rs:24-31 | what the recursive sealing puts at each byte |
| `Seal.UnsealedBytes` | common/ionian_seal/src/lib.rs:33-44 | what the recursive unsealing puts at each byte |
| `Seal.UnsealUndoesSeal` | common/ionian_seal/src/lib.rs:24-44 | unsealing after sealing is the identity, for every buffer, mask and hash |
| `Seal.SealUndoesUnseal` | common/ionian_seal/src/lib.rs:24-44 | sealing after unsealing is the identity |
| `Segmentation.BytesToChunks` | node/shared_types/src/lib.rs:36-42 | the least number of chunks that hold the bytes |
| `Segmentation.PaddedChunkBounds` | node/shared_types/src/lib.rs:44-62 | padding goes to the least multiple of a sixteenth of the next power of two, stays below that power, and adds less than an eighth |
| `Segmentation.SegmentSizeExactly` | node/shared_types/src/lib.rs:64-70 | segment count and last size are the only numbers with full segments before a non-empty last one |
| `Segmentation.SegmentSizeMono` | node/shared_types/src/lib.rs:64-70 | more chunks never need fewer segments |
| `Segmentation.SegmentAt` | node/shared_types/src/lib.rs:64-70 | a segment exists exactly if it begins inside the file, and holds a full segment or the rest |
| `Segmentation.SplitFileIntoSegments` | node/rpc/src/types.rs:65-92 | the byte arithmetic agrees with the chunk arithmetic of the unpadded file; fails exactly for an empty file |
| `Segmentation.ValidateDataSizeAndIndex` | node/rpc/src/types.rs:94-117 | accepts exactly a segment that begins inside a non-empty file and is as long as a full one or the rest of the chunks |
| `Segmentation.ValidatedSegmentExtends` | node/rpc/src/types.rs:132-187 | an accepted segment is at most as long as its proof expects and short by whole chunks only, so "invalid data len" cannot occur |
| `Segmentation.ExpectedAddsUp` | node/rpc/src/types.rs:166-187 | the lengths that the proofs expect of all segments add up to the padded file |

## Left out

- DepthOrder.OrderExact: does not decide about a list with an increase whose leaves in the old incomplete block are all padding; such a list can work, as `DepthOrder.PaddingLeafHidesIncrease` shows.
- DepthOrder.IncreaseFails: the same lists are excluded.
- AppendMerkle.AppendMerkleTree.Commit: does not say what a revert does after a number was committed that does not follow on the retained ones; its callers pass the next one.
- AppendMerkle.AppendMerkleTree.constructor: null leaves are not passed.
- SegmentProofs.NumEntries: counts nothing for a node of depth 0, where the source underflows; the contract never produces one.
- SegmentProofs.ComputeSegmentProof: the depth-0 submission node, which the contract never produces, is excluded.
- Ssz.SszDecoderBuilder.RegisterType: after an error the builder is not used again, as the `?` in every caller ensures.
- The 64 entries of `ZERO_HASHES` as a bound on tree height, and overflow of `usize` and `u32` arithmetic.
- LocationCache: concurrent use behind the mutex; the announcements' signatures and other fields.
- KBuckets: pending entries applied while iterating, and the per-bucket projection; the table is fixed.
- NodesPackets: banning of peers, ENR callbacks, lost or reordered packets, and the report made on a time-out.
- Keccak, Blake2b and signatures; the parallel map in `build` is modelled in order.
- The chunk cache, the sync and query services, RLP records, the miner, router, network and RPC plumbing, storage back ends and command line.
