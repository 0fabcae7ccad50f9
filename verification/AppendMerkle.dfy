/**
 `AppendMerkleTree`, the mutable tree with its committed versions.

 The ghost field `truth` holds the leaves the tree stands for, `snapshots` the tree at every
 retained commit, and `fills` counts the unknown leaves filled in so far. Their invariant is what
 holds over every run of the public operations.
 */
module AppendMerkle {
  import opened Bits
  import opened Hashing
  import opened Wrappers
  import opened PaddedTree
  import opened Rfc6962
  import opened Layers
  import opened Subtrees
  import opened Recompute
  import opened SubtreeLists
  import opened AppendProofs
  import opened RangeProofs
  import opened TreeRead
  import opened Versions
  import opened DepthOrder
  import opened LastLeaf
  import opened FilledLeaf

  class AppendMerkleTree {
    var layers: Layers
    var deltaNodes: map<nat, DeltaNodes>
    var rootToSeq: map<Hash, nat>
    const minDepth: Option<nat>
    const leafHeight: nat
    ghost var truth: seq<Hash>
    ghost var snapshots: map<nat, Snapshot>
    ghost var fills: nat

    ghost function Base(): nat {
      if minDepth.Some? then minDepth.value else 1
    }

    ghost predicate ValidVersions()
      reads this
    {
      VersionsOk(snapshots, deltaNodes, rootToSeq, layers, truth, leafHeight, Base(), fills)
    }

    ghost predicate Valid()
      reads this
    {
      WellFormed(layers, truth, leafHeight, Base()) && ValidVersions()
    }

    lemma NoRoots()
      requires rootToSeq == map[]
      ensures forall root :: !CheckRoot(root)
    {
    }

    lemma OneVersion(seqNo: nat)
      requires ValidVersions() && snapshots.Keys == {seqNo}
      ensures NextSeq(deltaNodes.Keys, seqNo + 1)
    {
    }

    /** `new` and `new_with_depth`: all layers from the leaves, and the first commit. */
    constructor (leaves: seq<Hash>, depth: Option<nat>, lh: nat, startSeq: Option<nat>)
      requires NoNulls(leaves)
      requires depth.Some? ==> depth.value >= 1
      ensures Valid() && truth == leaves && minDepth == depth && leafHeight == lh
      ensures fills == 0
      ensures FullyKnown(layers) && Closed(layers)
      ensures snapshots == if startSeq.Some? then map[startSeq.value := Snapshot(layers, truth, 0)] else map[]
      ensures forall root :: CheckRoot(root) <==> startSeq.Some? && leaves != [] && root == TopNode(layers)
    {
      minDepth := depth;
      leafHeight := lh;
      layers := if depth.Some? then seq(depth.value, _ => []) else [[]];
      deltaNodes := map[];
      rootToSeq := map[];
      truth := [];
      snapshots := map[];
      fills := 0;
      new;
      hide *;
      FreshTree(layers, leafHeight, Base());
      NoRoots();
      if |leaves| > 0 {
        AppendLeaves(leaves);
      }
      CommitFirst(startSeq);
    }

    method CommitFirst(seqNo: Option<nat>)
      requires Valid() && deltaNodes == map[] && snapshots == map[]
      modifies this`deltaNodes, this`rootToSeq, this`snapshots
      ensures Valid()
      ensures snapshots == if seqNo.Some? then map[seqNo.value := Snapshot(layers, truth, fills)] else map[]
      ensures forall root :: CheckRoot(root) <==> old(CheckRoot(root)) || (seqNo.Some? && truth != [] && root == TopNode(layers))
    {
      hide *;
      HasLayer();
      if seqNo.Some? { FirstSeq(deltaNodes, seqNo.value); }
      var panicked := Commit(seqNo);
    }

    lemma HasLayer()
      requires Valid()
      ensures |layers| >= 1
    {
    }

    // ---------- Appending ----------

    method Append(newLeaf: Hash)
      requires Valid() && newLeaf != Null
      modifies this
      ensures Valid() && truth == old(truth) + [newLeaf] && LeftKnown(layers, |truth|)
      ensures unchanged(`deltaNodes) && unchanged(`rootToSeq) && unchanged(`snapshots) && unchanged(`fills)
      ensures old(Closed(layers)) ==> Closed(layers)
      ensures old(FullyKnown(layers)) ==> FullyKnown(layers)
      ensures forall root :: CheckRoot(root) <==> old(CheckRoot(root))
    {
      AppendLeaves([newLeaf]);
    }

    method AppendList(leafList: seq<Hash>)
      requires Valid() && NoNulls(leafList)
      modifies this
      ensures Valid() && truth == old(truth) + leafList
      ensures leafList != [] || old(LeftKnown(layers, |truth|)) ==> LeftKnown(layers, |truth|)
      ensures unchanged(`deltaNodes) && unchanged(`rootToSeq) && unchanged(`snapshots) && unchanged(`fills)
      ensures old(Closed(layers)) ==> Closed(layers)
      ensures old(FullyKnown(layers)) ==> FullyKnown(layers)
      ensures forall root :: CheckRoot(root) <==> old(CheckRoot(root))
    {
      hide LeftKnown;
      if |leafList| > 0 {
        AppendLeaves(leafList);
      } else {
        RecomputeNothing();
      }
    }

    /** `recompute` from the end of the leaves, as an empty list causes it. */
    method RecomputeNothing()
      requires Valid()
      modifies this`layers
      ensures Valid() && Refines(layers, old(layers))
      ensures old(LeftKnown(layers, |truth|)) ==> LeftKnown(layers, |truth|)
      ensures old(Closed(layers)) ==> Closed(layers)
      ensures old(FullyKnown(layers)) ==> FullyKnown(layers)
    {
      hide WellFormed, VersionsOk, Closed, FullyKnown, Ready, Complete, Finished, ClosedOutside, Extends, Refines, Run, LeftKnown;
      LeafLayer(layers, truth, leafHeight, Base());
      var startIndex := |layers[0]|;
      ghost var raw := layers;
      CompleteReady(raw, truth, leafHeight, Base(), startIndex);
      ClosedAnywhere(raw, startIndex, true, 0);
      RecomputeRight(raw, truth, leafHeight, startIndex, None, true, 0, 0);
      var panicked := Recompute(startIndex, None);
      RecomputedSame(raw, layers, truth, leafHeight, Base(), startIndex);
      VersionsExtend(snapshots, deltaNodes, rootToSeq, raw, layers, truth, truth, leafHeight, Base(), fills, startIndex);
      if LeftKnown(raw, |truth|) { LeftKnownRefined(layers, raw, |truth|); }
    }

    method AppendLeaves(leafList: seq<Hash>)
      requires Valid() && NoNulls(leafList) && |leafList| > 0
      modifies this
      ensures Valid() && truth == old(truth) + leafList && LeftKnown(layers, |truth|)
      ensures unchanged(`deltaNodes) && unchanged(`rootToSeq) && unchanged(`snapshots) && unchanged(`fills)
      ensures old(Closed(layers)) ==> Closed(layers)
      ensures old(FullyKnown(layers)) ==> FullyKnown(layers)
    {
      hide WellFormed, VersionsOk, Closed, FullyKnown, Ready, Extended, Finished, ClosedOutside, Extends, Run, LeftKnown;
      ghost var ls := layers;
      LeafLayer(ls, truth, leafHeight, Base());
      var startIndex := |layers[0]|;
      layers := layers[0 := layers[0] + leafList];
      ghost var raw := layers;
      ghost var u := truth + leafList;
      AppendReady(ls, truth, leafHeight, Base(), leafList);
      AppendClosed(ls, truth, leafHeight, Base(), leafList);
      RecomputeRight(raw, u, leafHeight, startIndex, None, false, 0, 0);
      var panicked := Recompute(startIndex, None);
      LeftKnownDone(raw, layers, u, leafHeight, startIndex);
      AppendDone(ls, raw, layers, truth, u, leafHeight, Base(), leafList);
      assert truth[..startIndex] == u[..startIndex];
      VersionsExtend(snapshots, deltaNodes, rootToSeq, ls, layers, truth, u, leafHeight, Base(), fills, startIndex);
      truth := u;
    }

    /**
     Change the last leaf; on an empty tree it becomes the first one. The result is the tree over
     the changed leaves exactly when everything to the left of the leaf's path is known, or the
     leaf does not change; otherwise a node above the leaf is left out of date.
     */
    method UpdateLast(updatedLeaf: Hash)
      requires Valid() && updatedLeaf != Null
      modifies this
      ensures unchanged(`deltaNodes) && unchanged(`rootToSeq) && unchanged(`snapshots) && unchanged(`fills)
      ensures old(truth) == [] ==> Valid() && truth == [updatedLeaf] && LeftKnown(layers, 1)
      ensures old(truth) != [] ==>
                var n := |old(truth)|;
                var u := old(truth)[n - 1 := updatedLeaf];
                && (WellFormed(layers, u, leafHeight, Base()) <==> old(CanUpdate(layers, truth, updatedLeaf)))
                && (LeftKnown(layers, n) <==> old(LeftKnown(layers, n)))
                && (old(CanUpdate(layers, truth, updatedLeaf)) ==> Valid() && truth == u)
      ensures old(Closed(layers)) ==> Closed(layers)
      ensures old(FullyKnown(layers)) ==> FullyKnown(layers)
      ensures forall root :: CheckRoot(root) <==> old(CheckRoot(root))
    {
      hide WellFormed, VersionsOk, Closed, FullyKnown, Extends, Run, LeftKnown, PathUpdated;
      LeafLayer(layers, truth, leafHeight, Base());
      if |layers[0]| == 0 {
        AppendLeaves([updatedLeaf]);
      } else {
        ghost var ls := layers;
        var n := |layers[0]| - 1;
        layers := layers[0 := layers[0][n := updatedLeaf]];
        UpdateExact(ls, truth, leafHeight, Base(), updatedLeaf);
        var panicked := Recompute(n, None);
        PathKeeps(ls, layers, truth, leafHeight, Base(), updatedLeaf);
        ghost var u := truth[n := updatedLeaf];
        if CanUpdate(ls, truth, updatedLeaf) {
          assert truth[..n] == u[..n];
          VersionsExtend(snapshots, deltaNodes, rootToSeq, ls, layers, truth, u, leafHeight, Base(), fills, n);
          truth := u;
        }
      }
    }

    /**
     Fill an unknown leaf. The source panics out of range and for a known leaf of another value.
     With the true value the root stays, and what was known stays as it is. Another value is
     stored, or meets a known node that it contradicts.
     */
    method FillLeaf(index: nat, leaf: Hash) returns (panicked: bool)
      modifies this`layers, this`fills
      ensures var ls := old(layers);
              if |ls| == 0 || index >= |ls[0]| || ls[0][index] != Null then
                && (panicked <==> |ls| == 0 || index >= |ls[0]| || ls[0][index] != leaf)
                && layers == ls && fills == old(fills)
              else
                && fills == old(fills) + 1
                && Run(ls[0 := ls[0][index := leaf]], 0, index, Some(index + 1), leafHeight) == if panicked then None else Some(layers)
      ensures old(Valid()) && index < |truth| && leaf == truth[index] ==>
                && !panicked && Valid() && layers[0][index] == leaf
                && Refines(layers, old(layers)) && TopNode(layers) == old(TopNode(layers))
                && (old(LeftKnown(layers, |truth|)) ==> LeftKnown(layers, |truth|))
                && (old(Closed(layers)) ==> Closed(layers))
      ensures old(Valid()) && index < |truth| && NullAt(old(layers), 0, index) && leaf != truth[index] && leaf != Null ==>
                && OnPath(old(layers), index)
                && (panicked <==> FillPanics(old(layers), leafHeight, index))
                && (!panicked ==>
                      && Filled(old(layers), layers, truth, truth[index := leaf], leafHeight, index)
                      && !WellFormed(layers, truth, leafHeight, Base())
                      && (WellFormed(layers, truth[index := leaf], leafHeight, Base()) <==> SiblingsKnown(old(layers), leafHeight, index))
                      && (TopNode(layers) != old(TopNode(layers)) <==> SiblingsKnown(old(layers), leafHeight, index)))
      ensures forall root :: CheckRoot(root) <==> old(CheckRoot(root))
    {
      hide WellFormed, VersionsOk, Closed, Refines, TopNode, Run, LeftKnown, OnPath, FillPanics, Filled, SiblingsKnown;
      ghost var ls := layers;
      if Valid() && index < |truth| { FilledTree(ls, truth, leafHeight, Base(), index, leaf); }
      if |layers| == 0 || index >= |layers[0]| {
        return true;
      }
      if layers[0][index] != Null {
        RefinesSelf(ls);
        return layers[0][index] != leaf;
      }
      layers := layers[0 := layers[0][index := leaf]];
      panicked := Recompute(index, Some(index + 1));
      if old(Valid()) && index < |truth| && leaf == truth[index] {
        VersionsFilled(snapshots, deltaNodes, rootToSeq, ls, layers, truth, leafHeight, Base(), fills);
      }
      fills := fills + 1;
    }

    // ---------- Appending subtrees ----------

    method BeforeExtendLayer(height: nat)
      requires height <= |layers|
      modifies this`layers
      ensures layers == if height == |old(layers)| then old(layers) + [[]] else old(layers)
    {
      if height == |layers| {
        layers := layers + [[]];
      }
    }

    /** Unknown nodes in all layers below the subtree root. */
    method PushUnknown(d: nat, ghost root: Hash)
      modifies this`layers
      ensures |layers| == if d <= |old(layers)| then |old(layers)| else d
      ensures forall h :: 0 <= h < |layers| ==> layers[h] == LayerOr(old(layers), h) + (if h < d then Added(d, root, h) else [])
    {
      hide Pow2, Added, Nulls;
      for height := 0 to d
        invariant |layers| == if height <= |old(layers)| then |old(layers)| else height
        invariant forall h :: 0 <= h < |layers| ==> layers[h] == LayerOr(old(layers), h) + (if h < height then Added(d, root, h) else [])
      {
        AddedIs(d, root, height);
        BeforeExtendLayer(height);
        layers := layers[height := layers[height] + Nulls(Pow2(d - height))];
      }
    }

    method AppendSubtreeInner(subtreeDepth: nat, subtreeRoot: Hash) returns (r: Result<()>)
      requires |layers| >= 1
      modifies this`layers
      ensures r.Ok? <==> subtreeDepth > 0 && Aligned(|old(layers)[0]|, subtreeDepth - 1)
      ensures r.Ok? ==> layers == PushSubtree(old(layers), subtreeDepth - 1, subtreeRoot)
      ensures r.Err? ==> layers == old(layers)
    {
      hide Pow2, Aligned, PushSubtree, Added, Nulls;
      if subtreeDepth == 0 {
        return Err;
      }
      var d := subtreeDepth - 1;
      AlignedIsMod(|layers[0]|, d);
      if |layers[0]| % Pow2(d) != 0 {
        return Err;
      }
      ghost var ls := layers;
      PushUnknown(d, subtreeRoot);
      BeforeExtendLayer(d);
      AddedIs(d, subtreeRoot, d);
      forall h | d < h < |ls| ensures Added(d, subtreeRoot, h) == [] { AddedIs(d, subtreeRoot, h); }
      layers := layers[d := layers[d] + [subtreeRoot]];
      PushedIs(ls, layers, d, subtreeRoot);
      return Ok(());
    }

    /** `sub` are the leaves below the appended root, which the tree itself does not know yet. */
    method AppendSubtree(subtreeDepth: nat, subtreeRoot: Hash, ghost sub: seq<Hash>) returns (r: Result<()>)
      requires Valid()
      requires subtreeDepth > 0 ==> IsSubtree(subtreeDepth - 1, subtreeRoot, sub, leafHeight)
      modifies this
      ensures r.Ok? <==> subtreeDepth > 0 && Aligned(|old(truth)|, subtreeDepth - 1)
      ensures Valid() && truth == if r.Ok? then old(truth) + sub else old(truth)
      ensures r.Ok? ==>
                && (LeftKnown(layers, |truth|) <==> subtreeDepth == 1)
                && Run(PushSubtree(old(layers), subtreeDepth - 1, subtreeRoot), 0, |old(truth)|, None, leafHeight) == Some(layers)
      ensures r.Err? ==> layers == old(layers)
      ensures unchanged(`deltaNodes) && unchanged(`rootToSeq) && unchanged(`snapshots) && unchanged(`fills)
      ensures old(Closed(layers)) ==> Closed(layers)
      ensures forall root :: CheckRoot(root) <==> old(CheckRoot(root))
    {
      hide WellFormed, VersionsOk, Closed, Ready, Extended, LeftSame, IsSubtree, PushSubtree, Pow2, Aligned, Len, LeftKnown, Run;
      ghost var ls := layers;
      LeafLayer(layers, truth, leafHeight, Base());
      var startIndex := |layers[0]|;
      r := AppendSubtreeInner(subtreeDepth, subtreeRoot);
      if r.Err? {
        return;
      }
      SubtreePushed(ls, truth, sub, leafHeight, Base(), subtreeDepth - 1, subtreeRoot);
      LeavesHidden(ls, subtreeDepth - 1, subtreeRoot);
      FinishSubtrees(startIndex, ls, layers, truth + sub, subtreeDepth - 1);
    }

    /** The recomputation after the pushed subtrees `raw`. */
    method FinishSubtrees(startIndex: nat, ghost ls: Layers, ghost raw: Layers, ghost u: seq<Hash>, ghost d: nat)
      requires WellFormed(ls, truth, leafHeight, Base())
      requires VersionsOk(snapshots, deltaNodes, rootToSeq, ls, truth, leafHeight, Base(), fills)
      requires layers == raw && truth <= u && startIndex == |truth|
      requires Ready(raw, u, leafHeight, |truth|) && Extended(raw, u, leafHeight, |truth|, d) && Aligned(|u|, d)
      requires LeftSame(ls, raw, |truth|)
      requires |raw| > Base() ==> Len(|u|, |raw| - 2) > 1
      requires d > 0 ==> LeavesEndUnknown(raw)
      modifies this
      ensures Valid() && truth == u && Run(raw, 0, startIndex, None, leafHeight) == Some(layers)
      ensures LeftKnown(layers, |truth|) <==> d == 0
      ensures unchanged(`deltaNodes) && unchanged(`rootToSeq) && unchanged(`snapshots) && unchanged(`fills)
      ensures Closed(ls) ==> Closed(layers)
    {
      hide WellFormed, VersionsOk, Closed, Ready, Extended, Finished, ClosedOutside, Extends, LeftSame, Len, Aligned, Run,
           LeftKnown, LeavesEndUnknown;
      LeftClosed(ls, raw, truth, leafHeight, Base(), startIndex);
      RecomputeRight(raw, u, leafHeight, startIndex, None, false, d, 0);
      var panicked := Recompute(startIndex, None);
      SubtreesDone(ls, raw, layers, truth, u, leafHeight, Base(), d);
      LeftAfterSubtrees(raw, layers, u, leafHeight, Base(), startIndex, d);
      assert truth[..startIndex] == u[..startIndex];
      VersionsExtend(snapshots, deltaNodes, rootToSeq, ls, layers, truth, u, leafHeight, Base(), fills, startIndex);
      truth := u;
    }

    /**
     Append a list of subtrees and recompute once. A subtree that is not aligned ends it with those
     before it pushed and nothing recomputed. Otherwise the result is the tree over all leaves
     exactly when the depths never increase: a deeper subtree after a shallower one is pushed before
     the layers it belongs on are complete.
     */
    method AppendSubtreeList(list: seq<(nat, Hash)>, ghost subs: seq<seq<Hash>>) returns (r: ListOutcome, ghost pushed: nat)
      requires Valid() && AreSubtrees(list, subs, leafHeight)
      modifies this
      ensures pushed <= |list| && Pushable(|old(truth)|, list[..pushed])
      ensures r.Misaligned? <==> !Pushable(|old(truth)|, list)
      ensures r.Misaligned? ==>
                && pushed < |list| && !Pushable(|old(truth)|, list[..pushed + 1])
                && layers == PushAll(old(layers), list[..pushed], pushed) && truth == old(truth)
      ensures !r.Misaligned? ==>
                var raw := PushAll(old(layers), list, |list|);
                |raw| >= 1 && Run(raw, 0, |old(truth)|, None, leafHeight) == if r.Appended? then Some(layers) else None
      ensures r.Panicked? ==> !NonIncreasing(list)
      ensures !r.Misaligned? && NonIncreasing(list) ==> r.Appended? && Valid() && truth == old(truth) + Concat(subs)
      ensures !r.Misaligned? && NonIncreasing(list) && list != [] ==>
                (LeftKnown(layers, |truth|) <==> list[|list| - 1].0 == 1)
      ensures !r.Misaligned? && NonIncreasing(list) && old(Closed(layers)) ==> Closed(layers)
      ensures !r.Misaligned? && !NonIncreasing(list) && Visible(old(truth), subs, leafHeight) ==>
                r.Panicked? || !WellFormed(layers, old(truth) + Concat(subs), leafHeight, Base())
      ensures unchanged(`deltaNodes) && unchanged(`rootToSeq) && unchanged(`snapshots) && unchanged(`fills)
      ensures forall root :: CheckRoot(root) <==> old(CheckRoot(root))
    {
      hide WellFormed, VersionsOk, Closed, PushAll, PushSubtree, Aligned, AreSubtrees, Concat, Run, LeftKnown, Pushable,
           NonIncreasing, Visible, Total;
      ghost var ls := layers;
      LeafLayer(layers, truth, leafHeight, Base());
      var startIndex := |layers[0]|;
      pushed := 0;
      NothingPushedYet(ls, |truth|, list);
      for k := 0 to |list|
        invariant pushed == k && truth == old(truth)
        invariant Pushable(|truth|, list[..k]) && Deep(list[..k]) && layers == PushAll(ls, list[..k], k)
        invariant unchanged(`deltaNodes) && unchanged(`rootToSeq) && unchanged(`snapshots) && unchanged(`fills)
      {
        LeavesPushed(ls, list[..k], k);
        NextPush(ls, |truth|, list, k);
        var next := AppendSubtreeInner(list[k].0, list[k].1);
        if next.Err? {
          NotPushable(|truth|, list, k + 1);
          return Misaligned, pushed;
        }
        PushableDeep(|truth|, list[..k + 1]);
        pushed := k + 1;
      }
      assert list[..|list|] == list;
      r := FinishList(startIndex, list, subs, ls);
    }

    /** The recomputation after a whole list has been pushed. */
    method FinishList(startIndex: nat, ghost list: seq<(nat, Hash)>, ghost subs: seq<seq<Hash>>, ghost ls: Layers) returns (r: ListOutcome)
      requires WellFormed(ls, truth, leafHeight, Base())
      requires VersionsOk(snapshots, deltaNodes, rootToSeq, ls, truth, leafHeight, Base(), fills)
      requires Pushable(|truth|, list) && AreSubtrees(list, subs, leafHeight) && startIndex == |truth|
      requires layers == PushAll(ls, list, |list|)
      modifies this
      ensures r.Appended? || r.Panicked?
      ensures var raw := PushAll(ls, list, |list|);
              |raw| >= 1 && Run(raw, 0, |old(truth)|, None, leafHeight) == if r.Appended? then Some(layers) else None
      ensures NonIncreasing(list) ==> r.Appended? && Valid() && truth == old(truth) + Concat(subs)
      ensures NonIncreasing(list) && list != [] ==> (LeftKnown(layers, |truth|) <==> list[|list| - 1].0 == 1)
      ensures NonIncreasing(list) && Closed(ls) ==> Closed(layers)
      ensures !NonIncreasing(list) && Visible(old(truth), subs, leafHeight) ==>
                r.Panicked? || !WellFormed(layers, old(truth) + Concat(subs), leafHeight, Base())
      ensures unchanged(`deltaNodes) && unchanged(`rootToSeq) && unchanged(`snapshots) && unchanged(`fills)
    {
      hide WellFormed, VersionsOk, Closed, PushAll, AreSubtrees, Concat, Run, LeftKnown, Pushable, NonIncreasing, Visible, Extends;
      PushableDeep(|truth|, list);
      LeafLayer(ls, truth, leafHeight, Base());
      LeavesPushed(ls, list, |list|);
      var panicked := Recompute(startIndex, None);
      r := if panicked then Panicked else Appended;
      if NonIncreasing(list) {
        OrderedListDone(ls, truth, leafHeight, Base(), list, subs);
        ghost var u := truth + Concat(subs);
        assert truth[..startIndex] == u[..startIndex];
        VersionsExtend(snapshots, deltaNodes, rootToSeq, ls, layers, truth, u, leafHeight, Base(), fills, startIndex);
        truth := u;
      } else if Visible(truth, subs, leafHeight) {
        IncreaseFails(ls, truth, leafHeight, Base(), list, subs);
      }
    }

    // ---------- Versions ----------

    lemma KeysAgree()
      requires ValidVersions()
      ensures snapshots.Keys == deltaNodes.Keys
    {
    }

    /** The last index and node of every layer. */
    method CollectRightMost() returns (rightMost: seq<(nat, Hash)>)
      requires forall h :: 0 <= h < |layers| ==> |layers[h]| > 0
      ensures rightMost == RightMost(layers)
    {
      rightMost := [];
      for h := 0 to |layers|
        invariant rightMost == RightMost(layers)[..h]
      {
        rightMost := rightMost + [(|layers[h]| - 1, layers[h][|layers[h]| - 1])];
      }
    }

    /**
     Record the right edge of the tree under a number, and the number under its root. All versions
     stay restorable when the number is the next one.
     */
    method Commit(seqNo: Option<nat>) returns (panicked: bool)
      requires |layers| >= 1
      modifies this`deltaNodes, this`rootToSeq, this`snapshots
      ensures panicked <==>
                && seqNo.Some? && |layers[0]| > 0
                && ((exists h :: 0 <= h < |layers| && |layers[h]| == 0)
                    || var top := layers[|layers| - 1]; top[0] != top[|top| - 1])
      ensures panicked || seqNo.None? ==> unchanged(this)
      ensures !panicked && seqNo.Some? ==>
                && snapshots == old(snapshots)[seqNo.value := Snapshot(layers, truth, fills)]
                && deltaNodes == old(deltaNodes)[seqNo.value := DeltaNodes(if |layers[0]| == 0 then [] else RightMost(layers))]
                && rootToSeq == if |layers[0]| == 0 then old(rootToSeq) else old(rootToSeq)[TopNode(layers) := seqNo.value]
      ensures !panicked ==>
                forall root :: CheckRoot(root) <==> old(CheckRoot(root)) || (seqNo.Some? && |layers[0]| > 0 && root == TopNode(layers))
      ensures old(Valid()) ==> !panicked && |layers[0]| == |truth|
      ensures old(Valid()) && (seqNo.None? || NextSeq(old(deltaNodes).Keys, seqNo.value)) ==> Valid()
    {
      hide WellFormed, VersionsOk, NextSeq, RightMost;
      if Valid() { CommitDone(seqNo); }
      if seqNo.None? {
        return false;
      }
      ghost var snap := Snapshot(layers, truth, fills);
      if |layers[0]| == 0 {
        deltaNodes := deltaNodes[seqNo.value := DeltaNodes([])];
      } else {
        if !OneTop(layers) {
          return true;
        }
        var rightMost := CollectRightMost();
        var root := layers[|layers| - 1][0];
        deltaNodes := deltaNodes[seqNo.value := DeltaNodes(rightMost)];
        rootToSeq := rootToSeq[root := seqNo.value];
      }
      snapshots := snapshots[seqNo.value := snap];
      panicked := false;
    }

    /** On a tree in order a commit does not panic and keeps the versions in order. */
    lemma CommitDone(seqNo: Option<nat>)
      requires Valid()
      ensures |layers| >= 1 && |layers[0]| == |truth| && (truth != [] ==> OneTop(layers))
      ensures seqNo.Some? && NextSeq(deltaNodes.Keys, seqNo.value) ==>
                VersionsOk(snapshots[seqNo.value := Snapshot(layers, truth, fills)],
                           deltaNodes[seqNo.value := DeltaNodes(if |layers[0]| == 0 then [] else RightMost(layers))],
                           if |layers[0]| == 0 then rootToSeq else rootToSeq[TopNode(layers) := seqNo.value],
                           layers, truth, leafHeight, Base(), fills)
    {
      hide WellFormed, VersionsOk, NextSeq, RightMost, SnapOk;
      LeafLayer(layers, truth, leafHeight, Base());
      KeysAgree();
      if truth == [] {
        EmptySnap(layers, leafHeight, Base(), fills);
        if seqNo.Some? && NextSeq(deltaNodes.Keys, seqNo.value) {
          VersionsCommitted(snapshots, deltaNodes, rootToSeq, rootToSeq, layers, truth, leafHeight, Base(), fills, seqNo.value, DeltaNodes([]));
        }
      } else {
        CommittedSnap(layers, truth, leafHeight, Base(), fills);
        RootKnown(layers, truth, leafHeight, Base());
        if seqNo.Some? && NextSeq(deltaNodes.Keys, seqNo.value) {
          VersionsCommitted(snapshots, deltaNodes, rootToSeq, rootToSeq[TopNode(layers) := seqNo.value], layers, truth,
                            leafHeight, Base(), fills, seqNo.value, DeltaNodes(RightMost(layers)));
        }
      }
    }

    /** Forget every version later than `seqNo`, and the roots that led to them. */
    method ClearAfter(seqNo: nat)
      requires AllRecorded(snapshots, deltaNodes) && Contiguous(snapshots.Keys) && seqNo in snapshots
      modifies this`deltaNodes, this`rootToSeq, this`snapshots
      ensures ClearedAfter(old(snapshots), snapshots, seqNo)
      ensures ClearedAfter(old(deltaNodes), deltaNodes, seqNo)
      ensures RootsCleared(old(rootToSeq), rootToSeq, old(snapshots), seqNo)
    {
      hide RootsCleared, ClearedAfter, Contiguous, RootsPartly, DeltasPartly, TopNode, Topped, Records, Until;
      ghost var snaps, deltas, roots := snapshots, deltaNodes, rootToSeq;
      var s := seqNo + 1;
      NothingCleared(deltas, roots, snaps, seqNo);
      while s in deltaNodes
        invariant s > seqNo && snapshots == snaps
        invariant DeltasPartly(deltas, deltaNodes, seqNo, s)
        invariant RootsPartly(roots, rootToSeq, snaps, seqNo, s)
        decreases |deltaNodes|
      {
        var nodes := deltaNodes[s];
        DeltaCleared(deltas, deltaNodes, seqNo, s);
        deltaNodes := deltaNodes - {s};
        if nodes.Height() != 0 {
          RecordedRoot(nodes, snaps[s]);
          RootCleared(roots, rootToSeq, snaps, seqNo, s);
          rootToSeq := rootToSeq - {nodes.rightMost[nodes.Height() - 1].1};
        } else {
          EmptyCleared(roots, rootToSeq, snaps, seqNo, s, nodes);
        }
        s := s + 1;
      }
      AllCleared(deltas, deltaNodes, roots, rootToSeq, snaps, seqNo, s);
      snapshots := Until(snapshots, seqNo);
    }

    /**
     Go back to a version. On an empty tree the source returns at once. Reverting to a version that
     was empty drops all layers, and the tree is usable again only after `Reset`.
     */
    method RevertTo(seqNo: nat) returns (r: Result<()>)
      requires Valid()
      modifies this
      ensures r.Ok? <==> old(truth) == [] || seqNo in old(snapshots)
      ensures r.Err? || old(truth) == [] ==> Valid() && unchanged(this)
      ensures r.Ok? && old(truth) != [] ==>
                forall root :: CheckRoot(root) <==>
                  && old(CheckRoot(root))
                  && forall k :: k in old(snapshots) && k > seqNo && old(snapshots)[k].truth != [] ==> TopNode(old(snapshots)[k].layers) != root
      ensures r.Ok? && old(truth) != [] ==>
                var s := old(snapshots)[seqNo];
                && truth == s.truth && fills == old(fills)
                && ClearedAfter(old(snapshots), snapshots, seqNo)
                && RootsCleared(old(rootToSeq), rootToSeq, old(snapshots), seqNo)
                && (s.truth != [] ==> Valid() && Refines(layers, s.layers) && (s.fills == fills ==> layers == s.layers))
                && Restored(old(layers), old(deltaNodes)[seqNo], layers)
                && (s.truth != [] && old(Closed(layers)) ==> (Closed(layers) <==> old(EdgeClosed(layers, deltaNodes[seqNo]))))
                && (LeftKnown(s.layers, |s.truth|) ==> LeftKnown(layers, |truth|))
                && (s.truth == [] ==> layers == [] && ValidVersions())
    {
      hide WellFormed, VersionsOk, Refines, ClearedAfter, RootsCleared, Reverted, SnapOk, Closed, EdgeClosed, LeftKnown, EdgeIsPath, Restored;
      LeafLayer(layers, truth, leafHeight, Base());
      KeysAgree();
      if |layers[0]| == 0 {
        return Ok(());
      }
      if seqNo !in deltaNodes {
        return Err;
      }
      var delta := deltaNodes[seqNo];
      ghost var ls := layers;
      ghost var s := snapshots[seqNo];
      VersionAt(seqNo);
      RestoreLayers(delta);
      RestoredIs(ls, delta);
      if s.truth != [] {
        RevertedOk(s, delta, ls, truth, leafHeight, Base(), fills);
        SnapPath(s, delta, ls, truth, leafHeight, Base(), fills);
        if Closed(ls) { RevertedClosed(ls, delta); }
        if LeftKnown(s.layers, |s.truth|) { LeftKnownRefined(layers, s.layers, |s.truth|); }
      }
      ghost var snaps, deltas, roots := snapshots, deltaNodes, rootToSeq;
      ClearAfter(seqNo);
      if s.truth != [] {
        VersionsReverted(snaps, deltas, roots, snapshots, deltaNodes, rootToSeq, ls, truth, leafHeight, Base(), fills, seqNo);
      } else {
        VersionsEmptied(snaps, deltas, roots, snapshots, deltaNodes, rootToSeq, ls, truth, leafHeight, Base(), fills, seqNo, layers);
      }
      RootsLeft(roots, rootToSeq, snaps, seqNo);
      truth := s.truth;
      if truth == [] { NothingLeft(layers); }
      return Ok(());
    }

    /** What the invariant says about one retained version. */
    lemma VersionAt(seqNo: nat)
      requires Valid() && seqNo in snapshots
      ensures seqNo in deltaNodes && AllRecorded(snapshots, deltaNodes) && Contiguous(snapshots.Keys)
      ensures SnapOk(snapshots[seqNo], deltaNodes[seqNo], layers, truth, leafHeight, Base(), fills)
      ensures |deltaNodes[seqNo].rightMost| <= |layers|
      ensures forall h :: 0 <= h < |deltaNodes[seqNo].rightMost| ==> deltaNodes[seqNo].rightMost[h].0 < |layers[h]|
      ensures snapshots[seqNo].truth == [] ==> deltaNodes[seqNo].rightMost == []
    {
      VersionTopped();
      hide WellFormed, Kept, Ordered, RootsOk, AllRecorded, Continues, Contiguous;
      if snapshots[seqNo].truth != [] {
        RevertibleAt(snapshots[seqNo], deltaNodes[seqNo], layers, truth, leafHeight, Base(), fills);
      }
    }

    lemma VersionTopped()
      requires Valid()
      ensures AllRecorded(snapshots, deltaNodes)
    {
      hide WellFormed, Kept, Continues, Records, Ordered, Contiguous, RootsOk;
      forall k | k in snapshots && snapshots[k].truth != [] ensures Topped(snapshots[k]) {
        LeafLayer(snapshots[k].layers, snapshots[k].truth, leafHeight, Base());
        RootKnown(snapshots[k].layers, snapshots[k].truth, leafHeight, Base());
      }
    }

    /** Truncate the layers and put the recorded right-most nodes back. */
    method RestoreLayers(delta: DeltaNodes)
      requires |delta.rightMost| <= |layers|
      requires forall h :: 0 <= h < |delta.rightMost| ==> delta.rightMost[h].0 < |layers[h]|
      modifies this`layers
      ensures layers == Reverted(old(layers), delta)
    {
      ghost var ls := layers;
      layers := layers[..|delta.rightMost|];
      for h := 0 to |delta.rightMost|
        invariant |layers| == |delta.rightMost|
        invariant forall k :: 0 <= k < h ==> layers[k] == Reverted(ls, delta)[k]
        invariant forall k :: h <= k < |layers| ==> layers[k] == ls[k]
      {
        var last := delta.rightMost[h].0;
        var cut := layers[h][..last + 1];
        layers := layers[h := cut[last := delta.rightMost[h].1]];
        assert layers[h] == ls[h][..last] + [delta.rightMost[h].1];
      }
    }

    /**
     Start over with empty layers. The versions and their roots stay recorded, so the tree is in
     order again exactly if none of them has leaves.
     */
    method Reset()
      requires ValidVersions()
      requires minDepth.Some? ==> minDepth.value >= 1
      modifies this`layers, this`truth
      ensures truth == [] && layers == seq(Base(), _ => [])
      ensures WellFormed(layers, truth, leafHeight, Base())
      ensures Valid() <==> forall k :: k in snapshots ==> snapshots[k].truth == []
      ensures forall root :: CheckRoot(root) <==> old(CheckRoot(root))
    {
      hide WellFormed;
      layers := if minDepth.Some? then seq(minDepth.value, _ => []) else [[]];
      truth := [];
      EmptyWellFormed(layers, leafHeight, Base());
      if forall k :: k in snapshots ==> snapshots[k].truth == [] {
        assert ValidVersions();
      } else {
        ghost var k :| k in snapshots && snapshots[k].truth != [];
        assert !SnapOk(snapshots[k], deltaNodes[k], layers, truth, leafHeight, Base(), fills);
      }
    }

    // ---------- Reading ----------

    predicate CheckRoot(root: Hash)
      reads this
    {
      root in rootToSeq
    }

    /**
     The view of the version with the given root: it reads like that version, or, where leaves were
     filled in since, like the tree a revert to it would leave.
     */
    method AtRootVersion(root: Hash) returns (r: Result<TreeView>, ghost shown: Layers)
      requires Valid()
      ensures r.Ok? <==> CheckRoot(root)
      ensures r.Ok? ==>
                && rootToSeq[root] in snapshots && rootToSeq[root] in deltaNodes
                && var s := snapshots[rootToSeq[root]];
                && TopNode(s.layers) == root && s.truth != [] && r.value.leafHeight == leafHeight
                && Restored(layers, deltaNodes[rootToSeq[root]], shown)
                && Shows(r.value, shown) && WellFormed(shown, s.truth, leafHeight, Base())
                && Refines(shown, s.layers) && (s.fills == fills ==> shown == s.layers)
    {
      hide WellFormed, VersionsOk, Refines, Reverted, SnapOk, Shows, TopNode;
      shown := [];
      if root !in rootToSeq {
        return Err, [];
      }
      var seqNo := rootToSeq[root];
      RootLeads(root);
      VersionAt(seqNo);
      var delta := deltaNodes[seqNo];
      ghost var s := snapshots[seqNo];
      RevertedOk(s, delta, layers, truth, leafHeight, Base(), fills);
      HistoryShowsReverted(layers, delta, leafHeight);
      assert delta.Height() != 0 by { NotEmpty(s, delta, layers, truth, leafHeight, Base(), fills); }
      return Ok(History(layers, delta, leafHeight)), Reverted(layers, delta);
    }

    lemma RootLeads(root: Hash)
      requires Valid() && root in rootToSeq
      ensures rootToSeq[root] in snapshots
      ensures snapshots[rootToSeq[root]].truth != [] && TopNode(snapshots[rootToSeq[root]].layers) == root
      ensures WellFormed(snapshots[rootToSeq[root]].layers, snapshots[rootToSeq[root]].truth, leafHeight, Base())
    {
      hide WellFormed, Records, Continues, Kept;
    }

    method LeafAt(position: nat) returns (r: Result<Option<Hash>>)
      requires Valid()
      ensures r.Ok? <==> position < |truth|
      ensures r.Ok? ==> (r.value.Some? <==> !NullAt(layers, 0, position))
      ensures r.Ok? && r.value.Some? ==> r.value.value == truth[position]
      ensures r.Ok? && FullyKnown(layers) ==> r.value.Some?
    {
      LeafLayer(layers, truth, leafHeight, Base());
      if position >= |layers[0]| {
        return Err;
      }
      LeafValue(layers, truth, leafHeight, Base(), position);
      if layers[0][position] != Null {
        return Ok(Some(layers[0][position]));
      }
      return Ok(None);
    }

    /**
     Exactly for ranges whose two ends are known leaves there is a proof, and it is accepted for
     the leaves between them exactly if all nodes beside both paths are known.
     */
    method GenRangeProof(startIndex: nat, endIndex: nat) returns (r: Result<RangeProof>)
      requires Valid()
      ensures r.Ok? <==> startIndex < endIndex <= |truth| && !NullAt(layers, 0, startIndex) && !NullAt(layers, 0, endIndex - 1)
      ensures r.Ok? ==>
                && Shaped(r.value.left) && Shaped(r.value.right)
                && Root(r.value.left) == TopNode(layers) == Root(r.value.right)
                && OnPath(layers, startIndex) && OnPath(layers, endIndex - 1)
                && (RangeAccepts(r.value, truth[startIndex..endIndex], startIndex) <==>
                      SiblingsKnown(layers, leafHeight, startIndex) && SiblingsKnown(layers, leafHeight, endIndex - 1))
      ensures FullyKnown(layers) && startIndex < endIndex <= |truth| ==>
                r.Ok? && RangeAccepts(r.value, truth[startIndex..endIndex], startIndex)
    {
      hide WellFormed, VersionsOk, RangeAccepts, Accepts, Shows, FullyKnown, ProofFor, OnPath, SiblingsKnown, TopNode;
      LeafLayer(layers, truth, leafHeight, Base());
      if endIndex <= startIndex {
        return Err;
      }
      LiveShows(layers, truth, leafHeight, Base());
      var left := GenProof(Live(layers, leafHeight), startIndex, layers, truth, Base());
      var right := GenProof(Live(layers, leafHeight), endIndex - 1, layers, truth, Base());
      if FullyKnown(layers) && endIndex <= |truth| {
        KnownLeaf(layers, truth, leafHeight, Base(), startIndex);
        KnownLeaf(layers, truth, leafHeight, Base(), endIndex - 1);
      }
      if left.Err? || right.Err? {
        return Err;
      }
      r := Ok(RangeProof(left.value, right.value));
      RangeOfTree(r.value, layers, truth, leafHeight, Base(), startIndex, endIndex);
      if FullyKnown(layers) {
        FullyKnownSiblings(layers, leafHeight, startIndex);
        FullyKnownSiblings(layers, leafHeight, endIndex - 1);
      }
    }

    /**
     A proof for leaf `leafIndex` of the version with the given root, read off `shown`: it exists
     exactly for a known leaf, and is accepted exactly if all nodes beside its path are known.
     */
    method ProofAtRoot(root: Hash, leafIndex: nat) returns (r: Result<Proof>, ghost shown: Layers)
      requires Valid()
      ensures !CheckRoot(root) ==> r.Err?
      ensures CheckRoot(root) ==>
                && rootToSeq[root] in snapshots && rootToSeq[root] in deltaNodes
                && var s := snapshots[rootToSeq[root]];
                && Restored(layers, deltaNodes[rootToSeq[root]], shown) && Refines(shown, s.layers)
                && (r.Ok? <==> leafIndex < |s.truth| && !NullAt(shown, 0, leafIndex))
                && (r.Ok? ==>
                      && Shaped(r.value) && Root(r.value) == root && OnPath(shown, leafIndex)
                      && (Accepts(r.value, s.truth[leafIndex], leafIndex) <==> SiblingsKnown(shown, leafHeight, leafIndex)))
                && (FullyKnown(s.layers) && leafIndex < |s.truth| ==>
                      r.Ok? && Accepts(r.value, s.truth[leafIndex], leafIndex))
    {
      hide WellFormed, VersionsOk, Refines, Accepts, Shows, FullyKnown, TopNode, ProofFor, OnPath, Restored, SiblingsKnown;
      var view;
      view, shown := AtRootVersion(root);
      if view.Err? {
        return Err, [];
      }
      ghost var s := snapshots[rootToSeq[root]];
      RootLeads(root);
      LeafLayer(shown, s.truth, leafHeight, Base());
      r := GenProof(view.value, leafIndex, shown, s.truth, Base());
      if FullyKnown(s.layers) && leafIndex < |s.truth| {
        KnownRefined(shown, s.layers);
        KnownLeaf(shown, s.truth, leafHeight, Base(), leafIndex);
      }
      if r.Ok? {
        ProofOfTree(r.value, shown, s.truth, leafHeight, Base(), leafIndex);
        SameTop(shown, s.layers, s.truth, leafHeight, Base());
        if FullyKnown(s.layers) { FullyKnownSiblings(shown, leafHeight, leafIndex); }
      }
    }

    /** Recompute the tree above the leaves from `startIndex` on, up to the end index if there is one. */
    method Recompute(startIndex: nat, maybeEndIndex: Option<nat>) returns (panicked: bool)
      requires |layers| >= 1
      modifies this`layers
      ensures Run(old(layers), 0, startIndex, maybeEndIndex, leafHeight) == if panicked then None else Some(layers)
    {
      hide Run, RoundRuns, NewParents, LastChanged;
      var height: nat := 0;
      var start: nat := startIndex;
      var maybeEnd: Option<nat> := maybeEndIndex;
      while |layers[height]| > 1 || height < |layers| - 1
        invariant height < |layers|
        invariant Run(layers, height, start, maybeEnd, leafHeight) == Run(old(layers), 0, startIndex, maybeEndIndex, leafHeight)
        decreases |layers| - 1 - height, |layers[height]|
      {
        ghost var ls := layers;
        RunOn(ls, height, start, maybeEnd, leafHeight);
        var nextStart := start / 2;
        var end := RoundEnd(maybeEnd, |layers[height]|);
        if 2 * nextStart > end || end > |layers[height]| {
          NotInLayer(layers[height], LayerAt(layers, height + 1), nextStart, end, height + leafHeight);
          return true;
        }
        var q, last, touched, failed := UpdateParents(layers[height], LayerAt(layers, height + 1), nextStart, end, height + leafHeight);
        if failed || (!touched && height + 1 == |layers|) {
          return true;
        }
        RoundKeeps(ls, height, nextStart, end, leafHeight);
        layers := Next(layers, height, q, touched);
        maybeEnd := After(last);
        height := height + 1;
        start := nextStart;
      }
      RunTop(layers, height, start, maybeEnd, leafHeight);
      panicked := false;
    }
  }

  /**
   `new_with_subtrees`: an empty tree, a list of subtrees and the first commit. It fails exactly
   like the list; what it returns after an increase in depth is not the tree over the leaves.
   */
  method NewWithSubtrees(list: seq<(nat, Hash)>, ghost subs: seq<seq<Hash>>, lh: nat, startSeq: Option<nat>)
    returns (r: ListOutcome, tree: AppendMerkleTree)
    requires AreSubtrees(list, subs, lh)
    ensures fresh(tree) && tree.leafHeight == lh && tree.minDepth == None
    ensures r.Misaligned? <==> !Pushable(0, list)
    ensures !r.Misaligned? && NonIncreasing(list) ==>
              && r.Appended? && tree.Valid() && tree.truth == Concat(subs) && Closed(tree.layers)
              && tree.snapshots == (if startSeq.Some? then map[startSeq.value := Snapshot(tree.layers, tree.truth, 0)] else map[])
              && forall root :: tree.CheckRoot(root) <==> startSeq.Some? && tree.truth != [] && root == TopNode(tree.layers)
    ensures r.Appended? && !NonIncreasing(list) ==> !WellFormed(tree.layers, Concat(subs), lh, 1)
  {
    hide WellFormed, VersionsOk, Closed, AreSubtrees, Concat, Run, PushAll, Pushable, NonIncreasing, NextSeq, LeftKnown, FullyKnown,
         OneTop, RightMost, TopNode;
    tree := new AppendMerkleTree([], None, lh, None);
    tree.KeysAgree();
    LeafLayer(tree.layers, [], lh, 1);
    if startSeq.Some? { FirstSeq(tree.deltaNodes, startSeq.value); }
    var panicked;
    if list == [] {
      SameCount(list, subs, lh);
      EmptyList(tree.layers, list, subs);
      NothingPushedYet(tree.layers, 0, list);
      panicked := tree.Commit(startSeq);
      return Appended, tree;
    }
    ghost var ls := tree.layers;
    ghost var pushed;
    r, pushed := tree.AppendSubtreeList(list, subs);
    if !r.Appended? {
      return;
    }
    assert [] + Concat(subs) == Concat(subs);
    PushableDeep(0, list);
    RunSteps(PushAll(ls, list, |list|), 0, 0, None, lh);
    panicked := tree.Commit(startSeq);
    if panicked {
      r := Panicked;
    }
  }

  /** No layer is empty, and the top one has the same first and last node: what a commit relies on. */
  predicate OneTop(ls: Layers) {
    && |ls| > 0 && (forall h :: 0 <= h < |ls| ==> |ls[h]| > 0)
    && ls[|ls| - 1][0] == ls[|ls| - 1][|ls[|ls| - 1]| - 1]
  }

  lemma AddedIs(d: nat, root: Hash, h: nat)
    ensures Added(d, root, h) == if h < d then Nulls(Pow2(d - h)) else if h == d then [root] else []
  {
  }

  lemma NotInLayer(c: seq<Hash>, p: seq<Hash>, first: nat, end: nat, pad: nat)
    requires 2 * first > end || end > |c|
    ensures !RoundRuns(c, p, first, end, pad)
  {
  }

  lemma NothingPushedYet(ls: Layers, n: nat, list: seq<(nat, Hash)>)
    ensures Pushable(n, list[..0]) && PushAll(ls, list[..0], 0) == ls
  {
  }

  lemma EmptyList(ls: Layers, list: seq<(nat, Hash)>, subs: seq<seq<Hash>>)
    requires list == [] && subs == []
    ensures PushAll(ls, list, |list|) == ls && Concat(subs) == [] && NonIncreasing(list)
  {
  }

  /** What a list of non-increasing depths leaves behind. */
  lemma OrderedListDone(ls: Layers, t: seq<Hash>, lh: nat, base: nat, list: seq<(nat, Hash)>, subs: seq<seq<Hash>>)
    requires WellFormed(ls, t, lh, base) && AreSubtrees(list, subs, lh) && Pushable(|t|, list) && NonIncreasing(list)
    requires |PushAll(ls, list, |list|)| >= 1
    ensures var r := Run(PushAll(ls, list, |list|), 0, |t|, None, lh);
            var u := t + Concat(subs);
            && r.Some? && WellFormed(r.value, u, lh, base) && Extends(ls, r.value, |t|)
            && (Closed(ls) ==> Closed(r.value))
            && (list != [] ==> (LeftKnown(r.value, |u|) <==> list[|list| - 1].0 == 1))
  {
    hide WellFormed, PushAll, AreSubtrees, Concat, Run, LeftKnown, Pushable, NonIncreasing, Extends, Closed, ClosedOutside,
         Ready, Complete, Extended, LeftSame, Finished, Len, Aligned, LeavesEndUnknown, Refines, FullyKnown;
    PushableDeep(|t|, list);
    SameCount(list, subs, lh);
    var (raw, u) := (PushAll(ls, list, |list|), t + Concat(subs));
    if list == [] {
      EmptyList(ls, list, subs);
      assert u == t;
      CompleteReady(ls, t, lh, base, |t|);
      ClosedAnywhere(ls, |t|, true, 0);
      RecomputeRight(ls, t, lh, |t|, None, true, 0, 0);
      RecomputedSame(ls, Run(raw, 0, |t|, None, lh).value, t, lh, base, |t|);
    } else {
      var d := H(list, |list| - 1);
      PushedAll(ls, t, lh, base, list, subs, |list|);
      assert subs[..|list|] == subs;
      PushedFacts(ls, raw, t, u, lh, base, d);
      LeftClosed(ls, raw, t, lh, base, |t|);
      RecomputeRight(raw, u, lh, |t|, None, false, d, 0);
      var post := Run(raw, 0, |t|, None, lh).value;
      SubtreesDone(ls, raw, post, t, u, lh, base, d);
      LeafLayer(ls, t, lh, base);
      ListEndHidden(ls, list);
      LeftAfterSubtrees(raw, post, u, lh, base, |t|, d);
    }
  }

  lemma NotPushable(n: nat, list: seq<(nat, Hash)>, k: nat)
    requires k <= |list| && !Pushable(n, list[..k])
    ensures !Pushable(n, list)
  {
    if Pushable(n, list) {
      hide AlignedAt;
      var some := list[..k];
      forall i | 0 <= i < |some| ensures AlignedAt(n, some, i) {
        SameAlignment(n, some, list, i);
      }
    }
  }

  lemma SnapPath(s: Snapshot, d: DeltaNodes, ls: Layers, t: seq<Hash>, lh: nat, base: nat, fills: nat)
    requires SnapOk(s, d, ls, t, lh, base, fills) && s.truth != []
    ensures EdgeIsPath(d)
  {
    hide WellFormed, Kept, Records;
    RecordedPath(s, d, lh, base);
  }

  /** The layers are those before, cut back to the recorded right edge. */
  ghost predicate Restored(before: Layers, d: DeltaNodes, after: Layers) {
    && |d.rightMost| <= |before| && (forall h :: 0 <= h < |d.rightMost| ==> d.rightMost[h].0 < |before[h]|)
    && after == Reverted(before, d)
  }

  lemma RestoredIs(ls: Layers, d: DeltaNodes)
    requires |d.rightMost| <= |ls| && forall h :: 0 <= h < |d.rightMost| ==> d.rightMost[h].0 < |ls[h]|
    ensures Restored(ls, d, Reverted(ls, d))
  {
  }

  lemma RootsLeft(before: map<Hash, nat>, after: map<Hash, nat>, snaps: map<nat, Snapshot>, seqNo: nat)
    requires RootsCleared(before, after, snaps, seqNo)
    ensures forall root :: root in after <==>
              root in before && forall k :: k in snaps && k > seqNo && snaps[k].truth != [] ==> TopNode(snaps[k].layers) != root
  {
    hide TopNode;
  }

  lemma NothingLeft(ls: Layers)
    ensures LeftKnown(ls, 0)
  {
  }

  /** The last leaf and the one before it are unknown, and their number is even. */
  ghost predicate LeavesEndUnknown(ls: Layers) {
    |ls| > 1 && |ls[0]| >= 2 && |ls[0]| % 2 == 0 && ls[0][|ls[0]| - 2] == Null
  }

  lemma LeavesHidden(ls: Layers, d: nat, root: Hash)
    requires |ls| >= 1 && Aligned(|ls[0]|, d)
    ensures d > 0 ==> LeavesEndUnknown(PushSubtree(ls, d, root))
  {
    hide PushSubtree;
    if d > 0 {
      AlignedWeaken(|ls[0]|, d, 1);
      assert Pow2(d) == 2 * Pow2(d - 1);
      assert Shr(|ls[0]|, 0) == |ls[0]|;
      assert PushSubtree(ls, d, root)[0] == ls[0] + Nulls(Pow2(d));
    }
  }

  lemma ListEndHidden(ls: Layers, list: seq<(nat, Hash)>)
    requires |ls| >= 1 && list != [] && Pushable(|ls[0]|, list)
    ensures H(list, |list| - 1) > 0 ==> LeavesEndUnknown(PushAll(ls, list, |list|))
  {
    hide PushSubtree, Aligned, LeavesEndUnknown, PushAll, Total, Pushable;
    PushableDeep(|ls[0]|, list);
    var k := |list| - 1;
    LastAligned(|ls[0]|, list);
    LeavesPushed(ls, list, k);
    LeavesHidden(PushAll(ls, list, k), H(list, k), list[k].1);
    PushAllStep(ls, list, k);
  }

  lemma LastAligned(n: nat, list: seq<(nat, Hash)>)
    requires list != [] && Pushable(n, list)
    ensures Aligned(n + Total(list, |list| - 1), H(list, |list| - 1))
  {
    hide Aligned, Total;
    assert AlignedAt(n, list, |list| - 1);
  }

  /** After subtrees, the leaf can be changed exactly if the last of them was a single leaf. */
  lemma LeftAfterSubtrees(raw: Layers, post: Layers, u: seq<Hash>, lh: nat, base: nat, start: nat, d: nat)
    requires Extended(raw, u, lh, start, d) && Finished(raw, post, u, lh, start)
    requires |raw| >= 1 && Run(raw, 0, start, None, lh) == Some(post)
    requires d > 0 ==> LeavesEndUnknown(raw)
    ensures LeftKnown(post, |u|) <==> d == 0
  {
    hide Run, StepOk, Extended, Finished, LeftKnown, Len;
    if d == 0 {
      LeftKnownDone(raw, post, u, lh, start);
    } else {
      RunSteps(raw, 0, start, None, lh);
      LeavesCount(raw, post, u, lh, start, d);
      LeftHidden(post, |u|);
    }
  }

  lemma LeavesCount(raw: Layers, post: Layers, u: seq<Hash>, lh: nat, start: nat, d: nat)
    requires Extended(raw, u, lh, start, d)
    ensures |raw| >= 1 && |raw[0]| == |u|
  {
    assert |raw[0]| == Len(|u|, 0);
  }

  lemma LeafLayer(ls: Layers, t: seq<Hash>, lh: nat, base: nat)
    requires WellFormed(ls, t, lh, base)
    ensures |ls| >= 1 && |ls[0]| == |t|
  {
  }

  lemma EmptyWellFormed(ls: Layers, lh: nat, base: nat)
    requires |ls| == base >= 1 && forall h :: 0 <= h < |ls| ==> ls[h] == []
    ensures WellFormed(ls, [], lh, base)
  {
    forall h: nat ensures Len(0, h) == 0 { LenBounds(0, h); }
  }

  lemma FreshTree(ls: Layers, lh: nat, base: nat)
    requires |ls| == base >= 1 && forall h :: 0 <= h < |ls| ==> ls[h] == []
    ensures WellFormed(ls, [], lh, base) && FullyKnown(ls) && Closed(ls)
    ensures VersionsOk(map[], map[], map[], ls, [], lh, base, 0)
    ensures NoNulls([])
  {
    EmptyWellFormed(ls, lh, base);
  }

  lemma FirstSeq(deltas: map<nat, DeltaNodes>, seqNo: nat)
    requires deltas == map[]
    ensures NextSeq(deltas.Keys, seqNo)
  {
  }

  lemma EmptySnap(ls: Layers, lh: nat, base: nat, fills: nat)
    ensures SnapOk(Snapshot(ls, [], fills), DeltaNodes([]), ls, [], lh, base, fills)
  {
  }

  lemma ClosedAnywhere(ls: Layers, start: nat, full: bool, stop: nat)
    ensures Closed(ls) ==> ClosedOutside(ls, start, full, stop)
  {
  }

  lemma AppendClosed(ls: Layers, t: seq<Hash>, lh: nat, base: nat, more: seq<Hash>)
    requires WellFormed(ls, t, lh, base)
    ensures Closed(ls) ==> ClosedOutside(PushLeaves(ls, more), |t|, false, 0)
  {
    var raw := PushLeaves(ls, more);
    forall k, j | Closed(ls) && 1 <= k < |raw| && 0 <= j < |raw[k]| && ChildrenKnown(raw[k - 1], j) && j < Shr(|t|, k)
      ensures raw[k][j] != Null
    {
      LenBounds(|t|, k - 1);
      assert ChildrenKnown(ls[k - 1], j);
    }
  }

  /** After an append: well formed over the longer leaves, and only the right edge was touched. */
  lemma AppendDone(ls: Layers, raw: Layers, post: Layers, t: seq<Hash>, u: seq<Hash>, lh: nat, base: nat, more: seq<Hash>)
    requires WellFormed(ls, t, lh, base) && NoNulls(more) && |more| > 0
    requires raw == PushLeaves(ls, more) && u == t + more
    requires Extended(raw, u, lh, |t|, 0)
    requires Finished(raw, post, u, lh, |t|)
    ensures WellFormed(post, u, lh, base)
    ensures Extends(ls, post, |t|)
    ensures FullyKnown(ls) ==> FullyKnown(post)
  {
    hide Finished, Extended, Extends, AllGood, EdgeKnown;
    ExtendedEdge(raw, u, lh, |t|, 0);
    if |ls| > base { ShrMono(|t|, |u|, |ls| - 2); }
    FinishedWellFormed(raw, post, u, lh, base, |t|);
    FinishedExtends(ls, raw, post, t, u, lh, base, |t|);
    if FullyKnown(ls) {
      FinishedKnown(raw, post, u, lh, |t|);
    }
  }

  lemma FinishedKnown(raw: Layers, post: Layers, u: seq<Hash>, lh: nat, start: nat)
    requires Finished(raw, post, u, lh, start) && FullyKnown(raw)
    ensures FullyKnown(post)
  {
    forall h, i | 0 <= h < |post| && 0 <= i < |post[h]| ensures post[h][i] != Null {
      assert NullAt(post, h, i) ==> NullAt(raw, h, i);
    }
  }

  lemma FinishedExtends(ls: Layers, raw: Layers, post: Layers, t: seq<Hash>, u: seq<Hash>, lh: nat, base: nat, start: nat)
    requires WellFormed(ls, t, lh, base)
    requires Finished(raw, post, u, lh, start) && |ls| <= |raw| && |t| <= |u|
    requires forall h, i :: 0 <= h < |ls| && 0 <= i < |ls[h]| && i < Shr(start, h) ==> i < |raw[h]| && raw[h][i] == ls[h][i]
    ensures Extends(ls, post, start)
  {
    forall h | 0 <= h < |ls| ensures |ls[h]| <= |post[h]| { ShrMono(|t|, |u|, h); }
  }

  lemma RecomputedSame(raw: Layers, post: Layers, t: seq<Hash>, lh: nat, base: nat, start: nat)
    requires WellFormed(raw, t, lh, base)
    requires Finished(raw, post, t, lh, start)
    ensures WellFormed(post, t, lh, base)
    ensures Extends(raw, post, start)
    ensures Refines(post, raw)
    ensures FullyKnown(raw) ==> FullyKnown(post)
  {
    FinishedWellFormed(raw, post, t, lh, base, start);
    SameHeight(raw, post, |t|, base);
    FinishedExtends(raw, raw, post, t, t, lh, base, start);
    if FullyKnown(raw) { FinishedKnown(raw, post, t, lh, start); }
    forall h, i | 0 <= h < |raw| && 0 <= i < |raw[h]| ensures post[h][i] == raw[h][i] || raw[h][i] == Null {
      assert Good(raw[h][i], t, lh, h, i) && Good(post[h][i], t, lh, h, i);
      assert NullAt(post, h, i) ==> NullAt(raw, h, i);
    }
  }

  lemma LeafValue(ls: Layers, t: seq<Hash>, lh: nat, base: nat, i: nat)
    requires WellFormed(ls, t, lh, base) && i < |t|
    ensures ls[0][i] == Null || ls[0][i] == t[i]
    ensures t[i] != Null
  {
    assert Good(ls[0][i], t, lh, 0, i);
  }

  lemma RefinesSelf(ls: Layers)
    ensures Refines(ls, ls)
  {
  }

  lemma FillClosed(ls: Layers, index: nat, leaf: Hash)
    requires |ls| >= 1 && index < |ls[0]|
    ensures Closed(ls) ==> ClosedOutside(ls[0 := ls[0][index := leaf]], index, true, index / 2 + 1)
  {
    var raw := ls[0 := ls[0][index := leaf]];
    forall k, j | Closed(ls) && 1 <= k < |raw| && 0 <= j < |raw[k]| && ChildrenKnown(raw[k - 1], j)
                  && (j < Shr(index, k) || k > 1 || j >= index / 2 + 1)
      ensures raw[k][j] != Null
    {
      if k == 1 {
        assert Shr(index, 1) == index / 2;
        assert 2 * j != index && 2 * j + 1 != index;
      }
      assert ChildrenKnown(ls[k - 1], j);
    }
  }

  lemma FillRefines(ls: Layers, raw: Layers, post: Layers, t: seq<Hash>, lh: nat, base: nat, index: nat)
    requires WellFormed(ls, t, lh, base) && WellFormed(post, t, lh, base) && index < |t|
    requires raw == ls[0 := ls[0][index := t[index]]] && ls[0][index] == Null
    requires Refines(post, raw)
    ensures Refines(post, ls)
    ensures post[0][index] == t[index]
    ensures TopNode(post) == TopNode(ls)
  {
    RootKnown(ls, t, lh, base);
    RootKnown(post, t, lh, base);
    assert raw[0][index] == t[index];
    forall h, i | 0 <= h < |ls| && 0 <= i < |ls[h]| ensures post[h][i] == ls[h][i] || ls[h][i] == Null {
      assert post[h][i] == raw[h][i] || raw[h][i] == Null;
    }
  }

  /** What filling leaf `i` of a tree comes to. */
  lemma FilledTree(ls: Layers, t: seq<Hash>, lh: nat, base: nat, i: nat, leaf: Hash)
    requires WellFormed(ls, t, lh, base) && i < |t|
    ensures |ls| >= 1 && |ls[0]| == |t| && (ls[0][i] == Null || ls[0][i] == t[i])
    ensures ls[0][i] == Null && leaf == t[i] ==>
              var r := Run(ls[0 := ls[0][i := leaf]], 0, i, Some(i + 1), lh);
              && r.Some? && WellFormed(r.value, t, lh, base) && |r.value| >= 1 && |r.value[0]| == |t| && r.value[0][i] == leaf
              && Refines(r.value, ls) && TopNode(r.value) == TopNode(ls)
              && (LeftKnown(ls, |t|) ==> LeftKnown(r.value, |t|)) && (Closed(ls) ==> Closed(r.value))
    ensures leaf != t[i] && leaf != Null ==>
              && OnPath(ls, i)
              && var r := Run(ls[0 := ls[0][i := leaf]], 0, i, Some(i + 1), lh);
              && (r.None? <==> FillPanics(ls, lh, i))
              && (r.Some? ==>
                    && Filled(ls, r.value, t, t[i := leaf], lh, i)
                    && (TopNode(r.value) != TopNode(ls) <==> SiblingsKnown(ls, lh, i))
                    && (WellFormed(r.value, t[i := leaf], lh, base) <==> SiblingsKnown(ls, lh, i))
                    && !WellFormed(r.value, t, lh, base))
  {
    hide WellFormed, Closed, Ready, Complete, Finished, ClosedOutside, Extends, Refines, TopNode, Run, LeftKnown,
         OnPath, FillPanics, Filled, SiblingsKnown;
    LeafLayer(ls, t, lh, base);
    LeafValue(ls, t, lh, base, i);
    if leaf != t[i] {
      if leaf != Null { FillExact(ls, t, lh, base, i, leaf); }
    } else if ls[0][i] == Null {
      var raw := ls[0 := ls[0][i := leaf]];
      FillWellFormed(ls, t, lh, base, i);
      CompleteReady(raw, t, lh, base, i);
      FillClosed(ls, i, leaf);
      RecomputeRight(raw, t, lh, i, Some(i + 1), true, 0, i / 2 + 1);
      var post := Run(raw, 0, i, Some(i + 1), lh).value;
      RecomputedSame(raw, post, t, lh, base, i);
      FillRefines(ls, raw, post, t, lh, base, i);
      LeafLayer(post, t, lh, base);
      if LeftKnown(ls, |t|) { LeftKnownRefined(post, ls, |t|); }
    }
  }

  lemma SubtreesDone(ls: Layers, raw: Layers, post: Layers, t: seq<Hash>, u: seq<Hash>, lh: nat, base: nat, d: nat)
    requires WellFormed(ls, t, lh, base) && t <= u
    requires Ready(raw, u, lh, |t|) && Extended(raw, u, lh, |t|, d) && Aligned(|u|, d)
    requires LeftSame(ls, raw, |t|)
    requires |raw| > base ==> Len(|u|, |raw| - 2) > 1
    requires Finished(raw, post, u, lh, |t|)
    ensures WellFormed(post, u, lh, base)
    ensures Extends(ls, post, |t|)
  {
    hide OnlyLastStale, ParentsThere, LensBetween, Good, Node, Aligned;
    ExtendedEdge(raw, u, lh, |t|, d);
    FinishedWellFormed(raw, post, u, lh, base, |t|);
    FinishedExtends(ls, raw, post, t, u, lh, base, |t|);
  }

  // ---------- Versions ----------

  ghost predicate AllRecorded(snaps: map<nat, Snapshot>, deltas: map<nat, DeltaNodes>) {
    && snaps.Keys == deltas.Keys
    && forall k :: k in snaps ==> Records(deltas[k], snaps[k]) && (snaps[k].truth != [] ==> Topped(snaps[k]))
  }

  ghost predicate Topped(s: Snapshot) {
    |s.layers| >= 1 && |s.layers[|s.layers| - 1]| == 1
  }

  /** `r` is not the root of any version in `(seqNo, s)`. */
  ghost predicate NotRootOf(snaps: map<nat, Snapshot>, seqNo: nat, s: nat, r: Hash) {
    forall k :: k in snaps && seqNo < k < s && snaps[k].truth != [] ==> TopNode(snaps[k].layers) != r
  }

  lemma RecordedRoot(d: DeltaNodes, s: Snapshot)
    requires Records(d, s) && (s.truth != [] ==> Topped(s)) && d.Height() != 0
    ensures s.truth != [] && d.rightMost[d.Height() - 1].1 == TopNode(s.layers)
  {
  }

  /** The roots of the versions in `(seqNo, s)` are gone from the accepted ones. */
  ghost predicate RootsPartly(before: map<Hash, nat>, after: map<Hash, nat>, snaps: map<nat, Snapshot>, seqNo: nat, s: nat) {
    && after.Keys <= before.Keys
    && (forall r :: r in after ==> after[r] == before[r])
    && (forall r :: r in before ==> (r in after <==> NotRootOf(snaps, seqNo, s, r)))
  }

  ghost predicate DeltasPartly(before: map<nat, DeltaNodes>, after: map<nat, DeltaNodes>, seqNo: nat, s: nat) {
    && after.Keys == (set k | k in before && (k <= seqNo || k >= s))
    && forall k :: k in after ==> after[k] == before[k]
  }

  ghost function Until(snaps: map<nat, Snapshot>, seqNo: nat): map<nat, Snapshot> {
    map k | k in snaps && k <= seqNo :: snaps[k]
  }

  lemma NothingCleared(deltas: map<nat, DeltaNodes>, roots: map<Hash, nat>, snaps: map<nat, Snapshot>, seqNo: nat)
    ensures DeltasPartly(deltas, deltas, seqNo, seqNo + 1)
    ensures RootsPartly(roots, roots, snaps, seqNo, seqNo + 1)
  {
  }

  lemma DeltaCleared(before: map<nat, DeltaNodes>, after: map<nat, DeltaNodes>, seqNo: nat, s: nat)
    requires DeltasPartly(before, after, seqNo, s) && s in after && s > seqNo
    ensures DeltasPartly(before, after - {s}, seqNo, s + 1)
    ensures s in before && after[s] == before[s]
  {
  }

  lemma NotRootStep(snaps: map<nat, Snapshot>, seqNo: nat, s: nat, r: Hash)
    requires s in snaps && s > seqNo
    ensures NotRootOf(snaps, seqNo, s + 1, r) <==>
            NotRootOf(snaps, seqNo, s, r) && (snaps[s].truth != [] ==> TopNode(snaps[s].layers) != r)
  {
    hide TopNode;
    assert forall k :: k in snaps && seqNo < k < s + 1 ==> k == s || k < s;
  }

  lemma RootCleared(before: map<Hash, nat>, after: map<Hash, nat>, snaps: map<nat, Snapshot>, seqNo: nat, s: nat)
    requires RootsPartly(before, after, snaps, seqNo, s) && s > seqNo
    requires s in snaps && snaps[s].truth != []
    ensures RootsPartly(before, after - {TopNode(snaps[s].layers)}, snaps, seqNo, s + 1)
  {
    hide TopNode, NotRootOf;
    forall r | r in before ensures NotRootOf(snaps, seqNo, s + 1, r) <==> NotRootOf(snaps, seqNo, s, r) && TopNode(snaps[s].layers) != r {
      NotRootStep(snaps, seqNo, s, r);
    }
  }

  lemma EmptyCleared(before: map<Hash, nat>, after: map<Hash, nat>, snaps: map<nat, Snapshot>, seqNo: nat, s: nat, d: DeltaNodes)
    requires RootsPartly(before, after, snaps, seqNo, s) && s > seqNo
    requires s in snaps && Records(d, snaps[s]) && (snaps[s].truth != [] ==> Topped(snaps[s])) && d.Height() == 0
    ensures RootsPartly(before, after, snaps, seqNo, s + 1)
  {
    hide TopNode, NotRootOf;
    forall r | r in before ensures NotRootOf(snaps, seqNo, s + 1, r) <==> NotRootOf(snaps, seqNo, s, r) {
      NotRootStep(snaps, seqNo, s, r);
    }
  }

  lemma AllCleared(deltas: map<nat, DeltaNodes>, deltas': map<nat, DeltaNodes>, roots: map<Hash, nat>, roots': map<Hash, nat>,
                   snaps: map<nat, Snapshot>, seqNo: nat, s: nat)
    requires snaps.Keys == deltas.Keys && Contiguous(snaps.Keys) && seqNo in snaps && seqNo < s && s !in deltas'
    requires DeltasPartly(deltas, deltas', seqNo, s) && RootsPartly(roots, roots', snaps, seqNo, s)
    ensures ClearedAfter(deltas, deltas', seqNo)
    ensures ClearedAfter(snaps, Until(snaps, seqNo), seqNo)
    ensures RootsCleared(roots, roots', snaps, seqNo)
  {
    hide TopNode;
    assert s !in snaps;
    assert forall k :: k in snaps ==> k < s;
    forall r | r in roots
      ensures NotRootOf(snaps, seqNo, s, r) <==>
              forall k :: k in snaps && k > seqNo && snaps[k].truth != [] ==> TopNode(snaps[k].layers) != r
    {
    }
  }

  /** Reverting to a version that was not empty. */
  lemma RevertedOk(s: Snapshot, d: DeltaNodes, ls: Layers, t: seq<Hash>, lh: nat, base: nat, fills: nat)
    requires WellFormed(ls, t, lh, base)
    requires SnapOk(s, d, ls, t, lh, base, fills) && s.truth != []
    ensures |d.rightMost| <= |ls| && forall h :: 0 <= h < |d.rightMost| ==> d.rightMost[h].0 < |ls[h]|
    ensures WellFormed(Reverted(ls, d), s.truth, lh, base)
    ensures Refines(Reverted(ls, d), s.layers)
    ensures s.fills == fills ==> Reverted(ls, d) == s.layers
  {
    hide SnapOk, Refines, Reverted, Sized, EdgeKnown, AllGood;
    RevertedWellFormed(s, d, ls, t, lh, base, fills);
  }

  lemma NotEmpty(s: Snapshot, d: DeltaNodes, ls: Layers, t: seq<Hash>, lh: nat, base: nat, fills: nat)
    requires SnapOk(s, d, ls, t, lh, base, fills) && s.truth != []
    ensures d.Height() != 0
  {
  }

  // ---------- Proofs from the tree ----------

  lemma LiveShows(ls: Layers, t: seq<Hash>, lh: nat, base: nat)
    requires WellFormed(ls, t, lh, base)
    ensures Shows(Live(ls, lh), ls)
  {
  }

  lemma KnownLeaf(ls: Layers, t: seq<Hash>, lh: nat, base: nat, i: nat)
    requires WellFormed(ls, t, lh, base) && FullyKnown(ls) && i < |t|
    ensures ls[0][i] != Null
  {
  }

  /** Nothing was unknown at the commit, so the view shows the same nodes. */
  lemma KnownRefined(a: Layers, b: Layers)
    requires Refines(a, b) && FullyKnown(b)
    ensures a == b && FullyKnown(a)
  {
    forall h | 0 <= h < |a| ensures a[h] == b[h] {
      assert forall i :: 0 <= i < |a[h]| ==> a[h][i] == b[h][i];
    }
  }

  lemma ProofShaped(p: Proof, ls: Layers, t: seq<Hash>, lh: nat, base: nat, i: nat)
    requires WellFormed(ls, t, lh, base) && i < |t| && OnPath(ls, i) && ProofFor(p, ls, lh, i)
    ensures Shaped(p) && |p.path| == |ls| - 1
  {
  }

  /** A generated proof shows the tree's root, and is accepted exactly if the nodes beside its path are known. */
  lemma ProofOfTree(p: Proof, ls: Layers, t: seq<Hash>, lh: nat, base: nat, i: nat)
    requires WellFormed(ls, t, lh, base)
    requires i < |t| && !NullAt(ls, 0, i) && OnPath(ls, i) && ProofFor(p, ls, lh, i)
    ensures Shaped(p) && |p.path| == |ls| - 1
    ensures Accepts(p, t[i], i) <==> SiblingsKnown(ls, lh, i)
    ensures Root(p) == TopNode(ls) == Node(t, lh, |p.path|, 0)
  {
    hide WellFormed, Accepts, SiblingsKnown;
    LeafLayer(ls, t, lh, base);
    ProofShaped(p, ls, t, lh, base, i);
    GeneratedProofValid(p, ls, t, lh, base, i, i);
    RootKnown(ls, t, lh, base);
  }

  lemma SameTop(a: Layers, b: Layers, t: seq<Hash>, lh: nat, base: nat)
    requires WellFormed(a, t, lh, base) && WellFormed(b, t, lh, base) && t != []
    ensures TopNode(a) == TopNode(b)
  {
    hide WellFormed;
    LeafLayer(a, t, lh, base);
    LeafLayer(b, t, lh, base);
    RootKnown(a, t, lh, base);
    RootKnown(b, t, lh, base);
    assert |a| == |b| by { SizedOf(a, t, lh, base); SizedOf(b, t, lh, base); SameHeight(a, b, |t|, base); }
  }

  lemma RangeOfTree(p: RangeProof, ls: Layers, t: seq<Hash>, lh: nat, base: nat, start: nat, end: nat)
    requires WellFormed(ls, t, lh, base)
    requires start < end <= |t| && !NullAt(ls, 0, start) && !NullAt(ls, 0, end - 1)
    requires OnPath(ls, start) && ProofFor(p.left, ls, lh, start)
    requires OnPath(ls, end - 1) && ProofFor(p.right, ls, lh, end - 1)
    ensures Shaped(p.left) && Shaped(p.right)
    ensures Root(p.left) == TopNode(ls) == Root(p.right)
    ensures RangeAccepts(p, t[start..end], start) <==> SiblingsKnown(ls, lh, start) && SiblingsKnown(ls, lh, end - 1)
  {
    hide WellFormed, Accepts, RangeAccepts, ProofFor, OnPath, SiblingsKnown, TopNode;
    ProofOfTree(p.left, ls, t, lh, base, start);
    ProofOfTree(p.right, ls, t, lh, base, end - 1);
    var leaves := t[start..end];
    forall q | 0 <= q < |leaves| ensures leaves[q] == Node(t, lh, 0, start + q) { }
    assert leaves[0] == t[start] && leaves[|leaves| - 1] == t[end - 1];
    RangeExact(p, leaves, start, t, lh);
  }

  /** The root of a tree is the Merkle tree hash of its leaves padded with zero hashes. */
  lemma RootIsPaddedMth(ls: Layers, t: seq<Hash>, lh: nat, base: nat)
    requires WellFormed(ls, t, lh, base) && t != []
    ensures |t| <= Pow2(|ls| - 1)
    ensures TopNode(ls) == Mth(Padded(t, lh, |ls| - 1))
  {
    DepthHolds(ls, |t|, base, |t| - 1);
    RootKnown(ls, t, lh, base);
    RootIsMth(t, lh, |ls| - 1);
  }

  // ---------- Where the conditions are needed ----------

  lemma EmptyLayers(ls: Layers, lh: nat)
    requires WellFormed(ls, [], lh, 1)
    ensures ls == [[]]
  {
    if |ls| > 1 { LenBounds(0, |ls| - 2); }
  }

  lemma PairSubtree(a: Hash, b: Hash)
    requires a != Null && b != Null
    ensures IsSubtree(1, Parent(a, b), [a, b], 0) && Aligned(0, 1)
    ensures PushSubtree([[]], 1, Parent(a, b)) == [[Null, Null], [Parent(a, b)]]
  {
    var t := [a, b];
    assert Node(t, 0, 1, 0) == Parent(Node(t, 0, 0, 0), Node(t, 0, 0, 1));
    assert Pow2(1) == 2 && Shr(0, 0) == 0;
    var ls := PushSubtree([[]], 1, Parent(a, b));
    assert Nulls(2) == [Null, Null];
    AddedIs(1, Parent(a, b), 0);
    AddedIs(1, Parent(a, b), 1);
    assert ls[0] == [Null, Null] && ls[1] == [Parent(a, b)];
    assert ls == [ls[0], ls[1]];
  }

  /**
   Two unknown leaves, the first filled with a wrong value and the second with the true one:
   neither fill panics, and the root is another one.
   */
  method WrongFillRun(a: Hash, b: Hash, x: Hash) returns (tree: AppendMerkleTree, ghost root: Hash)
    requires a != Null && b != Null && x != Null && x != a
    ensures fresh(tree) && tree.truth == [a, b] && root == Parent(a, b)
    ensures tree.layers == [[x, b], [Parent(x, b)]] && TopNode(tree.layers) != root
  {
    hide WellFormed, VersionsOk, Closed, LeftKnown, FullyKnown, Run, IsSubtree, PushSubtree, Aligned, Refines, Filled, FillPanics,
         SiblingsKnown, OnPath;
    tree := new AppendMerkleTree([], None, 0, None);
    EmptyLayers(tree.layers, 0);
    PairSubtree(a, b);
    var r := tree.AppendSubtree(2, Parent(a, b), [a, b]);
    PairRun(Null, Null, Parent(a, b), 0, None);
    root := TopNode(tree.layers);
    assert tree.layers == [[Null, Null], [Parent(a, b)]];
    assert [Null, Null][0 := x] == [x, Null] && [x, Null][1 := b] == [x, b];
    assert tree.layers[0 := tree.layers[0][0 := x]] == [[x, Null], [Parent(a, b)]];
    var first := tree.FillLeaf(0, x);
    PairRun(x, Null, Parent(a, b), 0, Some(1));
    assert tree.layers == [[x, Null], [Parent(a, b)]];
    assert tree.layers[0 := tree.layers[0][1 := b]] == [[x, b], [Parent(a, b)]];
    var second := tree.FillLeaf(1, b);
    PairRun(x, b, Parent(a, b), 1, Some(2));
  }

  lemma QuadSubtree(a: Hash, b: Hash, c: Hash, e: Hash)
    requires a != Null && b != Null && c != Null && e != Null
    ensures var root := Parent(Parent(a, b), Parent(c, e));
            && IsSubtree(2, root, [a, b, c, e], 0) && Aligned(0, 2)
            && PushSubtree([[]], 2, root) == [[Null, Null, Null, Null], [Null, Null], [root]]
  {
    var (t, root) := ([a, b, c, e], Parent(Parent(a, b), Parent(c, e)));
    assert Node(t, 0, 1, 0) == Parent(Node(t, 0, 0, 0), Node(t, 0, 0, 1));
    assert Node(t, 0, 1, 1) == Parent(Node(t, 0, 0, 2), Node(t, 0, 0, 3));
    assert Node(t, 0, 2, 0) == Parent(Node(t, 0, 1, 0), Node(t, 0, 1, 1));
    assert Pow2(1) == 2 && Pow2(2) == 4 && Shr(0, 0) == 0 && Shr(0, 1) == 0;
    var ls := PushSubtree([[]], 2, root);
    assert Nulls(2) == [Null, Null] && Nulls(4) == [Null, Null, Null, Null];
    AddedIs(2, root, 0);
    AddedIs(2, root, 1);
    AddedIs(2, root, 2);
    assert ls[0] == [Null, Null, Null, Null] && ls[1] == [Null, Null] && ls[2] == [root];
    assert ls == [ls[0], ls[1], ls[2]];
  }

  /** Four leaves of which at most the last is known, under a known root. */
  lemma QuadRun(e: Hash, root: Hash, start: nat, maybeEnd: Option<nat>)
    requires start < 4 && (maybeEnd.Some? ==> start < maybeEnd.value <= 4)
    ensures var ls := [[Null, Null, Null, e], [Null, Null], [root]]; Run(ls, 0, start, maybeEnd, 0) == Some(ls)
  {
    hide Run;
    var ls := [[Null, Null, Null, e], [Null, Null], [root]];
    assert ls[0] == [Null, Null, Null, e] && ls[1] == [Null, Null] && ls[2] == [root];
    assert QuietAt(ls, 0) && QuietAt(ls, 1);
    QuietRun(ls, 0, start, maybeEnd, 0);
  }

  lemma QuadEdge(e: Hash, root: Hash)
    ensures OneTop([[Null, Null, Null, e], [Null, Null], [root]])
    ensures RightMost([[Null, Null, Null, e], [Null, Null], [root]]) == [(3, e), (1, Null), (0, root)]
  {
    var ls := [[Null, Null, Null, e], [Null, Null], [root]];
    assert ls[0][3] == e && ls[1][1] == Null && ls[2][0] == root;
  }

  lemma RefinedHeight(a: Layers, b: Layers)
    requires Refines(a, b)
    ensures |a| == |b|
  {
  }

  lemma OpenEdge(ls: Layers, d: DeltaNodes)
    requires |d.rightMost| == 3 && d.rightMost[0].0 == 3 && d.rightMost[0].1 != Null && d.rightMost[1].1 == Null
    requires |ls| >= 3 && |ls[0]| == 4 && ls[0][2] != Null
    ensures !EdgeClosed(ls, d)
  {
    assert EdgeChildrenKnown(ls, d, 1);
  }

  method HalfFilled(a: Hash, b: Hash, c: Hash, e: Hash) returns (tree: AppendMerkleTree)
    requires a != Null && b != Null && c != Null && e != Null
    ensures fresh(tree) && tree.Valid() && tree.truth == [a, b, c, e] && tree.leafHeight == 0 && tree.minDepth == None
    ensures tree.layers == [[Null, Null, Null, e], [Null, Null], [Parent(Parent(a, b), Parent(c, e))]]
    ensures Closed(tree.layers) && tree.deltaNodes == map[]
  {
    hide WellFormed, VersionsOk, Closed, LeftKnown, FullyKnown, Run, IsSubtree, PushSubtree, Aligned, Refines, Filled, FillPanics,
         SiblingsKnown, OnPath, Restored, RightMost, OneTop, NextSeq, ClearedAfter, RootsCleared, TopNode;
    ghost var (t, root) := ([a, b, c, e], Parent(Parent(a, b), Parent(c, e)));
    tree := new AppendMerkleTree([], None, 0, None);
    tree.KeysAgree();
    EmptyLayers(tree.layers, 0);
    QuadSubtree(a, b, c, e);
    var r := tree.AppendSubtree(3, Parent(Parent(a, b), Parent(c, e)), t);
    QuadRun(Null, root, 0, None);
    assert tree.layers == [[Null, Null, Null, Null], [Null, Null], [root]];
    assert [Null, Null, Null, Null][3 := e] == [Null, Null, Null, e];
    assert tree.layers[0 := tree.layers[0][3 := e]] == [[Null, Null, Null, e], [Null, Null], [root]];
    var first := tree.FillLeaf(3, e);
    QuadRun(e, root, 3, Some(4));
    assert tree.layers == [[Null, Null, Null, e], [Null, Null], [root]];
  }

  /**
   A version committed between two fills of the same pair: after the second fill and a revert, both
   leaves are known but their parent is unknown again.
   */
  method RevertAfterFillReopens(a: Hash, b: Hash, c: Hash, e: Hash) returns (tree: AppendMerkleTree, ghost live: Layers)
    requires a != Null && b != Null && c != Null && e != Null
    ensures fresh(tree) && tree.Valid() && tree.truth == [a, b, c, e]
    ensures Closed(live) && !Closed(tree.layers)
    ensures Restored(live, DeltaNodes([(3, e), (1, Null), (0, Parent(Parent(a, b), Parent(c, e)))]), tree.layers)
  {
    hide WellFormed, VersionsOk, Closed, LeftKnown, FullyKnown, Run, IsSubtree, PushSubtree, Aligned, Refines, Filled, FillPanics,
         SiblingsKnown, OnPath, Restored, RightMost, OneTop, NextSeq, ClearedAfter, RootsCleared, TopNode;
    ghost var root := Parent(Parent(a, b), Parent(c, e));
    tree := HalfFilled(a, b, c, e);
    FirstSeq(tree.deltaNodes, 1);
    QuadEdge(e, root);
    var committed := tree.Commit(Some(1));
    ghost var before := tree.layers;
    var second := tree.FillLeaf(2, c);
    live := tree.layers;
    RefinedHeight(live, before);
    LeafLayer(live, tree.truth, 0, 1);
    assert tree.deltaNodes[1] == DeltaNodes([(3, e), (1, Null), (0, root)]);
    OpenEdge(live, DeltaNodes([(3, e), (1, Null), (0, root)]));
    var back := tree.RevertTo(1);
  }

  /**
   Two versions may share a root, which is kept for the later one only: going back to the earlier
   one then leaves a retained version that is not found by its root.
   */
  method SharedRootRun(a: Hash, lh: nat) returns (tree: AppendMerkleTree)
    requires a != Null
    ensures fresh(tree) && tree.Valid() && tree.truth == [a]
    ensures 1 in tree.snapshots && tree.snapshots[1].truth == [a] && tree.snapshots[1].layers == tree.layers
    ensures !tree.CheckRoot(TopNode(tree.layers))
  {
    hide WellFormed, VersionsOk, Restored, LeftKnown, EdgeClosed, Closed, FullyKnown, Refines, Records, TopNode;
    tree := new AppendMerkleTree([a], None, lh, Some(1));
    ghost var kept := tree.snapshots[1];
    tree.OneVersion(1);
    LeafLayer(tree.layers, tree.truth, tree.leafHeight, tree.Base());
    var panicked := tree.Commit(Some(2));
    assert tree.snapshots[2] == Snapshot(kept.layers, [a], 0);
    var r := tree.RevertTo(1);
    assert r.Ok?;
  }
}
