/**
 Committed versions: what the right-most nodes recorded at a commit and the live layers together
 say about the layers at that commit.
 */
module Versions {
  import opened Bits
  import opened Hashing
  import opened PaddedTree
  import opened Layers
  import opened TreeRead

  /** The tree as it was at a commit, and how many leaves had been filled in until then. */
  datatype Snapshot = Snapshot(layers: Layers, truth: seq<Hash>, fills: nat)

  ghost predicate Records(d: DeltaNodes, s: Snapshot) {
    if s.truth == [] then d.rightMost == []
    else
      && |d.rightMost| == |s.layers|
      && forall h :: 0 <= h < |s.layers| ==>
           |s.layers[h]| > 0 && d.rightMost[h] == (|s.layers[h]| - 1, s.layers[h][|s.layers[h]| - 1])
  }

  /** The nodes of `s` except the last of each layer are still in `ls`; `exact` rules out fills. */
  ghost predicate Kept(ls: Layers, s: Layers, exact: bool) {
    && |s| <= |ls|
    && (forall h :: 0 <= h < |s| ==> |s[h]| <= |ls[h]|)
    && (forall h, i :: 0 <= h < |s| && 0 <= i < |s[h]| - 1 ==>
          ls[h][i] == s[h][i] || (!exact && s[h][i] == Null))
  }

  /** `u` continues `t` except perhaps in the last leaf of `t`. */
  ghost predicate Continues(t: seq<Hash>, u: seq<Hash>) {
    t == [] || (|t| <= |u| && t[..|t| - 1] == u[..|t| - 1])
  }

  /** The layers that `revert_to` and a history view make of `ls`. */
  function Reverted(ls: Layers, d: DeltaNodes): (r: Layers)
    requires |d.rightMost| <= |ls|
    requires forall h :: 0 <= h < |d.rightMost| ==> d.rightMost[h].0 < |ls[h]|
    ensures |r| == |d.rightMost|
    ensures forall h :: 0 <= h < |r| ==> r[h] == ls[h][..d.rightMost[h].0] + [d.rightMost[h].1]
  {
    seq(|d.rightMost|, h requires 0 <= h < |d.rightMost| => ls[h][..d.rightMost[h].0] + [d.rightMost[h].1])
  }

  ghost predicate SnapOk(s: Snapshot, d: DeltaNodes, ls: Layers, t: seq<Hash>, lh: nat, base: nat, fills: nat) {
    && s.fills <= fills
    && Records(d, s)
    && Continues(s.truth, t)
    && (s.truth != [] ==> WellFormed(s.layers, s.truth, lh, base) && Kept(ls, s.layers, s.fills == fills))
  }

  lemma RevertibleAt(s: Snapshot, d: DeltaNodes, ls: Layers, t: seq<Hash>, lh: nat, base: nat, fills: nat)
    requires SnapOk(s, d, ls, t, lh, base, fills) && s.truth != []
    ensures |d.rightMost| == |s.layers| <= |ls|
    ensures forall h :: 0 <= h < |d.rightMost| ==> d.rightMost[h].0 == |s.layers[h]| - 1 < |ls[h]|
  {
  }

  /** A reverted node is the node at the commit, or was filled in since. */
  lemma RevertedNode(s: Snapshot, d: DeltaNodes, ls: Layers, t: seq<Hash>, lh: nat, base: nat, fills: nat, h: nat, i: nat)
    requires SnapOk(s, d, ls, t, lh, base, fills) && s.truth != []
    requires AllGood(ls, t, lh)
    requires h < |s.layers| && i < |s.layers[h]|
    ensures |d.rightMost| <= |ls| && d.rightMost[h].0 < |ls[h]|
    ensures var x := (ls[h][..d.rightMost[h].0] + [d.rightMost[h].1])[i];
            && (x == s.layers[h][i] || (s.fills != fills && s.layers[h][i] == Null))
            && Good(x, s.truth, lh, h, i)
  {
    RevertibleAt(s, d, ls, t, lh, base, fills);
    var m := |s.truth|;
    assert Good(s.layers[h][i], s.truth, lh, h, i);
    if i < |s.layers[h]| - 1 {
      assert Good(ls[h][i], t, lh, h, i);
      LenBounds(m, h);
      NodePrefix(t, s.truth, lh, m - 1, h, i);
    }
  }

  /** Reverting gives a well-formed tree over the leaves of the commit: the old layers, plus fills. */
  lemma RevertedWellFormed(s: Snapshot, d: DeltaNodes, ls: Layers, t: seq<Hash>, lh: nat, base: nat, fills: nat)
    requires SnapOk(s, d, ls, t, lh, base, fills) && s.truth != []
    requires AllGood(ls, t, lh)
    ensures |d.rightMost| <= |ls| && forall h :: 0 <= h < |d.rightMost| ==> d.rightMost[h].0 < |ls[h]|
    ensures WellFormed(Reverted(ls, d), s.truth, lh, base)
    ensures Refines(Reverted(ls, d), s.layers)
    ensures s.fills == fills ==> Reverted(ls, d) == s.layers
  {
    RevertibleAt(s, d, ls, t, lh, base, fills);
    var r := Reverted(ls, d);
    forall h, i | 0 <= h < |r| && 0 <= i < |r[h]|
      ensures Good(r[h][i], s.truth, lh, h, i)
      ensures r[h][i] == s.layers[h][i] || (s.fills != fills && s.layers[h][i] == Null)
    {
      RevertedNode(s, d, ls, t, lh, base, fills, h, i);
    }
    SameShape(r, s.layers, s.truth, lh, base);
    if s.fills == fills {
      forall h | 0 <= h < |r| ensures r[h] == s.layers[h] {
        assert forall i :: 0 <= i < |r[h]| ==> r[h][i] == s.layers[h][i];
      }
    }
  }

  /** Same layers, except that unknown nodes of `b` may be known in `a`. */
  ghost predicate Refines(a: Layers, b: Layers) {
    && |a| == |b|
    && (forall h :: 0 <= h < |b| ==> |a[h]| == |b[h]|)
    && (forall h, i :: 0 <= h < |b| && 0 <= i < |b[h]| ==> a[h][i] == b[h][i] || b[h][i] == Null)
  }

  lemma SameShape(a: Layers, b: Layers, t: seq<Hash>, lh: nat, base: nat)
    requires WellFormed(b, t, lh, base) && Refines(a, b) && AllGood(a, t, lh)
    ensures WellFormed(a, t, lh, base)
  {
    hide Good, Shr, Len;
    assert forall h :: 0 <= h < |a| ==> |a[h]| == |b[h]|;
    forall h, i | 0 <= h < |a| && 2 * Shr(|t|, h + 1) <= i < |a[h]| ensures a[h][i] != Null {
      assert b[h][i] != Null;
    }
  }

  // ---------- Every operation keeps every version ----------

  /** `post` agrees with `ls` left of `start` and lost nothing. */
  ghost predicate Extends(ls: Layers, post: Layers, start: nat) {
    && |ls| <= |post|
    && (forall h :: 0 <= h < |ls| ==> |ls[h]| <= |post[h]|)
    && (forall h, i :: 0 <= h < |ls| && 0 <= i < |ls[h]| && i < Shr(start, h) ==> post[h][i] == ls[h][i])
  }

  lemma KeptExtends(ls: Layers, post: Layers, s: Layers, m: nat, base: nat, start: nat, exact: bool)
    requires Kept(ls, s, exact) && Extends(ls, post, start)
    requires Sized(s, m, base) && 0 < m && m - 1 <= start
    ensures Kept(post, s, exact)
  {
    forall h, i | 0 <= h < |s| && 0 <= i < |s[h]| - 1
      ensures post[h][i] == s[h][i] || (!exact && s[h][i] == Null)
    {
      LenBounds(m, h);
      ShrMono(m - 1, start, h);
      assert post[h][i] == ls[h][i];
    }
  }

  lemma SnapExtends(s: Snapshot, d: DeltaNodes, ls: Layers, post: Layers, t: seq<Hash>, u: seq<Hash>, lh: nat, base: nat, fills: nat, start: nat)
    requires SnapOk(s, d, ls, t, lh, base, fills)
    requires Extends(ls, post, start)
    requires |t| - 1 <= start <= |t| <= |u| && t[..start] == u[..start]
    ensures SnapOk(s, d, post, u, lh, base, fills)
  {
    hide WellFormed, Kept, Extends, Records;
    if s.truth != [] {
      var m := |s.truth|;
      assert t[..m - 1] == t[..start][..m - 1] == u[..start][..m - 1] == u[..m - 1];
      FromWellFormed(s.layers, s.truth, lh, base);
      KeptExtends(ls, post, s.layers, m, base, start, s.fills == fills);
    }
  }

  lemma SnapFilled(s: Snapshot, d: DeltaNodes, ls: Layers, post: Layers, t: seq<Hash>, lh: nat, base: nat, fills: nat)
    requires SnapOk(s, d, ls, t, lh, base, fills)
    requires Refines(post, ls)
    ensures SnapOk(s, d, post, t, lh, base, fills + 1)
  {
    hide WellFormed, Records;
    if s.truth != [] {
      forall h, i | 0 <= h < |s.layers| && 0 <= i < |s.layers[h]| - 1
        ensures post[h][i] == s.layers[h][i] || s.layers[h][i] == Null
      {
        assert ls[h][i] == s.layers[h][i] || s.layers[h][i] == Null;
      }
    }
  }

  /** An older version survives the revert to a newer one. */
  lemma SnapReverted(a: Snapshot, da: DeltaNodes, b: Snapshot, db: DeltaNodes, ls: Layers, t: seq<Hash>, lh: nat, base: nat, fills: nat)
    requires SnapOk(a, da, ls, t, lh, base, fills) && SnapOk(b, db, ls, t, lh, base, fills)
    requires b.truth != [] && |a.truth| <= |b.truth|
    ensures |db.rightMost| <= |ls| && forall h :: 0 <= h < |db.rightMost| ==> db.rightMost[h].0 < |ls[h]|
    ensures SnapOk(a, da, Reverted(ls, db), b.truth, lh, base, fills)
  {
    hide Records, AllGood, EdgeKnown, NoNulls;
    RevertibleAt(b, db, ls, t, lh, base, fills);
    if a.truth != [] {
      var m := |a.truth|;
      var n := |b.truth|;
      assert a.truth[..m - 1] == t[..n - 1][..m - 1] == b.truth[..n - 1][..m - 1] == b.truth[..m - 1];
      HeightMono(a.layers, m, b.layers, n, base);
      var r := Reverted(ls, db);
      forall h | 0 <= h < |a.layers| ensures |a.layers[h]| <= |b.layers[h]| == |r[h]| {
        ShrMono(m, n, h);
      }
      forall h, i | 0 <= h < |a.layers| && 0 <= i < |a.layers[h]| - 1 ensures r[h][i] == ls[h][i] {
        assert r[h] == ls[h][..db.rightMost[h].0] + [db.rightMost[h].1];
      }
    }
  }

  /** A fresh commit records the live tree. */
  function RightMost(ls: Layers): (r: seq<(nat, Hash)>)
    requires forall h :: 0 <= h < |ls| ==> |ls[h]| > 0
    ensures |r| == |ls|
    ensures forall h :: 0 <= h < |r| ==> r[h] == (|ls[h]| - 1, ls[h][|ls[h]| - 1])
  {
    seq(|ls|, h requires 0 <= h < |ls| => (|ls[h]| - 1, ls[h][|ls[h]| - 1]))
  }

  /** A history view over the live layers shows the reverted layers without touching anything. */
  lemma HistoryShowsReverted(ls: Layers, d: DeltaNodes, lh: nat)
    requires |d.rightMost| <= |ls|
    requires forall h :: 0 <= h < |d.rightMost| ==> d.rightMost[h].0 < |ls[h]|
    ensures Shows(History(ls, d, lh), Reverted(ls, d))
  {
    var v := History(ls, d, lh);
    var r := Reverted(ls, d);
    forall h, i | 0 <= h < |r| && 0 <= i < |r[h]| ensures v.NodeAt(h, i) == r[h][i] {
      assert r[h] == ls[h][..d.rightMost[h].0] + [d.rightMost[h].1];
    }
  }

  /** The recorded node of layer `k` has known children: the recorded one below it and, if there is one, its left neighbour. */
  ghost predicate EdgeChildrenKnown(ls: Layers, d: DeltaNodes, k: nat)
    requires 1 <= k <= |d.rightMost| <= |ls|
  {
    var (last, node) := d.rightMost[k - 1];
    node != Null && (last % 2 == 1 && last <= |ls[k - 1]| ==> ls[k - 1][last - 1] != Null)
  }

  /** No recorded right-most node is unknown while its children are known by now. */
  ghost predicate EdgeClosed(ls: Layers, d: DeltaNodes)
    requires |d.rightMost| <= |ls|
  {
    forall k :: 1 <= k < |d.rightMost| && EdgeChildrenKnown(ls, d, k) ==> d.rightMost[k].1 != Null
  }

  /** Each recorded right-most node is the parent of the one below it. */
  ghost predicate EdgeIsPath(d: DeltaNodes) {
    forall h, k :: 0 <= h && k == h + 1 && k < |d.rightMost| ==> d.rightMost[h].0 / 2 == d.rightMost[k].0
  }

  lemma RecordedPath(s: Snapshot, d: DeltaNodes, lh: nat, base: nat)
    requires Records(d, s) && s.truth != [] && WellFormed(s.layers, s.truth, lh, base)
    ensures EdgeIsPath(d)
  {
    hide AllGood, EdgeKnown;
    forall h, k | 0 <= h && k == h + 1 && k < |d.rightMost| ensures d.rightMost[h].0 / 2 == d.rightMost[k].0 {
      LenBounds(|s.truth|, h);
      LenBounds(|s.truth|, k);
    }
  }

  /** Left of the recorded edge a reverted tree is closed where the live one is. */
  lemma ClosedBelowEdge(ls: Layers, d: DeltaNodes, k: nat, j: nat)
    requires |d.rightMost| <= |ls| && forall h :: 0 <= h < |d.rightMost| ==> d.rightMost[h].0 < |ls[h]|
    requires Closed(ls) && EdgeIsPath(d) && 1 <= k < |d.rightMost| && j < d.rightMost[k].0
    requires ChildrenKnown(Reverted(ls, d)[k - 1], j)
    ensures Reverted(ls, d)[k][j] != Null
  {
    var (r, g) := (Reverted(ls, d), k - 1);
    assert r[g] == ls[g][..d.rightMost[g].0] + [d.rightMost[g].1];
    assert r[k] == ls[k][..d.rightMost[k].0] + [d.rightMost[k].1];
    assert d.rightMost[g].0 / 2 == d.rightMost[k].0;
    assert ChildrenKnown(ls[g], j);
  }

  lemma EdgeChildren(ls: Layers, d: DeltaNodes, k: nat)
    requires |d.rightMost| <= |ls| && forall h :: 0 <= h < |d.rightMost| ==> d.rightMost[h].0 < |ls[h]|
    requires EdgeIsPath(d) && 1 <= k < |d.rightMost|
    ensures |Reverted(ls, d)[k]| == d.rightMost[k].0 + 1 && Reverted(ls, d)[k][d.rightMost[k].0] == d.rightMost[k].1
    ensures ChildrenKnown(Reverted(ls, d)[k - 1], d.rightMost[k].0) <==> EdgeChildrenKnown(ls, d, k)
  {
    var (r, g) := (Reverted(ls, d), k - 1);
    assert r[g] == ls[g][..d.rightMost[g].0] + [d.rightMost[g].1];
    assert r[k] == ls[k][..d.rightMost[k].0] + [d.rightMost[k].1];
    assert d.rightMost[g].0 / 2 == d.rightMost[k].0;
  }

  /**
   Reverting a closed tree: the result is closed if and only if no recorded right-most node is
   unknown although its children are known by now.
   */
  lemma RevertedClosed(ls: Layers, d: DeltaNodes)
    requires |d.rightMost| <= |ls| && forall h :: 0 <= h < |d.rightMost| ==> d.rightMost[h].0 < |ls[h]|
    requires Closed(ls) && EdgeIsPath(d)
    ensures Closed(Reverted(ls, d)) <==> EdgeClosed(ls, d)
  {
    hide ChildrenKnown, EdgeIsPath, Reverted, EdgeChildrenKnown;
    var r := Reverted(ls, d);
    if EdgeClosed(ls, d) {
      forall k, j | 1 <= k < |r| && 0 <= j < |r[k]| && ChildrenKnown(r[k - 1], j) ensures r[k][j] != Null {
        EdgeChildren(ls, d, k);
        if j < d.rightMost[k].0 {
          hide Closed;
          ClosedBelowEdge(ls, d, k, j);
        }
      }
    } else {
      var k :| 1 <= k < |d.rightMost| && EdgeChildrenKnown(ls, d, k) && d.rightMost[k].1 == Null;
      EdgeChildren(ls, d, k);
    }
  }

  // ---------- The version maps ----------

  ghost predicate AllSnaps(snaps: map<nat, Snapshot>, deltas: map<nat, DeltaNodes>, ls: Layers, t: seq<Hash>, lh: nat, base: nat, fills: nat) {
    && snaps.Keys == deltas.Keys
    && forall k :: k in snaps ==> SnapOk(snaps[k], deltas[k], ls, t, lh, base, fills)
  }

  ghost predicate Ordered(snaps: map<nat, Snapshot>) {
    forall a, b :: a in snaps && b in snaps && a <= b ==> |snaps[a].truth| <= |snaps[b].truth|
  }

  ghost predicate Contiguous(keys: set<nat>) {
    forall a, b, k :: a in keys && b in keys && a <= k <= b ==> k in keys
  }

  function TopNode(ls: Layers): Hash {
    if |ls| > 0 && |ls[|ls| - 1]| > 0 then ls[|ls| - 1][0] else Null
  }

  /** Every accepted root leads to a version with that root. */
  ghost predicate RootsOk(roots: map<Hash, nat>, snaps: map<nat, Snapshot>) {
    forall r :: r in roots ==> roots[r] in snaps && snaps[roots[r]].truth != [] && TopNode(snaps[roots[r]].layers) == r
  }

  ghost predicate VersionsOk(snaps: map<nat, Snapshot>, deltas: map<nat, DeltaNodes>, roots: map<Hash, nat>,
                             ls: Layers, t: seq<Hash>, lh: nat, base: nat, fills: nat)
  {
    && AllSnaps(snaps, deltas, ls, t, lh, base, fills)
    && Ordered(snaps)
    && Contiguous(snaps.Keys)
    && RootsOk(roots, snaps)
  }

  /** `seq` is a number that the next commit may use. */
  ghost predicate NextSeq(keys: set<nat>, seqNo: nat) {
    && (forall k :: k in keys ==> k < seqNo)
    && (keys == {} || seqNo - 1 in keys)
  }

  lemma VersionsExtend(snaps: map<nat, Snapshot>, deltas: map<nat, DeltaNodes>, roots: map<Hash, nat>,
                       ls: Layers, post: Layers, t: seq<Hash>, u: seq<Hash>, lh: nat, base: nat, fills: nat, start: nat)
    requires VersionsOk(snaps, deltas, roots, ls, t, lh, base, fills)
    requires Extends(ls, post, start)
    requires |t| - 1 <= start <= |t| <= |u| && t[..start] == u[..start]
    ensures VersionsOk(snaps, deltas, roots, post, u, lh, base, fills)
  {
    hide SnapOk, Extends;
    forall k | k in snaps ensures SnapOk(snaps[k], deltas[k], post, u, lh, base, fills) {
      SnapExtends(snaps[k], deltas[k], ls, post, t, u, lh, base, fills, start);
    }
  }

  lemma VersionsFilled(snaps: map<nat, Snapshot>, deltas: map<nat, DeltaNodes>, roots: map<Hash, nat>,
                       ls: Layers, post: Layers, t: seq<Hash>, lh: nat, base: nat, fills: nat)
    requires VersionsOk(snaps, deltas, roots, ls, t, lh, base, fills)
    requires Refines(post, ls)
    ensures VersionsOk(snaps, deltas, roots, post, t, lh, base, fills + 1)
  {
    hide SnapOk, Refines;
    forall k | k in snaps ensures SnapOk(snaps[k], deltas[k], post, t, lh, base, fills + 1) {
      SnapFilled(snaps[k], deltas[k], ls, post, t, lh, base, fills);
    }
  }

  lemma CommittedSnap(ls: Layers, t: seq<Hash>, lh: nat, base: nat, fills: nat)
    requires WellFormed(ls, t, lh, base) && t != []
    ensures forall h :: 0 <= h < |ls| ==> |ls[h]| > 0
    ensures SnapOk(Snapshot(ls, t, fills), DeltaNodes(RightMost(ls)), ls, t, lh, base, fills)
  {
    forall h | 0 <= h < |ls| ensures |ls[h]| > 0 { LenBounds(|t|, h); }
  }

  lemma OrderedCommitted(snaps: map<nat, Snapshot>, deltas: map<nat, DeltaNodes>,
                         ls: Layers, t: seq<Hash>, lh: nat, base: nat, fills: nat, seqNo: nat)
    requires AllSnaps(snaps, deltas, ls, t, lh, base, fills) && Ordered(snaps) && NextSeq(snaps.Keys, seqNo)
    ensures Ordered(snaps[seqNo := Snapshot(ls, t, fills)])
  {
    hide SnapOk;
    var s := snaps[seqNo := Snapshot(ls, t, fills)];
    forall a, b | a in s && b in s && a <= b ensures |s[a].truth| <= |s[b].truth| {
      if a != seqNo { SnapLen(snaps[a], deltas[a], ls, t, lh, base, fills); }
    }
  }

  lemma RootsCommitted(snaps: map<nat, Snapshot>, roots: map<Hash, nat>, newRoots: map<Hash, nat>, seqNo: nat, snap: Snapshot)
    requires RootsOk(roots, snaps) && NextSeq(snaps.Keys, seqNo)
    requires newRoots == if snap.truth == [] then roots else roots[TopNode(snap.layers) := seqNo]
    ensures RootsOk(newRoots, snaps[seqNo := snap])
  {
    hide TopNode;
  }

  lemma VersionsCommitted(snaps: map<nat, Snapshot>, deltas: map<nat, DeltaNodes>, roots: map<Hash, nat>, newRoots: map<Hash, nat>,
                          ls: Layers, t: seq<Hash>, lh: nat, base: nat, fills: nat, seqNo: nat, d: DeltaNodes)
    requires VersionsOk(snaps, deltas, roots, ls, t, lh, base, fills)
    requires NextSeq(snaps.Keys, seqNo)
    requires SnapOk(Snapshot(ls, t, fills), d, ls, t, lh, base, fills)
    requires newRoots == if t == [] then roots else roots[TopNode(ls) := seqNo]
    ensures VersionsOk(snaps[seqNo := Snapshot(ls, t, fills)], deltas[seqNo := d], newRoots, ls, t, lh, base, fills)
  {
    hide SnapOk, TopNode, Contiguous, Ordered, RootsOk;
    var s := snaps[seqNo := Snapshot(ls, t, fills)];
    OrderedCommitted(snaps, deltas, ls, t, lh, base, fills, seqNo);
    RootsCommitted(snaps, roots, newRoots, seqNo, Snapshot(ls, t, fills));
    NextContiguous(snaps.Keys, seqNo);
    assert s.Keys == snaps.Keys + {seqNo};
  }

  lemma SnapLen(s: Snapshot, d: DeltaNodes, ls: Layers, t: seq<Hash>, lh: nat, base: nat, fills: nat)
    requires SnapOk(s, d, ls, t, lh, base, fills)
    ensures |s.truth| <= |t|
  {
  }

  lemma NextContiguous(keys: set<nat>, seqNo: nat)
    requires Contiguous(keys) && NextSeq(keys, seqNo)
    ensures Contiguous(keys + {seqNo})
  {
  }

  /** What remains of a version map after clearing everything later than `seqNo`. */
  ghost predicate ClearedAfter<V>(before: map<nat, V>, after: map<nat, V>, seqNo: nat) {
    && after.Keys == (set k | k in before && k <= seqNo)
    && forall k :: k in after ==> after[k] == before[k]
  }

  /** Exactly the roots of the cleared versions are no longer accepted. */
  ghost predicate RootsCleared(before: map<Hash, nat>, after: map<Hash, nat>, snaps: map<nat, Snapshot>, seqNo: nat) {
    && after.Keys <= before.Keys
    && (forall r :: r in after ==> after[r] == before[r])
    && (forall r :: r in before ==>
          (r in after <==> forall k :: k in snaps && k > seqNo && snaps[k].truth != [] ==> TopNode(snaps[k].layers) != r))
  }

  lemma RootsReverted(snaps: map<nat, Snapshot>, roots: map<Hash, nat>, snaps': map<nat, Snapshot>, roots': map<Hash, nat>, seqNo: nat)
    requires RootsOk(roots, snaps) && ClearedAfter(snaps, snaps', seqNo) && RootsCleared(roots, roots', snaps, seqNo)
    ensures RootsOk(roots', snaps')
  {
    hide TopNode;
    forall r | r in roots' ensures roots'[r] in snaps' {
      assert snaps[roots[r]].truth != [] && TopNode(snaps[roots[r]].layers) == r;
    }
  }

  lemma VersionsReverted(snaps: map<nat, Snapshot>, deltas: map<nat, DeltaNodes>, roots: map<Hash, nat>,
                         snaps': map<nat, Snapshot>, deltas': map<nat, DeltaNodes>, roots': map<Hash, nat>,
                         ls: Layers, t: seq<Hash>, lh: nat, base: nat, fills: nat, seqNo: nat)
    requires VersionsOk(snaps, deltas, roots, ls, t, lh, base, fills)
    requires seqNo in snaps && snaps[seqNo].truth != []
    requires ClearedAfter(snaps, snaps', seqNo) && ClearedAfter(deltas, deltas', seqNo)
    requires RootsCleared(roots, roots', snaps, seqNo)
    ensures |deltas[seqNo].rightMost| <= |ls|
    ensures forall h :: 0 <= h < |deltas[seqNo].rightMost| ==> deltas[seqNo].rightMost[h].0 < |ls[h]|
    ensures VersionsOk(snaps', deltas', roots', Reverted(ls, deltas[seqNo]), snaps[seqNo].truth, lh, base, fills)
  {
    hide SnapOk, RootsOk, RootsCleared, TopNode;
    RevertibleAt(snaps[seqNo], deltas[seqNo], ls, t, lh, base, fills);
    forall k | k in snaps'
      ensures SnapOk(snaps'[k], deltas'[k], Reverted(ls, deltas[seqNo]), snaps[seqNo].truth, lh, base, fills)
    {
      SnapReverted(snaps[k], deltas[k], snaps[seqNo], deltas[seqNo], ls, t, lh, base, fills);
    }
    RootsReverted(snaps, roots, snaps', roots', seqNo);
  }

  /** With only empty versions left, the maps fit any empty tree. */
  lemma VersionsEmptied(snaps: map<nat, Snapshot>, deltas: map<nat, DeltaNodes>, roots: map<Hash, nat>,
                        snaps': map<nat, Snapshot>, deltas': map<nat, DeltaNodes>, roots': map<Hash, nat>,
                        ls: Layers, t: seq<Hash>, lh: nat, base: nat, fills: nat, seqNo: nat, post: Layers)
    requires VersionsOk(snaps, deltas, roots, ls, t, lh, base, fills)
    requires seqNo in snaps && snaps[seqNo].truth == []
    requires ClearedAfter(snaps, snaps', seqNo) && ClearedAfter(deltas, deltas', seqNo)
    requires RootsCleared(roots, roots', snaps, seqNo)
    ensures VersionsOk(snaps', deltas', roots', post, [], lh, base, fills)
  {
    forall r | r in roots' ensures roots'[r] in snaps' {
      assert snaps[roots[r]].truth != [] && TopNode(snaps[roots[r]].layers) == r;
    }
  }
}
