/**
 Changing the last leaf: the nodes above it can be recomputed exactly as long as the node to the
 left of each of them is known.
 */
module LastLeaf {
  import opened Bits
  import opened Hashing
  import opened Wrappers
  import opened PaddedTree
  import opened Layers
  import opened Recompute
  import opened Versions
  import opened DepthOrder

  /** The node beside the path of the last leaf in layer `h`, if it has one to its left, is known. */
  ghost predicate LeftKnownAt(ls: Layers, n: nat, h: nat)
    requires n > 0
  {
    var x := Shr(n - 1, h);
    h + 1 < |ls| && x % 2 == 1 && x - 1 < |ls[h]| ==> ls[h][x - 1] != Null
  }

  ghost predicate LeftKnown(ls: Layers, n: nat) {
    n > 0 ==> forall h: nat :: LeftKnownAt(ls, n, h)
  }

  /** One layer of the path: the last node is recomputed if its children are known. */
  function PathStep(c: seq<Hash>, p: seq<Hash>, pad: nat): seq<Hash>
    requires |p| > 0 && 2 * (|p| - 1) < |c|
  {
    var parent := ParentOf(c, |p| - 1, pad);
    if parent == Null then p else p[|p| - 1 := parent]
  }

  /** Layers above `h` come from `ls` by a recomputed path. */
  ghost predicate PathFrom(ls: Layers, post: Layers, h: nat, lh: nat) {
    && |post| == |ls|
    && forall g, k :: h <= g && k == g + 1 && k < |ls| ==> OnPathStep(ls, post, g, k, lh)
  }

  ghost predicate OnPathStep(ls: Layers, post: Layers, g: nat, k: nat, lh: nat)
    requires g < |post| && k < |ls| && k < |post|
  {
    |ls[k]| > 0 && 2 * (|ls[k]| - 1) < |post[g]| && post[k] == PathStep(post[g], ls[k], g + lh)
  }

  /** One round from the last node of a layer rewrites the last node of the next and cannot panic. */
  lemma PathRound(c: seq<Hash>, p: seq<Hash>, pad: nat)
    requires |p| > 0 && (|c| == 2 * |p| - 1 || |c| == 2 * |p|)
    ensures RoundRuns(c, p, |p| - 1, |c|, pad)
    ensures NewParents(c, p, |p| - 1, |c|, pad) == PathStep(c, p, pad)
    ensures RoundEnd(After(LastChanged(c, p, |p| - 1, |c|, pad, (|c| + 1) / 2)), |p|) == |p|
  {
    hide ParentOf;
    var x := |p| - 1;
    assert (|c| + 1) / 2 == |p|;
    forall j: nat | x <= j < (|c| + 1) / 2 ensures !Panics(c, p, pad, j) { }
    assert Changed(c, p, x, |c|, pad, x) <==> ParentOf(c, x, pad) != Null;
    assert NewParents(c, p, x, |c|, pad) == PathStep(c, p, pad);
  }

  lemma PathLens(ls: Layers, n: nat, base: nat, h: nat)
    requires Sized(ls, n, base) && n > 0 && h < |ls|
    ensures |ls[h]| == Shr(n - 1, h) + 1
    ensures h + 1 < |ls| ==>
      && |ls[h + 1]| == Shr(n - 1, h) / 2 + 1
      && (|ls[h]| == 2 * |ls[h + 1]| - 1 || |ls[h]| == 2 * |ls[h + 1]|)
  {
    LenBounds(n, h);
    if h + 1 < |ls| { LenBounds(n, h + 1); }
  }

  lemma {:induction false} RunPath(ls: Layers, cur: Layers, n: nat, lh: nat, base: nat, h: nat, maybeEnd: Option<nat>)
    requires Sized(ls, n, base) && n > 0 && h < |ls| == |cur|
    requires |cur[h]| == |ls[h]| && forall k :: h < k < |ls| ==> cur[k] == ls[k]
    requires RoundEnd(maybeEnd, |cur[h]|) == |cur[h]|
    ensures var r := Run(cur, h, Shr(n - 1, h), maybeEnd, lh);
            && r.Some? && PathFrom(ls, r.value, h, lh)
            && forall k :: 0 <= k <= h ==> r.value[k] == cur[k]
    decreases |ls| - h
  {
    hide Run, Len, Shr, ParentOf, RoundRuns, NewParents, LastChanged, RoundEnd;
    PathLens(ls, n, base, h);
    if h == |ls| - 1 {
      assert |cur[h]| <= 1;
      RunTop(cur, h, Shr(n - 1, h), maybeEnd, lh);
    } else {
      var (c, p) := (cur[h], ls[h + 1]);
      PathRound(c, p, h + lh);
      RunOn(cur, h, Shr(n - 1, h), maybeEnd, lh);
      var next := cur[h + 1 := PathStep(c, p, h + lh)];
      assert LayerAt(cur, h + 1) == p;
      assert RoundNext(cur, h, |p| - 1, |c|, lh) == next;
      ShrNext(n - 1, h);
      RunPath(ls, next, n, lh, base, h + 1, RoundLast(cur, h, |p| - 1, |c|, lh));
      var post := Run(next, h + 1, Shr(n - 1, h + 1), RoundLast(cur, h, |p| - 1, |c|, lh), lh).value;
      assert OnPathStep(ls, post, h, h + 1, lh);
    }
  }

  lemma ShrNext(n: nat, h: nat)
    ensures Shr(n, h + 1) == Shr(n, h) / 2
  {
  }

  ghost predicate PathUpdated(ls: Layers, post: Layers, n: nat, leaf: Hash, lh: nat) {
    && |ls| == |post| >= 1 && n == |ls[0]| > 0
    && post[0] == ls[0][n - 1 := leaf] && PathFrom(ls, post, 0, lh)
  }

  /** What `update_last` leaves, on any tree: it never panics. */
  lemma UpdateRuns(ls: Layers, t: seq<Hash>, lh: nat, base: nat, leaf: Hash)
    requires WellFormed(ls, t, lh, base) && t != []
    ensures |ls| >= 1 && |ls[0]| == |t|
    ensures var r := Run(ls[0 := ls[0][|t| - 1 := leaf]], 0, |t| - 1, None, lh);
            r.Some? && PathUpdated(ls, r.value, |t|, leaf, lh)
  {
    hide Run, OnPathStep, AllGood, EdgeKnown;
    var raw := ls[0 := ls[0][|t| - 1 := leaf]];
    assert Shr(|t| - 1, 0) == |t| - 1;
    RunPath(ls, raw, |t|, lh, base, 0, None);
    assert Run(raw, 0, |t| - 1, None, lh).value[0] == raw[0];
  }

  // ---------- Entries ----------

  /** Entries before the last stay; the last is recomputed or stays. */
  lemma PathEntry(ls: Layers, post: Layers, n: nat, leaf: Hash, lh: nat, base: nat, h: nat, i: nat)
    requires PathUpdated(ls, post, n, leaf, lh) && Sized(ls, n, base) && leaf != Null
    requires h < |ls| && i < |ls[h]|
    ensures |post[h]| == |ls[h]|
    ensures i < Shr(n - 1, h) ==> post[h][i] == ls[h][i]
    ensures post[h][i] == Null ==> ls[h][i] == Null
  {
    hide ParentOf, Shr;
    PathLens(ls, n, base, h);
    if h > 0 {
      var g := h - 1;
      assert OnPathStep(ls, post, g, h, lh);
    }
  }

  lemma PathLast(ls: Layers, post: Layers, n: nat, leaf: Hash, lh: nat, base: nat, h: nat)
    requires PathUpdated(ls, post, n, leaf, lh) && Sized(ls, n, base) && leaf != Null && h + 1 < |ls|
    ensures |post[h]| == |ls[h]| && |post[h + 1]| == |ls[h + 1]|
    ensures var x := Shr(n - 1, h + 1);
            && x < |post[h + 1]| && 2 * x < |post[h]|
            && post[h + 1][x] == if ParentOf(post[h], x, h + lh) == Null then ls[h + 1][x] else ParentOf(post[h], x, h + lh)
  {
    hide ParentOf, Shr;
    PathLens(ls, n, base, h);
    PathLens(ls, n, base, h + 1);
    ShrNext(n - 1, h);
    PathEntry(ls, post, n, leaf, lh, base, h, 0);
    PathEntry(ls, post, n, leaf, lh, base, h + 1, 0);
    var k := h + 1;
    assert OnPathStep(ls, post, h, k, lh);
  }

  // ---------- When the result is the tree ----------

  /** The leaf is the one that was there, or everything to the left of its path is known. */
  ghost predicate CanUpdate(ls: Layers, t: seq<Hash>, leaf: Hash) {
    t != [] && (leaf == t[|t| - 1] || LeftKnown(ls, |t|))
  }

  lemma OldEntryGood(ls: Layers, t: seq<Hash>, u: seq<Hash>, lh: nat, base: nat, h: nat, i: nat)
    requires WellFormed(ls, t, lh, base) && t != [] && |u| == |t| && u[..|t| - 1] == t[..|t| - 1]
    requires h < |ls| && i < |ls[h]| && i < Shr(|t| - 1, h)
    ensures Good(ls[h][i], u, lh, h, i)
  {
    hide Node;
    assert Good(ls[h][i], t, lh, h, i);
    NodePrefix(t, u, lh, |t| - 1, h, i);
  }

  /** Going up, the path holds the nodes over the changed leaves. */
  lemma {:induction false} PathGood(ls: Layers, post: Layers, t: seq<Hash>, u: seq<Hash>, lh: nat, base: nat, leaf: Hash, h: nat)
    requires WellFormed(ls, t, lh, base) && CanUpdate(ls, t, leaf) && leaf != Null
    requires PathUpdated(ls, post, |t|, leaf, lh) && u == t[|t| - 1 := leaf] && h < |ls|
    ensures Shr(|t| - 1, h) < |post[h]|
    ensures Good(post[h][Shr(|t| - 1, h)], u, lh, h, Shr(|t| - 1, h))
    ensures LeftKnown(ls, |t|) ==> post[h][Shr(|t| - 1, h)] != Null
  {
    hide EdgeKnown, PathFrom, LeftKnown, AllGood, ParentOf, ChildrenKnown;
    var n := |t|;
    PathLens(ls, n, base, h);
    if h == 0 {
      assert Node(u, lh, 0, n - 1) == leaf;
    } else {
      var (g, x) := (h - 1, Shr(n - 1, h));
      PathGood(ls, post, t, u, lh, base, leaf, g);
      PathLast(ls, post, n, leaf, lh, base, g);
      PathLens(ls, n, base, g);
      ChildrenGood(ls, post, t, u, lh, base, leaf, g);
      ParentKnown(post[g], x, g + lh);
      if ChildrenKnown(post[g], x) {
        assert |post[g]| == Len(|u|, g);
        ParentIsNode(post[g], u, lh, g, x);
      } else if leaf == t[n - 1] {
        assert u == t;
        EntryGood(ls, t, lh, base, h, x);
      }
    }
  }

  lemma EntryGood(ls: Layers, t: seq<Hash>, lh: nat, base: nat, h: nat, i: nat)
    requires WellFormed(ls, t, lh, base) && h < |ls| && i < |ls[h]|
    ensures Good(ls[h][i], t, lh, h, i)
  {
  }

  lemma ParentKnown(c: seq<Hash>, x: nat, pad: nat)
    requires 2 * x < |c|
    ensures ParentOf(c, x, pad) != Null <==> ChildrenKnown(c, x)
  {
  }

  /** The two children of the next path node: the path node below it and its neighbour. */
  lemma ChildrenGood(ls: Layers, post: Layers, t: seq<Hash>, u: seq<Hash>, lh: nat, base: nat, leaf: Hash, g: nat)
    requires WellFormed(ls, t, lh, base) && t != [] && leaf != Null && g + 1 < |ls|
    requires PathUpdated(ls, post, |t|, leaf, lh) && u == t[|t| - 1 := leaf]
    requires Shr(|t| - 1, g) < |post[g]| && Good(post[g][Shr(|t| - 1, g)], u, lh, g, Shr(|t| - 1, g))
    ensures var x := Shr(|t| - 1, g + 1);
            forall i :: 2 * x <= i < |post[g]| && i <= 2 * x + 1 ==> Good(post[g][i], u, lh, g, i)
    ensures LeftKnown(ls, |t|) && post[g][Shr(|t| - 1, g)] != Null ==> ChildrenKnown(post[g], Shr(|t| - 1, g + 1))
  {
    hide EdgeKnown, PathFrom, AllGood, Node, Good, WellFormed;
    SizedOf(ls, t, lh, base);
    var n := |t|;
    var last := Shr(n - 1, g);
    PathLens(ls, n, base, g);
    ShrNext(n - 1, g);
    var x := Shr(n - 1, g + 1);
    if last == 2 * x + 1 {
      PathEntry(ls, post, n, leaf, lh, base, g, 2 * x);
      OldEntryGood(ls, t, u, lh, base, g, 2 * x);
      assert LeftKnown(ls, n) ==> LeftKnownAt(ls, n, g);
    } else {
      PathEntry(ls, post, n, leaf, lh, base, g, 0);
    }
  }

  lemma SizedOf(ls: Layers, t: seq<Hash>, lh: nat, base: nat)
    requires WellFormed(ls, t, lh, base)
    ensures Sized(ls, |t|, base) && NoNulls(t) && AllGood(ls, t, lh) && EdgeKnown(ls, |t|)
  {
  }

  lemma PathWellFormed(ls: Layers, post: Layers, t: seq<Hash>, u: seq<Hash>, lh: nat, base: nat, leaf: Hash)
    requires WellFormed(ls, t, lh, base) && CanUpdate(ls, t, leaf) && leaf != Null
    requires PathUpdated(ls, post, |t|, leaf, lh) && u == t[|t| - 1 := leaf]
    ensures WellFormed(post, u, lh, base)
  {
    hide Good, Len, Shr, PathUpdated, WellFormed, LeftKnown;
    SizedOf(ls, t, lh, base);
    SameLayers(ls, post, |t|, leaf, lh);
    forall h, i | 0 <= h < |post| && 0 <= i < |post[h]|
      ensures |post[h]| == |ls[h]|
      ensures Good(post[h][i], u, lh, h, i)
      ensures post[h][i] == Null ==> ls[h][i] == Null
    {
      PathLens(ls, |t|, base, h);
      PathEntry(ls, post, |t|, leaf, lh, base, h, 0);
      PathEntry(ls, post, |t|, leaf, lh, base, h, i);
      if i < Shr(|t| - 1, h) {
        OldEntryGood(ls, t, u, lh, base, h, i);
      } else {
        PathGood(ls, post, t, u, lh, base, leaf, h);
      }
    }
    SameSize(ls, post, t, u, lh, base, leaf);
    assert WellFormed(post, u, lh, base) by { Assemble(ls, post, t, u, lh, base); }
  }

  lemma SameLayers(ls: Layers, post: Layers, n: nat, leaf: Hash, lh: nat)
    requires PathUpdated(ls, post, n, leaf, lh)
    ensures |ls| == |post|
  {
  }

  lemma SameSize(ls: Layers, post: Layers, t: seq<Hash>, u: seq<Hash>, lh: nat, base: nat, leaf: Hash)
    requires WellFormed(ls, t, lh, base) && t != [] && leaf != Null
    requires PathUpdated(ls, post, |t|, leaf, lh) && u == t[|t| - 1 := leaf]
    ensures |post| == |ls| && (forall h :: 0 <= h < |ls| ==> |post[h]| == |ls[h]|)
    ensures Sized(post, |u|, base) && NoNulls(u)
  {
    hide AllGood, EdgeKnown, Shr, PathFrom;
    forall h | 0 <= h < |ls| ensures |post[h]| == |ls[h]| {
      PathLens(ls, |t|, base, h);
      PathEntry(ls, post, |t|, leaf, lh, base, h, 0);
    }
  }

  lemma Assemble(ls: Layers, post: Layers, t: seq<Hash>, u: seq<Hash>, lh: nat, base: nat)
    requires WellFormed(ls, t, lh, base) && |u| == |t| && Sized(post, |u|, base) && NoNulls(u)
    requires |post| == |ls| && forall h :: 0 <= h < |ls| ==> |post[h]| == |ls[h]|
    requires forall h, i :: 0 <= h < |post| && 0 <= i < |post[h]| ==> Good(post[h][i], u, lh, h, i)
    requires forall h, i :: 0 <= h < |post| && 0 <= i < |post[h]| ==> post[h][i] == Null ==> ls[h][i] == Null
    ensures WellFormed(post, u, lh, base)
  {
    hide Good, Len;
  }

  /** An unknown neighbour leaves the node above as it was, and so the first known one further up. */
  lemma {:induction false} StalePath(ls: Layers, post: Layers, t: seq<Hash>, u: seq<Hash>, lh: nat, base: nat, leaf: Hash, h: nat)
    requires WellFormed(ls, t, lh, base) && t != [] && leaf != Null && leaf != t[|t| - 1]
    requires PathUpdated(ls, post, |t|, leaf, lh) && u == t[|t| - 1 := leaf] && h < |ls|
    requires Shr(|t| - 1, h) < |post[h]| == |ls[h]| && post[h][Shr(|t| - 1, h)] == ls[h][Shr(|t| - 1, h)]
    ensures !AllGood(post, u, lh)
    decreases |ls| - h
  {
    hide PathFrom, EdgeKnown, ParentOf;
    var (n, x) := (|t|, Shr(|t| - 1, h));
    RootKnown(ls, t, lh, base);
    PathLens(ls, n, base, h);
    if ls[h][x] != Null {
      EntryGood(ls, t, lh, base, h, x);
      NodeDiffers(t, u, lh, h, n - 1);
      assert !Good(post[h][x], u, lh, h, x);
    } else if h == |ls| - 1 {
      assert false;
    } else {
      PathLast(ls, post, n, leaf, lh, base, h);
      ShrNext(n - 1, h);
      ParentKnown(post[h], Shr(n - 1, h + 1), h + lh);
      StalePath(ls, post, t, u, lh, base, leaf, h + 1);
    }
  }

  lemma UnknownLeft(ls: Layers, post: Layers, t: seq<Hash>, u: seq<Hash>, lh: nat, base: nat, leaf: Hash)
    requires WellFormed(ls, t, lh, base) && t != [] && leaf != Null && !CanUpdate(ls, t, leaf)
    requires PathUpdated(ls, post, |t|, leaf, lh) && u == t[|t| - 1 := leaf]
    ensures !AllGood(post, u, lh)
  {
    hide PathFrom, EdgeKnown, ParentOf, AllGood, Good, Node, PathUpdated;
    var n := |t|;
    SameLayers(ls, post, n, leaf, lh);
    var g: nat :| !LeftKnownAt(ls, n, g);
    var x := Shr(n - 1, g);
    PathEntry(ls, post, n, leaf, lh, base, g, x - 1);
    PathLast(ls, post, n, leaf, lh, base, g);
    ShrNext(n - 1, g);
    ParentKnown(post[g], Shr(n - 1, g + 1), g + lh);
    StalePath(ls, post, t, u, lh, base, leaf, g + 1);
  }

  /**
   For every tree and every new last leaf: the result is the tree over the changed leaves if and
   only if the leaf is the old one or all nodes to the left of its path are known.
   */
  lemma UpdateExact(ls: Layers, t: seq<Hash>, lh: nat, base: nat, leaf: Hash)
    requires WellFormed(ls, t, lh, base) && t != [] && leaf != Null
    ensures |ls| >= 1 && |ls[0]| == |t|
    ensures var r := Run(ls[0 := ls[0][|t| - 1 := leaf]], 0, |t| - 1, None, lh);
            && r.Some? && PathUpdated(ls, r.value, |t|, leaf, lh)
            && (WellFormed(r.value, t[|t| - 1 := leaf], lh, base) <==> CanUpdate(ls, t, leaf))
  {
    hide Run, PathUpdated, CanUpdate, WellFormed;
    UpdateRuns(ls, t, lh, base, leaf);
    var post := Run(ls[0 := ls[0][|t| - 1 := leaf]], 0, |t| - 1, None, lh).value;
    var u := t[|t| - 1 := leaf];
    if CanUpdate(ls, t, leaf) {
      PathWellFormed(ls, post, t, u, lh, base, leaf);
    } else {
      UnknownLeft(ls, post, t, u, lh, base, leaf);
      if WellFormed(post, u, lh, base) { SizedOf(post, u, lh, base); }
    }
  }

  /** In any case nothing left of the path changes, and no node is known less than before. */
  lemma PathKeeps(ls: Layers, post: Layers, t: seq<Hash>, lh: nat, base: nat, leaf: Hash)
    requires WellFormed(ls, t, lh, base) && t != [] && leaf != Null && PathUpdated(ls, post, |t|, leaf, lh)
    ensures Extends(ls, post, |t| - 1)
    ensures FullyKnown(ls) ==> FullyKnown(post)
    ensures LeftKnown(post, |t|) <==> LeftKnown(ls, |t|)
    ensures Closed(ls) ==> Closed(post)
  {
    hide AllGood, EdgeKnown, Shr, PathUpdated, ChildrenKnown, LeftKnownAt, Closed;
    SameLayers(ls, post, |t|, leaf, lh);
    forall h | 0 <= h < |ls| ensures |post[h]| == |ls[h]| {
      PathLens(ls, |t|, base, h);
      PathEntry(ls, post, |t|, leaf, lh, base, h, 0);
    }
    forall h, i | 0 <= h < |ls| && 0 <= i < |ls[h]|
      ensures i < Shr(|t| - 1, h) ==> post[h][i] == ls[h][i]
      ensures post[h][i] == Null ==> ls[h][i] == Null
    {
      PathEntry(ls, post, |t|, leaf, lh, base, h, i);
    }
    forall h: nat ensures LeftKnownAt(post, |t|, h) <==> LeftKnownAt(ls, |t|, h) {
      SameLeft(ls, post, |t|, h);
    }
    if Closed(ls) { PathClosed(ls, post, t, lh, base, leaf); }
  }

  lemma SameLeft(ls: Layers, post: Layers, n: nat, h: nat)
    requires n > 0 && |ls| == |post|
    requires h < |ls| ==> |post[h]| == |ls[h]| && forall i :: 0 <= i < |ls[h]| && i < Shr(n - 1, h) ==> post[h][i] == ls[h][i]
    ensures LeftKnownAt(post, n, h) <==> LeftKnownAt(ls, n, h)
  {
  }

  lemma PathClosed(ls: Layers, post: Layers, t: seq<Hash>, lh: nat, base: nat, leaf: Hash)
    requires WellFormed(ls, t, lh, base) && t != [] && leaf != Null && PathUpdated(ls, post, |t|, leaf, lh)
    requires Closed(ls)
    ensures Closed(post)
  {
    hide AllGood, EdgeKnown, PathUpdated, ParentOf;
    SameLayers(ls, post, |t|, leaf, lh);
    forall k, j | 1 <= k < |post| && 0 <= j < |post[k]| && ChildrenKnown(post[k - 1], j) ensures post[k][j] != Null {
      PathClosedAt(ls, post, t, lh, base, leaf, k, j);
    }
  }

  lemma PathClosedAt(ls: Layers, post: Layers, t: seq<Hash>, lh: nat, base: nat, leaf: Hash, k: nat, j: nat)
    requires WellFormed(ls, t, lh, base) && t != [] && leaf != Null && PathUpdated(ls, post, |t|, leaf, lh)
    requires Closed(ls) && 1 <= k < |post| == |ls| && j < |post[k]| && ChildrenKnown(post[k - 1], j)
    ensures post[k][j] != Null
  {
    hide AllGood, EdgeKnown, PathUpdated, ParentOf, Shr, Closed, ChildrenKnown;
    var (n, g) := (|t|, k - 1);
    PathLens(ls, n, base, g);
    PathLens(ls, n, base, k);
    PathLast(ls, post, n, leaf, lh, base, g);
    ShrNext(n - 1, g);
    if j < Shr(n - 1, k) {
      PathEntry(ls, post, n, leaf, lh, base, k, j);
      PathEntry(ls, post, n, leaf, lh, base, g, 2 * j);
      PathEntry(ls, post, n, leaf, lh, base, g, 2 * j + 1);
      ClosedAt(ls, post[g], k, j);
    } else {
      ParentKnown(post[g], j, g + lh);
    }
  }

  lemma ClosedAt(ls: Layers, c: seq<Hash>, k: nat, j: nat)
    requires Closed(ls) && 1 <= k < |ls| && j < |ls[k]| && ChildrenKnown(c, j) && |c| == |ls[k - 1]|
    requires 2 * j + 1 < |c| && c[2 * j] == ls[k - 1][2 * j] && c[2 * j + 1] == ls[k - 1][2 * j + 1]
    ensures ls[k][j] != Null
  {
    assert ChildrenKnown(ls[k - 1], j);
  }

  // ---------- Which operations leave it so ----------

  /** After leaves or subtrees of depth 1, everything beside the path of the last leaf is known. */
  lemma LeftKnownDone(raw: Layers, post: Layers, u: seq<Hash>, lh: nat, start: nat)
    requires Extended(raw, u, lh, start, 0) && Finished(raw, post, u, lh, start)
    ensures LeftKnown(post, |u|)
  {
    hide AllGood, GoodUpTo, UnknownBelow;
    var n := |u|;
    forall h: nat ensures LeftKnownAt(post, n, h) {
      var x := Shr(n - 1, h);
      if h + 1 < |post| && x % 2 == 1 && x - 1 < |post[h]| {
        LenBounds(n, h + 1);
        ShrNext(n - 1, h);
        assert NullAt(post, h, x - 1) ==> NullAt(raw, h, x - 1);
      }
    }
  }

  /** After a subtree of greater depth, the leaf beside the last one is unknown. */
  lemma LeftHidden(post: Layers, n: nat)
    requires n >= 2 && n % 2 == 0 && |post| > 1 && |post[0]| == n && post[0][n - 2] == Null
    ensures !LeftKnown(post, n)
  {
    assert Shr(n - 1, 0) == n - 1;
    assert !LeftKnownAt(post, n, 0);
  }

  lemma LeftKnownRefined(a: Layers, b: Layers, n: nat)
    requires Refines(a, b) && LeftKnown(b, n)
    ensures LeftKnown(a, n)
  {
    hide Shr;
    if n > 0 {
      forall h: nat ensures LeftKnownAt(a, n, h) {
        assert LeftKnownAt(b, n, h);
      }
    }
  }

  lemma FullyLeftKnown(ls: Layers, n: nat)
    requires FullyKnown(ls)
    ensures LeftKnown(ls, n)
  {
  }

  /** One subtree of two leaves, then a new last leaf: the node above the leaves is out of date. */
  lemma UpdateAfterSubtreeGoesStale(a: Hash, b: Hash, z: Hash)
    requires a != Null && b != Null && z != Null && z != b
    ensures var ls := [[Null, Null], [Parent(a, b)]];
            && WellFormed(ls, [a, b], 0, 1) && !LeftKnown(ls, 2)
            && Run([[Null, z], [Parent(a, b)]], 0, 1, None, 0) == Some([[Null, z], [Parent(a, b)]])
            && !WellFormed([[Null, z], [Parent(a, b)]], [a, z], 0, 1)
  {
    var (ls, post) := ([[Null, Null], [Parent(a, b)]], [[Null, z], [Parent(a, b)]]);
    TwoLeaves(a, b);
    LeftHidden(ls, 2);
    PairRun(Null, z, Parent(a, b), 1, None);
    var u := [a, z];
    assert Node(u, 0, 1, 0) == Parent(Node(u, 0, 0, 0), Node(u, 0, 0, 1)) == Parent(a, z);
    assert !Good(post[1][0], u, 0, 1, 0);
  }

  lemma TwoLeaves(a: Hash, b: Hash)
    requires a != Null && b != Null
    ensures WellFormed([[Null, Null], [Parent(a, b)]], [a, b], 0, 1)
  {
    var t := [a, b];
    assert Node(t, 0, 1, 0) == Parent(Node(t, 0, 0, 0), Node(t, 0, 0, 1)) == Parent(a, b);
    assert Len(2, 0) == 2 && Len(2, 1) == 1;
    assert Shr(2, 0) == 2 && Shr(2, 1) == 1;
  }

  /** A pair under its parent, which is the last of its layer and so never contradicted. */
  lemma PairRun(l: Hash, r: Hash, p: Hash, start: nat, maybeEnd: Option<nat>)
    requires start < 2 && RoundEnd(maybeEnd, 2) == 2
    ensures Run([[l, r], [p]], 0, start, maybeEnd, 0) ==
            Some([[l, r], [if l == Null || r == Null then p else Parent(l, r)]])
  {
    hide Run, RoundEnd;
    var (c, ls) := ([l, r], [[l, r], [p]]);
    var q := if l == Null || r == Null then p else Parent(l, r);
    assert Changed(c, [p], 0, 2, 0, 0) <==> !(l == Null || r == Null);
    assert NewParents(c, [p], 0, 2, 0) == [q];
    assert !Panics(c, [p], 0, 0);
    RoundIs(ls, 0, start, maybeEnd, 0, 2, [q], [c, [q]]);
    RunTop([c, [q]], 1, 0, RoundLast(ls, 0, 0, 2, 0), 0);
  }
}
