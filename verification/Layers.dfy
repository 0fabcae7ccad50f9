/**
 What the layer vectors of the append tree have to look like before and after `recompute`, and
 why every operation hands `recompute` a state it can finish.
 */
module Layers {
  import opened Bits
  import opened Hashing
  import opened PaddedTree

  type Layers = seq<seq<Hash>>

  /** The parent of children `2j` and `2j+1`; unknown when a child is unknown. */
  function ParentOf(children: seq<Hash>, j: nat, padHeight: nat): Hash
    requires 2 * j < |children|
  {
    if 2 * j + 1 < |children| then
      if children[2 * j] == Null || children[2 * j + 1] == Null then Null
      else Parent(children[2 * j], children[2 * j + 1])
    else if children[2 * j] == Null then Null
    else Parent(children[2 * j], EndPad(padHeight))
  }

  predicate ChildrenKnown(children: seq<Hash>, j: nat) {
    && 2 * j < |children|
    && children[2 * j] != Null
    && (2 * j + 1 < |children| ==> children[2 * j + 1] != Null)
  }

  predicate NullAt(ls: Layers, h: nat, i: nat) {
    h < |ls| && i < |ls[h]| && ls[h][i] == Null
  }

  /** An entry is unknown or holds the node of the simple definition. */
  ghost predicate Good(x: Hash, t: seq<Hash>, lh: nat, h: nat, i: nat) {
    x == Null || x == Node(t, lh, h, i)
  }

  ghost predicate AllGood(ls: Layers, t: seq<Hash>, lh: nat) {
    forall h, i :: 0 <= h < |ls| && 0 <= i < |ls[h]| ==> Good(ls[h][i], t, lh, h, i)
  }

  /** Layer lengths, and a single top node in as few layers as `base` allows. */
  ghost predicate Sized(ls: Layers, n: nat, base: nat) {
    && 1 <= base <= |ls|
    && (forall h :: 0 <= h < |ls| ==> |ls[h]| == Len(n, h))
    && Len(n, |ls| - 1) <= 1
    && (|ls| > base ==> Len(n, |ls| - 2) > 1)
  }

  /** Unknown nodes occur only below a complete parent. */
  ghost predicate EdgeKnown(ls: Layers, n: nat) {
    forall h, i :: 0 <= h < |ls| && 2 * Shr(n, h + 1) <= i < |ls[h]| ==> ls[h][i] != Null
  }

  /** No node is unknown while both its children are known. */
  ghost predicate Closed(ls: Layers) {
    forall k, j :: 1 <= k < |ls| && 0 <= j < |ls[k]| && ChildrenKnown(ls[k - 1], j) ==> ls[k][j] != Null
  }

  ghost predicate FullyKnown(ls: Layers) {
    forall h, i :: 0 <= h < |ls| && 0 <= i < |ls[h]| ==> ls[h][i] != Null
  }

  /** The state between public operations, for the true leaves `t`. */
  ghost predicate WellFormed(ls: Layers, t: seq<Hash>, lh: nat, base: nat) {
    && NoNulls(t)
    && Sized(ls, |t|, base)
    && AllGood(ls, t, lh)
    && EdgeKnown(ls, |t|)
  }

  /** A node that is unknown gets no value from below, so its parent has to be there already. */
  ghost predicate HasParent(ls: Layers, t: seq<Hash>, lh: nat, h: nat, i: nat) {
    && h + 1 < |ls|
    && i / 2 < |ls[h + 1]|
    && Good(ls[h + 1][i / 2], t, lh, h + 1, i / 2)
  }

  ghost predicate LensBetween(ls: Layers, n: nat, start: nat) {
    forall h :: 0 <= h < |ls| ==> Shr(start, h) <= |ls[h]| <= Len(n, h)
  }

  /** Only the last node of a layer can be out of date. */
  ghost predicate OnlyLastStale(ls: Layers, t: seq<Hash>, lh: nat, start: nat) {
    forall h, i :: 0 <= h < |ls| && 0 <= i < |ls[h]| ==>
      Good(ls[h][i], t, lh, h, i) || (h > 0 && i == |ls[h]| - 1 && i >= Shr(start, h))
  }

  ghost predicate ParentsThere(ls: Layers, t: seq<Hash>, lh: nat, start: nat) {
    forall h: nat, i: nat {:trigger NullAt(ls, h, i)} ::
      NullAt(ls, h, i) && i >= 2 * Shr(start, h + 1) ==> HasParent(ls, t, lh, h, i)
  }

  /** What every caller of `recompute(start, _)` provides; `t` are the leaves after the change. */
  ghost predicate Ready(ls: Layers, t: seq<Hash>, lh: nat, start: nat) {
    && |ls| >= 1
    && NoNulls(t)
    && |ls[0]| == |t|
    && start <= |t|
    && Shr(start, |ls|) == 0
    && LensBetween(ls, |t|, start)
    && OnlyLastStale(ls, t, lh, start)
    && ParentsThere(ls, t, lh, start)
  }

  /** Nothing is out of date and no node is missing: the state of `fill_leaf`. */
  ghost predicate Complete(ls: Layers, t: seq<Hash>, lh: nat) {
    && AllGood(ls, t, lh)
    && (forall h :: 0 <= h < |ls| ==> |ls[h]| == Len(|t|, h))
    && |ls| >= 1
    && Len(|t|, |ls| - 1) <= 1
  }

  ghost predicate UnknownBelow(ls: Layers, start: nat, d: nat) {
    forall h, i :: 0 <= h < d && h < |ls| && 2 * Shr(start, h + 1) <= i < |ls[h]| ==> ls[h][i] == Null
  }

  ghost predicate GoodUpTo(ls: Layers, t: seq<Hash>, lh: nat, d: nat) {
    forall h, i :: 0 <= h <= d && h < |ls| && 0 <= i < |ls[h]| ==> Good(ls[h][i], t, lh, h, i)
  }

  ghost predicate LastChildrenKnown(ls: Layers, n: nat, d: nat) {
    forall h, i :: d <= h < |ls| && 0 <= i < |ls[h]| && 2 * (Len(n, h + 1) - 1) <= i ==> ls[h][i] != Null
  }

  /**
   The state after appending: below layer `d` everything from `start` on is unknown, and from layer
   `d` up the children of the last node of the next layer are known.
   */
  ghost predicate Extended(ls: Layers, t: seq<Hash>, lh: nat, start: nat, d: nat) {
    && start < |t|
    && d < |ls|
    && (forall h :: 0 <= h <= d ==> |ls[h]| == Len(|t|, h))
    && UnknownBelow(ls, start, d)
    && GoodUpTo(ls, t, lh, d)
    && LastChildrenKnown(ls, |t|, d)
  }

  lemma ParentIsNode(children: seq<Hash>, t: seq<Hash>, lh: nat, h: nat, j: nat)
    requires |children| == Len(|t|, h)
    requires 2 * j < |children|
    requires ChildrenKnown(children, j)
    requires forall i :: 2 * j <= i < |children| && i <= 2 * j + 1 ==> Good(children[i], t, lh, h, i)
    ensures ParentOf(children, j, h + lh) == Node(t, lh, h + 1, j)
  {
    if 2 * j + 1 == |children| {
      NodeBeyond(t, lh, h, 2 * j + 1);
    }
  }

  // ---------- Appending leaves ----------

  function PushLeaves(ls: Layers, more: seq<Hash>): Layers
    requires |ls| >= 1
  {
    ls[0 := ls[0] + more]
  }

  lemma OldNodes(ls: Layers, t: seq<Hash>, u: seq<Hash>, lh: nat, base: nat, n: nat, h: nat, i: nat)
    requires WellFormed(ls, t, lh, base)
    requires n <= |t| && n <= |u| && t[..n] == u[..n]
    requires h < |ls| && i < |ls[h]|
    requires i < Shr(n, h)
    ensures Good(ls[h][i], u, lh, h, i)
  {
    assert Good(ls[h][i], t, lh, h, i);
    NodePrefix(t, u, lh, n, h, i);
  }

  lemma TopShrZero(ls: Layers, n: nat, base: nat)
    requires Sized(ls, n, base)
    ensures Shr(n, |ls|) == 0
  {
    LenBounds(n, |ls| - 1);
  }

  lemma AppendReady(ls: Layers, t: seq<Hash>, lh: nat, base: nat, more: seq<Hash>)
    requires WellFormed(ls, t, lh, base)
    requires NoNulls(more) && |more| > 0
    ensures Ready(PushLeaves(ls, more), t + more, lh, |t|)
    ensures Extended(PushLeaves(ls, more), t + more, lh, |t|, 0)
  {
    var raw := PushLeaves(ls, more);
    var u := t + more;
    var n := |t|;
    TopShrZero(ls, n, base);
    assert u[..n] == t[..n];
    forall h | 0 <= h < |raw| ensures Shr(n, h) <= |raw[h]| <= Len(|u|, h) {
      LenBounds(n, h);
      ShrMono(n, |u|, h);
    }
    forall h, i | 0 <= h < |raw| && 0 <= i < |raw[h]|
      ensures Good(raw[h][i], u, lh, h, i) || (h > 0 && i == |raw[h]| - 1 && i >= Shr(n, h))
    {
      LenBounds(n, h);
      if i < Shr(n, h) {
        assert raw[h][i] == ls[h][i];
        OldNodes(ls, t, u, lh, base, n, h, i);
      }
    }
    forall h, i | 0 <= h < |raw| && 2 * Shr(n, h + 1) <= i < |raw[h]| ensures raw[h][i] != Null {
      if i < |ls[h]| {
        assert raw[h][i] == ls[h][i];
      } else {
        assert raw[h][i] == more[i - n];
      }
    }
    forall k | 1 <= k <= |raw| ensures Len(|u|, k) - 1 >= Shr(n, k) {
      LenBounds(|u|, k);
      ShrMono(n, |u| - 1, k);
    }
  }

  // ---------- Filling an unknown leaf ----------

  lemma RootKnown(ls: Layers, t: seq<Hash>, lh: nat, base: nat)
    requires WellFormed(ls, t, lh, base) && |t| > 0
    ensures |ls[|ls| - 1]| == 1
    ensures ls[|ls| - 1][0] == Node(t, lh, |ls| - 1, 0)
    ensures ls[|ls| - 1][0] != Null
  {
    LenBounds(|t|, |ls| - 1);
    TopShrZero(ls, |t|, base);
    assert Good(ls[|ls| - 1][0], t, lh, |ls| - 1, 0);
  }

  lemma CompleteReady(ls: Layers, t: seq<Hash>, lh: nat, base: nat, start: nat)
    requires WellFormed(ls, t, lh, base)
    requires start <= |t|
    ensures Complete(ls, t, lh)
    ensures Ready(ls, t, lh, start)
  {
    TopShrZero(ls, |t|, base);
    ShrMono(start, |t|, |ls|);
    forall h | 0 <= h < |ls| ensures Shr(start, h) <= |ls[h]| {
      ShrMono(start, |t|, h);
      LenBounds(|t|, h);
    }
    forall h: nat, i: nat | NullAt(ls, h, i) && i >= 2 * Shr(start, h + 1)
      ensures HasParent(ls, t, lh, h, i)
    {
      if h == |ls| - 1 {
        RootKnown(ls, t, lh, base);
        assert false;
      }
      assert Good(ls[h + 1][i / 2], t, lh, h + 1, i / 2);
    }
  }

  lemma FillWellFormed(ls: Layers, t: seq<Hash>, lh: nat, base: nat, index: nat)
    requires WellFormed(ls, t, lh, base)
    requires index < |t|
    ensures WellFormed(ls[0 := ls[0][index := t[index]]], t, lh, base)
  {
    var raw := ls[0 := ls[0][index := t[index]]];
    forall h, i | 0 <= h < |raw| && 0 <= i < |raw[h]|
      ensures Good(raw[h][i], t, lh, h, i)
      ensures raw[h][i] == Null ==> ls[h][i] == Null
    {
      assert Good(ls[h][i], t, lh, h, i);
    }
    assert forall h :: 0 <= h < |raw| ==> |raw[h]| == |ls[h]|;
  }

  // ---------- After `recompute` ----------

  /** `post` is a finished `raw`: no new unknowns, and nothing left of `start` was touched. */
  ghost predicate Finished(raw: Layers, post: Layers, t: seq<Hash>, lh: nat, start: nat) {
    && 1 <= |raw| <= |post|
    && (forall h :: 0 <= h < |post| ==> |post[h]| == Len(|t|, h))
    && AllGood(post, t, lh)
    && (forall h: nat, i: nat {:trigger NullAt(post, h, i)} :: NullAt(post, h, i) ==> NullAt(raw, h, i))
    && (forall h, i :: 0 <= h < |raw| && 0 <= i < Shr(start, h) && i < |raw[h]| && i < |post[h]| ==> post[h][i] == raw[h][i])
    && Len(|t|, |post| - 1) <= 1
    && (|post| > |raw| ==> Len(|t|, |post| - 2) > 1)
  }

  lemma FinishedWellFormed(raw: Layers, post: Layers, t: seq<Hash>, lh: nat, base: nat, start: nat)
    requires 1 <= |raw| && NoNulls(t)
    requires Finished(raw, post, t, lh, start)
    requires EdgeKnown(raw, |t|)
    requires 1 <= base <= |raw|
    requires |raw| > base ==> Len(|t|, |raw| - 2) > 1
    ensures WellFormed(post, t, lh, base)
  {
    forall h, i | 0 <= h < |post| && 2 * Shr(|t|, h + 1) <= i < |post[h]| ensures post[h][i] != Null {
      assert NullAt(post, h, i) ==> NullAt(raw, h, i);
    }
  }

  /** From the edge of an extended state the edge of the finished tree follows. */
  lemma ExtendedEdge(ls: Layers, t: seq<Hash>, lh: nat, start: nat, d: nat)
    requires Extended(ls, t, lh, start, d)
    requires Aligned(|t|, d)
    ensures EdgeKnown(ls, |t|)
  {
    forall h, i | 0 <= h < |ls| && 2 * Shr(|t|, h + 1) <= i < |ls[h]| ensures ls[h][i] != Null {
      LenBounds(|t|, h + 1);
      if h < d {
        AlignedLen(|t|, d, h);
      }
    }
  }

  /** With every leaf known, a closed tree is known everywhere. */
  lemma {:induction false} ClosedFromLeaves(ls: Layers, t: seq<Hash>, lh: nat, base: nat, h: nat, i: nat)
    requires WellFormed(ls, t, lh, base) && Closed(ls)
    requires forall k :: 0 <= k < |t| ==> ls[0][k] != Null
    requires h < |ls| && i < |ls[h]|
    ensures ls[h][i] == Node(t, lh, h, i)
    ensures ls[h][i] != Null
    decreases h
  {
    assert Good(ls[h][i], t, lh, h, i);
    if h > 0 {
      assert |ls[h]| == (|ls[h - 1]| + 1) / 2;
      ClosedFromLeaves(ls, t, lh, base, h - 1, 2 * i);
      if 2 * i + 1 < |ls[h - 1]| {
        ClosedFromLeaves(ls, t, lh, base, h - 1, 2 * i + 1);
      }
      assert ChildrenKnown(ls[h - 1], i);
    }
  }

  /** A known tree is a function of its leaves: how they were appended leaves no trace. */
  lemma Canonical(a: Layers, b: Layers, t: seq<Hash>, lh: nat, base: nat)
    requires WellFormed(a, t, lh, base) && FullyKnown(a)
    requires WellFormed(b, t, lh, base) && FullyKnown(b)
    ensures a == b
  {
    SameHeight(a, b, |t|, base);
    forall h | 0 <= h < |a| ensures a[h] == b[h] {
      forall i | 0 <= i < |a[h]| ensures a[h][i] == b[h][i] {
        assert Good(a[h][i], t, lh, h, i) && Good(b[h][i], t, lh, h, i);
      }
    }
  }

  lemma SameHeight(a: Layers, b: Layers, n: nat, base: nat)
    requires Sized(a, n, base) && Sized(b, n, base)
    ensures |a| == |b|
  {
    if |a| < |b| {
      ShrShrinks(n, |a| - 1, |b| - 2);
    } else if |b| < |a| {
      ShrShrinks(n, |b| - 1, |a| - 2);
    }
  }

  lemma HeightMono(a: Layers, m: nat, b: Layers, n: nat, base: nat)
    requires Sized(a, m, base) && Sized(b, n, base) && m <= n
    ensures |a| <= |b|
  {
    if |b| < |a| {
      ShrShrinks(m, |b| - 1, |a| - 2);
      ShrMono(m, n, |b| - 1);
    }
  }
}
