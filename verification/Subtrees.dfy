/**
 Appending whole subtrees by their root: the nodes below the root stay unknown. A list of subtrees
 is pushed first and recomputed once at the end, which works when their depths never increase.
 */
module Subtrees {
  import opened Bits
  import opened Hashing
  import opened PaddedTree
  import opened Layers

  function LayerOr(ls: Layers, h: nat): seq<Hash> {
    if h < |ls| then ls[h] else []
  }

  function Nulls(k: nat): (r: seq<Hash>)
    ensures |r| == k && forall i :: 0 <= i < k ==> r[i] == Null
  {
    seq(k, _ => Null)
  }

  /** What a subtree with `2^d` leaves adds to layer `h`. */
  function Added(d: nat, root: Hash, h: nat): seq<Hash> {
    if h < d then Nulls(Pow2(d - h)) else if h == d then [root] else []
  }

  function PushSubtree(ls: Layers, d: nat, root: Hash): (r: Layers)
    ensures |r| == if d < |ls| then |ls| else d + 1
    ensures forall h :: 0 <= h < |r| ==> r[h] == LayerOr(ls, h) + Added(d, root, h)
  {
    seq(if d < |ls| then |ls| else d + 1, h requires 0 <= h => LayerOr(ls, h) + Added(d, root, h))
  }

  ghost predicate KnownFrom(ls: Layers, n: nat, d: nat) {
    forall h, i :: d <= h < |ls| && 2 * Shr(n, h + 1) <= i < |ls[h]| ==> ls[h][i] != Null
  }

  /** A state that can take a subtree of at most `2^d` leaves. */
  ghost predicate Open(ls: Layers, t: seq<Hash>, lh: nat, start: nat, d: nat) {
    && Ready(ls, t, lh, start)
    && Aligned(|t|, d)
    && (forall h :: 0 <= h <= d ==> |LayerOr(ls, h)| == Len(|t|, h))
    && UnknownBelow(ls, start, d)
    && GoodUpTo(ls, t, lh, d)
    && KnownFrom(ls, |t|, d)
  }

  lemma WellFormedOpen(ls: Layers, t: seq<Hash>, lh: nat, base: nat, d: nat)
    requires WellFormed(ls, t, lh, base)
    requires Aligned(|t|, d)
    ensures Open(ls, t, lh, |t|, d)
  {
    CompleteReady(ls, t, lh, base, |t|);
    TopShrZero(ls, |t|, base);
    forall h | 0 <= h <= d ensures |LayerOr(ls, h)| == Len(|t|, h) {
      AlignedLen(|t|, d, h);
      if h >= |ls| {
        ShrShrinks(|t|, |ls|, h);
      }
    }
    forall h | 0 <= h < d ensures 2 * (Shr(|t|, h) / 2) == Len(|t|, h) {
      AlignedLen(|t|, d, h);
    }
  }

  lemma ExtendedOpen(ls: Layers, t: seq<Hash>, lh: nat, start: nat, d: nat, e: nat)
    requires Ready(ls, t, lh, start) && Extended(ls, t, lh, start, d)
    requires Aligned(|t|, d) && e <= d
    ensures Open(ls, t, lh, start, e)
  {
    AlignedWeaken(|t|, d, e);
    forall h, i | e <= h < |ls| && 2 * Shr(|t|, h + 1) <= i < |ls[h]| ensures ls[h][i] != Null {
      LenBounds(|t|, h + 1);
      if h < d {
        AlignedLen(|t|, d, h);
      }
    }
  }

  /** The parent of a null node of an open state is complete and there. */
  lemma OpenHasParent(ls: Layers, t: seq<Hash>, lh: nat, start: nat, d: nat, h: nat, i: nat)
    requires Open(ls, t, lh, start, d)
    requires d <= h && NullAt(ls, h, i) && i >= 2 * Shr(start, h + 1)
    ensures i / 2 < Shr(|t|, h + 1)
    ensures HasParent(ls, t, lh, h, i)
  {
  }

  /** Every old node is still right, or it is the last of its layer and about to be recomputed. */
  lemma PushedOldNode(ls: Layers, t: seq<Hash>, sub: seq<Hash>, lh: nat, start: nat, d: nat, h: nat, i: nat)
    requires Open(ls, t, lh, start, d)
    requires h < |ls| && i < |ls[h]|
    ensures Good(ls[h][i], t + sub, lh, h, i) || (h > d && i == |ls[h]| - 1 && i >= Shr(start, h))
    ensures i < Shr(|t|, h) && Good(ls[h][i], t, lh, h, i) ==> Good(ls[h][i], t + sub, lh, h, i)
  {
    assert (t + sub)[..|t|] == t[..|t|];
    if i < Shr(|t|, h) {
      NodePrefix(t, t + sub, lh, |t|, h, i);
    } else {
      LenBounds(|t|, h);
      ShrMono(start, |t|, h);
      if h <= d { AlignedLen(|t|, d, h); }
    }
  }

  lemma PushedLens(ls: Layers, n: nat, start: nat, d: nat, root: Hash, h: nat)
    requires Aligned(n, d) && start <= n
    requires |LayerOr(ls, h)| <= Len(n, h)
    requires h <= d ==> |LayerOr(ls, h)| == Len(n, h)
    requires h < |ls| ==> Shr(start, h) <= |ls[h]|
    requires h < |PushSubtree(ls, d, root)|
    ensures Shr(start, h) <= |PushSubtree(ls, d, root)[h]| <= Len(n + Pow2(d), h)
    ensures h <= d ==> |PushSubtree(ls, d, root)[h]| == Len(n + Pow2(d), h)
    ensures h <= d ==> |LayerOr(ls, h)| == Shr(n, h)
  {
    ShrMono(n, n + Pow2(d), h);
    ShrMono(start, n, h);
    assert PushSubtree(ls, d, root)[h] == LayerOr(ls, h) + Added(d, root, h);
    if h <= d {
      AlignedExtend(n, d, h);
      AlignedLen(n, d, h);
    }
  }

  /** Entry `i` of layer `h` after the push: an old node, an unknown one, or the new root. */
  lemma PushedEntry(ls: Layers, d: nat, root: Hash, h: nat, i: nat)
    requires h < |PushSubtree(ls, d, root)| && i < |PushSubtree(ls, d, root)[h]|
    ensures var x := PushSubtree(ls, d, root)[h][i];
            if h < |ls| && i < |ls[h]| then x == ls[h][i]
            else if h < d then x == Null
            else h == d && i == |LayerOr(ls, h)| && x == root
    ensures h > d ==> h < |ls| && PushSubtree(ls, d, root)[h] == ls[h]
  {
    assert PushSubtree(ls, d, root)[h] == LayerOr(ls, h) + Added(d, root, h);
  }

  lemma PushedGood(ls: Layers, t: seq<Hash>, sub: seq<Hash>, lh: nat, start: nat, d: nat, h: nat, i: nat)
    requires Open(ls, t, lh, start, d)
    requires |sub| == Pow2(d)
    requires var raw := PushSubtree(ls, d, Node(sub, lh, d, 0));
             h < |raw| && i < |raw[h]|
    ensures var raw := PushSubtree(ls, d, Node(sub, lh, d, 0));
            Good(raw[h][i], t + sub, lh, h, i) || (h > d && i == |raw[h]| - 1 && i >= Shr(start, h))
  {
    hide Open, Pow2, Aligned, Added, EndPad, Shr, Len;
    PushedEntry(ls, d, Node(sub, lh, d, 0), h, i);
    if h < |ls| && i < |ls[h]| {
      PushedOldNode(ls, t, sub, lh, start, d, h, i);
    } else if h == d {
      OpenLens(ls, t, lh, start, d, d);
      AlignedLen(|t|, d, d);
      NodeShift(t, sub, lh, d, d, 0);
    }
  }

  lemma PushedHasParent(ls: Layers, t: seq<Hash>, sub: seq<Hash>, lh: nat, start: nat, d: nat, h: nat, i: nat)
    requires Open(ls, t, lh, start, d)
    requires |sub| == Pow2(d) && NoNulls(sub)
    requires NullAt(PushSubtree(ls, d, Node(sub, lh, d, 0)), h, i) && i >= 2 * Shr(start, h + 1)
    ensures HasParent(PushSubtree(ls, d, Node(sub, lh, d, 0)), t + sub, lh, h, i)
  {
    hide Open, Pow2, Aligned, Added, EndPad;
    var root := Node(sub, lh, d, 0);
    NodeNotNull(sub, lh, d, 0);
    PushedEntry(ls, d, root, h, i);
    if h < d {
      PushedParentLen(ls, t, lh, start, d, root, h, i);
      PushedGood(ls, t, sub, lh, start, d, h + 1, i / 2);
    } else {
      OpenHasParent(ls, t, lh, start, d, h, i);
      PushedOldNode(ls, t, sub, lh, start, d, h + 1, i / 2);
      PushedEntry(ls, d, root, h + 1, i / 2);
    }
  }

  lemma PushedParentLen(ls: Layers, t: seq<Hash>, lh: nat, start: nat, d: nat, root: Hash, h: nat, i: nat)
    requires Open(ls, t, lh, start, d)
    requires h < d && i < |PushSubtree(ls, d, root)[h]|
    ensures i / 2 < |PushSubtree(ls, d, root)[h + 1]|
  {
    hide Open, Pow2, Aligned, Added, EndPad;
    OpenLens(ls, t, lh, start, d, h);
    OpenLens(ls, t, lh, start, d, h + 1);
    PushedLens(ls, |t|, start, d, root, h);
    PushedLens(ls, |t|, start, d, root, h + 1);
  }

  lemma OpenLens(ls: Layers, t: seq<Hash>, lh: nat, start: nat, d: nat, h: nat)
    requires Open(ls, t, lh, start, d)
    ensures Aligned(|t|, d) && start <= |t| && NoNulls(t) && Shr(start, |ls|) == 0 && |ls| >= 1
    ensures |LayerOr(ls, h)| <= Len(|t|, h)
    ensures h <= d ==> |LayerOr(ls, h)| == Len(|t|, h)
    ensures h < |ls| ==> Shr(start, h) <= |ls[h]|
  {
  }

  lemma PushedLensBetween(ls: Layers, t: seq<Hash>, lh: nat, start: nat, d: nat, root: Hash)
    requires Open(ls, t, lh, start, d)
    ensures var raw := PushSubtree(ls, d, root);
            && LensBetween(raw, |t| + Pow2(d), start)
            && (forall h :: 0 <= h <= d ==> |raw[h]| == Len(|t| + Pow2(d), h))
  {
    hide Open, Pow2, Aligned, Added, Shr, Len;
    forall h | 0 <= h < |PushSubtree(ls, d, root)|
      ensures Shr(start, h) <= |PushSubtree(ls, d, root)[h]| <= Len(|t| + Pow2(d), h)
      ensures h <= d ==> |PushSubtree(ls, d, root)[h]| == Len(|t| + Pow2(d), h)
    {
      OpenLens(ls, t, lh, start, d, h);
      PushedLens(ls, |t|, start, d, root, h);
    }
  }

  lemma PushedStale(ls: Layers, t: seq<Hash>, sub: seq<Hash>, lh: nat, start: nat, d: nat)
    requires Open(ls, t, lh, start, d)
    requires |sub| == Pow2(d)
    ensures var raw := PushSubtree(ls, d, Node(sub, lh, d, 0));
            OnlyLastStale(raw, t + sub, lh, start) && GoodUpTo(raw, t + sub, lh, d)
  {
    hide Open, Pow2, Good, Node, Shr, PushSubtree;
    var raw := PushSubtree(ls, d, Node(sub, lh, d, 0));
    forall h, i | 0 <= h < |raw| && 0 <= i < |raw[h]|
      ensures Good(raw[h][i], t + sub, lh, h, i) || (h > d && i == |raw[h]| - 1 && i >= Shr(start, h))
    {
      PushedGood(ls, t, sub, lh, start, d, h, i);
    }
  }

  lemma PushedParentsThere(ls: Layers, t: seq<Hash>, sub: seq<Hash>, lh: nat, start: nat, d: nat)
    requires Open(ls, t, lh, start, d)
    requires |sub| == Pow2(d) && NoNulls(sub)
    ensures ParentsThere(PushSubtree(ls, d, Node(sub, lh, d, 0)), t + sub, lh, start)
  {
    hide Open, HasParent, NullAt, Shr, Node, PushSubtree;
    var raw := PushSubtree(ls, d, Node(sub, lh, d, 0));
    forall h: nat, i: nat | NullAt(raw, h, i) && i >= 2 * Shr(start, h + 1)
      ensures HasParent(raw, t + sub, lh, h, i)
    {
      PushedHasParent(ls, t, sub, lh, start, d, h, i);
    }
  }

  lemma PushSubtreeReady(ls: Layers, t: seq<Hash>, sub: seq<Hash>, lh: nat, start: nat, d: nat)
    requires Open(ls, t, lh, start, d)
    requires |sub| == Pow2(d) && NoNulls(sub)
    ensures Ready(PushSubtree(ls, d, Node(sub, lh, d, 0)), t + sub, lh, start)
  {
    hide Open, OnlyLastStale, ParentsThere, LensBetween, Node, Shr, Pow2;
    var root := Node(sub, lh, d, 0);
    OpenLens(ls, t, lh, start, d, 0);
    ShrShrinks(start, |ls|, |PushSubtree(ls, d, root)|);
    PushedLensBetween(ls, t, lh, start, d, root);
    PushedStale(ls, t, sub, lh, start, d);
    PushedParentsThere(ls, t, sub, lh, start, d);
  }

  lemma PushedUnknownBelow(ls: Layers, t: seq<Hash>, lh: nat, start: nat, d: nat, root: Hash)
    requires Open(ls, t, lh, start, d)
    ensures UnknownBelow(PushSubtree(ls, d, root), start, d)
  {
    hide Ready, GoodUpTo, KnownFrom, Pow2, Shr;
    var raw := PushSubtree(ls, d, root);
    forall h, i | 0 <= h < d && h < |raw| && 2 * Shr(start, h + 1) <= i < |raw[h]| ensures raw[h][i] == Null {
      PushedEntry(ls, d, root, h, i);
    }
  }

  lemma PushedLastChildren(ls: Layers, t: seq<Hash>, lh: nat, start: nat, d: nat, root: Hash)
    requires Open(ls, t, lh, start, d)
    requires root != Null
    ensures LastChildrenKnown(PushSubtree(ls, d, root), |t| + Pow2(d), d)
  {
    hide Ready, GoodUpTo, UnknownBelow, Pow2, Shr, Len;
    var raw := PushSubtree(ls, d, root);
    forall h, i | d <= h < |raw| && 0 <= i < |raw[h]| && 2 * (Len(|t| + Pow2(d), h + 1) - 1) <= i
      ensures raw[h][i] != Null
    {
      PushedEntry(ls, d, root, h, i);
      LenBounds(|t| + Pow2(d), h + 1);
      ShrMono(|t|, |t| + Pow2(d) - 1, h + 1);
    }
  }

  lemma PushSubtreeExtended(ls: Layers, t: seq<Hash>, sub: seq<Hash>, lh: nat, start: nat, d: nat)
    requires Open(ls, t, lh, start, d)
    requires |sub| == Pow2(d) && NoNulls(sub)
    ensures Extended(PushSubtree(ls, d, Node(sub, lh, d, 0)), t + sub, lh, start, d)
    ensures Aligned(|t + sub|, d)
  {
    hide Open, UnknownBelow, GoodUpTo, LastChildrenKnown, Pow2, Shr, Len, Node;
    var root := Node(sub, lh, d, 0);
    NodeNotNull(sub, lh, d, 0);
    OpenLens(ls, t, lh, start, d, d);
    AlignedExtend(|t|, d, d);
    PushedLensBetween(ls, t, lh, start, d, root);
    PushedStale(ls, t, sub, lh, start, d);
    PushedUnknownBelow(ls, t, lh, start, d, root);
    PushedLastChildren(ls, t, lh, start, d, root);
  }
}
