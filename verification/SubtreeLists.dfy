/**
 Lists of subtrees, pushed one after the other and recomputed once: which lists leave a tree, and
 which do not.
 */
module SubtreeLists {
  import opened Bits
  import opened Hashing
  import opened PaddedTree
  import opened Layers
  import opened Subtrees
  import opened Recompute

  // ---------- One subtree ----------

  lemma PushedIs(ls: Layers, r: Layers, d: nat, root: Hash)
    requires |r| == if d < |ls| then |ls| else d + 1
    requires forall h :: 0 <= h < |r| ==> r[h] == LayerOr(ls, h) + Added(d, root, h)
    ensures r == PushSubtree(ls, d, root)
  {
  }

  ghost predicate IsSubtree(d: nat, root: Hash, sub: seq<Hash>, lh: nat) {
    |sub| == Pow2(d) && NoNulls(sub) && root == Node(sub, lh, d, 0)
  }

  /** Left of `start` nothing has changed yet. */
  ghost predicate LeftSame(ls: Layers, raw: Layers, start: nat) {
    && |ls| <= |raw|
    && (forall h :: 0 <= h < |ls| ==> Shr(start, h) <= |ls[h]| <= |raw[h]|)
    && (forall h, i :: 0 <= h < |ls| && 0 <= i < |ls[h]| && i < Shr(start, h) ==> raw[h][i] == ls[h][i])
    && (forall h :: |ls| <= h < |raw| ==> Shr(start, h) == 0)
  }

  lemma PushedLeft(ls: Layers, t: seq<Hash>, lh: nat, base: nat, d: nat, root: Hash)
    requires WellFormed(ls, t, lh, base)
    ensures LeftSame(ls, PushSubtree(ls, d, root), |t|)
  {
    hide AllGood, EdgeKnown, PushSubtree, Added, Len, Shr;
    var raw := PushSubtree(ls, d, root);
    assert Sized(ls, |t|, base);
    forall h | 0 <= h < |ls| ensures Shr(|t|, h) <= |ls[h]| <= |raw[h]| && raw[h][..|ls[h]|] == ls[h] {
      LenBounds(|t|, h);
      assert raw[h] == LayerOr(ls, h) + Added(d, root, h);
    }
    forall h, i | 0 <= h < |ls| && 0 <= i < |ls[h]| && i < Shr(|t|, h) ensures raw[h][i] == ls[h][i] {
      assert raw[h][i] == raw[h][..|ls[h]|][i];
    }
    TopShrZero(ls, |t|, base);
    forall h | |ls| <= h < |raw| ensures Shr(|t|, h) == 0 { ShrShrinks(|t|, |ls|, h); }
  }

  /** A pushed subtree leaves a state that `recompute` can finish. */
  lemma SubtreePushed(ls: Layers, t: seq<Hash>, sub: seq<Hash>, lh: nat, base: nat, d: nat, root: Hash)
    requires WellFormed(ls, t, lh, base) && Aligned(|t|, d) && IsSubtree(d, root, sub, lh)
    ensures base >= 1
    ensures var raw, u := PushSubtree(ls, d, root), t + sub;
            && Ready(raw, u, lh, |t|) && Extended(raw, u, lh, |t|, d) && Aligned(|u|, d)
            && LeftSame(ls, raw, |t|)
            && (|raw| > base ==> Len(|u|, |raw| - 2) > 1)
  {
    hide Ready, Extended, Open, LeftSame, Len, Pow2, Aligned, AllGood, EdgeKnown, PushSubtree;
    WellFormedOpen(ls, t, lh, base, d);
    PushSubtreeReady(ls, t, sub, lh, |t|, d);
    PushSubtreeExtended(ls, t, sub, lh, |t|, d);
    PushedLeft(ls, t, lh, base, d, root);
    PushedTall(ls, |t|, base, d, root);
  }

  lemma PushedTall(ls: Layers, n: nat, base: nat, d: nat, root: Hash)
    requires Sized(ls, n, base) && Aligned(n, d)
    ensures var raw := PushSubtree(ls, d, root);
            |raw| > base ==> Len(n + Pow2(d), |raw| - 2) > 1
  {
    if d + 1 > |ls| {
      if d > 0 { AlignedExtend(n, d, d - 1); }
    } else if |ls| > base {
      ShrMono(n, n + Pow2(d), |ls| - 2);
    }
  }

  lemma LeftClosed(ls: Layers, raw: Layers, t: seq<Hash>, lh: nat, base: nat, start: nat)
    requires WellFormed(ls, t, lh, base) && start == |t|
    requires LeftSame(ls, raw, start)
    ensures Closed(ls) ==> ClosedOutside(raw, start, false, 0)
  {
    forall k, j | Closed(ls) && 1 <= k < |raw| && 0 <= j < |raw[k]| && ChildrenKnown(raw[k - 1], j) && j < Shr(start, k)
      ensures raw[k][j] != Null
    {
      assert k < |ls|;
      assert 2 * j + 1 < Shr(start, k - 1) <= |ls[k - 1]|;
      assert raw[k - 1][2 * j] == ls[k - 1][2 * j] && raw[k - 1][2 * j + 1] == ls[k - 1][2 * j + 1];
      assert ChildrenKnown(ls[k - 1], j);
    }
  }

  // ---------- Lists of subtrees ----------

  predicate NonIncreasing(list: seq<(nat, Hash)>) {
    forall k :: 0 < k < |list| ==> list[k].0 <= list[k - 1].0
  }

  lemma {:induction false} LastDepth(list: seq<(nat, Hash)>, k: nat)
    requires NonIncreasing(list) && k < |list|
    ensures list[|list| - 1].0 <= list[k].0
    decreases |list| - k
  {
    if k + 1 < |list| { LastDepth(list, k + 1); }
  }

  ghost predicate AreSubtrees(list: seq<(nat, Hash)>, subs: seq<seq<Hash>>, lh: nat) {
    && |subs| == |list|
    && forall k :: 0 <= k < |list| && list[k].0 > 0 ==> IsSubtree(list[k].0 - 1, list[k].1, subs[k], lh)
  }

  ghost function Concat(subs: seq<seq<Hash>>): seq<Hash> {
    if |subs| == 0 then [] else Concat(subs[..|subs| - 1]) + subs[|subs| - 1]
  }

  lemma ConcatFirst(subs: seq<seq<Hash>>)
    requires |subs| > 0
    ensures Concat(subs[..1]) == subs[0]
  {
    assert subs[..1][..0] == [];
    assert [] + subs[0] == subs[0];
  }

  lemma ConcatNext(subs: seq<seq<Hash>>, k: nat)
    requires k < |subs|
    ensures Concat(subs[..k + 1]) == Concat(subs[..k]) + subs[k]
  {
    assert subs[..k + 1][..k] == subs[..k];
  }

  /** Some subtrees have been pushed, the last one with `2^d` leaves, and `recompute` is still due. */
  ghost predicate Pushed(ls: Layers, raw: Layers, t: seq<Hash>, u: seq<Hash>, lh: nat, base: nat, d: nat) {
    && t <= u && base >= 1
    && Ready(raw, u, lh, |t|) && Extended(raw, u, lh, |t|, d) && Aligned(|u|, d)
    && LeftSame(ls, raw, |t|)
    && |raw| >= 1
    && (|raw| > base ==> Len(|u|, |raw| - 2) > 1)
  }

  lemma PushedFacts(ls: Layers, raw: Layers, t: seq<Hash>, u: seq<Hash>, lh: nat, base: nat, d: nat)
    requires Pushed(ls, raw, t, u, lh, base, d)
    ensures t <= u && base >= 1
    ensures Ready(raw, u, lh, |t|) && Extended(raw, u, lh, |t|, d) && Aligned(|u|, d)
    ensures LeftSame(ls, raw, |t|)
    ensures |raw| >= 1 && |raw[0]| == |u|
    ensures |raw| > base ==> Len(|u|, |raw| - 2) > 1
  {
  }

  lemma FirstPushed(ls: Layers, t: seq<Hash>, sub: seq<Hash>, lh: nat, base: nat, d: nat, root: Hash)
    requires WellFormed(ls, t, lh, base) && Aligned(|t|, d) && IsSubtree(d, root, sub, lh)
    ensures Pushed(ls, PushSubtree(ls, d, root), t, t + sub, lh, base, d)
    ensures |PushSubtree(ls, d, root)[0]| == |t + sub| && Aligned(|t + sub|, d)
  {
    assert base >= 1;
    hide Ready, Extended, LeftSame, Len, PushSubtree, WellFormed;
    SubtreePushed(ls, t, sub, lh, base, d, root);
    PushedFacts(ls, PushSubtree(ls, d, root), t, t + sub, lh, base, d);
  }

  lemma NextPushed(ls: Layers, raw: Layers, t: seq<Hash>, u: seq<Hash>, sub: seq<Hash>, lh: nat, base: nat, d: nat, e: nat, root: Hash)
    requires Pushed(ls, raw, t, u, lh, base, d) && e <= d && IsSubtree(e, root, sub, lh)
    ensures Pushed(ls, PushSubtree(raw, e, root), t, u + sub, lh, base, e)
    ensures |PushSubtree(raw, e, root)[0]| == |u + sub| && Aligned(|u + sub|, e)
  {
    hide Ready, Open, LeftSame, Len, UnknownBelow, GoodUpTo, LastChildrenKnown, Pow2, Aligned;
    ExtendedOpen(raw, u, lh, |t|, d, e);
    PushSubtreeReady(raw, u, sub, lh, |t|, e);
    PushSubtreeExtended(raw, u, sub, lh, |t|, e);
    LeftStays(ls, raw, |t|, e, root);
    if |raw| > base { ShrMono(|u|, |u + sub|, |raw| - 2); }
    PushedFacts(ls, PushSubtree(raw, e, root), t, u + sub, lh, base, e);
  }

  lemma LeftStays(ls: Layers, raw: Layers, start: nat, d: nat, root: Hash)
    requires LeftSame(ls, raw, start) && d < |raw|
    ensures LeftSame(ls, PushSubtree(raw, d, root), start)
  {
    hide Shr, Pow2;
    var post := PushSubtree(raw, d, root);
    forall h, i | 0 <= h < |ls| && 0 <= i < |ls[h]| && i < Shr(start, h) ensures post[h][i] == ls[h][i] {
      assert post[h] == LayerOr(raw, h) + Added(d, root, h);
    }
  }
}
