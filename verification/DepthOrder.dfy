/**
 Pushing a list of subtrees and recomputing once: the result is a tree over the appended leaves
 exactly when the depths never increase.
 */
module DepthOrder {
  import opened Bits
  import opened Hashing
  import opened Wrappers
  import opened PaddedTree
  import opened Layers
  import opened Subtrees
  import opened Recompute
  import opened SubtreeLists

  type List = seq<(nat, Hash)>

  /** How appending a list can end. */
  datatype ListOutcome = Appended | Misaligned | Panicked

  // ---------- Pushing without recomputing ----------

  predicate Deep(list: List) {
    forall k :: 0 <= k < |list| ==> list[k].0 > 0
  }

  /** The height of a subtree: it has `2^H` leaves. */
  function H(list: List, k: nat): nat
    requires Deep(list) && k < |list|
  {
    list[k].0 - 1
  }

  function PushAll(ls: Layers, list: List, k: nat): Layers
    requires Deep(list) && k <= |list|
  {
    if k == 0 then ls else PushSubtree(PushAll(ls, list, k - 1), H(list, k - 1), list[k - 1].1)
  }

  /** The leaves under the first `k` subtrees. */
  function Total(list: List, k: nat): nat
    requires Deep(list) && k <= |list|
  {
    if k == 0 then 0 else Total(list, k - 1) + Pow2(H(list, k - 1))
  }

  /** Those of them that lie under subtrees lower than `h`. */
  function Small(list: List, k: nat, h: nat): nat
    requires Deep(list) && k <= |list|
  {
    if k == 0 then 0 else Small(list, k - 1, h) + if H(list, k - 1) < h then Pow2(H(list, k - 1)) else 0
  }

  /** The entries that the first `k` subtrees add to layer `h`. */
  function Entries(list: List, k: nat, h: nat): nat
    requires Deep(list) && k <= |list|
  {
    if k == 0 then 0 else Entries(list, k - 1, h) + if H(list, k - 1) >= h then Pow2(H(list, k - 1) - h) else 0
  }

  /** Every subtree of the list finds the leaves aligned. */
  predicate Pushable(n: nat, list: List) {
    Deep(list) && forall k :: 0 <= k < |list| ==> AlignedAt(n, list, k)
  }

  predicate AlignedAt(n: nat, list: List, k: nat)
    requires Deep(list) && k < |list|
  {
    Aligned(n + Total(list, k), H(list, k))
  }

  lemma {:induction false} Sums(list: List, k: nat, h: nat)
    requires Deep(list) && k <= |list|
    ensures Total(list, k) == Small(list, k, h) + Pow2(h) * Entries(list, k, h)
  {
    if k > 0 {
      Sums(list, k - 1, h);
      var e := H(list, k - 1);
      if e >= h {
        Pow2Add(h, e - h);
        Distribute(Pow2(h), Entries(list, k - 1, h), Pow2(e - h));
      }
    }
  }

  lemma Distribute(p: nat, a: nat, b: nat)
    ensures p * (a + b) == p * a + p * b
  {
  }

  lemma {:induction false} TotalMono(list: List, a: nat, b: nat)
    requires Deep(list) && a <= b <= |list|
    ensures Total(list, a) <= Total(list, b)
    decreases b
  {
    if a < b { TotalMono(list, a, b - 1); }
  }

  lemma {:induction false} SmallHas(list: List, k: nat, h: nat, j: nat)
    requires Deep(list) && j < k <= |list| && H(list, j) < h
    ensures Small(list, k, h) >= 1
  {
    if j < k - 1 { SmallHas(list, k - 1, h, j); }
  }

  lemma {:induction false} SmallNone(list: List, k: nat, h: nat)
    requires Deep(list) && k <= |list| && forall a :: 0 <= a < k ==> H(list, a) >= h
    ensures Small(list, k, h) == 0
  {
    if k > 0 { SmallNone(list, k - 1, h); }
  }

  lemma LayerPushed(ls: Layers, d: nat, root: Hash, h: nat)
    ensures LayerOr(PushSubtree(ls, d, root), h) == LayerOr(ls, h) + Added(d, root, h)
  {
    hide PushSubtree;
  }

  /** Layers grow at their ends, by the entries of the subtrees that reach them. */
  lemma {:induction false} PushAllLayer(ls: Layers, list: List, k: nat, h: nat)
    requires Deep(list) && k <= |list|
    ensures |LayerOr(PushAll(ls, list, k), h)| == |LayerOr(ls, h)| + Entries(list, k, h)
    ensures LayerOr(ls, h) <= LayerOr(PushAll(ls, list, k), h)
    ensures |ls| <= |PushAll(ls, list, k)|
  {
    hide PushSubtree, LayerOr;
    if k > 0 {
      PushAllLayer(ls, list, k - 1, h);
      LayerPushed(PushAll(ls, list, k - 1), H(list, k - 1), list[k - 1].1, h);
    }
  }

  /** A known entry beyond the old ones is the root of a subtree of that height. */
  lemma {:induction false} KnownEntry(ls: Layers, list: List, k: nat, h: nat, x: nat) returns (j: nat)
    requires Deep(list) && k <= |list|
    requires |LayerOr(ls, h)| <= x < |LayerOr(PushAll(ls, list, k), h)|
    requires LayerOr(PushAll(ls, list, k), h)[x] != Null
    ensures j < k && H(list, j) == h && x == |LayerOr(ls, h)| + Entries(list, j, h)
  {
    hide PushSubtree, LayerOr;
    PushAllLayer(ls, list, k, h);
    var (before, e) := (PushAll(ls, list, k - 1), H(list, k - 1));
    LayerPushed(before, e, list[k - 1].1, h);
    PushAllLayer(ls, list, k - 1, h);
    if x < |LayerOr(before, h)| {
      j := KnownEntry(ls, list, k - 1, h, x);
    } else {
      assert Added(e, list[k - 1].1, h)[x - |LayerOr(before, h)|] != Null;
      j := k - 1;
    }
  }

  /** What the first subtrees do does not depend on the later ones. */
  lemma {:induction false} ListPrefix(ls: Layers, list: List, more: List, k: nat)
    requires list <= more && Deep(more) && k <= |list|
    ensures Deep(list) && PushAll(ls, list, k) == PushAll(ls, more, k) && Total(list, k) == Total(more, k)
  {
    hide PushSubtree;
    if k > 0 {
      ListPrefix(ls, list, more, k - 1);
    }
  }

  lemma SameAlignment(n: nat, list: List, more: List, k: nat)
    requires list <= more && Deep(more) && k < |list|
    ensures Deep(list) && (AlignedAt(n, list, k) <==> AlignedAt(n, more, k))
  {
    hide Aligned, Total, PushAll;
    ListPrefix([], list, more, k);
  }

  /** One more subtree of a list: it can be pushed exactly if it has a depth and is aligned. */
  lemma NextPush(ls: Layers, n: nat, list: List, k: nat)
    requires k < |list| && Pushable(n, list[..k])
    ensures Pushable(n, list[..k + 1]) <==> list[k].0 > 0 && Aligned(n + Total(list[..k], k), list[k].0 - 1)
    ensures list[k].0 > 0 ==> Deep(list[..k + 1])
    ensures list[k].0 > 0 ==>
      PushAll(ls, list[..k + 1], k + 1) == PushSubtree(PushAll(ls, list[..k], k), list[k].0 - 1, list[k].1)
  {
    hide PushSubtree, Aligned, AlignedAt, Total, PushAll, Pushable;
    var (now, next) := (list[..k], list[..k + 1]);
    PushableDeep(n, now);
    assert next[k] == list[k];
    if list[k].0 > 0 {
      DeepNext(list, k);
      ListPrefix(ls, now, next, k);
      AlignmentIs(n, next, k);
      OneMoreAligned(n, now, next, k);
      PushAllStep(ls, next, k);
    } else if Pushable(n, next) {
      PushableDeep(n, next);
    }
  }

  lemma OneMoreAligned(n: nat, now: List, next: List, k: nat)
    requires |now| == k && |next| == k + 1 && now <= next && Deep(next) && Pushable(n, now)
    ensures Pushable(n, next) <==> AlignedAt(n, next, k)
  {
    hide AlignedAt;
    forall i | 0 <= i < k ensures AlignedAt(n, now, i) <==> AlignedAt(n, next, i) {
      SameAlignment(n, now, next, i);
    }
  }

  lemma PushAllStep(ls: Layers, list: List, k: nat)
    requires Deep(list) && k < |list|
    ensures PushAll(ls, list, k + 1) == PushSubtree(PushAll(ls, list, k), list[k].0 - 1, list[k].1)
  {
  }

  lemma DeepNext(list: List, k: nat)
    requires k < |list| && Deep(list[..k]) && list[k].0 > 0
    ensures Deep(list[..k + 1]) && list[..k] <= list[..k + 1]
  {
    var (now, next) := (list[..k], list[..k + 1]);
    forall i | 0 <= i < |next| ensures next[i].0 > 0 {
      if i < k { assert next[i] == now[i]; }
    }
  }

  lemma AlignmentIs(n: nat, list: List, k: nat)
    requires Deep(list) && k < |list|
    ensures AlignedAt(n, list, k) <==> Aligned(n + Total(list, k), list[k].0 - 1)
  {
  }

  lemma LeavesPushed(ls: Layers, list: List, k: nat)
    requires Deep(list) && k <= |list| && |ls| >= 1
    ensures |PushAll(ls, list, k)| >= 1 && |PushAll(ls, list, k)[0]| == |ls[0]| + Total(list, k)
  {
    PushAllLayer(ls, list, k, 0);
    Sums(list, k, 0);
    SmallNone(list, k, 0);
  }

  /** Without an increase, the first subtree decides about alignment and the last about depth. */
  lemma {:induction false} OrderedPushable(n: nat, list: List)
    requires NonIncreasing(list)
    ensures Pushable(n, list) <==> list == [] || (list[0].0 > 0 && list[|list| - 1].0 > 0 && Aligned(n, list[0].0 - 1))
  {
    if list != [] {
      if Pushable(n, list) {
        assert AlignedAt(n, list, 0);
      }
      if list[0].0 > 0 && list[|list| - 1].0 > 0 && Aligned(n, list[0].0 - 1) {
        forall k | 0 <= k < |list| ensures list[k].0 > 0 { LastDepth(list, k); }
        forall k | 0 <= k < |list| ensures Aligned(n + Total(list, k), H(list, k)) {
          StaysAligned(n, list, k);
        }
      }
    }
  }

  lemma {:induction false} StaysAligned(n: nat, list: List, k: nat)
    requires NonIncreasing(list) && Deep(list) && k < |list| && Aligned(n, H(list, 0))
    ensures Aligned(n + Total(list, k), H(list, k))
  {
    if k > 0 {
      StaysAligned(n, list, k - 1);
      var (m, d) := (n + Total(list, k - 1), H(list, k - 1));
      AlignedExtend(m, d, d);
      AlignedWeaken(m + Pow2(d), d, H(list, k));
    }
  }

  // ---------- Halving as division ----------

  lemma {:induction false} ShrBlock(n: nat, h: nat)
    ensures Pow2(h) * Shr(n, h) <= n < Pow2(h) * Shr(n, h) + Pow2(h)
  {
    ShrIsDiv(n, h);
  }

  lemma {:induction false} LenCovers(n: nat, h: nat)
    ensures n <= Pow2(h) * Len(n, h)
  {
    if h > 0 {
      LenCovers(n, h - 1);
      MulLe(Pow2(h - 1), Len(n, h - 1), 2 * Len(n, h));
      Twice(Pow2(h - 1), Len(n, h));
    }
  }

  lemma Twice(p: nat, a: nat)
    ensures p * (2 * a) == 2 * p * a
  {
  }

  // ---------- The appended leaf shows in every node above it ----------

  lemma {:induction false} NodeDiffers(t: seq<Hash>, u: seq<Hash>, lh: nat, h: nat, x: nat)
    requires Node(t, lh, 0, x) != Node(u, lh, 0, x)
    ensures Node(t, lh, h, Shr(x, h)) != Node(u, lh, h, Shr(x, h))
  {
    if h > 0 {
      NodeDiffers(t, u, lh, h - 1, x);
      var i := Shr(x, h);
      assert Shr(x, h - 1) == 2 * i || Shr(x, h - 1) == 2 * i + 1;
    }
  }

  /** Leaf `y` is not what the padding had there, and lies under every incomplete node of the old edge. */
  ghost predicate Telling(t: seq<Hash>, u: seq<Hash>, lh: nat, y: nat) {
    && Node(t, lh, 0, y) != Node(u, lh, 0, y)
    && forall h: nat :: !Aligned(|t|, h) ==> Shr(y, h) == Shr(|t|, h)
  }

  lemma EdgeDiffers(t: seq<Hash>, u: seq<Hash>, lh: nat, h: nat)
    requires (exists y: nat :: Telling(t, u, lh, y)) && Shr(|t|, h) < Len(|t|, h)
    ensures Node(t, lh, h, Shr(|t|, h)) != Node(u, lh, h, Shr(|t|, h))
  {
    hide Node, Shr, Len, Aligned;
    var y: nat :| Telling(t, u, lh, y);
    if Aligned(|t|, h) { AlignedLen(|t|, h, h); }
    NodeDiffers(t, u, lh, h, y);
  }

  /** The tree before, the list, and a result of the recomputation without wrong nodes. */
  ghost predicate Case(ls: Layers, t: seq<Hash>, u: seq<Hash>, lh: nat, base: nat, list: List, post: Layers) {
    && WellFormed(ls, t, lh, base)
    && (forall h :: 0 <= h < |post| ==> |post[h]| == Len(|u|, h)) && AllGood(post, u, lh)
    && Pushable(|t|, list) && |u| == |t| + Total(list, |list|)
    && (t != [] ==> exists y: nat :: Telling(t, u, lh, y))
    && Stepped(PushAll(ls, list, |list|), post, lh)
  }

  ghost predicate Stepped(raw: Layers, post: Layers, lh: nat) {
    && 1 <= |raw| <= |post| && post[0] == raw[0]
    && forall g, k :: 0 <= g && k == g + 1 && k < |post| ==> StepOk(post[g], LayerAt(raw, k), post[k], g + lh)
  }

  lemma StepOf(raw: Layers, post: Layers, lh: nat, g: nat, k: nat)
    requires Stepped(raw, post, lh) && k == g + 1 && k < |post|
    ensures StepOk(post[g], LayerAt(raw, k), post[k], g + lh)
  {
  }

  /** An incomplete node at the old right edge cannot stay, nor change in the middle of its layer. */
  lemma OldEdgeAligned(ls: Layers, t: seq<Hash>, u: seq<Hash>, lh: nat, base: nat, list: List, post: Layers, h: nat)
    requires Case(ls, t, u, lh, base, list, post)
    requires h < |ls| && Entries(list, |list|, h) > 0
    ensures Pow2(h) * |ls[h]| == |t|
  {
    hide PushAll, Entries, Total, Node, Stepped, StepOk, Shr, Len, Pow2, Telling;
    var (raw, n) := (PushAll(ls, list, |list|), |t|);
    PushAllLayer(ls, list, |list|, h);
    LenBounds(n, h);
    LenCovers(n, h);
    ShrBlock(n, h);
    if Len(n, h) == Shr(n, h) + 1 {
      if h == 0 {
        ZeroHeight(n);
      } else {
        StaleStays(ls, t, lh, base, raw, post, h);
        assert Good(post[h][Shr(n, h)], u, lh, h, Shr(n, h));
        EdgeDiffers(t, u, lh, h);
      }
    }
  }

  lemma ZeroHeight(n: nat)
    ensures Len(n, 0) == Shr(n, 0)
  {
  }

  lemma StaleStays(ls: Layers, t: seq<Hash>, lh: nat, base: nat, raw: Layers, post: Layers, h: nat)
    requires WellFormed(ls, t, lh, base) && 0 < h < |ls| <= |raw| && Stepped(raw, post, lh)
    requires ls[h] <= raw[h] && |ls[h]| < |raw[h]| && |ls[h]| == Shr(|t|, h) + 1
    ensures |raw| <= |post| && |raw[h]| <= |post[h]|
    ensures t != []
    ensures post[h][Shr(|t|, h)] == Node(t, lh, h, Shr(|t|, h)) != Null
  {
    hide Node, ParentOf, Len;
    var p := Shr(|t|, h);
    assert Shr(|t|, h + 1) == p / 2;
    assert ls[h][p] != Null;
    assert Good(ls[h][p], t, lh, h, p);
    assert raw[h][p] == ls[h][p];
    StepOf(raw, post, lh, h - 1, h);
    assert StepAt(post[h - 1], raw[h], post[h], h - 1 + lh, p);
    LenBounds(|t|, h);
  }

  // ---------- A leaf that no known node covers ----------

  /** `j` has the least height that is followed by a greater one, `k` is the last above it. */
  ghost predicate Disordered(list: List, j: nat, k: nat) {
    && Deep(list) && j < k < |list| && H(list, j) < H(list, k)
    && (forall b :: k < b < |list| ==> H(list, b) <= H(list, j))
    && (forall a, b :: 0 <= a < b < |list| && H(list, a) < H(list, b) ==> H(list, j) <= H(list, a))
  }

  lemma FindDisorder(list: List) returns (j: nat, k: nat)
    requires Deep(list) && !NonIncreasing(list)
    ensures Disordered(list, j, k)
  {
    var i :| 0 < i < |list| && list[i].0 > list[i - 1].0;
    j, k := i - 1, i;
    while exists a, b :: 0 <= a < b < |list| && H(list, a) < H(list, b) && H(list, a) < H(list, j)
      invariant j < k < |list| && H(list, j) < H(list, k)
      decreases H(list, j)
    {
      var a, b :| 0 <= a < b < |list| && H(list, a) < H(list, b) && H(list, a) < H(list, j);
      j, k := a, b;
    }
    while exists b :: k < b < |list| && H(list, b) > H(list, j)
      invariant j < k < |list| && H(list, j) < H(list, k)
      decreases |list| - k
    {
      var b :| k < b < |list| && H(list, b) > H(list, j);
      k := b;
    }
  }

  /** The last leaf of the last subtree above the least one that is followed by a greater. */
  ghost function LostLeaf(n: nat, list: List, k: nat): nat
    requires Deep(list) && k < |list|
  {
    n + Total(list, k + 1) - 1
  }

  /** A subtree root covers its own leaves or others further left, never the lost leaf. */
  lemma RootElsewhere(n: nat, list: List, j: nat, k: nat, b: nat, g: nat, x: nat, before: nat)
    requires Disordered(list, j, k) && b < |list| && H(list, b) == g
    requires x == before + Entries(list, b, g) && Pow2(g) * before <= n
    requires H(list, j) < g || Pow2(g) * before == n
    ensures !(Pow2(g) * x <= LostLeaf(n, list, k) < Pow2(g) * x + Pow2(g))
  {
    hide Pow2, Entries, Small;
    assert Total(list, k + 1) == Total(list, k) + Pow2(H(list, k)) && Total(list, b + 1) == Total(list, b) + Pow2(g);
    hide Total;
    Sums(list, b, g);
    Distribute(Pow2(g), before, Entries(list, b, g));
    if b < k {
      TotalMono(list, b + 1, k);
    } else if b == k {
      SmallHas(list, k, g, j);
    } else {
      assert H(list, b) <= H(list, j);
      assert forall a :: 0 <= a < b ==> H(list, a) >= g;
      SmallNone(list, b, g);
      TotalMono(list, k + 1, b);
    }
  }

  /** A layer that the tree did not have yet can only start at 0. */
  lemma NewLayerStart(ls: Layers, t: seq<Hash>, lh: nat, base: nat, list: List, b: nat, g: nat)
    requires WellFormed(ls, t, lh, base) && Pushable(|t|, list) && g >= |ls|
    requires b < |list| && forall a :: 0 <= a <= b ==> H(list, a) >= g
    ensures t == []
  {
    hide Node, AllGood, EdgeKnown, NoNulls, Pow2, Len;
    var (n, top, e) := (|t|, |ls| - 1, H(list, 0));
    assert AlignedAt(n, list, 0);
    LenCovers(n, top);
    MulLe(Pow2(top), Len(n, top), 1);
    Pow2Mono(top, e);
    AlignedIsMod(n, e);
    if n > 0 {
      BelowMultiple(n, Pow2(e));
    }
  }

  lemma BelowMultiple(n: nat, p: nat)
    requires 0 < n && p > 0 && n % p == 0
    ensures n >= p
  {
    if n < p { DivUnique(n, p, 0, n); }
  }

  /** Above the lost leaf the pushed layers hold nothing, or an old node that is out of date. */
  lemma NothingPushed(ls: Layers, t: seq<Hash>, u: seq<Hash>, lh: nat, base: nat, list: List, post: Layers, j: nat, k: nat, g: nat)
    requires Case(ls, t, u, lh, base, list, post) && Disordered(list, j, k)
    ensures var (raw, x) := (PushAll(ls, list, |list|), Shr(LostLeaf(|t|, list, k), g));
            x < |LayerOr(raw, g)| ==>
              || LayerOr(raw, g)[x] == Null
              || (g < |ls| && x == Shr(|t|, g) && x < |ls[g]| && LayerOr(raw, g)[x] == ls[g][x] && t != [])
  {
    hide PushAll, Entries, Total, Small, Node, Shr, Len, Pow2, StepOk, Stepped, AllGood, EdgeKnown, LayerOr;
    var (raw, y) := (PushAll(ls, list, |list|), LostLeaf(|t|, list, k));
    var x := Shr(y, g);
    PushAllLayer(ls, list, |list|, g);
    LostLater(|t|, list, k);
    ShrMono(|t|, y, g);
    ShrBlock(y, g);
    if x < |LayerOr(ls, g)| {
      InOldLayer(ls, g, x);
      LenBounds(|t|, g);
      LenOfNone(g);
    } else if x < |LayerOr(raw, g)| && LayerOr(raw, g)[x] != Null {
      var b := KnownEntry(ls, list, |list|, g, x);
      var before := |LayerOr(ls, g)|;
      OldLayer(ls, g);
      if g < |ls| {
        OldEdgeAligned(ls, t, u, lh, base, list, post, g);
      } else if H(list, j) >= g {
        forall a | 0 <= a <= b ensures H(list, a) >= g { }
        NewLayerStart(ls, t, lh, base, list, b, g);
      }
      RootElsewhere(|t|, list, j, k, b, g, x, before);
    }
  }

  lemma LostLater(n: nat, list: List, k: nat)
    requires Deep(list) && k < |list|
    ensures n <= LostLeaf(n, list, k) < n + Total(list, |list|)
  {
    TotalMono(list, k + 1, |list|);
  }

  lemma InOldLayer(ls: Layers, g: nat, x: nat)
    requires x < |LayerOr(ls, g)|
    ensures g < |ls| && LayerOr(ls, g) == ls[g]
  {
  }

  lemma OldLayer(ls: Layers, g: nat)
    ensures LayerOr(ls, g) == if g < |ls| then ls[g] else []
  {
  }

  lemma LenOfNone(g: nat)
    ensures Len(0, g) == 0
  {
    LenBounds(0, g);
  }

  /** So no node above the lost leaf can be known in the end. */
  lemma {:induction false} LostPath(ls: Layers, t: seq<Hash>, u: seq<Hash>, lh: nat, base: nat, list: List, post: Layers, j: nat, k: nat, g: nat)
    requires Case(ls, t, u, lh, base, list, post) && Disordered(list, j, k) && g < |post|
    ensures Shr(LostLeaf(|t|, list, k), g) < |post[g]|
    ensures post[g][Shr(LostLeaf(|t|, list, k), g)] == Null
  {
    hide PushAll, Entries, Total, Node, Len, Pow2, StepOk, EdgeKnown, Disordered, Telling;
    DisorderedDeep(list, j, k);
    var (raw, y) := (PushAll(ls, list, |list|), LostLeaf(|t|, list, k));
    var x := Shr(y, g);
    LostLater(|t|, list, k);
    LenBounds(|u|, g);
    ShrMono(y, |u| - 1, g);
    NothingPushed(ls, t, u, lh, base, list, post, j, k, g);
    if g == 0 {
      LostStart(ls, raw, post, lh, x);
      ZeroHeight(|t|);
    } else {
      LostPath(ls, t, u, lh, base, list, post, j, k, g - 1);
      StepOf(raw, post, lh, g - 1, g);
      assert x == Shr(y, g - 1) / 2;
      UnknownStays(post[g - 1], LayerAt(raw, g), post[g], g - 1 + lh, Shr(y, g - 1));
      assert Good(post[g][x], u, lh, g, x);
      if post[g][x] != Null {
        assert Good(ls[g][x], t, lh, g, x);
        EdgeDiffers(t, u, lh, g);
      }
    }
  }

  lemma DisorderedDeep(list: List, j: nat, k: nat)
    requires Disordered(list, j, k)
    ensures Deep(list) && k < |list|
  {
  }

  lemma LostStart(ls: Layers, raw: Layers, post: Layers, lh: nat, x: nat)
    requires Stepped(raw, post, lh) && x < |post[0]|
    ensures LayerOr(raw, 0) == post[0]
  {
  }

  /** A parent of an unknown node is what it was, or new and unknown. */
  lemma UnknownStays(c: seq<Hash>, p: seq<Hash>, q: seq<Hash>, pad: nat, x: nat)
    requires StepOk(c, p, q, pad) && x < |c| && c[x] == Null && x / 2 < |q|
    ensures q[x / 2] == if x / 2 < |p| then p[x / 2] else Null
  {
    assert StepAt(c, p, q, pad, x / 2);
    assert x == 2 * (x / 2) || x == 2 * (x / 2) + 1;
  }

  // ---------- The theorem ----------

  lemma {:induction false} ConcatTotal(list: List, subs: seq<seq<Hash>>, lh: nat, k: nat)
    requires Deep(list) && AreSubtrees(list, subs, lh) && k <= |list|
    ensures |Concat(subs[..k])| == Total(list, k)
    ensures NoNulls(Concat(subs[..k]))
  {
    hide Node;
    if k > 0 {
      ConcatTotal(list, subs, lh, k - 1);
      ConcatNext(subs, k - 1);
      assert IsSubtree(H(list, k - 1), list[k - 1].1, subs[k - 1], lh);
    }
  }

  /**
   There is no old leaf, or some leaf that is no padding follows within the block that the old
   leaves end before.
   */
  ghost predicate Visible(t: seq<Hash>, subs: seq<seq<Hash>>, lh: nat) {
    t == [] || exists v: nat, i: nat ::
      Aligned(|t|, v) && i < Pow2(v) && i < |Concat(subs)| && Concat(subs)[i] != EndPad(lh)
  }

  lemma {:induction false} SameBlock(n: nat, v: nat, i: nat, h: nat)
    requires Aligned(n, v) && i < Pow2(v)
    ensures h <= v ==> Aligned(n, h)
    ensures h >= v ==> Shr(n + i, h) == Shr(n, h)
  {
    hide Aligned, Pow2, Shr;
    if h <= v {
      AlignedWeaken(n, v, h);
    }
    if h > v {
      SameBlock(n, v, i, h - 1);
      HalvedAbove(0, n + i, h - 1);
      HalvedAbove(0, n, h - 1);
    } else if h == v {
      AlignedIsMod(n, v);
      ShrIsDiv(n, v);
      ShrIsDiv(n + i, v);
      DivUnique(n + i, Pow2(v), n / Pow2(v), i);
    }
  }

  lemma VisibleTells(t: seq<Hash>, subs: seq<seq<Hash>>, lh: nat)
    requires Visible(t, subs, lh) && t != []
    ensures exists y: nat :: Telling(t, t + Concat(subs), lh, y)
  {
    hide Concat, Aligned, Pow2, Shr;
    var v: nat, i: nat :| Aligned(|t|, v) && i < Pow2(v) && i < |Concat(subs)| && Concat(subs)[i] != EndPad(lh);
    var (y, u) := (|t| + i, t + Concat(subs));
    assert u[y] == Concat(subs)[i];
    forall h: nat | !Aligned(|t|, h) ensures Shr(y, h) == Shr(|t|, h) {
      SameBlock(|t|, v, i, h);
    }
    assert Telling(t, u, lh, y);
  }

  /** After an increase in depth, the recomputation panics or what it leaves is not the tree. */
  lemma IncreaseFails(ls: Layers, t: seq<Hash>, lh: nat, base: nat, list: List, subs: seq<seq<Hash>>)
    requires WellFormed(ls, t, lh, base) && AreSubtrees(list, subs, lh) && Pushable(|t|, list)
    requires !NonIncreasing(list) && Visible(t, subs, lh)
    ensures |PushAll(ls, list, |list|)| >= 1
    ensures var r := Run(PushAll(ls, list, |list|), 0, |t|, None, lh);
            r.None? || !WellFormed(r.value, t + Concat(subs), lh, base)
  {
    hide WellFormed, AreSubtrees, Run, PushAll, Concat, Case, Visible, Pushable, NonIncreasing;
    PushableDeep(|t|, list);
    var (raw, u) := (PushAll(ls, list, |list|), t + Concat(subs));
    HasLayer(ls, t, lh, base);
    PushAllLayer(ls, list, |list|, 0);
    var r := Run(raw, 0, |t|, None, lh);
    if r.Some? && WellFormed(r.value, u, lh, base) {
      var j, k := FindDisorder(list);
      CaseHolds(ls, t, lh, base, list, subs);
      RightResult(r.value, u, lh, base);
      LostRoot(ls, t, u, lh, base, list, r.value, j, k);
      RootKnown(r.value, u, lh, base);
    }
  }

  lemma PushableDeep(n: nat, list: List)
    requires Pushable(n, list)
    ensures Deep(list)
  {
  }

  lemma CaseHolds(ls: Layers, t: seq<Hash>, lh: nat, base: nat, list: List, subs: seq<seq<Hash>>)
    requires WellFormed(ls, t, lh, base) && AreSubtrees(list, subs, lh) && Pushable(|t|, list) && Visible(t, subs, lh)
    requires |PushAll(ls, list, |list|)| >= 1
    requires var r := Run(PushAll(ls, list, |list|), 0, |t|, None, lh);
             r.Some? && WellFormed(r.value, t + Concat(subs), lh, base)
    ensures Case(ls, t, t + Concat(subs), lh, base, list, Run(PushAll(ls, list, |list|), 0, |t|, None, lh).value)
  {
    hide WellFormed, AreSubtrees, Run, PushAll, StepOk, Concat, EndPad, AllGood, Len, Pushable, Visible, Telling;
    PushableDeep(|t|, list);
    var raw := PushAll(ls, list, |list|);
    RunSteps(raw, 0, |t|, None, lh);
    ConcatTotal(list, subs, lh, |list|);
    assert subs[..|list|] == subs by { SameCount(list, subs, lh); }
    RightResult(Run(raw, 0, |t|, None, lh).value, t + Concat(subs), lh, base);
    if t != [] { VisibleTells(t, subs, lh); }
  }

  /** In a result without wrong nodes, the root is unknown. */
  lemma LostRoot(ls: Layers, t: seq<Hash>, u: seq<Hash>, lh: nat, base: nat, list: List, post: Layers, j: nat, k: nat)
    requires Case(ls, t, u, lh, base, list, post) && Disordered(list, j, k) && |post| >= 1
    requires |post[|post| - 1]| <= 1
    ensures |u| > 0 && |post[|post| - 1]| == 1 && post[|post| - 1][0] == Null
  {
    hide WellFormed, Disordered, Shr, AllGood, Len, Total, PushAll, Stepped;
    DisorderedDeep(list, j, k);
    LostNonEmpty(t, u, list, k);
    LostPath(ls, t, u, lh, base, list, post, j, k, |post| - 1);
  }

  lemma RightResult(post: Layers, u: seq<Hash>, lh: nat, base: nat)
    requires WellFormed(post, u, lh, base)
    ensures |post| >= 1 && (forall h :: 0 <= h < |post| ==> |post[h]| == Len(|u|, h)) && AllGood(post, u, lh)
    ensures |post[|post| - 1]| <= 1
  {
  }

  lemma LostNonEmpty(t: seq<Hash>, u: seq<Hash>, list: List, k: nat)
    requires Deep(list) && k < |list| && |u| == |t| + Total(list, |list|)
    ensures |u| > 0
  {
    LostLater(|t|, list, k);
  }

  lemma HasLayer(ls: Layers, t: seq<Hash>, lh: nat, base: nat)
    requires WellFormed(ls, t, lh, base)
    ensures |ls| >= 1
  {
  }

  lemma SameCount(list: List, subs: seq<seq<Hash>>, lh: nat)
    requires AreSubtrees(list, subs, lh)
    ensures |list| == |subs|
  {
  }

  lemma {:induction false} PushedAll(ls: Layers, t: seq<Hash>, lh: nat, base: nat, list: List, subs: seq<seq<Hash>>, k: nat)
    requires WellFormed(ls, t, lh, base) && AreSubtrees(list, subs, lh) && Pushable(|t|, list) && NonIncreasing(list)
    requires 0 < k <= |list|
    ensures Pushed(ls, PushAll(ls, list, k), t, t + Concat(subs[..k]), lh, base, H(list, k - 1))
  {
    hide Pushed, WellFormed, AreSubtrees, IsSubtree, PushSubtree, Concat, Aligned, PushAll, NonIncreasing, Pushable;
    PushableDeep(|t|, list);
    var i := k - 1;
    ListAt(ls, t, lh, list, subs, i);
    if k == 1 {
      FirstPushed(ls, t, subs[0], lh, base, H(list, 0), list[0].1);
      ConcatFirst(subs);
    } else {
      PushedAll(ls, t, lh, base, list, subs, i);
      var u := t + Concat(subs[..i]);
      NextPushed(ls, PushAll(ls, list, i), t, u, subs[i], lh, base, H(list, i - 1), H(list, i), list[i].1);
      NextLeaves(t, subs, i);
    }
  }

  lemma NextLeaves(t: seq<Hash>, subs: seq<seq<Hash>>, i: nat)
    requires i < |subs|
    ensures t + Concat(subs[..i]) + subs[i] == t + Concat(subs[..i + 1])
  {
    hide Concat;
    ConcatNext(subs, i);
  }

  lemma ListAt(ls: Layers, t: seq<Hash>, lh: nat, list: List, subs: seq<seq<Hash>>, i: nat)
    requires AreSubtrees(list, subs, lh) && Pushable(|t|, list) && NonIncreasing(list) && i < |list|
    ensures |list| == |subs| && IsSubtree(H(list, i), list[i].1, subs[i], lh)
    ensures i == 0 ==> Aligned(|t|, H(list, i)) && PushAll(ls, list, i) == ls
    ensures i > 0 ==> H(list, i) <= H(list, i - 1)
    ensures PushAll(ls, list, i + 1) == PushSubtree(PushAll(ls, list, i), H(list, i), list[i].1)
  {
    hide Aligned, PushSubtree, IsSubtree;
    if i == 0 {
      assert AlignedAt(|t|, list, i);
    }
  }

  /** Without an increase nothing panics, and the result is the tree over all leaves. */
  lemma OrderWorks(ls: Layers, t: seq<Hash>, lh: nat, base: nat, list: List, subs: seq<seq<Hash>>)
    requires WellFormed(ls, t, lh, base) && AreSubtrees(list, subs, lh) && Pushable(|t|, list)
    requires NonIncreasing(list) && list != []
    ensures |PushAll(ls, list, |list|)| >= 1
    ensures var r := Run(PushAll(ls, list, |list|), 0, |t|, None, lh);
            r.Some? && WellFormed(r.value, t + Concat(subs), lh, base)
  {
    hide WellFormed, AreSubtrees, Run, PushAll, Concat, Ready, Extended, Finished, LeftSame, Aligned, Len;
    var (raw, d) := (PushAll(ls, list, |list|), H(list, |list| - 1));
    var u := t + Concat(subs);
    PushedAll(ls, t, lh, base, list, subs, |list|);
    assert subs[..|list|] == subs by { SameCount(list, subs, lh); }
    PushedFacts(ls, raw, t, u, lh, base, d);
    RecomputeRight(raw, u, lh, |t|, None, false, d, 0);
    var post := Run(raw, 0, |t|, None, lh).value;
    ExtendedEdge(raw, u, lh, |t|, d);
    BaseHeight(ls, t, lh, base, raw, u);
    FinishedWellFormed(raw, post, u, lh, base, |t|);
  }

  lemma BaseHeight(ls: Layers, t: seq<Hash>, lh: nat, base: nat, raw: Layers, u: seq<Hash>)
    requires WellFormed(ls, t, lh, base) && LeftSame(ls, raw, |t|) && Ready(raw, u, lh, |t|)
    ensures 1 <= base <= |raw| && NoNulls(u)
  {
  }

  /** The pushed list recomputes to a tree over the old and the appended leaves. */
  ghost predicate ListWorks(ls: Layers, t: seq<Hash>, lh: nat, base: nat, list: List, subs: seq<seq<Hash>>) {
    && Deep(list) && |PushAll(ls, list, |list|)| >= 1
    && var r := Run(PushAll(ls, list, |list|), 0, |t|, None, lh);
       r.Some? && WellFormed(r.value, t + Concat(subs), lh, base)
  }

  /**
   For every tree and every list that can be pushed, unless padding hides it: the recomputation
   leaves the tree over the old and the appended leaves if and only if no depth is greater than
   the one before it.
   */
  lemma OrderExact(ls: Layers, t: seq<Hash>, lh: nat, base: nat, list: List, subs: seq<seq<Hash>>)
    requires WellFormed(ls, t, lh, base) && AreSubtrees(list, subs, lh) && Pushable(|t|, list)
    requires list != [] && Visible(t, subs, lh)
    ensures ListWorks(ls, t, lh, base, list, subs) <==> NonIncreasing(list)
  {
    if NonIncreasing(list) {
      OrderWorks(ls, t, lh, base, list, subs);
    } else {
      IncreaseFails(ls, t, lh, base, list, subs);
    }
  }

  // ---------- What the depths alone decide ----------

  predicate SameDepths(a: List, b: List) {
    |a| == |b| && forall k :: 0 <= k < |a| ==> a[k].0 == b[k].0
  }

  lemma {:induction false} SameTotal(a: List, b: List, k: nat)
    requires Deep(a) && Deep(b) && SameDepths(a, b) && k <= |a|
    ensures Total(a, k) == Total(b, k)
  {
    if k > 0 { SameTotal(a, b, k - 1); }
  }

  lemma SamePushable(n: nat, a: List, b: List)
    requires SameDepths(a, b) && Pushable(n, a)
    ensures Pushable(n, b) && (NonIncreasing(a) <==> NonIncreasing(b))
  {
    assert forall k :: 0 <= k < |a| ==> b[k].0 == a[k].0;
    forall k | 0 <= k < |b| ensures AlignedAt(n, b, k) {
      SameTotal(a, b, k);
      assert AlignedAt(n, a, k);
    }
  }

  /** A perfect subtree of leaves that are no padding. */
  ghost function Plain(h: nat): seq<Hash> {
    seq(Pow2(h), _ => Data(0))
  }

  ghost function PlainSubs(list: List): seq<seq<Hash>>
    requires Deep(list)
  {
    seq(|list|, k requires 0 <= k < |list| => Plain(H(list, k)))
  }

  ghost function PlainList(list: List, lh: nat): List
    requires Deep(list)
  {
    seq(|list|, k requires 0 <= k < |list| => (list[k].0, Node(Plain(H(list, k)), lh, H(list, k), 0)))
  }

  lemma PlainTrees(list: List, lh: nat)
    requires Deep(list)
    ensures SameDepths(list, PlainList(list, lh)) && AreSubtrees(PlainList(list, lh), PlainSubs(list), lh)
  {
    hide Node, Pow2;
  }

  lemma {:induction false} FirstLeaf(subs: seq<seq<Hash>>)
    requires subs != [] && subs[0] != []
    ensures Concat(subs) != [] && Concat(subs)[0] == subs[0][0]
    decreases |subs|
  {
    var n := |subs| - 1;
    if n > 0 {
      FirstLeaf(subs[..n]);
    } else {
      assert subs[..0] == [];
    }
  }

  lemma PlainVisible(list: List, t: seq<Hash>, lh: nat)
    requires Deep(list) && list != []
    ensures Visible(t, PlainSubs(list), lh)
  {
    hide Concat;
    assert PlainSubs(list)[0] == Plain(H(list, 0)) && Plain(H(list, 0))[0] == Data(0);
    FirstLeaf(PlainSubs(list));
    assert Aligned(|t|, 0) && Pow2(0) == 1;
  }

  /**
   For every tree and all depths: lists with these depths work whatever their subtrees hold, if
   and only if the depths never increase.
   */
  lemma DepthsExact(ls: Layers, t: seq<Hash>, lh: nat, base: nat, list: List)
    requires WellFormed(ls, t, lh, base) && Pushable(|t|, list) && list != []
    ensures NonIncreasing(list) <==>
      forall other, subs :: SameDepths(list, other) && AreSubtrees(other, subs, lh) ==>
        ListWorks(ls, t, lh, base, other, subs)
  {
    hide WellFormed, Run, PushAll, Pushable, NonIncreasing, AreSubtrees, Visible, Concat, PlainList, PlainSubs;
    if NonIncreasing(list) {
      forall other, subs | SameDepths(list, other) && AreSubtrees(other, subs, lh)
        ensures ListWorks(ls, t, lh, base, other, subs)
      {
        SamePushable(|t|, list, other);
        PushableDeep(|t|, other);
        OrderWorks(ls, t, lh, base, other, subs);
      }
    } else {
      PushableDeep(|t|, list);
      PlainTrees(list, lh);
      PlainVisible(list, t, lh);
      SamePushable(|t|, list, PlainList(list, lh));
      IncreaseFails(ls, t, lh, base, PlainList(list, lh), PlainSubs(list));
    }
  }

  // ---------- Three inputs ----------

  /** One round on two layers of which the upper is the last. */
  lemma RoundIs(ls: Layers, h: nat, start: nat, maybeEnd: Option<nat>, lh: nat, end: nat, q: seq<Hash>, next: Layers)
    requires h < |ls| && !AtTop(ls, h) && end == RoundEnd(maybeEnd, |ls[h]|) && GoesOn(ls, h, start / 2, end, lh)
    requires 2 * (start / 2) < end
    requires q == NewParents(ls[h], LayerAt(ls, h + 1), start / 2, end, h + lh)
    requires next == WithLayer(ls, h + 1, q)
    ensures h + 1 < |next|
    ensures Run(ls, h, start, maybeEnd, lh) == Run(next, h + 1, start / 2, RoundLast(ls, h, start / 2, end, lh), lh)
  {
    RunOn(ls, h, start, maybeEnd, lh);
  }

  lemma SmallSubtrees(a: Hash, b: Hash, c: Hash, d: Hash)
    requires NoNulls([a, b, c, d])
    ensures IsSubtree(0, a, [a], 0) && IsSubtree(0, b, [b], 0) && IsSubtree(1, Parent(c, d), [c, d], 0)
  {
    var t := [a, b, c, d];
    assert t[0] == a && t[1] == b && t[2] == c && t[3] == d;
    assert Pow2(1) == 2;
    assert Node([c, d], 0, 1, 0) == Parent(Node([c, d], 0, 0, 0), Node([c, d], 0, 0, 1));
  }

  /**
   Depths 1, 1, 2 into an empty tree: the root of the pair lands on the place of the first two
   leaves, is overwritten there, and the root of the tree stays unknown.
   */
  lemma IncreasingDepthLosesRoot(a: Hash, b: Hash, c: Hash, d: Hash)
    requires NoNulls([a, b, c, d])
    ensures var list := [(1, a), (1, b), (2, Parent(c, d))];
            && AreSubtrees(list, [[a], [b], [c, d]], 0) && Pushable(0, list)
            && PushAll([[]], list, 3) == [[a, b, Null, Null], [Parent(c, d)]]
            && Run(PushAll([[]], list, 3), 0, 0, None, 0)
               == Some([[a, b, Null, Null], [Parent(a, b), Null], [Null]])
  {
    var list := [(1, a), (1, b), (2, Parent(c, d))];
    var t := [a, b, c, d];
    assert t[0] == a && t[1] == b && t[2] == c && t[3] == d;
    hide Run, PushAll, Pushable, IsSubtree, AreSubtrees;
    SmallSubtrees(a, b, c, d);
    assert AreSubtrees(list, [[a], [b], [c, d]], 0) by { ThreeSubtrees(list, [[a], [b], [c, d]]); }
    LosingPushes(a, b, Parent(c, d));
    LosingRun(a, b, Parent(c, d));
  }

  lemma ThreeSubtrees(list: List, subs: seq<seq<Hash>>)
    requires |list| == |subs| == 3 && Deep(list)
    requires IsSubtree(H(list, 0), list[0].1, subs[0], 0) && IsSubtree(H(list, 1), list[1].1, subs[1], 0)
    requires IsSubtree(H(list, 2), list[2].1, subs[2], 0)
    ensures AreSubtrees(list, subs, 0)
  {
    hide IsSubtree;
  }

  lemma SmallNulls(r: Hash)
    ensures Added(1, r, 0) == [Null, Null] && Added(1, r, 1) == [r] && Added(0, r, 0) == [r] && Added(0, r, 1) == []
  {
    assert Pow2(1) == 2;
    assert Nulls(2) == [Null, Null];
  }

  lemma LosingPushes(a: Hash, b: Hash, r: Hash)
    ensures var list := [(1, a), (1, b), (2, r)];
            Pushable(0, list) && PushAll([[]], list, 3) == [[a, b, Null, Null], [r]]
  {
    hide PushSubtree, Added;
    var list := [(1, a), (1, b), (2, r)];
    SmallNulls(a);
    SmallNulls(b);
    SmallNulls(r);
    assert PushAll([[]], list, 0) == [[]];
    PushedIs([[]], [[a]], 0, a);
    assert PushAll([[]], list, 1) == [[a]];
    PushedIs([[a]], [[a, b]], 0, b);
    assert PushAll([[]], list, 2) == [[a, b]];
    PushedIs([[a, b]], [[a, b, Null, Null], [r]], 1, r);
    hide PushAll;
    LosingAligned(list);
  }

  lemma LosingAligned(list: List)
    requires |list| == 3 && list[0].0 == 1 && list[1].0 == 1 && list[2].0 == 2
    ensures Pushable(0, list)
  {
    assert Pow2(0) == 1;
    assert Total(list, 1) == 1 && Total(list, 2) == 2;
    assert Aligned(2, 1) by { assert Shr(2, 0) == 2; }
  }

  lemma LosingRun(a: Hash, b: Hash, r: Hash)
    requires a != Null && b != Null
    ensures Run([[a, b, Null, Null], [r]], 0, 0, None, 0) == Some([[a, b, Null, Null], [Parent(a, b), Null], [Null]])
  {
    hide Run;
    var leaves := [a, b, Null, Null];
    var (raw, mid) := ([leaves, [r]], [leaves, [Parent(a, b), Null]]);
    var q := NewParents(leaves, [r], 0, 4, 0);
    assert Changed(leaves, [r], 0, 4, 0, 0) && Changed(leaves, [r], 0, 4, 0, 1);
    assert q == [Parent(a, b), Null];
    assert NoPanics(leaves, [r], 0, 4, 0);
    RoundIs(raw, 0, 0, None, 0, 4, q, mid);
    assert LastChanged(leaves, [r], 0, 4, 0, 2) == Some(1);
    var c := [Parent(a, b), Null];
    assert Changed(c, [], 0, 2, 1, 0);
    assert NewParents(c, [], 0, 2, 1) == [Null];
    RoundIs(mid, 1, 0, Some(2), 0, 2, [Null], mid + [[Null]]);
    RunTop(mid + [[Null]], 2, 0, RoundLast(mid, 1, 0, 2, 0), 0);
    assert mid + [[Null]] == [leaves, [Parent(a, b), Null], [Null]];
  }

  /**
   Depths 1, 2 after three leaves: the root of the pair lands on its place, and the recomputation
   panics at the node that the first appended leaf has completed.
   */
  lemma IncreasingDepthPanics(x: Hash, y: Hash, z: Hash, a: Hash, b: Hash, c: Hash)
    requires NoNulls([x, y, z, a, b, c]) && a != ZeroLeaf
    ensures var ls := ThreeLeaves(x, y, z);
            var list := [(1, a), (2, Parent(b, c))];
            && WellFormed(ls, [x, y, z], 0, 1)
            && AreSubtrees(list, [[a], [b, c]], 0) && Pushable(3, list)
            && PushAll(ls, list, 2) == [[x, y, z, a, Null, Null], ls[1] + [Parent(b, c)], ls[2]]
            && Run(PushAll(ls, list, 2), 0, 3, None, 0) == None
  {
    var t := [x, y, z, a, b, c];
    assert t[0] == x && t[1] == y && t[2] == z && t[3] == a && t[4] == b && t[5] == c;
    hide Run, PushAll, Pushable, IsSubtree, WellFormed;
    SmallSubtrees(a, a, b, c);
    ThreeLeavesWellFormed(x, y, z);
    PanickingPushes(x, y, z, a, Parent(b, c));
    PanickingRun(x, y, z, a, Parent(b, c));
  }

  function ThreeLeaves(x: Hash, y: Hash, z: Hash): Layers {
    var (l, r) := (Parent(x, y), Parent(z, ZeroLeaf));
    [[x, y, z], [l, r], [Parent(l, r)]]
  }

  lemma ThreeLeavesWellFormed(x: Hash, y: Hash, z: Hash)
    requires NoNulls([x, y, z])
    ensures WellFormed(ThreeLeaves(x, y, z), [x, y, z], 0, 1)
  {
    var (t, ls) := ([x, y, z], ThreeLeaves(x, y, z));
    assert t[0] == x && t[1] == y && t[2] == z;
    assert EndPad(0) == ZeroLeaf;
    assert Node(t, 0, 0, 0) == x && Node(t, 0, 0, 1) == y && Node(t, 0, 0, 2) == z && Node(t, 0, 0, 3) == ZeroLeaf;
    assert Node(t, 0, 1, 0) == ls[1][0] && Node(t, 0, 1, 1) == ls[1][1];
    assert Node(t, 0, 2, 0) == ls[2][0];
    assert Len(3, 0) == 3 && Len(3, 1) == 2 && Len(3, 2) == 1;
  }

  lemma PanickingPushes(x: Hash, y: Hash, z: Hash, a: Hash, r: Hash)
    ensures var ls := ThreeLeaves(x, y, z);
            var list := [(1, a), (2, r)];
            Pushable(3, list) && PushAll(ls, list, 2) == [[x, y, z, a, Null, Null], ls[1] + [r], ls[2]]
  {
    hide PushSubtree, Added;
    var ls := ThreeLeaves(x, y, z);
    var list := [(1, a), (2, r)];
    SmallNulls(a);
    SmallNulls(r);
    HigherLayers(a, r);
    assert PushAll(ls, list, 0) == ls;
    var one := [[x, y, z, a], ls[1], ls[2]];
    PushedIs(ls, one, 0, a);
    assert PushAll(ls, list, 1) == one;
    PushedIs(one, [[x, y, z, a, Null, Null], ls[1] + [r], ls[2]], 1, r);
    hide PushAll;
    assert Pow2(0) == 1 && Total(list, 1) == 1;
    assert Aligned(4, 1) by { assert Shr(4, 0) == 4; }
  }

  lemma HigherLayers(a: Hash, r: Hash)
    ensures Added(0, a, 2) == [] && Added(1, r, 2) == []
  {
  }

  lemma PanickingRun(x: Hash, y: Hash, z: Hash, a: Hash, r: Hash)
    requires z != Null && a != Null && a != ZeroLeaf
    ensures var ls := ThreeLeaves(x, y, z);
            Run([[x, y, z, a, Null, Null], ls[1] + [r], ls[2]], 0, 3, None, 0) == None
  {
    var ls := ThreeLeaves(x, y, z);
    var raw := [[x, y, z, a, Null, Null], ls[1] + [r], ls[2]];
    assert Panics(raw[0], raw[1], 0, 1);
    RunOn(raw, 0, 3, None, 0);
  }

  /**
   Depths 1, 2 after one leaf in a tree of fixed depth, and the appended leaf is the padding leaf:
   then the completed node is what it was, and the increase does no harm.
   */
  lemma PaddingLeafHidesIncrease(x: Hash, b: Hash, c: Hash)
    requires NoNulls([x, b, c])
    ensures var (l, r) := (Parent(x, ZeroLeaf), Parent(b, c));
            var ls := [[x], [l], [Parent(l, EndPad(1))]];
            var list := [(1, ZeroLeaf), (2, r)];
            var post := [[x, ZeroLeaf, Null, Null], [l, r], [Parent(l, r)]];
            && WellFormed(ls, [x], 0, 3) && Pushable(1, list) && !NonIncreasing(list)
            && Run(PushAll(ls, list, 2), 0, 1, None, 0) == Some(post)
            && WellFormed(post, [x, ZeroLeaf, b, c], 0, 3)
  {
    var t := [x, b, c];
    assert t[0] == x && t[1] == b && t[2] == c;
    hide Run, WellFormed, PushAll, Pushable;
    var list := [(1, ZeroLeaf), (2, Parent(b, c))];
    assert list[1].0 > list[0].0;
    HiddenTrees(x, b, c);
    HiddenPushes(x, Parent(b, c));
    HiddenRun(x, Parent(b, c));
  }

  lemma HiddenTrees(x: Hash, b: Hash, c: Hash)
    requires x != Null && b != Null && c != Null
    ensures var (l, r) := (Parent(x, ZeroLeaf), Parent(b, c));
            && WellFormed([[x], [l], [Parent(l, EndPad(1))]], [x], 0, 3)
            && WellFormed([[x, ZeroLeaf, Null, Null], [l, r], [Parent(l, r)]], [x, ZeroLeaf, b, c], 0, 3)
  {
    HiddenBefore(x);
    HiddenAfter(x, b, c);
  }

  lemma HiddenBefore(x: Hash)
    requires x != Null
    ensures var l := Parent(x, ZeroLeaf);
            WellFormed([[x], [l], [Parent(l, EndPad(1))]], [x], 0, 3)
  {
    var (t, l) := ([x], Parent(x, ZeroLeaf));
    assert EndPad(0) == ZeroLeaf && EndPad(1) == Parent(ZeroLeaf, ZeroLeaf);
    assert Node(t, 0, 0, 0) == x && Node(t, 0, 0, 1) == ZeroLeaf && Node(t, 0, 0, 2) == ZeroLeaf && Node(t, 0, 0, 3) == ZeroLeaf;
    assert Node(t, 0, 1, 0) == l && Node(t, 0, 1, 1) == EndPad(1);
    assert Len(1, 0) == 1 && Len(1, 1) == 1 && Len(1, 2) == 1;
  }

  lemma HiddenAfter(x: Hash, b: Hash, c: Hash)
    requires x != Null && b != Null && c != Null
    ensures var (l, r) := (Parent(x, ZeroLeaf), Parent(b, c));
            WellFormed([[x, ZeroLeaf, Null, Null], [l, r], [Parent(l, r)]], [x, ZeroLeaf, b, c], 0, 3)
  {
    var u := [x, ZeroLeaf, b, c];
    var (l, r) := (Parent(x, ZeroLeaf), Parent(b, c));
    assert Node(u, 0, 0, 0) == x && Node(u, 0, 0, 1) == ZeroLeaf && Node(u, 0, 0, 2) == b && Node(u, 0, 0, 3) == c;
    assert Node(u, 0, 1, 0) == l && Node(u, 0, 1, 1) == r;
    assert Len(4, 0) == 4 && Len(4, 1) == 2 && Len(4, 2) == 1;
    assert Shr(4, 0) == 4 && Shr(4, 1) == 2 && Shr(4, 2) == 1;
  }

  lemma HiddenPushes(x: Hash, r: Hash)
    ensures var l := Parent(x, ZeroLeaf);
            var top := [Parent(l, EndPad(1))];
            var list := [(1, ZeroLeaf), (2, r)];
            Pushable(1, list) && PushAll([[x], [l], top], list, 2) == [[x, ZeroLeaf, Null, Null], [l, r], top]
  {
    hide PushSubtree, Added;
    var l := Parent(x, ZeroLeaf);
    var top := [Parent(l, EndPad(1))];
    var ls := [[x], [l], top];
    var list := [(1, ZeroLeaf), (2, r)];
    SmallNulls(ZeroLeaf);
    SmallNulls(r);
    HigherLayers(ZeroLeaf, r);
    assert PushAll(ls, list, 0) == ls;
    var one := [[x, ZeroLeaf], [l], top];
    PushedIs(ls, one, 0, ZeroLeaf);
    assert PushAll(ls, list, 1) == one;
    PushedIs(one, [[x, ZeroLeaf, Null, Null], [l, r], top], 1, r);
    hide PushAll;
    assert Pow2(0) == 1 && Total(list, 1) == 1;
    assert Aligned(2, 1) by { assert Shr(2, 0) == 2; }
  }

  lemma HiddenRun(x: Hash, r: Hash)
    requires x != Null && r != Null
    ensures var l := Parent(x, ZeroLeaf);
            Run([[x, ZeroLeaf, Null, Null], [l, r], [Parent(l, EndPad(1))]], 0, 1, None, 0)
            == Some([[x, ZeroLeaf, Null, Null], [l, r], [Parent(l, r)]])
  {
    hide Run;
    var l := Parent(x, ZeroLeaf);
    var (c0, c1, was) := ([x, ZeroLeaf, Null, Null], [l, r], [Parent(l, EndPad(1))]);
    var raw := [c0, c1, was];
    assert Changed(c0, c1, 0, 4, 0, 0) && !Changed(c0, c1, 0, 4, 0, 1);
    assert NewParents(c0, c1, 0, 4, 0) == c1;
    RoundIs(raw, 0, 1, None, 0, 4, c1, raw);
    assert LastChanged(c0, c1, 0, 4, 0, 2) == Some(0);
    assert RoundEnd(Some(1), 2) == 2;
    assert Changed(c1, was, 0, 2, 1, 0);
    assert NewParents(c1, was, 0, 2, 1) == [Parent(l, r)];
    var post := [c0, c1, [Parent(l, r)]];
    RoundIs(raw, 1, 0, Some(1), 0, 2, [Parent(l, r)], post);
    RunTop(post, 2, 0, RoundLast(raw, 1, 0, 2, 0), 0);
  }
}
