/**
 The simple definition of the append tree: leaves padded to the right with zero hashes, every
 inner node the parent of its two children.
 */
module PaddedTree {
  import opened Bits
  import opened Hashing
  import opened Rfc6962

  /** Node `i` of layer `h` over the leaves `t`, whose own height is `lh`. */
  function Node(t: seq<Hash>, lh: nat, h: nat, i: nat): Hash
    decreases h
  {
    if h == 0 then
      if i < |t| then t[i] else EndPad(lh)
    else
      Parent(Node(t, lh, h - 1, 2 * i), Node(t, lh, h - 1, 2 * i + 1))
  }

  ghost predicate NoNulls(t: seq<Hash>) {
    forall i :: 0 <= i < |t| ==> t[i] != Null
  }

  lemma NodeNotNull(t: seq<Hash>, lh: nat, h: nat, i: nat)
    requires NoNulls(t)
    ensures Node(t, lh, h, i) != Null
  {
  }

  /** A node right of all leaves is the zero hash of its height. */
  lemma {:induction false} NodeBeyond(t: seq<Hash>, lh: nat, h: nat, i: nat)
    requires i >= Len(|t|, h)
    ensures Node(t, lh, h, i) == EndPad(lh + h)
  {
    if h > 0 {
      NodeBeyond(t, lh, h - 1, 2 * i);
      NodeBeyond(t, lh, h - 1, 2 * i + 1);
    }
  }

  /** A node left of position `n` does not see the leaves from `n` on. */
  lemma {:induction false} NodePrefix(t: seq<Hash>, u: seq<Hash>, lh: nat, n: nat, h: nat, i: nat)
    requires n <= |t| && n <= |u| && t[..n] == u[..n]
    requires i < Shr(n, h)
    ensures Node(t, lh, h, i) == Node(u, lh, h, i)
  {
    if h == 0 {
      assert t[i] == t[..n][i] && u[i] == u[..n][i];
    } else {
      NodePrefix(t, u, lh, n, h - 1, 2 * i);
      NodePrefix(t, u, lh, n, h - 1, 2 * i + 1);
    }
  }

  /** Leaves appended at an aligned position form a tree of their own. */
  lemma {:induction false} NodeShift(a: seq<Hash>, b: seq<Hash>, lh: nat, d: nat, h: nat, i: nat)
    requires Aligned(|a|, d) && h <= d
    ensures Node(a + b, lh, h, Shr(|a|, h) + i) == Node(b, lh, h, i)
  {
    if h > 0 {
      AlignedLen(|a|, d, h - 1);
      NodeShift(a, b, lh, d, h - 1, 2 * i);
      NodeShift(a, b, lh, d, h - 1, 2 * i + 1);
    }
  }

  /** The leaves `t` followed by as many zero hashes as a perfect tree of height `h` needs. */
  function Padded(t: seq<Hash>, lh: nat, h: nat): (r: seq<Hash>)
    requires |t| <= Pow2(h)
    ensures |r| == Pow2(h)
  {
    t + seq(Pow2(h) - |t|, _ => EndPad(lh))
  }

  /** The Merkle tree hash of a power of two of leaves splits in the middle. */
  lemma MthHalves(l: seq<Hash>, r: seq<Hash>, h: nat)
    requires |l| == Pow2(h) && |r| == Pow2(h)
    ensures Mth(l + r) == Parent(Mth(l), Mth(r))
  {
    SplitIsPow2(|l + r|, h);
    assert (l + r)[..|l|] == l && (l + r)[|l|..] == r;
  }

  /** `block` are the padded leaves from `first` on. */
  ghost predicate IsBlock(block: seq<Hash>, t: seq<Hash>, lh: nat, first: nat) {
    forall k :: 0 <= k < |block| ==> block[k] == Node(t, lh, 0, first + k)
  }

  lemma BlockHalves(block: seq<Hash>, t: seq<Hash>, lh: nat, first: nat, m: nat)
    requires IsBlock(block, t, lh, first) && m <= |block|
    ensures IsBlock(block[..m], t, lh, first) && IsBlock(block[m..], t, lh, first + m)
  {
    hide Node;
    forall k | 0 <= k < |block| - m ensures block[m..][k] == Node(t, lh, 0, first + m + k) {
      assert block[m..][k] == block[m + k];
    }
  }

  lemma OneLeafBlock(t: seq<Hash>, lh: nat, i: nat, first: nat, block: seq<Hash>)
    requires |block| == Pow2(0) && first == i * Pow2(0) && IsBlock(block, t, lh, first)
    ensures Node(t, lh, 0, i) == Mth(block)
  {
    assert block[0] == Node(t, lh, 0, first + 0);
  }

  lemma NodeHalves(t: seq<Hash>, lh: nat, h: nat, i: nat)
    requires h > 0
    ensures Pow2(h) == 2 * Pow2(h - 1)
    ensures Node(t, lh, h, i) == Parent(Node(t, lh, h - 1, 2 * i), Node(t, lh, h - 1, 2 * i + 1))
  {
  }

  /** The perfect block of height `h` whose first leaf is `first == i * 2^h`. */
  lemma {:induction false} NodeIsMth(t: seq<Hash>, lh: nat, h: nat, i: nat, first: nat, block: seq<Hash>)
    requires |block| == Pow2(h) && first == i * Pow2(h) && IsBlock(block, t, lh, first)
    ensures Node(t, lh, h, i) == Mth(block)
  {
    hide Mth, Pow2, Node, IsBlock;
    if h == 0 {
      OneLeafBlock(t, lh, i, first, block);
    } else {
      NodeHalves(t, lh, h, i);
      var m := Pow2(h - 1);
      HalfBlocks(first, i, Pow2(h), m);
      BlockHalves(block, t, lh, first, m);
      NodeIsMth(t, lh, h - 1, 2 * i, first, block[..m]);
      NodeIsMth(t, lh, h - 1, 2 * i + 1, first + m, block[m..]);
      MthHalves(block[..m], block[m..], h - 1);
      assert block == block[..m] + block[m..];
    }
  }

  /** The root of the padded tree is the Merkle tree hash of the zero-padded leaves. */
  lemma RootIsMth(t: seq<Hash>, lh: nat, h: nat)
    requires |t| <= Pow2(h)
    ensures Node(t, lh, h, 0) == Mth(Padded(t, lh, h))
  {
    NodeIsMth(t, lh, h, 0, 0, Padded(t, lh, h));
  }
}
