/**
 The Merkle tree hash and the audit paths of sections 2.1 and 2.1.1 of RFC 6962, without the
 0x00/0x01 prefixes: the reference that every tree of the repository is compared with.
 */
module Rfc6962 {
  import opened Bits
  import opened Hashing

  /** The largest power of two smaller than `n`. */
  function Split(n: nat): (k: nat)
    requires n > 1
    ensures 0 < k < n <= 2 * k
  {
    if n == 2 then 1 else 2 * Split((n + 1) / 2)
  }

  /** `Split` is the power of two that the RFC asks for, and the only one. */
  lemma {:induction false} SplitIsPow2(n: nat, h: nat)
    requires Pow2(h) < n <= 2 * Pow2(h)
    ensures Split(n) == Pow2(h)
  {
    if h > 0 { SplitIsPow2((n + 1) / 2, h - 1); }
  }

  lemma {:induction false} SplitExponent(n: nat) returns (h: nat)
    requires n > 1
    ensures Split(n) == Pow2(h)
  {
    if n == 2 {
      h := 0;
    } else {
      var g := SplitExponent((n + 1) / 2);
      h := g + 1;
    }
  }

  function Mth(leaves: seq<Hash>): Hash
    requires |leaves| > 0
    decreases |leaves|
  {
    if |leaves| == 1 then leaves[0]
    else
      var k := Split(|leaves|);
      Parent(Mth(leaves[..k]), Mth(leaves[k..]))
  }

  lemma MthAtSplit(leaves: seq<Hash>)
    requires |leaves| > 1
    ensures Mth(leaves) == Parent(Mth(leaves[..Split(|leaves|)]), Mth(leaves[Split(|leaves|)..]))
  {
  }

  /** One step of an inclusion proof: the sibling, and whether the proven node is the left child. */
  datatype Step = Step(sibling: Hash, isLeft: bool)

  /** The audit path of leaf `m`, leaf end first. */
  function AuditPath(m: nat, leaves: seq<Hash>): seq<Step>
    requires m < |leaves|
    decreases |leaves|
  {
    if |leaves| == 1 then []
    else
      var k := Split(|leaves|);
      if m < k then AuditPath(m, leaves[..k]) + [Step(Mth(leaves[k..]), true)]
      else AuditPath(m - k, leaves[k..]) + [Step(Mth(leaves[..k]), false)]
  }

  lemma AuditPathAtSplit(m: nat, leaves: seq<Hash>)
    requires m < |leaves| && |leaves| > 1
    ensures var k := Split(|leaves|);
            AuditPath(m, leaves) ==
            if m < k then AuditPath(m, leaves[..k]) + [Step(Mth(leaves[k..]), true)]
            else AuditPath(m - k, leaves[k..]) + [Step(Mth(leaves[..k]), false)]
  {
  }

  /** The root that a leaf and its siblings hash up to. */
  function Climb(item: Hash, steps: seq<Step>): Hash
    decreases |steps|
  {
    if |steps| == 0 then item
    else
      var last := steps[|steps| - 1];
      var below := Climb(item, steps[..|steps| - 1]);
      if last.isLeft then Parent(below, last.sibling) else Parent(last.sibling, below)
  }

  /** An audit path proves its leaf. */
  lemma {:induction false} AuditPathClimbs(m: nat, leaves: seq<Hash>)
    requires m < |leaves|
    ensures Climb(leaves[m], AuditPath(m, leaves)) == Mth(leaves)
    decreases |leaves|
  {
    if |leaves| > 1 {
      var k := Split(|leaves|);
      if m < k {
        AuditPathClimbs(m, leaves[..k]);
        assert AuditPath(m, leaves)[..|AuditPath(m, leaves)| - 1] == AuditPath(m, leaves[..k]);
      } else {
        AuditPathClimbs(m - k, leaves[k..]);
        assert AuditPath(m, leaves)[..|AuditPath(m, leaves)| - 1] == AuditPath(m - k, leaves[k..]);
      }
    }
  }

  lemma {:induction false} ClimbAppend(item: Hash, a: seq<Step>, b: seq<Step>)
    ensures Climb(item, a + b) == Climb(Climb(item, a), b)
    decreases |b|
  {
    if |b| == 0 {
      assert a + b == a;
    } else {
      ClimbAppend(item, a, b[..|b| - 1]);
      assert (a + b)[..|a + b| - 1] == a + b[..|b| - 1];
    }
  }
}
