/**
 `Transaction::compute_segment_proof`: the proof of one segment of a file, spliced from the flow
 proof inside a submission node and the path from that node to the file root.
 */
module SegmentProofs {
  import opened Bits
  import opened Hashing
  import opened Wrappers
  import opened Rfc6962
  import opened PaddedTree
  import opened AppendProofs
  import opened LightShape
  import opened LightMerkle
  import opened FileProofs
  import opened Segments

  /** A submission node: `(depth, root)` of a perfect subtree with `2^(depth-1)` chunks. */
  type Nodes = seq<(nat, Hash)>

  datatype Transaction = Transaction(merkleNodes: Nodes, dataMerkleRoot: Hash)

  /** Chunk hashes of a segment, its first chunk and the flow proof of that chunk. */
  datatype SegmentData = SegmentData(hashes: seq<Hash>, startIndex: nat, flowProof: Proof)

  /** The nodes hold the file `d` from left to right, in strictly decreasing depth. */
  ghost predicate FileOf(nodes: Nodes, d: seq<Hash>)
    decreases |nodes|
  {
    && |nodes| > 0 && nodes[0].0 >= 1
    && var size := Pow2(nodes[0].0 - 1);
       && size <= |d| && nodes[0].1 == Mth(d[..size])
       && (if |nodes| == 1 then |d| == size
           else nodes[1].0 < nodes[0].0 && FileOf(nodes[1..], d[size..]))
  }

  function FoldRoots(nodes: Nodes): Hash
    requires |nodes| > 0
  {
    if |nodes| == 1 then nodes[0].1 else Parent(nodes[0].1, FoldRoots(nodes[1..]))
  }

  /** The fold of the submission nodes is the tree hash of the whole file. */
  lemma {:induction false} FoldIsMth(nodes: Nodes, d: seq<Hash>)
    requires FileOf(nodes, d)
    ensures 0 < |d| < Pow2(nodes[0].0)
    ensures FoldRoots(nodes) == Mth(d)
    decreases |nodes|
  {
    var size := Pow2(nodes[0].0 - 1);
    assert Pow2(nodes[0].0) == 2 * size;
    if |nodes| == 1 {
      assert d[..size] == d;
    } else {
      FoldIsMth(nodes[1..], d[size..]);
      Pow2Mono(nodes[1].0, nodes[0].0 - 1);
      SplitIsPow2(|d|, nodes[0].0 - 1);
    }
  }

  method NodesToRoot(nodes: Nodes) returns (root: Hash)
    requires |nodes| > 0
    ensures root == FoldRoots(nodes)
  {
    var i := |nodes| - 1;
    root := nodes[i].1;
    while i > 0
      invariant 0 <= i < |nodes| && root == FoldRoots(nodes[i..])
    {
      i := i - 1;
      assert nodes[i..][1..] == nodes[i + 1..];
      root := Parent(nodes[i].1, root);
    }
    assert nodes[0..] == nodes;
  }

  /** Where the last run of nodes shallower than `maxDepth` starts. */
  function ShallowFrom(nodes: Nodes, maxDepth: nat, k: nat): (r: nat)
    requires k <= |nodes|
    ensures r <= k
    ensures forall i :: r <= i < k ==> nodes[i].0 < maxDepth
    ensures r > 0 ==> nodes[r - 1].0 >= maxDepth
  {
    if k == 0 || nodes[k - 1].0 >= maxDepth then k else ShallowFrom(nodes, maxDepth, k - 1)
  }

  /** `compute_merkle_root`: the fold of the last nodes shallower than `maxDepth`, if there are any. */
  method ComputeMerkleRoot(nodes: Nodes, maxDepth: nat) returns (r: Option<Hash>)
    ensures var k := ShallowFrom(nodes, maxDepth, |nodes|);
            r == if k < |nodes| then Some(FoldRoots(nodes[k..])) else None
  {
    if |nodes| == 0 {
      return None;
    }
    var i := |nodes| - 1;
    var root := nodes[i].1;
    if nodes[i].0 >= maxDepth {
      return None;
    }
    ghost var k := ShallowFrom(nodes, maxDepth, |nodes|);
    while i > 0
      invariant k <= i < |nodes| && root == FoldRoots(nodes[i..])
      invariant k == ShallowFrom(nodes, maxDepth, i + 1) && nodes[i].0 < maxDepth
    {
      if nodes[i - 1].0 >= maxDepth {
        break;
      }
      i := i - 1;
      assert nodes[i..][1..] == nodes[i + 1..];
      root := Parent(nodes[i].1, root);
    }
    return Some(root);
  }

  lemma {:induction false} ShallowAre(nodes: Nodes, maxDepth: nat, k: nat, n: nat)
    requires k <= n <= |nodes| && (k > 0 ==> nodes[k - 1].0 >= maxDepth)
    requires forall i :: k <= i < n ==> nodes[i].0 < maxDepth
    ensures ShallowFrom(nodes, maxDepth, n) == k
  {
    if n > k {
      ShallowAre(nodes, maxDepth, k, n - 1);
    }
  }

  function Total(nodes: Nodes): nat {
    if |nodes| == 0 then 0 else Total(nodes[..|nodes| - 1]) + NodeChunks(nodes[|nodes| - 1].0)
  }

  function NodeChunks(depth: nat): nat {
    if depth == 0 then 0 else Pow2(depth - 1)
  }

  method NumEntries(nodes: Nodes) returns (n: nat)
    ensures n == Total(nodes)
  {
    n := 0;
    for i := 0 to |nodes|
      invariant n == Total(nodes[..i])
    {
      assert nodes[..i + 1][..i] == nodes[..i];
      n := n + NodeChunks(nodes[i].0);
    }
    assert nodes[..|nodes|] == nodes;
  }

  lemma {:induction false} TotalFront(nodes: Nodes)
    requires |nodes| > 0
    ensures Total(nodes) == NodeChunks(nodes[0].0) + Total(nodes[1..])
    decreases |nodes|
  {
    if |nodes| > 1 {
      var l := |nodes| - 1;
      TotalFront(nodes[..l]);
      assert nodes[..l][1..] == nodes[1..][..l - 1];
    }
  }

  lemma {:induction false} FileTotal(nodes: Nodes, d: seq<Hash>)
    requires FileOf(nodes, d)
    ensures Total(nodes) == |d|
    decreases |nodes|
  {
    TotalFront(nodes);
    if |nodes| > 1 { FileTotal(nodes[1..], d[Pow2(nodes[0].0 - 1)..]); }
  }

  lemma {:induction false} Decreasing(nodes: Nodes, d: seq<Hash>, i: nat)
    requires FileOf(nodes, d) && 0 < i < |nodes|
    ensures 1 <= nodes[i].0 < nodes[0].0
    decreases |nodes|
  {
    if i > 1 { Decreasing(nodes[1..], d[Pow2(nodes[0].0 - 1)..], i - 1); }
  }

  // ---------- The path from a node to the file root ----------

  function Sibs(steps: seq<Step>): (r: seq<Hash>)
    ensures |r| == |steps| && forall k :: 0 <= k < |r| ==> r[k] == steps[k].sibling
  {
    seq(|steps|, k requires 0 <= k < |steps| => steps[k].sibling)
  }

  function Reverse<T>(a: seq<T>): (r: seq<T>)
    ensures |r| == |a| && forall k :: 0 <= k < |r| ==> r[k] == a[|a| - 1 - k]
  {
    seq(|a|, k requires 0 <= k < |a| => a[|a| - 1 - k])
  }

  lemma FileParts(nodes: Nodes, d: seq<Hash>)
    requires FileOf(nodes, d)
    ensures nodes[0].0 >= 1 && Pow2(nodes[0].0 - 1) <= |d| && nodes[0].1 == Mth(d[..Pow2(nodes[0].0 - 1)])
    ensures |nodes| == 1 ==> |d| == Pow2(nodes[0].0 - 1)
    ensures |nodes| > 1 ==> nodes[1].0 < nodes[0].0 && FileOf(nodes[1..], d[Pow2(nodes[0].0 - 1)..])
  {
  }

  /** Fewer than `2^b` chunks make at most `2^(b-s)` segments, and at least one. */
  lemma FewSegments(r: seq<Hash>, b: nat, s: nat)
    requires 0 < |r| < Pow2(b) && s <= b
    ensures 0 < |Segs(r, s)| <= Pow2(b - s)
  {
    LenBounds(|r|, s);
    ShrMono(|r|, Pow2(b), s);
    Pow2Len(b, s);
  }

  /** A perfect block before fewer chunks: the segment roots split as RFC 6962 splits their tree. */
  lemma SplitAtBlock(l: seq<Hash>, r: seq<Hash>, b: nat, s: nat)
    requires |l| == Pow2(b) && 0 < |r| < Pow2(b) && s <= b
    ensures |Segs(l, s)| > 0 && |Segs(r, s)| > 0
    ensures Segs(l + r, s) == Segs(l, s) + Segs(r, s)
    ensures |Segs(l, s)| == Shr(Pow2(b), s) == Split(|Segs(l, s)| + |Segs(r, s)|)
  {
    hide Segs, Len, Shr, Aligned, Pow2, Split;
    Pow2Aligned(b, s);
    SegsSplit(l, r, s);
    Pow2Len(b, s);
    FewSegments(r, b, s);
    SplitIsPow2(|Segs(l, s)| + |Segs(r, s)|, b - s);
  }

  lemma SplitAtNode(nodes: Nodes, d: seq<Hash>, s: nat, l: seq<Hash>, r: seq<Hash>)
    requires FileOf(nodes, d) && |nodes| > 1 && s <= nodes[0].0 - 1
    requires d == l + r && |l| == Pow2(nodes[0].0 - 1)
    ensures |Segs(l, s)| > 0 && |Segs(r, s)| > 0
    ensures Segs(d, s) == Segs(l, s) + Segs(r, s)
    ensures |Segs(l, s)| == Shr(Pow2(nodes[0].0 - 1), s) == Split(|Segs(l, s)| + |Segs(r, s)|)
    ensures Mth(Segs(l, s)) == nodes[0].1 && Mth(Segs(r, s)) == FoldRoots(nodes[1..])
  {
    hide Segs, Mth, Len, Shr, Aligned, FoldRoots, Pow2, FileOf, Split;
    FileParts(nodes, d);
    assert d[..|l|] == l && d[|l|..] == r;
    FoldIsMth(nodes[1..], r);
    Pow2Mono(nodes[1].0, nodes[0].0 - 1);
    SplitAtBlock(l, r, nodes[0].0 - 1, s);
    SegsMth(l, s);
    SegsMth(r, s);
  }

  lemma SkipNode(nodes: Nodes, d: seq<Hash>, s: nat, q: nat)
    requires FileOf(nodes, d) && |nodes| > 1 && s <= nodes[0].0 - 1
    requires q < |Segs(d, s)| && q >= Shr(Pow2(nodes[0].0 - 1), s)
    ensures Pow2(nodes[0].0 - 1) <= |d|
    ensures var size := Pow2(nodes[0].0 - 1);
            var rest := Segs(d[size..], s);
            && q - Shr(size, s) < |rest|
            && AuditPath(q, Segs(d, s)) == AuditPath(q - Shr(size, s), rest) + [Step(nodes[0].1, false)]
  {
    hide Segs, Mth, Len, Shr, FoldRoots, Pow2, FileOf, Split, AuditPath;
    FileParts(nodes, d);
    var size := Pow2(nodes[0].0 - 1);
    SplitAtNode(nodes, d, s, d[..size], d[size..]);
    AuditAtSplit(q, Segs(d[..size], s), Segs(d[size..], s));
  }

  lemma StopAtNode(nodes: Nodes, d: seq<Hash>, s: nat, q: nat)
    requires FileOf(nodes, d) && s <= nodes[0].0 - 1
    requires q < |Segs(d, s)| && q < Shr(Pow2(nodes[0].0 - 1), s)
    ensures Pow2(nodes[0].0 - 1) <= |d|
    ensures var block := d[..Pow2(nodes[0].0 - 1)];
            && q < |Segs(block, s)|
            && AuditPath(q, Segs(d, s)) == AuditPath(q, Segs(block, s)) +
                 (if |nodes| > 1 then [Step(FoldRoots(nodes[1..]), true)] else [])
  {
    var size := Pow2(nodes[0].0 - 1);
    if |nodes| > 1 {
      hide Segs, Mth, Len, Shr, FoldRoots, Pow2, FileOf, Split, AuditPath;
      FileParts(nodes, d);
      SplitAtNode(nodes, d, s, d[..size], d[size..]);
      AuditAtSplit(q, Segs(d[..size], s), Segs(d[size..], s));
    } else {
      assert d[..size] == d;
      assert AuditPath(q, Segs(d, s)) + [] == AuditPath(q, Segs(d, s));
    }
  }

  lemma AuditAtSplit(q: nat, a: seq<Hash>, b: seq<Hash>)
    requires |a| > 0 && |b| > 0 && |a| == Split(|a + b|) && q < |a + b|
    ensures AuditPath(q, a + b) ==
            if q < |a| then AuditPath(q, a) + [Step(Mth(b), true)] else AuditPath(q - |a|, b) + [Step(Mth(a), false)]
  {
    assert (a + b)[..|a|] == a && (a + b)[|a|..] == b;
  }

  /** Once the nodes are smaller than a segment, what remains is the one last segment. */
  lemma LastSegment(nodes: Nodes, d: seq<Hash>, s: nat)
    requires FileOf(nodes, d) && nodes[0].0 - 1 < s
    ensures Segs(d, s) == [FoldRoots(nodes)]
  {
    FoldIsMth(nodes, d);
    Pow2Mono(nodes[0].0, s);
    LenBounds(|d|, s);
    ShrZero(|d| - 1, s);
    SegsMth(d, s);
    assert Segs(d, s) == [Segs(d, s)[0]];
  }

  datatype NodeLeaf = Full(depth: nat) | Partial

  /** Where the loop over the nodes stands: `off` chunks in `j` nodes lie left of the segment. */
  ghost predicate AtNode(nodes: Nodes, d: seq<Hash>, s: nat, q: nat, j: nat, off: nat, acc: seq<Step>) {
    && j < |nodes| && off <= |d|
    && FileOf(nodes[j..], d[off..])
    && Aligned(off, nodes[j].0) && Aligned(off, s)
    && Shr(off, s) <= q < |Segs(d, s)|
    && q - Shr(off, s) < |Segs(d[off..], s)|
    && AuditPath(q, Segs(d, s)) == AuditPath(q - Shr(off, s), Segs(d[off..], s)) + acc
    && (j == 0 <==> acc == [])
    && (j == 0 ==> off == 0)
    && (forall i :: 0 <= i < j ==> nodes[i].0 - 1 >= s)
  }

  lemma AtFirstNode(nodes: Nodes, d: seq<Hash>, s: nat, q: nat)
    requires FileOf(nodes, d) && q < |Segs(d, s)|
    ensures AtNode(nodes, d, s, q, 0, 0, [])
  {
    assert nodes[0..] == nodes && d[0..] == d;
    ShrZero(0, s);
    AlignedIsMod(0, s);
    AlignedIsMod(0, nodes[0].0);
    assert AuditPath(q, Segs(d, s)) + [] == AuditPath(q, Segs(d, s));
  }

  lemma AtNextNode(nodes: Nodes, d: seq<Hash>, s: nat, q: nat, j: nat, off: nat, acc: seq<Step>)
    requires AtNode(nodes, d, s, q, j, off, acc)
    requires s <= nodes[j].0 - 1 && q >= Shr(off + Pow2(nodes[j].0 - 1), s)
    ensures nodes[j].0 >= 1
    ensures AtNode(nodes, d, s, q, j + 1, off + Pow2(nodes[j].0 - 1), [Step(nodes[j].1, false)] + acc)
  {
    hide Segs, Mth, Len, Shr, Aligned, Pow2, FileOf, AuditPath;
    var b := nodes[j].0 - 1;
    var size := Pow2(b);
    var rest, tail := d[off..], nodes[j..];
    assert tail[0] == nodes[j];
    FileParts(tail, rest);
    OffsetShift(off, b, s);
    assert rest[size..] == d[off + size..];
    OnlyNode(tail, rest, s, q - Shr(off, s));
    assert tail[1..] == nodes[j + 1..];
    SkipNode(tail, rest, s, q - Shr(off, s));
    NextAligned(off, b, s, nodes[j + 1].0);
    var inner := AuditPath(q - Shr(off + size, s), Segs(d[off + size..], s));
    assert inner + [Step(nodes[j].1, false)] + acc == inner + ([Step(nodes[j].1, false)] + acc);
  }

  /** The segments of a single node end with that node. */
  lemma OnlyNode(nodes: Nodes, d: seq<Hash>, s: nat, q: nat)
    requires FileOf(nodes, d) && s <= nodes[0].0 - 1 && q < |Segs(d, s)|
    ensures |nodes| == 1 ==> q < Shr(Pow2(nodes[0].0 - 1), s)
  {
    Pow2Len(nodes[0].0 - 1, s);
  }

  lemma OffsetShift(off: nat, b: nat, s: nat)
    requires Aligned(off, b + 1) && s <= b
    ensures Shr(off + Pow2(b), s) == Shr(off, s) + Shr(Pow2(b), s)
  {
    AlignedWeaken(off, b + 1, b);
    AlignedExtend(off, b, s);
    Pow2Len(b, s);
  }

  lemma NextAligned(off: nat, b: nat, s: nat, depth: nat)
    requires Aligned(off, b + 1) && s <= b && depth <= b
    ensures Aligned(off + Pow2(b), depth) && Aligned(off + Pow2(b), s)
  {
    AlignedWeaken(off, b + 1, b);
    AlignedExtend(off, b, depth);
    AlignedExtend(off, b, s);
  }

  /** The segment lies in the node of the given depth that starts at chunk `off`. */
  ghost predicate InNode(d: seq<Hash>, s: nat, q: nat, depth: nat, off: nat, outer: seq<Step>) {
    && depth >= 1 && s <= depth - 1 && off + Pow2(depth - 1) <= |d|
    && Aligned(off, depth - 1)
    && q < |Segs(d, s)| && Shr(off, s) <= q < Shr(off + Pow2(depth - 1), s)
    && var block := d[off..off + Pow2(depth - 1)];
       && q - Shr(off, s) < |Segs(block, s)|
       && AuditPath(q, Segs(d, s)) == AuditPath(q - Shr(off, s), Segs(block, s)) + outer
       && (outer == [] ==> Mth(block) == Mth(d))
  }

  /** The siblings and turns from a leaf hash to the root. */
  function ProofVia(leaf: Hash, steps: seq<Step>, root: Hash): LightProof {
    NewFileProof([leaf] + Sibs(steps) + [root], Turns(steps))
  }

  lemma AlignedMul(n: nat, s: nat)
    requires Aligned(n, s)
    ensures n == Shr(n, s) * Pow2(s)
  {
    AlignedIsMod(n, s);
    ShrIsDiv(n, s);
  }

  /** The comparisons of the loop, in chunks, are the comparisons in segments. */
  lemma Compare(nodes: Nodes, d: seq<Hash>, s: nat, q: nat, j: nat, off: nat, acc: seq<Step>)
    requires AtNode(nodes, d, s, q, j, off, acc)
    ensures nodes[j].0 >= 1
    ensures NodeChunks(nodes[j].0) == Pow2(nodes[j].0 - 1)
    ensures NodeChunks(nodes[j].0) < Pow2(s) <==> nodes[j].0 - 1 < s
    ensures s <= nodes[j].0 - 1 ==>
              (q * Pow2(s) < off + NodeChunks(nodes[j].0) <==> q < Shr(off + Pow2(nodes[j].0 - 1), s))
  {
    assert nodes[j..][0] == nodes[j];
    FileParts(nodes[j..], d[off..]);
    var b := nodes[j].0 - 1;
    if b < s {
      Pow2Mono(b, s);
    } else {
      Pow2Mono(s, b);
      NextAligned(off, b, s, 0);
      AlignedMul(off + Pow2(b), s);
      MulCompare(q, Shr(off + Pow2(b), s), Pow2(s));
    }
  }

  lemma MulCompare(a: nat, b: nat, p: nat)
    requires p > 0
    ensures a * p < b * p <==> a < b
  {
    if a < b { MulLe(p, a + 1, b); } else { MulLe(p, b, a); }
  }

  lemma FoundNode(nodes: Nodes, d: seq<Hash>, s: nat, q: nat, j: nat, off: nat, acc: seq<Step>, right: Option<Hash>)
    requires AtNode(nodes, d, s, q, j, off, acc)
    requires s <= nodes[j].0 - 1 && q < Shr(off + Pow2(nodes[j].0 - 1), s)
    requires right == if j + 1 < |nodes| then Some(FoldRoots(nodes[j + 1..])) else None
    ensures var outer := (if right.Some? then [Step(right.value, true)] else []) + acc;
            InNode(d, s, q, nodes[j].0, off, outer)
    ensures off + Pow2(nodes[j].0 - 1) <= |d| && nodes[j].1 == Mth(d[off..off + Pow2(nodes[j].0 - 1)])
  {
    hide Segs, Mth, Len, Shr, Aligned, Pow2, FileOf, AuditPath, FoldRoots;
    var b := nodes[j].0 - 1;
    var size := Pow2(b);
    var rest, tail := d[off..], nodes[j..];
    assert tail[0] == nodes[j];
    FileParts(tail, rest);
    OffsetShift(off, b, s);
    assert rest[..size] == d[off..off + size];
    StopAtNode(tail, rest, s, q - Shr(off, s));
    assert |tail| > 1 ==> tail[1..] == nodes[j + 1..];
    AlignedWeaken(off, b + 1, b);
    var inner := AuditPath(q - Shr(off, s), Segs(rest[..size], s));
    var r := if right.Some? then [Step(right.value, true)] else [];
    assert inner + r + acc == inner + (r + acc);
    if r + acc == [] {
      assert d[off..off + size] == d;
    }
  }

  lemma FoundLast(nodes: Nodes, d: seq<Hash>, s: nat, q: nat, j: nat, off: nat, acc: seq<Step>)
    requires AtNode(nodes, d, s, q, j, off, acc) && FileOf(nodes, d)
    requires nodes[j].0 - 1 < s
    ensures ProofOfLeaf(ProofVia(FoldRoots(nodes[j..]), acc, Mth(d)), q, Segs(d, s))
  {
    hide Segs, Mth, Len, Shr, Aligned, Pow2, FileOf, FoldRoots, ProofOfLeaf;
    var rest, tail := d[off..], nodes[j..];
    assert tail[0] == nodes[j];
    LastSegment(tail, rest, s);
    SegmentIs(d, s, q, off);
    assert AuditPath(0, Segs(rest, s)) == [];
    assert [] + acc == acc;
    FileNonEmpty(nodes, d);
    if j == 0 { assert d[0..] == d; }
    AssembledProof(FoldRoots(tail), acc, d, s, q);
  }

  lemma FileNonEmpty(nodes: Nodes, d: seq<Hash>)
    requires FileOf(nodes, d)
    ensures |d| > 0
  {
  }

  /** The root of segment `q` seen from an aligned offset. */
  lemma SegmentIs(d: seq<Hash>, s: nat, q: nat, off: nat)
    requires off <= |d| && Aligned(off, s) && Shr(off, s) <= q < |Segs(d, s)|
    ensures q - Shr(off, s) < |Segs(d[off..], s)|
    ensures Segs(d[off..], s)[q - Shr(off, s)] == Segs(d, s)[q]
  {
    assert d == d[..off] + d[off..];
    SegsSplit(d[..off], d[off..], s);
  }

  /** A segment root with its whole audit path and the root makes the proof of that segment. */
  lemma AssembledProof(leaf: Hash, steps: seq<Step>, d: seq<Hash>, s: nat, q: nat)
    requires |d| > 0 && q < |Segs(d, s)| && leaf == Segs(d, s)[q] && steps == AuditPath(q, Segs(d, s))
    ensures ProofOfLeaf(ProofVia(leaf, steps, Mth(d)), q, Segs(d, s))
  {
    hide Segs, Mth, AuditPath, Pow2;
    var e := Segs(d, s);
    SegsMth(d, s);
    var p := ProofVia(leaf, steps, Mth(d));
    if |e| == 1 {
      SingleSegment(e);
      assert p.lemmas == [leaf] && p.path == [];
    } else {
      SplitPathNonEmpty(q, e);
      assert |Turns(steps)| > 0;
      assert LightSteps(p) == steps;
    }
  }

  lemma SingleSegment(e: seq<Hash>)
    requires |e| == 1
    ensures AuditPath(0, e) == [] && Mth(e) == e[0]
  {
  }

  /** `log2_pow2`: the number of trailing zero bits. */
  function TrailingZeros(n: nat): nat
    requires n > 0
  {
    if n % 2 == 1 then 0 else 1 + TrailingZeros(n / 2)
  }

  lemma TrailingZerosOfPow2(s: nat)
    ensures TrailingZeros(Pow2(s)) == s
  {
    TrailingZerosAre(Pow2(s), s, 1);
  }

  /** What precedes the lowest set bit: n is an odd number times two to that power. */
  lemma {:induction false} TrailingZerosAre(n: nat, s: nat, odd: nat)
    requires odd % 2 == 1 && n == Pow2(s) * odd && n > 0
    ensures TrailingZeros(n) == s
  {
    hide Pow2, TrailingZeros;
    if s == 0 {
      Pow2Zero();
      TrailingOfOdd(n);
    } else {
      DoubleProduct(s, odd);
      TrailingZerosAre(n / 2, s - 1, odd);
      TrailingOfDouble(n / 2);
    }
  }

  lemma Pow2Zero()
    ensures Pow2(0) == 1
  {
  }

  lemma DoubleProduct(s: nat, k: nat)
    requires s > 0
    ensures Pow2(s) * k == 2 * (Pow2(s - 1) * k)
  {
    hide TrailingZeros;
  }

  lemma TrailingOfOdd(n: nat)
    requires n % 2 == 1
    ensures TrailingZeros(n) == 0
  {
  }

  lemma TrailingOfDouble(n: nat)
    requires n > 0
    ensures TrailingZeros(2 * n) == 1 + TrailingZeros(n)
  {
  }

  lemma Prepend(x: Step, acc: seq<Step>)
    ensures Reverse(Sibs([x] + acc)) == Reverse(Sibs(acc)) + [x.sibling]
    ensures Reverse(Turns([x] + acc)) == Reverse(Turns(acc)) + [x.isLeft]
  {
  }

  lemma BottomUp(leaf: Hash, steps: seq<Step>, root: Hash)
    ensures Reverse([root] + Reverse(Sibs(steps)) + [leaf]) == [leaf] + Sibs(steps) + [root]
    ensures Reverse(Reverse(Turns(steps))) == Turns(steps)
  {
  }

  lemma NoSteps()
    ensures Reverse(Sibs([])) == [] && Reverse(Turns([])) == []
  {
  }

  lemma InList(nodes: Nodes, d: seq<Hash>, s: nat, q: nat, j: nat, off: nat, acc: seq<Step>)
    requires AtNode(nodes, d, s, q, j, off, acc)
    ensures j < |nodes|
    ensures forall i :: 0 <= i < j ==> nodes[i].0 - 1 >= s
  {
  }

  lemma {:induction false} DeeperFirst(nodes: Nodes, d: seq<Hash>, i: nat, k: nat)
    requires FileOf(nodes, d) && i < k < |nodes|
    ensures nodes[i].0 > nodes[k].0
    decreases i
  {
    if i == 0 {
      Decreasing(nodes, d, k);
    } else {
      DeeperFirst(nodes[1..], d[Pow2(nodes[0].0 - 1)..], i - 1, k - 1);
    }
  }

  /** The nodes shallower than node `j` are exactly those after it. */
  lemma Shallower(nodes: Nodes, d: seq<Hash>, j: nat)
    requires FileOf(nodes, d) && j < |nodes|
    ensures forall i :: 0 <= i < j + 1 ==> nodes[i].0 >= nodes[j].0
    ensures forall i :: j + 1 <= i < |nodes| ==> nodes[i].0 < nodes[j].0
  {
    hide FileOf;
    forall i | 0 <= i < j ensures nodes[i].0 > nodes[j].0 { DeeperFirst(nodes, d, i, j); }
    forall i | j < i < |nodes| ensures nodes[j].0 > nodes[i].0 { DeeperFirst(nodes, d, j, i); }
  }

  /** The loop over the nodes: stop at the one that holds the segment, or at the first smaller one. */
  method FindNode(tx: Transaction, start: nat, c: nat, ghost s: nat, ghost d: seq<Hash>, ghost q: nat)
    returns (found: bool, lemmas: seq<Hash>, path: seq<bool>, j: nat, ghost off: nat, ghost acc: seq<Step>)
    requires c == Pow2(s) && FileOf(tx.merkleNodes, d)
    requires q < |Segs(d, s)| && start == q * c
    ensures AtNode(tx.merkleNodes, d, s, q, j, off, acc) && j < |tx.merkleNodes| && tx.merkleNodes[j].0 >= 1
    ensures lemmas == [tx.dataMerkleRoot] + Reverse(Sibs(acc)) && path == Reverse(Turns(acc))
    ensures found ==> s <= tx.merkleNodes[j].0 - 1 && q < Shr(off + Pow2(tx.merkleNodes[j].0 - 1), s)
    ensures !found ==> tx.merkleNodes[j].0 - 1 < s
  {
    hide FileOf, Segs, AtNode, Pow2, Shr, NodeChunks, Sibs, Turns, Reverse;
    lemmas := [tx.dataMerkleRoot];
    path := [];
    found := false;
    var total: nat := 0;
    j := 0;
    acc := [];
    AtFirstNode(tx.merkleNodes, d, s, q);
    NoSteps();
    while j < |tx.merkleNodes|
      invariant AtNode(tx.merkleNodes, d, s, q, j, total, acc)
      invariant lemmas == [tx.dataMerkleRoot] + Reverse(Sibs(acc)) && path == Reverse(Turns(acc))
      invariant !found
    {
      Compare(tx.merkleNodes, d, s, q, j, total, acc);
      var depth, root := tx.merkleNodes[j].0, tx.merkleNodes[j].1;
      var chunks := NodeChunks(depth);
      if chunks < c {
        break;
      }
      if start < total + chunks {
        found := true;
        break;
      }
      AtNextNode(tx.merkleNodes, d, s, q, j, total, acc);
      total := total + chunks;
      Prepend(Step(root, false), acc);
      acc := [Step(root, false)] + acc;
      lemmas := lemmas + [root];
      path := path + [false];
      j := j + 1;
    }
    InList(tx.merkleNodes, d, s, q, j, total, acc);
    Compare(tx.merkleNodes, d, s, q, j, total, acc);
    off := total;
  }

  method ComputeNodeProof(tx: Transaction, start: nat, c: nat, ghost s: nat, ghost d: seq<Hash>, ghost q: nat)
    returns (proof: LightProof, leaf: NodeLeaf, ghost off: nat, ghost outer: seq<Step>)
    requires c == Pow2(s) && FileOf(tx.merkleNodes, d) && tx.dataMerkleRoot == FoldRoots(tx.merkleNodes)
    requires q < |Segs(d, s)| && start == q * c
    ensures leaf.Partial? ==> ProofOfLeaf(proof, q, Segs(d, s))
    ensures leaf.Full? ==> InNode(d, s, q, leaf.depth, off, outer) && leaf.depth <= tx.merkleNodes[0].0
    ensures leaf.Full? ==> proof == ProofVia(Mth(d[off..off + Pow2(leaf.depth - 1)]), outer, Mth(d))
  {
    hide FileOf, FoldRoots, Segs, AtNode, InNode, Mth, Pow2, Shr, ProofOfLeaf, Sibs, Turns, Reverse, TrailingZeros, NewFileProof;
    FoldIsMth(tx.merkleNodes, d);
    var found, lemmas, path, j;
    ghost var acc;
    found, lemmas, path, j, off, acc := FindNode(tx, start, c, s, d, q);
    outer := acc;
    Shallower(tx.merkleNodes, d, j);
    assert tx.merkleNodes[0].0 >= tx.merkleNodes[j].0;
    if found {
      ShallowAre(tx.merkleNodes, tx.merkleNodes[j].0, j + 1, |tx.merkleNodes|);
      var right := ComputeMerkleRoot(tx.merkleNodes, tx.merkleNodes[j].0);
      FoundNode(tx.merkleNodes, d, s, q, j, off, acc, right);
      if right.Some? {
        Prepend(Step(right.value, true), acc);
        outer := [Step(right.value, true)] + acc;
        lemmas := lemmas + [right.value];
        path := path + [true];
      } else {
        assert [] + acc == acc;
      }
      assert lemmas == [tx.dataMerkleRoot] + Reverse(Sibs(outer));
      lemmas := lemmas + [tx.merkleNodes[j].1];
      leaf := Full(tx.merkleNodes[j].0);
      BottomUp(tx.merkleNodes[j].1, outer, tx.dataMerkleRoot);
    } else {
      InList(tx.merkleNodes, d, s, q, j, off, acc);
      TrailingZerosOfPow2(s);
      ShallowAre(tx.merkleNodes, TrailingZeros(c) + 1, j, |tx.merkleNodes|);
      var right := ComputeMerkleRoot(tx.merkleNodes, TrailingZeros(c) + 1);
      lemmas := lemmas + [right.value];
      leaf := Partial;
      FoundLast(tx.merkleNodes, d, s, q, j, off, acc);
      BottomUp(right.value, acc, tx.dataMerkleRoot);
    }
    proof := NewFileProof(Reverse(lemmas), Reverse(path));
  }

  // ---------- The steps inside a node, taken from the flow proof ----------

  /** The file lies in the flow at an offset aligned for its largest node. */
  ghost predicate InFlow(nodes: Nodes, d: seq<Hash>, flow: seq<Hash>, flowStart: nat)
    requires |nodes| > 0
  {
    && nodes[0].0 >= 1
    && Aligned(flowStart, nodes[0].0 - 1)
    && flowStart + |d| <= |flow| && flow[flowStart..flowStart + |d|] == d
  }

  /** An accepted flow proof for chunk `p`, as deep as the flow tree. */
  ghost predicate FlowProofFor(fp: Proof, flow: seq<Hash>, p: nat) {
    && Shaped(fp) && p < |flow| <= Pow2(|fp.path|)
    && Accepts(fp, flow[p], p)
    && fp.lemmas[|fp.lemmas| - 1] == Node(flow, 0, |fp.path|, 0)
  }

  /** Inside an aligned block the flow tree is the tree of the block. */
  lemma BlockNode(flow: seq<Hash>, at: nat, block: seq<Hash>, b: nat, h: nat, y: nat)
    requires at + |block| <= |flow| && flow[at..at + |block|] == block
    requires |block| == Pow2(b) && Aligned(at, b) && h <= b && y < Pow2(b - h)
    ensures y < Len(|block|, h)
    ensures Node(flow, 0, h, Shr(at, h) + y) == Sub(block, h, y)
  {
    var left, right := flow[..at], flow[at + |block|..];
    var tail := block + right;
    assert flow == left + tail;
    hide Node, Sub, Shr, Len, Pow2, Aligned;
    NodeShift(left, tail, 0, b, h, y);
    Pow2Len(b, h);
    assert tail[..|block|] == block[..|block|];
    NodePrefix(tail, block, 0, |block|, h, y);
    PerfectNode(block, b, h, y);
  }

  lemma {:induction false} ShrOfSum(at: nat, x: nat, b: nat, h: nat)
    requires Aligned(at, b) && h <= b
    ensures Shr(at + x, h) == Shr(at, h) + Shr(x, h)
  {
    if h > 0 {
      ShrOfSum(at, x, b, h - 1);
      AlignedHalf(at, b, h);
    }
  }

  /** Layer `h` of the flow proof of a chunk inside the block is a step of the block's own tree. */
  lemma FlowStep(fp: Proof, flow: seq<Hash>, at: nat, block: seq<Hash>, b: nat, x: nat, h: nat)
    requires FlowProofFor(fp, flow, at + x)
    requires at + |block| <= |flow| && flow[at..at + |block|] == block
    requires |block| == Pow2(b) && Aligned(at, b) && x < |block| && h < b
    ensures b <= |fp.path|
    ensures PerfectStep(Step(fp.lemmas[h + 1], fp.path[h]), block, h, x)
  {
    hide Node, Sub, Len, Pow2, Aligned, Shr, FlowProofFor;
    DeepEnough(fp, flow, at + x, b);
    FlowTrue(fp, flow, at + x, h);
    ShrOfSum(at, x, b, h);
    AlignedHalf(at, b, h + 1);
    SiblingInside(b, h, x);
    BlockNode(flow, at, block, b, h, Sibling(Shr(x, h)));
    SiblingShift(Shr(at, h), Shr(x, h));
  }

  lemma SiblingShift(a: nat, y: nat)
    requires a % 2 == 0
    ensures Sibling(a + y) == a + Sibling(y) && (a + y) % 2 == y % 2
  {
  }

  lemma DeepEnough(fp: Proof, flow: seq<Hash>, p: nat, b: nat)
    requires FlowProofFor(fp, flow, p) && Pow2(b) <= |flow|
    ensures Shaped(fp) && b <= |fp.path|
  {
    Pow2Le(b, |fp.path|);
  }

  /** Soundness of the flow proof, layer by layer. */
  lemma FlowTrue(fp: Proof, flow: seq<Hash>, p: nat, h: nat)
    requires FlowProofFor(fp, flow, p) && h < |fp.path|
    ensures fp.path[h] == (Shr(p, h) % 2 == 0) && fp.lemmas[h + 1] == Node(flow, 0, h, Sibling(Shr(p, h)))
  {
    hide Accepts, Node, Shr, Pow2;
    SingleSound(fp, flow[p], p, flow, 0);
    assert Steps(fp)[h] == Step(fp.lemmas[h + 1], fp.path[h]);
  }

  /** The steps that `compute_segment_proof_full` copies from the flow proof. */
  function FlowSlice(fp: Proof, from: nat, to: nat): (r: seq<Step>)
    requires Shaped(fp) && from <= to <= |fp.path|
    ensures |r| == to - from
    ensures forall k :: 0 <= k < |r| ==> r[k] == Step(fp.lemmas[from + k + 1], fp.path[from + k])
  {
    seq(to - from, k requires 0 <= k < to - from => Step(fp.lemmas[from + k + 1], fp.path[from + k]))
  }

  lemma FlowSliceIsAudit(fp: Proof, flow: seq<Hash>, at: nat, block: seq<Hash>, b: nat, x: nat, s: nat)
    requires FlowProofFor(fp, flow, at + x)
    requires at + |block| <= |flow| && flow[at..at + |block|] == block
    requires |block| == Pow2(b) && Aligned(at, b) && x < |block| && s <= b
    requires Shr(x, s) < |Segs(block, s)|
    ensures b <= |fp.path|
    ensures FlowSlice(fp, s, b) == AuditPath(Shr(x, s), Segs(block, s))
  {
    hide Segs, AuditPath, Sub, Node, Len, Pow2, Aligned, PerfectStep, FlowProofFor;
    DeepEnough(fp, flow, at + x, b);
    var q, e := Shr(x, s), Segs(block, s);
    BlockPath(block, b, s, q);
    var path, slice := AuditPath(q, e), FlowSlice(fp, s, b);
    forall i | 0 <= i < b - s ensures slice[i] == path[i] {
      FlowStep(fp, flow, at, block, b, x, s + i);
      SameStep(block, s, i, x, slice[i], path[i]);
    }
  }

  lemma SameStep(block: seq<Hash>, s: nat, i: nat, x: nat, a: Step, b: Step)
    requires PerfectStep(a, block, s + i, x)
    requires PerfectStep(b, Segs(block, s), i, Shr(x, s))
    ensures a == b
  {
    hide Segs, Sub;
    ShrSplit(x, s, i);
    SegsSub(block, s, i, Sibling(Shr(x, s + i)));
  }

  // ---------- The whole proof ----------

  function WithZeros(hashes: seq<Hash>, c: nat): seq<Hash> {
    hashes + (if |hashes| < c then seq(c - |hashes|, _ => ZeroLeaf) else [])
  }

  /** Hashes that do not fill a segment are followed by zero hashes; more than a segment stay as they are. */
  method ComputeSegmentRoot(hashes: seq<Hash>, c: nat) returns (root: Hash)
    requires |hashes| + c > 0 && forall i :: 0 <= i < |hashes| ==> hashes[i] != Default
    ensures |hashes| >= c ==> root == Mth(hashes)
    ensures forall s: nat :: c == Pow2(s) && |hashes| <= c ==> root == Node(hashes, 0, s, 0)
    ensures forall padded: seq<Hash> ::
              |padded| == c >= |hashes| && (forall i :: 0 <= i < c ==> padded[i] == if i < |hashes| then hashes[i] else ZeroLeaf) ==>
                root == Mth(padded)
  {
    hide Mth, Pow2, Node;
    var leaves := WithZeros(hashes, c);
    var tree := new MerkleTree(leaves);
    tree.RootIsMth(leaves);
    root := tree.Root();
    assert |hashes| >= c ==> leaves == hashes;
    forall s: nat | c == Pow2(s) && |hashes| <= c ensures root == Node(hashes, 0, s, 0) {
      RootIsMth(hashes, 0, s);
      assert leaves == Padded(hashes, 0, s);
    }
    forall padded: seq<Hash> | |padded| == c >= |hashes| && (forall i :: 0 <= i < c ==> padded[i] == if i < |hashes| then hashes[i] else ZeroLeaf)
      ensures root == Mth(padded)
    {
      assert padded == leaves;
    }
  }

  lemma {:induction false} AlignedSum(a: nat, c: nat, b: nat)
    requires Aligned(a, b) && Aligned(c, b)
    ensures Aligned(a + c, b)
    decreases b
  {
    if b > 0 {
      AlignedSum(a, c, b - 1);
      ShrOfSum(a, c, b - 1, b - 1);
    }
  }

  /** A segment inside a node is a segment of the node's block. */
  lemma SegInBlock(d: seq<Hash>, s: nat, q: nat, depth: nat, off: nat, outer: seq<Step>)
    requires InNode(d, s, q, depth, off, outer)
    ensures var block := d[off..off + Pow2(depth - 1)];
            Segs(d, s)[q] == Segs(block, s)[q - Shr(off, s)]
  {
    hide InNode, Segs, Mth, AuditPath, Pow2, Shr, Aligned;
    InNodeFacts(d, s, q, depth, off, outer);
    var b := depth - 1;
    var size := Pow2(b);
    AlignedWeaken(off, b, s);
    SegmentIs(d, s, q, off);
    var rest := d[off..];
    var block, tail := rest[..size], rest[size..];
    assert rest == block + tail && block == d[off..off + size];
    Pow2Aligned(b, s);
    SegsSplit(block, tail, s);
  }

  /** Positions inside the node: the chunk `x`, its flow position and its segment. */
  lemma Inside(d: seq<Hash>, s: nat, q: nat, depth: nat, off: nat, outer: seq<Step>)
    requires InNode(d, s, q, depth, off, outer)
    ensures off <= q * Pow2(s) && q * Pow2(s) + Pow2(s) <= off + Pow2(depth - 1) <= |d|
    ensures Shr(q * Pow2(s) - off, s) == q - Shr(off, s)
  {
    var b := depth - 1;
    hide InNode, Segs, Mth, AuditPath, Pow2, Aligned, Shr;
    InNodeFacts(d, s, q, depth, off, outer);
    AlignedWeaken(off, b, s);
    AlignedMul(off, s);
    AlignedSum(off, Pow2(b), s);
    AlignedMul(off + Pow2(b), s);
    Scale(Shr(off, s), q, Shr(off + Pow2(b), s), Pow2(s));
    ShrOfMultiple(q - Shr(off, s), s);
  }

  lemma Scale(o: nat, q: nat, e: nat, p: nat)
    requires o <= q < e
    ensures o * p <= q * p && q * p + p <= e * p && q * p - o * p == (q - o) * p
  {
    MulLe(p, o, q);
    MulLe(p, q + 1, e);
  }

  lemma InNodeFacts(d: seq<Hash>, s: nat, q: nat, depth: nat, off: nat, outer: seq<Step>)
    requires InNode(d, s, q, depth, off, outer)
    ensures depth >= 1 && s <= depth - 1 && off + Pow2(depth - 1) <= |d|
    ensures Aligned(off, depth - 1) && Aligned(Pow2(depth - 1), s)
    ensures q < |Segs(d, s)| && Shr(off, s) <= q < Shr(off + Pow2(depth - 1), s)
    ensures q - Shr(off, s) < |Segs(d[off..off + Pow2(depth - 1)], s)|
    ensures AuditPath(q, Segs(d, s)) == AuditPath(q - Shr(off, s), Segs(d[off..off + Pow2(depth - 1)], s)) + outer
  {
    hide Segs, AuditPath, Mth, Shr;
    Pow2Aligned(depth - 1, s);
  }

  lemma ShrOfMultiple(k: nat, s: nat)
    ensures Shr(k * Pow2(s), s) == k
  {
    ShrIsDiv(k * Pow2(s), s);
    assert k * Pow2(s) == Pow2(s) * k;
    DivUnique(k * Pow2(s), Pow2(s), k, 0);
  }

  /** A segment that lies in one node, proved inside the node by the flow proof. */
  lemma SplicedProof(d: seq<Hash>, s: nat, q: nat, depth: nat, off: nat, outer: seq<Step>,
                     nodes: Nodes, flow: seq<Hash>, flowStart: nat, fp: Proof, p: nat)
    requires InNode(d, s, q, depth, off, outer)
    requires |nodes| > 0 && InFlow(nodes, d, flow, flowStart) && depth <= nodes[0].0
    requires p == flowStart + q * Pow2(s) && FlowProofFor(fp, flow, p)
    ensures Shaped(fp) && s <= depth - 1 <= |fp.path| && q < |Segs(d, s)|
    ensures AuditPath(q, Segs(d, s)) == FlowSlice(fp, s, depth - 1) + outer
  {
    hide InNode, Segs, Mth, AuditPath, Pow2, Aligned, Shr, FlowProofFor, FlowSlice;
    InNodeFacts(d, s, q, depth, off, outer);
    Inside(d, s, q, depth, off, outer);
    var b := depth - 1;
    var size := Pow2(b);
    var block := d[off..off + size];
    var at, x := flowStart + off, q * Pow2(s) - off;
    AlignedWeaken(flowStart, nodes[0].0 - 1, b);
    AlignedSum(flowStart, off, b);
    SliceOfSlice(flow, flowStart, d, off, size);
    Pow2Positive(s);
    FlowSliceIsAudit(fp, flow, at, block, b, x, s);
    DeepEnough(fp, flow, at + x, b);
  }

  lemma SliceOfSlice(flow: seq<Hash>, from: nat, d: seq<Hash>, off: nat, size: nat)
    requires from + |d| <= |flow| && flow[from..from + |d|] == d && off + size <= |d|
    ensures flow[from + off..from + off + size] == d[off..off + size]
  {
    var a, b := flow[from + off..from + off + size], d[off..off + size];
    forall i | 0 <= i < size ensures a[i] == b[i] {
      assert d[off + i] == flow[from..from + |d|][off + i];
    }
  }

  lemma Pow2Positive(s: nat)
    ensures Pow2(s) > 0
  {
  }

  method ComputeSegmentProofFull(proof: LightProof, depth: nat, seg: SegmentData, c: nat,
                                 ghost s: nat, ghost d: seq<Hash>, ghost q: nat, ghost off: nat, ghost outer: seq<Step>,
                                 ghost nodes: Nodes, ghost flow: seq<Hash>, ghost flowStart: nat)
    returns (r: Result<LightProof>)
    requires c == Pow2(s) && depth >= 1 && off + Pow2(depth - 1) <= |d| && q < |Segs(d, s)|
    requires proof == ProofVia(Mth(d[off..off + Pow2(depth - 1)]), outer, Mth(d))
    requires |nodes| > 0 && InFlow(nodes, d, flow, flowStart) && depth <= nodes[0].0
    requires FlowProofFor(seg.flowProof, flow, flowStart + q * c)
    requires |seg.hashes| <= c && forall i :: 0 <= i < |seg.hashes| ==> seg.hashes[i] != Default
    requires Node(seg.hashes, 0, s, 0) == Segs(d, s)[q]
    requires InNode(d, s, q, depth, off, outer)
    ensures r.Ok? && ProofOfLeaf(r.value, q, Segs(d, s))
  {
    hide InNode, Segs, Mth, AuditPath, Pow2, Aligned, Shr, FlowProofFor, FlowSlice, InFlow, ProofOfLeaf, Sibs, Turns, TrailingZeros, Node;
    InNodeFacts(d, s, q, depth, off, outer);
    TrailingZerosOfPow2(s);
    var nodeDepth := depth - 1;
    var segmentDepth := TrailingZeros(c);
    SplicedProof(d, s, q, depth, off, outer, nodes, flow, flowStart, seg.flowProof, flowStart + q * Pow2(s));
    AssembledProof(Segs(d, s)[q], FlowSlice(seg.flowProof, s, depth - 1) + outer, d, s, q);
    if nodeDepth == segmentDepth {
      WholeNode(d, s, q, depth, off, outer, seg.flowProof);
      return Ok(proof);
    }
    if |seg.flowProof.path| < nodeDepth {
      return Err;
    }
    var segmentRoot := ComputeSegmentRoot(seg.hashes, c);
    var lemmas, path := CopyFlow(segmentRoot, seg.flowProof, segmentDepth, nodeDepth);
    if |proof.path| == 0 {
      lemmas := lemmas + [proof.lemmas[0]];
    } else {
      lemmas := lemmas + proof.lemmas[1..];
      path := path + proof.path;
    }
    OuterRoot(d, s, q, depth, off, outer);
    Spliced(segmentRoot, FlowSlice(seg.flowProof, s, depth - 1), outer, Mth(d[off..off + Pow2(depth - 1)]), Mth(d), proof, lemmas, path);
    return Ok(NewFileProof(lemmas, path));
  }

  lemma OuterRoot(d: seq<Hash>, s: nat, q: nat, depth: nat, off: nat, outer: seq<Step>)
    requires InNode(d, s, q, depth, off, outer)
    ensures |outer| == 0 ==> Mth(d[off..off + Pow2(depth - 1)]) == Mth(d)
    ensures |d| > 0
  {
  }

  method CopyFlow(segmentRoot: Hash, fp: Proof, from: nat, to: nat) returns (lemmas: seq<Hash>, path: seq<bool>)
    requires Shaped(fp) && from <= to <= |fp.path|
    ensures lemmas == [segmentRoot] + Sibs(FlowSlice(fp, from, to)) && path == Turns(FlowSlice(fp, from, to))
  {
    lemmas := [segmentRoot];
    path := [];
    ghost var slice := FlowSlice(fp, from, to);
    for i := from to to
      invariant lemmas == [segmentRoot] + Sibs(slice)[..i - from]
      invariant path == Turns(slice)[..i - from]
    {
      lemmas := lemmas + [fp.lemmas[i + 1]];
      path := path + [fp.path[i]];
    }
  }

  /** Joining the copied steps with the node proof gives the proof along both. */
  lemma Spliced(leaf: Hash, inner: seq<Step>, outer: seq<Step>, node: Hash, root: Hash, proof: LightProof,
                lemmas: seq<Hash>, path: seq<bool>)
    requires |inner| > 0 && proof == ProofVia(node, outer, root) && (outer == [] ==> node == root)
    requires |proof.path| == 0 ==> lemmas == [leaf] + Sibs(inner) + [proof.lemmas[0]] && path == Turns(inner)
    requires |proof.path| != 0 ==> lemmas == [leaf] + Sibs(inner) + proof.lemmas[1..] && path == Turns(inner) + proof.path
    ensures NewFileProof(lemmas, path) == ProofVia(leaf, inner + outer, root)
  {
    hide Sibs, Turns;
    JoinSteps(inner, outer);
    var all := ProofVia(leaf, inner + outer, root);
    if |outer| == 0 {
      assert [leaf] + Sibs(inner) + [root] == [leaf] + (Sibs(inner) + Sibs(outer)) + [root];
      assert Turns(inner) == Turns(inner) + Turns(outer);
    } else {
      assert proof.lemmas[1..] == Sibs(outer) + [root];
      assert [leaf] + Sibs(inner) + (Sibs(outer) + [root]) == [leaf] + (Sibs(inner) + Sibs(outer)) + [root];
    }
  }

  lemma JoinSteps(a: seq<Step>, b: seq<Step>)
    ensures Sibs(a + b) == Sibs(a) + Sibs(b) && Turns(a + b) == Turns(a) + Turns(b)
  {
  }

  /** A node that is exactly one segment. */
  lemma WholeNode(d: seq<Hash>, s: nat, q: nat, depth: nat, off: nat, outer: seq<Step>, fp: Proof)
    requires InNode(d, s, q, depth, off, outer) && s == depth - 1
    requires Shaped(fp) && s <= |fp.path|
    ensures Segs(d, s)[q] == Mth(d[off..off + Pow2(depth - 1)])
    ensures FlowSlice(fp, s, depth - 1) + outer == outer
  {
    hide InNode, Segs, Mth, AuditPath, Aligned, Shr;
    InNodeFacts(d, s, q, depth, off, outer);
    SegInBlock(d, s, q, depth, off, outer);
    var block := d[off..off + Pow2(s)];
    Pow2Len(s, s);
    SegsMth(block, s);
    SingleSegment(Segs(block, s));
    assert FlowSlice(fp, s, s) == [];
  }

  /** The root computed from the data of a segment inside the file is the segment's root. */
  lemma DataRoot(d: seq<Hash>, s: nat, q: nat, from: nat, hashes: seq<Hash>)
    requires from == q * Pow2(s) && q < |Segs(d, s)| && from + Pow2(s) <= |d| && Leaves(d)
    requires |hashes| <= Pow2(s) && forall i :: 0 <= i < |hashes| ==> hashes[i] == d[from + i]
    requires forall k :: from + |hashes| <= k < from + Pow2(s) ==> d[k] == ZeroLeaf
    ensures forall i :: 0 <= i < |hashes| ==> hashes[i] != Default
    ensures Node(hashes, 0, s, 0) == Segs(d, s)[q]
  {
    hide Mth, Sub, Pow2, Node, Padded, Leaves;
    SubIsMth(d, s, q, from);
    RootIsMth(hashes, 0, s);
    PaddedIsBlock(d, from, s, hashes);
    PartOfLeaves(d, from, hashes);
  }

  lemma PaddedIsBlock(d: seq<Hash>, from: nat, s: nat, hashes: seq<Hash>)
    requires from + Pow2(s) <= |d|
    requires |hashes| <= Pow2(s) && forall i :: 0 <= i < |hashes| ==> hashes[i] == d[from + i]
    requires forall k :: from + |hashes| <= k < from + Pow2(s) ==> d[k] == ZeroLeaf
    ensures Padded(hashes, 0, s) == d[from..from + Pow2(s)]
  {
    hide Pow2;
    var block := d[from..from + Pow2(s)];
    forall i | 0 <= i < Pow2(s) ensures Padded(hashes, 0, s)[i] == block[i] {
      assert block[i] == d[from + i];
    }
  }

  lemma PartOfLeaves(d: seq<Hash>, from: nat, hashes: seq<Hash>)
    requires Leaves(d) && from + |hashes| <= |d| && forall i :: 0 <= i < |hashes| ==> hashes[i] == d[from + i]
    ensures forall i :: 0 <= i < |hashes| ==> hashes[i] != Default
  {
  }

  lemma SegmentIndex(d: seq<Hash>, s: nat, start: nat) returns (q: nat)
    requires start < |d| && start % Pow2(s) == 0
    ensures q == start / Pow2(s) && q < |Segs(d, s)| && q * Pow2(s) == start
  {
    InLayers(|d|, start, s);
    ShrIsDiv(start, s);
    hide Pow2, Shr, Len;
    var p := Pow2(s);
    q := start / p;
    assert start == p * q + start % p;
    assert p * q == q * p;
  }

  /** The part of `compute_segment_proof` after the index checks, for segment `q`. */
  method ProveSegment(tx: Transaction, seg: SegmentData, c: nat,
                      ghost s: nat, ghost d: seq<Hash>, ghost flow: seq<Hash>, ghost flowStart: nat, ghost q: nat)
    returns (r: Result<LightProof>)
    requires c == Pow2(s) && Leaves(d) && seg.startIndex == q * c && q < |Segs(d, s)|
    requires FileOf(tx.merkleNodes, d) && tx.dataMerkleRoot == FoldRoots(tx.merkleNodes)
    requires |tx.merkleNodes| > 0 && InFlow(tx.merkleNodes, d, flow, flowStart)
    requires FlowProofFor(seg.flowProof, flow, flowStart + q * c)
    requires seg.startIndex + c <= |d| ==>
               && |seg.hashes| <= c && (forall i :: 0 <= i < |seg.hashes| ==> seg.hashes[i] == d[seg.startIndex + i])
               && (forall k :: seg.startIndex + |seg.hashes| <= k < seg.startIndex + c ==> d[k] == ZeroLeaf)
    ensures r.Ok? && ProofOfLeaf(r.value, q, Segs(d, s))
  {
    hide FileOf, InFlow, FlowProofFor, Node, Segs, ProofOfLeaf, InNode, FoldRoots, Mth, Pow2, Shr, Aligned, Leaves;
    var proof, leaf;
    ghost var off, outer;
    proof, leaf, off, outer := ComputeNodeProof(tx, seg.startIndex, c, s, d, q);
    if leaf.Partial? {
      return Ok(proof);
    }
    Inside(d, s, q, leaf.depth, off, outer);
    InNodeFacts(d, s, q, leaf.depth, off, outer);
    DataRoot(d, s, q, seg.startIndex, seg.hashes);
    r := ComputeSegmentProofFull(proof, leaf.depth, seg, c, s, d, q, off, outer, tx.merkleNodes, flow, flowStart);
  }

  /**
   `compute_segment_proof`. For a file in the flow, a segment of `2^s` chunks and an accepted flow
   proof of its first chunk, the result is the proof of that segment in the tree of segment roots,
   and it is accepted for the file root, the segment index and the number of segments.
   */
  method ComputeSegmentProof(tx: Transaction, seg: SegmentData, c: nat,
                             ghost s: nat, ghost d: seq<Hash>, ghost flow: seq<Hash>, ghost flowStart: nat)
    returns (r: Result<LightProof>)
    requires c == Pow2(s) && Leaves(d)
    requires FileOf(tx.merkleNodes, d) && tx.dataMerkleRoot == FoldRoots(tx.merkleNodes)
    requires InFlow(tx.merkleNodes, d, flow, flowStart)
    requires seg.startIndex < |d| ==> FlowProofFor(seg.flowProof, flow, flowStart + seg.startIndex)
    requires seg.startIndex + c <= |d| ==>
               && |seg.hashes| <= c && (forall i :: 0 <= i < |seg.hashes| ==> seg.hashes[i] == d[seg.startIndex + i])
               && (forall k :: seg.startIndex + |seg.hashes| <= k < seg.startIndex + c ==> d[k] == ZeroLeaf)
    ensures r.Ok? <==> seg.startIndex % c == 0 && seg.startIndex < |d| && seg.startIndex + |seg.hashes| <= |d|
    ensures r.Ok? ==>
              var q := seg.startIndex / c;
              && q < |Segs(d, s)| && ProofOfLeaf(r.value, q, Segs(d, s))
              && FileAccepts(r.value, Segs(d, s)[q], tx.dataMerkleRoot, q, |Segs(d, s)|)
  {
    assert |tx.merkleNodes| > 0;
    hide FileOf, InFlow, FlowProofFor, Node, Segs, ProofOfLeaf, FileAccepts, InNode, FoldRoots, Mth, Pow2, Shr, Aligned, Leaves, Total;
    if seg.startIndex % c != 0 {
      return Err;
    }
    FileTotal(tx.merkleNodes, d);
    var total := NumEntries(tx.merkleNodes);
    if seg.startIndex >= total {
      return Err;
    }
    if seg.startIndex + |seg.hashes| > total {
      return Err;
    }
    ghost var q := SegmentIndex(d, s, seg.startIndex);
    r := ProveSegment(tx, seg, c, s, d, flow, flowStart, q);
    Accepted(tx, d, s, q, r.value);
  }

  lemma Accepted(tx: Transaction, d: seq<Hash>, s: nat, q: nat, p: LightProof)
    requires FileOf(tx.merkleNodes, d) && tx.dataMerkleRoot == FoldRoots(tx.merkleNodes)
    requires q < |Segs(d, s)| && ProofOfLeaf(p, q, Segs(d, s))
    ensures FileAccepts(p, Segs(d, s)[q], tx.dataMerkleRoot, q, |Segs(d, s)|)
  {
    hide FileOf, Segs, ProofOfLeaf, FileAccepts, FoldRoots, Mth;
    FoldIsMth(tx.merkleNodes, d);
    SegsMth(d, s);
    FileProofExact(p, Segs(d, s)[q], q, Segs(d, s));
  }
}
