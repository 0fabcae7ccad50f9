/**
 Reading a tree: the live layers, or an old version seen through the right-most nodes recorded at
 its commit. `gen_proof` runs on either view.
 */
module TreeRead {
  import opened Bits
  import opened Hashing
  import opened Wrappers
  import opened Rfc6962
  import opened PaddedTree
  import opened Layers
  import opened AppendProofs

  /** For every layer of a committed version its last index and last node. */
  datatype DeltaNodes = DeltaNodes(rightMost: seq<(nat, Hash)>) {

    function Get(height: nat, position: nat): (r: Result<Option<Hash>>)
      ensures r.Err? <==> height >= |rightMost| || position > rightMost[height].0
      ensures r.Ok? && r.value.Some? <==> height < |rightMost| && position == rightMost[height].0
      ensures r.Ok? && r.value.Some? ==> r.value.value == rightMost[height].1
    {
      if height >= |rightMost| || position > rightMost[height].0 then Err
      else if position == rightMost[height].0 then Ok(Some(rightMost[height].1))
      else Ok(None)
    }

    function Height(): nat {
      |rightMost|
    }
  }

  datatype TreeView =
    | Live(layers: Layers, leafHeight: nat)
    | History(layers: Layers, delta: DeltaNodes, leafHeight: nat)
  {
    function Height(): nat {
      if Live? then |layers| else delta.Height()
    }

    function LayerLen(h: nat): nat
      requires h < Height()
    {
      if Live? then |layers[h]| else delta.rightMost[h].0 + 1
    }

    /** Every old node left of the recorded ones can be looked up in the live layers. */
    predicate Covers() {
      History? ==>
        && delta.Height() <= |layers|
        && forall h :: 0 <= h < delta.Height() ==> delta.rightMost[h].0 <= |layers[h]|
    }

    function NodeAt(h: nat, i: nat): Hash
      requires Covers() && h < Height() && i < LayerLen(h)
    {
      if Live? then layers[h][i]
      else
        match delta.Get(h, i)
        case Ok(Some(node)) => node
        case Ok(None) => layers[h][i]
        case Err => Null
    }

    function PaddingNode(h: nat): Hash {
      EndPad(h + leafHeight)
    }

    function Root(): Hash
      requires Covers() && Height() > 0 && LayerLen(Height() - 1) > 0
    {
      NodeAt(Height() - 1, 0)
    }
  }

  /** A view shows exactly the layers `ls`. */
  ghost predicate Shows(v: TreeView, ls: Layers) {
    && v.Covers()
    && v.Height() == |ls|
    && (forall h :: 0 <= h < |ls| ==> v.LayerLen(h) == |ls[h]|)
    && (forall h, i :: 0 <= h < |ls| && 0 <= i < |ls[h]| ==> v.NodeAt(h, i) == ls[h][i])
  }

  /** The sibling that a proof needs beside node `j` of layer `h`. */
  function SiblingNode(ls: Layers, lh: nat, h: nat, j: nat): Hash
    requires h < |ls| && j < |ls[h]|
  {
    if j % 2 == 1 then ls[h][j - 1]
    else if j + 1 == |ls[h]| then EndPad(h + lh)
    else ls[h][j + 1]
  }

  ghost predicate OnPath(ls: Layers, i: nat) {
    forall h :: 0 <= h < |ls| ==> Shr(i, h) < |ls[h]|
  }

  lemma PathInside(ls: Layers, n: nat, base: nat, i: nat)
    requires Sized(ls, n, base) && i < n
    ensures OnPath(ls, i)
    ensures |ls[|ls| - 1]| == 1
  {
    forall h | 0 <= h < |ls| ensures Shr(i, h) < |ls[h]| {
      LenBounds(n, h);
      ShrMono(i, n - 1, h);
    }
  }

  /** The proof that `gen_proof` assembles for leaf `i`. */
  ghost predicate ProofFor(p: Proof, ls: Layers, lh: nat, i: nat)
    requires |ls| >= 1 && OnPath(ls, i)
  {
    && Shaped(p)
    && |p.path| == |ls| - 1
    && p.lemmas[0] == ls[0][i]
    && p.lemmas[|ls|] == ls[|ls| - 1][0]
    && PathOf(p.path, i)
    && (forall h :: 0 <= h < |ls| - 1 ==> p.lemmas[h + 1] == SiblingNode(ls, lh, h, Shr(i, h)))
  }

  /** The sibling of node `index` in layer `height`, padded at the right edge. */
  method SiblingStep(v: TreeView, height: nat, index: nat, ghost ls: Layers) returns (isLeft: bool, sibling: Hash)
    requires Shows(v, ls) && height < |ls| && index < |ls[height]|
    ensures isLeft == (index % 2 == 0)
    ensures sibling == SiblingNode(ls, v.leafHeight, height, index)
  {
    hide TreeView.NodeAt, EndPad;
    if index % 2 == 0 {
      isLeft := true;
      if index + 1 == v.LayerLen(height) {
        sibling := v.PaddingNode(height);
      } else {
        sibling := v.NodeAt(height, index + 1);
      }
    } else {
      isLeft := false;
      sibling := v.NodeAt(height, index - 1);
    }
  }

  method GenProof(v: TreeView, leafIndex: nat, ghost ls: Layers, ghost t: seq<Hash>, ghost base: nat)
    returns (r: Result<Proof>)
    requires Shows(v, ls) && WellFormed(ls, t, v.leafHeight, base)
    ensures r.Ok? <==> leafIndex < |t| && ls[0][leafIndex] != Null
    ensures r.Ok? ==> OnPath(ls, leafIndex) && ProofFor(r.value, ls, v.leafHeight, leafIndex)
  {
    if leafIndex >= v.LayerLen(0) {
      return Err;
    }
    if v.NodeAt(0, leafIndex) == Null {
      return Err;
    }
    PathInside(ls, |t|, base, leafIndex);
    if v.Height() == 1 {
      return Ok(Proof([v.Root(), v.Root()], []));
    }
    var p := ClimbPath(v, leafIndex, ls);
    r := Ok(p);
  }

  /** The loop of `gen_proof` for a tree with more than one layer. */
  method ClimbPath(v: TreeView, leafIndex: nat, ghost ls: Layers) returns (p: Proof)
    requires Shows(v, ls) && |ls| > 1 && OnPath(ls, leafIndex) && |ls[|ls| - 1]| == 1
    ensures ProofFor(p, ls, v.leafHeight, leafIndex)
  {
    hide SiblingNode, EndPad, TreeView.NodeAt, TreeView.Covers;
    var lemmas := [v.NodeAt(0, leafIndex)];
    var path: seq<bool> := [];
    var index := leafIndex;
    assert Shr(leafIndex, 0) == leafIndex;
    for height := 0 to v.Height() - 1
      invariant index == Shr(leafIndex, height)
      invariant |lemmas| == height + 1 && |path| == height
      invariant lemmas[0] == ls[0][leafIndex]
      invariant PathOf(path, leafIndex)
      invariant forall h :: 0 <= h < height ==> lemmas[h + 1] == SiblingNode(ls, v.leafHeight, h, Shr(leafIndex, h))
    {
      var isLeft, sibling := SiblingStep(v, height, index, ls);
      path := path + [isLeft];
      lemmas := lemmas + [sibling];
      index := index / 2;
    }
    p := Proof(lemmas + [v.Root()], path);
  }

  lemma FromWellFormed(ls: Layers, t: seq<Hash>, lh: nat, base: nat)
    requires WellFormed(ls, t, lh, base)
    ensures Sized(ls, |t|, base) && NoNulls(t) && AllGood(ls, t, lh) && EdgeKnown(ls, |t|)
  {
  }

  /** All siblings beside the path of leaf `i` are known. */
  ghost predicate SiblingsKnown(ls: Layers, lh: nat, i: nat)
    requires OnPath(ls, i)
  {
    forall h :: 0 <= h < |ls| - 1 ==> SiblingNode(ls, lh, h, Shr(i, h)) != Null
  }

  lemma SiblingIsNode(ls: Layers, t: seq<Hash>, lh: nat, h: nat, j: nat)
    requires h < |ls| && |ls[h]| == Len(|t|, h) && j < |ls[h]|
    requires AllGood(ls, t, lh) && NoNulls(t)
    ensures SiblingNode(ls, lh, h, j) == Node(t, lh, h, Sibling(j)) <==> SiblingNode(ls, lh, h, j) != Null
  {
    NodeNotNull(t, lh, h, Sibling(j));
    if j % 2 == 0 && j + 1 == |ls[h]| {
      NodeBeyond(t, lh, h, j + 1);
    } else {
      assert Good(ls[h][Sibling(j)], t, lh, h, Sibling(j));
    }
  }

  /**
   A generated proof is accepted for its leaf at its index, and nowhere else, exactly when every
   sibling on the way is known; its root is the root of the padded tree.
   */
  lemma GeneratedProofValid(p: Proof, ls: Layers, t: seq<Hash>, lh: nat, base: nat, i: nat, position: nat)
    requires WellFormed(ls, t, lh, base)
    requires i < |t| && ls[0][i] != Null
    requires OnPath(ls, i) && ProofFor(p, ls, lh, i)
    ensures p.lemmas[|p.lemmas| - 1] == Node(t, lh, |p.path|, 0)
    ensures p.lemmas[0] == t[i]
    ensures Accepts(p, t[i], position) <==> position == i && SiblingsKnown(ls, lh, i)
  {
    hide WellFormed, Accepts, SiblingNode;
    FromWellFormed(ls, t, lh, base);
    RootKnown(ls, t, lh, base);
    assert Good(ls[0][i], t, lh, 0, i);
    DepthHolds(ls, |t|, base, i);
    SingleComplete(p, t, lh, i, position);
    StepsTrueIffKnown(p, ls, t, lh, i);
  }

  lemma DepthHolds(ls: Layers, n: nat, base: nat, i: nat)
    requires Sized(ls, n, base) && i < n
    ensures i < Pow2(|ls| - 1)
  {
    LenBounds(n, |ls| - 1);
    ShrMono(i, n - 1, |ls| - 1);
    ShrZero(i, |ls| - 1);
  }

  lemma StepTrueIffKnown(p: Proof, ls: Layers, t: seq<Hash>, lh: nat, i: nat, h: nat)
    requires |ls| >= 1 && OnPath(ls, i) && ProofFor(p, ls, lh, i)
    requires AllGood(ls, t, lh) && NoNulls(t)
    requires h < |ls| - 1 && |ls[h]| == Len(|t|, h)
    ensures Steps(p)[h].sibling == Node(t, lh, h, Sibling(Shr(i, h))) <==> SiblingNode(ls, lh, h, Shr(i, h)) != Null
    ensures Steps(p)[h].isLeft == (Shr(i, h) % 2 == 0)
  {
    hide Node, AllGood, SiblingNode, Len;
    assert Steps(p)[h] == Step(p.lemmas[h + 1], p.path[h]);
    SiblingIsNode(ls, t, lh, h, Shr(i, h));
  }

  lemma StepsTrueIffKnown(p: Proof, ls: Layers, t: seq<Hash>, lh: nat, i: nat)
    requires |ls| >= 1 && OnPath(ls, i) && ProofFor(p, ls, lh, i)
    requires AllGood(ls, t, lh) && NoNulls(t)
    requires forall h :: 0 <= h < |ls| ==> |ls[h]| == Len(|t|, h)
    ensures TrueSteps(Steps(p), t, lh, i) <==> SiblingsKnown(ls, lh, i)
  {
    hide Node, AllGood, SiblingNode, Shr, Len, Sibling, NoNulls, Steps, PathOf;
    assert |Steps(p)| == |ls| - 1 by { StepsLen(p); }
    forall h | 0 <= h < |ls| - 1
      ensures Steps(p)[h].sibling == Node(t, lh, h, Sibling(Shr(i, h))) <==> SiblingNode(ls, lh, h, Shr(i, h)) != Null
      ensures Steps(p)[h].isLeft == (Shr(i, h) % 2 == 0)
    {
      StepTrueIffKnown(p, ls, t, lh, i, h);
    }
  }

  lemma StepsLen(p: Proof)
    requires Shaped(p)
    ensures |Steps(p)| == |p.path|
  {
  }

  lemma FullyKnownSiblings(ls: Layers, lh: nat, i: nat)
    requires FullyKnown(ls) && OnPath(ls, i)
    ensures SiblingsKnown(ls, lh, i)
  {
  }
}
