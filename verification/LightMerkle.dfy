/**
 `MerkleTree` of merkle_light: all layers in one array. A last node without a sibling is not stored
 again but linked, through `linkMap`, to the place where its hash already stands.
 */
module LightMerkle {
  import opened Bits
  import opened Hashing
  import opened Wrappers
  import opened Rfc6962
  import opened LightShape

  function Even(x: nat): nat {
    x + x % 2
  }

  /** Where layer `h` starts: every layer below it is filled up to an even number of nodes. */
  function Off(n: nat, h: nat): nat {
    if h == 0 then 0 else Off(n, h - 1) + Even(Len(n, h - 1))
  }

  /** The node has a hash of its own, because it is a leaf or has two children. */
  predicate Real(n: nat, h: nat, i: nat) {
    h == 0 || 2 * i + 1 < Len(n, h - 1)
  }

  function Entry(d: seq<Hash>, h: nat, i: nat): Hash {
    if i < Len(|d|, h) && Real(|d|, h, i) then Sub(d, h, i) else Default
  }

  /** The place where the hash of a node is stored. */
  function Source(n: nat, h: nat, i: nat): nat {
    if h == 0 || Real(n, h, i) then Off(n, h) + i else Source(n, h - 1, 2 * i)
  }

  /** After layer `h`: the only node of a layer that can need a link is its last one. */
  predicate Linked(n: nat, h: nat, k: nat, i: nat) {
    k <= h && i + 1 == Len(n, k) && !Real(n, k, i) && (k == h || i % 2 == 1)
  }

  ghost predicate Leaves(d: seq<Hash>) {
    |d| > 0 && forall i :: 0 <= i < |d| ==> d[i] != Default
  }

  /** How many entries of layer `k` are stored when `h` is the top layer, padded or not. */
  function Stored(n: nat, h: nat, k: nat, padded: bool): nat {
    if k < h || padded then Even(Len(n, k)) else Len(n, k)
  }

  ghost predicate DataPos(data: seq<Hash>, d: seq<Hash>, h: nat, padded: bool, k: nat, i: nat) {
    k <= h && i < Stored(|d|, h, k, padded) ==>
      Off(|d|, k) + i < |data| && data[Off(|d|, k) + i] == Entry(d, k, i)
  }

  ghost predicate DataOk(data: seq<Hash>, d: seq<Hash>, h: nat, padded: bool) {
    && |data| == Off(|d|, h) + Stored(|d|, h, h, padded)
    && (forall k: nat, i: nat :: DataPos(data, d, h, padded, k, i))
  }

  ghost predicate LinkPos(links: map<nat, nat>, n: nat, h: nat, k: nat, i: nat) {
    k <= h && i < Even(Len(n, k)) ==>
      && (Off(n, k) + i in links <==> Linked(n, h, k, i))
      && (Linked(n, h, k, i) ==> links[Off(n, k) + i] == Source(n, k, i))
  }

  ghost predicate LinksOk(links: map<nat, nat>, n: nat, h: nat) {
    && (forall k: nat, i: nat :: LinkPos(links, n, h, k, i))
    && (forall key :: key in links ==> key < Off(n, h) + Len(n, h))
  }

  lemma {:induction false} OffMono(n: nat, k: nat, h: nat)
    requires k < h
    ensures Off(n, k) + Even(Len(n, k)) <= Off(n, h)
    decreases h
  {
    if k < h - 1 { OffMono(n, k, h - 1); }
  }

  lemma {:induction false} SubNotDefault(d: seq<Hash>, h: nat, i: nat)
    requires Leaves(d) && i < Len(|d|, h)
    ensures Sub(d, h, i) != Default
    decreases h
  {
    if h > 0 && !(2 * i + 1 < Len(|d|, h - 1)) { SubNotDefault(d, h - 1, 2 * i); }
  }

  lemma EntryNull(d: seq<Hash>, h: nat, i: nat)
    requires Leaves(d)
    ensures Entry(d, h, i) == Default <==> !(i < Len(|d|, h) && Real(|d|, h, i))
  {
    if i < Len(|d|, h) { SubNotDefault(d, h, i); }
  }

  /** Only a last node can lack a hash of its own. */
  lemma RealUnlessLast(n: nat, h: nat, i: nat)
    requires i + 1 < Len(n, h)
    ensures Real(n, h, i)
  {
  }

  /** Following a link leads to the hash of the node, which is not the null node. */
  lemma {:induction false} SourceHolds(data: seq<Hash>, d: seq<Hash>, h: nat, padded: bool, k: nat, i: nat)
    requires Leaves(d) && DataOk(data, d, h, padded)
    requires k <= h && i < Len(|d|, k)
    ensures Source(|d|, k, i) < |data| && data[Source(|d|, k, i)] == Sub(d, k, i) != Default
    decreases k
  {
    hide DataOk;
    SubNotDefault(d, k, i);
    if k > 0 && !Real(|d|, k, i) {
      SourceHolds(data, d, h, padded, k - 1, 2 * i);
    } else {
      StoredAt(data, d, h, padded, k, i);
    }
  }

  lemma StoredAt(data: seq<Hash>, d: seq<Hash>, h: nat, padded: bool, k: nat, i: nat)
    requires DataOk(data, d, h, padded) && k <= h && i < Stored(|d|, h, k, padded)
    ensures Off(|d|, k) + i < |data| && data[Off(|d|, k) + i] == Entry(d, k, i)
  {
    assert DataPos(data, d, h, padded, k, i);
  }

  // ---------- One layer ----------

  datatype LinkUpdate = LinkUpdate(from: nat, to: nat, remove: Option<nat>)

  /** The link that node `j` of layer `h + 1` needs. */
  function UpdateFor(n: nat, h: nat, j: nat): Option<LinkUpdate> {
    if Real(n, h + 1, j) then None
    else Some(LinkUpdate(Off(n, h + 1) + j, Source(n, h, 2 * j), if Real(n, h, 2 * j) then None else Some(Off(n, h) + 2 * j)))
  }

  function ApplyLink(links: map<nat, nat>, u: Option<LinkUpdate>): map<nat, nat> {
    match u
    case None => links
    case Some(LinkUpdate(from, to, None)) => links[from := to]
    case Some(LinkUpdate(from, to, Some(k))) => links[from := to] - {k}
  }

  lemma LinkAt(links: map<nat, nat>, n: nat, h: nat, k: nat, i: nat)
    requires LinksOk(links, n, h) && k <= h && i < Even(Len(n, k))
    ensures Off(n, k) + i in links <==> Linked(n, h, k, i)
    ensures Linked(n, h, k, i) ==> links[Off(n, k) + i] == Source(n, k, i)
  {
    assert LinkPos(links, n, h, k, i);
  }

  lemma NotYet(links: map<nat, nat>, n: nat, h: nat, i: nat)
    requires LinksOk(links, n, h)
    ensures Off(n, h + 1) + i !in links
  {
  }

  /** Positions below the last layer keep their link. */
  lemma StepOlder(links: map<nat, nat>, n: nat, h: nat, j: nat, k: nat, i: nat)
    requires n > 0 && LinksOk(links, n, h) && j + 1 == Len(n, h + 1) && Len(n, h) > 1
    requires k < h && i < Even(Len(n, k))
    ensures LinkPos(ApplyLink(links, UpdateFor(n, h, j)), n, h + 1, k, i)
  {
    hide Off, Len, LinksOk, Source, Real;
    LinkAt(links, n, h, k, i);
    OffMono(n, k, h + 1);
    OffMono(n, k, h);
  }

  /** In the last layer a left child hands its link up; a right child keeps it. */
  lemma StepLast(links: map<nat, nat>, n: nat, h: nat, j: nat, i: nat)
    requires n > 0 && LinksOk(links, n, h) && j + 1 == Len(n, h + 1) && Len(n, h) > 1
    requires i < Even(Len(n, h))
    ensures LinkPos(ApplyLink(links, UpdateFor(n, h, j)), n, h + 1, h, i)
  {
    assert Len(n, h + 1) == (Len(n, h) + 1) / 2 && Real(n, h + 1, j) == (2 * j + 1 < Len(n, h));
    hide Off, Len, LinksOk, Source;
    LinkAt(links, n, h, h, i);
    OffMono(n, h, h + 1);
    if Real(n, h + 1, j) {
      assert ApplyLink(links, UpdateFor(n, h, j)) == links;
    } else {
      assert 2 * j + 1 == Len(n, h);
      LinkAt(links, n, h, h, 2 * j);
    }
  }

  lemma StepNew(links: map<nat, nat>, n: nat, h: nat, j: nat, i: nat)
    requires n > 0 && LinksOk(links, n, h) && j + 1 == Len(n, h + 1) && Len(n, h) > 1
    requires i < Even(Len(n, h + 1))
    ensures LinkPos(ApplyLink(links, UpdateFor(n, h, j)), n, h + 1, h + 1, i)
  {
    NotYet(links, n, h, i);
    OffMono(n, h, h + 1);
    assert 2 * j < Len(n, h) && Len(n, h) <= Even(Len(n, h));
    assert !Real(n, h + 1, j) ==> Source(n, h + 1, j) == Source(n, h, 2 * j);
    if i != j {
      if i < j { RealUnlessLast(n, h + 1, i); }
    }
    hide Off, Len, LinksOk, Source;
  }

  lemma LinksStep(links: map<nat, nat>, n: nat, h: nat, j: nat)
    requires n > 0 && LinksOk(links, n, h) && j + 1 == Len(n, h + 1) && Len(n, h) > 1
    ensures LinksOk(ApplyLink(links, UpdateFor(n, h, j)), n, h + 1)
  {
    var next := ApplyLink(links, UpdateFor(n, h, j));
    forall key | key in next ensures key < Off(n, h + 1) + Len(n, h + 1) {
    }
    var g := h + 1;
    forall k: nat, i: nat ensures LinkPos(next, n, g, k, i) {
      if k < h && i < Even(Len(n, k)) {
        StepOlder(links, n, h, j, k, i);
      } else if k == h && i < Even(Len(n, k)) {
        StepLast(links, n, h, j, i);
      } else if k == h + 1 && i < Even(Len(n, k)) {
        StepNew(links, n, h, j, i);
      }
    }
  }

  // ---------- The tree ----------

  lemma LastReal(d: seq<Hash>, h: nat)
    requires Len(|d|, h) == 1 && (h > 0 ==> Len(|d|, h - 1) > 1)
    ensures Real(|d|, h, 0) && Entry(d, h, 0) == Sub(d, h, 0)
  {
  }

  /** Padding the top layer to an even number of nodes. */
  lemma PadData(data: seq<Hash>, d: seq<Hash>, h: nat)
    requires DataOk(data, d, h, false)
    ensures DataOk(data + (if Len(|d|, h) % 2 == 1 then [Default] else []), d, h, true)
  {
    hide Off, Len, Real, Sub, DataPos;
    var padded := data + (if Len(|d|, h) % 2 == 1 then [Default] else []);
    forall k: nat, i: nat ensures DataPos(padded, d, h, true, k, i) {
      PadPos(data, d, h, padded, k, i);
    }
  }

  lemma PadPos(data: seq<Hash>, d: seq<Hash>, h: nat, padded: seq<Hash>, k: nat, i: nat)
    requires DataOk(data, d, h, false)
    requires padded == data + (if Len(|d|, h) % 2 == 1 then [Default] else [])
    ensures DataPos(padded, d, h, true, k, i)
  {
    hide Off, Len, Real, Sub, DataOk;
    if k <= h && i < Stored(|d|, h, k, false) {
      StoredAt(data, d, h, false, k, i);
    } else if k == h && i < Stored(|d|, h, k, true) {
      assert i == Len(|d|, h);
      DataLen(data, d, h, false);
    }
  }

  lemma DataLen(data: seq<Hash>, d: seq<Hash>, h: nat, padded: bool)
    requires DataOk(data, d, h, padded)
    ensures |data| == Off(|d|, h) + Stored(|d|, h, h, padded)
  {
  }

  /** A finished layer on top of a padded one. */
  lemma NextData(data: seq<Hash>, layer: seq<Hash>, d: seq<Hash>, h: nat)
    requires DataOk(data, d, h, true)
    requires |layer| == Len(|d|, h + 1) && forall j :: 0 <= j < |layer| ==> layer[j] == Entry(d, h + 1, j)
    ensures DataOk(data + layer, d, h + 1, false)
  {
    var all, g := data + layer, h + 1;
    forall k: nat, i: nat ensures DataPos(all, d, g, false, k, i) {
      if k <= h && i < Stored(|d|, g, k, false) {
        StoredAt(data, d, h, true, k, i);
      } else if k == g && i < |layer| {
        assert all[Off(|d|, k) + i] == layer[i];
      }
    }
  }

  /** `lemmas` is the leaf, the siblings and the root, or only the root of a one-leaf tree. */
  datatype LightProof = LightProof(lemmas: seq<Hash>, path: seq<bool>)

  /** What `Proof::new` asserts. */
  predicate WellShaped(p: LightProof) {
    if |p.lemmas| > 2 then |p.lemmas| == |p.path| + 2 else |p.lemmas| == 1 && p.path == []
  }

  function LightSteps(p: LightProof): (r: seq<Step>)
    requires 2 <= |p.lemmas| <= |p.path| + 2
    ensures |r| == |p.lemmas| - 2
    ensures forall k :: 0 <= k < |r| ==> r[k] == Step(p.lemmas[k + 1], p.path[k])
  {
    seq(|p.lemmas| - 2, k requires 0 <= k < |p.lemmas| - 2 => Step(p.lemmas[k + 1], p.path[k]))
  }

  /** The verdict of the light `Proof::validate`. */
  predicate LightAccepts(p: LightProof)
    requires |p.lemmas| <= |p.path| + 2
  {
    if |p.lemmas| == 1 && p.path == [] then true
    else |p.lemmas| >= 2 && Climb(p.lemmas[0], LightSteps(p)) == p.lemmas[|p.lemmas| - 1]
  }

  method ValidateLight(p: LightProof) returns (ok: bool)
    requires |p.lemmas| <= |p.path| + 2
    ensures ok <==>
              || (|p.lemmas| == 1 && p.path == [])
              || (|p.lemmas| >= 2 && Climb(p.lemmas[0], LightSteps(p)) == p.lemmas[|p.lemmas| - 1])
    ensures ok <==> LightAccepts(p)
  {
    var size := |p.lemmas|;
    if size == 1 && |p.path| == 0 {
      return true;
    }
    if size < 2 {
      return false;
    }
    var h := p.lemmas[0];
    ghost var steps := LightSteps(p);
    for i := 1 to size - 1
      invariant h == Climb(p.lemmas[0], steps[..i - 1])
    {
      assert steps[..i][..i - 1] == steps[..i - 1];
      h := if p.path[i - 1] then Parent(h, p.lemmas[i]) else Parent(p.lemmas[i], h);
    }
    assert steps[..size - 2] == steps;
    return h == p.lemmas[size - 1];
  }

  class MerkleTree {
    var data: seq<Hash>
    var leafs: nat
    var linkMap: map<nat, nat>
    ghost var top: nat

    /** `data` and `linkMap` hold the tree over `d`, finished up to its single top node. */
    ghost predicate TreeOf(d: seq<Hash>)
      reads this
    {
      && Leaves(d) && leafs == |d|
      && Len(leafs, top) == 1 && (top > 0 ==> Len(leafs, top - 1) > 1)
      && DataOk(data, d, top, false) && LinksOk(linkMap, leafs, top)
    }

    /** `from_iter`: the hashes themselves are the leaves, as `leaf` returns them untouched. */
    constructor (leaves: seq<Hash>)
      requires Leaves(leaves)
      ensures TreeOf(leaves)
    {
      data := leaves;
      leafs := |leaves|;
      linkMap := map[];
      top := 0;
      new;
      Build(leaves);
    }

    method Build(ghost d: seq<Hash>)
      requires Leaves(d) && data == d && leafs == |d| && linkMap == map[] && top == 0
      modifies this
      ensures TreeOf(d)
    {
      hide DataOk, LinksOk, Len, Off;
      var width := leafs;
      var layerStart := 0;
      var layerEnd := width;
      BuildStart(d);
      while width > 1
        invariant leafs == |d|
        invariant width == Len(|d|, top) && width >= 1
        invariant top > 0 ==> Len(|d|, top - 1) > 1
        invariant layerStart == Off(|d|, top) && layerEnd == layerStart + width
        invariant DataOk(data, d, top, false) && LinksOk(linkMap, |d|, top)
        decreases width
      {
        ghost var w := width;
        PadData(data, d, top);
        if width % 2 == 1 {
          data := data + [Default];
          width := width + 1;
          layerEnd := layerEnd + 1;
        } else {
          assert data + [] == data;
        }
        LayerBounds(data, d, top);
        var layer := CollectLayer(layerStart, layerEnd, d);
        PushLayer(layer, d);
        layerStart := layerEnd;
        width := width / 2;
        layerEnd := layerEnd + width;
      }
    }

    /** The nodes above one layer and the links they need. */
    method CollectLayer(layerStart: nat, layerEnd: nat, ghost d: seq<Hash>) returns (layer: seq<(Hash, Option<LinkUpdate>)>)
      requires Leaves(d) && leafs == |d| && Len(|d|, top) > 1
      requires DataOk(data, d, top, true) && LinksOk(linkMap, |d|, top)
      requires layerStart == Off(|d|, top) && layerEnd == Off(|d|, top + 1) == |data| == layerStart + 2 * Len(|d|, top + 1)
      ensures |layer| == Len(|d|, top + 1)
      ensures forall j :: 0 <= j < |layer| ==> layer[j] == (Entry(d, top + 1, j), UpdateFor(|d|, top, j))
    {
      hide DataOk, LinksOk, Len, Off, Entry, UpdateFor;
      layer := [];
      var i := layerStart;
      while i < layerEnd
        invariant i == layerStart + 2 * |layer| <= layerEnd
        invariant forall j :: 0 <= j < |layer| ==> layer[j] == (Entry(d, top + 1, j), UpdateFor(|d|, top, j))
      {
        var node, update := ComputePair(i, layerStart, layerEnd, d, |layer|);
        layer := layer + [(node, update)];
        i := i + 2;
      }
    }

    method ComputePair(i: nat, layerStart: nat, layerEnd: nat, ghost d: seq<Hash>, ghost j: nat)
      returns (node: Hash, update: Option<LinkUpdate>)
      requires Leaves(d) && leafs == |d| && Len(|d|, top) > 1
      requires DataOk(data, d, top, true) && LinksOk(linkMap, |d|, top)
      requires layerStart == Off(|d|, top) && layerEnd == Off(|d|, top + 1) == |data|
      requires j < Len(|d|, top + 1) && i == layerStart + 2 * j
      ensures node == Entry(d, top + 1, j) && update == UpdateFor(|d|, top, j)
    {
      PairFacts(data, linkMap, d, top, j);
      update := None;
      hide DataOk, LinksOk, Len, Off, Source, Sub, Leaves;
      if data[i + 1] != Default {
        node := Parent(data[i], data[i + 1]);
      } else {
        var parentIndex := (i - layerStart) / 2 + layerEnd;
        if data[i] == Default {
          var linkedTo := linkMap[i];
          update := Some(LinkUpdate(parentIndex, linkedTo, Some(i)));
          node := Default;
        } else if i + 1 in linkMap {
          assert data[linkMap[i + 1]] != Default;
          node := Parent(data[i], data[linkMap[i + 1]]);
        } else {
          update := Some(LinkUpdate(parentIndex, i, None));
          node := Default;
        }
      }
    }

    /** Append the new layer to the array and enter its links. */
    method PushLayer(layer: seq<(Hash, Option<LinkUpdate>)>, ghost d: seq<Hash>)
      requires Leaves(d) && leafs == |d| && Len(|d|, top) > 1
      requires DataOk(data, d, top, true) && LinksOk(linkMap, |d|, top)
      requires |layer| == Len(|d|, top + 1)
      requires forall j :: 0 <= j < |layer| ==> layer[j] == (Entry(d, top + 1, j), UpdateFor(|d|, top, j))
      modifies this`data, this`linkMap, this`top
      ensures top == old(top) + 1 && |data| == |old(data)| + |layer|
      ensures DataOk(data, d, top, false) && LinksOk(linkMap, |d|, top)
    {
      hide DataOk, LinksOk, Len, Off, Entry, UpdateFor;
      ghost var start, links := data, linkMap;
      ghost var nodes := [];
      OnlyLastLinks(|d|, top, 0);
      var j := 0;
      while j < |layer|
        invariant 0 <= j <= |layer| && top == old(top)
        invariant |nodes| == j && data == start + nodes
        invariant forall k :: 0 <= k < j ==> nodes[k] == Entry(d, top + 1, k)
        invariant linkMap == if j < |layer| then links else ApplyLink(links, UpdateFor(|d|, top, j - 1))
      {
        var node, update := layer[j].0, layer[j].1;
        data := data + [node];
        nodes := nodes + [node];
        OnlyLastLinks(|d|, top, j);
        if update.Some? {
          linkMap := linkMap[update.value.from := update.value.to];
          if update.value.remove.Some? {
            linkMap := linkMap - {update.value.remove.value};
          }
        }
        j := j + 1;
      }
      LinksStep(links, |d|, top, |layer| - 1);
      NextData(start, nodes, d, top);
      top := top + 1;
    }

    function Root(): Hash
      requires |data| > 0
      reads this
    {
      data[|data| - 1]
    }

    /** The last element of the array is the tree hash of section 2.1 of RFC 6962, never a null node. */
    lemma RootIsMth(d: seq<Hash>)
      requires TreeOf(d)
      ensures |data| > 0 && Root() == Mth(d) != Default
    {
      RootFacts(data, d, top);
      SubNotDefault(d, top, 0);
    }

    /** The inclusion proof of leaf `i`: its audit path between the leaf and the root. */
    method GenProof(i: nat, ghost d: seq<Hash>) returns (p: LightProof)
      requires TreeOf(d) && i < leafs
      ensures WellShaped(p)
      ensures leafs == 1 ==> p == LightProof([d[0]], [])
      ensures leafs > 1 ==> |p.lemmas| > 2 && LightSteps(p) == AuditPath(i, d)
      ensures p.lemmas[0] == d[i] && p.lemmas[|p.lemmas| - 1] == Mth(d)
    {
      hide DataOk, LinksOk, Len, Off, Shr, Sub, SubPath, Mth, AuditPath, Leaves;
      RootFacts(data, d, top);
      if leafs == 1 {
        assert d[i] == d[0];
        MthSingle(d);
        return LightProof([Root()], []);
      }
      var base := 0;
      var j := i;
      var width := leafs;
      if width % 2 == 1 {
        width := width + 1;
      }
      ghost var h := 0;
      ghost var steps: seq<Step> := [];
      ProofStart(data, d, top, i);
      var lemmas := [data[j]];
      var path: seq<bool> := [];
      while base + 1 < |data|
        invariant h <= top && base == Off(|d|, h) && j == Shr(i, h) && j < Len(|d|, h) && width == Even(Len(|d|, h))
        invariant steps == SubPath(d, h, i)
        invariant |lemmas| >= 1 && lemmas[0] == d[i]
        invariant Zipped(lemmas, path, steps)
        invariant h < top <==> base + 1 < |data|
        decreases top - h
      {
        StepBounds(data, d, top, h, i);
        var index: Option<nat>;
        if j % 2 == 0 {
          RightSibling(data, linkMap, d, top, h, i);
          var rightIndex := base + j + 1;
          if data[rightIndex] == Default {
            if rightIndex in linkMap {
              assert data[linkMap[rightIndex]] != Default;
              index := Some(linkMap[rightIndex]);
            } else {
              index := None;
            }
          } else {
            index := Some(rightIndex);
          }
        } else {
          LeftSibling(data, d, top, h, i);
          index := Some(base + j - 1);
        }
        if index.Some? {
          steps := steps + [Step(data[index.value], j % 2 == 0)];
          lemmas := lemmas + [data[index.value]];
          path := path + [j % 2 == 0];
        }
        base := base + width;
        width := width / 2;
        if width % 2 == 1 {
          width := width + 1;
        }
        j := j / 2;
        h := h + 1;
      }
      TopIsMth(d, top);
      SplitPathNonEmpty(i, d);
      p := LightProof(lemmas + [Root()], path);
      ZippedSteps(p, steps);
    }
  }

  /** A proof that is an audit path is accepted. */
  lemma AuditPathAccepted(p: LightProof, i: nat, d: seq<Hash>)
    requires WellShaped(p) && i < |d|
    requires |d| == 1 ==> p == LightProof([d[0]], [])
    requires |d| > 1 ==> |p.lemmas| > 2 && LightSteps(p) == AuditPath(i, d)
    requires p.lemmas[0] == d[i] && p.lemmas[|p.lemmas| - 1] == Mth(d)
    ensures LightAccepts(p)
  {
    AuditPathClimbs(i, d);
  }

  /** Siblings and directions of the steps taken so far. */
  ghost predicate Zipped(lemmas: seq<Hash>, path: seq<bool>, steps: seq<Step>) {
    && |lemmas| == |steps| + 1 && |path| == |steps|
    && forall k :: 0 <= k < |steps| ==> steps[k] == Step(lemmas[k + 1], path[k])
  }

  lemma ZippedSteps(p: LightProof, steps: seq<Step>)
    requires |p.lemmas| == |p.path| + 2 && Zipped(p.lemmas[..|p.lemmas| - 1], p.path, steps)
    ensures LightSteps(p) == steps
  {
  }

  lemma MthSingle(d: seq<Hash>)
    requires |d| == 1
    ensures Mth(d) == d[0]
  {
  }

  lemma SplitPathNonEmpty(m: nat, d: seq<Hash>)
    requires m < |d| && |d| > 1
    ensures |AuditPath(m, d)| > 0
  {
  }

  lemma RootFacts(data: seq<Hash>, d: seq<Hash>, top: nat)
    requires Leaves(d) && DataOk(data, d, top, false)
    requires Len(|d|, top) == 1 && (top > 0 ==> Len(|d|, top - 1) > 1)
    ensures |d| > 0 && |data| == Off(|d|, top) + 1 && data[|data| - 1] == Sub(d, top, 0) == Mth(d)
  {
    StoredAt(data, d, top, false, top, 0);
    LastReal(d, top);
    TopIsMth(d, top);
  }

  lemma ProofStart(data: seq<Hash>, d: seq<Hash>, top: nat, i: nat)
    requires Leaves(d) && DataOk(data, d, top, false) && i < |d| && |d| > 1 && Len(|d|, top) == 1
    ensures Off(|d|, 0) == 0 && Shr(i, 0) == i && Len(|d|, 0) == |d| && SubPath(d, 0, i) == []
    ensures i < |data| && data[i] == d[i] && 0 < top && 1 < |data|
  {
    StoredAt(data, d, top, false, 0, i);
    OffMono(|d|, 0, top);
  }

  lemma LayerBelowTop(data: seq<Hash>, d: seq<Hash>, top: nat, h: nat)
    requires DataOk(data, d, top, false) && |d| > 0 && Len(|d|, top) == 1 && h <= top
    ensures h < top <==> Off(|d|, h) + 1 < |data|
  {
    LenBounds(|d|, h);
    if h < top { OffMono(|d|, h, top); }
  }

  lemma LayerAbove(n: nat, i: nat, h: nat)
    ensures Shr(i, h + 1) == Shr(i, h) / 2 && Len(n, h + 1) == (Len(n, h) + 1) / 2
    ensures Off(n, h + 1) == Off(n, h) + Even(Len(n, h)) && Even(Len(n, h)) == 2 * Len(n, h + 1)
  {
  }

  lemma StepBounds(data: seq<Hash>, d: seq<Hash>, top: nat, h: nat, i: nat)
    requires DataOk(data, d, top, false) && Len(|d|, top) == 1 && h < top && i < |d|
    ensures var n, j := |d|, Shr(i, h);
            && j < Len(n, h) && Shr(i, h + 1) == j / 2 && j / 2 < Len(n, h + 1)
            && Off(n, h + 1) == Off(n, h) + Even(Len(n, h)) && Even(Len(n, h)) == 2 * Len(n, h + 1)
            && Off(n, h) + j < |data|
            && (j % 2 == 0 ==> Off(n, h) + j + 1 < |data|)
            && (h + 1 < top <==> Off(n, h + 1) + 1 < |data|)
  {
    hide DataOk, Len, Off, Shr;
    InLayers(|d|, i, h);
    InLayers(|d|, i, h + 1);
    LayerBelowTop(data, d, top, h + 1);
    LayerAbove(|d|, i, h);
    StoredAt(data, d, top, false, h, Shr(i, h));
    if Shr(i, h) % 2 == 0 {
      StoredAt(data, d, top, false, h, Shr(i, h) + 1);
    }
  }

  /** Left of a right child stands its sibling. */
  lemma LeftSibling(data: seq<Hash>, d: seq<Hash>, top: nat, h: nat, i: nat)
    requires Leaves(d) && DataOk(data, d, top, false) && h < top && i < |d| && Shr(i, h) % 2 == 1
    ensures Off(|d|, h) + Shr(i, h) - 1 < |data|
    ensures SubPath(d, h + 1, i) == SubPath(d, h, i) + [Step(data[Off(|d|, h) + Shr(i, h) - 1], false)]
  {
    hide DataOk, Len, Off, Sub, SubPath, Leaves, Shr;
    PathStep(d, h, i);
    RealUnlessLast(|d|, h, Shr(i, h) - 1);
    StoredAt(data, d, top, false, h, Shr(i, h) - 1);
  }

  /** Right of a left child stands its sibling, a link to it, or a padding node without a link. */
  lemma RightSibling(data: seq<Hash>, links: map<nat, nat>, d: seq<Hash>, top: nat, h: nat, i: nat)
    requires Leaves(d) && DataOk(data, d, top, false) && LinksOk(links, |d|, top)
    requires h < top && i < |d| && Shr(i, h) % 2 == 0
    ensures var right := Off(|d|, h) + Shr(i, h) + 1;
            && right < |data|
            && (data[right] != Default ==> SubPath(d, h + 1, i) == SubPath(d, h, i) + [Step(data[right], true)])
            && (data[right] == Default && right in links ==>
                 links[right] < |data| && data[links[right]] != Default
                 && SubPath(d, h + 1, i) == SubPath(d, h, i) + [Step(data[links[right]], true)])
            && (data[right] == Default && right !in links ==> SubPath(d, h + 1, i) == SubPath(d, h, i))
  {
    hide DataOk, LinksOk, Len, Off, Sub, SubPath, Leaves, Shr;
    var n, j := |d|, Shr(i, h);
    PathStep(d, h, i);
    StoredAt(data, d, top, false, h, j + 1);
    EntryNull(d, h, j + 1);
    LinkAt(links, n, top, h, j + 1);
    if j + 1 < Len(n, h) {
      SourceHolds(data, d, top, false, h, j + 1);
      if j + 2 < Len(n, h) { RealUnlessLast(n, h, j + 1); }
    }
  }

  lemma BuildStart(d: seq<Hash>)
    requires Leaves(d)
    ensures Len(|d|, 0) == |d| && Off(|d|, 0) == 0
    ensures DataOk(d, d, 0, false) && LinksOk(map[], |d|, 0)
  {
  }

  lemma LayerBounds(data: seq<Hash>, d: seq<Hash>, h: nat)
    requires DataOk(data, d, h, true)
    ensures |data| == Off(|d|, h + 1) == Off(|d|, h) + Even(Len(|d|, h))
    ensures Even(Len(|d|, h)) == 2 * Len(|d|, h + 1)
  {
  }

  lemma OnlyLastLinks(n: nat, h: nat, j: nat)
    ensures j + 1 < Len(n, h + 1) ==> UpdateFor(n, h, j) == None
    ensures Len(n, h) > 0 ==> Len(n, h + 1) > 0
  {
  }

  lemma PairData(data: seq<Hash>, d: seq<Hash>, h: nat, j: nat)
    requires Leaves(d) && DataOk(data, d, h, true)
    requires j < Len(|d|, h + 1)
    ensures var n, i := |d|, Off(|d|, h) + 2 * j;
            && 2 * j < Len(n, h) && 2 * j + 1 < Even(Len(n, h)) && i + 1 < |data|
            && data[i] == Entry(d, h, 2 * j) && data[i + 1] == Entry(d, h, 2 * j + 1)
            && (2 * j + 1 < Len(n, h) ==> Real(n, h, 2 * j))
  {
    assert Len(|d|, h + 1) == (Len(|d|, h) + 1) / 2;
    hide DataOk, Len, Off, Sub, Leaves, Entry;
    StoredAt(data, d, h, true, h, 2 * j);
    StoredAt(data, d, h, true, h, 2 * j + 1);
    if 2 * j + 1 < Len(|d|, h) { RealUnlessLast(|d|, h, 2 * j); }
  }

  lemma SourceOfReal(n: nat, h: nat, i: nat)
    requires i < Len(n, h)
    ensures Real(n, h, i) ==> Source(n, h, i) == Off(n, h) + i
  {
  }

  /** What the two children of node `j` of layer `h + 1` look like in the array. */
  lemma PairFacts(data: seq<Hash>, links: map<nat, nat>, d: seq<Hash>, h: nat, j: nat)
    requires Leaves(d) && DataOk(data, d, h, true) && LinksOk(links, |d|, h)
    requires j < Len(|d|, h + 1)
    ensures var n, i := |d|, Off(|d|, h) + 2 * j;
            && 2 * j < Len(n, h) && i + 1 < |data|
            && (data[i] == Default <==> !Real(n, h, 2 * j))
            && (Real(n, h, 2 * j) ==> data[i] == Sub(d, h, 2 * j) && Source(n, h, 2 * j) == i)
            && (data[i + 1] != Default <==> 2 * j + 1 < Len(n, h) && Real(n, h, 2 * j + 1))
            && (data[i + 1] != Default ==> data[i + 1] == Sub(d, h, 2 * j + 1) && Real(n, h, 2 * j))
            && (!Real(n, h, 2 * j) ==> i in links && links[i] == Source(n, h, 2 * j) && !(2 * j + 1 < Len(n, h)))
            && (data[i + 1] == Default && Real(n, h, 2 * j) ==> (i + 1 in links <==> 2 * j + 1 < Len(n, h)))
            && (i + 1 in links ==> 2 * j + 1 < Len(n, h) && links[i + 1] < |data| && data[links[i + 1]] == Sub(d, h, 2 * j + 1) != Default)
  {
    hide DataOk, LinksOk, Len, Off, Sub, Leaves, Source, Real;
    LayerAbove(|d|, 0, h);
    SourceOfReal(|d|, h, 2 * j);
    var n := |d|;
    PairData(data, d, h, j);
    EntryNull(d, h, 2 * j);
    EntryNull(d, h, 2 * j + 1);
    LinkAt(links, n, h, h, 2 * j);
    LinkAt(links, n, h, h, 2 * j + 1);
    if 2 * j + 1 < Len(n, h) {
      SourceHolds(data, d, h, true, h, 2 * j + 1);
    }
    if 2 * j + 2 < Len(n, h) {
      RealUnlessLast(n, h, 2 * j + 1);
    }
  }
}
