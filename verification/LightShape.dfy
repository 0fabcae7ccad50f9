/**
 The shape of the light tree: nodes of the bottom-up tree in which an odd last node moves up
 unchanged, and why they are the subtrees of section 2.1 of RFC 6962.
 */
module LightShape {
  import opened Bits
  import opened Hashing
  import opened Rfc6962

  /** Node `i` of layer `h`: a last node without a right sibling is handed up as it is. */
  function Sub(d: seq<Hash>, h: nat, i: nat): Hash
    requires i < Len(|d|, h)
    decreases h
  {
    if h == 0 then d[i]
    else if 2 * i + 1 < Len(|d|, h - 1) then Parent(Sub(d, h - 1, 2 * i), Sub(d, h - 1, 2 * i + 1))
    else Sub(d, h - 1, 2 * i)
  }

  /** The siblings met on the way from leaf `m` up to layer `h`. */
  function SubPath(d: seq<Hash>, h: nat, m: nat): seq<Step>
    requires m < |d|
    decreases h
  {
    if h == 0 then []
    else
      InLayers(|d|, m, h - 1);
      var j := Shr(m, h - 1);
      SubPath(d, h - 1, m) +
      (if j % 2 == 1 then [Step(Sub(d, h - 1, j - 1), false)]
       else if j + 1 < Len(|d|, h - 1) then [Step(Sub(d, h - 1, j + 1), true)]
       else [])
  }

  lemma InLayers(n: nat, m: nat, h: nat)
    requires m < n
    ensures Shr(m, h) < Len(n, h)
  {
    LenBounds(n, h);
    ShrMono(m, n - 1, h);
  }

  lemma InLayer(n: nat, h: nat, i: nat)
    requires n > 0
    ensures i < Len(n, h) <==> i * Pow2(h) < n
  {
    LenBounds(n, h);
    ShrIsDiv(n - 1, h);
    hide Len, Shr, Pow2;
    DivAtLeast(n - 1, Pow2(h), i);
  }

  /** The last leaf below node `i` of layer `h`, plus one. */
  function BlockEnd(n: nat, h: nat, first: nat): nat {
    if first + Pow2(h) < n then first + Pow2(h) else n
  }

  lemma ChildBlocks(n: nat, h: nat, i: nat, first: nat)
    requires n > 0 && h > 0 && i < Len(n, h) && first == i * Pow2(h)
    ensures 2 * i < Len(n, h - 1) && first == (2 * i) * Pow2(h - 1)
    ensures first + Pow2(h - 1) == (2 * i + 1) * Pow2(h - 1)
    ensures 2 * i + 1 < Len(n, h - 1) <==> first + Pow2(h - 1) < n
    ensures first < n && Pow2(h) == 2 * Pow2(h - 1)
  {
    assert Pow2(h) == 2 * Pow2(h - 1) && Len(n, h) == (Len(n, h - 1) + 1) / 2;
    hide Pow2, Len;
    HalfBlocks(first, i, Pow2(h), Pow2(h - 1));
    InLayer(n, h, i);
    InLayer(n, h - 1, 2 * i + 1);
  }

  /** A node is the Merkle tree hash of the leaves below it. */
  lemma {:induction false} SubIsMth(d: seq<Hash>, h: nat, i: nat, first: nat)
    requires i < Len(|d|, h) && first == i * Pow2(h)
    ensures first < BlockEnd(|d|, h, first) <= |d|
    ensures Sub(d, h, i) == Mth(d[first..BlockEnd(|d|, h, first)])
    decreases h
  {
    hide Mth, Pow2, Len, Shr;
    var n := |d|;
    LenBounds(n, h);
    InLayer(n, h, i);
    if h == 0 {
      MthOfOne(d, i);
    } else {
      ChildBlocks(n, h, i, first);
      var mid, end := first + Pow2(h - 1), BlockEnd(n, h, first);
      SubIsMth(d, h - 1, 2 * i, first);
      if 2 * i + 1 < Len(n, h - 1) {
        SubIsMth(d, h - 1, 2 * i + 1, mid);
        MthOfBlock(d, first, mid, end, h - 1);
      }
    }
  }

  lemma MthOfOne(d: seq<Hash>, i: nat)
    requires i < |d|
    ensures Pow2(0) == 1 && BlockEnd(|d|, 0, i) == i + 1 && d[i..i + 1] == [d[i]]
    ensures Mth(d[i..i + 1]) == d[i]
    ensures AuditPath(0, d[i..i + 1]) == []
    ensures i * Pow2(0) == i
  {
  }

  lemma MthOfBlock(d: seq<Hash>, first: nat, mid: nat, end: nat, h: nat)
    requires first < mid < end <= |d| && mid == first + Pow2(h) && end <= mid + Pow2(h)
    ensures Mth(d[first..end]) == Parent(Mth(d[first..mid]), Mth(d[mid..end]))
    ensures Split(end - first) == mid - first
  {
    hide Pow2, Split, Mth;
    SplitIsPow2(end - first, h);
    var block := d[first..end];
    assert block[..mid - first] == d[first..mid];
    assert block[mid - first..] == d[mid..end];
    MthAtSplit(block);
  }

  lemma LeafSubPath(d: seq<Hash>, m: nat, first: nat)
    requires m < |d| && first == Shr(m, 0) * Pow2(0)
    ensures first == m < BlockEnd(|d|, 0, first) == m + 1
    ensures SubPath(d, 0, m) == AuditPath(m - first, d[first..BlockEnd(|d|, 0, first)])
  {
  }

  lemma SubPathUp(d: seq<Hash>, h: nat, m: nat)
    requires m < |d| && h > 0
    ensures var (i, j) := (Shr(m, h), Shr(m, h - 1));
            && i == j / 2 && j < Len(|d|, h - 1)
            && SubPath(d, h, m) == SubPath(d, h - 1, m) +
               (if j % 2 == 1 then [Step(Sub(d, h - 1, j - 1), false)]
                else if j + 1 < Len(|d|, h - 1) then [Step(Sub(d, h - 1, j + 1), true)]
                else [])
  {
    InLayers(|d|, m, h - 1);
    hide Len, Sub;
  }

  /** The path up to a node is the audit path within the leaves below it. */
  lemma {:induction false} SubPathIsAuditPath(d: seq<Hash>, h: nat, m: nat, first: nat)
    requires m < |d| && first == Shr(m, h) * Pow2(h)
    ensures first <= m < BlockEnd(|d|, h, first) <= |d|
    ensures SubPath(d, h, m) == AuditPath(m - first, d[first..BlockEnd(|d|, h, first)])
    decreases h
  {
    hide Mth, AuditPath, Pow2, Len, Shr, Sub, SubPath;
    var n := |d|;
    InLayers(n, m, h);
    if h == 0 {
      LeafSubPath(d, m, first);
    } else {
      var i, j := Shr(m, h), Shr(m, h - 1);
      SubPathUp(d, h, m);
      ChildBlocks(n, h, i, first);
      InLayers(n, m, h - 1);
      var mid, end := first + Pow2(h - 1), BlockEnd(n, h, first);
      SubPathIsAuditPath(d, h - 1, m, j * Pow2(h - 1));
      SubIsMth(d, h - 1, 2 * i, first);
      if mid < n {
        SubIsMth(d, h - 1, 2 * i + 1, mid);
        AuditOfBlock(d, first, mid, end, h - 1, m);
      }
    }
  }

  lemma AuditOfBlock(d: seq<Hash>, first: nat, mid: nat, end: nat, h: nat, m: nat)
    requires first < mid < end <= |d| && mid == first + Pow2(h) && end <= mid + Pow2(h)
    requires first <= m < end
    ensures AuditPath(m - first, d[first..end]) ==
            if m < mid then AuditPath(m - first, d[first..mid]) + [Step(Mth(d[mid..end]), true)]
            else AuditPath(m - mid, d[mid..end]) + [Step(Mth(d[first..mid]), false)]
  {
    hide Mth, Pow2, Split, AuditPath;
    MthOfBlock(d, first, mid, end, h);
    var block := d[first..end];
    AuditPathAtSplit(m - first, block);
    assert block[..mid - first] == d[first..mid];
    assert block[mid - first..] == d[mid..end];
    assert |block| > 1;
  }

  /** At the top: the whole tree hash and the whole audit path. */
  lemma TopIsMth(d: seq<Hash>, h: nat)
    requires |d| > 0 && Len(|d|, h) == 1
    ensures Sub(d, h, 0) == Mth(d)
    ensures forall m :: 0 <= m < |d| ==> SubPath(d, h, m) == AuditPath(m, d)
  {
    hide Mth, AuditPath, Sub, SubPath, Pow2, Len;
    SubIsMth(d, h, 0, 0);
    InLayer(|d|, h, 1);
    assert d[0..|d|] == d;
    forall m | 0 <= m < |d| ensures SubPath(d, h, m) == AuditPath(m, d) {
      InLayers(|d|, m, h);
      SubPathIsAuditPath(d, h, m, 0);
    }
  }

  /** One more layer on the way up. */
  lemma PathStep(d: seq<Hash>, h: nat, m: nat)
    requires m < |d|
    ensures Shr(m, h) < Len(|d|, h)
    ensures SubPath(d, h + 1, m) == SubPath(d, h, m) +
            (if Shr(m, h) % 2 == 1 then [Step(Sub(d, h, Shr(m, h) - 1), false)]
             else if Shr(m, h) + 1 < Len(|d|, h) then [Step(Sub(d, h, Shr(m, h) + 1), true)]
             else [])
  {
    InLayers(|d|, m, h);
  }
}
