/**
 Segments of a file: the roots of its segments are one layer of the file's tree, so the tree over
 the segment roots has the same tree hash as the tree over all chunks.
 */
module Segments {
  import opened Bits
  import opened Hashing
  import opened Rfc6962
  import opened PaddedTree
  import opened AppendProofs
  import opened LightShape

  /** The roots of the segments of `2^s` chunks; the last segment may be shorter. */
  function Segs(d: seq<Hash>, s: nat): (r: seq<Hash>)
    ensures |r| == Len(|d|, s)
  {
    seq(Len(|d|, s), q requires 0 <= q < Len(|d|, s) => Sub(d, s, q))
  }

  lemma {:induction false} LenLen(n: nat, s: nat, h: nat)
    ensures Len(Len(n, s), h) == Len(n, s + h)
  {
    if h > 0 { LenLen(n, s, h - 1); }
  }

  /** A layer is the leaf layer of the tree above it. */
  lemma {:induction false} SegsSub(d: seq<Hash>, s: nat, h: nat, i: nat)
    requires i < Len(|d|, s + h)
    ensures i < Len(|Segs(d, s)|, h)
    ensures Sub(Segs(d, s), h, i) == Sub(d, s + h, i)
    decreases h
  {
    LenLen(|d|, s, h);
    if h > 0 {
      LenLen(|d|, s, h - 1);
      SegsSub(d, s, h - 1, 2 * i);
      if 2 * i + 1 < Len(|d|, s + (h - 1)) {
        SegsSub(d, s, h - 1, 2 * i + 1);
      }
    }
  }

  lemma {:induction false} TopLayer(n: nat) returns (h: nat)
    requires n > 0
    ensures Len(n, h) == 1
  {
    if n == 1 {
      h := 0;
    } else {
      var g := TopLayer((n + 1) / 2);
      LenLen(n, 1, g);
      assert Len(n, 1) == (n + 1) / 2;
      h := 1 + g;
    }
  }

  lemma SegsMth(d: seq<Hash>, s: nat)
    requires |d| > 0
    ensures |Segs(d, s)| > 0
    ensures Mth(Segs(d, s)) == Mth(d)
  {
    LenBounds(|d|, s);
    var e := Segs(d, s);
    var h := TopLayer(|e|);
    hide Segs, Mth, SubPath, Sub;
    LenLen(|d|, s, h);
    TopIsMth(e, h);
    TopIsMth(d, s + h);
    SegsSub(d, s, h, 0);
  }

  lemma {:induction false} AlignedLenAdd(a: nat, b: nat, s: nat, h: nat)
    requires Aligned(a, s) && h <= s
    ensures Len(a + b, h) == Shr(a, h) + Len(b, h)
  {
    if h > 0 {
      AlignedLenAdd(a, b, s, h - 1);
      AlignedLen(a, s, h - 1);
    }
  }

  lemma SubStep(d: seq<Hash>, h: nat, i: nat)
    requires h > 0 && i < Len(|d|, h)
    ensures 2 * i < Len(|d|, h - 1)
    ensures Sub(d, h, i) ==
            if 2 * i + 1 < Len(|d|, h - 1) then Parent(Sub(d, h - 1, 2 * i), Sub(d, h - 1, 2 * i + 1))
            else Sub(d, h - 1, 2 * i)
  {
  }

  lemma AlignedHalf(a: nat, s: nat, h: nat)
    requires Aligned(a, s) && 0 < h <= s
    ensures Shr(a, h - 1) == 2 * Shr(a, h) == Len(a, h - 1)
  {
    AlignedLen(a, s, h - 1);
  }

  lemma SubLeaf(d: seq<Hash>, i: nat)
    ensures Len(|d|, 0) == |d| == Shr(|d|, 0)
    ensures i < |d| ==> Sub(d, 0, i) == d[i]
  {
  }

  lemma {:induction false} SubPrefix(a: seq<Hash>, b: seq<Hash>, s: nat, h: nat, i: nat)
    requires Aligned(|a|, s) && h <= s && i < Shr(|a|, h)
    ensures i < Len(|a + b|, h) && i < Len(|a|, h)
    ensures Sub(a + b, h, i) == Sub(a, h, i)
    decreases h
  {
    hide Shr, Len, Aligned, Sub;
    AlignedLenAdd(|a|, |b|, s, h);
    AlignedLen(|a|, s, h);
    var c := a + b;
    if h == 0 {
      SubLeaf(a, i);
      SubLeaf(c, i);
    } else {
      AlignedHalf(|a|, s, h);
      AlignedLenAdd(|a|, |b|, s, h - 1);
      SubStep(a, h, i);
      SubStep(c, h, i);
      SubPrefix(a, b, s, h - 1, 2 * i);
      SubPrefix(a, b, s, h - 1, 2 * i + 1);
    }
  }

  lemma {:induction false} SubShift(a: seq<Hash>, b: seq<Hash>, s: nat, h: nat, i: nat)
    requires Aligned(|a|, s) && h <= s && i < Len(|b|, h)
    ensures Shr(|a|, h) + i < Len(|a + b|, h)
    ensures Sub(a + b, h, Shr(|a|, h) + i) == Sub(b, h, i)
    decreases h
  {
    hide Shr, Len, Aligned, Sub;
    AlignedLenAdd(|a|, |b|, s, h);
    var c, x := a + b, Shr(|a|, h) + i;
    if h == 0 {
      SubLeaf(a, i);
      SubLeaf(b, i);
      SubLeaf(c, x);
    } else {
      AlignedHalf(|a|, s, h);
      AlignedLenAdd(|a|, |b|, s, h - 1);
      SubStep(b, h, i);
      SubStep(c, h, x);
      assert 2 * x == Shr(|a|, h - 1) + 2 * i && 2 * x + 1 == Shr(|a|, h - 1) + (2 * i + 1);
      SubShift(a, b, s, h - 1, 2 * i);
      if 2 * i + 1 < Len(|b|, h - 1) {
        SubShift(a, b, s, h - 1, 2 * i + 1);
      }
    }
  }

  /** Whole segments first: the segment roots split where the chunks do. */
  lemma SegsSplit(a: seq<Hash>, b: seq<Hash>, s: nat)
    requires Aligned(|a|, s)
    ensures Segs(a + b, s) == Segs(a, s) + Segs(b, s)
    ensures |Segs(a, s)| == Shr(|a|, s)
  {
    hide Shr, Len, Aligned, Sub;
    AlignedLen(|a|, s, s);
    AlignedLenAdd(|a|, |b|, s, s);
    var l, r := Segs(a + b, s), Segs(a, s) + Segs(b, s);
    forall q | 0 <= q < |l| ensures l[q] == r[q] {
      if q < Shr(|a|, s) {
        SubPrefix(a, b, s, s, q);
      } else {
        SubShift(a, b, s, s, q - Shr(|a|, s));
      }
    }
  }

  // ---------- Perfect blocks ----------

  lemma {:induction false} Pow2Len(b: nat, h: nat)
    requires h <= b
    ensures Len(Pow2(b), h) == Shr(Pow2(b), h) == Pow2(b - h)
  {
    if h > 0 {
      hide Pow2, Len, Shr;
      Pow2Len(b, h - 1);
      Pow2Double(b - h);
      HalvedAbove(Pow2(b), Pow2(b), h - 1);
      DivUnique(2 * Pow2(b - h) + 1, 2, Pow2(b - h), 1);
    }
  }

  lemma {:induction false} Pow2Aligned(b: nat, s: nat)
    requires s <= b
    ensures Aligned(Pow2(b), s)
    decreases s
  {
    if s > 0 {
      assert Pow2(b - (s - 1)) == 2 * Pow2(b - s);
      hide Pow2, Shr;
      Pow2Aligned(b, s - 1);
      Pow2Len(b, s - 1);
    }
  }

  /** In a perfect block the padded tree and the light tree agree. */
  lemma {:induction false} PerfectNode(block: seq<Hash>, b: nat, h: nat, i: nat)
    requires |block| == Pow2(b) && h <= b && i < Pow2(b - h)
    ensures i < Len(|block|, h) && Node(block, 0, h, i) == Sub(block, h, i)
    decreases h
  {
    Pow2Len(b, h);
    if h > 0 {
      Pow2Len(b, h - 1);
      assert Pow2(b - (h - 1)) == 2 * Pow2(b - h);
      PerfectNode(block, b, h - 1, 2 * i);
      PerfectNode(block, b, h - 1, 2 * i + 1);
    }
  }

  lemma SiblingInside(b: nat, h: nat, m: nat)
    requires h < b && m < Pow2(b)
    ensures Shr(m, h) < Pow2(b - h) && Sibling(Shr(m, h)) < Pow2(b - h)
    ensures Len(Pow2(b), h) == Pow2(b - h)
  {
    Pow2Len(b, h);
    InLayers(Pow2(b), m, h);
    assert Pow2(b - h) == 2 * Pow2(b - h - 1);
  }

  /** Step `i` of the path of leaf `m` in a perfect tree. */
  ghost predicate PerfectStep(step: Step, e: seq<Hash>, i: nat, m: nat) {
    && Sibling(Shr(m, i)) < Len(|e|, i)
    && step == Step(Sub(e, i, Sibling(Shr(m, i))), Shr(m, i) % 2 == 0)
  }

  /** In a perfect block the path has one step per layer. */
  lemma {:induction false} PerfectPath(e: seq<Hash>, b: nat, h: nat, m: nat)
    requires |e| == Pow2(b) && h <= b && m < |e|
    ensures |SubPath(e, h, m)| == h
    ensures forall i :: 0 <= i < h ==> PerfectStep(SubPath(e, h, m)[i], e, i, m)
    decreases h
  {
    if h == 0 {
      assert SubPath(e, h, m) == [];
    } else {
      hide SubPath, Sub, Shr, Len, Pow2, PerfectStep;
      PerfectPath(e, b, h - 1, m);
      TopPerfectStep(e, b, h - 1, m);
      var front, p := SubPath(e, h - 1, m), SubPath(e, h, m);
      assert forall i :: 0 <= i < h - 1 ==> p[i] == front[i];
    }
  }

  lemma TopPerfectStep(e: seq<Hash>, b: nat, h: nat, m: nat)
    requires |e| == Pow2(b) && h < b && m < |e|
    ensures |SubPath(e, h + 1, m)| == |SubPath(e, h, m)| + 1
    ensures SubPath(e, h + 1, m) == SubPath(e, h, m) + [SubPath(e, h + 1, m)[|SubPath(e, h, m)|]]
    ensures PerfectStep(SubPath(e, h + 1, m)[|SubPath(e, h, m)|], e, h, m)
  {
    hide SubPath, Sub, Shr, Len, Pow2;
    SiblingInside(b, h, m);
    PathStep(e, h, m);
  }

  /** The audit path of segment `q` within a perfect block of `2^b` chunks. */
  lemma BlockPath(block: seq<Hash>, b: nat, s: nat, q: nat)
    requires |block| == Pow2(b) && s <= b && q < |Segs(block, s)|
    ensures |Segs(block, s)| == Pow2(b - s)
    ensures |AuditPath(q, Segs(block, s))| == b - s
    ensures forall i :: 0 <= i < b - s ==> PerfectStep(AuditPath(q, Segs(block, s))[i], Segs(block, s), i, q)
  {
    hide Segs, Mth, SubPath, AuditPath, Sub, Shr, Len, Pow2, PerfectStep;
    Pow2Len(b, s);
    var e := Segs(block, s);
    Pow2Len(b - s, b - s);
    assert Pow2(0) == 1 by { Pow2Zero(); }
    TopIsMth(e, b - s);
    PerfectPath(e, b - s, b - s, q);
  }

  lemma Pow2Double(e: nat)
    ensures Pow2(e + 1) == 2 * Pow2(e)
  {
  }

  lemma Pow2Zero()
    ensures Pow2(0) == 1
  {
  }
}
