/**
 Filling an unknown leaf with any value: the recomputation carries it up as long as the nodes
 beside the path are known, and notices a wrong value only where it meets a known node that is not
 the last of its layer.
 */
module FilledLeaf {
  import opened Bits
  import opened Hashing
  import opened Wrappers
  import opened PaddedTree
  import opened AppendProofs
  import opened Layers
  import opened TreeRead
  import opened Recompute
  import opened Versions
  import opened DepthOrder
  import opened LastLeaf

  /** The nodes beside the path of leaf `i` are known, or padding, in the lowest `k` layers. */
  ghost predicate PathKnown(ls: Layers, lh: nat, i: nat, k: nat)
    requires OnPath(ls, i) && k <= |ls|
  {
    forall h :: 0 <= h < k ==> SiblingNode(ls, lh, h, Shr(i, h)) != Null
  }

  /** A wrong leaf reaches layer `k`, where a known node in the middle stands against it. */
  ghost predicate Stopped(ls: Layers, lh: nat, i: nat, k: nat)
    requires OnPath(ls, i) && k < |ls|
  {
    PathKnown(ls, lh, i, k) && Shr(i, k) < |ls[k]| - 1 && ls[k][Shr(i, k)] != Null
  }

  ghost predicate FillPanics(ls: Layers, lh: nat, i: nat)
    requires OnPath(ls, i)
  {
    exists k :: 1 <= k < |ls| && Stopped(ls, lh, i, k)
  }

  // ---------- One round ----------

  /** The parent over a changed child and what stands beside it. */
  lemma ParentOver(ls: Layers, lh: nat, h: nat, x: nat, y: Hash)
    requires h < |ls| && x < |ls[h]| && y != Null
    ensures var (c, s) := (ls[h][x := y], SiblingNode(ls, lh, h, x));
            2 * (x / 2) < |c| &&
            ParentOf(c, x / 2, h + lh) == if s == Null then Null else if x % 2 == 0 then Parent(y, s) else Parent(s, y)
  {
    assert x == 2 * (x / 2) || x == 2 * (x / 2) + 1;
  }

  /** A round over a single child touches its parent only. */
  lemma FillRound(c: seq<Hash>, p: seq<Hash>, pad: nat, x: nat)
    requires x < |c| && (|c| == 2 * |p| - 1 || |c| == 2 * |p|)
    ensures var (j, end) := (x / 2, RoundEnd(Some(x + 1), |c|));
            var y := ParentOf(c, j, pad);
            && 2 * j < end <= |c| && j < |p|
            && (RoundRuns(c, p, j, end, pad) <==> !Panics(c, p, pad, j))
            && NewParents(c, p, j, end, pad) == (if y == Null then p else p[j := y])
            && After(LastChanged(c, p, j, end, pad, (end + 1) / 2)) == if y == Null then None else Some(j + 1)
  {
    hide ParentOf, Panics;
    var (j, end) := (x / 2, RoundEnd(Some(x + 1), |c|));
    assert x == 2 * j || x == 2 * j + 1;
    assert (end + 1) / 2 == j + 1;
    assert Changed(c, p, j, end, pad, j) <==> ParentOf(c, j, pad) != Null;
    assert forall k: nat :: Changed(c, p, j, end, pad, k) ==> k == j;
  }

  lemma {:induction false} NodeBeside(t: seq<Hash>, u: seq<Hash>, lh: nat, i: nat, h: nat, j: nat)
    requires i < |t| == |u| && (forall k :: 0 <= k < |t| && k != i ==> u[k] == t[k]) && j != Shr(i, h)
    ensures Node(t, lh, h, j) == Node(u, lh, h, j)
  {
    if h > 0 {
      ShrNext(i, h - 1);
      NodeBeside(t, u, lh, i, h - 1, 2 * j);
      NodeBeside(t, u, lh, i, h - 1, 2 * j + 1);
    }
  }

  /** What two runs see and leave from a layer on does not depend on the layers below. */
  lemma {:induction false} RunAbove(a: Layers, b: Layers, h: nat, start: nat, maybeEnd: Option<nat>, lh: nat)
    requires h < |a| == |b| && forall k :: h <= k < |a| ==> a[k] == b[k]
    ensures var (x, y) := (Run(a, h, start, maybeEnd, lh), Run(b, h, start, maybeEnd, lh));
            && (x.Some? <==> y.Some?)
            && (x.Some? ==>
                  && |x.value| == |y.value| && |a| <= |x.value|
                  && (forall k :: h <= k < |x.value| ==> x.value[k] == y.value[k])
                  && (forall k :: 0 <= k <= h ==> x.value[k] == a[k] && y.value[k] == b[k]))
    decreases |a| - 1 - h, |a[h]|
  {
    hide Run, RoundRuns, NewParents, LastChanged, StepOk, RoundEnd;
    if AtTop(a, h) {
      RunTop(a, h, start, maybeEnd, lh);
      RunTop(b, h, start, maybeEnd, lh);
    } else {
      var (first, end) := (start / 2, RoundEnd(maybeEnd, |a[h]|));
      RunOn(a, h, start, maybeEnd, lh);
      RunOn(b, h, start, maybeEnd, lh);
      assert a[h] == b[h] && LayerAt(a, h + 1) == LayerAt(b, h + 1);
      assert GoesOn(a, h, first, end, lh) <==> GoesOn(b, h, first, end, lh);
      if GoesOn(a, h, first, end, lh) {
        RoundKeeps(a, h, first, end, lh);
        RoundKeeps(b, h, first, end, lh);
        RunAbove(RoundNext(a, h, first, end, lh), RoundNext(b, h, first, end, lh), h + 1, first,
                 RoundLast(a, h, first, end, lh), lh);
      }
    }
  }

  // ---------- The whole run ----------

  /** Layer `k` afterwards: on the path the changed node if it got so far, elsewhere true nodes. */
  ghost predicate FilledAt(ls: Layers, post: Layers, t: seq<Hash>, u: seq<Hash>, lh: nat, i: nat, k: nat)
    requires OnPath(ls, i) && k < |ls| && k < |post|
  {
    && |post[k]| == |ls[k]|
    && (forall j :: 0 <= j < |ls[k]| ==> post[k][j] == Null ==> ls[k][j] == Null)
    && (forall j :: 0 <= j < |ls[k]| && !(j == Shr(i, k) && PathKnown(ls, lh, i, k)) ==> Good(post[k][j], t, lh, k, j))
    && (PathKnown(ls, lh, i, k) ==> post[k][Shr(i, k)] == Node(u, lh, k, Shr(i, k)))
  }

  /** The leaves `u` differ from `t` at `i` only, and have no unknown one. */
  ghost predicate OneChanged(t: seq<Hash>, u: seq<Hash>, i: nat) {
    && i < |t| == |u| && u[i] != Null && u[i] != t[i]
    && forall k :: 0 <= k < |t| && k != i ==> u[k] == t[k]
  }

  lemma PathDiffers(t: seq<Hash>, u: seq<Hash>, lh: nat, i: nat, h: nat)
    requires OneChanged(t, u, i) && NoNulls(t)
    ensures NoNulls(u)
    ensures Node(u, lh, h, Shr(i, h)) != Null && Node(u, lh, h, Shr(i, h)) != Node(t, lh, h, Shr(i, h))
  {
    NodeDiffers(t, u, lh, h, i);
    forall k | 0 <= k < |u| ensures u[k] != Null { if k != i { assert u[k] == t[k]; } }
    NodeNotNull(u, lh, h, Shr(i, h));
  }

  /** The run has come to layer `h`, whose path node is the changed one. */
  ghost predicate Reached(ls: Layers, cur: Layers, t: seq<Hash>, u: seq<Hash>, lh: nat, base: nat, i: nat, h: nat) {
    && WellFormed(ls, t, lh, base) && OneChanged(t, u, i) && OnPath(ls, i)
    && h < |ls| == |cur| && PathKnown(ls, lh, i, h)
    && (forall k :: h < k < |ls| ==> cur[k] == ls[k])
    && cur[h] == ls[h][Shr(i, h) := Node(u, lh, h, Shr(i, h))]
  }

  lemma ReachedFacts(ls: Layers, cur: Layers, t: seq<Hash>, u: seq<Hash>, lh: nat, base: nat, i: nat, h: nat)
    requires Reached(ls, cur, t, u, lh, base, i, h)
    ensures Sized(ls, |t|, base) && NoNulls(t) && NoNulls(u) && AllGood(ls, t, lh)
    ensures Shr(i, h) < |ls[h]| == Len(|t|, h)
    ensures Node(u, lh, h, Shr(i, h)) != Null && Node(u, lh, h, Shr(i, h)) != Node(t, lh, h, Shr(i, h))
  {
    PathDiffers(t, u, lh, i, h);
  }

  lemma ReachedSibling(ls: Layers, cur: Layers, t: seq<Hash>, u: seq<Hash>, lh: nat, base: nat, i: nat, h: nat)
    requires Reached(ls, cur, t, u, lh, base, i, h) && h + 1 < |ls|
    ensures var (x, j) := (Shr(i, h), Shr(i, h + 1));
            && j == x / 2 && 2 * j < |cur[h]|
            && (|cur[h]| == 2 * |ls[h + 1]| - 1 || |cur[h]| == 2 * |ls[h + 1]|)
            && ParentOf(cur[h], j, h + lh) ==
               if SiblingNode(ls, lh, h, x) == Null then Null else Node(u, lh, h + 1, j)
  {
    hide Reached, ParentOf, SiblingNode, AllGood, Len;
    ReachedFacts(ls, cur, t, u, lh, base, i, h);
    ReachedHere(ls, cur, t, u, lh, base, i, h);
    var (x, j) := (Shr(i, h), Shr(i, h + 1));
    ShrNext(i, h);
    PathLens(ls, |t|, base, h);
    ParentOver(ls, lh, h, x, Node(u, lh, h, x));
    SiblingIsNode(ls, t, lh, h, x);
    NodeBeside(t, u, lh, i, h, Sibling(x));
    NodeHalves(u, lh, h + 1, j);
  }

  lemma ReachedHere(ls: Layers, cur: Layers, t: seq<Hash>, u: seq<Hash>, lh: nat, base: nat, i: nat, h: nat)
    requires Reached(ls, cur, t, u, lh, base, i, h)
    ensures OneChanged(t, u, i) && h < |ls| == |cur| && Shr(i, h) < |ls[h]|
    ensures cur[h] == ls[h][Shr(i, h) := Node(u, lh, h, Shr(i, h))]
  {
  }

  /** With the node beside it known, the changed node is carried up, or stopped. */
  lemma CarriedUp(ls: Layers, cur: Layers, t: seq<Hash>, u: seq<Hash>, lh: nat, base: nat, i: nat, h: nat)
    requires Reached(ls, cur, t, u, lh, base, i, h) && h + 1 < |ls|
    requires SiblingNode(ls, lh, h, Shr(i, h)) != Null
    ensures var (j, y) := (Shr(i, h + 1), Node(u, lh, h + 1, Shr(i, h + 1)));
            && (Stopped(ls, lh, i, h + 1) ==> Run(cur, h, Shr(i, h), Some(Shr(i, h) + 1), lh) == None)
            && (!Stopped(ls, lh, i, h + 1) ==>
                  var next := cur[h + 1 := ls[h + 1][j := y]];
                  && Reached(ls, next, t, u, lh, base, i, h + 1)
                  && Run(cur, h, Shr(i, h), Some(Shr(i, h) + 1), lh) == Run(next, h + 1, j, Some(j + 1), lh))
  {
    hide Run, ParentOf, NewParents, LastChanged, RoundRuns, RoundEnd, WellFormed, SiblingNode, Node, Len;
    var (x, j) := (Shr(i, h), Shr(i, h + 1));
    var (c, p, y) := (cur[h], ls[h + 1], Node(u, lh, h + 1, j));
    ReachedSibling(ls, cur, t, u, lh, base, i, h);
    FillRound(c, p, h + lh, x);
    SizedOf(ls, t, lh, base);
    assert Good(p[j], t, lh, h + 1, j);
    PathDiffers(t, u, lh, i, h + 1);
    assert PathKnown(ls, lh, i, h + 1);
    assert LayerAt(cur, h + 1) == p;
    assert Stopped(ls, lh, i, h + 1) <==> Panics(c, p, h + lh, j);
    RunOn(cur, h, x, Some(x + 1), lh);
  }

  /** With the node beside it unknown, the rest of the run is that of the tree as it was. */
  lemma NotCarriedUp(ls: Layers, cur: Layers, t: seq<Hash>, u: seq<Hash>, lh: nat, base: nat, i: nat, h: nat)
    requires Reached(ls, cur, t, u, lh, base, i, h) && h + 1 < |ls|
    requires SiblingNode(ls, lh, h, Shr(i, h)) == Null
    ensures var r := Run(cur, h, Shr(i, h), Some(Shr(i, h) + 1), lh);
            && r.Some? && |r.value| == |ls| && BelowKept(cur, r.value, h)
            && forall k :: h < k < |ls| ==> FilledAt(ls, r.value, t, u, lh, i, k)
  {
    hide Run, ParentOf, NewParents, LastChanged, RoundRuns, RoundEnd, WellFormed, SiblingNode, Node, Len, Finished, FilledAt;
    var (x, j) := (Shr(i, h), Shr(i, h + 1));
    ReachedSibling(ls, cur, t, u, lh, base, i, h);
    FillRound(cur[h], ls[h + 1], h + lh, x);
    assert LayerAt(cur, h + 1) == ls[h + 1] && cur[h + 1 := ls[h + 1]] == cur;
    RunOn(cur, h, x, Some(x + 1), lh);
    assert !Panics(cur[h], ls[h + 1], h + lh, j);
    RunAbove(cur, ls, h + 1, j, None, lh);
    RunsOn(ls, t, lh, base, i, h + 1);
    var (done, post) := (Run(ls, h + 1, j, None, lh).value, Run(cur, h + 1, j, None, lh).value);
    forall k {:trigger FilledAt(ls, post, t, u, lh, i, k)} | h < k < |ls| ensures FilledAt(ls, post, t, u, lh, i, k) {
      UnchangedAt(ls, done, post, t, u, lh, base, i, h, k);
    }
  }

  ghost predicate BelowKept(cur: Layers, post: Layers, h: nat) {
    |cur| <= |post| && forall k :: 0 <= k <= h && k < |cur| ==> post[k] == cur[k]
  }

  lemma RunsOn(ls: Layers, t: seq<Hash>, lh: nat, base: nat, i: nat, h: nat)
    requires WellFormed(ls, t, lh, base) && i < |t| && h < |ls|
    ensures var r := Run(ls, h, Shr(i, h), None, lh);
            r.Some? && |r.value| == |ls| && Finished(ls, r.value, t, lh, i)
  {
    hide Run, Finished;
    CompleteReady(ls, t, lh, base, i);
    ShrMono(i, |t|, h);
    LenBounds(|t|, h);
    assert LoopInv(ls, ls, t, lh, i, h, None, true, 0, 0);
    RunFinishes(ls, ls, t, lh, i, h, None, true, 0, 0);
    SameHeightDone(ls, Run(ls, h, Shr(i, h), None, lh).value, t, lh, base, i);
  }

  lemma SameHeightDone(ls: Layers, post: Layers, t: seq<Hash>, lh: nat, base: nat, i: nat)
    requires WellFormed(ls, t, lh, base) && Finished(ls, post, t, lh, i)
    ensures |post| == |ls|
  {
    FinishedWellFormed(ls, post, t, lh, base, i);
    SameHeight(ls, post, |t|, base);
  }

  lemma UnchangedAt(ls: Layers, done: Layers, post: Layers, t: seq<Hash>, u: seq<Hash>, lh: nat, base: nat, i: nat, h: nat, k: nat)
    requires WellFormed(ls, t, lh, base) && OnPath(ls, i) && Finished(ls, done, t, lh, i)
    requires h < k < |ls| == |done| == |post| && post[k] == done[k]
    requires SiblingNode(ls, lh, h, Shr(i, h)) == Null
    ensures FilledAt(ls, post, t, u, lh, i, k)
  {
    hide Node, Shr, Len, SiblingNode, EdgeKnown;
    forall j | 0 <= j < |ls[k]| && post[k][j] == Null ensures ls[k][j] == Null {
      assert NullAt(done, k, j);
    }
  }

  lemma FilledHere(ls: Layers, cur: Layers, post: Layers, t: seq<Hash>, u: seq<Hash>, lh: nat, base: nat, i: nat, k: nat)
    requires Reached(ls, cur, t, u, lh, base, i, k) && k < |post| && post[k] == cur[k]
    ensures FilledAt(ls, post, t, u, lh, i, k)
  {
    hide Node, Shr, Len, SiblingNode, EdgeKnown, PathKnown;
    ReachedFacts(ls, cur, t, u, lh, base, i, k);
  }

  lemma {:induction false} RunFill(ls: Layers, cur: Layers, t: seq<Hash>, u: seq<Hash>, lh: nat, base: nat, i: nat, h: nat)
    requires Reached(ls, cur, t, u, lh, base, i, h)
    ensures var r := Run(cur, h, Shr(i, h), Some(Shr(i, h) + 1), lh);
            && (r.None? <==> exists k :: h < k < |ls| && Stopped(ls, lh, i, k))
            && (r.Some? ==>
                  && |r.value| == |ls| && BelowKept(cur, r.value, h)
                  && forall k :: h < k < |ls| ==> FilledAt(ls, r.value, t, u, lh, i, k))
    decreases |ls| - h
  {
    hide Run, WellFormed, SiblingNode, Node, FilledAt, Shr;
    if h + 1 == |ls| {
      TopReached(ls, cur, t, u, lh, base, i, h);
      RunTop(cur, h, Shr(i, h), Some(Shr(i, h) + 1), lh);
    } else if SiblingNode(ls, lh, h, Shr(i, h)) == Null {
      NotCarriedUp(ls, cur, t, u, lh, base, i, h);
      assert forall k :: h < k < |ls| ==> !PathKnown(ls, lh, i, k);
    } else {
      CarriedUp(ls, cur, t, u, lh, base, i, h);
      if !Stopped(ls, lh, i, h + 1) {
        var next := cur[h + 1 := ls[h + 1][Shr(i, h + 1) := Node(u, lh, h + 1, Shr(i, h + 1))]];
        RunFill(ls, next, t, u, lh, base, i, h + 1);
        var r := Run(next, h + 1, Shr(i, h + 1), Some(Shr(i, h + 1) + 1), lh);
        if r.Some? { FilledHere(ls, next, r.value, t, u, lh, base, i, h + 1); }
      }
    }
  }

  lemma TopReached(ls: Layers, cur: Layers, t: seq<Hash>, u: seq<Hash>, lh: nat, base: nat, i: nat, h: nat)
    requires Reached(ls, cur, t, u, lh, base, i, h) && h + 1 == |ls|
    ensures AtTop(cur, h)
  {
  }

  /** What a fill with another value leaves when it does not panic. */
  ghost predicate Filled(ls: Layers, post: Layers, t: seq<Hash>, u: seq<Hash>, lh: nat, i: nat)
    requires OnPath(ls, i)
  {
    |post| == |ls| && forall k :: 0 <= k < |ls| ==> FilledAt(ls, post, t, u, lh, i, k)
  }

  lemma FillRuns(ls: Layers, t: seq<Hash>, u: seq<Hash>, lh: nat, base: nat, i: nat)
    requires WellFormed(ls, t, lh, base) && OneChanged(t, u, i) && OnPath(ls, i)
    ensures |ls| >= 1 && |ls[0]| == |t|
    ensures var r := Run(ls[0 := ls[0][i := u[i]]], 0, i, Some(i + 1), lh);
            && (r.None? <==> FillPanics(ls, lh, i))
            && (r.Some? ==> Filled(ls, r.value, t, u, lh, i))
  {
    hide Run, SiblingNode, FilledAt, EdgeKnown, AllGood;
    var cur := ls[0 := ls[0][i := u[i]]];
    assert Shr(i, 0) == i && Node(u, lh, 0, i) == u[i];
    RunFill(ls, cur, t, u, lh, base, i, 0);
    var r := Run(cur, 0, i, Some(i + 1), lh);
    if r.Some? {
      FilledHere(ls, cur, r.value, t, u, lh, base, i, 0);
    }
  }

  /** The changed leaf is in the top node exactly if every node beside its path was known. */
  lemma FilledTop(ls: Layers, post: Layers, t: seq<Hash>, u: seq<Hash>, lh: nat, base: nat, i: nat)
    requires WellFormed(ls, t, lh, base) && OneChanged(t, u, i) && OnPath(ls, i) && Filled(ls, post, t, u, lh, i)
    ensures TopNode(post) == Node(if SiblingsKnown(ls, lh, i) then u else t, lh, |ls| - 1, 0)
    ensures TopNode(ls) == Node(t, lh, |ls| - 1, 0) != Node(u, lh, |ls| - 1, 0)
  {
    hide SiblingNode, Node, AllGood, EdgeKnown, Len;
    var k := |ls| - 1;
    assert FilledAt(ls, post, t, u, lh, i, k);
    RootKnown(ls, t, lh, base);
    PathInside(ls, |t|, base, i);
    assert Shr(i, k) == 0;
    PathDiffers(t, u, lh, i, k);
    assert PathKnown(ls, lh, i, k) <==> SiblingsKnown(ls, lh, i);
  }

  lemma FilledGood(ls: Layers, post: Layers, t: seq<Hash>, u: seq<Hash>, lh: nat, base: nat, i: nat)
    requires WellFormed(ls, t, lh, base) && OneChanged(t, u, i) && OnPath(ls, i) && Filled(ls, post, t, u, lh, i)
    requires SiblingsKnown(ls, lh, i)
    ensures WellFormed(post, u, lh, base)
  {
    hide SiblingNode, Node, Len, Shr, EdgeKnown, WellFormed;
    SizedOf(ls, t, lh, base);
    PathDiffers(t, u, lh, i, 0);
    forall h, j | 0 <= h < |post| && 0 <= j < |post[h]|
      ensures |post[h]| == |ls[h]| && Good(post[h][j], u, lh, h, j) && (post[h][j] == Null ==> ls[h][j] == Null)
    {
      assert FilledAt(ls, post, t, u, lh, i, h) && PathKnown(ls, lh, i, h);
      if j != Shr(i, h) { NodeBeside(t, u, lh, i, h, j); }
    }
    forall h | 0 <= h < |ls| ensures |post[h]| == |ls[h]| { assert FilledAt(ls, post, t, u, lh, i, h); }
    Assemble(ls, post, t, u, lh, base);
  }

  lemma FilledWrong(ls: Layers, post: Layers, t: seq<Hash>, u: seq<Hash>, lh: nat, base: nat, i: nat)
    requires OneChanged(t, u, i) && OnPath(ls, i) && |ls| >= 1 && Filled(ls, post, t, u, lh, i)
    ensures |post| == |ls| && !WellFormed(post, t, lh, base)
  {
    hide SiblingNode, EdgeKnown, Len;
    assert FilledAt(ls, post, t, u, lh, i, 0);
    assert Shr(i, 0) == i && Node(u, lh, 0, i) == u[i] && Node(t, lh, 0, i) == t[i];
    assert PathKnown(ls, lh, i, 0);
    assert !Good(post[0][i], t, lh, 0, i);
  }

  lemma TopIsNode(ls: Layers, t: seq<Hash>, lh: nat, base: nat, top: nat)
    requires WellFormed(ls, t, lh, base) && t != [] && |ls| == top + 1
    ensures TopNode(ls) == Node(t, lh, top, 0)
  {
    RootKnown(ls, t, lh, base);
  }

  /**
   For every tree, unknown leaf and wrong value: the fill panics if and only if the value gets as
   far as a known node in the middle of a layer; otherwise the value is stored, and the root
   changes, into that of the tree over the changed leaves, if and only if every node beside the
   path is known.
   */
  lemma FillExact(ls: Layers, t: seq<Hash>, lh: nat, base: nat, i: nat, leaf: Hash)
    requires WellFormed(ls, t, lh, base) && i < |t| && leaf != Null && leaf != t[i]
    ensures OnPath(ls, i) && |ls| >= 1 && |ls[0]| == |t|
    ensures var r := Run(ls[0 := ls[0][i := leaf]], 0, i, Some(i + 1), lh);
            && (r.None? <==> FillPanics(ls, lh, i))
            && (r.Some? ==>
                  && Filled(ls, r.value, t, t[i := leaf], lh, i)
                  && (TopNode(r.value) != TopNode(ls) <==> SiblingsKnown(ls, lh, i))
                  && (WellFormed(r.value, t[i := leaf], lh, base) <==> SiblingsKnown(ls, lh, i))
                  && !WellFormed(r.value, t, lh, base))
  {
    hide Run, WellFormed, Filled, FillPanics, SiblingsKnown, TopNode, Node, OnPath;
    var u := t[i := leaf];
    SizedOf(ls, t, lh, base);
    PathInside(ls, |t|, base, i);
    FillRuns(ls, t, u, lh, base, i);
    var r := Run(ls[0 := ls[0][i := leaf]], 0, i, Some(i + 1), lh);
    if r.Some? {
      FilledTop(ls, r.value, t, u, lh, base, i);
      FilledWrong(ls, r.value, t, u, lh, base, i);
      if SiblingsKnown(ls, lh, i) {
        FilledGood(ls, r.value, t, u, lh, base, i);
      } else if WellFormed(r.value, u, lh, base) {
        TopIsNode(r.value, u, lh, base, |ls| - 1);
      }
    }
  }

  // ---------- Runs that change nothing ----------

  /** No pair of a layer is known. */
  ghost predicate Quiet(c: seq<Hash>) {
    forall j: nat :: !ChildrenKnown(c, j)
  }

  ghost predicate QuietAt(ls: Layers, h: nat)
    requires h + 1 < |ls|
  {
    Quiet(ls[h]) && |ls[h + 1]| == (|ls[h]| + 1) / 2
  }

  lemma QuietRound(c: seq<Hash>, p: seq<Hash>, pad: nat, first: nat, end: nat)
    requires Quiet(c) && |p| == (|c| + 1) / 2 && 2 * first <= end <= |c|
    ensures RoundRuns(c, p, first, end, pad) && NewParents(c, p, first, end, pad) == p
    ensures After(LastChanged(c, p, first, end, pad, (end + 1) / 2)) == None
  {
    forall j: nat | 2 * j < |c| ensures ParentOf(c, j, pad) == Null {
      assert !ChildrenKnown(c, j);
      ParentKnown(c, j, pad);
    }
  }

  lemma {:induction false} QuietRun(ls: Layers, h: nat, start: nat, maybeEnd: Option<nat>, lh: nat)
    requires h < |ls| && |ls[|ls| - 1]| == 1 && start < |ls[h]|
    requires maybeEnd.Some? ==> start < maybeEnd.value <= |ls[h]|
    requires forall g :: h <= g < |ls| - 1 ==> QuietAt(ls, g)
    ensures Run(ls, h, start, maybeEnd, lh) == Some(ls)
    decreases |ls| - h
  {
    hide Run, Quiet, RoundRuns, NewParents, LastChanged;
    if h == |ls| - 1 {
      RunTop(ls, h, start, maybeEnd, lh);
    } else {
      var end := RoundEnd(maybeEnd, |ls[h]|);
      var k := h + 1;
      assert QuietAt(ls, h);
      QuietRound(ls[h], ls[k], h + lh, start / 2, end);
      assert LayerAt(ls, k) == ls[k] && ls[k := ls[k]] == ls;
      RunOn(ls, h, start, maybeEnd, lh);
      QuietRun(ls, k, start / 2, None, lh);
    }
  }
}
