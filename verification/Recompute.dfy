/**
 `recompute`: from a changed range of leaves upwards, layer by layer, writing only parents that can
 be computed. The step lemmas show what one layer of it preserves.
 */
module Recompute {
  import opened Bits
  import opened Hashing
  import opened Wrappers
  import opened PaddedTree
  import opened Layers

  /** Parent `j` is written: it is new, or both its children are known. */
  predicate Changed(c: seq<Hash>, p: seq<Hash>, first: nat, end: nat, pad: nat, j: nat)
    requires end <= |c|
  {
    first <= j < (end + 1) / 2 && (j >= |p| || ParentOf(c, j, pad) != Null)
  }

  /** The parent layer `q` that one round makes of `p`, and the last index it wrote. */
  ghost predicate Updated(c: seq<Hash>, p: seq<Hash>, q: seq<Hash>, first: nat, end: nat, pad: nat, last: Option<nat>)
    requires end <= |c|
  {
    && |q| == (if |p| < (end + 1) / 2 then (end + 1) / 2 else |p|)
    && (forall j :: 0 <= j < |q| ==> if Changed(c, p, first, end, pad, j) then q[j] == ParentOf(c, j, pad) else j < |p| && q[j] == p[j])
    && (last.Some? ==> Changed(c, p, first, end, pad, last.value))
    && (forall j: nat {:trigger Changed(c, p, first, end, pad, j)} :: Changed(c, p, first, end, pad, j) ==> last.Some? && j <= last.value)
  }

  /** A parent that changes a known node other than the last one: the source panics on it. */
  predicate Panics(c: seq<Hash>, p: seq<Hash>, pad: nat, j: nat)
    requires 2 * j < |c|
  {
    && j < |p| && ParentOf(c, j, pad) != Null
    && p[j] != Null && p[j] != ParentOf(c, j, pad) && j != |p| - 1
  }

  ghost predicate NoPanics(c: seq<Hash>, p: seq<Hash>, first: nat, end: nat, pad: nat)
    requires end <= |c|
  {
    forall j: nat {:trigger Panics(c, p, pad, j)} :: first <= j < (end + 1) / 2 ==> !Panics(c, p, pad, j)
  }

  /** The parent layer that one round makes of `p`. */
  function NewParents(c: seq<Hash>, p: seq<Hash>, first: nat, end: nat, pad: nat): (q: seq<Hash>)
    requires end <= |c|
    ensures |q| == (if 2 * first < end && |p| < (end + 1) / 2 then (end + 1) / 2 else |p|)
    ensures forall j :: 0 <= j < |q| ==>
              q[j] == (if Changed(c, p, first, end, pad, j) then ParentOf(c, j, pad) else if j < |p| then p[j] else Null)
  {
    var len := if 2 * first < end && |p| < (end + 1) / 2 then (end + 1) / 2 else |p|;
    seq(len, j requires 0 <= j =>
          if Changed(c, p, first, end, pad, j) then ParentOf(c, j, pad) else if j < |p| then p[j] else Null)
  }

  /** The last index below `k` that the round writes. */
  function LastChanged(c: seq<Hash>, p: seq<Hash>, first: nat, end: nat, pad: nat, k: nat): (r: Option<nat>)
    requires end <= |c|
    ensures r.Some? ==> r.value < k && Changed(c, p, first, end, pad, r.value)
    ensures forall j: nat {:trigger Changed(c, p, first, end, pad, j)} ::
              j < k && Changed(c, p, first, end, pad, j) ==> r.Some? && j <= r.value
  {
    if k == 0 then None
    else if Changed(c, p, first, end, pad, k - 1) then Some(k - 1)
    else LastChanged(c, p, first, end, pad, k - 1)
  }

  /** The round goes through: its range is within the layer, no gap opens and no known node changes. */
  ghost predicate RoundRuns(c: seq<Hash>, p: seq<Hash>, first: nat, end: nat, pad: nat) {
    && 2 * first <= end <= |c|
    && (2 * first < end ==> first <= |p|)
    && NoPanics(c, p, first, end, pad)
  }

  lemma NewUpdated(c: seq<Hash>, p: seq<Hash>, first: nat, end: nat, pad: nat)
    requires RoundRuns(c, p, first, end, pad) && first <= |p|
    ensures Updated(c, p, NewParents(c, p, first, end, pad), first, end, pad, LastChanged(c, p, first, end, pad, (end + 1) / 2))
  {
    hide ParentOf, NoPanics;
  }

  lemma UpdatedIsNew(c: seq<Hash>, p: seq<Hash>, q: seq<Hash>, first: nat, end: nat, pad: nat, last: Option<nat>)
    requires end <= |c| && 2 * first < end && Updated(c, p, q, first, end, pad, last)
    ensures q == NewParents(c, p, first, end, pad)
    ensures last == LastChanged(c, p, first, end, pad, (end + 1) / 2)
  {
    hide ParentOf;
    var r := LastChanged(c, p, first, end, pad, (end + 1) / 2);
    if last.Some? {
      assert Changed(c, p, first, end, pad, last.value);
    }
    if r.Some? {
      assert Changed(c, p, first, end, pad, r.value);
    }
  }

  /**
   One layer of `recompute`: collect the parents of `c[2*first..end]`, then write them into `p`.
   The source panics when a known node other than the last one would change, or at a gap.
   */
  method UpdateParents(c: seq<Hash>, p: seq<Hash>, first: nat, end: nat, pad: nat)
    returns (q: seq<Hash>, last: Option<nat>, touched: bool, panicked: bool)
    requires 2 * first <= end <= |c|
    requires end % 2 == 0 || end == |c|
    ensures panicked <==> !RoundRuns(c, p, first, end, pad)
    ensures !panicked ==> q == NewParents(c, p, first, end, pad)
    ensures !panicked ==> last == LastChanged(c, p, first, end, pad, (end + 1) / 2)
    ensures touched <==> 2 * first < end
  {
    hide ParentOf;
    var updates := CollectParents(c, first, end, pad);
    touched := |updates| > 0;
    q := p;
    last := None;
    for k := 0 to |updates|
      invariant k > 0 ==> first <= |p|
      invariant first <= |p| ==> |q| == (if |p| < first + k then first + k else |p|)
      invariant k == 0 ==> q == p
      invariant forall j :: 0 <= j < |q| ==>
                  if j < first + k && Changed(c, p, first, end, pad, j) then q[j] == ParentOf(c, j, pad)
                  else j < |p| && q[j] == p[j]
      invariant last.Some? ==> last.value < first + k && Changed(c, p, first, end, pad, last.value)
      invariant forall j: nat {:trigger Changed(c, p, first, end, pad, j)} ::
                  j < first + k && Changed(c, p, first, end, pad, j) ==> last.Some? && j <= last.value
      invariant forall j: nat {:trigger Panics(c, p, pad, j)} :: first <= j < first + k ==> !Panics(c, p, pad, j)
    {
      var index, parent := updates[k].0, updates[k].1;
      assert index == first + k && parent == ParentOf(c, index, pad);
      if index < |q| {
        if parent != Null {
          if q[index] != Null && q[index] != parent && index != |q| - 1 {
            assert Panics(c, p, pad, index);
            return q, last, touched, true;
          }
          assert Changed(c, p, first, end, pad, index);
          q := q[index := parent];
          last := Some(index);
        }
      } else if index == |q| {
        assert Changed(c, p, first, end, pad, index);
        q := q + [parent];
        last := Some(index);
      } else {
        return q, last, touched, true;
      }
    }
    panicked := false;
    if touched {
      assert Updated(c, p, q, first, end, pad, last);
      UpdatedIsNew(c, p, q, first, end, pad, last);
    }
  }

  method CollectParents(c: seq<Hash>, first: nat, end: nat, pad: nat) returns (updates: seq<(nat, Hash)>)
    requires 2 * first <= end <= |c|
    requires end % 2 == 0 || end == |c|
    ensures |updates| == (end + 1) / 2 - first
    ensures forall k :: 0 <= k < |updates| ==> updates[k] == (first + k, ParentOf(c, first + k, pad))
  {
    updates := [];
    var i := 0;
    while 2 * (first + i) + 1 < end
      invariant 0 <= i && 2 * (first + i) <= end
      invariant |updates| == i
      invariant forall k :: 0 <= k < i ==> updates[k] == (first + k, ParentOf(c, first + k, pad))
    {
      var left, right := c[2 * (first + i)], c[2 * (first + i) + 1];
      var parent := if left == Null || right == Null then Null else Parent(left, right);
      updates := updates + [(first + i, parent)];
      i := i + 1;
    }
    if 2 * (first + i) < end {
      var r := c[2 * (first + i)];
      var parent := if r == Null then Null else Parent(r, EndPad(pad));
      updates := updates + [(first + i, parent)];
    }
  }

  function WithLayer(ls: Layers, k: nat, p: seq<Hash>): Layers
    requires k <= |ls|
  {
    if k < |ls| then ls[k := p] else ls + [p]
  }

  function LayerAt(ls: Layers, k: nat): seq<Hash> {
    if k < |ls| then ls[k] else []
  }

  // ---------- The state after layers 0..h are done ----------

  ghost predicate Above(raw: Layers, ls: Layers, h: nat) {
    && h < |ls|
    && |ls| == (if |raw| <= h then h + 1 else |raw|)
    && (forall k :: h < k < |raw| ==> ls[k] == raw[k])
  }

  ghost predicate LensDone(ls: Layers, n: nat, h: nat) {
    forall k :: 0 <= k <= h && k < |ls| ==> |ls[k]| == Len(n, k)
  }

  ghost predicate NoNewNulls(raw: Layers, ls: Layers, h: nat) {
    forall k: nat, i: nat {:trigger NullAt(ls, k, i)} :: k <= h && NullAt(ls, k, i) ==> NullAt(raw, k, i)
  }

  ghost predicate LeftKept(raw: Layers, ls: Layers, start: nat, h: nat) {
    forall k, i :: 0 <= k <= h && k < |raw| && k < |ls| && 0 <= i < Shr(start, k) && i < |raw[k]| && i < |ls[k]| ==>
      ls[k][i] == raw[k][i]
  }

  ghost predicate Progress(raw: Layers, ls: Layers, t: seq<Hash>, lh: nat, start: nat, h: nat) {
    && Above(raw, ls, h)
    && LensDone(ls, |t|, h)
    && GoodUpTo(ls, t, lh, h)
    && NoNewNulls(raw, ls, h)
    && LeftKept(raw, ls, start, h)
  }

  /** Nothing from `e` on differs from the state at entry. */
  ghost predicate RightKept(raw: Layers, ls: Layers, h: nat, e: nat) {
    forall i :: 0 <= e <= i && h < |ls| && h < |raw| && i < |ls[h]| && i < |raw[h]| ==> ls[h][i] == raw[h][i]
  }

  /** The range of layer `h` that is still to be propagated. */
  ghost predicate RangeOk(raw: Layers, ls: Layers, n: nat, start: nat, h: nat, e: nat, full: bool) {
    && Shr(start, h) <= e <= Len(n, h)
    && (if full then RightKept(raw, ls, h, e) else e == Len(n, h))
  }

  lemma ReadyProgress(raw: Layers, t: seq<Hash>, lh: nat, start: nat)
    requires Ready(raw, t, lh, start)
    ensures Progress(raw, raw, t, lh, start, 0)
  {
  }

  lemma FirstWithinParents(raw: Layers, t: seq<Hash>, lh: nat, start: nat, k: nat)
    requires Ready(raw, t, lh, start)
    ensures Shr(start, k) <= |LayerAt(raw, k)| <= Len(|t|, k)
  {
    if k >= |raw| {
      ShrShrinks(start, |raw|, k);
    }
  }

  lemma ReadyParent(raw: Layers, t: seq<Hash>, lh: nat, start: nat, h: nat, i: nat)
    requires Ready(raw, t, lh, start)
    requires NullAt(raw, h, i) && i >= 2 * Shr(start, h + 1)
    ensures HasParent(raw, t, lh, h, i)
  {
  }

  lemma ReadyGood(raw: Layers, t: seq<Hash>, lh: nat, start: nat, h: nat, i: nat)
    requires Ready(raw, t, lh, start)
    requires h < |raw| && i < |raw[h]|
    ensures Good(raw[h][i], t, lh, h, i) || (h > 0 && i == |raw[h]| - 1 && i >= Shr(start, h))
  {
  }

  lemma ProgressAt(raw: Layers, ls: Layers, t: seq<Hash>, lh: nat, start: nat, h: nat, i: nat)
    requires Progress(raw, ls, t, lh, start, h)
    requires i < |ls[h]|
    ensures |ls[h]| == Len(|t|, h)
    ensures Good(ls[h][i], t, lh, h, i)
    ensures NullAt(ls, h, i) ==> NullAt(raw, h, i)
  {
  }

  /** Above a range every parent that can be computed is the true one; the others are there. */
  lemma ParentCases(raw: Layers, ls: Layers, t: seq<Hash>, lh: nat, start: nat, h: nat, j: nat)
    requires Ready(raw, t, lh, start) && h < |ls| && Progress(raw, ls, t, lh, start, h)
    requires Shr(start, h + 1) <= j && 2 * j < |ls[h]|
    ensures ParentOf(ls[h], j, h + lh) != Null ==> ParentOf(ls[h], j, h + lh) == Node(t, lh, h + 1, j)
    ensures ParentOf(ls[h], j, h + lh) == Null ==>
              h + 1 < |raw| && j < |raw[h + 1]| && Good(raw[h + 1][j], t, lh, h + 1, j)
  {
    hide Ready, Progress, Node, Good, Shr, Len;
    ProgressAt(raw, ls, t, lh, start, h, 2 * j);
    if 2 * j + 1 < |ls[h]| {
      ProgressAt(raw, ls, t, lh, start, h, 2 * j + 1);
    }
    if ChildrenKnown(ls[h], j) {
      ParentIsNode(ls[h], t, lh, h, j);
    } else {
      var i := if ls[h][2 * j] == Null then 2 * j else 2 * j + 1;
      assert NullAt(ls, h, i);
      ReadyParent(raw, t, lh, start, h, i);
      assert i / 2 == j;
    }
  }

  lemma NoPanic(raw: Layers, ls: Layers, t: seq<Hash>, lh: nat, start: nat, h: nat, j: nat)
    requires Ready(raw, t, lh, start) && Progress(raw, ls, t, lh, start, h)
    requires Shr(start, h + 1) <= j && 2 * j < |ls[h]|
    ensures !Panics(ls[h], LayerAt(ls, h + 1), h + lh, j)
  {
    hide Ready, Node, Shr, Len, LensDone, GoodUpTo, NoNewNulls, LeftKept, ParentOf;
    ParentCases(raw, ls, t, lh, start, h, j);
    if h + 1 < |raw| && j < |raw[h + 1]| {
      ReadyGood(raw, t, lh, start, h + 1, j);
    }
  }

  /** The layers after one round. */
  function Next(ls: Layers, h: nat, q: seq<Hash>, touched: bool): Layers
    requires h < |ls|
  {
    if touched || h + 1 < |ls| then WithLayer(ls, h + 1, q) else ls
  }

  /** One round finishes layer `h + 1`. */
  lemma RoundEntry(raw: Layers, ls: Layers, t: seq<Hash>, lh: nat, start: nat, h: nat, e: nat, full: bool,
                   end: nat, q: seq<Hash>, last: Option<nat>, j: nat)
    requires Ready(raw, t, lh, start) && Progress(raw, ls, t, lh, start, h)
    requires full ==> Complete(raw, t, lh)
    requires e <= end <= |ls[h]| && (full || end == Len(|t|, h)) && (end == e || end == e + 1)
    requires Updated(ls[h], LayerAt(ls, h + 1), q, Shr(start, h + 1), end, h + lh, last)
    requires j < |q|
    ensures Good(q[j], t, lh, h + 1, j)
    ensures q[j] == Null ==> NullAt(raw, h + 1, j)
    ensures j < Shr(start, h + 1) ==> j < |LayerAt(raw, h + 1)| && q[j] == raw[h + 1][j]
  {
    hide Ready, Node, Shr, Len, LensDone, GoodUpTo, NoNewNulls, LeftKept, ParentOf, AllGood;
    var first := Shr(start, h + 1);
    assert LayerAt(ls, h + 1) == LayerAt(raw, h + 1);
    if Changed(ls[h], LayerAt(ls, h + 1), first, end, h + lh, j) {
      ParentCases(raw, ls, t, lh, start, h, j);
    } else {
      assert j < |raw[h + 1]| && q[j] == raw[h + 1][j];
      ReadyGood(raw, t, lh, start, h + 1, j);
      if j < first {
      } else if j < (end + 1) / 2 {
        ParentCases(raw, ls, t, lh, start, h, j);
      } else {
        BeyondRange(raw, ls, t, lh, start, h, end, full, j);
      }
    }
  }

  lemma BeyondRange(raw: Layers, ls: Layers, t: seq<Hash>, lh: nat, start: nat, h: nat, end: nat, full: bool, j: nat)
    requires Ready(raw, t, lh, start) && Progress(raw, ls, t, lh, start, h)
    requires full ==> Complete(raw, t, lh)
    requires full || end == Len(|t|, h)
    requires (end + 1) / 2 <= j && h + 1 < |raw| && j < |raw[h + 1]|
    ensures Good(raw[h + 1][j], t, lh, h + 1, j)
  {
    FirstWithinParents(raw, t, lh, start, h + 1);
  }

  lemma RoundLen(raw: Layers, ls: Layers, t: seq<Hash>, lh: nat, start: nat, h: nat, full: bool,
                 end: nat, q: seq<Hash>, last: Option<nat>)
    requires Ready(raw, t, lh, start) && Progress(raw, ls, t, lh, start, h)
    requires full ==> Complete(raw, t, lh) && h + 1 < |raw|
    requires end <= |ls[h]| && (full || end == Len(|t|, h))
    requires Updated(ls[h], LayerAt(ls, h + 1), q, Shr(start, h + 1), end, h + lh, last)
    ensures |q| == Len(|t|, h + 1)
  {
    hide OnlyLastStale, ParentsThere, LensBetween, AllGood, GoodUpTo, NoNewNulls, LeftKept, Changed;
    assert LayerAt(ls, h + 1) == LayerAt(raw, h + 1);
    FirstWithinParents(raw, t, lh, start, h + 1);
  }

  ghost predicate LayerDone(raw: Layers, q: seq<Hash>, t: seq<Hash>, lh: nat, start: nat, k: nat) {
    forall j :: 0 <= j < |q| ==>
      && Good(q[j], t, lh, k, j)
      && (q[j] == Null ==> NullAt(raw, k, j))
      && (j < Shr(start, k) ==> j < |LayerAt(raw, k)| && q[j] == raw[k][j])
  }

  lemma RoundLayer(raw: Layers, ls: Layers, t: seq<Hash>, lh: nat, start: nat, h: nat, e: nat, full: bool,
                   end: nat, q: seq<Hash>, last: Option<nat>)
    requires Ready(raw, t, lh, start) && Progress(raw, ls, t, lh, start, h)
    requires full ==> Complete(raw, t, lh)
    requires e <= end <= |ls[h]| && (full || end == Len(|t|, h)) && (end == e || end == e + 1)
    requires Updated(ls[h], LayerAt(ls, h + 1), q, Shr(start, h + 1), end, h + lh, last)
    ensures LayerDone(raw, q, t, lh, start, h + 1)
  {
    hide Ready, Progress, Complete, Updated, Node, Shr, Len, Good, NullAt;
    forall j | 0 <= j < |q|
      ensures Good(q[j], t, lh, h + 1, j)
      ensures q[j] == Null ==> NullAt(raw, h + 1, j)
      ensures j < Shr(start, h + 1) ==> j < |LayerAt(raw, h + 1)| && q[j] == raw[h + 1][j]
    {
      RoundEntry(raw, ls, t, lh, start, h, e, full, end, q, last, j);
    }
  }

  lemma AddLayer(raw: Layers, ls: Layers, post: Layers, q: seq<Hash>, t: seq<Hash>, lh: nat, start: nat, h: nat)
    requires Progress(raw, ls, t, lh, start, h)
    requires post == WithLayer(ls, h + 1, q)
    requires |q| == Len(|t|, h + 1) && LayerDone(raw, q, t, lh, start, h + 1)
    ensures Progress(raw, post, t, lh, start, h + 1)
  {
    hide Node, Shr, Len, Good, NullAt, NoNewNulls;
    assert forall k :: 0 <= k <= h ==> post[k] == ls[k];
    assert post[h + 1] == q;
    AddLayerNulls(raw, ls, post, q, h);
  }

  lemma AddLayerNulls(raw: Layers, ls: Layers, post: Layers, q: seq<Hash>, h: nat)
    requires h < |ls| && h + 1 < |post| && post[h + 1] == q
    requires forall k :: 0 <= k <= h ==> post[k] == ls[k]
    requires NoNewNulls(raw, ls, h)
    requires forall j :: 0 <= j < |q| && q[j] == Null ==> NullAt(raw, h + 1, j)
    ensures NoNewNulls(raw, post, h + 1)
  {
    forall k: nat, i: nat | k <= h + 1 && NullAt(post, k, i) ensures NullAt(raw, k, i) {
      if k <= h {
        assert NullAt(ls, k, i);
      }
    }
  }

  lemma RoundProgress(raw: Layers, ls: Layers, t: seq<Hash>, lh: nat, start: nat, h: nat, e: nat, full: bool,
                      end: nat, q: seq<Hash>, last: Option<nat>, touched: bool)
    requires Ready(raw, t, lh, start) && h < |ls| && Progress(raw, ls, t, lh, start, h)
    requires full ==> Complete(raw, t, lh)
    requires e <= end <= |ls[h]| && (full || end == Len(|t|, h)) && (end == e || end == e + 1)
    requires Updated(ls[h], LayerAt(ls, h + 1), q, Shr(start, h + 1), end, h + lh, last)
    requires h + 1 < |raw| || (touched && !full)
    ensures Progress(raw, Next(ls, h, q, touched), t, lh, start, h + 1)
  {
    hide Ready, Complete, Updated, Shr, Len, LayerDone, LensDone, GoodUpTo, NoNewNulls, LeftKept;
    RoundLen(raw, ls, t, lh, start, h, full, end, q, last);
    RoundLayer(raw, ls, t, lh, start, h, e, full, end, q, last);
    AddLayer(raw, ls, Next(ls, h, q, touched), q, t, lh, start, h);
  }

  // ---------- Which part of the next layer changed ----------

  function EndOf(last: Option<nat>, len: nat): nat {
    if last.Some? then last.value + 1 else len
  }

  lemma RoundRangeFull(raw: Layers, ls: Layers, t: seq<Hash>, lh: nat, start: nat, h: nat, end: nat, q: seq<Hash>, last: Option<nat>)
    requires h + 1 < |raw| && Above(raw, ls, h)
    requires end <= |ls[h]| && |q| == Len(|t|, h + 1)
    requires Shr(start, h + 1) <= Len(|t|, h + 1)
    requires Updated(ls[h], LayerAt(ls, h + 1), q, Shr(start, h + 1), end, h + lh, last)
    ensures RangeOk(raw, WithLayer(ls, h + 1, q), |t|, start, h + 1, EndOf(last, |q|), true)
  {
    hide ParentOf, Shr, Len;
    var post := WithLayer(ls, h + 1, q);
    assert post[h + 1] == q && LayerAt(ls, h + 1) == raw[h + 1];
    forall i | EndOf(last, |q|) <= i < |q| && i < |raw[h + 1]| ensures q[i] == raw[h + 1][i] {
      assert !Changed(ls[h], LayerAt(ls, h + 1), Shr(start, h + 1), end, h + lh, i);
    }
  }

  /** Below layer `d` of an append everything from `start` on is unknown, so nothing is written. */
  ghost predicate UnknownFrom(ls: Layers, start: nat, h: nat) {
    forall i :: h < |ls| && 2 * Shr(start, h + 1) <= i < |ls[h]| ==> ls[h][i] == Null
  }

  lemma RoundUnknown(raw: Layers, ls: Layers, t: seq<Hash>, lh: nat, start: nat, h: nat, d: nat, q: seq<Hash>, last: Option<nat>)
    requires h < d && Extended(raw, t, lh, start, d) && Above(raw, ls, h) && |ls[h]| == Len(|t|, h)
    requires UnknownFrom(ls, start, h)
    requires Updated(ls[h], LayerAt(ls, h + 1), q, Shr(start, h + 1), Len(|t|, h), h + lh, last)
    ensures last == None
    ensures q == raw[h + 1]
    ensures h + 1 < d ==> UnknownFrom(WithLayer(ls, h + 1, q), start, h + 1)
  {
    hide GoodUpTo, LastChildrenKnown, Shr;
    var first := Shr(start, h + 1);
    assert LayerAt(ls, h + 1) == raw[h + 1];
    assert |raw[h + 1]| == Len(|t|, h + 1);
    var c, p, end, pad := ls[h], LayerAt(ls, h + 1), Len(|t|, h), h + lh;
    forall j: nat ensures !Changed(c, p, first, end, pad, j) {
      if first <= j < (end + 1) / 2 {
        assert c[2 * j] == Null;
      }
    }
    assert forall j :: 0 <= j < |q| ==> q[j] == raw[h + 1][j];
    assert WithLayer(ls, h + 1, q)[h + 1] == q;
  }

  /** From layer `d` up the last node of the next layer is always written. */
  lemma RoundLastWritten(raw: Layers, ls: Layers, t: seq<Hash>, lh: nat, start: nat, h: nat, d: nat, q: seq<Hash>, last: Option<nat>)
    requires d <= h < |ls| && Extended(raw, t, lh, start, d) && Progress(raw, ls, t, lh, start, h)
    requires |ls[h]| == Len(|t|, h)
    requires Updated(ls[h], LayerAt(ls, h + 1), q, Shr(start, h + 1), Len(|t|, h), h + lh, last)
    ensures last == Some(Len(|t|, h + 1) - 1)
  {
    hide Updated, GoodUpTo, LeftKept, UnknownBelow, NoNewNulls, LastChildrenKnown, LensDone, Shr;
    var j := Len(|t|, h + 1) - 1;
    LenBounds(|t|, h + 1);
    LenBounds(|t|, h);
    ShrMono(start, |t| - 1, h + 1);
    LastChildKnown(raw, ls, |t|, h, d, 2 * j);
    if 2 * j + 1 < |ls[h]| {
      LastChildKnown(raw, ls, |t|, h, d, 2 * j + 1);
    }
    LastIsLast(ls[h], LayerAt(ls, h + 1), q, Shr(start, h + 1), Len(|t|, h), h + lh, last);
  }

  lemma LastIsLast(c: seq<Hash>, p: seq<Hash>, q: seq<Hash>, first: nat, end: nat, pad: nat, last: Option<nat>)
    requires 0 < end <= |c| && Updated(c, p, q, first, end, pad, last)
    requires first <= (end + 1) / 2 - 1 && ChildrenKnown(c, (end + 1) / 2 - 1)
    ensures last == Some((end + 1) / 2 - 1)
  {
    assert Changed(c, p, first, end, pad, (end + 1) / 2 - 1);
  }

  lemma LastChildKnown(raw: Layers, ls: Layers, n: nat, h: nat, d: nat, i: nat)
    requires LastChildrenKnown(raw, n, d) && NoNewNulls(raw, ls, h)
    requires d <= h < |ls| && i < |ls[h]| && 2 * (Len(n, h + 1) - 1) <= i
    ensures ls[h][i] != Null
  {
    assert NullAt(ls, h, i) ==> NullAt(raw, h, i);
  }

  // ---------- Closure ----------

  ghost predicate ClosedTo(ls: Layers, h: nat) {
    forall k, j :: 1 <= k <= h && k < |ls| && 0 <= j < |ls[k]| && ChildrenKnown(ls[k - 1], j) ==> ls[k][j] != Null
  }

  /** Closure at entry: left of the range and, when no node is missing, also right of it. */
  ghost predicate ClosedOutside(raw: Layers, start: nat, full: bool, stop: nat) {
    forall k, j ::
      (1 <= k < |raw| && 0 <= j < |raw[k]| && ChildrenKnown(raw[k - 1], j)
       && (j < Shr(start, k) || (full && (k > 1 || j >= stop)))) ==> raw[k][j] != Null
  }

  lemma RoundClosedAt(raw: Layers, ls: Layers, t: seq<Hash>, lh: nat, start: nat, h: nat, e: nat, full: bool, stop: nat,
                      end: nat, q: seq<Hash>, last: Option<nat>, j: nat)
    requires Progress(raw, ls, t, lh, start, h) && Ready(raw, t, lh, start)
    requires full ==> Complete(raw, t, lh)
    requires ClosedOutside(raw, start, full, stop)
    requires e <= end <= |ls[h]| && (full || end == Len(|t|, h)) && RangeOk(raw, ls, |t|, start, h, e, full)
    requires h == 0 ==> stop <= (end + 1) / 2
    requires Updated(ls[h], LayerAt(ls, h + 1), q, Shr(start, h + 1), end, h + lh, last)
    requires j < |q| && ChildrenKnown(ls[h], j)
    ensures q[j] != Null
  {
    var first := Shr(start, h + 1);
    var p := LayerAt(ls, h + 1);
    assert |ls[h]| == Len(|t|, h);
    hide Ready, Complete, LensDone, GoodUpTo, NoNewNulls, LeftKept, RightKept, Len, Shr;
    if first <= j < (end + 1) / 2 {
      assert Changed(ls[h], p, first, end, h + lh, j);
    } else {
      assert !Changed(ls[h], p, first, end, h + lh, j);
      assert q[j] == p[j] == raw[h + 1][j];
      OutsideRange(raw, ls, t, lh, start, h, e, end, full, j);
    }
  }

  lemma OutsideRange(raw: Layers, ls: Layers, t: seq<Hash>, lh: nat, start: nat, h: nat, e: nat, end: nat, full: bool, j: nat)
    requires Progress(raw, ls, t, lh, start, h) && Ready(raw, t, lh, start)
    requires full ==> Complete(raw, t, lh)
    requires h + 1 < |raw| && j < |raw[h + 1]|
    requires e <= end <= |ls[h]| && (full || end == Len(|t|, h)) && RangeOk(raw, ls, |t|, start, h, e, full)
    requires j < Shr(start, h + 1) || (end + 1) / 2 <= j
    requires ChildrenKnown(ls[h], j)
    ensures ChildrenKnown(raw[h], j)
    ensures j >= Shr(start, h + 1) ==> full
  {
    hide OnlyLastStale, ParentsThere, AllGood, GoodUpTo, NoNewNulls, LeftKept, RightKept;
    SameChildren(raw, ls, start, h, e, end, |t|, full, j);
  }

  lemma SameChildren(raw: Layers, ls: Layers, start: nat, h: nat, e: nat, end: nat, n: nat, full: bool, j: nat)
    requires h < |ls| && h < |raw| && |ls[h]| == Len(n, h)
    requires LeftKept(raw, ls, start, h) && Shr(start, h) <= |raw[h]| <= Len(n, h)
    requires j >= Shr(start, h + 1) ==> |raw[h]| == Len(n, h) && RightKept(raw, ls, h, e)
    requires e <= end <= |ls[h]|
    requires j < Shr(start, h + 1) || (end + 1) / 2 <= j
    requires ChildrenKnown(ls[h], j)
    ensures ChildrenKnown(raw[h], j)
  {
    if j < Shr(start, h + 1) {
      assert ls[h][2 * j] == raw[h][2 * j] && ls[h][2 * j + 1] == raw[h][2 * j + 1];
    } else {
      assert ls[h][2 * j] == raw[h][2 * j];
      if 2 * j + 1 < |ls[h]| {
        assert ls[h][2 * j + 1] == raw[h][2 * j + 1];
      }
    }
  }

  lemma RoundClosed(raw: Layers, ls: Layers, t: seq<Hash>, lh: nat, start: nat, h: nat, e: nat, full: bool, stop: nat,
                    end: nat, q: seq<Hash>, last: Option<nat>)
    requires Progress(raw, ls, t, lh, start, h) && Ready(raw, t, lh, start)
    requires full ==> Complete(raw, t, lh)
    requires ClosedOutside(raw, start, full, stop) && ClosedTo(ls, h)
    requires e <= end <= |ls[h]| && (full || end == Len(|t|, h)) && RangeOk(raw, ls, |t|, start, h, e, full)
    requires h == 0 ==> stop <= (end + 1) / 2
    requires Updated(ls[h], LayerAt(ls, h + 1), q, Shr(start, h + 1), end, h + lh, last)
    ensures ClosedTo(WithLayer(ls, h + 1, q), h + 1)
  {
    hide Ready, Complete, Updated, ClosedOutside, RangeOk, Shr, Len, ChildrenKnown, LensDone, GoodUpTo, NoNewNulls, LeftKept;
    var post := WithLayer(ls, h + 1, q);
    assert post[h + 1] == q && post[h] == ls[h];
    forall k, j | 1 <= k <= h + 1 && k < |post| && 0 <= j < |post[k]| && ChildrenKnown(post[k - 1], j)
      ensures post[k][j] != Null
    {
      if k == h + 1 {
        RoundClosedAt(raw, ls, t, lh, start, h, e, full, stop, end, q, last, j);
      } else {
        assert post[k] == ls[k] && post[k - 1] == ls[k - 1];
      }
    }
  }

  // ---------- The loop ----------

  function EndOrLen(maybeEnd: Option<nat>, len: nat): nat {
    if maybeEnd.Some? then maybeEnd.value else len
  }

  /** What holds of `ls` when layers `0..h` are done and `raw` was the state at entry. */
  ghost predicate LoopInv(raw: Layers, ls: Layers, t: seq<Hash>, lh: nat, start: nat, h: nat,
                          maybeEnd: Option<nat>, full: bool, d: nat, stop: nat)
  {
    && Ready(raw, t, lh, start)
    && (if full then Complete(raw, t, lh) else Extended(raw, t, lh, start, d))
    && h < |ls| && |ls[h]| == Len(|t|, h)
    && |ls| == (if |raw| <= h then h + 1 else |raw|)
    && (|ls| > |raw| ==> Len(|t|, |ls| - 2) > 1)
    && Progress(raw, ls, t, lh, start, h)
    && RangeOk(raw, ls, |t|, start, h, EndOrLen(maybeEnd, |ls[h]|), full)
    && (h == 0 ==> stop <= (EndOrLen(maybeEnd, |t|) + 1) / 2)
    && (!full && h <= d ==> maybeEnd == None)
    && (!full && h < d ==> UnknownFrom(ls, start, h))
    && (ClosedOutside(raw, start, full, stop) ==> ClosedTo(ls, h))
  }

  lemma RecomputeStart(raw: Layers, t: seq<Hash>, lh: nat, start: nat, maybeEnd: Option<nat>, full: bool, d: nat, stop: nat)
    requires Ready(raw, t, lh, start)
    requires full ==> Complete(raw, t, lh)
    requires !full ==> Extended(raw, t, lh, start, d) && maybeEnd.None?
    requires maybeEnd.Some? ==> start <= maybeEnd.value <= |t|
    requires stop <= (EndOrLen(maybeEnd, |t|) + 1) / 2
    ensures |raw| >= 1 && Shr(start, 0) == start
    ensures LoopInv(raw, raw, t, lh, start, 0, maybeEnd, full, d, stop)
  {
    ReadyProgress(raw, t, lh, start);
  }

  lemma RoundReady(raw: Layers, ls: Layers, t: seq<Hash>, lh: nat, start: nat, h: nat,
                   maybeEnd: Option<nat>, full: bool, d: nat, stop: nat, end: nat)
    requires LoopInv(raw, ls, t, lh, start, h, maybeEnd, full, d, stop) && h < |ls|
    requires var e := EndOrLen(maybeEnd, |ls[h]|);
             end == if e % 2 == 1 && e != |ls[h]| then e + 1 else e
    ensures Shr(start, h + 1) == Shr(start, h) / 2
    ensures 2 * Shr(start, h + 1) <= end <= |ls[h]| && (end % 2 == 0 || end == |ls[h]|)
    ensures Shr(start, h + 1) <= |LayerAt(ls, h + 1)|
    ensures NoPanics(ls[h], LayerAt(ls, h + 1), Shr(start, h + 1), end, h + lh)
    ensures Len(|t|, h + 1) <= Len(|t|, h) == |ls[h]|
    ensures Len(|t|, h) > 1 ==> Len(|t|, h + 1) < Len(|t|, h)
    ensures h >= |raw| ==> |ls| == h + 1
  {
    hide Ready, Progress, Complete, Extended, UnknownFrom, ClosedOutside, ClosedTo, RangeOk, Len, Shr, NoPanics;
    HalvedAbove(|t|, start, h);
    RangeFacts(raw, ls, t, start, h, EndOrLen(maybeEnd, |ls[h]|), full);
    ParentsOfRange(raw, ls, t, lh, start, h, end);
  }

  lemma ParentsOfRange(raw: Layers, ls: Layers, t: seq<Hash>, lh: nat, start: nat, h: nat, end: nat)
    requires Ready(raw, t, lh, start) && h < |ls| && Progress(raw, ls, t, lh, start, h)
    requires end <= |ls[h]|
    ensures Shr(start, h + 1) <= |LayerAt(ls, h + 1)|
    ensures NoPanics(ls[h], LayerAt(ls, h + 1), Shr(start, h + 1), end, h + lh)
  {
    hide Ready, Panics, LensDone, GoodUpTo, NoNewNulls, LeftKept, Len, Shr;
    FirstWithinParents(raw, t, lh, start, h + 1);
    var c, p, pad := ls[h], LayerAt(ls, h + 1), h + lh;
    assert p == LayerAt(raw, h + 1);
    forall j: nat | Shr(start, h + 1) <= j < (end + 1) / 2 ensures !Panics(c, p, pad, j) {
      NoPanic(raw, ls, t, lh, start, h, j);
    }
  }

  lemma RoundDone(raw: Layers, ls: Layers, t: seq<Hash>, lh: nat, start: nat, h: nat,
                  maybeEnd: Option<nat>, full: bool, d: nat, stop: nat, end: nat,
                  q: seq<Hash>, last: Option<nat>, touched: bool)
    requires LoopInv(raw, ls, t, lh, start, h, maybeEnd, full, d, stop) && h < |ls|
    requires var e := EndOrLen(maybeEnd, |ls[h]|);
             end == if e % 2 == 1 && e != |ls[h]| then e + 1 else e
    requires end <= |ls[h]|
    requires touched <==> 2 * Shr(start, h + 1) < end
    requires Updated(ls[h], LayerAt(ls, h + 1), q, Shr(start, h + 1), end, h + lh, last)
    requires |ls[h]| > 1 || h < |ls| - 1
    ensures var next := if last.Some? then Some(last.value + 1) else None;
            LoopInv(raw, Next(ls, h, q, touched), t, lh, start, h + 1, next, full, d, stop)
    ensures h + 1 < |Next(ls, h, q, touched)|
  {
    hide Ready, Complete, Progress, Extended, ClosedOutside, ClosedTo, RangeOk, UnknownFrom, Updated, Shr, Len;
    var e := EndOrLen(maybeEnd, |ls[h]|);
    assert end == Len(|t|, h) || full by { RangeFacts(raw, ls, t, start, h, e, full); }
    assert h + 1 < |raw| || (touched && !full) by {
      RoundGrows(raw, ls, t, lh, start, h, e, end, full, d);
    }
    RoundProgress(raw, ls, t, lh, start, h, e, full, end, q, last, touched);
    RoundLen(raw, ls, t, lh, start, h, full, end, q, last);
    RoundRange(raw, ls, t, lh, start, h, end, full, d, q, last);
    if ClosedOutside(raw, start, full, stop) {
      assert h == 0 ==> stop <= (end + 1) / 2 by {
        if h == 0 { ZeroLen(|t|, h); }
      }
      RoundClosed(raw, ls, t, lh, start, h, e, full, stop, end, q, last);
    }
  }

  lemma ZeroLen(n: nat, h: nat)
    requires h == 0
    ensures Len(n, h) == n
  {
  }

  lemma RangeFacts(raw: Layers, ls: Layers, t: seq<Hash>, start: nat, h: nat, e: nat, full: bool)
    requires RangeOk(raw, ls, |t|, start, h, e, full)
    ensures Shr(start, h) <= e <= Len(|t|, h)
    ensures !full ==> e == Len(|t|, h)
  {
  }

  lemma RoundGrows(raw: Layers, ls: Layers, t: seq<Hash>, lh: nat, start: nat, h: nat, e: nat, end: nat, full: bool, d: nat)
    requires Ready(raw, t, lh, start)
    requires h < |ls| && |ls[h]| == Len(|t|, h)
    requires |ls| == (if |raw| <= h then h + 1 else |raw|)
    requires full ==> Complete(raw, t, lh)
    requires !full ==> Extended(raw, t, lh, start, d)
    requires RangeOk(raw, ls, |t|, start, h, e, full)
    requires end == if e % 2 == 1 && e != |ls[h]| then e + 1 else e
    requires |ls[h]| > 1 || h < |ls| - 1
    ensures h + 1 < |raw| || (2 * Shr(start, h + 1) < end && !full)
  {
    hide AllGood, OnlyLastStale, ParentsThere, LensBetween, GoodUpTo, UnknownBelow, LastChildrenKnown;
    if full {
      if h >= |raw| - 1 {
        ShrShrinks(|t|, |raw| - 1, h);
      }
    } else {
      LenBounds(|t|, h);
      ShrMono(start, |t| - 1, h);
    }
  }

  lemma RoundRange(raw: Layers, ls: Layers, t: seq<Hash>, lh: nat, start: nat, h: nat, end: nat, full: bool, d: nat, q: seq<Hash>, last: Option<nat>)
    requires Ready(raw, t, lh, start) && h < |ls| && Progress(raw, ls, t, lh, start, h)
    requires |ls[h]| == Len(|t|, h) && end <= |ls[h]|
    requires |ls| == (if |raw| <= h then h + 1 else |raw|)
    requires full ==> h + 1 < |raw|
    requires !full ==> Extended(raw, t, lh, start, d) && end == Len(|t|, h)
    requires |q| == Len(|t|, h + 1)
    requires Updated(ls[h], LayerAt(ls, h + 1), q, Shr(start, h + 1), end, h + lh, last)
    requires !full && h < d ==> UnknownFrom(ls, start, h)
    ensures RangeOk(raw, WithLayer(ls, h + 1, q), |t|, start, h + 1, EndOf(last, |q|), full)
    ensures !full && h + 1 <= d ==> last == None
    ensures !full && h + 1 < d ==> UnknownFrom(WithLayer(ls, h + 1, q), start, h + 1)
  {
    hide Ready, Extended, UnknownFrom, Updated, LensDone, GoodUpTo, NoNewNulls, LeftKept, Shr, Len, RightKept;
    FirstWithinParents(raw, t, lh, start, h + 1);
    if full {
      RoundRangeFull(raw, ls, t, lh, start, h, end, q, last);
    } else if h < d {
      RoundUnknown(raw, ls, t, lh, start, h, d, q, last);
    } else {
      RoundLastWritten(raw, ls, t, lh, start, h, d, q, last);
    }
  }

  lemma RecomputeFinish(raw: Layers, ls: Layers, t: seq<Hash>, lh: nat, start: nat, h: nat,
                        maybeEnd: Option<nat>, full: bool, d: nat, stop: nat)
    requires LoopInv(raw, ls, t, lh, start, h, maybeEnd, full, d, stop)
    requires h == |ls| - 1 && |ls[h]| <= 1
    ensures Finished(raw, ls, t, lh, start)
    ensures ClosedOutside(raw, start, full, stop) ==> Closed(ls)
  {
    hide Good, Shr, Len, Complete, Extended, RangeOk, UnknownFrom, ClosedOutside, ParentsThere, OnlyLastStale, LensBetween;
  }

  // ---------- The whole of it ----------

  function RoundEnd(maybeEnd: Option<nat>, len: nat): nat {
    var e := EndOrLen(maybeEnd, len);
    if e % 2 == 1 && e != len then e + 1 else e
  }

  function After(last: Option<nat>): Option<nat> {
    if last.Some? then Some(last.value + 1) else None
  }

  /** One round on the layers as they are. */
  function RoundNext(ls: Layers, h: nat, first: nat, end: nat, lh: nat): Layers
    requires h < |ls| && end <= |ls[h]|
  {
    Next(ls, h, NewParents(ls[h], LayerAt(ls, h + 1), first, end, h + lh), 2 * first < end)
  }

  function RoundLast(ls: Layers, h: nat, first: nat, end: nat, lh: nat): Option<nat>
    requires h < |ls| && end <= |ls[h]|
  {
    After(LastChanged(ls[h], LayerAt(ls, h + 1), first, end, h + lh, (end + 1) / 2))
  }

  /** Another round follows on the layer just made. */
  ghost predicate GoesOn(ls: Layers, h: nat, first: nat, end: nat, lh: nat) {
    && h < |ls|
    && RoundRuns(ls[h], LayerAt(ls, h + 1), first, end, h + lh)
    && (2 * first < end || h + 1 < |ls|)
  }

  predicate AtTop(ls: Layers, h: nat) {
    h == |ls| - 1 && |ls[h]| <= 1
  }

  /** What `recompute` makes of any layers, from layer `h` on; nothing if it panics. */
  ghost function Run(ls: Layers, h: nat, start: nat, maybeEnd: Option<nat>, lh: nat): (r: Option<Layers>)
    requires h < |ls|
    decreases |ls| - 1 - h, |ls[h]|
  {
    var (first, end) := (start / 2, RoundEnd(maybeEnd, |ls[h]|));
    if AtTop(ls, h) then Some(ls)
    else if !GoesOn(ls, h, first, end, lh) then None
    else Run(RoundNext(ls, h, first, end, lh), h + 1, first, RoundLast(ls, h, first, end, lh), lh)
  }

  lemma RunOn(ls: Layers, h: nat, start: nat, maybeEnd: Option<nat>, lh: nat)
    requires h < |ls| && !AtTop(ls, h)
    ensures var (first, end) := (start / 2, RoundEnd(maybeEnd, |ls[h]|));
            && (!GoesOn(ls, h, first, end, lh) ==> Run(ls, h, start, maybeEnd, lh) == None)
            && (GoesOn(ls, h, first, end, lh) ==>
                  && end <= |ls[h]| && h + 1 < |RoundNext(ls, h, first, end, lh)|
                  && Run(ls, h, start, maybeEnd, lh)
                     == Run(RoundNext(ls, h, first, end, lh), h + 1, first, RoundLast(ls, h, first, end, lh), lh))
  {
  }

  /** Layers below the new one stay, and those above it are still to come. */
  lemma RoundKeeps(ls: Layers, h: nat, first: nat, end: nat, lh: nat)
    requires GoesOn(ls, h, first, end, lh) && !AtTop(ls, h)
    ensures end <= |ls[h]|
    ensures var next := RoundNext(ls, h, first, end, lh);
            && |ls| <= |next| && h + 1 < |next|
            && (forall g :: 0 <= g <= h ==> next[g] == ls[g])
            && (forall k :: h + 1 < k ==> LayerAt(next, k) == LayerAt(ls, k))
            && StepOk(ls[h], LayerAt(ls, h + 1), next[h + 1], h + lh)
            && (h + 1 < |ls| ==> |next| == |ls|)
            && (h + 1 == |ls| ==> |next| == |ls| + 1 && |next[h + 1]| < |ls[h]|)
  {
    hide ParentOf, Changed, NoPanics, StepOk;
    NewStep(ls[h], LayerAt(ls, h + 1), first, end, h + lh);
  }

  lemma EndOfRound(maybeEnd: Option<nat>, len: nat)
    ensures var e := EndOrLen(maybeEnd, len);
            RoundEnd(maybeEnd, len) == if e % 2 == 1 && e != len then e + 1 else e
  {
  }

  /** The round does not panic, and the invariant holds of its outcome. */
  lemma RoundGoesOn(raw: Layers, ls: Layers, t: seq<Hash>, lh: nat, start: nat, h: nat,
                    maybeEnd: Option<nat>, full: bool, d: nat, stop: nat)
    requires h < |ls| && LoopInv(raw, ls, t, lh, start, h, maybeEnd, full, d, stop) && !AtTop(ls, h)
    ensures var (first, end) := (Shr(start, h + 1), RoundEnd(maybeEnd, |ls[h]|));
            && first == Shr(start, h) / 2 && GoesOn(ls, h, first, end, lh) && end <= |ls[h]|
            && LoopInv(raw, RoundNext(ls, h, first, end, lh), t, lh, start, h + 1,
                       RoundLast(ls, h, first, end, lh), full, d, stop)
  {
    hide LoopInv, Updated, NoPanics, Shr, Len, NewParents, LastChanged, LayerAt, RoundEnd;
    var (first, end) := (Shr(start, h + 1), RoundEnd(maybeEnd, |ls[h]|));
    EndOfRound(maybeEnd, |ls[h]|);
    RoundReady(raw, ls, t, lh, start, h, maybeEnd, full, d, stop, end);
    var (c, p) := (ls[h], LayerAt(ls, h + 1));
    NewUpdated(c, p, first, end, h + lh);
    var (q, last) := (NewParents(c, p, first, end, h + lh), LastChanged(c, p, first, end, h + lh, (end + 1) / 2));
    RoundDone(raw, ls, t, lh, start, h, maybeEnd, full, d, stop, end, q, last, 2 * first < end);
  }

  /** In the states that its callers prepare, `recompute` never panics and finishes the tree. */
  lemma {:induction false} RunFinishes(raw: Layers, ls: Layers, t: seq<Hash>, lh: nat, start: nat, h: nat,
                                       maybeEnd: Option<nat>, full: bool, d: nat, stop: nat)
    requires h < |ls| && LoopInv(raw, ls, t, lh, start, h, maybeEnd, full, d, stop)
    ensures var r := Run(ls, h, Shr(start, h), maybeEnd, lh);
            && r.Some? && Finished(raw, r.value, t, lh, start)
            && (ClosedOutside(raw, start, full, stop) ==> Closed(r.value))
    decreases |ls| - 1 - h, |ls[h]|
  {
    hide Finished, Closed, ClosedOutside, LoopInv, Shr, Run, GoesOn, RoundNext, RoundLast, RoundEnd, StepOk;
    if AtTop(ls, h) {
      RecomputeFinish(raw, ls, t, lh, start, h, maybeEnd, full, d, stop);
      RunTop(ls, h, Shr(start, h), maybeEnd, lh);
    } else {
      var (first, end) := (Shr(start, h + 1), RoundEnd(maybeEnd, |ls[h]|));
      RoundGoesOn(raw, ls, t, lh, start, h, maybeEnd, full, d, stop);
      RoundKeeps(ls, h, first, end, lh);
      RunOn(ls, h, Shr(start, h), maybeEnd, lh);
      RunFinishes(raw, RoundNext(ls, h, first, end, lh), t, lh, start, h + 1, RoundLast(ls, h, first, end, lh), full, d, stop);
    }
  }

  lemma RunTop(ls: Layers, h: nat, start: nat, maybeEnd: Option<nat>, lh: nat)
    requires h < |ls| && AtTop(ls, h)
    ensures Run(ls, h, start, maybeEnd, lh) == Some(ls)
  {
  }

  lemma RecomputeRight(raw: Layers, t: seq<Hash>, lh: nat, start: nat, maybeEnd: Option<nat>, full: bool, d: nat, stop: nat)
    requires Ready(raw, t, lh, start)
    requires full ==> Complete(raw, t, lh)
    requires !full ==> Extended(raw, t, lh, start, d) && maybeEnd.None?
    requires maybeEnd.Some? ==> start <= maybeEnd.value <= |t|
    requires stop <= (EndOrLen(maybeEnd, |t|) + 1) / 2
    ensures |raw| >= 1
    ensures var r := Run(raw, 0, start, maybeEnd, lh);
            && r.Some? && Finished(raw, r.value, t, lh, start)
            && (ClosedOutside(raw, start, full, stop) ==> Closed(r.value))
  {
    hide Ready, Complete, Extended, Finished, Closed, ClosedOutside, LoopInv, Run;
    RecomputeStart(raw, t, lh, start, maybeEnd, full, d, stop);
    RunFinishes(raw, raw, t, lh, start, 0, maybeEnd, full, d, stop);
  }

  // ---------- What holds of it on any layers ----------

  /** An entry of the parent layer is the old one, or its children's parent where that may be written. */
  ghost predicate StepAt(c: seq<Hash>, p: seq<Hash>, q: seq<Hash>, pad: nat, x: nat)
    requires x < |q|
  {
    || (x < |p| && q[x] == p[x])
    || (&& 2 * x < |c| && q[x] == ParentOf(c, x, pad)
        && (x < |p| ==> q[x] != Null && (p[x] == Null || x == |p| - 1)))
  }

  ghost predicate StepOk(c: seq<Hash>, p: seq<Hash>, q: seq<Hash>, pad: nat) {
    |p| <= |q| && forall x :: 0 <= x < |q| ==> StepAt(c, p, q, pad, x)
  }

  lemma NewStep(c: seq<Hash>, p: seq<Hash>, first: nat, end: nat, pad: nat)
    requires RoundRuns(c, p, first, end, pad)
    ensures StepOk(c, p, NewParents(c, p, first, end, pad), pad)
  {
    hide ParentOf;
    var q := NewParents(c, p, first, end, pad);
    forall x | 0 <= x < |q| ensures StepAt(c, p, q, pad, x) {
      if first <= x < (end + 1) / 2 {
        assert !Panics(c, p, pad, x);
      }
    }
  }

  /** Every layer of the result comes from the one below it and the layer that was there. */
  lemma {:induction false} RunSteps(ls: Layers, h: nat, start: nat, maybeEnd: Option<nat>, lh: nat)
    requires h < |ls| && Run(ls, h, start, maybeEnd, lh).Some?
    ensures var post := Run(ls, h, start, maybeEnd, lh).value;
            && |ls| <= |post|
            && (forall g :: 0 <= g <= h ==> post[g] == ls[g])
            && (forall g, k :: h <= g && k == g + 1 && k < |post| ==> StepOk(post[g], LayerAt(ls, k), post[k], g + lh))
    decreases |ls| - 1 - h, |ls[h]|
  {
    hide Run, RoundNext, GoesOn, StepOk, RoundLast;
    if AtTop(ls, h) {
      RunTop(ls, h, start, maybeEnd, lh);
    } else {
      var (first, end) := (start / 2, RoundEnd(maybeEnd, |ls[h]|));
      RunOn(ls, h, start, maybeEnd, lh);
      RoundKeeps(ls, h, first, end, lh);
      RunSteps(RoundNext(ls, h, first, end, lh), h + 1, first, RoundLast(ls, h, first, end, lh), lh);
    }
  }
}
