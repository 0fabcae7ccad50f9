/** `RangeProof::validate`: the leaves of a range are hashed up between two single proofs. */
module RangeProofs {
  import opened Bits
  import opened Hashing
  import opened Wrappers
  import opened Rfc6962
  import opened PaddedTree
  import opened AppendProofs

  datatype RangeProof = RangeProof(left: Proof, right: Proof)

  /** Node `g` above the nodes `c`, which stand at `s, s+1, ...`; outside siblings fill the ends. */
  function RangeParent(c: seq<Hash>, s: nat, lsib: Hash, rsib: Hash, g: nat): Hash
    requires |c| > 0 && s / 2 <= g <= (s + |c| - 1) / 2
  {
    Parent(if 2 * g >= s then c[2 * g - s] else lsib,
           if 2 * g + 1 < s + |c| then c[2 * g + 1 - s] else rsib)
  }

  function RangeParents(c: seq<Hash>, s: nat, lsib: Hash, rsib: Hash): (r: seq<Hash>)
    requires |c| > 0
    ensures |r| == (s + |c| - 1) / 2 - s / 2 + 1
    ensures forall q :: 0 <= q < |r| ==> r[q] == RangeParent(c, s, lsib, rsib, s / 2 + q)
  {
    seq((s + |c| - 1) / 2 - s / 2 + 1, q requires 0 <= q <= (s + |c| - 1) / 2 - s / 2 =>
      RangeParent(c, s, lsib, rsib, s / 2 + q))
  }

  function RangeUp(c: seq<Hash>, s: nat, lsibs: seq<Hash>, rsibs: seq<Hash>): (r: seq<Hash>)
    requires |c| > 0 && |lsibs| == |rsibs|
    ensures |r| > 0
    decreases |lsibs|
  {
    if |lsibs| == 0 then c
    else RangeUp(RangeParents(c, s, lsibs[0], rsibs[0]), s / 2, lsibs[1..], rsibs[1..])
  }

  /** The sibling for each path bit; `LemmasThere` says that no missing one is read. */
  function Siblings(p: Proof): (r: seq<Hash>)
    ensures |r| == |p.path|
    ensures forall k :: 0 <= k < |r| && k + 1 < |p.lemmas| ==> r[k] == p.lemmas[k + 1]
  {
    seq(|p.path|, k requires 0 <= k => if k + 1 < |p.lemmas| then p.lemmas[k + 1] else Null)
  }

  function Root(p: Proof): Hash
    requires |p.lemmas| > 0
  {
    p.lemmas[|p.lemmas| - 1]
  }

  predicate Intact(p: Proof) {
    2 <= |p.lemmas| <= |p.path| + 2 && Climb(p.lemmas[0], Steps(p)) == Root(p)
  }

  /** What `RangeProof::validate` looks at before it hashes the range up. */
  predicate RangeChecks(p: RangeProof, leaves: seq<Hash>, start: nat) {
    && Intact(p.left) && Intact(p.right)
    && Root(p.left) == Root(p.right)
    && |p.left.path| == |p.right.path|
    && |leaves| > 0
    && p.left.lemmas[0] == leaves[0]
    && p.right.lemmas[0] == leaves[|leaves| - 1]
    && Position(p.left.path) == start
    && Position(p.right.path) == start + |leaves| - 1
  }

  /** The loop reads a left sibling where the range starts at a right child, and a right one where it ends at a left child. */
  predicate LemmasThere(p: RangeProof)
    requires |p.left.path| == |p.right.path|
  {
    forall k :: 0 <= k < |p.left.path| ==>
      && (!p.left.path[k] ==> k + 1 < |p.left.lemmas|)
      && (p.right.path[k] ==> k + 1 < |p.right.lemmas|)
  }

  predicate RangeAccepts(p: RangeProof, leaves: seq<Hash>, start: nat) {
    && RangeChecks(p, leaves, start)
    && LemmasThere(p)
    && RangeUp(leaves, start, Siblings(p.left), Siblings(p.right)) == [Root(p.left)]
  }

  /** One round of the loop: the parents of `c`, built as the source does from both ends. */
  method BuildParents(c: seq<Hash>, leftIsLeft: bool, lsib: Hash, rightIsLeft: bool, rsib: Hash, ghost s: nat)
    returns (parents: seq<Hash>)
    requires |c| > 0
    requires leftIsLeft == (s % 2 == 0)
    requires rightIsLeft == ((s + |c| - 1) % 2 == 0)
    ensures parents == RangeParents(c, s, lsib, rsib)
  {
    hide RangeParents;
    parents := [];
    var i := 0;
    if !leftIsLeft {
      parents := [Parent(lsib, c[0])];
      i := 1;
    }
    ghost var all := RangeParents(c, s, lsib, rsib);
    while i + 1 < |c|
      invariant 0 <= i <= |c|
      invariant (s + i) % 2 == 0
      invariant |parents| == (s + i) / 2 - s / 2 <= |all|
      invariant parents == all[..|parents|]
    {
      assert all[|parents|] == RangeParent(c, s, lsib, rsib, s / 2 + |parents|);
      parents := parents + [Parent(c[i], c[i + 1])];
      i := i + 2;
    }
    if i < |c| {
      // The source's "Unexpected error" is the case that the last node is a right child.
      assert rightIsLeft;
      assert all[|parents|] == RangeParent(c, s, lsib, rsib, s / 2 + |parents|);
      parents := parents + [Parent(c[i], rsib)];
    }
  }

  lemma RangeUpNext(c: seq<Hash>, s: nat, ls: seq<Hash>, rs: seq<Hash>)
    requires |c| > 0 && |ls| == |rs|
    ensures Shr(s, 0) == s && Shr(s + |c| - 1, 0) == s + |c| - 1
    ensures RangeUp(c, s, ls, rs) ==
      if |ls| == 0 then c else RangeUp(RangeParents(c, s, ls[0], rs[0]), s / 2, ls[1..], rs[1..])
  {
    hide RangeParents;
  }

  /** The loop over the heights, once the positions of both proofs are known to match the range. */
  method HashUp(p: RangeProof, leaves: seq<Hash>, start: nat) returns (r: Option<seq<Hash>>)
    requires |p.left.path| == |p.right.path| && |leaves| > 0
    requires Position(p.left.path) == start && Position(p.right.path) == start + |leaves| - 1
    ensures r.Some? <==> LemmasThere(p)
    ensures r.Some? ==> |r.value| == 1 && r.value == RangeUp(leaves, start, Siblings(p.left), Siblings(p.right))
  {
    hide Position, RangeParents, RangeUp;
    ghost var end := start + |leaves| - 1;
    PositionIsPath(p.left.path, start);
    PositionIsPath(p.right.path, end);
    var children := leaves;
    var ls, rs := Siblings(p.left), Siblings(p.right);
    assert ls[0..] == ls && rs[0..] == rs;
    for height := 0 to |p.left.path|
      invariant forall k :: 0 <= k < height ==>
        (!p.left.path[k] ==> k + 1 < |p.left.lemmas|) && (p.right.path[k] ==> k + 1 < |p.right.lemmas|)
      invariant |children| == Shr(end, height) - Shr(start, height) + 1 > 0
      invariant RangeUp(children, Shr(start, height), ls[height..], rs[height..]) == RangeUp(leaves, start, ls, rs)
    {
      if (!p.left.path[height] && height + 1 >= |p.left.lemmas|) || (p.right.path[height] && height + 1 >= |p.right.lemmas|) {
        return None;
      }
      assert ls[height..][1..] == ls[height + 1..] && rs[height..][1..] == rs[height + 1..];
      RangeUpNext(children, Shr(start, height), ls[height..], rs[height..]);
      children := BuildParents(children, p.left.path[height], ls[height], p.right.path[height], rs[height], Shr(start, height));
    }
    RangeUpNext(children, Shr(start, |ls|), ls[|ls|..], rs[|ls|..]);
    return Some(children);
  }

  method ValidateRange(p: RangeProof, leaves: seq<Hash>, start: nat) returns (r: Verdict)
    ensures r == Accepted <==> RangeAccepts(p, leaves, start)
    ensures r == IndexPanic <==>
      || |p.left.lemmas| > |p.left.path| + 2 || (Intact(p.left) && |p.right.lemmas| > |p.right.path| + 2)
      || (RangeChecks(p, leaves, start) &&
            exists k :: 0 <= k < |p.left.path| &&
              ((!p.left.path[k] && k + 1 >= |p.left.lemmas|) || (p.right.path[k] && k + 1 >= |p.right.lemmas|)))
  {
    hide RangeUp, Position, Steps, Climb;
    if |p.left.lemmas| > |p.left.path| + 2 {
      return IndexPanic;
    }
    var leftOk := ValidateIntegrity(p.left);
    if !leftOk {
      return Rejected;
    }
    if |p.right.lemmas| > |p.right.path| + 2 {
      return IndexPanic;
    }
    var rightOk := ValidateIntegrity(p.right);
    if !rightOk || Root(p.left) != Root(p.right) || |p.left.path| != |p.right.path| {
      return Rejected;
    }
    if |leaves| == 0 {
      return Rejected;
    }
    var end := start + |leaves| - 1;
    if p.left.lemmas[0] != leaves[0] || p.right.lemmas[0] != leaves[|leaves| - 1] {
      return Rejected;
    }
    var leftPos := ComputePosition(p.left);
    var rightPos := ComputePosition(p.right);
    if leftPos != start || rightPos != end {
      return Rejected;
    }
    var children := HashUp(p, leaves, start);
    if children == None {
      return IndexPanic;
    }
    return if children.value[0] == Root(p.left) then Accepted else Rejected;
  }

  ghost predicate NodesAt(c: seq<Hash>, t: seq<Hash>, lh: nat, h: nat, s: nat) {
    forall q :: 0 <= q < |c| ==> c[q] == Node(t, lh, h, s + q)
  }

  lemma ParentsSound(c: seq<Hash>, s: nat, lsib: Hash, rsib: Hash, t: seq<Hash>, lh: nat, h: nat)
    requires |c| > 0
    requires NodesAt(RangeParents(c, s, lsib, rsib), t, lh, h + 1, s / 2)
    ensures NodesAt(c, t, lh, h, s)
  {
    hide RangeParents;
    var r := RangeParents(c, s, lsib, rsib);
    forall q | 0 <= q < |c| ensures c[q] == Node(t, lh, h, s + q) {
      var g := (s + q) / 2;
      assert r[g - s / 2] == RangeParent(c, s, lsib, rsib, s / 2 + (g - s / 2));
      assert Node(t, lh, h + 1, g) == Parent(Node(t, lh, h, 2 * g), Node(t, lh, h, 2 * g + 1));
      assert s + q == 2 * g || s + q == 2 * g + 1;
    }
  }

  lemma ParentsComplete(c: seq<Hash>, s: nat, lsib: Hash, rsib: Hash, t: seq<Hash>, lh: nat, h: nat)
    requires |c| > 0
    requires NodesAt(c, t, lh, h, s)
    requires s % 2 == 1 ==> lsib == Node(t, lh, h, s - 1)
    requires (s + |c| - 1) % 2 == 0 ==> rsib == Node(t, lh, h, s + |c|)
    ensures NodesAt(RangeParents(c, s, lsib, rsib), t, lh, h + 1, s / 2)
  {
    hide RangeParents;
    var r := RangeParents(c, s, lsib, rsib);
    forall q | 0 <= q < |r| ensures r[q] == Node(t, lh, h + 1, s / 2 + q) {
      var g := s / 2 + q;
      assert r[q] == RangeParent(c, s, lsib, rsib, g);
      if 2 * g >= s {
        assert c[2 * g - s] == Node(t, lh, h, s + (2 * g - s));
      }
      if 2 * g + 1 < s + |c| {
        assert c[2 * g + 1 - s] == Node(t, lh, h, s + (2 * g + 1 - s));
      }
    }
  }

  /** Going back down: true nodes at the top force true nodes at the bottom. */
  lemma {:induction false} RangeUpSound(c: seq<Hash>, s: nat, ls: seq<Hash>, rs: seq<Hash>, t: seq<Hash>, lh: nat, h: nat)
    requires |c| > 0 && |ls| == |rs|
    requires NodesAt(RangeUp(c, s, ls, rs), t, lh, h + |ls|, Shr(s, |ls|))
    ensures NodesAt(c, t, lh, h, s)
    decreases |ls|
  {
    if |ls| > 0 {
      hide NodesAt, RangeParents;
      ShrHalf(s, |ls| - 1);
      RangeUpSound(RangeParents(c, s, ls[0], rs[0]), s / 2, ls[1..], rs[1..], t, lh, h + 1);
      ParentsSound(c, s, ls[0], rs[0], t, lh, h);
    }
  }

  /** The siblings that stand outside the range on the left and on the right are the true ones. */
  ghost predicate OuterTrue(ls: seq<Hash>, rs: seq<Hash>, t: seq<Hash>, lh: nat, h: nat, s: nat, e: nat)
    requires |ls| == |rs|
  {
    forall k :: 0 <= k < |ls| ==>
      && (Shr(s, k) % 2 == 1 ==> ls[k] == Node(t, lh, h + k, Shr(s, k) - 1))
      && (Shr(e, k) % 2 == 0 ==> rs[k] == Node(t, lh, h + k, Shr(e, k) + 1))
  }

  lemma OuterTail(ls: seq<Hash>, rs: seq<Hash>, t: seq<Hash>, lh: nat, h: nat, s: nat, e: nat)
    requires |ls| == |rs| > 0 && OuterTrue(ls, rs, t, lh, h, s, e)
    ensures OuterTrue(ls[1..], rs[1..], t, lh, h + 1, s / 2, e / 2)
    ensures s % 2 == 1 ==> ls[0] == Node(t, lh, h, s - 1)
    ensures e % 2 == 0 ==> rs[0] == Node(t, lh, h, e + 1)
  {
    hide Node;
    forall k | 0 <= k < |ls| - 1
      ensures Shr(s / 2, k) == Shr(s, k + 1) && Shr(e / 2, k) == Shr(e, k + 1)
      ensures ls[1..][k] == ls[k + 1] && rs[1..][k] == rs[k + 1]
    {
      ShrHalf(s, k);
      ShrHalf(e, k);
    }
    assert Shr(s, 0) == s && Shr(e, 0) == e;
  }

  lemma {:induction false} RangeUpComplete(c: seq<Hash>, s: nat, ls: seq<Hash>, rs: seq<Hash>, t: seq<Hash>, lh: nat, h: nat)
    requires |c| > 0 && |ls| == |rs|
    requires NodesAt(c, t, lh, h, s)
    requires OuterTrue(ls, rs, t, lh, h, s, s + |c| - 1)
    ensures NodesAt(RangeUp(c, s, ls, rs), t, lh, h + |ls|, Shr(s, |ls|))
    ensures |RangeUp(c, s, ls, rs)| == Shr(s + |c| - 1, |ls|) - Shr(s, |ls|) + 1
    decreases |ls|
  {
    hide NodesAt, OuterTrue, Node, RangeUp, RangeParents, Shr;
    RangeUpNext(c, s, ls, rs);
    if |ls| > 0 {
      var e := s + |c| - 1;
      OuterTail(ls, rs, t, lh, h, s, e);
      ParentsComplete(c, s, ls[0], rs[0], t, lh, h);
      var up := RangeParents(c, s, ls[0], rs[0]);
      ShrHalf(s, |ls| - 1);
      ShrHalf(e, |ls| - 1);
      RangeUpComplete(up, s / 2, ls[1..], rs[1..], t, lh, h + 1);
    }
  }

  // ---------- An accepted range proof has no surplus path bits ----------

  function Size(h: Hash): nat {
    match h
    case Parent(l, r) => 1 + Size(l) + Size(r)
    case _ => 0
  }

  lemma {:induction false} ClimbGrows(item: Hash, steps: seq<Step>, n: nat)
    requires n <= |steps|
    ensures Size(Climb(item, steps)) >= Size(Climb(item, steps[..n]))
    ensures n < |steps| ==> Size(Climb(item, steps)) > Size(Climb(item, steps[..n]))
    decreases |steps|
  {
    var k := |steps| - 1;
    if n <= k {
      ClimbGrows(item, steps[..k], n);
      assert steps[..k][..n] == steps[..n];
    } else {
      assert steps[..n] == steps;
    }
  }

  lemma ClimbOver(item: Hash, steps: seq<Step>, n: nat)
    requires n < |steps|
    ensures Size(Climb(item, steps)) > Size(steps[n].sibling)
  {
    hide Climb;
    ClimbGrows(item, steps, n + 1);
    ClimbOne(item, steps[..n + 1], 0);
  }

  /** Where the turn is not to `side` both climbs take the same sibling. */
  ghost predicate Alike(side: bool, a: seq<Step>, b: seq<Step>) {
    && |a| <= |b|
    && forall k :: 0 <= k < |a| ==>
         a[k].isLeft == b[k].isLeft && (a[k].isLeft != side ==> a[k].sibling == b[k].sibling)
  }

  lemma AlikeLess(side: bool, a: seq<Step>, b: seq<Step>)
    requires 0 < |a| < |b| && Alike(side, a, b)
    ensures Alike(side, a[..|a| - 1], b[..|b| - 1])
  {
  }

  /** A climb and a longer one that is like it, and only turns to `side` afterwards, end apart. */
  lemma {:induction false} LongerEndsElsewhere(side: bool, item: Hash, a: seq<Step>, b: seq<Step>)
    requires |a| < |b| && Alike(side, a, b)
    requires forall k :: |a| <= k < |b| ==> b[k].isLeft == side
    ensures Climb(item, a) != Climb(item, b)
    decreases |a|
  {
    hide Climb, Alike;
    var (k, d) := (|a|, |b|);
    ClimbOne(item, b, 0);
    if k == 0 {
      ClimbGrows(item, b, 0);
      assert b[..0] == a;
    } else {
      ClimbOne(item, a, 0);
      LastAlike(side, a, b);
      if a[k - 1].isLeft == side {
        AlikeLess(side, a, b);
        LongerEndsElsewhere(side, item, a[..k - 1], b[..d - 1]);
      } else {
        ClimbOver(item, b[..d - 1], k - 1);
      }
    }
  }

  lemma LastAlike(side: bool, a: seq<Step>, b: seq<Step>)
    requires 0 < |a| && Alike(side, a, b)
    ensures var k := |a| - 1; a[k].isLeft == b[k].isLeft && (a[k].isLeft != side ==> a[k].sibling == b[k].sibling)
  {
  }

  /** Hashing the range up is a climb from either end of it. */
  ghost predicate Spine(steps: seq<Step>, side: bool, m: nat, sibs: seq<Hash>) {
    && |steps| == |sibs|
    && forall k :: 0 <= k < |steps| ==>
         steps[k].isLeft == (Shr(m, k) % 2 == 0) && (steps[k].isLeft != side ==> steps[k].sibling == sibs[k])
  }

  lemma SpineUp(step: Step, steps: seq<Step>, side: bool, m: nat, sibs: seq<Hash>)
    requires |sibs| > 0 && Spine(steps, side, m / 2, sibs[1..])
    requires step.isLeft == (m % 2 == 0) && (step.isLeft != side ==> step.sibling == sibs[0])
    ensures Spine([step] + steps, side, m, sibs)
  {
    var all := [step] + steps;
    forall k | 0 <= k < |all|
      ensures all[k].isLeft == (Shr(m, k) % 2 == 0) && (all[k].isLeft != side ==> all[k].sibling == sibs[k])
    {
      if k > 0 {
        ShrHalf(m, k - 1);
        assert all[k] == steps[k - 1] && sibs[k] == sibs[1..][k - 1];
      }
    }
  }

  lemma FirstClimb(item: Hash, step: Step, steps: seq<Step>)
    ensures Climb(item, [step] + steps)
            == Climb(if step.isLeft then Parent(item, step.sibling) else Parent(step.sibling, item), steps)
  {
    ClimbAppend(item, [step], steps);
    assert [step][..0] == [];
  }

  lemma {:induction false} LeftSpine(c: seq<Hash>, s: nat, ls: seq<Hash>, rs: seq<Hash>) returns (steps: seq<Step>)
    requires |c| > 0 && |ls| == |rs|
    ensures Spine(steps, true, s, ls) && RangeUp(c, s, ls, rs)[0] == Climb(c[0], steps)
    decreases |ls|
  {
    hide RangeParents, RangeUp, Climb, Spine;
    RangeUpNext(c, s, ls, rs);
    if |ls| == 0 {
      steps := [];
      NoSpine(c[0], true, s, ls);
    } else {
      var up := RangeParents(c, s, ls[0], rs[0]);
      var rest := LeftSpine(up, s / 2, ls[1..], rs[1..]);
      assert up[0] == RangeParent(c, s, ls[0], rs[0], s / 2 + 0);
      var step := if s % 2 == 1 then Step(ls[0], false) else Step(up[0].right, true);
      steps := [step] + rest;
      SpineUp(step, rest, true, s, ls);
      FirstClimb(c[0], step, rest);
    }
  }

  lemma {:induction false} RightSpine(c: seq<Hash>, s: nat, ls: seq<Hash>, rs: seq<Hash>) returns (steps: seq<Step>)
    requires |c| > 0 && |ls| == |rs|
    ensures Spine(steps, false, s + |c| - 1, rs)
    ensures var up := RangeUp(c, s, ls, rs); up[|up| - 1] == Climb(c[|c| - 1], steps)
    decreases |ls|
  {
    hide RangeParents, RangeUp, Climb, Spine;
    RangeUpNext(c, s, ls, rs);
    var e := s + |c| - 1;
    if |ls| == 0 {
      steps := [];
      NoSpine(c[|c| - 1], false, e, rs);
    } else {
      var up := RangeParents(c, s, ls[0], rs[0]);
      var rest := RightSpine(up, s / 2, ls[1..], rs[1..]);
      var top := up[|up| - 1];
      assert top == RangeParent(c, s, ls[0], rs[0], s / 2 + (|up| - 1));
      var step := if e % 2 == 0 then Step(rs[0], true) else Step(top.left, false);
      steps := [step] + rest;
      SpineUp(step, rest, false, e, rs);
      FirstClimb(c[|c| - 1], step, rest);
    }
  }

  lemma NoSpine(item: Hash, side: bool, m: nat, sibs: seq<Hash>)
    requires |sibs| == 0
    ensures Spine([], side, m, sibs) && Climb(item, []) == item
  {
  }

  /** With path bits beyond its siblings, an end of the range cannot reach the root both ways. */
  lemma EndIsShaped(p: Proof, item: Hash, m: nat, side: bool, steps: seq<Step>)
    requires Intact(p) && p.lemmas[0] == item && Position(p.path) == m
    requires forall k :: 0 <= k < |p.path| && p.path[k] != side ==> k + 1 < |p.lemmas|
    requires Spine(steps, side, m, Siblings(p)) && Climb(item, steps) == Root(p)
    ensures Shaped(p)
  {
    hide Position, Shr, Climb;
    PositionIsPath(p.path, m);
    var a := Steps(p);
    var k := |a|;
    if k < |p.path| {
      if steps[k].isLeft == side {
        assert Alike(side, a, steps);
        LongerEndsElsewhere(side, item, a, steps);
      } else {
        assert steps[k].sibling == Siblings(p)[k] == Root(p);
        ClimbOver(item, steps, k);
      }
    }
  }

  /** An accepted range proof has exactly one sibling for each path bit, though nothing checks that. */
  lemma AcceptedIsShaped(p: RangeProof, leaves: seq<Hash>, start: nat)
    requires RangeAccepts(p, leaves, start)
    ensures Shaped(p.left) && Shaped(p.right)
  {
    hide Position, RangeUp, Climb, Spine, Intact;
    var ls, rs := Siblings(p.left), Siblings(p.right);
    var left := LeftSpine(leaves, start, ls, rs);
    var right := RightSpine(leaves, start, ls, rs);
    EndIsShaped(p.left, leaves[0], start, true, left);
    EndIsShaped(p.right, leaves[|leaves| - 1], start + |leaves| - 1, false, right);
  }

  // ---------- What an accepted range proof says ----------

  /**
   Soundness: an accepted range proof under a root of height `depth` shows, one by one, the nodes
   that the padded tree holds from `start` on, which are leaves if the proof is as deep as the tree.
   */
  lemma RangeSound(p: RangeProof, leaves: seq<Hash>, start: nat, t: seq<Hash>, lh: nat, depth: nat)
    requires RangeAccepts(p, leaves, start)
    requires Root(p.left) == Node(t, lh, depth, 0) && |p.left.path| <= depth
    ensures forall q :: 0 <= q < |leaves| ==> leaves[q] == Node(t, lh, depth - |p.left.path|, start + q)
  {
    hide RangeUp, Position, Node, Intact;
    var ls, rs := Siblings(p.left), Siblings(p.right);
    PositionIsPath(p.left.path, start);
    RangeUpSound(leaves, start, ls, rs, t, lh, depth - |ls|);
  }

  lemma TrueStepsOuter(p: RangeProof, t: seq<Hash>, lh: nat, s: nat, e: nat)
    requires Shaped(p.left) && Shaped(p.right) && |p.left.path| == |p.right.path|
    requires TrueSteps(Steps(p.left), t, lh, s) && TrueSteps(Steps(p.right), t, lh, e)
    ensures OuterTrue(Siblings(p.left), Siblings(p.right), t, lh, 0, s, e)
  {
    hide Node, Shr;
    forall k | 0 <= k < |p.left.path|
      ensures Siblings(p.left)[k] == Node(t, lh, k, Sibling(Shr(s, k)))
      ensures Siblings(p.right)[k] == Node(t, lh, k, Sibling(Shr(e, k)))
    {
      assert Steps(p.left)[k].sibling == p.left.lemmas[k + 1];
      assert Steps(p.right)[k].sibling == p.right.lemmas[k + 1];
    }
  }

  /** Completeness: two accepted single proofs of the range's ends validate all leaves between. */
  lemma RangeComplete(p: RangeProof, t: seq<Hash>, lh: nat, start: nat, leaves: seq<Hash>)
    requires Shaped(p.left) && Shaped(p.right) && |p.left.path| == |p.right.path|
    requires |leaves| > 0
    requires forall q :: 0 <= q < |leaves| ==> leaves[q] == Node(t, lh, 0, start + q)
    requires Root(p.left) == Node(t, lh, |p.left.path|, 0) == Root(p.right)
    requires Accepts(p.left, leaves[0], start)
    requires Accepts(p.right, leaves[|leaves| - 1], start + |leaves| - 1)
    ensures RangeAccepts(p, leaves, start)
  {
    hide Node, RangeUp, Position, Climb, TrueSteps, OuterTrue;
    var end := start + |leaves| - 1;
    var ls, rs := Siblings(p.left), Siblings(p.right);
    SingleSound(p.left, leaves[0], start, t, lh);
    SingleSound(p.right, leaves[|leaves| - 1], end, t, lh);
    PositionIsPath(p.left.path, start);
    PositionIsPath(p.right.path, end);
    TrueStepsOuter(p, t, lh, start, end);
    RangeUpComplete(leaves, start, ls, rs, t, lh, 0);
    var top := RangeUp(leaves, start, ls, rs);
    assert top[0] == Node(t, lh, |ls|, Shr(start, |ls|) + 0);
  }

  /** Both ways at once: with the root of the padded tree, exactly the true leaves between two proven ends pass. */
  lemma RangeExact(p: RangeProof, leaves: seq<Hash>, start: nat, t: seq<Hash>, lh: nat)
    requires |p.left.path| == |p.right.path| && |p.left.lemmas| > 0 && |p.right.lemmas| > 0 && |leaves| > 0
    requires Root(p.left) == Node(t, lh, |p.left.path|, 0) == Root(p.right)
    ensures RangeAccepts(p, leaves, start) <==>
      && Shaped(p.left) && Shaped(p.right)
      && Accepts(p.left, leaves[0], start) && Accepts(p.right, leaves[|leaves| - 1], start + |leaves| - 1)
      && forall q :: 0 <= q < |leaves| ==> leaves[q] == Node(t, lh, 0, start + q)
  {
    hide Node, RangeUp, Position, Climb, Steps;
    if RangeAccepts(p, leaves, start) {
      AcceptedIsShaped(p, leaves, start);
      RangeSound(p, leaves, start, t, lh, |p.left.path|);
    }
    if Shaped(p.left) && Shaped(p.right)
      && Accepts(p.left, leaves[0], start) && Accepts(p.right, leaves[|leaves| - 1], start + |leaves| - 1)
      && forall q :: 0 <= q < |leaves| ==> leaves[q] == Node(t, lh, 0, start + q)
    {
      RangeComplete(p, t, lh, start, leaves);
    }
  }
}
