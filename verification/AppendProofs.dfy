/**
 Single and range proofs of the append tree: `gen_proof`, `Proof::validate`, `Proof::position` and
 `RangeProof::validate`, compared with the padded tree.
 */
module AppendProofs {
  import opened Bits
  import opened Hashing
  import opened Rfc6962
  import opened PaddedTree

  /** `lemmas` is the leaf, the siblings from the bottom up and the root. */
  datatype Proof = Proof(lemmas: seq<Hash>, path: seq<bool>)

  /** What `Proof::new` asserts. */
  predicate Shaped(p: Proof) {
    |p.lemmas| == |p.path| + 2
  }

  function Steps(p: Proof): (r: seq<Step>)
    requires 2 <= |p.lemmas| <= |p.path| + 2
  {
    seq(|p.lemmas| - 2, k requires 0 <= k < |p.lemmas| - 2 => Step(p.lemmas[k + 1], p.path[k]))
  }

  /** The position a path stands for: bit `i` is set where the proven node is a right child. */
  function Position(path: seq<bool>): nat {
    if |path| == 0 then 0 else (if path[0] then 0 else 1) + 2 * Position(path[1..])
  }

  ghost predicate PathOf(path: seq<bool>, m: nat) {
    forall k :: 0 <= k < |path| ==> path[k] == (Shr(m, k) % 2 == 0)
  }

  lemma {:induction false} ShrHalf(n: nat, k: nat)
    ensures Shr(n, k + 1) == Shr(n / 2, k)
  {
    if k > 0 { ShrHalf(n, k - 1); }
  }

  /** A path has the bits of its position, and no other position of that depth has them. */
  lemma {:induction false} PositionIsPath(path: seq<bool>, m: nat)
    ensures PathOf(path, m) && Shr(m, |path|) == 0 <==> Position(path) == m
    decreases |path|
  {
    if |path| > 0 {
      var rest := path[1..];
      PositionIsPath(rest, m / 2);
      ShrHalf(m, |rest|);
      assert forall k :: 0 <= k < |rest| ==> rest[k] == path[k + 1];
      forall k | 0 <= k < |rest| ensures Shr(m, k + 1) == Shr(m / 2, k) { ShrHalf(m, k); }
      assert PathOf(path, m) <==> path[0] == (m % 2 == 0) && PathOf(rest, m / 2) by {
        if PathOf(path, m) {
          assert path[0] == (Shr(m, 0) % 2 == 0);
        }
        if path[0] == (m % 2 == 0) && PathOf(rest, m / 2) {
          forall k | 0 <= k < |path| ensures path[k] == (Shr(m, k) % 2 == 0) {
            if k > 0 { assert rest[k - 1] == path[k]; ShrHalf(m, k - 1); }
          }
        }
      }
    }
  }

  method ComputePosition(p: Proof) returns (pos: nat)
    ensures pos == Position(p.path)
  {
    pos := 0;
    assert p.path[0..] == p.path;
    for i := 0 to |p.path|
      invariant pos + Pow2(i) * Position(p.path[i..]) == Position(p.path)
    {
      var rest := p.path[i..];
      assert rest[1..] == p.path[i + 1..];
      StepPosition(i, rest);
      if !p.path[i] {
        pos := pos + Pow2(i);
      }
    }
  }

  lemma StepPosition(i: nat, rest: seq<bool>)
    requires |rest| > 0
    ensures Pow2(i) * Position(rest) == (if rest[0] then 0 else Pow2(i)) + Pow2(i + 1) * Position(rest[1..])
  {
    Regroup(Pow2(i), Position(rest[1..]), if rest[0] then 0 else 1);
  }

  /** More siblings than path bits: the check of a single proof runs off its path. */
  predicate RunsOff(p: Proof) {
    |p.lemmas| > |p.path| + 2
  }

  method ValidateIntegrity(p: Proof) returns (ok: bool)
    requires !RunsOff(p)
    ensures ok <==> |p.lemmas| >= 2 && Climb(p.lemmas[0], Steps(p)) == p.lemmas[|p.lemmas| - 1]
  {
    var size := |p.lemmas|;
    if size < 2 {
      return false;
    }
    var h := p.lemmas[0];
    ghost var steps := Steps(p);
    for i := 1 to size - 1
      invariant h == Climb(p.lemmas[0], steps[..i - 1])
    {
      assert steps[..i][..i - 1] == steps[..i - 1];
      h := if p.path[i - 1] then Parent(h, p.lemmas[i]) else Parent(p.lemmas[i], h);
    }
    assert steps[..size - 2] == steps;
    return h == p.lemmas[size - 1];
  }

  /** The verdict of `Proof::validate`. */
  predicate Accepts(p: Proof, item: Hash, position: nat)
    requires |p.lemmas| <= |p.path| + 2
  {
    && |p.lemmas| >= 2
    && Climb(p.lemmas[0], Steps(p)) == p.lemmas[|p.lemmas| - 1]
    && item == p.lemmas[0]
    && position == Position(p.path)
  }

  datatype Verdict = Accepted | Rejected | IndexPanic

  method Validate(p: Proof, item: Hash, position: nat) returns (r: Verdict)
    ensures r == IndexPanic <==> |p.lemmas| > |p.path| + 2
    ensures r == Accepted <==>
              && 2 <= |p.lemmas| <= |p.path| + 2 && Climb(p.lemmas[0], Steps(p)) == p.lemmas[|p.lemmas| - 1]
              && item == p.lemmas[0] && position == Position(p.path)
    ensures r == Accepted <==> !RunsOff(p) && Accepts(p, item, position)
  {
    if |p.lemmas| > |p.path| + 2 {
      return IndexPanic;
    }
    var ok := ValidateIntegrity(p);
    if !ok {
      return Rejected;
    }
    if item != p.lemmas[0] {
      return Rejected;
    }
    var pos := ComputePosition(p);
    if position != pos {
      return Rejected;
    }
    return Accepted;
  }

  // ---------- What an accepted proof says ----------

  function Sibling(i: nat): nat {
    if i % 2 == 0 then i + 1 else i - 1
  }

  ghost predicate TrueSteps(steps: seq<Step>, t: seq<Hash>, lh: nat, m: nat) {
    forall k :: 0 <= k < |steps| ==>
      && steps[k].isLeft == (Shr(m, k) % 2 == 0)
      && steps[k].sibling == Node(t, lh, k, Sibling(Shr(m, k)))
  }

  /** The same from a node of height `g` on. */
  ghost predicate TrueStepsFrom(steps: seq<Step>, t: seq<Hash>, lh: nat, g: nat, m: nat) {
    forall k :: 0 <= k < |steps| ==>
      && steps[k].isLeft == (Shr(m, k) % 2 == 0)
      && steps[k].sibling == Node(t, lh, g + k, Sibling(Shr(m, k)))
  }

  lemma TrueStepsLast(steps: seq<Step>, t: seq<Hash>, lh: nat, g: nat, m: nat)
    requires |steps| > 0
    ensures var k := |steps| - 1;
            TrueStepsFrom(steps, t, lh, g, m) <==>
            && TrueStepsFrom(steps[..k], t, lh, g, m)
            && steps[k].isLeft == (Shr(m, k) % 2 == 0)
            && steps[k].sibling == Node(t, lh, g + k, Sibling(Shr(m, k)))
  {
    hide Node, Shr;
    var k := |steps| - 1;
    assert forall i :: 0 <= i < k ==> steps[..k][i] == steps[i];
  }

  /** Hashing up from height `g` reaches a node exactly from the node below it and the true siblings. */
  lemma {:induction false} ClimbAbove(item: Hash, steps: seq<Step>, t: seq<Hash>, lh: nat, g: nat, m: nat)
    requires forall k :: 0 <= k < |steps| ==> steps[k].isLeft == (Shr(m, k) % 2 == 0)
    ensures Climb(item, steps) == Node(t, lh, g + |steps|, Shr(m, |steps|))
            <==> item == Node(t, lh, g, m) && TrueStepsFrom(steps, t, lh, g, m)
    decreases |steps|
  {
    hide TrueStepsFrom, Node, Climb, Shr;
    if |steps| == 0 {
      NoSteps(item, steps, t, lh, g, m);
    } else {
      var k := |steps| - 1;
      ClimbOne(item, steps, m);
      ClimbAbove(item, steps[..k], t, lh, g, m);
      TrueStepsLast(steps, t, lh, g, m);
      TopStep(Climb(item, steps[..k]), steps[k], t, lh, g + k, Shr(m, k));
    }
  }

  lemma NoSteps(item: Hash, steps: seq<Step>, t: seq<Hash>, lh: nat, g: nat, m: nat)
    requires |steps| == 0
    ensures TrueStepsFrom(steps, t, lh, g, m) && Climb(item, steps) == item && Shr(m, 0) == m
  {
  }

  lemma ClimbOne(item: Hash, steps: seq<Step>, m: nat)
    requires |steps| > 0
    ensures var k := |steps| - 1;
            && Shr(m, k + 1) == Shr(m, k) / 2
            && Climb(item, steps) == (if steps[k].isLeft then Parent(Climb(item, steps[..k]), steps[k].sibling)
                                      else Parent(steps[k].sibling, Climb(item, steps[..k])))
  {
  }

  /** Hashing up reaches the node above leaf `m` exactly from that leaf and its true siblings. */
  lemma ClimbIsNode(item: Hash, steps: seq<Step>, t: seq<Hash>, lh: nat, m: nat)
    requires forall k :: 0 <= k < |steps| ==> steps[k].isLeft == (Shr(m, k) % 2 == 0)
    ensures Climb(item, steps) == Node(t, lh, |steps|, Shr(m, |steps|))
            <==> item == Node(t, lh, 0, m) && TrueSteps(steps, t, lh, m)
  {
    hide Node, Shr, Climb;
    ClimbAbove(item, steps, t, lh, 0, m);
  }

  lemma TopStep(below: Hash, s: Step, t: seq<Hash>, lh: nat, k: nat, j: nat)
    requires s.isLeft == (j % 2 == 0)
    ensures (if s.isLeft then Parent(below, s.sibling) else Parent(s.sibling, below)) == Node(t, lh, k + 1, j / 2)
            <==> below == Node(t, lh, k, j) && s.sibling == Node(t, lh, k, Sibling(j))
  {
    assert j == 2 * (j / 2) + j % 2;
  }

  lemma ShapedPath(p: Proof, m: nat)
    requires Shaped(p) && PathOf(p.path, m)
    ensures forall k :: 0 <= k < |Steps(p)| ==> Steps(p)[k].isLeft == (Shr(m, k) % 2 == 0)
  {
  }

  /** The steps of a proof take the turns of its path, as far as it has lemmas for them. */
  lemma PathTurns(p: Proof)
    requires 2 <= |p.lemmas| <= |p.path| + 2
    ensures var (k, m) := (|p.lemmas| - 2, Position(p.path[..|p.lemmas| - 2]));
            && Shr(m, k) == 0 && |Steps(p)| == k
            && forall i :: 0 <= i < k ==> Steps(p)[i].isLeft == (Shr(m, i) % 2 == 0)
  {
    hide Position, Shr;
    var (k, m) := (|p.lemmas| - 2, Position(p.path[..|p.lemmas| - 2]));
    PositionIsPath(p.path[..k], m);
    assert forall i :: 0 <= i < k ==> p.path[..k][i] == p.path[i];
  }

  /**
   What any accepted proof shows, whatever its shape: with `k` siblings below a root of height
   `depth`, the node of height `depth - k` that the first `k` turns lead to.
   */
  lemma ProofShows(p: Proof, item: Hash, position: nat, t: seq<Hash>, lh: nat, depth: nat)
    requires |p.lemmas| <= |p.path| + 2
    requires Accepts(p, item, position)
    requires p.lemmas[|p.lemmas| - 1] == Node(t, lh, depth, 0) && |p.lemmas| - 2 <= depth
    ensures item == Node(t, lh, depth - (|p.lemmas| - 2), Position(p.path[..|p.lemmas| - 2]))
  {
    hide Position, Shr, Node, Climb, Steps;
    var k := |p.lemmas| - 2;
    PathTurns(p);
    ClimbAbove(item, Steps(p), t, lh, depth - k, Position(p.path[..k]));
  }

  /** A hash is a perfect tree of height `d` over things that are no inner nodes. */
  ghost predicate Uniform(x: Hash, d: nat) {
    if d == 0 then !x.Parent? else x.Parent? && Uniform(x.left, d - 1) && Uniform(x.right, d - 1)
  }

  /** All leaves stand at the leaf height: plain data for height 0, roots of perfect subtrees above it. */
  ghost predicate LeavesUniform(t: seq<Hash>, lh: nat) {
    forall i :: 0 <= i < |t| ==> Uniform(t[i], lh)
  }

  lemma {:induction false} PadUniform(d: nat)
    ensures Uniform(EndPad(d), d)
  {
    if d > 0 { PadUniform(d - 1); }
  }

  lemma {:induction false} NodeUniform(t: seq<Hash>, lh: nat, h: nat, i: nat)
    requires LeavesUniform(t, lh)
    ensures Uniform(Node(t, lh, h, i), lh + h)
  {
    if h == 0 {
      PadUniform(lh);
    } else {
      NodeUniform(t, lh, h - 1, 2 * i);
      NodeUniform(t, lh, h - 1, 2 * i + 1);
    }
  }

  lemma {:induction false} UniformUnique(x: Hash, a: nat, b: nat)
    requires Uniform(x, a) && Uniform(x, b)
    ensures a == b
  {
    if a > 0 && b > 0 { UniformUnique(x.left, a - 1, b - 1); }
  }

  lemma {:induction false} ClimbUniform(item: Hash, steps: seq<Step>, d: nat)
    requires Uniform(Climb(item, steps), d)
    ensures |steps| <= d && Uniform(item, d - |steps|)
    decreases |steps|
  {
    if |steps| > 0 { ClimbUniform(item, steps[..|steps| - 1], d - 1); }
  }

  /**
   No accepted proof has more siblings than there are layers below the root, those under the leaves
   included, and what it shows is a perfect tree of the remaining height.
   */
  lemma NoDeeperThanTree(p: Proof, item: Hash, position: nat, t: seq<Hash>, lh: nat, depth: nat)
    requires |p.lemmas| <= |p.path| + 2
    requires Accepts(p, item, position) && LeavesUniform(t, lh)
    requires p.lemmas[|p.lemmas| - 1] == Node(t, lh, depth, 0)
    ensures |p.lemmas| - 2 <= lh + depth && Uniform(item, lh + depth - (|p.lemmas| - 2))
  {
    hide Node, Climb, Uniform, LeavesUniform, Position;
    NodeUniform(t, lh, depth, 0);
    ClimbUniform(item, Steps(p), lh + depth);
  }

  /** An accepted proof shows a leaf if and only if it has as many siblings as the tree is deep. */
  lemma ShowsLeafExactly(p: Proof, item: Hash, position: nat, t: seq<Hash>, lh: nat, depth: nat)
    requires |p.lemmas| <= |p.path| + 2
    requires Accepts(p, item, position) && LeavesUniform(t, lh)
    requires p.lemmas[|p.lemmas| - 1] == Node(t, lh, depth, 0)
    ensures (exists i: nat :: item == Node(t, lh, 0, i)) <==> |p.lemmas| - 2 == depth
  {
    hide Position, Node, Climb, Uniform, LeavesUniform, Steps;
    var k := |p.lemmas| - 2;
    if i: nat :| item == Node(t, lh, 0, i) {
      NoDeeperThanTree(p, item, position, t, lh, depth);
      NodeUniform(t, lh, 0, i);
      UniformUnique(item, lh, lh + depth - k);
    }
    if k == depth {
      ProofShows(p, item, position, t, lh, depth);
    }
  }

  lemma {:induction false} ShrSplit(m: nat, a: nat, k: nat)
    ensures Shr(Shr(m, a), k) == Shr(m, a + k)
  {
    if k > 0 { ShrSplit(m, a, k - 1); }
  }

  /** Path bits that no sibling belongs to move the position unless they all turn left. */
  lemma {:induction false} SurplusBits(path: seq<bool>, k: nat)
    requires k <= |path|
    ensures Position(path) == Position(path[..k]) <==> forall i :: k <= i < |path| ==> path[i]
    ensures Position(path) >= Position(path[..k])
    decreases |path|
  {
    if |path| > 0 {
      var rest := path[1..];
      assert forall i :: 0 <= i < |rest| ==> rest[i] == path[i + 1];
      if k == 0 {
        SurplusBits(rest, 0);
        assert rest[..0] == [] && path[..0] == [];
        assert (forall i :: 0 <= i < |path| ==> path[i]) <==> path[0] && forall i :: 0 <= i < |rest| ==> rest[i] by {
          if path[0] && forall i :: 0 <= i < |rest| ==> rest[i] {
            forall i | 0 <= i < |path| ensures path[i] { if i > 0 { assert rest[i - 1]; } }
          }
        }
      } else {
        SurplusBits(rest, k - 1);
        assert path[..k][1..] == rest[..k - 1];
        assert (forall i :: k <= i < |path| ==> path[i]) <==> forall i :: k - 1 <= i < |rest| ==> rest[i] by {
          if forall i :: k - 1 <= i < |rest| ==> rest[i] {
            forall i | k <= i < |path| ensures path[i] { assert rest[i - 1]; }
          }
        }
      }
    }
  }

  /**
   Soundness of a single proof: an accepted proof as deep as the tree shows the leaf that the
   padded tree has at that position.
   */
  lemma SingleSound(p: Proof, item: Hash, position: nat, t: seq<Hash>, lh: nat)
    requires Shaped(p) && Accepts(p, item, position)
    requires p.lemmas[|p.lemmas| - 1] == Node(t, lh, |p.path|, 0)
    ensures position < Pow2(|p.path|)
    ensures item == Node(t, lh, 0, position)
    ensures TrueSteps(Steps(p), t, lh, position)
  {
    PositionIsPath(p.path, position);
    ShrZero(position, |p.path|);
    ShapedPath(p, position);
    ClimbIsNode(item, Steps(p), t, lh, position);
  }

  /** Completeness: a leaf with its true siblings and root is accepted at its own position only. */
  lemma SingleComplete(p: Proof, t: seq<Hash>, lh: nat, m: nat, position: nat)
    requires Shaped(p) && PathOf(p.path, m) && m < Pow2(|p.path|)
    requires p.lemmas[0] == Node(t, lh, 0, m)
    requires p.lemmas[|p.lemmas| - 1] == Node(t, lh, |p.path|, 0)
    ensures Accepts(p, p.lemmas[0], position)
            <==> position == m && TrueSteps(Steps(p), t, lh, m)
  {
    ShrZero(m, |p.path|);
    PositionIsPath(p.path, m);
    ShapedPath(p, m);
    ClimbIsNode(p.lemmas[0], Steps(p), t, lh, m);
  }

  /** Without the shape that `Proof::new` asserts, a surplus path bit moves the claimed position. */
  lemma SurplusPathMovesPosition(a: Hash, b: Hash)
    requires a != ZeroLeaf
    ensures var p := Proof([a, b, Parent(a, b)], [true, false]);
            && Accepts(p, a, 2)
            && p.lemmas[2] == Node([a, b], 0, 1, 0)
            && a != Node([a, b], 0, 0, 2)
  {
    var p := Proof([a, b, Parent(a, b)], [true, false]);
    assert Steps(p) == [Step(b, true)];
    assert Steps(p)[..0] == [];
    assert Climb(a, Steps(p)) == Parent(a, b);
    assert p.path[1..] == [false] && p.path[1..][1..] == [];
    assert Position(p.path) == 2;
    assert Node([a, b], 0, 1, 0) == Parent(Node([a, b], 0, 0, 0), Node([a, b], 0, 0, 1));
  }

  /** A proof shallower than the tree shows an inner node, not a leaf. */
  lemma ShallowProofShowsInnerNode(a: Hash, b: Hash, c: Hash, d: Hash)
    requires a != Parent(a, b)
    ensures var p := Proof([Parent(a, b), Parent(c, d), Parent(Parent(a, b), Parent(c, d))], [true]);
            && Shaped(p)
            && Accepts(p, Parent(a, b), 0)
            && p.lemmas[2] == Node([a, b, c, d], 0, 2, 0)
            && Parent(a, b) != Node([a, b, c, d], 0, 0, 0)
  {
    var p := Proof([Parent(a, b), Parent(c, d), Parent(Parent(a, b), Parent(c, d))], [true]);
    assert Steps(p) == [Step(Parent(c, d), true)];
    assert Steps(p)[..0] == [];
    assert p.path[1..] == [];
    var t := [a, b, c, d];
    assert Node(t, 0, 1, 0) == Parent(Node(t, 0, 0, 0), Node(t, 0, 0, 1));
    assert Node(t, 0, 1, 1) == Parent(Node(t, 0, 0, 2), Node(t, 0, 0, 3));
    assert Node(t, 0, 2, 0) == Parent(Node(t, 0, 1, 0), Node(t, 0, 1, 1));
  }
}
