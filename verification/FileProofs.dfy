/**
 `FileProof` of shared_types: from a path in a tree of `n` leaves back to the position, and the
 validation of a proof against a root, a position and a leaf count.
 */
module FileProofs {
  import opened Bits
  import opened Hashing
  import opened Wrappers
  import opened Rfc6962
  import opened LightMerkle
  import opened BitSmear

  /** `FileProof::new` drops everything but the leaf when the path is empty. */
  function NewFileProof(lemmas: seq<Hash>, path: seq<bool>): LightProof {
    if |path| == 0 && |lemmas| > 1 then LightProof(lemmas[..1], path) else LightProof(lemmas, path)
  }

  /** The directions on the audit path of leaf `m` of `n`. */
  function PathBits(m: nat, n: nat): seq<bool>
    requires m < n
    decreases n
  {
    if n == 1 then []
    else
      var k := Split(n);
      if m < k then PathBits(m, k) + [true] else PathBits(m - k, n - k) + [false]
  }

  /** The directions of the steps of a proof. */
  function Turns(steps: seq<Step>): (r: seq<bool>)
    ensures |r| == |steps| && forall k :: 0 <= k < |r| ==> r[k] == steps[k].isLeft
  {
    seq(|steps|, k requires 0 <= k < |steps| => steps[k].isLeft)
  }

  lemma TurnsOfAppend(a: seq<Step>, x: Step)
    ensures Turns(a + [x]) == Turns(a) + [x.isLeft]
  {
  }

  lemma {:induction false} AuditPathBits(m: nat, d: seq<Hash>)
    requires m < |d|
    ensures Turns(AuditPath(m, d)) == PathBits(m, |d|)
    decreases |d|
  {
    hide Mth, AuditPath, PathBits, Split, Turns;
    if |d| == 1 {
      NoAuditPath(m, d);
    } else {
      PathBitsAtSplit(m, |d|);
      AuditPathAtSplit(m, d);
      var k := Split(|d|);
      if m < k {
        AuditPathBits(m, d[..k]);
        TurnsOfAppend(AuditPath(m, d[..k]), Step(Mth(d[k..]), true));
      } else {
        AuditPathBits(m - k, d[k..]);
        TurnsOfAppend(AuditPath(m - k, d[k..]), Step(Mth(d[..k]), false));
      }
    }
  }

  lemma NoAuditPath(m: nat, d: seq<Hash>)
    requires m < |d| == 1
    ensures Turns(AuditPath(m, d)) == [] == PathBits(m, |d|)
  {
  }

  /** The position that a path names in a tree of `n` leaves, read from the root down. */
  function PathPosition(path: seq<bool>, n: nat): Result<nat>
    decreases |path|
  {
    if |path| == 0 then (if n == 1 then Ok(0) else Err)
    else if n <= 1 then Err
    else
      var k := Split(n);
      var rest := path[..|path| - 1];
      if path[|path| - 1] then PathPosition(rest, k)
      else
        match PathPosition(rest, n - k)
        case Ok(p) => Ok(k + p)
        case Err => Err
  }

  lemma PathBitsAtSplit(m: nat, n: nat)
    requires m < n && n > 1
    ensures var k := Split(n);
            PathBits(m, n) == if m < k then PathBits(m, k) + [true] else PathBits(m - k, n - k) + [false]
  {
  }

  lemma PositionAtSplit(path: seq<bool>, n: nat)
    requires |path| > 0
    ensures PathPosition(path, n) ==
            if n <= 1 then Err
            else
              var k, rest := Split(n), path[..|path| - 1];
              if path[|path| - 1] then PathPosition(rest, k) else Shifted(k, PathPosition(rest, n - k))
  {
  }

  /** In a tree of `n` leaves, position and path determine each other. */
  lemma {:induction false} PositionUnique(path: seq<bool>, n: nat, m: nat)
    ensures PathPosition(path, n) == Ok(m) <==> m < n && path == PathBits(m, n)
    decreases |path|
  {
    hide PathPosition, PathBits, Split;
    if m < n {
      if n > 1 { PathBitsAtSplit(m, n); } else { PathBitsOne(m, n); }
    }
    if |path| == 0 {
      PositionEnd(path, n);
    } else {
      PositionAtSplit(path, n);
      var rest, last := path[..|path| - 1], path[|path| - 1];
      assert path == rest + [last];
      if n > 1 {
        var k := Split(n);
        if last {
          PositionUnique(rest, k, m);
        } else if m >= k {
          PositionUnique(rest, n - k, m - k);
        }
        if m < n {
          SameBits(rest, last, if m < k then PathBits(m, k) else PathBits(m - k, n - k), m < k);
        }
      }
    }
  }

  lemma PathBitsOne(m: nat, n: nat)
    requires m < n == 1
    ensures PathBits(m, n) == []
  {
  }

  lemma SameBits(a: seq<bool>, x: bool, b: seq<bool>, y: bool)
    ensures a + [x] == b + [y] <==> a == b && x == y
  {
    if a + [x] == b + [y] {
      assert a == (a + [x])[..|a|] && b == (b + [y])[..|b|];
      assert x == (a + [x])[|a|] && y == (b + [y])[|b|];
    }
  }

  /** The loop of `FileProof::position`. */
  method ComputePathPosition(path: seq<bool>, total: nat) returns (r: Result<nat>)
    requires total <= Pow2(63)
    ensures r == PathPosition(path, total)
  {
    hide Pow2, PathPosition, Split, NextPow2;
    var left: nat := total;
    var position := 0;
    var i := |path|;
    assert path[..i] == path;
    while i > 0
      invariant 0 <= i <= |path| && left <= total
      invariant PathPosition(path, total) == Shifted(position, PathPosition(path[..i], left))
    {
      i := i - 1;
      PositionStep(path, i, left);
      if left <= 1 {
        return Err;
      }
      var pow := ComputeNextPow2(left);
      HalfOfNext(left);
      var subtree := pow / 2;
      if !path[i] {
        position := position + subtree;
        left := left - subtree;
      } else {
        left := subtree;
      }
    }
    PositionEnd(path[..0], left);
    if left != 1 {
      return Err;
    }
    return Ok(position);
  }

  function Shifted(offset: nat, r: Result<nat>): Result<nat> {
    match r
    case Ok(p) => Ok(offset + p)
    case Err => Err
  }

  lemma HalfOfNext(n: nat)
    requires n > 1
    ensures NextPow2(n) / 2 == Split(n)
  {
  }

  lemma PositionStep(path: seq<bool>, i: nat, n: nat)
    requires i < |path|
    ensures PathPosition(path[..i + 1], n) ==
            if n <= 1 then Err
            else if path[i] then PathPosition(path[..i], Split(n))
            else Shifted(Split(n), PathPosition(path[..i], n - Split(n)))
  {
    hide PathPosition, Split;
    PositionAtSplit(path[..i + 1], n);
    assert path[..i + 1][..i] == path[..i];
  }

  lemma PositionEnd(path: seq<bool>, n: nat)
    requires |path| == 0
    ensures PathPosition(path, n) == if n == 1 then Ok(0) else Err
  {
  }

  /** `FileProof::validate`; the position is checked first, then shape, hashes, root and leaf. */
  method ValidateFileProof(p: LightProof, leaf: Hash, root: Hash, position: nat, leafCount: nat) returns (r: Result<bool>)
    requires leafCount <= Pow2(63)
    ensures r == Ok(true) <==> FileAccepts(p, leaf, root, position, leafCount)
    ensures r == Ok(false) <==>
              && PathPosition(p.path, leafCount) == Ok(position)
              && |p.lemmas| > 2 && |p.lemmas| == |p.path| + 2
              && Climb(p.lemmas[0], LightSteps(p)) != p.lemmas[|p.lemmas| - 1]
  {
    var proofPosition := ComputePathPosition(p.path, leafCount);
    if proofPosition.Err? {
      return Err;
    }
    if proofPosition.value != position {
      return Err;
    }
    if !((|p.lemmas| == 1 && |p.path| == 0) || (|p.lemmas| > 2 && |p.lemmas| == |p.path| + 2)) {
      return Err;
    }
    var ok := ValidateLight(p);
    if !ok {
      return Ok(false);
    }
    if p.lemmas[|p.lemmas| - 1] != root {
      return Err;
    }
    if p.lemmas[0] != leaf {
      return Err;
    }
    return Ok(true);
  }

  predicate FileAccepts(p: LightProof, leaf: Hash, root: Hash, position: nat, leafCount: nat) {
    && PathPosition(p.path, leafCount) == Ok(position)
    && WellShaped(p) && LightAccepts(p)
    && p.lemmas[|p.lemmas| - 1] == root
    && p.lemmas[0] == leaf
  }

  /** The proof that shows leaf `m` of `d`. */
  ghost predicate ProofOfLeaf(p: LightProof, m: nat, d: seq<Hash>)
    requires m < |d|
  {
    && WellShaped(p)
    && (|d| == 1 ==> p == LightProof([d[0]], []))
    && (|d| > 1 ==> |p.lemmas| > 2 && LightSteps(p) == AuditPath(m, d))
    && p.lemmas[0] == d[m] && p.lemmas[|p.lemmas| - 1] == Mth(d)
  }

  /** Hashing up a path of leaf `m` reaches the tree hash exactly from that leaf by its audit path. */
  lemma {:induction false} ClimbIsMth(item: Hash, steps: seq<Step>, m: nat, d: seq<Hash>)
    requires m < |d| && Turns(steps) == PathBits(m, |d|)
    ensures Climb(item, steps) == Mth(d) <==> item == d[m] && steps == AuditPath(m, d)
    decreases |d|
  {
    hide Mth, AuditPath, PathBits, Split, Turns, Climb;
    if |d| == 1 {
      ClimbNothing(item, steps, m, d);
    } else {
      var k := Split(|d|);
      PathBitsAtSplit(m, |d|);
      var l := |steps| - 1;
      var front := steps[..l];
      assert steps == front + [steps[l]];
      ClimbLast(item, steps);
      MthAtSplit(d);
      AuditPathAtSplit(m, d);
      TurnsOfAppend(front, steps[l]);
      if m < k {
        SameBits(Turns(front), steps[l].isLeft, PathBits(m, k), true);
        ClimbIsMth(item, front, m, d[..k]);
      } else {
        SameBits(Turns(front), steps[l].isLeft, PathBits(m - k, |d| - k), false);
        ClimbIsMth(item, front, m - k, d[k..]);
      }
      SameParts(front, steps[l], AuditPath(m, d));
    }
  }

  lemma ClimbNothing(item: Hash, steps: seq<Step>, m: nat, d: seq<Hash>)
    requires m < |d| == 1 && Turns(steps) == PathBits(m, |d|)
    ensures Climb(item, steps) == Mth(d) <==> item == d[m] && steps == AuditPath(m, d)
  {
  }

  lemma ClimbLast(item: Hash, steps: seq<Step>)
    requires |steps| > 0
    ensures var l := |steps| - 1;
            Climb(item, steps) == if steps[l].isLeft then Parent(Climb(item, steps[..l]), steps[l].sibling)
                                  else Parent(steps[l].sibling, Climb(item, steps[..l]))
  {
  }

  lemma SameParts(front: seq<Step>, last: Step, all: seq<Step>)
    requires |all| > 0
    ensures front + [last] == all <==> front == all[..|all| - 1] && last == all[|all| - 1]
  {
    var l := |all| - 1;
    if front + [last] == all {
      assert all[..l] == front;
    }
    if front == all[..l] && last == all[l] {
      assert front + [last] == all;
    }
  }

  /**
   A file proof is accepted for a root and a leaf count exactly when it is the audit path of that
   leaf at that position: nothing else passes, and the audit path always does.
   */
  lemma FileProofExact(p: LightProof, leaf: Hash, position: nat, d: seq<Hash>)
    requires |d| > 0
    ensures FileAccepts(p, leaf, Mth(d), position, |d|)
            <==> position < |d| && ProofOfLeaf(p, position, d) && leaf == d[position]
  {
    PositionUnique(p.path, |d|, position);
    if position < |d| {
      if |d| > 1 && |p.lemmas| > 2 && WellShaped(p) {
        StepsHaveBits(p, position, d);
      }
      if |d| > 1 { SplitPathNonEmpty(position, d); AuditPathBits(position, d); }
    }
  }

  lemma StepsHaveBits(p: LightProof, m: nat, d: seq<Hash>)
    requires m < |d| && |d| > 1 && |p.lemmas| > 2 && WellShaped(p)
    ensures LightSteps(p) == AuditPath(m, d) ==> p.path == PathBits(m, |d|)
    ensures p.path == PathBits(m, |d|) ==>
              (LightAccepts(p) && p.lemmas[|p.lemmas| - 1] == Mth(d)
               <==> p.lemmas[|p.lemmas| - 1] == Mth(d) && p.lemmas[0] == d[m] && LightSteps(p) == AuditPath(m, d))
  {
    hide AuditPath, PathBits, Mth, Climb;
    AuditPathBits(m, d);
    assert Turns(LightSteps(p)) == p.path;
    if p.path == PathBits(m, |d|) {
      ClimbIsMth(p.lemmas[0], LightSteps(p), m, d);
    }
  }
}
