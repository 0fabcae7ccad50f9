/** What it means to keep some of the items of a list in their order. */
module Filters {

  /** The i-th kept item comes from place `at[i]`, and an item to keep at place `k` goes to `to[k]`. */
  ghost predicate Picks<T(!new)>(keep: T -> bool, s: seq<T>, r: seq<T>, at: seq<nat>, to: seq<nat>) {
    && |at| == |r| && |to| == |s|
    && (forall i :: 0 <= i < |at| ==> at[i] < |s| && keep(s[at[i]]) && r[i] == s[at[i]])
    && (forall i, j :: 0 <= i < j < |at| ==> at[i] < at[j])
    && (forall k :: 0 <= k < |s| && keep(s[k]) ==> to[k] < |at| && at[to[k]] == k)
  }

  /** `r` is made of exactly the items of `s` to keep, in their order. */
  ghost predicate Filtered<T(!new)>(keep: T -> bool, s: seq<T>, r: seq<T>) {
    exists at, to :: Picks(keep, s, r, at, to)
  }

  lemma FilteredNone<T(!new)>(keep: T -> bool)
    ensures Filtered(keep, [], [])
  {
    assert Picks(keep, [], [], [], []);
  }

  lemma FilteredNext<T(!new)>(keep: T -> bool, s: seq<T>, r: seq<T>, x: T)
    requires Filtered(keep, s, r)
    ensures Filtered(keep, s + [x], if keep(x) then r + [x] else r)
  {
    var at, to :| Picks(keep, s, r, at, to);
    if keep(x) {
      PicksMore(keep, s, r, at, to, x);
    } else {
      PicksNoMore(keep, s, r, at, to, x);
    }
  }

  lemma PicksMore<T(!new)>(keep: T -> bool, s: seq<T>, r: seq<T>, at: seq<nat>, to: seq<nat>, x: T)
    requires Picks(keep, s, r, at, to) && keep(x)
    ensures Picks(keep, s + [x], r + [x], at + [|s|], to + [|r|])
  {
  }

  lemma PicksNoMore<T(!new)>(keep: T -> bool, s: seq<T>, r: seq<T>, at: seq<nat>, to: seq<nat>, x: T)
    requires Picks(keep, s, r, at, to) && !keep(x)
    ensures Picks(keep, s + [x], r, at, to + [0])
  {
  }

  lemma PickedAt<T(!new)>(keep: T -> bool, s: seq<T>, r: seq<T>, at: seq<nat>, to: seq<nat>, i: nat)
    requires Picks(keep, s, r, at, to) && i < |r|
    ensures |at| == |r| && at[i] < |s| && keep(s[at[i]]) && r[i] == s[at[i]]
  {
  }

  lemma PickedTo<T(!new)>(keep: T -> bool, s: seq<T>, r: seq<T>, at: seq<nat>, to: seq<nat>, k: nat)
    requires Picks(keep, s, r, at, to) && k < |s| && keep(s[k])
    ensures |to| == |s| && |at| == |r| && to[k] < |at| && at[to[k]] == k
  {
  }

  lemma PickedInOrder<T(!new)>(keep: T -> bool, s: seq<T>, r: seq<T>, at: seq<nat>, to: seq<nat>, i: nat, j: nat)
    requires Picks(keep, s, r, at, to) && i < |r| && j < |r|
    ensures |at| == |r| && (at[i] < at[j] <==> i < j)
  {
  }

  /** The i-th kept item of one list is not before the i-th of the other. */
  lemma {:induction false} NotBefore<T(!new)>(keep: T -> bool, s: seq<T>, a: seq<T>, at: seq<nat>, to: seq<nat>,
                                              b: seq<T>, bt: seq<nat>, bo: seq<nat>, i: nat)
    requires Picks(keep, s, a, at, to) && Picks(keep, s, b, bt, bo) && i < |a|
    ensures |at| == |a| && at[i] < |s| == |bo| && i <= bo[at[i]] < |b| == |bt| && bt[i] <= at[i]
    decreases i
  {
    hide Picks;
    PickedAt(keep, s, a, at, to, i);
    PickedTo(keep, s, b, bt, bo, at[i]);
    var y := bo[at[i]];
    if i > 0 {
      NotBefore(keep, s, a, at, to, b, bt, bo, i - 1);
      PickedAt(keep, s, a, at, to, i - 1);
      PickedTo(keep, s, b, bt, bo, at[i - 1]);
      PickedInOrder(keep, s, a, at, to, i - 1, i);
      PickedInOrder(keep, s, b, bt, bo, bo[at[i - 1]], y);
    }
    PickedInOrder(keep, s, b, bt, bo, y, i);
  }

  /** There is only one such list. */
  lemma FilteredOnce<T(!new)>(keep: T -> bool, s: seq<T>, a: seq<T>, b: seq<T>)
    requires Filtered(keep, s, a) && Filtered(keep, s, b)
    ensures a == b
  {
    hide Picks;
    var at, to :| Picks(keep, s, a, at, to);
    var bt, bo :| Picks(keep, s, b, bt, bo);
    if |a| > 0 { NotBefore(keep, s, a, at, to, b, bt, bo, |a| - 1); }
    if |b| > 0 { NotBefore(keep, s, b, bt, bo, a, at, to, |b| - 1); }
    forall i | 0 <= i < |a| ensures a[i] == b[i] {
      NotBefore(keep, s, a, at, to, b, bt, bo, i);
      NotBefore(keep, s, b, bt, bo, a, at, to, i);
      PickedAt(keep, s, a, at, to, i);
      PickedAt(keep, s, b, bt, bo, i);
    }
  }
}
