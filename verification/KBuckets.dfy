/**
 * Iterating over a Kademlia routing table by distance to a target.  The buckets are visited in
 * an order read off the bits of one number; the keys come out as in a sorted scan of the table.
 */
module KBuckets {
  import opened Bits
  import opened Wrappers

  // ---- Distances

  function Xor(a: nat, b: nat): nat
    decreases a + b
  {
    if a == 0 && b == 0 then 0 else 2 * Xor(a / 2, b / 2) + (a + b) % 2
  }

  predicate Bit(d: nat, i: nat) {
    Shr(d, i) % 2 == 1
  }

  lemma {:induction false} XorZero(a: nat)
    ensures Xor(0, a) == a == Xor(a, 0)
  {
    if a > 0 {
      XorZero(a / 2);
    }
  }

  lemma XorHalf(a: nat, b: nat)
    ensures Xor(a, b) / 2 == Xor(a / 2, b / 2)
    ensures Xor(a, b) % 2 == (a + b) % 2
  {
  }

  lemma {:induction false} XorShr(a: nat, b: nat, h: nat)
    ensures Shr(Xor(a, b), h) == Xor(Shr(a, h), Shr(b, h))
  {
    if h > 0 {
      XorShr(a, b, h - 1);
      XorHalf(Shr(a, h - 1), Shr(b, h - 1));
    }
  }

  /** A bit of the distance is set where the keys differ. */
  lemma XorBits(a: nat, b: nat, i: nat)
    ensures Bit(Xor(a, b), i) <==> Bit(a, i) != Bit(b, i)
  {
    hide Xor;
    XorShr(a, b, i);
    XorHalf(Shr(a, i), Shr(b, i));
  }

  /** The distance between two keys does not depend on the key they are both measured from. */
  lemma {:induction false} XorTriangle(l: nat, a: nat, b: nat)
    ensures Xor(Xor(l, a), Xor(l, b)) == Xor(a, b)
    decreases l + a + b
  {
    hide Xor;
    XorZero(0);
    if l + a + b > 0 {
      XorTriangle(l / 2, a / 2, b / 2);
      XorHalf(l, a);
      XorHalf(l, b);
      XorHalf(a, b);
      XorHalf(Xor(l, a), Xor(l, b));
      Parity(l, a, b, Xor(l, a), Xor(l, b));
      SameNumber(Xor(Xor(l, a), Xor(l, b)), Xor(a, b));
    }
  }

  lemma Parity(l: nat, a: nat, b: nat, x: nat, y: nat)
    requires x % 2 == (l + a) % 2 && y % 2 == (l + b) % 2
    ensures (x + y) % 2 == (a + b) % 2
  {
  }

  lemma SameNumber(x: nat, y: nat)
    requires x / 2 == y / 2 && x % 2 == y % 2
    ensures x == y
  {
  }

  lemma XorInjective(t: nat, a: nat, b: nat)
    requires Xor(t, a) == Xor(t, b)
    ensures a == b
  {
    XorTriangle(t, 0, a);
    XorTriangle(t, 0, b);
    XorZero(a);
    XorZero(b);
  }

  // ---- Buckets

  function LeadingZeros(d: nat, n: nat): (r: nat)
    ensures r <= n
  {
    if n == 0 || Bit(d, n - 1) then 0 else 1 + LeadingZeros(d, n - 1)
  }

  /** Bucket i holds the keys at a distance whose highest bit is i. */
  ghost predicate InBucket(distance: nat, i: nat) {
    Shr(distance, i) == 1
  }

  /** The bucket of a distance in a table of n buckets. */
  function BucketIndex(d: nat, n: nat): (r: Option<nat>)
    requires d < Pow2(n)
    ensures r.None? <==> d == 0
    ensures r.Some? ==> r.value < n && InBucket(d, r.value) && Pow2(r.value) <= d < Pow2(r.value + 1)
  {
    HighestBit(d, n);
    var len := n - LeadingZeros(d, n);
    if len < 1 then None else Some(len - 1)
  }

  lemma {:induction false} HighestBit(d: nat, n: nat)
    requires d < Pow2(n)
    ensures d == 0 <==> LeadingZeros(d, n) == n
    ensures d > 0 ==> var i: nat := n - LeadingZeros(d, n) - 1; Shr(d, i) == 1 && Pow2(i) <= d < Pow2(i + 1)
  {
    ShrZero(d, n);
    if n > 0 {
      if Bit(d, n - 1) {
        ShrZero(d, n - 1);
      } else {
        ShrZero(d, n - 1);
        HighestBit(d, n - 1);
      }
    }
  }

  lemma {:induction false} InOneBucket(d: nat, i: nat, j: nat)
    requires InBucket(d, i) && i < j
    ensures Shr(d, j) == 0
    decreases j
  {
    if i + 1 < j {
      InOneBucket(d, i, j - 1);
    }
  }

  /** All keys of bucket i are closer to a target at distance d than all keys of bucket j. */
  predicate Before(d: nat, i: nat, j: nat) {
    (i > j && Bit(d, i)) || (i < j && !Bit(d, j))
  }

  /** At the height of its own bucket a key differs from the target in the last bit only. */
  lemma FlipsBit(d: nat, x: nat, i: nat)
    requires InBucket(x, i)
    ensures Shr(Xor(d, x), i) == if Bit(d, i) then Shr(d, i) - 1 else Shr(d, i) + 1
  {
    XorShr(d, x, i);
    XorHalf(Shr(d, i), 1);
    XorZero(Shr(d, i) / 2);
  }

  lemma KeepsHighBits(d: nat, x: nat, i: nat, j: nat)
    requires InBucket(x, i) && i < j
    ensures Shr(Xor(d, x), j) == Shr(d, j)
  {
    InOneBucket(x, i, j);
    XorShr(d, x, j);
    XorZero(Shr(d, j));
  }

  lemma SmallerAbove(a: nat, b: nat, h: nat)
    requires Shr(a, h) < Shr(b, h)
    ensures a < b
  {
    if b <= a {
      ShrMono(b, a, h);
    }
  }

  /** The distance of the target alone orders any two keys from different buckets. */
  lemma BucketOrder(d: nat, x: nat, i: nat, y: nat, j: nat)
    requires InBucket(x, i) && InBucket(y, j) && i != j
    ensures Xor(d, x) < Xor(d, y) <==> Before(d, i, j)
    ensures Xor(d, x) != Xor(d, y)
  {
    hide Xor, Shr;
    if i > j {
      FlipsBit(d, x, i);
      KeepsHighBits(d, y, j, i);
      if Bit(d, i) { SmallerAbove(Xor(d, x), Xor(d, y), i); } else { SmallerAbove(Xor(d, y), Xor(d, x), i); }
    } else {
      FlipsBit(d, y, j);
      KeepsHighBits(d, x, i, j);
      if Bit(d, j) { SmallerAbove(Xor(d, y), Xor(d, x), j); } else { SmallerAbove(Xor(d, x), Xor(d, y), j); }
    }
  }

  // ---- The order in which buckets are visited

  /** The set bits of d below k, highest first. */
  function SetBits(d: nat, k: nat): seq<nat> {
    if k == 0 then []
    else if Bit(d, k - 1) then [k - 1] + SetBits(d, k - 1)
    else SetBits(d, k - 1)
  }

  /** The clear bits of d from k up to n, lowest first. */
  function ClearBits(d: nat, k: nat, n: nat): seq<nat>
    decreases n - k
  {
    if k >= n then []
    else if Bit(d, k) then ClearBits(d, k + 1, n)
    else [k] + ClearBits(d, k + 1, n)
  }

  function Visits(d: nat, n: nat): seq<nat> {
    if d == 0 then [] else SetBits(d, n) + [0] + ClearBits(d, 1, n)
  }

  function Times(s: seq<nat>, i: nat): nat {
    if s == [] then 0 else (if s[0] == i then 1 else 0) + Times(s[1..], i)
  }

  lemma {:induction false} TimesConcat(s: seq<nat>, t: seq<nat>, i: nat)
    ensures Times(s + t, i) == Times(s, i) + Times(t, i)
  {
    if s == [] {
      assert s + t == t;
    } else {
      assert (s + t)[1..] == s[1..] + t;
      TimesConcat(s[1..], t, i);
    }
  }

  lemma {:induction false} SetBitsTimes(d: nat, k: nat, i: nat)
    ensures Times(SetBits(d, k), i) == if i < k && Bit(d, i) then 1 else 0
  {
    if k > 0 {
      SetBitsTimes(d, k - 1, i);
      if Bit(d, k - 1) {
        assert SetBits(d, k)[1..] == SetBits(d, k - 1);
      }
    }
  }

  lemma {:induction false} ClearBitsTimes(d: nat, k: nat, n: nat, i: nat)
    ensures Times(ClearBits(d, k, n), i) == if k <= i < n && !Bit(d, i) then 1 else 0
    decreases n - k
  {
    if k < n {
      ClearBitsTimes(d, k + 1, n, i);
      if !Bit(d, k) {
        assert ClearBits(d, k, n)[1..] == ClearBits(d, k + 1, n);
      }
    }
  }

  /** Every bucket is visited once, but bucket 0 twice exactly when the lowest bit is set. */
  lemma VisitsTimes(d: nat, n: nat, i: nat)
    requires 0 < d < Pow2(n)
    ensures Times(Visits(d, n), i) == if i >= n then 0 else if i == 0 && Bit(d, 0) then 2 else 1
  {
    SetBitsTimes(d, n, i);
    ClearBitsTimes(d, 1, n, i);
    TimesConcat(SetBits(d, n) + [0], ClearBits(d, 1, n), i);
    TimesConcat(SetBits(d, n), [0], i);
    assert Times([0], i) == if i == 0 then 1 else 0;
  }

  /** Every bucket in the list comes before all later ones, bucket 0 possibly repeated. */
  ghost predicate InOrder(d: nat, s: seq<nat>) {
    forall p, q :: 0 <= p < q < |s| ==> Before(d, s[p], s[q]) || s[p] == s[q] == 0
  }

  lemma {:induction false} SetBitsRange(d: nat, k: nat)
    ensures forall p :: 0 <= p < |SetBits(d, k)| ==> SetBits(d, k)[p] < k && Bit(d, SetBits(d, k)[p])
    ensures InOrder(d, SetBits(d, k))
  {
    if k > 0 {
      SetBitsRange(d, k - 1);
    }
  }

  lemma {:induction false} ClearBitsRange(d: nat, k: nat, n: nat)
    ensures forall p :: 0 <= p < |ClearBits(d, k, n)| ==> k <= ClearBits(d, k, n)[p] < n && !Bit(d, ClearBits(d, k, n)[p])
    ensures InOrder(d, ClearBits(d, k, n))
    decreases n - k
  {
    if k < n {
      ClearBitsRange(d, k + 1, n);
    }
  }

  /** Set bits downwards, bucket 0, clear bits upwards: ever further away from the target. */
  lemma VisitsInOrder(d: nat, n: nat)
    requires d < Pow2(n)
    ensures InOrder(d, Visits(d, n))
    ensures forall p :: 0 <= p < |Visits(d, n)| ==> Visits(d, n)[p] < n
  {
    hide Shr;
    SetBitsRange(d, n);
    ClearBitsRange(d, 1, n);
    if d > 0 {
      assert n > 0;
      var (a, b) := (SetBits(d, n), ClearBits(d, 1, n));
      var v := Visits(d, n);
      assert |v| == |a| + 1 + |b|;
      forall p, q | 0 <= p < q < |v| ensures Before(d, v[p], v[q]) || v[p] == v[q] == 0 {
        if q < |a| {
          assert v[p] == a[p] && v[q] == a[q];
        } else if q == |a| {
          assert v[p] == a[p] && v[q] == 0;
        } else {
          assert v[q] == b[q - |a| - 1];
          if p < |a| {
            assert v[p] == a[p];
          } else if p == |a| {
            assert v[p] == 0;
          } else {
            assert v[p] == b[p - |a| - 1];
          }
        }
      }
    }
  }

  datatype State = Start(i: nat) | ZoomIn(i: nat) | ZoomOut(i: nat) | Done

  class ClosestBucketsIter {
    const n: nat
    const distance: nat
    var state: State

    ghost predicate Valid()
      reads this
    {
      !state.Done? ==> state.i < n
    }

    /** The buckets still to come. */
    ghost function Remaining(): (r: seq<nat>)
      requires Valid()
      reads this
      ensures forall p :: 0 <= p < |r| ==> r[p] < n
    {
      SetBitsRange(distance, n);
      ClearBitsRange(distance, 1, n);
      match state
      case Start(i) => SetBitsRange(distance, i); [i] + SetBits(distance, i) + [0] + ClearBits(distance, 1, n)
      case ZoomIn(i) => SetBitsRange(distance, i); SetBits(distance, i) + [0] + ClearBits(distance, 1, n)
      case ZoomOut(i) => ClearBitsRange(distance, i + 1, n); ClearBits(distance, i + 1, n)
      case Done => []
    }

    constructor (numBuckets: nat, d: nat)
      requires d < Pow2(numBuckets)
      ensures Valid() && n == numBuckets && distance == d
      ensures Remaining() == Visits(d, numBuckets)
    {
      n, distance := numBuckets, d;
      var first := BucketIndex(d, numBuckets);
      state := if first.Some? then Start(first.value) else Done;
      if first.Some? {
        HighestIsFirst(d, numBuckets, first.value);
      }
    }

    method NextIn(i: nat) returns (r: Option<nat>)
      ensures r.None? ==> SetBits(distance, i) == []
      ensures r.Some? ==> r.value < i && SetBits(distance, i) == [r.value] + SetBits(distance, r.value)
    {
      var k := i;
      while k > 0
        invariant 0 <= k <= i
        invariant SetBits(distance, i) == SetBits(distance, k)
      {
        k := k - 1;
        if Bit(distance, k) {
          return Some(k);
        }
      }
      return None;
    }

    method NextOut(i: nat) returns (r: Option<nat>)
      ensures r.None? ==> ClearBits(distance, i + 1, n) == []
      ensures r.Some? ==> r.value < n && ClearBits(distance, i + 1, n) == [r.value] + ClearBits(distance, r.value + 1, n)
    {
      var k := i + 1;
      while k < n
        invariant i + 1 <= k
        invariant ClearBits(distance, i + 1, n) == ClearBits(distance, k, n)
      {
        if !Bit(distance, k) {
          return Some(k);
        }
        k := k + 1;
      }
      return None;
    }

    method Next() returns (r: Option<nat>)
      requires Valid()
      modifies this
      ensures Valid()
      ensures old(Remaining()) == if r.None? then [] else [r.value] + Remaining()
      ensures r.None? ==> Remaining() == []
    {
      hide SetBits, ClearBits;
      match state {
        case Start(i) =>
          state := ZoomIn(i);
          r := Some(i);
        case ZoomIn(i) =>
          var k := NextIn(i);
          if k.Some? {
            state := ZoomIn(k.value);
            r := k;
          } else {
            state := ZoomOut(0);
            r := Some(0);
          }
        case ZoomOut(i) =>
          var k := NextOut(i);
          if k.Some? {
            state := ZoomOut(k.value);
            r := k;
          } else {
            state := Done;
            r := None;
          }
        case Done => r := None;
      }
    }
  }

  lemma {:induction false} HighestIsFirst(d: nat, n: nat, i: nat)
    requires i < n && InBucket(d, i)
    ensures SetBits(d, n) == [i] + SetBits(d, i)
  {
    if i + 1 < n {
      InOneBucket(d, i, n - 1);
      HighestIsFirst(d, n - 1, i);
    }
  }

  // ---- The keys

  /** A key is put where it keeps the list sorted by distance to t. */
  function Insert(t: nat, x: nat, s: seq<nat>): seq<nat> {
    if s == [] || Xor(t, x) <= Xor(t, s[0]) then [x] + s else [s[0]] + Insert(t, x, s[1..])
  }

  function SortBy(t: nat, s: seq<nat>): seq<nat> {
    if s == [] then [] else Insert(t, s[0], SortBy(t, s[1..]))
  }

  ghost predicate Sorted(t: nat, s: seq<nat>) {
    forall p, q :: 0 <= p < q < |s| ==> Xor(t, s[p]) <= Xor(t, s[q])
  }

  lemma {:induction false} InsertAdds(t: nat, x: nat, s: seq<nat>)
    ensures multiset(Insert(t, x, s)) == multiset{x} + multiset(s)
  {
    hide Xor;
    if s != [] && Xor(t, x) > Xor(t, s[0]) {
      InsertAdds(t, x, s[1..]);
      assert s == [s[0]] + s[1..];
    }
  }

  lemma {:induction false} InsertSorted(t: nat, x: nat, s: seq<nat>)
    requires Sorted(t, s)
    ensures Sorted(t, Insert(t, x, s))
  {
    hide Xor;
    if s != [] && Xor(t, x) > Xor(t, s[0]) {
      var rest := Insert(t, x, s[1..]);
      InsertSorted(t, x, s[1..]);
      forall p | 0 <= p < |rest| ensures Xor(t, s[0]) <= Xor(t, rest[p]) {
        InsertAdds(t, x, s[1..]);
        assert rest[p] in multiset(rest);
      }
    }
  }

  lemma {:induction false} SortBySorts(t: nat, s: seq<nat>)
    ensures Sorted(t, SortBy(t, s))
    ensures multiset(SortBy(t, s)) == multiset(s)
  {
    if s != [] {
      SortBySorts(t, s[1..]);
      InsertSorted(t, s[0], SortBy(t, s[1..]));
      InsertAdds(t, s[0], SortBy(t, s[1..]));
      assert s == [s[0]] + s[1..];
    }
  }

  /** Since no two keys are equally far away, a sorted list is determined by what is in it. */
  lemma {:induction false} SortedUnique(t: nat, a: seq<nat>, b: seq<nat>)
    requires Sorted(t, a) && Sorted(t, b) && multiset(a) == multiset(b)
    ensures a == b
  {
    hide Xor;
    if a == [] {
      assert |b| == |multiset(b)| == 0;
    } else {
      assert a[0] in multiset(b) && |b| == |multiset(b)| > 0;
      assert b[0] in multiset(a);
      XorInjective(t, a[0], b[0]) by { SameFirst(t, a, b); }
      WithoutFirst(a);
      WithoutFirst(b);
      SortedUnique(t, a[1..], b[1..]);
    }
  }

  lemma WithoutFirst(a: seq<nat>)
    requires a != []
    ensures multiset(a[1..]) == multiset(a) - multiset{a[0]}
  {
    assert a == [a[0]] + a[1..];
  }

  lemma SameFirst(t: nat, a: seq<nat>, b: seq<nat>)
    requires Sorted(t, a) && Sorted(t, b) && a != [] && b != []
    requires a[0] in b && b[0] in a
    ensures Xor(t, a[0]) == Xor(t, b[0])
  {
    hide Xor;
  }

  /** The entries of the visited buckets, each bucket sorted. */
  function Output(t: nat, table: seq<seq<nat>>, visits: seq<nat>): seq<nat>
    requires forall p :: 0 <= p < |visits| ==> visits[p] < |table|
  {
    if visits == [] then [] else SortBy(t, table[visits[0]]) + Output(t, table, visits[1..])
  }

  lemma OutputStep(t: nat, table: seq<seq<nat>>, i: nat, rest: seq<nat>)
    requires i < |table| && forall p :: 0 <= p < |rest| ==> rest[p] < |table|
    ensures Output(t, table, [i] + rest) == SortBy(t, table[i]) + Output(t, table, rest)
  {
    assert ([i] + rest)[1..] == rest;
  }

  lemma OutputEmpty(t: nat, table: seq<seq<nat>>)
    ensures Output(t, table, []) == []
  {
  }

  /** Every key lies in the bucket of its distance to the local key. */
  ghost predicate Placed(local: nat, table: seq<seq<nat>>) {
    forall i, x :: 0 <= i < |table| && x in table[i] ==> InBucket(Xor(local, x), i)
  }

  class ClosestIter {
    const target: nat
    const table: seq<seq<nat>>
    const buckets: ClosestBucketsIter
    var iter: Option<seq<nat>>

    ghost predicate Valid()
      reads this, buckets
    {
      buckets.Valid() && buckets.n == |table|
    }

    /** The keys still to come. */
    ghost function Pending(): seq<nat>
      requires Valid()
      reads this, buckets
    {
      (if iter.Some? then iter.value else []) + Output(target, table, buckets.Remaining())
    }

    constructor (local: nat, to: nat, entries: seq<seq<nat>>)
      requires Xor(local, to) < Pow2(|entries|)
      ensures Valid() && fresh(buckets) && target == to && table == entries
      ensures buckets.Remaining() == Visits(Xor(local, to), |entries|)
      ensures Pending() == Output(to, entries, buckets.Remaining())
    {
      target, table := to, entries;
      buckets := new ClosestBucketsIter(|entries|, Xor(local, to));
      iter := None;
    }

    method Next() returns (r: Option<nat>)
      requires Valid()
      modifies this, buckets
      ensures Valid()
      ensures old(Pending()) == if r.None? then [] else [r.value] + Pending()
      ensures r.None? ==> Pending() == []
    {
      hide SortBy, Output, ClosestBucketsIter.Remaining, ClosestBucketsIter.Valid;
      OutputEmpty(target, table);
      ghost var start := Pending();
      while true
        invariant Valid() && Pending() == start
        decreases |buckets.Remaining()|, iter.Some?
      {
        if iter.Some? {
          if iter.value != [] {
            r := Some(iter.value[0]);
            iter := Some(iter.value[1..]);
            return;
          }
          iter := None;
        } else {
          ghost var left := buckets.Remaining();
          var i := buckets.Next();
          if i.None? {
            return None;
          }
          assert left[0] == i.value;
          OutputStep(target, table, i.value, buckets.Remaining());
          iter := Some(SortBy(target, table[i.value]));
        }
      }
    }
  }

  /** Keys from buckets in the right order are in the right order. */
  lemma OrderedKeys(local: nat, target: nat, table: seq<seq<nat>>, i: nat, j: nat, x: nat, y: nat)
    requires Placed(local, table) && i < |table| && j < |table| && x in table[i] && y in table[j]
    requires Before(Xor(local, target), i, j) || i == j == 0
    ensures Xor(target, x) <= Xor(target, y)
  {
    hide Xor;
    var d := Xor(local, target);
    XorTriangle(local, target, x);
    XorTriangle(local, target, y);
    if i != j {
      BucketOrder(d, Xor(local, x), i, Xor(local, y), j);
    } else {
      XorInjective(local, x, y);
    }
  }

  lemma {:induction false} OutputFrom(t: nat, table: seq<seq<nat>>, visits: seq<nat>, y: nat) returns (p: nat)
    requires forall p :: 0 <= p < |visits| ==> visits[p] < |table|
    requires y in Output(t, table, visits)
    ensures p < |visits| && y in table[visits[p]]
  {
    var first := SortBy(t, table[visits[0]]);
    if y in first {
      SortBySorts(t, table[visits[0]]);
      assert y in multiset(first);
      p := 0;
    } else {
      var q := OutputFrom(t, table, visits[1..], y);
      p := q + 1;
    }
  }

  lemma SortedConcat(t: nat, a: seq<nat>, b: seq<nat>)
    requires Sorted(t, a) && Sorted(t, b)
    requires forall x, y :: x in a && y in b ==> Xor(t, x) <= Xor(t, y)
    ensures Sorted(t, a + b)
  {
    hide Xor;
    var c := a + b;
    forall p, q | 0 <= p < q < |c| ensures Xor(t, c[p]) <= Xor(t, c[q]) {
      if p < |a| <= q {
        assert c[p] in a && c[q] in b;
      }
    }
  }

  lemma {:induction false} OutputSorted(local: nat, target: nat, table: seq<seq<nat>>, visits: seq<nat>)
    requires Placed(local, table) && InOrder(Xor(local, target), visits)
    requires forall p :: 0 <= p < |visits| ==> visits[p] < |table|
    ensures Sorted(target, Output(target, table, visits))
  {
    hide Xor, Before, SortBy, Placed;
    if visits != [] {
      var first := SortBy(target, table[visits[0]]);
      var rest := Output(target, table, visits[1..]);
      SortBySorts(target, table[visits[0]]);
      OutputSorted(local, target, table, visits[1..]);
      forall x, y | x in first && y in rest ensures Xor(target, x) <= Xor(target, y) {
        assert x in multiset(first);
        var p := OutputFrom(target, table, visits[1..], y);
        assert visits[1..][p] == visits[p + 1];
        OrderedKeys(local, target, table, visits[0], visits[p + 1], x, y);
      }
      SortedConcat(target, first, rest);
    }
  }

  lemma {:induction false} OutputCount(t: nat, table: seq<seq<nat>>, visits: seq<nat>, x: nat, b: nat)
    requires forall p :: 0 <= p < |visits| ==> visits[p] < |table|
    requires b < |table| && forall i :: 0 <= i < |table| && i != b ==> x !in table[i]
    ensures multiset(Output(t, table, visits))[x] == Times(visits, b) * multiset(table[b])[x]
  {
    hide SortBy;
    if visits != [] {
      SortBySorts(t, table[visits[0]]);
      OutputCount(t, table, visits[1..], x, b);
      var c := multiset(table[b])[x];
      assert multiset(table[visits[0]])[x] == if visits[0] == b then c else 0;
      OneMore(Times(visits[1..], b), c);
    }
  }

  lemma OneMore(k: nat, c: nat)
    ensures (1 + k) * c == c + k * c
  {
  }

  function Flatten(table: seq<seq<nat>>): seq<nat> {
    if table == [] then [] else table[0] + Flatten(table[1..])
  }

  lemma {:induction false} FlattenCount(table: seq<seq<nat>>, x: nat, b: nat)
    requires forall i :: 0 <= i < |table| && i != b ==> x !in table[i]
    ensures multiset(Flatten(table))[x] == if b < |table| then multiset(table[b])[x] else 0
  {
    if table != [] {
      var rest := table[1..];
      var c := if b == 0 then |table| else b - 1;
      forall i | 0 <= i < |rest| && i != c ensures x !in rest[i] {
        assert rest[i] == table[i + 1];
      }
      FlattenCount(rest, x, c);
      CountOfBoth(table[0], Flatten(rest), x);
      assert b != 0 ==> x !in table[0];
    }
  }

  lemma CountOfBoth(a: seq<nat>, b: seq<nat>, x: nat)
    ensures multiset(a + b)[x] == multiset(a)[x] + multiset(b)[x]
    ensures x !in a ==> multiset(a)[x] == 0
  {
    assert x !in a ==> x !in multiset(a);
  }

  lemma KeyBucket(local: nat, table: seq<seq<nat>>, x: nat) returns (b: nat)
    requires Placed(local, table) && table != []
    ensures b < |table| && forall i :: 0 <= i < |table| && i != b ==> x !in table[i]
  {
    hide Xor;
    if b' :| 0 <= b' < |table| && x in table[b'] {
      b := b';
      forall i | 0 <= i < |table| && i != b ensures x !in table[i] {
        if x in table[i] {
          var d := Xor(local, x);
          assert InBucket(d, i) && InBucket(d, b);
          if i < b { InOneBucket(d, i, b); } else { InOneBucket(d, b, i); }
        }
      }
    } else {
      b := 0;
    }
  }

  /**
   * For a target other than the local key, the iterator yields a sorted scan of the whole table,
   * in which bucket 0 is repeated exactly when the lowest bit of the target's distance is set.
   */
  lemma ClosestIsSortedScan(local: nat, target: nat, table: seq<seq<nat>>)
    requires Placed(local, table) && 0 < Xor(local, target) < Pow2(|table|)
    ensures var d := Xor(local, target);
      && (forall p :: 0 <= p < |Visits(d, |table|)| ==> Visits(d, |table|)[p] < |table|)
      && table != []
      && Output(target, table, Visits(d, |table|))
         == SortBy(target, Flatten(table) + if Bit(d, 0) then table[0] else [])
  {
    hide Xor, Visits, SortBy, Flatten, Output, Bit;
    var d := Xor(local, target);
    var visits := Visits(d, |table|);
    VisitsInOrder(d, |table|);
    OutputSorted(local, target, table, visits);
    var scan := Flatten(table) + if Bit(d, 0) then table[0] else [];
    SortBySorts(target, scan);
    var out := Output(target, table, visits);
    forall x ensures multiset(out)[x] == multiset(scan)[x] {
      var b := KeyBucket(local, table, x);
      OutputCount(target, table, visits, x, b);
      FlattenCount(table, x, b);
      VisitsTimes(d, |table|, b);
    }
    assert multiset(out) == multiset(scan);
    SortedUnique(target, out, SortBy(target, scan));
  }

  /** For the local key itself the iterator yields nothing, whatever the table holds. */
  lemma LocalTargetYieldsNothing(local: nat, table: seq<seq<nat>>)
    ensures Xor(local, local) == 0 && Visits(0, |table|) == []
    ensures Output(local, table, Visits(Xor(local, local), |table|)) == []
  {
    XorTriangle(local, 0, 0);
    XorZero(local);
  }
}
