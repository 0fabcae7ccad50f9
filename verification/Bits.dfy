/** Powers of two, repeated halving and the layer lengths of a binary tree. */
module Bits {

  function Pow2(k: nat): (r: nat)
    ensures r >= 1
  {
    if k == 0 then 1 else 2 * Pow2(k - 1)
  }

  /** `n >> h`, halving once per layer as the tree algorithms do. */
  function Shr(n: nat, h: nat): nat {
    if h == 0 then n else Shr(n, h - 1) / 2
  }

  /** The number of nodes in layer `h` of a tree over `n` leaves: `ceil(n / 2^h)`. */
  function Len(n: nat, h: nat): nat {
    if h == 0 then n else (Len(n, h - 1) + 1) / 2
  }

  lemma HalvedAbove(n: nat, m: nat, h: nat)
    ensures Len(n, h + 1) == (Len(n, h) + 1) / 2 && Shr(m, h + 1) == Shr(m, h) / 2
  {
  }

  /** `n` is a multiple of `2^d`, said layer by layer. */
  predicate Aligned(n: nat, d: nat) {
    d == 0 || (Aligned(n, d - 1) && Shr(n, d - 1) % 2 == 0)
  }

  lemma {:induction false} LenBounds(n: nat, h: nat)
    ensures Shr(n, h) <= Len(n, h) <= Shr(n, h) + 1
    ensures n > 0 ==> Len(n, h) == Shr(n - 1, h) + 1
    ensures n == 0 ==> Len(n, h) == 0
  {
    if h > 0 { LenBounds(n, h - 1); }
  }

  lemma {:induction false} ShrMono(m: nat, n: nat, h: nat)
    requires m <= n
    ensures Shr(m, h) <= Shr(n, h)
    ensures Len(m, h) <= Len(n, h)
  {
    if h > 0 { ShrMono(m, n, h - 1); }
  }

  lemma {:induction false} ShrShrinks(n: nat, h: nat, k: nat)
    requires h <= k
    ensures Shr(n, k) <= Shr(n, h)
    ensures Len(n, k) <= Len(n, h)
    decreases k
  {
    if h < k { ShrShrinks(n, h, k - 1); }
  }

  lemma {:induction false} ShrIsDiv(n: nat, h: nat)
    ensures Shr(n, h) == n / Pow2(h)
  {
    if h > 0 {
      ShrIsDiv(n, h - 1);
      DivDiv(n, Pow2(h - 1));
    }
  }

  lemma DivDiv(n: nat, p: nat)
    requires p > 0
    ensures n / p / 2 == n / (2 * p)
  {
    var q := n / p;
    var r := n % p;
    var a := q / 2;
    var b := q % 2;
    assert n == p * q + r;
    assert q == 2 * a + b;
    Regroup(p, a, b);
    DivUnique(n, 2 * p, a, p * b + r);
  }

  lemma DivUnique(n: int, d: int, q: int, r: int)
    requires d > 0
    requires n == d * q + r && 0 <= r < d
    ensures n / d == q && n % d == r
  {
    var q' := n / d;
    var r' := n % d;
    assert n == d * q' + r' && 0 <= r' < d;
    MultipleBelow(d, q, q', r' - r);
  }

  lemma MultipleBelow(d: int, a: int, b: int, diff: int)
    requires d > 0 && -d < diff < d
    requires d * a == d * b + diff
    ensures a == b && diff == 0
  {
    if a > b {
      MulLe(d, b + 1, a);
    } else if a < b {
      MulLe(d, a + 1, b);
    }
  }

  lemma MulLe(d: int, a: int, b: int)
    requires d >= 0 && a <= b
    ensures d * a <= d * b
  {
  }

  lemma DivAtLeast(m: nat, p: nat, i: nat)
    requires p > 0
    ensures i <= m / p <==> i * p <= m
  {
    var q, r := m / p, m % p;
    assert m == p * q + r && 0 <= r < p;
    assert p * i == i * p;
    if i <= q {
      MulLe(p, i, q);
    } else {
      MulLe(p, q + 1, i);
      assert p * (q + 1) == p * q + p;
    }
  }

  lemma {:induction false} ShrZero(n: nat, h: nat)
    ensures Shr(n, h) == 0 <==> n < Pow2(h)
  {
    ShrIsDiv(n, h);
    if n < Pow2(h) {
      DivUnique(n, Pow2(h), 0, n);
    } else {
      assert n / Pow2(h) != 0;
    }
  }

  lemma {:induction false} AlignedIsMod(n: nat, d: nat)
    ensures Aligned(n, d) <==> n % Pow2(d) == 0
  {
    if d > 0 {
      AlignedIsMod(n, d - 1);
      ShrIsDiv(n, d - 1);
      HalveMod(n, Pow2(d - 1));
    }
  }

  lemma HalveMod(n: nat, p: nat)
    requires p > 0
    ensures n % (2 * p) == 0 <==> n % p == 0 && n / p % 2 == 0
  {
    var q := n / p;
    var r := n % p;
    var a := q / 2;
    var b := q % 2;
    assert q == 2 * a + b;
    assert n == p * q + r;
    Regroup(p, a, b);
    if b == 0 {
      DivUnique(n, 2 * p, a, r);
    } else {
      DivUnique(n, 2 * p, a, p + r);
    }
  }

  lemma Regroup(p: int, a: int, b: int)
    ensures p * (2 * a + b) == 2 * p * a + p * b
  {
  }

  /** Where the two halves of block `i` of `2p` elements start. */
  lemma HalfBlocks(first: nat, i: nat, p2: nat, p: nat)
    requires p2 == 2 * p && first == i * p2
    ensures first == (2 * i) * p && first + p == (2 * i + 1) * p
  {
    assert i * (2 * p) == (2 * i) * p;
    assert (2 * i + 1) * p == (2 * i) * p + p;
  }

  lemma {:induction false} AlignedWeaken(n: nat, d: nat, e: nat)
    requires Aligned(n, d) && e <= d
    ensures Aligned(n, e)
    decreases d
  {
    if e < d { AlignedWeaken(n, d - 1, e); }
  }

  /** Below an alignment layer no node is partial. */
  lemma {:induction false} AlignedLen(n: nat, d: nat, h: nat)
    requires Aligned(n, d) && h <= d
    ensures Len(n, h) == Shr(n, h)
    ensures h < d ==> Shr(n, h) % 2 == 0
  {
    if h < d { AlignedWeaken(n, d, h + 1); }
    if h > 0 { AlignedLen(n, d, h - 1); }
  }

  /** Appending `2^d` leaves to an aligned tree adds `2^(d-h)` nodes in layer `h`. */
  lemma {:induction false} AlignedExtend(n: nat, d: nat, h: nat)
    requires Aligned(n, d) && h <= d
    ensures Shr(n + Pow2(d), h) == Shr(n, h) + Pow2(d - h)
    ensures Len(n + Pow2(d), h) == Len(n, h) + Pow2(d - h)
    ensures Aligned(n + Pow2(d), h)
  {
    AlignedLen(n, d, h);
    if h > 0 {
      AlignedExtend(n, d, h - 1);
      AlignedLen(n, d, h - 1);
      assert Pow2(d - (h - 1)) == 2 * Pow2(d - h);
    }
  }

  lemma {:induction false} Pow2Add(a: nat, b: nat)
    ensures Pow2(a + b) == Pow2(a) * Pow2(b)
  {
    if a > 0 {
      Pow2Add(a - 1, b);
      assert Pow2(a + b) == 2 * Pow2((a - 1) + b);
    }
  }

  lemma {:induction false} Pow2Mono(a: nat, b: nat)
    requires a <= b
    ensures Pow2(a) <= Pow2(b)
    ensures a < b ==> Pow2(a) < Pow2(b)
    decreases b
  {
    if a < b { Pow2Mono(a, b - 1); }
  }

  lemma Pow2Le(a: nat, b: nat)
    ensures Pow2(a) <= Pow2(b) <==> a <= b
  {
    if a <= b { Pow2Mono(a, b); } else { Pow2Mono(b, a); }
  }
}
