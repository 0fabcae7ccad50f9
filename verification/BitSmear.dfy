/** `next_pow2`: smearing the highest bit downwards gives the next power of two. */
module BitSmear {
  import opened Bits
  import opened Rfc6962
  import opened AppendProofs

  /** The least power of two that is not below `n`. */
  function NextPow2(n: nat): (r: nat)
    requires n >= 1
    ensures r / 2 < n <= r && IsPow2(r)
  {
    NextIsPow2(n);
    if n == 1 then 1 else 2 * Split(n)
  }

  ghost predicate IsPow2(r: nat) {
    exists k: nat :: r == Pow2(k)
  }

  lemma NextIsPow2(n: nat)
    requires n >= 1
    ensures IsPow2(if n == 1 then 1 else 2 * Split(n))
  {
    if n == 1 {
      assert Pow2(0) == 1;
    } else {
      var h := SplitExponent(n);
      assert 2 * Split(n) == Pow2(h + 1);
    }
  }

  /** Bitwise or. */
  function Or(a: nat, b: nat): nat {
    if a == 0 && b == 0 then 0
    else 2 * Or(a / 2, b / 2) + (if a % 2 == 1 || b % 2 == 1 then 1 else 0)
  }

  function Ones(k: nat): nat {
    Pow2(k) - 1
  }

  lemma {:induction false} OrZero(a: nat)
    ensures Or(a, 0) == a
  {
    if a > 0 { OrZero(a / 2); }
  }

  lemma {:induction false} ShrOr(a: nat, b: nat, k: nat)
    ensures Shr(Or(a, b), k) == Or(Shr(a, k), Shr(b, k))
  {
    if k > 0 { ShrOr(a, b, k - 1); }
  }

  lemma {:induction false} ShrOnes(w: nat, k: nat)
    requires k <= w
    ensures Shr(Ones(w), k) == Ones(w - k)
  {
    if k > 0 {
      ShrOnes(w, k - 1);
      assert Pow2(w - (k - 1)) == 2 * Pow2(w - k);
    }
  }

  /** Ones in the low `w` bits complete ones above them. */
  lemma {:induction false} OrOnes(z: nat, w: nat, v: nat)
    requires Shr(z, w) == Ones(v)
    ensures Or(z, Ones(w)) == Ones(w + v)
  {
    if w == 0 {
      OrZero(z);
    } else {
      ShrHalf(z, w - 1);
      OrOnes(z / 2, w - 1, v);
      assert Pow2(w) == 2 * Pow2(w - 1) && Pow2(w + v) == 2 * Pow2(w - 1 + v);
      assert Ones(w) % 2 == 1 && Ones(w) / 2 == Ones(w - 1);
    }
  }

  /** `x` has `len` bits, the upper `w` of them ones. */
  predicate TopOnes(x: nat, len: nat, w: nat) {
    w <= len && Shr(x, len - w) == Ones(w)
  }

  /** One step of the smear doubles the run of ones. */
  lemma Smear(x: nat, len: nat, w: nat, s: nat)
    requires TopOnes(x, len, w) && (w == s || (w == len && w < s))
    ensures TopOnes(Or(x, Shr(x, s)), len, if 2 * s <= len then 2 * s else len)
  {
    if w == s {
      var m := if 2 * w <= len then w else len - w;
      ShrOr(x, Shr(x, w), len - w - m);
      ShrSplit(x, w, len - w - m);
      ShrSplit(x, len - w, w - m);
      ShrOnes(w, w - m);
      ShrSplit(x, len - w - m, m);
      OrOnes(Shr(x, len - w - m), m, w);
    } else {
      Pow2Mono(len, s);
      ShrZero(x, s);
      OrZero(x);
    }
  }

  lemma {:induction false} BitLength(x: nat) returns (len: nat)
    requires x > 0
    ensures len >= 1 && Shr(x, len - 1) == 1
  {
    if x == 1 {
      len := 1;
    } else {
      var l := BitLength(x / 2);
      ShrHalf(x, l - 1);
      len := l + 1;
    }
  }

  lemma BitLengthBounds(x: nat, len: nat)
    requires len >= 1 && Shr(x, len - 1) == 1
    ensures Pow2(len - 1) <= x < Pow2(len)
  {
    ShrZero(x, len - 1);
    ShrZero(x, len);
  }

  method ComputeNextPow2(n: nat) returns (r: nat)
    requires 1 <= n <= Pow2(63)
    ensures r == NextPow2(n)
  {
    hide Pow2, Shr, Or;
    var x := n - 1;
    ghost var len: nat := 0;
    if x > 0 {
      len := BitLength(x);
      BitLengthBounds(x, len);
      FitsWord(x, len);
      assert TopOnes(x, len, 1) by { OneBit(); }
    } else {
      SmearZero();
    }
    ghost var y := x;
    x := Or(x, Shr(x, 1));
    if y > 0 { Smear(y, len, 1, 1); }
    ghost var y2 := x;
    x := Or(x, Shr(x, 2));
    if y > 0 { Smear(y2, len, if 2 <= len then 2 else len, 2); }
    ghost var y4 := x;
    x := Or(x, Shr(x, 4));
    if y > 0 { Smear(y4, len, if 4 <= len then 4 else len, 4); }
    ghost var y8 := x;
    x := Or(x, Shr(x, 8));
    if y > 0 { Smear(y8, len, if 8 <= len then 8 else len, 8); }
    ghost var y16 := x;
    x := Or(x, Shr(x, 16));
    if y > 0 { Smear(y16, len, if 16 <= len then 16 else len, 16); }
    ghost var y32 := x;
    x := Or(x, Shr(x, 32));
    if y > 0 {
      Smear(y32, len, if 32 <= len then 32 else len, 32);
      Smeared(n, x, len);
    }
    r := x + 1;
  }

  lemma OneBit()
    ensures Ones(1) == 1
  {
    assert Pow2(1) == 2;
  }

  lemma SmearZero()
    ensures forall k: nat :: Shr(0, k) == 0
    ensures Or(0, 0) == 0
  {
    forall k: nat ensures Shr(0, k) == 0 {
      ShrZero(0, k);
    }
  }

  lemma FitsWord(x: nat, len: nat)
    requires len >= 1 && Pow2(len - 1) <= x < Pow2(63)
    ensures len <= 63
  {
    if len > 63 { Pow2Mono(63, len - 1); }
  }

  lemma Smeared(n: nat, x: nat, len: nat)
    requires len >= 1 && Pow2(len - 1) <= n - 1 < Pow2(len) && TopOnes(x, len, len)
    ensures x + 1 == Pow2(len) == NextPow2(n)
  {
    SplitIsPow2(n, len - 1);
  }
}
