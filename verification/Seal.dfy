/** The chained masking of stored sectors: sealing and unsealing undo each other. */
module Seal {

  const WORD := 32

  type Word = w: seq<bv8> | |w| == 32 witness seq(32, _ => 0)

  function Xor(a: Word, b: Word): Word {
    seq(32, i requires 0 <= i < 32 => a[i] ^ b[i])
  }

  lemma XorTwice(a: Word, b: Word)
    ensures Xor(Xor(a, b), b) == a
  {
    var c := Xor(Xor(a, b), b);
    forall i | 0 <= i < 32 ensures c[i] == a[i] {
      assert (a[i] ^ b[i]) ^ b[i] == a[i];
    }
  }

  /** Every word is masked with the hash of the sealed word before it. */
  function Sealed(data: seq<bv8>, mask: Word, hash: Word -> Word): (r: seq<bv8>)
    requires |data| % 32 == 0
    ensures |r| == |data|
    decreases |data|
  {
    if |data| == 0 then []
    else
      var word := Xor(data[..32], mask);
      word + Sealed(data[32..], hash(word), hash)
  }

  /** Every word is unmasked with the hash of the sealed word before it. */
  function Unsealed(data: seq<bv8>, mask: Word, hash: Word -> Word): (r: seq<bv8>)
    requires |data| % 32 == 0
    ensures |r| == |data|
    decreases |data|
  {
    if |data| == 0 then []
    else Xor(data[..32], mask) + Unsealed(data[32..], hash(data[..32]), hash)
  }

  lemma {:induction false} UnsealUndoesSeal(data: seq<bv8>, mask: Word, hash: Word -> Word)
    requires |data| % 32 == 0
    ensures Unsealed(Sealed(data, mask, hash), mask, hash) == data
    decreases |data|
  {
    if |data| > 0 {
      var word := Xor(data[..32], mask);
      var s := Sealed(data, mask, hash);
      assert s[..32] == word && s[32..] == Sealed(data[32..], hash(word), hash);
      XorTwice(data[..32], mask);
      UnsealUndoesSeal(data[32..], hash(word), hash);
      assert data == data[..32] + data[32..];
    }
  }

  lemma {:induction false} SealUndoesUnseal(data: seq<bv8>, mask: Word, hash: Word -> Word)
    requires |data| % 32 == 0
    ensures Sealed(Unsealed(data, mask, hash), mask, hash) == data
    decreases |data|
  {
    if |data| > 0 {
      var word: Word := data[..32];
      var u := Unsealed(data, mask, hash);
      assert u[..32] == Xor(word, mask) && u[32..] == Unsealed(data[32..], hash(word), hash);
      XorTwice(word, mask);
      SealUndoesUnseal(data[32..], hash(word), hash);
      assert data == data[..32] + data[32..];
    }
  }

  /** What sealing and unsealing do to every single byte. */
  lemma {:induction false} SealedBytes(data: seq<bv8>, mask: Word, hash: Word -> Word, k: nat)
    requires |data| % 32 == 0 && k < |data|
    ensures var r := Sealed(data, mask, hash);
            r[k] == data[k] ^ if k < 32 then mask[k] else hash(r[k - k % 32 - 32..k - k % 32])[k % 32]
    decreases |data|
  {
    var (word, r) := (Xor(data[..32], mask), Sealed(data, mask, hash));
    var rest := Sealed(data[32..], hash(word), hash);
    assert r == word + rest;
    if k >= 32 {
      SealedBytes(data[32..], hash(word), hash, k - 32);
      SameWord(word, rest, k);
    }
  }

  lemma {:induction false} UnsealedBytes(data: seq<bv8>, mask: Word, hash: Word -> Word, k: nat)
    requires |data| % 32 == 0 && k < |data|
    ensures Unsealed(data, mask, hash)[k]
            == data[k] ^ if k < 32 then mask[k] else hash(data[k - k % 32 - 32..k - k % 32])[k % 32]
    decreases |data|
  {
    if k >= 32 {
      UnsealedBytes(data[32..], hash(data[..32]), hash, k - 32);
      SameWord(data[..32], data[32..], k);
      assert data == data[..32] + data[32..];
    }
  }

  /** The word before that of byte `k`, seen from one word further on. */
  lemma SameWord(word: Word, rest: seq<bv8>, k: nat)
    requires 32 <= k < 32 + |rest|
    ensures k % 32 == (k - 32) % 32
    ensures var w := k - k % 32;
            if k < 64 then w == 32 && (word + rest)[0..32] == word
            else (word + rest)[w - 32..w] == rest[w - 64..w - 32]
  {
  }

  lemma AllSealedBytes(data: seq<bv8>, mask: Word, hash: Word -> Word)
    requires |data| % 32 == 0
    ensures var (s, u) := (Sealed(data, mask, hash), Unsealed(data, mask, hash));
            && (forall k :: 0 <= k < 32 && k < |data| ==> s[k] == data[k] ^ mask[k] && u[k] == data[k] ^ mask[k])
            && (forall k :: 32 <= k < |data| ==> s[k] == data[k] ^ hash(s[k - k % 32 - 32..k - k % 32])[k % 32])
            && (forall k :: 32 <= k < |data| ==> u[k] == data[k] ^ hash(data[k - k % 32 - 32..k - k % 32])[k % 32])
  {
    hide Sealed, Unsealed;
    forall k | 0 <= k < |data|
      ensures Sealed(data, mask, hash)[k] == data[k] ^ if k < 32 then mask[k] else hash(Sealed(data, mask, hash)[k - k % 32 - 32..k - k % 32])[k % 32]
      ensures Unsealed(data, mask, hash)[k] == data[k] ^ if k < 32 then mask[k] else hash(data[k - k % 32 - 32..k - k % 32])[k % 32]
    {
      SealedBytes(data, mask, hash, k);
      UnsealedBytes(data, mask, hash, k);
    }
  }

  /** One word of the array is combined with the mask in place. */
  method XorInPlace(data: array<bv8>, at: nat, mask: Word)
    requires at + 32 <= data.Length
    modifies data
    ensures data[..at] == old(data[..at]) && data[at + 32..] == old(data[at + 32..])
    ensures data[at..at + 32] == Xor(old(data[at..at + 32]), mask)
  {
    for i := 0 to 32
      invariant forall k :: 0 <= k < data.Length && !(at <= k < at + i) ==> data[k] == old(data[k])
      invariant forall k :: 0 <= k < i ==> data[at + k] == old(data[at + k]) ^ mask[k]
    {
      data[at + i] := data[at + i] ^ mask[i];
    }
  }

  lemma SealRound(done: seq<bv8>, rest: seq<bv8>, mask: Word, hash: Word -> Word)
    requires |rest| % 32 == 0 && |rest| >= 32
    ensures done + Sealed(rest, mask, hash)
         == done + Xor(rest[..32], mask) + Sealed(rest[32..], hash(Xor(rest[..32], mask)), hash)
    ensures done + Unsealed(rest, mask, hash)
         == done + Xor(rest[..32], mask) + Unsealed(rest[32..], hash(rest[..32]), hash)
  {
  }

  /** The loop over the words. */
  method SealWords(data: array<bv8>, firstMask: Word, hash: Word -> Word)
    requires data.Length % 32 == 0
    modifies data
    ensures data[..] == Sealed(old(data[..]), firstMask, hash)
  {
    hide Sealed, Unsealed, Xor;
    var mask := firstMask;
    var at := 0;
    ghost var start := data[..];
    while at < data.Length
      invariant 0 <= at <= data.Length && at % 32 == 0
      invariant data[at..] == start[at..]
      invariant Sealed(start, firstMask, hash) == data[..at] + Sealed(start[at..], mask, hash)
    {
      ghost var done := data[..at];
      ghost var rest := start[at..];
      assert data[at..at + 32] == rest[..32] && start[at + 32..] == rest[32..];
      SealRound(done, rest, mask, hash);
      XorInPlace(data, at, mask);
      assert data[..at + 32] == done + data[at..at + 32];
      mask := hash(data[at..at + 32]);
      at := at + 32;
    }
  }

  method SealWithMask(data: array<bv8>, firstMask: Word, hash: Word -> Word)
    requires data.Length % 32 == 0
    modifies data
    ensures forall k :: 0 <= k < 32 && k < data.Length ==> data[k] == old(data[k]) ^ firstMask[k]
    ensures forall k :: 32 <= k < data.Length ==>
              data[k] == old(data[k]) ^ hash(data[..][k - k % 32 - 32..k - k % 32])[k % 32]
    ensures data[..] == Sealed(old(data[..]), firstMask, hash)
  {
    hide Sealed, Unsealed, Xor;
    ghost var start := data[..];
    SealWords(data, firstMask, hash);
    AllSealedBytes(start, firstMask, hash);
    assert forall k :: 0 <= k < data.Length ==> data[k] == Sealed(start, firstMask, hash)[k];
  }

  /** The loop over the words. */
  method UnsealWords(data: array<bv8>, firstMask: Word, hash: Word -> Word)
    requires data.Length % 32 == 0
    modifies data
    ensures data[..] == Unsealed(old(data[..]), firstMask, hash)
  {
    hide Sealed, Unsealed, Xor;
    var mask := firstMask;
    var at := 0;
    ghost var start := data[..];
    while at < data.Length
      invariant 0 <= at <= data.Length && at % 32 == 0
      invariant data[at..] == start[at..]
      invariant Unsealed(start, firstMask, hash) == data[..at] + Unsealed(start[at..], mask, hash)
    {
      ghost var done := data[..at];
      ghost var rest := start[at..];
      assert data[at..at + 32] == rest[..32] && start[at + 32..] == rest[32..];
      SealRound(done, rest, mask, hash);
      var nextMask := hash(data[at..at + 32]);
      XorInPlace(data, at, mask);
      assert data[..at + 32] == done + data[at..at + 32];
      mask := nextMask;
      at := at + 32;
    }
  }

  method UnsealWithMask(data: array<bv8>, firstMask: Word, hash: Word -> Word)
    requires data.Length % 32 == 0
    modifies data
    ensures forall k :: 0 <= k < 32 && k < data.Length ==> data[k] == old(data[k]) ^ firstMask[k]
    ensures forall k :: 32 <= k < data.Length ==>
              data[k] == old(data[k]) ^ hash(old(data[..])[k - k % 32 - 32..k - k % 32])[k % 32]
    ensures data[..] == Unsealed(old(data[..]), firstMask, hash)
  {
    hide Sealed, Unsealed, Xor;
    ghost var start := data[..];
    UnsealWords(data, firstMask, hash);
    AllSealedBytes(start, firstMask, hash);
    assert forall k :: 0 <= k < data.Length ==> data[k] == Unsealed(start, firstMask, hash)[k];
  }
}
