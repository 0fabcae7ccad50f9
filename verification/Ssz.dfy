/**
 * SSZ containers: a fixed part holding the fixed items and one 4-byte offset for each variable
 * item, followed by the variable items.  Decoding and encoding are shown to be inverse to each
 * other, and decoding is shown to succeed on nothing but encodings.
 */
module Ssz {
  import opened Wrappers
  import Bits

  newtype Byte = x: int | 0 <= x < 256

  const OFFSET_LIMIT := 0x1_0000_0000

  // ---- Offsets: 4 bytes, little endian

  function EncodeLength(n: nat): (r: seq<Byte>)
    ensures |r| == 4
  {
    [(n % 256) as Byte, (n / 256 % 256) as Byte, (n / 65536 % 256) as Byte, (n / 16777216 % 256) as Byte]
  }

  function DecodeOffset(b: seq<Byte>): nat
    requires |b| == 4
  {
    b[0] as nat + 256 * b[1] as nat + 65536 * b[2] as nat + 16777216 * b[3] as nat
  }

  /** Only the low 32 bits of a length survive, because the encoder cuts the length off. */
  lemma OffsetTruncates(n: nat)
    ensures var r := EncodeLength(n);
            n % OFFSET_LIMIT == r[0] as nat + 256 * r[1] as nat + 65536 * r[2] as nat + 16777216 * r[3] as nat
    ensures DecodeOffset(EncodeLength(n)) == n % OFFSET_LIMIT
  {
    var (a, b, c) := (n / 256, n / 65536, n / 16777216);
    Bits.DivUnique(n, 65536, a / 256, 256 * (a % 256) + n % 256);
    Bits.DivUnique(n, 16777216, b / 256, 65536 * (b % 256) + 256 * (a % 256) + n % 256);
    Digits(n, a, b, c);
  }

  lemma Digits(n: nat, a: nat, b: nat, c: nat)
    requires a == n / 256 && b == a / 256 && c == b / 256
    ensures n % OFFSET_LIMIT == n % 256 + 256 * (a % 256) + 65536 * (b % 256) + 16777216 * (c % 256)
  {
    Bits.DivUnique(n, OFFSET_LIMIT, c / 256, n % 256 + 256 * (a % 256) + 65536 * (b % 256) + 16777216 * (c % 256));
  }

  lemma OfDigits(b0: nat, b1: nat, b2: nat, b3: nat)
    requires b0 < 256 && b1 < 256 && b2 < 256 && b3 < 256
    ensures var n := b0 + 256 * b1 + 65536 * b2 + 16777216 * b3;
            n % 256 == b0 && n / 256 % 256 == b1 && n / 65536 % 256 == b2 && n / 16777216 == b3
  {
    var n := b0 + 256 * b1 + 65536 * b2 + 16777216 * b3;
    var (n1, n2) := (b1 + 256 * b2 + 65536 * b3, b2 + 256 * b3);
    Bits.DivUnique(n, 256, n1, b0);
    Bits.DivUnique(n1, 256, n2, b1);
    Bits.DivUnique(n, 65536, n2, b0 + 256 * b1);
    Bits.DivUnique(n2, 256, b3, b2);
    Bits.DivUnique(n, 16777216, b3, b0 + 256 * b1 + 65536 * b2);
  }

  lemma OffsetDetermined(b: seq<Byte>)
    requires |b| == 4
    ensures EncodeLength(DecodeOffset(b)) == b
    ensures DecodeOffset(b) < OFFSET_LIMIT
  {
    OfDigits(b[0] as nat, b[1] as nat, b[2] as nat, b[3] as nat);
  }

  // ---- The container format

  datatype Shape = Fixed(len: nat) | Variable

  function Width(s: Shape): nat {
    if s.Fixed? then s.len else 4
  }

  /** Where the k-th item starts in the fixed part. */
  function Pos(shapes: seq<Shape>, k: nat): nat
    requires k <= |shapes|
  {
    if k == 0 then 0 else Pos(shapes, k - 1) + Width(shapes[k - 1])
  }

  lemma PosMono(shapes: seq<Shape>, k: nat, m: nat)
    requires k <= m <= |shapes|
    ensures Pos(shapes, k) <= Pos(shapes, m)
    decreases m
  {
    if k < m {
      PosMono(shapes, k, m - 1);
    }
  }

  lemma {:induction false} PosPrefix(shapes: seq<Shape>, other: seq<Shape>, k: nat)
    requires k <= |shapes| && shapes <= other
    ensures Pos(shapes, k) == Pos(other, k)
  {
    if k > 0 {
      PosPrefix(shapes, other, k - 1);
    }
  }

  /** The items have as many bytes as their shapes say. */
  ghost predicate Matching(shapes: seq<Shape>, items: seq<seq<Byte>>) {
    && |items| == |shapes|
    && forall k :: 0 <= k < |shapes| && shapes[k].Fixed? ==> |items[k]| == shapes[k].len
  }

  /** The variable part written by the first k items. */
  function Tail(shapes: seq<Shape>, items: seq<seq<Byte>>, k: nat): seq<Byte>
    requires k <= |shapes| == |items|
  {
    if k == 0 then []
    else Tail(shapes, items, k - 1) + if shapes[k - 1].Fixed? then [] else items[k - 1]
  }

  /** What the k-th item writes into the fixed part when the variable part starts at base. */
  function Piece(shapes: seq<Shape>, items: seq<seq<Byte>>, base: nat, k: nat): seq<Byte>
    requires k < |shapes| == |items|
  {
    if shapes[k].Fixed? then items[k] else EncodeLength(base + |Tail(shapes, items, k)|)
  }

  /** The fixed part written by the first k items. */
  function Head(shapes: seq<Shape>, items: seq<seq<Byte>>, base: nat, k: nat): seq<Byte>
    requires k <= |shapes| == |items|
  {
    if k == 0 then [] else Head(shapes, items, base, k - 1) + Piece(shapes, items, base, k - 1)
  }

  lemma NextItem(shapes: seq<Shape>, items: seq<seq<Byte>>, base: nat, k: nat)
    requires k < |shapes| == |items|
    ensures Pos(shapes, k + 1) == Pos(shapes, k) + Width(shapes[k])
    ensures Head(shapes, items, base, k + 1) == Head(shapes, items, base, k) + Piece(shapes, items, base, k)
    ensures shapes[k].Fixed? ==> Tail(shapes, items, k + 1) == Tail(shapes, items, k)
    ensures shapes[k].Variable? ==> Tail(shapes, items, k + 1) == Tail(shapes, items, k) + items[k]
  {
  }

  function Encode(shapes: seq<Shape>, items: seq<seq<Byte>>): seq<Byte>
    requires |shapes| == |items|
  {
    var n := |shapes|;
    Head(shapes, items, Pos(shapes, n), n) + Tail(shapes, items, n)
  }

  /** Every offset that the encoder writes fits its four bytes. */
  ghost predicate OffsetsFit(shapes: seq<Shape>, items: seq<seq<Byte>>)
    requires |shapes| == |items|
  {
    forall k :: 0 <= k < |shapes| && shapes[k].Variable? ==>
      Pos(shapes, |shapes|) + |Tail(shapes, items, k)| < OFFSET_LIMIT
  }

  lemma {:induction false} HeadLength(shapes: seq<Shape>, items: seq<seq<Byte>>, base: nat, k: nat)
    requires k <= |shapes| && Matching(shapes, items)
    ensures |Head(shapes, items, base, k)| == Pos(shapes, k)
  {
    if k > 0 {
      HeadLength(shapes, items, base, k - 1);
    }
  }

  /** What the first k items write depends on nothing later. */
  lemma {:induction false} PartsPrefix(shapes: seq<Shape>, items: seq<seq<Byte>>, s: Shape, b: seq<Byte>, base: nat, k: nat)
    requires k <= |shapes| == |items|
    ensures Tail(shapes, items, k) == Tail(shapes + [s], items + [b], k)
    ensures Head(shapes, items, base, k) == Head(shapes + [s], items + [b], base, k)
  {
    hide EncodeLength;
    if k > 0 {
      PartsPrefix(shapes, items, s, b, base, k - 1);
    }
  }

  lemma PartsAppended(shapes: seq<Shape>, items: seq<seq<Byte>>, s: Shape, b: seq<Byte>, base: nat)
    requires |shapes| == |items|
    ensures var n := |shapes|; var (tail, head) := (Tail(shapes, items, n), Head(shapes, items, base, n));
            && Tail(shapes + [s], items + [b], n + 1) == tail + (if s.Fixed? then [] else b)
            && Head(shapes + [s], items + [b], base, n + 1) == head + (if s.Fixed? then b else EncodeLength(base + |tail|))
  {
    hide EncodeLength;
    PartsPrefix(shapes, items, s, b, base, |shapes|);
  }

  class SszEncoder {
    const offset: nat
    var buf: seq<Byte>
    var variableBytes: seq<Byte>
    ghost const start: seq<Byte>
    ghost var shapes: seq<Shape>
    ghost var items: seq<seq<Byte>>

    ghost predicate Valid()
      reads this
    {
      && |shapes| == |items|
      && buf == start + Head(shapes, items, offset, |shapes|)
      && variableBytes == Tail(shapes, items, |shapes|)
    }

    constructor Container(out: seq<Byte>, numFixedBytes: nat)
      ensures Valid() && start == out && offset == numFixedBytes && shapes == [] && items == []
    {
      offset := numFixedBytes;
      buf := out;
      variableBytes := [];
      start := out;
      shapes, items := [], [];
    }

    method Append(shape: Shape, item: seq<Byte>)
      requires Valid()
      modifies this
      ensures Valid()
      ensures shapes == old(shapes) + [shape] && items == old(items) + [item]
    {
      hide EncodeLength, Head, Tail;
      PartsAppended(shapes, items, shape, item, offset);
      if shape.Fixed? {
        buf := buf + item;
      } else {
        buf := buf + EncodeLength(offset + |variableBytes|);
        variableBytes := variableBytes + item;
      }
      shapes, items := shapes + [shape], items + [item];
    }

    /** When the declared fixed length was the true one, the buffer has gained the encoding. */
    method Finalize() returns (out: seq<Byte>)
      requires Valid()
      modifies this
      ensures |old(shapes)| == |old(items)|
      ensures out == start + Head(old(shapes), old(items), offset, |old(shapes)|) + Tail(old(shapes), old(items), |old(shapes)|)
      ensures offset == Pos(old(shapes), |old(shapes)|) ==> out == start + Encode(old(shapes), old(items))
      ensures buf == out && variableBytes == []
    {
      buf := buf + variableBytes;
      variableBytes := [];
      out := buf;
    }
  }

  // ---- What decoding means

  /** The offset stored at p. */
  function ReadAt(bytes: seq<Byte>, p: nat): nat {
    if p + 4 <= |bytes| then DecodeOffset(bytes[p..p + 4]) else 0
  }

  /** Where the variable items from the k-th item on begin: at the next offset, or at the end. */
  function NextOffset(shapes: seq<Shape>, bytes: seq<Byte>, k: nat): nat
    requires k <= |shapes|
    decreases |shapes| - k
  {
    if k == |shapes| then |bytes|
    else if shapes[k].Variable? then ReadAt(bytes, Pos(shapes, k))
    else NextOffset(shapes, bytes, k + 1)
  }

  ghost predicate ItemAt(shapes: seq<Shape>, bytes: seq<Byte>, item: seq<Byte>, k: nat)
    requires k < |shapes|
  {
    var (from, to) :=
      if shapes[k].Fixed? then (Pos(shapes, k), Pos(shapes, k + 1))
      else (ReadAt(bytes, Pos(shapes, k)), NextOffset(shapes, bytes, k + 1));
    from <= to <= |bytes| && item == bytes[from..to]
  }

  /** The items are what the fixed part and the offsets of the bytes describe. */
  ghost predicate Decodes(shapes: seq<Shape>, bytes: seq<Byte>, items: seq<seq<Byte>>) {
    && |items| == |shapes|
    && NextOffset(shapes, bytes, 0) == Pos(shapes, |shapes|) <= |bytes|
    && forall k :: 0 <= k < |shapes| ==> ItemAt(shapes, bytes, items[k], k)
  }

  lemma DecodedMatching(shapes: seq<Shape>, bytes: seq<Byte>, items: seq<seq<Byte>>)
    requires Decodes(shapes, bytes, items)
    ensures Matching(shapes, items)
  {
    forall k | 0 <= k < |shapes| && shapes[k].Fixed?
      ensures |items[k]| == shapes[k].len
    {
      assert ItemAt(shapes, bytes, items[k], k);
    }
  }

  /** Walking over decoded items: the first k account for a prefix of each part. */
  lemma {:induction false} DecodedParts(shapes: seq<Shape>, bytes: seq<Byte>, items: seq<seq<Byte>>, k: nat)
    requires Decodes(shapes, bytes, items) && k <= |shapes|
    ensures Pos(shapes, k) <= |bytes|
    ensures bytes[..Pos(shapes, k)] == Head(shapes, items, Pos(shapes, |shapes|), k)
    ensures NextOffset(shapes, bytes, k) == Pos(shapes, |shapes|) + |Tail(shapes, items, k)| <= |bytes|
    ensures bytes[Pos(shapes, |shapes|)..NextOffset(shapes, bytes, k)] == Tail(shapes, items, k)
  {
    PosMono(shapes, k, |shapes|);
    if k > 0 {
      var i: nat := k - 1;
      var base := Pos(shapes, |shapes|);
      DecodedParts(shapes, bytes, items, i);
      assert ItemAt(shapes, bytes, items[i], i);
      DecodedStep(shapes, bytes, items, i);
    }
  }

  lemma DecodedStep(shapes: seq<Shape>, bytes: seq<Byte>, items: seq<seq<Byte>>, i: nat)
    requires i < |shapes| == |items|
    requires Pos(shapes, i) <= Pos(shapes, i + 1) <= |bytes|
    requires ItemAt(shapes, bytes, items[i], i)
    requires bytes[..Pos(shapes, i)] == Head(shapes, items, Pos(shapes, |shapes|), i)
    requires NextOffset(shapes, bytes, i) == Pos(shapes, |shapes|) + |Tail(shapes, items, i)| <= |bytes|
    requires bytes[Pos(shapes, |shapes|)..NextOffset(shapes, bytes, i)] == Tail(shapes, items, i)
    ensures bytes[..Pos(shapes, i + 1)] == Head(shapes, items, Pos(shapes, |shapes|), i + 1)
    ensures NextOffset(shapes, bytes, i + 1) == Pos(shapes, |shapes|) + |Tail(shapes, items, i + 1)| <= |bytes|
    ensures bytes[Pos(shapes, |shapes|)..NextOffset(shapes, bytes, i + 1)] == Tail(shapes, items, i + 1)
  {
    hide Head, Tail, Pos, DecodeOffset, EncodeLength;
    var (p, q) := (Pos(shapes, i), Pos(shapes, i + 1));
    NextItem(shapes, items, Pos(shapes, |shapes|), i);
    assert bytes[..q] == bytes[..p] + bytes[p..q];
    if shapes[i].Variable? {
      OffsetDetermined(bytes[p..q]);
      assert Piece(shapes, items, Pos(shapes, |shapes|), i) == bytes[p..q];
    } else {
      assert Piece(shapes, items, Pos(shapes, |shapes|), i) == bytes[p..q];
    }
  }

  /** Bytes that decode re-encode to themselves, and all their offsets fit. */
  lemma DecodedIsEncoding(shapes: seq<Shape>, bytes: seq<Byte>, items: seq<seq<Byte>>)
    requires Decodes(shapes, bytes, items)
    ensures Matching(shapes, items) && bytes == Encode(shapes, items) && OffsetsFit(shapes, items)
  {
    hide ItemAt, EncodeLength, DecodeOffset;
    var n := |shapes|;
    DecodedMatching(shapes, bytes, items);
    DecodedParts(shapes, bytes, items, n);
    assert bytes == bytes[..Pos(shapes, n)] + bytes[Pos(shapes, n)..];
    forall k | 0 <= k < n && shapes[k].Variable?
      ensures Pos(shapes, n) + |Tail(shapes, items, k)| < OFFSET_LIMIT
    {
      DecodedParts(shapes, bytes, items, k);
      PosMono(shapes, k + 1, n);
      OffsetDetermined(bytes[Pos(shapes, k)..Pos(shapes, k) + 4]);
    }
  }

  lemma {:induction false} TailPrefix(shapes: seq<Shape>, items: seq<seq<Byte>>, k: nat, m: nat)
    requires k <= m <= |shapes| == |items|
    ensures Tail(shapes, items, k) <= Tail(shapes, items, m)
    decreases m
  {
    if k < m {
      TailPrefix(shapes, items, k, m - 1);
    }
  }

  lemma {:induction false} HeadPrefix(shapes: seq<Shape>, items: seq<seq<Byte>>, base: nat, k: nat, m: nat)
    requires k <= m <= |shapes| == |items|
    ensures Head(shapes, items, base, k) <= Head(shapes, items, base, m)
    decreases m
  {
    if k < m {
      HeadPrefix(shapes, items, base, k, m - 1);
    }
  }

  lemma EncodedHead(shapes: seq<Shape>, items: seq<seq<Byte>>, k: nat)
    requires k <= |shapes| && Matching(shapes, items)
    ensures Pos(shapes, k) <= |Encode(shapes, items)|
    ensures Encode(shapes, items)[..Pos(shapes, k)] == Head(shapes, items, Pos(shapes, |shapes|), k)
    ensures |Encode(shapes, items)| == Pos(shapes, |shapes|) + |Tail(shapes, items, |shapes|)|
  {
    hide Head, Tail, Pos;
    var base := Pos(shapes, |shapes|);
    HeadLength(shapes, items, base, k);
    HeadLength(shapes, items, base, |shapes|);
    HeadPrefix(shapes, items, base, k, |shapes|);
  }

  lemma EncodedPiece(shapes: seq<Shape>, items: seq<seq<Byte>>, k: nat)
    requires k < |shapes| && Matching(shapes, items)
    ensures Pos(shapes, k) <= Pos(shapes, k + 1) <= |Encode(shapes, items)|
    ensures Encode(shapes, items)[Pos(shapes, k)..Pos(shapes, k + 1)] == Piece(shapes, items, Pos(shapes, |shapes|), k)
  {
    hide Head, Tail, Pos, Encode, Piece;
    var (p, q) := (Pos(shapes, k), Pos(shapes, k + 1));
    var base := Pos(shapes, |shapes|);
    var bytes := Encode(shapes, items);
    HeadLength(shapes, items, base, k);
    HeadLength(shapes, items, base, k + 1);
    EncodedHead(shapes, items, k + 1);
    NextItem(shapes, items, base, k);
    assert bytes[p..q] == bytes[..q][p..];
  }

  /** In an encoding whose offsets fit, the next offset is where the next variable item was put. */
  lemma {:induction false} EncodedOffset(shapes: seq<Shape>, items: seq<seq<Byte>>, k: nat)
    requires k <= |shapes| && Matching(shapes, items) && OffsetsFit(shapes, items)
    ensures NextOffset(shapes, Encode(shapes, items), k) == Pos(shapes, |shapes|) + |Tail(shapes, items, k)|
    decreases |shapes| - k
  {
    hide EncodeLength, DecodeOffset, Encode, Head, Tail, Pos;
    if k == |shapes| {
      EncodedHead(shapes, items, k);
    } else if shapes[k].Variable? {
      NextItem(shapes, items, 0, k);
      EncodedPiece(shapes, items, k);
      OffsetTruncates(Pos(shapes, |shapes|) + |Tail(shapes, items, k)|);
    } else {
      NextItem(shapes, items, 0, k);
      EncodedOffset(shapes, items, k + 1);
    }
  }

  lemma EncodedItem(shapes: seq<Shape>, items: seq<seq<Byte>>, k: nat)
    requires k < |shapes| && Matching(shapes, items) && OffsetsFit(shapes, items)
    ensures ItemAt(shapes, Encode(shapes, items), items[k], k)
  {
    hide EncodeLength, DecodeOffset, OffsetsFit, Head, Tail, Pos, Encode, NextOffset;
    var n := |shapes|;
    var bytes := Encode(shapes, items);
    EncodedPiece(shapes, items, k);
    if shapes[k].Variable? {
      EncodedOffset(shapes, items, k);
      EncodedOffset(shapes, items, k + 1);
      NextIs(shapes, bytes, k);
      NextItem(shapes, items, 0, k);
      TailPrefix(shapes, items, k + 1, n);
      EncodedHead(shapes, items, n);
      var (from, to) := (|Tail(shapes, items, k)|, |Tail(shapes, items, k + 1)|);
      EncodedTail(shapes, items);
      assert Tail(shapes, items, n)[from..to] == Tail(shapes, items, k + 1)[from..];
      assert bytes[Pos(shapes, n) + from..Pos(shapes, n) + to] == bytes[Pos(shapes, n)..][from..to];
    }
  }

  lemma NextIs(shapes: seq<Shape>, bytes: seq<Byte>, k: nat)
    requires k < |shapes| && shapes[k].Variable?
    ensures NextOffset(shapes, bytes, k) == ReadAt(bytes, Pos(shapes, k))
  {
  }

  lemma EncodedTail(shapes: seq<Shape>, items: seq<seq<Byte>>)
    requires Matching(shapes, items)
    ensures Pos(shapes, |shapes|) <= |Encode(shapes, items)|
    ensures Encode(shapes, items)[Pos(shapes, |shapes|)..] == Tail(shapes, items, |shapes|)
  {
    hide Head, Tail, Pos;
    HeadLength(shapes, items, Pos(shapes, |shapes|), |shapes|);
  }

  lemma EncodingDecodes(shapes: seq<Shape>, items: seq<seq<Byte>>)
    requires Matching(shapes, items) && OffsetsFit(shapes, items)
    ensures Decodes(shapes, Encode(shapes, items), items)
  {
    hide EncodeLength, DecodeOffset, OffsetsFit, ItemAt;
    EncodedOffset(shapes, items, 0);
    HeadLength(shapes, items, Pos(shapes, |shapes|), |shapes|);
    forall k | 0 <= k < |shapes| ensures ItemAt(shapes, Encode(shapes, items), items[k], k) {
      EncodedItem(shapes, items, k);
    }
  }

  /** The bytes are an encoding of items that have the given shapes and whose offsets fit. */
  ghost predicate EncodingOf(shapes: seq<Shape>, bytes: seq<Byte>, items: seq<seq<Byte>>) {
    Matching(shapes, items) && bytes == Encode(shapes, items) && OffsetsFit(shapes, items)
  }

  /** Decoding is exactly the inverse of encoding items whose offsets fit. */
  lemma DecodesExactly(shapes: seq<Shape>, bytes: seq<Byte>, items: seq<seq<Byte>>)
    ensures Decodes(shapes, bytes, items) <==> EncodingOf(shapes, bytes, items)
  {
    hide Decodes, OffsetsFit, Encode;
    if Decodes(shapes, bytes, items) {
      DecodedIsEncoding(shapes, bytes, items);
    } else if EncodingOf(shapes, bytes, items) {
      EncodingDecodes(shapes, items);
    }
  }

  /** Encodings within the limit come back; longer ones never do. */
  lemma RoundTrip(shapes: seq<Shape>, items: seq<seq<Byte>>)
    requires Matching(shapes, items)
    ensures Decodes(shapes, Encode(shapes, items), items) <==> OffsetsFit(shapes, items)
  {
    DecodesExactly(shapes, Encode(shapes, items), items);
  }

  // ---- The decoder

  datatype Offset = Offset(position: nat, offset: nat)

  ghost predicate AllFixed(shapes: seq<Shape>, from: nat, to: nat) {
    forall i :: from <= i < to && i < |shapes| ==> shapes[i].Fixed?
  }

  lemma {:induction false} SkipFixed(shapes: seq<Shape>, bytes: seq<Byte>, from: nat, to: nat)
    requires from <= to <= |shapes| && AllFixed(shapes, from, to)
    ensures NextOffset(shapes, bytes, from) == NextOffset(shapes, bytes, to)
    decreases |shapes| - from
  {
    if from < to {
      SkipFixed(shapes, bytes, from + 1, to);
    }
  }

  /** The offsets are those of the variable items, in order, none missing, none decreasing. */
  ghost predicate OffsetsOf(shapes: seq<Shape>, bytes: seq<Byte>, offsets: seq<Offset>) {
    && (forall j :: 0 <= j < |offsets| ==> OffsetOf(shapes, bytes, offsets[j]))
    && (forall j, l :: 0 <= j && l == j + 1 && l < |offsets| ==> Successive(shapes, offsets[j], offsets[l]))
    && AllFixed(shapes, 0, if offsets == [] then |shapes| else offsets[0].position)
    && (offsets != [] ==> AllFixed(shapes, offsets[|offsets| - 1].position + 1, |shapes|))
  }

  ghost predicate Successive(shapes: seq<Shape>, a: Offset, b: Offset) {
    a.position < b.position && a.offset <= b.offset && AllFixed(shapes, a.position + 1, b.position)
  }

  ghost predicate OffsetOf(shapes: seq<Shape>, bytes: seq<Byte>, o: Offset) {
    && o.position < |shapes| && shapes[o.position].Variable?
    && o.offset == ReadAt(bytes, Pos(shapes, o.position)) <= |bytes|
  }

  ghost predicate FixedItem(shapes: seq<Shape>, bytes: seq<Byte>, item: seq<Byte>, k: nat)
    requires k < |shapes|
  {
    shapes[k].Fixed? ==> ItemAt(shapes, bytes, item, k)
  }

  /** No way of going on can make these bytes decode. */
  ghost predicate Hopeless(shapes: seq<Shape>, bytes: seq<Byte>) {
    forall more, items :: shapes <= more ==> !Decodes(more, bytes, items)
  }

  lemma TooShort(shapes: seq<Shape>, bytes: seq<Byte>)
    requires Pos(shapes, |shapes|) > |bytes|
    ensures Hopeless(shapes, bytes)
  {
    forall more, items | shapes <= more && Decodes(more, bytes, items) ensures false {
      PosPrefix(shapes, more, |shapes|);
      PosMono(more, |shapes|, |more|);
    }
  }

  /** The last registered item has an offset out of bounds or below the one before. */
  lemma BadOffset(shapes: seq<Shape>, bytes: seq<Byte>, offsets: seq<Offset>)
    requires OffsetsOf(shapes, bytes, offsets)
    requires var o := ReadAt(bytes, Pos(shapes, |shapes|));
             o > |bytes| || (offsets != [] && offsets[|offsets| - 1].offset > o)
    ensures Hopeless(shapes + [Variable], bytes)
  {
    hide DecodeOffset, Pos, NextOffset, OffsetsOf;
    var n := |shapes|;
    forall more, items | shapes + [Variable] <= more && Decodes(more, bytes, items) ensures false {
      assert more[n] == Variable;
      PosPrefix(shapes, more, n);
      assert ItemAt(more, bytes, items[n], n);
      if offsets != [] {
        PreviousBound(shapes, bytes, offsets, more, items);
      }
    }
  }

  lemma PreviousBound(shapes: seq<Shape>, bytes: seq<Byte>, offsets: seq<Offset>, more: seq<Shape>, items: seq<seq<Byte>>)
    requires OffsetsOf(shapes, bytes, offsets) && offsets != []
    requires shapes + [Variable] <= more && Decodes(more, bytes, items)
    ensures offsets[|offsets| - 1].offset <= ReadAt(bytes, Pos(more, |shapes|))
  {
    hide DecodeOffset, Pos, ReadAt;
    var n := |shapes|;
    var last := offsets[|offsets| - 1];
    assert OffsetOf(shapes, bytes, last);
    assert more[n] == Variable && more[last.position] == Variable;
    PosPrefix(shapes, more, last.position);
    assert ItemAt(more, bytes, items[last.position], last.position);
    SkipFixed(more, bytes, last.position + 1, n);
  }

  lemma OffsetOfExtend(shapes: seq<Shape>, bytes: seq<Byte>, o: Offset, s: Shape)
    requires OffsetOf(shapes, bytes, o)
    ensures OffsetOf(shapes + [s], bytes, o)
  {
    hide Pos, DecodeOffset;
    PosPrefix(shapes, shapes + [s], o.position);
  }

  lemma OffsetsKeep(shapes: seq<Shape>, bytes: seq<Byte>, offsets: seq<Offset>, s: Shape)
    requires OffsetsOf(shapes, bytes, offsets) && s.Fixed?
    ensures OffsetsOf(shapes + [s], bytes, offsets)
  {
    hide OffsetOf;
    forall j | 0 <= j < |offsets| ensures OffsetOf(shapes + [s], bytes, offsets[j]) {
      OffsetOfExtend(shapes, bytes, offsets[j], s);
    }
  }

  lemma OffsetsExtend(shapes: seq<Shape>, bytes: seq<Byte>, offsets: seq<Offset>, o: nat)
    requires OffsetsOf(shapes, bytes, offsets)
    requires o == ReadAt(bytes, Pos(shapes, |shapes|)) <= |bytes|
    requires offsets != [] ==> offsets[|offsets| - 1].offset <= o
    ensures OffsetsOf(shapes + [Variable], bytes, offsets + [Offset(|shapes|, o)])
  {
    hide OffsetOf, ReadAt, Pos;
    var next := offsets + [Offset(|shapes|, o)];
    forall j | 0 <= j < |next| ensures OffsetOf(shapes + [Variable], bytes, next[j]) {
      if j < |offsets| {
        OffsetOfExtend(shapes, bytes, offsets[j], Variable);
      } else {
        NewOffset(shapes, bytes, o);
      }
    }
    forall j, l | 0 <= j && l == j + 1 && l < |next| ensures Successive(shapes + [Variable], next[j], next[l]) {
      if l < |offsets| {
        assert Successive(shapes, offsets[j], offsets[l]);
        PositionBound(shapes, bytes, offsets, l);
      } else {
        PositionBound(shapes, bytes, offsets, j);
      }
    }
    if offsets != [] {
      PositionBound(shapes, bytes, offsets, 0);
    }
  }

  lemma NewOffset(shapes: seq<Shape>, bytes: seq<Byte>, o: nat)
    requires o == ReadAt(bytes, Pos(shapes, |shapes|)) <= |bytes|
    ensures OffsetOf(shapes + [Variable], bytes, Offset(|shapes|, o))
  {
    hide ReadAt, Pos;
    PosPrefix(shapes, shapes + [Variable], |shapes|);
  }

  lemma PositionBound(shapes: seq<Shape>, bytes: seq<Byte>, offsets: seq<Offset>, j: nat)
    requires OffsetsOf(shapes, bytes, offsets) && j < |offsets|
    ensures offsets[j].position < |shapes|
  {
    assert OffsetOf(shapes, bytes, offsets[j]);
  }

  lemma FixedItemExtend(shapes: seq<Shape>, bytes: seq<Byte>, s: Shape, item: seq<Byte>, k: nat)
    requires k < |shapes| && FixedItem(shapes, bytes, item, k)
    ensures FixedItem(shapes + [s], bytes, item, k)
  {
    PosPrefix(shapes, shapes + [s], k);
    PosPrefix(shapes, shapes + [s], k + 1);
  }

  /** Every variable item has its offset recorded. */
  lemma FindOffset(shapes: seq<Shape>, bytes: seq<Byte>, offsets: seq<Offset>, k: nat) returns (j: nat)
    requires OffsetsOf(shapes, bytes, offsets) && k < |shapes| && shapes[k].Variable?
    ensures j < |offsets| && offsets[j].position == k
  {
    hide OffsetOf;
    j := 0;
    while j < |offsets| && offsets[j].position != k
      invariant j <= |offsets|
      invariant j < |offsets| ==> offsets[j].position <= k
      invariant j == |offsets| ==> offsets != [] && offsets[j - 1].position < k
    {
      var l := j + 1;
      j := l;
    }
  }

  /** The slice that the j-th recorded offset stands for. */
  function SliceOf(bytes: seq<Byte>, offsets: seq<Offset>, j: nat): seq<Byte>
    requires j < |offsets| && offsets[j].offset <= |bytes|
    requires j + 1 < |offsets| ==> offsets[j].offset <= offsets[j + 1].offset <= |bytes|
  {
    if j + 1 < |offsets| then bytes[offsets[j].offset..offsets[j + 1].offset] else bytes[offsets[j].offset..]
  }

  lemma SliceIsItem(shapes: seq<Shape>, bytes: seq<Byte>, offsets: seq<Offset>, j: nat)
    requires OffsetsOf(shapes, bytes, offsets) && j < |offsets|
    ensures OffsetOf(shapes, bytes, offsets[j])
    ensures j + 1 < |offsets| ==>
      offsets[j].position < offsets[j + 1].position && offsets[j].offset <= offsets[j + 1].offset <= |bytes|
    ensures ItemAt(shapes, bytes, SliceOf(bytes, offsets, j), offsets[j].position)
  {
    hide EncodeLength, DecodeOffset;
    assert OffsetOf(shapes, bytes, offsets[j]);
    var l := j + 1;
    if l < |offsets| {
      assert OffsetOf(shapes, bytes, offsets[l]);
      SkipFixed(shapes, bytes, offsets[j].position + 1, offsets[l].position);
    } else {
      SkipFixed(shapes, bytes, offsets[j].position + 1, |shapes|);
    }
  }

  lemma FirstOffset(shapes: seq<Shape>, bytes: seq<Byte>, offsets: seq<Offset>)
    requires OffsetsOf(shapes, bytes, offsets)
    ensures NextOffset(shapes, bytes, 0) == if offsets == [] then |bytes| else offsets[0].offset
  {
    hide EncodeLength, DecodeOffset;
    if offsets == [] {
      SkipFixed(shapes, bytes, 0, |shapes|);
    } else {
      assert OffsetOf(shapes, bytes, offsets[0]);
      SkipFixed(shapes, bytes, 0, offsets[0].position);
    }
  }

  datatype DecodeError =
    | InvalidByteLength(len: nat, expected: nat)
    | InvalidLengthPrefix(len: nat, expected: nat)
    | OffsetIntoFixedPortion(offset: nat)
    | OffsetSkipsVariableBytes(offset: nat)
    | OffsetOutOfBounds(offset: nat)
    | OffsetsAreDecreasing(offset: nat)

  /** The checks on one offset; the first failing one decides the error. */
  function SanitizeOffset(offset: nat, previous: Option<nat>, numBytes: nat, numFixed: Option<nat>): (r: Option<DecodeError>)
    ensures r.None? <==>
      && offset <= numBytes
      && (previous.Some? ==> previous.value <= offset)
      && (numFixed.Some? ==> if previous.None? then offset == numFixed.value else numFixed.value <= offset)
    ensures r.Some? ==> r.value in {OffsetIntoFixedPortion(offset), OffsetSkipsVariableBytes(offset),
                                    OffsetOutOfBounds(offset), OffsetsAreDecreasing(offset)}
    ensures r == Some(OffsetIntoFixedPortion(offset)) <==> numFixed.Some? && offset < numFixed.value
    ensures r == Some(OffsetSkipsVariableBytes(offset)) <==> numFixed.Some? && previous.None? && offset > numFixed.value
    ensures r == Some(OffsetsAreDecreasing(offset)) <==>
      offset <= numBytes && previous.Some? && previous.value > offset && (numFixed.Some? ==> numFixed.value <= offset)
  {
    if numFixed.Some? && offset < numFixed.value then Some(OffsetIntoFixedPortion(offset))
    else if previous.None? && numFixed.Some? && offset != numFixed.value then Some(OffsetSkipsVariableBytes(offset))
    else if offset > numBytes then Some(OffsetOutOfBounds(offset))
    else if previous.Some? && previous.value > offset then Some(OffsetsAreDecreasing(offset))
    else None
  }

  class SszDecoderBuilder {
    const bytes: seq<Byte>
    var items: seq<seq<Byte>>
    var offsets: seq<Offset>
    var itemsIndex: nat
    ghost var shapes: seq<Shape>

    /** In particular itemsIndex stays within the bytes, so that the slice from it is defined. */
    ghost predicate Valid()
      reads this
    {
      && itemsIndex == Pos(shapes, |shapes|) <= |bytes|
      && |items| == |shapes|
      && OffsetsOf(shapes, bytes, offsets)
      && forall k :: 0 <= k < |shapes| ==> FixedItem(shapes, bytes, items[k], k)
    }

    constructor (input: seq<Byte>)
      ensures Valid() && bytes == input && shapes == []
    {
      bytes := input;
      items, offsets, itemsIndex := [], [], 0;
      shapes := [];
    }

    /** Either the item is accepted, or no container starting with these shapes decodes. */
    method RegisterType(shape: Shape) returns (error: Option<DecodeError>)
      requires Valid()
      modifies this
      ensures shapes == old(shapes) + [shape]
      ensures error.None? ==> Valid()
      ensures error.Some? ==> Hopeless(shapes, bytes)
      ensures var p := Pos(old(shapes), |old(shapes)|);
        if shape.Fixed? then
          error == if p + shape.len > |bytes| then Some(InvalidByteLength(|bytes|, p + shape.len)) else None
        else if p + 4 > |bytes| then error == Some(InvalidLengthPrefix(|bytes| - p, 4))
        else
          var offset := DecodeOffset(bytes[p..p + 4]);
          error == if offset > |bytes| then Some(OffsetOutOfBounds(offset))
                   else if old(offsets) != [] && old(offsets)[|old(offsets)| - 1].offset > offset then Some(OffsetsAreDecreasing(offset))
                   else None
    {
      hide EncodeLength, DecodeOffset, OffsetsOf, ItemAt, NextOffset, Decodes, Hopeless;
      ghost var before := shapes;
      var start := itemsIndex;
      shapes := shapes + [shape];
      PosPrefix(before, shapes, |before|);
      if shape.Fixed? {
        itemsIndex := itemsIndex + shape.len;
        if itemsIndex > |bytes| {
          TooShort(shapes, bytes);
          return Some(InvalidByteLength(|bytes|, itemsIndex));
        }
        OffsetsKeep(before, bytes, offsets, shape);
        NewFixed(before, bytes, shape);
        items := items + [bytes[start..itemsIndex]];
      } else {
        if start + 4 > |bytes| {
          TooShort(shapes, bytes);
          return Some(InvalidLengthPrefix(|bytes| - start, 4));
        }
        var offset := DecodeOffset(bytes[start..start + 4]);
        var previous := if offsets == [] then None else Some(offsets[|offsets| - 1].offset);
        error := SanitizeOffset(offset, previous, |bytes|, None);
        if error.Some? {
          BadOffset(before, bytes, offsets);
          return;
        }
        OffsetsExtend(before, bytes, offsets, offset);
        offsets := offsets + [Offset(|items|, offset)];
        items := items + [[]];
        itemsIndex := itemsIndex + 4;
      }
      forall k | 0 <= k < |before| ensures FixedItem(shapes, bytes, items[k], k) {
        assert FixedItem(before, bytes, items[k], k);
        FixedItemExtend(before, bytes, shape, items[k], k);
      }
      error := None;
    }

    /** The remaining slots are filled in; an error means that the bytes do not decode. */
    method Build() returns (error: Option<DecodeError>, decoded: seq<seq<Byte>>)
      requires Valid()
      modifies this
      ensures shapes == old(shapes)
      ensures error.None? ==> Decodes(shapes, bytes, decoded)
      ensures error.Some? ==> forall other :: !Decodes(shapes, bytes, other)
      ensures var (first, end) := (NextOffset(shapes, bytes, 0), Pos(shapes, |shapes|));
        error == if first == end then None
                 else if old(offsets) == [] then Some(InvalidByteLength(|bytes|, end))
                 else if first < end then Some(OffsetIntoFixedPortion(first))
                 else Some(OffsetSkipsVariableBytes(first))
    {
      hide EncodeLength, DecodeOffset, OffsetsOf, ItemAt, NextOffset, AllFixed, Pos;
      FirstOffset(shapes, bytes, offsets);
      if offsets == [] {
        if itemsIndex != |bytes| { return Some(InvalidByteLength(|bytes|, itemsIndex)), []; }
      } else {
        var first := offsets[0].offset;
        if first < itemsIndex { return Some(OffsetIntoFixedPortion(first)), []; }
        if first > itemsIndex { return Some(OffsetSkipsVariableBytes(first)), []; }
      }
      var j := 0;
      ghost var all := shapes;
      while j < |offsets|
        invariant shapes == all && j <= |offsets| && |items| == |shapes|
        invariant itemsIndex == Pos(shapes, |shapes|) && offsets == old(offsets)
        invariant forall k :: 0 <= k < |shapes| ==> FixedItem(shapes, bytes, items[k], k)
        invariant forall l :: 0 <= l < j ==> offsets[l].position < |shapes|
        invariant forall l :: 0 <= l < j && j < |offsets| ==> offsets[l].position < offsets[j].position
        invariant forall l :: 0 <= l < j ==> ItemAt(shapes, bytes, items[offsets[l].position], offsets[l].position)
      {
        SliceIsItem(shapes, bytes, offsets, j);
        items := items[offsets[j].position := SliceOf(bytes, offsets, j)];
        j := j + 1;
      }
      forall k | 0 <= k < |shapes| ensures ItemAt(shapes, bytes, items[k], k) {
        assert FixedItem(shapes, bytes, items[k], k);
        if shapes[k].Variable? {
          var l := FindOffset(shapes, bytes, offsets, k);
        }
      }
      return None, items;
    }
  }

  lemma NewFixed(before: seq<Shape>, bytes: seq<Byte>, shape: Shape)
    requires shape.Fixed? && Pos(before, |before|) + shape.len <= |bytes|
    ensures var p := Pos(before, |before|);
      FixedItem(before + [shape], bytes, bytes[p..p + shape.len], |before|)
  {
    PosPrefix(before, before + [shape], |before|);
  }

  /** Decoding a container: the shapes are registered in order and the builder is finished. */
  method DecodeContainer(shapes: seq<Shape>, bytes: seq<Byte>) returns (r: Result<seq<seq<Byte>>>)
    ensures r.Ok? ==> EncodingOf(shapes, bytes, r.value)
    ensures r.Err? ==> forall items :: !EncodingOf(shapes, bytes, items)
  {
    hide Decodes, EncodingOf;
    var b := new SszDecoderBuilder(bytes);
    var k := 0;
    while k < |shapes|
      invariant 0 <= k <= |shapes| && b.shapes == shapes[..k] && b.Valid() && fresh(b)
    {
      var e := b.RegisterType(shapes[k]);
      k := k + 1;
      if e.Some? {
        assert b.shapes <= shapes;
        forall items ensures !EncodingOf(shapes, bytes, items) {
          DecodesExactly(shapes, bytes, items);
        }
        return Err;
      }
    }
    assert b.shapes == shapes;
    var error, decoded := b.Build();
    r := if error.None? then Ok(decoded) else Err;
    forall items ensures Decodes(shapes, bytes, items) <==> EncodingOf(shapes, bytes, items) {
      DecodesExactly(shapes, bytes, items);
    }
  }
}
