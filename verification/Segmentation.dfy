/** How a file is cut into chunks and segments, and how many of them its proofs range over. */
module Segmentation {
  import opened Bits
  import opened BitSmear
  import opened Rfc6962
  import opened Wrappers

  const CHUNK_SIZE := 256

  function BytesToChunks(size: nat): (r: nat)
    ensures 256 * r - 256 < size <= 256 * r
  {
    if size % CHUNK_SIZE == 0 then size / CHUNK_SIZE else size / CHUNK_SIZE + 1
  }

  /** Chunks are padded in steps of a sixteenth of the next power of two. */
  function PaddingStep(pow2: nat): (r: nat)
    ensures r >= 1
  {
    if pow2 < 16 then 1 else pow2 / 16
  }

  /** The padded number of chunks, and the power of two it was derived from. */
  function PaddedChunkSize(size: nat): (r: (nat, nat))
    requires size > 0
  {
    var chunks := BytesToChunks(size);
    var pow2 := NextPow2(chunks);
    if pow2 == chunks then (pow2, pow2)
    else
      var step := PaddingStep(pow2);
      (((chunks - 1) / step + 1) * step, pow2)
  }

  /** A power of two is a whole number of padding steps. */
  lemma Steps(n: nat)
    requires n >= 1
    ensures var p := NextPow2(n); p == PaddingStep(p) * (if p < 16 then p else 16)
  {
    if n > 1 {
      var k := SplitExponent(n);
      assert NextPow2(n) == Pow2(k + 1);
      StepsOf(k + 1);
    }
  }

  lemma StepsOf(e: nat)
    ensures var p := Pow2(e); p == PaddingStep(p) * (if p < 16 then p else 16)
  {
    hide Pow2;
    SmallPowers();
    Pow2Le(e, 3);
    if e >= 4 {
      Pow2Le(4, e);
      Pow2Add(e - 4, 4);
      DivUnique(Pow2(e), 16, Pow2(e - 4), 0);
    }
  }

  lemma SmallPowers()
    ensures Pow2(3) == 8 && Pow2(4) == 16
  {
  }

  lemma RoundUp(n: nat, step: nat)
    requires n >= 1 && step >= 1
    ensures n <= ((n - 1) / step + 1) * step < n + step
  {
    var (q, r) := ((n - 1) / step, (n - 1) % step);
    assert n - 1 == step * q + r;
    assert (q + 1) * step == step * q + step;
  }

  lemma RoundUpWithin(n: nat, step: nat, k: nat)
    requires 1 <= n <= step * k && step >= 1
    ensures ((n - 1) / step + 1) * step <= step * k
  {
    var q := (n - 1) / step;
    DivAtLeast(n - 1, step, k);
    assert k * step == step * k;
    MulLe(step, q + 1, k);
    assert (q + 1) * step == step * (q + 1);
  }

  /** The least multiple of the padding step that holds all chunks: less than an eighth is added. */
  lemma PaddedChunkBounds(size: nat)
    requires size > 0
    ensures var chunks := BytesToChunks(size); var (padded, pow2) := PaddedChunkSize(size);
      && pow2 == NextPow2(chunks) && chunks <= padded <= pow2
      && padded % PaddingStep(pow2) == 0 && padded < chunks + PaddingStep(pow2)
      && 8 * (padded - chunks) < chunks
  {
    var chunks := BytesToChunks(size);
    var (padded, pow2) := PaddedChunkSize(size);
    var step := PaddingStep(pow2);
    var k := if pow2 < 16 then pow2 else 16;
    Steps(chunks);
    if pow2 == chunks {
      DivUnique(pow2, step, k, 0);
    } else {
      RoundUp(chunks, step);
      RoundUpWithin(chunks, step, k);
      Multiple((chunks - 1) / step + 1, step);
    }
    hide NextPow2;
    LessThanEighth(chunks, padded, pow2, step, k);
  }

  lemma Multiple(k: nat, step: nat)
    requires step >= 1
    ensures k * step % step == 0
  {
    DivUnique(k * step, step, k, 0);
  }

  lemma LessThanEighth(chunks: nat, padded: nat, pow2: nat, step: nat, k: nat)
    requires pow2 / 2 < chunks <= padded < chunks + step && pow2 == step * k
    requires if pow2 < 16 then step == 1 else k == 16
    ensures 8 * (padded - chunks) < chunks
  {
    if pow2 >= 16 {
      assert pow2 == 16 * step;
    }
  }

  /** The number of segments, and the number of chunks in the last one. */
  function SegmentSize(chunks: nat, chunksPerSegment: nat): (nat, nat)
    requires chunksPerSegment > 0
  {
    if chunks % chunksPerSegment == 0 then (chunks / chunksPerSegment, chunksPerSegment)
    else (chunks / chunksPerSegment + 1, chunks % chunksPerSegment)
  }

  /** All segments but the last are full, and the last is not empty; this determines both numbers. */
  lemma SegmentSizeExactly(chunks: nat, c: nat, n: nat, last: nat)
    requires chunks > 0 && c > 0
    ensures SegmentSize(chunks, c) == (n, last) <==> n >= 1 && 1 <= last <= c && chunks == c * (n - 1) + last
  {
    var (q, r) := (chunks / c, chunks % c);
    assert chunks == c * q + r;
    if r == 0 {
      assert c * q == c * (q - 1) + c;
    }
    if n >= 1 && 1 <= last <= c && chunks == c * (n - 1) + last {
      if last == c {
        assert c * n == c * (n - 1) + c;
        DivUnique(chunks, c, n, 0);
      } else {
        DivUnique(chunks, c, n - 1, last);
      }
    }
  }

  /** More chunks need at least as many segments; the same number only with a last one as long. */
  lemma SegmentSizeMono(a: nat, b: nat, c: nat)
    requires 0 < a <= b && c > 0
    ensures SegmentSize(a, c).0 <= SegmentSize(b, c).0
    ensures SegmentSize(a, c).0 == SegmentSize(b, c).0 ==> SegmentSize(a, c).1 <= SegmentSize(b, c).1
  {
    var ((n, k), (m, l)) := (SegmentSize(a, c), SegmentSize(b, c));
    SegmentSizeExactly(a, c, n, k);
    SegmentSizeExactly(b, c, m, l);
    assert c * m == c * (m - 1) + c;
    if n > m {
      MulLe(c, m, n - 1);
    }
  }

  /** Segment `index` starts at `index * c` and goes on for `c` chunks, or to the end. */
  lemma SegmentAt(chunks: nat, c: nat, index: nat)
    requires chunks > 0 && c > 0
    ensures var (n, last) := SegmentSize(chunks, c);
      && (index < n <==> c * index < chunks)
      && (index < n ==> (if index == n - 1 then last else c) == if c * index + c <= chunks then c else chunks - c * index)
  {
    var (n, last) := SegmentSize(chunks, c);
    SegmentSizeExactly(chunks, c, n, last);
    assert c * n == c * (n - 1) + c;
    if index < n {
      MulLe(c, index, n - 1);
      if index < n - 1 {
        MulLe(c, index + 1, n - 1);
        assert c * (index + 1) == c * index + c;
      }
    } else {
      MulLe(c, n, index);
    }
  }

  // ---- Uploaded segments

  /** The number of segments of a file and the length in bytes of the last one. */
  method SplitFileIntoSegments(fileSize: nat, chunksPerSegment: nat) returns (r: Result<(nat, nat)>)
    requires chunksPerSegment > 0
    ensures r.Err? <==> fileSize == 0
    ensures r.Ok? ==> var (n, last) := SegmentSize(BytesToChunks(fileSize), chunksPerSegment); r.value == (n, CHUNK_SIZE * last)
  {
    if fileSize == 0 {
      return Err;
    }
    var segmentSize := chunksPerSegment * CHUNK_SIZE;
    var remaining := fileSize % segmentSize;
    var numSegments := fileSize / segmentSize;
    ghost var q := numSegments;
    assert fileSize == segmentSize * q + remaining;
    Regrouped(chunksPerSegment, q);
    if remaining == 0 {
      SplitExactly(fileSize, chunksPerSegment, q - 1, chunksPerSegment, segmentSize);
      return Ok((numSegments, segmentSize));
    }
    numSegments := numSegments + 1;
    var lastChunk := remaining % CHUNK_SIZE;
    var last := if lastChunk == 0 then remaining else remaining - lastChunk + CHUNK_SIZE;
    ghost var k := BytesToChunks(remaining);
    assert last == CHUNK_SIZE * k;
    assert k <= chunksPerSegment;
    SplitExactly(fileSize, chunksPerSegment, q, k, remaining);
    r := Ok((numSegments, last));
  }

  lemma Regrouped(c: nat, q: nat)
    ensures c * CHUNK_SIZE * q == CHUNK_SIZE * (c * q)
    ensures q > 0 ==> c * q == c * (q - 1) + c
  {
  }

  /** A file of some full segments and a rest that takes k chunks. */
  lemma SplitExactly(fileSize: nat, c: nat, full: nat, k: nat, rest: nat)
    requires c > 0 && 1 <= k <= c && CHUNK_SIZE * k - CHUNK_SIZE < rest <= CHUNK_SIZE * k
    requires fileSize == CHUNK_SIZE * (c * full) + rest
    ensures SegmentSize(BytesToChunks(fileSize), c) == (full + 1, k)
  {
    assert BytesToChunks(fileSize) == c * full + k;
    SegmentSizeExactly(c * full + k, c, full + 1, k);
  }

  /** The index is that of an uploaded segment and the data has its length. */
  method ValidateDataSizeAndIndex(index: nat, dataLen: nat, fileSize: nat, chunksPerSegment: nat) returns (r: Result<nat>)
    requires chunksPerSegment > 0
    ensures var (chunks, first) := (BytesToChunks(fileSize), chunksPerSegment * index);
      r.Ok? <==>
        && fileSize > 0 && first < chunks
        && dataLen == CHUNK_SIZE * if first + chunksPerSegment <= chunks then chunksPerSegment else chunks - first
    ensures r.Ok? <==> UploadSized(index, dataLen, fileSize, chunksPerSegment)
    ensures r.Ok? ==> r.value == SegmentSize(BytesToChunks(fileSize), chunksPerSegment).0
  {
    var split := SplitFileIntoSegments(fileSize, chunksPerSegment);
    if split.Err? {
      return Err;
    }
    SegmentAt(BytesToChunks(fileSize), chunksPerSegment, index);
    var (numSegments, lastSize) := split.value;
    if index >= numSegments {
      return Err;
    }
    var dataSize := if index == numSegments - 1 then lastSize else chunksPerSegment * CHUNK_SIZE;
    if dataLen != dataSize {
      return Err;
    }
    r := Ok(numSegments);
  }

  /** The data has the whole chunks that are left of the file from the segment on, up to a full segment. */
  ghost predicate UploadSized(index: nat, dataLen: nat, fileSize: nat, c: nat)
    requires c > 0
  {
    && fileSize > 0
    && var (n, last) := SegmentSize(BytesToChunks(fileSize), c);
    && index < n
    && dataLen == CHUNK_SIZE * (if index == n - 1 then last else c)
  }

  /** The number of zero chunks to add before the segment root is computed, or an error. */
  function ExtendChunks(expected: nat, dataLen: nat): (r: Result<nat>)
    ensures r.Err? <==> expected > dataLen && (expected - dataLen) % CHUNK_SIZE != 0
    ensures r.Ok? ==> if expected > dataLen then dataLen + CHUNK_SIZE * r.value == expected else r.value == 0
  {
    if expected > dataLen then
      if (expected - dataLen) % CHUNK_SIZE != 0 then Err else Ok((expected - dataLen) / CHUNK_SIZE)
    else Ok(0)
  }

  /** The number of segments in the proof, and the length the segment has there. */
  function ExpectedLength(index: nat, fileSize: nat, chunksPerSegment: nat): (nat, nat)
    requires chunksPerSegment > 0 && fileSize > 0
  {
    var (segments, last) := SegmentSize(PaddedChunkSize(fileSize).0, chunksPerSegment);
    (segments, if index == segments - 1 then last * CHUNK_SIZE else chunksPerSegment * CHUNK_SIZE)
  }

  /** The lengths of the first `k` segments together. */
  ghost function ExpectedSum(fileSize: nat, c: nat, k: nat): nat
    requires c > 0 && fileSize > 0
  {
    if k == 0 then 0 else ExpectedSum(fileSize, c, k - 1) + ExpectedLength(k - 1, fileSize, c).1
  }

  /** Every segment goes from its start to the next one's or to the end of the padded file, which all of them make up. */
  lemma {:induction false} ExpectedAddsUp(fileSize: nat, c: nat, k: nat)
    requires c > 0 && fileSize > 0 && k <= ExpectedLength(0, fileSize, c).0
    ensures var padded := PaddedChunkSize(fileSize).0;
      && ExpectedSum(fileSize, c, k) == CHUNK_SIZE * (if c * k <= padded then c * k else padded)
      && (k == ExpectedLength(0, fileSize, c).0 ==> ExpectedSum(fileSize, c, k) == CHUNK_SIZE * padded)
  {
    hide PaddedChunkSize, SegmentSize;
    var padded := PaddedChunkSize(fileSize).0;
    PaddedPositive(fileSize);
    SegmentAt(padded, c, k);
    if k > 0 {
      ExpectedAddsUp(fileSize, c, k - 1);
      SegmentAt(padded, c, k - 1);
      assert c * k == c * (k - 1) + c;
    }
  }

  lemma PaddedPositive(fileSize: nat)
    requires fileSize > 0
    ensures PaddedChunkSize(fileSize).0 > 0
  {
    PaddedChunkBounds(fileSize);
  }

  /**
   * A segment that passes the size check is never longer than its proof expects, and what is
   * missing is whole chunks: extending it cannot fail and gives exactly the expected length.
   */
  lemma ValidatedSegmentExtends(index: nat, dataLen: nat, fileSize: nat, c: nat)
    requires c > 0 && fileSize > 0 && UploadSized(index, dataLen, fileSize, c)
    ensures var (segments, expected) := ExpectedLength(index, fileSize, c);
      && SegmentSize(BytesToChunks(fileSize), c).0 <= segments && index < segments
      && dataLen <= expected && (expected - dataLen) % CHUNK_SIZE == 0
      && ExtendChunks(expected, dataLen).Ok?
      && dataLen + CHUNK_SIZE * ExtendChunks(expected, dataLen).value == expected
  {
    var chunks := BytesToChunks(fileSize);
    var padded := PaddedChunkSize(fileSize).0;
    PaddedChunkBounds(fileSize);
    SegmentSizeMono(chunks, padded, c);
    var ((n, k), (m, l)) := (SegmentSize(chunks, c), SegmentSize(padded, c));
    SegmentSizeExactly(chunks, c, n, k);
    SegmentSizeExactly(padded, c, m, l);
    var have := if index == n - 1 then k else c;
    var want := if index == m - 1 then l else c;
    assert ExpectedLength(index, fileSize, c) == (m, CHUNK_SIZE * want);
    hide SegmentSize, PaddedChunkSize, BytesToChunks, NextPow2, ExpectedLength;
    Extension(have, want);
  }

  lemma Extension(have: nat, want: nat)
    requires have <= want
    ensures (CHUNK_SIZE * want - CHUNK_SIZE * have) % CHUNK_SIZE == 0
    ensures ExtendChunks(CHUNK_SIZE * want, CHUNK_SIZE * have) == Ok(want - have)
  {
    DivUnique(CHUNK_SIZE * want - CHUNK_SIZE * have, CHUNK_SIZE, want - have, 0);
  }
}
