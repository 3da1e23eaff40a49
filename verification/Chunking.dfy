/** Chunk bitmaps and chunk geometry: the helpers at the end of `crates/ceky-protocol/src/transfer.rs`
    and the slice arithmetic of `crates/ceky-transfer/src/manager.rs`. */
module Chunking {
  import opened Bits
  import opened Wire

  // ---------- Bitmaps: a set bit means "missing" ----------

  function BitmapLen(chunks: nat): (n: nat)
    ensures chunks <= 8 * n < chunks + 8
  {
    (chunks + 7) / 8
  }

  /** `bitmap_is_missing`: an index past the end of the bitmap is not missing. */
  predicate IsMissing(bitmap: Bytes, index: nat)
  {
    index / 8 < |bitmap| && And(bitmap[index / 8], Pow2(index % 8)) != 0
  }

  /** `bitmap_set_missing`: an index past the end changes nothing. */
  function SetMissing(bitmap: Bytes, index: nat, missing: bool): (r: Bytes)
    ensures |r| == |bitmap|
  {
    if index / 8 >= |bitmap| then bitmap
    else
      var mask := Pow2(index % 8);
      OneBitIsByte(index % 8);
      var was := bitmap[index / 8];
      Pow2Constants();
      OrBound(was, mask, 8);
      AndBound(was, 0xFF - mask, 8);
      bitmap[index / 8 := if missing then Or(was, mask) else And(was, 0xFF - mask)]
  }

  /** `!mask` on `u8` flips every bit. */
  lemma {:induction false} ComplementBit(x: nat, n: nat, i: nat)
    requires x < Pow2(n) && i < n
    ensures Bit(Pow2(n) - 1 - x, i) <==> !Bit(x, i)
    decreases n
  {
    var y := Pow2(n) - 1 - x;
    assert y / 2 == Pow2(n - 1) - 1 - x / 2 && y % 2 == 1 - x % 2;
    if i > 0 {
      ComplementBit(x / 2, n - 1, i - 1);
    }
  }

  /** Bit `bit` of a byte after bit `at` was set. */
  lemma ByteSetAt(was: Byte, at: nat, bit: nat)
    requires at < 8 && bit < 8
    ensures And(Or(was, Pow2(at)), Pow2(bit)) != 0 <==> bit == at || And(was, Pow2(bit)) != 0
  {
    BitOfPow2(at, bit);
    OrBit(was, Pow2(at), bit);
    MaskTestsBit(was, bit);
    MaskTestsBit(Or(was, Pow2(at)), bit);
  }

  /** Bit `bit` of a byte after bit `at` was cleared. */
  lemma ByteClearedAt(was: Byte, at: nat, bit: nat)
    requires at < 8 && bit < 8
    ensures Pow2(at) <= 0x80
    ensures And(And(was, 0xFF - Pow2(at)), Pow2(bit)) != 0 <==> bit != at && And(was, Pow2(bit)) != 0
  {
    OneBitIsByte(at);
    Pow2Constants();
    BitOfPow2(at, bit);
    ComplementBit(Pow2(at), 8, bit);
    AndBit(was, 0xFF - Pow2(at), bit);
    MaskTestsBit(was, bit);
    MaskTestsBit(And(was, 0xFF - Pow2(at)), bit);
  }

  /** Setting one chunk's bit is visible at that chunk and nowhere else. */
  lemma SetMissingAt(bitmap: Bytes, index: nat, missing: bool, other: nat)
    ensures IsMissing(SetMissing(bitmap, index, missing), other)
       <==> if other == index && index / 8 < |bitmap| then missing else IsMissing(bitmap, other)
  {
    if index / 8 < |bitmap| && other / 8 == index / 8 {
      ByteSetAt(bitmap[index / 8], index % 8, other % 8);
      ByteClearedAt(bitmap[index / 8], index % 8, other % 8);
      assert other == index <==> other % 8 == index % 8;
    }
  }

  /** `vec![0xff; bitmap_len(n)]`. */
  function AllMissing(chunks: nat): (bitmap: Bytes)
    ensures |bitmap| == BitmapLen(chunks)
  {
    seq(BitmapLen(chunks), _ => 0xFF)
  }

  lemma AllMissingIsMissing(chunks: nat, index: nat)
    requires index < chunks
    ensures IsMissing(AllMissing(chunks), index)
  {
    MaskTestsBit(0xFF, index % 8);
    Pow2Constants();
    ComplementBit(0, 8, index % 8);
    BitOfZero(index % 8);
  }

  /** The increasing list of missing indices in `[from, end)`. */
  function MissingFrom(bitmap: Bytes, from: nat, end: nat): (indices: seq<nat>)
    decreases end - from
  {
    if from >= end then []
    else if IsMissing(bitmap, from) then [from] + MissingFrom(bitmap, from + 1, end)
    else MissingFrom(bitmap, from + 1, end)
  }

  /** `MissingFrom` is what its name says: strictly increasing, and exactly the missing ones. */
  lemma {:induction false} MissingFromIsFilter(bitmap: Bytes, from: nat, end: nat)
    ensures Increasing(MissingFrom(bitmap, from, end))
    ensures forall x :: x in MissingFrom(bitmap, from, end) <==> from <= x < end && IsMissing(bitmap, x)
    decreases end - from
  {
    if from < end {
      MissingFromIsFilter(bitmap, from + 1, end);
      var m, rest := MissingFrom(bitmap, from, end), MissingFrom(bitmap, from + 1, end);
      if IsMissing(bitmap, from) {
        assert m == [from] + rest;
        forall i, j | 0 <= i < j < |m| ensures m[i] < m[j] {
          assert m[j] == rest[j - 1] && rest[j - 1] in rest;
        }
      }
    }
  }

  ghost predicate Increasing(s: seq<nat>)
  {
    forall i, j :: 0 <= i < j < |s| ==> s[i] < s[j]
  }

  /** How many indices below `chunks` are no longer missing. */
  function Cleared(bitmap: Bytes, chunks: nat): (n: nat)
    ensures n <= chunks
  {
    if chunks == 0 then 0 else Cleared(bitmap, chunks - 1) + (if IsMissing(bitmap, chunks - 1) then 0 else 1)
  }

  lemma {:induction false} ClearedAllMissing(bitmap: Bytes, chunks: nat)
    requires forall i: nat :: i < chunks ==> IsMissing(bitmap, i)
    ensures Cleared(bitmap, chunks) == 0
  {
    if chunks > 0 {
      ClearedAllMissing(bitmap, chunks - 1);
    }
  }

  lemma {:induction false} ClearedAll(bitmap: Bytes, chunks: nat)
    ensures Cleared(bitmap, chunks) == chunks <==> forall i: nat :: i < chunks ==> !IsMissing(bitmap, i)
  {
    if chunks > 0 {
      ClearedAll(bitmap, chunks - 1);
    }
  }

  lemma {:induction false} ClearedPrefix(bitmap: Bytes, chunks: nat, n: nat)
    requires n <= chunks
    requires forall i: nat :: i < chunks ==> (IsMissing(bitmap, i) <==> i >= n)
    ensures Cleared(bitmap, chunks) == n
  {
    if chunks > n {
      ClearedPrefix(bitmap, chunks - 1, n);
    } else {
      ClearedAll(bitmap, chunks);
    }
  }

  /** Clearing one bit raises the count by one, unless it was clear already. */
  lemma {:induction false} ClearedStep(bitmap: Bytes, index: nat, chunks: nat)
    requires index / 8 < |bitmap|
    ensures var after := Cleared(SetMissing(bitmap, index, false), chunks);
            after == Cleared(bitmap, chunks) + (if index < chunks && IsMissing(bitmap, index) then 1 else 0)
    decreases chunks
  {
    if chunks > 0 {
      SetMissingAt(bitmap, index, false, chunks - 1);
      ClearedStep(bitmap, index, chunks - 1);
    }
  }

  // ---------- Geometry ----------

  /** `compute_total_chunks`, with its truncation to `u32`. */
  function TotalChunks(fileSize: nat, chunkSize: nat): (n: U32)
  {
    if fileSize == 0 || chunkSize == 0 then 0 else ((fileSize - 1) / chunkSize + 1) % U32_SIZE
  }

  /** `chunk_index * chunk_size` in `u32`: it wraps. */
  function Offset(index: nat, chunkSize: nat): (start: U32)
  {
    (index * chunkSize) % U32_SIZE
  }

  /** The bytes `pump_send` puts into chunk `index`. */
  function Slice(file: Bytes, chunkSize: nat, index: nat): (data: Bytes)
  {
    var start := Offset(index, chunkSize);
    if start > |file| then []
    else file[start..if start + chunkSize < |file| then start + chunkSize else |file|]
  }

  /** Neither the number of chunks nor any offset overflows 32 bits. */
  ghost predicate Fits(fileSize: nat, chunkSize: nat)
  {
    && fileSize > 0 && chunkSize > 0
    && (fileSize - 1) / chunkSize + 1 < U32_SIZE
    && ((fileSize - 1) / chunkSize) * chunkSize < U32_SIZE
  }

  lemma MulMonotone(a: nat, b: nat, c: nat)
    requires a <= b
    ensures a * c <= b * c
  {
    assert (b - a) * c >= 0;
  }

  lemma DivMonotone(a: nat, b: nat, c: nat)
    requires a <= b && c > 0
    ensures a / c <= b / c
  {
    if a / c > b / c {
      MulMonotone(b / c + 1, a / c, c);
    }
  }

  /** Within the bound, chunk `index` starts at `index * chunkSize`, inside the file. */
  lemma OffsetExact(fileSize: nat, chunkSize: nat, index: nat)
    requires Fits(fileSize, chunkSize) && index < TotalChunks(fileSize, chunkSize)
    ensures chunkSize > 0
    ensures Offset(index, chunkSize) == index * chunkSize < fileSize
  {
    MulMonotone(index, (fileSize - 1) / chunkSize, chunkSize);
  }

  lemma TotalPositive(fileSize: nat, chunkSize: nat)
    requires Fits(fileSize, chunkSize)
    ensures TotalChunks(fileSize, chunkSize) > 0
  {
  }

  /** The chunk a byte position lies in. */
  function ChunkOf(k: nat, chunkSize: nat): (index: nat)
    requires chunkSize > 0
  {
    k / chunkSize
  }

  /** Every byte of the file lies in exactly the chunk its position names. */
  lemma ByteInChunk(fileSize: nat, chunkSize: nat, k: nat)
    requires Fits(fileSize, chunkSize) && k < fileSize
    ensures chunkSize > 0
    ensures ChunkOf(k, chunkSize) < TotalChunks(fileSize, chunkSize)
    ensures ChunkOf(k, chunkSize) * chunkSize <= k < ChunkOf(k, chunkSize) * chunkSize + chunkSize
  {
    DivMonotone(k, fileSize - 1, chunkSize);
  }

  /** Chunk `index` holds exactly the bytes whose position names it, at their own offsets. */
  lemma SliceBytes(file: Bytes, chunkSize: nat, index: nat, k: nat)
    requires Fits(|file|, chunkSize) && index < TotalChunks(|file|, chunkSize) && k < |file|
    ensures var start, data := Offset(index, chunkSize), Slice(file, chunkSize, index);
            && start + |data| <= |file|
            && (start <= k < start + |data| <==> ChunkOf(k, chunkSize) == index)
            && (start <= k < start + |data| ==> data[k - start] == file[k])
  {
    OffsetExact(|file|, chunkSize, index);
    ByteInChunk(|file|, chunkSize, k);
    hide Offset, ChunkOf, TotalChunks, Fits;
    BlockIff(k, ChunkOf(k, chunkSize), index, chunkSize);
  }

  lemma BlockIff(k: nat, q: nat, i: nat, c: nat)
    requires q * c <= k < q * c + c
    ensures i * c <= k < i * c + c <==> q == i
  {
    if q < i {
      MulMonotone(q + 1, i, c);
    } else if q > i {
      MulMonotone(i + 1, q, c);
    }
  }

  /** Both 32-bit computations, the count and every offset, give the true value exactly within the bound. */
  lemma OffsetsExactIff(fileSize: nat, chunkSize: nat)
    requires fileSize > 0 && chunkSize > 0
    ensures (&& TotalChunks(fileSize, chunkSize) == (fileSize - 1) / chunkSize + 1
             && forall i: nat :: i < TotalChunks(fileSize, chunkSize) ==> Offset(i, chunkSize) == i * chunkSize)
       <==> Fits(fileSize, chunkSize)
  {
    var last := (fileSize - 1) / chunkSize;
    if Fits(fileSize, chunkSize) {
      forall i: nat | i < TotalChunks(fileSize, chunkSize) ensures Offset(i, chunkSize) == i * chunkSize {
        OffsetExact(fileSize, chunkSize, i);
      }
    } else if last + 1 < U32_SIZE {
      assert Offset(last, chunkSize) < U32_SIZE <= last * chunkSize;
    }
  }

  /** The two ways out of the bound: the last offset of a file of 2^32 + 1 bytes in 64 KiB chunks wraps to 0, and
      2^32 one-byte chunks are counted as none. */
  lemma BoundExamples()
    ensures TotalChunks(0x1_0000_0001, 0x1_0000) == 0x1_0001 && Offset(0x1_0000, 0x1_0000) == 0
    ensures TotalChunks(0x1_0000_0000, 1) == 0
  {
  }

  // ---------- What a receiver can put together ----------

  /** The first `n` slices, one after the other. */
  function JoinedSlices(file: Bytes, chunkSize: nat, n: nat): (s: Bytes)
  {
    if n == 0 then [] else JoinedSlices(file, chunkSize, n - 1) + Slice(file, chunkSize, n - 1)
  }

  /** The slices of a transfer make up the file, for every file of this length. */
  ghost predicate Rejoins(fileSize: nat, chunkSize: nat)
  {
    forall file: Bytes :: |file| == fileSize ==>
      JoinedSlices(file, chunkSize, TotalChunks(fileSize, chunkSize)) == file
  }

  lemma {:induction false} JoinedPrefix(file: Bytes, chunkSize: nat, n: nat)
    requires Fits(|file|, chunkSize) && n <= TotalChunks(|file|, chunkSize)
    ensures JoinedSlices(file, chunkSize, n) == file[..if n * chunkSize < |file| then n * chunkSize else |file|]
  {
    if n > 0 {
      JoinedPrefix(file, chunkSize, n - 1);
      OffsetExact(|file|, chunkSize, n - 1);
      hide Fits, TotalChunks, Offset;
      assert n * chunkSize == (n - 1) * chunkSize + chunkSize;
    }
  }

  /** Slices before the end are full, wherever their offsets wrap to. */
  lemma {:induction false} JoinedLength(file: Bytes, chunkSize: nat, n: nat)
    requires n * chunkSize <= |file|
    ensures |JoinedSlices(file, chunkSize, n)| == n * chunkSize
  {
    if n > 0 {
      assert n * chunkSize == (n - 1) * chunkSize + chunkSize;
      JoinedLength(file, chunkSize, n - 1);
      FullSlice(file, chunkSize, n - 1);
    }
  }

  lemma FullSlice(file: Bytes, chunkSize: nat, i: nat)
    requires i * chunkSize + chunkSize <= |file|
    ensures |Slice(file, chunkSize, i)| == chunkSize
  {
    assert Offset(i, chunkSize) <= i * chunkSize;
  }

  lemma LastChunk(fileSize: nat, chunkSize: nat)
    requires fileSize > 0 && chunkSize > 0
    ensures var last := (fileSize - 1) / chunkSize; last * chunkSize < fileSize <= last * chunkSize + chunkSize
  {
  }

  /** The slices make up every file of a length if and only if count and offsets fit in 32 bits. */
  lemma RejoinsIff(fileSize: nat, chunkSize: nat)
    requires fileSize > 0 && chunkSize > 0
    ensures Rejoins(fileSize, chunkSize) <==> Fits(fileSize, chunkSize)
  {
    hide JoinedSlices, Slice, Offset;
    var last := (fileSize - 1) / chunkSize;
    LastChunk(fileSize, chunkSize);
    if Fits(fileSize, chunkSize) {
      forall file: Bytes | |file| == fileSize
        ensures JoinedSlices(file, chunkSize, TotalChunks(fileSize, chunkSize)) == file
      {
        JoinedPrefix(file, chunkSize, last + 1);
        assert (last + 1) * chunkSize == last * chunkSize + chunkSize;
        assert file[..|file|] == file;
      }
    } else if last + 1 < U32_SIZE {
      WrappedOffsetSpoils(fileSize, chunkSize);
    } else {
      LostCountSpoils(fileSize, chunkSize);
    }
  }

  /** A file that is zero except where its last chunk begins, which is sent with an earlier byte instead. */
  lemma WrappedOffsetSpoils(fileSize: nat, chunkSize: nat)
    requires fileSize > 0 && chunkSize > 0 && (fileSize - 1) / chunkSize + 1 < U32_SIZE
    requires ((fileSize - 1) / chunkSize) * chunkSize >= U32_SIZE
    ensures !Rejoins(fileSize, chunkSize)
  {
    hide JoinedSlices, Slice, Offset, TotalChunks;
    var last := (fileSize - 1) / chunkSize;
    var place := last * chunkSize;
    LastChunk(fileSize, chunkSize);
    CountExact(fileSize, chunkSize);
    var file: Bytes := seq(fileSize, k => if k == place then 1 else 0);
    LastByte(file, chunkSize, last);
    assert file[place] == 1 && file[Offset(last, chunkSize)] == 0;
  }

  lemma CountExact(fileSize: nat, chunkSize: nat)
    requires fileSize > 0 && chunkSize > 0 && (fileSize - 1) / chunkSize + 1 < U32_SIZE
    ensures TotalChunks(fileSize, chunkSize) == (fileSize - 1) / chunkSize + 1
  {
  }

  /** The slice after the full ones begins with the byte its offset names. */
  lemma LastByte(file: Bytes, chunkSize: nat, n: nat)
    requires chunkSize > 0 && n * chunkSize < |file|
    ensures Offset(n, chunkSize) <= n * chunkSize
    ensures var joined := JoinedSlices(file, chunkSize, n + 1);
            |joined| > n * chunkSize && joined[n * chunkSize] == file[Offset(n, chunkSize)]
  {
    JoinedLength(file, chunkSize, n);
    assert Offset(n, chunkSize) <= n * chunkSize;
    hide Offset;
    var data := Slice(file, chunkSize, n);
    assert |data| > 0 && data[0] == file[Offset(n, chunkSize)];
    assert JoinedSlices(file, chunkSize, n + 1) == JoinedSlices(file, chunkSize, n) + data;
  }

  /** With the count reduced modulo 2^32 the last chunk at least is never sent. */
  lemma LostCountSpoils(fileSize: nat, chunkSize: nat)
    requires fileSize > 0 && chunkSize > 0 && (fileSize - 1) / chunkSize + 1 >= U32_SIZE
    ensures !Rejoins(fileSize, chunkSize)
  {
    hide JoinedSlices;
    var last, total := (fileSize - 1) / chunkSize, TotalChunks(fileSize, chunkSize);
    LastChunk(fileSize, chunkSize);
    MulMonotone(total, last, chunkSize);
    var file: Bytes := seq(fileSize, _ => 0);
    JoinedLength(file, chunkSize, total);
  }
}
