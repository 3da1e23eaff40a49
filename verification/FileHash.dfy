/** The hash offered with a file: `crates/ceky-transfer/src/merkle.rs`.

  `calculate_file_hash` fills a buffer with as many `read` calls as it takes. The operating system may cut
  any read short or interrupt it; a schedule lists what it does to each call, and reads past the end of the
  schedule are served in full.
 */
module FileHash {
  import opened Bits
  import opened Wire
  import opened Wrappers
  import opened Chunking

  type HashFn = Bytes -> Bytes

  datatype Event = Short(limit: nat) | Interrupted | Fault

  datatype IoError = IoError

  /** Bytes served by one successful read: at least one unless at the end of the file. */
  function Served(event: Event, want: nat, left: nat): (n: nat)
    requires want > 0
    ensures n <= want && n <= left && (n == 0 <==> left == 0)
  {
    var most := if want < left then want else left;
    if event.Short? && 0 < event.limit < most then event.limit else most
  }

  /** The file cut into chunks from the front, independently of any offsets. */
  function Pieces(file: Bytes, chunkSize: nat): (s: seq<Bytes>)
    decreases |file|
  {
    if file == [] || chunkSize == 0 then []
    else if |file| <= chunkSize then [file]
    else [file[..chunkSize]] + Pieces(file[chunkSize..], chunkSize)
  }

  function Hashes(hash: HashFn, pieces: seq<Bytes>): (s: Bytes)
  {
    if pieces == [] then [] else hash(pieces[0]) + Hashes(hash, pieces[1..])
  }

  /** Hash of the concatenated chunk hashes. */
  function RootHash(hash: HashFn, file: Bytes, chunkSize: nat): (root: Bytes)
  {
    hash(Hashes(hash, Pieces(file, chunkSize)))
  }

  lemma NoPieces(file: Bytes, chunkSize: nat)
    requires file == [] || chunkSize == 0
    ensures Pieces(file, chunkSize) == []
  {
  }

  lemma Reassociate<T>(a: seq<T>, b: seq<T>, c: seq<T>)
    ensures a + (b + c) == a + b + c
  {
  }

  lemma NoHashes(hash: HashFn)
    ensures Hashes(hash, []) == []
  {
  }

  lemma {:induction false} HashesSnoc(hash: HashFn, pieces: seq<Bytes>, last: Bytes)
    ensures Hashes(hash, pieces + [last]) == Hashes(hash, pieces) + hash(last)
  {
    if pieces == [] {
      assert [last][1..] == [];
      assert pieces + [last] == [last];
    } else {
      HashesSnoc(hash, pieces[1..], last);
      assert (pieces + [last])[1..] == pieces[1..] + [last];
    }
  }

  /** Chunk lengths are as the sender's: all full but the last, which is not empty. */
  lemma {:induction false} PiecesCut(file: Bytes, chunkSize: nat, done: nat, n: nat)
    requires 0 < chunkSize && done + n <= |file| && 0 < n
    requires n == chunkSize || done + n == |file|
    requires n <= chunkSize
    ensures Pieces(file[done..], chunkSize) == [file[done..done + n]] + Pieces(file[done + n..], chunkSize)
  {
    var rest := file[done..];
    if |rest| <= chunkSize {
      assert rest == file[done..done + n];
    } else {
      assert rest[..chunkSize] == file[done..done + n];
      assert rest[chunkSize..] == file[done + n..];
    }
  }

  /** The inner loop: read until the buffer is full or the file ends. */
  method FillBuffer(file: Bytes, start: nat, chunkSize: nat, schedule: seq<Event>, from: nat)
    returns (buffer: Bytes, at: nat, failed: bool)
    requires start <= |file| && from <= |schedule|
    ensures from <= at <= |schedule|
    ensures start + |buffer| <= |file| && buffer == file[start..start + |buffer|] && |buffer| <= chunkSize
    ensures failed ==> Fault in schedule
    ensures !failed ==> |buffer| == chunkSize || start + |buffer| == |file|
  {
    buffer, at, failed := [], from, false;
    while |buffer| < chunkSize
      invariant start + |buffer| <= |file| && |buffer| <= chunkSize
      invariant buffer == file[start..start + |buffer|]
      invariant from <= at <= |schedule|
      decreases |schedule| - at, chunkSize - |buffer|
    {
      var event := if at < |schedule| then schedule[at] else Short(0);
      at := if at < |schedule| then at + 1 else at;
      match event
      case Interrupted =>
      case Fault =>
        failed := true;
        return;
      case Short(_) =>
        var pos := start + |buffer|;
        var n := Served(event, chunkSize - |buffer|, |file| - pos);
        if n == 0 {
          return;
        }
        buffer := buffer + file[pos..pos + n];
    }
  }

  /** `calculate_file_hash`: the result does not depend on how reads are cut short or interrupted; it
      fails only if some read fails. */
  method CalculateFileHash(hash: HashFn, file: Bytes, chunkSize: nat, schedule: seq<Event>)
    returns (r: Result<Bytes, IoError>)
    ensures r.Success? ==> r.value == RootHash(hash, file, chunkSize)
    ensures Fault !in schedule ==> r.Success?
  {
    hide Hashes, Pieces;
    var pos, at := 0, 0;
    var root: Bytes := [];
    ghost var pieces: seq<Bytes> := [];
    NoHashes(hash);
    assert file[pos..] == file;
    while true
      invariant pos <= |file| && at <= |schedule|
      invariant root == Hashes(hash, pieces)
      invariant Pieces(file, chunkSize) == pieces + Pieces(file[pos..], chunkSize)
      decreases |file| - pos
    {
      var buffer, next, failed := FillBuffer(file, pos, chunkSize, schedule, at);
      if failed {
        return Failure(IoError);
      }
      if buffer == [] {
        break;
      }
      PiecesCut(file, chunkSize, pos, |buffer|);
      HashesSnoc(hash, pieces, buffer);
      Reassociate(pieces, [buffer], Pieces(file[pos + |buffer|..], chunkSize));
      pieces := pieces + [buffer];
      root := root + hash(buffer);
      pos, at := pos + |buffer|, next;
    }
    NoPieces(file[pos..], chunkSize);
    assert pieces + [] == pieces;
    return Success(hash(root));
  }

  /** Bytes `[i * chunkSize, (i + 1) * chunkSize)` of the file. */
  function Piece(file: Bytes, chunkSize: nat, i: nat): (data: Bytes)
  {
    var start := i * chunkSize;
    if start > |file| then []
    else file[start..if start + chunkSize < |file| then start + chunkSize else |file|]
  }

  /** The number of pieces is `compute_total_chunks` within the 32-bit bound, and piece `i` is exactly the
      slice `pump_send` transmits as chunk `i`. */
  lemma PiecesAreSentSlices(file: Bytes, chunkSize: nat)
    requires Fits(|file|, chunkSize)
    ensures |Pieces(file, chunkSize)| == TotalChunks(|file|, chunkSize)
    ensures forall i :: 0 <= i < |Pieces(file, chunkSize)| ==> Pieces(file, chunkSize)[i] == Slice(file, chunkSize, i)
  {
    PiecesAt(file, chunkSize);
    CountIsTotal(|file|, chunkSize);
    hide Pieces, TotalChunks, Fits, Piece, Slice;
    var pieces := Pieces(file, chunkSize);
    forall i | 0 <= i < |pieces| ensures pieces[i] == Slice(file, chunkSize, i) {
      PieceIsSlice(file, chunkSize, i);
    }
  }

  lemma CountIsTotal(fileSize: nat, chunkSize: nat)
    requires Fits(fileSize, chunkSize)
    ensures fileSize > 0 && chunkSize > 0 && TotalChunks(fileSize, chunkSize) == (fileSize - 1) / chunkSize + 1
  {
  }

  lemma PieceIsSlice(file: Bytes, chunkSize: nat, i: nat)
    requires Fits(|file|, chunkSize) && i < TotalChunks(|file|, chunkSize)
    ensures Piece(file, chunkSize, i) == Slice(file, chunkSize, i)
  {
    OffsetExact(|file|, chunkSize, i);
    hide Offset, TotalChunks, Fits;
  }

  lemma {:induction false} PiecesAt(file: Bytes, chunkSize: nat)
    requires file != [] && chunkSize > 0
    ensures |Pieces(file, chunkSize)| == (|file| - 1) / chunkSize + 1
    ensures forall i :: 0 <= i < |Pieces(file, chunkSize)| ==> Pieces(file, chunkSize)[i] == Piece(file, chunkSize, i)
    decreases |file|
  {
    hide Piece;
    var pieces := Pieces(file, chunkSize);
    PieceFirst(file, chunkSize);
    if |file| > chunkSize {
      var rest := file[chunkSize..];
      PiecesAt(rest, chunkSize);
      DivStep(|file| - 1, chunkSize);
      forall i | 0 <= i < |pieces| ensures pieces[i] == Piece(file, chunkSize, i) {
        if i > 0 {
          assert pieces[i] == Pieces(rest, chunkSize)[i - 1];
          PieceShift(file, chunkSize, i);
        }
      }
    } else {
      ModUnique(|file| - 1, chunkSize, 0, |file| - 1);
    }
  }

  lemma PieceFirst(file: Bytes, chunkSize: nat)
    ensures Piece(file, chunkSize, 0) == if chunkSize < |file| then file[..chunkSize] else file
  {
  }

  lemma PieceShift(file: Bytes, chunkSize: nat, i: nat)
    requires 0 < i && chunkSize <= |file|
    ensures Piece(file[chunkSize..], chunkSize, i - 1) == Piece(file, chunkSize, i)
  {
    var start := (i - 1) * chunkSize;
    assert start + chunkSize == i * chunkSize;
    if start + chunkSize <= |file| {
      ShiftedSlice(file, chunkSize, start, if start + 2 * chunkSize < |file| then start + 2 * chunkSize else |file|);
    }
  }

  lemma ShiftedSlice(file: Bytes, shift: nat, start: nat, end: nat)
    requires start + shift <= end <= |file|
    ensures file[shift..][start..end - shift] == file[start + shift..end]
  {
  }

  lemma DivStep(a: nat, d: nat)
    requires 0 < d <= a
    ensures a / d == (a - d) / d + 1
  {
    var q := (a - d) / d;
    assert a == (q + 1) * d + (a - d) % d by {
      assert a - d == q * d + (a - d) % d;
      assert (q + 1) * d == q * d + d;
    }
    ModUnique(a, d, q + 1, (a - d) % d);
  }

  // ---------- The root hash stands for one file ----------

  ghost predicate Collides(hash: HashFn, x: Bytes, y: Bytes)
  {
    x != y && hash(x) == hash(y)
  }

  function Joined(pieces: seq<Bytes>): (file: Bytes)
  {
    if pieces == [] then [] else pieces[0] + Joined(pieces[1..])
  }

  lemma {:induction false} PiecesJoin(file: Bytes, chunkSize: nat)
    requires chunkSize > 0
    ensures Joined(Pieces(file, chunkSize)) == file
    decreases |file|
  {
    if |file| > chunkSize {
      PiecesJoin(file[chunkSize..], chunkSize);
      assert file == file[..chunkSize] + file[chunkSize..];
    } else if file != [] {
      assert Joined([file]) == file + Joined([]);
    }
  }

  lemma {:induction false} HashesBind(hash: HashFn, size: nat, p: seq<Bytes>, q: seq<Bytes>)
    returns (x: Bytes, y: Bytes)
    requires size > 0 && (forall x :: |hash(x)| == size)
    requires Hashes(hash, p) == Hashes(hash, q) && p != q
    ensures Collides(hash, x, y)
    decreases |p|
  {
    assert p != [] && q != [];
    x, y := p[0], q[0];
    assert Hashes(hash, p)[..size] == hash(x) && Hashes(hash, q)[..size] == hash(y);
    if x == y {
      assert Hashes(hash, p)[size..] == Hashes(hash, p[1..]) && Hashes(hash, q)[size..] == Hashes(hash, q[1..]);
      assert p == [x] + p[1..] && q == [y] + q[1..];
      x, y := HashesBind(hash, size, p[1..], q[1..]);
    }
  }

  /** Different files have different root hashes, whatever their lengths and chunk sizes, unless two inputs of the
      hash function collide; the collision is computed from the files. */
  lemma RootHashBinds(hash: HashFn, size: nat, a: Bytes, b: Bytes, sizeA: nat, sizeB: nat) returns (x: Bytes, y: Bytes)
    requires size > 0 && (forall x :: |hash(x)| == size) && sizeA > 0 && sizeB > 0
    requires RootHash(hash, a, sizeA) == RootHash(hash, b, sizeB) && a != b
    ensures Collides(hash, x, y)
  {
    hide Hashes, Pieces, Joined;
    PiecesJoin(a, sizeA);
    PiecesJoin(b, sizeB);
    x, y := Hashes(hash, Pieces(a, sizeA)), Hashes(hash, Pieces(b, sizeB));
    if x == y {
      x, y := HashesBind(hash, size, Pieces(a, sizeA), Pieces(b, sizeB));
    }
  }
}
