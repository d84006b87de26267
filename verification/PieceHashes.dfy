/** Hashing pieces: when a torrent is made (makemeta.c), and when its data is checked later, through the
    cache (inout.c).  SHA-1 is a parameter. */
module PieceHashes {
  import opened Base
  import opened UnitArithmetic
  import opened Geometry
  import opened InOut
  import opened Caches

  /** Piece i of a byte string: size bytes, or what is left of them at the end */
  function Chunk(s: seq<Byte>, size: nat, i: nat): seq<Byte> {
    if |s| <= Times(i, size) then []
    else if Times(i, size) + size <= |s| then s[Times(i, size)..Times(i, size) + size] else s[Times(i, size)..]
  }

  // ---------- making a torrent ----------

  /** What read(2) delivers of the n bytes asked for: possibly fewer, but some */
  method ReadSome(file: seq<Byte>, off: nat, n: nat) returns (got: seq<Byte>)
    requires off + n <= |file|
    ensures |got| <= n && (0 < n ==> 0 < |got|) && got == file[off..off + |got|]
  {
    var k :| 0 <= k <= n && (0 < n ==> 0 < k);
    got := file[off..off + k];
  }

  lemma {:induction false} FlatPrefix(fs: seq<seq<Byte>>, i: nat, n: nat)
    requires i <= n <= |fs|
    ensures Flat(fs, i) <= Flat(fs, n)
  {
    if i < n {
      FlatPrefix(fs, i, n - 1);
    }
  }

  /** Where the reader stands: off bytes into file fileIndex, at position at of all the bytes */
  ghost predicate ReaderAt(fs: seq<seq<Byte>>, fileIndex: nat, off: nat, at: nat) {
    && fileIndex <= |fs| && at == |Flat(fs, fileIndex)| + off
    && (off == 0 || (fileIndex < |fs| && off < |fs[fileIndex]|))
  }

  /** File i is opened if there are bytes in the file before it, or in it, or behind it. */
  ghost predicate IsOpened(fs: seq<seq<Byte>>, i: nat) {
    i < |fs| && |Flat(fs, if i == 0 then 0 else i - 1)| < |Flat(fs, |fs|)|
  }

  /** Every file that is opened can be opened. */
  ghost predicate CanOpen(fs: seq<seq<Byte>>, opens: nat -> bool) {
    forall i: nat :: IsOpened(fs, i) ==> opens(i)
  }

  /** All files up to the current one have been opened. */
  ghost predicate OpenedSoFar(fs: seq<seq<Byte>>, opens: nat -> bool, fileIndex: nat) {
    forall i: nat :: i <= fileIndex && i < |fs| ==> opens(i)
  }

  /** Where all bytes have been read, every file that is opened has been. */
  lemma AllOpened(fs: seq<seq<Byte>>, opens: nat -> bool, fileIndex: nat, off: nat)
    requires ReaderAt(fs, fileIndex, off, |Flat(fs, |fs|)|) && OpenedSoFar(fs, opens, fileIndex)
    ensures CanOpen(fs, opens)
  {
    forall i: nat | IsOpened(fs, i)
      ensures i <= fileIndex
    {
      if fileIndex < i {
        FlatPrefix(fs, fileIndex, i - 1);
        FlatPrefix(fs, fileIndex + 1, |fs|);
      }
    }
  }

  /** What can be read in the current file is the next stretch of all the bytes. */
  lemma NextBytes(fs: seq<seq<Byte>>, fileIndex: nat, off: nat, at: nat, k: nat)
    requires ReaderAt(fs, fileIndex, off, at) && fileIndex < |fs| && off + k <= |fs[fileIndex]|
    ensures at + k <= |Flat(fs, |fs|)|
    ensures Flat(fs, |fs|)[at..at + k] == fs[fileIndex][off..off + k]
  {
    FlatPrefix(fs, fileIndex + 1, |fs|);
    var all, head := Flat(fs, |fs|), Flat(fs, fileIndex + 1);
    assert all == head + all[|head|..];
    SliceLeft(head, all[|head|..], at, k);
    SliceRight(Flat(fs, fileIndex), fs[fileIndex], off, k);
  }

  lemma Adjoining(s: seq<Byte>, a: nat, b: nat, c: nat)
    requires a <= b <= c <= |s|
    ensures s[a..b] + s[b..c] == s[a..c]
  {
  }

  /** n pieces have been hashed and remain bytes are left. */
  ghost predicate HashedSoFar(total: nat, size: nat, n: nat, remain: nat)
    requires 0 < size
  {
    && remain <= total
    && if remain == 0 then n == CountOf(total, size) else n < CountOf(total, size) && total - remain == Times(n, size)
  }

  lemma OnePieceMore(total: nat, size: nat, n: nat, remain: nat)
    requires 0 < size && 0 < total && 0 < remain && HashedSoFar(total, size, n, remain)
    ensures HashedSoFar(total, size, n + 1, if size < remain then remain - size else 0)
  {
    PieceEnds(total, size, n);
  }

  lemma NothingHashed(total: nat, size: nat)
    requires 0 < size && 0 < total
    ensures HashedSoFar(total, size, 0, total)
  {
    LastUnit(total, size);
  }

  lemma NextChunk(all: seq<Byte>, size: nat, n: nat, remain: nat)
    requires 0 < size && 0 < remain <= |all| && |all| - remain == Times(n, size)
    ensures Chunk(all, size, n) == all[|all| - remain..|all| - remain + (if size < remain then size else remain)]
  {
  }

  /** The first n hashes are those of the first n pieces. */
  ghost predicate Hashed<D>(hashes: seq<D>, all: seq<Byte>, size: nat, sha: seq<Byte> -> D) {
    forall i :: 0 <= i < |hashes| ==> hashes[i] == sha(Chunk(all, size, i))
  }

  /** Reads one piece's worth of bytes, going on from file to file.  Opening a file can fail. */
  method ReadPiece(files: seq<seq<Byte>>, opens: nat -> bool, fileIndex: nat, off: nat, n: nat, ghost at: nat)
    returns (ok: bool, buf: seq<Byte>, nextIndex: nat, nextOff: nat)
    requires ReaderAt(files, fileIndex, off, at) && at + n <= |Flat(files, |files|)| && OpenedSoFar(files, opens, fileIndex)
    ensures ok ==> buf == Flat(files, |files|)[at..at + n] && ReaderAt(files, nextIndex, nextOff, at + n)
    ensures if ok then OpenedSoFar(files, opens, nextIndex) else !CanOpen(files, opens)
  {
    ghost var all := Flat(files, |files|);
    ok, buf, nextIndex, nextOff := true, [], fileIndex, off;
    var leftInPiece: nat := n;
    while leftInPiece > 0
      invariant leftInPiece <= n && buf == all[at..at + (n - leftInPiece)]
      invariant ReaderAt(files, nextIndex, nextOff, at + (n - leftInPiece)) && OpenedSoFar(files, opens, nextIndex)
      decreases leftInPiece, |files| - nextIndex
    {
      ghost var here := at + (n - leftInPiece);
      assert nextIndex < |files|;
      var leftInFile := |files[nextIndex]| - nextOff;
      var nThisPass := if leftInFile < leftInPiece then leftInFile else leftInPiece;
      var got := ReadSome(files[nextIndex], nextOff, nThisPass);
      NextBytes(files, nextIndex, nextOff, here, |got|);
      Adjoining(all, at, here, here + |got|);
      buf := buf + got;
      nextOff, leftInPiece := nextOff + |got|, leftInPiece - |got|;
      if nextOff == |files[nextIndex]| {
        nextIndex, nextOff := nextIndex + 1, 0;
        if nextIndex < |files| {
          ok := opens(nextIndex);
          if !ok {
            assert IsOpened(files, nextIndex);
            return;
          }
        }
      }
    }
  }

  method HashPiece<D(0)>(files: seq<seq<Byte>>, opens: nat -> bool, fileIndex: nat, off: nat, thisPieceSize: nat, sha: seq<Byte> -> D,
                      ghost pieceSize: nat, ghost n: nat, ghost totalRemain: nat)
    returns (ok: bool, hash: D, nextIndex: nat, nextOff: nat)
    requires 0 < pieceSize && 0 < totalRemain <= |Flat(files, |files|)|
    requires thisPieceSize == if pieceSize < totalRemain then pieceSize else totalRemain
    requires |Flat(files, |files|)| - totalRemain == Times(n, pieceSize)
    requires ReaderAt(files, fileIndex, off, |Flat(files, |files|)| - totalRemain) && OpenedSoFar(files, opens, fileIndex)
    ensures ok ==> hash == sha(Chunk(Flat(files, |files|), pieceSize, n))
    ensures ok ==> ReaderAt(files, nextIndex, nextOff, |Flat(files, |files|)| - totalRemain + thisPieceSize)
    ensures if ok then OpenedSoFar(files, opens, nextIndex) else !CanOpen(files, opens)
  {
    var buf;
    NextChunk(Flat(files, |files|), pieceSize, n, totalRemain);
    ok, buf, nextIndex, nextOff := ReadPiece(files, opens, fileIndex, off, thisPieceSize, |Flat(files, |files|)| - totalRemain);
    hash := sha(buf);
  }

  /** getHashInfo: the hashes of the successive pieces of all the files laid end to end, unless a file cannot be opened;
      opens says which can */
  method GetHashInfo<D(0)>(files: seq<seq<Byte>>, opens: nat -> bool, totalSize: nat, pieceSize: nat, sha: seq<Byte> -> D) returns (hashes: Option<seq<D>>)
    requires 0 < |files| && totalSize == |Flat(files, |files|)| && 0 < pieceSize
    ensures hashes.Some? ==> Hashed(hashes.value, Flat(files, |files|), pieceSize, sha)
    ensures hashes.Some? ==> |hashes.value| == CountOf(totalSize, pieceSize)
    ensures hashes.Some? <==> CanOpen(files, opens)
  {
    ghost var all := Flat(files, |files|);
    if totalSize == 0 {
      return Some([]);
    }
    if !opens(0) {
      assert IsOpened(files, 0);
      return None;
    }
    NothingHashed(totalSize, pieceSize);
    var result: seq<D> := [];
    var fileIndex: nat, off: nat, totalRemain: nat := 0, 0, totalSize;
    while totalRemain > 0
      invariant HashedSoFar(totalSize, pieceSize, |result|, totalRemain)
      invariant ReaderAt(files, fileIndex, off, totalSize - totalRemain) && OpenedSoFar(files, opens, fileIndex)
      invariant Hashed(result, all, pieceSize, sha)
    {
      OnePieceMore(totalSize, pieceSize, |result|, totalRemain);
      var thisPieceSize := if pieceSize < totalRemain then pieceSize else totalRemain;
      var ok, hash;
      ok, hash, fileIndex, off := HashPiece(files, opens, fileIndex, off, thisPieceSize, sha, pieceSize, |result|, totalRemain);
      if !ok {
        return None;
      }
      result := result + [hash];
      totalRemain := totalRemain - thisPieceSize;
    }
    AllOpened(files, opens, fileIndex, off);
    return Some(result);
  }

  /** Piece i either is the last one, and takes all that is left, or is full and leaves something. */
  lemma PieceEnds(total: nat, size: nat, i: nat)
    requires 0 < size && 0 < total && i < CountOf(total, size)
    ensures Times(i, size) < total
    ensures i + 1 == CountOf(total, size) <==> total <= Times(i + 1, size)
    ensures i + 1 == CountOf(total, size) ==> total - Times(i, size) == LastOf(total, size)
  {
    LastUnit(total, size);
    TimesMonotone(i, CountOf(total, size) - 1, size);
  }

  // ---------- checking a torrent ----------

  /** The bytes tr_torPieceCountBytes counts are the bytes of the piece. */
  lemma ChunkOfPiece(s: seq<Byte>, tor: Torrent, piece: nat)
    requires tor.Valid() && piece < tor.PieceCount() && |s| == tor.TotalSize()
    ensures tor.PieceOffset(piece, 0) + tor.PieceBytes(piece) <= |s|
    ensures s[tor.PieceOffset(piece, 0)..tor.PieceOffset(piece, 0) + tor.PieceBytes(piece)] == Chunk(s, tor.PieceSize(), piece)
  {
    LastUnit(tor.TotalSize(), tor.PieceSize());
    PieceEnds(tor.TotalSize(), tor.PieceSize(), piece);
  }

  /** Reading a piece block by block, each read starts a block and stays within it. */
  lemma PieceReadIsAligned(tor: Torrent, piece: nat, offset: nat, len: nat)
    requires tor.Valid() && piece < tor.PieceCount() && Rest(offset, tor.blockSize) == 0 && 0 < len <= tor.blockSize
    requires tor.PieceOffset(piece, offset) + len <= tor.TotalSize()
    ensures len <= tor.BlockBytes(tor.Block(piece, offset))
  {
    BlockOfPieceOffset(tor, piece, offset);
    ByteInBlock(tor, tor.PieceOffset(piece, offset));
    BlocksTile(tor, tor.Block(piece, offset));
  }

  lemma {:induction false} RestOfSum(a: nat, b: nat, unit: nat)
    requires 0 < unit && Rest(a, unit) == 0
    ensures Rest(a + b, unit) == Rest(b, unit)
  {
    if unit <= a {
      RestOfSum(a - unit, b, unit);
    }
  }

  ghost predicate ReadUpTo(img: seq<Byte>, start: nat, offset: nat, digested: seq<Byte>) {
    start + offset <= |img| && digested == img[start..start + offset]
  }

  lemma ReadOn(img: seq<Byte>, start: nat, offset: nat, digested: seq<Byte>, buffer: seq<Byte>, len: nat)
    requires ReadUpTo(img, start, offset, digested) && start + offset + len <= |img|
    requires buffer == img[start + offset..start + offset + len]
    ensures ReadUpTo(img, start, offset + len, digested + buffer)
  {
    Adjoining(img, start, start + offset, start + offset + len);
  }

  /** recalculateHash: the hash of a piece's logical bytes, read through the cache block by block; it is found unless a
      transfer fails */
  method RecalculateHash<D(0)>(cache: Cache, tor: Torrent, piece: nat, sha: seq<Byte> -> D) returns (success: bool, hash: D)
    requires cache.Valid() && cache.disk.Knows(tor) && piece < tor.PieceCount()
    modifies cache.disk
    ensures unchanged(cache.disk`files) && unchanged(cache.disk`linear)
    ensures cache.disk.Faults() == old(cache.disk.Faults()) + (if success then 0 else 1)
    ensures success ==> hash == sha(Chunk(cache.Contents(tor), tor.PieceSize(), piece))
  {
    ghost var img := cache.Contents(tor);
    ChunkOfPiece(img, tor, piece);
    ghost var start := tor.PieceOffset(piece, 0);
    var digested: seq<Byte> := [];
    var bytesLeft: nat, offset: nat := tor.PieceBytes(piece), 0;
    while bytesLeft > 0
      invariant unchanged(cache.disk`files) && unchanged(cache.disk`linear)
      invariant cache.disk.Faults() == old(cache.disk.Faults()) && offset + bytesLeft == tor.PieceBytes(piece)
      invariant bytesLeft > 0 ==> Rest(offset, tor.blockSize) == 0
      invariant ReadUpTo(img, start, offset, digested)
    {
      var len := if bytesLeft < tor.blockSize then bytesLeft else tor.blockSize;
      PieceReadIsAligned(tor, piece, offset, len);
      var err, buffer := cache.ReadBlock(tor, piece, offset, len);
      if err != 0 {
        hash := *;
        return false, hash;
      }
      ReadOn(img, start, offset, digested, buffer, len);
      digested := digested + buffer;
      RestOfSum(offset, len, tor.blockSize);
      offset, bytesLeft := offset + len, bytesLeft - len;
    }
    return true, sha(digested);
  }

  /** tr_ioTestPiece: a piece passes exactly if no transfer fails and its logical bytes have the hash in the torrent. */
  method TestPiece<D(0,==)>(cache: Cache, tor: Torrent, piece: nat, pieces: seq<D>, sha: seq<Byte> -> D) returns (ok: bool)
    requires cache.Valid() && cache.disk.Knows(tor) && piece < tor.PieceCount() == |pieces|
    modifies cache.disk
    ensures unchanged(cache.disk`files) && unchanged(cache.disk`linear)
    ensures old(cache.disk.Faults()) <= cache.disk.Faults() <= old(cache.disk.Faults()) + 1
    ensures ok <==> cache.disk.Faults() == old(cache.disk.Faults()) &&
                    sha(Chunk(cache.Contents(tor), tor.PieceSize(), piece)) == pieces[piece]
  {
    var success, hash := RecalculateHash(cache, tor, piece, sha);
    ok := success && hash == pieces[piece];
  }
}
