/** Whole runs of the cache: however writes, reads, flushes and changes of the limit follow each other, the
    cache and the files together behave as one flat byte array per torrent (cache.c). */
module CacheHistories {
  import opened Base
  import opened UnitArithmetic
  import opened Geometry
  import opened InOut
  import opened CacheModel
  import opened Caches

  datatype Op =
    | Write(tor: Torrent, piece: nat, offset: nat, data: Bytes)
    | Read(tor: Torrent, piece: nat, offset: nat, len: nat)
    | FlushFile(tor: Torrent, file: nat)
    | FlushTorrent(tor: Torrent)
    | FlushDone
    | SetLimit(maxBytes: nat)

  /** Writes are whole blocks, reads begin at a block and stay in it, and everything is about known torrents. */
  ghost predicate OpOk(disk: Disk, op: Op) {
    match op
    case Write(tor, piece, offset, data) =>
      disk.Knows(tor) && Rest(offset, tor.blockSize) == 0 && tor.Block(piece, offset) < tor.BlockCount()
      && |data| == tor.BlockBytes(tor.Block(piece, offset))
    case Read(tor, piece, offset, len) =>
      disk.Knows(tor) && Rest(offset, tor.blockSize) == 0 && tor.Block(piece, offset) < tor.BlockCount()
      && len <= tor.BlockBytes(tor.Block(piece, offset))
    case FlushFile(tor, file) => disk.Knows(tor) && file < |tor.fileLengths|
    case FlushTorrent(tor) => disk.Knows(tor)
    case _ => true
  }

  /** An aligned stretch of a block lies inside the torrent. */
  lemma AlignedFits(tor: Torrent, piece: nat, offset: nat)
    requires tor.Valid() && Rest(offset, tor.blockSize) == 0 && tor.Block(piece, offset) < tor.BlockCount()
    ensures 0 < tor.BlockBytes(tor.Block(piece, offset))
    ensures tor.PieceOffset(piece, offset) + tor.BlockBytes(tor.Block(piece, offset)) <= tor.TotalSize()
  {
    BlockOfPieceOffset(tor, piece, offset);
    BlocksTile(tor, tor.Block(piece, offset));
  }

  // ---------- the flat byte array ----------

  /** What one operation does to torrent t's bytes: only a write to t does anything. */
  function Apply(img: Bytes, t: Torrent, op: Op): (r: Bytes)
    ensures |r| == |img|
  {
    if op.Write? && op.tor == t && t.PieceOffset(op.piece, op.offset) + |op.data| <= |img|
    then Splice(img, t.PieceOffset(op.piece, op.offset), op.data) else img
  }

  function ApplyAll(img: Bytes, t: Torrent, ops: seq<Op>): (r: Bytes)
    ensures |r| == |img|
  {
    if ops == [] then img else Apply(ApplyAll(img, t, ops[..|ops| - 1]), t, ops[|ops| - 1])
  }

  /** What a read of the flat array returns; other operations return nothing */
  function Answer(img: Bytes, op: Op): Bytes {
    if op.Read? && op.tor.PieceOffset(op.piece, op.offset) + op.len <= |img|
    then img[op.tor.PieceOffset(op.piece, op.offset)..op.tor.PieceOffset(op.piece, op.offset) + op.len] else []
  }

  predicate Hits(t: Torrent, op: Op, k: nat) {
    op.Write? && op.tor == t && t.PieceOffset(op.piece, op.offset) <= k < t.PieceOffset(op.piece, op.offset) + |op.data|
  }

  /** A byte of the flat array is the one written last, or the original one if it was never written. */
  lemma {:induction false} LastWriteWins(img: Bytes, t: Torrent, ops: seq<Op>, i: nat, k: nat)
    requires i < |ops| && k < |img| && Hits(t, ops[i], k)
    requires t.PieceOffset(ops[i].piece, ops[i].offset) + |ops[i].data| <= |img|
    requires forall j :: i < j < |ops| ==> !Hits(t, ops[j], k)
    ensures ApplyAll(img, t, ops)[k] == ops[i].data[k - t.PieceOffset(ops[i].piece, ops[i].offset)]
    decreases |ops|
  {
    var before := ops[..|ops| - 1];
    if i < |before| {
      assert !Hits(t, ops[|ops| - 1], k);
      LastWriteWins(img, t, before, i, k);
    }
  }

  lemma {:induction false} NeverWritten(img: Bytes, t: Torrent, ops: seq<Op>, k: nat)
    requires k < |img| && forall j :: 0 <= j < |ops| ==> !Hits(t, ops[j], k)
    ensures ApplyAll(img, t, ops)[k] == img[k]
  {
    if ops != [] {
      assert !Hits(t, ops[|ops| - 1], k);
      NeverWritten(img, t, ops[..|ops| - 1], k);
    }
  }

  /** Byte j that the read at place n of a run returns is the one that was written there last before it. */
  lemma ReadsLastWrite(img: Bytes, t: Torrent, ops: seq<Op>, n: nat, j: nat, i: nat)
    requires i < n < |ops| && ops[n].Read? && ops[n].tor == t && j < ops[n].len
    requires t.PieceOffset(ops[n].piece, ops[n].offset) + ops[n].len <= |img|
    requires Hits(t, ops[i], t.PieceOffset(ops[n].piece, ops[n].offset) + j)
    requires t.PieceOffset(ops[i].piece, ops[i].offset) + |ops[i].data| <= |img|
    requires forall m :: i < m < n ==> !Hits(t, ops[m], t.PieceOffset(ops[n].piece, ops[n].offset) + j)
    ensures var k, a := t.PieceOffset(ops[n].piece, ops[n].offset) + j, Answer(ApplyAll(img, t, ops[..n]), ops[n]);
      |a| == ops[n].len && a[j] == ops[i].data[k - t.PieceOffset(ops[i].piece, ops[i].offset)]
  {
    LastWriteWins(img, t, ops[..n], i, t.PieceOffset(ops[n].piece, ops[n].offset) + j);
  }

  /** A byte that was never written before it is read is the original one. */
  lemma ReadsOriginal(img: Bytes, t: Torrent, ops: seq<Op>, n: nat, j: nat)
    requires n < |ops| && ops[n].Read? && ops[n].tor == t && j < ops[n].len
    requires t.PieceOffset(ops[n].piece, ops[n].offset) + ops[n].len <= |img|
    requires forall m :: 0 <= m < n ==> !Hits(t, ops[m], t.PieceOffset(ops[n].piece, ops[n].offset) + j)
    ensures var a := Answer(ApplyAll(img, t, ops[..n]), ops[n]);
      |a| == ops[n].len && a[j] == img[t.PieceOffset(ops[n].piece, ops[n].offset) + j]
  {
    NeverWritten(img, t, ops[..n], t.PieceOffset(ops[n].piece, ops[n].offset) + j);
  }

  // ---------- the cache does the same ----------

  /** One operation on the cache */
  method Perform(cache: Cache, op: Op, now: int, pieceDone: (nat, nat) -> bool) returns (err: int, got: Bytes)
    requires cache.Valid() && OpOk(cache.disk, op)
    modifies cache`maxBlocks, cache.blocks, cache.disk
    ensures cache.Valid() && cache.disk.Faults() == old(cache.disk.Faults()) + Failed(err)
    ensures err == 0 ==> forall t :: cache.disk.Knows(t) ==> cache.Contents(t) == Apply(old(cache.Contents(t)), t, op)
    ensures err == 0 && op.Read? ==> got == Answer(old(cache.Contents(op.tor)), op)
    ensures !op.Read? ==> got == []
  {
    got := [];
    match op {
      case Write(tor, piece, offset, data) =>
        AlignedFits(tor, piece, offset);
        assert data[..|data|] == data;
        err := cache.WriteBlock(tor, piece, offset, |data|, data, now, pieceDone);
      case Read(tor, piece, offset, len) =>
        AlignedFits(tor, piece, offset);
        err, got := cache.ReadBlock(tor, piece, offset, len);
      case FlushFile(tor, file) =>
        err := cache.FlushFile(tor, file, pieceDone);
      case FlushTorrent(tor) =>
        err := cache.FlushTorrent(tor, pieceDone);
      case FlushDone =>
        ghost var runs;
        err, runs := cache.FlushDone(now, pieceDone);
      case SetLimit(maxBytes) =>
        err := cache.SetLimit(maxBytes, now, pieceDone);
    }
  }

  /** A whole run.  It ends without an error exactly if no transfer fails in it; and then every torrent holds the bytes the
      flat array would hold, and every read on the way has returned the bytes it would have returned.  The clock, and which
      pieces are complete, may be different for each operation. */
  method PerformAll(cache: Cache, ops: seq<Op>, nows: seq<int>, pieceDones: seq<(nat, nat) -> bool>)
    returns (err: int, got: seq<Bytes>)
    requires cache.Valid() && |nows| == |pieceDones| == |ops| && forall k :: 0 <= k < |ops| ==> OpOk(cache.disk, ops[k])
    modifies cache`maxBlocks, cache.blocks, cache.disk
    ensures cache.Valid() && cache.disk.Faults() == old(cache.disk.Faults()) + Failed(err)
    ensures err == 0 ==> forall t :: cache.disk.Knows(t) ==> cache.Contents(t) == ApplyAll(old(cache.Contents(t)), t, ops)
    ensures err == 0 ==> |got| == |ops| && forall k :: 0 <= k < |ops| && ops[k].Read? && OpOk(cache.disk, ops[k]) ==>
      got[k] == Answer(ApplyAll(old(cache.Contents(ops[k].tor)), ops[k].tor, ops[..k]), ops[k])
  {
    err, got := 0, [];
    var i := 0;
    while i < |ops|
      invariant 0 <= i <= |ops| && |got| == i && cache.Valid() && cache.disk.Faults() == old(cache.disk.Faults())
      invariant forall t :: cache.disk.Knows(t) ==> cache.Contents(t) == ApplyAll(old(cache.Contents(t)), t, ops[..i])
      invariant forall k :: 0 <= k < i && ops[k].Read? && OpOk(cache.disk, ops[k]) ==>
        got[k] == Answer(ApplyAll(old(cache.Contents(ops[k].tor)), ops[k].tor, ops[..k]), ops[k])
    {
      assert ops[..i + 1][..i] == ops[..i];
      var bytes;
      err, bytes := Perform(cache, ops[i], nows[i], pieceDones[i]);
      if err != 0 {
        return;
      }
      got := got + [bytes];
      i := i + 1;
    }
    assert ops[..i] == ops;
  }

  /** Shutting down: unless a transfer fails, the torrent's files hold what all the writes together come to. */
  method PerformAndFlush(cache: Cache, ops: seq<Op>, nows: seq<int>, pieceDones: seq<(nat, nat) -> bool>,
                         tor: Torrent, doneAtEnd: (nat, nat) -> bool) returns (err: int)
    requires cache.Valid() && |nows| == |pieceDones| == |ops| && forall k :: 0 <= k < |ops| ==> OpOk(cache.disk, ops[k])
    requires cache.disk.Knows(tor)
    modifies cache`maxBlocks, cache.blocks, cache.disk
    ensures cache.Valid() && cache.disk.Faults() == old(cache.disk.Faults()) + Failed(err)
    ensures err == 0 ==> cache.disk.Linear(tor) == ApplyAll(old(cache.Contents(tor)), tor, ops)
  {
    var got;
    err, got := PerformAll(cache, ops, nows, pieceDones);
    if err == 0 {
      err := cache.FlushTorrent(tor, doneAtEnd);
      if err == 0 {
        FlushedTorrentIsOnDisk(cache.disk.Linear(tor), cache.blocks.items, tor);
      }
    }
  }
}
