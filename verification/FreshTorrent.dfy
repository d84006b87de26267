/** A torrent that is made from files passes the test of its pieces, through the disk and the cache, for as long as the
    bytes are the same (makemeta.c, inout.c, cache.c). */
module FreshTorrents {
  import opened Base
  import opened Geometry
  import opened InOut
  import opened CacheModel
  import opened Caches
  import opened CacheHistories
  import opened PieceHashes

  /** Piece i of contents has the hash that it had in original. */
  ghost predicate SameHash<D>(original: Bytes, contents: Bytes, size: nat, sha: Bytes -> D, i: nat) {
    sha(Chunk(contents, size, i)) == sha(Chunk(original, size, i))
  }

  /** The pieces that pass: unless something has failed exactly those that still have their hash, and never one that has
      another hash; and if all pass, nothing has failed. */
  ghost predicate RightlyTested<D>(oks: seq<bool>, original: Bytes, contents: Bytes, size: nat, sha: Bytes -> D, noFault: bool) {
    (noFault ==> forall i :: 0 <= i < |oks| ==> (oks[i] <==> SameHash(original, contents, size, sha, i))) &&
    (forall i :: 0 <= i < |oks| && oks[i] ==> SameHash(original, contents, size, sha, i)) &&
    (false !in oks ==> noFault)
  }

  lemma OneMoreTested<D>(oks: seq<bool>, ok: bool, original: Bytes, contents: Bytes, size: nat, sha: Bytes -> D,
                             noFault: bool, noFaultNow: bool)
    requires RightlyTested(oks, original, contents, size, sha, noFault)
    requires ok <==> noFaultNow && SameHash(original, contents, size, sha, |oks|)
    ensures RightlyTested(oks + [ok], original, contents, size, sha, noFault && noFaultNow)
  {
    assert false in oks + [ok] <==> false in oks || !ok;
  }

  /** tr_ioTestPiece on every piece, with hashes made of original */
  method TestAll<D(0,==)>(cache: Cache, tor: Torrent, pieces: seq<D>, sha: Bytes -> D, ghost original: Bytes) returns (oks: seq<bool>)
    requires cache.Valid() && cache.disk.Knows(tor) && |pieces| == tor.PieceCount()
    requires Hashed(pieces, original, tor.PieceSize(), sha)
    modifies cache.disk
    ensures unchanged(cache.disk`files) && unchanged(cache.disk`linear) && |oks| == tor.PieceCount()
    ensures old(cache.disk.Faults()) <= cache.disk.Faults()
    ensures RightlyTested(oks, original, cache.Contents(tor), tor.PieceSize(), sha, cache.disk.Faults() == old(cache.disk.Faults()))
  {
    oks := [];
    while |oks| < |pieces|
      invariant unchanged(cache.disk`files) && unchanged(cache.disk`linear) && |oks| <= |pieces|
      invariant old(cache.disk.Faults()) <= cache.disk.Faults()
      invariant RightlyTested(oks, original, cache.Contents(tor), tor.PieceSize(), sha, cache.disk.Faults() == old(cache.disk.Faults()))
    {
      ghost var before := cache.disk.Faults();
      var ok := TestPiece(cache, tor, |oks|, pieces, sha);
      OneMoreTested(oks, ok, original, cache.Contents(tor), tor.PieceSize(), sha,
        before == old(cache.disk.Faults()), cache.disk.Faults() == before);
      oks := oks + [ok];
    }
  }

  /** A torrent is made of the files on disk, then the cache is used in any way, then every piece is tested.  The pieces
      come to be tested exactly if the files can be opened and the run meets no error; and unless a transfer fails, a piece
      passes exactly if its bytes, after all the writes, have the hash they had. */
  method MakeRunAndTest<D(0,==)>(cache: Cache, tor: Torrent, opens: nat -> bool, sha: Bytes -> D,
                                ops: seq<Op>, nows: seq<int>, pieceDones: seq<(nat, nat) -> bool>)
    returns (tested: bool, oks: seq<bool>)
    requires cache.Valid() && cache.disk.Knows(tor)
    requires forall i :: 0 <= i < |cache.blocks.items| ==> cache.blocks.items[i].tor != tor
    requires |nows| == |pieceDones| == |ops| && forall k :: 0 <= k < |ops| ==> OpOk(cache.disk, ops[k])
    modifies cache`maxBlocks, cache.blocks, cache.disk
    ensures cache.Valid() && old(cache.disk.Faults()) <= cache.disk.Faults()
    ensures cache.disk.Faults() == old(cache.disk.Faults()) ==>
      (tested <==> CanOpen(old(cache.disk.files[tor.uniqueId]), opens))
    ensures tested ==> CanOpen(old(cache.disk.files[tor.uniqueId]), opens) && |oks| == tor.PieceCount()
    ensures var was := old(cache.disk.Linear(tor)); tested ==>
      RightlyTested(oks, was, ApplyAll(was, tor, ops), tor.PieceSize(), sha, cache.disk.Faults() == old(cache.disk.Faults()))
  {
    tested, oks := false, [];
    var files := cache.disk.files[tor.uniqueId];
    ghost var original := cache.disk.Linear(tor);
    FilesOfTorrent(cache.disk, tor);
    var hashes := GetHashInfo(files, opens, tor.TotalSize(), tor.PieceSize(), sha);
    if hashes.None? {
      return;
    }
    FlushedTorrentIsOnDisk(original, cache.blocks.items, tor);
    var err, got := PerformAll(cache, ops, nows, pieceDones);
    if err != 0 {
      return;
    }
    oks := TestAll(cache, tor, hashes.value, sha, original);
    tested := true;
  }

  lemma FilesOfTorrent(disk: Disk, tor: Torrent)
    requires disk.Valid() && disk.Knows(tor)
    ensures tor.uniqueId in disk.files && var files := disk.files[tor.uniqueId];
      Stores(files, tor) && 0 < |files| && Flat(files, |files|) == disk.Linear(tor)
  {
  }

  /** A new disk that holds some files, and a new cache in front of it */
  method SetUp(tor: Torrent, files: seq<seq<Byte>>, outcome: nat -> int, maxBytes: nat) returns (cache: Cache)
    requires tor.Valid() && Stores(files, tor)
    ensures fresh(cache) && fresh(cache.disk) && fresh(cache.blocks) && cache.Valid() && cache.blocks.items == []
    ensures cache.disk.outcome == outcome && cache.disk.Faults() == 0
    ensures cache.disk.Knows(tor) && tor.uniqueId in cache.disk.files && cache.disk.files[tor.uniqueId] == files
  {
    var disk := new Disk(map[tor.uniqueId := tor], map[tor.uniqueId := files], outcome);
    cache := new Cache(disk, maxBytes);
  }

  /** A freshly made torrent verifies: its hashes are made of the files, a new disk and a new cache are set up over the same
      files, and unless a file cannot be opened or a transfer fails, every piece passes. */
  method MakeAndTest<D(0,==)>(tor: Torrent, files: seq<seq<Byte>>, opens: nat -> bool, outcome: nat -> int, maxBytes: nat,
                             sha: Bytes -> D) returns (tested: bool, oks: seq<bool>)
    requires tor.Valid() && Stores(files, tor)
    ensures tested ==> CanOpen(files, opens) && |oks| == tor.PieceCount()
    ensures CanOpen(files, opens) && (forall k :: outcome(k) == 0) ==> tested && false !in oks
  {
    var cache := SetUp(tor, files, outcome, maxBytes);
    ghost var was := cache.disk.Linear(tor);
    assert ApplyAll(was, tor, []) == was;
    tested, oks := MakeRunAndTest(cache, tor, opens, sha, [], [], []);
    if forall k :: outcome(k) == 0 {
      NoFailures(outcome, cache.disk.attempts);
      assert forall i :: SameHash(was, was, tor.PieceSize(), sha, i);
    }
  }
}
