/** The write-back block cache in front of the torrents' files (cache.c). */
module Caches {
  import opened Base
  import opened UnitArithmetic
  import opened Geometry
  import opened InOut
  import opened PtrArrays
  import opened CacheModel
  import opened CacheRuns

  const MAX_BLOCK_SIZE := 0x4000

  class Cache {
    const disk: Disk
    const blocks: PtrArray<CacheBlock>
    var maxBlocks: nat

    /** The blocks are in order, and belong to torrents the disk knows. */
    ghost predicate Holds(bs: seq<CacheBlock>) {
      BlocksOk(bs) && forall i :: 0 <= i < |bs| ==> disk.Knows(bs[i].tor)
    }

    ghost predicate Valid()
      reads blocks, disk`files, disk`linear
    {
      disk.Valid() && Holds(blocks.items)
    }

    /** What the cache and the files together hold for tor: the flat byte array this module stands for */
    ghost function Contents(tor: Torrent): (s: seq<Byte>)
      requires disk.Valid() && disk.Knows(tor)
      reads blocks, disk`files, disk`linear
      ensures |s| == tor.TotalSize()
    {
      Image(disk.Linear(tor), blocks.items, tor)
    }

    constructor (disk: Disk, maxBytes: nat)
      requires disk.Valid()
      ensures Valid() && fresh(blocks) && this.disk == disk
      ensures blocks.items == [] && maxBlocks == maxBytes / MAX_BLOCK_SIZE
      ensures forall t :: disk.Knows(t) ==> Contents(t) == disk.Linear(t)
    {
      this.disk := disk;
      blocks := new PtrArray();
      maxBlocks := maxBytes / MAX_BLOCK_SIZE;
      new;
      forall t | disk.Knows(t)
        ensures Contents(t) == disk.Linear(t)
      {
        FlushedTorrentIsOnDisk(disk.Linear(t), blocks.items, t);
      }
    }

    // ---------- flushing ----------

    lemma ErasedHolds(bs: seq<CacheBlock>, pos: nat, n: nat)
      requires Holds(bs) && pos + n <= |bs|
      ensures Holds(Erased(bs, pos, n))
    {
      ErasedOk(bs, pos, n);
    }

    /** The bytes of n blocks, copied one behind the other */
    method Gather(pos: nat, n: nat) returns (buf: seq<Byte>)
      requires pos + n <= |blocks.items|
      ensures buf == Gathered(blocks.items[pos..pos + n], n)
    {
      buf := [];
      ghost var s := blocks.items[pos..pos + n];
      for i := pos to pos + n
        invariant buf == Gathered(s, i - pos)
      {
        assert blocks.items[i] == s[i - pos];
        buf := buf + blocks.items[i].data;
      }
    }

    /** Writes n consecutive blocks with one disk write and drops them, whether or not the write worked. */
    method FlushContiguous(pos: nat, n: nat) returns (err: int)
      requires Valid() && IsRun(blocks.items, pos, n)
      modifies blocks, disk
      ensures disk.Faults() == old(disk.Faults()) + Failed(err)
      ensures Valid() && blocks.items == Erased(old(blocks.items), pos, n)
      ensures forall t :: disk.Knows(t) ==> Settles(old(disk.Linear(t)), old(Contents(t)), disk.Linear(t), Contents(t))
      ensures err == 0 ==> forall t :: disk.Knows(t) ==> Contents(t) == old(Contents(t))
    {
      ghost var bs := blocks.items;
      var b := blocks.items[pos];
      var buf := Gather(pos, n);
      RunBounds(bs, pos, n);
      blocks.Erase(pos, pos + n);
      assert blocks.items == Erased(bs, pos, n);
      var got;
      err, got := disk.ReadOrWritePiece(Write, b.tor, b.piece, b.offset, buf, |buf|);
      ghost var m: nat :| (err == 0 ==> m == |buf|)
        && Overwritten(old(disk.Linear(b.tor)), disk.Linear(b.tor), b.Start(), buf, m);
      ErasedHolds(bs, pos, n);
      assert Valid();
      forall t | disk.Knows(t)
        ensures Settles(old(disk.Linear(t)), old(Contents(t)), disk.Linear(t), Contents(t))
        ensures err == 0 ==> Contents(t) == old(Contents(t))
      {
        ghost var lin, lin' := old(disk.Linear(t)), disk.Linear(t);
        FlushFor(bs, pos, n, t, lin, lin', m);
        assert old(Contents(t)) == Image(lin, bs, t);
        assert Contents(t) == Image(lin', Erased(bs, pos, n), t);
      }
    }

    /** How many blocks from pos on are consecutive, and what the run made of them looks like */
    method GetBlockRun(pos: nat, pieceDone: (nat, nat) -> bool) returns (n: nat, info: RunInfo)
      requires pos < |blocks.items|
      ensures n == RunLength(blocks.items, pos) && IsRun(blocks.items, pos, n) && !Joined(blocks.items, pos + n - 1)
      ensures var first, last := blocks.items[pos], blocks.items[pos + n - 1];
        info == RunInfo(pos, info.rank, last.time, last.piece != first.piece, pieceDone(last.tor.uniqueId, last.piece), n)
      ensures forall now :: info.(rank := RankOf(n, info.lastBlockTime, info.isPieceDone, info.isMultiPiece, now))
                         == RunAt(blocks.items, pos, now, pieceDone)
    {
      var ref := blocks.items[pos];
      var block := ref.block;
      var i := pos;
      while i < |blocks.items|
        invariant pos <= i <= |blocks.items| && block == ref.block + (i - pos)
        invariant pos < i ==> IsRun(blocks.items, pos, i - pos)
        decreases |blocks.items| - i
      {
        var b := blocks.items[i];
        if b.block != block || b.tor != ref.tor {
          break;
        }
        i, block := i + 1, block + 1;
      }
      RunLengthUnique(blocks.items, pos, i - pos);
      RunLengthMaximal(blocks.items, pos);
      var last := blocks.items[i - 1];
      n := i - pos;
      info := RunInfo(pos, 0, last.time, last.piece != ref.piece, pieceDone(last.tor.uniqueId, last.piece), n);
    }

    /** calcRuns: the runs of the whole array, ranked, highest rank first */
    method CalcRuns(now: int, pieceDone: (nat, nat) -> bool) returns (runs: seq<RunInfo>)
      ensures IsRanking(RunsFrom(blocks.items, 0, now, pieceDone), runs)
      ensures RunsOk(blocks.items, runs) && LengthOf(runs, |runs|) == |blocks.items|
    {
      ghost var bs := blocks.items;
      runs := [];
      var pos: nat := 0;
      while pos < |blocks.items|
        invariant pos <= |bs| && RunsFrom(bs, 0, now, pieceDone) == runs + RunsFrom(bs, pos, now, pieceDone)
        decreases |bs| - pos
      {
        var n, info := GetBlockRun(pos, pieceDone);
        info := info.(rank := RankOf(n, info.lastBlockTime, info.isPieceDone, info.isMultiPiece, now));
        RunsFromStep(bs, pos, now, pieceDone, runs);
        runs := runs + [info];
        pos := pos + info.len;
      }
      assert runs == RunsFrom(bs, 0, now, pieceDone);
      RunsPartition(bs, now, pieceDone);
      runs := SortByRank(runs);
      SameRunsOk(bs, RunsFrom(bs, 0, now, pieceDone), runs);
    }

    /** One round of flushRuns: flushes run i, and moves those still to come. */
    method FlushNext(ghost bs: seq<CacheBlock>, ghost runs: seq<RunInfo>, i: nat, rs: seq<RunInfo>)
      returns (err: int, moved: seq<RunInfo>)
      requires Valid() && RunsOk(bs, runs) && i < |runs| == |rs| && InPlace(bs, runs, i, blocks.items, rs)
      modifies blocks, disk
      ensures Valid() && |moved| == |runs| && InPlace(bs, runs, i + 1, blocks.items, moved)
      ensures disk.Faults() == old(disk.Faults()) + Failed(err)
      ensures forall t :: disk.Knows(t) ==> Settles(old(disk.Linear(t)), old(Contents(t)), disk.Linear(t), Contents(t))
      ensures err == 0 ==> forall t :: disk.Knows(t) ==> Contents(t) == old(Contents(t))
    {
      NextIsRun(bs, runs, i, blocks.items, rs);
      FlushedOne(bs, runs, i, blocks.items, rs);
      err := FlushContiguous(rs[i].pos, rs[i].len);
      moved := MoveLater(bs, runs, i, rs);
    }

    /** Flushes runs one after the other until one fails, moving the positions of those still to come.
        done counts the runs that were taken out of the array. */
    method FlushRuns(runs: seq<RunInfo>) returns (err: int, ghost done: nat)
      requires Valid() && RunsOk(blocks.items, runs)
      modifies blocks, disk
      ensures Valid() && done <= |runs| && (err == 0 ==> done == |runs|)
      ensures disk.Faults() == old(disk.Faults()) + Failed(err)
      ensures blocks.items == Kept(old(blocks.items), runs[..done], |old(blocks.items)|)
      ensures forall t :: disk.Knows(t) ==> Settles(old(disk.Linear(t)), old(Contents(t)), disk.Linear(t), Contents(t))
      ensures err == 0 ==> forall t :: disk.Knows(t) ==> Contents(t) == old(Contents(t))
    {
      ghost var bs := blocks.items;
      var rs := runs;
      var i := 0;
      err := 0;
      InPlaceAtStart(bs, runs);
      while err == 0 && i < |runs|
        invariant 0 <= i <= |runs| == |rs| && Valid() && InPlace(bs, runs, i, blocks.items, rs)
        invariant disk.Faults() == old(disk.Faults()) + Failed(err)
        invariant forall t :: disk.Knows(t) ==> Settles(old(disk.Linear(t)), old(Contents(t)), disk.Linear(t), Contents(t))
        invariant err == 0 ==> forall t :: disk.Knows(t) ==> Contents(t) == old(Contents(t))
        decreases |runs| - i
      {
        label before:
        err, rs := FlushNext(bs, runs, i, rs);
        forall t | disk.Knows(t)
          ensures Settles(old(disk.Linear(t)), old(Contents(t)), disk.Linear(t), Contents(t))
        {
          SettlesTransitive(old(disk.Linear(t)), old(Contents(t)), old@before(disk.Linear(t)), old@before(Contents(t)), disk.Linear(t), Contents(t));
        }
        i := i + 1;
      }
      done := i;
    }

    /** The highest ranked runs, as many as it takes to make up cutoff blocks; all says in what order they all come. */
    method RunsToTrim(cutoff: nat, now: int, pieceDone: (nat, nat) -> bool) returns (runs: seq<RunInfo>, ghost all: seq<RunInfo>)
      requires 0 < cutoff <= |blocks.items|
      ensures RunsOk(blocks.items, runs) && IsTrim(RunsFrom(blocks.items, 0, now, pieceDone), all, |runs|, cutoff)
      ensures runs == all[..|runs|]
    {
      ghost var bs := blocks.items;
      var ranked := CalcRuns(now, pieceDone);
      var i := LeadingRuns(bs, ranked, cutoff);
      PrefixOk(bs, ranked, i);
      runs, all := ranked[..i], ranked;
    }

    method FlushHighest(cutoff: nat, now: int, pieceDone: (nat, nat) -> bool) returns (err: int)
      requires Valid() && 0 < cutoff <= |blocks.items|
      modifies blocks, disk
      ensures Valid() && disk.Faults() == old(disk.Faults()) + Failed(err)
      ensures forall t :: disk.Knows(t) ==> Settles(old(disk.Linear(t)), old(Contents(t)), disk.Linear(t), Contents(t))
      ensures err == 0 ==> forall t :: disk.Knows(t) ==> Contents(t) == old(Contents(t))
      ensures TrimmedTo(old(blocks.items), now, pieceDone, cutoff, blocks.items, err)
    {
      var runs;
      ghost var all, done;
      runs, all := RunsToTrim(cutoff, now, pieceDone);
      err, done := FlushRuns(runs);
      TrimmedBy(old(blocks.items), now, pieceDone, cutoff, blocks.items, err, all, runs, done);
    }

    /** When there are too many blocks, flushes the highest ranked runs until at least a quarter of the
        limit, and one block more, has gone; and no run more than that takes. */
    method CacheTrim(now: int, pieceDone: (nat, nat) -> bool) returns (err: int)
      requires Valid()
      modifies blocks, disk
      ensures Valid() && disk.Faults() == old(disk.Faults()) + Failed(err)
      ensures forall t :: disk.Knows(t) ==> Settles(old(disk.Linear(t)), old(Contents(t)), disk.Linear(t), Contents(t))
      ensures err == 0 ==> forall t :: disk.Knows(t) ==> Contents(t) == old(Contents(t))
      ensures KeptWithin(old(blocks.items), maxBlocks, now, pieceDone, blocks.items, err)
      ensures |old(blocks.items)| > maxBlocks && err == 0 ==> |blocks.items| + 1 + maxBlocks / 4 <= |old(blocks.items)|
    {
      err := 0;
      if |blocks.items| > maxBlocks {
        err := FlushHighest(1 + maxBlocks / 4, now, pieceDone);
        if err == 0 {
          TrimmedSize(old(blocks.items), now, pieceDone, 1 + maxBlocks / 4, blocks.items);
        }
      }
    }

    method SetLimit(maxBytes: nat, now: int, pieceDone: (nat, nat) -> bool) returns (err: int)
      requires Valid()
      modifies this`maxBlocks, blocks, disk
      ensures Valid() && disk.Faults() == old(disk.Faults()) + Failed(err)
      ensures maxBlocks == maxBytes / MAX_BLOCK_SIZE
      ensures forall t :: disk.Knows(t) ==> Settles(old(disk.Linear(t)), old(Contents(t)), disk.Linear(t), Contents(t))
      ensures err == 0 ==> forall t :: disk.Knows(t) ==> Contents(t) == old(Contents(t))
      ensures KeptWithin(old(blocks.items), maxBlocks, now, pieceDone, blocks.items, err)
    {
      maxBlocks := maxBytes / MAX_BLOCK_SIZE;
      err := CacheTrim(now, pieceDone);
    }

    /** Flushes the runs at the front that are done or span pieces. */
    method FlushLead(runs: seq<RunInfo>) returns (err: int)
      requires Valid() && RunsOk(blocks.items, runs)
      modifies blocks, disk
      ensures Valid() && disk.Faults() == old(disk.Faults()) + Failed(err)
      ensures forall t :: disk.Knows(t) ==> Settles(old(disk.Linear(t)), old(Contents(t)), disk.Linear(t), Contents(t))
      ensures err == 0 ==> forall t :: disk.Knows(t) ==> Contents(t) == old(Contents(t))
      ensures err == 0 ==> blocks.items == Kept(old(blocks.items), runs[..FlaggedLead(runs)], |old(blocks.items)|)
    {
      ghost var bs, taken := blocks.items, FlaggedLead(runs);
      var marked := LeadingFlagged(runs);
      PrefixOk(bs, runs, taken);
      MarkedSame(bs, runs[..taken], marked);
      KeptSame(bs, runs[..taken], marked, |bs|);
      assert marked[..|marked|] == marked;
      ghost var done;
      err, done := FlushRuns(marked);
    }

    /** tr_cacheFlushDone: ranks the runs, and flushes those at the front that are done or span pieces. */
    method FlushDone(now: int, pieceDone: (nat, nat) -> bool) returns (err: int, ghost runs: seq<RunInfo>)
      requires Valid()
      modifies blocks, disk
      ensures Valid() && disk.Faults() == old(disk.Faults()) + Failed(err)
      ensures forall t :: disk.Knows(t) ==> Settles(old(disk.Linear(t)), old(Contents(t)), disk.Linear(t), Contents(t))
      ensures err == 0 ==> forall t :: disk.Knows(t) ==> Contents(t) == old(Contents(t))
      ensures IsRanking(RunsFrom(old(blocks.items), 0, now, pieceDone), runs)
      ensures err == 0 ==> blocks.items == Kept(old(blocks.items), runs[..FlaggedLead(runs)], |old(blocks.items)|)
      ensures IsLead(runs, FlaggedLead(runs))
    {
      err, runs := 0, [];
      if |blocks.items| > 0 {
        var rs := CalcRuns(now, pieceDone);
        runs := rs;
        err := FlushLead(rs);
      }
    }

    method FindBlockPos(tor: Torrent, block: nat) returns (pos: nat)
      requires Valid()
      ensures Splits(blocks.items, Key(tor, block), Compare, pos)
    {
      CompareIsOrder();
      SortedCuts(blocks.items, Key(tor, block), Compare);
      var exact;
      pos, exact := blocks.LowerBound(Key(tor, block), Compare);
    }

    /** Flushes the run that begins at pos, which some key splits the array at. */
    method FlushRunAt(pos: nat, ghost key: CacheBlock, pieceDone: (nat, nat) -> bool) returns (err: int)
      requires Valid() && pos < |blocks.items| && Splits(blocks.items, key, Compare, pos)
      modifies blocks, disk
      ensures disk.Faults() == old(disk.Faults()) + Failed(err)
      ensures Valid() && |blocks.items| < |old(blocks.items)| && Splits(blocks.items, key, Compare, pos)
      ensures var n := RunLength(old(blocks.items), pos);
        pos + n <= |old(blocks.items)| && blocks.items == Erased(old(blocks.items), pos, n)
      ensures forall t :: disk.Knows(t) ==> Settles(old(disk.Linear(t)), old(Contents(t)), disk.Linear(t), Contents(t))
      ensures err == 0 ==> forall t :: disk.Knows(t) ==> Contents(t) == old(Contents(t))
    {
      RunLengthMaximal(blocks.items, pos);
      ErasedSplits(blocks.items, key, pos, RunLength(blocks.items, pos));
      var n, info := GetBlockRun(pos, pieceDone);
      err := FlushContiguous(pos, n);
    }

    /** One round of the loops in tr_cacheFlushFile and tr_cacheFlushTorrent: the run at pos, where gone blocks are gone of
        those there were at the start */
    method FlushOneOf(ghost bs: seq<CacheBlock>, pos: nat, ghost gone: nat, tor: Torrent, first: nat, ghost last: nat,
                      pieceDone: (nat, nat) -> bool) returns (err: int, ghost more: nat)
      requires Valid() && pos < |blocks.items| && Splits(blocks.items, Key(tor, first), Compare, pos)
      requires RunsWithin(bs, pos, gone, tor, first, last) && blocks.items == Erased(bs, pos, gone)
      requires blocks.items[pos].tor == tor && first <= blocks.items[pos].block <= last
      modifies blocks, disk
      ensures Valid() && |blocks.items| < |old(blocks.items)| && Splits(blocks.items, Key(tor, first), Compare, pos)
      ensures RunsWithin(bs, pos, more, tor, first, last) && blocks.items == Erased(bs, pos, more)
      ensures disk.Faults() == old(disk.Faults()) + Failed(err)
      ensures forall t :: disk.Knows(t) ==> Settles(old(disk.Linear(t)), old(Contents(t)), disk.Linear(t), Contents(t))
      ensures err == 0 ==> forall t :: disk.Knows(t) ==> Contents(t) == old(Contents(t))
    {
      ghost var m := NextRunWithin(bs, pos, gone, tor, first, last);
      ErasedTwice(bs, pos, gone, m);
      more := gone + m;
      err := FlushRunAt(pos, Key(tor, first), pieceDone);
    }

    /** tr_cacheFlushFile: flushes every run that begins in the file's blocks, and nothing else.  Afterwards the file on
        disk holds all that was written to it. */
    method FlushFile(tor: Torrent, file: nat, pieceDone: (nat, nat) -> bool) returns (err: int)
      requires Valid() && disk.Knows(tor) && file < |tor.fileLengths|
      modifies blocks, disk
      ensures Valid() && disk.Faults() == old(disk.Faults()) + Failed(err)
      ensures forall t :: disk.Knows(t) ==> Settles(old(disk.Linear(t)), old(Contents(t)), disk.Linear(t), Contents(t))
      ensures err == 0 ==> forall t :: disk.Knows(t) ==> Contents(t) == old(Contents(t))
      ensures err == 0 ==> NoneCached(blocks.items, tor, tor.FileBlockRange(file).0, tor.FileBlockRange(file).1)
      ensures exists pos: nat, n: nat ::
        RunsWithin(old(blocks.items), pos, n, tor, tor.FileBlockRange(file).0, tor.FileBlockRange(file).1) &&
        blocks.items == Erased(old(blocks.items), pos, n)
    {
      var (first, last) := tor.FileBlockRange(file);
      err := 0;
      ghost var bs, gone: nat := blocks.items, 0;
      var pos := FindBlockPos(tor, first);
      assert Erased(bs, pos, 0) == bs;
      while err == 0 && pos < |blocks.items|
        invariant Valid() && Splits(blocks.items, Key(tor, first), Compare, pos)
        invariant RunsWithin(bs, pos, gone, tor, first, last) && blocks.items == Erased(bs, pos, gone)
        invariant disk.Faults() == old(disk.Faults()) + Failed(err)
        invariant forall t :: disk.Knows(t) ==> Settles(old(disk.Linear(t)), old(Contents(t)), disk.Linear(t), Contents(t))
        invariant err == 0 ==> forall t :: disk.Knows(t) ==> Contents(t) == old(Contents(t))
        decreases |blocks.items|
      {
        var b := blocks.items[pos];
        if b.tor != tor || b.block < first || b.block > last {
          break;
        }
        label before:
        err, gone := FlushOneOf(bs, pos, gone, tor, first, last, pieceDone);
        forall t | disk.Knows(t)
          ensures Settles(old(disk.Linear(t)), old(Contents(t)), disk.Linear(t), Contents(t))
        {
          SettlesTransitive(old(disk.Linear(t)), old(Contents(t)), old@before(disk.Linear(t)), old@before(Contents(t)), disk.Linear(t), Contents(t));
        }
      }
      if err == 0 {
        RangeClear(blocks.items, tor, first, last, pos);
      }
    }

    /** tr_cacheFlushTorrent: flushes the torrent's blocks, and nothing else. */
    method FlushTorrent(tor: Torrent, pieceDone: (nat, nat) -> bool) returns (err: int)
      requires Valid() && disk.Knows(tor)
      modifies blocks, disk
      ensures Valid() && disk.Faults() == old(disk.Faults()) + Failed(err)
      ensures forall t :: disk.Knows(t) ==> Settles(old(disk.Linear(t)), old(Contents(t)), disk.Linear(t), Contents(t))
      ensures err == 0 ==> forall t :: disk.Knows(t) ==> Contents(t) == old(Contents(t))
      ensures err == 0 ==> forall i :: 0 <= i < |blocks.items| ==> blocks.items[i].tor != tor
      ensures exists pos: nat, n: nat ::
        RunsWithin(old(blocks.items), pos, n, tor, 0, tor.BlockCount()) && blocks.items == Erased(old(blocks.items), pos, n)
    {
      err := 0;
      ghost var bs, gone: nat := blocks.items, 0;
      var pos := FindBlockPos(tor, 0);
      assert Erased(bs, pos, 0) == bs;
      while err == 0 && pos < |blocks.items|
        invariant Valid() && Splits(blocks.items, Key(tor, 0), Compare, pos)
        invariant RunsWithin(bs, pos, gone, tor, 0, tor.BlockCount()) && blocks.items == Erased(bs, pos, gone)
        invariant disk.Faults() == old(disk.Faults()) + Failed(err)
        invariant forall t :: disk.Knows(t) ==> Settles(old(disk.Linear(t)), old(Contents(t)), disk.Linear(t), Contents(t))
        invariant err == 0 ==> forall t :: disk.Knows(t) ==> Contents(t) == old(Contents(t))
        decreases |blocks.items|
      {
        var b := blocks.items[pos];
        if b.tor != tor {
          break;
        }
        label before:
        assert BlockOk(b);
        err, gone := FlushOneOf(bs, pos, gone, tor, 0, tor.BlockCount(), pieceDone);
        forall t | disk.Knows(t)
          ensures Settles(old(disk.Linear(t)), old(Contents(t)), disk.Linear(t), Contents(t))
        {
          SettlesTransitive(old(disk.Linear(t)), old(Contents(t)), old@before(disk.Linear(t)), old@before(Contents(t)), disk.Linear(t), Contents(t));
        }
      }
      if err == 0 {
        TorrentClear(blocks.items, tor, pos);
      }
    }

    // ---------- writing and reading ----------

    /** tr_cacheWriteBlock: stores one whole block, over the cached one if there is one, and trims the cache. */
    method WriteBlock(tor: Torrent, piece: nat, offset: nat, length: nat, writeme: seq<Byte>, now: int, pieceDone: (nat, nat) -> bool)
      returns (err: int)
      requires Valid() && disk.Knows(tor)
      requires Rest(offset, tor.blockSize) == 0 && tor.Block(piece, offset) < tor.BlockCount()
      requires length == tor.BlockBytes(tor.Block(piece, offset)) <= |writeme|
      modifies blocks, disk
      ensures Valid() && disk.Faults() == old(disk.Faults()) + Failed(err)
      ensures tor.PieceOffset(piece, offset) + length <= tor.TotalSize()
      ensures Settles(old(disk.Linear(tor)), Splice(old(Contents(tor)), tor.PieceOffset(piece, offset), writeme[..length]),
                      disk.Linear(tor), Contents(tor))
      ensures err == 0 ==> Contents(tor) == Splice(old(Contents(tor)), tor.PieceOffset(piece, offset), writeme[..length])
      ensures forall t :: disk.Knows(t) && t != tor ==>
        Settles(old(disk.Linear(t)), old(Contents(t)), disk.Linear(t), Contents(t))
        && (err == 0 ==> Contents(t) == old(Contents(t)))
      ensures |old(blocks.items)| <= maxBlocks && err == 0 ==> |blocks.items| <= maxBlocks
      ensures var b := CacheBlock(tor, piece, offset, length, now, tor.Block(piece, offset), writeme[..length]);
        WrittenTo(old(blocks.items), b, maxBlocks, now, pieceDone, blocks.items, err)
    {
      ghost var o := tor.PieceOffset(piece, offset);
      BlockOfPieceOffset(tor, piece, offset);
      Store(CacheBlock(tor, piece, offset, length, now, tor.Block(piece, offset), writeme[..length]));
      assert Contents(tor) == Splice(old(Contents(tor)), o, writeme[..length]);
      err := CacheTrim(now, pieceDone);
    }

    lemma NothingEqual(bs: seq<CacheBlock>, tor: Torrent, block: nat, key: CacheBlock)
      requires Holds(bs) && disk.Knows(tor) && key.tor == tor && key.block == block
      ensures Cached(bs, tor, block) <==> exists i :: 0 <= i < |bs| && Compare(bs[i], key) == 0
    {
      if Cached(bs, tor, block) {
        assert Compare(bs[Where(bs, tor, block)], key) == 0;
      }
      forall i | 0 <= i < |bs| && Compare(bs[i], key) == 0
        ensures At(bs, i, tor, block)
      {
        assert disk.Knows(bs[i].tor);
      }
    }

    method FindBlock(tor: Torrent, block: nat) returns (found: bool, pos: nat)
      requires Valid() && disk.Knows(tor)
      ensures found ==> At(blocks.items, pos, tor, block)
      ensures found <==> Cached(blocks.items, tor, block)
    {
      CompareIsOrder();
      NothingEqual(blocks.items, tor, block, Key(tor, block));
      found, pos := blocks.FindSorted(Key(tor, block), Compare);
      assert found ==> disk.Knows(blocks.items[pos].tor);
    }

    method InsertBlock(b: CacheBlock) returns (pos: nat)
      requires Valid() && disk.Knows(b.tor) && BlockOk(b) && !Cached(blocks.items, b.tor, b.block)
      modifies blocks
      ensures pos <= |old(blocks.items)| && blocks.items == Stored(old(blocks.items), pos, b, false)
      ensures Holds(blocks.items)
    {
      ghost var bs := blocks.items;
      CompareIsOrder();
      NothingEqual(bs, b.tor, b.block, b);
      pos := blocks.InsertSorted(b, Compare);
      InsertOk(bs, pos, b);
    }

    /** The first half of tr_cacheWriteBlock: the cached block is updated, or a new one is inserted. */
    method Store(b: CacheBlock)
      requires Valid() && disk.Knows(b.tor) && BlockOk(b)
      modifies blocks
      ensures Valid() && |blocks.items| <= |old(blocks.items)| + 1 && StoredIn(old(blocks.items), b, blocks.items)
      ensures b.Start() + |b.data| <= b.tor.TotalSize()
      ensures Contents(b.tor) == Splice(old(Contents(b.tor)), b.Start(), b.data)
      ensures forall t :: disk.Knows(t) && t != b.tor ==> Contents(t) == old(Contents(t))
    {
      ghost var bs := blocks.items;
      ghost var stored := b;
      var found, pos := FindBlock(b.tor, b.block);
      if found {
        var cb := blocks.items[pos].(time := b.time, data := b.data);
        ReplaceOk(bs, pos, cb);
        blocks.items := blocks.items[pos := cb];
        stored := cb;
      } else {
        pos := InsertBlock(b);
      }
      assert blocks.items == Stored(bs, pos, stored, found);
      assert BlockOk(stored);
      BlocksTile(b.tor, b.block);
      forall t | disk.Knows(t)
        ensures t == b.tor ==> Contents(t) == Splice(old(Contents(t)), b.Start(), b.data)
        ensures t != b.tor ==> Contents(t) == old(Contents(t))
      {
        ghost var lin := disk.Linear(t);
        StoreImage(bs, pos, stored, found, t, lin);
        assert old(Contents(t)) == Image(lin, bs, t);
        assert Contents(t) == Image(lin, Stored(bs, pos, stored, found), t);
      }
    }

    method ReadBlock(tor: Torrent, piece: nat, offset: nat, len: nat) returns (err: int, got: seq<Byte>)
      requires Valid() && disk.Knows(tor)
      requires tor.PieceOffset(piece, offset) < tor.TotalSize() && tor.PieceOffset(piece, offset) + len <= tor.TotalSize()
      modifies disk
      ensures unchanged(disk`files) && unchanged(disk`linear)
      ensures disk.Faults() == old(disk.Faults()) + Failed(err)
      ensures Cached(blocks.items, tor, tor.Block(piece, offset)) ==> err == 0
      ensures err == 0 ==> got == ReadResult(disk.Linear(tor), blocks.items, tor, piece, offset, len)
      ensures err == 0 && Rest(offset, tor.blockSize) == 0 && len <= tor.BlockBytes(tor.Block(piece, offset)) ==>
        got == Contents(tor)[tor.PieceOffset(piece, offset)..tor.PieceOffset(piece, offset) + len]
    {
      if Rest(offset, tor.blockSize) == 0 && len <= tor.BlockBytes(tor.Block(piece, offset)) {
        AlignedRead(disk.Linear(tor), blocks.items, tor, piece, offset, len);
      }
      var found, pos := FindBlock(tor, tor.Block(piece, offset));
      if found {
        AtUnique(blocks.items, pos, Where(blocks.items, tor, tor.Block(piece, offset)), tor, tor.Block(piece, offset));
        var data := blocks.items[pos].data;
        return 0, if len <= |data| then data[..len] else data;
      }
      err, got := disk.ReadOrWritePiece(Read, tor, piece, offset, [], len);
      PieceInRange(tor, piece, offset);
    }
  }
}
