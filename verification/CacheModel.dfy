/** What the blocks sitting in the write cache mean for the bytes of a torrent (cache.c). */
module CacheModel {
  import opened Base
  import opened UnitArithmetic
  import opened Geometry
  import opened InOut
  import opened PtrArrays

  datatype CacheBlock = CacheBlock(
    tor: Torrent, piece: nat, offset: nat, length: nat, time: int, block: nat, data: seq<Byte>)
  {
    function Start(): nat {
      tor.BlockStart(block)
    }
  }

  /** cache_block_compare: by torrent id, then by block number */
  function Compare(a: CacheBlock, b: CacheBlock): int {
    if a.tor.uniqueId != b.tor.uniqueId then (if a.tor.uniqueId < b.tor.uniqueId then -1 else 1)
    else if a.block != b.block then (if a.block < b.block then -1 else 1)
    else 0
  }

  lemma CompareIsOrder()
    ensures IsOrder(Compare)
  {
  }

  /** A cached block is one whole block of its torrent. */
  ghost predicate BlockOk(b: CacheBlock) {
    && b.tor.Valid()
    && b.block == b.tor.Block(b.piece, b.offset) < b.tor.BlockCount()
    && Rest(b.offset, b.tor.blockSize) == 0
    && |b.data| == b.length == b.tor.BlockBytes(b.block)
  }

  /** The cache array is sorted, and each block is in order. */
  ghost predicate BlocksOk(bs: seq<CacheBlock>) {
    && SortedUnique(bs, Compare)
    && (forall i :: 0 <= i < |bs| ==> BlockOk(bs[i]))
  }

  ghost predicate At(bs: seq<CacheBlock>, i: int, tor: Torrent, block: nat) {
    0 <= i < |bs| && bs[i].tor == tor && bs[i].block == block
  }

  ghost predicate Cached(bs: seq<CacheBlock>, tor: Torrent, block: nat) {
    exists i :: At(bs, i, tor, block)
  }

  lemma AtUnique(bs: seq<CacheBlock>, i: int, j: int, tor: Torrent, block: nat)
    requires SortedUnique(bs, Compare) && At(bs, i, tor, block) && At(bs, j, tor, block)
    ensures i == j
  {
    assert Compare(bs[i], bs[j]) == 0 && Compare(bs[j], bs[i]) == 0;
  }

  ghost function Where(bs: seq<CacheBlock>, tor: Torrent, block: nat): (i: int)
    requires Cached(bs, tor, block)
    ensures At(bs, i, tor, block)
  {
    var i :| At(bs, i, tor, block);
    i
  }

  /** The logical value of byte k: the cached one if its block is cached, else the one on disk */
  ghost function ByteAt(lin: seq<Byte>, bs: seq<CacheBlock>, tor: Torrent, k: nat): Byte
    requires tor.Valid() && k < |lin|
  {
    if Cached(bs, tor, Units(k, tor.blockSize)) then
      var i := Where(bs, tor, Units(k, tor.blockSize));
      if Rest(k, tor.blockSize) < |bs[i].data| then bs[i].data[Rest(k, tor.blockSize)] else lin[k]
    else lin[k]
  }

  /** The flat byte array a torrent's cache and files stand for together */
  ghost function Image(lin: seq<Byte>, bs: seq<CacheBlock>, tor: Torrent): (s: seq<Byte>)
    requires tor.Valid()
    ensures |s| == |lin|
  {
    seq(|lin|, k requires 0 <= k < |lin| => ByteAt(lin, bs, tor, k))
  }

  lemma ByteCached(lin: seq<Byte>, bs: seq<CacheBlock>, tor: Torrent, k: nat, i: nat)
    requires BlocksOk(bs) && tor.Valid() && k < |lin| == tor.TotalSize()
    requires At(bs, i, tor, Units(k, tor.blockSize))
    ensures Rest(k, tor.blockSize) < |bs[i].data|
    ensures ByteAt(lin, bs, tor, k) == bs[i].data[Rest(k, tor.blockSize)]
  {
    ByteInBlock(tor, k);
    AtUnique(bs, i, Where(bs, tor, Units(k, tor.blockSize)), tor, Units(k, tor.blockSize));
  }

  /** Two caches that agree on one block agree on its bytes. */
  lemma ByteSame(lin: seq<Byte>, lin': seq<Byte>, bs: seq<CacheBlock>, bs': seq<CacheBlock>, tor: Torrent, k: nat)
    requires BlocksOk(bs) && BlocksOk(bs') && tor.Valid() && k < |lin| == |lin'| == tor.TotalSize()
    requires forall i :: At(bs, i, tor, Units(k, tor.blockSize)) ==> exists j :: At(bs', j, tor, Units(k, tor.blockSize)) && bs'[j].data == bs[i].data
    requires Cached(bs', tor, Units(k, tor.blockSize)) ==> Cached(bs, tor, Units(k, tor.blockSize))
    requires !Cached(bs, tor, Units(k, tor.blockSize)) ==> lin'[k] == lin[k]
    ensures ByteAt(lin', bs', tor, k) == ByteAt(lin, bs, tor, k)
  {
    var b := Units(k, tor.blockSize);
    if Cached(bs, tor, b) {
      var i :| At(bs, i, tor, b);
      var j :| At(bs', j, tor, b) && bs'[j].data == bs[i].data;
      ByteCached(lin, bs, tor, k, i);
      ByteCached(lin', bs', tor, k, j);
    }
  }

  /** Nothing in the second pair was made up: each byte on disk and each logical byte comes from the first pair. */
  ghost predicate Settles(lin: seq<Byte>, img: seq<Byte>, lin': seq<Byte>, img': seq<Byte>) {
    && |lin| == |img| == |lin'| == |img'|
    && (forall k :: 0 <= k < |lin| ==> lin'[k] == lin[k] || lin'[k] == img[k])
    && (forall k :: 0 <= k < |lin| ==> img'[k] == img[k] || img'[k] == lin[k])
  }

  lemma SettlesTransitive(l0: seq<Byte>, i0: seq<Byte>, l1: seq<Byte>, i1: seq<Byte>, l2: seq<Byte>, i2: seq<Byte>)
    requires Settles(l0, i0, l1, i1) && Settles(l1, i1, l2, i2)
    ensures Settles(l0, i0, l2, i2)
  {
  }

  // ---------- runs ----------

  /** Element i + 1 continues element i */
  predicate Joined(bs: seq<CacheBlock>, i: int) {
    0 <= i && i + 1 < |bs| && bs[i + 1].tor == bs[i].tor && bs[i + 1].block == bs[i].block + 1
  }

  /** bs[pos..pos + n] are consecutive blocks of one torrent */
  ghost predicate IsRun(bs: seq<CacheBlock>, pos: nat, n: nat) {
    0 < n && pos + n <= |bs| && forall i :: pos <= i < pos + n ==> bs[i].tor == bs[pos].tor && bs[i].block == bs[pos].block + (i - pos)
  }

  /** The bytes of the first n blocks of s, in order */
  ghost function Gathered(s: seq<CacheBlock>, n: nat): seq<Byte>
    requires n <= |s|
  {
    if n == 0 then [] else Gathered(s, n - 1) + s[n - 1].data
  }

  /** All blocks but the last hold exactly size bytes. */
  ghost predicate Bricks(s: seq<CacheBlock>, size: nat) {
    forall i :: 0 <= i < |s| - 1 ==> |s[i].data| == size
  }

  lemma RunIsBricks(bs: seq<CacheBlock>, pos: nat, n: nat)
    requires BlocksOk(bs) && IsRun(bs, pos, n)
    ensures Bricks(bs[pos..pos + n], bs[pos].tor.blockSize)
  {
    var s := bs[pos..pos + n];
    forall i | 0 <= i < n - 1
      ensures |s[i].data| == bs[pos].tor.blockSize
    {
      assert s[i] == bs[pos + i];
      BlocksTile(bs[pos].tor, bs[pos + i].block);
      assert bs[pos + i + 1].block < bs[pos].tor.BlockCount();
    }
  }

  lemma {:induction false} GatheredLength(s: seq<CacheBlock>, size: nat, n: nat)
    requires Bricks(s, size) && n <= |s|
    ensures n < |s| ==> |Gathered(s, n)| == Times(n, size)
    ensures 0 < n == |s| ==> |Gathered(s, n)| == Times(n - 1, size) + |s[n - 1].data|
  {
    if n > 0 {
      GatheredLength(s, size, n - 1);
    }
  }

  /** Byte r of block i of the run sits at Times(i, size) + r in the gathered buffer. */
  lemma {:induction false} GatheredByte(s: seq<CacheBlock>, size: nat, n: nat, i: nat, r: nat)
    requires Bricks(s, size) && i < n <= |s| && r < |s[i].data|
    ensures Times(i, size) + r < |Gathered(s, n)| && Gathered(s, n)[Times(i, size) + r] == s[i].data[r]
  {
    GatheredLength(s, size, n - 1);
    if i < n - 1 {
      GatheredByte(s, size, n - 1, i, r);
    }
  }

  /** A run is one stretch of the linear space. */
  lemma RunBounds(bs: seq<CacheBlock>, pos: nat, n: nat)
    requires BlocksOk(bs) && IsRun(bs, pos, n)
    ensures bs[pos].tor.PieceOffset(bs[pos].piece, bs[pos].offset) == bs[pos].Start()
    ensures bs[pos].Start() + |Gathered(bs[pos..pos + n], n)| <= bs[pos].tor.TotalSize()
    ensures bs[pos].Start() < bs[pos].tor.TotalSize()
    ensures bs[pos].piece < bs[pos].tor.PieceCount()
  {
    var tor, b := bs[pos].tor, bs[pos].block;
    RunIsBricks(bs, pos, n);
    GatheredLength(bs[pos..pos + n], tor.blockSize, n);
    BlockOfPieceOffset(tor, bs[pos].piece, bs[pos].offset);
    BlocksTile(tor, b + (n - 1));
    assert bs[pos + n - 1].block == b + (n - 1);
    TimesAdd(b, n - 1, tor.blockSize);
    BlocksTile(tor, b);
    PieceInRange(tor, bs[pos].piece, bs[pos].offset);
  }

  // ---------- one flush ----------

  /** The array without the n blocks from pos on */
  function Erased(bs: seq<CacheBlock>, pos: nat, n: nat): seq<CacheBlock>
    requires pos + n <= |bs|
  {
    bs[..pos] + bs[pos + n..]
  }

  lemma ErasedOk(bs: seq<CacheBlock>, pos: nat, n: nat)
    requires BlocksOk(bs) && pos + n <= |bs|
    ensures BlocksOk(Erased(bs, pos, n))
    ensures forall i :: 0 <= i < |Erased(bs, pos, n)| ==> Erased(bs, pos, n)[i] == bs[if i < pos then i else i + n]
  {
    var r := Erased(bs, pos, n);
    assert forall i :: 0 <= i < |r| ==> r[i] == bs[if i < pos then i else i + n];
  }

  /** Blocks outside the erased stretch stay cached as they were. */
  lemma ErasedAt(bs: seq<CacheBlock>, pos: nat, n: nat, tor: Torrent, block: nat)
    requires pos + n <= |bs|
    ensures forall i :: At(bs, i, tor, block) && !(pos <= i < pos + n) ==>
      At(Erased(bs, pos, n), if i < pos then i else i - n, tor, block)
      && Erased(bs, pos, n)[if i < pos then i else i - n] == bs[i]
    ensures forall j :: At(Erased(bs, pos, n), j, tor, block) ==> At(bs, if j < pos then j else j + n, tor, block)
  {
  }

  /** A byte whose block is not in the run is neither written nor uncached by flushing the run. */
  lemma FlushLeaves(bs: seq<CacheBlock>, pos: nat, n: nat, tor: Torrent, lin: seq<Byte>, lin': seq<Byte>, k: nat)
    requires BlocksOk(bs) && IsRun(bs, pos, n) && tor.Valid() && k < |lin| == |lin'| == tor.TotalSize()
    requires forall i :: At(bs, i, tor, Units(k, tor.blockSize)) ==> !(pos <= i < pos + n)
    requires lin'[k] == lin[k]
    ensures ByteAt(lin', Erased(bs, pos, n), tor, k) == ByteAt(lin, bs, tor, k)
  {
    ErasedOk(bs, pos, n);
    ErasedAt(bs, pos, n, tor, Units(k, tor.blockSize));
    ByteSame(lin, lin', bs, Erased(bs, pos, n), tor, k);
  }

  lemma FlushUncaches(bs: seq<CacheBlock>, pos: nat, n: nat, block: nat, i: nat)
    requires BlocksOk(bs) && IsRun(bs, pos, n)
    requires At(bs, i, bs[pos].tor, block) && pos <= i < pos + n
    ensures !Cached(Erased(bs, pos, n), bs[pos].tor, block)
  {
    if Cached(Erased(bs, pos, n), bs[pos].tor, block) {
      var j := Where(Erased(bs, pos, n), bs[pos].tor, block);
      ErasedAt(bs, pos, n, bs[pos].tor, block);
      AtUnique(bs, i, if j < pos then j else j + n, bs[pos].tor, block);
      assert false;
    }
  }

  /** Where byte k, lying in block i of the run, sits in the buffer that is written */
  lemma GatheredSpot(bs: seq<CacheBlock>, pos: nat, n: nat, k: nat, i: nat)
    requires BlocksOk(bs) && IsRun(bs, pos, n) && pos <= i < pos + n
    requires k == Times(bs[i].block, bs[pos].tor.blockSize) + Rest(k, bs[pos].tor.blockSize)
    requires Rest(k, bs[pos].tor.blockSize) < |bs[i].data|
    ensures bs[pos].Start() <= k < bs[pos].Start() + |Gathered(bs[pos..pos + n], n)|
    ensures Gathered(bs[pos..pos + n], n)[k - bs[pos].Start()] == bs[i].data[Rest(k, bs[pos].tor.blockSize)]
  {
    var s, d := bs[pos..pos + n], bs[pos].tor.blockSize;
    assert s[i - pos] == bs[i] && bs[i].block == bs[pos].block + (i - pos);
    RunIsBricks(bs, pos, n);
    SpotInBricks(s, d, bs[pos].block, i - pos, Rest(k, d));
  }

  lemma SpotInBricks(s: seq<CacheBlock>, size: nat, block: nat, i: nat, r: nat)
    requires Bricks(s, size) && i < |s| && r < |s[i].data|
    ensures Times(block, size) <= Times(block + i, size) + r < Times(block, size) + |Gathered(s, |s|)|
    ensures Gathered(s, |s|)[Times(block + i, size) + r - Times(block, size)] == s[i].data[r]
  {
    GatheredByte(s, size, |s|, i, r);
    TimesAdd(block, i, size);
  }

  /** The buffer that is written holds the logical bytes of the run. */
  lemma GatheredIsImage(bs: seq<CacheBlock>, pos: nat, n: nat, lin: seq<Byte>, k: nat, i: nat)
    requires BlocksOk(bs) && IsRun(bs, pos, n) && k < |lin| == bs[pos].tor.TotalSize()
    requires At(bs, i, bs[pos].tor, Units(k, bs[pos].tor.blockSize)) && pos <= i < pos + n
    ensures bs[pos].Start() <= k < bs[pos].Start() + |Gathered(bs[pos..pos + n], n)|
    ensures Gathered(bs[pos..pos + n], n)[k - bs[pos].Start()] == ByteAt(lin, bs, bs[pos].tor, k)
  {
    ByteCached(lin, bs, bs[pos].tor, k, i);
    ByteInBlock(bs[pos].tor, k);
    GatheredSpot(bs, pos, n, k, i);
  }

  lemma OverwrittenAt(s: seq<Byte>, s': seq<Byte>, at: nat, d: seq<Byte>, m: nat, k: nat)
    requires Overwritten(s, s', at, d, m) && k < |s|
    ensures s'[k] == if at <= k < at + m then d[k - at] else s[k]
  {
    assert at <= k < at + m ==> d[..m][k - at] == d[k - at];
  }

  lemma RunFits(bs: seq<CacheBlock>, pos: nat, n: nat)
    requires BlocksOk(bs) && IsRun(bs, pos, n)
    ensures |Gathered(bs[pos..pos + n], n)| <= Times(n, bs[pos].tor.blockSize)
  {
    RunIsBricks(bs, pos, n);
    GatheredLength(bs[pos..pos + n], bs[pos].tor.blockSize, n);
    BlocksTile(bs[pos].tor, bs[pos + n - 1].block);
  }

  /** A byte that the flush writes belongs to a block of the run. */
  lemma WrittenInRun(bs: seq<CacheBlock>, pos: nat, n: nat, k: nat)
    requires BlocksOk(bs) && IsRun(bs, pos, n)
    requires bs[pos].Start() <= k < bs[pos].Start() + |Gathered(bs[pos..pos + n], n)|
    ensures exists i :: At(bs, i, bs[pos].tor, Units(k, bs[pos].tor.blockSize)) && pos <= i < pos + n
  {
    var d := bs[pos].tor.blockSize;
    RunFits(bs, pos, n);
    UnitsWithin(k, bs[pos].block, n, d);
    var q := Units(k, d);
    var i := pos + (q - bs[pos].block);
    assert bs[i].block == q && bs[i].tor == bs[pos].tor;
    assert At(bs, i, bs[pos].tor, q);
  }

  lemma FlushByte(bs: seq<CacheBlock>, pos: nat, n: nat, lin: seq<Byte>, lin': seq<Byte>, m: nat, k: nat)
    requires BlocksOk(bs) && IsRun(bs, pos, n) && |lin| == |lin'| == bs[pos].tor.TotalSize() && k < |lin|
    requires Overwritten(lin, lin', bs[pos].Start(), Gathered(bs[pos..pos + n], n), m)
    ensures lin'[k] == lin[k] || lin'[k] == ByteAt(lin, bs, bs[pos].tor, k)
    ensures ByteAt(lin', Erased(bs, pos, n), bs[pos].tor, k) == ByteAt(lin, bs, bs[pos].tor, k)
         || ByteAt(lin', Erased(bs, pos, n), bs[pos].tor, k) == lin[k]
    ensures m == |Gathered(bs[pos..pos + n], n)| ==>
      ByteAt(lin', Erased(bs, pos, n), bs[pos].tor, k) == ByteAt(lin, bs, bs[pos].tor, k)
  {
    var b := Units(k, bs[pos].tor.blockSize);
    OverwrittenAt(lin, lin', bs[pos].Start(), Gathered(bs[pos..pos + n], n), m, k);
    if exists i :: At(bs, i, bs[pos].tor, b) && pos <= i < pos + n {
      var i :| At(bs, i, bs[pos].tor, b) && pos <= i < pos + n;
      GatheredIsImage(bs, pos, n, lin, k, i);
      FlushUncaches(bs, pos, n, b, i);
    } else {
      if bs[pos].Start() <= k < bs[pos].Start() + m {
        WrittenInRun(bs, pos, n, k);
        assert false;
      }
      FlushLeaves(bs, pos, n, bs[pos].tor, lin, lin', k);
    }
  }

  /** Flushing a run, even if only the first m bytes reach the disk, invents nothing; and if all of
      them reach it, the logical bytes are what they were. */
  lemma FlushSettles(bs: seq<CacheBlock>, pos: nat, n: nat, lin: seq<Byte>, lin': seq<Byte>, m: nat)
    requires BlocksOk(bs) && IsRun(bs, pos, n) && |lin| == |lin'| == bs[pos].tor.TotalSize()
    requires Overwritten(lin, lin', bs[pos].Start(), Gathered(bs[pos..pos + n], n), m)
    ensures Settles(lin, Image(lin, bs, bs[pos].tor), lin', Image(lin', Erased(bs, pos, n), bs[pos].tor))
    ensures m == |Gathered(bs[pos..pos + n], n)| ==>
      Image(lin', Erased(bs, pos, n), bs[pos].tor) == Image(lin, bs, bs[pos].tor)
  {
    forall k | 0 <= k < |lin|
      ensures lin'[k] == lin[k] || lin'[k] == ByteAt(lin, bs, bs[pos].tor, k)
      ensures ByteAt(lin', Erased(bs, pos, n), bs[pos].tor, k) == ByteAt(lin, bs, bs[pos].tor, k)
           || ByteAt(lin', Erased(bs, pos, n), bs[pos].tor, k) == lin[k]
      ensures m == |Gathered(bs[pos..pos + n], n)| ==>
        ByteAt(lin', Erased(bs, pos, n), bs[pos].tor, k) == ByteAt(lin, bs, bs[pos].tor, k)
    {
      FlushByte(bs, pos, n, lin, lin', m, k);
    }
  }

  /** Other torrents do not notice. */
  lemma FlushOther(bs: seq<CacheBlock>, pos: nat, n: nat, tor: Torrent, lin: seq<Byte>)
    requires BlocksOk(bs) && IsRun(bs, pos, n) && tor.Valid() && tor != bs[pos].tor && |lin| == tor.TotalSize()
    ensures Image(lin, Erased(bs, pos, n), tor) == Image(lin, bs, tor)
  {
    forall k | 0 <= k < |lin|
      ensures ByteAt(lin, Erased(bs, pos, n), tor, k) == ByteAt(lin, bs, tor, k)
    {
      FlushLeaves(bs, pos, n, tor, lin, lin, k);
    }
  }

  /** Both cases together: what flushing a run does to torrent t */
  lemma FlushFor(bs: seq<CacheBlock>, pos: nat, n: nat, t: Torrent, lin: seq<Byte>, lin': seq<Byte>, m: nat)
    requires BlocksOk(bs) && IsRun(bs, pos, n) && t.Valid() && |lin| == |lin'| == t.TotalSize()
    requires if t == bs[pos].tor then Overwritten(lin, lin', bs[pos].Start(), Gathered(bs[pos..pos + n], n), m) else lin' == lin
    ensures Settles(lin, Image(lin, bs, t), lin', Image(lin', Erased(bs, pos, n), t))
    ensures m == |Gathered(bs[pos..pos + n], n)| ==> Image(lin', Erased(bs, pos, n), t) == Image(lin, bs, t)
  {
    if t == bs[pos].tor {
      FlushSettles(bs, pos, n, lin, lin', m);
    } else {
      FlushOther(bs, pos, n, t, lin);
    }
  }

  // ---------- one write ----------

  /** bs with block b put at pos: in place of the same block if it is there, else between its neighbours */
  function Stored(bs: seq<CacheBlock>, pos: nat, b: CacheBlock, replace: bool): seq<CacheBlock>
    requires if replace then pos < |bs| else pos <= |bs|
  {
    if replace then bs[pos := b] else bs[..pos] + [b] + bs[pos..]
  }

  lemma ReplaceOk(bs: seq<CacheBlock>, pos: nat, b: CacheBlock)
    requires BlocksOk(bs) && BlockOk(b) && At(bs, pos, b.tor, b.block)
    ensures BlocksOk(bs[pos := b])
  {
    var r := bs[pos := b];
    forall i, j | 0 <= i < j < |r|
      ensures Compare(r[i], r[j]) < 0
    {
      assert Compare(bs[i], bs[j]) < 0;
    }
  }

  lemma InsertOk(bs: seq<CacheBlock>, pos: nat, b: CacheBlock)
    requires BlocksOk(bs) && BlockOk(b) && pos <= |bs|
    requires SortedUnique(bs[..pos] + [b] + bs[pos..], Compare)
    ensures BlocksOk(bs[..pos] + [b] + bs[pos..])
  {
    var r := bs[..pos] + [b] + bs[pos..];
    assert forall i :: 0 <= i < |r| ==> r[i] == if i < pos then bs[i] else if i == pos then b else bs[i - 1];
  }

  /** Storing b changes what is cached for b's own block only. */
  lemma StoredAt(bs: seq<CacheBlock>, pos: nat, b: CacheBlock, replace: bool, tor: Torrent, block: nat)
    requires if replace then At(bs, pos, b.tor, b.block) else pos <= |bs|
    requires tor != b.tor || block != b.block
    ensures forall i :: At(bs, i, tor, block) ==>
      At(Stored(bs, pos, b, replace), if replace || i < pos then i else i + 1, tor, block)
      && Stored(bs, pos, b, replace)[if replace || i < pos then i else i + 1] == bs[i]
    ensures forall j :: At(Stored(bs, pos, b, replace), j, tor, block) ==>
      At(bs, if replace || j < pos then j else j - 1, tor, block)
  {
  }

  lemma StoredByte(bs: seq<CacheBlock>, pos: nat, b: CacheBlock, replace: bool, tor: Torrent, lin: seq<Byte>, k: nat)
    requires BlocksOk(bs) && BlockOk(b) && tor.Valid() && k < |lin| == tor.TotalSize()
    requires if replace then At(bs, pos, b.tor, b.block) else pos <= |bs|
    requires BlocksOk(Stored(bs, pos, b, replace))
    ensures ByteAt(lin, Stored(bs, pos, b, replace), tor, k)
         == if tor == b.tor && b.Start() <= k < b.Start() + |b.data| then b.data[k - b.Start()] else ByteAt(lin, bs, tor, k)
  {
    var r := Stored(bs, pos, b, replace);
    ByteInBlock(tor, k);
    if tor == b.tor && Units(k, tor.blockSize) == b.block {
      assert At(r, pos, tor, b.block);
      ByteCached(lin, r, tor, k, pos);
    } else {
      if tor == b.tor && b.Start() <= k < b.Start() + |b.data| {
        BlocksTile(tor, b.block);
        UnitsUnique(k, tor.blockSize, b.block);
        assert false;
      }
      StoredAt(bs, pos, b, replace, tor, Units(k, tor.blockSize));
      ByteSame(lin, lin, bs, r, tor, k);
    }
  }

  /** Storing a block overwrites exactly its bytes of its torrent's image. */
  lemma StoreImage(bs: seq<CacheBlock>, pos: nat, b: CacheBlock, replace: bool, tor: Torrent, lin: seq<Byte>)
    requires BlocksOk(bs) && BlockOk(b) && tor.Valid() && |lin| == tor.TotalSize()
    requires if replace then At(bs, pos, b.tor, b.block) else pos <= |bs|
    requires BlocksOk(Stored(bs, pos, b, replace))
    ensures b.Start() + |b.data| <= b.tor.TotalSize()
    ensures tor == b.tor ==> Image(lin, Stored(bs, pos, b, replace), tor) == Splice(Image(lin, bs, tor), b.Start(), b.data)
    ensures tor != b.tor ==> Image(lin, Stored(bs, pos, b, replace), tor) == Image(lin, bs, tor)
  {
    forall k | 0 <= k < |lin|
      ensures ByteAt(lin, Stored(bs, pos, b, replace), tor, k)
           == if tor == b.tor && b.Start() <= k < b.Start() + |b.data| then b.data[k - b.Start()] else ByteAt(lin, bs, tor, k)
    {
      StoredByte(bs, pos, b, replace, tor, lin, k);
    }
    BlocksTile(b.tor, b.block);
  }

  // ---------- one read ----------

  /** What tr_cacheReadBlock hands out: the head of the cached block, or else a stretch of the disk */
  ghost function ReadResult(lin: seq<Byte>, bs: seq<CacheBlock>, tor: Torrent, piece: nat, offset: nat, len: nat): seq<Byte>
    requires tor.Valid() && tor.PieceOffset(piece, offset) + len <= |lin|
  {
    if Cached(bs, tor, tor.Block(piece, offset)) then
      var d := bs[Where(bs, tor, tor.Block(piece, offset))].data;
      if len <= |d| then d[..len] else d
    else
      lin[tor.PieceOffset(piece, offset)..tor.PieceOffset(piece, offset) + len]
  }

  lemma AlignedByte(lin: seq<Byte>, bs: seq<CacheBlock>, tor: Torrent, b: nat, r: nat)
    requires BlocksOk(bs) && tor.Valid() && |lin| == tor.TotalSize()
    requires b < tor.BlockCount() && r < tor.BlockBytes(b)
    ensures tor.BlockStart(b) + r < |lin|
    ensures Cached(bs, tor, b) ==> r < |bs[Where(bs, tor, b)].data|
    ensures ByteAt(lin, bs, tor, tor.BlockStart(b) + r)
         == if Cached(bs, tor, b) then bs[Where(bs, tor, b)].data[r] else lin[tor.BlockStart(b) + r]
  {
    BlocksTile(tor, b);
    UnitsUnique(tor.BlockStart(b) + r, tor.blockSize, b);
    if Cached(bs, tor, b) {
      ByteCached(lin, bs, tor, tor.BlockStart(b) + r, Where(bs, tor, b));
    }
  }

  lemma AlignedBlock(lin: seq<Byte>, bs: seq<CacheBlock>, tor: Torrent, b: nat, len: nat)
    requires BlocksOk(bs) && tor.Valid() && |lin| == tor.TotalSize()
    requires b < tor.BlockCount() && len <= tor.BlockBytes(b)
    ensures tor.BlockStart(b) + len <= |lin|
    ensures Cached(bs, tor, b) ==> len <= |bs[Where(bs, tor, b)].data|
    ensures Image(lin, bs, tor)[tor.BlockStart(b)..tor.BlockStart(b) + len]
         == if Cached(bs, tor, b) then bs[Where(bs, tor, b)].data[..len] else lin[tor.BlockStart(b)..tor.BlockStart(b) + len]
  {
    BlocksTile(tor, b);
    var start := tor.BlockStart(b);
    var img := Image(lin, bs, tor)[start..start + len];
    if Cached(bs, tor, b) {
      var data := bs[Where(bs, tor, b)].data;
      assert |data| == tor.BlockBytes(b);
      forall r | 0 <= r < len
        ensures img[r] == data[r]
      {
        AlignedByte(lin, bs, tor, b, r);
      }
      assert img == data[..len];
    } else {
      forall r | 0 <= r < len
        ensures img[r] == lin[start + r]
      {
        AlignedByte(lin, bs, tor, b, r);
      }
      assert img == lin[start..start + len];
    }
  }

  /** A block-aligned read that stays within its block returns the logical bytes. */
  lemma AlignedRead(lin: seq<Byte>, bs: seq<CacheBlock>, tor: Torrent, piece: nat, offset: nat, len: nat)
    requires BlocksOk(bs) && tor.Valid() && |lin| == tor.TotalSize()
    requires tor.PieceOffset(piece, offset) < |lin|
    requires Rest(offset, tor.blockSize) == 0 && len <= tor.BlockBytes(tor.Block(piece, offset))
    ensures tor.PieceOffset(piece, offset) + len <= |lin|
    ensures ReadResult(lin, bs, tor, piece, offset, len)
         == Image(lin, bs, tor)[tor.PieceOffset(piece, offset)..tor.PieceOffset(piece, offset) + len]
  {
    BlockOfPieceOffset(tor, piece, offset);
    ByteInBlock(tor, tor.PieceOffset(piece, offset));
    assert tor.PieceOffset(piece, offset) == tor.BlockStart(tor.Block(piece, offset));
    AlignedBlock(lin, bs, tor, tor.Block(piece, offset), len);
  }

  // ---------- flushing ranges of blocks ----------

  /** The key tr_ptrArrayLowerBound is asked for: only its torrent and block are compared. */
  function Key(tor: Torrent, block: nat): CacheBlock {
    CacheBlock(tor, 0, 0, 0, 0, block, [])
  }

  /** No block of tor from first to last is cached. */
  ghost predicate NoneCached(bs: seq<CacheBlock>, tor: Torrent, first: nat, last: nat) {
    forall i :: 0 <= i < |bs| && bs[i].tor == tor ==> !(first <= bs[i].block <= last)
  }

  /** With everything below pos before the range, the element at pos decides whether the range is clear. */
  lemma RangeClear(bs: seq<CacheBlock>, tor: Torrent, first: nat, last: nat, pos: nat)
    requires SortedUnique(bs, Compare) && Splits(bs, Key(tor, first), Compare, pos)
    requires pos < |bs| ==> bs[pos].tor.uniqueId != tor.uniqueId || last < bs[pos].block
    ensures NoneCached(bs, tor, first, last)
  {
    forall i | 0 <= i < |bs| && bs[i].tor == tor
      ensures !(first <= bs[i].block <= last)
    {
      if pos < i {
        assert Compare(bs[pos], bs[i]) < 0 && Compare(bs[pos], Key(tor, first)) >= 0;
      } else if i < pos {
        assert Compare(bs[i], Key(tor, first)) < 0;
      }
    }
  }

  lemma TorrentClear(bs: seq<CacheBlock>, tor: Torrent, pos: nat)
    requires SortedUnique(bs, Compare) && Splits(bs, Key(tor, 0), Compare, pos)
    requires pos < |bs| ==> bs[pos].tor.uniqueId != tor.uniqueId
    ensures forall i :: 0 <= i < |bs| ==> bs[i].tor != tor
  {
    forall i | 0 <= i < |bs|
      ensures bs[i].tor != tor
    {
      if bs[i].tor == tor {
        RangeClear(bs, tor, 0, bs[i].block, pos);
        assert false;
      }
    }
  }

  lemma ErasedSplits(bs: seq<CacheBlock>, key: CacheBlock, pos: nat, n: nat)
    requires Splits(bs, key, Compare, pos) && pos + n <= |bs|
    ensures Splits(Erased(bs, pos, n), key, Compare, pos)
  {
    var r := Erased(bs, pos, n);
    assert forall i :: 0 <= i < |r| ==> r[i] == bs[if i < pos then i else i + n];
  }

  /** Bytes whose blocks are not cached are on disk as they should be. */
  lemma ClearIsOnDisk(lin: seq<Byte>, bs: seq<CacheBlock>, tor: Torrent, from: nat, to: nat)
    requires tor.Valid() && |lin| == tor.TotalSize()
    requires from <= to <= |lin| && forall k :: from <= k < to ==> !Cached(bs, tor, Units(k, tor.blockSize))
    ensures Image(lin, bs, tor)[from..to] == lin[from..to]
  {
    forall k | from <= k < to
      ensures ByteAt(lin, bs, tor, k) == lin[k]
    {
      assert !Cached(bs, tor, Units(k, tor.blockSize));
    }
  }

  lemma FileInRange(tor: Torrent, file: nat, k: nat)
    requires tor.Valid() && file < |tor.fileLengths|
    requires tor.FileOffset(file) <= k < tor.FileOffset(file) + tor.fileLengths[file]
    ensures tor.FileBlockRange(file).0 <= Units(k, tor.blockSize) <= tor.FileBlockRange(file).1
  {
    UnitsMonotone(tor.FileOffset(file), k, tor.blockSize);
    UnitsMonotone(k, tor.FileOffset(file) + tor.fileLengths[file] - 1, tor.blockSize);
  }

  lemma FileClear(bs: seq<CacheBlock>, tor: Torrent, file: nat, k: nat)
    requires tor.Valid() && file < |tor.fileLengths|
    requires NoneCached(bs, tor, tor.FileBlockRange(file).0, tor.FileBlockRange(file).1)
    requires tor.FileOffset(file) <= k < tor.FileOffset(file) + tor.fileLengths[file]
    ensures !Cached(bs, tor, Units(k, tor.blockSize))
  {
    FileInRange(tor, file, k);
  }

  /** Once none of a file's blocks is cached, the file on disk holds its logical bytes. */
  lemma FlushedFileIsOnDisk(lin: seq<Byte>, bs: seq<CacheBlock>, tor: Torrent, file: nat, from: nat, to: nat)
    requires tor.Valid() && file < |tor.fileLengths| && |lin| == tor.TotalSize()
    requires NoneCached(bs, tor, tor.FileBlockRange(file).0, tor.FileBlockRange(file).1)
    requires from == tor.FileOffset(file) && to == tor.FileOffset(file) + tor.fileLengths[file]
    ensures to <= |lin| && lin[from..to] == Image(lin, bs, tor)[from..to]
  {
    FileOffsetMonotone(tor, file, |tor.fileLengths|);
    forall k | from <= k < to
      ensures !Cached(bs, tor, Units(k, tor.blockSize))
    {
      FileClear(bs, tor, file, k);
    }
    ClearIsOnDisk(lin, bs, tor, from, to);
  }

  /** Once none of a torrent's blocks is cached, the disk holds its logical bytes. */
  lemma FlushedTorrentIsOnDisk(lin: seq<Byte>, bs: seq<CacheBlock>, tor: Torrent)
    requires tor.Valid() && |lin| == tor.TotalSize()
    requires forall i :: 0 <= i < |bs| ==> bs[i].tor != tor
    ensures lin == Image(lin, bs, tor)
  {
    ClearIsOnDisk(lin, bs, tor, 0, |lin|);
  }

  /** What tr_cacheWriteBlock makes of the blocks bs before it trims them: the block is updated in place, with the new time and
      the new bytes, or put between its neighbours. */
  ghost predicate StoredIn(bs: seq<CacheBlock>, b: CacheBlock, after: seq<CacheBlock>) {
    exists pos: nat ::
      if Cached(bs, b.tor, b.block)
      then At(bs, pos, b.tor, b.block) && after == Stored(bs, pos, bs[pos].(time := b.time, data := b.data), true)
      else pos <= |bs| && after == Stored(bs, pos, b, false)
  }

  // ---------- exactly which writes are right ----------

  /** What one cached block stands for, wherever its own offset lies */
  lemma OneBlockByte(lin: seq<Byte>, b: CacheBlock, k: nat)
    requires b.tor.Valid() && k < |lin| == b.tor.TotalSize() && |b.data| == b.tor.BlockBytes(b.block)
    ensures Units(k, b.tor.blockSize) == b.block ==> Rest(k, b.tor.blockSize) < |b.data|
    ensures ByteAt(lin, [b], b.tor, k)
         == if Units(k, b.tor.blockSize) == b.block then b.data[Rest(k, b.tor.blockSize)] else lin[k]
  {
    ByteInBlock(b.tor, k);
    if Units(k, b.tor.blockSize) == b.block {
      assert At([b], 0, b.tor, b.block);
    }
  }

  lemma OneBlockImage(lin: seq<Byte>, b: CacheBlock)
    requires b.tor.Valid() && b.block < b.tor.BlockCount()
    requires |lin| == b.tor.TotalSize() && |b.data| == b.tor.BlockBytes(b.block)
    ensures b.Start() + |b.data| <= |lin| && Image(lin, [b], b.tor) == Splice(lin, b.Start(), b.data)
  {
    BlocksTile(b.tor, b.block);
    forall k: nat | k < |lin|
      ensures ByteAt(lin, [b], b.tor, k) == Splice(lin, b.Start(), b.data)[k]
    {
      OneBlockByte(lin, b, k);
      UnitsSpec(k, b.tor.blockSize);
      if b.Start() <= k < b.Start() + |b.data| {
        UnitsUnique(k, b.tor.blockSize, b.block);
      }
    }
  }

  /** A new cached block stands for the bytes at the place that it is written to when it is flushed. */
  ghost predicate KeepsPlace(tor: Torrent, lin: seq<Byte>, b: CacheBlock)
    requires tor.Valid()
  {
    tor.PieceOffset(b.piece, b.offset) + |b.data| <= |lin| &&
    Image(lin, [b], tor) == Splice(lin, tor.PieceOffset(b.piece, b.offset), b.data)
  }

  /** b is what tr_cacheWriteBlock makes of a new block of the right length. */
  ghost predicate IsNewBlock(b: CacheBlock, tor: Torrent, piece: nat, offset: nat) {
    tor.Valid() && b.tor == tor && b.piece == piece && b.offset == offset && b.block == tor.Block(piece, offset) &&
    |b.data| == b.length == tor.BlockBytes(b.block)
  }

  /** Whatever its bytes, a new block is read from the cache at the place where it is going to be written, if and only if
      its offset begins a block. */
  lemma AlignedWritesOnly(tor: Torrent, piece: nat, offset: nat)
    requires tor.Valid() && tor.Block(piece, offset) < tor.BlockCount()
    ensures (forall lin, b :: |lin| == tor.TotalSize() && IsNewBlock(b, tor, piece, offset) ==> KeepsPlace(tor, lin, b))
       <==> Rest(offset, tor.blockSize) == 0
  {
    BlockOfPieceOffset(tor, piece, offset);
    if Rest(offset, tor.blockSize) == 0 {
      forall lin, b | |lin| == tor.TotalSize() && IsNewBlock(b, tor, piece, offset)
        ensures KeepsPlace(tor, lin, b)
      {
        OneBlockImage(lin, b);
      }
    } else {
      var block := tor.Block(piece, offset);
      BlocksTile(tor, block);
      var lin := seq(tor.TotalSize(), _ => 0);
      var b := CacheBlock(tor, piece, offset, tor.BlockBytes(block), 0, block, seq(tor.BlockBytes(block), _ => 1));
      OneBlockImage(lin, b);
      assert Image(lin, [b], tor)[b.Start()] == 1;
      assert IsNewBlock(b, tor, piece, offset) && !KeepsPlace(tor, lin, b);
    }
  }

  // ---------- exactly which reads are right ----------

  ghost predicate ReadsRight(lin: seq<Byte>, bs: seq<CacheBlock>, tor: Torrent, piece: nat, offset: nat, len: nat)
    requires tor.Valid() && tor.PieceOffset(piece, offset) + len <= |lin|
  {
    ReadResult(lin, bs, tor, piece, offset, len)
    == Image(lin, bs, tor)[tor.PieceOffset(piece, offset)..tor.PieceOffset(piece, offset) + len]
  }

  /** The same blocks are cached, whatever bytes they hold. */
  ghost predicate SameShape(bs: seq<CacheBlock>, bs': seq<CacheBlock>) {
    |bs'| == |bs| && forall i :: 0 <= i < |bs| ==> bs'[i] == bs[i].(data := bs'[i].data) && |bs'[i].data| == |bs[i].data|
  }

  /** What a caller can check: the read begins at its block's start and stays in the block, if that block
      is cached; if it is not, none of the blocks the read goes on into is cached. */
  ghost predicate SafeRead(bs: seq<CacheBlock>, tor: Torrent, piece: nat, offset: nat, len: nat)
    requires tor.Valid()
  {
    || len == 0
    || (if Cached(bs, tor, tor.Block(piece, offset)) then
          Rest(offset, tor.blockSize) == 0 && len <= tor.BlockBytes(tor.Block(piece, offset))
        else
          NoneCached(bs, tor, tor.Block(piece, offset), Units(tor.PieceOffset(piece, offset) + len - 1, tor.blockSize)))
  }

  lemma SameShapeOk(bs: seq<CacheBlock>, bs': seq<CacheBlock>)
    requires BlocksOk(bs) && SameShape(bs, bs')
    ensures BlocksOk(bs')
    ensures forall tor, block :: Cached(bs', tor, block) <==> Cached(bs, tor, block)
    ensures forall tor, first, last :: NoneCached(bs, tor, first, last) ==> NoneCached(bs', tor, first, last)
  {
    assert forall i, tor, block :: At(bs, i, tor, block) <==> At(bs', i, tor, block);
    assert forall i, j :: 0 <= i < j < |bs| ==> Compare(bs[i], bs[j]) < 0 && Compare(bs'[i], bs'[j]) == Compare(bs[i], bs[j]);
    assert forall i :: 0 <= i < |bs| ==> BlockOk(bs[i]) && BlockOk(bs'[i]);
  }

  lemma SafeReadIsRight(lin: seq<Byte>, bs: seq<CacheBlock>, tor: Torrent, piece: nat, offset: nat, len: nat)
    requires BlocksOk(bs) && tor.Valid() && |lin| == tor.TotalSize()
    requires tor.PieceOffset(piece, offset) < |lin| && tor.PieceOffset(piece, offset) + len <= |lin|
    requires SafeRead(bs, tor, piece, offset, len)
    ensures ReadsRight(lin, bs, tor, piece, offset, len)
  {
    var o := tor.PieceOffset(piece, offset);
    BlockOfPieceOffset(tor, piece, offset);
    if len == 0 {
      assert ReadResult(lin, bs, tor, piece, offset, len) == [];
    } else if Cached(bs, tor, tor.Block(piece, offset)) {
      AlignedRead(lin, bs, tor, piece, offset, len);
    } else {
      forall k | o <= k < o + len
        ensures !Cached(bs, tor, Units(k, tor.blockSize))
      {
        UnitsMonotone(o, k, tor.blockSize);
        UnitsMonotone(k, o + len - 1, tor.blockSize);
      }
      ClearIsOnDisk(lin, bs, tor, o, o + len);
    }
  }

  /** bs with other bytes in block i */
  function Repainted(bs: seq<CacheBlock>, i: nat, data: seq<Byte>): seq<CacheBlock>
    requires i < |bs|
  {
    bs[i := bs[i].(data := data)]
  }

  /** A cached block whose bytes show where they were taken from exposes a read that starts off its beginning,
      or is too long. */
  lemma UnalignedReadIsWrong(bs: seq<CacheBlock>, tor: Torrent, piece: nat, offset: nat, len: nat)
    returns (lin: seq<Byte>, bs': seq<CacheBlock>)
    requires BlocksOk(bs) && tor.Valid() && 0 < len
    requires tor.PieceOffset(piece, offset) + len <= tor.TotalSize()
    requires Cached(bs, tor, tor.Block(piece, offset)) && !SafeRead(bs, tor, piece, offset, len)
    ensures |lin| == tor.TotalSize() && SameShape(bs, bs') && !ReadsRight(lin, bs', tor, piece, offset, len)
  {
    var o, b := tor.PieceOffset(piece, offset), tor.Block(piece, offset);
    var i, r := Where(bs, tor, b), Rest(offset, tor.blockSize);
    BlockOfPieceOffset(tor, piece, offset);
    ByteInBlock(tor, o);
    lin := seq(tor.TotalSize(), _ => 0);
    bs' := Repainted(bs, i, seq(|bs[i].data|, k => if k == r then 1 else 0));
    SameShapeOk(bs, bs');
    assert At(bs', i, tor, b);
    AtUnique(bs', i, Where(bs', tor, b), tor, b);
    ByteCached(lin, bs', tor, o, i);
    if r != 0 {
      assert ReadResult(lin, bs', tor, piece, offset, len)[0] == 0;
      assert Image(lin, bs', tor)[o..o + len][0] == 1;
    } else {
      assert |ReadResult(lin, bs', tor, piece, offset, len)| < len;
    }
  }

  /** A block touched by a stretch, but not its first one, begins inside it. */
  lemma LaterBlockStarts(tor: Torrent, o: nat, len: nat, c: nat)
    requires tor.Valid() && 0 < len && Units(o, tor.blockSize) < c <= Units(o + len - 1, tor.blockSize)
    ensures o < tor.BlockStart(c) < o + len
    ensures Units(tor.BlockStart(c), tor.blockSize) == c && Rest(tor.BlockStart(c), tor.blockSize) == 0
  {
    UnitsSpec(o, tor.blockSize);
    UnitsSpec(o + len - 1, tor.blockSize);
    TimesMonotone(Units(o, tor.blockSize), c, tor.blockSize);
    TimesMonotone(c, Units(o + len - 1, tor.blockSize), tor.blockSize);
    UnitsUnique(tor.BlockStart(c), tor.blockSize, c);
  }

  /** The block a long read misses */
  lemma Hidden(bs: seq<CacheBlock>, tor: Torrent, piece: nat, offset: nat, len: nat) returns (i: nat)
    requires tor.Valid() && 0 < len && !Cached(bs, tor, tor.Block(piece, offset)) && !SafeRead(bs, tor, piece, offset, len)
    ensures i < |bs| && bs[i].tor == tor
    ensures tor.PieceOffset(piece, offset) < bs[i].Start() < tor.PieceOffset(piece, offset) + len
    ensures Units(bs[i].Start(), tor.blockSize) == bs[i].block && Rest(bs[i].Start(), tor.blockSize) == 0
  {
    var o, b := tor.PieceOffset(piece, offset), tor.Block(piece, offset);
    BlockOfPieceOffset(tor, piece, offset);
    i :| 0 <= i < |bs| && bs[i].tor == tor && b <= bs[i].block <= Units(o + len - 1, tor.blockSize);
    assert At(bs, i, tor, bs[i].block);
    LaterBlockStarts(tor, o, len, bs[i].block);
  }

  /** An uncached first block hides the cached ones behind it. */
  lemma LongReadIsWrong(bs: seq<CacheBlock>, tor: Torrent, piece: nat, offset: nat, len: nat)
    returns (lin: seq<Byte>, bs': seq<CacheBlock>)
    requires BlocksOk(bs) && tor.Valid() && 0 < len
    requires tor.PieceOffset(piece, offset) + len <= tor.TotalSize()
    requires !Cached(bs, tor, tor.Block(piece, offset)) && !SafeRead(bs, tor, piece, offset, len)
    ensures |lin| == tor.TotalSize() && SameShape(bs, bs') && !ReadsRight(lin, bs', tor, piece, offset, len)
  {
    var i := Hidden(bs, tor, piece, offset, len);
    lin := seq(tor.TotalSize(), _ => 0);
    bs' := Whitened(bs, i);
    StaleByte(lin, bs', tor, tor.PieceOffset(piece, offset), len, i);
  }

  lemma Whitened(bs: seq<CacheBlock>, i: nat) returns (bs': seq<CacheBlock>)
    requires BlocksOk(bs) && i < |bs|
    ensures BlocksOk(bs') && SameShape(bs, bs') && forall r :: 0 <= r < |bs'[i].data| ==> bs'[i].data[r] == 1
    ensures forall tor, block :: Cached(bs', tor, block) <==> Cached(bs, tor, block)
  {
    bs' := Repainted(bs, i, seq(|bs[i].data|, _ => 1));
    SameShapeOk(bs, bs');
  }

  lemma StaleByte(lin: seq<Byte>, bs: seq<CacheBlock>, tor: Torrent, o: nat, len: nat, i: nat)
    requires BlocksOk(bs) && tor.Valid() && o + len <= |lin| == tor.TotalSize() && forall k :: 0 <= k < |lin| ==> lin[k] == 0
    requires i < |bs| && bs[i].tor == tor && forall r :: 0 <= r < |bs[i].data| ==> bs[i].data[r] == 1
    requires o < bs[i].Start() < o + len && Units(bs[i].Start(), tor.blockSize) == bs[i].block && Rest(bs[i].Start(), tor.blockSize) == 0
    ensures lin[o..o + len] != Image(lin, bs, tor)[o..o + len]
  {
    var k := bs[i].Start();
    assert At(bs, i, tor, bs[i].block);
    ByteCached(lin, bs, tor, k, i);
    assert lin[o..o + len][k - o] == 0;
    assert Image(lin, bs, tor)[o..o + len][k - o] == 1;
  }

  /** tr_cacheReadBlock returns the logical bytes, whatever they are, exactly when the read is safe. */
  lemma ReadExactness(bs: seq<CacheBlock>, tor: Torrent, piece: nat, offset: nat, len: nat)
    requires BlocksOk(bs) && tor.Valid()
    requires tor.PieceOffset(piece, offset) < tor.TotalSize() && tor.PieceOffset(piece, offset) + len <= tor.TotalSize()
    ensures SafeRead(bs, tor, piece, offset, len) <==>
      forall lin, bs' :: |lin| == tor.TotalSize() && SameShape(bs, bs') ==> ReadsRight(lin, bs', tor, piece, offset, len)
  {
    if SafeRead(bs, tor, piece, offset, len) {
      forall lin, bs' | |lin| == tor.TotalSize() && SameShape(bs, bs')
        ensures ReadsRight(lin, bs', tor, piece, offset, len)
      {
        SameShapeOk(bs, bs');
        SafeReadIsRight(lin, bs', tor, piece, offset, len);
      }
    } else if Cached(bs, tor, tor.Block(piece, offset)) {
      var lin, bs' := UnalignedReadIsWrong(bs, tor, piece, offset, len);
    } else {
      var lin, bs' := LongReadIsWrong(bs, tor, piece, offset, len);
    }
  }
}
