/** Byte totals over sets of blocks, and how they add up piece by piece (completion.c). */
module CompletionModel {
  import opened UnitArithmetic
  import opened Geometry
  import opened BitArrays

  /** The bytes in the blocks lo..hi of s */
  function HaveBytes(tor: Torrent, s: set<nat>, lo: nat, hi: nat): nat
    requires tor.Valid()
  {
    if hi <= lo then 0 else HaveBytes(tor, s, lo, hi - 1) + if hi - 1 in s then tor.BlockBytes(hi - 1) else 0
  }

  /** The bytes in the blocks lo..hi */
  function AllBytes(tor: Torrent, lo: nat, hi: nat): nat
    requires tor.Valid()
  {
    if hi <= lo then 0 else AllBytes(tor, lo, hi - 1) + tor.BlockBytes(hi - 1)
  }

  lemma {:induction false} HaveBytesSplit(tor: Torrent, s: set<nat>, lo: nat, mid: nat, hi: nat)
    requires tor.Valid() && lo <= mid <= hi
    ensures HaveBytes(tor, s, lo, hi) == HaveBytes(tor, s, lo, mid) + HaveBytes(tor, s, mid, hi)
  {
    if mid < hi {
      HaveBytesSplit(tor, s, lo, mid, hi - 1);
    }
  }

  lemma {:induction false} AllBytesSplit(tor: Torrent, lo: nat, mid: nat, hi: nat)
    requires tor.Valid() && lo <= mid <= hi
    ensures AllBytes(tor, lo, hi) == AllBytes(tor, lo, mid) + AllBytes(tor, mid, hi)
  {
    if mid < hi {
      AllBytesSplit(tor, lo, mid, hi - 1);
    }
  }

  lemma {:induction false} HaveBytesSame(tor: Torrent, s: set<nat>, t: set<nat>, lo: nat, hi: nat)
    requires tor.Valid() && forall b :: lo <= b < hi ==> (b in s <==> b in t)
    ensures HaveBytes(tor, s, lo, hi) == HaveBytes(tor, t, lo, hi)
  {
    if lo < hi {
      HaveBytesSame(tor, s, t, lo, hi - 1);
    }
  }

  /** Everything is there exactly when nothing is missing. */
  lemma {:induction false} HaveBytesBounds(tor: Torrent, s: set<nat>, lo: nat, hi: nat)
    requires tor.Valid() && hi <= tor.BlockCount()
    ensures HaveBytes(tor, s, lo, hi) <= AllBytes(tor, lo, hi)
    ensures HaveBytes(tor, s, lo, hi) == AllBytes(tor, lo, hi) <==> forall b :: lo <= b < hi ==> b in s
    ensures (forall b :: lo <= b < hi ==> b !in s) ==> HaveBytes(tor, s, lo, hi) == 0
  {
    if lo < hi {
      HaveBytesBounds(tor, s, lo, hi - 1);
      BlocksTile(tor, hi - 1);
    }
  }

  /** How much the last block falls short of a full one, when it is among the blocks lo..hi of s */
  function Shortfall(tor: Torrent, s: set<nat>, lo: nat, hi: nat): nat
    requires tor.Valid()
  {
    if lo < hi == tor.BlockCount() && hi - 1 in s && tor.BlockBytes(hi - 1) <= tor.blockSize
    then tor.blockSize - tor.BlockBytes(hi - 1) else 0
  }

  /** Counting blocks and correcting for the last one */
  lemma {:induction false} BytesByCount(tor: Torrent, s: set<nat>, lo: nat, hi: nat)
    requires tor.Valid() && hi <= tor.BlockCount()
    ensures HaveBytes(tor, s, lo, hi) + Shortfall(tor, s, lo, hi) == Times(CountIn(s, lo, hi), tor.blockSize)
  {
    if lo < hi {
      BytesByCount(tor, s, lo, hi - 1);
      BlocksTile(tor, hi - 1);
    }
  }

  lemma {:induction false} BlocksBefore(tor: Torrent, b: nat)
    requires tor.Valid() && b <= tor.BlockCount()
    ensures AllBytes(tor, 0, b) == if b < tor.BlockCount() then tor.BlockStart(b) else tor.TotalSize()
  {
    LastUnit(tor.TotalSize(), tor.blockSize);
    if b > 0 {
      BlocksBefore(tor, b - 1);
      BlocksTile(tor, b - 1);
    }
  }

  // ---------- pieces ----------

  /** The first block of piece p, and the first one past it */
  function PieceStart(tor: Torrent, p: nat): nat
    requires tor.Valid()
  {
    if p < tor.PieceCount() then Times(p, tor.blocksPerPiece) else tor.BlockCount()
  }

  lemma PieceFirst(tor: Torrent, p: nat)
    requires tor.Valid()
    ensures tor.PieceOffset(p, 0) == tor.BlockStart(Times(p, tor.blocksPerPiece))
    ensures Units(tor.PieceOffset(p, 0), tor.blockSize) == Times(p, tor.blocksPerPiece)
  {
    TimesTimes(p, tor.blocksPerPiece, tor.blockSize);
    UnitsUnique(Times(p, tor.PieceSize()), tor.blockSize, Times(p, tor.blocksPerPiece));
  }

  lemma PieceEnd(tor: Torrent, p: nat)
    requires tor.Valid() && p < tor.PieceCount()
    ensures 0 < tor.PieceBytes(p)
    ensures tor.PieceOffset(p, tor.PieceBytes(p)) == if p + 1 < tor.PieceCount() then tor.PieceOffset(p + 1, 0) else tor.TotalSize()
    ensures tor.PieceOffset(p, tor.PieceBytes(p)) <= tor.TotalSize()
  {
    LastUnit(tor.TotalSize(), tor.PieceSize());
    if p + 1 < tor.PieceCount() {
      TimesMonotone(p + 1, tor.PieceCount() - 1, tor.PieceSize());
    }
  }

  lemma BlockBoundary(bs: nat, q: nat)
    requires 0 < bs && 0 < q
    ensures 0 < Times(q, bs) && Units(Times(q, bs) - 1, bs) == q - 1
  {
    UnitsUnique(Times(q, bs) - 1, bs, q - 1);
  }

  lemma LastBlockOfAll(tor: Torrent)
    requires tor.Valid()
    ensures Units(tor.TotalSize() - 1, tor.blockSize) == tor.BlockCount() - 1
  {
    LastUnit(tor.TotalSize(), tor.blockSize);
    UnitsUnique(tor.TotalSize() - 1, tor.blockSize, tor.BlockCount() - 1);
  }

  lemma PieceLast(tor: Torrent, p: nat)
    requires tor.Valid() && p < tor.PieceCount()
    ensures 0 < tor.PieceBytes(p)
    ensures Units(tor.PieceOffset(p, tor.PieceBytes(p) - 1), tor.blockSize) == PieceStart(tor, p + 1) - 1
    ensures PieceStart(tor, p) < PieceStart(tor, p + 1) <= tor.BlockCount()
  {
    PieceEnd(tor, p);
    PieceFirst(tor, p);
    var last := tor.PieceOffset(p, tor.PieceBytes(p)) - 1;
    UnitsMonotone(tor.PieceOffset(p, 0), last, tor.blockSize);
    UnitsMonotone(last, tor.TotalSize() - 1, tor.blockSize);
    LastBlockOfAll(tor);
    if p + 1 < tor.PieceCount() {
      PieceFirst(tor, p + 1);
      BlockBoundary(tor.blockSize, Times(p + 1, tor.blocksPerPiece));
    }
  }

  lemma PieceSpan(tor: Torrent, p: nat)
    requires tor.Valid() && p < tor.PieceCount()
    ensures tor.PieceBlockRange(p) == (PieceStart(tor, p), PieceStart(tor, p + 1) - 1)
    ensures PieceStart(tor, p) < PieceStart(tor, p + 1) <= tor.BlockCount()
  {
    PieceFirst(tor, p);
    PieceLast(tor, p);
  }

  /** A piece is as long as its blocks together. */
  lemma PieceIsItsBlocks(tor: Torrent, p: nat)
    requires tor.Valid() && p < tor.PieceCount()
    ensures tor.PieceBytes(p) == AllBytes(tor, PieceStart(tor, p), PieceStart(tor, p + 1))
  {
    var f, e := PieceStart(tor, p), PieceStart(tor, p + 1);
    PieceSpan(tor, p);
    AllBytesSplit(tor, 0, f, e);
    BlocksBefore(tor, f);
    BlocksBefore(tor, e);
    LastUnit(tor.TotalSize(), tor.PieceSize());
    TimesTimes(p, tor.blocksPerPiece, tor.blockSize);
    if p + 1 < tor.PieceCount() {
      PieceSpan(tor, p + 1);
      TimesTimes(p + 1, tor.blocksPerPiece, tor.blockSize);
    }
  }

  ghost predicate PieceComplete(tor: Torrent, s: set<nat>, p: nat)
    requires tor.Valid()
  {
    forall b :: PieceStart(tor, p) <= b < PieceStart(tor, p + 1) ==> b in s
  }

  function PieceHave(tor: Torrent, s: set<nat>, p: nat): nat
    requires tor.Valid()
  {
    HaveBytes(tor, s, PieceStart(tor, p), PieceStart(tor, p + 1))
  }

  lemma PieceHaveBounds(tor: Torrent, s: set<nat>, p: nat)
    requires tor.Valid() && p < tor.PieceCount()
    ensures PieceHave(tor, s, p) <= tor.PieceBytes(p)
    ensures PieceHave(tor, s, p) == tor.PieceBytes(p) <==> PieceComplete(tor, s, p)
  {
    PieceSpan(tor, p);
    PieceIsItsBlocks(tor, p);
    HaveBytesBounds(tor, s, PieceStart(tor, p), PieceStart(tor, p + 1));
  }

  /** The bytes of the complete pieces among the first n */
  ghost function CompleteBytes(tor: Torrent, s: set<nat>, n: nat): nat
    requires tor.Valid()
  {
    if n == 0 then 0 else CompleteBytes(tor, s, n - 1) + if PieceComplete(tor, s, n - 1) then tor.PieceBytes(n - 1) else 0
  }

  /** The bytes the first n pieces will have in the end: all of a wanted piece, of an unwanted one what is there */
  function DoneBytes(tor: Torrent, dnd: seq<bool>, s: set<nat>, n: nat): nat
    requires tor.Valid() && n <= |dnd|
  {
    if n == 0 then 0
    else DoneBytes(tor, dnd, s, n - 1) + if dnd[n - 1] then PieceHave(tor, s, n - 1) else tor.PieceBytes(n - 1)
  }

  ghost predicate WantedComplete(tor: Torrent, dnd: seq<bool>, s: set<nat>, n: nat)
    requires tor.Valid() && n <= |dnd|
  {
    forall p: nat :: p < n && !dnd[p] ==> PieceComplete(tor, s, p)
  }

  lemma OnePieceMore(tor: Torrent, s: set<nat>, p: nat)
    requires tor.Valid() && p < tor.PieceCount()
    ensures var f, e := PieceStart(tor, p), PieceStart(tor, p + 1);
      HaveBytes(tor, s, 0, e) == HaveBytes(tor, s, 0, f) + PieceHave(tor, s, p) &&
      AllBytes(tor, 0, e) == AllBytes(tor, 0, f) + tor.PieceBytes(p)
  {
    PieceSpan(tor, p);
    HaveBytesSplit(tor, s, 0, PieceStart(tor, p), PieceStart(tor, p + 1));
    AllBytesSplit(tor, 0, PieceStart(tor, p), PieceStart(tor, p + 1));
    PieceIsItsBlocks(tor, p);
  }

  lemma {:induction false} CompleteUpTo(tor: Torrent, s: set<nat>, n: nat)
    requires tor.Valid() && n <= tor.PieceCount()
    ensures CompleteBytes(tor, s, n) <= HaveBytes(tor, s, 0, PieceStart(tor, n))
  {
    if n > 0 {
      CompleteUpTo(tor, s, n - 1);
      OnePieceMore(tor, s, n - 1);
      PieceHaveBounds(tor, s, n - 1);
    }
  }

  lemma {:induction false} WantedUpTo(tor: Torrent, dnd: seq<bool>, s: set<nat>, n: nat)
    requires tor.Valid() && n <= |dnd| && n <= tor.PieceCount()
    ensures HaveBytes(tor, s, 0, PieceStart(tor, n)) <= DoneBytes(tor, dnd, s, n) <= AllBytes(tor, 0, PieceStart(tor, n))
    ensures HaveBytes(tor, s, 0, PieceStart(tor, n)) == DoneBytes(tor, dnd, s, n) <==> WantedComplete(tor, dnd, s, n)
  {
    if n == 0 {
      LastUnit(tor.TotalSize(), tor.PieceSize());
    } else {
      WantedUpTo(tor, dnd, s, n - 1);
      OnePieceMore(tor, s, n - 1);
      PieceHaveBounds(tor, s, n - 1);
      assert WantedComplete(tor, dnd, s, n) <==>
        WantedComplete(tor, dnd, s, n - 1) && (dnd[n - 1] || PieceComplete(tor, s, n - 1));
    }
  }

  /** What is complete, what is there, what will be there in the end, and the whole, in this order; nothing is
      left to do exactly when every wanted piece is complete. */
  lemma Totals(tor: Torrent, dnd: seq<bool>, s: set<nat>)
    requires tor.Valid() && |dnd| == tor.PieceCount()
    ensures var have := HaveBytes(tor, s, 0, tor.BlockCount());
      CompleteBytes(tor, s, |dnd|) <= have <= DoneBytes(tor, dnd, s, |dnd|) <= tor.TotalSize() &&
      (have == DoneBytes(tor, dnd, s, |dnd|) <==> WantedComplete(tor, dnd, s, |dnd|))
  {
    CompleteUpTo(tor, s, |dnd|);
    WantedUpTo(tor, dnd, s, |dnd|);
    BlocksBefore(tor, tor.BlockCount());
  }
}
