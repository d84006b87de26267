/** Which blocks of a torrent are there, with running and lazily cached byte totals (completion.c, completion.h). */
module Completions {
  import opened UnitArithmetic
  import opened Geometry
  import opened BitArrays
  import opened Bitfields
  import opened CompletionModel

  datatype Completeness = Leech | Seed | PartialSeed

  lemma AllDone(tor: Torrent, dnd: seq<bool>, s: set<nat>)
    requires tor.Valid() && |dnd| == tor.PieceCount() && forall b: nat :: b < tor.BlockCount() ==> b in s
    ensures DoneBytes(tor, dnd, s, |dnd|) == HaveBytes(tor, s, 0, tor.BlockCount()) == tor.TotalSize()
  {
    Totals(tor, dnd, s);
    HaveBytesBounds(tor, s, 0, tor.BlockCount());
    BlocksBefore(tor, tor.BlockCount());
  }

  lemma OneBlockMore(tor: Torrent, s: set<nat>, b: nat)
    requires tor.Valid() && b < tor.BlockCount() && b !in s
    ensures HaveBytes(tor, s + {b}, 0, tor.BlockCount()) == HaveBytes(tor, s, 0, tor.BlockCount()) + tor.BlockBytes(b)
  {
    var t := s + {b};
    HaveBytesSplit(tor, s, 0, b, tor.BlockCount());
    HaveBytesSplit(tor, t, 0, b, tor.BlockCount());
    HaveBytesSplit(tor, s, b, b + 1, tor.BlockCount());
    HaveBytesSplit(tor, t, b, b + 1, tor.BlockCount());
    HaveBytesSame(tor, s, t, 0, b);
    HaveBytesSame(tor, s, t, b + 1, tor.BlockCount());
    assert HaveBytes(tor, s, b, b + 1) == 0 && HaveBytes(tor, t, b, b + 1) == tor.BlockBytes(b);
  }

  lemma BlocksGone(tor: Torrent, s: set<nat>, lo: nat, hi: nat)
    requires tor.Valid() && lo <= hi <= tor.BlockCount()
    ensures HaveBytes(tor, s - Between(lo, hi), 0, tor.BlockCount()) ==
      HaveBytes(tor, s, 0, tor.BlockCount()) - HaveBytes(tor, s, lo, hi)
  {
    var t := s - Between(lo, hi);
    HaveBytesSplit(tor, s, 0, lo, tor.BlockCount());
    HaveBytesSplit(tor, t, 0, lo, tor.BlockCount());
    HaveBytesSplit(tor, s, lo, hi, tor.BlockCount());
    HaveBytesSplit(tor, t, lo, hi, tor.BlockCount());
    HaveBytesSame(tor, s, t, 0, lo);
    HaveBytesSame(tor, s, t, hi, tor.BlockCount());
    HaveBytesBounds(tor, t, lo, hi);
  }

  ghost function CompletePieces(tor: Torrent, s: set<nat>): set<nat>
    requires tor.Valid()
  {
    set p: nat | p < tor.PieceCount() && PieceComplete(tor, s, p)
  }

  lemma AllOrNoPieces(tor: Torrent, s: set<nat>)
    requires tor.Valid()
    ensures s == Upto(tor.BlockCount()) ==> CompletePieces(tor, s) == Upto(tor.PieceCount())
    ensures s == {} ==> CompletePieces(tor, s) == {}
  {
    forall p: nat | p < tor.PieceCount()
      ensures s == Upto(tor.BlockCount()) ==> PieceComplete(tor, s, p)
    {
      PieceSpan(tor, p);
    }
    forall p: nat | p < tor.PieceCount()
      ensures s == {} ==> !PieceComplete(tor, s, p)
    {
      PieceSpan(tor, p);
      assert PieceComplete(tor, s, p) ==> PieceStart(tor, p) in s;
    }
  }

  class Completion {
    const tor: Torrent
    const blockBitfield: Bitfield
    // which pieces are not to be downloaded; kept with the torrent
    var dnd: seq<bool>
    var sizeWhenDoneLazy: nat
    var sizeWhenDoneIsDirty: bool
    var haveValidLazy: nat
    var haveValidIsDirty: bool
    var sizeNow: nat

    ghost function Blocks(): set<nat>
      reads blockBitfield
    {
      blockBitfield.Members()
    }

    ghost predicate Shape()
      reads this, blockBitfield
    {
      tor.Valid() && blockBitfield.Valid() && blockBitfield.bitCount == tor.BlockCount() && |dnd| == tor.PieceCount()
    }

    /** The running total is right, and so is every cached total that is not marked dirty. */
    ghost predicate Valid()
      reads this, blockBitfield
    {
      Shape() &&
      sizeNow == HaveBytes(tor, Blocks(), 0, tor.BlockCount()) &&
      (!haveValidIsDirty ==> haveValidLazy == CompleteBytes(tor, Blocks(), |dnd|)) &&
      (!sizeWhenDoneIsDirty ==> sizeWhenDoneLazy == DoneBytes(tor, dnd, Blocks(), |dnd|))
    }

    method Reset()
      requires Shape()
      modifies this`sizeNow, this`sizeWhenDoneIsDirty, this`haveValidIsDirty, blockBitfield
      ensures Valid() && Blocks() == {} && haveValidIsDirty && sizeWhenDoneIsDirty
    {
      sizeNow := 0;
      sizeWhenDoneIsDirty := true;
      haveValidIsDirty := true;
      blockBitfield.SetHasNone();
      HaveBytesBounds(tor, {}, 0, tor.BlockCount());
    }

    constructor (tor: Torrent, dnd: seq<bool>)
      requires tor.Valid() && |dnd| == tor.PieceCount()
      ensures Valid() && fresh(blockBitfield) && this.tor == tor && this.dnd == dnd && Blocks() == {}
    {
      this.tor := tor;
      this.dnd := dnd;
      blockBitfield := new Bitfield(tor.BlockCount());
      sizeWhenDoneLazy, haveValidLazy, sizeNow := 0, 0, 0;
      sizeWhenDoneIsDirty, haveValidIsDirty := true, true;
      new;
      LastUnit(tor.TotalSize(), tor.blockSize);
      Reset();
    }

    /** tr_cpBlockInit: the size from the number of blocks, corrected for a short last one */
    method BlockInit(b: Bitfield)
      requires Shape() && b != blockBitfield && b.Valid() && b.bitCount == tor.BlockCount()
      requires b.HasAll() || b.HasNone() || |b.bits| == BytesNeeded(tor.BlockCount())
      modifies this`sizeNow, this`sizeWhenDoneIsDirty, this`haveValidIsDirty, blockBitfield
      ensures Valid() && Blocks() == b.Members()
    {
      Reset();
      blockBitfield.SetFromBitfield(b);
      blockBitfield.MembersCounted();
      ghost var s := Blocks();
      var n := tor.BlockCount();
      BytesByCount(tor, s, 0, n);
      BlocksTile(tor, n - 1);
      TimesIsProduct(blockBitfield.trueCount, tor.blockSize);
      var size := blockBitfield.trueCount * tor.blockSize;
      if b.Has(n - 1) {
        assert n - 1 in b.Members();
        size := size - (tor.blockSize - tor.BlockBytes(n - 1));
      } else {
        assert n - 1 !in b.Members();
      }
      sizeNow := size;
    }

    method BlockAdd(block: nat)
      requires Valid() && block < tor.BlockCount()
      modifies this, blockBitfield
      ensures Valid() && dnd == old(dnd) && Blocks() == old(Blocks()) + {block}
    {
      if !blockBitfield.Has(block) {
        OneBlockMore(tor, Blocks(), block);
        blockBitfield.Add(block);
        sizeNow := sizeNow + tor.BlockBytes(block);
        haveValidIsDirty := true;
        sizeWhenDoneIsDirty := true;
      } else {
        assert Blocks() + {block} == Blocks();
      }
    }

    method PieceAdd(piece: nat)
      requires Valid() && piece < tor.PieceCount()
      modifies this, blockBitfield
      ensures Valid() && dnd == old(dnd)
      ensures Blocks() == old(Blocks()) + Between(PieceStart(tor, piece), PieceStart(tor, piece + 1))
    {
      PieceSpan(tor, piece);
      var (f, l) := tor.PieceBlockRange(piece);
      var i: nat := f;
      while i <= l
        invariant f <= i <= l + 1 && Valid() && dnd == old(dnd)
        invariant Blocks() == old(Blocks()) + Between(f, i)
      {
        BlockAdd(i);
        assert Between(f, i + 1) == Between(f, i) + {i};
        i := i + 1;
      }
    }

    method PieceRem(piece: nat)
      requires Valid() && piece < tor.PieceCount()
      modifies this, blockBitfield
      ensures Valid() && dnd == old(dnd)
      ensures Blocks() == old(Blocks()) - Between(PieceStart(tor, piece), PieceStart(tor, piece + 1))
    {
      PieceSpan(tor, piece);
      var (f, l) := tor.PieceBlockRange(piece);
      BlocksGone(tor, Blocks(), f, l + 1);
      var size := BytesOfRange(f, l);
      sizeNow := sizeNow - size;
      haveValidIsDirty := true;
      sizeWhenDoneIsDirty := true;
      blockBitfield.RemRange(f, l + 1);
    }

    /** The loop of tr_cpPieceRem: what its blocks take away from the size */
    method BytesOfRange(f: nat, l: nat) returns (size: nat)
      requires Shape() && f <= l < tor.BlockCount()
      ensures size == HaveBytes(tor, Blocks(), f, l + 1)
    {
      size := 0;
      var i: nat := f;
      while i <= l
        invariant f <= i <= l + 1 && size == HaveBytes(tor, Blocks(), f, i)
      {
        if blockBitfield.Has(i) {
          size := size + tor.BlockBytes(i);
        }
        i := i + 1;
      }
    }

    /** tr_torrentInitFileDLs and tr_cpInvalidateDND */
    method SetDnd(dnd: seq<bool>)
      requires Valid() && |dnd| == tor.PieceCount()
      modifies this`dnd, this`sizeWhenDoneIsDirty
      ensures Valid() && this.dnd == dnd
    {
      this.dnd := dnd;
      sizeWhenDoneIsDirty := true;
    }
  
    /** tr_cpMissingBlocksInPiece */
    method MissingBlocksInPiece(piece: nat) returns (n: nat)
      requires Shape() && piece < tor.PieceCount()
      ensures n == 0 <==> PieceComplete(tor, Blocks(), piece)
      ensures n + CountIn(Blocks(), PieceStart(tor, piece), PieceStart(tor, piece + 1))
        == PieceStart(tor, piece + 1) - PieceStart(tor, piece)
    {
      PieceSpan(tor, piece);
      var (f, l) := tor.PieceBlockRange(piece);
      CountBounds(Blocks(), f, l + 1);
      if blockBitfield.HasAll() {
        return 0;
      }
      var have := blockBitfield.CountRange(f, l + 1);
      n := l + 1 - f - have;
    }

    /** tr_cpMissingBytesInPiece: the last block is looked at separately, because it may be short */
    method MissingBytesInPiece(piece: nat) returns (n: nat)
      requires Shape() && piece < tor.PieceCount()
      ensures n == tor.PieceBytes(piece) - PieceHave(tor, Blocks(), piece)
      ensures n == 0 <==> PieceComplete(tor, Blocks(), piece)
    {
      PieceHaveBounds(tor, Blocks(), piece);
      PieceSpan(tor, piece);
      if blockBitfield.HasAll() {
        assert Blocks() == Upto(tor.BlockCount());
        return 0;
      }
      var (f, l) := tor.PieceBlockRange(piece);
      var haveBytes := 0;
      if f != l {
        var count := blockBitfield.CountRange(f, l);
        haveBytes := count * tor.blockSize;
        TimesIsProduct(count, tor.blockSize);
        BytesByCount(tor, Blocks(), f, l);
      }
      assert haveBytes == HaveBytes(tor, Blocks(), f, l);
      assert blockBitfield.Has(l) <==> l in Blocks();
      if blockBitfield.Has(l) {
        haveBytes := haveBytes + tor.BlockBytes(l);
      }
      n := tor.PieceBytes(piece) - haveBytes;
    }

    /** tr_cpHaveValid */
    method HaveValid() returns (size: nat)
      requires Valid()
      modifies this`haveValidLazy, this`haveValidIsDirty
      ensures Valid() && size == CompleteBytes(tor, Blocks(), |dnd|) && size <= sizeNow
    {
      Totals(tor, dnd, Blocks());
      if haveValidIsDirty {
        size := SumComplete();
        haveValidLazy := size;
        haveValidIsDirty := false;
      }
      size := haveValidLazy;
    }

    method SumComplete() returns (size: nat)
      requires Shape()
      ensures size == CompleteBytes(tor, Blocks(), |dnd|)
    {
      size := 0;
      var i: nat := 0;
      while i < tor.PieceCount()
        invariant i <= tor.PieceCount() && size == CompleteBytes(tor, Blocks(), i)
      {
        var missing := MissingBlocksInPiece(i);
        if missing == 0 {
          size := size + tor.PieceBytes(i);
        }
        i := i + 1;
      }
    }

    /** What an unwanted piece contributes to the size when done */
    method UnwantedBytes(piece: nat) returns (n: nat)
      requires Shape() && piece < tor.PieceCount()
      ensures n == PieceHave(tor, Blocks(), piece)
    {
      PieceSpan(tor, piece);
      var (f, l) := tor.PieceBlockRange(piece);
      var count := blockBitfield.CountRange(f, l + 1);
      TimesIsProduct(count, tor.blockSize);
      BytesByCount(tor, Blocks(), f, l + 1);
      BlocksTile(tor, l);
      var bytes := count * tor.blockSize;
      if l == tor.BlockCount() - 1 && blockBitfield.Has(l) {
        bytes := bytes - (tor.blockSize - tor.BlockBytes(l));
      }
      n := bytes;
    }

    /** tr_cpSizeWhenDone */
    method SizeWhenDone() returns (size: nat)
      requires Valid()
      modifies this`sizeWhenDoneLazy, this`sizeWhenDoneIsDirty
      ensures Valid() && size == DoneBytes(tor, dnd, Blocks(), |dnd|)
      ensures sizeNow <= size <= tor.TotalSize()
    {
      Totals(tor, dnd, Blocks());
      if sizeWhenDoneIsDirty {
        if blockBitfield.HasAll() {
          AllDone(tor, dnd, Blocks());
          size := tor.TotalSize();
        } else {
          size := SumWhenDone();
        }
        sizeWhenDoneLazy := size;
        sizeWhenDoneIsDirty := false;
      }
      size := sizeWhenDoneLazy;
    }

    method SumWhenDone() returns (size: nat)
      requires Shape()
      ensures size == DoneBytes(tor, dnd, Blocks(), |dnd|)
    {
      size := 0;
      var p: nat := 0;
      while p < tor.PieceCount()
        invariant p <= tor.PieceCount() && size == DoneBytes(tor, dnd, Blocks(), p)
      {
        var n := tor.PieceBytes(p);
        if dnd[p] {
          n := UnwantedBytes(p);
        }
        size := size + n;
        p := p + 1;
      }
    }

    /** tr_cpLeftUntilDone: 0 exactly when every wanted piece is complete */
    method LeftUntilDone() returns (left: nat)
      requires Valid()
      modifies this`sizeWhenDoneLazy, this`sizeWhenDoneIsDirty
      ensures Valid() && sizeNow + left == DoneBytes(tor, dnd, Blocks(), |dnd|)
      ensures left == 0 <==> WantedComplete(tor, dnd, Blocks(), |dnd|)
    {
      Totals(tor, dnd, Blocks());
      var size := SizeWhenDone();
      left := size - sizeNow;
    }

    /** tr_cpGetStatus */
    method GetStatus(hasMetadata: bool) returns (status: Completeness)
      requires Valid()
      modifies this`sizeWhenDoneLazy, this`sizeWhenDoneIsDirty
      ensures Valid()
      ensures status == Seed <==> sizeNow == tor.TotalSize()
      ensures status == PartialSeed <==>
        sizeNow < tor.TotalSize() && hasMetadata && WantedComplete(tor, dnd, Blocks(), |dnd|)
    {
      Totals(tor, dnd, Blocks());
      HaveBytesBounds(tor, Blocks(), 0, tor.BlockCount());
      BlocksBefore(tor, tor.BlockCount());
      blockBitfield.MembersCounted();
      CountBounds(Blocks(), 0, tor.BlockCount());
      if blockBitfield.HasAll() {
        return Seed;
      }
      if !hasMetadata {
        return Leech;
      }
      var size := SizeWhenDone();
      status := if sizeNow == size then PartialSeed else Leech;
    }

    /** tr_cpFileIsComplete */
    method FileIsComplete(file: nat) returns (complete: bool)
      requires Shape() && file < |tor.fileLengths|
      ensures complete <==> BytesIn(tor, Blocks(), tor.FileOffset(file), tor.FileOffset(file) + tor.fileLengths[file])
    {
      if tor.fileLengths[file] == 0 {
        return true;
      }
      var (f, l) := tor.FileBlockRange(file);
      var end := tor.FileOffset(file) + tor.fileLengths[file];
      FileOffsetMonotone(tor, file, |tor.fileLengths|);
      UnitExists(tor.TotalSize(), tor.blockSize, end - 1);
      BlocksOfBytes(tor, Blocks(), tor.FileOffset(file), end, f, l);
      var n := blockBitfield.CountRange(f, l + 1);
      CountBounds(Blocks(), f, l + 1);
      complete := n == l + 1 - f;
    }

    /** tr_cpCreatePieceBitfield: a bit for every complete piece */
    method CreatePieceBitfield() returns (raw: seq<bv8>)
      requires Shape()
      ensures |raw| == BytesNeeded(tor.PieceCount())
      ensures SetBits(raw) == CompletePieces(tor, Blocks())
    {
      LastUnit(tor.TotalSize(), tor.PieceSize());
      var n := tor.PieceCount();
      var pieces := new Bitfield(n);
      ghost var done := CompletePieces(tor, Blocks());
      AllOrNoPieces(tor, Blocks());
      if blockBitfield.HasAll() {
        pieces.SetHasAll();
        assert Blocks() == Upto(tor.BlockCount());
      } else if !blockBitfield.HasNone() {
        var flags := PieceFlags();
        FlagsWithin(flags, n);
        pieces.SetFromFlags(flags);
        assert FlagSet(flags) == done;
      } else {
        assert Blocks() == {};
      }
      raw := pieces.GetRaw();
    }

    method PieceFlags() returns (flags: seq<bool>)
      requires Shape()
      ensures |flags| == tor.PieceCount()
      ensures forall p: nat :: p < |flags| ==> (flags[p] <==> PieceComplete(tor, Blocks(), p))
    {
      flags := [];
      while |flags| < tor.PieceCount()
        invariant |flags| <= tor.PieceCount()
        invariant forall p: nat :: p < |flags| ==> (flags[p] <==> PieceComplete(tor, Blocks(), p))
      {
        var missing := MissingBlocksInPiece(|flags|);
        flags := flags + [missing == 0];
      }
    }
  }

  /** The bytes start..end lie in blocks of s. */
  ghost predicate BytesIn(tor: Torrent, s: set<nat>, start: nat, end: nat)
    requires tor.Valid()
  {
    forall k: nat :: start <= k < end ==> Units(k, tor.blockSize) in s
  }

  lemma BlocksOfBytes(tor: Torrent, s: set<nat>, start: nat, end: nat, f: nat, l: nat)
    requires tor.Valid() && start < end && f == Units(start, tor.blockSize) && l == Units(end - 1, tor.blockSize)
    ensures f <= l && (BytesIn(tor, s, start, end) <==> Between(f, l + 1) <= s)
  {
    UnitsMonotone(start, end - 1, tor.blockSize);
    if BytesIn(tor, s, start, end) {
      forall b: nat | b in Between(f, l + 1)
        ensures b in s
      {
        var k := ByteOfBlock(start, end, tor.blockSize, b);
      }
    }
    if Between(f, l + 1) <= s {
      forall k: nat | start <= k < end
        ensures Units(k, tor.blockSize) in s
      {
        UnitsMonotone(start, k, tor.blockSize);
        UnitsMonotone(k, end - 1, tor.blockSize);
        assert Units(k, tor.blockSize) in Between(f, l + 1);
      }
    }
  }

  lemma ByteOfBlock(start: nat, end: nat, unit: nat, b: nat) returns (k: nat)
    requires 0 < unit && start < end && Units(start, unit) <= b <= Units(end - 1, unit)
    ensures start <= k < end && Units(k, unit) == b
  {
    if b == Units(start, unit) {
      k := start;
    } else {
      k := Times(b, unit);
      UnitsUnique(k, unit, b);
      if k < start {
        UnitsMonotone(k, start, unit);
      }
      UnitsSpec(end - 1, unit);
      TimesMonotone(b, Units(end - 1, unit), unit);
    }
  }
}
