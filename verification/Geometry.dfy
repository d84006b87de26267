/** How a torrent cuts its bytes: the files laid end to end form one linear space, which is cut
    into blocks, and pieces are whole numbers of blocks (torrent.c, torrent.h). */
module Geometry {
  import opened UnitArithmetic

  /** The part of a torrent that decides where a byte lives.  blocksPerPiece is
      pieceSize / blockSize, which the source asserts to be exact. */
  datatype Torrent = Torrent(uniqueId: nat, blockSize: nat, blocksPerPiece: nat, fileLengths: seq<nat>) {

    predicate Valid() {
      0 < blockSize && 0 < PieceSize() && 0 < TotalSize()
    }

    function PieceSize(): nat {
      Times(blocksPerPiece, blockSize)
    }

    /** The offset tr_torrentInitFilePieces gives to file i. */
    function FileOffset(i: nat): nat
      requires i <= |fileLengths|
    {
      if i == 0 then 0 else FileOffset(i - 1) + fileLengths[i - 1]
    }

    function TotalSize(): nat {
      FileOffset(|fileLengths|)
    }

    function BlockCount(): nat
      requires Valid()
    {
      CountOf(TotalSize(), blockSize)
    }

    function PieceCount(): nat
      requires Valid()
    {
      CountOf(TotalSize(), PieceSize())
    }

    /** tr_torBlockCountBytes: only the last block can be short */
    function BlockBytes(block: nat): nat
      requires Valid()
    {
      if block + 1 == BlockCount() then LastOf(TotalSize(), blockSize) else blockSize
    }

    /** tr_torPieceCountBytes: only the last piece can be short */
    function PieceBytes(piece: nat): nat
      requires Valid()
    {
      if piece + 1 == PieceCount() then LastOf(TotalSize(), PieceSize()) else PieceSize()
    }

    /** _tr_block */
    function Block(piece: nat, offset: nat): nat
      requires Valid()
    {
      Times(piece, blocksPerPiece) + Units(offset, blockSize)
    }

    /** tr_pieceOffset, with its length argument 0 */
    function PieceOffset(piece: nat, offset: nat): nat {
      Times(piece, PieceSize()) + offset
    }

    /** Where a block starts in the linear space */
    function BlockStart(block: nat): nat {
      Times(block, blockSize)
    }

    /** tr_torGetPieceBlockRange: the first and the last block of a piece */
    function PieceBlockRange(piece: nat): (nat, nat)
      requires Valid()
    {
      LastUnit(TotalSize(), PieceSize());
      (Units(PieceOffset(piece, 0), blockSize), Units(PieceOffset(piece, PieceBytes(piece) - 1), blockSize))
    }

    /** tr_torGetFileBlockRange: the first and the last block of a file */
    function FileBlockRange(file: nat): (nat, nat)
      requires Valid() && file < |fileLengths|
    {
      var first := Units(FileOffset(file), blockSize);
      if fileLengths[file] == 0 then (first, first)
      else (first, Units(FileOffset(file) + fileLengths[file] - 1, blockSize))
    }
  }

  /** The blocks tile the linear space: block b is [BlockStart(b), BlockStart(b) + BlockBytes(b)). */
  lemma BlocksTile(tor: Torrent, block: nat)
    requires tor.Valid() && block < tor.BlockCount()
    ensures 0 < tor.BlockBytes(block) <= tor.blockSize
    ensures tor.BlockStart(block) + tor.BlockBytes(block) <= tor.TotalSize()
    ensures block + 1 < tor.BlockCount() ==> tor.BlockBytes(block) == tor.blockSize
    ensures block + 1 == tor.BlockCount() ==> tor.BlockStart(block) + tor.BlockBytes(block) == tor.TotalSize()
  {
    LastUnit(tor.TotalSize(), tor.blockSize);
    TimesMonotone(block, tor.BlockCount() - 1, tor.blockSize);
  }

  /** A byte of the linear space belongs to the block its position divides to. */
  lemma ByteInBlock(tor: Torrent, k: nat)
    requires tor.Valid() && k < tor.TotalSize()
    ensures Units(k, tor.blockSize) < tor.BlockCount()
    ensures k == tor.BlockStart(Units(k, tor.blockSize)) + Rest(k, tor.blockSize)
    ensures Rest(k, tor.blockSize) < tor.BlockBytes(Units(k, tor.blockSize))
  {
    UnitExists(tor.TotalSize(), tor.blockSize, k);
    UnitsSpec(k, tor.blockSize);
    BlocksTile(tor, Units(k, tor.blockSize));
  }

  /** Piece arithmetic and linear arithmetic agree: an offset within a piece and the position it stands
      for fall into the same block, at the same place. */
  lemma BlockOfPieceOffset(tor: Torrent, piece: nat, offset: nat)
    requires tor.Valid()
    ensures tor.PieceOffset(piece, offset) == tor.BlockStart(tor.Block(piece, offset)) + Rest(offset, tor.blockSize)
    ensures Units(tor.PieceOffset(piece, offset), tor.blockSize) == tor.Block(piece, offset)
    ensures Rest(tor.PieceOffset(piece, offset), tor.blockSize) == Rest(offset, tor.blockSize)
  {
    UnitsSpec(offset, tor.blockSize);
    TimesTimes(piece, tor.blocksPerPiece, tor.blockSize);
    TimesAdd(Times(piece, tor.blocksPerPiece), Units(offset, tor.blockSize), tor.blockSize);
    UnitsUnique(tor.PieceOffset(piece, offset), tor.blockSize, tor.Block(piece, offset));
  }

  lemma PieceInRange(tor: Torrent, piece: nat, offset: nat)
    requires tor.Valid() && tor.PieceOffset(piece, offset) < tor.TotalSize()
    ensures piece < tor.PieceCount()
  {
    UnitExists(tor.TotalSize(), tor.PieceSize(), Times(piece, tor.PieceSize()));
    UnitsUnique(Times(piece, tor.PieceSize()), tor.PieceSize(), piece);
  }

  lemma {:induction false} FileOffsetMonotone(tor: Torrent, i: nat, j: nat)
    requires i <= j <= |tor.fileLengths|
    ensures tor.FileOffset(i) <= tor.FileOffset(j)
    ensures i < j ==> tor.FileOffset(i) + tor.fileLengths[i] <= tor.FileOffset(j)
  {
    if i < j {
      FileOffsetMonotone(tor, i, j - 1);
    }
  }
}
