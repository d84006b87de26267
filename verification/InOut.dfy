/** Reading and writing a torrent's linear byte space through its files (inout.c). */
module InOut {
  import opened Base
  import opened Geometry

  const EINVAL := 22

  datatype Mode = Read | Prefetch | Write

  /** s with the bytes from position at on replaced by d */
  function Splice(s: seq<Byte>, at: nat, d: seq<Byte>): (r: seq<Byte>)
    requires at + |d| <= |s|
    ensures |r| == |s|
  {
    s[..at] + d + s[at + |d|..]
  }

  /** The first n files laid end to end */
  ghost function Flat(fs: seq<seq<Byte>>, n: nat): seq<Byte>
    requires n <= |fs|
  {
    if n == 0 then [] else Flat(fs, n - 1) + fs[n - 1]
  }

  /** fs holds, for each file of tor, as many bytes as the torrent says */
  ghost predicate Stores(fs: seq<seq<Byte>>, tor: Torrent) {
    |fs| == |tor.fileLengths| && forall i :: 0 <= i < |fs| ==> |fs[i]| == tor.fileLengths[i]
  }

  lemma {:induction false} FlatLength(fs: seq<seq<Byte>>, tor: Torrent, n: nat)
    requires Stores(fs, tor) && n <= |fs|
    ensures |Flat(fs, n)| == tor.FileOffset(n)
  {
    if n > 0 {
      FlatLength(fs, tor, n - 1);
    }
  }

  lemma SliceLeft(a: seq<Byte>, b: seq<Byte>, at: nat, len: nat)
    requires at + len <= |a|
    ensures (a + b)[at..at + len] == a[at..at + len]
  {
  }

  lemma SliceRight(a: seq<Byte>, b: seq<Byte>, at: nat, len: nat)
    requires at + len <= |b|
    ensures (a + b)[|a| + at..|a| + at + len] == b[at..at + len]
  {
  }

  /** A part of one file is the same part of the linear space, moved by the file's offset. */
  lemma {:induction false} FlatSlice(fs: seq<seq<Byte>>, tor: Torrent, n: nat, i: nat, at: nat, len: nat)
    requires Stores(fs, tor) && i < n <= |fs| && at + len <= |fs[i]|
    ensures tor.FileOffset(i) + at + len <= |Flat(fs, n)|
    ensures Flat(fs, n)[tor.FileOffset(i) + at..tor.FileOffset(i) + at + len] == fs[i][at..at + len]
  {
    if i < n - 1 {
      FlatSlice(fs, tor, n - 1, i, at, len);
      SliceLeft(Flat(fs, n - 1), fs[n - 1], tor.FileOffset(i) + at, len);
    } else {
      FlatLength(fs, tor, i);
      SliceRight(Flat(fs, i), fs[i], at, len);
    }
  }

  lemma {:induction false} FlatSame(fs: seq<seq<Byte>>, gs: seq<seq<Byte>>, n: nat)
    requires n <= |fs| && n <= |gs| && forall i :: 0 <= i < n ==> fs[i] == gs[i]
    ensures Flat(fs, n) == Flat(gs, n)
  {
    if n > 0 {
      FlatSame(fs, gs, n - 1);
    }
  }

  lemma SpliceLeft(a: seq<Byte>, b: seq<Byte>, at: nat, d: seq<Byte>)
    requires at + |d| <= |a|
    ensures Splice(a, at, d) + b == Splice(a + b, at, d)
  {
  }

  lemma SpliceRight(a: seq<Byte>, b: seq<Byte>, at: nat, d: seq<Byte>)
    requires at + |d| <= |b|
    ensures a + Splice(b, at, d) == Splice(a + b, |a| + at, d)
  {
  }

  /** fs has been overwritten in file i, and gs is the result. */
  ghost predicate Changed(fs: seq<seq<Byte>>, gs: seq<seq<Byte>>, i: nat, at: nat, d: seq<Byte>) {
    i < |fs| && at + |d| <= |fs[i]| && gs == fs[i := Splice(fs[i], at, d)]
  }

  lemma ChangedLast(fs: seq<seq<Byte>>, gs: seq<seq<Byte>>, i: nat, at: nat, d: seq<Byte>)
    requires Changed(fs, gs, i, at, d)
    ensures |Flat(fs, i)| + at + |d| <= |Flat(fs, i + 1)|
    ensures Flat(gs, i + 1) == Splice(Flat(fs, i + 1), |Flat(fs, i)| + at, d)
  {
    FlatSame(fs, gs, i);
    SpliceRight(Flat(fs, i), fs[i], at, d);
  }

  /** Overwriting part of one file overwrites the same part of the linear space and nothing else. */
  lemma {:induction false} FlatSplice(fs: seq<seq<Byte>>, gs: seq<seq<Byte>>, n: nat, i: nat, at: nat, d: seq<Byte>)
    requires Changed(fs, gs, i, at, d) && i < n <= |fs|
    ensures |Flat(fs, i)| + at + |d| <= |Flat(fs, n)|
    ensures Flat(gs, n) == Splice(Flat(fs, n), |Flat(fs, i)| + at, d)
  {
    if i < n - 1 {
      FlatSplice(fs, gs, n - 1, i, at, d);
      SpliceLeft(Flat(fs, n - 1), fs[n - 1], |Flat(fs, i)| + at, d);
    } else {
      ChangedLast(fs, gs, i, at, d);
    }
  }

  /** after is before with the first n bytes of data laid over it from position at on */
  ghost predicate Overwritten(before: seq<Byte>, after: seq<Byte>, at: nat, data: seq<Byte>, n: nat) {
    n <= |data| && at + n <= |before| && after == Splice(before, at, data[..n])
  }

  /** One pass moved k bytes between memory and position at. */
  ghost predicate Passed(mode: Mode, mid: seq<Byte>, after: seq<Byte>, at: nat, chunk: seq<Byte>, buf: seq<Byte>, k: nat) {
    && at + k <= |mid|
    && (mode == Write ==> |buf| == k && after == Splice(mid, at, buf))
    && (mode != Write ==> after == mid)
    && (mode == Read ==> chunk == mid[at..at + k])
  }

  /** n bytes from position at on have been transferred: into got, or out of data */
  ghost predicate Transferred(mode: Mode, before: seq<Byte>, now: seq<Byte>, at: nat, got: seq<Byte>, data: seq<Byte>, n: nat) {
    && at + n <= |before|
    && (mode == Read ==> got == before[at..at + n])
    && (mode == Write ==> Overwritten(before, now, at, data, n))
    && (mode != Write ==> now == before)
  }

  lemma TransferMore(mode: Mode, before: seq<Byte>, mid: seq<Byte>, after: seq<Byte>, at: nat,
                     got: seq<Byte>, chunk: seq<Byte>, data: seq<Byte>, buf: seq<Byte>, n: nat, k: nat)
    requires Transferred(mode, before, mid, at, got, data, n)
    requires mode == Write ==> n + k <= |data| && buf == data[n..n + k]
    requires Passed(mode, mid, after, at + n, chunk, buf, k)
    ensures Transferred(mode, before, after, at, got + chunk, data, n + k)
  {
  }

  lemma TransferStep(err: int, mode: Mode, before: seq<Byte>, mid: seq<Byte>, after: seq<Byte>, at: nat,
                     got: seq<Byte>, chunk: seq<Byte>, data: seq<Byte>, buf: seq<Byte>, n: nat, k: nat)
    requires Transferred(mode, before, mid, at, got, data, n)
    requires mode == Write ==> n + k <= |data| && buf == data[n..n + k]
    requires if err == 0 then Passed(mode, mid, after, at + n, chunk, buf, k) else after == mid
    ensures Transferred(mode, before, after, at, if err == 0 then got + chunk else got, data, if err == 0 then n + k else n)
  {
    if err == 0 {
      TransferMore(mode, before, mid, after, at, got, chunk, data, buf, n, k);
    }
  }

  /** The place fileOffset in file fileIndex is position at of the linear space. */
  ghost predicate Located(tor: Torrent, fileIndex: nat, fileOffset: nat, at: nat) {
    fileIndex < |tor.fileLengths| && fileOffset <= tor.fileLengths[fileIndex] && tor.FileOffset(fileIndex) + fileOffset == at
  }

  /** The end of one file is the beginning of the next, if the space goes on. */
  lemma NextFile(tor: Torrent, fileIndex: nat)
    requires fileIndex < |tor.fileLengths| && tor.FileOffset(fileIndex) + tor.fileLengths[fileIndex] < tor.TotalSize()
    ensures Located(tor, fileIndex + 1, 0, tor.FileOffset(fileIndex) + tor.fileLengths[fileIndex])
  {
  }

  /** How many of the first n transfers fail */
  ghost function Failures(outcome: nat -> int, n: nat): nat {
    if n == 0 then 0 else Failures(outcome, n - 1) + Failed(outcome(n - 1))
  }

  ghost function Failed(err: int): nat {
    if err == 0 then 0 else 1
  }

  lemma {:induction false} NoFailures(outcome: nat -> int, n: nat)
    requires forall k :: outcome(k) == 0
    ensures Failures(outcome, n) == 0
  {
    if n > 0 {
      NoFailures(outcome, n - 1);
    }
  }

  /** All torrents' files.  A file always holds its full length. */
  class Disk {
    const torrents: map<nat, Torrent>
    // what the system answers to each transfer: 0, or an error; and how many there have been
    const outcome: nat -> int
    var attempts: nat
    var files: map<nat, seq<seq<Byte>>>
    ghost var linear: map<nat, seq<Byte>>  // each torrent's files laid end to end

    ghost predicate Knows(tor: Torrent) {
      tor.Valid() && tor.uniqueId in torrents && torrents[tor.uniqueId] == tor
    }

    /** How many transfers have failed so far */
    ghost function Faults(): nat
      reads this`attempts
    {
      Failures(outcome, attempts)
    }

    ghost predicate Valid()
      reads this`files, this`linear
    {
      && (forall id :: id in torrents ==>
            Knows(torrents[id]) && torrents[id].uniqueId == id && id in linear && |linear[id]| == torrents[id].TotalSize())
      && (forall id {:trigger files[id]} {:trigger id in files} :: id in torrents ==>
            id in files && Stores(files[id], torrents[id]) && linear[id] == Flat(files[id], |files[id]|))
    }

    /** The linear byte space of tor as it stands on disk */
    ghost function Linear(tor: Torrent): (s: seq<Byte>)
      requires Valid() && Knows(tor)
      reads this`files, this`linear
      ensures |s| == tor.TotalSize()
    {
      linear[tor.uniqueId]
    }

    constructor (torrents: map<nat, Torrent>, files: map<nat, seq<seq<Byte>>>, outcome: nat -> int)
      requires forall id :: id in torrents ==>
        torrents[id].Valid() && torrents[id].uniqueId == id && id in files && Stores(files[id], torrents[id])
      ensures Valid() && this.torrents == torrents && this.files == files && this.outcome == outcome && Faults() == 0
    {
      this.torrents, this.files, this.outcome, attempts := torrents, files, outcome, 0;
      linear := map id | id in torrents :: Flat(files[id], |files[id]|);
      forall id | id in torrents
        ensures |Flat(files[id], |files[id]|)| == torrents[id].TotalSize()
      {
        FlatLength(files[id], torrents[id], |files[id]|);
      }
    }

    /** tr_pwrite of all the bytes */
    method WriteBytes(tor: Torrent, fileIndex: nat, fileOffset: nat, buf: seq<Byte>, ghost at: nat)
      requires Valid() && Knows(tor)
      requires Located(tor, fileIndex, fileOffset, at) && fileOffset + |buf| <= tor.fileLengths[fileIndex]
      modifies this`files, this`linear
      ensures Valid() && at + |buf| <= tor.TotalSize()
      ensures linear == old(linear)[tor.uniqueId := Splice(old(Linear(tor)), at, buf)]
    {
      var fs := files[tor.uniqueId];
      var gs := fs[fileIndex := Splice(fs[fileIndex], fileOffset, buf)];
      FlatLength(fs, tor, fileIndex);
      FlatSplice(fs, gs, |fs|, fileIndex, fileOffset, buf);
      files := files[tor.uniqueId := gs];
      linear := linear[tor.uniqueId := Splice(linear[tor.uniqueId], at, buf)];
    }

    /** tr_pread of all the bytes */
    method ReadBytes(tor: Torrent, fileIndex: nat, fileOffset: nat, buflen: nat, ghost at: nat) returns (got: seq<Byte>)
      requires Valid() && Knows(tor)
      requires Located(tor, fileIndex, fileOffset, at) && fileOffset + buflen <= tor.fileLengths[fileIndex]
      ensures at + buflen <= tor.TotalSize() && got == Linear(tor)[at..at + buflen]
    {
      ghost var fs := files[tor.uniqueId];
      FlatSlice(fs, tor, |fs|, fileIndex, fileOffset, buflen);
      got := files[tor.uniqueId][fileIndex][fileOffset..fileOffset + buflen];
    }

    /** "Use the fd" */
    method UseFile(mode: Mode, tor: Torrent, fileIndex: nat, fileOffset: nat, buf: seq<Byte>, buflen: nat, ghost at: nat)
      returns (got: seq<Byte>)
      requires Valid() && Knows(tor)
      requires Located(tor, fileIndex, fileOffset, at) && fileOffset + buflen <= tor.fileLengths[fileIndex]
      requires mode == Write ==> |buf| == buflen
      modifies this`files, this`linear
      ensures Valid() && Passed(mode, old(Linear(tor)), Linear(tor), at, got, buf, buflen)
      ensures forall t :: Knows(t) && t != tor ==> Linear(t) == old(Linear(t))
      ensures mode != Write ==> unchanged(this`files) && unchanged(this`linear)
    {
      got := [];
      match mode
      case Read => got := ReadBytes(tor, fileIndex, fileOffset, buflen, at);
      case Write => WriteBytes(tor, fileIndex, fileOffset, buf, at);
      case Prefetch => FileOffsetMonotone(tor, fileIndex, |tor.fileLengths|);
    }

    /** One low-level transfer inside one file.  An attempt on a non-empty file may fail, and then transfers nothing. */
    method ReadOrWriteBytes(mode: Mode, tor: Torrent, fileIndex: nat, fileOffset: nat, buf: seq<Byte>, buflen: nat, ghost at: nat)
      returns (err: int, got: seq<Byte>)
      requires Valid() && Knows(tor)
      requires Located(tor, fileIndex, fileOffset, at) && fileOffset + buflen <= tor.fileLengths[fileIndex]
      requires mode == Write ==> |buf| == buflen
      modifies this
      ensures Valid() && Faults() == old(Faults()) + Failed(err)
      ensures forall t :: Knows(t) && t != tor ==> Linear(t) == old(Linear(t))
      ensures mode != Write || err != 0 ==> unchanged(this`files) && unchanged(this`linear)
      ensures err == 0 ==> Passed(mode, old(Linear(tor)), Linear(tor), at, got, buf, buflen)
    {
      err, got := 0, [];
      FileOffsetMonotone(tor, fileIndex, |tor.fileLengths|);
      if tor.fileLengths[fileIndex] != 0 {
        err, attempts := outcome(attempts), attempts + 1;
        if err == 0 {
          got := UseFile(mode, tor, fileIndex, fileOffset, buf, buflen, at);
        }
      }
    }

    /** tr_ioFindFileLocation: the binary search of libc over the file table.  Files of length 0 compare
        as lying before every offset at or after them, so they are never found. */
    method FindFileLocation(tor: Torrent, piece: nat, pieceOffset: nat) returns (fileIndex: nat, fileOffset: nat)
      requires tor.Valid() && tor.PieceOffset(piece, pieceOffset) < tor.TotalSize()
      ensures fileIndex < |tor.fileLengths| && fileOffset < tor.fileLengths[fileIndex]
      ensures tor.FileOffset(fileIndex) + fileOffset == tor.PieceOffset(piece, pieceOffset)
    {
      var offset := tor.PieceOffset(piece, pieceOffset);
      var l, u := 0, |tor.fileLengths|;
      while l < u
        invariant l <= u <= |tor.fileLengths|
        invariant tor.FileOffset(l) <= offset < tor.FileOffset(u)
      {
        var idx := (l + u) / 2;
        if offset < tor.FileOffset(idx) {
          u := idx;
        } else if offset >= tor.FileOffset(idx) + tor.fileLengths[idx] {
          l := idx + 1;
        } else {
          return idx, offset - tor.FileOffset(idx);
        }
      }
      assert false;
    }

    /** One pass of the loop in readOrWritePiece, which has come walk bytes far */
    method OnePass(mode: Mode, tor: Torrent, fileIndex: nat, fileOffset: nat, data: seq<Byte>, walk: nat, bytesThisPass: nat,
                   ghost before: seq<Byte>, ghost o: nat, got: seq<Byte>)
      returns (err: int, more: seq<Byte>, ghost n: nat)
      requires Valid() && Knows(tor) && Transferred(mode, before, Linear(tor), o, got, data, walk)
      requires mode == Write ==> walk + bytesThisPass <= |data|
      requires Located(tor, fileIndex, fileOffset, o + walk) && fileOffset + bytesThisPass <= tor.fileLengths[fileIndex]
      modifies this
      ensures Valid() && Faults() == old(Faults()) + Failed(err)
      ensures mode != Write ==> unchanged(this`files) && unchanged(this`linear)
      ensures forall t :: Knows(t) && t != tor ==> Linear(t) == old(Linear(t))
      ensures n == if err == 0 then walk + bytesThisPass else walk
      ensures Transferred(mode, before, Linear(tor), o, more, data, n)
    {
      var buf := if mode == Write then data[walk..walk + bytesThisPass] else [];
      ghost var mid := Linear(tor);
      var chunk;
      err, chunk := ReadOrWriteBytes(mode, tor, fileIndex, fileOffset, buf, bytesThisPass, o + walk);
      TransferStep(err, mode, before, mid, Linear(tor), o, got, chunk, data, buf, walk, bytesThisPass);
      more, n := if err == 0 then got + chunk else got, if err == 0 then walk + bytesThisPass else walk;
    }

    /** The loop of readOrWritePiece: from a place in one file on through the files that follow. */
    method TransferFrom(mode: Mode, tor: Torrent, firstFile: nat, firstOffset: nat, data: seq<Byte>, length: nat, ghost o: nat)
      returns (err: int, got: seq<Byte>, ghost n: nat)
      requires Valid() && Knows(tor)
      requires mode == Write ==> |data| == length
      requires Located(tor, firstFile, firstOffset, o) && o + length <= tor.TotalSize()
      modifies this
      ensures Valid() && Faults() == old(Faults()) + Failed(err)
      ensures mode != Write ==> unchanged(this`files) && unchanged(this`linear)
      ensures forall t :: Knows(t) && t != tor ==> Linear(t) == old(Linear(t))
      ensures n <= length && (err == 0 ==> n == length)
      ensures Transferred(mode, old(Linear(tor)), Linear(tor), o, got, data, n)
    {
      err, got, n := 0, [], 0;
      var fileIndex: nat, fileOffset: nat, walk: nat, buflen: nat := firstFile, firstOffset, 0, length;
      while buflen > 0 && err == 0
        invariant Valid() && Faults() == old(Faults()) + Failed(err) && walk + buflen == length
        invariant mode != Write ==> unchanged(this`files) && unchanged(this`linear)
        invariant forall t :: Knows(t) && t != tor ==> Linear(t) == old(Linear(t))
        invariant n <= walk && (err == 0 ==> n == walk)
        invariant err == 0 && buflen > 0 ==> Located(tor, fileIndex, fileOffset, o + walk)
        invariant Transferred(mode, old(Linear(tor)), Linear(tor), o, got, data, n)
        decreases buflen, if err == 0 then |tor.fileLengths| - fileIndex else 0
      {
        var leftInFile := tor.fileLengths[fileIndex] - fileOffset;
        var bytesThisPass := if buflen < leftInFile then buflen else leftInFile;
        err, got, n := OnePass(mode, tor, fileIndex, fileOffset, data, walk, bytesThisPass, old(Linear(tor)), o, got);
        if bytesThisPass < buflen {
          NextFile(tor, fileIndex);
        }
        walk, buflen := walk + bytesThisPass, buflen - bytesThisPass;
        fileIndex, fileOffset := fileIndex + 1, 0;
      }
    }

    /** readOrWritePiece: one transfer in the linear space becomes transfers in consecutive files. */
    method ReadOrWritePiece(mode: Mode, tor: Torrent, piece: nat, pieceOffset: nat, data: seq<Byte>, length: nat)
      returns (err: int, got: seq<Byte>)
      requires Valid() && Knows(tor)
      requires mode == Write ==> |data| == length
      requires piece < tor.PieceCount() ==>
        tor.PieceOffset(piece, pieceOffset) < tor.TotalSize() && tor.PieceOffset(piece, pieceOffset) + length <= tor.TotalSize()
      modifies this
      ensures Valid()
      ensures tor.PieceCount() <= piece ==> err == EINVAL
      ensures piece < tor.PieceCount() ==> Faults() == old(Faults()) + Failed(err)
      ensures tor.PieceCount() <= piece ==> Faults() == old(Faults())
      ensures mode != Write || tor.PieceCount() <= piece ==> unchanged(this`files) && unchanged(this`linear)
      ensures forall t :: Knows(t) && t != tor ==> Linear(t) == old(Linear(t))
      ensures mode == Read && err == 0 ==>
        got == Linear(tor)[tor.PieceOffset(piece, pieceOffset)..tor.PieceOffset(piece, pieceOffset) + length]
      ensures mode == Write && piece < tor.PieceCount() ==>
        exists n: nat :: (err == 0 ==> n == |data|)
          && Overwritten(old(Linear(tor)), Linear(tor), tor.PieceOffset(piece, pieceOffset), data, n)
    {
      if tor.PieceCount() <= piece {
        return EINVAL, [];
      }
      var fileIndex, fileOffset := FindFileLocation(tor, piece, pieceOffset);
      ghost var n;
      err, got, n := TransferFrom(mode, tor, fileIndex, fileOffset, data, length, tor.PieceOffset(piece, pieceOffset));
    }
  }
}
