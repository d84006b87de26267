# A verified model of the BitTorrent core

This project models the parts of `src/libtransmission` whose correctness is not obvious from reading
one function, and proves what they are for. It is written in Dafny 4.11; `dafny verify dfyconfig.toml`
checks all of it.

Code that works by changing state is modelled by classes and loops with the same fields, branches and
constants, and each such method is proved against a specification on values. The theorems are about
those specifications, or are the contracts themselves.

| component | files | what it stands for |
|---|---|---|
| Block cache | `Units`, `Geometry`, `InOut`, `PtrArray`, `CacheModel`, `CacheRuns`, `CacheRanks`, `Cache`, `CacheHistories` | Cache and files together are one flat byte array per torrent, over whole runs of writes, reads, flushes and limit changes. |
| Piece hashes | `PieceHashes`, `FreshTorrent` | The hashes a torrent is made with are the ones found when its pieces are checked through the cache, before and after any use of it. |
| Bencode | `BencodeValue`, `BencodeParser`, `BencodeRoundTrip`, `BencodeGrammar`, `BencodeWriter`, `BencodeMeaning`, `BencodeDicts` | The stack machines that parse and write equal their recursive forms; the parser accepts exactly the language of a grammar, and the writer keeps to its strict part; parsing undoes writing; which strings are misread; the text is a canonical form; the rules of merging hold at every depth. |
| Bitfields and completion | `BitArray`, `Bitfield`, `CompletionModel`, `Completion` | A compressed bitfield is a set of numbers; the running and cached byte totals are sums over that set. |
| Bandwidth | `BandwidthModel`, `Bandwidth`, `RateRing` | Limits on a tree are never exceeded by those who honour them, and what they leave is handed out; the ring behind the measured rates forgets nothing that still counts. |
| UDP tracker | `TrackerModel`, `TrackerRuns`, `TrackerConnections`, `TrackerDeadlines`, `TrackerOutcomes`, `TrackerCauses`, `TrackerProgress`, `Tracker` | Over every run, each request is sent at most once and answered at most once, every answer is the packet that came for it and every failure has its cause, none is dropped in silence, every late one is answered after three upkeeps, and every packet carries a live connection id. |
| Peer protocol | `PeerFraming`, `PeerReader`, `PeerMessages`, `PeerRequests`, `PeerExchange` | When it matters how a stream is cut, and that in the end it does not; what one client writes the other reads; every request is accounted for, and what is queued is served; deltas keep the other side up to date. |
| Handshake | `HandshakeModel`, `Handshake` | Encryption that is required is there, and what is preferred is used where it is offered; the negotiation moves one way, ends once, and well exactly if the peer is good. |
| Text and lists | `Utf`, `UtfConversion`, `Blocklist` | Validation, conversion and search are fast forms of simple definitions. |

What the world decides (clocks, random numbers, the network, DNS answers, which piece is complete, the keys of
the handshake) enters as parameters, inputs or free choices. Which transfers to and from the disk fail, and which
files can be opened, is given by functions that nothing is assumed of. SHA-1 is a parameter.

## Where the code does something else

These are theorems too; each names the exact condition, or a concrete input.

- `tr_cacheReadBlock` copies the head of a cached block whatever offset was asked for, and does not look
  at later blocks when the first one is not cached. `CacheModel.ReadExactness` gives the reads it gets
  right: exactly those that pass `SafeRead`.
- `clientGotBlock` checks the length of a block, but not that its offset begins one. A new cached block is read at the place
  it is going to be written to if and only if it does (`CacheModel.AlignedWritesOnly`).
- `tr_cacheFlushDone` stops at the first run that is neither done nor spans pieces, and a run like that
  comes before the others once it is long or old enough. `CacheRanks.FlushDoneExactly` gives the condition in lengths,
  ages and flags, and `CacheRanks.CompletedPieceStays` an array in which a piece that is complete stays cached.
- `tr_bencParseStr` adds a length of up to 2^64 - 1 to a pointer. The end it finds is inside the buffer if and only if the
  sum does not wrap around (`BencodeParser.EndIsInside`); "18446744073709551615:" makes it go on with the colon
  (`BencodeParser.LargestLengthWraps`).
- `tr_bencInitStr` takes the length of a string as an `int`: longer strings are stored with another length
  (`BencodeParser.StoredAsItIs`) and do not come back (`BencodeRoundTrip.LongStringIsLost`).
- `allocateBandwidth` casts the product of speed and period to 32 bits before dividing
  (`BandwidthModel.GrantIsSpeed`): with the period of 500 ms, limits from 8589935 bytes a second on wrap around.
- `tr_bitfieldRem` tests for the opposite of what it should (`Bitfields.Bitfield.Rem`), and
  `tr_bitfieldSetFromFlags` fails on a full field unless it stays full or becomes empty
  (`Bitfields.Bitfield.SetFromFlags`).
- Saved progress is read back as complete when the raw bytes of the block bitfield happen to spell "all", and
  as empty when they spell "none" (`Bitfields.SaveAndLoad`, `Bitfields.SomeFieldSpells`).
- `isLegalUTF8` accepts an ASCII byte after F4 (`Utf.LegalOrStray`, `Utf.StrayIsLetThrough`). The exact
  effect on validation is the contract of `Utf.Utf8Validate`.
- `readBtPiece` goes on reading past the end of a piece message without data, and `readBtMessage` does not leave its stage
  after a message it refuses (`PeerFraming.FrameEnds`).
- `canReadWrapper` stops at a block or a message that is refused and leaves what has come in the same chunk unread, until
  something else comes. `PeerFraming.CutShows` is a stream for which the cut shows, and `PeerFraming.FramesDecide`
  says of the frames of a stream exactly when it does not; `PeerFraming.SettledAlike` holds for all of them.
- `readCryptoSelect` accepts any answer that has the bit for encryption among others, and the answer is then used as it is
  (`HandshakeModel.SelectedIsTakenOver`, `HandshakeModel.BothSelectedIsTaken`); but the first byte of the handshake that
  follows overrides it (`HandshakeModel.FirstByteDecides`), even after encryption was selected and where it is preferred
  (`HandshakeModel.SelectedButPlain`).
- `gotError` gives up a handshake right after it has replaced its uTP connection. Over a whole run, a handshake lives
  through one failure at most (`HandshakeModel.SurvivesOnce`).
- A request of a peer without the fast extension can be dropped without an answer. Exactly which ones is
  `PeerRequests.LostBy`, and `PeerRequests.EveryRequestIsAnsweredOrLost` accounts for them.
- The asserts of `tr_bandwidthSetParent` find cycles of length one and two only. The exact condition is
  `BandwidthModel.MoveKeepsForest`.

## Model

| member | source | states |
|---|---|---|
| UnitArithmetic.TimesIsProduct | src/libtransmission/torrent.c:2345-2358 | The recursion behind all products of a number and a size is the product. |
| UnitArithmetic.UnitsIsQuotient | src/libtransmission/torrent.c:2345-2358 | The recursions behind all quotients and remainders by a size are the quotient and the remainder. |
| Geometry.BlocksTile | src/libtransmission/torrent.h:297-302 | The blocks tile the bytes of a torrent: all are full but the last, and the last one ends at the total size. |
| Geometry.ByteInBlock | src/libtransmission/torrent.h:297-302 | Every byte lies in the block its position divides to, at the remainder. |
| Geometry.BlockOfPieceOffset | src/libtransmission/torrent.c:2345-2358 | An offset in a piece and the linear position it stands for fall into the same block at the same place. |
| CompletionModel.PieceSpan | src/libtransmission/torrent.c:2424-2435 | The block range of a piece begins where the one of the piece before ends, and none is empty. |
| CompletionModel.PieceIsItsBlocks | src/libtransmission/torrent.h:289-294 | A piece has as many bytes as its blocks together, also when the last ones are short. |
| PtrArrays.PtrArray.Insert | src/libtransmission/ptrarray.c:60-81 | The element is put at the position asked for, or at the end when that is out of range; everything else keeps its order. |
| PtrArrays.PtrArray.Erase | src/libtransmission/ptrarray.c:94-109 | Exactly the given stretch is gone; a negative end means the end of the array. |
| PtrArrays.PtrArray.LowerBound | src/libtransmission/ptrarray.c:115-165 | Binary search returns the position that separates the elements below the key from the others, and says whether one equals it. |
| PtrArrays.PtrArray.InsertSorted | src/libtransmission/ptrarray.c:179-194 | A sorted array without equal elements stays one. |
| PtrArrays.PtrArray.FindSorted | src/libtransmission/ptrarray.c:196-204 | An element equal to the key is found if and only if there is one. |
| InOut.Disk.FindFileLocation | src/libtransmission/inout.c:169-194 | The search over the file table ends in a file with bytes at that position, never in an empty file or past the end. |
| InOut.Disk.ReadOrWriteBytes | src/libtransmission/inout.c:42-152 | A transfer inside one file is the same transfer at the file's offset in the linear space; other torrents keep their bytes; a failure changes nothing, and there is an error exactly if the transfer failed. |
| InOut.Disk.TransferFrom | src/libtransmission/inout.c:216-233 | The loop over consecutive files transfers one stretch of the linear space, empty files included; it ends at the first transfer that fails, and then what was written is a prefix of the data. |
| InOut.Disk.ReadOrWritePiece | src/libtransmission/inout.c:197-236 | Reading returns the stretch of the linear space, writing replaces exactly that stretch, unless a transfer fails; and a piece past the end is refused without effect. |
| CacheModel.FlushSettles | src/libtransmission/cache.c:168-198 | Writing out a run leaves the logical bytes as they were if all of it reached the disk; if only a part did, no byte is one that was in neither place before. |
| CacheModel.FlushOther | src/libtransmission/cache.c:168-198 | Flushing a run of one torrent does not change what another one holds. |
| CacheModel.StoreImage | src/libtransmission/cache.c:325-357 | Caching a block replaces exactly its stretch of its torrent's logical bytes. |
| CacheModel.AlignedRead | src/libtransmission/cache.c:359-376 | A read that begins at a block and stays in it returns the logical bytes, cached or not. |
| CacheModel.AlignedWritesOnly | src/libtransmission/cache.c:325-357 | Whatever its bytes, a new block stands in the cache for the bytes at the place it is flushed to, if and only if its offset begins a block. |
| CacheModel.ReadExactness | src/libtransmission/cache.c:359-376 | A read returns the logical bytes, whatever they are, if and only if it is safe: at the start of a cached block and inside it, or with none of its blocks cached. |
| CacheModel.FlushedFileIsOnDisk | src/libtransmission/cache.c:430-456 | When none of the blocks of a file is cached, the file on disk holds its logical bytes. |
| CacheModel.FlushedTorrentIsOnDisk | src/libtransmission/cache.c:458-476 | When none of its blocks is cached, the disk holds a torrent's logical bytes. |
| CacheRuns.RunLengthMaximal | src/libtransmission/cache.c:81-113 | A run is a stretch of consecutive blocks of one torrent that cannot be made longer. |
| CacheRuns.RunsPartition | src/libtransmission/cache.c:135-166 | The runs cover every cached block exactly once, and none could be longer. |
| CacheRuns.SortByRank | src/libtransmission/cache.c:116-122 | Sorting by rank reorders the runs without losing any, the highest rank first. |
| CacheRuns.StillNames | src/libtransmission/cache.c:200-218 | After other runs have been erased, a run at its repaired position names the very blocks it named at the start. |
| CacheRuns.ShiftStands | src/libtransmission/cache.c:212-214 | The repair of a position is right: it counts exactly the blocks before the run that have been erased. |
| CacheRuns.KeptOneMore | src/libtransmission/cache.c:190-190 | Erasing one more run from what the earlier ones have left is the same as never having kept it. |
| CacheRuns.MoveLater | src/libtransmission/cache.c:212-214 | The inner loop repairs the position of every run still to come. |
| CacheRuns.LeadingRuns | src/libtransmission/cache.c:234-235 | The runs that are taken make up the cutoff, and without the last of them they do not; the index never passes the number of runs, because all of them together are larger than the cutoff. |
| CacheRuns.TrimmedSize | src/libtransmission/cache.c:231-236 | However the highest ranked runs are chosen that make up the cutoff, at least that many blocks are gone without them. |
| CacheRuns.NextRunWithin | src/libtransmission/cache.c:440-453 | Flushing the run that has moved up to a position takes one more of the runs that were in the array at first and begin in the range. |
| CacheRuns.LeadingFlagged | src/libtransmission/cache.c:420-421 | The longest prefix of runs that are done or span pieces is taken, and marked without moving a run. |
| CacheRanks.AllTakenExactly | src/libtransmission/cache.c:407-428 | Everything that is done or spans pieces is taken, however the sort settles ties, if and only if each of it outranks every other run. |
| CacheRanks.AllMayBeTakenExactly | src/libtransmission/cache.c:407-428 | Some way of settling ties takes it all if and only if no other run outranks any of it. |
| CacheRanks.FlushDoneExactly | src/libtransmission/cache.c:135-166 | The same condition for the runs of a cache, in their lengths, ages and flags. |
| CacheRanks.BonusIsAdded | src/libtransmission/cache.c:146-156 | For runs that are not as long, or have not waited as long, as 4096 counts, the flags are plain additions to the rank. |
| CacheRanks.CompletedPieceStays | src/libtransmission/cache.c:407-428 | A sound cache in which a complete piece has come and an older block is incomplete is left as it is. |
| Caches.Cache.constructor | src/libtransmission/cache.c:273-281 | An empty cache holds exactly what the disk holds. |
| Caches.Cache.FindBlock | src/libtransmission/cache.c:313-323 | A block is found if and only if it is cached. |
| Caches.Cache.FindBlockPos | src/libtransmission/cache.c:398-405 | The position separates the blocks before the one asked for from the others. |
| Caches.Cache.FlushContiguous | src/libtransmission/cache.c:168-198 | The run is gone from the cache, and without an error no torrent's contents change; with one, nothing is made up. |
| Caches.Cache.GetBlockRun | src/libtransmission/cache.c:81-113 | The loop finds the whole run, and records where it begins, how long it is, when its last block came, whether that one's piece is complete, and whether the run spans pieces. |
| Caches.Cache.CalcRuns | src/libtransmission/cache.c:135-166 | The result is a ranking of the maximal runs; they do not overlap and add up to the whole array. |
| Caches.Cache.FlushRuns | src/libtransmission/cache.c:200-218 | What remains are the blocks outside the runs that were flushed, in order; contents are unchanged when nothing failed. |
| Caches.Cache.CacheTrim | src/libtransmission/cache.c:220-241 | A cache at or below its limit stays as it is. From one above it exactly the highest ranked of its maximal runs are flushed, as many as make up a quarter of the limit and one block, and without the last of which they do not; and contents do not change. |
| Caches.Cache.SetLimit | src/libtransmission/cache.c:253-265 | The limit in blocks is the byte limit divided by the block size, the cache is trimmed to it by rank as above, and no contents change. |
| Caches.Cache.FlushDone | src/libtransmission/cache.c:407-428 | The runs are ranked, and exactly those in front of the first one that is neither of a complete piece nor spans pieces are flushed, without a change of contents. |
| Caches.Cache.FlushFile | src/libtransmission/cache.c:430-456 | Exactly the blocks go that are in runs which begin in the file's blocks; without an error none of the file is cached afterwards, and no contents change. |
| Caches.Cache.FlushTorrent | src/libtransmission/cache.c:458-476 | Exactly the torrent's own blocks go; without an error none of them is cached afterwards, and no contents change. |
| Caches.Cache.Store | src/libtransmission/cache.c:333-351 | The block replaces the bytes and the time of the one that is cached, or is inserted between its neighbours; the contents change by exactly its bytes. |
| Caches.Cache.WriteBlock | src/libtransmission/cache.c:325-357 | The contents change by exactly the block written; the blocks are those with this one stored, trimmed by rank if that is over the limit; and a cache within its limit stays within it. |
| Caches.Cache.ReadBlock | src/libtransmission/cache.c:359-376 | An aligned read within one block returns the contents unless a transfer fails, and reading changes nothing. |
| CacheHistories.LastWriteWins | src/libtransmission/cache.c:325-376 | In the flat array a byte is the one written last. |
| CacheHistories.NeverWritten | src/libtransmission/cache.c:325-376 | A byte of the flat array that no operation wrote is the original one. |
| CacheHistories.ReadsLastWrite | src/libtransmission/cache.c:325-376 | In a run, each byte that is read is the one that the last write before it has put there. |
| CacheHistories.ReadsOriginal | src/libtransmission/cache.c:325-376 | A byte that was not written before it is read is the original one. |
| CacheHistories.Perform | src/libtransmission/cache.c:253-476 | Each operation does to the contents what it does to a flat byte array: only writes change it, and reads return it. |
| CacheHistories.PerformAll | src/libtransmission/cache.c:325-376 | Any run of operations ends without an error exactly if no transfer fails; then, with the clock and the complete pieces changing between them, every torrent holds what a flat array would hold and every read has returned what it would return. |
| CacheHistories.PerformAndFlush | src/libtransmission/cache.c:458-476 | After any such run, flushing a torrent puts on disk what all its writes together come to, unless a transfer fails. |
| PieceHashes.ReadPiece | src/libtransmission/makemeta.c:234-262 | Reading one piece's worth of bytes across files, in whatever portions they come, returns that stretch of all the files laid end to end. |
| PieceHashes.GetHashInfo | src/libtransmission/makemeta.c:197-288 | There are hashes exactly if every file that is opened can be: one for each piece, each of the successive chunk of all the files laid end to end. |
| PieceHashes.RecalculateHash | src/libtransmission/inout.c:271-308 | Exactly if no transfer fails a hash is found, and it is that of the piece's logical bytes, read through the cache. |
| PieceHashes.TestPiece | src/libtransmission/inout.c:310-317 | A piece passes if and only if no transfer fails and its logical bytes have the hash in the torrent. |
| FreshTorrents.TestAll | src/libtransmission/inout.c:271-317 | Unless a transfer fails, exactly the pieces pass whose logical bytes have the hash the original ones had; a piece with another hash never passes; and all pass only if no transfer fails. |
| FreshTorrents.MakeRunAndTest | src/libtransmission/inout.c:271-317 | Hashes are made of the files on disk, then the cache is used in any way. Unless a transfer fails, the pieces are tested exactly if the files can be opened, and exactly those pass whose bytes still have their hash after all the writes. |
| FreshTorrents.MakeAndTest | src/libtransmission/makemeta.c:197-288 | A torrent made from files verifies: over a new disk and cache with the same files, if the files can be opened and no transfer fails, every piece passes. |
| BencodeValues.DigitsRoundTrip | src/libtransmission/bencode.c:1129-1133 | Decimal text reads back as the number it was written from, without leading zeroes. |
| BencodeParser.ParseInt | src/libtransmission/bencode.c:87-118 | What is parsed lies inside the buffer, and parsing goes on behind it. |
| BencodeParser.ParseStr | src/libtransmission/bencode.c:126-159 | A string that is read ends behind its length and inside the buffer. |
| BencodeParser.EndIsInside | src/libtransmission/bencode.c:151-154 | The end found for a string is behind it and inside the buffer, or it is refused, if and only if the address of that end does not wrap around. |
| BencodeParser.StoredAsItIs | src/libtransmission/bencode.c:611-620 | A string is stored as it is if and only if its length fits an int. |
| BencodeParser.WildExactly | src/libtransmission/bencode.c:126-159 | Reading a string goes wrong if and only if the address of its end wraps around or a string that is there has a length that fits no int. |
| BencodeParser.LargestLengthWraps | src/libtransmission/bencode.c:145-156 | For the length 18446744073709551615, wherever the buffer lies, parsing would go on with the colon. |
| BencodeParser.OutcomeOfOpening | src/libtransmission/bencode.c:255-272 | Pushing a container on the stack leads to the same result as descending into it. |
| BencodeParser.OutcomeOfValue | src/libtransmission/bencode.c:187-211 | Handing a finished value to the innermost container leads to the same result as returning it. |
| BencodeParser.ParseImpl | src/libtransmission/bencode.c:218-324 | The parser with its explicit stack returns on every input what recursive descent returns: value and end, failure, or the place of the first string that is misread. |
| BencodeParser.WildIsStrange | src/libtransmission/bencode.c:218-324 | A parse is led astray only at a length for which addresses wrap around or which fits no int. |
| BencodeParser.TameParses | src/libtransmission/bencode.c:218-324 | If no place in the buffer has such a length, parsing ends with a value inside the buffer or with an error. |
| BencodeRoundTrip.IntTextRoundTrip | src/libtransmission/bencode.c:87-118 | The text of every 64-bit integer parses back to it, and contains no e. |
| BencodeRoundTrip.ParseTextHere | src/libtransmission/bencode.c:218-324 | Wherever the text of a value stands in a buffer, parsing there returns the value and stops at the end of the text. |
| BencodeRoundTrip.RoundTrip | src/libtransmission/bencode.c:1620-1647 | For values whose strings fit an int, parsing the serialised text followed by anything, anywhere in memory, returns the value with its dictionaries sorted and stops exactly at the end. |
| BencodeRoundTrip.LongStringIsLost | src/libtransmission/bencode.c:611-620 | The text of a string parses back to it if and only if its length fits an int. |
| BencodeGrammar.StrtollExactly | src/libtransmission/bencode.c:107-114 | Exactly spaces, a sign and digits that fit 64 bits, or nothing at all, convert to a number. |
| BencodeGrammar.IntExactly | src/libtransmission/bencode.c:87-118 | An integer is read exactly if an i, such a number up to the first e, and that e stand there, and it has no leading zero unless it is zero. |
| BencodeGrammar.StrExactly | src/libtransmission/bencode.c:126-159 | A string is read exactly if its length in digits, a colon and as many bytes stand there, and the length fits an int. |
| BencodeGrammar.ReadIsDenoted | src/libtransmission/bencode.c:218-324 | Whatever the parser makes of a place in a buffer, the grammar derives from the bytes there. |
| BencodeGrammar.DenotedIsRead | src/libtransmission/bencode.c:218-324 | Whatever the grammar derives from the bytes at a place, the parser reads there. |
| BencodeGrammar.ParsesExactly | src/libtransmission/bencode.c:218-324 | Parsing gives a value and an end if and only if the grammar derives that value from the bytes up to there, behind bytes that begin nothing. |
| BencodeGrammar.StrictIsText | src/libtransmission/bencode.c:1037-1179 | Without anything to pass over and with plain decimals, the grammar derives each value from one text only, the writer's. |
| BencodeGrammar.WrittenExactly | src/libtransmission/bencode.c:1620-1647 | What is written for a value is the one strict text of its sorted form, and nothing else is. |
| BencodeGrammar.BoolIsWritten | src/libtransmission/bencode.c:1135-1142 | Booleans are written as the integers 1 and 0. |
| BencodeWriter.SerialisedInParts | src/libtransmission/bencode.c:1037-1123 | A value's text is its opening, its children in the order of their keys, and its closing. |
| BencodeWriter.NodeInitDict | src/libtransmission/bencode.c:944-983 | The children of a dictionary are its keys and values in turn, in the order of the keys. |
| BencodeWriter.NodeInit | src/libtransmission/bencode.c:1008-1017 | A new node has its children in visiting order and none of them visited. |
| BencodeWriter.SaveFunc | src/libtransmission/bencode.c:1129-1179 | A value met for the first time writes its scalar text or its opening. |
| BencodeWriter.VisitChild | src/libtransmission/bencode.c:1059-1107 | Visiting the next child moves exactly its text from pending to written, and leaves less to do. |
| BencodeWriter.BencWalk | src/libtransmission/bencode.c:1037-1123 | The walker with its explicit stack ends on every tree and writes what the recursive writer that sorts by key writes. |
| BencodeMeaning.SortPairsSorted | src/libtransmission/bencode.c:925-933 | Distinct keys that are C strings come out strictly ascending in the order of strcmp. |
| BencodeMeaning.StrCmpOrders | src/libtransmission/bencode.c:925-933 | On C strings, strcmp is the order by the first byte in which they differ, the end before everything else. |
| BencodeMeaning.OnlyOneOrder | src/libtransmission/bencode.c:925-933 | Distinct keys that are C strings have one sorted order only, so that it does not matter what the sort does with equal ones. |
| BencodeMeaning.CanonicalUnique | src/libtransmission/bencode.c:1037-1123 | A sorted value is the only one with its meaning. |
| BencodeMeaning.CanonIsCanonical | src/libtransmission/bencode.c:944-983 | What is serialised is sorted at every depth and means what the value means. |
| BencodeMeaning.SameMeaningSameText | src/libtransmission/bencode.c:1037-1123 | Two values that mean the same have the same text. |
| BencodeMeaning.AnyInsertionOrder | src/libtransmission/bencode.c:944-983 | The order in which pairs were put into a dictionary does not show in its text. |
| BencodeMeaning.TextIsCanonical | src/libtransmission/bencode.c:1620-1647 | Two values have the same text if and only if they mean the same. |
| BencodeMeaning.CanonTwice | src/libtransmission/bencode.c:944-983 | Sorting a sorted value changes nothing. |
| BencodeMeaning.Reserialise | src/libtransmission/metainfo.c:416-424 | Text that has been serialised once comes out byte for byte the same when it is parsed and serialised again, which the info hash relies on. |
| BencodeDicts.MergedWithEmpty | src/libtransmission/bencode.c:1546-1614 | Merging into an empty dictionary copies the source. |
| BencodeDicts.MergedFollows | src/libtransmission/bencode.c:1546-1614 | At the end of every path of keys along which both sides have dictionaries, the merge has the keys of both, the source's scalars, its lists and dictionaries only where the target has nothing, and else what the target has. |
| BencodeDicts.DictIndexOf | src/libtransmission/bencode.c:378-397 | The first pair with the key is found, if there is one. |
| BencodeDicts.DictRemove | src/libtransmission/bencode.c:894-913 | Moving the last pair into the gap removes exactly the key from what the dictionary means. |
| BencodeDicts.DictSet | src/libtransmission/bencode.c:771-807 | Setting a key changes what the dictionary means at that key only, whatever was there and of whatever type. |
| BencodeDicts.ListCopy | src/libtransmission/bencode.c:1472-1515 | Copying a list appends values that mean what those of the source mean, in order. |
| BencodeDicts.MergeOne | src/libtransmission/bencode.c:1551-1612 | One key of the source ends up as the rules say: a scalar replaces, a list is taken only where nothing was, a dictionary merges into a dictionary and leaves anything else alone; every other key keeps its value. |
| BencodeDicts.MergeDicts | src/libtransmission/bencode.c:1546-1614 | At every depth at which dictionaries meet, the same rules hold of every key: the keys are the union, scalars of the source win, an existing entry beats a list, and a dictionary leaves anything but a dictionary alone. |
| BitArrays.CountIsCardinality | src/libtransmission/bitfield.c:47-57 | A count over a range is the number of its members. |
| BitArrays.CountArray | src/libtransmission/bitfield.c:47-57 | Adding up the table over all bytes counts the bits that are set. |
| BitArrays.CountRange | src/libtransmission/bitfield.c:59-119 | Masking the bytes at both ends and the table in between count exactly the bits of the range, also past the end of the array. |
| BitArrays.SetRange | src/libtransmission/bitfield.c:376-392 | The two masks and the fill set exactly the bits of the range. |
| BitArrays.ClearRange | src/libtransmission/bitfield.c:426-442 | The two masks and the fill clear exactly the bits of the range. |
| Bitfields.SetAllTrue | src/libtransmission/bitfield.c:161-170 | All bits below the count are set and no excess bit is. |
| Bitfields.Bitfield.MembersCounted | src/libtransmission/bitfield.h:90-115 | The count is the number of members, and an array that exists holds just them. |
| Bitfields.Bitfield.constructor | src/libtransmission/bitfield.c:258-269 | A new bitfield has no members and no array. |
| Bitfields.Bitfield.SetHasNone | src/libtransmission/bitfield.c:271-280 | No members are left, and the array is dropped. |
| Bitfields.Bitfield.SetHasAll | src/libtransmission/bitfield.c:282-291 | All numbers are members, and the array is dropped. |
| Bitfields.Bitfield.SetTrueCount | src/libtransmission/bitfield.c:231-240 | The array is dropped when all or none are set; the result is consistent exactly when the count is right. |
| Bitfields.Bitfield.EnsureBitsAlloced | src/libtransmission/bitfield.c:194-214 | There is room for the bits, and every member keeps its bit, also when the array was dropped because all were set. |
| Bitfields.Bitfield.CountRange | src/libtransmission/bitfield.c:121-131 | The number of members in any range inside the field, whether or not there is an array. |
| Bitfields.Bitfield.Add | src/libtransmission/bitfield.c:350-359 | One number becomes a member and nothing else changes. |
| Bitfields.Bitfield.AddRange | src/libtransmission/bitfield.c:362-395 | The numbers of the range become members if the range is inside the field; otherwise nothing changes. |
| Bitfields.Bitfield.RemRange | src/libtransmission/bitfield.c:411-445 | The numbers of the range cease to be members if the range is inside the field; otherwise nothing changes. |
| Bitfields.Bitfield.SetRaw | src/libtransmission/bitfield.c:304-327 | The members are the bits of the raw bytes below the count; excess bits are cleared. |
| Bitfields.Bitfield.SetFromBitfield | src/libtransmission/bitfield.c:293-302 | The members become those of the other field. |
| Bitfields.Bitfield.GetRaw | src/libtransmission/bitfield.c:172-192 | The raw bytes have the members' bits and no others, whether or not there is an array. |
| Bitfields.Bitfield.SetFromFlags | src/libtransmission/bitfield.c:329-348 | The members are the flags that are up if and only if the field was not full, or is to be full again or empty. |
| Bitfields.Bitfield.Rem | src/libtransmission/bitfield.c:397-408 | It never removes the bit it is asked to and keeps the count right. |
| Bitfields.Save | src/libtransmission/resume.c:404-418 | A full or empty field is saved as a word, any other as the bits of its members. |
| Bitfields.Load | src/libtransmission/resume.c:579-607 | A word is read as a full or an empty field, anything else as the members of the bits below the count. |
| Bitfields.SaveAndLoad | src/libtransmission/resume.c:404-607 | What is saved and loaded again has the same members if and only if the raw bytes of a field that is neither full nor empty do not spell one of the words. |
| Bitfields.SomeFieldSpells | src/libtransmission/resume.c:589-592 | A field of 22 blocks, neither full nor empty, spells "all". |
| CompletionModel.BytesByCount | src/libtransmission/completion.c:41-56 | Counting blocks and correcting for a short last one gives the sum of their sizes. |
| CompletionModel.Totals | src/libtransmission/completion.c:139-200 | What is complete is at most what is there, that is at most what there will be when done, and that is at most the total; nothing is left exactly when every wanted piece is complete. |
| Completions.Completion.Reset | src/libtransmission/completion.c:24-31 | No block is there, and both cached totals are marked dirty. |
| Completions.Completion.constructor | src/libtransmission/completion.c:33-39 | No block is there, and all totals are right or marked dirty. |
| Completions.Completion.BlockInit | src/libtransmission/completion.c:41-56 | The blocks are those of the bitfield, and the running size is the sum of their sizes. |
| Completions.Completion.BlockAdd | src/libtransmission/completion.c:98-111 | The block is there, and all totals are right or marked dirty. |
| Completions.Completion.PieceAdd | src/libtransmission/completion.c:88-96 | Exactly the blocks of the piece are added. |
| Completions.Completion.PieceRem | src/libtransmission/completion.c:71-86 | Exactly the blocks of the piece are removed, and the running size goes down by those that were there. |
| Completions.Completion.SetDnd | src/libtransmission/completion.h:141-145 | Changing what is wanted keeps every total right or marked dirty. |
| Completions.Completion.MissingBlocksInPiece | src/libtransmission/completion.c:222-232 | The blocks missing from a piece; none exactly when it is complete. |
| Completions.Completion.MissingBytesInPiece | src/libtransmission/completion.c:234-256 | The bytes missing from a piece, with a short last block; none exactly when it is complete. |
| Completions.Completion.HaveValid | src/libtransmission/completion.c:117-137 | The bytes of the complete pieces, whether cached or summed afresh, and never more than what is there. |
| Completions.Completion.SizeWhenDone | src/libtransmission/completion.c:139-190 | All of each wanted piece and what is there of the others, whether cached or summed afresh, between what is there and the total. |
| Completions.Completion.LeftUntilDone | src/libtransmission/completion.c:192-200 | Zero exactly when every wanted piece is complete. |
| Completions.Completion.GetStatus | src/libtransmission/completion.c:62-69 | A seed has all bytes; a partial seed has every wanted piece but not all bytes. |
| Completions.Completion.FileIsComplete | src/libtransmission/completion.c:258-268 | A file is complete exactly when each of its bytes lies in a block that is there. |
| Completions.Completion.CreatePieceBitfield | src/libtransmission/completion.c:270-296 | The raw bytes have a bit for exactly the complete pieces. |
| BandwidthModel.MoveKeepsForest | src/libtransmission/bandwidth.c:126-156 | A new parent leaves a forest if and only if it does not lie below the bandwidth. |
| BandwidthModel.GrantIsSpeed | src/libtransmission/bandwidth.c:174-179 | The share is the desired speed over the period if and only if their product fits into 32 bits. |
| BandwidthModel.AllowedIsWithin | src/libtransmission/bandwidth.c:304-345 | What is allowed is within every limit that counts. It is all of that while no speed is above eight tenths of the desired one, and nothing where one is too high. |
| BandwidthModel.PeakIsHighest | src/libtransmission/bandwidth.c:168-184 | The priority passed down to a peer is the highest from it up to the top of the subtree, and at least the one given. |
| BandwidthModel.ChargeKeepsBudget | src/libtransmission/bandwidth.c:373-403 | Charging an amount within every honoured limit uses up exactly that much of each of them, and at most that of the others. |
| BandwidthModel.HandedOutBoth | src/libtransmission/bandwidth.c:187-194 | Handing out to one more child adds exactly its subtree, with the priority passed down. |
| Bandwidths.Tree.Construct | src/libtransmission/bandwidth.c:97-109 | A new bandwidth honours its parents, has no limit of its own, and is put below the given parent. |
| Bandwidths.Tree.HonorParentLimits | src/libtransmission/bandwidth.h:241-249 | Whether a bandwidth honours its parents can change at any time without a limit being exceeded. |
| Bandwidths.Tree.SetLimited | src/libtransmission/bandwidth.h:171-179 | A limit can be turned on and off at any time; what was used before does not count. |
| Bandwidths.Tree.SetParent | src/libtransmission/bandwidth.c:126-156 | Only the one parent changes, and every bandwidth still knows exactly its children. |
| Bandwidths.Tree.SlowDown | src/libtransmission/bandwidth.c:330-337 | All is allowed up to eight tenths of the desired speed, nine tenths up to nine, eight tenths up to the whole, and nothing beyond it. |
| Bandwidths.Tree.Clamp | src/libtransmission/bandwidth.c:304-345 | Each limit that is honoured on the way up allows what it has left, slowed down near the desired speed. The result is within all of them; while the speeds are calm it is the amount asked for or exactly what one of them has left, and it is 0 where a speed is too high. |
| Bandwidths.Tree.Used | src/libtransmission/bandwidth.c:373-403 | Piece data is charged once to each limited bandwidth on the way up, and other data to none. |
| Bandwidths.Tree.Transfer | src/libtransmission/bandwidth.c:304-403 | A transfer of what the clamp allows keeps every limit, and what honest users have spent and what is left add up to the share. |
| Bandwidths.Tree.Allocate | src/libtransmission/bandwidth.c:162-195 | Everything from a bandwidth down gets its share, nothing else does, and the pool holds each peer below once, ranked by the highest priority on its way up. |
| Bandwidths.Tree.PhaseOne | src/libtransmission/bandwidth.c:197-231 | The round robin ends, keeps the peers of the pool, and has given each of them turns until one of its turns fell short. |
| Bandwidths.Tree.Pools | src/libtransmission/bandwidth.c:252-264 | A peer is in the pools for its own and all lower priorities, as often as it was in the pool. |
| Bandwidths.Tree.AllocateAndRun | src/libtransmission/bandwidth.c:245-272 | When the first phase is over, no limited bandwidth has had more spent by those who honour it than its share; each peer below has had its turns: first those of high priority, then those and the normal ones, then all; and the turns add up to what was transferred. |
| RateRings.Overwritten | src/libtransmission/bandwidth.h:36-53 | A slot that the ring has overwritten is older than the window. |
| RateRings.SumSlots | src/libtransmission/bandwidth.c:43-54 | Going back from the newest slot until one is too old, or once around, adds up all slots that are young enough. |
| RateRings.Ring.Log | src/libtransmission/bandwidth.c:64-78 | What is logged goes into the newest slot or a new one, and for every cutoff the slots stay between what happened a granularity later and what happened later at all. |
| RateRings.RateControl.GetSpeed | src/libtransmission/bandwidth.c:33-62 | The speed is at least that of the last 1800 ms and at most that of the last 2000 ms, and the remembered value is never stale. |
| RateRings.RateControl.BytesUsed | src/libtransmission/bandwidth.c:64-78 | Logging keeps the ring right and forgets the remembered value. |
| RateRings.RecentHistory.Add | src/libtransmission/history.c:20-34 | Logging keeps the history right. |
| RateRings.RecentHistory.Get | src/libtransmission/history.c:36-58 | For up to 60 seconds the count is exactly what was logged in them. |
| TrackerModel.OnConnectionResponse | src/libtransmission/announcer-udp.c:574-607 | An address and a pending query still never coexist and a pending connect still means an expired id, through the nested upkeep. |
| TrackerModel.TimeoutReqs | src/libtransmission/announcer-udp.c:609-647 | Timing out, with the connect response it may fake, keeps the same invariant. |
| TrackerModel.Upkeep | src/libtransmission/announcer-udp.c:656-718 | Upkeep keeps the invariant, so that the four asserts before sending hold wherever it sends. |
| TrackerModel.Step | src/libtransmission/announcer-udp.c:798-968 | Every input of a run keeps the invariant. |
| TrackerModel.Match | src/libtransmission/announcer-udp.c:907-932 | A response belongs to the first request that was sent with its transaction id. |
| TrackerRuns.AccountsOfMessage | src/libtransmission/announcer-udp.c:860-938 | A message answers one waiting request, fails all, or none, and never one twice. |
| TrackerRuns.AccountsOfTimeouts | src/libtransmission/announcer-udp.c:622-646 | Requests that time out are answered once and leave their queue; the others stay. |
| TrackerRuns.AccountsOfSendReqs | src/libtransmission/announcer-udp.c:529-572 | Sending sends each unsent request once, and forgets only those nobody waits for. |
| TrackerRuns.RunsAreAccounted | src/libtransmission/announcer-udp.c:461-718 | After every run, the owners who wait have been called or are still in a queue, each as often as they asked; and nothing was sent that was not submitted. |
| TrackerRuns.OncePerRequest | src/libtransmission/announcer-udp.c:461-938 | In every run a request is sent at most once and answered at most once, and it has been answered exactly once as soon as it is in no queue. |
| TrackerDeadlines.UpkeepComesNearer | src/libtransmission/announcer-udp.c:656-718 | Each upkeep brings a late request one of three steps nearer to its answer. |
| TrackerDeadlines.StepComesNearer | src/libtransmission/announcer-udp.c:798-968 | No other input, DNS answer or message takes a late request further from its answer. |
| TrackerDeadlines.AnsweredByThirdUpkeep | src/libtransmission/announcer-udp.c:609-718 | In every run, three upkeeps after its deadline, all before a DNS answer could expire, a request is in no queue and whoever waited for it has been called. |
| TrackerDeadlines.TwoAreNotEnough | src/libtransmission/announcer-udp.c:656-718 | There is a run in which a request is late and two more upkeeps leave it unanswered. |
| TrackerConnections.EverySendIsLive | src/libtransmission/announcer-udp.c:529-607 | In every run a request carries the connection id received last, less than a minute old; a connect goes out only once that minute is over. |
| TrackerOutcomes.MatchIsFirst | src/libtransmission/announcer-udp.c:907-932 | The request found is the first one in its queue that has been sent with that transaction id, and none is found only if there is none. |
| TrackerOutcomes.MessageIsHandled | src/libtransmission/announcer-udp.c:860-938 | A message that is long enough for its kind goes to the connect it replies to, else to the first sent announce with its transaction id, else to such a scrape: a reply of the kind asked for is handed on from its ninth byte on, any other is a failure that has connected. |
| TrackerCauses.RunsAreGrounded | src/libtransmission/announcer-udp.c:461-968 | After every run, each queued request was submitted as it stands, and everything an owner was told has its cause. |
| TrackerCauses.ToldWithCause | src/libtransmission/announcer-udp.c:383-938 | In every run, an answer is the rest of a later packet of the kind that was asked for, with the request's transaction id. A failure that has connected comes from a packet of another kind with that id, or from a connect that was refused or is a minute old; a timeout from a request a minute old or a shutdown three seconds old; any other from a failed DNS query. |
| TrackerProgress.NothingWaitsForNothing | src/libtransmission/announcer-udp.c:656-718 | In every run, requests wait to be sent only while a DNS query or a connect is unanswered. |
| TrackerProgress.NoneIsDropped | src/libtransmission/announcer-udp.c:461-968 | In every run, each request that was submitted waits to be sent, has been sent, or was given up for one of those causes, which came after it. |
| Trackers.SendQueue | src/libtransmission/announcer-udp.c:541-571 | The loop that sends and removes while it walks has the effect of going through the queue once. |
| Trackers.TimeoutQueue | src/libtransmission/announcer-udp.c:622-646 | The loop that calls back and removes while it walks has the effect of going through the queue once. |
| Trackers.FailQueue | src/libtransmission/announcer-udp.c:467-485 | Every owner in a queue who waits is called once, in order. |
| Trackers.FindRequest | src/libtransmission/announcer-udp.c:908-918 | The loop finds the first request that was sent with the transaction id. |
| Trackers.Tracker.constructor | src/libtransmission/announcer-udp.c:751-790 | A new tracker has no address, no connection and no requests. |
| Trackers.Tracker.FailAll | src/libtransmission/announcer-udp.c:461-487 | Scrapes fail before announces, and both queues are empty afterwards. |
| Trackers.Tracker.SendReqs | src/libtransmission/announcer-udp.c:529-572 | The code refines the step of the state machine; its asserts are the preconditions. |
| Trackers.Tracker.OnConnectionResponse | src/libtransmission/announcer-udp.c:574-607 | The code refines the step of the state machine, with the upkeep it calls. |
| Trackers.Tracker.TimeoutReqs | src/libtransmission/announcer-udp.c:609-647 | The code refines the step of the state machine, with the connect response it fakes. |
| Trackers.Tracker.Upkeep | src/libtransmission/announcer-udp.c:656-718 | The code refines the step of the state machine, and the mutual recursion ends. |
| Trackers.Tracker.HandleMessage | src/libtransmission/announcer-udp.c:860-938 | The code refines the step of the state machine. Said without it: whom a message is for, that the first sent request with its transaction id leaves its queue, and that its owner is told what lies behind the header if the kind is the one asked for, and of a failure that has connected if not; a message that is for nobody changes nothing. |
| PeerFraming.RunThenFeed | src/libtransmission/peer-io.c:179-243 | Where nothing is refused, reading what there is and then the rest is the same as reading all at once. |
| PeerFraming.ChunksDoNotMatter | src/libtransmission/peer-io.c:179-243 | All ways to cut a stream lead to the same state if and only if reading it at once refuses nothing, or leaves nothing behind what it refused that could be read; otherwise a cut into two non-empty chunks shows. |
| PeerFraming.SettledAlike | src/libtransmission/peer-io.c:179-243 | However a stream is cut and whatever is refused, once all that can be read has been read the connection is in the same state with the same messages. |
| PeerFraming.ReadsAsParsed | src/libtransmission/peer-msgs.c:1608-1649 | What is handed on begins with the messages of the stream's frames, each of 4 + length bytes, up to the first message that is refused, and is all of them if none is. |
| PeerFraming.FramesDecide | src/libtransmission/peer-io.c:179-243 | For the stream of an idle connection this can be told from its frames: all cuts agree if and only if too little follows the first frame that is refused to be read. |
| PeerFraming.CleanStream | src/libtransmission/peer-io.c:179-243 | A stream whose frames hold no refused message or block can be cut in any way, and its messages are handed on. |
| PeerFraming.FrameEnds | src/libtransmission/peer-msgs.c:1288-1552 | After one whole frame the connection waits for the next, if and only if the frame is neither a piece message without data nor a message that is refused. |
| PeerFraming.RefusedBlockDelays | src/libtransmission/peer-msgs.c:1331-1343 | What comes behind a refused block stays in the buffer if it has come in the same chunk, and is read if it comes in the next. |
| PeerFraming.CutShows | src/libtransmission/peer-msgs.c:1331-1343 | A block of the wrong size and a have message: in two chunks both are handed on, in one only the first. |
| PeerReaders.PeerReader.Receive | src/libtransmission/peer-io.c:179-243 | The loop over the input buffer ends, in the state the specification feeds to, with what is behind an error left in the buffer. |
| PeerReaders.ReceiveAll | src/libtransmission/peer-io.c:179-243 | Receiving a stream in any chunks leads, once all has been read, to the state that the whole stream leads to; where nothing is refused, the messages of its frames have been handed on. |
| PeerMessages.TakesExactly | src/libtransmission/peer-msgs.c:1238-1552 | The messages that are taken are, by number and payload, exactly those of the protocol that are expected: pieces exist, a bitfield has a bit for each piece, fast messages come only where they were agreed on. |
| PeerMessages.StreamParses | src/libtransmission/peer-msgs.c:1238-1649 | A stream of such messages, as one client writes them, has them as its frames. |
| PeerMessages.SentIsRead | src/libtransmission/peer-msgs.c:290-420 | Whatever expected messages one client writes, blocks included, the other reads the same in order, however the network cuts the stream, and does not mark its peer. |
| PeerMessages.PeerWriter.SendRequest | src/libtransmission/peer-msgs.c:307-321 | The bytes appended are the frame of that request. |
| PeerMessages.PeerWriter.SendPiece | src/libtransmission/peer-msgs.c:1878-1891 | The bytes put together for a block are the frame of that piece. |
| PeerRequests.EveryRequestIsAccountedFor | src/libtransmission/peer-msgs.c:1209-1236 | With the fast extension, in every run each request has been answered by a piece, rejected, taken back, or is queued, exactly once. |
| PeerRequests.OnlyRejectsDiffer | src/libtransmission/peer-msgs.c:290-305 | A peer without the fast extension gets the same pieces and chokes and has the same queue; the rejects it is not sent are those of the lost requests, in order. |
| PeerRequests.EveryRequestIsAnsweredOrLost | src/libtransmission/peer-msgs.c:1209-1236 | Without the extension each request has been answered by a piece, taken back, is queued, or is lost for one of the named reasons, exactly once. |
| PeerRequests.RunsAreSound | src/libtransmission/peer-msgs.c:1225-1226 | In every run at most 511 requests are queued, and none while the peer is choked. |
| PeerRequests.FirstComeFirstServed | src/libtransmission/peer-msgs.c:696-708 | In every run pieces go out in the order they were asked for, and those queued come after them. |
| PeerRequests.QueuedAreServed | src/libtransmission/peer-msgs.c:1865-1931 | Whatever has happened before: as often as there is room, and blocks can be served and read, the next queued request is answered by its piece, in order, until the peer is choked or takes one back. |
| PeerRequests.RequestQueue.constructor | src/libtransmission/peer-msgs.c:2328-2383 | A peer starts out choked, with nothing queued. |
| PeerRequests.RequestQueue.Remove | src/libtransmission/peer-msgs.c:1438-1458 | Shifting the rest of the array down removes exactly one request. |
| PeerRequests.RequestQueue.PopNextRequest | src/libtransmission/peer-msgs.c:696-708 | The first request is taken out, if there is one. |
| PeerRequests.RequestQueue.PeerMadeRequest | src/libtransmission/peer-msgs.c:1209-1236 | A request that can be served, of a peer that is not choked and has fewer than 511 queued, is queued last; any other is rejected with the fast extension, and changes nothing else. |
| PeerRequests.RequestQueue.PeerCancelled | src/libtransmission/peer-msgs.c:1438-1458 | The first equal request in the queue is removed, if there is one. |
| PeerRequests.RequestQueue.CancelAll | src/libtransmission/peer-msgs.c:710-719 | The queue is emptied, and with the fast extension each request is rejected, in order. |
| PeerRequests.RequestQueue.SetChoke | src/libtransmission/peer-msgs.c:721-743 | Nothing happens within ten seconds of the last change, or without one; else the peer is told last, and choking first empties the queue, with its rejects. |
| PeerRequests.RequestQueue.FillOutputBuffer | src/libtransmission/peer-msgs.c:1865-1931 | When there is room and something is queued, the first request leaves the queue, and what is sent is its piece exactly if it can be served and read, else a reject with the fast extension. |
| PeerExchange.SetCompare | src/libtransmission/peer-msgs.c:2094-2143 | The merge loop with its capped callbacks finds exactly what was added and what was dropped, each once, in order, and with its flags; with 50 peers the caps never take effect; the list it keeps is sorted, and has the old entry of an endpoint that was there before. |
| PeerExchange.NoDiffs | src/libtransmission/peer-msgs.c:2146-2207 | Applying a delta to the old snapshot gives the new one, and an empty delta means that nothing changed. |
| PeerExchange.PexSender.SendPex | src/libtransmission/peer-msgs.c:2146-2311 | A peer that applies every delta always knows exactly the last snapshot, and a message goes out exactly when it changed. |
| HandshakeModel.SelectIsAgreed | src/libtransmission/handshake.c:365-394 | What is selected was offered and is wanted, and nothing is selected only if there is no such method. |
| HandshakeModel.SelectIsPreferred | src/libtransmission/handshake.c:365-394 | Where encryption is preferred or required it is selected whenever it is offered, where the clear is preferred that is; otherwise the one that was offered; and nothing only if nothing acceptable was. |
| HandshakeModel.ReadAdvances | src/libtransmission/handshake.c:995-1066 | A read never goes back, and one that wants to go on is further on and not done. |
| HandshakeModel.ReadKeepsSound | src/libtransmission/handshake.c:396-987 | Every read keeps what ties the stage to the encryption in use. |
| HandshakeModel.RequiredMeansEncrypted | src/libtransmission/handshake.c:591-641 | Where encryption is required, every run that ends well ends with RC4. |
| HandshakeModel.GoodMeansAgreed | src/libtransmission/handshake.c:890-965 | In every mode a connection that ends well is plain only where that is allowed, and one that came in encrypted uses the method its mode prefers among those that were offered. |
| HandshakeModel.OfferDecides | src/libtransmission/handshake.c:770-965 | In every run of an incoming connection that ends well after the encrypted exchange, one event has read the offer, and that decides: RC4 where it is offered and the clear is not preferred, plain where that is offered and preferred, else the one that was offered. |
| HandshakeModel.GoesOnExactly | src/libtransmission/handshake.c:995-1066 | In every run, a read changes something exactly if what the stage waits for has come: enough bytes, and the beginning of the encrypted part where that is looked for. |
| HandshakeModel.TwelveStepsEnd | src/libtransmission/handshake.c:995-1066 | From wherever a run has come, twelve reads for which everything has come end the handshake. |
| HandshakeModel.EncryptedComesIn | src/libtransmission/handshake.c:591-987 | An incoming encrypted connection whose peer does everything right is over after seven reads, and ends well exactly if the peer offers something acceptable. |
| HandshakeModel.PlainEndsWell | src/libtransmission/handshake.c:591-760 | A plain connection whose peer does everything right is over after two reads, and ends well, in the clear, exactly if encryption is not required. |
| HandshakeModel.GoodExactly | src/libtransmission/handshake.c:707-987 | A run ends well if and only if a good peer id, or the good handshake behind an encrypted exchange, was read while that was awaited. |
| HandshakeModel.OneWay | src/libtransmission/handshake.c:1068-1107 | In every run the callback is called at most once, and no connection falls back to an earlier stage. |
| HandshakeModel.SelectedIsTakenOver | src/libtransmission/handshake.c:530-583 | While an outgoing connection that has been answered awaits the handshake, its encryption names a method if and only if the answer was RC4 and nothing else. |
| HandshakeModel.AnswerIsTaken | src/libtransmission/handshake.c:530-568 | In every run of an outgoing connection, the answer is gone on with exactly if it has the bit for encryption and at most 512 bytes of padding. |
| HandshakeModel.HandshakeWasRead | src/libtransmission/handshake.c:591-705 | In every run that comes to wait for the peer's id, one event has read its handshake, all of it and good, and that has settled the encryption. |
| HandshakeModel.FirstByteDecides | src/libtransmission/handshake.c:530-705 | An outgoing connection that ends well uses the method the first byte of the handshake looks like; that is the selected one if and only if RC4 alone was selected and the byte does not look plain. |
| HandshakeModel.BothSelectedIsTaken | src/libtransmission/handshake.c:530-583 | Four events from the start lead an outgoing connection whose peer selects both methods to have neither of them. |
| HandshakeModel.SelectedButPlain | src/libtransmission/handshake.c:591-641 | Where encryption is preferred, a run in which encryption is selected ends well and in the clear. |
| HandshakeModel.SurvivesOnce | src/libtransmission/handshake.c:1116-1171 | In every run a handshake lives through one failure at most, and only an outgoing one that need not be encrypted. |
| Handshakes.Handshake.constructor | src/libtransmission/handshake.c:1183-1221 | An outgoing connection begins with the key exchange unless plain connections are preferred. |
| Handshakes.Handshake.CanRead | src/libtransmission/handshake.c:995-1066 | The loop always ends; it is some further steps of the run so far, all of them reads, none after the callback, and never back. |
| Handshakes.Handshake.Keeps | src/libtransmission/handshake.c:995-1171 | Whatever has been called on a handshake since it was made: one callback at most, and after a good one an encryption that is allowed, required where it must be, and preferred among what was offered. |
| Handshakes.Handshake.Abort | src/libtransmission/handshake.c:1109-1114 | Timing out or aborting is one further step of the run, and calls back with failure. |
| Utf.DecodeEncoded | src/libtransmission/ConvertUTF.c:473-522 | Decoding undoes encoding for every character, and encoded scalar values are legal. |
| Utf.EncodeDecoded | src/libtransmission/ConvertUTF.c:526-584 | A legal sequence decodes to a scalar value, and encoding that gives it back unless it is F4 followed by ASCII. |
| Utf.LegalOrStray | src/libtransmission/ConvertUTF.c:296-319 | A sequence is the encoding of a scalar value if and only if it is legal and not F4 followed by ASCII. |
| Utf.ValidExactly | src/libtransmission/ConvertUTF.c:328-346 | A string is a sequence of encoded scalar values if and only if all of it is gone through and no F4 in it is followed by ASCII. |
| Utf.LongestGoodPrefix | src/libtransmission/ConvertUTF.c:352-395 | What is gone through reaches as far as any text at the front, and is text itself if and only if no F4 in it is followed by ASCII. |
| Utf.StrayIsLetThrough | src/libtransmission/ConvertUTF.c:304-313 | F4 41 80 80 is gone through though it is no text. |
| Utf.IsLegalUtf8 | src/libtransmission/ConvertUTF.c:296-319 | The switch that falls through decides the ranges of section 4 of RFC 3629, but for the lower bound after F4. |
| Utf.Utf8Validate | src/libtransmission/ConvertUTF.c:352-395 | The end reported is never short of the longest text; it is text, and the verdict is right, except exactly where F4 followed by ASCII was gone through. |
| UtfConversion.ResumeIsTheSame | src/libtransmission/ConvertUTF.c:473-522 | Stopping when the target is full and going on with another one writes what one large target gets. |
| UtfConversion.RoundTrip32 | src/libtransmission/ConvertUTF.c:473-584 | UTF-32 to UTF-8 and back is the identity on well-formed text. |
| UtfConversion.RoundTrip16 | src/libtransmission/ConvertUTF.c:215-281 | UTF-16 to UTF-8 and back is the identity on well-formed text, surrogate pairs included. |
| UtfConversion.StrictOk32 | src/libtransmission/ConvertUTF.c:473-522 | With room for everything, the strict converter from UTF-32 reports no error if and only if the source is made of scalar values. |
| UtfConversion.StrictOk16 | src/libtransmission/ConvertUTF.c:215-281 | With room for everything, the strict converter from UTF-16 reports no error if and only if the source is well-formed UTF-16. |
| UtfConversion.PairOf | src/libtransmission/ConvertUTF.c:229-237 | A character above FFFF is a surrogate pair that stands for it, and any other is no surrogate. |
| UtfConversion.WriteUtf8 | src/libtransmission/ConvertUTF.c:256-276 | The switch from the last byte to the first writes the encoding of the character. |
| UtfConversion.ReadUtf8 | src/libtransmission/ConvertUTF.c:420-428 | The switch that falls through joins the bytes of a character into its code. |
| UtfConversion.Next32 | src/libtransmission/ConvertUTF.c:484-517 | One character of UTF-32, with surrogates refused in strict mode and characters that are too large replaced. |
| UtfConversion.Next16 | src/libtransmission/ConvertUTF.c:215-281 | One character of UTF-16, with lone surrogates refused in strict mode only. |
| UtfConversion.Next8 | src/libtransmission/ConvertUTF.c:400-469 | One character of UTF-8; the branches for surrogates and for characters that are too large are never taken. |
| UtfConversion.ConvertUtf | src/libtransmission/ConvertUTF.c:215-584 | The loop of the converters stops where the specification stops, with its output and status. |
| Blocklists.SortSorts | src/libtransmission/blocklist.c:308-316 | Sorting by first address keeps all ranges. |
| Blocklists.MergeIsRight | src/libtransmission/blocklist.c:381-413 | Merging sorted ranges leaves them apart and covers the same addresses, even if some end before they begin. |
| Blocklists.MergeKeepsOrder | src/libtransmission/blocklist.c:381-413 | Ranges that begin before they end still do after merging. |
| Blocklists.MergeInPlace | src/libtransmission/blocklist.c:391-399 | The loop with its moving pointer computes the merge in place. |
| Blocklists.Blocklist.SetContent | src/libtransmission/blocklist.c:318-431 | The rules cover exactly the addresses of the ranges that were read, and are apart. |
| Blocklists.Blocklist.Search | src/libtransmission/blocklist.c:127-137 | Binary search answers yes if and only if some rule covers the address. |
| Blocklists.Blocklist.HasAddress | src/libtransmission/blocklist.c:205-230 | An address is blocked if and only if the list is enabled, the address is IPv4 and some rule covers it. |

## Left out

Weaker than the source:

- InOut.Disk.ReadOrWriteBytes: `pread` and `pwrite` transfer all bytes or fail; short transfers, opening and preallocating files, and files that are shorter on disk than the torrent says are not modelled.
- Caches.Cache.FlushContiguous: after a failed write the contents are only shown to come from the disk or the cache as they were, because the source drops the blocks before it writes them.
- Caches.Cache.CacheTrim: ranks are unbounded integers, and ties between runs are resolved in one way of those `qsort` allows.
- Caches.Cache.WriteBlock: the offset begins a block, which `clientGotBlock` does not check; what happens otherwise is only stated for a block that is new in the cache (CacheModel.AlignedWritesOnly). Blocks are written whole, as the source's assert on the length demands of a block that is cached already; the counters for statistics are not modelled.
- PieceHashes.ReadPiece: each read delivers something; a read that fails or finds the file shorter than before is not modelled (the source's loop does not end then).
- PieceHashes.GetHashInfo: the flag by which the user aborts, and the progress counters.
- BencodeParser.ParseImpl: all error codes are one failure; `errno` is not told apart. What the parser goes on to do after it has misread a string is not described.
- BencodeDicts.MergeDicts: the map merge is proved for dictionaries without repeated keys and for source keys that are C strings; keys cut at a zero byte are modelled, but what they then mean is not stated. Trees are values, so that merging a dictionary into a part of itself does not arise.
- BencodeMeaning.AnyInsertionOrder: keys that are equal up to their first zero byte are left out, because `qsort` may put them in any order.
- BencodeMeaning.CanonTwice: for a dictionary with keys that are equal up to their first zero byte, it is assumed that `qsort` leaves equal keys in order; for all others any sort will do.
- BencodeMeaning.Reserialise: with the same assumption about keys that are equal up to their first zero byte.
- BencodeWriter.BencWalk: the walk without sorting, which the source uses to free values, is not modelled.
- Bitfields.Bitfield.SetFromBitfield: the source field must be allocated in full, be full or be empty, as an assert of the source demands.
- Bitfields.Bitfield.SetRaw: bounded only; fields of unknown size, where hints stand for the count, are only constructed and set.
- Completions.Completion.SetDnd: what is wanted is set for all pieces at once; how it follows from the files is not modelled.
- Bandwidths.Tree.Clamp: the speeds it looks at, which are those of downloads whichever direction is clamped, are parameters, and the factors 0.8 and 0.9 are exact instead of doubles.
- Bandwidths.Tree.Transfer: how much of what the clamp allows is transferred is up to the network; an amount is charged when it is transferred; in the source incoming bytes are charged when they are read from the buffer. Incoming uTP data, which is buffered before any clamp, is not modelled. A flush transfers piece data only.
- Bandwidths.Tree.PhaseOne: it ends because nothing new comes in to be transferred meanwhile.
- Bandwidths.Tree.AllocateAndRun: the protocol messages that go out first, and the second phase, which enables connections with bandwidth left; transfers are those of Bandwidths.Tree.Transfer.
- RateRings.Ring.Log: time does not go backwards and is at least as late as the window is long, so that the empty slots, dated 0, are old.
- RateRings.RateControl.GetSpeed: for the whole history of 2000 ms, which is the only interval the source asks for.
- Trackers.Tracker.Upkeep: a DNS answer is an input of its own and not given inside the query; callbacks do not re-enter the tracker.
- Trackers.Tracker.HandleMessage: the fields of announce and scrape responses behind their headers are handed on as bytes, and the search for the tracker a message is for is a choice.
- PeerReaders.PeerReader.ReadBtMessage: which messages are taken is modelled, what they change is not; the size hint of an extension handshake is a function of the messages so far.
- PeerReaders.PeerReader.Receive: the bytes reported to the bandwidth object. Whether a block can be kept is a function of its place and its bytes, and when a peer that has been marked is disconnected is not modelled.
- TrackerDeadlines.AnsweredByThirdUpkeep: the timer is one of the inputs of a run; that it keeps firing is assumed.
- PeerMessages.SentIsRead: a writer does not check that its fields fit their 32 bits; the theorem is about messages whose fields do.
- PeerMessages.PeerWriter.SendPiece: the header and the block go into one buffer, which the source hands to the connection instead of appending it to the other messages.
- PeerRequests.RequestQueue.FillOutputBuffer: metadata pieces, keepalives and the prefetch count.
- PeerExchange.PexSender.SendPex: the bytes of the message, and where the snapshots come from.
- UtfConversion.ResumeIsTheSame: that a character was too large and was replaced shows only in the status of the call that met it, and not even there when the target fills up afterwards.
- Handshakes.Handshake.CanRead: the bytes, keys and padding are abstract. What a read finds, including whether enough has come for the next one, is a free choice.

Not modelled:

- `tr_cachePrefetchBlock`, `tr_ptrArrayRemoveSorted` and the other members of the array that the cache does not use.
- Real numbers in bencode, the JSON reader and writer, and `bulkID3`.
- Integer widths other than those the source relies on (64-bit integers, lengths and addresses and the `int` length of strings in bencode, the 32-bit length of a block, the cast in `allocateBandwidth`).
- `tr_cpGetAmountDone` and the percentages, which are floating point.
- The UTF-16 to UTF-32 converters, which add nothing to the two round trips; masks and shifts in the others are written as quotients, remainders and sums.
- Reading and memory-mapping the blocklist file.
- The choice of trackers and their back-off in `announcer.c`, whose slot counter is not conserved.
- SHA-1, RC4 and Diffie-Hellman; memory management and logging; the node binding, the session, NAT, DHT and HTTP layers.
