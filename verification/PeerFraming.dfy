/** Reading messages off the wire: the stages a peer connection goes through as bytes come in, and why
    it does not matter how the stream is cut (peer-msgs.c, peer-io.c; BEP 3, BEP 6). */
module PeerFraming {
  import opened Base

  const BT_CHOKE: Byte := 0
  const BT_UNCHOKE: Byte := 1
  const BT_INTERESTED: Byte := 2
  const BT_NOT_INTERESTED: Byte := 3
  const BT_HAVE: Byte := 4
  const BT_BITFIELD: Byte := 5
  const BT_REQUEST: Byte := 6
  const BT_PIECE: Byte := 7
  const BT_CANCEL: Byte := 8
  const BT_PORT: Byte := 9
  const BT_FEXT_SUGGEST: Byte := 13
  const BT_FEXT_HAVE_ALL: Byte := 14
  const BT_FEXT_HAVE_NONE: Byte := 15
  const BT_FEXT_REJECT: Byte := 16
  const BT_FEXT_ALLOWED_FAST: Byte := 17
  const BT_LTEP: Byte := 20

  const UINT32 := 0x1_0000_0000

  datatype Message = Msg(id: Byte, payload: Bytes) | Block(index: nat, offset: nat, data: Bytes)

  /** What a connection knows about the torrent and the peer; sizeHint is what an extension handshake
      among the messages so far has said about the metadata, and saves whether a block could be kept. */
  datatype Config = Config(hasMetadata: bool, pieceCount: nat, fext: bool,
                           sizeHint: seq<Message> -> nat, saves: (nat, nat, Bytes) -> bool)

  datatype Stage = AwaitLength | AwaitId | AwaitMessage | AwaitPiece

  datatype ReadState = ReadNow | ReadLater | ReadErr

  /** The part of tr_peermsgs that reads, its input buffer, the messages handed on, and whether the peer has been
      marked for purging */
  datatype Reader = Reader(stage: Stage, length: nat, id: Byte, index: nat, offset: nat, reqLength: nat,
                           block: Bytes, inbuf: Bytes, got: seq<Message>, doPurge: bool)

  const START := Reader(AwaitLength, 0, 0, 0, 0, 0, [], [], [], false)

  /** messageLengthIsCorrect */
  predicate LengthIsCorrect(cfg: Config, got: seq<Message>, id: Byte, len: nat) {
    if id in {BT_CHOKE, BT_UNCHOKE, BT_INTERESTED, BT_NOT_INTERESTED, BT_FEXT_HAVE_ALL, BT_FEXT_HAVE_NONE} then len == 1
    else if id in {BT_HAVE, BT_FEXT_SUGGEST, BT_FEXT_ALLOWED_FAST} then len == 5
    else if id == BT_BITFIELD then
      if cfg.hasMetadata then len == (cfg.pieceCount + 7) / 8 + 1
      else cfg.sizeHint(got) > 0 ==> len <= cfg.sizeHint(got)
    else if id in {BT_REQUEST, BT_CANCEL, BT_FEXT_REJECT} then len == 13
    else if id == BT_PIECE then 9 < len <= 16393
    else if id == BT_PORT then len == 3
    else id == BT_LTEP && len >= 2
  }

  /** What readBtMessage says no to after it has read the payload */
  predicate IsOutOfPlace(cfg: Config, id: Byte, payload: Bytes) {
    (id == BT_HAVE && cfg.hasMetadata && BigEndian(payload) >= cfg.pieceCount) ||
    (id in {BT_FEXT_SUGGEST, BT_FEXT_HAVE_ALL, BT_FEXT_HAVE_NONE, BT_FEXT_REJECT, BT_FEXT_ALLOWED_FAST} && !cfg.fext)
  }

  /** Whether readBtMessage takes a message */
  predicate Takes(cfg: Config, got: seq<Message>, id: Byte, payload: Bytes) {
    LengthIsCorrect(cfg, got, id, |payload| + 1) && !IsOutOfPlace(cfg, id, payload)
  }

  // ---------- the stages ----------

  function ReadBtLength(r: Reader): (Reader, ReadState) {
    if |r.inbuf| < 4 then (r, ReadLater) else
      var len := BigEndian(r.inbuf[..4]);
      var r1 := r.(inbuf := r.inbuf[4..]);
      (if len == 0 then r1 else r1.(length := len, stage := AwaitId), ReadNow)
  }

  /** A message that is refused leaves the stage as it is, with its payload read or not, and marks the peer. */
  function ReadBtMessage(cfg: Config, r: Reader): (Reader, ReadState)
    requires r.length > 0
  {
    var msglen := r.length - 1;
    if |r.inbuf| < msglen then (r, ReadLater)
    else if !LengthIsCorrect(cfg, r.got, r.id, r.length) then (r.(doPurge := true), ReadErr)
    else if IsOutOfPlace(cfg, r.id, r.inbuf[..msglen]) then (r.(doPurge := true, inbuf := r.inbuf[msglen..]), ReadErr)
    else (r.(got := r.got + [Msg(r.id, r.inbuf[..msglen])], inbuf := r.inbuf[msglen..], stage := AwaitLength), ReadNow)
  }

  function ReadBtId(cfg: Config, r: Reader): (Reader, ReadState)
    requires r.length > 0
  {
    if |r.inbuf| < 1 then (r, ReadLater) else
      var r1 := r.(id := r.inbuf[0], inbuf := r.inbuf[1..]);
      if r1.id == BT_PIECE then (r1.(stage := AwaitPiece), ReadNow)
      else if r1.length != 1 then (r1.(stage := AwaitMessage), ReadNow)
      else ReadBtMessage(cfg, r1)
  }

  /** incoming.length - 9 in a uint32_t */
  function BlockLength(length: nat): nat {
    if length >= 9 then length - 9 else length + UINT32 - 9
  }

  function ReadBtPiece(cfg: Config, r: Reader): (Reader, ReadState)
    requires r.reqLength > 0 ==> |r.block| < r.reqLength
  {
    if r.reqLength > 0 then ReadBlock(cfg, r)
    else if |r.inbuf| < 8 then (r, ReadLater)
    else (r.(index := BigEndian(r.inbuf[..4]), offset := BigEndian(r.inbuf[4..8]),
             reqLength := BlockLength(r.length), inbuf := r.inbuf[8..]), ReadNow)
  }

  /** A block that could not be kept has been handed on all the same, and the next message comes next. */
  function ReadBlock(cfg: Config, r: Reader): (Reader, ReadState)
    requires |r.block| < r.reqLength
  {
    var left := r.reqLength - |r.block|;
    var n := if left < |r.inbuf| then left else |r.inbuf|;
    var block := r.block + r.inbuf[..n];
    if n < left then (r.(block := block, inbuf := r.inbuf[n..]), ReadLater)
    else
      (r.(got := r.got + [Block(r.index, r.offset, block)], block := [], reqLength := 0, inbuf := r.inbuf[n..],
          stage := AwaitLength), if cfg.saves(r.index, r.offset, block) then ReadNow else ReadErr)
  }

  predicate Ok(r: Reader) {
    (r.stage != AwaitLength ==> r.length > 0) && (r.stage == AwaitMessage ==> r.length > 1) &&
    (r.reqLength > 0 ==> |r.block| < r.reqLength) && (r.reqLength == 0 ==> r.block == []) &&
    (r.stage != AwaitPiece ==> r.reqLength == 0)
  }

  /** A step either reads bytes, or marks the peer, or changes nothing. */
  predicate Advances(r: Reader, next: Reader) {
    |next.inbuf| < |r.inbuf| || (next == r.(doPurge := true) && !r.doPurge) || next == r
  }

  /** canRead */
  function CanRead(cfg: Config, r: Reader): (res: (Reader, ReadState))
    requires Ok(r)
    ensures Ok(res.0) && Advances(r, res.0) && r.got <= res.0.got && (r.doPurge ==> res.0.doPurge)
    ensures res.1 == ReadNow ==> |res.0.inbuf| < |r.inbuf|
    ensures res.1 == ReadLater ==> res.0 == r || res.0.inbuf == []
    ensures res.1 == ReadErr ==> res.0.stage != AwaitPiece
  {
    if r.inbuf == [] then (r, ReadLater)
    else match r.stage
      case AwaitPiece => ReadBtPiece(cfg, r)
      case AwaitLength => ReadBtLength(r)
      case AwaitId => ReadBtId(cfg, r)
      case AwaitMessage => ReadBtMessage(cfg, r)
  }

  /** canReadWrapper: as much as can be read now.  An error only ends the reading; what is left in the buffer waits for
      the next time there is something to read. */
  function Run(cfg: Config, r: Reader): (res: Reader)
    requires Ok(r)
    ensures Ok(res)
    decreases |r.inbuf|
  {
    if r.inbuf == [] then r else
      var (r1, state) := CanRead(cfg, r);
      if state == ReadNow then Run(cfg, r1) else r1
  }

  /** Reading what is there now ends with a block or a message that is refused. */
  predicate Refused(cfg: Config, r: Reader)
    requires Ok(r)
    decreases |r.inbuf|
  {
    r.inbuf != [] &&
    var (r1, state) := CanRead(cfg, r);
    state == ReadErr || (state == ReadNow && Refused(cfg, r1))
  }

  /** More bytes come in. */
  function Push(r: Reader, b: Bytes): Reader {
    r.(inbuf := r.inbuf + b)
  }

  function Feed(cfg: Config, r: Reader, b: Bytes): (res: Reader)
    requires Ok(r)
    ensures Ok(res)
  {
    Run(cfg, Push(r, b))
  }

  // ---------- one step and more bytes ----------

  /** What was read does not depend on what comes after it. */
  lemma StepThenPush(cfg: Config, r: Reader, b: Bytes)
    requires Ok(r) && r.inbuf != [] && CanRead(cfg, r).1 != ReadLater
    ensures CanRead(cfg, Push(r, b)) == (Push(CanRead(cfg, r).0, b), CanRead(cfg, r).1)
  {
    match r.stage
    case AwaitLength => SliceOfPush(r.inbuf, b, 4);
    case AwaitId => IdThenPush(cfg, r, b);
    case AwaitMessage => SliceOfPush(r.inbuf, b, r.length - 1);
    case AwaitPiece => PieceThenPush(cfg, r, b);
  }

  lemma SliceOfPush(s: Bytes, b: Bytes, n: nat)
    requires n <= |s|
    ensures (s + b)[..n] == s[..n] && (s + b)[n..] == s[n..] + b
  {
  }

  lemma IdThenPush(cfg: Config, r: Reader, b: Bytes)
    requires r.length > 0 && r.inbuf != [] && ReadBtId(cfg, r).1 != ReadLater
    ensures ReadBtId(cfg, Push(r, b)) == (Push(ReadBtId(cfg, r).0, b), ReadBtId(cfg, r).1)
  {
    SliceOfPush(r.inbuf, b, 1);
    var r1 := r.(id := r.inbuf[0], inbuf := r.inbuf[1..]);
    SliceOfPush(r1.inbuf, b, 0);
    assert Push(r, b).(id := r.inbuf[0], inbuf := (r.inbuf + b)[1..]) == Push(r1, b);
  }

  lemma PieceThenPush(cfg: Config, r: Reader, b: Bytes)
    requires Ok(r) && r.stage == AwaitPiece && r.inbuf != [] && ReadBtPiece(cfg, r).1 != ReadLater
    ensures ReadBtPiece(cfg, Push(r, b)) == (Push(ReadBtPiece(cfg, r).0, b), ReadBtPiece(cfg, r).1)
  {
    if r.reqLength == 0 {
      SliceOfPush(r.inbuf, b, 4);
      SliceOfPush(r.inbuf, b, 8);
      assert (r.inbuf + b)[4..8] == r.inbuf[4..8];
    } else {
      SliceOfPush(r.inbuf, b, r.reqLength - |r.block|);
    }
  }

  /** A block of which only a part has come yet takes in that part; reading the rest then comes to the same as
      reading both parts at once. */
  lemma PartThenRest(cfg: Config, r: Reader, b: Bytes)
    requires |r.block| + |r.inbuf| < r.reqLength
    ensures ReadBlock(cfg, r) == (r.(block := r.block + r.inbuf, inbuf := []), ReadLater)
    ensures ReadBlock(cfg, Push(r, b)) == ReadBlock(cfg, Push(r.(block := r.block + r.inbuf, inbuf := []), b))
  {
    var left := r.reqLength - |r.block|;
    var n := if left < |r.inbuf| + |b| then left else |r.inbuf| + |b|;
    JoinParts(r.block, r.inbuf, b, n);
    assert [] + b == b && r.inbuf[..|r.inbuf|] == r.inbuf && r.inbuf[|r.inbuf|..] == [];
  }

  lemma JoinParts(block: Bytes, s: Bytes, b: Bytes, n: nat)
    requires |s| <= n <= |s| + |b|
    ensures block + (s + b)[..n] == (block + s) + b[..n - |s|] && (s + b)[n..] == b[n - |s|..]
  {
    assert (s + b)[..n] == s + b[..n - |s|];
  }

  /** What cannot be read yet: nothing is changed, or all of it becomes part of the block. */
  lemma LaterThenPush(cfg: Config, r: Reader, b: Bytes)
    requires Ok(r) && r.inbuf != [] && b != [] && CanRead(cfg, r).1 == ReadLater
    ensures CanRead(cfg, Push(r, b)) == CanRead(cfg, Push(CanRead(cfg, r).0, b))
  {
    if r.stage == AwaitPiece && r.reqLength > 0 {
      PartThenRest(cfg, r, b);
    }
  }

  lemma RunOf(cfg: Config, r: Reader)
    requires Ok(r) && r.inbuf != []
    ensures var (r1, state) := CanRead(cfg, r); Run(cfg, r) == if state == ReadNow then Run(cfg, r1) else r1
  {
  }

  lemma PushNothing(r: Reader)
    ensures Push(r, []) == r
  {
    assert r.inbuf + [] == r.inbuf;
  }

  lemma PushTwice(r: Reader, a: Bytes, b: Bytes)
    ensures Push(Push(r, a), b) == Push(r, a + b)
  {
    assert (r.inbuf + a) + b == r.inbuf + (a + b);
  }

  // ---------- reading in portions ----------

  /** Reading what there is and then the rest, or all at once, if nothing is refused */
  lemma {:induction false} RunThenFeed(cfg: Config, r: Reader, b: Bytes)
    requires Ok(r) && !Refused(cfg, r)
    ensures Feed(cfg, Run(cfg, r), b) == Feed(cfg, r, b)
    decreases |r.inbuf|
  {
    if b == [] {
      PushNothing(r);
      PushNothing(Run(cfg, r));
      RunIsDone(cfg, r);
    } else if r.inbuf != [] {
      var (r1, state) := CanRead(cfg, r);
      RunOf(cfg, Push(r, b));
      if state == ReadNow {
        StepThenPush(cfg, r, b);
        RunThenFeed(cfg, r1, b);
      } else {
        LaterThenPush(cfg, r, b);
        RunOf(cfg, Push(r1, b));
      }
    }
  }

  /** Reading again without new bytes changes nothing, if nothing was refused. */
  lemma {:induction false} RunIsDone(cfg: Config, r: Reader)
    requires Ok(r) && !Refused(cfg, r)
    ensures Run(cfg, Run(cfg, r)) == Run(cfg, r)
    decreases |r.inbuf|
  {
    if r.inbuf != [] {
      var (r1, state) := CanRead(cfg, r);
      if state == ReadNow {
        RunIsDone(cfg, r1);
      }
    }
  }

  /** Where something is refused, what comes after it stays unread. */
  lemma {:induction false} RefusedThenPush(cfg: Config, r: Reader, b: Bytes)
    requires Ok(r) && Refused(cfg, r)
    ensures Refused(cfg, Push(r, b)) && Feed(cfg, r, b) == Push(Run(cfg, r), b)
    ensures Run(cfg, r).stage != AwaitPiece
    decreases |r.inbuf|
  {
    StepThenPush(cfg, r, b);
    RunOf(cfg, Push(r, b));
    if CanRead(cfg, r).1 == ReadNow {
      RefusedThenPush(cfg, CanRead(cfg, r).0, b);
    }
  }

  /** Nothing more happens until more bytes come. */
  predicate AtRest(cfg: Config, r: Reader)
    requires Ok(r)
  {
    r.inbuf == [] || CanRead(cfg, r).0 == r
  }

  lemma AtRestBefore(cfg: Config, r: Reader, b: Bytes)
    requires Ok(r) && r.stage != AwaitPiece && AtRest(cfg, Push(r, b))
    ensures AtRest(cfg, r)
  {
    if r.inbuf != [] && CanRead(cfg, r).1 != ReadLater {
      StepThenPush(cfg, r, b);
      assert Push(CanRead(cfg, r).0, b) == Push(r, b);
      SamePush(CanRead(cfg, r).0, r, b);
    }
  }

  lemma SamePush(p: Reader, r: Reader, b: Bytes)
    requires Push(p, b) == Push(r, b)
    ensures p == r
  {
    assert |p.inbuf| == |r.inbuf|;
    assert p.inbuf == (p.inbuf + b)[..|p.inbuf|] && r.inbuf == (r.inbuf + b)[..|r.inbuf|];
  }

  function Concat(chunks: seq<Bytes>): Bytes {
    if chunks == [] then [] else Concat(chunks[..|chunks| - 1]) + chunks[|chunks| - 1]
  }

  /** One read event after the other.  An event may come without new bytes. */
  function FeedAll(cfg: Config, r: Reader, chunks: seq<Bytes>): (res: Reader)
    requires Ok(r)
    ensures Ok(res)
  {
    if chunks == [] then r
    else Feed(cfg, FeedAll(cfg, r, chunks[..|chunks| - 1]), chunks[|chunks| - 1])
  }

  /** All of a stream at once leaves nothing that could be read: either nothing is refused, or what is left behind
      what was refused is not enough to go on with. */
  predicate LeavesNothing(cfg: Config, r: Reader, s: Bytes)
    requires Ok(r)
  {
    Refused(cfg, Push(r, s)) ==> AtRest(cfg, Feed(cfg, r, s))
  }

  lemma {:induction false} AnyChunks(cfg: Config, r: Reader, chunks: seq<Bytes>)
    requires Ok(r) && r.inbuf == [] && LeavesNothing(cfg, r, Concat(chunks))
    ensures FeedAll(cfg, r, chunks) == Feed(cfg, r, Concat(chunks))
  {
    if chunks == [] {
      PushNothing(r);
    } else {
      var before, last := chunks[..|chunks| - 1], chunks[|chunks| - 1];
      var all := Push(r, Concat(before));
      PushTwice(r, Concat(before), last);
      if Refused(cfg, all) {
        RefusedThenPush(cfg, all, last);
        AtRestBefore(cfg, Run(cfg, all), last);
      } else {
        RunThenFeed(cfg, all, last);
      }
      AnyChunks(cfg, r, before);
    }
  }

  /** A step needs no more than it takes, unless it marks the peer and leaves everything where it is. */
  lemma StepOfPart(cfg: Config, r: Reader, p: nat)
    requires Ok(r) && 0 < p <= |r.inbuf| && CanRead(cfg, r).1 != ReadLater
    requires |CanRead(cfg, r).0.inbuf| < |r.inbuf| && |r.inbuf| - |CanRead(cfg, r).0.inbuf| <= p
    ensures var q, (next, state) := r.(inbuf := r.inbuf[..p]), CanRead(cfg, r);
      |r.inbuf| - p <= |next.inbuf| && next.inbuf[|next.inbuf| - (|r.inbuf| - p)..] == r.inbuf[p..] &&
      CanRead(cfg, q) == (next.(inbuf := next.inbuf[..|next.inbuf| - (|r.inbuf| - p)]), state)
  {
    var q, b := r.(inbuf := r.inbuf[..p]), r.inbuf[p..];
    assert q.inbuf + b == r.inbuf;
    EnoughForStep(cfg, r, p);
    StepThenPush(cfg, q, b);
    var next, part := CanRead(cfg, r).0, CanRead(cfg, q).0;
    assert next == Push(part, b) && next.inbuf == part.inbuf + b;
    assert next.inbuf[..|part.inbuf|] == part.inbuf && next.inbuf[|part.inbuf|..] == b;
  }

  lemma EnoughForStep(cfg: Config, r: Reader, p: nat)
    requires Ok(r) && 0 < p <= |r.inbuf| && CanRead(cfg, r).1 != ReadLater
    requires |CanRead(cfg, r).0.inbuf| < |r.inbuf| && |r.inbuf| - |CanRead(cfg, r).0.inbuf| <= p
    ensures CanRead(cfg, r.(inbuf := r.inbuf[..p])).1 != ReadLater
  {
  }

  /** A step after which there is something to read has taken something. */
  lemma SomethingTaken(cfg: Config, r: Reader)
    requires Ok(r) && r.inbuf != [] && CanRead(cfg, r).1 == ReadErr && !AtRest(cfg, CanRead(cfg, r).0)
    ensures |CanRead(cfg, r).0.inbuf| < |r.inbuf|
  {
  }

  /** What is left after an error can be told apart from what was taken: the part that was taken leads to the same state. */
  lemma {:induction false} TakenPart(cfg: Config, r: Reader) returns (p: nat)
    requires Ok(r) && Refused(cfg, r) && !AtRest(cfg, Run(cfg, r))
    ensures 0 < p <= |r.inbuf| && Run(cfg, r).inbuf == r.inbuf[p..]
    ensures Run(cfg, r.(inbuf := r.inbuf[..p])) == Run(cfg, r).(inbuf := [])
    decreases |r.inbuf|
  {
    var (next, state) := CanRead(cfg, r);
    if state == ReadNow {
      var more := TakenPart(cfg, next);
      p := |r.inbuf| - |next.inbuf| + more;
    } else {
      SomethingTaken(cfg, r);
      p := |r.inbuf| - |next.inbuf|;
    }
    StepOfPart(cfg, r, p);
    RunOf(cfg, r.(inbuf := r.inbuf[..p]));
  }

  lemma TwoChunks(cfg: Config, r: Reader, a: Bytes, b: Bytes)
    requires Ok(r)
    ensures Concat([a, b]) == a + b && FeedAll(cfg, r, [a, b]) == Feed(cfg, Feed(cfg, r, a), b)
  {
    var one := [a];
    assert [a, b][..1] == one && one[..0] == [];
    assert Concat(one) == [] + a == a && FeedAll(cfg, r, one) == Feed(cfg, r, a);
  }

  /** A cut into two chunks, neither of them empty, that shows */
  lemma CutAtError(cfg: Config, r: Reader, s: Bytes) returns (a: Bytes, b: Bytes)
    requires Ok(r) && r.inbuf == [] && !LeavesNothing(cfg, r, s)
    ensures a != [] && b != [] && Concat([a, b]) == s && FeedAll(cfg, r, [a, b]) != Feed(cfg, r, s)
  {
    var all, w := Push(r, s), Feed(cfg, r, s);
    assert all.inbuf == s;
    var p := TakenPart(cfg, all);
    a, b := s[..p], s[p..];
    TwoChunks(cfg, r, a, b);
    assert a + b == s && Push(r, a) == all.(inbuf := a);
    assert Push(w.(inbuf := []), b) == w;
    GoesOn(cfg, w);
  }

  /** How a stream is cut makes no difference if and only if reading it all at once leaves nothing that could be read;
      that there may be events without new bytes does not matter. */
  lemma ChunksDoNotMatter(cfg: Config, r: Reader, s: Bytes)
    requires Ok(r) && r.inbuf == []
    ensures (forall chunks :: Concat(chunks) == s ==> FeedAll(cfg, r, chunks) == Feed(cfg, r, s)) <==> LeavesNothing(cfg, r, s)
    ensures (forall chunks :: Concat(chunks) == s && [] !in chunks ==> FeedAll(cfg, r, chunks) == Feed(cfg, r, s))
       <==> LeavesNothing(cfg, r, s)
  {
    if LeavesNothing(cfg, r, s) {
      forall chunks | Concat(chunks) == s
        ensures FeedAll(cfg, r, chunks) == Feed(cfg, r, s)
      {
        AnyChunks(cfg, r, chunks);
      }
    } else {
      var a, b := CutAtError(cfg, r, s);
      assert [] !in [a, b];
    }
  }

  lemma {:induction false} RunAdvances(cfg: Config, r: Reader)
    requires Ok(r)
    ensures Advances(r, Run(cfg, r)) && r.got <= Run(cfg, r).got && (r.doPurge ==> Run(cfg, r).doPurge)
    decreases |r.inbuf|
  {
    if r.inbuf != [] && CanRead(cfg, r).1 == ReadNow {
      RunAdvances(cfg, CanRead(cfg, r).0);
    }
  }

  lemma GoesOn(cfg: Config, r: Reader)
    requires Ok(r) && !AtRest(cfg, r)
    ensures Run(cfg, r) != r
  {
    var (r1, state) := CanRead(cfg, r);
    if state == ReadNow {
      RunAdvances(cfg, r1);
    }
  }

  // ---------- once all has been read ----------

  /** What is reached after as many read events as it takes */
  function Settled(cfg: Config, r: Reader): (res: Reader)
    requires Ok(r)
    ensures Ok(res) && AtRest(cfg, res) && r.got <= res.got && (r.doPurge ==> res.doPurge)
    decreases |r.inbuf|, !r.doPurge
  {
    if AtRest(cfg, r) then r else Settled(cfg, CanRead(cfg, r).0)
  }

  lemma {:induction false} SettledRun(cfg: Config, r: Reader)
    requires Ok(r)
    ensures Settled(cfg, Run(cfg, r)) == Settled(cfg, r)
    decreases |r.inbuf|
  {
    if r.inbuf != [] && CanRead(cfg, r).1 == ReadNow {
      SettledRun(cfg, CanRead(cfg, r).0);
    }
  }

  lemma {:induction false} SettledThenPush(cfg: Config, r: Reader, b: Bytes)
    requires Ok(r)
    ensures Settled(cfg, Push(Settled(cfg, r), b)) == Settled(cfg, Push(r, b))
    decreases |r.inbuf|, !r.doPurge
  {
    if !AtRest(cfg, r) {
      var r1 := CanRead(cfg, r).0;
      SettledThenPush(cfg, r1, b);
      if CanRead(cfg, r).1 != ReadLater {
        StepThenPush(cfg, r, b);
        if Push(r1, b) == Push(r, b) {
          SamePush(r1, r, b);
        }
      } else if b == [] {
        PushNothing(r);
        PushNothing(r1);
      } else {
        LaterThenPush(cfg, r, b);
      }
    }
  }

  /** However a stream is cut, and whatever is refused: once all that can be read has been read, the connection is in the
      same state, and has handed on the same messages. */
  lemma {:induction false} SettledAlike(cfg: Config, r: Reader, chunks: seq<Bytes>)
    requires Ok(r)
    ensures Settled(cfg, FeedAll(cfg, r, chunks)) == Settled(cfg, Push(r, Concat(chunks)))
  {
    if chunks == [] {
      PushNothing(r);
    } else {
      var before, last := chunks[..|chunks| - 1], chunks[|chunks| - 1];
      var p := FeedAll(cfg, r, before);
      SettledRun(cfg, Push(p, last));
      SettledAlike(cfg, r, before);
      SettledThenPush(cfg, p, last);
      SettledThenPush(cfg, Push(r, Concat(before)), last);
      PushTwice(r, Concat(before), last);
    }
  }

  // ---------- the messages of a stream ----------

  /** The length prefix of a frame, which does not count itself */
  function LengthOf(s: Bytes): nat
    requires |s| >= 4
  {
    BigEndian(s[..4])
  }

  predicate IsComplete(s: Bytes) {
    |s| >= 4 && |s| >= 4 + LengthOf(s)
  }

  /** Every whole piece message in the stream has a block to it. */
  predicate PiecesAreLong(s: Bytes) {
    IsComplete(s) ==>
      (LengthOf(s) > 0 && s[4] == BT_PIECE ==> LengthOf(s) > 9) && PiecesAreLong(s[4 + LengthOf(s)..])
  }

  /** The messages up to the first one that is refused, if there is one, and whether blocks before it are refused */
  datatype Parsed = Parsed(got: seq<Message>, refusedMessage: bool, refusedBlock: bool)

  /** The messages of a stream, one frame after the other */
  function Parse(cfg: Config, s: Bytes, got: seq<Message>): Parsed
    requires PiecesAreLong(s)
    decreases |s|
  {
    if !IsComplete(s) then Parsed(got, false, false) else
      var len := LengthOf(s);
      var rest := s[4 + len..];
      if len == 0 then Parse(cfg, rest, got)
      else if s[4] == BT_PIECE then
        var m := Block(BigEndian(s[5..9]), BigEndian(s[9..13]), s[13..4 + len]);
        var p := Parse(cfg, rest, got + [m]);
        if cfg.saves(m.index, m.offset, m.data) then p else p.(refusedBlock := true)
      else if Takes(cfg, got, s[4], s[5..4 + len]) then Parse(cfg, rest, got + [Msg(s[4], s[5..4 + len])])
      else Parsed(got, true, false)
  }

  /** Behind a message that is refused nothing can be read: its length is wrong, or too little has come to be taken for
      another payload of it. */
  predicate IsStuck(cfg: Config, got: seq<Message>, id: Byte, len: nat, rest: Bytes) {
    if len == 1 then rest == [] else !LengthIsCorrect(cfg, got, id, len) || |rest| < len - 1
  }

  /** Behind the first frame that is refused, if there is one, nothing can be read. */
  predicate NothingWaits(cfg: Config, s: Bytes, got: seq<Message>)
    requires PiecesAreLong(s)
    decreases |s|
  {
    IsComplete(s) ==>
      var len := LengthOf(s);
      var rest := s[4 + len..];
      if len == 0 then NothingWaits(cfg, rest, got)
      else if s[4] == BT_PIECE then
        var m := Block(BigEndian(s[5..9]), BigEndian(s[9..13]), s[13..4 + len]);
        if cfg.saves(m.index, m.offset, m.data) then NothingWaits(cfg, rest, got + [m]) else |rest| < 4
      else if Takes(cfg, got, s[4], s[5..4 + len]) then NothingWaits(cfg, rest, got + [Msg(s[4], s[5..4 + len])])
      else IsStuck(cfg, got, s[4], len, rest)
  }

  /** Between two messages */
  predicate Idle(r: Reader) {
    r.stage == AwaitLength && r.reqLength == 0 && r.block == [] && r.inbuf == []
  }

  /** Reading from a comes to the same as reading from b. */
  ghost predicate Continues(cfg: Config, a: Reader, b: Reader)
    requires Ok(a) && Ok(b)
  {
    Settled(cfg, a) == Settled(cfg, b) && Run(cfg, a) == Run(cfg, b) && (Refused(cfg, a) <==> Refused(cfg, b))
  }

  lemma StepContinues(cfg: Config, a: Reader, b: Reader)
    requires Ok(a) && a.inbuf != [] && CanRead(cfg, a) == (b, ReadNow)
    ensures Continues(cfg, a, b)
  {
  }

  /** Reading has come to the middle of a message. */
  ghost predicate Waits(cfg: Config, r: Reader)
    requires Ok(r)
  {
    var res := Settled(cfg, r);
    !Refused(cfg, r) && res.got == r.got && res.doPurge == r.doPurge
  }

  lemma RestWaits(cfg: Config, r: Reader)
    requires Ok(r) && (r.inbuf == [] || CanRead(cfg, r).1 == ReadLater)
    ensures Waits(cfg, r)
  {
  }

  /** The length prefix */
  lemma ReadsLength(cfg: Config, r: Reader, s: Bytes)
    requires Idle(r) && |s| >= 4
    ensures var len := LengthOf(s); Continues(cfg, Push(r, s),
      if len == 0 then Push(r, s[4..]) else r.(length := len, stage := AwaitId, inbuf := s[4..]))
  {
    assert [] + s == s && [] + s[4..] == s[4..];
    StepContinues(cfg, Push(r, s), if LengthOf(s) == 0 then Push(r, s[4..])
                                   else r.(length := LengthOf(s), stage := AwaitId, inbuf := s[4..]));
  }

  /** A connection whose next byte is the id of a message */
  predicate AtId(r: Reader) {
    r.stage == AwaitId && r.reqLength == 0 && r.block == [] && 0 < r.length && r.inbuf != []
  }

  /** A message without payload is refused as soon as its id has been read, and the next byte is taken for an id again. */
  lemma RefusesShort(cfg: Config, r: Reader)
    requires AtId(r) && r.inbuf[0] != BT_PIECE && r.length == 1 && !Takes(cfg, r.got, r.inbuf[0], [])
    ensures Refused(cfg, r) && Settled(cfg, r).doPurge && (AtRest(cfg, Run(cfg, r)) <==> r.inbuf[1..] == [])
  {
    var t := r.inbuf[1..];
    assert t[..0] == [] && t[0..] == t;
    Refuses(cfg, r);
    RunOf(cfg, r);
  }

  /** Any other message is refused once all of it has come. */
  lemma RefusesLong(cfg: Config, r: Reader)
    requires r.stage == AwaitMessage && r.reqLength == 0 && r.block == [] && 1 < r.length <= |r.inbuf| + 1
    requires !Takes(cfg, r.got, r.id, r.inbuf[..r.length - 1])
    ensures Refused(cfg, r) && Settled(cfg, r).doPurge
    ensures AtRest(cfg, Run(cfg, r)) <==> IsStuck(cfg, r.got, r.id, r.length, r.inbuf[r.length - 1..])
  {
    Refuses(cfg, r);
    RunOf(cfg, r);
  }

  /** A message other than a piece: not there yet, taken, or refused */
  lemma ReadsMessage(cfg: Config, r: Reader) returns (next: Reader)
    requires AtId(r) && r.inbuf[0] != BT_PIECE
    ensures var s := r.inbuf; var payload := if r.length <= |s| then s[1..r.length] else [];
      if |s| < r.length then Waits(cfg, r)
      else if !Takes(cfg, r.got, s[0], payload) then (Refused(cfg, r) && Settled(cfg, r).doPurge &&
        (AtRest(cfg, Run(cfg, r)) <==> IsStuck(cfg, r.got, s[0], r.length, s[r.length..])))
      else (Idle(next) && next.got == r.got + [Msg(s[0], payload)] && next.doPurge == r.doPurge &&
            Continues(cfg, r, Push(next, s[r.length..])))
  {
    var s, msglen := r.inbuf, r.length - 1;
    next := r;
    var r1 := r.(id := s[0], inbuf := s[1..]);
    if r.length != 1 {
      r1 := r1.(stage := AwaitMessage);
      StepContinues(cfg, r, r1);
    }
    if |s| < r.length {
      RestWaits(cfg, r1);
    } else {
      assert s[1..][..msglen] == s[1..r.length] && s[1..][msglen..] == s[r.length..];
      assert [] + s[r.length..] == s[r.length..];
      var before := if r.length == 1 then r else r1;
      if Takes(cfg, r.got, s[0], s[1..r.length]) {
        next := r1.(got := r.got + [Msg(s[0], s[1..r.length])], inbuf := [], stage := AwaitLength);
        StepContinues(cfg, before, Push(next, s[r.length..]));
      } else if r.length == 1 {
        RefusesShort(cfg, r);
      } else {
        RefusesLong(cfg, r1);
      }
    }
  }

  lemma Refuses(cfg: Config, r: Reader)
    requires Ok(r) && r.inbuf != [] && CanRead(cfg, r).1 == ReadErr && CanRead(cfg, r).0.doPurge
    ensures Refused(cfg, r) && Settled(cfg, r).doPurge
  {
  }

  /** A piece message: not there yet, kept, or refused; a refused one does not stop the reading for good. */
  lemma ReadsPiece(cfg: Config, r: Reader) returns (next: Reader)
    requires AtId(r) && r.inbuf[0] == BT_PIECE && (r.length <= |r.inbuf| ==> r.length > 9)
    ensures var s := r.inbuf;
      if |s| < r.length then Waits(cfg, r)
      else
        var m := Block(BigEndian(s[1..5]), BigEndian(s[5..9]), s[9..r.length]);
        Idle(next) && next.got == r.got + [m] && next.doPurge == r.doPurge &&
        if cfg.saves(m.index, m.offset, m.data) then Continues(cfg, r, Push(next, s[r.length..]))
        else Refused(cfg, r) && Settled(cfg, r) == Settled(cfg, Push(next, s[r.length..])) &&
             (AtRest(cfg, Run(cfg, r)) <==> |s| - r.length < 4)
  {
    var s := r.inbuf;
    next := r;
    var r1 := r.(id := s[0], inbuf := s[1..], stage := AwaitPiece);
    StepContinues(cfg, r, r1);
    if |s| < 9 {
      RestWaits(cfg, r1);
    } else {
      var r2 := HeaderRead(cfg, r1, s);
      if |s| < r.length {
        RestWaits(cfg, r2);
      } else {
        next := BlockRead(cfg, r2, s, r.length);
      }
    }
  }

  lemma HeaderRead(cfg: Config, r: Reader, s: Bytes) returns (next: Reader)
    requires r.stage == AwaitPiece && r.length > 9 && r.reqLength == 0 && r.block == [] && |s| >= 9 && r.inbuf == s[1..]
    ensures next == r.(index := BigEndian(s[1..5]), offset := BigEndian(s[5..9]), reqLength := r.length - 9, inbuf := s[9..])
    ensures Continues(cfg, r, next)
  {
    assert s[1..][..4] == s[1..5] && s[1..][4..8] == s[5..9] && s[1..][8..] == s[9..];
    next := r.(index := BigEndian(s[1..5]), offset := BigEndian(s[5..9]), reqLength := r.length - 9, inbuf := s[9..]);
    StepContinues(cfg, r, next);
  }

  lemma BlockRead(cfg: Config, r: Reader, s: Bytes, length: nat) returns (next: Reader)
    requires r.stage == AwaitPiece && r.length == length && 9 < length <= |s| && r.reqLength == length - 9
    requires r.block == [] && r.inbuf == s[9..]
    ensures var m := Block(r.index, r.offset, s[9..length]);
      Idle(next) && next.got == r.got + [m] && next.doPurge == r.doPurge &&
      if cfg.saves(m.index, m.offset, m.data) then Continues(cfg, r, Push(next, s[length..]))
      else Refused(cfg, r) && Settled(cfg, r) == Settled(cfg, Push(next, s[length..])) &&
           (AtRest(cfg, Run(cfg, r)) <==> |s| - length < 4)
  {
    var n := length - 9;
    assert s[9..][..n] == s[9..length] && s[9..][n..] == s[length..] && [] + s[9..length] == s[9..length];
    var m := Block(r.index, r.offset, s[9..length]);
    next := r.(got := r.got + [m], block := [], reqLength := 0, inbuf := [], stage := AwaitLength);
    assert [] + s[length..] == s[length..];
    assert CanRead(cfg, r).0 == Push(next, s[length..]);
    if cfg.saves(m.index, m.offset, m.data) {
      StepContinues(cfg, r, Push(next, s[length..]));
    }
  }

  /** What the stream s does to an idle connection, as its frames say */
  ghost predicate AsParsed(cfg: Config, r: Reader, s: Bytes, p: Parsed)
    requires Idle(r) && PiecesAreLong(s)
  {
    var all := Push(r, s);
    var res := Settled(cfg, all);
    (Refused(cfg, all) <==> p.refusedMessage || p.refusedBlock) && p.got <= res.got &&
    (LeavesNothing(cfg, r, s) <==> NothingWaits(cfg, s, r.got)) &&
    if p.refusedMessage then res.doPurge else res.got == p.got && res.doPurge == r.doPurge
  }

  lemma NothingYet(cfg: Config, r: Reader, s: Bytes)
    requires Idle(r) && !IsComplete(s) && Waits(cfg, Push(r, s))
    ensures AsParsed(cfg, r, s, Parsed(r.got, false, false))
  {
  }

  lemma KeepAlive(cfg: Config, r: Reader, s: Bytes, p: Parsed)
    requires Idle(r) && |s| >= 4 && LengthOf(s) == 0 && PiecesAreLong(s) && PiecesAreLong(s[4..])
    requires AsParsed(cfg, r, s[4..], p) && Continues(cfg, Push(r, s), Push(r, s[4..]))
    ensures AsParsed(cfg, r, s, p)
  {
    assert s[4 + LengthOf(s)..] == s[4..];
  }

  /** Reading a stream hands on the messages of its frames, each of 4 + length bytes: all of them, blocks that are refused
      included, or at least those before the first message that is refused, which gets the peer marked. */
  lemma {:induction false} ReadsAsParsed(cfg: Config, r: Reader, s: Bytes)
    requires Idle(r) && PiecesAreLong(s)
    ensures AsParsed(cfg, r, s, Parse(cfg, s, r.got))
    decreases |s|
  {
    assert [] + s == s;
    if |s| < 4 {
      RestWaits(cfg, Push(r, s));
      NothingYet(cfg, r, s);
    } else {
      var len, t := LengthOf(s), s[4..];
      ReadsLength(cfg, r, s);
      var r1 := r.(length := len, stage := AwaitId, inbuf := t);
      if len == 0 {
        assert t == s[4 + len..];
        ReadsAsParsed(cfg, r, t);
        KeepAlive(cfg, r, s, Parse(cfg, t, r.got));
      } else if t == [] {
        RestWaits(cfg, r1);
        NothingYet(cfg, r, s);
      } else if t[0] == BT_PIECE {
        PieceAsParsed(cfg, r, s, r1);
      } else {
        MessageAsParsed(cfg, r, s, r1);
      }
    }
  }

  lemma {:induction false} MessageAsParsed(cfg: Config, r: Reader, s: Bytes, r1: Reader)
    requires Idle(r) && PiecesAreLong(s) && |s| > 4 && LengthOf(s) > 0 && s[4] != BT_PIECE
    requires r1 == r.(length := LengthOf(s), stage := AwaitId, inbuf := s[4..]) && Continues(cfg, Push(r, s), r1)
    ensures AsParsed(cfg, r, s, Parse(cfg, s, r.got))
    decreases |s|, 0
  {
    var len, t := LengthOf(s), s[4..];
    assert len <= |t| ==> t[1..len] == s[5..4 + len] && t[len..] == s[4 + len..];
    var next := ReadsMessage(cfg, r1);
    if len <= |t| && Takes(cfg, r.got, t[0], t[1..len]) {
      ReadsAsParsed(cfg, next, s[4 + len..]);
    }
  }

  lemma {:induction false} PieceAsParsed(cfg: Config, r: Reader, s: Bytes, r1: Reader)
    requires Idle(r) && PiecesAreLong(s) && |s| > 4 && LengthOf(s) > 0 && s[4] == BT_PIECE
    requires r1 == r.(length := LengthOf(s), stage := AwaitId, inbuf := s[4..]) && Continues(cfg, Push(r, s), r1)
    ensures AsParsed(cfg, r, s, Parse(cfg, s, r.got))
    decreases |s|, 0
  {
    var len, t := LengthOf(s), s[4..];
    assert 9 < len <= |t| ==> t[1..5] == s[5..9] && t[5..9] == s[9..13] && t[9..len] == s[13..4 + len] && t[len..] == s[4 + len..];
    var next := ReadsPiece(cfg, r1);
    if len <= |t| {
      ReadsAsParsed(cfg, next, s[4 + len..]);
    }
  }

  /** For a stream as it comes to an idle connection: how it is cut makes no difference if and only if nothing that can be
      read follows the first of its frames that is refused. */
  lemma FramesDecide(cfg: Config, r: Reader, s: Bytes)
    requires Idle(r) && PiecesAreLong(s)
    ensures (forall chunks :: Concat(chunks) == s && [] !in chunks ==> FeedAll(cfg, r, chunks) == Feed(cfg, r, s))
       <==> NothingWaits(cfg, s, r.got)
  {
    ReadsAsParsed(cfg, r, s);
    ChunksDoNotMatter(cfg, r, s);
  }

  /** A stream in which, frame by frame, nothing is refused can be cut in any way. */
  lemma CleanStream(cfg: Config, r: Reader, chunks: seq<Bytes>)
    requires Idle(r) && PiecesAreLong(Concat(chunks))
    requires var p := Parse(cfg, Concat(chunks), r.got); !p.refusedMessage && !p.refusedBlock
    ensures FeedAll(cfg, r, chunks) == Feed(cfg, r, Concat(chunks))
    ensures FeedAll(cfg, r, chunks).got == Parse(cfg, Concat(chunks), r.got).got && FeedAll(cfg, r, chunks).doPurge == r.doPurge
  {
    var all := Push(r, Concat(chunks));
    ReadsAsParsed(cfg, r, Concat(chunks));
    AnyChunks(cfg, r, chunks);
    SettledRun(cfg, all);
    CleanIsSettled(cfg, all);
  }

  /** Where nothing is refused, one event is enough. */
  lemma {:induction false} CleanIsSettled(cfg: Config, r: Reader)
    requires Ok(r) && !Refused(cfg, r)
    ensures Settled(cfg, r) == Run(cfg, r)
    decreases |r.inbuf|
  {
    if r.inbuf != [] && CanRead(cfg, r).1 == ReadNow {
      CleanIsSettled(cfg, CanRead(cfg, r).0);
    }
  }

  // ---------- where framing is lost, and where a cut shows ----------

  /** A piece message too short to hold any data. */
  predicate IsShortPiece(f: Bytes)
    requires IsComplete(f)
  {
    0 < LengthOf(f) <= 9 && f[4] == BT_PIECE
  }

  predicate IsRefusedMessage(cfg: Config, got: seq<Message>, f: Bytes)
    requires IsComplete(f)
  {
    0 < LengthOf(f) && f[4] != BT_PIECE && !Takes(cfg, got, f[4], f[5..4 + LengthOf(f)])
  }

  /** After one whole frame the connection is ready for the next one: always, except after a message that is refused,
      whose stage is not left, and after a piece message without data, which readBtPiece reads on past the end of. */
  lemma FrameEnds(cfg: Config, r: Reader, f: Bytes)
    requires Idle(r) && IsComplete(f) && |f| == 4 + LengthOf(f)
    ensures Idle(Feed(cfg, r, f)) <==> !IsShortPiece(f) && !IsRefusedMessage(cfg, r.got, f)
  {
    var len, t := LengthOf(f), f[4..];
    assert [] + f == f && [] + t == t;
    var r1 := r.(length := len, stage := AwaitId, inbuf := t);
    RunOf(cfg, Push(r, f));
    assert len > 0 ==> CanRead(cfg, Push(r, f)) == (r1, ReadNow);
    if len == 0 {
      assert t == [];
    } else if t[0] != BT_PIECE {
      assert t[1..] == f[5..4 + len];
      MessageFrame(cfg, r1);
    } else {
      var r2 := r1.(id := t[0], inbuf := t[1..], stage := AwaitPiece);
      RunOf(cfg, r1);
      PieceFrame(cfg, r2);
    }
  }

  lemma MessageFrame(cfg: Config, r: Reader)
    requires AtId(r) && r.inbuf[0] != BT_PIECE && |r.inbuf| == r.length
    ensures Idle(Run(cfg, r)) <==> Takes(cfg, r.got, r.inbuf[0], r.inbuf[1..])
    ensures Takes(cfg, r.got, r.inbuf[0], r.inbuf[1..]) ==> Run(cfg, r).got == r.got + [Msg(r.inbuf[0], r.inbuf[1..])]
  {
    var t := r.inbuf;
    assert t[1..][..r.length - 1] == t[1..] && t[1..][r.length - 1..] == [];
    RunOf(cfg, r);
    if r.length > 1 {
      RunOf(cfg, r.(id := t[0], inbuf := t[1..], stage := AwaitMessage));
    }
  }

  lemma PieceFrame(cfg: Config, r: Reader)
    requires r.stage == AwaitPiece && r.reqLength == 0 && r.block == [] && 0 < r.length && |r.inbuf| == r.length - 1
    ensures Idle(Run(cfg, r)) <==> r.length > 9
  {
    if r.inbuf != [] {
      RunOf(cfg, r);
    }
    if |r.inbuf| >= 8 {
      var next := ReadBtPiece(cfg, r).0;
      if next.inbuf != [] {
        RunOf(cfg, next);
      }
    }
  }

  /** A whole piece message with a block that is refused */
  predicate IsRefusedBlock(cfg: Config, f: Bytes) {
    IsComplete(f) && |f| == 4 + LengthOf(f) && LengthOf(f) > 9 && f[4] == BT_PIECE &&
    !cfg.saves(BigEndian(f[5..9]), BigEndian(f[9..13]), f[13..])
  }

  function BlockOf(f: Bytes): Message
    requires |f| >= 13
  {
    Block(BigEndian(f[5..9]), BigEndian(f[9..13]), f[13..])
  }

  lemma RefusedBlockFrame(cfg: Config, r: Reader, f: Bytes)
    requires Idle(r) && IsRefusedBlock(cfg, f)
    ensures Refused(cfg, Push(r, f))
    ensures var w := Feed(cfg, r, f); Idle(w) && w.got == r.got + [BlockOf(f)] && w.doPurge == r.doPurge
  {
    var len, t := LengthOf(f), f[4..];
    assert [] + f == f;
    var r1 := r.(length := len, stage := AwaitId, inbuf := t);
    var r2 := r1.(id := t[0], stage := AwaitPiece, inbuf := f[5..]);
    assert t[1..] == f[5..] && f[5..][..4] == f[5..9] && f[5..][4..8] == f[9..13] && f[5..][8..] == f[13..];
    var r3 := r2.(index := BigEndian(f[5..9]), offset := BigEndian(f[9..13]), reqLength := len - 9, inbuf := f[13..]);
    assert CanRead(cfg, Push(r, f)) == (r1, ReadNow);
    assert CanRead(cfg, r1) == (r2, ReadNow);
    assert CanRead(cfg, r2) == (r3, ReadNow);
    RunOf(cfg, Push(r, f));
    RunOf(cfg, r1);
    RunOf(cfg, r2);
    LastPart(cfg, r3);
  }

  lemma LastPart(cfg: Config, r: Reader)
    requires r.stage == AwaitPiece && r.block == [] && |r.inbuf| == r.reqLength > 0 && r.length > 0
    requires !cfg.saves(r.index, r.offset, r.inbuf)
    ensures Run(cfg, r) == r.(stage := AwaitLength, reqLength := 0, inbuf := [], got := r.got + [Block(r.index, r.offset, r.inbuf)])
    ensures Refused(cfg, r)
  {
    assert [] + r.inbuf[..|r.inbuf|] == r.inbuf && r.inbuf[|r.inbuf|..] == [];
    RunOf(cfg, r);
  }

  /** Behind a block that is refused, whatever comes stays in the buffer if it has come in the same chunk, and is read if
      it comes in the next one. */
  lemma RefusedBlockDelays(cfg: Config, r: Reader, f: Bytes, g: Bytes)
    requires Idle(r) && IsRefusedBlock(cfg, f)
    ensures Feed(cfg, r, f + g) == Push(Feed(cfg, r, f), g)
    ensures FeedAll(cfg, r, [f, g]) == Feed(cfg, Feed(cfg, r, f), g)
  {
    RefusedBlockFrame(cfg, r, f);
    RefusedThenPush(cfg, Push(r, f), g);
    PushTwice(r, f, g);
    TwoChunks(cfg, r, f, g);
  }

  const PIECE_OF_ONE_BYTE: Bytes := [0, 0, 0, 10, 7, 0, 0, 0, 0, 0, 0, 0, 0, 42]
  const HAVE_ZERO: Bytes := [0, 0, 0, 5, 4, 0, 0, 0, 0]

  lemma FourBytes(s: Bytes)
    requires |s| == 4 && s[0] == 0 && s[1] == 0 && s[2] == 0
    ensures BigEndian(s) == s[3]
  {
    assert BigEndian(s[..3]) == 0 by {
      assert BigEndian(s[..3][..2]) == 0 by {
        assert BigEndian(s[..3][..2][..1]) == 0;
      }
    }
  }

  lemma TakenFrame(cfg: Config, r: Reader, f: Bytes)
    requires Idle(r) && IsComplete(f) && |f| == 4 + LengthOf(f) && LengthOf(f) > 0 && f[4] != BT_PIECE
    requires Takes(cfg, r.got, f[4], f[5..])
    ensures Feed(cfg, r, f).got == r.got + [Msg(f[4], f[5..])]
  {
    assert [] + f == f && f[4..][1..] == f[5..];
    var r1 := r.(length := LengthOf(f), stage := AwaitId, inbuf := f[4..]);
    assert CanRead(cfg, Push(r, f)) == (r1, ReadNow);
    RunOf(cfg, Push(r, f));
    MessageFrame(cfg, r1);
  }

  lemma HaveZero(cfg: Config, got: seq<Message>)
    requires cfg.hasMetadata ==> 0 < cfg.pieceCount
    ensures LengthOf(HAVE_ZERO) == 5 && HAVE_ZERO[5..] == [0, 0, 0, 0] && Takes(cfg, got, BT_HAVE, [0, 0, 0, 0])
  {
    FourBytes(HAVE_ZERO[..4]);
    FourBytes([0, 0, 0, 0]);
  }

  lemma PieceOfOneByte(cfg: Config)
    requires !cfg.saves(0, 0, [42])
    ensures IsRefusedBlock(cfg, PIECE_OF_ONE_BYTE) && BlockOf(PIECE_OF_ONE_BYTE) == Block(0, 0, [42])
  {
    FourBytes(PIECE_OF_ONE_BYTE[..4]);
    FourBytes(PIECE_OF_ONE_BYTE[5..9]);
    FourBytes(PIECE_OF_ONE_BYTE[9..13]);
    assert PIECE_OF_ONE_BYTE[13..] == [42];
  }

  /** A block of the wrong size, and HAVE: in two chunks both are handed on, in one the second stays in the buffer. */
  lemma CutShows(cfg: Config, r: Reader)
    requires Idle(r) && !cfg.saves(0, 0, [42]) && (cfg.hasMetadata ==> 0 < cfg.pieceCount)
    ensures FeedAll(cfg, r, [PIECE_OF_ONE_BYTE, HAVE_ZERO]).got == r.got + [Block(0, 0, [42]), Msg(BT_HAVE, [0, 0, 0, 0])]
    ensures Feed(cfg, r, PIECE_OF_ONE_BYTE + HAVE_ZERO).got == r.got + [Block(0, 0, [42])]
  {
    var f := PIECE_OF_ONE_BYTE;
    PieceOfOneByte(cfg);
    RefusedBlockDelays(cfg, r, f, HAVE_ZERO);
    RefusedBlockFrame(cfg, r, f);
    HaveZero(cfg, Feed(cfg, r, f).got);
    TakenFrame(cfg, Feed(cfg, r, f), HAVE_ZERO);
  }
}
