/** The messages of the peer wire protocol as one client writes them and the other reads them (peer-msgs.c; BEP 3, BEP 6, BEP 10). */
module PeerMessages {
  import opened Base
  import opened PeerFraming

  datatype Wire =
    | Choke | Unchoke | Interested | NotInterested
    | Have(index: nat) | Bitfield(bits: Bytes)
    | Request(index: nat, offset: nat, length: nat)
    | Piece(index: nat, offset: nat, data: Bytes)
    | Cancel(index: nat, offset: nat, length: nat)
    | Port(port: nat)
    | Suggest(index: nat) | HaveAll | HaveNone
    | Reject(index: nat, offset: nat, length: nat)
    | AllowedFast(index: nat)
    | Extended(payload: Bytes)

  // ---------- numbers on the wire ----------

  function Uint8(n: nat): Bytes {
    [n % 256]
  }

  function Uint16(n: nat): Bytes {
    Uint8(n / 256) + Uint8(n)
  }

  function Uint32(n: nat): (r: Bytes)
    ensures |r| == 4
  {
    Uint16(n / 65536) + Uint16(n)
  }

  lemma BigEndianOf(s: Bytes, b: Byte)
    ensures BigEndian(s + [b]) == 256 * BigEndian(s) + b
  {
    assert (s + [b])[..|s|] == s;
  }

  lemma BigEndianOfTwo(s: Bytes, a: Byte, b: Byte)
    ensures BigEndian(s + [a, b]) == 65536 * BigEndian(s) + 256 * a + b
    ensures BigEndian([a, b]) == 256 * a + b
  {
    BigEndianOf(s, a);
    BigEndianOf(s + [a], b);
    assert s + [a] + [b] == s + [a, b];
    BigEndianOf([], a);
    BigEndianOf([a], b);
    assert [] + [a] == [a] && [a] + [b] == [a, b];
  }

  lemma TwoDigits(n: nat)
    ensures 256 * (n / 256 % 256) + n % 256 == n % 65536
  {
  }

  lemma Uint16Reads(s: Bytes, n: nat)
    ensures |Uint16(n)| == 2 && BigEndian(Uint16(n)) == n % 65536
    ensures BigEndian(s + Uint16(n)) == 65536 * BigEndian(s) + n % 65536
  {
    BigEndianOfTwo(s, n / 256 % 256, n % 256);
    assert Uint16(n) == [n / 256 % 256, n % 256];
    TwoDigits(n);
  }

  lemma Uint32Reads(n: nat)
    requires n < 0x1_0000_0000
    ensures |Uint32(n)| == 4 && BigEndian(Uint32(n)) == n
  {
    Uint16Reads([], n / 65536);
    Uint16Reads(Uint16(n / 65536), n);
  }

  lemma Uint16OfRead(s: Bytes)
    requires |s| == 2
    ensures BigEndian(s) < 0x1_0000 && Uint16(BigEndian(s)) == s
  {
    assert s == [s[0], s[1]];
    BigEndianOfTwo([], s[0], s[1]);
  }

  lemma SameDigits(n: nat, m: nat)
    requires n == 65536 * (n / 65536) + m && m < 65536
    ensures n % 256 == m % 256 && n / 256 % 256 == m / 256 % 256
  {
    var q := n / 65536;
    assert n == 256 * (256 * q) + m;
    assert n / 256 == 256 * q + m / 256;
  }

  lemma Uint32OfRead(s: Bytes)
    requires |s| == 4
    ensures BigEndian(s) < 0x1_0000_0000 && Uint32(BigEndian(s)) == s
  {
    var high, low, n := s[..2], s[2..], BigEndian(s);
    Uint16OfRead(high);
    Uint16OfRead(low);
    assert s == high + [low[0], low[1]] && low == [low[0], low[1]];
    BigEndianOfTwo(high, low[0], low[1]);
    assert n == 65536 * BigEndian(high) + BigEndian(low);
    assert n / 65536 == BigEndian(high);
    SameDigits(n, BigEndian(low));
    assert Uint16(n) == Uint16(BigEndian(low));
  }

  // ---------- messages on the wire ----------

  function IdOf(w: Wire): Byte {
    match w
    case Choke => 0
    case Unchoke => 1
    case Interested => 2
    case NotInterested => 3
    case Have(_) => 4
    case Bitfield(_) => 5
    case Request(_, _, _) => 6
    case Piece(_, _, _) => 7
    case Cancel(_, _, _) => 8
    case Port(_) => 9
    case Suggest(_) => 13
    case HaveAll => 14
    case HaveNone => 15
    case Reject(_, _, _) => 16
    case AllowedFast(_) => 17
    case Extended(_) => 20
  }

  function Fields(w: Wire): Bytes {
    match w
    case Have(index) => Uint32(index)
    case Bitfield(bits) => bits
    case Request(index, offset, length) => Uint32(index) + Uint32(offset) + Uint32(length)
    case Piece(index, offset, data) => Uint32(index) + Uint32(offset) + data
    case Cancel(index, offset, length) => Uint32(index) + Uint32(offset) + Uint32(length)
    case Port(port) => Uint16(port)
    case Suggest(index) => Uint32(index)
    case Reject(index, offset, length) => Uint32(index) + Uint32(offset) + Uint32(length)
    case AllowedFast(index) => Uint32(index)
    case Extended(payload) => payload
    case _ => []
  }

  function Frame(w: Wire): Bytes {
    Uint32(1 + |Fields(w)|) + Uint8(IdOf(w)) + Fields(w)
  }

  /** Its fields fit where they are written. */
  predicate Fits(w: Wire) {
    |Fields(w)| + 1 < 0x1_0000_0000 &&
    match w
    case Have(index) => index < 0x1_0000_0000
    case Suggest(index) => index < 0x1_0000_0000
    case AllowedFast(index) => index < 0x1_0000_0000
    case Request(index, offset, length) => index < 0x1_0000_0000 && offset < 0x1_0000_0000 && length < 0x1_0000_0000
    case Cancel(index, offset, length) => index < 0x1_0000_0000 && offset < 0x1_0000_0000 && length < 0x1_0000_0000
    case Reject(index, offset, length) => index < 0x1_0000_0000 && offset < 0x1_0000_0000 && length < 0x1_0000_0000
    case Piece(index, offset, _) => index < 0x1_0000_0000 && offset < 0x1_0000_0000
    case Port(port) => port < 0x1_0000
    case _ => true
  }

  /** The client has a use for the message: pieces exist, a bitfield is as long as the torrent has pieces, where that is known,
      and fast messages come only where they have been agreed on. */
  predicate IsExpected(cfg: Config, got: seq<Message>, w: Wire) {
    match w
    case Have(index) => cfg.hasMetadata ==> index < cfg.pieceCount
    case Bitfield(bits) =>
      if cfg.hasMetadata then 8 * |bits| - 8 < cfg.pieceCount <= 8 * |bits| else cfg.sizeHint(got) > 0 ==> |bits| < cfg.sizeHint(got)
    case Suggest(_) => cfg.fext
    case HaveAll => cfg.fext
    case HaveNone => cfg.fext
    case Reject(_, _, _) => cfg.fext
    case AllowedFast(_) => cfg.fext
    case Extended(payload) => payload != []
    case Piece(index, offset, data) => data != [] && cfg.saves(index, offset, data)
    case _ => true
  }

  /** What is handed on of it */
  function MessageOf(w: Wire): Message {
    match w
    case Piece(index, offset, data) => Block(index, offset, data)
    case _ => Msg(IdOf(w), Fields(w))
  }

  lemma BitfieldSize(pieceCount: nat, n: nat)
    ensures n + 1 == (pieceCount + 7) / 8 + 1 <==> 8 * n - 8 < pieceCount <= 8 * n
  {
  }

  /** A message of the protocol that is expected is taken. */
  lemma ExpectedIsTaken(cfg: Config, got: seq<Message>, w: Wire)
    requires Fits(w) && !w.Piece? && IsExpected(cfg, got, w)
    ensures Takes(cfg, got, IdOf(w), Fields(w))
  {
    match w
    case Have(index) => Uint32Reads(index);
    case Bitfield(bits) => BitfieldSize(cfg.pieceCount, |bits|);
    case _ =>
  }

  /** The message with this id and these fields; what is not known is an empty extension message. */
  function Decoded(id: Byte, payload: Bytes): Wire {
    var n := |payload|;
    if id == 0 then Choke
    else if id == 1 then Unchoke
    else if id == 2 then Interested
    else if id == 3 then NotInterested
    else if id == 4 && n == 4 then Have(BigEndian(payload))
    else if id == 5 then Bitfield(payload)
    else if id == 6 && n == 12 then Request(BigEndian(payload[..4]), BigEndian(payload[4..8]), BigEndian(payload[8..]))
    else if id == 8 && n == 12 then Cancel(BigEndian(payload[..4]), BigEndian(payload[4..8]), BigEndian(payload[8..]))
    else if id == 9 && n == 2 then Port(BigEndian(payload))
    else if id == 13 && n == 4 then Suggest(BigEndian(payload))
    else if id == 14 then HaveAll
    else if id == 15 then HaveNone
    else if id == 16 && n == 12 then Reject(BigEndian(payload[..4]), BigEndian(payload[4..8]), BigEndian(payload[8..]))
    else if id == 17 && n == 4 then AllowedFast(BigEndian(payload))
    else Extended(payload)
  }

  lemma ThreeNumbers(s: Bytes)
    requires |s| == 12
    ensures BigEndian(s[..4]) < 0x1_0000_0000 && BigEndian(s[4..8]) < 0x1_0000_0000 && BigEndian(s[8..]) < 0x1_0000_0000
    ensures Uint32(BigEndian(s[..4])) + Uint32(BigEndian(s[4..8])) + Uint32(BigEndian(s[8..])) == s
  {
    Uint32OfRead(s[..4]);
    Uint32OfRead(s[4..8]);
    Uint32OfRead(s[8..]);
    assert s[..4] + s[4..8] + s[8..] == s;
  }

  /** What is taken is a message of the protocol, and an expected one. */
  lemma TakenIsExpected(cfg: Config, got: seq<Message>, id: Byte, payload: Bytes)
    requires |payload| + 1 < 0x1_0000_0000 && id != BT_PIECE && Takes(cfg, got, id, payload)
    ensures var w := Decoded(id, payload);
      Fits(w) && !w.Piece? && IdOf(w) == id && Fields(w) == payload && IsExpected(cfg, got, w)
  {
    if |payload| == 12 {
      ThreeNumbers(payload);
    } else if |payload| == 4 {
      Uint32OfRead(payload);
    } else if |payload| == 2 {
      Uint16OfRead(payload);
    }
    BitfieldSize(cfg.pieceCount, |payload|);
  }

  /** The messages that readBtMessage takes are, by id and payload, exactly the expected ones of the protocol. */
  lemma TakesExactly(cfg: Config, got: seq<Message>, id: Byte, payload: Bytes)
    requires |payload| + 1 < 0x1_0000_0000 && id != BT_PIECE
    ensures Takes(cfg, got, id, payload) <==>
      exists w :: Fits(w) && !w.Piece? && IdOf(w) == id && Fields(w) == payload && IsExpected(cfg, got, w)
  {
    if Takes(cfg, got, id, payload) {
      TakenIsExpected(cfg, got, id, payload);
    }
    forall w | Fits(w) && !w.Piece? && IdOf(w) == id && Fields(w) == payload && IsExpected(cfg, got, w)
      ensures Takes(cfg, got, id, payload)
    {
      ExpectedIsTaken(cfg, got, w);
    }
  }

  // ---------- from one client to the other ----------

  function Stream(ws: seq<Wire>): Bytes {
    if ws == [] then [] else Frame(ws[0]) + Stream(ws[1..])
  }

  function MessagesOf(ws: seq<Wire>): seq<Message> {
    if ws == [] then [] else [MessageOf(ws[0])] + MessagesOf(ws[1..])
  }

  predicate AllExpected(cfg: Config, got: seq<Message>, ws: seq<Wire>)
    decreases |ws|
  {
    ws == [] || (Fits(ws[0]) && IsExpected(cfg, got, ws[0]) && AllExpected(cfg, got + [MessageOf(ws[0])], ws[1..]))
  }

  lemma FourParts(a: Bytes, b: Byte, f: Bytes, rest: Bytes)
    requires |a| == 4
    ensures var s := a + [b] + f + rest;
      s[..4] == a && s[4] == b && s[5..5 + |f|] == f && s[5 + |f|..] == rest
  {
  }

  lemma FrameParts(w: Wire, rest: Bytes)
    requires Fits(w)
    ensures var s, n := Frame(w) + rest, |Fields(w)|;
      |s| == 5 + n + |rest| && LengthOf(s) == 1 + n && s[4] == IdOf(w) && s[5..5 + n] == Fields(w) && s[5 + n..] == rest
  {
    Uint32Reads(1 + |Fields(w)|);
    FourParts(Uint32(1 + |Fields(w)|), IdOf(w), Fields(w), rest);
    assert Uint8(IdOf(w)) == [IdOf(w)];
  }

  lemma SliceOfSlice(s: Bytes, n: nat)
    requires 8 <= n && 5 + n <= |s|
    ensures var f := s[5..5 + n]; s[5..9] == f[..4] && s[9..13] == f[4..8] && s[13..5 + n] == f[8..]
  {
    var f := s[5..5 + n];
    assert s[5..9] == f[..4];
    forall k | 0 <= k < 4 ensures s[9..13][k] == f[4..8][k] {
      assert s[9..13][k] == s[9 + k] == f[4 + k];
    }
    assert s[13..5 + n] == f[8..];
  }

  lemma PieceParts(w: Wire, rest: Bytes)
    requires Fits(w) && w.Piece?
    ensures var s, n := Frame(w) + rest, |Fields(w)|;
      n == 8 + |w.data| && |s| >= 5 + n && BigEndian(s[5..9]) == w.index && BigEndian(s[9..13]) == w.offset && s[13..5 + n] == w.data
  {
    FrameParts(w, rest);
    Uint32Reads(w.index);
    Uint32Reads(w.offset);
    var f := Fields(w);
    assert f[..4] == Uint32(w.index) && f[4..8] == Uint32(w.offset) && f[8..] == w.data;
    SliceOfSlice(Frame(w) + rest, |f|);
  }

  lemma FrameIsLong(cfg: Config, got: seq<Message>, w: Wire, rest: Bytes)
    requires Fits(w) && IsExpected(cfg, got, w) && PiecesAreLong(rest)
    ensures PiecesAreLong(Frame(w) + rest)
  {
    FrameParts(w, rest);
    if w.Piece? {
      PieceParts(w, rest);
    }
  }

  /** s is taken as a whole, and all is what has been handed on in the end. */
  ghost predicate ParsesTo(cfg: Config, s: Bytes, got: seq<Message>, all: seq<Message>) {
    PiecesAreLong(s) && Parse(cfg, s, got) == Parsed(all, false, false)
  }

  lemma FrameParses(cfg: Config, got: seq<Message>, w: Wire, rest: Bytes, all: seq<Message>)
    requires Fits(w) && IsExpected(cfg, got, w) && ParsesTo(cfg, rest, got + [MessageOf(w)], all)
    ensures ParsesTo(cfg, Frame(w) + rest, got, all)
  {
    FrameIsLong(cfg, got, w, rest);
    FrameParts(w, rest);
    if w.Piece? {
      PieceParts(w, rest);
    } else {
      ExpectedIsTaken(cfg, got, w);
    }
  }

  lemma {:induction false} StreamParses(cfg: Config, got: seq<Message>, ws: seq<Wire>)
    requires AllExpected(cfg, got, ws)
    ensures ParsesTo(cfg, Stream(ws), got, got + MessagesOf(ws))
    decreases |ws|
  {
    if ws == [] {
      assert got + [] == got;
    } else {
      var m := MessageOf(ws[0]);
      StreamParses(cfg, got + [m], ws[1..]);
      assert got + [m] + MessagesOf(ws[1..]) == got + MessagesOf(ws);
      FrameParses(cfg, got, ws[0], Stream(ws[1..]), got + MessagesOf(ws));
    }
  }

  /** Whatever expected messages one client writes, the other reads the same, however the network cuts the stream, and does not
      mark its peer. */
  lemma SentIsRead(cfg: Config, r: Reader, ws: seq<Wire>, chunks: seq<Bytes>)
    requires Idle(r) && AllExpected(cfg, r.got, ws) && Concat(chunks) == Stream(ws)
    ensures FeedAll(cfg, r, chunks).got == r.got + MessagesOf(ws) && FeedAll(cfg, r, chunks).doPurge == r.doPurge
  {
    StreamParses(cfg, r.got, ws);
    CleanStream(cfg, r, chunks);
  }

  // ---------- the side that writes ----------

  lemma Joined(before: Bytes, a: Bytes, b: Bytes, c: Bytes, d: Bytes, e: Bytes)
    ensures before + a + b + c + d + e == before + (a + b + (c + d + e))
  {
  }

  /** The buffer of messages to be sent, as the functions of the protocol append to it */
  class PeerWriter {
    var outMessages: Bytes

    constructor ()
      ensures outMessages == []
    {
      outMessages := [];
    }

    method AddUint8(n: nat)
      modifies this
      ensures outMessages == old(outMessages) + Uint8(n)
    {
      outMessages := outMessages + [n % 256];
    }

    /** Network byte order */
    method AddUint16(n: nat)
      modifies this
      ensures outMessages == old(outMessages) + Uint16(n)
    {
      outMessages := outMessages + [n / 256 % 256, n % 256];
    }

    method AddUint32(n: nat)
      modifies this
      ensures outMessages == old(outMessages) + Uint32(n)
    {
      outMessages := outMessages + [n / 16777216 % 256, n / 65536 % 256, n / 256 % 256, n % 256];
    }

    method SendRequest(index: nat, offset: nat, length: nat)
      modifies this
      ensures outMessages == old(outMessages) + Frame(Request(index, offset, length))
    {
      SendThree(6, index, offset, length);
    }

    method SendCancel(index: nat, offset: nat, length: nat)
      modifies this
      ensures outMessages == old(outMessages) + Frame(Cancel(index, offset, length))
    {
      SendThree(8, index, offset, length);
    }

    method SendReject(index: nat, offset: nat, length: nat)
      modifies this
      ensures outMessages == old(outMessages) + Frame(Reject(index, offset, length))
    {
      SendThree(16, index, offset, length);
    }

    method SendThree(id: Byte, index: nat, offset: nat, length: nat)
      modifies this
      ensures outMessages == old(outMessages) + (Uint32(13) + Uint8(id) + (Uint32(index) + Uint32(offset) + Uint32(length)))
    {
      AddUint32(1 + 3 * 4);
      AddUint8(id);
      AddUint32(index);
      AddUint32(offset);
      AddUint32(length);
    }

    /** The message with a block, as fillOutputBuffer puts it together */
    method SendPiece(index: nat, offset: nat, data: Bytes)
      modifies this
      ensures outMessages == old(outMessages) + Frame(Piece(index, offset, data))
    {
      ghost var w, before := Piece(index, offset, data), outMessages;
      assert 1 + 2 * 4 + |data| == 1 + |Fields(w)|;
      AddUint32(1 + 2 * 4 + |data|);
      AddUint8(7);
      AddUint32(index);
      AddUint32(offset);
      outMessages := outMessages + data;
      Joined(before, Uint32(1 + |Fields(w)|), Uint8(7), Uint32(index), Uint32(offset), data);
    }

    method SendPort(port: nat)
      modifies this
      ensures outMessages == old(outMessages) + Frame(Port(port))
    {
      AddUint32(3);
      AddUint8(9);
      AddUint16(port);
    }

    method SendHave(index: nat)
      modifies this
      ensures outMessages == old(outMessages) + Frame(Have(index))
    {
      AddUint32(1 + 4);
      AddUint8(4);
      AddUint32(index);
    }

    method SendChoke(choke: bool)
      modifies this
      ensures outMessages == old(outMessages) + Frame(if choke then Choke else Unchoke)
    {
      AddUint32(1);
      AddUint8(if choke then 0 else 1);
    }

    method SendHaveAllOrNone(all: bool)
      modifies this
      ensures outMessages == old(outMessages) + Frame(if all then HaveAll else HaveNone)
    {
      AddUint32(1);
      AddUint8(if all then 14 else 15);
    }
  }
}
