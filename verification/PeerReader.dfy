/** The reading half of a peer connection as it is written, its state updated byte by byte
    (peer-msgs.c, peer-io.c). */
module PeerReaders {
  import opened Base
  import opened PeerFraming

  class PeerReader {
    const cfg: Config
    var stage: Stage
    var length: nat
    var id: Byte
    var index: nat
    var offset: nat
    var reqLength: nat
    var block: Bytes
    var inbuf: Bytes
    // the messages handed on, and whether the peer has been marked for purging
    var got: seq<Message>
    var doPurge: bool

    ghost function View(): Reader
      reads this
    {
      Reader(stage, length, id, index, offset, reqLength, block, inbuf, got, doPurge)
    }

    constructor (cfg: Config)
      ensures View() == START && this.cfg == cfg
    {
      this.cfg := cfg;
      stage := AwaitLength;
      length, id, index, offset, reqLength := 0, 0, 0, 0, 0;
      block, inbuf, got, doPurge := [], [], [], false;
    }

    method ReadBtLength() returns (state: ReadState)
      modifies this
      ensures (View(), state) == PeerFraming.ReadBtLength(old(View()))
    {
      if |inbuf| < 4 {
        return ReadLater;
      }
      var len := BigEndian(inbuf[..4]);
      inbuf := inbuf[4..];
      if len != 0 {
        length := len;
        stage := AwaitId;
      }
      state := ReadNow;
    }

    method ReadBtMessage() returns (state: ReadState)
      requires length > 0
      modifies this
      ensures (View(), state) == PeerFraming.ReadBtMessage(cfg, old(View()))
    {
      var msglen := length - 1;
      if |inbuf| < msglen {
        return ReadLater;
      }
      if !LengthIsCorrect(cfg, got, id, length) {
        doPurge := true;
        return ReadErr;
      }
      if IsOutOfPlace(cfg, id, inbuf[..msglen]) {
        inbuf := inbuf[msglen..];
        doPurge := true;
        return ReadErr;
      }
      got := got + [Msg(id, inbuf[..msglen])];
      inbuf := inbuf[msglen..];
      stage := AwaitLength;
      state := ReadNow;
    }

    method ReadBtId() returns (state: ReadState)
      requires length > 0
      modifies this
      ensures (View(), state) == PeerFraming.ReadBtId(cfg, old(View()))
    {
      if |inbuf| < 1 {
        return ReadLater;
      }
      id := inbuf[0];
      inbuf := inbuf[1..];
      if id == BT_PIECE {
        stage := AwaitPiece;
        state := ReadNow;
      } else if length != 1 {
        stage := AwaitMessage;
        state := ReadNow;
      } else {
        state := ReadBtMessage();
      }
    }

    method ReadBtPiece() returns (state: ReadState)
      requires reqLength > 0 ==> |block| < reqLength
      modifies this
      ensures (View(), state) == PeerFraming.ReadBtPiece(cfg, old(View()))
    {
      if reqLength == 0 {
        if |inbuf| < 8 {
          return ReadLater;
        }
        index := BigEndian(inbuf[..4]);
        offset := BigEndian(inbuf[4..8]);
        reqLength := BlockLength(length);
        inbuf := inbuf[8..];
        return ReadNow;
      }
      var left := reqLength - |block|;
      var n := if left < |inbuf| then left else |inbuf|;
      block := block + inbuf[..n];
      inbuf := inbuf[n..];
      if |block| < reqLength {
        return ReadLater;
      }
      var ok := cfg.saves(index, offset, block);
      got := got + [Block(index, offset, block)];
      block := [];
      reqLength := 0;
      stage := AwaitLength;
      state := if ok then ReadNow else ReadErr;
    }

    method CanRead() returns (state: ReadState)
      requires Ok(View())
      modifies this
      ensures (View(), state) == PeerFraming.CanRead(cfg, old(View()))
    {
      if inbuf == [] {
        return ReadLater;
      }
      match stage {
        case AwaitPiece => state := ReadBtPiece();
        case AwaitLength => state := ReadBtLength();
        case AwaitId => state := ReadBtId();
        case AwaitMessage => state := ReadBtMessage();
      }
    }

    /** One round of the loop in canReadWrapper */
    method ReadOnce() returns (done: bool)
      requires Ok(View()) && inbuf != []
      modifies this
      ensures Ok(View()) && Run(cfg, old(View())) == if done then View() else Run(cfg, View())
      ensures !done ==> inbuf != [] && |inbuf| < |old(inbuf)|
    {
      RunOf(cfg, View());
      var state := CanRead();
      match state {
        case ReadNow => done := inbuf == [];
        case ReadLater => done := true;
        case ReadErr => done := true;
      }
    }

    /** canReadWrapper, after a chunk has been appended to the input buffer */
    method Receive(chunk: Bytes)
      requires Ok(View())
      modifies this
      ensures View() == Feed(cfg, old(View()), chunk)
    {
      inbuf := inbuf + chunk;
      ghost var all := View();
      var done := inbuf == [];
      while !done
        invariant Ok(View()) && Run(cfg, all) == if done then View() else Run(cfg, View())
        invariant !done ==> inbuf != []
        decreases !done, |inbuf|
      {
        done := ReadOnce();
      }
    }
  }

  /** Whatever the chunks: what has been handed on is what the whole stream leads to, or the beginning of it, if something
      that was refused holds up the rest.  If nothing is refused, it is the messages of the stream's frames. */
  method ReceiveAll(cfg: Config, chunks: seq<Bytes>) returns (got: seq<Message>, doPurge: bool, ghost end: Reader)
    ensures Ok(end) && end.got == got && end.doPurge == doPurge
    ensures Settled(cfg, end) == Settled(cfg, Push(START, Concat(chunks))) && got <= Settled(cfg, end).got
    ensures PiecesAreLong(Concat(chunks)) ==>
      var p := Parse(cfg, Concat(chunks), []);
      AsParsed(cfg, START, Concat(chunks), p) && (!p.refusedMessage && !p.refusedBlock ==> got == p.got && !doPurge)
  {
    var reader := new PeerReader(cfg);
    var i := 0;
    while i < |chunks|
      invariant 0 <= i <= |chunks| && reader.cfg == cfg && Ok(reader.View())
      invariant reader.View() == FeedAll(cfg, START, chunks[..i])
    {
      assert chunks[..i + 1][..i] == chunks[..i];
      reader.Receive(chunks[i]);
      i := i + 1;
    }
    assert chunks[..i] == chunks;
    SettledAlike(cfg, START, chunks);
    if PiecesAreLong(Concat(chunks)) {
      ReadsAsParsed(cfg, START, Concat(chunks));
      var p := Parse(cfg, Concat(chunks), []);
      if !p.refusedMessage && !p.refusedBlock {
        CleanStream(cfg, START, chunks);
      }
    }
    got, doPurge, end := reader.got, reader.doPurge, reader.View();
  }
}
