/** The queue of blocks a peer has asked for: what happens to every request (peer-msgs.c; BEP 3, BEP 6). */
module PeerRequests {

  const REQQ := 512
  const MIN_CHOKE_PERIOD_SEC := 10

  datatype PeerRequest = PeerRequest(index: nat, offset: nat, length: nat)

  datatype Outgoing = Piece(req: PeerRequest) | Reject(req: PeerRequest) | Choke(choked: bool)

  /** out is what the peer has been sent, cancelled what it has taken back in time */
  datatype State = State(queue: seq<PeerRequest>, peerIsChoked: bool, chokeChangedAt: int,
                         out: seq<Outgoing>, cancelled: seq<PeerRequest>)

  /** What can happen, with what is found out about the request at the time: whether it makes sense and is for
      a complete piece, whether there is room in the write buffer, and whether the block could be read. */
  datatype Input =
    | Asked(req: PeerRequest, servable: bool)
    | TakenBack(req: PeerRequest)
    | SetChoke(choked: bool, now: int)
    | Fill(hasSpace: bool, servable: bool, readable: bool)

  const START := State([], true, 0, [], [])

  /** protocolSendReject, to a peer that knows the fast extension */
  function Rejected(out: seq<Outgoing>, req: PeerRequest, fext: bool): seq<Outgoing> {
    if fext then out + [Reject(req)] else out
  }

  /** peerMadeRequest */
  function MadeRequest(s: State, req: PeerRequest, servable: bool, fext: bool): State {
    if servable && !s.peerIsChoked && |s.queue| + 1 < REQQ then s.(queue := s.queue + [req])
    else s.(out := Rejected(s.out, req, fext))
  }

  /** The first place a request is queued at; |queue| when it is not */
  function Find(queue: seq<PeerRequest>, req: PeerRequest): (i: nat)
    ensures i <= |queue| && (i < |queue| ==> queue[i] == req)
    ensures forall k :: 0 <= k < i ==> queue[k] != req
  {
    if queue == [] || queue[0] == req then 0
    else
      assert forall k :: 1 <= k < |queue| ==> queue[k] == queue[1..][k - 1];
      1 + Find(queue[1..], req)
  }

  function Without(queue: seq<PeerRequest>, i: nat): seq<PeerRequest>
    requires i < |queue|
  {
    queue[..i] + queue[i + 1..]
  }

  function Cancel(s: State, req: PeerRequest): State {
    var i := Find(s.queue, req);
    if i == |s.queue| then s else s.(queue := Without(s.queue, i), cancelled := s.cancelled + [req])
  }

  /** cancelAllRequestsToClient */
  function RejectAll(out: seq<Outgoing>, queue: seq<PeerRequest>, fext: bool): seq<Outgoing>
    decreases |queue|
  {
    if queue == [] then out else RejectAll(Rejected(out, queue[0], fext), queue[1..], fext)
  }

  /** tr_peerMsgsSetChoke */
  function ChangeChoke(s: State, choked: bool, now: int, fext: bool): State {
    if s.chokeChangedAt > now - MIN_CHOKE_PERIOD_SEC || s.peerIsChoked == choked then s
    else
      var t := if choked then s.(queue := [], out := RejectAll(s.out, s.queue, fext)) else s;
      t.(peerIsChoked := choked, out := t.out + [Choke(choked)], chokeChangedAt := now)
  }

  /** The data block part of fillOutputBuffer */
  function FillOutput(s: State, hasSpace: bool, servable: bool, readable: bool, fext: bool): State {
    if !hasSpace || s.queue == [] then s
    else if servable && readable then s.(queue := s.queue[1..], out := s.out + [Piece(s.queue[0])])
    else s.(queue := s.queue[1..], out := Rejected(s.out, s.queue[0], fext))
  }

  function Step(s: State, input: Input, fext: bool): State {
    match input
    case Asked(req, servable) => MadeRequest(s, req, servable, fext)
    case TakenBack(req) => Cancel(s, req)
    case SetChoke(choked, now) => ChangeChoke(s, choked, now, fext)
    case Fill(hasSpace, servable, readable) => FillOutput(s, hasSpace, servable, readable, fext)
  }

  function After(h: seq<Input>, fext: bool): State {
    if h == [] then START else Step(After(h[..|h| - 1], fext), h[|h| - 1], fext)
  }

  // ---------- nothing is lost, nothing is answered twice ----------

  function Received(h: seq<Input>): seq<PeerRequest> {
    if h == [] then [] else
      var before, last := Received(h[..|h| - 1]), h[|h| - 1];
      if last.Asked? then before + [last.req] else before
  }

  function Pieces(out: seq<Outgoing>): seq<PeerRequest> {
    if out == [] then [] else
      var before, last := Pieces(out[..|out| - 1]), out[|out| - 1];
      if last.Piece? then before + [last.req] else before
  }

  function Rejects(out: seq<Outgoing>): seq<PeerRequest> {
    if out == [] then [] else
      var before, last := Rejects(out[..|out| - 1]), out[|out| - 1];
      if last.Reject? then before + [last.req] else before
  }

  /** How often a request is in a sequence */
  function Times(s: seq<PeerRequest>, req: PeerRequest): nat {
    multiset(s)[req]
  }

  /** The places a request can be in */
  function Accounted(s: State, req: PeerRequest): nat {
    Times(Pieces(s.out), req) + Times(Rejects(s.out), req) + Times(s.cancelled, req) + Times(s.queue, req)
  }

  lemma OutPush(out: seq<Outgoing>, e: Outgoing)
    ensures Pieces(out + [e]) == if e.Piece? then Pieces(out) + [e.req] else Pieces(out)
    ensures Rejects(out + [e]) == if e.Reject? then Rejects(out) + [e.req] else Rejects(out)
  {
    assert (out + [e])[..|out|] == out;
  }

  lemma {:induction false} RejectsAll(out: seq<Outgoing>, queue: seq<PeerRequest>, req: PeerRequest)
    ensures Pieces(RejectAll(out, queue, true)) == Pieces(out)
    ensures Times(Rejects(RejectAll(out, queue, true)), req) == Times(Rejects(out), req) + Times(queue, req)
    decreases |queue|
  {
    if queue != [] {
      OutPush(out, Reject(queue[0]));
      RejectsAll(out + [Reject(queue[0])], queue[1..], req);
      assert queue == [queue[0]] + queue[1..];
    }
  }

  lemma {:induction false} RejectAllPieces(out: seq<Outgoing>, queue: seq<PeerRequest>, fext: bool)
    ensures Pieces(RejectAll(out, queue, fext)) == Pieces(out)
    decreases |queue|
  {
    if queue != [] {
      OutPush(out, Reject(queue[0]));
      RejectAllPieces(Rejected(out, queue[0], fext), queue[1..], fext);
    }
  }

  lemma FirstCounts(s: seq<PeerRequest>, req: PeerRequest)
    requires s != []
    ensures Times(s, req) == (if s[0] == req then 1 else 0) + Times(s[1..], req)
  {
    assert s == [s[0]] + s[1..];
  }

  lemma WithoutCounts(s: seq<PeerRequest>, i: nat, req: PeerRequest)
    requires i < |s|
    ensures Times(s, req) == Times(Without(s, i), req) + if s[i] == req then 1 else 0
  {
    assert s == s[..i] + [s[i]] + s[i + 1..];
  }

  lemma ChokeAccounts(s: State, choked: bool, now: int, req: PeerRequest)
    ensures Accounted(ChangeChoke(s, choked, now, true), req) == Accounted(s, req)
  {
    var t := if choked then RejectAll(s.out, s.queue, true) else s.out;
    OutPush(t, Choke(choked));
    RejectsAll(s.out, s.queue, req);
  }

  lemma FillAccounts(s: State, hasSpace: bool, servable: bool, readable: bool, req: PeerRequest)
    ensures Accounted(FillOutput(s, hasSpace, servable, readable, true), req) == Accounted(s, req)
  {
    if hasSpace && s.queue != [] {
      FirstCounts(s.queue, req);
      if servable && readable {
        OutPush(s.out, Piece(s.queue[0]));
      } else {
        OutPush(s.out, Reject(s.queue[0]));
      }
    }
  }

  lemma StepAccounts(s: State, input: Input, req: PeerRequest)
    ensures Accounted(Step(s, input, true), req) == Accounted(s, req) + if input.Asked? && input.req == req then 1 else 0
  {
    match input
    case Asked(r, servable) => OutPush(s.out, Reject(r));
    case TakenBack(r) =>
      var i := Find(s.queue, r);
      if i < |s.queue| {
        WithoutCounts(s.queue, i, req);
      }
    case SetChoke(choked, now) => ChokeAccounts(s, choked, now, req);
    case Fill(hasSpace, servable, readable) => FillAccounts(s, hasSpace, servable, readable, req);
  }

  /** With the fast extension, each request a peer makes is answered with a piece, or rejected, or was taken back,
      or is still in the queue, and is so exactly once. */
  lemma {:induction false} EveryRequestIsAccountedFor(h: seq<Input>, req: PeerRequest)
    ensures Accounted(After(h, true), req) == Times(Received(h), req)
  {
    if h != [] {
      EveryRequestIsAccountedFor(h[..|h| - 1], req);
      StepAccounts(After(h[..|h| - 1], true), h[|h| - 1], req);
    }
  }

  // ---------- without the fast extension ----------

  /** The requests that get no piece because of this input: those that come while the peer is choked, cannot be served or
      find the queue full, those that are queued when the peer is choked, and those whose block cannot be read */
  function LostBy(s: State, input: Input): seq<PeerRequest> {
    match input
    case Asked(req, servable) => if servable && !s.peerIsChoked && |s.queue| < REQQ - 1 then [] else [req]
    case TakenBack(_) => []
    case SetChoke(choked, now) =>
      if choked && !s.peerIsChoked && s.chokeChangedAt + MIN_CHOKE_PERIOD_SEC <= now then s.queue else []
    case Fill(hasSpace, servable, readable) =>
      if hasSpace && s.queue != [] && !(servable && readable) then [s.queue[0]] else []
  }

  function Lost(h: seq<Input>, fext: bool): seq<PeerRequest> {
    if h == [] then [] else Lost(h[..|h| - 1], fext) + LostBy(After(h[..|h| - 1], fext), h[|h| - 1])
  }

  /** What a peer is sent that is never sent a reject */
  function Spoken(out: seq<Outgoing>): seq<Outgoing> {
    if out == [] then [] else
      var before, last := Spoken(out[..|out| - 1]), out[|out| - 1];
      if last.Reject? then before else before + [last]
  }

  lemma SpokenPush(out: seq<Outgoing>, e: Outgoing)
    ensures Spoken(out + [e]) == if e.Reject? then Spoken(out) else Spoken(out) + [e]
  {
    assert (out + [e])[..|out|] == out;
  }

  lemma {:induction false} RejectAllOut(out: seq<Outgoing>, queue: seq<PeerRequest>)
    ensures RejectAll(out, queue, false) == out && Spoken(RejectAll(out, queue, true)) == Spoken(out)
    ensures Rejects(RejectAll(out, queue, true)) == Rejects(out) + queue
    decreases |queue|
  {
    if queue != [] {
      var e := Reject(queue[0]);
      SpokenPush(out, e);
      OutPush(out, e);
      RejectAllOut(out + [e], queue[1..]);
      RejectAllOut(out, queue[1..]);
      assert Rejects(out) + [queue[0]] + queue[1..] == Rejects(out) + queue;
    }
  }

  ghost predicate LikeWithout(s: State, t: State) {
    t == s.(out := Spoken(s.out))
  }

  lemma ChokeLikeWithout(s: State, t: State, choked: bool, now: int)
    requires LikeWithout(s, t)
    ensures LikeWithout(ChangeChoke(s, choked, now, true), ChangeChoke(t, choked, now, false))
    ensures Rejects(ChangeChoke(s, choked, now, true).out) == Rejects(s.out) + LostBy(s, SetChoke(choked, now))
  {
    RejectAllOut(s.out, s.queue);
    RejectAllOut(t.out, t.queue);
    var out := if choked then RejectAll(s.out, s.queue, true) else s.out;
    SpokenPush(out, Choke(choked));
    OutPush(out, Choke(choked));
  }

  lemma FillLikeWithout(s: State, t: State, hasSpace: bool, servable: bool, readable: bool)
    requires LikeWithout(s, t)
    ensures LikeWithout(FillOutput(s, hasSpace, servable, readable, true), FillOutput(t, hasSpace, servable, readable, false))
    ensures Rejects(FillOutput(s, hasSpace, servable, readable, true).out)
         == Rejects(s.out) + LostBy(s, Fill(hasSpace, servable, readable))
  {
    if hasSpace && s.queue != [] {
      var e := if servable && readable then Piece(s.queue[0]) else Reject(s.queue[0]);
      SpokenPush(s.out, e);
      OutPush(s.out, e);
    }
  }

  lemma StepLikeWithout(s: State, t: State, input: Input)
    requires LikeWithout(s, t)
    ensures LikeWithout(Step(s, input, true), Step(t, input, false)) && LostBy(t, input) == LostBy(s, input)
    ensures Rejects(Step(s, input, true).out) == Rejects(s.out) + LostBy(s, input)
  {
    match input
    case Asked(r, servable) =>
      SpokenPush(s.out, Reject(r));
      OutPush(s.out, Reject(r));
    case TakenBack(_) =>
    case SetChoke(choked, now) => ChokeLikeWithout(s, t, choked, now);
    case Fill(hasSpace, servable, readable) => FillLikeWithout(s, t, hasSpace, servable, readable);
  }

  /** The fast extension changes nothing but the rejects: a peer without it gets the same pieces and chokes, and has the same
      queue.  The rejects that it is not sent are those of the requests that are lost, in order. */
  lemma {:induction false} OnlyRejectsDiffer(h: seq<Input>)
    ensures LikeWithout(After(h, true), After(h, false))
    ensures Lost(h, false) == Lost(h, true) == Rejects(After(h, true).out)
  {
    if h != [] {
      OnlyRejectsDiffer(h[..|h| - 1]);
      StepLikeWithout(After(h[..|h| - 1], true), After(h[..|h| - 1], false), h[|h| - 1]);
    }
  }

  lemma {:induction false} SpokenParts(out: seq<Outgoing>)
    ensures Pieces(Spoken(out)) == Pieces(out) && Rejects(Spoken(out)) == []
  {
    if out != [] {
      var before, last := out[..|out| - 1], out[|out| - 1];
      SpokenParts(before);
      OutPush(Spoken(before), last);
    }
  }

  /** Without the fast extension, each request is answered with a piece, was taken back, is still in the queue, or has been
      lost without an answer, and is so exactly once. */
  lemma EveryRequestIsAnsweredOrLost(h: seq<Input>, req: PeerRequest)
    ensures Accounted(After(h, false), req) + Times(Lost(h, false), req) == Times(Received(h), req)
    ensures Rejects(After(h, false).out) == []
  {
    EveryRequestIsAccountedFor(h, req);
    OnlyRejectsDiffer(h);
    SpokenParts(After(h, true).out);
  }

  // ---------- the queue is short, in order, and empty while choked ----------

  predicate Sound(s: State) {
    |s.queue| < REQQ && (s.peerIsChoked ==> s.queue == [])
  }

  lemma {:induction false} RunsAreSound(h: seq<Input>, fext: bool)
    ensures Sound(After(h, fext))
  {
    if h != [] {
      RunsAreSound(h[..|h| - 1], fext);
    }
  }

  /** a can be got from s by leaving elements out */
  predicate IsSubsequence(a: seq<PeerRequest>, s: seq<PeerRequest>) {
    a == [] || (s != [] && (
      (a[|a| - 1] == s[|s| - 1] && IsSubsequence(a[..|a| - 1], s[..|s| - 1])) || IsSubsequence(a, s[..|s| - 1])))
  }

  lemma {:induction false} FewerFits(a: seq<PeerRequest>, i: nat, s: seq<PeerRequest>)
    requires i < |a| && IsSubsequence(a, s)
    ensures IsSubsequence(Without(a, i), s)
    decreases |s|
  {
    if Without(a, i) != [] {
      var n := |a| - 1;
      if IsSubsequence(a, s[..|s| - 1]) {
        FewerFits(a, i, s[..|s| - 1]);
      } else if i == n {
        assert Without(a, i) == a[..n];
      } else {
        FewerFits(a[..n], i, s[..|s| - 1]);
        assert Without(a, i)[..n - 1] == Without(a[..n], i);
      }
    }
  }

  lemma MoreFits(a: seq<PeerRequest>, s: seq<PeerRequest>, r: PeerRequest)
    requires IsSubsequence(a, s)
    ensures IsSubsequence(a, s + [r]) && IsSubsequence(a + [r], s + [r])
  {
    assert (s + [r])[..|s|] == s && (a + [r])[..|a|] == a;
  }

  lemma {:induction false} PrefixFits(a: seq<PeerRequest>, b: seq<PeerRequest>, s: seq<PeerRequest>)
    requires IsSubsequence(a + b, s)
    ensures IsSubsequence(a, s)
    decreases |b|
  {
    if b == [] {
      assert a + b == a;
    } else {
      var n := |a + b| - 1;
      FewerFits(a + b, n, s);
      assert Without(a + b, n) == a + b[..|b| - 1];
      PrefixFits(a, b[..|b| - 1], s);
    }
  }

  /** What has gone out, and what would go out next if nothing were taken back or rejected */
  function Served(s: State): seq<PeerRequest> {
    Pieces(s.out) + s.queue
  }

  lemma AskedKeepsOrder(s: State, r: PeerRequest, servable: bool, received: seq<PeerRequest>, fext: bool)
    requires IsSubsequence(Served(s), received)
    ensures IsSubsequence(Served(MadeRequest(s, r, servable, fext)), received + [r])
  {
    OutPush(s.out, Reject(r));
    MoreFits(Served(s), received, r);
    assert Served(s) + [r] == Pieces(s.out) + (s.queue + [r]);
  }

  lemma WithoutLater(p: seq<PeerRequest>, q: seq<PeerRequest>, i: nat)
    requires i < |q|
    ensures Without(p + q, |p| + i) == p + Without(q, i)
  {
  }

  lemma DroppedFits(p: seq<PeerRequest>, q: seq<PeerRequest>, i: nat, received: seq<PeerRequest>)
    requires i < |q| && IsSubsequence(p + q, received)
    ensures IsSubsequence(p + Without(q, i), received)
  {
    FewerFits(p + q, |p| + i, received);
    WithoutLater(p, q, i);
  }

  lemma CancelKeepsOrder(s: State, r: PeerRequest, received: seq<PeerRequest>)
    requires IsSubsequence(Served(s), received)
    ensures IsSubsequence(Served(Cancel(s, r)), received)
  {
    var i := Find(s.queue, r);
    if i < |s.queue| {
      DroppedFits(Pieces(s.out), s.queue, i, received);
    }
  }

  lemma ChokeKeepsOrder(s: State, choked: bool, now: int, received: seq<PeerRequest>, fext: bool)
    requires IsSubsequence(Served(s), received)
    ensures IsSubsequence(Served(ChangeChoke(s, choked, now, fext)), received)
  {
    var t := if choked then RejectAll(s.out, s.queue, fext) else s.out;
    OutPush(t, Choke(choked));
    RejectAllPieces(s.out, s.queue, fext);
    PrefixFits(Pieces(s.out), s.queue, received);
    assert Pieces(s.out) + [] == Pieces(s.out);
  }

  lemma FillKeepsOrder(s: State, hasSpace: bool, servable: bool, readable: bool, received: seq<PeerRequest>, fext: bool)
    requires IsSubsequence(Served(s), received)
    ensures IsSubsequence(Served(FillOutput(s, hasSpace, servable, readable, fext)), received)
  {
    if hasSpace && s.queue != [] {
      if servable && readable {
        OutPush(s.out, Piece(s.queue[0]));
        assert Served(s) == (Pieces(s.out) + [s.queue[0]]) + s.queue[1..];
      } else {
        OutPush(s.out, Reject(s.queue[0]));
        DroppedFits(Pieces(s.out), s.queue, 0, received);
        assert Without(s.queue, 0) == s.queue[1..];
      }
    }
  }

  lemma StepKeepsOrder(s: State, input: Input, received: seq<PeerRequest>, fext: bool)
    requires IsSubsequence(Served(s), received)
    ensures IsSubsequence(Served(Step(s, input, fext)), if input.Asked? then received + [input.req] else received)
  {
    match input
    case Asked(r, servable) => AskedKeepsOrder(s, r, servable, received, fext);
    case TakenBack(r) => CancelKeepsOrder(s, r, received);
    case SetChoke(choked, now) => ChokeKeepsOrder(s, choked, now, received, fext);
    case Fill(hasSpace, servable, readable) => FillKeepsOrder(s, hasSpace, servable, readable, received, fext);
  }

  /** Pieces go out in the order in which they were asked for, and those still queued come after them. */
  lemma {:induction false} FirstComeFirstServed(h: seq<Input>, fext: bool)
    ensures IsSubsequence(Served(After(h, fext)), Received(h))
  {
    if h != [] {
      FirstComeFirstServed(h[..|h| - 1], fext);
      StepKeepsOrder(After(h[..|h| - 1], fext), h[|h| - 1], Received(h[..|h| - 1]), fext);
    }
  }

  // ---------- what is queued is sent ----------

  /** Nothing among the inputs takes a request from the queue but fills that can send its block. */
  predicate OnlyServes(more: seq<Input>) {
    forall k :: 0 <= k < |more| ==>
      !more[k].TakenBack? && (more[k].SetChoke? ==> !more[k].choked) &&
      (more[k].Fill? && more[k].hasSpace ==> more[k].servable && more[k].readable)
  }

  /** How many of the inputs find room in the write buffer */
  function Rooms(more: seq<Input>): nat {
    if more == [] then 0
    else Rooms(more[..|more| - 1]) + if more[|more| - 1].Fill? && more[|more| - 1].hasSpace then 1 else 0
  }

  /** sent of the requests of q have gone out since s, the others lead the queue of t. */
  ghost predicate ServedSome(s: State, t: State, sent: nat) {
    sent <= |s.queue| && Pieces(t.out) == Pieces(s.out) + s.queue[..sent] && s.queue[sent..] <= t.queue
  }

  lemma StepServes(s: State, t: State, input: Input, sent: nat, fext: bool)
    requires ServedSome(s, t, sent) && OnlyServes([input])
    requires input.Fill? && input.hasSpace ==> sent < |s.queue|
    ensures ServedSome(s, Step(t, input, fext), sent + if input.Fill? && input.hasSpace then 1 else 0)
  {
    assert !([input][0]).TakenBack?;
    match input
    case Asked(r, _) => OutPush(t.out, Reject(r));
    case TakenBack(_) => assert false;
    case SetChoke(choked, now) => OutPush(t.out, Choke(choked));
    case Fill(hasSpace, _, _) =>
      if hasSpace {
        assert t.queue[0] == s.queue[sent..][0] == s.queue[sent];
        OutPush(t.out, Piece(t.queue[0]));
        assert s.queue[..sent + 1] == s.queue[..sent] + [s.queue[sent]];
        assert s.queue[sent + 1..] == s.queue[sent..][1..];
      }
  }

  /** Whatever has happened before: as often as there is room for a block that can be served and read, the next of the queued
      requests is answered with its piece, until the peer is choked or takes one back. */
  lemma {:induction false} QueuedAreServed(h: seq<Input>, more: seq<Input>, fext: bool)
    requires OnlyServes(more) && Rooms(more) <= |After(h, fext).queue|
    ensures var s, t, n := After(h, fext), After(h + more, fext), Rooms(more);
      Pieces(t.out) == Pieces(s.out) + s.queue[..n] && s.queue[n..] <= t.queue
  {
    var s := After(h, fext);
    if more == [] {
      assert h + more == h;
      assert Pieces(s.out) + [] == Pieces(s.out);
    } else {
      var before, last := more[..|more| - 1], more[|more| - 1];
      assert (h + more)[..|h + more| - 1] == h + before;
      assert OnlyServes([last]);
      QueuedAreServed(h, before, fext);
      StepServes(s, After(h + before, fext), last, Rooms(before), fext);
    }
  }

  // ---------- what the methods do ----------

  /** The rejects a peer is sent for these requests */
  ghost predicate AreRejects(more: seq<Outgoing>, reqs: seq<PeerRequest>, fext: bool) {
    if fext then |more| == |reqs| && forall k :: 0 <= k < |reqs| ==> more[k] == Reject(reqs[k])
    else more == []
  }

  /** out has become after, by rejects for these requests and then what is last. */
  ghost predicate RejectedThen(out: seq<Outgoing>, reqs: seq<PeerRequest>, last: seq<Outgoing>, fext: bool, after: seq<Outgoing>) {
    exists more :: AreRejects(more, reqs, fext) && after == out + more + last
  }

  lemma {:induction false} RejectAllRejects(out: seq<Outgoing>, queue: seq<PeerRequest>, last: seq<Outgoing>, fext: bool)
    ensures RejectedThen(out, queue, last, fext, RejectAll(out, queue, fext) + last)
    decreases |queue|
  {
    if queue == [] {
      assert AreRejects([], queue, fext) && out + [] + last == out + last;
    } else {
      var first := if fext then [Reject(queue[0])] else [];
      assert Rejected(out, queue[0], fext) == out + first;
      RejectAllRejects(out + first, queue[1..], last, fext);
      var more :| AreRejects(more, queue[1..], fext) && RejectAll(out, queue, fext) + last == out + first + more + last;
      assert AreRejects(first + more, queue, fext) && out + first + more + last == out + (first + more) + last;
    }
  }

  /** The peer may be choked or unchoked once in ten seconds; whoever is choked loses its queue, and is told last. */
  ghost predicate IsChoked(s: State, choked: bool, now: int, fext: bool, t: State) {
    if s.peerIsChoked == choked || now < s.chokeChangedAt + 10 then t == s
    else
      t == s.(peerIsChoked := choked, chokeChangedAt := now, queue := if choked then [] else s.queue, out := t.out) &&
      RejectedThen(s.out, if choked then s.queue else [], [Choke(choked)], fext, t.out)
  }

  lemma ChokeIsChoked(s: State, choked: bool, now: int, fext: bool)
    ensures IsChoked(s, choked, now, fext, ChangeChoke(s, choked, now, fext))
  {
    RejectAllRejects(s.out, s.queue, [Choke(choked)], fext);
    RejectAllRejects(s.out, [], [Choke(choked)], fext);
  }

  /** The first of the queued requests that is equal to req is gone. */
  ghost predicate IsTakenBack(s: State, req: PeerRequest, t: State) {
    if req !in s.queue then t == s else exists i: nat :: IsTakenFrom(s, i, req, t)
  }

  predicate IsTakenFrom(s: State, i: nat, req: PeerRequest, t: State) {
    i < |s.queue| && s.queue[i] == req && req !in s.queue[..i] &&
    t == s.(queue := s.queue[..i] + s.queue[i + 1..], cancelled := s.cancelled + [req])
  }

  // ---------- the queue in its fixed array ----------

  class RequestQueue {
    const fext: bool
    const peerAskedFor: array<PeerRequest>
    var pendingReqsToClient: nat
    var peerIsChoked: bool
    var chokeChangedAt: int
    var out: seq<Outgoing>
    ghost var cancelled: seq<PeerRequest>

    ghost predicate Valid()
      reads this, peerAskedFor
    {
      peerAskedFor.Length == REQQ && pendingReqsToClient < REQQ
    }

    ghost function View(): State
      reads this, peerAskedFor
      requires Valid()
    {
      State(peerAskedFor[..pendingReqsToClient], peerIsChoked, chokeChangedAt, out, cancelled)
    }

    constructor (fext: bool)
      ensures Valid() && fresh(peerAskedFor) && View() == START && this.fext == fext
    {
      this.fext := fext;
      peerAskedFor := new PeerRequest[REQQ](_ => PeerRequest(0, 0, 0));
      pendingReqsToClient, peerIsChoked, chokeChangedAt, out, cancelled := 0, true, 0, [], [];
    }

    /** tr_removeElementFromArray */
    method Remove(i: nat)
      requires Valid() && i < pendingReqsToClient
      modifies this`pendingReqsToClient, peerAskedFor
      ensures Valid() && View() == old(View()).(queue := Without(old(View()).queue, i))
    {
      var n := pendingReqsToClient;
      var k: nat := i + 1;
      while k < n
        invariant i < k <= n && pendingReqsToClient == n
        invariant forall j :: 0 <= j < k - 1 ==> peerAskedFor[j] == old(peerAskedFor[..])[if j < i then j else j + 1]
        invariant forall j :: k <= j < n ==> peerAskedFor[j] == old(peerAskedFor[..])[j]
      {
        peerAskedFor[k - 1] := peerAskedFor[k];
        k := k + 1;
      }
      pendingReqsToClient := n - 1;
      assert peerAskedFor[..n - 1] == Without(old(View()).queue, i);
    }

    method PopNextRequest() returns (found: bool, req: PeerRequest)
      requires Valid()
      modifies this`pendingReqsToClient, peerAskedFor
      ensures Valid() && found == (old(View()).queue != [])
      ensures found ==> req == old(View()).queue[0] && View() == old(View()).(queue := old(View()).queue[1..])
      ensures !found ==> View() == old(View())
    {
      req := peerAskedFor[0];
      if pendingReqsToClient == 0 {
        return false, req;
      }
      ghost var q := View().queue;
      Remove(0);
      assert Without(q, 0) == q[1..];
      found := true;
    }

    method SendReject(req: PeerRequest)
      requires Valid()
      modifies this`out
      ensures Valid() && View() == old(View()).(out := Rejected(old(out), req, fext))
    {
      if fext {
        out := out + [Reject(req)];
      }
    }

    method PeerMadeRequest(req: PeerRequest, servable: bool)
      requires Valid()
      modifies this`pendingReqsToClient, this`out, peerAskedFor
      ensures Valid() && View() == MadeRequest(old(View()), req, servable, fext)
      ensures servable && !old(peerIsChoked) && |old(View()).queue| < 511 ==>
        View() == old(View()).(queue := old(View()).queue + [req])
      ensures !(servable && !old(peerIsChoked) && |old(View()).queue| < 511) ==>
        View() == old(View()).(out := old(out) + if fext then [Reject(req)] else [])
    {
      if servable && !peerIsChoked && pendingReqsToClient + 1 < REQQ {
        peerAskedFor[pendingReqsToClient] := req;
        pendingReqsToClient := pendingReqsToClient + 1;
        assert peerAskedFor[..pendingReqsToClient] == old(View()).queue + [req];
      } else {
        SendReject(req);
      }
    }

    /** The cancel message in readBtMessage */
    method PeerCancelled(req: PeerRequest)
      requires Valid()
      modifies this`pendingReqsToClient, this`cancelled, peerAskedFor
      ensures Valid() && View() == Cancel(old(View()), req) && IsTakenBack(old(View()), req, View())
    {
      var i: nat := 0;
      while i < pendingReqsToClient && peerAskedFor[i] != req
        invariant i <= pendingReqsToClient && forall k :: 0 <= k < i ==> peerAskedFor[..pendingReqsToClient][k] != req
      {
        i := i + 1;
      }
      if i < pendingReqsToClient {
        assert Find(View().queue, req) == i && View().queue[i] == req;
        Remove(i);
        cancelled := cancelled + [req];
        assert IsTakenFrom(old(View()), i, req, View());
      }
    }

    method CancelAll()
      requires Valid()
      modifies this`pendingReqsToClient, this`out, peerAskedFor
      ensures Valid() && View() == old(View()).(queue := [], out := RejectAll(old(out), old(View()).queue, fext))
      ensures RejectedThen(old(out), old(View()).queue, [], fext, out)
    {
      RejectAllRejects(out, View().queue, [], fext);
      ghost var rest := View().queue;
      var found, req := PopNextRequest();
      while found
        invariant Valid() && peerIsChoked == old(peerIsChoked) && chokeChangedAt == old(chokeChangedAt)
        invariant cancelled == old(cancelled) && (rest == [] <==> !found)
        invariant View().queue == if found then rest[1..] else []
        invariant found ==> req == rest[0]
        invariant RejectAll(out, rest, fext) == RejectAll(old(out), old(View()).queue, fext)
        decreases |rest|
      {
        SendReject(req);
        rest := View().queue;
        found, req := PopNextRequest();
      }
    }

    method SetChoke(choked: bool, now: int)
      requires Valid()
      modifies this, peerAskedFor
      ensures Valid() && View() == ChangeChoke(old(View()), choked, now, fext)
      ensures IsChoked(old(View()), choked, now, fext, View())
    {
      ChokeIsChoked(View(), choked, now, fext);
      if chokeChangedAt > now - MIN_CHOKE_PERIOD_SEC {
        return;
      }
      if peerIsChoked != choked {
        peerIsChoked := choked;
        if choked {
          CancelAll();
        }
        out := out + [Choke(choked)];
        chokeChangedAt := now;
      }
    }

    method FillOutputBuffer(hasSpace: bool, servable: bool, readable: bool)
      requires Valid()
      modifies this`pendingReqsToClient, this`out, peerAskedFor
      ensures Valid() && View() == FillOutput(old(View()), hasSpace, servable, readable, fext)
      ensures !hasSpace || old(View()).queue == [] ==> View() == old(View())
      ensures hasSpace && old(View()).queue != [] ==> View() == old(View()).(queue := old(View()).queue[1..], out := out)
      ensures hasSpace && old(View()).queue != [] && servable && readable ==> out == old(out) + [Piece(old(View()).queue[0])]
      ensures hasSpace && old(View()).queue != [] && !(servable && readable) ==>
        out == old(out) + if fext then [Reject(old(View()).queue[0])] else []
    {
      if hasSpace {
        var found, req := PopNextRequest();
        if found {
          if servable && readable {
            out := out + [Piece(req)];
          } else {
            SendReject(req);
          }
        }
      }
    }
  }
}
