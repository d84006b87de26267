/** What the tracker client tells the owners of its requests, and why: every answer comes from the packet that carries it, every
    failure from what it says (announcer-udp.c; BEP 15). */
module TrackerOutcomes {
  import opened Base
  import opened TrackerModel
  import opened TrackerRuns

  // ---------- what a message does ----------

  /** The kinds of reply, by the number they begin with, and how long they have to be */
  predicate IsReply(code: nat, length: nat) {
    (code == 0 && length == 16) || (code in {1, 2} && length >= 20) || (code == 3 && length >= 8)
  }

  /** The first request of a queue that has been sent with this transaction id */
  predicate IsFirstSent(reqs: seq<Request>, i: nat, transactionId: nat) {
    i < |reqs| && reqs[i].sentAt != 0 && reqs[i].transactionId == transactionId &&
    forall k :: 0 <= k < i ==> reqs[k].sentAt == 0 || reqs[k].transactionId != transactionId
  }

  predicate NoneSent(reqs: seq<Request>, transactionId: nat) {
    forall k :: 0 <= k < |reqs| ==> reqs[k].sentAt == 0 || reqs[k].transactionId != transactionId
  }

  /** The owner of r is told the outcome, if there is one. */
  predicate Told(before: seq<Event>, r: Request, outcome: Outcome, after: seq<Event>) {
    after == before + if r.hasCallback then [Called(r.id, outcome)] else []
  }

  predicate IsConnectReply(t: State, transactionId: nat) {
    t.connectingAt != 0 && transactionId == t.connectionTransactionId
  }

  /** A reply of kind code to the announce at place i: an announce reply is handed on from its ninth byte on, anything else is
      a failure that has connected. */
  ghost predicate AnswersAnnounce(t: State, code: nat, body: Bytes, i: nat, r: State) {
    i < |t.announces| && r == t.(announces := Without(t.announces, i), log := r.log) &&
    Told(t.log, t.announces[i], if code == 1 then Answer(body) else Failure(true, false), r.log)
  }

  ghost predicate AnswersScrape(t: State, code: nat, body: Bytes, j: nat, r: State) {
    j < |t.scrapes| && r == t.(scrapes := Without(t.scrapes, j), log := r.log) &&
    Told(t.log, t.scrapes[j], if code == 2 then Answer(body) else Failure(true, false), r.log)
  }

  /** A reply to the connect: its id is taken over, or every owner is told that it has failed. */
  ghost predicate AnswersConnect(t: State, code: nat, body: Bytes, now: nat, r: State) {
    r.connectingAt == 0 &&
    if code == 0 then
      r.connectionId == BigEndian(body) && r.connectionExpirationTime == now + CONNECTION_TTL_SECS &&
      t.log + [Granted(BigEndian(body), now)] <= r.log
    else
      IsIdle(r) && r.log == t.log + Calls(t.scrapes, Failure(true, false)) + Calls(t.announces, Failure(true, false))
  }

  /** What a message comes to, whether it is handled or not */
  ghost predicate IsHandled(t: State, msg: Bytes, now: nat, handled: bool, r: State) {
    var known := |msg| >= 8 && IsReply(BigEndian(msg[..4]), |msg|);
    var code := if |msg| >= 8 then BigEndian(msg[..4]) else 0;
    var txn := if |msg| >= 8 then BigEndian(msg[4..8]) else 0;
    var body := if |msg| >= 8 then msg[8..] else [];
    (handled <==> known && (IsConnectReply(t, txn) || !NoneSent(t.announces, txn) || !NoneSent(t.scrapes, txn))) &&
    (!handled ==> r == t) &&
    (known && IsConnectReply(t, txn) ==> AnswersConnect(t, code, body, now, r)) &&
    (known && !IsConnectReply(t, txn) ==> forall i :: IsFirstSent(t.announces, i, txn) ==> AnswersAnnounce(t, code, body, i, r)) &&
    (known && !IsConnectReply(t, txn) && NoneSent(t.announces, txn) ==>
      forall j :: IsFirstSent(t.scrapes, j, txn) ==> AnswersScrape(t, code, body, j, r))
  }

  lemma MatchIsFirst(reqs: seq<Request>, transactionId: nat)
    ensures Match(reqs, transactionId) == |reqs| <==> NoneSent(reqs, transactionId)
    ensures forall i: nat :: IsFirstSent(reqs, i, transactionId) <==> i == Match(reqs, transactionId) < |reqs|
  {
    var m := Match(reqs, transactionId);
    assert forall k :: 0 <= k < m ==> !IsResponseTo(reqs[k], transactionId);
  }

  lemma CallsOfOne(r: Request, outcome: Outcome)
    ensures Calls([r], outcome) == if r.hasCallback then [Called(r.id, outcome)] else []
  {
    assert [r][..0] == [] && Calls([], outcome) == [];
  }

  lemma UpkeepOfIdle(t: State, w: World)
    requires Steady(t, w.now) && IsIdle(t)
    ensures IsIdle(Upkeep(t, w)) && Upkeep(t, w).log == t.log && Upkeep(t, w).connectingAt == t.connectingAt
  {
  }

  /** A connection that has just been granted outlives the upkeep that follows. */
  lemma UpkeepOfLive(t: State, w: World)
    requires Steady(t, w.now) && t.connectionExpirationTime > w.now
    ensures var r := Upkeep(t, w);
      r.connectingAt == 0 && r.connectionId == t.connectionId && r.connectionExpirationTime == t.connectionExpirationTime &&
      t.log <= r.log
  {
  }

  lemma ConnectIsAnswered(t: State, action: Action, body: Bytes, w: World)
    requires t.connectingAt != 0 && Steady(t, w.now)
    ensures AnswersConnect(t, if action == Connect then 0 else 3, body, w.now, OnConnectionResponse(t, action, BigEndian(body), w))
  {
    var t1 := t.(connectingAt := 0, connectionTransactionId := 0);
    var id := BigEndian(body);
    if action == Connect {
      UpkeepOfLive(t1.(connectionId := id, connectionExpirationTime := w.now + CONNECTION_TTL_SECS,
                       log := t1.log + [Granted(id, w.now)]), w);
    } else {
      UpkeepOfIdle(FailAll(t1, Failure(true, false)), w);
    }
  }

  lemma ResponseIsHandled(t: State, action: Action, transactionId: nat, body: Bytes, w: World)
    requires Steady(t, w.now) && !IsConnectReply(t, transactionId) && (action == Announce ==> |body| >= 12)
    ensures var r := OnResponse(t, action, transactionId, body, w);
      var code := match action case Connect => 0 case Announce => 1 case Scrape => 2 case Error => 3;
      (r.Some? <==> !NoneSent(t.announces, transactionId) || !NoneSent(t.scrapes, transactionId)) &&
      (forall i :: IsFirstSent(t.announces, i, transactionId) ==> AnswersAnnounce(t, code, body, i, r.value)) &&
      (NoneSent(t.announces, transactionId) ==>
        forall j :: IsFirstSent(t.scrapes, j, transactionId) ==> AnswersScrape(t, code, body, j, r.value))
  {
    MatchIsFirst(t.announces, transactionId);
    MatchIsFirst(t.scrapes, transactionId);
    var i, j := Match(t.announces, transactionId), Match(t.scrapes, transactionId);
    if i < |t.announces| {
      CallsOfOne(t.announces[i], ResultOf(Announce, action, body));
    } else if j < |t.scrapes| {
      CallsOfOne(t.scrapes[j], ResultOf(Scrape, action, body));
    }
  }

  /** The message handler does what a message asks for. */
  lemma MessageIsHandled(t: State, msg: Bytes, w: World)
    requires Steady(t, w.now)
    ensures var r := OnMessage(t, msg, w); IsHandled(t, msg, w.now, r.Some?, if r.Some? then r.value else t)
  {
    if |msg| >= 8 && IsResponse(ActionOf(BigEndian(msg[..4])), |msg|) {
      var action, txn, body := ActionOf(BigEndian(msg[..4])).value, BigEndian(msg[4..8]), msg[8..];
      if IsConnectReply(t, txn) {
        ConnectIsAnswered(t, action, body, w);
      } else {
        ResponseIsHandled(t, action, txn, body, w);
      }
    }
  }
}
