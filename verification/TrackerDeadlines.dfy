/** No request waits for ever: once its deadline is over, three upkeeps within the lifetime of a DNS answer see to it,
    whatever else happens in between (announcer-udp.c). */
module TrackerDeadlines {
  import opened Base
  import opened TrackerModel
  import opened TrackerRuns

  predicate HasId(reqs: seq<Request>, id: nat) {
    exists i :: 0 <= i < |reqs| && reqs[i].id == id
  }

  /** The requests with this id have run out of time by the system clock wall. */
  predicate Late(reqs: seq<Request>, id: nat, wall: nat) {
    forall i :: 0 <= i < |reqs| && reqs[i].id == id ==> reqs[i].createdAt + REQUEST_TTL < wall
  }

  predicate Queued(t: State, id: nat) {
    HasId(t.announces, id) || HasId(t.scrapes, id)
  }

  predicate IsLate(t: State, id: nat, wall: nat) {
    Late(t.announces, id, wall) && Late(t.scrapes, id, wall)
  }

  /** b has no request with this id that a does not have, and those it has are as old. */
  predicate NoMore(a: seq<Request>, b: seq<Request>, id: nat, wall: nat) {
    (HasId(b, id) ==> HasId(a, id)) && (Late(a, id, wall) ==> Late(b, id, wall))
  }

  // ---------- the queues ----------

  lemma Pushed(reqs: seq<Request>, r: Request, id: nat, wall: nat)
    ensures HasId(reqs + [r], id) <==> HasId(reqs, id) || r.id == id
    ensures Late(reqs + [r], id, wall) <==> Late(reqs, id, wall) && (r.id == id ==> r.createdAt + REQUEST_TTL < wall)
  {
    var s := reqs + [r];
    assert s[|reqs|] == r && forall i :: 0 <= i < |reqs| ==> s[i] == reqs[i];
  }

  lemma {:induction false} AfterSendingNoMore(reqs: seq<Request>, now: nat, id: nat, wall: nat)
    ensures NoMore(reqs, AfterSending(reqs, now), id, wall)
  {
    if reqs != [] {
      var before, r := reqs[..|reqs| - 1], reqs[|reqs| - 1];
      AfterSendingNoMore(before, now, id, wall);
      assert reqs == before + [r];
      Pushed(before, r, id, wall);
      Pushed(AfterSending(before, now), if r.sentAt != 0 then r else r.(sentAt := now), id, wall);
    }
  }

  lemma {:induction false} LateAreNotOpen(reqs: seq<Request>, cancelAll: bool, now: nat, id: nat, wall: nat)
    requires Late(reqs, id, wall) && wall <= now
    ensures !HasId(StillOpen(reqs, cancelAll, now), id)
  {
    if reqs != [] {
      var before, r := reqs[..|reqs| - 1], reqs[|reqs| - 1];
      assert reqs == before + [r];
      Pushed(before, r, id, wall);
      LateAreNotOpen(before, cancelAll, now, id, wall);
      Pushed(StillOpen(before, cancelAll, now), r, id, wall);
    }
  }

  lemma WithoutNoMore(reqs: seq<Request>, i: nat, id: nat, wall: nat)
    requires i < |reqs|
    ensures NoMore(reqs, Without(reqs, i), id, wall)
  {
    var s := Without(reqs, i);
    assert forall k :: 0 <= k < |s| ==> s[k] == reqs[if k < i then k else k + 1];
  }

  // ---------- how far a late request is from its answer ----------

  /** The next upkeep that comes while the clock has not passed horizon times requests out. */
  predicate IsNext(t: State, horizon: nat) {
    (t.isAskingDns && !t.hasAddr) || (t.connectingAt != 0 && t.hasAddr && horizon < t.addrExpirationTime)
  }

  /** The number of upkeeps until no request with this id is queued */
  function Level(t: State, id: nat, horizon: nat): nat {
    if !Queued(t, id) then 0
    else if IsNext(t, horizon) then 1
    else if t.isAskingDns || t.connectingAt != 0 then 2
    else 3
  }

  /** What is assumed of the moment: the clock has not passed horizon, a DNS answer from now on lasts beyond it, and by
      the system clock the requests are late. */
  predicate InTime(w: World, horizon: nat, wall: nat) {
    0 < w.now <= horizon < w.now + DNS_TTL_SECS && wall <= w.wall
  }

  lemma IdleIsDone(t: State, w: World, id: nat, wall: nat)
    requires IsIdle(t) && Steady(t, w.now)
    ensures !Queued(Upkeep(t, w), id) && IsLate(Upkeep(t, w), id, wall)
  {
  }

  lemma FailedIsDone(t: State, action: Action, connectionId: nat, w: World, id: nat, wall: nat)
    requires t.connectingAt != 0 && Steady(t, w.now) && action != Connect
    ensures var r := OnConnectionResponse(t, action, connectionId, w); !Queued(r, id) && IsLate(r, id, wall)
  {
    IdleIsDone(FailAll(t.(connectingAt := 0, connectionTransactionId := 0), Failure(true, false)), w, id, wall);
  }

  lemma TimeoutsAreDone(t: State, w: World, id: nat, wall: nat)
    requires Steady(t, w.now) && IsLate(t, id, wall) && wall <= w.wall
    ensures !Queued(TimeoutReqs(t, w), id) && IsLate(TimeoutReqs(t, w), id, wall)
  {
    var cancelAll := t.closeAt != 0 && t.closeAt <= w.wall;
    var t1 := t;
    if t.connectingAt != 0 && t.connectingAt + REQUEST_TTL < w.wall {
      FailedIsDone(t, Error, 0, w, id, wall);
      t1 := OnConnectionResponse(t, Error, 0, w);
    }
    LateAreNotOpen(t1.announces, cancelAll, w.wall, id, wall);
    LateAreNotOpen(t1.scrapes, cancelAll, w.wall, id, wall);
  }

  lemma SendingIsDone(t: State, now: nat, id: nat, wall: nat)
    requires !t.isAskingDns && t.connectingAt == 0 && t.hasAddr && t.connectionExpirationTime > now
    requires !Queued(t, id) && IsLate(t, id, wall)
    ensures !Queued(SendReqs(t, now), id) && IsLate(SendReqs(t, now), id, wall)
  {
    AfterSendingNoMore(t.announces, now, id, wall);
    AfterSendingNoMore(t.scrapes, now, id, wall);
  }

  /** Upkeep with neither an address to look up nor a connection to open times requests out. */
  lemma UpkeepTimesOut(t: State, w: World, id: nat, wall: nat)
    requires Steady(t, w.now) && IsLate(t, id, wall) && wall <= w.wall
    requires if t.hasAddr then w.now < t.addrExpirationTime && (t.connectionExpirationTime <= w.now ==> t.connectingAt != 0)
             else t.isAskingDns
    ensures !Queued(Upkeep(t, w), id)
  {
    if !IsIdle(t) {
      TimeoutsAreDone(t, w, id, wall);
      var t2 := TimeoutReqs(t, w);
      if t2.hasAddr && t2.connectionExpirationTime > w.now {
        SendingIsDone(t2, w.now, id, wall);
      }
    }
  }

  /** Upkeep brings a late request one step nearer to its answer. */
  lemma UpkeepComesNearer(t: State, w: World, id: nat, horizon: nat, wall: nat)
    requires Steady(t, w.now) && InTime(w, horizon, wall) && IsLate(t, id, wall)
    ensures Level(Upkeep(t, w), id, horizon) == 0 || Level(Upkeep(t, w), id, horizon) < Level(t, id, horizon)
    ensures IsLate(Upkeep(t, w), id, wall)
  {
    var t1 := if t.hasAddr && t.addrExpirationTime <= w.now then t.(hasAddr := false) else t;
    if IsIdle(t1) {
    } else if !t1.hasAddr && !t1.isAskingDns {
    } else if t1.hasAddr && t1.connectionExpirationTime <= w.now && t1.connectingAt == 0 {
    } else {
      TimeoutsAreDone(t1, w, id, wall);
      var t2 := TimeoutReqs(t1, w);
      if t2.hasAddr && t2.connectionExpirationTime > w.now {
        SendingIsDone(t2, w.now, id, wall);
      }
    }
  }

  /** The answer to a connect does not take it further away. */
  lemma ConnectionResponseComesNearer(t: State, action: Action, connectionId: nat, w: World, id: nat, horizon: nat, wall: nat)
    requires t.connectingAt != 0 && Steady(t, w.now) && InTime(w, horizon, wall) && IsLate(t, id, wall)
    ensures var r := OnConnectionResponse(t, action, connectionId, w);
      Level(r, id, horizon) <= Level(t, id, horizon) && IsLate(r, id, wall)
  {
    if action == Connect {
      var t2 := t.(connectingAt := 0, connectionTransactionId := 0, connectionId := connectionId,
                   connectionExpirationTime := w.now + CONNECTION_TTL_SECS, log := t.log + [Granted(connectionId, w.now)]);
      assert OnConnectionResponse(t, action, connectionId, w) == Upkeep(t2, w);
      GrantedComesNearer(t, t2, w, id, horizon, wall);
    } else {
      FailedIsDone(t, action, connectionId, w, id, wall);
    }
  }

  lemma GrantedComesNearer(t: State, t2: State, w: World, id: nat, horizon: nat, wall: nat)
    requires t.connectingAt != 0 && Steady(t, w.now) && InTime(w, horizon, wall) && IsLate(t, id, wall)
    requires t2 == t.(connectingAt := 0, connectionTransactionId := 0, connectionId := t2.connectionId,
                      connectionExpirationTime := w.now + CONNECTION_TTL_SECS, log := t2.log)
    ensures Level(Upkeep(t2, w), id, horizon) <= Level(t, id, horizon) && IsLate(Upkeep(t2, w), id, wall)
  {
    UpkeepComesNearer(t2, w, id, horizon, wall);
    if t2.hasAddr && w.now < t2.addrExpirationTime {
      UpkeepTimesOut(t2, w, id, wall);
    }
  }

  // ---------- every input ----------

  predicate IsNewWith(input: Input, id: nat) {
    IsNew(input) && input.id == id
  }

  lemma OtherRequest(t: State, r: Request, id: nat, horizon: nat, wall: nat)
    requires r.id != id && IsLate(t, id, wall)
    ensures var a, s := t.(announces := t.announces + [r]), t.(scrapes := t.scrapes + [r]);
      IsLate(a, id, wall) && Level(a, id, horizon) == Level(t, id, horizon) &&
      IsLate(s, id, wall) && Level(s, id, horizon) == Level(t, id, horizon)
  {
    Pushed(t.announces, r, id, wall);
    Pushed(t.scrapes, r, id, wall);
  }

  /** With an address that is going to last, at most one more upkeep is needed. */
  lemma UpkeepWithAddress(t: State, w: World, id: nat, horizon: nat, wall: nat)
    requires t.hasAddr && horizon < t.addrExpirationTime && Steady(t, w.now) && InTime(w, horizon, wall) && IsLate(t, id, wall)
    ensures Level(Upkeep(t, w), id, horizon) <= 1
  {
    if IsIdle(t) {
      IdleIsDone(t, w, id, wall);
    } else if t.connectionExpirationTime <= w.now && t.connectingAt == 0 {
      assert IsNext(Upkeep(t, w), horizon);
    } else {
      UpkeepTimesOut(t, w, id, wall);
    }
  }

  lemma DnsComesNearer(t: State, found: bool, w: World, id: nat, horizon: nat, wall: nat)
    requires t.isAskingDns && Steady(t, w.now) && InTime(w, horizon, wall) && IsLate(t, id, wall)
    ensures Level(OnDns(t, found, w), id, horizon) <= Level(t, id, horizon) && IsLate(OnDns(t, found, w), id, wall)
  {
    if found {
      var t1 := t.(isAskingDns := false, hasAddr := true, addrExpirationTime := w.now + DNS_TTL_SECS);
      UpkeepComesNearer(t1, w, id, horizon, wall);
      UpkeepWithAddress(t1, w, id, horizon, wall);
    }
  }

  lemma ResponseComesNearer(t: State, action: Action, txn: nat, body: Bytes, w: World, id: nat, horizon: nat, wall: nat)
    requires Steady(t, w.now) && InTime(w, horizon, wall) && IsLate(t, id, wall)
    ensures var r := OnResponse(t, action, txn, body, w);
      r.Some? ==> Level(r.value, id, horizon) <= Level(t, id, horizon) && IsLate(r.value, id, wall)
  {
    if t.connectingAt != 0 && txn == t.connectionTransactionId {
      ConnectionResponseComesNearer(t, action, BigEndian(body), w, id, horizon, wall);
    } else {
      var i, j := Match(t.announces, txn), Match(t.scrapes, txn);
      if i < |t.announces| {
        WithoutNoMore(t.announces, i, id, wall);
      } else if j < |t.scrapes| {
        WithoutNoMore(t.scrapes, j, id, wall);
      }
    }
  }

  lemma MessageComesNearer(t: State, msg: Bytes, w: World, id: nat, horizon: nat, wall: nat)
    requires Steady(t, w.now) && InTime(w, horizon, wall) && IsLate(t, id, wall)
    ensures var r := OnMessage(t, msg, w);
      r.Some? ==> Level(r.value, id, horizon) <= Level(t, id, horizon) && IsLate(r.value, id, wall)
  {
    if |msg| >= 8 && IsResponse(ActionOf(BigEndian(msg[..4])), |msg|) {
      ResponseComesNearer(t, ActionOf(BigEndian(msg[..4])).value, BigEndian(msg[4..8]), msg[8..], w, id, horizon, wall);
    }
  }

  /** Nothing that can happen takes a late request further from its answer, and every upkeep brings it nearer. */
  lemma StepComesNearer(t: State, input: Input, w: World, id: nat, horizon: nat, wall: nat)
    requires Steady(t, w.now) && (input.Dns? ==> t.isAskingDns) && !IsNewWith(input, id)
    requires InTime(w, horizon, wall) && IsLate(t, id, wall)
    ensures Level(Step(t, input, w), id, horizon) <= Level(t, id, horizon) && IsLate(Step(t, input, w), id, wall)
    ensures input.Tick? ==>
      Level(Step(t, input, w), id, horizon) == 0 || Level(Step(t, input, w), id, horizon) < Level(t, id, horizon)
  {
    match input
    case NewAnnounce(n, txn, cb) =>
      var r := Request(n, txn, w.now, 0, cb);
      OtherRequest(t, r, id, horizon, wall);
      UpkeepComesNearer(t.(announces := t.announces + [r]), w, id, horizon, wall);
    case NewScrape(n, txn, cb) =>
      var r := Request(n, txn, w.now, 0, cb);
      OtherRequest(t, r, id, horizon, wall);
      UpkeepComesNearer(t.(scrapes := t.scrapes + [r]), w, id, horizon, wall);
    case Dns(found) => DnsComesNearer(t, found, w, id, horizon, wall);
    case Message(msg) => MessageComesNearer(t, msg, w, id, horizon, wall);
    case Tick => UpkeepComesNearer(t, w, id, horizon, wall);
    case StartShutdown => UpkeepComesNearer(t.(closeAt := w.wall + 3), w, id, horizon, wall);
  }

  // ---------- runs ----------

  /** How often the timer has fired from place from on */
  function Ticks(h: History, from: nat): nat {
    if |h| <= from then 0 else Ticks(h[..|h| - 1], from) + if h[|h| - 1].0.Tick? then 1 else 0
  }

  lemma {:induction false} ClockGrows(h: History, j: nat, k: nat)
    requires IsRun(h) && j <= k < |h|
    ensures 0 < h[j].1.now <= h[k].1.now <= Clock(h)
    decreases |h|
  {
    var before := h[..|h| - 1];
    if k < |before| {
      ClockGrows(before, j, k);
    } else if j < |before| {
      ClockGrows(before, j, |before| - 1);
    }
  }

  /** What is assumed of a run from place from on */
  ghost predicate StaysInTime(h: History, from: nat, id: nat, horizon: nat, wall: nat) {
    forall k :: from <= k < |h| ==> InTime(h[k].1, horizon, wall) && !IsNewWith(h[k].0, id)
  }

  lemma {:induction false} LevelFalls(h: History, from: nat, id: nat, horizon: nat, wall: nat)
    requires from <= |h| && IsRun(h) && IsRun(h[..from]) && IsLate(After(h[..from]), id, wall)
    requires StaysInTime(h, from, id, horizon, wall)
    ensures IsLate(After(h), id, wall)
    ensures Level(After(h), id, horizon) == 0 || Level(After(h), id, horizon) + Ticks(h, from) <= 3
  {
    if |h| == from {
      assert h[..from] == h;
    } else {
      var before, last := h[..|h| - 1], h[|h| - 1];
      assert before[..from] == h[..from];
      LevelFalls(before, from, id, horizon, wall);
      StepComesNearer(After(before), last.0, last.1, id, horizon, wall);
    }
  }

  lemma {:induction false} NotQueuedNotOwed(reqs: seq<Request>, id: nat)
    requires !HasId(reqs, id)
    ensures Owed(reqs)[id] == 0
  {
    if reqs != [] {
      var before, r := reqs[..|reqs| - 1], reqs[|reqs| - 1];
      assert reqs == before + [r];
      Pushed(before, r, id, 0);
      NotQueuedNotOwed(before, id);
    }
  }

  /** When the requests with some id are late, three more upkeeps, all before a DNS answer could expire, leave none of them
      in a queue, and everybody who waited for one has been called; whatever else has happened meanwhile. */
  lemma AnsweredByThirdUpkeep(h: History, from: nat, id: nat, wall: nat)
    requires from < |h| && IsRun(h) && IsRun(h[..from]) && IsLate(After(h[..from]), id, wall)
    requires forall k :: from <= k < |h| ==> wall <= h[k].1.wall && !IsNewWith(h[k].0, id)
    requires Clock(h) < h[from].1.now + DNS_TTL_SECS && 3 <= Ticks(h, from)
    ensures !Queued(After(h), id) && CalledIds(After(h).log)[id] == WaitingIn(h)[id]
  {
    forall k | from <= k < |h|
      ensures InTime(h[k].1, Clock(h), wall)
    {
      ClockGrows(h, from, k);
    }
    LevelFalls(h, from, id, Clock(h), wall);
    RunsAreAccounted(h);
    NotQueuedNotOwed(After(h).announces, id);
    NotQueuedNotOwed(After(h).scrapes, id);
  }

  // ---------- two are not enough ----------

  /** A connect answer with transaction id 0 that grants connection id 0 */
  function Grant(): Bytes {
    seq(16, _ => 0)
  }

  lemma {:induction false} ZeroBytes(s: Bytes)
    requires forall k :: 0 <= k < |s| ==> s[k] == 0
    ensures BigEndian(s) == 0
  {
    if s != [] {
      ZeroBytes(s[..|s| - 1]);
    }
  }

  lemma GrantIsAccepted(t: State, w: World)
    requires Steady(t, w.now) && t.connectingAt != 0 && t.connectionTransactionId == 0
    ensures OnMessage(t, Grant(), w) == Some(OnConnectionResponse(t, Connect, 0, w))
  {
    var msg := Grant();
    ZeroBytes(msg[..4]);
    ZeroBytes(msg[4..8]);
    ZeroBytes(msg[8..]);
  }

  lemma GoesOn(h: History, input: Input, w: World)
    requires IsRun(h) && 0 < w.now && Clock(h) <= w.now && (input.Dns? ==> After(h).isAskingDns)
    ensures IsRun(h + [(input, w)]) && Clock(h + [(input, w)]) == w.now
    ensures After(h + [(input, w)]) == Step(After(h), input, w)
  {
    assert (h + [(input, w)])[..|h|] == h;
  }

  /** The request, as it is queued once it has been sent */
  const UNLUCKY := Request(1, 7, 1, 2, true)

  /** A request is sent and never answered. */
  lemma SentOnce(r: Request, asking: State, connecting: State, granted: World)
    requires r == UNLUCKY.(sentAt := 0) && granted == World(2, 2, 0)
    requires asking == START.(announces := [r], isAskingDns := true, log := [Lookup])
    requires connecting == asking.(isAskingDns := false, hasAddr := true, addrExpirationTime := 3601, connectingAt := 1,
                                   log := [Lookup, ConnectSent(0, 1)])
    ensures Step(START, NewAnnounce(1, 7, true), World(1, 1, 0)) == asking
    ensures Step(asking, Dns(true), World(1, 1, 0)) == connecting
    ensures var s := OnConnectionResponse(connecting, Connect, 0, granted);
      s.announces == [UNLUCKY] && s.scrapes == [] && s.hasAddr && s.addrExpirationTime == 3601 &&
      s.connectionExpirationTime == 62 && s.connectingAt == 0 && !s.isAskingDns
  {
    var t := connecting.(connectingAt := 0, connectionId := 0, connectionExpirationTime := 62,
                         log := connecting.log + [Granted(0, 2)]);
    assert OnConnectionResponse(connecting, Connect, 0, granted) == Upkeep(t, granted);
    OneIsOpen(r, 2);
    assert TimeoutReqs(t, granted).announces == [r] && TimeoutReqs(t, granted).scrapes == [];
  }

  lemma OneIsOpen(r: Request, now: nat)
    requires r == UNLUCKY.(sentAt := 0) && now == 2
    ensures StillOpen([r], false, now) == [r] && AfterSending([r], now) == [UNLUCKY]
  {
    assert [r][..0] == [];
    assert StillOpen([], false, now) == [] && AfterSending([], now) == [];
  }

  /** An upkeep just before the address expires opens a connection, and the next one looks the address up again. */
  lemma TwoMoreUpkeeps(s: State)
    requires s.announces == [UNLUCKY] && s.hasAddr && s.addrExpirationTime == 3601
    requires s.connectionExpirationTime == 62 && s.connectingAt == 0 && !s.isAskingDns
    ensures Upkeep(Upkeep(s, World(3600, 3600, 0)), World(3601, 3601, 0)).announces == [UNLUCKY]
  {
  }

  /** There is a run in which a request is late and two more upkeeps leave it in its queue. */
  lemma TwoAreNotEnough() returns (h: History)
    ensures |h| == 5 && IsRun(h) && IsRun(h[..3]) && Ticks(h, 3) == 2
    ensures IsLate(After(h[..3]), UNLUCKY.id, 3600) && h[3].1.wall == 3600 && Queued(After(h), UNLUCKY.id)
  {
    var r := UNLUCKY.(sentAt := 0);
    var asking := START.(announces := [r], isAskingDns := true, log := [Lookup]);
    var connecting := asking.(isAskingDns := false, hasAddr := true, addrExpirationTime := 3601, connectingAt := 1,
                              log := [Lookup, ConnectSent(0, 1)]);
    SentOnce(r, asking, connecting, World(2, 2, 0));
    GoesOn([], NewAnnounce(1, 7, true), World(1, 1, 0));
    var h1: History := [] + [(NewAnnounce(1, 7, true), World(1, 1, 0))];
    GoesOn(h1, Dns(true), World(1, 1, 0));
    var h2 := h1 + [(Dns(true), World(1, 1, 0))];
    GrantIsAccepted(connecting, World(2, 2, 0));
    GoesOn(h2, Message(Grant()), World(2, 2, 0));
    var h3 := h2 + [(Message(Grant()), World(2, 2, 0))];
    GoesOn(h3, Tick, World(3600, 3600, 0));
    var h4 := h3 + [(Tick, World(3600, 3600, 0))];
    GoesOn(h4, Tick, World(3601, 3601, 0));
    h := h4 + [(Tick, World(3601, 3601, 0))];
    TwoMoreUpkeeps(After(h3));
    assert h[..4] == h4 && h4[..3] == h3 && h[..3] == h3 && Ticks(h3, 3) == 0;
    assert After(h).announces[0].id == UNLUCKY.id;
  }
}
