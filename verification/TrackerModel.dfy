/** The UDP tracker client as a state machine: what every step does, and what every run keeps
    (announcer-udp.c; BEP 15). */
module TrackerModel {
  import opened Base

  const CONNECTION_TTL_SECS := 60
  const REQUEST_TTL := 60
  const DNS_TTL_SECS := 3600

  datatype Action = Connect | Announce | Scrape | Error

  /** What a request's owner is told */
  datatype Outcome = Answer(body: Bytes) | Failure(didConnect: bool, didTimeout: bool)

  /** An announce or a scrape; id stands for its address in memory */
  datatype Request = Request(id: nat, transactionId: nat, createdAt: nat, sentAt: nat, hasCallback: bool)

  /** What the outside world sees */
  datatype Event =
    | Lookup
    | ConnectSent(transactionId: nat, at: nat)
    | Granted(connectionId: nat, at: nat)
    | Sent(id: nat, connectionId: nat, at: nat)
    | Called(id: nat, outcome: Outcome)

  /** struct tau_tracker; log is everything it did so far */
  datatype State = State(
    isAskingDns: bool,
    hasAddr: bool,
    addrExpirationTime: nat,
    connectingAt: nat,
    connectionExpirationTime: nat,
    connectionId: nat,
    connectionTransactionId: nat,
    closeAt: nat,
    announces: seq<Request>,
    scrapes: seq<Request>,
    log: seq<Event>)

  /** What a step finds outside: the cached clock, the system clock, and a random transaction id */
  datatype World = World(now: nat, wall: nat, random: nat)

  const START := State(false, false, 0, 0, 0, 0, 0, 0, [], [], [])

  predicate IsIdle(t: State) {
    t.announces == [] && t.scrapes == []
  }

  /** What the asserts before sending rest on: an address and a pending query never coexist, and a pending
      connect means that the connection id has expired. */
  predicate Steady(t: State, now: nat) {
    (t.hasAddr ==> !t.isAskingDns) && (t.connectingAt != 0 ==> t.connectionExpirationTime <= now)
  }

  // ---------- the steps ----------

  function Calls(reqs: seq<Request>, outcome: Outcome): seq<Event> {
    if reqs == [] then [] else
      var before, r := Calls(reqs[..|reqs| - 1], outcome), reqs[|reqs| - 1];
      if r.hasCallback then before + [Called(r.id, outcome)] else before
  }

  /** tau_tracker_fail_all */
  function FailAll(t: State, outcome: Outcome): State {
    t.(announces := [], scrapes := [], log := t.log + Calls(t.scrapes, outcome) + Calls(t.announces, outcome))
  }

  /** What is left of a queue after sending: requests nobody waits for are forgotten once sent */
  function AfterSending(reqs: seq<Request>, now: nat): seq<Request> {
    if reqs == [] then [] else
      var before, r := AfterSending(reqs[..|reqs| - 1], now), reqs[|reqs| - 1];
      if r.sentAt != 0 then before + [r] else if r.hasCallback then before + [r.(sentAt := now)] else before
  }

  function Sends(reqs: seq<Request>, connectionId: nat, now: nat): seq<Event> {
    if reqs == [] then [] else
      var before, r := Sends(reqs[..|reqs| - 1], connectionId, now), reqs[|reqs| - 1];
      if r.sentAt == 0 then before + [Sent(r.id, connectionId, now)] else before
  }

  /** tau_tracker_send_reqs; the requires are its asserts */
  function SendReqs(t: State, now: nat): State
    requires !t.isAskingDns && t.connectingAt == 0 && t.hasAddr && t.connectionExpirationTime > now
  {
    t.(announces := AfterSending(t.announces, now),
       scrapes := AfterSending(t.scrapes, now),
       log := t.log + Sends(t.announces, t.connectionId, now) + Sends(t.scrapes, t.connectionId, now))
  }

  predicate IsOver(r: Request, cancelAll: bool, wall: nat) {
    cancelAll || r.createdAt + REQUEST_TTL < wall
  }

  function StillOpen(reqs: seq<Request>, cancelAll: bool, wall: nat): seq<Request> {
    if reqs == [] then [] else
      var before, r := StillOpen(reqs[..|reqs| - 1], cancelAll, wall), reqs[|reqs| - 1];
      if IsOver(r, cancelAll, wall) then before else before + [r]
  }

  function TimedOut(reqs: seq<Request>, cancelAll: bool, wall: nat): seq<Request> {
    if reqs == [] then [] else
      var before, r := TimedOut(reqs[..|reqs| - 1], cancelAll, wall), reqs[|reqs| - 1];
      if IsOver(r, cancelAll, wall) then before + [r] else before
  }

  /** The number of a connect that may still be nested below a call */
  function Pending(t: State): nat {
    if t.connectingAt != 0 then 1 else 0
  }

  /** on_tracker_connection_response */
  function OnConnectionResponse(t: State, action: Action, connectionId: nat, w: World): (r: State)
    requires t.connectingAt != 0 && Steady(t, w.now)
    ensures Steady(r, w.now)
    decreases 1, 0
  {
    var t1 := t.(connectingAt := 0, connectionTransactionId := 0);
    var t2 :=
      if action == Connect then
        t1.(connectionId := connectionId, connectionExpirationTime := w.now + CONNECTION_TTL_SECS,
            log := t1.log + [Granted(connectionId, w.now)])
      else FailAll(t1, Failure(true, false));
    Upkeep(t2, w)
  }

  /** tau_tracker_timeout_reqs */
  function TimeoutReqs(t: State, w: World): (r: State)
    requires Steady(t, w.now)
    ensures Steady(r, w.now)
    decreases Pending(t), 1
  {
    var cancelAll := t.closeAt != 0 && t.closeAt <= w.wall;
    var t1 := if t.connectingAt != 0 && t.connectingAt + REQUEST_TTL < w.wall then OnConnectionResponse(t, Error, 0, w) else t;
    var gone := Failure(false, true);
    t1.(announces := StillOpen(t1.announces, cancelAll, w.wall),
        scrapes := StillOpen(t1.scrapes, cancelAll, w.wall),
        log := t1.log + Calls(TimedOut(t1.announces, cancelAll, w.wall), gone)
                      + Calls(TimedOut(t1.scrapes, cancelAll, w.wall), gone))
  }

  /** tau_tracker_upkeep */
  function Upkeep(t: State, w: World): (r: State)
    requires Steady(t, w.now)
    ensures Steady(r, w.now)
    decreases Pending(t), 2
  {
    var t1 := if t.hasAddr && t.addrExpirationTime <= w.now then t.(hasAddr := false) else t;
    if IsIdle(t1) then t1
    else if !t1.hasAddr && !t1.isAskingDns then t1.(isAskingDns := true, log := t1.log + [Lookup])
    else if t1.hasAddr && t1.connectionExpirationTime <= w.now && t1.connectingAt == 0 then
      t1.(connectingAt := w.now, connectionTransactionId := w.random, log := t1.log + [ConnectSent(w.random, w.now)])
    else
      var t2 := TimeoutReqs(t1, w);
      if t2.hasAddr && t2.connectionExpirationTime > w.now then SendReqs(t2, w.now) else t2
  }

  /** tau_tracker_on_dns */
  function OnDns(t: State, found: bool, w: World): (r: State)
    requires t.isAskingDns && Steady(t, w.now)
    ensures Steady(r, w.now)
  {
    var t1 := t.(isAskingDns := false);
    if found then Upkeep(t1.(hasAddr := true, addrExpirationTime := w.now + DNS_TTL_SECS), w)
    else FailAll(t1, Failure(false, false))
  }

  // ---------- messages ----------

  function ActionOf(n: nat): Option<Action> {
    match n
    case 0 => Some(Connect)
    case 1 => Some(Announce)
    case 2 => Some(Scrape)
    case 3 => Some(Error)
    case _ => None
  }

  /** is_tau_response_message */
  predicate IsResponse(action: Option<Action>, msglen: nat) {
    match action
    case Some(Connect) => msglen == 16
    case Some(Announce) => msglen >= 20
    case Some(Scrape) => msglen >= 20
    case Some(Error) => msglen >= 8
    case None => false
  }

  predicate IsResponseTo(r: Request, transactionId: nat) {
    r.sentAt != 0 && r.transactionId == transactionId
  }

  /** The first request the message answers; |reqs| if there is none */
  function Match(reqs: seq<Request>, transactionId: nat): (i: nat)
    ensures i <= |reqs| && (i < |reqs| ==> IsResponseTo(reqs[i], transactionId))
    ensures forall k :: 0 <= k < i ==> !IsResponseTo(reqs[k], transactionId)
  {
    if reqs == [] || IsResponseTo(reqs[0], transactionId) then 0
    else
      assert forall k :: 1 <= k < |reqs| ==> reqs[k] == reqs[1..][k - 1];
      1 + Match(reqs[1..], transactionId)
  }

  function Without(reqs: seq<Request>, i: nat): seq<Request>
    requires i < |reqs|
  {
    reqs[..i] + reqs[i + 1..]
  }

  /** on_announce_response and on_scrape_response tell success from failure by the action and the length. */
  function ResultOf(asked: Action, action: Action, body: Bytes): Outcome {
    if action == asked && (action == Announce ==> |body| >= 12) then Answer(body) else Failure(true, false)
  }

  /** The part of tau_handle_message that is about one tracker; None when the message is not for it */
  function OnResponse(t: State, action: Action, transactionId: nat, body: Bytes, w: World): (r: Option<State>)
    requires Steady(t, w.now)
    ensures r.Some? ==> Steady(r.value, w.now)
  {
    if t.connectingAt != 0 && transactionId == t.connectionTransactionId then
      Some(OnConnectionResponse(t, action, BigEndian(body), w))
    else
      var i := Match(t.announces, transactionId);
      if i < |t.announces| then
        Some(t.(announces := Without(t.announces, i), log := t.log + Calls([t.announces[i]], ResultOf(Announce, action, body))))
      else
        var j := Match(t.scrapes, transactionId);
        if j < |t.scrapes| then
          Some(t.(scrapes := Without(t.scrapes, j), log := t.log + Calls([t.scrapes[j]], ResultOf(Scrape, action, body))))
        else None
  }

  /** tau_handle_message on one tracker */
  function OnMessage(t: State, msg: Bytes, w: World): (r: Option<State>)
    requires Steady(t, w.now)
    ensures r.Some? ==> Steady(r.value, w.now)
  {
    if |msg| < 8 then None else
      var action := ActionOf(BigEndian(msg[..4]));
      if !IsResponse(action, |msg|) then None
      else OnResponse(t, action.value, BigEndian(msg[4..8]), msg[8..], w)
  }

  // ---------- runs ----------

  datatype Input =
    | NewAnnounce(id: nat, transactionId: nat, hasCallback: bool)
    | NewScrape(id: nat, transactionId: nat, hasCallback: bool)
    | Dns(found: bool)
    | Message(msg: Bytes)
    | Tick
    | StartShutdown

  function Step(t: State, input: Input, w: World): (r: State)
    requires Steady(t, w.now) && (input.Dns? ==> t.isAskingDns)
    ensures Steady(r, w.now)
  {
    match input
    case NewAnnounce(id, txn, cb) => Upkeep(t.(announces := t.announces + [Request(id, txn, w.now, 0, cb)]), w)
    case NewScrape(id, txn, cb) => Upkeep(t.(scrapes := t.scrapes + [Request(id, txn, w.now, 0, cb)]), w)
    case Dns(found) => OnDns(t, found, w)
    case Message(msg) =>
      var r := OnMessage(t, msg, w);
      if r.Some? then r.value else t
    case Tick => Upkeep(t, w)
    case StartShutdown => Upkeep(t.(closeAt := w.wall + 3), w)
  }
}
