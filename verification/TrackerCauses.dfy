/** Why the tracker client tells what it tells, over every run: each answer is the packet that came for that request, each failure
    has its cause among the inputs, and no request is dropped in silence (announcer-udp.c; BEP 15). */
module TrackerCauses {
  import opened Base
  import opened TrackerModel
  import opened TrackerOutcomes
  import opened TrackerRuns

  // ---------- causes ----------

  /** The input at n submits the request. */
  ghost predicate IsAsked(h: History, n: nat, id: nat, transactionId: nat, hasCallback: bool, scrape: bool) {
    n < |h| && h[n].0 == if scrape then NewScrape(id, transactionId, hasCallback) else NewAnnounce(id, transactionId, hasCallback)
  }

  /** The input at m is a packet of that kind with that transaction id. */
  ghost predicate IsPacket(h: History, m: nat, code: nat, transactionId: nat) {
    m < |h| && h[m].0.Message? && |h[m].0.msg| >= 8 &&
    BigEndian(h[m].0.msg[..4]) == code && BigEndian(h[m].0.msg[4..8]) == transactionId
  }

  function Wanted(scrape: bool): nat {
    if scrape then 2 else 1
  }

  /** The packet at m is the reply of the kind that the owner of id asked for, and body is what it carries. */
  ghost predicate AnsweredAt(h: History, m: nat, id: nat, body: Bytes) {
    exists n: nat, transactionId: nat, scrape: bool :: IsAsked(h, n, id, transactionId, true, scrape) && n < m &&
      IsPacket(h, m, Wanted(scrape), transactionId) && |h[m].0.msg| >= 20 && body == h[m].0.msg[8..]
  }

  /** The packet at m carries the request's transaction id, but is of another kind. */
  ghost predicate RefusedAt(h: History, m: nat, id: nat) {
    exists n: nat, transactionId: nat, scrape: bool, code: nat :: IsAsked(h, n, id, transactionId, true, scrape) && n < m &&
      IsPacket(h, m, code, transactionId) && code != Wanted(scrape)
  }

  /** When the input at m comes, the connect sent at that time with that transaction id is unanswered. */
  ghost predicate IsConnecting(h: History, m: nat, transactionId: nat, at: nat) {
    m < |h| && IsRun(h[..m]) &&
    var t := After(h[..m]); t.connectingAt == at != 0 && t.connectionTransactionId == transactionId
  }

  /** The packet at m carries the transaction id of an unanswered connect, but is no connect reply. */
  ghost predicate ConnectRefusedAt(h: History, m: nat) {
    exists transactionId: nat, at: nat, code: nat :: IsConnecting(h, m, transactionId, at) &&
      IsPacket(h, m, code, transactionId) && code != 0
  }

  /** At m, the connect has been unanswered for more than a minute. */
  ghost predicate ConnectLateAt(h: History, m: nat) {
    exists transactionId: nat, at: nat :: IsConnecting(h, m, transactionId, at) && at + 60 < h[m].1.wall
  }

  /** The request has been submitted by then. */
  ghost predicate AskedBy(h: History, m: nat, id: nat) {
    exists n: nat, transactionId: nat, hasCallback: bool, scrape: bool ::
      IsAsked(h, n, id, transactionId, hasCallback, scrape) && n <= m
  }

  /** At m, the request is more than a minute old. */
  ghost predicate LateAt(h: History, m: nat, id: nat) {
    m < |h| && exists n: nat, transactionId: nat, hasCallback: bool, scrape: bool ::
      IsAsked(h, n, id, transactionId, hasCallback, scrape) && n <= m && h[n].1.now + 60 < h[m].1.wall
  }

  ghost predicate IsShutdown(h: History, n: nat, at: nat) {
    n < |h| && h[n].0.StartShutdown? && h[n].1.wall + 3 == at
  }

  /** At m, the client has been shutting down for three seconds. */
  ghost predicate ClosedAt(h: History, m: nat) {
    m < |h| && exists n: nat, at: nat :: IsShutdown(h, n, at) && n <= m && at <= h[m].1.wall
  }

  /** The input at m is why the owner of id is told the outcome. */
  ghost predicate Caused(h: History, m: nat, id: nat, outcome: Outcome) {
    AskedBy(h, m, id) &&
    match outcome
    case Answer(body) => AnsweredAt(h, m, id, body)
    case Failure(true, false) => RefusedAt(h, m, id) || ConnectRefusedAt(h, m) || ConnectLateAt(h, m)
    case Failure(false, true) => LateAt(h, m, id) || ClosedAt(h, m)
    case Failure(false, false) => m < |h| && h[m].0 == Dns(false)
    case Failure(true, true) => false
  }

  ghost predicate HasCause(h: History, id: nat, outcome: Outcome) {
    exists m: nat :: Caused(h, m, id, outcome)
  }

  /** Whatever an owner was told has its cause. */
  ghost predicate AllCaused(h: History, log: seq<Event>) {
    forall id: nat, outcome: Outcome :: Called(id, outcome) in log ==> HasCause(h, id, outcome)
  }

  // ---------- requests ----------

  /** r was submitted, when it says it was. */
  ghost predicate Stems(h: History, r: Request, scrape: bool) {
    exists n: nat :: IsAsked(h, n, r.id, r.transactionId, r.hasCallback, scrape) && h[n].1.now == r.createdAt
  }

  ghost predicate AllStem(h: History, reqs: seq<Request>, scrape: bool) {
    forall k :: 0 <= k < |reqs| ==> Stems(h, reqs[k], scrape)
  }

  ghost predicate ClosesRightly(h: History, closeAt: nat) {
    closeAt != 0 ==> exists n: nat :: IsShutdown(h, n, closeAt)
  }

  /** What the tracker holds and what it has said stems from its inputs. */
  ghost predicate Grounded(h: History, t: State) {
    AllStem(h, t.announces, false) && AllStem(h, t.scrapes, true) && ClosesRightly(h, t.closeAt) && AllCaused(h, t.log)
  }

  // ---------- what grows ----------

  lemma CauseStays(h: History, x: (Input, World), id: nat, outcome: Outcome)
    requires HasCause(h, id, outcome)
    ensures HasCause(h + [x], id, outcome)
  {
    var m: nat :| Caused(h, m, id, outcome);
    CausedLater(h, x, m, id, outcome);
  }

  lemma CausedLater(h: History, x: (Input, World), m: nat, id: nat, outcome: Outcome)
    requires Caused(h, m, id, outcome)
    ensures Caused(h + [x], m, id, outcome)
  {
    var g := h + [x];
    var n: nat, txn: nat, cb: bool, scrape: bool :| IsAsked(h, n, id, txn, cb, scrape) && n <= m;
    assert IsAsked(g, n, id, txn, cb, scrape);
    assert AskedBy(g, m, id);
    match outcome
    case Answer(body) =>
      var n: nat, txn: nat, scrape: bool :| IsAsked(h, n, id, txn, true, scrape) && n < m &&
        IsPacket(h, m, Wanted(scrape), txn) && |h[m].0.msg| >= 20 && body == h[m].0.msg[8..];
      assert IsAsked(g, n, id, txn, true, scrape) && IsPacket(g, m, Wanted(scrape), txn);
    case Failure(true, false) => FailureCausedLater(h, x, m, id);
    case Failure(false, true) =>
      if LateAt(h, m, id) {
        var n: nat, txn: nat, cb: bool, scrape: bool :| IsAsked(h, n, id, txn, cb, scrape) && n <= m && h[n].1.now + 60 < h[m].1.wall;
        assert IsAsked(g, n, id, txn, cb, scrape);
        assert LateAt(g, m, id);
      } else {
        var n: nat, at: nat :| IsShutdown(h, n, at) && n <= m && at <= h[m].1.wall;
        assert IsShutdown(g, n, at);
        assert ClosedAt(g, m);
      }
    case Failure(false, false) =>
  }

  lemma FailureCausedLater(h: History, x: (Input, World), m: nat, id: nat)
    requires Caused(h, m, id, Failure(true, false))
    ensures var g := h + [x]; RefusedAt(g, m, id) || ConnectRefusedAt(g, m) || ConnectLateAt(g, m)
  {
    var g := h + [x];
    assert m <= |h| ==> g[..m] == h[..m];
    if RefusedAt(h, m, id) {
      var n: nat, txn: nat, scrape: bool, code: nat :| IsAsked(h, n, id, txn, true, scrape) && n < m &&
        IsPacket(h, m, code, txn) && code != Wanted(scrape);
      assert IsAsked(g, n, id, txn, true, scrape) && IsPacket(g, m, code, txn);
    } else if ConnectRefusedAt(h, m) {
      var txn: nat, at: nat, code: nat :| IsConnecting(h, m, txn, at) && IsPacket(h, m, code, txn) && code != 0;
      assert IsConnecting(g, m, txn, at) && IsPacket(g, m, code, txn);
    } else {
      var txn: nat, at: nat :| IsConnecting(h, m, txn, at) && at + 60 < h[m].1.wall;
      assert IsConnecting(g, m, txn, at);
    }
  }

  lemma CausedAppend(h: History, log: seq<Event>, more: seq<Event>)
    requires AllCaused(h, log)
    requires forall id: nat, outcome: Outcome :: Called(id, outcome) in more ==> HasCause(h, id, outcome)
    ensures AllCaused(h, log + more)
  {
  }

  lemma StemsLater(h: History, x: (Input, World), r: Request, scrape: bool)
    requires Stems(h, r, scrape)
    ensures Stems(h + [x], r, scrape)
  {
    var n: nat :| IsAsked(h, n, r.id, r.transactionId, r.hasCallback, scrape) && h[n].1.now == r.createdAt;
    assert IsAsked(h + [x], n, r.id, r.transactionId, r.hasCallback, scrape);
  }

  lemma GroundedLater(h: History, x: (Input, World), t: State)
    requires Grounded(h, t)
    ensures Grounded(h + [x], t)
  {
    forall k | 0 <= k < |t.announces| ensures Stems(h + [x], t.announces[k], false) {
      StemsLater(h, x, t.announces[k], false);
    }
    forall k | 0 <= k < |t.scrapes| ensures Stems(h + [x], t.scrapes[k], true) {
      StemsLater(h, x, t.scrapes[k], true);
    }
    if t.closeAt != 0 {
      var n: nat :| IsShutdown(h, n, t.closeAt);
      assert IsShutdown(h + [x], n, t.closeAt);
    }
    forall id: nat, outcome: Outcome | Called(id, outcome) in t.log ensures HasCause(h + [x], id, outcome) {
      CauseStays(h, x, id, outcome);
    }
  }

  // ---------- queues ----------

  predicate Awaits(reqs: seq<Request>, id: nat) {
    exists k :: 0 <= k < |reqs| && reqs[k].hasCallback && reqs[k].id == id
  }

  lemma {:induction false} CalledAreAwaited(reqs: seq<Request>, outcome: Outcome)
    ensures forall e :: e in Calls(reqs, outcome) ==> e.Called? && e.outcome == outcome && Awaits(reqs, e.id)
  {
    if reqs != [] {
      var n := |reqs| - 1;
      CalledAreAwaited(reqs[..n], outcome);
      forall e | e in Calls(reqs, outcome) ensures e.Called? && e.outcome == outcome && Awaits(reqs, e.id) {
        if e in Calls(reqs[..n], outcome) {
          var k :| 0 <= k < n && reqs[..n][k].hasCallback && reqs[..n][k].id == e.id;
          assert reqs[k].hasCallback && reqs[k].id == e.id;
        } else {
          assert e == Called(reqs[n].id, outcome) && reqs[n].hasCallback;
        }
      }
    }
  }

  lemma {:induction false} SendsCallNobody(reqs: seq<Request>, connectionId: nat, now: nat)
    ensures forall e :: e in Sends(reqs, connectionId, now) ==> e.Sent?
  {
    if reqs != [] {
      SendsCallNobody(reqs[..|reqs| - 1], connectionId, now);
    }
  }

  lemma {:induction false} SendingKeepsStems(h: History, reqs: seq<Request>, scrape: bool, now: nat)
    requires AllStem(h, reqs, scrape)
    ensures AllStem(h, AfterSending(reqs, now), scrape)
  {
    if reqs != [] {
      var n := |reqs| - 1;
      assert AllStem(h, reqs[..n], scrape);
      SendingKeepsStems(h, reqs[..n], scrape, now);
      assert Stems(h, reqs[n], scrape) && Stems(h, reqs[n].(sentAt := now), scrape) by {
        var m: nat :| IsAsked(h, m, reqs[n].id, reqs[n].transactionId, reqs[n].hasCallback, scrape) && h[m].1.now == reqs[n].createdAt;
      }
    }
  }

  /** Timing out takes the late ones and leaves the others. */
  lemma {:induction false} TimeoutPicks(reqs: seq<Request>, cancelAll: bool, wall: nat)
    ensures forall r :: r in StillOpen(reqs, cancelAll, wall) <==> r in reqs && !cancelAll && r.createdAt + 60 >= wall
    ensures forall r :: r in TimedOut(reqs, cancelAll, wall) <==> r in reqs && (cancelAll || r.createdAt + 60 < wall)
  {
    if reqs != [] {
      var n := |reqs| - 1;
      TimeoutPicks(reqs[..n], cancelAll, wall);
      assert forall r :: r in reqs <==> r in reqs[..n] || r == reqs[n];
    }
  }

  // ---------- the steps ----------

  /** h has come to its last input, and w is the world at it. */
  ghost predicate IsNow(h: History, w: World) {
    h != [] && h[|h| - 1].1 == w
  }

  /** The connect that t waits for, if any, was already waited for before the last input. */
  ghost predicate ConnectsAsBefore(h: History, t: State) {
    h != [] && (t.connectingAt != 0 ==> IsConnecting(h, |h| - 1, t.connectionTransactionId, t.connectingAt))
  }

  lemma StemsAreAsked(h: History, r: Request, scrape: bool)
    requires Stems(h, r, scrape)
    ensures AskedBy(h, |h| - 1, r.id)
  {
    var n: nat :| IsAsked(h, n, r.id, r.transactionId, r.hasCallback, scrape) && h[n].1.now == r.createdAt;
    assert n <= |h| - 1;
  }

  lemma CallsHaveCause(h: History, reqs: seq<Request>, scrape: bool, outcome: Outcome)
    requires AllStem(h, reqs, scrape) && h != [] && forall id: nat :: AskedBy(h, |h| - 1, id) ==> HasCause(h, id, outcome)
    ensures forall id: nat, o: Outcome :: Called(id, o) in Calls(reqs, outcome) ==> HasCause(h, id, o)
  {
    CalledAreAwaited(reqs, outcome);
    forall k | 0 <= k < |reqs| ensures HasCause(h, reqs[k].id, outcome) {
      StemsAreAsked(h, reqs[k], scrape);
    }
  }

  lemma GroundedFailAll(h: History, t: State, outcome: Outcome)
    requires h != [] && Grounded(h, t) && forall id: nat :: AskedBy(h, |h| - 1, id) ==> HasCause(h, id, outcome)
    ensures Grounded(h, FailAll(t, outcome))
  {
    CallsHaveCause(h, t.scrapes, true, outcome);
    CallsHaveCause(h, t.announces, false, outcome);
    var more := Calls(t.scrapes, outcome) + Calls(t.announces, outcome);
    CausedAppend(h, t.log, more);
    assert FailAll(t, outcome).log == t.log + more;
  }

  lemma GroundedSendReqs(h: History, t: State, now: nat)
    requires Grounded(h, t) && !t.isAskingDns && t.connectingAt == 0 && t.hasAddr && t.connectionExpirationTime > now
    ensures Grounded(h, SendReqs(t, now))
  {
    SendsCallNobody(t.announces, t.connectionId, now);
    SendsCallNobody(t.scrapes, t.connectionId, now);
    var more := Sends(t.announces, t.connectionId, now) + Sends(t.scrapes, t.connectionId, now);
    CausedAppend(h, t.log, more);
    assert SendReqs(t, now).log == t.log + more;
    SendingKeepsStems(h, t.announces, false, now);
    SendingKeepsStems(h, t.scrapes, true, now);
  }

  /** Events that call nobody need no cause. */
  lemma GroundedEvent(h: History, t: State, t': State, e: Event)
    requires Grounded(h, t) && !e.Called? && t'.log == t.log + [e] && t'.closeAt == t.closeAt
    requires t'.announces == t.announces && t'.scrapes == t.scrapes
    ensures Grounded(h, t')
  {
    CausedAppend(h, t.log, [e]);
  }

  lemma {:induction false} GroundedConnectionResponse(h: History, t: State, action: Action, connectionId: nat, w: World)
    requires t.connectingAt != 0 && Steady(t, w.now) && IsNow(h, w) && Grounded(h, t)
    requires action != Connect ==> forall id: nat :: AskedBy(h, |h| - 1, id) ==> HasCause(h, id, Failure(true, false))
    ensures Grounded(h, OnConnectionResponse(t, action, connectionId, w))
    decreases 1, 0
  {
    var t1 := t.(connectingAt := 0, connectionTransactionId := 0);
    if action == Connect {
      var t2 := t1.(connectionId := connectionId, connectionExpirationTime := w.now + CONNECTION_TTL_SECS,
        log := t1.log + [Granted(connectionId, w.now)]);
      GroundedEvent(h, t, t2, Granted(connectionId, w.now));
      GroundedUpkeep(h, t2, w);
    } else {
      GroundedFailAll(h, t1, Failure(true, false));
      GroundedUpkeep(h, FailAll(t1, Failure(true, false)), w);
    }
  }

  lemma LateHasCause(h: History, r: Request, scrape: bool, cancelAll: bool, closeAt: nat, w: World)
    requires IsNow(h, w) && Stems(h, r, scrape) && ClosesRightly(h, closeAt) && cancelAll == (closeAt != 0 && closeAt <= w.wall)
    requires cancelAll || r.createdAt + 60 < w.wall
    ensures Caused(h, |h| - 1, r.id, Failure(false, true))
  {
    var m := |h| - 1;
    StemsAreAsked(h, r, scrape);
    if cancelAll {
      var n: nat :| IsShutdown(h, n, closeAt);
      assert ClosedAt(h, m);
    } else {
      var n: nat :| IsAsked(h, n, r.id, r.transactionId, r.hasCallback, scrape) && h[n].1.now == r.createdAt;
      assert LateAt(h, m, r.id);
    }
    assert Caused(h, m, r.id, Failure(false, true));
  }

  lemma TimedOutHaveCause(h: History, reqs: seq<Request>, scrape: bool, cancelAll: bool, closeAt: nat, w: World)
    requires IsNow(h, w) && AllStem(h, reqs, scrape) && ClosesRightly(h, closeAt) && cancelAll == (closeAt != 0 && closeAt <= w.wall)
    ensures AllStem(h, StillOpen(reqs, cancelAll, w.wall), scrape)
    ensures forall id: nat, outcome: Outcome ::
      Called(id, outcome) in Calls(TimedOut(reqs, cancelAll, w.wall), Failure(false, true)) ==> HasCause(h, id, outcome)
  {
    TimeoutPicks(reqs, cancelAll, w.wall);
    var late := TimedOut(reqs, cancelAll, w.wall);
    CalledAreAwaited(late, Failure(false, true));
    forall k | 0 <= k < |late| ensures HasCause(h, late[k].id, Failure(false, true)) {
      assert late[k] in late;
      LateHasCause(h, late[k], scrape, cancelAll, closeAt, w);
    }
    var open := StillOpen(reqs, cancelAll, w.wall);
    forall k | 0 <= k < |open| ensures Stems(h, open[k], scrape) {
      assert open[k] in open;
    }
  }

  lemma GroundedTimeouts(h: History, t: State, cancelAll: bool, w: World)
    requires IsNow(h, w) && Grounded(h, t) && cancelAll == (t.closeAt != 0 && t.closeAt <= w.wall)
    ensures var gone := Failure(false, true);
      Grounded(h, t.(announces := StillOpen(t.announces, cancelAll, w.wall), scrapes := StillOpen(t.scrapes, cancelAll, w.wall),
        log := t.log + Calls(TimedOut(t.announces, cancelAll, w.wall), gone) + Calls(TimedOut(t.scrapes, cancelAll, w.wall), gone)))
  {
    var a := Calls(TimedOut(t.announces, cancelAll, w.wall), Failure(false, true));
    var s := Calls(TimedOut(t.scrapes, cancelAll, w.wall), Failure(false, true));
    TimedOutHaveCause(h, t.announces, false, cancelAll, t.closeAt, w);
    TimedOutHaveCause(h, t.scrapes, true, cancelAll, t.closeAt, w);
    CausedAppend(h, t.log, a + s);
    assert t.log + a + s == t.log + (a + s);
  }

  lemma {:induction false} GroundedTimeoutReqs(h: History, t: State, w: World)
    requires Steady(t, w.now) && IsNow(h, w) && Grounded(h, t) && ConnectsAsBefore(h, t)
    ensures Grounded(h, TimeoutReqs(t, w))
    decreases Pending(t), 1
  {
    var t1 := t;
    if t.connectingAt != 0 && t.connectingAt + REQUEST_TTL < w.wall {
      forall id: nat | AskedBy(h, |h| - 1, id) ensures HasCause(h, id, Failure(true, false)) {
        assert ConnectLateAt(h, |h| - 1);
        assert Caused(h, |h| - 1, id, Failure(true, false));
      }
      GroundedConnectionResponse(h, t, Error, 0, w);
      CloseAtStays(t, Error, 0, w);
      t1 := OnConnectionResponse(t, Error, 0, w);
    }
    GroundedTimeouts(h, t1, t.closeAt != 0 && t.closeAt <= w.wall, w);
  }

  lemma CloseAtStays(t: State, action: Action, connectionId: nat, w: World)
    requires t.connectingAt != 0 && Steady(t, w.now) && action != Connect
    ensures OnConnectionResponse(t, action, connectionId, w).closeAt == t.closeAt
  {
    var t1 := FailAll(t.(connectingAt := 0, connectionTransactionId := 0), Failure(true, false));
    assert IsIdle(t1) && Upkeep(t1, w).closeAt == t.closeAt;
  }

  lemma {:induction false} GroundedUpkeep(h: History, t: State, w: World)
    requires Steady(t, w.now) && IsNow(h, w) && Grounded(h, t) && ConnectsAsBefore(h, t)
    ensures Grounded(h, Upkeep(t, w))
    decreases Pending(t), 2
  {
    var t1 := if t.hasAddr && t.addrExpirationTime <= w.now then t.(hasAddr := false) else t;
    if IsIdle(t1) {
    } else if !t1.hasAddr && !t1.isAskingDns {
      GroundedEvent(h, t1, Upkeep(t, w), Lookup);
    } else if t1.hasAddr && t1.connectionExpirationTime <= w.now && t1.connectingAt == 0 {
      GroundedEvent(h, t1, Upkeep(t, w), ConnectSent(w.random, w.now));
    } else {
      GroundedTimeoutReqs(h, t1, w);
      var t2 := TimeoutReqs(t1, w);
      if t2.hasAddr && t2.connectionExpirationTime > w.now {
        GroundedSendReqs(h, t2, w.now);
      }
    }
  }

  /** The answered request leaves its queue, and its owner is told what the packet at the end of h says. */
  lemma AnswerHasCause(h: History, r: Request, scrape: bool, code: nat, body: Bytes)
    requires h != [] && Stems(h, r, scrape) && r.hasCallback && IsPacket(h, |h| - 1, code, r.transactionId)
    requires body == h[|h| - 1].0.msg[8..] && (code == Wanted(scrape) ==> |h[|h| - 1].0.msg| >= 20)
    ensures HasCause(h, r.id, if code == Wanted(scrape) then Answer(body) else Failure(true, false))
  {
    var m := |h| - 1;
    var n: nat :| IsAsked(h, n, r.id, r.transactionId, true, scrape) && h[n].1.now == r.createdAt;
    assert n < m;
    StemsAreAsked(h, r, scrape);
    if code == Wanted(scrape) {
      assert AnsweredAt(h, m, r.id, body);
      assert Caused(h, m, r.id, Answer(body));
    } else {
      assert RefusedAt(h, m, r.id);
      assert Caused(h, m, r.id, Failure(true, false));
    }
  }

  lemma AnswerIsGrounded(h: History, log: seq<Event>, reqs: seq<Request>, i: nat, scrape: bool, code: nat, body: Bytes, outcome: Outcome)
    requires h != [] && AllCaused(h, log) && AllStem(h, reqs, scrape) && i < |reqs|
    requires IsPacket(h, |h| - 1, code, reqs[i].transactionId)
    requires body == h[|h| - 1].0.msg[8..] && (code == Wanted(scrape) ==> |h[|h| - 1].0.msg| >= 20)
    requires outcome == if code == Wanted(scrape) then Answer(body) else Failure(true, false)
    ensures AllCaused(h, log + Calls([reqs[i]], outcome)) && AllStem(h, Without(reqs, i), scrape)
  {
    CallsOfOne(reqs[i], outcome);
    if reqs[i].hasCallback {
      AnswerHasCause(h, reqs[i], scrape, code, body);
    }
    CausedAppend(h, log, Calls([reqs[i]], outcome));
  }

  lemma GroundedResponse(h: History, t: State, action: Action, w: World)
    requires Steady(t, w.now) && IsNow(h, w) && Grounded(h, t) && ConnectsAsBefore(h, t) && h[|h| - 1].0.Message?
    requires var msg := h[|h| - 1].0.msg; |msg| >= 8 && ActionOf(BigEndian(msg[..4])) == Some(action) && IsResponse(Some(action), |msg|)
    ensures var msg := h[|h| - 1].0.msg;
      var r := OnResponse(t, action, BigEndian(msg[4..8]), msg[8..], w); r.Some? ==> Grounded(h, r.value)
  {
    var m, msg := |h| - 1, h[|h| - 1].0.msg;
    var code, txn, body := BigEndian(msg[..4]), BigEndian(msg[4..8]), msg[8..];
    assert IsPacket(h, m, code, txn);
    if t.connectingAt != 0 && txn == t.connectionTransactionId {
      if action != Connect {
        forall id: nat | AskedBy(h, |h| - 1, id) ensures HasCause(h, id, Failure(true, false)) {
          assert ConnectRefusedAt(h, m);
          assert Caused(h, m, id, Failure(true, false));
        }
      }
      GroundedConnectionResponse(h, t, action, BigEndian(body), w);
    } else {
      var i, j := Match(t.announces, txn), Match(t.scrapes, txn);
      if i < |t.announces| {
        AnswerIsGrounded(h, t.log, t.announces, i, false, code, body, ResultOf(Announce, action, body));
      } else if j < |t.scrapes| {
        AnswerIsGrounded(h, t.log, t.scrapes, j, true, code, body, ResultOf(Scrape, action, body));
      }
    }
  }

  lemma GroundedNew(h: History, t: State, w: World)
    requires Steady(t, w.now) && IsNow(h, w) && Grounded(h, t) && ConnectsAsBefore(h, t) && IsNew(h[|h| - 1].0)
    ensures Grounded(h, Step(t, h[|h| - 1].0, w))
  {
    var input := h[|h| - 1].0;
    var r := Request(input.id, input.transactionId, w.now, 0, input.hasCallback);
    assert IsAsked(h, |h| - 1, r.id, r.transactionId, r.hasCallback, input.NewScrape?);
    assert Stems(h, r, input.NewScrape?);
    var t1 := if input.NewAnnounce? then t.(announces := t.announces + [r]) else t.(scrapes := t.scrapes + [r]);
    GroundedUpkeep(h, t1, w);
  }

  lemma GroundedStep(h: History, t: State, w: World)
    requires IsNow(h, w) && Grounded(h, t) && ConnectsAsBefore(h, t) && Steady(t, w.now) && (h[|h| - 1].0.Dns? ==> t.isAskingDns)
    ensures Grounded(h, Step(t, h[|h| - 1].0, w))
  {
    match h[|h| - 1].0
    case NewAnnounce(_, _, _) => GroundedNew(h, t, w);
    case NewScrape(_, _, _) => GroundedNew(h, t, w);
    case Dns(found) =>
      var t1 := t.(isAskingDns := false);
      if found {
        GroundedUpkeep(h, t1.(hasAddr := true, addrExpirationTime := w.now + DNS_TTL_SECS), w);
      } else {
        forall id: nat | AskedBy(h, |h| - 1, id) ensures HasCause(h, id, Failure(false, false)) {
          assert Caused(h, |h| - 1, id, Failure(false, false));
        }
        GroundedFailAll(h, t1, Failure(false, false));
      }
    case Message(msg) =>
      if |msg| >= 8 && IsResponse(ActionOf(BigEndian(msg[..4])), |msg|) {
        GroundedResponse(h, t, ActionOf(BigEndian(msg[..4])).value, w);
      }
    case Tick => GroundedUpkeep(h, t, w);
    case StartShutdown =>
      assert IsShutdown(h, |h| - 1, w.wall + 3);
      GroundedUpkeep(h, t.(closeAt := w.wall + 3), w);
  }

  lemma {:induction false} RunsAreGrounded(h: History)
    requires IsRun(h)
    ensures Grounded(h, After(h))
  {
    if h != [] {
      var before, last := h[..|h| - 1], h[|h| - 1];
      RunsAreGrounded(before);
      assert h == before + [last];
      assert h[..|h| - 1] == before;
      GroundedLater(before, last, After(before));
      GroundedStep(h, After(before), last.1);
    }
  }

  /** Whatever an owner is told in a run has its cause in that run. In particular, an answer is what lies behind the header of a
      packet of the kind that was asked for, which came later and carries the transaction id of the request. */
  lemma ToldWithCause(h: History, id: nat, outcome: Outcome)
    requires IsRun(h) && Called(id, outcome) in After(h).log
    ensures exists m: nat :: Caused(h, m, id, outcome)
  {
    RunsAreGrounded(h);
    assert HasCause(h, id, outcome);
  }
}
