/** What becomes of the requests of the tracker client over its runs: each waits to be sent while a query or a connect is out, has been
    sent, or was given up for a cause (announcer-udp.c; BEP 15). */
module TrackerProgress {
  import opened Base
  import opened TrackerCauses
  import opened TrackerModel
  import opened TrackerRuns

  // ---------- nothing waits for nothing ----------

  predicate AllOut(reqs: seq<Request>) {
    forall k :: 0 <= k < |reqs| ==> reqs[k].sentAt != 0
  }

  /** Where a request has not been sent yet, the name server or the tracker is being asked. */
  predicate InFlight(t: State) {
    (AllOut(t.announces) && AllOut(t.scrapes)) || t.isAskingDns || t.connectingAt != 0
  }

  lemma {:induction false} AllOutAfterSending(reqs: seq<Request>, now: nat)
    requires 0 < now
    ensures AllOut(AfterSending(reqs, now))
  {
    if reqs != [] {
      AllOutAfterSending(reqs[..|reqs| - 1], now);
    }
  }

  lemma OutOfTimeouts(reqs: seq<Request>, cancelAll: bool, wall: nat)
    requires AllOut(reqs)
    ensures AllOut(StillOpen(reqs, cancelAll, wall))
  {
    TimeoutPicks(reqs, cancelAll, wall);
    var open := StillOpen(reqs, cancelAll, wall);
    forall k | 0 <= k < |open| ensures open[k].sentAt != 0 {
      assert open[k] in open;
    }
  }

  lemma UpkeepOfNothing(t: State, w: World)
    requires Steady(t, w.now) && IsIdle(t)
    ensures IsIdle(Upkeep(t, w))
  {
  }

  /** Timing out answers the connect by failing everything, or leaves it out. */
  lemma TimeoutsStayInFlight(t: State, w: World)
    requires Steady(t, w.now) && (t.isAskingDns || t.connectingAt != 0)
    ensures InFlight(TimeoutReqs(t, w))
  {
    if t.connectingAt != 0 && t.connectingAt + REQUEST_TTL < w.wall {
      var t1 := FailAll(t.(connectingAt := 0, connectionTransactionId := 0), Failure(true, false));
      UpkeepOfNothing(t1, w);
      OutOfTimeouts([], t.closeAt != 0 && t.closeAt <= w.wall, w.wall);
    }
  }

  lemma UpkeepIsInFlight(t: State, w: World)
    requires Steady(t, w.now) && 0 < w.now
    ensures InFlight(Upkeep(t, w))
  {
    var t1 := if t.hasAddr && t.addrExpirationTime <= w.now then t.(hasAddr := false) else t;
    if !IsIdle(t1) && !(!t1.hasAddr && !t1.isAskingDns) &&
       !(t1.hasAddr && t1.connectionExpirationTime <= w.now && t1.connectingAt == 0) {
      var t2 := TimeoutReqs(t1, w);
      if t2.hasAddr && t2.connectionExpirationTime > w.now {
        AllOutAfterSending(t2.announces, w.now);
        AllOutAfterSending(t2.scrapes, w.now);
      } else {
        if t1.isAskingDns || t1.connectingAt != 0 {
          TimeoutsStayInFlight(t1, w);
        }
      }
    }
  }

  lemma StepIsInFlight(t: State, input: Input, w: World)
    requires Steady(t, w.now) && (input.Dns? ==> t.isAskingDns) && 0 < w.now && InFlight(t)
    ensures InFlight(Step(t, input, w))
  {
    match input
    case NewAnnounce(id, txn, cb) => UpkeepIsInFlight(t.(announces := t.announces + [Request(id, txn, w.now, 0, cb)]), w);
    case NewScrape(id, txn, cb) => UpkeepIsInFlight(t.(scrapes := t.scrapes + [Request(id, txn, w.now, 0, cb)]), w);
    case Dns(found) =>
      if found {
        UpkeepIsInFlight(t.(isAskingDns := false, hasAddr := true, addrExpirationTime := w.now + DNS_TTL_SECS), w);
      }
    case Message(msg) => MessageIsInFlight(t, msg, w);
    case Tick => UpkeepIsInFlight(t, w);
    case StartShutdown => UpkeepIsInFlight(t.(closeAt := w.wall + 3), w);
  }

  lemma MessageIsInFlight(t: State, msg: Bytes, w: World)
    requires Steady(t, w.now) && 0 < w.now && InFlight(t)
    ensures var r := OnMessage(t, msg, w); r.Some? ==> InFlight(r.value)
  {
    if |msg| >= 8 && IsResponse(ActionOf(BigEndian(msg[..4])), |msg|) {
      var action, txn, body := ActionOf(BigEndian(msg[..4])).value, BigEndian(msg[4..8]), msg[8..];
      if t.connectingAt != 0 && txn == t.connectionTransactionId {
        ResponseIsInFlight(t, action, BigEndian(body), w);
      }
    }
  }

  lemma ResponseIsInFlight(t: State, action: Action, connectionId: nat, w: World)
    requires t.connectingAt != 0 && Steady(t, w.now) && 0 < w.now
    ensures InFlight(OnConnectionResponse(t, action, connectionId, w))
  {
    var t1 := t.(connectingAt := 0, connectionTransactionId := 0);
    if action == Connect {
      UpkeepIsInFlight(t1.(connectionId := connectionId, connectionExpirationTime := w.now + CONNECTION_TTL_SECS,
        log := t1.log + [Granted(connectionId, w.now)]), w);
    } else {
      UpkeepIsInFlight(FailAll(t1, Failure(true, false)), w);
    }
  }

  /** In every run, requests wait to be sent only while an answer of the name server or to a connect is awaited. */
  lemma {:induction false} NothingWaitsForNothing(h: History)
    requires IsRun(h)
    ensures InFlight(After(h))
  {
    if h != [] {
      NothingWaitsForNothing(h[..|h| - 1]);
      StepIsInFlight(After(h[..|h| - 1]), h[|h| - 1].0, h[|h| - 1].1);
    }
  }

  // ---------- no request is dropped in silence ----------

  ghost predicate Waits(reqs: seq<Request>, id: nat) {
    exists k :: 0 <= k < |reqs| && reqs[k].id == id && reqs[k].sentAt == 0
  }

  ghost predicate WasSent(log: seq<Event>, id: nat) {
    exists connectionId: nat, at: nat :: Sent(id, connectionId, at) in log
  }

  /** From n on, something has happened for which the request is given up. */
  ghost predicate GivenUp(h: History, n: nat, id: nat) {
    exists m: nat, outcome: Outcome :: n <= m && outcome.Failure? && Caused(h, m, id, outcome)
  }

  ghost predicate IsFollowed(h: History, t: State, n: nat, id: nat) {
    Waits(t.announces, id) || Waits(t.scrapes, id) || WasSent(t.log, id) || GivenUp(h, n, id)
  }

  /** Each of the requests among the first inputs is followed. */
  ghost predicate Followed(h: History, t: State, bound: nat) {
    forall n: nat, id: nat, transactionId: nat, hasCallback: bool, scrape: bool ::
      IsAsked(h, n, id, transactionId, hasCallback, scrape) && n < bound ==> IsFollowed(h, t, n, id)
  }

  ghost predicate CausedNow(h: History, id: nat, outcome: Outcome) {
    h != [] && (AskedBy(h, |h| - 1, id) ==> Caused(h, |h| - 1, id, outcome))
  }

  lemma CausedNowIsCause(h: History, outcome: Outcome)
    requires h != [] && forall id: nat :: CausedNow(h, id, outcome)
    ensures forall id: nat :: AskedBy(h, |h| - 1, id) ==> HasCause(h, id, outcome)
  {
    forall id: nat | AskedBy(h, |h| - 1, id) ensures HasCause(h, id, outcome) {
      assert CausedNow(h, id, outcome);
    }
  }

  ghost predicate EndsNow(h: History, id: nat) {
    exists outcome: Outcome :: outcome.Failure? && CausedNow(h, id, outcome)
  }

  /** The requests that stop waiting have been sent or have reason to fail. */
  ghost predicate LeavesRightly(h: History, reqs: seq<Request>, after: seq<Request>, log: seq<Event>) {
    h != [] && forall id: nat :: Waits(reqs, id) && AskedBy(h, |h| - 1, id) ==> Waits(after, id) || WasSent(log, id) || EndsNow(h, id)
  }

  lemma FollowedOn(h: History, t: State, t': State, bound: nat)
    requires Followed(h, t, bound) && t.log <= t'.log
    requires LeavesRightly(h, t.announces, t'.announces, t'.log) && LeavesRightly(h, t.scrapes, t'.scrapes, t'.log)
    ensures Followed(h, t', bound)
  {
    forall n: nat, id: nat, txn: nat, cb: bool, scrape: bool | IsAsked(h, n, id, txn, cb, scrape) && n < bound
      ensures IsFollowed(h, t', n, id)
    {
      assert IsFollowed(h, t, n, id);
      assert AskedBy(h, |h| - 1, id);
      if Waits(t.announces, id) || Waits(t.scrapes, id) {
        if EndsNow(h, id) {
          var outcome: Outcome :| outcome.Failure? && CausedNow(h, id, outcome);
          assert Caused(h, |h| - 1, id, outcome);
          assert GivenUp(h, n, id);
        }
      } else if WasSent(t.log, id) {
        var connectionId: nat, at: nat :| Sent(id, connectionId, at) in t.log;
        assert Sent(id, connectionId, at) in t'.log;
      }
    }
  }

  lemma FollowedSame(h: History, t: State, t': State, bound: nat)
    requires h != [] && Followed(h, t, bound) && t.log <= t'.log && t'.announces == t.announces && t'.scrapes == t.scrapes
    ensures Followed(h, t', bound)
  {
    FollowedOn(h, t, t', bound);
  }

  lemma FollowedFailAll(h: History, t: State, outcome: Outcome, bound: nat)
    requires h != [] && Followed(h, t, bound) && outcome.Failure?
    requires forall id: nat :: CausedNow(h, id, outcome)
    ensures Followed(h, FailAll(t, outcome), bound)
  {
    FollowedOn(h, t, FailAll(t, outcome), bound);
  }

  /** Sending sends whatever waits. */
  lemma {:induction false} WaitingAreSent(reqs: seq<Request>, connectionId: nat, now: nat)
    ensures forall k :: 0 <= k < |reqs| && reqs[k].sentAt == 0 ==> Sent(reqs[k].id, connectionId, now) in Sends(reqs, connectionId, now)
  {
    if reqs != [] {
      var n := |reqs| - 1;
      WaitingAreSent(reqs[..n], connectionId, now);
      forall k | 0 <= k < |reqs| && reqs[k].sentAt == 0 ensures Sent(reqs[k].id, connectionId, now) in Sends(reqs, connectionId, now) {
        if k < n {
          assert reqs[..n][k] == reqs[k];
        }
      }
    }
  }

  lemma SendsLeaveRightly(h: History, reqs: seq<Request>, connectionId: nat, now: nat, after: seq<Request>, log: seq<Event>)
    requires h != [] && forall e :: e in Sends(reqs, connectionId, now) ==> e in log
    ensures LeavesRightly(h, reqs, after, log)
  {
    WaitingAreSent(reqs, connectionId, now);
    forall id: nat | Waits(reqs, id) ensures WasSent(log, id) {
      var k :| 0 <= k < |reqs| && reqs[k].id == id && reqs[k].sentAt == 0;
      assert Sent(id, connectionId, now) in log;
    }
  }

  lemma FollowedSendReqs(h: History, t: State, now: nat, bound: nat)
    requires h != [] && Followed(h, t, bound)
    requires !t.isAskingDns && t.connectingAt == 0 && t.hasAddr && t.connectionExpirationTime > now
    ensures Followed(h, SendReqs(t, now), bound)
  {
    var r := SendReqs(t, now);
    SendsLeaveRightly(h, t.announces, t.connectionId, now, r.announces, r.log);
    SendsLeaveRightly(h, t.scrapes, t.connectionId, now, r.scrapes, r.log);
    FollowedOn(h, t, r, bound);
  }

  lemma {:induction false} FollowedConnectionResponse(h: History, t: State, action: Action, connectionId: nat, w: World, bound: nat)
    requires t.connectingAt != 0 && Steady(t, w.now) && IsNow(h, w) && Grounded(h, t) && Followed(h, t, bound)
    requires action != Connect ==> forall id: nat :: CausedNow(h, id, Failure(true, false))
    ensures Followed(h, OnConnectionResponse(t, action, connectionId, w), bound)
    decreases 1, 0
  {
    var t1 := t.(connectingAt := 0, connectionTransactionId := 0);
    if action == Connect {
      var t2 := t1.(connectionId := connectionId, connectionExpirationTime := w.now + CONNECTION_TTL_SECS,
        log := t1.log + [Granted(connectionId, w.now)]);
      FollowedSame(h, t, t2, bound);
      GroundedEvent(h, t, t2, Granted(connectionId, w.now));
      FollowedUpkeep(h, t2, w, bound);
    } else {
      FollowedSame(h, t, t1, bound);
      FollowedFailAll(h, t1, Failure(true, false), bound);
      CausedNowIsCause(h, Failure(true, false));
      GroundedFailAll(h, t1, Failure(true, false));
      FollowedUpkeep(h, FailAll(t1, Failure(true, false)), w, bound);
    }
  }

  lemma TimeoutsLeaveRightly(h: History, reqs: seq<Request>, scrape: bool, cancelAll: bool, closeAt: nat, w: World, log: seq<Event>)
    requires IsNow(h, w) && AllStem(h, reqs, scrape) && ClosesRightly(h, closeAt) && cancelAll == (closeAt != 0 && closeAt <= w.wall)
    ensures LeavesRightly(h, reqs, StillOpen(reqs, cancelAll, w.wall), log)
  {
    TimeoutPicks(reqs, cancelAll, w.wall);
    var open := StillOpen(reqs, cancelAll, w.wall);
    forall id: nat | Waits(reqs, id) ensures Waits(open, id) || EndsNow(h, id) {
      var k :| 0 <= k < |reqs| && reqs[k].id == id && reqs[k].sentAt == 0;
      assert reqs[k] in reqs;
      if cancelAll || reqs[k].createdAt + 60 < w.wall {
        LateHasCause(h, reqs[k], scrape, cancelAll, closeAt, w);
        assert CausedNow(h, id, Failure(false, true));
      } else {
        assert reqs[k] in open;
        var j :| 0 <= j < |open| && open[j] == reqs[k];
      }
    }
  }

  lemma {:induction false} FollowedTimeoutReqs(h: History, t: State, w: World, bound: nat)
    requires Steady(t, w.now) && IsNow(h, w) && Grounded(h, t) && ConnectsAsBefore(h, t) && Followed(h, t, bound)
    ensures Followed(h, TimeoutReqs(t, w), bound)
    decreases Pending(t), 1
  {
    var t1 := t;
    if t.connectingAt != 0 && t.connectingAt + REQUEST_TTL < w.wall {
      forall id: nat ensures CausedNow(h, id, Failure(true, false)) {
        assert ConnectLateAt(h, |h| - 1);
      }
      FollowedConnectionResponse(h, t, Error, 0, w, bound);
      CausedNowIsCause(h, Failure(true, false));
      GroundedConnectionResponse(h, t, Error, 0, w);
      CloseAtStays(t, Error, 0, w);
      t1 := OnConnectionResponse(t, Error, 0, w);
    }
    var cancelAll := t.closeAt != 0 && t.closeAt <= w.wall;
    var r := TimeoutReqs(t, w);
    TimeoutsLeaveRightly(h, t1.announces, false, cancelAll, t.closeAt, w, r.log);
    TimeoutsLeaveRightly(h, t1.scrapes, true, cancelAll, t.closeAt, w, r.log);
    FollowedOn(h, t1, r, bound);
  }

  lemma {:induction false} FollowedUpkeep(h: History, t: State, w: World, bound: nat)
    requires Steady(t, w.now) && IsNow(h, w) && Grounded(h, t) && ConnectsAsBefore(h, t) && Followed(h, t, bound)
    ensures Followed(h, Upkeep(t, w), bound)
    decreases Pending(t), 2
  {
    var t1 := if t.hasAddr && t.addrExpirationTime <= w.now then t.(hasAddr := false) else t;
    FollowedSame(h, t, t1, bound);
    if IsIdle(t1) {
    } else if !t1.hasAddr && !t1.isAskingDns {
      FollowedSame(h, t1, Upkeep(t, w), bound);
    } else if t1.hasAddr && t1.connectionExpirationTime <= w.now && t1.connectingAt == 0 {
      FollowedSame(h, t1, Upkeep(t, w), bound);
    } else {
      FollowedTimeoutReqs(h, t1, w, bound);
      var t2 := TimeoutReqs(t1, w);
      if t2.hasAddr && t2.connectionExpirationTime > w.now {
        FollowedSendReqs(h, t2, w.now, bound);
      }
    }
  }

  /** What is answered has been sent, so it does not wait. */
  lemma AnswerLeavesRightly(h: History, reqs: seq<Request>, i: nat, log: seq<Event>)
    requires h != [] && i < |reqs| && reqs[i].sentAt != 0
    ensures LeavesRightly(h, reqs, Without(reqs, i), log)
  {
    var after := Without(reqs, i);
    forall id: nat | Waits(reqs, id) ensures Waits(after, id) {
      var k :| 0 <= k < |reqs| && reqs[k].id == id && reqs[k].sentAt == 0;
      assert after[if k < i then k else k - 1] == reqs[k];
    }
  }

  lemma FollowedResponse(h: History, t: State, action: Action, w: World, bound: nat)
    requires Steady(t, w.now) && IsNow(h, w) && Grounded(h, t) && ConnectsAsBefore(h, t) && h[|h| - 1].0.Message?
    requires var msg := h[|h| - 1].0.msg; |msg| >= 8 && ActionOf(BigEndian(msg[..4])) == Some(action) && IsResponse(Some(action), |msg|)
    requires Followed(h, t, bound)
    ensures var msg := h[|h| - 1].0.msg;
      var r := OnResponse(t, action, BigEndian(msg[4..8]), msg[8..], w); r.Some? ==> Followed(h, r.value, bound)
  {
    var m, msg := |h| - 1, h[|h| - 1].0.msg;
    var code, txn, body := BigEndian(msg[..4]), BigEndian(msg[4..8]), msg[8..];
    if t.connectingAt != 0 && txn == t.connectionTransactionId {
      assert IsPacket(h, m, code, txn);
      forall id: nat | action != Connect ensures CausedNow(h, id, Failure(true, false)) {
        assert ConnectRefusedAt(h, m);
      }
      FollowedConnectionResponse(h, t, action, BigEndian(body), w, bound);
    } else {
      var i, j := Match(t.announces, txn), Match(t.scrapes, txn);
      var r := OnResponse(t, action, txn, body, w);
      if i < |t.announces| {
        AnswerLeavesRightly(h, t.announces, i, r.value.log);
        FollowedOn(h, t, r.value, bound);
      } else if j < |t.scrapes| {
        AnswerLeavesRightly(h, t.scrapes, j, r.value.log);
        FollowedOn(h, t, r.value, bound);
      }
    }
  }

  lemma FollowedNew(h: History, t: State, w: World)
    requires Steady(t, w.now) && IsNow(h, w) && Grounded(h, t) && ConnectsAsBefore(h, t) && IsNew(h[|h| - 1].0)
    requires Followed(h, t, |h| - 1)
    ensures Followed(h, Step(t, h[|h| - 1].0, w), |h|)
  {
    var input := h[|h| - 1].0;
    var r := Request(input.id, input.transactionId, w.now, 0, input.hasCallback);
    var t1 := if input.NewAnnounce? then t.(announces := t.announces + [r]) else t.(scrapes := t.scrapes + [r]);
    PushLeavesRightly(h, t.announces, r, t.log);
    PushLeavesRightly(h, t.scrapes, r, t.log);
    FollowedOn(h, t, t1, |h| - 1);
    assert Followed(h, t1, |h|);
    assert IsAsked(h, |h| - 1, r.id, r.transactionId, r.hasCallback, input.NewScrape?);
    assert Stems(h, r, input.NewScrape?);
    FollowedUpkeep(h, t1, w, |h|);
  }

  lemma PushLeavesRightly(h: History, reqs: seq<Request>, r: Request, log: seq<Event>)
    requires h != [] && r.sentAt == 0
    ensures LeavesRightly(h, reqs, reqs, log) && LeavesRightly(h, reqs, reqs + [r], log) && Waits(reqs + [r], r.id)
  {
    assert (reqs + [r])[|reqs|] == r;
    forall id: nat | Waits(reqs, id) ensures Waits(reqs + [r], id) {
      var k :| 0 <= k < |reqs| && reqs[k].id == id && reqs[k].sentAt == 0;
      assert (reqs + [r])[k] == reqs[k];
    }
  }

  lemma FollowedStep(h: History, t: State, w: World)
    requires IsNow(h, w) && Grounded(h, t) && ConnectsAsBefore(h, t) && Steady(t, w.now) && (h[|h| - 1].0.Dns? ==> t.isAskingDns)
    requires Followed(h, t, |h| - 1)
    ensures Followed(h, Step(t, h[|h| - 1].0, w), |h|)
  {
    if IsNew(h[|h| - 1].0) {
      FollowedNew(h, t, w);
    } else {
      assert Followed(h, t, |h|);
      match h[|h| - 1].0
      case Dns(found) =>
        var t1 := t.(isAskingDns := false);
        FollowedSame(h, t, t1, |h|);
        if found {
          var t2 := t1.(hasAddr := true, addrExpirationTime := w.now + DNS_TTL_SECS);
          FollowedSame(h, t1, t2, |h|);
          FollowedUpkeep(h, t2, w, |h|);
        } else {
          assert forall id: nat :: CausedNow(h, id, Failure(false, false));
          FollowedFailAll(h, t1, Failure(false, false), |h|);
        }
      case Message(msg) =>
        if |msg| >= 8 && IsResponse(ActionOf(BigEndian(msg[..4])), |msg|) {
          FollowedResponse(h, t, ActionOf(BigEndian(msg[..4])).value, w, |h|);
        }
      case Tick => FollowedUpkeep(h, t, w, |h|);
      case StartShutdown =>
        var t1 := t.(closeAt := w.wall + 3);
        assert IsShutdown(h, |h| - 1, w.wall + 3);
        FollowedSame(h, t, t1, |h|);
        FollowedUpkeep(h, t1, w, |h|);
    }
  }

  lemma FollowedLater(h: History, x: (Input, World), t: State)
    requires Followed(h, t, |h|)
    ensures Followed(h + [x], t, |h|)
  {
    var g := h + [x];
    forall n: nat, id: nat, txn: nat, cb: bool, scrape: bool | IsAsked(g, n, id, txn, cb, scrape) && n < |h|
      ensures IsFollowed(g, t, n, id)
    {
      assert IsAsked(h, n, id, txn, cb, scrape);
      if GivenUp(h, n, id) {
        var m: nat, outcome: Outcome :| n <= m && outcome.Failure? && Caused(h, m, id, outcome);
        CausedLater(h, x, m, id, outcome);
        assert GivenUp(g, n, id);
      }
    }
  }

  lemma {:induction false} RunsAreFollowed(h: History)
    requires IsRun(h)
    ensures Followed(h, After(h), |h|)
  {
    if h != [] {
      var before, last := h[..|h| - 1], h[|h| - 1];
      RunsAreFollowed(before);
      RunsAreGrounded(before);
      assert h == before + [last];
      FollowedLater(before, last, After(before));
      GroundedLater(before, last, After(before));
      FollowedStep(h, After(before), last.1);
    }
  }

  /** In every run, each request still waits for its turn, has been sent, or was given up for a cause that came after it. */
  lemma NoneIsDropped(h: History, n: nat, id: nat, transactionId: nat, hasCallback: bool, scrape: bool)
    requires IsRun(h) && IsAsked(h, n, id, transactionId, hasCallback, scrape)
    ensures var t := After(h);
      Waits(t.announces, id) || Waits(t.scrapes, id) || WasSent(t.log, id) || GivenUp(h, n, id)
  {
    RunsAreFollowed(h);
    assert IsFollowed(h, After(h), n, id);
  }
}
