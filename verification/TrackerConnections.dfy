/** Connection ids over a run of the tracker client: requests carry the id that was granted last, within
    its lifetime, and a new one is asked for only when that is over (announcer-udp.c; BEP 15). */
module TrackerConnections {
  import opened Base
  import opened TrackerModel
  import opened TrackerRuns

  /** The connection id received last, and when */
  function LastGrant(log: seq<Event>): Option<(nat, nat)> {
    if log == [] then None
    else
      var e := log[|log| - 1];
      if e.Granted? then Some((e.connectionId, e.at)) else LastGrant(log[..|log| - 1])
  }

  predicate Fits(e: Event, grant: Option<(nat, nat)>) {
    match e
    case Sent(_, connectionId, at) => grant.Some? && connectionId == grant.value.0 && at < grant.value.1 + CONNECTION_TTL_SECS
    case ConnectSent(_, at) => grant.Some? ==> grant.value.1 + CONNECTION_TTL_SECS <= at
    case _ => true
  }

  predicate Proper(log: seq<Event>) {
    log == [] || (Proper(log[..|log| - 1]) && Fits(log[|log| - 1], LastGrant(log[..|log| - 1])))
  }

  predicate Live(t: State) {
    Proper(t.log) &&
    match LastGrant(t.log)
    case None => t.connectionExpirationTime == 0
    case Some(grant) => t.connectionId == grant.0 && t.connectionExpirationTime == grant.1 + CONNECTION_TTL_SECS
  }

  predicate AllFit(events: seq<Event>, grant: Option<(nat, nat)>) {
    forall k :: 0 <= k < |events| ==> !events[k].Granted? && Fits(events[k], grant)
  }

  lemma {:induction false} ProperAppend(log: seq<Event>, more: seq<Event>)
    requires Proper(log) && AllFit(more, LastGrant(log))
    ensures Proper(log + more) && LastGrant(log + more) == LastGrant(log)
  {
    if more == [] {
      assert log + more == log;
    } else {
      var n := |more| - 1;
      ProperAppend(log, more[..n]);
      assert (log + more)[..|log| + n] == log + more[..n];
      assert (log + more)[|log| + n] == more[n];
    }
  }

  lemma {:induction false} CallsFit(reqs: seq<Request>, outcome: Outcome, grant: Option<(nat, nat)>)
    ensures AllFit(Calls(reqs, outcome), grant)
  {
    if reqs != [] {
      CallsFit(reqs[..|reqs| - 1], outcome, grant);
    }
  }

  lemma {:induction false} SendsFit(reqs: seq<Request>, connectionId: nat, now: nat, grant: Option<(nat, nat)>)
    requires grant.Some? && grant.value.0 == connectionId && now < grant.value.1 + CONNECTION_TTL_SECS
    ensures AllFit(Sends(reqs, connectionId, now), grant)
  {
    if reqs != [] {
      SendsFit(reqs[..|reqs| - 1], connectionId, now, grant);
    }
  }

  /** Appending events that fit keeps a tracker live, whatever happens to its queues. */
  lemma LiveAfter(t: State, t': State, more: seq<Event>)
    requires Live(t) && t'.log == t.log + more && AllFit(more, LastGrant(t.log))
    requires t'.connectionId == t.connectionId && t'.connectionExpirationTime == t.connectionExpirationTime
    ensures Live(t') && LastGrant(t'.log) == LastGrant(t.log)
  {
    ProperAppend(t.log, more);
  }

  /** Two stretches of events, as the two queues produce them */
  lemma LiveAfterTwo(t: State, t': State, a: seq<Event>, b: seq<Event>)
    requires Live(t) && t'.log == t.log + a + b && AllFit(a, LastGrant(t.log)) && AllFit(b, LastGrant(t.log))
    requires t'.connectionId == t.connectionId && t'.connectionExpirationTime == t.connectionExpirationTime
    ensures Live(t')
  {
    ProperAppend(t.log, a);
    ProperAppend(t.log + a, b);
  }

  lemma LiveFailAll(t: State, outcome: Outcome)
    requires Live(t)
    ensures Live(FailAll(t, outcome))
  {
    CallsFit(t.scrapes, outcome, LastGrant(t.log));
    CallsFit(t.announces, outcome, LastGrant(t.log));
    LiveAfterTwo(t, FailAll(t, outcome), Calls(t.scrapes, outcome), Calls(t.announces, outcome));
  }

  lemma LiveSendReqs(t: State, now: nat)
    requires Live(t) && !t.isAskingDns && t.connectingAt == 0 && t.hasAddr && t.connectionExpirationTime > now
    ensures Live(SendReqs(t, now))
  {
    SendsFit(t.announces, t.connectionId, now, LastGrant(t.log));
    SendsFit(t.scrapes, t.connectionId, now, LastGrant(t.log));
    LiveAfterTwo(t, SendReqs(t, now), Sends(t.announces, t.connectionId, now), Sends(t.scrapes, t.connectionId, now));
  }

  lemma LiveGrant(t: State, t': State, connectionId: nat, now: nat)
    requires Live(t) && t'.log == t.log + [Granted(connectionId, now)]
    requires t'.connectionId == connectionId && t'.connectionExpirationTime == now + CONNECTION_TTL_SECS
    ensures Live(t')
  {
    assert t'.log[..|t'.log| - 1] == t.log;
  }

  lemma {:induction false} LiveConnectionResponse(t: State, action: Action, connectionId: nat, w: World)
    requires t.connectingAt != 0 && Steady(t, w.now) && Live(t)
    ensures Live(OnConnectionResponse(t, action, connectionId, w))
    decreases 1, 0
  {
    var t1 := t.(connectingAt := 0, connectionTransactionId := 0);
    if action == Connect {
      var t2 := t1.(connectionId := connectionId, connectionExpirationTime := w.now + CONNECTION_TTL_SECS,
        log := t1.log + [Granted(connectionId, w.now)]);
      LiveGrant(t1, t2, connectionId, w.now);
      LiveUpkeep(t2, w);
    } else {
      LiveFailAll(t1, Failure(true, false));
      LiveUpkeep(FailAll(t1, Failure(true, false)), w);
    }
  }

  lemma {:induction false} LiveTimeoutReqs(t: State, w: World)
    requires Steady(t, w.now) && Live(t)
    ensures Live(TimeoutReqs(t, w))
    decreases Pending(t), 1
  {
    var t1 := t;
    if t.connectingAt != 0 && t.connectingAt + REQUEST_TTL < w.wall {
      LiveConnectionResponse(t, Error, 0, w);
      t1 := OnConnectionResponse(t, Error, 0, w);
    }
    var cancelAll := t.closeAt != 0 && t.closeAt <= w.wall;
    var a, s := TimedOut(t1.announces, cancelAll, w.wall), TimedOut(t1.scrapes, cancelAll, w.wall);
    var gone := Failure(false, true);
    CallsFit(a, gone, LastGrant(t1.log));
    CallsFit(s, gone, LastGrant(t1.log));
    LiveAfterTwo(t1, TimeoutReqs(t, w), Calls(a, gone), Calls(s, gone));
  }

  lemma {:induction false} LiveUpkeep(t: State, w: World)
    requires Steady(t, w.now) && Live(t)
    ensures Live(Upkeep(t, w))
    decreases Pending(t), 2
  {
    var t1 := if t.hasAddr && t.addrExpirationTime <= w.now then t.(hasAddr := false) else t;
    if IsIdle(t1) {
    } else if !t1.hasAddr && !t1.isAskingDns {
      LiveAfter(t1, Upkeep(t, w), [Lookup]);
    } else if t1.hasAddr && t1.connectionExpirationTime <= w.now && t1.connectingAt == 0 {
      LiveAfter(t1, Upkeep(t, w), [ConnectSent(w.random, w.now)]);
    } else {
      LiveTimeoutReqs(t1, w);
      var t2 := TimeoutReqs(t1, w);
      if t2.hasAddr && t2.connectionExpirationTime > w.now {
        LiveSendReqs(t2, w.now);
      }
    }
  }

  lemma LiveMessage(t: State, msg: Bytes, w: World)
    requires Steady(t, w.now) && Live(t)
    ensures var r := OnMessage(t, msg, w); r.Some? ==> Live(r.value)
  {
    if |msg| >= 8 && IsResponse(ActionOf(BigEndian(msg[..4])), |msg|) {
      var action, txn, body := ActionOf(BigEndian(msg[..4])).value, BigEndian(msg[4..8]), msg[8..];
      var i, j := Match(t.announces, txn), Match(t.scrapes, txn);
      if t.connectingAt != 0 && txn == t.connectionTransactionId {
        LiveConnectionResponse(t, action, BigEndian(body), w);
      } else if i < |t.announces| {
        CallsFit([t.announces[i]], ResultOf(Announce, action, body), LastGrant(t.log));
        LiveAfter(t, OnMessage(t, msg, w).value, Calls([t.announces[i]], ResultOf(Announce, action, body)));
      } else if j < |t.scrapes| {
        CallsFit([t.scrapes[j]], ResultOf(Scrape, action, body), LastGrant(t.log));
        LiveAfter(t, OnMessage(t, msg, w).value, Calls([t.scrapes[j]], ResultOf(Scrape, action, body)));
      }
    }
  }

  lemma LiveStep(t: State, input: Input, w: World)
    requires Steady(t, w.now) && (input.Dns? ==> t.isAskingDns) && Live(t)
    ensures Live(Step(t, input, w))
  {
    match input
    case NewAnnounce(id, txn, cb) => LiveUpkeep(t.(announces := t.announces + [Request(id, txn, w.now, 0, cb)]), w);
    case NewScrape(id, txn, cb) => LiveUpkeep(t.(scrapes := t.scrapes + [Request(id, txn, w.now, 0, cb)]), w);
    case Dns(found) =>
      var t1 := t.(isAskingDns := false);
      if found {
        LiveUpkeep(t1.(hasAddr := true, addrExpirationTime := w.now + DNS_TTL_SECS), w);
      } else {
        LiveFailAll(t1, Failure(false, false));
      }
    case Message(msg) => LiveMessage(t, msg, w);
    case Tick => LiveUpkeep(t, w);
    case StartShutdown => LiveUpkeep(t.(closeAt := w.wall + 3), w);
  }

  lemma {:induction false} RunsAreLive(h: History)
    requires IsRun(h)
    ensures Live(After(h))
  {
    if h != [] {
      RunsAreLive(h[..|h| - 1]);
      LiveStep(After(h[..|h| - 1]), h[|h| - 1].0, h[|h| - 1].1);
    }
  }

  lemma {:induction false} ProperAt(log: seq<Event>, k: nat)
    requires Proper(log) && k < |log|
    ensures Fits(log[k], LastGrant(log[..k]))
  {
    var before := log[..|log| - 1];
    if k < |log| - 1 {
      ProperAt(before, k);
      assert before[..k] == log[..k];
    }
  }

  /** In every run, a request goes out with the connection id received last, less than a minute after it was
      received; a connect goes out only once that minute is over. */
  lemma EverySendIsLive(h: History, k: nat)
    requires IsRun(h) && k < |After(h).log|
    ensures Fits(After(h).log[k], LastGrant(After(h).log[..k]))
  {
    RunsAreLive(h);
    ProperAt(After(h).log, k);
  }
}
