/** What holds over every run of the tracker client: every request is sent at most once and answered at
    most once, nothing is forgotten, and connection ids are used only while they are valid. */
module TrackerRuns {
  import opened Base
  import opened TrackerModel

  // ---------- accounting ----------

  /** The requests of a queue whose owners are still waiting */
  function Owed(reqs: seq<Request>): multiset<nat> {
    if reqs == [] then multiset{} else
      var before, r := Owed(reqs[..|reqs| - 1]), reqs[|reqs| - 1];
      if r.hasCallback then before + multiset{r.id} else before
  }

  function Unsent(reqs: seq<Request>): multiset<nat> {
    if reqs == [] then multiset{} else
      var before, r := Unsent(reqs[..|reqs| - 1]), reqs[|reqs| - 1];
      if r.sentAt == 0 then before + multiset{r.id} else before
  }

  function CalledIds(log: seq<Event>): multiset<nat> {
    if log == [] then multiset{} else
      var before, e := CalledIds(log[..|log| - 1]), log[|log| - 1];
      if e.Called? then before + multiset{e.id} else before
  }

  function SentIds(log: seq<Event>): multiset<nat> {
    if log == [] then multiset{} else
      var before, e := SentIds(log[..|log| - 1]), log[|log| - 1];
      if e.Sent? then before + multiset{e.id} else before
  }

  /** Who waits has been called or is still in a queue, each as often as in waiting; what was sent and what
      is still to be sent was submitted. */
  ghost predicate Accounted(t: State, waiting: multiset<nat>, submitted: multiset<nat>) {
    CalledIds(t.log) + Owed(t.announces) + Owed(t.scrapes) == waiting &&
    SentIds(t.log) + Unsent(t.announces) + Unsent(t.scrapes) <= submitted
  }

  lemma LogPush(log: seq<Event>, e: Event)
    ensures CalledIds(log + [e]) == if e.Called? then CalledIds(log) + multiset{e.id} else CalledIds(log)
    ensures SentIds(log + [e]) == if e.Sent? then SentIds(log) + multiset{e.id} else SentIds(log)
  {
    assert (log + [e])[..|log|] == log;
  }

  lemma QueuePush(reqs: seq<Request>, r: Request)
    ensures Owed(reqs + [r]) == if r.hasCallback then Owed(reqs) + multiset{r.id} else Owed(reqs)
    ensures Unsent(reqs + [r]) == if r.sentAt == 0 then Unsent(reqs) + multiset{r.id} else Unsent(reqs)
  {
    assert (reqs + [r])[..|reqs|] == reqs;
  }

  lemma {:induction false} IdsOfLog(a: seq<Event>, b: seq<Event>)
    ensures CalledIds(a + b) == CalledIds(a) + CalledIds(b)
    ensures SentIds(a + b) == SentIds(a) + SentIds(b)
  {
    if b == [] {
      assert a + b == a;
    } else {
      var before, e := b[..|b| - 1], b[|b| - 1];
      assert a + b == (a + before) + [e] && b == before + [e];
      IdsOfLog(a, before);
      LogPush(a + before, e);
    }
  }

  lemma {:induction false} IdsOfCalls(reqs: seq<Request>, outcome: Outcome)
    ensures CalledIds(Calls(reqs, outcome)) == Owed(reqs)
    ensures SentIds(Calls(reqs, outcome)) == multiset{}
  {
    if reqs != [] {
      var before, r := reqs[..|reqs| - 1], reqs[|reqs| - 1];
      IdsOfCalls(before, outcome);
      LogPush(Calls(before, outcome), Called(r.id, outcome));
    }
  }

  lemma {:induction false} IdsOfSends(reqs: seq<Request>, connectionId: nat, now: nat)
    ensures SentIds(Sends(reqs, connectionId, now)) == Unsent(reqs)
    ensures CalledIds(Sends(reqs, connectionId, now)) == multiset{}
  {
    if reqs != [] {
      var before, r := reqs[..|reqs| - 1], reqs[|reqs| - 1];
      IdsOfSends(before, connectionId, now);
      LogPush(Sends(before, connectionId, now), Sent(r.id, connectionId, now));
    }
  }

  lemma {:induction false} IdsAfterSending(reqs: seq<Request>, now: nat)
    requires 0 < now
    ensures Owed(AfterSending(reqs, now)) == Owed(reqs) && Unsent(AfterSending(reqs, now)) == multiset{}
  {
    if reqs != [] {
      var before, r := reqs[..|reqs| - 1], reqs[|reqs| - 1];
      IdsAfterSending(before, now);
      QueuePush(AfterSending(before, now), if r.sentAt == 0 then r.(sentAt := now) else r);
    }
  }

  lemma {:induction false} OwedAfterTimeout(reqs: seq<Request>, cancelAll: bool, wall: nat)
    ensures Owed(StillOpen(reqs, cancelAll, wall)) + Owed(TimedOut(reqs, cancelAll, wall)) == Owed(reqs)
  {
    if reqs != [] {
      var before, r := reqs[..|reqs| - 1], reqs[|reqs| - 1];
      OwedAfterTimeout(before, cancelAll, wall);
      if IsOver(r, cancelAll, wall) {
        QueuePush(TimedOut(before, cancelAll, wall), r);
      } else {
        QueuePush(StillOpen(before, cancelAll, wall), r);
      }
    }
  }

  lemma {:induction false} UnsentAfterTimeout(reqs: seq<Request>, cancelAll: bool, wall: nat)
    ensures Unsent(StillOpen(reqs, cancelAll, wall)) <= Unsent(reqs)
  {
    if reqs != [] {
      var before, r := reqs[..|reqs| - 1], reqs[|reqs| - 1];
      UnsentAfterTimeout(before, cancelAll, wall);
      QueuePush(StillOpen(before, cancelAll, wall), r);
    }
  }

  lemma WithoutPush(reqs: seq<Request>, i: nat)
    requires i + 1 < |reqs|
    ensures Without(reqs, i) == Without(reqs[..|reqs| - 1], i) + [reqs[|reqs| - 1]]
  {
  }

  lemma {:induction false} OwedWithout(reqs: seq<Request>, i: nat)
    requires i < |reqs|
    ensures Owed(Without(reqs, i)) + Owed([reqs[i]]) == Owed(reqs)
  {
    var n := |reqs| - 1;
    QueuePush([], reqs[i]);
    if i == n {
      assert Without(reqs, i) == reqs[..n] && [] + [reqs[i]] == [reqs[i]];
    } else {
      OwedWithout(reqs[..n], i);
      WithoutPush(reqs, i);
      QueuePush(Without(reqs[..n], i), reqs[n]);
    }
  }

  lemma {:induction false} UnsentWithout(reqs: seq<Request>, i: nat)
    requires i < |reqs|
    ensures Unsent(Without(reqs, i)) <= Unsent(reqs)
  {
    var n := |reqs| - 1;
    if i == n {
      assert Without(reqs, i) == reqs[..n];
    } else {
      UnsentWithout(reqs[..n], i);
      WithoutPush(reqs, i);
      QueuePush(Without(reqs[..n], i), reqs[n]);
    }
  }

  lemma AccountsOfFailAll(t: State, outcome: Outcome, waiting: multiset<nat>, submitted: multiset<nat>)
    requires Accounted(t, waiting, submitted)
    ensures Accounted(FailAll(t, outcome), waiting, submitted)
  {
    IdsOfLog(t.log + Calls(t.scrapes, outcome), Calls(t.announces, outcome));
    IdsOfLog(t.log, Calls(t.scrapes, outcome));
    IdsOfCalls(t.scrapes, outcome);
    IdsOfCalls(t.announces, outcome);
  }

  lemma AccountsOfSendReqs(t: State, now: nat, waiting: multiset<nat>, submitted: multiset<nat>)
    requires Accounted(t, waiting, submitted) && 0 < now
    requires !t.isAskingDns && t.connectingAt == 0 && t.hasAddr && t.connectionExpirationTime > now
    ensures Accounted(SendReqs(t, now), waiting, submitted)
  {
    var a, s := Sends(t.announces, t.connectionId, now), Sends(t.scrapes, t.connectionId, now);
    IdsOfLog(t.log + a, s);
    IdsOfLog(t.log, a);
    IdsOfSends(t.announces, t.connectionId, now);
    IdsOfSends(t.scrapes, t.connectionId, now);
    IdsAfterSending(t.announces, now);
    IdsAfterSending(t.scrapes, now);
  }

  lemma AccountsOfOther(t: State, t': State, e: Event, waiting: multiset<nat>, submitted: multiset<nat>)
    requires Accounted(t, waiting, submitted) && t'.log == t.log + [e] && !e.Called? && !e.Sent?
    requires t'.announces == t.announces && t'.scrapes == t.scrapes
    ensures Accounted(t', waiting, submitted)
  {
    LogPush(t.log, e);
  }

  lemma {:induction false} AccountsOfConnectionResponse(t: State, action: Action, connectionId: nat, w: World,
                                                        waiting: multiset<nat>, submitted: multiset<nat>)
    requires t.connectingAt != 0 && Steady(t, w.now) && Accounted(t, waiting, submitted) && 0 < w.now
    ensures Accounted(OnConnectionResponse(t, action, connectionId, w), waiting, submitted)
    decreases 1, 0
  {
    var t1 := t.(connectingAt := 0, connectionTransactionId := 0);
    if action == Connect {
      var t2 := t1.(connectionId := connectionId, connectionExpirationTime := w.now + CONNECTION_TTL_SECS,
        log := t1.log + [Granted(connectionId, w.now)]);
      AccountsOfOther(t1, t2, Granted(connectionId, w.now), waiting, submitted);
      AccountsOfUpkeep(t2, w, waiting, submitted);
    } else {
      AccountsOfFailAll(t1, Failure(true, false), waiting, submitted);
      AccountsOfUpkeep(FailAll(t1, Failure(true, false)), w, waiting, submitted);
    }
  }

  lemma {:induction false} AccountsOfTimeoutReqs(t: State, w: World, waiting: multiset<nat>, submitted: multiset<nat>)
    requires Steady(t, w.now) && Accounted(t, waiting, submitted) && 0 < w.now
    ensures Accounted(TimeoutReqs(t, w), waiting, submitted)
    decreases Pending(t), 1
  {
    var t1 := t;
    if t.connectingAt != 0 && t.connectingAt + REQUEST_TTL < w.wall {
      AccountsOfConnectionResponse(t, Error, 0, w, waiting, submitted);
      t1 := OnConnectionResponse(t, Error, 0, w);
    }
    var cancelAll := t.closeAt != 0 && t.closeAt <= w.wall;
    AccountsOfTimeouts(t1, cancelAll, w.wall, waiting, submitted);
  }

  lemma AccountsOfTimeouts(t: State, cancelAll: bool, wall: nat, waiting: multiset<nat>, submitted: multiset<nat>)
    requires Accounted(t, waiting, submitted)
    ensures var gone := Failure(false, true);
      Accounted(t.(announces := StillOpen(t.announces, cancelAll, wall), scrapes := StillOpen(t.scrapes, cancelAll, wall),
        log := t.log + Calls(TimedOut(t.announces, cancelAll, wall), gone) + Calls(TimedOut(t.scrapes, cancelAll, wall), gone)),
        waiting, submitted)
  {
    var gone := Failure(false, true);
    var a, s := TimedOut(t.announces, cancelAll, wall), TimedOut(t.scrapes, cancelAll, wall);
    IdsOfLog(t.log + Calls(a, gone), Calls(s, gone));
    IdsOfLog(t.log, Calls(a, gone));
    IdsOfCalls(a, gone);
    IdsOfCalls(s, gone);
    OwedAfterTimeout(t.announces, cancelAll, wall);
    OwedAfterTimeout(t.scrapes, cancelAll, wall);
    UnsentAfterTimeout(t.announces, cancelAll, wall);
    UnsentAfterTimeout(t.scrapes, cancelAll, wall);
  }

  lemma {:induction false} AccountsOfUpkeep(t: State, w: World, waiting: multiset<nat>, submitted: multiset<nat>)
    requires Steady(t, w.now) && Accounted(t, waiting, submitted) && 0 < w.now
    ensures Accounted(Upkeep(t, w), waiting, submitted)
    decreases Pending(t), 2
  {
    var t1 := if t.hasAddr && t.addrExpirationTime <= w.now then t.(hasAddr := false) else t;
    if IsIdle(t1) {
    } else if !t1.hasAddr && !t1.isAskingDns {
      AccountsOfOther(t1, Upkeep(t, w), Lookup, waiting, submitted);
    } else if t1.hasAddr && t1.connectionExpirationTime <= w.now && t1.connectingAt == 0 {
      AccountsOfOther(t1, Upkeep(t, w), ConnectSent(w.random, w.now), waiting, submitted);
    } else {
      AccountsOfTimeoutReqs(t1, w, waiting, submitted);
      var t2 := TimeoutReqs(t1, w);
      if t2.hasAddr && t2.connectionExpirationTime > w.now {
        AccountsOfSendReqs(t2, w.now, waiting, submitted);
      }
    }
  }

  lemma AccountsOfMessage(t: State, msg: Bytes, w: World, waiting: multiset<nat>, submitted: multiset<nat>)
    requires Steady(t, w.now) && Accounted(t, waiting, submitted) && 0 < w.now
    ensures var r := OnMessage(t, msg, w); r.Some? ==> Accounted(r.value, waiting, submitted)
  {
    if |msg| >= 8 && IsResponse(ActionOf(BigEndian(msg[..4])), |msg|) {
      var action, txn, body := ActionOf(BigEndian(msg[..4])).value, BigEndian(msg[4..8]), msg[8..];
      if t.connectingAt != 0 && txn == t.connectionTransactionId {
        AccountsOfConnectionResponse(t, action, BigEndian(body), w, waiting, submitted);
      } else {
        AccountsOfAnswer(t, action, txn, body, w, waiting, submitted);
      }
    }
  }

  lemma AccountsOfAnswer(t: State, action: Action, txn: nat, body: Bytes, w: World,
                         waiting: multiset<nat>, submitted: multiset<nat>)
    requires Steady(t, w.now) && Accounted(t, waiting, submitted)
    requires !(t.connectingAt != 0 && txn == t.connectionTransactionId)
    ensures var r := OnResponse(t, action, txn, body, w); r.Some? ==> Accounted(r.value, waiting, submitted)
  {
    var i, j := Match(t.announces, txn), Match(t.scrapes, txn);
    if i < |t.announces| {
      AnswerAccounted(t.log, t.announces, i, ResultOf(Announce, action, body));
    } else if j < |t.scrapes| {
      AnswerAccounted(t.log, t.scrapes, j, ResultOf(Scrape, action, body));
      var r := OnResponse(t, action, txn, body, w).value;
      Reorder(CalledIds(t.log), Owed(t.announces), Owed(t.scrapes));
      Reorder(CalledIds(r.log), Owed(r.announces), Owed(r.scrapes));
    }
  }

  lemma Reorder(a: multiset<nat>, b: multiset<nat>, c: multiset<nat>)
    ensures a + b + c == a + c + b
  {
  }

  lemma AnswerAccounted(log: seq<Event>, reqs: seq<Request>, i: nat, outcome: Outcome)
    requires i < |reqs|
    ensures CalledIds(log + Calls([reqs[i]], outcome)) + Owed(Without(reqs, i)) == CalledIds(log) + Owed(reqs)
    ensures SentIds(log + Calls([reqs[i]], outcome)) == SentIds(log)
    ensures Unsent(Without(reqs, i)) <= Unsent(reqs)
  {
    OwedWithout(reqs, i);
    UnsentWithout(reqs, i);
    IdsOfCalls([reqs[i]], outcome);
    IdsOfLog(log, Calls([reqs[i]], outcome));
  }

  predicate IsNew(input: Input) {
    input.NewAnnounce? || input.NewScrape?
  }

  lemma OneMore(a: multiset<nat>, b: multiset<nat>, c: multiset<nat>, d: multiset<nat>, n: multiset<nat>)
    ensures a + b + c == d ==> a + (b + n) + c == d + n && a + b + (c + n) == d + n
    ensures a + b + c <= d ==> a + (b + n) + c <= d + n && a + b + (c + n) <= d + n
  {
  }

  lemma AccountsOfNew(t: State, r: Request, waiting: multiset<nat>, submitted: multiset<nat>)
    requires Accounted(t, waiting, submitted) && r.sentAt == 0
    ensures var owed := if r.hasCallback then multiset{r.id} else multiset{};
      Accounted(t.(announces := t.announces + [r]), waiting + owed, submitted + multiset{r.id}) &&
      Accounted(t.(scrapes := t.scrapes + [r]), waiting + owed, submitted + multiset{r.id})
  {
    var owed: multiset<nat> := if r.hasCallback then multiset{r.id} else multiset{};
    QueuePush(t.announces, r);
    QueuePush(t.scrapes, r);
    OneMore(CalledIds(t.log), Owed(t.announces), Owed(t.scrapes), waiting, owed);
    OneMore(SentIds(t.log), Unsent(t.announces), Unsent(t.scrapes), submitted, multiset{r.id});
  }

  lemma AccountsOfNewStep(t: State, input: Input, w: World, waiting: multiset<nat>, submitted: multiset<nat>)
    requires Steady(t, w.now) && IsNew(input) && Accounted(t, waiting, submitted) && 0 < w.now
    ensures Accounted(Step(t, input, w), waiting + NewlyOwed(input), submitted + NewlySubmitted(input))
  {
    var r := Request(input.id, input.transactionId, w.now, 0, input.hasCallback);
    AccountsOfNew(t, r, waiting, submitted);
    var t1 := if input.NewAnnounce? then t.(announces := t.announces + [r]) else t.(scrapes := t.scrapes + [r]);
    AccountsOfUpkeep(t1, w, waiting + NewlyOwed(input), submitted + NewlySubmitted(input));
  }

  lemma AccountsOfOtherStep(t: State, input: Input, w: World, waiting: multiset<nat>, submitted: multiset<nat>)
    requires Steady(t, w.now) && !IsNew(input) && (input.Dns? ==> t.isAskingDns)
    requires Accounted(t, waiting, submitted) && 0 < w.now
    ensures Accounted(Step(t, input, w), waiting, submitted)
  {
    match input
    case Dns(found) =>
      var t1 := t.(isAskingDns := false);
      if found {
        AccountsOfUpkeep(t1.(hasAddr := true, addrExpirationTime := w.now + DNS_TTL_SECS), w, waiting, submitted);
      } else {
        AccountsOfFailAll(t1, Failure(false, false), waiting, submitted);
      }
    case Message(msg) => AccountsOfMessage(t, msg, w, waiting, submitted);
    case Tick => AccountsOfUpkeep(t, w, waiting, submitted);
    case StartShutdown => AccountsOfUpkeep(t.(closeAt := w.wall + 3), w, waiting, submitted);
  }

  /** The accounts after an input: a new request is owed its answer, if anybody waits for it. */
  lemma AccountsOfStep(t: State, input: Input, w: World, waiting: multiset<nat>, submitted: multiset<nat>)
    requires Steady(t, w.now) && (input.Dns? ==> t.isAskingDns) && Accounted(t, waiting, submitted) && 0 < w.now
    ensures Accounted(Step(t, input, w), waiting + NewlyOwed(input), submitted + NewlySubmitted(input))
  {
    if IsNew(input) {
      AccountsOfNewStep(t, input, w, waiting, submitted);
    } else {
      AccountsOfOtherStep(t, input, w, waiting, submitted);
      assert waiting + NewlyOwed(input) == waiting && submitted + NewlySubmitted(input) == submitted;
    }
  }

  function NewlyOwed(input: Input): multiset<nat> {
    if IsNew(input) && input.hasCallback then multiset{input.id} else multiset{}
  }

  function NewlySubmitted(input: Input): multiset<nat> {
    if IsNew(input) then multiset{input.id} else multiset{}
  }

  // ---------- runs ----------

  /** Inputs with what the world looked like at each of them; the newest is last */
  type History = seq<(Input, World)>

  /** DNS answers only a query; the cached clock does not go backwards. */
  ghost predicate IsRun(h: History)
    decreases |h|, 0
  {
    h == [] || (
      var before, last := h[..|h| - 1], h[|h| - 1];
      IsRun(before) && 0 < last.1.now && Clock(before) <= last.1.now && (last.0.Dns? ==> After(before).isAskingDns))
  }

  ghost function Clock(h: History): nat {
    if h == [] then 0 else h[|h| - 1].1.now
  }

  ghost function After(h: History): (t: State)
    requires IsRun(h)
    ensures forall now :: Clock(h) <= now ==> Steady(t, now)
    decreases |h|, 1
  {
    if h == [] then START else Step(After(h[..|h| - 1]), h[|h| - 1].0, h[|h| - 1].1)
  }

  function WaitingIn(h: History): multiset<nat> {
    if h == [] then multiset{} else WaitingIn(h[..|h| - 1]) + NewlyOwed(h[|h| - 1].0)
  }

  function SubmittedIn(h: History): multiset<nat> {
    if h == [] then multiset{} else SubmittedIn(h[..|h| - 1]) + NewlySubmitted(h[|h| - 1].0)
  }

  lemma {:induction false} RunsAreAccounted(h: History)
    requires IsRun(h)
    ensures Accounted(After(h), WaitingIn(h), SubmittedIn(h))
  {
    if h != [] {
      var before, last := h[..|h| - 1], h[|h| - 1];
      RunsAreAccounted(before);
      AccountsOfStep(After(before), last.0, last.1, WaitingIn(before), SubmittedIn(before));
    }
  }

  /** A request that was submitted once is sent at most once and answered at most once; its owner has been
      answered exactly once, as soon as it is in no queue any more. */
  lemma OncePerRequest(h: History, id: nat)
    requires IsRun(h) && SubmittedIn(h)[id] == 1
    ensures var t := After(h);
      SentIds(t.log)[id] <= 1 && CalledIds(t.log)[id] <= 1 &&
      (WaitingIn(h)[id] == 1 && Owed(t.announces)[id] == 0 && Owed(t.scrapes)[id] == 0 ==> CalledIds(t.log)[id] == 1) &&
      (CalledIds(t.log)[id] == 1 ==> WaitingIn(h)[id] == 1 && Owed(t.announces)[id] == 0 && Owed(t.scrapes)[id] == 0)
  {
    RunsAreAccounted(h);
    WaitingAreSubmitted(h);
  }

  lemma {:induction false} WaitingAreSubmitted(h: History)
    ensures WaitingIn(h) <= SubmittedIn(h)
  {
    if h != [] {
      WaitingAreSubmitted(h[..|h| - 1]);
    }
  }
}
