/** The UDP tracker client as it is written, with its queues edited in place, refines the state machine
    (announcer-udp.c). */
module Trackers {
  import opened Base
  import opened TrackerModel
  import TrackerOutcomes

  // ---------- queues ----------

  /** Calls back the owners of a whole queue. */
  method FailQueue(reqs: seq<Request>, outcome: Outcome, log: seq<Event>) returns (r: seq<Event>)
    ensures r == log + Calls(reqs, outcome)
  {
    r := log;
    var i: nat := 0;
    while i < |reqs|
      invariant i <= |reqs| && r == log + Calls(reqs[..i], outcome)
    {
      assert reqs[..i + 1][..i] == reqs[..i];
      if reqs[i].hasCallback {
        r := r + [Called(reqs[i].id, outcome)];
      }
      i := i + 1;
    }
    assert reqs[..i] == reqs;
  }

  /** reqs, of which the first k requests have been gone through; i of them are left */
  ghost predicate Sending(all: seq<Request>, k: nat, reqs: seq<Request>, i: nat, now: nat) {
    k <= |all| && i <= |reqs| && reqs[..i] == AfterSending(all[..k], now) && reqs[i..] == all[k..]
  }

  lemma SendingStep(all: seq<Request>, k: nat, reqs: seq<Request>, i: nat, now: nat)
    requires Sending(all, k, reqs, i, now) && i < |reqs|
    ensures k < |all| && reqs[i] == all[k] && all[..k + 1][..k] == all[..k]
  {
    assert reqs[i] == reqs[i..][0];
    assert all[..k + 1][..k] == all[..k];
  }

  lemma SendingKept(all: seq<Request>, k: nat, reqs: seq<Request>, i: nat, now: nat, r: Request)
    requires Sending(all, k, reqs, i, now) && i < |reqs| && k < |all|
    requires AfterSending(all[..k + 1], now) == AfterSending(all[..k], now) + [r]
    ensures Sending(all, k + 1, reqs[i := r], i + 1, now)
  {
    assert reqs[i := r][..i + 1] == reqs[..i] + [r];
    assert reqs[i := r][i + 1..] == reqs[i..][1..];
    assert all[k + 1..] == all[k..][1..];
  }

  lemma SendingGone(all: seq<Request>, k: nat, reqs: seq<Request>, i: nat, now: nat)
    requires Sending(all, k, reqs, i, now) && i < |reqs| && k < |all|
    requires AfterSending(all[..k + 1], now) == AfterSending(all[..k], now)
    ensures Sending(all, k + 1, Without(reqs, i), i, now)
  {
    assert Without(reqs, i)[..i] == reqs[..i];
    assert Without(reqs, i)[i..] == reqs[i..][1..];
    assert all[k + 1..] == all[k..][1..];
  }

  /** The loop of tau_tracker_send_reqs over one of the queues */
  method SendQueue(all: seq<Request>, connectionId: nat, now: nat, log: seq<Event>)
    returns (reqs: seq<Request>, r: seq<Event>)
    ensures reqs == AfterSending(all, now) && r == log + Sends(all, connectionId, now)
  {
    reqs, r := all, log;
    var i: nat := 0;
    ghost var k: nat := 0;
    while i < |reqs|
      invariant Sending(all, k, reqs, i, now) && r == log + Sends(all[..k], connectionId, now)
      decreases |reqs| - i
    {
      SendingStep(all, k, reqs, i, now);
      var req := reqs[i];
      if req.sentAt == 0 {
        r := r + [Sent(req.id, connectionId, now)];
        if req.hasCallback {
          SendingKept(all, k, reqs, i, now, req.(sentAt := now));
          reqs := reqs[i := req.(sentAt := now)];
          i := i + 1;
        } else {
          SendingGone(all, k, reqs, i, now);
          reqs := Without(reqs, i);
        }
      } else {
        SendingKept(all, k, reqs, i, now, req);
        i := i + 1;
      }
      k := k + 1;
    }
    assert all[..k] == all && reqs[..i] == reqs;
  }

  ghost predicate Expiring(all: seq<Request>, k: nat, reqs: seq<Request>, i: nat, cancelAll: bool, wall: nat) {
    k <= |all| && i <= |reqs| && reqs[..i] == StillOpen(all[..k], cancelAll, wall) && reqs[i..] == all[k..]
  }

  lemma ExpiringStep(all: seq<Request>, k: nat, reqs: seq<Request>, i: nat, cancelAll: bool, wall: nat)
    requires Expiring(all, k, reqs, i, cancelAll, wall) && i < |reqs|
    ensures k < |all| && reqs[i] == all[k]
    ensures IsOver(all[k], cancelAll, wall) ==> Expiring(all, k + 1, Without(reqs, i), i, cancelAll, wall)
    ensures !IsOver(all[k], cancelAll, wall) ==> Expiring(all, k + 1, reqs, i + 1, cancelAll, wall)
  {
    assert reqs[i] == reqs[i..][0];
    assert all[..k + 1][..k] == all[..k];
    assert Without(reqs, i)[..i] == reqs[..i] && Without(reqs, i)[i..] == reqs[i..][1..];
    assert reqs[..i + 1] == reqs[..i] + [reqs[i]] && reqs[i + 1..] == reqs[i..][1..];
    assert all[k + 1..] == all[k..][1..];
  }

  lemma TimedOutStep(all: seq<Request>, k: nat, cancelAll: bool, wall: nat, gone: Outcome)
    requires k < |all|
    ensures var before := Calls(TimedOut(all[..k], cancelAll, wall), gone);
      Calls(TimedOut(all[..k + 1], cancelAll, wall), gone) ==
      if IsOver(all[k], cancelAll, wall) && all[k].hasCallback then before + [Called(all[k].id, gone)] else before
  {
    assert all[..k + 1][..k] == all[..k];
    var before := TimedOut(all[..k], cancelAll, wall);
    assert (before + [all[k]])[..|before|] == before;
  }

  /** The loop of tau_tracker_timeout_reqs over one of the queues */
  method TimeoutQueue(all: seq<Request>, cancelAll: bool, wall: nat, log: seq<Event>)
    returns (reqs: seq<Request>, r: seq<Event>)
    ensures reqs == StillOpen(all, cancelAll, wall)
    ensures r == log + Calls(TimedOut(all, cancelAll, wall), Failure(false, true))
  {
    var gone := Failure(false, true);
    reqs, r := all, log;
    var i: nat := 0;
    ghost var k: nat := 0;
    while i < |reqs|
      invariant Expiring(all, k, reqs, i, cancelAll, wall)
      invariant r == log + Calls(TimedOut(all[..k], cancelAll, wall), gone)
      decreases |reqs| - i
    {
      ExpiringStep(all, k, reqs, i, cancelAll, wall);
      TimedOutStep(all, k, cancelAll, wall, gone);
      var req := reqs[i];
      if cancelAll || req.createdAt + REQUEST_TTL < wall {
        if req.hasCallback {
          r := r + [Called(req.id, gone)];
        }
        reqs := Without(reqs, i);
      } else {
        i := i + 1;
      }
      k := k + 1;
    }
    assert all[..k] == all && reqs[..i] == reqs;
  }

  /** The loops of tau_handle_message look for the first request with the transaction id. */
  method FindRequest(reqs: seq<Request>, transactionId: nat) returns (j: nat)
    ensures j == Match(reqs, transactionId)
  {
    j := 0;
    while j < |reqs|
      invariant j <= |reqs| && forall k :: 0 <= k < j ==> !IsResponseTo(reqs[k], transactionId)
    {
      if reqs[j].sentAt != 0 && reqs[j].transactionId == transactionId {
        return;
      }
      j := j + 1;
    }
  }

  // ---------- the tracker ----------

  class Tracker {
    var isAskingDns: bool
    var hasAddr: bool
    var addrExpirationTime: nat
    var connectingAt: nat
    var connectionExpirationTime: nat
    var connectionId: nat
    var connectionTransactionId: nat
    var closeAt: nat
    var announces: seq<Request>
    var scrapes: seq<Request>
    // the queries, packets and callbacks so far
    var log: seq<Event>

    ghost function View(): State
      reads this
    {
      State(isAskingDns, hasAddr, addrExpirationTime, connectingAt, connectionExpirationTime, connectionId,
            connectionTransactionId, closeAt, announces, scrapes, log)
    }

    constructor ()
      ensures View() == START
    {
      isAskingDns, hasAddr, addrExpirationTime := false, false, 0;
      connectingAt, connectionExpirationTime, connectionId, connectionTransactionId := 0, 0, 0, 0;
      closeAt, announces, scrapes, log := 0, [], [], [];
    }

    method FailAll(outcome: Outcome)
      modifies this
      ensures View() == TrackerModel.FailAll(old(View()), outcome)
    {
      log := FailQueue(scrapes, outcome, log);
      scrapes := [];
      log := FailQueue(announces, outcome, log);
      announces := [];
    }

    method SendReqs(now: nat)
      requires !isAskingDns && connectingAt == 0 && hasAddr && connectionExpirationTime > now
      modifies this
      ensures View() == TrackerModel.SendReqs(old(View()), now)
    {
      announces, log := SendQueue(announces, connectionId, now, log);
      scrapes, log := SendQueue(scrapes, connectionId, now, log);
    }

    method OnConnectionResponse(action: Action, id: nat, w: World)
      requires connectingAt != 0 && Steady(View(), w.now)
      modifies this
      ensures View() == TrackerModel.OnConnectionResponse(old(View()), action, id, w)
      decreases 1, 0
    {
      connectingAt := 0;
      connectionTransactionId := 0;
      if action == Connect {
        connectionId := id;
        connectionExpirationTime := w.now + CONNECTION_TTL_SECS;
        log := log + [Granted(id, w.now)];
      } else {
        FailAll(Failure(true, false));
      }
      Upkeep(w);
    }

    method TimeoutReqs(w: World)
      requires Steady(View(), w.now)
      modifies this
      ensures View() == TrackerModel.TimeoutReqs(old(View()), w)
      decreases Pending(View()), 1
    {
      var cancelAll := closeAt != 0 && closeAt <= w.wall;
      if connectingAt != 0 && connectingAt + REQUEST_TTL < w.wall {
        OnConnectionResponse(Error, 0, w);
      }
      announces, log := TimeoutQueue(announces, cancelAll, w.wall, log);
      scrapes, log := TimeoutQueue(scrapes, cancelAll, w.wall, log);
    }

    method Upkeep(w: World)
      requires Steady(View(), w.now)
      modifies this
      ensures View() == TrackerModel.Upkeep(old(View()), w)
      decreases Pending(View()), 2
    {
      if hasAddr && addrExpirationTime <= w.now {
        hasAddr := false;
      }
      if announces == [] && scrapes == [] {
        return;
      }
      if !hasAddr && !isAskingDns {
        isAskingDns := true;
        log := log + [Lookup];
        return;
      }
      if hasAddr && connectionExpirationTime <= w.now && connectingAt == 0 {
        connectingAt := w.now;
        connectionTransactionId := w.random;
        log := log + [ConnectSent(w.random, w.now)];
        return;
      }
      TimeoutReqs(w);
      if hasAddr && connectionExpirationTime > w.now {
        SendReqs(w.now);
      }
    }

    method OnDns(found: bool, w: World)
      requires isAskingDns && Steady(View(), w.now)
      modifies this
      ensures View() == TrackerModel.OnDns(old(View()), found, w)
    {
      isAskingDns := false;
      if found {
        hasAddr := true;
        addrExpirationTime := w.now + DNS_TTL_SECS;
        Upkeep(w);
      } else {
        FailAll(Failure(false, false));
      }
    }

    /** tau_handle_message; messages that are not for this tracker leave it as it was */
    method HandleMessage(msg: Bytes, w: World) returns (handled: bool)
      requires Steady(View(), w.now)
      modifies this
      ensures var r := OnMessage(old(View()), msg, w); handled == r.Some? && View() == if handled then r.value else old(View())
      ensures TrackerOutcomes.IsHandled(old(View()), msg, w.now, handled, View())
    {
      TrackerOutcomes.MessageIsHandled(View(), msg, w);
      if |msg| < 8 {
        return false;
      }
      var action := ActionOf(BigEndian(msg[..4]));
      if !IsResponse(action, |msg|) {
        return false;
      }
      handled := HandleResponse(action.value, BigEndian(msg[4..8]), msg[8..], w);
    }

    method HandleResponse(action: Action, transactionId: nat, body: Bytes, w: World) returns (handled: bool)
      requires Steady(View(), w.now)
      modifies this
      ensures var r := OnResponse(old(View()), action, transactionId, body, w);
        handled == r.Some? && View() == if handled then r.value else old(View())
    {
      if connectingAt != 0 && transactionId == connectionTransactionId {
        OnConnectionResponse(action, BigEndian(body), w);
        return true;
      }
      var i := FindRequest(announces, transactionId);
      if i < |announces| {
        var req := announces[i];
        announces := Without(announces, i);
        log := FailQueue([req], ResultOf(Announce, action, body), log);
        return true;
      }
      var j := FindRequest(scrapes, transactionId);
      if j < |scrapes| {
        var req := scrapes[j];
        scrapes := Without(scrapes, j);
        log := FailQueue([req], ResultOf(Scrape, action, body), log);
        return true;
      }
      return false;
    }

    /** tr_tracker_udp_announce and tr_tracker_udp_scrape */
    method Submit(id: nat, transactionId: nat, hasCallback: bool, scrape: bool, w: World)
      requires Steady(View(), w.now)
      modifies this
      ensures View() == Step(old(View()),
        if scrape then NewScrape(id, transactionId, hasCallback) else NewAnnounce(id, transactionId, hasCallback), w)
    {
      var req := Request(id, transactionId, w.now, 0, hasCallback);
      if scrape {
        scrapes := scrapes + [req];
      } else {
        announces := announces + [req];
      }
      Upkeep(w);
    }

    method StartShutdown(w: World)
      requires Steady(View(), w.now)
      modifies this
      ensures View() == Step(old(View()), Input.StartShutdown, w)
    {
      closeAt := w.wall + 3;
      Upkeep(w);
    }
  }
}
