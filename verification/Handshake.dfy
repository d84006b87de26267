/** The handshake as it is written, its fields updated by one read function after the other (handshake.c). */
module Handshakes {
  import opened HandshakeModel

  class Handshake {
    const isIncoming: bool
    const mode: Mode
    var stage: Stage
    var encryption: nat
    var select: nat
    var provide: nat
    var sentHandshake: bool
    var done: seq<bool>
    ghost var events: seq<Event>  // what has happened so far

    /** The fields are what the run of the events so far has led to. */
    ghost predicate Valid()
      reads this
    {
      View() == After(isIncoming, mode, events)
    }

    ghost function View(): State
      reads this
    {
      State(stage, encryption, isIncoming, mode, select, provide, sentHandshake, done)
    }

    constructor (isIncoming: bool, mode: Mode)
      ensures Valid() && events == [] && done == []
      ensures this.isIncoming == isIncoming && this.mode == mode
    {
      this.isIncoming, this.mode := isIncoming, mode;
      encryption, select, provide, done := PEER_ENCRYPTION_NONE, 0, 0, [];
      stage := if isIncoming || mode == ClearPreferred then AwaitingHandshake else AwaitingYb;
      sentHandshake := !isIncoming && mode == ClearPreferred;
      events := [];
    }

    method Finish(ok: bool, n: Net) returns (ret: Ret)
      modifies this`done
      ensures (View(), ret) == Done(old(View()), ok, n)
    {
      done := done + [ok];
      ret := if n.success then ReadLater else ReadErr;
    }

    method ReadYb(n: Net) returns (ret: Ret)
      modifies this
      ensures events == old(events) && (View(), ret) == HandshakeModel.ReadYb(old(View()), n)
    {
      encryption := if n.plain then PEER_ENCRYPTION_NONE else PEER_ENCRYPTION_RC4;
      if n.plain {
        stage := AwaitingHandshake;
        return ReadNow;
      }
      encryption := PEER_ENCRYPTION_RC4;
      sentHandshake := true;
      stage := AwaitingVc;
      ret := ReadLater;
    }

    method ReadCryptoSelect(n: Net) returns (ret: Ret)
      modifies this
      ensures events == old(events) && (View(), ret) == HandshakeModel.ReadCryptoSelect(old(View()), n)
    {
      select := n.flags;
      if !Overlap(select, GetCryptoProvide(mode)) || n.pad > 512 {
        ret := Finish(false, n);
      } else {
        stage := AwaitingPadD;
        ret := ReadNow;
      }
    }

    method ReadHandshake(n: Net) returns (ret: Ret)
      modifies this
      ensures events == old(events) && (View(), ret) == HandshakeModel.ReadHandshake(old(View()), n)
    {
      if n.plain {
        encryption := PEER_ENCRYPTION_NONE;
        if mode == EncryptionRequired {
          ret := Finish(false, n);
          return;
        }
      } else {
        encryption := PEER_ENCRYPTION_RC4;
        if isIncoming {
          stage := AwaitingYa;
          return ReadNow;
        }
        if !n.decrypted {
          ret := Finish(false, n);
          return;
        }
      }
      if !n.good {
        ret := Finish(false, n);
        return;
      }
      if !sentHandshake {
        sentHandshake := true;
      }
      stage := AwaitingPeerId;
      ret := ReadNow;
    }

    method ReadIa(n: Net) returns (ret: Ret)
      modifies this
      ensures events == old(events) && (View(), ret) == HandshakeModel.ReadIa(old(View()), n)
    {
      var cryptoSelect := GetCryptoSelect(mode, provide);
      if cryptoSelect == 0 {
        ret := Finish(false, n);
        return;
      }
      if cryptoSelect == CRYPTO_PROVIDE_PLAINTEXT {
        encryption := PEER_ENCRYPTION_NONE;
      }
      sentHandshake := true;
      stage := AwaitingPayloadStream;
      ret := ReadNow;
    }

    /** The switch in canRead */
    method ReadStage(n: Net) returns (ret: Ret)
      modifies this
      ensures events == old(events) && (View(), ret) == Read(old(View()), n)
    {
      ret := ReadLater;
      if !n.enough {
        return;
      }
      match stage {
        case AwaitingHandshake => ret := ReadHandshake(n);
        case AwaitingPeerId => ret := Finish(n.good, n);
        case AwaitingYa => stage, ret := AwaitingPadA, ReadNow;
        case AwaitingPadA => if n.found { stage, ret := AwaitingCryptoProvide, ReadNow; }
        case AwaitingCryptoProvide =>
          if n.good {
            provide, stage, ret := n.flags, AwaitingPadC, ReadNow;
          } else {
            ret := Finish(false, n);
          }
        case AwaitingPadC => stage, ret := AwaitingIa, ReadNow;
        case AwaitingIa => ret := ReadIa(n);
        case AwaitingPayloadStream => ret := Finish(n.good, n);
        case AwaitingYb => ret := ReadYb(n);
        case AwaitingVc => if n.found { stage, ret := AwaitingCryptoSelect, ReadNow; }
        case AwaitingCryptoSelect => ret := ReadCryptoSelect(n);
        case AwaitingPadD => encryption, stage, ret := select, AwaitingHandshake, ReadNow;
      }
    }

    /** canRead, whatever the network brings: it comes to an end, because every round is further on.  Each round is one
        more step of the run, and none comes after the callback. */
    method CanRead() returns (ret: Ret)
      requires Valid() && done == []
      modifies this
      ensures Valid() && Goes(old(events), old(View())) && (ret == ReadNow ==> done == [])
      ensures forall k :: |old(events)| <= k < |events| ==> events[k].Readable?
      ensures Promised()
    {
      var readyForMore := true;
      ret := ReadLater;
      while readyForMore
        invariant Valid() && Goes(old(events), old(View()))
        invariant forall k :: |old(events)| <= k < |events| ==> events[k].Readable?
        invariant readyForMore || ret == ReadNow ==> done == []
        decreases readyForMore, 12 - Rank(View())
      {
        var n: Net := *;
        ReadAdvances(View(), n);
        ret := OneMore(n);
        if ret != ReadNow {
          readyForMore := false;
        } else if stage == AwaitingPadC || stage == AwaitingPadD || stage == AwaitingIa {
          readyForMore := n.more;
        }
      }
      Keeps();
    }

    /** A round of canRead */
    method OneMore(n: Net) returns (ret: Ret)
      requires Valid() && done == []
      modifies this
      ensures Valid() && events == old(events) + [Readable(n)] && (View(), ret) == Read(old(View()), n)
    {
      AfterNext(isIncoming, mode, events, Readable(n));
      ret := ReadStage(n);
      events := events + [Readable(n)];
    }

    method GotError(utp: bool, reconnected: bool, reconnectedAgain: bool, n: Net)
      requires Valid() && done == []
      modifies this
      ensures Valid() && events == old(events) + [Failed(utp, reconnected, reconnectedAgain, n)]
      ensures Goes(old(events), old(View())) && Promised()
    {
      ghost var e := Failed(utp, reconnected, reconnectedAgain, n);
      AfterNext(isIncoming, mode, events, e);
      StepKeepsSound(View(), e) by { RunsAreSound(isIncoming, mode, events); }
      if utp && !isIncoming && stage == AwaitingYb && reconnected {
        sentHandshake := true;
        stage := AwaitingHandshake;
      }
      if (stage == AwaitingYb || stage == AwaitingVc) && mode != EncryptionRequired && reconnectedAgain {
        sentHandshake := true;
        stage := AwaitingHandshake;
      } else {
        var ret := Finish(false, n);
      }
      events := events + [e];
      Keeps();
    }

    /** handshakeTimeout, or tr_handshakeAbort */
    method Abort(n: Net)
      requires Valid() && done == []
      modifies this
      ensures Valid() && events == old(events) + [TimedOut(n)] && done == [false]
    {
      AfterNext(isIncoming, mode, events, TimedOut(n));
      var ret := Finish(false, n);
      events := events + [TimedOut(n)];
    }

    // ---------- what holds of every handshake, whatever has been called ----------

    /** The run so far goes on from before, and never falls back. */
    ghost predicate Goes(before: seq<Event>, was: State)
      reads this
    {
      before <= events && Rank(was) <= Rank(View())
    }

    /** One callback at most, and after a good one the connection is as safe as was asked for. */
    ghost predicate Promised()
      reads this
    {
      |done| <= 1 &&
      (true in done ==> IsAllowed(encryption, mode)) &&
      (true in done && mode == EncryptionRequired ==> encryption == PEER_ENCRYPTION_RC4) &&
      (true in done && stage == AwaitingPayloadStream ==> IsPreferred(mode, provide, encryption))
    }

    lemma Keeps()
      requires Valid()
      ensures Promised()
    {
      OneWay(isIncoming, mode, events, 0);
      GoodMeansAgreed(isIncoming, mode, events);
    }
  }
}
