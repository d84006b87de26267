/** The opening of a peer connection: plain or encrypted, from either side (handshake.c).  Bytes and keys
    stay abstract; what they amount to at each step is what the network decides. */
module HandshakeModel {

  const CRYPTO_PROVIDE_PLAINTEXT := 1
  const CRYPTO_PROVIDE_CRYPTO := 2
  const PEER_ENCRYPTION_NONE := 1
  const PEER_ENCRYPTION_RC4 := 2

  datatype Mode = ClearPreferred | EncryptionPreferred | EncryptionRequired

  datatype Stage =
    | AwaitingHandshake | AwaitingPeerId | AwaitingYa | AwaitingPadA | AwaitingCryptoProvide | AwaitingPadC
    | AwaitingIa | AwaitingPayloadStream
    | AwaitingYb | AwaitingVc | AwaitingCryptoSelect | AwaitingPadD

  datatype Ret = ReadNow | ReadLater | ReadErr

  /** struct tr_handshake and the encryption of its tr_peerIo; done holds the calls of the callback, after the
      first of which the handshake no longer exists. */
  datatype State = State(stage: Stage, encryption: nat, isIncoming: bool, mode: Mode, select: nat, provide: nat,
                         sentHandshake: bool, done: seq<bool>)

  /** What a step finds in its input: whether it is all there, whether it begins like a plain handshake, before and
      after decryption, whether what is looked for is found and good, and the numbers that are read. */
  datatype Net = Net(enough: bool, plain: bool, decrypted: bool, found: bool, good: bool, flags: nat, pad: nat,
                     success: bool, more: bool)

  predicate HasPlaintext(flags: nat) {
    flags % 2 == 1
  }

  predicate HasCrypto(flags: nat) {
    flags / 2 % 2 == 1
  }

  /** a & b, for what the two bits mean */
  predicate Overlap(a: nat, b: nat) {
    (HasPlaintext(a) && HasPlaintext(b)) || (HasCrypto(a) && HasCrypto(b))
  }

  function GetCryptoProvide(mode: Mode): nat {
    if mode.ClearPreferred? then CRYPTO_PROVIDE_CRYPTO + CRYPTO_PROVIDE_PLAINTEXT else CRYPTO_PROVIDE_CRYPTO
  }

  function Choices(mode: Mode): seq<nat> {
    match mode
    case EncryptionRequired => [CRYPTO_PROVIDE_CRYPTO]
    case EncryptionPreferred => [CRYPTO_PROVIDE_CRYPTO, CRYPTO_PROVIDE_PLAINTEXT]
    case ClearPreferred => [CRYPTO_PROVIDE_PLAINTEXT, CRYPTO_PROVIDE_CRYPTO]
  }

  /** The first choice that was offered */
  function FirstOffered(choices: seq<nat>, offered: nat): nat {
    if choices == [] then 0
    else if Overlap(offered, choices[0]) then choices[0]
    else FirstOffered(choices[1..], offered)
  }

  function GetCryptoSelect(mode: Mode, offered: nat): nat {
    FirstOffered(Choices(mode), offered)
  }

  lemma {:induction false} FirstOfferedSpec(choices: seq<nat>, offered: nat)
    requires 0 !in choices
    ensures var s := FirstOffered(choices, offered);
      (s != 0 ==> s in choices && Overlap(offered, s)) && (s == 0 <==> forall c :: c in choices ==> !Overlap(offered, c))
  {
    if choices != [] {
      assert choices == [choices[0]] + choices[1..];
      FirstOfferedSpec(choices[1..], offered);
    }
  }

  /** What is selected was offered and is wanted; nothing is selected only when there is no such method. */
  lemma SelectIsAgreed(mode: Mode, offered: nat)
    ensures var s := GetCryptoSelect(mode, offered);
      (s != 0 ==> s in Choices(mode) && Overlap(offered, s)) &&
      (s == 0 <==> forall c :: c in Choices(mode) ==> !Overlap(offered, c))
  {
    FirstOfferedSpec(Choices(mode), offered);
  }

  /** A peer that offers these methods can be served in this mode. */
  predicate IsAcceptable(mode: Mode, offered: nat) {
    HasCrypto(offered) || (HasPlaintext(offered) && mode != EncryptionRequired)
  }

  /** The method that each mode prefers, where it is offered, and the other one elsewhere */
  predicate IsPreferred(mode: Mode, offered: nat, encryption: nat) {
    IsAcceptable(mode, offered) &&
    match mode
    case EncryptionRequired => encryption == PEER_ENCRYPTION_RC4
    case EncryptionPreferred => encryption == if HasCrypto(offered) then PEER_ENCRYPTION_RC4 else PEER_ENCRYPTION_NONE
    case ClearPreferred => encryption == if HasPlaintext(offered) then PEER_ENCRYPTION_NONE else PEER_ENCRYPTION_RC4
  }

  /** The selection keeps to the order of preference, and fails only where nothing acceptable is offered. */
  lemma SelectIsPreferred(mode: Mode, offered: nat)
    ensures var s := GetCryptoSelect(mode, offered);
      (s == 0 <==> !IsAcceptable(mode, offered)) &&
      (s != 0 ==> IsPreferred(mode, offered, if s == CRYPTO_PROVIDE_PLAINTEXT then PEER_ENCRYPTION_NONE else PEER_ENCRYPTION_RC4))
  {
    FirstOfTwo(CRYPTO_PROVIDE_CRYPTO, CRYPTO_PROVIDE_PLAINTEXT, offered);
    FirstOfTwo(CRYPTO_PROVIDE_PLAINTEXT, CRYPTO_PROVIDE_CRYPTO, offered);
  }

  lemma FirstOfTwo(a: nat, b: nat, offered: nat)
    ensures FirstOffered([a], offered) == if Overlap(offered, a) then a else 0
    ensures FirstOffered([a, b], offered) == if Overlap(offered, a) then a else if Overlap(offered, b) then b else 0
  {
    assert [a][1..] == [] && [a, b][1..] == [b] && [b][1..] == [];
    assert FirstOffered([b], offered) == if Overlap(offered, b) then b else 0;
  }

  // ---------- the steps ----------

  /** tr_handshakeDone */
  function Done(s: State, ok: bool, n: Net): (State, Ret) {
    (s.(done := s.done + [ok]), if n.success then ReadLater else ReadErr)
  }

  function Go(s: State, stage: Stage): (State, Ret) {
    (s.(stage := stage), ReadNow)
  }

  function ReadYb(s: State, n: Net): (State, Ret) {
    if n.plain then Go(s.(encryption := PEER_ENCRYPTION_NONE), AwaitingHandshake)
    else (s.(encryption := PEER_ENCRYPTION_RC4, sentHandshake := true, stage := AwaitingVc), ReadLater)
  }

  function ReadCryptoSelect(s: State, n: Net): (State, Ret) {
    var t := s.(select := n.flags);
    if !Overlap(n.flags, GetCryptoProvide(s.mode)) || n.pad > 512 then Done(t, false, n) else Go(t, AwaitingPadD)
  }

  function ReadHandshake(s: State, n: Net): (State, Ret) {
    var t := s.(encryption := if n.plain then PEER_ENCRYPTION_NONE else PEER_ENCRYPTION_RC4);
    if n.plain && s.mode.EncryptionRequired? then Done(t, false, n)
    else if !n.plain && s.isIncoming then Go(t, AwaitingYa)
    else if (!n.plain && !n.decrypted) || !n.good then Done(t, false, n)
    else Go(t.(sentHandshake := true), AwaitingPeerId)
  }

  function ReadIa(s: State, n: Net): (State, Ret) {
    var select := GetCryptoSelect(s.mode, s.provide);
    if select == 0 then Done(s, false, n)
    else
      var t := if select == CRYPTO_PROVIDE_PLAINTEXT then s.(encryption := PEER_ENCRYPTION_NONE) else s;
      Go(t.(sentHandshake := true), AwaitingPayloadStream)
  }

  /** The read function of the stage */
  function Read(s: State, n: Net): (State, Ret) {
    if !n.enough then (s, ReadLater)
    else match s.stage
      case AwaitingHandshake => ReadHandshake(s, n)
      case AwaitingPeerId => Done(s, n.good, n)
      case AwaitingYa => Go(s, AwaitingPadA)
      case AwaitingPadA => if n.found then Go(s, AwaitingCryptoProvide) else (s, ReadLater)
      case AwaitingCryptoProvide => if n.good then Go(s.(provide := n.flags), AwaitingPadC) else Done(s, false, n)
      case AwaitingPadC => Go(s, AwaitingIa)
      case AwaitingIa => ReadIa(s, n)
      case AwaitingPayloadStream => Done(s, n.good, n)
      case AwaitingYb => ReadYb(s, n)
      case AwaitingVc => if n.found then Go(s, AwaitingCryptoSelect) else (s, ReadLater)
      case AwaitingCryptoSelect => ReadCryptoSelect(s, n)
      case AwaitingPadD => Go(s.(encryption := s.select), AwaitingHandshake)
  }

  /** gotError: an outgoing connection that fails while the peer's key is awaited is tried again without encryption */
  function GotError(s: State, utp: bool, reconnected: bool, reconnectedAgain: bool, n: Net): State {
    var t := if utp && !s.isIncoming && s.stage.AwaitingYb? && reconnected
             then s.(sentHandshake := true, stage := AwaitingHandshake) else s;
    if (t.stage.AwaitingYb? || t.stage.AwaitingVc?) && !t.mode.EncryptionRequired? && reconnectedAgain
    then t.(sentHandshake := true, stage := AwaitingHandshake)
    else Done(t, false, n).0
  }

  /** tr_handshakeNew */
  function Start(isIncoming: bool, mode: Mode): State {
    var s := State(AwaitingHandshake, PEER_ENCRYPTION_NONE, isIncoming, mode, 0, 0, false, []);
    if isIncoming then s
    else if !mode.ClearPreferred? then s.(stage := AwaitingYb)
    else s.(sentHandshake := true)
  }

  // ---------- what every run keeps ----------

  /** How far a connection has come */
  function Rank(s: State): nat {
    if s.done != [] then 12 else
      match s.stage
      case AwaitingYb => 0
      case AwaitingVc => 1
      case AwaitingCryptoSelect => 2
      case AwaitingPadD => 3
      case AwaitingHandshake => 4
      case AwaitingYa => 5
      case AwaitingPadA => 6
      case AwaitingCryptoProvide => 7
      case AwaitingPadC => 8
      case AwaitingIa => 9
      case AwaitingPayloadStream => 10
      case AwaitingPeerId => 11
  }

  /** Behind the encrypted handshake of an incoming connection */
  predicate IsBehindYa(stage: Stage) {
    stage in {AwaitingYa, AwaitingPadA, AwaitingCryptoProvide, AwaitingPadC, AwaitingIa, AwaitingPayloadStream}
  }

  predicate IsAllowed(encryption: nat, mode: Mode) {
    encryption == PEER_ENCRYPTION_RC4 || (encryption == PEER_ENCRYPTION_NONE && mode != EncryptionRequired)
  }

  /** The encryption that answers what an incoming connection offers */
  predicate IsAgreed(s: State) {
    var select := GetCryptoSelect(s.mode, s.provide);
    select != 0 && s.encryption == if select == CRYPTO_PROVIDE_PLAINTEXT then PEER_ENCRYPTION_NONE else PEER_ENCRYPTION_RC4
  }

  predicate Sound(s: State) {
    |s.done| <= 1 &&
    (IsBehindYa(s.stage) ==> s.isIncoming) &&
    (IsBehindYa(s.stage) && s.stage != AwaitingPayloadStream ==> s.encryption == PEER_ENCRYPTION_RC4) &&
    (s.stage == AwaitingPayloadStream ==> IsAgreed(s)) &&
    (s.stage == AwaitingPeerId ==> s.sentHandshake && IsAllowed(s.encryption, s.mode)) &&
    (true in s.done ==> s.stage == AwaitingPeerId || s.stage == AwaitingPayloadStream)
  }

  lemma ReadKeepsSound(s: State, n: Net)
    requires Sound(s) && s.done == []
    ensures Sound(Read(s, n).0) && Read(s, n).0.mode == s.mode
  {
    match s.stage
    case AwaitingHandshake =>
      assert Sound(ReadHandshake(s, n).0);
    case AwaitingIa =>
      assert Sound(ReadIa(s, n).0);
    case _ =>
  }

  lemma ReadAdvances(s: State, n: Net)
    requires s.done == []
    ensures Rank(s) <= Rank(Read(s, n).0)
    ensures Read(s, n).1 == ReadNow ==> Read(s, n).0.done == [] && Rank(s) < Rank(Read(s, n).0)
  {
    match s.stage
    case AwaitingHandshake =>
    case AwaitingIa =>
    case AwaitingCryptoSelect =>
    case _ =>
  }

  datatype Event =
    | Readable(n: Net)
    | Failed(utp: bool, reconnected: bool, reconnectedAgain: bool, n: Net)
    | TimedOut(n: Net)

  /** Once the handshake is done, nothing can happen to it any more: its callbacks and its timer are gone. */
  function Step(s: State, e: Event): State {
    if s.done != [] then s
    else match e
      case Readable(n) => Read(s, n).0
      case Failed(utp, reconnected, reconnectedAgain, n) => GotError(s, utp, reconnected, reconnectedAgain, n)
      case TimedOut(n) => Done(s, false, n).0
  }

  lemma StepKeepsSound(s: State, e: Event)
    requires Sound(s)
    ensures Sound(Step(s, e)) && Rank(s) <= Rank(Step(s, e))
    ensures Step(s, e).mode == s.mode && (exists more :: Step(s, e).done == s.done + more)
  {
    if s.done == [] {
      if e.Readable? {
        ReadKeepsSound(s, e.n);
        ReadAdvances(s, e.n);
      }
      assert Step(s, e).done == s.done + Step(s, e).done;
    } else {
      assert Step(s, e).done == s.done + [];
    }
  }

  function After(isIncoming: bool, mode: Mode, h: seq<Event>): State {
    if h == [] then Start(isIncoming, mode) else Step(After(isIncoming, mode, h[..|h| - 1]), h[|h| - 1])
  }

  lemma {:induction false} RunsAreSound(isIncoming: bool, mode: Mode, h: seq<Event>)
    ensures Sound(After(isIncoming, mode, h)) && After(isIncoming, mode, h).mode == mode
  {
    if h != [] {
      RunsAreSound(isIncoming, mode, h[..|h| - 1]);
      StepKeepsSound(After(isIncoming, mode, h[..|h| - 1]), h[|h| - 1]);
    }
  }

  /** Where encryption is required, a connection that is reported as good is encrypted. */
  lemma RequiredMeansEncrypted(isIncoming: bool, h: seq<Event>)
    ensures var s := After(isIncoming, EncryptionRequired, h); true in s.done ==> s.encryption == PEER_ENCRYPTION_RC4
  {
    var s := After(isIncoming, EncryptionRequired, h);
    RunsAreSound(isIncoming, EncryptionRequired, h);
    SelectIsAgreed(EncryptionRequired, s.provide);
  }

  /** In every mode, a good connection is plain or encrypted, plain only where the mode allows it; and one that
      came in encrypted ends with the method that was agreed on. */
  lemma GoodMeansAgreed(isIncoming: bool, mode: Mode, h: seq<Event>)
    ensures var s := After(isIncoming, mode, h);
      (true in s.done ==> IsAllowed(s.encryption, mode)) &&
      (true in s.done && s.stage == AwaitingPayloadStream ==> IsPreferred(mode, s.provide, s.encryption))
  {
    var s := After(isIncoming, mode, h);
    RunsAreSound(isIncoming, mode, h);
    SelectIsPreferred(mode, s.provide);
  }

  /** The event at k is the one that reads which methods the peer offers. */
  predicate ReadsOffer(mode: Mode, h: seq<Event>, k: nat) {
    k < |h| && h[k].Readable? && h[k].n.enough && h[k].n.good &&
    After(true, mode, h[..k]).stage == AwaitingCryptoProvide && After(true, mode, h[..k]).done == []
  }

  predicate IsBehindOffer(stage: Stage) {
    stage in {AwaitingPadC, AwaitingIa, AwaitingPayloadStream}
  }

  lemma OfferStep(s: State, e: Event)
    requires IsBehindOffer(Step(s, e).stage)
    ensures IsBehindOffer(s.stage) ==> Step(s, e).provide == s.provide
    ensures !IsBehindOffer(s.stage) ==>
      s.stage == AwaitingCryptoProvide && s.done == [] && e.Readable? && e.n.enough && e.n.good && Step(s, e).provide == e.n.flags
  {
    if s.done == [] && e.Readable? && e.n.enough {
      match s.stage
      case AwaitingHandshake =>
      case AwaitingIa => assert ReadIa(s, e.n).0.provide == s.provide;
      case AwaitingCryptoSelect =>
      case _ =>
    }
  }

  lemma {:induction false} OfferWasRead(mode: Mode, h: seq<Event>) returns (k: nat)
    requires IsBehindOffer(After(true, mode, h).stage)
    ensures ReadsOffer(mode, h, k) && h[k].n.flags == After(true, mode, h).provide
  {
    k := |h|;
    if h != [] {
      var before, last := h[..|h| - 1], h[|h| - 1];
      OfferStep(After(true, mode, before), last);
      if IsBehindOffer(After(true, mode, before).stage) {
        k := OfferWasRead(mode, before);
        assert before[..k] == h[..k];
      } else {
        k := |h| - 1;
      }
    }
  }

  /** An incoming connection that ends well after the encrypted exchange has the method that its mode prefers among those that
      the peer has offered in the course of it. */
  lemma OfferDecides(mode: Mode, h: seq<Event>)
    requires var s := After(true, mode, h); true in s.done && s.stage == AwaitingPayloadStream
    ensures var s := After(true, mode, h);
      exists k: nat :: ReadsOffer(mode, h, k) &&
        (mode != ClearPreferred && HasCrypto(h[k].n.flags) ==> s.encryption == PEER_ENCRYPTION_RC4) &&
        (mode == ClearPreferred && HasPlaintext(h[k].n.flags) ==> s.encryption == PEER_ENCRYPTION_NONE) &&
        (!HasCrypto(h[k].n.flags) ==> HasPlaintext(h[k].n.flags) && mode != EncryptionRequired && s.encryption == PEER_ENCRYPTION_NONE) &&
        (!HasPlaintext(h[k].n.flags) ==> HasCrypto(h[k].n.flags) && s.encryption == PEER_ENCRYPTION_RC4)
  {
    var k := OfferWasRead(mode, h);
    GoodMeansAgreed(true, mode, h);
  }

  // ---------- a peer that plays along ----------

  /** Enough has come for the next step, and what is looked for is there. */
  predicate IsCooperative(e: Event) {
    e.Readable? && e.n.enough && e.n.found
  }

  /** What the stage waits for has come: enough bytes, and the place where the encrypted part begins, if that is looked for. */
  predicate HasCome(stage: Stage, n: Net) {
    n.enough && (stage in {AwaitingPadA, AwaitingVc} ==> n.found)
  }

  /** A handshake goes on exactly when what it waits for has come; otherwise everything stays as it is. */
  lemma GoesOnExactly(isIncoming: bool, mode: Mode, h: seq<Event>, n: Net)
    requires After(isIncoming, mode, h).done == []
    ensures var s := After(isIncoming, mode, h);
      After(isIncoming, mode, h + [Readable(n)]) == s <==> !HasCome(s.stage, n)
  {
    var s := After(isIncoming, mode, h);
    AfterNext(isIncoming, mode, h, Readable(n));
    if HasCome(s.stage, n) {
      CooperationAdvances(s, n);
    }
  }

  lemma CooperationAdvances(s: State, n: Net)
    requires s.done == [] && HasCome(s.stage, n)
    ensures Rank(s) < Rank(Read(s, n).0)
  {
    match s.stage
    case AwaitingHandshake =>
    case AwaitingIa =>
    case AwaitingCryptoSelect =>
    case _ =>
  }

  /** From wherever it has come, a handshake is over after twelve steps for which enough has been received. */
  lemma {:induction false} TwelveStepsEnd(isIncoming: bool, mode: Mode, h: seq<Event>, more: seq<Event>)
    requires |more| <= 12 && forall k :: 0 <= k < |more| ==> IsCooperative(more[k])
    ensures Rank(After(isIncoming, mode, h + more)) >= |more|
    ensures |more| == 12 ==> |After(isIncoming, mode, h + more).done| == 1
  {
    RunsAreSound(isIncoming, mode, h + more);
    if more != [] {
      var before, e := more[..|more| - 1], more[|more| - 1];
      TwelveStepsEnd(isIncoming, mode, h, before);
      assert h + more == (h + before) + [e];
      AfterNext(isIncoming, mode, h + before, e);
      if After(isIncoming, mode, h + before).done == [] {
        CooperationAdvances(After(isIncoming, mode, h + before), e.n);
      }
    }
  }

  /** n times the same event */
  function Repeat(e: Event, n: nat): seq<Event> {
    if n == 0 then [] else Repeat(e, n - 1) + [e]
  }

  lemma {:induction false} RepeatOnce(isIncoming: bool, mode: Mode, e: Event, n: nat)
    requires 0 < n
    ensures After(isIncoming, mode, Repeat(e, n)) == Step(After(isIncoming, mode, Repeat(e, n - 1)), e)
  {
    AfterNext(isIncoming, mode, Repeat(e, n - 1), e);
  }

  /** What a peer brings whose every message is there and good, and that offers or selects those methods */
  function Good(plain: bool, flags: nat): Event {
    Readable(Net(true, plain, true, true, true, flags, 0, true, true))
  }

  /** How far an encrypted connection has come that such a peer has opened, after n steps */
  function EncryptedAt(mode: Mode, flags: nat, n: nat): State {
    if n == 0 then State(AwaitingHandshake, PEER_ENCRYPTION_NONE, true, mode, 0, 0, false, [])
    else if n <= 3 then
      State(if n == 1 then AwaitingYa else if n == 2 then AwaitingPadA else AwaitingCryptoProvide,
            PEER_ENCRYPTION_RC4, true, mode, 0, 0, false, [])
    else if n <= 5 then
      State(if n == 4 then AwaitingPadC else AwaitingIa, PEER_ENCRYPTION_RC4, true, mode, 0, flags, false, [])
    else if !IsAcceptable(mode, flags) then State(AwaitingIa, PEER_ENCRYPTION_RC4, true, mode, 0, flags, false, [false])
    else
      State(AwaitingPayloadStream,
            if IsPreferred(mode, flags, PEER_ENCRYPTION_RC4) then PEER_ENCRYPTION_RC4 else PEER_ENCRYPTION_NONE,
            true, mode, 0, flags, true, if n == 6 then [] else [true])
  }

  lemma EncryptedStep(mode: Mode, flags: nat, n: nat)
    ensures Step(EncryptedAt(mode, flags, n), Good(false, flags)) == EncryptedAt(mode, flags, n + 1)
  {
    SelectIsPreferred(mode, flags);
    if n == 5 {
      var s := EncryptedAt(mode, flags, 5);
      assert Step(s, Good(false, flags)) == ReadIa(s, Good(false, flags).n).0;
    }
  }

  predicate IsEncryptedAt(mode: Mode, flags: nat, h: seq<Event>, n: nat) {
    After(true, mode, h) == EncryptedAt(mode, flags, n)
  }

  lemma EncryptedNext(mode: Mode, flags: nat, h: seq<Event>, n: nat)
    requires IsEncryptedAt(mode, flags, h, n)
    ensures IsEncryptedAt(mode, flags, h + [Good(false, flags)], n + 1)
  {
    var e := Good(false, flags);
    EncryptedStep(mode, flags, n);
    assert (h + [e])[..|h|] == h && (h + [e])[|h|] == e;
  }

  lemma {:induction false} EncryptedRun(mode: Mode, flags: nat, n: nat)
    ensures IsEncryptedAt(mode, flags, Repeat(Good(false, flags), n), n)
  {
    if n != 0 {
      EncryptedRun(mode, flags, n - 1);
      EncryptedNext(mode, flags, Repeat(Good(false, flags), n - 1), n - 1);
    }
  }

  /** An encrypted connection that comes in from such a peer is over after seven steps, and ends well exactly when the peer offers
      something acceptable. */
  lemma EncryptedComesIn(mode: Mode, flags: nat, n: nat)
    requires 7 <= n
    ensures var s := After(true, mode, Repeat(Good(false, flags), n));
      s.done == [IsAcceptable(mode, flags)] && (IsAcceptable(mode, flags) ==> IsPreferred(mode, flags, s.encryption))
  {
    EncryptedRun(mode, flags, n);
  }

  /** The same for a plain connection, from either side */
  function PlainAt(isIncoming: bool, mode: Mode, n: nat): State {
    var s := State(AwaitingHandshake, PEER_ENCRYPTION_NONE, isIncoming, mode, 0, 0, !isIncoming, []);
    if n == 0 then s
    else if mode == EncryptionRequired then s.(done := [false])
    else s.(stage := AwaitingPeerId, sentHandshake := true, done := if n == 1 then [] else [true])
  }

  lemma PlainStep(isIncoming: bool, mode: Mode, flags: nat, n: nat)
    ensures Step(PlainAt(isIncoming, mode, n), Good(true, flags)) == PlainAt(isIncoming, mode, n + 1)
  {
    if n == 0 {
      var s := PlainAt(isIncoming, mode, 0);
      assert Step(s, Good(true, flags)) == ReadHandshake(s, Good(true, flags).n).0;
    }
  }

  predicate IsPlainAt(isIncoming: bool, mode: Mode, h: seq<Event>, n: nat) {
    After(isIncoming, mode, h) == PlainAt(isIncoming, mode, n)
  }

  lemma PlainNext(isIncoming: bool, mode: Mode, flags: nat, h: seq<Event>, n: nat)
    requires IsPlainAt(isIncoming, mode, h, n)
    ensures IsPlainAt(isIncoming, mode, h + [Good(true, flags)], n + 1)
  {
    var e := Good(true, flags);
    PlainStep(isIncoming, mode, flags, n);
    assert (h + [e])[..|h|] == h && (h + [e])[|h|] == e;
  }

  lemma {:induction false} PlainRun(isIncoming: bool, mode: Mode, flags: nat, n: nat)
    requires isIncoming || mode == ClearPreferred
    ensures IsPlainAt(isIncoming, mode, Repeat(Good(true, flags), n), n)
  {
    if n != 0 {
      PlainRun(isIncoming, mode, flags, n - 1);
      PlainNext(isIncoming, mode, flags, Repeat(Good(true, flags), n - 1), n - 1);
    }
  }

  /** A plain connection that comes in from such a peer ends well, in the clear, exactly when encryption is not required; and so
      does one that goes out where the clear is preferred. */
  lemma PlainEndsWell(isIncoming: bool, mode: Mode, flags: nat, n: nat)
    requires (isIncoming || mode == ClearPreferred) && 2 <= n
    ensures var s := After(isIncoming, mode, Repeat(Good(true, flags), n));
      s.done == [mode != EncryptionRequired] && s.encryption == PEER_ENCRYPTION_NONE
  {
    PlainRun(isIncoming, mode, flags, n);
  }

  // ---------- how a handshake ends well ----------

  /** At k, a good peer id or a good payload stream has been read, with which the handshake comes to its end. */
  predicate EndsWell(isIncoming: bool, mode: Mode, h: seq<Event>, k: nat) {
    k < |h| && h[k].Readable? && h[k].n.enough && h[k].n.good &&
    After(isIncoming, mode, h[..k]).done == [] && After(isIncoming, mode, h[..k]).stage in {AwaitingPeerId, AwaitingPayloadStream}
  }

  lemma EndsWellStep(s: State, e: Event)
    requires s.done == []
    ensures true in Step(s, e).done <==>
      e.Readable? && e.n.enough && e.n.good && s.stage in {AwaitingPeerId, AwaitingPayloadStream}
    ensures true in Step(s, e).done ==> Step(s, e).done == [true]
  {
    if e.Readable? && e.n.enough {
      match s.stage
      case AwaitingHandshake =>
      case AwaitingIa =>
      case AwaitingCryptoSelect =>
      case _ =>
    }
  }

  lemma {:induction false} EndWasRead(isIncoming: bool, mode: Mode, h: seq<Event>)
    ensures true in After(isIncoming, mode, h).done ==> exists k: nat :: EndsWell(isIncoming, mode, h, k)
  {
    if h != [] {
      var before, e := h[..|h| - 1], h[|h| - 1];
      EndWasRead(isIncoming, mode, before);
      if After(isIncoming, mode, before).done == [] {
        EndsWellStep(After(isIncoming, mode, before), e);
        assert true in After(isIncoming, mode, h).done ==> EndsWell(isIncoming, mode, h, |h| - 1);
      } else if k: nat :| EndsWell(isIncoming, mode, before, k) {
        assert before[..k] == h[..k];
        assert EndsWell(isIncoming, mode, h, k);
      }
    }
  }

  lemma {:induction false} EndStays(isIncoming: bool, mode: Mode, h: seq<Event>, k: nat)
    requires EndsWell(isIncoming, mode, h, k)
    ensures After(isIncoming, mode, h).done == [true]
  {
    var before := h[..|h| - 1];
    if k == |before| {
      EndsWellStep(After(isIncoming, mode, before), h[k]);
    } else {
      assert before[..k] == h[..k];
      EndStays(isIncoming, mode, before, k);
    }
  }

  /** A handshake is reported as good exactly when a good peer id, or the good handshake behind an encrypted exchange, has been
      read while that was awaited. */
  lemma GoodExactly(isIncoming: bool, mode: Mode, h: seq<Event>)
    ensures After(isIncoming, mode, h).done == [true] <==> exists k: nat :: EndsWell(isIncoming, mode, h, k)
  {
    EndWasRead(isIncoming, mode, h);
    if k: nat :| EndsWell(isIncoming, mode, h, k) {
      EndStays(isIncoming, mode, h, k);
    }
  }

  /** The callback is called at most once, and a connection never falls back to an earlier stage. */
  lemma {:induction false} OneWay(isIncoming: bool, mode: Mode, h: seq<Event>, k: nat)
    requires k <= |h|
    ensures |After(isIncoming, mode, h).done| <= 1
    ensures Rank(After(isIncoming, mode, h[..k])) <= Rank(After(isIncoming, mode, h))
    decreases |h|
  {
    RunsAreSound(isIncoming, mode, h);
    if k == |h| {
      assert h[..k] == h;
    } else {
      var before := h[..|h| - 1];
      OneWay(isIncoming, mode, before, k);
      assert before[..k] == h[..k];
      RunsAreSound(isIncoming, mode, before);
      StepKeepsSound(After(isIncoming, mode, before), h[|h| - 1]);
    }
  }

  lemma NeverBack(isIncoming: bool, mode: Mode, h: seq<Event>, j: nat, k: nat)
    requires j <= k <= |h|
    ensures Rank(After(isIncoming, mode, h[..j])) <= Rank(After(isIncoming, mode, h[..k]))
  {
    assert h[..k][..j] == h[..j];
    OneWay(isIncoming, mode, h[..k], j);
  }

  lemma AfterNext(isIncoming: bool, mode: Mode, h: seq<Event>, e: Event)
    ensures After(isIncoming, mode, h + [e]) == Step(After(isIncoming, mode, h), e)
  {
    assert (h + [e])[..|h|] == h;
  }

  lemma AfterOneMore(isIncoming: bool, mode: Mode, h: seq<Event>, k: nat)
    requires k < |h|
    ensures After(isIncoming, mode, h[..k + 1]) == Step(After(isIncoming, mode, h[..k]), h[k])
  {
    assert h[..k + 1][..k] == h[..k];
  }

  // ---------- what the peer selects ----------

  /** What an outgoing connection has taken over from the peer's answer */
  predicate Selected(s: State) {
    !s.isIncoming && !IsBehindYa(s.stage) &&
    (s.stage in {AwaitingYb, AwaitingVc, AwaitingCryptoSelect} && s.done == [] ==> s.select == 0) &&
    (false !in s.done && s.select != 0 ==> s.mode != ClearPreferred && HasCrypto(s.select)) &&
    (s.stage == AwaitingPadD ==> s.select != 0) &&
    (s.stage == AwaitingHandshake && s.done == [] && s.select != 0 ==> s.encryption == s.select) &&
    (s.mode == ClearPreferred ==> s.stage in {AwaitingHandshake, AwaitingPeerId})
  }

  lemma StepKeepsSelected(s: State, e: Event)
    requires Selected(s)
    ensures Selected(Step(s, e))
  {
    if s.done == [] {
      match e
      case Readable(n) =>
        if s.stage == AwaitingCryptoSelect {
          assert Selected(ReadCryptoSelect(s, n).0);
        }
      case _ =>
    }
  }

  lemma {:induction false} RunsAreSelected(mode: Mode, h: seq<Event>)
    ensures Selected(After(false, mode, h))
  {
    if h != [] {
      RunsAreSelected(mode, h[..|h| - 1]);
      StepKeepsSelected(After(false, mode, h[..|h| - 1]), h[|h| - 1]);
    }
  }

  /** An outgoing connection goes on with the answer to its offer exactly when that selects encryption, whatever else, and comes
      with no more than 512 bytes of padding. */
  lemma AnswerIsTaken(mode: Mode, h: seq<Event>, n: Net)
    requires var s := After(false, mode, h); s.done == [] && s.stage == AwaitingCryptoSelect
    ensures n.enough ==> (After(false, mode, h + [Readable(n)]).done == [] <==> HasCrypto(n.flags) && n.pad <= 512)
    ensures !n.enough ==> After(false, mode, h + [Readable(n)]) == After(false, mode, h)
  {
    RunsAreSelected(mode, h);
    RunsAreSound(false, mode, h);
    AfterNext(false, mode, h, Readable(n));
    SelectGoesOn(After(false, mode, h), n);
  }

  lemma SelectGoesOn(s: State, n: Net)
    requires s.done == [] && s.stage == AwaitingCryptoSelect && s.mode != ClearPreferred
    ensures var t := Step(s, Readable(n));
      (n.enough ==> (t.done == [] <==> HasCrypto(n.flags) && n.pad <= 512)) && (!n.enough ==> t == s)
  {
    assert n.enough ==> Step(s, Readable(n)) == ReadCryptoSelect(s, n).0;
  }

  predicate NamesMethod(encryption: nat) {
    encryption == PEER_ENCRYPTION_NONE || encryption == PEER_ENCRYPTION_RC4
  }

  /** What the peer selects is taken over unchecked: while its handshake is awaited, the encryption of the connection
      names a method exactly when the answer was RC4 and nothing else. */
  lemma SelectedIsTakenOver(mode: Mode, h: seq<Event>)
    requires var s := After(false, mode, h); s.done == [] && s.stage == AwaitingHandshake && s.select != 0
    ensures var s := After(false, mode, h); NamesMethod(s.encryption) <==> s.select == PEER_ENCRYPTION_RC4
  {
    RunsAreSelected(mode, h);
  }

  /** The event at k is the one that reads the peer's handshake. */
  predicate ReadsHandshake(isIncoming: bool, mode: Mode, h: seq<Event>, k: nat) {
    k < |h| && h[k].Readable? &&
    After(isIncoming, mode, h[..k]).stage == AwaitingHandshake && After(isIncoming, mode, h[..k + 1]).stage == AwaitingPeerId
  }

  lemma {:induction false} ReadsHandshakeAlso(isIncoming: bool, mode: Mode, h: seq<Event>, e: Event, k: nat)
    requires ReadsHandshake(isIncoming, mode, h, k)
    ensures ReadsHandshake(isIncoming, mode, h + [e], k)
  {
    assert (h + [e])[..k] == h[..k] && (h + [e])[..k + 1] == h[..k + 1];
  }

  /** All of the handshake is there, it begins as one does, plain or decrypted, and names the right torrent. */
  predicate ReadsGoodHandshake(n: Net) {
    n.enough && n.good && (n.plain || n.decrypted)
  }

  /** Only reading the peer's handshake makes a connection wait for the peer's id, and settles the encryption. */
  lemma ComesToPeerId(s: State, e: Event)
    requires Step(s, e).stage == AwaitingPeerId
    ensures s.stage == AwaitingPeerId ==> Step(s, e).encryption == s.encryption
    ensures s.stage != AwaitingPeerId ==> (s.stage == AwaitingHandshake && e.Readable? && ReadsGoodHandshake(e.n) &&
      Step(s, e).encryption == if e.n.plain then PEER_ENCRYPTION_NONE else PEER_ENCRYPTION_RC4)
  {
  }

  /** Whoever waits for the peer's id has read its handshake, and the first byte of that has settled the encryption. */
  lemma {:induction false} HandshakeWasRead(isIncoming: bool, mode: Mode, h: seq<Event>) returns (k: nat)
    requires After(isIncoming, mode, h).stage == AwaitingPeerId
    ensures ReadsHandshake(isIncoming, mode, h, k) && ReadsGoodHandshake(h[k].n)
    ensures After(isIncoming, mode, h).encryption == if h[k].n.plain then PEER_ENCRYPTION_NONE else PEER_ENCRYPTION_RC4
  {
    var before, e := h[..|h| - 1], h[|h| - 1];
    assert before + [e] == h;
    ComesToPeerId(After(isIncoming, mode, before), e);
    if After(isIncoming, mode, before).stage == AwaitingPeerId {
      k := HandshakeWasRead(isIncoming, mode, before);
      ReadsHandshakeAlso(isIncoming, mode, before, e, k);
    } else {
      k := |before|;
      assert h[..k] == before && h[..k + 1] == h;
    }
  }

  lemma {:induction false} ReadOnce(isIncoming: bool, mode: Mode, h: seq<Event>, j: nat, k: nat)
    requires ReadsHandshake(isIncoming, mode, h, j) && ReadsHandshake(isIncoming, mode, h, k)
    ensures j == k
  {
    AfterOneMore(isIncoming, mode, h, j);
    AfterOneMore(isIncoming, mode, h, k);
    if j < k {
      NeverBack(isIncoming, mode, h, j + 1, k);
    } else if k < j {
      NeverBack(isIncoming, mode, h, k + 1, j);
    }
  }

  lemma GoodOutgoing(s: State)
    requires Sound(s) && Selected(s) && true in s.done
    ensures s.stage == AwaitingPeerId && (s.select != 0 ==> HasCrypto(s.select))
  {
    assert false !in s.done;
  }

  /** An outgoing connection that ends well ends with one method, whatever the peer has selected: the one that the first
      byte of its handshake looks like.  It is the selected one exactly when the answer was RC4 and nothing else and
      that byte does not look like the beginning of a plain handshake. */
  lemma FirstByteDecides(mode: Mode, h: seq<Event>, k: nat)
    requires ReadsHandshake(false, mode, h, k) && true in After(false, mode, h).done
    ensures var s := After(false, mode, h);
      s.encryption == (if h[k].n.plain then PEER_ENCRYPTION_NONE else PEER_ENCRYPTION_RC4) &&
      (s.select != 0 ==> (s.encryption == s.select <==> s.select == PEER_ENCRYPTION_RC4 && !h[k].n.plain))
  {
    RunsAreSound(false, mode, h);
    RunsAreSelected(mode, h);
    GoodOutgoing(After(false, mode, h));
    var j := HandshakeWasRead(false, mode, h);
    ReadOnce(false, mode, h, j, k);
  }

  // ---------- runs that show it ----------

  /** What the network brings to an outgoing connection whose peer answers with flags */
  function Answering(flags: nat, plain: bool): seq<Event> {
    var n := Net(true, false, true, true, true, flags, 0, true, true);
    [Readable(n), Readable(n), Readable(n), Readable(n), Readable(n.(plain := plain)), Readable(n)]
  }

  lemma FirstThree(mode: Mode, flags: nat, plain: bool)
    requires mode != ClearPreferred && HasCrypto(flags)
    ensures After(false, mode, Answering(flags, plain)[..3])
         == State(AwaitingPadD, PEER_ENCRYPTION_RC4, false, mode, flags, 0, true, [])
  {
    var h := Answering(flags, plain);
    assert h[..0] == [];
    AfterOneMore(false, mode, h, 0);
    AfterOneMore(false, mode, h, 1);
    AfterOneMore(false, mode, h, 2);
  }

  lemma OnToHandshake(mode: Mode, flags: nat, plain: bool)
    requires mode != ClearPreferred && HasCrypto(flags)
    ensures After(false, mode, Answering(flags, plain)[..4]) == State(AwaitingHandshake, flags, false, mode, flags, 0, true, [])
  {
    FirstThree(mode, flags, plain);
    AfterOneMore(false, mode, Answering(flags, plain), 3);
  }

  lemma OnToTheEnd(mode: Mode, flags: nat, plain: bool)
    requires mode != ClearPreferred && HasCrypto(flags) && (plain ==> mode != EncryptionRequired)
    ensures After(false, mode, Answering(flags, plain)) == State(
      AwaitingPeerId, if plain then PEER_ENCRYPTION_NONE else PEER_ENCRYPTION_RC4, false, mode, flags, 0, true, [true])
  {
    var h := Answering(flags, plain);
    OnToHandshake(mode, flags, plain);
    AfterOneMore(false, mode, h, 4);
    AfterOneMore(false, mode, h, 5);
    assert h[..6] == h;
  }

  /** A peer that selects both methods at once is believed: until its handshake comes, the connection has neither. */
  lemma BothSelectedIsTaken(mode: Mode)
    requires mode != ClearPreferred
    ensures var s := After(false, mode, Answering(3, false)[..4]);
      s.done == [] && s.stage == AwaitingHandshake && s.encryption == 3 && !NamesMethod(s.encryption)
  {
    OnToHandshake(mode, 3, false);
  }

  /** A peer that selects encryption and goes on in the clear is believed as well, where encryption is only preferred. */
  lemma SelectedButPlain()
    ensures var s := After(false, EncryptionPreferred, Answering(PEER_ENCRYPTION_RC4, true));
      s.done == [true] && s.select == PEER_ENCRYPTION_RC4 && s.encryption == PEER_ENCRYPTION_NONE
  {
    OnToTheEnd(EncryptionPreferred, PEER_ENCRYPTION_RC4, true);
  }

  // ---------- connections that fail ----------

  predicate Survives(isIncoming: bool, mode: Mode, h: seq<Event>, k: nat) {
    k < |h| && h[k].Failed? && After(isIncoming, mode, h[..k + 1]).done == []
  }

  /** A connection that fails is tried once more exactly when the peer's key or its answer is awaited, encryption
      is not required, and reconnecting works; but after a uTP connection has been replaced, the same call gives the
      handshake up, although the replacement has just been made. */
  lemma RetriedExactly(s: State, utp: bool, reconnected: bool, reconnectedAgain: bool, n: Net)
    requires s.done == []
    ensures var replaced := utp && !s.isIncoming && s.stage == AwaitingYb && reconnected;
      GotError(s, utp, reconnected, reconnectedAgain, n).done == [] <==>
      !replaced && s.stage in {AwaitingYb, AwaitingVc} && s.mode != EncryptionRequired && reconnectedAgain
  {
    var replaced := utp && !s.isIncoming && s.stage == AwaitingYb && reconnected;
    if replaced {
      assert GotError(s, utp, reconnected, reconnectedAgain, n).done == [false];
    }
  }

  /** In a whole run, a handshake lives through one failure at most, and only if it is not required to be encrypted. */
  lemma {:induction false} SurvivesOnce(isIncoming: bool, mode: Mode, h: seq<Event>, j: nat, k: nat)
    requires Survives(isIncoming, mode, h, j) && Survives(isIncoming, mode, h, k)
    ensures j == k && !isIncoming && mode != EncryptionRequired
  {
    SurvivalStage(isIncoming, mode, h, j);
    SurvivalStage(isIncoming, mode, h, k);
    if j < k {
      NeverBack(isIncoming, mode, h, j + 1, k);
    } else if k < j {
      NeverBack(isIncoming, mode, h, k + 1, j);
    }
  }

  lemma SurvivalStage(isIncoming: bool, mode: Mode, h: seq<Event>, k: nat)
    requires Survives(isIncoming, mode, h, k)
    ensures var s, t := After(isIncoming, mode, h[..k]), After(isIncoming, mode, h[..k + 1]);
      s.done == [] && Rank(s) < 2 && Rank(t) == 4 && !isIncoming && mode != EncryptionRequired
  {
    var s, e := After(isIncoming, mode, h[..k]), h[k];
    assert h[..k + 1][..k] == h[..k];
    RunsAreSound(isIncoming, mode, h[..k]);
    OutgoingOnly(isIncoming, mode, h[..k]);
    if s.done == [] {
      RetriedExactly(s, e.utp, e.reconnected, e.reconnectedAgain, e.n);
    }
  }

  predicate IsOutgoingStage(stage: Stage) {
    stage in {AwaitingYb, AwaitingVc, AwaitingCryptoSelect, AwaitingPadD}
  }

  lemma StepKeepsSide(s: State, e: Event)
    requires IsOutgoingStage(s.stage) ==> !s.isIncoming
    ensures var t := Step(s, e); t.isIncoming == s.isIncoming && (IsOutgoingStage(t.stage) ==> !t.isIncoming)
  {
    if s.done == [] && e.Readable? {
      match s.stage
      case AwaitingHandshake => assert !IsOutgoingStage(ReadHandshake(s, e.n).0.stage);
      case _ =>
    }
  }

  lemma {:induction false} OutgoingOnly(isIncoming: bool, mode: Mode, h: seq<Event>)
    ensures var s := After(isIncoming, mode, h);
      s.isIncoming == isIncoming && (IsOutgoingStage(s.stage) ==> !isIncoming)
  {
    if h != [] {
      OutgoingOnly(isIncoming, mode, h[..|h| - 1]);
      StepKeepsSide(After(isIncoming, mode, h[..|h| - 1]), h[|h| - 1]);
    }
  }
}
