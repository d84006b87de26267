/** The converters between UTF-8, UTF-16 and UTF-32, which stop when the target is full and can be
    resumed (ConvertUTF.c; RFC 3629, RFC 2781). */
module UtfConversion {
  import opened Base
  import opened Utf

  datatype Status = ConversionOk | SourceExhausted | SourceIllegal | TargetExhausted

  datatype Kind = Utf32ToUtf8(strict: bool) | Utf16ToUtf8(strict: bool) | Utf8ToUtf16(strict: bool) | Utf8ToUtf32(strict: bool)

  /** One character: where conversion stops for good, or how much is read and written */
  datatype Step = Stop(status: Status) | Emit(used: nat, out: seq<nat>, bad: bool)

  /** How much of the source was read, what was written, and why conversion ended */
  datatype Outcome = Outcome(used: nat, out: seq<nat>, status: Status)

  predicate AllBelow(s: seq<nat>, limit: nat) {
    forall k :: 0 <= k < |s| ==> s[k] < limit
  }

  function AsBytes(s: seq<nat>): (b: Bytes)
    requires AllBelow(s, 0x100)
    ensures b == s
  {
    s
  }

  /** Section 2.1 of RFC 2781 */
  function Utf16(ch: nat): seq<nat>
    requires ch <= UNI_MAX_LEGAL_UTF32
  {
    if ch <= UNI_MAX_BMP then [ch]
    else [(ch - HALF_BASE) / 1024 + UNI_SUR_HIGH_START, (ch - HALF_BASE) % 1024 + UNI_SUR_LOW_START]
  }

  function Step32(s: seq<nat>, strict: bool): Step
    requires s != []
  {
    if strict && IsSurrogate(s[0]) then Stop(SourceIllegal)
    else if s[0] > UNI_MAX_LEGAL_UTF32 then Emit(1, Utf8(UNI_REPLACEMENT_CHAR), true)
    else Emit(1, Utf8(s[0]), false)
  }

  predicate IsHigh(u: nat) {
    UNI_SUR_HIGH_START <= u <= UNI_SUR_HIGH_END
  }

  predicate IsLow(u: nat) {
    UNI_SUR_LOW_START <= u <= UNI_SUR_LOW_END
  }

  /** The character of a surrogate pair */
  function Paired(high: nat, low: nat): (ch: nat)
    requires IsHigh(high) && IsLow(low)
    ensures HALF_BASE <= ch <= UNI_MAX_LEGAL_UTF32 && Utf16(ch) == [high, low]
  {
    (high - UNI_SUR_HIGH_START) * 1024 + (low - UNI_SUR_LOW_START) + HALF_BASE
  }

  function Step16(s: seq<nat>, strict: bool): Step
    requires s != [] && AllBelow(s, 0x10000)
  {
    if IsHigh(s[0]) then
      if |s| < 2 then Stop(SourceExhausted)
      else if IsLow(s[1]) then Emit(2, Utf8(Paired(s[0], s[1])), false)
      else if strict then Stop(SourceIllegal)
      else Emit(1, Utf8(s[0]), false)
    else if strict && IsLow(s[0]) then Stop(SourceIllegal)
    else Emit(1, Utf8(s[0]), false)
  }

  /** The two converters from UTF-8 differ only in what they write. */
  function Step8(s: Bytes, wide: bool): Step
    requires s != []
  {
    var len := TrailingBytes(s[0]) + 1;
    if len > |s| then Stop(SourceExhausted)
    else if !IsLegal(s[..len]) then Stop(SourceIllegal)
    else
      EncodeDecoded(s[..len]);
      var ch := Decode(s[..len]);
      Emit(len, if wide then [ch] else Utf16(ch), false)
  }

  type Stepper = seq<nat> -> Step

  /** What a converter makes of the front of its source; sources are made of code units of their encoding. */
  function Of(kind: Kind): Stepper {
    match kind
    case Utf32ToUtf8(strict) => (s: seq<nat>) => if s == [] then Stop(ConversionOk) else Step32(s, strict)
    case Utf16ToUtf8(strict) =>
      (s: seq<nat>) => if s == [] || !AllBelow(s, 0x10000) then Stop(ConversionOk) else Step16(s, strict)
    case Utf8ToUtf16(_) =>
      (s: seq<nat>) => if s == [] || !AllBelow(s, 0x100) then Stop(ConversionOk) else Step8(AsBytes(s), false)
    case Utf8ToUtf32(_) =>
      (s: seq<nat>) => if s == [] || !AllBelow(s, 0x100) then Stop(ConversionOk) else Step8(AsBytes(s), true)
  }

  /** Every character takes up some of the source. */
  ghost predicate Progresses(step: Stepper) {
    forall s :: s != [] && step(s).Emit? ==> 0 < step(s).used <= |s|
  }

  lemma AllProgress(kind: Kind)
    ensures Progresses(Of(kind))
  {
    var step := Of(kind);
    forall s | s != [] && step(s).Emit?
      ensures 0 < step(s).used <= |s|
    {
    }
  }

  /** What has been converted already, put before what comes after it */
  function Prefixed(used: nat, out: seq<nat>, bad: bool, r: Outcome): Outcome {
    Outcome(used + r.used, out + r.out, if bad && r.status == ConversionOk then SourceIllegal else r.status)
  }

  /** Converting into a target with room for so many units */
  function Convert(step: Stepper, s: seq<nat>, room: nat): Outcome
    requires Progresses(step)
    decreases |s|
  {
    if s == [] then Outcome(0, [], ConversionOk) else
      match step(s)
      case Stop(status) => Outcome(0, [], status)
      case Emit(used, out, bad) =>
        if |out| > room then Outcome(0, [], TargetExhausted)
        else Prefixed(used, out, bad, Convert(step, s[used..], room - |out|))
  }

  /** whole is what r1 and then r2 did; that a character was bad shows in the status of the conversion that met it. */
  predicate SameAs(r1: Outcome, r2: Outcome, whole: Outcome) {
    whole.used == r1.used + r2.used && whole.out == r1.out + r2.out &&
    (whole.status == r2.status || (r2.status == ConversionOk && whole.status == SourceIllegal))
  }

  lemma SameWithPrefix(used: nat, out: seq<nat>, bad: bool, r1: Outcome, r2: Outcome, whole: Outcome)
    requires SameAs(r1, r2, whole)
    ensures SameAs(Prefixed(used, out, bad, r1), r2, Prefixed(used, out, bad, whole))
  {
    assert out + (r1.out + r2.out) == (out + r1.out) + r2.out;
  }

  lemma ConvertStep(step: Stepper, s: seq<nat>, room: nat)
    requires Progresses(step) && s != [] && step(s).Emit? && |step(s).out| <= room
    ensures var e := step(s);
      Convert(step, s, room) == Prefixed(e.used, e.out, e.bad, Convert(step, s[e.used..], room - |e.out|))
  {
  }

  /** Filling one target, and going on with another where the first was full, writes what one large target gets. */
  ghost predicate Resumes(step: Stepper, s: seq<nat>, room1: nat, room2: nat)
    requires Progresses(step)
  {
    var r1 := Convert(step, s, room1);
    r1.used <= |s| && SameAs(r1, Convert(step, s[r1.used..], room2), Convert(step, s, |r1.out| + room2))
  }

  lemma ResumesAfter(step: Stepper, s: seq<nat>, room1: nat, room2: nat)
    requires Progresses(step) && s != [] && step(s).Emit? && |step(s).out| <= room1
    requires Resumes(step, s[step(s).used..], room1 - |step(s).out|, room2)
    ensures Resumes(step, s, room1, room2)
  {
    var e := step(s);
    var r1, rest := Convert(step, s, room1), s[e.used..];
    var q1 := Convert(step, rest, room1 - |e.out|);
    ConvertStep(step, s, room1);
    ConvertStep(step, s, |r1.out| + room2);
    assert s[r1.used..] == rest[q1.used..];
    SameWithPrefix(e.used, e.out, e.bad, q1, Convert(step, rest[q1.used..], room2), Convert(step, rest, |q1.out| + room2));
  }

  lemma ResumesAtOnce(step: Stepper, s: seq<nat>, room1: nat, room2: nat)
    requires Progresses(step) && Convert(step, s, room1) == Outcome(0, [], TargetExhausted)
    ensures Resumes(step, s, room1, room2)
  {
    assert s[0..] == s && [] + Convert(step, s, room2).out == Convert(step, s, room2).out;
  }

  lemma {:induction false} ResumeIsTheSame(step: Stepper, s: seq<nat>, room1: nat, room2: nat)
    requires Progresses(step) && Convert(step, s, room1).status == TargetExhausted
    ensures Resumes(step, s, room1, room2)
    decreases |s|
  {
    if s == [] || step(s).Stop? || |step(s).out| > room1 {
      ResumesAtOnce(step, s, room1, room2);
    } else {
      ConvertStep(step, s, room1);
      ResumeIsTheSame(step, s[step(s).used..], room1 - |step(s).out|, room2);
      ResumesAfter(step, s, room1, room2);
    }
  }

  // ---------- round trips ----------

  type Encoder = nat -> seq<nat>

  function As8(): Encoder {
    (ch: nat) => if ch <= UNI_MAX_LEGAL_UTF32 then Utf8(ch) else []
  }

  function As16(): Encoder {
    (ch: nat) => if ch <= UNI_MAX_LEGAL_UTF32 then Utf16(ch) else []
  }

  function As32(): Encoder {
    (ch: nat) => [ch]
  }

  /** The characters in an encoding, one after the other */
  function All(encode: Encoder, chars: seq<nat>): seq<nat> {
    if chars == [] then [] else encode(chars[0]) + All(encode, chars[1..])
  }

  /** One step on text in one encoding writes its first character in the other. */
  ghost predicate Carries(step: Stepper, from: Encoder, to: Encoder) {
    forall ch, chars :: IsScalar(ch) && AllScalar(chars) ==>
      from(ch) != [] && step(from(ch) + All(from, chars)) == Emit(|from(ch)|, to(ch), false)
  }

  lemma StepOnText(step: Stepper, first: seq<nat>, rest: seq<nat>, out: seq<nat>, room: nat)
    requires Progresses(step) && first != [] && step(first + rest) == Emit(|first|, out, false) && |out| <= room
    ensures Convert(step, first + rest, room) == Prefixed(|first|, out, false, Convert(step, rest, room - |out|))
  {
    assert (first + rest)[|first|..] == rest;
  }

  lemma {:induction false} Transcodes(step: Stepper, from: Encoder, to: Encoder, chars: seq<nat>, room: nat)
    requires Progresses(step) && Carries(step, from, to) && AllScalar(chars) && |All(to, chars)| <= room
    ensures Convert(step, All(from, chars), room) == Outcome(|All(from, chars)|, All(to, chars), ConversionOk)
  {
    if chars != [] {
      StepOnText(step, from(chars[0]), All(from, chars[1..]), to(chars[0]), room);
      Transcodes(step, from, to, chars[1..], room - |to(chars[0])|);
    }
  }

  lemma {:induction false} UnitsAreSmall(chars: seq<nat>)
    requires AllScalar(chars)
    ensures AllBelow(All(As16(), chars), 0x10000) && AllBelow(All(As8(), chars), 0x100)
  {
    if chars != [] {
      UnitsAreSmall(chars[1..]);
    }
  }

  lemma PairOf(ch: nat)
    requires IsScalar(ch)
    ensures ch <= UNI_MAX_BMP ==> Utf16(ch) == [ch] && !IsHigh(ch) && !IsLow(ch)
    ensures ch > UNI_MAX_BMP ==>
      |Utf16(ch)| == 2 && IsHigh(Utf16(ch)[0]) && IsLow(Utf16(ch)[1]) && Paired(Utf16(ch)[0], Utf16(ch)[1]) == ch
  {
    if ch > UNI_MAX_BMP {
      var q, r := (ch - HALF_BASE) / 1024, (ch - HALF_BASE) % 1024;
      assert ch == 1024 * q + r + HALF_BASE && q < 1024;
    }
  }

  lemma FirstOf16(ch: nat, rest: seq<nat>, strict: bool)
    requires IsScalar(ch) && AllBelow(Utf16(ch) + rest, 0x10000)
    ensures Step16(Utf16(ch) + rest, strict) == Emit(|Utf16(ch)|, Utf8(ch), false)
  {
    PairOf(ch);
    var s := Utf16(ch) + rest;
    assert s[0] == Utf16(ch)[0] && (ch > UNI_MAX_BMP ==> s[1] == Utf16(ch)[1]);
  }

  lemma FirstOf8(ch: nat, rest: Bytes, wide: bool)
    requires IsScalar(ch)
    ensures Step8(Utf8(ch) + rest, wide) == Emit(|Utf8(ch)|, if wide then [ch] else Utf16(ch), false)
  {
    DecodeEncoded(ch);
    var first := Utf8(ch);
    assert (first + rest)[..|first|] == first && (first + rest)[0] == first[0];
  }

  lemma Carries32(strict: bool)
    ensures Carries(Of(Utf32ToUtf8(strict)), As32(), As8())
  {
  }

  lemma Carries16(strict: bool)
    ensures Carries(Of(Utf16ToUtf8(strict)), As16(), As8())
  {
    var from := As16();
    forall ch, chars | IsScalar(ch) && AllScalar(chars)
      ensures from(ch) != [] && Of(Utf16ToUtf8(strict))(from(ch) + All(from, chars)) == Emit(|from(ch)|, As8()(ch), false)
    {
      UnitsAreSmall([ch] + chars);
      assert ([ch] + chars)[1..] == chars;
      FirstOf16(ch, All(from, chars), strict);
    }
  }

  lemma Carries8To32(strict: bool)
    ensures Carries(Of(Utf8ToUtf32(strict)), As8(), As32())
  {
    var from, to := As8(), As32();
    forall ch, chars | IsScalar(ch) && AllScalar(chars)
      ensures from(ch) != [] && Of(Utf8ToUtf32(strict))(from(ch) + All(from, chars)) == Emit(|from(ch)|, to(ch), false)
    {
      UnitsAreSmall(chars);
      UnitsAreSmall([ch] + chars);
      assert ([ch] + chars)[1..] == chars;
      FirstOf8(ch, AsBytes(All(from, chars)), true);
    }
  }

  lemma Carries8To16(strict: bool)
    ensures Carries(Of(Utf8ToUtf16(strict)), As8(), As16())
  {
    var from, to := As8(), As16();
    forall ch, chars | IsScalar(ch) && AllScalar(chars)
      ensures from(ch) != [] && Of(Utf8ToUtf16(strict))(from(ch) + All(from, chars)) == Emit(|from(ch)|, to(ch), false)
    {
      UnitsAreSmall(chars);
      UnitsAreSmall([ch] + chars);
      assert ([ch] + chars)[1..] == chars;
      FirstOf8(ch, AsBytes(All(from, chars)), false);
    }
  }

  // ---------- text that is not well-formed ----------

  ghost predicate IsOk(step: Stepper, s: seq<nat>, room: nat)
    requires Progresses(step)
  {
    Convert(step, s, room).status == ConversionOk
  }

  /** A step goes on with s, at whose front nothing is wrong, and writes no more than four units for each it reads. */
  predicate GoesOnWith(step: Stepper, s: seq<nat>) {
    step(s).Emit? && !step(s).bad && 0 < step(s).used <= |s|
  }

  ghost predicate DecidesFront(step: Stepper, good: seq<nat> -> bool, fits: seq<nat> -> bool, s: seq<nat>) {
    (step(s).Stop? ==> step(s).status != ConversionOk) &&
    (step(s).Emit? ==> 0 < step(s).used <= |s| && |step(s).out| <= 4 * step(s).used && fits(s[step(s).used..])) &&
    (good(s) <==> GoesOnWith(step, s) && good(s[step(s).used..]))
  }

  /** What is good is what a step goes on with, and what comes after it. */
  ghost predicate Decides(step: Stepper, good: seq<nat> -> bool, fits: seq<nat> -> bool) {
    good([]) && forall s :: s != [] && fits(s) ==> DecidesFront(step, good, fits, s)
  }

  lemma OkRest(step: Stepper, s: seq<nat>, room: nat)
    requires Progresses(step) && s != [] && (step(s).Stop? ==> step(s).status != ConversionOk)
    requires step(s).Emit? ==> |step(s).out| <= room
    ensures IsOk(step, s, room) <==>
      GoesOnWith(step, s) && IsOk(step, s[step(s).used..], room - |step(s).out|)
  {
  }

  /** With room for everything, a converter is content exactly with what its steps decide to be good. */
  lemma {:induction false} OkIsGood(step: Stepper, good: seq<nat> -> bool, fits: seq<nat> -> bool, s: seq<nat>, room: nat)
    requires Progresses(step) && Decides(step, good, fits) && fits(s) && 4 * |s| <= room
    ensures IsOk(step, s, room) <==> good(s)
    decreases |s|
  {
    if s != [] {
      assert DecidesFront(step, good, fits, s);
      OkRest(step, s, room);
      if step(s).Emit? {
        OkIsGood(step, good, fits, s[step(s).used..], room - |step(s).out|);
      }
    }
  }

  lemma ScalarsDecided(s: seq<nat>)
    requires s != []
    ensures DecidesFront(Of(Utf32ToUtf8(true)), (t: seq<nat>) => AllScalar(t), (t: seq<nat>) => true, s)
  {
    assert s == [s[0]] + s[1..];
  }

  /** With room for everything, the strict converter from UTF-32 is content exactly with scalar values. */
  lemma StrictOk32(s: seq<nat>, room: nat)
    requires 4 * |s| <= room
    ensures Progresses(Of(Utf32ToUtf8(true))) && (IsOk(Of(Utf32ToUtf8(true)), s, room) <==> AllScalar(s))
  {
    var good, fits := (t: seq<nat>) => AllScalar(t), (t: seq<nat>) => true;
    AllProgress(Utf32ToUtf8(true));
    forall t: seq<nat> | t != [] ensures DecidesFront(Of(Utf32ToUtf8(true)), good, fits, t) {
      ScalarsDecided(t);
    }
    OkIsGood(Of(Utf32ToUtf8(true)), good, fits, s, room);
  }

  /** s is well-formed UTF-16. */
  ghost predicate IsUtf16(s: seq<nat>) {
    exists chars :: AllScalar(chars) && All(As16(), chars) == s
  }

  lemma FirstUnit(s: seq<nat>)
    requires s != [] && AllBelow(s, 0x10000) && Step16(s, true).Emit? && IsUtf16(s[Step16(s, true).used..])
    ensures IsUtf16(s)
  {
    var e := Step16(s, true);
    var chars :| AllScalar(chars) && All(As16(), chars) == s[e.used..];
    var ch := if e.used == 2 then Paired(s[0], s[1]) else s[0];
    assert Utf16(ch) == s[..e.used];
    assert ([ch] + chars)[1..] == chars;
    assert All(As16(), [ch] + chars) == s[..e.used] + s[e.used..] == s;
  }

  lemma FirstChar(s: seq<nat>)
    requires s != [] && AllBelow(s, 0x10000) && IsUtf16(s)
    ensures Step16(s, true).Emit? && IsUtf16(s[Step16(s, true).used..])
  {
    var chars :| AllScalar(chars) && All(As16(), chars) == s;
    FirstOf16(chars[0], All(As16(), chars[1..]), true);
    assert s[|Utf16(chars[0])|..] == All(As16(), chars[1..]);
  }

  lemma UnitsDecided(s: seq<nat>)
    requires s != [] && AllBelow(s, 0x10000)
    ensures DecidesFront(Of(Utf16ToUtf8(true)), (t: seq<nat>) => IsUtf16(t), (t: seq<nat>) => AllBelow(t, 0x10000), s)
  {
    var e := Step16(s, true);
    assert Of(Utf16ToUtf8(true))(s) == e;
    if e.Emit? && IsUtf16(s[e.used..]) {
      FirstUnit(s);
    }
    if IsUtf16(s) {
      FirstChar(s);
    }
  }

  /** With room for everything, the strict converter from UTF-16 is content exactly with well-formed UTF-16. */
  lemma StrictOk16(s: seq<nat>, room: nat)
    requires AllBelow(s, 0x10000) && 4 * |s| <= room
    ensures Progresses(Of(Utf16ToUtf8(true))) && (IsOk(Of(Utf16ToUtf8(true)), s, room) <==> IsUtf16(s))
  {
    var good, fits := (t: seq<nat>) => IsUtf16(t), (t: seq<nat>) => AllBelow(t, 0x10000);
    AllProgress(Utf16ToUtf8(true));
    assert All(As16(), []) == [] && AllScalar([]);
    forall t: seq<nat> | t != [] && fits(t) ensures DecidesFront(Of(Utf16ToUtf8(true)), good, fits, t) {
      UnitsDecided(t);
    }
    OkIsGood(Of(Utf16ToUtf8(true)), good, fits, s, room);
  }


  /** There and back is the identity on well-formed text, whenever the targets are large enough. */
  ghost predicate RoundTrips(there: Kind, back: Kind, from: Encoder, chars: seq<nat>, room1: nat, room2: nat)
    requires Progresses(Of(there)) && Progresses(Of(back))
  {
    var r1 := Convert(Of(there), All(from, chars), room1);
    r1 == Outcome(|All(from, chars)|, All(As8(), chars), ConversionOk) &&
    Convert(Of(back), r1.out, room2) == Outcome(|r1.out|, All(from, chars), ConversionOk)
  }

  lemma RoundTrip32(chars: seq<nat>, strict: bool, room1: nat, room2: nat)
    requires AllScalar(chars) && |All(As8(), chars)| <= room1 && |All(As32(), chars)| <= room2
    ensures Progresses(Of(Utf32ToUtf8(strict))) && Progresses(Of(Utf8ToUtf32(strict)))
    ensures RoundTrips(Utf32ToUtf8(strict), Utf8ToUtf32(strict), As32(), chars, room1, room2)
  {
    AllProgress(Utf32ToUtf8(strict));
    AllProgress(Utf8ToUtf32(strict));
    Carries32(strict);
    Carries8To32(strict);
    Transcodes(Of(Utf32ToUtf8(strict)), As32(), As8(), chars, room1);
    Transcodes(Of(Utf8ToUtf32(strict)), As8(), As32(), chars, room2);
  }

  lemma RoundTrip16(chars: seq<nat>, strict: bool, room1: nat, room2: nat)
    requires AllScalar(chars) && |All(As8(), chars)| <= room1 && |All(As16(), chars)| <= room2
    ensures Progresses(Of(Utf16ToUtf8(strict))) && Progresses(Of(Utf8ToUtf16(strict)))
    ensures RoundTrips(Utf16ToUtf8(strict), Utf8ToUtf16(strict), As16(), chars, room1, room2)
  {
    AllProgress(Utf16ToUtf8(strict));
    AllProgress(Utf8ToUtf16(strict));
    Carries16(strict);
    Carries8To16(strict);
    Transcodes(Of(Utf16ToUtf8(strict)), As16(), As8(), chars, room1);
    Transcodes(Of(Utf8ToUtf16(strict)), As8(), As16(), chars, room2);
  }

  // ---------- the converters ----------

  /** Conversion has come to position used with target written, and goes on from there. */
  ghost predicate SoFar(step: Stepper, source: seq<nat>, room: nat, used: nat, target: seq<nat>, bad: bool) {
    Progresses(step) && used <= |source| && |target| <= room &&
    Convert(step, source, room) == Prefixed(used, target, bad, Convert(step, source[used..], room - |target|))
  }

  lemma Starts(step: Stepper, source: seq<nat>, room: nat)
    requires Progresses(step)
    ensures SoFar(step, source, room, 0, [], false)
  {
    assert source[0..] == source && [] + Convert(step, source, room).out == Convert(step, source, room).out;
  }

  lemma GoesOn(step: Stepper, source: seq<nat>, room: nat, used: nat, target: seq<nat>, bad: bool)
    requires SoFar(step, source, room, used, target, bad) && used < |source|
    requires step(source[used..]).Emit? && |target| + |step(source[used..]).out| <= room
    ensures var e := step(source[used..]); SoFar(step, source, room, used + e.used, target + e.out, bad || e.bad)
  {
    var e := step(source[used..]);
    ConvertStep(step, source[used..], room - |target|);
    assert source[used..][e.used..] == source[used + e.used..];
    PrefixedTwice(used, target, bad, e.used, e.out, e.bad, Convert(step, source[used + e.used..], room - |target| - |e.out|));
  }

  lemma PrefixedTwice(used: nat, target: seq<nat>, bad: bool, more: nat, out: seq<nat>, worse: bool, r: Outcome)
    ensures Prefixed(used, target, bad, Prefixed(more, out, worse, r)) == Prefixed(used + more, target + out, bad || worse, r)
  {
    assert target + (out + r.out) == (target + out) + r.out;
  }

  lemma Ends(step: Stepper, source: seq<nat>, room: nat, used: nat, target: seq<nat>, bad: bool)
    requires SoFar(step, source, room, used, target, bad)
    ensures used == |source| ==>
      Convert(step, source, room) == Outcome(used, target, if bad then SourceIllegal else ConversionOk)
    ensures used < |source| && step(source[used..]).Emit? && |target| + |step(source[used..]).out| > room ==>
      Convert(step, source, room) == Outcome(used, target, TargetExhausted)
    ensures used < |source| && step(source[used..]).Stop? && step(source[used..]).status != ConversionOk ==>
      Convert(step, source, room) == Outcome(used, target, step(source[used..]).status)
  {
    assert target + [] == target;
  }

  /** The switch that writes a character from its last byte to its first */
  method WriteUtf8(character: nat) returns (bytes: Bytes)
    requires character <= UNI_MAX_LEGAL_UTF32
    ensures bytes == Utf8(character)
  {
    var ch: nat := character;
    var bytesToWrite := if ch < 0x80 then 1 else if ch < 0x800 then 2 else if ch < 0x10000 then 3 else 4;
    bytes := [];
    SixBits(ch);
    if bytesToWrite >= 4 {
      bytes, ch := [0x80 + ch % 64] + bytes, ch / 64;
    }
    if bytesToWrite >= 3 {
      bytes, ch := [0x80 + ch % 64] + bytes, ch / 64;
    }
    if bytesToWrite >= 2 {
      bytes, ch := [0x80 + ch % 64] + bytes, ch / 64;
    }
    var firstByteMark := [0, 0, 0xC0, 0xE0, 0xF0][bytesToWrite];
    bytes := [firstByteMark + ch] + bytes;
  }

  method Next32(source: seq<nat>, used: nat, strict: bool) returns (e: Step)
    requires used < |source|
    ensures e == Of(Utf32ToUtf8(strict))(source[used..])
  {
    var ch := source[used];
    if strict && IsSurrogate(ch) {
      return Stop(SourceIllegal);
    }
    var bad := ch > UNI_MAX_LEGAL_UTF32;
    if bad {
      ch := UNI_REPLACEMENT_CHAR;
    }
    var bytes := WriteUtf8(ch);
    e := Emit(1, bytes, bad);
  }

  method Next16(source: seq<nat>, used: nat, strict: bool) returns (e: Step)
    requires used < |source| && AllBelow(source, 0x10000)
    ensures e == Of(Utf16ToUtf8(strict))(source[used..])
  {
    assert AllBelow(source[used..], 0x10000);
    var ch, n := source[used], 1;
    if IsHigh(ch) {
      if used + 1 < |source| {
        var ch2 := source[used + 1];
        if IsLow(ch2) {
          ch := (ch - UNI_SUR_HIGH_START) * 1024 + (ch2 - UNI_SUR_LOW_START) + HALF_BASE;
          n := 2;
        } else if strict {
          return Stop(SourceIllegal);
        }
      } else {
        return Stop(SourceExhausted);
      }
    } else if strict && IsLow(ch) {
      return Stop(SourceIllegal);
    }
    var bytes := WriteUtf8(ch);
    e := Emit(n, bytes, false);
  }

  /** Joins the bytes of a character, as the falling through switch does. */
  method ReadUtf8(s: Bytes) returns (ch: int)
    requires 1 <= |s| <= 4
    ensures ch == Decode(s)
  {
    ch := 0;
    JoinedBytes(s);
    if |s| >= 4 {
      ch := (ch + s[|s| - 4]) * 64;
    }
    if |s| >= 3 {
      ch := (ch + s[|s| - 3]) * 64;
    }
    if |s| >= 2 {
      ch := (ch + s[|s| - 2]) * 64;
    }
    ch := ch + s[|s| - 1] - Offset(|s| - 1);
  }

  /** The branches for surrogates and for characters that are too large can never be taken here. */
  method Next8(source: Bytes, used: nat, wide: bool) returns (e: Step)
    requires used < |source|
    ensures e == Step8(source[used..], wide)
  {
    ghost var rest := source[used..];
    var len := TrailingBytes(source[used]) + 1;
    if used + len > |source| {
      return Stop(SourceExhausted);
    }
    assert rest[..len] == source[used..used + len];
    var legal := IsLegalUtf8(source[used..used + len]);
    if !legal {
      return Stop(SourceIllegal);
    }
    EncodeDecoded(rest[..len]);
    var ch := ReadUtf8(source[used..used + len]);
    assert !IsSurrogate(ch) && ch <= UNI_MAX_LEGAL_UTF32;
    if wide || ch <= UNI_MAX_BMP {
      e := Emit(len, [ch], false);
    } else {
      var low := ch - HALF_BASE;
      e := Emit(len, [low / 1024 + UNI_SUR_HIGH_START, low % 1024 + UNI_SUR_LOW_START], false);
    }
  }

  /** The source is made of code units of its encoding. */
  predicate SourceOk(kind: Kind, s: seq<nat>) {
    match kind
    case Utf32ToUtf8(_) => true
    case Utf16ToUtf8(_) => AllBelow(s, 0x10000)
    case Utf8ToUtf16(_) => AllBelow(s, 0x100)
    case Utf8ToUtf32(_) => AllBelow(s, 0x100)
  }

  method Next(kind: Kind, source: seq<nat>, used: nat) returns (e: Step)
    requires used < |source| && SourceOk(kind, source)
    ensures e == Of(kind)(source[used..]) && (e.Stop? ==> e.status != ConversionOk)
  {
    match kind {
      case Utf32ToUtf8(strict) => e := Next32(source, used, strict);
      case Utf16ToUtf8(strict) => e := Next16(source, used, strict);
      case Utf8ToUtf16(_) => e := Next8(AsBytes(source), used, false);
      case Utf8ToUtf32(_) => e := Next8(AsBytes(source), used, true);
    }
  }

  /** One round of the loop: either conversion is over, or it goes on behind a character. */
  method Advance(ghost step: Stepper, e: Step, source: seq<nat>, room: nat, used: nat, target: seq<nat>, bad: bool)
    returns (over: Option<Status>, next: nat, more: seq<nat>, worse: bool)
    requires used < |source| && SoFar(step, source, room, used, target, bad)
    requires e == step(source[used..]) && (e.Stop? ==> e.status != ConversionOk)
    ensures over.Some? ==> Convert(step, source, room) == Outcome(used, target, over.value)
    ensures over.None? ==> used < next && SoFar(step, source, room, next, more, worse)
  {
    Ends(step, source, room, used, target, bad);
    next, more, worse := used, target, bad;
    if e.Stop? {
      over := Some(e.status);
    } else if |target| + |e.out| > room {
      over := Some(TargetExhausted);
    } else {
      GoesOn(step, source, room, used, target, bad);
      next, more, worse := used + e.used, target + e.out, bad || e.bad;
      over := None;
    }
  }

  /** The loop that the converters share */
  method ConvertUtf(kind: Kind, source: seq<nat>, room: nat) returns (used: nat, target: seq<nat>, status: Status)
    requires SourceOk(kind, source)
    ensures Progresses(Of(kind)) && Outcome(used, target, status) == Convert(Of(kind), source, room)
  {
    ghost var step := Of(kind);
    AllProgress(kind);
    Starts(step, source, room);
    used, target := 0, [];
    var bad := false;
    while used < |source|
      invariant SoFar(step, source, room, used, target, bad)
      decreases |source| - used
    {
      var e := Next(kind, source, used);
      var over, next, more, worse := Advance(step, e, source, room, used, target, bad);
      if over.Some? {
        return used, target, over.value;
      }
      used, target, bad := next, more, worse;
    }
    Ends(step, source, room, used, target, bad);
    status := if bad then SourceIllegal else ConversionOk;
  }
}
