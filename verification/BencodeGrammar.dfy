/** The language that the parser reads, as a grammar over the bytes: it accepts exactly that, and the writer keeps to its strict
    part (bencode.c; BEP 3). */
module BencodeGrammar {
  import opened Base
  import opened BencodeValues
  import opened BencodeParser
  import opened BencodeRoundTrip

  // ---------- numbers ----------

  predicate AllSpaces(s: Bytes) {
    forall k :: 0 <= k < |s| ==> s[k] == 32 || 9 <= s[k] <= 13
  }

  predicate IsSigned(digits: Bytes, negative: bool, i: int) {
    digits != [] && AllDigits(digits) && i == if negative then -(DigitsValue(digits) as int) else DigitsValue(digits)
  }

  /** t is spaces up to k, a sign between k and d, if there is one, and digits from d on. */
  predicate IsNumberAt(t: Bytes, k: nat, d: nat, i: int) {
    k <= d < |t| && AllSpaces(t[..k]) && (d == k || (d == k + 1 && (t[k] == 43 || t[k] == 45))) &&
    IsSigned(t[d..], d == k + 1 && t[k] == 45, i)
  }

  /** What strtoll takes for i, when it has to use all of t and i fits 64 bits */
  ghost predicate IsNumber(t: Bytes, i: int) {
    -0x8000_0000_0000_0000 <= i <= 0x7fff_ffff_ffff_ffff && ((t == [] && i == 0) || exists k: nat, d: nat :: IsNumberAt(t, k, d, i))
  }

  /** A minus for a negative number, and digits without a leading zero, but for zero itself */
  predicate IsDecimal(t: Bytes, i: int) {
    if i < 0 then t != [] && t[0] == 45 && IsSigned(t[1..], true, i) && t[1] != 48
    else IsSigned(t, false, i) && (t[0] == 48 ==> |t| == 1)
  }

  lemma {:induction false} SpacesSkipped(s: Bytes, k: nat)
    requires k < |s| && AllSpaces(s[..k]) && !IsSpace(s[k])
    ensures SkipSpace(s) == s[k..]
  {
    if k > 0 {
      assert s[..k][0] == s[0];
      assert s[1..][..k - 1] == s[..k][1..];
      SpacesSkipped(s[1..], k - 1);
      assert s[1..][k - 1..] == s[k..];
    }
  }

  lemma {:induction false} SkippedAre(s: Bytes) returns (k: nat)
    ensures k <= |s| && AllSpaces(s[..k]) && SkipSpace(s) == s[k..] && (k < |s| ==> !IsSpace(s[k]))
  {
    if s != [] && IsSpace(s[0]) {
      var n := SkippedAre(s[1..]);
      k := n + 1;
      assert s[..k] == [s[0]] + s[1..][..n];
      assert s[k..] == s[1..][n..];
    } else {
      k := 0;
    }
  }

  lemma StrtollTakes(t: Bytes, k: nat, d: nat, i: int)
    requires IsNumberAt(t, k, d, i) && INT_MIN <= i <= INT_MAX
    ensures Strtoll(t) == Some(i)
  {
    assert t[d] == t[d..][0];
    SpacesSkipped(t, k);
    var u := t[k..];
    assert u[0] == t[k];
    assert d == k + 1 ==> u[1..] == t[d..];
  }

  lemma StrtollTook(t: Bytes)
    requires Strtoll(t).Some? && t != []
    ensures exists k: nat, d: nat :: IsNumberAt(t, k, d, Strtoll(t).value)
  {
    var k := SkippedAre(t);
    var u := t[k..];
    if u != [] && (u[0] == CH_MINUS || u[0] == CH_PLUS) {
      assert u[1..] == t[k + 1..];
      assert IsNumberAt(t, k, k + 1, Strtoll(t).value);
    } else {
      assert IsNumberAt(t, k, k, Strtoll(t).value);
    }
  }

  /** strtoll takes exactly the numbers. */
  lemma StrtollExactly(t: Bytes, i: int)
    ensures Strtoll(t) == Some(i) <==> IsNumber(t, i)
  {
    if Strtoll(t) == Some(i) && t != [] {
      StrtollTook(t);
    }
    if IsNumber(t, i) && t != [] {
      var k: nat, d: nat :| IsNumberAt(t, k, d, i);
      StrtollTakes(t, k, d, i);
    }
  }

  // ---------- scalars ----------

  /** An integer from pos to end; strict is as the writer writes it */
  ghost predicate IntAt(buf: Bytes, pos: nat, i: int, end: nat, strict: bool) {
    pos + 2 <= end <= |buf| && buf[pos] == 105 && buf[end - 1] == 101 && IsIntField(buf[pos + 1..end - 1], i, strict)
  }

  ghost predicate IsIntField(t: Bytes, i: int, strict: bool) {
    101 !in t && IsNumber(t, i) && (i != 0 ==> t != [] && t[0] != 48) && (strict ==> IsDecimal(t, i))
  }

  /** A string, its length before the colon */
  ghost predicate IsStrAt(buf: Bytes, pos: nat, colon: nat, s: Bytes, end: nat, max: nat, strict: bool) {
    pos < colon < end <= |buf| && buf[colon] == 58 && buf[colon + 1..end] == s && |s| <= max &&
    IsSigned(buf[pos..colon], false, |s|) && (strict ==> IsDecimal(buf[pos..colon], |s|))
  }

  ghost predicate StrAt(buf: Bytes, pos: nat, s: Bytes, end: nat, max: nat, strict: bool) {
    exists colon: nat :: IsStrAt(buf, pos, colon, s, end, max, strict)
  }

  lemma IntTaken(buf: Bytes, pos: nat, i: int, end: nat)
    requires IntAt(buf, pos, i, end, false)
    ensures ParseInt(buf, pos) == Got(i, end)
  {
    var t := buf[pos + 1..end - 1];
    assert forall k :: pos + 1 <= k < end - 1 ==> buf[k] == t[k - pos - 1];
    FindByteAt(buf, pos + 1, end - 1, CH_E);
    StrtollExactly(t, i);
  }

  lemma IntTook(buf: Bytes, pos: nat, i: int, end: nat)
    requires pos <= |buf| && ParseInt(buf, pos) == Got(i, end)
    ensures IntAt(buf, pos, i, end, false)
  {
    var t := buf[pos + 1..end - 1];
    StrtollExactly(t, i);
    assert i != 0 ==> t != [] && t[0] == buf[pos + 1];
  }

  lemma IntExactly(buf: Bytes, pos: nat, i: int, end: nat)
    requires pos <= |buf|
    ensures ParseInt(buf, pos) == Got(i, end) <==> IntAt(buf, pos, i, end, false)
  {
    if ParseInt(buf, pos) == Got(i, end) {
      IntTook(buf, pos, i, end);
    }
    if IntAt(buf, pos, i, end, false) {
      IntTaken(buf, pos, i, end);
    }
  }

  lemma StrTaken(buf: Bytes, pos: nat, mem: Memory, colon: nat, s: Bytes, end: nat)
    requires Placed(buf, mem) && IsStrAt(buf, pos, colon, s, end, mem.intMax, false)
    ensures ParseStr(buf, pos, mem) == Got(s, end) && IsDigit(buf[pos])
  {
    var d := buf[pos..colon];
    assert d[0] == buf[pos];
    assert buf[pos..end] == d + [CH_COLON] + s by {
      assert buf[pos..end] == buf[pos..colon] + [buf[colon]] + buf[colon + 1..end];
    }
    LengthBetween(buf, pos, d, s);
    WildExactly(buf, pos, mem);
    EndIsInside(buf, pos, mem);
  }

  lemma StrExactly(buf: Bytes, pos: nat, mem: Memory, s: Bytes, end: nat)
    requires pos <= |buf| && Placed(buf, mem)
    ensures ParseStr(buf, pos, mem) == Got(s, end) <==> StrAt(buf, pos, s, end, mem.intMax, false)
  {
    if ParseStr(buf, pos, mem) == Got(s, end) {
      var (colon, len) := LengthAt(buf, pos).value;
      WildExactly(buf, pos, mem);
      assert IsStrAt(buf, pos, colon, s, end, mem.intMax, false);
    }
    if StrAt(buf, pos, s, end, mem.intMax, false) {
      var colon: nat :| IsStrAt(buf, pos, colon, s, end, mem.intMax, false);
      StrTaken(buf, pos, mem, colon, s, end);
    }
  }

  // ---------- whole values ----------

  /** A byte that is passed over between values */
  predicate IsPassedOver(c: Byte) {
    c != 100 && c != 101 && c != 105 && c != 108 && !(48 <= c <= 57)
  }

  ghost predicate AllPassedOver(buf: Bytes, from: nat, to: nat, strict: bool) {
    from <= to <= |buf| && (forall k :: from <= k < to ==> IsPassedOver(buf[k])) && (strict ==> from == to)
  }

  /** The text of v stands from pos to end, with no string longer than max; strict is without anything to pass over, and with
      numbers as they are written. */
  ghost predicate Denotes(buf: Bytes, pos: nat, v: Benc, end: nat, max: nat, strict: bool)
    decreases v, 0
  {
    match v
    case Int(i) => IntAt(buf, pos, i, end, strict)
    case Bool(_) => false
    case Str(s) => StrAt(buf, pos, s, end, max, strict)
    case List(items) => pos < |buf| && buf[pos] == 108 && ItemsAt(buf, pos + 1, items, end, max, strict)
    case Dict(pairs) => pos < |buf| && buf[pos] == 100 && PairsAt(buf, pos + 1, pairs, end, max, strict)
  }

  /** The items one after the other, and an e */
  ghost predicate ItemsAt(buf: Bytes, pos: nat, items: seq<Benc>, end: nat, max: nat, strict: bool)
    decreases items, 1
  {
    if items == [] then EndsAt(buf, pos, end, strict)
    else exists at: nat, mid: nat :: IsItem(buf, pos, at, mid, items, end, max, strict)
  }

  /** The first item stands from at to mid. */
  ghost predicate IsItem(buf: Bytes, pos: nat, at: nat, mid: nat, items: seq<Benc>, end: nat, max: nat, strict: bool)
    requires items != []
    decreases items, 0
  {
    AllPassedOver(buf, pos, at, strict) && at < mid <= |buf| &&
    Denotes(buf, at, items[0], mid, max, strict) && ItemsAt(buf, mid, items[1..], end, max, strict)
  }

  ghost predicate EndsAt(buf: Bytes, pos: nat, end: nat, strict: bool) {
    pos < end <= |buf| && buf[end - 1] == 101 && AllPassedOver(buf, pos, end - 1, strict)
  }

  /** A string and a value for each pair, and an e */
  ghost predicate PairsAt(buf: Bytes, pos: nat, pairs: seq<Pair>, end: nat, max: nat, strict: bool)
    decreases pairs, 3
  {
    if pairs == [] then EndsAt(buf, pos, end, strict)
    else exists at: nat, mid: nat :: IsKey(buf, pos, at, mid, pairs, end, max, strict)
  }

  /** The first key stands from at to mid. */
  ghost predicate IsKey(buf: Bytes, pos: nat, at: nat, mid: nat, pairs: seq<Pair>, end: nat, max: nat, strict: bool)
    requires pairs != []
    decreases pairs, 2
  {
    AllPassedOver(buf, pos, at, strict) && at < mid <= |buf| &&
    StrAt(buf, at, pairs[0].key, mid, max, strict) && RestAt(buf, mid, pairs, end, max, strict)
  }

  /** The value of the first pair, and the others */
  ghost predicate RestAt(buf: Bytes, pos: nat, pairs: seq<Pair>, end: nat, max: nat, strict: bool)
    requires pairs != []
    decreases pairs, 1
  {
    exists at: nat, mid: nat :: IsVal(buf, pos, at, mid, pairs, end, max, strict)
  }

  /** The first value stands from at to mid. */
  ghost predicate IsVal(buf: Bytes, pos: nat, at: nat, mid: nat, pairs: seq<Pair>, end: nat, max: nat, strict: bool)
    requires pairs != []
    decreases pairs, 0
  {
    AllPassedOver(buf, pos, at, strict) && at < mid <= |buf| &&
    Denotes(buf, at, pairs[0].val, mid, max, strict) && PairsAt(buf, mid, pairs[1..], end, max, strict)
  }

  /** What the open container f becomes when the bytes from pos to end are read */
  ghost predicate Closes(buf: Bytes, pos: nat, f: Frame, v: Benc, end: nat, max: nat) {
    match f
    case ListFrame(items) => v.List? && items <= v.items && ItemsAt(buf, pos, v.items[|items|..], end, max, false)
    case DictFrame(pairs, None) => v.Dict? && pairs <= v.pairs && PairsAt(buf, pos, v.pairs[|pairs|..], end, max, false)
    case DictFrame(pairs, Some(key)) =>
      v.Dict? && pairs < v.pairs && v.pairs[|pairs|].key == key && RestAt(buf, pos, v.pairs[|pairs|..], end, max, false)
  }

  // ---------- what is read is in the language ----------

  lemma PassOver(buf: Bytes, pos: nat, at: nat)
    requires pos < |buf| && IsPassedOver(buf[pos]) && AllPassedOver(buf, pos + 1, at, false)
    ensures AllPassedOver(buf, pos, at, false)
  {
  }

  lemma ItemsLater(buf: Bytes, pos: nat, items: seq<Benc>, end: nat, max: nat)
    requires pos < |buf| && IsPassedOver(buf[pos]) && ItemsAt(buf, pos + 1, items, end, max, false)
    ensures ItemsAt(buf, pos, items, end, max, false)
  {
    if items != [] {
      var at: nat, mid: nat :| IsItem(buf, pos + 1, at, mid, items, end, max, false);
      PassOver(buf, pos, at);
      assert IsItem(buf, pos, at, mid, items, end, max, false);
    }
  }

  lemma PairsLater(buf: Bytes, pos: nat, pairs: seq<Pair>, end: nat, max: nat)
    requires pos < |buf| && IsPassedOver(buf[pos]) && PairsAt(buf, pos + 1, pairs, end, max, false)
    ensures PairsAt(buf, pos, pairs, end, max, false)
  {
    if pairs != [] {
      var at: nat, mid: nat :| IsKey(buf, pos + 1, at, mid, pairs, end, max, false);
      PassOver(buf, pos, at);
      assert IsKey(buf, pos, at, mid, pairs, end, max, false);
    }
  }

  lemma RestLater(buf: Bytes, pos: nat, pairs: seq<Pair>, end: nat, max: nat)
    requires pos < |buf| && IsPassedOver(buf[pos]) && pairs != [] && RestAt(buf, pos + 1, pairs, end, max, false)
    ensures RestAt(buf, pos, pairs, end, max, false)
  {
    var at: nat, mid: nat :| IsVal(buf, pos + 1, at, mid, pairs, end, max, false);
    PassOver(buf, pos, at);
    assert IsVal(buf, pos, at, mid, pairs, end, max, false);
  }

  lemma ClosesLater(buf: Bytes, pos: nat, f: Frame, v: Benc, end: nat, max: nat)
    requires pos < |buf| && IsPassedOver(buf[pos]) && Closes(buf, pos + 1, f, v, end, max)
    ensures Closes(buf, pos, f, v, end, max)
  {
    match f
    case ListFrame(items) => ItemsLater(buf, pos, v.items[|items|..], end, max);
    case DictFrame(pairs, None) => PairsLater(buf, pos, v.pairs[|pairs|..], end, max);
    case DictFrame(pairs, Some(_)) => RestLater(buf, pos, v.pairs[|pairs|..], end, max);
  }

  /** A value, and then what closes the container it has been added to */
  lemma ClosesAround(buf: Bytes, pos: nat, f: Frame, first: Benc, mid: nat, v: Benc, end: nat, max: nat)
    requires pos < mid <= |buf| && Denotes(buf, pos, first, mid, max, false)
    requires Accepts(f, first.Str?) && Closes(buf, mid, Add(f, first), v, end, max)
    ensures Closes(buf, pos, f, v, end, max)
  {
    assert AllPassedOver(buf, pos, pos, false);
    match f
    case ListFrame(items) =>
      var more := v.items[|items|..];
      assert more[0] == first && more[1..] == v.items[|items| + 1..];
      assert IsItem(buf, pos, pos, mid, more, end, max, false);
    case DictFrame(pairs, None) =>
      var more := v.pairs[|pairs|..];
      assert IsKey(buf, pos, pos, mid, more, end, max, false);
    case DictFrame(pairs, Some(key)) =>
      assert v.pairs[|pairs|] == Pair(key, first);
      assert v.pairs[|pairs|..][1..] == v.pairs[|pairs| + 1..];
      assert IsVal(buf, pos, pos, mid, v.pairs[|pairs|..], end, max, false);
  }

  lemma ClosesHere(buf: Bytes, pos: nat, f: Frame, max: nat)
    requires pos < |buf| && buf[pos] == 101 && Close(f).Some?
    ensures Closes(buf, pos, f, Close(f).value, pos + 1, max)
  {
    assert EndsAt(buf, pos, pos + 1, false);
  }

  lemma {:induction false} ReadIsDenoted(buf: Bytes, pos: nat, mem: Memory)
    requires pos < |buf| && StartsValue(buf[pos]) && Placed(buf, mem)
    ensures var r := ParseHere(buf, pos, mem); r.Got? ==> Denotes(buf, pos, r.value, r.end, mem.intMax, false)
    decreases |buf| - pos, 0
  {
    var r := ParseHere(buf, pos, mem);
    if r.Got? {
      if buf[pos] == CH_I {
        IntExactly(buf, pos, r.value.i, r.end);
      } else if buf[pos] == CH_L {
        MembersAreDenoted(buf, pos + 1, mem, ListFrame([]));
        assert r.value.items[0..] == r.value.items;
      } else if buf[pos] == CH_D {
        MembersAreDenoted(buf, pos + 1, mem, DictFrame([], None));
        assert r.value.pairs[0..] == r.value.pairs;
      } else {
        StrExactly(buf, pos, mem, r.value.s, r.end);
      }
    }
  }

  lemma {:induction false} MembersAreDenoted(buf: Bytes, pos: nat, mem: Memory, f: Frame)
    requires pos <= |buf| && Placed(buf, mem)
    ensures var r := ParseMembers(buf, pos, mem, f); r.Got? ==> Closes(buf, pos, f, r.value, r.end, mem.intMax)
    decreases |buf| - pos, 1
  {
    var r := ParseMembers(buf, pos, mem, f);
    if r.Got? {
      if buf[pos] == CH_E {
        ClosesHere(buf, pos, f, mem.intMax);
      } else if StartsValue(buf[pos]) {
        ReadIsDenoted(buf, pos, mem);
        var first := ParseHere(buf, pos, mem);
        MembersAreDenoted(buf, first.end, mem, Add(f, first.value));
        ClosesAround(buf, pos, f, first.value, first.end, r.value, r.end, mem.intMax);
      } else {
        MembersAreDenoted(buf, pos + 1, mem, f);
        ClosesLater(buf, pos, f, r.value, r.end, mem.intMax);
      }
    }
  }

  // ---------- what is in the language is read ----------

  lemma OnePassedOver(buf: Bytes, pos: nat, mem: Memory, f: Frame)
    requires Placed(buf, mem) && pos < |buf| && IsPassedOver(buf[pos])
    ensures SameMembers(buf, mem, pos, f, pos + 1, f)
  {
  }

  lemma {:induction false} PassedOver(buf: Bytes, pos: nat, at: nat, mem: Memory, f: Frame)
    requires Placed(buf, mem) && AllPassedOver(buf, pos, at, false)
    ensures SameMembers(buf, mem, pos, f, at, f)
    decreases at - pos
  {
    if pos < at {
      assert AllPassedOver(buf, pos + 1, at, false);
      PassedOver(buf, pos + 1, at, mem, f);
      OnePassedOver(buf, pos, mem, f);
    }
  }

  /** Recursive descent finds v from pos to end. */
  ghost predicate Reads(buf: Bytes, pos: nat, mem: Memory, v: Benc, end: nat) {
    Placed(buf, mem) && pos < |buf| && StartsValue(buf[pos]) && (IsDigit(buf[pos]) <==> v.Str?) && ParseHere(buf, pos, mem) == Got(v, end)
  }

  lemma OneMember(buf: Bytes, pos: nat, at: nat, mem: Memory, f: Frame, v: Benc, mid: nat)
    requires AllPassedOver(buf, pos, at, false) && Reads(buf, at, mem, v, mid) && Accepts(f, v.Str?)
    ensures mid <= |buf| && ParseMembers(buf, pos, mem, f) == ParseMembers(buf, mid, mem, Add(f, v))
  {
    PassedOver(buf, pos, at, mem, f);
  }

  lemma Closed(buf: Bytes, pos: nat, end: nat, mem: Memory, f: Frame)
    requires Placed(buf, mem) && EndsAt(buf, pos, end, false) && Close(f).Some?
    ensures ParseMembers(buf, pos, mem, f) == Got(Close(f).value, end)
  {
    PassedOver(buf, pos, end - 1, mem, f);
  }

  lemma {:induction false} DenotedIsRead(buf: Bytes, pos: nat, mem: Memory, v: Benc, end: nat)
    requires Placed(buf, mem) && Denotes(buf, pos, v, end, mem.intMax, false)
    ensures Reads(buf, pos, mem, v, end)
    decreases v, 0
  {
    match v
    case Int(i) => IntExactly(buf, pos, i, end);
    case Str(s) =>
      var colon: nat :| IsStrAt(buf, pos, colon, s, end, mem.intMax, false);
      StrTaken(buf, pos, mem, colon, s, end);
    case List(items) =>
      ItemsAreRead(buf, pos + 1, mem, items, [], end);
      assert [] + items == items;
    case Dict(pairs) =>
      PairsAreRead(buf, pos + 1, mem, pairs, [], end);
      assert [] + pairs == pairs;
  }

  lemma {:induction false} ItemsAreRead(buf: Bytes, pos: nat, mem: Memory, items: seq<Benc>, before: seq<Benc>, end: nat)
    requires Placed(buf, mem) && pos <= |buf| && ItemsAt(buf, pos, items, end, mem.intMax, false)
    ensures ParseMembers(buf, pos, mem, ListFrame(before)) == Got(List(before + items), end)
    decreases items, 1
  {
    if items == [] {
      Closed(buf, pos, end, mem, ListFrame(before));
      assert before + [] == before;
    } else {
      var at: nat, mid: nat :| IsItem(buf, pos, at, mid, items, end, mem.intMax, false);
      DenotedIsRead(buf, at, mem, items[0], mid);
      OneMember(buf, pos, at, mem, ListFrame(before), items[0], mid);
      ItemsAreRead(buf, mid, mem, items[1..], before + [items[0]], end);
      assert (before + [items[0]]) + items[1..] == before + items;
    }
  }

  lemma {:induction false} PairsAreRead(buf: Bytes, pos: nat, mem: Memory, pairs: seq<Pair>, before: seq<Pair>, end: nat)
    requires Placed(buf, mem) && pos <= |buf| && PairsAt(buf, pos, pairs, end, mem.intMax, false)
    ensures ParseMembers(buf, pos, mem, DictFrame(before, None)) == Got(Dict(before + pairs), end)
    decreases pairs, 1
  {
    if pairs == [] {
      Closed(buf, pos, end, mem, DictFrame(before, None));
      assert before + [] == before;
    } else {
      var at: nat, mid: nat :| IsKey(buf, pos, at, mid, pairs, end, mem.intMax, false);
      KeyIsRead(buf, pos, at, mem, before, pairs[0].key, mid);
      RestIsRead(buf, mid, mem, pairs, before, end);
    }
  }

  lemma KeyIsRead(buf: Bytes, pos: nat, at: nat, mem: Memory, before: seq<Pair>, key: Bytes, mid: nat)
    requires Placed(buf, mem) && AllPassedOver(buf, pos, at, false) && at < mid <= |buf| && StrAt(buf, at, key, mid, mem.intMax, false)
    ensures ParseMembers(buf, pos, mem, DictFrame(before, None)) == ParseMembers(buf, mid, mem, DictFrame(before, Some(key)))
  {
    var colon: nat :| IsStrAt(buf, at, colon, key, mid, mem.intMax, false);
    StrTaken(buf, at, mem, colon, key, mid);
    OneMember(buf, pos, at, mem, DictFrame(before, None), Str(key), mid);
  }

  lemma {:induction false} RestIsRead(buf: Bytes, pos: nat, mem: Memory, pairs: seq<Pair>, before: seq<Pair>, end: nat)
    requires Placed(buf, mem) && pos <= |buf| && pairs != [] && RestAt(buf, pos, pairs, end, mem.intMax, false)
    ensures ParseMembers(buf, pos, mem, DictFrame(before, Some(pairs[0].key))) == Got(Dict(before + pairs), end)
    decreases pairs, 0
  {
    var at: nat, mid: nat :| IsVal(buf, pos, at, mid, pairs, end, mem.intMax, false);
    DenotedIsRead(buf, at, mem, pairs[0].val, mid);
    OneMember(buf, pos, at, mem, DictFrame(before, Some(pairs[0].key)), pairs[0].val, mid);
    PairsAreRead(buf, mid, mem, pairs[1..], before + [pairs[0]], end);
    assert (before + [pairs[0]]) + pairs[1..] == before + pairs;
  }

  // ---------- the language ----------

  lemma {:induction false} ValueIsFound(buf: Bytes, pos: nat, at: nat, mem: Memory)
    requires Placed(buf, mem) && AllPassedOver(buf, pos, at, false) && at < |buf| && StartsValue(buf[at])
    ensures ParseValue(buf, pos, mem) == ParseHere(buf, at, mem)
    decreases at - pos
  {
    if pos < at {
      ValueIsFound(buf, pos + 1, at, mem);
    }
  }

  lemma {:induction false} FoundValue(buf: Bytes, pos: nat, mem: Memory) returns (at: nat)
    requires pos <= |buf| && Placed(buf, mem) && ParseValue(buf, pos, mem).Got?
    ensures AllPassedOver(buf, pos, at, false) && at < |buf| && StartsValue(buf[at]) && ParseValue(buf, pos, mem) == ParseHere(buf, at, mem)
    decreases |buf| - pos
  {
    if StartsValue(buf[pos]) {
      at := pos;
    } else {
      at := FoundValue(buf, pos + 1, mem);
    }
  }

  /** Parsing gives v and stops at end exactly if the text of v stands in the buffer up to there, with nothing before it but bytes
      that begin nothing. */
  lemma ParsesExactly(buf: Bytes, mem: Memory, v: Benc, end: nat)
    requires Placed(buf, mem)
    ensures ParseValue(buf, 0, mem) == Got(v, end) <==>
      exists at: nat :: AllPassedOver(buf, 0, at, false) && Denotes(buf, at, v, end, mem.intMax, false)
  {
    if ParseValue(buf, 0, mem) == Got(v, end) {
      var at := FoundValue(buf, 0, mem);
      ReadIsDenoted(buf, at, mem);
    }
    if at: nat :| AllPassedOver(buf, 0, at, false) && Denotes(buf, at, v, end, mem.intMax, false) {
      DenotedIsRead(buf, at, mem, v, end);
      ValueIsFound(buf, 0, at, mem);
    }
  }

  // ---------- the text of the writer ----------

  lemma {:induction false} DigitsUnique(s: Bytes)
    requires s != [] && AllDigits(s) && (s[0] == 48 ==> |s| == 1)
    ensures Digits(DigitsValue(s)) == s
  {
    var n := |s| - 1;
    if n == 0 {
      assert DigitsValue(s[..0]) == 0;
    } else {
      var t := s[..n];
      assert t[0] == s[0];
      DigitsUnique(t);
      assert DigitsValue(t) != 0;
      assert s == t + [s[n]];
    }
  }

  /** A number has one decimal text. */
  lemma DecimalIsText(t: Bytes, i: int)
    ensures IsDecimal(t, i) <==> t == IntText(i)
  {
    DigitsRoundTrip(if i < 0 then -i else i);
    if IsDecimal(t, i) {
      if i < 0 {
        assert t[1] == t[1..][0] && t == [CH_MINUS] + t[1..];
        DigitsUnique(t[1..]);
      } else {
        DigitsUnique(t);
      }
    }
    if i < 0 && t == IntText(i) {
      assert t[1..] == Digits(-i);
    }
  }

  lemma SplitText(buf: Bytes, pos: nat, mid: nat, end: nat, a: Bytes, b: Bytes)
    requires pos <= mid <= end <= |buf| && buf[pos..mid] == a && buf[mid..end] == b
    ensures buf[pos..end] == a + b
  {
  }

  /** The strict field of an integer is its decimal text. */
  lemma FieldIsText(t: Bytes, i: int)
    ensures IsIntField(t, i, true) <==> t == IntText(i) && INT_MIN <= i <= INT_MAX
  {
    DecimalIsText(t, i);
    StrtollExactly(t, i);
    if INT_MIN <= i <= INT_MAX {
      IntTextRoundTrip(i);
    }
  }

  lemma Framed(buf: Bytes, pos: nat, end: nat, t: Bytes)
    requires pos + 2 <= end <= |buf|
    ensures buf[pos..end] == [CH_I] + t + [CH_E] <==> buf[pos] == CH_I && buf[end - 1] == CH_E && buf[pos + 1..end - 1] == t
  {
    assert buf[pos..end] == [buf[pos]] + buf[pos + 1..end - 1] + [buf[end - 1]];
    if buf[pos..end] == [CH_I] + t + [CH_E] {
      assert buf[pos] == buf[pos..end][0] && buf[end - 1] == buf[pos..end][end - pos - 1];
      assert buf[pos + 1..end - 1] == buf[pos..end][1..end - pos - 1];
    }
  }

  lemma IntIsText(buf: Bytes, pos: nat, i: int, end: nat)
    requires IntAt(buf, pos, i, end, true)
    ensures buf[pos..end] == Text(Int(i)) && INT_MIN <= i <= INT_MAX
  {
    var t := buf[pos + 1..end - 1];
    FieldIsText(t, i);
    Framed(buf, pos, end, t);
  }

  lemma StrIsText(buf: Bytes, pos: nat, s: Bytes, end: nat, max: nat)
    requires StrAt(buf, pos, s, end, max, true)
    ensures pos <= end <= |buf| && buf[pos..end] == StrText(s) && |s| <= max
  {
    var colon: nat :| IsStrAt(buf, pos, colon, s, end, max, true);
    DecimalIsText(buf[pos..colon], |s|);
    SplitText(buf, pos, colon, colon + 1, Digits(|s|), [CH_COLON]);
    SplitText(buf, pos, colon + 1, end, Digits(|s|) + [CH_COLON], s);
  }

  /** The strict part of the language has one text for each value, the writer's. */
  lemma {:induction false} StrictIsText(buf: Bytes, pos: nat, v: Benc, end: nat, max: nat)
    requires Denotes(buf, pos, v, end, max, true)
    ensures Plain(v, max) && pos <= end <= |buf| && buf[pos..end] == Text(v)
    decreases v, 0
  {
    match v
    case Int(i) => IntIsText(buf, pos, i, end);
    case Str(s) => StrIsText(buf, pos, s, end, max);
    case List(items) =>
      ItemsAreText(buf, pos + 1, items, end, max);
      SplitText(buf, pos, pos + 1, end, [CH_L], TextOfAll(items) + [CH_E]);
      assert [CH_L] + (TextOfAll(items) + [CH_E]) == Text(v);
    case Dict(pairs) =>
      PairsAreText(buf, pos + 1, pairs, end, max);
      SplitText(buf, pos, pos + 1, end, [CH_D], TextOfPairs(pairs) + [CH_E]);
      assert [CH_D] + (TextOfPairs(pairs) + [CH_E]) == Text(v);
  }

  lemma {:induction false} ItemsAreText(buf: Bytes, pos: nat, items: seq<Benc>, end: nat, max: nat)
    requires ItemsAt(buf, pos, items, end, max, true)
    ensures AllPlain(items, max) && pos <= end <= |buf| && buf[pos..end] == TextOfAll(items) + [CH_E]
    decreases items, 1
  {
    if items != [] {
      var at: nat, mid: nat :| IsItem(buf, pos, at, mid, items, end, max, true);
      StrictIsText(buf, pos, items[0], mid, max);
      ItemsAreText(buf, mid, items[1..], end, max);
      SplitText(buf, pos, mid, end, Text(items[0]), TextOfAll(items[1..]) + [CH_E]);
      assert Text(items[0]) + (TextOfAll(items[1..]) + [CH_E]) == TextOfAll(items) + [CH_E];
    }
  }

  lemma {:induction false} PairsAreText(buf: Bytes, pos: nat, pairs: seq<Pair>, end: nat, max: nat)
    requires PairsAt(buf, pos, pairs, end, max, true)
    ensures PairsPlain(pairs, max) && pos <= end <= |buf| && buf[pos..end] == TextOfPairs(pairs) + [CH_E]
    decreases pairs, 1
  {
    if pairs != [] {
      var at: nat, mid: nat :| IsKey(buf, pos, at, mid, pairs, end, max, true);
      StrIsText(buf, pos, pairs[0].key, mid, max);
      var next := RestIsText(buf, mid, pairs, end, max);
      PairText(buf, pos, mid, next, end, pairs);
    }
  }

  lemma {:induction false} RestIsText(buf: Bytes, pos: nat, pairs: seq<Pair>, end: nat, max: nat) returns (next: nat)
    requires pairs != [] && RestAt(buf, pos, pairs, end, max, true)
    ensures Plain(pairs[0].val, max) && PairsPlain(pairs[1..], max) && pos <= next <= end <= |buf|
    ensures buf[pos..next] == Text(pairs[0].val) && buf[next..end] == TextOfPairs(pairs[1..]) + [CH_E]
    decreases pairs, 0
  {
    var at: nat;
    at, next :| IsVal(buf, pos, at, next, pairs, end, max, true);
    StrictIsText(buf, pos, pairs[0].val, next, max);
    PairsAreText(buf, next, pairs[1..], end, max);
  }

  lemma PairText(buf: Bytes, pos: nat, mid: nat, next: nat, end: nat, pairs: seq<Pair>)
    requires pairs != [] && pos <= mid <= next <= end <= |buf|
    requires buf[pos..mid] == StrText(pairs[0].key) && buf[mid..next] == Text(pairs[0].val)
    requires buf[next..end] == TextOfPairs(pairs[1..]) + [CH_E]
    ensures buf[pos..end] == TextOfPairs(pairs) + [CH_E]
  {
    var k, v, r := StrText(pairs[0].key), Text(pairs[0].val), TextOfPairs(pairs[1..]);
    SplitText(buf, pos, mid, next, k, v);
    SplitText(buf, pos, next, end, k + v, r + [CH_E]);
    assert k + v + (r + [CH_E]) == (k + v + r) + [CH_E];
  }

  lemma TextIsInt(buf: Bytes, pos: nat, i: int)
    requires INT_MIN <= i <= INT_MAX && TextAt(buf, pos, Text(Int(i)))
    ensures IntAt(buf, pos, i, pos + |Text(Int(i))|, true)
  {
    FieldIsText(IntText(i), i);
    Framed(buf, pos, pos + |Text(Int(i))|, IntText(i));
  }

  lemma TextIsStr(buf: Bytes, pos: nat, s: Bytes, max: nat)
    requires |s| <= max && TextAt(buf, pos, StrText(s))
    ensures StrAt(buf, pos, s, pos + |StrText(s)|, max, true)
  {
    var d := Digits(|s|);
    DigitsRoundTrip(|s|);
    DecimalIsText(d, |s|);
    assert d + [CH_COLON] + s == d + ([CH_COLON] + s);
    TextAtSplit(buf, pos, d, [CH_COLON] + s);
    TextAtSplit(buf, pos + |d|, [CH_COLON], s);
    var colon := pos + |d|;
    assert buf[colon] == buf[colon..colon + 1][0];
    assert IsStrAt(buf, pos, colon, s, pos + |StrText(s)|, max, true);
  }

  lemma EndOfText(buf: Bytes, pos: nat)
    requires TextAt(buf, pos, [CH_E])
    ensures EndsAt(buf, pos, pos + 1, true)
  {
    assert buf[pos] == buf[pos..pos + 1][0];
  }

  lemma {:induction false} TextIsStrict(buf: Bytes, pos: nat, v: Benc, max: nat)
    requires Plain(v, max) && TextAt(buf, pos, Text(v))
    ensures Denotes(buf, pos, v, pos + |Text(v)|, max, true)
    decreases v, 0
  {
    match v
    case Int(i) => TextIsInt(buf, pos, i);
    case Str(s) => TextIsStr(buf, pos, s, max);
    case List(items) =>
      OpenBracket(buf, pos, CH_L, TextOfAll(items));
      TextIsItems(buf, pos + 1, items, max);
    case Dict(pairs) =>
      OpenBracket(buf, pos, CH_D, TextOfPairs(pairs));
      TextIsPairs(buf, pos + 1, pairs, max);
  }

  lemma {:induction false} TextIsItems(buf: Bytes, pos: nat, items: seq<Benc>, max: nat)
    requires AllPlain(items, max) && TextAt(buf, pos, TextOfAll(items) + [CH_E])
    ensures ItemsAt(buf, pos, items, pos + |TextOfAll(items)| + 1, max, true)
    decreases items, 1
  {
    if items == [] {
      assert TextOfAll(items) + [CH_E] == [CH_E];
      EndOfText(buf, pos);
    } else {
      var end := pos + |TextOfAll(items)| + 1;
      var mid := FirstItem(buf, pos, items);
      TextIsStrict(buf, pos, items[0], max);
      TextIsItems(buf, mid, items[1..], max);
      TextNotEmpty(items[0]);
      assert IsItem(buf, pos, pos, mid, items, end, max, true);
    }
  }

  lemma TextNotEmpty(v: Benc)
    ensures Text(v) != []
  {
    if v.Str? {
      DigitsRoundTrip(|v.s|);
    }
  }

  lemma {:induction false} TextIsPairs(buf: Bytes, pos: nat, pairs: seq<Pair>, max: nat)
    requires PairsPlain(pairs, max) && TextAt(buf, pos, TextOfPairs(pairs) + [CH_E])
    ensures PairsAt(buf, pos, pairs, pos + |TextOfPairs(pairs)| + 1, max, true)
    decreases pairs, 1
  {
    if pairs == [] {
      assert TextOfPairs(pairs) + [CH_E] == [CH_E];
      EndOfText(buf, pos);
    } else {
      var end := pos + |TextOfPairs(pairs)| + 1;
      var mid, next := FirstPair(buf, pos, pairs);
      TextIsStr(buf, pos, pairs[0].key, max);
      TextIsStrict(buf, mid, pairs[0].val, max);
      TextIsPairs(buf, next, pairs[1..], max);
      TextNotEmpty(pairs[0].val);
      DigitsRoundTrip(|pairs[0].key|);
      PairHere(buf, pos, mid, next, pairs, end, max);
    }
  }

  /** A key, its value and the other pairs, with nothing between them */
  lemma PairHere(buf: Bytes, pos: nat, mid: nat, next: nat, pairs: seq<Pair>, end: nat, max: nat)
    requires pairs != [] && pos < mid < next <= |buf| && StrAt(buf, pos, pairs[0].key, mid, max, true)
    requires Denotes(buf, mid, pairs[0].val, next, max, true) && PairsAt(buf, next, pairs[1..], end, max, true)
    ensures PairsAt(buf, pos, pairs, end, max, true)
  {
    assert IsVal(buf, mid, mid, next, pairs, end, max, true);
    assert IsKey(buf, pos, pos, mid, pairs, end, max, true);
  }

  lemma WrittenIsStrict(v: Benc, max: nat)
    requires Representable(v, max)
    ensures Denotes(Serialised(v), 0, Canon(v), |Serialised(v)|, max, true)
  {
    var text := Serialised(v);
    CanonIsPlain(v, max);
    assert text[0..|text|] == text;
    TextIsStrict(text, 0, Canon(v), max);
  }

  lemma StrictIsWritten(v: Benc, text: Bytes, max: nat)
    requires Denotes(text, 0, Canon(v), |text|, max, true)
    ensures text == Serialised(v)
  {
    StrictIsText(text, 0, Canon(v), |text|, max);
    assert text[0..|text|] == text;
  }

  /** Bencode has no booleans: they are written as the integers 1 and 0. */
  lemma BoolIsWritten(b: bool)
    ensures Serialised(Bool(b)) == [105, if b then 49 else 48, 101]
  {
    assert Digits(1) == [49] && Digits(0) == [48];
    assert Serialised(Bool(b)) == [CH_I] + Digits(if b then 1 else 0) + [CH_E];
  }

  /** What the writer makes of a value is the one strict text of its canonical form. */
  lemma WrittenExactly(v: Benc, text: Bytes, max: nat)
    requires Representable(v, max)
    ensures text == Serialised(v) <==> Denotes(text, 0, Canon(v), |text|, max, true)
  {
    if text == Serialised(v) {
      WrittenIsStrict(v, max);
    } else if Denotes(text, 0, Canon(v), |text|, max, true) {
      StrictIsWritten(v, text, max);
    }
  }
}
