/** Parsing what has been serialised gives the canonical form of the value back, and stops exactly at
    its end, whatever follows (bencode.c). */
module BencodeRoundTrip {
  import opened Base
  import opened BencodeValues
  import opened BencodeParser

  /** t stands in buf at pos */
  ghost predicate TextAt(buf: Bytes, pos: nat, t: Bytes) {
    pos + |t| <= |buf| && buf[pos..pos + |t|] == t
  }

  lemma TextAtSplit(buf: Bytes, pos: nat, s: Bytes, t: Bytes)
    requires TextAt(buf, pos, s + t)
    ensures TextAt(buf, pos, s) && TextAt(buf, pos + |s|, t)
  {
    assert buf[pos..pos + |s|] == (s + t)[..|s|];
    assert buf[pos + |s|..pos + |s| + |t|] == (s + t)[|s|..];
  }

  lemma TextBytes(buf: Bytes, pos: nat, t: Bytes)
    requires TextAt(buf, pos, t)
    ensures forall k :: pos <= k < pos + |t| ==> buf[k] == t[k - pos]
  {
    assert forall k :: pos <= k < pos + |t| ==> buf[k] == buf[pos..pos + |t|][k - pos];
  }

  /** What the parser can return: no booleans, and numbers that fit */
  predicate Plain(v: Benc, max: nat)
    decreases v, 0
  {
    match v
    case Int(i) => INT_MIN <= i <= INT_MAX
    case Bool(_) => false
    case Str(s) => |s| <= max
    case List(items) => AllPlain(items, max)
    case Dict(pairs) => PairsPlain(pairs, max)
  }

  predicate AllPlain(items: seq<Benc>, max: nat)
    decreases items, 1
  {
    items == [] || (Plain(items[0], max) && AllPlain(items[1..], max))
  }

  predicate PairsPlain(pairs: seq<Pair>, max: nat)
    decreases pairs, 1
  {
    pairs == [] || (|pairs[0].key| <= max && Plain(pairs[0].val, max) && PairsPlain(pairs[1..], max))
  }

  // ---------- scalars ----------

  lemma FindByteAt(buf: Bytes, from: nat, at: nat, c: Byte)
    requires from <= at < |buf| && buf[at] == c && forall k :: from <= k < at ==> buf[k] != c
    ensures FindByte(buf, from, c) == at
  {
  }

  lemma StrtollDigits(s: Bytes)
    requires s != [] && AllDigits(s)
    ensures DigitsValue(s) <= INT_MAX ==> Strtoll(s) == Some(DigitsValue(s))
    ensures INT_MIN <= 0 - DigitsValue(s) ==> Strtoll([CH_MINUS] + s) == Some(0 - DigitsValue(s))
  {
    assert SkipSpace(s) == s;
    var t := [CH_MINUS] + s;
    assert SkipSpace(t) == t && t[1..] == s;
  }

  lemma IntTextRoundTrip(i: int)
    requires INT_MIN <= i <= INT_MAX
    ensures IntText(i) != [] && Strtoll(IntText(i)) == Some(i)
    ensures forall k :: 0 <= k < |IntText(i)| ==> IntText(i)[k] != CH_E
    ensures IntText(i)[0] == 48 ==> i == 0
  {
    var n: nat := if i < 0 then -i else i;
    DigitsRoundTrip(n);
    StrtollDigits(Digits(n));
  }

  lemma EndBetween(buf: Bytes, pos: nat, t: Bytes)
    requires TextAt(buf, pos, [CH_I] + t + [CH_E]) && t != [] && forall k :: 0 <= k < |t| ==> t[k] != CH_E
    ensures buf[pos] == CH_I && TextAt(buf, pos + 1, t) && FindByte(buf, pos + 1, CH_E) == pos + 1 + |t| < |buf|
  {
    var end := pos + 1 + |t|;
    assert [CH_I] + t + [CH_E] == [CH_I] + (t + [CH_E]);
    TextAtSplit(buf, pos, [CH_I], t + [CH_E]);
    TextAtSplit(buf, pos + 1, t, [CH_E]);
    assert buf[pos] == buf[pos..pos + 1][0] && buf[end] == buf[end..end + 1][0];
    TextBytes(buf, pos + 1, t);
    FindByteAt(buf, pos + 1, end, CH_E);
  }

  /** Between i and e, the first e ends the number. */
  lemma ParseIntBetween(buf: Bytes, pos: nat, t: Bytes, i: int)
    requires TextAt(buf, pos, [CH_I] + t + [CH_E]) && t != [] && forall k :: 0 <= k < |t| ==> t[k] != CH_E
    requires Strtoll(t) == Some(i) && (t[0] == 48 ==> i == 0)
    ensures ParseInt(buf, pos) == Got(i, pos + |t| + 2)
  {
    EndBetween(buf, pos, t);
    TextBytes(buf, pos + 1, t);
    assert buf[pos + 1] == t[0] && buf[pos + 1..pos + 1 + |t|] == t;
  }

  lemma ParseIntText(buf: Bytes, pos: nat, i: int)
    requires INT_MIN <= i <= INT_MAX && TextAt(buf, pos, [CH_I] + IntText(i) + [CH_E])
    ensures ParseInt(buf, pos) == Got(i, pos + |IntText(i)| + 2)
  {
    IntTextRoundTrip(i);
    ParseIntBetween(buf, pos, IntText(i), i);
  }

  lemma LengthBetween(buf: Bytes, pos: nat, d: Bytes, s: Bytes)
    requires TextAt(buf, pos, d + [CH_COLON] + s) && d != [] && AllDigits(d) && Strtoul(d) == Some(|s|)
    ensures LengthAt(buf, pos) == Some((pos + |d|, |s|)) && TextAt(buf, pos + |d| + 1, s)
  {
    var end := pos + |d|;
    assert d + [CH_COLON] + s == d + ([CH_COLON] + s);
    TextAtSplit(buf, pos, d, [CH_COLON] + s);
    TextAtSplit(buf, end, [CH_COLON], s);
    assert buf[end] == buf[end..end + 1][0];
    TextBytes(buf, pos, d);
    FindByteAt(buf, pos, end, CH_COLON);
  }

  lemma ParseStrText(buf: Bytes, pos: nat, mem: Memory, s: Bytes)
    requires |s| <= mem.intMax && TextAt(buf, pos, StrText(s)) && Placed(buf, mem)
    ensures pos < |buf| && IsDigit(buf[pos]) && ParseStr(buf, pos, mem) == Got(s, pos + |StrText(s)|)
  {
    var d := Digits(|s|);
    DigitsRoundTrip(|s|);
    LengthBetween(buf, pos, d, s);
    WildExactly(buf, pos, mem);
    EndIsInside(buf, pos, mem);
  }

  // ---------- whole values ----------

  /** Recursive descent finds the value v from pos to end. */
  ghost predicate ValueAt(buf: Bytes, pos: nat, mem: Memory, v: Benc, end: nat) {
    Placed(buf, mem) && pos < |buf| && StartsValue(buf[pos]) && (IsDigit(buf[pos]) <==> v.Str?) && ParseHere(buf, pos, mem) == Got(v, end)
  }

  /** The open container f closes into v at end. */
  ghost predicate MembersAt(buf: Bytes, pos: nat, mem: Memory, f: Frame, v: Benc, end: nat) {
    Placed(buf, mem) && pos <= |buf| && ParseMembers(buf, pos, mem, f) == Got(v, end)
  }

  ghost predicate SameMembers(buf: Bytes, mem: Memory, pos: nat, f: Frame, next: nat, g: Frame) {
    Placed(buf, mem) && pos <= |buf| && next <= |buf| && ParseMembers(buf, pos, mem, f) == ParseMembers(buf, next, mem, g)
  }

  lemma OpenBracket(buf: Bytes, pos: nat, c: Byte, t: Bytes)
    requires TextAt(buf, pos, [c] + t + [CH_E])
    ensures pos < |buf| && buf[pos] == c && TextAt(buf, pos + 1, t + [CH_E])
  {
    assert [c] + t + [CH_E] == [c] + (t + [CH_E]);
    TextAtSplit(buf, pos, [c], t + [CH_E]);
    assert buf[pos] == buf[pos..pos + 1][0];
  }

  lemma {:induction false} ParseTextHere(buf: Bytes, pos: nat, mem: Memory, v: Benc)
    requires Plain(v, mem.intMax) && TextAt(buf, pos, Text(v)) && Placed(buf, mem)
    ensures ValueAt(buf, pos, mem, v, pos + |Text(v)|)
    decreases v, 0
  {
    match v
    case Int(i) =>
      assert buf[pos] == Text(v)[0];
      ParseIntText(buf, pos, i);
    case Str(s) =>
      ParseStrText(buf, pos, mem, s);
    case List(items) =>
      OpenBracket(buf, pos, CH_L, TextOfAll(items));
      ParseItems(buf, pos + 1, mem, items, [], pos + |Text(v)|);
      assert [] + items == items;
    case Dict(pairs) =>
      OpenBracket(buf, pos, CH_D, TextOfPairs(pairs));
      ParsePairs(buf, pos + 1, mem, pairs, [], pos + |Text(v)|);
      assert [] + pairs == pairs;
  }

  lemma {:induction false} ParseItems(buf: Bytes, pos: nat, mem: Memory, items: seq<Benc>, before: seq<Benc>, end: nat)
    requires Placed(buf, mem) && AllPlain(items, mem.intMax) && TextAt(buf, pos, TextOfAll(items) + [CH_E])
    requires end == pos + |TextOfAll(items)| + 1
    ensures MembersAt(buf, pos, mem, ListFrame(before), List(before + items), end)
    decreases items, 1
  {
    if items == [] {
      assert buf[pos..pos + 1][0] == CH_E;
      assert before + items == before;
    } else {
      var mid := FirstItem(buf, pos, items);
      ParseTextHere(buf, pos, mem, items[0]);
      ParseItems(buf, mid, mem, items[1..], before + [items[0]], end);
      assert (before + [items[0]]) + items[1..] == before + items;
    }
  }

  lemma FirstItem(buf: Bytes, pos: nat, items: seq<Benc>) returns (mid: nat)
    requires items != [] && TextAt(buf, pos, TextOfAll(items) + [CH_E])
    ensures mid == pos + |Text(items[0])| && pos + |TextOfAll(items)| == mid + |TextOfAll(items[1..])|
    ensures TextAt(buf, pos, Text(items[0])) && TextAt(buf, mid, TextOfAll(items[1..]) + [CH_E])
  {
    var first, rest := Text(items[0]), TextOfAll(items[1..]);
    assert (first + rest) + [CH_E] == first + (rest + [CH_E]);
    TextAtSplit(buf, pos, first, rest + [CH_E]);
    mid := pos + |first|;
  }

  lemma {:induction false} ParsePairs(buf: Bytes, pos: nat, mem: Memory, pairs: seq<Pair>, before: seq<Pair>, end: nat)
    requires Placed(buf, mem) && PairsPlain(pairs, mem.intMax) && TextAt(buf, pos, TextOfPairs(pairs) + [CH_E])
    requires end == pos + |TextOfPairs(pairs)| + 1
    ensures MembersAt(buf, pos, mem, DictFrame(before, None), Dict(before + pairs), end)
    decreases pairs, 1
  {
    if pairs == [] {
      assert buf[pos..pos + 1][0] == CH_E;
      assert before + pairs == before;
    } else {
      var next := ParseFirstPair(buf, pos, mem, pairs, before);
      ParsePairs(buf, next, mem, pairs[1..], before + [pairs[0]], end);
      assert (before + [pairs[0]]) + pairs[1..] == before + pairs;
    }
  }

  lemma {:induction false} ParseFirstPair(buf: Bytes, pos: nat, mem: Memory, pairs: seq<Pair>, before: seq<Pair>) returns (end: nat)
    requires Placed(buf, mem) && pairs != [] && PairsPlain(pairs, mem.intMax) && TextAt(buf, pos, TextOfPairs(pairs) + [CH_E])
    ensures TextAt(buf, end, TextOfPairs(pairs[1..]) + [CH_E])
    ensures pos + |TextOfPairs(pairs)| == end + |TextOfPairs(pairs[1..])|
    ensures SameMembers(buf, mem, pos, DictFrame(before, None), end, DictFrame(before + [pairs[0]], None))
    decreases pairs, 0
  {
    var mid;
    mid, end := FirstPair(buf, pos, pairs);
    ParseStrText(buf, pos, mem, pairs[0].key);
    assert ValueAt(buf, pos, mem, Str(pairs[0].key), mid);
    ParseTextHere(buf, mid, mem, pairs[0].val);
    OnePair(buf, pos, mem, before, pairs[0], mid, end);
  }

  lemma FirstPair(buf: Bytes, pos: nat, pairs: seq<Pair>) returns (mid: nat, end: nat)
    requires pairs != [] && TextAt(buf, pos, TextOfPairs(pairs) + [CH_E])
    ensures mid == pos + |StrText(pairs[0].key)| && end == mid + |Text(pairs[0].val)|
    ensures pos + |TextOfPairs(pairs)| == end + |TextOfPairs(pairs[1..])|
    ensures TextAt(buf, pos, StrText(pairs[0].key)) && TextAt(buf, mid, Text(pairs[0].val))
    ensures TextAt(buf, end, TextOfPairs(pairs[1..]) + [CH_E])
  {
    var key, first, rest := StrText(pairs[0].key), Text(pairs[0].val), TextOfPairs(pairs[1..]);
    SplitThree(buf, pos, key, first, rest);
    mid := pos + |key|;
    end := mid + |first|;
  }

  lemma SplitThree(buf: Bytes, pos: nat, a: Bytes, b: Bytes, c: Bytes)
    requires TextAt(buf, pos, a + b + c + [CH_E])
    ensures TextAt(buf, pos, a) && TextAt(buf, pos + |a|, b) && TextAt(buf, pos + |a| + |b|, c + [CH_E])
  {
    assert a + b + c + [CH_E] == a + (b + (c + [CH_E]));
    TextAtSplit(buf, pos, a, b + (c + [CH_E]));
    TextAtSplit(buf, pos + |a|, b, c + [CH_E]);
  }

  lemma OnePair(buf: Bytes, pos: nat, mem: Memory, before: seq<Pair>, p: Pair, mid: nat, end: nat)
    requires ValueAt(buf, pos, mem, Str(p.key), mid) && ValueAt(buf, mid, mem, p.val, end)
    ensures SameMembers(buf, mem, pos, DictFrame(before, None), end, DictFrame(before + [p], None))
  {
    assert ParseMembers(buf, pos, mem, DictFrame(before, None)) == ParseMembers(buf, mid, mem, DictFrame(before, Some(p.key)));
  }

  // ---------- the canonical form ----------

  lemma {:induction false} InsertPairPlain(p: Pair, s: seq<Pair>, max: nat)
    requires PairsPlain(s, max) && |p.key| <= max && Plain(p.val, max)
    ensures PairsPlain(InsertPair(p, s), max)
  {
    if s == [] || StrCmp(p.key, s[0].key) <= 0 {
      assert ([p] + s)[1..] == s;
    } else {
      InsertPairPlain(p, s[1..], max);
      assert InsertPair(p, s)[1..] == InsertPair(p, s[1..]);
    }
  }

  lemma {:induction false} SortPairsPlain(s: seq<Pair>, max: nat)
    requires PairsPlain(s, max)
    ensures PairsPlain(SortPairs(s), max)
  {
    if s != [] {
      SortPairsPlain(s[1..], max);
      InsertPairPlain(s[0], SortPairs(s[1..]), max);
    }
  }

  lemma {:induction false} CanonIsPlain(v: Benc, max: nat)
    requires Representable(v, max)
    ensures Plain(Canon(v), max)
    decreases v, 0
  {
    match v
    case Int(_) =>
    case Bool(_) =>
    case Str(_) =>
    case List(items) => CanonAllPlain(items, max);
    case Dict(pairs) =>
      CanonPairsPlain(pairs, max);
      SortPairsPlain(CanonPairs(pairs), max);
  }

  lemma {:induction false} CanonAllPlain(items: seq<Benc>, max: nat)
    requires AllRepresentable(items, max)
    ensures AllPlain(CanonAll(items), max)
    decreases items, 1
  {
    if items != [] {
      CanonIsPlain(items[0], max);
      CanonAllPlain(items[1..], max);
      assert CanonAll(items)[1..] == CanonAll(items[1..]);
    }
  }

  lemma {:induction false} CanonPairsPlain(pairs: seq<Pair>, max: nat)
    requires PairsRepresentable(pairs, max)
    ensures PairsPlain(CanonPairs(pairs), max)
    decreases pairs, 1
  {
    if pairs != [] {
      CanonIsPlain(pairs[0].val, max);
      CanonPairsPlain(pairs[1..], max);
      assert CanonPairs(pairs)[1..] == CanonPairs(pairs[1..]);
    }
  }

  /** Round trip: whatever follows the serialised text, and wherever it lies in memory, parsing returns the canonical form
      and stops at the text's end. */
  lemma RoundTrip(v: Benc, rest: Bytes, mem: Memory)
    requires Representable(v, mem.intMax) && Placed(Serialised(v) + rest, mem)
    ensures ParseValue(Serialised(v) + rest, 0, mem) == Got(Canon(v), |Serialised(v)|)
  {
    CanonIsPlain(v, mem.intMax);
    var buf := Serialised(v) + rest;
    assert buf[0..|Serialised(v)|] == Serialised(v);
    ParseTextHere(buf, 0, mem, Canon(v));
  }

  /** A string that is too long for an int does not come back. */
  lemma LongStringIsLost(s: Bytes, rest: Bytes, mem: Memory)
    requires |s| <= ULONG_MAX && Placed(StrText(s) + rest, mem)
    ensures ParseValue(StrText(s) + rest, 0, mem) == Got(Str(s), |StrText(s)|) <==> |s| <= mem.intMax
  {
    var buf := StrText(s) + rest;
    assert buf[0..|StrText(s)|] == StrText(s);
    DigitsRoundTrip(|s|);
    LengthBetween(buf, 0, Digits(|s|), s);
    WildExactly(buf, 0, mem);
    EndIsInside(buf, 0, mem);
    if |s| <= mem.intMax {
      ParseStrText(buf, 0, mem, s);
    }
  }
}
