/** Bencoded values, the text of their scalars, and the text of whole values written the simple,
    recursive way (bencode.c). */
module BencodeValues {
  import opened Base

  /** A dictionary's array of alternating keys and values is a sequence of pairs. */
  datatype Benc =
    | Int(i: int)
    | Bool(b: bool)
    | Str(s: Bytes)
    | List(items: seq<Benc>)
    | Dict(pairs: seq<Pair>)

  datatype Pair = Pair(key: Bytes, val: Benc)

  const INT_MIN := -0x8000_0000_0000_0000
  const INT_MAX := 0x7fff_ffff_ffff_ffff
  const ULONG_MAX := 0xffff_ffff_ffff_ffff
  const ADDRESSES := 0x1_0000_0000_0000_0000
  const INT32_MAX := 0x7fff_ffff

  const CH_MINUS: Byte := 45
  const CH_PLUS: Byte := 43
  const CH_COLON: Byte := 58
  const CH_D: Byte := 100
  const CH_E: Byte := 101
  const CH_I: Byte := 105
  const CH_L: Byte := 108

  predicate IsDigit(c: Byte) {
    48 <= c <= 57
  }

  predicate IsSpace(c: Byte) {
    c == 32 || 9 <= c <= 13
  }

  // ---------- numbers as text ----------

  /** %lu */
  function Digits(n: nat): Bytes {
    if n < 10 then [48 + n] else Digits(n / 10) + [48 + n % 10]
  }

  /** PRId64 */
  function IntText(i: int): Bytes {
    if i < 0 then [CH_MINUS] + Digits(-i) else Digits(i)
  }

  predicate AllDigits(s: Bytes) {
    forall k :: 0 <= k < |s| ==> IsDigit(s[k])
  }

  function DigitsValue(s: Bytes): nat
    requires AllDigits(s)
  {
    if s == [] then 0 else 10 * DigitsValue(s[..|s| - 1]) + (s[|s| - 1] - 48)
  }

  lemma {:induction false} DigitsRoundTrip(n: nat)
    ensures Digits(n) != [] && AllDigits(Digits(n)) && DigitsValue(Digits(n)) == n
    ensures Digits(n)[0] == 48 ==> n == 0
  {
    if n < 10 {
      assert Digits(n)[..0] == [];
    } else {
      DigitsRoundTrip(n / 10);
      assert Digits(n)[..|Digits(n)| - 1] == Digits(n / 10);
    }
  }

  function SkipSpace(s: Bytes): Bytes {
    if s != [] && IsSpace(s[0]) then SkipSpace(s[1..]) else s
  }

  /** strtoll in base ten on text of which it must use every byte: spaces, a sign, digits.  No digits at
      all convert to 0 without using a byte.  None stands for leftover text or a range error. */
  function Strtoll(s: Bytes): Option<int> {
    if s == [] then Some(0) else
      var t := SkipSpace(s);
      var negative := t != [] && t[0] == CH_MINUS;
      var u := if t != [] && (t[0] == CH_MINUS || t[0] == CH_PLUS) then t[1..] else t;
      if u == [] || !AllDigits(u) then None else
        var v := if negative then -(DigitsValue(u) as int) else DigitsValue(u);
        if INT_MIN <= v <= INT_MAX then Some(v) else None
  }

  /** strtoul likewise, on text known to begin with a digit */
  function Strtoul(s: Bytes): Option<nat> {
    if s == [] || !AllDigits(s) || DigitsValue(s) > ULONG_MAX then None else Some(DigitsValue(s))
  }

  // ---------- the recursive writer ----------

  /** The text of a value with its dictionaries in the order they are in */
  function Text(v: Benc): Bytes
    decreases v, 0
  {
    match v
    case Int(i) => [CH_I] + IntText(i) + [CH_E]
    case Bool(b) => [CH_I] + IntText(if b then 1 else 0) + [CH_E]
    case Str(s) => StrText(s)
    case List(items) => [CH_L] + TextOfAll(items) + [CH_E]
    case Dict(pairs) => [CH_D] + TextOfPairs(pairs) + [CH_E]
  }

  function StrText(s: Bytes): Bytes {
    Digits(|s|) + [CH_COLON] + s
  }

  function TextOfAll(items: seq<Benc>): Bytes
    decreases items, 1
  {
    if items == [] then [] else Text(items[0]) + TextOfAll(items[1..])
  }

  function TextOfPairs(pairs: seq<Pair>): Bytes
    decreases pairs, 1
  {
    if pairs == [] then [] else StrText(pairs[0].key) + Text(pairs[0].val) + TextOfPairs(pairs[1..])
  }

  // ---------- the order of keys ----------

  /** strcmp: as C strings, which end at the first zero byte; 0 stands for the end */
  function StrCmp(a: Bytes, b: Bytes): int {
    var x := if a == [] then 0 else a[0];
    var y := if b == [] then 0 else b[0];
    if x != y then x - y
    else if x == 0 then 0
    else StrCmp(a[1..], b[1..])
  }

  function InsertPair(p: Pair, s: seq<Pair>): seq<Pair> {
    if s == [] || StrCmp(p.key, s[0].key) <= 0 then [p] + s
    else [s[0]] + InsertPair(p, s[1..])
  }

  /** qsort with compareKeyIndex; keys that compare equal keep their order */
  function SortPairs(s: seq<Pair>): seq<Pair> {
    if s == [] then [] else InsertPair(s[0], SortPairs(s[1..]))
  }

  // ---------- the canonical form ----------

  /** The value that serialising v writes: dictionaries sorted, and booleans as the numbers they are written as */
  function Canon(v: Benc): Benc
    decreases v, 0
  {
    match v
    case Int(_) => v
    case Bool(b) => Int(if b then 1 else 0)
    case Str(_) => v
    case List(items) => List(CanonAll(items))
    case Dict(pairs) => Dict(SortPairs(CanonPairs(pairs)))
  }

  function CanonAll(items: seq<Benc>): (r: seq<Benc>)
    ensures |r| == |items|
    decreases items, 1
  {
    if items == [] then [] else [Canon(items[0])] + CanonAll(items[1..])
  }

  function CanonPairs(pairs: seq<Pair>): (r: seq<Pair>)
    ensures |r| == |pairs| && forall k :: 0 <= k < |r| ==> r[k].key == pairs[k].key
    decreases pairs, 1
  {
    if pairs == [] then [] else [Pair(pairs[0].key, Canon(pairs[0].val))] + CanonPairs(pairs[1..])
  }

  /** What tr_bencToBuf writes, said recursively */
  function Serialised(v: Benc): Bytes {
    Text(Canon(v))
  }

  /** Integers fit their C type, and no string is longer than max. */
  predicate Representable(v: Benc, max: nat)
    decreases v, 0
  {
    match v
    case Int(i) => INT_MIN <= i <= INT_MAX
    case Bool(_) => true
    case Str(s) => |s| <= max
    case List(items) => AllRepresentable(items, max)
    case Dict(pairs) => PairsRepresentable(pairs, max)
  }

  predicate AllRepresentable(items: seq<Benc>, max: nat)
    decreases items, 1
  {
    items == [] || (Representable(items[0], max) && AllRepresentable(items[1..], max))
  }

  predicate PairsRepresentable(pairs: seq<Pair>, max: nat)
    decreases pairs, 1
  {
    pairs == [] || (|pairs[0].key| <= max && Representable(pairs[0].val, max) && PairsRepresentable(pairs[1..], max))
  }
}
