/** What a value means once the order of dictionary pairs is forgotten, and that the serialised text is a
    canonical form: equal text exactly for equal meaning (bencode.c). */
module BencodeMeaning {
  import opened Base
  import opened BencodeValues
  import opened BencodeParser
  import opened BencodeRoundTrip

  datatype Sem =
    | SInt(i: int)
    | SBool(b: bool)
    | SStr(s: Bytes)
    | SList(items: seq<Sem>)
    | SDict(entries: map<Bytes, Sem>)

  function Meaning(v: Benc): Sem
    decreases v, 0
  {
    match v
    case Int(i) => SInt(i)
    case Bool(b) => SBool(b)
    case Str(s) => SStr(s)
    case List(items) => SList(MeaningAll(items))
    case Dict(pairs) => SDict(MapOf(pairs))
  }

  function MeaningAll(items: seq<Benc>): seq<Sem>
    decreases items, 1
  {
    if items == [] then [] else [Meaning(items[0])] + MeaningAll(items[1..])
  }

  /** dictIndexOf finds the first pair with a key */
  function MapOf(pairs: seq<Pair>): map<Bytes, Sem>
    decreases pairs, 1
  {
    if pairs == [] then map[] else MapOf(pairs[1..])[pairs[0].key := Meaning(pairs[0].val)]
  }

  /** Bencode has no booleans of its own: they are written as numbers. */
  function AsWritten(s: Sem): Sem {
    match s
    case SBool(b) => SInt(if b then 1 else 0)
    case SList(items) => SList(AllAsWritten(items))
    case SDict(entries) => SDict(map k | k in entries :: AsWritten(entries[k]))
    case _ => s
  }

  function AllAsWritten(items: seq<Sem>): seq<Sem> {
    if items == [] then [] else [AsWritten(items[0])] + AllAsWritten(items[1..])
  }

  // ---------- keys ----------

  predicate CString(s: Bytes) {
    forall k :: 0 <= k < |s| ==> s[k] != 0
  }

  predicate Distinct(pairs: seq<Pair>) {
    forall i, j :: 0 <= i < j < |pairs| ==> pairs[i].key != pairs[j].key
  }

  /** At every depth, keys are C strings and no dictionary has a key twice. */
  predicate WellKeyed(v: Benc) {
    match v
    case List(items) => forall k :: 0 <= k < |items| ==> WellKeyed(items[k])
    case Dict(pairs) => Distinct(pairs) && forall k :: 0 <= k < |pairs| ==> CString(pairs[k].key) && WellKeyed(pairs[k].val)
    case _ => true
  }

  lemma {:induction false} StrCmpFlip(a: Bytes, b: Bytes)
    ensures StrCmp(a, b) == -StrCmp(b, a)
    decreases |a| + |b|
  {
    var x := if a == [] then 0 else a[0];
    var y := if b == [] then 0 else b[0];
    if x == y != 0 {
      StrCmpFlip(a[1..], b[1..]);
    }
  }

  lemma {:induction false} StrCmpEqual(a: Bytes, b: Bytes)
    requires CString(a) && CString(b)
    ensures StrCmp(a, b) == 0 <==> a == b
  {
    if a != [] && b != [] && a[0] == b[0] {
      StrCmpEqual(a[1..], b[1..]);
      assert a == [a[0]] + a[1..] && b == [b[0]] + b[1..];
    }
  }

  lemma {:induction false} StrCmpTransitive(a: Bytes, b: Bytes, c: Bytes)
    requires StrCmp(a, b) < 0 && StrCmp(b, c) < 0
    ensures StrCmp(a, c) < 0
  {
    var x := if a == [] then 0 else a[0];
    var y := if b == [] then 0 else b[0];
    var z := if c == [] then 0 else c[0];
    if x == y == z && x != 0 {
      StrCmpTransitive(a[1..], b[1..], c[1..]);
    }
  }

  /** a comes before b as a string of bytes: it ends first, or has the smaller byte where they part. */
  ghost predicate Precedes(a: Bytes, b: Bytes) {
    exists k: nat :: PartAt(a, b, k)
  }

  predicate PartAt(a: Bytes, b: Bytes, k: nat) {
    k <= |a| && k < |b| && a[..k] == b[..k] && (k == |a| || a[k] < b[k])
  }

  /** strcmp orders C strings byte by byte. */
  lemma {:induction false} StrCmpOrders(a: Bytes, b: Bytes)
    requires CString(a) && CString(b)
    ensures StrCmp(a, b) < 0 <==> Precedes(a, b)
  {
    if a != [] && b != [] && a[0] == b[0] {
      StrCmpOrders(a[1..], b[1..]);
      if Precedes(a[1..], b[1..]) {
        var k: nat :| PartAt(a[1..], b[1..], k);
        assert a[..k + 1] == [a[0]] + a[1..][..k] && b[..k + 1] == [b[0]] + b[1..][..k];
        assert PartAt(a, b, k + 1);
      }
      if Precedes(a, b) {
        var k: nat :| PartAt(a, b, k);
        assert k > 0;
        assert a[1..][..k - 1] == a[..k][1..] && b[1..][..k - 1] == b[..k][1..];
        assert PartAt(a[1..], b[1..], k - 1);
      }
    } else if b != [] && (a == [] || a[0] < b[0]) {
      assert PartAt(a, b, 0);
    } else {
      forall k: nat ensures PartAt(a, b, k) ==> k == 0 {
        PartsAtOnce(a, b, k);
      }
    }
  }

  lemma PartsAtOnce(a: Bytes, b: Bytes, k: nat)
    requires a == [] || b == [] || a[0] != b[0]
    ensures PartAt(a, b, k) ==> k == 0
  {
    if 0 < k <= |a| && k < |b| {
      assert a[..k][0] == a[0] && b[..k][0] == b[0];
    }
  }

  predicate Sorted(pairs: seq<Pair>) {
    forall i, j :: 0 <= i < j < |pairs| ==> StrCmp(pairs[i].key, pairs[j].key) < 0
  }

  // ---------- sorting keeps the meaning ----------

  predicate HasKey(pairs: seq<Pair>, key: Bytes) {
    exists k :: 0 <= k < |pairs| && pairs[k].key == key
  }

  lemma {:induction false} MapKeys(pairs: seq<Pair>, key: Bytes)
    ensures key in MapOf(pairs) <==> HasKey(pairs, key)
  {
    if pairs != [] {
      MapKeys(pairs[1..], key);
      if HasKey(pairs[1..], key) {
        var k :| 0 <= k < |pairs| - 1 && pairs[1..][k].key == key;
        assert pairs[k + 1].key == key;
      }
      if HasKey(pairs, key) && pairs[0].key != key {
        var k :| 0 <= k < |pairs| && pairs[k].key == key;
        assert pairs[1..][k - 1].key == key;
      }
    }
  }

  lemma {:induction false} MapOfInsert(p: Pair, s: seq<Pair>)
    requires !HasKey(s, p.key)
    ensures MapOf(InsertPair(p, s)) == MapOf(s)[p.key := Meaning(p.val)]
  {
    if s == [] || StrCmp(p.key, s[0].key) <= 0 {
      assert ([p] + s)[1..] == s;
    } else {
      assert s[0].key != p.key;
      assert forall k :: 0 <= k < |s| - 1 ==> s[1..][k] == s[k + 1];
      MapOfInsert(p, s[1..]);
      assert InsertPair(p, s)[1..] == InsertPair(p, s[1..]);
    }
  }

  lemma {:induction false} MapOfSorted(s: seq<Pair>)
    requires Distinct(s)
    ensures MapOf(SortPairs(s)) == MapOf(s)
  {
    if s != [] {
      assert forall k :: 0 <= k < |s| - 1 ==> s[1..][k] == s[k + 1];
      MapOfSorted(s[1..]);
      if HasKey(SortPairs(s[1..]), s[0].key) {
        MapKeys(SortPairs(s[1..]), s[0].key);
        MapKeys(s[1..], s[0].key);
        assert false;
      }
      MapOfInsert(s[0], SortPairs(s[1..]));
    }
  }

  // ---------- sorting sorts ----------

  lemma {:induction false} InsertPairMembers(p: Pair, s: seq<Pair>, q: Pair)
    ensures q in InsertPair(p, s) <==> q == p || q in s
  {
    if s != [] && StrCmp(p.key, s[0].key) > 0 {
      InsertPairMembers(p, s[1..], q);
      assert s == [s[0]] + s[1..];
    }
  }

  lemma {:induction false} SortPairsMembers(s: seq<Pair>, q: Pair)
    ensures q in SortPairs(s) <==> q in s
  {
    if s != [] {
      SortPairsMembers(s[1..], q);
      InsertPairMembers(s[0], SortPairs(s[1..]), q);
      assert s == [s[0]] + s[1..];
    }
  }

  lemma SortedCons(p: Pair, s: seq<Pair>)
    requires Sorted(s) && (s != [] ==> StrCmp(p.key, s[0].key) < 0)
    ensures Sorted([p] + s)
  {
    var t := [p] + s;
    forall i, j | 0 <= i < j < |t|
      ensures StrCmp(t[i].key, t[j].key) < 0
    {
      if i == 0 && j > 1 {
        StrCmpTransitive(p.key, s[0].key, s[j - 1].key);
      }
    }
  }

  lemma {:induction false} InsertPairSorted(p: Pair, s: seq<Pair>)
    requires Sorted(s) && !HasKey(s, p.key) && CString(p.key) && forall k :: 0 <= k < |s| ==> CString(s[k].key)
    ensures Sorted(InsertPair(p, s))
  {
    if s != [] {
      assert s[0].key != p.key;
      StrCmpEqual(p.key, s[0].key);
    }
    if s == [] || StrCmp(p.key, s[0].key) <= 0 {
      SortedCons(p, s);
    } else {
      StrCmpFlip(p.key, s[0].key);
      var t := s[1..];
      assert forall k :: 0 <= k < |t| ==> t[k] == s[k + 1];
      InsertPairSorted(p, t);
      var r := InsertPair(p, t);
      assert r[0] == p || r[0] == t[0];
      SortedCons(s[0], r);
    }
  }

  predicate KeysOk(s: seq<Pair>) {
    forall k :: 0 <= k < |s| ==> CString(s[k].key)
  }

  lemma {:induction false} SortPairsSorted(s: seq<Pair>)
    requires Distinct(s) && KeysOk(s)
    ensures Sorted(SortPairs(s)) && KeysOk(SortPairs(s))
  {
    if s != [] {
      var t := s[1..];
      assert forall k :: 0 <= k < |t| ==> t[k] == s[k + 1];
      SortPairsSorted(t);
      MapOfSorted(t);
      MapKeys(t, s[0].key);
      MapKeys(SortPairs(t), s[0].key);
      InsertPairSorted(s[0], SortPairs(t));
      forall k | 0 <= k < |SortPairs(s)|
        ensures CString(SortPairs(s)[k].key)
      {
        SortPairsMembers(s, SortPairs(s)[k]);
      }
    }
  }

  // ---------- any sort will do ----------

  /** t is something that qsort may make of s: qsort does not promise an order for keys that compare equal. */
  ghost predicate IsSorting(s: seq<Pair>, t: seq<Pair>) {
    multiset(t) == multiset(s) && forall i, j :: 0 <= i < j < |t| ==> StrCmp(t[i].key, t[j].key) <= 0
  }

  lemma {:induction false} OneOfEach(s: seq<Pair>, p: Pair)
    requires Distinct(s)
    ensures multiset(s)[p] <= 1
  {
    if s != [] {
      var t := s[1..];
      assert s == [s[0]] + t && forall k :: 0 <= k < |t| ==> t[k] == s[k + 1];
      OneOfEach(t, p);
      assert p == s[0] ==> p !in t;
    }
  }

  lemma TwoOfOne(t: seq<Pair>, i: nat, j: nat)
    requires i < j < |t| && t[i] == t[j]
    ensures multiset(t)[t[i]] >= 2
  {
    assert t == t[..j] + t[j..] && t[..j][i] == t[i] && t[j..][0] == t[i];
    assert t[i] in multiset(t[..j]) && t[i] in multiset(t[j..]);
  }

  lemma SortingIsStrict(s: seq<Pair>, t: seq<Pair>)
    requires Distinct(s) && KeysOk(s) && IsSorting(s, t)
    ensures Sorted(t)
  {
    forall i, j | 0 <= i < j < |t|
      ensures StrCmp(t[i].key, t[j].key) < 0
    {
      assert t[i] in multiset(t) && t[j] in multiset(t);
      var a :| 0 <= a < |s| && s[a] == t[i];
      var b :| 0 <= b < |s| && s[b] == t[j];
      StrCmpEqual(t[i].key, t[j].key);
      if t[i].key == t[j].key {
        TwoOfOne(t, i, j);
        OneOfEach(s, t[i]);
        assert false;
      }
    }
  }

  lemma SameFirst(a: seq<Pair>, b: seq<Pair>)
    requires a != [] && b != [] && Sorted(a) && Sorted(b) && a[0] in b && b[0] in a
    ensures a[0] == b[0]
  {
    var i :| 0 <= i < |b| && b[i] == a[0];
    var j :| 0 <= j < |a| && a[j] == b[0];
    if i > 0 && j > 0 {
      StrCmpFlip(a[0].key, b[0].key);
      assert false;
    }
  }

  lemma WithoutFirst(s: seq<Pair>)
    requires s != [] && Sorted(s)
    ensures Sorted(s[1..]) && multiset(s) == multiset(s[1..]) + multiset{s[0]} && s == [s[0]] + s[1..]
  {
    var t := s[1..];
    assert forall k :: 0 <= k < |t| ==> t[k] == s[k + 1];
    assert s == [s[0]] + t;
  }

  lemma Cancel(a: multiset<Pair>, b: multiset<Pair>, p: Pair)
    requires a + multiset{p} == b + multiset{p}
    ensures a == b
  {
    forall q
      ensures a[q] == b[q]
    {
      assert (a + multiset{p})[q] == (b + multiset{p})[q];
    }
  }

  lemma {:induction false} SameMembersSameOrder(a: seq<Pair>, b: seq<Pair>)
    requires Sorted(a) && Sorted(b) && multiset(a) == multiset(b)
    ensures a == b
  {
    assert |a| == |multiset(a)| == |multiset(b)| == |b|;
    if a != [] {
      assert a[0] in multiset(b) && b[0] in multiset(a);
      SameFirst(a, b);
      WithoutFirst(a);
      WithoutFirst(b);
      Cancel(multiset(a[1..]), multiset(b[1..]), a[0]);
      SameMembersSameOrder(a[1..], b[1..]);
    }
  }

  lemma {:induction false} InsertPairKeeps(p: Pair, s: seq<Pair>)
    ensures multiset(InsertPair(p, s)) == multiset(s) + multiset{p}
  {
    if s != [] && StrCmp(p.key, s[0].key) > 0 {
      InsertPairKeeps(p, s[1..]);
      assert s == [s[0]] + s[1..];
    }
  }

  lemma {:induction false} SortPairsKeeps(s: seq<Pair>)
    ensures multiset(SortPairs(s)) == multiset(s)
  {
    if s != [] {
      SortPairsKeeps(s[1..]);
      InsertPairKeeps(s[0], SortPairs(s[1..]));
      assert s == [s[0]] + s[1..];
    }
  }

  /** Distinct keys that are C strings have one order only, whatever qsort does with equal ones. */
  lemma OnlyOneOrder(s: seq<Pair>, t: seq<Pair>)
    requires Distinct(s) && KeysOk(s) && IsSorting(s, t)
    ensures t == SortPairs(s)
  {
    SortingIsStrict(s, t);
    SortPairsSorted(s);
    SortPairsKeeps(s);
    SameMembersSameOrder(t, SortPairs(s));
  }

  // ---------- canonical values ----------

  /** Sorted at every depth, and no booleans */
  predicate IsCanonical(v: Benc) {
    match v
    case Bool(_) => false
    case List(items) => forall k :: 0 <= k < |items| ==> IsCanonical(items[k])
    case Dict(pairs) => Sorted(pairs) && KeysOk(pairs) && forall k :: 0 <= k < |pairs| ==> IsCanonical(pairs[k].val)
    case _ => true
  }

  /** A canonical value is the only one with its meaning. */
  lemma {:induction false} CanonicalUnique(v: Benc, w: Benc)
    requires IsCanonical(v) && IsCanonical(w) && Meaning(v) == Meaning(w)
    ensures v == w
    decreases v, 0
  {
    match v
    case List(items) => ItemsUnique(items, w.items);
    case Dict(pairs) => PairsUnique(pairs, w.pairs);
    case _ =>
  }

  lemma {:induction false} ItemsUnique(a: seq<Benc>, b: seq<Benc>)
    requires forall k :: 0 <= k < |a| ==> IsCanonical(a[k])
    requires forall k :: 0 <= k < |b| ==> IsCanonical(b[k])
    requires MeaningAll(a) == MeaningAll(b)
    ensures a == b
    decreases a, 1
  {
    if a != [] && b != [] {
      assert MeaningAll(a)[0] == MeaningAll(b)[0];
      assert MeaningAll(a)[1..] == MeaningAll(a[1..]) && MeaningAll(b)[1..] == MeaningAll(b[1..]);
      CanonicalUnique(a[0], b[0]);
      ItemsUnique(a[1..], b[1..]);
      assert a == [a[0]] + a[1..] && b == [b[0]] + b[1..];
    }
  }

  predicate CanonicalPairs(s: seq<Pair>) {
    Sorted(s) && KeysOk(s) && forall k :: 0 <= k < |s| ==> IsCanonical(s[k].val)
  }

  /** Both sequences begin with the least key of the same map. */
  lemma SameFirstKey(a: seq<Pair>, b: seq<Pair>)
    requires a != [] && b != [] && Sorted(a) && Sorted(b) && MapOf(a) == MapOf(b)
    ensures a[0].key == b[0].key
  {
    MapKeys(a, a[0].key);
    MapKeys(b, a[0].key);
    MapKeys(a, b[0].key);
    MapKeys(b, b[0].key);
    var i :| 0 <= i < |a| && a[i].key == b[0].key;
    var j :| 0 <= j < |b| && b[j].key == a[0].key;
    if i > 0 && j > 0 {
      StrCmpFlip(a[0].key, a[i].key);
      assert false;
    }
  }

  lemma RemoveAdded(m: map<Bytes, Sem>, key: Bytes, v: Sem)
    requires key !in m
    ensures m[key := v] - {key} == m
  {
  }

  lemma EmptyMap(s: seq<Pair>)
    ensures MapOf(s) == map[] <==> s == []
  {
    if s != [] {
      assert s[0].key in MapOf(s);
    }
  }

  lemma SortedTail(s: seq<Pair>)
    requires s != [] && Sorted(s)
    ensures Sorted(s[1..]) && MapOf(s[1..]) == MapOf(s) - {s[0].key}
  {
    var t, key := s[1..], s[0].key;
    assert forall k :: 0 <= k < |t| ==> t[k] == s[k + 1];
    StrCmpFlip(key, key);
    MapKeys(t, key);
    RemoveAdded(MapOf(t), key, Meaning(s[0].val));
  }

  lemma {:induction false} PairsUnique(a: seq<Pair>, b: seq<Pair>)
    requires CanonicalPairs(a) && CanonicalPairs(b) && MapOf(a) == MapOf(b)
    ensures a == b
    decreases a, 1
  {
    EmptyMap(a);
    EmptyMap(b);
    if a != [] && b != [] {
      SameFirstKey(a, b);
      assert MapOf(a)[a[0].key] == Meaning(a[0].val) && MapOf(b)[a[0].key] == Meaning(b[0].val);
      CanonicalUnique(a[0].val, b[0].val);
      SortedTail(a);
      SortedTail(b);
      PairsUnique(a[1..], b[1..]);
      assert a == [a[0]] + a[1..] && b == [b[0]] + b[1..];
    }
  }

  lemma {:induction false} CanonIsCanonical(v: Benc)
    requires WellKeyed(v)
    ensures IsCanonical(Canon(v)) && Meaning(Canon(v)) == AsWritten(Meaning(v))
    decreases v, 0
  {
    match v
    case List(items) => CanonAllCanonical(items);
    case Dict(pairs) =>
      CanonPairsCanonical(pairs);
      var c := CanonPairs(pairs);
      MapOfSorted(c);
      SortPairsSorted(c);
      forall k | 0 <= k < |SortPairs(c)|
        ensures IsCanonical(SortPairs(c)[k].val)
      {
        SortPairsMembers(c, SortPairs(c)[k]);
      }
    case _ =>
  }

  lemma {:induction false} CanonAllCanonical(items: seq<Benc>)
    requires forall k :: 0 <= k < |items| ==> WellKeyed(items[k])
    ensures forall k :: 0 <= k < |items| ==> IsCanonical(CanonAll(items)[k])
    ensures MeaningAll(CanonAll(items)) == AllAsWritten(MeaningAll(items))
    decreases items, 1
  {
    if items != [] {
      CanonIsCanonical(items[0]);
      CanonAllCanonical(items[1..]);
      assert CanonAll(items)[1..] == CanonAll(items[1..]);
      assert MeaningAll(items)[1..] == MeaningAll(items[1..]);
    }
  }

  lemma {:induction false} CanonPairsCanonical(pairs: seq<Pair>)
    requires forall k :: 0 <= k < |pairs| ==> WellKeyed(pairs[k].val)
    ensures forall k :: 0 <= k < |pairs| ==> IsCanonical(CanonPairs(pairs)[k].val)
    ensures MapOf(CanonPairs(pairs)) == map k | k in MapOf(pairs) :: AsWritten(MapOf(pairs)[k])
    decreases pairs, 1
  {
    if pairs != [] {
      CanonIsCanonical(pairs[0].val);
      CanonPairsCanonical(pairs[1..]);
      assert CanonPairs(pairs)[1..] == CanonPairs(pairs[1..]);
    }
  }

  // ---------- the theorems ----------

  /** The order in which pairs were inserted does not show in the text. */
  lemma SameMeaningSameText(v: Benc, w: Benc)
    requires WellKeyed(v) && WellKeyed(w) && AsWritten(Meaning(v)) == AsWritten(Meaning(w))
    ensures Serialised(v) == Serialised(w)
  {
    CanonIsCanonical(v);
    CanonIsCanonical(w);
    CanonicalUnique(Canon(v), Canon(w));
  }

  lemma {:induction false} MapPair(pairs: seq<Pair>, p: Pair)
    requires Distinct(pairs) && p in pairs
    ensures p.key in MapOf(pairs) && MapOf(pairs)[p.key] == Meaning(p.val)
  {
    if pairs[0] != p {
      var t := pairs[1..];
      assert forall k :: 0 <= k < |t| ==> t[k] == pairs[k + 1];
      assert pairs == [pairs[0]] + t;
      MapPair(t, p);
      MapKeys(t, p.key);
    }
  }

  lemma AnyInsertionOrder(a: seq<Pair>, b: seq<Pair>)
    requires WellKeyed(Dict(a)) && WellKeyed(Dict(b)) && forall p :: p in a <==> p in b
    ensures Serialised(Dict(a)) == Serialised(Dict(b))
  {
    forall key
      ensures key in MapOf(a) <==> key in MapOf(b)
      ensures key in MapOf(a) ==> MapOf(a)[key] == MapOf(b)[key]
    {
      MapKeys(a, key);
      MapKeys(b, key);
      if HasKey(a, key) {
        var k :| 0 <= k < |a| && a[k].key == key;
        MapPair(a, a[k]);
        MapPair(b, a[k]);
      }
      if HasKey(b, key) {
        var k :| 0 <= k < |b| && b[k].key == key;
        MapPair(a, b[k]);
      }
    }
    assert MapOf(a) == MapOf(b);
    SameMeaningSameText(Dict(a), Dict(b));
  }

  /** Two values have the same text exactly when they mean the same. */
  lemma TextIsCanonical(v: Benc, w: Benc)
    requires WellKeyed(v) && WellKeyed(w) && Representable(v, ULONG_MAX) && Representable(w, ULONG_MAX)
    ensures Serialised(v) == Serialised(w) <==> AsWritten(Meaning(v)) == AsWritten(Meaning(w))
  {
    if Serialised(v) == Serialised(w) {
      assert Serialised(v) + [] == Serialised(v);
      var mem := Memory(0, |Serialised(v)| + ULONG_MAX + 1, ULONG_MAX);
      RoundTrip(v, [], mem);
      RoundTrip(w, [], mem);
      CanonIsCanonical(v);
      CanonIsCanonical(w);
    } else if AsWritten(Meaning(v)) == AsWritten(Meaning(w)) {
      SameMeaningSameText(v, w);
    }
  }

  // ---------- serialising again ----------

  predicate InOrder(s: seq<Pair>) {
    forall k :: 0 <= k < |s| - 1 ==> StrCmp(s[k].key, s[k + 1].key) <= 0
  }

  lemma {:induction false} InsertPairInOrder(p: Pair, s: seq<Pair>)
    requires InOrder(s)
    ensures InOrder(InsertPair(p, s))
  {
    if s != [] && StrCmp(p.key, s[0].key) > 0 {
      var t := s[1..];
      assert forall k :: 0 <= k < |t| ==> t[k] == s[k + 1];
      InsertPairInOrder(p, t);
      StrCmpFlip(p.key, s[0].key);
      var r := InsertPair(p, t);
      assert r[0] == p || (t != [] && r[0] == t[0]);
      assert StrCmp(s[0].key, r[0].key) <= 0;
    }
  }

  lemma {:induction false} SortPairsInOrder(s: seq<Pair>)
    ensures InOrder(SortPairs(s))
  {
    if s != [] {
      SortPairsInOrder(s[1..]);
      InsertPairInOrder(s[0], SortPairs(s[1..]));
    }
  }

  lemma {:induction false} SortSorted(s: seq<Pair>)
    requires InOrder(s)
    ensures SortPairs(s) == s
  {
    if s != [] {
      var t := s[1..];
      assert forall k :: 0 <= k < |t| ==> t[k] == s[k + 1];
      SortSorted(t);
    }
  }

  predicate AllFixed(items: seq<Benc>) {
    forall k :: 0 <= k < |items| ==> Canon(items[k]) == items[k]
  }

  predicate PairsFixed(pairs: seq<Pair>) {
    forall k :: 0 <= k < |pairs| ==> Canon(pairs[k].val) == pairs[k].val
  }

  lemma {:induction false} CanonAllFixed(items: seq<Benc>)
    requires AllFixed(items)
    ensures CanonAll(items) == items
  {
    if items != [] {
      CanonAllFixed(items[1..]);
      assert items == [items[0]] + items[1..];
    }
  }

  lemma {:induction false} CanonPairsFixed(pairs: seq<Pair>)
    requires PairsFixed(pairs)
    ensures CanonPairs(pairs) == pairs
  {
    if pairs != [] {
      CanonPairsFixed(pairs[1..]);
      assert pairs == [pairs[0]] + pairs[1..];
    }
  }

  lemma {:induction false} CanonTwice(v: Benc)
    ensures Canon(Canon(v)) == Canon(v)
    decreases v, 0
  {
    match v
    case List(items) =>
      CanonAllTwice(items);
      CanonAllFixed(CanonAll(items));
    case Dict(pairs) =>
      CanonPairsTwice(pairs);
      var s := SortPairs(CanonPairs(pairs));
      forall k | 0 <= k < |s|
        ensures Canon(s[k].val) == s[k].val
      {
        SortPairsMembers(CanonPairs(pairs), s[k]);
      }
      CanonPairsFixed(s);
      SortPairsInOrder(CanonPairs(pairs));
      SortSorted(s);
    case _ =>
  }

  lemma {:induction false} CanonAllTwice(items: seq<Benc>)
    ensures AllFixed(CanonAll(items))
    decreases items, 1
  {
    if items != [] {
      CanonTwice(items[0]);
      CanonAllTwice(items[1..]);
    }
  }

  lemma {:induction false} CanonPairsTwice(pairs: seq<Pair>)
    ensures PairsFixed(CanonPairs(pairs))
    decreases pairs, 1
  {
    if pairs != [] {
      CanonTwice(pairs[0].val);
      CanonPairsTwice(pairs[1..]);
    }
  }

  /** Text that was serialised once comes out byte for byte the same when it is parsed and serialised
      again; the info hash is taken of such text. */
  lemma Reserialise(v: Benc, rest: Bytes, mem: Memory)
    requires Representable(v, mem.intMax) && Placed(Serialised(v) + rest, mem)
    ensures var r := ParseValue(Serialised(v) + rest, 0, mem); r.Got? && Serialised(r.value) == Serialised(v)
  {
    RoundTrip(v, rest, mem);
    CanonTwice(v);
  }
}
