/** Editing dictionaries in place, and merging one into another (bencode.c). */
module BencodeDicts {
  import opened Base
  import opened BencodeValues
  import opened BencodeMeaning

  // ---------- what merging means ----------

  function Lookup(m: map<Bytes, Sem>, key: Bytes): Option<Sem> {
    if key in m then Some(m[key]) else None
  }

  /** The value a key ends up with when the source has s for it and the target t */
  function Merged(t: Option<Sem>, s: Sem): Sem
    decreases s
  {
    match s
    case SList(_) => if t.Some? then t.value else s
    case SDict(entries) =>
      if t.Some? && !t.value.SDict? then t.value else
        var had := if t.Some? then t.value.entries else map[];
        SDict(map k | k in had.Keys + entries.Keys ::
          if k in entries then Merged(Lookup(had, k), entries[k]) else had[k])
    case _ => s
  }

  /** The union of two dictionaries, where both have a key decided by Merged */
  function MergedMap(target: map<Bytes, Sem>, source: map<Bytes, Sem>): map<Bytes, Sem> {
    Merged(Some(SDict(target)), SDict(source)).entries
  }

  /** Merging into nothing copies. */
  lemma {:induction false} MergedWithNone(s: Sem)
    ensures Merged(None, s) == s
  {
    if s.SDict? {
      forall k | k in s.entries
        ensures Merged(None, s.entries[k]) == s.entries[k]
      {
        MergedWithNone(s.entries[k]);
      }
      var e: map<Bytes, Sem> := map[];
      assert forall k :: Lookup(e, k) == None;
      assert Merged(None, s).entries == s.entries;
    }
  }

  lemma MergedWithEmpty(source: map<Bytes, Sem>)
    ensures MergedMap(map[], source) == source
  {
    MergedWithNone(SDict(source));
  }

  lemma MergedStep(target: map<Bytes, Sem>, source: map<Bytes, Sem>, key: Bytes, s: Sem)
    requires key !in source
    ensures MergedMap(target, source[key := s]) == MergedMap(target, source)[key := Merged(Lookup(target, key), s)]
    ensures Lookup(MergedMap(target, source), key) == Lookup(target, key)
  {
    var all := source[key := s];
    var l, r := MergedMap(target, all), MergedMap(target, source)[key := Merged(Lookup(target, key), s)];
    forall k
      ensures k in l <==> k in r
      ensures k in l ==> l[k] == r[k]
    {
    }
    assert l == r;
  }

  // ---------- the rules of merging ----------

  /** r has, at one key, what merging s into t comes to: a scalar of the source is taken over; a list or dictionary only where
      the target has nothing; else the target's value stays, but two dictionaries make a dictionary. */
  ghost predicate FollowsRule(t: map<Bytes, Sem>, s: map<Bytes, Sem>, r: map<Bytes, Sem>, key: Bytes) {
    (key in r <==> key in t || key in s) &&
    (key in t && key !in s ==> r[key] == t[key]) &&
    (key in s && !s[key].SList? && !s[key].SDict? ==> r[key] == s[key]) &&
    (key in s && key !in t ==> r[key] == s[key]) &&
    (key in s && key in t && s[key].SList? ==> r[key] == t[key]) &&
    (key in s && key in t && s[key].SDict? && !t[key].SDict? ==> r[key] == t[key]) &&
    (key in s && key in t && s[key].SDict? && t[key].SDict? ==> r[key].SDict?)
  }

  ghost predicate FollowsRules(t: map<Bytes, Sem>, s: map<Bytes, Sem>, r: map<Bytes, Sem>) {
    forall key :: FollowsRule(t, s, r, key)
  }

  /** The dictionary at the end of a path of keys; empty if there is none */
  function Under(m: map<Bytes, Sem>, path: seq<Bytes>): map<Bytes, Sem>
    decreases |path|
  {
    if path == [] then m
    else if path[0] in m && m[path[0]].SDict? then Under(m[path[0]].entries, path[1..])
    else map[]
  }

  /** All along the path the source has dictionaries, and the target has dictionaries or nothing. */
  predicate Meets(t: map<Bytes, Sem>, s: map<Bytes, Sem>, path: seq<Bytes>)
    decreases |path|
  {
    path == [] || (
      path[0] in s && s[path[0]].SDict? && (path[0] in t ==> t[path[0]].SDict?) &&
      Meets(Under(t, path[..1]), s[path[0]].entries, path[1..]))
  }

  /** At the end of every path along which dictionaries meet, the rules hold again. */
  ghost predicate FollowsRulesEverywhere(t: map<Bytes, Sem>, s: map<Bytes, Sem>, r: map<Bytes, Sem>) {
    forall path :: Meets(t, s, path) ==> FollowsRules(Under(t, path), Under(s, path), Under(r, path))
  }

  lemma MergedFollowsHere(t: map<Bytes, Sem>, s: map<Bytes, Sem>)
    ensures FollowsRules(t, s, MergedMap(t, s))
  {
    forall key
      ensures FollowsRule(t, s, MergedMap(t, s), key)
    {
      if key in s {
        assert MergedMap(t, s)[key] == Merged(Lookup(t, key), s[key]);
        MergedWithNone(s[key]);
        if s[key].SDict? && key in t && t[key].SDict? {
          MergedDict(Lookup(t, key), t[key].entries, s[key].entries);
        }
      }
    }
  }

  lemma {:induction false} MergedFollows(t: map<Bytes, Sem>, s: map<Bytes, Sem>, path: seq<Bytes>)
    requires Meets(t, s, path)
    ensures FollowsRules(Under(t, path), Under(s, path), Under(MergedMap(t, s), path))
    decreases |path|
  {
    if path == [] {
      MergedFollowsHere(t, s);
    } else {
      var key, had, entries := path[0], Under(t, path[..1]), s[path[0]].entries;
      assert path[..1] == [key];
      UnderOne(t, key);
      MergedDict(Lookup(t, key), had, entries);
      assert MergedMap(t, s)[key] == SDict(MergedMap(had, entries));
      MergedFollows(had, entries, path[1..]);
      UnderStep(t, path);
    }
  }

  lemma UnderOne(t: map<Bytes, Sem>, key: Bytes)
    ensures Under(t, [key]) == if key in t && t[key].SDict? then t[key].entries else map[]
  {
    assert [key][1..] == [];
  }

  lemma UnderStep(t: map<Bytes, Sem>, path: seq<Bytes>)
    requires path != [] && (path[0] in t ==> t[path[0]].SDict?)
    ensures Under(t, path) == Under(Under(t, path[..1]), path[1..])
  {
    assert path[..1][1..] == [];
    UnderNothing(path[1..]);
  }

  lemma UnderNothing(path: seq<Bytes>)
    ensures Under(map[], path) == map[]
  {
  }

  lemma MergedFollowsEverywhere(t: map<Bytes, Sem>, s: map<Bytes, Sem>)
    ensures FollowsRulesEverywhere(t, s, MergedMap(t, s))
  {
    forall path | Meets(t, s, path)
      ensures FollowsRules(Under(t, path), Under(s, path), Under(MergedMap(t, s), path))
    {
      MergedFollows(t, s, path);
    }
  }

  /** At every depth, no dictionary has a key twice. */
  predicate DistinctKeys(v: Benc) {
    match v
    case List(items) => forall k :: 0 <= k < |items| ==> DistinctKeys(items[k])
    case Dict(pairs) => Distinct(pairs) && forall k :: 0 <= k < |pairs| ==> DistinctKeys(pairs[k].val)
    case _ => true
  }

  // ---------- lookup, removal, replacement ----------

  /** dictIndexOf, counted in pairs */
  method DictIndexOf(pairs: seq<Pair>, key: Bytes) returns (i: nat)
    ensures i <= |pairs| && (i < |pairs| ==> pairs[i].key == key)
    ensures forall k :: 0 <= k < i ==> pairs[k].key != key
  {
    i := 0;
    while i < |pairs|
      invariant i <= |pairs| && forall k :: 0 <= k < i ==> pairs[k].key != key
    {
      if pairs[i].key == key {
        return;
      }
      i := i + 1;
    }
  }

  /** What a dictionary without repeated keys maps */
  lemma MapIs(pairs: seq<Pair>, m: map<Bytes, Sem>)
    requires Distinct(pairs)
    requires forall k :: 0 <= k < |pairs| ==> pairs[k].key in m && m[pairs[k].key] == Meaning(pairs[k].val)
    requires forall key :: key in m ==> HasKey(pairs, key)
    ensures MapOf(pairs) == m
  {
    forall key
      ensures key in MapOf(pairs) <==> key in m
      ensures key in m ==> MapOf(pairs)[key] == m[key]
    {
      MapKeys(pairs, key);
      if HasKey(pairs, key) {
        var k :| 0 <= k < |pairs| && pairs[k].key == key;
        MapPair(pairs, pairs[k]);
      }
    }
  }

  lemma MapAt(pairs: seq<Pair>, k: nat)
    requires Distinct(pairs) && k < |pairs|
    ensures pairs[k].key in MapOf(pairs) && MapOf(pairs)[pairs[k].key] == Meaning(pairs[k].val)
  {
    MapPair(pairs, pairs[k]);
  }

  /** Moving the last pair into the gap */
  predicate GapFilled(pairs: seq<Pair>, i: nat, r: seq<Pair>) {
    i < |pairs| && |r| == |pairs| - 1 &&
    forall k :: 0 <= k < |r| ==> r[k] == if k == i then pairs[|pairs| - 1] else pairs[k]
  }

  lemma RemovedMap(pairs: seq<Pair>, i: nat, r: seq<Pair>)
    requires Distinct(pairs) && GapFilled(pairs, i, r)
    ensures Distinct(r) && MapOf(r) == MapOf(pairs) - {pairs[i].key}
  {
    var m := MapOf(pairs) - {pairs[i].key};
    forall k | 0 <= k < |r|
      ensures r[k].key in m && m[r[k].key] == Meaning(r[k].val)
    {
      MapAt(pairs, if k == i then |pairs| - 1 else k);
    }
    forall key | key in m
      ensures HasKey(r, key)
    {
      MapKeys(pairs, key);
      var k :| 0 <= k < |pairs| && pairs[k].key == key;
      assert r[if k == |pairs| - 1 then i else k].key == key;
    }
    MapIs(r, m);
  }

  lemma AddedMap(pairs: seq<Pair>, p: Pair)
    requires Distinct(pairs) && !HasKey(pairs, p.key)
    ensures Distinct(pairs + [p]) && MapOf(pairs + [p]) == MapOf(pairs)[p.key := Meaning(p.val)]
  {
    var r, m := pairs + [p], MapOf(pairs)[p.key := Meaning(p.val)];
    forall k | 0 <= k < |r|
      ensures r[k].key in m && m[r[k].key] == Meaning(r[k].val)
    {
      if k < |pairs| {
        MapAt(pairs, k);
      }
    }
    forall key | key in m
      ensures HasKey(r, key)
    {
      MapKeys(pairs, key);
      if HasKey(pairs, key) {
        var k :| 0 <= k < |pairs| && pairs[k].key == key;
        assert r[k].key == key;
      } else {
        assert r[|pairs|].key == key;
      }
    }
    MapIs(r, m);
  }

  lemma ReplacedMap(pairs: seq<Pair>, i: nat, v: Benc)
    requires Distinct(pairs) && i < |pairs|
    ensures var r := pairs[i := Pair(pairs[i].key, v)];
      Distinct(r) && MapOf(r) == MapOf(pairs)[pairs[i].key := Meaning(v)]
  {
    var r := pairs[i := Pair(pairs[i].key, v)];
    var m := MapOf(pairs)[pairs[i].key := Meaning(v)];
    forall k | 0 <= k < |r|
      ensures r[k].key in m && m[r[k].key] == Meaning(r[k].val)
    {
      MapAt(pairs, k);
    }
    forall key | key in m
      ensures HasKey(r, key)
    {
      MapKeys(pairs, key);
      if key == pairs[i].key {
        assert r[i].key == key;
      } else {
        var k :| 0 <= k < |pairs| && pairs[k].key == key;
        assert r[k].key == key;
      }
    }
    MapIs(r, m);
  }

  /** tr_bencDictRemove: the last pair takes the place of the removed one */
  method DictRemove(pairs: seq<Pair>, key: Bytes) returns (r: seq<Pair>, found: bool)
    ensures found <==> HasKey(pairs, key)
    ensures DistinctKeys(Dict(pairs)) ==> DistinctKeys(Dict(r)) && MapOf(r) == MapOf(pairs) - {key}
  {
    var i := DictIndexOf(pairs, key);
    var n := |pairs|;
    r, found := pairs, i < n;
    if !found {
      MapKeys(pairs, key);
      return;
    }
    if i + 1 < n {
      r := r[i := pairs[n - 1]];
    }
    r := r[..n - 1];
    if DistinctKeys(Dict(pairs)) {
      RemovedMap(pairs, i, r);
    }
  }

  predicate SameType(a: Benc, b: Benc) {
    (a.Int? <==> b.Int?) && (a.Bool? <==> b.Bool?) && (a.Str? <==> b.Str?) && (a.List? <==> b.List?)
  }

  /** tr_bencDictAdd: a new pair at the end, whose value the caller fills in */
  function DictAdd(pairs: seq<Pair>, key: Bytes): seq<Pair> {
    pairs + [Pair(key, Int(0))]
  }

  ghost predicate IsSet(pairs: seq<Pair>, key: Bytes, v: Benc, r: seq<Pair>) {
    DistinctKeys(Dict(r)) && MapOf(r) == MapOf(pairs)[key := Meaning(v)]
  }

  /** tr_bencDictAddInt, -Bool and -Raw, with dictFindOrAdd: a value of the same type is overwritten where
      it is, any other is removed first */
  method DictSet(pairs: seq<Pair>, key: Bytes, v: Benc) returns (r: seq<Pair>)
    ensures DistinctKeys(Dict(pairs)) && DistinctKeys(v) ==> IsSet(pairs, key, v, r)
  {
    ghost var ok := DistinctKeys(Dict(pairs)) && DistinctKeys(v);
    r := pairs;
    var i := DictIndexOf(r, key);
    if i < |r| && SameType(r[i].val, v) {
      if ok {
        ReplacedSet(pairs, i, v);
      }
    } else {
      if i < |r| {
        var found;
        r, found := DictRemove(r, key);
      } else {
        MapKeys(pairs, key);
      }
      if ok {
        AddedSet(pairs, key, v, r);
      }
      i := |r|;
      r := DictAdd(r, key);
      assert r[i := Pair(key, v)] == r[..i] + [Pair(key, v)];
    }
    r := r[i := Pair(key, v)];
  }

  lemma ReplacedSet(pairs: seq<Pair>, i: nat, v: Benc)
    requires DistinctKeys(Dict(pairs)) && DistinctKeys(v) && i < |pairs|
    ensures IsSet(pairs, pairs[i].key, v, pairs[i := Pair(pairs[i].key, v)])
  {
    ReplacedMap(pairs, i, v);
  }

  lemma AddedSet(pairs: seq<Pair>, key: Bytes, v: Benc, rest: seq<Pair>)
    requires DistinctKeys(v) && DistinctKeys(Dict(rest)) && MapOf(rest) == MapOf(pairs) - {key}
    ensures IsSet(pairs, key, v, rest + [Pair(key, v)])
  {
    MapKeys(rest, key);
    AddedMap(rest, Pair(key, v));
  }

  // ---------- merging ----------

  /** Keys pass through the interface as C strings. */
  function AsCString(s: Bytes): Bytes {
    if s == [] || s[0] == 0 then [] else [s[0]] + AsCString(s[1..])
  }

  lemma {:induction false} AsCStringOf(s: Bytes)
    requires CString(s)
    ensures AsCString(s) == s
  {
    if s != [] {
      AsCStringOf(s[1..]);
    }
  }

  ghost predicate IsMerged(dict: seq<Pair>, key: Bytes, val: Benc, r: seq<Pair>) {
    DistinctKeys(Dict(r)) && MapOf(r) == MapOf(dict)[key := Merged(Lookup(MapOf(dict), key), Meaning(val))]
  }

  /** tr_bencListCopy */
  method ListCopy(target: seq<Benc>, src: seq<Benc>) returns (r: seq<Benc>)
    ensures DistinctKeys(List(target)) && WellKeyed(List(src)) ==>
      DistinctKeys(List(r)) && MeaningAll(r) == MeaningAll(target) + MeaningAll(src)
    decreases src, 0
  {
    ghost var ok := DistinctKeys(List(target)) && WellKeyed(List(src));
    r := target;
    var i: nat := 0;
    while i < |src|
      invariant i <= |src|
      invariant ok ==> DistinctKeys(List(r)) && MeaningAll(r) == MeaningAll(target) + MeaningAll(src[..i])
    {
      var val := src[i];
      var copy := CopyOf(val);
      MeaningOfAppend(r, copy);
      MeaningOfAppend(src[..i], val);
      assert src[..i] + [val] == src[..i + 1];
      r := r + [copy];
      i := i + 1;
    }
    assert src[..i] == src;
  }

  method CopyOf(val: Benc) returns (copy: Benc)
    ensures WellKeyed(val) ==> DistinctKeys(copy) && Meaning(copy) == Meaning(val)
    decreases val
  {
    copy := val;
    if val.Dict? {
      var pairs := MergeDicts([], val.pairs);
      copy := Dict(pairs);
      MergedWithEmpty(MapOf(val.pairs));
    } else if val.List? {
      var items := ListCopy([], val.items);
      copy := List(items);
    }
  }

  lemma {:induction false} MeaningOfAppend(items: seq<Benc>, v: Benc)
    ensures MeaningAll(items + [v]) == MeaningAll(items) + [Meaning(v)]
  {
    if items != [] {
      assert (items + [v])[1..] == items[1..] + [v];
      MeaningOfAppend(items[1..], v);
    }
  }

  /** One key of the source */
  method MergeOne(dict: seq<Pair>, key: Bytes, val: Benc) returns (r: seq<Pair>)
    ensures DistinctKeys(Dict(dict)) && WellKeyed(val) ==> IsMerged(dict, key, val, r)
    ensures DistinctKeys(Dict(dict)) && WellKeyed(val) ==> FollowsRules(MapOf(dict), map[key := Meaning(val)], MapOf(r))
    decreases val
  {
    OneKeyFollows(MapOf(dict), key, Meaning(val));
    match val {
      case Int(_) => r := DictSet(dict, key, val);
      case Bool(_) => r := DictSet(dict, key, val);
      case Str(_) => r := DictSet(dict, key, val);
      case List(items) => r := MergeList(dict, key, items);
      case Dict(pairs) => r := MergeDict(dict, key, pairs);
    }
  }

  lemma OneKeyFollows(t: map<Bytes, Sem>, key: Bytes, s: Sem)
    ensures FollowsRules(t, map[key := s], t[key := Merged(Lookup(t, key), s)])
  {
    var none: map<Bytes, Sem> := map[];
    assert MergedMap(t, none) == t;
    MergedStep(t, none, key, s);
    MergedFollowsHere(t, none[key := s]);
  }

  method MergeList(dict: seq<Pair>, key: Bytes, items: seq<Benc>) returns (r: seq<Pair>)
    ensures DistinctKeys(Dict(dict)) && WellKeyed(List(items)) ==> IsMerged(dict, key, List(items), r)
    decreases items, 1
  {
    ghost var ok := DistinctKeys(Dict(dict)) && WellKeyed(List(items));
    var i := DictIndexOf(dict, key);
    r := dict;
    if i == |dict| {
      var copy := ListCopy([], items);
      r := DictAdd(r, key);
      assert r[i := Pair(key, List(copy))] == dict + [Pair(key, List(copy))];
      r := r[i := Pair(key, List(copy))];
      assert MeaningAll([]) + MeaningAll(items) == MeaningAll(items);
      MapKeys(dict, key);
      if ok {
        AddedMap(dict, Pair(key, List(copy)));
      }
    } else if ok {
      MapAt(dict, i);
    }
  }

  method MergeDict(dict: seq<Pair>, key: Bytes, pairs: seq<Pair>) returns (r: seq<Pair>)
    ensures DistinctKeys(Dict(dict)) && WellKeyed(Dict(pairs)) ==> IsMerged(dict, key, Dict(pairs), r)
    decreases pairs, 1
  {
    ghost var ok := DistinctKeys(Dict(dict)) && WellKeyed(Dict(pairs));
    var i := DictIndexOf(dict, key);
    r := dict;
    if i == |dict| {
      r := DictAdd(r, key);
      r := r[i := Pair(key, Dict([]))];
    }
    if r[i].val.Dict? {
      var merged := MergeDicts(r[i].val.pairs, pairs);
      assert i == |dict| ==> r[i := Pair(key, Dict(merged))] == dict + [Pair(key, Dict(merged))];
      if ok && i < |dict| {
        MergedInto(dict, i, dict[i].val.pairs, pairs, merged);
      } else if ok {
        MergedAfresh(dict, key, pairs, merged);
      }
      r := r[i := Pair(key, Dict(merged))];
    } else if ok {
      MapAt(dict, i);
    }
  }

  lemma MergedDict(t: Option<Sem>, had: map<Bytes, Sem>, source: map<Bytes, Sem>)
    requires if t.Some? then t.value == SDict(had) else had == map[]
    ensures Merged(t, SDict(source)) == SDict(MergedMap(had, source))
  {
  }

  lemma MergedInto(dict: seq<Pair>, i: nat, had: seq<Pair>, pairs: seq<Pair>, merged: seq<Pair>)
    requires DistinctKeys(Dict(dict)) && DistinctKeys(Dict(merged)) && i < |dict| && dict[i].val == Dict(had)
    requires MapOf(merged) == MergedMap(MapOf(had), MapOf(pairs))
    ensures IsMerged(dict, dict[i].key, Dict(pairs), dict[i := Pair(dict[i].key, Dict(merged))])
  {
    MapAt(dict, i);
    ReplacedSet(dict, i, Dict(merged));
    var t := Lookup(MapOf(dict), dict[i].key);
    assert t == Some(SDict(MapOf(had)));
    MergedDict(t, MapOf(had), MapOf(pairs));
  }

  lemma MergedAfresh(dict: seq<Pair>, key: Bytes, pairs: seq<Pair>, merged: seq<Pair>)
    requires DistinctKeys(Dict(dict)) && DistinctKeys(Dict(merged)) && !HasKey(dict, key)
    requires MapOf(merged) == MergedMap(map[], MapOf(pairs))
    ensures IsMerged(dict, key, Dict(pairs), dict + [Pair(key, Dict(merged))])
  {
    MapKeys(dict, key);
    MergedDict(None, map[], MapOf(pairs));
    AddedMap(dict, Pair(key, Dict(merged)));
  }

  /** What merging the pairs of done into target has made of it */
  ghost predicate MergedSoFar(target: seq<Pair>, done: seq<Pair>, r: seq<Pair>) {
    DistinctKeys(Dict(r)) && MapOf(r) == MergedMap(MapOf(target), MapOf(done))
  }

  lemma MergedNext(target: seq<Pair>, done: seq<Pair>, p: Pair, r: seq<Pair>, next: seq<Pair>)
    requires Distinct(done) && !HasKey(done, p.key) && MergedSoFar(target, done, r) && IsMerged(r, p.key, p.val, next)
    ensures MergedSoFar(target, done + [p], next)
  {
    MapKeys(done, p.key);
    AddedMap(done, p);
    MergedStep(MapOf(target), MapOf(done), p.key, Meaning(p.val));
  }

  /** tr_bencMergeDicts */
  method MergeDicts(target: seq<Pair>, source: seq<Pair>) returns (r: seq<Pair>)
    ensures DistinctKeys(Dict(target)) && WellKeyed(Dict(source)) ==>
      DistinctKeys(Dict(r)) && MapOf(r) == MergedMap(MapOf(target), MapOf(source))
    ensures DistinctKeys(Dict(target)) && WellKeyed(Dict(source)) ==>
      FollowsRulesEverywhere(MapOf(target), MapOf(source), MapOf(r))
    decreases source, 0
  {
    ghost var ok := DistinctKeys(Dict(target)) && WellKeyed(Dict(source));
    r := target;
    var i: nat := 0;
    while i < |source|
      invariant i <= |source|
      invariant ok ==> MergedSoFar(target, source[..i], r)
    {
      var next := MergeOne(r, AsCString(source[i].key), source[i].val);
      assert source[..i] + [source[i]] == source[..i + 1];
      if ok {
        AsCStringOf(source[i].key);
        MergedNext(target, source[..i], source[i], r, next);
      }
      r := next;
      i := i + 1;
    }
    assert source[..i] == source;
    MergedFollowsEverywhere(MapOf(target), MapOf(source));
  }
}
