/** Blocked address ranges: sorted, merged in place, and searched by halving (blocklist.c). */
module Blocklists {

  datatype Range = Range(begin: nat, end: nat)

  predicate InRange(r: Range, addr: nat) {
    r.begin <= addr <= r.end
  }

  ghost predicate Covers(s: seq<Range>, addr: nat) {
    exists k :: 0 <= k < |s| && InRange(s[k], addr)
  }

  /** In the order of compareAddressRangesByFirstAddress */
  predicate SortedByBegin(s: seq<Range>) {
    forall i, j :: 0 <= i < j < |s| ==> s[i].begin <= s[j].begin
  }

  /** Apart and in ascending order; ranges that end before they begin may be among them */
  predicate Apart(s: seq<Range>) {
    SortedByBegin(s) && forall i, j :: 0 <= i < j < |s| ==> s[i].end < s[j].begin
  }

  lemma CoversPush(s: seq<Range>, r: Range, addr: nat)
    ensures Covers(s + [r], addr) <==> Covers(s, addr) || InRange(r, addr)
  {
    var t := s + [r];
    if k :| 0 <= k < |s| && InRange(s[k], addr) {
      assert t[k] == s[k];
    }
    if InRange(r, addr) {
      assert t[|s|] == r;
    }
  }

  // ---------- sorting ----------

  function Insert(r: Range, s: seq<Range>): seq<Range> {
    if s == [] || r.begin <= s[0].begin then [r] + s else [s[0]] + Insert(r, s[1..])
  }

  /** qsort; which of two ranges with the same first address comes first makes no difference */
  function Sorted(s: seq<Range>): seq<Range> {
    if s == [] then [] else Insert(s[0], Sorted(s[1..]))
  }

  lemma {:induction false} InsertKeepsAll(r: Range, s: seq<Range>)
    ensures multiset(Insert(r, s)) == multiset(s) + multiset{r}
  {
    if s != [] && r.begin > s[0].begin {
      InsertKeepsAll(r, s[1..]);
      assert s == [s[0]] + s[1..];
    }
  }

  lemma SortedPush(first: Range, s: seq<Range>)
    requires SortedByBegin(s) && (s != [] ==> first.begin <= s[0].begin)
    ensures SortedByBegin([first] + s)
  {
  }

  lemma {:induction false} InsertIsSorted(r: Range, s: seq<Range>)
    requires SortedByBegin(s)
    ensures SortedByBegin(Insert(r, s))
    ensures Insert(r, s)[0] == if s == [] || r.begin <= s[0].begin then r else s[0]
  {
    if s == [] || r.begin <= s[0].begin {
      SortedPush(r, s);
    } else {
      var rest := s[1..];
      assert forall k :: 0 <= k < |rest| ==> rest[k] == s[k + 1];
      InsertIsSorted(r, rest);
      SortedPush(s[0], Insert(r, rest));
    }
  }

  lemma {:induction false} SortSorts(s: seq<Range>)
    ensures SortedByBegin(Sorted(s)) && multiset(Sorted(s)) == multiset(s)
  {
    if s != [] {
      SortSorts(s[1..]);
      InsertIsSorted(s[0], Sorted(s[1..]));
      InsertKeepsAll(s[0], Sorted(s[1..]));
      assert s == [s[0]] + s[1..];
    }
  }

  lemma SameCover(s: seq<Range>, t: seq<Range>, addr: nat)
    requires multiset(s) == multiset(t)
    ensures Covers(s, addr) ==> Covers(t, addr)
  {
    if k :| 0 <= k < |s| && InRange(s[k], addr) {
      assert s[k] in multiset(t);
      var j :| 0 <= j < |t| && t[j] == s[k];
    }
  }

  // ---------- merging ----------

  /** The ranges up to keep, after one more has been looked at */
  function MergeOne(m: seq<Range>, r: Range): seq<Range>
    requires m != []
  {
    var keep := |m| - 1;
    if m[keep].end < r.begin then m + [r]
    else if m[keep].end < r.end then m[keep := m[keep].(end := r.end)]
    else m
  }

  function Merged(s: seq<Range>): (m: seq<Range>)
    ensures s != [] ==> m != []
    ensures |m| <= |s|
  {
    if |s| <= 1 then s else MergeOne(Merged(s[..|s| - 1]), s[|s| - 1])
  }

  lemma MergeOneIsApart(m: seq<Range>, r: Range)
    requires m != [] && Apart(m) && m[|m| - 1].begin <= r.begin
    ensures var t := MergeOne(m, r); Apart(t) && t[|t| - 1].begin <= r.begin
  {
  }

  lemma MergeOneCovers(m: seq<Range>, r: Range, addr: nat)
    requires m != [] && m[|m| - 1].begin <= r.begin
    ensures Covers(MergeOne(m, r), addr) <==> Covers(m, addr) || InRange(r, addr)
  {
    var keep := |m| - 1;
    var before := m[..keep];
    assert m == before + [m[keep]];
    CoversPush(m, r, addr);
    CoversPush(before, m[keep], addr);
    CoversPush(before, m[keep].(end := r.end), addr);
    assert m[keep := m[keep].(end := r.end)] == before + [m[keep].(end := r.end)];
  }

  lemma {:induction false} MergedIsApart(s: seq<Range>)
    requires SortedByBegin(s)
    ensures Apart(Merged(s)) && (s != [] ==> Merged(s)[|Merged(s)| - 1].begin <= s[|s| - 1].begin)
  {
    if |s| > 1 {
      MergedIsApart(s[..|s| - 1]);
      MergeOneIsApart(Merged(s[..|s| - 1]), s[|s| - 1]);
    }
  }

  lemma {:induction false} MergedCovers(s: seq<Range>, addr: nat)
    requires SortedByBegin(s)
    ensures Covers(Merged(s), addr) <==> Covers(s, addr)
  {
    if |s| > 1 {
      var before, r := s[..|s| - 1], s[|s| - 1];
      MergedIsApart(before);
      MergedCovers(before, addr);
      MergeOneCovers(Merged(before), r, addr);
      CoversPush(before, r, addr);
      assert s == before + [r];
    }
  }

  /** Merging sorted ranges leaves them apart, and covers the same addresses. */
  lemma MergeIsRight(s: seq<Range>)
    requires SortedByBegin(s)
    ensures Apart(Merged(s)) && forall addr :: Covers(Merged(s), addr) <==> Covers(s, addr)
  {
    MergedIsApart(s);
    forall addr
      ensures Covers(Merged(s), addr) <==> Covers(s, addr)
    {
      MergedCovers(s, addr);
    }
  }

  /** Ranges the right way round stay so, and are then pairwise disjoint. */
  lemma {:induction false} MergeKeepsOrder(s: seq<Range>)
    requires forall k :: 0 <= k < |s| ==> s[k].begin <= s[k].end
    ensures forall k :: 0 <= k < |Merged(s)| ==> Merged(s)[k].begin <= Merged(s)[k].end
  {
    if |s| > 1 {
      MergeKeepsOrder(s[..|s| - 1]);
    }
  }

  /** The merge loop of _tr_blocklistSetContent, with its pointers as indices */
  method MergeInPlace(ranges: array<Range>, count: nat) returns (kept: nat)
    requires 0 < count <= ranges.Length
    modifies ranges
    ensures kept <= count && ranges[..kept] == Merged(old(ranges[..count]))
  {
    ghost var all := ranges[..count];
    var keep: nat, r: nat := 0, 1;
    assert all[..1] == ranges[..1];
    while r != count
      invariant keep < r <= count
      invariant ranges[..keep + 1] == Merged(all[..r])
      invariant forall k :: r <= k < count ==> ranges[k] == all[k]
      decreases count - r
    {
      assert all[..r + 1][..r] == all[..r];
      ghost var m := ranges[..keep + 1];
      if ranges[keep].end < ranges[r].begin {
        keep := keep + 1;
        ranges[keep] := ranges[r];
        assert ranges[..keep + 1] == m + [all[r]];
      } else if ranges[keep].end < ranges[r].end {
        ranges[keep] := ranges[keep].(end := ranges[r].end);
        assert ranges[..keep + 1] == m[keep := m[keep].(end := all[r].end)];
      }
      r := r + 1;
    }
    assert all[..r] == all;
    kept := keep + 1;
  }

  // ---------- the list ----------

  class Blocklist {
    var isEnabled: bool
    var rules: seq<Range>

    ghost predicate Valid()
      reads this
    {
      Apart(rules)
    }

    constructor (isEnabled: bool)
      ensures Valid() && this.isEnabled == isEnabled && rules == []
    {
      this.isEnabled := isEnabled;
      rules := [];
    }

    /** _tr_blocklistSetContent, for the ranges read from the file */
    method SetContent(content: seq<Range>)
      modifies this`rules
      ensures Valid() && forall addr :: Covers(rules, addr) <==> Covers(content, addr)
    {
      if content == [] {
        rules := [];
        return;
      }
      var sorted := Sorted(content);
      SortSorts(content);
      assert |sorted| == |multiset(sorted)|;
      var ranges := new Range[|sorted|](i requires 0 <= i < |sorted| => sorted[i]);
      assert ranges[..|sorted|] == sorted;
      var kept := MergeInPlace(ranges, |sorted|);
      MergeIsRight(sorted);
      rules := ranges[..kept];
      forall addr
        ensures Covers(rules, addr) <==> Covers(content, addr)
      {
        SameCover(sorted, content, addr);
        SameCover(content, sorted, addr);
      }
    }

    /** bsearch with compareAddressToRange */
    method Search(needle: nat) returns (found: bool)
      requires Valid()
      ensures found <==> Covers(rules, needle)
    {
      var lo: nat, hi: nat := 0, |rules|;
      while lo < hi
        invariant lo <= hi <= |rules|
        invariant forall k :: 0 <= k < |rules| && !(lo <= k < hi) ==> !InRange(rules[k], needle)
      {
        var mid := (lo + hi) / 2;
        if needle < rules[mid].begin {
          hi := mid;
        } else if needle > rules[mid].end {
          lo := mid + 1;
        } else {
          return true;
        }
      }
      found := false;
    }

    /** _tr_blocklistHasAddress */
    method HasAddress(addr: nat, isIpv6: bool) returns (blocked: bool)
      requires Valid()
      ensures blocked <==> isEnabled && !isIpv6 && Covers(rules, addr)
    {
      if !isEnabled || isIpv6 {
        return false;
      }
      blocked := Search(addr);
    }
  }
}
