/** A growable array kept sorted by its users (ptrarray.c). */
module PtrArrays {

  /** compare behaves like a comparison: antisymmetric and transitive */
  ghost predicate IsOrder<T(!new)>(compare: (T, T) -> int) {
    && (forall a, b :: compare(a, b) < 0 <==> compare(b, a) > 0)
    && (forall a, b, c :: compare(a, b) <= 0 && compare(b, c) <= 0 ==> compare(a, c) <= 0)
    && (forall a, b, c :: compare(a, b) < 0 && compare(b, c) <= 0 ==> compare(a, c) < 0)
    && (forall a, b, c :: compare(a, b) <= 0 && compare(b, c) < 0 ==> compare(a, c) < 0)
  }

  /** Sorted, and no two elements compare equal */
  ghost predicate SortedUnique<T>(s: seq<T>, compare: (T, T) -> int) {
    forall i, j :: 0 <= i < j < |s| ==> compare(s[i], s[j]) < 0
  }

  /** pos separates the elements below key from the others */
  ghost predicate Splits<T>(s: seq<T>, key: T, compare: (T, T) -> int, pos: nat) {
    && pos <= |s|
    && (forall i :: 0 <= i < pos ==> compare(s[i], key) < 0)
    && (forall i :: pos <= i < |s| ==> compare(s[i], key) >= 0)
  }

  /** Walking up s, the comparison with key passes from negative to positive, at most once being 0 */
  ghost predicate Cuts<T>(s: seq<T>, key: T, compare: (T, T) -> int) {
    forall i, j :: 0 <= i < j < |s| ==>
      (compare(s[j], key) <= 0 ==> compare(s[i], key) < 0) && (compare(s[i], key) >= 0 ==> compare(s[j], key) > 0)
  }

  lemma SortedCuts<T(!new)>(s: seq<T>, key: T, compare: (T, T) -> int)
    requires IsOrder(compare) && SortedUnique(s, compare)
    ensures Cuts(s, key, compare)
  {
    forall i, j | 0 <= i < j < |s|
      ensures compare(s[j], key) <= 0 ==> compare(s[i], key) < 0
      ensures compare(s[i], key) >= 0 ==> compare(s[j], key) > 0
    {
      assert compare(s[i], s[j]) < 0;
      assert compare(s[i], key) > 0 ==> compare(key, s[i]) < 0;
    }
  }

  /** Inserting at the splitting position keeps the array sorted, if nothing there equals the key. */
  lemma InsertKeepsSorted<T(!new)>(s: seq<T>, key: T, compare: (T, T) -> int, pos: nat)
    requires IsOrder(compare) && SortedUnique(s, compare) && Splits(s, key, compare, pos)
    requires pos < |s| ==> compare(s[pos], key) != 0
    ensures SortedUnique(s[..pos] + [key] + s[pos..], compare)
  {
    var r := s[..pos] + [key] + s[pos..];
    forall i, j | 0 <= i < j < |r|
      ensures compare(r[i], r[j]) < 0
    {
      if i == pos {
        assert r[j] == s[j - 1];
        assert compare(key, s[pos]) < 0;
        if pos < j - 1 {
          assert compare(s[pos], s[j - 1]) < 0;
        }
      } else if j == pos {
        assert r[i] == s[i];
      } else {
        assert r[i] == s[if i < pos then i else i - 1] && r[j] == s[if j < pos then j else j - 1];
      }
    }
  }

  class PtrArray<T(!new)> {
    var items: seq<T>

    constructor ()
      ensures items == []
    {
      items := [];
    }

    /** Out-of-range positions mean the end. */
    method Insert(x: T, at: int) returns (pos: nat)
      modifies this
      ensures pos == if at < 0 || |old(items)| < at then |old(items)| else at
      ensures items == old(items)[..pos] + [x] + old(items)[pos..]
    {
      pos := if at < 0 || at > |items| then |items| else at;
      items := items[..pos] + [x] + items[pos..];
    }

    method Erase(begin: nat, end: int)
      requires begin < (if end < 0 then |items| else end) <= |items|
      modifies this
      ensures 0 <= end ==> items == old(items)[..begin] + old(items)[end..]
      ensures end < 0 ==> items == old(items)[..begin]
    {
      var e := if end < 0 then |items| else end;
      items := items[..begin] + items[e..];
    }

    /** Binary search for the first element not below key. */
    method LowerBound(key: T, compare: (T, T) -> int) returns (pos: nat, exact: bool)
      requires Cuts(items, key, compare)
      ensures Splits(items, key, compare, pos)
      ensures exact <==> pos < |items| && compare(items[pos], key) == 0
      ensures exact <==> exists i :: 0 <= i < |items| && compare(items[i], key) == 0
    {
      pos, exact := 0, false;
      if |items| == 0 {
        return;
      }
      var first: nat, last: nat := 0, |items| - 1;
      while true
        invariant first <= last < |items|
        invariant forall i :: 0 <= i < first ==> compare(items[i], key) < 0
        invariant forall i :: last < i < |items| ==> compare(items[i], key) > 0
        decreases last - first
      {
        var half := (last - first) / 2;
        var c := compare(items[first + half], key);
        if c < 0 {
          var newFirst := first + half + 1;
          if newFirst > last {
            return newFirst, false;
          }
          first := newFirst;
        } else if c > 0 {
          var newLast := first + half - 1;
          if newLast < first {
            return first, false;
          }
          last := newLast;
        } else {
          return first + half, true;
        }
      }
    }

    method InsertSorted(x: T, compare: (T, T) -> int) returns (pos: nat)
      requires IsOrder(compare) && SortedUnique(items, compare)
      requires forall i :: 0 <= i < |items| ==> compare(items[i], x) != 0
      modifies this
      ensures pos <= |old(items)| && items == old(items)[..pos] + [x] + old(items)[pos..]
      ensures SortedUnique(items, compare)
    {
      SortedCuts(items, x, compare);
      var exact;
      pos, exact := LowerBound(x, compare);
      InsertKeepsSorted(items, x, compare, pos);
      pos := Insert(x, pos);
    }

    /** The position of the element equal to key, if there is one */
    method FindSorted(key: T, compare: (T, T) -> int) returns (found: bool, pos: nat)
      requires IsOrder(compare) && SortedUnique(items, compare)
      ensures found ==> pos < |items| && compare(items[pos], key) == 0
      ensures !found ==> forall i :: 0 <= i < |items| ==> compare(items[i], key) != 0
    {
      SortedCuts(items, key, compare);
      pos, found := LowerBound(key, compare);
    }
  }
}
