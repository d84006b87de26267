/** Counting in whole units: the products, quotients and remainders by a fixed size that all block and
    piece arithmetic is made of.  They are written as recursions, which keeps every proof that uses
    them linear; TimesIsProduct and UnitsIsQuotient tie them to *, / and %. */
module UnitArithmetic {

  /** n * unit */
  function Times(n: nat, unit: nat): nat {
    if n == 0 then 0 else Times(n - 1, unit) + unit
  }

  /** k / unit */
  function Units(k: nat, unit: nat): nat
    requires 0 < unit
  {
    if k < unit then 0 else 1 + Units(k - unit, unit)
  }

  /** k % unit */
  function Rest(k: nat, unit: nat): nat
    requires 0 < unit
  {
    if k < unit then k else Rest(k - unit, unit)
  }

  lemma {:induction false} TimesIsProduct(n: nat, unit: nat)
    ensures Times(n, unit) == n * unit
  {
    if n > 0 {
      TimesIsProduct(n - 1, unit);
    }
  }

  lemma {:induction false} UnitsIsQuotient(k: nat, unit: nat)
    requires 0 < unit
    ensures Units(k, unit) == k / unit && Rest(k, unit) == k % unit
  {
    if k >= unit {
      UnitsIsQuotient(k - unit, unit);
      QuotientStep(k, unit);
    }
  }

  lemma MulAtLeast(d: int, e: int)
    requires 0 < d
    ensures 1 <= e ==> d <= d * e
    ensures e <= -1 ==> d * e <= -d
  {
  }

  lemma QuotientStep(k: int, d: int)
    requires 0 < d
    ensures k / d == 1 + (k - d) / d && k % d == (k - d) % d
  {
    var q, r := k / d, k % d;
    var q', r' := (k - d) / d, (k - d) % d;
    var e := q - q' - 1;
    assert k == d * q + r && k - d == d * q' + r';
    assert d * q == d * q' + d + d * e;
    MulAtLeast(d, e);
  }

  lemma {:induction false} TimesAdd(a: nat, b: nat, unit: nat)
    ensures Times(a + b, unit) == Times(a, unit) + Times(b, unit)
  {
    if b > 0 {
      TimesAdd(a, b - 1, unit);
    }
  }

  lemma TimesMonotone(a: nat, b: nat, unit: nat)
    requires a <= b
    ensures Times(a, unit) <= Times(b, unit)
    ensures a < b ==> Times(a, unit) + unit <= Times(b, unit)
  {
    TimesAdd(a, b - a, unit);
  }

  lemma {:induction false} TimesTimes(a: nat, b: nat, unit: nat)
    ensures Times(Times(a, b), unit) == Times(a, Times(b, unit))
  {
    if a > 0 {
      TimesTimes(a - 1, b, unit);
      TimesAdd(Times(a - 1, b), b, unit);
    }
  }

  /** Position k lies in unit Units(k, unit), Rest(k, unit) past its start. */
  lemma {:induction false} UnitsSpec(k: nat, unit: nat)
    requires 0 < unit
    ensures k == Times(Units(k, unit), unit) + Rest(k, unit) && Rest(k, unit) < unit
  {
    if k >= unit {
      UnitsSpec(k - unit, unit);
    }
  }

  lemma {:induction false} UnitsUnique(k: nat, unit: nat, q: nat)
    requires 0 < unit && Times(q, unit) <= k < Times(q, unit) + unit
    ensures Units(k, unit) == q && Rest(k, unit) == k - Times(q, unit)
  {
    if q > 0 {
      UnitsUnique(k - unit, unit, q - 1);
    }
  }

  lemma {:induction false} UnitsMonotone(j: nat, k: nat, unit: nat)
    requires 0 < unit && j <= k
    ensures Units(j, unit) <= Units(k, unit)
  {
    if unit <= j {
      UnitsMonotone(j - unit, k - unit, unit);
    }
  }

  /** A position within a stretch of n units starting at unit b lies in one of those units. */
  lemma UnitsWithin(k: nat, b: nat, n: nat, unit: nat)
    requires 0 < unit && Times(b, unit) <= k < Times(b, unit) + Times(n, unit)
    ensures b <= Units(k, unit) < b + n
  {
    UnitsUnique(Times(b, unit), unit, b);
    UnitsMonotone(Times(b, unit), k, unit);
    TimesAdd(b, n, unit);
    var last := Times(b + n, unit) - 1;
    UnitsUnique(last, unit, b + n - 1);
    UnitsMonotone(k, last, unit);
  }

  /** Cutting a positive total into units: how many there are, and how big the last one is */
  function CountOf(total: nat, unit: nat): nat
    requires 0 < unit
  {
    Units(total + unit - 1, unit)
  }

  function LastOf(total: nat, unit: nat): nat
    requires 0 < unit
  {
    if Rest(total, unit) == 0 then unit else Rest(total, unit)
  }

  /** All units but the last are full, and the last one ends at the total. */
  lemma LastUnit(total: nat, unit: nat)
    requires 0 < unit && 0 < total
    ensures 0 < CountOf(total, unit) && 0 < LastOf(total, unit) <= unit
    ensures Times(CountOf(total, unit) - 1, unit) + LastOf(total, unit) == total
  {
    UnitsSpec(total, unit);
    var q := Units(total, unit);
    UnitsUnique(total + unit - 1, unit, if Rest(total, unit) == 0 then q else q + 1);
  }

  lemma UnitExists(total: nat, unit: nat, k: nat)
    requires 0 < unit && k < total
    ensures Units(k, unit) < CountOf(total, unit)
  {
    LastUnit(total, unit);
    UnitsWithin(k, 0, CountOf(total, unit), unit);
  }
}
