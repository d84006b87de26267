/** Measuring rates with a ring of slots: what the ring forgets is too old to matter
    (bandwidth.c, bandwidth.h, history.c, history.h). */
module RateRings {
  import opened UnitArithmetic

  const HISTORY_MSEC := 2000
  const GRANULARITY_MSEC := 200
  const HISTORY_SIZE := 10
  const RECENT_HISTORY_PERIOD_SEC := 60

  /** A slot counts what happened from its date on, until it is older than the granularity. */
  datatype Slot = Slot(date: nat, size: nat)

  /** What really happened, and when */
  datatype Entry = Entry(time: nat, size: nat)

  // ---------- slots and what they stand for ----------

  /** The total of the slots that are younger than the cutoff */
  function SlotsAfter(h: seq<Slot>, cutoff: int): nat {
    if h == [] then 0 else
      var last := h[|h| - 1];
      SlotsAfter(h[..|h| - 1], cutoff) + if last.date > cutoff then last.size else 0
  }

  /** The total of what happened after the cutoff */
  function LoggedAfter(log: seq<Entry>, cutoff: int): nat {
    if log == [] then 0 else
      var last := log[|log| - 1];
      LoggedAfter(log[..|log| - 1], cutoff) + if last.time > cutoff then last.size else 0
  }

  /** For every cutoff, the slots count at least what happened a granularity later, and at most what happened
      later at all. */
  ghost predicate Brackets(h: seq<Slot>, log: seq<Entry>, granularity: nat) {
    forall cutoff: int ::
      LoggedAfter(log, cutoff + granularity) <= SlotsAfter(h, cutoff) && SlotsAfter(h, cutoff) <= LoggedAfter(log, cutoff)
  }

  lemma SlotsPush(h: seq<Slot>, s: Slot, cutoff: int)
    ensures SlotsAfter(h + [s], cutoff) == SlotsAfter(h, cutoff) + if s.date > cutoff then s.size else 0
  {
    assert (h + [s])[..|h|] == h;
  }

  lemma LogPush(log: seq<Entry>, e: Entry, cutoff: int)
    ensures LoggedAfter(log + [e], cutoff) == LoggedAfter(log, cutoff) + if e.time > cutoff then e.size else 0
  {
    assert (log + [e])[..|log|] == log;
  }

  lemma OpenKeepsBrackets(h: seq<Slot>, log: seq<Entry>, granularity: nat, now: nat, size: nat)
    requires Brackets(h, log, granularity)
    ensures Brackets(h + [Slot(now, size)], log + [Entry(now, size)], granularity)
  {
    forall cutoff: int
      ensures LoggedAfter(log + [Entry(now, size)], cutoff + granularity) <= SlotsAfter(h + [Slot(now, size)], cutoff)
      ensures SlotsAfter(h + [Slot(now, size)], cutoff) <= LoggedAfter(log + [Entry(now, size)], cutoff)
    {
      SlotsPush(h, Slot(now, size), cutoff);
      LogPush(log, Entry(now, size), cutoff);
      LogPush(log, Entry(now, size), cutoff + granularity);
    }
  }

  lemma AddKeepsBrackets(h: seq<Slot>, log: seq<Entry>, granularity: nat, now: nat, size: nat)
    requires h != [] && Brackets(h, log, granularity)
    requires h[|h| - 1].date <= now <= h[|h| - 1].date + granularity
    ensures var last := h[|h| - 1];
      Brackets(h[|h| - 1 := Slot(last.date, last.size + size)], log + [Entry(now, size)], granularity)
  {
    var before, last := h[..|h| - 1], h[|h| - 1];
    var t := h[|h| - 1 := Slot(last.date, last.size + size)];
    assert t[..|t| - 1] == before;
    forall cutoff: int
      ensures LoggedAfter(log + [Entry(now, size)], cutoff + granularity) <= SlotsAfter(t, cutoff)
      ensures SlotsAfter(t, cutoff) <= LoggedAfter(log + [Entry(now, size)], cutoff)
    {
      assert LoggedAfter(log, cutoff + granularity) <= SlotsAfter(h, cutoff) <= LoggedAfter(log, cutoff);
      LogPush(log, Entry(now, size), cutoff);
      LogPush(log, Entry(now, size), cutoff + granularity);
    }
  }

  // ---------- what the ring may forget ----------

  /** Slots are past more than a granularity apart, after the first ones, which stand for nothing. */
  ghost predicate Spaced(h: seq<Slot>, size: nat, granularity: nat) {
    (forall i :: 0 <= i < size && i < |h| ==> h[i] == Slot(0, 0)) &&
    forall j :: size < j < |h| ==> h[j - 1].date + granularity < h[j].date
  }

  lemma {:induction false} FarApart(h: seq<Slot>, size: nat, granularity: nat, i: nat, k: nat)
    requires Spaced(h, size, granularity) && size <= i && i + k < |h|
    ensures h[i].date + Times(k, granularity + 1) <= h[i + k].date
  {
    if k > 0 {
      FarApart(h, size, granularity, i, k - 1);
      assert h[i + k - 1].date + granularity < h[i + k].date;
    }
  }

  lemma {:induction false} GoneSlots(h: seq<Slot>, m: nat, cutoff: int)
    requires m <= |h| && forall i :: 0 <= i < m ==> h[i].date <= cutoff || h[i].size == 0
    ensures SlotsAfter(h[..m], cutoff) == 0
  {
    if m > 0 {
      GoneSlots(h, m - 1, cutoff);
      assert h[..m][..m - 1] == h[..m - 1];
    }
  }

  /** A slot that is too old, and everything before it, counts for nothing. */
  lemma TooOld(h: seq<Slot>, size: nat, granularity: nat, m: nat, cutoff: int)
    requires Spaced(h, size, granularity) && 0 < m <= |h| && h[m - 1].date <= cutoff
    ensures SlotsAfter(h[..m], cutoff) == 0
  {
    forall i: nat | i < m
      ensures h[i].date <= cutoff || h[i].size == 0
    {
      if i >= size {
        FarApart(h, size, granularity, i, m - 1 - i);
      }
    }
    GoneSlots(h, m, cutoff);
  }

  /** Slots that the ring has overwritten are older than the window. */
  lemma Overwritten(h: seq<Slot>, size: nat, granularity: nat, window: nat, cutoff: int)
    requires 0 < size < |h| && Spaced(h, size, granularity) && window <= Times(size, granularity + 1)
    requires h[|h| - 1].date <= cutoff + window
    ensures SlotsAfter(h[..|h| - size], cutoff) == 0
  {
    var m := |h| - size;
    forall i: nat | i < m
      ensures h[i].date <= cutoff || h[i].size == 0
    {
      if i >= size {
        FarApart(h, size, granularity, i, |h| - 1 - i);
        TimesMonotone(size, |h| - 1 - i, granularity + 1);
      }
    }
    GoneSlots(h, m, cutoff);
  }

  /** What is added to the newest slot, if that stands for something, leaves the dates as they are. */
  lemma AddKeepsSpaced(h: seq<Slot>, size: nat, granularity: nat, s: Slot)
    requires 0 < size <= |h| && Spaced(h, size, granularity) && 0 < s.date == h[|h| - 1].date
    ensures Spaced(h[|h| - 1 := s], size, granularity)
  {
  }

  // ---------- the ring ----------

  /** The place k slots before the newest in a ring of so many */
  function Back(size: nat, newest: nat, k: nat): nat
    requires k < size && newest < size
  {
    if k <= newest then newest - k else newest + size - k
  }

  /** The ring holds the last slots of h. */
  ghost predicate Mirrors(ring: seq<Slot>, newest: nat, h: seq<Slot>) {
    newest < |ring| <= |h| && forall k :: 0 <= k < |ring| ==> ring[Back(|ring|, newest, k)] == h[|h| - 1 - k]
  }

  lemma NewestMirrors(ring: seq<Slot>, newest: nat, h: seq<Slot>)
    requires Mirrors(ring, newest, h)
    ensures ring[newest] == h[|h| - 1]
  {
    assert ring[Back(|ring|, newest, 0)] == h[|h| - 1 - 0];
  }

  lemma ChangeMirrors(ring: seq<Slot>, newest: nat, h: seq<Slot>, s: Slot)
    requires Mirrors(ring, newest, h)
    ensures Mirrors(ring[newest := s], newest, h[|h| - 1 := s])
  {
  }

  lemma OpenMirrors(ring: seq<Slot>, newest: nat, h: seq<Slot>, s: Slot)
    requires Mirrors(ring, newest, h)
    ensures var next := if newest + 1 == |ring| then 0 else newest + 1; Mirrors(ring[next := s], next, h + [s])
  {
    var next := if newest + 1 == |ring| then 0 else newest + 1;
    forall k | 0 <= k < |ring|
      ensures ring[next := s][Back(|ring|, next, k)] == (h + [s])[|h| - k]
    {
      if k > 0 {
        assert Back(|ring|, next, k) == Back(|ring|, newest, k - 1);
        assert ring[Back(|ring|, newest, k - 1)] == h[|h| - 1 - (k - 1)];
      }
    }
  }

  class Ring {
    const granularity: nat
    const window: nat
    const slots: array<Slot>
    var newest: nat
    // every slot there has been, the newest last; what was logged; and when last
    ghost var past: seq<Slot>
    ghost var log: seq<Entry>
    ghost var clock: nat

    ghost predicate Valid()
      reads this, slots
    {
      0 < slots.Length && granularity < window <= Times(slots.Length, granularity + 1) &&
      Mirrors(slots[..], newest, past) && Spaced(past, slots.Length, granularity) &&
      Brackets(past, log, granularity) && past[|past| - 1].date <= clock
    }

    constructor (size: nat, granularity: nat, window: nat)
      requires 0 < size && granularity < window <= Times(size, granularity + 1)
      ensures Valid() && fresh(slots) && log == [] && clock == 0
      ensures this.granularity == granularity && this.window == window && slots.Length == size
    {
      this.granularity, this.window := granularity, window;
      slots := new Slot[size](_ => Slot(0, 0));
      newest := 0;
      past := seq(size, _ => Slot(0, 0));
      log := [];
      clock := 0;
      new;
      forall cutoff: int
        ensures SlotsAfter(past, cutoff) == 0
      {
        assert past[..size] == past;
        GoneSlots(past, size, cutoff);
      }
    }

    /** bytesUsed and tr_historyAdd, with time not going backwards */
    method Log(now: nat, n: nat)
      requires Valid() && clock <= now && window <= now
      modifies this`newest, this`past, this`log, this`clock, slots
      ensures Valid() && log == old(log) + [Entry(now, n)] && clock == now
    {
      NewestMirrors(slots[..], newest, past);
      if slots[newest].date + granularity >= now {
        AddToNewest(now, n);
      } else {
        OpenNext(now, n);
      }
    }

    method AddToNewest(now: nat, n: nat)
      requires Valid() && clock <= now && window <= now && past[|past| - 1].date + granularity >= now
      modifies this`past, this`log, this`clock, slots
      ensures Valid() && log == old(log) + [Entry(now, n)] && clock == now
    {
      ghost var ring := slots[..];
      NewestMirrors(ring, newest, past);
      AddKeepsBrackets(past, log, granularity, now, n);
      slots[newest] := Slot(slots[newest].date, slots[newest].size + n);
      ChangeMirrors(ring, newest, past, slots[newest]);
      AddKeepsSpaced(past, slots.Length, granularity, slots[newest]);
      assert slots[..] == ring[newest := slots[newest]];
      past := past[|past| - 1 := slots[newest]];
      log := log + [Entry(now, n)];
      clock := now;
    }

    method OpenNext(now: nat, n: nat)
      requires Valid() && clock <= now && past[|past| - 1].date + granularity < now
      modifies this`newest, this`past, this`log, this`clock, slots
      ensures Valid() && log == old(log) + [Entry(now, n)] && clock == now
    {
      ghost var ring := slots[..];
      OpenKeepsBrackets(past, log, granularity, now, n);
      OpenMirrors(ring, newest, past, Slot(now, n));
      newest := if newest + 1 == slots.Length then 0 else newest + 1;
      slots[newest] := Slot(now, n);
      assert slots[..] == ring[newest := Slot(now, n)];
      past := past + [Slot(now, n)];
      log := log + [Entry(now, n)];
      clock := now;
    }

    /** The loops of getSpeed_Bps and tr_historyGet */
    method Sum(cutoff: int) returns (total: nat)
      requires Valid() && clock <= cutoff + window
      ensures total == SlotsAfter(past, cutoff)
    {
      total := SumSlots(slots[..], newest, past, granularity, window, cutoff);
    }
  }

  /** Going back k slots has counted all but the ones before. */
  ghost predicate Counted(h: seq<Slot>, k: nat, cutoff: int, total: nat) {
    k <= |h| && SlotsAfter(h[..|h| - k], cutoff) + total == SlotsAfter(h, cutoff)
  }

  lemma CountOne(h: seq<Slot>, k: nat, cutoff: int, total: nat)
    requires k < |h| && Counted(h, k, cutoff, total) && h[|h| - 1 - k].date > cutoff
    ensures Counted(h, k + 1, cutoff, total + h[|h| - 1 - k].size)
  {
    assert h[..|h| - k][..|h| - k - 1] == h[..|h| - k - 1];
  }

  /** Going all the way round has counted all that counts. */
  lemma CountedAll(h: seq<Slot>, size: nat, granularity: nat, window: nat, cutoff: int, total: nat)
    requires 0 < size <= |h| && Spaced(h, size, granularity) && window <= Times(size, granularity + 1)
    requires h[|h| - 1].date <= cutoff + window && Counted(h, size, cutoff, total)
    ensures total == SlotsAfter(h, cutoff)
  {
    if size < |h| {
      Overwritten(h, size, granularity, window, cutoff);
    }
  }

  /** The place before place k is place k + 1, or the newest again. */
  lemma OneBack(size: nat, newest: nat, k: nat)
    requires k < size && newest < size
    ensures var i := Back(size, newest, k); var before := if i == 0 then size - 1 else i - 1;
      if k + 1 == size then before == newest else before == Back(size, newest, k + 1) && before != newest
  {
  }

  method SumSlots(ring: seq<Slot>, newest: nat, ghost h: seq<Slot>, ghost granularity: nat, ghost window: nat, cutoff: int)
    returns (total: nat)
    requires Mirrors(ring, newest, h) && Spaced(h, |ring|, granularity) && window <= Times(|ring|, granularity + 1)
    requires h[|h| - 1].date <= cutoff + window
    ensures total == SlotsAfter(h, cutoff)
  {
    var i: nat := newest;
    ghost var k: nat := 0;
    total := 0;
    assert h[..|h|] == h;
    while true
      invariant k < |ring| && i == Back(|ring|, newest, k) && Counted(h, k, cutoff, total)
      decreases |ring| - k
    {
      assert ring[Back(|ring|, newest, k)] == h[|h| - 1 - k];
      if ring[i].date <= cutoff {
        TooOld(h, |ring|, granularity, |h| - k, cutoff);
        return;
      }
      CountOne(h, k, cutoff, total);
      total := total + ring[i].size;
      OneBack(|ring|, newest, k);
      i := if i == 0 then |ring| - 1 else i - 1;
      if i == newest {
        CountedAll(h, |ring|, granularity, window, cutoff, total);
        return;
      }
      k := k + 1;
    }
  }

  // ---------- rates ----------

  class RateControl {
    const ring: Ring
    var cacheTime: nat
    var cacheVal: nat

    ghost function Speed(now: nat): nat
      reads ring
    {
      SlotsAfter(ring.past, now - HISTORY_MSEC) * 1000 / HISTORY_MSEC
    }

    ghost predicate Valid()
      reads this, ring, ring.slots
    {
      ring.Valid() && ring.slots.Length == HISTORY_SIZE && ring.granularity == GRANULARITY_MSEC &&
      ring.window == HISTORY_MSEC && (cacheTime != 0 ==> ring.clock <= cacheTime && cacheVal == Speed(cacheTime))
    }

    constructor ()
      ensures Valid() && fresh(ring) && fresh(ring.slots) && ring.log == [] && ring.clock == 0
    {
      TimesIsProduct(HISTORY_SIZE, GRANULARITY_MSEC + 1);
      ring := new Ring(HISTORY_SIZE, GRANULARITY_MSEC, HISTORY_MSEC);
      cacheTime, cacheVal := 0, 0;
    }

    method BytesUsed(now: nat, size: nat)
      requires Valid() && ring.clock <= now && HISTORY_MSEC <= now
      modifies this`cacheTime, ring, ring.slots
      ensures Valid() && ring.log == old(ring.log) + [Entry(now, size)] && ring.clock == now && cacheTime == 0
    {
      ring.Log(now, size);
      cacheTime := 0;
    }

    /** getSpeed_Bps over the whole history, in milliseconds; the remembered value is always the right one */
    method GetSpeed(now: nat) returns (speed: nat)
      requires Valid() && ring.clock <= now && HISTORY_MSEC <= now
      modifies this`cacheTime, this`cacheVal
      ensures Valid()
      ensures LoggedAfter(ring.log, now - 1800) * 1000 / HISTORY_MSEC <= speed
      ensures speed <= LoggedAfter(ring.log, now - HISTORY_MSEC) * 1000 / HISTORY_MSEC
    {
      if now != cacheTime {
        var bytes := ring.Sum(now - HISTORY_MSEC);
        cacheVal := bytes * 1000 / HISTORY_MSEC;
        cacheTime := now;
      }
      assert LoggedAfter(ring.log, now - HISTORY_MSEC + GRANULARITY_MSEC) <= SlotsAfter(ring.past, now - HISTORY_MSEC)
        <= LoggedAfter(ring.log, now - HISTORY_MSEC);
      speed := cacheVal;
    }
  }

  class RecentHistory {
    const ring: Ring

    ghost predicate Valid()
      reads this, ring, ring.slots
    {
      ring.Valid() && ring.slots.Length == RECENT_HISTORY_PERIOD_SEC && ring.granularity == 0 &&
      ring.window == RECENT_HISTORY_PERIOD_SEC
    }

    constructor ()
      ensures Valid() && fresh(ring) && fresh(ring.slots) && ring.log == [] && ring.clock == 0
    {
      TimesIsProduct(RECENT_HISTORY_PERIOD_SEC, 1);
      ring := new Ring(RECENT_HISTORY_PERIOD_SEC, 0, RECENT_HISTORY_PERIOD_SEC);
    }

    /** tr_historyAdd */
    method Add(now: nat, n: nat)
      requires Valid() && ring.clock <= now && RECENT_HISTORY_PERIOD_SEC <= now
      modifies ring, ring.slots
      ensures Valid() && ring.log == old(ring.log) + [Entry(now, n)] && ring.clock == now
    {
      ring.Log(now, n);
    }

    /** tr_historyGet counts exactly what happened in the last sec seconds, up to the length of the history. */
    method Get(now: nat, sec: nat) returns (n: nat)
      requires Valid() && ring.clock <= now && sec <= RECENT_HISTORY_PERIOD_SEC
      ensures n == LoggedAfter(ring.log, now - sec)
    {
      n := ring.Sum(now - sec);
      assert LoggedAfter(ring.log, now - sec + 0) <= SlotsAfter(ring.past, now - sec) <= LoggedAfter(ring.log, now - sec);
    }
  }
}
