/** Which of the runs that are done or span pieces tr_cacheFlushDone gets to: it walks along the ranked runs and stops at
    the first one that is neither (cache.c). */
module CacheRanks {
  import opened UnitArithmetic
  import opened Geometry
  import opened CacheModel
  import opened CacheRuns

  /** Everything that is done or spans pieces stands at the front. */
  predicate TakesAll(runs: seq<RunInfo>) {
    forall f :: 0 <= f < |runs| && Flagged(runs[f]) ==> f < FlaggedLead(runs)
  }

  // ---------- both ways of settling a tie ----------

  /** The order of the ranks; of equal ones, those that are flagged come first, or last. */
  predicate Before(a: RunInfo, b: RunInfo, flaggedFirst: bool) {
    a.rank > b.rank || (a.rank == b.rank && (Flagged(a) == flaggedFirst || Flagged(b) != flaggedFirst))
  }

  ghost predicate InOrder(runs: seq<RunInfo>, flaggedFirst: bool) {
    forall i, j :: 0 <= i < j < |runs| ==> Before(runs[i], runs[j], flaggedFirst)
  }

  function InsertRun(r: RunInfo, runs: seq<RunInfo>, flaggedFirst: bool): seq<RunInfo> {
    if runs == [] || Before(r, runs[0], flaggedFirst) then [r] + runs
    else [runs[0]] + InsertRun(r, runs[1..], flaggedFirst)
  }

  function Ranked(rs: seq<RunInfo>, flaggedFirst: bool): seq<RunInfo> {
    if rs == [] then [] else InsertRun(rs[0], Ranked(rs[1..], flaggedFirst), flaggedFirst)
  }

  lemma {:induction false} InsertKeeps(r: RunInfo, runs: seq<RunInfo>, flaggedFirst: bool)
    ensures multiset(InsertRun(r, runs, flaggedFirst)) == multiset(runs) + multiset{r}
  {
    if runs != [] && !Before(r, runs[0], flaggedFirst) {
      InsertKeeps(r, runs[1..], flaggedFirst);
      assert runs == [runs[0]] + runs[1..];
    }
  }

  lemma InOrderCons(r: RunInfo, runs: seq<RunInfo>, flaggedFirst: bool)
    requires InOrder(runs, flaggedFirst) && forall i :: 0 <= i < |runs| ==> Before(r, runs[i], flaggedFirst)
    ensures InOrder([r] + runs, flaggedFirst)
  {
  }

  lemma {:induction false} InsertInOrder(r: RunInfo, runs: seq<RunInfo>, flaggedFirst: bool)
    requires InOrder(runs, flaggedFirst)
    ensures InOrder(InsertRun(r, runs, flaggedFirst), flaggedFirst)
  {
    if runs == [] || Before(r, runs[0], flaggedFirst) {
      InOrderCons(r, runs, flaggedFirst);
    } else {
      var rest := runs[1..];
      assert runs == [runs[0]] + rest && forall i :: 0 <= i < |rest| ==> rest[i] == runs[i + 1];
      InsertInOrder(r, rest, flaggedFirst);
      var t := InsertRun(r, rest, flaggedFirst);
      forall i | 0 <= i < |t|
        ensures Before(runs[0], t[i], flaggedFirst)
      {
        InsertKeeps(r, rest, flaggedFirst);
        assert t[i] in multiset(t);
      }
      InOrderCons(runs[0], t, flaggedFirst);
    }
  }

  lemma {:induction false} RankedIsRanking(rs: seq<RunInfo>, flaggedFirst: bool)
    ensures InOrder(Ranked(rs, flaggedFirst), flaggedFirst) && IsRanking(rs, Ranked(rs, flaggedFirst))
  {
    if rs != [] {
      RankedIsRanking(rs[1..], flaggedFirst);
      InsertInOrder(rs[0], Ranked(rs[1..], flaggedFirst), flaggedFirst);
      InsertKeeps(rs[0], Ranked(rs[1..], flaggedFirst), flaggedFirst);
      assert rs == [rs[0]] + rs[1..];
    }
  }

  // ---------- when all are taken ----------

  /** Run u, which is to stay, is less than run f, which is to go; or, if ties are allowed, no more than that. */
  predicate Yields(u: RunInfo, f: RunInfo, ties: bool) {
    !Flagged(u) && Flagged(f) ==> u.rank < f.rank || (ties && u.rank == f.rank)
  }

  ghost predicate AllYield(rs: seq<RunInfo>, ties: bool) {
    forall u, f :: u in rs && f in rs ==> Yields(u, f, ties)
  }

  lemma SameMembers(rs: seq<RunInfo>, runs: seq<RunInfo>, r: RunInfo)
    requires IsRanking(rs, runs)
    ensures r in rs <==> r in runs
  {
    assert r in multiset(rs) <==> r in multiset(runs);
  }

  /** Where everything yields, everything is taken: in any ranking, or in one that puts flagged runs first. */
  lemma YieldingIsTaken(rs: seq<RunInfo>, runs: seq<RunInfo>, ties: bool)
    requires IsRanking(rs, runs) && AllYield(rs, ties) && (ties ==> InOrder(runs, true))
    ensures TakesAll(runs)
  {
    forall k | 0 <= k < |runs| && Flagged(runs[k])
      ensures k < FlaggedLead(runs)
    {
      var i := FlaggedLead(runs);
      if i < |runs| {
        SameMembers(rs, runs, runs[i]);
        SameMembers(rs, runs, runs[k]);
        assert Yields(runs[i], runs[k], ties);
      }
    }
  }

  /** Where u does not yield to f, f is left behind: in any ranking, or in one that puts flagged runs last. */
  lemma RivalIsInFront(rs: seq<RunInfo>, runs: seq<RunInfo>, u: RunInfo, f: RunInfo, ties: bool)
    requires IsRanking(rs, runs) && u in rs && f in rs && !Yields(u, f, ties) && (!ties ==> InOrder(runs, false))
    ensures !TakesAll(runs)
  {
    SameMembers(rs, runs, u);
    SameMembers(rs, runs, f);
    var i :| 0 <= i < |runs| && runs[i] == u;
    var k :| 0 <= k < |runs| && runs[k] == f;
    assert i < k && FlaggedLead(runs) <= i;
  }

  /** However qsort settles ties, everything that is done or spans pieces is taken: exactly if all of it outranks the rest. */
  lemma AllTakenExactly(rs: seq<RunInfo>)
    ensures (forall runs :: IsRanking(rs, runs) ==> TakesAll(runs)) <==> AllYield(rs, false)
  {
    if AllYield(rs, false) {
      forall runs | IsRanking(rs, runs)
        ensures TakesAll(runs)
      {
        YieldingIsTaken(rs, runs, false);
      }
    } else {
      var u, f :| u in rs && f in rs && !Yields(u, f, false);
      var runs := Ranked(rs, false);
      RankedIsRanking(rs, false);
      RivalIsInFront(rs, runs, u, f, false);
      assert IsRanking(rs, runs) && !TakesAll(runs);
    }
  }

  /** Some way of settling ties takes it all: exactly if nothing of the rest outranks any of it. */
  lemma AllMayBeTakenExactly(rs: seq<RunInfo>)
    ensures (exists runs :: IsRanking(rs, runs) && TakesAll(runs)) <==> AllYield(rs, true)
  {
    if AllYield(rs, true) {
      var runs := Ranked(rs, true);
      RankedIsRanking(rs, true);
      YieldingIsTaken(rs, runs, true);
      assert IsRanking(rs, runs) && TakesAll(runs);
    } else {
      var u, f :| u in rs && f in rs && !Yields(u, f, true);
      forall runs | IsRanking(rs, runs)
        ensures !TakesAll(runs)
      {
        RivalIsInFront(rs, runs, u, f, true);
      }
    }
  }

  // ---------- in terms of lengths, ages and flags ----------

  /** The length of a run, plus one for every 32 seconds since its last block came */
  function Waited(r: RunInfo, now: int): int {
    r.len + TruncDiv(now - r.lastBlockTime, 32)
  }

  /** What being done, or spanning pieces, is worth on top of that */
  function Bonus(r: RunInfo): nat {
    (if r.isPieceDone then DONEFLAG else 0) + (if r.isMultiPiece then MULTIFLAG else 0)
  }

  /** calcRuns has given r its rank. */
  predicate HasRank(r: RunInfo, now: int) {
    r.rank == RankOf(r.len, r.lastBlockTime, r.isPieceDone, r.isMultiPiece, now)
  }

  lemma {:induction false} RunsHaveRanks(bs: seq<CacheBlock>, pos: nat, now: int, pieceDone: (nat, nat) -> bool)
    requires pos <= |bs|
    ensures forall r :: r in RunsFrom(bs, pos, now, pieceDone) ==> HasRank(r, now)
    decreases |bs| - pos
  {
    if pos < |bs| {
      RunLengthMaximal(bs, pos);
      RunsHaveRanks(bs, pos + RunLength(bs, pos), now, pieceDone);
    }
  }

  /** Until a run has waited for a day and a half, or is that long, being done or spanning pieces is simply added. */
  lemma BonusIsAdded(r: RunInfo, now: int)
    requires HasRank(r, now) && 0 <= Waited(r, now) < MULTIFLAG
    ensures r.rank == Waited(r, now) + Bonus(r)
  {
  }

  /** Run u, which is to stay, has not waited so long, and is not so long, that it makes up for the flags of f. */
  predicate Waits(u: RunInfo, f: RunInfo, now: int) {
    !Flagged(u) && Flagged(f) ==>
      Waited(u, now) < RankOf(f.len, f.lastBlockTime, f.isPieceDone, f.isMultiPiece, now)
  }

  ghost predicate AllWait(rs: seq<RunInfo>, now: int) {
    forall u, f :: u in rs && f in rs ==> Waits(u, f, now)
  }

  /** tr_cacheFlushDone flushes everything that is done or spans pieces, however ties are settled, exactly if no other run
      makes up for that by its length and age. */
  lemma FlushDoneExactly(bs: seq<CacheBlock>, now: int, pieceDone: (nat, nat) -> bool)
    ensures var rs := RunsFrom(bs, 0, now, pieceDone);
      (forall runs :: IsRanking(rs, runs) ==> TakesAll(runs)) <==> AllWait(rs, now)
  {
    var rs := RunsFrom(bs, 0, now, pieceDone);
    RunsHaveRanks(bs, 0, now, pieceDone);
    AllTakenExactly(rs);
    forall u, f | u in rs && f in rs
      ensures Yields(u, f, false) <==> Waits(u, f, now)
    {
      assert HasRank(u, now) && HasRank(f, now);
    }
  }

  // ---------- a completed piece that stays in the cache ----------

  /** Three pieces of one block each; the first block has been waiting for three days, the last one is new. */
  function OldAndNew(size: nat, now: int): seq<CacheBlock> {
    var tor := Torrent(1, size, 1, [size, size, size]);
    [CacheBlock(tor, 0, 0, size, now - 32 * (DONEFLAG + 1), 0, seq(size, _ => 0)),
     CacheBlock(tor, 2, 0, size, now, 2, seq(size, _ => 0))]
  }

  lemma OldAndNewOk(size: nat, now: int)
    requires 0 < size
    ensures BlocksOk(OldAndNew(size, now))
  {
    var bs := OldAndNew(size, now);
    var tor := bs[0].tor;
    assert tor.FileOffset(1) == size && tor.FileOffset(2) == size + size && tor.TotalSize() == size + size + size;
    TimesIsProduct(1, size);
    TimesIsProduct(2, size);
    TimesIsProduct(3, size);
    UnitsUnique(Times(3, size), size, 3);
    UnitsUnique(Times(3, size) + size - 1, size, 3);
    assert BlockOk(bs[0]) && BlockOk(bs[1]);
  }

  lemma TwoRanked(a: RunInfo, b: RunInfo, runs: seq<RunInfo>)
    requires a.rank > b.rank && IsRanking([a] + [b], runs)
    ensures runs == [a, b]
  {
    assert |multiset(runs)| == |runs| == 2;
    assert a in multiset(runs) && b in multiset(runs);
  }

  lemma TwoRuns(bs: seq<CacheBlock>, now: int, pieceDone: (nat, nat) -> bool)
    requires |bs| == 2 && !Joined(bs, 0)
    ensures RunLength(bs, 0) == 1 && RunLength(bs, 1) == 1
    ensures RunsFrom(bs, 0, now, pieceDone) == [RunAt(bs, 0, now, pieceDone)] + [RunAt(bs, 1, now, pieceDone)]
  {
    assert RunsFrom(bs, 2, now, pieceDone) == [];
    assert RunsFrom(bs, 1, now, pieceDone) == [RunAt(bs, 1, now, pieceDone)];
  }

  lemma OldAndNewRanks(size: nat, now: int, pieceDone: (nat, nat) -> bool)
    requires pieceDone(1, 2) && !pieceDone(1, 0)
    ensures var bs := OldAndNew(size, now);
      var a, b := RunAt(bs, 0, now, pieceDone), RunAt(bs, 1, now, pieceDone);
      !Flagged(a) && Flagged(b) && a.rank == DONEFLAG + 2 && b.rank == DONEFLAG + 1
  {
    var bs := OldAndNew(size, now);
    TwoRuns(bs, now, pieceDone);
  }

  /** The last piece is complete and the first one is not, but tr_cacheFlushDone leaves the array as it is. */
  lemma CompletedPieceStays(size: nat, now: int, pieceDone: (nat, nat) -> bool, runs: seq<RunInfo>)
    requires 0 < size && pieceDone(1, 2) && !pieceDone(1, 0)
    requires IsRanking(RunsFrom(OldAndNew(size, now), 0, now, pieceDone), runs)
    ensures var bs := OldAndNew(size, now);
      BlocksOk(bs) && |runs| == 2 && Flagged(runs[1]) && Kept(bs, runs[..FlaggedLead(runs)], |bs|) == bs
  {
    var bs := OldAndNew(size, now);
    OldAndNewOk(size, now);
    TwoRuns(bs, now, pieceDone);
    OldAndNewRanks(size, now, pieceDone);
    TwoRanked(RunAt(bs, 0, now, pieceDone), RunAt(bs, 1, now, pieceDone), runs);
    assert runs[..0] == [];
    KeptNothingTaken(bs, |bs|);
  }
}
