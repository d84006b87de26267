/** Runs of neighbouring blocks in the cache array: finding them, ranking them, and what is left of
    the array, and where, after some of them have been taken out (cache.c). */
module CacheRuns {
  import opened Geometry
  import opened CacheModel

  datatype RunInfo = RunInfo(pos: nat, rank: int, lastBlockTime: int, isMultiPiece: bool, isPieceDone: bool, len: nat)

  const MULTIFLAG := 0x1000
  const DONEFLAG := 0x2000
  const SESSIONFLAG := 0x4000

  /** Division of C: towards zero */
  function TruncDiv(a: int, d: int): int
    requires 0 < d
  {
    if 0 <= a then a / d else -(-a / d)
  }

  /** x | flag for a power of two, on two's complement integers */
  function OrFlag(x: int, flag: int): int
    requires 0 < flag
  {
    if x / flag % 2 == 1 then x else x + flag
  }

  // ---------- finding the runs ----------

  function RunLength(bs: seq<CacheBlock>, pos: nat): nat
    requires pos < |bs|
    decreases |bs| - pos
  {
    if Joined(bs, pos) then 1 + RunLength(bs, pos + 1) else 1
  }

  /** The run at pos is contiguous, and it stops only where the next block does not continue it. */
  lemma {:induction false} RunLengthMaximal(bs: seq<CacheBlock>, pos: nat)
    requires pos < |bs|
    ensures IsRun(bs, pos, RunLength(bs, pos))
    ensures !Joined(bs, pos + RunLength(bs, pos) - 1)
    decreases |bs| - pos
  {
    if Joined(bs, pos) {
      RunLengthMaximal(bs, pos + 1);
    }
  }

  lemma {:induction false} RunLengthUnique(bs: seq<CacheBlock>, pos: nat, n: nat)
    requires IsRun(bs, pos, n) && !Joined(bs, pos + n - 1)
    ensures n == RunLength(bs, pos)
    decreases n
  {
    if n > 1 {
      assert bs[pos + 1].tor == bs[pos].tor && bs[pos + 1].block == bs[pos].block + 1;
      RunLengthUnique(bs, pos + 1, n - 1);
    }
  }

  function RankOf(len: nat, lastBlockTime: int, done: bool, multi: bool, now: int): int {
    var aged := len + TruncDiv(now - lastBlockTime, 32);
    var r := if done then OrFlag(aged, DONEFLAG) else aged;
    if multi then OrFlag(r, MULTIFLAG) else r
  }

  /** What calcRuns records about the run at pos.  pieceDone stands for tr_cpPieceIsComplete. */
  function RunAt(bs: seq<CacheBlock>, pos: nat, now: int, pieceDone: (nat, nat) -> bool): RunInfo
    requires pos < |bs|
  {
    RunLengthMaximal(bs, pos);
    var len := RunLength(bs, pos);
    var last := bs[pos + len - 1];
    var done, multi := pieceDone(last.tor.uniqueId, last.piece), last.piece != bs[pos].piece;
    RunInfo(pos, RankOf(len, last.time, done, multi, now), last.time, multi, done, len)
  }

  /** The runs of the array from pos on, in array order */
  function RunsFrom(bs: seq<CacheBlock>, pos: nat, now: int, pieceDone: (nat, nat) -> bool): seq<RunInfo>
    requires pos <= |bs|
    decreases |bs| - pos
  {
    if pos == |bs| then [] else
      RunLengthMaximal(bs, pos);
      [RunAt(bs, pos, now, pieceDone)] + RunsFrom(bs, pos + RunLength(bs, pos), now, pieceDone)
  }

  ghost predicate RunOf(bs: seq<CacheBlock>, r: RunInfo) {
    IsRun(bs, r.pos, r.len)
  }

  predicate Apart(r: RunInfo, s: RunInfo) {
    r.pos + r.len <= s.pos || s.pos + s.len <= r.pos
  }

  ghost predicate AllRuns(bs: seq<CacheBlock>, runs: seq<RunInfo>) {
    forall i :: 0 <= i < |runs| ==> RunOf(bs, runs[i])
  }

  ghost predicate AllApart(runs: seq<RunInfo>) {
    forall i, j :: 0 <= i < j < |runs| ==> Apart(runs[i], runs[j])
  }

  /** runs are stretches of consecutive blocks, no two of them overlapping */
  ghost predicate RunsOk(bs: seq<CacheBlock>, runs: seq<RunInfo>) {
    AllRuns(bs, runs) && AllApart(runs)
  }

  /** The blocks in the first n runs together */
  function LengthOf(runs: seq<RunInfo>, n: nat): nat
    requires n <= |runs|
  {
    if n == 0 then 0 else LengthOf(runs, n - 1) + runs[n - 1].len
  }

  lemma RunsFromStep(bs: seq<CacheBlock>, pos: nat, now: int, pieceDone: (nat, nat) -> bool, before: seq<RunInfo>)
    requires pos < |bs|
    ensures pos + RunLength(bs, pos) <= |bs|
    ensures before + RunsFrom(bs, pos, now, pieceDone)
         == before + [RunAt(bs, pos, now, pieceDone)] + RunsFrom(bs, pos + RunLength(bs, pos), now, pieceDone)
  {
    RunLengthMaximal(bs, pos);
  }

  /** Every run starts at pos or later and cannot be made longer. */
  ghost predicate Maximal(bs: seq<CacheBlock>, pos: nat, runs: seq<RunInfo>) {
    forall i :: 0 <= i < |runs| ==> pos <= runs[i].pos && !Joined(bs, runs[i].pos + runs[i].len - 1)
  }

  lemma {:induction false} LengthCons(r: RunInfo, rest: seq<RunInfo>, n: nat)
    requires n <= |rest|
    ensures LengthOf([r] + rest, n + 1) == r.len + LengthOf(rest, n)
  {
    if n == 0 {
      assert LengthOf([r] + rest, 0) == 0;
    } else {
      LengthCons(r, rest, n - 1);
    }
  }

  lemma ApartCons(r: RunInfo, rest: seq<RunInfo>)
    requires AllApart(rest) && forall i :: 0 <= i < |rest| ==> r.pos + r.len <= rest[i].pos
    ensures AllApart([r] + rest)
  {
    var s := [r] + rest;
    forall i, j | 0 <= i < j < |s|
      ensures Apart(s[i], s[j])
    {
      assert s[j] == rest[j - 1];
      if i > 0 {
        assert s[i] == rest[i - 1];
      }
    }
  }

  lemma CoveredCons(r: RunInfo, rest: seq<RunInfo>, k: int)
    ensures Covered([r] + rest, k) <==> Covers(r, k) || Covered(rest, k)
  {
    var s := [r] + rest;
    assert s[0] == r;
    if Covered(rest, k) {
      var i :| 0 <= i < |rest| && Covers(rest[i], k);
      assert Covers(s[i + 1], k);
    }
  }

  lemma {:induction false} RunsAreMaximal(bs: seq<CacheBlock>, pos: nat, now: int, pieceDone: (nat, nat) -> bool)
    requires pos <= |bs|
    ensures AllRuns(bs, RunsFrom(bs, pos, now, pieceDone)) && Maximal(bs, pos, RunsFrom(bs, pos, now, pieceDone))
    decreases |bs| - pos
  {
    if pos < |bs| {
      RunLengthMaximal(bs, pos);
      RunsAreMaximal(bs, pos + RunLength(bs, pos), now, pieceDone);
    }
  }

  lemma {:induction false} RunsAreApart(bs: seq<CacheBlock>, pos: nat, now: int, pieceDone: (nat, nat) -> bool)
    requires pos <= |bs|
    ensures AllApart(RunsFrom(bs, pos, now, pieceDone))
    decreases |bs| - pos
  {
    if pos < |bs| {
      RunLengthMaximal(bs, pos);
      var next := pos + RunLength(bs, pos);
      RunsAreApart(bs, next, now, pieceDone);
      RunsAreMaximal(bs, next, now, pieceDone);
      ApartCons(RunAt(bs, pos, now, pieceDone), RunsFrom(bs, next, now, pieceDone));
    }
  }

  lemma {:induction false} RunsTotal(bs: seq<CacheBlock>, pos: nat, now: int, pieceDone: (nat, nat) -> bool)
    requires pos <= |bs|
    ensures LengthOf(RunsFrom(bs, pos, now, pieceDone), |RunsFrom(bs, pos, now, pieceDone)|) == |bs| - pos
    decreases |bs| - pos
  {
    if pos < |bs| {
      RunLengthMaximal(bs, pos);
      var next := pos + RunLength(bs, pos);
      RunsTotal(bs, next, now, pieceDone);
      var rest := RunsFrom(bs, next, now, pieceDone);
      LengthCons(RunAt(bs, pos, now, pieceDone), rest, |rest|);
    }
  }

  /** The runs cut the array into consecutive stretches, none of which could be longer. */
  lemma RunsPartition(bs: seq<CacheBlock>, now: int, pieceDone: (nat, nat) -> bool)
    ensures RunsOk(bs, RunsFrom(bs, 0, now, pieceDone)) && Maximal(bs, 0, RunsFrom(bs, 0, now, pieceDone))
    ensures LengthOf(RunsFrom(bs, 0, now, pieceDone), |RunsFrom(bs, 0, now, pieceDone)|) == |bs|
    ensures forall k :: 0 <= k < |bs| ==> Covered(RunsFrom(bs, 0, now, pieceDone), k)
  {
    RunsAreMaximal(bs, 0, now, pieceDone);
    RunsAreApart(bs, 0, now, pieceDone);
    RunsTotal(bs, 0, now, pieceDone);
    forall k | 0 <= k < |bs|
      ensures Covered(RunsFrom(bs, 0, now, pieceDone), k)
    {
      RunsCover(bs, 0, now, pieceDone, k);
    }
  }

  lemma {:induction false} RunsCover(bs: seq<CacheBlock>, pos: nat, now: int, pieceDone: (nat, nat) -> bool, k: nat)
    requires pos <= k < |bs|
    ensures Covered(RunsFrom(bs, pos, now, pieceDone), k)
    decreases |bs| - pos
  {
    RunLengthMaximal(bs, pos);
    var first, rest := RunAt(bs, pos, now, pieceDone), RunsFrom(bs, pos + RunLength(bs, pos), now, pieceDone);
    CoveredCons(first, rest, k);
    if pos + first.len <= k {
      RunsCover(bs, pos + first.len, now, pieceDone, k);
    }
  }

  // ---------- what is left when runs have been taken out ----------

  predicate Covers(r: RunInfo, k: int) {
    r.pos <= k < r.pos + r.len
  }

  predicate Covered(runs: seq<RunInfo>, k: int) {
    exists i :: 0 <= i < |runs| && Covers(runs[i], k)
  }

  /** The first n blocks of bs, without those that lie in one of the runs */
  function Kept(bs: seq<CacheBlock>, runs: seq<RunInfo>, n: nat): seq<CacheBlock>
    requires n <= |bs|
  {
    if n == 0 then [] else Kept(bs, runs, n - 1) + (if Covered(runs, n - 1) then [] else [bs[n - 1]])
  }

  lemma {:induction false} KeptNothingTaken(bs: seq<CacheBlock>, n: nat)
    requires n <= |bs|
    ensures Kept(bs, [], n) == bs[..n]
  {
    if n > 0 {
      KeptNothingTaken(bs, n - 1);
    }
  }

  lemma {:induction false} KeptPrefix(bs: seq<CacheBlock>, runs: seq<RunInfo>, m: nat, n: nat)
    requires m <= n <= |bs|
    ensures Kept(bs, runs, m) <= Kept(bs, runs, n)
  {
    if m < n {
      KeptPrefix(bs, runs, m, n - 1);
    }
  }

  /** A stretch that no taken run touches is still there, whole. */
  lemma {:induction false} KeptStretch(bs: seq<CacheBlock>, runs: seq<RunInfo>, pos: nat, n: nat)
    requires pos + n <= |bs| && forall k :: pos <= k < pos + n ==> !Covered(runs, k)
    ensures Kept(bs, runs, pos + n) == Kept(bs, runs, pos) + bs[pos..pos + n]
  {
    if n == 0 {
      assert bs[pos..pos] == [];
    } else {
      KeptStretch(bs, runs, pos, n - 1);
      assert bs[pos..pos + n] == bs[pos..pos + n - 1] + [bs[pos + n - 1]];
    }
  }

  lemma {:induction false} KeptUpTo(bs: seq<CacheBlock>, runs: seq<RunInfo>, r: RunInfo, n: nat)
    requires n <= |bs| && n <= r.pos + r.len
    ensures Kept(bs, runs + [r], n) == Kept(bs, runs, if n <= r.pos then n else r.pos)
  {
    if n > 0 {
      KeptUpTo(bs, runs, r, n - 1);
      CoveredAppend(runs, r, n - 1);
    }
  }

  /** Taking one more run, apart from the others, removes one stretch from what was kept. */
  lemma {:induction false} KeptOneMore(bs: seq<CacheBlock>, runs: seq<RunInfo>, r: RunInfo, n: nat)
    requires r.pos + r.len <= n <= |bs|
    requires forall k :: r.pos <= k < r.pos + r.len ==> !Covered(runs, k)
    ensures |Kept(bs, runs, r.pos)| + r.len <= |Kept(bs, runs, n)|
    ensures Kept(bs, runs + [r], n) == Erased(Kept(bs, runs, n), |Kept(bs, runs, r.pos)|, r.len)
  {
    if n == r.pos + r.len {
      KeptStretch(bs, runs, r.pos, r.len);
      KeptUpTo(bs, runs, r, n);
    } else {
      KeptOneMore(bs, runs, r, n - 1);
      CoveredAppend(runs, r, n - 1);
      var rest := if Covered(runs, n - 1) then [] else [bs[n - 1]];
      assert Erased(Kept(bs, runs, n - 1) + rest, |Kept(bs, runs, r.pos)|, r.len)
          == Erased(Kept(bs, runs, n - 1), |Kept(bs, runs, r.pos)|, r.len) + rest;
    }
  }

  lemma CoveredAppend(runs: seq<RunInfo>, r: RunInfo, k: int)
    ensures Covered(runs + [r], k) <==> Covered(runs, k) || Covers(r, k)
  {
    var s := runs + [r];
    if Covered(runs, k) {
      var i :| 0 <= i < |runs| && Covers(runs[i], k);
      assert Covers(s[i], k);
    }
    if Covers(r, k) {
      assert Covers(s[|runs|], k);
    }
  }

  lemma KeptSizeStep(bs: seq<CacheBlock>, runs: seq<RunInfo>, r: RunInfo)
    requires r.pos + r.len <= |bs| && forall k :: r.pos <= k < r.pos + r.len ==> !Covered(runs, k)
    ensures |Kept(bs, runs + [r], |bs|)| == |Kept(bs, runs, |bs|)| - r.len
  {
    KeptOneMore(bs, runs, r, |bs|);
  }

  lemma {:induction false} KeptSize(bs: seq<CacheBlock>, runs: seq<RunInfo>, n: nat)
    requires RunsOk(bs, runs) && n <= |runs|
    ensures |Kept(bs, runs[..n], |bs|)| == |bs| - LengthOf(runs, n)
  {
    if n == 0 {
      KeptNothingTaken(bs, |bs|);
    } else {
      KeptSize(bs, runs, n - 1);
      ApartUncovered(runs, n - 1, n - 1);
      assert RunOf(bs, runs[n - 1]);
      KeptSizeStep(bs, runs[..n - 1], runs[n - 1]);
      assert runs[..n] == runs[..n - 1] + [runs[n - 1]];
    }
  }

  lemma ApartUncovered(runs: seq<RunInfo>, i: nat, j: nat)
    requires i <= j < |runs| && AllApart(runs)
    ensures forall k :: runs[j].pos <= k < runs[j].pos + runs[j].len ==> !Covered(runs[..i], k)
  {
    assert forall a :: 0 <= a < i ==> Apart(runs[a], runs[j]);
  }

  /** The position flushRuns has for run j once the runs of taken are gone */
  ghost predicate StandsAt(bs: seq<CacheBlock>, taken: seq<RunInfo>, r: RunInfo, now: RunInfo) {
    r.pos + r.len <= |bs| && now == r.(pos := |Kept(bs, taken, r.pos)|)
  }

  /** A run that has moved still names the very blocks it named at the start. */
  lemma StillNames(bs: seq<CacheBlock>, taken: seq<RunInfo>, r: RunInfo, now: RunInfo)
    requires StandsAt(bs, taken, r, now)
    requires forall k :: r.pos <= k < r.pos + r.len ==> !Covered(taken, k)
    ensures now.pos + now.len <= |Kept(bs, taken, |bs|)|
    ensures Kept(bs, taken, |bs|)[now.pos..now.pos + now.len] == bs[r.pos..r.pos + r.len]
  {
    KeptStretch(bs, taken, r.pos, r.len);
    KeptPrefix(bs, taken, r.pos + r.len, |bs|);
  }

  lemma KeptBefore(bs: seq<CacheBlock>, taken: seq<RunInfo>, r: RunInfo, m: nat)
    requires r.pos + r.len <= m <= |bs| && forall k :: r.pos <= k < r.pos + r.len ==> !Covered(taken, k)
    ensures |Kept(bs, taken, r.pos)| + r.len <= |Kept(bs, taken, m)|
  {
    KeptStretch(bs, taken, r.pos, r.len);
    KeptPrefix(bs, taken, r.pos + r.len, m);
  }

  function Shifted(r: RunInfo, gone: RunInfo): RunInfo
    requires gone.pos < r.pos ==> gone.len <= r.pos
  {
    if r.pos > gone.pos then r.(pos := r.pos - gone.len) else r
  }

  /** The fix-up of flushRuns is right: after run f is gone too, run r stands where the fix-up puts it. */
  lemma ShiftStands(bs: seq<CacheBlock>, taken: seq<RunInfo>, f: RunInfo, fNow: RunInfo, r: RunInfo, rNow: RunInfo)
    requires StandsAt(bs, taken, f, fNow) && StandsAt(bs, taken, r, rNow) && Apart(f, r) && 0 < f.len && 0 < r.len
    requires forall k :: f.pos <= k < f.pos + f.len ==> !Covered(taken, k)
    requires forall k :: r.pos <= k < r.pos + r.len ==> !Covered(taken, k)
    ensures fNow.pos < rNow.pos ==> fNow.len <= rNow.pos
    ensures StandsAt(bs, taken + [f], r, Shifted(rNow, fNow))
  {
    if f.pos < r.pos {
      KeptOneMore(bs, taken, f, r.pos);
      KeptBefore(bs, taken, f, r.pos);
    } else {
      KeptUpTo(bs, taken, f, r.pos);
      KeptBefore(bs, taken, r, f.pos);
    }
  }

  // ---------- sorting the runs ----------

  /** compareRuns puts higher ranks first; runs of equal rank may come in any order. */
  ghost predicate ByRank(runs: seq<RunInfo>) {
    forall i, j :: 0 <= i < j < |runs| ==> runs[j].rank <= runs[i].rank
  }

  /** runs is an order in which qsort may leave the runs rs. */
  ghost predicate IsRanking(rs: seq<RunInfo>, runs: seq<RunInfo>) {
    ByRank(runs) && multiset(runs) == multiset(rs)
  }

  function Inserted(runs: seq<RunInfo>, k: nat, r: RunInfo): seq<RunInfo>
    requires k <= |runs|
  {
    runs[..k] + ([r] + runs[k..])
  }

  lemma InsertedSame(runs: seq<RunInfo>, k: nat, r: RunInfo)
    requires k <= |runs|
    ensures multiset(Inserted(runs, k, r)) == multiset(runs) + multiset{r}
  {
    assert runs == runs[..k] + runs[k..];
  }

  lemma {:induction false} InsertedLength(runs: seq<RunInfo>, k: nat, r: RunInfo, n: nat)
    requires k <= |runs| && n <= |runs| + 1
    ensures LengthOf(Inserted(runs, k, r), n) == if n <= k then LengthOf(runs, n) else LengthOf(runs, n - 1) + r.len
  {
    if n > 0 {
      InsertedLength(runs, k, r, n - 1);
      assert Inserted(runs, k, r)[n - 1] == if n - 1 < k then runs[n - 1] else if n - 1 == k then r else runs[n - 2];
    }
  }

  lemma OneMore(runs: seq<RunInfo>, n: nat)
    requires n < |runs|
    ensures runs[..n + 1] == runs[..n] + [runs[n]]
    ensures multiset(runs[..n + 1]) == multiset(runs[..n]) + multiset{runs[n]}
  {
    assert runs[..n + 1] == runs[..n] + [runs[n]];
  }

  /** Where r goes among runs that are already in order */
  method PlaceFor(runs: seq<RunInfo>, r: RunInfo) returns (k: nat)
    requires ByRank(runs)
    ensures k <= |runs| && ByRank(Inserted(runs, k, r))
  {
    k := 0;
    while k < |runs| && r.rank <= runs[k].rank
      invariant k <= |runs| && forall i :: 0 <= i < k ==> r.rank <= runs[i].rank
    {
      k := k + 1;
    }
  }

  /** sorted holds the first n runs, in order of rank */
  ghost predicate Arranged(sorted: seq<RunInfo>, runs: seq<RunInfo>, n: nat) {
    && n <= |runs| && |sorted| == n && ByRank(sorted)
    && multiset(sorted) == multiset(runs[..n])
    && LengthOf(sorted, n) == LengthOf(runs, n)
  }

  lemma ArrangeOne(sorted: seq<RunInfo>, runs: seq<RunInfo>, n: nat, k: nat)
    requires Arranged(sorted, runs, n) && n < |runs| && k <= |sorted| && ByRank(Inserted(sorted, k, runs[n]))
    ensures Arranged(Inserted(sorted, k, runs[n]), runs, n + 1)
  {
    InsertedSame(sorted, k, runs[n]);
    InsertedLength(sorted, k, runs[n], n + 1);
    OneMore(runs, n);
  }

  /** Stands for qsort with compareRuns: some ordering of the same runs by rank. */
  method SortByRank(runs: seq<RunInfo>) returns (sorted: seq<RunInfo>)
    ensures ByRank(sorted) && multiset(sorted) == multiset(runs)
    ensures |sorted| == |runs| && LengthOf(sorted, |sorted|) == LengthOf(runs, |runs|)
  {
    sorted := [];
    for n := 0 to |runs|
      invariant Arranged(sorted, runs, n)
    {
      var k := PlaceFor(sorted, runs[n]);
      ArrangeOne(sorted, runs, n, k);
      sorted := Inserted(sorted, k, runs[n]);
    }
    assert runs[..|runs|] == runs;
  }

  /** If the runs of one list are apart from each other, so are the same runs in another order. */
  lemma SameRunsOk(bs: seq<CacheBlock>, runs: seq<RunInfo>, other: seq<RunInfo>)
    requires RunsOk(bs, runs) && multiset(other) == multiset(runs)
    ensures RunsOk(bs, other)
  {
    forall i | 0 <= i < |other|
      ensures RunOf(bs, other[i])
    {
      assert other[i] in multiset(other);
    }
    forall i, j | 0 <= i < j < |other|
      ensures Apart(other[i], other[j])
    {
      if other[i] == other[j] {
        Twice(other, i, j);
        Once(bs, runs, other[i]);
        assert false;
      }
      assert other[i] in multiset(other) && other[j] in multiset(other);
    }
  }

  lemma Twice(runs: seq<RunInfo>, i: nat, j: nat)
    requires i < j < |runs| && runs[i] == runs[j]
    ensures multiset(runs)[runs[i]] >= 2
  {
    assert runs == runs[..i] + [runs[i]] + runs[i + 1..j] + [runs[j]] + runs[j + 1..];
  }

  lemma {:induction false} Once(bs: seq<CacheBlock>, runs: seq<RunInfo>, r: RunInfo)
    requires RunsOk(bs, runs)
    ensures multiset(runs)[r] <= 1
  {
    if runs != [] {
      var front := runs[..|runs| - 1];
      Once(bs, front, r);
      assert runs == front + [runs[|runs| - 1]];
      assert r in multiset(front) <==> r in front;
    }
  }

  // ---------- one round of flushRuns ----------

  /** When the first i runs are gone, the array is what they leave, and each later run knows its place. */
  ghost predicate InPlace(bs: seq<CacheBlock>, runs: seq<RunInfo>, i: nat, items: seq<CacheBlock>, rs: seq<RunInfo>) {
    && i <= |runs| == |rs|
    && items == Kept(bs, runs[..i], |bs|)
    && forall j :: i <= j < |runs| ==> StandsAt(bs, runs[..i], runs[j], rs[j])
  }

  lemma InPlaceAtStart(bs: seq<CacheBlock>, runs: seq<RunInfo>)
    requires AllRuns(bs, runs)
    ensures InPlace(bs, runs, 0, bs, runs)
  {
    KeptNothingTaken(bs, |bs|);
    forall j | 0 <= j < |runs|
      ensures StandsAt(bs, runs[..0], runs[j], runs[j])
    {
      assert RunOf(bs, runs[j]);
      KeptNothingTaken(bs, runs[j].pos);
    }
  }

  /** The next run, wherever it has moved to, is still a run. */
  lemma NextIsRun(bs: seq<CacheBlock>, runs: seq<RunInfo>, i: nat, items: seq<CacheBlock>, rs: seq<RunInfo>)
    requires RunsOk(bs, runs) && InPlace(bs, runs, i, items, rs) && i < |runs|
    ensures rs[i].pos + rs[i].len <= |items|
    ensures items[rs[i].pos..rs[i].pos + rs[i].len] == bs[runs[i].pos..runs[i].pos + runs[i].len]
    ensures IsRun(items, rs[i].pos, rs[i].len)
  {
    var r, now := runs[i], rs[i];
    ApartUncovered(runs, i, i);
    assert RunOf(bs, r) && StandsAt(bs, runs[..i], r, now);
    StillNames(bs, runs[..i], r, now);
    SameStretch(bs, r.pos, items, now.pos, r.len);
  }

  lemma SameStretch(bs: seq<CacheBlock>, pos: nat, items: seq<CacheBlock>, at: nat, n: nat)
    requires IsRun(bs, pos, n) && at + n <= |items| && items[at..at + n] == bs[pos..pos + n]
    ensures IsRun(items, at, n)
  {
    forall k | at <= k < at + n
      ensures items[k] == bs[pos + (k - at)]
    {
      assert items[at..at + n][k - at] == bs[pos..pos + n][k - at];
    }
  }

  lemma FlushedOne(bs: seq<CacheBlock>, runs: seq<RunInfo>, i: nat, items: seq<CacheBlock>, rs: seq<RunInfo>)
    requires RunsOk(bs, runs) && InPlace(bs, runs, i, items, rs) && i < |runs|
    ensures rs[i].pos + rs[i].len <= |items|
    ensures Erased(items, rs[i].pos, rs[i].len) == Kept(bs, runs[..i + 1], |bs|)
  {
    ApartUncovered(runs, i, i);
    assert RunOf(bs, runs[i]) && StandsAt(bs, runs[..i], runs[i], rs[i]);
    KeptOneMore(bs, runs[..i], runs[i], |bs|);
    OneMore(runs, i);
  }

  /** The fix-up of one later run */
  lemma FixUp(bs: seq<CacheBlock>, runs: seq<RunInfo>, i: nat, rs: seq<RunInfo>, j: nat, rNow: RunInfo)
    requires RunsOk(bs, runs) && i < j < |runs| == |rs|
    requires StandsAt(bs, runs[..i], runs[i], rs[i]) && StandsAt(bs, runs[..i], runs[j], rNow)
    ensures rs[i].pos < rNow.pos ==> rs[i].len <= rNow.pos
    ensures StandsAt(bs, runs[..i + 1], runs[j], Shifted(rNow, rs[i]))
  {
    ApartUncovered(runs, i, i);
    ApartUncovered(runs, i, j);
    assert RunOf(bs, runs[i]) && RunOf(bs, runs[j]) && Apart(runs[i], runs[j]);
    ShiftStands(bs, runs[..i], runs[i], rs[i], runs[j], rNow);
    OneMore(runs, i);
  }

  /** The inner loop of flushRuns: moves every later run that stood behind run i. */
  method MoveLater(ghost bs: seq<CacheBlock>, ghost runs: seq<RunInfo>, i: nat, rs: seq<RunInfo>) returns (moved: seq<RunInfo>)
    requires RunsOk(bs, runs) && i < |runs| == |rs|
    requires forall j :: i <= j < |runs| ==> StandsAt(bs, runs[..i], runs[j], rs[j])
    ensures |moved| == |runs| && forall j :: i < j < |runs| ==> StandsAt(bs, runs[..i + 1], runs[j], moved[j])
  {
    moved := rs;
    for j := i + 1 to |rs|
      invariant |moved| == |rs| && forall k :: i < k < j ==> StandsAt(bs, runs[..i + 1], runs[k], moved[k])
      invariant moved[i] == rs[i] && forall k :: j <= k < |rs| ==> moved[k] == rs[k]
    {
      FixUp(bs, runs, i, rs, j, rs[j]);
      if moved[j].pos > moved[i].pos {
        moved := moved[j := moved[j].(pos := moved[j].pos - moved[i].len)];
      }
    }
  }

  // ---------- what flushing a file takes ----------

  /** The n blocks from pos on belong to tor, begin no earlier than first, and are in runs that begin no later than last. */
  ghost predicate RunsWithin(bs: seq<CacheBlock>, pos: nat, n: nat, tor: Torrent, first: nat, last: nat) {
    pos + n <= |bs| && (n > 0 ==> !Joined(bs, pos + n - 1)) &&
    forall i :: pos <= i < pos + n ==>
      bs[i].tor == tor && first <= bs[i].block && (bs[i].block <= last || (pos < i && Joined(bs, i - 1)))
  }

  lemma ErasedTwice(bs: seq<CacheBlock>, pos: nat, n: nat, m: nat)
    requires pos + n + m <= |bs|
    ensures Erased(Erased(bs, pos, n), pos, m) == Erased(bs, pos, n + m)
  {
  }

  lemma ErasedBehind(bs: seq<CacheBlock>, pos: nat, n: nat, i: nat)
    requires pos + n <= i < |bs|
    ensures Erased(bs, pos, n)[i - n] == bs[i]
  {
  }

  /** The blocks of a run, as they stand in the array before anything was taken out */
  lemma RunBehind(bs: seq<CacheBlock>, pos: nat, n: nat, m: nat)
    requires pos + n + m <= |bs| && IsRun(Erased(bs, pos, n), pos, m) && !Joined(Erased(bs, pos, n), pos + m - 1)
    ensures IsRun(bs, pos + n, m) && !Joined(bs, pos + n + m - 1)
  {
    ErasedBehind(bs, pos, n, pos + n);
    forall i | pos + n <= i < pos + n + m
      ensures bs[i].tor == bs[pos + n].tor && bs[i].block == bs[pos + n].block + (i - (pos + n))
    {
      ErasedBehind(bs, pos, n, i);
    }
    if pos + n + m < |bs| {
      ErasedBehind(bs, pos, n, pos + n + m - 1);
      ErasedBehind(bs, pos, n, pos + n + m);
    }
  }

  /** One more run, behind those that are gone */
  lemma OneRunMore(bs: seq<CacheBlock>, pos: nat, n: nat, tor: Torrent, first: nat, last: nat, m: nat)
    requires RunsWithin(bs, pos, n, tor, first, last) && pos + n + m <= |bs|
    requires IsRun(bs, pos + n, m) && !Joined(bs, pos + n + m - 1)
    requires bs[pos + n].tor == tor && first <= bs[pos + n].block <= last
    ensures RunsWithin(bs, pos, n + m, tor, first, last)
  {
  }

  // ---------- which runs a flush takes ----------

  predicate Flagged(r: RunInfo) {
    r.isPieceDone || r.isMultiPiece
  }

  lemma PrefixOk(bs: seq<CacheBlock>, runs: seq<RunInfo>, n: nat)
    requires RunsOk(bs, runs) && n <= |runs|
    ensures RunsOk(bs, runs[..n]) && runs[..n][..n] == runs[..n]
  {
    var s := runs[..n];
    assert forall i :: 0 <= i < n ==> s[i] == runs[i];
  }

  /** How many leading runs cacheTrim takes to reach its cutoff.  The index never runs off the array,
      because all the runs together are longer than that. */
  method LeadingRuns(ghost bs: seq<CacheBlock>, runs: seq<RunInfo>, cutoff: nat) returns (i: nat)
    requires AllRuns(bs, runs) && cutoff <= LengthOf(runs, |runs|)
    ensures i <= |runs| && cutoff <= LengthOf(runs, i) && (0 < i ==> LengthOf(runs, i - 1) < cutoff)
  {
    i := 0;
    var j: nat := 0;
    while j < cutoff
      invariant i <= |runs| && j == LengthOf(runs, i) && (0 < i ==> LengthOf(runs, i - 1) < cutoff)
      decreases |runs| - i
    {
      j, i := j + runs[i].len, i + 1;
    }
  }

  /** The first i of runs make up cutoff blocks, and without the last of them they do not. */
  ghost predicate MakesUp(runs: seq<RunInfo>, i: nat, cutoff: nat) {
    0 < i <= |runs| && LengthOf(runs, i - 1) < cutoff <= LengthOf(runs, i)
  }

  /** Of the runs rs, ranked in some way, the first i make up cutoff blocks. */
  ghost predicate IsTrim(rs: seq<RunInfo>, runs: seq<RunInfo>, i: nat, cutoff: nat) {
    IsRanking(rs, runs) && MakesUp(runs, i, cutoff)
  }

  /** Of the blocks bs, those of the highest ranked runs have been taken out, just as many as make up cutoff blocks; after
      an error, maybe not all of them. */
  ghost predicate TrimmedTo(bs: seq<CacheBlock>, now: int, pieceDone: (nat, nat) -> bool, cutoff: nat, after: seq<CacheBlock>, err: int) {
    exists runs: seq<RunInfo>, i: nat, n: nat :: IsTrim(RunsFrom(bs, 0, now, pieceDone), runs, i, cutoff) &&
      n <= i && (err == 0 ==> n == i) && after == Kept(bs, runs[..n], |bs|)
  }

  /** At least cutoff blocks are gone. */
  lemma TrimmedSize(bs: seq<CacheBlock>, now: int, pieceDone: (nat, nat) -> bool, cutoff: nat, after: seq<CacheBlock>)
    requires TrimmedTo(bs, now, pieceDone, cutoff, after, 0)
    ensures |after| + cutoff <= |bs|
  {
    var rs := RunsFrom(bs, 0, now, pieceDone);
    var runs, i :| IsTrim(rs, runs, i, cutoff) && after == Kept(bs, runs[..i], |bs|);
    RunsPartition(bs, now, pieceDone);
    SameRunsOk(bs, rs, runs);
    KeptSize(bs, runs, i);
  }

  /** What cacheTrim makes of the blocks bs: nothing new while they are no more than max, else they are trimmed. */
  ghost predicate KeptWithin(bs: seq<CacheBlock>, max: nat, now: int, pieceDone: (nat, nat) -> bool, after: seq<CacheBlock>, err: int) {
    if |bs| <= max then err == 0 && after == bs else TrimmedTo(bs, now, pieceDone, 1 + max / 4, after, err)
  }

  /** What tr_cacheWriteBlock makes of the blocks bs: b is stored among them, and then they are trimmed. */
  ghost predicate WrittenTo(bs: seq<CacheBlock>, b: CacheBlock, max: nat, now: int, pieceDone: (nat, nat) -> bool,
                            after: seq<CacheBlock>, err: int) {
    exists mid :: StoredIn(bs, b, mid) && KeptWithin(mid, max, now, pieceDone, after, err)
  }

  lemma TrimmedBy(bs: seq<CacheBlock>, now: int, pieceDone: (nat, nat) -> bool, cutoff: nat, after: seq<CacheBlock>, err: int,
                  all: seq<RunInfo>, runs: seq<RunInfo>, n: nat)
    requires IsTrim(RunsFrom(bs, 0, now, pieceDone), all, |runs|, cutoff) && runs == all[..|runs|]
    requires n <= |runs| && (err == 0 ==> n == |runs|) && after == Kept(bs, runs[..n], |bs|)
    ensures TrimmedTo(bs, now, pieceDone, cutoff, after, err)
  {
    assert runs[..n] == all[..n];
  }

  /** The run that is at pos once gone blocks are gone, as it stands in the array before */
  lemma NextRun(bs: seq<CacheBlock>, pos: nat, gone: nat) returns (m: nat)
    requires pos + gone < |bs|
    ensures m == RunLength(Erased(bs, pos, gone), pos) && pos + gone + m <= |bs|
    ensures IsRun(bs, pos + gone, m) && !Joined(bs, pos + gone + m - 1)
  {
    m := RunLength(Erased(bs, pos, gone), pos);
    RunLengthMaximal(Erased(bs, pos, gone), pos);
    RunBehind(bs, pos, gone, m);
  }

  /** It goes as well. */
  lemma NextRunWithin(bs: seq<CacheBlock>, pos: nat, gone: nat, tor: Torrent, first: nat, last: nat) returns (m: nat)
    requires RunsWithin(bs, pos, gone, tor, first, last) && pos + gone < |bs|
    requires var b := Erased(bs, pos, gone)[pos]; b.tor == tor && first <= b.block <= last
    ensures m == RunLength(Erased(bs, pos, gone), pos) && pos + gone + m <= |bs|
    ensures RunsWithin(bs, pos, gone + m, tor, first, last)
  {
    m := NextRun(bs, pos, gone);
    ErasedBehind(bs, pos, gone, pos + gone);
    OneRunMore(bs, pos, gone, tor, first, last, m);
  }

  /** How many runs at the front are done or span pieces */
  function FlaggedLead(runs: seq<RunInfo>): (n: nat)
    ensures n <= |runs| && forall i :: 0 <= i < n ==> Flagged(runs[i])
    ensures n < |runs| ==> !Flagged(runs[n])
  {
    if runs != [] && Flagged(runs[0]) then 1 + FlaggedLead(runs[1..]) else 0
  }

  /** Exactly the first n runs, up to the first one that is neither, are of complete pieces or span pieces. */
  ghost predicate IsLead(runs: seq<RunInfo>, n: nat) {
    n <= |runs| && (forall i :: 0 <= i < n ==> runs[i].isPieceDone || runs[i].isMultiPiece) &&
    (n < |runs| ==> !runs[n].isPieceDone && !runs[n].isMultiPiece)
  }

  function Marked(r: RunInfo): RunInfo {
    r.(rank := OrFlag(r.rank, SESSIONFLAG))
  }

  /** The leading runs that are done or span pieces, each marked for this session */
  method LeadingFlagged(runs: seq<RunInfo>) returns (marked: seq<RunInfo>)
    ensures |marked| <= |runs| && forall k :: 0 <= k < |marked| ==> Flagged(runs[k]) && marked[k] == Marked(runs[k])
    ensures |marked| == FlaggedLead(runs)
  {
    marked := [];
    while |marked| < |runs| && Flagged(runs[|marked|])
      invariant |marked| <= |runs|
      invariant forall k :: 0 <= k < |marked| ==> Flagged(runs[k]) && marked[k] == Marked(runs[k])
      decreases |runs| - |marked|
    {
      marked := marked + [Marked(runs[|marked|])];
    }
  }

  /** Marking moves no run. */
  lemma MarkedSame(bs: seq<CacheBlock>, runs: seq<RunInfo>, marked: seq<RunInfo>)
    requires |marked| == |runs| && forall k :: 0 <= k < |runs| ==> marked[k] == Marked(runs[k])
    requires RunsOk(bs, runs)
    ensures RunsOk(bs, marked)
    ensures forall k :: Covered(marked, k) <==> Covered(runs, k)
  {
    forall k
      ensures Covered(marked, k) <==> Covered(runs, k)
    {
      if Covered(runs, k) {
        var i :| 0 <= i < |runs| && Covers(runs[i], k);
        assert Covers(marked[i], k);
      }
      if Covered(marked, k) {
        var i :| 0 <= i < |marked| && Covers(marked[i], k);
        assert Covers(runs[i], k);
      }
    }
    forall i | 0 <= i < |marked|
      ensures RunOf(bs, marked[i])
    {
      assert RunOf(bs, runs[i]);
    }
    forall i, j | 0 <= i < j < |marked|
      ensures Apart(marked[i], marked[j])
    {
      assert Apart(runs[i], runs[j]);
    }
  }

  lemma {:induction false} KeptSame(bs: seq<CacheBlock>, runs: seq<RunInfo>, other: seq<RunInfo>, n: nat)
    requires n <= |bs| && forall k :: Covered(other, k) <==> Covered(runs, k)
    ensures Kept(bs, other, n) == Kept(bs, runs, n)
  {
    if n > 0 {
      KeptSame(bs, runs, other, n - 1);
    }
  }
}
