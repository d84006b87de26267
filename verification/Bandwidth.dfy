/** Handing out bandwidth down a tree of limits, and charging for it up the tree (bandwidth.c). */
module Bandwidths {
  import opened Base
  import opened BandwidthModel

  const INCREMENT := 3000
  const TR_PRI_LOW := -1
  const TR_PRI_NORMAL := 0
  const TR_PRI_HIGH := 1

  /** One turn of a peer */
  datatype Pass = Pass(peer: nat, bytes: nat)

  function Total(passes: seq<Pass>): nat {
    if passes == [] then 0 else Total(passes[..|passes| - 1]) + passes[|passes| - 1].bytes
  }

  /** The peers whose turns have ended with less than the increment */
  function Ended(passes: seq<Pass>): multiset<nat> {
    if passes == [] then multiset{} else
      var before, last := Ended(passes[..|passes| - 1]), passes[|passes| - 1];
      if last.bytes != INCREMENT then before + multiset{last.peer} else before
  }

  lemma OnePass(passes: seq<Pass>, p: Pass)
    ensures Total(passes + [p]) == Total(passes) + p.bytes
    ensures Ended(passes + [p]) == if p.bytes != INCREMENT then Ended(passes) + multiset{p.peer} else Ended(passes)
  {
    assert (passes + [p])[..|passes|] == passes;
  }

  function Swapped(s: seq<nat>, i: nat, j: nat): (r: seq<nat>)
    requires i < |s| && j < |s|
    ensures multiset(r) == multiset(s)
  {
    s[i := s[j]][j := s[i]]
  }

  /** The peers behind the first n have been put aside. */
  ghost predicate Rounds(pool: seq<nat>, after: seq<nat>, n: nat, passes: seq<Pass>) {
    n <= |after| && multiset(after) == multiset(pool) && Ended(passes) == multiset(after[n..])
  }

  lemma InPool(pool: seq<nat>, after: seq<nat>, i: nat)
    requires multiset(after) == multiset(pool) && i < |after|
    ensures after[i] in pool
  {
    assert after[i] in multiset(pool);
  }

  /** A peer that transferred as much as it could stays in the round. */
  lemma RoundGoesOn(pool: seq<nat>, after: seq<nat>, n: nat, passes: seq<Pass>, i: nat)
    requires Rounds(pool, after, n, passes) && i < n
    ensures Rounds(pool, after, n, passes + [Pass(after[i], INCREMENT)])
    ensures Total(passes + [Pass(after[i], INCREMENT)]) == Total(passes) + INCREMENT
  {
    OnePass(passes, Pass(after[i], INCREMENT));
  }

  /** One that did not is put behind the others. */
  lemma RoundOver(pool: seq<nat>, after: seq<nat>, n: nat, passes: seq<Pass>, i: nat, bytes: nat)
    requires Rounds(pool, after, n, passes) && i < n && bytes != INCREMENT
    ensures Rounds(pool, Swapped(after, i, n - 1), n - 1, passes + [Pass(after[i], bytes)])
    ensures Total(passes + [Pass(after[i], bytes)]) == Total(passes) + bytes
  {
    OnePass(passes, Pass(after[i], bytes));
    assert Swapped(after, i, n - 1)[n - 1..] == [after[i]] + after[n..];
  }

  lemma {:induction false} TotalOfBoth(a: seq<Pass>, b: seq<Pass>)
    ensures Total(a + b) == Total(a) + Total(b)
  {
    if b == [] {
      assert a + b == a;
    } else {
      var before, last := b[..|b| - 1], b[|b| - 1];
      assert a + b == (a + before) + [last];
      OnePass(a + before, last);
      TotalOfBoth(a, before);
    }
  }

  /** The peers of these priorities have had their turns, and no others. */
  ghost predicate IsRound(ioPriority: seq<int>, pool: multiset<nat>, which: set<int>, passes: seq<Pass>) {
    forall x: nat :: Ended(passes)[x] == if x < |ioPriority| && ioPriority[x] in which then pool[x] else 0
  }

  lemma RoundOf(ioPriority: seq<int>, pool: seq<nat>, which: set<int>, s: seq<nat>, passes: seq<Pass>)
    requires OfPriority(ioPriority, which, pool, s) && Ended(passes) == multiset(s)
    ensures IsRound(ioPriority, multiset(pool), which, passes)
  {
  }

  ghost predicate IsRounds(ioPriority: seq<int>, pool: multiset<nat>, first: seq<Pass>, second: seq<Pass>, third: seq<Pass>) {
    IsRound(ioPriority, pool, {1}, first) && IsRound(ioPriority, pool, {0, 1}, second) && Ended(third) == pool
  }

  /** First the peers of high priority have their turns, then those and the normal ones, and then all. */
  ghost predicate InThreeRounds(ioPriority: seq<int>, pool: multiset<nat>, passes: seq<Pass>) {
    exists first, second, third :: IsRounds(ioPriority, pool, first, second, third) && passes == first + second + third
  }

  /** Every tr_bandwidth there is, by number, for one direction.  A bandwidth may belong to a peer's connection. */
  class Tree {
    var up: Links
    var children: seq<set<nat>>
    var honors: set<nat>
    var limited: set<nat>
    var desired: seq<nat>
    var priority: seq<int>
    var peers: set<nat>
    var ioPriority: seq<int>
    // bytesLeft
    var left: seq<nat>
    // bytes waiting to be transferred by all connections together
    var waiting: nat
    // how deep each one lies, and nothing deeper than deepest
    ghost var depth: seq<nat>
    ghost var deepest: nat
    // since it was last given its share: how large that was, what has been used up by those who honour it, and
    // whether others have used it too
    ghost var share: seq<nat>
    ghost var spent: seq<nat>
    ghost var shared: set<nat>

    ghost predicate Shape()
      reads this
    {
      IsForest(up, depth) && IsDeepest(depth, deepest) && Linked(up, children) &&
      |up| == |desired| == |priority| == |ioPriority| == |left|
    }

    /** No limit is exceeded by those who honour it, and nothing is left over or lost when there are no others. */
    ghost predicate Valid()
      reads this
    {
      Shape() && InBudget(limited, shared, share, spent, left)
    }

    constructor ()
      ensures Valid() && up == []
    {
      up, children, desired, priority, ioPriority, left := [], [], [], [], [], [];
      honors, limited, peers, waiting := {}, {}, {}, 0;
      depth, deepest, share, spent, shared := [], 0, [], [], {};
    }

    method NewLimits()
      modifies this`left, this`share, this`spent, this`limited, this`desired, this`priority, this`ioPriority
      ensures left == old(left) + [0] && share == old(share) + [0] && spent == old(spent) + [0]
      ensures limited == old(limited) - {|old(left)|}
      ensures |desired| == |old(desired)| + 1 && |priority| == |old(priority)| + 1 && |ioPriority| == |old(ioPriority)| + 1
    {
      limited := limited - {|left|};
      left, share, spent := left + [0], share + [0], spent + [0];
      desired, priority, ioPriority := desired + [0], priority + [0], ioPriority + [0];
    }

    method New() returns (b: nat)
      requires Valid()
      modifies this
      ensures Valid() && b == |old(up)| && up == old(up) + [None] && forall c: nat :: !IsChild(up, b, c)
      ensures honors == old(honors) + {b} && limited == old(limited) - {b}
    {
      b := |up|;
      Added(up, depth, children);
      BudgetAdded(limited, shared, share, spent, left);
      NewLimits();
      honors := honors + {b};
      up, children, depth := up + [None], children + [{}], depth + [0];
    }

    /** tr_bandwidthConstruct: a new bandwidth honours its parents, and has no limit of its own. */
    method Construct(parent: Option<nat>) returns (b: nat)
      requires Valid() && (parent.Some? ==> parent.value < |up|)
      modifies this
      ensures Valid() && b == |old(up)| && up == old(up) + [parent]
      ensures honors == old(honors) + {b} && limited == old(limited) - {b}
    {
      b := New();
      if parent.Some? {
        NotAboveOthers(up, depth, parent.value, b);
      }
      SetParent(b, parent);
    }

    /** tr_bandwidthHonorParentLimits; what has been used up so far stays counted as it was. */
    method HonorParentLimits(b: nat, isEnabled: bool)
      requires Valid() && b < |up|
      modifies this`honors
      ensures Valid() && honors == if isEnabled then old(honors) + {b} else old(honors) - {b}
    {
      honors := if isEnabled then honors + {b} else honors - {b};
    }

    /** Turning a limit on or off; what has been used up before it is turned on does not count. */
    method SetLimited(b: nat, isLimited: bool)
      requires Valid() && b < |up|
      modifies this`limited, this`share, this`spent, this`shared
      ensures Valid() && limited == if isLimited then old(limited) + {b} else old(limited) - {b}
    {
      if isLimited {
        if b !in limited {
          share, spent, shared := share[b := left[b]], spent[b := 0], shared - {b};
        }
        limited := limited + {b};
      } else {
        limited := limited - {b};
      }
    }

    /** tr_bandwidthSetParent.  Its asserts find cycles of one or two bandwidths; longer ones are up to the caller. */
    method SetParent(b: nat, parent: Option<nat>)
      requires Valid() && b < |up| && (parent.Some? ==> parent.value < |up| && !Above(up, depth, parent.value, b))
      modifies this`up, this`children, this`depth, this`deepest
      ensures Valid() && up == old(up)[b := parent]
    {
      ghost var up0, children0 := up, children;
      MoveKeepsForest(up, depth, b, parent);
      MovedDepth(up, depth, b, parent, deepest);
      Relinked(up, children, b, parent);
      deepest := deepest + if parent.Some? then depth[parent.value] + 1 else 0;
      depth := Moved(up, depth, b, parent);
      if up[b].Some? {
        children := children[up[b].value := children[up[b].value] - {b}];
        up := up[b := None];
      }
      assert children == Without(children0, up0[b], b);
      if parent.Some? {
        children := children[parent.value := children[parent.value] + {b}];
        up := up[b := parent];
      }
      assert up == up0[b := parent];
    }

    // ---------- using it up ----------

    /** The part of bandwidthClamp that is about the speed: where it comes close to the limit, less is allowed. */
    static method SlowDown(byteCount: nat, current: nat, desired: nat) returns (r: nat)
      ensures IsSlowed(byteCount, current, desired, r)
    {
      r := byteCount;
      var ratio := if desired >= 1 then current as real / desired as real else 0.0;
      if desired >= 1 {
        RatioIs(current, desired, 1.0);
        RatioIs(current, desired, 0.9);
        RatioIs(current, desired, 0.8);
      }
      if ratio > 1.0 {
        r := 0;
      } else if ratio > 0.9 {
        r := (r as real * 0.8).Floor;
      } else if ratio > 0.8 {
        r := (r as real * 0.9).Floor;
      }
    }

    /** bandwidthClamp: as much of byteCount as the limits allow that are honoured on the way up */
    method Clamp(b: nat, byteCount: nat, speeds: Speeds) returns (r: nat)
      requires Shape() && b < |up| && OfSize(speeds, |up|)
      ensures Allowed(up, depth, honors, limited, speeds, left, b, byteCount, r)
      ensures r <= byteCount && WithinLimits(up, depth, honors, limited, b, r, left)
      ensures AllCalm(up, depth, honors, limited, speeds, b) ==>
        r == byteCount || exists a: nat :: Counts(up, depth, honors, limited, b, a) && r == left[a]
      ensures SomeTooFast(up, depth, honors, limited, speeds, b) ==> r == 0
      decreases depth[b]
    {
      r := byteCount;
      if b in limited {
        r := if r < left[b] then r else left[b];
        if r > 0 {
          r := SlowDown(r, speeds.current[b], speeds.desired[b]);
        }
      }
      assert AllowedHere(limited, speeds, left, b, byteCount, r);
      if up[b].Some? && b in honors && r > 0 {
        r := Clamp(up[b].value, r, speeds);
      }
      AllowedIsWithin(up, depth, honors, limited, speeds, left, b, byteCount, r);
    }

    /** tr_bandwidthUsed: piece data is charged all the way up, whether limits are honoured or not. */
    method Used(b: nat, n: nat, isPieceData: bool)
      requires Shape() && b < |up|
      modifies this`left
      ensures isPieceData ==> Charged(up, depth, limited, b, n, old(left), left)
      ensures !isPieceData ==> left == old(left)
      decreases depth[b]
    {
      ghost var before := left;
      if b in limited && isPieceData {
        left := left[b := left[b] - if left[b] < n then left[b] else n];
      }
      assert isPieceData ==> left == ChargeOne(limited, b, n, before);
      if up[b].Some? {
        Used(up[b].value, n, isPieceData);
      }
      if isPieceData {
        ChargedAbove(up, depth, limited, b, n, before, left);
      }
    }

    /** What the clamp lets through, whatever the speeds are found to be */
    method Room(b: nat, wanted: nat) returns (most: nat)
      requires Shape() && b < |up|
      ensures most <= wanted && WithinLimits(up, depth, honors, limited, b, most, left)
    {
      var speeds: Speeds := *;
      if !OfSize(speeds, |up|) {
        speeds := Speeds(seq(|up|, _ => 0), desired);
      }
      most := Clamp(b, wanted, speeds);
    }

    /** A connection transfers piece data, as much as its clamp lets it. */
    method Transfer(b: nat, wanted: nat) returns (n: nat)
      requires Valid() && b < |up|
      modifies this`left, this`waiting, this`spent, this`shared
      ensures Valid() && n <= wanted && n + waiting == old(waiting)
      ensures shared == old(shared) + Ignored(up, depth, honors, b)
      ensures spent == SpentBy(up, depth, honors, b, n, old(spent))
    {
      ghost var before := left;
      var most := Room(b, wanted);
      n :| 0 <= n <= most && n <= waiting;
      assert WithinLimits(up, depth, honors, limited, b, n, before);
      waiting := waiting - n;
      Used(b, n, true);
      ChargeKeepsBudget(up, depth, honors, limited, shared, share, spent, b, n, before, left);
      spent := SpentBy(up, depth, honors, b, n, spent);
      shared := shared + Ignored(up, depth, honors, b);
    }

    // ---------- handing it out ----------

    ghost function ThePlan(): Plan
      reads this
    {
      Plan(up, depth, limited, desired, priority, peers)
    }

    ghost function TheBooks(): Books
      reads this
    {
      Books(left, share, spent, shared, ioPriority)
    }

    /** What allocateBandwidth does to b itself */
    method AllocateOne(b: nat, least: int, period: nat) returns (pool: seq<nat>)
      requires Valid() && b < |up|
      modifies this`left, this`share, this`spent, this`shared, this`ioPriority
      ensures Valid() && HandedOut(ThePlan(), {b}, b, least, period, old(TheBooks()), TheBooks(), pool)
      ensures Reached(up, depth, b, {}, {b})
    {
      ghost var x := TheBooks();
      if b in limited {
        left := left[b := GrantOf(desired[b], period)];
        share, spent, shared := share[b := left[b]], spent[b := 0], shared - {b};
      }
      pool := [];
      if b in peers {
        ioPriority := ioPriority[b := Max(least, priority[b])];
        pool := [b];
      }
      HandedOutFirst(ThePlan(), b, least, period, x, TheBooks(), pool);
      HandingOutKeepsBudget(ThePlan(), {b}, b, least, period, x, TheBooks(), pool);
    }

    /** Some of b's children, and all below them, have been dealt with. */
    ghost predicate Under(b: nat, least: int, period: nat, x: Books, done: set<nat>, reach: set<nat>, pool: seq<nat>)
      requires Shape() && b < |up|
      reads this
    {
      Reached(up, depth, b, done, reach) && HandedOut(ThePlan(), reach, b, least, period, x, TheBooks(), pool)
    }

    /** One round of the loop in allocateBandwidth; todo are the children still to come. */
    method AllocateChild(b: nat, todo: set<nat>, least: int, period: nat, pool: seq<nat>, ghost x: Books, ghost reach: set<nat>)
      returns (all: seq<nat>, rest: set<nat>, ghost further: set<nat>)
      requires Valid() && b < |up| && todo != {} && todo <= children[b]
      requires Under(b, least, period, x, children[b] - todo, reach, pool)
      modifies this`left, this`share, this`spent, this`shared, this`ioPriority
      ensures Valid() && rest < todo && Under(b, least, period, x, children[b] - rest, further, all)
      decreases deepest - depth[b], 0
    {
      var c :| c in todo;
      assert IsChild(up, b, c);
      ghost var done := children[b] - todo;
      ReachOne(up, depth, b, done, reach, c);
      ghost var y := TheBooks();
      var more := Allocate(c, Max(least, priority[b]), period);
      HandedOutBoth(ThePlan(), reach, b, c, least, period, x, y, TheBooks(), pool, more);
      all, rest, further := pool + more, todo - {c}, reach + Below(up, depth, c);
      assert children[b] - rest == done + {c};
    }

    /** allocateBandwidth: everything from b down gets its share, and the pool gets its peers */
    method Allocate(b: nat, least: int, period: nat) returns (pool: seq<nat>)
      requires Valid() && b < |up|
      modifies this`left, this`share, this`spent, this`shared, this`ioPriority
      ensures Valid() && HandedOut(ThePlan(), Below(up, depth, b), b, least, period, old(TheBooks()), TheBooks(), pool)
      decreases deepest - depth[b], 1
    {
      ghost var x := TheBooks();
      pool := AllocateOne(b, least, period);
      var todo := children[b];
      ghost var reach := {b};
      assert children[b] - todo == {};
      while todo != {}
        invariant Valid() && todo <= children[b]
        invariant Under(b, least, period, x, children[b] - todo, reach, pool)
        decreases todo
      {
        pool, todo, reach := AllocateChild(b, todo, least, period, pool, x, reach);
      }
      ReachAll(up, depth, b, children[b], reach);
    }

    // ---------- one period ----------

    /** A peer that transferred less than the increment is put aside. */
    static method AfterTurn(ghost pool: seq<nat>, peersLeft: seq<nat>, n: nat, ghost passes: seq<Pass>, i: nat, bytesUsed: nat)
      returns (after: seq<nat>, m: nat, ghost more: seq<Pass>)
      requires Rounds(pool, peersLeft, n, passes) && i < n
      ensures Rounds(pool, after, m, more) && Total(more) == Total(passes) + bytesUsed
      ensures m == if bytesUsed != INCREMENT then n - 1 else n
    {
      more := passes + [Pass(peersLeft[i], bytesUsed)];
      if bytesUsed != INCREMENT {
        after, m := Swapped(peersLeft, i, n - 1), n - 1;
        RoundOver(pool, peersLeft, n, passes, i, bytesUsed);
      } else {
        after, m := peersLeft, n;
        RoundGoesOn(pool, peersLeft, n, passes, i);
      }
    }

    /** One round of the loop in phaseOne: a peer picked at random has a turn. */
    method OneTurn(ghost pool: seq<nat>, peersLeft: seq<nat>, n: nat, ghost passes: seq<Pass>)
      returns (after: seq<nat>, m: nat, ghost more: seq<Pass>)
      requires Valid() && (forall k :: 0 <= k < |pool| ==> pool[k] < |up|) && Rounds(pool, peersLeft, n, passes) && 0 < n
      modifies this`left, this`waiting, this`spent, this`shared
      ensures Valid() && Rounds(pool, after, m, more) && Total(more) + waiting == Total(passes) + old(waiting)
      ensures waiting < old(waiting) || (waiting == old(waiting) && m < n)
    {
      var i: nat :| i < n;
      InPool(pool, peersLeft, i);
      var bytesUsed := Transfer(peersLeft[i], INCREMENT);
      after, m, more := AfterTurn(pool, peersLeft, n, passes, i, bytesUsed);
    }

    /** phaseOne: peers transfer a little at a time, each until it transfers less than it could have.  The pool keeps
        its peers, and the limits hold throughout. */
    method PhaseOne(pool: seq<nat>) returns (after: seq<nat>, ghost passes: seq<Pass>)
      requires Valid() && forall k :: 0 <= k < |pool| ==> pool[k] < |up|
      modifies this`left, this`waiting, this`spent, this`shared
      ensures Valid() && multiset(after) == multiset(pool)
      ensures Total(passes) + waiting == old(waiting) && Ended(passes) == multiset(pool)
    {
      after, passes := pool, [];
      var n: nat := |pool|;
      while n > 0
        invariant Valid() && Rounds(pool, after, n, passes)
        invariant Total(passes) + waiting == old(waiting)
        decreases waiting, n
      {
        after, n, passes := OneTurn(pool, after, n, passes);
      }
      assert after[0..] == after;
    }

    /** The three pools of tr_bandwidthAllocate: a peer is in those for its priority and all lower ones. */
    method Pools(pool: seq<nat>) returns (low: seq<nat>, normal: seq<nat>, high: seq<nat>)
      requires Shape() && forall k :: 0 <= k < |pool| ==> pool[k] < |up|
      ensures low == pool
      ensures OfPriority(ioPriority, {TR_PRI_NORMAL, TR_PRI_HIGH}, pool, normal)
      ensures OfPriority(ioPriority, {TR_PRI_HIGH}, pool, high)
    {
      low, normal, high := [], [], [];
      for k := 0 to |pool|
        invariant low == pool[..k]
        invariant OfPriority(ioPriority, {TR_PRI_NORMAL, TR_PRI_HIGH}, pool[..k], normal)
        invariant OfPriority(ioPriority, {TR_PRI_HIGH}, pool[..k], high)
      {
        assert pool[..k + 1] == pool[..k] + [pool[k]];
        var p := ioPriority[pool[k]];
        if p == TR_PRI_HIGH {
          high := high + [pool[k]];
        }
        if p == TR_PRI_HIGH || p == TR_PRI_NORMAL {
          normal := normal + [pool[k]];
        }
        low := low + [pool[k]];
      }
      assert pool[..|pool|] == pool;
    }

    /** tr_bandwidthAllocate, up to the end of its first phase: no limit from b down has been exceeded by the
        connections that honour it. */
    method AllocateAndRun(b: nat, period: nat) returns (ghost passes: seq<Pass>)
      requires Valid() && b < |up|
      modifies this`left, this`share, this`spent, this`shared, this`ioPriority, this`waiting
      ensures Valid() && Total(passes) + waiting == old(waiting)
      ensures InThreeRounds(ioPriority, multiset(Below(up, depth, b) * peers), passes)
      ensures forall a :: a in Below(up, depth, b) * limited ==> spent[a] + left[a] <= Grant(desired, period, a)
      ensures forall a :: a in Below(up, depth, b) * peers ==> ioPriority[a] == Peak(up, depth, priority, a, b, TR_PRI_LOW)
    {
      var pool := Allocate(b, TR_PRI_LOW, period);
      PoolMembers(Below(up, depth, b) * peers, pool);
      passes := RunPool(pool);
    }

    /** The three rounds of the first phase */
    method RunPool(pool: seq<nat>) returns (ghost passes: seq<Pass>)
      requires Valid() && forall k :: 0 <= k < |pool| ==> pool[k] < |up|
      modifies this`left, this`waiting, this`spent, this`shared
      ensures Valid() && Total(passes) + waiting == old(waiting) && InThreeRounds(ioPriority, multiset(pool), passes)
    {
      var low, normal, high := Pools(pool);
      OfPriorityMembers(ioPriority, {TR_PRI_HIGH}, pool, high);
      OfPriorityMembers(ioPriority, {TR_PRI_NORMAL, TR_PRI_HIGH}, pool, normal);
      ghost var first, second, third;
      var after;
      after, first := PhaseOne(high);
      after, second := PhaseOne(normal);
      after, third := PhaseOne(low);
      RoundOf(ioPriority, pool, {TR_PRI_HIGH}, high, first);
      RoundOf(ioPriority, pool, {TR_PRI_NORMAL, TR_PRI_HIGH}, normal, second);
      TotalOfBoth(first, second);
      TotalOfBoth(first + second, third);
      passes := first + second + third;
      assert IsRounds(ioPriority, multiset(pool), first, second, third);
    }
  }

  /** Those of the pool that have one of some priorities, as often as they are in the pool */
  ghost predicate OfPriority(ioPriority: seq<int>, which: set<int>, pool: seq<nat>, s: seq<nat>) {
    forall x: nat :: multiset(s)[x] == if x < |ioPriority| && ioPriority[x] in which then multiset(pool)[x] else 0
  }

  lemma OfPriorityMembers(ioPriority: seq<int>, which: set<int>, pool: seq<nat>, s: seq<nat>)
    requires OfPriority(ioPriority, which, pool, s)
    ensures forall k :: 0 <= k < |s| ==> s[k] < |ioPriority|
  {
    forall k | 0 <= k < |s|
      ensures s[k] < |ioPriority|
    {
      assert s[k] in multiset(s);
    }
  }

  lemma PoolMembers(which: set<nat>, pool: seq<nat>)
    requires Pooled(which, pool)
    ensures forall k :: 0 <= k < |pool| ==> pool[k] in which
  {
    forall k | 0 <= k < |pool|
      ensures pool[k] in which
    {
      assert pool[k] in multiset(pool);
    }
  }
}
