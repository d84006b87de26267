/** Trees of bandwidths: which lie above which, and how the limits of those above count (bandwidth.c). */
module BandwidthModel {
  import opened Base

  /** The parent of each bandwidth */
  type Links = seq<Option<nat>>

  /** Every parent is a bandwidth of lesser depth, so that going up comes to an end. */
  ghost predicate IsForest(up: Links, depth: seq<nat>) {
    |up| == |depth| && forall b: nat :: b < |up| && up[b].Some? ==> up[b].value < |up| && depth[up[b].value] < depth[b]
  }

  /** Going up always comes to an end. */
  ghost predicate Acyclic(up: Links) {
    exists depth :: IsForest(up, depth)
  }

  /** a is b or lies above it. */
  ghost predicate Above(up: Links, depth: seq<nat>, b: nat, a: nat)
    requires IsForest(up, depth) && b < |up|
    decreases depth[b]
  {
    a == b || (up[b].Some? && Above(up, depth, up[b].value, a))
  }

  /** a is b, or above it with every bandwidth on the way honouring the limits of its parent. */
  ghost predicate Honours(up: Links, depth: seq<nat>, honors: set<nat>, b: nat, a: nat)
    requires IsForest(up, depth) && b < |up|
    decreases depth[b]
  {
    a == b || (up[b].Some? && b in honors && Honours(up, depth, honors, up[b].value, a))
  }

  lemma {:induction false} AboveIsHigher(up: Links, depth: seq<nat>, b: nat, a: nat)
    requires IsForest(up, depth) && b < |up| && Above(up, depth, b, a)
    ensures a < |up| && depth[a] <= depth[b] && (a != b ==> depth[a] < depth[b])
    decreases depth[b]
  {
    if a != b {
      AboveIsHigher(up, depth, up[b].value, a);
    }
  }

  lemma {:induction false} AboveTransitive(up: Links, depth: seq<nat>, c: nat, b: nat, a: nat)
    requires IsForest(up, depth) && c < |up| && b < |up| && Above(up, depth, c, b) && Above(up, depth, b, a)
    ensures Above(up, depth, c, a)
    decreases depth[c]
  {
    if c != b {
      AboveTransitive(up, depth, up[c].value, b, a);
    }
  }

  lemma {:induction false} HonoursIsAbove(up: Links, depth: seq<nat>, honors: set<nat>, b: nat, a: nat)
    requires IsForest(up, depth) && b < |up| && Honours(up, depth, honors, b, a)
    ensures Above(up, depth, b, a)
    decreases depth[b]
  {
    if a != b {
      HonoursIsAbove(up, depth, honors, up[b].value, a);
    }
  }

  /** A bandwidth below b is b itself or below exactly one child of b. */
  lemma {:induction false} BelowWhichChild(up: Links, depth: seq<nat>, x: nat, b: nat)
    requires IsForest(up, depth) && x < |up| && b < |up| && Above(up, depth, x, b) && x != b
    ensures exists c: nat :: c < |up| && up[c] == Some(b) && Above(up, depth, x, c)
    decreases depth[x]
  {
    var p := up[x].value;
    if p == b {
      assert Above(up, depth, x, x);
    } else {
      BelowWhichChild(up, depth, p, b);
      var c: nat :| c < |up| && up[c] == Some(b) && Above(up, depth, p, c);
      assert Above(up, depth, x, c);
    }
  }

  lemma {:induction false} OneChildOnly(up: Links, depth: seq<nat>, x: nat, b: nat, c: nat, d: nat)
    requires IsForest(up, depth) && x < |up| && b < |up| && c < |up| && d < |up| && up[c] == up[d] == Some(b)
    requires Above(up, depth, x, c) && Above(up, depth, x, d)
    ensures c == d
    decreases depth[x]
  {
    if x == c || x == d {
      AboveIsHigher(up, depth, x, c);
      AboveIsHigher(up, depth, x, d);
      if c != d {
        AboveIsHigher(up, depth, b, if x == c then d else c);
      }
    } else {
      OneChildOnly(up, depth, up[x].value, b, c, d);
    }
  }

  lemma ChildIsBelow(up: Links, depth: seq<nat>, x: nat, b: nat, c: nat)
    requires IsForest(up, depth) && x < |up| && b < |up| && c < |up| && up[c] == Some(b) && Above(up, depth, x, c)
    ensures Above(up, depth, x, b) && x != b
  {
    assert Above(up, depth, c, b) by {
      assert Above(up, depth, b, b);
    }
    AboveTransitive(up, depth, x, c, b);
    AboveIsHigher(up, depth, x, c);
  }

  // ---------- another parent ----------

  /** How deep everything lies once b has been put below p */
  ghost function Moved(up: Links, depth: seq<nat>, b: nat, p: Option<nat>): seq<nat>
    requires IsForest(up, depth) && (p.Some? ==> p.value < |up|)
  {
    var more := if p.Some? then depth[p.value] + 1 else 0;
    seq(|up|, x requires 0 <= x < |up| => if Above(up, depth, x, b) then depth[x] + more else depth[x])
  }

  /** The forest stays one exactly when the new parent does not lie below b. */
  lemma MoveKeepsForest(up: Links, depth: seq<nat>, b: nat, p: Option<nat>)
    requires IsForest(up, depth) && b < |up| && (p.Some? ==> p.value < |up|)
    ensures Acyclic(up[b := p]) <==> (p.Some? ==> !Above(up, depth, p.value, b))
    ensures (p.Some? ==> !Above(up, depth, p.value, b)) ==> IsForest(up[b := p], Moved(up, depth, b, p))
  {
    if p.Some? ==> !Above(up, depth, p.value, b) {
      var d := Moved(up, depth, b, p);
      assert |up[b := p]| == |up| == |d|;
      assert IsForest(up[b := p], d);
    } else if Acyclic(up[b := p]) {
      var up' := up[b := p];
      var d :| IsForest(up', d);
      assert up'[b] == p;
      NoCycle(up, depth, up', d, p.value, b);
      assert false;
    }
  }

  ghost predicate IsDeepest(depth: seq<nat>, deepest: nat) {
    forall b: nat :: b < |depth| ==> depth[b] <= deepest
  }

  lemma MovedDepth(up: Links, depth: seq<nat>, b: nat, p: Option<nat>, deepest: nat)
    requires IsForest(up, depth) && (p.Some? ==> p.value < |up|) && IsDeepest(depth, deepest)
    ensures IsDeepest(Moved(up, depth, b, p), deepest + if p.Some? then depth[p.value] + 1 else 0)
  {
  }

  lemma {:induction false} NoCycle(up: Links, depth: seq<nat>, up': Links, d: seq<nat>, x: nat, b: nat)
    requires IsForest(up, depth) && IsForest(up', d) && x < |up| && b < |up| && Above(up, depth, x, b)
    requires |up'| == |up| && forall y: nat :: y < |up| && y != b ==> up'[y] == up[y]
    ensures d[b] <= d[x]
    decreases depth[x]
  {
    if x != b {
      NoCycle(up, depth, up', d, up[x].value, b);
      assert up'[x] == up[x];
    }
  }

  // ---------- priorities ----------

  function Max(a: int, b: int): int {
    if a < b then b else a
  }

  /** The highest priority from x up to b, and at least the one given */
  ghost function Peak(up: Links, depth: seq<nat>, priority: seq<int>, x: nat, b: nat, least: int): int
    requires IsForest(up, depth) && x < |up| && |up| == |priority|
    decreases depth[x]
  {
    if x == b || up[x].None? then Max(least, priority[x])
    else Max(Peak(up, depth, priority, up[x].value, b, least), priority[x])
  }

  lemma {:induction false} PeakOfChild(up: Links, depth: seq<nat>, priority: seq<int>, x: nat, b: nat, c: nat, least: int)
    requires IsForest(up, depth) && x < |up| && b < |up| && c < |up| && |up| == |priority|
    requires up[c] == Some(b) && Above(up, depth, x, c)
    ensures Peak(up, depth, priority, x, b, least) == Peak(up, depth, priority, x, c, Max(least, priority[b]))
    decreases depth[x]
  {
    ChildIsBelow(up, depth, x, b, c);
    if x == c {
      assert Peak(up, depth, priority, b, b, least) == Max(least, priority[b]);
    } else {
      PeakOfChild(up, depth, priority, up[x].value, b, c, least);
    }
  }

  ghost predicate IsBetween(up: Links, depth: seq<nat>, x: nat, y: nat, b: nat)
    requires IsForest(up, depth) && x < |up|
  {
    y < |up| && Above(up, depth, x, y) && Above(up, depth, y, b)
  }

  /** The peak is the highest of the priorities from x up to b and the one given. */
  lemma {:induction false} PeakIsHighest(up: Links, depth: seq<nat>, priority: seq<int>, x: nat, b: nat, least: int)
    requires IsForest(up, depth) && x < |up| && b < |up| && |up| == |priority| && Above(up, depth, x, b)
    ensures var p := Peak(up, depth, priority, x, b, least);
      least <= p && (forall y: nat :: IsBetween(up, depth, x, y, b) ==> priority[y] <= p) &&
      (p == least || exists y: nat :: IsBetween(up, depth, x, y, b) && priority[y] == p)
    decreases depth[x]
  {
    assert Above(up, depth, x, x);
    if x == b {
      forall y: nat | IsBetween(up, depth, x, y, b) ensures y == x {
        AboveIsHigher(up, depth, x, y);
        AboveIsHigher(up, depth, y, b);
      }
      assert IsBetween(up, depth, x, x, b);
    } else {
      PeakIsHighest(up, depth, priority, up[x].value, b, least);
      assert IsBetween(up, depth, x, x, b);
      assert forall y: nat :: IsBetween(up, depth, x, y, b) <==> y == x || IsBetween(up, depth, up[x].value, y, b);
    }
  }

  // ---------- children ----------

  predicate IsChild(up: Links, b: nat, c: nat) {
    c < |up| && up[c] == Some(b)
  }

  /** Each bandwidth knows its children. */
  ghost predicate Linked(up: Links, children: seq<set<nat>>) {
    |up| == |children| && forall b: nat, c: nat :: b < |up| ==> (c in children[b] <==> IsChild(up, b, c))
  }

  function Without(children: seq<set<nat>>, p: Option<nat>, b: nat): seq<set<nat>> {
    if p.Some? && p.value < |children| then children[p.value := children[p.value] - {b}] else children
  }

  function With(children: seq<set<nat>>, p: Option<nat>, b: nat): seq<set<nat>> {
    if p.Some? && p.value < |children| then children[p.value := children[p.value] + {b}] else children
  }

  lemma Relinked(up: Links, children: seq<set<nat>>, b: nat, p: Option<nat>)
    requires Linked(up, children) && b < |up| && (p.Some? ==> p.value < |up|) && (up[b].Some? ==> up[b].value < |up|)
    ensures Linked(up[b := p], With(Without(children, up[b], b), p, b))
  {
    var c1 := Without(children, up[b], b);
    var c2 := With(c1, p, b);
    forall x: nat, c: nat | x < |up|
      ensures c in c2[x] <==> IsChild(up[b := p], x, c)
    {
      assert c in c1[x] <==> c in children[x] && c != b;
      assert c in c2[x] <==> if c == b then p == Some(x) else c in c1[x];
      assert c in children[x] <==> IsChild(up, x, c);
    }
  }

  // ---------- charging ----------

  function Less(a: nat, b: nat): nat {
    if a < b then 0 else a - b
  }

  /** n bytes have been charged to b and all above it. */
  ghost predicate Charged(up: Links, depth: seq<nat>, limited: set<nat>, b: nat, n: nat, before: seq<nat>, after: seq<nat>)
    requires IsForest(up, depth) && b < |up|
  {
    |before| == |after| == |up| &&
    forall a: nat :: a < |up| ==> after[a] == if a in limited && Above(up, depth, b, a) then Less(before[a], n) else before[a]
  }

  function ChargeOne(limited: set<nat>, b: nat, n: nat, left: seq<nat>): seq<nat>
    requires b < |left|
  {
    if b in limited then left[b := Less(left[b], n)] else left
  }

  lemma ChargedAbove(up: Links, depth: seq<nat>, limited: set<nat>, b: nat, n: nat, before: seq<nat>, after: seq<nat>)
    requires IsForest(up, depth) && b < |up| && |before| == |up|
    requires if up[b].None? then after == ChargeOne(limited, b, n, before)
             else Charged(up, depth, limited, up[b].value, n, ChargeOne(limited, b, n, before), after)
    ensures Charged(up, depth, limited, b, n, before, after)
  {
    if up[b].Some? && Above(up, depth, up[b].value, b) {
      AboveIsHigher(up, depth, up[b].value, b);
    }
  }

  /** n is within every limit that counts for b. */
  ghost predicate WithinLimits(up: Links, depth: seq<nat>, honors: set<nat>, limited: set<nat>, b: nat, n: nat, left: seq<nat>)
    requires IsForest(up, depth) && b < |up|
  {
    forall a: nat :: a < |left| && a < |up| && a in limited && Honours(up, depth, honors, b, a) ==> n <= left[a]
  }

  // ---------- how much may be transferred ----------

  /** For each bandwidth, how fast its connections download and how fast they should.  The clamp looks at these whichever
      direction it is for. */
  datatype Speeds = Speeds(current: seq<nat>, desired: seq<nat>)

  predicate OfSize(speeds: Speeds, size: nat) {
    |speeds.current| == |speeds.desired| == size
  }

  /** r is what is allowed of n at this speed: all up to eight tenths of the desired one, nothing beyond it, and nine or eight
      tenths, rounded down, in between. */
  predicate IsSlowed(n: nat, current: nat, desired: nat, r: nat) {
    if desired == 0 || 10 * current <= 8 * desired then r == n
    else if 10 * current <= 9 * desired then 10 * r <= 9 * n < 10 * (r + 1)
    else if current <= desired then 5 * r <= 4 * n < 5 * (r + 1)
    else r == 0
  }

  /** The limit of a counts for b. */
  ghost predicate Counts(up: Links, depth: seq<nat>, honors: set<nat>, limited: set<nat>, b: nat, a: nat)
    requires IsForest(up, depth) && b < |up|
  {
    a < |up| && a in limited && Honours(up, depth, honors, b, a)
  }

  /** b alone allows r of n. */
  predicate AllowedHere(limited: set<nat>, speeds: Speeds, left: seq<nat>, b: nat, n: nat, r: nat)
    requires b < |left| && OfSize(speeds, |left|)
  {
    if b in limited then IsSlowed(if n < left[b] then n else left[b], speeds.current[b], speeds.desired[b], r) else r == n
  }

  /** b, and above it whatever is honoured, allow r of n. */
  ghost predicate Allowed(up: Links, depth: seq<nat>, honors: set<nat>, limited: set<nat>, speeds: Speeds, left: seq<nat>, b: nat, n: nat, r: nat)
    requires IsForest(up, depth) && b < |up| == |left| && OfSize(speeds, |up|)
    decreases depth[b]
  {
    exists m: nat :: AllowedHere(limited, speeds, left, b, n, m) &&
      if up[b].Some? && b in honors && m > 0 then Allowed(up, depth, honors, limited, speeds, left, up[b].value, m, r) else r == m
  }

  /** Wherever a limit counts for b, the speed is at most eight tenths of what it should be. */
  ghost predicate AllCalm(up: Links, depth: seq<nat>, honors: set<nat>, limited: set<nat>, speeds: Speeds, b: nat)
    requires IsForest(up, depth) && b < |up| && OfSize(speeds, |up|)
  {
    forall a: nat :: Counts(up, depth, honors, limited, b, a) ==> speeds.desired[a] == 0 || 10 * speeds.current[a] <= 8 * speeds.desired[a]
  }

  ghost predicate SomeTooFast(up: Links, depth: seq<nat>, honors: set<nat>, limited: set<nat>, speeds: Speeds, b: nat)
    requires IsForest(up, depth) && b < |up| && OfSize(speeds, |up|)
  {
    exists a: nat :: Counts(up, depth, honors, limited, b, a) && 0 < speeds.desired[a] < speeds.current[a]
  }

  lemma CountsHere(up: Links, depth: seq<nat>, honors: set<nat>, limited: set<nat>, b: nat, a: nat)
    requires IsForest(up, depth) && b < |up|
    ensures Counts(up, depth, honors, limited, b, a) <==>
      (a == b && b in limited) || (up[b].Some? && b in honors && Counts(up, depth, honors, limited, up[b].value, a))
  {
    if up[b].Some? && b in honors && Counts(up, depth, honors, limited, up[b].value, a) {
      assert Honours(up, depth, honors, b, a);
    }
  }

  /** What is allowed is within every limit that counts.  While the speeds are calm it is all of that: the amount asked for, or
      what is left where least is left.  Where the speed is too high anywhere, nothing is allowed. */
  lemma {:induction false} AllowedIsWithin(up: Links, depth: seq<nat>, honors: set<nat>, limited: set<nat>, speeds: Speeds, left: seq<nat>,
                                           b: nat, n: nat, r: nat)
    requires IsForest(up, depth) && b < |up| == |left| && OfSize(speeds, |up|)
    requires Allowed(up, depth, honors, limited, speeds, left, b, n, r)
    ensures r <= n && WithinLimits(up, depth, honors, limited, b, r, left)
    ensures AllCalm(up, depth, honors, limited, speeds, b) ==>
      r == n || exists a: nat :: Counts(up, depth, honors, limited, b, a) && r == left[a]
    ensures SomeTooFast(up, depth, honors, limited, speeds, b) ==> r == 0
    decreases depth[b]
  {
    var m: nat :| AllowedHere(limited, speeds, left, b, n, m) &&
      if up[b].Some? && b in honors && m > 0 then Allowed(up, depth, honors, limited, speeds, left, up[b].value, m, r) else r == m;
    forall a: nat
      ensures Counts(up, depth, honors, limited, b, a) <==>
        (a == b && b in limited) || (up[b].Some? && b in honors && Counts(up, depth, honors, limited, up[b].value, a))
    {
      CountsHere(up, depth, honors, limited, b, a);
    }
    if up[b].Some? && b in honors && m > 0 {
      AllowedIsWithin(up, depth, honors, limited, speeds, left, up[b].value, m, r);
    }
    assert AllCalm(up, depth, honors, limited, speeds, b) && b in limited ==> m == n || m == left[b];
  }

  /** Comparing the ratio is comparing the products. */
  lemma RatioIs(current: nat, desired: nat, q: real)
    requires 0 < desired
    ensures current as real / desired as real > q <==> current as real > q * desired as real
  {
    var x := current as real / desired as real;
    assert x * desired as real == current as real;
    if x > q {
      assert (x - q) * desired as real > 0.0;
    } else {
      assert (q - x) * desired as real >= 0.0;
    }
  }

  // ---------- keeping to the budget ----------

  /** What is used up and what is left is no more than the share, and all of it unless others used it too. */
  ghost predicate InBudget(limited: set<nat>, shared: set<nat>, share: seq<nat>, spent: seq<nat>, left: seq<nat>) {
    |share| == |spent| == |left| &&
    forall b: nat :: b < |left| && b in limited ==>
      spent[b] + left[b] <= share[b] && (b !in shared ==> spent[b] + left[b] == share[b])
  }

  ghost function SpentBy(up: Links, depth: seq<nat>, honors: set<nat>, b: nat, n: nat, spent: seq<nat>): (r: seq<nat>)
    requires IsForest(up, depth) && b < |up| && |spent| == |up|
    ensures |r| == |spent|
  {
    seq(|up|, a requires 0 <= a < |up| => spent[a] + if Honours(up, depth, honors, b, a) then n else 0)
  }

  /** Those above b whose limits do not count for it */
  ghost function Ignored(up: Links, depth: seq<nat>, honors: set<nat>, b: nat): set<nat>
    requires IsForest(up, depth) && b < |up|
  {
    set a: nat | a < |up| && Above(up, depth, b, a) && !Honours(up, depth, honors, b, a)
  }

  lemma ChargeKeepsBudget(up: Links, depth: seq<nat>, honors: set<nat>, limited: set<nat>, shared: set<nat>,
                          share: seq<nat>, spent: seq<nat>, b: nat, n: nat, before: seq<nat>, after: seq<nat>)
    requires IsForest(up, depth) && b < |up| && |spent| == |up|
    requires InBudget(limited, shared, share, spent, before) && Charged(up, depth, limited, b, n, before, after)
    requires WithinLimits(up, depth, honors, limited, b, n, before)
    ensures InBudget(limited, shared + Ignored(up, depth, honors, b), share, SpentBy(up, depth, honors, b, n, spent), after)
  {
    var now := SpentBy(up, depth, honors, b, n, spent);
    var shared' := shared + Ignored(up, depth, honors, b);
    forall a: nat | a < |after| && a in limited
      ensures now[a] + after[a] <= share[a] && (a !in shared' ==> now[a] + after[a] == share[a])
    {
      if Honours(up, depth, honors, b, a) {
        HonoursIsAbove(up, depth, honors, b, a);
      }
    }
  }

  // ---------- handing out ----------

  /** b and everything below it */
  ghost function Below(up: Links, depth: seq<nat>, b: nat): set<nat>
    requires IsForest(up, depth) && b < |up|
  {
    set x: nat | x < |up| && Above(up, depth, x, b)
  }

  const UINT_RANGE := 0x1_0000_0000

  /** speed * period, cast to unsigned int before it is divided */
  function GrantOf(speed: nat, period: nat): nat {
    speed * period % UINT_RANGE / 1000
  }

  /** What a limited bandwidth gets for a period in milliseconds */
  function Grant(desired: seq<nat>, period: nat, b: nat): nat {
    if b < |desired| then GrantOf(desired[b], period) else 0
  }

  lemma Wraps(p: nat)
    ensures p % UINT_RANGE / 1000 == p / 1000 <==> p < UINT_RANGE
  {
    if p >= UINT_RANGE {
      assert p % UINT_RANGE <= p - UINT_RANGE;
    }
  }

  /** The desired speed is granted exactly as long as the product fits into 32 bits; with a period of 500
      milliseconds a limit of 8589935 bytes a second grants nothing. */
  lemma GrantIsSpeed(speed: nat, period: nat)
    ensures GrantOf(speed, period) == speed * period / 1000 <==> speed * period < UINT_RANGE
    ensures GrantOf(8589935, 500) == 0
  {
    Wraps(speed * period);
  }

  ghost predicate Granted(which: set<nat>, desired: seq<nat>, period: nat, before: seq<nat>, after: seq<nat>) {
    |after| == |before| &&
    forall x: nat :: x < |before| ==> after[x] == if x in which then Grant(desired, period, x) else before[x]
  }

  ghost predicate Cleared(which: set<nat>, before: seq<nat>, after: seq<nat>) {
    |after| == |before| && forall x: nat :: x < |before| ==> after[x] == if x in which then 0 else before[x]
  }

  /** The peers of some bandwidths have the highest priority on their way up to b. */
  ghost predicate Prioritised(up: Links, depth: seq<nat>, priority: seq<int>, which: set<nat>, b: nat, least: int, before: seq<int>, after: seq<int>)
    requires IsForest(up, depth) && |up| == |priority|
  {
    |after| == |before| == |up| &&
    forall x: nat :: x < |up| ==> after[x] == if x in which then Peak(up, depth, priority, x, b, least) else before[x]
  }

  /** The pool holds exactly these, each once. */
  ghost predicate Pooled(which: set<nat>, pool: seq<nat>) {
    multiset(pool) == multiset(which)
  }

  lemma GrantedBoth(a: set<nat>, b: set<nat>, desired: seq<nat>, period: nat, s: seq<nat>, t: seq<nat>, u: seq<nat>)
    requires Granted(a, desired, period, s, t) && Granted(b, desired, period, t, u)
    ensures Granted(a + b, desired, period, s, u)
  {
  }

  lemma ClearedBoth(a: set<nat>, b: set<nat>, s: seq<nat>, t: seq<nat>, u: seq<nat>)
    requires Cleared(a, s, t) && Cleared(b, t, u)
    ensures Cleared(a + b, s, u)
  {
  }

  lemma PooledBoth(a: set<nat>, b: set<nat>, p: seq<nat>, q: seq<nat>)
    requires Pooled(a, p) && Pooled(b, q) && a !! b
    ensures Pooled(a + b, p + q)
  {
    assert multiset(a + b) == multiset(a) + multiset(b);
  }

  lemma PrioritisedBoth(up: Links, depth: seq<nat>, priority: seq<int>, a: set<nat>, peers: set<nat>, b: nat, c: nat, least: int,
                        s: seq<int>, t: seq<int>, u: seq<int>)
    requires IsForest(up, depth) && |up| == |priority| && b < |up| && IsChild(up, b, c)
    requires Prioritised(up, depth, priority, a, b, least, s, t)
    requires Prioritised(up, depth, priority, Below(up, depth, c) * peers, c, Max(least, priority[b]), t, u)
    ensures Prioritised(up, depth, priority, a + Below(up, depth, c) * peers, b, least, s, u)
  {
    forall x: nat | x < |up|
      ensures u[x] == if x in a + Below(up, depth, c) * peers then Peak(up, depth, priority, x, b, least) else s[x]
    {
      if x in Below(up, depth, c) {
        PeakOfChild(up, depth, priority, x, b, c, least);
      }
    }
  }

  /** b, and everything below the children that have been dealt with */
  ghost predicate Reached(up: Links, depth: seq<nat>, b: nat, done: set<nat>, reach: set<nat>)
    requires IsForest(up, depth) && b < |up|
  {
    (forall c :: c in done ==> IsChild(up, b, c)) &&
    forall x :: x in reach <==> x == b || exists c :: c in done && c < |up| && x in Below(up, depth, c)
  }

  lemma ReachOne(up: Links, depth: seq<nat>, b: nat, done: set<nat>, reach: set<nat>, c: nat)
    requires IsForest(up, depth) && b < |up| && Reached(up, depth, b, done, reach) && IsChild(up, b, c) && c !in done
    ensures Reached(up, depth, b, done + {c}, reach + Below(up, depth, c)) && reach !! Below(up, depth, c)
  {
    forall x | x in reach && x in Below(up, depth, c)
      ensures false
    {
      if x == b {
        AboveIsHigher(up, depth, b, c);
      } else {
        var d :| d in done && d < |up| && x in Below(up, depth, d);
        OneChildOnly(up, depth, x, b, c, d);
      }
    }
    forall x
      ensures x in reach + Below(up, depth, c) <==>
        x == b || exists d :: d in done + {c} && d < |up| && x in Below(up, depth, d)
    {
      if x in reach && x != b {
        var d :| d in done && d < |up| && x in Below(up, depth, d);
        assert d in done + {c};
      }
      if x in Below(up, depth, c) {
        assert c in done + {c};
      }
    }
  }

  lemma ReachAll(up: Links, depth: seq<nat>, b: nat, done: set<nat>, reach: set<nat>)
    requires IsForest(up, depth) && b < |up| && Reached(up, depth, b, done, reach)
    requires forall c :: c in done <==> IsChild(up, b, c)
    ensures reach == Below(up, depth, b)
  {
    forall x: nat
      ensures x in reach <==> x in Below(up, depth, b)
    {
      if x in reach && x != b {
        var c :| c in done && c < |up| && x in Below(up, depth, c);
        ChildIsBelow(up, depth, x, b, c);
      }
      if x in Below(up, depth, b) && x != b {
        BelowWhichChild(up, depth, x, b);
        var c: nat :| c < |up| && up[c] == Some(b) && Above(up, depth, x, c);
        assert IsChild(up, b, c) && x in Below(up, depth, c);
      }
    }
  }

  /** What stays as it is while bandwidth is handed out, and what does not: what is left and, since it was last given,
      the share, what honest users have spent of it, and which shares others have used too */
  datatype Plan = Plan(up: Links, depth: seq<nat>, limited: set<nat>, desired: seq<nat>, priority: seq<int>, peers: set<nat>) {
    ghost predicate Ok() {
      IsForest(up, depth) && |up| == |priority| == |desired|
    }
  }

  datatype Books = Books(left: seq<nat>, share: seq<nat>, spent: seq<nat>, shared: set<nat>, io: seq<int>)

  /** Those in reach, which lie below b, have been given their share for the period, and their peers are in the pool. */
  ghost predicate HandedOut(p: Plan, reach: set<nat>, b: nat, least: int, period: nat, x: Books, y: Books, pool: seq<nat>)
    requires p.Ok()
  {
    var which := reach * p.limited;
    Granted(which, p.desired, period, x.left, y.left) && Granted(which, p.desired, period, x.share, y.share) &&
    Cleared(which, x.spent, y.spent) && y.shared == x.shared - which &&
    Prioritised(p.up, p.depth, p.priority, reach * p.peers, b, least, x.io, y.io) && Pooled(reach * p.peers, pool)
  }

  lemma HandedOutBoth(p: Plan, reach: set<nat>, b: nat, c: nat, least: int, period: nat, x: Books, y: Books, z: Books,
                      pool: seq<nat>, more: seq<nat>)
    requires p.Ok() && b < |p.up| && IsChild(p.up, b, c) && reach !! Below(p.up, p.depth, c)
    requires HandedOut(p, reach, b, least, period, x, y, pool)
    requires HandedOut(p, Below(p.up, p.depth, c), c, Max(least, p.priority[b]), period, y, z, more)
    ensures HandedOut(p, reach + Below(p.up, p.depth, c), b, least, period, x, z, pool + more)
  {
    var below := Below(p.up, p.depth, c);
    var l1, l2, p1, p2 := reach * p.limited, below * p.limited, reach * p.peers, below * p.peers;
    assert (reach + below) * p.limited == l1 + l2 && (reach + below) * p.peers == p1 + p2;
    GrantedBoth(l1, l2, p.desired, period, x.left, y.left, z.left);
    GrantedBoth(l1, l2, p.desired, period, x.share, y.share, z.share);
    ClearedBoth(l1, l2, x.spent, y.spent, z.spent);
    PooledBoth(p1, p2, pool, more);
    PrioritisedBoth(p.up, p.depth, p.priority, p1, p.peers, b, c, least, x.io, y.io, z.io);
  }

  lemma HandedOutFirst(p: Plan, b: nat, least: int, period: nat, x: Books, y: Books, pool: seq<nat>)
    requires p.Ok() && b < |p.up| == |x.left| == |x.share| == |x.spent| == |x.io|
    requires y.left == if b in p.limited then x.left[b := Grant(p.desired, period, b)] else x.left
    requires y.share == if b in p.limited then x.share[b := Grant(p.desired, period, b)] else x.share
    requires y.spent == if b in p.limited then x.spent[b := 0] else x.spent
    requires y.shared == if b in p.limited then x.shared - {b} else x.shared
    requires y.io == if b in p.peers then x.io[b := Max(least, p.priority[b])] else x.io
    requires pool == if b in p.peers then [b] else []
    ensures HandedOut(p, {b}, b, least, period, x, y, pool)
    ensures Reached(p.up, p.depth, b, {}, {b})
  {
    var which := {b} * p.limited;
    assert which == if b in p.limited then {b} else {};
    assert {b} * p.peers == if b in p.peers then {b} else {};
    assert Peak(p.up, p.depth, p.priority, b, b, least) == Max(least, p.priority[b]);
  }

  lemma HandingOutKeepsBudget(p: Plan, reach: set<nat>, b: nat, least: int, period: nat, x: Books, y: Books, pool: seq<nat>)
    requires p.Ok() && HandedOut(p, reach, b, least, period, x, y, pool)
    requires InBudget(p.limited, x.shared, x.share, x.spent, x.left)
    ensures InBudget(p.limited, y.shared, y.share, y.spent, y.left)
  {
  }

  // ---------- a new bandwidth ----------

  lemma Added(up: Links, depth: seq<nat>, children: seq<set<nat>>)
    requires IsForest(up, depth) && Linked(up, children)
    ensures IsForest(up + [None], depth + [0]) && Linked(up + [None], children + [{}])
    ensures forall deepest: nat :: IsDeepest(depth, deepest) ==> IsDeepest(depth + [0], deepest)
    ensures forall c: nat :: !IsChild(up + [None], |up|, c)
  {
    var up', children' := up + [None], children + [{}];
    forall b: nat, c: nat | b < |up'|
      ensures c in children'[b] <==> IsChild(up', b, c)
    {
      if b < |up| {
        assert c in children[b] <==> IsChild(up, b, c);
      }
    }
  }

  lemma BudgetAdded(limited: set<nat>, shared: set<nat>, share: seq<nat>, spent: seq<nat>, left: seq<nat>)
    requires InBudget(limited, shared, share, spent, left)
    ensures InBudget(limited - {|left|}, shared, share + [0], spent + [0], left + [0])
  {
  }

  lemma {:induction false} NotAboveOthers(up: Links, depth: seq<nat>, x: nat, b: nat)
    requires IsForest(up, depth) && x < |up| && b < |up| && forall c: nat :: !IsChild(up, b, c)
    ensures Above(up, depth, x, b) <==> x == b
    decreases depth[x]
  {
    if x != b && up[x].Some? {
      assert !IsChild(up, b, x);
      NotAboveOthers(up, depth, up[x].value, b);
    }
  }
}
