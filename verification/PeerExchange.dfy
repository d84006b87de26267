/** Telling a peer about other peers, by what has changed since it was told last (peer-msgs.c). */
module PeerExchange {

  const MAX_PEX_ADDED := 50
  const MAX_PEX_DROPPED := 50
  const MAX_PEX_PEER_COUNT := 50

  datatype Endpoint = Endpoint(addr: nat, port: nat)

  /** tr_pex; the flags do not count when entries are compared */
  datatype Pex = Pex(at: Endpoint, flags: nat)

  /** tr_pexCompare */
  function Compare(a: Pex, b: Pex): int {
    if a.at.addr != b.at.addr then a.at.addr - b.at.addr
    else if a.at.port < b.at.port then -1
    else if a.at.port > b.at.port then 1
    else 0
  }

  predicate Sorted(s: seq<Pex>) {
    forall i, j :: 0 <= i < j < |s| ==> Compare(s[i], s[j]) < 0
  }

  function Endpoints(s: seq<Pex>): set<Endpoint> {
    set k | 0 <= k < |s| :: s[k].at
  }

  lemma EndpointsPush(s: seq<Pex>, p: Pex)
    ensures Endpoints(s + [p]) == Endpoints(s) + {p.at}
  {
    var t := s + [p];
    forall e
      ensures e in Endpoints(t) <==> e in Endpoints(s) + {p.at}
    {
      if e in Endpoints(s) {
        var k :| 0 <= k < |s| && s[k].at == e;
        assert t[k].at == e;
      }
      if e == p.at {
        assert t[|s|].at == e;
      }
    }
  }

  lemma EndpointsStep(s: seq<Pex>, i: nat)
    requires i < |s|
    ensures Endpoints(s[..i + 1]) == Endpoints(s[..i]) + {s[i].at}
  {
    assert s[..i + 1] == s[..i] + [s[i]];
    EndpointsPush(s[..i], s[i]);
  }

  datatype Diffs = Diffs(added: seq<Pex>, dropped: seq<Pex>, elements: seq<Pex>)

  /** Up to i and j, the two sequences have been compared: everything before is less than everything after. */
  ghost predicate Frontier(a: seq<Pex>, i: nat, b: seq<Pex>, j: nat) {
    i <= |a| && j <= |b| && Sorted(a) && Sorted(b) &&
    (forall p, q :: 0 <= p < i && j <= q < |b| ==> Compare(a[p], b[q]) < 0) &&
    (forall p, q :: i <= p < |a| && 0 <= q < j ==> Compare(b[q], a[p]) < 0)
  }

  /** What the callbacks have made of the part that has been compared */
  ghost predicate DiffsOf(d: Diffs, a: seq<Pex>, b: seq<Pex>) {
    Endpoints(d.added) == Endpoints(b) - Endpoints(a) &&
    Endpoints(d.dropped) == Endpoints(a) - Endpoints(b) &&
    Endpoints(d.elements) == Endpoints(b) &&
    |d.added| <= |b| && |d.dropped| <= |a| && |d.elements| == |b| &&
    (forall k :: 0 <= k < |b| ==> d.elements[k].at == b[k].at)
  }

  lemma FarFrontier(a: seq<Pex>, i: nat, b: seq<Pex>, j: nat)
    requires Frontier(a, i, b, j)
    ensures i < |a| && (j == |b| || Compare(a[i], b[j]) < 0) ==> a[i].at !in Endpoints(b) && Frontier(a, i + 1, b, j)
    ensures j < |b| && (i == |a| || Compare(a[i], b[j]) > 0) ==> b[j].at !in Endpoints(a) && Frontier(a, i, b, j + 1)
    ensures i < |a| && j < |b| && Compare(a[i], b[j]) == 0 ==> a[i].at == b[j].at && Frontier(a, i + 1, b, j + 1)
  {
    if i < |a| && (j == |b| || Compare(a[i], b[j]) < 0) {
      forall q | 0 <= q < |b|
        ensures b[q].at != a[i].at && (j <= q ==> Compare(a[i], b[q]) < 0)
      {
        assert j < q ==> Compare(b[j], b[q]) < 0;
        assert q < j ==> Compare(b[q], a[i]) < 0;
      }
    }
    if j < |b| && (i == |a| || Compare(a[i], b[j]) > 0) {
      forall p | 0 <= p < |a|
        ensures a[p].at != b[j].at && (i <= p ==> Compare(b[j], a[p]) < 0)
      {
        assert i < p ==> Compare(a[i], a[p]) < 0;
        assert p < i ==> Compare(a[p], b[j]) < 0;
      }
    }
  }

  /** Where the entries of the part that has been compared come from: added ones are the new entries and dropped ones the old
      ones, each once and in order; of an endpoint that is in both, the list for next time keeps the old entry. */
  ghost predicate TakenFrom(d: Diffs, a: seq<Pex>, i: nat, b: seq<Pex>, j: nat)
    requires i <= |a| && j <= |b|
  {
    Sorted(d.added) && (forall p :: p in d.added ==> p in b[..j]) &&
    Sorted(d.dropped) && (forall p :: p in d.dropped ==> p in a[..i]) &&
    |d.elements| == j && forall k :: 0 <= k < j ==> IsKept(a, b[k], d.elements[k])
  }

  ghost predicate IsKept(a: seq<Pex>, p: Pex, kept: Pex) {
    kept.at == p.at && if p.at in Endpoints(a) then kept in a else kept == p
  }

  lemma PushSorted(s: seq<Pex>, from: seq<Pex>, k: nat)
    requires Sorted(s) && Sorted(from) && k < |from| && forall p :: p in s ==> p in from[..k]
    ensures Sorted(s + [from[k]]) && forall p :: p in s + [from[k]] ==> p in from[..k + 1]
  {
    forall i | 0 <= i < |s| ensures Compare(s[i], from[k]) < 0 {
      assert s[i] in from[..k];
    }
    assert from[..k + 1] == from[..k] + [from[k]];
  }

  lemma DroppedFrom(d: Diffs, a: seq<Pex>, i: nat, b: seq<Pex>, j: nat)
    requires i < |a| && j <= |b| && Sorted(a) && TakenFrom(d, a, i, b, j)
    ensures TakenFrom(d.(dropped := d.dropped + [a[i]]), a, i + 1, b, j)
  {
    PushSorted(d.dropped, a, i);
  }

  lemma AddedFrom(d: Diffs, a: seq<Pex>, i: nat, b: seq<Pex>, j: nat)
    requires i <= |a| && j < |b| && Sorted(b) && TakenFrom(d, a, i, b, j) && b[j].at !in Endpoints(a)
    ensures TakenFrom(d.(added := d.added + [b[j]], elements := d.elements + [b[j]]), a, i, b, j + 1)
  {
    PushSorted(d.added, b, j);
  }

  lemma KeptFrom(d: Diffs, a: seq<Pex>, i: nat, b: seq<Pex>, j: nat)
    requires i < |a| && j < |b| && TakenFrom(d, a, i, b, j) && a[i].at == b[j].at
    ensures TakenFrom(d.(elements := d.elements + [a[i]]), a, i + 1, b, j + 1)
  {
    assert a[i] in a && a[i].at in Endpoints(a);
    assert a[..i + 1] == a[..i] + [a[i]] && b[..j + 1] == b[..j] + [b[j]];
  }

  /** The callbacks of tr_set_compare, with their caps */
  method PexDropped(d: Diffs, p: Pex) returns (r: Diffs)
    ensures r == if |d.dropped| < MAX_PEX_DROPPED then d.(dropped := d.dropped + [p]) else d
  {
    r := d;
    if |r.dropped| < MAX_PEX_DROPPED {
      r := r.(dropped := r.dropped + [p]);
    }
  }

  method PexAdded(d: Diffs, p: Pex) returns (r: Diffs)
    ensures r == if |d.added| < MAX_PEX_ADDED then d.(added := d.added + [p], elements := d.elements + [p]) else d
  {
    r := d;
    if |r.added| < MAX_PEX_ADDED {
      r := r.(added := r.added + [p]);
      r := r.(elements := r.elements + [p]);
    }
  }

  lemma DroppedOne(d: Diffs, a: seq<Pex>, i: nat, b: seq<Pex>, j: nat)
    requires Frontier(a, i, b, j) && i < |a| && DiffsOf(d, a[..i], b[..j]) && a[i].at !in Endpoints(b)
    ensures DiffsOf(d.(dropped := d.dropped + [a[i]]), a[..i + 1], b[..j])
  {
    EndpointsStep(a, i);
    EndpointsPush(d.dropped, a[i]);
    assert Endpoints(b[..j]) <= Endpoints(b);
  }

  lemma AddedOne(d: Diffs, a: seq<Pex>, i: nat, b: seq<Pex>, j: nat)
    requires Frontier(a, i, b, j) && j < |b| && DiffsOf(d, a[..i], b[..j]) && b[j].at !in Endpoints(a)
    ensures DiffsOf(d.(added := d.added + [b[j]], elements := d.elements + [b[j]]), a[..i], b[..j + 1])
  {
    EndpointsStep(b, j);
    EndpointsPush(d.added, b[j]);
    EndpointsPush(d.elements, b[j]);
    assert Endpoints(a[..i]) <= Endpoints(a);
  }

  lemma KeptOne(d: Diffs, a: seq<Pex>, i: nat, b: seq<Pex>, j: nat)
    requires Frontier(a, i, b, j) && i < |a| && j < |b| && DiffsOf(d, a[..i], b[..j]) && a[i].at == b[j].at
    ensures DiffsOf(d.(elements := d.elements + [a[i]]), a[..i + 1], b[..j + 1])
  {
    EndpointsStep(a, i);
    EndpointsStep(b, j);
    EndpointsPush(d.elements, a[i]);
    NotYet(a, i);
    NotYet(b, j);
  }

  lemma NotYet(s: seq<Pex>, i: nat)
    requires Sorted(s) && i < |s|
    ensures s[i].at !in Endpoints(s[..i])
  {
    forall k | 0 <= k < i
      ensures s[k].at != s[i].at
    {
      assert Compare(s[k], s[i]) < 0;
    }
  }

  /** tr_set_compare from the last snapshot a to the new one b, with the callbacks of sendPex: with snapshots of at
      most 50 peers the caps never take effect, and the list kept for next time is sorted like the new snapshot. */
  method SetCompare(a: seq<Pex>, b: seq<Pex>) returns (d: Diffs)
    requires Sorted(a) && Sorted(b) && |a| <= MAX_PEX_PEER_COUNT && |b| <= MAX_PEX_PEER_COUNT
    ensures DiffsOf(d, a, b) && Sorted(d.elements) && TakenFrom(d, a, |a|, b, |b|)
  {
    d := Diffs([], [], []);
    var i: nat, j: nat := 0, 0;
    while i < |a| || j < |b|
      invariant Frontier(a, i, b, j) && DiffsOf(d, a[..i], b[..j]) && TakenFrom(d, a, i, b, j)
      decreases |a| - i + |b| - j
    {
      FarFrontier(a, i, b, j);
      if i == |a| {
        AddedOne(d, a, i, b, j);
        AddedFrom(d, a, i, b, j);
        d := PexAdded(d, b[j]);
        j := j + 1;
      } else if j == |b| {
        DroppedOne(d, a, i, b, j);
        DroppedFrom(d, a, i, b, j);
        d := PexDropped(d, a[i]);
        i := i + 1;
      } else {
        var val := Compare(a[i], b[j]);
        if val == 0 {
          KeptOne(d, a, i, b, j);
          KeptFrom(d, a, i, b, j);
          d := d.(elements := d.elements + [a[i]]);
          i, j := i + 1, j + 1;
        } else if val < 0 {
          DroppedOne(d, a, i, b, j);
          DroppedFrom(d, a, i, b, j);
          d := PexDropped(d, a[i]);
          i := i + 1;
        } else {
          AddedOne(d, a, i, b, j);
          AddedFrom(d, a, i, b, j);
          d := PexAdded(d, b[j]);
          j := j + 1;
        }
      }
    }
    assert a[..i] == a && b[..j] == b;
  }

  /** What a peer that knows the endpoints in known makes of a delta */
  function Apply(known: set<Endpoint>, d: Diffs): set<Endpoint> {
    known - Endpoints(d.dropped) + Endpoints(d.added)
  }

  lemma NoDiffs(d: Diffs, a: seq<Pex>, b: seq<Pex>)
    requires DiffsOf(d, a, b)
    ensures Apply(Endpoints(a), d) == Endpoints(b)
    ensures d.added == [] && d.dropped == [] ==> Endpoints(a) == Endpoints(b)
  {
  }

  /** One side of a connection, for both address families; known and known6 are what a peer has been told that
      applies every message it gets. */
  class PexSender {
    var pex: seq<Pex>
    var pex6: seq<Pex>
    ghost var known: set<Endpoint>
    ghost var known6: set<Endpoint>

    ghost predicate Valid()
      reads this
    {
      Sorted(pex) && Sorted(pex6) && |pex| <= MAX_PEX_PEER_COUNT && |pex6| <= MAX_PEX_PEER_COUNT &&
      known == Endpoints(pex) && known6 == Endpoints(pex6)
    }

    constructor ()
      ensures Valid() && known == {} && known6 == {}
    {
      pex, pex6, known, known6 := [], [], {}, {};
    }

    /** sendPex: a message goes out when anything has changed */
    method SendPex(newPex: seq<Pex>, newPex6: seq<Pex>) returns (sent: bool)
      requires Valid() && Sorted(newPex) && |newPex| <= MAX_PEX_PEER_COUNT
      requires Sorted(newPex6) && |newPex6| <= MAX_PEX_PEER_COUNT
      modifies this
      ensures Valid() && known == Endpoints(newPex) && known6 == Endpoints(newPex6)
      ensures sent <==> old(known) != known || old(known6) != known6
    {
      var diffs := SetCompare(pex, newPex);
      var diffs6 := SetCompare(pex6, newPex6);
      NoDiffs(diffs, pex, newPex);
      NoDiffs(diffs6, pex6, newPex6);
      sent := diffs.added != [] || diffs.dropped != [] || diffs6.added != [] || diffs6.dropped != [];
      Changed(diffs);
      Changed(diffs6);
      if sent {
        pex := diffs.elements;
        pex6 := diffs6.elements;
        known := Apply(known, diffs);
        known6 := Apply(known6, diffs6);
      }
    }
  }

  lemma Changed(d: Diffs)
    ensures d.added != [] ==> d.added[0].at in Endpoints(d.added)
    ensures d.dropped != [] ==> d.dropped[0].at in Endpoints(d.dropped)
  {
  }
}
