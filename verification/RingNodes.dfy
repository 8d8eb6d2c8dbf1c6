/** The consistent-hash ring by its virtual nodes: how many each backend has, and that a pick goes to the nearest. */
module RingNodes {
  import opened Options
  import opened Candidates
  import opened HashRing

  /** How many virtual nodes a backend has. */
  function Nodes(m: Member): nat {
    Capped(m.weight, MAX_WEIGHT) * VIRTUAL_NODES_PER_WEIGHT_UNIT
  }

  /** The v-th virtual node of the i-th backend. */
  predicate IsNode(members: seq<Member>, i: nat, v: nat) {
    i < |members| && v < Nodes(members[i])
  }

  function NodeAt(members: seq<Member>, hash: (string, nat) -> nat, i: nat, v: nat): Point
    requires IsNode(members, i, v)
  {
    Point(hash(members[i].id, v), members[i].id)
  }

  // ---- How many points there are ----

  function Hits(hash: (string, nat) -> nat, id: string, n: nat, p: Point): set<nat> {
    set v: nat | v < n && Point(hash(id, v), id) == p
  }

  /** The virtual nodes that fall on a point. */
  function NodesOn(members: seq<Member>, hash: (string, nat) -> nat, p: Point): set<(nat, nat)> {
    set i: nat, v: nat | i < |members| && v < Nodes(members[i]) && Point(hash(members[i].id, v), members[i].id) == p
      :: (i, v)
  }

  lemma CountJoined(a: seq<Point>, b: seq<Point>, p: Point)
    ensures multiset(a + b)[p] == multiset(a)[p] + multiset(b)[p]
  {
  }

  lemma HitsStep(hash: (string, nat) -> nat, id: string, n: nat, p: Point)
    ensures |Hits(hash, id, n + 1, p)| == |Hits(hash, id, n, p)| + if Point(hash(id, n), id) == p then 1 else 0
  {
    if Point(hash(id, n), id) == p {
      assert Hits(hash, id, n + 1, p) == Hits(hash, id, n, p) + {n};
    } else {
      assert Hits(hash, id, n + 1, p) == Hits(hash, id, n, p);
    }
  }

  lemma CountLast(a: seq<Point>, x: Point, p: Point)
    ensures multiset(a + [x])[p] == multiset(a)[p] + if x == p then 1 else 0
  {
    CountJoined(a, [x], p);
    assert multiset([x]) == multiset{x};
  }

  lemma {:induction false} NodeCount(hash: (string, nat) -> nat, id: string, n: nat, p: Point)
    ensures multiset(NodePoints(hash, id, n))[p] == |Hits(hash, id, n, p)|
  {
    if n != 0 {
      NodeCount(hash, id, n - 1, p);
      CountLast(NodePoints(hash, id, n - 1), Point(hash(id, n - 1), id), p);
      HitsStep(hash, id, n - 1, p);
    }
  }

  function Paired(i: nat, vs: set<nat>): set<(nat, nat)> {
    set v | v in vs :: (i, v)
  }

  lemma {:induction false} PairedSize(i: nat, vs: set<nat>)
    ensures |Paired(i, vs)| == |vs|
    decreases |vs|
  {
    if vs != {} {
      var v :| v in vs;
      PairedSize(i, vs - {v});
      assert Paired(i, vs) == Paired(i, vs - {v}) + {(i, v)};
    }
  }

  lemma InPaired(i: nat, vs: set<nat>, j: nat, v: nat)
    ensures (j, v) in Paired(i, vs) <==> j == i && v in vs
  {
  }

  lemma OnPoint(members: seq<Member>, hash: (string, nat) -> nat, p: Point, i: nat, v: nat)
    ensures (i, v) in NodesOn(members, hash, p) <==>
            i < |members| && v in Hits(hash, members[i].id, Nodes(members[i]), p)
  {
  }

  lemma NodesOnSnoc(members: seq<Member>, hash: (string, nat) -> nat, p: Point)
    requires members != []
    ensures var init, last := members[..|members| - 1], members[|members| - 1];
            |NodesOn(members, hash, p)| == |NodesOn(init, hash, p)| + |Hits(hash, last.id, Nodes(last), p)|
  {
    var init, last := members[..|members| - 1], members[|members| - 1];
    var hits := Hits(hash, last.id, Nodes(last), p);
    var all, some, more := NodesOn(members, hash, p), NodesOn(init, hash, p), Paired(|init|, hits);
    PairedSize(|init|, hits);
    forall x: (nat, nat) ensures x in all <==> x in some + more {
      OnPoint(members, hash, p, x.0, x.1);
      OnPoint(init, hash, p, x.0, x.1);
      InPaired(|init|, hits, x.0, x.1);
    }
    assert all == some + more;
    assert some !! more;
  }

  lemma {:induction false} PointCount(members: seq<Member>, hash: (string, nat) -> nat, p: Point)
    ensures multiset(Points(members, hash))[p] == |NodesOn(members, hash, p)|
  {
    if members != [] {
      var init, last := members[..|members| - 1], members[|members| - 1];
      PointCount(init, hash, p);
      NodeCount(hash, last.id, Nodes(last), p);
      NodesOnSnoc(members, hash, p);
      CountJoined(Points(init, hash), NodePoints(hash, last.id, Nodes(last)), p);
    }
  }

  /** The ring holds each point once for every virtual node that falls on it: ten per unit of capped weight. */
  lemma RingHoldsNodes(members: seq<Member>, hash: (string, nat) -> nat, p: Point)
    ensures multiset(Ring(members, hash))[p] == |NodesOn(members, hash, p)|
  {
    PointCount(members, hash, p);
    SortKeepsPoints(Points(members, hash));
  }

  lemma OnRing(members: seq<Member>, hash: (string, nat) -> nat, p: Point)
    ensures p in Ring(members, hash) <==>
            exists i: nat, v: nat :: IsNode(members, i, v) && NodeAt(members, hash, i, v) == p
  {
    RingHoldsNodes(members, hash, p);
    assert p in Ring(members, hash) <==> NodesOn(members, hash, p) != {};
    if p in Ring(members, hash) {
      var pair :| pair in NodesOn(members, hash, p);
      assert IsNode(members, pair.0, pair.1) && NodeAt(members, hash, pair.0, pair.1) == p;
    }
    if i: nat, v: nat :| IsNode(members, i, v) && NodeAt(members, hash, i, v) == p {
      assert (i, v) in NodesOn(members, hash, p);
    }
  }

  // ---- The nearest node ----

  /** Going up from the target and round, a comes strictly before b. */
  predicate Nearer(target: nat, a: nat, b: nat) {
    if target <= a then b < target || a < b else b < target && a < b
  }

  lemma DirectIsNearest(ring: seq<Point>, target: nat)
    requires Sorted(ring) && ring != []
    ensures exists p :: p in ring && Direct(ring, target) == Some(p.id)
                        && forall q :: q in ring ==> !Nearer(target, q.hash, p.hash)
  {
    LowerSplits(ring, target);
    var low := Lower(ring, target);
    var at := if low == |ring| then 0 else low;
    DirectAt(ring, target, low);
    assert ring[at] in ring;
    forall q | q in ring ensures !Nearer(target, q.hash, ring[at].hash) {
      var k :| 0 <= k < |ring| && ring[k] == q;
    }
  }

  /** Its node is nobody's to beat: no acceptable backend has a virtual node nearer to the target. */
  ghost predicate Nearest(members: seq<Member>, hash: (string, nat) -> nat, target: nat, accept: string -> bool,
                          i: nat, v: nat)
  {
    && IsNode(members, i, v) && accept(members[i].id)
    && forall j: nat, u: nat :: IsNode(members, j, u) && accept(members[j].id) ==>
         !Nearer(target, NodeAt(members, hash, j, u).hash, NodeAt(members, hash, i, v).hash)
  }

  lemma KeptNodes(members: seq<Member>, hash: (string, nat) -> nat, accept: string -> bool, q: Point)
    ensures q in Filter(Accepted(accept), Ring(members, hash)) <==>
            exists i: nat, v: nat :: IsNode(members, i, v) && accept(members[i].id) && NodeAt(members, hash, i, v) == q
  {
    FilterKeeps(Accepted(accept), Ring(members, hash));
    OnRing(members, hash, q);
  }

  /** A pick answers the owner of the acceptable virtual node nearest to the key's hash, going up and round. */
  lemma AnswerIsNearest(members: seq<Member>, hash: (string, nat) -> nat, target: nat, accept: string -> bool)
    ensures var r := Answer(Ring(members, hash), target, accept);
            r.Some? ==>
              exists i: nat, v: nat :: Nearest(members, hash, target, accept, i, v) && members[i].id == r.value
  {
    var ring := Ring(members, hash);
    var kept := Filter(Accepted(accept), ring);
    if Answer(ring, target, accept).Some? {
      SortSorted(Points(members, hash));
      WalkRefinesFiltered(ring, target, accept);
      FilterSort(Accepted(accept), Points(members, hash));
      SortSorted(Filter(Accepted(accept), Points(members, hash)));
      DirectIsNearest(kept, target);
      var p :| p in kept && Direct(kept, target) == Some(p.id)
               && forall q :: q in kept ==> !Nearer(target, q.hash, p.hash);
      KeptNodes(members, hash, accept, p);
      var i: nat, v: nat :| IsNode(members, i, v) && accept(members[i].id) && NodeAt(members, hash, i, v) == p;
      forall j: nat, u: nat | IsNode(members, j, u) && accept(members[j].id)
        ensures !Nearer(target, NodeAt(members, hash, j, u).hash, p.hash)
      {
        KeptNodes(members, hash, accept, NodeAt(members, hash, j, u));
      }
      assert Nearest(members, hash, target, accept, i, v);
    }
  }
}
