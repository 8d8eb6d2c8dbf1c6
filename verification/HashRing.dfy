/** The consistent-hash ring. The ring is built from every backend; a pick walks it and skips points whose
    backend is unacceptable. That is the same as picking, with no skipping, on a ring built from the
    acceptable backends alone. */
module HashRing {
  import opened Options
  import opened Candidates

  const VIRTUAL_NODES_PER_WEIGHT_UNIT: nat := 10
  const MAX_WEIGHT: nat := 100

  datatype Point = Point(hash: nat, id: string)

  // ---- Stable sorting by hash ----

  ghost predicate Sorted(s: seq<Point>) {
    forall i, j :: 0 <= i < j < |s| ==> s[i].hash <= s[j].hash
  }

  /** Puts p after everything that does not sort behind it. */
  function Insert(p: Point, s: seq<Point>): seq<Point> {
    if s == [] || s[|s| - 1].hash <= p.hash then s + [p]
    else Insert(p, s[..|s| - 1]) + [s[|s| - 1]]
  }

  /** The stable sort by hash that `sort_by_key` performs. */
  function Sort(s: seq<Point>): seq<Point> {
    if s == [] then [] else Insert(s[|s| - 1], Sort(s[..|s| - 1]))
  }

  function Filter(f: Point -> bool, s: seq<Point>): seq<Point> {
    if s == [] then []
    else
      var init, last := s[..|s| - 1], s[|s| - 1];
      if f(last) then Filter(f, init) + [last] else Filter(f, init)
  }

  lemma FilterSnoc(f: Point -> bool, s: seq<Point>, p: Point)
    ensures Filter(f, s + [p]) == if f(p) then Filter(f, s) + [p] else Filter(f, s)
  {
    assert (s + [p])[..|s|] == s;
  }

  lemma InsertSnoc(p: Point, s: seq<Point>, last: Point)
    requires p.hash < last.hash
    ensures Insert(p, s + [last]) == Insert(p, s) + [last]
  {
    assert (s + [last])[..|s|] == s;
  }

  lemma SortSnoc(s: seq<Point>, p: Point)
    ensures Sort(s + [p]) == Insert(p, Sort(s))
  {
    assert (s + [p])[..|s|] == s;
  }

  lemma {:induction false} InsertSorted(p: Point, s: seq<Point>)
    requires Sorted(s)
    ensures Sorted(Insert(p, s))
    ensures forall x :: x in Insert(p, s) <==> x in s || x == p
  {
    if s != [] && p.hash < s[|s| - 1].hash {
      var init, last := s[..|s| - 1], s[|s| - 1];
      InsertSorted(p, init);
      assert s == init + [last];
      var q := Insert(p, init);
      forall i | 0 <= i < |q| ensures q[i].hash <= last.hash {
        assert q[i] in q;
      }
    }
  }

  lemma {:induction false} SortSorted(s: seq<Point>)
    ensures Sorted(Sort(s))
  {
    if s != [] {
      SortSorted(s[..|s| - 1]);
      InsertSorted(s[|s| - 1], Sort(s[..|s| - 1]));
    }
  }

  lemma {:induction false} FilterKeeps(f: Point -> bool, s: seq<Point>)
    ensures forall x :: x in Filter(f, s) <==> x in s && f(x)
    ensures |Filter(f, s)| <= |s|
  {
    if s != [] {
      FilterKeeps(f, s[..|s| - 1]);
      assert s == s[..|s| - 1] + [s[|s| - 1]];
    }
  }

  lemma {:induction false} FilterAppend(f: Point -> bool, a: seq<Point>, b: seq<Point>)
    ensures Filter(f, a + b) == Filter(f, a) + Filter(f, b)
  {
    if b == [] {
      assert a + b == a;
    } else {
      var init, last := b[..|b| - 1], b[|b| - 1];
      assert (a + b)[..|a + b| - 1] == a + init;
      FilterAppend(f, a, init);
    }
  }

  lemma FilterLastBelow(f: Point -> bool, s: seq<Point>, bound: nat)
    requires forall p :: p in s ==> p.hash <= bound
    ensures Filter(f, s) == [] || Filter(f, s)[|Filter(f, s)| - 1].hash <= bound
  {
    FilterKeeps(f, s);
    var kept := Filter(f, s);
    if kept != [] {
      assert kept[|kept| - 1] in kept;
    }
  }

  lemma {:induction false} FilterInsert(f: Point -> bool, p: Point, s: seq<Point>)
    requires Sorted(s)
    ensures Filter(f, Insert(p, s)) == if f(p) then Insert(p, Filter(f, s)) else Filter(f, s)
  {
    if s == [] || s[|s| - 1].hash <= p.hash {
      FilterSnoc(f, s, p);
      FilterLastBelow(f, s, p.hash);
    } else {
      var init, last := s[..|s| - 1], s[|s| - 1];
      assert s == init + [last];
      FilterInsert(f, p, init);
      FilterSnoc(f, Insert(p, init), last);
      FilterSnoc(f, init, last);
      if f(last) {
        InsertSnoc(p, Filter(f, init), last);
      }
    }
  }

  /** Dropping points before sorting or after comes to the same thing, ties included. */
  lemma {:induction false} FilterSort(f: Point -> bool, s: seq<Point>)
    ensures Filter(f, Sort(s)) == Sort(Filter(f, s))
  {
    if s != [] {
      var init, last := s[..|s| - 1], s[|s| - 1];
      FilterSort(f, init);
      SortSorted(init);
      FilterInsert(f, last, Sort(init));
      if f(last) {
        SortSnoc(Filter(f, init), last);
      }
    }
  }

  function SameHash(h: nat): Point -> bool {
    (p: Point) => p.hash == h
  }

  lemma {:induction false} SortKeepsOrderAt(s: seq<Point>, h: nat)
    requires forall i :: 0 <= i < |s| ==> s[i].hash == h
    ensures Sort(s) == s
  {
    if s != [] {
      SortKeepsOrderAt(s[..|s| - 1], h);
    }
  }

  lemma {:induction false} InsertKeepsPoints(p: Point, s: seq<Point>)
    ensures multiset(Insert(p, s)) == multiset(s) + multiset{p}
  {
    if s != [] && p.hash < s[|s| - 1].hash {
      var init, last := s[..|s| - 1], s[|s| - 1];
      InsertKeepsPoints(p, init);
      assert s == init + [last];
    }
  }

  lemma {:induction false} SortKeepsPoints(s: seq<Point>)
    ensures multiset(Sort(s)) == multiset(s)
  {
    if s != [] {
      var init, last := s[..|s| - 1], s[|s| - 1];
      SortKeepsPoints(init);
      InsertKeepsPoints(last, Sort(init));
      assert multiset(s) == multiset(init) + multiset{last} by {
        assert s == init + [last];
      }
    }
  }

  /** The sort is by hash, keeps every point, and is stable: points with equal hashes stay in the order they were
      pushed. */
  lemma SortStable(s: seq<Point>, h: nat)
    ensures Sorted(Sort(s)) && multiset(Sort(s)) == multiset(s)
    ensures Filter(SameHash(h), Sort(s)) == Filter(SameHash(h), s)
  {
    SortSorted(s);
    SortKeepsPoints(s);
    FilterSort(SameHash(h), s);
    FilterKeeps(SameHash(h), s);
    var same := Filter(SameHash(h), s);
    forall i | 0 <= i < |same| ensures same[i].hash == h {
      assert same[i] in same;
    }
    SortKeepsOrderAt(same, h);
  }

  // ---- The ring ----

  /** The first n virtual nodes of one backend. */
  function NodePoints(hash: (string, nat) -> nat, id: string, n: nat): seq<Point> {
    if n == 0 then [] else NodePoints(hash, id, n - 1) + [Point(hash(id, n - 1), id)]
  }

  function Points(members: seq<Member>, hash: (string, nat) -> nat): seq<Point> {
    if members == [] then []
    else
      var last := members[|members| - 1];
      var nodes := Capped(last.weight, MAX_WEIGHT) * VIRTUAL_NODES_PER_WEIGHT_UNIT;
      Points(members[..|members| - 1], hash) + NodePoints(hash, last.id, nodes)
  }

  function Ring(members: seq<Member>, hash: (string, nat) -> nat): seq<Point> {
    Sort(Points(members, hash))
  }

  /** Hashes and sorts every backend's virtual nodes. */
  method BuildRing(members: seq<Member>, hash: (string, nat) -> nat) returns (ring: seq<Point>)
    ensures ring == Ring(members, hash)
  {
    var points: seq<Point> := [];
    for k := 0 to |members|
      invariant points == Points(members[..k], hash)
    {
      assert members[..k + 1][..k] == members[..k];
      ghost var before := points;
      var n := Capped(members[k].weight, MAX_WEIGHT) * VIRTUAL_NODES_PER_WEIGHT_UNIT;
      for v := 0 to n
        invariant points == before + NodePoints(hash, members[k].id, v)
      {
        points := points + [Point(hash(members[k].id, v), members[k].id)];
      }
    }
    assert members[..|members|] == members;
    ring := Sort(points);
  }

  // ---- Picking ----

  /** How many points, from the front, lie below the target. */
  function Lower(s: seq<Point>, target: nat): nat {
    if s == [] || target <= s[0].hash then 0 else 1 + Lower(s[1..], target)
  }

  function Walk(ring: seq<Point>, accept: string -> bool, start: nat, offset: nat): Option<string>
    requires ring != []
    decreases |ring| - offset
  {
    if |ring| <= offset then None
    else if accept(ring[(start + offset) % |ring|].id) then Some(ring[(start + offset) % |ring|].id)
    else Walk(ring, accept, start, offset + 1)
  }

  /** Picking on a ring with no skipping. */
  function Direct(ring: seq<Point>, target: nat): Option<string> {
    if ring == [] then None else Some(ring[Lower(ring, target) % |ring|].id)
  }

  /** Walking from the target's place. */
  function Answer(ring: seq<Point>, target: nat, accept: string -> bool): Option<string> {
    if ring == [] then None else Walk(ring, accept, Lower(ring, target) % |ring|, 0)
  }

  method PickExcluding(ring: seq<Point>, target: nat, accept: string -> bool) returns (r: Option<string>)
    ensures r == Answer(ring, target, accept)
  {
    var len := |ring|;
    if len == 0 {
      return None;
    }
    var start := Lower(ring, target) % len;
    for offset := 0 to len
      invariant Walk(ring, accept, start, 0) == Walk(ring, accept, start, offset)
    {
      var id := ring[(start + offset) % len].id;
      if accept(id) {
        return Some(id);
      }
    }
    return None;
  }

  function First(accept: string -> bool, s: seq<Point>): Option<string> {
    if s == [] then None else if accept(s[0].id) then Some(s[0].id) else First(accept, s[1..])
  }

  lemma {:induction false} WalkIsFirst(ring: seq<Point>, accept: string -> bool, start: nat, offset: nat)
    requires start < |ring| && offset <= |ring|
    ensures Walk(ring, accept, start, offset) == First(accept, (ring[start..] + ring[..start])[offset..])
    decreases |ring| - offset
  {
    var turned := ring[start..] + ring[..start];
    if offset < |ring| {
      WalkIsFirst(ring, accept, start, offset + 1);
      assert turned[offset..][1..] == turned[offset + 1..];
      Turned(ring, start, offset);
    }
  }

  lemma Turned(ring: seq<Point>, start: nat, offset: nat)
    requires start < |ring| && offset < |ring|
    ensures (ring[start..] + ring[..start])[offset] == ring[(start + offset) % |ring|]
  {
    WithinOneTurn(start + offset, |ring|);
  }

  lemma WithinOneTurn(x: nat, len: nat)
    requires x < 2 * len
    ensures x % len == if x < len then x else x - len
  {
  }

  function Accepted(accept: string -> bool): Point -> bool {
    (p: Point) => accept(p.id)
  }

  /** The first acceptable point heads the acceptable points. */
  lemma {:induction false} FirstIsHead(accept: string -> bool, s: seq<Point>)
    ensures var kept := Filter(Accepted(accept), s);
            First(accept, s) == if kept == [] then None else Some(kept[0].id)
  {
    if s != [] {
      FirstIsHead(accept, s[1..]);
      assert s == [s[0]] + s[1..];
      FilterAppend(Accepted(accept), [s[0]], s[1..]);
      assert Filter(Accepted(accept), [s[0]]) == if accept(s[0].id) then [s[0]] else [] by {
        assert [s[0]][..0] == [];
      }
    }
  }

  lemma {:induction false} LowerSplits(s: seq<Point>, target: nat)
    requires Sorted(s)
    ensures Lower(s, target) <= |s|
    ensures forall i :: 0 <= i < |s| ==> (s[i].hash < target <==> i < Lower(s, target))
  {
    if s != [] && s[0].hash < target {
      LowerSplits(s[1..], target);
      forall i | 0 < i < |s| ensures s[i].hash < target <==> i < Lower(s, target) {
        assert s[i] == s[1..][i - 1];
      }
    }
  }

  lemma {:induction false} LowerIs(s: seq<Point>, target: nat, n: nat)
    requires n <= |s|
    requires forall i :: 0 <= i < n ==> s[i].hash < target
    requires n < |s| ==> target <= s[n].hash
    ensures Lower(s, target) == n
  {
    if n != 0 {
      LowerIs(s[1..], target, n - 1);
    }
  }

  /** Turning the ring to the target's place puts the points from the target on in front. */
  lemma TurnedAtTarget(ring: seq<Point>, low: nat)
    requires low <= |ring| && ring != []
    ensures var start := low % |ring|;
            ring[start..] + ring[..start] == ring[low..] + ring[..low]
  {
    WithinOneTurn(low, |ring|);
  }

  lemma LowerOnSplit(below: seq<Point>, above: seq<Point>, target: nat)
    requires forall i :: 0 <= i < |below| ==> below[i].hash < target
    requires above != [] ==> target <= above[0].hash
    ensures Lower(below + above, target) == |below|
  {
    LowerIs(below + above, target, |below|);
  }

  lemma DirectAt(ring: seq<Point>, target: nat, low: nat)
    requires ring != [] && low <= |ring| && Lower(ring, target) == low
    ensures Direct(ring, target) == Some(ring[if low == |ring| then 0 else low].id)
  {
    WithinOneTurn(low, |ring|);
  }

  /** Split at the target, the direct pick is the first point from there on, or else the first of all. */
  lemma DirectOnSplit(below: seq<Point>, above: seq<Point>, target: nat)
    requires forall i :: 0 <= i < |below| ==> below[i].hash < target
    requires above != [] ==> target <= above[0].hash
    ensures Direct(below + above, target) ==
            if above != [] then Some(above[0].id) else if below != [] then Some(below[0].id) else None
  {
    LowerOnSplit(below, above, target);
    var ring := below + above;
    if ring != [] {
      DirectAt(ring, target, |below|);
    }
  }

  /** From the target's place, the walk finds the first acceptable point there or after, or else the first of all. */
  lemma WalkOnSplit(ring: seq<Point>, low: nat, accept: string -> bool)
    requires ring != [] && low <= |ring|
    ensures var fb, fa := Filter(Accepted(accept), ring[..low]), Filter(Accepted(accept), ring[low..]);
            Walk(ring, accept, low % |ring|, 0) ==
            if fa != [] then Some(fa[0].id) else if fb != [] then Some(fb[0].id) else None
  {
    var below, above := ring[..low], ring[low..];
    WalkIsFirst(ring, accept, low % |ring|, 0);
    TurnedAtTarget(ring, low);
    assert (above + below)[0..] == above + below;
    FirstIsHead(accept, above + below);
    FilterAppend(Accepted(accept), above, below);
  }

  lemma DirectOnFiltered(below: seq<Point>, above: seq<Point>, target: nat, accept: string -> bool)
    requires forall i :: 0 <= i < |below| ==> below[i].hash < target
    requires forall i :: 0 <= i < |above| ==> target <= above[i].hash
    ensures var fb, fa := Filter(Accepted(accept), below), Filter(Accepted(accept), above);
            Direct(Filter(Accepted(accept), below + above), target) ==
            if fa != [] then Some(fa[0].id) else if fb != [] then Some(fb[0].id) else None
  {
    var f := Accepted(accept);
    var fb, fa := Filter(f, below), Filter(f, above);
    FilterAppend(f, below, above);
    FilterKeeps(f, below);
    FilterKeeps(f, above);
    assert forall i :: 0 <= i < |fb| ==> fb[i] in fb;
    assert fa != [] ==> fa[0] in fa;
    DirectOnSplit(fb, fa, target);
  }

  lemma WalkRefinesAt(ring: seq<Point>, low: nat, target: nat, accept: string -> bool)
    requires ring != [] && low <= |ring|
    requires forall i :: 0 <= i < low ==> ring[i].hash < target
    requires forall i :: low <= i < |ring| ==> target <= ring[i].hash
    ensures Walk(ring, accept, low % |ring|, 0) == Direct(Filter(Accepted(accept), ring), target)
  {
    var below, above := ring[..low], ring[low..];
    WalkOnSplit(ring, low, accept);
    DirectOnFiltered(below, above, target, accept);
    assert ring == below + above;
  }

  /** The walk on the full ring is the direct pick on the ring of acceptable points. */
  lemma WalkRefinesFiltered(ring: seq<Point>, target: nat, accept: string -> bool)
    requires Sorted(ring) && ring != []
    ensures Walk(ring, accept, Lower(ring, target) % |ring|, 0) == Direct(Filter(Accepted(accept), ring), target)
  {
    LowerSplits(ring, target);
    WalkRefinesAt(ring, Lower(ring, target), target, accept);
  }

  // ---- Down to the backends ----

  function AcceptedMembers(accept: string -> bool, members: seq<Member>): seq<Member> {
    if members == [] then []
    else
      var init, last := members[..|members| - 1], members[|members| - 1];
      if accept(last.id) then AcceptedMembers(accept, init) + [last] else AcceptedMembers(accept, init)
  }

  lemma PointsSnoc(members: seq<Member>, m: Member, hash: (string, nat) -> nat)
    ensures Points(members + [m], hash) ==
            Points(members, hash) + NodePoints(hash, m.id, Capped(m.weight, MAX_WEIGHT) * VIRTUAL_NODES_PER_WEIGHT_UNIT)
  {
    assert (members + [m])[..|members|] == members;
  }

  lemma {:induction false} FilterNodePoints(accept: string -> bool, hash: (string, nat) -> nat, id: string, n: nat)
    ensures Filter(Accepted(accept), NodePoints(hash, id, n)) == if accept(id) then NodePoints(hash, id, n) else []
  {
    if n != 0 {
      FilterNodePoints(accept, hash, id, n - 1);
      var s := NodePoints(hash, id, n);
      assert s[..|s| - 1] == NodePoints(hash, id, n - 1);
    }
  }

  lemma {:induction false} FilterPoints(accept: string -> bool, members: seq<Member>, hash: (string, nat) -> nat)
    ensures Filter(Accepted(accept), Points(members, hash)) == Points(AcceptedMembers(accept, members), hash)
  {
    if members != [] {
      var init, last := members[..|members| - 1], members[|members| - 1];
      var n := Capped(last.weight, MAX_WEIGHT) * VIRTUAL_NODES_PER_WEIGHT_UNIT;
      FilterPoints(accept, init, hash);
      FilterAppend(Accepted(accept), Points(init, hash), NodePoints(hash, last.id, n));
      FilterNodePoints(accept, hash, last.id, n);
      PointsSnoc(AcceptedMembers(accept, init), last, hash);
    }
  }

  /** Skipping unacceptable owners on the ring of all backends picks exactly what a ring of only the
      acceptable backends picks with no skipping, wrap-around and equal hashes included. */
  lemma PickRefinesRebuiltRing(members: seq<Member>, hash: (string, nat) -> nat, target: nat, accept: string -> bool)
    ensures Answer(Ring(members, hash), target, accept) ==
            Direct(Ring(AcceptedMembers(accept, members), hash), target)
  {
    var points := Points(members, hash);
    FilterSort(Accepted(accept), points);
    FilterPoints(accept, members, hash);
    if Sort(points) != [] {
      SortSorted(points);
      WalkRefinesFiltered(Sort(points), target, accept);
    }
  }

  lemma {:induction false} InsertSize(p: Point, s: seq<Point>)
    ensures |Insert(p, s)| == |s| + 1
  {
    if s != [] && p.hash < s[|s| - 1].hash {
      InsertSize(p, s[..|s| - 1]);
    }
  }

  lemma {:induction false} SortSize(s: seq<Point>)
    ensures |Sort(s)| == |s|
  {
    if s != [] {
      SortSize(s[..|s| - 1]);
      InsertSize(s[|s| - 1], Sort(s[..|s| - 1]));
    }
  }

  lemma {:induction false} NodePointsSize(hash: (string, nat) -> nat, id: string, n: nat)
    ensures |NodePoints(hash, id, n)| == n
  {
    if n != 0 {
      NodePointsSize(hash, id, n - 1);
    }
  }

  ghost predicate SomePositive(accept: string -> bool, members: seq<Member>) {
    exists i :: 0 <= i < |members| && accept(members[i].id) && 0 < members[i].weight
  }

  lemma SomePositiveSnoc(accept: string -> bool, init: seq<Member>, last: Member)
    ensures SomePositive(accept, init + [last]) <==> SomePositive(accept, init) || (accept(last.id) && 0 < last.weight)
  {
    var members := init + [last];
    if i :| 0 <= i < |init| && accept(init[i].id) && 0 < init[i].weight {
      assert members[i] == init[i];
    }
    assert members[|init|] == last;
  }

  lemma {:induction false} PointsEmptyExactly(accept: string -> bool, members: seq<Member>, hash: (string, nat) -> nat)
    ensures Points(AcceptedMembers(accept, members), hash) == [] <==> !SomePositive(accept, members)
  {
    if members != [] {
      var init, last := members[..|members| - 1], members[|members| - 1];
      assert members == init + [last];
      PointsEmptyExactly(accept, init, hash);
      SomePositiveSnoc(accept, init, last);
      PointsSnoc(AcceptedMembers(accept, init), last, hash);
      NodePointsSize(hash, last.id, Capped(last.weight, MAX_WEIGHT) * VIRTUAL_NODES_PER_WEIGHT_UNIT);
    }
  }

  /** A pick fails exactly when no acceptable backend has positive weight. */
  lemma PickFailsExactly(members: seq<Member>, hash: (string, nat) -> nat, target: nat, accept: string -> bool)
    ensures Answer(Ring(members, hash), target, accept) == None <==> !SomePositive(accept, members)
  {
    SortSize(Points(AcceptedMembers(accept, members), hash));
    PointsEmptyExactly(accept, members, hash);
    PickRefinesRebuiltRing(members, hash, target, accept);
  }
}
