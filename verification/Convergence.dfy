/** Merging peer messages is a join: what a store ends up holding depends only on which
    messages arrived, not on their order, their repetition or when each arrived. */
module Convergence {
  import opened Sums
  import opened Slots
  import opened Counters

  datatype SyncMessage = SyncMessage(nodeId: string, incarnation: nat, entries: seq<KeyEntry>)

  /** A message arriving when the receiver's clock reads `now`. */
  datatype Delivery = Delivery(msg: SyncMessage, now: nat)

  /** A message bearing the receiver's own id is refused, any other is merged into its sender's slot. */
  function AfterMessage(s: Store, ownId: string, msg: SyncMessage, now: nat): Store {
    if msg.nodeId == ownId then s
    else AfterMergeAll(s, NodeSlot(msg.nodeId, msg.incarnation), msg.entries, now)
  }

  function AfterDeliveries(s: Store, ownId: string, ds: seq<Delivery>): Store {
    if ds == [] then s
    else
      var last := ds[|ds| - 1];
      AfterMessage(AfterDeliveries(s, ownId, ds[..|ds| - 1]), ownId, last.msg, last.now)
  }

  /** One key's counts as reported by one slot. */
  datatype Report = Report(key: string, slot: string, buckets: seq<Bucket>)

  function EntryReports(slot: string, entries: seq<KeyEntry>): set<Report> {
    set i | 0 <= i < |entries| :: Report(entries[i].key, slot, entries[i].buckets)
  }

  function ReportsOf(ownId: string, msg: SyncMessage): set<Report> {
    if msg.nodeId == ownId then {} else EntryReports(NodeSlot(msg.nodeId, msg.incarnation), msg.entries)
  }

  function Received(ownId: string, ds: seq<Delivery>): set<Report> {
    if ds == [] then {} else Received(ownId, ds[..|ds| - 1]) + ReportsOf(ownId, ds[|ds| - 1].msg)
  }

  // ---- The join of a store and a set of reports ----

  predicate Holds(s: Store, k: string, c: Cell, v: nat) {
    k in s.keys && c in s.keys[k] && s.keys[k][c] == v
  }

  predicate Says(r: Report, k: string, c: Cell, v: nat) {
    r.key == k && r.slot == c.slot && Bucket(c.epoch, v) in r.buckets
  }

  ghost predicate HoldsAtLeast(s: Store, k: string, c: Cell, v: nat) {
    k in s.keys && c in s.keys[k] && v <= s.keys[k][c]
  }

  /** R is the least store above s and every report: nothing is missing, nothing is made up. */
  ghost predicate IsJoin(s: Store, m: set<Report>, r: Store) {
    && r.changed == s.changed && r.cursor == s.cursor
    && (forall k :: k in r.keys <==> k in s.keys || exists p :: p in m && p.key == k && p.buckets != [])
    && (forall k, c, v :: Holds(s, k, c, v) ==> HoldsAtLeast(r, k, c, v))
    && (forall p, k, c, v :: p in m && Says(p, k, c, v) ==> HoldsAtLeast(r, k, c, v))
    && (forall k, c, v :: Holds(r, k, c, v) ==> Holds(s, k, c, v) || exists p :: p in m && Says(p, k, c, v))
  }

  lemma JoinAbove(s: Store, m: set<Report>, a: Store, b: Store, k: string, c: Cell)
    requires IsJoin(s, m, a) && IsJoin(s, m, b)
    requires k in a.keys && c in a.keys[k]
    ensures HoldsAtLeast(b, k, c, a.keys[k][c])
  {
    assert Holds(a, k, c, a.keys[k][c]);
  }

  /** There is only one join. */
  lemma JoinUnique(s: Store, m: set<Report>, a: Store, b: Store)
    requires IsJoin(s, m, a) && IsJoin(s, m, b)
    ensures a == b
  {
    assert a.keys.Keys == b.keys.Keys;
    forall k | k in a.keys ensures a.keys[k] == b.keys[k] {
      forall c | c in a.keys[k] ensures c in b.keys[k] {
        JoinAbove(s, m, a, b, k, c);
      }
      forall c | c in b.keys[k] ensures c in a.keys[k] && a.keys[k][c] == b.keys[k][c] {
        JoinAbove(s, m, b, a, k, c);
        JoinAbove(s, m, a, b, k, c);
      }
    }
    assert a.keys == b.keys;
  }

  /** Room for every key that occurs, so that the key cap never bites. */
  ghost predicate Roomy(universe: set<string>, s: Store, m: set<Report>) {
    |universe| <= MAX_TRACKED_KEYS && s.keys.Keys <= universe && forall p :: p in m ==> p.key in universe
  }

  ghost predicate WithinSkew(buckets: seq<Bucket>, now: nat) {
    forall b :: b in buckets ==> b.epoch <= now + FUTURE_SKEW_TOLERANCE_SECS
  }

  lemma RoomForKey(universe: set<string>, s: Store, key: string)
    requires |universe| <= MAX_TRACKED_KEYS && s.keys.Keys <= universe && key in universe && key !in s.keys
    ensures |s.keys| < MAX_TRACKED_KEYS
  {
    SubsetSize(s.keys.Keys, universe - {key});
  }

  /** Merging one report raises what the store holds to what the report says, and makes nothing up. */
  lemma MergeRaises(r: Store, p: Report, now: nat)
    requires p.buckets != [] && WithinSkew(p.buckets, now) && HasRoom(r, p.key)
    ensures var r' := AfterMerge(r, p.key, p.slot, p.buckets, now);
            && r'.changed == r.changed && r'.cursor == r.cursor && r'.keys.Keys == r.keys.Keys + {p.key}
            && (forall k, c, v :: Holds(r, k, c, v) ==> HoldsAtLeast(r', k, c, v))
            && (forall c, v :: Says(p, p.key, c, v) ==> HoldsAtLeast(r', p.key, c, v))
            && (forall k, c, v :: Holds(r', k, c, v) ==> Holds(r, k, c, v) || Says(p, k, c, v))
  {
    var r' := AfterMerge(r, p.key, p.slot, p.buckets, now);
    var maxEpoch := now + FUTURE_SKEW_TOLERANCE_SECS;
    assert p.buckets[0] in p.buckets;
    forall k, c, v | Holds(r, k, c, v) ensures HoldsAtLeast(r', k, c, v) {
      MergeIntoCell(CountsOf(r, p.key), p.slot, p.buckets, maxEpoch, c);
    }
    forall c, v | Says(p, p.key, c, v) ensures HoldsAtLeast(r', p.key, c, v) {
      MergeIntoCell(CountsOf(r, p.key), p.slot, p.buckets, maxEpoch, c);
      assert Bucket(c.epoch, v) in p.buckets;
    }
    forall k, c, v | Holds(r', k, c, v) ensures Holds(r, k, c, v) || Says(p, k, c, v) {
      MergeIntoCell(CountsOf(r, p.key), p.slot, p.buckets, maxEpoch, c);
    }
  }

  /** Merging one report, within skew and below the cap, joins it in. */
  lemma MergeJoins(s: Store, m: set<Report>, r: Store, p: Report, now: nat, universe: set<string>)
    requires IsJoin(s, m, r) && Roomy(universe, s, m + {p}) && WithinSkew(p.buckets, now)
    ensures IsJoin(s, m + {p}, AfterMerge(r, p.key, p.slot, p.buckets, now))
  {
    var r' := AfterMerge(r, p.key, p.slot, p.buckets, now);
    if p.buckets == [] {
      assert r' == r;
    } else {
      if p.key !in r.keys {
        assert r.keys.Keys <= universe;
        RoomForKey(universe, r, p.key);
      }
      MergeRaises(r, p, now);
      JoinRaised(s, m, r, p, r');
    }
  }

  lemma JoinRaised(s: Store, m: set<Report>, r: Store, p: Report, r': Store)
    requires IsJoin(s, m, r) && p.buckets != []
    requires r'.changed == r.changed && r'.cursor == r.cursor && r'.keys.Keys == r.keys.Keys + {p.key}
    requires forall k, c, v :: Holds(r, k, c, v) ==> HoldsAtLeast(r', k, c, v)
    requires forall c, v :: Says(p, p.key, c, v) ==> HoldsAtLeast(r', p.key, c, v)
    requires forall k, c, v :: Holds(r', k, c, v) ==> Holds(r, k, c, v) || Says(p, k, c, v)
    ensures IsJoin(s, m + {p}, r')
  {
    forall k, c, v | HoldsAtLeast(r, k, c, v) ensures HoldsAtLeast(r', k, c, v) {
      assert Holds(r, k, c, r.keys[k][c]);
    }
    forall k ensures k in r'.keys <==> k in s.keys || exists q :: q in m + {p} && q.key == k && q.buckets != [] {
      assert k in r'.keys <==> k in r.keys || k == p.key;
    }
  }

  lemma {:induction false} MergeAllJoins(
      s: Store, m: set<Report>, r: Store, slot: string, entries: seq<KeyEntry>, now: nat, universe: set<string>)
    requires IsJoin(s, m, r) && Roomy(universe, s, m + EntryReports(slot, entries))
    requires forall i :: 0 <= i < |entries| ==> WithinSkew(entries[i].buckets, now)
    ensures IsJoin(s, m + EntryReports(slot, entries), AfterMergeAll(r, slot, entries, now))
  {
    if entries == [] {
      assert m + EntryReports(slot, entries) == m;
    } else {
      var init, last := entries[..|entries| - 1], entries[|entries| - 1];
      var p := Report(last.key, slot, last.buckets);
      EntryReportsSplit(slot, entries);
      assert m + EntryReports(slot, entries) == (m + EntryReports(slot, init)) + {p};
      MergeAllJoins(s, m, r, slot, init, now, universe);
      MergeJoins(s, m + EntryReports(slot, init), AfterMergeAll(r, slot, init, now), p, now, universe);
    }
  }

  lemma EntryReportsSplit(slot: string, entries: seq<KeyEntry>)
    requires entries != []
    ensures EntryReports(slot, entries)
         == EntryReports(slot, entries[..|entries| - 1])
          + {Report(entries[|entries| - 1].key, slot, entries[|entries| - 1].buckets)}
  {
    var init, last := entries[..|entries| - 1], entries[|entries| - 1];
    forall p | p in EntryReports(slot, init) ensures p in EntryReports(slot, entries) {
      var i :| 0 <= i < |init| && p == Report(init[i].key, slot, init[i].buckets);
      assert p == Report(entries[i].key, slot, entries[i].buckets);
    }
    forall p | p in EntryReports(slot, entries)
      ensures p in EntryReports(slot, init) || p == Report(last.key, slot, last.buckets)
    {
      var i :| 0 <= i < |entries| && p == Report(entries[i].key, slot, entries[i].buckets);
      if i < |init| {
        assert p == Report(init[i].key, slot, init[i].buckets);
      }
    }
  }

  ghost predicate Timely(ds: seq<Delivery>) {
    forall i, j :: 0 <= i < |ds| && 0 <= j < |ds[i].msg.entries| ==> WithinSkew(ds[i].msg.entries[j].buckets, ds[i].now)
  }

  lemma {:induction false} DeliveriesJoin(s: Store, ownId: string, ds: seq<Delivery>, universe: set<string>)
    requires Timely(ds) && Roomy(universe, s, Received(ownId, ds))
    ensures IsJoin(s, Received(ownId, ds), AfterDeliveries(s, ownId, ds))
  {
    if ds != [] {
      var init, last := ds[..|ds| - 1], ds[|ds| - 1];
      assert Timely(init) by {
        forall i | 0 <= i < |init| ensures init[i] == ds[i] {}
      }
      DeliveriesJoin(s, ownId, init, universe);
      if last.msg.nodeId != ownId {
        var slot := NodeSlot(last.msg.nodeId, last.msg.incarnation);
        MergeAllJoins(s, Received(ownId, init), AfterDeliveries(s, ownId, init), slot, last.msg.entries, last.now,
                      universe);
      } else {
        assert Received(ownId, ds) == Received(ownId, init);
      }
    }
  }

  function Messages(ds: seq<Delivery>): set<SyncMessage> {
    set i | 0 <= i < |ds| :: ds[i].msg
  }

  lemma {:induction false} ReceivedFromMessages(ownId: string, ds: seq<Delivery>, p: Report)
    ensures p in Received(ownId, ds) <==> exists m :: m in Messages(ds) && p in ReportsOf(ownId, m)
  {
    if ds != [] {
      var init, last := ds[..|ds| - 1], ds[|ds| - 1];
      ReceivedFromMessages(ownId, init, p);
      assert last.msg in Messages(ds);
      forall m | m in Messages(init) ensures m in Messages(ds) {
        var i :| 0 <= i < |init| && init[i].msg == m;
        assert ds[i].msg == m;
      }
      forall m | m in Messages(ds) ensures m in Messages(init) || m == last.msg {
        var i :| 0 <= i < |ds| && ds[i].msg == m;
        if i < |init| { assert init[i].msg == m; }
      }
    }
  }

  /** Any two delivery sequences with the same messages leave equal stores. */
  lemma DeliveryOrderIrrelevant(s: Store, ownId: string, a: seq<Delivery>, b: seq<Delivery>, universe: set<string>)
    requires Messages(a) == Messages(b)
    requires Timely(a) && Timely(b)
    requires Roomy(universe, s, Received(ownId, a))
    ensures AfterDeliveries(s, ownId, a) == AfterDeliveries(s, ownId, b)
  {
    forall p ensures p in Received(ownId, a) <==> p in Received(ownId, b) {
      ReceivedFromMessages(ownId, a, p);
      ReceivedFromMessages(ownId, b, p);
    }
    assert Received(ownId, a) == Received(ownId, b);
    DeliveriesJoin(s, ownId, a, universe);
    DeliveriesJoin(s, ownId, b, universe);
    JoinUnique(s, Received(ownId, a), AfterDeliveries(s, ownId, a), AfterDeliveries(s, ownId, b));
  }
}
