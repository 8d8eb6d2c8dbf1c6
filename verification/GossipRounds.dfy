/** What one exchange of gossip achieves: a snapshot that lists a key reports it completely, and
    a node that takes in such a report from every active peer sees the true cluster total. */
module GossipRounds {
  import opened Slots
  import opened Counters
  import opened Convergence
  import opened Snapshots
  import opened Clusters
  import opened ClusterViews

  predicate Offers(msg: SyncMessage, key: string, b: Bucket) {
    exists i :: 0 <= i < |msg.entries| && msg.entries[i].key == key && b in msg.entries[i].buckets
  }

  /** The message reports every admission its sender has made for the key in the window. */
  ghost predicate Fresh(p: Params, log: seq<Event>, msg: SyncMessage, key: string, now: nat) {
    var slot := NodeSlot(msg.nodeId, msg.incarnation);
    forall t: nat :: InWindow(t, now, p.window) && TrueCount(log, slot, key, t) > 0 ==>
      Offers(msg, key, Bucket(t, TrueCount(log, slot, key, t)))
  }

  /** A snapshot that has room for a key reports it completely. */
  lemma SnapshotIsFresh(p: Params, s: Cluster, id: string, msg: SyncMessage, t: Cluster, key: string)
    requires Inv(p, s) && Next(p, s, Send(id, msg), t)
    requires exists i :: 0 <= i < |msg.entries| && msg.entries[i].key == key
    ensures Fresh(p, t.log, msg, key, t.nodes[id].clock)
  {
    var n := s.nodes[id];
    var x := RoundAt(n.store, id, n.clock, p.window, MAX_SNAPSHOT_BUCKET_ENTRIES, MAX_SNAPSHOT_BYTES);
    var out := TakeSnapshot(n.store, x).out;
    SnapshotExact(n.store, x);
    var i :| 0 <= i < |msg.entries| && msg.entries[i].key == key;
    var slot := NodeSlot(id, n.incarnation);
    forall u: nat | InWindow(u, n.clock, p.window) && TrueCount(t.log, slot, key, u) > 0
      ensures Offers(msg, key, Bucket(u, TrueCount(t.log, slot, key, u)))
    {
      assert CellOf(n.store, key, Cell(id, u)) == TrueCount(s.log, slot, key, u);
      assert Cell(id, u) in x.Own(key);
      assert out[i].cells[Cell(id, u)] == TrueCount(s.log, slot, key, u);
      assert Bucket(u, TrueCount(s.log, slot, key, u)) in msg.entries[i].buckets;
    }
  }

  /** The cluster after a node takes in several messages without its clock moving. */
  function AfterReceiving(s: Cluster, id: string, ds: seq<Delivery>): Cluster
    requires id in s.nodes
  {
    s.(nodes := s.nodes[id := s.nodes[id].(store := AfterDeliveries(s.nodes[id].store, id, ds))])
  }

  ghost predicate Deliverable(s: Cluster, id: string, ds: seq<Delivery>)
    requires id in s.nodes
  {
    forall i :: 0 <= i < |ds| ==> ds[i].msg in s.sent && ds[i].now == s.nodes[id].clock
  }

  lemma {:induction false} ReceivingInv(p: Params, s: Cluster, id: string, ds: seq<Delivery>)
    requires Inv(p, s) && id in s.nodes && Deliverable(s, id, ds)
    ensures Inv(p, AfterReceiving(s, id, ds))
  {
    if ds == [] {
      assert AfterReceiving(s, id, ds) == s;
    } else {
      var init, last := ds[..|ds| - 1], ds[|ds| - 1];
      ReceivingInv(p, s, id, init);
      DeliverInv(p, AfterReceiving(s, id, init), id, last.msg, AfterReceiving(s, id, ds));
    }
  }

  /** Every peer boot with in-window admissions for the key is heard from. */
  ghost predicate HeardFrom(p: Params, s: Cluster, id: string, key: string, ds: seq<Delivery>)
    requires id in s.nodes
  {
    forall b, t: nat ::
      && b in s.boots && b.id != id && InWindow(t, s.nodes[id].clock, p.window)
      && TrueCount(s.log, SlotOf(b), key, t) > 0
      ==> exists i :: 0 <= i < |ds| && ds[i].msg.nodeId == b.id && ds[i].msg.incarnation == b.incarnation
                      && Fresh(p, s.log, ds[i].msg, key, s.nodes[id].clock)
  }

  lemma OfferIsReceived(ownId: string, ds: seq<Delivery>, i: nat, key: string, b: Bucket)
    requires i < |ds| && ds[i].msg.nodeId != ownId && Offers(ds[i].msg, key, b)
    ensures exists r :: r in Received(ownId, ds)
                        && Says(r, key, Cell(NodeSlot(ds[i].msg.nodeId, ds[i].msg.incarnation), b.epoch), b.count)
  {
    var msg := ds[i].msg;
    var j :| 0 <= j < |msg.entries| && msg.entries[j].key == key && b in msg.entries[j].buckets;
    var r := Report(key, NodeSlot(msg.nodeId, msg.incarnation), msg.entries[j].buckets);
    assert r in ReportsOf(ownId, msg);
    assert msg in Messages(ds);
    ReceivedFromMessages(ownId, ds, r);
    assert Says(r, key, Cell(NodeSlot(msg.nodeId, msg.incarnation), b.epoch), b.count);
  }

  /** One full round of gossip: hearing completely from every active peer, within skew and below the
      key cap, makes the node's total for the key the true one. */
  lemma GossipConverges(p: Params, s: Cluster, id: string, key: string, ds: seq<Delivery>, universe: set<string>)
    requires Inv(p, s) && id in s.nodes && Deliverable(s, id, ds) && HeardFrom(p, s, id, key, ds)
    requires Timely(ds) && Roomy(universe, s.nodes[id].store, Received(id, ds))
    requires forall b :: b in s.boots && b.id == id && b.incarnation != s.nodes[id].incarnation ==>
               CountSlot(s.log, SlotOf(b), key, Cutoff(s.nodes[id].clock, p.window), s.nodes[id].clock) == 0
    ensures var n := AfterReceiving(s, id, ds).nodes[id];
            Total(CountsOf(n.store, key), n.clock, p.window) == CountIn(s.log, key, Cutoff(n.clock, p.window), n.clock)
  {
    var t := AfterReceiving(s, id, ds);
    var n := t.nodes[id];
    ReceivingInv(p, s, id, ds);
    DeliveriesJoin(s.nodes[id].store, id, ds, universe);
    assert CellsTrue(t.boots, t.log, id, n);
    forall b, u: nat | b in t.boots && b.id != id && InWindow(u, n.clock, p.window)
      ensures CellOf(n.store, key, Cell(SlotOf(b), u)) == TrueCount(t.log, SlotOf(b), key, u)
    {
      var c, truth := Cell(SlotOf(b), u), TrueCount(s.log, SlotOf(b), key, u);
      assert IsPeerSlot(t.boots, id, SlotOf(b));
      PeerSlotIsNotOwn(t, id, SlotOf(b));
      assert CellOf(n.store, key, c) <= truth;
      if truth > 0 {
        var i :| 0 <= i < |ds| && ds[i].msg.nodeId == b.id && ds[i].msg.incarnation == b.incarnation
                 && Fresh(p, s.log, ds[i].msg, key, s.nodes[id].clock);
        OfferIsReceived(id, ds, i, key, Bucket(u, truth));
        assert HoldsAtLeast(n.store, key, c, truth);
      }
    }
    SyncedIsExact(p, t, id, key);
  }
}
