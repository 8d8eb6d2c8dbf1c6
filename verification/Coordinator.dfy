/** A cluster node and its listeners as objects: each method changes the node's store as the matching step of the
    cluster does. */
module Coordinators {
  import opened Sums
  import opened Slots
  import opened Counters
  import opened Convergence
  import opened Snapshots
  import opened CounterStores
  import opened Clusters

  datatype MergeOutcome = Merged | OwnNodeIdEcho

  /** A node's cells for a key, bucket by bucket, in whatever order the map yields them. */
  method BucketsOf(id: string, cells: KeyCounts) returns (buckets: seq<Bucket>)
    requires forall c <- cells :: c.slot == id
    ensures |buckets| == |cells|
    ensures forall b <- buckets :: Cell(id, b.epoch) in cells && cells[Cell(id, b.epoch)] == b.count
    ensures forall c <- cells :: Bucket(c.epoch, cells[c]) in buckets
    ensures forall i, j :: 0 <= i < j < |buckets| ==> buckets[i].epoch != buckets[j].epoch
  {
    buckets := [];
    var todo := cells;
    while todo != map[]
      invariant |buckets| + |todo| == |cells|
      invariant forall c <- todo :: c in cells && todo[c] == cells[c]
      invariant forall b <- buckets :: Cell(id, b.epoch) in cells && cells[Cell(id, b.epoch)] == b.count
      invariant forall b <- buckets :: Cell(id, b.epoch) !in todo
      invariant forall c <- cells :: c in todo || Bucket(c.epoch, cells[c]) in buckets
      invariant forall i, j :: 0 <= i < j < |buckets| ==> buckets[i].epoch != buckets[j].epoch
      decreases |todo|
    {
      var c :| c in todo;
      assert c == Cell(id, c.epoch);
      MapSizeRemove(todo, c);
      buckets := buckets + [Bucket(c.epoch, cells[c])];
      todo := todo - {c};
    }
  }

  method EntriesFor(id: string, out: seq<Item>) returns (entries: seq<KeyEntry>)
    requires forall i :: 0 <= i < |out| ==> forall c <- out[i].cells :: c.slot == id
    ensures |entries| == |out| && forall i :: 0 <= i < |out| ==> ListsItem(id, entries[i], out[i])
  {
    entries := [];
    for i := 0 to |out|
      invariant |entries| == i && forall j :: 0 <= j < i ==> ListsItem(id, entries[j], out[j])
    {
      var buckets := BucketsOf(id, out[i].cells);
      entries := entries + [KeyEntry(out[i].key, buckets)];
    }
  }

  class ClusterNode {
    const nodeId: string
    const incarnation: nat
    const store: CounterStore

    constructor (nodeId: string, incarnation: nat, window: nat)
      ensures this.nodeId == nodeId && this.incarnation == incarnation && fresh(store)
      ensures store.View() == EMPTY && store.windowSecs == Max(window, 1)
    {
      this.nodeId, this.incarnation := nodeId, incarnation;
      store := new CounterStore(window);
    }

    /** Merges a peer's counters into that boot's slot, and refuses a message bearing this node's own id. */
    method MergeMessage(msg: SyncMessage, now: nat) returns (outcome: MergeOutcome)
      modifies store
      ensures store.View() == AfterMessage(old(store.View()), nodeId, msg, now)
      ensures outcome == OwnNodeIdEcho <==> msg.nodeId == nodeId
    {
      if msg.nodeId == nodeId {
        return OwnNodeIdEcho;
      }
      store.MergeAll(NodeSlot(msg.nodeId, msg.incarnation), msg.entries, now);
      outcome := Merged;
    }

    /** This node's own in-window counts, ready for peers: the message a cluster `Send` step may send. */
    method SnapshotMessage(now: nat) returns (msg: SyncMessage)
      modifies store
      ensures msg.nodeId == nodeId && msg.incarnation == incarnation
      ensures var x := old(RoundAt(store.View(), nodeId, now, store.windowSecs, MAX_SNAPSHOT_BUCKET_ENTRIES,
                                   MAX_SNAPSHOT_BYTES));
              var shot := TakeSnapshot(old(store.View()), x);
              store.View() == shot.store && Lists(msg, shot.out)
    {
      ghost var before := store.View();
      ghost var x := RoundAt(before, nodeId, now, store.windowSecs, MAX_SNAPSHOT_BUCKET_ENTRIES, MAX_SNAPSHOT_BYTES);
      var out := store.SnapshotOwn(nodeId, now);
      OwnCells(before, x, out);
      var entries := EntriesFor(nodeId, out);
      msg := SyncMessage(nodeId, incarnation, entries);
    }

    method Prune(now: nat)
      modifies store
      ensures store.View() == AfterPrune(old(store.View()), now, store.windowSecs)
    {
      store.Prune(now);
    }
  }

  lemma OwnCells(s: Store, x: Round, out: seq<Item>)
    requires x.keys == s.keys && out == TakeSnapshot(s, x).out
    ensures forall i :: 0 <= i < |out| ==> forall c <- out[i].cells :: c.slot == x.slot
  {
    SnapshotExact(s, x);
  }

  class ListenerCoordinator {
    const node: ClusterNode
    const listener: string
    const limit: nat

    constructor (node: ClusterNode, listener: string, limit: nat)
      ensures this.node == node && this.listener == listener && this.limit == limit
    {
      this.node, this.listener, this.limit := node, listener, limit;
    }

    /** Decides one request against the listener's own budget. A listener whose name holds no separator is charged under
        its own name even when the key overflows. */
    method TryAdmit(key: string, now: nat) returns (admitted: bool)
      modifies node.store
      ensures var before, full := old(node.store.View()), Namespaced(listener, key);
              && admitted == Admits(before, full, now, node.store.windowSecs, limit)
              && node.store.View() == AfterAdmit(before, full, node.nodeId, now, node.store.windowSecs, limit)
              && (SEP !in listener ==> ListenerOf(TrackedKey(before, full)) == listener)
    {
      ghost var before := node.store.View();
      admitted := node.store.TryAdmit(Namespaced(listener, key), node.nodeId, now, limit);
      if SEP !in listener {
        ListenerOfNamespaced(listener, key);
        OverflowKeyStaysInListener(Namespaced(listener, key));
      }
    }
  }
}
