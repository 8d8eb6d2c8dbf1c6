/** A cluster of nodes gossiping rate-limit counts, as a transition system. The network may lose,
    repeat, reorder and delay messages; nodes prune, restart and read their own clocks at will.
    `log` is the ghost record of every admission that truly happened. */
module Clusters {
  import opened Slots
  import opened Counters
  import opened Convergence
  import opened Snapshots

  /** One life of a node between restarts. */
  datatype Boot = Boot(id: string, incarnation: nat)

  /** One admission, filed under the slot of the boot that made it. */
  datatype Event = Event(slot: string, key: string, time: nat)

  datatype Node = Node(incarnation: nat, clock: nat, store: Store)

  datatype Cluster = Cluster(nodes: map<string, Node>, boots: set<Boot>, sent: set<SyncMessage>, log: seq<Event>)

  /** `limit` gives each listener's budget per window. */
  datatype Params = Params(window: nat, limit: string -> nat) {
    function LimitOf(key: string): nat {
      limit(ListenerOf(key))
    }
  }

  function SlotOf(b: Boot): string {
    NodeSlot(b.id, b.incarnation)
  }

  datatype Step =
    | Admit(id: string, key: string)
    | Send(id: string, msg: SyncMessage)
    | Deliver(id: string, msg: SyncMessage)
    | Prune(id: string)
    | Tick(clocks: map<string, nat>)
    | Restart(id: string, incarnation: nat)

  ghost predicate Init(s: Cluster) {
    && (forall id :: id in s.nodes ==> NUL !in id && s.nodes[id].store == EMPTY)
    && s.boots == (set id | id in s.nodes :: Boot(id, s.nodes[id].incarnation))
    && s.sent == {} && s.log == []
  }

  /** An entry lists a key's own cells: each of them, nothing else, and no second twice. */
  ghost predicate ListsItem(id: string, entry: KeyEntry, item: Item) {
    && entry.key == item.key
    && (forall b :: b in entry.buckets ==> Cell(id, b.epoch) in item.cells && item.cells[Cell(id, b.epoch)] == b.count)
    && (forall c :: c in item.cells ==> Bucket(c.epoch, item.cells[c]) in entry.buckets)
    && (forall i, j :: 0 <= i < j < |entry.buckets| ==> entry.buckets[i].epoch != entry.buckets[j].epoch)
  }

  /** A message lists a snapshot, key by key in the same order. */
  ghost predicate Lists(msg: SyncMessage, out: seq<Item>) {
    |msg.entries| == |out| && forall i :: 0 <= i < |out| ==> ListsItem(msg.nodeId, msg.entries[i], out[i])
  }

  ghost predicate Next(p: Params, s: Cluster, step: Step, t: Cluster) {
    match step
    case Admit(id, key) =>
      && id in s.nodes
      && var n := s.nodes[id];
      && t == s.(
           nodes := s.nodes[id := n.(store := AfterAdmit(n.store, key, id, n.clock, p.window, p.LimitOf(key)))],
           log := if Admits(n.store, key, n.clock, p.window, p.LimitOf(key))
                  then s.log + [Event(NodeSlot(id, n.incarnation), TrackedKey(n.store, key), n.clock)] else s.log)
    case Send(id, msg) =>
      && id in s.nodes
      && var n := s.nodes[id];
      && var x := RoundAt(n.store, id, n.clock, p.window, MAX_SNAPSHOT_BUCKET_ENTRIES, MAX_SNAPSHOT_BYTES);
      && var shot := TakeSnapshot(n.store, x);
      && msg.nodeId == id && msg.incarnation == n.incarnation && Lists(msg, shot.out)
      && t == s.(nodes := s.nodes[id := n.(store := shot.store)], sent := s.sent + {msg})
    case Deliver(id, msg) =>
      && id in s.nodes && msg in s.sent
      && var n := s.nodes[id];
      && t == s.(nodes := s.nodes[id := n.(store := AfterMessage(n.store, id, msg, n.clock))])
    case Prune(id) =>
      && id in s.nodes
      && var n := s.nodes[id];
      && t == s.(nodes := s.nodes[id := n.(store := AfterPrune(n.store, n.clock, p.window))])
    case Tick(clocks) =>
      && clocks.Keys == s.nodes.Keys
      && (forall id :: id in s.nodes ==> s.nodes[id].clock <= clocks[id])
      && t == s.(nodes := map id | id in s.nodes :: s.nodes[id].(clock := clocks[id]))
    case Restart(id, incarnation) =>
      && id in s.nodes && Boot(id, incarnation) !in s.boots
      && t == s.(nodes := s.nodes[id := Node(incarnation, s.nodes[id].clock, EMPTY)],
                 boots := s.boots + {Boot(id, incarnation)})
  }

  ghost predicate IsRun(p: Params, states: seq<Cluster>, steps: seq<Step>) {
    && |states| == |steps| + 1 && Init(states[0])
    && forall i :: 0 <= i < |steps| ==> Next(p, states[i], steps[i], states[i + 1])
  }

  // ---- True counts ----

  /** How many admissions a boot truly made for a key in one second. */
  function TrueCount(log: seq<Event>, slot: string, key: string, time: nat): nat {
    if log == [] then 0
    else TrueCount(log[..|log| - 1], slot, key, time) + if log[|log| - 1] == Event(slot, key, time) then 1 else 0
  }

  predicate Counted(e: Event, key: string, lo: nat, hi: nat) {
    e.key == key && lo <= e.time <= hi
  }

  /** How many admissions the whole cluster truly made for a key in a span of seconds. */
  function CountIn(log: seq<Event>, key: string, lo: nat, hi: nat): nat {
    if log == [] then 0
    else CountIn(log[..|log| - 1], key, lo, hi) + if Counted(log[|log| - 1], key, lo, hi) then 1 else 0
  }

  lemma TrueCountAppend(log: seq<Event>, e: Event, slot: string, key: string, time: nat)
    ensures TrueCount(log + [e], slot, key, time)
         == TrueCount(log, slot, key, time) + if e == Event(slot, key, time) then 1 else 0
  {
    assert (log + [e])[..|log|] == log;
  }

  lemma {:induction false} TrueCountZero(log: seq<Event>, slot: string, key: string, time: nat)
    requires Event(slot, key, time) !in log
    ensures TrueCount(log, slot, key, time) == 0
  {
    if log != [] {
      assert log[|log| - 1] in log;
      TrueCountZero(log[..|log| - 1], slot, key, time);
    }
  }

  // ---- The invariant ----

  /** The slot under which a node files its own counts is its bare id; every other slot names its boot. */
  function Owner(id: string, incarnation: nat, slot: string): string {
    if slot == id then NodeSlot(id, incarnation) else slot
  }

  ghost predicate IsBootSlot(boots: set<Boot>, slot: string) {
    exists b :: b in boots && slot == SlotOf(b)
  }

  ghost predicate IsPeerSlot(boots: set<Boot>, id: string, slot: string) {
    exists b :: b in boots && b.id != id && slot == SlotOf(b)
  }

  ghost predicate WellNamed(s: Cluster) {
    && (forall b :: b in s.boots ==> NUL !in b.id && b.id in s.nodes)
    && (forall id :: id in s.nodes ==> NUL !in id && Boot(id, s.nodes[id].incarnation) in s.boots)
  }

  /** No cell of a node's store exceeds what its boot truly admitted. */
  ghost predicate CellsTrue(boots: set<Boot>, log: seq<Event>, id: string, n: Node) {
    forall k, c :: c in CountsOf(n.store, k) ==>
      && (c.slot == id || IsPeerSlot(boots, id, c.slot))
      && CellOf(n.store, k, c) <= TrueCount(log, Owner(id, n.incarnation, c.slot), k, c.epoch)
  }

  /** A node's own cells are exact for every second still in its window. */
  ghost predicate OwnExact(p: Params, log: seq<Event>, id: string, n: Node) {
    forall k, e: nat :: Cutoff(n.clock, p.window) <= e ==>
      CellOf(n.store, k, Cell(id, e)) == TrueCount(log, NodeSlot(id, n.incarnation), k, e)
  }

  ghost predicate NodesTrue(p: Params, s: Cluster) {
    forall id :: id in s.nodes ==> CellsTrue(s.boots, s.log, id, s.nodes[id]) && OwnExact(p, s.log, id, s.nodes[id])
  }

  ghost predicate SaysTrue(log: seq<Event>, msg: SyncMessage) {
    forall i, b :: 0 <= i < |msg.entries| && b in msg.entries[i].buckets ==>
      b.count <= TrueCount(log, NodeSlot(msg.nodeId, msg.incarnation), msg.entries[i].key, b.epoch)
  }

  ghost predicate MessagesTrue(s: Cluster) {
    forall m :: m in s.sent ==> Boot(m.nodeId, m.incarnation) in s.boots && SaysTrue(s.log, m)
  }

  /** The event was made by a boot of the cluster, no later than that node's clock reads now. */
  ghost predicate EventTrue(s: Cluster, e: Event) {
    exists b :: b in s.boots && b.id in s.nodes && e.slot == SlotOf(b) && e.time <= s.nodes[b.id].clock
  }

  ghost predicate LogTrue(s: Cluster) {
    forall e :: e in s.log ==> EventTrue(s, e)
  }

  ghost predicate Inv(p: Params, s: Cluster) {
    WellNamed(s) && NodesTrue(p, s) && MessagesTrue(s) && LogTrue(s)
  }

  // ---- It is kept by every step ----

  lemma InitInv(p: Params, s: Cluster)
    requires Init(s)
    ensures Inv(p, s)
  {
    assert forall id :: id in s.nodes ==> Boot(id, s.nodes[id].incarnation) in s.boots;
  }

  lemma PeerSlotIsNotOwn(s: Cluster, id: string, slot: string)
    requires WellNamed(s) && id in s.nodes && IsPeerSlot(s.boots, id, slot)
    ensures slot != id && slot != NodeSlot(id, s.nodes[id].incarnation)
  {
    var b :| b in s.boots && b.id != id && slot == SlotOf(b);
    if slot == id {
      NodeSlotInjective(b.id, b.incarnation, id, 0);
    }
    if slot == NodeSlot(id, s.nodes[id].incarnation) {
      NodeSlotInjective(b.id, b.incarnation, id, s.nodes[id].incarnation);
    }
  }

  /** A longer log only raises true counts. */
  lemma TrueCountMonotone(log: seq<Event>, e: Event)
    ensures forall slot, k, t :: TrueCount(log, slot, k, t) <= TrueCount(log + [e], slot, k, t)
  {
    forall slot, k, t ensures TrueCount(log, slot, k, t) <= TrueCount(log + [e], slot, k, t) {
      TrueCountAppend(log, e, slot, k, t);
    }
  }

  /** Someone else's admission leaves a node's view true and its own cells exact. */
  lemma BystanderTrue(p: Params, boots: set<Boot>, log: seq<Event>, id: string, n: Node, e: Event)
    requires CellsTrue(boots, log, id, n) && OwnExact(p, log, id, n)
    requires e.slot != NodeSlot(id, n.incarnation)
    ensures CellsTrue(boots, log + [e], id, n) && OwnExact(p, log + [e], id, n)
  {
    TrueCountMonotone(log, e);
    forall k, x: nat ensures TrueCount(log + [e], NodeSlot(id, n.incarnation), k, x)
                          == TrueCount(log, NodeSlot(id, n.incarnation), k, x)
    {
      TrueCountAppend(log, e, NodeSlot(id, n.incarnation), k, x);
    }
  }

  /** The admitting node's view stays true and its own cells exact. */
  lemma AdmitterTrue(p: Params, boots: set<Boot>, log: seq<Event>, id: string, n: Node, key: string)
    requires CellsTrue(boots, log, id, n) && OwnExact(p, log, id, n)
    requires Admits(n.store, key, n.clock, p.window, p.LimitOf(key))
    ensures var n' := n.(store := AfterAdmit(n.store, key, id, n.clock, p.window, p.LimitOf(key)));
            var log' := log + [Event(NodeSlot(id, n.incarnation), TrackedKey(n.store, key), n.clock)];
            CellsTrue(boots, log', id, n') && OwnExact(p, log', id, n')
  {
    var own := NodeSlot(id, n.incarnation);
    var store' := AfterAdmit(n.store, key, id, n.clock, p.window, p.LimitOf(key));
    var e := Event(own, TrackedKey(n.store, key), n.clock);
    TrueCountMonotone(log, e);
    forall k, c | c in CountsOf(store', k)
      ensures (c.slot == id || IsPeerSlot(boots, id, c.slot))
           && CellOf(store', k, c) <= TrueCount(log + [e], Owner(id, n.incarnation, c.slot), k, c.epoch)
    {
      AdmitCell(n.store, key, id, n.clock, p.window, p.LimitOf(key), k, c);
      TrueCountAppend(log, e, own, k, c.epoch);
    }
    forall k, x: nat | Cutoff(n.clock, p.window) <= x
      ensures CellOf(store', k, Cell(id, x)) == TrueCount(log + [e], own, k, x)
    {
      AdmitCell(n.store, key, id, n.clock, p.window, p.LimitOf(key), k, Cell(id, x));
      TrueCountAppend(log, e, own, k, x);
    }
  }

  lemma RefuserTrue(p: Params, boots: set<Boot>, log: seq<Event>, id: string, n: Node, key: string)
    requires CellsTrue(boots, log, id, n) && OwnExact(p, log, id, n)
    requires !Admits(n.store, key, n.clock, p.window, p.LimitOf(key))
    ensures var n' := n.(store := AfterAdmit(n.store, key, id, n.clock, p.window, p.LimitOf(key)));
            CellsTrue(boots, log, id, n') && OwnExact(p, log, id, n')
  {
    var store' := AfterAdmit(n.store, key, id, n.clock, p.window, p.LimitOf(key));
    forall k ensures CountsOf(store', k) == CountsOf(n.store, k) {}
  }

  lemma AdmitInv(p: Params, s: Cluster, id: string, key: string, t: Cluster)
    requires Inv(p, s) && Next(p, s, Admit(id, key), t)
    ensures Inv(p, t)
  {
    var n := s.nodes[id];
    if Admits(n.store, key, n.clock, p.window, p.LimitOf(key)) {
      var e := Event(NodeSlot(id, n.incarnation), TrackedKey(n.store, key), n.clock);
      AdmitterTrue(p, s.boots, s.log, id, n, key);
      forall j | j in t.nodes && j != id
        ensures CellsTrue(t.boots, t.log, j, t.nodes[j]) && OwnExact(p, t.log, j, t.nodes[j])
      {
        if NodeSlot(j, s.nodes[j].incarnation) == e.slot {
          NodeSlotInjective(j, s.nodes[j].incarnation, id, n.incarnation);
        }
        BystanderTrue(p, s.boots, s.log, j, s.nodes[j], e);
      }
      assert NodesTrue(p, t);
      TrueCountMonotone(s.log, e);
      assert MessagesTrue(t) by {
        forall m | m in t.sent ensures SaysTrue(t.log, m) {
          assert SaysTrue(s.log, m);
        }
      }
      assert EventTrue(t, e) by {
        assert e.slot == SlotOf(Boot(id, n.incarnation));
      }
      SameClocks(s, t);
    } else {
      RefuserTrue(p, s.boots, s.log, id, n, key);
      SameClocks(s, t);
    }
  }

  /** Events stay true while clocks do not go back and boots are only added. */
  lemma SameClocks(s: Cluster, t: Cluster)
    requires LogTrue(s) && s.boots <= t.boots && s.nodes.Keys <= t.nodes.Keys
    requires forall j :: j in s.nodes ==> s.nodes[j].clock <= t.nodes[j].clock
    ensures forall e :: e in s.log ==> EventTrue(t, e)
  {
    forall e | e in s.log ensures EventTrue(t, e) {
      assert EventTrue(s, e);
    }
  }

  /** A snapshot touches no count, and the message made from it says only the truth. */
  lemma SendInv(p: Params, s: Cluster, id: string, msg: SyncMessage, t: Cluster)
    requires Inv(p, s) && Next(p, s, Send(id, msg), t)
    ensures Inv(p, t)
  {
    var n := s.nodes[id];
    var x := RoundAt(n.store, id, n.clock, p.window, MAX_SNAPSHOT_BUCKET_ENTRIES, MAX_SNAPSHOT_BYTES);
    SnapshotKeepsChanged(n.store, x, "");
    SnapshotExact(n.store, x);
    SameCounts(p, s, id, t.nodes[id]);
    SnapshotSaysTrue(p, s, id, msg, x, TakeSnapshot(n.store, x).out);
    SameClocks(s, t);
  }

  /** A node whose counts and clock are as they were is as true as it was. */
  lemma SameCounts(p: Params, s: Cluster, id: string, n: Node)
    requires Inv(p, s) && id in s.nodes && n.store.keys == s.nodes[id].store.keys
    requires n.clock == s.nodes[id].clock && n.incarnation == s.nodes[id].incarnation
    ensures CellsTrue(s.boots, s.log, id, n) && OwnExact(p, s.log, id, n)
  {
    assert forall k :: CountsOf(n.store, k) == CountsOf(s.nodes[id].store, k);
  }

  lemma SnapshotSaysTrue(p: Params, s: Cluster, id: string, msg: SyncMessage, x: Round, out: seq<Item>)
    requires Inv(p, s) && id in s.nodes && msg.nodeId == id && msg.incarnation == s.nodes[id].incarnation
    requires x.keys == s.nodes[id].store.keys && x.slot == id && Exact(x, out) && Lists(msg, out)
    ensures SaysTrue(s.log, msg)
  {
    var n := s.nodes[id];
    forall i, b | 0 <= i < |msg.entries| && b in msg.entries[i].buckets
      ensures b.count <= TrueCount(s.log, NodeSlot(id, n.incarnation), msg.entries[i].key, b.epoch)
    {
      assert Cell(id, b.epoch) in x.Own(out[i].key);
      assert CellOf(n.store, out[i].key, Cell(id, b.epoch)) == b.count;
    }
  }

  /** What merging a message's entries can put in a cell. */
  lemma {:induction false} MergeAllCell(st: Store, slot: string, entries: seq<KeyEntry>, now: nat, k: string, c: Cell)
    ensures var r := AfterMergeAll(st, slot, entries, now);
            && (c.slot != slot ==>
                  (c in CountsOf(r, k) <==> c in CountsOf(st, k)) && CellOf(r, k, c) == CellOf(st, k, c))
            && (c in CountsOf(r, k) ==>
                  || (c in CountsOf(st, k) && CellOf(r, k, c) == CellOf(st, k, c))
                  || (c.slot == slot && exists i :: 0 <= i < |entries| && entries[i].key == k
                                                   && Bucket(c.epoch, CellOf(r, k, c)) in entries[i].buckets))
  {
    if entries != [] {
      var init, last := entries[..|entries| - 1], entries[|entries| - 1];
      MergeAllCell(st, slot, init, now, k, c);
      var mid := AfterMergeAll(st, slot, init, now);
      MergeIntoCell(CountsOf(mid, last.key), slot, last.buckets, now + FUTURE_SKEW_TOLERANCE_SECS, c);
      var r := AfterMergeAll(st, slot, entries, now);
      if c in CountsOf(r, k) && CellOf(r, k, c) != CellOf(mid, k, c) {
        assert entries[|entries| - 1].key == k && Bucket(c.epoch, CellOf(r, k, c)) in entries[|entries| - 1].buckets;
      } else if c in CountsOf(r, k) && c !in CountsOf(mid, k) {
        assert entries[|entries| - 1].key == k && Bucket(c.epoch, CellOf(r, k, c)) in entries[|entries| - 1].buckets;
      } else if i :| 0 <= i < |init| && init[i].key == k && Bucket(c.epoch, CellOf(mid, k, c)) in init[i].buckets {
        assert entries[i] == init[i];
      }
    }
  }

  lemma DeliverInv(p: Params, s: Cluster, id: string, msg: SyncMessage, t: Cluster)
    requires Inv(p, s) && Next(p, s, Deliver(id, msg), t)
    ensures Inv(p, t)
  {
    var n := s.nodes[id];
    var store' := t.nodes[id].store;
    SameClocks(s, t);
    if msg.nodeId == id {
      assert t.nodes[id] == n;
    } else {
      var slot := NodeSlot(msg.nodeId, msg.incarnation);
      var boot := Boot(msg.nodeId, msg.incarnation);
      assert boot in s.boots && slot == SlotOf(boot);
      assert IsPeerSlot(s.boots, id, slot);
      PeerSlotIsNotOwn(s, id, slot);
      assert SaysTrue(s.log, msg);
      forall k, c | c in CountsOf(store', k)
        ensures (c.slot == id || IsPeerSlot(t.boots, id, c.slot))
             && CellOf(store', k, c) <= TrueCount(t.log, Owner(id, n.incarnation, c.slot), k, c.epoch)
      {
        MergeAllCell(n.store, slot, msg.entries, n.clock, k, c);
      }
      forall k, x: nat | Cutoff(n.clock, p.window) <= x
        ensures CellOf(store', k, Cell(id, x)) == TrueCount(t.log, NodeSlot(id, n.incarnation), k, x)
      {
        MergeAllCell(n.store, slot, msg.entries, n.clock, k, Cell(id, x));
      }
      assert CellsTrue(t.boots, t.log, id, t.nodes[id]);
      assert OwnExact(p, t.log, id, t.nodes[id]);
    }
  }

  lemma PruneCell(st: Store, now: nat, window: nat, k: string, c: Cell)
    ensures c in CountsOf(AfterPrune(st, now, window), k) ==> c in CountsOf(st, k)
    ensures c in CountsOf(AfterPrune(st, now, window), k) || Cutoff(now, window) <= c.epoch ==>
              CellOf(AfterPrune(st, now, window), k, c) == CellOf(st, k, c)
  {
    if Cutoff(now, window) <= c.epoch && c in CountsOf(st, k) {
      assert c in PrunedCounts(st.keys[k], now, window);
    }
  }

  lemma PruneInv(p: Params, s: Cluster, id: string, t: Cluster)
    requires Inv(p, s) && Next(p, s, Prune(id), t)
    ensures Inv(p, t)
  {
    var n := s.nodes[id];
    forall k, c ensures
        && (c in CountsOf(t.nodes[id].store, k) ==> c in CountsOf(n.store, k))
        && (c in CountsOf(t.nodes[id].store, k) || Cutoff(n.clock, p.window) <= c.epoch ==>
              CellOf(t.nodes[id].store, k, c) == CellOf(n.store, k, c))
    {
      PruneCell(n.store, n.clock, p.window, k, c);
    }
    assert CellsTrue(t.boots, t.log, id, t.nodes[id]);
    assert OwnExact(p, t.log, id, t.nodes[id]);
    SameClocks(s, t);
  }

  lemma LaterClock(p: Params, boots: set<Boot>, log: seq<Event>, id: string, n: Node, m: Node)
    requires CellsTrue(boots, log, id, n) && OwnExact(p, log, id, n)
    requires n.clock <= m.clock && m == n.(clock := m.clock)
    ensures CellsTrue(boots, log, id, m) && OwnExact(p, log, id, m)
  {
    forall k, e: nat | Cutoff(m.clock, p.window) <= e
      ensures CellOf(m.store, k, Cell(id, e)) == TrueCount(log, NodeSlot(id, m.incarnation), k, e)
    {
      assert Cutoff(n.clock, p.window) <= e;
    }
  }

  lemma TickInv(p: Params, s: Cluster, clocks: map<string, nat>, t: Cluster)
    requires Inv(p, s) && Next(p, s, Tick(clocks), t)
    ensures Inv(p, t)
  {
    forall id | id in t.nodes
      ensures CellsTrue(t.boots, t.log, id, t.nodes[id]) && OwnExact(p, t.log, id, t.nodes[id])
    {
      assert CellsTrue(s.boots, s.log, id, s.nodes[id]) && OwnExact(p, s.log, id, s.nodes[id]);
      LaterClock(p, s.boots, s.log, id, s.nodes[id], t.nodes[id]);
    }
    SameClocks(s, t);
  }

  lemma RestartInv(p: Params, s: Cluster, id: string, incarnation: nat, t: Cluster)
    requires Inv(p, s) && Next(p, s, Restart(id, incarnation), t)
    ensures Inv(p, t)
  {
    var slot := NodeSlot(id, incarnation);
    forall k, x: nat ensures TrueCount(s.log, slot, k, x) == 0 {
      if Event(slot, k, x) in s.log {
        assert EventTrue(s, Event(slot, k, x));
        var b :| b in s.boots && slot == SlotOf(b);
        NodeSlotInjective(b.id, b.incarnation, id, incarnation);
      } else {
        TrueCountZero(s.log, slot, k, x);
      }
    }
    assert CellsTrue(t.boots, t.log, id, t.nodes[id]) && OwnExact(p, t.log, id, t.nodes[id]);
    forall j | j in t.nodes && j != id
      ensures CellsTrue(t.boots, t.log, j, t.nodes[j]) && OwnExact(p, t.log, j, t.nodes[j])
    {
      forall q | IsPeerSlot(s.boots, j, q) ensures IsPeerSlot(t.boots, j, q) {
        var b :| b in s.boots && b.id != j && q == SlotOf(b);
        assert b in t.boots;
      }
    }
    SameClocks(s, t);
  }

  lemma NextInv(p: Params, s: Cluster, step: Step, t: Cluster)
    requires Inv(p, s) && Next(p, s, step, t)
    ensures Inv(p, t)
  {
    match step
    case Admit(id, key) => AdmitInv(p, s, id, key, t);
    case Send(id, msg) => SendInv(p, s, id, msg, t);
    case Deliver(id, msg) => DeliverInv(p, s, id, msg, t);
    case Prune(id) => PruneInv(p, s, id, t);
    case Tick(clocks) => TickInv(p, s, clocks, t);
    case Restart(id, incarnation) => RestartInv(p, s, id, incarnation, t);
  }

  /** Every state of every run keeps the invariant. */
  lemma {:induction false} RunInv(p: Params, states: seq<Cluster>, steps: seq<Step>, i: nat)
    requires IsRun(p, states, steps) && i < |states|
    ensures Inv(p, states[i])
  {
    if i == 0 {
      InitInv(p, states[0]);
    } else {
      RunInv(p, states, steps, i - 1);
      NextInv(p, states[i - 1], steps[i - 1], states[i]);
    }
  }
}
