/** What a node sees against what truly happened. A node's windowed total and the cluster's true
    total are both split boot by boot, and the parts are compared. */
module ClusterViews {
  import opened Sums
  import opened Slots
  import opened Counters
  import opened Clusters

  /** How many admissions one boot truly made for a key in a span of seconds. */
  function CountSlot(log: seq<Event>, slot: string, key: string, lo: nat, hi: nat): nat {
    if log == [] then 0
    else
      var e := log[|log| - 1];
      CountSlot(log[..|log| - 1], slot, key, lo, hi) + if e.slot == slot && Counted(e, key, lo, hi) then 1 else 0
  }

  function CellsOfSlot(w: KeyCounts, slot: string): KeyCounts {
    map c | c in w && c.slot == slot :: w[c]
  }

  /** What a node believes the boot filed under a slot admitted in the window. */
  ghost function ViewSum(kc: KeyCounts, slot: string, now: nat, window: nat): nat {
    MapSum(CellsOfSlot(Windowed(kc, now, window), slot))
  }

  // ---- One boot ----

  function SlotMap(log: seq<Event>, slot: string, key: string, name: string, lo: nat, hi: nat): KeyCounts {
    map c | c in (set t: nat | lo <= t <= hi :: Cell(name, t)) :: TrueCount(log, slot, key, c.epoch)
  }

  lemma {:induction false} SlotMapSum(log: seq<Event>, slot: string, key: string, name: string, lo: nat, hi: nat)
    ensures MapSum(SlotMap(log, slot, key, name, lo, hi)) == CountSlot(log, slot, key, lo, hi)
    decreases |log|
  {
    var m := SlotMap(log, slot, key, name, lo, hi);
    if log == [] {
      MapSumDropZeros(map[], m);
    } else {
      var init, e := log[..|log| - 1], log[|log| - 1];
      var before := SlotMap(init, slot, key, name, lo, hi);
      SlotMapSum(init, slot, key, name, lo, hi);
      if e.slot == slot && Counted(e, key, lo, hi) {
        var c := Cell(name, e.time);
        assert m == before[c := before[c] + 1];
        MapSumBump(before, c);
      } else {
        assert m == before;
      }
    }
  }

  /** A node knows its own in-window admissions exactly. */
  lemma OwnSumExact(p: Params, s: Cluster, id: string, key: string)
    requires Inv(p, s) && id in s.nodes
    ensures var n := s.nodes[id];
            ViewSum(CountsOf(n.store, key), id, n.clock, p.window) ==
            CountSlot(s.log, NodeSlot(id, n.incarnation), key, Cutoff(n.clock, p.window), n.clock)
  {
    var n := s.nodes[id];
    var own := NodeSlot(id, n.incarnation);
    var lo := Cutoff(n.clock, p.window);
    var seen := CellsOfSlot(Windowed(CountsOf(n.store, key), n.clock, p.window), id);
    var truth := SlotMap(s.log, own, key, id, lo, n.clock);
    SlotMapSum(s.log, own, key, id, lo, n.clock);
    forall c | c in truth ensures truth[c] == CellOf(n.store, key, c) {
      assert c == Cell(id, c.epoch);
    }
    MapSumDropZeros(seen, truth);
  }

  /** A node never believes a peer admitted more than it did. */
  lemma PeerSumBelow(p: Params, s: Cluster, id: string, b: Boot, key: string, now: nat)
    requires Inv(p, s) && id in s.nodes && b in s.boots && b.id != id
    ensures ViewSum(CountsOf(s.nodes[id].store, key), SlotOf(b), now, p.window) <=
            CountSlot(s.log, SlotOf(b), key, Cutoff(now, p.window), now)
  {
    var n := s.nodes[id];
    assert IsPeerSlot(s.boots, id, SlotOf(b));
    PeerSlotIsNotOwn(s, id, SlotOf(b));
    var seen := CellsOfSlot(Windowed(CountsOf(n.store, key), now, p.window), SlotOf(b));
    var truth := SlotMap(s.log, SlotOf(b), key, SlotOf(b), Cutoff(now, p.window), now);
    SlotMapSum(s.log, SlotOf(b), key, SlotOf(b), Cutoff(now, p.window), now);
    assert CellsTrue(s.boots, s.log, id, n);
    forall c | c in seen ensures c in truth && seen[c] <= truth[c] {
      assert c == Cell(SlotOf(b), c.epoch);
      assert CellOf(n.store, key, c) <= TrueCount(s.log, Owner(id, n.incarnation, c.slot), key, c.epoch);
    }
    MapSumLe(seen, truth);
  }

  lemma OwnSumBelow(p: Params, s: Cluster, id: string, key: string, now: nat)
    requires Inv(p, s) && id in s.nodes
    ensures var n := s.nodes[id];
            ViewSum(CountsOf(n.store, key), id, now, p.window) <=
            CountSlot(s.log, NodeSlot(id, n.incarnation), key, Cutoff(now, p.window), now)
  {
    var n := s.nodes[id];
    var own := NodeSlot(id, n.incarnation);
    var seen := CellsOfSlot(Windowed(CountsOf(n.store, key), now, p.window), id);
    var truth := SlotMap(s.log, own, key, id, Cutoff(now, p.window), now);
    SlotMapSum(s.log, own, key, id, Cutoff(now, p.window), now);
    assert CellsTrue(s.boots, s.log, id, n);
    forall c | c in seen ensures c in truth && seen[c] <= truth[c] {
      assert c == Cell(id, c.epoch);
    }
    MapSumLe(seen, truth);
  }

  // ---- All boots ----

  ghost function PartSums(w: KeyCounts, names: map<Boot, string>): map<Boot, nat> {
    map b | b in names :: MapSum(CellsOfSlot(w, names[b]))
  }

  ghost predicate OneToOne(names: map<Boot, string>) {
    forall a, b :: a in names && b in names && names[a] == names[b] ==> a == b
  }

  function WithoutSlot(w: KeyCounts, slot: string): KeyCounts {
    map c | c in w && c.slot != slot :: w[c]
  }

  lemma SplitSlot(w: KeyCounts, slot: string)
    ensures MapSum(w) == MapSum(CellsOfSlot(w, slot)) + MapSum(WithoutSlot(w, slot))
  {
    var part, rest := CellsOfSlot(w, slot), WithoutSlot(w, slot);
    assert w == part + rest;
    MapSumDisjointUnion(part, rest);
  }

  lemma PartSumsWithout(w: KeyCounts, names: map<Boot, string>, b: Boot)
    requires OneToOne(names) && b in names
    ensures PartSums(w, names) - {b} == PartSums(WithoutSlot(w, names[b]), names - {b})
  {
    var left, rest := PartSums(w, names) - {b}, PartSums(WithoutSlot(w, names[b]), names - {b});
    assert left.Keys == rest.Keys;
    forall a | a in names && a != b
      ensures left[a] == rest[a]
    {
      assert names[a] != names[b];
      CellsOfOther(w, names[a], names[b]);
    }
  }

  lemma CellsOfOther(w: KeyCounts, slot: string, other: string)
    requires slot != other
    ensures CellsOfSlot(WithoutSlot(w, other), slot) == CellsOfSlot(w, slot)
  {
  }

  ghost predicate Named(w: KeyCounts, names: map<Boot, string>) {
    forall c :: c in w ==> exists b :: b in names && names[b] == c.slot
  }

  lemma NamedWithout(w: KeyCounts, names: map<Boot, string>, b: Boot)
    requires Named(w, names) && b in names
    ensures Named(WithoutSlot(w, names[b]), names - {b})
  {
    forall c | c in WithoutSlot(w, names[b]) ensures exists a :: a in names - {b} && (names - {b})[a] == c.slot {
      var a :| a in names && names[a] == c.slot;
      assert a in names - {b};
    }
  }

  /** A window total is the sum of its per-boot parts. */
  lemma {:induction false} TotalIsPartSums(w: KeyCounts, names: map<Boot, string>)
    requires OneToOne(names) && Named(w, names)
    ensures MapSum(w) == MapSum(PartSums(w, names))
    decreases |names|
  {
    if names == map[] {
      assert w == map[];
      assert PartSums(w, names) == map[];
    } else {
      var b :| b in names;
      var rest := WithoutSlot(w, names[b]);
      SplitSlot(w, names[b]);
      MapSizeRemove(names, b);
      PartSumsWithout(w, names, b);
      NamedWithout(w, names, b);
      TotalIsPartSums(rest, names - {b});
      MapSumRemove(PartSums(w, names), b);
    }
  }

  ghost function TrueSums(log: seq<Event>, key: string, lo: nat, hi: nat, boots: set<Boot>): map<Boot, nat> {
    map b | b in boots :: CountSlot(log, SlotOf(b), key, lo, hi)
  }

  ghost predicate NamesClean(boots: set<Boot>) {
    forall b :: b in boots ==> NUL !in b.id
  }

  lemma BumpAt(before: map<Boot, nat>, after: map<Boot, nat>, b: Boot)
    requires b in before && after.Keys == before.Keys
    requires forall a :: a in before ==> after[a] == before[a] + if a == b then 1 else 0
    ensures MapSum(after) == MapSum(before) + 1
  {
    assert after == before[b := before[b] + 1];
    MapSumBump(before, b);
  }

  lemma TrueSumsStep(init: seq<Event>, e: Event, key: string, lo: nat, hi: nat, boots: set<Boot>)
    requires NamesClean(boots) && IsBootSlot(boots, e.slot)
    ensures MapSum(TrueSums(init + [e], key, lo, hi, boots)) ==
            MapSum(TrueSums(init, key, lo, hi, boots)) + if Counted(e, key, lo, hi) then 1 else 0
  {
    var b :| b in boots && e.slot == SlotOf(b);
    var before, after := TrueSums(init, key, lo, hi, boots), TrueSums(init + [e], key, lo, hi, boots);
    forall a | a in boots
      ensures after[a] == before[a] + if a == b && Counted(e, key, lo, hi) then 1 else 0
    {
      BootCountSnoc(init, e, a, b, key, lo, hi);
    }
    if Counted(e, key, lo, hi) {
      BumpAt(before, after, b);
    } else {
      assert after == before;
    }
  }

  lemma BootCountSnoc(init: seq<Event>, e: Event, a: Boot, b: Boot, key: string, lo: nat, hi: nat)
    requires NUL !in a.id && NUL !in b.id && e.slot == SlotOf(b)
    ensures CountSlot(init + [e], SlotOf(a), key, lo, hi) ==
            CountSlot(init, SlotOf(a), key, lo, hi) + if a == b && Counted(e, key, lo, hi) then 1 else 0
  {
    CountSlotSnoc(init, e, SlotOf(a), key, lo, hi);
    if SlotOf(a) == e.slot {
      NodeSlotInjective(a.id, a.incarnation, b.id, b.incarnation);
    }
  }

  lemma CountSlotSnoc(init: seq<Event>, e: Event, slot: string, key: string, lo: nat, hi: nat)
    ensures CountSlot(init + [e], slot, key, lo, hi) ==
            CountSlot(init, slot, key, lo, hi) + if e.slot == slot && Counted(e, key, lo, hi) then 1 else 0
  {
    assert (init + [e])[..|init|] == init;
  }

  /** The cluster's true total is the sum of what its boots admitted. */
  lemma {:induction false} CountIsTrueSums(log: seq<Event>, key: string, lo: nat, hi: nat, boots: set<Boot>)
    requires NamesClean(boots)
    requires forall e :: e in log ==> IsBootSlot(boots, e.slot)
    ensures CountIn(log, key, lo, hi) == MapSum(TrueSums(log, key, lo, hi, boots))
    decreases |log|
  {
    if log == [] {
      MapSumDropZeros(map[], TrueSums(log, key, lo, hi, boots));
    } else {
      var init, e := log[..|log| - 1], log[|log| - 1];
      assert log == init + [e];
      CountIsTrueSums(init, key, lo, hi, boots);
      TrueSumsStep(init, e, key, lo, hi, boots);
    }
  }

  /** The names under which a node files the boots whose counts it can hold: its own and its peers'. */
  function NamesSeenBy(s: Cluster, id: string): map<Boot, string>
    requires id in s.nodes
  {
    var own := Boot(id, s.nodes[id].incarnation);
    map b | b in s.boots && (b == own || b.id != id) :: if b == own then id else SlotOf(b)
  }

  /** A node's total, split boot by boot. */
  ghost function ViewSums(p: Params, s: Cluster, id: string, key: string, now: nat): map<Boot, nat>
    requires id in s.nodes
  {
    PartSums(Windowed(CountsOf(s.nodes[id].store, key), now, p.window), NamesSeenBy(s, id))
  }

  lemma TotalByBoot(p: Params, s: Cluster, id: string, key: string, now: nat)
    requires Inv(p, s) && id in s.nodes
    ensures Total(CountsOf(s.nodes[id].store, key), now, p.window) == MapSum(ViewSums(p, s, id, key, now))
  {
    var n := s.nodes[id];
    var names := NamesSeenBy(s, id);
    var w := Windowed(CountsOf(n.store, key), now, p.window);
    forall a, b | a in names && b in names && names[a] == names[b] ensures a == b {
      NodeSlotInjective(a.id, if a == Boot(id, n.incarnation) then 0 else a.incarnation,
                        b.id, if b == Boot(id, n.incarnation) then 0 else b.incarnation);
    }
    assert CellsTrue(s.boots, s.log, id, n);
    forall c | c in w ensures exists b :: b in names && names[b] == c.slot {
      if c.slot == id {
        assert Boot(id, n.incarnation) in names && names[Boot(id, n.incarnation)] == id;
      } else {
        assert IsPeerSlot(s.boots, id, c.slot);
        var b :| b in s.boots && b.id != id && c.slot == SlotOf(b);
        assert b in names && names[b] == c.slot;
      }
    }
    TotalIsPartSums(w, names);
  }

  lemma CountByBoot(p: Params, s: Cluster, key: string, lo: nat, hi: nat)
    requires Inv(p, s)
    ensures CountIn(s.log, key, lo, hi) == MapSum(TrueSums(s.log, key, lo, hi, s.boots))
  {
    forall e | e in s.log ensures IsBootSlot(s.boots, e.slot) {
      assert EventTrue(s, e);
    }
    CountIsTrueSums(s.log, key, lo, hi, s.boots);
  }

  lemma ViewSumsBelow(p: Params, s: Cluster, id: string, key: string, now: nat, b: Boot)
    requires Inv(p, s) && id in s.nodes && b in NamesSeenBy(s, id)
    ensures ViewSums(p, s, id, key, now)[b] <= CountSlot(s.log, SlotOf(b), key, Cutoff(now, p.window), now)
  {
    if b == Boot(id, s.nodes[id].incarnation) {
      OwnSumBelow(p, s, id, key, now);
    } else {
      PeerSumBelow(p, s, id, b, key, now);
    }
  }

  /** In every state of every run, no node's windowed total exceeds the true one, whatever the window. */
  lemma NoOverCount(p: Params, states: seq<Cluster>, steps: seq<Step>, i: nat, id: string, key: string, now: nat)
    requires IsRun(p, states, steps) && i < |states| && id in states[i].nodes
    ensures Total(CountsOf(states[i].nodes[id].store, key), now, p.window) <=
            CountIn(states[i].log, key, Cutoff(now, p.window), now)
  {
    var s := states[i];
    RunInv(p, states, steps, i);
    TotalByBoot(p, s, id, key, now);
    CountByBoot(p, s, key, Cutoff(now, p.window), now);
    var view, truth := ViewSums(p, s, id, key, now), TrueSums(s.log, key, Cutoff(now, p.window), now, s.boots);
    forall b | b in view ensures b in truth && view[b] <= truth[b] {
      ViewSumsBelow(p, s, id, key, now, b);
    }
    MapSumLe(view, truth);
  }

  // ---- A synchronised node is exact ----

  /** The node holds every in-window count of every boot that has one, save that no earlier boot of
      its own has any: a node refuses its own id, so it can never learn those. */
  ghost predicate Synced(p: Params, s: Cluster, id: string, key: string)
    requires id in s.nodes
  {
    var n := s.nodes[id];
    && (forall b, t: nat :: b in s.boots && b.id != id && InWindow(t, n.clock, p.window) ==>
          CellOf(n.store, key, Cell(SlotOf(b), t)) == TrueCount(s.log, SlotOf(b), key, t))
    && (forall b :: b in s.boots && b.id == id && b.incarnation != n.incarnation ==>
          CountSlot(s.log, SlotOf(b), key, Cutoff(n.clock, p.window), n.clock) == 0)
  }

  lemma PeerSumExact(p: Params, s: Cluster, id: string, b: Boot, key: string)
    requires Inv(p, s) && id in s.nodes && Synced(p, s, id, key) && b in s.boots && b.id != id
    ensures var n := s.nodes[id];
            ViewSum(CountsOf(n.store, key), SlotOf(b), n.clock, p.window) ==
            CountSlot(s.log, SlotOf(b), key, Cutoff(n.clock, p.window), n.clock)
  {
    var n := s.nodes[id];
    var lo := Cutoff(n.clock, p.window);
    var seen := CellsOfSlot(Windowed(CountsOf(n.store, key), n.clock, p.window), SlotOf(b));
    var truth := SlotMap(s.log, SlotOf(b), key, SlotOf(b), lo, n.clock);
    SlotMapSum(s.log, SlotOf(b), key, SlotOf(b), lo, n.clock);
    forall c | c in truth ensures truth[c] == CellOf(n.store, key, c) {
      assert c == Cell(SlotOf(b), c.epoch) && InWindow(c.epoch, n.clock, p.window);
    }
    MapSumDropZeros(seen, truth);
  }

  /** A node that has received every peer's latest in-window cells sees exactly the true cluster total. */
  lemma SyncedIsExact(p: Params, s: Cluster, id: string, key: string)
    requires Inv(p, s) && id in s.nodes && Synced(p, s, id, key)
    ensures var n := s.nodes[id];
            Total(CountsOf(n.store, key), n.clock, p.window) ==
            CountIn(s.log, key, Cutoff(n.clock, p.window), n.clock)
  {
    var n := s.nodes[id];
    TotalByBoot(p, s, id, key, n.clock);
    CountByBoot(p, s, key, Cutoff(n.clock, p.window), n.clock);
    var view := ViewSums(p, s, id, key, n.clock);
    var truth := TrueSums(s.log, key, Cutoff(n.clock, p.window), n.clock, s.boots);
    forall b | b in view ensures b in truth && view[b] == truth[b] {
      if b == Boot(id, n.incarnation) {
        OwnSumExact(p, s, id, key);
      } else {
        PeerSumExact(p, s, id, b, key);
      }
    }
    MapSumDropZeros(view, truth);
  }
}
