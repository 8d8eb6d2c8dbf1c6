/** How far past the budget the cluster can go, whatever the network does: each boot keeps to the limit by itself, so
    the cluster admits at most one limit per boot that admits at all. */
module Overshoot {
  import opened Sums
  import opened Slots
  import opened Counters
  import opened Clusters
  import opened ClusterViews

  // ---- Each boot keeps to the limit ----

  lemma {:induction false} CountSlotWithin(log: seq<Event>, slot: string, key: string, lo: nat, hi: nat, lo': nat,
                                           hi': nat)
    requires forall e :: e in log && e.slot == slot && Counted(e, key, lo, hi) ==> Counted(e, key, lo', hi')
    ensures CountSlot(log, slot, key, lo, hi) <= CountSlot(log, slot, key, lo', hi')
  {
    if log != [] {
      assert log[|log| - 1] in log;
      CountSlotWithin(log[..|log| - 1], slot, key, lo, hi, lo', hi');
    }
  }

  /** A boot's own events are no later than its node's clock. */
  lemma OwnEventsPast(p: Params, s: Cluster, id: string, e: Event)
    requires Inv(p, s) && id in s.nodes && e in s.log && e.slot == NodeSlot(id, s.nodes[id].incarnation)
    ensures e.time <= s.nodes[id].clock
  {
    assert EventTrue(s, e);
    var b :| b in s.boots && b.id in s.nodes && e.slot == SlotOf(b) && e.time <= s.nodes[b.id].clock;
    NodeSlotInjective(b.id, b.incarnation, id, s.nodes[id].incarnation);
  }

  lemma OwnSumBelowTotal(kc: KeyCounts, slot: string, now: nat, window: nat)
    ensures ViewSum(kc, slot, now, window) <= Total(kc, now, window)
  {
    MapSumLe(CellsOfSlot(Windowed(kc, now, window), slot), Windowed(kc, now, window));
  }

  lemma TrackedKeyLimit(p: Params, st: Store, key: string)
    ensures p.LimitOf(TrackedKey(st, key)) == p.LimitOf(key)
  {
    OverflowKeyStaysInListener(key);
  }

  ghost predicate BootWithin(p: Params, log: seq<Event>, slot: string) {
    forall k, t: nat :: CountSlot(log, slot, k, Cutoff(t, p.window), t) <= p.LimitOf(k)
  }

  ghost predicate EveryBootWithin(p: Params, s: Cluster) {
    forall b :: b in s.boots ==> BootWithin(p, s.log, SlotOf(b))
  }

  /** Before an admission the admitting boot was below the limit in every window that will count it. */
  lemma AdmitterBelowLimit(p: Params, s: Cluster, id: string, key: string, t: nat)
    requires Inv(p, s) && id in s.nodes
    requires Admits(s.nodes[id].store, key, s.nodes[id].clock, p.window, p.LimitOf(key))
    requires InWindow(s.nodes[id].clock, t, p.window)
    ensures var n := s.nodes[id];
            var k := TrackedKey(n.store, key);
            CountSlot(s.log, NodeSlot(id, n.incarnation), k, Cutoff(t, p.window), t) < p.LimitOf(k)
  {
    var n := s.nodes[id];
    var own, k := NodeSlot(id, n.incarnation), TrackedKey(n.store, key);
    TrackedKeyLimit(p, n.store, key);
    OwnSumExact(p, s, id, k);
    OwnSumBelowTotal(CountsOf(n.store, k), id, n.clock, p.window);
    forall e | e in s.log && e.slot == own && Counted(e, k, Cutoff(t, p.window), t)
      ensures Counted(e, k, Cutoff(n.clock, p.window), n.clock)
    {
      OwnEventsPast(p, s, id, e);
    }
    CountSlotWithin(s.log, own, k, Cutoff(t, p.window), t, Cutoff(n.clock, p.window), n.clock);
  }

  lemma {:induction false} CountSlotZero(log: seq<Event>, slot: string, key: string, lo: nat, hi: nat)
    requires forall e :: e in log ==> e.slot != slot
    ensures CountSlot(log, slot, key, lo, hi) == 0
  {
    if log != [] {
      assert log[|log| - 1] in log;
      CountSlotZero(log[..|log| - 1], slot, key, lo, hi);
    }
  }

  lemma AdmitKeepsWithin(p: Params, s: Cluster, id: string, key: string, t: Cluster)
    requires Inv(p, s) && EveryBootWithin(p, s) && Next(p, s, Admit(id, key), t)
    ensures EveryBootWithin(p, t)
  {
    var n := s.nodes[id];
    if Admits(n.store, key, n.clock, p.window, p.LimitOf(key)) {
      var e := Event(NodeSlot(id, n.incarnation), TrackedKey(n.store, key), n.clock);
      forall b, k, u: nat | b in t.boots
        ensures CountSlot(t.log, SlotOf(b), k, Cutoff(u, p.window), u) <= p.LimitOf(k)
      {
        assert BootWithin(p, s.log, SlotOf(b));
        CountSlotSnoc(s.log, e, SlotOf(b), k, Cutoff(u, p.window), u);
        if e.slot == SlotOf(b) && Counted(e, k, Cutoff(u, p.window), u) {
          AdmitterBelowLimit(p, s, id, key, u);
        }
      }
    }
  }

  lemma NextKeepsWithin(p: Params, s: Cluster, step: Step, t: Cluster)
    requires Inv(p, s) && EveryBootWithin(p, s) && Next(p, s, step, t)
    ensures EveryBootWithin(p, t)
  {
    match step
    case Admit(id, key) => AdmitKeepsWithin(p, s, id, key, t);
    case Restart(id, incarnation) =>
      var slot := NodeSlot(id, incarnation);
      forall e | e in s.log ensures e.slot != slot {
        assert EventTrue(s, e);
        var b :| b in s.boots && e.slot == SlotOf(b);
        if e.slot == slot {
          NodeSlotInjective(b.id, b.incarnation, id, incarnation);
        }
      }
      forall k, u: nat ensures CountSlot(t.log, slot, k, Cutoff(u, p.window), u) <= p.LimitOf(k) {
        CountSlotZero(s.log, slot, k, Cutoff(u, p.window), u);
      }
    case _ =>
  }

  lemma InitWithin(p: Params, s: Cluster)
    requires Init(s)
    ensures EveryBootWithin(p, s)
  {
  }

  lemma StepKeepsWithin(p: Params, states: seq<Cluster>, steps: seq<Step>, i: nat)
    requires IsRun(p, states, steps) && i < |steps| && EveryBootWithin(p, states[i])
    ensures EveryBootWithin(p, states[i + 1])
  {
    RunInv(p, states, steps, i);
    NextKeepsWithin(p, states[i], steps[i], states[i + 1]);
  }

  lemma {:induction false} RunKeepsWithin(p: Params, states: seq<Cluster>, steps: seq<Step>, i: nat)
    requires IsRun(p, states, steps) && i < |states|
    ensures EveryBootWithin(p, states[i])
  {
    if i == 0 {
      InitWithin(p, states[0]);
    } else {
      RunKeepsWithin(p, states, steps, i - 1);
      StepKeepsWithin(p, states, steps, i - 1);
    }
  }

  /** In every run, no boot admits more than the limit for a key in any window. */
  lemma BootNeverOverLimit(p: Params, states: seq<Cluster>, steps: seq<Step>, i: nat, b: Boot, key: string, t: nat)
    requires IsRun(p, states, steps) && i < |states| && b in states[i].boots
    ensures CountSlot(states[i].log, SlotOf(b), key, Cutoff(t, p.window), t) <= p.LimitOf(key)
  {
    RunKeepsWithin(p, states, steps, i);
    assert BootWithin(p, states[i].log, SlotOf(b));
  }

  // ---- The cluster, boot by boot ----

  /** The boots that admitted the key within a span of seconds. */
  ghost function ActiveBoots(s: Cluster, key: string, lo: nat, hi: nat): set<Boot> {
    set b | b in s.boots && 0 < CountSlot(s.log, SlotOf(b), key, lo, hi)
  }

  ghost function ActiveSums(s: Cluster, key: string, lo: nat, hi: nat): map<Boot, nat> {
    map b | b in ActiveBoots(s, key, lo, hi) :: CountSlot(s.log, SlotOf(b), key, lo, hi)
  }

  /** The true total is what the active boots admitted. */
  lemma CountByActive(p: Params, s: Cluster, key: string, lo: nat, hi: nat)
    requires Inv(p, s)
    ensures CountIn(s.log, key, lo, hi) == MapSum(ActiveSums(s, key, lo, hi))
    ensures ActiveSums(s, key, lo, hi).Keys == ActiveBoots(s, key, lo, hi)
  {
    CountByBoot(p, s, key, lo, hi);
    MapSumDropZeros(ActiveSums(s, key, lo, hi), TrueSums(s.log, key, lo, hi, s.boots));
  }

  /** In every run, under any loss, delay, partition and restarts, the cluster admits in a window at most one limit for
      each boot that admits anything in it. */
  lemma ClusterNeverOverBoots(p: Params, states: seq<Cluster>, steps: seq<Step>, i: nat, key: string, t: nat)
    requires IsRun(p, states, steps) && i < |states|
    ensures CountIn(states[i].log, key, Cutoff(t, p.window), t) <=
            |ActiveBoots(states[i], key, Cutoff(t, p.window), t)| * p.LimitOf(key)
  {
    var s, lo := states[i], Cutoff(t, p.window);
    RunInv(p, states, steps, i);
    CountByActive(p, s, key, lo, t);
    var sums := ActiveSums(s, key, lo, t);
    forall b | b in sums
      ensures sums[b] <= p.LimitOf(key)
    {
      BootNeverOverLimit(p, states, steps, i, b, key, t);
    }
    BoundByKeys(sums, ActiveBoots(s, key, lo, t), p.LimitOf(key));
  }

  lemma BoundByKeys(m: map<Boot, nat>, keys: set<Boot>, c: nat)
    requires m.Keys == keys && forall b :: b in m ==> m[b] <= c
    ensures MapSum(m) <= |keys| * c
  {
    MapSumBound(m, c);
  }

  lemma CountInAppend(log: seq<Event>, e: Event, key: string, lo: nat, hi: nat)
    ensures CountIn(log + [e], key, lo, hi) == CountIn(log, key, lo, hi) + if Counted(e, key, lo, hi) then 1 else 0
  {
    assert (log + [e])[..|log|] == log;
  }
}
