/** The bounds are attained: before any gossip arrives, every boot of every node can spend a whole limit within one
    second. So the published convergence bound holds for every run exactly when it leaves room for that. */
module BoundsAttained {
  import opened Sums
  import opened Slots
  import opened Counters
  import opened Clusters
  import opened Overshoot
  import opened LagBounds

  ghost predicate NoRestarts(steps: seq<Step>) {
    forall i :: 0 <= i < |steps| ==> !steps[i].Restart?
  }

  lemma RecordTotal(kc: KeyCounts, slot: string, now: nat, window: nat)
    ensures Total(Recorded(kc, slot, now), now, window) == Total(kc, now, window) + 1
  {
    var c := Cell(slot, now);
    var w := Windowed(kc, now, window);
    assert Windowed(Recorded(kc, slot, now), now, window) == w[c := Count(kc, c) + 1];
    if c in kc {
      MapSumBump(w, c);
    } else {
      MapSumInsert(w, c, 1);
      assert w - {c} == w;
    }
  }

  lemma ExtendRun(p: Params, states: seq<Cluster>, steps: seq<Step>, step: Step, t: Cluster)
    requires IsRun(p, states, steps) && Next(p, states[|steps|], step, t)
    ensures IsRun(p, states + [t], steps + [step])
  {
    forall i | 0 <= i < |steps + [step]|
      ensures Next(p, (states + [t])[i], (steps + [step])[i], (states + [t])[i + 1])
    {
      if i < |steps| {
        assert Next(p, states[i], steps[i], states[i + 1]);
      }
    }
  }

  /** Only node `id` moved on, and it kept its clock. */
  ghost predicate OnlyNode(s: Cluster, t: Cluster, id: string) {
    && t.nodes.Keys == s.nodes.Keys && id in s.nodes && t.boots == s.boots
    && t.nodes[id].clock == s.nodes[id].clock
    && forall j :: j in s.nodes && j != id ==> t.nodes[j] == s.nodes[j]
  }

  /** Every node's clock reads `clock` in every state: the whole run is a burst inside one second. */
  ghost predicate OneSecond(states: seq<Cluster>, clock: nat) {
    forall i :: 0 <= i < |states| ==> ClocksAt(states[i], clock)
  }

  ghost predicate ClocksAt(s: Cluster, clock: nat) {
    forall id :: id in s.nodes ==> s.nodes[id].clock == clock
  }

  /** The run goes on from another, and restarts nobody on the way. */
  ghost predicate Continues(steps: seq<Step>, steps': seq<Step>) {
    && |steps| <= |steps'| && steps'[..|steps|] == steps
    && forall i :: |steps| <= i < |steps'| ==> !steps'[i].Restart?
  }

  /** Before it hears from anyone, a node admits as many requests as its own view still allows. */
  lemma {:induction false} AdmitMore(p: Params, states: seq<Cluster>, steps: seq<Step>, id: string, key: string,
                                     clock: nat, need: nat)
    returns (states': seq<Cluster>, steps': seq<Step>)
    requires IsRun(p, states, steps) && OneSecond(states, clock) && id in states[|steps|].nodes
    requires HasRoom(states[|steps|].nodes[id].store, key)
    requires Total(CountsOf(states[|steps|].nodes[id].store, key), clock, p.window) + need <= p.LimitOf(key)
    ensures IsRun(p, states', steps') && OneSecond(states', clock) && states'[0] == states[0]
    ensures Continues(steps, steps') && OnlyNode(states[|steps|], states'[|steps'|], id)
    ensures CountIn(states'[|steps'|].log, key, Cutoff(clock, p.window), clock) ==
            CountIn(states[|steps|].log, key, Cutoff(clock, p.window), clock) + need
    decreases need
  {
    if need == 0 {
      states', steps' := states, steps;
    } else {
      var ss, es := AdmitOnce(p, states, steps, id, key, clock);
      states', steps' := AdmitMore(p, ss, es, id, key, clock, need - 1);
    }
  }

  lemma AdmitOnce(p: Params, states: seq<Cluster>, steps: seq<Step>, id: string, key: string, clock: nat)
    returns (states': seq<Cluster>, steps': seq<Step>)
    requires IsRun(p, states, steps) && OneSecond(states, clock) && id in states[|steps|].nodes
    requires HasRoom(states[|steps|].nodes[id].store, key)
    requires Total(CountsOf(states[|steps|].nodes[id].store, key), clock, p.window) < p.LimitOf(key)
    ensures IsRun(p, states', steps') && OneSecond(states', clock) && states'[0] == states[0]
    ensures steps' == steps + [Admit(id, key)] && OnlyNode(states[|steps|], states'[|steps'|], id)
    ensures HasRoom(states'[|steps'|].nodes[id].store, key)
    ensures Total(CountsOf(states'[|steps'|].nodes[id].store, key), clock, p.window) ==
            Total(CountsOf(states[|steps|].nodes[id].store, key), clock, p.window) + 1
    ensures CountIn(states'[|steps'|].log, key, Cutoff(clock, p.window), clock) ==
            CountIn(states[|steps|].log, key, Cutoff(clock, p.window), clock) + 1
  {
    var s := states[|steps|];
    var n := s.nodes[id];
    assert ClocksAt(s, clock);
    var e := Event(NodeSlot(id, n.incarnation), key, clock);
    var n' := n.(store := AfterAdmit(n.store, key, id, clock, p.window, p.LimitOf(key)));
    var t := s.(nodes := s.nodes[id := n'], log := s.log + [e]);
    assert Next(p, s, Admit(id, key), t);
    ExtendRun(p, states, steps, Admit(id, key), t);
    RecordTotal(CountsOf(n.store, key), id, clock, p.window);
    assert CountsOf(n'.store, key) == Recorded(CountsOf(n.store, key), id, clock);
    CountInAppend(s.log, e, key, Cutoff(clock, p.window), clock);
    states', steps' := states + [t], steps + [Admit(id, key)];
  }

  /** A node that has counted nothing spends a whole limit. */
  lemma SpendLimit(p: Params, states: seq<Cluster>, steps: seq<Step>, id: string, key: string, clock: nat)
    returns (states': seq<Cluster>, steps': seq<Step>)
    requires IsRun(p, states, steps) && OneSecond(states, clock)
    requires id in states[|steps|].nodes && states[|steps|].nodes[id].store == EMPTY
    ensures IsRun(p, states', steps') && OneSecond(states', clock) && states'[0] == states[0]
    ensures Continues(steps, steps') && OnlyNode(states[|steps|], states'[|steps'|], id)
    ensures CountIn(states'[|steps'|].log, key, Cutoff(clock, p.window), clock) ==
            CountIn(states[|steps|].log, key, Cutoff(clock, p.window), clock) + p.LimitOf(key)
  {
    assert Windowed(map[], clock, p.window) == map[];
    states', steps' := AdmitMore(p, states, steps, id, key, clock, p.LimitOf(key));
  }

  ghost predicate Untouched(s: Cluster, ids: set<string>) {
    forall id :: id in ids ==> id in s.nodes && s.nodes[id].store == EMPTY
  }

  /** Each node in turn spends a whole limit. */
  lemma {:induction false} AllAdmit(p: Params, states: seq<Cluster>, steps: seq<Step>, ids: set<string>, key: string,
                                    clock: nat)
    returns (states': seq<Cluster>, steps': seq<Step>)
    requires IsRun(p, states, steps) && OneSecond(states, clock) && Untouched(states[|steps|], ids)
    ensures IsRun(p, states', steps') && OneSecond(states', clock) && states'[0] == states[0]
    ensures Continues(steps, steps') && states'[|steps'|].boots == states[|steps|].boots
    ensures states'[|steps'|].nodes.Keys == states[|steps|].nodes.Keys
    ensures CountIn(states'[|steps'|].log, key, Cutoff(clock, p.window), clock) ==
            CountIn(states[|steps|].log, key, Cutoff(clock, p.window), clock) + |ids| * p.LimitOf(key)
    decreases |ids|
  {
    if ids == {} {
      states', steps' := states, steps;
    } else {
      var id :| id in ids;
      var ss, es := SpendLimit(p, states, steps, id, key, clock);
      states', steps' := AllAdmit(p, ss, es, ids - {id}, key, clock);
      OneMore(|ids - {id}|, p.LimitOf(key));
    }
  }

  /** Some run without restarts, inside one second, admits one limit per node. */
  lemma BurstAttains(p: Params, s: Cluster, clock: nat, key: string) returns (states: seq<Cluster>, steps: seq<Step>)
    requires Init(s) && ClocksAt(s, clock)
    ensures IsRun(p, states, steps) && NoRestarts(steps) && states[0] == s && OneSecond(states, clock)
    ensures states[|steps|].boots == s.boots && states[|steps|].nodes.Keys == s.nodes.Keys
    ensures CountIn(states[|steps|].log, key, Cutoff(clock, p.window), clock) == |s.nodes| * p.LimitOf(key)
  {
    assert IsRun(p, [s], []);
    states, steps := AllAdmit(p, [s], [], s.nodes.Keys, key, clock);
  }

  // ---- With restarts ----

  lemma {:induction false} UnusedIncarnation(boots: set<Boot>) returns (incarnation: nat)
    ensures forall b :: b in boots ==> b.incarnation < incarnation
    decreases |boots|
  {
    incarnation := 0;
    if boots != {} {
      var b :| b in boots;
      var rest := UnusedIncarnation(boots - {b});
      incarnation := if b.incarnation < rest then rest else b.incarnation + 1;
    }
  }

  /** A restarted node has forgotten what it admitted, refuses its own id and so spends another whole limit. */
  lemma RestartAdmitsAgain(p: Params, states: seq<Cluster>, steps: seq<Step>, id: string, key: string, clock: nat)
    returns (states': seq<Cluster>, steps': seq<Step>)
    requires IsRun(p, states, steps) && OneSecond(states, clock) && id in states[|steps|].nodes
    ensures IsRun(p, states', steps') && OneSecond(states', clock) && states'[0] == states[0]
    ensures states'[|steps'|].nodes.Keys == states[|steps|].nodes.Keys
    ensures |states'[|steps'|].boots| == |states[|steps|].boots| + 1
    ensures CountIn(states'[|steps'|].log, key, Cutoff(clock, p.window), clock) ==
            CountIn(states[|steps|].log, key, Cutoff(clock, p.window), clock) + p.LimitOf(key)
  {
    var s := states[|steps|];
    assert ClocksAt(s, clock);
    var incarnation := UnusedIncarnation(s.boots);
    var t := s.(nodes := s.nodes[id := Node(incarnation, clock, EMPTY)], boots := s.boots + {Boot(id, incarnation)});
    assert Next(p, s, Restart(id, incarnation), t);
    ExtendRun(p, states, steps, Restart(id, incarnation), t);
    assert (states + [t])[|steps + [Restart(id, incarnation)]|] == t;
    states', steps' := SpendLimit(p, states + [t], steps + [Restart(id, incarnation)], id, key, clock);
  }

  lemma {:induction false} KeepsRestarting(p: Params, states: seq<Cluster>, steps: seq<Step>, id: string, key: string,
                                           clock: nat, restarts: nat)
    returns (states': seq<Cluster>, steps': seq<Step>)
    requires IsRun(p, states, steps) && OneSecond(states, clock) && id in states[|steps|].nodes
    ensures IsRun(p, states', steps') && OneSecond(states', clock) && states'[0] == states[0]
    ensures |states'[|steps'|].boots| == |states[|steps|].boots| + restarts
    ensures CountIn(states'[|steps'|].log, key, Cutoff(clock, p.window), clock) ==
            CountIn(states[|steps|].log, key, Cutoff(clock, p.window), clock) + restarts * p.LimitOf(key)
    decreases restarts
  {
    if restarts == 0 {
      states', steps' := states, steps;
    } else {
      var ss, es := RestartAdmitsAgain(p, states, steps, id, key, clock);
      states', steps' := KeepsRestarting(p, ss, es, id, key, clock, restarts - 1);
      OneMore(restarts - 1, p.LimitOf(key));
    }
  }

  lemma AddTimes(a: nat, b: nat, c: nat)
    ensures a * c + b * c == (a + b) * c
  {
  }

  /** The bound of one limit per boot is attained with any number of restarts: a node that restarts k times inside one
      second adds k limits to those of the nodes. */
  lemma RestartsAttain(p: Params, s: Cluster, clock: nat, id: string, key: string, restarts: nat)
    returns (states: seq<Cluster>, steps: seq<Step>)
    requires Init(s) && ClocksAt(s, clock) && id in s.nodes
    ensures IsRun(p, states, steps) && states[0] == s && OneSecond(states, clock)
    ensures |states[|steps|].boots| == |s.nodes| + restarts
    ensures CountIn(states[|steps|].log, key, Cutoff(clock, p.window), clock) ==
            |states[|steps|].boots| * p.LimitOf(key)
  {
    var ss, es := BurstAttains(p, s, clock, key);
    BootsAreNodes(p, ss, es, |es|);
    states, steps := KeepsRestarting(p, ss, es, id, key, clock, restarts);
    AddTimes(|s.nodes|, restarts, p.LimitOf(key));
  }

  // ---- The published bound ----

  lemma {:induction false} BootsAreNodes(p: Params, states: seq<Cluster>, steps: seq<Step>, i: nat)
    requires IsRun(p, states, steps) && NoRestarts(steps) && i < |states|
    ensures |states[i].boots| == |states[0].nodes|
  {
    if i == 0 {
      var s := states[0];
      assert forall id :: id in s.nodes ==> Boot(id, s.nodes[id].incarnation) in s.boots;
      OneBootEach(s, s.nodes.Keys);
    } else {
      BootsAreNodes(p, states, steps, i - 1);
      assert Next(p, states[i - 1], steps[i - 1], states[i]);
    }
  }

  lemma {:induction false} OneBootEach(s: Cluster, ids: set<string>)
    requires ids <= s.nodes.Keys
    ensures |set id | id in ids :: Boot(id, s.nodes[id].incarnation)| == |ids|
    decreases |ids|
  {
    var boots := set id | id in ids :: Boot(id, s.nodes[id].incarnation);
    if ids != {} {
      var x :| x in ids;
      var rest := ids - {x};
      OneBootEach(s, rest);
      assert boots == (set id | id in rest :: Boot(id, s.nodes[id].incarnation)) + {Boot(x, s.nodes[x].incarnation)};
    }
  }

  ghost predicate WithinAlways(p: Params, s: Cluster, key: string, bound: nat) {
    forall t: nat :: CountIn(s.log, key, Cutoff(t, p.window), t) <= bound
  }

  /** No run without restarts ever takes the key past the bound. */
  ghost predicate NeverPast(p: Params, s: Cluster, key: string, bound: nat) {
    forall states: seq<Cluster>, steps: seq<Step>, i: nat ::
      IsRun(p, states, steps) && NoRestarts(steps) && states[0] == s && i < |states| ==>
        WithinAlways(p, states[i], key, bound)
  }

  /** The published bound holds in every run without restarts in which no admitting node is further behind a peer than
      one interval's burst. */
  lemma PublishedBoundHolds(p: Params, states: seq<Cluster>, steps: seq<Step>, i: nat, lag: nat,
                            rate: real, syncIntervalMs: nat, key: string, t: nat)
    requires IsRun(p, states, steps) && i < |states| && KeepsUp(p, states, steps, lag) && NoRestarts(steps)
    requires states[0].nodes != map[] && lag as real <= rate * (syncIntervalMs as real / 1000.0)
    ensures CountIn(states[i].log, key, Cutoff(t, p.window), t) <=
            p.LimitOf(key) + ConvergenceBound(rate, syncIntervalMs, |states[0].nodes| - 1)
  {
    var peers := |states[0].nodes| - 1;
    OvershootWithinLag(p, states, steps, i, lag);
    BootsAreNodes(p, states, steps, i);
    SubsetSize(ActiveBoots(states[i], key, Cutoff(t, p.window), t), states[i].boots);
    MoreTimes(Others(states[i], key, Cutoff(t, p.window), t), peers, lag);
    BurstWithinBound(rate, syncIntervalMs, peers, lag);
  }

  /** The published bound covers every run without restarts if and only if it allows for a whole extra limit per
      peer. */
  lemma PublishedBoundExactly(p: Params, s: Cluster, clock: nat, key: string, rate: real, syncIntervalMs: nat)
    requires Init(s) && s.nodes != map[] && ClocksAt(s, clock)
    ensures var peers := |s.nodes| - 1;
            NeverPast(p, s, key, p.LimitOf(key) + ConvergenceBound(rate, syncIntervalMs, peers)) <==>
            peers * p.LimitOf(key) <= ConvergenceBound(rate, syncIntervalMs, peers)
  {
    var peers := |s.nodes| - 1;
    var bound := ConvergenceBound(rate, syncIntervalMs, peers);
    OneMore(peers, p.LimitOf(key));
    if peers * p.LimitOf(key) <= bound {
      forall states: seq<Cluster>, steps: seq<Step>, i: nat |
          IsRun(p, states, steps) && NoRestarts(steps) && states[0] == s && i < |states|
        ensures WithinAlways(p, states[i], key, p.LimitOf(key) + bound)
      {
        OneLimitPerNode(p, states, steps, i, key);
      }
    } else {
      var states, steps := BurstAttains(p, s, clock, key);
      assert !WithinAlways(p, states[|steps|], key, p.LimitOf(key) + bound);
    }
  }

  /** Without restarts the cluster admits at most one limit per node in any window. */
  lemma OneLimitPerNode(p: Params, states: seq<Cluster>, steps: seq<Step>, i: nat, key: string)
    requires IsRun(p, states, steps) && NoRestarts(steps) && i < |states|
    ensures WithinAlways(p, states[i], key, |states[0].nodes| * p.LimitOf(key))
  {
    BootsAreNodes(p, states, steps, i);
    forall t: nat
      ensures CountIn(states[i].log, key, Cutoff(t, p.window), t) <= |states[0].nodes| * p.LimitOf(key)
    {
      ClusterNeverOverBoots(p, states, steps, i, key, t);
      SubsetSize(ActiveBoots(states[i], key, Cutoff(t, p.window), t), states[i].boots);
      MoreTimes(|ActiveBoots(states[i], key, Cutoff(t, p.window), t)|, |states[0].nodes|, p.LimitOf(key));
    }
  }

  /** Ten requests a second over a ten second window, gossip every 200 ms, one peer: the published slack is 2, and a
      burst inside one second admits 100 past the limit. */
  lemma PublishedBoundCanFail(p: Params, s: Cluster, clock: nat, key: string)
    requires Init(s) && |s.nodes| == 2 && ClocksAt(s, clock)
    requires p.LimitOf(key) == 100
    ensures ConvergenceBound(10.0, 200, 1) == 2
    ensures !NeverPast(p, s, key, p.LimitOf(key) + ConvergenceBound(10.0, 200, 1))
  {
    assert 10.0 * (200 as real / 1000.0) * 1 as real == 2.0;
    PublishedBoundExactly(p, s, clock, key, 10.0, 200);
  }
}
