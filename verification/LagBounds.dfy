/** How far past the budget the cluster can go when gossip keeps up: by at most what the admitting nodes had not yet
    heard of. */
module LagBounds {
  import opened Sums
  import opened Counters
  import opened Clusters
  import opened ClusterViews
  import opened Overshoot

  ghost predicate CommonClock(s: Cluster) {
    forall i, j :: i in s.nodes && j in s.nodes ==> s.nodes[i].clock == s.nodes[j].clock
  }

  /** What a node credits a boot with; nothing for an earlier boot of its own. */
  function At(view: map<Boot, nat>, b: Boot): nat {
    if b in view then view[b] else 0
  }

  ghost predicate Admitting(p: Params, s: Cluster, id: string, key: string) {
    id in s.nodes && Admits(s.nodes[id].store, key, s.nodes[id].clock, p.window, p.LimitOf(key))
  }

  /** A node that admits is missing at most `lag` in-window admissions of each other boot. What a node that refuses is
      missing does not matter. */
  ghost predicate LagAtMost(p: Params, s: Cluster, step: Step, lag: nat) {
    step.Admit? && Admitting(p, s, step.id, step.key) ==>
      var n := s.nodes[step.id];
      var k := TrackedKey(n.store, step.key);
      forall b :: b in s.boots && b != Boot(step.id, n.incarnation) ==>
        CountSlot(s.log, SlotOf(b), k, Cutoff(n.clock, p.window), n.clock) <=
        At(ViewSums(p, s, step.id, k, n.clock), b) + lag
  }

  // ---- The truth against one node's view ----

  lemma RemoveAt(view: map<Boot, nat>, b: Boot)
    ensures MapSum(view) == At(view, b) + MapSum(view - {b})
  {
    if b in view {
      MapSumRemove(view, b);
    } else {
      assert view - {b} == view;
    }
  }

  lemma {:induction false} EachWithinLag(truth: map<Boot, nat>, view: map<Boot, nat>, lag: nat)
    requires forall b :: b in truth ==> truth[b] <= At(view, b) + lag
    ensures MapSum(truth) <= MapSum(view) + |truth| * lag
    decreases |truth|
  {
    if truth != map[] {
      var b :| b in truth;
      MapSizeRemove(truth, b);
      MapSumRemove(truth, b);
      RemoveAt(view, b);
      var rest, seen := truth - {b}, view - {b};
      forall a | a in rest ensures rest[a] <= At(seen, a) + lag {}
      EachWithinLag(rest, seen, lag);
      OneMore(|rest|, lag);
    }
  }

  lemma SumsWithinLag(truth: map<Boot, nat>, view: map<Boot, nat>, own: Boot, lag: nat, others: set<Boot>)
    requires At(truth, own) <= At(view, own) && others == truth.Keys - {own}
    requires forall b :: b in truth && b != own ==> truth[b] <= At(view, b) + lag
    ensures MapSum(truth) <= MapSum(view) + |others| * lag
  {
    var rest, seen := truth - {own}, view - {own};
    RemoveAt(truth, own);
    RemoveAt(view, own);
    forall b | b in rest ensures rest[b] <= At(seen, b) + lag {}
    EachWithinLag(rest, seen, lag);
    assert rest.Keys == others;
  }

  /** The other boots that admitted the key within a span. */
  ghost function OtherBoots(s: Cluster, id: string, key: string, lo: nat, hi: nat): set<Boot>
    requires id in s.nodes
  {
    ActiveBoots(s, key, lo, hi) - {Boot(id, s.nodes[id].incarnation)}
  }

  /** Over any span the admitting node's window covers, the truth exceeds the node's total by at most the lag for each
      other boot that admitted in that span. */
  lemma TrueTotalAtAdmission(p: Params, s: Cluster, id: string, key: string, lag: nat, lo: nat, hi: nat)
    requires Inv(p, s) && Admitting(p, s, id, key) && LagAtMost(p, s, Admit(id, key), lag)
    requires var n := s.nodes[id];
             forall e :: e in s.log && Counted(e, TrackedKey(n.store, key), lo, hi) ==>
               Counted(e, TrackedKey(n.store, key), Cutoff(n.clock, p.window), n.clock)
    ensures var n := s.nodes[id];
            var k := TrackedKey(n.store, key);
            CountIn(s.log, k, lo, hi) <=
            Total(CountsOf(n.store, k), n.clock, p.window) + |OtherBoots(s, id, k, lo, hi)| * lag
  {
    var n := s.nodes[id];
    var own, k := Boot(id, n.incarnation), TrackedKey(n.store, key);
    var view := ViewSums(p, s, id, k, n.clock);
    var sums := ActiveSums(s, k, lo, hi);
    CountByActive(p, s, k, lo, hi);
    TotalByBoot(p, s, id, k, n.clock);
    OwnSumExact(p, s, id, k);
    forall b | b in s.boots
      ensures CountSlot(s.log, SlotOf(b), k, lo, hi) <=
              CountSlot(s.log, SlotOf(b), k, Cutoff(n.clock, p.window), n.clock)
    {
      CountSlotWithin(s.log, SlotOf(b), k, lo, hi, Cutoff(n.clock, p.window), n.clock);
    }
    SumsWithinLag(sums, view, own, lag, OtherBoots(s, id, k, lo, hi));
  }

  // ---- Over whole runs ----

  /** How many boots besides one admitted the key within a span. */
  ghost function Others(s: Cluster, key: string, lo: nat, hi: nat): nat {
    var active := |ActiveBoots(s, key, lo, hi)|;
    if active == 0 then 0 else active - 1
  }

  /** In every window the true total is past the limit by at most the lag for each active boot but one. */
  ghost predicate TotalWithin(p: Params, s: Cluster, lag: nat) {
    forall k, t: nat ::
      CountIn(s.log, k, Cutoff(t, p.window), t) <= p.LimitOf(k) + Others(s, k, Cutoff(t, p.window), t) * lag
  }

  lemma EventsPast(p: Params, s: Cluster, id: string, e: Event)
    requires Inv(p, s) && CommonClock(s) && id in s.nodes && e in s.log
    ensures e.time <= s.nodes[id].clock
  {
    assert EventTrue(s, e);
  }

  /** At an admission on a common clock, every window that will count it had room. */
  lemma RoomAtAdmission(p: Params, s: Cluster, id: string, key: string, u: nat, lag: nat)
    requires Inv(p, s) && CommonClock(s) && Admitting(p, s, id, key) && LagAtMost(p, s, Admit(id, key), lag)
    requires InWindow(s.nodes[id].clock, u, p.window)
    ensures var k := TrackedKey(s.nodes[id].store, key);
            CountIn(s.log, k, Cutoff(u, p.window), u) <
            p.LimitOf(k) + |OtherBoots(s, id, k, Cutoff(u, p.window), u)| * lag
  {
    var n := s.nodes[id];
    var k := TrackedKey(n.store, key);
    TrackedKeyLimit(p, n.store, key);
    forall e | e in s.log && Counted(e, k, Cutoff(u, p.window), u)
      ensures Counted(e, k, Cutoff(n.clock, p.window), n.clock)
    {
      EventsPast(p, s, id, e);
    }
    TrueTotalAtAdmission(p, s, id, key, lag, Cutoff(u, p.window), u);
  }

  /** An admission makes its own boot active and no other. */
  lemma ActiveAfterAdmission(s: Cluster, t: Cluster, own: Boot, e: Event, key: string, lo: nat, hi: nat)
    requires own in s.boots && t.boots == s.boots && t.log == s.log + [e] && e.slot == SlotOf(own)
    requires NamesClean(s.boots)
    ensures ActiveBoots(t, key, lo, hi) ==
            if Counted(e, key, lo, hi) then ActiveBoots(s, key, lo, hi) + {own} else ActiveBoots(s, key, lo, hi)
  {
    forall b | b in s.boots
      ensures CountSlot(t.log, SlotOf(b), key, lo, hi) ==
              CountSlot(s.log, SlotOf(b), key, lo, hi) + if b == own && Counted(e, key, lo, hi) then 1 else 0
    {
      BootCountSnoc(s.log, e, b, own, key, lo, hi);
    }
  }

  lemma OneMoreActive(active: set<Boot>, own: Boot, others: nat)
    requires others == |active + {own}| - 1
    ensures others == |active - {own}|
  {
    assert active + {own} == (active - {own}) + {own};
  }

  lemma AdmitKeepsTotal(p: Params, s: Cluster, id: string, key: string, t: Cluster, lag: nat)
    requires Inv(p, s) && CommonClock(s) && TotalWithin(p, s, lag)
    requires Next(p, s, Admit(id, key), t) && LagAtMost(p, s, Admit(id, key), lag)
    ensures TotalWithin(p, t, lag)
  {
    var n := s.nodes[id];
    if Admitting(p, s, id, key) {
      var own := Boot(id, n.incarnation);
      var e := Event(SlotOf(own), TrackedKey(n.store, key), n.clock);
      forall k, u: nat
        ensures CountIn(t.log, k, Cutoff(u, p.window), u) <= p.LimitOf(k) + Others(t, k, Cutoff(u, p.window), u) * lag
      {
        CountInAppend(s.log, e, k, Cutoff(u, p.window), u);
        ActiveAfterAdmission(s, t, own, e, k, Cutoff(u, p.window), u);
        if Counted(e, k, Cutoff(u, p.window), u) {
          RoomAtAdmission(p, s, id, key, u, lag);
          OneMoreActive(ActiveBoots(s, k, Cutoff(u, p.window), u), own, Others(t, k, Cutoff(u, p.window), u));
        }
      }
    }
  }

  lemma MoreTimes(a: nat, b: nat, c: nat)
    requires a <= b
    ensures a * c <= b * c
  {
  }

  /** A step that admits nothing leaves every total and every active boot. */
  lemma QuietKeepsTotal(p: Params, s: Cluster, t: Cluster, lag: nat)
    requires TotalWithin(p, s, lag) && t.log == s.log && s.boots <= t.boots
    ensures TotalWithin(p, t, lag)
  {
    forall k, u: nat
      ensures CountIn(t.log, k, Cutoff(u, p.window), u) <= p.LimitOf(k) + Others(t, k, Cutoff(u, p.window), u) * lag
    {
      SubsetSize(ActiveBoots(s, k, Cutoff(u, p.window), u), ActiveBoots(t, k, Cutoff(u, p.window), u));
      MoreTimes(Others(s, k, Cutoff(u, p.window), u), Others(t, k, Cutoff(u, p.window), u), lag);
    }
  }

  lemma NextKeepsTotal(p: Params, s: Cluster, step: Step, t: Cluster, lag: nat)
    requires Inv(p, s) && CommonClock(s) && TotalWithin(p, s, lag)
    requires Next(p, s, step, t) && LagAtMost(p, s, step, lag)
    ensures TotalWithin(p, t, lag)
  {
    match step
    case Admit(id, key) => AdmitKeepsTotal(p, s, id, key, t, lag);
    case _ => QuietKeepsTotal(p, s, t, lag);
  }

  /** The clocks agree throughout, and every admission is made missing at most `lag` from each other boot. */
  ghost predicate KeepsUp(p: Params, states: seq<Cluster>, steps: seq<Step>, lag: nat)
    requires |states| == |steps| + 1
  {
    && (forall j :: 0 <= j < |states| ==> CommonClock(states[j]))
    && (forall j :: 0 <= j < |steps| ==> LagAtMost(p, states[j], steps[j], lag))
  }

  lemma RunKeepsTotal(p: Params, states: seq<Cluster>, steps: seq<Step>, j: nat, lag: nat)
    requires IsRun(p, states, steps) && j < |steps| && KeepsUp(p, states, steps, lag)
    requires TotalWithin(p, states[j], lag)
    ensures TotalWithin(p, states[j + 1], lag)
  {
    RunInv(p, states, steps, j);
    NextKeepsTotal(p, states[j], steps[j], states[j + 1], lag);
  }

  /** If every admission is made missing at most `lag` from each other boot, then on a common clock the cluster never
      goes past the limit in a window by more than the lag for each boot, but one, that admits in it. */
  lemma {:induction false} OvershootWithinLag(p: Params, states: seq<Cluster>, steps: seq<Step>, i: nat, lag: nat)
    requires IsRun(p, states, steps) && i < |states| && KeepsUp(p, states, steps, lag)
    ensures TotalWithin(p, states[i], lag)
  {
    if i != 0 {
      OvershootWithinLag(p, states, steps, i - 1, lag);
      RunKeepsTotal(p, states, steps, i - 1, lag);
    }
  }

  // ---- One interval's burst ----

  function Ceil(x: real): int {
    -((-x).Floor)
  }

  /** The figure published to operators: a burst of `rate` over one sync interval from each peer. */
  function ConvergenceBound(rate: real, syncIntervalMs: nat, peers: nat): nat {
    var c := Ceil(rate * (syncIntervalMs as real / 1000.0) * peers as real);
    if c < 0 then 0 else c
  }

  /** The least whole number that covers that burst. */
  lemma BoundIsLeast(rate: real, syncIntervalMs: nat, peers: nat)
    requires 0.0 <= rate
    ensures var burst, bound := rate * (syncIntervalMs as real / 1000.0) * peers as real,
                                ConvergenceBound(rate, syncIntervalMs, peers);
            burst <= bound as real < burst + 1.0
  {
    var each := rate * (syncIntervalMs as real / 1000.0);
    assert 0.0 <= each;
    assert 0.0 <= each * peers as real;
  }

  lemma BurstWithinBound(rate: real, syncIntervalMs: nat, peers: nat, lag: nat)
    requires lag as real <= rate * (syncIntervalMs as real / 1000.0)
    ensures peers * lag <= ConvergenceBound(rate, syncIntervalMs, peers)
  {
    var burst := rate * (syncIntervalMs as real / 1000.0);
    assert peers as real * lag as real <= burst * peers as real;
    assert (peers * lag) as real == peers as real * lag as real;
  }

  /** When no node falls further behind a boot than one interval's burst, the excess in a window is at most that burst
      from each boot, but one, that admits in it. */
  lemma BurstPerBoot(p: Params, states: seq<Cluster>, steps: seq<Step>, i: nat, lag: nat,
                     rate: real, syncIntervalMs: nat, key: string, t: nat)
    requires IsRun(p, states, steps) && i < |states| && KeepsUp(p, states, steps, lag)
    requires lag as real <= rate * (syncIntervalMs as real / 1000.0)
    ensures var others := Others(states[i], key, Cutoff(t, p.window), t);
            CountIn(states[i].log, key, Cutoff(t, p.window), t) <=
            p.LimitOf(key) + ConvergenceBound(rate, syncIntervalMs, others)
  {
    OvershootWithinLag(p, states, steps, i, lag);
    BurstWithinBound(rate, syncIntervalMs, Others(states[i], key, Cutoff(t, p.window), t), lag);
  }
}
