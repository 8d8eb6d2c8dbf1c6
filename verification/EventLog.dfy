/** One node's store, pruned whenever it likes, answers every request as an unpruned log would: admit
    while the requests logged for the key in the last window, plus what peers have reported for it,
    are fewer than the limit. */
module EventLog {
  import opened Numbers
  import opened Sums
  import opened Slots
  import opened Counters
  import opened Clusters
  import opened ClusterViews

  datatype Op =
    | Ask(key: string, limit: nat, now: nat)
    | Hear(key: string, slot: string, buckets: seq<Bucket>, now: nat)
    | Sweep(now: nat)

  /** The reference: every admission ever made here, and every peer count ever accepted. */
  datatype Log = Log(events: seq<Event>, heard: map<string, KeyCounts>)

  function HeardFor(l: Log, key: string): KeyCounts {
    if key in l.heard then l.heard[key] else map[]
  }

  /** The admissions for a key that still count: those made no longer than a window ago. */
  function Live(events: seq<Event>, own: string, key: string, now: nat, window: nat): set<nat> {
    set i | 0 <= i < |events| && events[i].slot == own && events[i].key == key
            && events[i].time <= now < events[i].time + AtLeastOne(window)
  }

  /** The peer counts that still count. */
  function LiveHeard(heard: KeyCounts, now: nat, window: nat): KeyCounts {
    map c | c in heard && c.epoch <= now < c.epoch + AtLeastOne(window) :: heard[c]
  }

  ghost predicate LogAdmits(l: Log, own: string, key: string, limit: nat, now: nat, window: nat) {
    |Live(l.events, own, key, now, window)| + MapSum(LiveHeard(HeardFor(l, key), now, window)) < limit
  }

  lemma {:induction false} LiveCount(events: seq<Event>, own: string, key: string, now: nat, window: nat)
    ensures |Live(events, own, key, now, window)| == CountSlot(events, own, key, Cutoff(now, window), now)
  {
    if events != [] {
      var init, e := events[..|events| - 1], events[|events| - 1];
      LiveCount(init, own, key, now, window);
      CutoffIs(e.time, now, window);
      var was, more := Live(init, own, key, now, window), Live(events, own, key, now, window);
      if e.slot == own && Counted(e, key, Cutoff(now, window), now) {
        assert more == was + {|init|};
      } else {
        assert more == was;
      }
    }
  }

  ghost function LogStep(l: Log, op: Op, own: string, window: nat): Log {
    match op
    case Ask(key, limit, now) =>
      if LogAdmits(l, own, key, limit, now, window) then l.(events := l.events + [Event(own, key, now)]) else l
    case Hear(key, slot, buckets, now) =>
      l.(heard := l.heard[key := MergeInto(HeardFor(l, key), slot, buckets, now + FUTURE_SKEW_TOLERANCE_SECS)])
    case Sweep(now) => l
  }

  ghost function StoreStep(s: Store, op: Op, own: string, window: nat): Store {
    match op
    case Ask(key, limit, now) => AfterAdmit(s, key, own, now, window, limit)
    case Hear(key, slot, buckets, now) => AfterMerge(s, key, slot, buckets, now)
    case Sweep(now) => AfterPrune(s, now, window)
  }

  ghost function LogAfter(ops: seq<Op>, own: string, window: nat): Log {
    if ops == [] then Log([], map[]) else LogStep(LogAfter(ops[..|ops| - 1], own, window), ops[|ops| - 1], own, window)
  }

  ghost function StoreAfter(ops: seq<Op>, own: string, window: nat): Store {
    if ops == [] then EMPTY else StoreStep(StoreAfter(ops[..|ops| - 1], own, window), ops[|ops| - 1], own, window)
  }

  /** Peers do not use our slot, and there is room for a new key. */
  ghost predicate Proper(s: Store, op: Op, own: string) {
    && (op.Hear? ==> op.slot != own)
    && (!op.Sweep? ==> HasRoom(s, op.key))
  }

  /** Time does not go back and every operation is proper when it comes. */
  ghost predicate Orderly(ops: seq<Op>, own: string, window: nat) {
    && (forall i, j :: 0 <= i < j < |ops| ==> ops[i].now <= ops[j].now)
    && forall i :: 0 <= i < |ops| ==> Proper(StoreAfter(ops[..i], own, window), ops[i], own)
  }

  /** Store and log agree on every cell that a window ending at `now` or later can reach. */
  ghost predicate Agree(s: Store, l: Log, own: string, now: nat, window: nat) {
    forall k, c: Cell :: Cutoff(now, window) <= c.epoch ==>
      CellOf(s, k, c) == if c.slot == own then TrueCount(l.events, own, k, c.epoch) else Count(HeardFor(l, k), c)
  }

  ghost predicate HeardOthers(l: Log, own: string) {
    forall k, c :: c in HeardFor(l, k) ==> c.slot != own
  }

  // ---- Equal cells give equal totals ----

  lemma SameCountsSameSum(a: KeyCounts, b: KeyCounts)
    requires forall c :: Count(a, c) == Count(b, c)
    ensures MapSum(a) == MapSum(b)
  {
    var both := map c | c in a.Keys + b.Keys :: Count(a, c);
    MapSumDropZeros(a, both);
    MapSumDropZeros(b, both);
  }

  lemma AgreeTotals(s: Store, l: Log, own: string, key: string, now: nat, window: nat)
    requires Agree(s, l, own, now, window) && HeardOthers(l, own)
    ensures Total(CountsOf(s, key), now, window) ==
            |Live(l.events, own, key, now, window)| + MapSum(LiveHeard(HeardFor(l, key), now, window))
  {
    LiveCount(l.events, own, key, now, window);
    assert LiveHeard(HeardFor(l, key), now, window) == Windowed(HeardFor(l, key), now, window);
    var lo := Cutoff(now, window);
    var w := Windowed(CountsOf(s, key), now, window);
    var mine := SlotMap(l.events, own, key, own, lo, now);
    SplitSlot(w, own);
    SlotMapSum(l.events, own, key, own, lo, now);
    forall c ensures Count(CellsOfSlot(w, own), c) == Count(mine, c) {
      if c.slot == own && lo <= c.epoch <= now {
        assert c == Cell(own, c.epoch) && c in mine;
        assert CellOf(s, key, c) == TrueCount(l.events, own, key, c.epoch);
      }
    }
    SameCountsSameSum(CellsOfSlot(w, own), mine);
    forall c ensures Count(WithoutSlot(w, own), c) == Count(Windowed(HeardFor(l, key), now, window), c) {
      if c.slot != own && lo <= c.epoch <= now {
        assert CellOf(s, key, c) == Count(HeardFor(l, key), c);
      }
    }
    SameCountsSameSum(WithoutSlot(w, own), Windowed(HeardFor(l, key), now, window));
  }

  // ---- Agreement is kept ----

  lemma AskAgrees(s: Store, l: Log, own: string, key: string, limit: nat, now: nat, window: nat)
    requires Agree(s, l, own, now, window) && HeardOthers(l, own) && HasRoom(s, key)
    ensures Admits(s, key, now, window, limit) == LogAdmits(l, own, key, limit, now, window)
    ensures var l' := if LogAdmits(l, own, key, limit, now, window)
                      then l.(events := l.events + [Event(own, key, now)]) else l;
            Agree(AfterAdmit(s, key, own, now, window, limit), l', own, now, window)
  {
    AgreeTotals(s, l, own, key, now, window);
    var e := Event(own, key, now);
    var s' := AfterAdmit(s, key, own, now, window, limit);
    forall k, c: Cell | Cutoff(now, window) <= c.epoch
      ensures CellOf(s', k, c) ==
              CellOf(s, k, c) + if Admits(s, key, now, window, limit) && k == key && c == Cell(own, now) then 1 else 0
      ensures TrueCount(l.events + [e], own, k, c.epoch) ==
              TrueCount(l.events, own, k, c.epoch) + if e == Event(own, k, c.epoch) then 1 else 0
    {
      AdmitCell(s, key, own, now, window, limit, k, c);
      TrueCountAppend(l.events, e, own, k, c.epoch);
    }
  }

  lemma {:induction false} MergeSameCells(a: KeyCounts, b: KeyCounts, slot: string, buckets: seq<Bucket>,
                                          maxEpoch: nat, c: Cell)
    requires Count(a, c) == Count(b, c)
    ensures Count(MergeInto(a, slot, buckets, maxEpoch), c) == Count(MergeInto(b, slot, buckets, maxEpoch), c)
  {
    if buckets != [] {
      MergeSameCells(a, b, slot, buckets[..|buckets| - 1], maxEpoch, c);
    }
  }

  lemma {:induction false} MergeNothing(a: KeyCounts, slot: string, buckets: seq<Bucket>, maxEpoch: nat)
    requires !AnyWithin(buckets, maxEpoch)
    ensures MergeInto(a, slot, buckets, maxEpoch) == a
  {
    if buckets != [] {
      assert maxEpoch < buckets[|buckets| - 1].epoch;
      MergeNothing(a, slot, buckets[..|buckets| - 1], maxEpoch);
    }
  }

  lemma HearAgrees(s: Store, l: Log, own: string, op: Op, window: nat)
    requires op.Hear? && op.slot != own && HasRoom(s, op.key)
    requires Agree(s, l, own, op.now, window) && HeardOthers(l, own)
    ensures var merged := MergeInto(HeardFor(l, op.key), op.slot, op.buckets, op.now + FUTURE_SKEW_TOLERANCE_SECS);
            var l' := l.(heard := l.heard[op.key := merged]);
            Agree(AfterMerge(s, op.key, op.slot, op.buckets, op.now), l', own, op.now, window) && HeardOthers(l', own)
  {
    var max := op.now + FUTURE_SKEW_TOLERANCE_SECS;
    var s' := AfterMerge(s, op.key, op.slot, op.buckets, op.now);
    var l' := l.(heard := l.heard[op.key := MergeInto(HeardFor(l, op.key), op.slot, op.buckets, max)]);
    MergedCounts(s, op);
    forall k | k != op.key ensures CountsOf(s', k) == CountsOf(s, k) && HeardFor(l', k) == HeardFor(l, k) {}
    forall k, c: Cell | Cutoff(op.now, window) <= c.epoch
      ensures CellOf(s', k, c) ==
              if c.slot == own then TrueCount(l'.events, own, k, c.epoch) else Count(HeardFor(l', k), c)
    {
      if k == op.key {
        MergeIntoCell(CountsOf(s, k), op.slot, op.buckets, max, c);
        if c.slot != own {
          MergeSameCells(CountsOf(s, k), HeardFor(l, k), op.slot, op.buckets, max, c);
        }
      }
    }
    HearsOthers(l, l', own, op, max);
  }

  /** What a merge leaves of its key, taken in or not. */
  lemma MergedCounts(s: Store, op: Op)
    requires op.Hear? && HasRoom(s, op.key)
    ensures CountsOf(AfterMerge(s, op.key, op.slot, op.buckets, op.now), op.key) ==
            MergeInto(CountsOf(s, op.key), op.slot, op.buckets, op.now + FUTURE_SKEW_TOLERANCE_SECS)
  {
    var max := op.now + FUTURE_SKEW_TOLERANCE_SECS;
    if !AnyWithin(op.buckets, max) {
      MergeNothing(CountsOf(s, op.key), op.slot, op.buckets, max);
    }
  }

  lemma HearsOthers(l: Log, l': Log, own: string, op: Op, max: nat)
    requires op.Hear? && op.slot != own && HeardOthers(l, own)
    requires l' == l.(heard := l.heard[op.key := MergeInto(HeardFor(l, op.key), op.slot, op.buckets, max)])
    ensures HeardOthers(l', own)
  {
    forall k, c | c in HeardFor(l', k)
      ensures c.slot != own
    {
      if k == op.key {
        MergeIntoCell(HeardFor(l, op.key), op.slot, op.buckets, max, c);
        assert c in HeardFor(l, k) || c.slot == op.slot;
      } else {
        assert c in HeardFor(l, k);
      }
    }
  }

  lemma SweepAgrees(s: Store, l: Log, own: string, now: nat, window: nat)
    requires Agree(s, l, own, now, window)
    ensures Agree(AfterPrune(s, now, window), l, own, now, window)
  {
    forall k, c: Cell | Cutoff(now, window) <= c.epoch
      ensures CellOf(AfterPrune(s, now, window), k, c) == CellOf(s, k, c)
    {
      PruneCell(s, now, window, k, c);
    }
  }

  lemma StepAgrees(s: Store, l: Log, op: Op, own: string, window: nat)
    requires Agree(s, l, own, op.now, window) && HeardOthers(l, own) && Proper(s, op, own)
    ensures Agree(StoreStep(s, op, own, window), LogStep(l, op, own, window), own, op.now, window)
    ensures HeardOthers(LogStep(l, op, own, window), own)
  {
    match op
    case Ask(key, limit, now) =>
      AskAgrees(s, l, own, key, limit, now, window);
      assert forall k :: HeardFor(LogStep(l, op, own, window), k) == HeardFor(l, k);
    case Hear(key, slot, buckets, now) => HearAgrees(s, l, own, op, window);
    case Sweep(now) => SweepAgrees(s, l, own, now, window);
  }

  lemma OrderlyPrefix(ops: seq<Op>, own: string, window: nat, i: nat)
    requires Orderly(ops, own, window) && i <= |ops|
    ensures Orderly(ops[..i], own, window)
  {
    assert forall j :: 0 <= j < i ==> ops[..i][..j] == ops[..j];
  }

  lemma OrderlyLast(ops: seq<Op>, own: string, window: nat)
    requires Orderly(ops, own, window) && ops != []
    ensures var init, op := ops[..|ops| - 1], ops[|ops| - 1];
            && Orderly(init, own, window) && Proper(StoreAfter(init, own, window), op, own)
            && (init != [] ==> init[|init| - 1].now <= op.now)
  {
    OrderlyPrefix(ops, own, window, |ops| - 1);
  }

  lemma AgreeLater(s: Store, l: Log, own: string, now: nat, later: nat, window: nat)
    requires Agree(s, l, own, now, window) && now <= later
    ensures Agree(s, l, own, later, window)
  {
  }

  lemma {:induction false} OpsAgree(ops: seq<Op>, own: string, window: nat, now: nat)
    requires Orderly(ops, own, window)
    requires ops != [] ==> ops[|ops| - 1].now <= now
    ensures Agree(StoreAfter(ops, own, window), LogAfter(ops, own, window), own, now, window)
    ensures HeardOthers(LogAfter(ops, own, window), own)
    decreases |ops|
  {
    if ops != [] {
      var init, op := ops[..|ops| - 1], ops[|ops| - 1];
      OrderlyLast(ops, own, window);
      OpsAgree(init, own, window, op.now);
      StepAgrees(StoreAfter(init, own, window), LogAfter(init, own, window), op, own, window);
      AgreeLater(StoreAfter(ops, own, window), LogAfter(ops, own, window), own, op.now, now, window);
    }
  }

  /** At every request of every orderly run the store answers as the log does. */
  lemma StoreAnswersAsLog(ops: seq<Op>, own: string, window: nat, i: nat)
    requires Orderly(ops, own, window) && i < |ops| && ops[i].Ask?
    ensures Admits(StoreAfter(ops[..i], own, window), ops[i].key, ops[i].now, window, ops[i].limit) <==>
            LogAdmits(LogAfter(ops[..i], own, window), own, ops[i].key, ops[i].limit, ops[i].now, window)
  {
    var init := ops[..i];
    OrderlyPrefix(ops, own, window, i);
    OpsAgree(init, own, window, ops[i].now);
    AskAgrees(StoreAfter(init, own, window), LogAfter(init, own, window), own, ops[i].key, ops[i].limit, ops[i].now,
              window);
  }

  // ---- The key cap ----

  /** The listeners whose keys have been asked for. */
  function Listeners(ops: seq<Op>): set<string> {
    set i | 0 <= i < |ops| && ops[i].Ask? :: ListenerOf(ops[i].key)
  }

  function Overflows(ops: seq<Op>): set<string> {
    set i | 0 <= i < |ops| && ops[i].Ask? :: OverflowKey(ops[i].key)
  }

  lemma StepKeepsCap(s: Store, op: Op, own: string, window: nat, over: set<string>)
    requires |s.keys.Keys - over| <= MAX_TRACKED_KEYS && (op.Ask? ==> OverflowKey(op.key) in over)
    ensures |StoreStep(s, op, own, window).keys.Keys - over| <= MAX_TRACKED_KEYS
  {
    var t := StoreStep(s, op, own, window);
    if op.Sweep? {
      SubsetSize(t.keys.Keys - over, s.keys.Keys - over);
    } else if HasRoom(s, op.key) && op.key !in s.keys {
      SubsetSize(t.keys.Keys - over, s.keys.Keys + {op.key});
    } else {
      SubsetSize(t.keys.Keys - over, s.keys.Keys - over);
    }
  }

  lemma {:induction false} PlainWithinCap(ops: seq<Op>, own: string, window: nat, over: set<string>)
    requires forall i :: 0 <= i < |ops| && ops[i].Ask? ==> OverflowKey(ops[i].key) in over
    ensures |StoreAfter(ops, own, window).keys.Keys - over| <= MAX_TRACKED_KEYS
  {
    if ops == [] {
      assert EMPTY.keys.Keys - over == {};
    } else {
      PlainWithinCap(ops[..|ops| - 1], own, window, over);
      StepKeepsCap(StoreAfter(ops[..|ops| - 1], own, window), ops[|ops| - 1], own, window, over);
    }
  }

  function OverflowsOf(listeners: set<string>): set<string> {
    set l | l in listeners :: Namespaced(l, OVERFLOW)
  }

  lemma {:induction false} OnePerListener(listeners: set<string>)
    ensures |OverflowsOf(listeners)| <= |listeners|
    decreases |listeners|
  {
    if listeners != {} {
      var l :| l in listeners;
      OnePerListener(listeners - {l});
      assert OverflowsOf(listeners) == OverflowsOf(listeners - {l}) + {Namespaced(l, OVERFLOW)};
    }
  }

  lemma OverflowsPerListener(ops: seq<Op>)
    ensures |Overflows(ops)| <= |Listeners(ops)|
  {
    OnePerListener(Listeners(ops));
    forall k | k in Overflows(ops) ensures k in OverflowsOf(Listeners(ops)) {
      var i :| 0 <= i < |ops| && ops[i].Ask? && OverflowKey(ops[i].key) == k;
      assert ListenerOf(ops[i].key) in Listeners(ops);
    }
    SubsetSize(Overflows(ops), OverflowsOf(Listeners(ops)));
  }

  /** Whatever is asked, heard and swept, in any order and at any times, a store tracks at most the cap of keys, and one
      more for each listener that has asked. */
  lemma CapHolds(ops: seq<Op>, own: string, window: nat)
    ensures |StoreAfter(ops, own, window).keys| <= MAX_TRACKED_KEYS + |Listeners(ops)|
  {
    var keys, over := StoreAfter(ops, own, window).keys.Keys, Overflows(ops);
    PlainWithinCap(ops, own, window, over);
    OverflowsPerListener(ops);
    assert keys == (keys - over) + (keys * over);
    SubsetSize(keys * over, over);
  }
}
