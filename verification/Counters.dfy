/** The rate-limit counter store as a value, and what each of its operations does to it.
    A count lives in a cell (key, slot, second). The source nests the slot and second maps;
    an inner map is never empty there, so the flat map of cells holds the same information. */
module Counters {
  import opened Numbers
  import opened Sums
  import opened Slots

  const MAX_TRACKED_KEYS: nat := 100_000
  const FUTURE_SKEW_TOLERANCE_SECS: nat := 5

  datatype Cell = Cell(slot: string, epoch: nat)

  type KeyCounts = map<Cell, nat>

  /** One (second, count) pair of a gossip message. */
  datatype Bucket = Bucket(epoch: nat, count: nat)

  /** One key's pairs in a gossip message. */
  datatype KeyEntry = KeyEntry(key: string, buckets: seq<Bucket>)

  datatype Store = Store(keys: map<string, KeyCounts>, changed: set<string>, cursor: nat)

  const EMPTY: Store := Store(map[], {}, 0)

  function Max(a: nat, b: nat): nat {
    if a < b then b else a
  }

  function SaturatingSub(a: nat, b: nat): nat {
    if a < b then 0 else a - b
  }

  function Count(kc: KeyCounts, c: Cell): nat {
    if c in kc then kc[c] else 0
  }

  function CountsOf(s: Store, key: string): KeyCounts {
    if key in s.keys then s.keys[key] else map[]
  }

  /** The first second of the window ending at now. */
  function Cutoff(now: nat, window: nat): nat {
    SaturatingSub(now, SaturatingSub(window, 1))
  }

  /** A second counts for a window's length from itself on; a window is at least one second long. */
  predicate InWindow(epoch: nat, now: nat, window: nat) {
    epoch <= now < epoch + AtLeastOne(window)
  }

  /** So a second counts exactly from the cutoff to now. */
  lemma CutoffIs(epoch: nat, now: nat, window: nat)
    ensures Cutoff(now, window) <= epoch <==> now < epoch + AtLeastOne(window)
    ensures Cutoff(now, window) <= epoch <= now <==> InWindow(epoch, now, window)
  {
  }

  function Windowed(kc: KeyCounts, now: nat, window: nat): KeyCounts {
    map c | c in kc && InWindow(c.epoch, now, window) :: kc[c]
  }

  /** Counts are summed over slots and over the seconds of the window. */
  ghost function Total(kc: KeyCounts, now: nat, window: nat): nat {
    MapSum(Windowed(kc, now, window))
  }

  function Recorded(kc: KeyCounts, slot: string, now: nat): KeyCounts {
    kc[Cell(slot, now) := Count(kc, Cell(slot, now)) + 1]
  }

  /** A key the store counts already or has room for. */
  predicate HasRoom(s: Store, key: string) {
    key in s.keys || |s.keys| < MAX_TRACKED_KEYS
  }

  /** The key a request is counted under: its own, unless it is new and the store is full. */
  function TrackedKey(s: Store, key: string): string {
    if HasRoom(s, key) then key else OverflowKey(key)
  }

  ghost predicate Admits(s: Store, key: string, now: nat, window: nat, limit: nat) {
    Total(CountsOf(s, TrackedKey(s, key)), now, window) < limit
  }

  ghost function AfterAdmit(s: Store, key: string, slot: string, now: nat, window: nat, limit: nat): Store {
    var tracked := TrackedKey(s, key);
    var kc := CountsOf(s, tracked);
    if Admits(s, key, now, window, limit)
    then s.(keys := s.keys[tracked := Recorded(kc, slot, now)], changed := s.changed + {tracked})
    else s.(keys := s.keys[tracked := kc])
  }

  function MergeBucket(kc: KeyCounts, slot: string, b: Bucket, maxEpoch: nat): KeyCounts {
    if maxEpoch < b.epoch then kc
    else kc[Cell(slot, b.epoch) := Max(Count(kc, Cell(slot, b.epoch)), b.count)]
  }

  /** Per-cell maximum with what a peer reports, less the seconds too far ahead. */
  function MergeInto(kc: KeyCounts, slot: string, buckets: seq<Bucket>, maxEpoch: nat): KeyCounts {
    if buckets == [] then kc
    else MergeBucket(MergeInto(kc, slot, buckets[..|buckets| - 1], maxEpoch), slot, buckets[|buckets| - 1], maxEpoch)
  }

  predicate AnyWithin(buckets: seq<Bucket>, maxEpoch: nat) {
    exists i :: 0 <= i < |buckets| && buckets[i].epoch <= maxEpoch
  }

  function AfterMerge(s: Store, key: string, slot: string, buckets: seq<Bucket>, now: nat): Store {
    var maxEpoch := now + FUTURE_SKEW_TOLERANCE_SECS;
    if !AnyWithin(buckets, maxEpoch) || !HasRoom(s, key) then s
    else s.(keys := s.keys[key := MergeInto(CountsOf(s, key), slot, buckets, maxEpoch)])
  }

  function AfterMergeAll(s: Store, slot: string, entries: seq<KeyEntry>, now: nat): Store {
    if entries == [] then s
    else
      var last := entries[|entries| - 1];
      AfterMerge(AfterMergeAll(s, slot, entries[..|entries| - 1], now), last.key, slot, last.buckets, now)
  }

  function PrunedCounts(kc: KeyCounts, now: nat, window: nat): KeyCounts {
    map c | c in kc && now < c.epoch + AtLeastOne(window) :: kc[c]
  }

  function PrunedKeys(keys: map<string, KeyCounts>, now: nat, window: nat): map<string, KeyCounts> {
    map k | k in keys && PrunedCounts(keys[k], now, window) != map[] :: PrunedCounts(keys[k], now, window)
  }

  function AfterPrune(s: Store, now: nat, window: nat): Store {
    var keys := PrunedKeys(s.keys, now, window);
    s.(keys := keys, changed := set k | k in s.changed && k in keys)
  }

  // ---- What the operations do to a single cell ----

  function CellOf(s: Store, key: string, c: Cell): nat {
    Count(CountsOf(s, key), c)
  }

  /** An admission adds one to one cell: the tracked key's, for this slot, for this second. */
  lemma AdmitCell(s: Store, key: string, slot: string, now: nat, window: nat, limit: nat, k: string, c: Cell)
    ensures var hit := Admits(s, key, now, window, limit) && k == TrackedKey(s, key) && c == Cell(slot, now);
            CellOf(AfterAdmit(s, key, slot, now, window, limit), k, c) == CellOf(s, k, c) + if hit then 1 else 0
  {
  }

  /** An admission marks the key it was counted under as changed, a refusal marks nothing, and neither moves the cursor
      or lets go of another mark. */
  lemma AdmitMarks(s: Store, key: string, slot: string, now: nat, window: nat, limit: nat, k: string)
    ensures var r := AfterAdmit(s, key, slot, now, window, limit);
            && (k in r.changed <==> k in s.changed || (Admits(s, key, now, window, limit) && k == TrackedKey(s, key)))
            && (k in r.keys <==> k in s.keys || k == TrackedKey(s, key)) && r.cursor == s.cursor
  {
  }

  /** What merging one bucket list makes of one cell: nothing outside the slot or beyond the
      skew bound, otherwise the largest of the old count and the counts offered for its second. */
  lemma {:induction false} MergeIntoCell(kc: KeyCounts, slot: string, buckets: seq<Bucket>, maxEpoch: nat, c: Cell)
    ensures var r := MergeInto(kc, slot, buckets, maxEpoch);
            && (c.slot != slot || maxEpoch < c.epoch ==> (c in r <==> c in kc) && Count(r, c) == Count(kc, c))
            && (c in kc ==> c in r)
            && Count(kc, c) <= Count(r, c)
            && (c.slot == slot && c.epoch <= maxEpoch ==>
                  forall b :: b in buckets && b.epoch == c.epoch ==> c in r && b.count <= r[c])
            && (c in r ==> (c in kc && r[c] == kc[c])
                           || (c.slot == slot && c.epoch <= maxEpoch && Bucket(c.epoch, r[c]) in buckets))
  {
    if buckets != [] {
      var last := buckets[|buckets| - 1];
      assert buckets == buckets[..|buckets| - 1] + [last];
      MergeIntoCell(kc, slot, buckets[..|buckets| - 1], maxEpoch, c);
    }
  }

  /** Pruning drops exactly the cells whose window has passed, the keys left with none, and the marks of those. */
  lemma PruneExactly(s: Store, now: nat, window: nat, k: string, c: Cell)
    ensures var r := AfterPrune(s, now, window);
            && (c in CountsOf(r, k) <==> c in CountsOf(s, k) && now < c.epoch + AtLeastOne(window))
            && (c in CountsOf(r, k) ==> CountsOf(r, k)[c] == CountsOf(s, k)[c])
            && (k in r.keys <==> k in s.keys && exists d :: d in s.keys[k] && now < d.epoch + AtLeastOne(window))
            && (k in r.changed <==> k in s.changed && k in r.keys) && r.cursor == s.cursor
  {
    if k in s.keys {
      var pruned := PrunedCounts(s.keys[k], now, window);
      assert pruned == map[] <==> forall d :: d in s.keys[k] ==> d !in pruned;
    }
  }

  /** Pruning forgets only what no window from now on can reach: every later total is what it would have been. */
  lemma PruneKeepsTotals(s: Store, now: nat, window: nat, key: string, later: nat)
    requires now <= later
    ensures Total(CountsOf(AfterPrune(s, now, window), key), later, window) == Total(CountsOf(s, key), later, window)
  {
    var kc, pruned := CountsOf(s, key), PrunedCounts(CountsOf(s, key), now, window);
    assert CountsOf(AfterPrune(s, now, window), key) == pruned;
    assert Windowed(pruned, later, window) == Windowed(kc, later, window);
  }
}
