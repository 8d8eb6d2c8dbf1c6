/** The counter store as the object the source updates in place, method by method,
    each proved against the value-level operation of the same name. */
module CounterStores {
  import opened Sums
  import opened Slots
  import opened Counters
  import opened Ordering
  import opened Snapshots

  /** Adds up the cells of the window one by one. */
  method TotalInWindow(kc: KeyCounts, now: nat, window: nat) returns (total: nat)
    ensures total == Total(kc, now, window)
  {
    var cutoff := Cutoff(now, window);
    total := 0;
    var todo := kc;
    while todo != map[]
      invariant total + MapSum(Windowed(todo, now, window)) == Total(kc, now, window)
      decreases |todo|
    {
      var c :| c in todo;
      var rest := todo - {c};
      MapSizeRemove(todo, c);
      ghost var before := Windowed(todo, now, window);
      CutoffIs(c.epoch, now, window);
      if cutoff <= c.epoch <= now {
        MapSumRemove(before, c);
        assert before - {c} == Windowed(rest, now, window);
        total := total + todo[c];
      } else {
        assert before == Windowed(rest, now, window);
      }
      todo := rest;
    }
    assert Windowed(todo, now, window) == map[];
  }

  method MergeBuckets(kc: KeyCounts, slot: string, buckets: seq<Bucket>, maxEpoch: nat) returns (r: KeyCounts)
    ensures r == MergeInto(kc, slot, buckets, maxEpoch)
  {
    r := kc;
    for i := 0 to |buckets|
      invariant r == MergeInto(kc, slot, buckets[..i], maxEpoch)
    {
      var b := buckets[i];
      assert buckets[..i + 1][..i] == buckets[..i];
      if b.epoch <= maxEpoch {
        r := r[Cell(slot, b.epoch) := Max(Count(r, Cell(slot, b.epoch)), b.count)];
      }
    }
    assert buckets[..|buckets|] == buckets;
  }

  /** Drops the cells before the window, one by one. */
  method PruneCounts(kc: KeyCounts, now: nat, window: nat) returns (r: KeyCounts)
    ensures r == PrunedCounts(kc, now, window)
  {
    var cutoff := Cutoff(now, window);
    r := kc;
    var todo := kc.Keys;
    while todo != {}
      invariant todo <= r.Keys <= kc.Keys && forall c <- r :: r[c] == kc[c]
      invariant forall c <- kc :: c !in todo ==> (c in r <==> cutoff <= c.epoch)
      decreases |todo|
    {
      var c :| c in todo;
      if c.epoch < cutoff {
        r := r - {c};
      }
      todo := todo - {c};
    }
  }

  /** The second pass of a snapshot: from the cursor on, every key not yet sent, until one does not fit. */
  method SendRotating(x: Round, sorted: seq<string>, start: nat, included: set<string>, first: Acc)
    returns (r: RotateResult)
    requires start < |sorted|
    ensures r == RotatePass(x, sorted, start, |sorted|, included, first)
  {
    var acc, len := first, |sorted|;
    var idx: nat := start;
    var steps: nat := len;
    while 0 < steps
      invariant idx < len
      invariant RotatePass(x, sorted, idx, steps, included, acc) == RotatePass(x, sorted, start, len, included, first)
      decreases steps
    {
      if sorted[idx] !in included {
        var own := x.Own(sorted[idx]);
        if own != map[] {
          if !x.Fits(acc, sorted[idx]) {
            break;
          }
          acc := x.Push(acc, sorted[idx]);
        }
      }
      idx := (idx + 1) % len;
      steps := steps - 1;
    }
    r := RotateResult(acc, idx);
  }

  /** A request for a key already counted. */
  lemma AdmitKnown(s: Store, key: string, slot: string, now: nat, window: nat, limit: nat)
    requires key in s.keys
    ensures Admits(s, key, now, window, limit) <==> Total(s.keys[key], now, window) < limit
    ensures AfterAdmit(s, key, slot, now, window, limit) ==
            if Total(s.keys[key], now, window) < limit
            then s.(keys := s.keys[key := Recorded(s.keys[key], slot, now)], changed := s.changed + {key})
            else s
  {
    assert s.keys[key := s.keys[key]] == s.keys;
  }

  /** A request for a new key, counted under it or under the overflow key. */
  lemma AdmitNew(s: Store, key: string, slot: string, now: nat, window: nat, limit: nat, tracked: string, kc: KeyCounts)
    requires key !in s.keys && tracked == (if MAX_TRACKED_KEYS <= |s.keys| then OverflowKey(key) else key)
    requires kc == CountsOf(s, tracked)
    ensures Admits(s, key, now, window, limit) <==> Total(kc, now, window) < limit
    ensures AfterAdmit(s, key, slot, now, window, limit) ==
            if Total(kc, now, window) < limit
            then s.(keys := s.keys[tracked := kc][tracked := Recorded(kc, slot, now)], changed := s.changed + {tracked})
            else s.(keys := s.keys[tracked := kc])
  {
    assert s.keys[tracked := kc][tracked := Recorded(kc, slot, now)] == s.keys[tracked := Recorded(kc, slot, now)];
  }

  class CounterStore {
    const windowSecs: nat
    var keys: map<string, KeyCounts>
    var changed: set<string>
    var snapshotCursor: nat

    ghost function View(): Store
      reads this
    {
      Store(keys, changed, snapshotCursor)
    }

    constructor (window: nat)
      ensures windowSecs == Max(window, 1)
      ensures View() == EMPTY
    {
      windowSecs := Max(window, 1);
      keys, changed, snapshotCursor := map[], {}, 0;
    }

    /** Decides and records one request; a refusal leaves every count as it was. */
    method TryAdmit(key: string, slot: string, now: nat, limit: nat) returns (admitted: bool)
      modifies this
      ensures admitted == old(Admits(View(), key, now, windowSecs, limit))
      ensures View() == old(AfterAdmit(View(), key, slot, now, windowSecs, limit))
    {
      if key in keys {
        AdmitKnown(View(), key, slot, now, windowSecs, limit);
        var total := TotalInWindow(keys[key], now, windowSecs);
        admitted := total < limit;
        if admitted {
          keys := keys[key := Recorded(keys[key], slot, now)];
          changed := changed + {key};
        }
        return;
      }
      var tracked := if MAX_TRACKED_KEYS <= |keys| then OverflowKey(key) else key;
      var kc := if tracked in keys then keys[tracked] else map[];
      AdmitNew(View(), key, slot, now, windowSecs, limit, tracked, kc);
      keys := keys[tracked := kc];
      var total := TotalInWindow(kc, now, windowSecs);
      admitted := total < limit;
      if admitted {
        keys := keys[tracked := Recorded(kc, slot, now)];
        changed := changed + {tracked};
      }
    }

    /** Takes in a peer's report of its own cells. */
    method Merge(key: string, slot: string, buckets: seq<Bucket>, now: nat)
      modifies this`keys
      ensures View() == old(AfterMerge(View(), key, slot, buckets, now))
    {
      var maxEpoch := now + FUTURE_SKEW_TOLERANCE_SECS;
      if !AnyWithin(buckets, maxEpoch) {
        return;
      }
      if key in keys {
        var kc := MergeBuckets(keys[key], slot, buckets, maxEpoch);
        keys := keys[key := kc];
        return;
      }
      if MAX_TRACKED_KEYS <= |keys| {
        return;
      }
      var kc := MergeBuckets(map[], slot, buckets, maxEpoch);
      keys := keys[key := kc];
    }

    /** Merges the entries of one message in turn. */
    method MergeAll(slot: string, entries: seq<KeyEntry>, now: nat)
      modifies this`keys
      ensures View() == old(AfterMergeAll(View(), slot, entries, now))
    {
      for i := 0 to |entries|
        invariant View() == AfterMergeAll(old(View()), slot, entries[..i], now)
      {
        assert entries[..i + 1][..i] == entries[..i];
        Merge(entries[i].key, slot, entries[i].buckets, now);
      }
      assert entries[..|entries|] == entries;
    }

    /** Drops the cells before the window, then the keys left empty, then the marks of keys no longer there. No total
        from now on is changed. */
    method Prune(now: nat)
      modifies this`keys, this`changed
      ensures View() == old(AfterPrune(View(), now, windowSecs))
      ensures forall key, later: nat :: now <= later ==>
                Total(CountsOf(View(), key), later, windowSecs) == old(Total(CountsOf(View(), key), later, windowSecs))
    {
      ghost var before := View();
      RetainKeys(now);
      RetainMarks();
      forall key, later: nat | now <= later
        ensures Total(CountsOf(View(), key), later, windowSecs) == Total(CountsOf(before, key), later, windowSecs)
      {
        PruneKeepsTotals(before, now, windowSecs, key, later);
      }
    }

    /** Prunes key after key in place and removes those left with nothing. */
    method RetainKeys(now: nat)
      modifies this`keys
      ensures keys == PrunedKeys(old(keys), now, windowSecs)
    {
      var todo := keys.Keys;
      while todo != {}
        invariant todo <= old(keys).Keys && keys.Keys <= old(keys).Keys
        invariant forall k <- todo :: k in keys && keys[k] == old(keys)[k]
        invariant forall k <- old(keys) :: k !in todo ==>
                    var kept := PrunedCounts(old(keys)[k], now, windowSecs);
                    (k in keys <==> kept != map[]) && (k in keys ==> keys[k] == kept)
        decreases |todo|
      {
        var k :| k in todo;
        var kept := PruneCounts(keys[k], now, windowSecs);
        if kept == map[] {
          keys := keys - {k};
        } else {
          keys := keys[k := kept];
        }
        todo := todo - {k};
      }
    }

    method RetainMarks()
      modifies this`changed
      ensures changed == set k | k in old(changed) && k in keys
    {
      var todo := changed;
      while todo != {}
        invariant todo <= changed <= old(changed)
        invariant forall k <- old(changed) :: k !in todo ==> (k in changed <==> k in keys)
        decreases |todo|
      {
        var k :| k in todo;
        if k !in keys {
          changed := changed - {k};
        }
        todo := todo - {k};
      }
    }

    method SnapshotOwn(slot: string, now: nat) returns (out: seq<Item>)
      modifies this`changed, this`snapshotCursor
      ensures var x := old(RoundAt(View(), slot, now, windowSecs, MAX_SNAPSHOT_BUCKET_ENTRIES, MAX_SNAPSHOT_BYTES));
              Snapshot(View(), out) == TakeSnapshot(old(View()), x)
    {
      out := SnapshotOwnCapped(slot, now, MAX_SNAPSHOT_BUCKET_ENTRIES, MAX_SNAPSHOT_BYTES);
    }

    method SnapshotOwnCapped(slot: string, now: nat, maxEntries: nat, maxBytes: nat) returns (out: seq<Item>)
      modifies this`changed, this`snapshotCursor
      ensures var x := old(RoundAt(View(), slot, now, windowSecs, maxEntries, maxBytes));
              Snapshot(View(), out) == TakeSnapshot(old(View()), x)
    {
      var x := Round(keys, slot, Cutoff(now, windowSecs), maxEntries, maxBytes);
      var sorted := SortStrings(OwnKeys(keys, slot));
      if sorted == [] {
        return [];
      }
      var first := SendChanged(x);
      var second := SendRotating(x, sorted, snapshotCursor % |sorted|, KeysOf(first.out), first);
      snapshotCursor := second.cursor;
      out := second.acc.out;
    }

    /** The first pass of a snapshot: unmark and send the changed keys in order, until one does not fit. */
    method SendChanged(x: Round) returns (acc: Acc)
      modifies this`changed
      ensures ChangedResult(acc, changed) == ChangedPass(x, SortedSeq(old(changed)), old(changed), NOTHING)
    {
      acc := NOTHING;
      var pending := SortStrings(changed);
      ghost var whole := ChangedPass(x, pending, changed, acc);
      while pending != []
        invariant ChangedPass(x, pending, changed, acc) == whole
        decreases |pending|
      {
        var key := pending[0];
        changed := changed - {key};
        if x.Own(key) != map[] {
          if !x.Fits(acc, key) {
            changed := changed + {key};
            return;
          }
          acc := x.Push(acc, key);
        }
        pending := pending[1..];
      }
    }
  }
}
