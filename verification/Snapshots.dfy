/** The capped, rotating snapshot a node pushes to its peers: changed keys first, then the
    rest from a cursor that carries over between rounds. */
module Snapshots {
  import opened Numbers
  import opened Sums
  import opened Counters
  import opened Ordering

  const MAX_SNAPSHOT_BUCKET_ENTRIES: nat := 5_000
  const MAX_SNAPSHOT_BYTES: nat := 1024 * 1024

  /** One key's contribution to a snapshot: its own in-window cells. */
  datatype Item = Item(key: string, cells: KeyCounts)

  datatype Acc = Acc(out: seq<Item>, entries: nat, bytes: nat)

  const NOTHING: Acc := Acc([], 0, 0)

  /** What stays fixed while one snapshot is taken. */
  datatype Round = Round(keys: map<string, KeyCounts>, slot: string, cutoff: nat, maxEntries: nat, maxBytes: nat) {

    /** This node's own cells for a key that are not older than the window. */
    function Own(key: string): KeyCounts {
      if key in keys then map c | c in keys[key] && c.slot == slot && cutoff <= c.epoch :: keys[key][c] else map[]
    }

    predicate Fits(acc: Acc, key: string) {
      acc.entries == 0
      || (acc.entries + |Own(key)| <= maxEntries && acc.bytes + EstimatedBytes(key, |Own(key)|) <= maxBytes)
    }

    function Push(acc: Acc, key: string): Acc {
      Acc(acc.out + [Item(key, Own(key))], acc.entries + |Own(key)|, acc.bytes + EstimatedBytes(key, |Own(key)|))
    }
  }

  function EstimatedBytes(key: string, entries: nat): nat {
    |key| * 6 + 16 + entries * 48
  }

  datatype ChangedResult = ChangedResult(acc: Acc, changed: set<string>)

  /** The pass over the changed keys, in order; the first that does not fit stays marked. */
  function ChangedPass(x: Round, pending: seq<string>, changed: set<string>, acc: Acc): ChangedResult {
    if pending == [] then ChangedResult(acc, changed)
    else
      var key := pending[0];
      if x.Own(key) == map[] then ChangedPass(x, pending[1..], changed - {key}, acc)
      else if !x.Fits(acc, key) then ChangedResult(acc, (changed - {key}) + {key})
      else ChangedPass(x, pending[1..], changed - {key}, x.Push(acc, key))
  }

  function NextIndex(i: nat, len: nat): nat
    requires i < len
  {
    (i + 1) % len
  }

  /** How far ahead of position i position p is, going round. */
  function Dist(i: nat, p: nat, len: nat): nat
    requires i < len && p < len
  {
    if i <= p then p - i else p + len - i
  }

  datatype RotateResult = RotateResult(acc: Acc, cursor: nat)

  /** The pass over all own keys from the cursor; stops at the first that does not fit. */
  function RotatePass(x: Round, keys: seq<string>, idx: nat, steps: nat, included: set<string>, acc: Acc): RotateResult
    requires idx < |keys|
    decreases steps
  {
    if steps == 0 then RotateResult(acc, idx)
    else if keys[idx] in included || x.Own(keys[idx]) == map[] then
      RotatePass(x, keys, NextIndex(idx, |keys|), steps - 1, included, acc)
    else if !x.Fits(acc, keys[idx]) then RotateResult(acc, idx)
    else RotatePass(x, keys, NextIndex(idx, |keys|), steps - 1, included, x.Push(acc, keys[idx]))
  }

  function OwnKeys(keys: map<string, KeyCounts>, slot: string): set<string> {
    set k | k in keys && exists c :: c in keys[k] && c.slot == slot
  }

  function KeysOf(out: seq<Item>): set<string> {
    set i | 0 <= i < |out| :: out[i].key
  }

  datatype Snapshot = Snapshot(store: Store, out: seq<Item>)

  function RoundAt(s: Store, slot: string, now: nat, window: nat, maxEntries: nat, maxBytes: nat): Round {
    Round(s.keys, slot, Cutoff(now, window), maxEntries, maxBytes)
  }

  /** One snapshot: what is sent, and the store with its changed marks and cursor moved on. */
  ghost function TakeSnapshot(s: Store, x: Round): Snapshot
    requires x.keys == s.keys
  {
    SortedSeqCorrect(OwnKeys(s.keys, x.slot));
    var keys := SortedSeq(OwnKeys(s.keys, x.slot));
    if keys == [] then Snapshot(s, [])
    else
      var first := ChangedPass(x, SortedSeq(s.changed), s.changed, NOTHING);
      var second := RotatePass(x, keys, s.cursor % |keys|, |keys|, KeysOf(first.acc.out), first.acc);
      Snapshot(s.(changed := first.changed, cursor := second.cursor), second.acc.out)
  }

  // ---- Exactness ----

  ghost predicate Distinct(q: seq<string>) {
    forall i, j :: 0 <= i < j < |q| ==> q[i] != q[j]
  }

  ghost predicate DistinctKeys(out: seq<Item>) {
    forall i, j :: 0 <= i < j < |out| ==> out[i].key != out[j].key
  }

  function EntriesOf(out: seq<Item>): nat {
    if out == [] then 0 else EntriesOf(out[..|out| - 1]) + |out[|out| - 1].cells|
  }

  function BytesOf(out: seq<Item>): nat {
    if out == [] then 0
    else BytesOf(out[..|out| - 1]) + EstimatedBytes(out[|out| - 1].key, |out[|out| - 1].cells|)
  }

  /** Distinct keys, each with precisely its own in-window cells, within both caps unless alone. */
  ghost predicate Exact(x: Round, out: seq<Item>) {
    && DistinctKeys(out)
    && (forall i :: 0 <= i < |out| ==> out[i].cells == x.Own(out[i].key) && out[i].cells != map[])
    && (2 <= |out| ==> EntriesOf(out) <= x.maxEntries && BytesOf(out) <= x.maxBytes)
  }

  ghost predicate Tallied(x: Round, acc: Acc) {
    Exact(x, acc.out) && acc.entries == EntriesOf(acc.out) && acc.bytes == BytesOf(acc.out)
    && (acc.entries == 0 ==> acc.out == [])
  }

  lemma PushTallied(x: Round, acc: Acc, key: string)
    requires Tallied(x, acc) && x.Own(key) != map[] && x.Fits(acc, key)
    requires key !in KeysOf(acc.out)
    ensures Tallied(x, x.Push(acc, key))
    ensures KeysOf(x.Push(acc, key).out) == KeysOf(acc.out) + {key}
  {
    var r, item := x.Push(acc, key), Item(key, x.Own(key));
    assert r.out == acc.out + [item];
    TalliesSnoc(acc.out, item);
    DistinctSnoc(acc.out, item);
    assert |x.Own(key)| != 0;
    forall i | 0 <= i < |r.out|
      ensures r.out[i].cells == x.Own(r.out[i].key) && r.out[i].cells != map[]
    {
      assert i < |acc.out| ==> r.out[i] == acc.out[i];
    }
    PushKeys(x, acc, key);
  }

  lemma TalliesSnoc(out: seq<Item>, item: Item)
    ensures EntriesOf(out + [item]) == EntriesOf(out) + |item.cells|
    ensures BytesOf(out + [item]) == BytesOf(out) + EstimatedBytes(item.key, |item.cells|)
  {
    assert (out + [item])[..|out|] == out;
  }

  lemma DistinctSnoc(out: seq<Item>, item: Item)
    requires DistinctKeys(out) && item.key !in KeysOf(out)
    ensures DistinctKeys(out + [item])
  {
    forall i | 0 <= i < |out|
      ensures out[i].key != item.key
    {
      assert out[i].key in KeysOf(out);
    }
  }

  lemma {:induction false} ChangedPassExact(x: Round, pending: seq<string>, changed: set<string>, acc: Acc)
    requires Tallied(x, acc) && Distinct(pending)
    requires forall k :: k in pending ==> k !in KeysOf(acc.out)
    ensures Tallied(x, ChangedPass(x, pending, changed, acc).acc)
    decreases |pending|
  {
    if pending != [] {
      var key := pending[0];
      assert key in pending;
      assert forall k :: k in pending[1..] ==> k in pending && k != key;
      if x.Own(key) == map[] {
        ChangedPassExact(x, pending[1..], changed - {key}, acc);
      } else if x.Fits(acc, key) {
        PushTallied(x, acc, key);
        ChangedPassExact(x, pending[1..], changed - {key}, x.Push(acc, key));
      }
    }
  }

  /** Every key already sent is one of the first pass or has been passed over by this one. */
  ghost predicate Behind(keys: seq<string>, idx: nat, steps: nat, included: set<string>, out: seq<Item>)
    requires idx < |keys|
  {
    forall p :: 0 <= p < |keys| && Dist(idx, p, |keys|) < steps && keys[p] in KeysOf(out) ==> keys[p] in included
  }

  lemma {:induction false} RotatePassExact(x: Round, keys: seq<string>, idx: nat, steps: nat, included: set<string>,
                                           acc: Acc)
    requires idx < |keys| && steps <= |keys| && Distinct(keys)
    requires Tallied(x, acc) && Behind(keys, idx, steps, included, acc.out)
    ensures Tallied(x, RotatePass(x, keys, idx, steps, included, acc).acc)
    decreases steps
  {
    if steps != 0 {
      var next := NextIndex(idx, |keys|);
      BehindNext(keys, idx, steps, included, acc.out);
      if keys[idx] in included || x.Own(keys[idx]) == map[] {
        RotatePassExact(x, keys, next, steps - 1, included, acc);
      } else if x.Fits(acc, keys[idx]) {
        PushTallied(x, acc, keys[idx]);
        BehindPushed(x, keys, idx, steps, included, acc);
        RotatePassExact(x, keys, next, steps - 1, included, x.Push(acc, keys[idx]));
      }
    }
  }

  lemma NextIndexIs(i: nat, len: nat)
    requires i < len
    ensures NextIndex(i, len) == (if i + 1 == len then 0 else i + 1) < len
  {
  }

  /** Stepping on brings every other position one nearer. */
  lemma DistNext(i: nat, p: nat, len: nat)
    requires i < len && p < len
    ensures NextIndex(i, len) < len
    ensures p != i ==> Dist(i, p, len) == Dist(NextIndex(i, len), p, len) + 1
    ensures p == i ==> Dist(NextIndex(i, len), p, len) == len - 1
  {
    NextIndexIs(i, len);
  }

  lemma BehindNext(keys: seq<string>, idx: nat, steps: nat, included: set<string>, out: seq<Item>)
    requires idx < |keys| && 0 < steps <= |keys| && Behind(keys, idx, steps, included, out)
    ensures NextIndex(idx, |keys|) < |keys| && Behind(keys, NextIndex(idx, |keys|), steps - 1, included, out)
    ensures keys[idx] in KeysOf(out) ==> keys[idx] in included
  {
    NextIndexIs(idx, |keys|);
    assert Dist(idx, idx, |keys|) == 0;
    forall p | 0 <= p < |keys| && Dist(NextIndex(idx, |keys|), p, |keys|) < steps - 1 && keys[p] in KeysOf(out)
      ensures keys[p] in included
    {
      DistNext(idx, p, |keys|);
    }
  }

  lemma BehindPushed(x: Round, keys: seq<string>, idx: nat, steps: nat, included: set<string>, acc: Acc)
    requires idx < |keys| && 0 < steps <= |keys| && Distinct(keys) && Behind(keys, idx, steps, included, acc.out)
    ensures NextIndex(idx, |keys|) < |keys|
    ensures Behind(keys, NextIndex(idx, |keys|), steps - 1, included, x.Push(acc, keys[idx]).out)
  {
    NextIndexIs(idx, |keys|);
    PushKeys(x, acc, keys[idx]);
    forall p | 0 <= p < |keys| && Dist(NextIndex(idx, |keys|), p, |keys|) < steps - 1
               && keys[p] in KeysOf(x.Push(acc, keys[idx]).out)
      ensures keys[p] in included
    {
      DistNext(idx, p, |keys|);
    }
  }

  /** A snapshot is exact: distinct keys, precisely the node's own in-window cells, within the caps. */
  lemma SnapshotExact(s: Store, x: Round)
    requires x.keys == s.keys
    ensures Exact(x, TakeSnapshot(s, x).out)
  {
    SortedSeqCorrect(OwnKeys(s.keys, x.slot));
    SortedSeqCorrect(s.changed);
    var keys := SortedSeq(OwnKeys(s.keys, x.slot));
    if keys != [] {
      ChangedPassExact(x, SortedSeq(s.changed), s.changed, NOTHING);
      var first := ChangedPass(x, SortedSeq(s.changed), s.changed, NOTHING);
      RotatePassExact(x, keys, s.cursor % |keys|, |keys|, KeysOf(first.acc.out), first.acc);
    }
  }

  /** The cells a round may send: the slot's own of the seconds whose window has not passed. */
  lemma OwnIs(s: Store, slot: string, now: nat, window: nat, maxEntries: nat, maxBytes: nat, k: string, c: Cell)
    ensures var own := RoundAt(s, slot, now, window, maxEntries, maxBytes).Own(k);
            && (c in own <==> c in CountsOf(s, k) && c.slot == slot && now < c.epoch + AtLeastOne(window))
            && (c in own ==> own[c] == CountsOf(s, k)[c])
  {
    CutoffIs(c.epoch, now, window);
  }

  // ---- Nothing is held back that fits ----

  /** Sending this key as well would take the message past a cap. */
  ghost predicate PastCap(x: Round, out: seq<Item>, b: string) {
    && out != [] && x.Own(b) != map[] && b !in KeysOf(out)
    && (x.maxEntries < EntriesOf(out) + |x.Own(b)| || x.maxBytes < BytesOf(out) + EstimatedBytes(b, |x.Own(b)|))
  }

  lemma BlockedIsPastCap(x: Round, acc: Acc, key: string)
    requires Tallied(x, acc) && x.Own(key) != map[] && key !in KeysOf(acc.out) && !x.Fits(acc, key)
    ensures PastCap(x, acc.out, key)
  {
  }

  /** The rotating pass goes on until a key would take it past a cap, or has sent everything it came to. */
  lemma {:induction false} RotatePassStops(
      x: Round, keys: seq<string>, idx: nat, steps: nat, included: set<string>, acc: Acc, p: nat)
    requires idx < |keys| && p < |keys| && Dist(idx, p, |keys|) < steps <= |keys| && Distinct(keys)
    requires x.Own(keys[p]) != map[] && keys[p] !in included
    requires Tallied(x, acc) && Behind(keys, idx, steps, included, acc.out)
    ensures var out := RotatePass(x, keys, idx, steps, included, acc).acc.out;
            keys[p] in KeysOf(out) || exists b :: PastCap(x, out, b)
    decreases steps
  {
    var next := NextIndex(idx, |keys|);
    DistNext(idx, p, |keys|);
    BehindNext(keys, idx, steps, included, acc.out);
    if keys[idx] in included || x.Own(keys[idx]) == map[] {
      RotatePassStops(x, keys, next, steps - 1, included, acc, p);
    } else if !x.Fits(acc, keys[idx]) {
      BlockedIsPastCap(x, acc, keys[idx]);
    } else {
      PushTallied(x, acc, keys[idx]);
      BehindPushed(x, keys, idx, steps, included, acc);
      if idx == p {
        RotatePassGrows(x, keys, next, steps - 1, included, x.Push(acc, keys[idx]));
      } else {
        RotatePassStops(x, keys, next, steps - 1, included, x.Push(acc, keys[idx]), p);
      }
    }
  }

  /** A snapshot leaves a key with own in-window cells out only if some key left out would take it past a cap. */
  lemma SnapshotFull(s: Store, x: Round, k: string)
    requires x.keys == s.keys && x.Own(k) != map[]
    ensures var out := TakeSnapshot(s, x).out; k in KeysOf(out) || exists b :: PastCap(x, out, b)
  {
    SortedSeqCorrect(OwnKeys(s.keys, x.slot));
    SortedSeqCorrect(s.changed);
    OwnKeysCover(x, k);
    var keys := SortedSeq(OwnKeys(s.keys, x.slot));
    var p :| 0 <= p < |keys| && keys[p] == k;
    ChangedPassExact(x, SortedSeq(s.changed), s.changed, NOTHING);
    var first := ChangedPass(x, SortedSeq(s.changed), s.changed, NOTHING);
    if k in KeysOf(first.acc.out) {
      RotatePassGrows(x, keys, s.cursor % |keys|, |keys|, KeysOf(first.acc.out), first.acc);
    } else {
      RotatePassStops(x, keys, s.cursor % |keys|, |keys|, KeysOf(first.acc.out), first.acc, p);
    }
  }

  // ---- Nothing changed is lost ----

  lemma {:induction false} ChangedPassKeeps(x: Round, pending: seq<string>, changed: set<string>, acc: Acc, k: string)
    requires Distinct(pending)
    ensures var r := ChangedPass(x, pending, changed, acc);
            && r.changed <= changed + (set p | p in pending)
            && (k in changed && x.Own(k) != map[] ==> k in r.changed || k in KeysOf(r.acc.out))
            && (k in KeysOf(acc.out) ==> k in KeysOf(r.acc.out))
            && (pending != [] && acc.entries == 0 ==> pending[0] !in r.changed)
    decreases |pending|
  {
    if pending != [] {
      var key := pending[0];
      assert forall j :: 0 <= j < |pending[1..]| ==> pending[1..][j] != key;
      if x.Own(key) == map[] {
        ChangedPassKeeps(x, pending[1..], changed - {key}, acc, k);
      } else if x.Fits(acc, key) {
        PushKeys(x, acc, key);
        ChangedPassKeeps(x, pending[1..], changed - {key}, x.Push(acc, key), k);
      }
    }
  }

  lemma PushKeys(x: Round, acc: Acc, key: string)
    ensures KeysOf(x.Push(acc, key).out) == KeysOf(acc.out) + {key}
  {
    var r := x.Push(acc, key);
    forall k | k in KeysOf(acc.out) + {key} ensures k in KeysOf(r.out) {
      if k == key {
        assert r.out[|acc.out|].key == key;
      } else {
        var i :| 0 <= i < |acc.out| && acc.out[i].key == k;
        assert r.out[i].key == k;
      }
    }
  }

  lemma {:induction false} RotatePassGrows(x: Round, keys: seq<string>, idx: nat, steps: nat, included: set<string>,
                                           acc: Acc)
    requires idx < |keys|
    ensures var r := RotatePass(x, keys, idx, steps, included, acc);
            KeysOf(acc.out) <= KeysOf(r.acc.out) && r.cursor < |keys|
    decreases steps
  {
    if steps != 0 {
      var next := NextIndex(idx, |keys|);
      if keys[idx] in included || x.Own(keys[idx]) == map[] {
        RotatePassGrows(x, keys, next, steps - 1, included, acc);
      } else if x.Fits(acc, keys[idx]) {
        PushKeys(x, acc, keys[idx]);
        RotatePassGrows(x, keys, next, steps - 1, included, x.Push(acc, keys[idx]));
      }
    }
  }

  lemma OwnKeysCover(x: Round, k: string)
    requires x.Own(k) != map[]
    ensures k in OwnKeys(x.keys, x.slot)
  {
    var c :| c in x.Own(k);
  }

  /** A changed key with in-window cells is sent or still marked; each round clears at least one mark;
      the counts themselves are untouched. */
  lemma SnapshotKeepsChanged(s: Store, x: Round, k: string)
    requires x.keys == s.keys
    ensures var r := TakeSnapshot(s, x);
            && r.store.keys == s.keys
            && r.store.changed <= s.changed
            && (k in s.changed && x.Own(k) != map[] ==> k in r.store.changed || k in KeysOf(r.out))
            && (OwnKeys(s.keys, x.slot) != {} && s.changed != {} ==> |r.store.changed| < |s.changed|)
  {
    SortedSeqCorrect(OwnKeys(s.keys, x.slot));
    SortedSeqCorrect(s.changed);
    var keys := SortedSeq(OwnKeys(s.keys, x.slot));
    if keys == [] {
      assert OwnKeys(s.keys, x.slot) == {};
      if x.Own(k) != map[] { OwnKeysCover(x, k); }
    } else {
      var pending := SortedSeq(s.changed);
      ChangedPassKeeps(x, pending, s.changed, NOTHING, k);
      var first := ChangedPass(x, pending, s.changed, NOTHING);
      RotatePassGrows(x, keys, s.cursor % |keys|, |keys|, KeysOf(first.acc.out), first.acc);
      assert first.changed <= s.changed;
      if s.changed != {} {
        assert pending[0] in pending;
        SubsetSize(first.changed, s.changed - {pending[0]});
      }
    }
  }

  // ---- Fairness ----

  /** Passing a position either sends its key or moves the cursor closer to it. */
  lemma {:induction false} RotatePassAdvances(
      x: Round, keys: seq<string>, idx: nat, steps: nat, included: set<string>, acc: Acc, p: nat)
    requires idx < |keys| && p < |keys| && Dist(idx, p, |keys|) < steps
    requires x.Own(keys[p]) != map[] && keys[p] !in included
    ensures var r := RotatePass(x, keys, idx, steps, included, acc);
            r.cursor < |keys|
            && (keys[p] in KeysOf(r.acc.out)
                || Dist(r.cursor, p, |keys|) < Dist(idx, p, |keys|)
                || (acc.entries != 0 && r.cursor == idx))
    decreases steps
  {
    var next := NextIndex(idx, |keys|);
    DistNext(idx, p, |keys|);
    RotatePassGrows(x, keys, idx, steps, included, acc);
    if idx == p {
      if x.Fits(acc, keys[p]) {
        PushKeys(x, acc, keys[p]);
        RotatePassGrows(x, keys, next, steps - 1, included, x.Push(acc, keys[p]));
      }
    } else {
      if keys[idx] in included || x.Own(keys[idx]) == map[] {
        RotatePassAdvances(x, keys, next, steps - 1, included, acc, p);
      } else if x.Fits(acc, keys[idx]) {
        RotatePassAdvances(x, keys, next, steps - 1, included, x.Push(acc, keys[idx]), p);
      }
    }
  }

  /** The store after n snapshots with nothing else happening. */
  ghost function After(s: Store, x: Round, n: nat): Store
    requires x.keys == s.keys
    decreases n
  {
    if n == 0 then s
    else
      SnapshotKeepsChanged(s, x, "");
      After(TakeSnapshot(s, x).store, x, n - 1)
  }

  ghost predicate SentInRound(s: Store, x: Round, n: nat, k: string)
    requires x.keys == s.keys
  {
    After(s, x, n).keys == x.keys && k in KeysOf(TakeSnapshot(After(s, x, n), x).out)
  }

  /** With nothing marked changed a snapshot is the rotating pass alone. */
  lemma QuietSnapshot(s: Store, x: Round, keys: seq<string>)
    requires x.keys == s.keys && s.changed == {}
    requires keys == SortedSeq(OwnKeys(s.keys, x.slot)) && keys != []
    ensures var r := RotatePass(x, keys, s.cursor % |keys|, |keys|, {}, NOTHING);
            TakeSnapshot(s, x) == Snapshot(s.(cursor := r.cursor), r.acc.out)
  {
    SortedSeqCorrect(s.changed);
    assert SortedSeq(s.changed) == [];
    assert KeysOf([]) == {};
  }

  lemma SmallMod(i: nat, len: nat)
    requires i < len
    ensures i % len == i
  {
  }

  lemma QuietRound(s: Store, x: Round, keys: seq<string>, p: nat)
    requires x.keys == s.keys && s.changed == {}
    requires keys == SortedSeq(OwnKeys(s.keys, x.slot)) && p < |keys|
    requires x.Own(keys[p]) != map[]
    ensures var r := TakeSnapshot(s, x);
            && r.store.keys == s.keys && r.store.changed == {} && r.store.cursor < |keys|
            && (keys[p] in KeysOf(r.out) || Dist(r.store.cursor, p, |keys|) < Dist(s.cursor % |keys|, p, |keys|))
  {
    QuietSnapshot(s, x, keys);
    RotatePassAdvances(x, keys, s.cursor % |keys|, |keys|, {}, NOTHING, p);
  }

  lemma SentNextRound(s: Store, x: Round, next: Store, n: nat, k: string)
    requires x.keys == s.keys && Follows(s, x, next) && SentInRound(next, x, n, k)
    ensures SentInRound(s, x, n + 1, k)
  {
  }

  lemma {:induction false} CoverWhenNothingChanged(s: Store, x: Round, keys: seq<string>, p: nat) returns (n: nat)
    requires x.keys == s.keys && s.changed == {}
    requires keys == SortedSeq(OwnKeys(s.keys, x.slot)) && p < |keys|
    requires x.Own(keys[p]) != map[]
    ensures n <= Dist(s.cursor % |keys|, p, |keys|)
    ensures SentInRound(s, x, n, keys[p])
    decreases Dist(s.cursor % |keys|, p, |keys|)
  {
    QuietRound(s, x, keys, p);
    var r := TakeSnapshot(s, x);
    if keys[p] in KeysOf(r.out) {
      n := 0;
    } else {
      SmallMod(r.store.cursor, |keys|);
      var m := CoverWhenNothingChanged(r.store, x, keys, p);
      SentNextRound(s, x, r.store, m, keys[p]);
      n := m + 1;
    }
  }

  /** On an unchanging store every key with own in-window cells is sent within |changed| + |keys| rounds. */
  lemma {:induction false} SnapshotFair(s: Store, x: Round, k: string) returns (n: nat)
    requires x.keys == s.keys && x.Own(k) != map[]
    ensures n < |s.changed| + |OwnKeys(s.keys, x.slot)|
    ensures SentInRound(s, x, n, k)
    decreases |s.changed|
  {
    OwnKeysCover(x, k);
    if s.changed == {} {
      n := QuietFair(s, x, k);
    } else {
      var next := OneRoundOn(s, x, k);
      var m := SnapshotFair(next, x, k);
      SentNextRound(s, x, next, m, k);
      n := m + 1;
    }
  }

  ghost predicate Follows(s: Store, x: Round, next: Store)
    requires x.keys == s.keys
  {
    next == TakeSnapshot(s, x).store && next.keys == s.keys
  }

  /** One round leaves fewer marks. */
  lemma OneRoundOn(s: Store, x: Round, k: string) returns (next: Store)
    requires x.keys == s.keys && s.changed != {} && OwnKeys(s.keys, x.slot) != {}
    ensures Follows(s, x, next) && next.keys == s.keys && |next.changed| < |s.changed|
  {
    SnapshotKeepsChanged(s, x, k);
    next := TakeSnapshot(s, x).store;
  }

  lemma QuietFair(s: Store, x: Round, k: string) returns (n: nat)
    requires x.keys == s.keys && s.changed == {} && k in OwnKeys(s.keys, x.slot) && x.Own(k) != map[]
    ensures n < |OwnKeys(s.keys, x.slot)| && SentInRound(s, x, n, k)
  {
    SortedSeqCorrect(OwnKeys(s.keys, x.slot));
    var keys := SortedSeq(OwnKeys(s.keys, x.slot));
    var p :| 0 <= p < |keys| && keys[p] == k;
    n := CoverWhenNothingChanged(s, x, keys, p);
  }
}
