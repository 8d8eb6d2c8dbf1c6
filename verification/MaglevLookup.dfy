/** Looking up a key: walk the table from the key's slot and take the first acceptable owner. */
module MaglevLookup {
  import opened Options
  import opened Candidates
  import opened Primes
  import opened Rotation
  import opened MaglevTables
  import opened Maglev

  /** Every entry names a backend. */
  predicate Sound(t: LookupTable) {
    forall k :: 0 <= k < |t.entries| ==> t.entries[k] < |t.backends|
  }

  function OwnerAt(t: LookupTable, start: nat, offset: nat): string
    requires Sound(t) && t.entries != []
  {
    t.backends[t.entries[(start + offset) % |t.entries|]]
  }

  /** The plain cyclic scan: the first acceptable owner from the given offset on. */
  function Scan(t: LookupTable, accept: string -> bool, start: nat, offset: nat): Option<string>
    requires Sound(t) && t.entries != []
    decreases |t.entries| - offset
  {
    if |t.entries| <= offset then None
    else if accept(OwnerAt(t, start, offset)) then Some(OwnerAt(t, start, offset))
    else Scan(t, accept, start, offset + 1)
  }

  /** What a pick may rely on in a table. */
  predicate Usable(t: LookupTable) {
    Sound(t) && (t.backends != [] ==> t.entries != [])
  }

  function Lookup(t: LookupTable, hash: nat, accept: string -> bool): Option<string>
    requires Usable(t)
  {
    if t.backends == [] then None else Scan(t, accept, hash % |t.entries|, 0)
  }

  lemma {:induction false} ScanNone(t: LookupTable, accept: string -> bool, start: nat, offset: nat)
    requires Sound(t) && t.entries != []
    requires forall k :: 0 <= k < |t.backends| ==> !accept(t.backends[k])
    ensures Scan(t, accept, start, offset) == None
    decreases |t.entries| - offset
  {
    if offset < |t.entries| {
      ScanNone(t, accept, start, offset + 1);
    }
  }

  lemma FullySeen(seen: set<nat>, n: nat)
    requires (forall k :: k in seen ==> k < n) && |seen| == n
    ensures forall k: nat :: k < n ==> k in seen
  {
    RangeCorrect(n);
    SubsetOfSameSize(seen, Range(n));
  }

  /** The scan with its record of backends already turned down returns exactly what the plain scan returns. */
  method ScanRecording(t: LookupTable, start: nat, accept: string -> bool) returns (r: Option<string>)
    requires Sound(t) && t.backends != [] && t.entries != []
    ensures r == Scan(t, accept, start, 0)
  {
    var size := |t.entries|;
    var seen := new bool[|t.backends|](_ => false);
    var seenCount := 0;
    ghost var turnedDown: set<nat> := {};
    for offset := 0 to size
      invariant Scan(t, accept, start, 0) == Scan(t, accept, start, offset)
      invariant forall k: nat :: k in turnedDown <==> k < seen.Length && seen[k]
      invariant forall k :: 0 <= k < seen.Length && seen[k] ==> !accept(t.backends[k])
      invariant seenCount == |turnedDown| < |t.backends|
    {
      var index := t.entries[(start + offset) % size];
      if seen[index] {
        continue;
      }
      var id := t.backends[index];
      if accept(id) {
        return Some(id);
      }
      seen[index] := true;
      turnedDown := turnedDown + {index};
      seenCount := seenCount + 1;
      if seenCount == |t.backends| {
        FullySeen(turnedDown, |t.backends|);
        ScanNone(t, accept, start, offset);
        break;
      }
    }
    return None;
  }

  lemma ScanAtStart(t: LookupTable, accept: string -> bool, start: nat)
    requires Sound(t) && start < |t.entries| && accept(t.backends[t.entries[start]])
    ensures Scan(t, accept, start, 0) == Some(t.backends[t.entries[start]])
  {
    assert (start + 0) % |t.entries| == start;
  }

  /** The lookup, with its shortcut for the first slot. */
  method PickExcluding(t: LookupTable, hash: nat, accept: string -> bool) returns (r: Option<string>)
    requires Usable(t)
    ensures r == Lookup(t, hash, accept)
  {
    if t.backends == [] {
      return None;
    }
    var start := hash % |t.entries|;
    var first := t.backends[t.entries[start]];
    if accept(first) {
      ScanAtStart(t, accept, start);
      return Some(first);
    }
    r := ScanRecording(t, start, accept);
  }

  // ---- What a lookup promises ----

  lemma {:induction false} ScanFinds(t: LookupTable, accept: string -> bool, start: nat, offset: nat)
    requires Sound(t) && t.entries != []
    ensures var r := Scan(t, accept, start, offset);
            r.Some? ==> accept(r.value) && exists k :: offset <= k < |t.entries| && OwnerAt(t, start, k) == r.value
    decreases |t.entries| - offset
  {
    if offset < |t.entries| && !accept(OwnerAt(t, start, offset)) {
      ScanFinds(t, accept, start, offset + 1);
    }
  }

  lemma ScanFindsBackend(t: LookupTable, accept: string -> bool, start: nat)
    requires Sound(t) && t.entries != []
    ensures var r := Scan(t, accept, start, 0); r.Some? ==> accept(r.value) && r.value in t.backends
  {
    ScanFinds(t, accept, start, 0);
  }

  /** Shrinking the acceptable set moves only keys whose backend left it. */
  lemma {:induction false} OnlyLostKeysMove(
      t: LookupTable, before: string -> bool, after: string -> bool, start: nat, offset: nat)
    requires Sound(t) && t.entries != []
    requires forall id :: after(id) ==> before(id)
    ensures var r := Scan(t, before, start, offset);
            r.Some? && after(r.value) ==> Scan(t, after, start, offset) == r
    ensures Scan(t, before, start, offset) == None ==> Scan(t, after, start, offset) == None
    decreases |t.entries| - offset
  {
    if offset < |t.entries| {
      OnlyLostKeysMove(t, before, after, start, offset + 1);
    }
  }

  lemma {:induction false} ScanReaches(t: LookupTable, accept: string -> bool, start: nat, offset: nat, k: nat)
    requires Sound(t) && offset <= k < |t.entries| && accept(OwnerAt(t, start, k))
    ensures Scan(t, accept, start, offset).Some?
    decreases k - offset
  {
    if offset < k {
      ScanReaches(t, accept, start, offset + 1, k);
    }
  }

  // ---- Where a lookup starts ----

  /** The k-th slot on from a key's own. */
  function SlotFrom(hash: nat, k: nat, size: nat): nat
    requires 0 < size
  {
    (hash + k) % size
  }

  ghost predicate Turned(t: LookupTable, hash: nat, accept: string -> bool, k: nat)
    requires Sound(t) && t.entries != []
  {
    !accept(t.backends[t.entries[SlotFrom(hash, k, |t.entries|)]])
  }

  /** The answer owns one of the slots from the key's own on, round the table, and nobody before it is acceptable; there
      is no answer exactly when nobody at all is. */
  ghost predicate FirstFrom(t: LookupTable, hash: nat, accept: string -> bool, r: Option<string>)
    requires Sound(t) && t.entries != []
  {
    match r
    case None => forall k :: 0 <= k < |t.entries| ==> Turned(t, hash, accept, k)
    case Some(id) =>
      exists k :: && 0 <= k < |t.entries| && !Turned(t, hash, accept, k)
                  && id == t.backends[t.entries[SlotFrom(hash, k, |t.entries|)]]
                  && forall j :: 0 <= j < k ==> Turned(t, hash, accept, j)
  }

  lemma SlotFromStart(hash: nat, k: nat, size: nat)
    requires 0 < size
    ensures (hash % size + k) % size == SlotFrom(hash, k, size)
  {
    var q, r := (hash % size + k) / size, (hash % size + k) % size;
    DivMod(hash, size);
    DivMod(hash % size + k, size);
    Distribute(hash / size, q, size);
    DivModUnique(hash + k, size, hash / size + q, r);
  }

  lemma {:induction false} ScanIsFirst(t: LookupTable, accept: string -> bool, hash: nat, offset: nat)
    requires Sound(t) && t.entries != [] && offset <= |t.entries|
    requires forall j :: 0 <= j < offset ==> Turned(t, hash, accept, j)
    ensures FirstFrom(t, hash, accept, Scan(t, accept, hash % |t.entries|, offset))
    decreases |t.entries| - offset
  {
    if offset < |t.entries| {
      SlotFromStart(hash, offset, |t.entries|);
      if Turned(t, hash, accept, offset) {
        ScanIsFirst(t, accept, hash, offset + 1);
      }
    }
  }

  /** The key decides where to look: the answer is the first acceptable owner from its own slot on. In particular an
      acceptable owner of that slot is the answer. */
  lemma LookupIsFirst(t: LookupTable, hash: nat, accept: string -> bool)
    requires Usable(t) && t.backends != []
    ensures FirstFrom(t, hash, accept, Lookup(t, hash, accept))
    ensures var home := t.backends[t.entries[hash % |t.entries|]];
            accept(home) ==> Lookup(t, hash, accept) == Some(home)
  {
    ScanIsFirst(t, accept, hash, 0);
    assert SlotFrom(hash, 0, |t.entries|) == hash % |t.entries|;
    if accept(t.backends[t.entries[hash % |t.entries|]]) {
      ScanAtStart(t, accept, hash % |t.entries|);
    }
  }

  /** Every slot is some offset away from every start. */
  lemma SlotIsAhead(start: nat, slot: nat, size: nat) returns (k: nat)
    requires slot < size && start < size
    ensures k < size && (start + k) % size == slot
  {
    if start <= slot {
      k := slot - start;
      assert start + k == slot;
    } else {
      k := slot + size - start;
      DivModUnique(start + k, size, 1, slot);
    }
  }

  function TableOf(ws: seq<nat>, ids: seq<string>, perms: seq<Perm>, size: nat): LookupTable
    requires 0 < Sum(ws) && |ws| <= |perms| && 0 < size
  {
    LookupTable(ids, Table(ws, perms, size, size))
  }

  lemma BuiltTableSound(ws: seq<nat>, ids: seq<string>, perms: seq<Perm>, size: nat)
    requires WellFormed(ws, perms, size) && 0 < Sum(ws) && |ids| == |ws|
    ensures Sound(TableOf(ws, ids, perms, size))
  {
    forall k | 0 <= k < size ensures Table(ws, perms, size, size)[k] < |ids| {
      EverySlotOwned(ws, perms, size, k);
    }
  }

  /** The lookup fails on a built table exactly when no acceptable backend owns a slot. */
  lemma LookupFailsExactly(ws: seq<nat>, ids: seq<string>, perms: seq<Perm>, size: nat, accept: string -> bool,
                           start: nat)
    requires WellFormed(ws, perms, size) && 0 < Sum(ws) && |ids| == |ws| && start < size
    ensures Sound(TableOf(ws, ids, perms, size))
    ensures Scan(TableOf(ws, ids, perms, size), accept, start, 0) == None <==>
            forall i :: 0 <= i < |ids| && accept(ids[i]) ==> size <= Prefix(ws, i)
  {
    BuiltTableSound(ws, ids, perms, size);
    var t := TableOf(ws, ids, perms, size);
    if i :| 0 <= i < |ids| && accept(ids[i]) && Prefix(ws, i) < size {
      OwnsSlotExactly(ws, perms, size, i);
      CountPositive(t.entries, i);
      var slot :| 0 <= slot < size && t.entries[slot] == i;
      var k := SlotIsAhead(start, slot, size);
      ScanReaches(t, accept, start, 0, k);
    } else {
      ScanFinds(t, accept, start, 0);
      if Scan(t, accept, start, 0).Some? {
        var k :| 0 <= k < size && OwnerAt(t, start, k) == Scan(t, accept, start, 0).value;
        var slot := (start + k) % size;
        var i := t.entries[slot];
        CountPositive(t.entries, i);
        OwnsSlotExactly(ws, perms, size, i);
      }
    }
  }

  /** Some acceptable backend is always found when there is one. */
  ghost predicate Complete(ws: seq<nat>, ids: seq<string>, perms: seq<Perm>, size: nat)
    requires 0 < Sum(ws) && |ws| <= |perms| && 0 < size && Sound(TableOf(ws, ids, perms, size))
  {
    forall accept: string -> bool, start: nat :: start < size ==>
      (Scan(TableOf(ws, ids, perms, size), accept, start, 0) == None <==>
       forall i :: 0 <= i < |ids| ==> !accept(ids[i]))
  }

  /** Lookups are complete, whatever the acceptable set and key, if and only if the weights before the last
      backend leave it a slot. */
  lemma CompleteExactly(ws: seq<nat>, ids: seq<string>, perms: seq<Perm>, size: nat)
    requires WellFormed(ws, perms, size) && 0 < Sum(ws) && |ids| == |ws|
    requires forall i, j :: 0 <= i < j < |ids| ==> ids[i] != ids[j]
    ensures Sound(TableOf(ws, ids, perms, size))
    ensures Complete(ws, ids, perms, size) <==> Prefix(ws, |ws| - 1) < size
  {
    BuiltTableSound(ws, ids, perms, size);
    var t := TableOf(ws, ids, perms, size);
    var last := |ws| - 1;
    if Prefix(ws, last) < size {
      forall accept: string -> bool, start: nat | start < size
        ensures Scan(t, accept, start, 0) == None <==> forall i :: 0 <= i < |ids| ==> !accept(ids[i])
      {
        LookupFailsExactly(ws, ids, perms, size, accept, start);
        forall i | 0 <= i < |ids| ensures Prefix(ws, i) < size {
          if i < last { PrefixMonotone(ws, i, last); }
        }
      }
    } else {
      var only := (id: string) => id == ids[last];
      LookupFailsExactly(ws, ids, perms, size, only, 0);
      assert Scan(t, only, 0, 0) == None;
      assert only(ids[last]);
      assert !Complete(ws, ids, perms, size);
    }
  }

  /** In particular they are whenever the total weight is at most the table size. */
  lemma CompleteWithinTableSize(ws: seq<nat>, ids: seq<string>, perms: seq<Perm>, size: nat)
    requires WellFormed(ws, perms, size) && 0 < Sum(ws) <= size && |ids| == |ws|
    requires forall i, j :: 0 <= i < j < |ids| ==> ids[i] != ids[j]
    ensures Sound(TableOf(ws, ids, perms, size)) && Complete(ws, ids, perms, size)
  {
    PrefixWithinSum(ws, |ws| - 1);
    CompleteExactly(ws, ids, perms, size);
  }

  // ---- On the tables the balancer builds ----

  lemma {:induction false} WeightedAll(members: seq<Member>)
    requires forall i :: 0 <= i < |members| ==> 0 < members[i].weight
    ensures Weighted(members) == members
  {
    if members != [] {
      var init, last := members[..|members| - 1], members[|members| - 1];
      WeightedAll(init);
      assert 0 < Capped(last.weight, MAX_WEIGHT);
      assert Weighted(members) == init + [last];
    }
  }

  lemma {:induction false} WeightedFrom(members: seq<Member>, i: nat)
    requires i < |Weighted(members)|
    ensures Weighted(members)[i] in members && 0 < Weighted(members)[i].weight
  {
    var init := members[..|members| - 1];
    if i < |Weighted(init)| {
      WeightedFrom(init, i);
    }
  }

  lemma FreshTableIs(members: seq<Member>, h: Hash)
    requires |Weighted(members)| < FREE
    ensures var w, t := Weighted(members), FreshTable(members, h, TABLE_SIZE);
            var ws, ids, perms := Weights(w), Ids(w), Perms(h, Ids(w), TABLE_SIZE);
            && Usable(t) && (w == [] ==> t == LookupTable([], []))
            && (w != [] ==> WellFormed(ws, perms, TABLE_SIZE) && 0 < Sum(ws))
            && (w != [] ==> t == TableOf(ws, ids, perms, TABLE_SIZE))
  {
    var w := Weighted(members);
    if w != [] {
      TableSizeIsPrime();
      WeightedWellFormed(members, h, TABLE_SIZE);
      BuiltTableSound(Weights(w), Ids(w), Perms(h, Ids(w), TABLE_SIZE), TABLE_SIZE);
    }
  }

  /** What the members before the i-th claim in one turn. */
  function WeightBefore(members: seq<Member>, i: nat): nat
    requires i <= |members|
  {
    if i == 0 then 0 else WeightBefore(members, i - 1) + Capped(members[i - 1].weight, MAX_WEIGHT)
  }

  /** An acceptable member of positive weight, for whom the weights before it leave a slot. */
  predicate Reachable(members: seq<Member>, accept: string -> bool, i: nat)
    requires i < |members|
  {
    accept(members[i].id) && 0 < members[i].weight && WeightBefore(members, i) < TABLE_SIZE
  }

  /** Nobody, exactly when no acceptable member can be reached; otherwise an acceptable member of positive weight. */
  ghost predicate RightAnswer(r: Option<string>, members: seq<Member>, accept: string -> bool) {
    && (r == None <==> forall i :: 0 <= i < |members| ==> !Reachable(members, accept, i))
    && (r.Some? ==> accept(r.value) && exists m :: m in members && m.id == r.value && 0 < m.weight)
  }

  lemma {:induction false} WeightBeforeIn(members: seq<Member>, n: nat, i: nat)
    requires i <= n <= |members|
    ensures WeightBefore(members[..n], i) == WeightBefore(members, i)
  {
    if i != 0 {
      WeightBeforeIn(members, n, i - 1);
    }
  }

  /** Leaving out the members of weight zero moves nobody's share. */
  lemma {:induction false} WeightsKept(members: seq<Member>)
    ensures Sum(Weights(Weighted(members))) == WeightBefore(members, |members|)
  {
    if members != [] {
      var init, last := members[..|members| - 1], members[|members| - 1];
      WeightsKept(init);
      WeightBeforeIn(members, |init|, |init|);
      var w, ws := Weighted(members), Weights(Weighted(members));
      if 0 < Capped(last.weight, MAX_WEIGHT) {
        PrefixStep(ws, |ws|);
        assert ws[..|ws|] == ws && ws[..|ws| - 1] == Weights(Weighted(init));
      } else {
        assert w == Weighted(init);
      }
    }
  }

  lemma {:induction false} WeightedPrefix(members: seq<Member>, n: nat)
    requires n <= |members|
    ensures Weighted(members[..n]) <= Weighted(members)
  {
    if n < |members| {
      var init := members[..|members| - 1];
      WeightedPrefix(init, n);
      assert init[..n] == members[..n];
    } else {
      assert members[..n] == members;
    }
  }

  /** Where a member of positive weight stands among those. */
  lemma PlaceOf(members: seq<Member>, i: nat) returns (k: nat)
    requires i < |members| && 0 < members[i].weight
    ensures var w := Weighted(members);
            k < |w| && w[k] == members[i] && Prefix(Weights(w), k) == WeightBefore(members, i)
  {
    var w, before, upTo := Weighted(members), members[..i], members[..i + 1];
    assert upTo[..i] == before;
    k := |Weighted(before)|;
    assert Weighted(upTo) == Weighted(before) + [members[i]];
    WeightedPrefix(members, i + 1);
    WeightsKept(before);
    WeightBeforeIn(members, i, i);
    assert Weights(w)[..k] == Weights(Weighted(before));
  }

  lemma {:induction false} PlaceFrom(members: seq<Member>, k: nat) returns (i: nat)
    requires k < |Weighted(members)|
    ensures i < |members| && 0 < members[i].weight && Weighted(members)[k] == members[i]
    ensures Prefix(Weights(Weighted(members)), k) == WeightBefore(members, i)
  {
    var init := members[..|members| - 1];
    if k < |Weighted(init)| {
      i := PlaceFrom(init, k);
      WeightBeforeIn(members, |init|, i);
      assert Weights(Weighted(members))[..k] == Weights(Weighted(init))[..k];
    } else {
      i := |members| - 1;
      WeightsKept(init);
      WeightBeforeIn(members, i, i);
      assert Weights(Weighted(members))[..k] == Weights(Weighted(init));
    }
  }

  /** The positive-weight members that can be reached are the members that can be. */
  lemma ReachableAsWeighted(members: seq<Member>, accept: string -> bool)
    ensures var w := Weighted(members);
            (forall k :: 0 <= k < |w| && accept(w[k].id) ==> TABLE_SIZE <= Prefix(Weights(w), k)) <==>
            (forall i :: 0 <= i < |members| ==> !Reachable(members, accept, i))
  {
    var w := Weighted(members);
    if i :| 0 <= i < |members| && Reachable(members, accept, i) {
      var k := PlaceOf(members, i);
    }
    if k :| 0 <= k < |w| && accept(w[k].id) && Prefix(Weights(w), k) < TABLE_SIZE {
      var i := PlaceFrom(members, k);
      assert Reachable(members, accept, i);
    }
  }

  lemma FreshScan(members: seq<Member>, h: Hash, start: nat, accept: string -> bool)
    requires 0 < |Weighted(members)| < FREE && start < TABLE_SIZE
    ensures var t := FreshTable(members, h, TABLE_SIZE);
            && Sound(t) && |t.backends| == |Weighted(members)| && |t.entries| == TABLE_SIZE
            && RightAnswer(Scan(t, accept, start, 0), members, accept)
  {
    FreshTableIs(members, h);
    var w, t := Weighted(members), FreshTable(members, h, TABLE_SIZE);
    var ws, ids, perms := Weights(w), Ids(w), Perms(h, Ids(w), TABLE_SIZE);
    LookupFailsExactly(ws, ids, perms, TABLE_SIZE, accept, start);
    assert forall i :: 0 <= i < |w| ==> ids[i] == w[i].id;
    ReachableAsWeighted(members, accept);
    ScanFindsBackend(t, accept, start);
    var r := Scan(t, accept, start, 0);
    if r.Some? {
      var i :| 0 <= i < |w| && ids[i] == r.value;
      WeightedFrom(members, i);
    }
  }

  /** A lookup in the table built from a pool's members answers rightly. */
  lemma FreshLookup(members: seq<Member>, h: Hash, hash: nat, accept: string -> bool)
    requires |Weighted(members)| < FREE
    ensures Usable(FreshTable(members, h, TABLE_SIZE))
    ensures RightAnswer(Lookup(FreshTable(members, h, TABLE_SIZE), hash, accept), members, accept)
  {
    FreshTableIs(members, h);
    ReachableAsWeighted(members, accept);
    if Weighted(members) != [] {
      FreshScan(members, h, hash % TABLE_SIZE, accept);
    }
  }

  lemma {:induction false} WeightsBeforeZero(members: seq<Member>, i: nat)
    requires i <= |members| && forall j :: 0 <= j < i ==> members[j].weight == 0
    ensures WeightBefore(members, i) == 0
  {
    if i != 0 {
      WeightsBeforeZero(members, i - 1);
    }
  }

  /** The hash decides the slots: the first member of positive weight owns, for each unit of its weight, the slots its
      hashed offset and skip lead to. */
  lemma FirstMemberSlots(members: seq<Member>, h: Hash, i: nat, k: nat)
    requires i < |members| && 0 < members[i].weight && |Weighted(members)| < FREE
    requires (forall j :: 0 <= j < i ==> members[j].weight == 0) && k < Capped(members[i].weight, MAX_WEIGHT)
    ensures var t, id := FreshTable(members, h, TABLE_SIZE), members[i].id;
            var skip := h.skip(id) % (TABLE_SIZE - 1) + 1;
            && Usable(t) && t.backends != [] && |t.entries| == TABLE_SIZE
            && t.backends[t.entries[(h.offset(id) % TABLE_SIZE + k * skip) % TABLE_SIZE]] == id
  {
    FreshTableIs(members, h);
    var w := Weighted(members);
    var ws, perms := Weights(w), Perms(h, Ids(w), TABLE_SIZE);
    var place := PlaceOf(members, i);
    WeightsBeforeZero(members, i);
    if place != 0 {
      PrefixMonotone(ws, 0, place);
    }
    FirstOwnsItsSteps(ws, perms, TABLE_SIZE, k);
  }

  lemma {:induction false} ConstantSum(ws: seq<nat>, c: nat)
    requires forall i :: 0 <= i < |ws| ==> ws[i] == c
    ensures Sum(ws) == |ws| * c
  {
    if ws != [] {
      ConstantSum(ws[1..], c);
      MulStep(|ws| - 1, c);
    }
  }

  /** 657 backends at the largest weight the balancer honours: the last gets none of the 65537 slots, so whatever the
      hash and whatever the key, a lookup that may use only that backend finds nobody. */
  lemma LookupCanMiss(members: seq<Member>, h: Hash, accept: string -> bool, start: nat)
    requires |members| == 657 && start < TABLE_SIZE
    requires forall i :: 0 <= i < 657 ==> members[i].weight == MAX_WEIGHT
    requires forall i :: 0 <= i < 657 ==> (accept(members[i].id) <==> i == 656)
    ensures var t := FreshTable(members, h, TABLE_SIZE);
            && Sound(t) && t.backends == Ids(members) && t.entries != []
            && Scan(t, accept, start, 0) == None
  {
    WeightedAll(members);
    TableSizeIsPrime();
    WeightedWellFormed(members, h, TABLE_SIZE);
    var ws, ids, perms := Weights(members), Ids(members), Perms(h, Ids(members), TABLE_SIZE);
    ConstantSum(ws[..656], MAX_WEIGHT);
    LookupFailsExactly(ws, ids, perms, TABLE_SIZE, accept, start);
  }
}
