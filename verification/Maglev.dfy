/** The Maglev balancer: the fill loop with its per-backend positions, and the lookup that remembers which
    backends it has already turned down. */
module Maglev {
  import opened Candidates
  import opened Primes
  import opened Rotation
  import opened MaglevTables

  /** The hash, left open: `offset` and `skip` of an id. */
  datatype Hash = Hash(offset: string -> nat, skip: string -> nat)

  datatype LookupTable = LookupTable(backends: seq<string>, entries: seq<nat>)

  function Weighted(members: seq<Member>): seq<Member> {
    if members == [] then []
    else
      var last := members[|members| - 1];
      Weighted(members[..|members| - 1]) + if 0 < Capped(last.weight, MAX_WEIGHT) then [last] else []
  }

  function Ids(members: seq<Member>): seq<string> {
    seq(|members|, i requires 0 <= i < |members| => members[i].id)
  }

  function Weights(members: seq<Member>): seq<nat> {
    seq(|members|, i requires 0 <= i < |members| => Capped(members[i].weight, MAX_WEIGHT))
  }

  function PermOf(h: Hash, id: string, size: nat): Perm
    requires 2 <= size
  {
    Perm(h.offset(id) % size, h.skip(id) % (size - 1) + 1)
  }

  function Perms(h: Hash, ids: seq<string>, size: nat): seq<Perm>
    requires 2 <= size
  {
    seq(|ids|, i requires 0 <= i < |ids| => PermOf(h, ids[i], size))
  }

  lemma {:induction false} WeightedPositive(members: seq<Member>, i: nat)
    requires i < |Weighted(members)|
    ensures 0 < Capped(Weighted(members)[i].weight, MAX_WEIGHT)
  {
    if i < |Weighted(members[..|members| - 1])| {
      WeightedPositive(members[..|members| - 1], i);
    }
  }

  /** Any hash gives well-formed permutations over a prime number of slots. */
  lemma WeightedWellFormed(members: seq<Member>, h: Hash, size: nat)
    requires Prime(size) && 0 < |Weighted(members)| < FREE
    ensures var w := Weighted(members);
            WellFormed(Weights(w), Perms(h, Ids(w), size), size) && 0 < Sum(Weights(w))
  {
    var w := Weighted(members);
    forall i | 0 <= i < |w| ensures 0 < Weights(w)[i] {
      WeightedPositive(members, i);
    }
    PositiveSum(Weights(w));
  }

  /** The table a pool's members give, built from scratch. */
  function FreshTable(members: seq<Member>, h: Hash, size: nat): LookupTable
    requires 2 <= size
  {
    var w := Weighted(members);
    if Sum(Weights(w)) == 0 then LookupTable([], [])
    else LookupTable(Ids(w), Table(Weights(w), Perms(h, Ids(w), size), size, size))
  }

  // ---- The fill loop ----

  ghost predicate Probed(entries: seq<nat>, perms: seq<Perm>, next: seq<nat>)
    requires entries != [] && |next| == |perms|
  {
    forall i :: 0 <= i < |perms| ==> next[i] <= |entries| && TakenBefore(entries, perms[i], next[i])
  }

  lemma TurnOf(ws: seq<nat>, rounds: nat, i: nat, c: nat)
    requires 0 < Sum(ws) && i < |ws| && c < ws[i]
    ensures Turn(ws, rounds * Sum(ws) + Prefix(ws, i) + c) == i
  {
    PrefixWithinSum(ws, i);
    DivModUnique(rounds * Sum(ws) + Prefix(ws, i) + c, Sum(ws), rounds, Prefix(ws, i) + c);
    PickIndexIs(ws, Prefix(ws, i) + c, i);
  }

  /** The first free slot on backend i's permutation, found from where its position stands. */
  method FindSlot(entries: array<nat>, next: array<nat>, i: nat, perm: Perm) returns (slot: nat)
    requires entries != next && i < next.Length
    requires Prime(entries.Length) && 0 < perm.skip < entries.Length && 0 < Count(entries[..], FREE)
    requires next[i] <= entries.Length && TakenBefore(entries[..], perm, next[i])
    modifies next
    ensures forall j :: 0 <= j < next.Length && j != i ==> next[j] == old(next[j])
    ensures next[i] < entries.Length && TakenBefore(entries[..], perm, next[i])
    ensures slot == Probe(perm, next[i], entries.Length) && entries[slot] == FREE
    ensures next[i] == FirstFree(entries[..], perm, 0)
  {
    ghost var now := entries[..];
    ghost var ahead := FreeSlotAhead(now, perm);
    var size := entries.Length;
    slot := (perm.offset + next[i] * perm.skip) % size;
    while entries[slot] != FREE
      invariant entries[..] == now
      invariant next[i] <= ahead
      invariant slot == Probe(perm, next[i], size)
      invariant TakenBefore(now, perm, next[i])
      invariant forall j :: 0 <= j < next.Length && j != i ==> next[j] == old(next[j])
      decreases ahead - next[i]
    {
      next[i] := next[i] + 1;
      slot := (perm.offset + next[i] * perm.skip) % size;
    }
    FirstFreeSkips(now, perm, 0, next[i]);
  }

  /** One claim: the slot found is taken and the position moves past it. */
  method ClaimSlot(ws: seq<nat>, perms: seq<Perm>, entries: array<nat>, next: array<nat>, i: nat, filled: nat)
    requires entries != next && WellFormed(ws, perms, entries.Length) && 0 < Sum(ws)
    requires i < |ws| && next.Length == |ws| && filled < entries.Length && Turn(ws, filled) == i
    requires entries[..] == Table(ws, perms, entries.Length, filled) && Probed(entries[..], perms, next[..])
    modifies entries, next
    ensures entries[..] == Table(ws, perms, entries.Length, filled + 1) && Probed(entries[..], perms, next[..])
  {
    TableCounts(ws, perms, entries.Length, filled, 0);
    assert next[..][i] == next[i];
    var slot := FindSlot(entries, next, i, perms[i]);
    ghost var before, positions := entries[..], next[..];
    assert Probed(before, perms, positions) by {
      forall j | 0 <= j < |perms| ensures positions[j] <= |before| && TakenBefore(before, perms[j], positions[j]) {
        assert j != i ==> positions[j] == old(next[..])[j];
      }
    }
    entries[slot] := i;
    assert entries[..] == before[slot := i];
    next[i] := next[i] + 1;
    assert next[..] == positions[i := positions[i] + 1];
    ClaimKeepsProbed(before, perms, positions, i, slot);
  }

  lemma ClaimKeepsProbed(entries: seq<nat>, perms: seq<Perm>, next: seq<nat>, i: nat, slot: nat)
    requires entries != [] && |next| == |perms| && Probed(entries, perms, next)
    requires i < |perms| && i != FREE && next[i] < |entries| && slot == Probe(perms[i], next[i], |entries|)
    ensures Probed(entries[slot := i], perms, next[i := next[i] + 1])
  {
    var entries', next' := entries[slot := i], next[i := next[i] + 1];
    forall j | 0 <= j < |perms| ensures next'[j] <= |entries'| && TakenBefore(entries', perms[j], next'[j]) {
      assert TakenBefore(entries, perms[j], next[j]);
      forall k: nat | k < next'[j] ensures entries'[Probe(perms[j], k, |entries'|)] != FREE {
        assert k < next[j] ==> entries[Probe(perms[j], k, |entries|)] != FREE;
      }
    }
  }

  /** The table after `filled` claims, with the positions where the source leaves them. */
  ghost predicate Filled(ws: seq<nat>, perms: seq<Perm>, entries: array<nat>, next: array<nat>, filled: nat)
    reads entries, next
  {
    && entries != next && 0 < Sum(ws) && WellFormed(ws, perms, entries.Length) && next.Length == |ws|
    && entries[..] == Table(ws, perms, entries.Length, filled) && Probed(entries[..], perms, next[..])
  }

  /** Backend i's claims of one round, cut short when the table is full. */
  method TakeTurn(ws: seq<nat>, perms: seq<Perm>, entries: array<nat>, next: array<nat>, i: nat, filled: nat,
                  ghost rounds: nat)
    returns (filled': nat)
    requires i < |ws| && Filled(ws, perms, entries, next, filled) && filled < entries.Length
    requires filled == rounds * Sum(ws) + Prefix(ws, i)
    modifies entries, next
    ensures Filled(ws, perms, entries, next, filled') && filled' <= entries.Length
    ensures filled' < entries.Length ==> filled' == filled + ws[i]
  {
    filled' := filled;
    for c := 0 to ws[i]
      invariant filled' == filled + c && filled' < entries.Length
      invariant Filled(ws, perms, entries, next, filled')
    {
      TurnOf(ws, rounds, i, c);
      ClaimSlot(ws, perms, entries, next, i, filled');
      filled' := filled' + 1;
      if filled' == entries.Length {
        return;
      }
    }
  }

  /** The fill loop ends with the whole table claimed, and its positions never change what is claimed. */
  method Fill(ws: seq<nat>, perms: seq<Perm>, size: nat) returns (entries: array<nat>)
    requires WellFormed(ws, perms, size) && 0 < Sum(ws)
    ensures fresh(entries) && entries[..] == Table(ws, perms, size, size)
  {
    var next := new nat[|ws|](_ => 0);
    entries := new nat[size](_ => FREE);
    assert entries[..] == Table(ws, perms, size, 0);
    var filled := 0;
    ghost var rounds := 0;
    label fill: while true
      invariant entries.Length == size && fresh(entries) && fresh(next)
      invariant filled == rounds * Sum(ws) && filled < size
      invariant Filled(ws, perms, entries, next, filled)
      decreases size - filled
    {
      assert ws[..0] == [];
      for i := 0 to |ws|
        invariant filled == rounds * Sum(ws) + Prefix(ws, i) && filled < size
        invariant Filled(ws, perms, entries, next, filled)
      {
        filled := TakeTurn(ws, perms, entries, next, i, filled, rounds);
        if filled == size {
          break fill;
        }
        PrefixStep(ws, i + 1);
      }
      assert ws[..|ws|] == ws;
      MulStep(rounds, Sum(ws));
      rounds := rounds + 1;
    }
  }

  /** Builds the table of a pool's members. */
  method Build(members: seq<Member>, h: Hash, size: nat) returns (table: LookupTable)
    requires Prime(size) && |members| < FREE
    ensures table == FreshTable(members, h, size)
  {
    var chosen: seq<Member> := [];
    for k := 0 to |members|
      invariant chosen == Weighted(members[..k]) && |chosen| <= k
    {
      assert members[..k + 1][..k] == members[..k];
      if 0 < Capped(members[k].weight, MAX_WEIGHT) {
        chosen := chosen + [members[k]];
      }
    }
    assert members[..|members|] == members;
    if chosen == [] {
      return LookupTable([], []);
    }
    WeightedWellFormed(members, h, size);
    var entries := Fill(Weights(chosen), Perms(h, Ids(chosen), size), size);
    return LookupTable(Ids(chosen), entries[..]);
  }

  /** The build at the size the balancer uses. */
  method BuildTable(members: seq<Member>, h: Hash) returns (table: LookupTable)
    requires |members| < FREE
    ensures table == FreshTable(members, h, TABLE_SIZE)
  {
    TableSizeIsPrime();
    table := Build(members, h, TABLE_SIZE);
  }
}
