/** Building the Maglev table. Backends take turns in proportion to weight; on its turn a backend claims
    the first free slot of its own permutation. The source keeps a position per backend so as not to probe
    a permutation from its start each time; `Table` is the same thing without the positions. */
module MaglevTables {
  import opened Primes
  import opened Rotation

  const TABLE_SIZE: nat := 65537
  const MAX_WEIGHT: nat := 100
  const FREE: nat := 0xFFFF_FFFF

  datatype Perm = Perm(offset: nat, skip: nat)

  function Probe(perm: Perm, n: nat, size: nat): nat
    requires 0 < size
  {
    SlotAt(perm.offset, perm.skip, n, size)
  }

  /** A prime table size, a proper permutation for each backend, positive weights. */
  ghost predicate WellFormed(ws: seq<nat>, perms: seq<Perm>, size: nat) {
    && Prime(size) && 0 < |ws| == |perms| < FREE
    && (forall i :: 0 <= i < |ws| ==> 0 < ws[i])
    && (forall i :: 0 <= i < |ws| ==> 0 < perms[i].skip < size)
  }

  // ---- The simple form ----

  /** The first step, from n on, at which the permutation meets a free slot. */
  function FirstFree(entries: seq<nat>, perm: Perm, n: nat): nat
    requires entries != []
    decreases |entries| - n
  {
    if |entries| <= n || entries[Probe(perm, n, |entries|)] == FREE then n else FirstFree(entries, perm, n + 1)
  }

  function Claim(entries: seq<nat>, i: nat, perm: Perm): seq<nat>
    requires entries != []
  {
    var n := FirstFree(entries, perm, 0);
    if n < |entries| then entries[Probe(perm, n, |entries|) := i] else entries
  }

  lemma {:induction false} PositiveSum(ws: seq<nat>)
    requires ws != [] && 0 < ws[0]
    ensures 0 < Sum(ws)
  {
  }

  /** Whose turn the t-th claim is. */
  function Turn(ws: seq<nat>, t: nat): nat
    requires 0 < Sum(ws)
  {
    PickIndex(ws, t % Sum(ws))
  }

  /** The table after t claims. */
  function Table(ws: seq<nat>, perms: seq<Perm>, size: nat, t: nat): (entries: seq<nat>)
    requires 0 < Sum(ws) && |ws| <= |perms| && 0 < size
    ensures |entries| == size
  {
    if t == 0 then seq(size, _ => FREE)
    else
      PickIndexInInterval(ws, (t - 1) % Sum(ws));
      Claim(Table(ws, perms, size, t - 1), Turn(ws, t - 1), perms[Turn(ws, t - 1)])
  }

  // ---- Counting slots ----

  function Count(entries: seq<nat>, v: nat): nat {
    if entries == [] then 0
    else Count(entries[..|entries| - 1], v) + if entries[|entries| - 1] == v then 1 else 0
  }

  lemma {:induction false} CountUpdate(entries: seq<nat>, k: nat, v: nat, x: nat)
    requires k < |entries|
    ensures Count(entries[k := v], x) + (if entries[k] == x then 1 else 0) ==
            Count(entries, x) + if v == x then 1 else 0
  {
    var init := entries[..|entries| - 1];
    if k == |entries| - 1 {
      assert entries[k := v][..k] == init;
    } else {
      CountUpdate(init, k, v, x);
      assert entries[k := v][..|entries| - 1] == init[k := v];
    }
  }

  lemma {:induction false} CountPositive(entries: seq<nat>, v: nat)
    ensures 0 < Count(entries, v) <==> exists k :: 0 <= k < |entries| && entries[k] == v
  {
    if entries != [] {
      var init := entries[..|entries| - 1];
      CountPositive(init, v);
      if k :| 0 <= k < |init| && init[k] == v {
        assert entries[k] == v;
      }
    }
  }

  lemma {:induction false} CountAllFree(size: nat, v: nat)
    ensures Count(seq(size, _ => FREE), v) == if v == FREE then size else 0
  {
    if size != 0 {
      CountAllFree(size - 1, v);
      assert seq(size, _ => FREE)[..size - 1] == seq(size - 1, _ => FREE);
    }
  }

  // ---- A free slot is always found ----

  lemma {:induction false} FirstFreeFinds(entries: seq<nat>, perm: Perm, m: nat, n: nat)
    requires m <= n < |entries| && entries[Probe(perm, n, |entries|)] == FREE
    ensures m <= FirstFree(entries, perm, m) <= n
    ensures entries[Probe(perm, FirstFree(entries, perm, m), |entries|)] == FREE
    decreases n - m
  {
    if entries[Probe(perm, m, |entries|)] != FREE {
      FirstFreeFinds(entries, perm, m + 1, n);
    }
  }

  ghost predicate TakenBefore(entries: seq<nat>, perm: Perm, n: nat)
    requires entries != []
  {
    forall k: nat :: k < n ==> entries[Probe(perm, k, |entries|)] != FREE
  }

  /** With every earlier step taken, probing may start at step n. */
  lemma {:induction false} FirstFreeSkips(entries: seq<nat>, perm: Perm, m: nat, n: nat)
    requires entries != [] && m <= n <= |entries| && TakenBefore(entries, perm, n)
    ensures FirstFree(entries, perm, m) == FirstFree(entries, perm, n)
    decreases n - m
  {
    if m < n {
      FirstFreeSkips(entries, perm, m + 1, n);
    }
  }

  /** While a slot is free, no permutation has been used up. */
  lemma FreeSlotAhead(entries: seq<nat>, perm: Perm) returns (n: nat)
    requires Prime(|entries|) && 0 < perm.skip < |entries| && 0 < Count(entries, FREE)
    ensures n < |entries| && entries[Probe(perm, n, |entries|)] == FREE
  {
    CountPositive(entries, FREE);
    var slot :| 0 <= slot < |entries| && entries[slot] == FREE;
    EverySlotVisited(perm.offset, perm.skip, |entries|, slot);
    n :| 0 <= n < |entries| && SlotAt(perm.offset, perm.skip, n, |entries|) == slot;
  }

  lemma ClaimCounts(entries: seq<nat>, i: nat, perm: Perm, x: nat)
    requires Prime(|entries|) && 0 < perm.skip < |entries| && 0 < Count(entries, FREE) && i != FREE
    ensures Count(Claim(entries, i, perm), x) ==
            Count(entries, x) + (if x == i then 1 else 0) - if x == FREE then 1 else 0
  {
    var n := FreeSlotAhead(entries, perm);
    FirstFreeFinds(entries, perm, 0, n);
    CountUpdate(entries, Probe(perm, FirstFree(entries, perm, 0), |entries|), i, x);
  }

  /** Until the table is full every claim takes one free slot for the backend whose turn it is. */
  lemma {:induction false} TableCounts(ws: seq<nat>, perms: seq<Perm>, size: nat, t: nat, x: nat)
    requires WellFormed(ws, perms, size) && 0 < Sum(ws) && t <= size
    ensures Count(Table(ws, perms, size, t), FREE) == size - t
    ensures x != FREE ==> Count(Table(ws, perms, size, t), x) == Picks(ws, x, 0, t)
  {
    if t == 0 {
      CountAllFree(size, FREE);
      CountAllFree(size, x);
    } else {
      TableCounts(ws, perms, size, t - 1, x);
      PickIndexInInterval(ws, (t - 1) % Sum(ws));
      var i := Turn(ws, t - 1);
      ClaimCounts(Table(ws, perms, size, t - 1), i, perms[i], x);
      ClaimCounts(Table(ws, perms, size, t - 1), i, perms[i], FREE);
    }
  }

  lemma {:induction false} TableEntries(ws: seq<nat>, perms: seq<Perm>, size: nat, t: nat, k: nat)
    requires 0 < Sum(ws) && |ws| <= |perms| && k < size
    ensures Table(ws, perms, size, t)[k] == FREE || Table(ws, perms, size, t)[k] < |ws|
  {
    if t != 0 {
      TableEntries(ws, perms, size, t - 1, k);
      PickIndexInInterval(ws, (t - 1) % Sum(ws));
    }
  }

  // ---- The finished table ----

  /** Every slot is owned. */
  lemma EverySlotOwned(ws: seq<nat>, perms: seq<Perm>, size: nat, k: nat)
    requires WellFormed(ws, perms, size) && 0 < Sum(ws) && k < size
    ensures Table(ws, perms, size, size)[k] < |ws|
  {
    TableCounts(ws, perms, size, size, 0);
    CountPositive(Table(ws, perms, size, size), FREE);
    TableEntries(ws, perms, size, size, k);
  }

  lemma OwnedIsShare(ws: seq<nat>, perms: seq<Perm>, size: nat, i: nat)
    requires WellFormed(ws, perms, size) && 0 < Sum(ws) && i < |ws|
    ensures Count(Table(ws, perms, size, size), i) == Share(ws, i, size)
  {
    TableCounts(ws, perms, size, size, i);
    PicksAreShares(ws, i, 0, size);
    PrefixWithinSum(ws, i);
    assert 0 / Sum(ws) == 0 && 0 % Sum(ws) == 0;
  }

  /** Slots are shared out in proportion to weight, to within one turn. */
  lemma SharesProportional(ws: seq<nat>, perms: seq<Perm>, size: nat, i: nat, j: nat)
    requires WellFormed(ws, perms, size) && 0 < Sum(ws) && i < |ws| && j < |ws|
    ensures var t := Table(ws, perms, size, size);
            -(ws[i] * ws[j]) <= Count(t, i) * ws[j] - Count(t, j) * ws[i] <= ws[i] * ws[j]
  {
    OwnedIsShare(ws, perms, size, i);
    OwnedIsShare(ws, perms, size, j);
    CrossShares(ws, i, j, size);
  }

  function OwnedUpTo(entries: seq<nat>, k: nat): nat {
    if k == 0 then 0 else OwnedUpTo(entries, k - 1) + Count(entries, k - 1)
  }

  lemma {:induction false} OwnedUpToIsShares(ws: seq<nat>, perms: seq<Perm>, size: nat, k: nat)
    requires WellFormed(ws, perms, size) && 0 < Sum(ws) && k <= |ws|
    ensures OwnedUpTo(Table(ws, perms, size, size), k) == SharesUpTo(ws, k, size)
  {
    if k != 0 {
      OwnedUpToIsShares(ws, perms, size, k - 1);
      OwnedIsShare(ws, perms, size, k - 1);
    }
  }

  /** The slots the backends own add up to the whole table. */
  lemma OwnedSlotsAddUp(ws: seq<nat>, perms: seq<Perm>, size: nat)
    requires WellFormed(ws, perms, size) && 0 < Sum(ws)
    ensures OwnedUpTo(Table(ws, perms, size, size), |ws|) == size
  {
    OwnedUpToIsShares(ws, perms, size, |ws|);
    SharesAddUp(ws, size);
  }

  /** A backend owns a slot exactly when the weights before it leave room. */
  lemma OwnsSlotExactly(ws: seq<nat>, perms: seq<Perm>, size: nat, i: nat)
    requires WellFormed(ws, perms, size) && 0 < Sum(ws) && i < |ws|
    ensures 0 < Count(Table(ws, perms, size, size), i) <==> Prefix(ws, i) < size
  {
    OwnedIsShare(ws, perms, size, i);
    SharePositive(ws, i, size);
  }

  // ---- Which slots ----

  /** A slot once claimed keeps its owner. */
  lemma {:induction false} ClaimsLast(ws: seq<nat>, perms: seq<Perm>, size: nat, t: nat, u: nat, k: nat)
    requires WellFormed(ws, perms, size) && 0 < Sum(ws) && t <= u <= size && k < size
    requires Table(ws, perms, size, t)[k] != FREE
    ensures Table(ws, perms, size, u)[k] == Table(ws, perms, size, t)[k]
    decreases u
  {
    if t < u {
      ClaimsLast(ws, perms, size, t, u - 1, k);
      PickIndexInInterval(ws, (u - 1) % Sum(ws));
      var entries, perm := Table(ws, perms, size, u - 1), perms[Turn(ws, u - 1)];
      TableCounts(ws, perms, size, u - 1, FREE);
      var n := FreeSlotAhead(entries, perm);
      FirstFreeFinds(entries, perm, 0, n);
    }
  }

  /** The first t steps of a permutation are the i-th backend's, and nothing else is claimed. */
  ghost predicate OwnsSteps(entries: seq<nat>, i: nat, perm: Perm, t: nat)
    requires entries != []
  {
    && (forall k :: 0 <= k < t ==> entries[Probe(perm, k, |entries|)] == i)
    && (forall k :: t <= k < |entries| ==> entries[Probe(perm, k, |entries|)] == FREE)
  }

  lemma NextStep(entries: seq<nat>, i: nat, perm: Perm, t: nat)
    requires Prime(|entries|) && 0 < perm.skip < |entries| && i != FREE && t < |entries|
    requires OwnsSteps(entries, i, perm, t)
    ensures OwnsSteps(Claim(entries, i, perm), i, perm, t + 1)
  {
    FirstFreeSkips(entries, perm, 0, t);
    forall k: nat | k < |entries| && k != t
      ensures Probe(perm, k, |entries|) != Probe(perm, t, |entries|)
    {
      if k < t {
        StepsDistinct(perm.offset, perm.skip, |entries|, k, t);
      } else {
        StepsDistinct(perm.offset, perm.skip, |entries|, t, k);
      }
    }
  }

  lemma {:induction false} FirstTurn(ws: seq<nat>, perms: seq<Perm>, size: nat, t: nat)
    requires WellFormed(ws, perms, size) && t <= ws[0] && t <= size
    ensures 0 < Sum(ws) && OwnsSteps(Table(ws, perms, size, t), 0, perms[0], t)
  {
    PositiveSum(ws);
    if t != 0 {
      FirstTurn(ws, perms, size, t - 1);
      PrefixWithinSum(ws, 0);
      DivModUnique(t - 1, Sum(ws), 0, t - 1);
      assert Prefix(ws, 0) == 0;
      PickIndexIs(ws, t - 1, 0);
      NextStep(Table(ws, perms, size, t - 1), 0, perms[0], t - 1);
    }
  }

  /** In the finished table the first backend owns the first slots of its own sequence, one for each unit of weight. */
  lemma FirstOwnsItsSteps(ws: seq<nat>, perms: seq<Perm>, size: nat, k: nat)
    requires WellFormed(ws, perms, size) && k < ws[0] && k < size
    ensures 0 < Sum(ws) && Table(ws, perms, size, size)[(perms[0].offset + k * perms[0].skip) % size] == 0
  {
    FirstTurn(ws, perms, size, k + 1);
    assert Probe(perms[0], k, size) == (perms[0].offset + k * perms[0].skip) % size;
    ClaimsLast(ws, perms, size, k + 1, size, Probe(perms[0], k, size));
  }
}
