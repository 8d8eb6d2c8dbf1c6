/** The per-address cap on peer connections: an entry counts an address's live guards, and the drop that empties it
    removes it in a second step. */
module PeerConnLimiters {

  const MAX_PER_PEER: nat := 4

  /** Entries, guards in hand, and drops that have seen zero but not yet tried the removal. */
  datatype Table = Table(counts: map<string, nat>, live: multiset<string>, pending: multiset<string>)

  datatype Event = Acquire(ip: string) | Decrement(ip: string) | Remove(ip: string)

  function EntryOf(t: Table, ip: string): nat {
    if ip in t.counts then t.counts[ip] else 0
  }

  predicate Grants(t: Table, ip: string) {
    EntryOf(t, ip) < MAX_PER_PEER
  }

  function AfterAcquire(t: Table, ip: string): Table {
    if Grants(t, ip)
    then t.(counts := t.counts[ip := EntryOf(t, ip) + 1], live := t.live + multiset{ip})
    else t
  }

  function AfterDecrement(t: Table, ip: string): Table {
    var gone := t.(live := t.live - multiset{ip});
    if ip !in t.counts then gone
    else
      var left := if t.counts[ip] == 0 then 0 else t.counts[ip] - 1;
      gone.(counts := t.counts[ip := left], pending := if left == 0 then t.pending + multiset{ip} else t.pending)
  }

  function AfterRemove(t: Table, ip: string): Table {
    t.(counts := if ip in t.counts && t.counts[ip] == 0 then t.counts - {ip} else t.counts,
       pending := t.pending - multiset{ip})
  }

  /** Only a live guard can be dropped, and only a drop that saw zero tries the removal. */
  function Step(t: Table, e: Event): Table {
    match e
    case Acquire(ip) => AfterAcquire(t, ip)
    case Decrement(ip) => if ip in t.live then AfterDecrement(t, ip) else t
    case Remove(ip) => if ip in t.pending then AfterRemove(t, ip) else t
  }

  function Run(t: Table, events: seq<Event>): Table {
    if events == [] then t else Step(Run(t, events[..|events| - 1]), events[|events| - 1])
  }

  const EMPTY: Table := Table(map[], multiset{}, multiset{})

  /** An address's entry is its live guards, within the cap; a zero entry awaits a removal. */
  ghost predicate Sound(t: Table, ip: string) {
    && EntryOf(t, ip) == t.live[ip] <= MAX_PER_PEER
    && (ip in t.counts && t.counts[ip] == 0 ==> 0 < t.pending[ip])
  }

  ghost predicate Inv(t: Table) {
    forall ip :: Sound(t, ip)
  }

  /** A step touches one address. */
  lemma StepElsewhere(t: Table, e: Event, ip: string)
    requires ip != e.ip
    ensures var u := Step(t, e);
            && EntryOf(u, ip) == EntryOf(t, ip) && (ip in u.counts <==> ip in t.counts)
            && u.live[ip] == t.live[ip] && u.pending[ip] == t.pending[ip]
  {
  }

  lemma StepHere(t: Table, e: Event)
    requires Sound(t, e.ip)
    ensures Sound(Step(t, e), e.ip)
  {
  }

  lemma StepKeepsInv(t: Table, e: Event)
    requires Inv(t)
    ensures Inv(Step(t, e))
  {
    forall ip
      ensures Sound(Step(t, e), ip)
    {
      assert Sound(t, ip);
      if ip == e.ip {
        StepHere(t, e);
      } else {
        StepElsewhere(t, e, ip);
      }
    }
  }

  /** Under every interleaving of acquires and the two halves of drops. */
  lemma {:induction false} RunKeepsInv(events: seq<Event>)
    ensures Inv(Run(EMPTY, events))
  {
    if events != [] {
      RunKeepsInv(events[..|events| - 1]);
      StepKeepsInv(Run(EMPTY, events[..|events| - 1]), events[|events| - 1]);
    }
  }

  /** At every moment an address has at most four live guards, another is granted exactly below four, no drop finds its
      entry at zero, and once no removal is pending no zero entry is left. */
  lemma EveryInterleaving(events: seq<Event>, ip: string)
    ensures var t := Run(EMPTY, events);
            && t.live[ip] == EntryOf(t, ip) <= MAX_PER_PEER
            && (Grants(t, ip) <==> t.live[ip] < MAX_PER_PEER)
            && (ip in t.live ==> ip in t.counts && 0 < t.counts[ip])
            && (t.pending == multiset{} && ip in t.counts ==> 0 < t.counts[ip])
  {
    RunKeepsInv(events);
    assert Sound(Run(EMPTY, events), ip);
  }

  // ---- The limiter itself ----

  class PeerConnLimiter {
    var counts: map<string, nat>
    ghost var live: multiset<string>
    ghost var pending: multiset<string>

    ghost function View(): Table
      reads this
    {
      Table(counts, live, pending)
    }

    constructor ()
      ensures View() == EMPTY && Inv(View())
    {
      counts, live, pending := map[], multiset{}, multiset{};
    }

    /** One more guard for the address, unless it has four. */
    method TryAcquire(ip: string) returns (granted: bool)
      requires Inv(View())
      modifies this
      ensures View() == Step(old(View()), Acquire(ip)) && Inv(View())
      ensures granted <==> old(live)[ip] < MAX_PER_PEER
    {
      StepKeepsInv(View(), Acquire(ip));
      assert Sound(View(), ip);
      if ip !in counts {
        counts := counts[ip := 0];
      }
      if counts[ip] >= MAX_PER_PEER {
        granted := false;
      } else {
        counts := counts[ip := counts[ip] + 1];
        live := live + multiset{ip};
        granted := true;
      }
    }

    /** The first half of a guard's drop. */
    method Decrement(ip: string) returns (nowZero: bool)
      requires Inv(View()) && ip in live
      modifies this
      ensures View() == Step(old(View()), Event.Decrement(ip)) && Inv(View())
      ensures EntryOf(old(View()), ip) == EntryOf(View(), ip) + 1 && (nowZero <==> live[ip] == 0)
    {
      StepKeepsInv(View(), Event.Decrement(ip));
      assert Sound(View(), ip);
      nowZero := false;
      live := live - multiset{ip};
      if ip in counts {
        counts := counts[ip := if counts[ip] == 0 then 0 else counts[ip] - 1];
        nowZero := counts[ip] == 0;
      }
      if nowZero {
        pending := pending + multiset{ip};
      }
    }

    /** The second half: removes the entry if it is still zero. */
    method RemoveIfZero(ip: string)
      requires Inv(View()) && ip in pending
      modifies this
      ensures View() == Step(old(View()), Remove(ip)) && Inv(View())
      ensures ip in counts ==> counts[ip] == live[ip] > 0
    {
      StepKeepsInv(View(), Remove(ip));
      assert Sound(View(), ip);
      if ip in counts && counts[ip] == 0 {
        counts := counts - {ip};
      }
      pending := pending - multiset{ip};
    }
  }
}
