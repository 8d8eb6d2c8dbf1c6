/** Which backends of a pool may take traffic, computed from a snapshot of their flags: the per-id question
    and the list agree, the list is the least available priority, and the `tiered` shortcut is sound. */
module Eligibility {
  import opened Options

  datatype Status = Status(
    id: string, weight: nat, priority: nat,
    healthy: bool, circuitOpen: bool, drained: bool, outlier: bool, awaiting: bool)

  predicate PassesFlags(s: Status) {
    s.healthy && !s.circuitOpen && !s.drained && !s.outlier
  }

  predicate IsConfirmed(s: Status) {
    PassesFlags(s) && !s.awaiting
  }

  function Keep(f: Status -> bool, q: seq<Status>): seq<Status> {
    if q == [] then []
    else
      var init, last := q[..|q| - 1], q[|q| - 1];
      if f(last) then Keep(f, init) + [last] else Keep(f, init)
  }

  predicate Any(f: Status -> bool, q: seq<Status>) {
    exists i :: 0 <= i < |q| && f(q[i])
  }

  function HasSeveralTiers(q: seq<Status>): bool {
    q != [] && exists i :: 0 < i < |q| && q[i].priority != q[0].priority
  }

  function LeastPriority(q: seq<Status>): Option<nat> {
    if q == [] then None
    else
      var last := q[|q| - 1].priority;
      match LeastPriority(q[..|q| - 1])
      case None => Some(last)
      case Some(p) => Some(if last < p then last else p)
  }

  /** In rotation on its own merits: flags pass, and a first probe is not awaited while others are confirmed. */
  predicate Available(s: Status, confirmedExists: bool) {
    PassesFlags(s) && (!s.awaiting || !confirmedExists)
  }

  function ActiveTier(q: seq<Status>, tiered: bool): Option<nat> {
    if !tiered then None
    else
      var confirmedExists := Any(IsConfirmed, q);
      LeastPriority(Keep((s: Status) => Available(s, confirmedExists), q))
  }

  function Find(q: seq<Status>, id: string): Option<Status> {
    if q == [] then None else if q[|q| - 1].id == id then Some(q[|q| - 1]) else Find(q[..|q| - 1], id)
  }

  predicate IsEligible(q: seq<Status>, tiered: bool, id: string) {
    match Find(q, id)
    case None => false
    case Some(s) =>
      PassesFlags(s) && (!s.awaiting || !Any(IsConfirmed, q))
      && match ActiveTier(q, tiered) { case None => true case Some(tier) => s.priority == tier }
  }

  function EligibleBackends(q: seq<Status>, tiered: bool): seq<Status> {
    var confirmed := Keep(IsConfirmed, q);
    var eligible := if confirmed == [] then Keep(PassesFlags, q) else confirmed;
    if !tiered then eligible
    else
      match LeastPriority(eligible)
      case None => eligible
      case Some(best) => Keep((s: Status) => s.priority == best, eligible)
  }

  // ---- Filters ----

  lemma {:induction false} KeepIs(f: Status -> bool, q: seq<Status>)
    ensures forall s :: s in Keep(f, q) <==> s in q && f(s)
    ensures Keep(f, q) == [] <==> !Any(f, q)
  {
    if q != [] {
      var init, last := q[..|q| - 1], q[|q| - 1];
      KeepIs(f, init);
      assert q == init + [last];
      if i :| 0 <= i < |init| && f(init[i]) {
        assert f(q[i]);
      }
    }
  }

  lemma {:induction false} KeepSame(f: Status -> bool, g: Status -> bool, q: seq<Status>)
    requires forall s :: s in q ==> f(s) == g(s)
    ensures Keep(f, q) == Keep(g, q)
  {
    if q != [] {
      assert q[|q| - 1] in q;
      KeepSame(f, g, q[..|q| - 1]);
    }
  }

  lemma {:induction false} KeepAll(f: Status -> bool, q: seq<Status>)
    requires forall s :: s in q ==> f(s)
    ensures Keep(f, q) == q
  {
    if q != [] {
      assert q[|q| - 1] in q;
      KeepAll(f, q[..|q| - 1]);
    }
  }

  lemma {:induction false} LeastPriorityIs(q: seq<Status>)
    ensures LeastPriority(q).None? <==> q == []
    ensures LeastPriority(q).Some? ==>
              && (exists s :: s in q && s.priority == LeastPriority(q).value)
              && (forall s :: s in q ==> LeastPriority(q).value <= s.priority)
  {
    if q != [] {
      var init, last := q[..|q| - 1], q[|q| - 1];
      LeastPriorityIs(init);
      assert q == init + [last];
      assert last in q;
    }
  }

  // ---- The two views agree ----

  ghost predicate UniqueIds(q: seq<Status>) {
    forall i, j :: 0 <= i < j < |q| ==> q[i].id != q[j].id
  }

  lemma {:induction false} FindIs(q: seq<Status>, id: string)
    requires UniqueIds(q)
    ensures Find(q, id).Some? ==> Find(q, id).value in q && Find(q, id).value.id == id
    ensures forall s :: s in q && s.id == id ==> Find(q, id) == Some(s)
  {
    if q != [] {
      FindIs(q[..|q| - 1], id);
      assert q == q[..|q| - 1] + [q[|q| - 1]];
    }
  }

  /** What the list starts from, before tiers: the confirmed, or failing any, whoever passes the flags. */
  lemma CandidatesAreAvailable(q: seq<Status>)
    ensures var confirmed := Keep(IsConfirmed, q);
            var candidates := if confirmed == [] then Keep(PassesFlags, q) else confirmed;
            candidates == Keep((s: Status) => Available(s, Any(IsConfirmed, q)), q)
  {
    KeepIs(IsConfirmed, q);
    if Any(IsConfirmed, q) {
      KeepSame(IsConfirmed, (s: Status) => Available(s, true), q);
    } else {
      KeepSame(PassesFlags, (s: Status) => Available(s, false), q);
    }
  }

  ghost predicate InTier(s: Status, tier: Option<nat>) {
    tier.None? || s.priority == tier.value
  }

  /** A backend is listed exactly when it is available and in the active tier. */
  lemma ListedExactly(q: seq<Status>, tiered: bool, s: Status)
    ensures s in EligibleBackends(q, tiered) <==>
            s in q && Available(s, Any(IsConfirmed, q)) && InTier(s, ActiveTier(q, tiered))
  {
    CandidatesAreAvailable(q);
    var available := (s: Status) => Available(s, Any(IsConfirmed, q));
    var candidates := Keep(available, q);
    KeepIs(available, q);
    if tiered {
      LeastPriorityIs(candidates);
      if candidates != [] {
        KeepIs((s: Status) => s.priority == LeastPriority(candidates).value, candidates);
      }
    }
  }

  /** Asking about one id and listing all eligible backends give the same answer, for every pool state. */
  lemma ViewsAgree(q: seq<Status>, tiered: bool, id: string)
    requires UniqueIds(q)
    ensures IsEligible(q, tiered, id) <==> exists s :: s in EligibleBackends(q, tiered) && s.id == id
  {
    FindIs(q, id);
    if IsEligible(q, tiered, id) {
      ListedExactly(q, tiered, Find(q, id).value);
    }
    forall s | s in EligibleBackends(q, tiered) && s.id == id ensures IsEligible(q, tiered, id) {
      ListedExactly(q, tiered, s);
    }
  }

  /** Someone is eligible exactly when someone passes the flags. */
  lemma NonEmptyExactly(q: seq<Status>, tiered: bool)
    ensures EligibleBackends(q, tiered) != [] <==> Any(PassesFlags, q)
  {
    var available := (s: Status) => Available(s, Any(IsConfirmed, q));
    var candidates := Keep(available, q);
    CandidatesAreAvailable(q);
    KeepIs(IsConfirmed, q);
    KeepIs(PassesFlags, q);
    KeepIs(available, q);
    if Any(PassesFlags, q) {
      assert candidates != [];
      LeastPriorityIs(candidates);
      if tiered {
        var best := LeastPriority(candidates).value;
        KeepIs((s: Status) => s.priority == best, candidates);
        var s :| s in candidates && s.priority == best;
        assert s in EligibleBackends(q, tiered);
      }
    }
  }

  /** Leaving out the tier step where there is only one tier changes nothing. */
  lemma TieredShortcutSound(q: seq<Status>)
    ensures EligibleBackends(q, HasSeveralTiers(q)) == EligibleBackends(q, true)
  {
    if !HasSeveralTiers(q) {
      var available := (s: Status) => Available(s, Any(IsConfirmed, q));
      var candidates := Keep(available, q);
      CandidatesAreAvailable(q);
      KeepIs(available, q);
      LeastPriorityIs(candidates);
      if candidates != [] {
        var best := LeastPriority(candidates).value;
        var least :| least in candidates && least.priority == best;
        forall s | s in candidates ensures s.priority == best {
          assert s.priority == q[0].priority && least.priority == q[0].priority;
        }
        KeepAll((s: Status) => s.priority == best, candidates);
      }
    }
  }

  /** With the flag the pool keeps, every listed backend has the least priority of those available. */
  lemma ListedHaveLeastPriority(q: seq<Status>, s: Status, other: Status)
    requires s in EligibleBackends(q, HasSeveralTiers(q))
    requires other in q && Available(other, Any(IsConfirmed, q))
    ensures s.priority <= other.priority
  {
    TieredShortcutSound(q);
    ListedExactly(q, true, s);
    var available := (s: Status) => Available(s, Any(IsConfirmed, q));
    KeepIs(available, q);
    LeastPriorityIs(Keep(available, q));
  }

  /** The list by the flags alone: the backends that are healthy, with a closed circuit, not drained, no outliers, past
      their first probe unless nobody is, and of the least priority among those. */
  lemma ListedByFlags(q: seq<Status>, s: Status)
    ensures var up := (x: Status) => x.healthy && !x.circuitOpen && !x.drained && !x.outlier;
            var confirmed := exists c :: c in q && up(c) && !c.awaiting;
            var open := (x: Status) => up(x) && (!x.awaiting || !confirmed);
            s in EligibleBackends(q, HasSeveralTiers(q)) <==>
            s in q && open(s) && forall o :: o in q && open(o) ==> s.priority <= o.priority
  {
    TieredShortcutSound(q);
    ListedExactly(q, true, s);
    assert Any(IsConfirmed, q) <==> exists c :: c in q && IsConfirmed(c);
    var available := (x: Status) => Available(x, Any(IsConfirmed, q));
    KeepIs(available, q);
    LeastPriorityIs(Keep(available, q));
  }
}
