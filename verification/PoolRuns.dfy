/** Runs of pool operations, on what the pool shows: a backend that joins a running pool takes no traffic from those
    already confirmed until its own first probe. */
module PoolRuns {
  import opened Options
  import opened Eligibility
  import opened Ejection
  import opened Membership
  import opened Pools

  datatype Op =
    | Eject(id: string, flag: Flag, value: bool)
    | Probe(id: string, healthy: bool)
    | Drain(id: string, drained: bool)
    | Apply(backends: seq<Backend>)

  function AfterOp(q: seq<Status>, op: Op, maxFraction: Option<real>): seq<Status> {
    match op
    case Eject(id, flag, value) => AfterSet(q, id, flag, value, maxFraction)
    case Probe(id, healthy) => UpdateAt(q, id, Probed(healthy))
    case Drain(id, drained) => UpdateAt(q, id, Drained(drained))
    case Apply(backends) => AfterApply(q, backends)
  }

  function AfterOps(q: seq<Status>, ops: seq<Op>, maxFraction: Option<real>): seq<Status> {
    if ops == [] then q
    else AfterOp(AfterOps(q, ops[..|ops| - 1], maxFraction), ops[|ops| - 1], maxFraction)
  }

  /** Refreshes name no backend twice. */
  ghost predicate Proper(op: Op) {
    op.Apply? ==> DistinctIds(op.backends)
  }

  /** The backend is still listed afterwards, and this is not a probe of it. */
  ghost predicate Spares(op: Op, id: string) {
    && (op.Probe? ==> op.id != id)
    && (op.Apply? ==> exists i :: 0 <= i < |op.backends| && op.backends[i].id == id)
  }

  lemma AppliedIds(q: seq<Status>, backends: seq<Backend>)
    requires UniqueIds(q) && DistinctIds(backends)
    ensures UniqueIds(AfterApply(q, backends))
    ensures forall i :: 0 <= i < |backends| ==> AfterApply(q, backends)[i].id == backends[i].id
  {
    forall i | 0 <= i < |backends| ensures AfterApply(q, backends)[i].id == backends[i].id {
      FindIs(q, backends[i].id);
    }
  }

  lemma OpKeepsIds(q: seq<Status>, op: Op, maxFraction: Option<real>)
    requires UniqueIds(q) && Proper(op)
    ensures UniqueIds(AfterOp(q, op, maxFraction))
  {
    if op.Apply? {
      AppliedIds(q, op.backends);
    }
  }

  /** After a refresh a backend shows what it showed, or a newcomer's flags: healthy, nothing against it, unprobed. */
  lemma AppliedShows(q: seq<Status>, backends: seq<Backend>, i: nat)
    requires UniqueIds(q) && DistinctIds(backends) && i < |backends|
    ensures var b := backends[i];
            var s := Find(AfterApply(q, backends), b.id);
            && s.Some? && s.value.weight == b.weight && s.value.priority == b.priority
            && match Find(q, b.id)
               case Some(was) => s.value == was.(weight := b.weight, priority := b.priority)
               case None => s.value == Status(b.id, b.weight, b.priority, true, false, false, false, true)
  {
    AppliedIds(q, backends);
    FindAt(AfterApply(q, backends), i);
  }

  lemma {:induction false} FindUpdated(q: seq<Status>, id: string, f: Status -> Status, other: string)
    requires forall s :: f(s).id == s.id
    ensures Find(UpdateAt(q, id, f), other) ==
            match Find(q, other)
            case None => None
            case Some(s) => Some(if other == id then f(s) else s)
  {
    if q != [] {
      assert UpdateAt(q, id, f)[..|q| - 1] == UpdateAt(q[..|q| - 1], id, f);
      FindUpdated(q[..|q| - 1], id, f, other);
    }
  }

  ghost predicate Waiting(q: seq<Status>, id: string) {
    Find(q, id).Some? && Find(q, id).value.awaiting
  }

  lemma OpKeepsWaiting(q: seq<Status>, op: Op, maxFraction: Option<real>, id: string)
    requires UniqueIds(q) && Proper(op) && Spares(op, id) && Waiting(q, id)
    ensures Waiting(AfterOp(q, op, maxFraction), id)
  {
    match op
    case Eject(other, flag, value) => FindAfterSetAt(q, other, flag, value, id);
    case Probe(other, healthy) => FindUpdated(q, other, Probed(healthy), id);
    case Drain(other, drained) => FindUpdated(q, other, Drained(drained), id);
    case Apply(backends) =>
      var i :| 0 <= i < |backends| && backends[i].id == id;
      AppliedShows(q, backends, i);
  }

  lemma {:induction false} StaysWaiting(q: seq<Status>, ops: seq<Op>, maxFraction: Option<real>, id: string)
    requires UniqueIds(q) && Waiting(q, id)
    requires forall k :: 0 <= k < |ops| ==> Proper(ops[k]) && Spares(ops[k], id)
    ensures UniqueIds(AfterOps(q, ops, maxFraction)) && Waiting(AfterOps(q, ops, maxFraction), id)
  {
    if ops != [] {
      var init, last := ops[..|ops| - 1], ops[|ops| - 1];
      StaysWaiting(q, init, maxFraction, id);
      OpKeepsIds(AfterOps(q, init, maxFraction), last, maxFraction);
      OpKeepsWaiting(AfterOps(q, init, maxFraction), last, maxFraction, id);
    }
  }

  /** Whatever else happens after a backend joins, refreshes that keep it included: until it is probed it is not
      eligible while any backend that has been probed, or was there from the start, is up. */
  lemma NewcomerWaitsForProbe(q: seq<Status>, backends: seq<Backend>, ops: seq<Op>, maxFraction: Option<real>,
                              id: string, other: Status)
    requires UniqueIds(q) && DistinctIds(backends) && Find(q, id).None?
    requires Spares(Apply(backends), id) && forall k :: 0 <= k < |ops| ==> Proper(ops[k]) && Spares(ops[k], id)
    requires var r := AfterOps(AfterApply(q, backends), ops, maxFraction);
             && other in r && other.healthy && !other.awaiting
             && !other.circuitOpen && !other.drained && !other.outlier
    ensures !IsEligible(AfterOps(AfterApply(q, backends), ops, maxFraction),
                        HasSeveralTiers(AfterOps(AfterApply(q, backends), ops, maxFraction)), id)
  {
    var i :| 0 <= i < |backends| && backends[i].id == id;
    AppliedIds(q, backends);
    AppliedShows(q, backends, i);
    StaysWaiting(AfterApply(q, backends), ops, maxFraction, id);
    var r := AfterOps(AfterApply(q, backends), ops, maxFraction);
    FindIs(r, id);
    ViewsAgree(r, HasSeveralTiers(r), id);
    forall s | s in EligibleBackends(r, HasSeveralTiers(r)) ensures s.id != id {
      ListedByFlags(r, s);
      ListedExactly(r, HasSeveralTiers(r), s);
    }
  }

  /** Its first probe ends the wait and decides its health; nothing else about it changes, and nobody else does. */
  lemma ProbeEndsWait(q: seq<Status>, id: string, healthy: bool, other: string)
    requires Find(q, other).Some?
    ensures var was, s := Find(q, other).value, Find(AfterOp(q, Probe(id, healthy), None), other);
            s == Some(if other == id then was.(healthy := healthy, awaiting := false) else was)
  {
    FindUpdated(q, id, Probed(healthy), other);
  }

  /** Draining is undone by undraining, and changes nothing else. */
  lemma DrainByFlag(q: seq<Status>, id: string, drained: bool, other: string)
    requires Find(q, other).Some?
    ensures var was, s := Find(q, other).value, Find(AfterOp(q, Drain(id, drained), None), other);
            s == Some(if other == id then was.(drained := drained) else was)
  {
    FindUpdated(q, id, Drained(drained), other);
  }

  /** The backends a pool starts with wait for nothing. */
  lemma StartsConfirmed(backends: seq<Backend>, i: nat)
    requires DistinctIds(backends) && i < |backends|
    ensures var b := backends[i];
            Find(StartStatuses(backends), b.id) ==
            Some(Status(b.id, b.weight, b.priority, true, false, false, false, false))
  {
    FindAt(StartStatuses(backends), i);
  }
}
