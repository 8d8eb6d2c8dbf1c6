/** The ceiling on how many backends may be ejected at once. */
module Ejection {
  import opened Options
  import opened Eligibility

  datatype Flag = Circuit | Outlier

  predicate HasFlag(s: Status, flag: Flag) {
    match flag case Circuit => s.circuitOpen case Outlier => s.outlier
  }

  function WithFlag(s: Status, flag: Flag, value: bool): Status {
    match flag case Circuit => s.(circuitOpen := value) case Outlier => s.(outlier := value)
  }

  predicate Ejected(s: Status) {
    s.circuitOpen || s.outlier
  }

  function CountEjected(q: seq<Status>): nat {
    if q == [] then 0 else CountEjected(q[..|q| - 1]) + if Ejected(q[|q| - 1]) then 1 else 0
  }

  function SetAt(q: seq<Status>, id: string, flag: Flag, value: bool): (r: seq<Status>)
    ensures |r| == |q|
  {
    seq(|q|, i requires 0 <= i < |q| => if q[i].id == id then WithFlag(q[i], flag, value) else q[i])
  }

  /** One more ejection would push the fraction past the ceiling. */
  predicate Exceeds(q: seq<Status>, id: string, maxFraction: real) {
    match Find(q, id)
    case None => false
    case Some(s) => !Ejected(s) && q != [] && (CountEjected(q) + 1) as real / |q| as real > maxFraction
  }

  predicate Refused(q: seq<Status>, id: string, flag: Flag, value: bool, maxFraction: Option<real>) {
    match Find(q, id)
    case None => true
    case Some(s) => value && maxFraction.Some? && !HasFlag(s, flag) && Exceeds(q, id, maxFraction.value)
  }

  /** What one call of set_circuit_open or set_outlier_ejected leaves. */
  function AfterSet(q: seq<Status>, id: string, flag: Flag, value: bool, maxFraction: Option<real>): seq<Status> {
    if Refused(q, id, flag, value, maxFraction) then q else SetAt(q, id, flag, value)
  }

  // ---- Counting ----

  lemma {:induction false} SetNobody(q: seq<Status>, id: string, flag: Flag, value: bool)
    requires forall i :: 0 <= i < |q| ==> q[i].id != id
    ensures SetAt(q, id, flag, value) == q
  {
  }

  lemma SetAtPrefix(q: seq<Status>, id: string, flag: Flag, value: bool)
    requires q != []
    ensures SetAt(q, id, flag, value)[..|q| - 1] == SetAt(q[..|q| - 1], id, flag, value)
  {
  }

  /** Setting a flag moves the count by what it does to that one backend. */
  lemma {:induction false} CountAfterSetAt(q: seq<Status>, id: string, flag: Flag, value: bool)
    requires UniqueIds(q) && Find(q, id).Some?
    ensures var s := Find(q, id).value;
            CountEjected(SetAt(q, id, flag, value)) + (if Ejected(s) then 1 else 0) ==
            CountEjected(q) + if Ejected(WithFlag(s, flag, value)) then 1 else 0
  {
    var init, last := q[..|q| - 1], q[|q| - 1];
    SetAtPrefix(q, id, flag, value);
    if last.id == id {
      SetNobody(init, id, flag, value);
    } else {
      CountAfterSetAt(init, id, flag, value);
    }
  }

  lemma SetAtKeepsIds(q: seq<Status>, id: string, flag: Flag, value: bool)
    requires UniqueIds(q)
    ensures UniqueIds(SetAt(q, id, flag, value))
  {
  }

  lemma {:induction false} FindAfterSetAt(q: seq<Status>, id: string, flag: Flag, value: bool, other: string)
    ensures Find(SetAt(q, id, flag, value), other) ==
            match Find(q, other)
            case None => None
            case Some(s) => Some(if other == id then WithFlag(s, flag, value) else s)
  {
    if q != [] {
      SetAtPrefix(q, id, flag, value);
      FindAfterSetAt(q[..|q| - 1], id, flag, value, other);
    }
  }

  // ---- One call at a time ----

  ghost predicate WithinCeiling(q: seq<Status>, maxFraction: real) {
    CountEjected(q) as real <= maxFraction * |q| as real
  }

  lemma CeilingArithmetic(count: nat, total: nat, maxFraction: real)
    requires 0 < total
    ensures (count + 1) as real / total as real <= maxFraction <==> (count + 1) as real <= maxFraction * total as real
  {
    var x, t := (count + 1) as real, total as real;
    assert x == (x / t) * t;
    if x / t <= maxFraction {
      assert (x / t) * t <= maxFraction * t;
    } else {
      assert (x / t) * t > maxFraction * t;
    }
  }

  lemma {:induction false} FindNonEmpty(q: seq<Status>, id: string)
    requires Find(q, id).Some?
    ensures q != []
  {
  }

  /** A call never takes the count above the ceiling; above it already, it never raises it. */
  lemma SetKeepsCeiling(q: seq<Status>, id: string, flag: Flag, value: bool, maxFraction: real)
    requires UniqueIds(q)
    ensures var r := AfterSet(q, id, flag, value, Some(maxFraction));
            && UniqueIds(r) && |r| == |q|
            && (CountEjected(r) <= CountEjected(q) || WithinCeiling(r, maxFraction))
  {
    if !Refused(q, id, flag, value, Some(maxFraction)) {
      CountAfterSetAt(q, id, flag, value);
      SetAtKeepsIds(q, id, flag, value);
      FindNonEmpty(q, id);
      CeilingArithmetic(CountEjected(q), |q|, maxFraction);
    }
  }

  lemma StillWithin(q: seq<Status>, r: seq<Status>, maxFraction: real)
    requires |r| == |q| && WithinCeiling(q, maxFraction)
    ensures CountEjected(r) <= CountEjected(q) ==> WithinCeiling(r, maxFraction)
  {
    var total := |q| as real;
    assert maxFraction * |r| as real == maxFraction * total;
  }

  datatype Call = Call(id: string, flag: Flag, value: bool)

  function AfterCalls(q: seq<Status>, calls: seq<Call>, maxFraction: Option<real>): seq<Status> {
    if calls == [] then q
    else
      var last := calls[|calls| - 1];
      AfterSet(AfterCalls(q, calls[..|calls| - 1], maxFraction), last.id, last.flag, last.value, maxFraction)
  }

  /** Over every sequence of set and clear calls the ejected count stays within the ceiling once within it. */
  lemma {:induction false} CallsKeepCeiling(q: seq<Status>, calls: seq<Call>, maxFraction: real)
    requires UniqueIds(q) && WithinCeiling(q, maxFraction)
    ensures var r := AfterCalls(q, calls, Some(maxFraction));
            UniqueIds(r) && |r| == |q| && WithinCeiling(r, maxFraction)
  {
    if calls != [] {
      var last := calls[|calls| - 1];
      var mid := AfterCalls(q, calls[..|calls| - 1], Some(maxFraction));
      CallsKeepCeiling(q, calls[..|calls| - 1], maxFraction);
      SetKeepsCeiling(mid, last.id, last.flag, last.value, maxFraction);
      StillWithin(mid, AfterCalls(q, calls, Some(maxFraction)), maxFraction);
    }
  }

  /** A call on a known backend takes effect unless it is a new ejection past the ceiling; so a clear always does.
      No other backend is touched. */
  lemma SetTakesEffect(q: seq<Status>, id: string, flag: Flag, value: bool, maxFraction: Option<real>, other: string)
    requires Find(q, other).Some?
    ensures var r := AfterSet(q, id, flag, value, maxFraction);
            && Find(r, other).Some?
            && (other != id ==> Find(r, other) == Find(q, other))
            && (other == id && !Refused(q, id, flag, value, maxFraction) ==>
                  Find(r, id) == Some(WithFlag(Find(q, id).value, flag, value)))
            && (other == id && !value ==> !HasFlag(Find(r, id).value, flag))
  {
    FindAfterSetAt(q, id, flag, value, other);
  }

  /** The places of the backends that are out. */
  function Out(q: seq<Status>): set<nat> {
    set i: nat | i < |q| && (q[i].circuitOpen || q[i].outlier)
  }

  lemma OutSnoc(q: seq<Status>, s: Status)
    ensures |Out(q + [s])| == |Out(q)| + if Ejected(s) then 1 else 0
  {
    if Ejected(s) {
      assert Out(q + [s]) == Out(q) + {|q|};
    } else {
      assert Out(q + [s]) == Out(q);
    }
  }

  lemma {:induction false} CountIsOut(q: seq<Status>)
    ensures CountEjected(q) == |Out(q)|
  {
    if q != [] {
      var init, last := q[..|q| - 1], q[|q| - 1];
      CountIsOut(init);
      OutSnoc(init, last);
      assert q == init + [last];
    }
  }

  lemma FindAt(q: seq<Status>, i: nat)
    requires UniqueIds(q) && i < |q|
    ensures Find(q, q[i].id) == Some(q[i])
  {
    FindIs(q, q[i].id);
    assert q[i] in q;
  }

  /** One more ejection than the fraction of the pool allows. */
  ghost predicate TooMany(q: seq<Status>, maxFraction: Option<real>) {
    maxFraction.Some? && (|Out(q)| + 1) as real > maxFraction.value * |q| as real
  }

  lemma RefusedByNumbers(q: seq<Status>, i: nat, flag: Flag, value: bool, maxFraction: Option<real>)
    requires UniqueIds(q) && i < |q|
    ensures Refused(q, q[i].id, flag, value, maxFraction) <==>
            value && !q[i].circuitOpen && !q[i].outlier && TooMany(q, maxFraction)
  {
    FindAt(q, i);
    CountIsOut(q);
    if maxFraction.Some? {
      CeilingArithmetic(CountEjected(q), |q|, maxFraction.value);
    }
  }

  /** A call by the numbers: it leaves everyone else alone, and stores its flag unless that would eject one more backend
      than the fraction of the pool allows. */
  lemma SetByNumbers(q: seq<Status>, i: nat, flag: Flag, value: bool, maxFraction: Option<real>)
    requires UniqueIds(q) && i < |q|
    ensures var r := AfterSet(q, q[i].id, flag, value, maxFraction);
            var stored := match flag
                          case Circuit => q[i].(circuitOpen := value)
                          case Outlier => q[i].(outlier := value);
            && |r| == |q|
            && r[i] == (if value && !q[i].circuitOpen && !q[i].outlier && TooMany(q, maxFraction) then q[i] else stored)
            && forall j :: 0 <= j < |q| && j != i ==> r[j] == q[j]
  {
    RefusedByNumbers(q, i, flag, value, maxFraction);
  }
}

/** Concurrent ejection calls, step by step: the unlocked look at the flag, the lock, the check, the store. */
module EjectionRaces {
  import opened Options
  import opened Eligibility
  import opened Ejection

  datatype Pc =
    | Idle
    | Storing(id: string, flag: Flag)    // saw the flag set; will store it again without the lock
    | Waiting(id: string, flag: Flag)    // needs the lock
    | Locked(id: string, flag: Flag)     // holds the lock
    | Granted(id: string, flag: Flag)    // holds the lock and passed the check

  datatype World = World(q: seq<Status>, pcs: map<nat, Pc>)

  datatype Step =
    | Begin(t: nat, id: string, flag: Flag)
    | StoreAgain(t: nat)
    | Lock(t: nat)
    | Check(t: nat)
    | Store(t: nat)
    | Clear(id: string, flag: Flag)

  predicate Holds(pc: Pc) {
    pc.Locked? || pc.Granted?
  }

  ghost predicate Next(w: World, step: Step, v: World, maxFraction: real) {
    match step
    case Begin(t, id, flag) =>
      && t in w.pcs && w.pcs[t] == Idle
      && v == w.(pcs := w.pcs[t := match Find(w.q, id)
                                   case None => Idle
                                   case Some(s) => if HasFlag(s, flag) then Storing(id, flag) else Waiting(id, flag)])
    case StoreAgain(t) =>
      && t in w.pcs && w.pcs[t].Storing?
      && v == World(SetAt(w.q, w.pcs[t].id, w.pcs[t].flag, true), w.pcs[t := Idle])
    case Lock(t) =>
      && t in w.pcs && w.pcs[t].Waiting? && (forall u :: u in w.pcs ==> !Holds(w.pcs[u]))
      && v == w.(pcs := w.pcs[t := Locked(w.pcs[t].id, w.pcs[t].flag)])
    case Check(t) =>
      && t in w.pcs && w.pcs[t].Locked?
      && v == w.(pcs := w.pcs[t := if Exceeds(w.q, w.pcs[t].id, maxFraction) then Idle
                                   else Granted(w.pcs[t].id, w.pcs[t].flag)])
    case Store(t) =>
      && t in w.pcs && w.pcs[t].Granted?
      && v == World(SetAt(w.q, w.pcs[t].id, w.pcs[t].flag, true), w.pcs[t := Idle])
    case Clear(id, flag) =>
      v == w.(q := SetAt(w.q, id, flag, false))
  }

  /** A thread that stores without the lock stores what is there; a thread past the check has room. */
  ghost predicate ThreadOk(q: seq<Status>, pc: Pc, maxFraction: real) {
    match pc
    case Storing(id, flag) => Find(q, id).Some? && HasFlag(Find(q, id).value, flag)
    case Waiting(id, flag) => Find(q, id).Some?
    case Locked(id, flag) => Find(q, id).Some?
    case Granted(id, flag) =>
      Find(q, id).Some? && (Ejected(Find(q, id).value) || (CountEjected(q) + 1) as real <= maxFraction * |q| as real)
    case Idle => true
  }

  ghost predicate Inv(w: World, maxFraction: real) {
    && UniqueIds(w.q) && WithinCeiling(w.q, maxFraction)
    && (forall t :: t in w.pcs ==> ThreadOk(w.q, w.pcs[t], maxFraction))
    && (forall t, u :: t in w.pcs && u in w.pcs && Holds(w.pcs[t]) && Holds(w.pcs[u]) ==> t == u)
  }

  lemma {:induction false} StoreSame(q: seq<Status>, id: string, flag: Flag)
    requires UniqueIds(q) && Find(q, id).Some? && HasFlag(Find(q, id).value, flag)
    ensures SetAt(q, id, flag, true) == q
  {
    FindIs(q, id);
    forall i | 0 <= i < |q| ensures SetAt(q, id, flag, true)[i] == q[i] {
      if q[i].id == id {
        assert q[i] in q;
      }
    }
  }

  lemma GrantedHasRoom(q: seq<Status>, id: string, flag: Flag, maxFraction: real)
    requires UniqueIds(q) && WithinCeiling(q, maxFraction) && ThreadOk(q, Granted(id, flag), maxFraction)
    ensures UniqueIds(SetAt(q, id, flag, true)) && WithinCeiling(SetAt(q, id, flag, true), maxFraction)
  {
    CountAfterSetAt(q, id, flag, true);
    SetAtKeepsIds(q, id, flag, true);
  }

  lemma StoreKeepsInv(w: World, t: nat, v: World, maxFraction: real)
    requires Inv(w, maxFraction) && Next(w, Store(t), v, maxFraction)
    ensures Inv(v, maxFraction)
  {
    var id, flag := w.pcs[t].id, w.pcs[t].flag;
    GrantedHasRoom(w.q, id, flag, maxFraction);
    forall u | u in v.pcs
      ensures ThreadOk(v.q, v.pcs[u], maxFraction)
    {
      if u != t {
        StoreKeepsThread(w.q, id, flag, w.pcs[u], maxFraction);
      }
    }
  }

  /** Only the holder of the lock can be past the check, so a store disturbs no other thread. */
  lemma StoreKeepsThread(q: seq<Status>, id: string, flag: Flag, pc: Pc, maxFraction: real)
    requires ThreadOk(q, pc, maxFraction) && !pc.Granted?
    ensures ThreadOk(SetAt(q, id, flag, true), pc, maxFraction)
  {
    if !pc.Idle? {
      FindAfterSetAt(q, id, flag, true, pc.id);
    }
  }

  lemma ClearLowers(q: seq<Status>, id: string, flag: Flag)
    requires UniqueIds(q)
    ensures UniqueIds(SetAt(q, id, flag, false)) && CountEjected(SetAt(q, id, flag, false)) <= CountEjected(q)
    ensures var s, r := Find(q, id), Find(SetAt(q, id, flag, false), id);
            s.Some? && r.Some? && Ejected(s.value) && !Ejected(r.value) ==>
              CountEjected(SetAt(q, id, flag, false)) < CountEjected(q)
  {
    SetAtKeepsIds(q, id, flag, false);
    FindIs(q, id);
    FindAfterSetAt(q, id, flag, false, id);
    if Find(q, id).Some? {
      CountAfterSetAt(q, id, flag, false);
    } else {
      SetNobody(q, id, flag, false);
    }
  }

  /** A clear leaves every thread in order but one that is about to store that very flag without the lock. */
  lemma ClearKeepsThread(q: seq<Status>, id: string, flag: Flag, pc: Pc, maxFraction: real)
    requires UniqueIds(q) && WithinCeiling(q, maxFraction) && ThreadOk(q, pc, maxFraction) && pc != Storing(id, flag)
    ensures ThreadOk(SetAt(q, id, flag, false), pc, maxFraction)
  {
    if !pc.Idle? {
      FindAfterSetAt(q, id, flag, false, pc.id);
    }
    if pc.Granted? {
      ClearLeavesRoom(q, id, flag, pc.id, maxFraction * |q| as real);
    }
  }

  /** A thread past the check still has room, even if its own backend was let back in under it. */
  lemma ClearLeavesRoom(q: seq<Status>, id: string, flag: Flag, granted: string, cap: real)
    requires UniqueIds(q) && Find(q, granted).Some? && CountEjected(q) as real <= cap
    requires Ejected(Find(q, granted).value) || (CountEjected(q) + 1) as real <= cap
    ensures var r := SetAt(q, id, flag, false);
            && Find(r, granted).Some?
            && (Ejected(Find(r, granted).value) || (CountEjected(r) + 1) as real <= cap)
  {
    FindAfterSetAt(q, id, flag, false, granted);
    ClearLowers(q, id, flag);
  }

  /** The step is no clear of a flag some thread is about to store again without the lock. */
  ghost predicate ClearsApart(w: World, step: Step) {
    step.Clear? ==> forall t :: t in w.pcs ==> w.pcs[t] != Storing(step.id, step.flag)
  }

  lemma ClearKeepsInv(w: World, id: string, flag: Flag, v: World, maxFraction: real)
    requires Inv(w, maxFraction) && Next(w, Clear(id, flag), v, maxFraction) && ClearsApart(w, Clear(id, flag))
    ensures Inv(v, maxFraction)
  {
    ClearLowers(w.q, id, flag);
    StillWithin(w.q, v.q, maxFraction);
    forall t | t in v.pcs
      ensures ThreadOk(v.q, v.pcs[t], maxFraction)
    {
      ClearKeepsThread(w.q, id, flag, w.pcs[t], maxFraction);
    }
  }

  lemma StepKeepsInv(w: World, step: Step, v: World, maxFraction: real)
    requires Inv(w, maxFraction) && Next(w, step, v, maxFraction) && ClearsApart(w, step)
    ensures Inv(v, maxFraction)
  {
    match step
    case Begin(t, id, flag) =>
    case StoreAgain(t) =>
      assert ThreadOk(w.q, w.pcs[t], maxFraction);
      StoreSame(w.q, w.pcs[t].id, w.pcs[t].flag);
    case Lock(t) =>
      assert ThreadOk(w.q, w.pcs[t], maxFraction);
    case Check(t) =>
      assert ThreadOk(w.q, w.pcs[t], maxFraction);
      FindNonEmpty(w.q, w.pcs[t].id);
      CeilingArithmetic(CountEjected(w.q), |w.q|, maxFraction);
    case Store(t) =>
      StoreKeepsInv(w, t, v, maxFraction);
    case Clear(id, flag) =>
      ClearKeepsInv(w, id, flag, v, maxFraction);
  }

  ghost predicate IsRun(worlds: seq<World>, steps: seq<Step>, maxFraction: real) {
    && |worlds| == |steps| + 1
    && forall i :: 0 <= i < |steps| ==> Next(worlds[i], steps[i], worlds[i + 1], maxFraction)
  }

  /** Nobody is in the middle of a call, and the ceiling holds. */
  ghost predicate AtRest(w: World, maxFraction: real) {
    UniqueIds(w.q) && WithinCeiling(w.q, maxFraction) && forall t :: t in w.pcs ==> w.pcs[t] == Idle
  }

  /** Over every interleaving of concurrent ejecting and clearing calls the ceiling holds throughout, as long as no flag
      is cleared while a thread that saw it set is about to store it again. */
  lemma {:induction false} RunsKeepCeiling(worlds: seq<World>, steps: seq<Step>, maxFraction: real, i: nat)
    requires IsRun(worlds, steps, maxFraction) && i < |worlds| && AtRest(worlds[0], maxFraction)
    requires forall k :: 0 <= k < |steps| ==> ClearsApart(worlds[k], steps[k])
    ensures Inv(worlds[i], maxFraction) && WithinCeiling(worlds[i].q, maxFraction)
  {
    if i != 0 {
      RunsKeepCeiling(worlds, steps, maxFraction, i - 1);
      StepKeepsInv(worlds[i - 1], steps[i - 1], worlds[i], maxFraction);
    }
  }
}
