/** The backend pool as the shared object it is: backend states that outlive membership changes, guards that hold
    them, and the methods that update both. */
module Pools {
  import opened Options
  import opened Eligibility
  import opened Ejection
  import opened Membership

  class BackendState {
    const id: string
    var backend: Backend
    var activeHealthy: bool
    var circuitOpen: bool
    var manuallyDrained: bool
    var outlierEjected: bool
    var awaitingFirstProbe: bool
    var activeConns: int

    constructor (b: Backend, awaiting: bool)
      ensures id == b.id && backend == b && activeConns == 0
      ensures activeHealthy && !circuitOpen && !manuallyDrained && !outlierEjected && awaitingFirstProbe == awaiting
    {
      id, backend := b.id, b;
      activeHealthy, circuitOpen, manuallyDrained, outlierEjected := true, false, false, false;
      awaitingFirstProbe, activeConns := awaiting, 0;
    }

    function Look(): Status
      reads this
    {
      Status(id, backend.weight, backend.priority,
             activeHealthy, circuitOpen, manuallyDrained, outlierEjected, awaitingFirstProbe)
    }

    method Store(flag: Flag, value: bool)
      modifies this`circuitOpen, this`outlierEjected
      ensures Look() == WithFlag(old(Look()), flag, value)
      ensures circuitOpen == (if flag.Circuit? then value else old(circuitOpen))
      ensures outlierEjected == (if flag.Outlier? then value else old(outlierEjected))
    {
      if flag.Circuit? {
        circuitOpen := value;
      } else {
        outlierEjected := value;
      }
    }

    method StoreProbe(healthy: bool)
      modifies this`activeHealthy, this`awaitingFirstProbe
      ensures Look() == Probed(healthy)(old(Look())) && activeHealthy == healthy && !awaitingFirstProbe
    {
      activeHealthy, awaitingFirstProbe := healthy, false;
    }

    method Count(n: int)
      modifies this`activeConns
      ensures activeConns == old(activeConns) + n && Look() == old(Look())
    {
      activeConns := activeConns + n;
    }

    method StoreDrained(drained: bool)
      modifies this`manuallyDrained
      ensures Look() == Drained(drained)(old(Look())) && manuallyDrained == drained
    {
      manuallyDrained := drained;
    }
  }

  /** Holds the state it counts against for as long as it lives; nothing when the id was unknown. */
  class ActiveConnGuard {
    const state: BackendState?

    constructor (s: BackendState?)
      ensures state == s
    {
      state := s;
    }
  }

  function NewStatus(b: Backend, awaiting: bool): Status {
    Status(b.id, b.weight, b.priority, true, false, false, false, awaiting)
  }

  lemma SetAtFromLook(q: seq<Status>, r: seq<Status>, id: string, flag: Flag, value: bool)
    requires UniqueIds(q) && |r| == |q| && Find(q, id).Some?
    requires forall i :: 0 <= i < |q| ==>
               r[i] == if q[i].id == id then WithFlag(Find(q, id).value, flag, value) else q[i]
    ensures r == SetAt(q, id, flag, value) && HasSeveralTiers(r) == HasSeveralTiers(q)
  {
    FindIs(q, id);
    forall i | 0 <= i < |q| ensures r[i] == SetAt(q, id, flag, value)[i] && r[i].priority == q[i].priority {
      assert q[i] in q;
    }
    SamePrioritiesSameTiers(q, r);
  }

  function StartStatuses(backends: seq<Backend>): (r: seq<Status>)
    ensures |r| == |backends|
  {
    seq(|backends|, i requires 0 <= i < |backends| => NewStatus(backends[i], false))
  }

  function Ids(backends: seq<Backend>): (ids: seq<string>)
    ensures |ids| == |backends|
  {
    seq(|backends|, i requires 0 <= i < |backends| => backends[i].id)
  }

  lemma IndexedIds(backends: seq<Backend>, ids: set<string>)
    requires forall id :: id in ids ==> exists i :: 0 <= i < |backends| && backends[i].id == id
    requires forall i :: 0 <= i < |backends| ==> backends[i].id in ids
    ensures forall id :: id in ids <==> id in Ids(backends)
  {
    forall id | id in ids ensures id in Ids(backends) {
      var i :| 0 <= i < |backends| && backends[i].id == id;
      assert Ids(backends)[i] == id;
    }
  }

  function Carried(s: Status, b: Backend): Status {
    s.(weight := b.weight, priority := b.priority)
  }

  /** A refreshed list: a backend already known keeps its flags, a new one awaits its first probe. */
  function AfterApply(q: seq<Status>, backends: seq<Backend>): (r: seq<Status>)
    ensures |r| == |backends|
  {
    seq(|backends|, i requires 0 <= i < |backends| =>
      match Find(q, backends[i].id)
      case None => NewStatus(backends[i], true)
      case Some(s) => Carried(s, backends[i]))
  }

  function UpdateAt(q: seq<Status>, id: string, f: Status -> Status): (r: seq<Status>)
    ensures |r| == |q|
  {
    seq(|q|, i requires 0 <= i < |q| => if q[i].id == id then f(q[i]) else q[i])
  }

  function Probed(healthy: bool): Status -> Status {
    (s: Status) => s.(healthy := healthy, awaiting := false)
  }

  function Drained(drained: bool): Status -> Status {
    (s: Status) => s.(drained := drained)
  }

  lemma UpdateAtFromLook(q: seq<Status>, r: seq<Status>, id: string, f: Status -> Status)
    requires UniqueIds(q) && |r| == |q| && forall s :: f(s).priority == s.priority
    requires Find(q, id).None? ==> r == q
    requires Find(q, id).Some? ==>
               forall i :: 0 <= i < |q| ==> r[i] == if q[i].id == id then f(Find(q, id).value) else q[i]
    ensures r == UpdateAt(q, id, f) && HasSeveralTiers(r) == HasSeveralTiers(q)
  {
    FindIs(q, id);
    forall i | 0 <= i < |q| ensures r[i] == UpdateAt(q, id, f)[i] && r[i].priority == q[i].priority {
      assert q[i] in q;
    }
    SamePrioritiesSameTiers(q, r);
  }

  lemma SamePrioritiesSameTiers(q: seq<Status>, r: seq<Status>)
    requires |q| == |r| && forall i :: 0 <= i < |q| ==> r[i].priority == q[i].priority
    ensures HasSeveralTiers(r) == HasSeveralTiers(q)
  {
  }

  /** A backend list on its way in: its states, their index, and what they show. */
  datatype Refresh = Refresh(backends: seq<Backend>, ss: seq<BackendState>, index: map<string, BackendState>,
                             looks: seq<Status>)

  /** The index holds one state for each of the first |ss| backends, and nothing else. */
  ghost predicate IndexOf(backends: seq<Backend>, ss: seq<BackendState>, index: map<string, BackendState>) {
    && |ss| <= |backends|
    && (forall id :: id in index ==> exists i :: 0 <= i < |ss| && backends[i].id == id)
    && (forall i :: 0 <= i < |ss| ==> backends[i].id in index && index[backends[i].id] == ss[i])
  }

  lemma IndexGrows(backends: seq<Backend>, ss: seq<BackendState>, index: map<string, BackendState>, s: BackendState)
    requires DistinctIds(backends) && IndexOf(backends, ss, index) && |ss| < |backends|
    ensures IndexOf(backends, ss + [s], index[backends[|ss|].id := s])
  {
    var index' := index[backends[|ss|].id := s];
    forall id | id in index' ensures exists i :: 0 <= i < |ss| + 1 && backends[i].id == id {
      if id == backends[|ss|].id {
        assert backends[|ss|].id == id;
      } else {
        var i :| 0 <= i < |ss| && backends[i].id == id;
      }
    }
  }

  /** The first |ss| backends of a refreshed list have their states: the one they had, or a new one. */
  ghost predicate Held(backends: seq<Backend>, was: map<string, BackendState>, ss: seq<BackendState>)
    reads ss
  {
    && |ss| <= |backends|
    && forall i :: 0 <= i < |ss| ==> HeldBy(backends[i], was, ss[i])
  }

  ghost predicate HeldBy(b: Backend, was: map<string, BackendState>, s: BackendState)
    reads s
  {
    && s.id == b.id && s.backend == b
    && if b.id in was then s == was[b.id]
       else StartsWaiting(s)
  }

  /** A backend the pool starts with: no flag against it, and no probe to wait for. */
  ghost predicate StartsInRotation(s: BackendState)
    reads s
  {
    s.activeHealthy && !s.awaitingFirstProbe && !s.circuitOpen && !s.manuallyDrained && !s.outlierEjected
  }

  /** A newcomer: nothing in flight, no flag against it, and its first probe still to come. */
  ghost predicate StartsWaiting(s: BackendState)
    reads s
  {
    && s.activeConns == 0 && s.activeHealthy && s.awaitingFirstProbe
    && !s.circuitOpen && !s.manuallyDrained && !s.outlierEjected
  }

  lemma HeldGrows(backends: seq<Backend>, was: map<string, BackendState>, ss: seq<BackendState>, s: BackendState)
    requires Held(backends, was, ss) && |ss| < |backends| && HeldBy(backends[|ss|], was, s)
    ensures Held(backends, was, ss + [s])
  {
  }

  lemma NextNotHeld(backends: seq<Backend>, was: map<string, BackendState>, ss: seq<BackendState>, s: BackendState)
    requires DistinctIds(backends) && Held(backends, was, ss) && |ss| < |backends| && s.id == backends[|ss|].id
    ensures s !in ss
  {
    forall i | 0 <= i < |ss| ensures ss[i] != s {
      assert HeldBy(backends[i], was, ss[i]);
    }
  }

  class BackendPool {
    const maxEjectedFraction: Option<real>
    var order: seq<string>
    var ordered: seq<BackendState>
    var states: map<string, BackendState>
    var tiered: bool
    var version: nat
    ghost var known: set<BackendState>       // every state this pool ever had
    ghost var live: set<ActiveConnGuard>     // guards not yet dropped

    /** A fresh pool: every backend in rotation at once, nothing in flight. */
    constructor (backends: seq<Backend>, maxFraction: Option<real>)
      requires DistinctIds(backends)
      ensures Valid() && version == 0 && live == {} && maxEjectedFraction == maxFraction
      ensures Backends() == backends && View() == StartStatuses(backends)
      ensures forall s :: s in ordered ==> StartsInRotation(s)
    {
      var ss, index := FreshStates(backends);
      maxEjectedFraction, version, live := maxFraction, 0, {};
      order, ordered, states := Ids(backends), ss, index;
      known := set s | s in ss;
      tiered := HasSeveralTiers(StartStatuses(backends));
      new;
      StartIndexed(backends);
    }

    lemma StartIndexed(backends: seq<Backend>)
      requires DistinctIds(backends) && |ordered| == |backends| && order == Ids(backends) && live == {}
      requires forall id :: id in states ==> exists i :: 0 <= i < |backends| && backends[i].id == id
      requires known == (set s | s in ordered)
      requires forall i :: 0 <= i < |backends| ==>
                 && ordered[i].backend == backends[i] && ordered[i].activeConns == 0
                 && ordered[i].Look() == NewStatus(backends[i], false)
                 && backends[i].id in states && states[backends[i].id] == ordered[i]
      ensures Indexed() && CountsMatch() && Backends() == backends && View() == StartStatuses(backends)
    {
      IndexedIds(backends, states.Keys);
      forall s | s in known ensures s.activeConns == |Holding(s)| {
        assert Holding(s) == {};
      }
    }

    static method FreshStates(backends: seq<Backend>) returns (ss: seq<BackendState>, index: map<string, BackendState>)
      requires DistinctIds(backends)
      ensures |ss| == |backends|
      ensures forall id :: id in index ==> exists i :: 0 <= i < |backends| && backends[i].id == id
      ensures forall i :: 0 <= i < |backends| ==>
                && fresh(ss[i]) && ss[i].backend == backends[i] && ss[i].activeConns == 0
                && ss[i].Look() == NewStatus(backends[i], false)
                && backends[i].id in index && index[backends[i].id] == ss[i]
      ensures forall s :: s in ss ==> StartsInRotation(s)
    {
      ss, index := [], map[];
      for k := 0 to |backends|
        invariant |ss| == k
        invariant forall id :: id in index ==> exists i :: 0 <= i < k && backends[i].id == id
        invariant forall i :: 0 <= i < k ==>
                    && fresh(ss[i]) && ss[i].backend == backends[i] && ss[i].activeConns == 0
                    && ss[i].Look() == NewStatus(backends[i], false)
                    && backends[i].id in index && index[backends[i].id] == ss[i]
        invariant forall s :: s in ss ==> fresh(s) && StartsInRotation(s)
      {
        var state := new BackendState(backends[k], false);
        ss := ss + [state];
        index := index[backends[k].id := state];
      }
    }

    ghost function Holding(s: BackendState): set<ActiveConnGuard>
      reads this
    {
      set g | g in live && g.state == s
    }

    /** Each state's count is the number of live guards holding that state. */
    ghost predicate CountsMatch()
      reads this, known
    {
      && (forall g :: g in live && g.state != null ==> g.state in known)
      && (forall s :: s in known ==> s.activeConns == |Holding(s)|)
    }

    ghost predicate Indexed()
      reads this, known
    {
      && |order| == |ordered|
      && (forall i :: 0 <= i < |order| ==>
            ordered[i] in known && ordered[i].id == order[i] && ordered[i].backend.id == order[i])
      && (forall i, j :: 0 <= i < j < |order| ==> order[i] != order[j])
      && (forall id :: id in states <==> id in order)
      && (forall i :: 0 <= i < |order| ==> order[i] in states && states[order[i]] == ordered[i])
    }

    ghost function View(): seq<Status>
      reads this, ordered
    {
      seq(|ordered|, i requires 0 <= i < |ordered| reads this, ordered => ordered[i].Look())
    }

    ghost function Backends(): seq<Backend>
      reads this, ordered
    {
      seq(|ordered|, i requires 0 <= i < |ordered| reads this, ordered => ordered[i].backend)
    }

    ghost predicate Valid()
      reads this, known
    {
      Indexed() && CountsMatch() && tiered == HasSeveralTiers(View())
    }

    /** Looking an id up in the map finds what the ordered list shows for it. */
    lemma Lookup(id: string)
      requires Indexed()
      ensures UniqueIds(View()) && DistinctIds(Backends())
      ensures id in states ==> states[id] in known && Find(View(), id) == Some(states[id].Look())
      ensures id !in states ==> Find(View(), id) == None
    {
      FindIs(View(), id);
      if id in states {
        var i :| 0 <= i < |order| && order[i] == id;
        assert View()[i] == states[id].Look();
        assert View()[i] in View();
      }
      forall s | s in View() ensures s.id in states {
        var i :| 0 <= i < |View()| && View()[i] == s;
        assert order[i] == s.id;
      }
    }

    /** What the flags show is unchanged where no flag and no backend record changed. */
    twostate lemma SameView()
      requires old(Indexed()) && order == old(order) && ordered == old(ordered)
      requires states == old(states) && known == old(known)
      requires forall s :: s in known ==> s.backend == old(s.backend) && s.Look() == old(s.Look())
      ensures Indexed() && View() == old(View())
    {
    }

    twostate lemma GuardAdded(new g: ActiveConnGuard)
      requires old(CountsMatch()) && known == old(known) && g !in old(live) && live == old(live) + {g}
      requires g.state != null ==> g.state in known
      requires forall s :: s in known ==> s.activeConns == old(s.activeConns) + if s == g.state then 1 else 0
      ensures CountsMatch()
    {
      forall s | s in known ensures s.activeConns == |Holding(s)| {
        assert Holding(s) == if s == g.state then old(Holding(s)) + {g} else old(Holding(s));
      }
    }

    twostate lemma GuardDropped(g: ActiveConnGuard)
      requires old(CountsMatch()) && known == old(known) && g in old(live) && live == old(live) - {g}
      requires forall s :: s in known ==> s.activeConns == old(s.activeConns) - if s == g.state then 1 else 0
      ensures CountsMatch()
    {
      forall s | s in known ensures s.activeConns == |Holding(s)| {
        assert Holding(s) == if s == g.state then old(Holding(s)) - {g} else old(Holding(s));
      }
    }

    /** Marks one request in flight against a backend; a no-op guard if the id is unknown. */
    method TrackActive(id: string) returns (g: ActiveConnGuard)
      requires Valid()
      modifies this`live, known`activeConns
      ensures Valid() && View() == old(View())
      ensures fresh(g) && live == old(live) + {g}
      ensures g.state == if id in states then states[id] else null
      ensures forall s :: s in known ==> s.activeConns == old(s.activeConns) + if s == g.state then 1 else 0
    {
      var state: BackendState? := null;
      if id in states {
        Lookup(id);
        state := states[id];
      }
      g := new ActiveConnGuard(state);
      if state != null {
        state.Count(1);
      }
      live := live + {g};
      SameView();
      GuardAdded(g);
    }

    /** A guard's drop. The count never underflows, and no state but the one the guard holds is touched. */
    method DropGuard(g: ActiveConnGuard)
      requires Valid() && g in live
      modifies this`live, known`activeConns
      ensures Valid() && View() == old(View())
      ensures live == old(live) - {g}
      ensures forall s :: s in known ==>
                s.activeConns == old(s.activeConns) - (if s == g.state then 1 else 0) && 0 <= s.activeConns
    {
      if g.state != null {
        assert g in Holding(g.state);
        g.state.Count(-1);
      }
      live := live - {g};
      SameView();
      GuardDropped(g);
    }

    /** In-flight requests of an id; none for an unknown one. */
    method ActiveCount(id: string) returns (n: int)
      requires Valid()
      ensures n == if id in states then |Holding(states[id])| else 0
    {
      if id in states {
        Lookup(id);
        return states[id].activeConns;
      }
      return 0;
    }

    /** Sets or clears one of the two ejection flags, within the ceiling. */
    method SetEjectionFlag(id: string, flag: Flag, value: bool)
      requires Valid()
      modifies known`circuitOpen, known`outlierEjected
      ensures Valid() && View() == AfterSet(old(View()), id, flag, value, maxEjectedFraction)
    {
      Lookup(id);
      if id in states {
        var refused := false;
        if value && maxEjectedFraction.Some? && !HasFlag(states[id].Look(), flag) {
          refused := ExceedsCeiling(states[id], maxEjectedFraction.value);
        }
        if !refused {
          StoreFlag(id, flag, value);
        }
      }
    }

    method StoreFlag(id: string, flag: Flag, value: bool)
      requires Valid() && id in states
      modifies known`circuitOpen, known`outlierEjected
      ensures Valid() && View() == SetAt(old(View()), id, flag, value)
    {
      Lookup(id);
      ghost var before := View();
      states[id].Store(flag, value);
      OneLook(id);
      CountsKept();
      SetAtFromLook(before, View(), id, flag, value);
    }

    twostate lemma CountsKept()
      requires old(CountsMatch()) && known == old(known) && live == old(live)
      requires forall s :: s in known ==> s.activeConns == old(s.activeConns)
      ensures CountsMatch()
    {
      forall s | s in known ensures s.activeConns == |Holding(s)| {
        assert Holding(s) == old(Holding(s));
      }
    }

    /** Where one backend's flags changed, the view changed at its place only. */
    twostate lemma OneLook(id: string)
      requires old(Indexed()) && id in states && order == old(order) && ordered == old(ordered)
      requires states == old(states) && known == old(known)
      requires forall s :: s in known ==> s.backend == old(s.backend)
      requires forall s :: s in known && s != states[id] ==> s.Look() == old(s.Look())
      ensures Indexed() && |View()| == |old(View())|
      ensures forall i :: 0 <= i < |View()| ==>
                View()[i] == if old(View())[i].id == id then states[id].Look() else old(View())[i]
    {
      forall i | 0 <= i < |ordered|
        ensures View()[i] == if old(View())[i].id == id then states[id].Look() else old(View())[i]
      {
        assert ordered[i].id == order[i] && states[order[i]] == ordered[i];
      }
    }

    /** A probe's verdict; the first one ends the wait for it. */
    method SetActiveHealthy(id: string, healthy: bool)
      requires Valid()
      modifies known`activeHealthy, known`awaitingFirstProbe
      ensures Valid() && View() == UpdateAt(old(View()), id, Probed(healthy))
      ensures id in states ==> states[id].activeHealthy == healthy && !states[id].awaitingFirstProbe
      ensures forall s :: s in known && (id in states ==> s != states[id]) ==> s.Look() == old(s.Look())
    {
      Lookup(id);
      ghost var before := View();
      if id in states {
        states[id].StoreProbe(healthy);
        OneLook(id);
        CountsKept();
      }
      UpdateAtFromLook(before, View(), id, Probed(healthy));
    }

    method SetManuallyDrained(id: string, drained: bool)
      requires Valid()
      modifies known`manuallyDrained
      ensures Valid() && View() == UpdateAt(old(View()), id, Drained(drained))
      ensures id in states ==> states[id].manuallyDrained == drained
      ensures forall s :: s in known && (id in states ==> s != states[id]) ==> s.Look() == old(s.Look())
    {
      Lookup(id);
      ghost var before := View();
      if id in states {
        states[id].StoreDrained(drained);
        OneLook(id);
        CountsKept();
      }
      UpdateAtFromLook(before, View(), id, Drained(drained));
    }

    method ExceedsCeiling(s: BackendState, maxFraction: real) returns (exceeds: bool)
      requires Valid() && s.id in states && states[s.id] == s
      ensures exceeds == Exceeds(View(), s.id, maxFraction)
    {
      Lookup(s.id);
      if s.circuitOpen || s.outlierEjected {
        return false;
      }
      var total := |order|;
      var ejected := EjectedNow();
      exceeds := (ejected + 1) as real / total as real > maxFraction;
    }

    /** How many backends are out, by either flag. */
    method EjectedNow() returns (ejected: nat)
      ensures ejected == CountEjected(View())
    {
      ghost var view := View();
      ejected := 0;
      for i := 0 to |ordered|
        invariant ejected == CountEjected(view[..i])
      {
        assert view[..i + 1][..i] == view[..i];
        if ordered[i].circuitOpen || ordered[i].outlierEjected {
          ejected := ejected + 1;
        }
      }
      assert view[..|ordered|] == view;
    }

    method IsEligibleNow(id: string) returns (eligible: bool)
      requires Valid()
      ensures eligible == IsEligible(View(), HasSeveralTiers(View()), id)
    {
      Lookup(id);
      if id !in states {
        return false;
      }
      var look := Look();
      eligible := IsEligible(look, tiered, id);
    }

    method EligibleNow() returns (ids: seq<Status>)
      requires Valid()
      ensures ids == EligibleBackends(View(), HasSeveralTiers(View()))
    {
      var look := Look();
      ids := EligibleBackends(look, tiered);
    }

    /** The state for one backend of a refreshed list: its own, updated in place, or a new one. */
    method StateFor(b: Backend) returns (state: BackendState)
      requires b.id in states ==> states[b.id].id == b.id
      modifies (if b.id in states then {states[b.id]} else {})`backend
      ensures HeldBy(b, states, state) && (b.id !in states ==> fresh(state))
    {
      if b.id in states {
        state := states[b.id];
        state.backend := b;
      } else {
        state := new BackendState(b, true);
      }
    }

    /** The states of a refreshed list. A persisting backend keeps its state object, updated in place. */
    method Restate(backends: seq<Backend>) returns (ordered': seq<BackendState>, states': map<string, BackendState>)
      requires DistinctIds(backends) && forall id :: id in states ==> states[id] in known && states[id].id == id
      modifies known`backend
      ensures |ordered'| == |backends| && IndexOf(backends, ordered', states') && Held(backends, states, ordered')
      ensures forall i :: 0 <= i < |backends| && backends[i].id !in states ==> fresh(ordered'[i])
    {
      ordered', states' := [], map[];
      for k := 0 to |backends|
        invariant |ordered'| == k && IndexOf(backends, ordered', states') && Held(backends, states, ordered')
        invariant forall i :: 0 <= i < k && backends[i].id !in states ==> fresh(ordered'[i])
      {
        if backends[k].id in states {
          NextNotHeld(backends, states, ordered', states[backends[k].id]);
        }
        var state := StateFor(backends[k]);
        IndexGrows(backends, ordered', states', state);
        HeldGrows(backends, states, ordered', state);
        ordered' := ordered' + [state];
        states' := states'[backends[k].id := state];
      }
    }

    /** The backends as they stand. */
    method CurrentBackends() returns (previous: seq<Backend>)
      requires Indexed()
      ensures previous == Backends()
    {
      previous := [];
      for i := 0 to |ordered|
        invariant previous == Backends()[..i]
      {
        previous := previous + [ordered[i].backend];
      }
    }

    /** Takes in a refreshed backend list. Nothing happens, not even a version bump, when the set of backends is the
        one already held. Otherwise the list replaces the old one, known backends keep their state object with its
        flags and in-flight count, and new ones start from scratch. */
    method ApplyResolved(backends: seq<Backend>)
      requires Valid() && DistinctIds(backends)
      modifies this, known`backend
      ensures Valid() && old(known) <= known && live == old(live)
      ensures forall s :: s in old(known) ==> s.activeConns == old(s.activeConns)
      ensures AsSet(old(Backends())) == AsSet(backends) ==>
                version == old(version) && View() == old(View()) && states == old(states)
      ensures AsSet(old(Backends())) != AsSet(backends) ==>
                && version == old(version) + 1 && Backends() == backends
                && View() == AfterApply(old(View()), backends)
                && forall id :: id in states ==>
                     if id in old(states) then states[id] == old(states)[id]
                     else fresh(states[id]) && StartsWaiting(states[id])
    {
      Lookup("");
      var previous := CurrentBackends();
      SetUnchangedExactly(previous, backends);
      if !SetUnchanged(previous, backends) {
        Rebuild(backends);
        KnownGrown();
      }
    }

    /** The states of a refreshed list are in place: one per backend, holding it, showing what it should show. */
    static ghost predicate Rebuilt(backends: seq<Backend>, ss: seq<BackendState>, index: map<string, BackendState>,
                                   looks: seq<Status>)
      reads ss
    {
      && DistinctIds(backends) && |ss| == |backends| == |looks|
      && (forall id :: id in index <==> id in Ids(backends))
      && (forall i :: 0 <= i < |backends| ==> backends[i].id in index && index[backends[i].id] == ss[i])
      && (forall i :: 0 <= i < |backends| ==> ss[i].id == backends[i].id && ss[i].backend == backends[i])
      && (forall i :: 0 <= i < |backends| ==> ss[i].Look() == looks[i])
    }

    /** The list really changed: rebuild, swap in, bump the version. */
    method Rebuild(backends: seq<Backend>)
      requires Valid() && DistinctIds(backends)
      modifies this, known`backend
      ensures Indexed() && tiered == HasSeveralTiers(View()) && old(known) <= known && live == old(live)
      ensures forall s :: s in old(known) ==> s.activeConns == old(s.activeConns)
      ensures forall s :: s in known && s !in old(known) ==> s.activeConns == 0
      ensures version == old(version) + 1 && Backends() == backends && View() == AfterApply(old(View()), backends)
      ensures forall id :: id in states ==>
                if id in old(states) then states[id] == old(states)[id]
                else fresh(states[id]) && StartsWaiting(states[id])
    {
      var ordered', states', tiered' := Prepare(backends);
      SwapIn(backends, ordered', states', tiered', AfterApply(old(View()), backends));
    }

    /** The states, index and tier flag of a refreshed list, not yet published. */
    method Prepare(backends: seq<Backend>)
      returns (ordered': seq<BackendState>, states': map<string, BackendState>, tiered': bool)
      requires Indexed() && DistinctIds(backends)
      modifies known`backend
      ensures Rebuilt(backends, ordered', states', AfterApply(old(View()), backends))
      ensures tiered' == HasSeveralTiers(AfterApply(old(View()), backends))
      ensures forall id :: id in states' ==>
                if id in states then states'[id] == states[id] && states'[id] in known
                else fresh(states'[id]) && StartsWaiting(states'[id])
      ensures forall s :: s in ordered' ==> s.id in states' && states'[s.id] == s
    {
      ghost var q := View();
      ghost var was := map id | id in states :: states[id].Look();
      forall id ensures Find(q, id) == if id in states then Some(was[id]) else None
                ensures id in states ==> states[id] in known
      {
        Lookup(id);
      }
      ordered', states' := Restate(backends);
      ghost var looks := AfterApply(q, backends);
      forall i | 0 <= i < |backends|
        ensures HeldBy(backends[i], states, ordered'[i]) && ordered'[i].Look() == looks[i]
      {
        if backends[i].id in states {
          assert ordered'[i].Look() == Carried(was[backends[i].id], backends[i]);
        }
      }
      IndexedIds(backends, states'.Keys);
      assert Rebuilt(backends, ordered', states', looks);
      tiered' := SeveralTiers(backends, ordered', states', looks);
    }

    /** Publishes the rebuilt list and bumps the version. */
    method SwapIn(backends: seq<Backend>, ordered': seq<BackendState>, states': map<string, BackendState>,
                  tiered': bool,
                  ghost looks: seq<Status>)
      requires Rebuilt(backends, ordered', states', looks)
      modifies this
      ensures Indexed() && Backends() == backends && View() == looks && states == states' && tiered == tiered'
      ensures live == old(live) && version == old(version) + 1 && known == old(known) + set s | s in ordered'
    {
      ghost var known' := known + set s | s in ordered';
      order, ordered, states, tiered, version, known := Ids(backends), ordered', states', tiered', version + 1, known';
      IndexedFrom(Refresh(backends, ordered', states', looks));
    }

    static method SeveralTiers(backends: seq<Backend>, ss: seq<BackendState>, ghost index: map<string, BackendState>,
                               ghost looks: seq<Status>)
      returns (tiered: bool)
      requires Rebuilt(backends, ss, index, looks)
      ensures tiered == HasSeveralTiers(looks)
    {
      for i := 0 to |ss|
        invariant forall k :: 0 < k < i ==> looks[k].priority == looks[0].priority
      {
        assert ss[i].Look() == looks[i] && ss[0].Look() == looks[0];
        if ss[i].backend.priority != ss[0].backend.priority {
          return true;
        }
      }
      return false;
    }

    twostate lemma IndexedFrom(r: Refresh)
      requires old(Rebuilt(r.backends, r.ss, r.index, r.looks))
      requires forall s :: s in r.ss ==> s.backend == old(s.backend) && s.Look() == old(s.Look())
      requires order == Ids(r.backends) && ordered == r.ss && states == r.index
      requires forall s :: s in r.ss ==> s in known
      ensures Indexed() && Backends() == r.backends && View() == r.looks
    {
      var Refresh(backends, ss, index, looks) := r;
      forall i | 0 <= i < |ss|
        ensures ss[i] in known && ss[i].id == backends[i].id && ss[i].backend == backends[i] && ss[i].Look() == looks[i]
      {
        assert ss[i] in ss;
        assert old(ss[i].Look()) == looks[i];
      }
    }

    /** New states start uncounted, and no guard can hold one yet. */
    twostate lemma KnownGrown()
      requires old(CountsMatch()) && live == old(live) && old(known) <= known
      requires forall s :: s in old(known) ==> s.activeConns == old(s.activeConns)
      requires forall s :: s in known && s !in old(known) ==> s.activeConns == 0
      ensures CountsMatch()
    {
      forall s | s in known ensures s.activeConns == |Holding(s)| {
        if s in old(known) {
          assert Holding(s) == old(Holding(s));
        } else {
          assert Holding(s) == {};
        }
      }
    }

    /** One look at every backend's flags. */
    method Look() returns (look: seq<Status>)
      requires Indexed()
      ensures look == View()
    {
      look := [];
      for i := 0 to |ordered|
        invariant look == View()[..i]
      {
        look := look + [ordered[i].Look()];
      }
    }
  }
}
