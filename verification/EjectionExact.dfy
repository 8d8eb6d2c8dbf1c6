/** Exactly when the ejection ceiling survives every interleaving of ejecting and clearing calls. */
module EjectionExact {
  import opened Options
  import opened Eligibility
  import opened Ejection
  import opened EjectionRaces

  ghost predicate Reaches(w: World, v: World, maxFraction: real) {
    exists worlds: seq<World>, steps: seq<Step> ::
      IsRun(worlds, steps, maxFraction) && worlds[0] == w && worlds[|steps|] == v
  }

  /** Whatever the threads do from here, the ceiling holds. */
  ghost predicate AlwaysWithin(w: World, maxFraction: real) {
    forall v :: Reaches(w, v, maxFraction) ==> WithinCeiling(v.q, maxFraction)
  }

  lemma ReachesItself(w: World, maxFraction: real)
    ensures Reaches(w, w, maxFraction)
  {
    var worlds: seq<World>, steps: seq<Step> := [w], [];
    assert IsRun(worlds, steps, maxFraction);
  }

  lemma ReachesNext(w: World, v: World, step: Step, x: World, maxFraction: real)
    requires Reaches(w, v, maxFraction) && Next(v, step, x, maxFraction)
    ensures Reaches(w, x, maxFraction)
  {
    var worlds: seq<World>, steps: seq<Step> :|
      IsRun(worlds, steps, maxFraction) && worlds[0] == w && worlds[|steps|] == v;
    var worlds', steps' := worlds + [x], steps + [step];
    forall i | 0 <= i < |steps'|
      ensures Next(worlds'[i], steps'[i], worlds'[i + 1], maxFraction)
    {
      if i < |steps| {
        assert Next(worlds[i], steps[i], worlds[i + 1], maxFraction);
      }
    }
    assert IsRun(worlds', steps', maxFraction);
  }

  // ---- A ceiling that leaves no choice ----

  lemma {:induction false} CountAtMostAll(q: seq<Status>)
    ensures CountEjected(q) <= |q|
  {
    if q != [] {
      CountAtMostAll(q[..|q| - 1]);
    }
  }

  lemma WholePool(count: nat, total: nat, maxFraction: real)
    requires count <= total && 1.0 <= maxFraction
    ensures count as real <= maxFraction * total as real
  {
    assert (maxFraction - 1.0) * total as real >= 0.0;
  }

  lemma {:induction false} NobodyEjected(q: seq<Status>, id: string)
    requires CountEjected(q) == 0 && Find(q, id).Some?
    ensures !Ejected(Find(q, id).value)
  {
    if q[|q| - 1].id != id {
      NobodyEjected(q[..|q| - 1], id);
    }
  }

  /** Nobody is ejected and no thread is about to eject anybody. */
  ghost predicate Barred(w: World) {
    && UniqueIds(w.q) && CountEjected(w.q) == 0
    && forall t :: t in w.pcs ==>
         w.pcs[t] == Idle || ((w.pcs[t].Waiting? || w.pcs[t].Locked?) && Find(w.q, w.pcs[t].id).Some?)
  }

  /** The ceiling allows less than one ejection among this many backends. */
  predicate BelowOne(maxFraction: real, total: nat) {
    maxFraction * total as real < 1.0
  }

  /** With room for less than one ejection every check refuses. */
  lemma CheckRefuses(q: seq<Status>, id: string, maxFraction: real, total: nat)
    requires CountEjected(q) == 0 && Find(q, id).Some? && |q| == total && BelowOne(maxFraction, total)
    ensures Exceeds(q, id, maxFraction)
  {
    NobodyEjected(q, id);
    FindNonEmpty(q, id);
    CeilingArithmetic(0, total, maxFraction);
  }

  lemma ClearKeepsBarred(w: World, id: string, flag: Flag)
    requires Barred(w)
    ensures Barred(w.(q := SetAt(w.q, id, flag, false)))
  {
    ClearLowers(w.q, id, flag);
    forall t | t in w.pcs && w.pcs[t] != Idle
      ensures Find(SetAt(w.q, id, flag, false), w.pcs[t].id).Some?
    {
      FindAfterSetAt(w.q, id, flag, false, w.pcs[t].id);
    }
  }

  lemma StepKeepsBarred(w: World, step: Step, v: World, maxFraction: real, total: nat)
    requires Barred(w) && Next(w, step, v, maxFraction) && |w.q| == total && BelowOne(maxFraction, total)
    ensures Barred(v) && |v.q| == total
  {
    match step
    case Begin(t, id, flag) =>
      if Find(w.q, id).Some? {
        NobodyEjected(w.q, id);
      }
    case Check(t) =>
      CheckRefuses(w.q, w.pcs[t].id, maxFraction, total);
    case Clear(id, flag) =>
      ClearKeepsBarred(w, id, flag);
    case _ =>
  }

  lemma {:induction false} RunKeepsBarred(worlds: seq<World>, steps: seq<Step>, maxFraction: real, i: nat, total: nat)
    requires IsRun(worlds, steps, maxFraction) && i < |worlds| && Barred(worlds[0])
    requires |worlds[0].q| == total && BelowOne(maxFraction, total)
    ensures Barred(worlds[i]) && |worlds[i].q| == total
  {
    if i != 0 {
      RunKeepsBarred(worlds, steps, maxFraction, i - 1, total);
      StepKeepsBarred(worlds[i - 1], steps[i - 1], worlds[i], maxFraction, total);
    }
  }

  lemma FullCeiling(worlds: seq<World>, steps: seq<Step>, maxFraction: real, i: nat)
    requires IsRun(worlds, steps, maxFraction) && i < |worlds| && 1.0 <= maxFraction
    ensures WithinCeiling(worlds[i].q, maxFraction)
  {
    CountAtMostAll(worlds[i].q);
    WholePool(CountEjected(worlds[i].q), |worlds[i].q|, maxFraction);
  }

  lemma EmptyCeiling(worlds: seq<World>, steps: seq<Step>, maxFraction: real, i: nat, total: nat)
    requires IsRun(worlds, steps, maxFraction) && i < |worlds| && AtRest(worlds[0], maxFraction)
    requires |worlds[0].q| == total && BelowOne(maxFraction, total)
    ensures WithinCeiling(worlds[i].q, maxFraction)
  {
    assert CountEjected(worlds[0].q) as real <= maxFraction * total as real;
    assert Barred(worlds[0]);
    RunKeepsBarred(worlds, steps, maxFraction, i, total);
  }

  lemma NoChoiceKeepsCeiling(w: World, maxFraction: real)
    requires AtRest(w, maxFraction) && (BelowOne(maxFraction, |w.q|) || 1.0 <= maxFraction)
    ensures AlwaysWithin(w, maxFraction)
  {
    forall v | Reaches(w, v, maxFraction)
      ensures WithinCeiling(v.q, maxFraction)
    {
      var worlds: seq<World>, steps: seq<Step> :|
        IsRun(worlds, steps, maxFraction) && worlds[0] == w && worlds[|steps|] == v;
      if 1.0 <= maxFraction {
        FullCeiling(worlds, steps, maxFraction, |steps|);
      } else {
        EmptyCeiling(worlds, steps, maxFraction, |steps|, |w.q|);
      }
    }
  }

  // ---- Otherwise some interleaving goes past it ----

  lemma {:induction false} SomeoneOut(q: seq<Status>) returns (i: nat)
    requires 0 < CountEjected(q)
    ensures i < |q| && Ejected(q[i])
  {
    i := |q| - 1;
    if !Ejected(q[i]) {
      i := SomeoneOut(q[..|q| - 1]);
    }
  }

  lemma {:induction false} SomeoneIn(q: seq<Status>) returns (i: nat)
    requires CountEjected(q) < |q|
    ensures i < |q| && !Ejected(q[i])
  {
    i := |q| - 1;
    if Ejected(q[i]) {
      i := SomeoneIn(q[..|q| - 1]);
    }
  }

  lemma FindAt(q: seq<Status>, i: nat)
    requires UniqueIds(q) && i < |q|
    ensures Find(q, q[i].id) == Some(q[i])
  {
    FindIs(q, q[i].id);
    assert q[i] in q;
  }

  ghost predicate LockFree(w: World) {
    forall t :: t in w.pcs ==> !Holds(w.pcs[t])
  }

  /** One undisturbed call ejects a backend there is room for. */
  lemma EjectOne(start: World, w: World, t: nat, id: string, maxFraction: real, total: nat)
    requires Reaches(start, w, maxFraction) && t in w.pcs && w.pcs[t] == Idle && LockFree(w) && |w.q| == total
    requires UniqueIds(w.q) && Find(w.q, id).Some? && !Ejected(Find(w.q, id).value)
    requires (CountEjected(w.q) + 1) as real <= maxFraction * total as real
    ensures Reaches(start, w.(q := SetAt(w.q, id, Circuit, true)), maxFraction)
    ensures UniqueIds(SetAt(w.q, id, Circuit, true))
    ensures CountEjected(SetAt(w.q, id, Circuit, true)) == CountEjected(w.q) + 1
  {
    FindNonEmpty(w.q, id);
    CeilingArithmetic(CountEjected(w.q), total, maxFraction);
    assert !Exceeds(w.q, id, maxFraction);
    RunOneCall(start, w, t, id, maxFraction);
    CountAfterSetAt(w.q, id, Circuit, true);
    SetAtKeepsIds(w.q, id, Circuit, true);
  }

  lemma RunOneCall(start: World, w: World, t: nat, id: string, maxFraction: real)
    requires Reaches(start, w, maxFraction) && t in w.pcs && w.pcs[t] == Idle && LockFree(w)
    requires Find(w.q, id).Some? && !Ejected(Find(w.q, id).value) && !Exceeds(w.q, id, maxFraction)
    ensures Reaches(start, w.(q := SetAt(w.q, id, Circuit, true)), maxFraction)
  {
    var w1 := w.(pcs := w.pcs[t := Waiting(id, Circuit)]);
    var w2 := w.(pcs := w.pcs[t := Locked(id, Circuit)]);
    var w3 := w.(pcs := w.pcs[t := Granted(id, Circuit)]);
    var w4 := w.(q := SetAt(w.q, id, Circuit, true));
    assert w1.pcs[t := Locked(id, Circuit)] == w2.pcs && w2.pcs[t := Granted(id, Circuit)] == w3.pcs;
    assert w3.pcs[t := Idle] == w.pcs;
    ReachesNext(start, w, Begin(t, id, Circuit), w1, maxFraction);
    ReachesNext(start, w1, Lock(t), w2, maxFraction);
    ReachesNext(start, w2, Check(t), w3, maxFraction);
    ReachesNext(start, w3, Store(t), w4, maxFraction);
  }

  /** Ejecting one after the other brings the pool right up to the ceiling. */
  lemma {:induction false} FillUp(start: World, w: World, t: nat, maxFraction: real, total: nat, cap: real)
    returns (v: World)
    requires Reaches(start, w, maxFraction) && t in w.pcs && w.pcs[t] == Idle && LockFree(w) && UniqueIds(w.q)
    requires |w.q| == total && cap == maxFraction * total as real && CountEjected(w.q) as real <= cap < total as real
    ensures Reaches(start, v, maxFraction) && v.pcs == w.pcs && |v.q| == total && UniqueIds(v.q)
    ensures CountEjected(v.q) as real <= cap < (CountEjected(v.q) + 1) as real
    decreases total - CountEjected(w.q)
  {
    if cap < (CountEjected(w.q) + 1) as real {
      v := w;
    } else {
      var i := SomeoneIn(w.q);
      FindAt(w.q, i);
      EjectOne(start, w, t, w.q[i].id, maxFraction, total);
      v := FillUp(start, w.(q := SetAt(w.q, w.q[i].id, Circuit, true)), t, maxFraction, total, cap);
    }
  }

  function Reinstated(q: seq<Status>, id: string): seq<Status> {
    SetAt(SetAt(q, id, Circuit, false), id, Outlier, false)
  }

  /** Clearing both flags of an ejected backend lets it back in and changes nobody else. */
  lemma ReinstatedIs(q: seq<Status>, id: string, other: string)
    requires UniqueIds(q) && Find(q, id).Some? && Ejected(Find(q, id).value)
    ensures var r := Reinstated(q, id);
            && UniqueIds(r) && |r| == |q| && CountEjected(r) == CountEjected(q) - 1
            && Find(r, id).Some? && !Ejected(Find(r, id).value)
            && (other != id ==> Find(r, other) == Find(q, other))
  {
    var m := SetAt(q, id, Circuit, false);
    CountAfterSetAt(q, id, Circuit, false);
    SetAtKeepsIds(q, id, Circuit, false);
    FindAfterSetAt(q, id, Circuit, false, id);
    FindAfterSetAt(q, id, Circuit, false, other);
    CountAfterSetAt(m, id, Outlier, false);
    SetAtKeepsIds(m, id, Outlier, false);
    FindAfterSetAt(m, id, Outlier, false, id);
    FindAfterSetAt(m, id, Outlier, false, other);
  }

  /** At the ceiling: one thread sees a flag set, the flag is cleared, another thread takes the freed place, and the
      first stores the flag again. */
  lemma OneTooMany(start: World, w: World, t: nat, u: nat, a: string, flag: Flag, b: string, maxFraction: real,
                   total: nat)
    returns (v: World)
    requires Reaches(start, w, maxFraction) && t in w.pcs && u in w.pcs && t != u && w.pcs[t] == w.pcs[u] == Idle
    requires LockFree(w) && UniqueIds(w.q) && |w.q| == total && a != b
    requires Find(w.q, a).Some? && HasFlag(Find(w.q, a).value, flag)
    requires Find(w.q, b).Some? && !Ejected(Find(w.q, b).value)
    requires CountEjected(w.q) as real <= maxFraction * total as real
    ensures Reaches(start, v, maxFraction) && |v.q| == total && CountEjected(v.q) == CountEjected(w.q) + 1
  {
    var x1 := w.(pcs := w.pcs[t := Storing(a, flag)]);
    var x2 := x1.(q := SetAt(w.q, a, Circuit, false));
    var x3 := x1.(q := Reinstated(w.q, a));
    ReachesNext(start, w, Begin(t, a, flag), x1, maxFraction);
    ReachesNext(start, x1, Clear(a, Circuit), x2, maxFraction);
    ReachesNext(start, x2, Clear(a, Outlier), x3, maxFraction);
    ReinstatedIs(w.q, a, b);
    EjectOne(start, x3, u, b, maxFraction, total);
    var x4 := x3.(q := SetAt(x3.q, b, Circuit, true));
    FindAfterSetAt(x3.q, b, Circuit, true, a);
    CountAfterSetAt(x4.q, a, flag, true);
    v := World(SetAt(x4.q, a, flag, true), x4.pcs[t := Idle]);
    ReachesNext(start, x4, StoreAgain(t), v, maxFraction);
  }

  lemma PastTheCeiling(w: World, t: nat, u: nat, maxFraction: real, total: nat, cap: real) returns (v: World)
    requires AtRest(w, maxFraction) && t in w.pcs && u in w.pcs && t != u && |w.q| == total
    requires cap == maxFraction * total as real && 1.0 <= cap < total as real
    ensures Reaches(w, v, maxFraction) && |v.q| == total && cap < CountEjected(v.q) as real
  {
    ReachesItself(w, maxFraction);
    var x := FillUp(w, w, t, maxFraction, total, cap);
    var i := SomeoneOut(x.q);
    var j := SomeoneIn(x.q);
    FindAt(x.q, i);
    FindAt(x.q, j);
    var flag := if x.q[i].circuitOpen then Circuit else Outlier;
    v := OneTooMany(w, x, t, u, x.q[i].id, flag, x.q[j].id, maxFraction, total);
  }

  lemma BelowAll(maxFraction: real, total: nat)
    requires maxFraction < 1.0 && !BelowOne(maxFraction, total)
    ensures 1.0 <= maxFraction * total as real < total as real
  {
    assert total > 0;
    assert (1.0 - maxFraction) * total as real > 0.0;
  }

  lemma NotWithin(q: seq<Status>, maxFraction: real, total: nat, cap: real)
    requires |q| == total && cap == maxFraction * total as real && cap < CountEjected(q) as real
    ensures !WithinCeiling(q, maxFraction)
  {
  }

  lemma ChoiceBreaksCeiling(w: World, t: nat, u: nat, maxFraction: real, total: nat, cap: real)
    requires AtRest(w, maxFraction) && t in w.pcs && u in w.pcs && t != u && |w.q| == total
    requires cap == maxFraction * total as real && 1.0 <= cap < total as real
    ensures !AlwaysWithin(w, maxFraction)
  {
    var v := PastTheCeiling(w, t, u, maxFraction, total, cap);
    NotWithin(v.q, maxFraction, total, cap);
  }

  /** With two threads or more, every interleaving of ejecting and clearing calls keeps the ceiling if and only if the
      ceiling leaves no choice: it allows less than one ejection, or it allows them all. */
  lemma CeilingSurvivesExactly(w: World, t: nat, u: nat, maxFraction: real)
    requires AtRest(w, maxFraction) && t in w.pcs && u in w.pcs && t != u
    ensures AlwaysWithin(w, maxFraction) <==> BelowOne(maxFraction, |w.q|) || 1.0 <= maxFraction
  {
    if BelowOne(maxFraction, |w.q|) || 1.0 <= maxFraction {
      NoChoiceKeepsCeiling(w, maxFraction);
    } else {
      BelowAll(maxFraction, |w.q|);
      ChoiceBreaksCeiling(w, t, u, maxFraction, |w.q|, maxFraction * |w.q| as real);
    }
  }

  /** Two healthy backends and a ceiling of one half: both can end up ejected. */
  lemma HalfCeilingBreaks() returns (w: World, v: World)
    ensures |w.q| == 2 && AtRest(w, 0.5) && CountEjected(w.q) == 0 && w.pcs == map[0 := Idle, 1 := Idle]
    ensures Reaches(w, v, 0.5) && |v.q| == 2 && CountEjected(v.q) == 2
  {
    var a := Status("a", 1, 0, true, false, false, false, false);
    w := World([a, a.(id := "b")], map[0 := Idle, 1 := Idle]);
    assert CountEjected([a]) == 0 by { assert [a][..0] == []; }
    assert CountEjected(w.q) == 0 by { assert w.q[..1] == [a]; }
    v := PastTheCeiling(w, 0, 1, 0.5, 2, 1.0);
    CountAtMostAll(v.q);
  }
}
