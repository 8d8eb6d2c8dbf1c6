/** The balancers' cached ring or table under concurrent refreshes. `apply_resolved` stores weights in place, swaps the
    backend list and then bumps the version; a pick reads the version, takes the cached structure when its tag matches,
    and otherwise builds one read by read and publishes it under the version it saw. Every atomic access is a step. */
module VersionedCaches {
  import opened Options
  import opened Candidates

  /** The swapped-in list: ids in order, and where each backend's state lives. */
  datatype Inner = Inner(order: seq<string>, states: map<string, nat>)

  datatype Writer =
    | Idle
    | Working(target: seq<Member>, done: nat, next: Inner)   // holds the lock; `done` backends handled
    | Swapped(target: seq<Member>)                           // the list is in, the version not yet bumped

  /** A built structure, known by what it was built from. */
  datatype Tagged = Tagged(pool: nat, version: nat, inputs: seq<Member>)

  datatype Reader =
    | Started(version: nat)
    | Listing(version: nat, order: seq<string>, read: seq<Member>)
    | Looking(version: nat, order: seq<string>, read: seq<Member>, handle: Option<nat>)
    | Using(tag: Tagged)

  /** `quiet`: no refresh has been at work since the pick began. */
  datatype Pick = Pick(reader: Reader, quiet: bool)

  /** `applied` is the set of the last finished refresh; it and `quiet` are history, read by no step. */
  datatype State = State(
    inner: Inner, heap: seq<nat>, version: nat, writer: Writer, eligible: set<string>,
    cache: Tagged, picks: map<nat, Pick>, applied: seq<Member>)

  datatype Event =
    | Begin(target: seq<Member>)
    | Handle
    | Swap
    | Bump
    | Flip(eligible: set<string>)
    | Foreign(tag: Tagged)
    | Start(p: nat)
    | UseCached(p: nat)
    | List(p: nat)
    | Lookup(p: nat)
    | Load(p: nat)
    | Publish(p: nat)
    | Finish(p: nat)

  /** This pool; a default-constructed cache names pool 0. */
  const THIS: nat := 1

  function Weight(inner: Inner, heap: seq<nat>, id: string): nat {
    if id in inner.states && inner.states[id] < |heap| then heap[inner.states[id]] else 1
  }

  /** What a build reads from a pool at rest. */
  function Fresh(inner: Inner, heap: seq<nat>): seq<Member> {
    seq(|inner.order|, i requires 0 <= i < |inner.order| =>
      Member(inner.order[i], Weight(inner, heap, inner.order[i])))
  }

  /** No refresh has written anything yet. */
  predicate Clean(s: State) {
    s.writer.Idle? || (s.writer.Working? && s.writer.done == 0)
  }

  predicate Distinct(target: seq<Member>) {
    forall i, j :: 0 <= i < j < |target| ==> target[i].id != target[j].id
  }

  function Disturbed(picks: map<nat, Pick>): map<nat, Pick> {
    map p | p in picks :: picks[p].(quiet := false)
  }

  // ---- Steps ----

  /** One backend of the new set: a known one is updated in place, a new one gets a state of its own. */
  function Handled(s: State): State
    requires s.writer.Working? && s.writer.done < |s.writer.target|
  {
    var w := s.writer;
    var b := w.target[w.done];
    var known := b.id in s.inner.states && s.inner.states[b.id] < |s.heap|;
    var handle := if known then s.inner.states[b.id] else |s.heap|;
    s.(heap := if known then s.heap[handle := b.weight] else s.heap + [b.weight],
       writer := w.(done := w.done + 1, next := Inner(w.next.order + [b.id], w.next.states[b.id := handle])),
       picks := Disturbed(s.picks))
  }

  function WithPick(s: State, p: nat, reader: Reader): State
    requires p in s.picks
  {
    s.(picks := s.picks[p := s.picks[p].(reader := reader)])
  }

  /** One step of pick p; events that do not apply leave the state alone. */
  function ReaderStep(s: State, e: Event): State {
    match e
    case Start(p) => s.(picks := s.picks[p := Pick(Started(s.version), Clean(s))])
    case UseCached(p) =>
      if p in s.picks && s.picks[p].reader.Started? &&
         s.cache.pool == THIS && s.cache.version == s.picks[p].reader.version
      then WithPick(s, p, Using(s.cache)) else s
    case List(p) =>
      if p in s.picks && s.picks[p].reader.Started?
      then WithPick(s, p, Listing(s.picks[p].reader.version, s.inner.order, [])) else s
    case Lookup(p) =>
      if p in s.picks && s.picks[p].reader.Listing? && |s.picks[p].reader.read| < |s.picks[p].reader.order|
      then
        var r := s.picks[p].reader;
        var id := r.order[|r.read|];
        WithPick(s, p, Looking(r.version, r.order, r.read,
                               if id in s.inner.states then Some(s.inner.states[id]) else None))
      else s
    case Load(p) =>
      if p in s.picks && s.picks[p].reader.Looking? && |s.picks[p].reader.read| < |s.picks[p].reader.order|
      then
        var r := s.picks[p].reader;
        var weight := if r.handle.Some? && r.handle.value < |s.heap| then s.heap[r.handle.value] else 1;
        WithPick(s, p, Listing(r.version, r.order, r.read + [Member(r.order[|r.read|], weight)]))
      else s
    case Publish(p) =>
      if p in s.picks && s.picks[p].reader.Listing? && |s.picks[p].reader.read| == |s.picks[p].reader.order|
      then
        var built := Tagged(THIS, s.picks[p].reader.version, s.picks[p].reader.read);
        WithPick(s, p, Using(built)).(cache := built)
      else s
    case Finish(p) => s.(picks := s.picks - {p})
    case _ => s
  }

  function WriterStep(s: State, e: Event): State {
    match e
    case Begin(target) =>
      if s.writer.Idle? && Distinct(target) then s.(writer := Working(target, 0, Inner([], map[]))) else s
    case Handle => if s.writer.Working? && s.writer.done < |s.writer.target| then Handled(s) else s
    case Swap =>
      if s.writer.Working? && s.writer.done == |s.writer.target|
      then s.(inner := s.writer.next, writer := Swapped(s.writer.target), picks := Disturbed(s.picks)) else s
    case Bump =>
      if s.writer.Swapped?
      then
        s.(version := s.version + 1, writer := Idle, applied := s.writer.target, picks := Disturbed(s.picks))
      else s
    case _ => s
  }

  function Step(s: State, e: Event): State {
    match e
    case Begin(_) => WriterStep(s, e)
    case Handle => WriterStep(s, e)
    case Swap => WriterStep(s, e)
    case Bump => WriterStep(s, e)
    case Flip(eligible) => s.(eligible := eligible)
    case Foreign(tag) => if tag.pool != THIS then s.(cache := tag) else s
    case _ => ReaderStep(s, e)
  }

  function Run(s: State, events: seq<Event>): State {
    if events == [] then s else Step(Run(s, events[..|events| - 1]), events[|events| - 1])
  }

  /** A new pool over distinct backends, and a balancer that has cached nothing. */
  ghost predicate Init(s: State) {
    && s.writer == Idle && s.picks == map[] && s.cache == Tagged(0, 0, []) && s.version == 0
    && InnerSound(s.inner, s.heap) && Fresh(s.inner, s.heap) == s.applied
  }

  // ---- The invariant ----

  /** Every listed backend has a state of its own. */
  ghost predicate InnerSound(inner: Inner, heap: seq<nat>) {
    && (forall id <- inner.states :: inner.states[id] < |heap|)
    && (forall a <- inner.states, b <- inner.states :: a != b ==> inner.states[a] != inner.states[b])
  }

  /** The list a refresh is building holds the handled backends, each with its new weight. */
  ghost predicate NextListed(target: seq<Member>, done: nat, next: Inner, heap: seq<nat>) {
    && done <= |target| && Distinct(target) && InnerSound(next, heap) && |next.order| == done
    && (forall i :: 0 <= i < done ==> next.order[i] == target[i].id)
    && (forall i :: 0 <= i < done ==> target[i].id in next.states)
    && (forall i :: 0 <= i < done ==> heap[next.states[target[i].id]] == target[i].weight)
    && (forall id <- next.states :: exists i :: 0 <= i < done && target[i].id == id)
  }

  /** It shares a state with the current list only for the same backend. */
  ghost predicate Apart(next: Inner, inner: Inner) {
    forall a <- next.states, b <- inner.states :: next.states[a] == inner.states[b] ==> a == b
  }

  ghost predicate NextSound(s: State) {
    s.writer.Working? ==>
      && NextListed(s.writer.target, s.writer.done, s.writer.next, s.heap)
      && Apart(s.writer.next, s.inner)
  }

  /** With no refresh at work, the list is the set last applied; between swap and bump, the one being applied. */
  ghost predicate ListSound(s: State) {
    && (Clean(s) ==> Fresh(s.inner, s.heap) == s.applied)
    && (s.writer.Swapped? ==> Fresh(s.inner, s.heap) == s.writer.target)
  }

  ghost predicate TagSound(s: State, tag: Tagged) {
    tag.pool == THIS ==>
      tag.version <= s.version && (Clean(s) && tag.version == s.version ==> tag.inputs == s.applied)
  }

  function VersionOf(r: Reader): nat {
    match r
    case Started(v) => v
    case Listing(v, _, _) => v
    case Looking(v, _, _, _) => v
    case Using(tag) => tag.version
  }

  /** What a pick has read so far is part of the current set. */
  ghost predicate ReadsSound(s: State, r: Reader) {
    match r
    case Started(_) => true
    case Listing(_, order, read) => order == s.inner.order && read <= s.applied
    case Looking(_, order, read, handle) =>
      && order == s.inner.order && read <= s.applied && |read| < |order|
      && handle == if order[|read|] in s.inner.states then Some(s.inner.states[order[|read|]]) else None
    case Using(tag) => tag.pool == THIS && tag.inputs == s.applied
  }

  ghost predicate PickSound(s: State, pick: Pick) {
    && VersionOf(pick.reader) <= s.version
    && (pick.quiet ==> Clean(s) && VersionOf(pick.reader) == s.version)
    && (Clean(s) && VersionOf(pick.reader) == s.version ==> ReadsSound(s, pick.reader))
  }

  ghost predicate Inv(s: State) {
    && InnerSound(s.inner, s.heap) && NextSound(s) && ListSound(s) && TagSound(s, s.cache)
    && forall p <- s.picks :: PickSound(s, s.picks[p])
  }

  // ---- Picks ----

  lemma PickKeepsInv(s: State, p: nat, reader: Reader)
    requires Inv(s) && p in s.picks && PickSound(s, Pick(reader, s.picks[p].quiet))
    ensures Inv(WithPick(s, p, reader))
  {
    var t := WithPick(s, p, reader);
    forall o | o in t.picks
      ensures PickSound(t, t.picks[o])
    {
      assert PickSound(s, t.picks[o]);
    }
  }

  /** A weight read off an undisturbed list is the applied one. */
  lemma LoadKeepsSound(s: State, r: Reader, quiet: bool)
    requires Inv(s) && PickSound(s, Pick(r, quiet)) && r.Looking? && |r.read| < |r.order|
    ensures var weight := if r.handle.Some? && r.handle.value < |s.heap| then s.heap[r.handle.value] else 1;
            PickSound(s, Pick(Listing(r.version, r.order, r.read + [Member(r.order[|r.read|], weight)]), quiet))
  {
    if Clean(s) && r.version == s.version {
      assert Fresh(s.inner, s.heap) == s.applied;
      assert s.applied[|r.read|] == Member(r.order[|r.read|], Weight(s.inner, s.heap, r.order[|r.read|]));
    }
  }

  lemma PublishKeepsInv(s: State, p: nat)
    requires Inv(s)
    ensures Inv(ReaderStep(s, Publish(p)))
  {
    if p in s.picks && s.picks[p].reader.Listing? && |s.picks[p].reader.read| == |s.picks[p].reader.order| {
      var r := s.picks[p].reader;
      var built := Tagged(THIS, r.version, r.read);
      assert PickSound(s, s.picks[p]);
      if Clean(s) && r.version == s.version {
        assert |Fresh(s.inner, s.heap)| == |r.read|;
        assert r.read == s.applied;
      }
      PickKeepsInv(s, p, Using(built));
      CacheKeepsInv(WithPick(s, p, Using(built)), built);
    }
  }

  lemma CacheKeepsInv(s: State, tag: Tagged)
    requires Inv(s) && TagSound(s, tag)
    ensures Inv(s.(cache := tag))
  {
    var t := s.(cache := tag);
    forall o | o in t.picks
      ensures PickSound(t, t.picks[o])
    {
      assert PickSound(s, s.picks[o]);
    }
  }

  lemma BuildKeepsInv(s: State, e: Event)
    requires Inv(s) && (e.UseCached? || e.List? || e.Lookup? || e.Load?)
    ensures Inv(ReaderStep(s, e))
  {
    if e.p in s.picks && ReaderStep(s, e) != s {
      assert PickSound(s, s.picks[e.p]);
      if e.Load? {
        LoadKeepsSound(s, s.picks[e.p].reader, s.picks[e.p].quiet);
      }
      var r := ReaderStep(s, e).picks[e.p].reader;
      assert ReaderStep(s, e) == WithPick(s, e.p, r);
      PickKeepsInv(s, e.p, r);
    }
  }

  lemma StartKeepsInv(s: State, p: nat)
    requires Inv(s)
    ensures Inv(ReaderStep(s, Start(p))) && Inv(ReaderStep(s, Finish(p)))
  {
    var t, u := ReaderStep(s, Start(p)), ReaderStep(s, Finish(p));
    forall o | o in t.picks
      ensures PickSound(t, t.picks[o])
    {
      assert o != p ==> PickSound(s, s.picks[o]);
    }
    forall o | o in u.picks
      ensures PickSound(u, u.picks[o])
    {
      assert PickSound(s, s.picks[o]);
    }
  }

  lemma ReaderKeepsInv(s: State, e: Event)
    requires Inv(s)
    ensures Inv(ReaderStep(s, e))
  {
    match e
    case Start(p) => StartKeepsInv(s, p);
    case Finish(p) => StartKeepsInv(s, p);
    case Publish(p) => PublishKeepsInv(s, p);
    case UseCached(_) => BuildKeepsInv(s, e);
    case List(_) => BuildKeepsInv(s, e);
    case Lookup(_) => BuildKeepsInv(s, e);
    case Load(_) => BuildKeepsInv(s, e);
    case _ =>
  }

  lemma OtherKeepsInv(s: State, e: Event)
    requires Inv(s) && (e.Flip? || e.Foreign?)
    ensures Inv(Step(s, e))
  {
  }

  // ---- Refreshes ----

  lemma BeginKeepsInv(s: State, target: seq<Member>)
    requires Inv(s)
    ensures Inv(Step(s, Begin(target)))
  {
  }

  lemma HandleKeepsInner(next: Inner, next': Inner, heap: seq<nat>, heap': seq<nat>, id: string, handle: nat)
    requires InnerSound(next, heap) && |heap| <= |heap'| && handle < |heap'|
    requires next'.states == next.states[id := handle]
    requires forall a <- next.states :: next.states[a] != handle
    ensures InnerSound(next', heap')
  {
  }

  lemma HandleKeepsWeights(target: seq<Member>, done: nat, next: Inner, next': Inner, heap: seq<nat>, heap': seq<nat>,
                           handle: nat, i: nat)
    requires NextListed(target, done, next, heap) && i <= done < |target| && |heap| <= |heap'| && handle < |heap'|
    requires heap'[handle] == target[done].weight
    requires forall h :: 0 <= h < |heap| && h != handle ==> heap'[h] == heap[h]
    requires forall a <- next.states :: next.states[a] != handle
    requires next' == Inner(next.order + [target[done].id], next.states[target[done].id := handle])
    ensures target[i].id in next'.states && next'.states[target[i].id] < |heap'|
    ensures heap'[next'.states[target[i].id]] == target[i].weight
  {
    if i < done {
      assert target[i].id != target[done].id;
      assert next'.states[target[i].id] == next.states[target[i].id] != handle;
    }
  }

  lemma HandleKeepsIds(target: seq<Member>, done: nat, next: Inner, next': Inner, heap: seq<nat>, handle: nat,
                       a: string)
    requires NextListed(target, done, next, heap) && done < |target|
    requires next' == Inner(next.order + [target[done].id], next.states[target[done].id := handle]) && a in next'.states
    ensures exists i :: 0 <= i < done + 1 && target[i].id == a
  {
    if a == target[done].id {
      assert target[done].id == a;
    } else {
      var i :| 0 <= i < done && target[i].id == a;
    }
  }

  /** Giving the next backend a handle nobody else has, and its weight. */
  lemma HandleKeepsListed(target: seq<Member>, done: nat, next: Inner, next': Inner, heap: seq<nat>, heap': seq<nat>,
                          handle: nat)
    requires NextListed(target, done, next, heap) && done < |target| && |heap| <= |heap'| && handle < |heap'|
    requires heap'[handle] == target[done].weight
    requires forall h :: 0 <= h < |heap| && h != handle ==> heap'[h] == heap[h]
    requires forall a <- next.states :: next.states[a] != handle
    requires next' == Inner(next.order + [target[done].id], next.states[target[done].id := handle])
    ensures NextListed(target, done + 1, next', heap')
  {
    HandleKeepsInner(next, next', heap, heap', target[done].id, handle);
    forall a | a in next'.states
      ensures exists i :: 0 <= i < done + 1 && target[i].id == a
    {
      HandleKeepsIds(target, done, next, next', heap, handle, a);
    }
    forall i | 0 <= i < done + 1
      ensures target[i].id in next'.states && next'.states[target[i].id] < |heap'|
      ensures heap'[next'.states[target[i].id]] == target[i].weight
    {
      HandleKeepsWeights(target, done, next, next', heap, heap', handle, i);
    }
  }

  lemma HandleKeepsApart(next: Inner, next': Inner, inner: Inner, heap: seq<nat>, id: string, handle: nat)
    requires Apart(next, inner) && InnerSound(inner, heap) && next'.states == next.states[id := handle]
    requires handle == if id in inner.states then inner.states[id] else |heap|
    ensures Apart(next', inner)
  {
  }

  lemma HandleKeepsNext(s: State)
    requires Inv(s) && s.writer.Working? && s.writer.done < |s.writer.target|
    ensures InnerSound(s.inner, Handled(s).heap) && NextSound(Handled(s))
  {
    var w, s' := s.writer, Handled(s);
    var b := w.target[w.done];
    assert b.id !in w.next.states;
    var handle := if b.id in s.inner.states then s.inner.states[b.id] else |s.heap|;
    HandleKeepsListed(w.target, w.done, w.next, s'.writer.next, s.heap, s'.heap, handle);
    HandleKeepsApart(w.next, s'.writer.next, s.inner, s.heap, b.id, handle);
  }

  /** A writing step leaves every pick disturbed, and tags no newer than the version. */
  lemma DisturbedSound(s: State, s': State)
    requires Inv(s) && s'.picks == Disturbed(s.picks) && s'.cache == s.cache
    requires s.version <= s'.version && (Clean(s') ==> s.version < s'.version)
    ensures TagSound(s', s'.cache) && forall p <- s'.picks :: PickSound(s', s'.picks[p])
  {
    forall p | p in s'.picks
      ensures PickSound(s', s'.picks[p])
    {
      assert PickSound(s, s.picks[p]);
    }
  }

  lemma HandleKeepsInv(s: State)
    requires Inv(s)
    ensures Inv(Step(s, Handle))
  {
    if s.writer.Working? && s.writer.done < |s.writer.target| {
      HandleKeepsNext(s);
      DisturbedSound(s, Handled(s));
    }
  }

  lemma SwapKeepsInv(s: State)
    requires Inv(s)
    ensures Inv(Step(s, Swap))
  {
    var s' := Step(s, Swap);
    if s'.writer.Swapped? && s.writer.Working? {
      DisturbedSound(s, s');
      assert forall i :: 0 <= i < |s.writer.target| ==> Fresh(s'.inner, s'.heap)[i] == s.writer.target[i];
    }
  }

  lemma BumpKeepsInv(s: State)
    requires Inv(s)
    ensures Inv(Step(s, Bump))
  {
    if s.writer.Swapped? {
      DisturbedSound(s, Step(s, Bump));
    }
  }

  lemma StepKeepsInv(s: State, e: Event)
    requires Inv(s)
    ensures Inv(Step(s, e))
  {
    match e
    case Begin(target) => BeginKeepsInv(s, target);
    case Handle => HandleKeepsInv(s);
    case Swap => SwapKeepsInv(s);
    case Bump => BumpKeepsInv(s);
    case Flip(_) => OtherKeepsInv(s, e);
    case Foreign(_) => OtherKeepsInv(s, e);
    case _ => ReaderKeepsInv(s, e);
  }

  lemma {:induction false} RunKeepsInv(s: State, events: seq<Event>)
    requires Init(s)
    ensures Inv(Run(s, events))
  {
    if events != [] {
      RunKeepsInv(s, events[..|events| - 1]);
      StepKeepsInv(Run(s, events[..|events| - 1]), events[|events| - 1]);
    }
  }

  // ---- What a pick uses ----

  /** In every reachable state, a pick no refresh has disturbed uses a structure built from the set last applied, which
      is what a fresh build would read. */
  lemma QuietPickIsFresh(s: State, events: seq<Event>, p: nat)
    requires Init(s)
    ensures var t := Run(s, events);
            p in t.picks && t.picks[p].quiet && t.picks[p].reader.Using? ==>
              t.picks[p].reader.tag.inputs == Fresh(t.inner, t.heap) == t.applied
  {
    RunKeepsInv(s, events);
    var t := Run(s, events);
    assert p in t.picks ==> PickSound(t, t.picks[p]);
  }

  predicate Refreshes(e: Event) {
    e.Handle? || e.Swap? || e.Bump?
  }

  /** Steps of other picks, other pools, eligibility flips, and refreshes that find nothing changed. */
  ghost predicate LeavesAlone(events: seq<Event>, p: nat) {
    forall i :: 0 <= i < |events| ==> !Refreshes(events[i]) && events[i] != Start(p) && events[i] != Finish(p)
  }

  lemma {:induction false} StaysQuiet(s: State, events: seq<Event>, p: nat)
    requires p in s.picks && s.picks[p].quiet && LeavesAlone(events, p)
    ensures var t := Run(s, events); p in t.picks && t.picks[p].quiet && t.applied == s.applied
  {
    if events != [] {
      StaysQuiet(s, events[..|events| - 1], p);
    }
  }

  /** A pick that begins with no refresh under way, and that no refresh overlaps, uses the set last applied, whatever
      races left in the cache before. */
  lemma PickAfterApply(s: State, before: seq<Event>, p: nat, during: seq<Event>)
    requires Init(s) && Run(s, before).writer.Idle? && LeavesAlone(during, p)
    ensures var t := Run(s, before);
            var u := Run(Step(t, Start(p)), during);
            p in u.picks && (u.picks[p].reader.Using? ==> u.picks[p].reader.tag.inputs == t.applied)
  {
    var t := Run(s, before);
    StaysQuiet(Step(t, Start(p)), during, p);
    RunJoins(s, before, [Start(p)]);
    assert Run(t, [Start(p)]) == Step(t, Start(p)) by { assert [Start(p)][..0] == []; }
    RunJoins(s, before + [Start(p)], during);
    QuietPickIsFresh(s, before + [Start(p)] + during, p);
  }

  lemma {:induction false} RunJoins(s: State, a: seq<Event>, b: seq<Event>)
    ensures Run(s, a + b) == Run(Run(s, a), b)
  {
    if b == [] {
      assert a + b == a;
    } else {
      assert (a + b)[..|a + b| - 1] == a + b[..|b| - 1];
      RunJoins(s, a, b[..|b| - 1]);
    }
  }
}
