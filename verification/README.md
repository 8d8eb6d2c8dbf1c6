# A verified model of the load balancer's coordination logic

This Dafny project models the parts of the load balancer where correctness depends on many steps, many nodes or many
threads, and proves what those parts promise:

- **Cluster rate limiting.** Nodes keep counters per key, boot and second, gossip their own counters, merge their
  peers' by maximum and admit a request while the windowed sum is below the limit. `Counters`, `CounterStores`,
  `Snapshots` and `SnapshotSize` model one node's store; `Coordinators` the node and its listeners; `Clusters` the whole cluster as a
  transition system over a network that loses, repeats, delays and reorders messages while nodes prune, restart and
  read their own clocks. `ClusterViews`, `Convergence`, `GossipRounds`, `Overshoot`, `LagBounds`, `BoundsAttained` and
  `EventLog` state what holds over every run.
- **Hash-based selection.** `Primes`, `Rotation`, `MaglevTables`, `Maglev` and `MaglevLookup` cover the Maglev table;
  `HashRing` and `RingNodes` the consistent-hash ring; `VersionedCaches` the version-tagged cache both share, with every atomic access
  a step; `CachedPicks` what a pick through that cache answers.
- **Backend pool.** `Eligibility`, `Ejection`, `EjectionRaces`, `EjectionExact`, `Membership`, `Pools` and `PoolRuns`: flags, tiers,
  the ejection ceiling, in-flight guards that outlive membership changes, and `apply_resolved`.
- **Health.** `Deviation`, `Outliers` and `OutlierRounds` cover outlier detection; `CircuitBreakers` the timed state
  machine with its flap streak.
- **Limiters and rotation.** `PeerConnLimiters`, `AdaptiveLimits` and `RoundRobins`.

Code that changes state in place is a class whose methods are proved against functions on values; what the code
promises is then proved about those functions. Concurrency is a state machine over atomic steps. The hash, the clock
and square roots are parameters; rates and durations scaled by a factor are real numbers. A string stands for its UTF-8
bytes, one element per byte.

`dafny verify dfyconfig.toml` checks the whole project.

## Where the code and its promises part

- The published over-admission bound (`coordinator.rs:209-221`, `wiring.rs:964-973`) covers gossip delay only.
  `PublishedBoundHolds` proves it for runs without restarts in which no admitting node is further behind a peer than
  one interval's burst. Over all runs without restarts it holds if and only if it allows a whole extra limit per peer
  (`PublishedBoundExactly`). No partition is needed to pass it: every node can spend its limit inside one second,
  before any gossip (`BurstAttains`). `PublishedBoundCanFail` gives ten requests a second over ten seconds with gossip
  every 200 ms. Each restart inside the window can add one more limit (`RestartsAttain`), because a node forgets its
  counts and refuses its own id; one limit per admitting boot is the bound that always holds (`ClusterNeverOverBoots`).
- The flap streak is documented as trips since the breaker last stayed closed long enough (`circuit_breaker.rs:71-73`,
  `docs/configuration-reference.md:217`). The code measures the time since it last became closed even when it re-trips
  out of half-open. The two differ exactly when such a re-trip began the streak (`StreakAsDocumentedExactly`); with a
  cooldown no shorter than the reset time a backend that keeps failing its probes is never backed off
  (`RetripsNeverBackOff`).
- Outlier detection is active from `min_hosts = 3` by default, but with the default factor 1.9 it can flag nobody
  before five backends are judged (`DefaultNeedsFive`). Five is exact: one failing backend among perfect ones is flagged
  if and only if at least five are judged (`DefaultFlagsFromFive`).
- A clear that falls between an ejecting call's unlocked look at a set flag and its store of that flag can take the pool
  past the ejection ceiling (`HalfCeilingBreaks`: two backends, a ceiling of one half, both ejected). Every interleaving
  without such clears keeps the ceiling (`RunsKeepCeiling`). With them, it is safe if and only if the ceiling allows
  less than one ejection or allows them all (`CeilingSurvivesExactly`).
- The round-robin cursor is a machine word. A block of tickets as long as the total weight that wraps it is fair if and
  only if the total weight divides the word, or what the wrap cuts off and repeats stays within the tickets of the first
  candidate of positive weight, or within those of the last (`FairExactly`). With all weights one only the first is left
  (`OnesFairExactly`, `WrapIsUnfair`). With weights 1 and 2 one cursor picks the first backend twice in three tickets,
  although two candidates divide the word (`WeightedWrapIsUnfair`).
- A Maglev table smaller than the total weight can leave late backends without a slot; lookups are complete if and only
  if the weights before the last backend leave it one (`CompleteExactly`). With 657 backends of weight 100 the last one
  is never found (`LookupCanMiss`).

## Model

| member | source | states |
|---|---|---|
| Slots.DecimalRoundTrip | crates/lb-cluster/src/counters.rs:30-36 | the incarnation can be read back from its digits in a slot name |
| Slots.NodeSlotInjective | crates/lb-cluster/src/counters.rs:30-36 | for ids free of NUL, two boots share a slot only if they are the same boot |
| Slots.ListenerOfNamespaced | crates/lb-cluster/src/coordinator.rs:191-195 | a namespaced key names its listener |
| Slots.NamespacedInjective | crates/lb-cluster/src/coordinator.rs:191-195 | different listeners or keys never collide |
| Slots.OverflowKeyStaysInListener | crates/lb-cluster/src/counters.rs:38-41 | an overflowing key is counted against its own listener |
| Slots.OverflowPerListener | crates/lb-cluster/src/counters.rs:38-41 | two keys overflow into the same key iff they have the same listener |
| Counters.CutoffIs | crates/lb-cluster/src/counters.rs:59-67 | a second is counted from the cutoff to now exactly while less than a window's length has passed since it |
| Counters.AdmitCell | crates/lb-cluster/src/counters.rs:146-170 | an admission adds one to exactly one cell, the node's own for this second; a refusal changes no cell |
| Counters.AdmitMarks | crates/lb-cluster/src/counters.rs:146-170 | an admission marks its key as changed, a refusal marks nothing, and no other mark is touched |
| Counters.MergeIntoCell | crates/lb-cluster/src/counters.rs:241-272 | a merged cell is the maximum of what was held and reported within skew; no other slot's cell moves |
| CounterStores.TotalInWindow | crates/lb-cluster/src/counters.rs:59-67 | the loop adds up exactly the cells from the cutoff to now |
| CounterStores.MergeBuckets | crates/lb-cluster/src/counters.rs:241-272 | the loop merges every bucket within skew and skips the others |
| CounterStores.CounterStore.constructor | crates/lb-cluster/src/counters.rs:79-88 | an empty store with a window of at least one second |
| CounterStores.CounterStore.TryAdmit | crates/lb-cluster/src/counters.rs:101-127 | admits iff the tracked key's windowed total is below the limit, and leaves exactly the admitted or refused store |
| CounterStores.CounterStore.Merge | crates/lb-cluster/src/counters.rs:195-216 | merges within skew and below the key cap, and otherwise leaves the store alone |
| CounterStores.CounterStore.MergeAll | crates/lb-cluster/src/coordinator.rs:146-148 | merges a message's entries one after the other |
| CounterStores.PruneCounts | crates/lb-cluster/src/counters.rs:69-75 | the loop drops exactly the cells before the window |
| CounterStores.CounterStore.RetainKeys | crates/lb-cluster/src/counters.rs:365-370 | key by key, in place: exactly the keys with a cell in the window stay, with exactly those cells |
| CounterStores.CounterStore.RetainMarks | crates/lb-cluster/src/counters.rs:371-371 | exactly the change marks of keys still there stay |
| CounterStores.CounterStore.Prune | crates/lb-cluster/src/counters.rs:365-372 | no total of any key, now or later, is changed by pruning; cells before the window, emptied keys and their marks are gone |
| Counters.PruneKeepsTotals | crates/lb-cluster/src/counters.rs:69-75 | pruning forgets only what no window from now on can reach |
| Counters.PruneExactly | crates/lb-cluster/src/counters.rs:365-372 | exactly the cells whose window has passed go, then the keys left with none, then their marks |
| CounterStores.CounterStore.SendChanged | crates/lb-cluster/src/counters.rs:309-328 | the first pass of a snapshot: changed keys in order, unmarked as sent, the one that does not fit marked again |
| CounterStores.SendRotating | crates/lb-cluster/src/counters.rs:329-357 | the second pass: from the cursor on, every key not yet sent, until one does not fit |
| CounterStores.CounterStore.SnapshotOwnCapped | crates/lb-cluster/src/counters.rs:285-359 | both passes, the rotating cursor and the caps, against the value-level snapshot |
| CounterStores.CounterStore.SnapshotOwn | crates/lb-cluster/src/counters.rs:276-283 | a snapshot at the published caps |
| Snapshots.SnapshotExact | crates/lb-cluster/src/counters.rs:285-359 | a snapshot lists distinct keys with precisely the node's own in-window cells, within both caps whenever it lists two or more |
| Snapshots.OwnIs | crates/lb-cluster/src/counters.rs:285-299 | the cells a snapshot may send are the slot's own less than a window old |
| Snapshots.SnapshotFull | crates/lb-cluster/src/counters.rs:329-357 | a key with such cells is left out only if some key left out would take the message past a cap |
| SnapshotSize.SnapshotWithinBytes | crates/lb-cluster/src/counters.rs:409-411 | written out as JSON, a snapshot of two keys or more is within the byte cap the estimate was checked against |
| Snapshots.SnapshotKeepsChanged | crates/lb-cluster/src/counters.rs:309-328 | a changed key with in-window cells is sent or still marked, counts are untouched, and each round clears a mark |
| Snapshots.SnapshotFair | crates/lb-cluster/src/counters.rs:285-359 | on an unchanging store every key with own in-window cells is sent within changed plus keys rounds |
| Convergence.MergeJoins | crates/lb-cluster/src/counters.rs:195-216 | merging one report is the least upper bound of the store and the report |
| Convergence.JoinUnique | crates/lb-cluster/src/counters.rs:179-180 | a store and a set of reports have one join |
| Convergence.DeliveriesJoin | crates/lb-cluster/src/coordinator.rs:140-150 | any deliveries within skew and below the cap leave the join of what they reported |
| Convergence.DeliveryOrderIrrelevant | crates/lb-cluster/src/counters.rs:179-216 | two delivery sequences with the same messages, in any order and repetition, leave equal stores |
| Coordinators.BucketsOf | crates/lb-cluster/src/counters.rs:135-144 | the buckets sent for a key are exactly its cells, each once |
| Coordinators.ClusterNode.MergeMessage | crates/lb-cluster/src/coordinator.rs:140-150 | refuses exactly a message with the node's own id and merges any other into its sender's slot |
| Coordinators.ClusterNode.SnapshotMessage | crates/lb-cluster/src/coordinator.rs:153-165 | the message lists exactly this round's snapshot, each cell once, under the node's id and incarnation |
| Coordinators.ClusterNode.Prune | crates/lb-cluster/src/coordinator.rs:167-169 | prunes at the node's clock |
| Coordinators.ListenerCoordinator.TryAdmit | crates/lb-cluster/src/coordinator.rs:199-206 | admits against the listener's own limit and counts under its own namespace, overflow included |
| Clusters.AdmitInv | crates/lb-cluster/src/counters.rs:101-170 | an admission keeps every cell true and the node's own exact |
| Clusters.SendInv | crates/lb-cluster/src/coordinator.rs:153-165 | a sent message says only the truth |
| Clusters.DeliverInv | crates/lb-cluster/src/coordinator.rs:140-150 | a delivery, however late or repeated, puts no untrue count into a store |
| Clusters.PruneInv | crates/lb-cluster/src/counters.rs:365-372 | pruning keeps every in-window own count exact |
| Clusters.RestartInv | crates/lb-cluster/src/coordinator.rs:51-69 | a restart under a fresh incarnation keeps the invariant |
| Clusters.RunInv | crates/lb-cluster/src/counters.rs:30-36 | in every state of every run each cell is at most its boot's true count, and own in-window cells equal it |
| ClusterViews.OwnSumExact | crates/lb-cluster/src/counters.rs:101-170 | a node's own part of the windowed total is exactly what this boot admitted |
| ClusterViews.TotalByBoot | crates/lb-cluster/src/counters.rs:59-67 | the windowed total is the sum of its parts by boot |
| ClusterViews.NoOverCount | crates/lb-cluster/src/counters.rs:195-272 | in every state of every run no windowed total exceeds the true one |
| ClusterViews.SyncedIsExact | crates/lb-cluster/src/counters.rs:195-216 | a node holding every peer's in-window cells sees exactly the true cluster total |
| GossipRounds.SnapshotIsFresh | crates/lb-cluster/src/coordinator.rs:153-165 | a snapshot that includes a key carries all its true in-window counts |
| GossipRounds.GossipConverges | crates/lb-cluster/src/coordinator.rs:140-165 | hearing once from every peer with in-window admissions makes the node's total the true one |
| Overshoot.BootNeverOverLimit | crates/lb-cluster/src/counters.rs:101-170 | over every run no boot admits more than the limit in any window |
| Overshoot.ClusterNeverOverBoots | crates/lb-cluster/src/counters.rs:101-170 | over every run, any partition and any restarts, the cluster admits in a window at most one limit per boot that admits in it |
| LagBounds.TrueTotalAtAdmission | crates/lb-cluster/src/counters.rs:101-170 | at an admission the true total exceeds the node's view by at most the lag per other boot that admitted |
| LagBounds.OvershootWithinLag | crates/lb-cluster/src/coordinator.rs:209-221 | on a common clock, with lag at most D per other boot whenever a request is admitted, no window holds more than limit + (b - 1) D, b being the boots that admit in it |
| LagBounds.BoundIsLeast | crates/lb-cluster/src/coordinator.rs:214-221 | the published figure is the least whole number covering one interval's burst from every peer |
| LagBounds.BurstWithinBound | crates/lb-cluster/src/coordinator.rs:214-221 | one interval's burst per peer fits the published figure |
| LagBounds.BurstPerBoot | crates/lb-cluster/src/coordinator.rs:209-221 | restarts included: at most one interval's burst per other admitting boot past the limit, when no admitting node is further behind than that |
| BoundsAttained.PublishedBoundHolds | crates/lb-server/src/wiring.rs:964-973 | without restarts the figure published for the configured peers holds when no admitting node is further behind a peer than one interval's burst |
| BoundsAttained.BurstAttains | crates/lb-cluster/src/counters.rs:101-127 | some run without restarts, in which no clock moves, admits one whole limit per node |
| BoundsAttained.RestartsAttain | crates/lb-cluster/src/coordinator.rs:51-69 | with any number of restarts, still inside one second, some run admits one whole limit per boot |
| BoundsAttained.OneLimitPerNode | crates/lb-cluster/src/counters.rs:101-170 | without restarts no run admits more than one limit per node in a window |
| BoundsAttained.PublishedBoundExactly | crates/lb-server/src/wiring.rs:964-973 | the published bound covers every run without restarts iff it allows a whole limit per peer |
| BoundsAttained.PublishedBoundCanFail | crates/lb-cluster/src/coordinator.rs:209-221 | a concrete setting in which it does not |
| EventLog.StoreAnswersAsLog | crates/lb-cluster/src/counters.rs:101-170 | below the key cap and with time not going back, a store pruned at arbitrary moments answers every request as a never-pruned log does that counts what is less than a window old |
| EventLog.CapHolds | crates/lb-cluster/src/counters.rs:101-127 | whatever is asked, heard and swept, a store tracks at most the cap of keys and one more for each listener that asked |
| Primes.ProductNotMultiple | crates/lb-balancer/src/maglev.rs:60-66 | below a prime, a product of non-zero numbers is no multiple of it |
| Primes.StepsDistinct | crates/lb-balancer/src/maglev.rs:75-79 | no slot comes twice in one turn of a backend's sequence |
| Primes.EverySlotVisited | crates/lb-balancer/src/maglev.rs:75-79 | every slot comes within one turn |
| Primes.TableSizeIsPrime | crates/lb-balancer/src/maglev.rs:5-5 | 65537 is prime |
| Rotation.PickIndexIs | crates/lb-balancer/src/weighted_round_robin.rs:54-61 | a candidate is picked exactly on its own interval of remainders |
| Rotation.ExactShares | crates/lb-balancer/src/weighted_round_robin.rs:38-62 | any block of consecutive tickets as long as the total weight picks each candidate exactly its weight's worth of times |
| MaglevTables.FreeSlotAhead | crates/lb-balancer/src/maglev.rs:72-88 | while a slot is free, a backend's sequence reaches a free slot before its pointer reaches the table size |
| MaglevTables.EverySlotOwned | crates/lb-balancer/src/maglev.rs:72-88 | the finished table has no unowned slot |
| MaglevTables.SharesProportional | crates/lb-balancer/src/maglev.rs:72-88 | two backends' slot counts are in proportion to their weights, to within the product of the weights |
| MaglevTables.OwnedSlotsAddUp | crates/lb-balancer/src/maglev.rs:72-88 | slot counts add up to the table size |
| MaglevTables.OwnsSlotExactly | crates/lb-balancer/src/maglev.rs:72-88 | a backend owns a slot iff the weights before it leave room |
| MaglevTables.FirstOwnsItsSteps | crates/lb-balancer/src/maglev.rs:72-88 | the first backend owns the first slots of its own sequence, one for each unit of weight |
| Maglev.FindSlot | crates/lb-balancer/src/maglev.rs:75-79 | the inner probe stops at the backend's first free slot, inside the table |
| Maglev.TakeTurn | crates/lb-balancer/src/maglev.rs:73-87 | one backend's claims of a round, cut short when the table is full |
| Maglev.Fill | crates/lb-balancer/src/maglev.rs:68-88 | the nested loops end with the specified table |
| Maglev.Build | crates/lb-balancer/src/maglev.rs:39-95 | the built table is the specified one over the backends of positive weight |
| Maglev.BuildTable | crates/lb-balancer/src/maglev.rs:39-95 | the same for the published table size |
| MaglevLookup.ScanRecording | crates/lb-balancer/src/maglev.rs:117-135 | the scan with its record of refused backends returns what the plain cyclic scan returns |
| MaglevLookup.PickExcluding | crates/lb-balancer/src/maglev.rs:102-135 | with the shortcut for the first slot too, the plain scan from the key's slot, and nobody on an empty table |
| MaglevLookup.LookupIsFirst | crates/lb-balancer/src/maglev.rs:112-135 | the answer is the first acceptable owner from slot hash modulo table size on, round the table; an acceptable owner of that slot is the answer |
| MaglevLookup.OnlyLostKeysMove | crates/lb-balancer/src/maglev.rs:102-135 | shrinking the acceptable set moves only keys whose backend left it |
| MaglevLookup.LookupFailsExactly | crates/lb-balancer/src/maglev.rs:102-135 | None exactly when no acceptable backend owns a slot |
| MaglevLookup.CompleteExactly | crates/lb-balancer/src/maglev.rs:72-135 | lookups find an acceptable backend whenever there is one iff the weights before the last leave it a slot |
| MaglevLookup.CompleteWithinTableSize | crates/lb-balancer/src/maglev.rs:72-135 | in particular when the total weight is at most the table size |
| MaglevLookup.FreshLookup | crates/lb-balancer/src/maglev.rs:39-135 | on the table built from any members a lookup fails iff the capped weights before it leave no acceptable member of positive weight a slot, and otherwise finds such a member |
| MaglevLookup.FirstMemberSlots | crates/lb-balancer/src/maglev.rs:60-88 | the first member of positive weight owns the slots its hashed offset and skip lead to, one for each unit of capped weight |
| MaglevLookup.LookupCanMiss | crates/lb-balancer/src/maglev.rs:5-6 | at the published table size and weight cap, the last of 657 backends is found by no lookup that may use only it |
| HashRing.SortStable | crates/lb-balancer/src/consistent_hash.rs:73-73 | the sort is by hash, keeps every point, and keeps the order of equal hashes |
| HashRing.FilterSort | crates/lb-balancer/src/consistent_hash.rs:61-73 | dropping points before or after the stable sort gives the same ring, hash ties included |
| HashRing.BuildRing | crates/lb-balancer/src/consistent_hash.rs:61-73 | the loops build the ring of ten points per capped unit of weight |
| HashRing.PickExcluding | crates/lb-balancer/src/consistent_hash.rs:94-116 | the wrapping walk from the partition point |
| HashRing.WalkRefinesFiltered | crates/lb-balancer/src/consistent_hash.rs:94-116 | walking and skipping equals picking directly on the acceptable points |
| HashRing.PickRefinesRebuiltRing | crates/lb-balancer/src/consistent_hash.rs:20-27 | on any ring, empty ones included, it equals picking on a ring built from the acceptable backends alone |
| HashRing.PickFailsExactly | crates/lb-balancer/src/consistent_hash.rs:94-116 | None iff no acceptable backend has positive weight |
| RingNodes.RingHoldsNodes | crates/lb-balancer/src/consistent_hash.rs:61-73 | the ring holds each point once per virtual node falling on it: ten per unit of weight capped at a hundred, at the hashes of the id and 0, 1, 2, ... |
| RingNodes.AnswerIsNearest | crates/lb-balancer/src/consistent_hash.rs:94-116 | a pick answers the owner of the acceptable virtual node nearest to the key's hash, going up and round |
| VersionedCaches.RunKeepsInv | crates/lb-core/src/pool.rs:396-441 | over every interleaving, whatever is tagged with the current version while no refresh is at work was built from the set last applied |
| VersionedCaches.SwapKeepsInv | crates/lb-core/src/pool.rs:407-440 | the swapped-in list shows exactly the applied set, weights included |
| VersionedCaches.QuietPickIsFresh | crates/lb-balancer/src/consistent_hash.rs:52-82 | a pick no refresh disturbed uses a structure built from what a fresh build would read |
| VersionedCaches.PickAfterApply | crates/lb-balancer/src/maglev.rs:26-37 | a pick that starts with no refresh under way and overlaps none uses the set last applied, whatever races came before |
| CachedPicks.PickAnswersAsRebuilt | crates/lb-balancer/src/consistent_hash.rs:12-27 | a pick no refresh overlaps answers as a ring built on the spot from the eligible backends of the set last applied, whatever races left in the cache and however eligibility flipped since it was built |
| CachedPicks.TablePickAnswers | crates/lb-balancer/src/maglev.rs:26-135 | a Maglev pick no refresh overlaps fails iff no eligible, not excluded backend of the set last applied was left a slot; whom it finds is such a backend of positive weight and the first such from the key's own slot on; flips move only keys whose backend dropped out |
| Eligibility.ViewsAgree | crates/lb-core/src/pool.rs:324-365 | an id is eligible iff it is listed as eligible |
| Eligibility.NonEmptyExactly | crates/lb-core/src/pool.rs:345-365 | the list is non-empty iff some backend passes the flags |
| Eligibility.ListedHaveLeastPriority | crates/lb-core/src/pool.rs:47-60 | all listed backends share the least available priority |
| Eligibility.ListedExactly | crates/lb-core/src/pool.rs:345-365 | exactly the available backends of that priority are listed |
| Eligibility.ListedByFlags | crates/lb-core/src/pool.rs:324-365 | listed are exactly the backends healthy, with closed circuit, not drained, no outliers, past their first probe unless nobody is, and of the least priority among those |
| Eligibility.TieredShortcutSound | crates/lb-core/src/pool.rs:41-60 | skipping the tier computation on a one-tier pool never changes the list |
| Ejection.SetKeepsCeiling | crates/lb-core/src/pool.rs:197-264 | one call never takes the ejected count past the ceiling |
| Ejection.CallsKeepCeiling | crates/lb-core/src/pool.rs:197-264 | no sequence of set and clear calls does |
| Ejection.SetTakesEffect | crates/lb-core/src/pool.rs:211-239 | a call takes effect unless refused, clears always do, and no other backend is touched |
| Ejection.SetByNumbers | crates/lb-core/src/pool.rs:197-264 | a call stores its flag on its one backend unless that ejects a backend not yet out while (out + 1) exceeds the fraction of the pool |
| EjectionRaces.RunsKeepCeiling | crates/lb-core/src/pool.rs:197-239 | over every interleaving of ejecting and clearing calls the ceiling holds throughout, unless a flag is cleared while a thread is about to store it again |
| EjectionExact.CeilingSurvivesExactly | crates/lb-core/src/pool.rs:197-264 | with two threads or more every interleaving keeps the ceiling iff it allows less than one ejection or allows them all |
| EjectionExact.HalfCeilingBreaks | crates/lb-core/src/pool.rs:217-226 | two backends, a ceiling of one half, and an interleaving that ejects both |
| Membership.SetUnchangedExactly | crates/lb-core/src/pool.rs:457-473 | the sorted comparison says unchanged iff the two lists hold the same backends |
| Pools.BackendPool.constructor | crates/lb-core/src/pool.rs:62-119 | a new pool shows every backend in rotation, nothing in flight, version zero |
| Pools.BackendPool.TrackActive | crates/lb-core/src/pool.rs:388-394 | adds one live guard on the id's current state and one to that state's count; nothing for an unknown id |
| Pools.BackendPool.DropGuard | crates/lb-core/src/pool.rs:481-487 | takes one off the very state the guard holds, never below zero, and touches no other state |
| Pools.BackendPool.ActiveCount | crates/lb-core/src/pool.rs:373-380 | the count is the number of live guards on the id's current state |
| Pools.BackendPool.SetEjectionFlag | crates/lb-core/src/pool.rs:197-239 | sets or clears the flag within the ceiling, in place |
| Pools.BackendPool.ExceedsCeiling | crates/lb-core/src/pool.rs:241-264 | whether one more ejection passes the fraction |
| Pools.BackendPool.SetActiveHealthy | crates/lb-core/src/pool.rs:133-140 | stores a probe's verdict and ends the wait for the first one |
| Pools.BackendPool.SetManuallyDrained | crates/lb-core/src/pool.rs:280-286 | drains or undrains one backend |
| Pools.BackendPool.IsEligibleNow | crates/lb-core/src/pool.rs:324-335 | eligibility by the flags as they stand, the stored tier flag being the right one |
| Pools.BackendPool.EligibleNow | crates/lb-core/src/pool.rs:337-365 | the eligible list by the flags as they stand |
| Pools.BackendPool.StateFor | crates/lb-core/src/pool.rs:409-433 | a persisting backend keeps its state object; a new one is healthy, with no flag against it, and awaits its first probe |
| Pools.BackendPool.Restate | crates/lb-core/src/pool.rs:404-434 | the refreshed list and index |
| Pools.BackendPool.ApplyResolved | crates/lb-core/src/pool.rs:396-441 | bumps the version iff the set changed; shows the new set with kept flags, new backends awaiting their first probe with nothing else against them; every state's count still equals its live guards |
| PoolRuns.AppliedShows | crates/lb-core/src/pool.rs:404-434 | after a refresh a known backend shows its old flags with the new weight and priority, a new one shows healthy, unflagged and unprobed |
| PoolRuns.NewcomerWaitsForProbe | crates/lb-core/src/pool.rs:324-335 | over every run of operations that neither probes nor drops it, a backend that joined is not eligible while a confirmed one is up |
| PoolRuns.ProbeEndsWait | crates/lb-core/src/pool.rs:133-140 | a probe sets health and ends the wait of its backend, and changes nothing else |
| PoolRuns.DrainByFlag | crates/lb-core/src/pool.rs:280-286 | draining and undraining change one flag of one backend |
| PoolRuns.StartsConfirmed | crates/lb-core/src/pool.rs:62-119 | the backends a pool starts with wait for no probe |
| Deviation.MeanAndVariance | crates/lb-healthcheck/src/outlier.rs:92-95 | sum over count and mean square are the mean and variance of the rates |
| Deviation.CantelliBound | crates/lb-healthcheck/src/outlier.rs:90-96 | k standard deviations below the mean lie no values, or m with m(1 + k^2) < n |
| Deviation.CantelliIsTight | crates/lb-healthcheck/src/outlier.rs:90-96 | for any rates of zero and one, the m zeros among n are below the cutoff iff m(1 + k^2) < n and the ones never are, so the bound cannot be improved |
| Outliers.OutlierDetector.constructor | crates/lb-healthcheck/src/outlier.rs:39-45 | fresh counts for every id |
| Outliers.OutlierDetector.RecordOutcome | crates/lb-healthcheck/src/outlier.rs:55-63 | counts one outcome for a known id and nothing else |
| Outliers.OutlierDetector.Reconcile | crates/lb-healthcheck/src/outlier.rs:47-49 | keeps the live backends' counts and starts new ones afresh |
| Outliers.MeanLess | crates/lb-healthcheck/src/outlier.rs:90-96 | the mean less factor standard deviations |
| Outliers.RoundCutoff | crates/lb-healthcheck/src/outlier.rs:90-99 | the round's cutoff; nothing compares below it when a judged rate is not a number |
| Outliers.OutlierDetector.Settle | crates/lb-healthcheck/src/outlier.rs:101-128 | one backend's new flag and ticks, and what the pool is told |
| Outliers.JudgedAreRated | crates/lb-healthcheck/src/outlier.rs:84-91 | a round is active exactly when at least min_hosts backends have min_volume outcomes |
| Outliers.RoundByNumbers | crates/lb-healthcheck/src/outlier.rs:84-128 | with enough judged, a judged backend is flagged iff its successes fall short of the cutoff's share of its outcomes, for max(1, eject_ticks) rounds; otherwise nobody is newly flagged and flags lose a tick |
| Outliers.OutlierDetector.Recompute | crates/lb-healthcheck/src/outlier.rs:71-130 | a whole round in any iteration order: every backend's new counts, that verdict on each, and the calls made on the pool |
| OutlierRounds.RoundFlagsFew | crates/lb-healthcheck/src/outlier.rs:84-114 | a round flags nobody, or m of n judged backends with m(1 + k^2) < n |
| OutlierRounds.NeverFlagsEveryone | crates/lb-healthcheck/src/outlier.rs:84-114 | some judged backend is always spared |
| OutlierRounds.AllOrNothingRound | crates/lb-healthcheck/src/outlier.rs:84-114 | when judged backends fail everything or nothing, a round flags exactly the m failing of n iff n reaches min_hosts and m(1 + k^2) < n, and otherwise nobody |
| OutlierRounds.DefaultNeedsFive | crates/lb-core/src/config.rs:1192-1198 | with the default factor nobody is flagged while fewer than five are judged |
| OutlierRounds.DefaultFlagsFromFive | crates/lb-core/src/config.rs:1192-1198 | with the default factor a lone failing backend is flagged iff at least five, and at least min_hosts, are judged |
| OutlierRounds.FlagLastsItsTicks | crates/lb-healthcheck/src/outlier.rs:115-126 | without a new verdict a flag lasts exactly its remaining ticks |
| OutlierRounds.FreshFlagLasts | crates/lb-healthcheck/src/outlier.rs:104-126 | a newly flagged backend is let back after max(1, eject_ticks) rounds without a verdict |
| OutlierRounds.RoundsKeepSound | crates/lb-healthcheck/src/outlier.rs:101-128 | over every run of rounds a backend is flagged iff it has ticks left |
| OutlierRounds.RoundKeepsPoolFollowing | crates/lb-healthcheck/src/outlier.rs:101-128 | after every round the pool ejects only flagged backends, and all of them when there is no ceiling |
| CircuitBreakers.CircuitBreaker.constructor | crates/lb-healthcheck/src/circuit_breaker.rs:82-113 | closed, with an empty history |
| CircuitBreakers.CircuitBreaker.State | crates/lb-healthcheck/src/circuit_breaker.rs:174-232 | extends the history with a poll decided by the history alone |
| CircuitBreakers.CircuitBreaker.RecordSuccess | crates/lb-healthcheck/src/circuit_breaker.rs:234-259 | likewise for a success |
| CircuitBreakers.CircuitBreaker.RecordFailure | crates/lb-healthcheck/src/circuit_breaker.rs:261-272 | likewise for a failure; not closed, it is open afterwards |
| CircuitBreakers.CircuitBreaker.Trip | crates/lb-healthcheck/src/circuit_breaker.rs:278-304 | opens now, clears both counts and continues or restarts the streak |
| CircuitBreakers.TripsExactlyAtThreshold | crates/lb-healthcheck/src/circuit_breaker.rs:261-272 | trips from Closed exactly at max(1, threshold) failures since the last success |
| CircuitBreakers.ClosesExactlyAtRequired | crates/lb-healthcheck/src/circuit_breaker.rs:234-259 | closes exactly at max(1, required) successes of this half-open episode |
| CircuitBreakers.OtherMoves | crates/lb-healthcheck/src/circuit_breaker.rs:205-272 | half-open, exactly a failure opens it; open, only a poll moves it and only to half-open; a poll moves nothing else; closed, it never goes half-open |
| CircuitBreakers.RecentFailuresAre | crates/lb-healthcheck/src/circuit_breaker.rs:261-272 | the failures that count are those with no success after them |
| CircuitBreakers.RecentSuccessesAre | crates/lb-healthcheck/src/circuit_breaker.rs:234-259 | the successes that count are those since the breaker last went half-open |
| CircuitBreakers.LastsAre | crates/lb-healthcheck/src/circuit_breaker.rs:278-304 | the opening and closing times kept are those of the last trip and the last close |
| CircuitBreakers.NewStreakExactly | crates/lb-healthcheck/src/circuit_breaker.rs:294-302 | a trip starts the streak afresh iff creation and every close lie at least the reset time back, and otherwise makes it one longer |
| CircuitBreakers.HalfOpenHasWaited | crates/lb-healthcheck/src/circuit_breaker.rs:205-232 | in every history a half-open breaker has been open for its effective cooldown |
| CircuitBreakers.OpenIsNotDue | crates/lb-healthcheck/src/circuit_breaker.rs:205-232 | in every history, while it is open no poll since the trip came when the effective cooldown was over |
| CircuitBreakers.CooldownGrows | crates/lb-healthcheck/src/circuit_breaker.rs:205-210 | a first trip waits the plain cooldown, later trips of the streak no less, up to the cap |
| CircuitBreakers.BacksOffExactly | crates/lb-healthcheck/src/circuit_breaker.rs:205-210 | each further trip of a streak waits the multiplier times the wait before it, up to the cap |
| CircuitBreakers.StreakCountsTrips | crates/lb-healthcheck/src/circuit_breaker.rs:294-302 | the streak is the number of trips since, and counting, the last made at least the reset time after a close |
| CircuitBreakers.StreakAsDocumentedExactly | crates/lb-healthcheck/src/circuit_breaker.rs:71-74 | it is the documented streak iff no re-trip out of HalfOpen began it, and otherwise shorter |
| CircuitBreakers.DocumentedStreakCanDiffer | crates/lb-healthcheck/src/circuit_breaker.rs:294-302 | one failed probe after which the cooldown does not double as documented |
| CircuitBreakers.RetripsNeverBackOff | crates/lb-healthcheck/src/circuit_breaker.rs:294-302 | with a cooldown of at least the reset time every re-trip out of HalfOpen has streak one |
| RoundRobins.WeightedRoundRobin.PickExcluding | crates/lb-balancer/src/weighted_round_robin.rs:38-62 | draws one ticket iff anyone can be picked, and None exactly when all are excluded or of weight zero |
| RoundRobins.Walk | crates/lb-balancer/src/weighted_round_robin.rs:54-61 | the loop always stops inside an interval, so its trailing None is unreachable |
| RoundRobins.RoundRobin.PickExcluding | crates/lb-balancer/src/round_robin.rs:22-35 | the ticket modulo the number of candidates |
| RoundRobins.OnesPickPlainly | crates/lb-balancer/src/round_robin.rs:22-35 | with all weights one both balancers pick alike on every ticket |
| RoundRobins.TicketOf | crates/lb-balancer/src/weighted_round_robin.rs:54-54 | consecutive picks draw consecutive tickets modulo the word |
| RoundRobins.FairExactly | crates/lb-balancer/src/weighted_round_robin.rs:38-62 | for all weights and every cursor, a block gives every candidate exactly its weight iff it does not wrap, or the total divides the word, or the wrap cuts off and repeats only tickets of the first or only of the last candidate of positive weight |
| RoundRobins.AcrossTheWrap | crates/lb-balancer/src/weighted_round_robin.rs:54-54 | what a wrap adds to or takes from an exact share |
| RoundRobins.OnesFairExactly | crates/lb-balancer/src/weighted_round_robin.rs:54-54 | with all weights one a block is fair iff it does not wrap or the count divides the word |
| RoundRobins.WrapIsUnfair | crates/lb-balancer/src/weighted_round_robin.rs:54-54 | three backends, a wrapping cursor and one backend picked twice |
| RoundRobins.WeightedWrapIsUnfair | crates/lb-balancer/src/weighted_round_robin.rs:54-54 | weights 1 and 2, two candidates dividing the word, and the first picked twice in three tickets |
| RoundRobins.UnevenTotalCanBeFair | crates/lb-balancer/src/weighted_round_robin.rs:54-54 | weights 3 and 2 and a wrapping block that is fair although the total does not divide the word |
| RoundRobins.BlockShares | crates/lb-balancer/src/weighted_round_robin.rs:38-62 | picks in a row, as many as the eligible and not excluded backends weigh, give each its weight capped at a thousand and the excluded none |
| RoundRobins.PlainInTurn | crates/lb-balancer/src/round_robin.rs:22-35 | the plain balancer goes through the kept backends one after the other |
| PeerConnLimiters.PeerConnLimiter.TryAcquire | crates/lb-cluster/src/gossip.rs:26-37 | grants exactly below four live guards |
| PeerConnLimiters.PeerConnLimiter.Decrement | crates/lb-cluster/src/gossip.rs:46-51 | the first half of a drop takes exactly one off, so it never saturates |
| PeerConnLimiters.PeerConnLimiter.RemoveIfZero | crates/lb-cluster/src/gossip.rs:52-54 | the second half removes the entry only if it is still zero |
| PeerConnLimiters.EveryInterleaving | crates/lb-cluster/src/gossip.rs:26-56 | under every interleaving an entry is its live guards, at most four, and no zero entry is left once no removal is pending |
| AdaptiveLimits.SlowerNeverHigher | crates/lb-proxy/src/adaptive.rs:83-107 | after any run, with an admissible tolerance and smoothing, a slower response never leaves a higher estimate than a faster one, the decay of the long average included |
| AdaptiveLimits.LongRttMoves | crates/lb-proxy/src/adaptive.rs:86-95 | the long average moves towards the sample, decays while over twice it, and stays positive |
| AdaptiveLimits.AdaptiveLimit.constructor | crates/lb-proxy/src/adaptive.rs:30-41 | starts at the initial limit brought within its bounds, with nothing in flight |
| AdaptiveLimits.AdaptiveLimit.PublishLimit | crates/lb-proxy/src/adaptive.rs:75-81 | the limit is the estimate to the nearest integer, within its bounds |
| AdaptiveLimits.AdaptiveLimit.OnSample | crates/lb-proxy/src/adaptive.rs:83-107 | a sample and its publication, in place |
| AdaptiveLimits.AdaptiveLimit.OnFailure | crates/lb-proxy/src/adaptive.rs:109-113 | a failure and its publication; the estimate never grows |
| AdaptiveLimits.EveryInterleaving | crates/lb-proxy/src/adaptive.rs:51-139 | under every interleaving, stale reads and lost exchanges included, in-flight equals live guards and stays within the maximum, limit and estimate stay within bounds |
| AdaptiveLimits.GrantedBelowItsLimit | crates/lb-proxy/src/adaptive.rs:51-73 | a slot is taken only while the guards in hand are below the limit the request read |
| AdaptiveLimits.UndisturbedIsGranted | crates/lb-proxy/src/adaptive.rs:51-73 | after any run, a request alone at its steps is granted iff the guards in hand are below the limit |
| AdaptiveLimits.SampleByNumbers | crates/lb-proxy/src/adaptive.rs:83-107 | after any run: under half use nothing moves; a tolerated response adds the smoothed queue; one twice as slow also takes off half, smoothed; within bounds |
| AdaptiveLimits.FailureByNumbers | crates/lb-proxy/src/adaptive.rs:109-113 | after any run, a failure takes a tenth off the estimate, down to its least, and the limit becomes the nearest whole number |

## Left out

- Sockets, tasks, TLS, HMAC, message encoding and the peer listener loop: the network is a set of sent messages, delivered at will.
- Hardware memory ordering: atomic steps are taken as sequentially consistent.
- Floating-point rounding: rates, factors, cooldowns and estimates are real numbers.
- The hash functions: any function of the key and id; how evenly they spread is not claimed.
- Overflow of counts, epochs, versions and the breaker's streak beyond their machine width.
- Races inside one call of the breaker, of the counter store and of the pool's setters: each public call is one step, except where the model says otherwise.
- The breaker's latency and concurrency thresholds and its snapshot for config reload.
- The pool's slow-start stamps, warm-up fraction and eligibility generation, and the setter that restarts the wait for a first probe.
- Skew-rejection metrics and every other metric.
- Duplicate ids in a resolved list: ids are taken as unique, as config validation requires of configured ones.
- Limits that change while the cluster runs.
- Reuse of a pool's address by a later pool: the cache's pool identity is taken as unique.
- The remaining balancers, config validation, the admin server, probes, header rewriting and benchmarks are not modelled.
- AdaptiveLimits.EveryInterleaving: the acquire loop is modelled turn by turn, because it may retry without bound; that it ends is not claimed.
- Clusters.RunInv: clocks never go back and node ids hold no NUL, as the slot format needs.
- LagBounds.OvershootWithinLag: needs a common clock; without one only one limit per boot is claimed.
- Convergence.DeliveryOrderIrrelevant: needs every message within skew and room for every key, since both filters depend on when a message arrives.
- ClusterViews.SyncedIsExact: earlier boots of the node itself must have left the window, since a node refuses its own id.
- Coordinators.ListenerCoordinator.TryAdmit: that the counted key names its listener is claimed for listener names without the separator character.
- VersionedCaches.PickAfterApply: a structure is known by the ids and weights it was built from; the ring and the table are functions of those.
- CachedPicks.PickAnswersAsRebuilt: the walk sees eligibility at one instant; the code reads it backend by backend.
- CachedPicks.TablePickAnswers: likewise for the scan; and fewer than 2^32 - 1 backends of positive weight, since slots hold 32-bit indices.
- AdaptiveLimits.SlowerNeverHigher: the square root of the estimate is a parameter, the same for both responses.
