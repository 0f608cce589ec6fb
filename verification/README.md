# Verified model of Arbitro's timers, ids, subject claims and workflow tasks

Arbitro is a message broker written in Rust. This project models the parts of it whose correctness does not
follow from reading one function, and proves what they promise, for all inputs and all runs.

- **The hierarchical timing wheel** (`WheelModel`, `WheelInvariant`, `WheelDriver`, `WheelCascade`, `WheelRuns`,
  `WheelOrder`, `HierarchicalWheel`, `BitMask`): up to six levels of 64 buckets, each level's tick 64 times
  the one below, grown on demand. Timers cascade down, and deadlines past the top are parked. The classes keep the arrays, the occupancy
  mask, the cursors and 64-bit arithmetic, and are proved against functions on a value, `Wheel`. Everything about runs
  is proved of those functions. Conservation is proved for sums of an arbitrary weight over timers; the weight that
  picks out one timer counts its copies, and so `EveryRunIsExactlyOnce` states it with multisets. Ranks, which bound
  hand-overs, are summed over an arbitrary choice of timers, down to a single one.
- **The flat timing wheel** (`FlatWheel`): a ring specified by its calendar of what leaves on each coming advance.
- **The id pool and the name registry** (`IdPoolModel`, `IdPools`, `RegistryModel`, `NameRegistry`): a recycling slot
  allocator with generations, log replay and snapshots, and on top of it the registry with its inner state, its hot
  snapshot, its sentinels and its check-and-claim of subject filters.
- **Subject patterns and stream rules** (`SubjectModel`, `Subjects`, `StreamRules`): wildcard matching, covering and
  overlap as scans over bytes and as relations between tokens, and the rule that no subject belongs to two streams.
- **The workflow task protocol** (`WorkflowCodec`, `WorkflowIds`, `WorkflowModel`, `WorkflowProgress`, `Workflow`):
  payload formats, message ids, and the dispatch of normal steps with retries, dead letters and compensation. Any
  stored task may be delivered to any worker any number of times, handlers may succeed or fail at will, and any publish may be lost. The
  protocol is proved on keys and contexts, and the bytes that the workers handle are proved to represent it.

Where the code and its comments differ, the model follows the code:

- The rules of `validate_subject` are documented as "`>` only as the last token". The code checks the last token only,
  and so accepts `>.>`. `AcceptsGtBeforeEnd` shows it and `AcceptedKeepsGtRule` gives the exact condition.
- A flat-wheel delay of zero leaves after a full rotation, not on the next tick as the name of one test suggests.
- The stream rules refuse a global filter, but only the spelling `>`. `GlobalInDisguise` shows `>.>` passing, and
  `CapturesAllIffGtFirst` says which filters capture everything.
- `replay_alloc` is documented as applying one record. It also brings slots that it skips over to life.
  `ReplayRevivesSkippedSlots` shows it and `ReplayAllocDisturbsNone` says exactly when it does not happen.
- One advance fires a level's buckets in window order only for jumps of at most one rotation or of whole rotations.
  `WindowOrder` says so and `LongJumpReorders` shows a jump that does not.
- Exact conditions are given where a promise has an edge: `WindowEdgeFits` for 64-bit overflow, `PairsAreUnique` for
  generation reuse, `TaskRoundTrip` and `ParkRoundTrip` for field widths.

`dafny verify dfyconfig.toml` checks the whole project.

## Model

| member | source | states |
|---|---|---|
| `WheelRuns.EveryRunConserves` | crates/arbitro-common/src/hierarchical_wheel.rs:294-341 | over every run of inserts, jumps and clears and every weighing of timers: what was scheduled since the last clear weighs as much as what fired plus what is still stored |
| `WheelRuns.EveryRunIsExactlyOnce` | crates/arbitro-common/src/hierarchical_wheel.rs:294-341 | so, as multisets, the timers scheduled are those fired and those still stored: every timer surfaces exactly once |
| `WheelRuns.EveryEndedTickHasFired` | crates/arbitro-common/src/hierarchical_wheel.rs:25-33 | over every run, every copy of a scheduled timer whose tick has ended by the clock has fired |
| `WheelRuns.EveryRunIsGood` | crates/arbitro-common/src/hierarchical_wheel.rs:25-33 | every run keeps the placement invariant, and every firing is at or after the deadline, with the clock before it not past the end of the deadline's tick |
| `WheelRuns.EveryTimerPays` | crates/arbitro-common/src/hierarchical_wheel.rs:317-333 | over every run and for each timer, whatever else the wheel holds: its hand-overs plus its remaining rank are at most the ranks its inserts granted, where an unparked placement at level l grants l + 1 |
| `WheelRuns.EveryRunPays` | crates/arbitro-common/src/hierarchical_wheel.rs:317-333 | the same for any choice of timers and any stretch of a run, starting from the rank they have |
| `WheelRuns.TimerIsHandedOverRarely` | crates/arbitro-common/src/hierarchical_wheel.rs:317-333 | a timer stored once, at any point of any run, is handed over from there on at most as often as its rank there: l + 1 times if it is unparked at level l |
| `WheelRuns.EveryBoundedRunFits` | crates/arbitro-common/src/hierarchical_wheel.rs:130-151 | in every run with clock at most 2^64-65 and deadlines at most 2^64-1-tick, the wheel is always in a state where the 64-bit preconditions of insert, advance and next expiry hold |
| `WheelRuns.SleepIsCorrect` | crates/arbitro-common/src/hierarchical_wheel.rs:344-364 | the driver that only wakes at `next_expiry_ms` terminates with an empty wheel after at most potential-many wakes, fires everything stored, and fires each timer in `[d, d + tick]` |
| `WheelRuns.SleepingIsTicking` | crates/arbitro-common/src/hierarchical_wheel.rs:739-787 | from a whole tick, sleeping to each next expiry up to a horizon fires the same values in the same order, and leaves the same wheel, as advancing tick by tick |
| `WheelRuns.WakePays` | crates/arbitro-common/src/hierarchical_wheel.rs:352-364 | a wake at the next expiry is strictly later than the clock, keeps the invariant and strictly lowers the potential |
| `WheelRuns.WakeIsPrompt` | crates/arbitro-common/src/hierarchical_wheel.rs:25-33 | what a wake at the next expiry fires is fired in `[d, d + tick]` |
| `WheelRuns.WakeHandsOver` | crates/arbitro-common/src/hierarchical_wheel.rs:344-364 | a wake at the next expiry always finds work: some bucket is handed over |
| `WheelRuns.WakeIsATickAway` | crates/arbitro-common/src/hierarchical_wheel.rs:201-209 | from a whole tick, the next wake is at least one tick away |
| `WheelRuns.SleepRunSkip` | crates/arbitro-common/src/hierarchical_wheel.rs:352-364 | moving a quiet clock forward does not change what a sleeping run fires or leaves |
| `WheelRuns.NextExpirySkip` | crates/arbitro-common/src/hierarchical_wheel.rs:352-364 | `next_expiry_ms` does not change while the clock moves through quiet time |
| `WheelInvariant.FiringSandwich` | crates/arbitro-common/src/hierarchical_wheel.rs:301-341 | an advance emits only deadlines at or before the clock, leaves only deadlines of the current tick or later, and so leaves nothing whose tick has ended |
| `WheelInvariant.StoredIsNotOverdue` | crates/arbitro-common/src/hierarchical_wheel.rs:165-195 | no stored timer is overdue by a whole tick, at any level, parked or not |
| `WheelInvariant.AdvanceKeepsInv` | crates/arbitro-common/src/hierarchical_wheel.rs:301-341 | an advance of any size keeps the invariant: every stored timer sits in the live window of its level, in a bucket that starts no later than its deadline; the clock never moves back |
| `WheelInvariant.AdvanceConserves` | crates/arbitro-common/src/hierarchical_wheel.rs:301-341 | an advance neither loses nor duplicates: stored plus fired after equals stored before, under every weighing |
| `WheelInvariant.AdvanceFiresOnlyDue` | crates/arbitro-common/src/hierarchical_wheel.rs:323-326 | nothing fires before its deadline |
| `WheelDriver.NextExpiryIsTimely` | crates/arbitro-common/src/hierarchical_wheel.rs:352-364 | the next expiry is strictly after the clock, exists while anything is stored, and is no later than the end of the tick of any stored deadline |
| `WheelDriver.NextExpiryIsLeast` | crates/arbitro-common/src/hierarchical_wheel.rs:352-364 | the next expiry is no later than the hand-over of any non-empty bucket of any level |
| `WheelDriver.NextExpiryIsSome` | crates/arbitro-common/src/hierarchical_wheel.rs:352-364 | the next expiry is the hand-over of some non-empty bucket |
| `WheelDriver.PassedIsDue` | crates/arbitro-common/src/hierarchical_wheel.rs:165-180 | the cursor passes bucket `v` exactly when its hand-over instant has come, for both flush rules |
| `WheelDriver.TickEndIsNear` | crates/arbitro-common/src/hierarchical_wheel.rs:25-33 | the end of the deadline's tick is after the deadline and at most one tick later |
| `WheelDriver.SkipLaw` | crates/arbitro-common/src/hierarchical_wheel.rs:301-341 | an advance to any instant before the next expiry emits nothing and leaves every bucket as it is |
| `WheelDriver.ExtraWakeIsHarmless` | crates/arbitro-common/src/hierarchical_wheel.rs:301-341 | inserting such an advance before any later one changes neither what the later one emits nor what it leaves |
| `WheelDriver.DrainRingSkip` | crates/arbitro-common/src/hierarchical_wheel.rs:165-195 | a drain that starts at a later cursor returns and leaves the same when the buckets skipped are empty |
| `WheelInvariant.PlacementIsSound` | crates/arbitro-common/src/hierarchical_wheel.rs:435-468 | for every deadline after the clock: all finer levels are too short, the bucket is inside the chosen level's window and starts no later than the deadline, it is the deadline's own bucket unless parked, and parking happens only at level 5, below the deadline's bucket |
| `WheelInvariant.TooFarClearsNextEdge` | crates/arbitro-common/src/hierarchical_wheel.rs:435-468 | a deadline too far for level l is never before the window of level l+1 |
| `WheelInvariant.TooFarFits` | crates/arbitro-common/src/hierarchical_wheel.rs:446-450 | a deadline too far for level l is at least the tick of level l+1, so that tick never overflows when it is needed |
| `WheelInvariant.PlaceKeepsInv` | crates/arbitro-common/src/hierarchical_wheel.rs:435-468 | placing a timer keeps the invariant, levels grown or not |
| `WheelInvariant.PlaceAdds` | crates/arbitro-common/src/hierarchical_wheel.rs:435-468 | placing a timer adds exactly that timer, under every weighing |
| `WheelInvariant.PlaceTouchesOneBucket` | crates/arbitro-common/src/hierarchical_wheel.rs:435-468 | a placement appends the timer to its home bucket, changes no other bucket, and adds only the levels it needs |
| `WheelInvariant.ClearKeepsInv` | crates/arbitro-common/src/hierarchical_wheel.rs:411-416 | clearing keeps the invariant |
| `WheelInvariant.ClearWeighsNothing` | crates/arbitro-common/src/hierarchical_wheel.rs:411-416 | clearing leaves nothing stored |
| `WheelInvariant.WindowEdgeFits` | crates/arbitro-common/src/hierarchical_wheel.rs:149-151 | the window edge of the bottom level overflows 64 bits exactly when the tick is 1 ms and the clock is within 64 ms of the end |
| `WheelInvariant.EarlyDeadlineFits` | crates/arbitro-common/src/hierarchical_wheel.rs:201-208 | a deadline at most 2^64-1-tick has its tick end within 64 bits |
| `WheelInvariant.DuesFitEverywhere` | crates/arbitro-common/src/hierarchical_wheel.rs:201-209 | then every hand-over instant of every level is a 64-bit number |
| `WheelInvariant.MaskFindsNearest` | crates/arbitro-common/src/hierarchical_wheel.rs:201-209 | rotating the occupancy mask and counting trailing zeros gives what a linear search from the cursor gives |
| `WheelInvariant.RotatedMask` | crates/arbitro-common/src/hierarchical_wheel.rs:201-209 | bit k of the rotated mask is set exactly when the bucket k places past the cursor is non-empty |
| `WheelInvariant.DrainRingBucket` | crates/arbitro-common/src/hierarchical_wheel.rs:165-195 | a drain of any length empties exactly the buckets whose window id is below the limit, and the others keep their window ids |
| `WheelInvariant.DrainRingTimers` | crates/arbitro-common/src/hierarchical_wheel.rs:165-195 | a drain of any length returns exactly the timers of window ids below the limit |
| `WheelInvariant.DrainRingConserves` | crates/arbitro-common/src/hierarchical_wheel.rs:165-195 | a drain conserves every weighing of a level |
| `BitMask.WithSetsOneBit` | crates/arbitro-common/src/hierarchical_wheel.rs:154-160 | setting a bit sets that bit and no other |
| `BitMask.WithoutClearsOneBit` | crates/arbitro-common/src/hierarchical_wheel.rs:182-190 | clearing a bit clears that bit and no other |
| `BitMask.RotateRightBit` | crates/arbitro-common/src/hierarchical_wheel.rs:201-209 | bit i of the mask rotated right by r is bit i + r, around the end |
| `BitMask.TrailingZeros` | crates/arbitro-common/src/hierarchical_wheel.rs:201-209 | the position of the lowest set bit |
| `WheelCascade.CascadeDescends` | crates/arbitro-common/src/hierarchical_wheel.rs:317-333 | an unparked timer that is handed over and not yet due came from an upper level and is placed, unparked, at a strictly lower one |
| `WheelCascade.RankDescends` | crates/arbitro-common/src/hierarchical_wheel.rs:317-333 | the rank of a timer, parked or not, strictly falls each time it is handed over without firing; unparked at level l the rank is l + 1 |
| `WheelCascade.HomeIsRanked` | crates/arbitro-common/src/hierarchical_wheel.rs:435-468 | an unparked placement at level l has rank l + 1; a parked one sits at the far edge of level 5, short of its own bucket |
| `WheelCascade.AdvancePays` | crates/arbitro-common/src/hierarchical_wheel.rs:301-341 | for every choice of timers, down to a single one: an advance hands them over no more often than their potential falls |
| `WheelCascade.PlaceRanks` | crates/arbitro-common/src/hierarchical_wheel.rs:435-468 | a placement raises the potential of every choice that includes the timer by exactly the rank of the place, and of no other |
| `WheelCascade.SoleRank` | crates/arbitro-common/src/hierarchical_wheel.rs:435-468 | the potential of a timer stored once is its rank where it is stored |
| `WheelOrder.FiresInOrder` | crates/arbitro-common/src/hierarchical_wheel.rs:301-341 | of two due timers that one advance takes out, the one on the lower level fires first; on one level the one whose bucket is visited first; in one bucket the one pushed first |
| `WheelOrder.WindowOrder` | crates/arbitro-common/src/hierarchical_wheel.rs:177-194 | the buckets of a level are visited in the order of their windows, whichever they are, exactly when the cursor moves by at most one rotation or by whole rotations |
| `WheelOrder.LongJumpReorders` | crates/arbitro-common/src/hierarchical_wheel.rs:177-194 | a jump of 90 windows from cursor 10 fires window 36 before window 10 |
| `WheelOrder.DrainFromWhole` | crates/arbitro-common/src/hierarchical_wheel.rs:181-193 | a drain returns each bucket it visits in one stretch, in the order of the pushes |
| `HierarchicalWheel.Level.constructor` | crates/arbitro-common/src/hierarchical_wheel.rs:124-137 | an empty level whose cursor is `now / tick + (1 - lag)`; no 64-bit overflow for any clock |
| `HierarchicalWheel.Level.Push` | crates/arbitro-common/src/hierarchical_wheel.rs:154-160 | in place: the timer is appended to the bucket of its window id, the mask and count keep mirroring the buckets |
| `HierarchicalWheel.Level.DrainDue` | crates/arbitro-common/src/hierarchical_wheel.rs:165-195 | in place: the mask-skipping, rotation-capped loop leaves and returns what the specified drain does and moves the cursor to the limit, never back |
| `HierarchicalWheel.Level.DrainRange` | crates/arbitro-common/src/hierarchical_wheel.rs:181-193 | the loop over window ids empties the buckets in order |
| `HierarchicalWheel.Level.DrainBucket` | crates/arbitro-common/src/hierarchical_wheel.rs:182-193 | one bucket is emptied into the output, unless its mask bit is clear, in which case it held nothing |
| `HierarchicalWheel.Level.NextDueMs` | crates/arbitro-common/src/hierarchical_wheel.rs:201-209 | the hand-over instant of the bucket a linear search would find, or none |
| `HierarchicalWheel.Level.Clear` | crates/arbitro-common/src/hierarchical_wheel.rs:211-220 | every bucket is emptied and the cursor stays |
| `HierarchicalWheel.HierarchicalTimingWheel.constructor` | crates/arbitro-common/src/hierarchical_wheel.rs:261-270 | one empty level, with the given tick, at the given start clock |
| `HierarchicalWheel.HierarchicalTimingWheel.Place` | crates/arbitro-common/src/hierarchical_wheel.rs:435-468 | in place, growing levels on demand: the state becomes the specified placement, the finest level whose window reaches, or the parking bucket |
| `HierarchicalWheel.HierarchicalTimingWheel.FindLevel` | crates/arbitro-common/src/hierarchical_wheel.rs:437-443 | the first existing level whose window reaches the deadline, all earlier ones being too short |
| `HierarchicalWheel.HierarchicalTimingWheel.Grow` | crates/arbitro-common/src/hierarchical_wheel.rs:446-459 | levels are added until one reaches; it gives up only with six levels |
| `HierarchicalWheel.HierarchicalTimingWheel.AddLevel` | crates/arbitro-common/src/hierarchical_wheel.rs:447-458 | one empty level with 64 times the tick of the level below and its cursor where the clock puts it |
| `HierarchicalWheel.HierarchicalTimingWheel.Insert` | crates/arbitro-common/src/hierarchical_wheel.rs:279-292 | answers elapsed exactly for a deadline at or before the clock, and then nothing changes; otherwise answers scheduled, and exactly that timer is placed and counted |
| `HierarchicalWheel.HierarchicalTimingWheel.AdvanceTo` | crates/arbitro-common/src/hierarchical_wheel.rs:301-341 | in place: the state is that of the specified advance, the output is the value of each fired timer in the order of firing, the clock never moves back, and the count stays the number of stored timers |
| `HierarchicalWheel.HierarchicalTimingWheel.DrainAll` | crates/arbitro-common/src/hierarchical_wheel.rs:317-320 | every cursor is moved before anything is placed again; the hand-overs come level by level |
| `HierarchicalWheel.HierarchicalTimingWheel.Settle` | crates/arbitro-common/src/hierarchical_wheel.rs:323-333 | of the hand-overs, the due ones fire in order and the others are placed again against the moved clock |
| `HierarchicalWheel.HierarchicalTimingWheel.NextExpiryMs` | crates/arbitro-common/src/hierarchical_wheel.rs:352-364 | the least hand-over instant over the levels |
| `HierarchicalWheel.HierarchicalTimingWheel.SleepForMs` | crates/arbitro-common/src/hierarchical_wheel.rs:368-370 | the next expiry as a duration, zero when it is past |
| `HierarchicalWheel.HierarchicalTimingWheel.Clear` | crates/arbitro-common/src/hierarchical_wheel.rs:411-416 | every bucket of every level is empty and the levels and the clock stay |
| `FlatWheel.EveryRunIsFaithful` | crates/arbitro-common/src/wheel.rs:97-115 | over every run of inserts and advances, advance number j returns exactly the entries whose insert clock plus clamped delay is j, in insertion order, and no entry is due more than a rotation ahead |
| `FlatWheel.LeavesOn` | crates/arbitro-common/src/wheel.rs:97-102 | delays 1 to N-1 leave on that advance, longer ones on advance N-1, zero on advance N |
| `FlatWheel.TurnsSplit` | crates/arbitro-common/src/wheel.rs:166-174 | a jump of a + b ticks is a jump of a and then one of b, outputs concatenated |
| `FlatWheel.TurnsReadCalendar` | crates/arbitro-common/src/wheel.rs:110-115 | within one rotation the k-th advance returns what the calendar has for it |
| `FlatWheel.QuietUntilFirstBusy` | crates/arbitro-common/src/wheel.rs:143-158 | the advances before the first busy day return nothing and that one returns its entries |
| `FlatWheel.TimingWheel.constructor` | crates/arbitro-common/src/wheel.rs:81-90 | an empty ring |
| `FlatWheel.TimingWheel.Insert` | crates/arbitro-common/src/wheel.rs:97-102 | in place: the entry joins the end of the day it leaves on |
| `FlatWheel.TimingWheel.Advance` | crates/arbitro-common/src/wheel.rs:110-115 | in place: the first day leaves, every other moves one day closer |
| `FlatWheel.TimingWheel.AdvanceBy` | crates/arbitro-common/src/wheel.rs:166-174 | the loop equals that many single advances |
| `FlatWheel.TimingWheel.TicksUntilNextNonempty` | crates/arbitro-common/src/wheel.rs:143-158 | none exactly when nothing is stored, otherwise the first advance that returns anything |
| `IdPoolModel.EveryRunIsConsistent` | crates/arbitro-common/src/id_pool.rs:101-167 | over every run of allocations and frees: the free list names existing slots once each, the number of slots is the peak of active ones, the k-th hand-out of a slot carries generation k modulo 2^32 |
| `IdPoolModel.PairsAreUnique` | crates/arbitro-common/src/id_pool.rs:101-118 | two hand-outs of a slot carry the same generation exactly when they are a multiple of 2^32 hand-outs apart, so never while a slot is reused fewer than 2^32 times |
| `IdPoolModel.CurrentIsLatest` | crates/arbitro-common/src/id_pool.rs:144-149 | up to 2^32 hand-outs, a pair is current exactly until its slot is next handed out |
| `IdPoolModel.AllocHandsOutDeadSlot` | crates/arbitro-common/src/id_pool.rs:101-118 | an allocation makes live one slot under the cap that was not, and no other; a failed one changes nothing |
| `IdPoolModel.AllocTakesLatestFreed` | crates/arbitro-common/src/id_pool.rs:101-118 | in every run an allocation hands out the slot freed latest among those not live, and the next new slot at generation 0 only when there is none |
| `IdPoolModel.FreeTakesLiveSlot` | crates/arbitro-common/src/id_pool.rs:125-137 | a free succeeds exactly for live slots, ends only that one and keeps generations; a failed one changes nothing and says which error |
| `IdPoolModel.ExhaustedWhenFull` | crates/arbitro-common/src/id_pool.rs:101-118 | an allocation fails exactly when all slots under the cap are active |
| `IdPoolModel.RestoreAcceptsSound` | crates/arbitro-common/src/id_pool.rs:183-216 | a snapshot is accepted exactly when it is sound, and restoring it is the identity; a repeated free slot is a double free exactly when the slot count fits, anything else is out of range |
| `IdPoolModel.ReplayedAllocIsAlloc` | crates/arbitro-common/src/id_pool.rs:224-241 | replaying the record of an allocation does what the allocation did |
| `IdPoolModel.ReplayAllocIsIdempotent` | crates/arbitro-common/src/id_pool.rs:218-241 | in any order: replaying an allocation keeps the pool sound, makes that pair live and current, and replaying it again changes nothing; of the other slots only the ones skipped over change, which come to exist, live at generation 0 |
| `IdPoolModel.ReplayAllocDisturbsNone` | crates/arbitro-common/src/id_pool.rs:224-241 | it disturbs no other slot exactly when its slot exists or is the next new one |
| `IdPoolModel.ReplayRevivesSkippedSlots` | crates/arbitro-common/src/id_pool.rs:228-255 | replaying slot 5 first makes slots 0 to 4 live, and a free of slot 0, which was never replayed, is accepted |
| `IdPoolModel.ReplayRebuilds` | crates/arbitro-common/src/id_pool.rs:218-255 | feeding the log of any live run to a fresh pool of the same cap rebuilds it exactly, free-list order included |
| `IdPools.IdPool.constructor` | crates/arbitro-common/src/id_pool.rs:76-83 | an empty pool |
| `IdPools.IdPool.RestoreFrom` | crates/arbitro-common/src/id_pool.rs:193-216 | a fresh pool equal to an acceptable snapshot, or the error of the first check that fails |
| `IdPools.IdPool.TakeSnapshot` | crates/arbitro-common/src/id_pool.rs:183-190 | the snapshot is the state |
| `IdPools.IdPool.Alloc` | crates/arbitro-common/src/id_pool.rs:101-118 | in place: the last freed slot with its generation bumped, else the next new slot |
| `IdPools.IdPool.Free` | crates/arbitro-common/src/id_pool.rs:125-137 | in place: the slot is pushed on the free list, or the error |
| `IdPools.IdPool.ReplayAlloc` | crates/arbitro-common/src/id_pool.rs:224-241 | in place: the growing loop, the removal from the free list and the new high-water mark |
| `IdPools.IdPool.ReplayFree` | crates/arbitro-common/src/id_pool.rs:246-255 | in place: as a free |
| `SubjectModel.OverlapIsExact` | crates/arbitro-engine/src/common/subject.rs:70-89 | on patterns with non-empty tokens: when the byte scan says overlap some concrete subject, free of wildcard tokens, matches both, and when it says none no bytes at all do |
| `SubjectModel.OverlapIsSymmetric` | crates/arbitro-proto/src/validate.rs:97-135 | overlap does not depend on the order of its arguments |
| `SubjectModel.CoversIsExact` | crates/arbitro-engine/src/common/subject.rs:45-66 | the byte scan says covers exactly when every subject of the narrow pattern matches the wide one, and concrete subjects are enough to tell |
| `SubjectModel.StrictlyNestedIsProperSubset` | crates/arbitro-engine/src/common/subject.rs:94-96 | strict nesting is proper inclusion of the matched subjects |
| `SubjectModel.MatchesIsExact` | crates/arbitro-engine/src/common/subject.rs:22-41 | the byte scan matches token by token, `*` one token and `>` one or more |
| `SubjectModel.OverlapAgrees` | crates/arbitro-engine/src/common/subject.rs:70-89 | the engine's scan over bytes agrees with overlap over tokens |
| `SubjectModel.CoversAgrees` | crates/arbitro-engine/src/common/subject.rs:45-66 | the engine's covers scan over bytes agrees with covers over tokens |
| `SubjectModel.Shared` | crates/arbitro-proto/src/validate.rs:97-135 | a witness: concrete tokens, none of them a wildcard, that both overlapping patterns match |
| `SubjectModel.Escape` | crates/arbitro-engine/src/common/subject.rs:45-66 | a witness: concrete tokens, none of them a wildcard, that the narrow pattern matches and the wide one does not |
| `SubjectModel.JoinRoundTrip` | crates/arbitro-engine/src/common/subject.rs:13-18 | joining proper tokens with dots and splitting gives them back |
| `Subjects.ValidateName` | crates/arbitro-proto/src/validate.rs:30-43 | accepted exactly when 1 to 255 bytes, all allowed; the error names the first bad byte |
| `Subjects.ValidateSubject` | crates/arbitro-proto/src/validate.rs:45-95 | accepted exactly when the length and the bytes are allowed, every token is non-empty, a token with a wildcard is that wildcard, and a subject with `>` ends in it; refused with the first byte not allowed, else with the byte of the first unsound token, else with `>` |
| `Subjects.AcceptableMeans` | crates/arbitro-proto/src/validate.rs:45-95 | the same of what the checks ask for |
| `Subjects.FirstFaultMeans` | crates/arbitro-proto/src/validate.rs:73-87 | the token loop reports a dot for an empty token, `*` before `>` for a wildcard that does not stand alone, and it does so for the first token that is not sound |
| `Subjects.CheckTokens` | crates/arbitro-proto/src/validate.rs:69-87 | no fault exactly when every token is non-empty and its wildcards stand alone, then with the last token; else the byte of the first token that is not |
| `Subjects.AcceptableIsWellFormed` | crates/arbitro-proto/src/validate.rs:55-95 | whatever is accepted has only non-empty tokens |
| `Subjects.AcceptsGtBeforeEnd` | crates/arbitro-proto/src/validate.rs:89-92 | `>.>` is accepted though `>` is not only last |
| `Subjects.AcceptedKeepsGtRule` | crates/arbitro-proto/src/validate.rs:89-92 | an accepted subject has `>` only last exactly when it contains at most one `>` |
| `Subjects.SubjectsOverlap` | crates/arbitro-proto/src/validate.rs:97-135 | the two iterators decide overlap of the tokens; on well-formed patterns true means that some concrete subject matches both, false that nothing does |
| `Subjects.EngineOverlap` | crates/arbitro-engine/src/common/subject.rs:70-89 | the loop form of the engine's overlap |
| `Subjects.EngineMatches` | crates/arbitro-engine/src/common/subject.rs:22-41 | the loop form of the engine's matching |
| `Subjects.EngineCovers` | crates/arbitro-engine/src/common/subject.rs:45-66 | the loop form of the engine's covers, which on well-formed patterns is inclusion of subjects |
| `StreamRules.EveryRunIsExclusive` | crates/arbitro-server/src/transport/rules/stream_rules.rs:42-75 | over every run of dispatched creates and removes, no subject is matched by the filters of two streams |
| `StreamRules.AtMostOneStream` | crates/arbitro-server/src/transport/rules/stream_rules.rs:42-52 | exclusive claims give each subject at most one stream |
| `StreamRules.AdmissibleIsExact` | crates/arbitro-server/src/transport/rules/stream_rules.rs:42-75 | a well-formed filter that is not global is admitted exactly when it shares no subject with a claimed one |
| `StreamRules.AdmissibleMeans` | crates/arbitro-server/src/transport/rules/stream_rules.rs:68-75 | the four rules together: not global and no clash with any claimed filter |
| `StreamRules.ClaimKeepsExclusive` | crates/arbitro-server/src/transport/rules/stream_rules.rs:68-75 | an admitted claim keeps claims exclusive |
| `StreamRules.ReleaseKeepsExclusive` | crates/arbitro-common/src/name_registry.rs:623-644 | a release keeps claims exclusive |
| `StreamRules.OnCreate` | crates/arbitro-server/src/transport/rules/stream_rules.rs:68-74 | the loops over the claimed filters answer missing, global, duplicate or overlap each exactly in its own case and in that order, whatever the order of the filters |
| `StreamRules.GuardedClaimKeepsDisjoint` | crates/arbitro-common/src/name_registry.rs:447-513 | with any check that refuses well-formed filters sharing a subject with a claimed one, an admitted claim leaves no subject in two slices |
| `StreamRules.RulesGuardBounded` | crates/arbitro-server/src/transport/rules/stream_rules.rs:42-75 | the rules refuse a bounded well-formed filter exactly when it shares a subject with some claimed filter other than the global one, which they would skip |
| `StreamRules.GlobalInDisguise` | crates/arbitro-server/src/transport/rules/stream_rules.rs:20-25 | `>.>` is not called global and yet matches what `>` does |
| `StreamRules.CapturesAllIffGtFirst` | crates/arbitro-server/src/transport/rules/stream_rules.rs:20-25 | a well-formed filter captures everything exactly when its first token is `>` |
| `RegistryModel.RegisterStream` | crates/arbitro-common/src/name_registry.rs:357-389 | handing out a slot keeps stream ids exactly the live slots and the two translations inverse |
| `RegistryModel.UnregisterStream` | crates/arbitro-common/src/name_registry.rs:623-644 | removing a stream keeps that, and its discarded `free` result is never an error |
| `RegistryModel.TranslationsInvert` | crates/arbitro-common/src/name_registry.rs:577-590 | `stream_wire` inverts `stream_seq` for non-zero wire ids, and is none exactly for dead slots and the slot of wire id 0 |
| `RegistryModel.RegisterClaims` | crates/arbitro-common/src/name_registry.rs:454-513 | a created stream adds its own claim and touches no other |
| `RegistryModel.RegisterEmpty` | crates/arbitro-common/src/name_registry.rs:507-510 | a stream created with an empty filter claims nothing, whatever its slot held before |
| `RegistryModel.RegisterKeepsFilters` | crates/arbitro-common/src/name_registry.rs:507-510 | recording the filter of a stream just created leaves dead slots without one |
| `RegistryModel.UnregisterClaims` | crates/arbitro-common/src/name_registry.rs:623-644 | a removed stream releases its own claim and no other |
| `RegistryModel.RegisterConsumer` | crates/arbitro-common/src/name_registry.rs:754-777 | handing out a slot keeps consumer ids exactly the live slots minus the burned slot 0 |
| `RegistryModel.UnregisterConsumer` | crates/arbitro-common/src/name_registry.rs:796-809 | removing a consumer keeps that, and its discarded `free` result is never an error |
| `NameRegistry.NameRegistry.constructor` | crates/arbitro-common/src/name_registry.rs:240-298 | an empty registry whose consumer slot 0 is burned and whose hot snapshot mirrors it |
| `NameRegistry.NameRegistry.Publish` | crates/arbitro-common/src/name_registry.rs:129-148 | the rebuilt hot snapshot equals the inner state |
| `NameRegistry.NameRegistry.GetOrCreateStream` | crates/arbitro-common/src/name_registry.rs:357-389 | an existing stream, a fresh one on a slot that was not live, with no window and one replica, or the full sentinel; claims and other streams do not change |
| `NameRegistry.NameRegistry.GetOrCreateStreamNamed` | crates/arbitro-common/src/name_registry.rs:401-445 | as above, with the collision sentinel exactly when the wire id is held under another name |
| `NameRegistry.NameRegistry.GetOrCreateStreamChecked` | crates/arbitro-common/src/name_registry.rs:454-513 | for any check and recheck: a wire id held under another name is answered with the collision sentinel; without creation only the stream's own id under its own name, or the full sentinel, is granted; the rulings are on exactly the claimed filters; a granted create adds one claim and touches no other stream, anything else changes nothing stored; a guarding check keeps slices disjoint |
| `NameRegistry.VerdictMeans` | crates/arbitro-common/src/name_registry.rs:462-512 | the answers case by case: collision first, then the recheck for a known wire id, then the check, and a slot exactly while fewer are active than the cap |
| `NameRegistry.SentinelsAreNeverLive` | crates/arbitro-common/src/name_registry.rs:454-513 | neither sentinel is ever the id of a stream or consumer |
| `NameRegistry.NameRegistry.CreateStream` | crates/arbitro-server/src/transport/dispatch_v2.rs:1436-1478 | validated requests under the broker's rules: refused as invalid exactly when name or filter is; a colliding name gets the collision sentinel, never the other stream's id; exclusive claims stay exclusive whatever is asked for, and on fully claimed registries it is one step of the claims protocol |
| `NameRegistry.RecreateAnswers` | crates/arbitro-server/src/transport/rules/stream_rules.rs:54-79 | a create of a stream that exists, under its own name, is answered with its id when it asks for the slice the stream claims or none, else refused; no other claim plays a part and none moves |
| `NameRegistry.NameRegistry.ClaimStream` | crates/arbitro-common/src/name_registry.rs:487-511 | mint, name and claim in one step; dead slots stay without filters |
| `NameRegistry.NameRegistry.ClaimedFilters` | crates/arbitro-common/src/name_registry.rs:478-484 | the list handed to the check has every claimed filter once for each stream that claims it, in some order |
| `NameRegistry.NameRegistry.RemoveStream` | crates/arbitro-common/src/name_registry.rs:623-644 | removes that stream, its name, window, replicas and claim and nothing of another stream, frees its slot without error, and an unknown one changes nothing |
| `NameRegistry.NameRegistry.SetStreamFilter` | crates/arbitro-common/src/name_registry.rs:519-526 | dead slots stay without a filter exactly when the setter is used on a live id or with no filter |
| `NameRegistry.NameRegistry.SetStreamIdempotency` | crates/arbitro-common/src/name_registry.rs:670-679 | the window is capped and visible in the hot snapshot |
| `NameRegistry.NameRegistry.StreamSeq` | crates/arbitro-common/src/name_registry.rs:577-579 | the hot lookup is the authoritative one |
| `NameRegistry.NameRegistry.StreamWire` | crates/arbitro-common/src/name_registry.rs:583-590 | the hot reverse lookup inverts the map for non-zero wire ids |
| `NameRegistry.NameRegistry.GetOrCreateConsumer` | crates/arbitro-common/src/name_registry.rs:754-777 | an existing consumer, a fresh one on a slot that was not live, or the full sentinel; a fresh one has no stream, queue, deliver policy or cursor if dead slots had none |
| `NameRegistry.NameRegistry.Forget` | crates/arbitro-common/src/name_registry.rs:796-809 | one consumer's key, queue, stream, deliver policy and cursor go, those of every other consumer stay, and its slot is freed without error |
| `NameRegistry.NameRegistry.RemoveConsumer` | crates/arbitro-common/src/name_registry.rs:796-809 | removes that consumer and everything kept for its slot, and nothing kept for another; an unknown one changes nothing |
| `NameRegistry.NameRegistry.RemoveConsumerById` | crates/arbitro-common/src/name_registry.rs:852-872 | finds the one key of a live id and removes it with everything kept for that id and nothing kept for another; none for dead ids and slot 0 |
| `NameRegistry.NameRegistry.SetConsumerQueue` | crates/arbitro-common/src/name_registry.rs:922-928 | dead slots stay clean exactly when the setter is used on a live id |
| `NameRegistry.NameRegistry.SetConsumerStream` | crates/arbitro-common/src/name_registry.rs:933-941 | dead slots stay clean exactly when the setter is used on a live id, or unsets |
| `NameRegistry.NameRegistry.SetConsumerDeliverPolicy` | crates/arbitro-common/src/name_registry.rs:969-980 | dead slots stay clean exactly when the setter is used on a live id |
| `NameRegistry.NameRegistry.SetConsumerCursor` | crates/arbitro-common/src/name_registry.rs:997-1003 | dead slots stay clean exactly when the setter is used on a live id |
| `NameRegistry.NameRegistry.ConsumerStream` | crates/arbitro-common/src/name_registry.rs:958-966 | the hot lookup, none for the unset sentinel and so for clean dead slots |
| `WorkflowCodec.TaskRoundTrip` | crates/arbitro-client-tokio/src/workflow.rs:216-242 | decoding undoes encoding exactly when the instance id is at most 65535 bytes |
| `WorkflowCodec.TaskLayout` | crates/arbitro-client-tokio/src/workflow.rs:207-226 | the bytes of a task field by field: id length, id, step, attempt, context, numbers low byte first |
| `WorkflowCodec.ParkLayout` | crates/arbitro-client-tokio/src/workflow.rs:244-254 | the bytes of a park record field by field: step, state length, state, context, numbers low byte first |
| `WorkflowCodec.DecodedIdLength` | crates/arbitro-client-tokio/src/workflow.rs:216-242 | every encoded task decodes, with id bytes cut to their length modulo 65536 |
| `WorkflowCodec.TaskDecodesUniquely` | crates/arbitro-client-tokio/src/workflow.rs:228-242 | whatever decodes is the encoding of what it decodes to, ids taken as bytes; decoding fails exactly when the payload is shorter than its header |
| `WorkflowCodec.WriteTask` | crates/arbitro-client-tokio/src/workflow.rs:216-226 | the buffer form of the encoder |
| `WorkflowCodec.ParkRoundTrip` | crates/arbitro-client-tokio/src/workflow.rs:247-268 | decoding undoes encoding exactly when the state is under 2^32 bytes |
| `WorkflowCodec.ParkDecodesUniquely` | crates/arbitro-client-tokio/src/workflow.rs:256-268 | whatever decodes is the encoding of what it decodes to |
| `WorkflowCodec.WritePark` | crates/arbitro-client-tokio/src/workflow.rs:247-254 | the buffer form of the encoder |
| `WorkflowIds.MsgIdInjective` | crates/arbitro-client-tokio/src/workflow.rs:923-1350 | a task-stream message id determines the instance, the kind and the numbers in it, colons in the instance id or not |
| `WorkflowIds.LastFieldUnique` | crates/arbitro-client-tokio/src/workflow.rs:923-1350 | the last field of an id can be read back whatever colons come before it |
| `WorkflowIds.IdsAsText` | crates/arbitro-client-tokio/src/workflow.rs:923-1350 | one id of each kind spelled out |
| `WorkflowModel.EveryRunKeepsInv` | crates/arbitro-client-tokio/src/workflow.rs:842-1105 | over every run of triggers, redeliveries, handler outcomes and lost publishes: each stored step task is in range and is the trigger, the retry of the attempt before with the same context, or the successor of the step before; only a trigger can be too large; an acknowledged step task is settled; a compensation is stored only below a step that used up its attempts |
| `WorkflowModel.DeliverKeepsInv` | crates/arbitro-client-tokio/src/workflow.rs:842-1105 | one delivery, to any worker and any number of times, keeps that |
| `WorkflowModel.TriggerKeepsInv` | crates/arbitro-client-tokio/src/workflow.rs:1279-1297 | a trigger keeps that, stored again or not |
| `WorkflowModel.NothingIsLost` | crates/arbitro-client-tokio/src/workflow.rs:900-1105 | once every stored step task of an instance is acknowledged, its last step completed, or a step used up its attempts, or its trigger was too large |
| `WorkflowModel.EndsHappened` | crates/arbitro-client-tokio/src/workflow.rs:904-1072 | what a run records as finished was completed by a handler in that run, with a context that fits, and what it records as dead failed in it |
| `WorkflowModel.InstanceIsBounded` | crates/arbitro-client-tokio/src/workflow.rs:1016-1105 | an instance never stores more than steps * (max_retries + 1) step tasks |
| `WorkflowModel.AttemptsAreStored` | crates/arbitro-client-tokio/src/workflow.rs:1074-1105 | every earlier attempt of a stored step task is stored with the same context |
| `WorkflowModel.StepsAreStored` | crates/arbitro-client-tokio/src/workflow.rs:920-947 | the first attempt of every earlier step is stored, the trigger included |
| `WorkflowModel.ActExtends` | crates/arbitro-client-tokio/src/workflow.rs:920-947 | no step of the protocol removes or replaces a stored task or takes back an acknowledgement |
| `WorkflowModel.CompensateAdds` | crates/arbitro-client-tokio/src/workflow.rs:1042-1062 | an exhausted step adds compensations for the earlier steps, with its context, exactly where the publish was taken and none was stored, and nothing else |
| `WorkflowModel.LosslessRunsCompensate` | crates/arbitro-client-tokio/src/workflow.rs:1042-1062 | in runs that lose no publish, the compensation of a step is stored exactly when some later step of the instance used up its attempts |
| `WorkflowProgress.EveryTaskHasASource` | crates/arbitro-client-tokio/src/workflow.rs:904-1105 | over every run each stored task was put there by an action of the run with the context it calls for: a trigger's own, the failed attempt's for a retry, what a handler of the step before answered for the next step, the exhausted task's for a compensation |
| `WorkflowProgress.DeliverAcknowledges` | crates/arbitro-client-tokio/src/workflow.rs:842-1105 | a delivery acknowledges its own task exactly when it is discarded or ended or its follow-up was taken, and otherwise changes nothing |
| `WorkflowProgress.SuccessMovesOn` | crates/arbitro-client-tokio/src/workflow.rs:905-947 | a success acknowledges the task and stores the next step with the handler's result, or finishes the last |
| `WorkflowProgress.SuccessCompletes` | crates/arbitro-client-tokio/src/workflow.rs:905-950 | an instance completes when each step's handler succeeds once: all its first attempts are acknowledged and the last step is finished |
| `WorkflowProgress.FailureMovesOn` | crates/arbitro-client-tokio/src/workflow.rs:1016-1105 | a failure acknowledges the task and stores its retry with the same context, or after the last attempt compensates every earlier step |
| `WorkflowProgress.FailureCompensates` | crates/arbitro-client-tokio/src/workflow.rs:1016-1105 | a step that fails max_retries + 1 times is dead, all its attempts acknowledged and every earlier step compensated |
| `Workflow.EveryRunMatches` | crates/arbitro-client-tokio/src/workflow.rs:842-1105 | every run on message ids and payload bytes is represented by a run on keys and contexts, action by action |
| `Workflow.DeliverMatches` | crates/arbitro-client-tokio/src/workflow.rs:842-1105 | a delivery decided on the decoded bytes is the delivery of the key the id names |
| `Workflow.EveryStoredMessageIsSound` | crates/arbitro-client-tokio/src/workflow.rs:842-1105 | after any run each stored message decodes, to numbers in range, and its id is the id of what it decodes to, so no step attempt and no compensation index is stored twice; only a trigger can be too large |
| `Workflow.EveryAckIsSettled` | crates/arbitro-client-tokio/src/workflow.rs:920-1105 | after any run an acknowledged step task has its successor or retry stored, or is of the last step and was completed in a delivery of that run, or is the last attempt and failed in one, or is a trigger that is too large |
| `Workflow.EveryStepRunsOnAnAnswer` | crates/arbitro-client-tokio/src/workflow.rs:920-947 | after any run the payload of a later step decodes to the context that a handler answered, in that run, to a delivery of the step before |
| `Workflow.EveryTriggerIsAsGiven` | crates/arbitro-client-tokio/src/workflow.rs:1279-1297 | after any run the payload of a trigger decodes to the context some trigger of that instance gave |
| `Workflow.TriggerIsFaithful` | crates/arbitro-client-tokio/src/workflow.rs:1279-1297 | a trigger is stored as itself exactly when its instance id is at most 65535 bytes |
| `Workflow.TaskStream.Dispatch` | crates/arbitro-client-tokio/src/workflow.rs:842-885 | in place: decode, size guard, compensation and range checks, then the step |
| `Workflow.TaskStream.RunStep` | crates/arbitro-client-tokio/src/workflow.rs:887-1105 | in place: advance, finish, retry or give up, acknowledging only once a follow-up was taken |
| `Workflow.TaskStream.PublishCompensations` | crates/arbitro-client-tokio/src/workflow.rs:1042-1062 | the loop from the last completed step down to step 0 |
| `Workflow.TaskStream.PublishThenAck` | crates/arbitro-client-tokio/src/workflow.rs:935-946 | acknowledge only once the follow-up is queued, otherwise leave it for redelivery |
| `Workflow.TaskStream.TriggerWithId` | crates/arbitro-client-tokio/src/workflow.rs:1279-1297 | the first task of an instance, under its id |

## Left out

- Timing wheels: capacity trimming, `shrink_to_fit`, `Debug` and the plain getters, which do not change behaviour. The `from_level` argument of `place` is always 0. `advance_into` of the flat wheel is `advance` with a reused buffer.
- Timing wheels: `len` counters are unbounded numbers and a bucket's occupancy mask is a number with digit-wise bit operations, not a machine word.
- Timing wheel: what one advance fires depends on the wakes before it, so two advances in a row are not claimed to equal one; the sandwich, the skip law and the agreement of sleeping with ticking are what holds.
- HierarchicalWheel.HierarchicalTimingWheel.Insert: requires the window edge to fit 64 bits, because the source adds 64 to the cursor unchecked; `WindowEdgeFits` says exactly when it does.
- HierarchicalWheel.HierarchicalTimingWheel.AdvanceTo: requires the same of the new clock unless everything stored is due, because nothing is then placed again.
- HierarchicalWheel.HierarchicalTimingWheel.NextExpiryMs: requires the tick of every stored deadline to end within 64 bits, because the source multiplies unchecked.
- Name registry: the create request's quota, hashing of names to wire ids and everything after the registry call.
- Id pool: `with_capacity` and the getters. A snapshot over its cap is accepted, as in the source.
- Name registry: stream quotas and consumer filters, which are not reset on slot reuse, replicas beyond their reset, queue groups, subscriptions and name listings. The mutex and the atomic snapshot swap are modelled as calls that happen one at a time.
- Registry: `HotSnapshot` is compared field by field with the inner state and its sharing between readers is not modelled.
- Subjects: byte strings are not decoded, and the 255-byte limit does not bound the subjects that witness an overlap.
- Workflow: suspending steps, resume, timeout and cancel events and the state stream; they depend on broker fan-out and timers. Their message ids and the park format are modelled.
- WorkflowCodec.DecodedIdLength: is about id bytes, because `from_utf8_lossy` is not modelled; an id cut inside a character can change its length when read as text.
- WorkflowCodec.TaskDecodesUniquely: is about id bytes, because `from_utf8_lossy` is not modelled; an id that is not UTF-8 does not encode to the same payload once read as text. Ids of workflow instances start as text, so in runs with ids of at most 65535 bytes the reading changes nothing.
- Workflow: the dead-letter record and whether its publish succeeded, the subjects of messages, and what compensation handlers do.
- Workflow: a publish that the client takes is stored, once for each message id and for good; the broker's deduplication window is not modelled as expiring.
- Workflow: configurations have 1 to 32767 steps, so that a step number never carries the compensation bit; instance ids in runs have at most 65535 bytes, the length a task can carry.
- Everything else in the repository: engine facade, storage, transport, consumers, cron, authentication, benches and examples.
