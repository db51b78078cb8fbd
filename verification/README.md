# A verified model of walhub's protocols

walhub is a git host whose only database is a versioned object store. This project models the logic that the hosts
share through that store, and the codecs at its edge, in Dafny, and proves what they keep. `dafny verify dfyconfig.toml`
checks everything.

Algorithms that the program runs step by step are methods and classes here, proved against specification functions;
protocols that several hosts run at once are state machines whose runs are arbitrary sequences of steps, so that every
"in any run" below is over every interleaving. The parts:

- **Schedules** (`Calendar`, `Bitmask`, `Cron`, `Slots`, `ScheduleText`, `ScheduleMeaning`): the proleptic Gregorian calendar in whole days, a six-field
  cron over bit masks, its skip-ahead search, the listing of fire times, and the reading of schedule texts.
- **Planning** (`Strategies`, `Entries`, `Resolve`, `Retention`, `RetentionLaws`, `Plan`, `Families`): the strategy table and its
  validation, which entry a slot is cut on, which entries a prune keeps, what a pass builds, what is served.
- **The advertisement list** (`CasMachine`, `ListOps`, `BundleRuns`, `BundleLinks`, `OrderRuns`, `Removals`): the
  compare-and-swap loop under any number of callers, the mutators run in it, and the shape of every list that results.
- **Leases and fallbacks** (`Lease`, `D17`): the build lease between hosts, and the tracker that grants full clones.
- **Events** (`Events`, `EventBridge`, `WakeQueue`): what a log entry says to subscribers, delivery by several bridges
  that share a cursor, and the queue of wake-ups.
- **The git wire** (`Text`, `StringOrder`, `Sorting`, `PktLine`, `PushWire`, `PushReport`, `LsRefs`): pkt-lines and side bands as section "pkt-line Format"
  of gitprotocol-common(5) has them, push requests and reports as gitprotocol-pack(5) has them, ls-refs of
  gitprotocol-v2(5).
- **Checks** (`Checks`, `ChecksIndex`): commit statuses, their record and their index.
- **Caches** (`Lru`): the weighted cache and the reference cache stamped with revisions.

Instants are integers (nanoseconds where the program has a time, seconds since 1970 where it has a slot); masks are
natural numbers whose bits are read by halving; a char stands for one byte on the wire. Integers are unbounded except
in `ScheduleText` and in the slots of `Plan`, where the program's 64-bit wrap-around shows.

## What the proofs turned up

Where the code differs from its comments or documentation the model follows the code, and a lemma states exactly when
the difference shows:

- `Between` stops at the first gap of five years or more. A window is listed whole exactly when it has at most 10,000
  fires and no such gap (`Slots.ListsExactly`); one around a century year without a leap day loses fires of a leap-day
  schedule (`Slots.LongWindowLosesFires`).
- The newest-slots search returns nothing at all once the lookback that decides holds more than 10,000 fires
  (`Slots.NewestSlots`).
- A step close to 2^63 wraps around in the loop over a term's values and selects values below the term's own start
  (`ScheduleText.TermExact`, `ScheduleText.WrappedStepSelectsBelow`), month 0 among them. The schedule is valid all the
  same: the search is proved for every schedule that can be read (`ScheduleText.ParseSchedule`, `Cron.Next`).
- Validation looks for the base of an incremental only. A full strategy that names a base that is not there makes the
  walk over base links read through a nil pointer: a table of one strategy is enough (`Strategies.ATablePanics`). Of
  tables without cycles and mixed filters it panics on exactly those in which some base is not there
  (`Strategies.PanicsExactly`); of the others, where the first walk that fails fails so (`Strategies.ValidateStrategies`).
- A report line of more than 65516 bytes cannot be framed and makes the program panic. `PushReport.FitsExactly` says in
  terms of names and messages which reports that are, and a push that parses leads to one
  (`PushReport.ParsedPushPanicsReport`).
- The documented rule for non-chain incrementals (section 8.10 of docs/go/08_bundles.md: the two newest on kept bases)
  depends on the order of the strategy table: it holds of every list that runs on an empty store reach exactly when
  non-chain bases are listed before the strategies built on them (`OrderRuns.OrderExactOverRuns`). Validation accepts
  tables in another order (`OrderRuns.WrongTableExists`), and then three builds reach a list of which it fails
  (`OrderRuns.WrongOrderIsReached`).
- A removal that loses a write and then finds nothing to remove reports exactly the keys its failed write had lost
  (`Removals.AbortReturnsLiveKeys`), and such a key may belong to a live entry (`Removals.StaleAbortReportsLiveKey`).
  Calls that commit report exactly what they removed.
- Settling drops verdicts of strategies that are not configured, although its comment says to leave them; of the verdicts
  that should stay those are exactly the ones that go (`ListOps.SettlingMissesGoneStrategies`).
- Two hosts hold the build lease at some moment of a run exactly if some step takes it, expired on the taker's clock, from
  a host that is still building (`Lease.ExclusionFailsExactly`). A heartbeat does not look at whose lease it renews, so a
  late one replaces the lease of the host that took over (`Lease.LateHeartbeatOverwrites`; exactly when, in
  `Lease.RenewalReplacesExactly`). And a lost heartbeat cancels only the heartbeats: the build goes on, although the
  comment at internal/bundle/lease.go:78-80 says that it is killed.
- A push from a shallow repository is refused, because "shallow" lines are read as commands, although section 7 of
  docs/go/04_git.md says they are collected: a request parses exactly when it has none (`PushWire.ShallowPushExactly`).
- A name with a no-break space is valid but cannot be pushed; names that can are exactly the valid ones without white
  space (`PushWire.ValidNameWithSpace`, `PushWire.CommandReadsBack`).
- A status that turns from good to bad on an existing record is not notified: the write path keeps the previous record
  by reference and then updates that very record (`Checks.ReportStatus`, `Checks.TransitionMissed`; section 8 of
  docs/features/05_checks_statuses.md asks for it).
- A report writes its record first and its row of the index afterwards, with nothing that relates the two. If another
  report of the context overtakes it in between, the row keeps the older state (`ChecksIndex.OvertakenRowIsWorse`):
  contexts show what landed last (`ChecksIndex.ShowsLastLanded`), and a row claims worse than the records exactly when one
  of its contexts landed last with a state worse than all that are recorded (`ChecksIndex.RowWorseExactly`).

## Model

| member | source | states |
|---|---|---|
| Calendar.DateRoundTrip | internal/bundle/cron.go:286-300 | Reading a day as year, month and day and naming that date gives the day back, and every real date reads back as itself: the calendar arithmetic under `time.Date`, whatever month the search is in. |
| Calendar.NextMonth | internal/bundle/cron.go:286-289 | From the first of a month, adding one month reaches the first of the next at the same clock reading. |
| Calendar.FiveYears | internal/bundle/cron.go:279 | Adding five calendar years moves between 1825 and 1830 days, whatever leap days lie between. |
| Calendar.DateDayExactly | internal/bundle/cron.go:286-300 | The day number of any date in closed form, by leap rule and without counting months. |
| Calendar.WeekdayExactly | internal/bundle/cron.go:262 | Weekdays repeat every seven days, from Sunday the 4th of January 1970, through all months and years. |
| Bitmask.NextSetIsNext | internal/bundle/cron.go:324-334 | The shifted search finds the least set bit above a position, and -1 exactly when there is none. |
| Bitmask.First | internal/bundle/cron.go:88-110 | The least set bit of a mask, or -1 exactly for the empty mask. |
| Cron.Next | internal/bundle/cron.go:275-322 | For every schedule that can be read: the least instant strictly after the given moment that satisfies all masks and the day rule, if one exists before the five-year horizon, and none otherwise; it terminates and the 2,000,000-step guard never decides. |
| Cron.WithinGuard | internal/bundle/cron.go:281-284 | While the search is inside its horizon it has taken fewer steps than the guard allows, because every skip is progress by a day or one of few resets. |
| Cron.ToNextMonth | internal/bundle/cron.go:285-291 | Leaving an excluded month lands on the first of a later admitted month and jumps over no fire. |
| Cron.HourStep | internal/bundle/cron.go:296-303 | Skipping an excluded hour, within the day or to the next, jumps over no fire and is progress. |
| Cron.MinuteStep | internal/bundle/cron.go:304-311 | The same for an excluded minute. |
| Cron.SecondStep | internal/bundle/cron.go:312-319 | The same for an excluded second. |
| Cron.FiresOnDate | internal/bundle/cron.go:258-273 | Of any real date and time: it fires exactly when month and clock are admitted and a restricted day field admits the day, or none is restricted. |
| Cron.EitherDay | internal/bundle/cron.go:261-263 | With both day fields restricted it fires exactly when one of the two schedules with one of them does. |
| Cron.NextOfEither | internal/bundle/cron.go:260-322 | The next fire is then exactly the earlier of the next fires of those two. |
| Cron.OneDay | internal/bundle/cron.go:264-272 | With one restricted the other's mask makes no difference and the restricted one must admit the day. |
| Cron.NextIgnoresUnset | internal/bundle/cron.go:264-322 | The mask of an unrestricted day field does not move the next fire. |
| Cron.HorizonIsFiveYears | internal/bundle/cron.go:279 | From any date and time the horizon is that date and time five years later. |
| Slots.FiresInExact | internal/bundle/cron.go:336-361 | The reference enumeration of a window holds exactly the instants that satisfy the schedule, each once, ascending. |
| Slots.Between | internal/bundle/cron.go:336-361 | Lists the fires of [start, end] that are reachable without a five-year gap, ascending, and reports the cap exactly when more than 10,000 are. |
| Slots.ListsWhole | internal/bundle/cron.go:336-361 | For windows under five years the listing is the whole enumeration, capped exactly above 10,000 fires. |
| Slots.ListsExactly | internal/bundle/cron.go:336-361 | For any window at all, the listing is the whole enumeration if and only if that has at most 10,000 fires and each lies within five years of the one before it, or of the start. |
| Slots.LongWindowLosesFires | internal/bundle/cron.go:344-359 | In a longer window around a century year without a leap day the listing is empty though the window holds a fire. |
| Slots.NewestSlots | internal/bundle/plan.go:40-69 | The last n fires at or before now as the 1024-day window has them, and nothing when the lookback that decides is over the cap. |
| Slots.DecidingIsLongest | internal/bundle/plan.go:48-68 | Which lookback first holds n fires makes no difference to the n it yields. |
| Slots.SlotsFrom | internal/bundle/plan.go:71-84 | The fires from an instant up to now, and none when the listing is capped. |
| ScheduleText.ParseSchedule | internal/bundle/cron.go:112-160 | Accepts exactly the known aliases, in whatever case, and six readable fields; gives masks with exactly the values their terms select and the set flags of the day fields; and what it gives is always valid for the search. |
| ScheduleText.ParseField | internal/bundle/cron.go:162-230 | A field reads exactly when each of its terms does; its mask has a value exactly when some term selects it, Sunday's 7 as 0; it is restricted exactly when some term is more than a star. |
| ScheduleText.AddTerm | internal/bundle/cron.go:218-227 | The loop over a term's values ends, even when its addition wraps around, and sets exactly the bits of the values it stops at. |
| ScheduleText.TermExact | internal/bundle/cron.go:218-227 | Those values are the documented progression if and only if lo + 2*step < 2^64. |
| ScheduleText.WrappedStepSelectsBelow | internal/bundle/cron.go:218-227 | Of any field, the term a by 9223372036854775807 also selects a - 2. |
| ScheduleText.ReadScheduleIsValid | internal/bundle/cron.go:39-42 | Every schedule read from six fields admits some value of every field within its bounds and none above them. |
| ScheduleText.WrappedStepAdmitsMonthZero | internal/bundle/cron.go:172-180 | The month field "2/9223372036854775807" is accepted and admits month 0, and the schedule is valid all the same. |
| ScheduleText.AliasIsValid | internal/bundle/cron.go:56-67 | Every alias is a schedule within bounds. |
| ScheduleText.RangeReads | internal/bundle/cron.go:188-205 | Any range with any step, written in decimal, reads back as itself. |
| ScheduleText.FromReads | internal/bundle/cron.go:206-217 | Any value with a step reads back as running from it to the end of the field. |
| ScheduleMeaning.TermExactly | internal/bundle/cron.go:162-217 | A term is accepted as (from, to, step, restricted) if and only if it is written so: a star, a range or a number in bounds, with or without a positive step; nothing else is accepted. |
| ScheduleMeaning.LoneValue | internal/bundle/cron.go:206-217 | A field that is a number is accepted exactly within the field's bounds, is restricted and admits that number only, of the weekday 7 as 0. |
| ScheduleMeaning.Star | internal/bundle/cron.go:183-187 | A star admits every value of its field and leaves it unrestricted; with a step it restricts it. |
| ScheduleMeaning.PlainRange | internal/bundle/cron.go:188-205 | A range without a step admits exactly what lies between its ends. |
| ScheduleMeaning.TermAdmits | internal/bundle/cron.go:218-227 | A term whose steps do not wrap admits exactly from, from + step, and so on up to its end, Sunday's 7 as 0. |
| ScheduleMeaning.ListAdmits | internal/bundle/cron.go:162-170 | A list is accepted if its parts are, admits what any of them does, and is restricted if any of them is. |
| ScheduleMeaning.NumbersFire | internal/bundle/cron.go:258-273 | The schedule of six numbers fires at exactly the time they say, in the month, on the day of the month or the weekday they say. |
| ScheduleMeaning.DailyText | internal/bundle/cron.go:112-160 | The text "s m h * * *" is accepted exactly if its numbers are a time of day, and then fires at exactly that time of every day. |
| ScheduleMeaning.AliasesAre | internal/bundle/cron.go:59-67 | There are seven aliases. |
| ScheduleMeaning.AliasFires | internal/bundle/cron.go:56-67 | The aliases fire at every hour, every midnight, the midnight of Sundays, of firsts of the month, and of New Year's Day. |
| ScheduleMeaning.LowerAscii | internal/bundle/cron.go:122-130 | Alias names lose the case of their ASCII letters and nothing else. |
| Text.TrimSpaceIs | internal/bundle/cron.go:117 | Trimming takes white space off both ends, all of it and nothing else. |
| Strategies.ValidateStrategies | internal/bundle/strategy.go:115-175 | Of every table: accepted exactly with unique non-empty names, valid fields, an acyclic base graph and one filter per chain; a panic exactly when names and fields are in order and the first walk that does not end comes to a base that is not there; rejected otherwise. |
| Strategies.WalkBases | internal/bundle/strategy.go:159-173 | The walk up the bases ends exactly when the links end and one filter is met, comes to a missing base exactly when the links lead to one through one filter, and is refused otherwise. |
| Strategies.PanicNeedsUnknownFullBase | internal/bundle/strategy.go:127-173 | Whenever it panics, some full strategy names a base that is not in the table. |
| Strategies.PanicsExactly | internal/bundle/strategy.go:159-173 | With names in order, no cycles and one filter along every link, some walk panics if and only if some strategy names a base that is not in the table. |
| Strategies.ATablePanics | internal/bundle/strategy.go:127-173 | Names and fields of a lone full strategy with an unknown base are in order, and its walk panics. |
| Strategies.ChainRoot | internal/bundle/strategy.go:177-189 | The strategy at the top of the base chain, which has no base. |
| Strategies.ValidatedIsSound | internal/bundle/strategy.go:115-175 | A validated table gives what the planner relies on: every strategy is a full, or an incremental with a base; depths exist; chains share a filter. |
| Strategies.WellFormedExactly | internal/bundle/strategy.go:115-175 | Without walks: a table is in order exactly when names and fields are and its strategies can be ranked so that each base is listed, has the same filter and ranks lower. |
| Strategies.AncestorBelow | internal/bundle/strategy.go:159-173 | An ancestor is strictly nearer the root and in the same filter family. |
| Resolve.NewestEntry | internal/bundle/resolve.go:160-180 | Scans the list for the newest entry of a strategy before, or at or before, a slot. |
| Resolve.NewestIsNewest | internal/bundle/resolve.go:160-180 | What it finds is a candidate and no candidate is newer; it finds none only if there are none. |
| Resolve.NewestExactly | internal/bundle/resolve.go:160-180 | Of any list at all, it finds exactly the entry that no other goes before, by slot, then token, then place. |
| Resolve.NewestAncestorEntry | internal/bundle/resolve.go:142-157 | Climbs to the nearest strategy, base upward, with an entry at or before the slot. |
| Resolve.NearestIsAncestor | internal/bundle/resolve.go:142-157 | The entry found belongs to the strategy climbed from or one of its ancestors and is at or before the slot. |
| Resolve.NearestFound | internal/bundle/resolve.go:142-157 | Any entry of any ancestor at or before the slot is enough for the climb to find one. |
| Resolve.NearestExactly | internal/bundle/resolve.go:142-157 | The climb finds exactly the newest entry of the first strategy above that has one at or before the slot. |
| Resolve.BaseIsEarlier | internal/bundle/resolve.go:120-140 | A cut is on the strategy's own chain strictly earlier, or on an ancestor at or before the slot. |
| Resolve.BlockedExactly | internal/bundle/resolve.go:120-140 | A slot is blocked exactly when no ancestor has an entry at or before it and its chain has none before it. |
| Resolve.CutOnTheNewer | internal/bundle/resolve.go:120-140 | Away from the shared instant the cut is on the newer of the two candidates. |
| Resolve.SharedInstantStaysOnChain | internal/bundle/resolve.go:120-140 | Where the nearest ancestor's newest entry is at the very slot, a chain is cut on its own newest entry before it. |
| Resolve.CutExactly | internal/bundle/resolve.go:120-140 | Of any list: an incremental is cut on its own newest entry exactly if it is a chain and no nearest ancestor's entry lies from that one on and before the slot, and on the nearest ancestor's otherwise. |
| Retention.PruneRetention | internal/bundle/plan.go:226-291 | Keeps exactly the entries whose ids are retained, in list order. |
| Retention.KeepFulls | internal/bundle/plan.go:235-247 | Keeps the newest `keep` entries of every full strategy. |
| Retention.CloseChain | internal/bundle/plan.go:248-268 | The loop ends, whatever the order of the list, with exactly the chain entries whose base links lead to a kept id: the least such set. |
| Retention.KeepLoose | internal/bundle/plan.go:269-283 | Each non-chain strategy in table order keeps its two newest entries on bases kept by then. |
| Retention.RetainedIsBaseClosed | internal/bundle/plan.go:226-291 | The base of every retained entry is retained, in the original list and in the pruned one. |
| RetentionLaws.FullRule | internal/bundle/plan.go:235-247 | An entry of a full strategy is retained exactly when fewer than `keep` of that strategy are newer. |
| RetentionLaws.ChainRule | internal/bundle/plan.go:248-268 | An entry of a chain strategy is retained exactly when its base links lead through chain entries to a kept full. |
| RetentionLaws.ChainStep | internal/bundle/plan.go:248-268 | Step by step: an entry of a chain strategy is retained exactly when the entry it names as its base is listed, retained, and of a full or a chain strategy. |
| RetentionLaws.LooseRule | internal/bundle/plan.go:269-283 | An entry of a non-chain strategy is retained exactly when it is among the two newest of its strategy whose base was kept before that strategy's turn. |
| RetentionLaws.LooseCounted | internal/bundle/plan.go:269-283 | Counted out: its base was kept by then, and fewer than two later entries of its strategy had theirs kept. |
| RetentionLaws.PruneIdempotent | internal/bundle/plan.go:226-291 | Pruning a pruned list removes nothing. |
| RetentionLaws.OrderExact | internal/bundle/plan.go:269-283 | The documented rule for non-chain strategies holds of every linked list exactly when the table lists non-chain bases first. |
| RetentionLaws.OrderCounterexample | internal/bundle/plan.go:269-283 | For any table that lists them the other way round, a list of three entries, stamped as builds stamp them, that breaks the rule. |
| RetentionLaws.NonOrphaned | internal/bundle/plan.go:322-358 | Offers the entries that are not orphans (without fulls for catch-up), each once, by ascending token. |
| RetentionLaws.OfferedExactly | internal/bundle/plan.go:322-358 | Offered, and as often as listed, are exactly the entries that are not fulls (for catch-up) and not incrementals whose base is not listed. |
| RetentionLaws.CloneDropsNothing | internal/bundle/plan.go:322-358 | From a pruned list a clone is offered every entry. |
| Families.FamilyFilter | internal/bundle/plan.go:360-375 | Refuses exactly the unknown filters, and otherwise serves the family's entries, each once, by ascending token. |
| Families.FamilyIsClosed | internal/bundle/plan.go:360-375 | What a pruned list serves of a family holds the base of each of its incrementals, in the family, strictly lower in (slot, depth), with a token no greater. |
| CasMachine.NoLostUpdate | internal/bundle/list.go:26-82 | For any callers in any interleaving: every committed value is its author's mutator applied to the value committed just before; no call commits twice; a call that ends otherwise wrote nothing, and an abort was the mutator's answer to some committed value. |
| CasMachine.GivesUpAfterLosses | internal/bundle/list.go:26-82 | In any run a call gives up only after it lost each of its attempts, one more than its retries, to a commit of another since it began. |
| CasMachine.GivesUpExactly | internal/bundle/list.go:26-82 | In any run a call gives up exactly when it has lost one race more than it has retries; errors that can be retried use up none. |
| CasMachine.FailsOnlyOnFaults | internal/bundle/list.go:30-80 | In any run a call fails only if its mutator or one of its requests failed for good; lost races and retryable errors never make it fail. |
| CasMachine.TakeKeepsInv | internal/bundle/list.go:26-82 | Every step of every call keeps the invariant that what a call has read was committed and still stands if the version does. |
| ListOps.UpsertEntry | internal/bundle/list.go:105-135 | Replaces the entry of the same id in place or appends, creating the list if need be. |
| ListOps.PlaceMeans | internal/bundle/list.go:105-135 | Publishing puts the entry in, takes no other id out and keeps ids unique. |
| ListOps.HeaderFilled | internal/bundle/list.go:105-120 | Publishing fills in a missing mode and order, keeps those that are there, and leaves the verdicts alone. |
| ListOps.RemoveEntries | internal/bundle/list.go:140-171 | Drops exactly the named ids, and aborts when the list is missing or nothing matches. |
| ListOps.WithoutMeans | internal/bundle/list.go:148-163 | Exactly the entries of other ids remain, and the length tells whether any went. |
| ListOps.CollectRemoved | internal/bundle/list.go:172-182 | Collects the keys of what went. |
| ListOps.RemovedKeysMean | internal/bundle/list.go:172-182 | A key is collected exactly when it is non-empty, some earlier entry has it and no remaining one does. |
| ListOps.RecordVerdicts | internal/bundle/list.go:184-213 | Puts each verdict in the place of the one of its key or at the end. |
| ListOps.VerdictsKeyed | internal/bundle/list.go:184-213 | One record per (strategy, slot, base): the batch's last of a key stands, records of other keys stay. |
| ListOps.SettleSkipped | internal/bundle/list.go:215-246 | Leaves the standing verdicts and changes nothing else. |
| ListOps.StandingMeans | internal/bundle/list.go:215-246 | Those are exactly the verdicts whose strategy is configured, whose slot is in its window and has no entry, and whose base is still the slot's (or the slot is blocked), as often and in the order they were. |
| ListOps.StandsExactly | internal/bundle/list.go:222-241 | In terms of the list and the table: a verdict stands exactly when its strategy is configured, its window has the slot, no entry is listed for it, and whatever the slot would now be cut on is what the verdict names. |
| ListOps.StandingKeepsKeys | internal/bundle/list.go:215-246 | Settling brings no verdict in and no second one of a key. |
| ListOps.SettlingMissesGoneStrategies | internal/bundle/list.go:222-241 | Of the verdicts the comments say to keep, exactly those of strategies that are not configured are dropped, and none is kept that should not be. |
| BundleRuns.SettleAndPrune | internal/bundle/list.go:248-281 | The mutator of a pass: settled verdicts and retained entries, written even when nothing changed. |
| BundleRuns.BuildIsCut | internal/bundle/build.go:143-150 | Whatever list a build looked at, however stale, the entry it publishes is properly cut and stamped. |
| BundleRuns.BuildsExactly | internal/bundle/build.go:143-150 | What a build publishes from any list: the strategy's entry for the slot, on nothing for a full and on exactly that one base for an incremental; nothing if there is none. |
| BundleRuns.MutatorKeepsGood | internal/bundle/list.go:105-293 | Every mutator turns a list of properly cut entries into one. |
| BundleRuns.EveryListIsGood | internal/bundle/build.go:339-356 | In any run of builds on stale views, removals, verdicts and prunes, every committed list holds only properly cut entries with unique ids. |
| BundleRuns.EveryListIsKeyed | internal/bundle/list.go:184-213 | In any run, every committed list holds one verdict per (strategy, slot, base), if the initial one does. |
| BundleRuns.GivesUpAfterNine | internal/bundle/list.go:110-111 | A call on the list gives up only after nine others committed since it began. |
| BundleLinks.LinkGoesBefore | internal/bundle/resolve.go:120-140 | In such a list every base link strictly descends by (slot, depth), does not raise the token and stays in the family. |
| BundleLinks.WalkDescends | internal/bundle/resolve.go:120-140 | A walk along base links never repeats, never raises the token, stays in one family and ends at a full or a removed base. |
| BundleLinks.PrunedWalkEndsAtFull | internal/bundle/plan.go:226-291 | After a prune every walk ends at a full. |
| BundleLinks.EveryWalkDescends | internal/bundle/list.go:26-82 | In every list of every run, walks strictly descend, never raise the token, stay in one family and end at a full or a removed base. |
| BundleLinks.EveryPruneEndsAtFulls | internal/bundle/list.go:248-281 | In the list a prune commits, in any run, every walk ends at a full. |
| BundleLinks.GoodIsLinkedUp | internal/bundle/resolve.go:120-140 | In a list of properly cut entries the base of a non-chain entry belongs to a strategy above its own. |
| BundleLinks.EveryListKeepsPromise | internal/bundle/plan.go:269-283 | Of a table that lists non-chain bases first, pruning any list reached in any run keeps, of each non-chain strategy, exactly the two newest on kept bases. |
| OrderRuns.OrderExactOverRuns | internal/bundle/plan.go:269-283 | Of any valid table: pruning keeps of each non-chain strategy exactly the two newest on kept bases, in every list that any run on an empty store reaches, if and only if non-chain bases are listed first. |
| OrderRuns.WrongOrderIsReached | internal/bundle/build.go:143-150 | Otherwise three builds, each on the list the one before committed, reach a list of which it fails. |
| OrderRuns.WrongTableExists | internal/bundle/strategy.go:115-175 | Validation accepts tables in the wrong order. |
| Removals.CommitReturnsDifference | internal/bundle/list.go:140-182 | A removal or prune that commits returns exactly the keys in the predecessor and absent from the successor. |
| Removals.AbortReturnsLiveKeys | internal/bundle/list.go:140-182 | A removal that aborts wrote nothing, and there is a committed list it aborted on such that it returns exactly the keys of that list which its last failed write did not hold. |
| Removals.StaleAbortReportsLiveKey | internal/bundle/list.go:141-171 | A run in which it returns the key of a live entry. |
| Plan.PlanWindows | internal/bundle/plan.go:14-38 | At any moment, every strategy's window: the newest keep for fulls, the newest two for non-chain, from the newest base bundle for chains, as unsigned seconds; strictly ascending from day 1024 of 1970 on. |
| Plan.StoredSlotsFire | internal/bundle/plan.go:40-69 | The instant a planned slot is read back as, also before 1970, is a fire of the schedule at or before now, for moments that signed seconds hold. |
| Plan.StoredSinceFire | internal/bundle/plan.go:71-84 | The same of a chain's slots, none of which is before the slot the window starts from. |
| Plan.PlanStates | internal/bundle/plan.go:103-171 | One row for every slot of every window with the state its first matching rule gives, sorted by strategy and slot. |
| Plan.ClassifiedExactly | internal/bundle/plan.go:103-171 | For each of the eight states, exactly when a slot is shown in it, in terms of entries, verdicts, host, first state, time, and what it could be cut on. |
| Plan.PlanShowsExactly | internal/bundle/plan.go:103-171 | The plan has a row exactly for each slot of each strategy's window, in the one state those say. |
| Plan.BackfillPlan | internal/bundle/plan.go:193-224 | Per strategy in table order, what is missing, oldest first, up to the strategy's budget. |
| Plan.BackfillExactly | internal/bundle/plan.go:193-224 | A slot is built in a pass exactly when it is missing in those terms and, under a budget, fewer missing slots than it allows come before it in the window. |
| Plan.BackfillInOrder | internal/bundle/plan.go:193-224 | Builds come in table order and, of one strategy, oldest slot first. |
| Plan.BackfillIsOldestMissing | internal/bundle/plan.go:193-224 | What a pass finds missing is exactly what the plan's rows show missing, ascending, so the budget takes the oldest. |
| Lease.AcquireReplacesTested | internal/bundle/lease.go:33-76 | In any run a host that comes to hold the lease created it where there was none, or replaced exactly the lease it tested: its own, or one expired on its clock, with the next epoch. |
| Lease.ReleaseDeletesOwn | internal/bundle/lease.go:110-130 | In any run a release deletes only a lease that names the host that deletes it. |
| Lease.OneHolder | internal/bundle/lease.go:33-131 | With clocks at most two seconds apart and heartbeats in time, at most one host holds the lease. |
| Lease.StepNamesExactly | internal/bundle/lease.go:33-131 | Of any step: while the stored lease names whoever holds it, it still does afterwards if and only if the step does not take it from a host that builds. |
| Lease.ExclusionFailsExactly | internal/bundle/lease.go:33-131 | In any run, whatever the clocks and heartbeats, there is a moment when two hosts hold the lease if and only if some step takes it, expired on its clock, from a host that still builds. |
| Lease.RenewalReplacesExactly | internal/bundle/lease.go:88-108 | In any run a renewal replaces another host's lease if and only if the lease at the version it pinned names another host and the version is unchanged. |
| Lease.LateHeartbeatOverwrites | internal/bundle/lease.go:88-108 | From any empty store, for any two hosts with close clocks: a run in which one takes over from the other and the other's late heartbeat then replaces its lease, both hosts holding it. |
| Lease.OthersCannotTake | internal/bundle/lease.go:45-75 | While a host holds the lease in time no step of another touches it. |
| Lease.AcquireAlone | internal/bundle/lease.go:33-76 | A host that nobody disturbs gets the lease for 1800 seconds by its clock, with the next epoch, if there is none, it is its own or it expired more than two seconds ago, and otherwise leaves it as it is. |
| Lease.HeartbeatAlone | internal/bundle/lease.go:88-108 | A heartbeat that nobody disturbs renews the stored lease for 1800 seconds with the next epoch. |
| Lease.ReleaseAlone | internal/bundle/lease.go:110-130 | The end of a build deletes the lease exactly if it names the host. |
| Lease.BuildsOn | internal/bundle/lease.go:78-109 | A host that builds goes on until it ends its build, whatever becomes of the lease. |
| Lease.GivesUpAfterFour | internal/bundle/lease.go:35-76 | In any run a host that gives up on a lost race has lost four, each to another change of the lease since it began. |
| Lease.FourthLossEnds | internal/bundle/lease.go:35-76 | In any run a host that loses a race gives up exactly if it is the fourth since it began to acquire, and tries again otherwise. |
| D17.D17Tracker.RecordListFetch | internal/bundle/advertise.go:145-159 | Stamps the key's list fetch, making room by dropping the oldest keys if it is new. |
| D17.D17Tracker.EvictIfNeeded | internal/bundle/advertise.go:207-217 | Drops oldest keys until there is room for one more. |
| D17.D17Tracker.Decide | internal/bundle/advertise.go:161-180 | Grants exactly when the list was fetched within the hour and no fallback within six, and remembers the grant. |
| D17.D17Tracker.Sweep | internal/bundle/advertise.go:182-205 | Drops exactly the keys idle for more than six hours, keeping the order of the rest. |
| D17.OrderEnumerates | internal/bundle/advertise.go:145-217 | After any calls the insertion order lists every tracked key once, and there are at most 100,000. |
| D17.EvictedExactly | internal/bundle/advertise.go:207-217 | Making room drops the oldest keys, as many as it takes to leave 99,999, and touches no other. |
| D17.GrantedExactly | internal/bundle/advertise.go:161-180 | For any calls: unless the cap pushed the key out, a fallback is granted if and only if the key last fetched the list at most an hour ago and was last granted one at least six hours ago or never. |
| D17.GrantsSixHoursApart | internal/bundle/advertise.go:161-180 | Unless the cap pushed the key out, two grants to one (repo, principal) are at least six hours apart in any run. |
| D17.SweepUnobservable | internal/bundle/advertise.go:182-205 | Below the cap, a tracker that sweeps decides as one that never did. |
| D17.NextAlike | internal/bundle/advertise.go:145-205 | The step of that bisimulation: alike trackers decide alike and stay alike whatever the call. |
| Events.EventsFromEntry | internal/events/event.go:119-167 | The events of an entry in recorded order. |
| Events.EventReplaysExactly | internal/events/event.go:91-117 | Following an update's event does what the update does, exactly when the update does not claim a present reference absent and keeps it so, nor keeps a value the reference does not have. |
| Events.EventsReplayLog | internal/events/event.go:119-167 | Over any stretch of a log whose old values match, following the events gives the references the log itself leads to. |
| Events.EventsUndoLog | internal/events/event.go:119-167 | And taking the events back in reverse gives the references there were before. |
| Events.EntryEventsExactly | internal/events/event.go:119-167 | The events of an entry are exactly what its updates say: what happened to which reference of which type, from and to what, by whom, in which repository and entry; for pushes and reference updates only. |
| EventBridge.AtLeastOnce | internal/events/bridge.go:185-277 | In any run every entry the cursor has passed has reached every sink with every event, unless the cursor was seeded past it, or it was folded already when a catch-up found the cursor below it and reported the gap, or when one found no cursor, none having been seeded. |
| EventBridge.NothingSkipped | internal/events/bridge.go:239-261 | A sink given an event already has every event of every earlier entry, with the same exceptions. |
| EventBridge.CursorNeverRegresses | internal/events/cursor.go:54-75 | In any run the cursor never goes back. |
| EventBridge.CursorMovesAfterDelivery | internal/events/bridge.go:239-260 | The cursor is moved only by a bridge all of whose batch every sink has, from the value it loaded to the head it saw. |
| EventBridge.UndisturbedCatchUp | internal/events/bridge.go:185-261 | A catch-up that nothing disturbs brings the cursor to the head. |
| EventBridge.TakeKeepsInv | internal/events/bridge.go:185-277 | Every step of any bridge, any append and any folding keeps the invariant behind these. |
| EventBridge.LoadSettles | internal/events/bridge.go:202-229 | Where a catch-up starts to read, everything below is delivered or excused. |
| EventBridge.ReadsFrom | internal/events/bridge.go:202-229 | A catch-up delivers from the entry after the cursor, or the first that is not folded if that is later or there is no cursor, and stops where that is past the head. |
| EventBridge.GapExactly | internal/events/bridge.go:214-224 | It reports a gap exactly when it finds a cursor with folded entries above it, and exactly those. |
| WakeQueue.Bridge.Wake | internal/events/bridge.go:108-125 | Queues the repository, and answers "queued", exactly when it is not pending and there is room. |
| WakeQueue.Bridge.Take | internal/events/bridge.go:153-160 | Takes the received repository out of the pending set as its catch-up begins. |
| WakeQueue.PendingExactly | internal/events/bridge.go:108-160 | In every state the channel holds no repository twice and at most 64, and pending is exactly the queued and the one received but not taken. |
| WakeQueue.WakeIsServed | internal/events/bridge.go:108-160 | A wake-up that leaves its repository pending is followed by a catch-up that begins after it, by the 65th the goroutine takes. |
| WakeQueue.OnlyFullDrops | internal/events/bridge.go:117-124 | A wake-up is lost exactly when the repository is not pending and 64 others are queued. |
| Text.FieldsJoined | internal/git/receive.go:106 | Splitting at white space undoes joining with spaces. |
| Text.FieldsAreWords | internal/git/receive.go:106 | What splitting yields is never empty and has no white space of any kind. |
| Text.SpaceWidthExactly | internal/git/receive.go:106 | Of all text in UTF-8 of the basic plane: it begins with white space exactly when its first code point is one that Unicode calls so. |
| PktLine.PktReader.Next | internal/git/pktline.go:74-110 | Reads one frame off the front, or the end, or the precise error, and leaves exactly the rest. |
| PktLine.ParseHex4 | internal/git/pktline.go:112-129 | The number some hexadecimal digits of either case stand for, or none. |
| PktLine.HexExactly | internal/git/pktline.go:112-129 | A digit of either case stands for its place among the sixteen, and no other byte for any number. |
| PktLine.RefusedExactly | internal/git/pktline.go:74-110 | A stream is refused exactly when it is shorter than a header or than its header says, or the header is no number, 3 or more than 65520. |
| PktLine.DecodedEncoded | internal/git/pktline.go:26-64 | Reading undoes writing for every kind of frame and takes nothing of what follows. |
| PktLine.ReaderInverts | internal/git/pktline.go:74-110 | A stream of encoded frames decodes to those frames and a clean end. |
| PktLine.RewriteKeepsLength | internal/git/pktline.go:74-110 | Written again, a stream that ended cleanly has the same length: only the case of digits is lost. |
| PktLine.ReadAllPkts | internal/git/pktline.go:131-152 | The data payloads before the first flush, end or error. |
| PktLine.PayloadsRoundTrip | internal/git/pktline.go:131-152 | Payloads and a flush read back exactly, and the rest is left unread. |
| PktLine.EncodeSideband | internal/git/pktline.go:154-174 | Cuts a payload into frames of one band. |
| PktLine.BandedFrames | internal/git/pktline.go:154-174 | Those frames are all data on the band, none empty, none over 65520 bytes, and no more than needed. |
| PktLine.SidebandDecode | internal/git/pktline.go:176-203 | Concatenates band 1 into the payload and bands 2 and 3 into the messages, up to a flush, end or error. |
| PktLine.UnbandedBanded | internal/git/pktline.go:154-203 | A payload of any length sent on a band arrives whole on that band, before whatever follows. |
| PktLine.SidebandRoundTrip | internal/git/pktline.go:154-203 | The decoder inverts the encoder, with and without a flush. |
| PktLine.OtherBandEnds | internal/git/pktline.go:176-203 | A frame on any other band ends the transfer with an error. |
| PushWire.ParsePushRequest | internal/git/receive.go:44-134 | Commands up to a flush, options if announced, and the rest as the pack, with the error of the first line that has one. |
| PushWire.ParsePushCommands | internal/git/receive.go:78-134 | The same on a reader, which it leaves at the first byte of the pack. |
| PushWire.ValidNameExactly | internal/git/refs.go:27-55 | By positions and bytes: a name is valid exactly if it is HEAD or lies under refs/, has no forbidden byte, no two dots or slashes in a row, no brace after an at sign, and does not end in a slash, a dot or ".lock". |
| PushWire.ParsedNamesAdmissible | internal/git/receive.go:79-134 | Whatever bytes are sent, a push that parses names such references only, and no value or name has white space. |
| PushWire.CommandLineExactly | internal/git/receive.go:106-113 | A line of words is a command exactly if there are three and the last is such a name, with the error that tells the two apart. |
| PushWire.PushTakenExactly | internal/git/receive.go:44-134 | A request of commands with any names arrives as it was sent if all are valid, and is refused for its names otherwise. |
| PushWire.CheckObjectFormat | internal/git/receive.go:136-146 | Refuses exactly when some object-format capability names another format. |
| PushWire.PushRoundTrip | internal/git/receive.go:44-134 | A request as a client sends it, with or without newlines, parses back to the same commands, capabilities and options and leaves exactly the pack. |
| PushWire.CommandReadsBack | internal/git/receive.go:106-113 | A command line reads back as its command if and only if the name is valid and has no white space. |
| PushWire.ValidNameWithSpace | internal/git/refs.go:27-55 | The validity rule alone admits a name that does not read back. |
| PushWire.ShallowPushRefused | internal/git/receive.go:96-109 | A request that begins with a "shallow" line is refused. |
| PushWire.ShallowPushExactly | internal/git/receive.go:79-134 | A proper request after any number of "shallow" lines parses, and then to just what was sent, if and only if there are none. |
| PushReport.EncodeReport | internal/git/receive.go:178-204 | The report's lines as pkt-lines and a flush, wrapped in band-1 frames and a flush if side bands were negotiated; a panic exactly when some line is longer than a pkt-line carries. |
| PushReport.FitsExactly | internal/git/pktline.go:38-44 | A report can be written if and only if its unpack message and each name with its reason leave their lines, newline included, within 65516 bytes. |
| PushReport.ShortReportsFit | internal/git/receive.go:182-194 | Every report is written whose unpack message is at most 65505 bytes and whose names with reasons are at most 65511. |
| PushReport.ParsedPushPanicsReport | internal/server/bind_ssh.go:262-272 | A push of one reference with a valid name of 65,500 bytes under refs/pull/ is parsed as it was sent, and the report that refuses it panics. |
| PushReport.ReportRoundTrip | internal/git/receive.go:178-207 | Of every report that is written, a client that reads it as gitprotocol-pack(5) says learns exactly what the server decided, of the unpacking and of each reference, past any messages on band 2. |
| LsRefs.LowerBound | internal/git/advert.go:253-265 | The index that divides the names below the prefix from the others. |
| LsRefs.LsRefs | internal/git/advert.go:146-244 | The binary searches over sorted prefixes and the seen set give HEAD's line and then the plain linear filter of the snapshot. |
| LsRefs.HeadResponse | internal/git/advert.go:166-201 | HEAD's line exactly when no prefix is given or one covers HEAD or its target, before any filtering. |
| LsRefs.HeadExactly | internal/git/advert.go:155-201 | HEAD's one line, exactly: its value, else that of its target, else "unborn" for a client that asks, and the target for a client that asks; none unless no prefix is given or one begins HEAD or the target. |
| LsRefs.ResponseIsFilter | internal/git/advert.go:203-244 | For any prefixes in any order with any repetition: exactly the references some prefix begins, each once, in snapshot order. |
| LsRefs.HeadWithTarget | internal/git/advert.go:146-175 | A client that is shown HEAD's target is shown HEAD first, with the target's value. |
| LsRefs.ScanAdds | internal/git/advert.go:219-239 | A new match comes after everything smaller prefixes have matched, so the order of the snapshot is kept. |
| LsRefs.Get | internal/git/refs.go:84-91 | The binary search by name finds the reference of that name, and none exactly if there is none. |
| LsRefs.ResponseReadBack | internal/git/advert.go:155-243 | A client reads back the lines of the response, and from the lines of references exactly their values, names and what they peel to. |
| Checks.CombinedState | internal/checks/model.go:188-204 | The worst of the states, pending for none. |
| Checks.CombinedIsWorst | internal/checks/model.go:188-204 | It is one of the states and none ranks worse. |
| Checks.CombinedMonotone | internal/checks/model.go:188-204 | Fewer contexts are never worse, and the same set is the same whatever its order. |
| Checks.CombinedExactly | internal/checks/model.go:188-204 | Error if any context errs; else failure if any fails; else pending if any is or there are none; else success. |
| Checks.ReportsCounted | internal/checks/service.go:201-254 | For any reporters on one (commit, context) in any interleaving: version counts the writes, creator and creation time stay the first's, the record is the last committed report's, and a reporter that ran out of attempts wrote nothing and lost five to others. |
| Checks.ReportStatus | internal/checks/service.go:214-273 | The write path without races writes the created or updated record, and notifies only of a bad state on a first report. |
| Checks.TransitionMissed | internal/checks/service.go:269-272 | It falls short of the documented rule exactly when an existing good record turns bad. |
| ChecksIndex.IndexDoc.Upsert | internal/checks/service.go:591-636 | The reported commit's row, with its contexts sorted and its state re-derived, moves to the front or is put there. |
| ChecksIndex.IndexDoc.Compact | internal/checks/service.go:644-690 | Cuts the index to the hot window and the size limit and says whether it cut anything. |
| ChecksIndex.TrimmedIs | internal/checks/service.go:667-675 | What remains is the longest run of newest rows within both. |
| ChecksIndex.AlwaysShaped | internal/checks/service.go:591-690 | After any reports and compactions commits are listed once, contexts are sorted and named once, and each state is the worst of its contexts. |
| ChecksIndex.NewestFirst | internal/checks/service.go:591-690 | The index lists a prefix of the commits ordered by newest report. |
| ChecksIndex.RowsNeverWorse | internal/checks/service.go:591-690 | No row ranks worse than the commit's true combined state, and rows of commits never cut off have exactly that state and are there. |
| ChecksIndex.ShowsLastLanded | internal/checks/service.go:255-261 | In whatever order index updates land and whichever are given up, a context of a row shows the state its last update carried, so the recorded state if and only if that carried it. |
| ChecksIndex.RowWorseExactly | internal/checks/service.go:591-636 | A row ranks worse than the commit's recorded contexts do together if and only if one of its contexts is worse than every recorded one. |
| ChecksIndex.CurrentRowsNeverWorse | internal/checks/service.go:591-690 | A row none of whose contexts was overtaken ranks no worse than the records. |
| ChecksIndex.OvertakenRowIsWorse | internal/checks/service.go:214-261 | When a second report is written and indexed between the first's record and its index update, the row ends as failed while the record says success. |
| ChecksIndex.RacesAreSequential | internal/checks/service.go:555-589 | Reports and compactions that race on the index leave it as if those that committed had run one after another. |
| ChecksIndex.UpdateGivenUp | internal/checks/service.go:550-589 | An index update that is given up wrote nothing and lost five attempts to others. |
| Lru.Cache.Get | internal/api/cache.go:84-94 | Returns the entry of the key if there is one and moves it to the front; list, index and weight stay in step. |
| Lru.Cache.Put | internal/api/cache.go:96-121 | Replaces the key's entry, at the front, unless it could never fit, and evicts from the back; list, index and weight stay in step and within budget. |
| Lru.FittingExactly | internal/api/cache.go:111-120 | What eviction leaves is a prefix of the recency order, and an entry is in it exactly if it and everything newer fit together. |
| Lru.HitsAreCurrent | internal/api/cache.go:84-121 | After any calls keys are distinct, the weight is within budget and every entry is the last one stored under its key. |
| Lru.KeptWhileRecent | internal/api/cache.go:84-121 | A stored value is not evicted before the entries touched since, with it, outweigh the budget. |
| Lru.RefCache.Get | internal/api/cache.go:133-144 | Hits exactly when the entry is stamped with the asked revision. |
| Lru.RefCache.Put | internal/api/cache.go:146-149 | Stores the value with its revision at weight one. |
| Lru.RefKeyInjective | internal/api/cache.go:131 | Keys of different references differ, when repository names have no NUL. |
| Lru.HitsOnlyAtRevision | internal/api/cache.go:123-149 | After any calls a hit means the reference was last stored at that very revision with that value. |

## Left out

- Git subprocesses (ingest, repack, connectivity, bundle creation), the log engine, store backends, protobuf and JSON
  encodings, HTTP, authentication and policy: foreign code or plumbing; their outputs are inputs here.
- Timestamps of last change, object hashes, tips and sizes of bundles, and the gates on unchanged tips and commit counts
  (internal/bundle/build.go:173-213): a build may publish whenever it is not blocked, which only adds runs.
- Selection of references by glob (internal/bundle/strategy.go:205-234) and comparison of tip sets.
- Entry ids are pairs of strategy and slot rather than their text, which is different for different pairs in years 0 to
  9999.
- The store: a version is never used again, and a request that fails with a retryable error was not applied. For the
  event cursor a write that was applied and answered with an error is the same as one that succeeded.
- Backoff, sleeping and cancellation: a caller may stop for any length of time between any two steps, or for good.
- Library sorts are insertion sorts here, where the keys sorted are distinct or the result is stated up to order.
- The render cache with its single flight and timed join (internal/api/cache.go:156-219).
- The v0 advertisement, parsing of ls-refs arguments and building of the snapshot (internal/git/advert.go:55-144,
  internal/git/refs.go:150-218): easy members.
- Metrics, log lines and the texts of error messages; errors are told apart where callers can.
- BundleRuns.EveryListIsGood: the windows that settle verdicts are a parameter of a prune, and the table stays fixed in a run.
- Lease.OneHolder: assumes that every heartbeat and acquisition lands before the expiry it renews, which the code does
  not enforce; what holds without the assumption is Lease.ExclusionFailsExactly. A host is one holder that runs one build
  of a strategy at a time: internal/bundle/lease.go:62-65 gives a live lease again to the host it names, so two builds on
  one host would both go on and the first to finish would release the lease of both.
- LsRefs.LsRefs: gives the lines of the response; lines over the pkt-line limit, at which the program panics, are
  excluded where they are encoded.
- LsRefs.ResponseReadBack: for snapshots whose values and names have no white space.
- PushReport.ReportRoundTrip: for messages that do not end in a newline of their own and names without spaces.
- Plan.StoredSlotsFire: from about 292 billion years before 1970 to as long after it, where signed seconds end.
- Strategies.PanicsExactly: of the walks; whether names and fields are in order is decided before them.
- ChecksIndex.IndexDoc.Compact: the encoded size of the index is a parameter.
- ChecksIndex.RowsNeverWorse: for reports whose index update lands, one after another; what holds when updates are given
  up or overtaken is ChecksIndex.ShowsLastLanded and ChecksIndex.RowWorseExactly.
- ChecksIndex.IndexDoc.Upsert: commit names are compared exactly, as they are stored in lower case.
- Checks.ReportStatus: the transition is modelled without races, as the notification after a race is best effort.
- Lru.HitsOnlyAtRevision: for repository names without a NUL byte.
