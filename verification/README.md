# Feature and sprint planning core, in Dafny

This project models the planning logic of a delivery dashboard. The dashboard keeps:

- a backlog of **features**, each with dates, points, cost, programs and a platform;
- a list of **sprints**, each with dates, capacity and an optional closure flag;
- **allocations**, which tie a feature's points to sprints by sprint id;
- a **run-rate** table of monthly spend per platform;
- an **audit log** of edits.

The model covers:

- the helper library (`utils.ts`): priority ranking and sorting, list reordering, the feature and log filters, working days, the month grid and date positions, the monthly cost schedule, the cost-versus-spend comparison, cost by program, allocated points, sprint overlap, date derivation from sprints, and the audit description;
- the session handlers of `App.tsx`: add, update, delete and reorder features; add, update and delete sprints (with the allocation cascade); edit the run-rate; scope the lists to a platform;
- the logic of the two editors (`components/SprintDrawer.tsx`, `components/FeatureDrawer.tsx`);
- the logic of the delivery board (`components/TimelineView.tsx`);
- the logic of the run-rate table (`components/TeamView.tsx`).

Each operation is a pure function, or a method where the source loops. Its contract says what the result means. Lemmas relate operations to each other, and to independent reference definitions:

- the cost a program receives versus the accumulated map;
- the cost of a month bucket versus the rows of the schedule;
- the set of working days versus the day-by-day count.

Modelling choices:

- **Dates.** A date is the triple written in a `YYYY-MM-DD` text (`Dates.Date`). It is a real day when it names a day of the proleptic Gregorian calendar. The clock is a day number. A time that JavaScript would read as `NaN` (an impossible day such as month 13, or an unreadable text) is `None`, and every comparison with it is false, as in the source. All dates are taken in UTC.
- **Failures.** A conversion that throws in the source (`toISOString` of an invalid time) is a `Result.Err`, which callers propagate.
- **Inputs from outside.** Randomness and the wall clock are parameters: a log entry's id and time (`Session.Stamp`), a new sprint's id, and "today".
- **Equality.** Equality of JSON texts is modelled as equality of values, since the records serialise injectively.

Where the stored data and the code disagree, the model follows the code:

- `Sprint` in `types.ts` has no `system` field, but `App.tsx` and `TimelineView.tsx` read and write one. The model gives sprints an optional platform.
- The delete handlers write a log entry only when the id is found.

## Model

| member | source | states |
|---|---|---|
| Backlog.PriorityScore | utils.ts:3-11 | the rank is at most 3 and is 0 exactly for Critical |
| Backlog.PriorityScoreOrder | utils.ts:3-11 | Critical < High < Medium < Low, and equal ranks mean equal priorities |
| Domain.NamesAreDistinct | types.ts:1-20 | the text names of priorities, statuses and platforms are pairwise distinct |
| Backlog.SortByPriority | utils.ts:13-15 | the result is a permutation of the input, ordered by rank, and features of equal rank keep their relative order (stable sort) |
| Common.SortIsStable | utils.ts:14 | the sort keeps the relative order of entries with the same key |
| Backlog.SpliceIndex | utils.ts:17-22 | a splice index is clamped into the list, with negative indices counting from the end; in-range indices are unchanged |
| Backlog.RemoveAt | utils.ts:19 | removing one entry shortens the list by one and loses exactly that element |
| Backlog.InsertAt | utils.ts:20 | inserting puts the element at the index and leaves the rest of the list around it |
| Backlog.Reorder | utils.ts:17-22 | reorderList is a permutation: the moved element lands at the clamped target, and the other elements keep their order |
| Backlog.ReorderInPlace | utils.ts:17-22 | moving an entry to its own position changes nothing |
| Backlog.ReorderUndo | utils.ts:17-22 | moving an entry away and back restores the list |
| Backlog.FilterFeatures | utils.ts:24-36 | a feature is kept exactly when it passes the status, owner-substring (case-insensitive) and system filters, in backlog order |
| Common.Lower | utils.ts:32 | lower-casing keeps the length and maps each character on its own |
| Backlog.NeutralFiltersKeepAll | utils.ts:31-33 | with 'All', an empty owner text and 'All', every feature is kept |
| Backlog.FilterLogs | utils.ts:282-294 | exactly the matching entries, newest first, with entries of equal time keeping their order |
| Backlog.FeatureStats | utils.ts:224-232 | total points; the mean times the count is the total; critical, high and in-progress counts are the sizes of the matching subsets |
| Backlog.PriorityCountsDisjoint | utils.ts:228-229 | the critical and high counts never exceed the number of features together |
| Backlog.ProgramReadiness | utils.ts:204-208 | 0 for no features, otherwise, in exact arithmetic, the whole percentage nearest to completed/total with halves rounded up; always 0..100 (the binary64 rounding is left out) |
| Backlog.RoundedPercent | utils.ts:207 | Math.round(c / n * 100) taken in exact arithmetic: the integer within half of 100c/n, halves rounded up (the binary64 rounding is left out) |
| WorkingDays.Holidays | utils.ts:39-50 | the holiday table by month argument, every day in 1..31 |
| WorkingDays.NormalMonth | utils.ts:52-53 | `new Date(year, month, 1)` rolls an out-of-range month into the neighbouring year; years 0 to 99 are not shifted to 1900 onwards (left out) |
| WorkingDays.CountIsSetSize | utils.ts:57-65 | the running count equals the size of the set of weekdays that are not holidays |
| WorkingDays.MonthWorkingDays | utils.ts:38-67 | a month's count is the size of its working-day set and at most its length |
| WorkingDays.CanadianWorkingDays | utils.ts:57-66 | the day-by-day loop computes the month's working-day count |
| WorkingDays.September2026 | testing/suite.ts:59-66 | September 2026 (month index 8) has 20 working days |
| Timeline.FeatureDates | utils.ts:94 | both dates of every feature, start before end, in backlog order |
| Timeline.MonthsBetween | utils.ts:104-107 | the loop lists every month from the first bound to the last, none when they are inverted |
| Timeline.TimelineMonths | utils.ts:86-109 | no grid without bounds; otherwise consecutive months from the first bound to the last |
| Timeline.GridCoversFeatures | utils.ts:94-102 | with real dates and no window, every feature's start and end month lies inside the grid |
| Timeline.GridEmpty | utils.ts:94-97 | without a window the grid is empty exactly when there are no features or a date is NaN |
| Timeline.Clamp | utils.ts:129 | the clamp lands in 0..100 and is the identity inside it |
| Timeline.DatePosition | utils.ts:111-130 | 0 with no months, and 0 when the window is empty or inverted; otherwise, when defined, a percentage in 0..100 |
| Timeline.DatePositionUndefined | utils.ts:113-128 | the position is NaN exactly when a window end is NaN, or the window is positive and the date is NaN |
| Timeline.DatePositionMonotone | utils.ts:126-129 | a later date never sits further left |
| Timeline.PositionInWindow | utils.ts:126-129 | inside a positive window a real day sits at its clamped share of the window, in exact arithmetic |
| Timeline.GridEnds | utils.ts:120-129 | without a window, the first day of the first month is at 0 and the last day of the last month at 100 |
| Allocations.SumPointsAppend | utils.ts:200-202 | allocated points add up over concatenated allocation lists |
| Allocations.WithoutSprint | components/SprintDrawer.tsx:157 | dropping a sprint's allocations keeps exactly the others and leaves none to the sprint |
| Allocations.WithoutSprintKeepsOrder | App.tsx:100 | dropping a sprint's allocations keeps the other allocations in their order |
| Allocations.CountFor | components/SprintDrawer.tsx:182-184 | a feature has no entry for the sprint exactly when it does not reference it |
| Allocations.SumSplits | components/SprintDrawer.tsx:168-170 | the total is the other sprints' sum plus this sprint's entries |
| Allocations.SetPoints | components/SprintDrawer.tsx:182-184 | entries for the sprint take the new points; others are untouched; ids and length are kept |
| Allocations.SetPointsSum | components/FeatureDrawer.tsx:91-93 | after setting, the total is the others' sum plus the new value per matching entry |
| Allocations.SetPointsTwice | components/FeatureDrawer.tsx:91-93 | setting the same value twice is setting it once |
| Allocations.SetPointsKeepsOthers | components/SprintDrawer.tsx:182-184 | setting a sprint's points leaves the allocations to every other sprint as they were |
| Allocations.FirstPointsFor | components/SprintDrawer.tsx:210-211 | the points of the first allocation to the sprint (no earlier entry names it), 0 when there is none |
| Allocations.ReferencingCarryLoad | components/SprintDrawer.tsx:65-67 | filtering to the features that reference the sprint keeps the sprint's load |
| Allocations.Utilization | components/SprintDrawer.tsx:214 | 0 without positive capacity; otherwise used/capacity*100 in exact arithmetic, at most 100 exactly when used <= capacity |
| Allocations.RangesOverlap | utils.ts:251-260 | overlap requires four real dates and two ordered ranges |
| Allocations.OverlapIsSharedDay | utils.ts:251-260 | two ranges overlap exactly when some real day lies in both (touching ends count) |
| Allocations.OverlapSymmetric | utils.ts:251-260 | overlap does not depend on argument order |
| Allocations.AssociatedSprints | utils.ts:238 | a sprint is associated exactly when some allocation names its id; dangling ids are skipped |
| Allocations.DatesFromSprints | utils.ts:234-249 | no allocation or no resolved sprint keeps the feature; an invalid resolved date throws; otherwise only the two dates change |
| Allocations.DatesFromSprintsIsHull | utils.ts:241-247 | the derived range starts at the earliest and ends at the latest resolved sprint date, both attained |
| Allocations.SprintHull | utils.ts:241-247 | the earliest start and latest end of real sprint dates enclose every sprint and are attained |
| Allocations.DatesFromSprintsIdempotent | utils.ts:234-249 | deriving the dates a second time changes nothing |
| MonthKeys.KeyOf | utils.ts:135-136 | a date's bucket is its month index, or the NaN bucket exactly when the date is not a real day |
| MonthKeys.KeyLtIsStrictTotal | utils.ts:140 | bucket order is irreflexive, total and transitive |
| MonthKeys.SortedKeys | utils.ts:140 | the buckets of a set, strictly ascending, each from the set and as many as the set has |
| MonthKeys.SortedKeysCover | utils.ts:140 | every bucket of the set is listed |
| MonthKeys.EndKeysMembers | utils.ts:134-137 | the buckets are exactly the end-date buckets of the features |
| Financials.AccumulateIsCostIn | utils.ts:133-138 | the accumulated map holds exactly the end-date buckets, each with the cost of the features ending in it |
| Financials.MonthlyRows | utils.ts:141-153 | one row per key with its payment; each running total adds that payment to the previous one |
| Financials.CostOverPartition | utils.ts:132-154 | buckets listing every end month account for the whole cost |
| Financials.MonthlyFinancials | utils.ts:132-154 | the first running total is the first payment, and each later one adds its payment |
| Financials.MonthlyFinancialsSchedule | utils.ts:132-154 | ascending end-date buckets, all of them; each payment is its bucket's cost, each running total the cost ending no later, the last the whole cost |
| Financials.RunRateKeys | utils.ts:168-171 | the second pass touches exactly the twelve buckets of each table year |
| Financials.RunRateKeysMembers | utils.ts:168-171 | a bucket is visited exactly when it is a month of a year in the table |
| Financials.CollectYearEffect | utils.ts:170-182 | one year's loop adds its buckets, keeps every budget, and copies the spend of months that have a record |
| Financials.CollectBudgetsAgree | utils.ts:160-165 | after the first pass each bucket's budget is the cost of the features ending in it |
| Financials.ComparisonCellsAgree | utils.ts:156-183 | the comparison map agrees with the reference budget and spend per bucket |
| Financials.FinancialComparison | utils.ts:185-197 | ascending buckets, and each row's difference is spend minus budget |
| Financials.ComparisonRows | utils.ts:156-197 | the rows are exactly the end months plus every month of every table year, with the reference budget and spend |
| Financials.ComparisonBudgetTotal | utils.ts:156-197 | the budget column adds up to the whole estimated cost |
| ProgramCosts.Programs | utils.ts:213 | a feature without programs is split over 'Unassigned'; otherwise over its own list |
| ProgramCosts.SharesForCount | utils.ts:214-217 | a program listed n times receives n shares, added in exact arithmetic (the binary64 rounding is left out) |
| ProgramCosts.AddCostEffect | utils.ts:216 | `map[p] = (map[p] or 0) + amount` adds the amount, in exact arithmetic, to p alone and keeps names distinct |
| ProgramCosts.AccumulateEffect | utils.ts:212-218 | the accumulation gives each program its reference share, in exact arithmetic, and lists each program once |
| ProgramCosts.ProgramFinancials | utils.ts:219-221 | the entries are the accumulated ones, by decreasing cost compared in exact arithmetic |
| ProgramCosts.ProgramFinancialsShares | utils.ts:210-222 | every program appears exactly once, with its reference share in exact arithmetic |
| ProgramCosts.ProgramFinancialsTotal | utils.ts:210-222 | the program costs add up to the features' total estimated cost, in exact arithmetic |
| Audit.ChangedKeys | utils.ts:264-270 | the reported keys are the new object's keys whose compared value differs, in key order |
| Audit.ChangedKeysDiffer | utils.ts:266-269 | every reported key reads differently in the two objects |
| Audit.IdAndAllocationsNeverListed | utils.ts:266 | the id and the allocation list are never reported as field changes |
| Audit.Changes | utils.ts:263-277 | one fragment per reported key, then the allocation note when the list changed |
| Audit.ChangesInitials | utils.ts:263-277 | no change fragment can be mistaken for the no-change text |
| Audit.Describe | utils.ts:262-280 | the no-change text appears exactly when no key is reported and the allocations did not change |
| Audit.SilentIff | utils.ts:262-280 | the no-change text appears exactly when every compared key reads the same in both objects |
| Audit.SameFeatureFieldsIff | utils.ts:264-277 | a feature's compared fields and allocations agree exactly when nothing but the id changed |
| Audit.FeatureAllocationNote | utils.ts:273-276 | a feature edit carries the allocation note exactly when its allocation list changed |
| Audit.FeatureUnchangedIff | utils.ts:262-280 | a feature edit is silent exactly when nothing but the id changed |
| Audit.SprintKeysCompared | utils.ts:264-270 | the keys of a sprint object agree exactly when the sprint's compared fields are the same |
| Audit.SprintHasNoAllocationNote | utils.ts:273 | a sprint, having no allocation list, never gets the allocation note |
| Audit.SprintUnchangedIff | utils.ts:262-280 | a sprint edit is silent exactly when the name, dates, capacity and every optional field the new sprint carries are unchanged |
| Audit.RenameAndRepointKeys | testing/suite.ts:152-158 | renaming a feature and changing its points reports exactly those two fields |
| Session.AddLog | App.tsx:25-37 | the new entry goes in front with the stamp's id and time |
| Session.AddLogKeepsOrder | App.tsx:36 | a newest-first log stays newest-first under a clock that does not run backwards |
| Session.UpdateFeature | App.tsx:39-50 | features are replaced by id; nothing else but the log changes |
| Common.Replace | App.tsx:48 | every entry with the id becomes the update and the others stay in place (also the sprint replacement, App.tsx:83) |
| Session.ReplaceFeatureIdempotent | App.tsx:48 | replacing twice is replacing once |
| Session.UpdateFeatureLogsIff | App.tsx:41-47 | a feature update is logged exactly when the first feature with the id exists and differs |
| Session.ReplaceFeatureFinds | App.tsx:48 | after the replacement, finding the id yields the update |
| Session.DeleteFeature | App.tsx:52-58 | every feature with the id is removed and the others are kept; one log entry exactly when the id existed |
| Session.DeleteFeatureKeepsOrder | App.tsx:52-58 | deleting distributes over concatenation and keeps a single feature exactly when its id differs, so the rest keep their backlog order and multiplicity |
| Session.AddFeature | App.tsx:60-63 | the feature is appended and the addition logged |
| Session.AddThenDeleteFeature | App.tsx:52-63 | adding a fresh feature and deleting it restores the backlog, with two log entries |
| Session.ReorderFeatures | App.tsx:65-67 | reordering permutes the backlog and touches nothing else |
| Session.AddSprint | App.tsx:69-72 | the sprint is appended and the addition logged |
| Session.UpdateSprint | App.tsx:74-85 | sprints are replaced by id; nothing else but the log changes |
| Session.UpdateSprintLogsIff | App.tsx:74-85 | a sprint update is logged exactly when the sprint exists and a compared field changed |
| Session.DeleteSprint | App.tsx:87-108 | on success the sprint list loses the id, the run-rates stay, one log entry exactly when the id existed |
| Session.DeleteSprintRemovesExactly | App.tsx:94 | the remaining sprints are exactly those with another id |
| Session.Cleaned | App.tsx:98-106 | a feature without an allocation to the deleted sprint is kept as it is |
| Session.DropSprint | App.tsx:97-107 | the cascade succeeds exactly when every feature's re-derivation does, feature by feature |
| Session.CascadeOnFeature | App.tsx:98-104 | a feature that referenced the sprint loses those allocations and re-derives its dates from the remaining sprints |
| Session.CascadeSkipsOthers | App.tsx:106 | features without an allocation to the sprint come through unchanged |
| Session.CascadeKeepsDatesOfOrphans | App.tsx:98-104 | a feature whose only allocations were to the deleted sprint keeps its dates |
| Session.UpdateRunRate | App.tsx:110-119 | a non-administrator changes nothing; otherwise only the run-rate table changes |
| Session.SetRate | App.tsx:113-116 | the cell is set, creating the year and the month record as needed |
| Session.SetRateFrame | App.tsx:113-116 | no other cell changes, and a freshly created month has 0 for the other platforms |
| Session.VisibleFeatures | App.tsx:121-124 | the global view shows every feature; a platform view shows exactly that platform's |
| Session.VisibleSprints | App.tsx:126-129 | the global view shows every sprint; a platform view shows exactly that platform's |
| Session.VisibleSprintsKeepOrder | App.tsx:126-129 | scoping the sprint list keeps the sprints' relative order |
| Session.VisibleUnderOwnPlatform | App.tsx:121-124 | each feature appears under exactly its own platform |
| Session.VisibleKeepsOrder | App.tsx:121-124 | scoping keeps the backlog's relative order |
| SprintEditor.DateTextUpdate | components/SprintDrawer.tsx:78-100 | the text follows the input; a well-formed start also sets the end two weeks later when it is a real day; malformed text leaves the draft |
| SprintEditor.Save | components/SprintDrawer.tsx:108-134 | an overlap is refused first, then a start after the end; otherwise the draft and the changed staged features are persisted |
| SprintEditor.SavedSprintIsConsistent | components/SprintDrawer.tsx:109-120 | a saved sprint overlaps no other sprint and does not end before it starts |
| SprintEditor.ChangedFeatures | components/SprintDrawer.tsx:126-131 | exactly the staged features whose stored original exists and differs, in staged order |
| SprintEditor.ChangedFeaturesKeepOrder | components/SprintDrawer.tsx:126-131 | the selection distributes over concatenation and keeps a single feature exactly when its stored original exists and differs, so the updates follow the staged order, each once |
| SprintEditor.NothingChanged | components/SprintDrawer.tsx:126-131 | staged features equal to their stored originals persist nothing |
| SprintEditor.CleanSavePersistsNoFeature | components/SprintDrawer.tsx:126-131 | saving with untouched staging persists no feature |
| SprintEditor.Toggle | components/SprintDrawer.tsx:142-161 | a remove drops the sprint's allocations; an add appends one with the remaining points; nothing else changes |
| SprintEditor.AddFillsFeature | components/SprintDrawer.tsx:147-153 | after an add the feature's allocations total its points, or its larger existing total |
| SprintEditor.RemoveClearsSprint | components/SprintDrawer.tsx:154-158 | after a remove the feature no longer references the sprint |
| SprintEditor.ToggleInStaged | components/SprintDrawer.tsx:142-161 | a closed draft locks the staging; otherwise only the named feature toggles |
| SprintEditor.MapToggle | components/SprintDrawer.tsx:144-160 | the named feature is toggled and every other feature is kept |
| SprintEditor.UpdateAllocationLocally | components/SprintDrawer.tsx:163-187 | ignored on a closed draft or unknown feature; refused when the others plus the new points exceed the feature's points; otherwise the sprint's entries take the points |
| SprintEditor.SetFeaturePoints | components/SprintDrawer.tsx:178-186 | only the named feature's entries for the sprint take the new points |
| SprintEditor.AppliedEditWithinPoints | components/SprintDrawer.tsx:172-186 | an applied edit keeps a feature with one entry for the sprint within its points |
| SprintEditor.InSprint | components/SprintDrawer.tsx:65-67 | a staged feature is listed exactly when it references the sprint |
| SprintEditor.Available | components/SprintDrawer.tsx:69-71 | a staged feature is offered exactly when it does not reference the sprint |
| SprintEditor.UsedPoints | components/SprintDrawer.tsx:209-212 | the used points are the staged load of the sprint |
| SprintEditor.UsedPointsIsLoad | components/SprintDrawer.tsx:209-212 | the assigned features carry the whole staged load of the sprint |
| SprintEditor.DraftUtilization | components/SprintDrawer.tsx:214 | 0 without positive capacity; otherwise at most 100 exactly when the load fits the capacity |
| FeatureEditor.DateTextUpdate | components/FeatureDrawer.tsx:52-60 | the text follows the input; only the edited date of the draft can change, and only on a well-formed text |
| FeatureEditor.TypedDateIsStored | components/FeatureDrawer.tsx:57-59 | typing a date's text stores exactly that date |
| FeatureEditor.MalformedTextKeepsDraft | components/FeatureDrawer.tsx:57-59 | a malformed text leaves the draft and its dirtiness alone |
| FeatureEditor.NextAllocations | components/FeatureDrawer.tsx:67-77 | assigning references the sprint once (existing entries win); unassigning removes every entry for it |
| FeatureEditor.DefaultAssignFills | components/FeatureDrawer.tsx:71-73 | a default assignment brings the total to the feature's points, or keeps a larger total |
| FeatureEditor.AssignIdempotent | components/FeatureDrawer.tsx:70 | assigning twice is assigning once |
| FeatureEditor.UnassignUndoesAssign | components/FeatureDrawer.tsx:67-77 | unassigning a just-assigned sprint restores the allocations |
| FeatureEditor.SprintAssociation | components/FeatureDrawer.tsx:67-83 | the draft takes the derived dates (or the derivation's failure), and both texts show them |
| FeatureEditor.RedundantAssociationKeepsDraft | components/FeatureDrawer.tsx:67-83 | an association that changes no allocation leaves an already-derived draft as it was |
| FeatureEditor.PickerSprints | components/FeatureDrawer.tsx:289-293 | the picker offers exactly the open sprints the feature does not reference |
| FeatureEditor.PickedSprintLeavesPicker | components/FeatureDrawer.tsx:286-293 | a picked sprint gets one allocation and leaves the picker |
| FeatureEditor.UpdateAllocation | components/FeatureDrawer.tsx:85-95 | the sprint's entries take min(value, points minus the others); nothing else changes |
| FeatureEditor.CappedIs | components/FeatureDrawer.tsx:89-93 | the capped edit sets the sprint's entries to min(value, points minus the others) |
| FeatureEditor.UpdateAllocationTotal | components/FeatureDrawer.tsx:85-95 | with one entry for the sprint the total never exceeds the feature's points |
| FeatureEditor.UpdateAllocationIdempotent | components/FeatureDrawer.tsx:85-95 | repeating an edit changes nothing more |
| FeatureEditor.UpdateAllocationOfOtherSprint | components/FeatureDrawer.tsx:91-93 | an edit for a sprint the feature does not reference changes nothing |
| FeatureEditor.ExistingPrograms | components/FeatureDrawer.tsx:23-29 | every program of any feature, each once, in code-unit order |
| FeatureEditor.ProgramSet | components/FeatureDrawer.tsx:24-27 | the collected set holds exactly the programs of some feature |
| TimelineBoard.ActiveSprint | components/TimelineView.tsx:90-94 | the first sprint covering today, else the first starting in 2026 or later, else none |
| TimelineBoard.ActiveMetrics | components/TimelineView.tsx:96-104 | none without a current sprint; otherwise the backlog's load on it and that load's utilization of its capacity |
| TimelineBoard.ActiveLoadIsListedLoad | components/TimelineView.tsx:96-104 | the current sprint's load is the load of the features the board lists under it |
| TimelineBoard.Stats | components/TimelineView.tsx:106-126 | the completed and in-progress counts, the total, this year's subset and its completed count, and the share of it completed, rounded in exact arithmetic (the binary64 rounding is left out) |
| TimelineBoard.AnnualProgressExtremes | components/TimelineView.tsx:116 | progress is 100 when every feature of the year is completed, and 0 when none is |
| TimelineBoard.VisibleSprints | components/TimelineView.tsx:161-163 | closed sprints are listed exactly when requested |
| TimelineBoard.VisibleSprintsKeepOrder | components/TimelineView.tsx:161-163 | hiding closed sprints keeps the listed sprints in their order |
| TimelineBoard.FeaturesInSprint | components/TimelineView.tsx:184-187 | nothing when no sprint is viewed; otherwise the features that reference it |
| TimelineBoard.ListedFeaturesCarryLoad | components/TimelineView.tsx:184-187 | the listed features carry the sprint's whole load |
| TimelineBoard.NewSprint | components/TimelineView.tsx:128-145 | a new sprint: open, capacity 40, 1 to 14 January 2026, deploying the day after, on the active platform (TOM globally) |
| TimelineBoard.NewSprintsOverlap | components/TimelineView.tsx:129-131 | any two new sprints overlap |
| TimelineBoard.CustomRangeUpdate | components/TimelineView.tsx:147-154 | the text follows the input; the window takes only well-formed texts, so it stays well formed |
| TimelineBoard.InitialRangeWellFormed | components/TimelineView.tsx:32-39 | the initial custom window and its texts are well formed |
| TimelineBoard.SyncRangeTexts | components/TimelineView.tsx:156-159 | the texts show the stored window again |
| TimelineBoard.Bounds | components/TimelineView.tsx:51-62 | none for all time; the preset, the 2026 year, or the custom window otherwise |
| TimelineBoard.LowerBound | components/TimelineView.tsx:344 | the lower bound is the window start's time, and is missing only without a window, for NaN or for time 0 |
| TimelineBoard.UpperBound | components/TimelineView.tsx:345 | the upper bound is the window end's time, and is missing only without a window, for NaN or for time 0 |
| TimelineBoard.RowHiddenIffDisjoint | components/TimelineView.tsx:344-345 | for real, ordered ranges off the epoch, a row is hidden exactly when it misses the window |
| TimelineBoard.AllTimeShowsEveryRow | components/TimelineView.tsx:344-345 | without a window no row is hidden |
| TimelineBoard.EpochWindowKeepsEarlierRows | components/TimelineView.tsx:344 | a window starting 1 January 1970 has time 0, which the falsy fallback treats as no bound, so earlier rows stay |
| RunRateTable.MonthTotal | components/TeamView.tsx:20-24 | a month total is the sum of its three platform cells |
| RunRateTable.PlatformTotal | components/TeamView.tsx:26-32 | the loop sums the platform's twelve cells |
| RunRateTable.RowsMatchColumns | components/TeamView.tsx:20-34 | summing the table by platform rows or by month columns gives the same amount |
| RunRateTable.GrandTotal | components/TeamView.tsx:34 | the sum of the platform totals equals the sum of the month totals |
| RunRateTable.Share | components/TeamView.tsx:129-130 | 0 without a positive grand total; otherwise the platform total's percentage of it, in exact arithmetic |
| RunRateTable.SharesMakeWhole | components/TeamView.tsx:129-130 | with a positive grand total the three shares add up to 100 in exact arithmetic |
| RunRateTable.ShareBounds | components/TeamView.tsx:129-130 | with no negative amount each share lies in 0..100 |
| RunRateTable.CellAfterEdit | components/TeamView.tsx:98 | after an edit exactly the edited cell reads the new amount |
| RunRateTable.EditMovesOneRow | components/TeamView.tsx:98 | editing a cell moves that platform's total by the difference and keeps the others |
| Dates.Time | utils.ts:252-257 | a date has a time exactly when it names a real day |
| Dates.DayNumberOrder | components/TimelineView.tsx:91-93 | on real days the clock order is the `YYYY-MM-DD` text order |
| Dates.DayNumberInjective | utils.ts:252-257 | two real days with the same time are the same day |
| Dates.MonthIndexMonotone | utils.ts:94-102 | a later real day is never in an earlier month |
| Dates.EpochIsNewYear1970 | components/TimelineView.tsx:344 | time 0 is 1 January 1970 |
| Dates.Earliest | utils.ts:241-246 | Math.min over real days is attained and no later than any of them |
| Dates.Latest | utils.ts:242-247 | Math.max over real days is attained and no earlier than any of them |
| Dates.ParseFormat | utils.ts:246-247 | formatting a date and reading it back gives the date |
| Dates.FormatParse | components/SprintDrawer.tsx:81-88 | a `YYYY-MM-DD` text read and formatted again is the same text |
| Dates.Parse | components/SprintDrawer.tsx:81 | a text is read exactly when it matches `YYYY-MM-DD` |
| Dates.PlusDaysIsLater | components/SprintDrawer.tsx:84-86 | moving a date n days forward lands n days later on the clock |
| Dates.NextIsOneDayLater | components/SprintDrawer.tsx:84-85 | the next calendar day is one day later on the clock |
| Dates.MonthStart | utils.ts:101-102 | `new Date(y, m, 1)` is a real first day of that month, for years from 100 on (the 1900 shift of years 0 to 99 is left out) |
| Dates.MonthEnd | utils.ts:123 | `new Date(y, m + 1, 0)` is the real last day of that month, for years from 100 on |
| SuiteCases.PriorityRanks | testing/suite.ts:23-28 | the four ranks are 0, 1, 2 and 3 |
| SuiteCases.ReorderThree | testing/suite.ts:37-41 | moving the first of [1, 2, 3] to index 2 gives [2, 3, 1] |
| SuiteCases.StatusFilter | testing/suite.ts:44-48 | the completed filter keeps only the second sample |
| SuiteCases.ThreeMonthGrid | testing/suite.ts:68-77 | features from January to March give grid bounds January and March |
| SuiteCases.MidJanuaryPosition | testing/suite.ts:79-85 | 15 January sits between 20 and 30 percent of a January-February grid |
| SuiteCases.AllocatedNine | testing/suite.ts:118-127 | allocations of 4 and 5 points add up to 9 |
| SuiteCases.SprintSync | testing/suite.ts:129-141 | allocations to a March and an April sprint give 1 March to 14 April |
| SuiteCases.OverlapCases | testing/suite.ts:143-149 | 1-14 March overlaps 10-24 March but not 15-30 March |

## Left out

- React rendering, styling, bar geometry (`width`, `Math.max(endPos - startPos, 2)`) and the "today" marker position are not modelled. They are display only.
- `components/FinancialView.tsx`, `FeatureView.tsx`, `LogView.tsx`, `TestView.tsx`, the `ui` components, `geminiService.ts` and `firebase.ts` are not part of this model.
- `getDateRangePresets` reads the wall clock. The month and quarter presets are an opaque `Preset(window)` in `TimelineBoard.Bounds`.
- `Math.random` ids and `new Date()` times are parameters (`Session.Stamp`, `TimelineBoard.NewSprint`'s id, "today").
- Time zones are not modelled: every date is read in UTC.
- Day roll-over is not modelled. `new Date('2026-02-30')` is NaN in the model (not a real day), while some engines roll it into March.
- `toLocaleString` month labels and `toFixed(1)` texts are not modelled. Rows carry the month bucket, and the mean is an exact real.
- `Number()` on a non-numeric input (NaN points, costs or amounts) is not modelled. Amounts are integers.
- Month keys assume four-digit years. JavaScript's text order of `${year}-MM` differs from numeric order for other years.
- `Object.entries` lists integer-like program names first. The model keeps insertion order, which affects only the order of ties in `ProgramCosts.ProgramFinancials`.
- Sorting compares characters, not UTF-16 code units. The two agree on the Basic Multilingual Plane.
- `toLowerCase` is modelled on ASCII letters only (`Common.Lower`).
- The in-place mutation in `handleUpdateRunRate` is not modelled. The shallow copy there shares nested records with the previous state; the model builds a new value.
- The two drawers' `handleSyncFromModel` (restoring the texts on blur) are not modelled, apart from `TimelineBoard.SyncRangeTexts`. They only copy the draft's dates into the texts.
- The drawers' close and confirm dialogs (`window.confirm`) and the date pickers are not modelled. They are browser interaction.
- SprintEditor.DraftUtilization: stated on the sprint's load over the whole staging rather than on `usedPoints`. The two are equal by `SprintEditor.UsedPointsIsLoad`.
- SprintEditor.AppliedEditWithinPoints: holds only for a feature with exactly one entry for the sprint. The guard sums one `newPoints` however many entries match.
- FeatureEditor.UpdateAllocationTotal: bounded only for a feature with exactly one entry for the sprint, for the same reason.
- Backlog.RoundedPercent: rounds the exact value 100c/n, halves up. The source computes `(c / n) * 100` in binary64 before `Math.round`, and the product can land just below a half: 23 of 40 gives 57.49999999999999, so the source shows 57 where the model gives 58 (likewise 29, 57 and 113 of 200). Floating-point arithmetic is not modelled.
- Backlog.ProgramReadiness: the same binary64 gap as `Backlog.RoundedPercent`; 23 completed of 40 features reads 57 in the source and 58 in the model.
- TimelineBoard.Stats: `annualProgress` has the same binary64 gap as `Backlog.RoundedPercent` (23 of 40 this year reads 57 in the source, 58 in the model).
- Dates.MonthStart: `new Date(y, m, 1)` reads a year argument of 0 to 99 as 1900 plus that year; the model keeps the year. Dates in years 0 to 99 pass the `YYYY-MM-DD` pattern, so for them the source's grid starts in the 1900s (and every bar clamps to 0), while the model's grid starts in the given year. This affects `Dates.MonthEnd`, `Timeline.GridBounds`, `Timeline.TimelineMonths`, `Timeline.GridCoversFeatures` and `Timeline.GridEnds` in the same way.
- WorkingDays.NormalMonth: the same 1900 shift; `getCanadianWorkingDays(50, 0)` counts January 1950 in the source and January of year 50 in the model. `WorkingDays.MonthWorkingDays` and `WorkingDays.CanadianWorkingDays` inherit it.
- Dates.PlusDaysIsLater: moves at most 28 days, enough for the fourteen-day sprint default.
- Timeline.DatePositionMonotone: stated for real days only. A NaN date has no position.
- ProgramCosts.ProgramFinancials: program names are treated as ordinary map keys. The source accumulates into a `{}` literal, where the keys inherited from `Object.prototype` behave differently. An assignment to `__proto__` is ignored, so that program's cost is lost and the total is not conserved. `constructor`, `toString`, `valueOf` and the other inherited names start from a function rather than 0, so their cost becomes a text and the descending sort compares NaN. The model gives these names ordinary shares, so `ProgramCosts.ProgramFinancialsShares` and `ProgramCosts.ProgramFinancialsTotal` do not hold of the source for them.
- ProgramCosts.AddCostEffect: the same exception. The `Object.prototype` names are not modelled. The amount is also added in exact arithmetic, where the source adds binary64 numbers: ten additions of 0.1 give 0.9999999999999999, not 1.
- ProgramCosts.ProgramFinancials: costs are taken in exact arithmetic; the binary64 rounding of `cost / programs.length` and of the running sums is left out. It can change the order. With ten features of cost 1, each listing A and nine other programs, and one feature of cost 1 listing only B, the source gives A 0.9999999999999999 and B 1 and sorts B first; the model gives both exactly 1 and its stable sort keeps A first.
- ProgramCosts.SharesForCount: the n shares add up exactly; in the source each share is a binary64 quotient and the sum is rounded at every step (the example above).
- ProgramCosts.AccumulateEffect: each program's cost is its exact reference share; the source's binary64 accumulation can miss it (A gets 0.9999999999999999 above).
- ProgramCosts.ProgramFinancialsShares: `cost == Share` holds in exact arithmetic only; the example above falsifies it for the source.
- ProgramCosts.ProgramFinancialsTotal: conservation of the total cost is exact in the model; under binary64 accumulation the program costs above add up to just under the features' total.
- RunRateTable.Share: the percentage `(total / grandTotal) * 100` is an exact real; the source's binary64 value differs (1 of 3 gives 33.33333333333333).
- RunRateTable.SharesMakeWhole: the three shares add up to exactly 100 in the model; for platform totals 1, 1 and 1 the source's three binary64 shares add up to 99.99999999999999.
- Allocations.Utilization: `used / capacity * 100` is an exact real; the binary64 rounding of the source is left out. `TimelineBoard.ActiveMetrics` and `SprintEditor.DraftUtilization` inherit it.
- Timeline.PositionInWindow: the position `((time - minTime) / total) * 100` is an exact real; the binary64 rounding of the source is left out. `Timeline.DatePosition` inherits it.
