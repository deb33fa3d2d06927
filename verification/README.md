# Cerebrum: tables, closures and caches, verified

Cerebrum is an identity-management system.  This project models, in Dafny, the
algorithms that it runs over its tables in memory, and proves what they
guarantee.  A table is a finite map or set held in a field of a class; each SQL
statement is one assignment to that field, so that the states between statements
are there to be reasoned about.  Where a table has a constraint
(design/core_tables.sql), a statement is refused if the constraint would not hold
after it, or the method for it requires that it does; where a call takes several
statements, a ghost history records the table after each of them.

| file | what it is about |
|---|---|
| `SlotRuns.dfy` | pushing a contiguous run of rows up by one slot: what it does to the whole list |
| `AccountTypes.dfy` | priorities of account types, and primary accounts |
| `PrecedenceRules.dfy` | the wildcard rule tree for precedences, and the search for a free slot |
| `PersonAffiliations.dfy` | affiliations of a person: add, delete, nuke, and the write that syncs one source |
| `Groups.dfy`, `Flatten.dfy` | membership closures upward and downward, their duality, and flattening |
| `RecencyLists.dfy`, `Caching.dfy`, `CacheRuns.dfy` | the composable cache and whole runs of it |
| `ChangeLogCleaner.dfy`, `ToggleKeyText.dfy`, `TriggerMap.dfy` | change-log cleaning, its keys, and its configuration |
| `DiffSync.dfy`, `PersonJoin.dfy` | populate and write of a source's rows; joining two persons |
| `OrgTree.dfy` | paths, children and parents in the OU structure |
| `Constants.dfy` | writing declared constants in dependency order |
| `Homes.dfy` | homes and the reclaiming of home directories |
| `ContactSort.dfy` | sorting contact information by a specification |
| `MarkUpdate.dfy`, `Disks.dfy` | tracked attributes, and disks as their client |
| `NameCache.dfy` | the cached names of a person |
| `Sequences.dfy`, `Sets.dfy`, `Wrappers.dfy` | helpers |

`dafny verify dfyconfig.toml` checks the whole project.

## Findings

Properties that do not hold of the code as one might expect, each with the exact
condition under which they do, and with an input for which they do not:

- A precedence of 0 counts as none.  A row for which nothing is asked keeps its
  precedence just when that is not 0, or 0 is what the rules give to an
  affiliation without a row (`StaysUnlessZero`, and `AddAffiliation` for any
  setting).  `ZeroRowMoves` has a row that moves.
- The search for a free slot goes past the top of its range just when the slot
  one step above its starting point is outside of it, or, with no taken slot to
  start from, when the range is empty (`AllocatedSlot`; `SlotPastItsRange` has a
  person for whom it does).  With a step of 0 it never ends if its starting point
  is taken (`Allocate`, `StepOfZeroNeverEnds`).
- A failing `del` on a cache with the timeout mixin leaves `_dont_lock` set, so
  that later deletions do without the lock (`FailingDeleteLeavesMark`).  It is the
  only thing that does (`Caching.Cache.Delete`, `SetItem`, `GetItem`).
- A memoized function with the timeout mixin raises `KeyError` for a call whose
  remembered answer has timed out, instead of computing it anew (`Memoized`,
  `MemoizedTimesOut`).
- Toggle keys are parts joined by dashes.  They tell all events apart just when
  the toggler looks at no parameters (`TellsApartMeaning`): a missing parameter is
  written like the text "None", and a number like its text.  They tell events
  that have all parameters as texts apart just when the toggler looks at one
  parameter at most (`TellsTextsApartMeaning`); any two parameters can collide
  (`TwoNamesCollide`).  Without dashes in the parameters but the last, nothing is
  confused but values that are written alike (`DashFreeKeysTellApart`).
- Joining persons alters a contact of the new person just when its alias is an
  empty text (`ContactKeptUnlessEmptyAlias`).
- `Constants.initialize` reports circular dependencies also when no constants are
  declared at all (`Initialize`).
- Flattening twice is not always flattening once.  When the destination takes part
  in the source, it is so for all tables just when the transform is settled: what
  it answers is not expired, and answered with itself (`StableMeaning`).  Copying
  members and taking owners for accounts are settled, taking accounts for persons
  is not if any person has one (`WhichAreSettled`; `UnsettledIsUnstable` gives the
  tables).
- `list_children` ends, at some depth of nested calls, just when there is no cycle
  at or below the unit (`ListingEndsWithoutCycle`); a root that is its own parent
  is one, which `list_ou_path` takes for a root.  `set_parent` puts the unit on a
  cycle just when the new parent is the unit or below it (`SetParentMakesCycle`).
- A new disk is not inserted when populating it changes none of its attributes,
  that is, when an object without any is populated with nothing (`Disks.Disk.WriteDb`,
  `Disks.Disk.Populate`, `EmptyDiskIsNotInserted`).

Where the code and its own documentation differ, the model follows the code:
`_update_cached_names` announces a `ValueError` when no name is found
(Cerebrum/Person.py:467-468); it leaves the cache as it is instead.

## Model

| member | source | states |
|---|---|---|
| SlotRuns.FirstFree | Cerebrum/Account.py:174-180 | where the recursion stops: the slot it returns is free and all slots from the requested one up to it are taken |
| SlotRuns.PushStep | Cerebrum/Account.py:174-193 | pushing a run is pushing the run one slot higher and then moving the first row: the recursion, read as one change of the list |
| SlotRuns.PushKeepsDistinct | Cerebrum/Person.py:819-835 | after a push all slots are still different and the requested one is free |
| SlotRuns.PlaceMeaning | Cerebrum/Account.py:123-193 | placing a row gives it exactly the requested slot, keeps all slots different and the order of all other rows, moves each by at most one, and moves just those of the contiguous run; the moved row may be in that run |
| SlotRuns.PlaceOnFreeSlot | Cerebrum/Person.py:942-951 | on a free slot nobody else moves |
| SlotRuns.RunIsPushed | Cerebrum/Account.py:150-153 | sending the row in the way one slot up pushes the whole run |
| AccountTypes.AccountTypeTable.Write | Cerebrum/Account.py:184-190 | one statement: the table and its history after it, which must still have one row per person and priority |
| AccountTypes.AccountTypeTable.SetAccountTypePriority | Cerebrum/Account.py:174-193 | the recursive update places the row and touches no other person's rows; it ends, and priorities are unique after every single statement |
| AccountTypes.AccountTypeTable.ReadPriorities | Cerebrum/Account.py:136-147 | the snapshot by priority is exact, and the highest priority counts from 0 |
| AccountTypes.AccountTypeTable.InsertAt | Cerebrum/Account.py:150-164 | a new row gets its slot after the run in its way is pushed |
| AccountTypes.AccountTypeTable.SetAccountType | Cerebrum/Account.py:123-172 | insert or move: the row has the requested priority, by default 5 above the highest; the whole table is the old one with the row placed, or unchanged if it was there; the answer says which |
| AccountTypes.AccountTypeTable.DelAccountType | Cerebrum/Account.py:195-216 | just the one row is gone, and only if it was there |
| AccountTypes.LowestPriorityIsPrimary | Cerebrum/Account.py:126-132 | a row set to a priority not above any other is strictly the first of its person |
| AccountTypes.PrimaryOnly | Cerebrum/Account.py:321-330 | of ordered rows one row per person is kept, with that person's lowest priority |
| PrecedenceRules.SearchIsMostSpecific | Cerebrum/Person.py:738-752 | the recursive search answers what the most specific generalisation of the keys with an answer has; it finds nothing only if no generalisation has one |
| PrecedenceRules.FoundIsSearched | Cerebrum/Person.py:738-752 | what the search finds is what is at the most specific generalisation of the keys that has anything, and nothing else is |
| PrecedenceRules.ResolveGives | Cerebrum/Person.py:764-817 | the recursion comes to what asking is to come to: a slot as it is; in a range its one slot, the old precedence if that is not 0 and in the range or the override range, or else one allocated with the step given or 5; for a name, a pair of names, or nothing, the same for what the rules have for them |
| PrecedenceRules.MoreDepthSameAnswer | Cerebrum/Person.py:764-791 | an answer does not depend on how deep the recursion may go |
| PrecedenceRules.NoRuleNeverResolves | Cerebrum/Person.py:767-775 | with nothing asked for, no old precedence and no rule, the recursion has no end |
| PrecedenceRules.NewSlotOnlyWhenNeeded | Cerebrum/Person.py:793-806 | a new slot is looked for only in a real range, and only if the old one is neither in it nor in the override range |
| PrecedenceRules.ZeroIsNoPrecedence | Cerebrum/Person.py:767-769 | an old precedence of 0 is treated as none |
| PrecedenceRules.KeptUnlessZero | Cerebrum/Person.py:767-775 | with nothing asked for, an old precedence is kept if and only if it is not 0, or the rules give 0 to a row without one |
| PrecedenceRules.RowlessIsHardest | Cerebrum/Person.py:764-806 | rules that resolve for a row without a precedence do so for any row, to the same range if to a range |
| PrecedenceRules.Allocate | Cerebrum/Person.py:808-817 | the loop finds the first free slot on the stride from its base; it fails to end just when the step is 0 and the base is taken |
| PrecedenceRules.StrideIsBounded | Cerebrum/Person.py:815-816 | the search, upwards or downwards, passes no more slots than are taken from its base on |
| PrecedenceRules.AllocatedSlot | Cerebrum/Person.py:808-817 | the slot found is free; for a step upwards it is not below the minimum, above every taken slot of the range, at most base + step * number of taken slots from the base on, and in the range if and only if the step above a taken base is; for a step downwards it is below a taken base, by no more than a step for each taken slot from there down |
| PersonAffiliations.PersonAffiliations.Write | Cerebrum/Person.py:944-951 | one statement; all precedences, of deleted rows too, must be different after it |
| PersonAffiliations.PersonAffiliations.ClearPrecedence | Cerebrum/Person.py:819-835 | the run is pushed, nothing else of any row changes, and precedences are unique after every statement |
| PersonAffiliations.PersonAffiliations.CalculatePrecedence | Cerebrum/Person.py:764-817 | the answer, or the failure, is what asking for the setting comes to |
| PersonAffiliations.PersonAffiliations.ChosenIsAsAsked | Cerebrum/Person.py:776-817 | a slot asked for is what an affiliation gets; of a range it gets the one slot, or keeps its precedence if and only if that is not 0 and in the range or the override range, or gets one allocated in the range with the step given or 5 |
| PersonAffiliations.PersonAffiliations.OnlyOneComes | Cerebrum/Person.py:764-817 | asking for a precedence comes to one slot or one failure only |
| PersonAffiliations.PersonAffiliations.ListByPrecedence | Cerebrum/Person.py:878-881 | the snapshot by precedence is exact |
| PersonAffiliations.PersonAffiliations.PutRow | Cerebrum/Person.py:941-975 | the row is live with its status and precedence, and no other row has more than its precedence pushed |
| PersonAffiliations.PersonAffiliations.AddAffiliation | Cerebrum/Person.py:837-980 | add, update or revive: the row with the precedence that asking comes to, a slot or range as asked for, everything else but pushes unchanged, a precedence kept if and only if the rules send the row to it, an answer that tells added, modified and unchanged apart; it fails, without a change to the rows, if and only if asking comes to a failure |
| PersonAffiliations.PersonAffiliations.StaysUnlessZero | Cerebrum/Person.py:767-775 | a row for which nothing is asked stays if and only if its precedence is not 0, or the rules give 0 to an affiliation without a row |
| PersonAffiliations.ZeroRowMoves | Cerebrum/Person.py:767-775 | a row with precedence 0 that moves though nothing is asked for |
| PersonAffiliations.SlotPastItsRange | Cerebrum/Person.py:811-817 | a person for whom the slot found for a range is not in it |
| PersonAffiliations.StepOfZeroNeverEnds | Cerebrum/Person.py:813-816 | a person for whom the search for a slot never ends |
| PersonAffiliations.AllocatedDisplacesNobody | Cerebrum/Person.py:965-975 | an affiliation whose precedence was looked for in a range changes no other row at all |
| PersonAffiliations.PersonAffiliations.DeleteAffiliation | Cerebrum/Person.py:982-1020 | only the deleted mark of the row changes, and it fails just if there is no row |
| PersonAffiliations.PersonAffiliations.NukeAffiliation | Cerebrum/Person.py:1026-1076 | the row is gone, and its person_affiliation row just if no source needs it; if all person_affiliation rows were needed, they still are |
| PersonAffiliations.PersonAffiliations.IndexSource | Cerebrum/Person.py:216-230 | the two dictionaries list the source's rows exactly, by status and by primary key |
| PersonAffiliations.PersonAffiliations.WritePopulated | Cerebrum/Person.py:231-255 | the populated affiliations are added one after the other, each as adding it does, and what is left in the index is what was not populated; no deletion from it misses its key; it stops just at one that cannot be added |
| PersonAffiliations.PersonAffiliations.DeleteLeft | Cerebrum/Person.py:256-263 | just the rows left in the index are marked as deleted |
| PersonAffiliations.PersonAffiliations.WriteDb | Cerebrum/Person.py:214-265 | the populated affiliations are live with their statuses, and with the precedences that adding them one after the other chooses; the source's others are deleted, other sources keep their data and see precedences at most pushed up; a failure is that of an affiliation that cannot be added; nothing fails if all are resolvable, and nothing moves if all stay |
| PersonAffiliations.PersonAffiliations.ResolvableMeaning | Cerebrum/Person.py:764-817 | an affiliation can be added to any table if and only if the rules resolve for one without a row, and not to a range with step 0 |
| PersonAffiliations.PersonAffiliations.PlainSettingsAreResolvable | Cerebrum/Person.py:776-817 | so it can when a slot is asked for, or a range with a step other than 0 |
| PersonAffiliations.SyncedMeansLive | Cerebrum/Person.py:214-265 | the live (unit, affiliation, status) triples of the source are exactly the populated ones |
| PersonAffiliations.PersonAffiliations.SecondWriteIsIdle | Cerebrum/Person.py:214-265 | of two writes of the same, the second succeeds and changes no row at all if the first left all populated rows where the rules send them |
| PersonAffiliations.PersonAffiliations.NothingAskedStays | Cerebrum/Person.py:214-265 | that is so if no precedence is asked for and none of the source's rows has precedence 0 after the first write |
| Groups.GroupDb.AddMember | Cerebrum/Group.py:374-397 | the row added has the member's own entity type; unknown entities, double memberships and a group in itself fail without a change |
| Groups.GroupDb.RemoveMember | Cerebrum/Group.py:430-460 | just that membership is gone |
| Groups.GroupDb.DirectGroups | Cerebrum/Group.py:708-713 | one query gives exactly the groups that have one of the ids as a direct member |
| Groups.GroupDb.DirectGroupMembers | Cerebrum/Group.py:994-1001 | one query gives exactly the groups that are direct members |
| Groups.GroupDb.TransitiveClosure | Cerebrum/Group.py:620-657 | the loop ends on any finite graph, cycles included, with exactly the groups that some start id is in by one or more memberships |
| Groups.GroupDb.ReflexiveClosure | Cerebrum/Group.py:916-939 | the loop ends with exactly the start ids and all groups met on the way down, or up, from them |
| Groups.SearchesAreDual | Cerebrum/Group.py:989-1009 | a member is within a group just when the group, or a group within it, has a row for the member |
| Groups.GroupDb.Search | Cerebrum/Group.py:597-713 | the direct or indirect groups of the members, and with the filter on just those of them without an expire date or with one after now; without ids it fails |
| Groups.GroupDb.ExpiredIds | Cerebrum/Group.py:1052-1056 | the accounts and groups with an expire date that is not after now |
| Groups.GroupDb.SearchMembers | Cerebrum/Group.py:989-1056 | just the rows under the groups, or over the members, and with the filter on just those whose member has, as account and as group, no expire date or one after now |
| Groups.GroupDb.IndirectSearchesAgree | Cerebrum/Group.py:699-707 | for every member and group, the indirect search for groups and the indirect search for members agree |
| Flatten.TransformsAreWellTyped | contrib/create_flattened_group.py:147-206 | each transform answers with the true type of what it answers, given true lookup tables |
| Flatten.RemoveMembers | contrib/create_flattened_group.py:141-142 | the loop removes just these direct members |
| Flatten.AddMembers | contrib/create_flattened_group.py:143-144 | the loop adds just these direct members, and stops if and only if the group itself is one of them |
| Flatten.FetchWanted | contrib/create_flattened_group.py:123-133 | the wanted members are the transformed ones of all non-group, non-expired rows of the source's closure |
| Flatten.UnreachableIsIrrelevant | contrib/create_flattened_group.py:123-133 | changing the rows of a group that takes no part in the source changes nothing within the source |
| Flatten.SyncMembers | contrib/create_flattened_group.py:91-144 | the destination's direct members become what flattening gives, others' do not change; it stops if and only if the destination itself is to be added; if the destination takes no part in the source, or the transform is settled, this is still what flattening gives afterwards, so a second sync adds and removes nothing |
| Flatten.NoopRows | contrib/create_flattened_group.py:147-158 | copying leaves exactly the members under the source that are no groups and have not expired |
| Flatten.PersonalAccountRows | contrib/create_flattened_group.py:161-183 | taking accounts leaves exactly the primary accounts of the persons under the source |
| Flatten.PersonRows | contrib/create_flattened_group.py:186-206 | taking owners leaves exactly the persons under the source and the owners of the accounts there |
| Flatten.SettledIsStable | contrib/create_flattened_group.py:123-144 | with a settled transform a second sync changes nothing, whatever part the destination takes in the source |
| Flatten.StableMeaning | contrib/create_flattened_group.py:123-144 | a second sync never changes anything, for all tables, sources and destinations, if and only if the transform is settled |
| Flatten.WhichAreSettled | contrib/create_flattened_group.py:147-206 | copying and taking owners are settled; taking primary accounts is so only where it answers nothing |
| RecencyLists.TakeToFront | Cerebrum/Cache.py:135-156 | what a size limit has cut off makes no difference to what a use brings to the front |
| Caching.StoredWellFormed | Cerebrum/Cache.py:116-122 | after storing, registry, dictionary and timestamps have the same keys, each once, and no more than the size |
| Caching.Cache.DelChain | Cerebrum/Cache.py:171-176 | the mixins' deletions, in any order, and what they do to `_dont_lock` |
| Caching.Cache.DelItem | Cerebrum/Cache.py:95-105 | the key is gone from all three places; the lock is never taken twice and is afterwards as it was |
| Caching.Cache.EvictStale | Cerebrum/Cache.py:151-155 | the eviction loop drops just the last key if there is one too many |
| Caching.Cache.SetChain | Cerebrum/Cache.py:135-169 | what the mixins do together when storing depends on which they are, not on their order |
| Caching.Cache.SetItem | Cerebrum/Cache.py:86-93 | the whole state after storing, for any mixins in any order; the lock is free afterwards |
| Caching.Cache.GetChain | Cerebrum/Cache.py:128-133 | what the mixins do together on a lookup, timing out included |
| Caching.Cache.GetItem | Cerebrum/Cache.py:107-112 | the value, or KeyError for a missing or timed-out key, and the whole state after it; the lock is free afterwards |
| Caching.Cache.Delete | Cerebrum/Cache.py:171-176 | deletion from outside; `_dont_lock` stays set just when it fails with the timeout mixin |
| CacheRuns.RecentMeaning | Cerebrum/Cache.py:125-140 | the unbounded list has exactly the keys used, each once, ordered by their last use |
| CacheRuns.StepMovesToFront | Cerebrum/Cache.py:125-156 | one use is "move to front, then take n" |
| CacheRuns.HoldsMostRecentlyUsed | Cerebrum/Cache.py:125-156 | after any run of sets and successful gets the cache holds exactly the n most recently used keys, in recency order, with the values last set |
| CacheRuns.OrderAndTimeDoNotMatter | Cerebrum/Cache.py:58-66 | either order of the two mixins gives the step that runs are made of |
| CacheRuns.PerformAll | Cerebrum/Cache.py:86-156 | the cache itself, with the mixins in either order and at any times: after a whole run it holds exactly the n most recently used keys, in recency order, with the values last set, and the run goes through if and only if no lookup misses |
| CacheRuns.Memoized | Cerebrum/Cache.py:188-204 | a memoized function answers what the function does, unless a remembered answer has timed out, and remembers what it computed |
| CacheRuns.FailingDeleteLeavesMark | Cerebrum/Cache.py:171-176 | a failing deletion that leaves `_dont_lock` set |
| CacheRuns.MemoizedTimesOut | Cerebrum/Cache.py:196-198 | a memoized call that raises KeyError |
| ChangeLogCleaner.DeleteMarks | contrib/db_clean.py:190-191 | removing an event by its id is taking just that event out of what is left |
| ChangeLogCleaner.EventStep | contrib/db_clean.py:161-192 | one event dooms itself if it is too old, and the last event before it with its key |
| ChangeLogCleaner.ChangeLog.Classify | contrib/db_clean.py:145-183 | which events are too old, and under which key an event toggles others, if its columns have the numbers the key asks for |
| ChangeLogCleaner.ChangeLog.Sweep | contrib/db_clean.py:141-195 | the loop with `last_seen` removes the events marked as doomed, up to the first event whose key cannot be worked out |
| ChangeLogCleaner.ChangeLog.ProcessLog | contrib/db_clean.py:131-209 | the log afterwards is the old one filtered by the declarative rule, in the same order; it fails if and only if some key cannot be worked out, with what comes before that event cleaned and what comes after it untouched; without commit the log does not change |
| ChangeLogCleaner.MarksMeanSurvival | contrib/db_clean.py:141-192 | an event is kept if and only if its type is unknown, or it is younger than the minimum age, or it is not over its maximum age and no later eligible event has its key |
| ChangeLogCleaner.CleaningIsIdempotent | contrib/db_clean.py:131-209 | cleaning the survivors again at the same time removes nothing |
| ToggleKeyText.IntTextMeaning | contrib/db_clean.py:173-175 | numbers in keys are written in decimal, without leading zeros, and with a dash in front if they are negative |
| ToggleKeyText.TogglersDoNotMix | contrib/db_clean.py:172-181 | events under different togglers never have the same key |
| ToggleKeyText.SameKeyMeaning | contrib/db_clean.py:173-183 | two events have one key if and only if their columns agree, of either sign, and so do their parameters once they are joined |
| ToggleKeyText.DashFreeKeysTellApart | contrib/db_clean.py:173-183 | without dashes in the parameters but the last, one key means the same columns and the same parameters, but for values written alike |
| ToggleKeyText.OneNameKeysTellApart | contrib/db_clean.py:173-183 | with one parameter at most, the same for all texts |
| ToggleKeyText.SameTextMeaning | contrib/db_clean.py:181-182 | different values are written alike if and only if they are nothing and "None", or a number and its text |
| ToggleKeyText.TellsApartMeaning | contrib/db_clean.py:173-183 | one key means one subject, for all events, if and only if the toggler looks at no parameters |
| ToggleKeyText.TellsTextsApartMeaning | contrib/db_clean.py:173-183 | it does so for all events that have all parameters as texts if and only if the toggler looks at one parameter at most |
| ToggleKeyText.TwoNamesCollide | contrib/db_clean.py:176-183 | for any toggler that looks at two different parameters, two subjects that have one key |
| TriggerMap.BuiltOneMore | contrib/db_clean.py:262-266 | one more trigger is bound to what its rule says, if its change type is not bound yet, and is ambiguous if it is |
| TriggerMap.AddRule | contrib/db_clean.py:234-266 | a rule with an unknown trigger is ignored, else all its triggers are bound, or one of them was bound already |
| TriggerMap.ParseTogglers | contrib/db_clean.py:230-266 | it fails if and only if two triggers stand for one change type; otherwise a change type is in the map if and only if a trigger of a rule without unknown triggers stands for it, bound to nothing if the rule is not togglable, and else to the rule's number, columns and parameters |
| DiffSync.SourceTable.Populate | Cerebrum/Entity.py:874-903 | the data is extended, normalised; populating a second source fails without a change |
| DiffSync.SourceTable.DeleteStale | Cerebrum/Entity.py:913-930 | the loop deletes just the rows that are not as populated, and leaves just what has to be added |
| DiffSync.SourceTable.WriteDb | Cerebrum/Entity.py:905-938 | the rows of the source equal the populated data, others are untouched, and just the differing rows are deleted and added |
| DiffSync.SecondWriteIsIdle | Cerebrum/Entity.py:905-938 | of two writes of the same data, the second deletes and adds nothing and leaves all rows as they are |
| DiffSync.AffectedTable.Populate | Cerebrum/Entity.py:1487-1493 | populating fails unless the source has been declared as affected |
| DiffSync.AffectedTable.WriteOne | Cerebrum/Entity.py:1466-1480 | one type is inserted, updated, deleted or, if right, left alone |
| DiffSync.AffectedTable.WriteDb | Cerebrum/Entity.py:1458-1481 | the affected types equal what was populated, all other rows are untouched, and just the wrong rows are changed |
| DiffSync.SecondWriteAtIsIdle | Cerebrum/Entity.py:1458-1481 | of two writes of the same for the same types, the second changes nothing |
| PersonJoin.JoinSource | contrib/join_persons.py:111-125 | contacts, or addresses, of one source are the old person's overridden by the new person's |
| PersonJoin.JoinSources | contrib/join_persons.py:127-148 | the same for all sources listed, and no change for others |
| PersonJoin.MergeKeepsNew | contrib/join_persons.py:127-148 | no row of the new person is lost, and it is unaltered if and only if normalising does not alter it |
| PersonJoin.ContactKeptUnlessEmptyAlias | contrib/join_persons.py:111-125 | a contact of the new person is unaltered if and only if its alias is not an empty text; else it has none |
| PersonJoin.AddressesAreKept | contrib/join_persons.py:127-148 | the merged addresses are the old person's overridden by the new person's, as they are |
| PersonJoin.JoinNames | contrib/join_persons.py:88-108 | the names of one source are the old person's, of the variants listed, overridden by the new person's; none of the new person's changes |
| PersonJoin.JoinExternalIds | contrib/join_persons.py:58-86 | the new person has both persons' ids, its own where both have one, and the old person has none; no id is held twice after either write |
| PersonJoin.NewFirstHoldsTwice | contrib/join_persons.py:85-86 | with the writes the other way around, none would be held twice if and only if the new person had ids of all types that the old one has |
| OrgTree.OuStructure.ListOuPath | Cerebrum/OU.py:202-226 | the walk ends on every finite structure: with a path if and only if a walk leads to a root, with a loop reported if and only if a walk comes back to a unit it was at, and not found if and only if the unit has no row |
| OrgTree.StuckWalkExcludesLoop | Cerebrum/OU.py:216-225 | a walk that has to stop rules out any looping walk |
| OrgTree.OuStructure.Children | Cerebrum/OU.py:279-284 | the query gives each child once |
| OrgTree.OuStructure.ListAllChildren | Cerebrum/OU.py:285-292 | the recursion ends within the depth allowed if and only if no chain of units below is too long; then each unit below it is listed exactly once and nothing else |
| OrgTree.PathHasAncestors | Cerebrum/OU.py:202-226 | on any structure, a unit is below another just when the other is a further unit on its path, or the root at its end and its own parent |
| OrgTree.ListedJustWhenOnPath | Cerebrum/OU.py:276-293 | where the listing ends, it has exactly the other units on whose path the unit is |
| OrgTree.ListingEndsWithoutCycle | Cerebrum/OU.py:285-292 | the recursion ends at some depth if and only if there is no cycle at or below the unit |
| OrgTree.OuStructure.SetParent | Cerebrum/OU.py:250-274 | just the unit's parent changes; refused if and only if the parent has no row |
| OrgTree.OuStructure.UnsetParent | Cerebrum/OU.py:228-248 | just the unit's row is gone; refused if and only if it has other units for children |
| OrgTree.SetParentMakesCycle | Cerebrum/OU.py:250-274 | a new parent puts the unit on a cycle if and only if it is the unit or below it; a structure without cycles gets one only so |
| Constants.InsertCodes | Cerebrum/Constants.py:1271-1289 | the missing declared codes are inserted; without update it fails if and only if one is there already |
| Constants.Prune | Cerebrum/Constants.py:1290-1311 | the count shortcut misses no superfluous code; with delete the table ends equal to what is declared |
| Constants.Initializer.GetDependencyOrder | Cerebrum/Constants.py:1231-1245 | the order lists each class once, under what it waits for |
| Constants.Initializer.WriteClass | Cerebrum/Constants.py:1270-1312 | the table of one class is brought in line, others are left alone |
| Constants.Initializer.InsertClasses | Cerebrum/Constants.py:1269-1315 | the recursion ends; every class is written once and after the one it waits for, and everything that waits for a written class is written |
| Constants.AllReachableDone | Cerebrum/Constants.py:1317-1319 | what is left in the order at the end is just what cannot be reached |
| Constants.Initializer.Initialize | Cerebrum/Constants.py:1259-1320 | the classes written are exactly those whose dependencies lead to none through classes with constants, each once and in turn, with their tables right; it succeeds if and only if there are constants and these are all classes; all is circular if and only if no class waits for none; without update it fails on a present code if and only if a reachable class has one, with the classes before written and none after |
| Homes.AccountHome.Execute | design/core_tables.sql:1082-1122 | one statement: directories are complete, and homes point at directories of their own account, after each |
| Homes.AccountHome.SetHomedir | Cerebrum/Account.py:415-508 | a new directory gets a new id and is still to be set; an update changes just what is given, and the owner; refused if and only if the home is illegal, the directory incomplete, or another account uses it |
| Homes.AccountHome.SetHome | Cerebrum/Account.py:540-584 | the slot points at the directory, and the one it pointed at before is removed if the account does not use it otherwise; refused if and only if the directory is not there or not the account's own; every directory stays used or still to be set |
| Homes.AccountHome.ClearHome | Cerebrum/Account.py:379-413 | the slot is gone, and its directory if nothing uses it; every directory stays used or still to be set |
| Homes.AccountHome.Delete | Cerebrum/Account.py:365-377 | all homes and directories of just this account are gone; every directory stays used or still to be set |
| Homes.UpdateAllowed | design/core_tables.sql:1082-1122 | the constraints let a directory change if and only if it stays complete and, if it is used, with its account |
| Homes.SetAllowed | design/core_tables.sql:1120-1122 | the constraints let a home be set if and only if the directory is the account's own |
| Homes.SetKeepsCollected | Cerebrum/Account.py:570-573 | looking at the account's own homes is enough: the directory given up is used by some account if and only if by this one; after its removal every directory is used or still to be set |
| Homes.ClearKeepsCollected | Cerebrum/Account.py:405-413 | clearing a home, with the directory removed if nothing uses it, leaves every directory used or still to be set |
| Homes.DeleteKeepsCollected | Cerebrum/Account.py:365-377 | the same for deleting an account's homes, with the constraints kept between the two statements |
| ContactSort.RankMeaning | Cerebrum/Entity.py:1063-1077 | the place in the specification is that of the first of the most specific matching patterns; a contact is excluded if and only if none matches |
| ContactSort.StableSortOrdered | Cerebrum/Entity.py:1082-1084 | a stable sort keeps, key by key, the order it finds |
| ContactSort.TwoSortsAreOne | Cerebrum/Entity.py:1063-1089 | the answer has exactly the contacts matched, each once, ordered by place in the specification, preference and original position |
| ContactSort.SortContactInfoMeaning | Cerebrum/Entity.py:1063-1089 | what is answered is the one sequence of contacts that is so |
| ContactSort.AnswerIsUnique | Cerebrum/Entity.py:1063-1089 | there is no other such answer |
| MarkUpdate.Tracked.SetAttrFrom | Cerebrum/meta.py:229-250 | an assignment is handled by the first class that declares the attribute: read-only ones are set once, changed writable ones are noted in that class's list |
| MarkUpdate.Tracked.SetAttr | Cerebrum/meta.py:229-250 | the same for the whole hierarchy, and no change since the last flush is missing from its class's list |
| MarkUpdate.Tracked.ClearClass | Cerebrum/meta.py:266-281 | clearing removes the read-only attributes and empties the writable ones of the class, except those not to be cleared, and touches no others |
| Disks.Disk.constructor | Cerebrum/Entity.py:101-108 | a new object is cleared |
| Disks.Disk.Clear | Cerebrum/Disk.py:37-41 | afterwards the object is not associated with a disk and nothing is noted as changed |
| Disks.Disk.Assign | Cerebrum/meta.py:229-250 | an assignment keeps an object bound to its row, and is noted unless the value was the same |
| Disks.Disk.Find | Cerebrum/Disk.py:124-139 | the attributes are those of the row; an object that has an id already has to be cleared first |
| Disks.Disk.Populate | Cerebrum/Disk.py:43-61 | the attributes are as given, a bound disk stays bound to its row, and nothing is noted if and only if nothing was and they were so before; it fails for an object that was populated and not written |
| Disks.Disk.NothingChanged | Cerebrum/Disk.py:72-73 | with an empty list the attributes are those of the last flush: the early return is safe |
| Disks.Disk.WriteDb | Cerebrum/Disk.py:63-113 | afterwards the row of a bound disk equals the attributes, written or not, and it is bound to the same row; a new one is inserted under a new id unless nothing was noted; other rows are untouched; refused if and only if the row is incomplete or has another disk's path |
| Disks.FindAssignWriteFind | Cerebrum/Disk.py:63-139 | an assignment to a found disk is found again after a write, with nothing else changed, if and only if the table allows it |
| Disks.PopulateWriteFind | Cerebrum/Disk.py:43-139 | a new disk is found under a new id as it was populated, if and only if no other disk has its path |
| Disks.EmptyDiskIsNotInserted | Cerebrum/Disk.py:72-73 | a new disk that gets an id but no row |
| NameCache.SplitIsTheWords | Cerebrum/Person.py:524 | splitting a text gives its words: texts without white space that make the text with white space between them, and maybe before and after |
| NameCache.SplitAndJoin | Cerebrum/Person.py:523-529 | joining the words of a text gives them with single spaces |
| NameCache.UpdateCachedNames | Cerebrum/Person.py:474-529 | the full name is that of the first source able to give one: its own, or its first name, a space and its last name, or its last name alone if the first is empty; first and last name are both set or both unset; they are those of the first source from there on whose names make the full name, or else the last word of it and the words before that with single spaces, and are unset only for a full name of fewer than two words |
| NameCache.NameTable.SetCachedName | Cerebrum/Person.py:435-445 | the cached variant is set, changed or removed |
| NameCache.NameTable.Refresh | Cerebrum/Person.py:531-537 | the cached variants equal the names found, as above, and nothing changes if none was |

## Left out

- SQL text, database connections, transactions and the entries that methods write to the change log.
- Constraints of tables that are not in the model: code tables, persons, accounts, hosts, spreads, and affiliations that account types still need; and the widths of columns.
- Dates and clocks: a deletion date is a mark, expiry and ages are compared with a time that is passed in, and `last_date` of an affiliation is not kept.
- Account.py: `delete_ac_types`, the filters of `get_account_types` and `list_accounts_by_type`, `resolve_homedir`, and everything about authentication.
- PersonAffiliations.PersonAffiliations.WriteDb: rows of other persons are not in the table, because every statement selects by person; `nuke_affiliation_for_source_system`, which does not, is left out.
- PersonAffiliations.PersonAffiliations.AddAffiliation: the failure of a constant lookup, which the original would take for a missing row, does not occur, because codes are plain numbers here.
- PrecedenceRules.SearchIsMostSpecific: a rule whose value is empty is the same as no rule, and is not in the tree.
- Groups.GroupDb.Search: the filters by name, description, spread, type, creator, admin and moderator.
- Caching.Cache: dictionary methods that are not overridden, changing the size of a filled cache, a size of 0 and interleaving threads; the lock is a mark, for deadlocks of a thread with itself.
- ChangeLogCleaner.ChangeLog.ProcessLog: counters and progress messages, and commits in between, so that what a failing run leaves behind is before any rollback; parameters are texts or numbers, null counts as missing.
- TriggerMap.ParseTogglers: merging of default and local rules.
- DiffSync.SourceTable.WriteDb: the state of contact information and of addresses is kept apart, while in the original they share the name of the source being populated.
- DiffSync.AffectedTable.WriteDb: external id types that are declared twice; the original reads the table once, and would insert twice.
- PersonJoin.JoinNames: the cached names, which are recomputed when names change (`NameCache.NameTable.Refresh`).
- The joining of affiliations, account types, quarantines, spreads, memberships, consents and roles.
- OrgTree.OuStructure.ListOuPath: one perspective at a time; other perspectives do not take part.
- Constants.Initializer.Initialize: integer codes, which are unique for a string and stand for it, descriptions, codes with keys of two parts, and the interning of constants.
- ContactSort.TwoSortsAreOne: the order among contacts to be excluded, which compare inconsistently and are dropped in the end.
- MarkUpdate.Tracked.SetAttr: `__xerox__` and slots.
- Disks.Disk.WriteDb: the spread and entity mixins apart from ids; hosts, whose rename depends on their description changing.
- NameCache.UpdateCachedNames: white space is that of ASCII, and names are plain texts.
