# Fair schedule generator — a verified model

This project models `generateFairSchedule` from `src/utils/scheduleGenerator.ts`.
It is a greedy roster builder. It works through the hours of a shift in order.
Within each hour it works through the stations in order.
For each station it fills `requiredStaff` seats one at a time.

For every seat it takes, from the staff not yet placed in the hour, a member who
meets three conditions:

- the member may work the station;
- the member is not already on the station's list;
- the member has not been recorded as having worked with the station's first assignee.

Among those members it takes the one who has worked the station least.
Ties go to roster order, because the sort of the filtered list is stable and only its head is used.
Each choice increments one per-(member, station) counter.
When a station's second seat is filled, the first two names are recorded in a pair table.

The model is imperative, like the source. `ScheduleGenerator.FairScheduler` is
a class whose fields are the three tables the source mutates:

- `schedule`: hour → station → names;
- `staffAssignments`: name → station → counter;
- `staffPairs`: the pair table.

The run is a set of methods, one per loop level:

- `Run` iterates over hours;
- `GenerateHour` iterates over stations;
- `FillStation` iterates over seats;
- `FillSeat` fills one seat;
- `Place` applies the three in-place updates of one assignment.

The two read-only queries of the source become functions that read the object:

- `HaveWorkedTogether`;
- `FindBestStaffMember`, with its filter `Candidates` and its stable-sort head `EarliestLeast`.

The constructor establishes one invariant, `Valid()`, which is
`ScheduleSpec.RunInvariant` of the fields. `FillSeat`, `FillStation`,
`GenerateHour` and `Run` require it and keep it. `Place` and
`RecordStaffPair` do not mention it: they are stated as exact updates of the
fields, and `FillSeat` proves the invariant for the new values before it calls
`Place`. The invariant states the following:

- the schedule has one entry per hour and one list per station;
- no list is longer than its station's headcount;
- every name belongs to a member qualified for the station;
- nobody is placed twice in an hour;
- every counter equals the number of hours its member has worked its station (`HoursAt`);
- the pair table is exactly the first two names of every list that has two, hour by hour and station by station;
- the pair table has one entry per unordered pair, each with count 1.

A companion predicate `EmptyFrom(k, j)` says that every slot not yet reached is still empty.
It lets the counters and the pair table be related to the whole schedule at every step.

The loop levels also state what the greedy fill achieves. The source raises no
error when a station cannot be filled. The model states instead that every
list ends up `Saturated`: either full, or such that the table pairs every
roster member who may work the station and is not placed in the hour with the
list's first name (there may be no such member, and then the list may be
empty).

- `FillStation` proves this against the hour's names at the end of the station.
- `GenerateHour` and `Run` carry it forward as later stations and hours add busy names and table entries.
- `GenerateFairSchedule` states it for every hour and station of the result, against the hour's final names and the pairs of the whole schedule.

The module `ChoiceRule` states the choice rule itself, independently of the
code that applies it. It is written on the schedule as it stands when a
station's turn comes, not on the counters or the filtered lists:

- `Eligible`: a member is qualified for the station, not placed earlier in the
  hour, not yet on the list, and has no table entry with the list's first name.
- `Best`: an eligible member with no more hours at the station (`HoursAt`, over
  the earlier hours) than any eligible member, and with strictly fewer than
  every eligible member earlier in the roster.
- `StationChoices`: every seat of the list holds the `Best` member after the
  seats before it, and the list is short only when nobody is eligible.
- `SlotFair(k, j)`: the list of station `j` in hour `k` satisfies
  `StationChoices` against the names of stations `0..j-1` of hour `k`
  (`NamesBefore`) and the pairs of every earlier slot (`PairsBefore`).

`StationChoicesUnique` proves that at most one list satisfies `StationChoices`
for a given station start, so the rule fixes each list of the result given the
slots before it. `FillSeat`, `FillStation`,
`GenerateHour`, `Run` and `GenerateFairSchedule` each carry it: one seat, one
station, the stations of an hour so far, the hours so far, and the whole
result. `SeatChoice` is the bridge from the code to the rule. It turns the
counters into hours worked (`CountBridge`) and the table lookups into the rule's
pair condition (`EligibleBridge`). It relates the code's pick, through
`BestInRosterOrder`, to the rule's `Best`.

None of these methods changes slots outside its own part of the schedule:
`FillStation` changes one list and `GenerateHour` one hour.

One consequence of the invariant, proved rather than assumed: the
`existingPair.count++` branch of `recordStaffPair`
(`src/utils/scheduleGenerator.ts:59-60`) is never taken from the generator. The
second name on a list passed the `!haveWorkedTogether` filter against the first.
Every entry has count at least 1, so the lookup finds no entry for that pair, and
`Place` records it only under that condition. `RecordStaffPair` itself still
models both branches.

Preconditions (`Roster.WellFormedInputs`):

- **Distinct names.** Staff names, station names and hour labels are each
  distinct, because each is a dictionary key in the source. A repeated name
  would overwrite an entry at lines 29, 37 or 38.
- **No station named `"__proto__"`** (`PlainStationNames`). The generator
  stores each station name as an own key of an hour's row (line 39) and of
  each counter table (line 31); an assignment to `"__proto__"` sets the
  object's prototype instead, so that one name is not a dictionary key there.
- **Headcount at least 1.** Every headcount is at least one; the station dialog
  (`src/components/AddStationDialog.tsx:29`) enforces this.
- **Empty inputs allowed.** Staff and stations may be empty. The caller rejects
  empty inputs (`src/pages/Index.tsx:54`), but the generator handles them, so
  the model does not exclude them. With no staff every list stays empty. With
  no stations every hour maps to an empty row, which holds no lists at all.

## Model

| member | source | states |
|---|---|---|
| PairTable.FindPair | src/utils/scheduleGenerator.ts:45-48 | `find` with the either-order predicate: no result exactly when no entry names the two; otherwise the index of an entry naming them, with no earlier entry naming them |
| PairTable.FindPairSymmetric | src/utils/scheduleGenerator.ts:45-48 | the lookup gives the same result whichever order the two names are given in |
| PairTable.Recorded | src/utils/scheduleGenerator.ts:53-64 | recording a pair not in the table appends it with count 1; recording a pair in the table keeps the length, raises the found entry's count by one while keeping its names, and changes no other entry |
| PairTable.RecordedFinds | src/utils/scheduleGenerator.ts:53-64 | after recording, the lookup finds the pair with a count of at least 1 |
| PairTable.RecordedKeepsUnique | src/utils/scheduleGenerator.ts:54-62 | recording keeps at most one entry per unordered pair |
| PairTable.FindPairExtends | src/utils/scheduleGenerator.ts:45-48 | a pair found in the table is still found once entries are pushed onto its end |
| ScheduleSpec.Increment | src/utils/scheduleGenerator.ts:103 | exactly one counter, (name, station), goes up by one; every other counter and every key set are unchanged |
| ScheduleSpec.HoursAtAfterAppend | src/utils/scheduleGenerator.ts:101-103 | appending a name to one list raises that name's hours at that station by one and changes no other count, so the increment at line 103 keeps counters equal to hours worked |
| ScheduleSpec.HoursAtEmpty | src/utils/scheduleGenerator.ts:28-41 | with every list empty, every hours-worked count is 0, matching the zero counters |
| ScheduleSpec.AppendKeepsRowOk | src/utils/scheduleGenerator.ts:99-102 | appending a qualified name that is new to the hour, at a station with a free seat, keeps the hour within capacity, qualified and free of double bookings |
| ScheduleSpec.AppendKeepsScheduleOk | src/utils/scheduleGenerator.ts:99-102 | the same for the whole schedule, which also keeps one entry per hour and one list per station |
| ScheduleSpec.AppendKeepsCounters | src/utils/scheduleGenerator.ts:101-103 | appending a name and incrementing its counter keeps every counter equal to the hours worked |
| ScheduleSpec.TablePairsAfterAppend | src/utils/scheduleGenerator.ts:107-109 | when all later slots are empty, appending a name adds a pair to the end of the table exactly when it becomes its list's second name, so only positions 0 and 1 of a list form a pair |
| ScheduleSpec.NewPairKeepsTable | src/utils/scheduleGenerator.ts:107-109 | a pair not already in the table keeps one entry per unordered pair, each with count 1 |
| ScheduleSpec.SeatKeepsInvariant | src/utils/scheduleGenerator.ts:99-110 | one assignment (append to the list, increment the counter, append the new pair) keeps the whole run invariant and leaves later slots empty |
| ScheduleSpec.EmptyInvariant | src/utils/scheduleGenerator.ts:23-41 | empty lists, zero counters and an empty pair table satisfy the run invariant, with every slot still to be reached |
| ScheduleSpec.SaturatedGrows | src/utils/scheduleGenerator.ts:96 | a list from which every free qualified member was kept by the pair rule stays that way as more names become busy in the hour and more pairs are pushed onto the table |
| ScheduleSpec.HourNamesFill | src/utils/scheduleGenerator.ts:89-102 | filling an empty list of the hour adds exactly its names to the names placed in the hour, the set the source keeps as `hourlyAssignments` |
| ScheduleGenerator.AvailableStaffMembers | src/utils/scheduleGenerator.ts:96 | for `AvailableStaff`, the filter at line 96 (whose own contract bounds its length by the roster's): a member is in the filtered list exactly when it is in the roster and its name is not in the hour's set |
| ScheduleGenerator.AvailableStaffKeepsOrder | src/utils/scheduleGenerator.ts:96 | the filter keeps roster order: an earlier free member comes before a later one in the filtered list |
| ScheduleGenerator.ZeroCounts | src/utils/scheduleGenerator.ts:30-32 | one member's counter table has exactly their stations as keys, all 0 |
| ScheduleGenerator.InitialCounters | src/utils/scheduleGenerator.ts:28-33 | one counter table per staff name, keyed by that member's stations, every counter 0 |
| ScheduleGenerator.InitialSchedule | src/utils/scheduleGenerator.ts:36-41 | one entry per hour, one list per station name in each, every list empty |
| ScheduleGenerator.FairScheduler.constructor | src/utils/scheduleGenerator.ts:23-41 | the initial state satisfies the run invariant, with every list empty, every counter 0 and an empty pair table |
| ScheduleGenerator.FairScheduler.HaveWorkedTogether | src/utils/scheduleGenerator.ts:44-50 | true only if some entry names the two with count at least 1; when every count is positive, true exactly when some entry names the two |
| ScheduleGenerator.FairScheduler.HaveWorkedTogetherSymmetric | src/utils/scheduleGenerator.ts:44-50 | the check is symmetric in its two arguments |
| ScheduleGenerator.FairScheduler.RecordStaffPair | src/utils/scheduleGenerator.ts:53-64 | the table becomes the recorded table (a new entry with count 1, or the found entry's count up by one), and afterwards the two count as having worked together in both orders |
| ScheduleGenerator.FairScheduler.NotWorkedTogetherNotFound | src/utils/scheduleGenerator.ts:59-62 | while every count is positive, a pair that has not worked together has no entry, so recording it takes the append branch |
| ScheduleGenerator.FairScheduler.CandidatesMembers | src/utils/scheduleGenerator.ts:73-77 | for `Candidates`, the filter at lines 73-77 (whose own contract bounds its length by the available list's): a member is in the filtered list exactly when it is in the available list and a candidate (`IsCandidate`, lines 74-76): qualified, not already on the list, and not paired with its first name |
| ScheduleGenerator.FairScheduler.EarliestLeast | src/utils/scheduleGenerator.ts:82-84 | the head of a stable ascending sort by counter (`AssignmentCount`, which reads a missing counter as 0 like the `\|\| 0` at line 83): the least counter, with every earlier element strictly larger |
| ScheduleGenerator.FairScheduler.EarliestLeastInAvailable | src/utils/scheduleGenerator.ts:73-84 | the head of the sorted filtered list has the least counter among all candidates in the available list, and every earlier candidate there has a larger one |
| ScheduleGenerator.FairScheduler.FindBestStaffMember | src/utils/scheduleGenerator.ts:67-85 | null exactly when no available member is a candidate; otherwise a candidate with the least counter, ties going to the earliest |
| ScheduleGenerator.FairScheduler.NoCandidateSaturated | src/utils/scheduleGenerator.ts:73-79 | when the search returns null, every free member qualified for the station is kept off it by the pair rule: the list has a first name and the table pairs the member with it |
| ScheduleGenerator.FairScheduler.BestInRosterOrder | src/utils/scheduleGenerator.ts:96-97 | the choice rule on the roster itself (`RosterBest`): the chosen member is free, a candidate, has the least counter among all free candidates, and every earlier free candidate in the roster has a larger counter |
| ScheduleGenerator.FairScheduler.Place | src/utils/scheduleGenerator.ts:100-109 | the list gains the name, exactly one counter goes up by one, and the pair table gains the first two names exactly when the list reaches two |
| ScheduleGenerator.FairScheduler.FillSeat | src/utils/scheduleGenerator.ts:96-110 | with no candidate nothing changes; otherwise the best candidate is appended, marked busy for the hour and counted, and the invariant is kept; either way only the station's list changes, the busy set holds the list's names, and the pair table only grows at its end. Against the state at the station's start (`SeatReady`, `Seated`), every seat of the new list follows the rule (`ChosenUpTo`), and the list stays unchanged exactly when nobody is eligible (`NoneEligible`) |
| ScheduleGenerator.FairScheduler.FillStation | src/utils/scheduleGenerator.ts:91-111 | the invariant is kept; only the station's own list changes; the hour's busy set gains exactly that list's names; the pair table only grows at its end; with no error raised, the list ends full or with no candidate left, so it is saturated; the list is the one the rule builds (`StationChoices`) from the names, hours and table at the station's start |
| ScheduleGenerator.FairScheduler.GenerateHour | src/utils/scheduleGenerator.ts:88-112 | the invariant is kept and later hours stay empty; only the hour's own row changes; the pair table only grows at its end; every station of the hour ends full or saturated against the names placed in the hour; every station of the hour is `SlotFair` (`HourFair`) |
| ScheduleGenerator.FairScheduler.Run | src/utils/scheduleGenerator.ts:87-113 | the invariant holds at the end (counters equal hours worked, the table holds the pairs of all lists); every station of every hour is full or saturated against its hour's names and the final table; every slot is `SlotFair` (`RunFair`) |
| ChoiceRule.BestUnique | src/utils/scheduleGenerator.ts:82-84 | two roster positions that both satisfy `Best` for the same seat are the same position: the least count is shared, and ties go to the earlier one |
| ChoiceRule.PrefixesAgree | src/utils/scheduleGenerator.ts:95-97 | two lists built by the rule from the same state agree on every seat both have |
| ChoiceRule.StationChoicesUnique | src/utils/scheduleGenerator.ts:91-111 | at most one list satisfies `StationChoices` for a station and a starting state, so the rule determines the list |
| ChoiceRule.SomeoneEligible | src/utils/scheduleGenerator.ts:95-97 | a seat of a rule-built list was filled, so somebody was eligible for it |
| ChoiceRule.ChosenUpToAppend | src/utils/scheduleGenerator.ts:100 | appending the rule's choice for the next seat keeps every earlier seat's choice valid |
| ChoiceRule.LeadPairAppend | src/utils/scheduleGenerator.ts:107-109 | the pair appended when the list reaches two names is the pair its first two names form |
| ChoiceRule.ChoicesTransfer | src/utils/scheduleGenerator.ts:82-84 | the rule depends on the schedule only through the hours worked at the station |
| ChoiceRule.HoursAtFrame | src/utils/scheduleGenerator.ts:103 | the hours worked depend only on the lists of the hours counted |
| ChoiceRule.HoursAtPrefix | src/utils/scheduleGenerator.ts:88 | with the hours from `n` on still empty, the hours worked over all hours equal those over the first `n` |
| ChoiceRule.HoursAtFill | src/utils/scheduleGenerator.ts:101-103 | filling an empty list does not change the hours worked of anyone not on it |
| ChoiceRule.NamesBeforeFrame | src/utils/scheduleGenerator.ts:89 | the names placed before station `j` depend only on the lists of stations `0..j-1` |
| ChoiceRule.NamesBeforeStep | src/utils/scheduleGenerator.ts:102 | filling station `j` adds exactly its list's names to the names placed before station `j + 1` |
| ChoiceRule.PairsBeforeFrame | src/utils/scheduleGenerator.ts:107-109 | the pairs before a slot depend only on the lists of the earlier slots |
| ChoiceRule.TablePairsPrefix | src/utils/scheduleGenerator.ts:107-109 | with every slot from `(k, j)` on empty, the pairs of the whole schedule are the pairs before slot `(k, j)` |
| ChoiceRule.LaterHoursEmpty | src/utils/scheduleGenerator.ts:88 | with every later hour empty, the pairs from hour `k` on are those of hour `k` alone |
| ChoiceRule.RowPairsPrefix | src/utils/scheduleGenerator.ts:91 | with the stations from `j` on empty, an hour's pairs are those of its stations `0..j-1` |
| ChoiceRule.SlotFairFrame | src/utils/scheduleGenerator.ts:91-111 | a slot's fairness depends only on that slot and the slots before it, so later fills keep it |
| ChoiceRule.FillMakesSlotFair | src/utils/scheduleGenerator.ts:91-111 | a list built by the rule from the state at its station's start makes that slot fair once written into the schedule |
| ChoiceRule.HourFairStep | src/utils/scheduleGenerator.ts:91 | filling station `j` this way extends the fair stations of the hour from `0..j-1` to `0..j` |
| ChoiceRule.HourFairKeep | src/utils/scheduleGenerator.ts:91 | filling station `j` keeps stations `0..j-1` of the hour fair |
| ChoiceRule.RunFairStep | src/utils/scheduleGenerator.ts:88 | a fair hour `k` extends the fair hours from `0..k-1` to `0..k` |
| ChoiceRule.LeadPairNoMatch | src/utils/scheduleGenerator.ts:76 | a member not on the list matches the list's first name in the grown table exactly when it already did before the station |
| ScheduleGenerator.FairScheduler.EligibleBridge | src/utils/scheduleGenerator.ts:73-77 | during a station, being free in the hour and a candidate is the same as being eligible by the rule against the station's start |
| ScheduleGenerator.FairScheduler.CountBridge | src/utils/scheduleGenerator.ts:83 | during a station, the counter of a qualified member not on the list is its hours worked there before the station |
| ScheduleGenerator.FairScheduler.SeatChoice | src/utils/scheduleGenerator.ts:96-97 | the member the code picks for the next seat is the rule's `Best` for it, and when it picks nobody, nobody is eligible |
| ScheduleGenerator.FairScheduler.SeatRule | src/utils/scheduleGenerator.ts:96-100 | a pick extends the list by the rule's choice (so somebody was eligible); no pick means nobody was |
| ScheduleGenerator.FairScheduler.StationStart | src/utils/scheduleGenerator.ts:92-93 | a station begins with an empty list, and nothing has been placed at it or recorded for it yet |
| ScheduleGenerator.FairScheduler.StationDone | src/utils/scheduleGenerator.ts:95-111 | once the seats are tried, the list is full or the search finds nobody, the list is saturated, and it satisfies `StationChoices` |
| ScheduleGenerator.GenerateFairSchedule | src/utils/scheduleGenerator.ts:18-116 | the result has one entry per hour and one list per station; lists respect headcounts; every name is qualified; nobody is placed twice in an hour; no two lists share their first two names as an unordered pair; a short list is one that no roster member free in that hour and qualified for the station could join, because the pair table links each of them to its first name; and for every hour `k` and station `j`, each seat holds an eligible member (qualified, not on stations `0..j-1` of hour `k`, not earlier on the list, and not paired in the earlier slots with the list's first name) with the fewest hours at the station over hours `0..k-1` among the eligible, every eligible member earlier in the roster having more, and a short list has nobody eligible left |

## Left out

- The sort at lines 82-84 is modelled only through its head (`EarliestLeast`), which is all the code uses; the model does not build the whole sorted array.
- A station named `"__proto__"` is excluded by `WellFormedInputs` (`PlainStationNames`). Assigning that key sets an object's prototype rather than creating an own key, so the source leaves the station out of the hour's row, reads its counters as `NaN` and never advances them; the model treats station names as plain dictionary keys and does not model this. A member's own station list may still hold `"__proto__"`: the model's `ZeroCounts` then has a counter the source lacks, which no station reads.
- JavaScript's behaviour on repeated names (overwritten dictionary entries, `undefined++`) is not modelled; distinct names are a precondition instead.
- A non-integer `requiredStaff` (the source types it as `number`) is not modelled: headcounts are integers.
- The order of keys is not modelled. The source's objects keep hours and stations in insertion order, and the display reads the hour order back with `Object.keys` (`src/components/ScheduleDisplay.tsx:98`). A Dafny map has no order. The order of hours and stations stays available from the `hours` and `stations` sequences.
- The UI files (`src/components/`, `src/pages/`) are not part of this model; only their guards on headcount and on empty input appear, as described above.
