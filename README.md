# Meeting scheduler core, in Dafny

A model of the non-UI part of a team meeting scheduler: the `MeetingScheduler` class of
`main.py`. It reads an availability table in which each row is a team member and each
column after the first is a date. Each cell holds free time written as `9AM-12PM`,
`1-2PM; 3-6PM`, or an absence word (`NA`, `On Leave`, `OFF`, ...). The class then looks
for meeting slots of a requested length:

- **perfect slots**: every member is free;
- **alternatives**: at least two members are free, ranked by the fraction free
  (the coverage).

The model keeps the source's structure:

| Module | What it models |
|---|---|
| `Text` | The ASCII string operations used (`strip`, `upper`, `lower`, substring test, `re.split('[,;]')`, digits, string order). |
| `Assoc` | Python's insertion-ordered `dict`, as a sequence of pairs: `Put` replaces a value in place or appends a new key. |
| `Hours` | The AM/PM conversion of `parse_time_slot` and `format_time`. |
| `Parser` | `parse_time_slot`: the regular expression `(\d+)\s*(AM\|PM)?\s*[-–]\s*(\d+)\s*(AM\|PM)` as a deterministic scanner, proved to find the same groups as any match of the pattern, and to find the leftmost one; the method `ParseTimeSlot` is the loop over the `,`/`;` pieces. |
| `ParserFacts` | What `parse_time_slot` promises about whole cells. |
| `ScheduleIndex` | `parse_availability` as a function of the table. |
| `Intersect` | `_intersect_all_slots` and `_find_common_slots`, as loops proved equal to a fold of pairwise overlaps, with soundness, completeness and size lemmas. |
| `Finder` | `find_best_meeting_time` as a function of the index and the duration: dates, classification of members, candidate entries, the stable sort by coverage and the cut to ten, with its properties. |
| `Scheduler` | The class itself. Fields `availabilityData` and `parsedSchedules`; `ParseAvailability` and `FindBestMeetingTime` are written as the source's loops and proved to compute the functions above. |

The model keeps these quirks of the code:

- A start without a period takes PM from a PM end only when its number is below 12. So
  `9-12PM` gives `(21, 12)` and `12-1PM` gives `(12, 13)`.
- Hours are not range-checked: `11AM-13PM` gives `(11, 25)`.
- An absence keyword anywhere in a cell empties the whole cell, even when another piece
  holds a valid range.

A perfect slot reappears among the alternatives, with coverage 1, only when the team has
two or more members (lemma `PerfectAlsoAlternative`). A single member gets perfect slots
but never an alternative (`SingleMemberNoAlternatives`, `SingleMemberExample`). The
ten-entry cut can also drop such a copy.

## Model

| member | source | states |
|---|---|---|
| Text.Strip | main.py:28 | the result neither starts nor ends with whitespace |
| Text.StripTrims | main.py:28 | the stripped string is a slice of the input with only whitespace removed before and after it |
| Text.Split | main.py:39 | at least one piece, and no piece holds a `,` or `;` |
| Text.SplitJoin | main.py:39 | one more piece than separators, and pieces and separators rebuild the text |
| Text.NatToString | main.py:250 | the decimal text of a number is non-empty and all digits, starts with `0` only for zero, and the text of zero is exactly `0`, so no result has a leading zero |
| Text.DigitsRoundTrip | main.py:50 | `int` of the decimal text of `n` is `n` |
| Text.LessIrreflexive | main.py:141 | no string sorts before itself |
| Text.LessTransitive | main.py:141 | string order is transitive |
| Text.LessTotal | main.py:141 | any two distinct strings are ordered one way |
| Text.LessAsymmetric | main.py:141 | string order is asymmetric |
| Assoc.Get | main.py:146-147 | absent exactly when the key is not stored; otherwise the stored pair's value |
| Assoc.Put | main.py:119 | no contract of its own: `PutGet`, `PutKeys`, `PutNew` and `PutDistinct` state what `d[k] = v` does |
| Assoc.PutKeys | main.py:119 | assigning keeps an existing key at its place and appends a new key at the end |
| Assoc.PutNew | main.py:147 | assigning a key not yet present appends the pair |
| Assoc.PutGet | main.py:119 | after `d[k] = v`, `d[k]` is `v` and every other key reads as before |
| Assoc.PutDistinct | main.py:121 | assignment never stores a key twice |
| Hours.To24 | main.py:56-65 | for numbers 1-12: AM gives an hour below 12, PM an hour from 12 to 23 |
| Hours.ConvertRange | main.py:50-70 | the end, and a start with its own period, are converted independently by the same rule |
| Hours.InferredStartAgreesWithEndPeriod | main.py:66-69 | a start without a period converts like one carrying the end's period, except 12 before an AM end and numbers above 12 before a PM end |
| Hours.Label | main.py:245-254 | the number `format_time` writes for an hour of the day is between 1 and 12 |
| Hours.FormatThenConvert | main.py:245-254 | for 0 <= h < 24, `format_time(h)` is a number and a period that convert back to h |
| Hours.FormatTime | main.py:245-254 | no contract of its own: `FormatThenConvert` and `ConvertThenFormat` state what it writes |
| Hours.ConvertThenFormat | main.py:56-65 | every label 1-12 AM/PM names an hour of the day that `format_time` writes back as that label |
| Parser.Search | main.py:47 | the position found holds a match and no earlier position does; none found means no position matches |
| Parser.ScanSound | main.py:47 | what the scanner accepts at a position is a match of the pattern there |
| Parser.ScanComplete | main.py:47 | wherever the pattern matches, the scanner accepts and reads the same four groups |
| Parser.PartSlots | main.py:41-72 | a piece gives at most one interval, and a blank piece gives none |
| Parser.Find | main.py:47 | no contract of its own: `FindLeftmost` states what `re.search` returns |
| Parser.FindLeftmost | main.py:47 | nothing is found exactly when the pattern matches nowhere; otherwise the groups returned are those of a leftmost match |
| Parser.PartSlotsMatch | main.py:42-72 | a piece gives an interval exactly when its trimmed text has a match, and the interval is the conversion of the leftmost match's groups |
| Parser.ParsePart | main.py:41-72 | one pass of the loop over pieces yields exactly `PartSlots` of the piece |
| Parser.ParseCell | main.py:20-74 | no contract of its own: `ParseTimeSlot` computes it and the `ParserFacts` lemmas state its properties |
| Parser.ParseTimeSlot | main.py:20-74 | the loop over the pieces returns exactly `ParseCell` of the cell |
| ParserFacts.ParsePartsAppend | main.py:41-72 | the pieces' intervals come out piece after piece, in order |
| ParserFacts.ParsePartsAtMostOnePerPart | main.py:41-72 | at most one interval per non-blank piece |
| ParserFacts.ParsePartsEmpty | main.py:41-72 | no interval exactly when no piece yields one |
| ParserFacts.ParseCellEmpty | main.py:28-33 | an absence keyword empties the result; otherwise the result is non-empty exactly when some piece matches |
| ParserFacts.OnLeaveWins | main.py:31-33 | `On Leave, 9AM-12PM` gives nothing, despite its valid range |
| ParserFacts.ParseRendered | main.py:47-72 | a cell written as one range parses to exactly that range's conversion |
| ParserFacts.FormatParseRoundTrip | main.py:245-254 | two hours of the day written with `format_time` and a dash parse back to those two hours |
| ParserFacts.NineToTwelvePM | main.py:66-69 | `9-12PM` gives `(21, 12)` |
| ParserFacts.TwelveToOnePM | main.py:66-69 | `12-1PM` gives `(12, 13)` |
| ParserFacts.ThirteenPM | main.py:56-57 | `11AM-13PM` gives `(11, 25)`: hours are not range-checked |
| ScheduleIndex.KeptNames | main.py:105-107 | no kept name is empty, `nan` or `none` in any case |
| ScheduleIndex.Dedup | main.py:121 | the same names as the input, each once |
| ScheduleIndex.DedupPrefix | main.py:121 | order of first appearance: deduplicating any prefix of the names gives a prefix of the deduplicated whole |
| ScheduleIndex.RowScheduleComplete | main.py:110-119 | with distinct date columns, a member maps every column, in column order, to the parse of its cell |
| ScheduleIndex.BuildKeys | main.py:105-121 | the members are the kept trimmed names, each once, in order of their first row |
| ScheduleIndex.RowSchedule | main.py:110-119 | no contract of its own: `RowScheduleComplete` states what a member's schedule holds |
| ScheduleIndex.Build | main.py:103-121 | no contract of its own: `BuildKeys` and `BuildLastRowWins` state which members it holds and with what |
| ScheduleIndex.BuildIndex | main.py:91-124 | no contract of its own: `IndexCell` states each member's entry |
| ScheduleIndex.LastRowNamed | main.py:105-121 | the row found is a kept row with that trimmed name; none found means no kept row has it |
| ScheduleIndex.LastWhere | main.py:121 | the position found satisfies the test and no later one does; none found means no position does |
| ScheduleIndex.LastRowNamedAt | main.py:105-121 | the row found is the one at the last position whose row bears the name |
| ScheduleIndex.LastRowNamedIsLast | main.py:105-121 | the row found is the last kept row bearing the name, and none is found exactly when no kept row bears it |
| ScheduleIndex.BuildLastRowWins | main.py:121 | a repeated name takes the schedule of its last row; a name on no kept row is absent |
| ScheduleIndex.IndexCell | main.py:105-121 | a member's entry is its last row's schedule, mapping each date column to that row's parsed cell |
| Intersect.KeepLongEnough | main.py:237-241 | keeps exactly the intervals at least `duration` long, and no more intervals than it was given |
| Intersect.KeepLongEnoughAppend | main.py:237-241 | the filter keeps order: filtering a concatenation concatenates the filtered parts |
| Intersect.KeepLongEnoughOne | main.py:239-241 | a single interval is kept exactly when it is at least `duration` long |
| Intersect.FoldEmpty | main.py:233-234 | once the running intersection is empty it stays empty, so the early `break` changes nothing |
| Intersect.OverlapStep | main.py:219-229 | the nested loops build all pairwise overlaps of positive length |
| Intersect.IntersectAllSlots | main.py:208-243 | the method returns exactly `IntersectAll` of its arguments |
| Intersect.IntersectAll | main.py:208-243 | no lists give no intervals, and every interval returned is at least `duration` long |
| Intersect.FindCommonSlots | main.py:192-206 | returns `IntersectAll` of the members' lists in dictionary order |
| Intersect.CoveredTrans | main.py:224-229 | an interval within one that lies within a list's interval lies within that list's interval |
| Intersect.OverlapsWithSound | main.py:222-229 | each overlap has positive length and lies within both intervals |
| Intersect.OverlapsSound | main.py:221-229 | each overlap has positive length and lies within an interval of each list |
| Intersect.OverlapsWithComplete | main.py:222-229 | a positive-length stretch within `x` and within some interval of the list lies within an overlap |
| Intersect.OverlapsComplete | main.py:221-229 | a positive-length stretch within an interval of each list lies within an overlap |
| Intersect.FoldSound | main.py:218-234 | the running intersection lies within the first list and every later list |
| Intersect.FoldComplete | main.py:218-234 | a positive-length stretch within every list survives the fold |
| Intersect.IntersectSound | main.py:208-243 | each result is long enough and lies within an interval of every list; with two or more lists it has positive length |
| Intersect.IntersectComplete | main.py:208-243 | a positive-length, long-enough stretch within every list lies within a result |
| Intersect.OverlapsWithNothing | main.py:218-231 | intersecting with an empty list leaves nothing |
| Intersect.FoldWithEmptyList | main.py:218-234 | an empty later list empties the fold |
| Intersect.IntersectWithEmptyList | main.py:208-243 | any empty list empties the result |
| Intersect.OverlapsWithSize | main.py:222-229 | at most one overlap per interval of the list |
| Intersect.OverlapsSize | main.py:221-229 | at most the product of the two lengths |
| Intersect.FoldSize | main.py:218-234 | the fold has at most the product of all lengths |
| Intersect.IntersectSize | main.py:208-243 | the result has at most the product of the list lengths |
| Finder.AddAll | main.py:135 | the elements of both, without repeats if the first had none |
| Finder.AllDates | main.py:133-135 | every date some member has, each once |
| Finder.InsertDate | main.py:141 | insertion adds exactly one occurrence of the element and keeps every other element with its multiplicity |
| Finder.SortDates | main.py:141 | sorting keeps length and elements |
| Finder.InsertDateSorted | main.py:141 | insertion keeps a strictly ordered sequence ordered |
| Finder.SortDatesSorted | main.py:141 | distinct dates come out strictly increasing |
| Finder.SortedUnique | main.py:141 | two strictly ordered sequences with the same elements are equal, so `sorted` of the set has one result |
| Finder.DatesOrdered | main.py:133-141 | the dates visited are strictly increasing, are exactly the dates some member has, and are the only such sequence |
| Finder.AvailableOn | main.py:143-148 | no more available members than members |
| Finder.UnavailableOn | main.py:171-172 | exactly the members not available |
| Finder.UnavailableIsAbsent | main.py:171-172 | given who is free on a date, the unavailable list is exactly the members with no interval that day, in team order |
| Finder.InsertByCoverage | main.py:185 | insertion adds exactly the one entry |
| Finder.SortByCoverage | main.py:185 | the sort keeps length and entries |
| Finder.InsertByCoverageSorted | main.py:185 | insertion keeps coverage descending |
| Finder.InsertByCoverageStable | main.py:185 | the inserted entry goes after those of equal coverage, and nothing else moves |
| Finder.SortByCoverageSorted | main.py:185 | the result is in descending coverage |
| Finder.SortByCoverageStable | main.py:185 | entries of equal coverage keep their original order |
| Finder.FreeOnFrom | main.py:145-147 | each entry listed as free is a member with that member's non-empty intervals for the date |
| Finder.FreeOnHas | main.py:145-147 | each member with intervals on the date is listed as free |
| Finder.FreeOnFull | main.py:149-156 | everyone is available exactly when the count equals the team size, and then in team order |
| Finder.AvailableIsFree | main.py:143-148 | `members_available` is the free members with their intervals, in team order |
| Finder.FullDay | main.py:156-158 | on a full day the lists intersected are every member's list, in team order |
| Finder.FreeNames | main.py:145-147 | a member is available on a date exactly when its list for that date is non-empty |
| Finder.OnDatePerfectSound | main.py:156-164 | a date's perfect entries satisfy `PerfectValid` |
| Finder.OnDate | main.py:142-183 | no contract of its own: the `OnDate...Sound` and `OnDate...Complete` lemmas state what one date contributes |
| Finder.OnDateAlternativeSound | main.py:169-177 | a date's alternatives satisfy `AlternativeValid`: the available names are the free members in team order, the unavailable names the others in team order, each name once, so the coverage counts members |
| Finder.AlternativeEntryValid | main.py:169-177 | the alternative built from one common interval of a date satisfies `AlternativeValid` |
| Finder.AvailableNames | main.py:143-172 | the names listed as available are the free members in team order, each a member and each once; the unavailable list is the absent members in team order, each once |
| Finder.AbsentDistinct | main.py:171-172 | with distinct member names, no unavailable member is listed twice |
| Finder.AvailableDistinct | main.py:143-148 | `members_available` never holds a member twice |
| Finder.FreeCovered | main.py:169-177 | a common interval of the free members is long enough, of positive length and within each free member's list for the date |
| Finder.OnDatePerfectComplete | main.py:156-164 | every stretch common to all members and long enough lies within a perfect entry of that date |
| Finder.OnDateAlternativeComplete | main.py:169-177 | with two members free, every stretch common to the free members and long enough lies within an alternative |
| Finder.UnavailableNone | main.py:171-172 | no one is unavailable when everyone is available |
| Finder.OnDatePerfectAlsoAlternative | main.py:156-177 | with two or more members, each perfect entry is also an alternative with no one unavailable and coverage 1 |
| Finder.CollectFrom | main.py:141-183 | every entry collected comes from one visited date |
| Finder.Collect | main.py:141-183 | no contract of its own: `CollectFrom` and `CollectHas` state that it gathers exactly the entries of the visited dates, and `CollectDateOrder` that their dates never go backwards |
| Finder.CollectHas | main.py:141-183 | every entry of every visited date is collected |
| Finder.CollectHasPerfect | main.py:159-164 | every perfect entry of every visited date is collected |
| Finder.CollectHasAlternatives | main.py:166-181 | every alternative of every visited date is collected |
| Finder.OnDateDates | main.py:159-181 | every perfect entry and alternative a date contributes carries that date |
| Finder.OnDateByDate | main.py:159-181 | the perfect entries and the alternatives one date contributes are each in date order |
| Finder.CollectBefore | main.py:141-183 | when the dates are visited in increasing order, everything collected before the last date carries an earlier date |
| Finder.CollectDateOrder | main.py:141-183 | visiting strictly increasing dates collects perfect entries and alternatives whose dates never go backwards |
| Finder.FindBestDateOrder | main.py:141-189 | the perfect slots come out in date order, and the alternatives of any one coverage keep date order |
| Finder.WithCoverageByDate | main.py:185 | picking the alternatives of one coverage keeps date order and keeps only entries of the input |
| Finder.KeptByDate | main.py:185-189 | when the kept entries of one coverage are a prefix of all entries of that coverage, and those are in date order, the kept ones are in date order too |
| Finder.VisitedDate | main.py:133-141 | a date on which some member has intervals is visited |
| Finder.FindBestPerfectSound | main.py:126-164 | each perfect slot is on a visited date, names every member in team order, has no one unavailable, is long enough, lies within an interval of every member's list, and has positive length when there are two or more members |
| Finder.FindBest | main.py:126-190 | at most ten alternatives are returned, and an empty index gives no slots at all; `FindBestDateOrder` states the date order of the output |
| Finder.KeptAreCandidates | main.py:185-189 | every alternative returned was collected |
| Finder.FindBestAlternativesSound | main.py:126-189 | each alternative has two or more available members, exactly those free that day in team order, with the rest unavailable in team order, no name twice; coverage is their fraction; it is positive-length, long enough, and within each free member's list |
| Finder.FindBestPerfectComplete | main.py:126-164 | every long-enough stretch common to all members on a date lies within a perfect slot of that date |
| Finder.AlternativeCandidatesComplete | main.py:141-183 | every long-enough stretch common to the free members (at least two) lies within a collected alternative of that date |
| Finder.PerfectAlsoAlternative | main.py:156-177 | with two or more members, each perfect slot is also collected as an alternative with coverage 1 |
| Finder.CollectNoAlternatives | main.py:169 | with at most one member nothing is collected as an alternative |
| Finder.SingleMemberNoAlternatives | main.py:169 | a one-member team gets no alternatives |
| Finder.SingleMemberExample | main.py:156-169 | one member free 9-17 gets a perfect slot and no alternative |
| Finder.TopRankedOrder | main.py:185-189 | the first entries of the ranking are in descending coverage and keep original order within each coverage |
| Finder.KeptPrefix | main.py:185-189 | within each coverage the kept entries are the first ones found |
| Finder.TopRankedDropped | main.py:185-189 | the kept entries are drawn from the candidates and none dropped has higher coverage than one kept |
| Finder.AlternativesRanked | main.py:185-189 | at most ten alternatives, fewer only when fewer were found; they are in descending coverage, keep date order within a coverage, and no dropped candidate outranks a kept one |
| Scheduler.GatherDates | main.py:133-135 | the loops collect exactly `AllDates` |
| Scheduler.MembersAvailable | main.py:143-148 | the loop builds exactly `AvailableOn` |
| Scheduler.AppendPerfect | main.py:159-164 | appends one perfect entry per common interval, in order |
| Scheduler.AppendAlternatives | main.py:174-182 | appends one alternative per common interval, in order |
| Scheduler.ParseRow | main.py:110-119 | the column loop builds exactly `RowSchedule` |
| Scheduler.VisitDate | main.py:142-183 | one pass of the date loop appends exactly that date's entries |
| Scheduler.BuildSchedules | main.py:103-121 | the row loop builds exactly `BuildIndex` |
| Scheduler.MeetingScheduler.constructor | main.py:16-18 | no table and an empty index |
| Scheduler.MeetingScheduler.LoadTable | main.py:80-85 | the table is stored and the index left alone |
| Scheduler.MeetingScheduler.ParseAvailability | main.py:91-124 | without a table it returns an empty index and changes nothing; otherwise it stores and returns `BuildIndex` of the table; the stored index never holds a member twice |
| Scheduler.MeetingScheduler.FindBestMeetingTime | main.py:126-190 | returns exactly `FindBest` of the stored index, whose properties are the `Finder` lemmas above |

## Left out

- `MeetingSchedulerGUI` and `main()` (main.py:257-506): tkinter widgets, dialogs and text
  output. They are UI only.
- Reading the CSV or Excel file in `load_availability_file` (main.py:76-89) is file I/O
  through pandas. `LoadTable` takes the table that a successful read stores.
- pandas stringification of cells (`str(row[...])`): NaN becomes `nan`, numbers become their
  text. Cells and names are taken as strings, so the non-string branch of `parse_time_slot`
  (main.py:25-26) is not modelled.
- Date column labels are taken as strings ordered like Python strings. pandas may give
  Timestamps for Excel headers, and those sort by time.
- Repeated date column labels: pandas renames them. `ScheduleIndex.RowScheduleComplete` and
  `ScheduleIndex.IndexCell` assume distinct labels.
- Unicode: `str.upper`, `str.lower`, `str.strip`, `\d` and `\s` are modelled on ASCII only.
  The en-dash is kept as the one extra dash character.
- Floating point: the duration and the coverage quotient are exact reals. For quotients
  over the same team size, float rounding gives the same order.
- Python's built-in `sorted` and `list.sort` are modelled as insertion sorts. The lemmas
  show the date order is unique for the set, and that the coverage sort is stable and
  descending, so they agree with Python's sorts.
- Finder.AlternativeCandidatesComplete: states completeness for the candidates before the
  ten-entry cut, because the cut may drop candidates of lower (or equal, later) coverage.
- The `Finder` soundness lemmas assume distinct member names. The index that
  `ParseAvailability` stores always has them (`ScheduleIndex.BuildKeys`).
