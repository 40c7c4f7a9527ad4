/** The `MeetingScheduler` class (main.py:15-254): the table it holds, the
    index it builds from it, and the search over that index, written as the
    loops of the source and proved equal to the functions of `ScheduleIndex`
    and `Finder`. */
module Scheduler {
  import opened Optional
  import opened Text
  import opened Hours
  import opened Assoc
  import opened Parser
  import opened Intersect
  import opened ScheduleIndex
  import opened Finder

  /** `all_dates` filled from every member's schedule (main.py:133-135). */
  method GatherDates(index: Index) returns (allDates: seq<string>)
    ensures allDates == AllDates(index)
  {
    allDates := [];
    var m := 0;
    while m < |index|
      invariant 0 <= m <= |index|
      invariant allDates == AllDates(index[..m])
    {
      var keys := Keys(index[m].1);
      var k := 0;
      while k < |keys|
        invariant 0 <= k <= |keys|
        invariant allDates == AddAll(AllDates(index[..m]), keys[..k])
      {
        assert keys[..k + 1][..k] == keys[..k];
        if keys[k] !in allDates {
          allDates := allDates + [keys[k]];
        }
        k := k + 1;
      }
      assert keys[..k] == keys;
      assert index[..m + 1][..m] == index[..m];
      m := m + 1;
    }
    assert index[..m] == index;
  }

  /** `members_available` for one date (main.py:144-148). */
  method MembersAvailable(index: Index, date: string) returns (membersAvailable: Dict<string, seq<Slot>>)
    ensures membersAvailable == AvailableOn(index, date)
  {
    membersAvailable := [];
    var m := 0;
    while m < |index|
      invariant 0 <= m <= |index|
      invariant membersAvailable == AvailableOn(index[..m], date)
    {
      assert index[..m + 1][..m] == index[..m];
      var (member, schedule) := index[m];
      var slots := DayList(schedule, date);
      if slots != [] {
        membersAvailable := Put(membersAvailable, member, slots);
      }
      m := m + 1;
    }
    assert index[..m] == index;
  }

  /** One perfect entry appended per common interval (main.py:157-164). */
  method AppendPerfect(perfectSlots: seq<PerfectSlot>, date: string, commonSlots: seq<Slot>, names: seq<string>)
    returns (r: seq<PerfectSlot>)
    ensures r == perfectSlots + PerfectSlots(date, commonSlots, names)
  {
    r := perfectSlots;
    var s := 0;
    while s < |commonSlots|
      invariant 0 <= s <= |commonSlots|
      invariant r == perfectSlots + PerfectSlots(date, commonSlots[..s], names)
    {
      r := r + [PerfectSlot(date, commonSlots[s].start, commonSlots[s].end, names, [])];
      s := s + 1;
      assert PerfectSlots(date, commonSlots[..s], names)
             == PerfectSlots(date, commonSlots[..s - 1], names) + [PerfectSlot(date, commonSlots[s - 1].start, commonSlots[s - 1].end, names, [])];
    }
    assert commonSlots[..s] == commonSlots;
  }

  /** One alternative entry appended per common interval (main.py:169-177). */
  method AppendAlternatives(alternativeSlots: seq<AlternativeSlot>, date: string, commonSlots: seq<Slot>,
                            names: seq<string>, unavailable: seq<string>, coverage: real)
    returns (r: seq<AlternativeSlot>)
    ensures r == alternativeSlots + AlternativeSlots(date, commonSlots, names, unavailable, coverage)
  {
    r := alternativeSlots;
    var s := 0;
    while s < |commonSlots|
      invariant 0 <= s <= |commonSlots|
      invariant r == alternativeSlots + AlternativeSlots(date, commonSlots[..s], names, unavailable, coverage)
    {
      r := r + [AlternativeSlot(date, commonSlots[s].start, commonSlots[s].end, names, unavailable, coverage)];
      s := s + 1;
      assert AlternativeSlots(date, commonSlots[..s], names, unavailable, coverage)
             == AlternativeSlots(date, commonSlots[..s - 1], names, unavailable, coverage)
                + [AlternativeSlot(date, commonSlots[s - 1].start, commonSlots[s - 1].end, names, unavailable, coverage)];
    }
    assert commonSlots[..s] == commonSlots;
  }

  /** The schedule of one table row (main.py:109-119). */
  method ParseRow(dates: seq<string>, cells: seq<string>) returns (memberSchedule: DaySchedule)
    requires |cells| == |dates|
    ensures memberSchedule == RowSchedule(dates, cells)
  {
    memberSchedule := [];
    var c := 0;
    while c < |dates|
      invariant 0 <= c <= |dates|
      invariant memberSchedule == RowSchedule(dates[..c], cells[..c])
    {
      var timeSlots := ParseTimeSlot(cells[c]);
      RowScheduleStep(dates, cells, c);
      memberSchedule := Put(memberSchedule, dates[c], timeSlots);
      c := c + 1;
    }
    assert dates[..c] == dates && cells[..c] == cells;
  }

  /** The body of the date loop of `find_best_meeting_time` for one date
      (main.py:142-183): appends that date's perfect and alternative entries. */
  method VisitDate(index: Index, date: string, durationHours: real,
                   perfectSlots: seq<PerfectSlot>, alternativeSlots: seq<AlternativeSlot>)
    returns (perfect: seq<PerfectSlot>, alternatives: seq<AlternativeSlot>)
    ensures perfect == perfectSlots + OnDate(index, date, durationHours).0
    ensures alternatives == alternativeSlots + OnDate(index, date, durationHours).1
  {
    perfect, alternatives := perfectSlots, alternativeSlots;
    var membersAvailable := MembersAvailable(index, date);
    var totalMembers := |index|;
    var availableCount := |membersAvailable|;
    if availableCount == 0 {
      return;
    }
    if availableCount == totalMembers {
      var commonSlots := FindCommonSlots(membersAvailable, durationHours);
      perfect := AppendPerfect(perfect, date, commonSlots, Keys(membersAvailable));
    }
    if availableCount >= 2 {
      var commonSlots := FindCommonSlots(membersAvailable, durationHours);
      var unavailableMembers := UnavailableOn(index, membersAvailable);
      alternatives := AppendAlternatives(alternatives, date, commonSlots, Keys(membersAvailable),
                                         unavailableMembers, availableCount as real / totalMembers as real);
    }
  }

  /** The row loop of `parse_availability` (main.py:105-121). */
  method BuildSchedules(table: Table) returns (schedules: Index)
    requires Rectangular(table)
    ensures schedules == BuildIndex(table)
  {
    schedules := [];
    var r := 0;
    while r < |table.rows|
      invariant 0 <= r <= |table.rows|
      invariant schedules == Build(table.dates, table.rows[..r])
    {
      var row := table.rows[r];
      BuildStep(table.dates, table.rows, r);
      var memberName := Strip(row.name);
      if !IsMissingName(memberName) {
        var memberSchedule := ParseRow(table.dates, row.cells);
        schedules := Put(schedules, memberName, memberSchedule);
      }
      r := r + 1;
    }
    assert table.rows[..r] == table.rows;
  }

  lemma BuildStep(dates: seq<string>, rows: seq<Row>, r: nat)
    requires r < |rows| && forall row :: row in rows ==> |row.cells| == |dates|
    ensures forall row :: row in rows[..r] ==> |row.cells| == |dates|
    ensures Build(dates, rows[..r + 1]) ==
            var name := Strip(rows[r].name);
            if IsMissingName(name) then Build(dates, rows[..r])
            else Put(Build(dates, rows[..r]), name, RowSchedule(dates, rows[r].cells))
  {
    PrefixSnoc(rows, r);
    BuildSnoc(dates, rows[..r], rows[r]);
  }

  lemma CollectStep(index: Index, dates: seq<string>, i: nat, durationHours: real)
    requires i < |dates|
    ensures Collect(index, dates[..i + 1], durationHours) ==
            (Collect(index, dates[..i], durationHours).0 + OnDate(index, dates[i], durationHours).0,
             Collect(index, dates[..i], durationHours).1 + OnDate(index, dates[i], durationHours).1)
  {
    assert dates[..i + 1][..i] == dates[..i];
  }

  class MeetingScheduler {
    /** The table last loaded, if any (`availability_data`). */
    var availabilityData: Option<Table>
    /** The index built by `ParseAvailability` (`parsed_schedules`). */
    var parsedSchedules: Index

    /** A loaded table has one cell per date column in every row, and the
        index has each member once. */
    ghost predicate Valid()
      reads this
    {
      && (availabilityData.Some? ==> Rectangular(availabilityData.value))
      && DistinctKeys(parsedSchedules)
    }

    /** `__init__` (main.py:16-18): no table and an empty index. */
    constructor ()
      ensures Valid()
      ensures availabilityData == None && parsedSchedules == []
    {
      availabilityData := None;
      parsedSchedules := [];
    }

    /** The table a successful `load_availability_file` stores
        (main.py:80-85); reading the file is not modelled. */
    method LoadTable(table: Table)
      requires Valid() && Rectangular(table)
      modifies this
      ensures Valid()
      ensures availabilityData == Some(table) && parsedSchedules == old(parsedSchedules)
    {
      availabilityData := Some(table);
    }

    /** `parse_availability` (main.py:91-124): with no table, returns an
        empty index and leaves `parsedSchedules` alone; otherwise builds the
        index from the table, stores it and returns it. */
    method ParseAvailability() returns (schedules: Index)
      requires Valid()
      modifies this
      ensures Valid()
      ensures availabilityData == old(availabilityData)
      ensures old(availabilityData).None? ==> schedules == [] && parsedSchedules == old(parsedSchedules)
      ensures old(availabilityData).Some? ==>
                schedules == BuildIndex(availabilityData.value) && parsedSchedules == schedules
    {
      if availabilityData.None? {
        return [];
      }
      var table := availabilityData.value;
      schedules := BuildSchedules(table);
      BuildKeys(table.dates, table.rows);
      parsedSchedules := schedules;
    }

    /** `find_best_meeting_time` (main.py:126-190): the loops over the
        sorted dates compute exactly `FindBest` of the stored index. */
    method FindBestMeetingTime(durationHours: real) returns (result: Meeting)
      ensures result == FindBest(parsedSchedules, durationHours)
    {
      if |parsedSchedules| == 0 {
        return Meeting([], []);
      }
      var allDates := GatherDates(parsedSchedules);
      var dates := SortDates(allDates);
      var perfectSlots: seq<PerfectSlot> := [];
      var alternativeSlots: seq<AlternativeSlot> := [];
      var i := 0;
      while i < |dates|
        invariant 0 <= i <= |dates|
        invariant (perfectSlots, alternativeSlots) == Collect(parsedSchedules, dates[..i], durationHours)
      {
        CollectStep(parsedSchedules, dates, i, durationHours);
        perfectSlots, alternativeSlots := VisitDate(parsedSchedules, dates[i], durationHours, perfectSlots, alternativeSlots);
        i := i + 1;
      }
      assert dates[..i] == dates;
      alternativeSlots := SortByCoverage(alternativeSlots);
      result := Meeting(perfectSlots, alternativeSlots[..Min(MaxAlternatives, |alternativeSlots|)]);
    }
  }
}
