/** `find_best_meeting_time` (main.py:126-190) as a function of the parsed
    index and the requested duration, with what it promises about the
    perfect slots, the alternatives and their ranking. */
module Finder {
  import opened Optional
  import opened Text
  import opened Hours
  import opened Assoc
  import opened Intersect
  import opened ScheduleIndex

  /** An entry of `perfect_slots`: every member is free. */
  datatype PerfectSlot = PerfectSlot(date: string, start: int, end: int,
                                     available: seq<string>, unavailable: seq<string>)

  /** An entry of `best_alternative_slots`: at least two members are free;
      `coverage` is the fraction of members who are. */
  datatype AlternativeSlot = AlternativeSlot(date: string, start: int, end: int,
                                             available: seq<string>, unavailable: seq<string>,
                                             coverage: real)

  /** The dictionary the finder returns. */
  datatype Meeting = Meeting(perfect: seq<PerfectSlot>, alternatives: seq<AlternativeSlot>)

  /** The number of alternatives kept after ranking (main.py:189). */
  const MaxAlternatives: nat := 10

  // ---------------------------------------------------------------------
  // The dates (main.py:133-141)
  // ---------------------------------------------------------------------

  /** `date` is a key of some member's schedule. */
  predicate DateKnown(index: Index, date: string) {
    exists i :: 0 <= i < |index| && date in Keys(index[i].1)
  }

  /** `acc` extended with the elements of `ks` not yet in it, in order. */
  function AddAll(acc: seq<string>, ks: seq<string>): (r: seq<string>)
    ensures forall x :: x in r <==> x in acc || x in ks
    ensures Distinct(acc) ==> Distinct(r)
  {
    if ks == [] then acc
    else
      var a := AddAll(acc, ks[..|ks| - 1]);
      var x := ks[|ks| - 1];
      assert forall y :: y in ks <==> y in ks[..|ks| - 1] || y == x;
      if x in a then a else a + [x]
  }

  /** The set `all_dates`, as a sequence without repeats (main.py:133-135). */
  function AllDates(index: Index): (r: seq<string>)
    ensures Distinct(r)
    ensures forall x :: x in r <==> DateKnown(index, x)
  {
    if index == [] then []
    else
      var n := |index| - 1;
      var r := AddAll(AllDates(index[..n]), Keys(index[n].1));
      assert forall x :: DateKnown(index, x) <==> DateKnown(index[..n], x) || x in Keys(index[n].1) by {
        forall x ensures DateKnown(index, x) <==> DateKnown(index[..n], x) || x in Keys(index[n].1) {
          if DateKnown(index, x) {
            var i :| 0 <= i < |index| && x in Keys(index[i].1);
            if i < n { assert index[..n][i] == index[i]; }
          }
          if DateKnown(index[..n], x) {
            var i :| 0 <= i < n && x in Keys(index[..n][i].1);
            assert index[..n][i] == index[i];
          }
        }
      }
      r
  }

  /** `x` placed into the ordered `s` before the first element above it. */
  function InsertDate(x: string, s: seq<string>): (r: seq<string>)
    ensures |r| == |s| + 1
    ensures multiset(r) == multiset(s) + multiset{x}
    ensures forall y :: y in r <==> y == x || y in s
  {
    if s == [] then [x]
    else if Less(x, s[0]) then [x] + s
    else
      assert s == [s[0]] + s[1..];
      [s[0]] + InsertDate(x, s[1..])
  }

  /** `sorted` on a sequence of labels (insertion sort under Python's string
      order). */
  function SortDates(xs: seq<string>): (r: seq<string>)
    ensures |r| == |xs|
    ensures forall y :: y in r <==> y in xs
  {
    if xs == [] then []
    else
      var n := |xs| - 1;
      assert forall y :: y in xs <==> y in xs[..n] || y == xs[n];
      InsertDate(xs[n], SortDates(xs[..n]))
  }

  /** `sorted(all_dates)`. */
  function Dates(index: Index): seq<string> {
    SortDates(AllDates(index))
  }

  predicate StrictlySorted(s: seq<string>) {
    forall i, j :: 0 <= i < j < |s| ==> Less(s[i], s[j])
  }

  lemma {:induction false} InsertDateSorted(x: string, s: seq<string>)
    requires StrictlySorted(s) && x !in s
    ensures StrictlySorted(InsertDate(x, s))
  {
    if s != [] {
      if Less(x, s[0]) {
        var r := [x] + s;
        forall i, j | 0 <= i < j < |r| ensures Less(r[i], r[j]) {
          if i == 0 {
            if j > 1 { LessTransitive(x, s[0], s[j - 1]); }
          } else {
            assert r[i] == s[i - 1] && r[j] == s[j - 1];
          }
        }
      } else {
        LessTotal(x, s[0]);
        InsertDateSorted(x, s[1..]);
        var r := InsertDate(x, s);
        forall j | 1 <= j < |r| ensures Less(s[0], r[j]) {
          assert r[j] in InsertDate(x, s[1..]);
        }
      }
    }
  }

  lemma {:induction false} SortDatesSorted(xs: seq<string>)
    requires Distinct(xs)
    ensures StrictlySorted(SortDates(xs))
  {
    if xs != [] {
      var n := |xs| - 1;
      SortDatesSorted(xs[..n]);
      assert xs[n] !in xs[..n];
      InsertDateSorted(xs[n], SortDates(xs[..n]));
    }
  }

  /** A strictly ordered sequence is determined by its elements: sorting the
      set `all_dates` has exactly one possible result. */
  lemma {:induction false} SortedUnique(a: seq<string>, b: seq<string>)
    requires StrictlySorted(a) && StrictlySorted(b)
    requires forall x :: x in a <==> x in b
    ensures a == b
  {
    if a != [] { assert a[0] in a; }
    if b != [] { assert b[0] in b; }
    if a != [] && b != [] {
      assert b[0] in a && a[0] in b;
      if a[0] != b[0] {
        var i :| 0 <= i < |a| && a[i] == b[0];
        var j :| 0 <= j < |b| && b[j] == a[0];
        assert Less(a[0], b[0]) by { assert 0 < i; }
        assert Less(b[0], a[0]) by { assert 0 < j; }
        LessAsymmetric(a[0], b[0]);
      }
      forall x ensures x in a[1..] <==> x in b[1..] {
        if x in a[1..] {
          var i :| 1 <= i < |a| && a[i] == x;
          assert Less(a[0], a[i]);
          assert x != a[0] by { LessIrreflexive(x); }
          assert x in a;
          var k :| 0 <= k < |b| && b[k] == x;
          assert b[1..][k - 1] == x;
        }
        if x in b[1..] {
          var i :| 1 <= i < |b| && b[i] == x;
          assert Less(b[0], b[i]);
          assert x != b[0] by { LessIrreflexive(x); }
          assert x in b;
          var k :| 0 <= k < |a| && a[k] == x;
          assert a[1..][k - 1] == x;
        }
      }
      SortedUnique(a[1..], b[1..]);
      assert a == [a[0]] + a[1..] && b == [b[0]] + b[1..];
    }
  }

  /** The dates visited are every date some member has, each once, in
      increasing order; and they are the only such sequence. */
  lemma DatesOrdered(index: Index, other: seq<string>)
    ensures StrictlySorted(Dates(index))
    ensures forall x :: x in Dates(index) <==> DateKnown(index, x)
    ensures StrictlySorted(other) && (forall x :: x in other <==> DateKnown(index, x)) ==> other == Dates(index)
  {
    SortDatesSorted(AllDates(index));
    if StrictlySorted(other) && (forall x :: x in other <==> DateKnown(index, x)) {
      SortedUnique(other, Dates(index));
    }
  }

  // ---------------------------------------------------------------------
  // One date (main.py:143-183)
  // ---------------------------------------------------------------------

  /** The intervals a schedule holds for `date`, or none when the date is
      missing (`date in schedule and schedule[date]`, main.py:147). */
  function DayList(schedule: DaySchedule, date: string): seq<Slot> {
    match Get(schedule, date)
    case None => []
    case Some(slots) => slots
  }

  /** The intervals of the `j`-th member of the index for `date`. */
  function MemberDay(index: Index, j: nat, date: string): seq<Slot>
    requires j < |index|
  {
    DayList(index[j].1, date)
  }

  /** `members_available` for `date`, built by assignment (main.py:144-148). */
  function AvailableOn(index: Index, date: string): (r: Dict<string, seq<Slot>>)
    ensures |r| <= |index|
  {
    if index == [] then []
    else
      var n := |index| - 1;
      var before := AvailableOn(index[..n], date);
      var slots := DayList(index[n].1, date);
      PutKeys(before, index[n].0, slots);
      if slots != [] then Put(before, index[n].0, slots) else before
  }

  /** The members with intervals on `date`, paired with them, in index order. */
  function FreeOn(index: Index, date: string): (r: Dict<string, seq<Slot>>)
    ensures |r| <= |index|
  {
    if index == [] then []
    else
      var n := |index| - 1;
      var slots := DayList(index[n].1, date);
      FreeOn(index[..n], date) + if slots != [] then [(index[n].0, slots)] else []
  }

  /** `unavailable_members`: the members of the index not in `available`, in
      index order (main.py:166-167). */
  function UnavailableOn(index: Index, available: Dict<string, seq<Slot>>): (r: seq<string>)
    ensures forall m :: m in r <==> m in Keys(index) && m !in Keys(available)
  {
    if index == [] then []
    else
      var n := |index| - 1;
      assert Keys(index) == Keys(index[..n]) + [index[n].0];
      UnavailableOn(index[..n], available) + if index[n].0 in Keys(available) then [] else [index[n].0]
  }

  /** The members with no interval on `date`, in index order. */
  function AbsentOn(index: Index, date: string): (r: seq<string>)
    ensures |r| <= |index|
    ensures forall m :: m in r ==> m in Keys(index)
  {
    if index == [] then []
    else
      var n := |index| - 1;
      assert Keys(index) == Keys(index[..n]) + [index[n].0];
      AbsentOn(index[..n], date) + if DayList(index[n].1, date) == [] then [index[n].0] else []
  }

  /** Given the members free on `date`, `unavailable_members` lists exactly
      the members with no interval that day, in index order. */
  lemma {:induction false} UnavailableIsAbsent(index: Index, available: Dict<string, seq<Slot>>, date: string)
    requires forall j :: 0 <= j < |index| ==> (index[j].0 in Keys(available) <==> MemberDay(index, j, date) != [])
    ensures UnavailableOn(index, available) == AbsentOn(index, date)
  {
    if index != [] {
      var n := |index| - 1;
      MemberDayPrefix(index, n, date);
      assert forall j :: 0 <= j < n ==> index[..n][j] == index[j];
      UnavailableIsAbsent(index[..n], available, date);
      assert MemberDay(index, n, date) == DayList(index[n].1, date);
    }
  }

  /** With distinct member names, no absent member is listed twice. */
  lemma {:induction false} AbsentDistinct(index: Index, date: string)
    requires DistinctKeys(index)
    ensures forall i, j :: 0 <= i < j < |AbsentOn(index, date)| ==> AbsentOn(index, date)[i] != AbsentOn(index, date)[j]
  {
    if index != [] {
      var n := |index| - 1;
      var prefix := index[..n];
      assert DistinctKeys(prefix);
      AbsentDistinct(prefix, date);
      assert index[n].0 !in Keys(prefix) by {
        forall i | 0 <= i < n ensures Keys(prefix)[i] != index[n].0 {
          assert prefix[i] == index[i];
        }
      }
    }
  }

  /** `members_available` never holds a member twice. */
  lemma {:induction false} AvailableDistinct(index: Index, date: string)
    ensures DistinctKeys(AvailableOn(index, date))
  {
    if index != [] {
      var n := |index| - 1;
      AvailableDistinct(index[..n], date);
      var slots := DayList(index[n].1, date);
      if slots != [] {
        PutDistinct(AvailableOn(index[..n], date), index[n].0, slots);
      }
    }
  }

  /** One perfect entry per common interval (main.py:157-164). */
  function PerfectSlots(date: string, common: seq<Slot>, names: seq<string>): seq<PerfectSlot> {
    seq(|common|, i requires 0 <= i < |common| =>
      PerfectSlot(date, common[i].start, common[i].end, names, []))
  }

  /** One alternative entry per common interval (main.py:169-177). */
  function AlternativeSlots(date: string, common: seq<Slot>, names: seq<string>,
                            unavailable: seq<string>, coverage: real): seq<AlternativeSlot> {
    seq(|common|, i requires 0 <= i < |common| =>
      AlternativeSlot(date, common[i].start, common[i].end, names, unavailable, coverage))
  }

  /** The perfect and alternative entries one date contributes. */
  function OnDate(index: Index, date: string, duration: real): (seq<PerfectSlot>, seq<AlternativeSlot>) {
    var available := AvailableOn(index, date);
    var count := |available|;
    if count == 0 then ([], [])
    else
      var common := IntersectAll(Values(available), duration);
      var names := Keys(available);
      (if count == |index| then PerfectSlots(date, common, names) else [],
       if count >= 2
       then AlternativeSlots(date, common, names, UnavailableOn(index, available),
                             count as real / |index| as real)
       else [])
  }

  /** The entries of all `dates`, in date order. */
  function Collect(index: Index, dates: seq<string>, duration: real): (seq<PerfectSlot>, seq<AlternativeSlot>) {
    if dates == [] then ([], [])
    else
      var n := |dates| - 1;
      var before := Collect(index, dates[..n], duration);
      var here := OnDate(index, dates[n], duration);
      (before.0 + here.0, before.1 + here.1)
  }

  // ---------------------------------------------------------------------
  // Ranking (main.py:185-190)
  // ---------------------------------------------------------------------

  /** `a` placed into `s` after every entry of at least its coverage. */
  function InsertByCoverage(a: AlternativeSlot, s: seq<AlternativeSlot>): (r: seq<AlternativeSlot>)
    ensures |r| == |s| + 1
    ensures multiset(r) == multiset(s) + multiset{a}
  {
    if s == [] then [a]
    else if s[0].coverage < a.coverage then [a] + s
    else
      assert s == [s[0]] + s[1..];
      [s[0]] + InsertByCoverage(a, s[1..])
  }

  /** `sort(key=coverage, reverse=True)`: a stable sort, highest coverage
      first (insertion sort). */
  function SortByCoverage(xs: seq<AlternativeSlot>): (r: seq<AlternativeSlot>)
    ensures |r| == |xs|
    ensures multiset(r) == multiset(xs)
  {
    if xs == [] then []
    else
      var n := |xs| - 1;
      assert xs == xs[..n] + [xs[n]];
      InsertByCoverage(xs[n], SortByCoverage(xs[..n]))
  }

  /** The result of `find_best_meeting_time`. */
  function FindBest(index: Index, duration: real): (r: Meeting)
    ensures |r.alternatives| <= MaxAlternatives
    ensures index == [] ==> r.perfect == [] && r.alternatives == []
  {
    if index == [] then Meeting([], [])
    else
      var collected := Collect(index, Dates(index), duration);
      var ranked := SortByCoverage(collected.1);
      Meeting(collected.0, ranked[..Min(MaxAlternatives, |ranked|)])
  }

  predicate SortedByCoverage(s: seq<AlternativeSlot>) {
    forall i, j :: 0 <= i < j < |s| ==> s[i].coverage >= s[j].coverage
  }

  /** The entries of `s` with coverage `c`, in order. */
  function WithCoverage(s: seq<AlternativeSlot>, c: real): seq<AlternativeSlot> {
    if s == [] then []
    else (if s[0].coverage == c then [s[0]] else []) + WithCoverage(s[1..], c)
  }

  lemma {:induction false} WithCoverageAppend(a: seq<AlternativeSlot>, b: seq<AlternativeSlot>, c: real)
    ensures WithCoverage(a + b, c) == WithCoverage(a, c) + WithCoverage(b, c)
  {
    if a == [] {
      assert a + b == b;
    } else {
      var ab := a + b;
      assert ab[0] == a[0];
      assert ab[1..] == a[1..] + b;
      WithCoverageAppend(a[1..], b, c);
      assert WithCoverage(ab, c) == (if a[0].coverage == c then [a[0]] else []) + WithCoverage(ab[1..], c);
    }
  }

  lemma {:induction false} WithCoverageNone(s: seq<AlternativeSlot>, c: real)
    requires forall i :: 0 <= i < |s| ==> s[i].coverage != c
    ensures WithCoverage(s, c) == []
  {
    if s != [] {
      WithCoverageNone(s[1..], c);
    }
  }

  lemma WithCoverageSingle(a: AlternativeSlot, c: real)
    ensures WithCoverage([a], c) == if a.coverage == c then [a] else []
  {
    assert [a][1..] == [];
  }

  lemma {:induction false} InsertByCoverageSorted(a: AlternativeSlot, s: seq<AlternativeSlot>)
    requires SortedByCoverage(s)
    ensures SortedByCoverage(InsertByCoverage(a, s))
  {
    if s != [] && s[0].coverage >= a.coverage {
      InsertByCoverageSorted(a, s[1..]);
      var r := InsertByCoverage(a, s);
      forall j | 1 <= j < |r| ensures s[0].coverage >= r[j].coverage {
        assert r[j] in multiset(InsertByCoverage(a, s[1..]));
      }
    }
  }

  /** Inserting `a` keeps the entries of every coverage in their order and
      puts `a` after those equal to it. */
  lemma {:induction false} InsertByCoverageStable(a: AlternativeSlot, s: seq<AlternativeSlot>, c: real)
    requires SortedByCoverage(s)
    ensures WithCoverage(InsertByCoverage(a, s), c) == WithCoverage(s, c) + if a.coverage == c then [a] else []
  {
    if s == [] {
      WithCoverageSingle(a, c);
    } else if s[0].coverage < a.coverage {
      assert InsertByCoverage(a, s) == [a] + s;
      InsertFrontStable(a, s, c);
    } else {
      var t := s[1..];
      var rest := InsertByCoverage(a, t);
      assert InsertByCoverage(a, s) == [s[0]] + rest;
      assert SortedByCoverage(t) by { SortedTail(s); }
      InsertByCoverageStable(a, t, c);
      ConsStable(s[0], rest, t, if a.coverage == c then [a] else [], c);
      assert [s[0]] + t == s;
    }
  }

  /** The tail of a sorted list is sorted. */
  lemma SortedTail(s: seq<AlternativeSlot>)
    requires s != [] && SortedByCoverage(s)
    ensures SortedByCoverage(s[1..])
  {
    forall i, j | 0 <= i < j < |s| - 1 ensures s[1..][i].coverage >= s[1..][j].coverage {
      assert s[1..][i] == s[i + 1] && s[1..][j] == s[j + 1];
    }
  }

  /** An entry above every entry of a sorted list goes after all entries of
      its own coverage, since there are none. */
  lemma InsertFrontStable(a: AlternativeSlot, s: seq<AlternativeSlot>, c: real)
    requires SortedByCoverage(s) && s != [] && s[0].coverage < a.coverage
    ensures WithCoverage([a] + s, c) == WithCoverage(s, c) + if a.coverage == c then [a] else []
  {
    WithCoverageAppend([a], s, c);
    WithCoverageSingle(a, c);
    if a.coverage == c {
      assert forall i :: 0 <= i < |s| ==> s[i].coverage <= s[0].coverage;
      WithCoverageNone(s, c);
    }
  }

  /** Putting the same entry in front of two lists with the same filtered
      entries, up to a tail, keeps them so. */
  lemma ConsStable(x: AlternativeSlot, r: seq<AlternativeSlot>, t: seq<AlternativeSlot>,
                   extra: seq<AlternativeSlot>, c: real)
    requires WithCoverage(r, c) == WithCoverage(t, c) + extra
    ensures WithCoverage([x] + r, c) == WithCoverage([x] + t, c) + extra
  {
    assert ([x] + r)[0] == x && ([x] + r)[1..] == r;
    assert ([x] + t)[0] == x && ([x] + t)[1..] == t;
  }

  /** `SortByCoverage` puts the highest coverage first. */
  lemma {:induction false} SortByCoverageSorted(xs: seq<AlternativeSlot>)
    ensures SortedByCoverage(SortByCoverage(xs))
  {
    if xs != [] {
      var n := |xs| - 1;
      SortByCoverageSorted(xs[..n]);
      InsertByCoverageSorted(xs[n], SortByCoverage(xs[..n]));
    }
  }

  /** `SortByCoverage` is stable: the entries of each coverage keep their
      original order (with the multiset ensures of `SortByCoverage`, nothing
      is lost or added). */
  lemma {:induction false} SortByCoverageStable(xs: seq<AlternativeSlot>, c: real)
    ensures WithCoverage(SortByCoverage(xs), c) == WithCoverage(xs, c)
  {
    if xs != [] {
      var n := |xs| - 1;
      var before := SortByCoverage(xs[..n]);
      var single := if xs[n].coverage == c then [xs[n]] else [];
      assert SortByCoverage(xs) == InsertByCoverage(xs[n], before);
      assert WithCoverage(InsertByCoverage(xs[n], before), c) == WithCoverage(before, c) + single by {
        SortByCoverageSorted(xs[..n]);
        InsertByCoverageStable(xs[n], before, c);
      }
      SortByCoverageStable(xs[..n], c);
      WithCoverageSnoc(xs, c);
    }
  }

  /** Filtering a list is filtering all but its last entry, then the last. */
  lemma WithCoverageSnoc(xs: seq<AlternativeSlot>, c: real)
    requires xs != []
    ensures var n := |xs| - 1;
            WithCoverage(xs, c) == WithCoverage(xs[..n], c) + if xs[n].coverage == c then [xs[n]] else []
  {
    var n := |xs| - 1;
    assert xs[..n] + [xs[n]] == xs;
    WithCoverageAppend(xs[..n], [xs[n]], c);
    WithCoverageSingle(xs[n], c);
  }

  // ---------------------------------------------------------------------
  // Who is free on a date
  // ---------------------------------------------------------------------

  /** Every pair listed as free is a member of the index with the
      non-empty intervals that member holds for the date. */
  lemma {:induction false} FreeOnFrom(index: Index, date: string)
    ensures forall p :: p in FreeOn(index, date) ==>
              exists j :: 0 <= j < |index| && MemberDay(index, j, date) != []
                          && p == (index[j].0, MemberDay(index, j, date))
  {
    if index != [] {
      var n := |index| - 1;
      var prefix := index[..n];
      FreeOnFrom(prefix, date);
      forall p | p in FreeOn(index, date)
        ensures exists j :: 0 <= j < |index| && MemberDay(index, j, date) != []
                            && p == (index[j].0, MemberDay(index, j, date))
      {
        if p in FreeOn(prefix, date) {
          var j :| 0 <= j < |prefix| && MemberDay(prefix, j, date) != []
                   && p == (prefix[j].0, MemberDay(prefix, j, date));
          assert prefix[j] == index[j];
          assert MemberDay(prefix, j, date) == MemberDay(index, j, date);
        } else {
          assert p == (index[n].0, MemberDay(index, n, date));
        }
      }
    }
  }

  /** Every member with intervals on the date is listed as free. */
  lemma {:induction false} FreeOnHas(index: Index, date: string)
    ensures forall j :: 0 <= j < |index| && MemberDay(index, j, date) != [] ==>
              (index[j].0, MemberDay(index, j, date)) in FreeOn(index, date)
  {
    if index != [] {
      var n := |index| - 1;
      var prefix := index[..n];
      FreeOnHas(prefix, date);
      forall j | 0 <= j < n && MemberDay(index, j, date) != []
        ensures (index[j].0, MemberDay(index, j, date)) in FreeOn(index, date)
      {
        assert prefix[j] == index[j];
        assert MemberDay(prefix, j, date) == MemberDay(index, j, date);
      }
    }
  }

  /** Every member is free exactly when all of them are listed, and then in
      index order. */
  lemma {:induction false} FreeOnFull(index: Index, date: string)
    ensures |FreeOn(index, date)| == |index| <==> forall j :: 0 <= j < |index| ==> MemberDay(index, j, date) != []
    ensures |FreeOn(index, date)| == |index| ==>
              forall j :: 0 <= j < |index| ==> FreeOn(index, date)[j] == (index[j].0, MemberDay(index, j, date))
  {
    if index != [] {
      var n := |index| - 1;
      var prefix := index[..n];
      FreeOnFull(prefix, date);
      FreeOnStep(index, date);
      MemberDayPrefix(index, n, date);
      if MemberDay(index, n, date) == [] {
        assert |FreeOn(index, date)| == |FreeOn(prefix, date)|;
      } else {
        assert FreeOn(index, date) == FreeOn(prefix, date) + [(index[n].0, MemberDay(index, n, date))];
      }
    }
  }

  /** `FreeOn` visits the last member after the others. */
  lemma FreeOnStep(index: Index, date: string)
    requires index != []
    ensures var n := |index| - 1;
            FreeOn(index, date) == FreeOn(index[..n], date)
              + if MemberDay(index, n, date) != [] then [(index[n].0, MemberDay(index, n, date))] else []
  {
  }

  /** A member's day is the same in a prefix of the index. */
  lemma MemberDayPrefix(index: Index, n: nat, date: string)
    requires n <= |index|
    ensures forall j :: 0 <= j < n ==> MemberDay(index[..n], j, date) == MemberDay(index, j, date)
  {
    assert forall j :: 0 <= j < n ==> index[..n][j] == index[j];
  }

  /** With distinct member names, `members_available` is exactly the free
      members with their intervals, in index order. */
  lemma {:induction false} AvailableIsFree(index: Index, date: string)
    requires DistinctKeys(index)
    ensures AvailableOn(index, date) == FreeOn(index, date)
  {
    if index != [] {
      var n := |index| - 1;
      var prefix := index[..n];
      AvailableIsFree(prefix, date);
      FreeOnFrom(prefix, date);
      FreeOnStep(index, date);
      var slots := DayList(index[n].1, date);
      assert MemberDay(index, n, date) == slots;
      assert AvailableOn(index, date) ==
             if slots != [] then Put(AvailableOn(prefix, date), index[n].0, slots) else AvailableOn(prefix, date);
      if slots != [] {
        forall i | 0 <= i < |FreeOn(prefix, date)| ensures Keys(FreeOn(prefix, date))[i] != index[n].0 {
          assert FreeOn(prefix, date)[i] in FreeOn(prefix, date);
          var j :| 0 <= j < |prefix| && MemberDay(prefix, j, date) != []
                   && FreeOn(prefix, date)[i] == (prefix[j].0, MemberDay(prefix, j, date));
          assert prefix[j] == index[j];
        }
        PutNew(FreeOn(prefix, date), index[n].0, slots);
      }
    }
  }

  // ---------------------------------------------------------------------
  // What one date contributes
  // ---------------------------------------------------------------------

  /** A perfect entry names every member, lies within an interval of each
      member's list for its date and is long enough. */
  ghost predicate PerfectValid(index: Index, duration: real, p: PerfectSlot) {
    && p.available == Keys(index)
    && p.unavailable == []
    && LongEnough(Slot(p.start, p.end), duration)
    && (|index| >= 2 ==> p.start < p.end)
    && (forall j :: 0 <= j < |index| ==> Covered(Slot(p.start, p.end), MemberDay(index, j, p.date)))
  }

  /** An alternative entry names the members free on its date (at least
      two), in team order and each once, lies within an interval of each of
      their lists, is long enough, names the others as unavailable, in team
      order and each once, and its coverage is the fraction of members free. */
  ghost predicate AlternativeValid(index: Index, duration: real, a: AlternativeSlot) {
    && 2 <= |a.available| <= |index|
    && a.coverage == |a.available| as real / |index| as real
    && LongEnough(Slot(a.start, a.end), duration)
    && a.start < a.end
    && (forall m :: m in a.available ==> m in Keys(index))
    && (forall j :: 0 <= j < |index| ==> (index[j].0 in a.available <==> MemberDay(index, j, a.date) != []))
    && (forall j :: 0 <= j < |index| && MemberDay(index, j, a.date) != [] ==>
          Covered(Slot(a.start, a.end), MemberDay(index, j, a.date)))
    && (forall m :: m in a.unavailable <==> m in Keys(index) && m !in a.available)
    && a.available == Keys(FreeOn(index, a.date))
    && a.unavailable == AbsentOn(index, a.date)
    && (forall i, j :: 0 <= i < j < |a.available| ==> a.available[i] != a.available[j])
    && (forall i, j :: 0 <= i < j < |a.unavailable| ==> a.unavailable[i] != a.unavailable[j])
  }

  /** When every member is free, the lists intersected are the members'
      lists in index order. */
  lemma FullDay(index: Index, date: string)
    requires DistinctKeys(index)
    requires |AvailableOn(index, date)| == |index|
    ensures Keys(AvailableOn(index, date)) == Keys(index)
    ensures forall j :: 0 <= j < |index| ==> Values(AvailableOn(index, date))[j] == MemberDay(index, j, date)
  {
    AvailableIsFree(index, date);
    FreeOnFull(index, date);
  }

  lemma OnDatePerfectSound(index: Index, date: string, duration: real)
    requires DistinctKeys(index)
    ensures forall p :: p in OnDate(index, date, duration).0 ==> p.date == date && PerfectValid(index, duration, p)
  {
    var available := AvailableOn(index, date);
    if |available| == |index| && |available| > 0 {
      FullDay(index, date);
      var lists := Values(available);
      var common := IntersectAll(lists, duration);
      var entries := PerfectSlots(date, common, Keys(available));
      assert OnDate(index, date, duration).0 == entries;
      IntersectSound(lists, duration);
      forall p | p in entries
        ensures p.date == date && PerfectValid(index, duration, p)
      {
        var i :| 0 <= i < |common| && entries[i] == p;
        assert Slot(p.start, p.end) == common[i] && common[i] in common;
      }
    }
  }

  /** The members free on `date` are, by name, the members of the index
      with intervals that day. */
  lemma FreeNames(index: Index, date: string)
    requires DistinctKeys(index)
    ensures forall m :: m in Keys(AvailableOn(index, date)) ==> m in Keys(index)
    ensures forall j :: 0 <= j < |index| ==>
              (index[j].0 in Keys(AvailableOn(index, date)) <==> MemberDay(index, j, date) != [])
    ensures forall j :: 0 <= j < |index| && MemberDay(index, j, date) != [] ==>
              MemberDay(index, j, date) in Values(AvailableOn(index, date))
  {
    var f := AvailableOn(index, date);
    AvailableIsFree(index, date);
    FreeOnFrom(index, date);
    FreeOnHas(index, date);
    forall m | m in Keys(f) ensures m in Keys(index) {
      var i :| 0 <= i < |f| && Keys(f)[i] == m;
      assert f[i] in f;
      var j :| 0 <= j < |index| && MemberDay(index, j, date) != [] && f[i] == (index[j].0, MemberDay(index, j, date));
      assert Keys(index)[j] == m;
    }
    forall j | 0 <= j < |index|
      ensures index[j].0 in Keys(f) <==> MemberDay(index, j, date) != []
      ensures MemberDay(index, j, date) != [] ==> MemberDay(index, j, date) in Values(f)
    {
      if MemberDay(index, j, date) != [] {
        var i :| 0 <= i < |f| && f[i] == (index[j].0, MemberDay(index, j, date));
        assert Keys(f)[i] == index[j].0 && Values(f)[i] == MemberDay(index, j, date);
      }
      if index[j].0 in Keys(f) {
        var i :| 0 <= i < |f| && Keys(f)[i] == index[j].0;
        assert f[i] in f;
        var k :| 0 <= k < |index| && MemberDay(index, k, date) != [] && f[i] == (index[k].0, MemberDay(index, k, date));
        assert k == j;
      }
    }
  }

  lemma OnDateAlternativeSound(index: Index, date: string, duration: real)
    requires DistinctKeys(index)
    ensures forall a :: a in OnDate(index, date, duration).1 ==> a.date == date && AlternativeValid(index, duration, a)
  {
    var available := AvailableOn(index, date);
    if |available| >= 2 {
      var common := IntersectAll(Values(available), duration);
      forall a | a in OnDate(index, date, duration).1
        ensures a.date == date && AlternativeValid(index, duration, a)
      {
        var i :| 0 <= i < |common| && a == AlternativeSlot(date, common[i].start, common[i].end, Keys(available),
                                                           UnavailableOn(index, available),
                                                           |available| as real / |index| as real);
        AlternativeEntryValid(index, date, duration, common[i]);
      }
    }
  }

  /** The alternative entry a date builds from one of its common intervals. */
  lemma AlternativeEntryValid(index: Index, date: string, duration: real, z: Slot)
    requires DistinctKeys(index)
    requires |AvailableOn(index, date)| >= 2
    requires z in IntersectAll(Values(AvailableOn(index, date)), duration)
    ensures AlternativeValid(index, duration,
                             AlternativeSlot(date, z.start, z.end, Keys(AvailableOn(index, date)),
                                             UnavailableOn(index, AvailableOn(index, date)),
                                             |AvailableOn(index, date)| as real / |index| as real))
  {
    AvailableNames(index, date);
    FreeCovered(index, date, duration, z);
  }

  /** A common interval of the free members' lists is long enough, not
      empty, and lies within an interval of each free member's list. */
  lemma FreeCovered(index: Index, date: string, duration: real, z: Slot)
    requires DistinctKeys(index)
    requires |AvailableOn(index, date)| >= 2
    requires z in IntersectAll(Values(AvailableOn(index, date)), duration)
    ensures LongEnough(z, duration) && z.start < z.end
    ensures forall j :: 0 <= j < |index| && MemberDay(index, j, date) != [] ==> Covered(z, MemberDay(index, j, date))
  {
    var lists := Values(AvailableOn(index, date));
    FreeNames(index, date);
    IntersectSound(lists, duration);
    forall j | 0 <= j < |index| && MemberDay(index, j, date) != []
      ensures Covered(z, MemberDay(index, j, date))
    {
      var k :| 0 <= k < |lists| && lists[k] == MemberDay(index, j, date);
    }
  }

  /** The names an alternative entry of `date` lists: the free members, in
      index order, and the others, in index order. */
  lemma AvailableNames(index: Index, date: string)
    requires DistinctKeys(index)
    ensures forall m :: m in Keys(AvailableOn(index, date)) ==> m in Keys(index)
    ensures forall j :: 0 <= j < |index| ==>
              (index[j].0 in Keys(AvailableOn(index, date)) <==> MemberDay(index, j, date) != [])
    ensures forall j :: 0 <= j < |index| && MemberDay(index, j, date) != [] ==>
              MemberDay(index, j, date) in Values(AvailableOn(index, date))
    ensures Keys(AvailableOn(index, date)) == Keys(FreeOn(index, date))
    ensures UnavailableOn(index, AvailableOn(index, date)) == AbsentOn(index, date)
    ensures var ks := Keys(AvailableOn(index, date)); forall i, j :: 0 <= i < j < |ks| ==> ks[i] != ks[j]
    ensures var us := AbsentOn(index, date); forall i, j :: 0 <= i < j < |us| ==> us[i] != us[j]
  {
    FreeNames(index, date);
    AvailableIsFree(index, date);
    UnavailableIsAbsent(index, AvailableOn(index, date), date);
    AvailableDistinct(index, date);
    AbsentDistinct(index, date);
  }

  /** Every stretch long enough that lies within an interval of every
      member's list is inside one of the date's perfect entries. */
  lemma OnDatePerfectComplete(index: Index, date: string, duration: real, z: Slot)
    requires DistinctKeys(index) && index != []
    requires z.start < z.end && LongEnough(z, duration)
    requires forall j :: 0 <= j < |index| ==> Covered(z, MemberDay(index, j, date))
    ensures exists p :: p in OnDate(index, date, duration).0 && Within(z, Slot(p.start, p.end))
  {
    var available := AvailableOn(index, date);
    AvailableIsFree(index, date);
    FreeOnFull(index, date);
    FullDay(index, date);
    var lists := Values(available);
    IntersectComplete(lists, duration, z);
    var common := IntersectAll(lists, duration);
    var w :| w in common && Within(z, w);
    var i :| 0 <= i < |common| && common[i] == w;
    var p := PerfectSlots(date, common, Keys(available))[i];
    assert p in OnDate(index, date, duration).0;
  }

  /** Two members with intervals on `date` make two entries of `members_available`. */
  lemma TwoFree(index: Index, date: string, j1: nat, j2: nat)
    requires DistinctKeys(index)
    requires j1 < j2 < |index| && MemberDay(index, j1, date) != [] && MemberDay(index, j2, date) != []
    ensures |AvailableOn(index, date)| >= 2
  {
    FreeNames(index, date);
    var names := Keys(AvailableOn(index, date));
    var i1 :| 0 <= i1 < |names| && names[i1] == index[j1].0;
    var i2 :| 0 <= i2 < |names| && names[i2] == index[j2].0;
    assert i1 != i2;
  }

  /** A stretch within every free member's list is within every list that
      `_find_common_slots` intersects. */
  lemma FreeListsCover(index: Index, date: string, z: Slot)
    requires DistinctKeys(index)
    requires forall j :: 0 <= j < |index| && MemberDay(index, j, date) != [] ==> Covered(z, MemberDay(index, j, date))
    ensures forall k :: 0 <= k < |AvailableOn(index, date)| ==> Covered(z, Values(AvailableOn(index, date))[k])
  {
    var available := AvailableOn(index, date);
    AvailableIsFree(index, date);
    FreeOnFrom(index, date);
    forall k | 0 <= k < |available| ensures Covered(z, Values(available)[k]) {
      assert available[k] in available;
      var j :| 0 <= j < |index| && MemberDay(index, j, date) != [] && available[k] == (index[j].0, MemberDay(index, j, date));
    }
  }

  /** Where members `j1` and `j2` (and maybe others) are free, every stretch
      long enough that lies within an interval of each free member's list is
      inside one of the date's alternative entries. */
  lemma OnDateAlternativeComplete(index: Index, date: string, duration: real, z: Slot, j1: nat, j2: nat)
    requires DistinctKeys(index)
    requires j1 < j2 < |index| && MemberDay(index, j1, date) != [] && MemberDay(index, j2, date) != []
    requires z.start < z.end && LongEnough(z, duration)
    requires forall j :: 0 <= j < |index| && MemberDay(index, j, date) != [] ==> Covered(z, MemberDay(index, j, date))
    ensures exists a :: a in OnDate(index, date, duration).1 && Within(z, Slot(a.start, a.end))
  {
    var available := AvailableOn(index, date);
    var names := Keys(available);
    TwoFree(index, date, j1, j2);
    FreeListsCover(index, date, z);
    var lists := Values(available);
    IntersectComplete(lists, duration, z);
    var common := IntersectAll(lists, duration);
    var w :| w in common && Within(z, w);
    var i :| 0 <= i < |common| && common[i] == w;
    var a := AlternativeSlots(date, common, names, UnavailableOn(index, available),
                              |available| as real / |index| as real)[i];
    assert a in OnDate(index, date, duration).1;
  }

  lemma {:induction false} UnavailableNone(index: Index, available: Dict<string, seq<Slot>>)
    requires forall j :: 0 <= j < |index| ==> index[j].0 in Keys(available)
    ensures UnavailableOn(index, available) == []
  {
    if index != [] {
      var n := |index| - 1;
      UnavailableNone(index[..n], available);
    }
  }

  lemma RatioOfEqual(a: nat, b: nat)
    requires a == b && b > 0
    ensures a as real / b as real == 1.0
  {
  }

  /** With two or more members, each perfect entry of a date is also among
      that date's alternatives, with no one unavailable and coverage 1. */
  lemma OnDatePerfectAlsoAlternative(index: Index, date: string, duration: real)
    requires DistinctKeys(index) && |index| >= 2
    ensures forall p :: p in OnDate(index, date, duration).0 ==>
              AlternativeSlot(p.date, p.start, p.end, p.available, [], 1.0) in OnDate(index, date, duration).1
  {
    var available := AvailableOn(index, date);
    if |available| == |index| {
      FullDay(index, date);
      UnavailableNone(index, available);
      RatioOfEqual(|available|, |index|);
      var common := IntersectAll(Values(available), duration);
      var names := Keys(available);
      assert OnDate(index, date, duration) ==
             (PerfectSlots(date, common, names), AlternativeSlots(date, common, names, [], 1.0));
      PerfectSlotsAsAlternatives(date, common, names);
    }
  }

  /** Each perfect entry built from a list of intervals has a twin among the
      alternatives built from it with no one unavailable and coverage 1. */
  lemma PerfectSlotsAsAlternatives(date: string, common: seq<Slot>, names: seq<string>)
    ensures forall p :: p in PerfectSlots(date, common, names) ==>
              AlternativeSlot(p.date, p.start, p.end, p.available, [], 1.0) in AlternativeSlots(date, common, names, [], 1.0)
  {
    forall p | p in PerfectSlots(date, common, names)
      ensures AlternativeSlot(p.date, p.start, p.end, p.available, [], 1.0) in AlternativeSlots(date, common, names, [], 1.0)
    {
      var i :| 0 <= i < |common| && p == PerfectSlots(date, common, names)[i];
      assert AlternativeSlots(date, common, names, [], 1.0)[i]
             == AlternativeSlot(p.date, p.start, p.end, p.available, [], 1.0);
    }
  }

  // ---------------------------------------------------------------------
  // All dates
  // ---------------------------------------------------------------------

  lemma {:induction false} CollectFrom(index: Index, dates: seq<string>, duration: real)
    ensures forall p :: p in Collect(index, dates, duration).0 ==>
              exists k :: 0 <= k < |dates| && p in OnDate(index, dates[k], duration).0
    ensures forall a :: a in Collect(index, dates, duration).1 ==>
              exists k :: 0 <= k < |dates| && a in OnDate(index, dates[k], duration).1
  {
    if dates != [] {
      var n := |dates| - 1;
      CollectFrom(index, dates[..n], duration);
      assert forall k :: 0 <= k < n ==> dates[..n][k] == dates[k];
    }
  }

  lemma CollectHas(index: Index, dates: seq<string>, duration: real, k: nat)
    requires k < |dates|
    ensures forall p :: p in OnDate(index, dates[k], duration).0 ==> p in Collect(index, dates, duration).0
    ensures forall a :: a in OnDate(index, dates[k], duration).1 ==> a in Collect(index, dates, duration).1
  {
    CollectHasPerfect(index, dates, duration, k);
    CollectHasAlternatives(index, dates, duration, k);
  }

  lemma {:induction false} CollectHasPerfect(index: Index, dates: seq<string>, duration: real, k: nat)
    requires k < |dates|
    ensures forall p :: p in OnDate(index, dates[k], duration).0 ==> p in Collect(index, dates, duration).0
  {
    var n := |dates| - 1;
    var before := Collect(index, dates[..n], duration).0;
    var here := OnDate(index, dates[n], duration).0;
    assert Collect(index, dates, duration).0 == before + here;
    if k < n {
      assert dates[..n][k] == dates[k];
      CollectHasPerfect(index, dates[..n], duration, k);
      InAppendLeft(OnDate(index, dates[k], duration).0, before, here);
    } else {
      assert k == n;
      InAppendRight(here, before);
    }
  }

  lemma {:induction false} CollectHasAlternatives(index: Index, dates: seq<string>, duration: real, k: nat)
    requires k < |dates|
    ensures forall a :: a in OnDate(index, dates[k], duration).1 ==> a in Collect(index, dates, duration).1
  {
    var n := |dates| - 1;
    var before := Collect(index, dates[..n], duration).1;
    var here := OnDate(index, dates[n], duration).1;
    assert Collect(index, dates, duration).1 == before + here;
    if k < n {
      assert dates[..n][k] == dates[k];
      CollectHasAlternatives(index, dates[..n], duration, k);
      InAppendLeft(OnDate(index, dates[k], duration).1, before, here);
    } else {
      assert k == n;
      InAppendRight(here, before);
    }
  }

  lemma InAppendLeft<T>(x: seq<T>, a: seq<T>, b: seq<T>)
    requires forall p :: p in x ==> p in a
    ensures forall p :: p in x ==> p in a + b
  {
  }

  lemma InAppendRight<T>(b: seq<T>, a: seq<T>)
    ensures forall p :: p in b ==> p in a + b
  {
  }

  // ---------------------------------------------------------------------
  // Date order of the output (main.py:141)
  // ---------------------------------------------------------------------

  /** Date `a` comes no later than date `b`. */
  predicate NotAfter(a: string, b: string) {
    a == b || Less(a, b)
  }

  /** Perfect entries whose dates never go backwards. */
  predicate PerfectByDate(s: seq<PerfectSlot>) {
    forall i, j :: 0 <= i < j < |s| ==> NotAfter(s[i].date, s[j].date)
  }

  /** Alternative entries whose dates never go backwards. */
  predicate AlternativesByDate(s: seq<AlternativeSlot>) {
    forall i, j :: 0 <= i < j < |s| ==> NotAfter(s[i].date, s[j].date)
  }

  /** Every entry a date contributes carries that date. */
  lemma OnDateDates(index: Index, date: string, duration: real)
    ensures forall p :: p in OnDate(index, date, duration).0 ==> p.date == date
    ensures forall a :: a in OnDate(index, date, duration).1 ==> a.date == date
  {
    var here := OnDate(index, date, duration);
    forall p | p in here.0 ensures p.date == date {
      var i :| 0 <= i < |here.0| && here.0[i] == p;
    }
    forall a | a in here.1 ensures a.date == date {
      var i :| 0 <= i < |here.1| && here.1[i] == a;
    }
  }

  /** The entries of the dates before the last one are all dated earlier
      than the last date. */
  lemma CollectBefore(index: Index, dates: seq<string>, duration: real)
    requires StrictlySorted(dates) && dates != []
    ensures forall p :: p in Collect(index, dates[..|dates| - 1], duration).0 ==> Less(p.date, dates[|dates| - 1])
    ensures forall a :: a in Collect(index, dates[..|dates| - 1], duration).1 ==> Less(a.date, dates[|dates| - 1])
  {
    var n := |dates| - 1;
    var prefix := dates[..n];
    CollectFrom(index, prefix, duration);
    forall p | p in Collect(index, prefix, duration).0 ensures Less(p.date, dates[n]) {
      var k :| 0 <= k < n && p in OnDate(index, prefix[k], duration).0;
      OnDateDates(index, prefix[k], duration);
      assert prefix[k] == dates[k];
    }
    forall a | a in Collect(index, prefix, duration).1 ensures Less(a.date, dates[n]) {
      var k :| 0 <= k < n && a in OnDate(index, prefix[k], duration).1;
      OnDateDates(index, prefix[k], duration);
      assert prefix[k] == dates[k];
    }
  }

  lemma PerfectByDateAppend(a: seq<PerfectSlot>, b: seq<PerfectSlot>)
    requires PerfectByDate(a) && PerfectByDate(b)
    requires forall x, y :: x in a && y in b ==> NotAfter(x.date, y.date)
    ensures PerfectByDate(a + b)
  {
    forall i, j | 0 <= i < j < |a + b| ensures NotAfter((a + b)[i].date, (a + b)[j].date) {
      if j < |a| {
        assert (a + b)[i] == a[i] && (a + b)[j] == a[j];
      } else if i < |a| {
        assert (a + b)[i] == a[i] && a[i] in a;
        assert (a + b)[j] == b[j - |a|] && b[j - |a|] in b;
      } else {
        assert (a + b)[i] == b[i - |a|] && (a + b)[j] == b[j - |a|];
      }
    }
  }

  lemma AlternativesByDateAppend(a: seq<AlternativeSlot>, b: seq<AlternativeSlot>)
    requires AlternativesByDate(a) && AlternativesByDate(b)
    requires forall x, y :: x in a && y in b ==> NotAfter(x.date, y.date)
    ensures AlternativesByDate(a + b)
  {
    forall i, j | 0 <= i < j < |a + b| ensures NotAfter((a + b)[i].date, (a + b)[j].date) {
      if j < |a| {
        assert (a + b)[i] == a[i] && (a + b)[j] == a[j];
      } else if i < |a| {
        assert (a + b)[i] == a[i] && a[i] in a;
        assert (a + b)[j] == b[j - |a|] && b[j - |a|] in b;
      } else {
        assert (a + b)[i] == b[i - |a|] && (a + b)[j] == b[j - |a|];
      }
    }
  }

  /** One date's entries all carry that date, so they are in date order. */
  lemma OnDateByDate(index: Index, date: string, duration: real)
    ensures PerfectByDate(OnDate(index, date, duration).0)
    ensures AlternativesByDate(OnDate(index, date, duration).1)
  {
    var here := OnDate(index, date, duration);
    OnDateDates(index, date, duration);
    assert forall i :: 0 <= i < |here.0| ==> here.0[i] in here.0;
    assert forall i :: 0 <= i < |here.1| ==> here.1[i] in here.1;
  }

  /** Visiting strictly increasing dates collects the entries date by date:
      neither the perfect entries nor the alternatives ever go back to an
      earlier date. */
  lemma {:induction false} CollectDateOrder(index: Index, dates: seq<string>, duration: real)
    requires StrictlySorted(dates)
    ensures PerfectByDate(Collect(index, dates, duration).0)
    ensures AlternativesByDate(Collect(index, dates, duration).1)
  {
    if dates != [] {
      var n := |dates| - 1;
      var prefix := dates[..n];
      assert StrictlySorted(prefix) by {
        assert forall i :: 0 <= i < n ==> prefix[i] == dates[i];
      }
      CollectDateOrder(index, prefix, duration);
      var before := Collect(index, prefix, duration);
      var here := OnDate(index, dates[n], duration);
      assert Collect(index, dates, duration) == (before.0 + here.0, before.1 + here.1);
      CollectBefore(index, dates, duration);
      OnDateDates(index, dates[n], duration);
      OnDateByDate(index, dates[n], duration);
      PerfectByDateAppend(before.0, here.0);
      AlternativesByDateAppend(before.1, here.1);
    }
  }

  /** Keeping the entries of one coverage keeps date order. */
  lemma {:induction false} WithCoverageByDate(s: seq<AlternativeSlot>, c: real)
    requires AlternativesByDate(s)
    ensures AlternativesByDate(WithCoverage(s, c))
    ensures forall x :: x in WithCoverage(s, c) ==> x in s
  {
    if s != [] {
      var tail := s[1..];
      assert AlternativesByDate(tail) by {
        assert forall i :: 0 <= i < |tail| ==> tail[i] == s[i + 1];
      }
      WithCoverageByDate(tail, c);
      var rest := WithCoverage(tail, c);
      var head := if s[0].coverage == c then [s[0]] else [];
      forall x, y | x in head && y in rest ensures NotAfter(x.date, y.date) {
        var k :| 0 <= k < |tail| && tail[k] == y;
        assert s[k + 1] == y;
      }
      AlternativesByDateAppend(head, rest);
    }
  }

  /** Perfect slots come out in sorted date order, and the alternatives kept
      for one coverage keep that date order. */
  lemma FindBestDateOrder(index: Index, duration: real)
    ensures PerfectByDate(FindBest(index, duration).perfect)
    ensures forall c :: AlternativesByDate(WithCoverage(FindBest(index, duration).alternatives, c))
  {
    var kept := FindBest(index, duration).alternatives;
    if index == [] {
      forall c ensures AlternativesByDate(WithCoverage(kept, c)) {
        assert WithCoverage(kept, c) == [];
      }
    } else {
      DatesOrdered(index, []);
      CollectDateOrder(index, Dates(index), duration);
      AlternativesRanked(index, duration);
      var all := Collect(index, Dates(index), duration).1;
      forall c ensures AlternativesByDate(WithCoverage(kept, c)) {
        KeptByDate(all, kept, c);
      }
    }
  }

  /** Entries of one coverage drawn, as a prefix, from a list in date order
      are in date order. */
  lemma KeptByDate(all: seq<AlternativeSlot>, kept: seq<AlternativeSlot>, c: real)
    requires AlternativesByDate(all)
    requires WithCoverage(kept, c) <= WithCoverage(all, c)
    ensures AlternativesByDate(WithCoverage(kept, c))
  {
    WithCoverageByDate(all, c);
    var w := WithCoverage(all, c);
    var v := WithCoverage(kept, c);
    assert forall i :: 0 <= i < |v| ==> v[i] == w[i];
  }

  /** A member with intervals on `date` makes it one of the visited dates. */
  lemma VisitedDate(index: Index, date: string, j: nat)
    requires j < |index| && MemberDay(index, j, date) != []
    ensures date in Dates(index)
  {
    assert date in Keys(index[j].1);
    DatesOrdered(index, []);
  }

  /** Each perfect slot is for a visited date, names every member, lies
      within an interval of every member's list that day and is long enough
      (main.py:153-164). */
  lemma FindBestPerfectSound(index: Index, duration: real)
    requires DistinctKeys(index)
    ensures forall p :: p in FindBest(index, duration).perfect ==>
              p.date in Dates(index) && PerfectValid(index, duration, p)
  {
    if index != [] {
      var dates := Dates(index);
      CollectFrom(index, dates, duration);
      forall p | p in FindBest(index, duration).perfect
        ensures p.date in Dates(index) && PerfectValid(index, duration, p)
      {
        var k :| 0 <= k < |dates| && p in OnDate(index, dates[k], duration).0;
        OnDatePerfectSound(index, dates[k], duration);
      }
    }
  }

  lemma KeptAreCandidates(index: Index, duration: real)
    ensures forall a :: a in FindBest(index, duration).alternatives ==> a in Collect(index, Dates(index), duration).1
  {
    if index != [] {
      var collected := Collect(index, Dates(index), duration).1;
      var ranked := SortByCoverage(collected);
      forall a | a in FindBest(index, duration).alternatives ensures a in collected {
        assert a in ranked;
        assert a in multiset(collected);
      }
    }
  }

  /** Each alternative kept is for a visited date, names exactly the members
      free that day (at least two) and the rest as unavailable, carries their
      fraction as coverage, lies within an interval of each free member's
      list and is long enough (main.py:166-183). */
  lemma FindBestAlternativesSound(index: Index, duration: real)
    requires DistinctKeys(index)
    ensures forall a :: a in FindBest(index, duration).alternatives ==>
              a.date in Dates(index) && AlternativeValid(index, duration, a)
  {
    var dates := Dates(index);
    KeptAreCandidates(index, duration);
    CollectFrom(index, dates, duration);
    forall a | a in FindBest(index, duration).alternatives
      ensures a.date in Dates(index) && AlternativeValid(index, duration, a)
    {
      var k :| 0 <= k < |dates| && a in OnDate(index, dates[k], duration).1;
      OnDateAlternativeSound(index, dates[k], duration);
    }
  }

  /** Nothing is missed where everyone is free: every stretch of positive
      length, at least `duration` long, lying within an interval of every
      member's list for a date, lies within a perfect slot of that date. */
  lemma FindBestPerfectComplete(index: Index, duration: real, date: string, z: Slot)
    requires DistinctKeys(index) && index != []
    requires z.start < z.end && LongEnough(z, duration)
    requires forall j :: 0 <= j < |index| ==> Covered(z, MemberDay(index, j, date))
    ensures exists p :: p in FindBest(index, duration).perfect && p.date == date && Within(z, Slot(p.start, p.end))
  {
    assert MemberDay(index, 0, date) != [] by { assert Covered(z, MemberDay(index, 0, date)); }
    VisitedDate(index, date, 0);
    var dates := Dates(index);
    var k :| 0 <= k < |dates| && dates[k] == date;
    OnDatePerfectComplete(index, date, duration, z);
    OnDatePerfectSound(index, date, duration);
    CollectHas(index, dates, duration, k);
  }

  /** Likewise for two or more free members before ranking: every such
      stretch lies within an alternative of that date among all the
      alternatives found (the ranking keeps the first ten). */
  lemma AlternativeCandidatesComplete(index: Index, duration: real, date: string, z: Slot, j1: nat, j2: nat)
    requires DistinctKeys(index)
    requires j1 < j2 < |index| && MemberDay(index, j1, date) != [] && MemberDay(index, j2, date) != []
    requires z.start < z.end && LongEnough(z, duration)
    requires forall j :: 0 <= j < |index| && MemberDay(index, j, date) != [] ==> Covered(z, MemberDay(index, j, date))
    ensures exists a :: a in Collect(index, Dates(index), duration).1 && a.date == date && Within(z, Slot(a.start, a.end))
  {
    VisitedDate(index, date, j1);
    var dates := Dates(index);
    var k :| 0 <= k < |dates| && dates[k] == date;
    OnDateAlternativeComplete(index, date, duration, z, j1, j2);
    OnDateAlternativeSound(index, date, duration);
    CollectHas(index, dates, duration, k);
  }

  /** With two or more members, every perfect slot is also found as an
      alternative with coverage 1 and no one unavailable (before the ranking
      keeps ten). */
  lemma PerfectAlsoAlternative(index: Index, duration: real)
    requires DistinctKeys(index) && |index| >= 2
    ensures forall p :: p in FindBest(index, duration).perfect ==>
              AlternativeSlot(p.date, p.start, p.end, p.available, [], 1.0) in Collect(index, Dates(index), duration).1
  {
    var dates := Dates(index);
    CollectFrom(index, dates, duration);
    forall p | p in FindBest(index, duration).perfect
      ensures AlternativeSlot(p.date, p.start, p.end, p.available, [], 1.0) in Collect(index, dates, duration).1
    {
      var k :| 0 <= k < |dates| && p in OnDate(index, dates[k], duration).0;
      OnDatePerfectAlsoAlternative(index, dates[k], duration);
      CollectHas(index, dates, duration, k);
    }
  }

  lemma {:induction false} CollectNoAlternatives(index: Index, dates: seq<string>, duration: real)
    requires |index| <= 1
    ensures Collect(index, dates, duration).1 == []
  {
    if dates != [] {
      CollectNoAlternatives(index, dates[..|dates| - 1], duration);
    }
  }

  /** A single member never gets an alternative, even on dates where they
      get perfect slots: alternatives need two free members. */
  lemma SingleMemberNoAlternatives(index: Index, duration: real)
    requires |index| == 1
    ensures FindBest(index, duration).alternatives == []
  {
    CollectNoAlternatives(index, Dates(index), duration);
  }

  /** The first `k` entries of the ranked `all` are ordered by coverage
      and keep the order of `all` within each coverage. */
  lemma TopRankedOrder(all: seq<AlternativeSlot>, k: nat)
    requires k <= |all|
    ensures SortedByCoverage(SortByCoverage(all)[..k])
    ensures forall c :: WithCoverage(SortByCoverage(all)[..k], c) <= WithCoverage(all, c)
  {
    SortByCoverageSorted(all);
    SortedPrefix(SortByCoverage(all), k);
    forall c ensures WithCoverage(SortByCoverage(all)[..k], c) <= WithCoverage(all, c) {
      KeptPrefix(all, k, c);
    }
  }

  lemma SortedPrefix(s: seq<AlternativeSlot>, k: nat)
    requires k <= |s| && SortedByCoverage(s)
    ensures SortedByCoverage(s[..k])
  {
    assert forall i :: 0 <= i < k ==> s[..k][i] == s[i];
  }

  lemma KeptPrefix(all: seq<AlternativeSlot>, k: nat, c: real)
    requires k <= |all|
    ensures WithCoverage(SortByCoverage(all)[..k], c) <= WithCoverage(all, c)
  {
    var ranked := SortByCoverage(all);
    assert ranked == ranked[..k] + ranked[k..];
    SortByCoverageStable(all, c);
    WithCoverageAppend(ranked[..k], ranked[k..], c);
  }

  /** The first `k` entries of the ranked `all` are drawn from `all`, and
      none left out outranks one kept. */
  lemma TopRankedDropped(all: seq<AlternativeSlot>, k: nat)
    requires k <= |all|
    ensures multiset(SortByCoverage(all)[..k]) <= multiset(all)
    ensures forall a, b :: a in SortByCoverage(all)[..k] && b in multiset(all) - multiset(SortByCoverage(all)[..k]) ==>
              a.coverage >= b.coverage
  {
    var ranked := SortByCoverage(all);
    SortByCoverageSorted(all);
    SortedSplit(ranked, k);
  }

  /** Cutting a sorted list after `k` entries: the head is part of it, and
      nothing left in the tail has higher coverage than an entry kept. */
  lemma SortedSplit(ranked: seq<AlternativeSlot>, k: nat)
    requires k <= |ranked| && SortedByCoverage(ranked)
    ensures multiset(ranked[..k]) <= multiset(ranked)
    ensures forall a, b :: a in ranked[..k] && b in multiset(ranked) - multiset(ranked[..k]) ==>
              a.coverage >= b.coverage
  {
    var kept := ranked[..k];
    assert ranked == kept + ranked[k..];
    assert multiset(ranked) == multiset(kept) + multiset(ranked[k..]);
    forall a, b | a in kept && b in multiset(ranked) - multiset(kept) ensures a.coverage >= b.coverage {
      assert b in ranked[k..];
      var i :| 0 <= i < k && kept[i] == a;
      var j :| k <= j < |ranked| && ranked[j] == b by { assert b in ranked[k..]; }
    }
  }

  /** The alternatives returned are the first ten of the candidates ordered
      by coverage, highest first; among equal coverage they keep date order;
      every candidate dropped has coverage no higher than any kept. */
  lemma AlternativesRanked(index: Index, duration: real)
    requires index != []
    ensures var all := Collect(index, Dates(index), duration).1;
            var kept := FindBest(index, duration).alternatives;
            && |kept| == Min(MaxAlternatives, |all|)
            && SortedByCoverage(kept)
            && multiset(kept) <= multiset(all)
            && (forall c :: WithCoverage(kept, c) <= WithCoverage(all, c))
            && (forall a, b :: a in kept && b in multiset(all) - multiset(kept) ==> a.coverage >= b.coverage)
  {
    var all := Collect(index, Dates(index), duration).1;
    TopRankedOrder(all, Min(MaxAlternatives, |all|));
    TopRankedDropped(all, Min(MaxAlternatives, |all|));
  }

  /** One member free 9AM-5PM on "Mon", one hour asked: a perfect slot but
      no alternative, so a perfect slot is not always also an alternative. */
  lemma SingleMemberExample()
    ensures var index: Index := [("Alice", [("Mon", [Slot(9, 17)])])];
            FindBest(index, 1.0) == Meeting([PerfectSlot("Mon", 9, 17, ["Alice"], [])], [])
  {
    var index: Index := [("Alice", [("Mon", [Slot(9, 17)])])];
    AliceDates();
    AliceMonday();
    CollectOne(index, "Mon", 1.0);
    SingleMemberNoAlternatives(index, 1.0);
    assert FindBest(index, 1.0).perfect == Collect(index, ["Mon"], 1.0).0;
  }

  /** Visiting one date collects exactly that date's entries. */
  lemma CollectOne(index: Index, date: string, duration: real)
    ensures Collect(index, [date], duration) == OnDate(index, date, duration)
  {
    var here := OnDate(index, date, duration);
    assert [date][..0] == [];
    assert Collect(index, [], duration) == ([], []);
    assert [] + here.0 == here.0 && [] + here.1 == here.1;
  }

  /** The example's one member has one date. */
  lemma AliceDates()
    ensures Dates([("Alice", [("Mon", [Slot(9, 17)])])]) == ["Mon"]
  {
    var index: Index := [("Alice", [("Mon", [Slot(9, 17)])])];
    assert index[..0] == [];
    assert Keys(index[0].1) == ["Mon"];
    assert AddAll([], ["Mon"]) == ["Mon"];
  }

  /** The example's one date gives one perfect entry and no alternative. */
  lemma AliceMonday()
    ensures OnDate([("Alice", [("Mon", [Slot(9, 17)])])], "Mon", 1.0)
         == ([PerfectSlot("Mon", 9, 17, ["Alice"], [])], [])
  {
    var index: Index := [("Alice", [("Mon", [Slot(9, 17)])])];
    var nine := [Slot(9, 17)];
    assert index[..0] == [];
    assert DayList(index[0].1, "Mon") == nine;
    var available := AvailableOn(index, "Mon");
    assert available == [("Alice", nine)];
    assert Values(available) == [nine] && Keys(available) == ["Alice"];
    assert KeepLongEnough(nine, 1.0) == nine by {
      assert nine[..0] == [];
    }
    assert IntersectAll([nine], 1.0) == nine;
    assert PerfectSlots("Mon", nine, ["Alice"]) == [PerfectSlot("Mon", 9, 17, ["Alice"], [])];
  }
}
