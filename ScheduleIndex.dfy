/** `parse_availability` (main.py:91-124) as a function: the table read from
    the availability file becomes a dictionary from member name to a
    dictionary from date column to the parsed intervals of that cell. */
module ScheduleIndex {
  import opened Optional
  import opened Text
  import opened Hours
  import opened Assoc
  import opened Parser

  /** One member's intervals per date column, in column order. */
  type DaySchedule = Dict<string, seq<Slot>>

  /** `parsed_schedules`: member name to that member's day schedule, in the
      order the names first appear. */
  type Index = Dict<string, DaySchedule>

  /** One table row: the member-name cell and the date cells, as strings. */
  datatype Row = Row(name: string, cells: seq<string>)

  /** The availability table: the labels of the date columns (every column
      after the first) and the rows. */
  datatype Table = Table(dates: seq<string>, rows: seq<Row>)

  /** Every row has one cell per date column. */
  predicate Rectangular(t: Table) {
    forall r :: r in t.rows ==> |r.cells| == |t.dates|
  }

  /** A trimmed name that marks an empty row (main.py:107). */
  predicate IsMissingName(name: string) {
    name == [] || ToLower(name) in ["nan", "none", ""]
  }

  /** The member schedule of one row (main.py:110-119): each date column
      assigned the parse of its cell, column after column. */
  function RowSchedule(dates: seq<string>, cells: seq<string>): DaySchedule
    requires |cells| == |dates|
  {
    if dates == [] then []
    else
      var n := |dates| - 1;
      Put(RowSchedule(dates[..n], cells[..n]), dates[n], ParseCell(cells[n]))
  }

  /** One more date column: its label is assigned the parse of its cell. */
  lemma RowScheduleStep(dates: seq<string>, cells: seq<string>, c: nat)
    requires |cells| == |dates| && c < |dates|
    ensures RowSchedule(dates[..c + 1], cells[..c + 1]) ==
            Put(RowSchedule(dates[..c], cells[..c]), dates[c], ParseCell(cells[c]))
  {
    assert dates[..c + 1][..c] == dates[..c];
    assert cells[..c + 1][..c] == cells[..c];
  }

  /** The index built from `rows`, row after row (main.py:105-121). */
  function Build(dates: seq<string>, rows: seq<Row>): Index
    requires forall r :: r in rows ==> |r.cells| == |dates|
  {
    if rows == [] then []
    else
      var n := |rows| - 1;
      var before := Build(dates, rows[..n]);
      var name := Strip(rows[n].name);
      if IsMissingName(name) then before
      else Put(before, name, RowSchedule(dates, rows[n].cells))
  }

  /** One more row: its member is assigned its schedule, unless the name is
      missing. */
  lemma BuildSnoc(dates: seq<string>, before: seq<Row>, row: Row)
    requires forall r :: r in before ==> |r.cells| == |dates|
    requires |row.cells| == |dates|
    ensures forall r :: r in before + [row] ==> |r.cells| == |dates|
    ensures Build(dates, before + [row]) ==
            var name := Strip(row.name);
            if IsMissingName(name) then Build(dates, before)
            else Put(Build(dates, before), name, RowSchedule(dates, row.cells))
  {
    var rows := before + [row];
    assert forall r :: r in rows ==> r in before || r == row;
    assert rows[..|before|] == before;
    assert rows[|rows| - 1] == row;
  }

  /** The first `r + 1` rows are the first `r` and then row `r`. */
  lemma PrefixSnoc(rows: seq<Row>, r: nat)
    requires r < |rows|
    ensures rows[..r + 1] == rows[..r] + [rows[r]]
    ensures forall x :: x in rows[..r + 1] ==> x in rows
  {
  }

  function BuildIndex(t: Table): Index
    requires Rectangular(t)
  {
    Build(t.dates, t.rows)
  }

  /** The trimmed names of the rows that are kept, in row order. */
  function KeptNames(rows: seq<Row>): (names: seq<string>)
    ensures forall n :: n in names ==> !IsMissingName(n)
  {
    if rows == [] then []
    else
      var n := |rows| - 1;
      var name := Strip(rows[n].name);
      KeptNames(rows[..n]) + if IsMissingName(name) then [] else [name]
  }

  /** The elements of `s` in order of first appearance. */
  function Dedup(s: seq<string>): (r: seq<string>)
    ensures forall x :: x in r <==> x in s
    ensures forall i, j :: 0 <= i < j < |r| ==> r[i] != r[j]
  {
    if s == [] then []
    else
      var n := |s| - 1;
      var d := Dedup(s[..n]);
      var x := s[n];
      assert forall y :: y in s <==> y in s[..n] || y == x;
      if x in d then d else d + [x]
  }

  /** Order of first appearance: the elements of each prefix of `s`, deduplicated,
      are a prefix of `Dedup(s)`, so an element whose first occurrence comes
      earlier is listed earlier. */
  lemma {:induction false} DedupPrefix(s: seq<string>)
    ensures forall k :: 0 <= k <= |s| ==> Dedup(s[..k]) <= Dedup(s)
  {
    if s != [] {
      var n := |s| - 1;
      DedupPrefix(s[..n]);
      forall k | 0 <= k <= |s| ensures Dedup(s[..k]) <= Dedup(s) {
        if k <= n {
          assert s[..n][..k] == s[..k];
        } else {
          assert s[..k] == s;
        }
      }
    }
  }

  predicate Distinct(s: seq<string>) {
    forall i, j :: 0 <= i < j < |s| ==> s[i] != s[j]
  }

  /** Distinct date columns give a schedule with exactly those dates, in
      column order, each holding the parse of its own cell. */
  lemma {:induction false} RowScheduleComplete(dates: seq<string>, cells: seq<string>)
    requires |cells| == |dates| && Distinct(dates)
    ensures Keys(RowSchedule(dates, cells)) == dates
    ensures forall j :: 0 <= j < |dates| ==> Get(RowSchedule(dates, cells), dates[j]) == Some(ParseCell(cells[j]))
  {
    if dates != [] {
      var n := |dates| - 1;
      DistinctPrefix(dates);
      RowScheduleComplete(dates[..n], cells[..n]);
      SnocSplit(dates);
      SnocSplit(cells);
      ExtendSchedule(RowSchedule(dates[..n], cells[..n]), dates[..n], cells[..n], dates[n], cells[n]);
    }
  }

  lemma DistinctPrefix(s: seq<string>)
    requires s != [] && Distinct(s)
    ensures Distinct(s[..|s| - 1]) && s[|s| - 1] !in s[..|s| - 1]
  {
  }

  lemma SnocSplit<T>(s: seq<T>)
    requires s != []
    ensures s == s[..|s| - 1] + [s[|s| - 1]]
  {
  }

  /** A new date column, assigned the parse of its cell, extends a complete
      schedule to a complete one. */
  lemma ExtendSchedule(before: DaySchedule, ds: seq<string>, cs: seq<string>, d: string, c: string)
    requires |cs| == |ds| && Keys(before) == ds && d !in ds
    requires forall j :: 0 <= j < |ds| ==> Get(before, ds[j]) == Some(ParseCell(cs[j]))
    ensures Keys(Put(before, d, ParseCell(c))) == ds + [d]
    ensures forall j :: 0 <= j < |ds| + 1 ==>
              Get(Put(before, d, ParseCell(c)), (ds + [d])[j]) == Some(ParseCell((cs + [c])[j]))
  {
    PutKeys(before, d, ParseCell(c));
    forall j | 0 <= j < |ds| + 1
      ensures Get(Put(before, d, ParseCell(c)), (ds + [d])[j]) == Some(ParseCell((cs + [c])[j]))
    {
      PutGet(before, d, ParseCell(c), (ds + [d])[j]);
      if j < |ds| {
        assert (ds + [d])[j] == ds[j] && (cs + [c])[j] == cs[j];
      }
    }
  }

  /** The members of the index are the kept names, each once, in the order
      of their first row. */
  lemma {:induction false} BuildKeys(dates: seq<string>, rows: seq<Row>)
    requires forall r :: r in rows ==> |r.cells| == |dates|
    ensures Keys(Build(dates, rows)) == Dedup(KeptNames(rows))
    ensures DistinctKeys(Build(dates, rows))
  {
    if rows != [] {
      var n := |rows| - 1;
      var before := Build(dates, rows[..n]);
      assert forall r :: r in rows[..n] ==> r in rows;
      BuildKeys(dates, rows[..n]);
      var name := Strip(rows[n].name);
      var ks := KeptNames(rows[..n]);
      if !IsMissingName(name) {
        var v := RowSchedule(dates, rows[n].cells);
        PutKeys(before, name, v);
        PutDistinct(before, name, v);
        assert KeptNames(rows) == ks + [name];
        DedupSnoc(ks, name);
      } else {
        assert KeptNames(rows) == ks;
      }
    }
  }

  lemma DedupSnoc(s: seq<string>, x: string)
    ensures Dedup(s + [x]) == if x in Dedup(s) then Dedup(s) else Dedup(s) + [x]
  {
    assert (s + [x])[..|s|] == s;
  }

  /** The row is kept and its trimmed name is `name`. */
  predicate Bears(row: Row, name: string) {
    !IsMissingName(Strip(row.name)) && Strip(row.name) == name
  }

  /** The last kept row whose trimmed name is `name`. */
  function LastRowNamed(rows: seq<Row>, name: string): (r: Option<Row>)
    ensures r.Some? ==> r.value in rows && Strip(r.value.name) == name && !IsMissingName(name)
    ensures r.None? ==> name !in KeptNames(rows)
  {
    if rows == [] then None
    else
      var n := |rows| - 1;
      if Bears(rows[n], name) then Some(rows[n])
      else LastRowNamed(rows[..n], name)
  }

  /** Position of the last element of `s` satisfying `p`. */
  function LastWhere<T>(s: seq<T>, p: T -> bool): (r: Option<nat>)
    ensures r.Some? ==> r.value < |s| && p(s[r.value]) && forall k :: r.value < k < |s| ==> !p(s[k])
    ensures r.None? ==> forall k :: 0 <= k < |s| ==> !p(s[k])
  {
    if s == [] then None
    else if p(s[|s| - 1]) then Some(|s| - 1)
    else LastWhere(s[..|s| - 1], p)
  }

  /** Dropping a last element that fails `p` leaves the last position
      satisfying `p` where it was. */
  lemma LastWhereDrop<T>(s: seq<T>, p: T -> bool)
    requires s != [] && !p(s[|s| - 1])
    ensures LastWhere(s, p) == LastWhere(s[..|s| - 1], p)
    ensures LastWhere(s, p).Some? ==> s[..|s| - 1][LastWhere(s, p).value] == s[LastWhere(s, p).value]
  {
  }

  /** `LastRowNamed` picks the row at the last position bearing the name. */
  lemma {:induction false} LastRowNamedAt(rows: seq<Row>, name: string)
    ensures LastRowNamed(rows, name) ==
            match LastWhere(rows, row => Bears(row, name))
            case None => None
            case Some(k) => Some(rows[k])
  {
    if rows != [] {
      var n := |rows| - 1;
      if !Bears(rows[n], name) {
        LastRowNamedAt(rows[..n], name);
        LastWhereDrop(rows, row => Bears(row, name));
      }
    }
  }

  /** The row found is the last kept row bearing the name, and there is none
      exactly when no kept row bears it. */
  lemma LastRowNamedIsLast(rows: seq<Row>, name: string)
    ensures LastRowNamed(rows, name).Some? ==>
              exists k :: 0 <= k < |rows| && rows[k] == LastRowNamed(rows, name).value && Bears(rows[k], name)
                          && forall k' :: k < k' < |rows| ==> !Bears(rows[k'], name)
    ensures LastRowNamed(rows, name).None? <==> forall k :: 0 <= k < |rows| ==> !Bears(rows[k], name)
  {
    LastRowNamedAt(rows, name);
    var w := LastWhere(rows, row => Bears(row, name));
    if w.Some? {
      var k := w.value;
      assert rows[k] == LastRowNamed(rows, name).value && Bears(rows[k], name);
    }
  }

  /** A name given on several rows takes the schedule of its last row; a name
      on no kept row is not in the index. */
  lemma {:induction false} BuildLastRowWins(dates: seq<string>, rows: seq<Row>, name: string)
    requires forall r :: r in rows ==> |r.cells| == |dates|
    ensures Get(Build(dates, rows), name) ==
            match LastRowNamed(rows, name)
            case None => None
            case Some(r) => Some(RowSchedule(dates, r.cells))
  {
    if rows != [] {
      var n := |rows| - 1;
      assert forall r :: r in rows[..n] ==> r in rows;
      BuildLastRowWins(dates, rows[..n], name);
      var before := Build(dates, rows[..n]);
      var stripped := Strip(rows[n].name);
      if IsMissingName(stripped) {
        assert Build(dates, rows) == before;
        assert LastRowNamed(rows, name) == LastRowNamed(rows[..n], name);
      } else {
        assert Build(dates, rows) == Put(before, stripped, RowSchedule(dates, rows[n].cells));
        PutGet(before, stripped, RowSchedule(dates, rows[n].cells), name);
        if stripped == name {
          assert LastRowNamed(rows, name) == Some(rows[n]);
        } else {
          assert LastRowNamed(rows, name) == LastRowNamed(rows[..n], name);
        }
      }
    }
  }

  /** For a table with distinct date columns: a member's entry is the
      schedule of the last row bearing that name, and maps every date column,
      in column order, to the parse of that row's cell. */
  lemma IndexCell(t: Table, name: string, row: Row)
    requires Rectangular(t) && Distinct(t.dates)
    requires LastRowNamed(t.rows, name) == Some(row)
    ensures Get(BuildIndex(t), name) == Some(RowSchedule(t.dates, row.cells))
    ensures Keys(RowSchedule(t.dates, row.cells)) == t.dates
    ensures forall j :: 0 <= j < |t.dates| ==>
              Get(RowSchedule(t.dates, row.cells), t.dates[j]) == Some(ParseCell(row.cells[j]))
  {
    BuildLastRowWins(t.dates, t.rows, name);
    RowScheduleComplete(t.dates, row.cells);
  }
}
