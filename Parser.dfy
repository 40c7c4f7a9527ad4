/** `parse_time_slot` (main.py:20-74): one availability cell to a list of
    `(start_hour, end_hour)` intervals on the 24-hour clock. The search for
    `(\d+)\s*(AM|PM)?\s*[-–]\s*(\d+)\s*(AM|PM)` is a hand-written scanner over
    the text; `PatternAt` says declaratively what the pattern matches, and the
    lemmas below show that the scanner finds a match exactly where one exists,
    with the groups every match there has. */
module Parser {
  import opened Optional
  import opened Text
  import opened Hours

  /** The groups of one match: start number, optional start period, end
      number, end period. */
  datatype RangeMatch = RangeMatch(startNum: nat, startPeriod: Option<Period>, endNum: nat, endPeriod: Period)

  /** Where a match starting at some position `i` puts its pieces:
      `s[i..startTo]` start digits, `s[startTo..startPeriodAt]` spaces,
      `s[startPeriodAt..afterStart]` the optional start period, spaces up to
      the dash at `dashAt`, spaces up to the end digits `s[endFrom..endTo]`,
      spaces up to the end period at `endPeriodAt`. */
  datatype Cuts = Cuts(startTo: nat, startPeriodAt: nat, afterStart: nat, dashAt: nat,
                       endFrom: nat, endTo: nat, endPeriodAt: nat)

  /** The ASCII hyphen or the en-dash. */
  predicate IsDash(c: char) { c == '-' || c == '\U{2013}' }

  /** `AM` or `PM` written at position `i`. */
  function PeriodAt(s: string, i: nat): Option<Period> {
    if i + 2 <= |s| && s[i + 1] == 'M' && s[i] == 'A' then Some(AM)
    else if i + 2 <= |s| && s[i + 1] == 'M' && s[i] == 'P' then Some(PM)
    else None
  }

  predicate SpacesIn(s: string, lo: nat, hi: nat) {
    lo <= hi <= |s| && forall k :: lo <= k < hi ==> IsSpace(s[k])
  }

  predicate DigitsIn(s: string, lo: nat, hi: nat) {
    lo < hi <= |s| && forall k :: lo <= k < hi ==> IsDigit(s[k])
  }

  /** The pattern matches `s` from position `i`, cut as `x` says. */
  predicate PatternAt(s: string, i: nat, x: Cuts) {
    && DigitsIn(s, i, x.startTo)
    && SpacesIn(s, x.startTo, x.startPeriodAt)
    && (x.afterStart == x.startPeriodAt
        || (x.afterStart == x.startPeriodAt + 2 && PeriodAt(s, x.startPeriodAt).Some?))
    && SpacesIn(s, x.afterStart, x.dashAt)
    && x.dashAt < |s| && IsDash(s[x.dashAt])
    && SpacesIn(s, x.dashAt + 1, x.endFrom)
    && DigitsIn(s, x.endFrom, x.endTo)
    && SpacesIn(s, x.endTo, x.endPeriodAt)
    && PeriodAt(s, x.endPeriodAt).Some?
  }

  /** The groups of the match that `x` describes. */
  function Groups(s: string, i: nat, x: Cuts): RangeMatch
    requires PatternAt(s, i, x)
  {
    assert AllDigits(s[i..x.startTo]) && AllDigits(s[x.endFrom..x.endTo]);
    RangeMatch(DigitsValue(s[i..x.startTo]),
               if x.afterStart == x.startPeriodAt then None else PeriodAt(s, x.startPeriodAt),
               DigitsValue(s[x.endFrom..x.endTo]),
               PeriodAt(s, x.endPeriodAt).value)
  }

  /** Tries the pattern at position `i`, greedily, piece by piece: the start
      digits here, the rest in `ScanRest` and `ScanEnd`. */
  function Scan(s: string, i: nat): Option<Cuts>
    requires i <= |s|
  {
    var a := DigitsEnd(s, i);
    if a == i then None else ScanRest(s, a)
  }

  /** After the start digits: spaces, an optional period, spaces, the dash. */
  function ScanRest(s: string, a: nat): Option<Cuts>
    requires a <= |s|
  {
    var b := SpacesEnd(s, a);
    var c := if PeriodAt(s, b).Some? then b + 2 else b;
    var d := SpacesEnd(s, c);
    if d == |s| || !IsDash(s[d]) then None else ScanEnd(s, a, b, c, d)
  }

  /** After the dash: spaces, the end digits, spaces, the end period. */
  function ScanEnd(s: string, a: nat, b: nat, c: nat, d: nat): Option<Cuts>
    requires d < |s|
  {
    var e := SpacesEnd(s, d + 1);
    var f := DigitsEnd(s, e);
    if f == e then None
    else
      var g := SpacesEnd(s, f);
      if PeriodAt(s, g).None? then None
      else Some(Cuts(a, b, c, d, e, f, g))
  }

  /** Whatever the scanner finds is a match of the pattern. */
  lemma ScanSound(s: string, i: nat)
    requires i <= |s| && Scan(s, i).Some?
    ensures PatternAt(s, i, Scan(s, i).value)
  {
  }

  lemma {:induction false} SpacesEndIs(s: string, i: nat, j: nat)
    requires SpacesIn(s, i, j) && (j == |s| || !IsSpace(s[j]))
    ensures SpacesEnd(s, i) == j
    decreases j - i
  {
    if i < j { SpacesEndIs(s, i + 1, j); }
  }

  lemma {:induction false} DigitsEndIs(s: string, i: nat, j: nat)
    requires i <= j <= |s| && (forall k :: i <= k < j ==> IsDigit(s[k]))
    requires j == |s| || !IsDigit(s[j])
    ensures DigitsEnd(s, i) == j
    decreases j - i
  {
    if i < j { DigitsEndIs(s, i + 1, j); }
  }

  lemma StartDigitsMaximal(s: string, i: nat, x: Cuts)
    requires PatternAt(s, i, x)
    ensures x.startTo < |s| && !IsDigit(s[x.startTo])
  {
    var t := x.startTo;
    if x.startPeriodAt > t {
      assert IsSpace(s[t]);
    } else if x.afterStart == x.startPeriodAt + 2 {
      assert s[t] == 'A' || s[t] == 'P';
    } else if x.dashAt > t {
      assert IsSpace(s[t]);
    } else {
      assert IsDash(s[t]);
    }
  }

  lemma EndDigitsMaximal(s: string, i: nat, x: Cuts)
    requires PatternAt(s, i, x)
    ensures x.endTo < |s| && !IsDigit(s[x.endTo])
  {
    var t := x.endTo;
    if x.endPeriodAt > t {
      assert IsSpace(s[t]);
    } else {
      assert s[t] == 'A' || s[t] == 'P';
    }
  }

  /** The spaces, the optional period and the spaces after the start digits
      end where the scanner says they do. */
  lemma StartPeriodScanned(s: string, i: nat, x: Cuts)
    requires PatternAt(s, i, x)
    ensures var b := SpacesEnd(s, x.startTo);
            var c := if PeriodAt(s, b).Some? then b + 2 else b;
            && c <= x.dashAt && SpacesEnd(s, c) == x.dashAt
            && (if x.afterStart == x.startPeriodAt then None else PeriodAt(s, x.startPeriodAt))
               == (if c == b then None else PeriodAt(s, b))
  {
    var a := x.startTo;
    if x.afterStart == x.startPeriodAt + 2 {
      var p := x.startPeriodAt;
      assert !IsSpace(s[p]);
      SpacesEndIs(s, a, p);
      SpacesEndIs(s, x.afterStart, x.dashAt);
    } else {
      assert SpacesIn(s, a, x.dashAt);
      SpacesEndIs(s, a, x.dashAt);
      var d := x.dashAt;
      assert s[d] != 'A' && s[d] != 'P';
      assert PeriodAt(s, d).None?;
      SpacesEndIs(s, d, d);
    }
  }

  lemma ScanFinds(s: string, i: nat, y: Cuts)
    requires i <= |s|
    requires y.startTo == DigitsEnd(s, i) && y.startTo != i
    requires y.startPeriodAt == SpacesEnd(s, y.startTo)
    requires y.afterStart == if PeriodAt(s, y.startPeriodAt).Some? then y.startPeriodAt + 2 else y.startPeriodAt
    requires y.dashAt == SpacesEnd(s, y.afterStart) && y.dashAt < |s| && IsDash(s[y.dashAt])
    requires y.endFrom == SpacesEnd(s, y.dashAt + 1)
    requires y.endTo == DigitsEnd(s, y.endFrom) && y.endTo != y.endFrom
    requires y.endPeriodAt == SpacesEnd(s, y.endTo) && PeriodAt(s, y.endPeriodAt).Some?
    ensures Scan(s, i) == Some(y)
  {
    ScanEndFinds(s, y);
    ScanRestFinds(s, y);
  }

  lemma ScanRestFinds(s: string, y: Cuts)
    requires y.startTo <= |s|
    requires y.startPeriodAt == SpacesEnd(s, y.startTo)
    requires y.afterStart == if PeriodAt(s, y.startPeriodAt).Some? then y.startPeriodAt + 2 else y.startPeriodAt
    requires y.dashAt == SpacesEnd(s, y.afterStart) && y.dashAt < |s| && IsDash(s[y.dashAt])
    requires ScanEnd(s, y.startTo, y.startPeriodAt, y.afterStart, y.dashAt) == Some(y)
    ensures ScanRest(s, y.startTo) == Some(y)
  {
  }

  lemma ScanEndFinds(s: string, y: Cuts)
    requires y.dashAt < |s|
    requires y.endFrom == SpacesEnd(s, y.dashAt + 1)
    requires y.endTo == DigitsEnd(s, y.endFrom) && y.endTo != y.endFrom
    requires y.endPeriodAt == SpacesEnd(s, y.endTo) && PeriodAt(s, y.endPeriodAt).Some?
    ensures ScanEnd(s, y.startTo, y.startPeriodAt, y.afterStart, y.dashAt) == Some(y)
  {
  }

  /** Wherever the pattern can match, the scanner finds a match, and all the
      ways the pattern can match there give the same groups: the order in which
      a backtracking matcher tries the alternatives does not change the result. */
  lemma ScanComplete(s: string, i: nat, x: Cuts)
    requires i <= |s| && PatternAt(s, i, x)
    ensures Scan(s, i).Some?
    ensures Groups(s, i, Scan(s, i).value) == Groups(s, i, x)
  {
    ScanGreedy(s, i, x);
    ScanSound(s, i);
    StartPeriodScanned(s, i, x);
    GroupsAgree(s, i, x, Greedy(s, x));
  }

  /** The cuts the scanner takes where `x` matches: the same digit runs, dash
      and end period, with the optional start period read greedily. */
  function Greedy(s: string, x: Cuts): Cuts {
    var b := SpacesEnd(s, if x.startTo <= |s| then x.startTo else |s|);
    var c := if PeriodAt(s, b).Some? then b + 2 else b;
    Cuts(x.startTo, b, c, x.dashAt, x.endFrom, x.endTo, x.endPeriodAt)
  }

  lemma ScanGreedy(s: string, i: nat, x: Cuts)
    requires i <= |s| && PatternAt(s, i, x)
    ensures Scan(s, i) == Some(Greedy(s, x))
  {
    StartScanned(s, i, x);
    EndScanned(s, i, x);
    ScanFinds(s, i, Greedy(s, x));
  }

  /** The scanner's greedy reading of the start of a match ends at its dash. */
  lemma StartScanned(s: string, i: nat, x: Cuts)
    requires i <= |s| && PatternAt(s, i, x)
    ensures DigitsEnd(s, i) == x.startTo && x.startTo != i
    ensures var y := Greedy(s, x);
            && y.startPeriodAt == SpacesEnd(s, y.startTo)
            && y.afterStart == (if PeriodAt(s, y.startPeriodAt).Some? then y.startPeriodAt + 2 else y.startPeriodAt)
            && x.dashAt == SpacesEnd(s, y.afterStart)
  {
    StartDigitsMaximal(s, i, x);
    DigitsEndIs(s, i, x.startTo);
    StartPeriodScanned(s, i, x);
  }

  /** After the dash, the scanner reads the same end digits and end period. */
  lemma EndScanned(s: string, i: nat, x: Cuts)
    requires i <= |s| && PatternAt(s, i, x)
    ensures x.endFrom == SpacesEnd(s, x.dashAt + 1)
    ensures x.endTo == DigitsEnd(s, x.endFrom) && x.endTo != x.endFrom
    ensures x.endPeriodAt == SpacesEnd(s, x.endTo)
  {
    SpacesEndIs(s, x.dashAt + 1, x.endFrom);
    EndDigitsMaximal(s, i, x);
    DigitsEndIs(s, x.endFrom, x.endTo);
    SpacesEndIs(s, x.endTo, x.endPeriodAt);
  }

  /** Two matches at the same position with the same digit runs, the same
      start period and the same end period have the same groups. */
  lemma GroupsAgree(s: string, i: nat, x: Cuts, y: Cuts)
    requires PatternAt(s, i, x) && PatternAt(s, i, y)
    requires y.startTo == x.startTo && y.endFrom == x.endFrom && y.endTo == x.endTo
    requires y.endPeriodAt == x.endPeriodAt
    requires (if x.afterStart == x.startPeriodAt then None else PeriodAt(s, x.startPeriodAt))
             == (if y.afterStart == y.startPeriodAt then None else PeriodAt(s, y.startPeriodAt))
    ensures Groups(s, i, y) == Groups(s, i, x)
  {
  }

  /** `re.search`: the leftmost position at or after `from` where the pattern
      matches. */
  function Search(s: string, from: nat): (r: Option<nat>)
    requires from <= |s|
    ensures r.Some? ==> from <= r.value <= |s| && Scan(s, r.value).Some?
    ensures r.Some? ==> forall j :: from <= j < r.value ==> Scan(s, j).None?
    ensures r.None? ==> forall j :: from <= j <= |s| ==> Scan(s, j).None?
    decreases |s| - from
  {
    if Scan(s, from).Some? then Some(from)
    else if from == |s| then None
    else Search(s, from + 1)
  }

  /** The groups of the leftmost match in `s`, if there is one. */
  function Find(s: string): Option<RangeMatch> {
    match Search(s, 0)
    case None => None
    case Some(k) => Some(Groups(s, k, Scan(s, k).value))
  }

  /** The pattern matches somewhere in `t`. */
  ghost predicate Matches(t: string) {
    exists i: nat, x :: i <= |t| && PatternAt(t, i, x)
  }

  /** The pattern matches `t` at `i`, cut as `x` says, and at no earlier
      position. */
  ghost predicate LeftmostAt(t: string, i: nat, x: Cuts) {
    && i <= |t| && PatternAt(t, i, x)
    && forall j: nat, y :: j < i ==> !PatternAt(t, j, y)
  }

  /** `re.search` finds nothing exactly when the pattern matches nowhere, and
      otherwise returns the groups of a leftmost match. */
  lemma FindLeftmost(s: string)
    ensures Find(s).None? <==> !Matches(s)
    ensures Find(s).Some? ==> exists i: nat, x :: LeftmostAt(s, i, x) && Find(s).value == Groups(s, i, x)
  {
    match Search(s, 0)
    case None =>
      forall i: nat, x | i <= |s| && PatternAt(s, i, x) ensures false {
        ScanComplete(s, i, x);
      }
    case Some(k) =>
      var x := Scan(s, k).value;
      ScanSound(s, k);
      forall j: nat, y | j < k && PatternAt(s, j, y) ensures false {
        ScanComplete(s, j, y);
      }
      assert LeftmostAt(s, k, x);
  }

  const AbsenceKeywords: seq<string> := ["NA", "N/A", "ON LEAVE", "LEAVE", "UNAVAILABLE", "OFF"]

  /** The upper-cased cell says its owner is away. */
  predicate HasAbsenceKeyword(s: string) {
    exists k :: k in AbsenceKeywords && Contains(s, k)
  }

  /** The text the parser works on: trimmed, then upper-cased. */
  function Normalize(cell: string): string {
    ToUpper(Strip(cell))
  }

  /** What one `,`/`;` piece contributes: the interval of its leftmost match,
      or nothing. */
  function PartSlots(part: string): (r: seq<Slot>)
    ensures |r| <= 1
    ensures Strip(part) == [] ==> r == []
  {
    var t := Strip(part);
    if t == [] then []
    else match Find(t)
      case None => []
      case Some(m) => [ConvertRange(m.startNum, m.startPeriod, m.endNum, m.endPeriod)]
  }

  /** A piece gives an interval exactly when its trimmed text has a match,
      and then the interval is the conversion of the leftmost match's
      groups. */
  lemma PartSlotsMatch(part: string)
    ensures PartSlots(part) != [] <==> Strip(part) != [] && Matches(Strip(part))
    ensures PartSlots(part) != [] ==>
              exists i: nat, x :: LeftmostAt(Strip(part), i, x) &&
                var m := Groups(Strip(part), i, x);
                PartSlots(part) == [ConvertRange(m.startNum, m.startPeriod, m.endNum, m.endPeriod)]
  {
    var t := Strip(part);
    if t != [] {
      FindLeftmost(t);
      if Find(t).Some? {
        var i: nat, x :| LeftmostAt(t, i, x) && Find(t).value == Groups(t, i, x);
      }
    }
  }

  /** `f` applied to each element, the results concatenated in order. */
  function ConcatMap<T, U>(f: T -> seq<U>, xs: seq<T>): seq<U> {
    if xs == [] then []
    else ConcatMap(f, xs[..|xs| - 1]) + f(xs[|xs| - 1])
  }

  /** The intervals of a list of pieces, piece after piece. */
  function ParseParts(parts: seq<string>): seq<Slot> {
    ConcatMap(PartSlots, parts)
  }

  /** `parse_time_slot` as a function of the cell. */
  function ParseCell(cell: string): seq<Slot> {
    var u := Normalize(cell);
    if HasAbsenceKeyword(u) then [] else ParseParts(Split(u))
  }

  /** One more piece appends its intervals. */
  lemma ParsePartsStep(parts: seq<string>, i: nat)
    requires i < |parts|
    ensures ParseParts(parts[..i + 1]) == ParseParts(parts[..i]) + PartSlots(parts[i])
  {
    assert parts[..i + 1][..i] == parts[..i];
  }

  /** The body of the loop over pieces: strip, skip a blank piece, search
      for a range and convert it. */
  method ParsePart(piece: string) returns (found: seq<Slot>)
    ensures found == PartSlots(piece)
  {
    found := [];
    var part := Strip(piece);
    if part != [] {
      var m := Find(part);
      if m.Some? {
        found := [ConvertRange(m.value.startNum, m.value.startPeriod, m.value.endNum, m.value.endPeriod)];
      }
    }
  }

  /** `parse_time_slot`: appends the interval of each piece in turn. */
  method ParseTimeSlot(timeStr: string) returns (slots: seq<Slot>)
    ensures slots == ParseCell(timeStr)
  {
    var text := ToUpper(Strip(timeStr));
    assert text == Normalize(timeStr);
    if HasAbsenceKeyword(text) {
      return [];
    }
    assert ParseCell(timeStr) == ParseParts(Split(text));
    slots := [];
    var parts := Split(text);
    var i := 0;
    assert parts[..0] == [];
    while i < |parts|
      invariant 0 <= i <= |parts|
      invariant slots == ParseParts(parts[..i])
    {
      var found := ParsePart(parts[i]);
      ParsePartsStep(parts, i);
      slots := slots + found;
      i := i + 1;
    }
    assert parts[..|parts|] == parts;
  }
}

/** What `parse_time_slot` promises about whole cells. */
module ParserFacts {
  import opened Optional
  import opened Text
  import opened Hours
  import opened Parser

  lemma {:induction false} ConcatMapAppend<T, U>(f: T -> seq<U>, xs: seq<T>, ys: seq<T>)
    ensures ConcatMap(f, xs + ys) == ConcatMap(f, xs) + ConcatMap(f, ys)
    decreases |ys|
  {
    if ys == [] {
      assert xs + ys == xs;
    } else {
      var init := ys[..|ys| - 1];
      assert (xs + ys)[..|xs + ys| - 1] == xs + init;
      ConcatMapAppend(f, xs, init);
    }
  }

  /** Parsing a list of pieces is parsing each piece, in order. */
  lemma ParsePartsAppend(ps: seq<string>, qs: seq<string>)
    ensures ParseParts(ps + qs) == ParseParts(ps) + ParseParts(qs)
  {
    ConcatMapAppend(PartSlots, ps, qs);
  }

  /** The pieces that are not blank once trimmed. */
  function NonBlank(ps: seq<string>): nat {
    if ps == [] then 0
    else NonBlank(ps[..|ps| - 1]) + if Strip(ps[|ps| - 1]) == [] then 0 else 1
  }

  /** At most one interval comes from each non-blank piece. */
  lemma {:induction false} ParsePartsAtMostOnePerPart(ps: seq<string>)
    ensures |ParseParts(ps)| <= NonBlank(ps) <= |ps|
  {
    if ps != [] {
      ParsePartsAtMostOnePerPart(ps[..|ps| - 1]);
    }
  }

  /** The pieces give no interval exactly when none of them matches. */
  lemma {:induction false} ParsePartsEmpty(ps: seq<string>)
    ensures ParseParts(ps) == [] <==> forall p :: p in ps ==> PartSlots(p) == []
  {
    if ps != [] {
      var init := ps[..|ps| - 1];
      ParsePartsEmpty(init);
      assert ps == init + [ps[|ps| - 1]];
    }
  }

  /** Absence keywords win over any time range in the same cell; without one,
      the cell gives an interval exactly when one of its pieces matches. */
  lemma ParseCellEmpty(cell: string)
    ensures HasAbsenceKeyword(Normalize(cell)) ==> ParseCell(cell) == []
    ensures !HasAbsenceKeyword(Normalize(cell)) ==>
              (ParseCell(cell) != [] <==> exists p :: p in Split(Normalize(cell)) && PartSlots(p) != [])
  {
    ParsePartsEmpty(Split(Normalize(cell)));
  }

  /** The text `<n1>[period]-<n2><period>`. */
  function Render(n1: nat, p1: Option<Period>, n2: nat, p2: Period): string {
    NatToString(n1) + (if p1.Some? then PeriodText(p1.value) else "") + "-" + NatToString(n2) + PeriodText(p2)
  }

  predicate RangeChar(c: char) {
    IsDigit(c) || c == 'A' || c == 'M' || c == 'P' || c == '-'
  }

  lemma RenderChars(n1: nat, p1: Option<Period>, n2: nat, p2: Period)
    ensures var r := Render(n1, p1, n2, p2);
            && |r| >= 4 && IsDigit(r[0]) && r[|r| - 1] == 'M'
            && forall i :: 0 <= i < |r| ==> RangeChar(r[i])
  {
    var a := NatToString(n1);
    var pt := if p1.Some? then PeriodText(p1.value) else "";
    var b := NatToString(n2);
    var r := Render(n1, p1, n2, p2);
    assert r == a + pt + "-" + b + PeriodText(p2);
    forall i | 0 <= i < |r| ensures RangeChar(r[i]) {
      if i < |a| {
        assert r[i] == a[i];
      } else if i < |a| + |pt| {
        assert r[i] == pt[i - |a|];
      } else if i == |a| + |pt| {
      } else if i < |a| + |pt| + 1 + |b| {
        assert r[i] == b[i - |a| - |pt| - 1];
      } else {
        assert r[i] == PeriodText(p2)[i - |a| - |pt| - 1 - |b|];
      }
    }
  }

  /** A text made of digits, `A`, `M`, `P` and dashes holds no absence keyword. */
  lemma NoKeywordIn(r: string)
    requires forall i :: 0 <= i < |r| ==> RangeChar(r[i])
    ensures !HasAbsenceKeyword(r)
  {
    forall k | k in AbsenceKeywords ensures !Contains(r, k) {
      assert !RangeChar(k[0]);
      NotContains(r, k);
    }
  }

  function RenderCuts(n1: nat, p1: Option<Period>, n2: nat): Cuts {
    var a := |NatToString(n1)|;
    var dash := a + if p1.Some? then 2 else 0;
    var f := dash + 1 + |NatToString(n2)|;
    Cuts(a, a, dash, dash, dash + 1, f, f)
  }

  /** A rendered range matches the pattern from its first character. */
  lemma RenderedPattern(n1: nat, p1: Option<Period>, n2: nat, p2: Period)
    ensures PatternAt(Render(n1, p1, n2, p2), 0, RenderCuts(n1, p1, n2))
  {
    var a := NatToString(n1);
    var pt := if p1.Some? then PeriodText(p1.value) else "";
    var b := NatToString(n2);
    var r := Render(n1, p1, n2, p2);
    assert r == a + pt + "-" + b + PeriodText(p2);
    var x := RenderCuts(n1, p1, n2);
    assert forall k :: 0 <= k < |a| ==> r[k] == a[k];
    assert forall k :: x.endFrom <= k < x.endTo ==> r[k] == b[k - x.endFrom];
    assert r[x.dashAt] == '-';
    assert p1.Some? ==> r[|a|] == pt[0] && r[|a| + 1] == pt[1];
    assert r[x.endPeriodAt] == PeriodText(p2)[0] && r[x.endPeriodAt + 1] == PeriodText(p2)[1];
  }

  /** Its groups are the numbers and periods it was written with. */
  lemma RenderedGroups(n1: nat, p1: Option<Period>, n2: nat, p2: Period)
    requires PatternAt(Render(n1, p1, n2, p2), 0, RenderCuts(n1, p1, n2))
    ensures Groups(Render(n1, p1, n2, p2), 0, RenderCuts(n1, p1, n2)) == RangeMatch(n1, p1, n2, p2)
  {
    var r := Render(n1, p1, n2, p2);
    var x := RenderCuts(n1, p1, n2);
    RenderedDigits(n1, p1, n2, p2);
    DigitsRoundTrip(n1);
    DigitsRoundTrip(n2);
    RenderedPeriods(n1, p1, n2, p2);
  }

  /** The two digit groups of the rendered text are the two numbers' digits. */
  lemma RenderedDigits(n1: nat, p1: Option<Period>, n2: nat, p2: Period)
    requires PatternAt(Render(n1, p1, n2, p2), 0, RenderCuts(n1, p1, n2))
    ensures Render(n1, p1, n2, p2)[0..RenderCuts(n1, p1, n2).startTo] == NatToString(n1)
    ensures Render(n1, p1, n2, p2)[RenderCuts(n1, p1, n2).endFrom..RenderCuts(n1, p1, n2).endTo]
            == NatToString(n2)
  {
    var a := NatToString(n1);
    var pt := if p1.Some? then PeriodText(p1.value) else "";
    var b := NatToString(n2);
    var r := Render(n1, p1, n2, p2);
    assert r == a + pt + "-" + b + PeriodText(p2);
    var x := RenderCuts(n1, p1, n2);
    assert r[0..x.startTo] == a;
    assert r[x.endFrom..x.endTo] == b;
  }

  /** The period groups of the rendered text are the periods written. */
  lemma RenderedPeriods(n1: nat, p1: Option<Period>, n2: nat, p2: Period)
    requires PatternAt(Render(n1, p1, n2, p2), 0, RenderCuts(n1, p1, n2))
    ensures var r := Render(n1, p1, n2, p2);
            var x := RenderCuts(n1, p1, n2);
            && (if x.afterStart == x.startPeriodAt then None else PeriodAt(r, x.startPeriodAt)) == p1
            && PeriodAt(r, x.endPeriodAt) == Some(p2)
  {
    var a := NatToString(n1);
    var pt := if p1.Some? then PeriodText(p1.value) else "";
    var b := NatToString(n2);
    var r := Render(n1, p1, n2, p2);
    assert r == a + pt + "-" + b + PeriodText(p2);
    var x := RenderCuts(n1, p1, n2);
    assert p1.Some? ==> r[|a|] == pt[0] && r[|a| + 1] == pt[1];
    assert r[x.endPeriodAt] == PeriodText(p2)[0] && r[x.endPeriodAt + 1] == PeriodText(p2)[1];
  }

  /** The scanner reads a rendered range back as the numbers and periods it
      was written with. */
  lemma FindRendered(n1: nat, p1: Option<Period>, n2: nat, p2: Period)
    ensures Find(Render(n1, p1, n2, p2)) == Some(RangeMatch(n1, p1, n2, p2))
  {
    var r := Render(n1, p1, n2, p2);
    RenderedPattern(n1, p1, n2, p2);
    RenderedGroups(n1, p1, n2, p2);
    ScanComplete(r, 0, RenderCuts(n1, p1, n2));
    assert Search(r, 0) == Some(0);
  }

  /** A cell holding one range written as `<n1>[period]-<n2><period>` parses
      to the single interval those numbers and periods denote. */
  lemma ParseRendered(n1: nat, p1: Option<Period>, n2: nat, p2: Period)
    ensures ParseCell(Render(n1, p1, n2, p2)) == [ConvertRange(n1, p1, n2, p2)]
  {
    var r := Render(n1, p1, n2, p2);
    RenderChars(n1, p1, n2, p2);
    RangeTextClean(r);
    assert ParseParts([r]) == ParseParts([]) + PartSlots(r);
    FindRendered(n1, p1, n2, p2);
  }

  /** Text made only of range characters, starting with a digit and ending
      with `M`, is left as it is by normalisation and is a single piece. */
  lemma RangeTextClean(r: string)
    requires |r| >= 1 && IsDigit(r[0]) && r[|r| - 1] == 'M'
    requires forall i :: 0 <= i < |r| ==> RangeChar(r[i])
    ensures Strip(r) == r && Normalize(r) == r
    ensures !HasAbsenceKeyword(r) && Split(r) == [r]
  {
    StripUnpadded(r);
    UpperRangeText(r);
    NoKeywordIn(r);
    SinglePiece(r);
  }

  lemma StripUnpadded(r: string)
    requires |r| >= 1 && IsDigit(r[0]) && r[|r| - 1] == 'M'
    ensures Strip(r) == r
  {
    assert SpacesEnd(r, 0) == 0;
    assert TrailingSpacesStart(r, 0) == |r|;
  }

  lemma UpperRangeText(r: string)
    requires forall i :: 0 <= i < |r| ==> RangeChar(r[i])
    ensures ToUpper(r) == r
  {
  }

  lemma SinglePiece(r: string)
    requires forall i :: 0 <= i < |r| ==> RangeChar(r[i])
    ensures Split(r) == [r]
  {
    assert SeparatorAt(r, 0) == |r|;
  }

  /** `format_time` and the parser are inverse: a range written with the
      labels `format_time` gives for two hours of the day parses back to
      those two hours. */
  lemma FormatParseRoundTrip(start: nat, end: nat)
    requires start < 24 && end < 24
    ensures ParseCell(FormatTime(start) + "-" + FormatTime(end)) == [Slot(start, end)]
  {
    FormatThenConvert(start);
    FormatThenConvert(end);
    var (n1, p1) := Label(start);
    var (n2, p2) := Label(end);
    assert FormatTime(start) + "-" + FormatTime(end) == Render(n1, Some(p1), n2, p2);
    ParseRendered(n1, Some(p1), n2, p2);
  }

  /** A start without a period takes PM from the end even past the end:
      "9-12PM" is (21, 12). */
  lemma NineToTwelvePM()
    ensures ParseCell("9-12PM") == [Slot(21, 12)]
  {
    assert NatToString(9) == "9" && NatToString(12) == "12";
    assert Render(9, None, 12, PM) == "9-12PM";
    ParseRendered(9, None, 12, PM);
  }

  /** A start of 12 without a period stays 12: "12-1PM" is (12, 13). */
  lemma TwelveToOnePM()
    ensures ParseCell("12-1PM") == [Slot(12, 13)]
  {
    assert NatToString(12) == "12" && NatToString(1) == "1";
    assert Render(12, None, 1, PM) == "12-1PM";
    ParseRendered(12, None, 1, PM);
  }

  /** Hours are not range-checked: "11AM-13PM" is (11, 25). */
  lemma ThirteenPM()
    ensures ParseCell("11AM-13PM") == [Slot(11, 25)]
  {
    assert NatToString(11) == "11" && NatToString(13) == "13";
    assert Render(11, Some(AM), 13, PM) == "11AM-13PM";
    ParseRendered(11, Some(AM), 13, PM);
  }

  /** An absence keyword anywhere in the cell wins over a valid range in
      another piece, whatever the case of the letters. */
  lemma OnLeaveWins()
    ensures ParseCell("On Leave, 9AM-12PM") == []
  {
    var s := "On Leave, 9AM-12PM";
    assert !IsSpace(s[0]) && !IsSpace(s[|s| - 1]);
    assert Strip(s) == s;
    var u := ToUpper(s);
    assert u[3..8] == "LEAVE";
    assert "LEAVE" <= u[3..];
    assert "LEAVE" in AbsenceKeywords;
  }
}
