/** `_intersect_all_slots` (main.py:208-243) and `_find_common_slots`
    (main.py:192-206): the intervals common to every member's list for one
    date, then only those at least `duration` hours long. */
module Intersect {
  import opened Hours
  import opened Assoc

  function Max(a: int, b: int): int { if a < b then b else a }
  function Min(a: int, b: int): int { if a < b then a else b }

  /** `x` lies within `y`. */
  predicate Within(x: Slot, y: Slot) {
    y.start <= x.start && x.end <= y.end
  }

  /** `x` is at least `duration` hours long (the int/float comparison of
      main.py:239-240, exact on reals). */
  predicate LongEnough(x: Slot, duration: real) {
    (x.end - x.start) as real >= duration
  }

  /** The overlaps of `x` with each interval of `ys` that share some time, in
      the order of `ys` (the inner loop, main.py:222-229). */
  function OverlapsWith(x: Slot, ys: seq<Slot>): seq<Slot> {
    if ys == [] then []
    else
      var y := ys[|ys| - 1];
      var lo, hi := Max(x.start, y.start), Min(x.end, y.end);
      OverlapsWith(x, ys[..|ys| - 1]) + if hi > lo then [Slot(lo, hi)] else []
  }

  /** The overlaps of every interval of `xs` with every interval of `ys`
      (both loops, main.py:221-229). */
  function Overlaps(xs: seq<Slot>, ys: seq<Slot>): seq<Slot> {
    if xs == [] then []
    else Overlaps(xs[..|xs| - 1], ys) + OverlapsWith(xs[|xs| - 1], ys)
  }

  /** The running intersection after folding in each later list in turn. */
  function Fold(acc: seq<Slot>, rest: seq<seq<Slot>>): seq<Slot>
    decreases |rest|
  {
    if rest == [] then acc else Fold(Overlaps(acc, rest[0]), rest[1..])
  }

  /** The intervals of `xs` at least `duration` long, in order
      (main.py:237-241). */
  function KeepLongEnough(xs: seq<Slot>, duration: real): (r: seq<Slot>)
    ensures forall x :: x in r <==> x in xs && LongEnough(x, duration)
    ensures |r| <= |xs|
  {
    if xs == [] then []
    else
      KeepLongEnough(xs[..|xs| - 1], duration)
        + if LongEnough(xs[|xs| - 1], duration) then [xs[|xs| - 1]] else []
  }

  /** The filter keeps order: on a concatenation it is the concatenation
      of the filtered parts. */
  lemma KeepLongEnoughAppend(a: seq<Slot>, b: seq<Slot>, duration: real)
    ensures KeepLongEnough(a + b, duration) == KeepLongEnough(a, duration) + KeepLongEnough(b, duration)
  {
    var p := x => LongEnough(x, duration);
    KeepLongEnoughIsFilter(a + b, duration);
    KeepLongEnoughIsFilter(a, duration);
    KeepLongEnoughIsFilter(b, duration);
    FilterAppend(a, b, p);
  }

  /** The elements of `s` that pass `p`, in order. */
  function Filter<T>(s: seq<T>, p: T -> bool): seq<T> {
    if s == [] then [] else Filter(s[..|s| - 1], p) + if p(s[|s| - 1]) then [s[|s| - 1]] else []
  }

  lemma {:induction false} FilterAppend<T>(a: seq<T>, b: seq<T>, p: T -> bool)
    ensures Filter(a + b, p) == Filter(a, p) + Filter(b, p)
    decreases |b|
  {
    if b == [] {
      assert a + b == a;
    } else {
      var n := |b| - 1;
      FilterAppend(a, b[..n], p);
      assert (a + b)[..|a + b| - 1] == a + b[..n];
      assert (a + b)[|a + b| - 1] == b[n];
    }
  }

  lemma {:induction false} KeepLongEnoughIsFilter(xs: seq<Slot>, duration: real)
    ensures KeepLongEnough(xs, duration) == Filter(xs, x => LongEnough(x, duration))
  {
    if xs != [] {
      KeepLongEnoughIsFilter(xs[..|xs| - 1], duration);
    }
  }

  /** The filter acts on each interval alone. */
  lemma KeepLongEnoughOne(x: Slot, duration: real)
    ensures KeepLongEnough([x], duration) == if LongEnough(x, duration) then [x] else []
  {
    assert [x][..0] == [];
  }

  /** `_intersect_all_slots` as a function of its arguments. */
  function IntersectAll(lists: seq<seq<Slot>>, duration: real): (r: seq<Slot>)
    ensures lists == [] ==> r == []
    ensures forall z :: z in r ==> LongEnough(z, duration)
  {
    if lists == [] then [] else KeepLongEnough(Fold(lists[0], lists[1..]), duration)
  }

  lemma {:induction false} FoldEmpty(rest: seq<seq<Slot>>)
    ensures Fold([], rest) == []
    decreases |rest|
  {
    if rest != [] {
      assert Overlaps([], rest[0]) == [];
      FoldEmpty(rest[1..]);
    }
  }

  /** One step of the fold (main.py:219-229): the overlap of every interval of
      the running intersection with every interval of the next member. */
  method OverlapStep(current: seq<Slot>, memberSlots: seq<Slot>) returns (next: seq<Slot>)
    ensures next == Overlaps(current, memberSlots)
  {
    next := [];
    var i := 0;
    while i < |current|
      invariant 0 <= i <= |current|
      invariant next == Overlaps(current[..i], memberSlots)
    {
      var slot1 := current[i];
      var j := 0;
      while j < |memberSlots|
        invariant 0 <= j <= |memberSlots|
        invariant next == Overlaps(current[..i], memberSlots) + OverlapsWith(slot1, memberSlots[..j])
      {
        var slot2 := memberSlots[j];
        var overlapStart := Max(slot1.start, slot2.start);
        var overlapEnd := Min(slot1.end, slot2.end);
        if overlapEnd > overlapStart {
          next := next + [Slot(overlapStart, overlapEnd)];
        }
        assert memberSlots[..j + 1][..j] == memberSlots[..j];
        j := j + 1;
      }
      assert memberSlots[..j] == memberSlots;
      assert current[..i + 1][..i] == current[..i];
      i := i + 1;
    }
    assert current[..i] == current;
  }

  /** `_intersect_all_slots`: folds each later member's list into the running
      intersection, stopping early once it is empty, then filters by length. */
  method IntersectAllSlots(allMemberSlots: seq<seq<Slot>>, duration: real) returns (validSlots: seq<Slot>)
    ensures validSlots == IntersectAll(allMemberSlots, duration)
  {
    if |allMemberSlots| == 0 {
      return [];
    }
    var current := allMemberSlots[0];
    var k := 1;
    while k < |allMemberSlots|
      invariant 1 <= k <= |allMemberSlots|
      invariant Fold(current, allMemberSlots[k..]) == Fold(allMemberSlots[0], allMemberSlots[1..])
    {
      var next := OverlapStep(current, allMemberSlots[k]);
      assert allMemberSlots[k..][1..] == allMemberSlots[k + 1..];
      current := next;
      k := k + 1;
      if current == [] {
        FoldEmpty(allMemberSlots[k..]);
        break;
      }
    }
    assert Fold(current, allMemberSlots[k..]) == current;
    validSlots := [];
    var i := 0;
    while i < |current|
      invariant 0 <= i <= |current|
      invariant validSlots == KeepLongEnough(current[..i], duration)
    {
      var slot := current[i];
      var slotDuration := slot.end - slot.start;
      if slotDuration as real >= duration {
        validSlots := validSlots + [slot];
      }
      assert current[..i + 1][..i] == current[..i];
      i := i + 1;
    }
    assert current[..i] == current;
  }

  /** `_find_common_slots`: the common intervals of the given members' lists,
      in the members' order. */
  method FindCommonSlots(membersAvailable: Dict<string, seq<Slot>>, duration: real) returns (r: seq<Slot>)
    ensures r == IntersectAll(Values(membersAvailable), duration)
  {
    if |membersAvailable| == 0 {
      return [];
    }
    var memberSlots := Values(membersAvailable);
    r := IntersectAllSlots(memberSlots, duration);
  }

  /** Some interval of `ys` holds `x`. */
  predicate Covered(x: Slot, ys: seq<Slot>) {
    exists y :: y in ys && Within(x, y)
  }

  lemma CoveredTrans(x: Slot, w: Slot, ys: seq<Slot>)
    requires Within(x, w) && Covered(w, ys)
    ensures Covered(x, ys)
  {
    var y :| y in ys && Within(w, y);
    assert Within(x, y);
  }

  lemma {:induction false} OverlapsWithSound(x: Slot, ys: seq<Slot>)
    ensures forall z :: z in OverlapsWith(x, ys) ==> z.start < z.end && Within(z, x) && Covered(z, ys)
  {
    if ys != [] {
      var init, y := ys[..|ys| - 1], ys[|ys| - 1];
      OverlapsWithSound(x, init);
      forall z | z in OverlapsWith(x, ys)
        ensures z.start < z.end && Within(z, x) && Covered(z, ys)
      {
        if z in OverlapsWith(x, init) {
          var w :| w in init && Within(z, w);
          assert w in ys;
        } else {
          assert Within(z, y) && y in ys;
        }
      }
    }
  }

  /** Every overlap has positive length and lies within an interval of each
      of the two lists. */
  lemma {:induction false} OverlapsSound(xs: seq<Slot>, ys: seq<Slot>)
    ensures forall z :: z in Overlaps(xs, ys) ==> z.start < z.end && Covered(z, xs) && Covered(z, ys)
  {
    if xs != [] {
      var init, x := xs[..|xs| - 1], xs[|xs| - 1];
      OverlapsSound(init, ys);
      OverlapsWithSound(x, ys);
      forall z | z in Overlaps(xs, ys)
        ensures z.start < z.end && Covered(z, xs) && Covered(z, ys)
      {
        if z in Overlaps(init, ys) {
          var w :| w in init && Within(z, w);
          assert w in xs;
        } else {
          assert Within(z, x) && x in xs;
        }
      }
    }
  }

  lemma {:induction false} OverlapsWithComplete(x: Slot, ys: seq<Slot>, z: Slot, y: Slot)
    requires z.start < z.end && Within(z, x) && y in ys && Within(z, y)
    ensures Covered(z, OverlapsWith(x, ys))
  {
    var init, last := ys[..|ys| - 1], ys[|ys| - 1];
    if y == last {
      var w := Slot(Max(x.start, last.start), Min(x.end, last.end));
      assert Within(z, w) && w in OverlapsWith(x, ys);
    } else {
      assert y in init;
      OverlapsWithComplete(x, init, z, y);
      var w :| w in OverlapsWith(x, init) && Within(z, w);
      assert w in OverlapsWith(x, ys);
    }
  }

  /** Any stretch of positive length lying within an interval of each list lies
      within one of their overlaps. */
  lemma {:induction false} OverlapsComplete(xs: seq<Slot>, ys: seq<Slot>, z: Slot)
    requires z.start < z.end && Covered(z, xs) && Covered(z, ys)
    ensures Covered(z, Overlaps(xs, ys))
  {
    var x :| x in xs && Within(z, x);
    var y :| y in ys && Within(z, y);
    var init, last := xs[..|xs| - 1], xs[|xs| - 1];
    if x == last {
      OverlapsWithComplete(x, ys, z, y);
      var w :| w in OverlapsWith(x, ys) && Within(z, w);
      assert w in Overlaps(xs, ys);
    } else {
      assert x in init;
      OverlapsComplete(init, ys, z);
      var w :| w in Overlaps(init, ys) && Within(z, w);
      assert w in Overlaps(xs, ys);
    }
  }

  /** Everything the fold keeps lies within an interval of the starting list
      and of every later list, and has positive length once a list has been
      folded in. */
  lemma {:induction false} FoldSound(acc: seq<Slot>, rest: seq<seq<Slot>>)
    ensures forall z :: z in Fold(acc, rest) ==>
              && Covered(z, acc)
              && (forall j :: 0 <= j < |rest| ==> Covered(z, rest[j]))
              && (rest != [] ==> z.start < z.end)
    decreases |rest|
  {
    if rest == [] {
      forall z | z in acc ensures Covered(z, acc) {
        assert Within(z, z);
      }
    } else {
      var next := Overlaps(acc, rest[0]);
      FoldSound(next, rest[1..]);
      OverlapsSound(acc, rest[0]);
      forall z | z in Fold(acc, rest)
        ensures Covered(z, acc)
        ensures forall j :: 0 <= j < |rest| ==> Covered(z, rest[j])
        ensures z.start < z.end
      {
        var w :| w in next && Within(z, w);
        CoveredTrans(z, w, acc);
        CoveredTrans(z, w, rest[0]);
        forall j | 1 <= j < |rest| ensures Covered(z, rest[j]) {
          assert rest[j] == rest[1..][j - 1];
        }
        if rest[1..] == [] {
          assert z in next;
        }
      }
    }
  }

  /** Whatever stretch of positive length lies within an interval of every
      list survives the fold, inside one of its intervals. */
  lemma {:induction false} FoldComplete(acc: seq<Slot>, rest: seq<seq<Slot>>, z: Slot)
    requires z.start < z.end && Covered(z, acc)
    requires forall j :: 0 <= j < |rest| ==> Covered(z, rest[j])
    ensures Covered(z, Fold(acc, rest))
    decreases |rest|
  {
    if rest != [] {
      assert Covered(z, rest[0]);
      OverlapsComplete(acc, rest[0], z);
      forall j | 0 <= j < |rest| - 1 ensures Covered(z, rest[1..][j]) {
        assert rest[1..][j] == rest[j + 1];
      }
      FoldComplete(Overlaps(acc, rest[0]), rest[1..], z);
    }
  }

  /** What `_intersect_all_slots` returns lies within an interval of every
      member's list and is at least `duration` long; with two or more members
      it also has positive length. */
  lemma IntersectSound(lists: seq<seq<Slot>>, duration: real)
    ensures forall z :: z in IntersectAll(lists, duration) ==>
              && LongEnough(z, duration)
              && (forall j :: 0 <= j < |lists| ==> Covered(z, lists[j]))
              && (|lists| >= 2 ==> z.start < z.end)
  {
    if lists != [] {
      FoldSound(lists[0], lists[1..]);
      forall z | z in IntersectAll(lists, duration)
        ensures forall j :: 0 <= j < |lists| ==> Covered(z, lists[j])
      {
        forall j | 1 <= j < |lists| ensures Covered(z, lists[j]) {
          assert lists[j] == lists[1..][j - 1];
        }
      }
    }
  }

  /** And it misses nothing: every stretch of positive length and at least
      `duration` long that lies within an interval of every member's list lies
      within one of the returned intervals. */
  lemma IntersectComplete(lists: seq<seq<Slot>>, duration: real, z: Slot)
    requires lists != [] && z.start < z.end && LongEnough(z, duration)
    requires forall j :: 0 <= j < |lists| ==> Covered(z, lists[j])
    ensures Covered(z, IntersectAll(lists, duration))
  {
    assert Covered(z, lists[0]);
    forall j | 0 <= j < |lists| - 1 ensures Covered(z, lists[1..][j]) {
      assert lists[1..][j] == lists[j + 1];
    }
    FoldComplete(lists[0], lists[1..], z);
    var w :| w in Fold(lists[0], lists[1..]) && Within(z, w);
    assert LongEnough(w, duration);
  }

  lemma {:induction false} OverlapsWithNothing(xs: seq<Slot>)
    ensures Overlaps(xs, []) == []
  {
    if xs != [] { OverlapsWithNothing(xs[..|xs| - 1]); }
  }

  lemma {:induction false} FoldWithEmptyList(acc: seq<Slot>, rest: seq<seq<Slot>>, j: nat)
    requires j < |rest| && rest[j] == []
    ensures Fold(acc, rest) == []
    decreases j
  {
    if j == 0 {
      OverlapsWithNothing(acc);
      FoldEmpty(rest[1..]);
    } else {
      assert rest[1..][j - 1] == [];
      FoldWithEmptyList(Overlaps(acc, rest[0]), rest[1..], j - 1);
    }
  }

  /** A member with no interval that date leaves nothing in common. */
  lemma IntersectWithEmptyList(lists: seq<seq<Slot>>, duration: real, j: nat)
    requires j < |lists| && lists[j] == []
    ensures IntersectAll(lists, duration) == []
  {
    if j == 0 {
      FoldEmpty(lists[1..]);
    } else {
      assert lists[1..][j - 1] == [];
      FoldWithEmptyList(lists[0], lists[1..], j - 1);
    }
  }

  /** The number of ways to pick one interval from each list. */
  function Product(lists: seq<seq<Slot>>): nat {
    if lists == [] then 1 else |lists[0]| * Product(lists[1..])
  }

  lemma {:induction false} OverlapsWithSize(x: Slot, ys: seq<Slot>)
    ensures |OverlapsWith(x, ys)| <= |ys|
  {
    if ys != [] { OverlapsWithSize(x, ys[..|ys| - 1]); }
  }

  lemma {:induction false} OverlapsSize(xs: seq<Slot>, ys: seq<Slot>)
    ensures |Overlaps(xs, ys)| <= |xs| * |ys|
  {
    if xs != [] {
      OverlapsSize(xs[..|xs| - 1], ys);
      OverlapsWithSize(xs[|xs| - 1], ys);
      assert (|xs| - 1) * |ys| + |ys| == |xs| * |ys|;
    }
  }

  lemma SizeStep(f: nat, n: nat, a: nat, b: nat, p: nat)
    requires f <= n * p && n <= a * b
    ensures f <= a * (b * p)
  {
    assert n * p <= (a * b) * p;
    assert (a * b) * p == a * (b * p);
  }

  lemma {:induction false} FoldSize(acc: seq<Slot>, rest: seq<seq<Slot>>)
    ensures |Fold(acc, rest)| <= |acc| * Product(rest)
    decreases |rest|
  {
    if rest != [] {
      var next := Overlaps(acc, rest[0]);
      FoldSize(next, rest[1..]);
      OverlapsSize(acc, rest[0]);
      SizeStep(|Fold(next, rest[1..])|, |next|, |acc|, |rest[0]|, Product(rest[1..]));
    }
  }

  /** The result is no longer than the number of ways to pick one interval
      per member. */
  lemma IntersectSize(lists: seq<seq<Slot>>, duration: real)
    ensures |IntersectAll(lists, duration)| <= Product(lists)
  {
    if lists != [] {
      FoldSize(lists[0], lists[1..]);
    }
  }
}
