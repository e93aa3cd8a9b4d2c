/** The admin dashboard's reporting projections over the bookings it loaded. */
module AdminReports {
  import opened Seqs
  import opened Text
  import opened Records

  function OnDate(today: string): Booking -> bool { (b: Booking) => b.date == today }
  function AfterDate(today: string): Booking -> bool { (b: Booking) => LexLess(today, b.date) }

  /** `getTodayBookings`: the bookings dated `today`, in input order. */
  function TodayBookings(bookings: seq<Booking>, today: string): (r: seq<Booking>)
    ensures forall b :: b in r <==> b in bookings && b.date == today
    ensures |r| <= |bookings|
  {
    Filter(bookings, OnDate(today))
  }

  /** `getUpcomingBookings`: the bookings whose date string is above `today`'s, in input order. */
  function UpcomingBookings(bookings: seq<Booking>, today: string): (r: seq<Booking>)
    ensures forall b :: b in r <==> b in bookings && LexLess(today, b.date)
    ensures |r| <= |bookings|
  {
    Filter(bookings, AfterDate(today))
  }

  /** Both views keep input order: extending the input extends each view by the filtered
      extension. */
  lemma ViewsSelect(bookings: seq<Booking>, more: seq<Booking>, today: string)
    ensures TodayBookings(bookings + more, today) == TodayBookings(bookings, today) + TodayBookings(more, today)
    ensures UpcomingBookings(bookings + more, today) == UpcomingBookings(bookings, today) + UpcomingBookings(more, today)
  {
    FilterConcat(bookings, more, OnDate(today));
    FilterConcat(bookings, more, AfterDate(today));
  }

  /** No booking is both today's and upcoming, so the two counts together never exceed the total. */
  lemma TodayAndUpcomingDisjoint(bookings: seq<Booking>, today: string)
    ensures forall b :: b in TodayBookings(bookings, today) ==> b !in UpcomingBookings(bookings, today)
    ensures |TodayBookings(bookings, today)| + |UpcomingBookings(bookings, today)| <= |bookings|
  {
    LexLessIrreflexive(today);
    FilterExclusiveLengths(bookings, OnDate(today), AfterDate(today));
  }

  /** `new Set(bookings.map(b => b.patientId))`. */
  function PatientIds(bookings: seq<Booking>): (ids: set<string>)
    ensures forall id :: id in ids <==> exists b :: b in bookings && b.patientId == id
  {
    if bookings == [] then {} else {bookings[0].patientId} + PatientIds(bookings[1..])
  }

  /** There are never more distinct patient ids than bookings, and none exactly when there
      are no bookings. */
  lemma {:induction false} PatientIdsBounds(bookings: seq<Booking>)
    ensures |PatientIds(bookings)| <= |bookings|
    ensures |PatientIds(bookings)| == 0 <==> bookings == []
  {
    if bookings != [] {
      PatientIdsBounds(bookings[1..]);
      assert bookings[0].patientId in PatientIds(bookings);
    }
  }

  /** `getUniquePatients`: the number of distinct patient ids, never more than the number of
      bookings and zero exactly when there are none. */
  function UniquePatients(bookings: seq<Booking>): (n: nat)
    ensures n <= |bookings|
    ensures n == 0 <==> bookings == []
    ensures n == |PatientIds(bookings)|
  {
    PatientIdsBounds(bookings);
    |PatientIds(bookings)|
  }

  /** Bookings in ascending order of `timeOf(date)`, the `new Date(date).getTime()` the
      comparator subtracts. */
  predicate SortedByDate(bookings: seq<Booking>, timeOf: string -> int)
  {
    forall i, j :: 0 <= i < j < |bookings| ==> timeOf(bookings[i].date) <= timeOf(bookings[j].date)
  }

  function WithTime(timeOf: string -> int, t: int): Booking -> bool { (b: Booking) => timeOf(b.date) == t }

  /** Puts `b` into a list in front of the first booking that is not earlier. */
  function InsertByDate(b: Booking, sorted: seq<Booking>, timeOf: string -> int): seq<Booking>
  {
    if sorted == [] || timeOf(b.date) <= timeOf(sorted[0].date) then [b] + sorted
    else [sorted[0]] + InsertByDate(b, sorted[1..], timeOf)
  }

  /** Inserting into a sorted list keeps it sorted and adds exactly `b`. */
  lemma {:induction false} InsertByDateSorts(b: Booking, sorted: seq<Booking>, timeOf: string -> int)
    requires SortedByDate(sorted, timeOf)
    ensures SortedByDate(InsertByDate(b, sorted, timeOf), timeOf)
    ensures multiset(InsertByDate(b, sorted, timeOf)) == multiset(sorted) + multiset{b}
  {
    if !(sorted == [] || timeOf(b.date) <= timeOf(sorted[0].date)) {
      var first := sorted[0];
      SortedTail(sorted, timeOf);
      InsertByDateSorts(b, sorted[1..], timeOf);
      var rest := InsertByDate(b, sorted[1..], timeOf);
      assert sorted == [first] + sorted[1..];
      InsertedNotEarlier(first, b, sorted[1..], rest, timeOf);
    }
  }

  /** The step of `InsertByDate` that keeps the order: the head of the sorted list, not later than
      `b` or anything after it, can stay in front of the list `b` was inserted into. */
  lemma InsertedNotEarlier(first: Booking, b: Booking, tail: seq<Booking>, rest: seq<Booking>, timeOf: string -> int)
    requires SortedByDate([first] + tail, timeOf) && SortedByDate(rest, timeOf)
    requires timeOf(first.date) < timeOf(b.date)
    requires multiset(rest) == multiset(tail) + multiset{b}
    ensures SortedByDate([first] + rest, timeOf)
  {
    forall x | x in rest ensures timeOf(first.date) <= timeOf(x.date) {
      assert x in multiset(rest);
      if x != b {
        assert x in multiset(tail);
        var k :| 0 <= k < |tail| && tail[k] == x;
        var whole := [first] + tail;
        assert whole[0] == first && whole[k + 1] == x;
        assert timeOf(whole[0].date) <= timeOf(whole[k + 1].date);
      }
    }
    var r := [first] + rest;
    forall i, j | 0 <= i < j < |r| ensures timeOf(r[i].date) <= timeOf(r[j].date) {
      if i == 0 {
        assert r[j] == rest[j - 1];
      } else {
        assert r[i] == rest[i - 1] && r[j] == rest[j - 1];
      }
    }
  }

  /** Among bookings with the same time, the inserted one comes first and the others keep
      their order. */
  lemma {:induction false} InsertByDateStable(b: Booking, sorted: seq<Booking>, timeOf: string -> int, t: int)
    ensures Filter(InsertByDate(b, sorted, timeOf), WithTime(timeOf, t)) ==
            (if timeOf(b.date) == t then [b] else []) + Filter(sorted, WithTime(timeOf, t))
  {
    if sorted == [] || timeOf(b.date) <= timeOf(sorted[0].date) {
      InsertedAtFront(b, sorted, timeOf, t);
    } else {
      InsertByDateStable(b, sorted[1..], timeOf, t);
      InsertedBehindHead(b, sorted[0], sorted[1..], timeOf, t);
      assert [sorted[0]] + sorted[1..] == sorted;
    }
  }

  lemma SortedTail(sorted: seq<Booking>, timeOf: string -> int)
    requires SortedByDate(sorted, timeOf) && sorted != []
    ensures SortedByDate(sorted[1..], timeOf)
  {
    forall i, j | 0 <= i < j < |sorted| - 1 ensures timeOf(sorted[1..][i].date) <= timeOf(sorted[1..][j].date) {
      assert sorted[1..][i] == sorted[i + 1] && sorted[1..][j] == sorted[j + 1];
    }
  }

  /** The case where `b` goes in front of the whole list. */
  lemma InsertedAtFront(b: Booking, sorted: seq<Booking>, timeOf: string -> int, t: int)
    requires sorted == [] || timeOf(b.date) <= timeOf(sorted[0].date)
    ensures Filter(InsertByDate(b, sorted, timeOf), WithTime(timeOf, t)) ==
            (if timeOf(b.date) == t then [b] else []) + Filter(sorted, WithTime(timeOf, t))
  {
    var p := WithTime(timeOf, t);
    assert InsertByDate(b, sorted, timeOf) == [b] + sorted;
    FilterConcat([b], sorted, p);
    FilterSingle(b, p);
  }

  /** The case where `b` goes behind the head: the head stays in front of the rest. */
  lemma InsertedBehindHead(b: Booking, head: Booking, tail: seq<Booking>, timeOf: string -> int, t: int)
    requires timeOf(head.date) < timeOf(b.date)
    requires Filter(InsertByDate(b, tail, timeOf), WithTime(timeOf, t)) ==
             (if timeOf(b.date) == t then [b] else []) + Filter(tail, WithTime(timeOf, t))
    ensures Filter(InsertByDate(b, [head] + tail, timeOf), WithTime(timeOf, t)) ==
            (if timeOf(b.date) == t then [b] else []) + Filter([head] + tail, WithTime(timeOf, t))
  {
    var p := WithTime(timeOf, t);
    var rest := InsertByDate(b, tail, timeOf);
    var sorted := [head] + tail;
    assert sorted[0] == head && sorted[1..] == tail;
    assert InsertByDate(b, sorted, timeOf) == [head] + rest;
    FilterCons(head, rest, p);
    FilterCons(head, tail, p);
    var fr, ft := Filter(rest, p), Filter(tail, p);
    if timeOf(b.date) == t {
      assert !p(head);
      assert Filter(InsertByDate(b, sorted, timeOf), p) == [] + fr == fr;
      assert Filter(sorted, p) == [] + ft == ft;
    } else {
      assert fr == [] + ft == ft;
      assert [] + Filter(sorted, p) == Filter(sorted, p);
    }
  }

  lemma FilterSingle(b: Booking, p: Booking -> bool)
    ensures Filter([b], p) == if p(b) then [b] else []
  {
    assert [b][1..] == [];
  }

  /** The date sort of the bookings list: ascending by date and a permutation of the input. */
  function SortByDate(bookings: seq<Booking>, timeOf: string -> int): (r: seq<Booking>)
    ensures SortedByDate(r, timeOf)
    ensures multiset(r) == multiset(bookings)
  {
    if bookings == [] then []
    else
      assert bookings == [bookings[0]] + bookings[1..];
      InsertByDateSorts(bookings[0], SortByDate(bookings[1..], timeOf), timeOf);
      InsertByDate(bookings[0], SortByDate(bookings[1..], timeOf), timeOf)
  }

  /** The sort is stable, as `Array.prototype.sort` is: bookings with the same date time keep
      their input order. */
  lemma {:induction false} SortByDateStable(bookings: seq<Booking>, timeOf: string -> int, t: int)
    ensures Filter(SortByDate(bookings, timeOf), WithTime(timeOf, t)) == Filter(bookings, WithTime(timeOf, t))
  {
    if bookings != [] {
      SortByDateStable(bookings[1..], timeOf, t);
      InsertByDateStable(bookings[0], SortByDate(bookings[1..], timeOf), timeOf, t);
      FilterConcat([bookings[0]], bookings[1..], WithTime(timeOf, t));
      assert bookings == [bookings[0]] + bookings[1..];
    }
  }
}
