/** The slot calendar the store starts with: the next seven days, weekdays only,
    one slot per hour from 9 to 17. */
module Calendar {
  import opened Wrappers
  import opened Seqs
  import opened Text
  import opened Records

  const WindowDays: nat := 7
  const FirstHour: nat := 9
  const LastHour: nat := 17
  const SlotsPerDay: nat := LastHour - FirstHour + 1

  /** One day of the window: its `YYYY-MM-DD` date and its weekday as `getDay()`
      numbers it (0 is Sunday, 6 is Saturday). */
  datatype CalendarDay = CalendarDay(date: string, weekday: nat)

  predicate IsWeekend(d: CalendarDay) { d.weekday == 0 || d.weekday == 6 }

  predicate IsWorkingDay(d: CalendarDay) { !IsWeekend(d) }

  /** `slot-<date>-<hour>`, the hour written without padding. */
  function SlotId(date: string, hour: nat): string
  {
    "slot-" + date + "-" + DecimalString(hour)
  }

  /** `HH:00`, the hour padded to two digits. */
  function TimeLabel(hour: nat): string
  {
    PadStart2(DecimalString(hour)) + ":00"
  }

  /** A fresh slot: open and without an occupant. */
  function OpenSlot(date: string, hour: nat): Slot
  {
    Slot(SlotId(date, hour), date, TimeLabel(hour), true, None, None)
  }

  /** The slots one day contributes. */
  function DaySlots(day: CalendarDay): seq<Slot>
  {
    if IsWeekend(day) then [] else seq(SlotsPerDay, k requires 0 <= k => OpenSlot(day.date, FirstHour + k))
  }

  /** The calendar of a run of days, day after day. */
  function WindowSlots(days: seq<CalendarDay>): seq<Slot>
    decreases |days|
  {
    if days == [] then [] else WindowSlots(days[..|days| - 1]) + DaySlots(days[|days| - 1])
  }

  /** `generateAvailableSlots`: the nested loops over days and hours. */
  method GenerateSlots(days: seq<CalendarDay>) returns (slots: seq<Slot>)
    requires |days| == WindowDays
    ensures slots == WindowSlots(days)
  {
    slots := [];
    var day := 0;
    while day < WindowDays
      invariant 0 <= day <= WindowDays
      invariant slots == WindowSlots(days[..day])
    {
      assert days[..day + 1][..day] == days[..day];
      var d := days[day];
      if !IsWeekend(d) {
        var hour := FirstHour;
        while hour <= LastHour
          invariant FirstHour <= hour <= LastHour + 1
          invariant slots == WindowSlots(days[..day]) + seq(hour - FirstHour, k requires 0 <= k => OpenSlot(d.date, FirstHour + k))
        {
          slots := slots + [OpenSlot(d.date, hour)];
          hour := hour + 1;
        }
      }
      day := day + 1;
    }
    assert days[..WindowDays] == days;
  }

  /** A window of ten-character dates with no date twice. The calendar code steps through
      local days but labels each with its UTC date, so on a week with a forward clock change
      two days can share a date; the lemmas that need distinct dates require this. */
  predicate WellFormedWindow(days: seq<CalendarDay>)
  {
    && (forall i :: 0 <= i < |days| ==> |days[i].date| == 10)
    && (forall i, j :: 0 <= i < j < |days| ==> days[i].date != days[j].date)
  }

  /** Each working day contributes `SlotsPerDay` slots, a weekend day none. */
  lemma {:induction false} CalendarSize(days: seq<CalendarDay>)
    ensures |WindowSlots(days)| == SlotsPerDay * |Filter(days, IsWorkingDay)|
    decreases |days|
  {
    if days != [] {
      var n := |days| - 1;
      assert days == days[..n] + [days[n]];
      FilterSnoc(days[..n], days[n], IsWorkingDay);
      CalendarSize(days[..n]);
    }
  }

  /** Every generated slot is open, has no occupant, and is the slot of a working day of the
      window at an hour from 9 to 17. */
  lemma {:induction false} CalendarSlots(days: seq<CalendarDay>)
    ensures forall s :: s in WindowSlots(days) ==>
      && s.available && s.patientId.None? && s.patientName.None?
      && exists j, h :: 0 <= j < |days| && IsWorkingDay(days[j]) && FirstHour <= h <= LastHour
                        && s == OpenSlot(days[j].date, h)
    decreases |days|
  {
    if days != [] {
      var n := |days| - 1;
      CalendarSlots(days[..n]);
      forall s | s in WindowSlots(days)
        ensures exists j, h :: 0 <= j < |days| && IsWorkingDay(days[j]) && FirstHour <= h <= LastHour
                               && s == OpenSlot(days[j].date, h)
      {
        if s in WindowSlots(days[..n]) {
          var j, h :| 0 <= j < n && IsWorkingDay(days[..n][j]) && FirstHour <= h <= LastHour
                      && s == OpenSlot(days[..n][j].date, h);
          assert days[..n][j] == days[j];
        } else {
          var last := DaySlots(days[n]);
          assert s in last;
          var k :| 0 <= k < |last| && last[k] == s;
          assert IsWorkingDay(days[n]) && s == OpenSlot(days[n].date, FirstHour + k);
        }
      }
    }
  }

  /** Two ids for dates of equal length coincide only for the same date and hour. */
  lemma SlotIdInjective(d1: string, h1: nat, d2: string, h2: nat)
    requires |d1| == |d2| && SlotId(d1, h1) == SlotId(d2, h2)
    ensures d1 == d2 && h1 == h2
  {
    var s := SlotId(d1, h1);
    assert s[5..5 + |d1|] == d1;
    assert SlotId(d2, h2)[5..5 + |d2|] == d2;
    assert s[6 + |d1|..] == DecimalString(h1);
    assert SlotId(d2, h2)[6 + |d2|..] == DecimalString(h2);
    DecimalInjective(h1, h2);
  }

  /** In a well-formed window no two generated slots share an id. */
  lemma {:induction false} CalendarIdsUnique(days: seq<CalendarDay>)
    requires WellFormedWindow(days)
    ensures forall i, j :: 0 <= i < j < |WindowSlots(days)| ==> WindowSlots(days)[i].id != WindowSlots(days)[j].id
    decreases |days|
  {
    if days != [] {
      var n := |days| - 1;
      var prefix, last := WindowSlots(days[..n]), DaySlots(days[n]);
      CalendarIdsUnique(days[..n]);
      DaySlotIdsUnique(days[n]);
      LastDayIdsAreNew(days);
      var all := WindowSlots(days);
      assert all == prefix + last;
      forall i, j | 0 <= i < j < |all| ensures all[i].id != all[j].id {
        if j < |prefix| {
          assert all[i] == prefix[i] && all[j] == prefix[j];
        } else if i >= |prefix| {
          assert all[i] == last[i - |prefix|] && all[j] == last[j - |prefix|];
        } else {
          assert all[i] == prefix[i] && all[i] in prefix;
          assert all[j] == last[j - |prefix|] && all[j] in last;
        }
      }
    }
  }

  /** The slots of one day have distinct ids. */
  lemma DaySlotIdsUnique(day: CalendarDay)
    ensures forall i, j :: 0 <= i < j < |DaySlots(day)| ==> DaySlots(day)[i].id != DaySlots(day)[j].id
  {
    var slots := DaySlots(day);
    forall i, j | 0 <= i < j < |slots| ensures slots[i].id != slots[j].id {
      assert !IsWeekend(day);
      assert slots[i] == OpenSlot(day.date, FirstHour + i);
      assert slots[j] == OpenSlot(day.date, FirstHour + j);
      if slots[i].id == slots[j].id {
        SlotIdInjective(day.date, FirstHour + i, day.date, FirstHour + j);
      }
    }
  }

  /** In a well-formed window the last day's slot ids differ from all earlier ones. */
  lemma LastDayIdsAreNew(days: seq<CalendarDay>)
    requires WellFormedWindow(days) && days != []
    ensures forall s, x :: s in WindowSlots(days[..|days| - 1]) && x in DaySlots(days[|days| - 1]) ==> s.id != x.id
  {
    var n := |days| - 1;
    CalendarSlots(days[..n]);
    forall s, x | s in WindowSlots(days[..n]) && x in DaySlots(days[n]) ensures s.id != x.id {
      var k, h :| 0 <= k < n && IsWorkingDay(days[..n][k]) && FirstHour <= h <= LastHour
                  && s == OpenSlot(days[..n][k].date, h);
      assert days[..n][k] == days[k];
      OtherDayIdsDiffer(days[k], h, days[n], x);
    }
  }

  /** A slot of one day never has the id of a slot of another day whose date has the same length. */
  lemma OtherDayIdsDiffer(d1: CalendarDay, h: nat, d2: CalendarDay, x: Slot)
    requires x in DaySlots(d2) && |d1.date| == |d2.date| && d1.date != d2.date
    ensures OpenSlot(d1.date, h).id != x.id
  {
    var last := DaySlots(d2);
    var b :| 0 <= b < |last| && last[b] == x;
    assert !IsWeekend(d2);
    assert x == OpenSlot(d2.date, FirstHour + b);
    if OpenSlot(d1.date, h).id == x.id {
      SlotIdInjective(d1.date, h, d2.date, FirstHour + b);
    }
  }

  /** Every generated slot carries the date of a working day of the window. */
  lemma CalendarDates(days: seq<CalendarDay>)
    ensures forall s :: s in WindowSlots(days) ==> exists k :: 0 <= k < |days| && s.date == days[k].date
  {
    CalendarSlots(days);
    forall s | s in WindowSlots(days) ensures exists k :: 0 <= k < |days| && s.date == days[k].date {
      var k, h :| 0 <= k < |days| && IsWorkingDay(days[k]) && FirstHour <= h <= LastHour
                  && s == OpenSlot(days[k].date, h);
    }
  }

  function DatedOn(date: string): Slot -> bool { (s: Slot) => s.date == date }

  /** In a well-formed window each working day's date labels exactly `SlotsPerDay` slots,
      and a weekend day's date none. */
  lemma {:induction false} SlotsPerDate(days: seq<CalendarDay>, j: nat)
    requires WellFormedWindow(days) && j < |days|
    ensures |Filter(WindowSlots(days), DatedOn(days[j].date))| == if IsWeekend(days[j]) then 0 else SlotsPerDay
    decreases |days|
  {
    var n := |days| - 1;
    if j == n {
      LastDateCount(days);
    } else {
      assert WellFormedWindow(days[..n]);
      assert days[..n][j] == days[j];
      SlotsPerDate(days[..n], j);
      EarlierDateCount(days, j);
    }
  }

  /** The last day's date labels exactly that day's slots. */
  lemma LastDateCount(days: seq<CalendarDay>)
    requires WellFormedWindow(days) && days != []
    ensures var n := |days| - 1;
            Filter(WindowSlots(days), DatedOn(days[n].date)) == DaySlots(days[n])
  {
    var n := |days| - 1;
    var p := DatedOn(days[n].date);
    var prefix, last := WindowSlots(days[..n]), DaySlots(days[n]);
    FilterConcat(prefix, last, p);
    EarlierDatesDiffer(days);
    FilterNoneKept(prefix, p);
    DaySlotsDate(days[n]);
    FilterAllKept(last, p);
  }

  /** An earlier day's date labels no slot of the last day. */
  lemma EarlierDateCount(days: seq<CalendarDay>, j: nat)
    requires WellFormedWindow(days) && j < |days| - 1
    ensures var n := |days| - 1;
            Filter(WindowSlots(days), DatedOn(days[j].date)) == Filter(WindowSlots(days[..n]), DatedOn(days[j].date))
  {
    var n := |days| - 1;
    var p := DatedOn(days[j].date);
    var prefix, last := WindowSlots(days[..n]), DaySlots(days[n]);
    FilterConcat(prefix, last, p);
    DaySlotsDate(days[n]);
    assert days[j].date != days[n].date;
    FilterNoneKept(last, p);
  }

  /** A day's slots all carry that day's date. */
  lemma DaySlotsDate(day: CalendarDay)
    ensures forall x :: x in DaySlots(day) ==> x.date == day.date
  {
    var last := DaySlots(day);
    forall x | x in last ensures x.date == day.date {
      var k :| 0 <= k < |last| && last[k] == x;
      assert !IsWeekend(day) && x == OpenSlot(day.date, FirstHour + k);
    }
  }

  /** In a well-formed window the slots of the earlier days never carry the last day's date. */
  lemma EarlierDatesDiffer(days: seq<CalendarDay>)
    requires WellFormedWindow(days) && days != []
    ensures forall s :: s in WindowSlots(days[..|days| - 1]) ==> s.date != days[|days| - 1].date
  {
    var n := |days| - 1;
    CalendarDates(days[..n]);
    forall s | s in WindowSlots(days[..n]) ensures s.date != days[n].date {
      var k :| 0 <= k < n && s.date == days[..n][k].date;
      assert days[..n][k] == days[k];
    }
  }
}
