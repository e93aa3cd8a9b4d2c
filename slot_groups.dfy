/** The patient dashboard's grouping of available slots by date: a `reduce` into a record
    keyed by date whose arrays are grown with `push`. */
module SlotGroups {
  import opened Seqs
  import opened Records

  /** A date-keyed record: `dates` lists its keys in the order they were created, as
      `Object.keys` does; `groups` maps each key to its array. */
  datatype DateGroups = DateGroups(dates: seq<string>, groups: map<string, seq<Slot>>)

  function OnDate(date: string): Slot -> bool { (s: Slot) => s.date == date }

  /** The dates of `slots`, each once, in order of first appearance. */
  function DistinctDates(slots: seq<Slot>): seq<string>
    decreases |slots|
  {
    if slots == [] then []
    else
      var init, last := slots[..|slots| - 1], slots[|slots| - 1];
      var ds := DistinctDates(init);
      if last.date in ds then ds else ds + [last.date]
  }

  /** The keys are exactly the dates that occur, and none occurs twice. */
  lemma {:induction false} DistinctDatesSpec(slots: seq<Slot>)
    ensures forall d :: d in DistinctDates(slots) <==> exists s :: s in slots && s.date == d
    ensures forall i, j :: 0 <= i < j < |DistinctDates(slots)| ==> DistinctDates(slots)[i] != DistinctDates(slots)[j]
    decreases |slots|
  {
    if slots != [] {
      var init, last := slots[..|slots| - 1], slots[|slots| - 1];
      assert slots == init + [last];
      DistinctDatesSpec(init);
    }
  }

  /** `dates` and `groups` are the record built from `slots`. */
  ghost predicate GroupsOf(slots: seq<Slot>, dates: seq<string>, groups: map<string, seq<Slot>>)
  {
    && dates == DistinctDates(slots)
    && (forall d :: d in groups <==> d in dates)
    && (forall d :: d in groups ==> groups[d] == Filter(slots, OnDate(d)))
  }

  /** A slot whose date is new opens a group of its own. */
  lemma GroupsOpen(slots: seq<Slot>, x: Slot, dates: seq<string>, groups: map<string, seq<Slot>>)
    requires GroupsOf(slots, dates, groups) && x.date !in groups
    ensures GroupsOf(slots + [x], dates + [x.date], groups[x.date := [x]])
  {
    DistinctDatesSnoc(slots, x);
    DistinctDatesSpec(slots);
    FilterNoneKept(slots, OnDate(x.date));
    var groups' := groups[x.date := [x]];
    forall d | d in groups' ensures groups'[d] == Filter(slots + [x], OnDate(d)) {
      FilterSnoc(slots, x, OnDate(d));
    }
  }

  /** A slot whose date already has a group is pushed onto it. */
  lemma GroupsPush(slots: seq<Slot>, x: Slot, dates: seq<string>, groups: map<string, seq<Slot>>)
    requires GroupsOf(slots, dates, groups) && x.date in groups
    ensures GroupsOf(slots + [x], dates, groups[x.date := groups[x.date] + [x]])
  {
    var groups' := groups[x.date := groups[x.date] + [x]];
    assert dates == DistinctDates(slots + [x]) by {
      DistinctDatesSnoc(slots, x);
    }
    assert forall d :: d in groups' <==> d in dates;
    assert forall d :: d in groups' ==> groups'[d] == Filter(slots + [x], OnDate(d)) by {
      forall d | d in groups' ensures groups'[d] == Filter(slots + [x], OnDate(d)) {
        GroupGrows(slots, x, d);
        if d == x.date {
          assert groups'[d] == groups[d] + [x];
        } else {
          assert groups'[d] == groups[d];
        }
      }
    }
  }

  /** One more slot is appended to its own date's group and leaves every other group alone. */
  lemma GroupGrows(slots: seq<Slot>, x: Slot, d: string)
    ensures x.date == d ==> Filter(slots + [x], OnDate(d)) == Filter(slots, OnDate(d)) + [x]
    ensures x.date != d ==> Filter(slots + [x], OnDate(d)) == Filter(slots, OnDate(d))
  {
    FilterSnoc(slots, x, OnDate(d));
    assert Filter(slots, OnDate(d)) + [] == Filter(slots, OnDate(d));
  }

  lemma DistinctDatesSnoc(slots: seq<Slot>, x: Slot)
    ensures DistinctDates(slots + [x]) ==
      if x.date in DistinctDates(slots) then DistinctDates(slots) else DistinctDates(slots) + [x.date]
  {
    assert (slots + [x])[..|slots|] == slots;
  }

  /** `groupSlotsByDate`: each slot lands in the group of its own date and in no other, every
      group holds exactly the slots of its date in their original order, the group sizes add up to
      the number of slots, and there are no groups exactly when there are no slots. */
  method GroupSlotsByDate(slots: seq<Slot>) returns (g: DateGroups)
    ensures g.dates == DistinctDates(slots)
    ensures forall d :: d in g.groups <==> d in g.dates
    ensures forall d :: d in g.groups ==> g.groups[d] == Filter(slots, OnDate(d))
    ensures forall i :: 0 <= i < |slots| ==> slots[i].date in g.groups && slots[i] in g.groups[slots[i].date]
    ensures GroupSizes(g.dates, slots) == |slots|
    ensures g.dates == [] <==> slots == []
  {
    var dates: seq<string> := [];
    var groups: map<string, seq<Slot>> := map[];
    for i := 0 to |slots|
      invariant GroupsOf(slots[..i], dates, groups)
    {
      var slot := slots[i];
      assert slots[..i + 1] == slots[..i] + [slot];
      if slot.date !in groups {
        GroupsOpen(slots[..i], slot, dates, groups);
        dates := dates + [slot.date];
        groups := groups[slot.date := [slot]];
      } else {
        GroupsPush(slots[..i], slot, dates, groups);
        groups := groups[slot.date := groups[slot.date] + [slot]];
      }
    }
    assert slots[..|slots|] == slots;
    assert GroupsOf(slots, dates, groups);
    g := DateGroups(dates, groups);
    GroupSizesTotal(slots);
    SlotsInOwnGroup(slots);
  }

  /** Each slot's date is a key, and the slot is among those kept for that date. */
  lemma SlotsInOwnGroup(slots: seq<Slot>)
    ensures forall i :: 0 <= i < |slots| ==>
      slots[i].date in DistinctDates(slots) && slots[i] in Filter(slots, OnDate(slots[i].date))
    ensures DistinctDates(slots) == [] <==> slots == []
  {
    DistinctDatesSpec(slots);
    forall i | 0 <= i < |slots|
      ensures slots[i].date in DistinctDates(slots) && slots[i] in Filter(slots, OnDate(slots[i].date))
    {
      assert slots[i] in slots;
    }
    if slots != [] {
      assert slots[0] in slots;
    }
  }

  /** The sizes of the groups of `dates`, added up. */
  function GroupSizes(dates: seq<string>, slots: seq<Slot>): nat
  {
    if dates == [] then 0 else |Filter(slots, OnDate(dates[0]))| + GroupSizes(dates[1..], slots)
  }

  /** One more slot adds one to the total exactly when its date is among those counted. */
  lemma {:induction false} GroupSizesSnoc(dates: seq<string>, slots: seq<Slot>, x: Slot)
    requires forall i, j :: 0 <= i < j < |dates| ==> dates[i] != dates[j]
    ensures GroupSizes(dates, slots + [x]) == GroupSizes(dates, slots) + (if x.date in dates then 1 else 0)
  {
    if dates != [] {
      FilterSnoc(slots, x, OnDate(dates[0]));
      GroupSizesSnoc(dates[1..], slots, x);
      assert x.date in dates <==> x.date == dates[0] || x.date in dates[1..];
    }
  }

  /** Counting one more date adds the size of its group. */
  lemma {:induction false} GroupSizesAppend(dates: seq<string>, d: string, slots: seq<Slot>)
    ensures GroupSizes(dates + [d], slots) == GroupSizes(dates, slots) + |Filter(slots, OnDate(d))|
  {
    if dates != [] {
      assert (dates + [d])[1..] == dates[1..] + [d];
      GroupSizesAppend(dates[1..], d, slots);
    }
  }

  /** Every slot is in exactly one group: the group sizes add up to the number of slots. */
  lemma {:induction false} GroupSizesTotal(slots: seq<Slot>)
    ensures GroupSizes(DistinctDates(slots), slots) == |slots|
    decreases |slots|
  {
    if slots != [] {
      var init, last := slots[..|slots| - 1], slots[|slots| - 1];
      assert slots == init + [last];
      var ds := DistinctDates(init);
      GroupSizesTotal(init);
      DistinctDatesSpec(init);
      GroupSizesSnoc(ds, init, last);
      if last.date !in ds {
        GroupSizesAppend(ds, last.date, slots);
        FilterSnoc(init, last, OnDate(last.date));
        FilterNoneKept(init, OnDate(last.date));
      }
    }
  }
}
