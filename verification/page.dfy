/** The page of app/page.tsx: clicking a day toggles the selected staff
    member's wish, saving the editor replaces that member's record, and the
    generate button posts the loaded data with the current wishes. */
module Page {
  import opened Wrappers
  import opened Json
  import opened WishTable
  import StaffEdit
  import CalendarGrid
  import ApiPrelude

  /** The data `/api/initial-data` answers with; `extra` holds the keys the
      page passes through untouched (the shift codes, the rules, ...). */
  datatype InitialData = InitialData(
    year: int,
    month: int,
    days: int,
    weekdayOfDay1: int,
    people: seq<StaffEdit.Person>,
    wishOffs: Table,
    extra: seq<(string, Value)>)

  /** `xs.filter(d => d !== x)`. */
  function RemoveAll(xs: seq<int>, x: int): (r: seq<int>)
    ensures multiset(r) == multiset(xs)[x := 0]
  {
    if |xs| == 0 then []
    else
      assert xs == [xs[0]] + xs[1..];
      (if xs[0] == x then [] else [xs[0]]) + RemoveAll(xs[1..], x)
  }

  /** Filtering out a value the list does not hold leaves it as it is. */
  lemma {:induction false} RemoveAbsent(xs: seq<int>, x: int)
    requires x !in xs
    ensures RemoveAll(xs, x) == xs
  {
    if |xs| > 0 {
      assert x !in xs[1..];
      RemoveAbsent(xs[1..], x);
    }
  }

  /** The filter works element by element, so it distributes over
      concatenation. */
  lemma {:induction false} RemoveAllConcat(a: seq<int>, b: seq<int>, x: int)
    ensures RemoveAll(a + b, x) == RemoveAll(a, x) + RemoveAll(b, x)
  {
    if |a| == 0 {
      assert a + b == b;
    } else {
      var h := if a[0] == x then [] else [a[0]];
      assert (a + b)[0] == a[0];
      assert (a + b)[1..] == a[1..] + b;
      assert RemoveAll(a + b, x) == h + RemoveAll(a[1..] + b, x);
      RemoveAllConcat(a[1..], b, x);
      DaysAssoc(h, RemoveAll(a[1..], x), RemoveAll(b, x));
    }
  }

  /** Concatenation of day lists is associative. */
  lemma DaysAssoc(x: seq<int>, y: seq<int>, z: seq<int>)
    ensures x + (y + z) == (x + y) + z
  {
  }

  /** The new list of `handleDayClick`: a listed day is filtered out, any
      other day is appended. */
  function ToggleList(cur: seq<int>, day: int): (r: seq<int>)
    ensures day in r <==> day !in cur
    ensures forall d :: d != day ==> multiset(r)[d] == multiset(cur)[d]
    ensures day !in cur ==> r == cur + [day]
    ensures day in cur ==> r == RemoveAll(cur, day)
  {
    if day in cur then
      var r := RemoveAll(cur, day);
      assert multiset(r)[day] == 0;
      r
    else cur + [day]
  }

  /** `handleDayClick(day)`: with no (or an empty) staff id selected the
      wishes stay as they are (the source alerts instead); otherwise the
      selected member's list is toggled at `day` and written back with
      `{ ...prev, [selectedStaff]: newWishes }`. */
  function ToggleDay(t: Table, selected: Option<string>, day: int): (r: Table)
    ensures !CalendarGrid.Truthy(selected) ==> r == t
    ensures CalendarGrid.Truthy(selected) ==>
              Lookup(r, selected.value).Some? &&
              (day in Current(r, selected.value) <==> day !in Current(t, selected.value))
    ensures forall k :: (selected.Some? ==> k != selected.value) ==> Lookup(r, k) == Lookup(t, k)
  {
    if !CalendarGrid.Truthy(selected) then t
    else
      var id := selected.value;
      Update(t, id, ToggleList(Current(t, id), day))
  }

  /** Only the toggled day changes in the selected member's list; every
      other day keeps its number of occurrences. */
  lemma ToggleKeepsOtherDays(t: Table, selected: Option<string>, day: int, d: int)
    requires CalendarGrid.Truthy(selected)
    requires d != day
    ensures multiset(Current(ToggleDay(t, selected, day), selected.value))[d] ==
            multiset(Current(t, selected.value))[d]
  {
  }

  /** A day asked off by accident is undone by a second click: when the
      selected member already has an entry whose list lacks that day, two
      clicks give back exactly the wishes of before. */
  lemma ToggleTwiceRestores(t: Table, selected: Option<string>, day: int)
    requires CalendarGrid.Truthy(selected)
    requires Lookup(t, selected.value).Some?
    requires day !in Current(t, selected.value)
    ensures ToggleDay(ToggleDay(t, selected, day), selected, day) == t
  {
    var id := selected.value;
    var cur := Current(t, id);
    var once := ToggleDay(t, selected, day);
    assert Current(once, id) == cur + [day];
    RemoveAllConcat(cur, [day], day);
    RemoveAbsent(cur, day);
    assert RemoveAll([day], day) == [];
    assert cur + [] == cur;
    UpdateUpdate(t, id, cur + [day], cur);
    UpdateSame(t, id, cur);
  }

  /** For a member with no entry yet, two clicks leave an entry behind: the
      member's id is appended with an empty list, and every list reads as
      before. */
  lemma ToggleTwiceNoEntry(t: Table, selected: Option<string>, day: int)
    requires CalendarGrid.Truthy(selected)
    requires Lookup(t, selected.value).None?
    ensures ToggleDay(ToggleDay(t, selected, day), selected, day) == t + [(selected.value, [])]
    ensures forall k :: Current(ToggleDay(ToggleDay(t, selected, day), selected, day), k) == Current(t, k)
  {
    var id := selected.value;
    assert Current(t, id) == [];
    assert [] + [day] == [day];
    assert ToggleList([], day) == [day];
    var once := ToggleDay(t, selected, day);
    assert once == Update(t, id, [day]);
    assert Current(once, id) == [day];
    assert [day][1..] == [];
    assert RemoveAll([day], day) == [];
    assert ToggleList([day], day) == [];
    UpdateUpdate(t, id, [day], []);
    UpdateAppends(t, id, []);
  }

  /** In general two clicks on the same day give back the same set of days
      for the selected member (a removed day that comes back goes to the
      end, and a repeated day comes back once) and leave everybody else
      alone. */
  lemma ToggleTwiceSameDays(t: Table, selected: Option<string>, day: int, d: int)
    requires CalendarGrid.Truthy(selected)
    ensures d in Current(ToggleDay(ToggleDay(t, selected, day), selected, day), selected.value) <==>
            d in Current(t, selected.value)
  {
    var id := selected.value;
    var once := ToggleDay(t, selected, day);
    var twice := ToggleDay(once, selected, day);
    if d != day {
      assert multiset(Current(once, id))[d] == multiset(Current(t, id))[d];
      assert multiset(Current(twice, id))[d] == multiset(Current(once, id))[d];
    }
  }

  /** Toggling keeps the object's keys unique. */
  lemma ToggleUnique(t: Table, selected: Option<string>, day: int)
    requires UniqueKeys(t)
    ensures UniqueKeys(ToggleDay(t, selected, day))
  {
    if CalendarGrid.Truthy(selected) {
      UpdateUnique(t, selected.value, ToggleList(Current(t, selected.value), day));
    }
  }

  /** What the calendar shows follows the click: the clicked day turns into
      the selected member's own wish exactly when it was not one before. */
  lemma ToggleFlipsHighlight(t: Table, selected: Option<string>, day: int)
    requires UniqueKeys(t)
    requires CalendarGrid.Truthy(selected)
    ensures (CalendarGrid.CellHighlight(ToggleDay(t, selected, day), selected, day) == CalendarGrid.SelectedWish) <==>
            (CalendarGrid.CellHighlight(t, selected, day) != CalendarGrid.SelectedWish)
  {
    var r := ToggleDay(t, selected, day);
    ToggleUnique(t, selected, day);
    WishersOfKey(t, day, selected.value);
    WishersOfKey(r, day, selected.value);
  }

  /** The calendar's click guard and the page's agree: a click the
      calendar drops leaves the wishes alone, and a click it forwards
      reaches the page with the same day and flips that day for the
      selected member. */
  lemma ClickReachesToggle(t: Table, selected: Option<string>, day: int)
    ensures CalendarGrid.ClickedDay(selected, day).None? ==> ToggleDay(t, selected, day) == t
    ensures CalendarGrid.ClickedDay(selected, day).Some? ==>
              && CalendarGrid.ClickedDay(selected, day).value == day
              && (day in Current(ToggleDay(t, selected, day), selected.value) <==> day !in Current(t, selected.value))
  {
  }

  /** The props the calendar reads; `None` is a prop left `undefined`. */
  datatype CalendarProps = CalendarProps(
    days: Option<int>,
    weekdayOfDay1: Option<int>,
    selectedStaffId: Option<string>,
    wishOffs: Table)

  /** The element the page renders passes `daysInMonth`, `firstDayOfWeek`,
      `selectedStaff` and `onDayClick`, names the calendar never reads: of
      the props it reads, only `wishOffs` arrives. */
  function PropsAsWritten(data: InitialData, t: Table, selected: Option<string>): CalendarProps {
    CalendarProps(None, None, None, t)
  }

  /** The props under the names the calendar reads. */
  function PropsIntended(data: InitialData, t: Table, selected: Option<string>): CalendarProps {
    CalendarProps(Some(data.days), Some(data.weekdayOfDay1), selected, t)
  }

  /** The cells the calendar draws. With either number missing the
      arithmetic gives `NaN`, and `Array.from` reads a `NaN` length as 0. */
  function Grid(p: CalendarProps): (cells: seq<Option<int>>)
    ensures p.days.None? || p.weekdayOfDay1.None? ==> cells == []
    ensures p.days.Some? && p.weekdayOfDay1.Some? ==>
              |cells| == CalendarGrid.CellCount(p.weekdayOfDay1.value, p.days.value)
  {
    if p.days.Some? && p.weekdayOfDay1.Some? then CalendarGrid.Cells(p.weekdayOfDay1.value, p.days.value)
    else []
  }

  /** As the page is written the calendar is inert: whatever the month, it
      draws no cell, and a click on a day would not be forwarded either,
      since no selected member arrives. */
  lemma CalendarAsWrittenIsInert(data: InitialData, t: Table, selected: Option<string>, day: int)
    ensures Grid(PropsAsWritten(data, t, selected)) == []
    ensures CalendarGrid.ClickedDay(PropsAsWritten(data, t, selected).selectedStaffId, day).None?
  {
  }

  /** With the props under their read names, every day of the month has
      its cell, and a click on it with a member selected flips that
      member's wish for the day. */
  lemma CalendarIntendedShowsMonth(data: InitialData, t: Table, selected: Option<string>, day: int)
    requires 1 <= day <= data.days
    ensures var cells := Grid(PropsIntended(data, t, selected));
            var i := CalendarGrid.LeadingEmptyCells(data.weekdayOfDay1) + day - 1;
            0 <= i < |cells| && cells[i] == Some(day)
    ensures CalendarGrid.Truthy(selected) ==>
              && CalendarGrid.ClickedDay(PropsIntended(data, t, selected).selectedStaffId, day) == Some(day)
              && (day in Current(ToggleDay(t, selected, day), selected.value) <==> day !in Current(t, selected.value))
  {
    var p := PropsIntended(data, t, selected);
    assert p.days == Some(data.days) && p.weekdayOfDay1 == Some(data.weekdayOfDay1);
    assert Grid(p) == CalendarGrid.Cells(data.weekdayOfDay1, data.days);
    ClickReachesToggle(t, selected, day);
  }

  /** `initialData.people.map(p => p.id === updatedStaff.id ? updatedStaff : p)`. */
  function ReplaceById(people: seq<StaffEdit.Person>, updated: StaffEdit.Person): (r: seq<StaffEdit.Person>)
    ensures |r| == |people|
    ensures forall i :: 0 <= i < |r| ==> r[i].id == people[i].id
    ensures forall p :: p in r ==> p == updated || p in people
    ensures forall i :: 0 <= i < |r| ==>
              (people[i].id == updated.id ==> r[i] == updated) && (people[i].id != updated.id ==> r[i] == people[i])
  {
    seq(|people|, i requires 0 <= i < |people| => if people[i].id == updated.id then updated else people[i])
  }

  /** `handleSaveStaff`: nothing happens before the data has loaded; after,
      every member with the saved id takes the saved record and the rest of
      the data stays. */
  function SaveStaff(data: Option<InitialData>, updated: StaffEdit.Person): (r: Option<InitialData>)
    ensures r.None? <==> data.None?
    ensures r.Some? ==> r.value.(people := data.value.people) == data.value
    ensures r.Some? ==> (updated in r.value.people <==> exists i :: 0 <= i < |data.value.people| && data.value.people[i].id == updated.id)
    ensures r.Some? ==> |r.value.people| == |data.value.people|
    ensures r.Some? ==> forall i :: 0 <= i < |data.value.people| ==>
              (data.value.people[i].id == updated.id ==> r.value.people[i] == updated)
              && (data.value.people[i].id != updated.id ==> r.value.people[i] == data.value.people[i])
  {
    if data.None? then None
    else
      var r := ReplaceById(data.value.people, updated);
      assert forall i :: 0 <= i < |r| && data.value.people[i].id == updated.id ==> r[i] == updated;
      Some(data.value.(people := r))
  }

  /** Saving the same record twice is the same as saving it once. */
  lemma SaveStaffIdempotent(data: Option<InitialData>, updated: StaffEdit.Person)
    ensures SaveStaff(SaveStaff(data, updated), updated) == SaveStaff(data, updated)
  {
    if data.Some? {
      var once := ReplaceById(data.value.people, updated);
      assert ReplaceById(once, updated) == once;
    }
  }

  /** A record whose id nobody has changes nothing. */
  lemma SaveUnknownId(data: Option<InitialData>, updated: StaffEdit.Person)
    requires data.Some? ==> forall i :: 0 <= i < |data.value.people| ==> data.value.people[i].id != updated.id
    ensures SaveStaff(data, updated) == data
  {
    if data.Some? {
      assert ReplaceById(data.value.people, updated) == data.value.people;
    }
  }

  /** `{ ...initialData, wishOffs }`: the posted body is the loaded data
      with the wishes of the page in place of the loaded ones. */
  function Payload(data: InitialData, t: Table): (p: InitialData)
    ensures p.wishOffs == t
    ensures p.(wishOffs := data.wishOffs) == data
  {
    data.(wishOffs := t)
  }

  /** One member's list in the JSON body: each day a JSON integer. */
  function WireDays(days: seq<int>): (vs: seq<Value>)
    ensures |vs| == |days|
    ensures forall j :: 0 <= j < |vs| ==> vs[j] == JInt(days[j])
  {
    seq(|days|, j requires 0 <= j < |days| => JInt(days[j]))
  }

  /** The wishes as they travel in the JSON body, member by member. */
  function WireWishOffs(t: Table): (w: seq<(string, seq<Value>)>)
    ensures |w| == |t|
    ensures forall i :: 0 <= i < |t| ==> w[i] == (t[i].0, WireDays(t[i].1))
  {
    seq(|t|, i requires 0 <= i < |t| => (t[i].0, WireDays(t[i].1)))
  }

  /** The kept days of one sent list are exactly its positive days. */
  lemma WireDaysKept(days: seq<int>, d: int)
    ensures d in ApiPrelude.ValidDays(WireDays(days)) <==> d > 0 && d in days
  {
    var vs := WireDays(days);
    ApiPrelude.ValidDaysIff(vs, d);
    if d > 0 && d in days {
      var j :| 0 <= j < |days| && days[j] == d;
      assert vs[j] == JInt(d);
    }
    if JInt(d) in vs {
      var j :| 0 <= j < |vs| && vs[j] == JInt(d);
      assert days[j] == d;
    }
    assert JFloat(d as real) !in vs;
    assert JBool(true) !in vs;
  }

  /** The server reads back every staff id the page sent, and for each the
      positive days of that member's list: a day the page holds as 0 or
      below is dropped on arrival. */
  lemma ServerReadsWishes(t: Table, id: string, d: int)
    requires UniqueKeys(t)
    ensures id in ApiPrelude.PrepareWishOffs(WireWishOffs(t)) <==> Lookup(t, id).Some?
    ensures Lookup(t, id).Some? ==>
              (d in ApiPrelude.PrepareWishOffs(WireWishOffs(t))[id] <==> d > 0 && d in Current(t, id))
  {
    var w := WireWishOffs(t);
    if Lookup(t, id).Some? {
      var i :| 0 <= i < |t| && t[i].0 == id && t[i].1 == Lookup(t, id).value;
      assert w[i].0 == id;
      ApiPrelude.PrepareWishOffsEntry(w, i);
      WireDaysKept(t[i].1, d);
    } else {
      assert forall i :: 0 <= i < |w| ==> w[i].0 != id;
    }
  }
}
