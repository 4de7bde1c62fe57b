/** The month grid of components/Calendar.tsx: blank cells before day 1,
    padding to whole weeks, the day number of every cell, the split into
    week rows, and the per-day wishers, highlight and click. */
module CalendarGrid {
  import opened Wrappers
  import opened WishTable
  import Weekdays
  import ApiPrelude

  /** JavaScript `a % b` for a positive divisor: the remainder takes the sign
      of `a` (truncating division). */
  function JsRem(a: int, b: int): (r: int)
    requires b > 0
    ensures a >= 0 ==> 0 <= r < b
    ensures a < 0 ==> -b < r <= 0
  {
    if a >= 0 then a % b else -((-a) % b)
  }

  /** The truncating remainder against the Euclidean one: they agree for
      a non-negative `a`, and for a negative `a` differ by `b` unless both
      are zero. */
  lemma JsRemEuclidean(a: int, b: int)
    requires b > 0
    ensures a >= 0 ==> JsRem(a, b) == a % b
    ensures a < 0 ==> JsRem(a, b) == (if a % b == 0 then 0 else a % b - b)
  {
    if a < 0 {
      NegatedRem(-a, b);
    }
  }

  /** A remainder is fixed by the quotient equation it satisfies. */
  lemma RemUnique(x: int, b: int, k: int, m: int)
    requires b > 0 && 0 <= m < b && x == b * k + m
    ensures x % b == m
  {
    var q := x / b;
    assert b * (k - q) == x % b - m;
    MulAwayFromZero(b, k - q);
  }

  /** A non-zero multiple of `b` is at least `b` away from zero. */
  lemma MulAwayFromZero(b: int, d: int)
    requires b > 0
    ensures d >= 1 ==> b * d >= b
    ensures d <= -1 ==> b * d <= -b
  {
  }

  /** The remainder of `-x` is `b` minus that of `x`, or zero with it. */
  lemma NegatedRem(x: int, b: int)
    requires b > 0
    ensures -x % b == (if x % b == 0 then 0 else b - x % b)
  {
    var q := x / b;
    var m := x % b;
    if m == 0 {
      RemUnique(-x, b, -q, 0);
    } else {
      RemUnique(-x, b, -q - 1, b - m);
    }
  }

  /** `((weekdayOfDay1 % 7) + 7) % 7`: the number of blank cells before
      day 1. It is the weekday of day 1 brought into 0..6, also for a
      negative or too large input. */
  function LeadingEmptyCells(weekdayOfDay1: int): (n: int)
    ensures 0 <= n < 7
    ensures n == weekdayOfDay1 % 7
  {
    JsRem(JsRem(weekdayOfDay1, 7) + 7, 7)
  }

  /** `Math.ceil(a / 7) * 7`: the least multiple of 7 that is at least `a`. */
  function RoundUpToWeek(a: int): (r: int)
    ensures r % 7 == 0
    ensures a <= r < a + 7
  {
    if a % 7 == 0 then a else a - a % 7 + 7
  }

  /** `totalCells`: the grid size, whole weeks covering the blanks and days. */
  function TotalCells(weekdayOfDay1: int, days: int): int {
    RoundUpToWeek(LeadingEmptyCells(weekdayOfDay1) + days)
  }

  /** The length `Array.from` gives the cell array: a negative length reads
      as zero. */
  function CellCount(weekdayOfDay1: int, days: int): (n: nat)
    ensures n % 7 == 0
    ensures LeadingEmptyCells(weekdayOfDay1) + days <= n
    ensures days >= 1 ==> n < LeadingEmptyCells(weekdayOfDay1) + days + 7
  {
    var t := TotalCells(weekdayOfDay1, days);
    if t < 0 then 0 else t
  }

  /** `cells`: cell i shows day `i - leading + 1` when that lies in
      1..days, and is blank (`None`) otherwise. Every day of the month sits
      at position `leading + day - 1` and nowhere else; the blank cells are
      the ones before day 1 and after the last day; and the grid stops at
      the week holding the last day. */
  function Cells(weekdayOfDay1: int, days: int): (cells: seq<Option<int>>)
    ensures |cells| == CellCount(weekdayOfDay1, days)
    ensures forall d :: 1 <= d <= days ==>
              0 <= DayIndex(weekdayOfDay1, d) < |cells| && cells[DayIndex(weekdayOfDay1, d)] == Some(d)
    ensures forall i :: 0 <= i < |cells| && cells[i].Some? ==>
              1 <= cells[i].value <= days && i == LeadingEmptyCells(weekdayOfDay1) + cells[i].value - 1
    ensures forall i :: 0 <= i < |cells| ==>
              (cells[i].None? <==> i < LeadingEmptyCells(weekdayOfDay1) || i >= LeadingEmptyCells(weekdayOfDay1) + days)
    ensures days >= 1 ==> |cells| - 7 < LeadingEmptyCells(weekdayOfDay1) + days
  {
    var leading := LeadingEmptyCells(weekdayOfDay1);
    var count := CellCount(weekdayOfDay1, days);
    assert leading + days <= count;
    var cells := CellRange(leading, days, count);
    CellRangeLayout(leading, days, count);
    assert forall d :: 1 <= d <= days ==> DayIndex(weekdayOfDay1, d) == leading + d - 1;
    cells
  }

  /** The layout of `CellRange` when the days fit in it. */
  lemma CellRangeLayout(leading: int, days: int, count: nat)
    requires 0 <= leading && leading + days <= count
    ensures forall d :: 1 <= d <= days ==>
              0 <= leading + d - 1 < count && CellRange(leading, days, count)[leading + d - 1] == Some(d)
    ensures forall i :: 0 <= i < count && CellRange(leading, days, count)[i].Some? ==>
              1 <= CellRange(leading, days, count)[i].value <= days
              && i == leading + CellRange(leading, days, count)[i].value - 1
    ensures forall i :: 0 <= i < count ==>
              (CellRange(leading, days, count)[i].None? <==> i < leading || i >= leading + days)
  {
    var cells := CellRange(leading, days, count);
    forall d | 1 <= d <= days
      ensures 0 <= leading + d - 1 < count && cells[leading + d - 1] == Some(d)
    {
      assert cells[leading + d - 1] == CellAt(leading, days, leading + d - 1);
    }
  }

  /** The position of day `d` in the grid. */
  function DayIndex(weekdayOfDay1: int, d: int): int {
    LeadingEmptyCells(weekdayOfDay1) + d - 1
  }

  /** `count` cells, cell i being `CellAt(leading, days, i)`. */
  function CellRange(leading: int, days: int, count: nat): (cells: seq<Option<int>>)
    ensures |cells| == count
    ensures forall i :: 0 <= i < count ==> cells[i] == CellAt(leading, days, i)
  {
    seq(count, i => CellAt(leading, days, i))
  }

  /** Cell i of the grid: `dayNumber` when it lies in 1..days. */
  function CellAt(leading: int, days: int, i: int): (c: Option<int>)
    ensures c.Some? <==> leading <= i < leading + days
    ensures c.Some? ==> c.value == i - leading + 1
  {
    var dayNumber := i - leading + 1;
    if dayNumber > 0 && dayNumber <= days then Some(dayNumber) else None
  }

  /** The grid has 4 to 6 week rows for a month of 28 to 31 days. */
  lemma WeekRowCount(weekdayOfDay1: int, days: int)
    requires 28 <= days <= 31
    ensures 4 <= CellCount(weekdayOfDay1, days) / 7 <= 6
  {
  }

  /** The weekday column of a day's cell carries the label the schedule
      server gives that day. */
  lemma ColumnMatchesServerWeekday(weekdayOfDay1: int, days: int, d: int)
    requires 1 <= d <= days
    ensures var i := LeadingEmptyCells(weekdayOfDay1) + d - 1;
            Weekdays.Labels[i % 7] == ApiPrelude.WeekdayName(weekdayOfDay1, d - 1)
  {
    var w := weekdayOfDay1;
    var i := LeadingEmptyCells(w) + d - 1;
    assert w == 7 * (w / 7) + w % 7;
    assert i == (w + d - 1) - 7 * (w / 7);
    ModShift(w + d - 1, w / 7);
  }

  lemma ModShift(a: int, q: int)
    ensures (a - 7 * q) % 7 == a % 7
  {
    var r := a - 7 * q;
    assert r == 7 * (r / 7) + r % 7;
    assert a == 7 * (r / 7 + q) + r % 7;
  }

  /** `rows`: `cells.length / 7` slices of seven consecutive cells. */
  function Rows(cells: seq<Option<int>>): (rows: seq<seq<Option<int>>>)
    ensures |rows| == |cells| / 7
    ensures forall r :: 0 <= r < |rows| ==> |rows[r]| == 7
  {
    seq(|cells| / 7, r requires 0 <= r < |cells| / 7 => cells[7 * r..7 * r + 7])
  }

  function Flatten(rows: seq<seq<Option<int>>>): seq<Option<int>> {
    if |rows| == 0 then [] else Flatten(rows[..|rows| - 1]) + rows[|rows| - 1]
  }

  /** The first n rows, put back together, are the first 7n cells. */
  lemma {:induction false} FlattenRowsPrefix(cells: seq<Option<int>>, n: nat)
    requires n <= |cells| / 7
    ensures Flatten(Rows(cells)[..n]) == cells[..7 * n]
  {
    if n > 0 {
      var rows := Rows(cells)[..n];
      assert rows[..n - 1] == Rows(cells)[..n - 1];
      FlattenRowsPrefix(cells, n - 1);
      assert cells[..7 * (n - 1)] + cells[7 * (n - 1)..7 * n] == cells[..7 * n];
    }
  }

  /** Reading the rows in order gives back every cell: the rows of a grid of
      whole weeks lose and add nothing. */
  lemma RowsFlattenToCells(cells: seq<Option<int>>)
    requires |cells| % 7 == 0
    ensures Flatten(Rows(cells)) == cells
  {
    FlattenRowsPrefix(cells, |cells| / 7);
    assert Rows(cells)[..|cells| / 7] == Rows(cells);
    assert cells[..|cells|] == cells;
  }

  /** The background of a day cell. */
  datatype Highlight = SelectedWish | OtherWish | NoWish

  /** A day is highlighted as the selected staff member's own wish when they
      are among its wishers (`selectedStaffId !== null`), otherwise as
      someone's wish when it has any wisher. */
  function CellHighlight(t: Table, selected: Option<string>, day: int): Highlight {
    var wishers := Wishers(t, day);
    if selected.Some? && selected.value in wishers then SelectedWish
    else if |wishers| > 0 then OtherWish
    else NoWish
  }

  /** The selected member's own wish wins over everybody else's; a day
      nobody asked off is plain. */
  lemma HighlightIff(t: Table, selected: Option<string>, day: int)
    ensures CellHighlight(t, selected, day) == SelectedWish <==>
              selected.Some? && exists i :: 0 <= i < |t| && t[i].0 == selected.value && day in t[i].1
    ensures CellHighlight(t, selected, day) == NoWish <==>
              forall i :: 0 <= i < |t| ==> day !in t[i].1
  {
    if selected.Some? {
      WishersIff(t, day, selected.value);
    }
    if exists i :: 0 <= i < |t| && day in t[i].1 {
      var i :| 0 <= i < |t| && day in t[i].1;
      WishersIff(t, day, t[i].0);
    }
    var wishers := Wishers(t, day);
    if |wishers| > 0 {
      WishersIff(t, day, wishers[0]);
    }
  }

  /** A JavaScript string is truthy unless it is null or empty. */
  predicate Truthy(selected: Option<string>) {
    selected.Some? && selected.value != ""
  }

  /** `handleClick`: the day goes to `onSelectDate` only while a staff
      member is selected. */
  function ClickedDay(selected: Option<string>, day: int): (r: Option<int>)
    ensures r.Some? <==> Truthy(selected)
    ensures r.Some? ==> r.value == day
  {
    if Truthy(selected) then Some(day) else None
  }
}
