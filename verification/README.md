# Shift creation tool — a Dafny model

This project models the core of a small shift-scheduling web tool. It has a
Python server and a React page.

The server side (`api/index.py`) covers:

- how `_solve_shift_problem` reads a request: the `_as_int` coercion, the
  `_prepare_wish_offs` filter and the night-rest rules;
- the checks it makes before solving;
- which people become candidates for each (day, shift) slot;
- every constraint it posts to the CP-SAT solver;
- how it extracts the day → shift code → staff ids table from a solver
  answer;
- how `/api/generate-shift` turns the outcome into a response.

The browser side covers:

- the month grid, wishers, highlight and click handling of
  `components/Calendar.tsx`;
- the `canWork` join/split codec and the `Number(x) || 0` fallback of
  `components/StaffEditModal.tsx`;
- the wish toggle, the staff save and the request payload of `app/page.tsx`.

The solver's search is not modelled. Its answer is a parameter of
`ApiSchedule.Generate`, and `ApiSchedule.ValidSchedule` states every
constraint the server posts. The lemmas then derive what a table extracted
from any accepted answer guarantees:

- each slot has exactly one holder;
- that holder is eligible for the slot;
- nobody works twice on one day;
- monthly bounds and consecutive-day limits hold;
- night rest is kept.

Modules:

| module | file | models |
|---|---|---|
| `Wrappers` | wrappers.dfy | `Option` / `Result` |
| `Sums` | sums.dfy | `sum(...)` over 0/1 solver variables |
| `Text` | text.dfy | whitespace sets of JavaScript `trim` and Python `str.strip`, `split`, `join`, decimal digits |
| `Json` | json.dfy | decoded JSON values; object member lookup (the last duplicate key wins, as in Python's `json`) |
| `Weekdays` | weekdays.dfy | the weekday labels shared by server and calendar |
| `ApiPrelude` | api_prelude.dfy | `_weekday_name`, `_as_int`, `_prepare_wish_offs` |
| `ApiSchedule` | api_schedule.dfy | `_solve_shift_problem` and the generate endpoint |
| `WishTable` | wish_table.dfy | the page's `wishOffs` object as ordered entries; object spread; wishers of a day |
| `CalendarGrid` | calendar_grid.dfy | `Calendar.tsx` |
| `StaffEdit` | staff_edit.dfy | `StaffEditModal.tsx` |
| `Page` | page.dfy | `page.tsx` handlers and payload |

## Model

| member | source | states |
|---|---|---|
| `Weekdays.LabelsDistinct` | api/index.py:15 | there are seven weekday labels and no two are equal |
| `ApiPrelude.WeekdayName` | api/index.py:50-53 | the label of a day is always one of the seven weekday labels, for any (also negative) weekday of day 1 |
| `ApiPrelude.WeekdayNameSameIff` | api/index.py:50-53 | two days get the same label exactly when they are a multiple of seven days apart |
| `ApiPrelude.Trunc` | api/index.py:56-60 | `int()` of a float truncates toward zero: the result is within one of the input, on the zero side |
| `ApiPrelude.ParseIntToString` | api/index.py:56-60 | `int()` reads back the decimal text of every integer |
| `ApiPrelude.PyInt` | api/index.py:56-60 | `int(value)`: an int is itself, a bool is 0/1, a float is truncated, a string is parsed; null, lists and objects raise |
| `ApiPrelude.AsInt` | api/index.py:56-60 | `_as_int` gives `int(value)` when that succeeds and the default exactly when it raises |
| `ApiPrelude.AsIntByKind` | api/index.py:56-60 | kind by kind: an int is itself, a bool is 0 or 1, a float is cut toward zero, and null, a list or an object gives the default |
| `ApiPrelude.AsIntReadsIntegers` | api/index.py:56-60 | an integer read as a JSON int, as its decimal text or as an integral float comes back as itself, whatever the default |
| `ApiPrelude.AsIntDigitlessText` | api/index.py:56-60 | text with no digit in it falls back to the default |
| `ApiPrelude.IntLike` | api/index.py:172 | `isinstance(x, int)` holds exactly for ints and bools |
| `ApiPrelude.WishDayIff` | api/index.py:69-73 | a listed value is kept as day d exactly when d > 0 and the value is the int d, the float d, or `true` for d = 1 |
| `ApiPrelude.ValidDays` | api/index.py:69-73 | every kept day is positive |
| `ApiPrelude.ValidDaysIff` | api/index.py:69-73 | day d is kept exactly when d > 0 and the list holds the int d, the float d, or `true` for d = 1; nothing bounds d by the month length |
| `ApiPrelude.PrepareWishOffs` | api/index.py:63-75 | the prepared map has exactly the staff ids of the object as keys, and every day in it is positive |
| `ApiPrelude.PrepareWishOffsEntry` | api/index.py:68-74 | the days prepared for an id are the kept days of that id's list |
| `ApiSchedule.NightRestRules` | api/index.py:96-101 | the night-rest rules are `rules.nightRest` when both are objects, and empty when `rules` is not an object, when `nightRest` is missing, or when it is not an object |
| `ApiSchedule.FirstUnstaffableShift` | api/index.py:119-145 | finds the first shift, in list order, of a day with no candidate, or confirms there is none |
| `ApiSchedule.FirstUnstaffable` | api/index.py:117-145 | finds the first slot with no candidate, scanning days in order and shifts in list order, or confirms every slot has one |
| `ApiSchedule.FirstBadRange` | api/index.py:158-165 | finds the first person whose monthly maximum is below the clamped monthly minimum, or confirms there is none |
| `ApiSchedule.Validate` | api/index.py:82-165 | a request passes exactly when days > 0, shifts and people are non-empty, every slot has a candidate and every monthly range is consistent; each error is raised exactly under its condition, in the source's order, naming the first failing slot or person |
| `ApiSchedule.LastIndex` | api/index.py:138 | the slot a repeated shift code's variable belongs to is its last occurrence in the shift list |
| `ApiSchedule.SlotHolder` | api/index.py:117-147 | in a valid answer every slot has exactly one holder; that holder can work the code, does not have the day's weekday fixed off, and did not ask for the day off |
| `ApiSchedule.OneShiftPerDay` | api/index.py:149-151 | nobody holds two slots on one day |
| `ApiSchedule.WorksIffHolds` | api/index.py:149-155 | the works variable of a person and day is 1 exactly when that person holds a slot that day |
| `ApiSchedule.WorkedDaysWithinBounds` | api/index.py:158-170 | the number of days a person works lies between the clamped monthly minimum and the monthly maximum |
| `ApiSchedule.ConsecMaxIff` | api/index.py:166-172 | a consecutive-day limit applies exactly when `consecMax` is a positive int (or `true`); a float such as 3.0 sets none |
| `ApiSchedule.WindowOffDay` | api/index.py:172-175 | a window of c + 1 days with at most c worked days has a day, returned, on which the person does not work |
| `ApiSchedule.ConsecutiveLimit` | api/index.py:172-175 | under a limit c, every run of c + 1 days inside the month has a day the person holds no slot |
| `ApiSchedule.NightRest` | api/index.py:177-185 | after a shift with r rest days, the person holds no slot on the next r days that fall inside the month |
| `ApiSchedule.HolderIdsSingle` | api/index.py:201-205 | a slot with one holder lists exactly that holder's id |
| `ApiSchedule.ScheduleKeys` | api/index.py:195-198 | the result for the first n days has exactly the keys "1" … str(n) |
| `ApiSchedule.ScheduleDays` | api/index.py:195-206 | day k's entry is the table of day k; no later day overwrites it |
| `ApiSchedule.ScheduleShape` | api/index.py:195-206 | the result has exactly the keys "1" … str(days), and each day maps exactly the requested shift codes |
| `ApiSchedule.ScheduleSlot` | api/index.py:195-206 | in the result of a valid answer every code of every day lists exactly one id, of a person eligible for that slot |
| `ApiSchedule.Generate` | api/index.py:78-208 | a failed check fails with its own error whatever the solver answers; no answer or an answer breaking a constraint gives the no-feasible-shift error; a table comes only from an answer meeting every constraint |
| `ApiSchedule.RespondStatus` | api/index.py:211-227 | a request gets a 400 exactly when it fails a check made before solving, carrying that check's reason whatever the solver answers; status "error" exactly when it passes the checks and the answer is missing or breaks a constraint; status "success" exactly when the answer meets every constraint, with that answer's extracted table |
| `WishTable.Lookup` | app/page.tsx:77 | reading a key is undefined exactly when no entry has that key; otherwise it is some entry's value |
| `WishTable.Update` | app/page.tsx:81 | after `{ ...prev, [k]: v }`, k reads as v and every other key reads as before |
| `WishTable.UpdateKeys` | app/page.tsx:81 | the spread keeps every existing key in place and appends a new key at the end |
| `WishTable.UpdateAppends` | app/page.tsx:81 | a key the object lacks is appended after all its entries |
| `WishTable.UpdateUnique` | app/page.tsx:81 | the spread keeps keys unique |
| `WishTable.UpdateSame` | app/page.tsx:81 | writing back a key's current value gives the same object |
| `WishTable.UpdateUpdate` | app/page.tsx:81 | a second write to the same key overrides the first |
| `WishTable.Wishers` | components/Calendar.tsx:55-57 | the wishers of a day: at most one id per entry of the object |
| `WishTable.WishersSingle` | components/Calendar.tsx:55-57 | a single entry contributes its id exactly when its list holds the day |
| `WishTable.WishersConcat` | components/Calendar.tsx:55-57 | the wishers of a day keep the entry order of `wishOffs` (the order line 96 joins them in): those of two joined parts are the first part's, then the second's |
| `WishTable.WishersIff` | components/Calendar.tsx:55-57 | an id is a wisher of a day exactly when an entry of that id lists the day |
| `WishTable.WishersOfKey` | components/Calendar.tsx:55-60 | with unique keys, a member is a wisher of a day exactly when their own list holds it |
| `CalendarGrid.JsRem` | components/Calendar.tsx:22 | JavaScript `%` keeps the sign of the dividend and stays below the divisor in size |
| `CalendarGrid.JsRemEuclidean` | components/Calendar.tsx:22 | JavaScript `%` equals the floored remainder for a non-negative dividend; for a negative one it is that remainder minus the divisor, or zero when both are zero |
| `CalendarGrid.LeadingEmptyCells` | components/Calendar.tsx:22 | the blank cells before day 1 number the weekday of day 1 brought into 0..6, also for negative input |
| `CalendarGrid.RoundUpToWeek` | components/Calendar.tsx:23 | `Math.ceil(a / 7) * 7` is the least multiple of 7 not below a |
| `CalendarGrid.CellCount` | components/Calendar.tsx:23-24 | the grid holds whole weeks |
| `CalendarGrid.Cells` | components/Calendar.tsx:24-27 | every day sits in exactly one cell, at its weekday column; a cell is blank exactly before day 1 and after the last day; no row is entirely after the last day |
| `CalendarGrid.WeekRowCount` | components/Calendar.tsx:23-31 | a month of 28 to 31 days takes 4 to 6 rows |
| `CalendarGrid.ColumnMatchesServerWeekday` | components/Calendar.tsx:13-27 | the column header over a day's cell is the weekday label the server gives that day |
| `CalendarGrid.Rows` | components/Calendar.tsx:29-31 | the rows are `cells.length / 7` slices of seven |
| `CalendarGrid.RowsFlattenToCells` | components/Calendar.tsx:29-31 | read in order, the rows give back exactly the cells |
| `CalendarGrid.HighlightIff` | components/Calendar.tsx:55-66 | a day shows as the selected member's wish exactly when their entry lists it, and plain exactly when no entry lists it |
| `StaffEdit.NumberOrZero` | components/StaffEditModal.tsx:48-51 | the saved number is 0 exactly when the field is not a number or is zero; otherwise it is the field's number |
| `StaffEdit.NumberOrZeroKeepsNumber` | components/StaffEditModal.tsx:48-51 | a number left unedited is saved unchanged |
| `StaffEdit.UnsignedDecimalDigits` | components/StaffEditModal.tsx:48-51 | a digit string reads as the number it denotes |
| `StaffEdit.NumberOrZeroReadsDigits` | components/StaffEditModal.tsx:48-51 | typing the digits of a whole number saves that number |
| `Text.Trim` | components/StaffEditModal.tsx:53 | trimming leaves no space at either end, is no longer than its input, and adds no character |
| `Text.TrimSlice` | components/StaffEditModal.tsx:53 | what trimming leaves is a slice of the input with only whitespace before and after it |
| `Text.Split` | components/StaffEditModal.tsx:53 | `split(',')` gives at least one piece and no piece holds a comma |
| `Text.JoinSplit` | components/StaffEditModal.tsx:53 | joining the pieces of a split with the separator gives the text back |
| `StaffEdit.CleanPieces` | components/StaffEditModal.tsx:53 | trim-and-filter never yields more pieces than it is given |
| `StaffEdit.CleanPiecesTrimmed` | components/StaffEditModal.tsx:53 | every piece kept by trim-and-filter is non-empty and trimmed |
| `StaffEdit.CleanPiecesNoComma` | components/StaffEditModal.tsx:53 | trim-and-filter of comma-free pieces brings in no comma |
| `StaffEdit.CleanPieceSource` | components/StaffEditModal.tsx:53 | every kept piece is not empty and is the trim of a piece, whose index is returned |
| `StaffEdit.CleanPieceKept` | components/StaffEditModal.tsx:53 | the trim of every piece that is not blank is kept |
| `StaffEdit.CleanPiecesMembers` | components/StaffEditModal.tsx:53 | a text is among the kept pieces exactly when it is non-empty and is the trim of some piece |
| `StaffEdit.CleanPiecesConcat` | components/StaffEditModal.tsx:53 | trim-and-filter works piece by piece, so it keeps the order of the pieces |
| `StaffEdit.CleanPiecesSingle` | components/StaffEditModal.tsx:53 | one piece is kept, trimmed, exactly when its trim is not empty |
| `StaffEdit.ParseCanWork` | components/StaffEditModal.tsx:53 | every parsed code is non-empty, trimmed and free of commas |
| `StaffEdit.ParseAtComma` | components/StaffEditModal.tsx:53 | the text before the first comma is parsed as one piece, ahead of the rest |
| `StaffEdit.ParseNoComma` | components/StaffEditModal.tsx:53 | text without a comma is parsed as a single piece |
| `StaffEdit.CleanSpacedCode` | components/StaffEditModal.tsx:53 | a well-formed code after spaces parses to itself |
| `StaffEdit.CleanBlank` | components/StaffEditModal.tsx:53 | a piece of spaces only is dropped |
| `StaffEdit.ParseJoinWithPrefix` | components/StaffEditModal.tsx:25-53 | parsing spaces followed by the ", " join of well-formed codes gives the codes back |
| `StaffEdit.ParseJoinRoundTrip` | components/StaffEditModal.tsx:23-53 | parsing the ", " join of a list gives the list back exactly when every code is non-empty, trimmed and comma-free |
| `StaffEdit.Save` | components/StaffEditModal.tsx:43-56 | the saved record keeps the id and the carried fields, and its codes are well formed |
| `StaffEdit.SaveOpenField` | components/StaffEditModal.tsx:23-26 | a number the form opened with is saved as it was; a missing or `null` one is saved as 0, so it comes back unchanged exactly when it was present |
| `StaffEdit.SaveUneditedIff` | components/StaffEditModal.tsx:23-56 | opening the editor and saving at once returns the record unchanged exactly when its codes are well formed and it carries all four numbers; each missing or `null` number comes back as 0, and the codes come back exactly when they are well formed |
| `StaffEdit.SaveEdit` | components/StaffEditModal.tsx:37-56 | for any form, an edit reaches the saved record only through the field it names, parsed as that field is |
| `StaffEdit.SaveAfterEdit` | components/StaffEditModal.tsx:37-56 | one edit changes only its own field of the saved record; the other fields come back as they were, a missing or `null` number as 0 |
| `Page.RemoveAll` | app/page.tsx:79 | the filter removes every occurrence of the day and keeps everything else as often as before |
| `Page.RemoveAbsent` | app/page.tsx:79 | filtering out a day that is not listed changes nothing |
| `Page.RemoveAllConcat` | app/page.tsx:79 | the filter distributes over concatenation |
| `Page.ToggleList` | app/page.tsx:77-80 | a listed day is filtered out of the list; an unlisted day is appended once, at the end; so the day is in the new list exactly when it was not in the old one, and every other day keeps its count |
| `Page.ToggleDay` | app/page.tsx:71-83 | with no selected member nothing changes; otherwise the selected member's list gains or loses the clicked day, and every other member's list is untouched |
| `Page.ToggleKeepsOtherDays` | app/page.tsx:76-82 | days other than the clicked one keep their counts in the selected member's list |
| `Page.ToggleTwiceRestores` | app/page.tsx:71-83 | for a member who already has an entry whose list lacks the day, two clicks on it give back the same wishes object |
| `Page.ToggleTwiceNoEntry` | app/page.tsx:71-83 | for a member with no entry yet, two clicks leave an empty list appended under their id, and every member's list reads as before |
| `Page.ToggleTwiceSameDays` | app/page.tsx:71-83 | two clicks on any day give back the same set of days for the selected member |
| `Page.ToggleUnique` | app/page.tsx:76-82 | a click keeps the wish object's keys unique |
| `Page.ToggleFlipsHighlight` | app/page.tsx:71-83 | after a click the day shows as the selected member's wish exactly when it did not before |
| `Page.ClickReachesToggle` | components/Calendar.tsx:68-72 | the calendar's guard and the page's agree: a click the calendar drops changes no wish, and a forwarded click carries its day and flips it for the selected member |
| `Page.Grid` | components/Calendar.tsx:22-27 | with a missing day count or weekday the grid has no cell; with both it has the cell count of the month |
| `Page.CalendarAsWrittenIsInert` | app/page.tsx:193-202 | with the props the page passes, the calendar draws no cell and forwards no click, for any month |
| `Page.CalendarIntendedShowsMonth` | components/Calendar.tsx:3-27 | with the props under the names the calendar reads, every day of the month has its cell, and clicking it with a member selected flips that member's wish |
| `Page.ReplaceById` | app/page.tsx:123-125 | the list keeps its length and ids; an entry with the saved id becomes the saved record and every other entry stays as it was |
| `Page.SaveStaff` | app/page.tsx:121-128 | before loading nothing happens; after, only `people` changes: it keeps its length, entries with the saved id become the saved record and the others stay; the saved record is in it exactly when its id was |
| `Page.SaveStaffIdempotent` | app/page.tsx:121-128 | saving the same record twice equals saving it once |
| `Page.SaveUnknownId` | app/page.tsx:121-128 | saving a record whose id nobody has changes nothing |
| `Page.Payload` | app/page.tsx:92 | the posted body is the loaded data with the page's wishes in place of the loaded ones |
| `Page.WireDaysKept` | app/page.tsx:92-98 | the server keeps exactly the positive days of a sent list |
| `Page.ServerReadsWishes` | app/page.tsx:92-98 | the server reads back every member the page sent, with exactly the positive days of that member's list |

## Where the page and the server disagree

The model follows what each side's code does. Several things the page
expects are never produced by the server:

- The page declares a shortage record of date, time range and count
  (app/page.tsx:35-39). It reads `result.shortages` from a successful
  answer (app/page.tsx:109) and lists the shortages (app/page.tsx:175-186).
  The server's success answer holds only `status` and `shifts`
  (api/index.py:227), so that list is always empty.
- The page's staff record declares all four numbers (app/page.tsx:8-16),
  but nothing checks the server's JSON against it. The editor saves a
  missing or `null` number as 0 (components/StaffEditModal.tsx:23-26,
  47-51). The server reads a missing `monthlyMax` as `days` but a 0 as 0
  (api/index.py:161). So opening the editor on such a record and saving
  without an edit caps that person at 0 days. If their `monthlyMin` is
  positive, the request then fails with a 400 (api/index.py:162-165).
  `StaffEdit.SaveUneditedIff` states the 0.
- `weeklyMax` is carried by the page's staff record (app/page.tsx:13),
  edited and saved by the editor (components/StaffEditModal.tsx:50) and
  sent with the payload. The server never reads it: there is no weekly
  limit.
- Every slot needs exactly one person (api/index.py:147). There is no
  headcount per slot.
- A slot without any candidate makes the request fail with a 400
  (api/index.py:142-145). A search that finds no schedule makes it fail
  with status "error" (api/index.py:192-193, 222-225).

Two things only the server's code fixes:

- The server keys its assignment variables by shift code. When a code is
  listed twice, the later slot's variable replaces the earlier one in
  that dictionary. Night rest and the extracted table therefore read the
  last slot of that code, while both slots are still filled.
- `consecMax` sets a limit only when it is a Python `int`. A float such
  as `3.0` sets none.

## Findings

| source | as written | input that shows it | evidently intended | confidence | as-written member | corrected member |
|---|---|---|---|---|---|---|
| app/page.tsx:193-202 | the page passes `daysInMonth`, `firstDayOfWeek`, `selectedStaff` and `onDayClick`, but the calendar reads `days`, `weekdayOfDay1`, `selectedStaffId` and `onSelectDate` (components/Calendar.tsx:3-21); those props are undefined, the cell count is `NaN`, `Array.from` makes no cell, and no click is forwarded. The element also lacks the props `CalendarProps` requires and passes ones it does not declare, so a type-checked `next build` rejects it; the inert calendar is what a build without type checking (such as `next dev`) renders | any loaded month, e.g. 30 days starting on a Wednesday, with a member selected | the props passed under the names the calendar declares, so the month is drawn and a click toggles the selected member's wish | high, not executed | `Page.CalendarAsWrittenIsInert` | `Page.CalendarIntendedShowsMonth` |

## Left out

- The CP-SAT search, its 30-second limit and its workers: the answer is a parameter of `ApiSchedule.Generate`.
- ApiSchedule.Generate: which table comes back for a feasible request depends on the solver, so the contract only states that it meets every constraint.
- Reading `input_data.json`, `/api/initial-data`, the FastAPI app and the browser's `fetch`: these are I/O.
- A body that is not valid JSON gets a 400 (api/index.py:214-216). A body that is valid JSON but not an object also gets a 400, from the check at api/index.py:79-80. The model starts from the fields of an object body, so neither check is modelled.
- A truthy `wishOffs` that is not an object raises `AttributeError` at api/index.py:68. This escapes both handlers, so the server answers with an internal error. The model's request holds `wishOffs` as an object's entries.
- A `wishOffs` value that is not a list is not modelled. A number or `true` raises `TypeError` at api/index.py:71, which escapes both handlers. A string is iterated character by character, and its characters are then dropped.
- Null or non-object values in three places raise an error that escapes both handlers:
  - a `shifts` or `people` field that is `null`: `list(None)` raises `TypeError` at api/index.py:86-87;
  - a person's `canWork` or `fixedOffWeekdays` that is `null`: `set(None)` raises `TypeError` at api/index.py:124-125;
  - a shift or person entry that is not an object: `.get` raises `AttributeError` at api/index.py:120 and 123.
  The model takes `shifts` and `people` as lists of objects, and `canWork` and `fixedOffWeekdays` as lists of strings.
- A string `canWork` or `fixedOffWeekdays` becomes the set of its characters at api/index.py:124-125. The model takes both as lists of strings.
- `str()` of shift codes and ids that are not strings: codes and ids are taken as strings.
- `NaN` and infinite floats are not modelled: JSON numbers are exact reals. `int()` of `NaN` raises `ValueError`. `_as_int` catches it and gives the default. At api/index.py:70-72 the same error escapes `_prepare_wish_offs` and becomes a 400. `int()` of an infinity raises `OverflowError`, which escapes both handlers.
- JavaScript numbers are modelled as exact reals and integers, not as 64-bit floats: rounding and very large values are not represented.
- CP-SAT's 64-bit integer bounds on its variables and sums are not represented: the model's integers are unbounded.
- Trim: the function's own contract states only that the result is trimmed, no longer and made of the input's characters; that it is the middle slice with whitespace around it is stated by `Text.TrimSlice`, which keeps the many proofs that use `Trim` small.
- CleanPieces: the function's own contract states only the length bound; which pieces are kept, in which order, and that they are trimmed, non-empty and comma-free is stated by `CleanPiecesMembers`, `CleanPiecesConcat`, `CleanPiecesSingle`, `CleanPiecesTrimmed` and `CleanPiecesNoComma`, for the same reason.
- JsRem: the function's own contract states the sign and size of the remainder; its exact value against the floored remainder is stated by `CalendarGrid.JsRemEuclidean`.
- ApiPrelude.ParsePyInt: does not accept digit-group underscores or non-ASCII digits, which Python's `int()` accepts.
- StaffEdit.FieldNumber: a missing field (`undefined`, whose `Number()` is `NaN`) and a `null` one (whose `Number()` is 0) share the case `Absent`, read as not-a-number. Both save as 0 after `|| 0`, so the saved record is the same.
- StaffEdit.StringToNumber: exponent, hexadecimal, binary, octal and `Infinity` spellings read as not-a-number, where JavaScript's `Number()` reads them as numbers.
- Wishers: the function's own contract states only that there is at most one id per entry. Which ids are wishers is stated by `WishersIff` and `WishersOfKey`, and their order by `WishersSingle` and `WishersConcat`.
- WishTable.UpdateKeys: JavaScript orders integer-like keys before all others. The model keeps every key in insertion order, because staff ids are names.
- The error message strings and their Japanese wording: errors are a datatype.
- The React rendering, styling, loading flags and alerts: presentation only.
- The `useEffect` that re-opens the editor when its staff changes: it computes the same form as `StaffEdit.InitForm`.
- The Calendar's `year` and `month` props: they are not read in its body.
