/** The shift problem of the schedule server (`_solve_shift_problem` in
    api/index.py): the structural checks on the request, the eligible people
    of every (day, shift) slot, the constraints posted to the solver, and the
    extraction of the day -> shift code -> staff ids table from an answer.

    The CP-SAT search is not modelled. Its answer is a parameter: a set of
    assignment variables and a set of "works" variables that are 1.
    `ValidSchedule` states every posted constraint, and the lemmas below
    derive what each constraint guarantees about the people on the table. */
module ApiSchedule {
  import opened Wrappers
  import opened Json
  import opened Sums
  import Text
  import opened ApiPrelude

  /** One entry of `people` as the server reads it. Shift codes and ids are
      taken as strings; a missing numeric field reads as `JNull`. */
  datatype PersonIn = PersonIn(
    id: string,
    canWork: set<string>,
    fixedOffWeekdays: set<string>,
    monthlyMin: Value,
    monthlyMax: Value,
    consecMax: Value)

  /** The fields of the request body the server reads. `shifts` is the list
      of shift codes in request order; a `wishOffs` that is missing or
      falsy (`null`, `false`, `0`, `""`, `[]`, `{}`) is the empty list;
      `rules` is the raw `rules` member (null when missing). */
  datatype Request = Request(
    days: Value,
    weekdayOfDay1: Value,
    shifts: seq<string>,
    people: seq<PersonIn>,
    wishOffs: seq<(string, seq<Value>)>,
    rules: Value)

  /** The reasons the server refuses a request. The first five are the
      `ValueError`s raised before solving; the last is the `RuntimeError`
      raised when the solver finds no schedule. */
  datatype Error =
    | DaysNotPositive
    | NoShifts
    | NoPeople
    | NoCandidates(day: int, code: string)
    | MonthlyMaxBelowMin(id: string)
    | NoFeasibleShift

  /** The normalised problem: month length, weekday of day 1, shift codes,
      people, prepared wish-offs and night-rest rules. */
  datatype Problem = Problem(
    days: nat,
    weekdayOfDay1: int,
    codes: seq<string>,
    people: seq<PersonIn>,
    wishOffs: map<string, set<int>>,
    nightRest: seq<(string, Value)>)

  /** `rules.nightRest` when `rules` and it are both objects, else empty. */
  function NightRestRules(rules: Value): (r: seq<(string, Value)>)
    ensures (rules.JObj? && Get(rules.fields, "nightRest").Some? && Get(rules.fields, "nightRest").value.JObj?)
              ==> r == Get(rules.fields, "nightRest").value.fields
    ensures !rules.JObj? ==> r == []
    ensures (rules.JObj? && (Get(rules.fields, "nightRest").None? || !Get(rules.fields, "nightRest").value.JObj?))
              ==> r == []
  {
    match rules
    case JObj(fields) =>
      (match Get(fields, "nightRest")
       case Some(JObj(rest)) => rest
       case _ => [])
    case _ => []
  }

  function Max(a: int, b: int): int {
    if a < b then b else a
  }

  /** The problem a request describes, with `days` clamped at zero. */
  function Build(req: Request): Problem {
    Problem(Max(0, AsInt(req.days, 0)), AsInt(req.weekdayOfDay1, 0), req.shifts, req.people,
            PrepareWishOffs(req.wishOffs), NightRestRules(req.rules))
  }

  /** The days requested off by the person with this id (none if absent). */
  function RequestedOff(prob: Problem, id: string): set<int> {
    if id in prob.wishOffs then prob.wishOffs[id] else {}
  }

  /** Person `p` gets an assignment variable for 0-based day `d` and shift
      `j`: the code is in `canWork`, the day's weekday label is not in
      `fixedOffWeekdays`, and day `d + 1` is not requested off. */
  predicate IsCandidate(prob: Problem, p: int, d: int, j: int) {
    && 0 <= p < |prob.people| && 0 <= d < prob.days && 0 <= j < |prob.codes|
    && prob.codes[j] in prob.people[p].canWork
    && WeekdayName(prob.weekdayOfDay1, d) !in prob.people[p].fixedOffWeekdays
    && d + 1 !in RequestedOff(prob, prob.people[p].id)
  }

  predicate Staffable(prob: Problem, d: int, j: int) {
    exists p | 0 <= p < |prob.people| :: IsCandidate(prob, p, d, j)
  }

  /** Slot (d, j) is visited before slot (d2, j2): days in order, shifts in
      list order within a day. */
  predicate ScannedBefore(d: int, j: int, d2: int, j2: int) {
    d < d2 || (d == d2 && j < j2)
  }

  predicate AllStaffable(prob: Problem) {
    forall d, j | 0 <= d < prob.days && 0 <= j < |prob.codes| :: Staffable(prob, d, j)
  }

  /** `max(0, _as_int(monthlyMin, 0))`. */
  function MonthlyMin(prob: Problem, p: int): (r: int)
    requires 0 <= p < |prob.people|
    ensures r >= 0
  {
    Max(0, AsInt(prob.people[p].monthlyMin, 0))
  }

  /** `_as_int(monthlyMax, days)`. */
  function MonthlyMax(prob: Problem, p: int): int
    requires 0 <= p < |prob.people|
  {
    AsInt(prob.people[p].monthlyMax, prob.days)
  }

  predicate RangeOk(prob: Problem, p: int)
    requires 0 <= p < |prob.people|
  {
    MonthlyMin(prob, p) <= MonthlyMax(prob, p)
  }

  predicate AllRangesOk(prob: Problem) {
    forall p | 0 <= p < |prob.people| :: RangeOk(prob, p)
  }

  /** The first slot, in visiting order from day `d` on, with no candidate. */
  function FirstUnstaffableShift(prob: Problem, d: nat, j: nat): (r: Option<nat>)
    requires d < prob.days && j <= |prob.codes|
    ensures r.Some? ==> j <= r.value < |prob.codes| && !Staffable(prob, d, r.value)
                        && forall k :: j <= k < r.value ==> Staffable(prob, d, k)
    ensures r.None? ==> forall k :: j <= k < |prob.codes| ==> Staffable(prob, d, k)
    decreases |prob.codes| - j
  {
    if j == |prob.codes| then None
    else if !Staffable(prob, d, j) then Some(j)
    else FirstUnstaffableShift(prob, d, j + 1)
  }

  function FirstUnstaffable(prob: Problem, d: nat): (r: Option<(nat, nat)>)
    requires d <= prob.days
    ensures r.Some? ==> d <= r.value.0 < prob.days && r.value.1 < |prob.codes|
                        && !Staffable(prob, r.value.0, r.value.1)
                        && forall d2, j2 ::
                             (d <= d2 && 0 <= j2 < |prob.codes| && ScannedBefore(d2, j2, r.value.0, r.value.1))
                             ==> Staffable(prob, d2, j2)
    ensures r.None? ==> forall d2, j2 :: d <= d2 < prob.days && 0 <= j2 < |prob.codes| ==> Staffable(prob, d2, j2)
    decreases prob.days - d
  {
    if d == prob.days then None
    else
      match FirstUnstaffableShift(prob, d, 0)
      case Some(j) => Some((d, j))
      case None => FirstUnstaffable(prob, d + 1)
  }

  /** The first person, in list order from `p` on, whose monthly maximum is
      below the monthly minimum. */
  function FirstBadRange(prob: Problem, p: nat): (r: Option<nat>)
    requires p <= |prob.people|
    ensures r.Some? ==> p <= r.value < |prob.people| && !RangeOk(prob, r.value)
                        && forall q :: p <= q < r.value ==> RangeOk(prob, q)
    ensures r.None? ==> forall q :: p <= q < |prob.people| ==> RangeOk(prob, q)
    decreases |prob.people| - p
  {
    if p == |prob.people| then None
    else if !RangeOk(prob, p) then Some(p)
    else FirstBadRange(prob, p + 1)
  }

  /** The checks `_solve_shift_problem` makes before solving, in its order:
      a positive month length, a shift list, a people list, a candidate for
      every slot (days in order, shifts in list order), and a monthly
      maximum not below the clamped minimum for every person. */
  function Validate(req: Request): (r: Result<Problem, Error>)
    ensures r.Success? <==>
              AsInt(req.days, 0) > 0 && |req.shifts| > 0 && |req.people| > 0
              && AllStaffable(Build(req)) && AllRangesOk(Build(req))
    ensures r.Success? ==> r.value == Build(req) && r.value.days == AsInt(req.days, 0)
    ensures r == Failure(DaysNotPositive) <==> AsInt(req.days, 0) <= 0
    ensures r == Failure(NoShifts) <==> AsInt(req.days, 0) > 0 && |req.shifts| == 0
    ensures r == Failure(NoPeople) <==> AsInt(req.days, 0) > 0 && |req.shifts| > 0 && |req.people| == 0
    ensures r.Failure? && r.error.NoCandidates? ==>
              var prob := Build(req);
              && 1 <= r.error.day <= prob.days
              && (exists j :: 0 <= j < |prob.codes| && prob.codes[j] == r.error.code
                   && !Staffable(prob, r.error.day - 1, j)
                   && forall d2, j2 ::
                        (0 <= d2 && 0 <= j2 < |prob.codes| && ScannedBefore(d2, j2, r.error.day - 1, j))
                        ==> Staffable(prob, d2, j2))
    ensures r.Failure? && r.error.MonthlyMaxBelowMin? ==>
              var prob := Build(req);
              && AllStaffable(prob)
              && exists p :: 0 <= p < |prob.people| && prob.people[p].id == r.error.id && !RangeOk(prob, p)
                   && forall q :: 0 <= q < p ==> RangeOk(prob, q)
    ensures r.Failure? ==> !r.error.NoFeasibleShift?
  {
    var days := AsInt(req.days, 0);
    if days <= 0 then Failure(DaysNotPositive)
    else if |req.shifts| == 0 then Failure(NoShifts)
    else if |req.people| == 0 then Failure(NoPeople)
    else
      var prob := Build(req);
      match FirstUnstaffable(prob, 0)
      case Some((d, j)) =>
        assert !AllStaffable(prob);
        Failure(NoCandidates(d + 1, prob.codes[j]))
      case None =>
        match FirstBadRange(prob, 0)
        case Some(p) =>
          assert !AllRangesOk(prob);
          Failure(MonthlyMaxBelowMin(prob.people[p].id))
        case None => Success(prob)
  }

  /** A solver variable `assign_{person}_{day}_{shift}`. */
  datatype Var = Var(person: int, day: int, shift: int)

  /** The solver's answer: the assignment variables and the
      `works_{person}_{day}` variables that are 1. */
  datatype Solution = Solution(assign: set<Var>, works: set<(int, int)>)

  /** The assignment variable of (p, d, j) exists and is 1. */
  predicate Holds(prob: Problem, sol: Solution, p: int, d: int, j: int) {
    IsCandidate(prob, p, d, j) && Var(p, d, j) in sol.assign
  }

  /** `candidates` of slot (d, j), as 0/1 values over all people. */
  function SlotVars(prob: Problem, sol: Solution, d: int, j: int): seq<bool> {
    seq(|prob.people|, p => Holds(prob, sol, p, d, j))
  }

  /** `per_person_day[(p, d)]`, as 0/1 values over all shifts. */
  function PersonDayVars(prob: Problem, sol: Solution, p: int, d: int): seq<bool> {
    seq(|prob.codes|, j => Holds(prob, sol, p, d, j))
  }

  /** `day_vars` of person `p`: the works variables of the month. */
  function DayVars(prob: Problem, sol: Solution, p: int): seq<bool> {
    seq(prob.days, d => (p, d) in sol.works)
  }

  /** `day_vars[start : start + c + 1]`, a window of c + 1 days. */
  function ConsecWindow(prob: Problem, sol: Solution, p: int, start: int, c: int): seq<bool>
    requires 0 <= start && 0 <= c && start + c + 1 <= prob.days
  {
    DayVars(prob, sol, p)[start..start + c + 1]
  }

  /** The consecutive-day limit: `consecMax` when it is a Python `int`
      (a `bool` included) and positive, else no limit. */
  function ConsecMax(person: PersonIn): Option<int> {
    match IntLike(person.consecMax)
    case Some(c) => if c > 0 then Some(c) else None
    case None => None
  }

  /** A limit applies exactly to a positive integer (or `true`, read as 1);
      a float such as 3.0, a string or null sets no limit. */
  lemma ConsecMaxIff(person: PersonIn, c: int)
    ensures ConsecMax(person) == Some(c) <==>
              c > 0 && (person.consecMax == JInt(c) || (c == 1 && person.consecMax == JBool(true)))
  {
  }

  /** The rest days after shift `code`: `nightRest[code]` when it is a
      Python `int` and positive, else none. */
  function RestDays(prob: Problem, code: string): Option<int> {
    match Get(prob.nightRest, code)
    case Some(v) =>
      (match IntLike(v)
       case Some(r) => if r > 0 then Some(r) else None
       case None => None)
    case None => None
  }

  /** The slot index of the last shift with this code. The server keys its
      assignment variables by code, so for a code listed twice the later
      slot's variable is the one night rest and the result read. */
  function LastIndex(codes: seq<string>, c: string): (j: int)
    requires c in codes
    ensures 0 <= j < |codes| && codes[j] == c
    ensures forall k :: j < k < |codes| ==> codes[k] != c
  {
    if codes[|codes| - 1] == c then |codes| - 1 else LastIndex(codes[..|codes| - 1], c)
  }

  /** `sum(candidates) == 1` for every slot. */
  predicate SlotsFilled(prob: Problem, sol: Solution) {
    forall d, j | 0 <= d < prob.days && 0 <= j < |prob.codes| :: Sum(SlotVars(prob, sol, d, j)) == 1
  }

  /** `sum(vars_for_day) <= 1`, and that sum equals `works` (which is 0
      when the person has no variable that day). */
  predicate DaysLinked(prob: Problem, sol: Solution) {
    forall p, d | 0 <= p < |prob.people| && 0 <= d < prob.days ::
      Sum(PersonDayVars(prob, sol, p, d)) <= 1
      && Sum(PersonDayVars(prob, sol, p, d)) == (if (p, d) in sol.works then 1 else 0)
  }

  /** `monthly_min <= sum(day_vars) <= monthly_max`. */
  predicate MonthlyBounded(prob: Problem, sol: Solution) {
    forall p | 0 <= p < |prob.people| :: MonthlyMin(prob, p) <= Sum(DayVars(prob, sol, p)) <= MonthlyMax(prob, p)
  }

  /** Every window of `consecMax + 1` days holds at most `consecMax`
      worked days, for people with a limit. */
  predicate ConsecBounded(prob: Problem, sol: Solution) {
    forall p, c, start | 0 <= p < |prob.people| && 0 <= c <= prob.days && ConsecMax(prob.people[p]) == Some(c)
                         && 0 <= start && start + c + 1 <= prob.days ::
      Sum(ConsecWindow(prob, sol, p, start, c)) <= c
  }

  /** `var + works[p, e] <= 1` for the e in d+1 .. d+r inside the month,
      where var is the (last) variable of a code with r rest days. */
  predicate NightRested(prob: Problem, sol: Solution) {
    forall p, d, j | 0 <= p < |prob.people| && 0 <= d < prob.days && 0 <= j < |prob.codes|
                     && Holds(prob, sol, p, d, j) && j == LastIndex(prob.codes, prob.codes[j]) ::
      match RestDays(prob, prob.codes[j])
      case Some(r) => forall e | d < e <= d + r && e < prob.days :: (p, e) !in sol.works
      case None => true
  }

  /** Every constraint `_solve_shift_problem` posts, read on an answer. */
  predicate ValidSchedule(prob: Problem, sol: Solution) {
    && SlotsFilled(prob, sol)
    && DaysLinked(prob, sol)
    && MonthlyBounded(prob, sol)
    && ConsecBounded(prob, sol)
    && NightRested(prob, sol)
  }

  /** Every slot of a valid answer has exactly one holder, and that holder
      is a candidate: the code is in their `canWork`, the weekday is not one
      of their fixed days off, and the day is not one they asked off. */
  lemma SlotHolder(prob: Problem, sol: Solution, d: int, j: int) returns (p: int)
    requires ValidSchedule(prob, sol)
    requires 0 <= d < prob.days && 0 <= j < |prob.codes|
    ensures 0 <= p < |prob.people| && Holds(prob, sol, p, d, j)
    ensures prob.codes[j] in prob.people[p].canWork
    ensures WeekdayName(prob.weekdayOfDay1, d) !in prob.people[p].fixedOffWeekdays
    ensures d + 1 !in RequestedOff(prob, prob.people[p].id)
    ensures forall q :: Holds(prob, sol, q, d, j) ==> q == p
  {
    var vars := SlotVars(prob, sol, d, j);
    var i := SumOneUnique(vars);
    p := i;
    forall q | Holds(prob, sol, q, d, j)
      ensures q == p
    {
      assert vars[q];
    }
  }

  /** Nobody holds two shifts on the same day, even two slots that share a
      code. */
  lemma OneShiftPerDay(prob: Problem, sol: Solution, p: int, d: int, j1: int, j2: int)
    requires ValidSchedule(prob, sol)
    requires Holds(prob, sol, p, d, j1) && Holds(prob, sol, p, d, j2)
    ensures j1 == j2
  {
    var vars := PersonDayVars(prob, sol, p, d);
    assert vars[j1] && vars[j2];
    SumAtMostOne(vars, j1, j2);
  }

  /** `works[p, d]` is 1 exactly when p holds some slot that day. */
  lemma WorksIffHolds(prob: Problem, sol: Solution, p: int, d: int)
    requires ValidSchedule(prob, sol)
    requires 0 <= p < |prob.people| && 0 <= d < prob.days
    ensures (p, d) in sol.works <==> exists j :: 0 <= j < |prob.codes| && Holds(prob, sol, p, d, j)
  {
    var vars := PersonDayVars(prob, sol, p, d);
    SumZeroIff(vars);
    if exists j :: 0 <= j < |prob.codes| && Holds(prob, sol, p, d, j) {
      var j :| 0 <= j < |prob.codes| && Holds(prob, sol, p, d, j);
      assert vars[j];
    }
  }

  /** Whether p holds some slot on day d. */
  predicate WorksOn(prob: Problem, sol: Solution, p: int, d: int) {
    exists j | 0 <= j < |prob.codes| :: Holds(prob, sol, p, d, j)
  }

  /** The number of days of the month on which p holds some slot. */
  function WorkedDays(prob: Problem, sol: Solution, p: int): nat {
    Sum(seq(prob.days, d => WorksOn(prob, sol, p, d)))
  }

  /** The days a person actually works number at least the clamped monthly
      minimum and at most the monthly maximum. */
  lemma WorkedDaysWithinBounds(prob: Problem, sol: Solution, p: int)
    requires ValidSchedule(prob, sol)
    requires 0 <= p < |prob.people|
    ensures MonthlyMin(prob, p) <= WorkedDays(prob, sol, p) <= MonthlyMax(prob, p)
    ensures MonthlyMin(prob, p) >= 0
  {
    forall d | 0 <= d < prob.days
      ensures WorksOn(prob, sol, p, d) == ((p, d) in sol.works)
    {
      WorksIffHolds(prob, sol, p, d);
    }
    assert seq(prob.days, d => WorksOn(prob, sol, p, d)) == DayVars(prob, sol, p);
  }

  /** With a consecutive-day limit c, every run of c + 1 consecutive days
      of the month contains a day on which p holds no slot. */
  lemma ConsecutiveLimit(prob: Problem, sol: Solution, p: int, c: int, start: int) returns (off: int)
    requires ValidSchedule(prob, sol)
    requires 0 <= p < |prob.people| && ConsecMax(prob.people[p]) == Some(c)
    requires 0 <= start && start + c + 1 <= prob.days
    ensures start <= off <= start + c
    ensures forall j :: !Holds(prob, sol, p, off, j)
  {
    WindowBounded(prob, sol, p, c, start);
    off := WindowOffDay(prob, sol, p, start, c);
    WorksIffHolds(prob, sol, p, off);
  }

  /** The window constraint, read off for one person and one window. */
  lemma WindowBounded(prob: Problem, sol: Solution, p: int, c: int, start: int)
    requires ConsecBounded(prob, sol)
    requires 0 <= p < |prob.people| && ConsecMax(prob.people[p]) == Some(c)
    requires 0 <= start && start + c + 1 <= prob.days
    ensures Sum(ConsecWindow(prob, sol, p, start, c)) <= c
  {
  }

  /** A window of c + 1 days with at most c worked days has a day off. */
  lemma WindowOffDay(prob: Problem, sol: Solution, p: int, start: int, c: int) returns (off: int)
    requires 0 <= start && 0 <= c && start + c + 1 <= prob.days
    requires Sum(ConsecWindow(prob, sol, p, start, c)) <= c
    ensures start <= off <= start + c && (p, off) !in sol.works
  {
    var w := ConsecWindow(prob, sol, p, start, c);
    var i := SumBelowLength(w);
    off := start + i;
    assert w[i] == DayVars(prob, sol, p)[off];
  }

  /** After holding the (last) slot of a code with r rest days on day d,
      p holds no slot on days d+1 .. d+r that fall inside the month. */
  lemma NightRest(prob: Problem, sol: Solution, p: int, d: int, j: int, r: int, e: int)
    requires ValidSchedule(prob, sol)
    requires Holds(prob, sol, p, d, j) && j == LastIndex(prob.codes, prob.codes[j])
    requires RestDays(prob, prob.codes[j]) == Some(r)
    requires d < e <= d + r && e < prob.days
    ensures forall j2 :: !Holds(prob, sol, p, e, j2)
  {
    assert (p, e) !in sol.works;
    WorksIffHolds(prob, sol, p, e);
  }

  /** The ids of people, among the first n, whose variable for slot (d, j)
      exists and is 1, in `people` order. */
  function HolderIds(prob: Problem, sol: Solution, d: int, j: int, n: nat): seq<string>
    requires n <= |prob.people|
  {
    if n == 0 then []
    else HolderIds(prob, sol, d, j, n - 1) + (if Holds(prob, sol, n - 1, d, j) then [prob.people[n - 1].id] else [])
  }

  /** A slot with a single holder lists exactly that holder's id. */
  lemma {:induction false} HolderIdsSingle(prob: Problem, sol: Solution, d: int, j: int, p: int, n: nat)
    requires n <= |prob.people| && 0 <= p < |prob.people| && Holds(prob, sol, p, d, j)
    requires forall q :: Holds(prob, sol, q, d, j) ==> q == p
    ensures HolderIds(prob, sol, d, j, n) == if n <= p then [] else [prob.people[p].id]
  {
    if n > 0 {
      HolderIdsSingle(prob, sol, d, j, p, n - 1);
    }
  }

  /** `result[str(d + 1)]`: every code mapped to its holders' ids. */
  function DayTable(prob: Problem, sol: Solution, d: int): map<string, seq<string>> {
    map c | c in prob.codes :: HolderIds(prob, sol, d, LastIndex(prob.codes, c), |prob.people|)
  }

  /** The result for the first n days, keyed by the day number as text. */
  function Schedule(prob: Problem, sol: Solution, n: nat): map<string, map<string, seq<string>>>
    requires n <= prob.days
  {
    if n == 0 then map[]
    else Schedule(prob, sol, n - 1)[Text.NatToString(n) := DayTable(prob, sol, n - 1)]
  }

  /** `key` is the text of one of the day numbers 1 .. n. */
  predicate IsDayKey(key: string, n: nat) {
    exists k :: 1 <= k <= n && key == Text.NatToString(k)
  }

  /** The result for the first n days is keyed by "1" .. str(n). */
  lemma {:induction false} ScheduleKeys(prob: Problem, sol: Solution, n: nat)
    requires n <= prob.days
    ensures forall k :: 1 <= k <= n ==> Text.NatToString(k) in Schedule(prob, sol, n)
    ensures forall key :: key in Schedule(prob, sol, n) ==> IsDayKey(key, n)
  {
    if n > 0 {
      ScheduleKeys(prob, sol, n - 1);
      forall key | key in Schedule(prob, sol, n)
        ensures IsDayKey(key, n)
      {
        if key == Text.NatToString(n) {
          assert 1 <= n <= n && key == Text.NatToString(n);
        } else {
          assert key in Schedule(prob, sol, n - 1);
          var k :| 1 <= k <= n - 1 && key == Text.NatToString(k);
          assert 1 <= k <= n && key == Text.NatToString(k);
        }
      }
    }
  }

  /** Day k's entry is the table of 0-based day k - 1: a later day never
      overwrites an earlier one, since day numbers print differently. */
  lemma {:induction false} ScheduleDays(prob: Problem, sol: Solution, n: nat)
    requires n <= prob.days
    ensures forall k :: 1 <= k <= n ==>
              Text.NatToString(k) in Schedule(prob, sol, n)
              && Schedule(prob, sol, n)[Text.NatToString(k)] == DayTable(prob, sol, k - 1)
  {
    if n > 0 {
      ScheduleDays(prob, sol, n - 1);
      var prev := Schedule(prob, sol, n - 1);
      var now := Schedule(prob, sol, n);
      assert now == prev[Text.NatToString(n) := DayTable(prob, sol, n - 1)];
      forall k | 1 <= k <= n
        ensures Text.NatToString(k) in now && now[Text.NatToString(k)] == DayTable(prob, sol, k - 1)
      {
        if k < n {
          Text.NatToStringDistinct(k, n);
          assert now[Text.NatToString(k)] == prev[Text.NatToString(k)];
        }
      }
    }
  }

  /** The result has exactly the keys "1" .. str(days); day k's entry maps
      every shift code of the request, and nothing else. */
  lemma ScheduleShape(prob: Problem, sol: Solution, n: nat)
    requires n <= prob.days
    ensures forall key :: key in Schedule(prob, sol, n) <==> IsDayKey(key, n)
    ensures forall k :: 1 <= k <= n ==>
              Text.NatToString(k) in Schedule(prob, sol, n)
              && Schedule(prob, sol, n)[Text.NatToString(k)] == DayTable(prob, sol, k - 1)
              && Schedule(prob, sol, n)[Text.NatToString(k)].Keys == set c | c in prob.codes
  {
    ScheduleKeys(prob, sol, n);
    ScheduleDays(prob, sol, n);
  }

  /** In the extracted result of a valid answer, every code of every day
      lists exactly one id, of a person eligible for that slot. */
  lemma ScheduleSlot(prob: Problem, sol: Solution, day: int, c: string) returns (p: int)
    requires ValidSchedule(prob, sol)
    requires 1 <= day <= prob.days && c in prob.codes
    ensures 0 <= p < |prob.people|
    ensures Text.NatToString(day) in Schedule(prob, sol, prob.days)
    ensures c in Schedule(prob, sol, prob.days)[Text.NatToString(day)]
    ensures Schedule(prob, sol, prob.days)[Text.NatToString(day)][c] == [prob.people[p].id]
    ensures c in prob.people[p].canWork
    ensures WeekdayName(prob.weekdayOfDay1, day - 1) !in prob.people[p].fixedOffWeekdays
    ensures day !in RequestedOff(prob, prob.people[p].id)
  {
    ScheduleShape(prob, sol, prob.days);
    var j := LastIndex(prob.codes, c);
    p := SlotHolder(prob, sol, day - 1, j);
    HolderIdsSingle(prob, sol, day - 1, j, p, |prob.people|);
  }

  /** `_solve_shift_problem` with the solver's outcome as a parameter:
      `None` when CP-SAT reports neither OPTIMAL nor FEASIBLE. A structurally
      invalid request fails with its check's error whatever the solver does;
      a table comes back only from an answer meeting every posted
      constraint. */
  function Generate(req: Request, answer: Option<Solution>): (r: Result<map<string, map<string, seq<string>>>, Error>)
    ensures Validate(req).Failure? ==> r == Failure(Validate(req).error)
    ensures (Validate(req).Success? && (answer.None? || !ValidSchedule(Validate(req).value, answer.value)))
              ==> r == Failure(NoFeasibleShift)
    ensures r.Success? ==> Validate(req).Success? && answer.Some? && ValidSchedule(Validate(req).value, answer.value)
                           && r.value == Schedule(Validate(req).value, answer.value, Validate(req).value.days)
  {
    var prob :- Validate(req);
    match answer
    case Some(sol) =>
      if ValidSchedule(prob, sol) then Success(Schedule(prob, sol, prob.days)) else Failure(NoFeasibleShift)
    case None => Failure(NoFeasibleShift)
  }

  /** What `/api/generate-shift` answers for a decoded body. */
  datatype Response =
    | BadRequest(error: Error)
    | SolveFailed
    | Shifts(table: map<string, map<string, seq<string>>>)

  /** The handler turns every check that fails before solving into an HTTP
      400 with the check's reason, a failed search into a 200 with status
      "error", and a table into a 200 with status "success". */
  function Respond(r: Result<map<string, map<string, seq<string>>>, Error>): (resp: Response)
    ensures resp.BadRequest? <==> r.Failure? && !r.error.NoFeasibleShift?
    ensures resp.BadRequest? ==> resp.error == r.error
    ensures resp.SolveFailed? <==> r == Failure(NoFeasibleShift)
    ensures resp.Shifts? <==> r.Success?
    ensures resp.Shifts? ==> resp.table == r.value
  {
    match r
    case Success(table) => Shifts(table)
    case Failure(e) => if e.NoFeasibleShift? then SolveFailed else BadRequest(e)
  }

  /** A request gets a 400 exactly when it fails a check made before
      solving, with that check's reason and whatever the solver would have
      answered; a checked request whose answer is missing or breaks a
      posted constraint gets status "error"; and a table comes only from
      an answer that meets every posted constraint, and is that answer's
      extraction. */
  lemma RespondStatus(req: Request, answer: Option<Solution>)
    ensures Respond(Generate(req, answer)).BadRequest? <==> Validate(req).Failure?
    ensures Respond(Generate(req, answer)).BadRequest? ==> Respond(Generate(req, answer)).error == Validate(req).error
    ensures Respond(Generate(req, answer)).SolveFailed? <==>
              Validate(req).Success? && (answer.None? || !ValidSchedule(Validate(req).value, answer.value))
    ensures Respond(Generate(req, answer)).Shifts? <==>
              Validate(req).Success? && answer.Some? && ValidSchedule(Validate(req).value, answer.value)
    ensures Respond(Generate(req, answer)).Shifts? ==>
              Respond(Generate(req, answer)).table == Schedule(Validate(req).value, answer.value, Validate(req).value.days)
  {
  }
}
