/** The pure helpers of the schedule server (api/index.py): the weekday label
    of a day, the lenient integer coercion `_as_int`, and the normalisation
    of requested days off `_prepare_wish_offs`. */
module ApiPrelude {
  import opened Wrappers
  import opened Json
  import Text
  import Weekdays

  /** `_weekday_name`: the label of 0-based day `dayIndex` when day 1 falls on
      weekday `weekdayOfDay1` (0 = Sunday). Python's `%` is floored, which
      for the positive divisor 7 agrees with Dafny's Euclidean `%`, so any
      integer input, negative ones included, lands on a label. */
  function WeekdayName(weekdayOfDay1: int, dayIndex: int): (name: string)
    ensures name in Weekdays.Labels
  {
    Weekdays.Labels[(weekdayOfDay1 + dayIndex) % |Weekdays.Labels|]
  }

  /** Two days get the same label exactly when they are a whole number of
      weeks apart: the labels repeat with period 7 and no shorter one. */
  lemma WeekdayNameSameIff(weekdayOfDay1: int, d1: int, d2: int)
    ensures WeekdayName(weekdayOfDay1, d1) == WeekdayName(weekdayOfDay1, d2) <==> (d1 - d2) % 7 == 0
  {
    Weekdays.LabelsDistinct();
    var a, b := weekdayOfDay1 + d1, weekdayOfDay1 + d2;
    assert a == 7 * (a / 7) + a % 7;
    assert b == 7 * (b / 7) + b % 7;
    assert d1 - d2 == 7 * (a / 7 - b / 7) + (a % 7 - b % 7);
    if a % 7 == b % 7 {
      assert d1 - d2 == 7 * (a / 7 - b / 7);
    } else {
      assert -7 < a % 7 - b % 7 < 7;
      if (d1 - d2) % 7 == 0 {
        assert false;
      }
    }
  }

  /** Python `int(x)` of a float: truncation toward zero. */
  function Trunc(x: real): (t: int)
    ensures x >= 0.0 ==> t >= 0 && t as real <= x < t as real + 1.0
    ensures x < 0.0 ==> t <= 0 && t as real - 1.0 < x <= t as real
  {
    if x >= 0.0 then x.Floor else -((-x).Floor)
  }

  /** Python `int(s)` of a string: surrounding whitespace, an optional sign,
      then one or more ASCII digits; anything else raises `ValueError`
      (here `None`). */
  function ParsePyInt(s: string): (r: Option<int>)
  {
    var t := Text.Trim(s, Text.Py);
    if |t| > 0 && (t[0] == '+' || t[0] == '-') then
      var body := t[1..];
      if |body| > 0 && Text.AllDigits(body) then
        Some(if t[0] == '-' then -(Text.DigitsValue(body) as int) else Text.DigitsValue(body))
      else None
    else if |t| > 0 && Text.AllDigits(t) then Some(Text.DigitsValue(t))
    else None
  }

  /** Python `str(i)` of an integer. */
  function IntToString(i: int): (s: string)
    ensures |s| > 0
  {
    if i < 0 then "-" + Text.NatToString(-i) else Text.NatToString(i)
  }

  /** Python's `int` reads back what `str` wrote, for every integer. */
  lemma ParseIntToString(i: int)
    ensures ParsePyInt(IntToString(i)) == Some(i)
  {
    var s := IntToString(i);
    var digits := Text.NatToString(if i < 0 then -i else i);
    Text.NatToStringRoundTrip(if i < 0 then -i else i);
    assert !Text.IsSpace(Text.Py, digits[|digits| - 1]);
    if i < 0 {
      assert s[1..] == digits;
      assert Text.Trimmed(s, Text.Py);
    } else {
      assert Text.Trimmed(s, Text.Py);
    }
    Text.TrimOfTrimmed(s, Text.Py);
  }

  /** Python `int(value)` on a decoded JSON value; `None` stands for the
      `TypeError` or `ValueError` it raises. A `bool` is an `int` in Python. */
  function PyInt(v: Value): (r: Option<int>)
    ensures v.JInt? ==> r == Some(v.i)
    ensures v.JBool? ==> r == Some(if v.b then 1 else 0)
    ensures v.JFloat? ==> r == Some(Trunc(v.x))
    ensures v.JStr? ==> r == ParsePyInt(v.s)
    ensures v.JNull? || v.JArr? || v.JObj? ==> r.None?
  {
    match v
    case JInt(i) => Some(i)
    case JBool(b) => Some(if b then 1 else 0)
    case JFloat(x) => Some(Trunc(x))
    case JStr(s) => ParsePyInt(s)
    case _ => None
  }

  /** `_as_int`: `int(value)`, or `default` when that raises. */
  function AsInt(v: Value, default: int): (r: int)
    ensures PyInt(v).Some? ==> r == PyInt(v).value
    ensures PyInt(v).None? ==> r == default
  {
    PyInt(v).GetOr(default)
  }

  /** `_as_int` kind by kind: an integer is itself, a boolean is 0 or 1, a
      float is cut toward zero, and null, a list or an object is the
      default. */
  lemma AsIntByKind(v: Value, default: int)
    ensures v.JInt? ==> AsInt(v, default) == v.i
    ensures v.JBool? ==> AsInt(v, default) == (if v.b then 1 else 0)
    ensures v.JFloat? ==> AsInt(v, default) == Trunc(v.x)
    ensures v.JNull? || v.JArr? || v.JObj? ==> AsInt(v, default) == default
  {
  }

  /** An integer, its decimal text and the float of the same value all come
      back as that integer, whatever the default. */
  lemma AsIntReadsIntegers(i: int, default: int)
    ensures AsInt(JInt(i), default) == i
    ensures AsInt(JStr(IntToString(i)), default) == i
    ensures AsInt(JFloat(i as real), default) == i
  {
    ParseIntToString(i);
  }

  /** Text without a single digit (blank text among it) gives the default. */
  lemma AsIntDigitlessText(s: string, default: int)
    requires forall i :: 0 <= i < |s| ==> !Text.IsDigit(s[i])
    ensures AsInt(JStr(s), default) == default
  {
    var t := Text.Trim(s, Text.Py);
    if |t| > 0 && (t[0] == '+' || t[0] == '-') {
      if |t| > 1 {
        assert t[1] in s;
        assert t[1..][0] == t[1];
        assert !Text.AllDigits(t[1..]);
      }
    } else if |t| > 0 {
      assert t[0] in s;
      assert !Text.AllDigits(t);
    }
    assert ParsePyInt(s).None?;
    assert PyInt(JStr(s)).None?;
  }

  /** `isinstance(v, int)`; `bool` is a subclass of `int` in Python. */
  function IntLike(v: Value): (r: Option<int>)
    ensures r.Some? <==> v.JInt? || v.JBool?
    ensures v.JInt? ==> r == Some(v.i)
  {
    match v
    case JInt(i) => Some(i)
    case JBool(b) => Some(if b then 1 else 0)
    case _ => None
  }

  /** The filter `_prepare_wish_offs` applies to one listed day:
      `isinstance(day, (int, float)) and int(day) == day and int(day) > 0`,
      giving `int(day)` when it holds. */
  function WishDay(v: Value): Option<int> {
    match v
    case JInt(i) => if i > 0 then Some(i) else None
    case JBool(b) => if b then Some(1) else None
    case JFloat(x) => if Trunc(x) as real == x && Trunc(x) > 0 then Some(Trunc(x)) else None
    case _ => None
  }

  /** A listed value is kept as day `d` exactly when it is the positive
      integral number `d` (as an int, a float, or `True` for 1). */
  lemma WishDayIff(v: Value, d: int)
    ensures WishDay(v) == Some(d) <==>
              d > 0 && (v == JInt(d) || v == JFloat(d as real) || (d == 1 && v == JBool(true)))
  {
  }

  /** The set of kept days of one staff member's list. */
  function ValidDays(vs: seq<Value>): (r: set<int>)
    ensures forall d :: d in r ==> d > 0
  {
    set k | 0 <= k < |vs| && WishDay(vs[k]).Some? :: WishDay(vs[k]).value
  }

  /** A day is kept exactly when some listed value is that positive integral
      number; there is no upper bound against the month length. */
  lemma ValidDaysIff(vs: seq<Value>, d: int)
    ensures d in ValidDays(vs) <==>
              d > 0 && (JInt(d) in vs || JFloat(d as real) in vs || (d == 1 && JBool(true) in vs))
  {
    if d in ValidDays(vs) {
      var k :| 0 <= k < |vs| && WishDay(vs[k]).Some? && WishDay(vs[k]).value == d;
      WishDayIff(vs[k], d);
    }
    if d > 0 && JInt(d) in vs {
      var k :| 0 <= k < |vs| && vs[k] == JInt(d);
      assert WishDay(vs[k]) == Some(d);
    }
    if d > 0 && JFloat(d as real) in vs {
      var k :| 0 <= k < |vs| && vs[k] == JFloat(d as real);
      WishDayIff(vs[k], d);
    }
    if d == 1 && JBool(true) in vs {
      var k :| 0 <= k < |vs| && vs[k] == JBool(true);
      assert WishDay(vs[k]) == Some(1);
    }
  }

  /** `_prepare_wish_offs`: one entry per staff id of the decoded object
      (a missing or empty object gives no entry), each holding the kept days
      of that id's list. */
  function PrepareWishOffs(entries: seq<(string, seq<Value>)>): (m: map<string, set<int>>)
    ensures m.Keys == set i | 0 <= i < |entries| :: entries[i].0
    ensures forall id :: id in m ==> forall d :: d in m[id] ==> d > 0
  {
    if |entries| == 0 then map[]
    else
      var last := entries[|entries| - 1];
      var m := PrepareWishOffs(entries[..|entries| - 1]);
      assert forall i :: 0 <= i < |entries| - 1 ==> entries[..|entries| - 1][i] == entries[i];
      m[last.0 := ValidDays(last.1)]
  }

  /** The days prepared for a staff id are the kept days of that id's list
      (of its last occurrence, should the id be repeated). */
  lemma {:induction false} PrepareWishOffsEntry(entries: seq<(string, seq<Value>)>, i: int)
    requires 0 <= i < |entries|
    requires forall k :: i < k < |entries| ==> entries[k].0 != entries[i].0
    ensures PrepareWishOffs(entries)[entries[i].0] == ValidDays(entries[i].1)
  {
    if i < |entries| - 1 {
      var init := entries[..|entries| - 1];
      assert init[i] == entries[i];
      PrepareWishOffsEntry(init, i);
    }
  }
}
