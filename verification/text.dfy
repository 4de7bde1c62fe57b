/** Character classes, trimming, decimal digits and the split/join pair,
    shared by the browser side (JavaScript string semantics) and the server
    side (Python string semantics). */
module Text {

  /** ECMAScript WhiteSpace and LineTerminator code points: what
      `String.prototype.trim` and `Number(string)` strip. */
  predicate IsJsSpace(c: char) {
    || c == '\t' || c == '\n' || c == '\U{B}' || c == '\U{C}' || c == '\r' || c == ' '
    || c == '\U{A0}' || c == '\U{1680}' || ('\U{2000}' <= c <= '\U{200A}')
    || c == '\U{2028}' || c == '\U{2029}' || c == '\U{202F}' || c == '\U{205F}'
    || c == '\U{3000}' || c == '\U{FEFF}'
  }

  /** The code points Python's `str.isspace` accepts: what `int(str)` strips. */
  predicate IsPySpace(c: char) {
    || ('\t' <= c <= '\r') || ('\U{1C}' <= c <= '\U{1F}') || c == ' ' || c == '\U{85}'
    || c == '\U{A0}' || c == '\U{1680}' || ('\U{2000}' <= c <= '\U{200A}')
    || c == '\U{2028}' || c == '\U{2029}' || c == '\U{202F}' || c == '\U{205F}'
    || c == '\U{3000}'
  }

  /** Whose notion of whitespace: JavaScript's or Python's. */
  datatype Flavor = Js | Py

  predicate IsSpace(f: Flavor, c: char) {
    match f
    case Js => IsJsSpace(c)
    case Py => IsPySpace(c)
  }

  /** `s` neither starts nor ends with whitespace. */
  predicate Trimmed(s: string, sp: Flavor) {
    |s| == 0 || (!IsSpace(sp, s[0]) && !IsSpace(sp, s[|s| - 1]))
  }

  function TrimStart(s: string, sp: Flavor): (r: string)
    ensures |r| <= |s| && r == s[|s| - |r|..]
    ensures forall i :: 0 <= i < |s| - |r| ==> IsSpace(sp, s[i])
    ensures |r| == 0 || !IsSpace(sp, r[0])
  {
    if |s| > 0 && IsSpace(sp, s[0]) then
      var r := TrimStart(s[1..], sp);
      assert s[1..][|s| - 1 - |r|..] == s[|s| - |r|..];
      r
    else s
  }

  function TrimEnd(s: string, sp: Flavor): (r: string)
    ensures |r| <= |s| && r == s[..|r|]
    ensures forall i :: |r| <= i < |s| ==> IsSpace(sp, s[i])
    ensures |r| == 0 || !IsSpace(sp, r[|r| - 1])
  {
    if |s| > 0 && IsSpace(sp, s[|s| - 1]) then TrimEnd(s[..|s| - 1], sp) else s
  }

  /** `r` is the slice of `s` at offset `i`, with only whitespace before
      and after it. */
  predicate SpaceAround(s: string, r: string, i: int, sp: Flavor) {
    && 0 <= i && i + |r| <= |s| && r == s[i..i + |r|]
    && (forall k :: 0 <= k < i ==> IsSpace(sp, s[k]))
    && (forall k :: i + |r| <= k < |s| ==> IsSpace(sp, s[k]))
  }

  /** Drop every leading and trailing whitespace character. */
  function Trim(s: string, sp: Flavor): (r: string)
    ensures Trimmed(r, sp)
    ensures |r| <= |s|
    ensures forall c :: c in r ==> c in s
  {
    TrimEnd(TrimStart(s, sp), sp)
  }

  /** What trimming leaves is the middle slice of `s` with only whitespace
      before and after it; being itself trimmed, it is the longest such
      slice. */
  lemma TrimSlice(s: string, sp: Flavor) returns (i: nat)
    ensures SpaceAround(s, Trim(s, sp), i, sp)
    ensures Trimmed(Trim(s, sp), sp)
  {
    var front := TrimStart(s, sp);
    i := |s| - |front|;
    SpaceAroundPrefix(s, front, TrimEnd(front, sp), sp);
  }

  /** A prefix `r` of a suffix `front` of `s`, with whitespace before
      `front` and after `r` within it, has only whitespace around it. */
  lemma SpaceAroundPrefix(s: string, front: string, r: string, sp: Flavor)
    requires |front| <= |s| && front == s[|s| - |front|..]
    requires forall k :: 0 <= k < |s| - |front| ==> IsSpace(sp, s[k])
    requires |r| <= |front| && r == front[..|r|]
    requires forall k :: |r| <= k < |front| ==> IsSpace(sp, front[k])
    ensures SpaceAround(s, r, |s| - |front|, sp)
  {
    var i := |s| - |front|;
    assert r == s[i..i + |r|];
    forall k | i + |r| <= k < |s|
      ensures IsSpace(sp, s[k])
    {
      assert s[k] == front[k - i];
    }
  }

  /** Trimming leaves an already trimmed string alone. */
  lemma TrimOfTrimmed(s: string, sp: Flavor)
    requires Trimmed(s, sp)
    ensures Trim(s, sp) == s
  {
  }

  /** Trimming ignores a prefix of whitespace. */
  lemma {:induction false} TrimSpacePrefix(pre: string, s: string, sp: Flavor)
    requires forall i :: 0 <= i < |pre| ==> IsSpace(sp, pre[i])
    ensures Trim(pre + s, sp) == Trim(s, sp)
  {
    TrimStartSpacePrefix(pre, s, sp);
  }

  /** Whitespace alone trims to nothing. */
  lemma TrimBlank(s: string, sp: Flavor)
    requires forall i :: 0 <= i < |s| ==> IsSpace(sp, s[i])
    ensures Trim(s, sp) == ""
  {
    TrimStartSpacePrefix(s, "", sp);
    assert s + "" == s;
    assert TrimStart("", sp) == "";
    assert TrimStart(s, sp) == "";
    assert TrimEnd("", sp) == "";
  }

  lemma {:induction false} TrimStartSpacePrefix(pre: string, s: string, sp: Flavor)
    requires forall i :: 0 <= i < |pre| ==> IsSpace(sp, pre[i])
    ensures TrimStart(pre + s, sp) == TrimStart(s, sp)
  {
    if |pre| == 0 {
      assert pre + s == s;
    } else {
      assert (pre + s)[0] == pre[0];
      assert (pre + s)[1..] == pre[1..] + s;
      TrimStartSpacePrefix(pre[1..], s, sp);
    }
  }

  predicate IsDigit(c: char) {
    '0' <= c <= '9'
  }

  predicate AllDigits(s: string) {
    forall i :: 0 <= i < |s| ==> IsDigit(s[i])
  }

  /** A digit string has no whitespace around it. */
  lemma DigitsTrimmed(s: string, sp: Flavor)
    requires AllDigits(s)
    ensures Trim(s, sp) == s
  {
    if |s| > 0 {
      assert IsDigit(s[0]) && IsDigit(s[|s| - 1]);
      assert Trimmed(s, sp);
      TrimOfTrimmed(s, sp);
    }
  }

  function DigitChar(d: nat): (c: char)
    requires d < 10
    ensures IsDigit(c)
  {
    ('0' as int + d) as char
  }

  /** The number a string of decimal digits denotes (leading zeros allowed). */
  function DigitsValue(s: string): nat
    requires AllDigits(s)
  {
    if |s| == 0 then 0 else 10 * DigitsValue(s[..|s| - 1]) + (s[|s| - 1] as int - '0' as int)
  }

  /** Decimal rendering of a natural number, as Python's `str` and JavaScript's
      `String` produce it: no sign, no leading zero. */
  function NatToString(n: nat): (s: string)
    ensures |s| > 0 && AllDigits(s)
    ensures s[0] == '0' ==> s == "0"
  {
    if n < 10 then [DigitChar(n)] else NatToString(n / 10) + [DigitChar(n % 10)]
  }

  /** Reading back the decimal rendering of `n` gives `n`. */
  lemma {:induction false} NatToStringRoundTrip(n: nat)
    ensures DigitsValue(NatToString(n)) == n
  {
    if n >= 10 {
      var s := NatToString(n);
      assert s[..|s| - 1] == NatToString(n / 10);
      NatToStringRoundTrip(n / 10);
    }
  }

  /** Distinct numbers have distinct renderings. */
  lemma NatToStringDistinct(m: nat, n: nat)
    requires m != n
    ensures NatToString(m) != NatToString(n)
  {
    NatToStringRoundTrip(m);
    NatToStringRoundTrip(n);
  }

  /** JavaScript `s.split(c)` for a one-character separator: the pieces
      between occurrences of `c`, with an empty piece at each end or between
      adjacent separators. */
  function Split(s: string, c: char): (parts: seq<string>)
    ensures |parts| >= 1
    ensures forall i :: 0 <= i < |parts| ==> c !in parts[i]
  {
    if |s| == 0 then [""]
    else
      var rest := Split(s[1..], c);
      if s[0] == c then [""] + rest else [[s[0]] + rest[0]] + rest[1..]
  }

  /** JavaScript `xs.join(sep)`. */
  function Join(xs: seq<string>, sep: string): string {
    if |xs| == 0 then ""
    else if |xs| == 1 then xs[0]
    else xs[0] + sep + Join(xs[1..], sep)
  }

  /** Joining the pieces of a split with the separator rebuilds the string. */
  lemma {:induction false} JoinSplit(s: string, c: char)
    ensures Join(Split(s, c), [c]) == s
  {
    if |s| > 0 {
      var rest := Split(s[1..], c);
      JoinSplit(s[1..], c);
      if s[0] == c {
        assert Split(s, c) == [""] + rest;
        assert ([""] + rest)[1..] == rest;
      } else {
        var parts := [[s[0]] + rest[0]] + rest[1..];
        assert parts[1..] == rest[1..];
        if |rest| > 1 {
          assert Join(rest, [c]) == rest[0] + [c] + Join(rest[1..], [c]);
        }
      }
    }
  }

  /** A separator-free string splits into itself alone. */
  lemma {:induction false} SplitNoSeparator(s: string, c: char)
    requires c !in s
    ensures Split(s, c) == [s]
  {
    if |s| > 0 {
      SplitNoSeparator(s[1..], c);
      assert [s[0]] + s[1..] == s;
    }
  }

  /** Splitting at the first separator. */
  lemma {:induction false} SplitAtFirst(a: string, c: char, b: string)
    requires c !in a
    ensures Split(a + [c] + b, c) == [a] + Split(b, c)
  {
    if |a| == 0 {
      assert a + [c] + b == [c] + b;
      assert ([c] + b)[1..] == b;
    } else {
      var s := a + [c] + b;
      assert s[1..] == a[1..] + [c] + b;
      SplitAtFirst(a[1..], c, b);
      assert [a[0]] + a[1..] == a;
    }
  }
}
