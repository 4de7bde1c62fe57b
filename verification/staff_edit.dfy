/** The staff editor of components/StaffEditModal.tsx: the form it opens
    with, the text edits it accepts, and the record it saves. */
module StaffEdit {
  import opened Wrappers
  import opened Json
  import Text

  /** A staff record on the browser side. A numeric field is `None` when
      the record lacks it or holds `null` there: the record comes from the
      server's JSON, and nothing checks it against the declared interface.
      `extra` holds the fields the page never reads but carries along (for
      instance `fixedOffWeekdays`). */
  datatype Person = Person(
    id: string,
    canWork: seq<string>,
    monthlyMin: Option<real>,
    monthlyMax: Option<real>,
    weeklyMax: Option<real>,
    consecMax: Option<real>,
    extra: seq<(string, Value)>)

  /** A numeric form field: the number it opened with, nothing (the record
      lacked the field or held `null`), or the text typed since. */
  datatype Field = Num(x: real) | Absent | Typed(s: string)

  /** The form state: the staff record with `canWork` as one text and the
      numeric fields as form fields. */
  datatype Form = Form(
    id: string,
    canWork: string,
    monthlyMin: Field,
    monthlyMax: Field,
    weeklyMax: Field,
    consecMax: Field,
    extra: seq<(string, Value)>)

  /** The inputs of the form, by their `name` attribute. */
  datatype Input = CanWorkInput | MonthlyMinInput | MonthlyMaxInput | WeeklyMaxInput | ConsecMaxInput

  const Separator := ", "

  /** The form field a stored number opens as. */
  function OpenField(x: Option<real>): Field {
    if x.Some? then Num(x.value) else Absent
  }

  /** The form a staff record opens with: `{ ...staff }` with `canWork`
      joined with ", ". */
  function InitForm(staff: Person): Form {
    Form(staff.id, Text.Join(staff.canWork, Separator), OpenField(staff.monthlyMin), OpenField(staff.monthlyMax),
         OpenField(staff.weeklyMax), OpenField(staff.consecMax), staff.extra)
  }

  /** `handleChange`: the named input takes the typed text, nothing else
      changes. */
  function Edit(form: Form, input: Input, text: string): Form {
    match input
    case CanWorkInput => form.(canWork := text)
    case MonthlyMinInput => form.(monthlyMin := Typed(text))
    case MonthlyMaxInput => form.(monthlyMax := Typed(text))
    case WeeklyMaxInput => form.(weeklyMax := Typed(text))
    case ConsecMaxInput => form.(consecMax := Typed(text))
  }

  function Pow10(n: nat): (r: nat)
    ensures r >= 1
  {
    if n == 0 then 1 else 10 * Pow10(n - 1)
  }

  /** An unsigned decimal numeral: digits, optionally a point and more
      digits, with at least one digit in all. */
  function UnsignedDecimal(s: string): Option<real> {
    if '.' in s then
      var i := IndexOfPoint(s);
      var whole, frac := s[..i], s[i + 1..];
      if |whole| + |frac| > 0 && Text.AllDigits(whole) && Text.AllDigits(frac) then
        Some(Text.DigitsValue(whole) as real + Text.DigitsValue(frac) as real / Pow10(|frac|) as real)
      else None
    else if |s| > 0 && Text.AllDigits(s) then Some(Text.DigitsValue(s) as real)
    else None
  }

  function IndexOfPoint(s: string): (i: nat)
    requires '.' in s
    ensures i < |s| && s[i] == '.' && '.' !in s[..i]
  {
    if s[0] == '.' then 0 else 1 + IndexOfPoint(s[1..])
  }

  /** JavaScript `Number(text)`: whitespace around is ignored, blank text is
      0, a signed decimal numeral is its value, anything else is `NaN`
      (here `None`). */
  function StringToNumber(s: string): Option<real> {
    var t := Text.Trim(s, Text.Js);
    if |t| == 0 then Some(0.0)
    else if t[0] == '+' || t[0] == '-' then
      match UnsignedDecimal(t[1..])
      case Some(x) => Some(if t[0] == '-' then -x else x)
      case None => None
    else UnsignedDecimal(t)
  }

  /** `Number(field)` on a form field, `None` standing for `NaN`. An absent
      field is `undefined` (`NaN`) or `null` (0); both save as 0 below, so
      they share one case. */
  function FieldNumber(f: Field): Option<real> {
    match f
    case Num(x) => Some(x)
    case Absent => None
    case Typed(s) => StringToNumber(s)
  }

  /** `Number(field) || 0`: `NaN` and zero both become 0, any other number
      stays. */
  function NumberOrZero(f: Field): (r: real)
    ensures r == 0.0 <==> FieldNumber(f).None? || FieldNumber(f) == Some(0.0)
    ensures r != 0.0 ==> FieldNumber(f) == Some(r)
  {
    match FieldNumber(f)
    case Some(x) => if x == 0.0 then 0.0 else x
    case None => 0.0
  }

  /** A number the form opened with is saved unchanged. */
  lemma NumberOrZeroKeepsNumber(x: real)
    ensures NumberOrZero(Num(x)) == x
  {
  }

  /** A plain digit string reads as the number it denotes. */
  lemma UnsignedDecimalDigits(s: string)
    requires |s| > 0 && Text.AllDigits(s)
    ensures UnsignedDecimal(s) == Some(Text.DigitsValue(s) as real)
  {
    assert '.' !in s by {
      forall i | 0 <= i < |s|
        ensures s[i] != '.'
      {
        assert Text.IsDigit(s[i]);
      }
    }
  }

  /** Typing the decimal digits of a whole number saves that number. */
  lemma NumberOrZeroReadsDigits(n: nat)
    ensures NumberOrZero(Typed(Text.NatToString(n))) == n as real
  {
    var s := Text.NatToString(n);
    Text.NatToStringRoundTrip(n);
    Text.DigitsTrimmed(s, Text.Js);
    assert Text.IsDigit(s[0]);
    UnsignedDecimalDigits(s);
    assert StringToNumber(s) == Some(n as real);
  }

  /** `.map(s => s.trim()).filter(Boolean)` on the pieces of a split. */
  function CleanPieces(parts: seq<string>): (r: seq<string>)
    ensures |r| <= |parts|
  {
    if |parts| == 0 then []
    else
      var x := Text.Trim(parts[0], Text.Js);
      (if x == "" then [] else [x]) + CleanPieces(parts[1..])
  }

  /** Every piece is non-empty and trimmed. */
  predicate CleanPiecesOk(r: seq<string>) {
    forall i :: 0 <= i < |r| ==> r[i] != "" && Text.Trimmed(r[i], Text.Js)
  }

  /** Joining two lists of clean pieces gives clean pieces. */
  lemma PiecesOkConcat(h: seq<string>, rest: seq<string>)
    requires CleanPiecesOk(h) && CleanPiecesOk(rest)
    ensures CleanPiecesOk(h + rest)
  {
    forall i | 0 <= i < |h + rest|
      ensures (h + rest)[i] != "" && Text.Trimmed((h + rest)[i], Text.Js)
    {
      if i >= |h| {
        assert (h + rest)[i] == rest[i - |h|];
      }
    }
  }

  /** Every cleaned piece is non-empty and trimmed. */
  lemma {:induction false} CleanPiecesTrimmed(parts: seq<string>)
    ensures forall i :: 0 <= i < |CleanPieces(parts)| ==>
              CleanPieces(parts)[i] != "" && Text.Trimmed(CleanPieces(parts)[i], Text.Js)
  {
    if |parts| > 0 {
      CleanPiecesTrimmed(parts[1..]);
      var x := Text.Trim(parts[0], Text.Js);
      var head := if x == "" then [] else [x];
      var rest := CleanPieces(parts[1..]);
      assert CleanPieces(parts) == head + rest;
      assert CleanPiecesOk(head);
      assert CleanPiecesOk(rest);
      PiecesOkConcat(head, rest);
    }
  }

  /** Pieces free of commas clean to pieces free of commas. */
  lemma {:induction false} CleanPiecesNoComma(parts: seq<string>)
    requires forall i :: 0 <= i < |parts| ==> ',' !in parts[i]
    ensures forall i :: 0 <= i < |CleanPieces(parts)| ==> ',' !in CleanPieces(parts)[i]
  {
    if |parts| > 0 {
      CleanPiecesNoComma(parts[1..]);
    }
  }

  /** A kept piece is the first piece's trim or is kept from the rest. */
  lemma InHeadOrTail(parts: seq<string>, y: string)
    requires y in CleanPieces(parts)
    ensures |parts| > 0
    ensures (Text.Trim(parts[0], Text.Js) == y && y != "") || y in CleanPieces(parts[1..])
  {
  }

  /** Every cleaned piece comes from some piece: it is that piece's trim,
      and it is not empty. The index of the piece is returned. */
  lemma {:induction false} CleanPieceSource(parts: seq<string>, y: string) returns (i: nat)
    requires y in CleanPieces(parts)
    ensures i < |parts| && Text.Trim(parts[i], Text.Js) == y && y != ""
  {
    InHeadOrTail(parts, y);
    if Text.Trim(parts[0], Text.Js) == y && y != "" {
      i := 0;
    } else {
      var j := CleanPieceSource(parts[1..], y);
      assert parts[1..][j] == parts[j + 1];
      i := j + 1;
    }
  }

  /** The trim of the first piece, when not blank, is kept. */
  lemma InHead(parts: seq<string>)
    requires |parts| > 0 && Text.Trim(parts[0], Text.Js) != ""
    ensures Text.Trim(parts[0], Text.Js) in CleanPieces(parts)
  {
  }

  /** Whatever is kept from the later pieces is kept from all of them. */
  lemma InTail(parts: seq<string>, y: string)
    requires |parts| > 0 && y in CleanPieces(parts[1..])
    ensures y in CleanPieces(parts)
  {
  }

  /** The trim of every piece that is not blank is kept. */
  lemma {:induction false} CleanPieceKept(parts: seq<string>, i: nat)
    requires i < |parts| && Text.Trim(parts[i], Text.Js) != ""
    ensures Text.Trim(parts[i], Text.Js) in CleanPieces(parts)
  {
    if i == 0 {
      InHead(parts);
    } else {
      assert parts[1..][i - 1] == parts[i];
      CleanPieceKept(parts[1..], i - 1);
      InTail(parts, Text.Trim(parts[i], Text.Js));
    }
  }

  /** The cleaned pieces are the trims of the pieces that are not empty,
      and nothing else. */
  lemma CleanPiecesMembers(parts: seq<string>, y: string)
    ensures y in CleanPieces(parts) <==> y != "" && exists i :: 0 <= i < |parts| && Text.Trim(parts[i], Text.Js) == y
  {
    if y in CleanPieces(parts) {
      var i := CleanPieceSource(parts, y);
    }
    if y != "" && exists i :: 0 <= i < |parts| && Text.Trim(parts[i], Text.Js) == y {
      var i :| 0 <= i < |parts| && Text.Trim(parts[i], Text.Js) == y;
      CleanPieceKept(parts, i);
    }
  }

  /** The cleaning keeps the order of the pieces: it works piece by piece. */
  lemma {:induction false} CleanPiecesConcat(a: seq<string>, b: seq<string>)
    ensures CleanPieces(a + b) == CleanPieces(a) + CleanPieces(b)
  {
    if |a| == 0 {
      assert a + b == b;
    } else {
      var x := Text.Trim(a[0], Text.Js);
      var h := if x == "" then [] else [x];
      assert (a + b)[0] == a[0];
      assert (a + b)[1..] == a[1..] + b;
      assert CleanPieces(a + b) == h + CleanPieces(a[1..] + b);
      CleanPiecesConcat(a[1..], b);
      ConcatAssoc(h, CleanPieces(a[1..]), CleanPieces(b));
    }
  }

  /** Concatenation of lists of pieces is associative. */
  lemma ConcatAssoc(x: seq<string>, y: seq<string>, z: seq<string>)
    ensures x + (y + z) == (x + y) + z
  {
  }

  /** A single piece is kept, trimmed, exactly when its trim is not empty. */
  lemma CleanPiecesSingle(x: string)
    ensures CleanPieces([x]) == (if Text.Trim(x, Text.Js) == "" then [] else [Text.Trim(x, Text.Js)])
  {
    assert [x][1..] == [];
  }

  /** `formData.canWork.split(',').map(s => s.trim()).filter(Boolean)`:
      every code comes out non-empty, trimmed and free of commas. */
  function ParseCanWork(s: string): (codes: seq<string>)
    ensures forall i :: 0 <= i < |codes| ==> WellFormedCode(codes[i])
  {
    CleanPiecesTrimmed(Text.Split(s, ','));
    CleanPiecesNoComma(Text.Split(s, ','));
    CleanPieces(Text.Split(s, ','))
  }

  /** A code the editor can carry through a join and a parse unchanged. */
  predicate WellFormedCode(c: string) {
    c != "" && Text.Trimmed(c, Text.Js) && ',' !in c
  }

  predicate WellFormedCodes(codes: seq<string>) {
    forall i :: 0 <= i < |codes| ==> WellFormedCode(codes[i])
  }

  /** The piece before the first comma is cleaned on its own. */
  lemma ParseAtComma(a: string, b: string)
    requires ',' !in a
    ensures ParseCanWork(a + [','] + b) == CleanPieces([a]) + ParseCanWork(b)
  {
    Text.SplitAtFirst(a, ',', b);
    CleanCons(a, Text.Split(b, ','));
  }

  lemma CleanCons(x: string, xs: seq<string>)
    ensures CleanPieces([x] + xs) == CleanPieces([x]) + CleanPieces(xs)
  {
    assert ([x] + xs)[0] == x;
    assert ([x] + xs)[1..] == xs;
    assert [x][1..] == [];
  }

  /** Text without a comma is one piece. */
  lemma ParseNoComma(a: string)
    requires ',' !in a
    ensures ParseCanWork(a) == CleanPieces([a])
  {
    Text.SplitNoSeparator(a, ',');
  }

  /** A well-formed code behind some spaces is cleaned back to itself. */
  lemma CleanSpacedCode(pre: string, c: string)
    requires forall i :: 0 <= i < |pre| ==> Text.IsSpace(Text.Js, pre[i])
    requires WellFormedCode(c)
    ensures CleanPieces([pre + c]) == [c]
  {
    Text.TrimSpacePrefix(pre, c, Text.Js);
    Text.TrimOfTrimmed(c, Text.Js);
  }

  /** Spaces alone are cleaned away. */
  lemma CleanBlank(pre: string)
    requires forall i :: 0 <= i < |pre| ==> Text.IsSpace(Text.Js, pre[i])
    ensures CleanPieces([pre]) == []
  {
    Text.TrimBlank(pre, Text.Js);
    assert [pre][1..] == [];
  }

  /** Parsing a space prefix followed by the ", "-join of well-formed codes
      gives the codes back. */
  lemma {:induction false} ParseJoinWithPrefix(pre: string, codes: seq<string>)
    requires WellFormedCodes(codes)
    requires forall i :: 0 <= i < |pre| ==> Text.IsSpace(Text.Js, pre[i]) && pre[i] != ','
    ensures ParseCanWork(pre + Text.Join(codes, Separator)) == codes
    decreases |codes|
  {
    if |codes| == 0 {
      assert pre + Text.Join(codes, Separator) == pre;
      assert ',' !in pre;
      ParseNoComma(pre);
      CleanBlank(pre);
    } else {
      var head := codes[0];
      assert WellFormedCode(head);
      CleanSpacedCode(pre, head);
      assert ',' !in pre + head;
      if |codes| == 1 {
        assert pre + Text.Join(codes, Separator) == pre + head;
        ParseNoComma(pre + head);
      } else {
        ParseJoinStep(pre, codes);
        BlankAfterComma();
        ParseJoinWithPrefix(" ", codes[1..]);
        HeadTail(codes);
      }
    }
  }

  /** The first code of a join comes off at the first comma; the rest
      starts with the separator's space. */
  lemma ParseJoinStep(pre: string, codes: seq<string>)
    requires WellFormedCodes(codes) && |codes| > 1
    requires forall i :: 0 <= i < |pre| ==> Text.IsSpace(Text.Js, pre[i]) && pre[i] != ','
    ensures ParseCanWork(pre + Text.Join(codes, Separator)) ==
            [codes[0]] + ParseCanWork(" " + Text.Join(codes[1..], Separator))
  {
    var head := codes[0];
    assert WellFormedCode(head);
    CleanSpacedCode(pre, head);
    assert ',' !in pre + head;
    var rest := Text.Join(codes[1..], Separator);
    assert Text.Join(codes, Separator) == head + Separator + rest;
    CommaAfter(pre, head, rest);
    ParseAtComma(pre + head, " " + rest);
  }

  /** The rest of the separator after its comma is blank and comma-free. */
  lemma BlankAfterComma()
    ensures forall i :: 0 <= i < |" "| ==> Text.IsSpace(Text.Js, " "[i]) && " "[i] != ','
  {
    assert Text.IsSpace(Text.Js, ' ');
  }

  /** A non-empty list is its head before its tail. */
  lemma HeadTail(xs: seq<string>)
    requires |xs| > 0
    ensures [xs[0]] + xs[1..] == xs
  {
  }

  /** Where the separator's comma falls in `pre + head + ", " + rest`. */
  lemma CommaAfter(pre: string, head: string, rest: string)
    ensures pre + (head + Separator + rest) == (pre + head) + [','] + (" " + rest)
  {
  }

  /** Round trip of the `canWork` text: the parse of the ", "-join of a
      list gives the list back exactly when every code is non-empty,
      trimmed and free of commas. */
  lemma ParseJoinRoundTrip(codes: seq<string>)
    ensures ParseCanWork(Text.Join(codes, Separator)) == codes <==> WellFormedCodes(codes)
  {
    if WellFormedCodes(codes) {
      ParseJoinWithPrefix("", codes);
      assert "" + Text.Join(codes, Separator) == Text.Join(codes, Separator);
    }
  }

  /** `handleSave`: the form's fields spread into a record, with the numeric
      fields converted by `Number(x) || 0` and `canWork` parsed. */
  function Save(form: Form): (staff: Person)
    ensures staff.id == form.id && staff.extra == form.extra
    ensures WellFormedCodes(staff.canWork)
    ensures HasNumbers(staff)
  {
    Person(form.id, ParseCanWork(form.canWork), Some(NumberOrZero(form.monthlyMin)), Some(NumberOrZero(form.monthlyMax)),
           Some(NumberOrZero(form.weeklyMax)), Some(NumberOrZero(form.consecMax)), form.extra)
  }

  /** All four numbers are present, as the declared interface has them. */
  predicate HasNumbers(staff: Person) {
    staff.monthlyMin.Some? && staff.monthlyMax.Some? && staff.weeklyMax.Some? && staff.consecMax.Some?
  }

  /** A number that opened the form is saved as it was; a missing or `null`
      one is saved as 0. */
  lemma SaveOpenField(x: Option<real>)
    ensures Some(NumberOrZero(OpenField(x))) == Some(x.GetOr(0.0))
    ensures Some(NumberOrZero(OpenField(x))) == x <==> x.Some?
  {
  }

  /** Opening the editor and saving without an edit returns the record
      unchanged exactly when its codes are well formed and it carries all
      four numbers; a missing or `null` number comes back as 0. */
  lemma SaveUneditedIff(staff: Person)
    ensures Save(InitForm(staff)) == staff <==> WellFormedCodes(staff.canWork) && HasNumbers(staff)
    ensures Save(InitForm(staff)).canWork == staff.canWork <==> WellFormedCodes(staff.canWork)
    ensures Save(InitForm(staff)).monthlyMin == Some(staff.monthlyMin.GetOr(0.0))
    ensures Save(InitForm(staff)).monthlyMax == Some(staff.monthlyMax.GetOr(0.0))
    ensures Save(InitForm(staff)).weeklyMax == Some(staff.weeklyMax.GetOr(0.0))
    ensures Save(InitForm(staff)).consecMax == Some(staff.consecMax.GetOr(0.0))
  {
    var saved := Save(InitForm(staff));
    ParseJoinRoundTrip(staff.canWork);
    assert saved.canWork == ParseCanWork(Text.Join(staff.canWork, Separator));
    SaveOpenField(staff.monthlyMin);
    SaveOpenField(staff.monthlyMax);
    SaveOpenField(staff.weeklyMax);
    SaveOpenField(staff.consecMax);
    if WellFormedCodes(staff.canWork) && HasNumbers(staff) {
      assert saved == staff;
    } else if !WellFormedCodes(staff.canWork) {
      assert saved.canWork != staff.canWork;
    }
  }

  /** An edit reaches the saved record only through its own field. */
  lemma SaveEdit(form: Form, input: Input, text: string)
    ensures var saved, before := Save(Edit(form, input, text)), Save(form);
            && saved.id == before.id && saved.extra == before.extra
            && saved.canWork == (if input == CanWorkInput then ParseCanWork(text) else before.canWork)
            && saved.monthlyMin == (if input == MonthlyMinInput then Some(NumberOrZero(Typed(text))) else before.monthlyMin)
            && saved.monthlyMax == (if input == MonthlyMaxInput then Some(NumberOrZero(Typed(text))) else before.monthlyMax)
            && saved.weeklyMax == (if input == WeeklyMaxInput then Some(NumberOrZero(Typed(text))) else before.weeklyMax)
            && saved.consecMax == (if input == ConsecMaxInput then Some(NumberOrZero(Typed(text))) else before.consecMax)
  {
    match input
    case CanWorkInput => assert Edit(form, input, text) == form.(canWork := text);
    case MonthlyMinInput => assert Edit(form, input, text) == form.(monthlyMin := Typed(text));
    case MonthlyMaxInput => assert Edit(form, input, text) == form.(monthlyMax := Typed(text));
    case WeeklyMaxInput => assert Edit(form, input, text) == form.(weeklyMax := Typed(text));
    case ConsecMaxInput => assert Edit(form, input, text) == form.(consecMax := Typed(text));
  }

  /** One edit changes only its own field of the saved record: the id, the
      carried fields and the other inputs come out as they went in, a
      missing or `null` number as 0. */
  lemma SaveAfterEdit(staff: Person, input: Input, text: string)
    requires WellFormedCodes(staff.canWork)
    ensures var saved := Save(Edit(InitForm(staff), input, text));
            && saved.id == staff.id && saved.extra == staff.extra
            && saved.canWork == (if input == CanWorkInput then ParseCanWork(text) else staff.canWork)
            && saved.monthlyMin == Some(if input == MonthlyMinInput then NumberOrZero(Typed(text)) else staff.monthlyMin.GetOr(0.0))
            && saved.monthlyMax == Some(if input == MonthlyMaxInput then NumberOrZero(Typed(text)) else staff.monthlyMax.GetOr(0.0))
            && saved.weeklyMax == Some(if input == WeeklyMaxInput then NumberOrZero(Typed(text)) else staff.weeklyMax.GetOr(0.0))
            && saved.consecMax == Some(if input == ConsecMaxInput then NumberOrZero(Typed(text)) else staff.consecMax.GetOr(0.0))
  {
    SaveEdit(InitForm(staff), input, text);
    SaveUneditedIff(staff);
  }
}
