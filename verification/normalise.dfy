/**
 * `formatear_fecha`, the Spanish date normaliser, in its two versions:
 * scripts/procesar_eventos.py (congress events) and
 * scripts/clasificar_eventos_culturales.py (cultural events). Both first
 * turn away missing values and placeholder answers, then try "%Y-%m-%d",
 * then "%d/%m/%Y" when the text holds a '/', then a textual reading. Every
 * exception inside is caught, so a failure is a None result.
 */
module Normalise {
  import opened Base
  import opened Text
  import opened Calendar
  import opened Frames

  /** The answers both versions treat as "no date". */
  const Placeholders: seq<string> := ["no proporcionada", "ns/nc", "null", ""]

  /** Falsy input, or a placeholder once stripped and lower-cased. */
  predicate IsMissing(v: Option<string>) {
    v.None? || v.value == "" || Lower(Strip(v.value)) in Placeholders
  }

  /** The month names of scripts/procesar_eventos.py. */
  const CongressMonths: map<string, int> := map[
    "enero" := 1, "febrero" := 2, "marzo" := 3, "abril" := 4, "mayo" := 5, "junio" := 6,
    "julio" := 7, "agosto" := 8, "septiembre" := 9, "setiembre" := 9, "octubre" := 10,
    "noviembre" := 11, "diciembre" := 12
  ]

  /** The month names and abbreviations of scripts/clasificar_eventos_culturales.py. */
  const CulturalMonths: map<string, int> := map[
    "enero" := 1, "ene" := 1, "febrero" := 2, "feb" := 2, "marzo" := 3, "mar" := 3,
    "abril" := 4, "abr" := 4, "mayo" := 5, "junio" := 6, "jun" := 6, "julio" := 7, "jul" := 7,
    "agosto" := 8, "ago" := 8, "septiembre" := 9, "setiembre" := 9, "sep" := 9, "set" := 9,
    "octubre" := 10, "oct" := 10, "noviembre" := 11, "nov" := 11, "diciembre" := 12, "dic" := 12
  ]

  /** `int(meses.get(key, "01"))`: an unknown month is January. */
  function MonthOf(table: map<string, int>, key: string): int {
    if key in table then table[key] else 1
  }

  /** `int(t) if t.isdigit() else 2025`; None where `int` raises. */
  function YearOf(token: string): Option<int> {
    if IsDigitText(token) then PyInt(token) else Some(2025)
  }

  // ------------------------------------------- scripts/clasificar_eventos_culturales.py

  /** Where the range reading takes its year from. */
  datatype RangeYear =
    | FromMonthSegment   // as written: the last word of the text between the first and second " de "
    | FromLastSegment    // as intended: the last word after the last " de "

  /** The "del D1 al D2 de MES de AÑO" reading: the start day D1. None where Python raises. */
  function RangeStart(s: string, rule: RangeYear): (r: Option<Date>)
    ensures r.Some? ==> ValidDate(r.value)
  {
    var pieces := Split(Lower(s), "del ");
    if |pieces| < 2 then None else RangeAfterDel(pieces[1], rule)
  }

  /** The range reading of the text after the first "del ": "D1 al D2 de MES de AÑO". */
  function RangeAfterDel(p: string, rule: RangeYear): (r: Option<Date>)
    ensures r.Some? ==> ValidDate(r.value)
  {
    var around := Split(p, " al ");
    if |around| < 2 then None else RangeAfterAl(around[0], around[1], rule)
  }

  /** The range reading once cut at " al ": the start day text and "D2 de MES de AÑO". */
  function RangeAfterAl(first: string, rest: string, rule: RangeYear): (r: Option<Date>)
    ensures r.Some? ==> ValidDate(r.value)
  {
    var segs := Split(rest, " de ");
    if |segs| < 2 then None else RangeFields(first, segs[1], segs[|segs| - 1], rule)
  }

  /** The start day text, the month piece and the last piece of a range. */
  function RangeFields(first: string, monthPiece: string, lastPiece: string, rule: RangeYear): Option<Date> {
    var words := Words(Strip(monthPiece));
    if |words| == 0 then None
    else
      var yearWords := if rule.FromMonthSegment? then words else Words(lastPiece);
      if |yearWords| == 0 then None
      else
        var year := YearOf(yearWords[|yearWords| - 1]);
        var day := PyInt(Strip(first));
        if year.None? || day.None? then None
        else MakeDate(year.value, MonthOf(CulturalMonths, words[0]), day.value)
  }

  /** The "D de MES de AÑO" reading of the cultural version. None where Python raises. */
  function CulturalTextual(s: string): (r: Option<Date>)
    ensures r.Some? ==> ValidDate(r.value)
  {
    var parts := Split(Lower(s), " de ");
    if |parts| < 3 then None
    else
      var words := Words(parts[2]);
      if |words| == 0 then None
      else
        var year := YearOf(words[0]);
        var day := PyInt(Strip(parts[0]));
        if year.None? || day.None? then None
        else MakeDate(year.value, MonthOf(CulturalMonths, Strip(parts[1])), day.value)
  }

  /**
   * `formatear_fecha` of the cultural pipeline with the range year read by
   * `rule`: the ISO reading first, then the day-first one, and a date that
   * is neither needs " de " in the text.
   */
  function Cultural(v: Option<string>, rule: RangeYear): (r: Option<Date>)
    ensures r.Some? ==> ValidDate(r.value)
    ensures IsMissing(v) ==> r.None?
    ensures !IsMissing(v) && ParseIso(Strip(v.value)).Some? ==> r == ParseIso(Strip(v.value))
    ensures !IsMissing(v) && ParseIso(Strip(v.value)).None? && ParseDmy(Strip(v.value)).Some? ==> r == ParseDmy(Strip(v.value))
    ensures !IsMissing(v) && r.Some? && ParseIso(Strip(v.value)).None? && ParseDmy(Strip(v.value)).None? ==> Contains(Strip(v.value), " de ")
  {
    if IsMissing(v) then None
    else
      var s := Strip(v.value);
      DmyNeedsSlash(s);
      if ParseIso(s).Some? then ParseIso(s)
      else if Contains(s, "/") && ParseDmy(s).Some? then ParseDmy(s)
      else
        var range := if Contains(s, "del ") && Contains(s, " al ") && Contains(s, " de ") then RangeStart(s, rule) else None;
        if range.Some? then range
        else if Contains(s, " de ") then CulturalTextual(s)
        else None
  }

  /** `formatear_fecha` of the cultural pipeline, as written. */
  function FormatDateCultural(v: Option<string>): (r: Option<Date>)
    ensures r.Some? ==> ValidDate(r.value)
    ensures IsMissing(v) ==> r.None?
    ensures !IsMissing(v) && ParseIso(Strip(v.value)).Some? ==> r == ParseIso(Strip(v.value))
    ensures !IsMissing(v) && ParseIso(Strip(v.value)).None? && ParseDmy(Strip(v.value)).Some? ==> r == ParseDmy(Strip(v.value))
  {
    Cultural(v, FromMonthSegment)
  }

  /** The cultural normaliser with the range year read from the last segment. */
  function FormatDateCulturalFixed(v: Option<string>): (r: Option<Date>)
    ensures r.Some? ==> ValidDate(r.value)
    ensures IsMissing(v) ==> r.None?
    ensures !IsMissing(v) && ParseIso(Strip(v.value)).Some? ==> r == ParseIso(Strip(v.value))
    ensures !IsMissing(v) && ParseIso(Strip(v.value)).None? && ParseDmy(Strip(v.value)).Some? ==> r == ParseDmy(Strip(v.value))
  {
    Cultural(v, FromLastSegment)
  }

  // ------------------------------------------------------- scripts/procesar_eventos.py

  /** The call that ends the congress version's textual reading. */
  datatype FinalCall =
    | UnboundDateMethod   // as written: `datetime` names the class, so `datetime.date` is its instance method
    | DateConstructor     // as intended: `datetime.date(y, m, d)` with `datetime` the module

  function CallDate(call: FinalCall, y: int, m: int, d: int): (r: Result<Date>)
    ensures r.Returned? ==> ValidDate(r.value)
  {
    match call
    case UnboundDateMethod => Raised(TypeError("descriptor 'date' of 'datetime.datetime' object needs a datetime, not an int"))
    case DateConstructor =>
      match MakeDate(y, m, d)
      case Some(x) => Returned(x)
      case None => Raised(ValueError("day is out of range for month"))
  }

  /** The "D de MES de AÑO" reading of the congress version: split in the original case, only the month lower-cased. */
  function CongressTextual(s: string, call: FinalCall): (r: Option<Date>)
    ensures r.Some? ==> ValidDate(r.value)
  {
    var parts := Split(s, " de ");
    if |parts| < 3 then None
    else
      var words := Words(parts[2]);
      if |words| == 0 then None
      else
        var year := YearOf(words[0]);
        var day := PyInt(parts[0]);
        if year.None? || day.None? then None
        else Caught(CallDate(call, year.value, CongressMonth(parts[1]), day.value))
  }

  /** The congress month table read on the stripped, lower-cased month piece. */
  function CongressMonth(t: string): int {
    MonthOf(CongressMonths, Strip(Lower(t)))
  }

  /** The `except` around the parse: an escaping exception becomes `None`. */
  function Caught(r: Result<Date>): (o: Option<Date>)
    ensures o.Some? <==> r.Returned?
    ensures o.Some? ==> o.value == r.value
  {
    match r
    case Returned(d) => Some(d)
    case Raised(_) => None
  }

  /**
   * `formatear_fecha` of the congress pipeline with the textual reading
   * ending in `call`: the ISO reading first, then the day-first one, and a
   * date that is neither needs " de " in the text.
   */
  function Congress(v: Option<string>, call: FinalCall): (r: Option<Date>)
    ensures r.Some? ==> ValidDate(r.value)
    ensures IsMissing(v) ==> r.None?
    ensures !IsMissing(v) && ParseIso(Strip(v.value)).Some? ==> r == ParseIso(Strip(v.value))
    ensures !IsMissing(v) && ParseIso(Strip(v.value)).None? && ParseDmy(Strip(v.value)).Some? ==> r == ParseDmy(Strip(v.value))
    ensures !IsMissing(v) && r.Some? && ParseIso(Strip(v.value)).None? && ParseDmy(Strip(v.value)).None? ==> Contains(Strip(v.value), " de ")
  {
    if IsMissing(v) then None
    else
      var s := Strip(v.value);
      DmyNeedsSlash(s);
      if ParseIso(s).Some? then ParseIso(s)
      else if Contains(s, "/") && ParseDmy(s).Some? then ParseDmy(s)
      else if Contains(s, " de ") then CongressTextual(s, call)
      else None
  }

  /** `formatear_fecha` of the congress pipeline, as written: only the two numeric layouts ever yield a date. */
  function FormatDateCongress(v: Option<string>): (r: Option<Date>)
    ensures r.Some? ==> ValidDate(r.value)
    ensures IsMissing(v) ==> r.None?
    ensures r.Some? ==> r == ParseIso(Strip(v.value)) || r == ParseDmy(Strip(v.value))
    ensures !IsMissing(v) && ParseIso(Strip(v.value)).Some? ==> r == ParseIso(Strip(v.value))
    ensures !IsMissing(v) && ParseIso(Strip(v.value)).None? && ParseDmy(Strip(v.value)).Some? ==> r == ParseDmy(Strip(v.value))
  {
    Congress(v, UnboundDateMethod)
  }

  /** The congress normaliser with the textual reading ending in a real date constructor. */
  function FormatDateCongressFixed(v: Option<string>): (r: Option<Date>)
    ensures r.Some? ==> ValidDate(r.value)
    ensures IsMissing(v) ==> r.None?
    ensures !IsMissing(v) && ParseIso(Strip(v.value)).Some? ==> r == ParseIso(Strip(v.value))
    ensures !IsMissing(v) && ParseIso(Strip(v.value)).None? && ParseDmy(Strip(v.value)).Some? ==> r == ParseDmy(Strip(v.value))
  {
    Congress(v, DateConstructor)
  }

  // ------------------------------------------------- the field of the decoded reply

  /** The text a field holds when it holds a string; any other field reads as absent. */
  function FieldText(field: Option<Cell>): Option<string> {
    if field.Some? && field.value.Str? then Some(field.value.s) else None
  }

  /**
   * `formatear_fecha(datos.get(key))` on whatever the reply decoded to.
   * A falsy value gives None; a truthy value that is not a string
   * reaches `.strip()` outside every `try` and raises; a string is read
   * by the string normaliser `read`.
   */
  function OnField(field: Option<Cell>, read: Option<string> -> Option<Date>): (r: Result<Option<Date>>)
    ensures r.Raised? <==> field.Some? && Truthy(field.value) && !field.value.Str?
    ensures r.Raised? ==> r.error == AttributeError("strip")
    ensures field.None? || !Truthy(field.value) ==> r == Returned(None)
    ensures field.Some? && field.value.Str? && field.value.s != "" ==> r == Returned(read(Some(field.value.s)))
  {
    if field.None? || !Truthy(field.value) then Returned(None)
    else if !field.value.Str? then Raised(AttributeError("strip"))
    else Returned(read(FieldText(field)))
  }

  /** The cultural normaliser applied to a field of the decoded reply (clasificar_eventos_culturales.py:169). */
  function CulturalField(field: Option<Cell>): (r: Result<Option<Date>>)
    ensures r.Raised? <==> field.Some? && Truthy(field.value) && !field.value.Str?
    ensures r.Returned? ==> r.value == FormatDateCultural(FieldText(field))
  {
    OnField(field, FormatDateCultural)
  }

  /** The congress normaliser applied to a field of the decoded reply (procesar_eventos.py:83-85). */
  function CongressField(field: Option<Cell>): (r: Result<Option<Date>>)
    ensures r.Raised? <==> field.Some? && Truthy(field.value) && !field.value.Str?
    ensures r.Returned? ==> r.value == FormatDateCongress(FieldText(field))
  {
    OnField(field, FormatDateCongress)
  }

  /** A number where a date was expected crashes both normalisers instead of giving None. */
  lemma NumberFieldRaises(n: int)
    requires n != 0
    ensures CulturalField(Some(Num(n))) == Raised(AttributeError("strip"))
    ensures CongressField(Some(Num(n))) == Raised(AttributeError("strip"))
  {
  }

  // ------------------------------------------------------------ word shapes

  predicate IsAsciiLetter(c: char) {
    'a' <= c <= 'z' || 'A' <= c <= 'Z'
  }

  predicate IsLowerWord(w: string) {
    |w| > 0 && forall c :: c in w ==> 'a' <= c <= 'z'
  }

  /**
   * A month word as the lemmas below take it: once lower-cased it is plain
   * letters holding neither "al" (so no " al ") nor "el" (so no "del ").
   */
  ghost predicate MonthWord(m: string) {
    IsLowerWord(Lower(m)) && NoPair(Lower(m), 'a', 'l') && NoPair(Lower(m), 'e', 'l')
  }

  /** A year token: digits and lower-case letters, holding no "al". */
  ghost predicate YearWord(y: string) {
    |y| > 0 && (forall c :: c in y ==> IsDigitChar(c) || 'a' <= c <= 'z') && NoPair(y, 'a', 'l')
  }

  /** The cultural table extends the congress table with abbreviations and keeps its numbers. */
  lemma CulturalExtendsCongress(k: string)
    requires k in CongressMonths
    ensures k in CulturalMonths && MonthOf(CulturalMonths, k) == MonthOf(CongressMonths, k)
  {
  }

  /** A month word is ASCII letters, holding no "al" and no "el" in any case. */
  lemma MonthWordChars(m: string)
    requires MonthWord(m)
    ensures |m| > 0 && forall c :: c in m ==> IsAsciiLetter(c)
    ensures NoPair(m, 'a', 'l') && NoPair(m, 'e', 'l')
  {
    var l := Lower(m);
    forall i | 0 <= i < |m| ensures IsAsciiLetter(m[i]) {
      assert l[i] in l;
    }
    forall i | 0 <= i < |m| - 1 ensures !(m[i] == 'a' && m[i + 1] == 'l') && !(m[i] == 'e' && m[i + 1] == 'l') {
      assert l[i] == LowerChar(m[i]) && l[i + 1] == LowerChar(m[i + 1]);
    }
  }

  /** A year word is a number exactly when `isdigit` says so. */
  lemma YearWordValue(y: string)
    requires YearWord(y)
    ensures YearOf(y) == Some(if IsDigits(y) then DigitsValue(y) else 2025)
  {
    if IsDigits(y) {
      PyIntDigits(y);
    } else {
      var i :| 0 <= i < |y| && !IsDigitChar(y[i]);
      assert y[i] in y;
      assert !IsDigitLike(y[i]);
    }
  }

  // ------------------------------------------------------ "D de MES de AÑO"

  function DayMonthYear(d: string, m: string, y: string): string {
    d + " de " + m + " de " + y
  }

  lemma DayMonthYearFrom(d: string, m: string, y: string)
    ensures DayMonthYear(d, m, y) == d + (" de " + m + " de " + y)
    ensures DayMonthYear(d, m, y) == d + " de " + (m + " de " + y)
  {
  }

  lemma DayMonthYearBasics(d: string, m: string, y: string)
    requires IsDigits(d) && MonthWord(m) && YearWord(y)
    ensures var s := DayMonthYear(d, m, y);
      Strip(s) == s && !IsMissing(Some(s)) && ParseIso(s).None? && !Contains(s, "/")
      && Contains(s, " de ") && !Contains(s, " al ")
  {
    DayMonthYearEnds(d, m, y);
    DayMonthYearChars(d, m, y);
    DayMonthYearNoAl(d, m, y);
  }

  lemma DayMonthYearEnds(d: string, m: string, y: string)
    requires IsDigits(d) && MonthWord(m) && YearWord(y)
    ensures var s := DayMonthYear(d, m, y);
      Strip(s) == s && !IsMissing(Some(s)) && ParseIso(s).None?
  {
    DayMonthYearFrom(d, m, y);
    NoIsoDigitsThenSpace(d, " de " + m + " de " + y);
    DayMonthYearStrip(d, m, y);
    StartNotMissing(DayMonthYear(d, m, y));
  }

  lemma DayMonthYearStrip(d: string, m: string, y: string)
    requires IsDigits(d) && YearWord(y)
    ensures Strip(DayMonthYear(d, m, y)) == DayMonthYear(d, m, y)
  {
    var s := DayMonthYear(d, m, y);
    assert s[0] == d[0];
    assert y[|y| - 1] in y;
    assert s[|s| - 1] == y[|y| - 1];
    StripTrimmed(s);
  }

  /** A stripped text whose first character does not lower-case to 'n' is no placeholder. */
  lemma StartNotMissing(s: string)
    requires |s| > 0 && LowerChar(s[0]) != 'n' && Strip(s) == s
    ensures !IsMissing(Some(s))
  {
    assert Lower(s)[0] == LowerChar(s[0]);
  }

  /** Digits followed by a space never read as "%Y-%m-%d". */
  lemma NoIsoDigitsThenSpace(d: string, rest: string)
    requires IsDigits(d) && |rest| > 0 && rest[0] == ' '
    ensures ParseIso(d + rest).None?
  {
    var s := d + rest;
    if |d| < 4 {
      assert s[|d|] == rest[0];
      NoIsoYear(s, |d|);
    } else if |d| == 4 {
      assert s[4] == rest[0];
      NoIsoDash(s);
    } else {
      assert s[4] == d[4];
      NoIsoDash(s);
    }
  }

  /** Without four leading digits "%Y-%m-%d" fails. */
  lemma NoIsoYear(s: string, k: nat)
    requires k < 4 && k < |s| && !IsDigitChar(s[k])
    ensures ParseIso(s).None?
  {
  }

  /** Without '-' in position 4 "%Y-%m-%d" fails. */
  lemma NoIsoDash(s: string)
    requires 4 < |s| && s[4] != '-'
    ensures ParseIso(s).None?
  {
  }

  lemma DayMonthYearChars(d: string, m: string, y: string)
    requires IsDigits(d) && MonthWord(m) && YearWord(y)
    ensures var s := DayMonthYear(d, m, y); !Contains(s, "/") && Contains(s, " de ")
  {
    var s := DayMonthYear(d, m, y);
    MonthWordChars(m);
    assert forall c :: c in d ==> IsDigitChar(c);
    assert '/' !in s;
    NotContainedByChar(s, "/", 0);
    assert s[|d|..|d| + 4] == " de ";
    ContainsAt(s, " de ", |d|);
  }

  lemma DayMonthYearNoAl(d: string, m: string, y: string)
    requires IsDigits(d) && MonthWord(m) && YearWord(y)
    ensures !Contains(DayMonthYear(d, m, y), " al ")
  {
    var s := DayMonthYear(d, m, y);
    MonthWordChars(m);
    assert forall c :: c in d ==> IsDigitChar(c);
    NoPairByChar(d, 'a', 'l');
    NoPairByChar(" de ", 'a', 'l');
    NoPairConcat(d, " de ", 'a', 'l');
    NoPairConcat(d + " de ", m, 'a', 'l');
    NoPairConcat(d + " de " + m, " de ", 'a', 'l');
    NoPairConcat(d + " de " + m + " de ", y, 'a', 'l');
    NoPairIff(s, 'a', 'l');
    ContainsPairOf(" al ", 1);
    assert [" al "[1], " al "[2]] == "al";
    NotContainedVia(s, " al ", "al");
  }

  lemma DayMonthYearSplits(d: string, m: string, y: string)
    requires IsDigits(d) && MonthWord(m) && YearWord(y)
    ensures Split(DayMonthYear(d, m, y), " de ") == [d, m, y]
    ensures Split(Lower(DayMonthYear(d, m, y)), " de ") == [d, Lower(m), y]
  {
    MonthWordChars(m);
    assert forall c :: c in d ==> IsDigitChar(c);
    assert ' ' !in d && ' ' !in m && ' ' !in y;
    DayMonthYearLower(d, m, y);
    assert ' ' !in Lower(m);
    SplitThree(d, m, y);
    SplitThree(d, Lower(m), y);
  }

  /** Lower-casing "D de MES de AÑO" lower-cases only the month. */
  lemma DayMonthYearLower(d: string, m: string, y: string)
    requires IsDigits(d) && YearWord(y)
    ensures Lower(DayMonthYear(d, m, y)) == DayMonthYear(d, Lower(m), y)
  {
    assert forall c :: c in d ==> IsDigitChar(c);
    LowerUnchanged(d);
    LowerUnchanged(y);
    assert Lower(" de ") == " de ";
    LowerConcat(d, " de ");
    LowerConcat(d + " de ", m);
    LowerConcat(d + " de " + m, " de ");
    LowerConcat(d + " de " + m + " de ", y);
  }

  /** Three space-free pieces joined by " de " split back into themselves. */
  lemma SplitThree(a: string, b: string, c: string)
    requires ' ' !in a && ' ' !in b && ' ' !in c
    ensures Split(DayMonthYear(a, b, c), " de ") == [a, b, c]
  {
    assert DayMonthYear(a, b, c) == a + " de " + (b + " de " + c);
    SplitAround(a, " de ", b + " de " + c);
    SplitAround(b, " de ", c);
    NotContainedByChar(c, " de ", 0);
    SplitNoSep(c, " de ");
  }

  /**
   * "D de MES de AÑO" in the cultural version: the date (AÑO, MES, D), with
   * an unknown month read as January and a year that is not all digits read
   * as 2025.
   */
  lemma CulturalTextualDate(d: string, m: string, y: string)
    requires IsDigits(d) && MonthWord(m) && YearWord(y)
    ensures FormatDateCultural(Some(DayMonthYear(d, m, y)))
         == MakeDate(if IsDigits(y) then DigitsValue(y) else 2025, MonthOf(CulturalMonths, Lower(m)), DigitsValue(d))
  {
    DayMonthYearBasics(d, m, y);
    ReachesTextual(DayMonthYear(d, m, y));
    CulturalTextualOf(d, m, y);
  }

  /** Text that no numeric layout reads and that holds " de " but not " al " goes to the textual reading. */
  lemma ReachesTextual(s: string)
    requires Strip(s) == s && !IsMissing(Some(s)) && ParseIso(s).None? && !Contains(s, "/")
    requires Contains(s, " de ") && !Contains(s, " al ")
    ensures FormatDateCultural(Some(s)) == CulturalTextual(s)
    ensures FormatDateCulturalFixed(Some(s)) == CulturalTextual(s)
    ensures FormatDateCongress(Some(s)) == CongressTextual(s, UnboundDateMethod)
    ensures FormatDateCongressFixed(Some(s)) == CongressTextual(s, DateConstructor)
  {
  }

  /** The three pieces of "D de MES de AÑO" each read as a single token. */
  lemma PiecesRead(d: string, m: string, y: string)
    requires IsDigits(d) && MonthWord(m) && YearWord(y)
    ensures Strip(d) == d && PyInt(d) == Some(DigitsValue(d))
    ensures Strip(Lower(m)) == Lower(m)
    ensures Words(y) == [y] && YearOf(y) == Some(if IsDigits(y) then DigitsValue(y) else 2025)
  {
    DayRead(d);
    MonthRead(m);
    YearRead(y);
  }

  lemma DayRead(d: string)
    requires IsDigits(d)
    ensures Strip(d) == d && PyInt(d) == Some(DigitsValue(d))
  {
    StripTrimmed(d);
    PyIntDigits(d);
  }

  lemma MonthRead(m: string)
    requires MonthWord(m)
    ensures Strip(Lower(m)) == Lower(m)
  {
    MonthWordChars(m);
    var l := Lower(m);
    assert l[0] in l && l[|l| - 1] in l;
    StripTrimmed(l);
  }

  lemma YearRead(y: string)
    requires YearWord(y)
    ensures Words(y) == [y] && YearOf(y) == Some(if IsDigits(y) then DigitsValue(y) else 2025)
  {
    assert forall c :: c in y ==> !IsSpace(c);
    WordsSingle(y);
    YearWordValue(y);
  }

  lemma CulturalTextualOf(d: string, m: string, y: string)
    requires IsDigits(d) && MonthWord(m) && YearWord(y)
    ensures CulturalTextual(DayMonthYear(d, m, y))
         == MakeDate(if IsDigits(y) then DigitsValue(y) else 2025, MonthOf(CulturalMonths, Lower(m)), DigitsValue(d))
  {
    DayMonthYearSplits(d, m, y);
    PiecesRead(d, m, y);
  }

  lemma CongressTextualOf(d: string, m: string, y: string)
    requires IsDigits(d) && MonthWord(m) && YearWord(y)
    ensures CongressTextual(DayMonthYear(d, m, y), DateConstructor)
         == MakeDate(if IsDigits(y) then DigitsValue(y) else 2025, MonthOf(CongressMonths, Lower(m)), DigitsValue(d))
  {
    DayMonthYearSplits(d, m, y);
    PiecesRead(d, m, y);
    CongressTextualParts(DayMonthYear(d, m, y), d, m, y);
  }

  lemma CongressTextualParts(s: string, d: string, m: string, y: string)
    requires Split(s, " de ") == [d, m, y] && IsDigits(d)
    requires PyInt(d) == Some(DigitsValue(d)) && Strip(Lower(m)) == Lower(m)
    requires Words(y) == [y] && YearOf(y).Some?
    ensures CongressTextual(s, DateConstructor) == MakeDate(YearOf(y).value, MonthOf(CongressMonths, Lower(m)), DigitsValue(d))
  {
    var year, day, month := YearOf(y).value, DigitsValue(d), CongressMonth(m);
    assert month == MonthOf(CongressMonths, Lower(m));
    CaughtConstructor(year, month, day);
  }

  lemma CaughtConstructor(y: int, m: int, d: int)
    ensures Caught(CallDate(DateConstructor, y, m, d)) == MakeDate(y, m, d)
  {
  }

  /** The congress version, as written, never turns "D de MES de AÑO" into a date. */
  lemma CongressTextualNone(d: string, m: string, y: string)
    requires IsDigits(d) && MonthWord(m) && YearWord(y)
    ensures FormatDateCongress(Some(DayMonthYear(d, m, y))) == None
  {
    DayMonthYearBasics(d, m, y);
  }

  /** With a real date constructor the congress version reads "D de MES de AÑO" as intended. */
  lemma CongressFixedTextualDate(d: string, m: string, y: string)
    requires IsDigits(d) && MonthWord(m) && YearWord(y)
    ensures FormatDateCongressFixed(Some(DayMonthYear(d, m, y)))
         == MakeDate(if IsDigits(y) then DigitsValue(y) else 2025, MonthOf(CongressMonths, Lower(m)), DigitsValue(d))
  {
    DayMonthYearBasics(d, m, y);
    ReachesTextual(DayMonthYear(d, m, y));
    CongressTextualOf(d, m, y);
  }

  // ------------------------------------------- "del D1 al D2 de MES de AÑO"

  function RangeText(d1: string, d2: string, m: string, y: string): string {
    "del " + d1 + " al " + DayMonthYear(d2, m, y)
  }

  /** A text whose first character is a letter never reads as "D de MES de AÑO". */
  lemma TextualNeedsDigitStart(s: string)
    requires |s| > 0 && 'a' <= LowerChar(s[0]) <= 'z'
    ensures CulturalTextual(s) == None
  {
    var x := Lower(s);
    assert x[0] == LowerChar(s[0]);
    var parts := Split(x, " de ");
    SplitFirst(x, " de ");
    var first := parts[0];
    match IndexOf(x, " de ")
    case None =>
      assert first == x;
    case Some(i) =>
      assert OccursAt(x, " de ", i);
      assert i != 0 by { assert x[i] == ' '; }
      assert first == x[..i] && first[0] == x[0];
    assert |first| > 0 && first[0] == x[0];
    StripKeepsFirst(first);
    PyIntRefusesLetterStart(Strip(first));
  }

  /** A lower-cased month word is still one. */
  lemma MonthWordLower(m: string)
    requires MonthWord(m)
    ensures MonthWord(Lower(m))
  {
    var l := Lower(m);
    assert forall c :: c in l ==> LowerChar(c) == c;
    LowerUnchanged(l);
  }

  /** A numeral is a year word. */
  lemma DigitsYearWord(y: string)
    requires IsDigits(y)
    ensures YearWord(y)
  {
    assert forall c :: c in y ==> IsDigitChar(c);
    NoPairByChar(y, 'a', 'l');
  }

  /** Lower-casing the range text lower-cases only the month. */
  lemma RangeLower(d1: string, d2: string, m: string, y: string)
    requires IsDigits(d1) && IsDigits(d2) && IsDigits(y)
    ensures Lower(RangeText(d1, d2, m, y)) == RangeText(d1, d2, Lower(m), y)
  {
    DigitsYearWord(y);
    DayMonthYearLower(d2, m, y);
    assert forall c :: c in d1 ==> IsDigitChar(c);
    LowerUnchanged(d1);
    assert Lower("del ") == "del " && Lower(" al ") == " al ";
    LowerConcat("del ", d1);
    LowerConcat("del " + d1, " al ");
    LowerConcat("del " + d1 + " al ", DayMonthYear(d2, m, y));
  }

  /** The tail after " al " has no "el" and hence neither "del " nor " al ". */
  lemma RangeTailClean(d2: string, l: string, y: string)
    requires IsDigits(d2) && MonthWord(l) && IsDigits(y)
    ensures var t := DayMonthYear(d2, l, y); NoPair(t, 'e', 'l') && !Contains(t, "del ") && !Contains(t, " al ")
  {
    DigitsYearWord(y);
    DayMonthYearNoAl(d2, l, y);
    var t := DayMonthYear(d2, l, y);
    MonthWordChars(l);
    assert forall c :: c in d2 ==> IsDigitChar(c);
    assert forall c :: c in y ==> IsDigitChar(c);
    NoPairByChar(d2, 'e', 'l');
    NoPairByChar(y, 'e', 'l');
    NoPairByChar(" de ", 'e', 'l');
    NoPairConcat(d2, " de ", 'e', 'l');
    NoPairConcat(d2 + " de ", l, 'e', 'l');
    NoPairConcat(d2 + " de " + l, " de ", 'e', 'l');
    NoPairConcat(d2 + " de " + l + " de ", y, 'e', 'l');
    NoElNoDel(t);
  }

  lemma NoElNoDel(t: string)
    requires NoPair(t, 'e', 'l')
    ensures !Contains(t, "del ")
  {
    NoPairIff(t, 'e', 'l');
    ContainsPairOf("del ", 1);
    assert ["del "[1], "del "[2]] == "el";
    NotContainedVia(t, "del ", "el");
  }

  /** The text after "del " holds no second "del ". */
  lemma RangeRestClean(d1: string, t: string)
    requires IsDigits(d1) && NoPair(t, 'e', 'l')
    ensures !Contains(d1 + " al " + t, "del ")
  {
    assert forall c :: c in d1 ==> IsDigitChar(c);
    NoPairByChar(d1, 'e', 'l');
    NoPairByChar(" al ", 'e', 'l');
    NoPairConcat(d1, " al ", 'e', 'l');
    NoPairConcat(d1 + " al ", t, 'e', 'l');
    NoElNoDel(d1 + " al " + t);
  }

  /** "del " comes first and only once. */
  lemma RangeSplitDel(d1: string, d2: string, l: string, y: string)
    requires IsDigits(d1) && IsDigits(d2) && MonthWord(l) && IsDigits(y)
    ensures Split(RangeText(d1, d2, l, y), "del ") == ["", d1 + " al " + DayMonthYear(d2, l, y)]
  {
    var t := DayMonthYear(d2, l, y);
    RangeTailClean(d2, l, y);
    assert "del " + d1 + " al " + t == "" + "del " + (d1 + " al " + t);
    SplitAround("", "del ", d1 + " al " + t);
    RangeRestClean(d1, t);
    SplitNoSep(d1 + " al " + t, "del ");
  }

  /** " al " comes after the first day and only once. */
  lemma RangeSplitAl(d1: string, d2: string, l: string, y: string)
    requires IsDigits(d1) && IsDigits(d2) && MonthWord(l) && IsDigits(y)
    ensures Split(d1 + " al " + DayMonthYear(d2, l, y), " al ") == [d1, DayMonthYear(d2, l, y)]
  {
    var t := DayMonthYear(d2, l, y);
    RangeTailClean(d2, l, y);
    assert forall c :: c in d1 ==> IsDigitChar(c);
    assert ' ' !in d1;
    SplitAround(d1, " al ", t);
    SplitNoSep(t, " al ");
  }

  /** The tail "D2 de MES de AÑO" cuts into its three pieces. */
  lemma RangeSplitDe(d2: string, l: string, y: string)
    requires IsDigits(d2) && MonthWord(l) && IsDigits(y)
    ensures Split(DayMonthYear(d2, l, y), " de ") == [d2, l, y]
  {
    MonthWordChars(l);
    assert forall c :: c in d2 ==> IsDigitChar(c);
    assert forall c :: c in y ==> IsDigitChar(c);
    assert ' ' !in d2 && ' ' !in l && ' ' !in y;
    SplitThree(d2, l, y);
  }

  lemma RangeEnds(d1: string, d2: string, m: string, y: string)
    requires IsDigits(d1) && IsDigits(d2) && MonthWord(m) && IsDigits(y)
    ensures var s := RangeText(d1, d2, m, y);
      Strip(s) == s && !IsMissing(Some(s)) && ParseIso(s).None? && CulturalTextual(s) == None
  {
    var s := RangeText(d1, d2, m, y);
    assert s[0] == 'd';
    assert y[|y| - 1] in y;
    assert s[|s| - 1] == y[|y| - 1];
    StripTrimmed(s);
    StartNotMissing(s);
    NoIsoYear(s, 0);
    TextualNeedsDigitStart(s);
  }

  lemma RangeChars(d1: string, d2: string, m: string, y: string)
    requires IsDigits(d1) && IsDigits(d2) && MonthWord(m) && IsDigits(y)
    ensures var s := RangeText(d1, d2, m, y);
      !Contains(s, "/") && Contains(s, "del ") && Contains(s, " al ") && Contains(s, " de ")
  {
    var s := RangeText(d1, d2, m, y);
    MonthWordChars(m);
    assert forall c :: c in d1 ==> IsDigitChar(c);
    assert forall c :: c in d2 ==> IsDigitChar(c);
    assert forall c :: c in y ==> IsDigitChar(c);
    assert '/' !in s;
    NotContainedByChar(s, "/", 0);
    assert s[..4] == "del ";
    ContainsAt(s, "del ", 0);
    var i := 4 + |d1|;
    assert s[i..i + 4] == " al ";
    ContainsAt(s, " al ", i);
    var j := i + 4 + |d2|;
    assert s[j..j + 4] == " de ";
    ContainsAt(s, " de ", j);
  }

  /** Text with all three range markers that the textual reading refuses goes to the range reading. */
  lemma ReachesRange(s: string, rule: RangeYear)
    requires Strip(s) == s && !IsMissing(Some(s)) && ParseIso(s).None? && !Contains(s, "/")
    requires Contains(s, "del ") && Contains(s, " al ") && Contains(s, " de ") && CulturalTextual(s) == None
    ensures Cultural(Some(s), rule) == RangeStart(s, rule)
  {
  }

  /** Each piece the range reading takes reads as one token. */
  lemma RangePiecesRead(d1: string, l: string, y: string)
    requires IsDigits(d1) && MonthWord(l) && IsDigits(y)
    ensures Strip(d1) == d1 && PyInt(d1) == Some(DigitsValue(d1))
    ensures Strip(l) == l && Words(l) == [l] && YearOf(l) == Some(2025)
    ensures Words(y) == [y] && YearOf(y) == Some(DigitsValue(y))
  {
    DayRead(d1);
    MonthPieceRead(l);
    DigitsYearWord(y);
    YearRead(y);
  }

  lemma MonthPieceRead(l: string)
    requires MonthWord(l)
    ensures Strip(l) == l && Words(l) == [l] && YearOf(l) == Some(2025)
  {
    MonthWordChars(l);
    assert l[0] in l && l[|l| - 1] in l;
    StripTrimmed(l);
    assert forall c :: c in l ==> !IsSpace(c);
    WordsSingle(l);
    LetterYear(l);
  }

  /** A token that starts with a letter is not a numeral, so it reads as the default year. */
  lemma LetterYear(w: string)
    requires |w| > 0 && IsAsciiLetter(w[0])
    ensures YearOf(w) == Some(2025)
  {
    assert !IsDigitLike(w[0]);
  }

  lemma RangeFieldsOf(d1: string, l: string, y: string, rule: RangeYear)
    requires IsDigits(d1) && PyInt(d1) == Some(DigitsValue(d1)) && Strip(d1) == d1
    requires Strip(l) == l && Words(l) == [l] && YearOf(l) == Some(2025)
    requires Words(y) == [y] && YearOf(y).Some?
    ensures RangeFields(d1, l, y, rule) == MakeDate(if rule.FromMonthSegment? then 2025 else YearOf(y).value, MonthOf(CulturalMonths, l), DigitsValue(d1))
  {
    var yearWords := if rule.FromMonthSegment? then [l] else [y];
    assert YearOf(yearWords[|yearWords| - 1]) == Some(if rule.FromMonthSegment? then 2025 else YearOf(y).value);
  }

  /** The range reading of "del D1 al D2 de MES de AÑO": day D1 of MES, in the year the rule picks. */
  lemma RangeStartOf(d1: string, d2: string, m: string, y: string, rule: RangeYear)
    requires IsDigits(d1) && IsDigits(d2) && MonthWord(m) && IsDigits(y)
    ensures RangeStart(RangeText(d1, d2, m, y), rule)
         == MakeDate(if rule.FromMonthSegment? then 2025 else DigitsValue(y), MonthOf(CulturalMonths, Lower(m)), DigitsValue(d1))
  {
    var l := Lower(m);
    RangeLower(d1, d2, m, y);
    MonthWordLower(m);
    RangeSplitDel(d1, d2, l, y);
    RangeSplitAl(d1, d2, l, y);
    RangeSplitDe(d2, l, y);
    RangePiecesRead(d1, l, y);
    var t := DayMonthYear(d2, l, y);
    RangeFieldsOf(d1, l, y, rule);
    assert RangeAfterAl(d1, t, rule) == RangeFields(d1, l, y, rule);
    assert RangeAfterDel(d1 + " al " + t, rule) == RangeAfterAl(d1, t, rule);
  }

  /**
   * As written, "del D1 al D2 de MES de AÑO" ignores AÑO: the year comes
   * from the month piece, which is not a numeral, so it is always 2025.
   */
  lemma RangeIgnoresYear(d1: string, d2: string, m: string, y: string)
    requires IsDigits(d1) && IsDigits(d2) && MonthWord(m) && IsDigits(y)
    ensures FormatDateCultural(Some(RangeText(d1, d2, m, y)))
         == MakeDate(2025, MonthOf(CulturalMonths, Lower(m)), DigitsValue(d1))
  {
    RangeEnds(d1, d2, m, y);
    RangeChars(d1, d2, m, y);
    ReachesRange(RangeText(d1, d2, m, y), FromMonthSegment);
    RangeStartOf(d1, d2, m, y, FromMonthSegment);
  }

  /** Reading the year from the last piece gives day D1 of MES of AÑO. */
  lemma RangeFixedKeepsYear(d1: string, d2: string, m: string, y: string)
    requires IsDigits(d1) && IsDigits(d2) && MonthWord(m) && IsDigits(y)
    ensures FormatDateCulturalFixed(Some(RangeText(d1, d2, m, y)))
         == MakeDate(DigitsValue(y), MonthOf(CulturalMonths, Lower(m)), DigitsValue(d1))
  {
    RangeEnds(d1, d2, m, y);
    RangeChars(d1, d2, m, y);
    ReachesRange(RangeText(d1, d2, m, y), FromLastSegment);
    RangeStartOf(d1, d2, m, y, FromLastSegment);
  }

  // ------------------------------------------------------ numeric layouts

  /** Every normaliser reads back the ISO spelling of a valid date. */
  lemma NormalisersReadIso(d: Date)
    requires ValidDate(d)
    ensures var v := Some(FormatIso(d));
      && FormatDateCultural(v) == Some(d) && FormatDateCulturalFixed(v) == Some(d)
      && FormatDateCongress(v) == Some(d) && FormatDateCongressFixed(v) == Some(d)
  {
    var s := FormatIso(d);
    IsoRoundTrip(d);
    NumericEnds(s, Pad4(d.year), Pad2(d.day));
  }

  /** Every normaliser reads back the day-first spelling of a valid date. */
  lemma NormalisersReadDmy(d: Date)
    requires ValidDate(d)
    ensures var v := Some(FormatDmy(d));
      && FormatDateCultural(v) == Some(d) && FormatDateCulturalFixed(v) == Some(d)
      && FormatDateCongress(v) == Some(d) && FormatDateCongressFixed(v) == Some(d)
  {
    var s := FormatDmy(d);
    DmyRoundTrip(d);
    IsoAndDmyDisjoint(s);
    DmyNeedsSlash(s);
    NumericEnds(s, Pad2(d.day), Pad4(d.year));
  }

  /** A text that starts and ends with a digit is its own strip and no placeholder. */
  lemma NumericEnds(s: string, first: string, last: string)
    requires |first| > 0 && |last| > 0 && IsDigitChar(first[0]) && IsDigitChar(last[|last| - 1])
    requires |s| >= |first| + |last| && s[..|first|] == first && s[|s| - |last|..] == last
    ensures Strip(s) == s && !IsMissing(Some(s))
  {
    assert s[0] == first[0];
    assert s[|s| - 1] == last[|last| - 1];
    StripTrimmed(s);
    StartNotMissing(s);
  }

  // ------------------------------------------------------------ examples

  /** "10 de julio de 2025": the cultural reading and the repaired congress reading give 10 July 2025; the congress reading as written gives nothing. */
  lemma TextualExample()
    ensures FormatDateCultural(Some(DayMonthYear("10", "julio", "2025"))) == Some(Date(2025, 7, 10))
    ensures FormatDateCongress(Some(DayMonthYear("10", "julio", "2025"))) == None
    ensures FormatDateCongressFixed(Some(DayMonthYear("10", "julio", "2025"))) == Some(Date(2025, 7, 10))
  {
    ExampleWords();
    ExampleValues();
    CulturalTextualDate("10", "julio", "2025");
    CongressTextualNone("10", "julio", "2025");
    CongressFixedTextualDate("10", "julio", "2025");
  }

  /** "del 10 al 12 de julio de 2024" reads as 10 July 2025 as written and 10 July 2024 once repaired. */
  lemma RangeExample()
    ensures FormatDateCultural(Some(RangeText("10", "12", "julio", "2024"))) == Some(Date(2025, 7, 10))
    ensures FormatDateCulturalFixed(Some(RangeText("10", "12", "julio", "2024"))) == Some(Date(2024, 7, 10))
  {
    ExampleWords();
    ExampleValues();
    RangeIgnoresYear("10", "12", "julio", "2024");
    RangeFixedKeepsYear("10", "12", "julio", "2024");
  }

  lemma ExampleWords()
    ensures IsDigits("10") && IsDigits("12") && IsDigits("2024") && IsDigits("2025") && YearWord("2025") && MonthWord("julio")
    ensures Lower("julio") == "julio"
  {
    DigitsYearWord("2025");
    assert IsLowerWord("julio");
    LowerUnchanged("julio");
    assert 'a' !in "julio" && 'e' !in "julio";
    NoPairByChar("julio", 'a', 'l');
    NoPairByChar("julio", 'e', 'l');
  }

  lemma ExampleValues()
    ensures DigitsValue("10") == 10 && DigitsValue("2024") == 2024 && DigitsValue("2025") == 2025
    ensures MonthOf(CulturalMonths, "julio") == 7 && MonthOf(CongressMonths, "julio") == 7
    ensures MakeDate(2025, 7, 10) == Some(Date(2025, 7, 10)) && MakeDate(2024, 7, 10) == Some(Date(2024, 7, 10))
  {
    assert "julio" in CulturalMonths && "julio" in CongressMonths;
    assert "2024"[..3] == "202" && "2025"[..3] == "202" && "202"[..2] == "20" && "20"[..1] == "2";
    assert DigitsValue("20") == 20;
    assert DigitsValue("202") == 202;
  }
}
