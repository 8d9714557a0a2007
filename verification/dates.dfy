/**
 * The calendar and the two `datetime.strptime` formats the date normalisers
 * try first, "%Y-%m-%d" and "%d/%m/%Y".
 *
 * `strptime` matches a regular expression built from the format and then
 * insists that nothing is left over. Its fields are alternations tried in
 * order: `%Y` is four digits, `%m` is `1[0-2]|0[1-9]|[1-9]` and `%d` is
 * `3[01]|[12]\d|0[1-9]|[1-9]| [1-9]`. In both formats every field is
 * followed by a separator or by the end of the pattern, and a shorter
 * alternative would leave a digit where that separator must be, so
 * backtracking never rescues a field: the first alternative that matches is
 * the one the regular expression keeps. The readers below take exactly that
 * alternative.
 */
module Calendar {
  import opened Base
  import opened Text

  datatype Date = Date(year: int, month: int, day: int)

  predicate IsLeapYear(y: int) {
    y % 4 == 0 && (y % 100 != 0 || y % 400 == 0)
  }

  function DaysInMonth(y: int, m: int): (n: int)
    requires 1 <= m <= 12
    ensures 28 <= n <= 31
  {
    if m == 2 then (if IsLeapYear(y) then 29 else 28)
    else if m == 4 || m == 6 || m == 9 || m == 11 then 30
    else 31
  }

  /** The dates `datetime.date` accepts: years 1 to 9999 of the proleptic Gregorian calendar. */
  predicate ValidDate(d: Date) {
    1 <= d.year <= 9999 && 1 <= d.month <= 12 && 1 <= d.day <= DaysInMonth(d.year, d.month)
  }

  /** `datetime.date(y, m, d)`; None where Python raises. */
  function MakeDate(y: int, m: int, d: int): (r: Option<Date>)
    ensures r.Some? <==> ValidDate(Date(y, m, d))
    ensures r.Some? ==> r.value == Date(y, m, d)
  {
    if ValidDate(Date(y, m, d)) then Some(Date(y, m, d)) else None
  }

  lemma LeapDay(y: int)
    requires 1 <= y <= 9999
    ensures MakeDate(y, 2, 29).Some? <==> IsLeapYear(y)
  {
  }

  // --------------------------------------------------------------- digits

  function DigitOf(n: int): (c: char)
    requires 0 <= n < 10
    ensures IsDigitChar(c)
  {
    ('0' as int + n) as char
  }

  function ValueOf(c: char): (n: int)
    requires IsDigitChar(c)
    ensures 0 <= n < 10
  {
    c as int - '0' as int
  }

  /** Two digits, zero-padded, as `%02d` writes them. */
  function Pad2(n: int): (s: string)
    requires 0 <= n < 100
    ensures |s| == 2 && IsDigitChar(s[0]) && IsDigitChar(s[1])
    ensures 10 * ValueOf(s[0]) + ValueOf(s[1]) == n
  {
    [DigitOf(n / 10), DigitOf(n % 10)]
  }

  /** Four digits, zero-padded, as `%04d` writes them. */
  function Pad4(n: int): (s: string)
    requires 0 <= n < 10000
    ensures |s| == 4 && forall i :: 0 <= i < 4 ==> IsDigitChar(s[i])
    ensures 1000 * ValueOf(s[0]) + 100 * ValueOf(s[1]) + 10 * ValueOf(s[2]) + ValueOf(s[3]) == n
  {
    Pad2(n / 100) + Pad2(n % 100)
  }

  // --------------------------------------------------------------- fields

  /** What one directive read: its value and how many characters it took. */
  datatype Field = Field(value: int, width: nat)

  /** `%Y` at position `i`: exactly four ASCII digits. */
  function YearAt(s: string, i: nat): Option<Field> {
    if i + 4 <= |s| && IsDigitChar(s[i]) && IsDigitChar(s[i + 1]) && IsDigitChar(s[i + 2]) && IsDigitChar(s[i + 3])
    then Some(Field(1000 * ValueOf(s[i]) + 100 * ValueOf(s[i + 1]) + 10 * ValueOf(s[i + 2]) + ValueOf(s[i + 3]), 4))
    else None
  }

  /** `%m` at position `i`: the first of `1[0-2]`, `0[1-9]`, `[1-9]` that matches. */
  function MonthAt(s: string, i: nat): Option<Field> {
    if i + 1 < |s| && s[i] == '1' && '0' <= s[i + 1] <= '2' then Some(Field(10 + ValueOf(s[i + 1]), 2))
    else if i + 1 < |s| && s[i] == '0' && '1' <= s[i + 1] <= '9' then Some(Field(ValueOf(s[i + 1]), 2))
    else if i < |s| && '1' <= s[i] <= '9' then Some(Field(ValueOf(s[i]), 1))
    else None
  }

  /** `%d` at position `i`: the first of `3[01]`, `[12]\d`, `0[1-9]`, `[1-9]`, ` [1-9]` that matches. */
  function DayAt(s: string, i: nat): Option<Field> {
    if i + 1 < |s| && s[i] == '3' && (s[i + 1] == '0' || s[i + 1] == '1') then Some(Field(30 + ValueOf(s[i + 1]), 2))
    else if i + 1 < |s| && (s[i] == '1' || s[i] == '2') && IsDigitChar(s[i + 1]) then Some(Field(10 * ValueOf(s[i]) + ValueOf(s[i + 1]), 2))
    else if i + 1 < |s| && s[i] == '0' && '1' <= s[i + 1] <= '9' then Some(Field(ValueOf(s[i + 1]), 2))
    else if i < |s| && '1' <= s[i] <= '9' then Some(Field(ValueOf(s[i]), 1))
    else if i + 1 < |s| && s[i] == ' ' && '1' <= s[i + 1] <= '9' then Some(Field(ValueOf(s[i + 1]), 2))
    else None
  }

  /** The spellings `%m` reads as month `m`: zero-padded, or a single digit below ten. */
  ghost predicate MonthText(t: string, m: int) {
    1 <= m <= 12 && (t == Pad2(m) || (m < 10 && t == [DigitOf(m)]))
  }

  /** The spellings `%d` reads as day `d`: zero-padded, a single digit, or a space and a digit. */
  ghost predicate DayText(t: string, d: int) {
    1 <= d <= 31 && (t == Pad2(d) || (d < 10 && (t == [DigitOf(d)] || t == [' ', DigitOf(d)])))
  }

  lemma DigitRoundTrip(c: char)
    requires IsDigitChar(c)
    ensures DigitOf(ValueOf(c)) == c
  {
  }

  lemma YearAtSound(s: string, i: nat)
    requires YearAt(s, i).Some?
    ensures var f := YearAt(s, i).value; f.width == 4 && i + 4 <= |s| && 0 <= f.value < 10000 && s[i..i + 4] == Pad4(f.value)
  {
    var a, b, c, d := ValueOf(s[i]), ValueOf(s[i + 1]), ValueOf(s[i + 2]), ValueOf(s[i + 3]);
    Pad4Digits(a, b, c, d);
    DigitRoundTrip(s[i]);
    DigitRoundTrip(s[i + 1]);
    DigitRoundTrip(s[i + 2]);
    DigitRoundTrip(s[i + 3]);
    assert s[i..i + 4] == [s[i], s[i + 1], s[i + 2], s[i + 3]];
  }

  /** Four digits written by `%04d` are the digits of the value. */
  lemma Pad4Digits(a: int, b: int, c: int, d: int)
    requires 0 <= a < 10 && 0 <= b < 10 && 0 <= c < 10 && 0 <= d < 10
    ensures Pad4(1000 * a + 100 * b + 10 * c + d) == [DigitOf(a), DigitOf(b), DigitOf(c), DigitOf(d)]
  {
    var v := 1000 * a + 100 * b + 10 * c + d;
    assert v == 100 * (10 * a + b) + (10 * c + d);
    assert v / 100 == 10 * a + b && v % 100 == 10 * c + d;
    assert (10 * a + b) / 10 == a && (10 * a + b) % 10 == b;
    assert (10 * c + d) / 10 == c && (10 * c + d) % 10 == d;
  }

  lemma YearAtComplete(s: string, i: nat, y: int)
    requires 0 <= y < 10000 && i + 4 <= |s| && s[i..i + 4] == Pad4(y)
    ensures YearAt(s, i) == Some(Field(y, 4))
  {
    var p := Pad4(y);
    assert s[i] == p[0] && s[i + 1] == p[1] && s[i + 2] == p[2] && s[i + 3] == p[3];
  }

  lemma MonthAtSound(s: string, i: nat)
    requires MonthAt(s, i).Some?
    ensures var f := MonthAt(s, i).value; i + f.width <= |s| && MonthText(s[i..i + f.width], f.value)
  {
    var f := MonthAt(s, i).value;
    var t := s[i..i + f.width];
    if f.width == 2 {
      assert t == [s[i], s[i + 1]];
      var p := Pad2(f.value);
      assert f.value / 10 == ValueOf(s[i]) && f.value % 10 == ValueOf(s[i + 1]);
      DigitRoundTrip(s[i]);
      DigitRoundTrip(s[i + 1]);
      assert p == t;
    } else {
      assert t == [s[i]];
      DigitRoundTrip(s[i]);
    }
  }

  lemma MonthAtComplete(s: string, i: nat, t: string, m: int)
    requires MonthText(t, m) && i + |t| <= |s| && s[i..i + |t|] == t
    requires i + |t| == |s| || !IsDigitChar(s[i + |t|])
    ensures MonthAt(s, i) == Some(Field(m, |t|))
  {
    assert forall k :: 0 <= k < |t| ==> s[i + k] == t[k];
  }

  lemma DayAtSound(s: string, i: nat)
    requires DayAt(s, i).Some?
    ensures var f := DayAt(s, i).value; i + f.width <= |s| && DayText(s[i..i + f.width], f.value)
  {
    var f := DayAt(s, i).value;
    var t := s[i..i + f.width];
    if f.width == 2 {
      assert t == [s[i], s[i + 1]];
      DigitRoundTrip(s[i + 1]);
      if s[i] != ' ' {
        var p := Pad2(f.value);
        assert f.value / 10 == ValueOf(s[i]) && f.value % 10 == ValueOf(s[i + 1]);
        DigitRoundTrip(s[i]);
        assert p == t;
      }
    } else {
      assert t == [s[i]];
      DigitRoundTrip(s[i]);
    }
  }

  lemma DayAtComplete(s: string, i: nat, t: string, d: int)
    requires DayText(t, d) && i + |t| <= |s| && s[i..i + |t|] == t
    requires i + |t| == |s| || !IsDigitChar(s[i + |t|])
    ensures DayAt(s, i) == Some(Field(d, |t|))
  {
    assert forall k :: 0 <= k < |t| ==> s[i + k] == t[k];
    if t == Pad2(d) {
      assert s[i] == DigitOf(d / 10) && s[i + 1] == DigitOf(d % 10);
      assert ValueOf(s[i]) == d / 10 && ValueOf(s[i + 1]) == d % 10;
      if d / 10 == 0 {
        assert '1' <= s[i + 1] <= '9';
      }
    } else if t == [DigitOf(d)] {
      assert s[i] == DigitOf(d) && ValueOf(s[i]) == d;
    } else {
      assert s[i] == ' ' && s[i + 1] == DigitOf(d) && ValueOf(s[i + 1]) == d;
    }
  }

  // -------------------------------------------------------------- formats

  /** `datetime.strptime(s, "%Y-%m-%d").date()`; None where it raises ValueError. */
  function ParseIso(s: string): (r: Option<Date>)
    ensures r.Some? ==> ValidDate(r.value)
  {
    match YearAt(s, 0)
    case None => None
    case Some(y) =>
      if !(4 < |s| && s[4] == '-') then None
      else match MonthAt(s, 5)
      case None => None
      case Some(m) =>
        var j := 5 + m.width;
        if !(j < |s| && s[j] == '-') then None
        else match DayAt(s, j + 1)
        case None => None
        case Some(d) =>
          if j + 1 + d.width != |s| then None  // unconverted data remains
          else MakeDate(y.value, m.value, d.value)
  }

  /** `datetime.strptime(s, "%d/%m/%Y").date()`; None where it raises ValueError. */
  function ParseDmy(s: string): (r: Option<Date>)
    ensures r.Some? ==> ValidDate(r.value)
  {
    match DayAt(s, 0)
    case None => None
    case Some(d) =>
      var i := d.width;
      if !(i < |s| && s[i] == '/') then None
      else match MonthAt(s, i + 1)
      case None => None
      case Some(m) =>
        var j := i + 1 + m.width;
        if !(j < |s| && s[j] == '/') then None
        else match YearAt(s, j + 1)
        case None => None
        case Some(y) =>
          if j + 5 != |s| then None  // unconverted data remains
          else MakeDate(y.value, m.value, d.value)
  }

  /** `s` spells date `d` in the "%Y-%m-%d" layout. */
  ghost predicate IsoText(s: string, d: Date) {
    0 <= d.year < 10000 &&
    exists mt, dt :: MonthText(mt, d.month) && DayText(dt, d.day) && s == Pad4(d.year) + "-" + mt + "-" + dt
  }

  /** `s` spells date `d` in the "%d/%m/%Y" layout. */
  ghost predicate DmyText(s: string, d: Date) {
    0 <= d.year < 10000 &&
    exists dt, mt :: DayText(dt, d.day) && MonthText(mt, d.month) && s == dt + "/" + mt + "/" + Pad4(d.year)
  }

  /** The ISO parse accepts exactly the spellings of valid dates. */
  lemma ParseIsoIff(s: string, d: Date)
    ensures ParseIso(s) == Some(d) <==> ValidDate(d) && IsoText(s, d)
  {
    if ParseIso(s) == Some(d) {
      ParseIsoSound(s);
    }
    if ValidDate(d) && IsoText(s, d) {
      var mt, dt :| MonthText(mt, d.month) && DayText(dt, d.day) && s == Pad4(d.year) + "-" + mt + "-" + dt;
      ParseIsoComplete(s, d, mt, dt);
    }
  }

  lemma ParseIsoSound(s: string)
    requires ParseIso(s).Some?
    ensures IsoText(s, ParseIso(s).value)
  {
    var d := ParseIso(s).value;
    var m := MonthAt(s, 5).value;
    var j := 5 + m.width;
    var f := DayAt(s, j + 1).value;
    assert d == Date(YearAt(s, 0).value.value, m.value, f.value);
    YearAtSound(s, 0);
    MonthAtSound(s, 5);
    DayAtSound(s, j + 1);
    var mt, dt := s[5..j], s[j + 1..];
    Reassemble(s, 4, j);
    assert MonthText(mt, d.month) && DayText(dt, d.day);
  }

  lemma ParseIsoComplete(s: string, d: Date, mt: string, dt: string)
    requires ValidDate(d) && MonthText(mt, d.month) && DayText(dt, d.day)
    requires s == Pad4(d.year) + "-" + mt + "-" + dt
    ensures ParseIso(s) == Some(d)
  {
    var j := 5 + |mt|;
    var p := Pad4(d.year);
    Pieces(p, mt, dt, '-');
    YearAtComplete(s, 0, d.year);
    MonthAtComplete(s, 5, mt, d.month);
    assert s[j + 1..j + 1 + |dt|] == s[j + 1..];
    DayAtComplete(s, j + 1, dt, d.day);
  }

  /** The day-first parse accepts exactly the spellings of valid dates. */
  lemma ParseDmyIff(s: string, d: Date)
    ensures ParseDmy(s) == Some(d) <==> ValidDate(d) && DmyText(s, d)
  {
    if ParseDmy(s) == Some(d) {
      ParseDmySound(s);
    }
    if ValidDate(d) && DmyText(s, d) {
      var dt, mt :| DayText(dt, d.day) && MonthText(mt, d.month) && s == dt + "/" + mt + "/" + Pad4(d.year);
      ParseDmyComplete(s, d, dt, mt);
    }
  }

  lemma ParseDmySound(s: string)
    requires ParseDmy(s).Some?
    ensures DmyText(s, ParseDmy(s).value)
  {
    var d := ParseDmy(s).value;
    var f := DayAt(s, 0).value;
    var i := f.width;
    var m := MonthAt(s, i + 1).value;
    var j := i + 1 + m.width;
    assert d == Date(YearAt(s, j + 1).value.value, m.value, f.value);
    DayAtSound(s, 0);
    MonthAtSound(s, i + 1);
    YearAtSound(s, j + 1);
    var dt, mt, yt := s[..i], s[i + 1..j], s[j + 1..];
    assert yt == s[j + 1..j + 5] == Pad4(d.year);
    Reassemble(s, i, j);
    assert [s[i]] == "/" && [s[j]] == "/";
    DmyTextFrom(s, d, dt, mt);
  }

  lemma DmyTextFrom(s: string, d: Date, dt: string, mt: string)
    requires 0 <= d.year < 10000 && DayText(dt, d.day) && MonthText(mt, d.month)
    requires s == dt + "/" + mt + "/" + Pad4(d.year)
    ensures DmyText(s, d)
  {
  }

  /** Where the three pieces of `a + [c] + b + [c] + e` sit. */
  lemma Pieces(a: string, b: string, e: string, c: char)
    ensures var s := a + [c] + b + [c] + e; var j := |a| + 1 + |b|;
      && |s| == j + 1 + |e| && s[..|a|] == a && s[|a|] == c && s[|a| + 1..j] == b && s[j] == c && s[j + 1..] == e
  {
    var s := a + [c] + b + [c] + e;
    var j := |a| + 1 + |b|;
    assert forall k :: 0 <= k < |a| ==> s[k] == a[k];
    assert forall k :: 0 <= k < |b| ==> s[|a| + 1 + k] == b[k];
    assert forall k :: 0 <= k < |e| ==> s[j + 1 + k] == e[k];
    assert s[..|a|] == a && s[|a| + 1..j] == b && s[j + 1..] == e;
  }

  /** A string cut around two positions is the pieces and the two separators between them. */
  lemma Reassemble(s: string, i: nat, j: nat)
    requires i < j < |s|
    ensures s == s[..i] + [s[i]] + s[i + 1..j] + [s[j]] + s[j + 1..]
  {
    var r := s[..i] + [s[i]] + s[i + 1..j] + [s[j]] + s[j + 1..];
    assert |r| == |s|;
    forall k | 0 <= k < |s| ensures r[k] == s[k] {
      if k < i {
      } else if k == i {
      } else if k < j {
        assert r[k] == s[i + 1..j][k - i - 1];
      } else if k == j {
      } else {
        assert r[k] == s[j + 1..][k - j - 1];
      }
    }
  }

  lemma ParseDmyComplete(s: string, d: Date, dt: string, mt: string)
    requires ValidDate(d) && DayText(dt, d.day) && MonthText(mt, d.month)
    requires s == dt + "/" + mt + "/" + Pad4(d.year)
    ensures ParseDmy(s) == Some(d)
  {
    var i := |dt|;
    var j := i + 1 + |mt|;
    var p := Pad4(d.year);
    Pieces(dt, mt, p, '/');
    DayAtComplete(s, 0, dt, d.day);
    MonthAtComplete(s, i + 1, mt, d.month);
    YearAtComplete(s, j + 1, d.year);
  }

  /** `date.isoformat()`: "YYYY-MM-DD", ten characters, digits except the two dashes. */
  function FormatIso(d: Date): (r: string)
    requires ValidDate(d)
    ensures |r| == 10 && r[4] == '-' && r[7] == '-'
    ensures forall i :: 0 <= i < 10 && i != 4 && i != 7 ==> IsDigitChar(r[i])
  {
    Pad4(d.year) + "-" + Pad2(d.month) + "-" + Pad2(d.day)
  }

  /** `date.strftime("%d/%m/%Y")`: "DD/MM/YYYY", ten characters, digits except the two slashes. */
  function FormatDmy(d: Date): (r: string)
    requires ValidDate(d)
    ensures |r| == 10 && r[2] == '/' && r[5] == '/'
    ensures forall i :: 0 <= i < 10 && i != 2 && i != 5 ==> IsDigitChar(r[i])
  {
    Pad2(d.day) + "/" + Pad2(d.month) + "/" + Pad4(d.year)
  }

  lemma IsoRoundTrip(d: Date)
    requires ValidDate(d)
    ensures ParseIso(FormatIso(d)) == Some(d)
  {
    assert MonthText(Pad2(d.month), d.month) && DayText(Pad2(d.day), d.day);
    ParseIsoIff(FormatIso(d), d);
  }

  lemma DmyRoundTrip(d: Date)
    requires ValidDate(d)
    ensures ParseDmy(FormatDmy(d)) == Some(d)
  {
    assert MonthText(Pad2(d.month), d.month) && DayText(Pad2(d.day), d.day);
    ParseDmyIff(FormatDmy(d), d);
  }

  /** The day-first parse needs a '/', so guarding it with `"/" in s` changes nothing. */
  lemma DmyNeedsSlash(s: string)
    ensures ParseDmy(s).Some? ==> Contains(s, "/")
  {
    if ParseDmy(s).Some? {
      var i := DayAt(s, 0).value.width;
      assert s[i..i + 1] == "/";
      ContainsAt(s, "/", i);
    }
  }

  /** The two layouts never both accept one text. */
  lemma IsoAndDmyDisjoint(s: string)
    ensures !(ParseIso(s).Some? && ParseDmy(s).Some?)
  {
    if ParseIso(s).Some? {
      assert IsDigitChar(s[2]) && s[4] == '-';
    }
  }
}
