/**
 * The one-line frame scripts: the organiser-name normaliser of
 * scripts/script_auxiliar.py, the conditional `agrupacion` assignment of
 * scripts/limpiar_na.py and the verified-row filter of scripts/cambiar_comas.py.
 */
module Transforms {
  import opened Base
  import opened Text
  import opened Frames

  const Separator: string := " - "

  /** The cells `read_csv` produces: no nested lists or dicts. */
  predicate CsvCell(c: Cell) {
    c.Null? || c.Str? || c.Num? || c.Bool?
  }

  function DigitChar(d: nat): char
    requires d < 10
  {
    "0123456789"[d]
  }

  /** `str(n)` for a natural number. */
  function NatText(n: nat): (r: string)
    ensures |r| > 0 && forall k :: 0 <= k < |r| ==> '0' <= r[k] <= '9'
  {
    if n < 10 then [DigitChar(n)] else NatText(n / 10) + [DigitChar(n % 10)]
  }

  /** `astype(str)` on one cell: a missing value becomes the text "nan". */
  function CellText(c: Cell): (r: string)
    requires CsvCell(c)
    ensures c.Null? ==> r == "nan"
    ensures c.Str? ==> r == c.s
  {
    match c
    case Null => "nan"
    case Str(s) => s
    case Num(n) => if n < 0 then "-" + NatText(-n) else NatText(n)
    case Bool(b) => if b then "True" else "False"
  }

  /**
   * scripts/script_auxiliar.py:65 on one cell: `str(c).strip().split(" - ")[0]`,
   * the stripped text up to the first " - ".
   */
  function OrganiserName(c: Cell): (r: string)
    requires CsvCell(c)
    ensures !Contains(r, Separator)
    ensures var s := Strip(CellText(c));
      r == s || (StartsWith(s, r + Separator) && forall j :: 0 <= j < |r| ==> !OccursAt(s, Separator, j))
    ensures |r| == 0 <==> |Strip(CellText(c))| == 0
    ensures |r| > 0 ==> !IsSpace(r[0])
  {
    var s := Strip(CellText(c));
    var parts := Split(s, Separator);
    SplitFirst(s, Separator);
    var r := parts[0];
    assert r in parts;
    match IndexOf(s, Separator)
    case None => r
    case Some(i) =>
      assert OccursAt(s, Separator, i);
      assert s[..i + 3] == r + Separator;
      StartsWithIff(s, r + Separator);
      assert s[i] == ' ';
      assert |s| > 0 ==> s[0] != ' ';
      assert |r| > 0 ==> r[0] == s[0];
      r
  }

  /** Without a separator the normaliser only strips. */
  lemma OrganiserWithoutSeparator(c: Cell)
    requires CsvCell(c) && !Contains(Strip(CellText(c)), Separator)
    ensures OrganiserName(c) == Strip(CellText(c))
  {
    ContainsIndexOf(Strip(CellText(c)), Separator);
  }

  /** A missing organiser is written back as the text "nan". */
  lemma OrganiserOfMissing()
    ensures OrganiserName(Null) == "nan"
  {
    var s := "nan";
    StripTrimmed(s);
    assert !OccursAt(s, Separator, 0) && !OccursAt(s, Separator, 1);
    ContainsIndexOf(s, Separator);
    OrganiserWithoutSeparator(Null);
  }

  /**
   * A word, two spaces, the separator and a name: the result keeps one
   * trailing space ("A  - B" gives "A "), which a second pass strips, so the
   * normaliser is not idempotent.
   */
  lemma OrganiserNotIdempotent(w: string, b: string)
    requires |w| > 0 && (forall c :: c in w ==> !IsSpace(c)) && |b| > 0 && !IsSpace(b[|b| - 1])
    ensures OrganiserName(Str(w + "  - " + b)) == w + " "
    ensures OrganiserName(Str(OrganiserName(Str(w + "  - " + b)))) == w
    ensures OrganiserName(Str(OrganiserName(Str(w + "  - " + b)))) != OrganiserName(Str(w + "  - " + b))
  {
    OrganiserDoubleSpace(w, b);
    OrganiserTrailingSpace(w);
  }

  /** The normaliser keeps exactly the stripped text before the first separator. */
  lemma OrganiserCutsAtFirst(c: Cell, k: nat)
    requires CsvCell(c) && IndexOf(Strip(CellText(c)), Separator) == Some(k)
    ensures k <= |Strip(CellText(c))| && OrganiserName(c) == Strip(CellText(c))[..k]
  {
    SplitFirst(Strip(CellText(c)), Separator);
  }

  /** A one-word name, two spaces, a dash: the first pass keeps one trailing space. */
  lemma OrganiserDoubleSpace(w: string, b: string)
    requires |w| > 0 && (forall c :: c in w ==> !IsSpace(c)) && |b| > 0 && !IsSpace(b[|b| - 1])
    ensures OrganiserName(Str(w + "  - " + b)) == w + " "
  {
    var s := w + "  - " + b;
    DoubleSpaceTrimmed(w, b);
    DoubleSpaceIndex(w, b);
    OrganiserCutsAtFirst(Str(s), |w| + 1);
    assert s[..|w| + 1] == w + " ";
  }

  lemma DoubleSpaceTrimmed(w: string, b: string)
    requires |w| > 0 && (forall c :: c in w ==> !IsSpace(c)) && |b| > 0 && !IsSpace(b[|b| - 1])
    ensures Strip(w + "  - " + b) == w + "  - " + b
  {
    var s := w + "  - " + b;
    assert s[0] == w[0] && w[0] in w;
    assert s[|s| - 1] == b[|b| - 1];
    StripTrimmed(s);
  }

  lemma DoubleSpaceIndex(w: string, b: string)
    requires forall c :: c in w ==> !IsSpace(c)
    ensures IndexOf(w + "  - " + b, Separator) == Some(|w| + 1)
  {
    var s := w + "  - " + b;
    var k := |w| + 1;
    assert s[k..k + 3] == Separator;
    forall j | 0 <= j < k ensures !OccursAt(s, Separator, j) {
      if j < |w| {
        assert s[j] == w[j] && w[j] in w;
      } else {
        assert s[j + 1] == ' ';
      }
    }
    assert OccursAt(s, Separator, k);
  }

  /** A one-word name with a trailing space loses it on the next pass. */
  lemma OrganiserTrailingSpace(w: string)
    requires |w| > 0 && forall c :: c in w ==> !IsSpace(c)
    ensures OrganiserName(Str(w + " ")) == w
  {
    var t := w + " ";
    assert t[0] == w[0] && w[0] in w;
    assert t[..|w|] == w;
    assert Strip(t) == w by {
      StripShape(t);
      StripKeepsFirst(t);
      assert LeadingSpace(t) == 0;
      assert w[|w| - 1] in w;
    }
    assert !Contains(w, Separator) by {
      forall j | 0 <= j <= |w| ensures !OccursAt(w, Separator, j) {
        if j + 3 <= |w| {
          assert w[j..j + 3][0] == w[j] && w[j] in w;
        }
      }
    }
    OrganiserWithoutSeparator(Str(t));
  }

  /** Every cell of the frame came from `read_csv`. */
  predicate CsvFrame(f: Frame) {
    forall i, k :: 0 <= i < |f.rows| && 0 <= k < |f.rows[i]| ==> CsvCell(f.rows[i][k])
  }

  const OrganiserColumn: string := "Entidad organizadores"

  /** scripts/script_auxiliar.py:65: the normaliser applied to the organiser column. */
  function NormaliseOrganisers(f: Frame): (r: Result<Frame>)
    requires WellFormed(f) && CsvFrame(f)
    ensures r.Raised? <==> OrganiserColumn !in f.columns
    ensures r.Returned? ==> r.value.columns == f.columns && |r.value.rows| == |f.rows|
    ensures r.Returned? ==> forall i :: 0 <= i < |f.rows| ==>
              Get(f, i, OrganiserColumn).Some? && CsvCell(Get(f, i, OrganiserColumn).value) &&
              Get(r.value, i, OrganiserColumn) == Some(Str(OrganiserName(Get(f, i, OrganiserColumn).value)))
    ensures r.Returned? ==> forall i, c :: 0 <= i < |f.rows| && c in f.columns && c != OrganiserColumn ==> Get(r.value, i, c) == Get(f, i, c)
  {
    var g := (c: Cell) => if CsvCell(c) then Returned(Str(OrganiserName(c))) else Returned(c);
    var r := ApplyColumn(f, OrganiserColumn, g);
    if r.Returned? then
      forall i | 0 <= i < |f.rows| ensures CsvCell(Get(f, i, OrganiserColumn).value) {
        var p := Position(f.columns, OrganiserColumn).value;
        assert Get(f, i, OrganiserColumn) == Some(f.rows[i][p]);
      }
      r
    else r
  }

  // ------------------------------------------------------------ limpiar_na.py

  const OutOfScope: string := "FUERA DEL ALCANCE DEL OETR"

  /** scripts/limpiar_na.py:6-7: two masked assignments of `agrupacion`. */
  function MarkOutOfScope(f: Frame): (r: Result<Frame>)
    requires WellFormed(f)
    ensures r.Raised? <==> "tipoEvento" !in f.columns
    ensures r.Raised? ==> r.error == KeyError("tipoEvento")
    ensures r.Returned? ==> WellFormed(r.value) && |r.value.rows| == |f.rows|
    ensures r.Returned? ==> r.value.columns == if "agrupacion" in f.columns then f.columns else f.columns + ["agrupacion"]
  {
    match AssignWhere(f, "tipoEvento", Str("Evento Cultural"), "agrupacion", Str(OutOfScope))
    case Raised(e) => Raised(e)
    case Returned(g) => AssignWhere(g, "tipoEvento", Str("Evento Deportivo Nacional"), "agrupacion", Str(OutOfScope))
  }

  /** The two event types the script sets aside. */
  predicate SetAside(t: Option<Cell>) {
    t == Some(Str("Evento Cultural")) || t == Some(Str("Evento Deportivo Nacional"))
  }

  /**
   * Exactly the cultural and national-sport rows get the out-of-scope group;
   * every other row keeps its `agrupacion` (null when the column is new);
   * rows and other columns are untouched.
   */
  lemma MarkOutOfScopeRows(f: Frame)
    requires WellFormed(f)
    ensures MarkOutOfScope(f).Raised? <==> "tipoEvento" !in f.columns
    ensures var r := MarkOutOfScope(f); r.Returned? ==>
      |r.value.rows| == |f.rows| &&
      (forall i :: 0 <= i < |f.rows| && SetAside(Get(f, i, "tipoEvento")) ==> Get(r.value, i, "agrupacion") == Some(Str(OutOfScope))) &&
      (forall i :: 0 <= i < |f.rows| && !SetAside(Get(f, i, "tipoEvento")) ==>
         Get(r.value, i, "agrupacion") == (if "agrupacion" in f.columns then Get(f, i, "agrupacion") else Some(Null))) &&
      (forall i, c :: 0 <= i < |f.rows| && c in f.columns && c != "agrupacion" ==> Get(r.value, i, c) == Get(f, i, c))
  {
    var a := AssignWhere(f, "tipoEvento", Str("Evento Cultural"), "agrupacion", Str(OutOfScope));
    if a.Returned? {
      var g := a.value;
      assert "tipoEvento" in g.columns;
      assert forall i :: 0 <= i < |f.rows| ==> Get(g, i, "tipoEvento") == Get(f, i, "tipoEvento");
    }
  }

  // ---------------------------------------------------------- cambiar_comas.py

  /** scripts/cambiar_comas.py:5: the rows whose `Verificación` is exactly "VERDADERO". */
  function KeepVerified(f: Frame): (r: Result<Frame>)
    requires WellFormed(f)
    ensures r.Raised? <==> "Verificación" !in f.columns
    ensures r.Returned? ==> r.value.columns == f.columns
    ensures r.Returned? ==> forall k :: 0 <= k < |r.value.rows| ==> Get(r.value, k, "Verificación") == Some(Str("VERDADERO"))
    ensures r.Returned? ==> forall i :: 0 <= i < |f.rows| && Get(f, i, "Verificación") == Some(Str("VERDADERO")) ==> f.rows[i] in r.value.rows
    ensures r.Returned? ==> forall row :: row in r.value.rows ==> row in f.rows
  {
    FilterEq(f, "Verificación", Str("VERDADERO"))
  }

  /** Kept rows keep their relative order: filtering two blocks is filtering each in turn. */
  lemma KeepVerifiedOrder(cols: seq<string>, a: seq<Row>, b: seq<Row>)
    requires "Verificación" in cols
    requires WellFormed(Frame(cols, a)) && WellFormed(Frame(cols, b))
    ensures WellFormed(Frame(cols, a + b))
    ensures KeepVerified(Frame(cols, a + b)).Returned?
    ensures KeepVerified(Frame(cols, a + b)).value.rows
         == KeepVerified(Frame(cols, a)).value.rows + KeepVerified(Frame(cols, b)).value.rows
  {
    assert forall i :: 0 <= i < |a + b| ==> (a + b)[i] == if i < |a| then a[i] else b[i - |a|];
    KeepRowsConcat(a, b, Position(cols, "Verificación").value, Str("VERDADERO"));
  }

  /** The comparison is exact: a lower-case "verdadero" row is dropped. */
  lemma KeepVerifiedCaseSensitive(cols: seq<string>, row: Row)
    requires cols == ["Verificación"] && row == [Str("verdadero")]
    ensures KeepVerified(Frame(cols, [row])) == Returned(Frame(cols, []))
  {
    assert Position(cols, "Verificación") == Some(0);
    assert Str("verdadero") != Str("VERDADERO") by { assert "verdadero"[0] != "VERDADERO"[0]; }
  }
}
