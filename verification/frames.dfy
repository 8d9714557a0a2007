/**
 * The slice of pandas the scripts lean on: a frame of labelled columns and
 * positional rows, `row.get`, `df.at[i, c] = v`, a boolean-mask filter, a
 * boolean-mask assignment, `Series.apply` and `dropna().unique()`.
 * Row labels are positions (every frame here comes from `read_csv` with the
 * default index).
 */
module Frames {
  import opened Base

  /** What a cell holds; JSON values decoded from a reply land in cells too. */
  datatype Cell =
    | Null                                // NaN / None
    | Str(s: string)
    | Num(n: int)
    | Bool(b: bool)
    | List(items: seq<Cell>)
    | Dict(entries: seq<(string, Cell)>)

  /** Python truthiness of a decoded JSON value, `Null` being `None`: None, false, 0, "", [] and {} are falsy. */
  predicate Truthy(c: Cell) {
    match c
    case Null => false
    case Str(t) => t != ""
    case Num(n) => n != 0
    case Bool(b) => b
    case List(items) => items != []
    case Dict(entries) => entries != []
  }

  type Row = seq<Cell>

  datatype Frame = Frame(columns: seq<string>, rows: seq<Row>)

  /** Every row has one cell per column. */
  predicate WellFormed(f: Frame) {
    forall i :: 0 <= i < |f.rows| ==> |f.rows[i]| == |f.columns|
  }

  /** The first position of a label. */
  function Position(cols: seq<string>, name: string): (r: Option<nat>)
    ensures r.None? <==> name !in cols
    ensures r.Some? ==> r.value < |cols| && cols[r.value] == name
    ensures r.Some? ==> forall j :: 0 <= j < r.value ==> cols[j] != name
  {
    if |cols| == 0 then None
    else if cols[0] == name then Some(0)
    else
      var rest := Position(cols[1..], name);
      if rest.None? then None else Some(rest.value + 1)
  }

  /** `row.get(name)` on row `i`: `None` when the column is absent. */
  function Get(f: Frame, i: nat, name: string): (r: Option<Cell>)
    ensures WellFormed(f) && i < |f.rows| ==> (r.None? <==> name !in f.columns)
  {
    var p := Position(f.columns, name);
    if i < |f.rows| && p.Some? && p.value < |f.rows[i]| then Some(f.rows[i][p.value]) else None
  }

  /** `df[name]`: the column, or `KeyError` when there is no such label. */
  function Column(f: Frame, name: string): (r: Result<seq<Cell>>)
    requires WellFormed(f)
    ensures r.Raised? <==> name !in f.columns
    ensures r.Raised? ==> r.error == KeyError(name)
    ensures r.Returned? ==> |r.value| == |f.rows| && forall i :: 0 <= i < |f.rows| ==> Get(f, i, name) == Some(r.value[i])
  {
    match Position(f.columns, name)
    case None => Raised(KeyError(name))
    case Some(p) => Returned(seq(|f.rows|, i requires 0 <= i < |f.rows| => f.rows[i][p]))
  }

  /** Appends an all-null column unless the label is already there. */
  function WithColumn(f: Frame, name: string): (r: Frame)
    requires WellFormed(f)
    ensures WellFormed(r) && |r.rows| == |f.rows| && name in r.columns
    ensures r.columns == if name in f.columns then f.columns else f.columns + [name]
    ensures forall i, k :: 0 <= i < |f.rows| && 0 <= k < |f.columns| ==> r.rows[i][k] == f.rows[i][k]
    ensures forall i, c :: 0 <= i < |f.rows| && c in f.columns ==> Get(r, i, c) == Get(f, i, c)
    ensures name !in f.columns ==> forall i :: 0 <= i < |f.rows| ==> Get(r, i, name) == Some(Null)
  {
    if name in f.columns then f
    else
      var cols := f.columns + [name];
      var r := Frame(cols, AppendNull(f.rows));
      PositionAppendNew(f.columns, name);
      forall i, c | 0 <= i < |f.rows| && c in f.columns ensures Get(r, i, c) == Get(f, i, c) {
        PositionAppend(f.columns, name, c);
        assert r.rows[i] == f.rows[i] + [Null];
      }
      r
  }

  /** Every row with one more, null, cell. */
  function AppendNull(rows: seq<Row>): (r: seq<Row>)
    ensures |r| == |rows| && forall i :: 0 <= i < |rows| ==> r[i] == rows[i] + [Null]
  {
    seq(|rows|, i requires 0 <= i < |rows| => rows[i] + [Null])
  }

  lemma PositionAppend(cols: seq<string>, x: string, c: string)
    requires c in cols
    ensures Position(cols + [x], c) == Position(cols, c)
  {
    var p := Position(cols, c).value;
    assert (cols + [x])[p] == c;
    var q := Position(cols + [x], c).value;
    assert q <= p;
    assert (cols + [x])[q] == cols[q];
  }

  lemma PositionAppendNew(cols: seq<string>, x: string)
    requires x !in cols
    ensures Position(cols + [x], x) == Some(|cols|)
  {
    assert (cols + [x])[|cols|] == x;
  }

  /** `df.at[i, name] = v`: sets one cell, creating the column (null elsewhere) when absent. */
  function SetAt(f: Frame, i: nat, name: string, v: Cell): (r: Frame)
    requires WellFormed(f) && i < |f.rows|
    ensures WellFormed(r) && |r.rows| == |f.rows|
    ensures r.columns == if name in f.columns then f.columns else f.columns + [name]
    ensures Get(r, i, name) == Some(v)
    ensures forall j, c :: 0 <= j < |f.rows| && c in f.columns && (j != i || c != name) ==> Get(r, j, c) == Get(f, j, c)
    ensures name !in f.columns ==> forall j :: 0 <= j < |f.rows| && j != i ==> Get(r, j, name) == Some(Null)
  {
    var g := WithColumn(f, name);
    var p := Position(g.columns, name).value;
    Frame(g.columns, g.rows[i := g.rows[i][p := v]])
  }

  // ----------------------------------------------------------- boolean masks

  /** The rows whose cell at position `p` equals `v`, in order. */
  function KeepRows(rows: seq<Row>, p: nat, v: Cell): (r: seq<Row>)
    ensures |r| <= |rows|
    ensures forall row :: row in r ==> row in rows && p < |row| && row[p] == v
    ensures forall row :: row in rows && p < |row| && row[p] == v ==> row in r
  {
    if |rows| == 0 then []
    else
      var rest := KeepRows(rows[1..], p, v);
      assert forall row :: row in rows ==> row == rows[0] || row in rows[1..];
      if p < |rows[0]| && rows[0][p] == v then [rows[0]] + rest else rest
  }

  /** Filtering distributes over concatenation, so kept rows keep their relative order. */
  lemma {:induction false} KeepRowsConcat(a: seq<Row>, b: seq<Row>, p: nat, v: Cell)
    ensures KeepRows(a + b, p, v) == KeepRows(a, p, v) + KeepRows(b, p, v)
  {
    if |a| > 0 {
      var ab := a + b;
      assert ab[0] == a[0] && ab[1..] == a[1..] + b;
      KeepRowsConcat(a[1..], b, p, v);
      var head := if p < |a[0]| && a[0][p] == v then [a[0]] else [];
      assert KeepRows(ab, p, v) == head + KeepRows(a[1..] + b, p, v);
      assert KeepRows(a, p, v) == head + KeepRows(a[1..], p, v);
    } else {
      assert a + b == b;
    }
  }

  /** `df[df[name] == v]`: the matching rows in order; `KeyError` when the column is missing. */
  function FilterEq(f: Frame, name: string, v: Cell): (r: Result<Frame>)
    requires WellFormed(f)
    ensures r.Raised? <==> name !in f.columns
    ensures r.Returned? ==> r.value.columns == f.columns && WellFormed(r.value) && |r.value.rows| <= |f.rows|
    ensures r.Returned? ==> forall k :: 0 <= k < |r.value.rows| ==> Get(r.value, k, name) == Some(v)
    ensures r.Returned? ==> forall row :: row in r.value.rows ==> row in f.rows
    ensures r.Returned? ==> forall i :: 0 <= i < |f.rows| && Get(f, i, name) == Some(v) ==> f.rows[i] in r.value.rows
  {
    match Position(f.columns, name)
    case None => Raised(KeyError(name))
    case Some(p) =>
      var kept := KeepRows(f.rows, p, v);
      assert forall k :: 0 <= k < |kept| ==> kept[k] in kept;
      assert forall i :: 0 <= i < |f.rows| ==> f.rows[i] in f.rows;
      Returned(Frame(f.columns, kept))
  }

  /** `df.loc[df[key] == v, target] = value`: the target column is created (null) when absent. */
  function AssignWhere(f: Frame, key: string, v: Cell, target: string, value: Cell): (r: Result<Frame>)
    requires WellFormed(f)
    ensures r.Raised? <==> key !in f.columns
    ensures r.Raised? ==> r.error == KeyError(key)
    ensures r.Returned? ==> WellFormed(r.value) && |r.value.rows| == |f.rows|
    ensures r.Returned? ==> r.value.columns == if target in f.columns then f.columns else f.columns + [target]
    ensures r.Returned? ==> forall i :: 0 <= i < |f.rows| && Get(f, i, key) == Some(v) ==> Get(r.value, i, target) == Some(value)
    ensures r.Returned? ==> forall i :: 0 <= i < |f.rows| && Get(f, i, key) != Some(v) ==>
              Get(r.value, i, target) == (if target in f.columns then Get(f, i, target) else Some(Null))
    ensures r.Returned? ==> forall i, c :: 0 <= i < |f.rows| && c in f.columns && c != target ==> Get(r.value, i, c) == Get(f, i, c)
  {
    match Position(f.columns, key)
    case None => Raised(KeyError(key))
    case Some(p) =>
      forall i | 0 <= i < |f.rows| ensures Get(f, i, key) == Some(f.rows[i][p]) {}
      Returned(Masked(f, p, v, target, value))
  }

  /** The assignment once the key column's position `p` is known. */
  function Masked(f: Frame, p: nat, v: Cell, target: string, value: Cell): (r: Frame)
    requires WellFormed(f) && p < |f.columns|
    ensures WellFormed(r) && |r.rows| == |f.rows|
    ensures r.columns == if target in f.columns then f.columns else f.columns + [target]
    ensures forall i :: 0 <= i < |f.rows| && f.rows[i][p] == v ==> Get(r, i, target) == Some(value)
    ensures forall i :: 0 <= i < |f.rows| && f.rows[i][p] != v ==>
              Get(r, i, target) == (if target in f.columns then Get(f, i, target) else Some(Null))
    ensures forall i, c :: 0 <= i < |f.rows| && c in f.columns && c != target ==> Get(r, i, c) == Get(f, i, c)
  {
    var g := WithColumn(f, target);
    var r := MaskedIn(g, p, v, target, value);
    assert forall i :: 0 <= i < |f.rows| ==> g.rows[i][p] == f.rows[i][p];
    r
  }

  /** The assignment into a column that exists. */
  function MaskedIn(g: Frame, p: nat, v: Cell, target: string, value: Cell): (r: Frame)
    requires WellFormed(g) && p < |g.columns| && target in g.columns
    ensures WellFormed(r) && |r.rows| == |g.rows| && r.columns == g.columns
    ensures forall i :: 0 <= i < |g.rows| ==> Get(r, i, target) == if g.rows[i][p] == v then Some(value) else Get(g, i, target)
    ensures forall i, c :: 0 <= i < |g.rows| && c in g.columns && c != target ==> Get(r, i, c) == Get(g, i, c)
  {
    var q := Position(g.columns, target).value;
    var r := Frame(g.columns, MaskSet(g.rows, p, v, g.rows, q, value));
    forall i, c | 0 <= i < |g.rows| && c in g.columns && c != target ensures Get(r, i, c) == Get(g, i, c) {
      assert Position(g.columns, c).value != q;
    }
    r
  }

  /** Row by row: where `keys[i][p] == v`, cell `q` of `rows[i]` becomes `value`. */
  function MaskSet(keys: seq<Row>, p: nat, v: Cell, rows: seq<Row>, q: nat, value: Cell): (r: seq<Row>)
    requires |keys| == |rows| && forall i :: 0 <= i < |keys| ==> p < |keys[i]| && q < |rows[i]|
    ensures |r| == |rows|
    ensures forall i :: 0 <= i < |rows| ==> |r[i]| == |rows[i]| && r[i][q] == (if keys[i][p] == v then value else rows[i][q])
    ensures forall i, j :: 0 <= i < |rows| && 0 <= j < |rows[i]| && j != q ==> r[i][j] == rows[i][j]
  {
    seq(|rows|, i requires 0 <= i < |rows| => if keys[i][p] == v then rows[i][q := value] else rows[i])
  }

  // ------------------------------------------------------------ Series.apply

  /** Applies `g` cell by cell; the first exception escapes. */
  function ApplyCells(cells: seq<Cell>, g: Cell -> Result<Cell>): (r: Result<seq<Cell>>)
    ensures r.Returned? <==> forall k :: 0 <= k < |cells| ==> g(cells[k]).Returned?
    ensures r.Returned? ==> |r.value| == |cells| && forall k :: 0 <= k < |cells| ==> g(cells[k]) == Returned(r.value[k])
    ensures r.Raised? ==> exists k :: 0 <= k < |cells| && g(cells[k]) == Raised(r.error)
  {
    if |cells| == 0 then Returned([])
    else
      match g(cells[0])
      case Raised(e) => Raised(e)
      case Returned(c) =>
        var rest := ApplyCells(cells[1..], g);
        if rest.Raised? then
          var k :| 0 <= k < |cells[1..]| && g(cells[1..][k]) == Raised(rest.error);
          assert g(cells[k + 1]) == Raised(rest.error);
          Raised(rest.error)
        else
          assert forall k :: 0 < k < |cells| ==> cells[k] == cells[1..][k - 1];
          Returned([c] + rest.value)
  }

  /** `df[name] = df[name].apply(g)`: rewrites one existing column and nothing else. */
  function ApplyColumn(f: Frame, name: string, g: Cell -> Result<Cell>): (r: Result<Frame>)
    requires WellFormed(f)
    ensures name !in f.columns ==> r == Raised(KeyError(name))
    ensures r.Returned? ==> r.value.columns == f.columns && WellFormed(r.value) && |r.value.rows| == |f.rows|
    ensures r.Returned? ==> forall i :: 0 <= i < |f.rows| ==>
              Get(f, i, name).Some? && Get(r.value, i, name).Some? && g(Get(f, i, name).value) == Returned(Get(r.value, i, name).value)
    ensures r.Returned? ==> forall i, c :: 0 <= i < |f.rows| && c in f.columns && c != name ==> Get(r.value, i, c) == Get(f, i, c)
  {
    match Column(f, name)
    case Raised(e) => Raised(e)
    case Returned(cells) =>
      match ApplyCells(cells, g)
      case Raised(e) => Raised(e)
      case Returned(out) => Returned(Replaced(f, name, out))
  }

  /** The frame with column `name` replaced by `out`. */
  function Replaced(f: Frame, name: string, out: seq<Cell>): (r: Frame)
    requires WellFormed(f) && name in f.columns && |out| == |f.rows|
    ensures r.columns == f.columns && WellFormed(r) && |r.rows| == |f.rows|
    ensures forall i :: 0 <= i < |f.rows| ==> Get(r, i, name) == Some(out[i])
    ensures forall i, c :: 0 <= i < |f.rows| && c in f.columns && c != name ==> Get(r, i, c) == Get(f, i, c)
  {
    var p := Position(f.columns, name).value;
    Frame(f.columns, seq(|f.rows|, i requires 0 <= i < |f.rows| => f.rows[i][p := out[i]]))
  }

  // --------------------------------------------------------- dropna().unique()

  /** `dropna()`: the non-null cells, in order. */
  function DropNull(cells: seq<Cell>): (r: seq<Cell>)
    ensures forall c :: c in r <==> c in cells && c != Null
  {
    if |cells| == 0 then []
    else
      assert forall c :: c in cells ==> c == cells[0] || c in cells[1..];
      (if cells[0] == Null then [] else [cells[0]]) + DropNull(cells[1..])
  }

  predicate Distinct<T(==)>(xs: seq<T>) {
    forall i, j :: 0 <= i < j < |xs| ==> xs[i] != xs[j]
  }

  /** `unique()`: each value once, at its first occurrence. */
  function Unique(cells: seq<Cell>): (r: seq<Cell>)
    ensures Distinct(r)
    ensures forall c :: c in r <==> c in cells
  {
    var r := UniqueAfter([], cells);
    assert [] + r == r;
    r
  }

  /** The values of `cells` not already in `seen`, each once, in first-occurrence order. */
  function UniqueAfter(seen: seq<Cell>, cells: seq<Cell>): (r: seq<Cell>)
    requires Distinct(seen)
    ensures Distinct(seen + r)
    ensures forall c :: c in r <==> c in cells && c !in seen
    decreases |cells|
  {
    if |cells| == 0 then []
    else if cells[0] in seen then
      assert forall c :: c in cells ==> c == cells[0] || c in cells[1..];
      UniqueAfter(seen, cells[1..])
    else
      var seen' := seen + [cells[0]];
      assert Distinct(seen');
      var rest := UniqueAfter(seen', cells[1..]);
      assert seen' + rest == seen + ([cells[0]] + rest);
      assert forall c :: c in cells ==> c == cells[0] || c in cells[1..];
      [cells[0]] + rest
  }

  /** A column with no repeats comes back from `unique()` as it is. */
  lemma {:induction false} UniqueOfDistinct(seen: seq<Cell>, cells: seq<Cell>)
    requires Distinct(seen) && Distinct(seen + cells)
    ensures UniqueAfter(seen, cells) == cells
    decreases |cells|
  {
    if |cells| > 0 {
      assert cells[0] !in seen by {
        assert (seen + cells)[|seen|] == cells[0];
        assert forall j :: 0 <= j < |seen| ==> (seen + cells)[j] == seen[j];
      }
      var seen' := seen + [cells[0]];
      assert seen' + cells[1..] == seen + cells;
      assert Distinct(seen');
      UniqueOfDistinct(seen', cells[1..]);
    }
  }

  /** `df[name].dropna().unique().tolist()`: the catalog the fuzzy scorer picks from. */
  function Catalog(f: Frame, name: string): (r: Result<seq<Cell>>)
    requires WellFormed(f)
    ensures r.Raised? <==> name !in f.columns
    ensures r.Raised? ==> r.error == KeyError(name)
    ensures r.Returned? ==> Distinct(r.value) && Null !in r.value
    ensures r.Returned? ==> forall c :: c in r.value <==> c != Null && exists i :: 0 <= i < |f.rows| && Get(f, i, name) == Some(c)
  {
    match Column(f, name)
    case Raised(e) => Raised(e)
    case Returned(cells) =>
      assert forall c :: c in cells <==> exists i :: 0 <= i < |f.rows| && Get(f, i, name) == Some(c) by {
        forall c | c in cells ensures exists i :: 0 <= i < |f.rows| && Get(f, i, name) == Some(c) {
          var i :| 0 <= i < |cells| && cells[i] == c;
          assert Get(f, i, name) == Some(c);
        }
      }
      Returned(Unique(DropNull(cells)))
  }
}
