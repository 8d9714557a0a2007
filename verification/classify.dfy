/**
 * scripts/clasificar_eventos.py once the page fetch and the language model
 * are taken out: the reply of each link is decoded, stamped with the link
 * and gathered (`procesar_eventos_de_links`), the gathered objects become a
 * frame whose columns are renamed and completed, the module-level loop
 * flattens objects and lists of objects into rows, and `guardar_eventos`
 * maps a frame row onto the columns of an `Evento`.
 *
 * `json.loads` is a table: a string it parses is a key, with the value it
 * decodes to; any other string raises `JSONDecodeError`.
 */
module Classify {
  import opened Base
  import opened Frames
  import opened Fences

  /** A decoded JSON object: its entries in insertion order. */
  type Entries = seq<(string, Cell)>

  /** `json.loads`: the strings that parse, with their values. */
  type Decoder = map<string, Cell>

  /** The keys of an object, in order. */
  function Keys(d: Entries): (r: seq<string>)
    ensures |r| == |d| && forall k :: 0 <= k < |d| ==> r[k] == d[k].0
  {
    seq(|d|, k requires 0 <= k < |d| => d[k].0)
  }

  /** `d.get(key)`: the value of the first entry with that key. */
  function Lookup(d: Entries, key: string): (r: Option<Cell>)
    ensures r.None? <==> key !in Keys(d)
    ensures r.Some? ==> exists k :: 0 <= k < |d| && d[k] == (key, r.value)
    decreases |d|
  {
    if |d| == 0 then None
    else if d[0].0 == key then Some(d[0].1)
    else
      var r := Lookup(d[1..], key);
      assert Keys(d) == [d[0].0] + Keys(d[1..]);
      assert r.Some? ==> exists k :: 0 <= k < |d| && d[k] == (key, r.value) by {
        if r.Some? {
          var k :| 0 <= k < |d[1..]| && d[1..][k] == (key, r.value);
          assert d[k + 1] == (key, r.value);
        }
      }
      r
  }

  // ------------------------------------------------------------- stamping

  /** Every entry with the key gets the new value. */
  function Overwrite(d: Entries, key: string, v: Cell): (r: Entries)
    ensures |r| == |d| && Keys(r) == Keys(d)
  {
    var r := seq(|d|, k requires 0 <= k < |d| => if d[k].0 == key then (key, v) else d[k]);
    assert Keys(r) == Keys(d);
    r
  }

  lemma {:induction false} LookupOverwrite(d: Entries, key: string, v: Cell, other: string)
    ensures Lookup(Overwrite(d, key, v), other) == if other == key && key in Keys(d) then Some(v) else Lookup(d, other)
    decreases |d|
  {
    if |d| > 0 {
      var r := Overwrite(d, key, v);
      assert r[1..] == Overwrite(d[1..], key, v);
      assert Keys(d) == [d[0].0] + Keys(d[1..]);
      LookupOverwrite(d[1..], key, v, other);
    }
  }

  lemma LookupAppend(d: Entries, key: string, v: Cell, other: string)
    requires key !in Keys(d)
    ensures Lookup(d + [(key, v)], other) == if other == key then Some(v) else Lookup(d, other)
    decreases |d|
  {
    var e := d + [(key, v)];
    if |d| == 0 {
      assert e == [(key, v)];
    } else {
      assert e[0] == d[0] && e[1..] == d[1..] + [(key, v)];
      assert Keys(d) == [d[0].0] + Keys(d[1..]);
      if d[0].0 != other {
        LookupAppend(d[1..], key, v, other);
      }
    }
  }

  /** `d[key] = v` on a dict: the value is replaced in place, or the entry is appended. */
  function Stamp(d: Entries, key: string, v: Cell): (r: Entries)
    ensures Lookup(r, key) == Some(v)
    ensures forall other :: other != key ==> Lookup(r, other) == Lookup(d, other)
    ensures Keys(r) == if key in Keys(d) then Keys(d) else Keys(d) + [key]
  {
    if key in Keys(d) then
      var r := Overwrite(d, key, v);
      LookupOverwrite(d, key, v, key);
      forall other | other != key ensures Lookup(r, other) == Lookup(d, other) {
        LookupOverwrite(d, key, v, other);
      }
      r
    else
      var r := d + [(key, v)];
      assert Keys(r) == Keys(d) + [key];
      LookupAppend(d, key, v, key);
      forall other | other != key ensures Lookup(r, other) == Lookup(d, other) {
        LookupAppend(d, key, v, other);
      }
      r
  }

  // -------------------------------------------- procesar_eventos_de_links

  /** The label the link's URL is stored under. */
  const SiteKey: string := "sitioWeb"

  /**
   * What one link yields before decoding: no page text, the model's reply
   * (`None` when the call failed), or a quota error from the model.
   */
  datatype Visit = NoContent | Reply(text: Option<string>) | RateLimited

  datatype Link = Link(url: Cell, visit: Visit)

  /** How the link loop ended: ran through, stopped by a quota error, or an escaping exception. */
  datatype LoopEnd = Done | Limited | Failed(error: PyError)

  datatype Gathered = Gathered(events: seq<Entries>, end: LoopEnd)

  /** The outcome of one link: nothing, one stamped object, or an end of the loop. */
  datatype Step = Skip | Keep(event: Entries) | End(end: LoopEnd)

  /** Lines 185-202 for one link. */
  function Visit1(l: Link, decode: Decoder): (r: Step)
    ensures r.End? ==> r.end != Done
    ensures r.Keep? ==> Lookup(r.event, SiteKey) == Some(l.url)
  {
    match l.visit
    case NoContent => Skip
    case RateLimited => End(Limited)
    case Reply(text) =>
      if text.None? || text.value == "" then Skip
      else
        var s := UnwrapJsonFence(text.value);
        if s !in decode then Skip else Stamped(decode[s], l.url)
  }

  /** `datos_evento_json['sitioWeb'] = row['link']` on a decoded value: only an object takes the key. */
  function Stamped(v: Cell, url: Cell): (r: Step)
    ensures r.Keep? <==> v.Dict?
    ensures r.Keep? ==> r.event == Stamp(v.entries, SiteKey, url)
    ensures r.End? ==> r.end.Failed? && r.end.error.TypeError?
  {
    match v
    case Dict(entries) => Keep(Stamp(entries, SiteKey, url))
    case _ => End(Failed(TypeError("object does not support item assignment")))
  }

  /** The outcome of each link, in order. */
  function Steps(links: seq<Link>, decode: Decoder): (r: seq<Step>)
    ensures |r| == |links| && forall k :: 0 <= k < |links| ==> r[k] == Visit1(links[k], decode)
  {
    seq(|links|, k requires 0 <= k < |links| => Visit1(links[k], decode))
  }

  /** The loop over the outcomes: kept objects in order, up to the first end. */
  function Fold(steps: seq<Step>): (r: Gathered)
    ensures |r.events| <= |steps|
    decreases |steps|
  {
    if |steps| == 0 then Gathered([], Done)
    else
      match steps[0]
      case Skip => Fold(steps[1..])
      case End(e) => Gathered([], e)
      case Keep(ev) =>
        var rest := Fold(steps[1..]);
        Gathered([ev] + rest.events, rest.end)
  }

  /** Every gathered object is the object of some kept outcome. */
  lemma {:induction false} FoldEvents(steps: seq<Step>, k: nat)
    requires k < |Fold(steps).events|
    ensures exists j :: 0 <= j < |steps| && steps[j] == Keep(Fold(steps).events[k])
    decreases |steps|
  {
    var rest := Fold(steps[1..]);
    if steps[0].Skip? {
      FoldEvents(steps[1..], k);
      var j :| 0 <= j < |steps[1..]| && steps[1..][j] == Keep(rest.events[k]);
      assert steps[j + 1] == steps[1..][j];
    } else if k > 0 {
      FoldEvents(steps[1..], k - 1);
      var j :| 0 <= j < |steps[1..]| && steps[1..][j] == Keep(rest.events[k - 1]);
      assert steps[j + 1] == steps[1..][j];
    }
  }

  /** Lines 183-205: the loop over the links, up to the first quota error or escaping exception. */
  function Gather(links: seq<Link>, decode: Decoder): (r: Gathered)
    ensures |r.events| <= |links|
    ensures forall k :: 0 <= k < |r.events| ==> exists j :: 0 <= j < |links| && Lookup(r.events[k], SiteKey) == Some(links[j].url)
  {
    var steps := Steps(links, decode);
    var r := Fold(steps);
    forall k | 0 <= k < |r.events| ensures exists j :: 0 <= j < |links| && Lookup(r.events[k], SiteKey) == Some(links[j].url) {
      FoldEvents(steps, k);
      var j :| 0 <= j < |steps| && steps[j] == Keep(r.events[k]);
      assert Visit1(links[j], decode).Keep?;
    }
    r
  }

  /** Two runs of outcomes in a row: the second counts only when the first ran through. */
  lemma {:induction false} FoldAppend(a: seq<Step>, b: seq<Step>)
    requires forall j :: 0 <= j < |a| ==> a[j] != End(Done)
    ensures var fa := Fold(a);
      Fold(a + b) == if fa.end == Done then Gathered(fa.events + Fold(b).events, Fold(b).end) else fa
    decreases |a|
  {
    if |a| == 0 {
      assert a + b == b;
    } else {
      assert (a + b)[0] == a[0] && (a + b)[1..] == a[1..] + b;
      FoldAppend(a[1..], b);
      if a[0].Keep? && Fold(a).end == Done {
        var rest := Fold(a[1..]).events;
        assert [a[0].event] + (rest + Fold(b).events) == ([a[0].event] + rest) + Fold(b).events;
      }
    }
  }

  /** Two batches of links in a row: the second is read only when the first ran through. */
  lemma GatherAppend(a: seq<Link>, b: seq<Link>, decode: Decoder)
    ensures var ga := Gather(a, decode);
      Gather(a + b, decode)
        == if ga.end == Done then Gathered(ga.events + Gather(b, decode).events, Gather(b, decode).end) else ga
  {
    var sa := Steps(a, decode);
    assert Steps(a + b, decode) == sa + Steps(b, decode);
    assert forall j :: 0 <= j < |sa| ==> sa[j] != End(Done);
    FoldAppend(sa, Steps(b, decode));
  }

  /** A quota error keeps what came before and reads nothing after it. */
  lemma RateLimitStops(a: seq<Link>, url: Cell, b: seq<Link>, decode: Decoder)
    requires Gather(a, decode).end == Done
    ensures Gather(a + [Link(url, RateLimited)] + b, decode) == Gathered(Gather(a, decode).events, Limited)
  {
    var l := [Link(url, RateLimited)];
    GatherAppend(a, l + b, decode);
    assert a + l + b == a + (l + b);
    assert Steps(l + b, decode)[0] == End(Limited);
    assert Gather(l + b, decode) == Gathered([], Limited);
    assert Gather(a, decode).events + [] == Gather(a, decode).events;
  }

  /** A run of one link is that link's outcome. */
  lemma GatherOne(l: Link, decode: Decoder)
    ensures Gather([l], decode) == match Visit1(l, decode)
      case Skip => Gathered([], Done)
      case Keep(ev) => Gathered([ev], Done)
      case End(e) => Gathered([], e)
  {
    var x := Visit1(l, decode);
    assert Steps([l], decode) == [x];
    FoldOne(x);
  }

  lemma FoldOne(x: Step)
    ensures Fold([x]) == match x
      case Skip => Gathered([], Done)
      case Keep(ev) => Gathered([ev], Done)
      case End(e) => Gathered([], e)
  {
    assert [x][0] == x && [x][1..] == [];
    assert Fold([]) == Gathered([], Done);
    if x.Keep? {
      assert [x.event] + [] == [x.event];
    }
  }

  /** A reply that decodes to an object is kept, stamped with its link. */
  lemma ReplyObject(url: Cell, text: string, decode: Decoder)
    requires text != "" && UnwrapJsonFence(text) in decode && decode[UnwrapJsonFence(text)].Dict?
    ensures Gather([Link(url, Reply(Some(text)))], decode)
         == Gathered([Stamp(decode[UnwrapJsonFence(text)].entries, SiteKey, url)], Done)
  {
    var l := Link(url, Reply(Some(text)));
    VisitObject(l, text, decode);
    GatherOne(l, decode);
  }

  lemma VisitObject(l: Link, text: string, decode: Decoder)
    requires l.visit == Reply(Some(text)) && text != ""
    requires UnwrapJsonFence(text) in decode && decode[UnwrapJsonFence(text)].Dict?
    ensures Visit1(l, decode) == Keep(Stamp(decode[UnwrapJsonFence(text)].entries, SiteKey, l.url))
  {
  }

  /** A reply that does not parse is skipped. */
  lemma ReplyUnparsed(url: Cell, text: string, decode: Decoder)
    requires UnwrapJsonFence(text) !in decode
    ensures Gather([Link(url, Reply(Some(text)))], decode) == Gathered([], Done)
  {
    GatherOne(Link(url, Reply(Some(text))), decode);
  }

  /** A reply that parses to anything but an object raises `TypeError` at the stamping. */
  lemma ReplyNotObject(url: Cell, text: string, decode: Decoder)
    requires text != "" && UnwrapJsonFence(text) in decode && !decode[UnwrapJsonFence(text)].Dict?
    ensures var g := Gather([Link(url, Reply(Some(text)))], decode);
      g.events == [] && g.end.Failed? && g.end.error.TypeError?
  {
    GatherOne(Link(url, Reply(Some(text))), decode);
  }

  /** What the `finally` block keeps: the frame written to CSV and the renamed, completed frame. */
  datatype Processed = Processed(written: Option<Frame>, prepared: Option<Frame>, raised: Option<PyError>)

  /**
   * Lines 183-228: the loop, then the frame built from what was gathered, if
   * anything; that frame is written to CSV, and then renamed and completed.
   */
  function ProcessLinks(links: seq<Link>, decode: Decoder): (r: Processed)
    ensures var g := Gather(links, decode);
      (r.written.Some? <==> |g.events| > 0) &&
      (r.written.Some? ==>
         |r.written.value.rows| == |g.events| && SiteKey in r.written.value.columns) &&
      (r.raised.Some? <==> g.end.Failed?)
    ensures var g := Gather(links, decode);
      (r.written.Some? ==> r.written.value == FromRecords(g.events) && r.prepared == Some(Prepare(r.written.value))) &&
      (r.written.None? ==> r.prepared.None?)
    ensures r.raised.Some? ==> r.raised == Some(Gather(links, decode).end.error)
  {
    var g := Gather(links, decode);
    var raised := if g.end.Failed? then Some(g.end.error) else None;
    if |g.events| == 0 then Processed(None, None, raised)
    else
      var f := FromRecords(g.events);
      assert Lookup(g.events[0], SiteKey).Some?;
      Processed(Some(f), Some(Prepare(f)), raised)
  }

  // ----------------------------------------------------------- DataFrame(list)

  /** `ks` appended to `seen`, each label only the first time it appears. */
  function AddNew(seen: seq<string>, ks: seq<string>): (r: seq<string>)
    ensures Distinct(seen) ==> Distinct(r)
    ensures forall x :: x in r <==> x in seen || x in ks
    decreases |ks|
  {
    if |ks| == 0 then seen
    else AddNew(if ks[0] in seen then seen else seen + [ks[0]], ks[1..])
  }

  /** The labels of all records, in order of first appearance. */
  function Labels(records: seq<Entries>, seen: seq<string>): (r: seq<string>)
    ensures Distinct(seen) ==> Distinct(r)
    ensures forall x :: x in r <==> x in seen || exists i :: 0 <= i < |records| && x in Keys(records[i])
    decreases |records|
  {
    if |records| == 0 then seen
    else
      var r := Labels(records[1..], AddNew(seen, Keys(records[0])));
      forall x | x in r ensures x in seen || exists i :: 0 <= i < |records| && x in Keys(records[i]) {
        if x !in seen && x !in Keys(records[0]) {
          var i :| 0 <= i < |records[1..]| && x in Keys(records[1..][i]);
          assert records[i + 1] == records[1..][i];
        }
      }
      forall x | x in seen || exists i :: 0 <= i < |records| && x in Keys(records[i]) ensures x in r {
        if x !in seen && x !in Keys(records[0]) {
          var i :| 0 <= i < |records| && x in Keys(records[i]);
          assert records[1..][i - 1] == records[i];
        }
      }
      r
  }

  /** One row per record, one cell per label: the record's value, or null where it has none. */
  function RowOf(d: Entries, cols: seq<string>): (r: Row)
    ensures |r| == |cols| && forall k :: 0 <= k < |cols| ==> r[k] == Lookup(d, cols[k]).GetOr(Null)
  {
    seq(|cols|, k requires 0 <= k < |cols| => Lookup(d, cols[k]).GetOr(Null))
  }

  /** `pd.DataFrame(records)` on a list of dicts. */
  function FromRecords(records: seq<Entries>): (r: Frame)
    ensures WellFormed(r) && |r.rows| == |records| && Distinct(r.columns)
    ensures forall c :: c in r.columns <==> exists i :: 0 <= i < |records| && Lookup(records[i], c).Some?
    ensures forall i, c :: 0 <= i < |records| && c in r.columns ==> Get(r, i, c) == Some(Lookup(records[i], c).GetOr(Null))
  {
    var cols := Labels(records, []);
    var r := Frame(cols, seq(|records|, i requires 0 <= i < |records| => RowOf(records[i], cols)));
    forall i, c | 0 <= i < |records| && c in cols ensures Get(r, i, c) == Some(Lookup(records[i], c).GetOr(Null)) {
      var p := Position(cols, c).value;
      assert r.rows[i][p] == Lookup(records[i], cols[p]).GetOr(Null);
    }
    r
  }

  // --------------------------------------------------------- rename, defaults

  /** Lines 213-219. */
  const ColumnMapping: seq<(string, string)> := [
    ("nombreEvento", "nombre"), ("tipoEvento", "tipo"), ("detalleTipoRotacion", "detalle_tipo_rotacion"),
    ("tema", "tema"), ("fechaEdicion", "fecha_edicion"), ("fechaInicio", "fecha_inicio"),
    ("fechaFinalizacion", "fecha_fin"), ("añoRaw", "anio"), ("mesLiteralRaw", "mes"),
    ("diaInicioRaw", "dia_inicio"), ("diaFinalRaw", "dia_fin"), ("fechaRaw", "fecha_texto"),
    ("sedeRaw", "sedeRaw"), ("sitioWeb", "sitio_web")
  ]

  /** The new name of a label under a table; labels the table does not name stay. */
  function Renamed(table: seq<(string, string)>, c: string): (r: string)
    ensures (forall k :: 0 <= k < |table| ==> table[k].0 != c) ==> r == c
    ensures (exists k :: 0 <= k < |table| && table[k].0 == c) ==> (c, r) in table
    decreases |table|
  {
    if |table| == 0 then c
    else if table[0].0 == c then table[0].1
    else Renamed(table[1..], c)
  }

  function RenameLabel(c: string): string {
    Renamed(ColumnMapping, c)
  }

  /** `df.rename(columns=column_mapping)`: labels change, cells do not. */
  function Rename(f: Frame): (r: Frame)
    ensures r.rows == f.rows && |r.columns| == |f.columns|
    ensures WellFormed(f) ==> WellFormed(r)
  {
    Frame(seq(|f.columns|, k requires 0 <= k < |f.columns| => RenameLabel(f.columns[k])), f.rows)
  }

  /**
   * A column keeps its cells under its new name, when no other column is
   * renamed to the same label. With two such columns pandas keeps both,
   * and `row.get` returns a Series of the two cells rather than one
   * value; that case is not modelled.
   */
  lemma RenameGet(f: Frame, i: nat, c: string)
    requires WellFormed(f) && c in f.columns
    requires forall d :: d in f.columns && RenameLabel(d) == RenameLabel(c) ==> d == c
    ensures RenameLabel(c) in Rename(f).columns
    ensures Get(Rename(f), i, RenameLabel(c)) == Get(f, i, c)
  {
    var g := Rename(f);
    var x := RenameLabel(c);
    var p := Position(f.columns, c).value;
    assert g.columns[p] == x;
    var q := Position(g.columns, x).value;
    assert q <= p;
    assert RenameLabel(f.columns[q]) == x && f.columns[q] in f.columns;
    assert f.columns[q] == c;
    assert q == p;
  }

  /** No label other than x itself is renamed to x. */
  ghost predicate OnlyFrom(x: string) {
    forall d :: RenameLabel(d) == x ==> d == x
  }

  /** A label that keeps its name and receives no other keeps its column through the rename. */
  lemma RenameKeeps(f: Frame, i: nat, x: string)
    requires WellFormed(f) && RenameLabel(x) == x && OnlyFrom(x)
    ensures x in Rename(f).columns <==> x in f.columns
    ensures Get(Rename(f), i, x) == Get(f, i, x)
  {
    var g := Rename(f);
    if x in f.columns {
      RenameGet(f, i, x);
    } else {
      forall k | 0 <= k < |g.columns| ensures g.columns[k] != x {
        assert g.columns[k] == RenameLabel(f.columns[k]);
        assert f.columns[k] in f.columns;
      }
    }
  }

  /** The table neither reads nor writes the two default labels, and maps `sedeRaw` only onto itself. */
  lemma TableFacts()
    ensures forall k :: 0 <= k < |ColumnMapping| ==>
      ColumnMapping[k].0 != OrganiserKey && ColumnMapping[k].1 != OrganiserKey &&
      ColumnMapping[k].0 != ReviewKey && ColumnMapping[k].1 != ReviewKey
    ensures forall k :: 0 <= k < |ColumnMapping| ==> (ColumnMapping[k].0 == VenueKey <==> ColumnMapping[k].1 == VenueKey)
    ensures forall k :: 0 <= k < |ColumnMapping| ==> (ColumnMapping[k].0 == SiteKey <==> ColumnMapping[k].1 == SiteColumn)
    ensures forall k :: 0 <= k < |ColumnMapping| ==> ColumnMapping[k].0 != SiteColumn
  {
  }

  /** The column the link ends up in. */
  const SiteColumn: string := "sitio_web"

  /** `sitioWeb` becomes `sitio_web`, and nothing else does unless it was already called that. */
  lemma SiteRenamed()
    ensures RenameLabel(SiteKey) == SiteColumn
    ensures forall d :: RenameLabel(d) == SiteColumn ==> d == SiteKey || d == SiteColumn
  {
    TableFacts();
    assert ColumnMapping[13].0 == SiteKey;
    forall d | d != SiteKey && d != SiteColumn ensures RenameLabel(d) != SiteColumn {
      if exists k :: 0 <= k < |ColumnMapping| && ColumnMapping[k].0 == d {
        assert (d, RenameLabel(d)) in ColumnMapping;
      }
    }
  }

  /** A label the table neither reads nor writes keeps its name and receives no other. */
  lemma Untouched(x: string)
    requires forall k :: 0 <= k < |ColumnMapping| ==> ColumnMapping[k].0 != x && ColumnMapping[k].1 != x
    ensures RenameLabel(x) == x && OnlyFrom(x)
  {
    forall d | d != x ensures RenameLabel(d) != x {
      if exists k :: 0 <= k < |ColumnMapping| && ColumnMapping[k].0 == d {
        assert (d, RenameLabel(d)) in ColumnMapping;
      }
    }
  }

  /** `sedeRaw` is mapped onto itself, and nothing else is mapped onto it. */
  lemma VenueKept()
    ensures RenameLabel(VenueKey) == VenueKey && OnlyFrom(VenueKey)
  {
    TableFacts();
    forall d | d != VenueKey ensures RenameLabel(d) != VenueKey {
      if exists k :: 0 <= k < |ColumnMapping| && ColumnMapping[k].0 == d {
        assert (d, RenameLabel(d)) in ColumnMapping;
      }
    }
    VenueSelf();
  }

  lemma VenueSelf()
    ensures RenameLabel(VenueKey) == VenueKey
  {
    TableFacts();
    assert ColumnMapping[12].0 == VenueKey;
    assert (VenueKey, RenameLabel(VenueKey)) in ColumnMapping;
  }

  /** The three labels `guardar_eventos` reads that the rename leaves alone. */
  lemma KeptLabels()
    ensures RenameLabel(OrganiserKey) == OrganiserKey && OnlyFrom(OrganiserKey)
    ensures RenameLabel(ReviewKey) == ReviewKey && OnlyFrom(ReviewKey)
    ensures RenameLabel(VenueKey) == VenueKey && OnlyFrom(VenueKey)
  {
    TableFacts();
    Untouched(OrganiserKey);
    Untouched(ReviewKey);
    VenueKept();
  }

  const VenueKey: string := "sedeRaw"
  const OrganiserKey: string := "entidadOrganizadora"
  const ReviewKey: string := "requiereRevision"

  /** Lines 222-225: both columns are added, null, only when missing. */
  function Defaults(f: Frame): (r: Frame)
    requires WellFormed(f)
    ensures WellFormed(r) && |r.rows| == |f.rows| && OrganiserKey in r.columns && ReviewKey in r.columns
    ensures forall c :: c in r.columns <==> c in f.columns || c == OrganiserKey || c == ReviewKey
    ensures forall i, c :: 0 <= i < |f.rows| && c in f.columns ==> Get(r, i, c) == Get(f, i, c)
    ensures forall i :: 0 <= i < |f.rows| && OrganiserKey !in f.columns ==> Get(r, i, OrganiserKey) == Some(Null)
    ensures forall i :: 0 <= i < |f.rows| && ReviewKey !in f.columns ==> Get(r, i, ReviewKey) == Some(Null)
  {
    var g := WithColumn(f, OrganiserKey);
    WithColumn(g, ReviewKey)
  }

  /**
   * Lines 213-225 on the gathered frame: every column is there under its
   * new label, and the two default columns exist, null wherever they were
   * missing.
   */
  function Prepare(f: Frame): (r: Frame)
    requires WellFormed(f)
    ensures WellFormed(r) && |r.rows| == |f.rows| && |r.columns| > 0
    ensures OrganiserKey in r.columns && ReviewKey in r.columns
    ensures forall k :: 0 <= k < |f.columns| ==> RenameLabel(f.columns[k]) in r.columns
    ensures forall c :: c in r.columns ==> c == OrganiserKey || c == ReviewKey || exists k :: 0 <= k < |f.columns| && RenameLabel(f.columns[k]) == c
  {
    var g := Rename(f);
    assert forall k :: 0 <= k < |f.columns| ==> g.columns[k] == RenameLabel(f.columns[k]);
    Defaults(g)
  }

  // ------------------------------------------------------ guardar_eventos

  /** The columns of an `Evento` row, each read with `row.get`. */
  datatype Evento = Evento(
    nombre: Option<Cell>, tipo: Option<Cell>, agrupacion: Option<Cell>,
    detalle_tipo_rotacion: Option<Cell>, tema: Option<Cell>,
    fecha_edicion: Option<Cell>, fecha_inicio: Option<Cell>, fecha_fin: Option<Cell>,
    anio: Option<Cell>, mes: Option<Cell>, dia_inicio: Option<Cell>, dia_fin: Option<Cell>,
    fecha_texto: Option<Cell>, sede: Option<Cell>, sitio_web: Option<Cell>,
    entidad_organizadora: Option<Cell>, requiere_revision: Option<Cell>)

  /**
   * Lines 134-151 for row i: each field is `row.get` of its column, so it
   * is absent exactly when the frame lacks that column.
   */
  function ToEvento(f: Frame, i: nat): (r: Evento)
    requires i < |f.rows|
    ensures WellFormed(f) ==>
      (r.nombre.None? <==> "nombre" !in f.columns) &&
      (r.tipo.None? <==> "tipo" !in f.columns) &&
      (r.agrupacion.None? <==> "agrupacion" !in f.columns) &&
      (r.detalle_tipo_rotacion.None? <==> "detalle_tipo_rotacion" !in f.columns) &&
      (r.tema.None? <==> "tema" !in f.columns) &&
      (r.fecha_edicion.None? <==> "fecha_edicion" !in f.columns) &&
      (r.fecha_inicio.None? <==> "fecha_inicio" !in f.columns) &&
      (r.fecha_fin.None? <==> "fecha_fin" !in f.columns) &&
      (r.anio.None? <==> "anio" !in f.columns) &&
      (r.mes.None? <==> "mes" !in f.columns) &&
      (r.dia_inicio.None? <==> "dia_inicio" !in f.columns) &&
      (r.dia_fin.None? <==> "dia_fin" !in f.columns) &&
      (r.fecha_texto.None? <==> "fecha_texto" !in f.columns) &&
      (r.sede.None? <==> VenueKey !in f.columns) &&
      (r.sitio_web.None? <==> SiteColumn !in f.columns) &&
      (r.entidad_organizadora.None? <==> OrganiserKey !in f.columns) &&
      (r.requiere_revision.None? <==> ReviewKey !in f.columns)
  {
    Evento(
      Get(f, i, "nombre"), Get(f, i, "tipo"), Get(f, i, "agrupacion"),
      Get(f, i, "detalle_tipo_rotacion"), Get(f, i, "tema"),
      Get(f, i, "fecha_edicion"), Get(f, i, "fecha_inicio"), Get(f, i, "fecha_fin"),
      Get(f, i, "anio"), Get(f, i, "mes"), Get(f, i, "dia_inicio"), Get(f, i, "dia_fin"),
      Get(f, i, "fecha_texto"), Get(f, i, VenueKey), Get(f, i, SiteColumn),
      Get(f, i, OrganiserKey), Get(f, i, ReviewKey))
  }

  /** `df.empty`: no rows or no columns. */
  predicate IsEmpty(f: Frame) {
    |f.rows| == 0 || |f.columns| == 0
  }

  /** Lines 125-163: the events added to the session, one per row, none for an empty frame. */
  function SaveEvents(f: Frame): (r: seq<Evento>)
    ensures IsEmpty(f) <==> |r| == 0
    ensures !IsEmpty(f) ==> |r| == |f.rows|
    ensures forall i :: 0 <= i < |r| ==> r[i] == Evento(
      nombre := Get(f, i, "nombre"), tipo := Get(f, i, "tipo"), agrupacion := Get(f, i, "agrupacion"),
      detalle_tipo_rotacion := Get(f, i, "detalle_tipo_rotacion"), tema := Get(f, i, "tema"),
      fecha_edicion := Get(f, i, "fecha_edicion"), fecha_inicio := Get(f, i, "fecha_inicio"),
      fecha_fin := Get(f, i, "fecha_fin"), anio := Get(f, i, "anio"), mes := Get(f, i, "mes"),
      dia_inicio := Get(f, i, "dia_inicio"), dia_fin := Get(f, i, "dia_fin"),
      fecha_texto := Get(f, i, "fecha_texto"), sede := Get(f, i, "sedeRaw"),
      sitio_web := Get(f, i, "sitio_web"), entidad_organizadora := Get(f, i, "entidadOrganizadora"),
      requiere_revision := Get(f, i, "requiereRevision"))
  {
    if IsEmpty(f) then [] else seq(|f.rows|, i requires 0 <= i < |f.rows| => ToEvento(f, i))
  }

  /** Whether any record has the key, i.e. whether the frame has that column. */
  ghost predicate AnyHas(records: seq<Entries>, key: string) {
    exists j :: 0 <= j < |records| && Lookup(records[j], key).Some?
  }

  /**
   * Were the frame built from the gathered objects, renamed and completed,
   * passed to `guardar_eventos` (the script drops it instead), every object
   * would become an event whose organiser and review flag are the object's
   * own, or null when it had none.
   */
  lemma SavedDefaults(records: seq<Entries>, i: nat)
    requires i < |records|
    ensures var saved := SaveEvents(Prepare(FromRecords(records)));
      |saved| == |records| &&
      saved[i].entidad_organizadora == Some(Lookup(records[i], OrganiserKey).GetOr(Null)) &&
      saved[i].requiere_revision == Some(Lookup(records[i], ReviewKey).GetOr(Null))
  {
    var f := FromRecords(records);
    KeptLabels();
    RenameKeeps(f, i, OrganiserKey);
    RenameKeeps(f, i, ReviewKey);
  }

  /**
   * On the same hypothetical save, each event's `sede` is the object's raw
   * venue: its value, or null when another object has one and this one does
   * not, and `None` from `row.get` when no object has one at all.
   */
  lemma SavedVenue(records: seq<Entries>, i: nat)
    requires i < |records|
    ensures var saved := SaveEvents(Prepare(FromRecords(records)));
      |saved| == |records| &&
      saved[i].sede == if AnyHas(records, VenueKey) then Some(Lookup(records[i], VenueKey).GetOr(Null)) else None
  {
    var f := FromRecords(records);
    KeptLabels();
    RenameKeeps(f, i, VenueKey);
    assert VenueKey != OrganiserKey && VenueKey != ReviewKey;
  }

  /**
   * On the same hypothetical save, each event's `sitio_web` is the object's
   * `sitioWeb`, as long as no object carries a `sitio_web` of its own.
   */
  lemma SavedSite(records: seq<Entries>, i: nat)
    requires i < |records|
    requires forall j :: 0 <= j < |records| ==> Lookup(records[j], SiteColumn).None?
    ensures var saved := SaveEvents(Prepare(FromRecords(records)));
      |saved| == |records| &&
      saved[i].sitio_web == if AnyHas(records, SiteKey) then Some(Lookup(records[i], SiteKey).GetOr(Null)) else None
  {
    var f := FromRecords(records);
    var g := Rename(f);
    SiteRenamed();
    assert SiteColumn !in f.columns;
    if SiteKey in f.columns {
      RenameGet(f, i, SiteKey);
    } else {
      forall k | 0 <= k < |g.columns| ensures g.columns[k] != SiteColumn {
        assert g.columns[k] == RenameLabel(f.columns[k]);
        assert f.columns[k] in f.columns;
      }
    }
    assert SiteColumn != OrganiserKey && SiteColumn != ReviewKey;
  }

  /**
   * The frame `procesar_eventos_de_links` renames and completes is shaped for
   * `guardar_eventos`, though the script never hands it over: were it saved,
   * every event would carry the URL of one of the links.
   */
  lemma LinkReachesEvento(links: seq<Link>, decode: Decoder, i: nat)
    requires var g := Gather(links, decode);
      i < |g.events| && forall j :: 0 <= j < |g.events| ==> Lookup(g.events[j], SiteColumn).None?
    ensures var r := ProcessLinks(links, decode);
      r.prepared.Some? &&
      var saved := SaveEvents(r.prepared.value);
      |saved| == |Gather(links, decode).events| && exists j :: 0 <= j < |links| && saved[i].sitio_web == Some(links[j].url)
  {
    var events := Gather(links, decode).events;
    SavedSite(events, i);
    var j :| 0 <= j < |links| && Lookup(events[i], SiteKey) == Some(links[j].url);
    assert AnyHas(events, SiteKey);
  }

  // ------------------------------------------------ the module-level loop

  /** What the model returned for one link: a string, or nothing (None or an exception). */
  datatype Answer = NoAnswer | Text(s: string)

  /** Lines 234-256 for one link: an object is one row, a list adds its elements, anything else nothing. */
  function RowsOf(a: Answer, decode: Decoder): (r: seq<Cell>)
    ensures a.NoAnswer? ==> r == []
    ensures a.Text? && a.s in decode && decode[a.s].Dict? && decode[a.s].entries != [] ==> r == [decode[a.s]]
    ensures a.Text? && a.s in decode && decode[a.s].List? ==> r == decode[a.s].items
    ensures a.Text? && a.s in decode && !decode[a.s].Dict? && !decode[a.s].List? ==> r == []
    ensures a.Text? && a.s in decode && decode[a.s] == Dict([]) ==> r == []
    ensures a.Text? && a.s !in decode ==> r == []
  {
    match a
    case NoAnswer => []
    case Text(s) =>
      if s !in decode then []
      else
        var data := decode[s];
        if !Truthy(data) then []
        else if data.Dict? then [data]
        else if data.List? then data.items
        else []
  }

  /** Lines 231-256: the rows gathered over all links, in order. */
  function Collect(answers: seq<Answer>, decode: Decoder): (r: seq<Cell>)
    ensures forall v :: v in r ==> exists j :: 0 <= j < |answers| && v in RowsOf(answers[j], decode)
    decreases |answers|
  {
    if |answers| == 0 then []
    else
      var rest := Collect(answers[1..], decode);
      forall v | v in rest ensures exists j :: 0 <= j < |answers| && v in RowsOf(answers[j], decode) {
        var j :| 0 <= j < |answers[1..]| && v in RowsOf(answers[1..][j], decode);
        assert answers[j + 1] == answers[1..][j];
      }
      RowsOf(answers[0], decode) + rest
  }

  /** One link's answer collects to its own rows. */
  lemma CollectOne(a: Answer, decode: Decoder)
    ensures Collect([a], decode) == RowsOf(a, decode)
  {
    assert [a][1..] == [];
  }

  /** Collecting two runs of links is collecting each, one after the other. */
  lemma {:induction false} CollectAppend(a: seq<Answer>, b: seq<Answer>, decode: Decoder)
    ensures Collect(a + b, decode) == Collect(a, decode) + Collect(b, decode)
    decreases |a|
  {
    if |a| == 0 {
      assert a + b == b;
    } else {
      assert (a + b)[0] == a[0] && (a + b)[1..] == a[1..] + b;
      CollectAppend(a[1..], b, decode);
    }
  }
}
