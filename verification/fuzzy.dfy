/**
 * Fuzzy reconciliation against a catalog. The scorer (`process.extractOne`)
 * and everything that produces the text it scores (page download, HTML
 * cleanup, the language model) are inputs: a `Scorer` function and one
 * `Reply` per row.
 *
 * - `corregir_sedes` (scripts/correccion_sedes.py) and
 *   `asignar_entidades_organizadoras` (scripts/asignar_entidad.py) share one
 *   per-row loop that differs only in the four columns it writes.
 * - `corregir_sede_fuzzy` (scripts/corregir_sedes.py) rewrites one column
 *   with a lower threshold and no sentinel.
 */
module Fuzzy {
  import opened Base
  import opened Text
  import opened Frames

  /** What `process.extractOne` returns: the best choice and its score. */
  datatype Match = Match(best: Cell, score: int)

  /** `process.extractOne(query, choices)`; `None` is what it gives for an empty catalog. */
  type Scorer = (Cell, seq<Cell>) -> Option<Match>

  /**
   * A scorer that behaves like `extractOne`: it answers exactly when the
   * catalog is non-empty (every choice scores at least the cutoff 0, so
   * the maximum exists), and its answer is a member of the catalog.
   */
  ghost predicate PicksFromCatalog(extract: Scorer) {
    forall q, cs :: (extract(q, cs).Some? <==> |cs| > 0) && (extract(q, cs).Some? ==> extract(q, cs).value.best in cs)
  }

  const LoopThreshold: int := 90
  const ApplyThreshold: int := 85

  /** The assigned value and the review flag the loop writes for a scored row. */
  datatype Verdict = Verdict(final: Cell, review: string)

  /** correccion_sedes.py:62-68 and asignar_entidad.py:47-52: accept at `threshold` or above. */
  function Decide(m: Match, threshold: int): (v: Verdict)
    ensures v.review == "No" || v.review == "Sí"
    ensures v.review == "No" <==> m.score >= threshold
    ensures v.final == if v.review == "No" then m.best else Str("NO_MATCH")
  {
    if m.score >= threshold then Verdict(m.best, "No") else Verdict(Str("NO_MATCH"), "Sí")
  }

  /** Raising the score never turns an accepted match into a rejected one. */
  lemma DecideMonotone(best: Cell, s: int, s': int, threshold: int)
    requires s <= s' && Decide(Match(best, s), threshold).review == "No"
    ensures Decide(Match(best, s'), threshold) == Decide(Match(best, s), threshold)
  {
  }

  /** The boundary belongs to acceptance: 90 is accepted and 89 is not. */
  lemma DecideBoundary(best: Cell)
    ensures Decide(Match(best, 90), LoopThreshold) == Verdict(best, "No")
    ensures Decide(Match(best, 89), LoopThreshold) == Verdict(Str("NO_MATCH"), "Sí")
  {
  }

  // ---------------------------------------------------------- the row loop

  /** The four columns one loop writes. */
  datatype Targets = Targets(raw: string, final: string, score: string, review: string)

  const VenueTargets: Targets := Targets("sedeOriginalLLM", "sedeRaw_corregida", "sedeMatchScore", "sedeRequiereRevision")
  const EntityTargets: Targets := Targets("entidadOriginalLLM", "entidadOrganizadora", "matchScore", "requiereRevision")

  predicate IsTarget(t: Targets, c: string) {
    c == t.raw || c == t.final || c == t.score || c == t.review
  }

  predicate DistinctTargets(t: Targets) {
    t.raw != t.final && t.raw != t.score && t.raw != t.review && t.final != t.score && t.final != t.review && t.score != t.review
  }

  /** What fetching a row's page and asking the model produced. */
  datatype Reply =
    | Answered(text: string)   // the model's reply
    | Failed                   // any other exception on the way (HTTP error, timeout, ...)
    | RateLimited              // the model's `RateLimitError`

  /** What the loop does with one row: write its four cells, or stop. */
  datatype Step = Write(raw: Cell, final: Cell, score: Cell, review: Cell) | Stop

  /** The generic exception handler's four cells. */
  const ErrorWrite: Step := Write(Str("ERROR"), Str("ERROR"), Num(0), Str("Sí"))

  /** `row.get("sitioWeb", "")` is usable: a non-empty string. */
  predicate ValidUrl(url: Option<Cell>) {
    url.Some? && url.value.Str? && |url.value.s| > 0
  }

  /** One iteration of the loop body (correccion_sedes.py:29-86, asignar_entidad.py:17-70). */
  function RowStep(url: Option<Cell>, reply: Reply, catalog: seq<Cell>, extract: Scorer): (s: Step)
    ensures !ValidUrl(url) ==> s == ErrorWrite
    ensures s.Stop? <==> ValidUrl(url) && reply.RateLimited?
    ensures reply.Failed? ==> s == ErrorWrite
  {
    if !ValidUrl(url) then ErrorWrite
    else
      match reply
      case Failed => ErrorWrite
      case RateLimited => Stop
      case Answered(text) => Scored(Strip(text), extract(Str(Strip(text)), catalog))
  }

  /** The success path's four cells; unpacking `None` from an empty catalog raises and lands in the error path. */
  function Scored(raw: string, m: Option<Match>): Step {
    if m.None? then ErrorWrite
    else
      var v := Decide(m.value, LoopThreshold);
      Write(Str(raw), v.final, Num(m.value.score), Str(v.review))
  }

  /** A row is only ever cleared ("No") by a catalog match scoring at least 90; a failure always asks for review. */
  lemma ClearedOnlyByMatch(url: Option<Cell>, reply: Reply, catalog: seq<Cell>, extract: Scorer)
    requires PicksFromCatalog(extract)
    ensures var s := RowStep(url, reply, catalog, extract);
      s.Write? && s.review == Str("No") ==>
        ValidUrl(url) && reply.Answered? && |catalog| > 0 &&
        var m := extract(Str(Strip(reply.text)), catalog);
        m.Some? && m.value.score >= LoopThreshold && s.final == m.value.best && s.final in catalog &&
        s.raw == Str(Strip(reply.text)) && s.score == Num(m.value.score)
    ensures var s := RowStep(url, reply, catalog, extract);
      s.Write? && s.review != Str("No") ==> s.review == Str("Sí") && (s.final == Str("NO_MATCH") || s == ErrorWrite)
  {
  }

  /**
   * With a non-empty catalog an answered row is always scored: it is
   * cleared exactly when the best match reaches 90, and otherwise marked
   * "NO_MATCH" for review.
   */
  lemma AnsweredRowScored(url: Option<Cell>, text: string, catalog: seq<Cell>, extract: Scorer)
    requires PicksFromCatalog(extract) && ValidUrl(url) && |catalog| > 0
    ensures var s := RowStep(url, Answered(text), catalog, extract);
      var m := extract(Str(Strip(text)), catalog);
      m.Some? && s.Write? && s.raw == Str(Strip(text)) && s.score == Num(m.value.score) &&
      (s.review == Str("No") <==> m.value.score >= LoopThreshold) &&
      s.final == (if m.value.score >= LoopThreshold then m.value.best else Str("NO_MATCH"))
  {
    assert extract(Str(Strip(text)), catalog).Some?;
  }

  /** With an empty catalog the scorer has nothing to return, so every answered row takes the error path. */
  lemma EmptyCatalogErrors(url: Option<Cell>, text: string, extract: Scorer)
    requires PicksFromCatalog(extract) && ValidUrl(url)
    ensures RowStep(url, Answered(text), [], extract) == ErrorWrite
  {
    assert extract(Str(Strip(text)), []).None?;
  }

  /** The four cells of row `i` are those of `s`. */
  predicate Written(g: Frame, i: nat, t: Targets, s: Step)
    requires s.Write?
  {
    Get(g, i, t.raw) == Some(s.raw) && Get(g, i, t.final) == Some(s.final) &&
    Get(g, i, t.score) == Some(s.score) && Get(g, i, t.review) == Some(s.review)
  }

  /** The four `df.at` assignments of one iteration. */
  function WriteRow(g: Frame, i: nat, t: Targets, s: Step): (r: Frame)
    requires WellFormed(g) && i < |g.rows| && s.Write? && DistinctTargets(t)
    ensures WellFormed(r) && |r.rows| == |g.rows|
    ensures forall c :: c in g.columns ==> c in r.columns
    ensures forall c :: c in r.columns ==> c in g.columns || IsTarget(t, c)
    ensures Written(r, i, t, s)
    ensures forall j, c :: 0 <= j < |g.rows| && c in g.columns && (j != i || !IsTarget(t, c)) ==> Get(r, j, c) == Get(g, j, c)
    ensures forall j, c :: 0 <= j < |g.rows| && j != i && c in r.columns && c !in g.columns ==> Get(r, j, c) == Some(Null)
  {
    var g2 := SetTwo(g, i, t.raw, s.raw, t.final, s.final);
    var r := SetTwo(g2, i, t.score, s.score, t.review, s.review);
    assert t.raw in g2.columns && t.final in g2.columns;
    assert Get(r, i, t.raw) == Get(g2, i, t.raw) == Some(s.raw);
    assert Get(r, i, t.final) == Get(g2, i, t.final) == Some(s.final);
    assert Get(r, i, t.score) == Some(s.score) && Get(r, i, t.review) == Some(s.review);
    r
  }

  /** Two `df.at` assignments to distinct columns of one row. */
  function SetTwo(g: Frame, i: nat, a: string, va: Cell, b: string, vb: Cell): (r: Frame)
    requires WellFormed(g) && i < |g.rows| && a != b
    ensures WellFormed(r) && |r.rows| == |g.rows|
    ensures forall c :: c in g.columns ==> c in r.columns
    ensures forall c :: c in r.columns ==> c in g.columns || c == a || c == b
    ensures Get(r, i, a) == Some(va) && Get(r, i, b) == Some(vb)
    ensures forall j, c :: 0 <= j < |g.rows| && c in g.columns && (j != i || (c != a && c != b)) ==> Get(r, j, c) == Get(g, j, c)
    ensures forall j, c :: 0 <= j < |g.rows| && j != i && c in r.columns && c !in g.columns ==> Get(r, j, c) == Some(Null)
  {
    var g1 := SetAt(g, i, a, va);
    var r := SetAt(g1, i, b, vb);
    assert Get(r, i, a) == Get(g1, i, a);
    assert forall c :: c in g1.columns <==> c in g.columns || c == a;
    assert forall c :: c in r.columns <==> c in g1.columns || c == b;
    assert b !in g.columns ==> b !in g1.columns;
    r
  }

  /** The first row the loop stops at, or the row count. */
  function StopRow(f: Frame, replies: nat -> Reply, i: nat): (n: nat)
    requires i <= |f.rows|
    ensures i <= n <= |f.rows|
    ensures forall j :: i <= j < n ==> !(ValidUrl(Get(f, j, "sitioWeb")) && replies(j).RateLimited?)
    ensures n < |f.rows| ==> ValidUrl(Get(f, n, "sitioWeb")) && replies(n).RateLimited?
    decreases |f.rows| - i
  {
    if i == |f.rows| then i
    else if ValidUrl(Get(f, i, "sitioWeb")) && replies(i).RateLimited? then i
    else StopRow(f, replies, i + 1)
  }

  /** The loop from row `i` on; rows are read from the frame being written, as `iterrows` reads them. */
  function Reconcile(g: Frame, t: Targets, catalog: seq<Cell>, extract: Scorer, replies: nat -> Reply, i: nat): (r: Frame)
    requires WellFormed(g) && i <= |g.rows| && DistinctTargets(t)
    decreases |g.rows| - i
    ensures Shape(g, r, t) && Untargeted(g, r, t)
  {
    if i == |g.rows| then g
    else
      var s := RowStep(Get(g, i, "sitioWeb"), replies(i), catalog, extract);
      if s.Stop? then g
      else Reconcile(WriteRow(g, i, t, s), t, catalog, extract, replies, i + 1)
  }

  /** The step the loop takes at row `j` of the input frame. */
  function StepAt(f: Frame, j: nat, catalog: seq<Cell>, extract: Scorer, replies: nat -> Reply): Step {
    RowStep(Get(f, j, "sitioWeb"), replies(j), catalog, extract)
  }

  /** `g` is `f` after the loop has written rows `0 .. i - 1`. */
  predicate After(f: Frame, g: Frame, i: nat, t: Targets, catalog: seq<Cell>, extract: Scorer, replies: nat -> Reply)
  {
    Shape(f, g, t) && i <= |f.rows| && Untargeted(f, g, t) && DoneRows(f, g, i, t, catalog, extract, replies) && PendingRows(f, g, i)
  }

  /** Same rows; the old columns and possibly some target columns. */
  predicate Shape(f: Frame, g: Frame, t: Targets) {
    WellFormed(g) && |g.rows| == |f.rows| &&
    (forall c :: c in f.columns ==> c in g.columns) &&
    (forall c :: c in g.columns ==> c in f.columns || IsTarget(t, c))
  }

  /** Columns the loop does not write keep every cell. */
  predicate Untargeted(f: Frame, g: Frame, t: Targets) {
    forall j, c :: 0 <= j < |f.rows| && c in f.columns && !IsTarget(t, c) ==> Get(g, j, c) == Get(f, j, c)
  }

  /** Rows before `i` carry their step's four cells. */
  predicate DoneRows(f: Frame, g: Frame, i: nat, t: Targets, catalog: seq<Cell>, extract: Scorer, replies: nat -> Reply) {
    forall j :: 0 <= j < i ==> StepAt(f, j, catalog, extract, replies).Write? && Written(g, j, t, StepAt(f, j, catalog, extract, replies))
  }

  /** Rows from `i` on are as they were, null in created columns. */
  predicate PendingRows(f: Frame, g: Frame, i: nat) {
    (forall j, c :: i <= j < |f.rows| && c in f.columns ==> Get(g, j, c) == Get(f, j, c)) &&
    (forall j, c :: i <= j < |f.rows| && c in g.columns && c !in f.columns ==> Get(g, j, c) == Some(Null))
  }

  /**
   * The loop writes the first `n` rows (n = the first rate-limited row with a
   * usable URL), each with exactly the cells its own step decides, and leaves
   * the rest as they were (null in the columns it created). Columns the loop
   * does not write are unchanged everywhere.
   */
  lemma {:induction false} ReconcileFrom(f: Frame, g: Frame, i: nat, t: Targets, catalog: seq<Cell>, extract: Scorer, replies: nat -> Reply)
    requires WellFormed(f) && DistinctTargets(t) && !IsTarget(t, "sitioWeb")
    requires After(f, g, i, t, catalog, extract, replies)
    requires forall j :: 0 <= j < i ==> !(ValidUrl(Get(f, j, "sitioWeb")) && replies(j).RateLimited?)
    ensures After(f, Reconcile(g, t, catalog, extract, replies, i), StopRow(f, replies, 0), t, catalog, extract, replies)
    decreases |f.rows| - i
  {
    var n := StopRow(f, replies, 0);
    if i < |f.rows| {
      SitioUnchanged(f, g, i, t, catalog, extract, replies);
      var s := StepAt(f, i, catalog, extract, replies);
      if s.Stop? {
        StopRowAt(f, replies, 0, i);
      } else {
        var g' := WriteRow(g, i, t, s);
        AfterStep(f, g, i, t, catalog, extract, replies);
        assert !(ValidUrl(Get(f, i, "sitioWeb")) && replies(i).RateLimited?);
        ReconcileFrom(f, g', i + 1, t, catalog, extract, replies);
        var r := Reconcile(g', t, catalog, extract, replies, i + 1);
        assert After(f, r, n, t, catalog, extract, replies);
        assert Reconcile(g, t, catalog, extract, replies, i) == r;
      }
    } else {
      StopRowAt(f, replies, 0, i);
    }
  }

  /** The loop reads the same `sitioWeb` from the frame it writes as from the input. */
  lemma SitioUnchanged(f: Frame, g: Frame, i: nat, t: Targets, catalog: seq<Cell>, extract: Scorer, replies: nat -> Reply)
    requires !IsTarget(t, "sitioWeb") && i < |f.rows|
    requires After(f, g, i, t, catalog, extract, replies)
    ensures Get(g, i, "sitioWeb") == Get(f, i, "sitioWeb")
  {
    if "sitioWeb" !in f.columns {
      assert "sitioWeb" !in g.columns;
    }
  }

  /** Writing row `i` with its own step extends `After` by one row. */
  lemma AfterStep(f: Frame, g: Frame, i: nat, t: Targets, catalog: seq<Cell>, extract: Scorer, replies: nat -> Reply)
    requires WellFormed(f) && DistinctTargets(t)
    requires After(f, g, i, t, catalog, extract, replies) && i < |f.rows|
    requires StepAt(f, i, catalog, extract, replies).Write?
    ensures After(f, WriteRow(g, i, t, StepAt(f, i, catalog, extract, replies)), i + 1, t, catalog, extract, replies)
  {
    var s := StepAt(f, i, catalog, extract, replies);
    var g' := WriteRow(g, i, t, s);
    assert Shape(f, g', t);
    assert Untargeted(f, g', t);
    DoneStep(f, g, i, t, catalog, extract, replies);
    PendingStep(f, g, i, t, s);
  }

  lemma DoneStep(f: Frame, g: Frame, i: nat, t: Targets, catalog: seq<Cell>, extract: Scorer, replies: nat -> Reply)
    requires DistinctTargets(t) && Shape(f, g, t) && i < |f.rows|
    requires DoneRows(f, g, i, t, catalog, extract, replies)
    requires StepAt(f, i, catalog, extract, replies).Write?
    ensures DoneRows(f, WriteRow(g, i, t, StepAt(f, i, catalog, extract, replies)), i + 1, t, catalog, extract, replies)
  {
    var s := StepAt(f, i, catalog, extract, replies);
    var g' := WriteRow(g, i, t, s);
    forall j | 0 <= j < i ensures Written(g', j, t, StepAt(f, j, catalog, extract, replies)) {
      KeepWritten(g, g', j, t, StepAt(f, j, catalog, extract, replies));
    }
  }

  /** Cells a later write leaves alone stay written. */
  lemma KeepWritten(g: Frame, g': Frame, j: nat, t: Targets, s: Step)
    requires s.Write? && Written(g, j, t, s)
    requires forall c :: c in g.columns ==> Get(g', j, c) == Get(g, j, c)
    ensures Written(g', j, t, s)
  {
    GetFound(g, j, t.raw);
    GetFound(g, j, t.final);
    GetFound(g, j, t.score);
    GetFound(g, j, t.review);
  }

  lemma GetFound(g: Frame, j: nat, c: string)
    requires Get(g, j, c).Some?
    ensures c in g.columns
  {
  }

  lemma PendingStep(f: Frame, g: Frame, i: nat, t: Targets, s: Step)
    requires DistinctTargets(t) && Shape(f, g, t) && i < |f.rows| && s.Write?
    requires PendingRows(f, g, i)
    ensures PendingRows(f, WriteRow(g, i, t, s), i + 1)
  {
    var g' := WriteRow(g, i, t, s);
    forall j, c | i + 1 <= j < |f.rows| && c in g'.columns && c !in f.columns ensures Get(g', j, c) == Some(Null) {
      if c in g.columns {
        assert Get(g', j, c) == Get(g, j, c);
      }
    }
  }

  /** The stop row is the first one the scan reaches. */
  lemma {:induction false} StopRowAt(f: Frame, replies: nat -> Reply, k: nat, i: nat)
    requires k <= i <= |f.rows|
    requires forall j :: k <= j < i ==> !(ValidUrl(Get(f, j, "sitioWeb")) && replies(j).RateLimited?)
    requires i == |f.rows| || (ValidUrl(Get(f, i, "sitioWeb")) && replies(i).RateLimited?)
    ensures StopRow(f, replies, k) == i
    decreases i - k
  {
    if k < i {
      StopRowAt(f, replies, k + 1, i);
    }
  }

  /** `corregir_sedes` / `asignar_entidades_organizadoras`: build the catalog, then run the loop. */
  function ReconcileAll(events: Frame, catalogFrame: Frame, catalogColumn: string, t: Targets, extract: Scorer, replies: nat -> Reply): (r: Result<Frame>)
    requires WellFormed(events) && WellFormed(catalogFrame) && DistinctTargets(t)
    ensures r.Raised? <==> catalogColumn !in catalogFrame.columns
    ensures r.Raised? ==> r.error == KeyError(catalogColumn)
  {
    match Catalog(catalogFrame, catalogColumn)
    case Raised(e) => Raised(e)
    case Returned(catalog) => Returned(Reconcile(events, t, catalog, extract, replies, 0))
  }

  /** scripts/correccion_sedes.py:7-90. */
  function CorrectVenues(events: Frame, venues: Frame, extract: Scorer, replies: nat -> Reply): (r: Result<Frame>)
    requires WellFormed(events) && WellFormed(venues)
    ensures r.Raised? <==> "Nombre" !in venues.columns
    ensures r.Raised? ==> r.error == KeyError("Nombre")
  {
    ReconcileAll(events, venues, "Nombre", VenueTargets, extract, replies)
  }

  /** scripts/asignar_entidad.py:7-74. */
  function AssignEntities(events: Frame, organisations: Frame, extract: Scorer, replies: nat -> Reply): (r: Result<Frame>)
    requires WellFormed(events) && WellFormed(organisations)
    ensures r.Raised? <==> "Entidad organizadores" !in organisations.columns
    ensures r.Raised? ==> r.error == KeyError("Entidad organizadores")
  {
    ReconcileAll(events, organisations, "Entidad organizadores", EntityTargets, extract, replies)
  }

  /**
   * The whole loop: rows before the first rate-limited one carry their own
   * step's four cells; that row and all later ones keep every original cell
   * (null in created columns); no other column changes anywhere.
   */
  lemma ReconcileRows(events: Frame, catalog: seq<Cell>, t: Targets, extract: Scorer, replies: nat -> Reply)
    requires WellFormed(events) && DistinctTargets(t) && !IsTarget(t, "sitioWeb")
    ensures var r := Reconcile(events, t, catalog, extract, replies, 0);
      var n := StopRow(events, replies, 0);
      WellFormed(r) && |r.rows| == |events.rows| &&
      (forall c :: c in events.columns ==> c in r.columns) &&
      (forall j, c :: 0 <= j < |events.rows| && c in events.columns && !IsTarget(t, c) ==> Get(r, j, c) == Get(events, j, c)) &&
      (forall j :: 0 <= j < n ==> StepAt(events, j, catalog, extract, replies).Write? && Written(r, j, t, StepAt(events, j, catalog, extract, replies))) &&
      (forall j, c :: n <= j < |events.rows| && c in events.columns ==> Get(r, j, c) == Get(events, j, c)) &&
      (forall j, c :: n <= j < |events.rows| && c in r.columns && c !in events.columns ==> Get(r, j, c) == Some(Null))
  {
    ReconcileFrom(events, events, 0, t, catalog, extract, replies);
  }

  /** Both call sites write four distinct columns, none of them `sitioWeb`. */
  lemma TargetsWellChosen()
    ensures DistinctTargets(VenueTargets) && !IsTarget(VenueTargets, "sitioWeb")
    ensures DistinctTargets(EntityTargets) && !IsTarget(EntityTargets, "sitioWeb")
  {
  }

  // --------------------------------------------------- corregir_sede_fuzzy

  /** scripts/corregir_sedes.py:12-19 on one cell. */
  function CorrectVenueCell(c: Cell, catalog: seq<Cell>, extract: Scorer): (r: Result<Cell>)
    ensures c == Null ==> r == Returned(Null)
  {
    if c == Null then Returned(c)
    else
      match extract(c, catalog)
      case None => Raised(TypeError("cannot unpack non-iterable NoneType object"))
      case Some(m) => if m.score >= ApplyThreshold then Returned(m.best) else Returned(c)
  }

  /**
   * The cell comes back as it was or as a catalog member: a catalog member
   * exactly when the score reaches 85, the input otherwise; no sentinel.
   */
  lemma CorrectVenueCellResult(c: Cell, catalog: seq<Cell>, extract: Scorer)
    requires PicksFromCatalog(extract) && c != Null && |catalog| > 0
    ensures var m := extract(c, catalog).value;
      CorrectVenueCell(c, catalog, extract) == Returned(if m.score >= ApplyThreshold then m.best else c)
    ensures CorrectVenueCell(c, catalog, extract).Returned?
    ensures CorrectVenueCell(c, catalog, extract).value in catalog || CorrectVenueCell(c, catalog, extract).value == c
  {
  }

  /** An empty catalog makes `extractOne` return `None`, and unpacking it raises. */
  lemma CorrectVenueEmptyCatalog(c: Cell, extract: Scorer)
    requires PicksFromCatalog(extract) && c != Null
    ensures CorrectVenueCell(c, [], extract).Raised?
  {
    assert extract(c, []).None?;
  }

  /** scripts/corregir_sedes.py:9,22: the catalog of venue names, then the column rewrite. */
  function CorrectVenueColumn(events: Frame, venues: Frame, extract: Scorer): (r: Result<Frame>)
    requires WellFormed(events) && WellFormed(venues)
    ensures "Nombre" !in venues.columns ==> r == Raised(KeyError("Nombre"))
  {
    match Catalog(venues, "Nombre")
    case Raised(e) => Raised(e)
    case Returned(catalog) => ApplyColumn(events, "sedeRaw_corregida", c => CorrectVenueCell(c, catalog, extract))
  }

  /**
   * Only `sedeRaw_corregida` is rewritten, row count and order are kept, and
   * each rewritten cell is its old value or a catalog venue name.
   */
  lemma CorrectVenueColumnResult(events: Frame, venues: Frame, extract: Scorer)
    requires WellFormed(events) && WellFormed(venues) && PicksFromCatalog(extract)
    ensures var r := CorrectVenueColumn(events, venues, extract); r.Returned? ==>
      r.value.columns == events.columns && |r.value.rows| == |events.rows| &&
      (forall i, c :: 0 <= i < |events.rows| && c in events.columns && c != "sedeRaw_corregida" ==> Get(r.value, i, c) == Get(events, i, c)) &&
      (forall i :: 0 <= i < |events.rows| ==>
         var v := Get(r.value, i, "sedeRaw_corregida").value;
         Get(events, i, "sedeRaw_corregida") == Some(v) ||
         exists k :: 0 <= k < |venues.rows| && Get(venues, k, "Nombre") == Some(v))
  {
    var r := CorrectVenueColumn(events, venues, extract);
    if r.Returned? {
      var catalog := Catalog(venues, "Nombre").value;
      var g := c => CorrectVenueCell(c, catalog, extract);
      forall i | 0 <= i < |events.rows|
        ensures var v := Get(r.value, i, "sedeRaw_corregida").value;
          Get(events, i, "sedeRaw_corregida") == Some(v) ||
          exists k :: 0 <= k < |venues.rows| && Get(venues, k, "Nombre") == Some(v)
      {
        var c := Get(events, i, "sedeRaw_corregida").value;
        var v := Get(r.value, i, "sedeRaw_corregida").value;
        if c != Null && |catalog| > 0 {
          CorrectVenueCellResult(c, catalog, extract);
          if v != c {
            assert v in catalog;
          }
        }
      }
    }
  }
}
