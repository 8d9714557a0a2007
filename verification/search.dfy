/**
 * The search crawler of scripts/search.py: venue chunking, query text, the
 * (event type x chunk) schedule, the persisted cursor and the credential
 * rotation of `busqueda_eventos`. The search API is an input:
 * `replies.At(n)` is what the n-th request of the run gets back.
 */
module Search {
  import opened Base
  import opened Text

  const Year: string := "2025"
  const ChunkSize: nat := 10
  const CredentialCount: nat := 2
  const TooManyRequests: nat := 429

  /** The number of event types searched. */
  const TipoCount: nat := 10

  const Tipos: seq<string> := [
    "Jornada", "Encuentro", "Congreso", "Conferencia", "Exposición", "Seminario",
    "Evento Deportivo Internacional", "Simposio", "Convencion", "Feria"
  ]

  /** The persisted cursor of `progreso.json`. */
  datatype Cursor = Cursor(cred: nat, tipo: nat, chunk: nat)

  /** `cargar_progreso`: the saved cursor, or (0, 0, 0) on the first start. */
  function LoadProgress(saved: Option<Cursor>): (r: Cursor)
    ensures saved.None? ==> r == Cursor(0, 0, 0)
    ensures saved.Some? ==> r == saved.value
  {
    saved.GetOr(Cursor(0, 0, 0))
  }

  // ------------------------------------------------------------------ chunks

  function Flatten(xs: seq<seq<string>>): seq<string> {
    if |xs| == 0 then [] else xs[0] + Flatten(xs[1..])
  }

  /** `[sedes[i:i + 10] for i in range(0, len(sedes), 10)]`. */
  function Chunks(v: seq<string>): (r: seq<seq<string>>)
    ensures Flatten(r) == v
    ensures forall k :: 0 <= k < |r| ==> 0 < |r[k]| <= ChunkSize
    ensures forall k :: 0 <= k < |r| - 1 ==> |r[k]| == ChunkSize
    decreases |v|
  {
    if |v| == 0 then []
    else if |v| <= ChunkSize then [v]
    else
      var rest := Chunks(v[ChunkSize..]);
      assert v == v[..ChunkSize] + v[ChunkSize..];
      [v[..ChunkSize]] + rest
  }

  /** Where the k-th slice `sedes[10k:10k + 10]` ends in a list of `len` venues. */
  function SliceEnd(k: nat, len: nat): nat {
    if ChunkSize * k + ChunkSize <= len then ChunkSize * k + ChunkSize else len
  }

  /** There are ceil(len / 10) chunks. */
  lemma {:induction false} ChunkCount(v: seq<string>)
    ensures |Chunks(v)| == (|v| + ChunkSize - 1) / ChunkSize
    decreases |v|
  {
    if |v| > ChunkSize {
      ChunkCount(v[ChunkSize..]);
    }
  }

  lemma SliceOfSlice(v: seq<string>, d: nat, lo: nat, hi: nat)
    requires d <= |v| && lo <= hi <= |v| - d
    ensures v[d..][lo..hi] == v[d + lo..d + hi]
  {
  }

  /** A list longer than one chunk splits into its first ten venues and the chunks of the rest. */
  lemma ChunksCons(v: seq<string>)
    requires |v| > ChunkSize
    ensures Chunks(v) == [v[..ChunkSize]] + Chunks(v[ChunkSize..])
  {
  }

  /** The k-th chunk is the Python slice starting at 10k. */
  lemma {:induction false} ChunkAt(v: seq<string>, k: nat)
    requires k < |Chunks(v)|
    ensures ChunkSize * k <= |v| && Chunks(v)[k] == v[ChunkSize * k .. SliceEnd(k, |v|)]
    decreases |v|
  {
    if |v| > ChunkSize {
      var w := v[ChunkSize..];
      ChunksCons(v);
      if k > 0 {
        ChunkAt(w, k - 1);
        ShiftedSlice(v, k, Chunks(w)[k - 1]);
      }
    }
  }

  /** The (k - 1)-th slice of the venues after the first ten is the k-th slice of all of them. */
  lemma ShiftedSlice(v: seq<string>, k: nat, x: seq<string>)
    requires |v| > ChunkSize && k > 0
    requires ChunkSize * (k - 1) <= |v| - ChunkSize
    requires x == v[ChunkSize..][ChunkSize * (k - 1) .. SliceEnd(k - 1, |v| - ChunkSize)]
    ensures ChunkSize * k <= |v| && x == v[ChunkSize * k .. SliceEnd(k, |v|)]
  {
    var lo := ChunkSize * (k - 1);
    var hi := SliceEnd(k - 1, |v| - ChunkSize);
    assert lo + ChunkSize == ChunkSize * k && hi + ChunkSize == SliceEnd(k, |v|);
    SliceOfSlice(v, ChunkSize, lo, hi);
  }

  // ------------------------------------------------------------------- query

  function Quote(s: string): string {
    "\"" + s + "\""
  }

  /** What comes before the venue list: `"<tipo>" "2025" (`. */
  function QueryHead(tipo: string): string {
    Quote(tipo) + " " + Quote(Year) + " ("
  }

  /** Between two venues of a query, once their quotes are counted. */
  const Between: string := "\" OR \""

  /** Line 128: `"<tipo>" "2025" ("<s1>" OR "<s2>" ...)`. */
  function BuildQuery(tipo: string, chunk: seq<string>): (q: string)
    ensures StartsWith(q, QueryHead(tipo)) && |q| > |QueryHead(tipo)| && q[|q| - 1] == ')'
  {
    var quoted := seq(|chunk|, i requires 0 <= i < |chunk| => Quote(chunk[i]));
    var q := QueryHead(tipo) + Join(quoted, " OR ") + ")";
    StartsWithConcat(QueryHead(tipo), Join(quoted, " OR ") + ")");
    assert q == QueryHead(tipo) + (Join(quoted, " OR ") + ")");
    q
  }

  /** A reader for the queries: the venues between the head and the closing parenthesis. */
  function QueryVenues(tipo: string, q: string): (r: Option<seq<string>>)
    ensures r.Some? ==> |r.value| > 0
  {
    var h := QueryHead(tipo) + "\"";
    if StartsWith(q, h) && |q| >= |h| + 2 && q[|q| - 2..] == "\")"
    then Some(Split(q[|h|..|q| - 2], Between))
    else None
  }

  /** No venue holds a double quote. */
  predicate Unquoted(chunk: seq<string>) {
    forall i :: 0 <= i < |chunk| ==> '"' !in chunk[i]
  }

  /** The query names its event type and reads back as exactly the chunk's venues, in order. */
  lemma QueryRoundTrip(tipo: string, chunk: seq<string>)
    requires |chunk| > 0 && Unquoted(chunk)
    ensures QueryVenues(tipo, BuildQuery(tipo, chunk)) == Some(chunk)
  {
    var quoted := seq(|chunk|, i requires 0 <= i < |chunk| => Quote(chunk[i]));
    var body := Join(chunk, Between);
    JoinQuoted(chunk);
    var h := QueryHead(tipo) + "\"";
    var q := BuildQuery(tipo, chunk);
    assert q == h + body + "\")";
    StartsWithConcat(h, body + "\")");
    assert q == h + (body + "\")");
    assert q[|h|..|q| - 2] == body;
    assert q[|q| - 2..] == "\")";
    SplitJoin(chunk);
  }

  lemma {:induction false} JoinQuoted(chunk: seq<string>)
    requires |chunk| > 0
    ensures Join(seq(|chunk|, i requires 0 <= i < |chunk| => Quote(chunk[i])), " OR ")
         == "\"" + Join(chunk, Between) + "\""
  {
    var quoted := seq(|chunk|, i requires 0 <= i < |chunk| => Quote(chunk[i]));
    if |chunk| > 1 {
      var rest := chunk[1..];
      JoinQuoted(rest);
      assert quoted[1..] == seq(|rest|, i requires 0 <= i < |rest| => Quote(rest[i]));
      assert Join(quoted, " OR ") == Quote(chunk[0]) + " OR " + Join(quoted[1..], " OR ");
      assert Join(chunk, Between) == chunk[0] + Between + Join(rest, Between);
    }
  }

  /** Venues free of quotes split back out of their joined text. */
  lemma {:induction false} SplitJoin(chunk: seq<string>)
    requires |chunk| > 0 && Unquoted(chunk)
    ensures Split(Join(chunk, Between), Between) == chunk
  {
    if |chunk| == 1 {
      NotContainedByChar(chunk[0], Between, 0);
      SplitNoSep(chunk[0], Between);
    } else {
      var rest := chunk[1..];
      assert Unquoted(rest) by {
        forall i | 0 <= i < |rest| ensures '"' !in rest[i] { assert rest[i] == chunk[i + 1]; }
      }
      SplitJoin(rest);
      assert Join(chunk, Between) == chunk[0] + Between + Join(rest, Between);
      SplitAround(chunk[0], Between, Join(rest, Between));
      assert chunk == [chunk[0]] + rest;
    }
  }

  // ---------------------------------------------------------------- schedule

  /** A (tipo, chunk) query position. */
  datatype Pos = Pos(tipo: nat, chunk: nat)

  /** Lexicographic order on positions. */
  predicate Before(a: Pos, b: Pos) {
    a.tipo < b.tipo || (a.tipo == b.tipo && a.chunk < b.chunk)
  }

  /** The chunks k, k + 1, ..., n - 1 of one event type. */
  function Row(t: nat, k: nat, n: nat): (r: seq<Pos>)
    decreases n - k
  {
    if k >= n then [] else [Pos(t, k)] + Row(t, k + 1, n)
  }

  /**
   * The positions still to query from (t, k), with n chunks: the rest of
   * type t, then every chunk of each later type.
   */
  function Pending(t: nat, k: nat, n: nat): (r: seq<Pos>)
    decreases TipoCount - t
  {
    if t >= TipoCount then [] else Row(t, k, n) + Pending(t + 1, 0, n)
  }

  lemma PendingCons(t: nat, k: nat, n: nat)
    requires t < TipoCount && k < n
    ensures Pending(t, k, n) == [Pos(t, k)] + Pending(t, k + 1, n)
  {
    assert Row(t, k, n) == [Pos(t, k)] + Row(t, k + 1, n);
    assert ([Pos(t, k)] + Row(t, k + 1, n)) + Pending(t + 1, 0, n) == [Pos(t, k)] + (Row(t, k + 1, n) + Pending(t + 1, 0, n));
  }

  lemma PendingSkip(t: nat, k: nat, n: nat)
    requires t < TipoCount && k >= n
    ensures Pending(t, k, n) == Pending(t + 1, 0, n)
  {
  }

  /** Exactly the positions at or after (t0, k0), below ten types and n chunks, are pending. */
  lemma {:induction false} PendingMembers(t0: nat, k0: nat, n: nat, p: Pos)
    ensures p in Pending(t0, k0, n) <==>
      t0 <= p.tipo < TipoCount && p.chunk < n && (p.tipo > t0 || p.chunk >= k0)
    decreases TipoCount - t0, n - k0
  {
    if t0 < TipoCount {
      if k0 < n {
        PendingCons(t0, k0, n);
        PendingMembers(t0, k0 + 1, n, p);
        assert p in Pending(t0, k0, n) <==> p == Pos(t0, k0) || p in Pending(t0, k0 + 1, n);
      } else {
        PendingSkip(t0, k0, n);
        PendingMembers(t0 + 1, 0, n, p);
      }
    }
  }

  /** Each position comes strictly before every later one. */
  predicate Increasing(ps: seq<Pos>) {
    forall i, j :: 0 <= i < j < |ps| ==> Before(ps[i], ps[j])
  }

  /** Each position comes strictly before the next one. */
  predicate Chained(ps: seq<Pos>)
    decreases |ps|
  {
    |ps| <= 1 || (Before(ps[0], ps[1]) && Chained(ps[1..]))
  }

  /** Neighbours in order means every pair in order, since `Before` is transitive. */
  lemma {:induction false} ChainedIncreasing(ps: seq<Pos>)
    requires Chained(ps)
    ensures Increasing(ps)
    decreases |ps|
  {
    if |ps| > 1 {
      var q := ps[1..];
      ChainedIncreasing(q);
      forall i, j | 0 <= i < j < |ps| ensures Before(ps[i], ps[j]) {
        assert ps[j] == q[j - 1];
        if i > 0 {
          assert ps[i] == q[i - 1];
        } else if j > 1 {
          assert Before(q[0], q[j - 1]);
        }
      }
    }
  }

  /** Each scheduled position is followed by the next chunk, or by the first chunk of a later type. */
  lemma {:induction false} PendingChained(t0: nat, k0: nat, n: nat)
    ensures Chained(Pending(t0, k0, n))
    decreases TipoCount - t0, n - k0
  {
    if t0 < TipoCount {
      if k0 < n {
        PendingCons(t0, k0, n);
        PendingChained(t0, k0 + 1, n);
        var q := Pending(t0, k0 + 1, n);
        if |q| > 0 {
          assert q[0] in q;
          PendingMembers(t0, k0 + 1, n, q[0]);
        }
        assert ([Pos(t0, k0)] + q)[1..] == q;
      } else {
        PendingSkip(t0, k0, n);
        PendingChained(t0 + 1, 0, n);
      }
    }
  }

  /** The schedule is strictly increasing, so it visits no position twice. */
  lemma PendingSorted(t0: nat, k0: nat, n: nat)
    ensures Increasing(Pending(t0, k0, n))
  {
    PendingChained(t0, k0, n);
    ChainedIncreasing(Pending(t0, k0, n));
  }

  /**
   * Resuming at a scheduled position continues the same schedule: the rest of
   * the schedule from there is the schedule from that position.
   */
  lemma {:induction false} ResumeAt(t0: nat, k0: nat, n: nat, j: nat)
    requires j < |Pending(t0, k0, n)|
    ensures Pending(Pending(t0, k0, n)[j].tipo, Pending(t0, k0, n)[j].chunk, n) == Pending(t0, k0, n)[j..]
    decreases TipoCount - t0, n - k0
  {
    var ps := Pending(t0, k0, n);
    if k0 < n {
      PendingCons(t0, k0, n);
      var q := Pending(t0, k0 + 1, n);
      if j > 0 {
        ResumeAt(t0, k0 + 1, n, j - 1);
        assert ps[j] == q[j - 1];
        assert ps[j..] == q[j - 1..];
      }
    } else {
      PendingSkip(t0, k0, n);
      ResumeAt(t0 + 1, 0, n, j);
    }
  }

  /**
   * The cursor a success persists, (t, k + 1), skips no pending position and
   * repeats none, even when k + 1 is past the last chunk.
   */
  lemma ResumeAfter(t0: nat, k0: nat, n: nat, j: nat)
    requires j < |Pending(t0, k0, n)|
    ensures Pending(Pending(t0, k0, n)[j].tipo, Pending(t0, k0, n)[j].chunk + 1, n) == Pending(t0, k0, n)[j + 1..]
  {
    var ps := Pending(t0, k0, n);
    var p := ps[j];
    ResumeAt(t0, k0, n, j);
    PendingMembers(t0, k0, n, p);
    PendingCons(p.tipo, p.chunk, n);
    assert ps[j + 1..] == ps[j..][1..];
  }

  // ------------------------------------------------------------------- sweep

  /** An item of a search reply; its contents are not inspected. */
  type Hit = string

  /** What a request gets: items, an HTTP error status, or an exception outside `httpx.HTTPStatusError`. */
  datatype Outcome = Ok(items: seq<Hit>) | Status(code: nat) | Transport

  /**
   * The search API's answers in request order: `first` for the first
   * requests of the run, `later` for every request after those. A run makes
   * finitely many requests, so any sequence of answers is one of these.
   */
  datatype Replies = Replies(first: seq<Outcome>, later: Outcome) {
    /** The answer to the n-th request of the run, counting from 0. */
    function At(n: nat): Outcome {
      if n < |first| then first[n] else later
    }
  }

  /** A request: the credential used and the position queried. */
  datatype Call = Call(cred: nat, at: Pos)

  /** Every position names an event type and a chunk that exist. */
  predicate Scheduled(ps: seq<Pos>, count: nat) {
    forall i :: 0 <= i < |ps| ==> ps[i].tipo < TipoCount && ps[i].chunk < count
  }

  /** The query text a request at a scheduled position sends (lines 120-128). */
  function Sent(p: Pos, chunks: seq<seq<string>>): string
    requires p.tipo < TipoCount && p.chunk < |chunks|
  {
    assert |Tipos| == TipoCount;
    BuildQuery(Tipos[p.tipo], chunks[p.chunk])
  }

  /** Why a sweep of one credential ended. */
  datatype Stop = Completed | Exhausted | HttpFailed | Escaped

  /**
   * One credential's work: the requests, the cursors written by
   * `guardar_progreso`, the positions whose request succeeded and the items
   * gathered.
   */
  datatype Sweep = Sweep(calls: seq<Call>, saved: seq<Cursor>, done: seq<Pos>, hits: seq<Hit>, stop: Stop)

  const Idle: Sweep := Sweep([], [], [], [], Completed)

  /** The first sweep, then the second; used once the first has completed. */
  function Then(a: Sweep, b: Sweep): Sweep {
    Sweep(a.calls + b.calls, a.saved + b.saved, a.done + b.done, a.hits + b.hits, b.stop)
  }

  /**
   * Lines 140-147: a success at p records its items and persists the next
   * chunk, then the sweep goes on with `rest`.
   */
  function Advance(c: nat, p: Pos, items: seq<Hit>, rest: Sweep): Sweep {
    Sweep([Call(c, p)] + rest.calls, [Cursor(c, p.tipo, p.chunk + 1)] + rest.saved, [p] + rest.done, items + rest.hits, rest.stop)
  }

  /**
   * Lines 149-159: a 429 persists the same position under the next credential
   * and ends the sweep; another status ends the run; any other exception
   * escapes.
   */
  function Halt(c: nat, p: Pos, reply: Outcome): (r: Sweep)
    ensures r.stop != Completed
  {
    match reply
    case Status(code) =>
      if code == TooManyRequests then Sweep([Call(c, p)], [Cursor(c + 1, p.tipo, p.chunk)], [], [], Exhausted)
      else Sweep([Call(c, p)], [], [], [], HttpFailed)
    case Transport => Sweep([Call(c, p)], [], [], [], Escaped)
    case Ok(_) => Sweep([Call(c, p)], [], [], [], HttpFailed)  // not reached: successes advance
  }

  /** The requests over a list of positions, stopping at the first one that fails. */
  function SweepList(c: nat, ps: seq<Pos>, replies: Replies, n: nat): (r: Sweep)
    ensures |r.calls| <= |ps| && (|ps| > 0 ==> |r.calls| > 0)
    ensures r.stop == Completed ==> |r.calls| == |ps|
    decreases |ps|
  {
    if |ps| == 0 then Idle
    else if replies.At(n).Ok? then Advance(c, ps[0], replies.At(n).items, SweepList(c, ps[1..], replies, n + 1))
    else Halt(c, ps[0], replies.At(n))
  }

  /** Request i is at position i of the list, under credential c. */
  lemma {:induction false} SweepCalls(c: nat, ps: seq<Pos>, replies: Replies, n: nat)
    ensures var r := SweepList(c, ps, replies, n);
      forall i :: 0 <= i < |r.calls| ==> r.calls[i] == Call(c, ps[i])
    decreases |ps|
  {
    if |ps| > 0 && replies.At(n).Ok? {
      var rest := SweepList(c, ps[1..], replies, n + 1);
      SweepCalls(c, ps[1..], replies, n + 1);
      var r := SweepList(c, ps, replies, n);
      assert r.calls == [Call(c, ps[0])] + rest.calls;
      forall i | 0 < i < |r.calls| ensures r.calls[i] == Call(c, ps[i]) {
        assert r.calls[i] == rest.calls[i - 1] && ps[1..][i - 1] == ps[i];
      }
    }
  }

  /**
   * The successful positions are a prefix of the list, answered by the
   * replies n, n + 1, ...; every request but the last of an unfinished sweep
   * succeeded, and the last one did not.
   */
  lemma {:induction false} SweepDone(c: nat, ps: seq<Pos>, replies: Replies, n: nat)
    ensures var r := SweepList(c, ps, replies, n);
      |r.done| == (if r.stop == Completed then |r.calls| else |r.calls| - 1) &&
      r.done == ps[..|r.done|] &&
      (forall m :: n <= m < n + |r.done| ==> replies.At(m).Ok?) &&
      (r.stop != Completed ==> !replies.At(n + |r.done|).Ok?)
    decreases |ps|
  {
    if |ps| > 0 && replies.At(n).Ok? {
      var rest := SweepList(c, ps[1..], replies, n + 1);
      SweepDone(c, ps[1..], replies, n + 1);
      var r := SweepList(c, ps, replies, n);
      assert r.done == [ps[0]] + rest.done;
      assert ps[..|r.done|] == [ps[0]] + ps[1..][..|rest.done|];
    }
  }

  /** The items of the successful replies among requests n to n + k - 1, in request order. */
  function ItemsOf(replies: Replies, n: nat, k: nat): seq<Hit>
    decreases k
  {
    if k == 0 then []
    else (if replies.At(n).Ok? then replies.At(n).items else []) + ItemsOf(replies, n + 1, k - 1)
  }

  /** Items of consecutive requests concatenate. */
  lemma {:induction false} ItemsOfSplit(replies: Replies, n: nat, a: nat, b: nat)
    ensures ItemsOf(replies, n, a + b) == ItemsOf(replies, n, a) + ItemsOf(replies, n + a, b)
    decreases a
  {
    if a > 0 {
      ItemsOfSplit(replies, n + 1, a - 1, b);
      var x := if replies.At(n).Ok? then replies.At(n).items else [];
      assert ItemsOf(replies, n, a + b) == x + ItemsOf(replies, n + 1, a - 1 + b);
    }
  }

  /** A sweep keeps the items of exactly the successful replies it got, in request order. */
  lemma {:induction false} SweepHits(c: nat, ps: seq<Pos>, replies: Replies, n: nat)
    ensures var r := SweepList(c, ps, replies, n);
      r.hits == ItemsOf(replies, n, |r.calls|)
    decreases |ps|
  {
    if |ps| > 0 && replies.At(n).Ok? {
      SweepHits(c, ps[1..], replies, n + 1);
    }
  }

  /** A sweep completes exactly when every reply it waits for is a success. */
  lemma SweepCompletes(c: nat, ps: seq<Pos>, replies: Replies, n: nat)
    ensures SweepList(c, ps, replies, n).stop == Completed <==> forall m :: n <= m < n + |ps| ==> replies.At(m).Ok?
  {
    SweepDone(c, ps, replies, n);
  }

  /** How an unfinished sweep ended follows the reply to its last request. */
  lemma {:induction false} SweepStop(c: nat, ps: seq<Pos>, replies: Replies, n: nat)
    ensures var r := SweepList(c, ps, replies, n);
      var last := replies.At(n + |r.done|);
      r.stop != Completed ==>
        (r.stop == Exhausted <==> last == Status(TooManyRequests)) &&
        (r.stop == Escaped <==> last == Transport) &&
        (r.stop == HttpFailed <==> last.Status? && last.code != TooManyRequests)
    decreases |ps|
  {
    if |ps| > 0 && replies.At(n).Ok? {
      SweepStop(c, ps[1..], replies, n + 1);
    }
  }

  /**
   * Each success persisted the cursor of the next chunk, in order, and a 429
   * persisted its own position under the next credential.
   */
  lemma {:induction false} SweepSaved(c: nat, ps: seq<Pos>, replies: Replies, n: nat)
    ensures var r := SweepList(c, ps, replies, n);
      |r.saved| == |r.done| + (if r.stop == Exhausted then 1 else 0) &&
      |r.done| <= |ps| &&
      (forall i :: 0 <= i < |r.done| ==> r.saved[i] == Cursor(c, ps[i].tipo, ps[i].chunk + 1)) &&
      (r.stop == Exhausted ==> |r.done| < |ps| && r.saved[|r.done|] == Cursor(c + 1, ps[|r.done|].tipo, ps[|r.done|].chunk))
    decreases |ps|
  {
    if |ps| > 0 && replies.At(n).Ok? {
      var rest := SweepList(c, ps[1..], replies, n + 1);
      SweepSaved(c, ps[1..], replies, n + 1);
      var r := SweepList(c, ps, replies, n);
      assert r.saved == [Cursor(c, ps[0].tipo, ps[0].chunk + 1)] + rest.saved;
      assert r.done == [ps[0]] + rest.done;
      forall i | 0 < i < |r.done| ensures r.saved[i] == Cursor(c, ps[i].tipo, ps[i].chunk + 1) {
        assert r.saved[i] == rest.saved[i - 1] && ps[1..][i - 1] == ps[i];
      }
      if r.stop == Exhausted {
        assert r.saved[|r.done|] == rest.saved[|rest.done|] && ps[1..][|rest.done|] == ps[|r.done|];
      }
    }
  }

  lemma AdvanceThen(c: nat, p: Pos, items: seq<Hit>, a: Sweep, b: Sweep)
    ensures Advance(c, p, items, Then(a, b)) == Then(Advance(c, p, items, a), b)
  {
    assert [Call(c, p)] + (a.calls + b.calls) == ([Call(c, p)] + a.calls) + b.calls;
    assert [Cursor(c, p.tipo, p.chunk + 1)] + (a.saved + b.saved) == ([Cursor(c, p.tipo, p.chunk + 1)] + a.saved) + b.saved;
    assert [p] + (a.done + b.done) == ([p] + a.done) + b.done;
    assert items + (a.hits + b.hits) == (items + a.hits) + b.hits;
  }

  /** Running two blocks of positions is running the first, then, if it completed, the second. */
  lemma {:induction false} SweepListConcat(c: nat, xs: seq<Pos>, ys: seq<Pos>, replies: Replies, n: nat)
    ensures var a := SweepList(c, xs, replies, n);
      SweepList(c, xs + ys, replies, n)
        == if a.stop != Completed then a else Then(a, SweepList(c, ys, replies, n + |xs|))
    decreases |xs|
  {
    if |xs| == 0 {
      assert xs + ys == ys;
      var b := SweepList(c, ys, replies, n);
      assert Then(Idle, b) == b;
    } else {
      var zs := xs + ys;
      assert zs[0] == xs[0];
      if replies.At(n).Ok? {
        assert zs[1..] == xs[1..] + ys;
        SweepListConcat(c, xs[1..], ys, replies, n + 1);
        var a1 := SweepList(c, xs[1..], replies, n + 1);
        if a1.stop == Completed {
          AdvanceThen(c, xs[0], replies.At(n).items, a1, SweepList(c, ys, replies, n + |xs|));
        }
      }
    }
  }

  /** Lines 126-159: the chunk loop for type t from chunk k, over `count` chunks. */
  function SweepChunks(c: nat, t: nat, k: nat, count: nat, replies: Replies, n: nat): Sweep
    decreases count - k
  {
    if k >= count then Idle
    else if replies.At(n).Ok? then Advance(c, Pos(t, k), replies.At(n).items, SweepChunks(c, t, k + 1, count, replies, n + 1))
    else Halt(c, Pos(t, k), replies.At(n))
  }

  /** Line 124: the start type resumes at the start chunk, every later type at chunk 0. */
  function StartChunk(t: nat, start: Pos): nat {
    if t == start.tipo then start.chunk else 0
  }

  /** Lines 119-164: the type loop from type t. */
  function SweepTipos(c: nat, t: nat, start: Pos, count: nat, replies: Replies, n: nat): Sweep
    decreases TipoCount - t
  {
    if t >= TipoCount then Idle
    else
      var a := SweepChunks(c, t, StartChunk(t, start), count, replies, n);
      if a.stop != Completed then a
      else Then(a, SweepTipos(c, t + 1, start, count, replies, n + |a.calls|))
  }

  /** The chunk loop walks the rest of its type's row. */
  lemma {:induction false} ChunksFollowRow(c: nat, t: nat, k: nat, count: nat, replies: Replies, n: nat)
    ensures SweepChunks(c, t, k, count, replies, n) == SweepList(c, Row(t, k, count), replies, n)
    decreases count - k
  {
    if k < count {
      var row := Row(t, k, count);
      assert row[0] == Pos(t, k) && row[1..] == Row(t, k + 1, count);
      if replies.At(n).Ok? {
        ChunksFollowRow(c, t, k + 1, count, replies, n + 1);
      }
    }
  }

  /** The schedule from (t, k) is the chunk loop over type t, then the schedule of the later types. */
  lemma PendingSweep(c: nat, t: nat, k: nat, count: nat, replies: Replies, n: nat)
    requires t < TipoCount
    ensures var a := SweepChunks(c, t, k, count, replies, n);
      SweepList(c, Pending(t, k, count), replies, n)
        == if a.stop != Completed then a else Then(a, SweepList(c, Pending(t + 1, 0, count), replies, n + |a.calls|))
  {
    var row := Row(t, k, count);
    assert Pending(t, k, count) == row + Pending(t + 1, 0, count);
    ChunksFollowRow(c, t, k, count, replies, n);
    SweepListConcat(c, row, Pending(t + 1, 0, count), replies, n);
  }

  /** The two nested loops walk the schedule from the start position, in order. */
  lemma {:induction false} TiposFollowSchedule(c: nat, t: nat, start: Pos, count: nat, replies: Replies, n: nat)
    requires start.tipo <= t
    ensures SweepTipos(c, t, start, count, replies, n) == SweepList(c, Pending(t, StartChunk(t, start), count), replies, n)
    decreases TipoCount - t
  {
    if t < TipoCount {
      var k := StartChunk(t, start);
      PendingSweep(c, t, k, count, replies, n);
      var a := SweepChunks(c, t, k, count, replies, n);
      if a.stop == Completed {
        assert StartChunk(t + 1, start) == 0;
        TiposFollowSchedule(c, t + 1, start, count, replies, n + |a.calls|);
        var b := SweepList(c, Pending(t + 1, 0, count), replies, n + |a.calls|);
        assert SweepTipos(c, t, start, count, replies, n) == Then(a, b);
      }
    }
  }

  /** A credential's sweep from a cursor is the schedule from that cursor. */
  lemma SweepFrom(c: nat, start: Pos, count: nat, replies: Replies, n: nat)
    ensures SweepTipos(c, start.tipo, start, count, replies, n) == SweepList(c, Pending(start.tipo, start.chunk, count), replies, n)
  {
    TiposFollowSchedule(c, start.tipo, start, count, replies, n);
  }

  /** Every request of a sweep from a cursor is at a scheduled position, so its query text exists. */
  lemma SweepScheduled(c: nat, start: Pos, chunks: seq<seq<string>>, replies: Replies, n: nat)
    ensures var s := SweepTipos(c, start.tipo, start, |chunks|, replies, n);
      forall i :: 0 <= i < |s.calls| ==> s.calls[i].cred == c && s.calls[i].at.tipo < TipoCount && s.calls[i].at.chunk < |chunks|
  {
    var ps := Pending(start.tipo, start.chunk, |chunks|);
    SweepFrom(c, start, |chunks|, replies, n);
    SweepCalls(c, ps, replies, n);
    var s := SweepList(c, ps, replies, n);
    forall i | 0 <= i < |s.calls| ensures s.calls[i].at.tipo < TipoCount && s.calls[i].at.chunk < |chunks| {
      PendingMembers(start.tipo, start.chunk, |chunks|, ps[i]);
    }
  }

  // --------------------------------------------------------------------- run

  /** How `busqueda_eventos` ends once the venue list is read. */
  datatype Ending =
    | Finished           // returns normally
    | RaisedUnbound      // line 175 reads `clave_agotada`, which no path assigned
    | RaisedTransport    // a request failed outside `HTTPStatusError`: the exception escapes

  /**
   * A whole run: every request, every cursor written to `progreso.json` in
   * order, the positions that succeeded, and the argument of each
   * `guardar_resultados` call.
   */
  datatype Run = Run(calls: seq<Call>, saved: seq<Cursor>, done: seq<Pos>, flushed: seq<seq<Hit>>, ending: Ending)

  /** The run so far followed by one credential's sweep. */
  function Extend(acc: Run, s: Sweep): Run {
    Run(acc.calls + s.calls, acc.saved + s.saved, acc.done + s.done, [], acc.ending)
  }

  /** The end of the run after a sweep that did not run out of quota. */
  function Close(next: Run, hits: seq<Hit>, stop: Stop): Run {
    if stop == Escaped then Run(next.calls, next.saved, next.done, [], RaisedTransport)
    else Run(next.calls, next.saved, next.done, [hits], Finished)
  }

  /** Lines 175-178 once the credential loop has run out of credentials. */
  function AfterLoop(acc: Run, hits: seq<Hit>, exhausted: Option<bool>): Run {
    if exhausted.None? then Run(acc.calls, acc.saved, acc.done, [], RaisedUnbound)
    else Run(acc.calls, acc.saved, acc.done, [hits], Finished)
  }

  /**
   * Lines 113-178 from credential c, with `acc` the run so far and `hits` the
   * accumulated items; `exhausted` is `clave_agotada`, None while unassigned.
   * Every credential starts from the type and chunk loaded at startup
   * (lines 108-109 and 171-172).
   */
  function RunFrom(c: nat, startup: Cursor, count: nat, replies: Replies,
                   acc: Run, hits: seq<Hit>, exhausted: Option<bool>): (r: Run)
    decreases CredentialCount - c
    ensures acc.calls <= r.calls && acc.saved <= r.saved && acc.done <= r.done
    ensures r.ending == Finished <==> |r.flushed| == 1
    ensures r.ending != Finished ==> r.flushed == []
    ensures r.ending == RaisedUnbound <==> c >= CredentialCount && exhausted.None?
  {
    if c >= CredentialCount then AfterLoop(acc, hits, exhausted)
    else
      var start := Pos(startup.tipo, startup.chunk);
      var s := SweepTipos(c, start.tipo, start, count, replies, |acc.calls|);
      if s.stop == Exhausted then RunFrom(c + 1, startup, count, replies, Extend(acc, s), hits + s.hits, Some(true))
      else Close(Extend(acc, s), hits + s.hits, s.stop)
  }

  const Empty: Run := Run([], [], [], [], Finished)

  /** `busqueda_eventos` once the non-null venue names are read. */
  function Crawl(venues: seq<string>, progress: Option<Cursor>, replies: Replies): (r: Run)
    ensures r.ending == Finished <==> |r.flushed| == 1
    ensures r.ending != Finished ==> r.flushed == []
    ensures r.ending == RaisedUnbound <==> LoadProgress(progress).cred >= CredentialCount
  {
    var startup := LoadProgress(progress);
    RunFrom(startup.cred, startup, |Chunks(venues)|, replies, Empty, [], None)
  }

  /** A persisted credential index past the last credential: no request, no flush, an unbound local. */
  lemma CredentialPastEnd(venues: seq<string>, progress: Option<Cursor>, replies: Replies)
    requires progress.Some? && progress.value.cred >= CredentialCount
    ensures var r := Crawl(venues, progress, replies);
      r.ending == RaisedUnbound && r.calls == [] && r.saved == [] && r.flushed == []
  {
  }

  /**
   * `guardar_resultados` is called exactly once unless the run ends in an
   * exception, and then not at all; the unbound local arises only when the
   * loop body never ran.
   */
  lemma {:induction false} FlushOnce(c: nat, startup: Cursor, count: nat, replies: Replies,
                                     acc: Run, hits: seq<Hit>, exhausted: Option<bool>)
    ensures var r := RunFrom(c, startup, count, replies, acc, hits, exhausted);
      (r.ending == Finished <==> |r.flushed| == 1) &&
      (r.ending != Finished ==> r.flushed == []) &&
      (r.ending == RaisedUnbound <==> c >= CredentialCount && exhausted.None?)
    decreases CredentialCount - c
  {
    if c < CredentialCount {
      var start := Pos(startup.tipo, startup.chunk);
      var s := SweepTipos(c, start.tipo, start, count, replies, |acc.calls|);
      if s.stop == Exhausted {
        FlushOnce(c + 1, startup, count, replies, Extend(acc, s), hits + s.hits, Some(true));
      }
    }
  }

  /** A credential's sweep from a cursor keeps the items of exactly its successful replies. */
  lemma TiposHits(c: nat, start: Pos, count: nat, replies: Replies, n: nat)
    ensures var s := SweepTipos(c, start.tipo, start, count, replies, n);
      s.hits == ItemsOf(replies, n, |s.calls|)
  {
    SweepFrom(c, start, count, replies, n);
    SweepHits(c, Pending(start.tipo, start.chunk, count), replies, n);
  }

  /**
   * When `hits` holds the items of the requests made so far, a flush holds
   * the items of every successful request of the run, in request order.
   */
  lemma {:induction false} FlushHolds(c: nat, startup: Cursor, count: nat, replies: Replies,
                                      acc: Run, hits: seq<Hit>, exhausted: Option<bool>)
    requires hits == ItemsOf(replies, 0, |acc.calls|)
    ensures var r := RunFrom(c, startup, count, replies, acc, hits, exhausted);
      r.flushed == [] || r.flushed == [ItemsOf(replies, 0, |r.calls|)]
    decreases CredentialCount - c, 1
  {
    if c < CredentialCount {
      var start := Pos(startup.tipo, startup.chunk);
      var s := SweepTipos(c, start.tipo, start, count, replies, |acc.calls|);
      assert hits + s.hits == ItemsOf(replies, 0, |Extend(acc, s).calls|) by {
        TiposHits(c, start, count, replies, |acc.calls|);
        ItemsOfSplit(replies, 0, |acc.calls|, |s.calls|);
      }
      FlushAfter(c, startup, count, replies, acc, hits, s);
    }
  }

  /** The same once credential c has swept, whatever the sweep did. */
  lemma {:induction false} FlushAfter(c: nat, startup: Cursor, count: nat, replies: Replies,
                                      acc: Run, hits: seq<Hit>, s: Sweep)
    requires c < CredentialCount
    requires hits + s.hits == ItemsOf(replies, 0, |Extend(acc, s).calls|)
    ensures var r := if s.stop == Exhausted then RunFrom(c + 1, startup, count, replies, Extend(acc, s), hits + s.hits, Some(true))
                     else Close(Extend(acc, s), hits + s.hits, s.stop);
      r.flushed == [] || r.flushed == [ItemsOf(replies, 0, |r.calls|)]
    decreases CredentialCount - c, 0
  {
    if s.stop == Exhausted {
      FlushHolds(c + 1, startup, count, replies, Extend(acc, s), hits + s.hits, Some(true));
    }
  }

  /**
   * From the start: one flush on a normal return, holding the items of every
   * successful request of the run in request order, and an unbound local
   * exactly when the persisted credential is past the end.
   */
  lemma CrawlFlushOnce(venues: seq<string>, progress: Option<Cursor>, replies: Replies)
    ensures var r := Crawl(venues, progress, replies);
      (r.ending == Finished <==> |r.flushed| == 1) &&
      (r.ending != Finished ==> r.flushed == []) &&
      (r.ending == Finished ==> r.flushed == [ItemsOf(replies, 0, |r.calls|)]) &&
      (r.ending == RaisedUnbound <==> LoadProgress(progress).cred >= CredentialCount)
  {
    var startup := LoadProgress(progress);
    FlushOnce(startup.cred, startup, |Chunks(venues)|, replies, Empty, [], None);
    FlushHolds(startup.cred, startup, |Chunks(venues)|, replies, Empty, [], None);
  }

  /** With at least one chunk the schedule from (0, 0) has at least two positions and opens with (0, 0). */
  lemma ScheduleOpening(n: nat)
    requires n > 0
    ensures |Pending(0, 0, n)| >= 2 && Pending(0, 0, n)[0] == Pos(0, 0)
  {
    var ps := Pending(0, 0, n);
    PendingCons(0, 0, n);
    PendingMembers(0, 0, n, Pos(1, 0));
    assert Pos(1, 0) in ps[1..];
  }

  /** The first sweep of the scenario: a success, then a 429. */
  lemma FirstSweepExhausted(count: nat, replies: Replies)
    requires count > 0
    requires replies.At(0).Ok? && replies.At(1) == Status(TooManyRequests)
    ensures var s := SweepTipos(0, 0, Pos(0, 0), count, replies, 0);
      s.stop == Exhausted && |s.calls| == 2 && s.calls[0] == Call(0, Pos(0, 0)) && s.done == [Pos(0, 0)]
  {
    var ps := Pending(0, 0, count);
    ScheduleOpening(count);
    SweepFrom(0, Pos(0, 0), count, replies, 0);
    var tail := SweepList(0, ps[1..], replies, 1);
    assert tail == Halt(0, ps[1], replies.At(1));
  }

  /** The second credential's sweep opens again at (0, 0). */
  lemma SecondSweepRestarts(count: nat, replies: Replies)
    requires count > 0 && replies.At(2).Ok?
    ensures var s := SweepTipos(1, 0, Pos(0, 0), count, replies, 2);
      |s.calls| > 0 && s.calls[0] == Call(1, Pos(0, 0)) && |s.done| > 0 && s.done[0] == Pos(0, 0)
  {
    ScheduleOpening(count);
    SweepFrom(1, Pos(0, 0), count, replies, 2);
  }

  /** The last credential's sweep is all that is added to the run. */
  lemma LastCredential(startup: Cursor, count: nat, replies: Replies, acc: Run, hits: seq<Hit>)
    ensures var s := SweepTipos(CredentialCount - 1, startup.tipo, Pos(startup.tipo, startup.chunk), count, replies, |acc.calls|);
      var r := RunFrom(CredentialCount - 1, startup, count, replies, acc, hits, Some(true));
      r.calls == acc.calls + s.calls && r.done == acc.done + s.done
  {
  }

  /** After a 429, the run goes on with the next credential from the startup cursor. */
  lemma NextCredential(c: nat, startup: Cursor, count: nat, replies: Replies, acc: Run, hits: seq<Hit>, exhausted: Option<bool>)
    requires c < CredentialCount
    requires SweepTipos(c, startup.tipo, Pos(startup.tipo, startup.chunk), count, replies, |acc.calls|).stop == Exhausted
    ensures var s := SweepTipos(c, startup.tipo, Pos(startup.tipo, startup.chunk), count, replies, |acc.calls|);
      var r := RunFrom(c, startup, count, replies, acc, hits, exhausted);
      var next := RunFrom(c + 1, startup, count, replies, Extend(acc, s), hits + s.hits, Some(true));
      r.calls == next.calls && r.done == next.done
  {
  }

  /**
   * Rotation does not resume: with no progress file, a success, then a 429,
   * the second credential re-sends the very first query, and position (0, 0)
   * is stored twice.
   */
  lemma RotationRepeats(venues: seq<string>, replies: Replies)
    requires |venues| > 0
    requires replies.At(0).Ok? && replies.At(1) == Status(TooManyRequests) && replies.At(2).Ok?
    ensures var r := Crawl(venues, None, replies);
      |r.calls| >= 3 && r.calls[0] == Call(0, Pos(0, 0)) && r.calls[2] == Call(1, Pos(0, 0)) &&
      |r.done| >= 2 && r.done[0] == Pos(0, 0) && r.done[1] == Pos(0, 0)
  {
    var count := |Chunks(venues)|;
    var startup := Cursor(0, 0, 0);
    FirstSweepExhausted(count, replies);
    SecondSweepRestarts(count, replies);
    var s0 := SweepTipos(0, 0, Pos(0, 0), count, replies, 0);
    var acc := Extend(Empty, s0);
    assert acc.calls == s0.calls && acc.done == s0.done;
    LastCredential(startup, count, replies, acc, [] + s0.hits);
    var s1 := SweepTipos(1, 0, Pos(0, 0), count, replies, 2);
    var r := RunFrom(1, startup, count, replies, acc, [] + s0.hits, Some(true));
    assert LoadProgress(None) == startup;
    NextCredential(0, startup, count, replies, Empty, [], None);
    assert r.calls == s0.calls + s1.calls && r.done == s0.done + s1.done;
    assert r.calls[2] == s1.calls[0] && r.done[1] == s1.done[0];
  }

  // ------------------------------------------------- rotation that resumes

  /**
   * The rotation the persisted cursor is written for: on a 429 the next
   * credential reloads the cursor just written and continues from the
   * position that ran out of quota.
   */
  function RunFixed(c: nat, start: Pos, count: nat, replies: Replies,
                    acc: Run, hits: seq<Hit>, exhausted: Option<bool>): Run
    decreases CredentialCount - c, 1
  {
    if c >= CredentialCount then AfterLoop(acc, hits, exhausted)
    else FixedAfter(c, SweepTipos(c, start.tipo, start, count, replies, |acc.calls|), count, replies, acc, hits)
  }

  /** After credential c's sweep s: on a 429, the next credential resumes at the cursor s persisted last. */
  function FixedAfter(c: nat, s: Sweep, count: nat, replies: Replies, acc: Run, hits: seq<Hit>): Run
    requires c < CredentialCount
    decreases CredentialCount - c, 0
  {
    if s.stop == Exhausted && |s.saved| > 0 then
      var cur := s.saved[|s.saved| - 1];
      RunFixed(c + 1, Pos(cur.tipo, cur.chunk), count, replies, Extend(acc, s), hits + s.hits, Some(true))
    else Close(Extend(acc, s), hits + s.hits, s.stop)
  }

  /** One credential's sweep from a cursor whose schedule is the rest of a longer one, from index j. */
  lemma SweepFromIndex(c: nat, start: Pos, ps: seq<Pos>, j: nat, count: nat, replies: Replies, n: nat)
    requires j <= |ps| && Pending(start.tipo, start.chunk, count) == ps[j..]
    ensures var s := SweepTipos(c, start.tipo, start, count, replies, n);
      j + |s.done| <= |ps| && s.done == ps[j..j + |s.done|] &&
      (s.stop == Exhausted ==>
         j + |s.done| < |ps| && |s.saved| > 0 &&
         Pos(s.saved[|s.saved| - 1].tipo, s.saved[|s.saved| - 1].chunk) == ps[j + |s.done|])
  {
    var rest := ps[j..];
    SweepFrom(c, start, count, replies, n);
    SweepDone(c, rest, replies, n);
    SweepSaved(c, rest, replies, n);
  }

  /** The successes of one credential's sweep extend a prefix of the schedule to a longer prefix. */
  lemma FixedSweepPrefix(c: nat, ps: seq<Pos>, start: Pos, j: nat, count: nat, replies: Replies, acc: Run)
    requires j <= |ps| && acc.done == ps[..j]
    requires Pending(start.tipo, start.chunk, count) == ps[j..]
    ensures var s := SweepTipos(c, start.tipo, start, count, replies, |acc.calls|);
      var j2 := j + |s.done|;
      j2 <= |ps| && Extend(acc, s).done == ps[..j2] &&
      (s.stop == Exhausted ==>
         j2 < |ps| && |s.saved| > 0 && Pending(s.saved[|s.saved| - 1].tipo, s.saved[|s.saved| - 1].chunk, count) == ps[j2..])
  {
    var s := SweepTipos(c, start.tipo, start, count, replies, |acc.calls|);
    SweepFromIndex(c, start, ps, j, count, replies, |acc.calls|);
    var j2 := j + |s.done|;
    assert Extend(acc, s).done == ps[..j] + ps[j..j2];
    assert ps[..j] + ps[j..j2] == ps[..j2];
    if s.stop == Exhausted {
      var cur := s.saved[|s.saved| - 1];
      assert Pos(cur.tipo, cur.chunk) == ps[j2];
      ResumeRest(start, count, ps, j, j2);
    }
  }

  /**
   * With resuming rotation the successful positions of the whole run are a
   * prefix of the schedule from the startup cursor: no query is repeated and
   * none is skipped.
   */
  lemma {:induction false} FixedRunNoRepeats(c: nat, ps: seq<Pos>, start: Pos, j: nat, count: nat,
                                             replies: Replies, acc: Run, hits: seq<Hit>, exhausted: Option<bool>)
    requires j <= |ps| && acc.done == ps[..j]
    requires Pending(start.tipo, start.chunk, count) == ps[j..]
    ensures var r := RunFixed(c, start, count, replies, acc, hits, exhausted);
      |r.done| <= |ps| && r.done == ps[..|r.done|]
    decreases CredentialCount - c, 1
  {
    if c < CredentialCount {
      var s := SweepTipos(c, start.tipo, start, count, replies, |acc.calls|);
      FixedSweepPrefix(c, ps, start, j, count, replies, acc);
      FixedAfterNoRepeats(c, s, ps, j + |s.done|, count, replies, acc, hits);
    }
  }

  /** The same after one credential's sweep s, given what s did to the schedule. */
  lemma {:induction false} FixedAfterNoRepeats(c: nat, s: Sweep, ps: seq<Pos>, j2: nat, count: nat,
                                               replies: Replies, acc: Run, hits: seq<Hit>)
    requires c < CredentialCount
    requires j2 <= |ps| && Extend(acc, s).done == ps[..j2]
    requires s.stop == Exhausted ==>
      j2 < |ps| && |s.saved| > 0 && Pending(s.saved[|s.saved| - 1].tipo, s.saved[|s.saved| - 1].chunk, count) == ps[j2..]
    ensures var r := FixedAfter(c, s, count, replies, acc, hits);
      |r.done| <= |ps| && r.done == ps[..|r.done|]
    decreases CredentialCount - c, 0
  {
    if s.stop == Exhausted {
      var cur := s.saved[|s.saved| - 1];
      FixedRunNoRepeats(c + 1, ps, Pos(cur.tipo, cur.chunk), j2, count, replies, Extend(acc, s), hits + s.hits, Some(true));
    }
  }

  /** Resuming inside the rest of a schedule continues that schedule. */
  lemma ResumeRest(start: Pos, count: nat, ps: seq<Pos>, j: nat, j2: nat)
    requires j <= j2 < |ps| && Pending(start.tipo, start.chunk, count) == ps[j..]
    ensures Pending(ps[j2].tipo, ps[j2].chunk, count) == ps[j2..]
  {
    var rest := ps[j..];
    assert rest[j2 - j] == ps[j2] && rest[j2 - j..] == ps[j2..];
    ResumeAt(start.tipo, start.chunk, count, j2 - j);
  }

  /** The whole resuming run, from whatever cursor was persisted. */
  lemma FixedCrawlNoRepeats(venues: seq<string>, progress: Option<Cursor>, replies: Replies)
    ensures var st := LoadProgress(progress);
      var ps := Pending(st.tipo, st.chunk, |Chunks(venues)|);
      var r := RunFixed(st.cred, Pos(st.tipo, st.chunk), |Chunks(venues)|, replies, Empty, [], None);
      |r.done| <= |ps| && r.done == ps[..|r.done|]
  {
    var st := LoadProgress(progress);
    var count := |Chunks(venues)|;
    var ps := Pending(st.tipo, st.chunk, count);
    assert Empty.done == ps[..0] && ps[0..] == ps;
    FixedRunNoRepeats(st.cred, ps, Pos(st.tipo, st.chunk), 0, count, replies, Empty, [], None);
  }
}
