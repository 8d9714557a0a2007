/**
 * The handful of Python `str` operations the scripts rely on, over `seq<char>`.
 * Case folding and whitespace follow Python on the Basic Latin and Latin-1
 * blocks (which covers every Spanish letter); other characters are left alone.
 */
module Text {
  import opened Base

  // ---------------------------------------------------------------- lower()

  /** `c.lower()` for code points below U+0100. */
  function LowerChar(c: char): char {
    if 'A' <= c <= 'Z' then (c as int + 32) as char
    else if '\U{C0}' <= c <= '\U{DE}' && c != '\U{D7}' then (c as int + 32) as char
    else c
  }

  /** `s.lower()`, character by character. */
  function Lower(s: string): (r: string)
    ensures |r| == |s|
  {
    seq(|s|, i requires 0 <= i < |s| => LowerChar(s[i]))
  }

  lemma LowerSlice(s: string, i: nat, j: nat)
    requires i <= j <= |s|
    ensures Lower(s[i..j]) == Lower(s)[i..j]
  {
  }

  lemma LowerConcat(a: string, b: string)
    ensures Lower(a + b) == Lower(a) + Lower(b)
  {
    assert Lower(a + b) == Lower(a) + Lower(b) by {
      forall i | 0 <= i < |a + b| ensures Lower(a + b)[i] == (Lower(a) + Lower(b))[i] {
        if i < |a| {} else { assert (a + b)[i] == b[i - |a|]; }
      }
    }
  }

  /** Lower-casing leaves a string alone when it leaves each of its characters alone. */
  lemma LowerUnchanged(s: string)
    requires forall c :: c in s ==> LowerChar(c) == c
    ensures Lower(s) == s
  {
    forall i | 0 <= i < |s| ensures Lower(s)[i] == s[i] {
      assert s[i] in s;
    }
  }

  /** A character that lower-casing keeps survives in the lowered string. */
  lemma LowerKeepsChar(s: string, c: char)
    requires c in s && LowerChar(c) == c
    ensures c in Lower(s)
  {
    var i :| 0 <= i < |s| && s[i] == c;
    assert Lower(s)[i] == c;
  }

  // ------------------------------------------------------------ whitespace

  /** `c.isspace()` for code points below U+0100. */
  predicate IsSpace(c: char) {
    c == ' ' || ('\t' <= c <= '\r') || ('\U{1C}' <= c <= '\U{1F}') || c == '\U{85}' || c == '\U{A0}'
  }

  ghost predicate AllSpace(s: string) {
    forall i :: 0 <= i < |s| ==> IsSpace(s[i])
  }

  /** Number of leading whitespace characters. */
  function LeadingSpace(s: string): (n: nat)
    ensures n <= |s|
    ensures forall i :: 0 <= i < n ==> IsSpace(s[i])
    ensures n < |s| ==> !IsSpace(s[n])
  {
    if |s| == 0 || !IsSpace(s[0]) then 0 else 1 + LeadingSpace(s[1..])
  }

  /** Index where the trailing whitespace run starts. */
  function TrailingSpace(s: string): (n: nat)
    ensures n <= |s|
    ensures forall i :: n <= i < |s| ==> IsSpace(s[i])
    ensures 0 < n ==> !IsSpace(s[n - 1])
  {
    if |s| == 0 || !IsSpace(s[|s| - 1]) then |s| else TrailingSpace(s[..|s| - 1])
  }

  /** `s.lstrip()` */
  function StripLeft(s: string): string {
    s[LeadingSpace(s)..]
  }

  /** `s.strip()`: drops the leading and the trailing whitespace run. */
  function Strip(s: string): (r: string)
    ensures |r| == 0 || (!IsSpace(r[0]) && !IsSpace(r[|r| - 1]))
    ensures |r| == 0 <==> AllSpace(s)
  {
    var t := StripLeft(s);
    t[..TrailingSpace(t)]
  }

  /** The strip is what remains once a whitespace run is cut from each end. */
  lemma StripShape(s: string)
    ensures exists a, b :: s == a + Strip(s) + b && AllSpace(a) && AllSpace(b)
  {
    var t := StripLeft(s);
    var r := Strip(s);
    assert s == s[..LeadingSpace(s)] + r + t[TrailingSpace(t)..];
    assert AllSpace(s[..LeadingSpace(s)]) && AllSpace(t[TrailingSpace(t)..]);
  }

  /** A string with no whitespace at either end is its own strip. */
  lemma StripTrimmed(s: string)
    requires |s| == 0 || (!IsSpace(s[0]) && !IsSpace(s[|s| - 1]))
    ensures Strip(s) == s
  {
  }

  /** Stripping keeps a first character that is not whitespace. */
  lemma StripKeepsFirst(s: string)
    requires |s| > 0 && !IsSpace(s[0])
    ensures |Strip(s)| > 0 && Strip(s)[0] == s[0]
  {
    assert LeadingSpace(s) == 0 && StripLeft(s) == s;
    assert TrailingSpace(s) > 0;
  }

  lemma StripIdempotent(s: string)
    ensures Strip(Strip(s)) == Strip(s)
  {
    StripTrimmed(Strip(s));
  }

  // -------------------------------------------------------- prefix, search

  /** `s.startswith(p)`, one character at a time so that literals evaluate. */
  predicate StartsWith(s: string, p: string) {
    |p| <= |s| && (|p| == 0 || (p[0] == s[0] && StartsWith(s[1..], p[1..])))
  }

  lemma StartsWithIff(s: string, p: string)
    ensures StartsWith(s, p) <==> |p| <= |s| && s[..|p|] == p
  {
    if 0 < |p| <= |s| {
      StartsWithIff(s[1..], p[1..]);
      assert s[..|p|] == [s[0]] + s[1..][..|p| - 1];
    }
  }

  lemma StartsWithConcat(p: string, t: string)
    ensures StartsWith(p + t, p)
  {
    StartsWithIff(p + t, p);
    assert (p + t)[..|p|] == p;
  }

  /** `t` occurs in `s` at position `i`. */
  predicate OccursAt(s: string, t: string, i: nat) {
    i + |t| <= |s| && s[i..i + |t|] == t
  }

  lemma OccursAtShift(s: string, t: string, j: nat)
    requires 1 <= j && |s| >= 1
    ensures OccursAt(s, t, j) <==> OccursAt(s[1..], t, j - 1)
  {
    if j + |t| <= |s| {
      var a, b := s[j..j + |t|], s[1..][j - 1..j - 1 + |t|];
      assert |a| == |b|;
      forall k | 0 <= k < |a| ensures a[k] == b[k] {
        assert a[k] == s[j + k] && b[k] == s[1..][j - 1 + k];
      }
      assert a == b;
    }
  }

  /** `s.find(t)`: the first position where `t` occurs. */
  function IndexOf(s: string, t: string): (r: Option<nat>)
    decreases |s|
    ensures r.Some? ==> OccursAt(s, t, r.value)
    ensures r.Some? ==> forall j :: 0 <= j < r.value ==> !OccursAt(s, t, j)
    ensures r.None? ==> forall j :: 0 <= j <= |s| ==> !OccursAt(s, t, j)
  {
    StartsWithIff(s, t);
    if StartsWith(s, t) then Some(0)
    else if |s| == 0 then None
    else
      var rest := IndexOf(s[1..], t);
      forall j | 1 <= j <= |s| ensures OccursAt(s, t, j) <==> OccursAt(s[1..], t, j - 1) {
        OccursAtShift(s, t, j);
      }
      match rest
      case None => None
      case Some(i) => Some(i + 1)
  }

  /** `t in s` for strings. */
  predicate Contains(s: string, t: string) {
    exists i :: 0 <= i <= |s| && OccursAt(s, t, i)
  }

  /** `t in s` exactly when `s.find(t)` finds something. */
  lemma ContainsIndexOf(s: string, t: string)
    ensures Contains(s, t) <==> IndexOf(s, t).Some?
  {
    if IndexOf(s, t).Some? {
      assert OccursAt(s, t, IndexOf(s, t).value);
    }
  }

  lemma ContainsAt(s: string, t: string, i: nat)
    requires OccursAt(s, t, i)
    ensures Contains(s, t)
  {
  }

  lemma ContainsSelf(s: string)
    ensures Contains(s, s)
  {
    assert s[0..|s|] == s;
    ContainsAt(s, s, 0);
  }

  /** Every character of a contained string is a character of the container. */
  lemma ContainedChars(s: string, t: string, k: nat)
    requires Contains(s, t) && k < |t|
    ensures t[k] in s
  {
    var i :| 0 <= i <= |s| && OccursAt(s, t, i);
    assert s[i..i + |t|][k] == s[i + k];
  }

  /** Establishes an occurrence one character at a time (for literals). */
  lemma OccursAtChars(s: string, t: string, i: nat)
    requires i + |t| <= |s|
    requires forall k :: 0 <= k < |t| ==> s[i + k] == t[k]
    ensures OccursAt(s, t, i)
  {
    assert s[i..i + |t|] == t;
  }

  /** A string whose first character never appears where an occurrence could start is not contained. */
  lemma NotContainedByStart(s: string, t: string)
    requires |t| > 0
    requires |t| > |s| || t[0] !in s[..|s| - |t| + 1]
    ensures !Contains(s, t)
  {
    forall i | 0 <= i <= |s| ensures !OccursAt(s, t, i) {
      if i + |t| <= |s| {
        assert s[i..i + |t|][0] == s[i] == s[..|s| - |t| + 1][i];
      }
    }
  }

  /** A string containing a character that `s` lacks is not contained in `s`. */
  lemma NotContainedByChar(s: string, t: string, k: nat)
    requires k < |t| && t[k] !in s
    ensures !Contains(s, t)
  {
    if Contains(s, t) {
      ContainedChars(s, t, k);
    }
  }

  /** A string that holds `u` holds every two adjacent characters of it. */
  lemma ContainsPairOf(t: string, i: nat)
    requires i + 1 < |t|
    ensures Contains(t, [t[i], t[i + 1]])
  {
    assert t[i..i + 2] == [t[i], t[i + 1]];
    ContainsAt(t, [t[i], t[i + 1]], i);
  }

  /** If `t` holds `u` and `s` does not, `s` does not hold `t`. */
  lemma NotContainedVia(s: string, t: string, u: string)
    requires Contains(t, u) && !Contains(s, u)
    ensures !Contains(s, t)
  {
    if Contains(s, t) {
      ContainsTrans(s, t, u);
    }
  }

  /** Containment is transitive. */
  lemma ContainsTrans(s: string, t: string, u: string)
    requires Contains(s, t) && Contains(t, u)
    ensures Contains(s, u)
  {
    var i :| 0 <= i <= |s| && OccursAt(s, t, i);
    var j :| 0 <= j <= |t| && OccursAt(t, u, j);
    forall k | 0 <= k < |u| ensures s[i + j + k] == u[k] {
      assert s[i..i + |t|][j + k] == t[j + k];
      assert t[j..j + |u|][k] == u[k];
    }
    OccursAtChars(s, u, i + j);
  }

  /** Lower-casing preserves a containment. */
  lemma ContainsLower(s: string, t: string)
    requires Contains(s, t)
    ensures Contains(Lower(s), Lower(t))
  {
    var i :| 0 <= i <= |s| && OccursAt(s, t, i);
    LowerSlice(s, i, i + |t|);
    ContainsAt(Lower(s), Lower(t), i);
  }

  /** No position of `s` holds `x` immediately followed by `y`. */
  predicate NoPair(s: string, x: char, y: char) {
    forall i :: 0 <= i < |s| - 1 ==> !(s[i] == x && s[i + 1] == y)
  }

  lemma NoPairIff(s: string, x: char, y: char)
    ensures NoPair(s, x, y) <==> !Contains(s, [x, y])
  {
    if NoPair(s, x, y) {
      forall i | 0 <= i <= |s| ensures !OccursAt(s, [x, y], i) {
        if i + 2 <= |s| {
          assert s[i..i + 2][0] == s[i] && s[i..i + 2][1] == s[i + 1];
        }
      }
    } else {
      var i :| 0 <= i < |s| - 1 && s[i] == x && s[i + 1] == y;
      assert s[i..i + 2] == [x, y];
      ContainsAt(s, [x, y], i);
    }
  }

  /** A pair is absent from `a + b` when it is absent from both and does not straddle the seam. */
  lemma NoPairConcat(a: string, b: string, x: char, y: char)
    requires NoPair(a, x, y) && NoPair(b, x, y)
    requires |a| == 0 || |b| == 0 || !(a[|a| - 1] == x && b[0] == y)
    ensures NoPair(a + b, x, y)
  {
    var s := a + b;
    forall i | 0 <= i < |s| - 1 ensures !(s[i] == x && s[i + 1] == y) {
      if i + 1 < |a| {
        assert s[i] == a[i] && s[i + 1] == a[i + 1];
      } else if i >= |a| {
        assert s[i] == b[i - |a|] && s[i + 1] == b[i - |a| + 1];
      } else {
        assert s[i] == a[|a| - 1] && s[i + 1] == b[0];
      }
    }
  }

  /** A pair one of whose characters is missing cannot occur. */
  lemma NoPairByChar(s: string, x: char, y: char)
    requires x !in s || y !in s
    ensures NoPair(s, x, y)
  {
    forall i | 0 <= i < |s| - 1 ensures !(s[i] == x && s[i + 1] == y) {
      assert s[i] in s && s[i + 1] in s;
    }
  }

  /** Whitespace in front of a string does not change its strip. */
  lemma StripSpaceFirst(c: char, s: string)
    requires IsSpace(c)
    ensures Strip([c] + s) == Strip(s)
  {
    var t := [c] + s;
    assert t[1..] == s;
    assert StripLeft(t) == StripLeft(s);
  }

  /** `s[i:j]` with Python's reading of negative and out-of-range bounds. */
  function PySlice(s: string, i: int, j: int): (r: string)
    ensures |r| <= |s|
  {
    var lo := if i < 0 then (if |s| + i < 0 then 0 else |s| + i) else (if i > |s| then |s| else i);
    var hi := if j < 0 then (if |s| + j < 0 then 0 else |s| + j) else (if j > |s| then |s| else j);
    if lo >= hi then "" else s[lo..hi]
  }

  // ------------------------------------------------------------- split/join

  /** `sep.join(parts)` */
  function Join(parts: seq<string>, sep: string): string {
    if |parts| == 0 then ""
    else if |parts| == 1 then parts[0]
    else parts[0] + sep + Join(parts[1..], sep)
  }

  /** `s.split(sep)` for a non-empty separator: cut at each leftmost, non-overlapping occurrence. */
  function Split(s: string, sep: string): (r: seq<string>)
    requires |sep| > 0
    decreases |s|
    ensures |r| >= 1
    ensures Join(r, sep) == s
    ensures forall k :: 0 <= k < |r| ==> !Contains(r[k], sep)
  {
    match IndexOf(s, sep)
    case None => [s]
    case Some(i) =>
      var head := s[..i];
      assert !Contains(head, sep) by {
        forall j | 0 <= j <= |head| ensures !OccursAt(head, sep, j) {
          if OccursAt(head, sep, j) {
            assert s[j..j + |sep|] == head[j..j + |sep|];
            assert OccursAt(s, sep, j);
          }
        }
      }
      var tail := Split(s[i + |sep|..], sep);
      assert s == head + sep + s[i + |sep|..];
      [head] + tail
  }

  /** The first piece of a split is everything before the first occurrence. */
  lemma SplitFirst(s: string, sep: string)
    requires |sep| > 0
    ensures Split(s, sep)[0] == (match IndexOf(s, sep) case None => s case Some(i) => s[..i])
  {
  }

  /** Splitting at an occurrence known to be the first one. */
  lemma SplitAtFirst(a: string, sep: string, b: string)
    requires |sep| > 0
    requires IndexOf(a + sep + b, sep) == Some(|a|)
    ensures Split(a + sep + b, sep) == [a] + Split(b, sep)
  {
    var s := a + sep + b;
    assert s[..|a|] == a;
    assert s[|a| + |sep|..] == b;
  }

  /** When `a` has none of the separator's first character, the first occurrence follows `a`. */
  lemma FirstOccurrenceAfter(a: string, sep: string, b: string)
    requires |sep| > 0 && sep[0] !in a
    ensures IndexOf(a + sep + b, sep) == Some(|a|)
  {
    var s := a + sep + b;
    assert OccursAt(s, sep, |a|) by { assert s[|a|..|a| + |sep|] == sep; }
    var i := IndexOf(s, sep).value;
    assert s[i..i + |sep|] == sep;
  }

  /** Splitting just after a leading piece free of the separator's first character. */
  lemma SplitAround(a: string, sep: string, b: string)
    requires |sep| > 0 && sep[0] !in a
    ensures Split(a + sep + b, sep) == [a] + Split(b, sep)
  {
    FirstOccurrenceAfter(a, sep, b);
    SplitAtFirst(a, sep, b);
  }

  lemma SplitNoSep(s: string, sep: string)
    requires |sep| > 0 && !Contains(s, sep)
    ensures Split(s, sep) == [s]
  {
    ContainsIndexOf(s, sep);
  }

  /** `s` with every whitespace character removed. */
  function NonSpace(s: string): string {
    if |s| == 0 then "" else (if IsSpace(s[0]) then "" else [s[0]]) + NonSpace(s[1..])
  }

  /**
   * `s.split()`: the maximal runs of non-whitespace characters, in order.
   * Together the words spell `s` without its whitespace; WordsSkipSpace
   * and WordsCons say where one word ends and the next begins.
   */
  function Words(s: string): (r: seq<string>)
    decreases |s|
    ensures forall k :: 0 <= k < |r| ==> |r[k]| > 0 && forall c :: c in r[k] ==> !IsSpace(c)
    ensures Join(r, "") == NonSpace(s)
  {
    var t := StripLeft(s);
    if |t| == 0 then
      WordsStep(s, 0, []);
      []
    else
      var n := WordLength(t);
      var rest := Words(t[n..]);
      WordsStep(s, n, rest);
      [t[..n]] + rest
  }

  /** One step of `Words`: the first word, then the words of what follows it, spell the text without whitespace. */
  lemma WordsStep(s: string, n: nat, rest: seq<string>)
    requires n <= |StripLeft(s)| && forall i :: 0 <= i < n ==> !IsSpace(StripLeft(s)[i])
    requires n == 0 ==> |StripLeft(s)| == 0 && rest == []
    requires Join(rest, "") == NonSpace(StripLeft(s)[n..])
    ensures Join(if n == 0 then [] else [StripLeft(s)[..n]] + rest, "") == NonSpace(s)
  {
    var t := StripLeft(s);
    LeadingRun(s);
    if n == 0 {
      NonSpaceOfSpace(s[..LeadingSpace(s)], t);
    } else {
      PiecesStep(s[..LeadingSpace(s)], t, n, rest);
    }
  }

  /** A text is its leading whitespace run followed by its left strip. */
  lemma LeadingRun(s: string)
    ensures s == s[..LeadingSpace(s)] + StripLeft(s)
    ensures forall i :: 0 <= i < |s[..LeadingSpace(s)]| ==> IsSpace(s[..LeadingSpace(s)][i])
  {
    var k := LeadingSpace(s);
    assert StripLeft(s) == s[k..];
    assert s == s[..k] + s[k..];
  }

  /** A whitespace run, then a word of length n, then text whose words are `rest`. */
  lemma PiecesStep(a: string, t: string, n: nat, rest: seq<string>)
    requires forall i :: 0 <= i < |a| ==> IsSpace(a[i])
    requires n <= |t| && forall i :: 0 <= i < n ==> !IsSpace(t[i])
    requires Join(rest, "") == NonSpace(t[n..])
    ensures Join([t[..n]] + rest, "") == NonSpace(a + t)
  {
    var w, u := t[..n], t[n..];
    assert t == w + u;
    NonSpaceOfSpace(a, t);
    NonSpaceAppend(w, u);
    NonSpaceOfWord(w);
    JoinEmptyCons(w, rest);
  }

  /** Leading whitespace adds nothing to `NonSpace`. */
  lemma {:induction false} NonSpaceOfSpace(a: string, t: string)
    requires forall i :: 0 <= i < |a| ==> IsSpace(a[i])
    ensures NonSpace(a + t) == NonSpace(t) && (a + t)[|a|..] == t
  {
    if |a| > 0 {
      assert (a + t)[0] == a[0] && IsSpace(a[0]);
      assert (a + t)[1..] == a[1..] + t;
      NonSpaceOfSpace(a[1..], t);
      assert NonSpace(a + t) == NonSpace((a + t)[1..]);
    } else {
      assert a + t == t;
    }
  }

  lemma {:induction false} NonSpaceAppend(a: string, b: string)
    ensures NonSpace(a + b) == NonSpace(a) + NonSpace(b)
  {
    if |a| > 0 {
      assert (a + b)[0] == a[0];
      assert (a + b)[1..] == a[1..] + b;
      NonSpaceAppend(a[1..], b);
    } else {
      assert a + b == b;
    }
  }

  lemma {:induction false} NonSpaceOfWord(w: string)
    requires forall i :: 0 <= i < |w| ==> !IsSpace(w[i])
    ensures NonSpace(w) == w
  {
    if |w| > 0 {
      NonSpaceOfWord(w[1..]);
    }
  }

  lemma JoinEmptyCons(w: string, rest: seq<string>)
    ensures Join([w] + rest, "") == w + Join(rest, "")
  {
    if |rest| > 0 {
      assert ([w] + rest)[1..] == rest;
    }
  }

  /** Whitespace before the first word is skipped. */
  lemma {:induction false} WordsSkipSpace(sp: string, t: string)
    requires AllSpace(sp)
    ensures Words(sp + t) == Words(t)
  {
    LeadingSpaceAppend(sp, t);
    assert StripLeft(sp + t) == StripLeft(t);
  }

  lemma {:induction false} LeadingSpaceAppend(sp: string, t: string)
    requires AllSpace(sp)
    ensures LeadingSpace(sp + t) == |sp| + LeadingSpace(t)
    ensures (sp + t)[|sp| + LeadingSpace(t)..] == t[LeadingSpace(t)..]
  {
    if |sp| > 0 {
      assert (sp + t)[0] == sp[0];
      assert (sp + t)[1..] == sp[1..] + t;
      LeadingSpaceAppend(sp[1..], t);
      assert (sp + t)[|sp| + LeadingSpace(t)..] == (sp[1..] + t)[|sp[1..]| + LeadingSpace(t)..];
    } else {
      assert sp + t == t;
    }
  }

  /** A word followed by whitespace is the first word, and the rest is split after the whitespace. */
  lemma WordsCons(w: string, sp: string, t: string)
    requires |w| > 0 && forall i :: 0 <= i < |w| ==> !IsSpace(w[i])
    requires |sp| > 0 && AllSpace(sp)
    ensures Words(w + sp + t) == [w] + Words(t)
  {
    var s := w + sp + t;
    assert s[0] == w[0];
    assert LeadingSpace(s) == 0;
    assert StripLeft(s) == s;
    WordLengthPrefix(w, sp + t);
    assert s == w + (sp + t);
    assert s[..|w|] == w && s[|w|..] == sp + t;
    WordsSkipSpace(sp, t);
  }

  lemma {:induction false} WordLengthPrefix(w: string, x: string)
    requires forall i :: 0 <= i < |w| ==> !IsSpace(w[i])
    requires |x| > 0 && IsSpace(x[0])
    ensures WordLength(w + x) == |w|
  {
    if |w| > 0 {
      assert (w + x)[1..] == w[1..] + x;
      WordLengthPrefix(w[1..], x);
    } else {
      assert w + x == x;
    }
  }

  /** A non-empty string without whitespace is a single word. */
  lemma WordsSingle(s: string)
    requires |s| > 0 && forall c :: c in s ==> !IsSpace(c)
    ensures Words(s) == [s]
  {
    WordLengthWhole(s);
    assert LeadingSpace(s) == 0 by { assert s[0] in s; }
    WordsFirst(s, |s|);
    assert s[..|s|] == s && s[|s|..] == "";
    assert Words("") == [];
  }

  /** Words of a text that starts with a word of length n. */
  lemma WordsFirst(s: string, n: nat)
    requires LeadingSpace(s) == 0 && 0 < n == WordLength(s)
    ensures Words(s) == [s[..n]] + Words(s[n..])
  {
    assert StripLeft(s) == s;
  }

  lemma {:induction false} WordLengthWhole(s: string)
    requires forall c :: c in s ==> !IsSpace(c)
    ensures WordLength(s) == |s|
  {
    if |s| > 0 {
      assert s[0] in s;
      assert forall c :: c in s[1..] ==> c in s;
      WordLengthWhole(s[1..]);
    }
  }

  /** Length of the leading run of non-whitespace characters. */
  function WordLength(s: string): (n: nat)
    ensures n <= |s|
    ensures forall i :: 0 <= i < n ==> !IsSpace(s[i])
    ensures n < |s| ==> IsSpace(s[n])
    ensures |s| > 0 && !IsSpace(s[0]) ==> n > 0
  {
    if |s| == 0 || IsSpace(s[0]) then 0 else 1 + WordLength(s[1..])
  }

  // ---------------------------------------------------------- splitlines()

  /** The line boundaries recognised by `str.splitlines()`. */
  predicate IsLineBreak(c: char) {
    c == '\n' || c == '\r' || c == '\U{0B}' || c == '\U{0C}' || ('\U{1C}' <= c <= '\U{1E}')
    || c == '\U{85}' || c == '\U{2028}' || c == '\U{2029}'
  }

  /** Index of the first line boundary, or |s|. */
  function LineEnd(s: string): (n: nat)
    ensures n <= |s|
    ensures forall i :: 0 <= i < n ==> !IsLineBreak(s[i])
    ensures n < |s| ==> IsLineBreak(s[n])
  {
    if |s| == 0 || IsLineBreak(s[0]) then 0 else 1 + LineEnd(s[1..])
  }

  /** `s.splitlines()`: "\r\n" is one boundary, and a final boundary opens no empty line. */
  function SplitLines(s: string): (r: seq<string>)
    decreases |s|
    ensures |s| == 0 <==> |r| == 0
    ensures forall k :: 0 <= k < |r| ==> forall c :: c in r[k] ==> !IsLineBreak(c)
  {
    if |s| == 0 then []
    else
      var n := LineEnd(s);
      if n == |s| then [s]
      else
        var width := if s[n] == '\r' && n + 1 < |s| && s[n + 1] == '\n' then 2 else 1;
        [s[..n]] + SplitLines(s[n + width..])
  }

  /** Lines free of boundaries, joined by "\n", split back into themselves when the last is not empty. */
  lemma {:induction false} SplitLinesJoin(lines: seq<string>)
    requires forall k :: 0 <= k < |lines| ==> forall c :: c in lines[k] ==> !IsLineBreak(c)
    requires |lines| > 0 ==> |lines[|lines| - 1]| > 0
    ensures SplitLines(Join(lines, "\n")) == lines
  {
    if |lines| == 1 {
      SplitLinesSingle(lines[0]);
    } else if |lines| > 1 {
      var rest := lines[1..];
      assert Join(lines, "\n") == lines[0] + "\n" + Join(rest, "\n");
      assert forall k :: 0 <= k < |rest| ==> rest[k] == lines[k + 1];
      assert rest[|rest| - 1] == lines[|lines| - 1];
      SplitLinesJoin(rest);
      SplitLinesCons(lines[0], Join(rest, "\n"));
      assert lines == [lines[0]] + rest;
    }
  }

  /** A non-empty boundary-free string is one line. */
  lemma SplitLinesSingle(s: string)
    requires |s| > 0 && forall c :: c in s ==> !IsLineBreak(c)
    ensures SplitLines(s) == [s]
  {
    forall i | 0 <= i < |s| ensures !IsLineBreak(s[i]) { assert s[i] in s; }
    LineEndWhole(s);
  }

  /** A boundary-free line followed by "\n" is the first line. */
  lemma SplitLinesCons(a: string, rest: string)
    requires forall c :: c in a ==> !IsLineBreak(c)
    ensures SplitLines(a + "\n" + rest) == [a] + SplitLines(rest)
  {
    var s := a + "\n" + rest;
    forall i | 0 <= i < |a| ensures !IsLineBreak(s[i]) {
      assert s[i] == a[i] && a[i] in a;
    }
    LineEndAt(s, |a|);
    assert s[..|a|] == a;
    assert s[|a| + 1..] == rest;
  }

  lemma LineEndWhole(s: string)
    requires forall i :: 0 <= i < |s| ==> !IsLineBreak(s[i])
    ensures LineEnd(s) == |s|
  {
  }

  lemma LineEndAt(s: string, n: nat)
    requires n < |s| && IsLineBreak(s[n]) && forall i :: 0 <= i < n ==> !IsLineBreak(s[i])
    ensures LineEnd(s) == n
  {
  }

  // ---------------------------------------------------------------- digits

  predicate IsDigitChar(c: char) {
    '0' <= c <= '9'
  }

  /** A non-empty run of ASCII decimal digits. */
  predicate IsDigits(s: string) {
    |s| > 0 && forall i :: 0 <= i < |s| ==> IsDigitChar(s[i])
  }

  /** `c.isdigit()` below U+0100: the ASCII digits and the superscripts one, two and three. */
  predicate IsDigitLike(c: char) {
    IsDigitChar(c) || c == '\U{B9}' || c == '\U{B2}' || c == '\U{B3}'
  }

  /** `s.isdigit()`: non-empty and every character digit-like. */
  predicate IsDigitText(s: string) {
    |s| > 0 && forall i :: 0 <= i < |s| ==> IsDigitLike(s[i])
  }

  /** The value of a decimal numeral. */
  function DigitsValue(s: string): (v: nat)
    requires forall i :: 0 <= i < |s| ==> IsDigitChar(s[i])
  {
    if |s| == 0 then 0
    else
      assert IsDigitChar(s[|s| - 1]);
      DigitsValue(s[..|s| - 1]) * 10 + (s[|s| - 1] as int - '0' as int)
  }

  /** The digits of a numeral written with `_` separators, as `int()` accepts them. */
  predicate IsUnderscoredNumeral(s: string) {
    && |s| > 0
    && IsDigitChar(s[0]) && IsDigitChar(s[|s| - 1])
    && (forall i :: 0 <= i < |s| ==> IsDigitChar(s[i]) || s[i] == '_')
    && (forall i :: 0 <= i < |s| - 1 ==> !(s[i] == '_' && s[i + 1] == '_'))
  }

  function DropUnderscores(s: string): (r: string)
    ensures forall i :: 0 <= i < |r| ==> r[i] != '_'
    ensures (forall i :: 0 <= i < |s| ==> IsDigitChar(s[i]) || s[i] == '_') ==> forall i :: 0 <= i < |r| ==> IsDigitChar(r[i])
    ensures (forall i :: 0 <= i < |s| ==> s[i] != '_') ==> r == s
  {
    if |s| == 0 then "" else (if s[0] == '_' then "" else [s[0]]) + DropUnderscores(s[1..])
  }

  /** Python's `int(s)` on a string: surrounding whitespace, an optional sign, digits with single `_` separators. */
  function PyInt(s: string): Option<int> {
    var t := Strip(s);
    var signed := |t| > 0 && (t[0] == '+' || t[0] == '-');
    var u := if signed then t[1..] else t;
    if !IsUnderscoredNumeral(u) then None
    else
      var v: int := DigitsValue(DropUnderscores(u));
      Some(if signed && t[0] == '-' then -v else v)
  }

  /** On a plain decimal numeral `int()` is the numeral's value. */
  lemma PyIntDigits(s: string)
    requires IsDigits(s)
    ensures PyInt(s) == Some(DigitsValue(s))
  {
    assert IsDigitChar(s[0]) && IsDigitChar(s[|s| - 1]);
    StripTrimmed(s);
    assert !(s[0] == '+' || s[0] == '-');
    assert IsUnderscoredNumeral(s);
    assert DropUnderscores(s) == s;
  }

  /** `int()` refuses text that, once stripped, starts with neither a sign nor a digit. */
  lemma PyIntRefusesLetterStart(s: string)
    requires |s| > 0 && !IsSpace(s[0]) && !IsDigitChar(s[0]) && s[0] != '+' && s[0] != '-'
    ensures PyInt(s) == None
  {
    StripKeepsFirst(s);
  }

  /**
   * `isdigit()` accepts the superscript digits but `int()` refuses them, so
   * a digit-like string with a superscript in it is not a number.
   */
  lemma PyIntRefusesSuperscripts(s: string)
    requires IsDigitText(s) && !IsDigits(s)
    ensures PyInt(s) == None
  {
    var k :| 0 <= k < |s| && !IsDigitChar(s[k]);
    assert !IsSpace(s[0]) && !IsSpace(s[|s| - 1]);
    StripTrimmed(s);
    assert Strip(s) == s;
    assert !(s[0] == '+' || s[0] == '-');
    assert !(IsDigitChar(s[k]) || s[k] == '_');
    assert !IsUnderscoredNumeral(s);
  }
}
