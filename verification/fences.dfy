/**
 * The two ways the pipelines peel a Markdown code fence off a language-model
 * reply: `limpiar_raw_response` (scripts/procesar_eventos.py and, identical,
 * scripts/clasificar_eventos_culturales.py) works line by line; the
 * "```json" slice of scripts/clasificar_eventos.py cuts fixed character
 * counts.
 */
module Fences {
  import opened Text

  const Fence: string := "```"

  /** `limpiar_raw_response`: drop an opening fence line and a closing fence line, then strip. */
  function CleanRawResponse(raw: string): (r: string)
    ensures !StartsWith(raw, Fence) ==> r == raw
    ensures StartsWith(raw, Fence) ==> |r| == 0 || (!IsSpace(r[0]) && !IsSpace(r[|r| - 1]))
  {
    if !StartsWith(raw, Fence) then raw
    else Strip(Join(DropClosing(DropOpening(SplitLines(raw))), "\n"))
  }

  /** The first line goes when it starts with a fence. */
  function DropOpening(lines: seq<string>): seq<string> {
    if |lines| > 0 && StartsWith(lines[0], Fence) then lines[1..] else lines
  }

  /** The last line goes when it starts with a fence. */
  function DropClosing(lines: seq<string>): seq<string> {
    if |lines| > 0 && StartsWith(lines[|lines| - 1], Fence) then lines[..|lines| - 1] else lines
  }

  /** The first line of a reply that starts with a fence is the fence line, so it is always dropped. */
  lemma FirstLineIsFence(raw: string)
    requires StartsWith(raw, Fence)
    ensures |SplitLines(raw)| > 0 && StartsWith(SplitLines(raw)[0], Fence)
  {
    StartsWithIff(raw, Fence);
    var n := LineEnd(raw);
    assert raw[0] == '`' && raw[1] == '`' && raw[2] == '`';
    assert n >= 3;
    var first := SplitLines(raw)[0];
    assert first == raw[..n];
    assert first[..3] == raw[..3] == Fence;
    StartsWithIff(first, Fence);
  }

  /** A boundary-free line. */
  predicate IsLine(l: string) {
    forall c :: c in l ==> !IsLineBreak(c)
  }

  /** A fenced reply "```tag", the body lines, "```" comes back as the stripped body. */
  lemma FencedRoundTrip(tag: string, body: seq<string>)
    requires IsLine(tag) && forall k :: 0 <= k < |body| ==> IsLine(body[k])
    ensures CleanRawResponse(Join([Fence + tag] + body + [Fence], "\n")) == Strip(Join(body, "\n"))
  {
    var rest := body + [Fence];
    var raw := Join([Fence + tag] + rest, "\n");
    assert [Fence + tag] + body + [Fence] == [Fence + tag] + rest;
    LinesAppendFence(body);
    LinesOf(tag, rest);
    CleanGivenLines(raw, tag, rest);
    ClosingFenceDropped(body);
  }

  lemma LinesAppendFence(body: seq<string>)
    requires forall k :: 0 <= k < |body| ==> IsLine(body[k])
    ensures forall k :: 0 <= k < |body + [Fence]| ==> IsLine((body + [Fence])[k])
  {
    assert IsLine(Fence);
  }

  lemma ClosingFenceDropped(body: seq<string>)
    ensures DropClosing(body + [Fence]) == body
  {
    StartsWithIff(Fence, Fence);
    assert (body + [Fence])[..|body|] == body;
  }

  /** Without a closing fence line only the opening line goes. */
  lemma UnclosedFence(tag: string, body: seq<string>)
    requires IsLine(tag) && forall k :: 0 <= k < |body| ==> IsLine(body[k])
    requires |body| > 0 && |body[|body| - 1]| > 0 && !StartsWith(body[|body| - 1], Fence)
    ensures CleanRawResponse(Join([Fence + tag] + body, "\n")) == Strip(Join(body, "\n"))
  {
    LinesOf(tag, body);
    CleanGivenLines(Join([Fence + tag] + body, "\n"), tag, body);
  }

  /** A fence line followed by further lines opens with a fence and splits back into its lines. */
  lemma LinesOf(tag: string, rest: seq<string>)
    requires IsLine(tag) && forall k :: 0 <= k < |rest| ==> IsLine(rest[k])
    requires |rest| > 0 && |rest[|rest| - 1]| > 0
    ensures var raw := Join([Fence + tag] + rest, "\n");
      StartsWith(raw, Fence) && SplitLines(raw) == [Fence + tag] + rest
  {
    var lines := [Fence + tag] + rest;
    FenceLine(tag);
    forall k | 0 <= k < |lines| ensures IsLine(lines[k]) {
      if k > 0 {
        assert lines[k] == rest[k - 1];
      }
    }
    SplitLinesJoin(lines);
    StartsWithConcat(Fence, tag);
    JoinCons(Fence + tag, rest);
    OpensWithFence(Fence + tag, Join(rest, "\n"));
  }

  /** What `limpiar_raw_response` keeps once the reply's lines are known. */
  lemma CleanGivenLines(raw: string, tag: string, rest: seq<string>)
    requires StartsWith(raw, Fence) && SplitLines(raw) == [Fence + tag] + rest
    ensures CleanRawResponse(raw)
         == Strip(Join(DropClosing(rest), "\n"))
  {
    StartsWithConcat(Fence, tag);
    assert ([Fence + tag] + rest)[1..] == rest;
  }

  lemma FenceLine(tag: string)
    requires IsLine(tag)
    ensures IsLine(Fence + tag)
  {
  }

  lemma JoinCons(a: string, rest: seq<string>)
    requires |rest| > 0
    ensures Join([a] + rest, "\n") == a + "\n" + Join(rest, "\n")
  {
    assert ([a] + rest)[1..] == rest;
  }

  lemma OpensWithFence(first: string, rest: string)
    requires StartsWith(first, Fence)
    ensures StartsWith(first + "\n" + rest, Fence)
  {
    StartsWithIff(first, Fence);
    StartsWithIff(first + "\n" + rest, Fence);
    assert (first + "\n" + rest)[..3] == first[..3];
  }

  // ------------------------------------------------------- the "```json" slice

  /** scripts/clasificar_eventos.py: `s[7:-4].strip()` when `s` starts with "```json", else `s`. */
  function UnwrapJsonFence(s: string): (r: string)
    ensures !StartsWith(s, "```json") ==> r == s
    ensures StartsWith(s, "```json") ==> |r| == 0 || (!IsSpace(r[0]) && !IsSpace(r[|r| - 1]))
  {
    if StartsWith(s, "```json") then Strip(PySlice(s, 7, -4)) else s
  }

  /** The slice drops exactly seven characters in front and four behind, whatever they are. */
  lemma JsonSliceCuts(body: string, tail: string)
    requires |tail| == 4
    ensures UnwrapJsonFence("```json" + body + tail) == Strip(body)
  {
    var s := "```json" + body + tail;
    StartsWithConcat("```json", body + tail);
    assert s == "```json" + (body + tail);
    assert PySlice(s, 7, -4) == s[7..|s| - 4];
    assert s[7..|s| - 4] == body;
  }

  /** A reply no longer than the two cuts leaves nothing. */
  lemma JsonSliceShort(s: string)
    requires StartsWith(s, "```json") && |s| <= 11
    ensures UnwrapJsonFence(s) == ""
  {
    StripTrimmed("");
  }

  /** Any other reply is passed on untouched. */
  lemma JsonSliceOther(s: string)
    requires !StartsWith(s, "```json")
    ensures UnwrapJsonFence(s) == s
  {
  }

  /** On a one-line body in a well-formed "```json" fence, the slice and `limpiar_raw_response` agree. */
  lemma FenceStrippersAgree(b: string)
    requires IsLine(b) && |b| > 0
    ensures var s := Join([Fence + "json", b, Fence], "\n");
      UnwrapJsonFence(s) == Strip(b) && CleanRawResponse(s) == Strip(b)
  {
    var s := Join([Fence + "json", b, Fence], "\n");
    assert IsLine("json") && forall k :: 0 <= k < |[b]| ==> IsLine([b][k]);
    assert [Fence + "json"] + [b] + [Fence] == [Fence + "json", b, Fence];
    FencedRoundTrip("json", [b]);
    assert Join([b], "\n") == b;
    JsonFenceText(b);
    JsonSliceCuts("\n" + b, "\n```");
    StripSpaceFirst('\n', b);
  }

  lemma JsonFenceText(b: string)
    ensures Join([Fence + "json", b, Fence], "\n") == "```json" + ("\n" + b) + "\n```"
  {
    var s := Join([Fence + "json", b, Fence], "\n");
    assert [Fence + "json", b, Fence] == [Fence + "json"] + [b, Fence];
    JoinCons(Fence + "json", [b, Fence]);
    assert [b, Fence] == [b] + [Fence];
    JoinCons(b, [Fence]);
    assert Join([Fence], "\n") == Fence;
    assert s == (Fence + "json") + "\n" + (b + "\n" + Fence);
    assert Fence + "json" == "```json" && "\n" + Fence == "\n```";
  }
}
