/**
 The bounded tail capture that child-process output goes through
 (`appendBoundedProcessOutput` in scripts/control-ui-i18n.ts).
 */
module BoundedOutput {
  import opened Common

  /** The text kept so far and the number of characters dropped before it. */
  datatype Capture = Capture(text: string, truncatedChars: nat)

  const EMPTY_CAPTURE := Capture("", 0)

  const RUN_PROCESS_OUTPUT_MAX_CHARS := 1024 * 1024

  /** The configured limit: anything missing or not positive falls back, anything else is at least 1. */
  function ResolveOutputLimit(value: Option<real>): (limit: nat)
    ensures limit >= 1
    ensures value.Some? && value.value >= 1.0 ==> limit as real <= value.value < limit as real + 1.0
  {
    match value
    case None => RUN_PROCESS_OUTPUT_MAX_CHARS
    case Some(v) =>
      if v <= 0.0 then RUN_PROCESS_OUTPUT_MAX_CHARS
      else if v.Floor < 1 then 1 else v.Floor
  }

  /** JavaScript's `s.slice(-n)` for a natural n: a zero means "from the start". */
  function SliceTail(s: string, n: nat): string {
    if n == 0 || n >= |s| then s else s[|s| - n..]
  }

  function Append(capture: Capture, chunk: string, maxChars: nat): Capture {
    var next := capture.text + chunk;
    if |next| <= maxChars then Capture(next, capture.truncatedChars)
    else Capture(SliceTail(next, maxChars), capture.truncatedChars + |next| - maxChars)
  }

  function AppendAll(capture: Capture, chunks: seq<string>, maxChars: nat): Capture
    decreases |chunks|
  {
    if chunks == [] then capture
    else Append(AppendAll(capture, chunks[..|chunks| - 1], maxChars), chunks[|chunks| - 1], maxChars)
  }

  function Min(a: nat, b: nat): nat { if a <= b then a else b }

  /** The capture holds the newest characters of `whole` and counts exactly the rest. */
  ghost predicate Holds(capture: Capture, whole: string, maxChars: nat) {
    && |capture.text| == Min(|whole|, maxChars)
    && capture.text == whole[|whole| - |capture.text|..]
    && |capture.text| + capture.truncatedChars == |whole|
  }

  lemma {:induction false} AppendHolds(capture: Capture, whole: string, chunk: string, maxChars: nat)
    requires maxChars > 0 && Holds(capture, whole, maxChars)
    ensures Holds(Append(capture, chunk, maxChars), whole + chunk, maxChars)
  {
    var next, all := capture.text + chunk, whole + chunk;
    assert next == all[|all| - |next|..];
    if |next| > maxChars {
      assert next[|next| - maxChars..] == all[|all| - maxChars..];
    }
  }

  /** Any division of the output into chunks leaves the same capture: the newest characters. */
  lemma {:induction false} CaptureIsNewestTail(chunks: seq<string>, maxChars: nat)
    requires maxChars > 0
    ensures Holds(AppendAll(EMPTY_CAPTURE, chunks, maxChars), Flatten(chunks), maxChars)
    decreases |chunks|
  {
    if chunks != [] {
      CaptureIsNewestTail(chunks[..|chunks| - 1], maxChars);
      AppendHolds(AppendAll(EMPTY_CAPTURE, chunks[..|chunks| - 1], maxChars),
                  Flatten(chunks[..|chunks| - 1]), chunks[|chunks| - 1], maxChars);
    }
  }

  lemma {:induction false} ChunkBoundariesDoNotMatter(chunks: seq<string>, others: seq<string>, maxChars: nat)
    requires maxChars > 0 && Flatten(chunks) == Flatten(others)
    ensures AppendAll(EMPTY_CAPTURE, chunks, maxChars) == AppendAll(EMPTY_CAPTURE, others, maxChars)
  {
    CaptureIsNewestTail(chunks, maxChars);
    CaptureIsNewestTail(others, maxChars);
  }

  /** With a zero limit the slice keeps everything, so the exported helper is a tail capture
      exactly for positive limits (or when nothing was written). */
  lemma {:induction false} ZeroLimitKeepsEverything(chunks: seq<string>)
    ensures AppendAll(EMPTY_CAPTURE, chunks, 0).text == Flatten(chunks)
    decreases |chunks|
  {
    if chunks != [] { ZeroLimitKeepsEverything(chunks[..|chunks| - 1]); }
  }

  lemma {:induction false} CaptureExactIffPositiveLimit(chunks: seq<string>, maxChars: nat)
    ensures Holds(AppendAll(EMPTY_CAPTURE, chunks, maxChars), Flatten(chunks), maxChars)
       <==> (maxChars > 0 || forall k :: 0 <= k < |chunks| ==> chunks[k] == "")
  {
    FlattenEmpty(chunks);
    if maxChars > 0 {
      CaptureIsNewestTail(chunks, maxChars);
    } else {
      ZeroLimitKeepsEverything(chunks);
      if Flatten(chunks) == "" { ZeroLimitCountsNothing(chunks); }
    }
  }

  lemma {:induction false} ZeroLimitCountsNothing(chunks: seq<string>)
    requires Flatten(chunks) == ""
    ensures AppendAll(EMPTY_CAPTURE, chunks, 0) == EMPTY_CAPTURE
    decreases |chunks|
  {
    if chunks != [] { ZeroLimitCountsNothing(chunks[..|chunks| - 1]); }
  }

  lemma {:induction false} FlattenEmpty(chunks: seq<string>)
    ensures Flatten(chunks) == "" <==> forall k :: 0 <= k < |chunks| ==> chunks[k] == ""
    decreases |chunks|
  {
    if chunks != [] {
      var front := chunks[..|chunks| - 1];
      FlattenEmpty(front);
      assert forall k :: 0 <= k < |front| ==> front[k] == chunks[k];
    }
  }
}
