// The final summary: the `for` loop that asks for one completion per segment
// and appends each answer, stripped and ended by a newline. The completion
// endpoint is not modelled; `responses[i]` is the text it returned for
// `segments[i]`.

module FinalSummary {
  import opened Text

  /** Builds `final_summary` from one response per segment, in segment order. */
  method Concatenate(segments: seq<string>, responses: seq<string>) returns (finalSummary: string)
    requires |responses| == |segments|
    ensures finalSummary == Lines(responses)
    ensures |finalSummary| >= |segments|
    ensures (forall i :: 0 <= i < |responses| ==> '\n' !in Strip(responses[i])) ==> Newlines(finalSummary) == |segments|
  {
    finalSummary := "";
    for i := 0 to |segments|
      invariant finalSummary == Lines(responses[..i])
    {
      var response := responses[i];
      finalSummary := finalSummary + Strip(response) + "\n";
      assert responses[..i + 1][..i] == responses[..i];
    }
    assert responses[..|segments|] == responses;
    if forall i :: 0 <= i < |responses| ==> '\n' !in Strip(responses[i]) {
      LinesNewlineCount(responses);
    }
  }
}
