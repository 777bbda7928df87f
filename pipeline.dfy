// How the accumulator and the segmenter fit together for one PDF: the text
// handed to the completion requests is exactly the text the accumulator
// packed, whatever the configured limit and headroom.

module Pipeline {
  import opened Text
  import opened PageAccumulator
  import opened Segmenter

  /** Unless `token_limit == buffer_tokens` (where `range` raises), the
      segments of the accumulated summary glue back to that summary. A
      negative `segment_size` gives no segment, but then no page was taken
      and the summary is empty, so nothing is lost either. */
  lemma SegmentsCarryWholeSummary(pages: seq<string>, count: string -> nat, tokenLimit: int, bufferTokens: int, n: nat)
    requires StopsAt(pages, count, tokenLimit, bufferTokens, n)
    requires tokenLimit != bufferTokens
    ensures Segment(Lines(pages[..n]), tokenLimit, bufferTokens).Segments?
    ensures Concat(Segment(Lines(pages[..n]), tokenLimit, bufferTokens).parts) == Lines(pages[..n])
  {
    if tokenLimit > bufferTokens {
      SegmentRebuildsSummary(Lines(pages[..n]), tokenLimit, bufferTokens);
    } else {
      NoPageWhenHeadroomExceedsLimit(pages, count, tokenLimit, bufferTokens, n);
    }
  }
}
