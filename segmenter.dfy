// The segmenter: the list comprehension that cuts the accumulated summary into
// fixed-width character windows, `segment_size = token_limit - buffer_tokens`
// characters each, stepping through the text as Python's `range(0, len, step)`
// does.

module Segmenter {

  /** The segments in order, or the `ValueError` Python's `range` raises when
      its step is zero. */
  datatype Segmentation = Segments(parts: seq<string>) | ZeroStepError

  /** Python's `text[start:stop]` for non-negative bounds: a bound past the end
      of the text is cut back to its end. */
  function Slice(text: string, start: nat, stop: nat): (r: string)
    ensures start <= stop <= |text| ==> r == text[start..stop]
    ensures start <= |text| <= stop ==> r == text[start..]
    ensures |text| <= start ==> r == ""
  {
    var hi := if stop <= |text| then stop else |text|;
    var lo := if start <= hi then start else hi;
    text[lo..hi]
  }

  /** `len(range(0, n, step))` for `n >= 0` and a non-zero step. */
  function RangeLength(n: nat, step: int): nat
    requires step != 0
  {
    if step > 0 then (n + step - 1) / step else 0
  }

  /** `[text[i:i+size] for i in range(0, len(text), size)]` for a positive `size`. */
  function Windows(text: string, size: nat): seq<string>
    requires size > 0
  {
    var n := RangeLength(|text|, size);
    seq(n, i requires 0 <= i < n => Slice(text, i * size, i * size + size))
  }

  /** The segments of `summary` for `segment_size = token_limit - buffer_tokens`:
      an error for a zero step, no segment for a negative one (`range` then
      counts down from 0 towards a length that is not below it), and the
      windows otherwise. */
  function Segment(summary: string, tokenLimit: int, bufferTokens: int): (r: Segmentation)
    ensures r.ZeroStepError? <==> tokenLimit == bufferTokens
    ensures tokenLimit < bufferTokens ==> r == Segments([])
  {
    var segmentSize := tokenLimit - bufferTokens;
    if segmentSize == 0 then ZeroStepError
    else if segmentSize < 0 then Segments([])
    else Segments(Windows(summary, segmentSize))
  }

  /** The segments glued back together, in order. */
  function Concat(parts: seq<string>): string
  {
    if parts == [] then "" else Concat(parts[..|parts| - 1]) + parts[|parts| - 1]
  }

  /** `n = ceil(len / size)` windows of `size` characters cover `len`
      characters, and one window fewer does not. */
  lemma CeilDivBounds(len: nat, size: nat)
    requires size > 0
    ensures var n := RangeLength(len, size);
            len <= n * size && (n > 0 ==> (n - 1) * size < len) && (n == 0 <==> len == 0)
  {
  }

  /** Window `i` of `n` starts inside the text; every window but the last
      also ends inside it. */
  lemma WindowBounds(len: nat, size: nat, i: nat)
    requires size > 0 && i < RangeLength(len, size)
    ensures i * size < len
    ensures i + 1 < RangeLength(len, size) ==> (i + 1) * size < len
  {
    var n := RangeLength(len, size);
    CeilDivBounds(len, size);
    MulMonotone(i, n - 1, size);
    if i + 1 < n {
      MulMonotone(i + 1, n - 1, size);
    }
  }

  lemma MulMonotone(a: nat, b: nat, c: nat)
    requires a <= b
    ensures a * c <= b * c
  {
  }

  lemma MulStep(j: nat, size: nat)
    requires j > 0
    ensures (j - 1) * size + size == j * size
  {
  }

  /** Window `i` is the `size` characters from `i * size`, or the rest of the
      text when fewer are left; it is never empty. */
  lemma WindowAt(text: string, size: nat, i: nat) returns (lo: nat, hi: nat)
    requires size > 0 && i < RangeLength(|text|, size)
    ensures |Windows(text, size)| == RangeLength(|text|, size)
    ensures lo == i * size && lo < hi <= |text|
    ensures hi == if lo + size <= |text| then lo + size else |text|
    ensures Windows(text, size)[i] == text[lo..hi]
  {
    WindowBounds(|text|, size, i);
    lo := i * size;
    hi := if lo + size <= |text| then lo + size else |text|;
    assert Windows(text, size)[i] == Slice(text, lo, lo + size);
  }

  /** Gluing the first `j` of some parts is gluing the first `j - 1` and
      then part `j - 1`. */
  lemma ConcatTake(parts: seq<string>, j: nat)
    requires 0 < j <= |parts|
    ensures Concat(parts[..j]) == Concat(parts[..j - 1]) + parts[j - 1]
  {
    assert parts[..j][..j - 1] == parts[..j - 1];
  }

  /** The first `j` windows glued together are the first `j * size`
      characters, as long as those lie inside the text. */
  lemma {:induction false} WindowsPrefix(text: string, size: nat, j: nat)
    requires size > 0
    requires j <= RangeLength(|text|, size) && j * size <= |text|
    ensures Concat(Windows(text, size)[..j]) == text[..j * size]
  {
    var parts := Windows(text, size);
    if j == 0 {
      assert parts[..0] == [];
    } else {
      MulStep(j, size);
      WindowsPrefix(text, size, j - 1);
      var start, end := WindowAt(text, size, j - 1);
      ConcatTake(parts, j);
      assert text[..end] == text[..start] + text[start..end];
    }
  }

  /** Lossless split: the windows glued together in order give back the text. */
  lemma WindowsRebuild(text: string, size: nat)
    requires size > 0
    ensures Concat(Windows(text, size)) == text
  {
    var parts := Windows(text, size);
    var n := RangeLength(|text|, size);
    CeilDivBounds(|text|, size);
    if n == 0 {
      assert parts == [];
    } else {
      WindowsPrefix(text, size, n - 1);
      var start, end := WindowAt(text, size, n - 1);
      MulStep(n, size);
      ConcatTake(parts, n);
      assert parts[..n] == parts;
      assert text == text[..start] + text[start..];
    }
  }

  /** Every window but the last is exactly `size` characters long; the last
      holds between 1 and `size`. */
  lemma WindowLengths(text: string, size: nat, i: nat)
    requires size > 0 && i < |Windows(text, size)|
    ensures i < |Windows(text, size)| - 1 ==> |Windows(text, size)[i]| == size
    ensures 1 <= |Windows(text, size)[i]| <= size
  {
    WindowBounds(|text|, size, i);
    var lo, hi := WindowAt(text, size, i);
    if i < |Windows(text, size)| - 1 {
      MulStep(i + 1, size);
    }
  }

  /** For a positive `segment_size`, cutting the summary loses nothing:
      the segments glued together in order are the summary itself. */
  lemma SegmentRebuildsSummary(summary: string, tokenLimit: int, bufferTokens: int)
    requires tokenLimit > bufferTokens
    ensures Segment(summary, tokenLimit, bufferTokens).Segments?
    ensures Concat(Segment(summary, tokenLimit, bufferTokens).parts) == summary
  {
    WindowsRebuild(summary, tokenLimit - bufferTokens);
  }

  /** For a positive `segment_size`, the segments are `ceil(len / segment_size)`
      in number (none for an empty summary), all of them `segment_size`
      characters long except the last, which holds between 1 and
      `segment_size`. */
  lemma SegmentShape(summary: string, tokenLimit: int, bufferTokens: int)
    requires tokenLimit > bufferTokens
    ensures var size := tokenLimit - bufferTokens;
            var parts := Segment(summary, tokenLimit, bufferTokens).parts;
            && (parts == [] <==> summary == "")
            && (parts != [] ==> (|parts| - 1) * size < |summary| <= |parts| * size)
            && (forall i :: 0 <= i < |parts| - 1 ==> |parts[i]| == size)
            && (parts != [] ==> 1 <= |parts[|parts| - 1]| <= size)
  {
    var size := tokenLimit - bufferTokens;
    var parts := Windows(summary, size);
    CeilDivBounds(|summary|, size);
    forall i | 0 <= i < |parts|
      ensures i < |parts| - 1 ==> |parts[i]| == size
      ensures 1 <= |parts[i]| <= size
    {
      WindowLengths(summary, size, i);
    }
  }

  /** A 250-character summary cut into 100-character segments gives three
      segments of 100, 100 and 50 characters. */
  lemma TwoHundredFiftyCharacterExample(summary: string)
    requires |summary| == 250
    ensures var parts := Segment(summary, 110, 10).parts;
            |parts| == 3 && |parts[0]| == 100 && |parts[1]| == 100 && |parts[2]| == 50
  {
  }
}
