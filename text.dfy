// Python's `str.strip()` (no argument) and the "strip, then end with a
// newline" fold that builds both the page summary and the final summary.

module Text {

  /** A whitespace character in Python's sense (`str.isspace`): exactly the
      characters `str.strip()` with no argument removes. */
  predicate IsSpace(c: char)
  {
    || ('\t' <= c <= '\r')
    || ('\U{1C}' <= c <= '\U{1F}')
    || c == ' '
    || c == '\U{85}'
    || c == '\U{A0}'
    || c == '\U{1680}'
    || ('\U{2000}' <= c <= '\U{200A}')
    || c == '\U{2028}'
    || c == '\U{2029}'
    || c == '\U{202F}'
    || c == '\U{205F}'
    || c == '\U{3000}'
  }

  predicate AllSpace(s: string)
  {
    forall i :: 0 <= i < |s| ==> IsSpace(s[i])
  }

  /** `s.lstrip()`: `s` without its leading whitespace. */
  function StripLeft(s: string): string
  {
    if s != [] && IsSpace(s[0]) then StripLeft(s[1..]) else s
  }

  /** `s.rstrip()`: `s` without its trailing whitespace. */
  function StripRight(s: string): string
  {
    if s != [] && IsSpace(s[|s| - 1]) then StripRight(s[..|s| - 1]) else s
  }

  /** `s.strip()`: `s` without its leading and its trailing whitespace. */
  function Strip(s: string): string
  {
    StripRight(StripLeft(s))
  }

  /** `StripLeft` removes a run of whitespace from the front, and all of it. */
  lemma {:induction false} StripLeftRemovesLeadingSpace(s: string)
    ensures |StripLeft(s)| <= |s|
    ensures StripLeft(s) == s[|s| - |StripLeft(s)|..]
    ensures AllSpace(s[..|s| - |StripLeft(s)|])
    ensures StripLeft(s) == [] || !IsSpace(StripLeft(s)[0])
    decreases |s|
  {
    if s != [] && IsSpace(s[0]) {
      var t := s[1..];
      var r := StripLeft(t);
      assert StripLeft(s) == r;
      StripLeftRemovesLeadingSpace(t);
      var k := |s| - |r|;
      assert r == s[k..] by {
        assert t[|t| - |r|..] == s[k..];
      }
      forall i | 0 <= i < k
        ensures IsSpace(s[..k][i])
      {
        if i > 0 {
          assert s[..k][i] == t[..|t| - |r|][i - 1];
        }
      }
    }
  }

  /** `StripRight` removes a run of whitespace from the back, and all of it. */
  lemma {:induction false} StripRightRemovesTrailingSpace(s: string)
    ensures |StripRight(s)| <= |s|
    ensures StripRight(s) == s[..|StripRight(s)|]
    ensures AllSpace(s[|StripRight(s)|..])
    ensures StripRight(s) == [] || !IsSpace(StripRight(s)[|StripRight(s)| - 1])
    decreases |s|
  {
    if s != [] && IsSpace(s[|s| - 1]) {
      var r := StripRight(s[..|s| - 1]);
      StripRightRemovesTrailingSpace(s[..|s| - 1]);
      assert s[|r|..] == s[..|s| - 1][|r|..] + [s[|s| - 1]];
    }
  }

  /** What stripping removes is whitespace on either side: `s` is some
      whitespace, then `Strip(s)`, then some whitespace. */
  lemma StripSplits(s: string) returns (i: nat)
    ensures i + |Strip(s)| <= |s|
    ensures s == s[..i] + Strip(s) + s[i + |Strip(s)|..]
    ensures AllSpace(s[..i]) && AllSpace(s[i + |Strip(s)|..])
    ensures Strip(s) == [] || (!IsSpace(Strip(s)[0]) && !IsSpace(Strip(s)[|Strip(s)| - 1]))
  {
    var t := StripLeft(s);
    var r := StripRight(t);
    StripLeftRemovesLeadingSpace(s);
    StripRightRemovesTrailingSpace(t);
    if r != [] {
      assert r[0] == t[0];
    }
    i := |s| - |t|;
    assert s[i..] == t;
    assert s[i + |r|..] == t[|r|..];
    assert s == s[..i] + r + s[i + |r|..];
  }

  /** Stripping removes everything exactly when the text is all whitespace. */
  lemma {:induction false} StripEmptyIffAllSpace(s: string)
    ensures Strip(s) == [] <==> AllSpace(s)
  {
    var r := Strip(s);
    var i := StripSplits(s);
    if r == [] {
      assert s == s[..i] + s[i..];
    } else {
      assert s[i] == r[0];
    }
  }

  /** The text obtained by appending, in order, each part with its surrounding
      whitespace removed and a newline after it. Both `summary` (one part per
      page) and `final_summary` (one part per completion) are built this way. */
  function Lines(parts: seq<string>): (r: string)
    ensures |r| >= |parts|
  {
    if parts == [] then "" else Lines(parts[..|parts| - 1]) + Strip(parts[|parts| - 1]) + "\n"
  }

  /** The fold is order-preserving: the lines of two runs of parts are the
      lines of the first run followed by those of the second. */
  lemma {:induction false} LinesAppend(a: seq<string>, b: seq<string>)
    ensures Lines(a + b) == Lines(a) + Lines(b)
    decreases |b|
  {
    if b == [] {
      assert a + b == a;
    } else {
      var b' := b[..|b| - 1];
      var last := Strip(b[|b| - 1]) + "\n";
      assert (a + b)[..|a + b| - 1] == a + b';
      assert (a + b)[|a + b| - 1] == b[|b| - 1];
      LinesAppend(a, b');
    }
  }

  /** Part `i` appears, stripped and followed by its newline, right after the
      lines of the parts before it. */
  lemma LinesPart(parts: seq<string>, i: nat)
    requires i < |parts|
    ensures var off := |Lines(parts[..i])|;
            var piece := Strip(parts[i]) + "\n";
            off + |piece| <= |Lines(parts)| && Lines(parts)[off..off + |piece|] == piece
  {
    var piece := Strip(parts[i]) + "\n";
    assert parts == parts[..i] + ([parts[i]] + parts[i + 1..]);
    LinesAppend(parts[..i], [parts[i]] + parts[i + 1..]);
    LinesAppend([parts[i]], parts[i + 1..]);
    assert [parts[i]][..0] == [];
    assert Lines([parts[i]]) == piece;
  }

  /** Number of newline characters in `s`. */
  function Newlines(s: string): nat
  {
    if s == [] then 0 else Newlines(s[..|s| - 1]) + (if s[|s| - 1] == '\n' then 1 else 0)
  }

  lemma {:induction false} NewlinesAppend(a: string, b: string)
    ensures Newlines(a + b) == Newlines(a) + Newlines(b)
    decreases |b|
  {
    if b == [] {
      assert a + b == a;
    } else {
      assert (a + b)[..|a + b| - 1] == a + b[..|b| - 1];
      NewlinesAppend(a, b[..|b| - 1]);
    }
  }

  lemma {:induction false} NewlinesNone(s: string)
    requires '\n' !in s
    ensures Newlines(s) == 0
    decreases |s|
  {
    if s != [] {
      assert s[|s| - 1] in s;
      assert forall c :: c in s[..|s| - 1] ==> c in s;
      NewlinesNone(s[..|s| - 1]);
    }
  }

  /** When no stripped part holds a newline of its own, the text has exactly
      one newline-terminated line per part. */
  lemma {:induction false} LinesNewlineCount(parts: seq<string>)
    requires forall i :: 0 <= i < |parts| ==> '\n' !in Strip(parts[i])
    ensures Newlines(Lines(parts)) == |parts|
    decreases |parts|
  {
    if parts != [] {
      var init := parts[..|parts| - 1];
      var last := Strip(parts[|parts| - 1]);
      LinesNewlineCount(init);
      NewlinesAppend(Lines(init) + last, "\n");
      NewlinesAppend(Lines(init), last);
      NewlinesNone(last);
      assert Newlines("\n") == 1 by {
        assert "\n"[..0] == "";
      }
    }
  }
}
