// The output file name: `os.path.splitext(os.path.basename(filename))[0]
// + '_summary.docx'`, joined onto the output directory with `os.path.join`.
// Paths follow POSIX rules: '/' separates directories and '.' starts an
// extension.

module OutputName {

  /** `p.rfind(c)`: the index of the last `c` in `p`, or -1 when there is none. */
  function LastIndexOf(p: string, c: char): (r: int)
    ensures -1 <= r < |p|
    ensures r >= 0 ==> p[r] == c
    ensures forall i :: r < i < |p| ==> p[i] != c
  {
    if p == [] then -1
    else if p[|p| - 1] == c then |p| - 1
    else LastIndexOf(p[..|p| - 1], c)
  }

  /** `os.path.basename(p)`: what follows the last '/'. */
  function Basename(p: string): (r: string)
    ensures '/' !in r
    ensures |r| <= |p| && p[|p| - |r|..] == r
    ensures |r| < |p| ==> p[|p| - |r| - 1] == '/'
  {
    p[LastIndexOf(p, '/') + 1..]
  }

  predicate AllDots(s: string)
  {
    forall i :: 0 <= i < |s| ==> s[i] == '.'
  }

  /** `os.path.splitext(p)`: `p` cut before its last '.', provided that dot
      comes after the last '/' and something other than dots comes before it
      in the last path component; otherwise the whole of `p` and an empty
      extension. */
  function SplitExt(p: string): (r: (string, string))
    ensures r.0 + r.1 == p
  {
    var sepIndex := LastIndexOf(p, '/');
    var dotIndex := LastIndexOf(p, '.');
    if dotIndex > sepIndex && !AllDots(p[sepIndex + 1..dotIndex]) then
      (p[..dotIndex], p[dotIndex..])
    else
      (p, "")
  }

  /** The extension `SplitExt` cuts off is empty or a single '.' followed by
      characters that are neither '.' nor '/'. */
  lemma SplitExtExtension(p: string)
    ensures var ext := SplitExt(p).1;
            && (ext == "" || ext[0] == '.')
            && (forall i :: 0 < i < |ext| ==> ext[i] != '.')
            && (forall i :: 0 <= i < |ext| ==> ext[i] != '/')
  {
  }

  /** The last path component of `p` holds a '.' with something other than
      a '.' somewhere before it. */
  predicate DotAfterStem(p: string)
  {
    exists j, d :: LastIndexOf(p, '/') < j < d < |p| && p[j] != '.' && p[d] == '.'
  }

  /** A stretch `p[lo + 1..hi]` that is not all dots has a non-dot in it. */
  lemma NotAllDotsAt(p: string, lo: int, hi: int) returns (j: int)
    requires -1 <= lo < hi <= |p| && !AllDots(p[lo + 1..hi])
    ensures lo < j < hi && p[j] != '.'
  {
    var k :| 0 <= k < hi - lo - 1 && p[lo + 1..hi][k] != '.';
    j := lo + 1 + k;
  }

  lemma SplitExtCutWitness(p: string)
    requires SplitExt(p).1 != ""
    ensures DotAfterStem(p)
  {
    var sepIndex := LastIndexOf(p, '/');
    var dotIndex := LastIndexOf(p, '.');
    var j := NotAllDotsAt(p, sepIndex, dotIndex);
    assert sepIndex < j < dotIndex < |p| && p[j] != '.' && p[dotIndex] == '.';
  }

  lemma SplitExtCutWhenStem(p: string)
    requires DotAfterStem(p)
    ensures SplitExt(p).1 != ""
  {
    var sepIndex := LastIndexOf(p, '/');
    var dotIndex := LastIndexOf(p, '.');
    var j, d :| sepIndex < j < d < |p| && p[j] != '.' && p[d] == '.';
    assert dotIndex >= d;
    var stem := p[sepIndex + 1..dotIndex];
    assert stem[j - sepIndex - 1] == p[j];
  }

  /** An extension is cut off exactly when the last path component holds a
      '.' with something other than a '.' before it; the root is then
      everything before the last '.'. */
  lemma SplitExtCutsExtension(p: string)
    ensures SplitExt(p).1 != "" <==> DotAfterStem(p)
    ensures SplitExt(p).1 != "" ==> SplitExt(p).0 == p[..LastIndexOf(p, '.')]
  {
    if SplitExt(p).1 != "" {
      SplitExtCutWitness(p);
    }
    if DotAfterStem(p) {
      SplitExtCutWhenStem(p);
    }
  }

  /** `os.path.join(a, b)` with two arguments: an absolute `b` replaces `a`;
      otherwise `b` is appended, after a '/' unless `a` is empty or already
      ends in one. */
  function Join(a: string, b: string): string
  {
    if |b| > 0 && b[0] == '/' then b
    else if a == "" || a[|a| - 1] == '/' then a + b
    else a + "/" + b
  }

  /** The name under which the summary of the PDF at `filename` is saved. */
  function OutputFilename(filename: string, outputPath: string): string
  {
    Join(outputPath, SplitExt(Basename(filename)).0 + "_summary.docx")
  }

  /** A `c` at index `k` with no `c` after it is the last one. */
  lemma LastIndexOfAt(p: string, c: char, k: nat)
    requires k < |p| && p[k] == c
    requires forall i :: k < i < |p| ==> p[i] != c
    ensures LastIndexOf(p, c) == k
  {
  }

  lemma LastIndexOfAbsent(p: string, c: char)
    requires c !in p
    ensures LastIndexOf(p, c) == -1
  {
  }

  /** Joining a name that holds no '/' places it directly inside the
      directory: the result is the directory followed by the name, with at
      most one '/' between them, and the name is its last path component
      (so the '/' is there whenever the directory is non-empty and does not
      already end in one). */
  lemma JoinPlacesInDirectory(dir: string, name: string)
    requires '/' !in name
    ensures Join(dir, name) == dir + name || Join(dir, name) == dir + "/" + name
    ensures (dir == "" || dir[|dir| - 1] == '/') ==> Join(dir, name) == dir + name
    ensures Basename(Join(dir, name)) == name
  {
    var r := Join(dir, name);
    assert |name| > 0 ==> name[0] in name;
    if dir == "" {
      assert r == name;
      LastIndexOfAbsent(name, '/');
    } else {
      var k := if dir[|dir| - 1] == '/' then |dir| - 1 else |dir|;
      assert r == r[..k + 1] + name;
      assert r[k] == '/';
      forall i | k < i < |r|
        ensures r[i] != '/'
      {
        assert r[i] == name[i - k - 1];
        assert name[i - k - 1] in name;
      }
      LastIndexOfAt(r, '/', k);
    }
  }

  /** The name derived from a path holds no '/'. */
  lemma SummaryNameHasNoSlash(filename: string)
    ensures '/' !in SplitExt(Basename(filename)).0 + "_summary.docx"
  {
  }

  /** The summary is saved in the output directory, under the PDF's name
      stripped of its extension and followed by "_summary.docx". */
  lemma OutputInOutputDirectory(filename: string, outputPath: string)
    ensures var r := OutputFilename(filename, outputPath);
            var name := SplitExt(Basename(filename)).0 + "_summary.docx";
            && (r == outputPath + name || r == outputPath + "/" + name)
            && ((outputPath == "" || outputPath[|outputPath| - 1] == '/') ==> r == outputPath + name)
            && Basename(r) == SplitExt(Basename(filename)).0 + "_summary.docx"
  {
    SummaryNameHasNoSlash(filename);
    JoinPlacesInDirectory(outputPath, SplitExt(Basename(filename)).0 + "_summary.docx");
  }

  /** For a file `stem.pdf` in any directory, where the stem holds no '/' and
      is not made of dots only, the summary is saved as `stem_summary.docx`
      in the output directory. */
  lemma PdfOutputFilename(dir: string, stem: string, outputPath: string)
    requires '/' !in stem
    requires !AllDots(stem)
    ensures OutputFilename(dir + "/" + stem + ".pdf", outputPath) == Join(outputPath, stem + "_summary.docx")
  {
    var filename := dir + "/" + stem + ".pdf";
    var base := stem + ".pdf";
    forall i | |dir| < i < |filename|
      ensures filename[i] != '/'
    {
      if i <= |dir| + |stem| {
        assert filename[i] == stem[i - |dir| - 1];
        assert stem[i - |dir| - 1] in stem;
      }
    }
    LastIndexOfAt(filename, '/', |dir|);
    assert Basename(filename) == base;
    LastIndexOfAbsent(base, '/');
    LastIndexOfAt(base, '.', |stem|);
    assert base[0..|stem|] == stem;
    assert base[..|stem|] == stem;
  }
}
