/** The name of the PDF copy written beside the PNG (main.py:227):
    `output.rsplit('.', 1)[0] + ".pdf"`. */
module OutputPath {
  import opened Outcomes

  /** The position of the last `ch` in `s`, if there is one. */
  function LastIndex(s: string, ch: char): (r: Option<nat>)
    ensures r.Some? ==> r.value < |s| && s[r.value] == ch && ch !in s[r.value + 1..]
    ensures r.None? <==> ch !in s
  {
    if s == [] then None
    else if s[|s| - 1] == ch then Some(|s| - 1)
    else
      var r := LastIndex(s[..|s| - 1], ch);
      assert s == s[..|s| - 1] + [s[|s| - 1]];
      r
  }

  /** A position holding `ch` with no `ch` after it is the last one. */
  lemma LastIndexUnique(s: string, ch: char, j: nat)
    requires j < |s| && s[j] == ch && ch !in s[j + 1..]
    ensures LastIndex(s, ch) == Some(j)
  {
    var r := LastIndex(s, ch);
    assert r.Some? by { assert s[j] in s; }
  }

  /** `path.rsplit('.', 1)[0]`: everything before the last '.', or the whole
      path when it has none. */
  function StemBeforeLastDot(path: string): string {
    match LastIndex(path, '.')
    case None => path
    case Some(i) => path[..i]
  }

  /** The PDF name as main.py:227 computes it. The stem is a prefix of the
      output path that is either all of it (no '.' in it) or ends just before
      its last '.'. */
  function PdfPath(output: string): (p: string)
    ensures |p| >= 4 && p[|p| - 4..] == ".pdf"
    ensures var stem := p[..|p| - 4];
      stem <= output
      && (('.' !in output && stem == output)
          || (|stem| < |output| && output[|stem|] == '.' && '.' !in output[|stem| + 1..]))
  {
    var stem := StemBeforeLastDot(output);
    var p := stem + ".pdf";
    assert p[..|p| - 4] == stem;
    p
  }

  /** The two conditions in PdfPath's contract pick out one stem only. */
  lemma PdfStemUnique(output: string, stem: string)
    requires stem <= output
    requires ('.' !in output && stem == output)
      || (|stem| < |output| && output[|stem|] == '.' && '.' !in output[|stem| + 1..])
    ensures PdfPath(output) == stem + ".pdf"
  {
    if '.' in output {
      LastIndexUnique(output, '.', |stem|);
      assert output[..|stem|] == stem;
    }
  }

  /** The directory part of a path: everything up to and including the last
      '/', or nothing. */
  function Directory(path: string): (d: string)
    ensures d <= path && '/' !in path[|d|..]
    ensures d == [] || d[|d| - 1] == '/'
  {
    match LastIndex(path, '/')
    case None => []
    case Some(i) => path[..i + 1]
  }

  /** The file-name part of a path: what follows its directory part. */
  function FileName(path: string): (n: string)
    ensures '/' !in n
    ensures Directory(path) + n == path
  {
    var d := Directory(path);
    assert d + path[|d|..] == path;
    path[|d|..]
  }

  /** When the last '.' of the path lies in a directory name, main.py:227
      cuts the path there: `--output out.d/qr` writes the PDF as `out.pdf`,
      outside the directory the PNG went to. */
  lemma PdfPathLeavesDirectory()
    ensures PdfPath("out.d/qr") == "out.pdf"
    ensures Directory("out.d/qr") == "out.d/"
    ensures Directory(PdfPath("out.d/qr")) == []
  {
    LastIndexUnique("out.d/qr", '.', 3);
    LastIndexUnique("out.d/qr", '/', 5);
    assert '/' !in "out.pdf";
  }

  /** A file name with its extension (from its last '.', when that is not
      its first character) replaced by ".pdf", or with ".pdf" appended when it
      has none. */
  function PdfFileName(name: string): (n: string)
    ensures |n| >= 4 && n[|n| - 4..] == ".pdf"
    ensures '/' !in name ==> '/' !in n
  {
    match LastIndex(name, '.')
    case Some(i) =>
      if i > 0 then
        assert forall k :: 0 <= k < i ==> name[..i][k] == name[k];
        name[..i] + ".pdf"
      else name + ".pdf"
    case None => name + ".pdf"
  }

  /** The PDF name the script evidently means: the PNG's file name with its
      extension replaced, in the PNG's directory. */
  function IntendedPdfPath(output: string): (p: string)
    ensures |p| >= 4 && p[|p| - 4..] == ".pdf"
  {
    Directory(output) + PdfFileName(FileName(output))
  }

  /** Appending text without '/' keeps the directory part. */
  lemma DirectoryAppend(dir: string, rest: string)
    requires dir == [] || dir[|dir| - 1] == '/'
    requires '/' !in rest
    ensures Directory(dir + rest) == dir
  {
    var s := dir + rest;
    if dir == [] {
      assert s == rest;
    } else {
      assert s[|dir|..] == rest;
      LastIndexUnique(s, '/', |dir| - 1);
      assert s[..|dir|] == dir;
    }
  }

  /** The corrected name stays in the PNG's directory. */
  lemma IntendedKeepsDirectory(output: string)
    ensures Directory(IntendedPdfPath(output)) == Directory(output)
  {
    DirectoryAppend(Directory(output), PdfFileName(FileName(output)));
  }

  /** Where the file name itself has an extension, the script's name and the
      corrected one agree: the two differ only on paths whose last '.' is in a
      directory name or starts the file name. */
  lemma IntendedAgreesOnExtension(output: string, i: nat)
    requires LastIndex(FileName(output), '.') == Some(i) && i > 0
    ensures IntendedPdfPath(output) == PdfPath(output)
  {
    var dir := Directory(output);
    var name := FileName(output);
    StemInFileName(dir, name, i);
    assert output == dir + name;
  }

  /** A '.' in the file name is where `rsplit('.', 1)` cuts the whole path. */
  lemma StemInFileName(dir: string, name: string, i: nat)
    requires LastIndex(name, '.') == Some(i)
    ensures StemBeforeLastDot(dir + name) == dir + name[..i]
  {
    LastIndexAppend(dir, name, '.', i);
    assert (dir + name)[..|dir| + i] == dir + name[..i];
  }

  /** The last `ch` of `b` is also the last of `a + b`. */
  lemma LastIndexAppend(a: string, b: string, ch: char, i: nat)
    requires LastIndex(b, ch) == Some(i)
    ensures LastIndex(a + b, ch) == Some(|a| + i)
  {
    var s := a + b;
    assert s[|a| + i] == b[i];
    assert s[|a| + i + 1..] == b[i + 1..];
    LastIndexUnique(s, ch, |a| + i);
  }
}
