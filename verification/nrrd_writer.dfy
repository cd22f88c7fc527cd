/**
 The header text the DICOM-to-NRRD converter writes next to its raw file:
 a fixed eight-line template filled in with the array's three extents and
 the raw file's base name. Reading DICOM, rescaling and writing files are
 not modelled.

 FixedLinesArePieces, KeyLinesArePieces, CommentLineIsPiece, CommentChunks
 and CommentChunksAreFree each state a fact about the template's string
 literals. They are proof plumbing, kept apart so that the solver checks the
 literals once and the proofs about the template stay over abstract text.
 */
module NrrdWriter {
  import opened Text
  import opened Decimal
  import opened NrrdHeader

  /** The final component of a POSIX path: everything after its last '/'. */
  function Basename(path: string): (r: string)
    ensures |r| <= |path| && r == path[|path| - |r|..]
    ensures '/' !in r
    ensures |r| < |path| ==> path[|path| - |r| - 1] == '/'
  {
    if |path| == 0 || path[|path| - 1] == '/' then ""
    else
      var front := Basename(path[..|path| - 1]);
      assert path[..|path| - 1][|path| - 1 - |front|..] == path[|path| - 1 - |front|..|path| - 1];
      front + [path[|path| - 1]]
  }

  /**
   The value written after `sizes:`: the extents in the order nx ny nz. Its
   whitespace tokens are the three decimal texts in that order, and it holds
   no line break and no blank at either end.
   */
  function SizesText(nx: nat, ny: nat, nz: nat): (r: string)
    ensures Split(r, IsSpace) == [ToDecimal(nx), ToDecimal(ny), ToDecimal(nz)]
    ensures IsTrimmed(r)
    ensures Free(r, IsLineBreak)
  {
    var dx, dy, dz := ToDecimal(nx), ToDecimal(ny), ToDecimal(nz);
    DecimalHasNoBreak(nx);
    DecimalHasNoBreak(ny);
    DecimalHasNoBreak(nz);
    SplitThree(dx, dy, dz);
    TrimmedThree(dx, dy, dz);
    FreeConcat(dx, " ", IsLineBreak);
    FreeConcat(dx + " ", dy, IsLineBreak);
    FreeConcat(dx + " " + dy, " ", IsLineBreak);
    FreeConcat(dx + " " + dy + " ", dz, IsLineBreak);
    dx + " " + dy + " " + dz
  }

  /** Three blank-free tokens joined by single spaces split back into those tokens. */
  lemma SplitThree(a: string, b: string, c: string)
    requires IsPiece(a, IsSpace) && IsPiece(b, IsSpace) && IsPiece(c, IsSpace)
    ensures Split(a + " " + b + " " + c, IsSpace) == [a, b, c]
  {
    assert a + " " + b + " " + c == a + " " + (b + " " + c);
    SplitSpaced(a, b + " " + c);
    SplitSpaced(b, c);
    SplitPiece(c, "", IsSpace);
    assert c + "" == c;
  }

  /** A token followed by a space splits off as the first piece. */
  lemma SplitSpaced(t: string, rest: string)
    requires IsPiece(t, IsSpace)
    ensures Split(t + " " + rest, IsSpace) == [t] + Split(rest, IsSpace)
  {
    assert t + " " + rest == t + ([' '] + rest);
    SplitPiece(t, [' '] + rest, IsSpace);
    SplitSeparator(' ', rest, IsSpace);
  }

  /** Three tokens joined by spaces have no blank at either end when the outer tokens do not. */
  lemma TrimmedThree(a: string, b: string, c: string)
    requires IsPiece(a, IsSpace) && IsPiece(c, IsSpace)
    ensures IsTrimmed(a + " " + b + " " + c)
  {
    var s := a + " " + b + " " + c;
    assert s[0] == a[0];
    assert s[|s| - 1] == c[|c| - 1];
  }


  /**
   The eight header lines, given the text written after `sizes:` and after
   `data file:`. The first line always passes the parser's magic check.
   */
  function HeaderTemplate(sizes: string, dataFile: string): (lines: seq<string>)
    ensures |lines| == 8
    ensures HasMagic(lines)
  {
    [
      "NRRD0005",
      "# VoluMatrix intensity volume (simple, no orientation)",
      "type: short",
      "dimension: 3",
      "sizes: " + sizes,
      "encoding: raw",
      "endian: little",
      "data file: " + dataFile
    ]
  }

  /**
   The header lines for an int16 array of shape (nz, ny, nx) whose raw data
   went to rawPath: the extents in the order nx ny nz and the raw file's base name.
   */
  function HeaderLines(shape: (nat, nat, nat), rawPath: string): (lines: seq<string>)
    ensures |lines| == 8
    ensures HasMagic(lines)
  {
    var (nz, ny, nx) := shape;
    HeaderTemplate(SizesText(nx, ny, nz), Basename(rawPath))
  }

  /** The file text: the lines joined by "\n", with a final "\n". */
  function HeaderText(shape: (nat, nat, nat), rawPath: string): (text: string)
    ensures |text| > 0 && text[|text| - 1] == '\n'
    ensures Free(Basename(rawPath), IsLineBreak) ==>
              Split(text, IsLineBreak) == HeaderLines(shape, rawPath)
  {
    var (nz, ny, nx) := shape;
    var text := Join(HeaderLines(shape, rawPath), "\n") + "\n";
    assert Free(Basename(rawPath), IsLineBreak) ==> Split(text, IsLineBreak) == HeaderLines(shape, rawPath) by {
      if Free(Basename(rawPath), IsLineBreak) {
        TemplateTextSplits(SizesText(nx, ny, nz), Basename(rawPath));
      }
    }
    text
  }

  /** Joined and terminated by "\n", the template splits back into its lines. */
  lemma TemplateTextSplits(sizes: string, dataFile: string)
    requires Free(sizes, IsLineBreak) && Free(dataFile, IsLineBreak)
    ensures var lines := HeaderTemplate(sizes, dataFile);
            Split(Join(lines, "\n") + "\n", IsLineBreak) == lines
  {
    var lines := HeaderTemplate(sizes, dataFile);
    TemplateLinesArePieces(sizes, dataFile);
    SplitJoin(lines, '\n', "\n", IsLineBreak);
    assert Split("\n", IsLineBreak) == [];
    assert lines + [] == lines;
  }

  /** Every template line is non-empty and free of line breaks when the filled-in texts are. */
  lemma TemplateLinesArePieces(sizes: string, dataFile: string)
    requires Free(sizes, IsLineBreak) && Free(dataFile, IsLineBreak)
    ensures forall k :: 0 <= k < 8 ==> IsPiece(HeaderTemplate(sizes, dataFile)[k], IsLineBreak)
  {
    FixedLinesArePieces();
    FreeConcat("sizes: ", sizes, IsLineBreak);
    FreeConcat("data file: ", dataFile, IsLineBreak);
  }

  lemma FixedLinesArePieces()
    ensures IsPiece("NRRD0005", IsLineBreak)
    ensures IsPiece("# VoluMatrix intensity volume (simple, no orientation)", IsLineBreak)
    ensures IsPiece("type: short", IsLineBreak)
    ensures IsPiece("dimension: 3", IsLineBreak)
    ensures IsPiece("encoding: raw", IsLineBreak)
    ensures IsPiece("endian: little", IsLineBreak)
    ensures Free("sizes: ", IsLineBreak) && Free("data file: ", IsLineBreak) && Free(" ", IsLineBreak)
  {
    CommentLineIsPiece();
    KeyLinesArePieces();
  }

  lemma KeyLinesArePieces()
    ensures IsPiece("NRRD0005", IsLineBreak)
    ensures IsPiece("type: short", IsLineBreak)
    ensures IsPiece("dimension: 3", IsLineBreak)
    ensures IsPiece("encoding: raw", IsLineBreak)
    ensures IsPiece("endian: little", IsLineBreak)
    ensures Free("sizes: ", IsLineBreak) && Free("data file: ", IsLineBreak) && Free(" ", IsLineBreak)
  {
  }

  lemma CommentLineIsPiece()
    ensures IsPiece("# VoluMatrix intensity volume (simple, no orientation)", IsLineBreak)
  {
    CommentChunksAreFree();
    CommentChunks();
    FreeConcat("# VoluMatrix ", "intensity volume ", IsLineBreak);
    FreeConcat("# VoluMatrix " + "intensity volume ", "(simple, no orientation)", IsLineBreak);
  }

  lemma CommentChunks()
    ensures "# VoluMatrix " + "intensity volume " + "(simple, no orientation)"
            == "# VoluMatrix intensity volume (simple, no orientation)"
  {
    assert "# VoluMatrix " + "intensity volume " == "# VoluMatrix intensity volume ";
  }

  lemma CommentChunksAreFree()
    ensures Free("# VoluMatrix ", IsLineBreak)
    ensures Free("intensity volume ", IsLineBreak)
    ensures Free("(simple, no orientation)", IsLineBreak)
  {
  }

  lemma DecimalHasNoBreak(n: nat)
    ensures Free(ToDecimal(n), IsLineBreak) && Free(ToDecimal(n), IsSpace)
  {
    var s := ToDecimal(n);
    assert forall i :: 0 <= i < |s| ==> IsDigit(s[i]);
  }

  /** The raw file's base name always ends in ".raw", so it is never empty. */
  lemma RawBasenameNonEmpty(outBase: string)
    ensures |Basename(outBase + ".raw")| >= 4
    ensures Basename(outBase + ".raw")[|Basename(outBase + ".raw")| - 4..] == ".raw"
  {
    var p := outBase + ".raw";
    var b := Basename(p);
    assert p[|p| - 1] != '/' && p[|p| - 2] != '/' && p[|p| - 3] != '/' && p[|p| - 4] != '/';
    assert |b| >= 4;
    assert b[|b| - 4..] == p[|p| - 4..];
  }
}
