/**
 What the volume manager's parser makes of the converter's header. The
 converter writes `sizes: nx ny nz` for an array of shape (nz, ny, nx), and
 the parser takes the first token as Z, so the parsed header carries
 SizeX = nz, SizeY = ny, SizeZ = nx: its sizes are the array shape in order.
 The product, and with it the expected payload length, is the same either
 way, so the raw file the converter writes is loaded unchanged.

 The one-fact lemmas about string literals here (PlainKeys,
 FixedValuesTrimmed, FixedLinesSplit, DimensionIgnored, TemplateLines,
 TemplateLastLine) are proof plumbing, not properties of the program: the
 larger proofs are stated over abstract lines, so that the solver never
 unfolds the parser's recursive functions on literal text, and these lemmas
 hand them the few facts about the literals they need.
 */
module ConverterRoundTrip {
  import opened Results
  import opened Text
  import opened Decimal
  import opened NrrdHeader
  import opened HeaderLaws
  import opened NrrdWriter
  import opened VolumeTexture

  // ---------------------------------------------------------------------------
  // Single lines
  // ---------------------------------------------------------------------------

  /** A key without `:` or leading `#`, and without blanks at either end. */
  predicate IsPlainKey(key: string) {
    |key| > 0 && ':' !in key && key[0] != '#' && IsTrimmed(key)
  }

  /** The first `:` of a line lies right after a key that holds none. */
  lemma {:induction false} FirstColonAfterKey(key: string, rest: string)
    requires ':' !in key
    ensures FindFirst(key + [':'] + rest, ':') == Some(|key|)
  {
    var line := key + [':'] + rest;
    if |key| == 0 {
      assert line[0] == ':';
    } else {
      assert line[0] == key[0];
      assert line[1..] == key[1..] + [':'] + rest;
      assert ':' !in key[1..] by {
        assert forall j :: 0 <= j < |key[1..]| ==> key[1..][j] == key[j + 1];
      }
      FirstColonAfterKey(key[1..], rest);
    }
  }

  /** A line written as `key: value` is read back as exactly that key and value. */
  lemma ClassifyWrittenField(key: string, value: string)
    requires IsPlainKey(key)
    requires IsTrimmed(value)
    ensures ClassifyLine(key + ": " + value) == Field(key, value)
  {
    var line := key + ": " + value;
    assert line == key + [':'] + (" " + value);
    FirstColonAfterKey(key, " " + value);
    assert line[|key|] == ':';
    assert line[0] == key[0];
    assert !StartsWith(line, "#");
    assert line[..|key|] == key;
    assert line[|key| + 1..] == " " + value;
    TrimmedUnchanged(key);
    BlankThenTrimmed(value);
  }

  lemma TrimmedUnchanged(s: string)
    requires IsTrimmed(s)
    ensures Trim(s) == s
  {
    assert "" + s + "" == s;
    TrimPadded("", s, "");
  }

  lemma BlankThenTrimmed(s: string)
    requires IsTrimmed(s)
    ensures Trim(" " + s) == s
  {
    assert " " + s + "" == " " + s;
    TrimPadded(" ", s, "");
  }

  lemma PlainKeys()
    ensures IsPlainKey("type") && IsPlainKey("dimension") && IsPlainKey("sizes")
    ensures IsPlainKey("encoding") && IsPlainKey("endian") && IsPlainKey("data file")
  {
  }

  lemma FixedValuesTrimmed()
    ensures IsTrimmed("short") && IsTrimmed("3") && IsTrimmed("raw") && IsTrimmed("little")
  {
  }

  lemma FixedLinesSplit()
    ensures "type: short" == "type" + ": " + "short"
    ensures "dimension: 3" == "dimension" + ": " + "3"
    ensures "encoding: raw" == "encoding" + ": " + "raw"
    ensures "endian: little" == "endian" + ": " + "little"
    ensures "sizes: " == "sizes" + ": "
    ensures "data file: " == "data file" + ": "
  {
  }

  lemma PreambleSkipped()
    ensures ClassifyLine("NRRD0005") == Skipped
    ensures ClassifyLine("# VoluMatrix intensity volume (simple, no orientation)") == Skipped
  {
    assert !(':' in "NRRD0005");
    var comment := "# VoluMatrix intensity volume (simple, no orientation)";
    CommentChunks();
    assert "# VoluMatrix "[0] == '#';
    assert comment[0] == ("# VoluMatrix " + "intensity volume " + "(simple, no orientation)")[0];
    HashLineSkipped(comment);
  }

  /** Any line that begins with `#` is a comment, whatever follows. */
  lemma HashLineSkipped(line: string)
    requires |line| > 0 && line[0] == '#'
    ensures ClassifyLine(line) == Skipped
  {
    assert line[..1] == "#";
  }

  /**
   The written `sizes` value reads back as the three extents in the order
   written, provided each fits in int32.
   */
  lemma WrittenSizesParse(nx: nat, ny: nat, nz: nat)
    requires nx <= INT32_MAX && ny <= INT32_MAX && nz <= INT32_MAX
    ensures ParseSizes(SizesText(nx, ny, nz)) == Some((nx, ny, nz))
    ensures IsTrimmed(SizesText(nx, ny, nz))
  {
    DecimalTokenParses(nx);
    DecimalTokenParses(ny);
    DecimalTokenParses(nz);
    KeepThree(ToDecimal(nx), ToDecimal(ny), ToDecimal(nz), nx, ny, nz);
  }

  /** A decimal numeral in int32 range is kept with its value. */
  lemma DecimalTokenParses(n: nat)
    requires n <= INT32_MAX
    ensures KeepInts([ToDecimal(n)]) == [n]
  {
    ParseToDecimal(n);
    assert [ToDecimal(n)][1..] == [];
  }

  /** Three tokens that are each kept as one value are kept as those values in order. */
  lemma KeepThree(a: string, b: string, c: string, x: int32, y: int32, z: int32)
    requires KeepInts([a]) == [x] && KeepInts([b]) == [y] && KeepInts([c]) == [z]
    ensures KeepInts([a, b, c]) == [x, y, z]
  {
    KeepIntsAppend([a], [b]);
    KeepIntsAppend([a] + [b], [c]);
    assert [a, b, c] == [a] + [b] + [c];
  }

  // ---------------------------------------------------------------------------
  // The whole header
  // ---------------------------------------------------------------------------

  /** The loop over a suffix of the lines takes one step. */
  lemma ApplyLinesStep(h: HeaderInfo, lines: seq<string>, k: nat, h': HeaderInfo)
    requires k < |lines|
    requires ApplyLine(h, lines[k]) == Success(h')
    ensures ApplyLines(h, lines[k..]) == ApplyLines(h', lines[k + 1..])
  {
    assert lines[k..][0] == lines[k];
    assert lines[k..][1..] == lines[k + 1..];
  }

  /** A data-file name the parser reads back unchanged. */
  predicate IsReadableName(name: string) {
    |name| > 0 && IsTrimmed(name)
  }

  /**
   The loop over eight lines shaped like the converter's: two skipped lines,
   then `type`, an ignored key, `sizes`, `encoding`, `endian` and `data file`.
   The sizes land reversed: the value's first token becomes SizeZ.
   */
  lemma ApplyWrittenShape(lines: seq<string>, sizes: string, z: int32, y: int32, x: int32, name: string)
    requires |lines| == 8
    requires ClassifyLine(lines[0]) == Skipped && ClassifyLine(lines[1]) == Skipped
    requires ClassifyLine(lines[2]) == Field("type", "short")
    requires ClassifyLine(lines[3]) == Field("dimension", "3")
    requires ClassifyLine(lines[4]) == Field("sizes", sizes) && ParseSizes(sizes) == Some((z, y, x))
    requires ClassifyLine(lines[5]) == Field("encoding", "raw")
    requires ClassifyLine(lines[6]) == Field("endian", "little")
    requires ClassifyLine(lines[7]) == Field("data file", name)
    ensures ApplyLines(DefaultHeader, lines) == Success(HeaderInfo(x, y, z, name, "short", "raw", "little"))
  {
    DimensionIgnored();
    var h0 := DefaultHeader;
    var h1 := h0.(typeName := "short");
    var h2 := h1.(sizeZ := z, sizeY := y, sizeX := x);
    var h3 := h2.(encoding := "raw");
    var h4 := h3.(endian := "little");
    var h5 := h4.(dataFileName := name);
    assert lines[0..] == lines;
    ApplyLinesStep(h0, lines, 0, h0);
    ApplyLinesStep(h0, lines, 1, h0);
    ApplyLinesStep(h0, lines, 2, h1);
    ApplyLinesStep(h1, lines, 3, h1);
    ApplyLinesStep(h1, lines, 4, h2);
    ApplyLinesStep(h2, lines, 5, h3);
    ApplyLinesStep(h3, lines, 6, h4);
    ApplyLinesStep(h4, lines, 7, h5);
    assert lines[8..] == [];
  }

  /** A loop that succeeds with a data-file name, after the magic check, is the parse. */
  lemma ParseAfterLoop(lines: seq<string>, h: HeaderInfo)
    requires HasMagic(lines)
    requires ApplyLines(DefaultHeader, lines) == Success(h) && |h.dataFileName| > 0
    ensures ParseLines(lines) == Success(h)
  {
  }

  lemma DimensionIgnored()
    ensures "dimension" !in RecognisedKeys
  {
  }

  /** The template's lines, one by one. */
  lemma TemplateLines(sizes: string, dataFile: string)
    ensures var t := HeaderTemplate(sizes, dataFile);
            && t[0] == "NRRD0005" && t[1] == "# VoluMatrix intensity volume (simple, no orientation)"
            && t[2] == "type: short" && t[3] == "dimension: 3" && t[4] == "sizes: " + sizes
            && t[5] == "encoding: raw" && t[6] == "endian: little" && t[7] == "data file: " + dataFile
  {
  }

  /** How the parser reads the two preamble lines, wherever they stand. */
  lemma PreambleRead(t: seq<string>)
    requires |t| == 8
    requires t[0] == "NRRD0005" && t[1] == "# VoluMatrix intensity volume (simple, no orientation)"
    ensures StartsWith(t[0], Magic)
    ensures ClassifyLine(t[0]) == Skipped && ClassifyLine(t[1]) == Skipped
  {
    PreambleSkipped();
  }

  /** How the parser reads the four fixed key lines, wherever they stand. */
  lemma FixedFieldsRead(t: seq<string>)
    requires |t| == 8
    requires t[2] == "type: short" && t[3] == "dimension: 3"
    requires t[5] == "encoding: raw" && t[6] == "endian: little"
    ensures ClassifyLine(t[2]) == Field("type", "short")
    ensures ClassifyLine(t[3]) == Field("dimension", "3")
    ensures ClassifyLine(t[5]) == Field("encoding", "raw")
    ensures ClassifyLine(t[6]) == Field("endian", "little")
  {
    FixedFieldsClassified();
  }

  lemma FixedFieldsClassified()
    ensures ClassifyLine("type: short") == Field("type", "short")
    ensures ClassifyLine("dimension: 3") == Field("dimension", "3")
    ensures ClassifyLine("encoding: raw") == Field("encoding", "raw")
    ensures ClassifyLine("endian: little") == Field("endian", "little")
  {
    PlainKeys();
    FixedValuesTrimmed();
    FixedLinesSplit();
    ClassifyWrittenField("type", "short");
    ClassifyWrittenField("dimension", "3");
    ClassifyWrittenField("encoding", "raw");
    ClassifyWrittenField("endian", "little");
  }

  /** How the parser reads the two filled-in lines. */
  lemma FilledFieldsClassified(sizes: string, dataFile: string)
    requires IsTrimmed(sizes) && IsTrimmed(dataFile)
    ensures ClassifyLine("sizes: " + sizes) == Field("sizes", sizes)
    ensures ClassifyLine("data file: " + dataFile) == Field("data file", dataFile)
  {
    PlainKeys();
    FixedLinesSplit();
    ClassifyWrittenField("sizes", sizes);
    ClassifyWrittenField("data file", dataFile);
  }

  /**
   The template parses whenever its `sizes` text holds three int32s and its
   data-file name reads back unchanged; the sizes land reversed.
   */
  lemma TemplateParses(sizes: string, dataFile: string, z: int32, y: int32, x: int32)
    requires ParseSizes(sizes) == Some((z, y, x)) && IsTrimmed(sizes)
    requires IsReadableName(dataFile)
    ensures ParseLines(HeaderTemplate(sizes, dataFile)) ==
              Success(HeaderInfo(x, y, z, dataFile, "short", "raw", "little"))
  {
    var t := HeaderTemplate(sizes, dataFile);
    TemplateLines(sizes, dataFile);
    PreambleRead(t);
    FixedFieldsRead(t);
    FilledFieldsClassified(sizes, dataFile);
    ApplyWrittenShape(t, sizes, z, y, x, dataFile);
    ParseAfterLoop(t, HeaderInfo(x, y, z, dataFile, "short", "raw", "little"));
  }

  /**
   Writer then parser: the header lines written for an array of shape
   (nz, ny, nx) parse successfully, with SizeX = nz, SizeY = ny, SizeZ = nx,
   the raw file's base name as data file, and the fixed type, encoding and
   endianness; `dimension` and the comment leave no trace.
   */
  lemma WrittenHeaderParses(shape: (nat, nat, nat), rawPath: string)
    requires shape.0 <= INT32_MAX && shape.1 <= INT32_MAX && shape.2 <= INT32_MAX
    requires IsReadableName(Basename(rawPath))
    ensures ParseLines(HeaderLines(shape, rawPath)) ==
              var (nz, ny, nx) := shape;
              Success(HeaderInfo(nz, ny, nx, Basename(rawPath), "short", "raw", "little"))
  {
    var (nz, ny, nx) := shape;
    WrittenSizesParse(nx, ny, nz);
    TemplateParses(SizesText(nx, ny, nz), Basename(rawPath), nx, ny, nz);
  }

  /**
   The same through the file text: written with "\n" line ends and split the
   way the engine splits lines, the header parses to the same record.
   */
  lemma WrittenTextParses(shape: (nat, nat, nat), rawPath: string)
    requires shape.0 <= INT32_MAX && shape.1 <= INT32_MAX && shape.2 <= INT32_MAX
    requires IsReadableName(Basename(rawPath))
    requires Free(Basename(rawPath), IsLineBreak)
    ensures ParseHeaderFile(Some(HeaderText(shape, rawPath))) ==
              var (nz, ny, nx) := shape;
              Success(HeaderInfo(nz, ny, nx, Basename(rawPath), "short", "raw", "little"))
  {
    WrittenHeaderParses(shape, rawPath);
  }

  /**
   As the converter is run: the raw file is `outBase + ".raw"`, whose base
   name is never empty, so the header never fails with a missing data file;
   it parses whenever the extents fit in int32 and the base name has no
   line break and does not begin with a blank.
   */
  lemma ConverterOutputParses(shape: (nat, nat, nat), outBase: string)
    requires shape.0 <= INT32_MAX && shape.1 <= INT32_MAX && shape.2 <= INT32_MAX
    requires Free(Basename(outBase + ".raw"), IsLineBreak)
    requires !IsSpace(Basename(outBase + ".raw")[0])
    ensures ParseHeaderFile(Some(HeaderText(shape, outBase + ".raw"))).Success?
    ensures ParseHeaderFile(Some(HeaderText(shape, outBase + ".raw"))).value.dataFileName
            == Basename(outBase + ".raw")
  {
    RawNameReadable(Basename(outBase + ".raw"), outBase);
    WrittenTextParses(shape, outBase + ".raw");
  }

  /**
   As the converter is run, its header never fails with a missing data file,
   whatever the extents and whatever the base name, as long as the base name
   holds no line break: the last line always names a data file, and its
   value keeps the final `w` of ".raw" after trimming. (Oversized extents
   fail earlier, with an invalid `sizes` line.)
   */
  lemma NeverMissingDataFile(shape: (nat, nat, nat), outBase: string)
    requires Free(Basename(outBase + ".raw"), IsLineBreak)
    ensures ParseHeaderFile(Some(HeaderText(shape, outBase + ".raw"))) != Failure(MissingDataFile)
  {
    var p := outBase + ".raw";
    var name := Basename(p);
    var (nz, ny, nx) := shape;
    var t := HeaderLines(shape, p);
    TemplateLastLine(SizesText(nx, ny, nz), name);
    RawBasenameNonEmpty(outBase);
    EndsWithRaw(name);
    var value := DataFileLineRead(name);
    LastLineNamesDataFile(t, value);
  }

  lemma TemplateLastLine(sizes: string, dataFile: string)
    ensures HeaderTemplate(sizes, dataFile)[7] == "data file: " + dataFile
  {
  }

  /**
   A `data file` line whose name ends in a non-blank is read with a
   non-empty value, whatever else the name holds.
   */
  lemma DataFileLineRead(name: string) returns (value: string)
    requires |name| > 0 && !IsSpace(name[|name| - 1])
    ensures ClassifyLine("data file: " + name) == Field("data file", value) && value != ""
  {
    PlainKeys();
    FixedLinesSplit();
    ClassifyAnyValue("data file", name);
    assert (" " + name)[|" " + name| - 1] == name[|name| - 1];
    TrimKeepsLastNonBlank(" " + name);
    value := Trim(" " + name);
  }

  /** A line written as `key: value` is read as that key and the trimmed value. */
  lemma ClassifyAnyValue(key: string, value: string)
    requires IsPlainKey(key)
    ensures ClassifyLine(key + ": " + value) == Field(key, Trim(" " + value))
  {
    var line := key + ": " + value;
    assert line == key + [':'] + (" " + value);
    FirstColonAfterKey(key, " " + value);
    assert line[0] == key[0];
    assert !StartsWith(line, "#");
    assert line[..|key|] == key;
    assert line[|key| + 1..] == " " + value;
    TrimmedUnchanged(key);
  }

  /** A text whose last character is not blank does not trim to nothing. */
  lemma TrimKeepsLastNonBlank(s: string)
    requires |s| > 0 && !IsSpace(s[|s| - 1])
    ensures Trim(s) != ""
  {
    var t := TrimStart(s);
    assert |t| > 0;
    assert t[|t| - 1] == s[|s| - 1];
  }

  /** When the last line sets a non-empty data-file name, the data file is never missing. */
  lemma LastLineNamesDataFile(lines: seq<string>, name: string)
    requires |lines| > 0 && ClassifyLine(lines[|lines| - 1]) == Field("data file", name) && name != ""
    ensures ParseLines(lines) != Failure(MissingDataFile)
  {
    ParseLinesCharacterised(lines);
  }

  /** The raw file's base name reads back unchanged when it does not begin with a blank. */
  lemma RawNameReadable(name: string, outBase: string)
    requires name == Basename(outBase + ".raw") && !IsSpace(name[0])
    ensures IsReadableName(name)
  {
    RawBasenameNonEmpty(outBase);
    EndsWithRaw(name);
  }

  /** A name ending in ".raw" ends in a `w`, which is not blank. */
  lemma EndsWithRaw(name: string)
    requires |name| >= 4 && name[|name| - 4..] == ".raw"
    ensures name[|name| - 1] == 'w'
  {
    assert name[|name| - 1] == name[|name| - 4..][3];
  }

  /**
   End to end: the raw file the converter writes (nz * ny * nx int16 voxels,
   two bytes each) is loaded as it is, since the parsed sizes multiply to
   the same voxel count.
   */
  lemma ConvertedVolumeLoadsUnchanged(shape: (nat, nat, nat), rawPath: string, raw: seq<bv8>)
    requires shape.0 <= INT32_MAX && shape.1 <= INT32_MAX && shape.2 <= INT32_MAX
    requires IsReadableName(Basename(rawPath))
    requires Free(Basename(rawPath), IsLineBreak)
    requires shape.0 * shape.1 * shape.2 * 2 <= INT64_MAX
    requires |raw| == shape.0 * shape.1 * shape.2 * 2
    ensures ParseHeaderFile(Some(HeaderText(shape, rawPath))).Success?
    ensures var h := ParseHeaderFile(Some(HeaderText(shape, rawPath))).value;
            CopyIsDefined(h.sizeX, h.sizeY, h.sizeZ) && Fit(raw, h.sizeX, h.sizeY, h.sizeZ) == raw
  {
    WrittenTextParses(shape, rawPath);
    var (nz, ny, nx) := shape;
    assert ExpectedBytes(nz, ny, nx) == nz * ny * nx * 2;
    FitExactIsIdentity(raw, nz, ny, nx);
  }
}
