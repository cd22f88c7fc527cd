/**
 The detached NRRD header parser of the volume manager: the header record,
 the integer-list helper, per-line classification and the line loop with its
 validation. The header text arrives as a sequence of lines (or as the whole
 file text, split the way the engine splits lines); reading the file is a
 parameter, not modelled.
 */
module NrrdHeader {
  import opened Results
  import opened Text
  import opened Decimal

  /**
   The parsed header record: three signed 32-bit sizes and four strings,
   nothing else (no spacing, no origin). Nothing in the type rules out a
   negative size.
   */
  datatype HeaderInfo = HeaderInfo(
    sizeX: int32,
    sizeY: int32,
    sizeZ: int32,
    dataFileName: string,
    typeName: string,
    encoding: string,
    endian: string)

  /** A default-constructed record: all sizes 0 and all strings empty. */
  const DefaultHeader: HeaderInfo := HeaderInfo(0, 0, 0, "", "", "", "")

  /** The parser's failure outcomes, one per error message it sets. */
  datatype ParseError =
    | ReadFailed       // the header file could not be read
    | NotNrrd          // no lines, or the first line does not begin with the magic
    | InvalidSizes     // a `sizes` value did not hold exactly three int32s
    | MissingDataFile  // no non-empty `data file` value after the loop

  /** The magic every header's first line must begin with. */
  const Magic: string := "NRRD"

  /** The keys the line loop acts on; every other key is ignored. */
  const RecognisedKeys: set<string> := {"sizes", "type", "encoding", "endian", "data file"}

  // ---------------------------------------------------------------------------
  // Integer lists
  // ---------------------------------------------------------------------------

  /** The int32 values of the tokens that parse, in token order; the others are dropped. */
  function KeepInts(tokens: seq<string>): (r: seq<int32>)
    ensures |r| <= |tokens|
    ensures |r| == 0 <==> forall k :: 0 <= k < |tokens| ==> TryParseInt32(tokens[k]).None?
  {
    if |tokens| == 0 then []
    else
      var rest := KeepInts(tokens[1..]);
      assert forall k :: 1 <= k < |tokens| ==> tokens[k] == tokens[1..][k - 1];
      match TryParseInt32(tokens[0])
      case Some(v) => [v] + rest
      case None => rest
  }

  /**
   Whitespace-splits s and keeps the tokens that parse as int32, in order.
   The flag is true iff at least one value was kept.
   */
  function ParseIntList(s: string): (r: (bool, seq<int32>))
    ensures r.0 <==> |r.1| > 0
    ensures r.1 == KeepInts(Split(s, IsSpace))
  {
    var values := KeepInts(Split(s, IsSpace));
    (|values| > 0, values)
  }

  /**
   The three sizes of a `sizes` value in file order (first, second, third
   token), or None unless the value holds exactly three int32 tokens.
   */
  function ParseSizes(value: string): (r: Option<(int32, int32, int32)>)
    ensures r.Some? <==> |KeepInts(Split(value, IsSpace))| == 3
    ensures r.Some? ==> KeepInts(Split(value, IsSpace)) == [r.value.0, r.value.1, r.value.2]
  {
    var s := ParseIntList(value).1;
    if |s| != 3 then None else Some((s[0], s[1], s[2]))
  }

  // ---------------------------------------------------------------------------
  // Lines
  // ---------------------------------------------------------------------------

  /** What the line loop sees in one line. */
  datatype LineKind = Skipped | Field(key: string, value: string)

  /**
   A comment line (leading `#`) or a line without `:` is skipped; any other
   line is split at its first `:` into a trimmed key and a trimmed value.
   */
  function ClassifyLine(line: string): (r: LineKind)
    ensures r.Skipped? <==> StartsWith(line, "#") || ':' !in line
    ensures r.Field? ==>
              exists i :: 0 <= i < |line| && line[i] == ':' && ':' !in line[..i]
                          && r.key == Trim(line[..i]) && r.value == Trim(line[i + 1..])
    ensures r.Field? ==> IsTrimmed(r.key) && IsTrimmed(r.value)
  {
    if StartsWith(line, "#") || ':' !in line then Skipped
    else
      var i := FindFirst(line, ':').value;
      assert line[i] == ':' && ':' !in line[..i];
      Field(Trim(line[..i]), Trim(line[i + 1..]))
  }

  /**
   The effect of one key/value pair. `sizes` stores its three tokens in
   reverse (the first token is Z, the last is X) or fails; `type`,
   `encoding`, `endian` and `data file` store their value verbatim;
   anything else (including `dimension`) leaves the header alone.
   */
  function ApplyField(h: HeaderInfo, key: string, value: string): (r: Result<HeaderInfo, ParseError>)
    ensures r.Failure? <==> key == "sizes" && |KeepInts(Split(value, IsSpace))| != 3
    ensures r.Failure? ==> r.error == InvalidSizes
    ensures r.Success? && key == "sizes" ==>
              KeepInts(Split(value, IsSpace)) == [r.value.sizeZ, r.value.sizeY, r.value.sizeX]
              && r.value.(sizeX := h.sizeX, sizeY := h.sizeY, sizeZ := h.sizeZ) == h
    ensures key !in RecognisedKeys ==> r == Success(h)
    ensures r.Success? && r.value.typeName != h.typeName ==> key == "type" && r.value.typeName == value
    ensures r.Success? && r.value.encoding != h.encoding ==> key == "encoding" && r.value.encoding == value
    ensures r.Success? && r.value.endian != h.endian ==> key == "endian" && r.value.endian == value
    ensures r.Success? && r.value.dataFileName != h.dataFileName ==>
              key == "data file" && r.value.dataFileName == value
    ensures r.Success? && (r.value.sizeX, r.value.sizeY, r.value.sizeZ) != (h.sizeX, h.sizeY, h.sizeZ) ==>
              key == "sizes"
  {
    if key == "sizes" then
      match ParseSizes(value)
      case None => Failure(InvalidSizes)
      case Some((z, y, x)) => Success(h.(sizeZ := z, sizeY := y, sizeX := x))
    else if key == "type" then Success(h.(typeName := value))
    else if key == "encoding" then Success(h.(encoding := value))
    else if key == "endian" then Success(h.(endian := value))
    else if key == "data file" then Success(h.(dataFileName := value))
    else Success(h)
  }

  /** The effect of one line of the loop. */
  function ApplyLine(h: HeaderInfo, line: string): (r: Result<HeaderInfo, ParseError>)
    ensures r.Failure? ==> r.error == InvalidSizes && ClassifyLine(line).Field?
    ensures StartsWith(line, "#") || ':' !in line ==> r == Success(h)
    ensures r.Success? && r.value.typeName != h.typeName ==>
              ClassifyLine(line) == Field("type", r.value.typeName)
    ensures r.Success? && r.value.encoding != h.encoding ==>
              ClassifyLine(line) == Field("encoding", r.value.encoding)
    ensures r.Success? && r.value.endian != h.endian ==>
              ClassifyLine(line) == Field("endian", r.value.endian)
    ensures r.Success? && r.value.dataFileName != h.dataFileName ==>
              ClassifyLine(line) == Field("data file", r.value.dataFileName)
    ensures r.Success? && (r.value.sizeX, r.value.sizeY, r.value.sizeZ) != (h.sizeX, h.sizeY, h.sizeZ) ==>
              ClassifyLine(line).Field? && ClassifyLine(line).key == "sizes"
  {
    var k := ClassifyLine(line);
    if k.Skipped? then Success(h) else ApplyField(h, k.key, k.value)
  }

  /**
   The line loop: applies every line in order and stops at the first
   failure, which can only be an invalid `sizes` value.
   */
  function ApplyLines(h: HeaderInfo, lines: seq<string>): (r: Result<HeaderInfo, ParseError>)
    ensures r.Failure? ==> r.error == InvalidSizes
    decreases |lines|
  {
    if |lines| == 0 then Success(h)
    else
      match ApplyLine(h, lines[0])
      case Failure(e) => Failure(e)
      case Success(next) => ApplyLines(next, lines[1..])
  }

  /**
   The magic check: there is a first line and it begins with the magic,
   compared the engine's default way, without regard to ASCII case (so
   `nrrd0004` passes too).
   */
  function HasMagic(lines: seq<string>): (b: bool)
    ensures b <==> |lines| > 0 && StartsWith(LowerAscii(lines[0]), "nrrd")
    ensures |lines| > 0 && StartsWith(lines[0], Magic) ==> b
  {
    if |lines| == 0 then false
    else
      IgnoringCaseIsLowerPrefix(lines[0], Magic);
      assert LowerAscii(Magic) == "nrrd";
      StartsWithIgnoringCase(lines[0], Magic)
  }

  /**
   The parser over the header's lines: the magic check comes first, then the
   line loop (which also visits the magic line), then the data-file check on
   the final record. The record starts from the default, so a success depends
   on the lines alone.
   */
  function ParseLines(lines: seq<string>): (r: Result<HeaderInfo, ParseError>)
    ensures r == Failure(NotNrrd) <==> !HasMagic(lines)
    ensures r.Failure? && r.error != NotNrrd ==> r.error in {InvalidSizes, MissingDataFile}
    ensures r.Success? ==> r.value.dataFileName != ""
  {
    if !HasMagic(lines) then Failure(NotNrrd)
    else
      var h :- ApplyLines(DefaultHeader, lines);
      if |h.dataFileName| == 0 then Failure(MissingDataFile) else Success(h)
  }

  /**
   The whole entry point: None stands for a header file that could not be
   read; otherwise its text is split into non-empty lines and parsed.
   */
  function ParseHeaderFile(text: Option<string>): (r: Result<HeaderInfo, ParseError>)
    ensures r == Failure(ReadFailed) <==> text.None?
    ensures text.Some? ==> r == ParseLines(Split(text.value, IsLineBreak))
  {
    match text
    case None => Failure(ReadFailed)
    case Some(t) => ParseLines(Split(t, IsLineBreak))
  }
}
