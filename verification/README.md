# VoluMatrix NRRD loading: header parser, payload fit and converter header

This project models the part of VoluMatrix that gets a CT volume from disk into
a 16-bit volume texture. The volume is stored as a detached NRRD pair: an
`.nhdr` header and a `.raw` payload. The model covers:

- the volume manager's header parser: `ParseIntList` and `ParseNRRDHeader`,
  which produce the `FVMNRRDHeaderInfo` record;
- the byte step of `CreateVolumeTextureFromRaw16`, which copies at most
  `SX*SY*SZ*2` payload bytes into the texture's single mip and zero-fills the
  rest;
- the header text that the DICOM-to-NRRD converter (`write_nrrd_raw`) writes.

With these three pieces in place, the model proves a writer-to-parser round trip.

Modules:

- `Results`: `Option` and `Result` with failure propagation.
- `Text`: the engine string primitives the parser calls, each given its own
  small specification. These are the whitespace split and the line split (both
  drop empty pieces), first-occurrence search, trimming, an exact prefix
  test, and the prefix test that ignores ASCII case. It also has the `"\n".join` the converter uses.
- `Decimal`: the `int32` range, decimal printing, and the engine's
  `int32` token parse (an optional sign, at least one decimal digit, and a
  range check).
- `NrrdHeader`: the header record and its defaults (all sizes 0, all strings
  empty), `ParseIntList`, per-line classification, the effect of each key, the
  line loop, the magic check and the data-file check.
- `HeaderLaws`: a reference reading of the header lines that does not run the
  loop. Each field takes the value of the last line that sets it; the sizes
  come from the last `sizes` line, with the first token as Z. The module
  proves that the loop agrees with this reading and fixes the order in which
  the errors win.
- `VolumeTexture`: the expected payload length, the pure `Fit`, an imperative
  copy-and-fill method proved equal to it, and the load entry point.
- `NrrdWriter`: the converter's eight header lines and the header text.
- `ConverterRoundTrip`: what the parser makes of the converter's header.
  The converter writes `sizes: nx ny nz` for an array of shape `(nz, ny, nx)`,
  and the parser stores the first token as SizeZ. The parsed header therefore
  has SizeX = nz, SizeY = ny and SizeZ = nx. This is stated as the code
  behaves. The product of the three sizes, and with it the payload length, is
  the same either way, so the converter's raw file is loaded unchanged.

The parser checks less than a full NRRD reader would, and the model keeps
exactly what the code checks:

- Keys are compared case-sensitively (`Equals` with its default case
  handling), so `Sizes:` is an unrecognised key.
- The magic test is the engine's `StartsWith` with its default case
  handling, which ignores ASCII case, so a first line `nrrd0004` passes.
- Nothing checks the values of `dimension`, `type`, `encoding` or `endian`.
- Zero and negative sizes are accepted.
- There is no spacing, no origin, no byte swap for big-endian data and no
  min/max statistics.

## Model

| member | source | states |
|---|---|---|
| NrrdHeader.KeepInts | Source/TBRaymarchProject/Private/VMVolumeManager.cpp:28-35 | at most one value per token; no value at all exactly when no token parses as int32 |
| HeaderLaws.KeepIntsAppend | Source/TBRaymarchProject/Private/VMVolumeManager.cpp:28-35 | the values kept from a + b are those kept from a followed by those kept from b, so kept values stay in token order |
| HeaderLaws.KeepIntsSingle | Source/TBRaymarchProject/Private/VMVolumeManager.cpp:30-34 | one token contributes its parsed value when it parses and nothing when it does not |
| NrrdHeader.ParseIntList | Source/TBRaymarchProject/Private/VMVolumeManager.cpp:23-37 | the flag is true iff at least one value was kept; the values are those of the whitespace-separated tokens that parse |
| HeaderLaws.ParseIntListDropsBadToken | Source/TBRaymarchProject/Private/VMVolumeManager.cpp:23-37 | "2 x 2 2" gives true and [2, 2, 2]: a bad token in the middle is silently dropped |
| NrrdHeader.ParseSizes | Source/TBRaymarchProject/Private/VMVolumeManager.cpp:76-81 | a sizes value is accepted iff exactly three int32 values are kept, and the triple is those values in file order |
| NrrdHeader.ClassifyLine | Source/TBRaymarchProject/Private/VMVolumeManager.cpp:64-72 | a line is skipped iff it starts with `#` or has no `:`; otherwise key and value are the trimmed text before and after its first `:` |
| NrrdHeader.ApplyLine | Source/TBRaymarchProject/Private/VMVolumeManager.cpp:64-103 | a comment line or a line without `:` changes nothing; a line can fail only as a `sizes` field, with InvalidSizes; a string field changes only through a line whose key is that field, and then to that line's value; the sizes change only through a `sizes` line |
| NrrdHeader.ApplyField | Source/TBRaymarchProject/Private/VMVolumeManager.cpp:74-103 | fails, with InvalidSizes, iff the key is `sizes` and the value does not hold exactly three ints; sizes are stored reversed (first token is SizeZ) with nothing else changed; any key other than the five recognised ones changes nothing |
| NrrdHeader.ApplyLines | Source/TBRaymarchProject/Private/VMVolumeManager.cpp:62-104 | the only way the line loop can fail is an invalid `sizes` value |
| NrrdHeader.HasMagic | Source/TBRaymarchProject/Private/VMVolumeManager.cpp:56 | the check passes iff there is a first line and its lower-cased text begins with `nrrd`; a first line beginning exactly with `NRRD` always passes |
| NrrdHeader.ParseLines | Source/TBRaymarchProject/Private/VMVolumeManager.cpp:56-112 | fails with NotNrrd iff there is no first line, or the first line does not begin with `NRRD` when ASCII case is ignored; every other failure is InvalidSizes or MissingDataFile; a success always has a non-empty data file name |
| NrrdHeader.ParseHeaderFile | Source/TBRaymarchProject/Private/VMVolumeManager.cpp:44-60 | an unreadable file fails with ReadFailed and nothing else does; readable text is split into non-empty lines and parsed |
| HeaderLaws.ApplyLinesAppend | Source/TBRaymarchProject/Private/VMVolumeManager.cpp:62-104 | running the loop over a + b is running it over a and then, if that succeeded, over b |
| HeaderLaws.InvalidSizesLineSnoc | Source/TBRaymarchProject/Private/VMVolumeManager.cpp:74-81 | a list with one more line holds an invalid sizes line iff the shorter list or the new line does |
| HeaderLaws.ApplyLinesIsLastWins | Source/TBRaymarchProject/Private/VMVolumeManager.cpp:62-104 | the loop fails with InvalidSizes iff some line is an invalid `sizes` line; otherwise each field holds the value of the last line that sets it, so later occurrences overwrite earlier ones |
| HeaderLaws.ParseLinesCharacterised | Source/TBRaymarchProject/Private/VMVolumeManager.cpp:42-113 | the outcome read off the lines: the magic check first, then any invalid sizes line, then an empty final data file name, else the reference reading from the default record |
| HeaderLaws.LastSizesAbsent | Source/TBRaymarchProject/Public/VMVolumeManager.h:18-20 | without any `sizes` line, the sizes keep their starting values |
| HeaderLaws.NoSizesLineGivesZeroSizes | Source/TBRaymarchProject/Public/VMVolumeManager.h:18-20 | a header with the magic, a data file and no `sizes` line parses, with all three sizes 0 |
| HeaderLaws.LastValueAbsent | Source/TBRaymarchProject/Public/VMVolumeManager.h:21-25 | without any line carrying a key, the reference reading keeps the field's starting value |
| HeaderLaws.UnsetFieldsStayEmpty | Source/TBRaymarchProject/Public/VMVolumeManager.h:21-25 | in a parsed header, type, encoding and endian stay the default empty string when no line sets them |
| HeaderLaws.MagicIgnoresCase | Source/TBRaymarchProject/Private/VMVolumeManager.cpp:56 | `nrrd0004` and `Nrrd` pass the magic check; `NRRX0004`, `NRR` and an empty header do not |
| HeaderLaws.InertLineChangesNothing | Source/TBRaymarchProject/Private/VMVolumeManager.cpp:64-67 | inserting a comment, a line without `:` or a line with an unrecognised key anywhere after the first line leaves the outcome unchanged |
| Text.FindFirst | Source/TBRaymarchProject/Private/VMVolumeManager.cpp:70 | finds a position iff the character occurs; the position holds it and nothing before it does |
| Text.Split | Source/TBRaymarchProject/Private/VMVolumeManager.cpp:27 | every piece of the whitespace split (and of the line split at cpp:54) is non-empty and holds no separator |
| Text.IgnoringCaseIsLowerPrefix | Source/TBRaymarchProject/Private/VMVolumeManager.cpp:56 | the case-ignoring prefix test is the exact prefix test on lower-cased texts, and every exact prefix also passes it |
| Text.TrimPadded | Source/TBRaymarchProject/Private/VMVolumeManager.cpp:71-72 | trimming removes exactly the blanks around a text that has no blank at either end |
| Text.Trim | Source/TBRaymarchProject/Private/VMVolumeManager.cpp:71-72 | a trimmed text has no blank at either end |
| Text.JoinEnds | Tools/ITKConverter/dicom_to_nrrd.py:102 | the joined text begins with the first piece and ends with the last (empty when there are no pieces); SplitJoin shows the line split recovers every piece |
| Text.SplitJoin | Tools/ITKConverter/dicom_to_nrrd.py:101-102 | pieces joined with a one-character separator split back into the same pieces |
| Decimal.ToDecimal | Tools/ITKConverter/dicom_to_nrrd.py:95 | the decimal text of n is non-empty, all digits, has no leading zero and has value n |
| Decimal.TryParseInt32Accepts | Source/TBRaymarchProject/Private/VMVolumeManager.cpp:31 | only digits after at most one sign parse; a digit string parses iff its value fits in int32, to that value; `-` before digits parses iff the negated value fits in int32, to the negated value |
| Decimal.ParseToDecimal | Source/TBRaymarchProject/Private/VMVolumeManager.cpp:30-31 | the decimal text of n parses back to n exactly when n fits in int32, and fails otherwise |
| Decimal.ParseNegatedDecimal | Source/TBRaymarchProject/Private/VMVolumeManager.cpp:30-31 | a minus sign before the decimal text of n parses to -n exactly when -n fits in int32 |
| VolumeTexture.ExpectedBytes | Source/TBRaymarchProject/Private/VMVolumeManager.cpp:166 | the expected payload length is never negative for non-negative sizes |
| VolumeTexture.Fit | Source/TBRaymarchProject/Private/VMVolumeManager.cpp:166-174 | the payload has length SX*SY*SZ*2; byte i is input byte i while there is one, and 0 after that |
| VolumeTexture.FitExactIsIdentity | Source/TBRaymarchProject/Private/VMVolumeManager.cpp:166-174 | an input of exactly the expected length is used unchanged |
| VolumeTexture.FitIdempotent | Source/TBRaymarchProject/Private/VMVolumeManager.cpp:166-174 | fitting a fitted payload changes nothing |
| VolumeTexture.FitIgnoresTailAndZeros | Source/TBRaymarchProject/Private/VMVolumeManager.cpp:168-174 | a longer input is cut to its prefix, and zeros appended to the input never change the payload |
| VolumeTexture.FillMip | Source/TBRaymarchProject/Private/VMVolumeManager.cpp:165-174 | the copy of min(expected, n) bytes followed by the zero fill yields exactly the fitted payload |
| VolumeTexture.CreateVolumeSource | Source/TBRaymarchProject/Private/VMVolumeManager.cpp:144-174 | the texture source carries the header's three sizes and a mip of SX*SY*SZ*2 bytes holding the fitted payload |
| VolumeTexture.LoadIntensity | Source/TBRaymarchProject/Private/VMVolumeManager.cpp:187-209 | a header failure stops the load with that error, and a missing raw payload stops it after a good header, whatever sizes the header holds; otherwise the result is the volume built from the parsed sizes and the fitted bytes |
| NrrdWriter.Basename | Tools/ITKConverter/dicom_to_nrrd.py:98 | the base name is the suffix of the path after its last `/`, and holds no `/` |
| NrrdWriter.SizesText | Tools/ITKConverter/dicom_to_nrrd.py:95 | the `sizes` value splits on whitespace into the decimal texts of nx, ny and nz in that order, and has no line break and no blank at either end |
| NrrdWriter.HeaderTemplate | Tools/ITKConverter/dicom_to_nrrd.py:89-99 | the converter writes eight lines, and the first always passes the parser's magic check |
| NrrdWriter.HeaderLines | Tools/ITKConverter/dicom_to_nrrd.py:82-99 | the header for an array of shape (nz, ny, nx) is eight lines, and its first passes the magic check |
| NrrdWriter.HeaderText | Tools/ITKConverter/dicom_to_nrrd.py:89-102 | the header text ends in a newline; when the base name has no line break, splitting the text into lines gives back exactly the eight lines |
| NrrdWriter.TemplateTextSplits | Tools/ITKConverter/dicom_to_nrrd.py:101-102 | joining the eight lines with newlines and adding one more newline is undone by the engine's line split |
| NrrdWriter.RawBasenameNonEmpty | Tools/ITKConverter/dicom_to_nrrd.py:98 | the base name of `out_base + ".raw"` ends in ".raw", so it is never empty |
| ConverterRoundTrip.ClassifyWrittenField | Tools/ITKConverter/dicom_to_nrrd.py:92-98 | a line written as `key: value` is read back as exactly that key and that value |
| ConverterRoundTrip.PreambleSkipped | Tools/ITKConverter/dicom_to_nrrd.py:90-91 | the parser skips both the magic line and the comment line |
| ConverterRoundTrip.WrittenSizesParse | Tools/ITKConverter/dicom_to_nrrd.py:95 | the written `sizes` value reads back as the three extents in the order written, provided each fits in int32 |
| ConverterRoundTrip.TemplateParses | Source/TBRaymarchProject/Private/VMVolumeManager.cpp:74-112 | the converter's lines parse whenever the sizes text holds three int32s and the name reads back; the sizes are stored reversed |
| ConverterRoundTrip.WrittenHeaderParses | Tools/ITKConverter/dicom_to_nrrd.py:82-98 | the header written for shape (nz, ny, nx) parses to SizeX = nz, SizeY = ny, SizeZ = nx, with the raw base name and type short, encoding raw and endian little |
| ConverterRoundTrip.WrittenTextParses | Tools/ITKConverter/dicom_to_nrrd.py:89-102 | the same holds for the written file text, split into lines the way the engine splits them |
| ConverterRoundTrip.ConverterOutputParses | Tools/ITKConverter/dicom_to_nrrd.py:135-138 | for the converter's `out_base + ".raw"` and extents within int32, the header parses, with that base name as data file, provided the base name starts with no blank |
| ConverterRoundTrip.NeverMissingDataFile | Tools/ITKConverter/dicom_to_nrrd.py:98 | for the converter's `out_base + ".raw"`, the header never fails with a missing data file, for any extents and any base name without a line break |
| ConverterRoundTrip.ConvertedVolumeLoadsUnchanged | Source/TBRaymarchProject/Private/VMVolumeManager.cpp:166-174 | the raw file the converter writes has exactly the expected length for the parsed sizes, so it is loaded unchanged |

## Left out

- Reading files is left out. `LoadFileToString` becomes an `Option<string>`
  input, and `LoadRawData` (the path join, the existence check and the read)
  becomes an `Option` of bytes. The converter's `open`, `tofile` and `write`
  and the path normalisation of the load entry point are not modelled. All of
  these are file system effects.
- The Unreal texture and actor glue is left out, because it is engine
  behaviour: object allocation (and its failure), texture settings,
  `Source.Init`, mip locking, `UpdateResource`, logging,
  `ApplyIntensityToRaymarcher`, the constructor and `BeginPlay`. The model
  keeps only the texture's three sizes and its mip bytes.
- DICOM loading, HU rescaling and the converter's command line are left out.
  They are ITK and numpy work with floating point.
- The engine string primitives are modelled by the small specifications in
  `Text` and `Decimal`, not by their engine code:
  - Blanks are space, tab, CR and LF. The engine's whitespace split uses
    exactly these four. The engine's trim also removes other whitespace
    characters; the model's trim removes only these four.
  - Case folding covers the ASCII letters only, as the engine's default
    case-ignoring comparison does.
  - The comment test is an exact prefix test. The engine's default is to
    ignore case, which makes no difference for `#`.
  - The token parse accepts an optional sign and decimal digits. Other forms
    the engine might accept are not modelled.
- NrrdWriter.Basename splits at `/` only, as `os.path.basename` does on
  POSIX systems. On Windows it also splits at `\` and after a drive colon.
  The POSIX rule was chosen because it needs no platform parameter. The
  round-trip lemmas do not depend on the choice: they use only the fact that
  the base name is a suffix of the path that ends in `.raw`.
- The error texts the parser reports are represented only by the
  `ParseError` constructor for each failure.
- VolumeTexture.Fit does not model int64 overflow of `SX*SY*SZ*2` or negative
  sizes. It requires that no size is negative and that the product fits in
  int64, because the code's copy is not well defined otherwise. The parser
  establishes neither condition: it accepts negative sizes.
- VolumeTexture.LoadIntensity requires the same condition of the parsed
  header, but only when the raw data was loaded, because the copy runs only
  then.
- ConverterRoundTrip.ConverterOutputParses requires that the base name of
  the raw path does not begin with a blank, because the parser trims the
  value. It also requires that the base name has no line break, because the
  line split would cut the `data file` line, and that the extents fit in
  int32. The weaker
  promise that the data file is never missing holds without the first and
  last conditions; ConverterRoundTrip.NeverMissingDataFile states it.
- The `dimension` value, the values of `type`, `encoding` and `endian`, byte
  swapping, min/max statistics, spacing and origin are not modelled. The code
  has no logic for any of them.
