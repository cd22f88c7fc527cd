/**
 Laws of the NRRD header parser. The central one reads a parsed header off
 its lines without running the loop: each string field is the value on the
 LAST line carrying its key, the sizes come from the last `sizes` line, and
 the outcome is decided by the magic, then any invalid `sizes` line, then
 the final data-file name, in that order.
 */
module HeaderLaws {
  import opened Results
  import opened Text
  import opened Decimal
  import opened NrrdHeader

  // ---------------------------------------------------------------------------
  // Integer lists
  // ---------------------------------------------------------------------------

  /**
   Keeping the int tokens distributes over concatenation: the values of a
   token list are the values of its parts, in order. With the one-token case
   this pins KeepInts down as an order-preserving filter.
   */
  lemma {:induction false} KeepIntsAppend(a: seq<string>, b: seq<string>)
    ensures KeepInts(a + b) == KeepInts(a) + KeepInts(b)
  {
    if |a| == 0 {
      assert a + b == b;
    } else {
      assert (a + b)[0] == a[0];
      assert (a + b)[1..] == a[1..] + b;
      KeepIntsAppend(a[1..], b);
    }
  }

  /** One token contributes its value when it parses and nothing when it does not. */
  lemma KeepIntsSingle(t: string)
    ensures TryParseInt32(t).Some? ==> KeepInts([t]) == [TryParseInt32(t).value]
    ensures TryParseInt32(t).None? ==> KeepInts([t]) == []
  {
    assert [t][1..] == [];
  }

  /** An unparseable token in the middle is silently dropped: "2 x 2 2" gives [2, 2, 2]. */
  lemma ParseIntListDropsBadToken()
    ensures ParseIntList("2 x 2 2") == (true, [2, 2, 2])
  {
    SplitExample();
    ExampleTokens();
    KeepSkipsSecond("2", "x", "2", "2", 2, 2, 2);
  }

  lemma ExampleTokens()
    ensures KeepInts(["2"]) == [2] && KeepInts(["x"]) == []
  {
    KeepIntsSingle("2");
    KeepIntsSingle("x");
  }

  /** Four tokens of which the second is dropped keep the other three values in order. */
  lemma KeepSkipsSecond(a: string, b: string, c: string, d: string, x: int32, y: int32, z: int32)
    requires KeepInts([a]) == [x] && KeepInts([b]) == [] && KeepInts([c]) == [y] && KeepInts([d]) == [z]
    ensures KeepInts([a, b, c, d]) == [x, y, z]
  {
    KeepConcat4([a], [b], [c], [d], [x], [], [y], [z]);
    assert [a, b, c, d] == [a] + [b] + [c] + [d];
    assert [x, y, z] == [x] + [] + [y] + [z];
  }

  /** The values kept from four token lists, put together. */
  lemma KeepConcat4(p1: seq<string>, p2: seq<string>, p3: seq<string>, p4: seq<string>,
                    u1: seq<int32>, u2: seq<int32>, u3: seq<int32>, u4: seq<int32>)
    requires KeepInts(p1) == u1 && KeepInts(p2) == u2 && KeepInts(p3) == u3 && KeepInts(p4) == u4
    ensures KeepInts(p1 + p2 + p3 + p4) == u1 + u2 + u3 + u4
  {
    KeepIntsAppend(p1, p2);
    KeepIntsAppend(p1 + p2, p3);
    KeepIntsAppend(p1 + p2 + p3, p4);
  }

  lemma SplitExample()
    ensures Split("2 x 2 2", IsSpace) == ["2", "x", "2", "2"]
  {
    var tokens := ["2", "x", "2", "2"];
    assert Join(tokens, " ") == "2 x 2 2" by {
      assert Join(tokens[3..], " ") == "2";
      assert Join(tokens[2..], " ") == "2 2";
      assert Join(tokens[1..], " ") == "x 2 2";
    }
    SplitJoin(tokens, ' ', "", IsSpace);
    assert Join(tokens, [' ']) + "" == "2 x 2 2";
    assert tokens + Split("", IsSpace) == tokens;
  }

  // ---------------------------------------------------------------------------
  // A reference reading of the header lines
  // ---------------------------------------------------------------------------

  /** A line whose key is `sizes` but whose value is not exactly three int32s. */
  predicate IsInvalidSizesLine(line: string) {
    var k := ClassifyLine(line);
    k.Field? && k.key == "sizes" && ParseSizes(k.value).None?
  }

  predicate HasInvalidSizesLine(lines: seq<string>) {
    exists i :: 0 <= i < |lines| && IsInvalidSizesLine(lines[i])
  }

  /** A line whose key is `key`. */
  predicate HasKey(line: string, key: string) {
    var k := ClassifyLine(line);
    k.Field? && k.key == key
  }

  /** The value on the last line whose key is `key`, or `absent` when there is none. */
  function LastValue(lines: seq<string>, key: string, absent: string): string
  {
    if |lines| == 0 then absent
    else if HasKey(lines[|lines| - 1], key) then ClassifyLine(lines[|lines| - 1]).value
    else LastValue(lines[..|lines| - 1], key, absent)
  }

  /**
   The three tokens (file order) of the last valid `sizes` line, or `absent`
   when there is none.
   */
  function LastSizes(lines: seq<string>, absent: (int32, int32, int32)): (int32, int32, int32)
  {
    if |lines| == 0 then absent
    else
      var k := ClassifyLine(lines[|lines| - 1]);
      if k.Field? && k.key == "sizes" && ParseSizes(k.value).Some? then ParseSizes(k.value).value
      else LastSizes(lines[..|lines| - 1], absent)
  }

  /**
   The record the lines leave behind, starting from h: every field is taken
   from the last line that sets it; the first sizes token is Z, the last is X.
   */
  function FinalHeader(h: HeaderInfo, lines: seq<string>): HeaderInfo
  {
    var (z, y, x) := LastSizes(lines, (h.sizeZ, h.sizeY, h.sizeX));
    HeaderInfo(
      x, y, z,
      LastValue(lines, "data file", h.dataFileName),
      LastValue(lines, "type", h.typeName),
      LastValue(lines, "encoding", h.encoding),
      LastValue(lines, "endian", h.endian))
  }

  // ---------------------------------------------------------------------------
  // The line loop
  // ---------------------------------------------------------------------------

  /** Running the loop over a + b is running it over a, then (if that succeeded) over b. */
  lemma {:induction false} ApplyLinesAppend(h: HeaderInfo, a: seq<string>, b: seq<string>)
    ensures ApplyLines(h, a + b) ==
              match ApplyLines(h, a)
              case Failure(e) => Failure(e)
              case Success(h') => ApplyLines(h', b)
    decreases |a|
  {
    if |a| == 0 {
      assert a + b == b;
    } else {
      assert (a + b)[0] == a[0];
      assert (a + b)[1..] == a[1..] + b;
      match ApplyLine(h, a[0])
      case Failure(e) =>
      case Success(next) => ApplyLinesAppend(next, a[1..], b);
    }
  }

  /** One more line at the end: the reference reading of the longer list. */
  lemma ApplyLastLine(h: HeaderInfo, init: seq<string>, x: string)
    requires !HasInvalidSizesLine(init)
    ensures ApplyLine(FinalHeader(h, init), x) ==
              if IsInvalidSizesLine(x) then Failure(InvalidSizes) else Success(FinalHeader(h, init + [x]))
  {
    var lines := init + [x];
    assert lines[..|lines| - 1] == init;
    assert lines[|lines| - 1] == x;
  }

  lemma InvalidSizesLineSnoc(init: seq<string>, x: string)
    ensures HasInvalidSizesLine(init + [x]) <==> HasInvalidSizesLine(init) || IsInvalidSizesLine(x)
  {
    SomeSnoc(init, x, IsInvalidSizesLine);
  }

  /** Some element of init + [x] satisfies p iff some element of init does or x does. */
  lemma SomeSnoc(init: seq<string>, x: string, p: string -> bool)
    ensures (exists i :: 0 <= i < |init + [x]| && p((init + [x])[i]))
            <==> (exists i :: 0 <= i < |init| && p(init[i])) || p(x)
  {
    var lines := init + [x];
    if exists i :: 0 <= i < |init| && p(init[i]) {
      var i :| 0 <= i < |init| && p(init[i]);
      assert lines[i] == init[i];
    }
    if p(x) {
      assert lines[|lines| - 1] == x;
    }
    if exists i :: 0 <= i < |lines| && p(lines[i]) {
      var i :| 0 <= i < |lines| && p(lines[i]);
      if i < |init| {
        assert lines[i] == init[i];
      }
    }
  }

  /**
   The loop agrees with the reference reading: it fails (with InvalidSizes)
   exactly when some line is an invalid `sizes` line, and otherwise every
   field holds the value of the last line that sets it.
   */
  lemma {:induction false} ApplyLinesIsLastWins(h: HeaderInfo, lines: seq<string>)
    ensures ApplyLines(h, lines) ==
              if HasInvalidSizesLine(lines) then Failure(InvalidSizes) else Success(FinalHeader(h, lines))
    decreases |lines|
  {
    if |lines| == 0 {
      assert FinalHeader(h, lines) == h;
    } else {
      var init := lines[..|lines| - 1];
      var x := lines[|lines| - 1];
      assert lines == init + [x];
      ApplyLinesAppend(h, init, [x]);
      ApplyLinesIsLastWins(h, init);
      InvalidSizesLineSnoc(init, x);
      if !HasInvalidSizesLine(init) {
        ApplyLastLine(h, init, x);
        assert ApplyLines(FinalHeader(h, init), [x]) == ApplyLine(FinalHeader(h, init), x) by {
          assert [x][0] == x && [x][1..] == [];
        }
      }
    }
  }

  // ---------------------------------------------------------------------------
  // The parser
  // ---------------------------------------------------------------------------

  /**
   The parser's outcome read off its lines. The magic check precedes
   everything; an invalid `sizes` line anywhere beats a missing data file;
   on success the record is the reference reading from the default record.
   */
  lemma ParseLinesCharacterised(lines: seq<string>)
    ensures ParseLines(lines) ==
              if !HasMagic(lines) then Failure(NotNrrd)
              else if HasInvalidSizesLine(lines) then Failure(InvalidSizes)
              else if LastValue(lines, "data file", "") == "" then Failure(MissingDataFile)
              else Success(FinalHeader(DefaultHeader, lines))
  {
    ApplyLinesIsLastWins(DefaultHeader, lines);
  }

  /**
   The magic is matched without regard to ASCII case: a lower-case first line
   passes, a different word or a missing first line does not.
   */
  lemma MagicIgnoresCase()
    ensures HasMagic(["nrrd0004"]) && HasMagic(["Nrrd"])
    ensures !HasMagic(["NRRX0004"]) && !HasMagic(["NRR"]) && !HasMagic([])
  {
    assert LowerAscii("nrrd0004")[..4] == "nrrd";
    assert LowerAscii("Nrrd")[..4] == "nrrd";
    assert LowerAscii("NRRX0004")[3] == 'x';
  }

  /** Without any `sizes` line the sizes keep their default 0. */
  lemma {:induction false} LastSizesAbsent(lines: seq<string>, absent: (int32, int32, int32))
    requires forall i :: 0 <= i < |lines| ==> !HasKey(lines[i], "sizes")
    ensures LastSizes(lines, absent) == absent
    decreases |lines|
  {
    if |lines| > 0 {
      assert !HasKey(lines[|lines| - 1], "sizes");
      var init := lines[..|lines| - 1];
      assert forall i :: 0 <= i < |init| ==> init[i] == lines[i];
      LastSizesAbsent(init, absent);
    }
  }

  /** A header with no `sizes` line still parses, with all three sizes 0. */
  lemma NoSizesLineGivesZeroSizes(lines: seq<string>)
    requires HasMagic(lines)
    requires forall i :: 0 <= i < |lines| ==> !HasKey(lines[i], "sizes")
    requires LastValue(lines, "data file", "") != ""
    ensures ParseLines(lines).Success?
    ensures ParseLines(lines).value.sizeX == 0
    ensures ParseLines(lines).value.sizeY == 0
    ensures ParseLines(lines).value.sizeZ == 0
  {
    ParseLinesCharacterised(lines);
    forall i | 0 <= i < |lines|
      ensures !IsInvalidSizesLine(lines[i])
    {
      assert !HasKey(lines[i], "sizes");
    }
    LastSizesAbsent(lines, (0, 0, 0));
  }

  /** Without any line carrying `key`, the reference reading keeps the starting value. */
  lemma {:induction false} LastValueAbsent(lines: seq<string>, key: string, absent: string)
    requires forall i :: 0 <= i < |lines| ==> !HasKey(lines[i], key)
    ensures LastValue(lines, key, absent) == absent
    decreases |lines|
  {
    if |lines| > 0 {
      assert !HasKey(lines[|lines| - 1], key);
      var init := lines[..|lines| - 1];
      assert forall i :: 0 <= i < |init| ==> init[i] == lines[i];
      LastValueAbsent(init, key, absent);
    }
  }

  /**
   A parsed header keeps the default-constructed value of every string field
   that no line sets: the type, the encoding and the endianness stay empty.
   */
  lemma UnsetFieldsStayEmpty(lines: seq<string>)
    requires ParseLines(lines).Success?
    ensures (forall i :: 0 <= i < |lines| ==> !HasKey(lines[i], "type")) ==>
              ParseLines(lines).value.typeName == ""
    ensures (forall i :: 0 <= i < |lines| ==> !HasKey(lines[i], "encoding")) ==>
              ParseLines(lines).value.encoding == ""
    ensures (forall i :: 0 <= i < |lines| ==> !HasKey(lines[i], "endian")) ==>
              ParseLines(lines).value.endian == ""
  {
    ParseLinesCharacterised(lines);
    if forall i :: 0 <= i < |lines| ==> !HasKey(lines[i], "type") {
      LastValueAbsent(lines, "type", "");
    }
    if forall i :: 0 <= i < |lines| ==> !HasKey(lines[i], "encoding") {
      LastValueAbsent(lines, "encoding", "");
    }
    if forall i :: 0 <= i < |lines| ==> !HasKey(lines[i], "endian") {
      LastValueAbsent(lines, "endian", "");
    }
  }

  /**
   A line the loop ignores: a comment, a line without `:`, or a key the
   parser does not recognise (such as `dimension`).
   */
  predicate IsInert(line: string) {
    var k := ClassifyLine(line);
    k.Skipped? || k.key !in RecognisedKeys
  }

  /**
   Inserting an inert line anywhere after the first line changes nothing:
   neither the outcome nor any field of the record.
   */
  lemma InertLineChangesNothing(a: seq<string>, line: string, b: seq<string>)
    requires |a| > 0
    requires IsInert(line)
    ensures ParseLines(a + [line] + b) == ParseLines(a + b)
  {
    assert (a + [line] + b)[0] == a[0] == (a + b)[0];
    LoopSkipsInertLine(DefaultHeader, a, line, b);
    SameLoopSameParse(a + [line] + b, a + b);
  }

  /** The loop over a + [line] + b is the loop over a + b when the line is inert. */
  lemma LoopSkipsInertLine(h: HeaderInfo, a: seq<string>, line: string, b: seq<string>)
    requires IsInert(line)
    ensures ApplyLines(h, a + [line] + b) == ApplyLines(h, a + b)
  {
    assert a + [line] + b == a + ([line] + b);
    ApplyLinesAppend(h, a, [line] + b);
    ApplyLinesAppend(h, a, b);
    if ApplyLines(h, a).Success? {
      InertLineSkipped(ApplyLines(h, a).value, line, b);
    }
  }

  /** Two line lists with the same first line and the same loop result parse alike. */
  lemma SameLoopSameParse(x: seq<string>, y: seq<string>)
    requires |x| > 0 && |y| > 0 && x[0] == y[0]
    requires ApplyLines(DefaultHeader, x) == ApplyLines(DefaultHeader, y)
    ensures ParseLines(x) == ParseLines(y)
  {
  }

  /** The loop passes over an inert line without any effect. */
  lemma InertLineSkipped(h: HeaderInfo, line: string, b: seq<string>)
    requires IsInert(line)
    ensures ApplyLines(h, [line] + b) == ApplyLines(h, b)
  {
    assert ApplyLine(h, line) == Success(h);
    assert ([line] + b)[0] == line;
    assert ([line] + b)[1..] == b;
  }
}
