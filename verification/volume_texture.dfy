/**
 The byte work of building the 16-bit volume texture: the expected payload
 length for a header, the copy of at most that many input bytes into the
 texture's single mip and the zero fill of the remainder, and the load
 entry point that chains header parsing to it. Texture objects, their
 settings and logging belong to the engine and are not modelled; the mip is
 the byte sequence the texture source ends up holding.
 */
module VolumeTexture {
  import opened Results
  import opened Decimal
  import opened Text
  import opened NrrdHeader

  const INT64_MAX: int := 0x7FFF_FFFF_FFFF_FFFF

  /** Bytes per voxel of the single-channel 16-bit texture format. */
  const BytesPerVoxel: int := 2

  /** SX * SY * SZ * 2, the mip's size in bytes (the source computes it in int64). */
  function ExpectedBytes(sx: int32, sy: int32, sz: int32): (n: int)
    ensures 0 <= sx && 0 <= sy && 0 <= sz ==> n >= 0
  {
    var xy := sx * sy;
    assert 0 <= sx && 0 <= sy ==> xy >= 0;
    var xyz := xy * sz;
    assert xy >= 0 && 0 <= sz ==> xyz >= 0;
    xyz * BytesPerVoxel
  }

  /**
   The copy is well defined: no size is negative (a negative product would
   hand a negative length to the copy) and the product does not overflow int64.
   */
  predicate CopyIsDefined(sx: int32, sy: int32, sz: int32) {
    0 <= sx && 0 <= sy && 0 <= sz && ExpectedBytes(sx, sy, sz) <= INT64_MAX
  }

  /** The reference payload: the input cut or zero-padded to the expected length. */
  function Fit(bytes: seq<bv8>, sx: int32, sy: int32, sz: int32): (r: seq<bv8>)
    requires CopyIsDefined(sx, sy, sz)
    ensures |r| == ExpectedBytes(sx, sy, sz)
    ensures forall i :: 0 <= i < |r| ==> r[i] == if i < |bytes| then bytes[i] else 0
  {
    var n := ExpectedBytes(sx, sy, sz);
    if n <= |bytes| then bytes[..n] else bytes + seq(n - |bytes|, _ => 0)
  }

  /** An input of exactly the expected length is used as it is. */
  lemma FitExactIsIdentity(bytes: seq<bv8>, sx: int32, sy: int32, sz: int32)
    requires CopyIsDefined(sx, sy, sz)
    requires |bytes| == ExpectedBytes(sx, sy, sz)
    ensures Fit(bytes, sx, sy, sz) == bytes
  {
  }

  /** Fitting an already fitted buffer changes nothing. */
  lemma FitIdempotent(bytes: seq<bv8>, sx: int32, sy: int32, sz: int32)
    requires CopyIsDefined(sx, sy, sz)
    ensures Fit(Fit(bytes, sx, sy, sz), sx, sy, sz) == Fit(bytes, sx, sy, sz)
  {
    FitExactIsIdentity(Fit(bytes, sx, sy, sz), sx, sy, sz);
  }

  /**
   Input bytes past the expected length never matter, and padding the input
   with zeros up to any length does not either.
   */
  lemma FitIgnoresTailAndZeros(bytes: seq<bv8>, zeros: nat, sx: int32, sy: int32, sz: int32)
    requires CopyIsDefined(sx, sy, sz)
    ensures |bytes| >= ExpectedBytes(sx, sy, sz) ==>
              Fit(bytes, sx, sy, sz) == bytes[..ExpectedBytes(sx, sy, sz)]
    ensures Fit(bytes + seq(zeros, _ => 0), sx, sy, sz) == Fit(bytes, sx, sy, sz)
  {
    var padded := bytes + seq(zeros, _ => 0);
    assert forall i :: 0 <= i < |padded| ==> padded[i] == if i < |bytes| then bytes[i] else 0;
  }

  /**
   The buffer step of texture creation: a mip of the expected size, into
   which min(expected, |bytes|) input bytes are copied and whose remainder,
   if any, is set to zero. The mip's bytes are undefined until written.
   */
  method FillMip(bytes: seq<bv8>, sx: int32, sy: int32, sz: int32) returns (mip: seq<bv8>)
    requires CopyIsDefined(sx, sy, sz)
    ensures |mip| == ExpectedBytes(sx, sy, sz)
    ensures forall i :: 0 <= i < |mip| && i < |bytes| ==> mip[i] == bytes[i]
    ensures forall i :: |bytes| <= i < |mip| ==> mip[i] == 0
    ensures mip == Fit(bytes, sx, sy, sz)
  {
    var expected := ExpectedBytes(sx, sy, sz);
    var dest := new bv8[expected];
    var copyBytes := if expected < |bytes| then expected else |bytes|;
    var i := 0;
    while i < copyBytes
      invariant 0 <= i <= copyBytes
      invariant forall k :: 0 <= k < i ==> dest[k] == bytes[k]
    {
      dest[i] := bytes[i];
      i := i + 1;
    }
    if copyBytes < expected {
      var j := copyBytes;
      while j < expected
        invariant copyBytes <= j <= expected
        invariant forall k :: 0 <= k < copyBytes ==> dest[k] == bytes[k]
        invariant forall k :: copyBytes <= k < j ==> dest[k] == 0
      {
        dest[j] := 0;
        j := j + 1;
      }
    }
    mip := dest[..];
    assert forall k :: 0 <= k < |mip| ==> mip[k] == Fit(bytes, sx, sy, sz)[k];
  }

  /** The texture source: width, height, depth and the one mip of 16-bit voxels. */
  datatype VolumeSource = VolumeSource(sizeX: int32, sizeY: int32, sizeZ: int32, mip: seq<bv8>)

  /** Creates the volume source for a parsed header from raw bytes of any length. */
  method CreateVolumeSource(h: HeaderInfo, bytes: seq<bv8>) returns (v: VolumeSource)
    requires CopyIsDefined(h.sizeX, h.sizeY, h.sizeZ)
    ensures v.sizeX == h.sizeX && v.sizeY == h.sizeY && v.sizeZ == h.sizeZ
    ensures |v.mip| == h.sizeX * h.sizeY * h.sizeZ * 2
    ensures v.mip == Fit(bytes, h.sizeX, h.sizeY, h.sizeZ)
  {
    var mip := FillMip(bytes, h.sizeX, h.sizeY, h.sizeZ);
    v := VolumeSource(h.sizeX, h.sizeY, h.sizeZ, mip);
  }

  /** A parsed header's sizes give a well-defined copy (a failed parse copies nothing). */
  predicate Loadable(r: Result<HeaderInfo, ParseError>) {
    r.Success? ==> CopyIsDefined(r.value.sizeX, r.value.sizeY, r.value.sizeZ)
  }

  /** Why loading stopped: the header did not parse, or the raw data could not be loaded. */
  datatype LoadError = HeaderFailed(cause: ParseError) | RawFailed

  /**
   Loading an intensity volume: parse the header (None is a header file that
   could not be read), stop with the parse error on failure; then take the
   raw data (None is a data file that is missing or could not be read), stop
   if there is none; otherwise build the volume source from the raw bytes.
   */
  method LoadIntensity(text: Option<string>, raw: Option<seq<bv8>>) returns (r: Result<VolumeSource, LoadError>)
    requires raw.Some? ==> Loadable(ParseHeaderFile(text))
    ensures ParseHeaderFile(text).Failure? ==> r == Failure(HeaderFailed(ParseHeaderFile(text).error))
    ensures ParseHeaderFile(text).Success? && raw.None? ==> r == Failure(RawFailed)
    ensures r.Success? <==> ParseHeaderFile(text).Success? && raw.Some?
    ensures r.Success? ==>
              var h := ParseHeaderFile(text).value;
              r.value == VolumeSource(h.sizeX, h.sizeY, h.sizeZ, Fit(raw.value, h.sizeX, h.sizeY, h.sizeZ))
  {
    var parsed := ParseHeaderFile(text);
    match parsed
    case Failure(e) =>
      r := Failure(HeaderFailed(e));
    case Success(h) =>
      match raw
      case None =>
        r := Failure(RawFailed);
      case Some(bytes) =>
        var v := CreateVolumeSource(h, bytes);
        r := Success(v);
  }
}
