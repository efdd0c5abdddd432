/** SM4GCMParameters: an immutable IV and tag-length pair, validated on
    construction, with a binary form
      1 byte  |iv| modulo 256 (`pack('C')`)
      |iv|    the IV
      4 bytes the tag length in bits, big-endian (`pack('N')`). */
module Parameters {
  import opened Wrappers
  import opened Bytes
  import opened Errors
  import opened Validator

  const DefaultTagLength: int := 128

  datatype SM4GCMParameters = SM4GCMParameters(iv: bytes, tagLength: int) {

    function GetIV(): bytes {
      iv
    }

    function GetTagLength(): int {
      tagLength
    }

    /** What the constructor establishes. */
    predicate Valid() {
      Validate(iv, tagLength).Pass?
    }
  }

  /** validate(): the IV must not be PHP-empty ("" or "0"), then the tag
      length must be a multiple of 8 from 32 to 128. */
  function Validate(iv: bytes, tagLength: int): (r: Outcome<Error>)
    ensures r.Pass? <==> iv != [] && iv != [0x30] && 32 <= tagLength <= 128 && tagLength % 8 == 0
    ensures iv == [] || iv == [0x30] ==> r == Fail(InvalidParameter(EmptyIv))
    ensures r.Fail? && !PhpEmpty(iv) ==> r == Fail(InvalidParameter(TagLength(tagLength)))
  {
    if PhpEmpty(iv) then Fail(InvalidParameter(EmptyIv))
    else if !TagLengthOk(tagLength) then Fail(InvalidParameter(TagLength(tagLength)))
    else Pass
  }

  /** The constructor: the object exists only if validate() passes, and
      then its getters give back exactly the arguments. */
  function New(iv: bytes, tagLength: int := DefaultTagLength): (r: Result<SM4GCMParameters, Error>)
    ensures r.Ok? <==> Validate(iv, tagLength).Pass?
    ensures r.Ok? ==> r.value.Valid() && r.value.GetIV() == iv && r.value.GetTagLength() == tagLength
    ensures r.Err? ==> Validate(iv, tagLength) == Fail(r.error)
  {
    match Validate(iv, tagLength)
    case Fail(e) => Err(e)
    case Pass => Ok(SM4GCMParameters(iv, tagLength))
  }

  /** encode(). */
  function Encode(p: SM4GCMParameters): (e: bytes)
    ensures |e| == 1 + |p.iv| + 4
    ensures e[0] == |p.iv| % 256
    ensures e[1..1 + |p.iv|] == p.iv
    ensures UnpackN(e[|e| - 4..]) == p.tagLength % TwoTo32
  {
    var e := PackC(|p.iv|) + p.iv + PackN(p.tagLength);
    assert e[|e| - 4..] == PackN(p.tagLength);
    e
  }

  /** decode(): at least 5 bytes, then at least 1 + L + 4 bytes for the
      declared IV length L; bytes after those are ignored; the result goes
      through the constructor's validation. */
  function Decode(encoded: bytes): (r: Result<SM4GCMParameters, Error>)
    ensures |encoded| < 5 ==> r == Err(InvalidParameter(MalformedEncoding))
    ensures |encoded| >= 5 && |encoded| < 1 + encoded[0] as int + 4 ==> r == Err(InvalidParameter(MalformedEncoding))
    ensures r.Ok? ==> r.value.Valid() && |r.value.iv| == encoded[0]
    ensures |encoded| >= 5 && |encoded| >= 1 + encoded[0] as int + 4 ==>
              var n := encoded[0] as int;
              var check := Validate(encoded[1..1 + n], UnpackN(encoded[1 + n..1 + n + 4]));
              (r.Ok? <==> check.Pass?) && (r.Err? ==> check == Fail(r.error))
  {
    if |encoded| < 5 then
      Err(InvalidParameter(MalformedEncoding))
    else
      var ivLength := encoded[0] as int;
      if |encoded| < 1 + ivLength + 4 then
        Err(InvalidParameter(MalformedEncoding))
      else
        var iv := encoded[1..1 + ivLength];
        var tagLength := UnpackN(encoded[1 + ivLength..1 + ivLength + 4]);
        New(iv, tagLength)
  }

  /** Well-framed input still goes through the constructor's checks: a
      declared IV length of 0 or the IV "0" is the empty-IV error, and a
      tag length outside the rule is the tag-length error. */
  lemma DecodeInvalidPairs(noIv: bytes, zeroIv: bytes, badTag: bytes)
    requires noIv == [0, 0, 0, 0, 128]
    requires zeroIv == [1, 0x30, 0, 0, 0, 128]
    requires badTag == [1, 0x41, 0, 0, 0, 129]
    ensures Decode(noIv) == Err(InvalidParameter(EmptyIv))
    ensures Decode(zeroIv) == Err(InvalidParameter(EmptyIv))
    ensures Decode(badTag) == Err(InvalidParameter(TagLength(129)))
  {
    assert noIv[1..5] == [0, 0, 0, 128];
    assert zeroIv[1..2] == [0x30] && zeroIv[2..6] == [0, 0, 0, 128];
    assert badTag[1..2] == [0x41] && badTag[2..6] == [0, 0, 0, 129];
  }

  /** Any valid parameter pair whose IV fits the one-byte length field
      survives encode then decode. */
  lemma EncodeDecodeRoundTrip(p: SM4GCMParameters)
    requires p.Valid() && |p.iv| <= 255
    ensures Decode(Encode(p)) == Ok(p)
  {
    var e := Encode(p);
    assert e[0] == |p.iv|;
    assert e[1 + |p.iv|..1 + |p.iv| + 4] == e[|e| - 4..];
  }

  /** Bytes after the declared parameters do not change what decode gives. */
  lemma DecodeIgnoresTrailing(encoded: bytes, extra: bytes)
    requires |encoded| >= 5 && |encoded| >= 1 + encoded[0] as int + 4
    ensures Decode(encoded + extra) == Decode(encoded)
  {
    var s := encoded + extra;
    var n := encoded[0] as int;
    assert s[0] == encoded[0];
    assert s[1..1 + n] == encoded[1..1 + n];
    assert s[1 + n..1 + n + 4] == encoded[1 + n..1 + n + 4];
  }

  /** The other direction: whatever decode accepts re-encodes to the bytes
      it was read from. */
  lemma DecodeEncodeRoundTrip(encoded: bytes)
    requires Decode(encoded).Ok?
    ensures var p := Decode(encoded).value;
      1 + |p.iv| + 4 <= |encoded| && Encode(p) == encoded[..1 + |p.iv| + 4]
  {
    var p := Decode(encoded).value;
    var n := encoded[0] as int;
    var tagBytes := encoded[1 + n..1 + n + 4];
    PackUnpackN(tagBytes);
    assert p.tagLength == UnpackN(tagBytes);
    assert Encode(p) == [encoded[0]] + encoded[1..1 + n] + tagBytes;
    assert encoded[..1 + n + 4] == [encoded[0]] + encoded[1..1 + n] + tagBytes;
  }

  /** Encoding after a round trip with trailing bytes still recovers the pair. */
  lemma EncodeDecodeWithTrailing(p: SM4GCMParameters, extra: bytes)
    requires p.Valid() && |p.iv| <= 255
    ensures Decode(Encode(p) + extra) == Ok(p)
  {
    EncodeDecodeRoundTrip(p);
    DecodeIgnoresTrailing(Encode(p), extra);
  }

  // ---------------------------------------------------------------------
  // The one-byte IV length field.
  //
  // The constructor accepts an IV of any non-empty length, while encode
  // writes only its length modulo 256, so a longer IV does not survive
  // the round trip: decode reads a shorter IV and takes the tag length
  // from bytes of the old IV.

  /** A 257-byte IV whose bytes 1 to 4 spell tag length 128. */
  function LongIv(): (iv: bytes)
    ensures |iv| == 257
  {
    [0x41, 0, 0, 0, 128] + seq(252, _ => 0x41)
  }

  /** Encode then decode of a valid pair with that IV gives a different,
      equally valid pair: the IV is cut to its first byte. */
  lemma LongIvDoesNotRoundTrip()
    ensures SM4GCMParameters(LongIv(), 128).Valid()
    ensures Decode(Encode(SM4GCMParameters(LongIv(), 128))) == Ok(SM4GCMParameters([0x41], 128))
  {
    var p := SM4GCMParameters(LongIv(), 128);
    var e := Encode(p);
    assert e[0] == 1;
    assert e[1..2] == [0x41];
    assert e[2..6] == [0, 0, 0, 128];
  }

  /** With an IV of exactly 256 bytes the length byte is 0, so decode
      reads an empty IV and rejects the encoding outright. */
  lemma Iv256DoesNotDecode(iv: bytes, tagLength: int)
    requires |iv| == 256 && SM4GCMParameters(iv, tagLength).Valid()
    ensures Decode(Encode(SM4GCMParameters(iv, tagLength))) == Err(InvalidParameter(EmptyIv))
  {
    var e := Encode(SM4GCMParameters(iv, tagLength));
    assert e[0] == 0;
    assert e[1..1] == [];
  }

  /** encode with the length check it lacks: an IV longer than 255 bytes is
      refused instead of written with a wrapped length. */
  function EncodeChecked(p: SM4GCMParameters): (r: Result<bytes, Error>)
    ensures r.Ok? <==> |p.iv| <= 255
    ensures r.Ok? ==> r.value == Encode(p)
  {
    if |p.iv| > 255 then Err(InvalidParameter(MalformedEncoding)) else Ok(Encode(p))
  }

  /** Every valid pair that EncodeChecked accepts decodes back to itself. */
  lemma EncodeCheckedRoundTrip(p: SM4GCMParameters)
    requires p.Valid()
    ensures EncodeChecked(p).Ok? ==> Decode(EncodeChecked(p).value) == Ok(p)
  {
    if EncodeChecked(p).Ok? {
      EncodeDecodeRoundTrip(p);
    }
  }
}
