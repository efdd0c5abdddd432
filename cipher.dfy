/** SM4GCMCipher: the placeholder cipher. Nothing is encrypted: doFinal in
    encrypt mode returns the buffered data followed by an all-zero tag, and
    in decrypt mode checks that the trailing tag is all zero and strips
    it. The AAD is stored but never read by either direction. */
module CipherCore {
  import opened Wrappers
  import opened Bytes
  import opened Errors
  import opened Validator

  /** What performEncryption returns for a buffer: the buffer, unchanged,
      then tagLength / 8 zero bytes. */
  function Sealed(data: bytes, tagLength: int): (c: bytes)
    requires TagLengthOk(tagLength)
    ensures |c| == |data| + tagLength / 8
    ensures c[..|data|] == data && AllZero(c[|data|..])
  {
    data + Zeros(TagBytes(tagLength))
  }

  /** What performDecryption returns for a buffer: the length check first,
      then the all-zero tag check, then the buffer without its tag. */
  function Opened(buffer: bytes, tagLength: int): (r: Result<bytes, Error>)
    requires TagLengthOk(tagLength)
    ensures |buffer| < tagLength / 8 ==> r == Err(DecryptionFailed(CiphertextTooShort))
    ensures |buffer| >= tagLength / 8 && !AllZero(buffer[|buffer| - tagLength / 8..]) ==>
              r == Err(DecryptionFailed(AuthenticationFailed))
    ensures r.Ok? <==> |buffer| >= tagLength / 8 && AllZero(buffer[|buffer| - tagLength / 8..])
    ensures r.Ok? ==> Sealed(r.value, tagLength) == buffer
  {
    var n := TagBytes(tagLength);
    if |buffer| < n then
      Err(DecryptionFailed(CiphertextTooShort))
    else
      var tag := buffer[|buffer| - n..];
      var ciphertext := buffer[..|buffer| - n];
      if tag != Zeros(n) then
        Err(DecryptionFailed(AuthenticationFailed))
      else
        assert buffer == ciphertext + tag;
        Ok(ciphertext)
  }

  /** Decrypting what was encrypted gives back the data, for every
      tag length the cipher accepts. */
  lemma {:induction false} OpenedSealed(data: bytes, tagLength: int)
    requires TagLengthOk(tagLength)
    ensures Opened(Sealed(data, tagLength), tagLength) == Ok(data)
  {
    var c := Sealed(data, tagLength);
    assert c[|c| - tagLength / 8..] == c[|data|..];
    assert c[..|c| - tagLength / 8] == data;
  }

  /** init's checks, in the order it makes them: key, then nonce, then tag
      length. The SM4GCM constructor makes the same three checks. */
  function CheckInit(key: bytes, iv: bytes, tagLength: int): (r: Outcome<Error>)
    ensures r.Pass? <==> |key| == 16 && 1 <= |iv| <= 128 && 32 <= tagLength <= 128 && tagLength % 8 == 0
    ensures |key| != 16 ==> r == Fail(InvalidParameter(KeySize(|key|)))
    ensures |key| == 16 && !(1 <= |iv| <= 128) ==> r == Fail(InvalidParameter(NonceSize(|iv|)))
    ensures |key| == 16 && 1 <= |iv| <= 128 && r.Fail? ==> r == Fail(InvalidParameter(TagLength(tagLength)))
  {
    if ValidateKey(key).Fail? then ValidateKey(key)
    else if ValidateNonce(iv).Fail? then ValidateNonce(iv)
    else if !TagLengthOk(tagLength) then Fail(InvalidParameter(TagLength(tagLength)))
    else Pass
  }

  class SM4GCMCipher {
    var key: bytes
    var iv: bytes
    var tagLength: int
    var encrypt: bool
    var aad: Option<bytes>
    var buffer: bytes
    var initialized: bool

    /** Once initialized, the configuration is one init accepted. */
    predicate Valid()
      reads this
    {
      initialized ==> CheckInit(key, iv, tagLength).Pass?
    }

    /** The state of a new cipher, which reset restores. */
    predicate IsFresh()
      reads this
    {
      !initialized && buffer == [] && aad == None
    }

    constructor ()
      ensures Valid() && IsFresh()
    {
      aad := None;
      buffer := [];
      initialized := false;
    }

    /** init: all three checks come before any assignment, so a rejected
        init leaves the cipher as it was. An accepted one sets the
        configuration, empties the buffer and keeps the stored AAD. */
    method Init(key: bytes, iv: bytes, tagLength: int, encrypt: bool) returns (r: Outcome<Error>)
      requires Valid()
      modifies this
      ensures Valid()
      ensures r == CheckInit(key, iv, tagLength)
      ensures r.Fail? ==> unchanged(this)
      ensures r.Pass? ==>
                && this.key == key && this.iv == iv && this.tagLength == tagLength
                && this.encrypt == encrypt && buffer == [] && initialized
                && aad == old(aad)
    {
      r := CheckInit(key, iv, tagLength);
      if r.Fail? {
        return;
      }
      this.key := key;
      this.iv := iv;
      this.tagLength := tagLength;
      this.encrypt := encrypt;
      buffer := [];
      initialized := true;
    }

    /** updateAAD: replaces the stored AAD; it does not append to it. */
    method UpdateAAD(aad: bytes) returns (r: Outcome<Error>)
      requires Valid()
      modifies this
      ensures Valid()
      ensures r.Fail? <==> !old(initialized)
      ensures r.Fail? ==> r.error == NotInitialized && unchanged(this)
      ensures r.Pass? ==> this.aad == Some(aad)
      ensures key == old(key) && iv == old(iv) && tagLength == old(tagLength) && encrypt == old(encrypt)
      ensures buffer == old(buffer) && initialized == old(initialized)
    {
      if !initialized {
        return Fail(NotInitialized);
      }
      r := ValidateAAD(Some(aad));
      this.aad := Some(aad);
    }

    /** update: appends to the buffer and returns nothing yet. */
    method Update(data: bytes) returns (r: Result<bytes, Error>)
      requires Valid()
      modifies this`buffer
      ensures Valid()
      ensures old(initialized) ==> r == Ok([]) && buffer == old(buffer) + data
      ensures !old(initialized) ==> r == Err(NotInitialized) && buffer == old(buffer)
    {
      if !initialized {
        return Err(NotInitialized);
      }
      buffer := buffer + data;
      r := Ok([]);
    }

    /** doFinal: appends its argument, then returns the encrypt- or
        decrypt-mode result for the whole buffer. The buffer is not cleared
        and the cipher stays initialized. */
    method DoFinal(data: bytes := []) returns (r: Result<bytes, Error>)
      requires Valid()
      modifies this`buffer
      ensures Valid()
      ensures !old(initialized) ==> r == Err(NotInitialized) && buffer == old(buffer)
      ensures old(initialized) ==> buffer == old(buffer) + data
      ensures old(initialized) && encrypt ==> r == Ok(Sealed(buffer, tagLength))
      ensures old(initialized) && !encrypt ==> r == Opened(buffer, tagLength)
    {
      if !initialized {
        return Err(NotInitialized);
      }
      buffer := buffer + data;
      if encrypt {
        var out := PerformEncryption();
        r := Ok(out);
      } else {
        r := PerformDecryption();
      }
    }

    /** reset: back to the state of a new cipher. The configuration fields
        keep their values but are unreachable until the next init. */
    method Reset()
      requires Valid()
      modifies this
      ensures Valid() && IsFresh()
      ensures key == old(key) && iv == old(iv) && tagLength == old(tagLength) && encrypt == old(encrypt)
    {
      aad := None;
      buffer := [];
      initialized := false;
    }

    /** performEncryption: the buffer followed by an all-zero tag. */
    method PerformEncryption() returns (out: bytes)
      requires Valid() && initialized
      ensures |out| == |buffer| + tagLength / 8
      ensures out == Sealed(buffer, tagLength)
    {
      var tag := Zeros(tagLength / 8);
      out := buffer + tag;
    }

    /** performDecryption: rejects a buffer shorter than the tag or whose
        tag is not all zero; otherwise returns the buffer without the tag.
        The stored AAD is not consulted. */
    method PerformDecryption() returns (r: Result<bytes, Error>)
      requires Valid() && initialized
      ensures r == Opened(buffer, tagLength)
    {
      var tagLengthBytes := tagLength / 8;
      if |buffer| < tagLengthBytes {
        return Err(DecryptionFailed(CiphertextTooShort));
      }
      var tag := buffer[|buffer| - tagLengthBytes..];
      var ciphertext := buffer[..|buffer| - tagLengthBytes];
      if tag != Zeros(tagLengthBytes) {
        return Err(DecryptionFailed(AuthenticationFailed));
      }
      r := Ok(ciphertext);
    }
  }
}
