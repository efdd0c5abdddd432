/** SM4GCM: the front end. Key, IV and tag length are fixed at construction;
    an instance AAD can be set and cleared; every encrypt and decrypt
    drives the inner cipher from a reset through init, updateAAD, update
    and doFinal, so no call sees the cipher state an earlier call left. */
module Gcm {
  import opened Wrappers
  import opened Bytes
  import opened Errors
  import opened Validator
  import opened CipherCore

  /** The AAD an encrypt or decrypt hands to the cipher, given the instance
      AAD and the per-call AAD. PHP's `empty()` decides: when both are
      empty updateAAD is not called at all; a non-empty instance AAD is
      put in front of the per-call AAD, and an empty one is dropped. */
  function CombinedAad(instanceAad: Option<bytes>, aad: bytes): (r: Option<bytes>)
    ensures r.None? <==> PhpEmpty(aad) && PhpEmptyOrNull(instanceAad)
    ensures !PhpEmptyOrNull(instanceAad) ==> r == Some(instanceAad.value + aad)
    ensures PhpEmptyOrNull(instanceAad) && !PhpEmpty(aad) ==> r == Some(aad)
  {
    if !PhpEmpty(aad) || !PhpEmptyOrNull(instanceAad) then
      var combined := if !PhpEmptyOrNull(instanceAad) then instanceAad.value + aad else aad;
      Some(combined)
    else
      None
  }

  class SM4GCM {
    const key: bytes
    const iv: bytes
    const tagLength: int
    var aad: Option<bytes>
    const cipher: SM4GCMCipher

    predicate Valid()
      reads this, cipher
    {
      CheckInit(key, iv, tagLength).Pass? && cipher.Valid()
    }

    /** The constructor proper, for a configuration already checked. */
    constructor (key: bytes, iv: bytes, tagLength: int)
      requires CheckInit(key, iv, tagLength).Pass?
      ensures Valid() && fresh(cipher) && cipher.IsFresh()
      ensures this.key == key && this.iv == iv && this.tagLength == tagLength && aad == None
    {
      this.key := key;
      this.iv := iv;
      this.tagLength := tagLength;
      aad := None;
      cipher := new SM4GCMCipher();
    }

    /** `new SM4GCM($key, $iv, $tagLength)`: rejects a key that is not 16
        bytes, a nonce outside 1 to 128 bytes and a tag length that is not
        a multiple of 8 from 32 to 128, in that order. */
    static method Create(key: bytes, iv: bytes, tagLength: int := 128) returns (r: Result<SM4GCM, Error>)
      ensures r.Ok? <==> CheckInit(key, iv, tagLength).Pass?
      ensures r.Err? ==> CheckInit(key, iv, tagLength) == Fail(r.error)
      ensures r.Ok? ==> fresh(r.value) && fresh(r.value.cipher) && r.value.Valid()
      ensures r.Ok? ==> r.value.key == key && r.value.iv == iv && r.value.tagLength == tagLength
      ensures r.Ok? ==> r.value.aad == None && r.value.cipher.IsFresh()
    {
      var check := CheckInit(key, iv, tagLength);
      if check.Fail? {
        return Err(check.error);
      }
      var g := new SM4GCM(key, iv, tagLength);
      r := Ok(g);
    }

    /** encrypt: the plaintext followed by tagLength / 8 zero bytes, whatever
        the AAD and whatever earlier calls did. It cannot fail: the
        constructor already made the checks init repeats. The cipher is
        left initialized for encryption, holding the plaintext and the
        combined AAD. */
    method Encrypt(plaintext: bytes, aad: bytes := []) returns (ciphertext: bytes)
      requires Valid()
      modifies cipher
      ensures Valid() && this.aad == old(this.aad)
      ensures ciphertext == Sealed(plaintext, tagLength)
      ensures cipher.initialized && cipher.encrypt && cipher.buffer == plaintext
      ensures cipher.key == key && cipher.iv == iv && cipher.tagLength == tagLength
      ensures cipher.aad == CombinedAad(this.aad, aad)
    {
      cipher.Reset();
      var started := cipher.Init(key, iv, tagLength, true);
      var combined := CombinedAad(this.aad, aad);
      if combined.Some? {
        var stored := cipher.UpdateAAD(combined.value);
      }
      var result := cipher.Update(plaintext);
      var final := cipher.DoFinal();
      ciphertext := result.value + final.value;
    }

    /** decrypt: rejects input shorter than the tag or whose trailing tag is
        not all zero, and otherwise returns it without the tag. The AAD,
        per call or per instance, has no influence on the result. */
    method Decrypt(ciphertext: bytes, aad: bytes := []) returns (r: Result<bytes, Error>)
      requires Valid()
      modifies cipher
      ensures Valid() && this.aad == old(this.aad)
      ensures r == Opened(ciphertext, tagLength)
      ensures cipher.initialized && !cipher.encrypt && cipher.buffer == ciphertext
      ensures cipher.key == key && cipher.iv == iv && cipher.tagLength == tagLength
      ensures cipher.aad == CombinedAad(this.aad, aad)
    {
      cipher.Reset();
      var started := cipher.Init(key, iv, tagLength, false);
      var combined := CombinedAad(this.aad, aad);
      if combined.Some? {
        var stored := cipher.UpdateAAD(combined.value);
      }
      var result := cipher.Update(ciphertext);
      var final := cipher.DoFinal();
      assert cipher.buffer == ciphertext;
      if final.Err? {
        return Err(final.error);
      }
      assert result.value + final.value == final.value;
      r := Ok(result.value + final.value);
    }

    /** updateAAD: stores the instance AAD; the cipher is not touched. */
    method UpdateAAD(aad: bytes)
      requires Valid()
      modifies this
      ensures Valid() && this.aad == Some(aad)
    {
      var checked := ValidateAAD(Some(aad));
      this.aad := Some(aad);
    }

    /** reset: clears the instance AAD and resets the cipher. */
    method Reset()
      requires Valid()
      modifies this, cipher
      ensures Valid() && aad == None && cipher.IsFresh()
      ensures cipher.key == old(cipher.key) && cipher.iv == old(cipher.iv)
      ensures cipher.tagLength == old(cipher.tagLength) && cipher.encrypt == old(cipher.encrypt)
    {
      aad := None;
      cipher.Reset();
    }
  }

  /** A client of the specifications above: decrypting what encrypt
      returned gives the plaintext back, with any AAD on either side, and
      a reset or AAD change in between makes no difference. */
  method EncryptThenDecrypt(g: SM4GCM, plaintext: bytes, aad: bytes, otherAad: bytes, instanceAad: bytes)
    returns (decrypted: Result<bytes, Error>)
    requires g.Valid()
    modifies g, g.cipher
    ensures decrypted == Ok(plaintext)
  {
    var ciphertext := g.Encrypt(plaintext, aad);
    g.UpdateAAD(instanceAad);
    decrypted := g.Decrypt(ciphertext, otherAad);
    OpenedSealed(plaintext, g.tagLength);
  }
}
