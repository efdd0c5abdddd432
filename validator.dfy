/** SM4GCMParameterValidator: static length checks on key, nonce, tag and
    AAD. Each is a function to an Outcome, so by construction a check only
    accepts or rejects and changes no state. */
module Validator {
  import opened Wrappers
  import opened Bytes
  import opened Errors

  const Sm4KeySize: nat := 16
  const GcmNonceMinSize: nat := 1
  const GcmNonceMaxSize: nat := 128
  const GcmDefaultNonceSize: nat := 12
  const GcmTagSize: nat := 16

  /** validateKey: the key must be exactly 16 bytes. */
  function ValidateKey(key: bytes): (r: Outcome<Error>)
    ensures r.Pass? <==> |key| == 16
    ensures r.Fail? ==> r.error == InvalidParameter(KeySize(|key|))
  {
    if |key| != Sm4KeySize then Fail(InvalidParameter(KeySize(|key|))) else Pass
  }

  /** validateNonce: the nonce must be 1 to 128 bytes long. */
  function ValidateNonce(nonce: bytes): (r: Outcome<Error>)
    ensures r.Pass? <==> 1 <= |nonce| <= 128
    ensures r.Fail? ==> r.error == InvalidParameter(NonceSize(|nonce|))
  {
    if |nonce| < GcmNonceMinSize || |nonce| > GcmNonceMaxSize then
      Fail(InvalidParameter(NonceSize(|nonce|)))
    else
      Pass
  }

  /** validateTag: the tag must be exactly 16 bytes. */
  function ValidateTag(tag: bytes): (r: Outcome<Error>)
    ensures r.Pass? <==> |tag| == 16
    ensures r.Fail? ==> r.error == InvalidParameter(TagSize(|tag|))
  {
    if |tag| != GcmTagSize then Fail(InvalidParameter(TagSize(|tag|))) else Pass
  }

  /** validateAAD: null, empty and every other AAD are accepted. */
  function ValidateAAD(aad: Option<bytes>): (r: Outcome<Error>)
    ensures r.Pass?
  {
    Pass
  }

  /** The tag-length rule that SM4GCMParameters::validate, SM4GCMCipher::init
      and the SM4GCM constructor each write out inline: a multiple of 8 bits
      from 32 to 128. The remainder is only taken once the length is known
      to be positive, so PHP's truncating `%` and Dafny's agree. */
  predicate TagLengthOk(bits: int) {
    !(bits < 32 || bits > 128 || bits % 8 != 0)
  }

  /** The tag length in bytes, `$tagLength / 8` on a valid length. */
  function TagBytes(bits: int): (n: nat)
    requires TagLengthOk(bits)
    ensures 4 <= n <= 16 && n * 8 == bits
  {
    bits / 8
  }

  /** The boundary cases of the validator tests. */
  lemma ValidatorBoundaries(k15: bytes, k16: bytes, k17: bytes, n0: bytes, n12: bytes, n129: bytes)
    requires |k15| == 15 && |k16| == 16 && |k17| == 17
    requires |n0| == 0 && |n12| == GcmDefaultNonceSize && |n129| == 129
    ensures ValidateKey(k15) == Fail(InvalidParameter(KeySize(15)))
    ensures ValidateKey(k17) == Fail(InvalidParameter(KeySize(17)))
    ensures ValidateKey(k16) == Pass
    ensures ValidateNonce(n0) == Fail(InvalidParameter(NonceSize(0)))
    ensures ValidateNonce(n129) == Fail(InvalidParameter(NonceSize(129)))
    ensures ValidateNonce(n12) == Pass
    ensures ValidateTag(k15).Fail? && ValidateTag(k16) == Pass
    ensures ValidateAAD(None) == Pass && ValidateAAD(Some([])) == Pass && ValidateAAD(Some(n12)) == Pass
  {
  }

  /** The accepted tag lengths are exactly 32, 40, ..., 128: a superset of
      the lengths section 5.2.1.2 of NIST SP 800-38D allows. */
  lemma {:induction false} TagLengthsAccepted(bits: int)
    ensures TagLengthOk(bits) <==> bits in {32, 40, 48, 56, 64, 72, 80, 88, 96, 104, 112, 120, 128}
  {
    if TagLengthOk(bits) {
      var k := bits / 8;
      assert bits == 8 * k;
      assert 4 <= k <= 16;
    }
  }
}
