# SM4-GCM for PHP (yangweijie/sm4-gcm), modelled in Dafny

This project models the core of the PHP library `yangweijie/sm4-gcm`:

- the parameter value object `SM4GCMParameters` and its binary form
  (one length byte, the IV, a 4-byte big-endian tag length in bits);
- the static validators of `SM4GCMParameterValidator`;
- the built-in cipher `SM4GCMCipher`, a small state machine (uninitialized
  or initialized, an encrypt/decrypt flag, a growing buffer, an AAD slot)
  driven by `init`, `updateAAD`, `update`, `doFinal` and `reset`;
- the front end `SM4GCM`, which fixes key, IV and tag length at
  construction, keeps an instance AAD and drives the cipher on every call;
- the hex codec and equality of `CryptoUtils` (Base16 as in section 8 of
  RFC 4648: lower-case output, case-insensitive input).

The built-in cipher contains no SM4 or GCM arithmetic. Encryption returns
the buffered data followed by `tagLength / 8` zero bytes, and decryption
checks that the trailing tag is all zero and strips it. The library's
documentation describes a real SM4 block cipher in GCM mode; the model
follows the code, so `Sealed` and `Opened` describe this placeholder.

Layout, one module per file:

| file | module | models |
|---|---|---|
| wrappers.dfy | Wrappers | `Option`, `Result`, `Outcome` (a check that passes or fails with an error) |
| errors.dfy | Errors | the exceptions the code throws, as one `Error` datatype whose cases say which check failed and carry the offending size or tag length |
| bytes.dfy | Bytes | bytes, PHP's `empty()` on strings, `pack('C')`, `pack('N')` and `unpack('N')` |
| validator.dfy | Validator | `SM4GCMParameterValidator` and the tag-length rule |
| parameters.dfy | Parameters | `SM4GCMParameters` (a value: functions on a datatype) |
| cipher.dfy | CipherCore | `SM4GCMCipher` (a class whose methods update its fields) |
| gcm.dfy | Gcm | `SM4GCM` (a class holding the cipher object) |
| crypto_utils.dfy | CryptoUtils | `toHex`, `toBytes`, `constantTimeEquals` |

PHP exceptions become results: a constructor or method that throws returns
`Err(e)` or `Fail(e)` in the model, and the case of `e` says which check
failed. `SM4GCMParameters`' constructor is the function `Parameters.New`;
`new SM4GCM(...)` is the static method `Gcm.SM4GCM.Create`, which makes
the constructor's checks and then calls the Dafny constructor.

## Model

| member | source | states |
|---|---|---|
| Bytes.PackC | src/SM4GCMParameters.php:59 | `pack('C', n)` is one byte, n modulo 256 |
| Bytes.PhpEmpty | src/SM4GCMParameters.php:101 | PHP's `empty()` on a string holds only for strings of at most one byte, and on a one-byte string exactly when it is "0" |
| Bytes.PhpEmptyOrNull | src/SM4GCM.php:64-66 | `empty()` on a nullable string holds exactly for null, "" and "0"; never for two or more bytes |
| Bytes.PackN | src/SM4GCMParameters.php:61 | `pack('N', n)` is four bytes from which `unpack('N')` reads back n modulo 2^32 |
| Bytes.UnpackN | src/SM4GCMParameters.php:88 | `unpack('N')` of four bytes is an unsigned 32-bit value |
| Bytes.PackUnpackN | src/SM4GCMParameters.php:88 | `pack('N')` of `unpack('N')` of any 4 bytes gives those bytes back |
| Bytes.Zeros | src/SM4GCMCipher.php:154 | `str_repeat("\0", n)` (also at src/SM4GCMCipher.php:196): n bytes, all zero |
| Validator.ValidateKey | src/SM4GCMParameterValidator.php:26-37 | passes iff the key is exactly 16 bytes; otherwise fails with the key's length |
| Validator.ValidateNonce | src/SM4GCMParameterValidator.php:45-58 | passes iff the nonce is 1 to 128 bytes; otherwise fails with its length |
| Validator.ValidateTag | src/SM4GCMParameterValidator.php:66-77 | passes iff the tag is exactly 16 bytes; otherwise fails with its length |
| Validator.ValidateAAD | src/SM4GCMParameterValidator.php:85-95 | passes for null, empty and every other AAD |
| Validator.TagBytes | src/SM4GCMCipher.php:154 | `$this->tagLength / 8` (also at src/SM4GCMCipher.php:175) on an accepted tag length: 4 to 16 bytes, exactly tagLength / 8 with no remainder |
| Validator.TagLengthsAccepted | src/SM4GCMCipher.php:51 | the tag-length rule `TagLengthOk`, written inline here, at src/SM4GCMParameters.php:106 and at src/SM4GCM.php:37, accepts exactly 32, 40, ..., 128 |
| Validator.ValidatorBoundaries | tests/SM4GCMParameterValidatorTest.php:6-45 | keys of 15 and 17 bytes and nonces of 0 and 129 bytes fail with those sizes; a 16-byte key, a 12-byte nonce and a 16-byte tag pass; AAD null, empty or not passes |
| Parameters.Validate | src/SM4GCMParameters.php:98-111 | passes iff the IV is not PHP-empty ("" or "0") and the tag length is a multiple of 8 from 32 to 128; the empty-IV error comes first |
| Parameters.New | src/SM4GCMParameters.php:24-49 | the object exists iff validate passes, is then valid, and its getters return exactly the arguments; otherwise the error is validate's |
| Parameters.Encode | src/SM4GCMParameters.php:56-62 | 1 + \|iv\| + 4 bytes: \|iv\| mod 256, the IV, then the tag length mod 2^32 big-endian |
| Parameters.Decode | src/SM4GCMParameters.php:71-91 | fewer than 5 bytes, or fewer than 1 + L + 4 for the declared IV length L, is a malformed-encoding error; on well-framed input the result is the constructor's: it succeeds iff validate passes on the IV and tag length read, and fails with validate's error otherwise; anything returned is valid and has an IV of L bytes |
| Parameters.DecodeInvalidPairs | src/SM4GCMParameters.php:90 | well-framed encodings with IV length 0, with the IV "0", or with tag length 129 are rejected with the empty-IV and tag-length errors |
| Parameters.EncodeDecodeRoundTrip | src/SM4GCMParameters.php:56-91 | every valid pair whose IV is at most 255 bytes decodes from its encoding to itself |
| Parameters.DecodeIgnoresTrailing | src/SM4GCMParameters.php:78-90 | bytes after the declared 1 + L + 4 do not change what decode gives |
| Parameters.DecodeEncodeRoundTrip | src/SM4GCMParameters.php:56-91 | whatever decode accepts re-encodes to the first 1 + L + 4 bytes of its input |
| Parameters.EncodeDecodeWithTrailing | tests/SM4GCMTest.php:54-62 | decode of an encoding followed by any bytes gives the original pair back |
| Parameters.LongIvDoesNotRoundTrip | src/SM4GCMParameters.php:59 | a valid pair with a 257-byte IV decodes from its encoding to a different pair, with a 1-byte IV |
| Parameters.Iv256DoesNotDecode | src/SM4GCMParameters.php:59 | a valid pair with a 256-byte IV encodes to bytes that decode rejects with the empty-IV error |
| Parameters.EncodeChecked | src/SM4GCMParameters.php:56-62 | encode that refuses an IV longer than 255 bytes and otherwise equals encode |
| Parameters.EncodeCheckedRoundTrip | src/SM4GCMParameters.php:56-91 | every valid pair EncodeChecked accepts decodes back to itself |
| CipherCore.Sealed | src/SM4GCMCipher.php:138-160 | the encrypt-mode output: the buffer unchanged, then tagLength / 8 zero bytes |
| CipherCore.Opened | src/SM4GCMCipher.php:168-215 | too short for the tag: length error; non-zero tag: authentication error; otherwise succeeds, and the result sealed again is the buffer |
| CipherCore.OpenedSealed | src/SM4GCMCipher.php:138-215 | decrypting what was encrypted gives the data back, for every accepted tag length |
| CipherCore.CheckInit | src/SM4GCMCipher.php:42-55 | passes iff key is 16 bytes, nonce 1 to 128 bytes, tag length a multiple of 8 from 32 to 128; the errors come in the order key, nonce, tag |
| CipherCore.SM4GCMCipher.constructor | src/SM4GCMCipher.php:25-30 | a new cipher is uninitialized, with an empty buffer and no AAD |
| CipherCore.SM4GCMCipher.Init | src/SM4GCMCipher.php:42-63 | a rejected init changes nothing; an accepted one sets key, IV, tag length and mode, empties the buffer, sets initialized and keeps the AAD |
| CipherCore.SM4GCMCipher.UpdateAAD | src/SM4GCMCipher.php:71-79 | fails iff uninitialized, then changing nothing; otherwise replaces the stored AAD and nothing else |
| CipherCore.SM4GCMCipher.Update | src/SM4GCMCipher.php:89-97 | fails iff uninitialized; otherwise appends the data to the buffer and returns nothing |
| CipherCore.SM4GCMCipher.DoFinal | src/SM4GCMCipher.php:107-120 | fails iff uninitialized; otherwise appends its argument and returns Sealed or Opened of the whole buffer; the buffer and the initialized flag stay |
| CipherCore.SM4GCMCipher.Reset | src/SM4GCMCipher.php:125-130 | back to the state of a new cipher |
| CipherCore.SM4GCMCipher.PerformEncryption | src/SM4GCMCipher.php:138-160 | returns Sealed of the buffer |
| CipherCore.SM4GCMCipher.PerformDecryption | src/SM4GCMCipher.php:168-215 | returns Opened of the buffer; the AAD is not read |
| Gcm.CombinedAad | src/SM4GCM.php:64-70 | no AAD is passed iff both the call's and the instance's AAD are PHP-empty; a non-empty instance AAD is put in front of the call's |
| Gcm.SM4GCM.constructor | src/SM4GCM.php:43-47 | stores key, IV and tag length, no instance AAD, a new cipher |
| Gcm.SM4GCM.Create | src/SM4GCM.php:32-48 | succeeds iff key is 16 bytes, IV 1 to 128 bytes and tag length a multiple of 8 from 32 to 128, with init's error order; stores the arguments |
| Gcm.SM4GCM.Encrypt | src/SM4GCM.php:58-81 | returns the plaintext followed by tagLength / 8 zero bytes whatever the AAD and earlier calls; leaves the cipher initialized for encryption with the combined AAD |
| Gcm.SM4GCM.Decrypt | src/SM4GCM.php:91-114 | returns Opened of the ciphertext whatever the AAD and earlier calls |
| Gcm.SM4GCM.UpdateAAD | src/SM4GCM.php:122-126 | stores the instance AAD |
| Gcm.SM4GCM.Reset | src/SM4GCM.php:131-135 | clears the instance AAD and resets the cipher to its initial state |
| Gcm.EncryptThenDecrypt | tests/SM4GCMTest.php:86-123 | decrypt of encrypt gives the plaintext back, with any AADs on each side and an instance AAD set in between |
| CryptoUtils.ToHex | src/CryptoUtils.php:18-21 | two characters per byte |
| CryptoUtils.ToHexIsLowerHex | src/CryptoUtils.php:18-21 | toHex writes lower-case hex digits only |
| CryptoUtils.ToHexAppend | src/CryptoUtils.php:18-21 | toHex of a concatenation is the concatenation of the toHex results |
| CryptoUtils.DecodePairs | src/CryptoUtils.php:36 | hex2bin on even-length text succeeds iff every character is a hex digit, giving half as many bytes |
| CryptoUtils.ToBytes | src/CryptoUtils.php:30-42 | odd length is rejected first, then any character outside 0-9, a-f, A-F; succeeds otherwise with half as many bytes |
| CryptoUtils.HexRoundTrip | src/CryptoUtils.php:18-42 | toBytes of toHex of any bytes gives them back |
| CryptoUtils.HexNormalises | src/CryptoUtils.php:30-42 | toHex of toBytes of valid hex is that hex in lower case |
| CryptoUtils.ConstantTimeEquals | src/CryptoUtils.php:67-70 | true iff the two byte strings are equal |
| CryptoUtils.HelloWorldToHex | tests/SM4GCMTest.php:9-13 | "Hello World" encodes to 48656c6c6f20576f726c64 |
| CryptoUtils.HelloWorldToBytes | tests/SM4GCMTest.php:15-19 | 48656c6c6f20576f726c64 decodes to "Hello World" |
| CryptoUtils.InvalidHexExample | tests/SM4GCMTest.php:21-23 | "invalid" is rejected, for its odd length |
| CryptoUtils.UpperCaseExample | src/CryptoUtils.php:30-42 | upper-case input 0123456789ABCDEF is accepted and re-encodes in lower case |

## Left out

- The SM4 block cipher and GCM (GHASH, GCTR): the code has none; the placeholder it has is modelled instead.
- src/Adapter/OpenSSLAdapter.php and src/Adapter/AdapterFactory.php: calls into OpenSSL and probing of the PHP environment.
- src/SM4GCMParameterGenerator.php and `CryptoUtils::secureRandom`: their output comes from the random source.
- CryptoUtils.ConstantTimeEquals: only its result is modelled; that `hash_equals` runs in time independent of where the inputs differ cannot be stated.
- Validator.ValidateAAD: the branch for an AAD longer than `PHP_INT_MAX` bytes cannot be reached and is left out.
- Exception classes and messages: each exception is a case of `Errors.Error`, not its message text; the size cases carry the size the message prints, and `TagLength` carries the rejected length, which the message does not print. `\RuntimeException("Cipher not initialized")` is `NotInitialized`.
- The `catch` blocks of `SM4GCM::encrypt`/`decrypt` and of `performEncryption`/`performDecryption` that re-wrap other exceptions: nothing in the modelled code throws one there. In particular `SM4GCM::encrypt` cannot fail once the constructor passed, so Gcm.SM4GCM.Encrypt returns bytes without an error case.
- The cipher's typed properties before the first `init` are unset in PHP; in the model they hold arbitrary values that no operation reads until an `init` succeeds.
- PHP integers are 64-bit; the model uses unbounded integers and writes out the reductions that matter (`pack('C')` modulo 256, `pack('N')` modulo 2^32).
- CryptoUtils.ToBytes: PHP's `hex2bin` also emits an E_WARNING on non-hex input before `toBytes` throws; warnings are output, not results, and are not modelled.
- Hex text is a Dafny `string`; toBytes on characters outside the byte range is rejected like any other non-hex character.
- The tag-length rule accepts every multiple of 8 from 32 to 128, more than the lengths section 5.2.1.2 of NIST SP 800-38D allows; the model follows the code.

## Findings

| source | as written | input that shows it | evidently intended | confidence | as-written member | corrected member |
|---|---|---|---|---|---|---|
| src/SM4GCMParameters.php:59 | encode writes the IV length with `pack('C')`, i.e. modulo 256, while the constructor accepts a non-empty IV of any length | IV of 257 bytes `41 00 00 00 80 41 ...`, tag length 128: decode(encode) gives IV `41` with tag length 128; with a 256-byte IV decode rejects the encoding (Parameters.Iv256DoesNotDecode) | decode(encode(p)) == p for every p encode accepts; an IV longer than 255 bytes is refused | medium; not executed | Parameters.LongIvDoesNotRoundTrip | Parameters.EncodeChecked |
