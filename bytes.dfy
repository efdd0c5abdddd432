/** PHP strings as byte sequences, and the few PHP built-ins the core
    applies to them. */
module Bytes {
  import opened Wrappers

  type byte = x: int | 0 <= x < 256
  type bytes = seq<byte>

  const TwoTo32: int := 0x1_0000_0000

  /** `str_repeat("\0", n)`. */
  function Zeros(n: nat): (z: bytes)
    ensures |z| == n
    ensures AllZero(z)
  {
    seq(n, _ => 0)
  }

  predicate AllZero(s: bytes) {
    forall i :: 0 <= i < |s| ==> s[i] == 0
  }

  /** PHP's `empty()` on a string: true for "" and for the one-character
      string "0" (byte 0x30). */
  predicate PhpEmpty(s: bytes)
    ensures PhpEmpty(s) ==> |s| <= 1
    ensures |s| == 1 ==> (PhpEmpty(s) <==> s[0] == 0x30)
  {
    s == [] || s == [0x30]
  }

  /** PHP's `empty()` on a `?string`: null counts as empty too, and a
      string of two or more bytes never does. */
  predicate PhpEmptyOrNull(s: Option<bytes>)
    ensures PhpEmptyOrNull(s) <==> s == None || s == Some([]) || s == Some([0x30])
    ensures s.Some? && |s.value| >= 2 ==> !PhpEmptyOrNull(s)
  {
    s.None? || PhpEmpty(s.value)
  }

  /** `pack('C', n)`: one byte holding n modulo 256. */
  function PackC(n: int): (b: bytes)
    ensures |b| == 1 && b[0] == n % 256
  {
    [n % 256]
  }

  /** `pack('N', n)`: the low 32 bits of n, big-endian, so that
      `unpack('N')` reads them back. */
  function PackN(n: int): (b: bytes)
    ensures |b| == 4
    ensures UnpackN(b) == n % TwoTo32
  {
    var m := n % TwoTo32;
    var m1 := m / 0x100;
    var m2 := m1 / 0x100;
    assert m == m1 * 0x100 + m % 0x100;
    assert m1 == m2 * 0x100 + m1 % 0x100;
    assert m2 == (m2 / 0x100) * 0x100 + m2 % 0x100;
    [m2 / 0x100, m2 % 0x100, m1 % 0x100, m % 0x100]
  }

  /** `unpack('N', b)[1]` on a four-byte string: an unsigned 32-bit value. */
  function UnpackN(b: bytes): (n: nat)
    requires |b| == 4
    ensures n < TwoTo32
  {
    ((b[0] as int * 0x100 + b[1] as int) * 0x100 + b[2] as int) * 0x100 + b[3] as int
  }

  /** Packing what was unpacked gives back the same four bytes. */
  lemma PackUnpackN(b: bytes)
    requires |b| == 4
    ensures PackN(UnpackN(b)) == b
  {
    var m2 := b[0] as int * 0x100 + b[1] as int;
    var m1 := m2 * 0x100 + b[2] as int;
    var m := m1 * 0x100 + b[3] as int;
    assert UnpackN(b) == m;
    assert m % TwoTo32 == m;
    assert m / 0x100 == m1 && m % 0x100 == b[3];
    assert m1 / 0x100 == m2 && m1 % 0x100 == b[2];
    assert m2 / 0x100 == b[0] && m2 % 0x100 == b[1];
  }
}
