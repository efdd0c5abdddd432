/** CryptoUtils: hex conversion (PHP's bin2hex and hex2bin, the Base16
    encoding of section 8 of RFC 4648, lower case out and either case in)
    and byte-string equality. */
module CryptoUtils {
  import opened Wrappers
  import opened Bytes
  import opened Errors

  /** The lower-case digit for a value below 16, as bin2hex writes it. */
  function DigitChar(v: nat): (c: char)
    requires v < 16
  {
    if v < 10 then ('0' as int + v) as char else ('a' as int + v - 10) as char
  }

  predicate IsHexDigit(c: char) {
    '0' <= c <= '9' || 'a' <= c <= 'f' || 'A' <= c <= 'F'
  }

  predicate IsLowerHexDigit(c: char) {
    '0' <= c <= '9' || 'a' <= c <= 'f'
  }

  function DigitValue(c: char): (v: nat)
    requires IsHexDigit(c)
    ensures v < 16
  {
    if '0' <= c <= '9' then c as int - '0' as int
    else if 'a' <= c <= 'f' then c as int - 'a' as int + 10
    else c as int - 'A' as int + 10
  }

  /** The lower-case digit of a value is the lower-cased digit. */
  lemma DigitValueLower(c: char)
    requires IsHexDigit(c)
    ensures DigitChar(DigitValue(c)) == LowerChar(c)
  {
  }

  /** ASCII lower-casing of one character. */
  function LowerChar(c: char): char {
    if 'A' <= c <= 'Z' then (c as int - 'A' as int + 'a' as int) as char else c
  }

  function Lower(s: string): (t: string)
    ensures |t| == |s| && forall i :: 0 <= i < |s| ==> t[i] == LowerChar(s[i])
  {
    seq(|s|, i requires 0 <= i < |s| => LowerChar(s[i]))
  }

  lemma LowerDigitValue(v: nat)
    requires v < 16
    ensures IsLowerHexDigit(DigitChar(v)) && IsHexDigit(DigitChar(v)) && DigitValue(DigitChar(v)) == v
  {
  }

  /** bin2hex on one byte: high nibble, then low nibble, in lower case. */
  function ByteToHex(x: byte): (h: string)
    ensures |h| == 2
  {
    [DigitChar(x / 16), DigitChar(x % 16)]
  }

  /** hex2bin on one pair of digits. */
  function PairValue(hi: char, lo: char): (x: byte)
    requires IsHexDigit(hi) && IsHexDigit(lo)
  {
    16 * DigitValue(hi) + DigitValue(lo)
  }

  /** The two digits of a byte are lower-case hex and read back as it. */
  lemma ByteToHexDecodes(x: byte)
    ensures IsLowerHexDigit(ByteToHex(x)[0]) && IsLowerHexDigit(ByteToHex(x)[1])
    ensures IsHexDigit(ByteToHex(x)[0]) && IsHexDigit(ByteToHex(x)[1])
    ensures PairValue(ByteToHex(x)[0], ByteToHex(x)[1]) == x
  {
    LowerDigitValue(x / 16);
    LowerDigitValue(x % 16);
  }

  /** Re-encoding a pair gives the pair in lower case. */
  lemma PairToHex(hi: char, lo: char)
    requires IsHexDigit(hi) && IsHexDigit(lo)
    ensures ByteToHex(PairValue(hi, lo)) == [LowerChar(hi), LowerChar(lo)]
  {
    var x := PairValue(hi, lo);
    assert x / 16 == DigitValue(hi) && x % 16 == DigitValue(lo);
    DigitValueLower(hi);
    DigitValueLower(lo);
  }

  predicate AllHex(s: string) {
    forall i :: 0 <= i < |s| ==> IsHexDigit(s[i])
  }

  predicate AllLowerHex(s: string) {
    forall i :: 0 <= i < |s| ==> IsLowerHexDigit(s[i])
  }

  /** toHex: two digits per byte. */
  function ToHex(b: bytes): (h: string)
    ensures |h| == 2 * |b|
  {
    if b == [] then [] else ByteToHex(b[0]) + ToHex(b[1..])
  }

  lemma ToHexCons(x: byte, rest: bytes)
    ensures ToHex([x] + rest) == ByteToHex(x) + ToHex(rest)
  {
    assert ([x] + rest)[1..] == rest;
  }

  /** toHex writes lower-case hex digits only. */
  lemma {:induction false} ToHexIsLowerHex(b: bytes)
    ensures AllLowerHex(ToHex(b)) && AllHex(ToHex(b))
  {
    if b != [] {
      ByteToHexDecodes(b[0]);
      ToHexIsLowerHex(b[1..]);
      var h := ToHex(b);
      assert forall i :: 2 <= i < |h| ==> h[i] == ToHex(b[1..])[i - 2];
    }
  }

  /** hex2bin on an even-length string: None as soon as a character is not
      a hex digit. */
  function DecodePairs(h: string): (r: Option<bytes>)
    requires |h| % 2 == 0
    ensures r.Some? <==> AllHex(h)
    ensures r.Some? ==> 2 * |r.value| == |h|
  {
    if h == [] then
      Some([])
    else if !IsHexDigit(h[0]) || !IsHexDigit(h[1]) then
      None
    else
      assert AllHex(h) <==> AllHex(h[2..]) by {
        assert forall i :: 2 <= i < |h| ==> h[i] == h[2..][i - 2];
      }
      match DecodePairs(h[2..])
      case None => None
      case Some(tail) => Some([PairValue(h[0], h[1])] + tail)
  }

  /** toBytes: an odd length is rejected first, then any character outside
      0-9, a-f and A-F. */
  function ToBytes(hex: string): (r: Result<bytes, Error>)
    ensures |hex| % 2 != 0 ==> r == Err(InvalidHex(OddLength))
    ensures |hex| % 2 == 0 && !AllHex(hex) ==> r == Err(InvalidHex(NotHex))
    ensures r.Ok? <==> |hex| % 2 == 0 && AllHex(hex)
    ensures r.Ok? ==> 2 * |r.value| == |hex|
  {
    if |hex| % 2 != 0 then
      Err(InvalidHex(OddLength))
    else
      match DecodePairs(hex)
      case None => Err(InvalidHex(NotHex))
      case Some(b) => Ok(b)
  }

  lemma {:induction false} DecodeToHex(b: bytes)
    ensures DecodePairs(ToHex(b)) == Some(b)
  {
    if b != [] {
      var h := ToHex(b);
      var pair := ByteToHex(b[0]);
      ByteToHexDecodes(b[0]);
      assert h == pair + ToHex(b[1..]);
      assert h[0] == pair[0] && h[1] == pair[1] && h[2..] == ToHex(b[1..]);
      DecodeToHex(b[1..]);
      assert [b[0]] + b[1..] == b;
    }
  }

  /** Decoding an encoding gives back the bytes. */
  lemma HexRoundTrip(b: bytes)
    ensures ToBytes(ToHex(b)) == Ok(b)
  {
    DecodeToHex(b);
  }

  lemma {:induction false} ToHexDecode(h: string)
    requires |h| % 2 == 0 && DecodePairs(h).Some?
    ensures ToHex(DecodePairs(h).value) == Lower(h)
  {
    if h != [] {
      var b := DecodePairs(h).value;
      var tail := DecodePairs(h[2..]).value;
      assert b == [PairValue(h[0], h[1])] + tail;
      assert b[1..] == tail;
      PairToHex(h[0], h[1]);
      ToHexDecode(h[2..]);
      assert Lower(h) == [LowerChar(h[0]), LowerChar(h[1])] + Lower(h[2..]);
    }
  }

  /** Encoding a decoding gives back the hex text in lower case. */
  lemma HexNormalises(hex: string)
    requires ToBytes(hex).Ok?
    ensures ToHex(ToBytes(hex).value) == Lower(hex)
  {
    ToHexDecode(hex);
  }

  /** constantTimeEquals (hash_equals): equal lengths and equal bytes at
      every position. Only the result is modelled, not the timing. */
  function ConstantTimeEquals(a: bytes, b: bytes): (r: bool)
    ensures r <==> a == b
  {
    |a| == |b| && forall i :: 0 <= i < |a| ==> a[i] == b[i]
  }

  /** toHex of a concatenation is the concatenation of the toHex results. */
  lemma {:induction false} ToHexAppend(a: bytes, b: bytes)
    ensures ToHex(a + b) == ToHex(a) + ToHex(b)
  {
    if a == [] {
      assert a + b == b;
    } else {
      assert a + b == [a[0]] + (a[1..] + b);
      ToHexCons(a[0], a[1..] + b);
      ToHexAppend(a[1..], b);
      ToHexCons(a[0], a[1..]);
      assert [a[0]] + a[1..] == a;
    }
  }

  /** "Hello", byte by byte. */
  lemma HelloToHex(hello: bytes)
    requires hello == [72, 101, 108, 108, 111]
    ensures ToHex(hello) == "48656c6c6f"
  {
    var s5: bytes := [];
    var s4 := [111] + s5;
    assert ToHex(s4) == "6f" by { ToHexCons(111, s5); assert ByteToHex(111) == "6f"; }
    var s3 := [108] + s4;
    assert ToHex(s3) == "6c6f" by { ToHexCons(108, s4); assert ByteToHex(108) == "6c"; }
    var s2 := [108] + s3;
    assert ToHex(s2) == "6c6c6f" by { ToHexCons(108, s3); assert ByteToHex(108) == "6c"; }
    var s1 := [101] + s2;
    assert ToHex(s1) == "656c6c6f" by { ToHexCons(101, s2); assert ByteToHex(101) == "65"; }
    var s0 := [72] + s1;
    assert ToHex(s0) == "48656c6c6f" by { ToHexCons(72, s1); assert ByteToHex(72) == "48"; }
    assert s0 == hello;
  }

  /** " World", byte by byte. */
  lemma SpaceWorldToHex(world: bytes)
    requires world == [32, 87, 111, 114, 108, 100]
    ensures ToHex(world) == "20576f726c64"
  {
    var s6: bytes := [];
    var s5 := [100] + s6;
    assert ToHex(s5) == "64" by { ToHexCons(100, s6); assert ByteToHex(100) == "64"; }
    var s4 := [108] + s5;
    assert ToHex(s4) == "6c64" by { ToHexCons(108, s5); assert ByteToHex(108) == "6c"; }
    var s3 := [114] + s4;
    assert ToHex(s3) == "726c64" by { ToHexCons(114, s4); assert ByteToHex(114) == "72"; }
    var s2 := [111] + s3;
    assert ToHex(s2) == "6f726c64" by { ToHexCons(111, s3); assert ByteToHex(111) == "6f"; }
    var s1 := [87] + s2;
    assert ToHex(s1) == "576f726c64" by { ToHexCons(87, s2); assert ByteToHex(87) == "57"; }
    var s0 := [32] + s1;
    assert ToHex(s0) == "20576f726c64" by { ToHexCons(32, s1); assert ByteToHex(32) == "20"; }
    assert s0 == world;
  }

  /** The values the source's tests expect: "Hello World" in hex. */
  lemma HelloWorldToHex(text: bytes)
    requires text == [72, 101, 108, 108, 111, 32, 87, 111, 114, 108, 100]
    ensures ToHex(text) == "48656c6c6f20576f726c64"
  {
    var hello, world := text[..5], text[5..];
    HelloToHex(hello);
    SpaceWorldToHex(world);
    ToHexAppend(hello, world);
    assert hello + world == text;
  }

  lemma HelloWorldToBytes()
    ensures ToBytes("48656c6c6f20576f726c64") == Ok([72, 101, 108, 108, 111, 32, 87, 111, 114, 108, 100])
  {
    HelloWorldToHex([72, 101, 108, 108, 111, 32, 87, 111, 114, 108, 100]);
    HexRoundTrip([72, 101, 108, 108, 111, 32, 87, 111, 114, 108, 100]);
  }

  /** The test's "invalid" has seven characters. */
  lemma InvalidHexExample()
    ensures ToBytes("invalid") == Err(InvalidHex(OddLength))
  {
  }

  lemma UpperCaseDigits()
    ensures AllHex("0123456789ABCDEF") && Lower("0123456789ABCDEF") == "0123456789abcdef"
  {
  }

  /** Upper-case input is accepted and comes back in lower case. */
  lemma UpperCaseExample()
    ensures ToBytes("0123456789ABCDEF").Ok?
    ensures ToHex(ToBytes("0123456789ABCDEF").value) == "0123456789abcdef"
  {
    UpperCaseDigits();
    HexNormalises("0123456789ABCDEF");
  }
}
