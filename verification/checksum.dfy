/** The NMEA 0183 sentence checksum: the XOR of every byte between the
    leading '$' and the '*' that introduces two hexadecimal digits.

    `Checksum` is the function of src/gps.cpp; `CalculateChecksum` and
    `VerifyChecksum` are the two operations declared in libs/gps.h, whose
    bodies are not part of this model and are built here on the same window
    rule. A `string` stands for a std::string, so the checksum operations
    take byte strings (every char below 256) and read each char as an
    unsigned byte. */
module Checksum {
  import opened Options
  import opened StdString
  import opened NumParse

  /** 2^64: size_t arithmetic wraps modulo this. */
  const SizeTModulus: int := 0x1_0000_0000_0000_0000

  predicate IsBytes(s: string) {
    forall i :: 0 <= i < |s| ==> s[i] as int < 256
  }

  predicate IsAscii(s: string) {
    forall i :: 0 <= i < |s| ==> s[i] as int < 128
  }

  function Byte(c: char): bv8
    requires c as int < 256
  {
    (c as int) as bv8
  }

  /** The running XOR of the bytes of s. */
  function Xor(s: string): bv8
    requires IsBytes(s)
  {
    if |s| == 0 then 0 else Xor(s[..|s| - 1]) ^ Byte(s[|s| - 1])
  }

  /** src/gps.cpp `checksum`: the XOR over sentence.substr(1, length - 4).
      The count is computed in size_t, so for sentences of one to three
      characters it wraps to a huge count and the window runs to the end;
      on an empty sentence substr(1, ...) throws. */
  function Checksum(sentence: string): (r: Option<int>)
    requires IsBytes(sentence)
    ensures r.None? <==> |sentence| == 0
    ensures |sentence| >= 4 ==> r == Some(Xor(sentence[1..|sentence| - 3]) as int)
    ensures 1 <= |sentence| < 4 ==> r == Some(Xor(sentence[1..]) as int)
    ensures r.Some? ==> 0 <= r.value < 256
  {
    // length() - 4 in size_t: below 4 it wraps around modulo 2^64
    var count := if |sentence| >= 4 then |sentence| - 4 else |sentence| - 4 + SizeTModulus;
    var window :- Substr(sentence, 1, count);
    assert window == sentence[1..1 + |window|];
    assert |sentence| < 4 ==> |window| == |sentence| - 1 && window == sentence[1..];
    Some(Xor(window) as int)
  }

  /** GPS::calculateChecksum: the checksum of a sentence written without its
      `*HH` suffix, that is the XOR of every character after the first. */
  function CalculateChecksum(sentence: string): (r: Option<int>)
    requires IsBytes(sentence)
    ensures r.None? <==> |sentence| == 0
    ensures r.Some? ==> r.value == Xor(sentence[1..]) as int
    ensures r.Some? ==> 0 <= r.value < 256
  {
    var body :- Substr(sentence, 1, |sentence|);
    assert body == sentence[1..];
    Some(Xor(body) as int)
  }

  /** The upper-case hexadecimal digit of a value below 16. */
  function HexDigit(v: nat): (c: char)
    requires v < 16
    ensures DigitOf(c) == v
  {
    if v < 10 then ('0' as int + v) as char else ('A' as int + v - 10) as char
  }

  /** The two upper-case hexadecimal digits NMEA writes after '*'. */
  function Hex2(n: nat): (t: string)
    requires n < 256
    ensures |t| == 2 && AllDigitsIn(t, 16)
  {
    [HexDigit(n / 16), HexDigit(n % 16)]
  }

  /** A two-character checksum field read strictly: both characters must be
      hexadecimal digits. */
  function ParseHex2(t: string): (r: Option<int>)
    ensures r.Some? <==> |t| == 2 && AllDigitsIn(t, 16)
    ensures r.Some? ==> 0 <= r.value < 256
  {
    if |t| == 2 && AllDigitsIn(t, 16) then
      ValueBound(t, 16);
      Some(ValueIn(t, 16))
    else None
  }

  /** True when the sentence ends in '*' and two more characters. */
  predicate HasChecksumTail(sentence: string) {
    |sentence| >= 4 && sentence[|sentence| - 3] == '*'
  }

  /** GPS::verifyChecksum: 0 when the XOR of the bytes between the leading
      '$' and the '*' equals the two hexadecimal digits after the '*'; 1 when
      they differ; -1 when the sentence has no `*HH` tail to compare with. */
  function VerifyChecksum(sentence: string): (r: int)
    requires IsBytes(sentence)
    ensures r == 0 <==> (HasChecksumTail(sentence)
      && ParseHex2(sentence[|sentence| - 2..]) == Some(Xor(sentence[1..|sentence| - 3]) as int))
    ensures r == -1 <==> !HasChecksumTail(sentence) || ParseHex2(sentence[|sentence| - 2..]).None?
  {
    if !HasChecksumTail(sentence) then -1
    else
      match ParseHex2(sentence[|sentence| - 2..])
      case None => -1
      case Some(sent) => if Checksum(sentence) == Some(sent) then 0 else 1
  }

  // Properties

  /** The XOR of a concatenation is the XOR of the parts' XORs. */
  lemma {:induction false} XorAppend(a: string, b: string)
    requires IsBytes(a) && IsBytes(b)
    ensures IsBytes(a + b) && Xor(a + b) == Xor(a) ^ Xor(b)
    decreases |b|
  {
    if |b| == 0 {
      assert a + b == a;
    } else {
      var b' := b[..|b| - 1];
      XorAppend(a, b');
      assert (a + b)[..|a + b| - 1] == a + b';
      assert (a + b)[|a + b| - 1] == b[|b| - 1];
    }
  }

  /** Over ASCII text the checksum stays below 128. */
  lemma {:induction false} XorAscii(s: string)
    requires IsAscii(s)
    ensures IsBytes(s) && Xor(s) < 128
    decreases |s|
  {
    if |s| > 0 {
      XorAscii(s[..|s| - 1]);
      XorBelow128(Xor(s[..|s| - 1]), Byte(s[|s| - 1]));
    }
  }

  lemma XorBelow128(a: bv8, b: bv8)
    requires a < 128 && b < 128
    ensures a ^ b < 128
  {
  }

  /** src/gps.cpp's `checksum` of a sentence with any three-character suffix
      (`*HH`) is GPS::calculateChecksum of the sentence without it. */
  lemma ChecksumOfSuffixed(body: string, suffix: string)
    requires IsBytes(body) && IsBytes(suffix) && |body| >= 1 && |suffix| == 3
    ensures IsBytes(body + suffix)
    ensures Checksum(body + suffix) == CalculateChecksum(body)
  {
    var s := body + suffix;
    assert s[1..|s| - 3] == body[1..];
  }

  /** Reading back two hexadecimal digits written by Hex2 gives the value. */
  lemma Hex2RoundTrip(n: nat)
    requires n < 256
    ensures ParseHex2(Hex2(n)) == Some(n)
  {
    var t := Hex2(n);
    assert t[..1] == [HexDigit(n / 16)];
    assert ValueIn(t[..1], 16) == ValueIn([], 16) * 16 + n / 16;
  }

  /** Two upper-case hexadecimal digits are exactly what Hex2 writes for their value. */
  lemma ParseHex2RoundTrip(t: string)
    requires |t| == 2 && forall i :: 0 <= i < 2 ==> '0' <= t[i] <= '9' || 'A' <= t[i] <= 'F'
    ensures ParseHex2(t).Some? && Hex2(ParseHex2(t).value) == t
  {
    assert t[..1] == [t[0]];
    assert ValueIn(t[..1], 16) == ValueIn([], 16) * 16 + DigitOf(t[0]);
  }

  /** Two hexadecimal digits read by std::stoul in base 16 give the value
      ParseHex2 reads, so assignGGA and verifyChecksum agree on the
      transmitted checksum. */
  lemma StoUL16Hex2(t: string)
    requires |t| == 2 && AllDigitsIn(t, 16)
    ensures StoUL16(t) == ParseHex2(t)
  {
    assert t + "" == t;
    StoUL16Digits(t, "");
  }

  /** Round trip of the two libs/gps.h operations: a sentence followed by
      '*' and the upper-case hexadecimal form of its calculated checksum
      verifies. */
  lemma VerifyCalculated(body: string)
    requires IsBytes(body) && |body| >= 1
    ensures IsBytes(body + "*" + Hex2(CalculateChecksum(body).value))
    ensures VerifyChecksum(body + "*" + Hex2(CalculateChecksum(body).value)) == 0
  {
    var c := CalculateChecksum(body).value;
    var s := body + "*" + Hex2(c);
    assert s[|s| - 3] == '*';
    assert s[|s| - 2..] == Hex2(c);
    Hex2RoundTrip(c);
    assert s[1..|s| - 3] == body[1..];
  }

  /** Conversely, a sentence verifies only if its transmitted digits are the
      calculated checksum of the sentence without its `*HH` tail. */
  lemma VerifiedIsCalculated(sentence: string)
    requires IsBytes(sentence) && VerifyChecksum(sentence) == 0
    ensures CalculateChecksum(sentence[..|sentence| - 3]) == ParseHex2(sentence[|sentence| - 2..])
  {
    assert sentence[..|sentence| - 3][1..] == sentence[1..|sentence| - 3];
  }
}
