/** The C++ numeric conversions the decoder calls: std::stoi, std::stod /
    std::stof and std::stoul with base 16. Each skips leading white space,
    accepts one optional sign, converts the longest numeric prefix and ignores
    whatever follows it; when no digit can be converted, or an integer does not
    fit its type, the C++ function throws, which is modelled as None.
    Decimal results are exact reals: float and double rounding is not modelled. */
module NumParse {
  import opened Options

  const IntMin: int := -0x8000_0000
  const IntMax: int := 0x7FFF_FFFF
  const ULongMax: int := 0xFFFF_FFFF_FFFF_FFFF

  /** isspace in the C locale: ' ', '\t', '\n', '\v', '\f' and '\r'. */
  predicate IsSpace(c: char) {
    c == ' ' || '\t' <= c <= '\r'
  }

  /** The value of c as a digit in any base up to 36, or 36 when c is not
      a letter or a decimal digit. */
  function DigitOf(c: char): (v: nat)
    ensures v <= 36
    ensures '0' <= c <= '9' ==> v == c as int - '0' as int
  {
    if '0' <= c <= '9' then c as int - '0' as int
    else if 'a' <= c <= 'z' then c as int - 'a' as int + 10
    else if 'A' <= c <= 'Z' then c as int - 'A' as int + 10
    else 36
  }

  predicate IsDigitIn(c: char, base: nat) {
    DigitOf(c) < base
  }

  predicate AllDigitsIn(s: string, base: nat) {
    forall i :: 0 <= i < |s| ==> IsDigitIn(s[i], base)
  }

  /** Length of the longest prefix of s made of white space. */
  function SpaceRun(s: string): (k: nat)
    ensures k <= |s|
  {
    if |s| > 0 && IsSpace(s[0]) then 1 + SpaceRun(s[1..]) else 0
  }

  /** Length of the longest prefix of s made of digits of the base. */
  function DigitRun(s: string, base: nat): (k: nat)
    ensures k <= |s|
  {
    if |s| > 0 && IsDigitIn(s[0], base) then 1 + DigitRun(s[1..], base) else 0
  }

  /** The digit run is made of digits and stops at a non-digit or the end. */
  lemma {:induction false} DigitRunDigits(s: string, base: nat)
    ensures AllDigitsIn(s[..DigitRun(s, base)], base)
    ensures DigitRun(s, base) < |s| ==> !IsDigitIn(s[DigitRun(s, base)], base)
    decreases |s|
  {
    if |s| > 0 && IsDigitIn(s[0], base) {
      var k' := DigitRun(s[1..], base);
      DigitRunDigits(s[1..], base);
      assert s[..1 + k'] == [s[0]] + s[1..][..k'];
    }
  }

  function Pow(base: nat, n: nat): (p: nat)
    requires base >= 1
    ensures p >= 1
  {
    if n == 0 then 1 else base * Pow(base, n - 1)
  }

  /** The value of a digit string in the given base, most significant digit
      first (meaningful when every character is a digit of the base). */
  function ValueIn(ds: string, base: nat): nat {
    if |ds| == 0 then 0
    else ValueIn(ds[..|ds| - 1], base) * base + DigitOf(ds[|ds| - 1])
  }

  /** What strtol-like conversions consume before the digits: leading white
      space and at most one '+' or '-'. `start` is where the digits begin. */
  datatype Lead = Lead(negative: bool, start: nat)

  function ScanLead(s: string): (l: Lead)
    ensures l.start <= |s|
    ensures l.negative ==> l.start > 0 && s[l.start - 1] == '-'
  {
    var i := SpaceRun(s);
    if i < |s| && (s[i] == '+' || s[i] == '-') then Lead(s[i] == '-', i + 1) else Lead(false, i)
  }

  /** std::stoi: the optionally signed decimal prefix after white space;
      none when there is no digit or the value does not fit a 32-bit int. */
  function StoI(s: string): (r: Option<int>)
    ensures r.Some? ==> IntMin <= r.value <= IntMax
  {
    var l := ScanLead(s);
    var t := s[l.start..];
    var k := DigitRun(t, 10);
    if k == 0 then None
    else
      var mag: int := ValueIn(t[..k], 10);
      var v := if l.negative then -mag else mag;
      if IntMin <= v <= IntMax then Some(v) else None
  }

  /** The exponent strtod reads from `rest`, which follows the mantissa: an
      'e' or 'E', an optional sign and at least one digit; 0 when absent. */
  function Exponent(rest: string): int {
    if |rest| == 0 || (rest[0] != 'e' && rest[0] != 'E') then 0
    else
      var neg := |rest| > 1 && rest[1] == '-';
      var from := if |rest| > 1 && (rest[1] == '+' || rest[1] == '-') then 2 else 1;
      var k := DigitRun(rest[from..], 10);
      var mag: int := ValueIn(rest[from..][..k], 10);
      if neg then -mag else mag
  }

  /** m times ten to the power e, exactly. */
  function Scale(m: real, e: int): (r: real)
    ensures e == 0 ==> r == m
    ensures m >= 0.0 ==> r >= 0.0
    decreases if e >= 0 then e else -e
  {
    if e == 0 then m
    else if e > 0 then Scale(m * 10.0, e - 1)
    else Scale(m / 10.0, e + 1)
  }

  /** The value of the digits after a decimal point: 0.d1d2d3... */
  function FractionValue(fp: string): (v: real)
    ensures v >= 0.0
  {
    if |fp| == 0 then 0.0 else (DigitOf(fp[0]) as real + FractionValue(fp[1..])) / 10.0
  }

  /** The exact value of a decimal numeral `ip.fp`. */
  function Decimal(ip: string, fp: string): (v: real)
    ensures v >= 0.0
  {
    ValueIn(ip, 10) as real + FractionValue(fp)
  }

  /** The unsigned numeral strtod reads at the start of t: `digits[.digits]`
      with at least one digit, then an optional exponent. */
  function UnsignedDecimal(t: string): (r: Option<real>)
    ensures r.Some? ==> r.value >= 0.0
  {
    var ki := DigitRun(t, 10);
    var after := t[ki..];
    var dot := |after| > 0 && after[0] == '.';
    var kf := if dot then DigitRun(after[1..], 10) else 0;
    if ki + kf == 0 then None
    else
      var frac := if dot then after[1..][..kf] else "";
      var rest := if dot then after[1 + kf..] else after;
      Some(Scale(Decimal(t[..ki], frac), Exponent(rest)))
  }

  /** std::stod and std::stof: white space, an optional sign, then the
      unsigned numeral. */
  function StoD(s: string): (r: Option<real>)
    ensures r.Some? ==> |s| > 0
  {
    var l := ScanLead(s);
    var m :- UnsignedDecimal(s[l.start..]);
    Some(if l.negative then -m else m)
  }

  /** The optional "0x"/"0X" prefix strtoul skips in base 16; it is only
      skipped when a hex digit follows, otherwise the '0' is the number. */
  function SkipHexPrefix(t: string): (u: string)
    ensures |u| <= |t|
  {
    if |t| >= 3 && t[0] == '0' && (t[1] == 'x' || t[1] == 'X') && IsDigitIn(t[2], 16) then t[2..] else t
  }

  /** std::stoul(s, nullptr, 16): the optionally signed hexadecimal prefix as
      an unsigned long; a '-' negates modulo 2^64, as strtoul does; none when
      there is no hex digit or the magnitude exceeds ULONG_MAX. */
  function StoUL16(s: string): (r: Option<int>)
    ensures r.Some? ==> 0 <= r.value <= ULongMax
  {
    var l := ScanLead(s);
    var t := SkipHexPrefix(s[l.start..]);
    var k := DigitRun(t, 16);
    if k == 0 then None
    else
      var mag := ValueIn(t[..k], 16);
      if mag > ULongMax then None
      else Some(if l.negative then (ULongMax + 1 - mag) % (ULongMax + 1) else mag)
  }

  /** The value an int variable receives when assigned x: two's-complement
      truncation to 32 bits. */
  function ToInt32(x: int): (r: int)
    ensures IntMin <= r <= IntMax
    ensures (x - r) % 0x1_0000_0000 == 0
    ensures IntMin <= x <= IntMax ==> r == x
  {
    var m := x % 0x1_0000_0000;
    if m > IntMax then m - 0x1_0000_0000 else m
  }

  // Properties of digit strings

  lemma {:induction false} ValueBound(ds: string, base: nat)
    requires base >= 1 && AllDigitsIn(ds, base)
    ensures ValueIn(ds, base) < Pow(base, |ds|)
    decreases |ds|
  {
    if |ds| > 0 {
      var init := ds[..|ds| - 1];
      ValueBound(init, base);
      var v, p, d := ValueIn(init, base), Pow(base, |init|), DigitOf(ds[|ds| - 1]);
      assert ValueIn(ds, base) == v * base + d;
      assert Pow(base, |ds|) == base * p;
      StepBound(v, p, d, base);
    }
  }

  /** One positional step keeps a numeral below the next power. */
  lemma StepBound(v: nat, p: nat, d: nat, base: nat)
    requires v < p && d < base
    ensures v * base + d < base * p
  {
    assert v * base + d < v * base + base == (v + 1) * base;
    MulMonotone(v + 1, p, base);
  }

  lemma MulMonotone(a: nat, b: nat, c: nat)
    requires a <= b
    ensures a * c <= b * c
  {
  }

  /** A digit string's value splits at any point like a positional numeral. */
  lemma {:induction false} ValueAppend(a: string, b: string, base: nat)
    requires base >= 1 && AllDigitsIn(a, base) && AllDigitsIn(b, base)
    ensures AllDigitsIn(a + b, base)
    ensures ValueIn(a + b, base) == ValueIn(a, base) * Pow(base, |b|) + ValueIn(b, base)
    decreases |b|
  {
    if |b| > 0 {
      var b' := b[..|b| - 1];
      ValueAppend(a, b', base);
      assert (a + b)[..|a + b| - 1] == a + b';
      assert (a + b)[|a + b| - 1] == b[|b| - 1];
      var x, p, y, d := ValueIn(a, base), Pow(base, |b'|), ValueIn(b', base), DigitOf(b[|b| - 1]);
      assert ValueIn(a + b, base) == ValueIn(a + b', base) * base + d;
      assert ValueIn(b, base) == y * base + d;
      assert Pow(base, |b|) == base * p;
      StepShift(x, p, y, d, base);
    } else {
      assert a + b == a;
    }
  }

  lemma StepShift(x: int, p: int, y: int, d: int, base: int)
    ensures (x * p + y) * base + d == x * (base * p) + (y * base + d)
  {
  }

  // Properties of the conversions

  /** The text left once the white space and the sign are consumed. */
  function AfterLead(s: string): string {
    s[ScanLead(s).start..]
  }

  /** t cannot begin a numeral strtod converts: no digit first, no '.'
      followed by a digit, and too short to spell "inf" or "nan" when it
      starts with one of their letters. */
  predicate NoNumeral(t: string) {
    |t| == 0
    || (&& !IsDigitIn(t[0], 10)
        && (t[0] != '.' || |t| == 1 || !IsDigitIn(t[1], 10))
        && (|t| < 3 || (t[0] != 'i' && t[0] != 'I' && t[0] != 'n' && t[0] != 'N')))
  }

  /** stoi throws invalid_argument when no decimal digit follows the white
      space and the sign. */
  lemma StoINoDigits(s: string)
    requires |AfterLead(s)| == 0 || !IsDigitIn(AfterLead(s)[0], 10)
    ensures StoI(s).None?
  {
  }

  /** stod and stof throw invalid_argument when no numeral follows the
      white space and the sign. */
  lemma StoDNoNumeral(s: string)
    requires NoNumeral(AfterLead(s))
    ensures StoD(s).None?
  {
    var t := AfterLead(s);
    assert DigitRun(t, 10) == 0;
    assert t[0..] == t;
    assert |t| > 0 && t[0] == '.' ==> DigitRun(t[1..], 10) == 0;
  }

  /** stoul base 16 throws invalid_argument when no hexadecimal digit
      follows the white space and the sign. */
  lemma StoUL16NoDigits(s: string)
    requires |AfterLead(s)| == 0 || !IsDigitIn(AfterLead(s)[0], 16)
    ensures StoUL16(s).None?
  {
    assert SkipHexPrefix(AfterLead(s)) == AfterLead(s);
  }

  /** stoi of an optionally signed digit string followed by a non-digit:
      it throws out_of_range exactly when the signed value leaves the int
      range, and otherwise returns that value. */
  lemma StoIRange(sign: string, ds: string, tail: string)
    requires |sign| <= 1 && (|sign| == 1 ==> sign[0] == '+' || sign[0] == '-')
    requires 1 <= |ds| && AllDigitsIn(ds, 10)
    requires |tail| == 0 || !IsDigitIn(tail[0], 10)
    ensures StoI(sign + ds + tail).None? <==> ValueIn(ds, 10) > (if (|sign| == 1 && sign[0] == '-') then IntMax + 1 else IntMax)
    ensures StoI(sign + ds + tail).Some? ==>
              StoI(sign + ds + tail).value == (if (|sign| == 1 && sign[0] == '-') then -(ValueIn(ds, 10) as int) else ValueIn(ds, 10))
  {
    var s := sign + ds + tail;
    var l := Lead((|sign| == 1 && sign[0] == '-'), |sign|);
    assert ScanLead(s) == l by {
      assert s[0] == '+' || s[0] == '-' || IsDigitIn(s[0], 10);
      assert SpaceRun(s) == 0;
    }
    DropSign(sign, ds, tail);
    StoIAfterLead(s, l, ds, tail);
  }

  lemma DropSign(sign: string, ds: string, tail: string)
    ensures (sign + ds + tail)[|sign|..] == ds + tail
  {
  }

  /** stoi once the white space and sign are consumed and digits ds follow. */
  lemma StoIAfterLead(s: string, l: Lead, ds: string, tail: string)
    requires ScanLead(s) == l && l.start <= |s| && s[l.start..] == ds + tail
    requires 1 <= |ds| && AllDigitsIn(ds, 10)
    requires |tail| == 0 || !IsDigitIn(tail[0], 10)
    ensures var mag: int := ValueIn(ds, 10);
            var v := if l.negative then -mag else mag;
            StoI(s) == if IntMin <= v <= IntMax then Some(v) else None
  {
    DigitRunOf(ds, tail, 10);
    assert (ds + tail)[..|ds|] == ds;
  }

  /** stoi of a short digit string followed by anything that is not a digit
      is the value of those digits: the trailing text is ignored. */
  lemma StoIDigits(ds: string, tail: string)
    requires 1 <= |ds| <= 9 && AllDigitsIn(ds, 10)
    requires |tail| == 0 || !IsDigitIn(tail[0], 10)
    ensures StoI(ds + tail) == Some(ValueIn(ds, 10))
  {
    var s := ds + tail;
    assert !IsSpace(s[0]) && s[0] != '+' && s[0] != '-';
    assert ScanLead(s) == Lead(false, 0);
    assert s[0..] == s;
    DigitRunOf(ds, tail, 10);
    assert s[..|ds|] == ds;
    ValueBound(ds, 10);
    assert Pow(10, |ds|) <= Pow(10, 9) by { PowMonotone(10, |ds|, 9); }
  }

  /** stoul base 16 of up to sixteen hexadecimal digits followed by anything
      that is not one is the value of those digits. A lone "0" before 'x' or
      'X' is excluded: strtoul may read that as a "0x" prefix. */
  lemma StoUL16Digits(ds: string, tail: string)
    requires 1 <= |ds| <= 16 && AllDigitsIn(ds, 16)
    requires |tail| == 0 || !IsDigitIn(tail[0], 16)
    requires |ds| >= 2 || ds[0] != '0' || |tail| == 0 || (tail[0] != 'x' && tail[0] != 'X')
    ensures StoUL16(ds + tail) == Some(ValueIn(ds, 16))
  {
    var s := ds + tail;
    assert ScanLead(s) == Lead(false, 0) by {
      assert !IsSpace(s[0]) && s[0] != '+' && s[0] != '-';
    }
    assert SkipHexPrefix(s[0..]) == s by {
      assert s[0..] == s;
      assert |ds| >= 2 ==> IsDigitIn(s[1], 16);
    }
    assert DigitRun(s, 16) == |ds| by { DigitRunOf(ds, tail, 16); }
    assert s[..|ds|] == ds;
    assert ValueIn(ds, 16) <= ULongMax by {
      ValueBound(ds, 16);
      PowMonotone(16, |ds|, 16);
      Pow16();
    }
  }

  /** 16^16 is one more than ULONG_MAX. */
  lemma Pow16()
    ensures Pow(16, 16) == ULongMax + 1
  {
    assert Pow(16, 4) == 0x1_0000;
    assert Pow(16, 8) == 0x1_0000 * Pow(16, 4) by { PowAdd(16, 4, 4); }
    assert Pow(16, 16) == Pow(16, 8) * Pow(16, 8) by { PowAdd(16, 8, 8); }
  }

  lemma {:induction false} PowAdd(base: nat, m: nat, n: nat)
    requires base >= 1
    ensures Pow(base, m + n) == Pow(base, m) * Pow(base, n)
    decreases n
  {
    if n > 0 {
      PowAdd(base, m, n - 1);
    }
  }

  lemma {:induction false} PowMonotone(base: nat, m: nat, n: nat)
    requires base >= 1 && m <= n
    ensures Pow(base, m) <= Pow(base, n)
    decreases n
  {
    if m < n {
      PowMonotone(base, m, n - 1);
      MulMonotone(1, base, Pow(base, n - 1));
    }
  }

  /** The digit run of ds + tail is exactly ds when tail does not start with a digit. */
  lemma {:induction false} DigitRunOf(ds: string, tail: string, base: nat)
    requires AllDigitsIn(ds, base)
    requires |tail| == 0 || !IsDigitIn(tail[0], base)
    ensures DigitRun(ds + tail, base) == |ds|
    decreases |ds|
  {
    if |ds| > 0 {
      assert (ds + tail)[1..] == ds[1..] + tail;
      DigitRunOf(ds[1..], tail, base);
    } else {
      assert ds + tail == tail;
    }
  }

  /** stod of a plain decimal numeral `ip.fp` (or `ip` alone), followed by
      text that cannot continue the numeral, is its exact value. */
  lemma StoDDecimal(ip: string, fp: string, tail: string)
    requires 1 <= |ip| && AllDigitsIn(ip, 10) && AllDigitsIn(fp, 10)
    requires |tail| == 0 || (!IsDigitIn(tail[0], 10) && tail[0] != 'e' && tail[0] != 'E')
    ensures StoD(ip + "." + fp + tail) == Some(Decimal(ip, fp))
  {
    var s := ip + "." + fp + tail;
    assert !IsSpace(s[0]) && s[0] != '+' && s[0] != '-';
    assert ScanLead(s) == Lead(false, 0);
    assert s[0..] == s;
    UnsignedDecimalOf(ip, fp, tail);
  }

  lemma UnsignedDecimalOf(ip: string, fp: string, tail: string)
    requires 1 <= |ip| && AllDigitsIn(ip, 10) && AllDigitsIn(fp, 10)
    requires |tail| == 0 || (!IsDigitIn(tail[0], 10) && tail[0] != 'e' && tail[0] != 'E')
    ensures UnsignedDecimal(ip + "." + fp + tail) == Some(Decimal(ip, fp))
  {
    var s := ip + "." + fp + tail;
    assert s == ip + ("." + fp + tail);
    DigitRunOf(ip, "." + fp + tail, 10);
    assert s[..|ip|] == ip;
    var after := s[|ip|..];
    assert after == "." + fp + tail;
    assert after[1..] == fp + tail;
    DigitRunOf(fp, tail, 10);
    assert after[1..][..|fp|] == fp;
    assert after[1 + |fp|..] == tail;
    assert Exponent(tail) == 0;
  }

  /** stod of an optionally '-'-signed numeral is the negated value of the unsigned one. */
  lemma StoDNegative(s: string)
    requires |s| > 0 && !IsSpace(s[0]) && s[0] != '+' && s[0] != '-'
    ensures StoD("-" + s).Some? <==> StoD(s).Some?
    ensures StoD(s).Some? ==> StoD("-" + s).value == -StoD(s).value
  {
    var n := "-" + s;
    assert !IsSpace(n[0]);
    assert ScanLead(n) == Lead(true, 1);
    assert ScanLead(s) == Lead(false, 0);
    assert n[1..] == s[0..];
  }

  /** stod of a digit string alone is its value. */
  lemma StoDWhole(ip: string)
    requires 1 <= |ip| && AllDigitsIn(ip, 10)
    ensures StoD(ip) == Some(ValueIn(ip, 10) as real)
  {
    assert !IsSpace(ip[0]) && ip[0] != '+' && ip[0] != '-';
    assert ScanLead(ip) == Lead(false, 0);
    assert ip[0..] == ip;
    UnsignedWhole(ip);
  }

  lemma UnsignedWhole(ip: string)
    requires 1 <= |ip| && AllDigitsIn(ip, 10)
    ensures UnsignedDecimal(ip) == Some(ValueIn(ip, 10) as real)
  {
    DigitRunOf(ip, "", 10);
    assert ip + "" == ip;
    assert ip[..|ip|] == ip;
    assert ip[|ip|..] == "";
    assert Exponent("") == 0;
    assert Decimal(ip, "") == ValueIn(ip, 10) as real + 0.0;
  }

  /** stoi of at most two characters lies in -9..99: a sign leaves room for one digit only. */
  lemma StoIShort(s: string)
    requires |s| <= 2 && StoI(s).Some?
    ensures -9 <= StoI(s).value <= 99
  {
    var l := ScanLead(s);
    var t := s[l.start..];
    var k := DigitRun(t, 10);
    DigitRunDigits(t, 10);
    ValueBound(t[..k], 10);
    PowMonotone(10, k, 2 - l.start);
    assert Pow(10, 2) == 100 && Pow(10, 1) == 10;
  }
}
