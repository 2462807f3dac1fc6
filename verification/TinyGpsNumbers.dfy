/**
 * The number parsers of the GPS library, over NUL-terminated terms, with the
 * fixed-width arithmetic they use. `long` is taken to have 64 bits, so that `atol`
 * does not overflow on a term.
 */
module TinyGpsNumbers {
  import opened NmeaBytes

  const DOT: byte := 0x2E
  const DASH: byte := 0x2D
  const PLUS: byte := 0x2B

  const TWO32: nat := 0x1_0000_0000

  /** The character at `i`, or the terminator. */
  function At(term: seq<byte>, i: nat): byte {
    if i < |term| then term[i] else 0
  }

  predicate IsDigit(c: byte) {
    0x30 <= c <= 0x39
  }

  type digit = d: int | 0 <= d < 10

  function DigitValue(c: byte): digit
    requires IsDigit(c)
  {
    (c as int) - 0x30
  }

  /** The number written by decimal digits. */
  function Num(s: seq<digit>): nat {
    if s == [] then 0 else Num(s[..|s| - 1]) * 10 + s[|s| - 1]
  }

  function Pow10(n: nat): (r: nat)
    ensures r > 0
  {
    if n == 0 then 1 else 10 * Pow10(n - 1)
  }

  /** The digits a string starts with. */
  function LeadingDigits(s: seq<byte>): (r: seq<digit>)
    ensures |r| <= |s|
  {
    if s == [] || !IsDigit(s[0]) then [] else [DigitValue(s[0])] + LeadingDigits(s[1..])
  }

  function SkipSpaces(s: seq<byte>): seq<byte> {
    if s != [] && (s[0] == 0x20 || 0x09 <= s[0] <= 0x0D) then SkipSpaces(s[1..]) else s
  }

  /** `atol` */
  function Atol(term: seq<byte>): int {
    var s := SkipSpaces(term);
    if s != [] && s[0] == DASH then -(Num(LeadingDigits(s[1..])) as int)
    else if s != [] && s[0] == PLUS then Num(LeadingDigits(s[1..]))
    else Num(LeadingDigits(s))
  }

  /** A cast to `int32_t` */
  function Int32(x: int): int {
    var u := x % TWO32;
    if u < 0x8000_0000 then u else u - TWO32
  }

  // ----- Degrees -----

  datatype RawDegrees = RawDegrees(deg: nat, billionths: nat, negative: bool)

  /** The fraction digits of a term, read behind the digits it starts with. */
  function FractionDigits(term: seq<byte>): seq<digit> {
    var n := |LeadingDigits(term)|;
    if At(term, n) == DOT then LeadingDigits(term[n + 1..]) else []
  }

  /** Each digit counts for a tenth of the multiplier before it; the divisions truncate. */
  function Fraction(digits: seq<digit>, multiplier: nat): nat {
    if digits == [] then 0 else digits[0] * (multiplier / 10) + Fraction(digits[1..], multiplier / 10)
  }

  /** The minutes of a term in ten-millionths. */
  function TenMillionths(term: seq<byte>): nat {
    Atol(term) % TWO32 % 100 * 10000000 + Fraction(FractionDigits(term), 10000000)
  }

  /** `parseDegrees` */
  function ParseDegrees(term: seq<byte>): RawDegrees {
    RawDegrees(Atol(term) % TWO32 / 100 % 0x1_0000, (5 * TenMillionths(term) + 1) % TWO32 / 3, false)
  }

  lemma TenthOfPow10(k: nat)
    requires k > 0
    ensures Pow10(k) / 10 == Pow10(k - 1) && Pow10(k) == 10 * Pow10(k - 1)
  {
  }

  lemma {:induction false} FractionBound(digits: seq<digit>, k: nat)
    ensures Fraction(digits, Pow10(k)) < Pow10(k)
    decreases k
  {
    if digits != [] {
      if k == 0 {
        FractionOfZero(digits[1..]);
      } else {
        hide Pow10;
        TenthOfPow10(k);
        FractionBound(digits[1..], k - 1);
        TenTimes(digits[0], Pow10(k - 1));
      }
    }
  }

  lemma TenTimes(d: digit, p: nat)
    ensures d * p + p <= 10 * p
  {
  }

  lemma {:induction false} FractionOfZero(digits: seq<digit>)
    ensures Fraction(digits, 0) == 0
  {
    if digits != [] {
      FractionOfZero(digits[1..]);
    }
  }

  lemma {:induction false} LeadingDigitsStep(term: seq<byte>, i: nat)
    requires i < |term|
    ensures LeadingDigits(term[i..]) == if IsDigit(term[i]) then [DigitValue(term[i])] + LeadingDigits(term[i + 1..]) else []
  {
    assert term[i..][0] == term[i] && term[i..][1..] == term[i + 1..];
  }

  /** `parseDegrees` as it is written: the additions are those of `uint32_t`. */
  method ParseDegreesLoop(term: seq<byte>) returns (r: RawDegrees)
    requires 0 !in term
    ensures r == ParseDegrees(term)
  {
    hide Atol, Fraction, LeadingDigits, DigitValue;
    var leftOfDecimal := Atol(term) % TWO32;
    var minutes := leftOfDecimal % 100;
    var multiplier: nat := 10000000;
    var tenMillionthsOfMinutes: nat := minutes * multiplier % TWO32;
    SmallMod(minutes * multiplier, TWO32);
    var deg := leftOfDecimal / 100 % 0x1_0000;

    var p := 0;
    assert term[0..] == term;
    while IsDigit(At(term, p))
      invariant p <= |term|
      invariant p + |LeadingDigits(term[p..])| == |LeadingDigits(term)|
      decreases |term| - p
    {
      LeadingDigitsStep(term, p);
      p := p + 1;
    }
    DigitsEnd(term, p);
    NoFraction(10000000);
    if At(term, p) == DOT {
      tenMillionthsOfMinutes := AddFraction(term, p, tenMillionthsOfMinutes);
    }
    r := RawDegrees(deg, (5 * tenMillionthsOfMinutes + 1) % TWO32 / 3, false);
  }

  /** The loop behind the decimal point. */
  method AddFraction(term: seq<byte>, dot: nat, minutes: nat) returns (t: nat)
    requires 0 !in term && dot < |term| && minutes <= 99 * 10000000
    ensures t == minutes + Fraction(LeadingDigits(term[dot + 1..]), 10000000)
  {
    hide Fraction, LeadingDigits, IsDigit, DigitValue;
    ghost var total := minutes + Fraction(LeadingDigits(term[dot + 1..]), 10000000);
    SevenDigits();
    FractionBound(LeadingDigits(term[dot + 1..]), 7);
    var q := dot + 1;
    var multiplier: nat := 10000000;
    t := minutes;
    while IsDigit(At(term, q))
      invariant dot < q <= |term|
      invariant t + Fraction(LeadingDigits(term[q..]), multiplier) == total < TWO32
      decreases |term| - q
    {
      FractionSplits(term, q, multiplier);
      multiplier := multiplier / 10;
      t := (t + DigitValue(term[q]) * multiplier) % TWO32;
      q := q + 1;
    }
    FractionEnds(term, q, multiplier);
  }

  lemma DigitsEnd(term: seq<byte>, p: nat)
    requires p <= |term| && !IsDigit(At(term, p))
    ensures LeadingDigits(term[p..]) == []
  {
    if p < |term| {
      LeadingDigitsStep(term, p);
    }
  }

  lemma NoFraction(multiplier: nat)
    ensures Fraction([], multiplier) == 0
  {
  }

  lemma FractionSplits(term: seq<byte>, q: nat, multiplier: nat)
    requires q <= |term| && IsDigit(At(term, q))
    ensures q < |term| && IsDigit(term[q])
    ensures Fraction(LeadingDigits(term[q..]), multiplier)
            == DigitValue(term[q]) * (multiplier / 10) + Fraction(LeadingDigits(term[q + 1..]), multiplier / 10)
  {
    hide LeadingDigits, Fraction, DigitValue;
    LeadingDigitsStep(term, q);
    FractionStep(DigitValue(term[q]), LeadingDigits(term[q + 1..]), multiplier);
  }

  lemma FractionEnds(term: seq<byte>, q: nat, multiplier: nat)
    requires q <= |term| && !IsDigit(At(term, q))
    ensures Fraction(LeadingDigits(term[q..]), multiplier) == 0
  {
    DigitsEnd(term, q);
  }

  lemma FractionStep(d: digit, digits: seq<digit>, multiplier: nat)
    ensures Fraction([d] + digits, multiplier) == d * (multiplier / 10) + Fraction(digits, multiplier / 10)
  {
    assert ([d] + digits)[1..] == digits;
  }

  // ----- What the fraction means -----

  lemma {:induction false} NumOfConcat(a: seq<digit>, b: seq<digit>)
    ensures Num(a + b) == Num(a) * Pow10(|b|) + Num(b)
  {
    if b == [] {
      assert a + b == a;
    } else {
      var n := |b| - 1;
      assert (a + b)[..|a| + n] == a + b[..n];
      NumOfConcat(a, b[..n]);
      MulTimes10(Num(a), Pow10(n));
      assert Num(a + b) == Num(a + b[..n]) * 10 + b[n] && Num(b) == Num(b[..n]) * 10 + b[n];
    }
  }

  lemma MulTimes10(x: nat, y: nat)
    ensures x * (10 * y) == x * y * 10
  {
  }

  lemma {:induction false} NumBound(s: seq<digit>)
    ensures Num(s) < Pow10(|s|)
  {
    if s != [] {
      NumBound(s[..|s| - 1]);
    }
  }

  lemma NumOfOne(d: digit)
    ensures Num([d]) == d
  {
    assert [d][..0] == [];
  }

  lemma NumOfHead(d: digit, tail: seq<digit>)
    ensures Num([d] + tail) == d * Pow10(|tail|) + Num(tail)
  {
    hide Pow10, Num;
    NumOfConcat([d], tail);
    NumOfOne(d);
  }

  /** With at most `k` digits nothing is cut off. */
  lemma {:induction false} FractionExact(digits: seq<digit>, k: nat)
    requires |digits| <= k
    ensures Fraction(digits, Pow10(k)) == Num(digits) * Pow10(k - |digits|)
    decreases |digits|
  {
    if digits != [] {
      var d, tail := digits[0], digits[1..];
      assert digits == [d] + tail;
      NumOfHead(d, tail);
      FractionExact(tail, k - 1);
      Pow10Adds(|tail|, k - |digits|);
      Distribute(d, Pow10(|tail|), Num(tail), Pow10(k - |digits|));
    }
  }

  lemma Distribute(d: nat, p: nat, n: nat, m: nat)
    ensures (d * p + n) * m == d * (p * m) + n * m
  {
    assert d * p * m == d * (p * m);
  }

  lemma {:induction false} Pow10Adds(a: nat, b: nat)
    ensures Pow10(a + b) == Pow10(a) * Pow10(b)
  {
    if a > 0 {
      Pow10Adds(a - 1, b);
      assert 10 * (Pow10(a - 1) * Pow10(b)) == 10 * Pow10(a - 1) * Pow10(b);
    }
  }

  /** Digits beyond the `k`-th count for nothing. */
  lemma {:induction false} FractionCut(digits: seq<digit>, k: nat)
    requires |digits| >= k
    ensures Fraction(digits, Pow10(k)) == Num(digits[..k])
    decreases k
  {
    if k == 0 {
      if digits != [] {
        FractionOfZero(digits[1..]);
      }
    } else {
      var d, tail := digits[0], digits[1..];
      FractionCut(tail, k - 1);
      assert digits[..k] == [d] + tail[..k - 1];
      NumOfHead(d, tail[..k - 1]);
    }
  }

  /** The fraction is the decimal fraction of its digits, truncated: the largest number of `1 / 10^k` parts that it reaches. */
  lemma FractionTruncates(digits: seq<digit>, k: nat)
    ensures Fraction(digits, Pow10(k)) == Num(digits) * Pow10(k) / Pow10(|digits|)
  {
    hide Num, Pow10, Fraction;
    var n := |digits|;
    if n <= k {
      FractionExact(digits, k);
      Pow10Adds(k - n, n);
      QuotientIs(Num(digits), Pow10(k - n), 0, Pow10(n), 1);
    } else {
      FractionCut(digits, k);
      assert digits == digits[..k] + digits[k..];
      NumOfConcat(digits[..k], digits[k..]);
      NumBound(digits[k..]);
      Pow10Adds(n - k, k);
      QuotientIs(Num(digits[..k]), 1, Num(digits[k..]), Pow10(n - k), Pow10(k));
    }
  }

  /** Dividing `(a * b + r) * c` by `b * c`, up to a factor `m` that stays. */
  lemma QuotientIs(a: nat, m: nat, r: nat, b: nat, c: nat)
    requires r < b && c > 0 && (m == 1 || (r == 0 && c == 1))
    ensures if m == 1 then (a * b + r) * c / (b * c) == a else a * (m * b) / b == a * m
  {
    if m == 1 {
      Distribute(a, b, r, c);
      assert r * c < b * c;
      DivideByDefinition(a * (b * c) + r * c, b * c, a, r * c);
    } else {
      assert a * (m * b) == a * m * b;
      DivideByDefinition(a * m * b, b, a * m, 0);
    }
  }

  lemma DivideByDefinition(x: nat, y: nat, q: nat, r: nat)
    requires y > 0 && x == q * y + r && r < y
    ensures x / y == q
  {
    var k := q - x / y;
    assert k * y == q * y - x / y * y;
    assert k * y == x % y - r;
    Grows(k, y);
  }

  lemma Grows(k: int, y: int)
    requires y > 0
    ensures k >= 1 ==> k * y >= y
    ensures k <= -1 ==> k * y + y <= 0
  {
  }

  // ----- What the parsers promise -----

  function Ascii(digits: seq<digit>): seq<byte> {
    seq(|digits|, i requires 0 <= i < |digits| => 0x30 + digits[i] as byte)
  }

  lemma {:induction false} LeadingDigitsOfConcat(digits: seq<digit>, rest: seq<byte>)
    requires rest == [] || !IsDigit(rest[0])
    ensures LeadingDigits(Ascii(digits) + rest) == digits
  {
    hide LeadingDigits, Ascii, IsDigit;
    AsciiStep(digits, rest);
    if digits == [] {
      NoDigits(rest);
    } else {
      LeadingDigitsOfConcat(digits[1..], rest);
      OneMoreDigit(digits[0], Ascii(digits[1..]) + rest);
    }
  }

  lemma AsciiStep(digits: seq<digit>, rest: seq<byte>)
    ensures Ascii(digits) + rest == if digits == [] then rest else [0x30 + digits[0] as byte] + (Ascii(digits[1..]) + rest)
  {
  }

  lemma NoDigits(rest: seq<byte>)
    requires rest == [] || !IsDigit(rest[0])
    ensures LeadingDigits(rest) == []
  {
  }

  lemma OneMoreDigit(d: digit, s: seq<byte>)
    ensures LeadingDigits([0x30 + d as byte] + s) == [d] + LeadingDigits(s)
  {
    AsciiIsDigit(d);
    var text := [0x30 + d as byte] + s;
    assert text[0] == 0x30 + d as byte && text[1..] == s;
  }

  lemma AsciiIsDigit(d: digit)
    ensures var c := 0x30 + d as byte;
            IsDigit(c) && DigitValue(c) == d
  {
  }

  /** `whole.fraction` */
  function DecimalTerm(whole: seq<digit>, fraction: seq<digit>): seq<byte> {
    Ascii(whole) + [DOT] + Ascii(fraction)
  }

  lemma DecimalTermParts(whole: seq<digit>, fraction: seq<digit>)
    requires whole != []
    ensures var term := DecimalTerm(whole, fraction);
            Atol(term) == Num(whole) && FractionDigits(term) == fraction
  {
    hide Num;
    var term := DecimalTerm(whole, fraction);
    assert term == Ascii(whole) + ([DOT] + Ascii(fraction));
    LeadingDigitsOfConcat(whole, [DOT] + Ascii(fraction));
    AsciiIsDigit(whole[0]);
    assert term[0] == 0x30 + whole[0] as byte;
    assert SkipSpaces(term) == term;
    assert term[|whole| + 1..] == Ascii(fraction) && Ascii(fraction) + [] == Ascii(fraction);
    LeadingDigitsOfConcat(fraction, []);
  }

  /** For degrees and minutes `dddmm.ffff` with any number of fraction digits: `t`, the minutes truncated to ten-millionths,
      becomes the nearest whole number of billionths of a degree exactly when `5t + 1` fits 32 bits. */
  lemma DegreesAreNearest(whole: seq<digit>, fraction: seq<digit>)
    requires whole != [] && Num(whole) < TWO32
    ensures var r := ParseDegrees(DecimalTerm(whole, fraction));
            var t := Num(whole) % 100 * 10000000 + Num(fraction) * 10000000 / Pow10(|fraction|);
            && r.deg == Num(whole) / 100 % 0x1_0000
            && (-1 <= 3 * r.billionths - 5 * t <= 1 <==> 5 * t + 1 < TWO32)
            && (Num(whole) % 100 < 60 ==> 5 * t + 1 < TWO32 && r.billionths < 1_000_000_000)
  {
    hide Atol, FractionDigits, Num, Fraction, DecimalTerm, Pow10, ParseDegrees;
    var term := DecimalTerm(whole, fraction);
    DecimalTermParts(whole, fraction);
    SevenDigits();
    FractionTruncates(fraction, 7);
    FractionBound(fraction, 7);
    DegreesOf(term, Num(whole), Fraction(fraction, 10000000));
  }

  lemma DegreesOf(term: seq<byte>, whole: nat, parts: nat)
    requires Atol(term) == whole < TWO32 && Fraction(FractionDigits(term), 10000000) == parts < 10000000
    ensures var r := ParseDegrees(term);
            var t := whole % 100 * 10000000 + parts;
            && r.deg == whole / 100 % 0x1_0000
            && (-1 <= 3 * r.billionths - 5 * t <= 1 <==> 5 * t + 1 < TWO32)
            && (whole % 100 < 60 ==> 5 * t + 1 < TWO32 && r.billionths < 1_000_000_000)
  {
    DegreesAsParts(term, whole, parts);
    hide ParseDegrees, Atol, FractionDigits, Fraction;
    MinutesBound(whole % 100, parts);
    NearestThird(whole % 100 * 10000000 + parts);
  }

  lemma DegreesAsParts(term: seq<byte>, whole: nat, parts: nat)
    requires Atol(term) == whole < TWO32 && Fraction(FractionDigits(term), 10000000) == parts < 10000000
    ensures var r := ParseDegrees(term);
            r.deg == whole / 100 % 0x1_0000 && r.billionths == (5 * (whole % 100 * 10000000 + parts) + 1) % TWO32 / 3
  {
    TenMillionthsOf(term, whole, parts);
    hide Atol, FractionDigits, Fraction, TenMillionths;
    SmallMod(whole, TWO32);
  }

  lemma TenMillionthsOf(term: seq<byte>, whole: nat, parts: nat)
    requires Atol(term) == whole < TWO32 && Fraction(FractionDigits(term), 10000000) == parts
    ensures TenMillionths(term) == whole % 100 * 10000000 + parts
  {
    hide Atol, FractionDigits, Fraction;
    SmallMod(whole, TWO32);
  }

  lemma SmallMod(x: nat, m: nat)
    requires x < m
    ensures x % m == x
  {
  }

  lemma MinutesBound(minutes: nat, parts: nat)
    requires minutes < 100 && parts < 10000000
    ensures minutes * 10000000 + parts < 100 * 10000000
    ensures minutes < 60 ==> minutes * 10000000 + parts < 60 * 10000000
  {
  }

  lemma SevenDigits()
    ensures Pow10(7) == 10000000
  {
  }

  lemma NearestThird(t: nat)
    requires t < 100 * 10000000
    ensures var b := (5 * t + 1) % TWO32 / 3;
            && (-1 <= 3 * b - 5 * t <= 1 <==> 5 * t + 1 < TWO32)
            && (t < 60 * 10000000 ==> 5 * t + 1 < TWO32 && b < 1_000_000_000)
  {
    if 5 * t + 1 >= TWO32 {
      assert (5 * t + 1) % TWO32 == 5 * t + 1 - TWO32;
    }
  }

  // ----- Decimals -----

  /** `parseDecimal`; its sums and its sign change wrap around in `int32_t`. */
  function ParseDecimal(term: seq<byte>): int {
    if At(term, 0) == DASH then Int32(-ParseUnsigned(term[1..])) else ParseUnsigned(term)
  }

  function ParseUnsigned(s: seq<byte>): int {
    var n := |LeadingDigits(s)|;
    Int32(100 * Int32(Atol(s)) + if At(s, n) == DOT then Hundredths(s[n + 1..]) else 0)
  }

  /** At most two digits behind the point. */
  function Hundredths(s: seq<byte>): int {
    if !IsDigit(At(s, 0)) then 0
    else if !IsDigit(At(s, 1)) then 10 * DigitValue(s[0])
    else 10 * DigitValue(s[0]) + DigitValue(s[1])
  }

  lemma HundredthsOfDigits(fraction: seq<digit>)
    ensures Hundredths(Ascii(fraction)) == Fraction(fraction, 100)
  {
    if |fraction| >= 1 {
      AsciiIsDigit(fraction[0]);
      if |fraction| >= 2 {
        AsciiIsDigit(fraction[1]);
        FractionCut(fraction[1..][1..], 0);
        assert fraction[1..][0] == fraction[1];
      }
    }
  }

  lemma UnsignedTruncates(whole: seq<digit>, fraction: seq<digit>)
    requires whole != []
    ensures ParseUnsigned(DecimalTerm(whole, fraction))
            == Int32(Num(whole) * 100 + Num(fraction) * 100 / Pow10(|fraction|))
  {
    hide Atol, Num, Fraction, LeadingDigits, Hundredths, FractionDigits, Int32, Pow10, Ascii;
    var s := DecimalTerm(whole, fraction);
    AsciiLength(whole);
    DecimalTermParts(whole, fraction);
    assert s == Ascii(whole) + ([DOT] + Ascii(fraction));
    LeadingDigitsOfConcat(whole, [DOT] + Ascii(fraction));
    assert s[|whole| + 1..] == Ascii(fraction);
    HundredthsOfDigits(fraction);
    HundredIsPow10();
    FractionTruncates(fraction, 2);
    Int32OfScaled(Num(whole), Fraction(fraction, 100));
  }

  lemma AsciiLength(digits: seq<digit>)
    ensures |Ascii(digits)| == |digits|
  {
  }

  /** A wrapped number is off by a multiple of 2^32, and is itself exactly when it is in range. */
  lemma Int32Wraps(x: int)
    ensures Int32(x) == x - TWO32 * ((x + 0x8000_0000) / TWO32)
    ensures Int32(x) == x <==> -0x8000_0000 <= x < 0x8000_0000
  {
  }

  lemma Int32OfMultiple(x: int, k: int)
    ensures Int32(x - TWO32 * k) == Int32(x)
  {
    RemainderOfMultiple(x, k);
  }

  lemma RemainderOfMultiple(x: int, k: int)
    ensures (x - TWO32 * k) % TWO32 == x % TWO32
  {
  }

  /** Wrapping before a scaling does not change the wrapped result. */
  lemma Int32OfScaled(x: int, h: int)
    ensures Int32(100 * Int32(x) + h) == Int32(x * 100 + h)
  {
    hide Int32;
    var k := (x + 0x8000_0000) / TWO32;
    Int32Wraps(x);
    Int32OfMultiple(x * 100 + h, 100 * k);
  }

  lemma AddWrapped(x: int, h: int)
    ensures Int32(Int32(x) + h) == Int32(x + h)
  {
    hide Int32;
    var k := (x + 0x8000_0000) / TWO32;
    Int32Wraps(x);
    Int32OfMultiple(x + h, k);
  }

  lemma Int32OfNegated(x: int)
    ensures Int32(-Int32(x)) == Int32(-x)
  {
    hide Int32;
    var k := (x + 0x8000_0000) / TWO32;
    Int32Wraps(x);
    Int32OfMultiple(-x, -k);
  }

  lemma HundredIsPow10()
    ensures Pow10(2) == 100
  {
  }

  /** A signed decimal number becomes its hundredths, truncated toward zero, exactly when those fit 32 bits; otherwise
      they are wrapped. */
  lemma DecimalTruncates(negative: bool, whole: seq<digit>, fraction: seq<digit>)
    requires whole != []
    ensures var term := (if negative then [DASH] else []) + DecimalTerm(whole, fraction);
            var magnitude := Num(whole) * 100 + Num(fraction) * 100 / Pow10(|fraction|);
            var hundredths := if negative then -magnitude else magnitude;
            && ParseDecimal(term) == Int32(hundredths)
            && (ParseDecimal(term) == hundredths <==> -0x8000_0000 <= hundredths < 0x8000_0000)
  {
    hide ParseUnsigned, Num, Pow10, Int32, ParseDecimal, DecimalTerm;
    UnsignedTruncates(whole, fraction);
    SignedTruncates(negative, whole, fraction, Num(whole) * 100 + Num(fraction) * 100 / Pow10(|fraction|));
  }

  lemma SignedTruncates(negative: bool, whole: seq<digit>, fraction: seq<digit>, magnitude: int)
    requires whole != [] && ParseUnsigned(DecimalTerm(whole, fraction)) == Int32(magnitude)
    ensures var term := (if negative then [DASH] else []) + DecimalTerm(whole, fraction);
            var hundredths := if negative then -magnitude else magnitude;
            && ParseDecimal(term) == Int32(hundredths)
            && (ParseDecimal(term) == hundredths <==> -0x8000_0000 <= hundredths < 0x8000_0000)
  {
    hide ParseUnsigned, Int32;
    var s := DecimalTerm(whole, fraction);
    if negative {
      assert ([DASH] + s)[1..] == s;
      Int32OfNegated(magnitude);
      Int32Wraps(-magnitude);
    } else {
      AsciiIsDigit(whole[0]);
      assert s[0] == 0x30 + whole[0] as byte;
      assert [] + s == s;
      Int32Wraps(magnitude);
    }
  }

  /** `parseDecimal` as it is written. */
  method ParseDecimalLoop(term: seq<byte>) returns (r: int)
    requires 0 !in term
    ensures r == ParseDecimal(term)
  {
    hide Atol, Int32;
    var negative := At(term, 0) == DASH;
    var s := if negative then term[1..] else term;
    assert 0 !in s;
    var ret := Int32(100 * Int32(Atol(s)));
    var p := 0;
    assert s[0..] == s;
    while IsDigit(At(s, p))
      invariant p <= |s|
      invariant p + |LeadingDigits(s[p..])| == |LeadingDigits(s)|
      decreases |s| - p
    {
      LeadingDigitsStep(s, p);
      p := p + 1;
    }
    DigitsEnd(s, p);
    if At(s, p) == DOT && IsDigit(At(s, p + 1)) {
      AddWrapped(100 * Int32(Atol(s)), 10 * DigitValue(s[p + 1]));
      ret := Int32(ret + 10 * DigitValue(s[p + 1]));
      if IsDigit(At(s, p + 2)) {
        AddWrapped(100 * Int32(Atol(s)) + 10 * DigitValue(s[p + 1]), DigitValue(s[p + 2]));
        ret := Int32(ret + DigitValue(s[p + 2]));
      }
    }
    r := if negative then Int32(-ret) else ret;
  }
}
