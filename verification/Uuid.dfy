/** UUID values: sixteen bytes, their accessors, their order and their text form. */
module UuidText {
  import opened Prelude
  import opened ByteNumbers

  datatype UUID = UUID(bytes: seq<byte>)

  predicate WellFormed(u: UUID) {
    |u.bytes| == 16
  }

  // ----- Order -----

  /** The byte order of the comparison operator. */
  predicate BytesLess(a: seq<byte>, b: seq<byte>) {
    b != [] && (a == [] || a[0] < b[0] || (a[0] == b[0] && BytesLess(a[1..], b[1..])))
  }

  predicate StringLess(a: string, b: string) {
    b != [] && (a == [] || a[0] < b[0] || (a[0] == b[0] && StringLess(a[1..], b[1..])))
  }

  lemma {:induction false} LessByLastByte(a: seq<byte>, b: seq<byte>)
    requires |a| == |b| > 0
    ensures var n := |a| - 1;
            BytesLess(a, b) <==> BytesLess(a[..n], b[..n]) || (a[..n] == b[..n] && a[n] < b[n])
  {
    var n := |a| - 1;
    if n > 0 {
      LessByLastByte(a[1..], b[1..]);
      assert a[1..][..n - 1] == a[..n][1..] && b[1..][..n - 1] == b[..n][1..];
      assert a[..n] == [a[0]] + a[..n][1..] && b[..n] == [b[0]] + b[..n][1..];
    }
  }

  /** byte order is the order of the numbers. */
  lemma {:induction false} OrderIsNumeric(a: seq<byte>, b: seq<byte>)
    requires |a| == |b|
    ensures BytesLess(a, b) <==> BigEndian(a) < BigEndian(b)
    ensures a == b <==> BigEndian(a) == BigEndian(b)
  {
    if a != [] {
      var n := |a| - 1;
      OrderIsNumeric(a[..n], b[..n]);
      LessByLastByte(a, b);
      assert a == a[..n] + [a[n]] && b == b[..n] + [b[n]];
    }
  }

  lemma {:induction false} PrefixDecides(a: seq<byte>, b: seq<byte>, k: nat)
    requires k <= |a| && k <= |b| && BytesLess(a[..k], b[..k])
    ensures BytesLess(a, b)
  {
    if a[0] == b[0] {
      assert a[..k][1..] == a[1..][..k - 1] && b[..k][1..] == b[1..][..k - 1];
      PrefixDecides(a[1..], b[1..], k - 1);
    }
  }

  // ----- Text -----

  function HexChar(n: nat): char
    requires n < 16
  {
    if n < 10 then '0' + n as char else 'a' + (n - 10) as char
  }

  function HexBytes(s: seq<byte>): (r: string)
    ensures |r| == 2 * |s|
  {
    if s == [] then [] else [HexChar(s[0] / 16), HexChar(s[0] % 16)] + HexBytes(s[1..])
  }

  /** The five groups of the text form. */
  function Groups(u: UUID): (r: seq<string>)
    requires WellFormed(u)
    ensures |r| == 5
  {
    var b := u.bytes;
    [HexBytes(b[..4]), HexBytes(b[4..6]), HexBytes(b[6..8]), HexBytes(b[8..10]), HexBytes(b[10..])]
  }

  function Joined(groups: seq<string>, separator: string): string {
    if groups == [] then []
    else if |groups| == 1 then groups[0]
    else groups[0] + separator + Joined(groups[1..], separator)
  }

  /** `to_string` */
  function ToString(u: UUID): string
    requires WellFormed(u)
  {
    Joined(Groups(u), "-")
  }

  predicate IsHexDigit(c: char) {
    '0' <= c <= '9' || 'a' <= c <= 'f' || 'A' <= c <= 'F'
  }

  function Lower(c: char): char {
    if 'A' <= c <= 'Z' then c - 'A' + 'a' else c
  }

  /** The value of a digit, as the parser computes it from a lower-case character. */
  function Digit(c: char): nat
    requires IsHexDigit(c) && Lower(c) == c
  {
    if c <= '9' then (c - '0') as nat else (c - 'a') as nat + 10
  }

  /** The digits of a text, in lower case, if there is nothing else in it but hyphens. */
  function Digits(s: string): (r: Option<string>)
    ensures r.Some? ==> |r.value| <= |s| && forall i :: 0 <= i < |r.value| ==> IsHexDigit(r.value[i]) && Lower(r.value[i]) == r.value[i]
  {
    if s == [] then Some([]) else
    var n := |s| - 1;
    if Digits(s[..n]).None? then None
    else if s[n] == '-' then Digits(s[..n])
    else if IsHexDigit(s[n]) then Some(Digits(s[..n]).value + [Lower(s[n])])
    else None
  }

  function BytesOf(hex: string): (r: seq<byte>)
    requires |hex| % 2 == 0 && forall i :: 0 <= i < |hex| ==> IsHexDigit(hex[i]) && Lower(hex[i]) == hex[i]
    ensures |r| == |hex| / 2
  {
    if hex == [] then [] else [16 * Digit(hex[0]) + Digit(hex[1])] + BytesOf(hex[2..])
  }

  /** `from_string` */
  function FromString(s: string): (r: Option<UUID>)
    ensures r.Some? ==> WellFormed(r.value)
  {
    match Digits(s)
    case None => None
    case Some(hex) => if |hex| != 32 then None else Some(UUID(BytesOf(hex)))
  }

  // ----- What parsing accepts -----

  predicate HexOrHyphen(s: string) {
    forall i :: 0 <= i < |s| ==> s[i] == '-' || IsHexDigit(s[i])
  }

  function CountDigits(s: string): nat {
    if s == [] then 0 else CountDigits(s[..|s| - 1]) + if s[|s| - 1] == '-' then 0 else 1
  }

  lemma {:induction false} DigitsAccepts(s: string)
    ensures Digits(s).Some? <==> HexOrHyphen(s)
    ensures Digits(s).Some? ==> |Digits(s).value| == CountDigits(s)
  {
    if s != [] {
      var n := |s| - 1;
      DigitsAccepts(s[..n]);
      assert s == s[..n] + [s[n]];
      assert HexOrHyphen(s) ==> s[n] == '-' || IsHexDigit(s[n]);
    }
  }

  /** Parsing succeeds exactly on texts of hexadecimal digits and hyphens with 32 digits. */
  lemma FromStringAccepts(s: string)
    ensures FromString(s).Some? <==> HexOrHyphen(s) && CountDigits(s) == 32
  {
    DigitsAccepts(s);
  }

  // ----- Round trips -----

  predicate LowerHex(s: string) {
    forall i :: 0 <= i < |s| ==> IsHexDigit(s[i]) && Lower(s[i]) == s[i]
  }

  lemma {:induction false} DigitsOfConcat(a: string, b: string)
    requires Digits(a).Some? && Digits(b).Some?
    ensures Digits(a + b) == Some(Digits(a).value + Digits(b).value)
  {
    if b == [] {
      assert a + b == a;
      assert Digits(a).value + [] == Digits(a).value;
    } else {
      var n := |b| - 1;
      assert (a + b)[..|a| + n] == a + b[..n];
      DigitsOfConcat(a, b[..n]);
      if b[n] != '-' {
        assert Digits(a).value + Digits(b).value == Digits(a).value + Digits(b[..n]).value + [Lower(b[n])];
      }
    }
  }

  lemma {:induction false} DigitsOfHex(s: string)
    requires LowerHex(s)
    ensures Digits(s) == Some(s)
  {
    if s != [] {
      DigitsOfHex(s[..|s| - 1]);
      assert s == s[..|s| - 1] + [s[|s| - 1]];
    }
  }

  lemma HexCharIsDigit(n: nat)
    requires n < 16
    ensures IsHexDigit(HexChar(n)) && Lower(HexChar(n)) == HexChar(n) && Digit(HexChar(n)) == n
  {
  }

  lemma {:induction false} HexBytesAreDigits(s: seq<byte>)
    ensures LowerHex(HexBytes(s))
    ensures BytesOf(HexBytes(s)) == s
  {
    if s != [] {
      HexBytesAreDigits(s[1..]);
      HexCharIsDigit(s[0] / 16);
      HexCharIsDigit(s[0] % 16);
      var hex := HexBytes(s);
      assert hex[2..] == HexBytes(s[1..]);
      forall i | 0 <= i < |hex| ensures IsHexDigit(hex[i]) && Lower(hex[i]) == hex[i] {
        if i >= 2 {
          assert hex[i] == hex[2..][i - 2];
        }
      }
      assert s == [s[0]] + s[1..];
    }
  }

  lemma {:induction false} HexBytesOfConcat(a: seq<byte>, b: seq<byte>)
    ensures HexBytes(a + b) == HexBytes(a) + HexBytes(b)
  {
    if a == [] {
      assert a + b == b;
    } else {
      assert (a + b)[1..] == a[1..] + b;
      HexBytesOfConcat(a[1..], b);
    }
  }

  /** The groups without hyphens are the digits of all the bytes. */
  lemma GroupsCover(u: UUID)
    requires WellFormed(u)
    ensures Joined(Groups(u), "") == HexBytes(u.bytes)
    ensures forall i :: 0 <= i < 5 ==> LowerHex(Groups(u)[i])
  {
    hide HexBytes, LowerHex;
    var b := u.bytes;
    var g := Groups(u);
    JoinedFive(g, "");
    assert b == b[..4] + (b[4..6] + (b[6..8] + (b[8..10] + b[10..])));
    HexBytesOfConcat(b[8..10], b[10..]);
    HexBytesOfConcat(b[6..8], b[8..10] + b[10..]);
    HexBytesOfConcat(b[4..6], b[6..8] + (b[8..10] + b[10..]));
    HexBytesOfConcat(b[..4], b[4..6] + (b[6..8] + (b[8..10] + b[10..])));
    HexBytesAreDigits(b[..4]);
    HexBytesAreDigits(b[4..6]);
    HexBytesAreDigits(b[6..8]);
    HexBytesAreDigits(b[8..10]);
    HexBytesAreDigits(b[10..]);
    assert HexBytes(b) == g[0] + (g[1] + (g[2] + (g[3] + g[4])));
    assert g[0] + "" + (g[1] + "" + (g[2] + "" + (g[3] + "" + g[4]))) == g[0] + (g[1] + (g[2] + (g[3] + g[4])));
  }

  lemma JoinedFive(g: seq<string>, separator: string)
    requires |g| == 5
    ensures Joined(g, separator)
            == g[0] + separator + (g[1] + separator + (g[2] + separator + (g[3] + separator + g[4])))
  {
    assert g[1..][1..] == g[2..] && g[2..][1..] == g[3..] && g[3..][1..] == g[4..] && |g[4..]| == 1;
    assert Joined(g[4..], separator) == g[4];
    assert Joined(g[3..], separator) == g[3] + separator + g[4];
    assert Joined(g[2..], separator) == g[2] + separator + (g[3] + separator + g[4]);
    assert Joined(g[1..], separator) == g[1] + separator + (g[2] + separator + (g[3] + separator + g[4]));
  }

  /** Hyphens between groups are skipped. */
  lemma {:induction false} DigitsOfJoined(groups: seq<string>)
    requires forall i :: 0 <= i < |groups| ==> LowerHex(groups[i])
    ensures Digits(Joined(groups, "-")) == Some(Joined(groups, ""))
  {
    if groups == [] {
    } else if |groups| == 1 {
      DigitsOfHex(groups[0]);
    } else {
      hide LowerHex;
      DigitsOfJoined(groups[1..]);
      DigitsOfHex(groups[0]);
      assert Digits("-") == Some("") by {
        assert "-"[..0] == "";
      }
      DigitsOfConcat(groups[0], "-");
      DigitsOfConcat(groups[0] + "-", Joined(groups[1..], "-"));
      assert groups[0] + "" == groups[0];
      assert Joined(groups, "") == groups[0] + Joined(groups[1..], "");
    }
  }

  /** Text and back. */
  lemma RoundTrip(u: UUID)
    requires WellFormed(u)
    ensures FromString(ToString(u)) == Some(u)
  {
    hide Digits, Joined, Groups, LowerHex, HexBytes, BytesOf;
    GroupsCover(u);
    DigitsOfJoined(Groups(u));
    HexBytesAreDigits(u.bytes);
    assert |HexBytes(u.bytes)| == 32;
  }

  // ----- The order of texts -----

  lemma HexCharOrder(m: nat, n: nat)
    requires m < 16 && n < 16
    ensures HexChar(m) < HexChar(n) <==> m < n
    ensures HexChar(m) == HexChar(n) <==> m == n
  {
  }

  lemma {:induction false} ConcatOrder(a: string, b: string, c: string, d: string)
    requires |a| == |b|
    ensures StringLess(a + c, b + d) <==> StringLess(a, b) || (a == b && StringLess(c, d))
  {
    if a == [] {
      assert a + c == c && b + d == d;
    } else {
      assert (a + c)[1..] == a[1..] + c && (b + d)[1..] == b[1..] + d;
      ConcatOrder(a[1..], b[1..], c, d);
      assert a == [a[0]] + a[1..] && b == [b[0]] + b[1..];
    }
  }

  lemma {:induction false} HexBytesOrder(a: seq<byte>, b: seq<byte>)
    requires |a| == |b|
    ensures StringLess(HexBytes(a), HexBytes(b)) <==> BytesLess(a, b)
  {
    if a != [] {
      HexBytesOrder(a[1..], b[1..]);
      HexCharOrder(a[0] / 16, b[0] / 16);
      HexCharOrder(a[0] % 16, b[0] % 16);
      var x, y := [HexChar(a[0] / 16), HexChar(a[0] % 16)], [HexChar(b[0] / 16), HexChar(b[0] % 16)];
      ConcatOrder(x, y, HexBytes(a[1..]), HexBytes(b[1..]));
      PairOrder(x, y);
      ByteByNibbles(a[0], b[0]);
    }
  }

  lemma PairOrder(x: string, y: string)
    requires |x| == |y| == 2
    ensures StringLess(x, y) <==> x[0] < y[0] || (x[0] == y[0] && x[1] < y[1])
    ensures x == y <==> x[0] == y[0] && x[1] == y[1]
  {
    assert x[1..][1..] == [] && y[1..][1..] == [];
    assert !StringLess([], []);
    assert StringLess(x[1..], y[1..]) <==> x[1] < y[1];
  }

  lemma ByteByNibbles(a: byte, b: byte)
    ensures a < b <==> a / 16 < b / 16 || (a / 16 == b / 16 && a % 16 < b % 16)
    ensures a == b <==> a / 16 == b / 16 && a % 16 == b % 16
  {
  }

  /** Equal separators do not change an order. */
  lemma {:induction false} SeparatorsDoNotMatter(g: seq<string>, h: seq<string>)
    requires |g| == |h| && forall i :: 0 <= i < |g| ==> |g[i]| == |h[i]|
    ensures StringLess(Joined(g, "-"), Joined(h, "-")) <==> StringLess(Joined(g, ""), Joined(h, ""))
  {
    if |g| >= 2 {
      SeparatorsDoNotMatter(g[1..], h[1..]);
      var a, b := Joined(g[1..], "-"), Joined(h[1..], "-");
      ConcatOrder(g[0] + "-", h[0] + "-", a, b);
      ConcatOrder(g[0], h[0], "-", "-");
      assert !StringLess("-", "-");
      ConcatOrder(g[0], h[0], Joined(g[1..], ""), Joined(h[1..], ""));
      assert g[0] + "" == g[0] && h[0] + "" == h[0];
      assert g[0] + "-" == h[0] + "-" <==> g[0] == h[0] by {
        assert (g[0] + "-")[..|g[0]|] == g[0] && (h[0] + "-")[..|g[0]|] == h[0];
      }
    }
  }

  /** Texts sort as the bytes do. */
  lemma TextOrderIsByteOrder(a: UUID, b: UUID)
    requires WellFormed(a) && WellFormed(b)
    ensures StringLess(ToString(a), ToString(b)) <==> BytesLess(a.bytes, b.bytes)
  {
    hide Joined, HexBytes, StringLess, BytesLess, LowerHex;
    GroupsCover(a);
    GroupsCover(b);
    SeparatorsDoNotMatter(Groups(a), Groups(b));
    HexBytesOrder(a.bytes, b.bytes);
  }

  /** `from_string` with its two loops */
  method FromStringLoop(s: string) returns (r: Option<UUID>)
    ensures r == FromString(s)
  {
    hide BytesOf;
    var hex := "";
    var k := 0;
    while k < |s|
      invariant k <= |s| && Digits(s[..k]) == Some(hex)
    {
      assert s[..k + 1][..k] == s[..k];
      var c := s[k];
      if c != '-' {
        if !IsHexDigit(c) {
          RejectedPrefix(s, k + 1);
          return None;
        }
        hex := hex + [Lower(c)];
      }
      k := k + 1;
    }
    assert s[..|s|] == s;
    if |hex| != 32 {
      return None;
    }
    var bytes := FillBytes(hex);
    return Some(UUID(bytes));
  }

  lemma {:induction false} RejectedPrefix(s: string, k: nat)
    requires k <= |s| && Digits(s[..k]) == None
    ensures Digits(s) == None
    decreases |s| - k
  {
    if k == |s| {
      assert s[..k] == s;
    } else {
      assert s[..k + 1][..k] == s[..k];
      RejectedPrefix(s, k + 1);
    }
  }

  method FillBytes(hex: string) returns (r: seq<byte>)
    requires |hex| == 32 && LowerHex(hex)
    ensures r == BytesOf(hex)
  {
    hide BytesOf, Digit;
    var bytes := new byte[16](i => 0);
    assert hex[0..] == hex && bytes[..0] == [];
    for i := 0 to 16
      invariant bytes[..i] + BytesOf(hex[2 * i..]) == BytesOf(hex)
    {
      var high := Digit(hex[2 * i]);
      var low := Digit(hex[2 * i + 1]);
      TwoDigits(hex, i);
      ghost var before := bytes[..i];
      bytes[i] := 16 * high + low;
      assert bytes[..i + 1] == before + [16 * high + low];
      assert before + ([16 * high + low] + BytesOf(hex[2 * i + 2..])) == bytes[..i + 1] + BytesOf(hex[2 * i + 2..]);
    }
    NoDigits(hex[32..]);
    assert bytes[..16] == bytes[..];
    r := bytes[..];
  }

  lemma TwoDigits(hex: string, i: nat)
    requires 2 * i + 2 <= |hex| && |hex| % 2 == 0 && LowerHex(hex)
    ensures 16 * Digit(hex[2 * i]) + Digit(hex[2 * i + 1]) < 256
    ensures BytesOf(hex[2 * i..]) == [16 * Digit(hex[2 * i]) + Digit(hex[2 * i + 1])] + BytesOf(hex[2 * i + 2..])
  {
    assert hex[2 * i..][2..] == hex[2 * i + 2..];
  }

  lemma NoDigits(hex: string)
    requires hex == []
    ensures BytesOf(hex) == []
  {
  }
}

/** The generator: a clock reading, a sequence number within a millisecond and a random tail packed into a UUID. */
module UuidGenerator {
  import opened Prelude
  import opened ByteNumbers
  import opened UuidText

  const TWO48: nat := 0x1_0000_0000_0000
  const TWO62: nat := 0x4000_0000_0000_0000

  type Word = x: int | 0 <= x < WORD

  /** A right shift by whole bytes. */
  function Shifted(x: nat, count: nat): nat {
    if count == 0 then x else Shifted(x, count - 1) / 256
  }

  function ByteAt(x: nat, position: nat): byte {
    Shifted(x, position) % 256
  }

  /** `pack`, given the random number */
  function Pack(ms: Word, seqNo: nat, random: Word): (u: UUID)
    ensures WellFormed(u)
  {
    var r := random % TWO62;
    UUID([ByteAt(ms, 5), ByteAt(ms, 4), ByteAt(ms, 3), ByteAt(ms, 2), ByteAt(ms, 1), ByteAt(ms, 0),
          0x70 + seqNo / 256 % 16, seqNo % 256,
          0x80 + Shifted(r, 7) % 64, ByteAt(r, 6), ByteAt(r, 5), ByteAt(r, 4), ByteAt(r, 3), ByteAt(r, 2), ByteAt(r, 1),
          ByteAt(r, 0)])
  }

  function TimestampMs(u: UUID): nat
    requires WellFormed(u)
  {
    BigEndian(u.bytes[..6])
  }

  /** `timestamp_ms` */
  method TimestampLoop(u: UUID) returns (ts: nat)
    requires WellFormed(u)
    ensures ts == TimestampMs(u) && ts < TWO48
  {
    ts := 0;
    var bound := 1;
    for i := 0 to 6
      invariant ts == BigEndian(u.bytes[..i])
      invariant bound == [1, 0x100, 0x1_0000, 0x100_0000, 0x1_0000_0000, 0x100_0000_0000, TWO48][i]
      invariant ts < bound
    {
      assert u.bytes[..i + 1][..i] == u.bytes[..i];
      ts := 256 * ts + u.bytes[i];
      bound := 256 * bound;
    }
  }

  function Version(u: UUID): nat
    requires WellFormed(u)
  {
    u.bytes[6] / 16
  }

  function Variant(u: UUID): nat
    requires WellFormed(u)
  {
    u.bytes[8] / 64
  }

  function RandA(u: UUID): nat
    requires WellFormed(u)
  {
    256 * (u.bytes[6] as int % 16) + u.bytes[7]
  }

  // ----- Packing -----

  /** A number is its low byte and the rest of it. */
  lemma ShiftStep(x: nat, k: nat)
    ensures Shifted(x, k) == 256 * Shifted(x, k + 1) + ByteAt(x, k)
  {
  }

  lemma ValueOfSix(b: seq<byte>)
    requires |b| >= 6
    ensures BigEndian(b[..6]) == 256 * (256 * (256 * (256 * (256 * (b[0] as int) + b[1]) + b[2]) + b[3]) + b[4]) + b[5]
  {
    hide BigEndian;
    ValueStep(b, 0);
    ValueStep(b, 1);
    ValueStep(b, 2);
    ValueStep(b, 3);
    ValueStep(b, 4);
    ValueStep(b, 5);
  }

  lemma ValueStep(b: seq<byte>, k: nat)
    requires k < |b|
    ensures BigEndian(b[..k + 1]) == 256 * BigEndian(b[..k]) + b[k]
    ensures k == 0 ==> BigEndian(b[..k]) == 0
  {
    assert b[..k + 1][..k] == b[..k];
  }

  /** The first six bytes hold the timestamp, as far as it fits in 48 bits. */
  lemma PackedTimestamp(ms: Word, seqNo: nat, random: Word)
    ensures TimestampMs(Pack(ms, seqNo, random)) == ms % TWO48
  {
    hide BigEndian, Shifted, ByteAt;
    ValueOfSix(Pack(ms, seqNo, random).bytes);
    ShiftStep(ms, 0);
    ShiftStep(ms, 1);
    ShiftStep(ms, 2);
    ShiftStep(ms, 3);
    ShiftStep(ms, 4);
    ShiftStep(ms, 5);
    ShiftNothing(ms);
    assert ms == TWO48 * Shifted(ms, 6) + TimestampMs(Pack(ms, seqNo, random));
  }

  lemma ShiftNothing(x: nat)
    ensures Shifted(x, 0) == x
  {
  }

  /** What the accessors read back, for every timestamp, sequence number and random tail. */
  lemma AccessorsOfPacked(ms: Word, seqNo: nat, random: Word)
    ensures var u := Pack(ms, seqNo, random);
            && TimestampMs(u) == ms % TWO48 && RandA(u) == seqNo % 4096
            && Version(u) == 7 && Variant(u) == 2
  {
    hide TimestampMs, Shifted, ByteAt;
    PackedTimestamp(ms, seqNo, random);
    MarkedBytes(seqNo, Shifted(random % TWO62, 7));
  }

  lemma MarkedBytes(seqNo: nat, r: nat)
    ensures (0x70 + seqNo / 256 % 16) / 16 == 7
    ensures 256 * ((0x70 + seqNo / 256 % 16) % 16) + seqNo % 256 == seqNo % 4096
    ensures (0x80 + r % 64) / 64 == 2
  {
    assert seqNo % 4096 == 256 * (seqNo / 256 % 16) + seqNo % 256;
  }

  /** The random tail does not decide the order of UUIDs with different timestamps or sequence numbers. */
  lemma PackedOrder(ms: Word, seqNo: nat, random: Word, ms': Word, seqNo': nat, random': Word)
    requires seqNo < 4096 && seqNo' < 4096
    requires ms % TWO48 * 4096 + seqNo < ms' % TWO48 * 4096 + seqNo'
    ensures BytesLess(Pack(ms, seqNo, random).bytes, Pack(ms', seqNo', random').bytes)
  {
    hide Pack, BytesLess, BigEndian;
    var a, b := Pack(ms, seqNo, random).bytes, Pack(ms', seqNo', random').bytes;
    PackedKey(ms, seqNo, random);
    PackedKey(ms', seqNo', random');
    OrderIsNumeric(a[..8], b[..8]);
    PrefixDecides(a, b, 8);
  }

  lemma PackedKey(ms: Word, seqNo: nat, random: Word)
    requires seqNo < 4096
    ensures BigEndian(Pack(ms, seqNo, random).bytes[..8]) == ms % TWO48 * 65536 + 0x7000 + seqNo
  {
    hide TimestampMs;
    var u := Pack(ms, seqNo, random);
    var b := u.bytes;
    PackedTimestamp(ms, seqNo, random);
    assert TimestampMs(u) == BigEndian(b[..6]) by {
      TimestampIsValue(u);
    }
    assert b[..8][..7] == b[..7] && b[..7][..6] == b[..6];
    assert BigEndian(b[..7]) == 256 * BigEndian(b[..6]) + b[6];
    assert BigEndian(b[..8]) == 256 * BigEndian(b[..7]) + b[7];
  }

  lemma TimestampIsValue(u: UUID)
    requires WellFormed(u)
    ensures TimestampMs(u) == BigEndian(u.bytes[..6])
  {
  }

  // ----- Generating -----

  datatype MonoState = MonoState(lastMs: Word, seqNo: nat)

  /** A clock reading and the random number drawn with it. */
  datatype Reading = Reading(now: Word, random: Word)

  function Advance(st: MonoState, now: Word): MonoState {
    if now > st.lastMs then MonoState(now, 0)
    else if st.seqNo + 1 > 0x0FFF then MonoState((st.lastMs + 1) % WORD, 0)
    else MonoState(st.lastMs, st.seqNo + 1)
  }

  function Generate(st: MonoState, r: Reading): UUID {
    var next := Advance(st, r.now);
    Pack(next.lastMs, next.seqNo, r.random)
  }

  function StateAfter(st: MonoState, rs: seq<Reading>): MonoState {
    if rs == [] then st else Advance(StateAfter(st, rs[..|rs| - 1]), rs[|rs| - 1].now)
  }

  function Outputs(st: MonoState, rs: seq<Reading>): (us: seq<UUID>)
    ensures |us| == |rs|
  {
    if rs == [] then []
    else Outputs(st, rs[..|rs| - 1]) + [Generate(StateAfter(st, rs[..|rs| - 1]), rs[|rs| - 1])]
  }

  /** The largest reading. */
  function Latest(rs: seq<Reading>): Word {
    if rs == [] then 0 else
    var before := Latest(rs[..|rs| - 1]);
    if rs[|rs| - 1].now > before then rs[|rs| - 1].now else before
  }

  function Key(st: MonoState): nat {
    4096 * st.lastMs + st.seqNo
  }

  /** A call moves the counter up, and never past what the readings and the number of calls allow. */
  lemma AdvanceIncreases(st: MonoState, now: Word, bound: nat)
    requires st.seqNo <= 4095 && Key(st) < bound && bound < 4096 * WORD
    requires 4096 * now < bound
    ensures var next := Advance(st, now);
            && next.seqNo <= 4095 && Key(st) < Key(next) <= bound
            && next.lastMs >= now && next.lastMs >= st.lastMs
  {
  }

  /** After any readings the counter stays in range, is not behind any of them, and runs ahead of the latest by no more
      than one sequence number a call. */
  lemma {:induction false} CounterIsBounded(rs: seq<Reading>)
    requires 4096 * Latest(rs) + |rs| < 4096 * WORD
    ensures var st := StateAfter(MonoState(0, 0), rs);
            && st.seqNo <= 4095 && st.lastMs >= Latest(rs)
            && Key(st) <= 4096 * Latest(rs) + |rs|
  {
    if rs != [] {
      var n := |rs| - 1;
      var st := StateAfter(MonoState(0, 0), rs[..n]);
      CounterIsBounded(rs[..n]);
      AdvanceIncreases(st, rs[n].now, 4096 * Latest(rs) + n + 1);
    }
  }

  lemma StateStep(st: MonoState, rs: seq<Reading>, j: nat)
    requires j < |rs|
    ensures StateAfter(st, rs[..j + 1]) == Advance(StateAfter(st, rs[..j]), rs[j].now)
  {
    assert rs[..j + 1][..j] == rs[..j];
  }

  lemma {:induction false} OutputAt(st: MonoState, rs: seq<Reading>, i: nat)
    requires i < |rs|
    ensures var s := StateAfter(st, rs[..i + 1]);
            Outputs(st, rs)[i] == Pack(s.lastMs, s.seqNo, rs[i].random)
    decreases |rs|
  {
    hide Pack;
    var n := |rs| - 1;
    if i < n {
      assert rs[..n][..i + 1] == rs[..i + 1];
      OutputAt(st, rs[..n], i);
    } else {
      assert rs[..i + 1] == rs;
    }
  }

  // ----- The order of a run -----

  /** The state of a fresh thread. */
  const START: MonoState := MonoState(0, 0)

  predicate Increasing(us: seq<UUID>) {
    && (forall i :: 0 <= i < |us| ==> WellFormed(us[i]))
    && forall i, j :: 0 <= i < j < |us| ==> BytesLess(us[i].bytes, us[j].bytes)
  }

  predicate Within48Bits(rs: seq<Reading>, k: nat)
    requires k <= |rs|
  {
    StateAfter(START, rs[..k]).lastMs < TWO48
  }

  /** The counter time stays below 2^48 all along the run. */
  predicate StaysIn48Bits(rs: seq<Reading>) {
    forall k :: 0 <= k <= |rs| ==> Within48Bits(rs, k)
  }

  /** No clock brings the sequence number out of its twelve bits. */
  lemma {:induction false} SequenceFits(st: MonoState, rs: seq<Reading>)
    requires st.seqNo <= 4095
    ensures StateAfter(st, rs).seqNo <= 4095
  {
    if rs != [] {
      SequenceFits(st, rs[..|rs| - 1]);
    }
  }

  lemma CounterMoves(st: MonoState, now: Word)
    requires st.seqNo <= 4095 && st.lastMs < TWO48
    ensures Key(st) < Key(Advance(st, now))
    ensures now < TWO48 <= Advance(st, now).lastMs ==> st == MonoState(TWO48 - 1, 4095) && Advance(st, now) == MonoState(TWO48, 0)
  {
  }

  /** The state that the `i`-th UUID of a run was packed from. */
  function StateAt(rs: seq<Reading>, i: nat): MonoState
    requires i < |rs|
  {
    StateAfter(START, rs[..i + 1])
  }

  lemma {:induction false} KeysIncrease(rs: seq<Reading>, i: nat, j: nat)
    requires i < j < |rs| && StaysIn48Bits(rs)
    ensures Key(StateAt(rs, i)) < Key(StateAt(rs, j))
    decreases j
  {
    hide StateAfter, Key, Advance;
    StateStep(START, rs, j);
    SequenceFits(START, rs[..j]);
    assert Within48Bits(rs, j);
    CounterMoves(StateAfter(START, rs[..j]), rs[j].now);
    if i < j - 1 {
      KeysIncrease(rs, i, j - 1);
    }
  }

  lemma KeyFits(rs: seq<Reading>, i: nat)
    requires i < |rs| && StaysIn48Bits(rs)
    ensures var s := StateAt(rs, i);
            s.seqNo <= 4095 && s.lastMs % TWO48 * 4096 + s.seqNo == Key(s)
  {
    hide StateAfter;
    SequenceFits(START, rs[..i + 1]);
    assert Within48Bits(rs, i + 1);
  }

  /** Whatever the clock does, the UUIDs of a run increase strictly in byte order while the counter time is below 2^48. */
  lemma RunIncreases(rs: seq<Reading>)
    requires StaysIn48Bits(rs)
    ensures Increasing(Outputs(START, rs))
  {
    hide Pack, BytesLess, Outputs, StateAfter, StaysIn48Bits, Key;
    var us := Outputs(START, rs);
    forall i | 0 <= i < |us| ensures WellFormed(us[i]) {
      OutputAt(START, rs, i);
    }
    forall i, j | 0 <= i < j < |us| ensures BytesLess(us[i].bytes, us[j].bytes) {
      OutputAt(START, rs, i);
      OutputAt(START, rs, j);
      KeysIncrease(rs, i, j);
      KeyFits(rs, i);
      KeyFits(rs, j);
      var a, b := StateAt(rs, i), StateAt(rs, j);
      PackedOrder(a.lastMs, a.seqNo, rs[i].random, b.lastMs, b.seqNo, rs[j].random);
    }
  }

  lemma BytesLessIsAsymmetric(a: seq<byte>, b: seq<byte>)
    requires |a| == |b| && BytesLess(a, b)
    ensures !BytesLess(b, a)
  {
    OrderIsNumeric(a, b);
    OrderIsNumeric(b, a);
  }

  /** Where the counter leaves 48 bits under a clock that does not, the next UUID is smaller than the one before it. */
  lemma {:induction false} LeavingBreaksOrder(rs: seq<Reading>, k: nat)
    requires k < |rs| && rs[k].now < TWO48 && Within48Bits(rs, k) && !Within48Bits(rs, k + 1)
    ensures k > 0 && WellFormed(Outputs(START, rs)[k]) && WellFormed(Outputs(START, rs)[k - 1])
    ensures BytesLess(Outputs(START, rs)[k].bytes, Outputs(START, rs)[k - 1].bytes)
  {
    hide Pack, BytesLess, Outputs, Key;
    StateStep(START, rs, k);
    SequenceFits(START, rs[..k]);
    CounterMoves(StateAfter(START, rs[..k]), rs[k].now);
    assert k > 0 by {
      assert rs[..0] == [];
    }
    OutputAt(START, rs, k);
    OutputAt(START, rs, k - 1);
    PackedOrder(TWO48, 0, rs[k].random, TWO48 - 1, 4095, rs[k - 1].random);
  }

  lemma StartsWithin(rs: seq<Reading>)
    ensures Within48Bits(rs, 0)
  {
    assert rs[..0] == [];
  }

  /** The first step out of 48 bits. */
  lemma {:induction false} FirstLeaving(rs: seq<Reading>, n: nat) returns (k: nat)
    requires n <= |rs| && Within48Bits(rs, 0) && !Within48Bits(rs, n)
    ensures k < n && Within48Bits(rs, k) && !Within48Bits(rs, k + 1)
  {
    hide Within48Bits;
    if Within48Bits(rs, n - 1) {
      k := n - 1;
    } else {
      k := FirstLeaving(rs, n - 1);
    }
  }

  predicate ClockFits(rs: seq<Reading>) {
    forall i :: 0 <= i < |rs| ==> rs[i].now < TWO48
  }

  /** Under a clock that fits 48 bits, a run is increasing if and only if its counter time stays below 2^48. */
  lemma IncreasingExactly(rs: seq<Reading>)
    requires ClockFits(rs)
    ensures Increasing(Outputs(START, rs)) <==> StaysIn48Bits(rs)
  {
    hide Outputs, BytesLess, Within48Bits;
    if StaysIn48Bits(rs) {
      RunIncreases(rs);
    } else {
      var n :| 0 <= n <= |rs| && !Within48Bits(rs, n);
      StartsWithin(rs);
      var k := FirstLeaving(rs, n);
      LeavingBreaksOrder(rs, k);
      BytesLessIsAsymmetric(Outputs(START, rs)[k].bytes, Outputs(START, rs)[k - 1].bytes);
    }
  }

  /** Short of 2^64 the counter never falls back, so its last value decides. */
  lemma LastStateDecides(rs: seq<Reading>)
    requires ClockFits(rs) && 4096 * Latest(rs) + |rs| < 4096 * WORD
    ensures Increasing(Outputs(START, rs)) <==> StateAfter(START, rs).lastMs < TWO48
  {
    hide Outputs, Increasing, Latest;
    IncreasingExactly(rs);
    assert rs[..|rs|] == rs;
    if StateAfter(START, rs).lastMs < TWO48 {
      forall k | 0 <= k <= |rs| ensures Within48Bits(rs, k) {
        TimeOnlyGrows(rs, k);
      }
    } else {
      assert !Within48Bits(rs, |rs|);
    }
  }

  lemma {:induction false} LatestOfPrefix(rs: seq<Reading>, k: nat)
    requires k < |rs|
    ensures Latest(rs[..k]) <= Latest(rs) && rs[k].now <= Latest(rs)
    decreases |rs| - k
  {
    var next := rs[..k + 1];
    assert next[..k] == rs[..k];
    if k + 1 == |rs| {
      assert next == rs;
    } else {
      LatestOfPrefix(rs, k + 1);
    }
  }

  lemma {:induction false} TimeOnlyGrows(rs: seq<Reading>, k: nat)
    requires k <= |rs| && 4096 * Latest(rs) + |rs| < 4096 * WORD
    ensures StateAfter(START, rs[..k]).lastMs <= StateAfter(START, rs).lastMs
    decreases |rs| - k
  {
    hide StateAfter, Latest;
    if k == |rs| {
      assert rs[..k] == rs;
    } else {
      LatestOfPrefix(rs, k);
      CounterIsBounded(rs[..k]);
      AdvanceIncreases(StateAfter(START, rs[..k]), rs[k].now, 4096 * Latest(rs) + k + 1);
      StateStep(START, rs, k);
      TimeOnlyGrows(rs, k + 1);
    }
  }

  /** What the readings and the number of calls let the counter reach stays below a bound. */
  predicate RunsBelow(rs: seq<Reading>, bound: int) {
    |rs| < bound && forall i :: 0 <= i < |rs| ==> 4096 * rs[i].now + (|rs| - 1 - i) < bound
  }

  lemma RunsBelowStep(rs: seq<Reading>, bound: int)
    requires rs != []
    ensures RunsBelow(rs, bound) <==> RunsBelow(rs[..|rs| - 1], bound - 1) && 4096 * rs[|rs| - 1].now < bound
  {
    var front := rs[..|rs| - 1];
    assert forall i :: 0 <= i < |front| ==> front[i] == rs[i];
  }

  /** A call takes the counter to the reading, or one further. */
  lemma AdvanceBelow(st: MonoState, now: Word, bound: int)
    requires st.seqNo <= 4095 && Key(st) + 1 < 4096 * WORD
    ensures Key(Advance(st, now)) < bound <==> Key(st) < bound - 1 && 4096 * now < bound
  {
  }

  /** The counter is exactly as far as the readings and the number of calls take it. */
  lemma {:induction false} KeyBelow(rs: seq<Reading>, bound: int)
    requires 4096 * Latest(rs) + |rs| < 4096 * WORD
    ensures Key(StateAfter(START, rs)) < bound <==> RunsBelow(rs, bound)
  {
    hide Key, Advance;
    if rs == [] {
      KeyOfStart();
    } else {
      hide RunsBelow;
      var front, now := rs[..|rs| - 1], rs[|rs| - 1].now;
      KeyBelow(front, bound - 1);
      CounterIsBounded(front);
      AdvanceBelow(StateAfter(START, front), now, bound);
      RunsBelowStep(rs, bound);
    }
  }

  lemma KeyOfStart()
    ensures Key(START) == 0
  {
  }

  lemma {:induction false} LatestFits(rs: seq<Reading>)
    requires ClockFits(rs)
    ensures Latest(rs) < TWO48
  {
    if rs != [] {
      LatestFits(rs[..|rs| - 1]);
    }
  }

  /** The condition on the clock alone: under a clock that fits 48 bits, a run is increasing if and only if no reading,
      and not the start of the thread either, is followed by so many calls that they lead past 48 bits. */
  lemma ReadingsDecide(rs: seq<Reading>)
    requires ClockFits(rs)
    ensures Increasing(Outputs(START, rs)) <==> RunsBelow(rs, 4096 * TWO48)
  {
    hide Outputs, Increasing, Latest, StateAfter;
    var n := 4096 * TWO48;
    if |rs| < n {
      LatestFits(rs);
      LastStateDecides(rs);
      KeyBelow(rs, n);
      SequenceFits(START, rs);
    } else {
      var front := rs[..n];
      LatestFits(front);
      KeyBelow(front, n);
      SequenceFits(START, front);
      IncreasingExactly(rs);
      assert !Within48Bits(rs, n);
    }
  }

  /** A clock that stands still after its first reading. */
  function Standing(now: Word, calls: nat): seq<Reading> {
    seq(calls, i => Reading(now, 0))
  }

  /** It uses up one sequence number a call. */
  lemma {:induction false} StandingCounts(now: Word, calls: nat)
    requires 0 < now && 0 < calls <= 4096
    ensures StateAfter(START, Standing(now, calls)) == MonoState(now, calls - 1)
  {
    assert Standing(now, calls)[..calls - 1] == Standing(now, calls - 1);
    if calls > 1 {
      StandingCounts(now, calls - 1);
    }
  }

  /** A run that reaches the end of 48 bits: the clock stands in the last millisecond for 4097 calls. */
  lemma StandingRunBreaks()
    ensures var rs := Standing(TWO48 - 1, 4097);
            ClockFits(rs) && StateAfter(START, rs) == MonoState(TWO48, 0) && !Increasing(Outputs(START, rs))
  {
    hide StateAfter, Increasing, Outputs;
    var rs := Standing(TWO48 - 1, 4097);
    StandingCounts(TWO48 - 1, 4096);
    assert rs[..4096] == Standing(TWO48 - 1, 4096);
    StateStep(START, rs, 4096);
    assert rs[..4097] == rs;
    assert !Within48Bits(rs, 4097);
    IncreasingExactly(rs);
  }

  /** The state of one thread. */
  class Generator {
    var lastMs: Word
    var seqNo: nat

    ghost function View(): MonoState
      reads this
    {
      MonoState(lastMs, seqNo)
    }

    constructor ()
      ensures View() == START
    {
      lastMs, seqNo := 0, 0;
    }

    /** `next`, given the clock and the random number */
    method Next(r: Reading) returns (u: UUID)
      modifies this
      ensures u == Generate(old(View()), r) && View() == Advance(old(View()), r.now)
    {
      if r.now > lastMs {
        lastMs := r.now;
        seqNo := 0;
      } else {
        seqNo := seqNo + 1;
        if seqNo > 0x0FFF {
          lastMs := (lastMs + 1) % WORD;
          seqNo := 0;
        }
      }
      u := Pack(lastMs, seqNo, r.random);
    }

    /** `generate_batch`, given what each call reads */
    method GenerateBatch(rs: seq<Reading>) returns (us: seq<UUID>)
      modifies this
      ensures us == Outputs(old(View()), rs) && View() == StateAfter(old(View()), rs)
    {
      hide Pack, Generate, Advance;
      us := [];
      var i := 0;
      while i < |rs|
        invariant i <= |rs|
        invariant us == Outputs(old(View()), rs[..i]) && View() == StateAfter(old(View()), rs[..i])
      {
        assert rs[..i + 1][..i] == rs[..i];
        var u := Next(rs[i]);
        us := us + [u];
        i := i + 1;
      }
      assert rs[..i] == rs;
    }
  }
}
