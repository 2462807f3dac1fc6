/**
 * The base64 layer of the credential store (section 4 of RFC 4648): C strings of
 * bytes, encoded three bytes at a time and decoded four characters at a time.
 */
module Base64 {

  /** The characters of a C string are bytes; its terminator is not one of them. */
  predicate IsBytes(s: string) {
    forall i :: 0 <= i < |s| ==> s[i] as int < 256
  }

  predicate IsCString(s: string) {
    IsBytes(s) && '\0' !in s
  }

  /** `B64[v & 0x3F]`: the table lists the capitals, the small letters, the digits, '+' and '/'. */
  function Digit(v: nat): (c: char)
    ensures DigitValue(c) == v % 64 && c != '='
  {
    var k := v % 64;
    if k < 26 then 'A' + k as char
    else if k < 52 then 'a' + (k - 26) as char
    else if k < 62 then '0' + (k - 52) as char
    else if k == 62 then '+'
    else '/'
  }

  /** `b64_char` */
  function DigitValue(c: char): (v: int)
    ensures -1 <= v < 64
  {
    if 'A' <= c <= 'Z' then c as int - 'A' as int
    else if 'a' <= c <= 'z' then c as int - 'a' as int + 26
    else if '0' <= c <= '9' then c as int - '0' as int + 52
    else if c == '+' then 62
    else if c == '/' then 63
    else -1
  }

  /** One group of at most three bytes, as the encoding loop writes it. */
  function EncodeGroup(s: string): (r: string)
    requires s != [] && IsBytes(s)
    ensures |r| == 4
  {
    var v := (s[0] as int) * 0x1_0000
             + (if |s| > 1 then (s[1] as int) * 0x100 else 0)
             + (if |s| > 2 then s[2] as int else 0);
    [Digit(v / 0x4_0000), Digit(v / 0x1000), if |s| > 1 then Digit(v / 0x40) else '=', if |s| > 2 then Digit(v) else '=']
  }

  function Encode(s: string): string
    requires IsBytes(s)
  {
    if s == [] then []
    else if |s| <= 3 then EncodeGroup(s)
    else EncodeGroup(s[..3]) + Encode(s[3..])
  }

  /** `(char)((hi << up) | low)` for a `low` of fewer than `up` bits; a negative operand stands for all ones above. */
  function Combine(hi: int, up: nat, low: int): char
    requires -1 <= hi < 64 && -1 <= low < up <= 256
  {
    if low < 0 then 255 as char else (if hi < 0 then 256 - up + low else (hi * up + low) % 256) as char
  }

  /** `c >> 2` of an int that is -1 or a sextet */
  function Shift2(c: int): int
    requires -1 <= c < 64
  {
    if c < 0 then -1 else c / 4
  }

  /** The bytes of four characters, or None where the decoding loop breaks off. */
  function DecodeGroup(s: string): (r: string)
    requires |s| == 4 && DigitValue(s[0]) >= 0 && DigitValue(s[1]) >= 0
    ensures 1 <= |r| <= 3 && IsBytes(r)
  {
    var a, b := DigitValue(s[0]), DigitValue(s[1]);
    var c := if s[2] == '=' then 0 else DigitValue(s[2]);
    var d := if s[3] == '=' then 0 else DigitValue(s[3]);
    [(a * 4 + b / 16) as char]
    + (if s[2] != '=' then [Combine(b, 16, Shift2(c))] else [])
    + (if s[3] != '=' then [Combine(c, 64, d)] else [])
  }

  function Decode(s: string): (r: string)
    ensures IsBytes(r)
  {
    if |s| < 4 || DigitValue(s[0]) < 0 || DigitValue(s[1]) < 0 then [] else DecodeGroup(s[..4]) + Decode(s[4..])
  }

  // ----- Decoding inverts encoding -----

  /** The four sextets of three bytes, each byte given by the parts that fall into different sextets. */
  lemma Sextets(x1: nat, x0: nat, y1: nat, y0: nat, z1: nat, z0: nat)
    requires x1 < 64 && x0 < 4 && y1 < 16 && y0 < 16 && z1 < 4 && z0 < 64
    ensures var v := (((x1 * 4 + x0) * 16 + y1) * 16 + y0) * 256 + z1 * 64 + z0;
            && v / 0x4_0000 == x1 && v / 0x1000 % 64 == x0 * 16 + y1
            && v / 0x40 % 64 == y0 * 4 + z1 && v % 64 == z0
  {
    var v := (((x1 * 4 + x0) * 16 + y1) * 16 + y0) * 256 + z1 * 64 + z0;
    var w := y0 * 4 + z1;
    assert v == ((x1 * 64 + x0 * 16 + y1) * 64 + w) * 64 + z0;
    assert v / 0x40 == (x1 * 64 + x0 * 16 + y1) * 64 + w;
    assert v / 0x1000 == x1 * 64 + x0 * 16 + y1;
  }

  lemma Octets(x1: nat, x0: nat, y1: nat, y0: nat, z1: nat, z0: nat)
    requires x1 < 64 && x0 < 4 && y1 < 16 && y0 < 16 && z1 < 4 && z0 < 64
    ensures var b, c := x0 * 16 + y1, y0 * 4 + z1;
            && x1 * 4 + b / 16 == x1 * 4 + x0
            && (b * 16 + c / 4) % 256 == y1 * 16 + y0
            && (c * 64 + z0) % 256 == z1 * 64 + z0
  {
    LowByte(x0, y1 * 16 + y0);
    LowByte(y0, z1 * 64 + z0);
    assert (x0 * 16 + y1) / 16 == x0 && (y0 * 4 + z1) / 4 == y0;
    assert (x0 * 16 + y1) * 16 + y0 == x0 * 256 + (y1 * 16 + y0);
    assert (y0 * 4 + z1) * 64 + z0 == y0 * 256 + (z1 * 64 + z0);
  }

  lemma LowByte(high: nat, low: nat)
    requires low < 256
    ensures (high * 256 + low) % 256 == low
  {
  }

  /** The digits of a group, in terms of the bytes. */
  lemma GroupDigits(s: string, x: nat, y: nat, z: nat)
    requires 1 <= |s| <= 3 && IsBytes(s)
    requires x == s[0] as int && y == (if |s| > 1 then s[1] as int else 0) && z == (if |s| > 2 then s[2] as int else 0)
    ensures var g := EncodeGroup(s);
            && |g| == 4 && DigitValue(g[0]) == x / 4 && DigitValue(g[1]) == x % 4 * 16 + y / 16
            && (if |s| > 1 then g[2] != '=' && DigitValue(g[2]) == y % 16 * 4 + z / 64 else g[2] == '=')
            && (if |s| > 2 then g[3] != '=' && DigitValue(g[3]) == z % 64 else g[3] == '=')
  {
    hide EncodeGroup, DigitValue;
    GroupIsDigits(s, x, y, z);
    SextetsOfBytes(x, y, z);
  }

  lemma SextetsOfBytes(x: nat, y: nat, z: nat)
    requires x < 256 && y < 256 && z < 256
    ensures var v := x * 0x1_0000 + y * 0x100 + z;
            && v / 0x4_0000 % 64 == x / 4 && v / 0x1000 % 64 == x % 4 * 16 + y / 16
            && v / 0x40 % 64 == y % 16 * 4 + z / 64 && v % 64 == z % 64
  {
    var v := x * 0x1_0000 + y * 0x100 + z;
    Sextets(x / 4, x % 4, y / 16, y % 16, z / 64, z % 64);
    assert v == (((x / 4 * 4 + x % 4) * 16 + y / 16) * 16 + y % 16) * 256 + z / 64 * 64 + z % 64;
  }

  lemma GroupIsDigits(s: string, x: nat, y: nat, z: nat)
    requires 1 <= |s| <= 3 && IsBytes(s)
    requires x == s[0] as int && y == (if |s| > 1 then s[1] as int else 0) && z == (if |s| > 2 then s[2] as int else 0)
    ensures var g, v := EncodeGroup(s), x * 0x1_0000 + y * 0x100 + z;
            && |g| == 4 && DigitValue(g[0]) == v / 0x4_0000 % 64 && DigitValue(g[1]) == v / 0x1000 % 64
            && (if |s| > 1 then g[2] != '=' && DigitValue(g[2]) == v / 0x40 % 64 else g[2] == '=')
            && (if |s| > 2 then g[3] != '=' && DigitValue(g[3]) == v % 64 else g[3] == '=')
  {
    hide Digit, DigitValue;
  }

  lemma DecodeOfEncodeGroup(s: string)
    requires 1 <= |s| <= 3 && IsBytes(s)
    ensures var g := EncodeGroup(s);
            |g| == 4 && DigitValue(g[0]) >= 0 && DigitValue(g[1]) >= 0 && DecodeGroup(g) == s
  {
    var x, y, z := s[0] as int, if |s| > 1 then s[1] as int else 0, if |s| > 2 then s[2] as int else 0;
    GroupDigits(s, x, y, z);
    DecodeOfDigits(EncodeGroup(s), s, x, y, z);
  }

  lemma DecodeOfDigits(g: string, s: string, x: nat, y: nat, z: nat)
    requires 1 <= |s| <= 3 && IsBytes(s)
    requires x == s[0] as int && y == (if |s| > 1 then s[1] as int else 0) && z == (if |s| > 2 then s[2] as int else 0)
    requires |g| == 4 && DigitValue(g[0]) == x / 4 && DigitValue(g[1]) == x % 4 * 16 + y / 16
    requires if |s| > 1 then g[2] != '=' && DigitValue(g[2]) == y % 16 * 4 + z / 64 else g[2] == '='
    requires if |s| > 2 then g[3] != '=' && DigitValue(g[3]) == z % 64 else g[3] == '='
    ensures DecodeGroup(g) == s
  {
    Octets(x / 4, x % 4, y / 16, y % 16, z / 64, z % 64);
    assert x / 4 * 4 + x % 4 == x && y / 16 * 16 + y % 16 == y && z / 64 * 64 + z % 64 == z;
    var r := DecodeGroup(g);
    assert |r| == |s|;
    assert r[0] == s[0];
  }

  lemma {:induction false} DecodeOfConcat(g: string, rest: string)
    requires |g| == 4 && DigitValue(g[0]) >= 0 && DigitValue(g[1]) >= 0
    ensures Decode(g + rest) == DecodeGroup(g) + Decode(rest)
  {
    assert (g + rest)[..4] == g && (g + rest)[4..] == rest;
  }

  /** Decoding inverts encoding, for every string of bytes. */
  lemma {:induction false} RoundTrip(s: string)
    requires IsBytes(s)
    ensures Decode(Encode(s)) == s
  {
    if s == [] {
    } else if |s| <= 3 {
      DecodeOfEncodeGroup(s);
      DecodeOfConcat(EncodeGroup(s), []);
      assert EncodeGroup(s) + [] == EncodeGroup(s);
    } else {
      DecodeOfEncodeGroup(s[..3]);
      DecodeOfConcat(EncodeGroup(s[..3]), Encode(s[3..]));
      RoundTrip(s[3..]);
    }
  }

  /** Encoded text uses the alphabet and the padding sign only. */
  predicate IsEncoded(s: string) {
    forall c <- s :: DigitValue(c) >= 0 || c == '='
  }

  lemma {:induction false} EncodeUsesAlphabet(s: string)
    requires IsBytes(s)
    ensures IsEncoded(Encode(s))
  {
    if |s| > 3 {
      EncodeUsesAlphabet(s[3..]);
    }
  }

  lemma {:induction false} EncodeLength(s: string)
    requires IsBytes(s)
    ensures |Encode(s)| == (|s| + 2) / 3 * 4
  {
    if |s| > 3 {
      EncodeLength(s[3..]);
      assert (|s| + 2) / 3 == (|s| - 3 + 2) / 3 + 1;
    }
  }

  lemma {:induction false} DecodeLength(s: string)
    ensures |Decode(s)| <= |s| / 4 * 3 <= |s| * 3 / 4
  {
    hide DecodeGroup, DigitValue;
    if |s| >= 4 {
      assert |s| / 4 == |s[4..]| / 4 + 1;
      DecodeLength(s[4..]);
    }
  }

  // ----- The two routines -----

  /** `b64_encode`: the buffer it allocates is filled exactly, terminator included. */
  method B64Encode(src: string) returns (out: array<char>)
    requires IsBytes(src)
    ensures out.Length == 4 * ((|src| + 2) / 3) + 1
    ensures out[..out.Length - 1] == Encode(src) && out[out.Length - 1] == '\0'
  {
    hide Encode, EncodeGroup, Rest;
    var n := |src|;
    out := new char[4 * ((n + 2) / 3) + 1];
    EncodeLength(src);
    var i, j := 0, 0;
    ghost var done: string := [];
    RestEnds(src);
    assert done + Encode(src) == Encode(src);
    while i < n
      invariant 0 <= i && 0 <= j < out.Length && out[..j] == done && IsBytes(Rest(src, i))
      invariant done + Encode(Rest(src, i)) == Encode(src)
    {
      EncodeStep(src, i);
      var group := EncodeGroup(src[i..if n - i <= 3 then n else i + 3]);
      assert done + (group + Encode(Rest(src, i + 3))) == done + group + Encode(Rest(src, i + 3));
      WriteGroup(out, j, group);
      done := done + group;
      j := j + 4;
      i := i + 3;
    }
    RestIsNothing(src, i);
    assert done + [] == done;
    out[j] := '\0';
  }

  /** Stores a group at `out[j..]`. */
  method WriteGroup(out: array<char>, j: nat, group: string)
    requires j + |group| <= out.Length && |group| <= 4
    modifies out
    ensures out[..j + |group|] == old(out[..j]) + group
  {
    for k := 0 to |group|
      invariant out[..j + k] == old(out[..j]) + group[..k]
    {
      out[j + k] := group[k];
    }
  }

  /** `b64_decode`: what it writes, with its terminator, fits the buffer it allocates. */
  method B64Decode(src: string) returns (out: array<char>, j: nat)
    ensures out.Length == |src| * 3 / 4 + 4
    ensures j < out.Length && out[..j] == Decode(src) && out[j] == '\0'
  {
    hide Decode, DecodeGroup, DigitValue;
    var n := |src|;
    out := new char[n * 3 / 4 + 4];
    DecodeLength(src);
    var i := 0;
    j := 0;
    ghost var done: string := [];
    assert src[0..] == src && done + Decode(src) == Decode(src);
    while i + 3 < n
      invariant 0 <= i <= n && 0 <= j < out.Length && out[..j] == done
      invariant done + Decode(src[i..]) == Decode(src)
    {
      if DigitValue(src[i]) < 0 || DigitValue(src[i + 1]) < 0 {
        break;
      }
      DecodeStep(src, i);
      var group := DecodeGroup(src[i..i + 4]);
      assert done + (group + Decode(src[i + 4..])) == done + group + Decode(src[i + 4..]);
      WriteGroup(out, j, group);
      done := done + group;
      j := j + |group|;
      i := i + 4;
    }
    DecodeEnds(src, i);
    assert done + [] == done;
    out[j] := '\0';
  }

  lemma DecodeStep(s: string, i: nat)
    requires i + 4 <= |s| && DigitValue(s[i]) >= 0 && DigitValue(s[i + 1]) >= 0
    ensures Decode(s[i..]) == DecodeGroup(s[i..i + 4]) + Decode(s[i + 4..])
  {
    assert s[i..][..4] == s[i..i + 4] && s[i..][4..] == s[i + 4..];
  }

  lemma DecodeEnds(s: string, i: nat)
    requires i <= |s| && (i + 3 >= |s| || DigitValue(s[i]) < 0 || DigitValue(s[i + 1]) < 0)
    ensures Decode(s[i..]) == []
  {
  }

  function Rest(s: string, i: nat): string {
    if i < |s| then s[i..] else []
  }

  lemma RestEnds(s: string)
    ensures Rest(s, 0) == s
  {
  }

  lemma RestIsNothing(s: string, i: nat)
    requires IsBytes(s) && i >= |s|
    ensures IsBytes(Rest(s, i)) && Encode(Rest(s, i)) == []
  {
  }

  lemma EncodeStep(s: string, i: nat)
    requires i < |s| && IsBytes(s)
    ensures IsBytes(Rest(s, i)) && IsBytes(Rest(s, i + 3))
    ensures Encode(Rest(s, i)) == EncodeGroup(s[i..if |s| - i <= 3 then |s| else i + 3]) + Encode(Rest(s, i + 3))
  {
    var rest := s[i..];
    if |rest| <= 3 {
      assert rest == s[i..|s|];
      assert EncodeGroup(rest) + [] == EncodeGroup(rest);
    } else {
      assert rest[..3] == s[i..i + 3] && rest[3..] == s[i + 3..];
    }
  }
}
