/** Bytes, exclusive-or checksums and hexadecimal digits, shared by both NMEA parsers. */
module NmeaBytes {
  type byte = bv8

  const DOLLAR: byte := 0x24
  const BANG: byte := 0x21
  const STAR: byte := 0x2A
  const COMMA: byte := 0x2C
  const CR: byte := 0x0D
  const LF: byte := 0x0A

  /** The exclusive or of all the bytes, from left to right. */
  function Xor(s: seq<byte>): byte {
    if s == [] then 0 else Xor(s[..|s| - 1]) ^ s[|s| - 1]
  }

  function HexDigit(n: byte): byte {
    if n < 10 then 0x30 + n else 0x41 + (n - 10)
  }

  /** Two upper-case hexadecimal digits. */
  function Hex(b: byte): (r: seq<byte>)
    ensures |r| == 2
  {
    [HexDigit(b >> 4), HexDigit(b & 0x0F)]
  }

  predicate IsUpperHex(c: byte) {
    0x30 <= c <= 0x39 || 0x41 <= c <= 0x46
  }

  lemma HexInjective(a: byte, b: byte)
    requires Hex(a) == Hex(b)
    ensures a == b
  {
    assert Hex(a)[0] == Hex(b)[0] && Hex(a)[1] == Hex(b)[1];
    assert a >> 4 == b >> 4 && a & 0x0F == b & 0x0F;
    assert a == ((a >> 4) << 4) | (a & 0x0F);
    assert b == ((b >> 4) << 4) | (b & 0x0F);
  }

  lemma XorAssociative(a: byte, b: byte, c: byte)
    ensures (a ^ b) ^ c == a ^ (b ^ c)
    ensures a ^ b == b ^ a && a ^ a == 0 && a ^ 0 == a
  {
  }

  lemma {:induction false} XorOfConcat(a: seq<byte>, b: seq<byte>)
    ensures Xor(a + b) == Xor(a) ^ Xor(b)
  {
    if b == [] {
      assert a + b == a;
    } else {
      var n := |b| - 1;
      assert (a + b)[..|a| + n] == a + b[..n];
      XorOfConcat(a, b[..n]);
      XorAssociative(Xor(a), Xor(b[..n]), b[n]);
    }
  }

  /** Changing one byte changes the checksum. */
  lemma XorOfUpdate(s: seq<byte>, k: nat, b: byte)
    requires k < |s| && b != s[k]
    ensures Xor(s[k := b]) != Xor(s)
  {
    var front, back := s[..k], s[k + 1..];
    assert s == front + [s[k]] + back && s[k := b] == front + [b] + back;
    XorOfConcat(front + [s[k]], back);
    XorOfConcat(front + [b], back);
    XorOfConcat(front, [s[k]]);
    XorOfConcat(front, [b]);
    XorCancels(Xor(front), s[k], b, Xor(back));
  }

  lemma XorCancels(f: byte, x: byte, y: byte, g: byte)
    requires x != y
    ensures f ^ (0 ^ x) ^ g != f ^ (0 ^ y) ^ g
  {
  }
}

/**
 * The sentence type: a validator that looks at a whole string, a parser for valid
 * strings and a printer. `size_t` arithmetic wraps at 2^64, and the validator's
 * byte-sized loop counter never reaches a checksum mark beyond index 255.
 */
module NmeaSentence {
  import opened Prelude
  import opened NmeaBytes

  datatype Sentence = Sentence(talker: seq<byte>, kind: seq<byte>, fields: seq<seq<byte>>)

  datatype Verdict = Accepts | Rejects | Hangs

  // ----- Finding characters -----

  /** `find_first_of(c, from)` */
  function FindFrom(s: seq<byte>, c: byte, from: nat): (r: Option<nat>)
    ensures r.Some? ==> from <= r.value < |s| && s[r.value] == c
    decreases |s| - from
  {
    if from >= |s| then None else if s[from] == c then Some(from) else FindFrom(s, c, from + 1)
  }

  /** `find_last_of(c)` */
  function FindLast(s: seq<byte>, c: byte): (r: Option<nat>)
    ensures r.Some? ==> r.value < |s| && s[r.value] == c
  {
    if s == [] then None else if s[|s| - 1] == c then Some(|s| - 1) else FindLast(s[..|s| - 1], c)
  }

  // ----- Validation -----

  /** The loop counter of `checksum` is a byte: it counts up to an index only if the index fits it (`LoopEnds`). */
  const LAST_INDEX: nat := 255

  function Checksum(s: seq<byte>, index: nat): seq<byte>
    requires 1 <= index <= |s| && index <= LAST_INDEX
  {
    Hex(Xor(s[1..index]))
  }

  function Validate(s: seq<byte>): Verdict {
    if s == [] || (s[0] != DOLLAR && s[0] != BANG) then Rejects else
    match FindLast(s, STAR)
    case None => Rejects
    case Some(star) =>
      if |s| < star + 3 then Rejects
      else if star > LAST_INDEX then Hangs
      else if s[star + 1..star + 3] == Checksum(s, star) then Accepts
      else Rejects
  }

  /** The loop counter after some turns. It starts at one and is a byte. */
  function Counter(turns: nat): (i: nat)
    ensures i < 256
  {
    (1 + turns) % 256
  }

  /** The checksum after some turns, each of which reads an index below `index`. */
  function LoopParity(s: seq<byte>, index: nat, turns: nat): byte
    requires index <= |s| && forall k :: 0 <= k < turns ==> Counter(k) < index
  {
    if turns == 0 then 0 else LoopParity(s, index, turns - 1) ^ s[Counter(turns - 1)]
  }

  /** The loop leaves off after some turns: the counter was below the index all along, and is not any more. */
  predicate StopsAfter(index: nat, turns: nat) {
    (forall k :: 0 <= k < turns ==> Counter(k) < index) && Counter(turns) >= index
  }

  /** The loop ends exactly if the index fits a byte, then after `index - 1` turns, and with the exclusive or of the bytes
      in between. */
  lemma LoopEnds(s: seq<byte>, index: nat)
    requires 1 <= index <= |s|
    ensures (exists turns: nat :: StopsAfter(index, turns)) <==> index <= LAST_INDEX
    ensures forall turns: nat :: StopsAfter(index, turns) ==>
        turns == index - 1 && LoopParity(s, index, turns) == Xor(s[1..index])
  {
    if index <= LAST_INDEX {
      assert Counter(index - 1) == index;
      assert StopsAfter(index, index - 1);
      LoopParityIsXor(s, index, index - 1);
      assert s[1..1 + (index - 1)] == s[1..index];
    }
  }

  lemma {:induction false} LoopParityIsXor(s: seq<byte>, index: nat, turns: nat)
    requires turns < index <= |s| && index <= LAST_INDEX
    ensures forall k :: 0 <= k < turns ==> Counter(k) < index
    ensures LoopParity(s, index, turns) == Xor(s[1..1 + turns])
  {
    if turns > 0 {
      LoopParityIsXor(s, index, turns - 1);
      XorOfRange(s, turns);
      hide Xor;
      assert Counter(turns - 1) == turns;
    }
  }

  lemma XorOfRange(s: seq<byte>, n: nat)
    requires 1 <= n < |s|
    ensures Xor(s[1..1 + n]) == Xor(s[1..n]) ^ s[n]
  {
    var t := s[1..1 + n];
    assert t[..|t| - 1] == s[1..n] && t[|t| - 1] == s[n];
  }

  /** Validating hangs exactly on a string that reaches the loop with a checksum mark that the counter never does. */
  lemma HangsExactly(s: seq<byte>)
    ensures Validate(s) == Hangs
            <==> && s != [] && (s[0] == DOLLAR || s[0] == BANG) && FindLast(s, STAR).Some?
                 && var star := FindLast(s, STAR).value;
                    |s| >= star + 3 && forall turns: nat :: Counter(turns) < star
  {
    hide Checksum;
    if FindLast(s, STAR).Some? {
      var star := FindLast(s, STAR).value;
      assert Counter(254) == 255;
    }
  }

  // ----- Parsing -----

  /** Unsigned subtraction. */
  function Minus(a: nat, b: nat): (r: nat)
    requires a < WORD && b < WORD
    ensures r < WORD
  {
    if b <= a then a - b else a + WORD - b
  }

  /** `substr`: None stands for the exception thrown for a position past the end. */
  function Substr(s: seq<byte>, pos: nat, len: nat): Option<seq<byte>> {
    if pos > |s| then None else if len < |s| - pos then Some(s[pos..pos + len]) else Some(s[pos..])
  }

  /** `npos` */
  const NPOS: nat := WORD - 1

  function OrNpos(r: Option<nat>): nat
  {
    if r.Some? then r.value else NPOS
  }

  /** The parsing constructor. */
  function Parse(s: seq<byte>): Option<Sentence>
    requires |s| < WORD
  {
    var comma := OrNpos(FindFrom(s, COMMA, 0));
    match Substr(s, 1, Minus(comma, 4))
    case None => None
    case Some(talker) =>
      match Substr(s, Minus(comma, 3), 3)
      case None => None
      case Some(kind) =>
        match ParseFields(s, FindFrom(s, COMMA, 0))
        case None => None
        case Some(fields) => Some(Sentence(talker, kind, fields))
  }

  /** The fields from the one behind the comma at `comma` on. */
  function ParseFields(s: seq<byte>, comma: Option<nat>): Option<seq<seq<byte>>>
    requires |s| < WORD
    decreases if comma.Some? && comma.value < |s| then |s| - comma.value else 0, if comma.Some? then 1 else 0
  {
    if comma.None? || comma.value >= |s| then Some([]) else
    var next := FindFrom(s, COMMA, comma.value + 1);
    var length := Minus(Minus(if next.Some? then next.value else OrNpos(FindLast(s, STAR)), comma.value), 1);
    match Substr(s, comma.value + 1, length)
    case None => None
    case Some(field) =>
      match ParseFields(s, next)
      case None => None
      case Some(fields) => Some([field] + fields)
  }

  // ----- Printing -----

  function PrintFields(fields: seq<seq<byte>>): seq<byte> {
    if fields == [] then [] else [COMMA] + fields[0] + PrintFields(fields[1..])
  }

  /** What lies between the start mark and the checksum mark. */
  function Body(x: Sentence): seq<byte> {
    x.talker + x.kind + PrintFields(x.fields)
  }

  function StartMark(encapsulated: bool): byte {
    if encapsulated then BANG else DOLLAR
  }

  /** `nmea_string` */
  function Print(x: Sentence, encapsulated: bool): seq<byte>
    requires |Body(x)| < LAST_INDEX
  {
    [StartMark(encapsulated)] + Body(x) + [STAR] + Hex(Xor(Body(x))) + [CR, LF]
  }

  // ----- What printing and validating promise -----

  lemma {:induction false} FindLastOfConcat(a: seq<byte>, c: byte, b: seq<byte>)
    requires c !in b
    ensures FindLast(a + [c] + b, c) == Some(|a|)
  {
    var s := a + [c] + b;
    if b != [] {
      assert s[..|s| - 1] == a + [c] + b[..|b| - 1];
      FindLastOfConcat(a, c, b[..|b| - 1]);
    } else {
      assert s == a + [c];
    }
  }

  lemma {:induction false} FindFromOfConcat(a: seq<byte>, c: byte, b: seq<byte>, from: nat)
    requires from <= |a| && c !in a[from..]
    ensures FindFrom(a + [c] + b, c, from) == Some(|a|)
    decreases |a| - from
  {
    if from < |a| {
      assert a[from..][0] == a[from] && a[from..][1..] == a[from + 1..];
      FindFromOfConcat(a, c, b, from + 1);
    }
  }

  lemma {:induction false} FindFromNone(s: seq<byte>, c: byte, from: nat)
    requires from <= |s| && c !in s[from..]
    ensures FindFrom(s, c, from) == None
    decreases |s| - from
  {
    if from < |s| {
      assert s[from..][0] == s[from] && s[from..][1..] == s[from + 1..];
      FindFromNone(s, c, from + 1);
    }
  }

  lemma {:induction false} FindFromIsFirst(s: seq<byte>, c: byte, from: nat)
    requires from <= |s|
    ensures var r := FindFrom(s, c, from);
            if r.Some? then c !in s[from..r.value] else c !in s[from..]
    decreases |s| - from
  {
    if from < |s| && s[from] != c {
      FindFromIsFirst(s, c, from + 1);
      var r := FindFrom(s, c, from + 1);
      if r.Some? {
        assert s[from..r.value] == [s[from]] + s[from + 1..r.value];
      } else {
        assert s[from..] == [s[from]] + s[from + 1..];
      }
    }
  }

  /** The last '*' of a printed sentence is its checksum mark. */
  lemma PrintedParts(x: Sentence, encapsulated: bool)
    requires |Body(x)| < LAST_INDEX
    ensures var s, star := Print(x, encapsulated), 1 + |Body(x)|;
            && |s| == star + 5
            && s[..star] == [StartMark(encapsulated)] + Body(x)
            && FindLast(s, STAR) == Some(star)
            && s[star + 1..star + 3] == Hex(Xor(Body(x)))
            && s[star + 1..] == Hex(Xor(Body(x))) + [CR, LF]
            && COMMA !in s[star..]
  {
    var front, tail := [StartMark(encapsulated)] + Body(x), Hex(Xor(Body(x))) + [CR, LF];
    assert Print(x, encapsulated) == front + [STAR] + tail;
    HexIsHex(Xor(Body(x)));
    FindLastOfConcat(front, STAR, tail);
    assert (front + [STAR] + tail)[|front|..] == [STAR] + tail;
  }

  lemma HexIsHex(b: byte)
    ensures IsUpperHex(Hex(b)[0]) && IsUpperHex(Hex(b)[1])
    ensures forall c <- Hex(b) :: c != STAR && c != COMMA
  {
    assert b >> 4 < 16 && b & 0x0F < 16;
  }

  /** Everything that is printed validates. */
  lemma PrintedValidates(x: Sentence, encapsulated: bool)
    requires |Body(x)| < LAST_INDEX
    ensures Validate(Print(x, encapsulated)) == Accepts
  {
    var s := Print(x, encapsulated);
    PrintedParts(x, encapsulated);
    assert s[0] == s[..1 + |Body(x)|][0];
    assert s[1..1 + |Body(x)|] == s[..1 + |Body(x)|][1..] == Body(x);
  }

  /** A changed byte between the start mark and the checksum mark is always noticed. */
  lemma CorruptionIsRejected(s: seq<byte>, k: nat, b: byte)
    requires Validate(s) == Accepts
    requires 0 < k < FindLast(s, STAR).value && b != s[k]
    ensures Validate(s[k := b]) == Rejects
  {
    var star := FindLast(s, STAR).value;
    var t := s[k := b];
    FindLastUnchanged(s, STAR, k, b);
    assert t[star + 1..star + 3] == s[star + 1..star + 3];
    assert t[1..star] == s[1..star][k - 1 := b];
    XorOfUpdate(s[1..star], k - 1, b);
    if t[star + 1..star + 3] == Checksum(t, star) {
      HexInjective(Xor(s[1..star]), Xor(t[1..star]));
    }
  }

  lemma {:induction false} FindLastUnchanged(s: seq<byte>, c: byte, k: nat, b: byte)
    requires FindLast(s, c).Some? && k < FindLast(s, c).value
    ensures FindLast(s[k := b], c) == FindLast(s, c)
  {
    var n := |s| - 1;
    if s[n] != c {
      assert s[k := b][..n] == s[..n][k := b];
      FindLastUnchanged(s[..n], c, k, b);
    }
  }

  // ----- Printing and parsing -----

  predicate CommaFree(x: Sentence) {
    COMMA !in x.talker && COMMA !in x.kind && forall i :: 0 <= i < |x.fields| ==> COMMA !in x.fields[i]
  }

  lemma SubstrLacks(s: seq<byte>, pos: nat, len: nat, c: byte)
    requires pos <= |s| && c !in s[pos..]
    ensures c !in Substr(s, pos, len).value
  {
    var r := Substr(s, pos, len).value;
    assert forall i :: 0 <= i < |r| ==> r[i] == s[pos..][i];
  }

  lemma SubstrInside(s: seq<byte>, from: nat, to: nat)
    requires from <= to <= |s| < WORD
    ensures Substr(s, from, Minus(to, from)) == Some(s[from..to])
  {
    assert s[from..|s|] == s[from..];
  }

  /** One turn of the field loop: the field ends at the next comma or, behind the last comma, at the checksum mark. */
  lemma FieldStep(s: seq<byte>, comma: nat, end: nat)
    requires comma < end < |s| < WORD
    requires var next := FindFrom(s, COMMA, comma + 1);
             if next.Some? then end == next.value else FindLast(s, STAR) == Some(end)
    ensures ParseFields(s, Some(comma))
            == match ParseFields(s, FindFrom(s, COMMA, comma + 1))
               case None => None
               case Some(fields) => Some([s[comma + 1..end]] + fields)
  {
    SubstrInside(s, comma + 1, end);
    LengthBetween(comma, end);
    hide FindFrom, FindLast, Substr, Minus;
  }

  lemma LengthBetween(comma: nat, end: nat)
    requires comma < end < WORD
    ensures Minus(Minus(end, comma), 1) == Minus(end, comma + 1)
  {
  }

  /** The last field, ended by the checksum mark. */
  lemma LastField(s: seq<byte>, front: seq<byte>, field: seq<byte>, tail: seq<byte>)
    requires s == front + [COMMA] + field + [STAR] + tail && |s| < WORD
    requires STAR !in tail && COMMA !in tail && COMMA !in field
    ensures ParseFields(s, Some(|front|)) == Some([field])
  {
    hide ParseFields, Substr, Minus;
    var after := front + [COMMA] + field;
    FindLastOfConcat(after, STAR, tail);
    assert s[|front| + 1..] == field + ([STAR] + tail);
    FindFromNone(s, COMMA, |front| + 1);
    FieldStep(s, |front|, |after|);
    NoMoreFields(s);
    assert s[|front| + 1..|after|] == field;
    assert [field] + [] == [field];
  }

  /** A field ended by a comma. */
  lemma InnerField(s: seq<byte>, front: seq<byte>, field: seq<byte>, more: seq<byte>, fields: seq<seq<byte>>)
    requires s == front + [COMMA] + field + [COMMA] + more && |s| < WORD && COMMA !in field
    requires ParseFields(s, Some(|front + [COMMA] + field|)) == Some(fields)
    ensures ParseFields(s, Some(|front|)) == Some([field] + fields)
  {
    hide ParseFields, Substr, Minus;
    var after := front + [COMMA] + field;
    assert after[|front| + 1..] == field;
    FindFromOfConcat(after, COMMA, more, |front| + 1);
    FieldStep(s, |front|, |after|);
    assert s[|front| + 1..|after|] == field;
  }

  /** The fields of a printed sentence, read from the comma that starts them. */
  lemma {:induction false} ParseOfPrintedFields(s: seq<byte>, front: seq<byte>, fields: seq<seq<byte>>, tail: seq<byte>)
    requires s == front + PrintFields(fields) + [STAR] + tail && |s| < WORD && fields != []
    requires STAR !in tail && COMMA !in tail
    requires forall i :: 0 <= i < |fields| ==> COMMA !in fields[i]
    ensures ParseFields(s, Some(|front|)) == Some(fields)
    decreases |fields|
  {
    hide ParseFields, PrintFields;
    var field, rest := fields[0], fields[1..];
    var after := front + [COMMA] + field;
    assert fields == [field] + rest;
    PrintedStep(front, fields, [STAR] + tail);
    assert s == front + PrintFields(fields) + ([STAR] + tail);
    if rest == [] {
      NoPrintedFields();
      assert s == after + [STAR] + tail;
      LastField(s, front, field, tail);
      assert fields == [field];
    } else {
      assert s == after + PrintFields(rest) + [STAR] + tail;
      ParseOfPrintedFields(s, after, rest, tail);
      PrintedStep(after, rest, [STAR] + tail);
      var last := PrintFields(rest[1..]) + ([STAR] + tail);
      assert s == after + PrintFields(rest) + ([STAR] + tail);
      assert s == after + [COMMA] + rest[0] + last;
      var more := rest[0] + last;
      assert s == after + [COMMA] + more;
      InnerField(s, front, field, more, rest);
    }
  }

  lemma PrintedStep(front: seq<byte>, fields: seq<seq<byte>>, tail: seq<byte>)
    requires fields != []
    ensures front + PrintFields(fields) + tail == front + [COMMA] + fields[0] + (PrintFields(fields[1..]) + tail)
  {
    var more := PrintFields(fields[1..]);
    assert PrintFields(fields) == [COMMA] + fields[0] + more;
    hide PrintFields;
    Regrouped(front, [COMMA], fields[0], more, tail);
  }

  lemma Regrouped(a: seq<byte>, b: seq<byte>, c: seq<byte>, d: seq<byte>, e: seq<byte>)
    ensures a + (b + c + d) + e == a + b + c + (d + e)
  {
    assert a + (b + c + d) == a + b + c + d;
  }

  lemma NoPrintedFields()
    ensures PrintFields([]) == []
  {
  }

  lemma NoMoreFields(s: seq<byte>)
    requires |s| < WORD
    ensures ParseFields(s, None) == Some([])
  {
  }

  /** A printed sentence parses back to its talker, type and fields. */
  lemma ParseOfPrinted(x: Sentence, encapsulated: bool)
    requires |Body(x)| < LAST_INDEX && |x.kind| == 3 && x.fields != [] && CommaFree(x)
    ensures Parse(Print(x, encapsulated)) == Some(x)
  {
    hide ParseFields, FindFrom, FindLast, Hex, Xor, Substr, Minus;
    var s := Print(x, encapsulated);
    var tag := [StartMark(encapsulated)] + x.talker + x.kind;
    var tail := Hex(Xor(Body(x))) + [CR, LF];
    HexIsHex(Xor(Body(x)));
    assert s == tag + PrintFields(x.fields) + [STAR] + tail;
    var rest := x.fields[0] + PrintFields(x.fields[1..]) + [STAR] + tail;
    assert s == tag + [COMMA] + rest;
    assert tag[0..] == tag;
    FindFromOfConcat(tag, COMMA, rest, 0);
    ParseOfPrintedFields(s, tag, x.fields, tail);
    SubstrInside(s, 1, |tag| - 3);
    SubstrInside(s, |tag| - 3, |tag|);
    TagWidths(|tag|);
    assert s[1..|tag| - 3] == x.talker && s[|tag| - 3..|tag|] == x.kind;
  }

  lemma TagWidths(n: nat)
    requires 4 <= n < WORD
    ensures Minus(n, 4) == Minus(n - 3, 1) && Minus(n, 3) == n - 3 && Minus(n, n - 3) == 3
  {
  }

  /** Parsed fields hold no comma. */
  lemma {:induction false} ParsedFieldsAreCommaFree(s: seq<byte>, comma: Option<nat>)
    requires |s| < WORD && ParseFields(s, comma).Some?
    ensures forall i :: 0 <= i < |ParseFields(s, comma).value| ==> COMMA !in ParseFields(s, comma).value[i]
    decreases if comma.Some? && comma.value < |s| then |s| - comma.value else 0, if comma.Some? then 1 else 0
  {
    if comma.Some? && comma.value < |s| {
      var next := FindFrom(s, COMMA, comma.value + 1);
      FindFromIsFirst(s, COMMA, comma.value + 1);
      ParsedFieldsAreCommaFree(s, next);
      var length := Minus(Minus(if next.Some? then next.value else OrNpos(FindLast(s, STAR)), comma.value), 1);
      if next.Some? {
        SubstrInside(s, comma.value + 1, next.value);
      } else {
        SubstrLacks(s, comma.value + 1, length, COMMA);
      }
    }
  }

  /** What parsing can yield, unless it takes the whole string for the talker. */
  lemma ParsedIsNormal(s: seq<byte>, x: Sentence)
    requires |s| < WORD - 8 && Parse(s) == Some(x) && |x.talker| + 1 < |s|
    ensures x.fields != [] && |x.kind| == 3 && CommaFree(x)
  {
    hide FindLast;
    FindFromIsFirst(s, COMMA, 0);
    ParsedFieldsAreCommaFree(s, FindFrom(s, COMMA, 0));
    TagIsCommaFree(s, x);
  }

  lemma TagIsCommaFree(s: seq<byte>, x: Sentence)
    requires |s| < WORD - 8 && Parse(s) == Some(x) && |x.talker| + 1 < |s|
    requires FindFrom(s, COMMA, 0).Some? ==> COMMA !in s[..FindFrom(s, COMMA, 0).value]
    ensures FindFrom(s, COMMA, 0).Some? && |x.kind| == 3 && COMMA !in x.talker && COMMA !in x.kind
  {
    hide FindFrom, ParseFields, Substr, Minus;
    TagPlace(s, x);
    var comma := FindFrom(s, COMMA, 0).value;
    SubstrInside(s, 1, comma - 3);
    SubstrInside(s, comma - 3, comma);
    assert x.talker == s[1..comma - 3] && x.kind == s[comma - 3..comma];
    CommaFreeParts(s, comma);
  }

  lemma CommaFreeParts(s: seq<byte>, comma: nat)
    requires 4 <= comma <= |s| && COMMA !in s[..comma]
    ensures COMMA !in s[1..comma - 3] && COMMA !in s[comma - 3..comma]
  {
    assert s[1..comma - 3] == s[..comma][1..comma - 3] && s[comma - 3..comma] == s[..comma][comma - 3..];
  }

  lemma TagPlace(s: seq<byte>, x: Sentence)
    requires |s| < WORD - 8 && Parse(s) == Some(x) && |x.talker| + 1 < |s|
    ensures var comma := FindFrom(s, COMMA, 0);
            && comma.Some? && 4 <= comma.value
            && Minus(comma.value, 4) == Minus(comma.value - 3, 1)
            && Minus(comma.value, 3) == comma.value - 3 && Minus(comma.value, comma.value - 3) == 3
  {
    hide FindFrom, ParseFields;
  }

  /** Printing and parsing return the sentence exactly when it has a field, its type has three characters, and no part
      of it holds a comma. */
  lemma PrintThenParse(x: Sentence, encapsulated: bool)
    requires |Body(x)| < LAST_INDEX
    ensures Parse(Print(x, encapsulated)) == Some(x) <==> x.fields != [] && |x.kind| == 3 && CommaFree(x)
  {
    if x.fields != [] && |x.kind| == 3 && CommaFree(x) {
      ParseOfPrinted(x, encapsulated);
    }
    if Parse(Print(x, encapsulated)) == Some(x) {
      ParsedIsNormal(Print(x, encapsulated), x);
    }
  }
}

/** The sentence class: its loops, proved against the functions above. */
module NmeaSentenceClass {
  import opened Prelude
  import opened NmeaBytes
  import opened NmeaSentence

  class SentenceObject {
    var talker: seq<byte>
    var kind: seq<byte>
    var fields: seq<seq<byte>>

    ghost function Contents(): Sentence
      reads this
    {
      Sentence(talker, kind, fields)
    }

    constructor (talker: seq<byte>, kind: seq<byte>, fieldCount: nat)
      requires fieldCount < 256
      ensures Contents() == Sentence(talker, kind, seq(fieldCount, _ => []))
    {
      this.talker, this.kind, this.fields := talker, kind, seq(fieldCount, _ => []);
    }

    /** The parsing constructor; null where it throws. */
    static method FromString(s: seq<byte>) returns (r: SentenceObject?)
      requires |s| < WORD
      ensures r == null <==> Parse(s) == None
      ensures r != null ==> fresh(r) && Some(r.Contents()) == Parse(s)
    {
      hide FindLast;
      var comma := FindFrom(s, COMMA, 0);
      var talker := Substr(s, 1, Minus(OrNpos(comma), 4));
      if talker.None? {
        return null;
      }
      var kind := Substr(s, Minus(OrNpos(comma), 3), 3);
      if kind.None? {
        return null;
      }
      var fields := ReadFields(s, comma);
      if fields.None? {
        return null;
      }
      r := new SentenceObject(talker.value, kind.value, 0);
      r.fields := fields.value;
    }

    /** The field loop of the parsing constructor. */
    static method ReadFields(s: seq<byte>, first: Option<nat>) returns (r: Option<seq<seq<byte>>>)
      requires |s| < WORD && (first.Some? ==> first.value < |s|)
      ensures r == ParseFields(s, first)
    {
      var comma := first;
      var fields: seq<seq<byte>> := [];
      JoinNothing(ParseFields(s, first));
      while comma.Some?
        invariant comma.Some? ==> comma.value < |s|
        invariant ParseFields(s, first) == Join(fields, ParseFields(s, comma))
        decreases if comma.Some? then |s| - comma.value else 0, comma.Some?
      {
        var next := FindFrom(s, COMMA, comma.value + 1);
        var end := if next.Some? then next.value else OrNpos(FindLast(s, STAR));
        var field := Substr(s, comma.value + 1, Minus(Minus(end, comma.value), 1));
        if field.None? {
          return None;
        }
        JoinTwice(fields, field.value, ParseFields(s, next));
        fields := fields + [field.value];
        comma := next;
      }
      assert fields + [] == fields;
      r := Some(fields);
    }

    /** `checksum`, for an index that the byte-sized loop counter reaches */
    static method ChecksumOf(s: seq<byte>, index: nat) returns (hex: seq<byte>)
      requires 1 <= index <= |s| && index <= LAST_INDEX
      ensures hex == Checksum(s, index)
    {
      var checksum: byte := 0;
      var i: nat := 1;
      while i < index
        invariant 1 <= i <= index && checksum == Xor(s[1..i])
      {
        assert s[1..i + 1][..i - 1] == s[1..i];
        checksum := checksum ^ s[i];
        i := (i + 1) % 256;
      }
      hex := Hex(checksum);
    }

    /** `nmea_string` */
    method NmeaString(encapsulated: bool) returns (s: seq<byte>)
      requires |Body(Contents())| < LAST_INDEX
      ensures s == Print(Contents(), encapsulated)
    {
      s := [StartMark(encapsulated)] + talker + kind;
      assert s + PrintFields(fields) == [StartMark(encapsulated)] + Body(Contents());
      for i := 0 to |fields|
        invariant s + PrintFields(fields[i..]) == [StartMark(encapsulated)] + Body(Contents())
      {
        assert fields[i..][1..] == fields[i + 1..];
        assert s + ([COMMA] + fields[i] + PrintFields(fields[i + 1..]))
            == s + [COMMA] + fields[i] + PrintFields(fields[i + 1..]);
        s := s + [COMMA] + fields[i];
      }
      assert s + PrintFields([]) == s;
      s := s + [STAR];
      assert s[1..|s| - 1] == Body(Contents());
      var hex := ChecksumOf(s, |s| - 1);
      s := s + hex + [CR, LF];
    }

    method GetField(i: nat) returns (value: seq<byte>)
      ensures value == if i < |fields| then fields[i] else []
    {
      value := if i < |fields| then fields[i] else [];
    }

    method SetField(i: nat, value: seq<byte>)
      modifies this`fields
      ensures fields == if i < |old(fields)| then old(fields)[i := value] else old(fields)
    {
      if i < |fields| {
        fields := fields[i := value];
      }
    }
  }

  function Join(fields: seq<seq<byte>>, more: Option<seq<seq<byte>>>): Option<seq<seq<byte>>> {
    if more.None? then None else Some(fields + more.value)
  }

  lemma JoinNothing(more: Option<seq<seq<byte>>>)
    ensures Join([], more) == more
  {
    if more.Some? {
      assert [] + more.value == more.value;
    }
  }

  lemma JoinTwice(fields: seq<seq<byte>>, field: seq<byte>, more: Option<seq<seq<byte>>>)
    ensures Join(fields, Join([field], more)) == Join(fields + [field], more)
  {
    if more.Some? {
      assert fields + ([field] + more.value) == fields + [field] + more.value;
    }
  }
}
