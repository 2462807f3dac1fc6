/**
 * What the two sentence types that the parser knows stage and publish, field by field.
 * Term numbers start again behind 256 terms, so a longer sentence is read block by block.
 */
module TinyGpsPublished {
  import opened NmeaBytes
  import opened TinyGpsNumbers
  import opened TinyGpsSpec
  import opened TinyGpsTheorems
  import opened TinyGpsMeaning

  /** The text of the `i`-th term as the parser sees it; nothing for a term that is missing. */
  function Text(terms: seq<seq<byte>>, i: nat): seq<byte> {
    if i < |terms| then CStr(Cut(terms[i])) else []
  }

  function Texts(terms: seq<seq<byte>>, from: nat, to: nat): seq<seq<byte>>
    requires from <= to
  {
    seq(to - from, i requires 0 <= i < to - from => Text(terms, from + i))
  }

  // ----- The values behind twelve codes -----

  /** A value is staged by a text that is not empty; otherwise what was staged before stays. */
  function Stage(f: Field, text: seq<byte>, value: int): Field {
    if text == [] then f else f.(newVal := value)
  }

  /** Degrees and their side, which is read from a term of its own. */
  function Position(before: RawDegrees, degrees: seq<byte>, side: seq<byte>, negative: byte): RawDegrees {
    var r := if degrees == [] then before else ParseDegrees(degrees);
    if side == [] then r else r.(negative := side[0] == negative)
  }

  /** The terms of an RMC sentence: time, status, latitude, N/S, longitude, E/W, speed, course, date, and the twelfth, the
      fix mode. */
  function RmcBlock(t: seq<seq<byte>>, s: Staged): Staged
    requires |t| == 12
  {
    var d, l := s.data, s.data.location;
    Staged(
      if t[1] == [] then s.hasFix else t[1][0] == 0x41,
      d.(time := Stage(d.time, t[0], ParseDecimal(t[0]) % TWO32),
         location := l.(newLat := Position(l.newLat, t[2], t[3], 0x53), newLng := Position(l.newLng, t[4], t[5], 0x57),
                        newMode := if t[11] == [] then l.newMode else t[11][0]),
         speed := Stage(d.speed, t[6], ParseDecimal(t[6])),
         course := Stage(d.course, t[7], ParseDecimal(t[7])),
         date := Stage(d.date, t[8], Atol(t[8]) % TWO32)))
  }

  /** The terms of a GGA sentence: time, latitude, N/S, longitude, E/W, quality, satellites, dilution, altitude. */
  function GgaBlock(t: seq<seq<byte>>, s: Staged): Staged
    requires |t| == 12
  {
    var d, l := s.data, s.data.location;
    Staged(
      if t[5] == [] then s.hasFix else t[5][0] > 0x30,
      d.(time := Stage(d.time, t[0], ParseDecimal(t[0]) % TWO32),
         location := l.(newLat := Position(l.newLat, t[1], t[2], 0x53), newLng := Position(l.newLng, t[3], t[4], 0x57),
                        newQuality := if t[5] == [] then l.newQuality else t[5][0]),
         satellites := Stage(d.satellites, t[6], Atol(t[6]) % TWO32),
         hdop := Stage(d.hdop, t[7], ParseDecimal(t[7])),
         altitude := Stage(d.altitude, t[8], ParseDecimal(t[8]))))
  }

  // ----- Texts instead of terms -----

  /** What texts with the numbers from `number` on stage. */
  function StageTexts(kind: Kind, number: nat, texts: seq<seq<byte>>, s: Staged): Staged
    decreases |texts|
  {
    if texts == [] then s else StageTexts(kind, number + 1, texts[1..], StageOne(kind, number, texts[0], s))
  }

  lemma {:induction false} StageTextsOfConcat(kind: Kind, number: nat, a: seq<seq<byte>>, b: seq<seq<byte>>, s: Staged)
    ensures StageTexts(kind, number, a + b, s) == StageTexts(kind, number + |a|, b, StageTexts(kind, number, a, s))
    decreases |a|
  {
    hide StageOne;
    if a == [] {
      assert a + b == b;
    } else {
      assert (a + b)[1..] == a[1..] + b;
      StageTextsOfConcat(kind, number + 1, a[1..], b, StageOne(kind, number, a[0], s));
    }
  }

  /** Without a new sentence name, terms stage what their texts do. */
  lemma {:induction false} TermsStageTexts(number: nat, terms: seq<seq<byte>>, m: Meaning)
    requires |m.buffer| == TERM_SIZE && 1 <= number && number + |terms| <= TERM_NUMBERS
    ensures var r := AddTerms(number % TERM_NUMBERS, terms, m);
            r.kind == m.kind && r.staged == StageTexts(m.kind, number, Texts(terms, 0, |terms|), m.staged)
    decreases |terms|
  {
    hide AddTerm, StageOne, Text;
    if terms != [] {
      LaterTerm(number, terms[0], m);
      TermsStageTexts(number + 1, terms[1..], AddTerm(number, terms[0], m));
      TextsStep(terms);
    }
  }

  lemma TextsStep(terms: seq<seq<byte>>)
    requires terms != []
    ensures Texts(terms, 0, |terms|)[0] == Text([terms[0]], 0)
    ensures Texts(terms, 0, |terms|)[1..] == Texts(terms[1..], 0, |terms| - 1)
  {
    hide CStr, Cut;
  }

  lemma LaterTerm(number: nat, term: seq<byte>, m: Meaning)
    requires |m.buffer| == TERM_SIZE && 1 <= number
    ensures var r := AddTerm(number, term, m);
            r.kind == m.kind && r.staged == StageOne(m.kind, number, Text([term], 0), m.staged)
  {
    hide StageOne, Filled, CStr, Cut;
  }

  /** Numbers that mean nothing to either sentence type, even with the bit of the sentence type set. */
  predicate Quiet(number: nat) {
    13 <= number <= 32 || 45 <= number < TERM_NUMBERS
  }

  lemma QuietText(kind: Kind, number: nat, text: seq<byte>, s: Staged)
    requires Quiet(number)
    ensures StageOne(kind, number, text, s) == s
  {
    hide Committed, ParseDecimal, ParseDegrees, Atol;
  }

  lemma {:induction false} QuietTexts(kind: Kind, number: nat, texts: seq<seq<byte>>, s: Staged)
    requires texts != [] ==> Quiet(number) && Quiet(number + |texts| - 1) && (number <= 32 ==> number + |texts| <= 33)
    ensures StageTexts(kind, number, texts, s) == s
    decreases |texts|
  {
    hide StageOne;
    if texts != [] {
      QuietText(kind, number, texts[0], s);
      QuietTexts(kind, number + 1, texts[1..], s);
    }
  }

  /** Empty texts stage nothing. */
  lemma {:induction false} EmptyTexts(kind: Kind, number: nat, texts: seq<seq<byte>>, s: Staged)
    requires forall i :: 0 <= i < |texts| ==> texts[i] == []
    ensures StageTexts(kind, number, texts, s) == s
    decreases |texts|
  {
    if texts != [] {
      EmptyTexts(kind, number + 1, texts[1..], s);
    }
  }

  lemma MissingTexts(terms: seq<seq<byte>>, from: nat, to: nat)
    requires |terms| <= from <= to
    ensures forall i :: 0 <= i < to - from ==> Texts(terms, from, to)[i] == []
  {
    assert forall i :: 0 <= i < to - from ==> Texts(terms, from, to)[i] == Text(terms, from + i);
  }

  /** Only two ranges of terms matter: the first twelve, and those twelve whose numbers carry the bit of the sentence
      type themselves. */
  lemma TwoBlocks(terms: seq<seq<byte>>, m: Meaning)
    requires |m.buffer| == TERM_SIZE && 1 <= |terms| <= TERM_NUMBERS
    ensures var r := AddTerms(1, terms[1..], m);
            && r.kind == m.kind
            && r.staged == StageTexts(m.kind, 33, Texts(terms, 33, 45), StageTexts(m.kind, 1, Texts(terms, 1, 13), m.staged))
  {
    hide StageTexts, AddTerms;
    var k, s := m.kind, m.staged;
    var own, missing := Texts(terms, 1, |terms|), Texts(terms, |terms|, TERM_NUMBERS);
    TermsStageTexts(1, terms[1..], m);
    assert Texts(terms[1..], 0, |terms| - 1) == own;
    StageTextsOfConcat(k, 1, own, missing, s);
    MissingTexts(terms, |terms|, TERM_NUMBERS);
    EmptyTexts(k, |terms|, missing, StageTexts(k, 1, own, s));
    var first, second := Texts(terms, 1, 13), Texts(terms, 33, 45);
    var between, behind := Texts(terms, 13, 33), Texts(terms, 45, TERM_NUMBERS);
    assert own + missing == first + (between + (second + behind));
    StageTextsOfConcat(k, 1, first, between + (second + behind), s);
    var s1 := StageTexts(k, 1, first, s);
    StageTextsOfConcat(k, 13, between, second + behind, s1);
    QuietTexts(k, 13, between, s1);
    StageTextsOfConcat(k, 33, second, behind, s1);
    QuietTexts(k, 45, behind, StageTexts(k, 33, second, s1));
  }

  // ----- The blocks -----

  /** A text under a combined code. */
  function StageText(code: nat, text: seq<byte>, s: Staged): Staged {
    if text == [] then s else StageCode(code, text, s)
  }

  /** Texts under consecutive codes. */
  function StageCodes(code: nat, texts: seq<seq<byte>>, s: Staged): Staged
    decreases |texts|
  {
    if texts == [] then s else StageCodes(code + 1, texts[1..], StageText(code, texts[0], s))
  }

  /** The numbers from one on have these codes: the bit of the sentence type is added, or has no effect. */
  predicate Coded(kind: Kind, number: nat, count: nat, code: nat) {
    || (kind == RMC && number + count <= 32 && code == number + 32)
    || (kind == RMC && 32 <= number && number + count <= 64 && code == number)
    || (kind == GGA && code == number)
  }

  lemma {:induction false} TextsUnderCodes(kind: Kind, number: nat, code: nat, texts: seq<seq<byte>>, s: Staged)
    requires Coded(kind, number, |texts|, code)
    ensures StageTexts(kind, number, texts, s) == StageCodes(code, texts, s)
    decreases |texts|
  {
    hide StageCode;
    if texts != [] {
      TextsUnderCodes(kind, number + 1, code + 1, texts[1..], StageText(code, texts[0], s));
    }
  }

  lemma CodesStep(code: nat, t: seq<seq<byte>>, k: nat, s: Staged)
    requires k < |t|
    ensures StageCodes(code, t[k..], s) == StageCodes(code + 1, t[k + 1..], StageText(code, t[k], s))
  {
    hide StageText;
    assert t[k..][1..] == t[k + 1..];
  }

  /** Twelve texts, staged one by one along the given values. */
  lemma TwelveCodes(code: nat, t: seq<seq<byte>>, s: seq<Staged>)
    requires |t| == 12 && |s| == 13
    requires s[1] == StageText(code, t[0], s[0]) && s[2] == StageText(code + 1, t[1], s[1])
    requires s[3] == StageText(code + 2, t[2], s[2]) && s[4] == StageText(code + 3, t[3], s[3])
    requires s[5] == StageText(code + 4, t[4], s[4]) && s[6] == StageText(code + 5, t[5], s[5])
    requires s[7] == StageText(code + 6, t[6], s[6]) && s[8] == StageText(code + 7, t[7], s[7])
    requires s[9] == StageText(code + 8, t[8], s[8]) && s[10] == StageText(code + 9, t[9], s[9])
    requires s[11] == StageText(code + 10, t[10], s[10]) && s[12] == StageText(code + 11, t[11], s[11])
    ensures StageCodes(code, t, s[0]) == s[12]
  {
    hide StageText;
    assert StageCodes(code + 12, t[12..], s[12]) == s[12] && t[0..] == t;
    hide StageCodes;
    CodesStep(code, t, 0, s[0]);
    CodesStep(code + 1, t, 1, s[1]);
    CodesStep(code + 2, t, 2, s[2]);
    CodesStep(code + 3, t, 3, s[3]);
    CodesStep(code + 4, t, 4, s[4]);
    CodesStep(code + 5, t, 5, s[5]);
    CodesStep(code + 6, t, 6, s[6]);
    CodesStep(code + 7, t, 7, s[7]);
    CodesStep(code + 8, t, 8, s[8]);
    CodesStep(code + 9, t, 9, s[9]);
    CodesStep(code + 10, t, 10, s[10]);
    CodesStep(code + 11, t, 11, s[11]);
  }

  /** The values along an RMC block. */
  function RmcSteps(t: seq<seq<byte>>, s: Staged): (r: seq<Staged>)
    requires |t| == 12
    ensures |r| == 13
  {
    var d, l := s.data, s.data.location;
    var fix := if t[1] == [] then s.hasFix else t[1][0] == 0x41;
    var d1 := d.(time := Stage(d.time, t[0], ParseDecimal(t[0]) % TWO32));
    var l3 := l.(newLat := Position(l.newLat, t[2], [], 0x53));
    var l4 := l.(newLat := Position(l.newLat, t[2], t[3], 0x53));
    var l5 := l4.(newLng := Position(l.newLng, t[4], [], 0x57));
    var l6 := l4.(newLng := Position(l.newLng, t[4], t[5], 0x57));
    var d6 := d1.(location := l6);
    var d7 := d6.(speed := Stage(d.speed, t[6], ParseDecimal(t[6])));
    var d8 := d7.(course := Stage(d.course, t[7], ParseDecimal(t[7])));
    var d9 := d8.(date := Stage(d.date, t[8], Atol(t[8]) % TWO32));
    var d12 := d9.(location := l6.(newMode := if t[11] == [] then l.newMode else t[11][0]));
    [s, Staged(s.hasFix, d1), Staged(fix, d1), Staged(fix, d1.(location := l3)), Staged(fix, d1.(location := l4)),
     Staged(fix, d1.(location := l5)), Staged(fix, d6), Staged(fix, d7), Staged(fix, d8), Staged(fix, d9),
     Staged(fix, d9), Staged(fix, d9), Staged(fix, d12)]
  }

  lemma RmcEarly(t: seq<seq<byte>>, s: Staged)
    requires |t| == 12
    ensures var r := RmcSteps(t, s);
            r[1] == StageText(33, t[0], r[0]) && r[2] == StageText(34, t[1], r[1]) && r[3] == StageText(35, t[2], r[2])
  {
    hide Committed, ParseDecimal, ParseDegrees, Atol;
  }

  lemma RmcMiddle(t: seq<seq<byte>>, s: Staged)
    requires |t| == 12
    ensures var r := RmcSteps(t, s);
            r[4] == StageText(36, t[3], r[3]) && r[5] == StageText(37, t[4], r[4]) && r[6] == StageText(38, t[5], r[5])
  {
    hide Committed, ParseDecimal, ParseDegrees, Atol;
  }

  lemma RmcLate(t: seq<seq<byte>>, s: Staged)
    requires |t| == 12
    ensures var r := RmcSteps(t, s);
            && r[7] == StageText(39, t[6], r[6]) && r[8] == StageText(40, t[7], r[7]) && r[9] == StageText(41, t[8], r[8])
            && r[10] == StageText(42, t[9], r[9]) && r[11] == StageText(43, t[10], r[10]) && r[12] == StageText(44, t[11], r[11])
  {
    hide Committed, ParseDecimal, ParseDegrees, Atol;
  }

  lemma RmcCodes(t: seq<seq<byte>>, s: Staged)
    requires |t| == 12
    ensures StageCodes(33, t, s) == RmcBlock(t, s)
  {
    hide StageCodes, StageText, ParseDecimal, ParseDegrees, Atol;
    RmcEarly(t, s);
    RmcMiddle(t, s);
    RmcLate(t, s);
    TwelveCodes(33, t, RmcSteps(t, s));
  }

  /** The values along a GGA block. */
  function GgaSteps(t: seq<seq<byte>>, s: Staged): (r: seq<Staged>)
    requires |t| == 12
    ensures |r| == 13
  {
    var d, l := s.data, s.data.location;
    var fix := if t[5] == [] then s.hasFix else t[5][0] > 0x30;
    var d1 := d.(time := Stage(d.time, t[0], ParseDecimal(t[0]) % TWO32));
    var l2 := l.(newLat := Position(l.newLat, t[1], [], 0x53));
    var l3 := l.(newLat := Position(l.newLat, t[1], t[2], 0x53));
    var l4 := l3.(newLng := Position(l.newLng, t[3], [], 0x57));
    var l5 := l3.(newLng := Position(l.newLng, t[3], t[4], 0x57));
    var l6 := l5.(newQuality := if t[5] == [] then l.newQuality else t[5][0]);
    var d6 := d1.(location := l6);
    var d7 := d6.(satellites := Stage(d.satellites, t[6], Atol(t[6]) % TWO32));
    var d8 := d7.(hdop := Stage(d.hdop, t[7], ParseDecimal(t[7])));
    var d9 := d8.(altitude := Stage(d.altitude, t[8], ParseDecimal(t[8])));
    [s, Staged(s.hasFix, d1), Staged(s.hasFix, d1.(location := l2)), Staged(s.hasFix, d1.(location := l3)),
     Staged(s.hasFix, d1.(location := l4)), Staged(s.hasFix, d1.(location := l5)), Staged(fix, d6), Staged(fix, d7),
     Staged(fix, d8), Staged(fix, d9), Staged(fix, d9), Staged(fix, d9), Staged(fix, d9)]
  }

  lemma GgaEarly(t: seq<seq<byte>>, s: Staged)
    requires |t| == 12
    ensures var r := GgaSteps(t, s);
            r[1] == StageText(1, t[0], r[0]) && r[2] == StageText(2, t[1], r[1]) && r[3] == StageText(3, t[2], r[2])
  {
    hide Committed, ParseDecimal, ParseDegrees, Atol;
  }

  lemma GgaMiddle(t: seq<seq<byte>>, s: Staged)
    requires |t| == 12
    ensures var r := GgaSteps(t, s);
            r[4] == StageText(4, t[3], r[3]) && r[5] == StageText(5, t[4], r[4]) && r[6] == StageText(6, t[5], r[5])
  {
    hide Committed, ParseDecimal, ParseDegrees, Atol;
  }

  lemma GgaLate(t: seq<seq<byte>>, s: Staged)
    requires |t| == 12
    ensures var r := GgaSteps(t, s);
            && r[7] == StageText(7, t[6], r[6]) && r[8] == StageText(8, t[7], r[7]) && r[9] == StageText(9, t[8], r[8])
            && r[10] == StageText(10, t[9], r[9]) && r[11] == StageText(11, t[10], r[10]) && r[12] == StageText(12, t[11], r[11])
  {
    hide Committed, ParseDecimal, ParseDegrees, Atol;
  }

  lemma GgaCodes(t: seq<seq<byte>>, s: Staged)
    requires |t| == 12
    ensures StageCodes(1, t, s) == GgaBlock(t, s)
  {
    hide StageCodes, StageText, ParseDecimal, ParseDegrees, Atol;
    GgaEarly(t, s);
    GgaMiddle(t, s);
    GgaLate(t, s);
    TwelveCodes(1, t, GgaSteps(t, s));
  }

  // ----- Whole sentences -----

  /** What at most 256 terms of a sentence stage over earlier values. Numbers of 33 and more are read as those of RMC
      terms again. */
  function StagedBy(kind: Kind, terms: seq<seq<byte>>, s: Staged): Staged {
    var first, second := Texts(terms, 1, 13), Texts(terms, 33, 45);
    match kind
    case OTHER => s
    case RMC => RmcBlock(second, RmcBlock(first, s))
    case GGA => RmcBlock(second, GgaBlock(first, s))
  }

  /** The buffer behind some terms. */
  function FilledAll(buffer: seq<byte>, terms: seq<seq<byte>>): (r: seq<byte>)
    requires |buffer| == TERM_SIZE
    ensures |r| == TERM_SIZE
    decreases |terms|
  {
    if terms == [] then buffer else FilledAll(Filled(buffer, terms[0]), terms[1..])
  }

  /** What at most 256 terms add, the first of which is a sentence name. */
  function Block(terms: seq<seq<byte>>, m: Meaning): (r: Meaning)
    requires terms != [] && |m.buffer| == TERM_SIZE
    ensures |r.buffer| == TERM_SIZE
  {
    var kind := KindShown(Cut(terms[0]), m.buffer);
    Meaning(kind, StagedBy(kind, terms, m.staged), FilledAll(m.buffer, terms))
  }

  /** The last block of a sentence. */
  function Last(terms: seq<seq<byte>>): (r: seq<seq<byte>>)
    requires terms != []
    ensures 1 <= |r| <= TERM_NUMBERS
    decreases |terms|
  {
    if |terms| <= TERM_NUMBERS then terms else Last(terms[TERM_NUMBERS..])
  }

  /** What the blocks in front of the last one add. */
  function Before(terms: seq<seq<byte>>, m: Meaning): (r: Meaning)
    requires terms != [] && |m.buffer| == TERM_SIZE
    ensures |r.buffer| == TERM_SIZE
    decreases |terms|
  {
    if |terms| <= TERM_NUMBERS then m else Before(terms[TERM_NUMBERS..], Block(terms[..TERM_NUMBERS], m))
  }

  /** A parser at the start of a sentence. */
  function Fresh(p: Parser): (m: Meaning)
    requires WellFormed(p)
    ensures |m.buffer| == TERM_SIZE
  {
    Meaning(OTHER, Staged(false, p.data), p.term)
  }

  /** A sentence of any number of terms, with a checksum of two characters. */
  predicate IsSentence(terms: seq<seq<byte>>, h: byte, l: byte) {
    terms != [] && (forall i :: 0 <= i < |terms| ==> IsTerm(terms[i])) && Ordinary(h) && Ordinary(l)
  }

  function Bytes(terms: seq<seq<byte>>, h: byte, l: byte): seq<byte>
    requires terms != []
  {
    Whole(Join(terms), h, l)
  }

  /** The type that a parser takes a sentence for in the end. */
  function KindFor(p: Parser, terms: seq<seq<byte>>): Kind
    requires WellFormed(p) && terms != []
  {
    KindShown(Cut(Last(terms)[0]), Before(terms, Fresh(p)).buffer)
  }

  /** A sentence of at most 256 terms is its own last block. */
  lemma OneBlock(p: Parser, terms: seq<seq<byte>>)
    requires WellFormed(p) && 1 <= |terms| <= TERM_NUMBERS
    ensures Last(terms) == terms && Before(terms, Fresh(p)) == Fresh(p)
  {
  }

  lemma {:induction false} AddTermsOfConcat(number: nat, a: seq<seq<byte>>, b: seq<seq<byte>>, m: Meaning)
    requires |m.buffer| == TERM_SIZE && number < TERM_NUMBERS
    ensures AddTerms(number, a + b, m) == AddTerms((number + |a|) % TERM_NUMBERS, b, AddTerms(number, a, m))
    decreases |a|
  {
    hide AddTerm;
    if a == [] {
      assert a + b == b;
    } else {
      assert (a + b)[1..] == a[1..] + b;
      AddTermsOfConcat((number + 1) % TERM_NUMBERS, a[1..], b, AddTerm(number, a[0], m));
      NumberOnwards(number, |a|);
    }
  }

  lemma NumberOnwards(number: nat, count: nat)
    requires number < TERM_NUMBERS && count > 0
    ensures ((number + 1) % TERM_NUMBERS + (count - 1)) % TERM_NUMBERS == (number + count) % TERM_NUMBERS
  {
  }

  lemma {:induction false} AddTermsFills(number: nat, terms: seq<seq<byte>>, m: Meaning)
    requires |m.buffer| == TERM_SIZE
    ensures AddTerms(number, terms, m).buffer == FilledAll(m.buffer, terms)
    decreases |terms|
  {
    hide Filled, StageOne, KindShown;
    if terms != [] {
      AddTermsFills((number + 1) % TERM_NUMBERS, terms[1..], AddTerm(number, terms[0], m));
    }
  }

  lemma {:induction false} OtherTexts(number: nat, texts: seq<seq<byte>>, s: Staged)
    ensures StageTexts(OTHER, number, texts, s) == s
    decreases |texts|
  {
    if texts != [] {
      OtherTexts(number + 1, texts[1..], s);
    }
  }

  lemma BlockIsAdded(terms: seq<seq<byte>>, m: Meaning)
    requires |m.buffer| == TERM_SIZE && 1 <= |terms| <= TERM_NUMBERS
    ensures AddTerms(0, terms, m) == Block(terms, m)
  {
    hide KindShown, Filled, CStr, Cut, StageCodes, StageTexts, RmcBlock, GgaBlock;
    AddTermsFills(0, terms, m);
    var kind := KindShown(Cut(terms[0]), m.buffer);
    var named := AddTerm(0, terms[0], m);
    assert AddTerms(0, terms, m) == AddTerms(1, terms[1..], named);
    hide AddTerms, FilledAll;
    TwoBlocks(terms, named);
    var first, second := Texts(terms, 1, 13), Texts(terms, 33, 45);
    if kind == OTHER {
      OtherTexts(1, first, m.staged);
      OtherTexts(33, second, m.staged);
    } else {
      TextsUnderCodes(kind, 1, if kind == RMC then 33 else 1, first, m.staged);
      RmcCodes(first, m.staged);
      GgaCodes(first, m.staged);
      var s := StageTexts(kind, 1, first, m.staged);
      TextsUnderCodes(kind, 33, 33, second, s);
      RmcCodes(second, s);
    }
  }

  lemma {:induction false} BlocksAreAdded(terms: seq<seq<byte>>, m: Meaning)
    requires terms != [] && |m.buffer| == TERM_SIZE
    ensures AddTerms(0, terms, m) == Block(Last(terms), Before(terms, m))
    decreases |terms|
  {
    hide Block, AddTerms;
    if |terms| <= TERM_NUMBERS {
      BlockIsAdded(terms, m);
    } else {
      var first, rest := terms[..TERM_NUMBERS], terms[TERM_NUMBERS..];
      assert terms == first + rest;
      AddTermsOfConcat(0, first, rest, m);
      BlockIsAdded(first, m);
      BlocksAreAdded(rest, Block(first, m));
    }
  }

  /** Staging publishes nothing. */
  lemma BlockKeepsCommitted(kind: Kind, terms: seq<seq<byte>>, s: Staged)
    ensures Committed(StagedBy(kind, terms, s).data) == Committed(s.data)
  {
    hide Committed, RmcBlock, GgaBlock;
    var first, second := Texts(terms, 1, 13), Texts(terms, 33, 45);
    RmcKeepsCommitted(first, s);
    GgaKeepsCommitted(first, s);
    RmcKeepsCommitted(second, RmcBlock(first, s));
    RmcKeepsCommitted(second, GgaBlock(first, s));
  }

  lemma RmcKeepsCommitted(t: seq<seq<byte>>, s: Staged)
    requires |t| == 12
    ensures Committed(RmcBlock(t, s).data) == Committed(s.data)
  {
    hide Position, ParseDecimal, Atol;
  }

  lemma GgaKeepsCommitted(t: seq<seq<byte>>, s: Staged)
    requires |t| == 12
    ensures Committed(GgaBlock(t, s).data) == Committed(s.data)
  {
    hide Position, ParseDecimal, Atol;
  }

  lemma {:induction false} BeforeKeepsCommitted(terms: seq<seq<byte>>, m: Meaning)
    requires terms != [] && |m.buffer| == TERM_SIZE
    ensures Committed(Before(terms, m).staged.data) == Committed(m.staged.data)
    decreases |terms|
  {
    hide Committed, StagedBy, FilledAll, KindShown;
    if |terms| > TERM_NUMBERS {
      var first := terms[..TERM_NUMBERS];
      BlockKeepsCommitted(Block(first, m).kind, first, m.staged);
      BeforeKeepsCommitted(terms[TERM_NUMBERS..], Block(first, m));
    }
  }

  /** A sentence stages the values of its non-empty terms, block by block, over those staged before it, and publishes
      under the type of its last block what is staged then if its checksum matches. */
  lemma SentenceStages(p: Parser, terms: seq<seq<byte>>, h: byte, l: byte)
    requires WellFormed(p) && IsSentence(terms, h, l)
    ensures var m := Block(Last(terms), Before(terms, Fresh(p)));
            && m.kind == KindFor(p, terms)
            && Feed(p, Bytes(terms, h, l)).data
               == if Matches(Join(terms), h, l) then CommitData(m.kind, m.staged.hasFix, m.staged.data) else m.staged.data
  {
    hide Feed, Join, AddTerms, StagedBy, CommitData, KindShown, Cut;
    SentenceMeaning(p, terms, h, l);
    BlocksAreAdded(terms, Fresh(p));
  }

  /** The text that decides a field: of the two terms that it may stand in, the second if that is not empty. */
  function Deciding(terms: seq<seq<byte>>, i: nat): seq<byte> {
    if Text(terms, i + 32) != [] then Text(terms, i + 32) else Text(terms, i)
  }

  /** A value that has just been published: parsed from its text, or else what had been staged before. */
  function Published(before: Field, text: seq<byte>, value: int): Field {
    var v := if text == [] then before.newVal else value;
    Field(true, true, v, v)
  }

  /** Degrees from the terms `i` and `i + 1`, and from the terms 32 places behind the position in an RMC sentence. */
  function PositionFrom(terms: seq<seq<byte>>, i: nat, again: nat, before: RawDegrees, negative: byte): RawDegrees {
    Position(Position(before, Text(terms, i), Text(terms, i + 1), negative), Text(terms, again), Text(terms, again + 1), negative)
  }

  predicate LocationKept(r: Data, d: Data) {
    r.location == d.location.(newLat := r.location.newLat, newLng := r.location.newLng,
                              newQuality := r.location.newQuality, newMode := r.location.newMode)
  }

  predicate FieldKept(r: Field, f: Field) {
    r == f.(newVal := r.newVal)
  }

  /** What the blocks in front of the last one keep. */
  lemma KeptBefore(p: Parser, terms: seq<seq<byte>>)
    requires WellFormed(p) && terms != []
    ensures var d := Before(terms, Fresh(p)).staged.data;
            && LocationKept(d, p.data) && FieldKept(d.date, p.data.date) && FieldKept(d.speed, p.data.speed)
            && FieldKept(d.course, p.data.course) && FieldKept(d.altitude, p.data.altitude)
            && FieldKept(d.satellites, p.data.satellites) && FieldKept(d.hdop, p.data.hdop)
  {
    hide Before;
    BeforeKeepsCommitted(terms, Fresh(p));
  }

  /** A letter of the position that has just been published. */
  function Letter(before: byte, text: seq<byte>): byte {
    if text == [] then before else text[0]
  }

  /** What both ranges of terms of an RMC block stage together, position aside. */
  lemma RmcStages(t: seq<seq<byte>>, s: Staged)
    ensures var d, r, status := s.data, StagedBy(RMC, t, s), Deciding(t, 2);
            && r.hasFix == (if status != [] then status[0] == 0x41 else s.hasFix)
            && r.data == d.(time := Stage(d.time, Deciding(t, 1), ParseDecimal(Deciding(t, 1)) % TWO32),
                            date := Stage(d.date, Deciding(t, 9), Atol(Deciding(t, 9)) % TWO32),
                            speed := Stage(d.speed, Deciding(t, 7), ParseDecimal(Deciding(t, 7))),
                            course := Stage(d.course, Deciding(t, 8), ParseDecimal(Deciding(t, 8))),
                            location := r.data.location)
  {
    hide Position, ParseDecimal, Atol, Text;
  }

  lemma RmcStagesPosition(t: seq<seq<byte>>, s: Staged)
    ensures var l, r := s.data.location, StagedBy(RMC, t, s).data.location;
            r == l.(newLat := PositionFrom(t, 3, 35, l.newLat, 0x53), newLng := PositionFrom(t, 5, 37, l.newLng, 0x57),
                    newMode := Letter(l.newMode, Deciding(t, 12)))
  {
    hide Position, Stage, ParseDecimal, Atol, Text;
  }

  /** An accepted RMC sentence `name,time,status,latitude,N/S,longitude,E/W,speed,course,date` with a fix mode as its 13th
      term publishes time and date and, with the status `A`, position, mode, speed and course. Each comes from its own term
      if that is not empty, and is otherwise the value staged last, by whatever sentence. Without that status position,
      speed and course stay. */
  lemma RmcPublishes(p: Parser, terms: seq<seq<byte>>, h: byte, l: byte)
    requires WellFormed(p) && IsSentence(terms, h, l) && KindFor(p, terms) == RMC && Matches(Join(terms), h, l)
    ensures var r, t, s := Feed(p, Bytes(terms, h, l)).data, Last(terms), Before(terms, Fresh(p)).staged;
            var d, status := s.data, Deciding(t, 2);
            && r.time == Published(d.time, Deciding(t, 1), ParseDecimal(Deciding(t, 1)) % TWO32)
            && r.date == Published(d.date, Deciding(t, 9), Atol(Deciding(t, 9)) % TWO32)
            && FieldKept(r.altitude, p.data.altitude) && FieldKept(r.satellites, p.data.satellites) && FieldKept(r.hdop, p.data.hdop)
            && if (if status != [] then status[0] == 0x41 else s.hasFix) then
                 && r.location.valid && r.location.updated
                 && r.location.lat == PositionFrom(t, 3, 35, d.location.newLat, 0x53)
                 && r.location.lng == PositionFrom(t, 5, 37, d.location.newLng, 0x57)
                 && r.location.quality == d.location.newQuality
                 && r.location.mode == Letter(d.location.newMode, Deciding(t, 12))
                 && r.speed == Published(d.speed, Deciding(t, 7), ParseDecimal(Deciding(t, 7)))
                 && r.course == Published(d.course, Deciding(t, 8), ParseDecimal(Deciding(t, 8)))
               else
                 LocationKept(r, p.data) && FieldKept(r.speed, p.data.speed) && FieldKept(r.course, p.data.course)
  {
    hide Feed, Bytes, Join, KindShown, Cut, CStr, ParseDecimal, ParseDegrees, Atol, Text, Last, Before, FilledAll, Committed,
         StagedBy, PositionFrom, Deciding;
    SentenceStages(p, terms, h, l);
    KeptBefore(p, terms);
    RmcStages(Last(terms), Before(terms, Fresh(p)).staged);
    RmcStagesPosition(Last(terms), Before(terms, Fresh(p)).staged);
  }

  /** An accepted GGA sentence `name,time,latitude,N/S,longitude,E/W,quality,satellites,dilution,altitude` publishes time,
      satellites and dilution and, with a quality above `0`, position, quality and altitude, from the terms or from what
      was staged before in the same way. Its 34th and 45th terms are read as status and mode of an RMC sentence. */
  lemma GgaPublishes(p: Parser, terms: seq<seq<byte>>, h: byte, l: byte)
    requires WellFormed(p) && IsSentence(terms, h, l) && KindFor(p, terms) == GGA && Matches(Join(terms), h, l)
    ensures var r, t, s := Feed(p, Bytes(terms, h, l)).data, Last(terms), Before(terms, Fresh(p)).staged;
            var d, quality, status := s.data, Text(t, 6), Text(t, 34);
            var fix := if status != [] then status[0] == 0x41 else if quality != [] then quality[0] > 0x30 else s.hasFix;
            && r.time == Published(d.time, Deciding(t, 1), ParseDecimal(Deciding(t, 1)) % TWO32)
            && r.satellites == Published(d.satellites, Text(t, 7), Atol(Text(t, 7)) % TWO32)
            && r.hdop == Published(d.hdop, Text(t, 8), ParseDecimal(Text(t, 8)))
            && FieldKept(r.date, p.data.date) && FieldKept(r.speed, p.data.speed) && FieldKept(r.course, p.data.course)
            && if fix then
                 && r.location.valid && r.location.updated
                 && r.location.lat == PositionFrom(t, 2, 35, d.location.newLat, 0x53)
                 && r.location.lng == PositionFrom(t, 4, 37, d.location.newLng, 0x57)
                 && r.location.quality == Letter(d.location.newQuality, quality)
                 && r.location.mode == Letter(d.location.newMode, Text(t, 44))
                 && r.altitude == Published(d.altitude, Text(t, 9), ParseDecimal(Text(t, 9)))
               else
                 LocationKept(r, p.data) && FieldKept(r.altitude, p.data.altitude)
  {
    hide Feed, Bytes, Join, KindShown, Cut, CStr, ParseDecimal, ParseDegrees, Atol, Text, Last, Before, FilledAll, Committed;
    SentenceStages(p, terms, h, l);
    KeptBefore(p, terms);
  }

  /** A value that a sentence with a failing checksum carried is not lost: an accepted sentence that leaves its own term
      empty publishes it. */
  lemma RejectedValueSurfaces(p: Parser, bad: seq<seq<byte>>, h: byte, l: byte, good: seq<seq<byte>>, h': byte, l': byte)
    requires WellFormed(p) && IsSentence(bad, h, l) && KindFor(p, bad) == RMC && !Matches(Join(bad), h, l)
    requires var q := Feed(p, Bytes(bad, h, l));
             IsSentence(good, h', l') && KindFor(q, good) == RMC && Matches(Join(good), h', l')
    requires Deciding(Last(bad), 7) != [] && |good| <= TERM_NUMBERS && Deciding(good, 7) == []
    requires Deciding(good, 2) != [] && Deciding(good, 2)[0] == 0x41
    ensures var v, r := ParseDecimal(Deciding(Last(bad), 7)), Feed(p, Bytes(bad, h, l) + Bytes(good, h', l')).data;
            r.speed == Field(true, true, v, v)
  {
    hide Feed, Bytes, Join, KindShown, Cut, CStr, ParseDecimal, ParseDegrees, Atol, Text, Committed, SomeValid, Last, Before, FilledAll;
    var q := Feed(p, Bytes(bad, h, l));
    SentenceStages(p, bad, h, l);
    FeedConcat(p, Bytes(bad, h, l), Bytes(good, h', l'));
    OneBlock(q, good);
    RmcPublishes(q, good, h', l');
  }

  // ----- Such a stream, in full -----

  /** `GPRMC,,,,,,,5` */
  function WithSpeed(): seq<seq<byte>> {
    [RmcName(), [], [], [], [], [], [], [0x35]]
  }

  /** `GPRMC,,A,,,,,` */
  function WithoutSpeed(): seq<seq<byte>> {
    [RmcName(), [], [0x41], [], [], [], [], []]
  }

  /** `$GPRMC,,,,,,,5*00` has a wrong checksum, and `$GPRMC,,A,,,,,*26` the right one: the second publishes the speed of the
      first. */
  lemma RejectedSpeedIsPublished(p: Parser)
    requires WellFormed(p)
    ensures Join(WithSpeed()) == RmcName() + [COMMA, COMMA, COMMA, COMMA, COMMA, COMMA, COMMA, 0x35]
    ensures Join(WithoutSpeed()) == RmcName() + [COMMA, COMMA, 0x41, COMMA, COMMA, COMMA, COMMA, COMMA]
    ensures var stream := Whole(Join(WithSpeed()), 0x30, 0x30) + Whole(Join(WithoutSpeed()), 0x32, 0x36);
            Feed(p, stream).data.speed == Field(true, true, 500, 500)
  {
    JoinedLiterals();
    Checksums();
    LiteralTerms();
    LiteralKind(p, WithSpeed());
    hide Feed, Join, Xor, Checksum, Text, KindShown, Cut, ParseDecimal, Committed, SomeValid, WithSpeed, WithoutSpeed;
    var q := Feed(p, Bytes(WithSpeed(), 0x30, 0x30));
    LiteralKind(q, WithoutSpeed());
    OneBlock(p, WithSpeed());
    OneBlock(q, WithoutSpeed());
    RejectedValueSurfaces(p, WithSpeed(), 0x30, 0x30, WithoutSpeed(), 0x32, 0x36);
    FiveKnots();
  }

  lemma LiteralKind(p: Parser, terms: seq<seq<byte>>)
    requires WellFormed(p) && 1 <= |terms| <= TERM_NUMBERS && terms[0] == RmcName()
    ensures KindFor(p, terms) == RMC
  {
    OneBlock(p, terms);
    RmcIsText();
    assert RmcName()[2..] == RMC_TERM;
  }

  lemma LiteralTerms()
    ensures |WithSpeed()| == |WithoutSpeed()| == 8 && WithSpeed()[0] == WithoutSpeed()[0] == RmcName()
    ensures IsSentence(WithSpeed(), 0x30, 0x30) && IsSentence(WithoutSpeed(), 0x32, 0x36)
    ensures Deciding(WithSpeed(), 7) == [0x35] && Deciding(WithoutSpeed(), 7) == [] && Deciding(WithoutSpeed(), 2) == [0x41]
  {
    OneCharacter(0x35);
    OneCharacter(0x41);
  }

  lemma OneCharacter(c: byte)
    requires c != 0
    ensures CStr(Cut([c])) == [c] && CStr(Cut([])) == []
  {
    assert [c][1..] == [];
  }

  lemma FiveKnots()
    ensures ParseDecimal([0x35]) == 500
  {
    var term: seq<byte> := [0x35];
    assert term[1..] == [];
    assert LeadingDigits(term[1..]) == [];
    assert LeadingDigits(term) == [5];
    NumOfOne(5);
    hide LeadingDigits, Num;
    assert Atol(term) == 5;
  }

  lemma JoinStep(term: seq<byte>, rest: seq<seq<byte>>)
    requires rest != []
    ensures Join([term] + rest) == term + [COMMA] + Join(rest)
  {
    assert ([term] + rest)[1..] == rest;
  }

  /** The last five of the eight terms. */
  lemma JoinOfFive(last: seq<byte>)
    ensures Join([[], [], [], [], last]) == [COMMA, COMMA, COMMA, COMMA] + last
  {
    var e: seq<byte> := [];
    assert Join([last]) == last;
    hide Join;
    JoinStep(e, [last]);
    JoinStep(e, [e, last]);
    JoinStep(e, [e, e, last]);
    JoinStep(e, [e, e, e, last]);
    assert [e] + [last] == [e, last] && [e] + [e, last] == [e, e, last];
    assert [e] + [e, e, last] == [e, e, e, last] && [e] + [e, e, e, last] == [e, e, e, e, last];
  }

  lemma JoinOfEight(third: seq<byte>, last: seq<byte>)
    ensures Join([RmcName(), [], third, [], [], [], [], last])
            == RmcName() + [COMMA, COMMA] + third + [COMMA, COMMA, COMMA, COMMA, COMMA] + last
  {
    hide Join;
    var e: seq<byte> := [];
    var five := [e, e, e, e, last];
    JoinOfFive(last);
    JoinStep(third, five);
    JoinStep(e, [third] + five);
    JoinStep(RmcName(), [e] + ([third] + five));
    assert [RmcName(), e, third, e, e, e, e, last] == [RmcName()] + ([e] + ([third] + five));
  }

  lemma JoinedLiterals()
    ensures Join(WithSpeed()) == RmcName() + [COMMA, COMMA, COMMA, COMMA, COMMA, COMMA, COMMA, 0x35]
    ensures Join(WithoutSpeed()) == RmcName() + [COMMA, COMMA, 0x41, COMMA, COMMA, COMMA, COMMA, COMMA]
  {
    hide Join;
    JoinOfEight([], [0x35]);
    JoinOfEight([0x41], []);
  }

  lemma Checksums()
    ensures !Matches(RmcName() + [COMMA, COMMA, COMMA, COMMA, COMMA, COMMA, COMMA, 0x35], 0x30, 0x30)
    ensures Matches(RmcName() + [COMMA, COMMA, 0x41, COMMA, COMMA, COMMA, COMMA, COMMA], 0x32, 0x36)
  {
    hide Xor;
    XorOfFour(0x50, 0x52, 0x4D, 0x43);
    XorOfOne(0x47);
    XorOfConcat([0x47], [0x50, 0x52, 0x4D, 0x43]);
    assert RmcName() == [0x47] + [0x50, 0x52, 0x4D, 0x43];
    XorOfEight(RmcName(), COMMA, 0x35);
    XorOfEight(RmcName(), 0x41, COMMA);
    assert FromHex(0x30) == 0 && FromHex(0x32) == 2 && FromHex(0x36) == 6;
  }

  lemma XorOfFour(a: byte, b: byte, c: byte, d: byte)
    ensures Xor([a, b, c, d]) == a ^ b ^ c ^ d
  {
    XorOfOne(a);
    XorStep([a], b);
    XorStep([a, b], c);
    XorStep([a, b, c], d);
    assert [a] + [b] == [a, b] && [a, b] + [c] == [a, b, c] && [a, b, c] + [d] == [a, b, c, d];
  }

  lemma XorStep(s: seq<byte>, b: byte)
    ensures Xor(s + [b]) == Xor(s) ^ b
  {
    assert (s + [b])[..|s|] == s;
  }

  lemma XorOfEight(s: seq<byte>, third: byte, last: byte)
    ensures Xor(s + [COMMA, COMMA, third, COMMA, COMMA, COMMA, COMMA, last]) == Xor(s) ^ third ^ COMMA ^ last ^ COMMA
  {
    hide Xor;
    XorOfFour(COMMA, COMMA, third, COMMA);
    XorOfFour(COMMA, COMMA, COMMA, last);
    var a, b: seq<byte> := [COMMA, COMMA, third, COMMA], [COMMA, COMMA, COMMA, last];
    assert s + [COMMA, COMMA, third, COMMA, COMMA, COMMA, COMMA, last] == s + a + b;
    XorOfConcat(s + a, b);
    XorOfConcat(s, a);
  }
}
