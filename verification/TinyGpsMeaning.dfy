/**
 * What the byte-at-a-time parser makes of the terms of a sentence. The reference reads
 * the terms one by one; the parser reads bytes into a buffer that is never cleared.
 */
module TinyGpsMeaning {
  import opened NmeaBytes
  import opened TinyGpsSpec
  import opened TinyGpsTheorems

  /** The terms, separated by commas. */
  function Join(terms: seq<seq<byte>>): seq<byte>
    requires terms != []
  {
    if |terms| == 1 then terms[0] else terms[0] + [COMMA] + Join(terms[1..])
  }

  /** The part of a term that the buffer keeps. */
  function Cut(term: seq<byte>): seq<byte> {
    if |term| < TERM_SIZE then term else term[..TERM_SIZE - 1]
  }

  /** One of the letters `PNABL`. */
  predicate IsTalkerLetter(c: byte) {
    c in [0x50, 0x4E, 0x41, 0x42, 0x4C]
  }

  /** The sentence type that a name stands for: a `G`, a talker letter and the name of a known type. */
  function KindMeant(name: seq<byte>): Kind {
    if |name| >= 2 && name[0] == 0x47 && IsTalkerLetter(name[1]) then KindBehind(name[2..]) else OTHER
  }

  /** The sentence type by name, as the parser tests it: a terminator is taken for a talker. */
  function KindNamed(name: seq<byte>): Kind {
    if |name| < 2 || name[0] != 0x47 || !IsTalker(name[1]) then OTHER
    else KindBehind(name[2..])
  }

  /** The sentence type of a text behind the talker. */
  function KindBehind(s: seq<byte>): Kind {
    if CStr(s) == RMC_TERM then RMC else if CStr(s) == GGA_TERM then GGA else OTHER
  }

  /** The sentence type that a name shows: a lone `G` is read together with what the buffer held behind it. */
  function KindShown(name: seq<byte>, buffer: seq<byte>): Kind
    requires |buffer| == TERM_SIZE
  {
    if name == [0x47] then KindBehind(buffer[2..]) else KindNamed(name)
  }

  /** The buffer with a term and its terminator written over its front. */
  function Filled(buffer: seq<byte>, term: seq<byte>): (r: seq<byte>)
    requires |buffer| == TERM_SIZE
    ensures |r| == TERM_SIZE
  {
    Cut(term) + [0] + buffer[|Cut(term)| + 1..]
  }

  /** What the terms of a sentence have determined so far. */
  datatype Meaning = Meaning(kind: Kind, staged: Staged, buffer: seq<byte>)

  /** What the text of a term with a number other than zero stages. */
  function StageOne(kind: Kind, number: nat, text: seq<byte>, s: Staged): Staged {
    if kind == OTHER || text == [] then s else StageCode(Combine(kind, number), text, s)
  }

  /** What one term adds: the first one the sentence type, a later one that is not empty a staged value. */
  function AddTerm(number: nat, term: seq<byte>, m: Meaning): (r: Meaning)
    requires |m.buffer| == TERM_SIZE
    ensures |r.buffer| == TERM_SIZE
  {
    var filled := Filled(m.buffer, term);
    if number == 0 then Meaning(KindShown(Cut(term), m.buffer), m.staged, filled)
    else Meaning(m.kind, StageOne(m.kind, number, CStr(Cut(term)), m.staged), filled)
  }

  /** What all the terms add, the first of which has the given number. */
  function AddTerms(number: nat, terms: seq<seq<byte>>, m: Meaning): (r: Meaning)
    requires |m.buffer| == TERM_SIZE
    ensures |r.buffer| == TERM_SIZE
    decreases |terms|
  {
    if terms == [] then m else AddTerms((number + 1) % TERM_NUMBERS, terms[1..], AddTerm(number, terms[0], m))
  }

  /** The data after a sentence with these terms, for a parser that starts with this buffer. */
  function DataAfter(terms: seq<seq<byte>>, accepted: bool, d: Data, buffer: seq<byte>): Data
    requires |buffer| == TERM_SIZE
  {
    var m := AddTerms(0, terms, Meaning(OTHER, Staged(false, d), buffer));
    if accepted then CommitData(m.kind, m.staged.hasFix, m.staged.data) else m.staged.data
  }

  predicate IsTerm(t: seq<byte>) {
    forall i :: 0 <= i < |t| ==> Ordinary(t[i])
  }

  // ----- The buffer -----

  /** The buffer after the characters of a term, still without terminator. */
  function Written(buffer: seq<byte>, t: seq<byte>): seq<byte>
    requires |buffer| == TERM_SIZE
  {
    Cut(t) + buffer[|Cut(t)|..]
  }

  /** The characters of a term fill the buffer up to its last place. */
  lemma {:induction false} FeedTerm(p: Parser, buffer: seq<byte>, done: seq<byte>, t: seq<byte>)
    requires WellFormed(p) && !p.isChecksumTerm && IsTerm(t) && |buffer| == TERM_SIZE
    requires p.termOffset == |Cut(done)| && p.term == Written(buffer, done)
    ensures var r := Feed(p, t);
            && r == p.(parity := r.parity, term := r.term, termOffset := r.termOffset)
            && r.termOffset == |Cut(done + t)| && r.term == Written(buffer, done + t)
    decreases t
  {
    if t == [] {
      assert done + t == done;
    } else {
      var q := Encode(p, t[0]).parser;
      FeedCharacter(p, buffer, done, t[0]);
      assert done + t == done + [t[0]] + t[1..];
      hide Encode, Cut, Written;
      FeedTerm(q, buffer, done + [t[0]], t[1..]);
    }
  }

  lemma FeedCharacter(p: Parser, buffer: seq<byte>, done: seq<byte>, c: byte)
    requires WellFormed(p) && !p.isChecksumTerm && Ordinary(c) && |buffer| == TERM_SIZE
    requires p.termOffset == |Cut(done)| && p.term == Written(buffer, done)
    ensures var r := Encode(p, c).parser;
            && r == p.(parity := r.parity, term := r.term, termOffset := r.termOffset)
            && r.termOffset == |Cut(done + [c])| && r.term == Written(buffer, done + [c])
  {
    WriteOne(buffer, done, c);
    hide Cut, Written;
  }

  lemma WriteOne(buffer: seq<byte>, done: seq<byte>, c: byte)
    requires |buffer| == TERM_SIZE
    ensures var k := |Cut(done)|;
            if k < TERM_SIZE - 1 then
              |Cut(done + [c])| == k + 1 && Written(buffer, done + [c]) == Written(buffer, done)[k := c]
            else
              Cut(done + [c]) == Cut(done)
    ensures |Written(buffer, done)| == TERM_SIZE
  {
    if |done| < TERM_SIZE - 1 {
      assert done + [c] == (done + [c])[..|done| + 1];
    } else {
      assert (done + [c])[..TERM_SIZE - 1] == done[..TERM_SIZE - 1];
    }
  }

  lemma CloseWritten(buffer: seq<byte>, t: seq<byte>)
    requires |buffer| == TERM_SIZE
    ensures |Cut(t)| < TERM_SIZE && Written(buffer, t)[|Cut(t)| := 0] == Filled(buffer, t)
    ensures Written(buffer, []) == buffer && Cut([]) == []
  {
  }

  /** A C string ends at its terminator, whatever follows. */
  lemma {:induction false} CStrStops(t: seq<byte>, rest: seq<byte>)
    ensures CStr(t + [0] + rest) == CStr(t)
  {
    if t == [] {
      assert (t + [0] + rest)[0] == 0;
    } else {
      assert (t + [0] + rest)[0] == t[0] && (t + [0] + rest)[1..] == t[1..] + [0] + rest;
      CStrStops(t[1..], rest);
    }
  }

  /** What the parser reads in a filled buffer. */
  lemma FilledReads(buffer: seq<byte>, t: seq<byte>)
    requires |buffer| == TERM_SIZE
    ensures var b := Filled(buffer, t);
            CStr(b) == CStr(Cut(t)) && (b[0] == 0 <==> CStr(Cut(t)) == []) && KindOf(b) == KindShown(Cut(t), buffer)
  {
    hide RMC_TERM;
    var name := Cut(t);
    var rest := buffer[|name| + 1..];
    var b := Filled(buffer, t);
    CStrStops(name, rest);
    if |name| >= 2 {
      assert b[2..] == name[2..] + [0] + rest;
      CStrStops(name[2..], rest);
    } else if |name| == 1 {
      assert b[2..] == buffer[2..] && name == [name[0]];
    }
  }

  /** The parser takes a name for another type than it stands for in exactly two cases: a lone `G` in front of the rest
      of a known name in the buffer, and a `G` with a terminator in front of the rest of a known name of its own. */
  lemma NameDecides(buffer: seq<byte>, t: seq<byte>)
    requires |buffer| == TERM_SIZE
    ensures KindOf(Filled(buffer, t)) != KindMeant(Cut(t))
            <==> || (t == [0x47] && KindBehind(buffer[2..]) != OTHER)
                 || (|t| >= 2 && t[0] == 0x47 && t[1] == 0 && KindBehind(Cut(t)[2..]) != OTHER)
  {
    hide KindBehind, Filled, KindOf;
    FilledReads(buffer, t);
  }

  // ----- Whole terms -----

  function MeaningOf(p: Parser): Meaning {
    Meaning(p.kind, Staged(p.hasFix, p.data), p.term)
  }

  /** A whole term and its separator or the checksum mark. */
  lemma TermStep(p: Parser, t: seq<byte>, c: byte)
    requires WellFormed(p) && !p.isChecksumTerm && p.termOffset == 0 && IsTerm(t)
    requires c == COMMA || c == STAR
    ensures var r := Encode(Feed(p, t), c).parser;
            && MeaningOf(r) == AddTerm(p.termNumber, t, MeaningOf(p))
            && r.termNumber == (p.termNumber + 1) % TERM_NUMBERS && r.termOffset == 0 && (r.isChecksumTerm <==> c == STAR)
  {
    hide Encode, Cut, AddTerm, IsTerm, Written, Filled;
    CloseWritten(p.term, t);
    assert [] + t == t;
    FeedTerm(p, p.term, [], t);
    SeparatorStep(Feed(p, t), p.term, t, c);
  }

  lemma SeparatorStep(p: Parser, buffer: seq<byte>, t: seq<byte>, c: byte)
    requires WellFormed(p) && !p.isChecksumTerm && |buffer| == TERM_SIZE
    requires p.termOffset == |Cut(t)| && p.term == Written(buffer, t)
    requires c == COMMA || c == STAR
    ensures var r := Encode(p, c).parser;
            && MeaningOf(r) == AddTerm(p.termNumber, t, MeaningOf(p.(term := buffer)))
            && r.termNumber == (p.termNumber + 1) % TERM_NUMBERS && r.termOffset == 0 && (r.isChecksumTerm <==> c == STAR)
  {
    hide EndOfTerm, AddTerm, Cut, Written, Filled, Committed;
    CloseWritten(buffer, t);
    var q := p.(parity := if c == COMMA then p.parity ^ c else p.parity, term := Filled(buffer, t));
    EndOfTermMeaning(q, buffer, t);
  }

  lemma EndOfTermMeaning(p: Parser, buffer: seq<byte>, t: seq<byte>)
    requires WellFormed(p) && !p.isChecksumTerm && |buffer| == TERM_SIZE && p.term == Filled(buffer, t)
    ensures MeaningOf(EndOfTerm(p).parser) == AddTerm(p.termNumber, t, MeaningOf(p.(term := buffer)))
  {
    hide KindOf, KindShown, StageCode, Cut, Filled, CommitData, Committed;
    FilledReads(buffer, t);
  }

  /** All the terms of a sentence, up to its checksum mark. */
  lemma {:induction false} FeedTerms(p: Parser, terms: seq<seq<byte>>)
    requires WellFormed(p) && !p.isChecksumTerm && p.termOffset == 0
    requires terms != [] && forall i :: 0 <= i < |terms| ==> IsTerm(terms[i])
    ensures MeaningOf(Feed(p, Join(terms) + [STAR])) == AddTerms(p.termNumber, terms, MeaningOf(p))
    decreases |terms|
  {
    hide Encode, AddTerm, MeaningOf, IsTerm, Feed, SomeValid, Committed;
    MeaningIsShaped(p);
    var c := if |terms| == 1 then STAR else COMMA;
    TermStep(p, terms[0], c);
    var q := Feed(p, terms[0]);
    FeedConcat(p, terms[0], [c]);
    FeedOne(q, c);
    if |terms| > 1 {
      var r := Encode(q, c).parser;
      FeedTerms(r, terms[1..]);
      assert Join(terms) + [STAR] == terms[0] + [COMMA] + (Join(terms[1..]) + [STAR]);
      FeedConcat(p, terms[0] + [COMMA], Join(terms[1..]) + [STAR]);
    }
  }

  lemma MeaningIsShaped(p: Parser)
    requires WellFormed(p)
    ensures |MeaningOf(p).buffer| == TERM_SIZE
  {
  }

  /** The data after a whole sentence is determined by its terms, and by its checksum whether they are published. */
  lemma SentenceMeaning(p: Parser, terms: seq<seq<byte>>, h: byte, l: byte)
    requires WellFormed(p) && Ordinary(h) && Ordinary(l)
    requires terms != [] && forall i :: 0 <= i < |terms| ==> IsTerm(terms[i])
    ensures Feed(p, Whole(Join(terms), h, l)).data == DataAfter(terms, Matches(Join(terms), h, l), p.data, p.term)
  {
    hide Encode, Feed, SomeValid, Checksum, Xor, IsTerm, Committed, Join, AddTerms, CommitData;
    var body := Join(terms);
    var start := Encode(p, DOLLAR).parser;
    var front := [DOLLAR] + body + [STAR];
    JoinedIsBody(terms);
    FeedToStar(p, body);
    StartStep(p);
    FeedTerms(start, terms);
    FeedOne(p, DOLLAR);
    assert front == [DOLLAR] + (body + [STAR]);
    FeedConcat(p, [DOLLAR], body + [STAR]);
    FeedChecksum(Feed(p, front), h, l);
    FeedConcat(p, front, [h, l]);
    FeedConcat(p, Unended(body, h, l), [CR, LF]);
  }

  lemma StartStep(p: Parser)
    requires WellFormed(p)
    ensures var r := Encode(p, DOLLAR).parser;
            && !r.isChecksumTerm && r.termOffset == 0 && r.termNumber == 0
            && MeaningOf(r) == Meaning(OTHER, Staged(false, p.data), p.term)
  {
    hide EndOfTerm, Committed;
  }

  lemma {:induction false} JoinedIsBody(terms: seq<seq<byte>>)
    requires terms != [] && forall i :: 0 <= i < |terms| ==> IsTerm(terms[i])
    ensures IsBody(Join(terms))
  {
    if |terms| > 1 {
      JoinedIsBody(terms[1..]);
    }
  }

  // ----- Two oddities of the sentence name -----

  /** `GPRMC` */
  function RmcName(): seq<byte> {
    [0x47, 0x50, 0x52, 0x4D, 0x43]
  }

  /** The start mark and a first term. */
  lemma StartedSentence(p: Parser, name: seq<byte>)
    requires WellFormed(p) && IsTerm(name)
    ensures var r := Feed(p, [DOLLAR] + name + [COMMA]);
            r.kind == KindShown(Cut(name), p.term) && r.term == Filled(p.term, name)
  {
    hide Encode, Feed, SomeValid, Committed, KindShown, Cut, Filled, IsTerm;
    var start := Encode(p, DOLLAR).parser;
    StartStep(p);
    FeedOne(p, DOLLAR);
    FeedConcat(p, [DOLLAR], name);
    TermStep(start, name, COMMA);
    FeedOne(Feed(start, name), COMMA);
    FeedConcat(p, [DOLLAR] + name, [COMMA]);
  }

  /** Behind `$GPRMC,` the name `G` is taken for that of the same sentence type. */
  lemma LoneGIsMistaken(p: Parser)
    requires WellFormed(p)
    ensures Feed(p, [DOLLAR] + RmcName() + [COMMA] + [DOLLAR, 0x47, COMMA]).kind == RMC && KindMeant([0x47]) == OTHER
  {
    hide Feed, SomeValid, Committed;
    var first := [DOLLAR] + RmcName() + [COMMA];
    StartedSentence(p, RmcName());
    StartedSentence(Feed(p, first), [0x47]);
    assert [DOLLAR] + [0x47] + [COMMA] == [DOLLAR, 0x47, COMMA];
    FeedConcat(p, first, [DOLLAR, 0x47, COMMA]);
    RmcRemains(p.term);
  }

  lemma RmcRemains(buffer: seq<byte>)
    requires |buffer| == TERM_SIZE
    ensures KindShown([0x47], Filled(buffer, RmcName())) == RMC
  {
    var b := Filled(buffer, RmcName());
    assert b[2..] == RMC_TERM + [0] + buffer[6..];
    CStrStops(RMC_TERM, buffer[6..]);
    assert CStr(RMC_TERM) == RMC_TERM by {
      RmcIsText();
    }
  }

  lemma RmcIsText()
    ensures CStr(RMC_TERM) == RMC_TERM
  {
    assert RMC_TERM[1..] == [0x4D, 0x43] && RMC_TERM[1..][1..] == [0x43] && RMC_TERM[1..][1..][1..] == [];
  }

  /** A terminator in the place of the talker is taken for one: the text of this name is `G` alone. */
  lemma TerminatorIsTalker(p: Parser)
    requires WellFormed(p)
    ensures var name: seq<byte> := [0x47, 0] + RMC_TERM;
            Feed(p, [DOLLAR] + name + [COMMA]).kind == RMC && KindMeant(name) == OTHER && CStr(name) == [0x47]
  {
    hide Feed, SomeValid, Committed;
    var name: seq<byte> := [0x47, 0] + RMC_TERM;
    StartedSentence(p, name);
    assert name[2..] == RMC_TERM && name[1..][0] == 0;
    RmcIsText();
  }
}
