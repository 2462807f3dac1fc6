/**
 * When the byte-at-a-time parser accepts a sentence, and how that compares with the
 * whole-string validator.
 */
module TinyGpsTheorems {
  import opened NmeaBytes
  import opened TinyGpsSpec
  import NmeaSentence

  predicate IsBody(s: seq<byte>) {
    DOLLAR !in s && STAR !in s && CR !in s && LF !in s
  }

  /** A character of a term. */
  predicate Ordinary(c: byte) {
    c != COMMA && c != DOLLAR && c != STAR && c != CR && c != LF
  }

  /** `$body*hl` and the line end */
  function Whole(body: seq<byte>, h: byte, l: byte): seq<byte> {
    Unended(body, h, l) + [CR, LF]
  }

  /** The sentence up to its line end. */
  function Unended(body: seq<byte>, h: byte, l: byte): seq<byte> {
    [DOLLAR] + body + [STAR] + [h, l]
  }

  /** What the two characters of a checksum stand for. */
  predicate Matches(body: seq<byte>, h: byte, l: byte) {
    Checksum(h, l) == Xor(body)
  }

  // ----- Nothing changes without a valid sentence -----

  /** Bytes that complete no valid sentence leave every published value alone. */
  lemma {:induction false} NothingPublished(p: Parser, s: seq<byte>)
    requires WellFormed(p) && !SomeValid(p, s)
    ensures Committed(Feed(p, s).data) == Committed(p.data)
    decreases s
  {
    hide Encode, Committed;
    if s != [] {
      NothingPublished(Encode(p, s[0]).parser, s[1..]);
    }
  }

  // ----- When a sentence is accepted -----

  /** Inside the body the parity accumulates and no step is valid. */
  lemma {:induction false} FeedBody(p: Parser, body: seq<byte>)
    requires WellFormed(p) && !p.isChecksumTerm && IsBody(body)
    ensures !SomeValid(p, body)
    ensures var r := Feed(p, body); !r.isChecksumTerm && r.parity == p.parity ^ Xor(body)
    decreases body
  {
    if body == [] {
    } else {
      hide Encode;
      var c, rest := body[0], body[1..];
      BodyStep(p, c);
      FeedBody(Encode(p, c).parser, rest);
      assert body == [c] + rest;
      XorOfConcat([c], rest);
      XorOfOne(c);
      XorAssociative(p.parity, c, Xor(rest));
    }
  }

  lemma BodyStep(p: Parser, c: byte)
    requires WellFormed(p) && !p.isChecksumTerm && c != DOLLAR && c != STAR && c != CR && c != LF
    ensures var r := Encode(p, c);
            !r.valid && !r.parser.isChecksumTerm && r.parser.parity == p.parity ^ c
  {
    hide EndOfTerm, Committed;
  }

  lemma XorOfOne(c: byte)
    ensures Xor([c]) == c
  {
    assert Xor([c]) == Xor([]) ^ c == 0 ^ c;
    XorAssociative(c, 0, 0);
  }

  /** The parser right after the checksum mark. */
  lemma FeedToStar(p: Parser, body: seq<byte>)
    requires WellFormed(p) && IsBody(body)
    ensures !SomeValid(p, [DOLLAR] + body + [STAR])
    ensures var r := Feed(p, [DOLLAR] + body + [STAR]);
            r.isChecksumTerm && r.termOffset == 0 && r.parity == Xor(body)
  {
    hide EndOfTerm;
    var start := Encode(p, DOLLAR).parser;
    FeedOne(p, DOLLAR);
    FeedConcat(p, [DOLLAR], body);
    FeedBody(start, body);
    XorAssociative(Xor(body), 0, 0);
    var inside := Feed(start, body);
    FeedOne(inside, STAR);
    FeedConcat(p, [DOLLAR] + body, [STAR]);
  }

  lemma FeedOne(p: Parser, c: byte)
    requires WellFormed(p)
    ensures Feed(p, [c]) == Encode(p, c).parser
    ensures SomeValid(p, [c]) <==> Encode(p, c).valid
  {
    hide Encode;
    assert [c][1..] == [];
  }

  /** The step that ends the checksum decides, and the next one never does. */
  lemma FeedChecksum(p: Parser, h: byte, l: byte)
    requires WellFormed(p) && p.isChecksumTerm && p.termOffset == 0 && Ordinary(h) && Ordinary(l)
    ensures !SomeValid(p, [h, l])
    ensures var q := Feed(p, [h, l]);
            && (Encode(q, CR).valid <==> Checksum(h, l) == p.parity)
            && (SomeValid(q, [CR, LF]) <==> Encode(q, CR).valid)
            && Feed(q, [CR, LF]).data
               == if Encode(q, CR).valid then CommitData(p.kind, p.hasFix, p.data) else p.data
  {
    hide Encode, Feed, SomeValid, Checksum;
    var one := Encode(p, h).parser;
    var two := Encode(one, l).parser;
    FeedOne(p, h);
    FeedOne(one, l);
    FeedConcat(p, [h], [l]);
    assert [h] + [l] == [h, l];
    ChecksumSteps(p, h, l);
    FeedOne(two, CR);
    FeedOne(Encode(two, CR).parser, LF);
    FeedConcat(two, [CR], [LF]);
    assert [CR] + [LF] == [CR, LF];
  }

  /** The characters of a checksum are stored without touching the parity. */
  lemma ChecksumCharacter(p: Parser, c: byte)
    requires WellFormed(p) && p.isChecksumTerm && p.termOffset < TERM_SIZE - 1 && Ordinary(c)
    ensures Encode(p, c) == StepResult(p.(term := p.term[p.termOffset := c], termOffset := p.termOffset + 1), false, Nothing)
  {
  }

  /** The line end compares the checksum and, if it matches, commits. */
  lemma ChecksumEnd(p: Parser)
    requires WellFormed(p) && p.isChecksumTerm && p.termOffset == 2
    ensures var r := Encode(p, CR);
            && (r.valid <==> Checksum(p.term[0], p.term[1]) == p.parity)
            && !r.parser.isChecksumTerm && r.parser.termOffset == 0
            && r.parser.data == if r.valid then CommitData(p.kind, p.hasFix, p.data) else p.data
  {
    hide Checksum, StageCode, CommitData, Committed;
  }

  /** An empty term changes nothing. */
  lemma EmptyTerm(p: Parser)
    requires WellFormed(p) && !p.isChecksumTerm && p.termOffset == 0
    ensures !Encode(p, LF).valid && Encode(p, LF).parser.data == p.data
  {
    hide StageCode, CommitData, Committed;
  }

  lemma ChecksumSteps(p: Parser, h: byte, l: byte)
    requires WellFormed(p) && p.isChecksumTerm && p.termOffset == 0 && Ordinary(h) && Ordinary(l)
    ensures var one := Encode(p, h).parser;
            var two := Encode(one, l).parser;
            var ended := Encode(two, CR);
            && !Encode(p, h).valid && !Encode(one, l).valid
            && (ended.valid <==> Checksum(h, l) == p.parity)
            && ended.parser.data == (if ended.valid then CommitData(p.kind, p.hasFix, p.data) else p.data)
            && !Encode(ended.parser, LF).valid && Encode(ended.parser, LF).parser.data == ended.parser.data
  {
    hide Encode, Checksum, CommitData, Committed;
    var one := Encode(p, h).parser;
    var two := Encode(one, l).parser;
    ChecksumCharacter(p, h);
    ChecksumCharacter(one, l);
    ChecksumEnd(two);
    EmptyTerm(Encode(two, CR).parser);
  }

  /** The state of the parser when the line end of a sentence comes. */
  lemma FeedUnended(p: Parser, body: seq<byte>, h: byte, l: byte)
    requires WellFormed(p) && IsBody(body) && Ordinary(h) && Ordinary(l)
    ensures !SomeValid(p, Unended(body, h, l))
    ensures var q := Feed(p, Unended(body, h, l));
            && (Encode(q, CR).valid <==> Matches(body, h, l))
            && (SomeValid(q, [CR, LF]) <==> Matches(body, h, l))
  {
    hide Encode, Feed, SomeValid, Checksum, Xor, Committed, IsBody, CommitData, Ordinary;
    var front := [DOLLAR] + body + [STAR];
    FeedToStar(p, body);
    var star := Feed(p, front);
    FeedChecksum(star, h, l);
    FeedConcat(p, front, [h, l]);
  }

  /** A sentence is accepted on its line end exactly when its checksum is that of its body, from any state of the
      parser and however long the body. */
  lemma AcceptedWhenMatching(p: Parser, body: seq<byte>, h: byte, l: byte)
    requires WellFormed(p) && IsBody(body) && Ordinary(h) && Ordinary(l)
    ensures SomeValid(p, Whole(body, h, l)) <==> Matches(body, h, l)
    ensures !SomeValid(p, Unended(body, h, l))
    ensures Encode(Feed(p, Unended(body, h, l)), CR).valid <==> Matches(body, h, l)
  {
    hide Encode, Feed, SomeValid, Matches, Committed, IsBody, Unended;
    FeedUnended(p, body, h, l);
    FeedConcat(p, Unended(body, h, l), [CR, LF]);
  }

  // ----- The two parsers agree -----

  lemma HexValue(x: byte, h: byte, l: byte)
    ensures Hex(x) == [h, l] <==> Checksum(h, l) == x && IsUpperHex(h) && IsUpperHex(l)
  {
    assert Hex(x) == [h, l] <==> Hex(x)[0] == h && Hex(x)[1] == l;
  }

  lemma WholeParts(body: seq<byte>, h: byte, l: byte)
    ensures var s, star := Whole(body, h, l), 1 + |body|;
            s[0] == DOLLAR && s[1..star] == body && s[star + 1..star + 3] == [h, l] && |s| == star + 5
  {
  }

  /** The streaming parser accepts what the validator accepts, and the validator accepts what the streaming parser does
      exactly when the checksum is written in upper case. */
  lemma AcceptorAgreesWithValidator(p: Parser, body: seq<byte>, h: byte, l: byte)
    requires WellFormed(p) && IsBody(body) && Ordinary(h) && Ordinary(l)
    ensures var s := Whole(body, h, l);
            NmeaSentence.Validate(s)
            == if |body| >= NmeaSentence.LAST_INDEX then NmeaSentence.Hangs
               else if SomeValid(p, s) && IsUpperHex(h) && IsUpperHex(l) then NmeaSentence.Accepts
               else NmeaSentence.Rejects
  {
    hide SomeValid, Checksum, Hex, Feed, Encode, Xor;
    var s, star := Whole(body, h, l), 1 + |body|;
    AcceptedWhenMatching(p, body, h, l);
    assert s == ([DOLLAR] + body) + [STAR] + ([h, l] + [CR, LF]);
    NmeaSentence.FindLastOfConcat([DOLLAR] + body, STAR, [h, l] + [CR, LF]);
    WholeParts(body, h, l);
    HexValue(Xor(body), h, l);
  }

  /** Lower-case digits are where they differ. */
  lemma LowerCaseDiverges(p: Parser)
    requires WellFormed(p)
    ensures var s := Whole([0x4A], 0x34, 0x61);
            SomeValid(p, s) && NmeaSentence.Validate(s) == NmeaSentence.Rejects
  {
    hide SomeValid, NmeaSentence.Validate;
    XorOfOne(0x4A);
    AcceptorAgreesWithValidator(p, [0x4A], 0x34, 0x61);
    AcceptedWhenMatching(p, [0x4A], 0x34, 0x61);
  }
}
