/**
 * The byte-at-a-time GPS parser: terms collected in a fixed buffer, a running
 * parity, values staged term by term and committed when the checksum matches.
 * The time of a commit is left out.
 */
module TinyGpsSpec {
  import opened Prelude
  import opened NmeaBytes
  import opened TinyGpsNumbers

  const TERM_SIZE: nat := 15

  /** The term number is a byte: it starts again at 256. */
  const TERM_NUMBERS: nat := 256

  // ----- Staged and committed values -----

  datatype Field = Field(valid: bool, updated: bool, val: int, newVal: int)

  datatype Location = Location(
    valid: bool, updated: bool,
    lat: RawDegrees, lng: RawDegrees, quality: byte, mode: byte,
    newLat: RawDegrees, newLng: RawDegrees, newQuality: byte, newMode: byte)

  datatype Data = Data(
    location: Location, date: Field, time: Field, speed: Field, course: Field,
    altitude: Field, satellites: Field, hdop: Field)

  function CommitField(f: Field): Field {
    f.(val := f.newVal, valid := true, updated := true)
  }

  function CommitLocation(l: Location): Location {
    l.(lat := l.newLat, lng := l.newLng, quality := l.newQuality, mode := l.newMode, valid := true, updated := true)
  }

  function HideField(f: Field): Field {
    f.(newVal := 0)
  }

  /** What a user of the parser can read: everything but the staged values. */
  function Committed(d: Data): Data {
    Data(d.location.(newLat := d.location.lat, newLng := d.location.lng, newQuality := 0, newMode := 0),
         HideField(d.date), HideField(d.time), HideField(d.speed), HideField(d.course), HideField(d.altitude),
         HideField(d.satellites), HideField(d.hdop))
  }

  // ----- The parser -----

  datatype Kind = GGA | RMC | OTHER

  datatype Parser = Parser(
    parity: byte, isChecksumTerm: bool, term: seq<byte>, termOffset: nat, termNumber: nat,
    kind: Kind, hasFix: bool, data: Data)

  /** What a step asks of the custom elements. */
  datatype Action = Nothing | Search(name: seq<byte>) | SetTerm(number: nat, term: seq<byte>) | CommitAll

  datatype StepResult = StepResult(parser: Parser, valid: bool, action: Action)

  predicate WellFormed(p: Parser) {
    |p.term| == TERM_SIZE && p.termOffset < TERM_SIZE && p.termNumber < TERM_NUMBERS
  }

  /** The C string in a buffer. */
  function CStr(s: seq<byte>): (r: seq<byte>)
    ensures 0 !in r && |r| <= |s|
  {
    if s == [] || s[0] == 0 then [] else [s[0]] + CStr(s[1..])
  }

  /** `fromHex`, in the arithmetic of the byte that its result goes into */
  function FromHex(c: byte): byte {
    if 0x41 <= c <= 0x46 then c - 0x41 + 10
    else if 0x61 <= c <= 0x66 then c - 0x61 + 10
    else c - 0x30
  }

  /** The byte that two hexadecimal digits stand for. */
  function Checksum(high: byte, low: byte): byte {
    16 * FromHex(high) + FromHex(low)
  }

  /** One of `PNABL`, or the terminator that `strchr` finds as well. */
  predicate IsTalker(c: byte) {
    c in [0x50, 0x4E, 0x41, 0x42, 0x4C, 0]
  }

  const RMC_TERM: seq<byte> := [0x52, 0x4D, 0x43]
  const GGA_TERM: seq<byte> := [0x47, 0x47, 0x41]

  /** The sentence type that the first term determines; everything is read from the buffer, behind its terminator too. */
  function KindOf(term: seq<byte>): Kind
    requires |term| == TERM_SIZE
  {
    if term[0] == 0x47 && IsTalker(term[1]) && CStr(term[2..]) == RMC_TERM then RMC
    else if term[0] == 0x47 && IsTalker(term[1]) && CStr(term[2..]) == GGA_TERM then GGA
    else OTHER
  }

  /** `COMBINE`: the number with its sixth bit set for one sentence type. Numbers of 32 and more have that bit already. */
  function Combine(kind: Kind, number: nat): nat {
    if kind == RMC && number / 32 % 2 == 0 then number + 32 else number
  }

  /** What a sentence has brought so far. */
  datatype Staged = Staged(hasFix: bool, data: Data)

  /** The part of the position staged by one non-empty term, under a combined code. */
  function StageLocation(code: nat, term: seq<byte>, l: Location): (r: Location)
    requires term != []
    ensures r == l.(newLat := r.newLat, newLng := r.newLng, newQuality := r.newQuality, newMode := r.newMode)
  {
    if code == 0x23 || code == 2 then l.(newLat := ParseDegrees(term))
    else if code == 0x24 || code == 3 then l.(newLat := l.newLat.(negative := term[0] == 0x53))
    else if code == 0x25 || code == 4 then l.(newLng := ParseDegrees(term))
    else if code == 0x26 || code == 5 then l.(newLng := l.newLng.(negative := term[0] == 0x57))
    else if code == 6 then l.(newQuality := term[0])
    else if code == 0x2C then l.(newMode := term[0])
    else l
  }

  /** The values staged by one non-empty term, under a combined code. */
  function StageCode(code: nat, term: seq<byte>, s: Staged): (r: Staged)
    requires term != []
    ensures Committed(r.data) == Committed(s.data)
  {
    hide ParseDecimal, StageLocation, Atol;
    var d := s.data;
    if code == 0x21 || code == 1 then s.(data := d.(time := d.time.(newVal := ParseDecimal(term) % TWO32)))
    else if code == 0x22 then s.(hasFix := term[0] == 0x41)
    else if code == 0x27 then s.(data := d.(speed := d.speed.(newVal := ParseDecimal(term))))
    else if code == 0x28 then s.(data := d.(course := d.course.(newVal := ParseDecimal(term))))
    else if code == 0x29 then s.(data := d.(date := d.date.(newVal := Atol(term) % TWO32)))
    else if code == 7 then s.(data := d.(satellites := d.satellites.(newVal := Atol(term) % TWO32)))
    else if code == 8 then s.(data := d.(hdop := d.hdop.(newVal := ParseDecimal(term))))
    else if code == 9 then s.(data := d.(altitude := d.altitude.(newVal := ParseDecimal(term))))
    else Staged(if code == 6 then term[0] > 0x30 else s.hasFix, d.(location := StageLocation(code, term, d.location)))
  }

  /** What a sentence with a matching checksum publishes. */
  function CommitData(kind: Kind, hasFix: bool, d: Data): Data {
    match kind
    case RMC =>
      var timed := d.(date := CommitField(d.date), time := CommitField(d.time));
      if hasFix then
        timed.(location := CommitLocation(d.location), speed := CommitField(d.speed), course := CommitField(d.course))
      else timed
    case GGA =>
      var timed := d.(time := CommitField(d.time), satellites := CommitField(d.satellites), hdop := CommitField(d.hdop));
      if hasFix then timed.(location := CommitLocation(d.location), altitude := CommitField(d.altitude)) else timed
    case OTHER => d
  }

  /** `endOfTermHandler` */
  function EndOfTerm(p: Parser): (r: StepResult)
    requires WellFormed(p)
    ensures r.parser == p.(kind := r.parser.kind, hasFix := r.parser.hasFix, data := r.parser.data)
    ensures !r.valid ==> Committed(r.parser.data) == Committed(p.data)
    ensures r.valid ==> p.isChecksumTerm
  {
    if p.isChecksumTerm then
      if Checksum(p.term[0], p.term[1]) == p.parity then
        StepResult(p.(data := CommitData(p.kind, p.hasFix, p.data)), true, CommitAll)
      else
        StepResult(p, false, Nothing)
    else if p.termNumber == 0 then
      StepResult(p.(kind := KindOf(p.term)), false, Search(CStr(p.term)))
    else
      var before := Staged(p.hasFix, p.data);
      var staged :=
        if p.kind != OTHER && p.term[0] != 0 then StageCode(Combine(p.kind, p.termNumber), CStr(p.term), before)
        else before;
      StepResult(p.(hasFix := staged.hasFix, data := staged.data), false, SetTerm(p.termNumber, CStr(p.term)))
  }

  /** A term terminator, after the parity has been brought up to date. */
  function Terminate(p: Parser, c: byte): (r: StepResult)
    requires WellFormed(p)
    ensures WellFormed(r.parser)
    ensures !r.valid ==> Committed(r.parser.data) == Committed(p.data)
    ensures r.valid ==> p.isChecksumTerm
  {
    var r := EndOfTerm(p.(term := p.term[p.termOffset := 0]));
    r.(parser := r.parser.(termNumber := (r.parser.termNumber + 1) % TERM_NUMBERS, termOffset := 0, isChecksumTerm := c == STAR))
  }

  /** An ordinary character, kept as long as the buffer has room. */
  function Stored(p: Parser, c: byte): (r: Parser)
    requires WellFormed(p)
    ensures WellFormed(r) && r.data == p.data
  {
    var kept := if p.termOffset < TERM_SIZE - 1 then p.(term := p.term[p.termOffset := c], termOffset := p.termOffset + 1) else p;
    if p.isChecksumTerm then kept else kept.(parity := p.parity ^ c)
  }

  /** `encode` */
  function Encode(p: Parser, c: byte): (r: StepResult)
    requires WellFormed(p)
    ensures WellFormed(r.parser)
    ensures !r.valid ==> Committed(r.parser.data) == Committed(p.data)
  {
    if c == COMMA then
      Terminate(p.(parity := p.parity ^ c), c)
    else if c == CR || c == LF || c == STAR then
      Terminate(p, c)
    else if c == DOLLAR then
      StepResult(p.(termNumber := 0, termOffset := 0, parity := 0, kind := OTHER, isChecksumTerm := false, hasFix := false),
                 false, Nothing)
    else
      StepResult(Stored(p, c), false, Nothing)
  }

  // ----- Feeding a string -----

  /** The parser after a string. */
  function Feed(p: Parser, s: seq<byte>): (r: Parser)
    requires WellFormed(p)
    ensures WellFormed(r)
    decreases s
  {
    if s == [] then p else Feed(Encode(p, s[0]).parser, s[1..])
  }

  /** Whether some byte of the string completed a valid sentence. */
  predicate SomeValid(p: Parser, s: seq<byte>)
    requires WellFormed(p)
    decreases s
  {
    s != [] && (Encode(p, s[0]).valid || SomeValid(Encode(p, s[0]).parser, s[1..]))
  }

  lemma {:induction false} FeedConcat(p: Parser, a: seq<byte>, b: seq<byte>)
    requires WellFormed(p)
    ensures Feed(p, a + b) == Feed(Feed(p, a), b)
    ensures SomeValid(p, a + b) <==> SomeValid(p, a) || SomeValid(Feed(p, a), b)
    decreases a
  {
    hide Encode;
    if a == [] {
      assert a + b == b;
    } else {
      assert (a + b)[1..] == a[1..] + b;
      FeedConcat(Encode(p, a[0]).parser, a[1..], b);
    }
  }
}

/** The parser as an object: a fixed term buffer, fields updated in place and the registry of custom elements. */
module TinyGps {
  import opened Prelude
  import opened NmeaBytes
  import IndexLists
  import opened TinyGpsCustom
  import opened TinyGpsSpec

  /** The custom elements in their order, and where the current sentence finds its own. */
  datatype Customs = Customs(list: seq<int>, elts: seq<Element>, candidates: int)

  ghost predicate Linked(c: Customs) {
    Permutes(c.list, |c.elts|) && (c.candidates == IndexLists.NULL || c.candidates in c.list)
  }

  /** What an action does to the custom elements. */
  ghost function Perform(c: Customs, action: Action): Customs
    requires Linked(c)
  {
    match action
    case Nothing => c
    case Search(name) => c.(candidates := Candidate(c.list, c.elts, name))
    case SetTerm(number, text) =>
      if c.candidates == IndexLists.NULL then c else
      c.(elts := AfterSet(c.elts, From(c.list, c.candidates), c.elts[c.candidates].name, number, text))
    case CommitAll =>
      if c.candidates == IndexLists.NULL then c else
      c.(elts := AfterCommit(c.elts, From(c.list, c.candidates), c.elts[c.candidates].name))
  }

  class TinyGpsPlus {
    var parity: byte
    var isChecksumTerm: bool
    const term: array<byte>
    var curTermOffset: nat
    var curTermNumber: nat
    var kind: Kind
    var hasFix: bool
    var data: Data
    const registry: Registry

    ghost predicate Valid()
      reads this, term, registry
    {
      term.Length == TERM_SIZE && curTermOffset < TERM_SIZE && curTermNumber < TERM_NUMBERS && registry.Valid()
    }

    ghost function View(): Parser
      reads this, term
    {
      Parser(parity, isChecksumTerm, term[..], curTermOffset, curTermNumber, kind, hasFix, data)
    }

    ghost function CustomView(): Customs
      reads this, registry
    {
      Customs(registry.list, registry.elts, registry.candidates)
    }

    constructor (d: Data)
      ensures Valid() && fresh(term) && fresh(registry)
      ensures View().data == d && !View().isChecksumTerm && CStr(View().term) == []
      ensures registry.list == []
    {
      parity, isChecksumTerm, curTermOffset, curTermNumber := 0, false, 0, 0;
      kind, hasFix, data := OTHER, false, d;
      var t := new byte[TERM_SIZE](i => 0);
      term := t;
      registry := new Registry();
    }

    /** `endOfTermHandler` */
    method EndOfTermHandler() returns (valid: bool)
      requires Valid()
      modifies this, registry
      ensures Valid()
      ensures var r := EndOfTerm(old(View()));
              && View() == r.parser && valid == r.valid
              && CustomView() == Perform(old(CustomView()), r.action)
    {
      hide StageCode, KindOf, Committed, CommitData, CommitField, Checksum, AfterSet, AfterCommit, From, Candidate, Permutes,
           Sorted, IndexLists.Linked;
      valid := false;
      if isChecksumTerm {
        if Checksum(term[0], term[1]) == parity {
          data := CommitData(kind, hasFix, data);
          registry.CommitScan();
          valid := true;
        }
        return;
      }
      if curTermNumber == 0 {
        kind := KindOf(term[..]);
        registry.FindCandidates(CStr(term[..]));
        return;
      }
      if kind != OTHER && term[0] != 0 {
        var s := StageCode(Combine(kind, curTermNumber), CStr(term[..]), Staged(hasFix, data));
        hasFix, data := s.hasFix, s.data;
      }
      registry.SetScan(curTermNumber, CStr(term[..]));
    }

    /** The terminator of the buffered term. */
    method CloseTerm()
      requires Valid()
      modifies term
      ensures Valid() && WellFormed(old(View())) && Linked(CustomView())
      ensures View() == old(View()).(term := old(View()).term[old(View()).termOffset := 0])
      ensures CustomView() == old(CustomView())
    {
      term[curTermOffset] := 0;
    }

    /** The bookkeeping behind a term. */
    method AdvanceTerm(checksumNext: bool)
      requires Valid()
      modifies this`curTermNumber, this`curTermOffset, this`isChecksumTerm
      ensures Valid()
      ensures View() == old(View()).(termNumber := (old(View()).termNumber + 1) % TERM_NUMBERS, termOffset := 0, isChecksumTerm := checksumNext)
      ensures CustomView() == old(CustomView())
    {
      curTermNumber, curTermOffset, isChecksumTerm := (curTermNumber + 1) % TERM_NUMBERS, 0, checksumNext;
    }

    /** A term terminator, after the parity has been brought up to date. */
    method EndTerm(c: byte) returns (valid: bool)
      requires Valid()
      modifies this, term, registry
      ensures Valid()
      ensures var r := Terminate(old(View()), c);
              && View() == r.parser && valid == r.valid
              && CustomView() == Perform(old(CustomView()), r.action)
    {
      hide EndOfTerm, Committed, Linked, Perform, View, CustomView, Valid, WellFormed;
      CloseTerm();
      valid := EndOfTermHandler();
      AdvanceTerm(c == STAR);
    }

    /** An ordinary character. */
    method Store(c: byte)
      requires Valid()
      modifies this`curTermOffset, this`parity, term
      ensures Valid() && WellFormed(old(View()))
      ensures View() == Stored(old(View()), c) && CustomView() == old(CustomView())
    {
      hide Registry.Valid;
      if curTermOffset < TERM_SIZE - 1 {
        term[curTermOffset] := c;
        curTermOffset := curTermOffset + 1;
      }
      if !isChecksumTerm {
        parity := parity ^ c;
      }
    }

    /** `encode` */
    method Encode(c: byte) returns (valid: bool)
      requires Valid()
      modifies this, term, registry
      ensures Valid()
      ensures var r := TinyGpsSpec.Encode(old(View()), c);
              && View() == r.parser && valid == r.valid
              && CustomView() == Perform(old(CustomView()), r.action)
    {
      hide Terminate, Committed;
      valid := false;
      if c == COMMA || c == CR || c == LF || c == STAR {
        if c == COMMA {
          parity := parity ^ c;
        }
        valid := EndTerm(c);
      } else if c == DOLLAR {
        curTermNumber, curTermOffset, parity := 0, 0, 0;
        kind, isChecksumTerm, hasFix := OTHER, false, false;
      } else {
        Store(c);
      }
    }
  }
}
