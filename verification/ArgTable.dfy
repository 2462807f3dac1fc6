/**
 * The command-line parser: a table of entries, a loop over the arguments that knows long,
 * short and bundled options and bare arguments, counts and values per entry, and a list
 * of errors with a fixed capacity. How text converts to a number is a parameter.
 */
module ArgTableSpec {
  import opened Prelude

  // ----- Tables -----

  datatype Kind = LIT | STR | INT | REM

  datatype Entry = Entry(kind: Kind, shorts: Option<string>, longs: Option<string>, mincount: nat, maxcount: nat)

  datatype Table = Table(entries: seq<Entry>, maxErrors: nat, toInt: string -> Option<int>)

  datatype Value = Text(text: string) | Number(number: int)

  datatype Slot = Slot(count: nat, values: seq<Value>)

  datatype Error = Error(code: nat, arg: Option<string>)

  datatype State = State(slots: seq<Slot>, errors: seq<Error>)

  predicate Shaped(t: Table, st: State) {
    |st.slots| == |t.entries|
  }

  // ----- Matching -----

  predicate HasLetter(entry: Entry, c: char) {
    entry.shorts.Some? && c in entry.shorts.value
  }

  /** `match_short`: the first entry with the letter, from `k` on */
  function MatchShort(t: Table, c: char, k: nat): (r: Option<nat>)
    ensures r.Some? ==> k <= r.value < |t.entries| && HasLetter(t.entries[r.value], c)
    ensures forall i :: k <= i < (if r.Some? then r.value else |t.entries|) ==> !HasLetter(t.entries[i], c)
    decreases |t.entries| - k
  {
    if k >= |t.entries| then None
    else if HasLetter(t.entries[k], c) then Some(k)
    else MatchShort(t, c, k + 1)
  }

  /** The length of the first name in a comma-separated list. */
  function NameLength(longs: string): (n: nat)
    ensures n <= |longs| && (n < |longs| ==> longs[n] == ',') && ',' !in longs[..n]
  {
    if longs == "" || longs[0] == ',' then 0 else
    assert longs == [longs[0]] + longs[1..];
    var n := 1 + NameLength(longs[1..]);
    assert longs[..n] == [longs[0]] + longs[1..][..n - 1];
    n
  }

  function BehindName(longs: string): (r: string)
    requires longs != ""
    ensures |r| < |longs|
  {
    var n := NameLength(longs);
    if n < |longs| then longs[n + 1..] else ""
  }

  /** The names in a comma-separated list. */
  function Names(longs: string): seq<string>
    decreases |longs|
  {
    if longs == "" then [] else [longs[..NameLength(longs)]] + Names(BehindName(longs))
  }

  /** Whether a text is a name, or a name, an equals sign and a value. */
  function NameMatch(name: string, p: string): Option<Option<string>> {
    if !(name <= p) then None
    else if |p| == |name| then Some(None)
    else if p[|name|] == '=' then Some(Some(p[|name| + 1..]))
    else None
  }

  /** `longopt_match`, for the text behind the dashes */
  function LongMatch(longs: string, p: string): Option<Option<string>>
    decreases |longs|
  {
    if longs == "" then None
    else if NameMatch(longs[..NameLength(longs)], p).Some? then NameMatch(longs[..NameLength(longs)], p)
    else LongMatch(BehindName(longs), p)
  }

  function EntryMatch(entry: Entry, p: string): Option<Option<string>> {
    if entry.longs.None? then None else LongMatch(entry.longs.value, p)
  }

  /** `match_long`: the first entry that matches, from `k` on, and the value in the argument */
  function MatchLong(t: Table, p: string, k: nat): (r: Option<(nat, Option<string>)>)
    ensures r.Some? ==> k <= r.value.0 < |t.entries| && EntryMatch(t.entries[r.value.0], p) == Some(r.value.1)
    ensures forall i :: k <= i < (if r.Some? then r.value.0 else |t.entries|) ==> EntryMatch(t.entries[i], p).None?
    decreases |t.entries| - k
  {
    if k >= |t.entries| then None
    else if EntryMatch(t.entries[k], p).Some? then Some((k, EntryMatch(t.entries[k], p).value))
    else MatchLong(t, p, k + 1)
  }

  // ----- Scanning -----

  /** `report_error` */
  function Report(t: Table, st: State, error: Error): (r: State)
    ensures r.slots == st.slots
  {
    if |st.errors| < t.maxErrors then st.(errors := st.errors + [error]) else st
  }

  function Stored(entry: Entry, slot: Slot, v: Value): Slot {
    if slot.count < entry.maxcount then Slot(slot.count + 1, slot.values + [v]) else slot
  }

  /** The scan functions: the new slot, or None for an error. */
  function Scanned(t: Table, entry: Entry, slot: Slot, v: string): Option<Slot> {
    match entry.kind
    case LIT => Some(slot.(count := slot.count + 1))
    case STR => Some(Stored(entry, slot, Text(v)))
    case INT => if t.toInt(v).None? then None else Some(Stored(entry, slot, Number(t.toInt(v).value)))
    case REM => Some(slot)
  }

  /** Scanning a value for an entry, and reporting what is no number. */
  function Scan(t: Table, st: State, e: nat, v: string): (r: State)
    requires Shaped(t, st) && e < |t.entries|
    ensures Shaped(t, r)
  {
    match Scanned(t, t.entries[e], st.slots[e], v)
    case Some(slot) => st.(slots := st.slots[e := slot])
    case None => Report(t, st, Error(3, Some(v)))
  }

  // ----- Arguments -----

  datatype Outcome = Outcome(st: State, usedNext: bool)

  predicate IsLong(arg: string) {
    |arg| > 2 && arg[0] == '-' && arg[1] == '-'
  }

  predicate IsShort(arg: string) {
    |arg| >= 2 && arg[0] == '-' && arg[1] != '-'
  }

  function LongToken(t: Table, st: State, arg: string, next: Option<string>): (r: Outcome)
    requires Shaped(t, st) && IsLong(arg)
    ensures Shaped(t, r.st) && (r.usedNext ==> next.Some?)
  {
    match MatchLong(t, arg[2..], 0)
    case None => Outcome(Report(t, st, Error(1, Some(arg))), false)
    case Some((e, v)) =>
      if t.entries[e].kind == LIT then Outcome(Scan(t, st, e, ""), false)
      else if v.Some? then Outcome(Scan(t, st, e, v.value), false)
      else if next.Some? then Outcome(Scan(t, st, e, next.value), true)
      else Outcome(Report(t, st, Error(2, Some(arg))), false)
  }

  /** The letters of a short argument, from the `j`-th character on. */
  function ShortToken(t: Table, st: State, arg: string, j: nat, next: Option<string>): (r: Outcome)
    requires Shaped(t, st) && j <= |arg|
    ensures Shaped(t, r.st) && (r.usedNext ==> next.Some?)
    decreases |arg| - j
  {
    if j == |arg| then Outcome(st, false) else
    match MatchShort(t, arg[j], 0)
    case None => ShortToken(t, Report(t, st, Error(1, None)), arg, j + 1, next)
    case Some(e) =>
      if t.entries[e].kind == LIT then ShortToken(t, Scan(t, st, e, ""), arg, j + 1, next)
      else if j + 1 < |arg| then Outcome(Scan(t, st, e, arg[j + 1..]), false)
      else if next.Some? then Outcome(Scan(t, st, e, next.value), true)
      else Outcome(Report(t, st, Error(2, Some(arg))), false)
  }

  /** An entry for bare arguments that is not full. */
  predicate Takes(entry: Entry, slot: Slot) {
    && entry.shorts.None? && entry.longs.None? && (entry.kind == STR || entry.kind == INT)
    && slot.count < entry.maxcount
  }

  function FirstTaker(t: Table, st: State, k: nat): (r: Option<nat>)
    requires Shaped(t, st)
    ensures r.Some? ==> k <= r.value < |t.entries| && Takes(t.entries[r.value], st.slots[r.value])
    ensures forall i :: k <= i < (if r.Some? then r.value else |t.entries|) ==> !Takes(t.entries[i], st.slots[i])
    decreases |t.entries| - k
  {
    if k >= |t.entries| then None
    else if Takes(t.entries[k], st.slots[k]) then Some(k)
    else FirstTaker(t, st, k + 1)
  }

  function BareToken(t: Table, st: State, arg: string): (r: State)
    requires Shaped(t, st)
    ensures Shaped(t, r)
  {
    match FirstTaker(t, st, 0)
    case Some(e) => Scan(t, st, e, arg)
    case None => Report(t, st, Error(4, Some(arg)))
  }

  function ParseToken(t: Table, st: State, arg: string, next: Option<string>): (r: Outcome)
    requires Shaped(t, st)
    ensures Shaped(t, r.st) && (r.usedNext ==> next.Some?)
  {
    if IsLong(arg) then LongToken(t, st, arg, next)
    else if IsShort(arg) then ShortToken(t, st, arg, 1, next)
    else Outcome(BareToken(t, st, arg), false)
  }

  function Second(args: seq<string>): Option<string> {
    if |args| > 1 then Some(args[1]) else None
  }

  /** The loop over the arguments behind the program name. */
  function ParseArgs(t: Table, st: State, args: seq<string>): (r: State)
    requires Shaped(t, st)
    ensures Shaped(t, r)
    decreases |args|
  {
    if args == [] then st else
    var r := ParseToken(t, st, args[0], Second(args));
    ParseArgs(t, r.st, if r.usedNext then args[2..] else args[1..])
  }

  function Name(entry: Entry): Option<string> {
    if entry.longs.Some? then entry.longs else entry.shorts
  }

  /** The check of the counts; only a count that is too small is reported. */
  function CheckFrom(t: Table, st: State, k: nat): (r: State)
    requires Shaped(t, st)
    ensures Shaped(t, r)
    decreases |t.entries| - k
  {
    if k >= |t.entries| then st else
    var entry := t.entries[k];
    var missing := entry.kind != REM && st.slots[k].count < entry.mincount;
    CheckFrom(t, if missing then Report(t, st, Error(5, Name(entry))) else st, k + 1)
  }

  function Reset(t: Table): (st: State)
    ensures Shaped(t, st)
  {
    State(seq(|t.entries|, i => Slot(0, [])), [])
  }

  /** `arg_parse` */
  function Parse(t: Table, args: seq<string>): State {
    CheckFrom(t, ParseArgs(t, Reset(t), args), 0)
  }

  // ----- Bounds -----

  predicate SlotFits(entry: Entry, slot: Slot) {
    && |slot.values| <= entry.maxcount
    && (entry.kind == STR || entry.kind == INT ==> slot.count == |slot.values|)
    && (entry.kind == LIT || entry.kind == REM ==> slot.values == [])
  }

  /** Never more values than there is room for, nor more errors. */
  ghost predicate Fits(t: Table, st: State) {
    && Shaped(t, st)
    && (forall e :: 0 <= e < |t.entries| ==> SlotFits(t.entries[e], st.slots[e]))
    && |st.errors| <= t.maxErrors
    && forall i :: 0 <= i < |st.errors| ==> 1 <= st.errors[i].code <= 5
  }

  lemma ReportFits(t: Table, st: State, error: Error)
    requires Fits(t, st) && 1 <= error.code <= 5
    ensures Fits(t, Report(t, st, error))
  {
  }

  lemma ScanFits(t: Table, st: State, e: nat, v: string)
    requires Fits(t, st) && e < |t.entries|
    ensures Fits(t, Scan(t, st, e, v))
  {
    if Scanned(t, t.entries[e], st.slots[e], v).None? {
      ReportFits(t, st, Error(3, Some(v)));
    } else {
      ScannedFits(t, t.entries[e], st.slots[e], v);
    }
  }

  lemma ScannedFits(t: Table, entry: Entry, slot: Slot, v: string)
    requires SlotFits(entry, slot) && Scanned(t, entry, slot, v).Some?
    ensures SlotFits(entry, Scanned(t, entry, slot, v).value)
  {
  }

  lemma {:induction false} ShortTokenFits(t: Table, st: State, arg: string, j: nat, next: Option<string>)
    requires Fits(t, st) && j <= |arg|
    ensures Fits(t, ShortToken(t, st, arg, j, next).st)
    decreases |arg| - j
  {
    hide Fits, Scan, Report;
    if j < |arg| {
      FitsIsShaped(t, st);
      match MatchShort(t, arg[j], 0)
      case None =>
        ReportFits(t, st, Error(1, None));
        ShortTokenFits(t, Report(t, st, Error(1, None)), arg, j + 1, next);
      case Some(e) =>
        if t.entries[e].kind == LIT {
          ScanFits(t, st, e, "");
          ShortTokenFits(t, Scan(t, st, e, ""), arg, j + 1, next);
        } else {
          ScanFits(t, st, e, if j + 1 < |arg| then arg[j + 1..] else if next.Some? then next.value else "");
          ReportFits(t, st, Error(2, Some(arg)));
        }
    }
  }

  lemma FitsIsShaped(t: Table, st: State)
    requires Fits(t, st)
    ensures Shaped(t, st)
  {
  }

  lemma TokenFits(t: Table, st: State, arg: string, next: Option<string>)
    requires Fits(t, st)
    ensures Fits(t, ParseToken(t, st, arg, next).st)
  {
    hide Fits, Scan, Report, ShortToken;
    FitsIsShaped(t, st);
    if IsLong(arg) {
      ReportFits(t, st, Error(1, Some(arg)));
      ReportFits(t, st, Error(2, Some(arg)));
      var m := MatchLong(t, arg[2..], 0);
      if m.Some? {
        ScanFits(t, st, m.value.0, "");
        if m.value.1.Some? {
          ScanFits(t, st, m.value.0, m.value.1.value);
        }
        if next.Some? {
          ScanFits(t, st, m.value.0, next.value);
        }
      }
    } else if IsShort(arg) {
      ShortTokenFits(t, st, arg, 1, next);
    } else {
      ReportFits(t, st, Error(4, Some(arg)));
      var k := FirstTaker(t, st, 0);
      if k.Some? {
        ScanFits(t, st, k.value, arg);
      }
    }
  }

  lemma {:induction false} ArgsFit(t: Table, st: State, args: seq<string>)
    requires Fits(t, st)
    ensures Fits(t, ParseArgs(t, st, args))
    decreases |args|
  {
    hide Fits, ParseToken;
    if args != [] {
      FitsIsShaped(t, st);
      TokenFits(t, st, args[0], Second(args));
      var r := ParseToken(t, st, args[0], Second(args));
      ArgsFit(t, r.st, if r.usedNext then args[2..] else args[1..]);
    }
  }

  lemma {:induction false} CheckFits(t: Table, st: State, k: nat)
    requires Fits(t, st)
    ensures Fits(t, CheckFrom(t, st, k))
    decreases |t.entries| - k
  {
    hide Fits, Report;
    FitsIsShaped(t, st);
    if k < |t.entries| {
      ReportFits(t, st, Error(5, Name(t.entries[k])));
      var missing := t.entries[k].kind != REM && st.slots[k].count < t.entries[k].mincount;
      CheckFits(t, if missing then Report(t, st, Error(5, Name(t.entries[k]))) else st, k + 1);
    }
  }

  /** Whatever the arguments, no entry holds more values than its maximum, and the error list stays within its capacity. */
  lemma ParseFits(t: Table, args: seq<string>)
    ensures Fits(t, Parse(t, args))
  {
    hide ParseArgs, CheckFrom;
    ArgsFit(t, Reset(t), args);
    CheckFits(t, ParseArgs(t, Reset(t), args), 0);
  }
}

/** Different spellings of the same options. */
module ArgTableSpellings {
  import opened Prelude
  import opened ArgTableSpec

  /** What a bundle of letters may end with: a letter whose value is glued to it or follows it. */
  datatype Tail = NoTail | Glued(c: char, v: string) | Separate(c: char, v: string)

  datatype Token =
    | LongFlag(name: string)
    | LongEquals(name: string, v: string)
    | LongNext(name: string, v: string)
    | UnknownLong(name: string)
    | Bundle(letters: string, tail: Tail)
    | Bare(text: string)

  /** What the user means, whatever the spelling. */
  datatype Occurrence =
    | Flag(e: nat)
    | Setting(e: nat, v: string)
    | Argument(text: string)
    | UnknownOption(arg: string)
    | UnknownLetter

  function Write(token: Token): seq<string> {
    match token
    case LongFlag(name) => ["--" + name]
    case LongEquals(name, v) => ["--" + name + "=" + v]
    case LongNext(name, v) => ["--" + name, v]
    case UnknownLong(name) => ["--" + name]
    case Bundle(letters, NoTail) => ["-" + letters]
    case Bundle(letters, Glued(c, v)) => ["-" + letters + [c] + v]
    case Bundle(letters, Separate(c, v)) => ["-" + letters + [c], v]
    case Bare(text) => [text]
  }

  predicate IsFlagLetter(t: Table, c: char) {
    MatchShort(t, c, 0).Some? ==> t.entries[MatchShort(t, c, 0).value].kind == LIT
  }

  predicate IsValueLetter(t: Table, c: char) {
    MatchShort(t, c, 0).Some? && t.entries[MatchShort(t, c, 0).value].kind != LIT
  }

  predicate WellSpelledTail(t: Table, tail: Tail) {
    match tail
    case NoTail => true
    case Glued(c, v) => IsValueLetter(t, c) && v != ""
    case Separate(c, v) => IsValueLetter(t, c)
  }

  /** A spelling that the table gives a meaning. */
  predicate WellSpelled(t: Table, token: Token) {
    match token
    case LongFlag(name) =>
      var m := MatchLong(t, name, 0);
      name != "" && m.Some? && t.entries[m.value.0].kind == LIT
    case LongEquals(name, v) =>
      var m := MatchLong(t, name + "=" + v, 0);
      m.Some? && m.value.1 == Some(v) && t.entries[m.value.0].kind != LIT
    case LongNext(name, v) =>
      var m := MatchLong(t, name, 0);
      name != "" && m.Some? && m.value.1.None? && t.entries[m.value.0].kind != LIT
    case UnknownLong(name) => name != "" && MatchLong(t, name, 0).None?
    case Bundle(letters, tail) =>
      && (letters != "" || tail.Glued? || tail.Separate?)
      && (if letters != "" then letters[0] else tail.c) != '-'
      && (forall i :: 0 <= i < |letters| ==> IsFlagLetter(t, letters[i]))
      && WellSpelledTail(t, tail)
    case Bare(text) => !IsLong(text) && !IsShort(text)
  }

  function LetterMeans(t: Table, c: char): Occurrence {
    match MatchShort(t, c, 0)
    case None => UnknownLetter
    case Some(e) => Flag(e)
  }

  function LettersMean(t: Table, letters: string): seq<Occurrence> {
    if letters == "" then [] else [LetterMeans(t, letters[0])] + LettersMean(t, letters[1..])
  }

  function TailMeans(t: Table, tail: Tail): seq<Occurrence>
    requires WellSpelledTail(t, tail)
  {
    if tail.NoTail? then [] else [Setting(MatchShort(t, tail.c, 0).value, tail.v)]
  }

  function Means(t: Table, token: Token): seq<Occurrence>
    requires WellSpelled(t, token)
  {
    match token
    case LongFlag(name) => [Flag(MatchLong(t, name, 0).value.0)]
    case LongEquals(name, v) => [Setting(MatchLong(t, name + "=" + v, 0).value.0, v)]
    case LongNext(name, v) => [Setting(MatchLong(t, name, 0).value.0, v)]
    case UnknownLong(name) => [UnknownOption("--" + name)]
    case Bundle(letters, tail) => LettersMean(t, letters) + TailMeans(t, tail)
    case Bare(text) => [Argument(text)]
  }

  predicate Known(t: Table, o: Occurrence) {
    match o
    case Flag(e) => e < |t.entries|
    case Setting(e, v) => e < |t.entries|
    case _ => true
  }

  /** The effect of one occurrence, in terms of its meaning only. */
  function Apply(t: Table, st: State, o: Occurrence): (r: State)
    requires Shaped(t, st) && Known(t, o)
    ensures Shaped(t, r)
  {
    match o
    case Flag(e) => Scan(t, st, e, "")
    case Setting(e, v) => Scan(t, st, e, v)
    case Argument(text) => BareToken(t, st, text)
    case UnknownOption(arg) => Report(t, st, Error(1, Some(arg)))
    case UnknownLetter => Report(t, st, Error(1, None))
  }

  predicate AllKnown(t: Table, os: seq<Occurrence>) {
    os == [] || (Known(t, os[0]) && AllKnown(t, os[1..]))
  }

  function ApplyAll(t: Table, st: State, os: seq<Occurrence>): (r: State)
    requires Shaped(t, st) && AllKnown(t, os)
    ensures Shaped(t, r)
    decreases |os|
  {
    if os == [] then st else ApplyAll(t, Apply(t, st, os[0]), os[1..])
  }

  function WriteAll(tokens: seq<Token>): seq<string> {
    if tokens == [] then [] else Write(tokens[0]) + WriteAll(tokens[1..])
  }

  predicate AllWellSpelled(t: Table, tokens: seq<Token>) {
    tokens == [] || (WellSpelled(t, tokens[0]) && AllWellSpelled(t, tokens[1..]))
  }

  function MeansAll(t: Table, tokens: seq<Token>): seq<Occurrence>
    requires AllWellSpelled(t, tokens)
    decreases |tokens|
  {
    if tokens == [] then [] else Means(t, tokens[0]) + MeansAll(t, tokens[1..])
  }

  // ----- Parsing a spelling is applying its meaning -----

  lemma {:induction false} ApplyAllOfConcat(t: Table, st: State, a: seq<Occurrence>, b: seq<Occurrence>)
    requires Shaped(t, st) && AllKnown(t, a) && AllKnown(t, b)
    ensures AllKnown(t, a + b)
    ensures ApplyAll(t, st, a + b) == ApplyAll(t, ApplyAll(t, st, a), b)
    decreases |a|
  {
    hide Apply;
    if a == [] {
      assert a + b == b;
    } else {
      assert (a + b)[1..] == a[1..] + b;
      ApplyAllOfConcat(t, Apply(t, st, a[0]), a[1..], b);
    }
  }

  lemma ApplyOne(t: Table, st: State, o: Occurrence)
    requires Shaped(t, st) && Known(t, o)
    ensures AllKnown(t, [o]) && ApplyAll(t, st, [o]) == Apply(t, st, o)
  {
    hide Apply;
    assert [o][1..] == [];
  }

  /** The flag letters of a bundle are parsed one after the other. */
  lemma {:induction false} LettersParse(t: Table, st: State, arg: string, j: nat, letters: string, next: Option<string>)
    requires Shaped(t, st) && j + |letters| <= |arg| && arg[j..j + |letters|] == letters
    requires forall i :: 0 <= i < |letters| ==> IsFlagLetter(t, letters[i])
    ensures AllKnown(t, LettersMean(t, letters))
    ensures ShortToken(t, st, arg, j, next)
            == ShortToken(t, ApplyAll(t, st, LettersMean(t, letters)), arg, j + |letters|, next)
    decreases |letters|
  {
    hide Scan, Report;
    if letters != "" {
      var c, rest := letters[0], letters[1..];
      assert arg[j] == arg[j..j + |letters|][0];
      assert arg[j + 1..j + 1 + |rest|] == arg[j..j + |letters|][1..];
      assert IsFlagLetter(t, letters[0]);
      LettersParse(t, Apply(t, st, LetterMeans(t, c)), arg, j + 1, rest, next);
      assert LettersMean(t, letters)[1..] == LettersMean(t, rest);
    }
  }

  /** One token and whatever follows it. */
  lemma TokenParses(t: Table, st: State, token: Token, rest: seq<string>)
    requires Shaped(t, st) && WellSpelled(t, token)
    ensures AllKnown(t, Means(t, token))
    ensures ParseArgs(t, st, Write(token) + rest) == ParseArgs(t, ApplyAll(t, st, Means(t, token)), rest)
  {
    hide Scan, Report, MatchLong, MatchShort, ShortToken, BareToken, ApplyAll, ParseArgs;
    match token
    case Bundle(letters, tail) => BundleParses(t, st, letters, tail, rest);
    case Bare(text) =>
      ApplyOne(t, st, Argument(text));
      OneArgument(t, st, text, rest);
    case LongNext(name, v) =>
      var o := Setting(MatchLong(t, name, 0).value.0, v);
      ApplyOne(t, st, o);
      assert ("--" + name)[2..] == name;
      TwoArguments(t, st, "--" + name, v, rest);
    case LongEquals(name, v) =>
      var text := name + "=" + v;
      ApplyOne(t, st, Setting(MatchLong(t, text, 0).value.0, v));
      assert "--" + name + "=" + v == "--" + text && ("--" + text)[2..] == text;
      OneArgument(t, st, "--" + text, rest);
    case LongFlag(name) =>
      ApplyOne(t, st, Flag(MatchLong(t, name, 0).value.0));
      assert ("--" + name)[2..] == name;
      OneArgument(t, st, "--" + name, rest);
    case UnknownLong(name) =>
      ApplyOne(t, st, UnknownOption("--" + name));
      assert ("--" + name)[2..] == name;
      OneArgument(t, st, "--" + name, rest);
  }

  lemma OneArgument(t: Table, st: State, arg: string, rest: seq<string>)
    requires Shaped(t, st)
    ensures var r := ParseToken(t, st, arg, Second([arg] + rest));
            !r.usedNext ==> ParseArgs(t, st, [arg] + rest) == ParseArgs(t, r.st, rest)
  {
    hide ParseToken;
    assert ([arg] + rest)[1..] == rest;
  }

  lemma TwoArguments(t: Table, st: State, arg: string, v: string, rest: seq<string>)
    requires Shaped(t, st)
    ensures var r := ParseToken(t, st, arg, Some(v));
            r.usedNext ==> ParseArgs(t, st, [arg, v] + rest) == ParseArgs(t, r.st, rest)
  {
    hide ParseToken;
    assert ([arg, v] + rest)[2..] == rest;
  }

  /** The argument of a bundle. */
  function BundleText(letters: string, tail: Tail): string {
    match tail
    case NoTail => "-" + letters
    case Glued(c, v) => "-" + letters + [c] + v
    case Separate(c, v) => "-" + letters + [c]
  }

  lemma BundleParses(t: Table, st: State, letters: string, tail: Tail, rest: seq<string>)
    requires Shaped(t, st) && WellSpelled(t, Bundle(letters, tail))
    ensures AllKnown(t, Means(t, Bundle(letters, tail)))
    ensures ParseArgs(t, st, Write(Bundle(letters, tail)) + rest)
            == ParseArgs(t, ApplyAll(t, st, Means(t, Bundle(letters, tail))), rest)
  {
    hide Scan, Report, MatchShort, ShortToken, ApplyAll, ParseArgs, LettersMean, TailMeans, AllKnown;
    var arg := BundleText(letters, tail);
    var next := if tail.Separate? then Some(tail.v) else Second([arg] + rest);
    BundleIsShort(t, letters, tail);
    LettersParse(t, st, arg, 1, letters, next);
    var after := ApplyAll(t, st, LettersMean(t, letters));
    TailParses(t, after, letters, tail, next);
    ApplyAllOfConcat(t, st, LettersMean(t, letters), TailMeans(t, tail));
    OneArgument(t, st, arg, rest);
    if tail.Separate? {
      TwoArguments(t, st, arg, tail.v, rest);
    }
  }

  lemma BundleIsShort(t: Table, letters: string, tail: Tail)
    requires WellSpelled(t, Bundle(letters, tail))
    ensures var arg := BundleText(letters, tail);
            && IsShort(arg) && !IsLong(arg) && arg[1..1 + |letters|] == letters
            && Write(Bundle(letters, tail)) == if tail.Separate? then [arg, tail.v] else [arg]
  {
    hide WellSpelledTail, IsFlagLetter;
  }

  lemma TailParses(t: Table, st: State, letters: string, tail: Tail, next: Option<string>)
    requires Shaped(t, st) && WellSpelledTail(t, tail) && (tail.Separate? ==> next == Some(tail.v))
    ensures AllKnown(t, TailMeans(t, tail))
    ensures ShortToken(t, st, BundleText(letters, tail), 1 + |letters|, next)
            == Outcome(ApplyAll(t, st, TailMeans(t, tail)), tail.Separate?)
  {
    hide Scan, Report;
    var arg := BundleText(letters, tail);
    if tail.NoTail? {
    } else {
      ApplyOne(t, st, Setting(MatchShort(t, tail.c, 0).value, tail.v));
      assert arg[1 + |letters|] == tail.c;
      if tail.Glued? {
        assert arg[1 + |letters| + 1..] == tail.v;
      }
    }
  }

  /** Parsing any well-formed vector does what its occurrences mean, in their order. */
  lemma {:induction false} ParsingIsApplying(t: Table, st: State, tokens: seq<Token>)
    requires Shaped(t, st) && AllWellSpelled(t, tokens)
    ensures AllKnown(t, MeansAll(t, tokens))
    ensures ParseArgs(t, st, WriteAll(tokens)) == ApplyAll(t, st, MeansAll(t, tokens))
    decreases |tokens|
  {
    hide Means, Write, ParseArgs, WellSpelled;
    if tokens == [] {
      NoArguments(t, st);
    } else {
      hide ApplyAll;
      TokenParses(t, st, tokens[0], WriteAll(tokens[1..]));
      var next := ApplyAll(t, st, Means(t, tokens[0]));
      ParsingIsApplying(t, next, tokens[1..]);
      ApplyAllOfConcat(t, st, Means(t, tokens[0]), MeansAll(t, tokens[1..]));
    }
  }

  lemma NoArguments(t: Table, st: State)
    requires Shaped(t, st)
    ensures ParseArgs(t, st, []) == st
  {
  }

  /** Spelling does not matter: vectors that mean the same give the same counts, values and errors. */
  lemma SpellingDoesNotMatter(t: Table, a: seq<Token>, b: seq<Token>)
    requires AllWellSpelled(t, a) && AllWellSpelled(t, b) && MeansAll(t, a) == MeansAll(t, b)
    ensures Parse(t, WriteAll(a)) == Parse(t, WriteAll(b))
  {
    hide ParseArgs, CheckFrom, WriteAll, MeansAll, AllWellSpelled;
    ParsingIsApplying(t, Reset(t), a);
    ParsingIsApplying(t, Reset(t), b);
  }

  // ----- Every vector is a spelling -----

  /** A short argument that ends with a letter whose value would have to follow. */
  predicate EndsOpen(t: Table, letters: string, arg: string) {
    |arg| >= 2 && arg == "-" + letters + [arg[|arg| - 1]] && IsValueLetter(t, arg[|arg| - 1])
    && forall i :: 0 <= i < |letters| ==> IsFlagLetter(t, letters[i])
  }

  /** The only argument without a meaning of its own: a last one whose value is missing. */
  ghost predicate LacksValue(t: Table, arg: string) {
    if IsLong(arg) then
      var m := MatchLong(t, arg[2..], 0);
      m.Some? && m.value.1.None? && t.entries[m.value.0].kind != LIT
    else
      IsShort(arg) && exists letters :: EndsOpen(t, letters, arg)
  }

  lemma {:induction false} ValueIsSuffix(longs: string, p: string, v: string)
    requires LongMatch(longs, p) == Some(Some(v))
    ensures |v| < |p| && p == p[..|p| - |v| - 1] + "=" + v
    decreases |longs|
  {
    var name := longs[..NameLength(longs)];
    if NameMatch(name, p).Some? {
      assert p == p[..|name|] + "=" + p[|name| + 1..];
    } else {
      ValueIsSuffix(BehindName(longs), p, v);
    }
  }

  /** A short argument from its `j`-th character on: flag letters, and what ends them. An open end has an empty value. */
  lemma {:induction false} SplitLetters(t: Table, arg: string, j: nat) returns (letters: string, tail: Tail)
    requires j <= |arg|
    ensures forall i :: 0 <= i < |letters| ==> IsFlagLetter(t, letters[i])
    ensures WellSpelledTail(t, tail)
    ensures arg[j..] == match tail
                        case NoTail => letters
                        case Glued(c, v) => letters + [c] + v
                        case Separate(c, v) => letters + [c]
    decreases |arg| - j
  {
    hide IsFlagLetter;
    if j == |arg| {
      letters, tail := "", NoTail;
    } else if IsValueLetter(t, arg[j]) {
      letters, tail := "", if j + 1 < |arg| then Glued(arg[j], arg[j + 1..]) else Separate(arg[j], "");
    } else {
      LetterKinds(t, arg[j]);
      var more: string;
      more, tail := SplitLetters(t, arg, j + 1);
      letters := [arg[j]] + more;
      assert arg[j..] == [arg[j]] + arg[j + 1..];
    }
  }

  lemma LetterKinds(t: Table, c: char)
    ensures IsFlagLetter(t, c) <==> !IsValueLetter(t, c)
  {
  }

  /** The token that the first arguments spell, unless its value is missing. */
  lemma FirstToken(t: Table, args: seq<string>) returns (token: Token)
    requires args != []
    ensures (|args| == 1 && LacksValue(t, args[0])) || (WellSpelled(t, token) && Write(token) <= args)
  {
    var arg := args[0];
    if IsLong(arg) {
      hide WellSpelled, Write, LacksValue;
      token := FirstLong(t, args);
    } else if IsShort(arg) {
      hide WellSpelled, Write, LacksValue;
      token := FirstBundle(t, args);
    } else {
      hide LacksValue;
      token := Bare(arg);
    }
  }

  lemma FirstLong(t: Table, args: seq<string>) returns (token: Token)
    requires args != [] && IsLong(args[0])
    ensures (|args| == 1 && LacksValue(t, args[0])) || (WellSpelled(t, token) && Write(token) <= args)
  {
    hide MatchLong, MatchShort, EndsOpen;
    var p := args[0][2..];
    assert args[0] == "--" + p;
    token := UnknownLong(p);
    var m := MatchLong(t, p, 0);
    if m.Some? {
      var e, v := m.value.0, m.value.1;
      if t.entries[e].kind == LIT {
        token := LongFlag(p);
      } else if v.Some? {
        ValueIsSuffix(t.entries[e].longs.value, p, v.value);
        var name := p[..|p| - |v.value| - 1];
        token := LongEquals(name, v.value);
        DashesAndEquals(name, v.value);
      } else if |args| > 1 {
        token := LongNext(p, args[1]);
      }
    }
  }

  lemma DashesAndEquals(name: string, v: string)
    ensures "--" + (name + "=" + v) == "--" + name + "=" + v
  {
  }

  lemma FirstBundle(t: Table, args: seq<string>) returns (token: Token)
    requires args != [] && IsShort(args[0])
    ensures (|args| == 1 && LacksValue(t, args[0])) || (WellSpelled(t, token) && Write(token) <= args)
  {
    hide MatchShort, IsFlagLetter;
    var arg := args[0];
    var letters, tail := SplitLetters(t, arg, 1);
    assert arg == "-" + arg[1..];
    if tail.Separate? {
      assert arg == "-" + letters + [tail.c];
      if |args| > 1 {
        tail := Separate(tail.c, args[1]);
      } else {
        assert EndsOpen(t, letters, arg);
      }
    } else if tail.Glued? {
      assert arg == "-" + letters + [tail.c] + tail.v;
    }
    token := Bundle(letters, tail);
    assert arg[1] == if letters != "" then letters[0] else tail.c;
  }

  /** Every vector of arguments spells some occurrences, but for a last argument whose value is missing. */
  lemma {:induction false} EveryVectorIsSpelled(t: Table, args: seq<string>) returns (tokens: seq<Token>, open: seq<string>)
    ensures AllWellSpelled(t, tokens) && args == WriteAll(tokens) + open
    ensures open == [] || (|open| == 1 && LacksValue(t, open[0]))
    decreases |args|
  {
    hide WellSpelled, Write, LacksValue;
    tokens, open := [], args;
    if args != [] && !(|args| == 1 && LacksValue(t, args[0])) {
      var token := FirstToken(t, args);
      WrittenIsSome(token);
      var n := |Write(token)|;
      var more: seq<Token>;
      more, open := EveryVectorIsSpelled(t, args[n..]);
      tokens := [token] + more;
      assert tokens[1..] == more;
      assert args == Write(token) + args[n..];
      assert args == Write(token) + WriteAll(more) + open;
    }
  }

  lemma WrittenIsSome(token: Token)
    ensures |Write(token)| >= 1
  {
  }

  // ----- The spellings of one option -----

  predicate HasName(entry: Entry, name: string) {
    entry.longs.Some? && name in Names(entry.longs.value)
  }

  predicate IsName(name: string) {
    name != "" && '=' !in name
  }

  /** No letter and no name belongs to two entries, and names are names. */
  ghost predicate Distinct(t: Table) {
    && (forall i, j, c :: 0 <= i < j < |t.entries| ==> !(HasLetter(t.entries[i], c) && HasLetter(t.entries[j], c)))
    && (forall i, j, name :: 0 <= i < j < |t.entries| ==> !(HasName(t.entries[i], name) && HasName(t.entries[j], name)))
    && (forall i, name :: 0 <= i < |t.entries| && HasName(t.entries[i], name) ==> IsName(name))
  }

  lemma NameMatchIsExact(name: string, p: string, other: string)
    requires IsName(name) && IsName(other)
    requires p == name || (name + "=" <= p)
    ensures NameMatch(other, p).Some? <==> other == name
    ensures NameMatch(name, p) == Some(if p == name then None else Some(p[|name| + 1..]))
  {
    if name + "=" <= p {
      assert p[|name|] == (name + "=")[|name|];
      assert name <= p by {
        assert p[..|name|] == (name + "=")[..|name|];
      }
    }
    if NameMatch(other, p).Some? {
      SameLength(name, p, other);
      assert other == p[..|other|] && name == p[..|name|];
    }
  }

  lemma SameLength(name: string, p: string, other: string)
    requires '=' !in name && '=' !in other && name <= p && other <= p
    requires |p| == |name| || p[|name|] == '='
    requires |p| == |other| || p[|other|] == '='
    ensures |name| == |other|
  {
    forall k | 0 <= k < |other| ensures p[k] != '=' {
      assert other[k] == p[k];
    }
    forall k | 0 <= k < |name| ensures p[k] != '=' {
      assert name[k] == p[k];
    }
  }

  /** A list of names matches exactly what one of them spells. */
  lemma {:induction false} LongMatchIsMember(longs: string, name: string, p: string)
    requires IsName(name) && (p == name || (name + "=" <= p))
    requires forall other :: other in Names(longs) ==> IsName(other)
    ensures LongMatch(longs, p)
            == if name in Names(longs) then Some(if p == name then None else Some(p[|name| + 1..])) else None
    decreases |longs|
  {
    if longs != "" {
      var first := longs[..NameLength(longs)];
      assert Names(longs) == [first] + Names(BehindName(longs));
      assert first in Names(longs);
      NameMatchIsExact(name, p, first);
      hide NameMatch, NameLength, BehindName;
      LongMatchIsMember(BehindName(longs), name, p);
    }
  }

  /** In a table with distinct names a name finds its entry. */
  lemma NameFinds(t: Table, e: nat, name: string, p: string)
    requires Distinct(t) && e < |t.entries| && HasName(t.entries[e], name)
    requires p == name || (name + "=" <= p)
    ensures MatchLong(t, p, 0) == Some((e, if p == name then None else Some(p[|name| + 1..])))
  {
    hide LongMatch, Names;
    forall i | 0 <= i < |t.entries|
      ensures EntryMatch(t.entries[i], p)
              == if i == e then Some(if p == name then None else Some(p[|name| + 1..])) else None
    {
      assert IsName(name);
      EntryMatches(t, i, name, p);
      if i != e {
        NameIsOwn(t, i, e, name);
      }
    }
  }

  lemma NameIsOwn(t: Table, i: nat, e: nat, name: string)
    requires Distinct(t) && i < |t.entries| && e < |t.entries| && i != e && HasName(t.entries[e], name)
    ensures !HasName(t.entries[i], name)
  {
    hide HasName;
  }

  lemma EntryMatches(t: Table, i: nat, name: string, p: string)
    requires Distinct(t) && i < |t.entries| && IsName(name) && (p == name || (name + "=" <= p))
    ensures EntryMatch(t.entries[i], p)
            == if HasName(t.entries[i], name) then Some(if p == name then None else Some(p[|name| + 1..])) else None
  {
    var entry := t.entries[i];
    if entry.longs.Some? {
      forall other | other in Names(entry.longs.value) ensures IsName(other) {
        assert HasName(entry, other);
      }
      LongMatchIsMember(entry.longs.value, name, p);
    }
  }

  /** In a table with distinct letters a letter finds its entry. */
  lemma LetterFinds(t: Table, e: nat, c: char)
    requires Distinct(t) && e < |t.entries| && HasLetter(t.entries[e], c)
    ensures MatchShort(t, c, 0) == Some(e)
  {
    forall i | 0 <= i < e ensures !HasLetter(t.entries[i], c) {
      LetterIsOwn(t, i, e, c);
    }
  }

  lemma LetterIsOwn(t: Table, i: nat, e: nat, c: char)
    requires Distinct(t) && i < |t.entries| && e < |t.entries| && i != e && HasLetter(t.entries[e], c)
    ensures !HasLetter(t.entries[i], c)
  {
    hide HasLetter;
  }

  /** With distinct letters and names, the four spellings of an option with a value mean the same. */
  lemma FourSpellings(t: Table, e: nat, c: char, name: string, v: string)
    requires Distinct(t) && e < |t.entries| && t.entries[e].kind != LIT
    requires HasLetter(t.entries[e], c) && HasName(t.entries[e], name) && c != '-'
    ensures var meant := [Setting(e, v)];
            && WellSpelled(t, LongEquals(name, v)) && Means(t, LongEquals(name, v)) == meant
            && WellSpelled(t, LongNext(name, v)) && Means(t, LongNext(name, v)) == meant
            && WellSpelled(t, Bundle("", Separate(c, v))) && Means(t, Bundle("", Separate(c, v))) == meant
            && (v != "" ==> WellSpelled(t, Bundle("", Glued(c, v))) && Means(t, Bundle("", Glued(c, v))) == meant)
  {
    hide MatchLong, MatchShort;
    LetterFinds(t, e, c);
    NameFinds(t, e, name, name);
    var p := name + "=" + v;
    assert name + "=" <= p && p[|name| + 1..] == v;
    NameFinds(t, e, name, p);
    assert IsName(name);
  }

  /** A flag's letter and its name mean the same. */
  lemma FlagSpellings(t: Table, e: nat, c: char, name: string)
    requires Distinct(t) && e < |t.entries| && t.entries[e].kind == LIT
    requires HasLetter(t.entries[e], c) && HasName(t.entries[e], name) && c != '-'
    ensures WellSpelled(t, LongFlag(name)) && Means(t, LongFlag(name)) == [Flag(e)]
    ensures WellSpelled(t, Bundle([c], NoTail)) && Means(t, Bundle([c], NoTail)) == [Flag(e)]
  {
    hide MatchLong, MatchShort;
    LetterFinds(t, e, c);
    NameFinds(t, e, name, name);
    assert IsName(name);
    assert [c][1..] == "" && LettersMean(t, [c]) == [Flag(e)];
  }

  /** Splitting a bundle, or bundling, does not change the meaning. */
  lemma {:induction false} BundlesSplit(t: Table, a: string, b: string, tail: Tail)
    requires WellSpelled(t, Bundle(a, NoTail)) && WellSpelled(t, Bundle(b, tail))
    ensures WellSpelled(t, Bundle(a + b, tail))
    ensures Means(t, Bundle(a + b, tail)) == Means(t, Bundle(a, NoTail)) + Means(t, Bundle(b, tail))
  {
    hide IsFlagLetter, WellSpelledTail;
    LettersOfConcat(t, a, b);
    forall i | 0 <= i < |a + b| ensures IsFlagLetter(t, (a + b)[i]) {
      assert (a + b)[i] == if i < |a| then a[i] else b[i - |a|];
    }
  }

  lemma {:induction false} LettersOfConcat(t: Table, a: string, b: string)
    ensures LettersMean(t, a + b) == LettersMean(t, a) + LettersMean(t, b)
  {
    if a == "" {
      assert a + b == b;
    } else {
      assert (a + b)[1..] == a[1..] + b;
      LettersOfConcat(t, a[1..], b);
    }
  }
}

/** The parser with its loops. */
module ArgTable {
  import opened Prelude
  import opened ArgTableSpec

  class ArgParser {
    const table: Table
    var slots: seq<Slot>
    var errors: seq<Error>

    ghost function View(): State
      reads this
    {
      State(slots, errors)
    }

    ghost predicate Valid()
      reads this
    {
      Shaped(table, View())
    }

    /** The entries after they have been reset. */
    constructor (table: Table)
      ensures this.table == table && Valid() && View() == Reset(table)
    {
      this.table := table;
      slots := seq(|table.entries|, i => Slot(0, []));
      errors := [];
    }

    method ReportError(error: Error)
      modifies this`errors
      ensures View() == Report(table, old(View()), error)
    {
      if |errors| < table.maxErrors {
        errors := errors + [error];
      }
    }

    /** The scan function of an entry, and what is reported when it fails */
    method ScanValue(e: nat, v: string)
      requires Valid() && e < |table.entries|
      modifies this
      ensures Valid() && View() == Scan(table, old(View()), e, v)
    {
      var entry, slot := table.entries[e], slots[e];
      match entry.kind
      case LIT =>
        slots := slots[e := slot.(count := slot.count + 1)];
      case STR =>
        if slot.count < entry.maxcount {
          slots := slots[e := Slot(slot.count + 1, slot.values + [Text(v)])];
        }
      case INT =>
        var number := table.toInt(v);
        if number.None? {
          ReportError(Error(3, Some(v)));
        } else if slot.count < entry.maxcount {
          slots := slots[e := Slot(slot.count + 1, slot.values + [Number(number.value)])];
        }
      case REM =>
    }

    method FindShort(c: char) returns (r: Option<nat>)
      ensures r == MatchShort(table, c, 0)
    {
      var k := 0;
      while k < |table.entries|
        invariant k <= |table.entries| && MatchShort(table, c, k) == MatchShort(table, c, 0)
      {
        if HasLetter(table.entries[k], c) {
          return Some(k);
        }
        k := k + 1;
      }
      return None;
    }

    method FindLong(p: string) returns (r: Option<(nat, Option<string>)>)
      ensures r == MatchLong(table, p, 0)
    {
      var k := 0;
      while k < |table.entries|
        invariant k <= |table.entries| && MatchLong(table, p, k) == MatchLong(table, p, 0)
      {
        var entry := table.entries[k];
        if entry.longs.Some? {
          var m := MatchNames(entry.longs.value, p);
          if m.Some? {
            return Some((k, m.value));
          }
        }
        k := k + 1;
      }
      return None;
    }

    /** `longopt_match` */
    static method MatchNames(longs: string, p: string) returns (r: Option<Option<string>>)
      ensures r == LongMatch(longs, p)
    {
      var rest := longs;
      while rest != ""
        invariant LongMatch(rest, p) == LongMatch(longs, p)
        decreases |rest|
      {
        var n := 0;
        while n < |rest| && rest[n] != ','
          invariant n <= NameLength(rest)
        {
          n := n + 1;
        }
        FirstComma(rest, n);
        var m := NameMatch(rest[..n], p);
        if m.Some? {
          return m;
        }
        rest := if n < |rest| then rest[n + 1..] else "";
      }
      return None;
    }

    static lemma FirstComma(s: string, n: nat)
      requires n <= NameLength(s) && (n < |s| ==> s[n] == ',')
      ensures n == NameLength(s)
    {
      forall k | 0 <= k < NameLength(s) ensures s[k] != ',' {
        assert s[..NameLength(s)][k] == s[k];
      }
    }

    method ParseLong(arg: string, next: Option<string>) returns (usedNext: bool)
      requires Valid() && IsLong(arg)
      modifies this
      ensures Valid() && LongToken(table, old(View()), arg, next) == Outcome(View(), usedNext)
    {
      hide Scan, Report, MatchLong;
      usedNext := false;
      var m := FindLong(arg[2..]);
      if m.None? {
        ReportError(Error(1, Some(arg)));
        return;
      }
      var (e, v) := m.value;
      if table.entries[e].kind == LIT {
        ScanValue(e, "");
      } else if v.Some? {
        ScanValue(e, v.value);
      } else if next.Some? {
        ScanValue(e, next.value);
        usedNext := true;
      } else {
        ReportError(Error(2, Some(arg)));
      }
    }

    /** The loop over the letters of a short argument */
    method ParseShort(arg: string, next: Option<string>) returns (usedNext: bool)
      requires Valid() && IsShort(arg)
      modifies this
      ensures Valid() && ShortToken(table, old(View()), arg, 1, next) == Outcome(View(), usedNext)
    {
      hide Scan, Report, MatchShort;
      var j := 1;
      while j < |arg|
        invariant 1 <= j <= |arg| && Valid()
        invariant ShortToken(table, View(), arg, j, next) == ShortToken(table, old(View()), arg, 1, next)
      {
        var m := FindShort(arg[j]);
        if m.None? {
          ReportError(Error(1, None));
        } else if table.entries[m.value].kind == LIT {
          ScanValue(m.value, "");
        } else if j + 1 < |arg| {
          ScanValue(m.value, arg[j + 1..]);
          return false;
        } else if next.Some? {
          ScanValue(m.value, next.value);
          return true;
        } else {
          ReportError(Error(2, Some(arg)));
          return false;
        }
        j := j + 1;
      }
      return false;
    }

    /** The loop that looks for an entry for a bare argument */
    method ParseBare(arg: string)
      requires Valid()
      modifies this
      ensures Valid() && View() == BareToken(table, old(View()), arg)
    {
      hide Scan, Report;
      var k := 0;
      while k < |table.entries|
        invariant k <= |table.entries| && Valid() && View() == old(View())
        invariant FirstTaker(table, View(), k) == FirstTaker(table, View(), 0)
      {
        if Takes(table.entries[k], slots[k]) {
          ScanValue(k, arg);
          return;
        }
        k := k + 1;
      }
      ReportError(Error(4, Some(arg)));
    }

    /** The loop that checks the counts */
    method CheckCounts()
      requires Valid()
      modifies this
      ensures Valid() && View() == CheckFrom(table, old(View()), 0)
    {
      hide Report;
      var k := 0;
      while k < |table.entries|
        invariant k <= |table.entries| && Valid()
        invariant CheckFrom(table, View(), k) == CheckFrom(table, old(View()), 0)
      {
        var entry := table.entries[k];
        if entry.kind != REM && slots[k].count < entry.mincount {
          ReportError(Error(5, Name(entry)));
        }
        k := k + 1;
      }
    }

    method ParseOne(arg: string, next: Option<string>) returns (usedNext: bool)
      requires Valid()
      modifies this
      ensures Valid() && ParseToken(table, old(View()), arg, next) == Outcome(View(), usedNext)
    {
      hide LongToken, ShortToken, BareToken;
      usedNext := false;
      if IsLong(arg) {
        usedNext := ParseLong(arg, next);
      } else if IsShort(arg) {
        usedNext := ParseShort(arg, next);
      } else {
        ParseBare(arg);
      }
    }

    /** `arg_parse`; the first argument is the program name */
    method Parse(argv: seq<string>) returns (count: nat)
      requires Valid()
      modifies this
      ensures Valid() && View() == ArgTableSpec.Parse(table, if argv == [] then [] else argv[1..])
      ensures count == |errors|
    {
      hide ParseToken, CheckFrom;
      slots := seq(|table.entries|, i => Slot(0, []));
      errors := [];
      ghost var args := if argv == [] then [] else argv[1..];
      var i := 1;
      while i < |argv|
        invariant Valid() && 1 <= i
        invariant ParseArgs(table, View(), if i <= |argv| then argv[i..] else []) == ParseArgs(table, Reset(table), args)
        decreases |argv| - i
      {
        ghost var rest := argv[i..];
        var next := if i + 1 < |argv| then Some(argv[i + 1]) else None;
        assert next == Second(rest);
        var usedNext := ParseOne(argv[i], next);
        assert rest[1..] == argv[i + 1..];
        if usedNext {
          assert rest[2..] == argv[i + 2..];
          i := i + 1;
        }
        i := i + 1;
      }
      CheckCounts();
      count := |errors|;
    }
  }
}
