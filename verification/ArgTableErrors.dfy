/** Which counts a parse reports: those that are too small, and no others. */
module ArgTableErrors {
  import opened Prelude
  import opened ArgTableSpec
  import opened ArgTableSpellings

  /** An entry that occurred too rarely. */
  predicate Missing(t: Table, st: State, k: nat)
    requires Shaped(t, st) && k < |t.entries|
  {
    t.entries[k].kind != REM && st.slots[k].count < t.entries[k].mincount
  }

  /** The entries from `k` on that are missing, in the order of the table. */
  function MissingFrom(t: Table, st: State, k: nat): (ks: seq<nat>)
    requires Shaped(t, st)
    ensures forall i :: 0 <= i < |ks| ==> k <= ks[i] < |t.entries|
    decreases |t.entries| - k
  {
    if k >= |t.entries| then []
    else (if Missing(t, st, k) then [k] else []) + MissingFrom(t, st, k + 1)
  }

  lemma {:induction false} MissingAreMissing(t: Table, st: State, k: nat)
    requires Shaped(t, st)
    ensures var ks := MissingFrom(t, st, k);
            && (forall i, j :: 0 <= i < j < |ks| ==> ks[i] < ks[j])
            && forall e :: k <= e < |t.entries| ==> (e in ks <==> Missing(t, st, e))
    decreases |t.entries| - k
  {
    if k < |t.entries| {
      MissingAreMissing(t, st, k + 1);
    }
  }

  /** The reports about some entries. */
  function Reports(t: Table, ks: seq<nat>): seq<Error>
    requires forall i :: 0 <= i < |ks| ==> ks[i] < |t.entries|
  {
    seq(|ks|, i requires 0 <= i < |ks| => Error(5, Name(t.entries[ks[i]])))
  }

  /** As many of the errors as there is room for. */
  function Capped(errors: seq<Error>, room: nat): seq<Error> {
    if |errors| <= room then errors else errors[..room]
  }

  /** The check appends one error for each missing entry, as far as there is room, and touches nothing else. */
  lemma {:induction false} CheckReports(t: Table, st: State, k: nat)
    requires Shaped(t, st) && |st.errors| <= t.maxErrors
    ensures CheckFrom(t, st, k)
            == State(st.slots, Capped(st.errors + Reports(t, MissingFrom(t, st, k)), t.maxErrors))
    decreases |t.entries| - k
  {
    if k >= |t.entries| {
      assert st.errors + [] == st.errors;
    } else {
      CheckStep(t, st, k);
      ReportsStep(t, st, k);
      hide Report, Reports, Capped, Missing, MissingFrom, CheckFrom;
      var error := Error(5, Name(t.entries[k]));
      if Missing(t, st, k) {
        var after := Report(t, st, error);
        ReportIsCapped(t, st, error, Reports(t, MissingFrom(t, st, k + 1)));
        SameMissing(t, st, after, k + 1);
        CheckReports(t, after, k + 1);
      } else {
        CheckReports(t, st, k + 1);
      }
    }
  }

  lemma ReportsStep(t: Table, st: State, k: nat)
    requires Shaped(t, st) && k < |t.entries|
    ensures var more := Reports(t, MissingFrom(t, st, k + 1));
            Reports(t, MissingFrom(t, st, k)) == if Missing(t, st, k) then [Error(5, Name(t.entries[k]))] + more else more
  {
    hide Missing;
    var ks := MissingFrom(t, st, k + 1);
    assert [] + ks == ks;
  }

  lemma CheckStep(t: Table, st: State, k: nat)
    requires Shaped(t, st) && k < |t.entries|
    ensures CheckFrom(t, st, k)
            == CheckFrom(t, if Missing(t, st, k) then Report(t, st, Error(5, Name(t.entries[k]))) else st, k + 1)
  {
    hide Report;
  }

  /** Reporting with a cap and capping at the end are the same. */
  lemma ReportIsCapped(t: Table, st: State, error: Error, more: seq<Error>)
    requires |st.errors| <= t.maxErrors
    ensures var r := Report(t, st, error);
            && |r.errors| <= t.maxErrors && r.slots == st.slots
            && Capped(r.errors + more, t.maxErrors) == Capped(st.errors + ([error] + more), t.maxErrors)
  {
    if |st.errors| < t.maxErrors {
      assert st.errors + [error] + more == st.errors + ([error] + more);
    }
  }

  lemma {:induction false} SameMissing(t: Table, a: State, b: State, k: nat)
    requires Shaped(t, a) && Shaped(t, b) && a.slots == b.slots
    ensures MissingFrom(t, a, k) == MissingFrom(t, b, k)
    decreases |t.entries| - k
  {
    if k < |t.entries| {
      SameMissing(t, a, b, k + 1);
    }
  }

  predicate NoCountErrors(st: State) {
    forall i :: 0 <= i < |st.errors| ==> st.errors[i].code != 5
  }

  lemma {:induction false} ShortTokenCounts(t: Table, st: State, arg: string, j: nat, next: Option<string>)
    requires Shaped(t, st) && NoCountErrors(st) && j <= |arg|
    ensures NoCountErrors(ShortToken(t, st, arg, j, next).st)
    decreases |arg| - j
  {
    if j < |arg| {
      var m := MatchShort(t, arg[j], 0);
      if m.None? {
        ShortTokenCounts(t, Report(t, st, Error(1, None)), arg, j + 1, next);
      } else if t.entries[m.value].kind == LIT {
        ShortTokenCounts(t, Scan(t, st, m.value, ""), arg, j + 1, next);
      }
    }
  }

  /** The argument loop itself never reports a count. */
  lemma {:induction false} ArgsReportNoCounts(t: Table, st: State, args: seq<string>)
    requires Shaped(t, st) && NoCountErrors(st)
    ensures NoCountErrors(ParseArgs(t, st, args))
    decreases |args|
  {
    if args != [] {
      TokenCounts(t, st, args[0], Second(args));
      hide ParseToken, NoCountErrors;
      var r := ParseToken(t, st, args[0], Second(args));
      ArgsReportNoCounts(t, r.st, if r.usedNext then args[2..] else args[1..]);
    }
  }

  lemma TokenCounts(t: Table, st: State, arg: string, next: Option<string>)
    requires Shaped(t, st) && NoCountErrors(st)
    ensures NoCountErrors(ParseToken(t, st, arg, next).st)
  {
    hide ShortToken, FirstTaker, MatchLong;
    if IsShort(arg) {
      ShortTokenCounts(t, st, arg, 1, next);
    }
  }

  /** The errors of a parse are those of its arguments, none of them about a count, and then one for each entry that
      occurred too rarely, in the order of the table, as far as there is room. */
  lemma CountErrors(t: Table, args: seq<string>)
    ensures var before, after := ParseArgs(t, Reset(t), args), Parse(t, args);
            && NoCountErrors(before) && after.slots == before.slots
            && after.errors == Capped(before.errors + Reports(t, MissingFrom(t, before, 0)), t.maxErrors)
  {
    hide ParseArgs, MissingFrom;
    ArgsReportNoCounts(t, Reset(t), args);
    ArgsFit(t, Reset(t), args);
    CheckReports(t, ParseArgs(t, Reset(t), args), 0);
  }

  // ----- Too many flags -----

  /** Two slots of an entry that differ at most in how often a flag was given beyond its minimum. */
  predicate SameButOften(entry: Entry, a: Slot, b: Slot) {
    a == b || (entry.kind == LIT && a.values == b.values && a.count >= entry.mincount && b.count >= entry.mincount)
  }

  ghost predicate Alike(t: Table, a: State, b: State) {
    && Shaped(t, a) && Shaped(t, b) && a.errors == b.errors
    && forall e :: 0 <= e < |t.entries| ==> SameButOften(t.entries[e], a.slots[e], b.slots[e])
  }

  lemma AlikeIsShaped(t: Table, a: State, b: State)
    requires Alike(t, a, b)
    ensures Shaped(t, a) && Shaped(t, b)
  {
  }

  lemma ReportAlike(t: Table, a: State, b: State, error: Error)
    requires Alike(t, a, b)
    ensures Alike(t, Report(t, a, error), Report(t, b, error))
  {
  }

  lemma ScanAlike(t: Table, a: State, b: State, e: nat, v: string)
    requires Alike(t, a, b) && e < |t.entries|
    ensures Alike(t, Scan(t, a, e, v), Scan(t, b, e, v))
  {
    assert SameButOften(t.entries[e], a.slots[e], b.slots[e]);
  }

  lemma {:induction false} ShortAlike(t: Table, a: State, b: State, arg: string, j: nat, next: Option<string>)
    requires Alike(t, a, b) && j <= |arg|
    ensures Shaped(t, a) && Shaped(t, b)
    ensures var x, y := ShortToken(t, a, arg, j, next), ShortToken(t, b, arg, j, next);
            x.usedNext == y.usedNext && Alike(t, x.st, y.st)
    decreases |arg| - j
  {
    hide Alike, Scan, Report, MatchShort;
    AlikeIsShaped(t, a, b);
    if j < |arg| {
      var m := MatchShort(t, arg[j], 0);
      if m.None? {
        ReportAlike(t, a, b, Error(1, None));
        ShortAlike(t, Report(t, a, Error(1, None)), Report(t, b, Error(1, None)), arg, j + 1, next);
      } else if t.entries[m.value].kind == LIT {
        ScanAlike(t, a, b, m.value, "");
        ShortAlike(t, Scan(t, a, m.value, ""), Scan(t, b, m.value, ""), arg, j + 1, next);
      } else {
        ScanAlike(t, a, b, m.value, if j + 1 < |arg| then arg[j + 1..] else if next.Some? then next.value else "");
        ReportAlike(t, a, b, Error(2, Some(arg)));
      }
    }
  }

  lemma LongAlike(t: Table, a: State, b: State, arg: string, next: Option<string>)
    requires Alike(t, a, b) && IsLong(arg)
    ensures Shaped(t, a) && Shaped(t, b)
    ensures var x, y := LongToken(t, a, arg, next), LongToken(t, b, arg, next);
            x.usedNext == y.usedNext && Alike(t, x.st, y.st)
  {
    hide Alike, Scan, Report, MatchLong;
    AlikeIsShaped(t, a, b);
    var m := MatchLong(t, arg[2..], 0);
    ReportAlike(t, a, b, Error(1, Some(arg)));
    ReportAlike(t, a, b, Error(2, Some(arg)));
    if m.Some? {
      ScanAlike(t, a, b, m.value.0, "");
      ScanAlike(t, a, b, m.value.0, if m.value.1.Some? then m.value.1.value else if next.Some? then next.value else "");
    }
  }

  lemma {:induction false} TakerAlike(t: Table, a: State, b: State, k: nat)
    requires Alike(t, a, b)
    ensures Shaped(t, a) && Shaped(t, b) && FirstTaker(t, a, k) == FirstTaker(t, b, k)
    decreases |t.entries| - k
  {
    if k < |t.entries| {
      assert SameButOften(t.entries[k], a.slots[k], b.slots[k]);
      TakerAlike(t, a, b, k + 1);
    }
  }

  lemma TokenAlike(t: Table, a: State, b: State, arg: string, next: Option<string>)
    requires Alike(t, a, b)
    ensures Shaped(t, a) && Shaped(t, b)
    ensures var x, y := ParseToken(t, a, arg, next), ParseToken(t, b, arg, next);
            x.usedNext == y.usedNext && Alike(t, x.st, y.st)
  {
    hide Alike, LongToken, ShortToken, Scan, Report, FirstTaker;
    AlikeIsShaped(t, a, b);
    if IsLong(arg) {
      LongAlike(t, a, b, arg, next);
    } else if IsShort(arg) {
      ShortAlike(t, a, b, arg, 1, next);
    } else {
      TakerAlike(t, a, b, 0);
      ReportAlike(t, a, b, Error(4, Some(arg)));
      if FirstTaker(t, a, 0).Some? {
        ScanAlike(t, a, b, FirstTaker(t, a, 0).value, arg);
      }
    }
  }

  lemma {:induction false} ArgsAlike(t: Table, a: State, b: State, args: seq<string>)
    requires Alike(t, a, b)
    ensures Shaped(t, a) && Shaped(t, b) && Alike(t, ParseArgs(t, a, args), ParseArgs(t, b, args))
    decreases |args|
  {
    hide Alike, ParseToken;
    AlikeIsShaped(t, a, b);
    if args != [] {
      TokenAlike(t, a, b, args[0], Second(args));
      var x, y := ParseToken(t, a, args[0], Second(args)), ParseToken(t, b, args[0], Second(args));
      ArgsAlike(t, x.st, y.st, if x.usedNext then args[2..] else args[1..]);
    }
  }

  lemma {:induction false} CheckAlike(t: Table, a: State, b: State, k: nat)
    requires Alike(t, a, b)
    ensures Shaped(t, a) && Shaped(t, b) && CheckFrom(t, a, k).errors == CheckFrom(t, b, k).errors
    decreases |t.entries| - k
  {
    if k < |t.entries| {
      assert SameButOften(t.entries[k], a.slots[k], b.slots[k]);
      var error := Error(5, Name(t.entries[k]));
      ReportAlike(t, a, b, error);
      hide Alike, Report;
      if Missing(t, a, k) {
        CheckAlike(t, Report(t, a, error), Report(t, b, error), k + 1);
      } else {
        CheckAlike(t, a, b, k + 1);
      }
    }
  }

  /** Once a flag has been given as often as it must, giving it again changes no error of the parse, however often and
      whatever follows: a maximum that is exceeded is never reported. */
  lemma ExtraFlagIsSilent(t: Table, st: State, e: nat, rest: seq<string>)
    requires Shaped(t, st) && e < |t.entries| && t.entries[e].kind == LIT && st.slots[e].count >= t.entries[e].mincount
    ensures CheckFrom(t, ParseArgs(t, Scan(t, st, e, ""), rest), 0).errors == CheckFrom(t, ParseArgs(t, st, rest), 0).errors
  {
    hide ParseArgs, CheckFrom;
    ArgsAlike(t, Scan(t, st, e, ""), st, rest);
    CheckAlike(t, ParseArgs(t, Scan(t, st, e, ""), rest), ParseArgs(t, st, rest), 0);
  }

  /** A flag that may be given once, given twice: counted twice, and no error. */
  lemma TwiceIsNotReported(toInt: string -> Option<int>)
    ensures var t := Table([Entry(LIT, Some("v"), None, 0, 1)], 20, toInt);
            Parse(t, ["-v", "-v"]) == State([Slot(2, [])], [])
  {
    hide ParseArgs;
    var t := Table([Entry(LIT, Some("v"), None, 0, 1)], 20, toInt);
    assert Reset(t) == State([Slot(0, [])], []);
    OneFlag(t, Reset(t), ["-v", "-v"]);
    assert ["-v", "-v"][1..] == ["-v"] && ["-v"][1..] == [];
    OneFlag(t, State([Slot(1, [])], []), ["-v"]);
    NoArguments(t, State([Slot(2, [])], []));
    var st := State([Slot(2, [])], []);
    assert CheckFrom(t, st, 1) == st;
    assert !Missing(t, st, 0);
    CheckStep(t, st, 0);
  }

  lemma OneFlag(t: Table, st: State, args: seq<string>)
    requires t.entries == [Entry(LIT, Some("v"), None, 0, 1)] && Shaped(t, st) && args != [] && args[0] == "-v"
    ensures ParseArgs(t, st, args) == ParseArgs(t, State([Slot(st.slots[0].count + 1, st.slots[0].values)], st.errors), args[1..])
  {
    var arg := "-v";
    var next := State([Slot(st.slots[0].count + 1, st.slots[0].values)], st.errors);
    assert MatchShort(t, 'v', 0) == Some(0);
    assert Scan(t, st, 0, "") == next;
    assert ShortToken(t, st, arg, 1, Second(args)) == ShortToken(t, next, arg, 2, Second(args)) == Outcome(next, false);
  }
}
