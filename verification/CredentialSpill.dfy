/**
 * Lines whose path does not fit the file format: the entry is still read back with its
 * protocol, host, user name and password, its path is cut, and what is left of the line
 * may be read as further entries.
 */
module CredentialSpill {
  import opened Prelude
  import opened Base64
  import opened CredentialFile

  /** A stored line up to its password. */
  function FrontLine(c: Credential): string
    requires IsBytes(Str(c.password))
  {
    PrintFields(c, [])
  }

  /** The part of `Storable` that does not look at the path. */
  predicate FrontStorable(c: Credential)
    requires IsCStrings(c)
  {
    && Plain(Str(c.protocol)) && Plain(Str(c.host)) && Plain(Str(c.username))
    && (Str(c.protocol) == [] || Str(c.protocol)[0] != '#')
    && |FrontLine(c)| < BUFFER
  }

  /** The line as it is written. */
  function WholeLine(c: Credential): string
    requires IsBytes(Str(c.password))
  {
    PrintLine(c) + ['\n']
  }

  /** How much of the line the first read takes. */
  function FirstRead(c: Credential): (n: nat)
    requires IsBytes(Str(c.password))
    ensures n <= |WholeLine(c)|
  {
    FgetsLength(WholeLine(c))
  }

  /** The path that comes back: up to the end of the first read, a line feed or a carriage return. */
  function PathRead(c: Credential): string
    requires IsBytes(Str(c.password))
  {
    var k := |FrontLine(c)| + 1;
    if k <= FirstRead(c) then Until(Until(WholeLine(c)[k..FirstRead(c)], '\n'), '\r') else []
  }

  /** The entry that comes back. */
  function ReadBack(c: Credential): Credential
    requires IsBytes(Str(c.password))
  {
    Norm(c).(path := Field(PathRead(c)))
  }

  /** The entries that the rest of the line is read as. */
  function Spill(c: Credential): seq<Credential>
    requires IsBytes(Str(c.password))
  {
    Load(WholeLine(c)[FirstRead(c)..])
  }

  // ----- Reading up to a line end -----

  /** Text that ends with a line end is read independently of what follows. */
  lemma {:induction false} BuffersOfEnded(a: string, rest: string)
    requires a == [] || a[|a| - 1] == '\n'
    ensures Buffers(a + rest) == Buffers(a) + Buffers(rest)
    decreases |a|
  {
    hide FgetsLength, Until;
    if a == [] {
      assert a + rest == rest && [] + Buffers(rest) == Buffers(rest);
    } else {
      hide Buffers;
      var n := FgetsLength(a);
      FirstBuffers(a, rest);
      BuffersOfEnded(a[n..], rest);
      assert [a[..n]] + (Buffers(a[n..]) + Buffers(rest)) == [a[..n]] + Buffers(a[n..]) + Buffers(rest);
    }
  }

  lemma FirstBuffers(a: string, rest: string)
    requires a != [] && a[|a| - 1] == '\n'
    ensures var n := FgetsLength(a);
            Buffers(a) == [a[..n]] + Buffers(a[n..]) && Buffers(a + rest) == [a[..n]] + Buffers(a[n..] + rest)
  {
    EndsInside(a, rest);
    hide FgetsLength, Until;
    var n := FgetsLength(a);
    assert (a + rest)[..n] == a[..n] && (a + rest)[n..] == a[n..] + rest;
  }

  lemma EndsInside(a: string, rest: string)
    requires a != [] && a[|a| - 1] == '\n'
    ensures FgetsLength(a + rest) == FgetsLength(a)
  {
    UntilIsPrefix(a, '\n');
    var t := Until(a, '\n');
    assert '\n' in a;
    assert t != a;
    UntilOfConcat(t, '\n', a[|t| + 1..] + rest);
    assert a + rest == t + ['\n'] + (a[|t| + 1..] + rest);
  }

  lemma {:induction false} ParseAllOfConcat(a: seq<string>, b: seq<string>)
    ensures ParseAll(a + b) == ParseAll(a) + ParseAll(b)
  {
    if a == [] {
      assert a + b == b;
    } else {
      assert (a + b)[1..] == a[1..] + b;
      ParseAllOfConcat(a[1..], b);
    }
  }

  lemma LoadOfEnded(a: string, rest: string)
    requires a == [] || a[|a| - 1] == '\n'
    ensures Load(a + rest) == Load(a) + Load(rest)
  {
    BuffersOfEnded(a, rest);
    ParseAllOfConcat(Buffers(a), Buffers(rest));
  }

  // ----- The first read of a line -----

  lemma FrontParts(c: Credential)
    requires IsCStrings(c) && FrontStorable(c)
    ensures WholeLine(c) == FrontLine(c) + ['\t'] + (Str(c.path) + ['\n'])
    ensures Clean(FrontLine(c)) && FrontLine(c) != [] && FrontLine(c)[0] != '#' && |FrontLine(c)| < BUFFER
  {
    FrontIsClean(c);
    hide FrontLine, PrintFields, FrontStorable;
    PrintedFront(c, ['\t'] + Str(c.path));
    assert FrontLine(c) + (['\t'] + Str(c.path)) + ['\n'] == FrontLine(c) + ['\t'] + (Str(c.path) + ['\n']);
  }

  lemma FrontIsClean(c: Credential)
    requires IsCStrings(c) && FrontStorable(c)
    ensures Clean(FrontLine(c)) && FrontLine(c) != [] && FrontLine(c)[0] != '#'
  {
    hide Encode, Norm;
    EncodedIsPlain(Str(c.password));
    EncodedIsBytes(Str(c.password));
    var e := Encode(Str(c.password)) + [];
    CleanParts(Str(c.username), e);
    CleanParts(Str(c.host), Str(c.username) + ['\t'] + e);
    CleanParts(Str(c.protocol), Str(c.host) + ['\t'] + (Str(c.username) + ['\t'] + e));
    assert FrontLine(c)[0] == if Str(c.protocol) == [] then '\t' else Str(c.protocol)[0];
  }

  lemma CleanParts(a: string, b: string)
    requires IsCString(a) && Plain(a) && Clean(b)
    ensures Clean(a + ['\t'] + b)
  {
  }

  lemma FirstReadHoldsFront(c: Credential)
    requires IsCStrings(c) && FrontStorable(c)
    ensures |FrontLine(c)| <= FirstRead(c)
  {
    hide FrontLine, PrintLine, WholeLine, FgetsLength, FrontStorable, Encode;
    FrontParts(c);
    var rest := ['\t'] + (Str(c.path) + ['\n']);
    FgetsAtLeast(FrontLine(c), rest);
    assert WholeLine(c) == FrontLine(c) + rest;
  }

  lemma FgetsAtLeast(a: string, b: string)
    requires '\n' !in a && |a| < BUFFER && b != []
    ensures FgetsLength(a + b) >= |a|
  {
    UntilAtLeast(a, b);
  }

  /** Cutting behind a prefix that lacks the character. */
  lemma {:induction false} UntilBehind(a: string, s: string, c: char)
    requires c !in a
    ensures Until(a + s, c) == a + Until(s, c)
  {
    if a == [] {
      assert a + s == s;
    } else {
      assert (a + s)[1..] == a[1..] + s;
      UntilBehind(a[1..], s, c);
    }
  }

  lemma StripBehind(front: string, s: string)
    requires Clean(front) && '\0' !in s
    ensures Strip(front + s) == front + Until(Until(s, '\n'), '\r')
  {
    UntilBehind(front, s, '\0');
    UntilWithout(s, '\0');
    UntilBehind(front, s, '\n');
    UntilBehind(front, Until(s, '\n'), '\r');
  }

  lemma {:induction false} UntilWithout(s: string, c: char)
    requires c !in s
    ensures Until(s, c) == s
  {
    if s != [] {
      UntilWithout(s[1..], c);
    }
  }

  /** The first read parses as the entry with its path cut. */
  lemma FirstReadParses(c: Credential)
    requires IsCStrings(c) && FrontStorable(c)
    ensures ParseLine(WholeLine(c)[..FirstRead(c)]) == Some(ReadBack(c))
  {
    hide FrontStorable, FrontLine, FirstRead, Norm, WholeLine, ParseLine, Until;
    FrontParts(c);
    FirstReadHoldsFront(c);
    var front, n := FrontLine(c), FirstRead(c);
    if n == |front| {
      assert WholeLine(c)[..n] == front;
      FrontAlone(c);
    } else {
      var tail := WholeLine(c)[|front| + 1..n];
      assert WholeLine(c)[..n] == front + ['\t'] + tail;
      TailIsText(c, n);
      FrontWithTail(c, tail);
    }
  }

  lemma FrontAlone(c: Credential)
    requires IsCStrings(c) && FrontStorable(c)
    ensures ParseLine(FrontLine(c)) == Some(Norm(c).(path := Field([])))
  {
    hide FrontStorable, FrontLine, Norm, Strip, ParseFields, PrintLine, ParseLine;
    FrontParts(c);
    var front := FrontLine(c);
    assert front + [] == front;
    StripBehind(front, []);
    FrontAsFields(c, None);
    ParseLineOfStripped(front, front);
  }

  lemma FrontWithTail(c: Credential, tail: string)
    requires IsCStrings(c) && FrontStorable(c) && '\0' !in tail
    ensures ParseLine(FrontLine(c) + ['\t'] + tail) == Some(Norm(c).(path := Field(Until(Until(tail, '\n'), '\r'))))
  {
    hide FrontStorable, FrontLine, Norm, Strip, ParseFields, PrintLine, ParseLine, Until;
    FrontParts(c);
    var front := FrontLine(c);
    var path := Until(Until(tail, '\n'), '\r');
    StripBehind(front + ['\t'], tail);
    FrontAsFields(c, Some(path));
    ParseLineOfStripped(front + ['\t'] + tail, front + ['\t'] + path);
  }

  lemma ParseLineOfStripped(buf: string, line: string)
    requires Strip(buf) == line && line != [] && line[0] != '#'
    ensures ParseLine(buf) == ParseFields(line)
  {
    hide Strip, ParseFields;
  }

  lemma TailIsText(c: Credential, n: nat)
    requires IsCStrings(c) && FrontStorable(c) && |FrontLine(c)| + 1 <= n <= |WholeLine(c)|
    ensures '\0' !in WholeLine(c)[|FrontLine(c)| + 1..n]
  {
    FrontParts(c);
    hide FrontLine;
    var tail := WholeLine(c)[|FrontLine(c)| + 1..n];
    assert forall i :: 0 <= i < |tail| ==> tail[i] == (Str(c.path) + ['\n'])[i];
  }

  /** The front of a line with a path of its own. */
  lemma FrontAsFields(c: Credential, path: Option<string>)
    requires IsCStrings(c) && FrontStorable(c)
    ensures ParseFields(FrontLine(c) + (if path.Some? then ['\t'] + path.value else [])) == Some(Norm(c).(path := Field(Str(path))))
    ensures path.Some? ==> FrontLine(c) + ['\t'] + path.value == FrontLine(c) + (['\t'] + path.value)
  {
    hide FrontLine, ParseFields, Norm;
    PrintedFront(c, if path.Some? then ['\t'] + path.value else []);
    ParseOfPath(c, path);
  }

  lemma PrintedFront(c: Credential, ending: string)
    requires IsBytes(Str(c.password))
    ensures FrontLine(c) + ending == PrintFields(c, ending)
  {
    hide Encode;
    var e := Encode(Str(c.password));
    var u, h, p := Str(c.username) + ['\t'], Str(c.host) + ['\t'], Str(c.protocol) + ['\t'];
    assert e + [] + ending == e + ending;
    assert u + (e + []) + ending == u + (e + ending);
    assert h + (u + (e + [])) + ending == h + (u + (e + ending));
    assert p + (h + (u + (e + []))) + ending == p + (h + (u + (e + ending)));
  }

  // ----- What comes back of a line -----

  /** A stored line comes back as its entry, with its path cut, and whatever spills. */
  lemma LoadFront(c: Credential, rest: string)
    requires IsCStrings(c) && FrontStorable(c)
    ensures Load(WholeLine(c) + rest) == [ReadBack(c)] + Spill(c) + Load(rest)
  {
    FirstReadParses(c);
    hide IsCStrings, FrontStorable, ParseLine, ReadBack, PrintLine;
    var line, n := WholeLine(c), FirstRead(c);
    LoadOfEnded(line, rest);
    ParseAllStep(line[..n], Buffers(line[n..]));
    assert Buffers(line) == [line[..n]] + Buffers(line[n..]);
  }

  lemma SpillIsLoaded(c: Credential)
    requires IsCStrings(c)
    ensures AllLoaded(Spill(c))
  {
    LineIsBytes(c);
    var line := WholeLine(c);
    assert forall i :: 0 <= i < |line[FirstRead(c)..]| ==> line[FirstRead(c)..][i] == line[FirstRead(c) + i];
    LoadedAreStorable(line[FirstRead(c)..]);
  }

  lemma StorableHasFront(c: Credential)
    requires IsCStrings(c) && Storable(c)
    ensures FrontStorable(c)
  {
    PrintedFront(c, if Str(c.path) == [] then [] else ['\t'] + Str(c.path));
  }

  /** A storable entry comes back whole, and nothing spills. */
  lemma NothingSpills(c: Credential)
    requires IsCStrings(c) && Storable(c)
    ensures ReadBack(c) == Norm(c) && Spill(c) == []
  {
    StorableHasFront(c);
    hide Storable, FrontStorable, IsCStrings, ReadBack, Spill, Norm, Load, PrintLine;
    LoadFront(c, []);
    LoadEntry(c, []);
    LoadNothing();
    assert WholeLine(c) + [] == PrintLine(c) + ['\n'] + [];
    var loaded := Load(WholeLine(c) + []);
    assert loaded == [ReadBack(c)] + Spill(c) + [] == [Norm(c)] + [];
    assert loaded[0] == ReadBack(c) == Norm(c) && |loaded| == 1 + |Spill(c)| == 1;
  }

  lemma ReadsUpToBreak(c: Credential, head: string, tail: string)
    requires IsBytes(Str(c.password)) && WholeLine(c) == head + ['\n'] + tail && '\n' !in head && |head| + 1 < BUFFER
    ensures FirstRead(c) == |head| + 1 && WholeLine(c)[|head| + 1..] == tail
  {
    hide WholeLine;
    UntilOfConcat(head, '\n', tail);
  }

  /** A line break in a path makes the rest of the path an entry of its own. */
  lemma LineBreakAddsAnEntry(c: Credential, start: string, d: Credential)
    requires IsCStrings(c) && FrontStorable(c) && IsCStrings(d) && Storable(d)
    requires Str(c.path) == start + ['\n'] + PrintLine(d) && '\n' !in start && |FrontLine(c)| + |start| + 2 < BUFFER
    ensures Spill(c) == [Norm(d)]
  {
    FrontParts(c);
    hide Storable, FrontStorable, IsCStrings, FrontLine, Norm, Load, PrintLine, WholeLine;
    var head := FrontLine(c) + ['\t'] + start;
    var tail := PrintLine(d) + ['\n'];
    assert WholeLine(c) == head + ['\n'] + tail;
    ReadsUpToBreak(c, head, tail);
    LoadEntry(d, []);
    LoadNothing();
    assert tail + [] == tail && [Norm(d)] + [] == [Norm(d)];
  }
}
