/**
 * The text of the credential store: one tab-separated line per credential, read
 * back through a 4096-byte buffer. Strings are C strings, that is NUL-free bytes.
 */
module CredentialFile {
  import opened Prelude
  import opened Base64

  datatype Credential = Credential(
    protocol: Option<string>,
    host: Option<string>,
    username: Option<string>,
    password: Option<string>,
    path: Option<string>)

  /** A null pointer prints as the empty string. */
  function Str(field: Option<string>): string {
    if field.Some? then field.value else []
  }

  /** A token of the file becomes a null pointer when it is empty. */
  function Field(token: string): Option<string> {
    if token == [] then None else Some(token)
  }

  // ----- Cutting strings -----

  /** The part of `s` before the first `c`, as `strchr` and a terminator leave it. */
  function Until(s: string, c: char): (r: string)
    ensures |r| <= |s| && c !in r
    ensures forall x <- r :: x in s
  {
    if s == [] || s[0] == c then [] else [s[0]] + Until(s[1..], c)
  }

  /** `strsep`: the token before the first `c`, and what follows that `c` if there is one. */
  function Cut(s: string, c: char): (r: (string, Option<string>))
    ensures r.0 == Until(s, c)
    ensures s == r.0 + (if r.1.Some? then [c] + r.1.value else [])
  {
    var token := Until(s, c);
    UntilIsPrefix(s, c);
    (token, if |token| < |s| then Some(s[|token| + 1..]) else None)
  }

  lemma {:induction false} UntilIsPrefix(s: string, c: char)
    ensures var t := Until(s, c);
            t <= s && (|t| < |s| ==> s[|t|] == c)
  {
    if s != [] && s[0] != c {
      UntilIsPrefix(s[1..], c);
    }
  }

  lemma {:induction false} UntilOfConcat(a: string, c: char, b: string)
    requires c !in a
    ensures Until(a + [c] + b, c) == a && Until(a, c) == a
  {
    if a != [] {
      UntilOfConcat(a[1..], c, b);
      assert (a + [c] + b)[1..] == a[1..] + [c] + b;
    }
  }

  lemma CutOfConcat(a: string, c: char, b: string)
    requires c !in a
    ensures Cut(a + [c] + b, c) == (a, Some(b))
  {
    UntilOfConcat(a, c, b);
    assert (a + [c] + b)[|a| + 1..] == b;
  }

  // ----- One line -----

  /** The fields of a stored line, up to `ending`. */
  function PrintFields(c: Credential, ending: string): string
    requires IsBytes(Str(c.password))
  {
    Str(c.protocol) + ['\t'] + (Str(c.host) + ['\t'] + (Str(c.username) + ['\t'] + (Encode(Str(c.password)) + ending)))
  }

  /** A stored line without its newline. */
  function PrintLine(c: Credential): string
    requires IsBytes(Str(c.password))
  {
    PrintFields(c, ['\t'] + Str(c.path))
  }

  /** A stored line without its newline and, if the path is empty, without the tab before the path. */
  function TrimmedLine(c: Credential): string
    requires IsBytes(Str(c.password))
  {
    PrintFields(c, if Str(c.path) == [] then [] else ['\t'] + Str(c.path))
  }

  /** The C string in a buffer, cut at its newline and its carriage return. */
  function Strip(buf: string): string {
    Until(Until(Until(buf, '\0'), '\n'), '\r')
  }

  /** `parse_line` */
  function ParseLine(buf: string): Option<Credential> {
    var line := Strip(buf);
    if line == [] || line[0] == '#' then None else ParseFields(line)
  }

  function ParseFields(line: string): Option<Credential> {
    var (protocol, afterProtocol) := Cut(line, '\t');
    if afterProtocol.None? then None else
    var (host, afterHost) := Cut(afterProtocol.value, '\t');
    if afterHost.None? then None else
    var (username, afterUsername) := Cut(afterHost.value, '\t');
    if afterUsername.None? then None else
    var (password, path) := Cut(afterUsername.value, '\t');
    Some(Credential(
           Field(protocol), Field(host), Field(username),
           if password == [] then None else Some(Until(Decode(password), '\0')),
           Field(Str(path))))
  }

  /** The credential that is the same up to empty strings standing for null. */
  function Norm(c: Credential): Credential {
    Credential(Field(Str(c.protocol)), Field(Str(c.host)), Field(Str(c.username)), Field(Str(c.password)), Field(Str(c.path)))
  }

  predicate IsCStrings(c: Credential) {
    && IsCString(Str(c.protocol)) && IsCString(Str(c.host)) && IsCString(Str(c.username))
    && IsCString(Str(c.password)) && IsCString(Str(c.path))
  }

  const BUFFER: nat := 4096

  predicate Plain(s: string) {
    '\t' !in s && '\r' !in s && '\n' !in s
  }

  /** The exact condition under which a credential survives being written and read back. */
  predicate Storable(c: Credential)
    requires IsCStrings(c)
  {
    && Plain(Str(c.protocol)) && Plain(Str(c.host)) && Plain(Str(c.username))
    && '\r' !in Str(c.path) && '\n' !in Str(c.path)
    && (Str(c.protocol) == [] || Str(c.protocol)[0] != '#')
    && |TrimmedLine(c)| < BUFFER
  }

  // ----- Printing and parsing one line -----

  lemma EncodedIsPlain(s: string)
    requires IsCString(s)
    ensures Plain(Encode(s)) && '\0' !in Encode(s)
    ensures Encode(s) == [] <==> s == []
    ensures Until(Decode(Encode(s)), '\0') == s
  {
    assert DigitValue('\t') < 0 && DigitValue('\r') < 0 && DigitValue('\n') < 0 && DigitValue('\0') < 0;
    EncodeUsesAlphabet(s);
    EncodeLength(s);
    RoundTrip(s);
    UntilOfConcat(s, '\0', []);
  }

  /** The fields of a line, with any path behind them or none. */
  lemma ParseOfPath(c: Credential, path: Option<string>)
    requires IsCStrings(c) && Plain(Str(c.protocol)) && Plain(Str(c.host)) && Plain(Str(c.username))
    ensures ParseFields(PrintFields(c, if path.Some? then ['\t'] + path.value else []))
            == Some(Norm(c).(path := Field(Str(path))))
  {
    var ending := if path.Some? then ['\t'] + path.value else [];
    var password := Encode(Str(c.password));
    EncodedIsPlain(Str(c.password));
    hide Encode, Cut, Until, Decode;
    CutLast(password, path);
    var r3 := password + ending;
    var r2 := Str(c.username) + ['\t'] + r3;
    var r1 := Str(c.host) + ['\t'] + r2;
    CutOfConcat(Str(c.protocol), '\t', r1);
    CutOfConcat(Str(c.host), '\t', r2);
    CutOfConcat(Str(c.username), '\t', r3);
  }

  /** The last token of a line, with another one behind it or none. */
  lemma CutLast(token: string, more: Option<string>)
    requires '\t' !in token
    ensures Cut(token + (if more.Some? then ['\t'] + more.value else []), '\t') == (token, more)
  {
    if more.None? {
      UntilOfConcat(token, '\t', []);
      assert token + [] == token;
    } else {
      CutOfConcat(token, '\t', more.value);
      assert token + (['\t'] + more.value) == token + ['\t'] + more.value;
    }
  }

  lemma ParseOfPrint(c: Credential, ending: string)
    requires IsCStrings(c) && Plain(Str(c.protocol)) && Plain(Str(c.host)) && Plain(Str(c.username))
    requires ending == ['\t'] + Str(c.path) || (ending == [] && Str(c.path) == [])
    ensures ParseFields(PrintFields(c, ending)) == Some(Norm(c))
  {
    hide ParseFields, PrintFields;
    ParseOfPath(c, if ending == [] then None else Some(Str(c.path)));
  }

  /** A line with no NUL, CR or LF is what a buffer holding it, with or without a newline behind it, parses as. */
  lemma StripOfLine(line: string)
    requires '\0' !in line && '\r' !in line && '\n' !in line
    ensures Strip(line) == line && Strip(line + ['\n']) == line
  {
    UntilOfConcat(line, '\0', []);
    UntilOfConcat(line, '\n', []);
    UntilOfConcat(line, '\r', []);
    assert line + ['\n'] + [] == line + ['\n'];
    UntilOfConcat(line + ['\n'], '\0', []);
  }

  lemma ParseLineOfPrint(c: Credential, ending: string, newline: string)
    requires IsCStrings(c) && Storable(c)
    requires ending == ['\t'] + Str(c.path) || (ending == [] && Str(c.path) == [])
    requires newline == [] || newline == ['\n']
    ensures ParseLine(PrintFields(c, ending) + newline) == Some(Norm(c))
    ensures '\n' !in PrintFields(c, ending)
  {
    hide ParseFields, Norm, Encode, TrimmedLine, IsBytes;
    var line := PrintFields(c, ending);
    EncodedIsPlain(Str(c.password));
    StripOfLine(line);
    assert line + [] == line;
    ParseOfPrint(c, ending);
    assert line[0] == if Str(c.protocol) == [] then '\t' else Str(c.protocol)[0];
  }

  // ----- What parsing can yield -----

  predicate Clean(s: string) {
    IsCString(s) && '\r' !in s && '\n' !in s
  }

  lemma CutClean(s: string)
    requires Clean(s)
    ensures var (token, rest) := Cut(s, '\t');
            && Clean(token) && Plain(token)
            && (rest.None? ==> |s| == |token|)
            && (rest.Some? ==> Clean(rest.value) && |s| == |token| + 1 + |rest.value|)
  {
    var (token, rest) := Cut(s, '\t');
    assert forall i :: 0 <= i < |token| ==> token[i] == s[i];
    if rest.Some? {
      assert forall i :: 0 <= i < |rest.value| ==> rest.value[i] == s[|token| + 1 + i];
    }
  }

  lemma UntilClean(s: string, c: char)
    requires IsBytes(s)
    ensures IsBytes(Until(s, c)) && |Until(s, c)| <= |s|
  {
    UntilIsPrefix(s, c);
    assert forall i :: 0 <= i < |Until(s, c)| ==> Until(s, c)[i] == s[i];
  }

  lemma StripClean(buf: string)
    requires IsBytes(buf)
    ensures Clean(Strip(buf)) && |Strip(buf)| <= |buf|
  {
    UntilClean(buf, '\0');
    UntilClean(Until(buf, '\0'), '\n');
    UntilClean(Until(Until(buf, '\0'), '\n'), '\r');
  }

  lemma PasswordShrinks(token: string)
    ensures var p := Until(Decode(token), '\0');
            IsCString(p) && |Encode(p)| <= |token|
  {
    var p := Until(Decode(token), '\0');
    UntilClean(Decode(token), '\0');
    EncodeLength(p);
    DecodeLength(token);
    var groups := |token| / 4;
    assert |p| <= groups * 3;
    assert (|p| + 2) / 3 <= groups;
  }

  /** A parsed credential is storable, and normal but for a password that may be empty without being null. */
  lemma ParsedIsStorable(buf: string)
    requires IsBytes(buf) && |buf| < BUFFER && ParseLine(buf).Some?
    ensures var c := ParseLine(buf).value;
            && IsCStrings(c) && Storable(c)
            && c == Norm(c).(password := c.password)
  {
    StripClean(buf);
    var line := Strip(buf);
    FieldsAreStorable(line);
    var (protocol, _) := Cut(line, '\t');
    assert protocol != [] ==> line[0] == protocol[0];
  }

  lemma FieldsAreStorable(line: string)
    requires Clean(line) && ParseFields(line).Some?
    ensures var c := ParseFields(line).value;
            && IsCStrings(c)
            && Plain(Str(c.protocol)) && Plain(Str(c.host)) && Plain(Str(c.username))
            && '\r' !in Str(c.path) && '\n' !in Str(c.path)
            && |TrimmedLine(c)| <= |line|
            && c == Norm(c).(password := c.password)
            && Str(c.protocol) == Cut(line, '\t').0
  {
    hide Cut, Until, Encode, Decode;
    CutClean(line);
    var (protocol, afterProtocol) := Cut(line, '\t');
    CutClean(afterProtocol.value);
    var (host, afterHost) := Cut(afterProtocol.value, '\t');
    CutClean(afterHost.value);
    var (username, afterUsername) := Cut(afterHost.value, '\t');
    CutClean(afterUsername.value);
    var (password, path) := Cut(afterUsername.value, '\t');
    PasswordShrinks(password);
    var c := ParseFields(line).value;
    EncodeLength([]);
    assert |Encode(Str(c.password))| <= |password|;
    var ending := if Str(c.path) == [] then [] else ['\t'] + Str(c.path);
    assert |TrimmedLine(c)| == |protocol| + 1 + |host| + 1 + |username| + 1 + |Encode(Str(c.password))| + |ending|;
  }

  // ----- The whole file -----

  /** The comment line; its dash is three bytes of UTF-8. */
  function Header(): string {
    "# git-credential-helper store " + ['\U{E2}', '\U{80}', '\U{94}'] + " do not edit manually"
  }

  predicate AllCStrings(cs: seq<Credential>) {
    cs == [] || (IsCStrings(cs[0]) && AllCStrings(cs[1..]))
  }

  predicate AllStorable(cs: seq<Credential>)
    requires AllCStrings(cs)
  {
    cs == [] || (Storable(cs[0]) && AllStorable(cs[1..]))
  }

  function Lines(cs: seq<Credential>): string
    requires AllCStrings(cs)
  {
    if cs == [] then [] else PrintLine(cs[0]) + ['\n'] + Lines(cs[1..])
  }

  /** What `save_all` writes. */
  function Save(cs: seq<Credential>): string
    requires AllCStrings(cs)
  {
    Header() + ['\n'] + Lines(cs)
  }

  /** How many bytes `fgets` takes: a line with its newline, but never more than the buffer holds. */
  function FgetsLength(file: string): (n: nat)
    requires file != []
    ensures 0 < n <= |file| && n < BUFFER
  {
    var line := |Until(file, '\n')|;
    var n := if line < |file| then line + 1 else line;
    if n < BUFFER then n else BUFFER - 1
  }

  /** The successive contents of the buffer. */
  function Buffers(file: string): seq<string>
    decreases |file|
  {
    if file == [] then [] else [file[..FgetsLength(file)]] + Buffers(file[FgetsLength(file)..])
  }

  /** The credentials parsed from some buffers; a buffer that does not parse is skipped. */
  function ParseAll(bufs: seq<string>): seq<Credential> {
    if bufs == [] then [] else AsSeq(ParseLine(bufs[0])) + ParseAll(bufs[1..])
  }

  function AsSeq(c: Option<Credential>): seq<Credential> {
    if c.Some? then [c.value] else []
  }

  /** `load_all`, on the text of the file */
  function Load(file: string): seq<Credential> {
    ParseAll(Buffers(file))
  }

  function NormAll(cs: seq<Credential>): seq<Credential> {
    seq(|cs|, i requires 0 <= i < |cs| => Norm(cs[i]))
  }

  lemma BuffersStep(buf: string, rest: string)
    requires buf != [] && |buf| < BUFFER
    requires (buf[|buf| - 1] == '\n' && '\n' !in buf[..|buf| - 1]) || (|buf| == BUFFER - 1 && '\n' !in buf)
    ensures Buffers(buf + rest) == [buf] + Buffers(rest)
  {
    var file := buf + rest;
    if buf[|buf| - 1] == '\n' {
      var line := buf[..|buf| - 1];
      UntilOfConcat(line, '\n', rest);
      assert file == line + ['\n'] + rest;
    } else {
      UntilAtLeast(buf, rest);
    }
    assert file[..|buf|] == buf && file[|buf|..] == rest;
  }

  lemma {:induction false} UntilAtLeast(a: string, b: string)
    requires '\n' !in a
    ensures |Until(a + b, '\n')| >= |a|
  {
    if a != [] {
      UntilAtLeast(a[1..], b);
      assert (a + b)[1..] == a[1..] + b;
    }
  }

  lemma BuffersOfShortLine(line: string, rest: string)
    requires |line| + 1 < BUFFER && '\n' !in line
    ensures Buffers(line + ['\n'] + rest) == [line + ['\n']] + Buffers(rest)
  {
    BuffersStep(line + ['\n'], rest);
  }

  /** A line that fills the buffer leaves its newline to the next read. */
  lemma BuffersOfFullLine(line: string, rest: string)
    requires |line| + 1 == BUFFER && '\n' !in line
    ensures Buffers(line + ['\n'] + rest) == [line] + ([['\n']] + Buffers(rest))
  {
    assert line + ['\n'] + rest == line + (['\n'] + rest);
    BuffersStep(line, ['\n'] + rest);
    BuffersStep(['\n'], rest);
  }

  lemma ParseAllStep(buf: string, bufs: seq<string>)
    ensures ParseAll([buf] + bufs) == AsSeq(ParseLine(buf)) + ParseAll(bufs)
  {
    assert ([buf] + bufs)[1..] == bufs;
  }

  lemma LoadBuffer(buf: string, rest: string)
    requires buf != [] && |buf| < BUFFER
    requires (buf[|buf| - 1] == '\n' && '\n' !in buf[..|buf| - 1]) || (|buf| == BUFFER - 1 && '\n' !in buf)
    ensures Load(buf + rest) == AsSeq(ParseLine(buf)) + Load(rest)
  {
    hide Buffers, ParseLine;
    BuffersStep(buf, rest);
    ParseAllStep(buf, Buffers(rest));
  }

  /** How one line is read back, depending on its length. */
  lemma LoadLine(line: string, trimmed: string, rest: string)
    requires '\n' !in line && '\n' !in trimmed && (line == trimmed || line == trimmed + ['\t']) && |trimmed| < BUFFER
    ensures Load(line + ['\n'] + rest)
            == AsSeq(ParseLine(if |line| + 1 < BUFFER then line + ['\n'] else if |line| + 1 == BUFFER then line else trimmed))
               + Load(rest)
  {
    hide Load, ParseLine;
    BlankBuffers();
    assert [] + Load(rest) == Load(rest);
    if |line| + 1 < BUFFER {
      LoadBuffer(line + ['\n'], rest);
    } else if |line| + 1 == BUFFER {
      assert line + ['\n'] + rest == line + (['\n'] + rest);
      LoadBuffer(line, ['\n'] + rest);
      LoadBuffer(['\n'], rest);
    } else {
      assert trimmed + ['\t'] + ['\n'] + rest == trimmed + (['\t', '\n'] + rest);
      LoadBuffer(trimmed, ['\t', '\n'] + rest);
      LoadBuffer(['\t', '\n'], rest);
    }
  }

  /** One stored line, read back. */
  lemma LoadEntry(c: Credential, rest: string)
    requires IsCStrings(c) && Storable(c)
    ensures Load(PrintLine(c) + ['\n'] + rest) == [Norm(c)] + Load(rest)
  {
    var line, trimmed := PrintLine(c), TrimmedLine(c);
    var ending := ['\t'] + Str(c.path);
    PrintedIsTrimmed(c);
    ParseLineOfPrint(c, ending, ['\n']);
    ParseLineOfPrint(c, ending, []);
    ParseLineOfPrint(c, if Str(c.path) == [] then [] else ending, []);
    assert line + [] == line && trimmed + [] == trimmed;
    LoadLine(line, trimmed, rest);
  }

  lemma PrintedIsTrimmed(c: Credential)
    requires IsCStrings(c)
    ensures PrintLine(c) == if Str(c.path) == [] then TrimmedLine(c) + ['\t'] else TrimmedLine(c)
  {
    if Str(c.path) == [] {
      assert ['\t'] + Str(c.path) == ['\t'];
      assert PrintLine(c) == TrimmedLine(c) + ['\t'];
    }
  }

  /** What a long line leaves behind does not parse as a credential. */
  lemma BlankBuffers()
    ensures ParseLine(['\n']) == None && ParseLine(['\t', '\n']) == None
  {
    StripOfLine([]);
    assert [] + ['\n'] == ['\n'];
    StripOfLine(['\t']);
    assert ['\t'] + ['\n'] == ['\t', '\n'];
    CutOfConcat([], '\t', []);
    assert [] + ['\t'] + [] == ['\t'];
  }

  lemma HeaderIsClean(c: char)
    requires c as int < 32
    ensures c !in Header()
  {
  }

  lemma LoadHeader(rest: string)
    ensures Load(Header() + ['\n'] + rest) == Load(rest)
  {
    var header := Header();
    HeaderIsClean('\0');
    HeaderIsClean('\n');
    HeaderIsClean('\r');
    StripOfLine(header);
    assert header[0] == '#';
    BuffersOfShortLine(header, rest);
    ParseAllStep(header + ['\n'], Buffers(rest));
  }

  lemma LoadNothing()
    ensures Load([]) == []
  {
  }

  /** Storable entries come back one by one, whatever follows them. */
  lemma {:induction false} LoadLines(cs: seq<Credential>, rest: string)
    requires AllCStrings(cs) && AllStorable(cs)
    ensures Load(Lines(cs) + rest) == NormAll(cs) + Load(rest)
  {
    hide Storable, PrintLine, Load, Norm;
    if cs == [] {
      assert Lines(cs) + rest == rest;
      assert NormAll(cs) + Load(rest) == Load(rest);
    } else {
      var more := Lines(cs[1..]) + rest;
      assert Lines(cs) + rest == PrintLine(cs[0]) + ['\n'] + more;
      LoadEntry(cs[0], more);
      LoadLines(cs[1..], rest);
      assert NormAll(cs) == [Norm(cs[0])] + NormAll(cs[1..]);
    }
  }

  predicate IsBuffer(buf: string) {
    IsBytes(buf) && |buf| < BUFFER
  }

  lemma {:induction false} BuffersAreBuffers(file: string)
    requires IsBytes(file)
    ensures forall i :: 0 <= i < |Buffers(file)| ==> IsBuffer(Buffers(file)[i])
    decreases |file|
  {
    if file != [] {
      BuffersAreBuffers(file[FgetsLength(file)..]);
    }
  }

  /** Every field of a loaded credential is null or non-empty, except that a password may be empty. */
  predicate IsLoaded(c: Credential) {
    IsCStrings(c) && Storable(c) && c == Norm(c).(password := c.password)
  }

  lemma LoadedIfParsed(buf: string)
    requires IsBuffer(buf) && ParseLine(buf).Some?
    ensures IsLoaded(ParseLine(buf).value)
  {
    ParsedIsStorable(buf);
  }

  predicate AllLoaded(cs: seq<Credential>) {
    cs == [] || (IsLoaded(cs[0]) && AllLoaded(cs[1..]))
  }

  lemma {:induction false} LoadedAt(cs: seq<Credential>, i: nat)
    requires AllLoaded(cs) && i < |cs|
    ensures IsLoaded(cs[i])
  {
    if i > 0 {
      LoadedAt(cs[1..], i - 1);
    }
  }

  lemma {:induction false} ParsedAreLoaded(bufs: seq<string>)
    requires forall i :: 0 <= i < |bufs| ==> IsBuffer(bufs[i])
    ensures AllLoaded(ParseAll(bufs))
  {
    if bufs != [] {
      var tail := ParseAll(bufs[1..]);
      ParsedAreLoaded(bufs[1..]);
      if ParseLine(bufs[0]).Some? {
        LoadedIfParsed(bufs[0]);
        var c := ParseLine(bufs[0]).value;
        assert ([c] + tail)[1..] == tail;
      } else {
        assert [] + tail == tail;
      }
    }
  }

  lemma LoadedAreStorable(file: string)
    requires IsBytes(file)
    ensures AllLoaded(Load(file))
  {
    BuffersAreBuffers(file);
    ParsedAreLoaded(Buffers(file));
  }

  lemma StorableNorm(c: Credential)
    requires IsCStrings(c)
    ensures IsCStrings(Norm(c)) && (Storable(Norm(c)) <==> Storable(c)) && Norm(Norm(c)) == Norm(c)
  {
    var n := Norm(c);
    assert Str(n.protocol) == Str(c.protocol) && Str(n.host) == Str(c.host) && Str(n.username) == Str(c.username);
    assert Str(n.password) == Str(c.password) && Str(n.path) == Str(c.path);
  }

  lemma {:induction false} LoadedNormIsStorable(cs: seq<Credential>)
    requires AllCStrings(cs) && AllLoaded(NormAll(cs))
    ensures AllStorable(cs)
  {
    hide Storable, IsCStrings, Norm;
    if cs != [] {
      assert NormAll(cs)[1..] == NormAll(cs[1..]);
      StorableNorm(cs[0]);
      LoadedNormIsStorable(cs[1..]);
    }
  }

  /** Saving and loading returns the same list, up to empty strings standing for null, exactly when every credential
      is storable. */
  lemma SaveThenLoad(cs: seq<Credential>)
    requires AllCStrings(cs)
    ensures Load(Save(cs)) == NormAll(cs) <==> AllStorable(cs)
  {
    if AllStorable(cs) {
      LoadHeader(Lines(cs));
      LoadLines(cs, []);
      LoadNothing();
      assert Lines(cs) + [] == Lines(cs) && NormAll(cs) + [] == NormAll(cs);
    }
    if Load(Save(cs)) == NormAll(cs) {
      SaveIsBytes(cs);
      LoadedAreStorable(Save(cs));
      LoadedNormIsStorable(cs);
    }
  }

  lemma LineIsBytes(c: Credential)
    requires IsCStrings(c)
    ensures IsBytes(PrintLine(c))
  {
    EncodedIsBytes(Str(c.password));
  }

  lemma {:induction false} LinesAreBytes(cs: seq<Credential>)
    requires AllCStrings(cs)
    ensures IsBytes(Lines(cs))
  {
    if cs != [] {
      LineIsBytes(cs[0]);
      LinesAreBytes(cs[1..]);
    }
  }

  lemma {:induction false} EncodedIsBytes(s: string)
    requires IsBytes(s)
    ensures IsBytes(Encode(s))
  {
    if |s| > 3 {
      EncodedIsBytes(s[3..]);
    }
  }

  lemma HeaderIsBytes()
    ensures IsBytes(Header())
  {
  }

  lemma SaveIsBytes(cs: seq<Credential>)
    requires AllCStrings(cs)
    ensures IsBytes(Save(cs))
  {
    HeaderIsBytes();
    LinesAreBytes(cs);
  }
}
