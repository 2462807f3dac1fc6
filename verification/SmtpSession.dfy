/** The command parser: one line to a command and its argument. */
module SmtpParser {
  import opened Prelude

  datatype Command = HELO | EHLO | MAIL | RCPT | DATA | QUIT | RSET | NOOP | UNKNOWN

  datatype Request = Request(cmd: Command, arg: string)

  predicate Blank(c: char) {
    c == ' ' || c == '\t' || c == '\r' || c == '\n'
  }

  function TrimLeft(s: string): string {
    if s != [] && Blank(s[0]) then TrimLeft(s[1..]) else s
  }

  function TrimRight(s: string): string {
    if s != [] && Blank(s[|s| - 1]) then TrimRight(s[..|s| - 1]) else s
  }

  function Trim(s: string): string {
    TrimRight(TrimLeft(s))
  }

  /** The part of a string before its first space, and the part behind it. */
  function CutAtSpace(s: string): (r: (string, string))
    ensures ' ' !in r.0
    ensures s == if ' ' in s then r.0 + [' '] + r.1 else r.0
    ensures ' ' !in s ==> r.1 == []
  {
    if s == [] then ([], []) else if s[0] == ' ' then ([], s[1..]) else
    var (front, back) := CutAtSpace(s[1..]);
    assert s == [s[0]] + s[1..];
    ([s[0]] + front, back)
  }

  function UpperChar(c: char): char {
    if 'a' <= c <= 'z' then c - 'a' + 'A' else c
  }

  function Upper(s: string): string {
    seq(|s|, i requires 0 <= i < |s| => UpperChar(s[i]))
  }

  function CommandNamed(name: string): Command {
    if name == "HELO" then HELO
    else if name == "EHLO" then EHLO
    else if name == "MAIL" then MAIL
    else if name == "RCPT" then RCPT
    else if name == "DATA" then DATA
    else if name == "QUIT" then QUIT
    else if name == "RSET" then RSET
    else if name == "NOOP" then NOOP
    else UNKNOWN
  }

  /** `parse_line` */
  function ParseLine(line: string): Option<Request> {
    var trimmed := Trim(line);
    if trimmed == [] then None else
    var (name, arg) := CutAtSpace(trimmed);
    Some(Request(CommandNamed(Upper(name)), arg))
  }

  // ----- What parsing promises -----

  predicate AllBlank(s: string) {
    forall i :: 0 <= i < |s| ==> Blank(s[i])
  }

  lemma {:induction false} TrimLeftSplits(s: string) returns (a: string)
    ensures AllBlank(a) && s == a + TrimLeft(s)
    ensures TrimLeft(s) != [] ==> !Blank(TrimLeft(s)[0])
  {
    if s != [] && Blank(s[0]) {
      var rest := TrimLeftSplits(s[1..]);
      a := [s[0]] + rest;
      assert s == [s[0]] + s[1..];
    } else {
      a := [];
    }
  }

  lemma {:induction false} TrimRightSplits(s: string) returns (b: string)
    ensures AllBlank(b) && s == TrimRight(s) + b
    ensures TrimRight(s) != [] ==> !Blank(TrimRight(s)[|TrimRight(s)| - 1])
  {
    if s != [] && Blank(s[|s| - 1]) {
      var rest := TrimRightSplits(s[..|s| - 1]);
      b := rest + [s[|s| - 1]];
      assert s == s[..|s| - 1] + [s[|s| - 1]];
    } else {
      b := [];
    }
  }

  /** Trimming takes blanks off both ends and leaves none there. */
  lemma TrimSplits(s: string) returns (a: string, b: string)
    ensures AllBlank(a) && AllBlank(b) && s == a + Trim(s) + b
    ensures var t := Trim(s); t != [] ==> !Blank(t[0]) && !Blank(t[|t| - 1])
  {
    a := TrimLeftSplits(s);
    b := TrimRightSplits(TrimLeft(s));
    assert s == a + (Trim(s) + b);
    if Trim(s) != [] {
      assert Trim(s)[0] == TrimLeft(s)[0];
    }
  }

  /** A line is a syntax error exactly when it is blank. */
  lemma SyntaxErrorMeansBlank(line: string)
    ensures ParseLine(line) == None <==> AllBlank(line)
  {
    var a, b := TrimSplits(line);
    var t := Trim(line);
    if t == [] {
      assert line == a + b;
    } else {
      assert line[|a|] == t[0];
    }
  }

  // ----- The case of the command word -----

  /** A command word: no blank in it. */
  predicate IsWord(s: string) {
    s != [] && forall i :: 0 <= i < |s| ==> !Blank(s[i])
  }

  lemma {:induction false} TrimLeftOfConcat(lead: string, s: string)
    requires AllBlank(lead) && s != [] && !Blank(s[0])
    ensures TrimLeft(lead + s) == s
  {
    if lead == [] {
      assert lead + s == s;
    } else {
      assert (lead + s)[1..] == lead[1..] + s;
      TrimLeftOfConcat(lead[1..], s);
    }
  }

  lemma {:induction false} TrimRightOfConcat(s: string, tail: string)
    requires s != [] && !Blank(s[|s| - 1])
    ensures TrimRight(s + tail) == s + TrimRight(tail)
  {
    if tail == [] {
      assert s + tail == s;
    } else {
      var n := |tail| - 1;
      assert (s + tail)[..|s| + n] == s + tail[..n];
      TrimRightOfConcat(s, tail[..n]);
    }
  }

  lemma {:induction false} CutOfConcat(w: string, u: string)
    requires ' ' !in w
    ensures CutAtSpace(w + u) == (w + CutAtSpace(u).0, CutAtSpace(u).1)
  {
    hide CutAtSpace;
    if w == [] {
      assert w + u == u && [] + CutAtSpace(u).0 == CutAtSpace(u).0;
    } else {
      assert (w + u)[1..] == w[1..] + u && (w + u)[0] == w[0];
      CutOfConcat(w[1..], u);
      CutStep(w + u);
      assert [w[0]] + (w[1..] + CutAtSpace(u).0) == w + CutAtSpace(u).0;
    }
  }

  lemma CutStep(s: string)
    requires s != [] && s[0] != ' '
    ensures CutAtSpace(s) == ([s[0]] + CutAtSpace(s[1..]).0, CutAtSpace(s[1..]).1)
  {
  }

  /** What a line that starts with a command word is parsed to. */
  lemma ParseOfWord(lead: string, word: string, tail: string)
    requires AllBlank(lead) && IsWord(word)
    ensures var rest := CutAtSpace(TrimRight(tail));
            ParseLine(lead + word + tail) == Some(Request(CommandNamed(Upper(word + rest.0)), rest.1))
  {
    hide CommandNamed, Upper;
    assert lead + word + tail == lead + (word + tail) && (word + tail)[0] == word[0];
    TrimLeftOfConcat(lead, word + tail);
    TrimRightOfConcat(word, tail);
    CutOfConcat(word, TrimRight(tail));
  }

  /** Lines that differ only in the case of the command word give the same command with the same argument. */
  lemma CommandIgnoresCase(lead: string, v: string, w: string, tail: string)
    requires AllBlank(lead) && IsWord(v) && IsWord(w) && Upper(v) == Upper(w)
    ensures ParseLine(lead + v + tail) == ParseLine(lead + w + tail)
  {
    hide CommandNamed, ParseLine, Upper, IsWord;
    ParseOfWord(lead, v, tail);
    ParseOfWord(lead, w, tail);
    var rest := CutAtSpace(TrimRight(tail)).0;
    UpperOfConcat(v, rest);
    UpperOfConcat(w, rest);
  }

  lemma UpperOfConcat(a: string, b: string)
    ensures Upper(a + b) == Upper(a) + Upper(b)
  {
  }
}

/**
 * One SMTP session: bytes arrive in chunks, complete lines are cut off the buffer and
 * drive the command and data states. The envelope that is written with a saved mail is
 * modelled, the Date and Message-ID lines and the file name are not.
 */
module SmtpSpec {
  import opened Prelude
  import opened SmtpParser

  datatype Mail = Mail(from: string, to: string, data: string)

  datatype Session = Session(
    buffer: string, from: string, rcpts: seq<string>, data: string, inData: bool, closed: bool,
    replies: seq<string>, mails: seq<Mail>)

  function CRLF(): string {
    "\r\n"
  }

  /** `write`: nothing is sent once the session is closed. */
  function Write(s: Session, reply: string): Session {
    if s.closed then s else s.(replies := s.replies + [reply])
  }

  /** The position of a character at or behind a place. */
  function Find(s: string, c: char, from: nat): (r: Option<nat>)
    requires from <= |s|
    ensures r.Some? ==> from <= r.value < |s| && s[r.value] == c && c !in s[from..r.value]
    ensures r.None? ==> c !in s[from..]
    decreases |s| - from
  {
    if from == |s| then None else if s[from] == c then Some(from) else
    var r := Find(s, c, from + 1);
    assert s[from..] == [s[from]] + s[from + 1..];
    assert r.Some? ==> s[from..r.value] == [s[from]] + s[from + 1..r.value];
    r
  }

  /** `extract_email_address` */
  function ExtractEmailAddress(arg: string): string {
    var start := Find(arg, '<', 0);
    if start.None? then arg else
    var end := Find(arg, '>', start.value);
    if end.None? then arg else arg[start.value + 1..end.value]
  }

  /** `save_email` */
  function SaveEmail(s: Session): Session {
    var to := if s.rcpts == [] then "" else ExtractEmailAddress(s.rcpts[0]);
    s.(mails := s.mails + [Mail(ExtractEmailAddress(s.from), to, s.data)])
  }

  /** What a command changes before it is answered. */
  function Prepared(s: Session, req: Request): Session {
    match req.cmd
    case MAIL => s.(from := req.arg, rcpts := [], data := "")
    case RCPT => s.(rcpts := s.rcpts + [req.arg])
    case DATA => if s.rcpts == [] then s else s.(inData := true)
    case RSET => s.(from := "", rcpts := [], data := "", inData := false)
    case _ => s
  }

  function Answer(s: Session, cmd: Command): string {
    match cmd
    case HELO | EHLO | NOOP | MAIL | RCPT | RSET => "250 OK\r\n"
    case DATA => if s.rcpts == [] then "503 Bad sequence of commands\r\n" else "354 Start mail input; end with <CRLF>.<CRLF>\r\n"
    case QUIT => "221 Service closing\r\n"
    case UNKNOWN => "502 Command not implemented\r\n"
  }

  /** `handle_command` */
  function HandleCommand(s: Session, req: Request): Session {
    var r := Write(Prepared(s, req), Answer(s, req.cmd));
    if req.cmd == QUIT then r.(closed := true) else r
  }

  /** A line outside data mode, parsed. */
  function ProcessRequest(s: Session, req: Option<Request>): (r: Session)
    ensures r.buffer == s.buffer
  {
    if req.None? then Write(s, "500 Syntax error\r\n") else HandleCommand(s, req.value)
  }

  /** `process_line` */
  function ProcessLine(s: Session, line: string): (r: Session)
    ensures r.buffer == s.buffer
  {
    if s.inData then
      if line == "." then Write(SaveEmail(s.(inData := false)), "250 OK queued\r\n").(data := "")
      else s.(data := s.data + line + CRLF())
    else
      ProcessRequest(s, ParseLine(line))
  }

  /** The first line end. */
  function FindCrlf(b: string): (r: Option<nat>)
    ensures r.Some? ==> r.value + 2 <= |b| && b[r.value] == '\r' && b[r.value + 1] == '\n'
  {
    if |b| < 2 then None
    else if b[0] == '\r' && b[1] == '\n' then Some(0)
    else match FindCrlf(b[1..])
         case None => None
         case Some(pos) => Some(pos + 1)
  }

  /** The loop that takes complete lines off the buffer. */
  function Drain(s: Session): Session
    decreases |s.buffer|
  {
    match FindCrlf(s.buffer)
    case None => s
    case Some(pos) => Drain(ProcessLine(s.(buffer := s.buffer[pos + 2..]), s.buffer[..pos]))
  }

  /** One read. A closed session reads no more. */
  function Deliver(s: Session, chunk: string): Session {
    if s.closed then s else Drain(s.(buffer := s.buffer + chunk))
  }

  function DeliverAll(s: Session, chunks: seq<string>): Session
    decreases |chunks|
  {
    if chunks == [] then s else DeliverAll(Deliver(s, chunks[0]), chunks[1..])
  }

  function Concat(chunks: seq<string>): string {
    if chunks == [] then [] else chunks[0] + Concat(chunks[1..])
  }

  /** The state after the greeting. */
  function Start(): Session {
    Session("", "", [], "", false, false, ["220 smtp server Service ready\r\n"], [])
  }

  // ----- Independence of the chunks -----

  lemma {:induction false} FindCrlfOfConcat(b: string, c: string)
    requires FindCrlf(b).Some?
    ensures FindCrlf(b + c) == FindCrlf(b)
  {
    assert (b + c)[0] == b[0] && (b + c)[1] == b[1];
    if !(b[0] == '\r' && b[1] == '\n') {
      assert (b + c)[1..] == b[1..] + c;
      FindCrlfOfConcat(b[1..], c);
    }
  }

  lemma DrainStep(s: Session, pos: nat)
    requires FindCrlf(s.buffer) == Some(pos)
    ensures Drain(s) == Drain(ProcessLine(s.(buffer := s.buffer[pos + 2..]), s.buffer[..pos]))
  {
    hide ProcessLine;
  }

  /** Lines can be taken off before more bytes arrive. */
  lemma {:induction false} DrainOfConcat(s: Session, c: string)
    ensures Drain(s.(buffer := s.buffer + c)) == Drain(Drain(s).(buffer := Drain(s).buffer + c))
    decreases |s.buffer|
  {
    hide ProcessLine, Drain, FindCrlf;
    var b := s.buffer;
    match FindCrlf(b)
    case None => DrainOfNothing(s);
    case Some(pos) =>
      FindCrlfOfConcat(b, c);
      DrainStep(s, pos);
      DrainStep(s.(buffer := b + c), pos);
      var line, rest := b[..pos], b[pos + 2..];
      assert (b + c)[..pos] == line && (b + c)[pos + 2..] == rest + c;
      BufferIsApart(s.(buffer := rest), line, rest + c);
      DrainOfConcat(ProcessLine(s.(buffer := rest), line), c);
  }

  /** Processing a line does not depend on the rest of the buffer. */
  lemma BufferIsApart(s: Session, line: string, b: string)
    ensures ProcessLine(s.(buffer := b), line) == ProcessLine(s, line).(buffer := b)
  {
    hide ParseLine, ExtractEmailAddress, ProcessRequest;
    RequestIsApart(s, ParseLine(line), b);
  }

  lemma RequestIsApart(s: Session, req: Option<Request>, b: string)
    ensures ProcessRequest(s.(buffer := b), req) == ProcessRequest(s, req).(buffer := b)
  {
    hide Write, Answer;
    if req.None? {
      WriteIsApart(s, "500 Syntax error\r\n", b);
    } else {
      WriteIsApart(Prepared(s, req.value), Answer(s, req.value.cmd), b);
      AnswerIsApart(s, req.value.cmd, b);
    }
  }

  lemma AnswerIsApart(s: Session, cmd: Command, b: string)
    ensures Answer(s.(buffer := b), cmd) == Answer(s, cmd)
  {
  }

  lemma WriteIsApart(s: Session, reply: string, b: string)
    ensures Write(s.(buffer := b), reply) == Write(s, reply).(buffer := b)
  {
  }

  /** What happens after QUIT stays silent: no reply is sent, and saved mails are only added to. */
  ghost predicate Extends(s: Session, r: Session) {
    && (s.closed ==> r.closed && r.replies == s.replies)
    && s.mails <= r.mails && s.replies <= r.replies
  }

  lemma LineExtends(s: Session, line: string)
    ensures Extends(s, ProcessLine(s, line))
  {
    hide ParseLine, ProcessRequest, Write, ExtractEmailAddress;
    if !s.inData {
      RequestExtends(s, ParseLine(line));
    } else if line == "." {
      WriteExtends(s, SaveEmail(s.(inData := false)), "250 OK queued\r\n");
    }
  }

  lemma RequestExtends(s: Session, req: Option<Request>)
    ensures Extends(s, ProcessRequest(s, req))
  {
    hide Answer, Write;
    if req.None? {
      WriteExtends(s, s, "500 Syntax error\r\n");
    } else {
      WriteExtends(s, Prepared(s, req.value), Answer(s, req.value.cmd));
    }
  }

  lemma WriteExtends(s: Session, t: Session, reply: string)
    requires t.closed == s.closed && t.replies == s.replies && s.mails <= t.mails
    ensures Extends(s, Write(t, reply))
  {
  }

  lemma {:induction false} DrainExtends(s: Session)
    ensures Extends(s, Drain(s))
    decreases |s.buffer|
  {
    hide ProcessLine;
    match FindCrlf(s.buffer)
    case None =>
    case Some(pos) =>
      var t := s.(buffer := s.buffer[pos + 2..]);
      LineExtends(t, s.buffer[..pos]);
      DrainExtends(ProcessLine(t, s.buffer[..pos]));
  }

  /** However a stream is cut into reads, an open session sees the same lines: as long as the whole stream does not
      close it, the state at the end is the same. If it does, the replies are still the same, and no cut saves a mail that
      a single read does not save. */
  lemma {:induction false} ChunksDoNotMatter(s: Session, chunks: seq<string>)
    requires !s.closed && FindCrlf(s.buffer) == None
    ensures var whole := Deliver(s, Concat(chunks));
            var cut := DeliverAll(s, chunks);
            && (!whole.closed ==> cut == whole)
            && (whole.closed <==> cut.closed)
            && cut.replies == whole.replies && cut.mails <= whole.mails
    decreases |chunks|
  {
    hide Drain, FindCrlf;
    if chunks == [] {
      assert s.(buffer := s.buffer + []) == s by {
        assert s.buffer + [] == s.buffer;
      }
      DrainOfNothing(s);
    } else {
      var rest := Concat(chunks[1..]);
      var first := s.(buffer := s.buffer + chunks[0]);
      var next := Drain(first);
      assert s.buffer + Concat(chunks) == first.buffer + rest;
      assert s.(buffer := s.buffer + Concat(chunks)) == first.(buffer := first.buffer + rest);
      DrainOfConcat(first, rest);
      DrainExtends(next.(buffer := next.buffer + rest));
      NothingLeft(first);
      if next.closed {
        DeliverToClosed(next, chunks[1..]);
      } else {
        ChunksDoNotMatter(next, chunks[1..]);
      }
    }
  }

  /** The number of chunks read: all of them, or those up to the one that closes the session. */
  function ChunksRead(s: Session, chunks: seq<string>): (n: nat)
    ensures n <= |chunks|
    decreases |chunks|
  {
    if chunks == [] || s.closed then 0 else 1 + ChunksRead(Deliver(s, chunks[0]), chunks[1..])
  }

  /** Chunked reading is one read of the bytes up to the end of the chunk that closes the session, or of all bytes. */
  lemma {:induction false} ChunksAreOneRead(s: Session, chunks: seq<string>)
    requires !s.closed && FindCrlf(s.buffer) == None
    ensures var n := ChunksRead(s, chunks);
            && DeliverAll(s, chunks) == Deliver(s, Concat(chunks[..n]))
            && (n < |chunks| ==> n > 0 && Deliver(s, Concat(chunks[..n])).closed)
            && (n > 0 ==> !Deliver(s, Concat(chunks[..n - 1])).closed)
    decreases |chunks|
  {
    hide Drain, FindCrlf;
    BareDeliver(s);
    if chunks != [] {
      var first := s.(buffer := s.buffer + chunks[0]);
      var next := Drain(first);
      NothingLeft(first);
      var n := ChunksRead(s, chunks);
      assert chunks[..1] == [chunks[0]] && chunks[..0] == [];
      assert Concat([chunks[0]]) == chunks[0] + Concat([]) == chunks[0];
      if next.closed {
        DeliverToClosed(next, chunks[1..]);
      } else {
        ChunksAreOneRead(next, chunks[1..]);
        FirstChunk(s, chunks, n);
        if n > 1 {
          FirstChunk(s, chunks, n - 1);
        }
      }
    }
  }

  lemma BareDeliver(s: Session)
    requires FindCrlf(s.buffer) == None
    ensures Deliver(s, Concat([])) == s
  {
    assert s.buffer + [] == s.buffer;
    DrainOfNothing(s);
  }

  /** Reading some chunks at once is reading the first of them and then the others. */
  lemma FirstChunk(s: Session, chunks: seq<string>, n: nat)
    requires !s.closed && 1 <= n <= |chunks| && !Deliver(s, chunks[0]).closed
    ensures Deliver(s, Concat(chunks[..n])) == Deliver(Deliver(s, chunks[0]), Concat(chunks[1..][..n - 1]))
  {
    hide Drain;
    var rest := Concat(chunks[1..][..n - 1]);
    var first := s.(buffer := s.buffer + chunks[0]);
    assert chunks[..n][1..] == chunks[1..][..n - 1];
    assert s.buffer + (chunks[0] + rest) == first.buffer + rest;
    DrainOfConcat(first, rest);
  }

  lemma DrainOfNothing(s: Session)
    requires FindCrlf(s.buffer) == None
    ensures Drain(s) == s
  {
  }

  lemma {:induction false} NothingLeft(s: Session)
    ensures FindCrlf(Drain(s).buffer) == None
    decreases |s.buffer|
  {
    hide ProcessLine;
    match FindCrlf(s.buffer)
    case None =>
    case Some(pos) => NothingLeft(ProcessLine(s.(buffer := s.buffer[pos + 2..]), s.buffer[..pos]));
  }

  lemma {:induction false} DeliverToClosed(s: Session, chunks: seq<string>)
    requires s.closed
    ensures DeliverAll(s, chunks) == s
    decreases |chunks|
  {
    if chunks != [] {
      DeliverToClosed(s, chunks[1..]);
    }
  }

  // ----- Lines -----

  function RunLines(s: Session, lines: seq<string>): Session {
    if lines == [] then s else ProcessLine(RunLines(s, lines[..|lines| - 1]), lines[|lines| - 1])
  }

  /** Lines with their ends. */
  function Joined(lines: seq<string>): string {
    if lines == [] then [] else Joined(lines[..|lines| - 1]) + lines[|lines| - 1] + CRLF()
  }

  /** Text that can be a line. */
  predicate IsLine(s: string) {
    FindCrlf(s + CRLF()) == Some(|s|)
  }

  /** The bytes of some lines make the session process exactly those. */
  lemma {:induction false} StreamOfLines(s: Session, lines: seq<string>)
    requires s.buffer == "" && forall i :: 0 <= i < |lines| ==> IsLine(lines[i])
    ensures Drain(s.(buffer := Joined(lines))) == RunLines(s, lines)
    ensures RunLines(s, lines).buffer == ""
    decreases |lines|
  {
    hide ProcessLine;
    if lines == [] {
      assert s.(buffer := "") == s;
    } else {
      hide Drain, RunLines, IsLine, Joined, CRLF;
      var front, line := lines[..|lines| - 1], lines[|lines| - 1];
      assert lines == front + [line];
      StreamOfLines(s, front);
      RunStep(s, front, line);
      LineAtTheEnd(front, line);
      DrainOfConcat(s.(buffer := Joined(front)), line + CRLF());
      OneLine(RunLines(s, front), line);
    }
  }

  lemma LineAtTheEnd(lines: seq<string>, line: string)
    ensures Joined(lines + [line]) == Joined(lines) + (line + CRLF())
  {
    JoinedGrows(lines, line);
    hide Joined, CRLF;
    assert Joined(lines) + (line + CRLF()) == Joined(lines) + line + CRLF();
  }

  lemma OneLine(s: Session, line: string)
    requires s.buffer == "" && IsLine(line)
    ensures Drain(s.(buffer := s.buffer + (line + CRLF()))) == ProcessLine(s, line)
  {
    hide ProcessLine;
    var b := line + CRLF();
    assert s.buffer + b == b;
    assert b[..|line|] == line && b[|line| + 2..] == "";
    assert s.(buffer := "") == s;
    assert FindCrlf("") == None;
  }

  lemma JoinedOfConcat(line: string, lines: seq<string>)
    ensures Joined([line] + lines) == line + CRLF() + Joined(lines)
    decreases |lines|
  {
    var all := [line] + lines;
    assert all[..|all| - 1] == if lines == [] then [] else [line] + lines[..|lines| - 1];
    if lines != [] {
      JoinedOfConcat(line, lines[..|lines| - 1]);
    }
  }

  /** The complete lines of a stream. */
  function LinesOf(b: string): seq<string>
    decreases |b|
  {
    match FindCrlf(b)
    case None => []
    case Some(pos) => [b[..pos]] + LinesOf(b[pos + 2..])
  }

  /** What follows the last complete line. */
  function RestOf(b: string): string
    decreases |b|
  {
    match FindCrlf(b)
    case None => b
    case Some(pos) => RestOf(b[pos + 2..])
  }

  /** Every stream is its lines and a rest without a line end. */
  lemma {:induction false} StreamIsLines(b: string)
    ensures b == Joined(LinesOf(b)) + RestOf(b) && FindCrlf(RestOf(b)) == None
    ensures forall i :: 0 <= i < |LinesOf(b)| ==> IsLine(LinesOf(b)[i])
    decreases |b|
  {
    hide IsLine, Joined, LinesOf, RestOf, FindCrlf;
    match FindCrlf(b)
    case None => NoLines(b);
    case Some(pos) =>
      LinesStep(b, pos);
      StreamIsLines(b[pos + 2..]);
      FirstLine(b, pos);
      JoinedAgain(b, pos, LinesOf(b[pos + 2..]), RestOf(b));
  }

  lemma NoLines(b: string)
    requires FindCrlf(b) == None
    ensures LinesOf(b) == [] && RestOf(b) == b && Joined([]) + b == b
  {
  }

  lemma LinesStep(b: string, pos: nat)
    requires FindCrlf(b) == Some(pos)
    ensures LinesOf(b) == [b[..pos]] + LinesOf(b[pos + 2..]) && RestOf(b) == RestOf(b[pos + 2..])
  {
    hide FindCrlf;
  }

  lemma JoinedAgain(b: string, pos: nat, more: seq<string>, rest: string)
    requires FindCrlf(b) == Some(pos) && b[pos + 2..] == Joined(more) + rest
    ensures b == Joined([b[..pos]] + more) + rest
  {
    var line := b[..pos];
    assert b == line + CRLF() + b[pos + 2..];
    hide Joined, CRLF, FindCrlf;
    JoinedOfConcat(line, more);
    assert line + CRLF() + Joined(more) + rest == line + CRLF() + (Joined(more) + rest);
  }

  lemma {:induction false} FirstLine(b: string, pos: nat)
    requires FindCrlf(b) == Some(pos)
    ensures IsLine(b[..pos])
  {
    var line := b[..pos] + CRLF();
    if pos > 0 {
      FirstLine(b[1..], pos - 1);
      assert line[1..] == b[1..][..pos - 1] + CRLF();
      assert line[0] == b[0] && (line[1] == b[1] || pos == 1);
    }
  }

  /** A whole stream makes a session process its lines, and leaves the rest in the buffer. */
  lemma StreamRunsLines(s: Session, b: string)
    requires s.buffer == "" && !s.closed
    ensures b == Joined(LinesOf(b)) + RestOf(b) && FindCrlf(RestOf(b)) == None
    ensures Deliver(s, b) == RunLines(s, LinesOf(b)).(buffer := RestOf(b))
  {
    hide Drain, ProcessLine, LinesOf, RestOf;
    var lines, rest := LinesOf(b), RestOf(b);
    StreamIsLines(b);
    var t := s.(buffer := Joined(lines));
    StreamOfLines(s, lines);
    DrainOfConcat(t, rest);
    assert s.buffer + b == t.buffer + rest;
    var r := RunLines(s, lines);
    assert r.buffer + rest == rest;
    DrainOfNothing(r.(buffer := rest));
  }

  /** A session is closed exactly by a QUIT command outside data mode. */
  lemma {:induction false} ClosedByQuit(s: Session, lines: seq<string>)
    requires !s.closed
    ensures RunLines(s, lines).closed
            <==> exists i :: 0 <= i < |lines| && Quits(RunLines(s, lines[..i]), lines[i])
    decreases |lines|
  {
    hide ProcessLine, Quits;
    if lines != [] {
      hide RunLines;
      var n := |lines| - 1;
      var front := lines[..n];
      assert lines == front + [lines[n]];
      RunStep(s, front, lines[n]);
      QuitCloses(RunLines(s, front), lines[n]);
      ClosedByQuit(s, front);
      forall i | 0 <= i < n ensures Quits(RunLines(s, front[..i]), front[i]) <==> Quits(RunLines(s, lines[..i]), lines[i]) {
        assert front[..i] == lines[..i];
      }
    }
  }

  predicate Quits(s: Session, line: string) {
    !s.inData && IsCommand(line, QUIT)
  }

  lemma QuitCloses(s: Session, line: string)
    ensures ProcessLine(s, line).closed <==> s.closed || Quits(s, line)
  {
    hide ParseLine, ExtractEmailAddress;
  }

  // ----- Data mode -----

  /** Data mode has a recipient, and outside it no data is kept. */
  predicate Consistent(s: Session) {
    (s.inData ==> s.rcpts != []) && (!s.inData ==> s.data == "")
  }

  lemma LineKeepsConsistent(s: Session, line: string)
    requires Consistent(s)
    ensures Consistent(ProcessLine(s, line))
  {
    hide ParseLine, ExtractEmailAddress, ProcessRequest;
    RequestChanges(s, ParseLine(line));
  }

  /** What a line outside data mode changes, its reply aside. */
  lemma RequestChanges(s: Session, req: Option<Request>)
    ensures var r, p := ProcessRequest(s, req), if req.None? then s else Prepared(s, req.value);
            && r.mails == s.mails && r.inData == p.inData && r.data == p.data && r.from == p.from && r.rcpts == p.rcpts
  {
    hide Answer;
  }

  lemma {:induction false} DrainKeepsConsistent(s: Session)
    requires Consistent(s)
    ensures Consistent(Drain(s))
    decreases |s.buffer|
  {
    hide ProcessLine, Consistent;
    match FindCrlf(s.buffer)
    case None =>
    case Some(pos) =>
      var t := s.(buffer := s.buffer[pos + 2..]);
      assert Consistent(t) by {
        SameConsistency(s, t);
      }
      LineKeepsConsistent(t, s.buffer[..pos]);
      DrainKeepsConsistent(ProcessLine(t, s.buffer[..pos]));
  }

  lemma SameConsistency(s: Session, t: Session)
    requires s.inData == t.inData && s.rcpts == t.rcpts && s.data == t.data
    ensures Consistent(s) == Consistent(t)
  {
  }

  /** Every session, fed in any chunks, stays consistent. */
  lemma {:induction false} EverySessionIsConsistent(s: Session, chunks: seq<string>)
    requires Consistent(s)
    ensures Consistent(DeliverAll(s, chunks))
    decreases |chunks|
  {
    hide Drain, Consistent;
    if chunks != [] {
      if !s.closed {
        var t := s.(buffer := s.buffer + chunks[0]);
        SameConsistency(s, t);
        DrainKeepsConsistent(t);
      }
      EverySessionIsConsistent(Deliver(s, chunks[0]), chunks[1..]);
    }
  }

  predicate IsCommand(line: string, cmd: Command) {
    ParseLine(line).Some? && ParseLine(line).value.cmd == cmd
  }

  lemma DataLine(s: Session, line: string)
    requires s.inData && line != "."
    ensures ProcessLine(s, line) == s.(data := s.data + line + CRLF())
  {
  }

  lemma {:induction false} DataLines(s: Session, body: seq<string>)
    requires s.inData && "." !in body
    ensures RunLines(s, body) == s.(data := s.data + Joined(body))
    decreases |body|
  {
    if body == [] {
      assert s.data + [] == s.data;
    } else {
      hide ProcessLine, RunLines, Joined;
      var front, last := body[..|body| - 1], body[|body| - 1];
      assert body == front + [last];
      RunStep(s, front, last);
      DataLines(s, front);
      DataLine(RunLines(s, front), last);
      DataGrows(s.data, front, last);
    }
  }

  lemma DataGrows(data: string, front: seq<string>, last: string)
    ensures data + Joined(front + [last]) == data + Joined(front) + last + CRLF()
  {
    JoinedGrows(front, last);
    hide Joined, CRLF;
    assert data + (Joined(front) + last + CRLF()) == data + Joined(front) + last + CRLF();
  }

  lemma RunStep(s: Session, lines: seq<string>, line: string)
    ensures RunLines(s, lines + [line]) == ProcessLine(RunLines(s, lines), line)
  {
    assert (lines + [line])[..|lines|] == lines;
  }

  lemma {:induction false} RunLinesOfConcat(s: Session, a: seq<string>, b: seq<string>)
    ensures RunLines(s, a + b) == RunLines(RunLines(s, a), b)
    decreases |b|
  {
    hide ProcessLine;
    if b == [] {
      assert a + b == a;
    } else {
      hide RunLines;
      var front, last := b[..|b| - 1], b[|b| - 1];
      assert b == front + [last] && a + b == a + front + [last];
      RunLinesOfConcat(s, a, front);
      RunStep(s, a + front, last);
      RunStep(RunLines(s, a), front, last);
    }
  }

  lemma RunOneLine(s: Session, line: string)
    ensures RunLines(s, [line]) == ProcessLine(s, line)
  {
    assert [line][..0] == [];
  }

  /** A DATA command with a recipient, any lines but a lone dot, and the dot save one mail, whose data is byte for byte
      the lines in between, and leave everything else as it was. */
  lemma DataIsSaved(s: Session, command: string, body: seq<string>)
    requires Consistent(s) && !s.inData && s.rcpts != [] && IsCommand(command, DATA) && "." !in body
    ensures var r := RunLines(s, [command] + body + ["."]);
            && r.mails == s.mails + [Mail(ExtractEmailAddress(s.from), ExtractEmailAddress(s.rcpts[0]), Joined(body))]
            && r == s.(mails := r.mails, replies := r.replies)
            && r.replies == s.replies + (if s.closed then [] else ["354 Start mail input; end with <CRLF>.<CRLF>\r\n", "250 OK queued\r\n"])
  {
    var begun := ProcessLine(s, command);
    DataBegins(s, command);
    hide Joined, ExtractEmailAddress, RunLines, IsCommand, ProcessLine;
    RunLinesOfConcat(s, [command] + body, ["."]);
    RunLinesOfConcat(s, [command], body);
    RunOneLine(s, command);
    DataLines(begun, body);
    assert s.data + Joined(body) == Joined(body);
    RunOneLine(begun.(data := Joined(body)), ".");
    DotEnds(begun.(data := Joined(body)));
    TwoReplies(s.replies, "354 Start mail input; end with <CRLF>.<CRLF>\r\n", "250 OK queued\r\n");
  }

  lemma TwoReplies(replies: seq<string>, a: string, b: string)
    ensures replies + [a] + [b] == replies + [a, b] && replies + [] + [] == replies + [] == replies
  {
  }

  lemma DataBegins(s: Session, command: string)
    requires !s.inData && s.rcpts != [] && IsCommand(command, DATA)
    ensures ProcessLine(s, command)
            == s.(inData := true,
                  replies := s.replies + if s.closed then [] else ["354 Start mail input; end with <CRLF>.<CRLF>\r\n"])
  {
    hide ParseLine;
  }

  lemma DotEnds(s: Session)
    requires s.inData && s.rcpts != []
    ensures ProcessLine(s, ".")
            == s.(mails := s.mails + [Mail(ExtractEmailAddress(s.from), ExtractEmailAddress(s.rcpts[0]), s.data)],
                  inData := false, data := "", replies := s.replies + if s.closed then [] else ["250 OK queued\r\n"])
  {
    hide ExtractEmailAddress;
  }

  predicate OpensData(s: Session, line: string) {
    !s.inData && s.rcpts != [] && IsCommand(line, DATA)
  }

  /** The `i`-th line is a DATA command that is obeyed. */
  predicate Opens(lines: seq<string>, i: nat)
    requires i < |lines|
  {
    OpensData(RunLines(Start(), lines[..i]), lines[i])
  }

  /** A mail is the text between the DATA command at `i` and the next lone dot, at `j`, with the sender and the first
      recipient that the session has at the command. */
  predicate IsTransaction(lines: seq<string>, m: Mail, i: int, j: int) {
    && 0 <= i < j < |lines| && Opens(lines, i) && "." !in lines[i + 1..j] && lines[j] == "."
    && var before := RunLines(Start(), lines[..i]);
       m == Mail(ExtractEmailAddress(before.from), ExtractEmailAddress(before.rcpts[0]), Joined(lines[i + 1..j]))
  }

  /** Mails and the places of their transactions, which follow one another. */
  predicate Ledger(lines: seq<string>, mails: seq<Mail>, places: seq<(int, int)>) {
    && |places| == |mails|
    && (forall k :: 0 <= k < |places| ==> IsTransaction(lines, mails[k], places[k].0, places[k].1))
    && forall k, l :: 0 <= k < l < |places| ==> places[k].1 < places[l].0
  }

  /** The data collected since the DATA command at `i`. */
  predicate Collecting(lines: seq<string>, s: Session, i: int) {
    && 0 <= i < |lines| && Opens(lines, i) && "." !in lines[i + 1..] && s.data == Joined(lines[i + 1..])
    && var before := RunLines(Start(), lines[..i]);
       s.from == before.from && s.rcpts == before.rcpts
  }

  /** Every DATA command that was obeyed has its transaction, or is the one still open. */
  predicate Complete(lines: seq<string>, places: seq<(int, int)>, open: int) {
    forall i :: 0 <= i < |lines| && Opens(lines, i) ==> i == open || exists k :: 0 <= k < |places| && places[k].0 == i
  }

  const NONE: int := -1

  /** The transactions of a session so far. */
  lemma {:induction false} TransactionsSoFar(lines: seq<string>) returns (places: seq<(int, int)>, open: int)
    ensures var s := RunLines(Start(), lines);
            && Consistent(s) && Ledger(lines, s.mails, places) && Complete(lines, places, open)
            && (if s.inData then Collecting(lines, s, open) else open == NONE)
            && (s.inData ==> forall k :: 0 <= k < |places| ==> places[k].1 < open)
    decreases |lines|
  {
    hide ProcessLine, IsTransaction, Collecting, ExtractEmailAddress, Consistent, Complete, OpensData;
    places, open := [], NONE;
    if lines == [] {
      StartIsConsistent();
      assert Complete([], [], NONE) by {
        NothingOpened();
      }
    } else {
      var n := |lines| - 1;
      var front, line := lines[..n], lines[n];
      var s := RunLines(Start(), front);
      places, open := TransactionsSoFar(front);
      LineKeepsConsistent(s, line);
      LedgerStays(lines, s.mails, places);
      var earlier, was := places, open;
      if s.inData && line == "." {
        DotSaves(lines, s, open);
        var mails := ProcessLine(s, ".").mails;
        assert mails == s.mails + [mails[|s.mails|]];
        LedgerGrows(lines, s.mails, places, mails[|s.mails|], open, n);
        places, open := places + [(open, n)], NONE;
      } else if s.inData {
        StillCollecting(lines, s, open);
        DataLine(s, line);
      } else {
        CommandLine(s, line);
        if ProcessLine(s, line).inData {
          StartsCollecting(lines, s);
          open := n;
        }
      }
      StaysComplete(lines, s, earlier, was, places, open);
    }
  }

  lemma NothingOpened()
    ensures Complete([], [], NONE)
  {
  }

  lemma StartIsConsistent()
    ensures Consistent(Start()) && !Start().inData && Start().mails == []
  {
  }

  /** What a command can do to mails and data mode. */
  lemma CommandLine(s: Session, line: string)
    requires !s.inData && Consistent(s)
    ensures var r := ProcessLine(s, line);
            && r.mails == s.mails && (r.inData <==> OpensData(s, line))
            && (r.inData ==> r.data == "" && r.from == s.from && r.rcpts == s.rcpts)
  {
    hide ParseLine, ProcessRequest;
    RequestChanges(s, ParseLine(line));
  }

  lemma SameOpening(lines: seq<string>, i: nat)
    requires i < |lines| - 1
    ensures Opens(lines, i) == Opens(lines[..|lines| - 1], i)
  {
    hide RunLines, OpensData;
    assert lines[..|lines| - 1][..i] == lines[..i];
  }

  lemma LedgerStays(lines: seq<string>, mails: seq<Mail>, places: seq<(int, int)>)
    requires lines != [] && Ledger(lines[..|lines| - 1], mails, places)
    ensures Ledger(lines, mails, places)
    ensures forall k :: 0 <= k < |places| ==> places[k].0 < places[k].1 < |lines| - 1
  {
    hide IsTransaction;
    var front := lines[..|lines| - 1];
    forall k | 0 <= k < |places|
      ensures IsTransaction(lines, mails[k], places[k].0, places[k].1) && places[k].0 < places[k].1 < |lines| - 1
    {
      TransactionStays(lines, mails[k], places[k].0, places[k].1);
    }
  }

  lemma TransactionStays(lines: seq<string>, m: Mail, i: int, j: int)
    requires lines != [] && IsTransaction(lines[..|lines| - 1], m, i, j)
    ensures IsTransaction(lines, m, i, j) && i < j < |lines| - 1
  {
    hide RunLines, Joined, OpensData, ExtractEmailAddress;
    var front := lines[..|lines| - 1];
    SameOpening(lines, i);
    assert front[..i] == lines[..i] && front[i + 1..j] == lines[i + 1..j];
  }

  lemma StillCollecting(lines: seq<string>, s: Session, i: int)
    requires lines != [] && Collecting(lines[..|lines| - 1], s, i) && lines[|lines| - 1] != "."
    ensures Collecting(lines, s.(data := s.data + lines[|lines| - 1] + CRLF()), i)
  {
    hide RunLines, OpensData, Joined;
    var n := |lines| - 1;
    var front := lines[..n];
    SameOpening(lines, i);
    assert front[..i] == lines[..i] && lines[i + 1..] == front[i + 1..] + [lines[n]];
    JoinedGrows(front[i + 1..], lines[n]);
  }

  lemma JoinedGrows(body: seq<string>, line: string)
    ensures Joined(body + [line]) == Joined(body) + line + CRLF()
  {
    assert (body + [line])[..|body|] == body;
  }

  lemma StartsCollecting(lines: seq<string>, s: Session)
    requires lines != [] && s == RunLines(Start(), lines[..|lines| - 1])
    requires var line := lines[|lines| - 1];
             OpensData(s, line) && ProcessLine(s, line).data == ""
             && ProcessLine(s, line).from == s.from && ProcessLine(s, line).rcpts == s.rcpts
    ensures Collecting(lines, ProcessLine(s, lines[|lines| - 1]), |lines| - 1)
  {
    hide RunLines, OpensData, ProcessLine;
    var n := |lines| - 1;
    assert lines[n + 1..] == [] && Joined([]) == "";
  }

  /** The dot saves one more mail, which is a transaction. */
  lemma DotSaves(lines: seq<string>, s: Session, i: int)
    requires lines != [] && lines[|lines| - 1] == "." && s.inData && Consistent(s)
    requires Collecting(lines[..|lines| - 1], s, i)
    ensures var r := ProcessLine(s, ".");
            && !r.inData && |r.mails| == |s.mails| + 1 && r.mails[..|s.mails|] == s.mails
            && IsTransaction(lines, r.mails[|s.mails|], i, |lines| - 1)
  {
    hide RunLines, OpensData, ExtractEmailAddress, Joined;
    var n := |lines| - 1;
    var front := lines[..n];
    SameOpening(lines, i);
    assert front[..i] == lines[..i] && lines[i + 1..n] == front[i + 1..];
  }

  lemma LedgerGrows(lines: seq<string>, mails: seq<Mail>, places: seq<(int, int)>, m: Mail, i: int, j: int)
    requires Ledger(lines, mails, places) && IsTransaction(lines, m, i, j)
    requires forall k :: 0 <= k < |places| ==> places[k].1 < i
    ensures Ledger(lines, mails + [m], places + [(i, j)])
  {
    hide IsTransaction;
  }

  /** One more line opens at most itself. */
  lemma StaysComplete(lines: seq<string>, s: Session, earlier: seq<(int, int)>, was: int, places: seq<(int, int)>, open: int)
    requires lines != [] && s == RunLines(Start(), lines[..|lines| - 1])
    requires Complete(lines[..|lines| - 1], earlier, was) && earlier <= places
    requires was == open || was == NONE || (places != [] && places[|places| - 1].0 == was)
    requires !s.inData && OpensData(s, lines[|lines| - 1]) ==> open == |lines| - 1
    ensures Complete(lines, places, open)
  {
    hide RunLines, OpensData;
    var n := |lines| - 1;
    forall i | 0 <= i < |lines| && Opens(lines, i)
      ensures i == open || exists k :: 0 <= k < |places| && places[k].0 == i
    {
      if i < n {
        SameOpening(lines, i);
        if i != was {
          var k :| 0 <= k < |earlier| && earlier[k].0 == i;
          assert places[k] == earlier[k];
        }
      } else {
        OpenedHere(s, lines[n]);
      }
    }
  }

  lemma OpenedHere(s: Session, line: string)
    requires OpensData(s, line)
    ensures !s.inData
  {
  }

  /** The mails of a session are its DATA-to-dot transactions, one to one and in their order: each mail is the text of its
      own transaction, and every obeyed DATA command with a lone dot behind it has one. */
  lemma MailsAreTransactions(lines: seq<string>) returns (places: seq<(int, int)>)
    ensures Ledger(lines, RunLines(Start(), lines).mails, places)
    ensures forall i :: 0 <= i < |lines| && Opens(lines, i) && "." in lines[i + 1..] ==>
        exists k :: 0 <= k < |places| && places[k].0 == i
  {
    hide Ledger, Opens, RunLines, Consistent;
    var open: int;
    places, open := TransactionsSoFar(lines);
  }

  /** Behind a QUIT the cut does matter: the rest of the same read is still processed, a later read is not. */
  lemma MailBehindQuit(rcpt: string, quit: string, data: string)
    requires IsLine(rcpt) && IsLine(quit) && IsLine(data)
    requires IsCommand(rcpt, RCPT) && IsCommand(quit, QUIT) && IsCommand(data, DATA)
    ensures var a, b := Joined([rcpt, quit]), Joined([data, "."]);
            |Deliver(Start(), a + b).mails| == 1 && DeliverAll(Start(), [a, b]).mails == []
  {
    hide Joined, RunLines, ProcessLine, IsLine, IsCommand, Deliver;
    var first, second := [rcpt, quit], [data, "."];
    JoinedOfTwo(first, data, ".");
    PlainIsLine(".");
    DeliverLines(Start(), first);
    DeliverLines(Start(), first + second);
    RunLinesOfConcat(Start(), first, second);
    RunTwo(Start(), rcpt, quit);
    RunTwo(RunLines(Start(), first), data, ".");
    QuitThenData(rcpt, quit, data);
    DeliverToClosed(RunLines(Start(), first), [Joined(second)]);
    TwoReads(Start(), Joined(first), Joined(second));
  }

  lemma TwoReads(s: Session, a: string, b: string)
    ensures DeliverAll(s, [a, b]) == DeliverAll(Deliver(s, a), [b])
  {
    hide Deliver;
    assert [a, b][1..] == [b];
  }

  /** The bytes of some lines, read at once. */
  lemma DeliverLines(s: Session, lines: seq<string>)
    requires s.buffer == "" && !s.closed && forall i :: 0 <= i < |lines| ==> IsLine(lines[i])
    ensures Deliver(s, Joined(lines)) == RunLines(s, lines)
  {
    hide Drain, Joined, RunLines, IsLine;
    StreamOfLines(s, lines);
    assert s.buffer + Joined(lines) == Joined(lines);
  }

  /** Such a stream, in full. */
  lemma MailBehindQuitInFull()
    ensures var a, b := Joined(["RCPT me", "QUIT"]), Joined(["DATA", "."]);
            |Deliver(Start(), a + b).mails| == 1 && DeliverAll(Start(), [a, b]).mails == []
  {
    hide Joined, Deliver, DeliverAll, ParseLine;
    LiteralCommands();
    LiteralLines();
    MailBehindQuit("RCPT me", "QUIT", "DATA");
  }

  // ----- When no split matters -----

  /** The `j`-th line is a lone dot that ends a transaction. */
  predicate SavesMail(s: Session, lines: seq<string>, j: nat)
    requires j < |lines|
  {
    RunLines(s, lines[..j]).inData && lines[j] == "."
  }

  /** The `i`-th line is a QUIT command that is obeyed. */
  predicate ObeysQuit(s: Session, lines: seq<string>, i: nat)
    requires i < |lines|
  {
    Quits(RunLines(s, lines[..i]), lines[i])
  }

  predicate NoMailBehindQuit(s: Session, lines: seq<string>) {
    forall i, j :: 0 <= i < j < |lines| && ObeysQuit(s, lines, i) ==> !SavesMail(s, lines, j)
  }

  lemma LineSaves(s: Session, line: string)
    ensures var r := ProcessLine(s, line);
            if s.inData && line == "." then |r.mails| == |s.mails| + 1 else r.mails == s.mails
  {
    hide ParseLine, ExtractEmailAddress, ProcessRequest;
    if !s.inData {
      RequestChanges(s, ParseLine(line));
    }
  }

  /** Mails are only added, and one is added exactly by each lone dot that ends a transaction. */
  lemma {:induction false} MailsAddedFrom(s: Session, lines: seq<string>, k: nat)
    requires k <= |lines|
    ensures var before, after := RunLines(s, lines[..k]).mails, RunLines(s, lines).mails;
            && |before| <= |after|
            && (after == before <==> forall j :: k <= j < |lines| ==> !SavesMail(s, lines, j))
    decreases |lines|
  {
    hide ProcessLine, RunLines;
    if k == |lines| {
      assert lines[..k] == lines;
    } else {
      var n := |lines| - 1;
      var front := lines[..n];
      assert lines == front + [lines[n]] && front[..k] == lines[..k];
      MailsAddedFrom(s, front, k);
      RunStep(s, front, lines[n]);
      LineSaves(RunLines(s, front), lines[n]);
      var saves := SavesMail(s, lines, n);
      forall j | k <= j < n ensures SavesMail(s, lines, j) == SavesMail(s, front, j) {
        assert front[..j] == lines[..j] && front[j] == lines[j];
      }
      hide SavesMail;
      assert (forall j :: k <= j < |lines| ==> !SavesMail(s, lines, j))
             <==> !saves && forall j :: k <= j < n ==> !SavesMail(s, front, j);
    }
  }

  lemma {:induction false} LinesOfPrefix(a: string, c: string)
    ensures LinesOf(a) <= LinesOf(a + c)
    decreases |a|
  {
    match FindCrlf(a)
    case None =>
    case Some(pos) =>
      FindCrlfOfConcat(a, c);
      assert (a + c)[..pos] == a[..pos] && (a + c)[pos + 2..] == a[pos + 2..] + c;
      LinesOfPrefix(a[pos + 2..], c);
  }

  lemma {:induction false} ConcatSplits(chunks: seq<string>, n: nat)
    requires n <= |chunks|
    ensures Concat(chunks) == Concat(chunks[..n]) + Concat(chunks[n..])
  {
    if n == 0 {
      assert chunks[..0] == [] && chunks[0..] == chunks && [] + Concat(chunks) == Concat(chunks);
    } else {
      ConcatSplits(chunks[1..], n - 1);
      assert chunks[..n][1..] == chunks[1..][..n - 1] && chunks[1..][n - 1..] == chunks[n..];
      var a, b := Concat(chunks[..n][1..]), Concat(chunks[n..]);
      hide Concat;
      assert chunks[0] + (a + b) == chunks[0] + a + b;
    }
  }

  /** Without a mail behind a QUIT no split matters. */
  lemma SplitSavesTheSame(s: Session, chunks: seq<string>)
    requires s.buffer == "" && !s.closed && NoMailBehindQuit(s, LinesOf(Concat(chunks)))
    ensures DeliverAll(s, chunks).mails == Deliver(s, Concat(chunks)).mails
  {
    hide Drain, Deliver, DeliverAll, RunLines, LinesOf, RestOf, Concat, Quits;
    assert FindCrlf(s.buffer) == None;
    ChunksAreOneRead(s, chunks);
    var n := ChunksRead(s, chunks);
    ConcatSplits(chunks, n);
    if n == |chunks| {
      assert chunks[..n] == chunks;
    } else {
      var a, b := Concat(chunks[..n]), Concat(chunks);
      LinesOfPrefix(a, Concat(chunks[n..]));
      StreamRunsLines(s, a);
      StreamRunsLines(s, b);
      ClosedPrefixSavesAll(s, LinesOf(a), LinesOf(b));
    }
  }

  lemma ClosedPrefixSavesAll(s: Session, front: seq<string>, lines: seq<string>)
    requires !s.closed && front <= lines && RunLines(s, front).closed && NoMailBehindQuit(s, lines)
    ensures RunLines(s, front).mails == RunLines(s, lines).mails
  {
    hide RunLines, Quits;
    ClosedByQuit(s, front);
    var i :| 0 <= i < |front| && Quits(RunLines(s, front[..i]), front[i]);
    assert lines[..|front|] == front && front[..i] == lines[..i] && front[i] == lines[i];
    assert ObeysQuit(s, lines, i);
    hide SavesMail, ObeysQuit;
    MailsAddedFrom(s, lines, |front|);
  }

  lemma {:induction false} JoinedSplits(a: seq<string>, b: seq<string>)
    ensures Joined(a + b) == Joined(a) + Joined(b)
    decreases |b|
  {
    if b == [] {
      assert a + b == a && Joined(a) + [] == Joined(a);
    } else {
      var front, last := b[..|b| - 1], b[|b| - 1];
      assert a + b == a + front + [last] && b == front + [last];
      JoinedSplits(a, front);
      LineAtTheEnd(a + front, last);
      LineAtTheEnd(front, last);
      hide Joined, CRLF;
      assert Joined(a) + Joined(front) + (last + CRLF()) == Joined(a) + (Joined(front) + (last + CRLF()));
    }
  }

  /** The split right behind an obeyed QUIT saves the mails up to there. */
  lemma SplitBehindQuit(s: Session, b: string, i: nat) returns (chunks: seq<string>)
    requires s.buffer == "" && !s.closed && i < |LinesOf(b)| && ObeysQuit(s, LinesOf(b), i)
    ensures Concat(chunks) == b && DeliverAll(s, chunks).mails == RunLines(s, LinesOf(b)[..i + 1]).mails
  {
    hide Drain, Deliver, DeliverAll, RunLines, LinesOf, RestOf, Joined, IsLine, ProcessLine, Quits;
    var lines, rest := LinesOf(b), RestOf(b);
    StreamIsLines(b);
    var front, behind := lines[..i + 1], lines[i + 1..];
    assert lines == front + behind && front == lines[..i] + [lines[i]];
    JoinedSplits(front, behind);
    var first, second := Joined(front), Joined(behind) + rest;
    chunks := [first, second];
    ConcatOfTwo(first, second);
    assert Joined(front) + Joined(behind) + rest == first + second;
    RunStep(s, lines[..i], lines[i]);
    QuitCloses(RunLines(s, lines[..i]), lines[i]);
    DeliverLines(s, front);
    TwoReads(s, first, second);
    DeliverToClosed(RunLines(s, front), [second]);
  }

  lemma ConcatOfTwo(a: string, b: string)
    ensures Concat([a, b]) == a + b
  {
    assert [a, b][1..] == [b] && [b][1..] == [] && Concat([]) == [] && b + [] == b;
    assert Concat([b]) == b + Concat([]);
  }

  /** All ways to cut a stream into reads save the mails of one read if and only if no lone dot ends a transaction behind
      an obeyed QUIT. */
  lemma SplitsAgreeExactly(s: Session, b: string)
    requires s.buffer == "" && !s.closed
    ensures (forall chunks: seq<string> :: Concat(chunks) == b ==> DeliverAll(s, chunks).mails == Deliver(s, b).mails)
            <==> NoMailBehindQuit(s, LinesOf(b))
  {
    hide Concat, DeliverAll, Deliver, LinesOf, RestOf, RunLines, SavesMail, ObeysQuit;
    var lines := LinesOf(b);
    if NoMailBehindQuit(s, lines) {
      forall chunks: seq<string> | Concat(chunks) == b ensures DeliverAll(s, chunks).mails == Deliver(s, b).mails {
        SplitSavesTheSame(s, chunks);
      }
    } else {
      var i, j :| 0 <= i < j < |lines| && ObeysQuit(s, lines, i) && SavesMail(s, lines, j);
      var chunks := SplitBehindQuit(s, b, i);
      MailsAddedFrom(s, lines, i + 1);
      StreamRunsLines(s, b);
      assert DeliverAll(s, chunks).mails != Deliver(s, b).mails;
    }
  }

  lemma LiteralCommands()
    ensures IsCommand("RCPT me", RCPT) && IsCommand("QUIT", QUIT) && IsCommand("DATA", DATA)
  {
    hide ParseLine, CommandNamed, Upper;
    ParseOfUpperWord("RCPT", " me");
    ParseOfUpperWord("QUIT", "");
    ParseOfUpperWord("DATA", "");
    assert "RCPT" + " me" == "RCPT me" && "QUIT" + "" == "QUIT" && "DATA" + "" == "DATA";
    NamesOfCommands();
  }

  lemma NamesOfCommands()
    ensures CommandNamed("RCPT") == RCPT && CommandNamed("QUIT") == QUIT && CommandNamed("DATA") == DATA
  {
    assert "RCPT"[0] == 'R' && "QUIT"[0] == 'Q' && "DATA"[0] == 'D';
  }

  /** An upper-case word, alone or in front of a space. */
  lemma ParseOfUpperWord(word: string, tail: string)
    requires word != "" && (forall i :: 0 <= i < |word| ==> 'A' <= word[i] <= 'Z') && (tail == "" || tail == " me")
    ensures ParseLine(word + tail).Some? && ParseLine(word + tail).value.cmd == CommandNamed(word)
  {
    hide ParseLine, CommandNamed;
    ParseOfWord("", word, tail);
    assert "" + word + tail == word + tail;
    assert CutAtSpace(TrimRight(tail)).0 == "";
    assert word + "" == word && Upper(word) == word;
  }

  lemma LiteralLines()
    ensures IsLine("RCPT me") && IsLine("QUIT") && IsLine("DATA")
  {
    PlainIsLine("RCPT me");
    PlainIsLine("QUIT");
    PlainIsLine("DATA");
  }

  lemma {:induction false} PlainIsLine(s: string)
    requires '\r' !in s
    ensures IsLine(s)
  {
    var b := s + CRLF();
    if s != [] {
      assert b[0] == s[0] && b[1..] == s[1..] + CRLF();
      PlainIsLine(s[1..]);
    }
  }

  lemma JoinedOfTwo(front: seq<string>, a: string, b: string)
    ensures Joined(front + [a, b]) == Joined(front) + Joined([a, b])
  {
    assert front + [a, b] == front + [a] + [b] && [a, b] == [a] + [b];
    LineAtTheEnd(front + [a], b);
    LineAtTheEnd(front, a);
    LineAtTheEnd([a], b);
    JoinedOfOne(a);
    hide Joined, CRLF;
    assert Joined(front) + (a + CRLF()) + (b + CRLF()) == Joined(front) + ((a + CRLF()) + (b + CRLF()));
  }

  lemma JoinedOfOne(a: string)
    ensures Joined([a]) == a + CRLF()
  {
    assert [] + [a] == [a];
    LineAtTheEnd([], a);
  }

  lemma RunTwo(s: Session, a: string, b: string)
    ensures RunLines(s, [a, b]) == ProcessLine(ProcessLine(s, a), b)
  {
    hide ProcessLine;
    assert [a, b] == [a] + [b];
    RunLinesOfConcat(s, [a], [b]);
    RunOneLine(s, a);
    RunOneLine(ProcessLine(s, a), b);
  }

  lemma QuitThenData(rcpt: string, quit: string, data: string)
    requires IsCommand(rcpt, RCPT) && IsCommand(quit, QUIT) && IsCommand(data, DATA)
    ensures var t := ProcessLine(ProcessLine(Start(), rcpt), quit);
            t.closed && t.mails == [] && |ProcessLine(ProcessLine(t, data), ".").mails| == 1
  {
    hide ParseLine, ExtractEmailAddress;
  }
}

/** The session as an object whose methods refine the functions above. */
module SmtpSessionClass {
  import opened Prelude
  import opened SmtpParser
  import opened SmtpSpec

  class SmtpSession {
    var readBuffer: string
    var currentMailFrom: string
    var rcptTo: seq<string>
    var dataBuffer: string
    var inDataMode: bool
    var closed: bool
    /** What has been handed to the connection, and the mails written. */
    var sent: seq<string>
    var saved: seq<Mail>

    ghost function View(): Session
      reads this
    {
      Session(readBuffer, currentMailFrom, rcptTo, dataBuffer, inDataMode, closed, sent, saved)
    }

    /** The session behind its greeting. */
    constructor ()
      ensures View() == Start()
    {
      readBuffer, currentMailFrom, rcptTo, dataBuffer := "", "", [], "";
      inDataMode, closed, sent, saved := false, false, ["220 smtp server Service ready\r\n"], [];
    }

    method Write(reply: string)
      modifies this`sent
      ensures View() == SmtpSpec.Write(old(View()), reply)
    {
      if !closed {
        sent := sent + [reply];
      }
    }

    method SaveEmail()
      modifies this`saved
      ensures View() == SmtpSpec.SaveEmail(old(View()))
    {
      var to := "";
      if rcptTo != [] {
        to := ExtractEmailAddress(rcptTo[0]);
      }
      saved := saved + [Mail(ExtractEmailAddress(currentMailFrom), to, dataBuffer)];
    }

    method HandleCommand(req: Request)
      modifies this
      ensures View() == SmtpSpec.HandleCommand(old(View()), req)
    {
      match req.cmd
      case HELO | EHLO | NOOP =>
        Write("250 OK\r\n");
      case MAIL =>
        currentMailFrom, rcptTo, dataBuffer := req.arg, [], "";
        Write("250 OK\r\n");
      case RCPT =>
        rcptTo := rcptTo + [req.arg];
        Write("250 OK\r\n");
      case DATA =>
        if rcptTo == [] {
          Write("503 Bad sequence of commands\r\n");
        } else {
          inDataMode := true;
          Write("354 Start mail input; end with <CRLF>.<CRLF>\r\n");
        }
      case QUIT =>
        Write("221 Service closing\r\n");
        closed := true;
      case RSET =>
        currentMailFrom, rcptTo, dataBuffer, inDataMode := "", [], "", false;
        Write("250 OK\r\n");
      case UNKNOWN =>
        Write("502 Command not implemented\r\n");
    }

    method ProcessLine(line: string)
      modifies this
      ensures View() == SmtpSpec.ProcessLine(old(View()), line)
    {
      hide SmtpSpec.SaveEmail, SmtpSpec.HandleCommand, ParseLine;
      if inDataMode {
        if line == "." {
          inDataMode := false;
          SaveEmail();
          Write("250 OK queued\r\n");
          dataBuffer := "";
        } else {
          dataBuffer := dataBuffer + line + CRLF();
        }
        return;
      }
      match ParseLine(line)
      case Some(req) => HandleCommand(req);
      case None => Write("500 Syntax error\r\n");
    }

    /** `read_cb` with bytes, or with none */
    method OnRead(chunk: string)
      requires !closed
      modifies this
      ensures View() == Deliver(old(View()), chunk)
    {
      hide SmtpSpec.ProcessLine;
      readBuffer := readBuffer + chunk;
      ghost var whole := Drain(View());
      while true
        invariant Drain(View()) == whole
        decreases |readBuffer|
      {
        var pos := FindCrlf(readBuffer);
        if pos.None? {
          break;
        }
        var line := readBuffer[..pos.value];
        readBuffer := readBuffer[pos.value + 2..];
        ghost var rest := View();
        ProcessLine(line);
        assert View().buffer == rest.buffer;
      }
    }

    /** `read_cb` with an error or the end of the stream */
    method OnReadError()
      modifies this`closed
      ensures View() == old(View()).(closed := true)
    {
      closed := true;
    }
  }
}
