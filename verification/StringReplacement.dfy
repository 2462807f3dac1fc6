/**
 * Text replacement: the greedy left-to-right replacement of at most so many occurrences,
 * the two-pass replacer that fills a buffer of the exact size, and the in-place loops.
 * The search of the standard library is modelled by what it returns.
 */
module ReplacementSpec {
  import opened Prelude

  predicate StartsWith(s: string, needle: string) {
    |needle| <= |s| && s[..|needle|] == needle
  }

  /** One replacement less; None is no limit. */
  function Less(limit: Option<nat>): Option<nat>
    requires limit != Some(0)
  {
    if limit.None? then None else Some(limit.value - 1)
  }

  /** The reference: read from the left, replace what matches here, keep what does not. */
  function Greedy(s: string, needle: string, replacement: string, limit: Option<nat>): string
    requires needle != []
    decreases |s|
  {
    if limit == Some(0) || |s| < |needle| then s
    else if StartsWith(s, needle) then replacement + Greedy(s[|needle|..], needle, replacement, Less(limit))
    else [s[0]] + Greedy(s[1..], needle, replacement, limit)
  }

  /** `find`: the first match at or behind a place */
  function Find(s: string, needle: string, from: nat): (r: Option<nat>)
    requires from <= |s|
    ensures r.Some? ==> from <= r.value <= |s| - |needle| && StartsWith(s[r.value..], needle)
    ensures forall i :: from <= i < (if r.Some? then r.value else |s| + 1) ==> !StartsWith(s[i..], needle)
    decreases |s| - from
  {
    if StartsWith(s[from..], needle) then Some(from)
    else if from == |s| then None
    else Find(s, needle, from + 1)
  }

  /** The positions that get replaced. */
  function Matches(s: string, needle: string, from: nat, limit: Option<nat>): seq<nat>
    requires needle != [] && from <= |s|
    decreases |s| - from
  {
    if limit == Some(0) || Find(s, needle, from).None? then [] else
    var p := Find(s, needle, from).value;
    [p] + Matches(s, needle, p + |needle|, Less(limit))
  }

  /** Positions in order, apart from each other and inside the text. */
  predicate Spaced(s: string, width: nat, positions: seq<nat>, from: nat)
    decreases |positions|
  {
    if positions == [] then from <= |s|
    else from <= positions[0] && Spaced(s, width, positions[1..], positions[0] + width)
  }

  /** The text with the replacement put in at the positions. */
  function Rebuilt(s: string, width: nat, replacement: string, positions: seq<nat>, from: nat): string
    requires Spaced(s, width, positions, from)
    decreases |positions|
  {
    if positions == [] then s[from..] else
    SpacedInside(s, width, positions, from);
    s[from..positions[0]] + replacement + Rebuilt(s, width, replacement, positions[1..], positions[0] + width)
  }

  lemma {:induction false} SpacedInside(s: string, width: nat, positions: seq<nat>, from: nat)
    requires Spaced(s, width, positions, from)
    ensures from + |positions| * width <= |s|
    ensures positions != [] ==> from <= positions[0] <= positions[0] + width <= |s|
    decreases |positions|
  {
    if positions != [] {
      SpacedInside(s, width, positions[1..], positions[0] + width);
      assert |positions| * width == |positions[1..]| * width + width;
    }
  }

  // ----- The two passes compute the greedy replacement -----

  /** The replacement of the match at `p` and what follows. */
  function Behind(s: string, needle: string, replacement: string, p: nat, limit: Option<nat>): string
    requires needle != [] && p + |needle| <= |s| && limit != Some(0)
  {
    replacement + Greedy(s[p + |needle|..], needle, replacement, Less(limit))
  }

  /** The text up to the first match is kept, that match is replaced, and the text behind it is treated greedily. */
  function FirstReplaced(s: string, needle: string, replacement: string, from: nat, limit: Option<nat>): string
    requires needle != [] && from <= |s| && limit != Some(0)
  {
    match Find(s, needle, from)
    case None => s[from..]
    case Some(p) => s[from..p] + Behind(s, needle, replacement, p, limit)
  }

  /** Up to the next match the text is kept. */
  lemma {:induction false} GreedySkips(s: string, needle: string, replacement: string, from: nat, limit: Option<nat>)
    requires needle != [] && from <= |s| && limit != Some(0)
    ensures Greedy(s[from..], needle, replacement, limit) == FirstReplaced(s, needle, replacement, from, limit)
    decreases |s| - from
  {
    hide Find, Greedy, StartsWith, FirstReplaced;
    if StartsWith(s[from..], needle) {
      MatchHere(s, needle, replacement, from, limit);
    } else if |s[from..]| < |needle| {
      NoMatchFits(s, needle, replacement, from, limit);
    } else {
      GreedyStep(s, needle, replacement, from, limit);
      SkipStep(s, needle, replacement, from, limit);
      GreedySkips(s, needle, replacement, from + 1, limit);
    }
  }

  lemma MatchHere(s: string, needle: string, replacement: string, from: nat, limit: Option<nat>)
    requires needle != [] && from <= |s| && limit != Some(0) && StartsWith(s[from..], needle)
    ensures Greedy(s[from..], needle, replacement, limit) == FirstReplaced(s, needle, replacement, from, limit)
  {
    assert s[from..][|needle|..] == s[from + |needle|..];
    var rest := replacement + Greedy(s[from + |needle|..], needle, replacement, Less(limit));
    assert s[from..from] + rest == rest;
  }

  lemma NoMatchFits(s: string, needle: string, replacement: string, from: nat, limit: Option<nat>)
    requires needle != [] && from <= |s| && limit != Some(0) && |s[from..]| < |needle|
    ensures Greedy(s[from..], needle, replacement, limit) == FirstReplaced(s, needle, replacement, from, limit)
  {
    hide Find;
    NoRoom(s, needle, from);
  }

  /** A character where no match starts is kept. */
  lemma GreedyStep(s: string, needle: string, replacement: string, from: nat, limit: Option<nat>)
    requires needle != [] && from <= |s| && limit != Some(0) && !StartsWith(s[from..], needle) && |s[from..]| >= |needle|
    ensures Greedy(s[from..], needle, replacement, limit) == [s[from]] + Greedy(s[from + 1..], needle, replacement, limit)
  {
    assert s[from..][1..] == s[from + 1..];
  }

  lemma SkipStep(s: string, needle: string, replacement: string, from: nat, limit: Option<nat>)
    requires needle != [] && from < |s| && limit != Some(0) && !StartsWith(s[from..], needle)
    ensures FirstReplaced(s, needle, replacement, from, limit) == [s[from]] + FirstReplaced(s, needle, replacement, from + 1, limit)
  {
    FindLater(s, needle, from);
    hide Find, StartsWith, Behind;
    var found := Find(s, needle, from);
    if found.Some? {
      SkipOne(s, from, found.value, Behind(s, needle, replacement, found.value, limit));
    }
  }

  lemma FindLater(s: string, needle: string, from: nat)
    requires from < |s| && !StartsWith(s[from..], needle)
    ensures Find(s, needle, from) == Find(s, needle, from + 1)
    ensures s[from..] == [s[from]] + s[from + 1..]
  {
  }

  lemma SkipOne(s: string, from: nat, p: nat, rest: string)
    requires from < p <= |s|
    ensures s[from..p] + rest == [s[from]] + (s[from + 1..p] + rest)
  {
    assert s[from..p] == [s[from]] + s[from + 1..p];
  }

  lemma NoRoom(s: string, needle: string, from: nat)
    requires from <= |s| && |s[from..]| < |needle|
    ensures Find(s, needle, from) == None
  {
  }

  lemma {:induction false} MatchesAreSpaced(s: string, needle: string, from: nat, limit: Option<nat>)
    requires needle != [] && from <= |s|
    ensures Spaced(s, |needle|, Matches(s, needle, from, limit), from)
    ensures limit.Some? ==> |Matches(s, needle, from, limit)| <= limit.value
    decreases |s| - from
  {
    hide Find;
    if limit != Some(0) && Find(s, needle, from).Some? {
      var p := Find(s, needle, from).value;
      MatchesAreSpaced(s, needle, p + |needle|, Less(limit));
      assert Matches(s, needle, from, limit)[1..] == Matches(s, needle, p + |needle|, Less(limit));
    }
  }

  /** Putting the replacement in at the matches found is the greedy replacement. */
  lemma {:induction false} TwoPassesAreGreedy(s: string, needle: string, replacement: string, from: nat, limit: Option<nat>)
    requires needle != [] && from <= |s|
    ensures var positions := Matches(s, needle, from, limit);
            && Spaced(s, |needle|, positions, from)
            && Rebuilt(s, |needle|, replacement, positions, from) == Greedy(s[from..], needle, replacement, limit)
    decreases |s| - from
  {
    hide Greedy, Find, Spaced, Rebuilt, Matches;
    if limit == Some(0) {
      GreedyWithoutLimitLeft(s[from..], needle, replacement);
      NoMatches(s, needle, replacement, from, limit);
    } else {
      GreedySkips(s, needle, replacement, from, limit);
      if Find(s, needle, from).Some? {
        var p := Find(s, needle, from).value;
        TwoPassesAreGreedy(s, needle, replacement, p + |needle|, Less(limit));
        MatchesStep(s, needle, replacement, from, limit, Matches(s, needle, p + |needle|, Less(limit)));
      } else {
        NoMatches(s, needle, replacement, from, limit);
      }
    }
  }

  lemma NoMatches(s: string, needle: string, replacement: string, from: nat, limit: Option<nat>)
    requires needle != [] && from <= |s| && (limit == Some(0) || Find(s, needle, from).None?)
    ensures var positions := Matches(s, needle, from, limit);
            Spaced(s, |needle|, positions, from) && Rebuilt(s, |needle|, replacement, positions, from) == s[from..]
  {
  }

  lemma MatchesStep(s: string, needle: string, replacement: string, from: nat, limit: Option<nat>, rest: seq<nat>)
    requires needle != [] && from <= |s| && limit != Some(0) && Find(s, needle, from).Some?
    requires var next := Find(s, needle, from).value + |needle|;
             rest == Matches(s, needle, next, Less(limit)) && Spaced(s, |needle|, rest, next)
    ensures var positions, p := Matches(s, needle, from, limit), Find(s, needle, from).value;
            && Spaced(s, |needle|, positions, from)
            && Rebuilt(s, |needle|, replacement, positions, from)
               == s[from..p] + replacement + Rebuilt(s, |needle|, replacement, rest, p + |needle|)
  {
    hide Find;
    assert Matches(s, needle, from, limit)[1..] == rest;
  }

  lemma GreedyWithoutLimitLeft(s: string, needle: string, replacement: string)
    requires needle != []
    ensures Greedy(s, needle, replacement, Some(0)) == s
  {
  }

  // ----- The size of the buffer -----

  /** The number of bytes written. */
  lemma {:induction false} RebuiltLength(s: string, width: nat, replacement: string, positions: seq<nat>, from: nat)
    requires Spaced(s, width, positions, from)
    ensures |Rebuilt(s, width, replacement, positions, from)|
            == |s| - from + |positions| * (|replacement| - width)
    decreases |positions|
  {
    SpacedInside(s, width, positions, from);
    if positions != [] {
      RebuiltLength(s, width, replacement, positions[1..], positions[0] + width);
      assert |positions| * (|replacement| - width) == |positions[1..]| * (|replacement| - width) + (|replacement| - width);
    }
  }

  /** `calculateOutputSize`, in unsigned arithmetic */
  function OutputSize(input: nat, matches: nat, replacement: nat, needle: nat): nat
    requires replacement < WORD && needle < WORD
  {
    var difference := if needle <= replacement then replacement - needle else replacement - needle + WORD;
    (input + matches * difference % WORD) % WORD
  }

  /** Wrapping at every step gives the true size modulo the word, so a size that fits is exact. */
  lemma OutputSizeWraps(input: nat, matches: nat, replacement: nat, needle: nat)
    requires replacement < WORD && needle < WORD
    ensures OutputSize(input, matches, replacement, needle) == (input + matches * (replacement - needle)) % WORD
  {
    var d := replacement - needle;
    var difference := if needle <= replacement then d else d + WORD;
    if needle > replacement {
      assert matches * difference == matches * d + matches * WORD by {
        Distribute(matches, d, WORD);
      }
      ModuloMultiple(matches * d, matches);
    }
    ModuloSum(input, matches * difference);
    ModuloSum(input, matches * d);
  }

  lemma Distribute(m: int, a: int, b: int)
    ensures m * (a + b) == m * a + m * b
  {
  }

  lemma ModuloMultiple(a: int, m: int)
    ensures (a + m * WORD) % WORD == a % WORD
  {
  }

  lemma ModuloSum(a: int, b: int)
    ensures (a + b % WORD) % WORD == (a + b) % WORD
  {
    var q := b / WORD;
    assert b == q * WORD + b % WORD;
    ModuloMultiple(a + b % WORD, q);
  }

  // ----- Path expansion -----

  /** The text of a path after its expansions; a path that is only `~` is the home directory itself. */
  function Expanded(path: string, home: string): string {
    if path == "~" then home else
    var tilde := if StartsWith(path, "~/") then home + path[1..] else path;
    Greedy(Greedy(tilde, "$HOME", home, None), "${HOME}", home, None)
  }

  /** The page title. */
  function Titled(content: string, title: string): string {
    Greedy(content, "<title>%REPLACE_WITH_TITLE_ID%</title>", "<title>" + title + "</title>", Some(1))
  }
}

/** The replacer with its passes, and the loops that edit a string in place. */
module StringReplacement {
  import opened Prelude
  import opened ReplacementSpec

  class StringReplacer {
    const needle: string
    const replacement: string

    constructor (needle: string, replacement: string)
      requires needle != []
      ensures this.needle == needle && this.replacement == replacement
    {
      this.needle := needle;
      this.replacement := replacement;
    }

    /** What the number of replacements that is asked for means. */
    function Limit(maxReplacements: nat): Option<nat> {
      if maxReplacements == 0 then None else Some(maxReplacements)
    }

    /** `findMatches` */
    method FindMatches(input: string, maxReplacements: nat) returns (positions: seq<nat>)
      requires needle != [] && |needle| <= |input|
      ensures positions == Matches(input, needle, 0, Limit(maxReplacements))
    {
      hide Find, Matches;
      positions := [];
      var pos := 0;
      ghost var limit := Limit(maxReplacements);
      assert [] + Matches(input, needle, 0, limit) == Matches(input, needle, 0, limit);
      while pos <= |input| - |needle|
        invariant pos <= |input| && limit != Some(0)
        invariant positions + Matches(input, needle, pos, limit) == Matches(input, needle, 0, Limit(maxReplacements))
        invariant maxReplacements > 0 ==> limit == Some(maxReplacements - |positions|)
        invariant maxReplacements == 0 ==> limit == None
        decreases |input| - pos
      {
        MatchesStep(input, needle, pos, limit);
        var found := Find(input, needle, pos);
        if found.None? {
          return;
        }
        ghost var rest := Matches(input, needle, found.value + |needle|, Less(limit));
        assert positions + ([found.value] + rest) == positions + [found.value] + rest;
        positions := positions + [found.value];
        pos := found.value + |needle|;
        limit := Less(limit);
        NoMoreMatches(input, needle, pos, limit);
        if maxReplacements > 0 && |positions| >= maxReplacements {
          return;
        }
      }
      NoRoom(input, needle, pos);
      NoMoreMatches(input, needle, pos, limit);
      assert positions + [] == positions;
    }

    lemma MatchesStep(input: string, needle: string, pos: nat, limit: Option<nat>)
      requires needle != [] && pos <= |input| && limit != Some(0)
      ensures var found := Find(input, needle, pos);
              Matches(input, needle, pos, limit)
              == if found.None? then [] else [found.value] + Matches(input, needle, found.value + |needle|, Less(limit))
    {
      hide Find;
    }

    lemma NoMoreMatches(input: string, needle: string, pos: nat, limit: Option<nat>)
      requires needle != [] && pos <= |input|
      ensures limit == Some(0) || Find(input, needle, pos).None? ==> Matches(input, needle, pos, limit) == []
    {
      hide Find;
    }

    /** `std::copy` into the output */
    method CopyInto(source: string, output: array<char>, at: nat)
      requires at + |source| <= output.Length
      modifies output
      ensures output[..at + |source|] == old(output[..at]) + source
      ensures output[at + |source|..] == old(output[at + |source|..])
    {
      for k := 0 to |source|
        invariant output[..at] == old(output[..at]) && output[at..at + k] == source[..k]
        invariant output[at + |source|..] == old(output[at + |source|..])
      {
        output[at + k] := source[k];
        assert output[at..at + k + 1] == output[at..at + k] + [source[k]];
      }
      assert output[..at + |source|] == output[..at] + output[at..at + |source|];
    }

    /** `performReplacement` */
    method PerformReplacement(input: string, positions: seq<nat>, output: array<char>)
      requires Spaced(input, |needle|, positions, 0)
      requires output.Length == |Rebuilt(input, |needle|, replacement, positions, 0)|
      modifies output
      ensures output[..] == Rebuilt(input, |needle|, replacement, positions, 0)
    {
      hide Rebuilt, Spaced;
      ghost var whole := Rebuilt(input, |needle|, replacement, positions, 0);
      var inputPos: nat, outputPos: nat := 0, 0;
      assert positions[0..] == positions && output[..0] + whole == whole;
      for k := 0 to |positions|
        invariant outputPos <= output.Length
        invariant Spaced(input, |needle|, positions[k..], inputPos)
        invariant output[..outputPos] + Rebuilt(input, |needle|, replacement, positions[k..], inputPos) == whole
      {
        var matchPos := positions[k];
        ghost var before := output[..outputPos];
        ghost var rest := NextPiece(input, positions, k, inputPos);
        assert before + (input[inputPos..matchPos] + replacement + rest) == before + input[inputPos..matchPos] + replacement + rest;
        if matchPos > inputPos {
          CopyInto(input[inputPos..matchPos], output, outputPos);
          outputPos := outputPos + (matchPos - inputPos);
        } else {
          assert input[inputPos..matchPos] == "" && before + "" == before;
        }
        CopyInto(replacement, output, outputPos);
        outputPos := outputPos + |replacement|;
        inputPos := matchPos + |needle|;
      }
      LastPiece(input, positions[|positions|..], inputPos);
      if inputPos < |input| {
        CopyInto(input[inputPos..], output, outputPos);
        assert output[..] == output[..outputPos + |input[inputPos..]|];
      } else {
        assert output[..] == output[..outputPos];
      }
    }

    ghost function NextPiece(input: string, positions: seq<nat>, k: nat, from: nat): (rest: string)
      requires k < |positions| && Spaced(input, |needle|, positions[k..], from)
      ensures from <= positions[k] && positions[k] + |needle| <= |input|
      ensures Spaced(input, |needle|, positions[k + 1..], positions[k] + |needle|)
      ensures rest == Rebuilt(input, |needle|, replacement, positions[k + 1..], positions[k] + |needle|)
      ensures Rebuilt(input, |needle|, replacement, positions[k..], from) == input[from..positions[k]] + replacement + rest
    {
      SpacedInside(input, |needle|, positions[k..], from);
      assert positions[k..][1..] == positions[k + 1..];
      Rebuilt(input, |needle|, replacement, positions[k + 1..], positions[k] + |needle|)
    }

    lemma LastPiece(input: string, positions: seq<nat>, from: nat)
      requires positions == [] && Spaced(input, |needle|, positions, from)
      ensures from <= |input| && Rebuilt(input, |needle|, replacement, positions, from) == input[from..]
    {
    }

    /** `replace`: the greedy replacement, whenever its size can be represented. */
    method Replace(input: string, maxReplacements: nat) returns (result: string)
      requires needle != [] && |needle| < WORD && |replacement| < WORD
      requires |Greedy(input, needle, replacement, Limit(maxReplacements))| < WORD
      ensures result == Greedy(input, needle, replacement, Limit(maxReplacements))
    {
      hide Greedy, Matches, Rebuilt, Spaced, OutputSize;
      TwoPassesAreGreedy(input, needle, replacement, 0, Limit(maxReplacements));
      assert input[0..] == input;
      if |input| == 0 || |input| < |needle| {
        TooShort(input, needle, replacement, Limit(maxReplacements));
        return input;
      }
      var positions := FindMatches(input, maxReplacements);
      if positions == [] {
        LastPiece(input, positions, 0);
        return input;
      }
      var size := OutputSize(|input|, |positions|, |replacement|, |needle|);
      RebuiltLength(input, |needle|, replacement, positions, 0);
      OutputSizeWraps(|input|, |positions|, |replacement|, |needle|);
      Fits(|Rebuilt(input, |needle|, replacement, positions, 0)|);
      var output := new char[size](i => '\0');
      PerformReplacement(input, positions, output);
      return output[..];
    }

    lemma Fits(n: nat)
      requires n < WORD
      ensures n % WORD == n
    {
    }
  }

  lemma TooShort(s: string, needle: string, replacement: string, limit: Option<nat>)
    requires needle != [] && |s| < |needle|
    ensures Greedy(s, needle, replacement, limit) == s
  {
  }

  /** One of the two expansion loops of `resolve_path` */
  method ExpandInPlace(text: string, needle: string, home: string) returns (path: string)
    requires needle != []
    ensures path == Greedy(text, needle, home, None)
  {
    hide Greedy, Find;
    path := text;
    var pos := 0;
    assert text[0..] == text && text[..0] + Greedy(text, needle, home, None) == Greedy(text, needle, home, None);
    while true
      invariant pos <= |path|
      invariant path[..pos] + Greedy(path[pos..], needle, home, None) == Greedy(text, needle, home, None)
      decreases |path| - pos
    {
      GreedySkips(path, needle, home, pos, None);
      var found := Find(path, needle, pos);
      if found.None? {
        break;
      }
      var p := found.value;
      var before, rest := path[..p], path[p + |needle|..];
      assert path[..pos] + path[pos..p] == before;
      path := before + home + rest;
      pos := p + |home|;
      assert path[..pos] == before + home && path[pos..] == rest;
    }
    assert path[..pos] + path[pos..] == path;
  }

  /** The expansions of `resolve_path` */
  method ExpandPath(text: string, home: string) returns (path: string)
    ensures path == Expanded(text, home)
  {
    hide Greedy;
    path := text;
    if StartsWith(path, "~/") {
      path := home + path[1..];
    } else if path == "~" {
      return home;
    }
    path := ExpandInPlace(path, "$HOME", home);
    path := ExpandInPlace(path, "${HOME}", home);
  }

  /** `titlePlaceholder` */
  method TitlePlaceholder(content: string, newTitle: string) returns (r: string)
    ensures r == Titled(content, newTitle)
  {
    hide Greedy, Find;
    var placeholder := "<title>%REPLACE_WITH_TITLE_ID%</title>";
    var pos := Find(content, placeholder, 0);
    var title := "<title>";
    title := title + newTitle;
    title := title + "</title>";
    r := content;
    GreedySkips(content, placeholder, title, 0, Some(1));
    assert content[0..] == content;
    if pos.Some? {
      r := content[..pos.value] + title + content[pos.value + |placeholder|..];
      GreedyWithoutLimitLeft(content[pos.value + |placeholder|..], placeholder, title);
      assert content[0..pos.value] == content[..pos.value];
    }
  }
}
