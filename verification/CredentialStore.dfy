/**
 * Saving, finding and removing credentials, as functions of the text of the store
 * file, and what these operations promise through the reload from that text.
 */
module CredentialSpec {
  import opened Prelude
  import opened Base64
  import opened CredentialFile
  import opened CredentialSpill

  datatype Query = Query(protocol: Option<string>, host: Option<string>, username: Option<string>)

  function QueryOf(c: Credential): Query {
    Query(c.protocol, c.host, c.username)
  }

  /** A null protocol or user name on either side matches anything; a null host matches nothing. */
  predicate Matches(q: Query, c: Credential) {
    && (q.protocol.None? || c.protocol.None? || q.protocol == c.protocol)
    && (q.host.Some? && q.host == c.host)
    && (q.username.None? || c.username.None? || q.username == c.username)
  }

  /** The match of `store_remove`, which wants a protocol on both sides. */
  predicate RemoveMatches(q: Query, c: Credential) {
    q.protocol.Some? && c.protocol.Some? && Matches(q, c)
  }

  function FirstMatch(cs: seq<Credential>, q: Query): nat {
    if cs == [] || Matches(q, cs[0]) then 0 else 1 + FirstMatch(cs[1..], q)
  }

  function Find(cs: seq<Credential>, q: Query): Option<Credential> {
    var i := FirstMatch(cs, q);
    if i < |cs| then Some(cs[i]) else None
  }

  /** An entry with a new password, and with a user name if it had none. */
  function Update(entry: Credential, c: Credential): Credential {
    entry.(password := c.password,
           username := if c.username.Some? && entry.username.None? then c.username else entry.username)
  }

  /** The entry that saving `c` into `cs` writes. */
  function Written(cs: seq<Credential>, c: Credential): Credential {
    var i := FirstMatch(cs, QueryOf(c));
    if i < |cs| then Update(cs[i], c) else c
  }

  function SaveInto(cs: seq<Credential>, c: Credential): seq<Credential> {
    var i := FirstMatch(cs, QueryOf(c));
    if i < |cs| then cs[i := Written(cs, c)] else cs + [Written(cs, c)]
  }

  function Kept(cs: seq<Credential>, q: Query): seq<Credential> {
    if cs == [] then [] else (if RemoveMatches(q, cs[0]) then [] else [cs[0]]) + Kept(cs[1..], q)
  }

  // ----- The operations on the file -----

  /** The text of the store file; None when there is no file. */
  type File = Option<string>

  predicate IsFile(file: File) {
    file.Some? ==> IsBytes(file.value)
  }

  function Entries(file: File): seq<Credential> {
    if file.None? then [] else Load(file.value)
  }

  lemma EntriesAreLoaded(file: File)
    requires IsFile(file)
    ensures AllLoaded(Entries(file)) && AllCStrings(Entries(file)) && AllStorable(Entries(file))
  {
    if file.Some? {
      LoadedAreStorable(file.value);
    }
    LoadedAreCStrings(Entries(file));
  }

  lemma {:induction false} LoadedAreCStrings(cs: seq<Credential>)
    requires AllLoaded(cs)
    ensures AllCStrings(cs) && AllStorable(cs)
  {
    if cs != [] {
      LoadedAreCStrings(cs[1..]);
    }
  }

  lemma {:induction false} CStringsOfUpdate(cs: seq<Credential>, i: nat, c: Credential)
    requires AllCStrings(cs) && IsCStrings(c) && i <= |cs|
    ensures AllCStrings(if i < |cs| then cs[i := c] else cs + [c])
  {
    if i == 0 {
      assert cs != [] ==> cs[0 := c][1..] == cs[1..];
    } else {
      CStringsOfUpdate(cs[1..], i - 1, c);
      var after := if i < |cs| then cs[i := c] else cs + [c];
      assert after[1..] == if i < |cs| then cs[1..][i - 1 := c] else cs[1..] + [c];
    }
  }

  /** `store_save` */
  function StoreSave(file: File, c: Credential): (r: File)
    requires IsFile(file) && IsCStrings(c)
  {
    SaveIntoIsCStrings(file, c);
    Some(Save(SaveInto(Entries(file), c)))
  }

  lemma SaveIntoIsCStrings(file: File, c: Credential)
    requires IsFile(file) && IsCStrings(c)
    ensures AllCStrings(SaveInto(Entries(file), c)) && IsCStrings(Written(Entries(file), c))
  {
    var cs := Entries(file);
    var i := FirstMatch(cs, QueryOf(c));
    EntriesAreLoaded(file);
    FirstMatchFinds(cs, QueryOf(c));
    if i < |cs| {
      LoadedAt(cs, i);
    }
    CStringsOfUpdate(cs, i, Written(cs, c));
  }

  /** `store_remove`: the new text of the file, which stays as it is when nothing was removed. */
  function StoreRemove(file: File, q: Query): File
    requires IsFile(file)
  {
    KeptAreLoaded(file, q);
    var kept := Kept(Entries(file), q);
    if |kept| < |Entries(file)| then Some(Save(kept)) else file
  }

  lemma KeptAreLoaded(file: File, q: Query)
    requires IsFile(file)
    ensures AllLoaded(Kept(Entries(file), q)) && AllCStrings(Kept(Entries(file), q)) && AllStorable(Kept(Entries(file), q))
  {
    EntriesAreLoaded(file);
    KeepLoaded(Entries(file), q);
    LoadedAreCStrings(Kept(Entries(file), q));
  }

  lemma {:induction false} KeepLoaded(cs: seq<Credential>, q: Query)
    requires AllLoaded(cs)
    ensures AllLoaded(Kept(cs, q))
  {
    if cs != [] {
      KeepLoaded(cs[1..], q);
      var tail := Kept(cs[1..], q);
      assert ([cs[0]] + tail)[1..] == tail && [] + tail == tail;
    }
  }

  // ----- First matches -----

  lemma {:induction false} FirstMatchFinds(cs: seq<Credential>, q: Query)
    ensures var i := FirstMatch(cs, q);
            && i <= |cs| && (i < |cs| ==> Matches(q, cs[i]))
            && forall j :: 0 <= j < i ==> !Matches(q, cs[j])
  {
    if cs != [] && !Matches(q, cs[0]) {
      FirstMatchFinds(cs[1..], q);
      forall j | 0 <= j < FirstMatch(cs, q) ensures !Matches(q, cs[j]) {
        assert j == 0 || cs[j] == cs[1..][j - 1];
      }
    }
  }

  lemma {:induction false} FirstMatchIs(cs: seq<Credential>, q: Query, i: nat)
    requires i <= |cs| && (i < |cs| ==> Matches(q, cs[i]))
    requires forall j :: 0 <= j < i ==> !Matches(q, cs[j])
    ensures FirstMatch(cs, q) == i
  {
    FirstMatchFinds(cs, q);
  }

  // ----- Reloading does not change what matches -----

  lemma MatchesLoaded(q: Query, c: Credential)
    requires IsLoaded(c)
    ensures Matches(q, Norm(c)) <==> Matches(q, c)
  {
    assert Norm(c).(password := c.password) == c;
  }

  /** Whether the entry that a save writes fits the file format, its path aside. */
  predicate CanWrite(file: File, c: Credential)
    requires IsFile(file) && IsCStrings(c)
  {
    SaveIntoIsCStrings(file, c);
    FrontStorable(Written(Entries(file), c))
  }

  /** What is read back after a save: the entries before the written one, whatever its line is read as, and the entries
      behind it. */
  function Reloaded(cs: seq<Credential>, c: Credential): seq<Credential>
    requires IsBytes(Str(Written(cs, c).password))
  {
    FirstMatchFinds(cs, QueryOf(c));
    var i, w := FirstMatch(cs, QueryOf(c)), Written(cs, c);
    NormAll(cs[..i]) + (Load(WholeLine(w)) + NormAll(Behind(cs, i)))
  }

  function Behind(cs: seq<Credential>, i: nat): seq<Credential> {
    if i < |cs| then cs[i + 1..] else []
  }

  lemma {:induction false} LinesOfConcat(a: seq<Credential>, b: seq<Credential>)
    requires AllCStrings(a) && AllCStrings(b)
    ensures AllCStrings(a + b) && Lines(a + b) == Lines(a) + Lines(b)
  {
    hide Lines, WholeLine, IsCStrings;
    if a == [] {
      assert a + b == b;
      LinesOfNone(Lines(b));
    } else {
      assert (a + b)[1..] == a[1..] + b && (a + b)[0] == a[0];
      LinesOfConcat(a[1..], b);
      LinesStep(a, Lines(b));
      LinesStep(a + b, []);
    }
  }

  lemma LinesOfNone(rest: string)
    ensures Lines([]) + rest == rest
  {
  }

  lemma LinesStep(cs: seq<Credential>, rest: string)
    requires cs != [] && AllCStrings(cs)
    ensures Lines(cs) + rest == WholeLine(cs[0]) + (Lines(cs[1..]) + rest)
    ensures Lines(cs) == WholeLine(cs[0]) + Lines(cs[1..])
  {
    hide PrintLine;
    var line, more := WholeLine(cs[0]), Lines(cs[1..]);
    hide Lines, WholeLine, AllCStrings, IsCStrings;
    assert line + (more + rest) == line + more + rest;
  }

  lemma {:induction false} PartsAreStorable(cs: seq<Credential>, i: nat)
    requires AllCStrings(cs) && AllStorable(cs) && i <= |cs|
    ensures AllCStrings(cs[..i]) && AllStorable(cs[..i]) && AllCStrings(cs[i..]) && AllStorable(cs[i..])
  {
    hide Storable, IsCStrings;
    if i > 0 {
      PartsAreStorable(cs[1..], i - 1);
      assert cs[..i][1..] == cs[1..][..i - 1] && cs[i..] == cs[1..][i - 1..];
    } else {
      assert cs[..0] == [] && cs[0..] == cs;
    }
  }

  lemma LinesAround(front: seq<Credential>, w: Credential, back: seq<Credential>)
    requires AllCStrings(front) && IsCStrings(w) && AllCStrings(back)
    ensures AllCStrings(front + ([w] + back))
    ensures Lines(front + ([w] + back)) == Lines(front) + (WholeLine(w) + Lines(back))
  {
    LineAlone(w);
    hide PrintLine, WholeLine, IsCStrings, Lines, AllCStrings;
    LinesOfConcat([w], back);
    LinesOfConcat(front, [w] + back);
  }

  lemma LineAlone(w: Credential)
    requires IsCStrings(w)
    ensures AllCStrings([w]) && Lines([w]) == WholeLine(w)
  {
    hide PrintLine;
    assert [w][1..] == [];
    assert WholeLine(w) + [] == WholeLine(w);
  }

  lemma LoadAround(front: seq<Credential>, w: Credential, back: seq<Credential>)
    requires AllCStrings(front) && AllStorable(front) && AllCStrings(back) && AllStorable(back)
    requires IsCStrings(w)
    ensures AllCStrings(front + ([w] + back))
    ensures Load(Save(front + ([w] + back))) == NormAll(front) + (Load(WholeLine(w)) + NormAll(back))
  {
    LinesAround(front, w, back);
    WholeLineEnds(w);
    hide Load, PrintLine, NormAll, WholeLine, Lines;
    LoadHeader(Lines(front + ([w] + back)));
    LoadLines(front, WholeLine(w) + Lines(back));
    LoadOfEnded(WholeLine(w), Lines(back));
    LoadLines(back, []);
    LoadNothing();
    assert Lines(back) + [] == Lines(back) && NormAll(back) + [] == NormAll(back);
  }

  lemma WholeLineEnds(w: Credential)
    requires IsBytes(Str(w.password))
    ensures WholeLine(w) != [] && WholeLine(w)[|WholeLine(w)| - 1] == '\n'
  {
    hide PrintLine;
  }

  lemma SavedAround(cs: seq<Credential>, c: Credential)
    ensures var i := FirstMatch(cs, QueryOf(c));
            i <= |cs| && SaveInto(cs, c) == cs[..i] + ([Written(cs, c)] + Behind(cs, i))
  {
    FirstMatchFinds(cs, QueryOf(c));
    hide Written, Matches, FirstMatch, QueryOf;
    var i := FirstMatch(cs, QueryOf(c));
    if i < |cs| {
      ReplacedAt(cs, i, Written(cs, c));
      assert Behind(cs, i) == cs[i + 1..];
    } else {
      assert cs[..i] == cs && [Written(cs, c)] + [] == [Written(cs, c)];
    }
  }

  lemma ReplacedAt(cs: seq<Credential>, i: nat, w: Credential)
    requires i < |cs|
    ensures cs[i := w] == cs[..i] + ([w] + cs[i + 1..])
  {
  }

  lemma EntriesAfterSave(file: File, c: Credential)
    requires IsFile(file) && IsCStrings(c)
    ensures IsBytes(Str(Written(Entries(file), c).password))
    ensures Entries(StoreSave(file, c)) == Reloaded(Entries(file), c)
  {
    SaveIntoIsCStrings(file, c);
    EntriesAreLoaded(file);
    var cs := Entries(file);
    SavedAround(cs, c);
    PartsAround(cs, FirstMatch(cs, QueryOf(c)));
    hide Load, Save, SaveInto, WholeLine, Matches, Written, NormAll, FirstMatch, AllStorable, AllCStrings, Behind, IsCStrings;
    var i := FirstMatch(cs, QueryOf(c));
    LoadAround(cs[..i], Written(cs, c), Behind(cs, i));
  }

  lemma PartsAround(cs: seq<Credential>, i: nat)
    requires AllCStrings(cs) && AllStorable(cs) && i <= |cs|
    ensures AllCStrings(cs[..i]) && AllStorable(cs[..i]) && AllCStrings(Behind(cs, i)) && AllStorable(Behind(cs, i))
  {
    PartsAreStorable(cs, i);
    PartsAreStorable(cs, if i < |cs| then i + 1 else i);
  }

  // ----- Finding in what is read back -----

  lemma {:induction false} FindInConcat(a: seq<Credential>, b: seq<Credential>, q: Query)
    ensures Find(a + b, q) == if Find(a, q).Some? then Find(a, q) else Find(b, q)
  {
    hide Matches;
    if a == [] {
      assert a + b == b;
    } else {
      assert (a + b)[1..] == a[1..] + b;
      FindInConcat(a[1..], b, q);
    }
  }

  lemma {:induction false} FindNormed(cs: seq<Credential>, q: Query)
    requires AllLoaded(cs)
    ensures var i := FirstMatch(cs, q);
            i <= |cs| && Find(NormAll(cs), q) == if i < |cs| then Some(Norm(cs[i])) else None
  {
    hide Matches, IsLoaded, Norm;
    if cs != [] {
      MatchesLoaded(q, cs[0]);
      assert NormAll(cs)[1..] == NormAll(cs[1..]);
      FindNormed(cs[1..], q);
    }
  }

  lemma {:induction false} LoadedParts(cs: seq<Credential>, i: nat)
    requires AllLoaded(cs) && i <= |cs|
    ensures AllLoaded(cs[..i]) && AllLoaded(cs[i..])
  {
    hide IsLoaded;
    if i > 0 {
      LoadedParts(cs[1..], i - 1);
      assert cs[..i][1..] == cs[1..][..i - 1] && cs[i..] == cs[1..][i - 1..];
    } else {
      assert cs[..0] == [] && cs[0..] == cs;
    }
  }

  /** What a query finds after a save, part by part. */
  lemma FindReloaded(cs: seq<Credential>, c: Credential, q: Query)
    requires IsBytes(Str(Written(cs, c).password))
    ensures var i, read := FirstMatch(cs, QueryOf(c)), Load(WholeLine(Written(cs, c)));
            && i <= |cs|
            && Find(Reloaded(cs, c), q)
               == if Find(NormAll(cs[..i]), q).Some? then Find(NormAll(cs[..i]), q)
                  else if Find(read, q).Some? then Find(read, q)
                  else Find(NormAll(Behind(cs, i)), q)
  {
    hide Matches, Load, Written, WholeLine;
    FirstMatchFinds(cs, QueryOf(c));
    var i, read := FirstMatch(cs, QueryOf(c)), Load(WholeLine(Written(cs, c)));
    FindInConcat(NormAll(cs[..i]), read + NormAll(Behind(cs, i)), q);
    FindInConcat(read, NormAll(Behind(cs, i)), q);
  }

  /** What a query finds in the line of an entry whose fields before the path fit it. */
  lemma FindInLine(w: Credential, q: Query)
    requires IsCStrings(w) && FrontStorable(w)
    ensures Find(Load(WholeLine(w)), q) == if Matches(q, ReadBack(w)) then Some(ReadBack(w)) else Find(Spill(w), q)
  {
    hide Matches, FrontStorable, WholeLine, ReadBack, Spill, Load;
    LoadFront(w, []);
    LoadNothing();
    assert WholeLine(w) + [] == WholeLine(w) && [ReadBack(w)] + Spill(w) + [] == [ReadBack(w)] + Spill(w);
    FindInConcat([ReadBack(w)], Spill(w), q);
    FindOne(ReadBack(w), q);
  }

  lemma FindOne(c: Credential, q: Query)
    ensures Find([c], q) == if Matches(q, c) then Some(c) else None
  {
    hide Matches;
  }

  /** Where a query finds its first match among the old entries. */
  lemma FindAround(cs: seq<Credential>, i: nat, q: Query)
    requires AllLoaded(cs) && i <= |cs|
    ensures var j := FirstMatch(cs, q);
            && j <= |cs|
            && (j < i ==> Find(NormAll(cs[..i]), q) == Some(Norm(cs[j])))
            && (j >= i ==> Find(NormAll(cs[..i]), q) == None)
            && (i < j < |cs| ==> Find(NormAll(Behind(cs, i)), q) == Some(Norm(cs[j])))
            && (j == |cs| ==> Find(NormAll(Behind(cs, i)), q) == None)
  {
    FirstMatchFinds(cs, q);
    FindInFront(cs, i, q);
    FindBehind(cs, i, q);
  }

  lemma FindInFront(cs: seq<Credential>, i: nat, q: Query)
    requires AllLoaded(cs) && i <= |cs|
    ensures var j := FirstMatch(cs, q);
            j <= |cs| && Find(NormAll(cs[..i]), q) == if j < i then Some(Norm(cs[j])) else None
  {
    FirstMatchFinds(cs, q);
    MatchBefore(cs, i, q);
    LoadedParts(cs, i);
    hide Matches, IsLoaded, Norm, NormAll, Find, FirstMatch, AllLoaded;
    FindNormed(cs[..i], q);
  }

  lemma FindBehind(cs: seq<Credential>, i: nat, q: Query)
    requires AllLoaded(cs) && i <= |cs|
    ensures var j, found := FirstMatch(cs, q), Find(NormAll(Behind(cs, i)), q);
            j <= |cs| && (i < j < |cs| ==> found == Some(Norm(cs[j]))) && (j == |cs| ==> found == None)
  {
    FirstMatchFinds(cs, q);
    BehindIsLoaded(cs, i);
    FindNormed(Behind(cs, i), q);
    hide Matches, IsLoaded, Norm, NormAll, Find, FirstMatch, AllLoaded, Behind;
    var j := FirstMatch(cs, q);
    if j > i || j == |cs| {
      MatchBehind(cs, i, q);
    }
  }

  lemma BehindIsLoaded(cs: seq<Credential>, i: nat)
    requires AllLoaded(cs) && i <= |cs|
    ensures AllLoaded(Behind(cs, i))
  {
    LoadedParts(cs, if i < |cs| then i + 1 else i);
  }

  lemma MatchBefore(cs: seq<Credential>, i: nat, q: Query)
    requires i <= |cs|
    ensures FirstMatch(cs[..i], q) == if FirstMatch(cs, q) < i then FirstMatch(cs, q) else i
  {
    hide Matches;
    FirstMatchFinds(cs, q);
    FirstMatchIs(cs[..i], q, if FirstMatch(cs, q) < i then FirstMatch(cs, q) else i);
  }

  lemma MatchBehind(cs: seq<Credential>, i: nat, q: Query)
    requires i <= |cs| && (FirstMatch(cs, q) > i || FirstMatch(cs, q) == |cs|)
    ensures FirstMatch(Behind(cs, i), q) == if i < |cs| then FirstMatch(cs, q) - i - 1 else 0
    ensures FirstMatch(cs, q) < |cs| ==>
              FirstMatch(Behind(cs, i), q) < |Behind(cs, i)| && Behind(cs, i)[FirstMatch(Behind(cs, i), q)] == cs[FirstMatch(cs, q)]
    ensures FirstMatch(cs, q) == |cs| ==> FirstMatch(Behind(cs, i), q) == |Behind(cs, i)|
  {
    hide Matches;
    var j, back := FirstMatch(cs, q), Behind(cs, i);
    FirstMatchFinds(cs, q);
    assert forall k :: 0 <= k < |back| ==> back[k] == cs[i + 1 + k];
    FirstMatchIs(back, q, if i < |cs| then j - i - 1 else 0);
  }

  // ----- What a save promises -----

  /** What any query finds after any save: its first match before the written entry if there is one, else whatever matches
      in what the written line is read as, else its first match behind the written entry. */
  lemma AnySave(file: File, c: Credential, q: Query)
    requires IsFile(file) && IsCStrings(c)
    ensures IsBytes(Str(Written(Entries(file), c).password))
    ensures var cs := Entries(file);
            var i, j := FirstMatch(cs, QueryOf(c)), FirstMatch(cs, q);
            var found, read := Find(Entries(StoreSave(file, c)), q), Find(Load(WholeLine(Written(cs, c))), q);
            && i <= |cs| && j <= |cs|
            && (j < i ==> found == Some(Norm(cs[j])))
            && (j >= i && read.Some? ==> found == read)
            && (i < j < |cs| && read.None? ==> found == Some(Norm(cs[j])))
            && (j == |cs| && read.None? ==> found == None)
  {
    var cs := Entries(file);
    EntriesAreLoaded(file);
    EntriesAfterSave(file, c);
    hide IsCStrings, Norm, Matches, Load, Save, NormAll, Written, WholeLine;
    FirstMatchFinds(cs, QueryOf(c));
    FindReloaded(cs, c, q);
    FindAround(cs, FirstMatch(cs, QueryOf(c)), q);
  }

  /** The written entry, once reloaded, matches the query of the saved credential exactly when a host was given. */
  lemma WrittenMatches(cs: seq<Credential>, c: Credential)
    requires AllLoaded(cs) && IsBytes(Str(Written(cs, c).password))
    ensures Matches(QueryOf(c), ReadBack(Written(cs, c))) <==> Str(c.host) != []
    ensures FirstMatch(cs, QueryOf(c)) < |cs| ==> Str(c.host) != []
  {
    var i := FirstMatch(cs, QueryOf(c));
    FirstMatchFinds(cs, QueryOf(c));
    if i < |cs| {
      LoadedAt(cs, i);
      hide Matches, ReadBack, Update, IsLoaded;
      UpdatedMatches(cs[i], c);
    } else {
      hide Matches, ReadBack, Norm;
      NewMatchesAsGiven(c, QueryOf(c));
      NormMatchesItself(c);
    }
  }

  lemma NormMatchesItself(c: Credential)
    ensures Matches(QueryOf(c), Norm(c)) <==> Str(c.host) != []
  {
  }

  lemma UpdatedMatches(entry: Credential, c: Credential)
    requires IsLoaded(entry) && Matches(QueryOf(c), entry) && IsBytes(Str(Update(entry, c).password))
    ensures Matches(QueryOf(c), ReadBack(Update(entry, c))) && Str(c.host) != []
  {
    assert Norm(entry).(password := entry.password) == entry;
    hide PathRead, IsLoaded;
  }

  /** Nothing that is read from a file has an empty host. */
  lemma {:induction false} NoEmptyHost(cs: seq<Credential>, q: Query)
    requires AllLoaded(cs) && Str(q.host) == []
    ensures Find(cs, q) == None && Find(NormAll(cs), q) == None
  {
    hide IsLoaded, Norm, Matches;
    if cs != [] {
      LoadedHost(cs[0], q);
      assert NormAll(cs)[1..] == NormAll(cs[1..]);
      NoEmptyHost(cs[1..], q);
    }
  }

  lemma LoadedHost(c: Credential, q: Query)
    requires IsLoaded(c) && Str(q.host) == []
    ensures !Matches(q, c) && !Matches(q, Norm(c))
  {
    assert Norm(c).(password := c.password) == c;
  }

  /** After a credential is saved, looking up its protocol, host and user name finds an entry exactly when the host
      was given, and then the password found is the one saved: whatever the path. */
  lemma SaveThenFind(file: File, c: Credential)
    requires IsFile(file) && IsCStrings(c) && CanWrite(file, c)
    ensures var found := Find(Entries(StoreSave(file, c)), QueryOf(c));
            && (found.Some? <==> Str(c.host) != [])
            && (found.Some? ==> found.value.password == Field(Str(c.password)) && found.value.host == c.host)
  {
    var cs, q := Entries(file), QueryOf(c);
    SaveIntoIsCStrings(file, c);
    EntriesAreLoaded(file);
    WrittenMatches(cs, c);
    hide FrontStorable, Storable, IsCStrings, Load, ReadBack, Spill, Matches, IsLoaded, Save, NormAll, WholeLine;
    AnySave(file, c, q);
    FindInLine(Written(cs, c), q);
    ReadBackPassword(cs, c);
    if Str(c.host) == [] {
      SpillIsLoaded(Written(cs, c));
      NoEmptyHost(Spill(Written(cs, c)), q);
    }
  }

  lemma ReadBackPassword(cs: seq<Credential>, c: Credential)
    requires IsBytes(Str(Written(cs, c).password))
    ensures ReadBack(Written(cs, c)).password == Field(Str(c.password))
    ensures Matches(QueryOf(c), ReadBack(Written(cs, c))) ==> ReadBack(Written(cs, c)).host == c.host
  {
    hide PathRead;
    FirstMatchFinds(cs, QueryOf(c));
  }

  /** The effect of updating an entry on an arbitrary query: it can only lose matches. */
  lemma UpdateLosesMatches(entry: Credential, c: Credential, q: Query)
    requires IsLoaded(entry) && IsBytes(Str(Update(entry, c).password)) && Matches(q, ReadBack(Update(entry, c)))
    ensures Matches(q, entry)
  {
    hide PathRead;
    assert Norm(entry).(password := entry.password) == entry;
  }

  lemma NewMatchesAsGiven(c: Credential, q: Query)
    requires IsBytes(Str(c.password))
    ensures Matches(q, ReadBack(c)) <==> Matches(q, Norm(c))
  {
    hide PathRead;
  }

  /** What any other query finds after a save. One whose first match comes before the written entry keeps its answer. One
      whose first match comes behind it keeps it exactly if nothing that the path spilled matches. One without a match
      finds a new entry that matches it, or what was spilled. */
  lemma SaveKeepsOtherQueries(file: File, c: Credential, q: Query)
    requires IsFile(file) && IsCStrings(c) && CanWrite(file, c)
    ensures IsBytes(Str(Written(Entries(file), c).password))
    ensures var cs := Entries(file);
            var i, j := FirstMatch(cs, QueryOf(c)), FirstMatch(cs, q);
            var found := Find(Entries(StoreSave(file, c)), q);
            var spilled := Find(Spill(Written(cs, c)), q);
            && i <= |cs| && j <= |cs|
            && (j < i ==> found == Some(Norm(cs[j])))
            && (i < j < |cs| ==> found == if spilled.Some? then spilled else Some(Norm(cs[j])))
            && (i < j == |cs| ==> found == spilled)
            && (i == j == |cs| ==> found == if Matches(q, Norm(c)) then Some(ReadBack(c)) else spilled)
  {
    var cs := Entries(file);
    SaveIntoIsCStrings(file, c);
    EntriesAreLoaded(file);
    hide FrontStorable, Storable, IsCStrings, Norm, Matches, Load, Save, ReadBack, Spill, IsLoaded, NormAll, WholeLine;
    var i, j := FirstMatch(cs, QueryOf(c)), FirstMatch(cs, q);
    FirstMatchFinds(cs, QueryOf(c));
    AnySave(file, c, q);
    FindInLine(Written(cs, c), q);
    if i < |cs| {
      if i < j && Matches(q, ReadBack(Written(cs, c))) {
        LoadedAt(cs, i);
        UpdateLosesMatches(cs[i], c, q);
        FirstMatchFinds(cs, q);
      }
    } else {
      NewMatchesAsGiven(c, q);
    }
  }

  /** When the written entry fits the format with its path, every query but that for the entry keeps its answer. */
  lemma StorableSaveKeepsOthers(file: File, c: Credential, q: Query)
    requires IsFile(file) && IsCStrings(c)
    requires IsCStrings(Written(Entries(file), c)) && Storable(Written(Entries(file), c))
    ensures var cs := Entries(file);
            var i, j := FirstMatch(cs, QueryOf(c)), FirstMatch(cs, q);
            var found := Find(Entries(StoreSave(file, c)), q);
            && i <= |cs| && j <= |cs|
            && (j < |cs| && j != i ==> found == Some(Norm(cs[j])))
            && (j == |cs| && i < |cs| ==> found == None)
            && (j == |cs| && i == |cs| ==> found == if Matches(q, Norm(c)) then Some(Norm(c)) else None)
  {
    hide FrontStorable, Storable, IsCStrings, Norm, Matches, Load, Save, ReadBack, Spill;
    var w := Written(Entries(file), c);
    StorableHasFront(w);
    NothingSpills(w);
    SaveKeepsOtherQueries(file, c, q);
    FirstMatchFinds(Entries(file), QueryOf(c));
  }

  /** A host that is given but empty is stored and lost: the lookup after the save finds nothing. */
  lemma EmptyHostIsLost()
    ensures var c := Credential(Some("https"), Some(""), Some("me"), Some("pw"), None);
            IsCStrings(c) && CanWrite(None, c) && Find(Entries(StoreSave(None, c)), QueryOf(c)) == None
  {
    var c := Credential(Some("https"), Some(""), Some("me"), Some("pw"), None);
    EncodeLength("pw");
    SaveThenFind(None, c);
  }

  /** A credential whose path holds a line break and the text of another entry. */
  function Spiller(): Credential {
    Credential(Some("https"), Some("a"), Some("me"), Some("pw"), Some("x\nhttps\tb\tme\tcHc=\t"))
  }

  function Spilled(): Credential {
    Credential(Some("https"), Some("b"), Some("me"), Some("pw"), None)
  }

  lemma SpilledFits()
    ensures IsCStrings(Spilled()) && Storable(Spilled()) && Norm(Spilled()) == Spilled()
  {
    EncodeLength("pw");
  }

  lemma SpilledLine()
    ensures IsBytes(Str(Spilled().password)) && PrintLine(Spilled()) == "https\tb\tme\tcHc=\t"
  {
    var w: string := "pw";
    assert Encode(w) == "cHc=" by {
      assert Encode(w) == EncodeGroup(w);
    }
    hide Encode;
  }

  lemma SpillerFits()
    ensures IsCStrings(Spiller()) && FrontStorable(Spiller()) && |FrontLine(Spiller())| < 100
  {
    SpillerIsPlain();
    EncodeLength("pw");
    hide Encode, IsCStrings, Plain;
  }

  lemma SpillerIsPlain()
    ensures var c := Spiller();
            && IsCStrings(c) && Plain(Str(c.protocol)) && Plain(Str(c.host)) && Plain(Str(c.username))
  {
    SpillerPathIsText();
    hide IsCString;
    assert IsCString("https") && IsCString("a") && IsCString("me") && IsCString("pw") by {
      ShortTexts();
    }
  }

  lemma ShortTexts()
    ensures IsCString("https") && IsCString("a") && IsCString("me") && IsCString("pw")
  {
  }

  lemma SpillerPathIsText()
    ensures IsCString(Str(Spiller().path))
  {
  }

  lemma SpillerSpills()
    ensures IsBytes(Str(Spiller().password)) && Spill(Spiller()) == [Spilled()]
  {
    SpilledFits();
    SpillerFits();
    SpilledLine();
    hide Load, PrintLine, FrontLine, Encode, FrontStorable, Storable, Spill, Norm;
    assert Str(Spiller().path) == "x" + ['\n'] + PrintLine(Spilled());
    LineBreakAddsAnEntry(Spiller(), "x", Spilled());
  }

  /** Saving it into an empty store adds that entry too: a lookup that found nothing before finds it. */
  lemma SpilledEntryIsFound()
    ensures IsCStrings(Spiller()) && CanWrite(None, Spiller())
    ensures Find(Entries(None), QueryOf(Spilled())) == None
    ensures Find(Entries(StoreSave(None, Spiller())), QueryOf(Spilled())) == Some(Spilled())
  {
    SpillerFits();
    SpillerSpills();
    assert Written([], Spiller()) == Spiller() && !Matches(QueryOf(Spilled()), Norm(Spiller()));
    assert Matches(QueryOf(Spilled()), Spilled());
    hide Load, PrintLine, Encode, FrontLine, FrontStorable, IsCStrings, Spill, ReadBack, Matches, Spiller, Spilled, Norm, Written, Save;
    SaveKeepsOtherQueries(None, Spiller(), QueryOf(Spilled()));
    FindOne(Spilled(), QueryOf(Spilled()));
  }

  // ----- What a removal promises -----

  lemma {:induction false} KeptMatches(cs: seq<Credential>, q: Query)
    requires q.protocol.Some?
    ensures FirstMatch(Kept(cs, q), q) == |Kept(cs, q)|
            <==> forall j :: 0 <= j < |cs| ==> !(cs[j].protocol.None? && Matches(q, cs[j]))
  {
    hide Matches;
    if cs != [] {
      var tail := Kept(cs[1..], q);
      KeptMatches(cs[1..], q);
      NoMatchStep(cs[0], tail, q);
      assert [] + tail == tail;
      hide Kept, FirstMatch;
      assert forall j :: 1 <= j < |cs| ==> cs[j] == cs[1..][j - 1];
    }
  }

  lemma NoMatchStep(head: Credential, tail: seq<Credential>, q: Query)
    ensures FirstMatch([head] + tail, q) == 1 + |tail| <==> !Matches(q, head) && FirstMatch(tail, q) == |tail|
  {
    hide Matches;
    assert ([head] + tail)[1..] == tail;
  }

  lemma {:induction false} AllKept(cs: seq<Credential>, q: Query)
    ensures |Kept(cs, q)| <= |cs|
    ensures |Kept(cs, q)| == |cs| ==> Kept(cs, q) == cs
  {
    hide RemoveMatches;
    if cs != [] {
      AllKept(cs[1..], q);
    }
  }

  lemma {:induction false} KeptLength(cs: seq<Credential>, q: Query)
    ensures |Kept(cs, q)| <= |cs|
    ensures |Kept(cs, q)| < |cs| <==> exists i :: 0 <= i < |cs| && RemoveMatches(q, cs[i])
  {
    if cs != [] {
      KeptLength(cs[1..], q);
      if j :| 1 <= j < |cs| && RemoveMatches(q, cs[j]) {
        assert RemoveMatches(q, cs[1..][j - 1]);
      }
      if i :| 0 <= i < |cs[1..]| && RemoveMatches(q, cs[1..][i]) {
        assert RemoveMatches(q, cs[i + 1]);
      }
    }
  }

  /** After a removal the store holds the other entries in their order, and looking up the removed triple finds
      nothing exactly when no matching entry lacked a protocol: those are found but never removed. */
  lemma RemoveThenFind(file: File, q: Query)
    requires IsFile(file) && q.protocol.Some? && q.host.Some?
    ensures var cs, after := Entries(file), Entries(StoreRemove(file, q));
            && NormAll(after) == NormAll(Kept(cs, q))
            && (Find(after, q) == None <==> forall j :: 0 <= j < |cs| ==> !(cs[j].protocol.None? && Matches(q, cs[j])))
  {
    hide Storable, IsCStrings, Norm, Matches, Load, Save;
    var cs := Entries(file);
    var kept := Kept(cs, q);
    KeptMatches(cs, q);
    AllKept(cs, q);
    KeptAreLoaded(file, q);
    FirstMatchFinds(kept, q);
    if |kept| < |cs| {
      SaveThenLoad(kept);
      ReloadKeepsFirstMatch(kept, q);
      NormAllTwice(kept);
    }
  }

  lemma ReloadKeepsFirstMatch(cs: seq<Credential>, q: Query)
    requires AllLoaded(cs)
    ensures FirstMatch(NormAll(cs), q) == FirstMatch(cs, q)
  {
    FirstMatchFinds(cs, q);
    forall j | 0 <= j < |cs| ensures Matches(q, NormAll(cs)[j]) <==> Matches(q, cs[j]) {
      LoadedAt(cs, j);
      MatchesLoaded(q, cs[j]);
    }
    FirstMatchIs(NormAll(cs), q, FirstMatch(cs, q));
  }

  lemma NormAllTwice(cs: seq<Credential>)
    ensures NormAll(NormAll(cs)) == NormAll(cs)
  {
  }
}

/**
 * The store as it is written: a growing array of entries, filled from the file on
 * every call, searched and updated in place by index loops, and written back whole.
 */
module CredentialStore {
  import opened Prelude
  import opened CredentialFile
  import opened CredentialSpec

  const NOTHING := Credential(None, None, None, None, None)

  class CredList {
    var items: array<Credential>
    var count: nat

    ghost predicate Valid()
      reads this
    {
      count <= items.Length
    }

    ghost function Contents(): seq<Credential>
      requires Valid()
      reads this, items
    {
      items[..count]
    }

    constructor ()
      ensures Valid() && Contents() == [] && fresh(items)
    {
      items := new Credential[0];
      count := 0;
    }

    /** `cl_append`: the capacity starts at 8 and doubles. */
    method Append(c: Credential)
      requires Valid()
      modifies this, items
      ensures Valid() && Contents() == old(Contents()) + [c]
      ensures items == old(items) || fresh(items)
    {
      if count == items.Length {
        var grown := new Credential[if items.Length == 0 then 8 else items.Length * 2](_ => NOTHING);
        for i := 0 to count
          modifies grown
          invariant grown[..i] == items[..i]
        {
          grown[i] := items[i];
        }
        items := grown;
      }
      items[count] := c;
      count := count + 1;
    }
  }

  class Store {
    var file: File

    constructor (file: File)
      ensures this.file == file
    {
      this.file := file;
    }

    /** `load_all`: one read of the buffer after the other. */
    method LoadAll() returns (cl: CredList)
      ensures fresh(cl) && fresh(cl.items) && cl.Valid() && cl.Contents() == Entries(file)
    {
      hide Load, ParseLine, FgetsLength;
      cl := new CredList();
      if file.None? {
        return;
      }
      LoadNothing();
      var unread := file.value;
      assert [] + Load(unread) == Load(unread);
      while unread != []
        invariant fresh(cl) && fresh(cl.items) && cl.Valid()
        invariant cl.Contents() + Load(unread) == Load(file.value)
        decreases |unread|
      {
        var n := FgetsLength(unread);
        var buf := unread[..n];
        LoadOneBuffer(unread);
        var parsed := ParseLine(buf);
        if parsed.Some? {
          cl.Append(parsed.value);
        }
        unread := unread[n..];
      }
    }

    lemma LoadOneBuffer(unread: string)
      requires unread != []
      ensures var n := FgetsLength(unread);
              Load(unread) == AsSeq(ParseLine(unread[..n])) + Load(unread[n..])
    {
      var n := FgetsLength(unread);
      ParseAllStep(unread[..n], Buffers(unread[n..]));
    }

    /** `save_all`: the lines are written to a new file, which replaces the store. */
    method SaveAll(cl: CredList)
      requires cl.Valid() && AllCStrings(cl.Contents())
      modifies this
      ensures file == Some(Save(cl.Contents()))
    {
      ghost var cs := cl.Contents();
      var text := Header() + ['\n'];
      for i := 0 to cl.count
        invariant AllCStrings(cs[i..]) && text + Lines(cs[i..]) == Save(cs)
      {
        var c := cl.items[i];
        assert cs[i..][1..] == cs[i + 1..];
        text := text + (PrintLine(c) + ['\n']);
      }
      assert cs[cl.count..] == [] && text + [] == text;
      file := Some(text);
    }

    /** The search loop shared by `store_save` and `store_find`. */
    method IndexOf(cl: CredList, q: Query) returns (i: nat)
      requires cl.Valid()
      ensures i == FirstMatch(cl.Contents(), q) && i <= cl.count
    {
      i := 0;
      FirstMatchFinds(cl.Contents(), q);
      while i < cl.count && !Matches(q, cl.items[i])
        invariant i <= FirstMatch(cl.Contents(), q)
      {
        i := i + 1;
      }
    }

    /** `store_save` */
    method StoreSave(c: Credential)
      requires IsFile(file) && IsCStrings(c)
      modifies this
      ensures file == CredentialSpec.StoreSave(old(file), c)
    {
      SaveIntoIsCStrings(file, c);
      var cl := LoadAll();
      ghost var cs := cl.Contents();
      var i := IndexOf(cl, QueryOf(c));
      if i < cl.count {
        cl.items[i] := Update(cl.items[i], c);
      } else {
        cl.Append(c);
      }
      assert cl.Contents() == SaveInto(cs, c);
      SaveAll(cl);
    }

    /** `store_find` */
    method StoreFind(q: Query) returns (found: Option<Credential>)
      ensures found == Find(Entries(file), q)
    {
      var cl := LoadAll();
      var i := IndexOf(cl, q);
      found := if i < cl.count then Some(cl.items[i]) else None;
    }

    /** The loop of `store_remove`: copies the entries that stay. */
    method KeepOthers(cl: CredList, q: Query) returns (out: CredList)
      requires cl.Valid()
      ensures fresh(out) && fresh(out.items) && out.Valid() && out.Contents() == Kept(cl.Contents(), q)
    {
      hide RemoveMatches, Kept;
      out := new CredList();
      ghost var cs := cl.Contents();
      KeptEnds(cs, q);
      assert cs[0..] == cs && [] + Kept(cs, q) == Kept(cs, q);
      for i := 0 to cl.count
        invariant fresh(out) && fresh(out.items) && out.Valid()
        invariant out.Contents() + Kept(cs[i..], q) == Kept(cs, q)
      {
        KeptStep(cs, i, q);
        if !RemoveMatches(q, cl.items[i]) {
          out.Append(cl.items[i]);
        }
      }
      assert cs[cl.count..] == [] && out.Contents() + [] == out.Contents();
    }

    lemma KeptEnds(cs: seq<Credential>, q: Query)
      ensures Kept(cs[|cs|..], q) == []
    {
    }

    lemma KeptStep(cs: seq<Credential>, i: nat, q: Query)
      requires i < |cs|
      ensures Kept(cs[i..], q) == (if RemoveMatches(q, cs[i]) then [] else [cs[i]]) + Kept(cs[i + 1..], q)
    {
      assert cs[i..][1..] == cs[i + 1..];
    }

    /** `store_remove` */
    method StoreRemove(q: Query) returns (ok: bool)
      requires IsFile(file)
      modifies this
      ensures file == CredentialSpec.StoreRemove(old(file), q)
      ensures ok <==> exists i :: 0 <= i < |Entries(old(file))| && RemoveMatches(q, Entries(old(file))[i])
    {
      KeptLength(Entries(file), q);
      KeptAreLoaded(file, q);
      var cl := LoadAll();
      var out := KeepOthers(cl, q);
      ok := out.count < cl.count;
      if ok {
        SaveAll(out);
      }
    }
  }
}
