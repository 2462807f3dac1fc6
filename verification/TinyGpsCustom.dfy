/**
 * Custom elements of the GPS parser: listeners for one term of one kind of sentence,
 * kept on a linked list sorted by sentence name and term number.
 */
module TinyGpsCustom {
  import opened IndexLists
  import opened NmeaBytes

  // ----- Names -----

  /** `strcmp`, up to the size of its result */
  function Compare(a: seq<byte>, b: seq<byte>): int {
    if a == [] && b == [] then 0
    else if a == [] then -1
    else if b == [] then 1
    else if a[0] < b[0] then -1
    else if a[0] > b[0] then 1
    else Compare(a[1..], b[1..])
  }

  lemma {:induction false} CompareIsZero(a: seq<byte>, b: seq<byte>)
    ensures Compare(a, b) == 0 <==> a == b
  {
    if a != [] && b != [] && a[0] == b[0] {
      CompareIsZero(a[1..], b[1..]);
      assert a == [a[0]] + a[1..] && b == [b[0]] + b[1..];
    }
  }

  lemma {:induction false} CompareIsAntisymmetric(a: seq<byte>, b: seq<byte>)
    ensures Compare(a, b) == -Compare(b, a)
  {
    if a != [] && b != [] && a[0] == b[0] {
      CompareIsAntisymmetric(a[1..], b[1..]);
    }
  }

  lemma {:induction false} CompareIsTransitive(a: seq<byte>, b: seq<byte>, c: seq<byte>)
    requires Compare(a, b) <= 0 && Compare(b, c) <= 0
    ensures Compare(a, c) <= 0
    ensures Compare(a, b) < 0 || Compare(b, c) < 0 ==> Compare(a, c) < 0
  {
    if a != [] && b != [] && c != [] && a[0] == b[0] == c[0] {
      CompareIsTransitive(a[1..], b[1..], c[1..]);
    }
  }

  // ----- Elements and their order -----

  datatype Element = Element(name: seq<byte>, termNumber: int, staging: seq<byte>, buffer: seq<byte>, valid: bool, updated: bool)

  function NewElement(name: seq<byte>, termNumber: int): Element {
    Element(name, termNumber, [], [], false, false)
  }

  /** `TinyGPSCustom::set` */
  function Set(e: Element, term: seq<byte>): Element {
    e.(staging := term)
  }

  /** `TinyGPSCustom::commit` */
  function Commit(e: Element): Element {
    e.(buffer := e.staging, valid := true, updated := true)
  }

  predicate Before(a: Element, b: Element) {
    var c := Compare(a.name, b.name);
    c < 0 || (c == 0 && a.termNumber < b.termNumber)
  }

  /** The list holds every element once. */
  ghost predicate Permutes(list: seq<int>, n: nat) {
    && |list| == n
    && (forall i :: 0 <= i < |list| ==> 0 <= list[i] < n)
    && (forall i, j :: 0 <= i < j < |list| ==> list[i] != list[j])
    && (forall id :: 0 <= id < n ==> id in list)
  }

  /** No element comes before one that it should follow. */
  ghost predicate Sorted(list: seq<int>, elts: seq<Element>)
    requires Permutes(list, |elts|)
  {
    forall i, j :: 0 <= i < j < |list| ==> !Before(elts[list[j]], elts[list[i]])
  }

  lemma NotBeforeIsTransitive(a: Element, b: Element, c: Element)
    requires !Before(b, a) && !Before(c, b)
    ensures !Before(c, a)
  {
    CompareIsAntisymmetric(a.name, b.name);
    CompareIsAntisymmetric(b.name, c.name);
    CompareIsAntisymmetric(a.name, c.name);
    CompareIsTransitive(a.name, b.name, c.name);
  }

  lemma BeforeIsAsymmetric(a: Element, b: Element)
    requires Before(a, b)
    ensures !Before(b, a)
  {
    CompareIsAntisymmetric(a.name, b.name);
  }

  // ----- Inserting -----

  /** Where `insertCustom` stops: in front of the first element that the new one comes before. */
  function Place(list: seq<int>, elts: seq<Element>, e: Element): (i: nat)
    requires forall i :: 0 <= i < |list| ==> 0 <= list[i] < |elts|
    ensures i <= |list|
    ensures i < |list| ==> Before(e, elts[list[i]])
    ensures forall j :: 0 <= j < i ==> !Before(e, elts[list[j]])
  {
    if list == [] || Before(e, elts[list[0]]) then 0 else
    var i := 1 + Place(list[1..], elts, e);
    assert forall j :: 1 <= j < i ==> list[j] == list[1..][j - 1];
    i
  }

  function Inserted(list: seq<int>, elts: seq<Element>, e: Element): seq<int>
    requires forall i :: 0 <= i < |list| ==> 0 <= list[i] < |elts|
  {
    var i := Place(list, elts, e);
    list[..i] + [|elts|] + list[i..]
  }

  lemma InsertedPermutes(list: seq<int>, n: nat, k: nat)
    requires Permutes(list, n) && k <= n
    ensures Permutes(list[..k] + [n] + list[k..], n + 1)
  {
    assert forall id | id in list :: id in list[..k] || id in list[k..] by {
      assert list == list[..k] + list[k..];
    }
  }

  /** Inserting keeps the list a sorted permutation of the elements. */
  lemma InsertedIsSorted(list: seq<int>, elts: seq<Element>, e: Element)
    requires Permutes(list, |elts|) && Sorted(list, elts)
    ensures Permutes(Inserted(list, elts, e), |elts| + 1)
    ensures Sorted(Inserted(list, elts, e), elts + [e])
  {
    hide Before;
    var k, n := Place(list, elts, e), |elts|;
    var after := Inserted(list, elts, e);
    InsertedPermutes(list, n, k);
    forall i, j | 0 <= i < j < |after| ensures !Before((elts + [e])[after[j]], (elts + [e])[after[i]]) {
      InsertedPair(list, elts, e, k, i, j);
    }
  }

  lemma InsertedPair(list: seq<int>, elts: seq<Element>, e: Element, k: nat, i: nat, j: nat)
    requires Permutes(list, |elts|) && Sorted(list, elts)
    requires k <= |list| && (k < |list| ==> Before(e, elts[list[k]]))
    requires forall m :: 0 <= m < k ==> !Before(e, elts[list[m]])
    requires i < j <= |list|
    ensures var after := list[..k] + [|elts|] + list[k..];
            && 0 <= after[i] <= |elts| && 0 <= after[j] <= |elts|
            && !Before((elts + [e])[after[j]], (elts + [e])[after[i]])
  {
    hide Before;
    var after := list[..k] + [|elts|] + list[k..];
    assert after[i] == if i < k then list[i] else if i == k then |elts| else list[i - 1];
    assert after[j] == if j < k then list[j] else if j == k then |elts| else list[j - 1];
    if i == k {
      BeforeIsAsymmetric(e, elts[list[k]]);
      if k < j - 1 {
        NotBeforeIsTransitive(e, elts[list[k]], elts[list[j - 1]]);
      }
    }
  }

  // ----- Candidates -----

  /** The element that the search for a name stops at, or NULL if that one has a later name. */
  function Candidate(list: seq<int>, elts: seq<Element>, name: seq<byte>): int
    requires forall i :: 0 <= i < |list| ==> 0 <= list[i] < |elts|
  {
    if list == [] then NULL
    else if Compare(elts[list[0]].name, name) < 0 then Candidate(list[1..], elts, name)
    else if Compare(elts[list[0]].name, name) > 0 then NULL
    else list[0]
  }

  /** The candidate is the first element with the name, and NULL exactly when no element has it. */
  lemma {:induction false} CandidateIsFirst(list: seq<int>, elts: seq<Element>, name: seq<byte>)
    requires forall i :: 0 <= i < |list| ==> 0 <= list[i] < |elts|
    requires forall i, j :: 0 <= i < j < |list| ==> !Before(elts[list[j]], elts[list[i]])
    ensures var c := Candidate(list, elts, name);
            && (c == NULL ==> forall i :: 0 <= i < |list| ==> elts[list[i]].name != name)
            && (c != NULL ==> exists k :: 0 <= k < |list| && list[k] == c && elts[c].name == name
                                          && forall i :: 0 <= i < k ==> elts[list[i]].name != name)
  {
    if list != [] {
      var first := elts[list[0]];
      CompareIsZero(first.name, name);
      if Compare(first.name, name) < 0 {
        CandidateIsFirst(list[1..], elts, name);
        var c := Candidate(list[1..], elts, name);
        assert forall i :: 1 <= i < |list| ==> list[i] == list[1..][i - 1];
        if c != NULL {
          var k :| 0 <= k < |list[1..]| && list[1..][k] == c && elts[c].name == name
                   && forall i :: 0 <= i < k ==> elts[list[1..][i]].name != name;
          assert list[k + 1] == c;
        }
      } else if Compare(first.name, name) > 0 {
        forall i | 0 <= i < |list| ensures elts[list[i]].name != name {
          if i > 0 {
            NotBeforeKeepsName(first, elts[list[i]], name);
          }
        }
      } else {
        assert list[0] == Candidate(list, elts, name);
      }
    }
  }

  lemma NotBeforeKeepsName(first: Element, later: Element, name: seq<byte>)
    requires !Before(later, first) && Compare(first.name, name) > 0
    ensures later.name != name
  {
    CompareIsAntisymmetric(first.name, later.name);
  }

  // ----- Scans -----

  /** The elements after setting those among `ids` with the given name and term number. */
  function AfterSet(elts: seq<Element>, ids: seq<int>, name: seq<byte>, number: int, term: seq<byte>): seq<Element> {
    seq(|elts|, id requires 0 <= id < |elts| =>
      if id in ids && elts[id].name == name && elts[id].termNumber == number then Set(elts[id], term) else elts[id])
  }

  /** The elements after committing those among `ids` with the given name. */
  function AfterCommit(elts: seq<Element>, ids: seq<int>, name: seq<byte>): seq<Element> {
    seq(|elts|, id requires 0 <= id < |elts| =>
      if id in ids && elts[id].name == name then Commit(elts[id]) else elts[id])
  }

  /** On a sorted list, once a scan meets another name, or a later term, no element it looks for follows. */
  lemma NothingFollows(list: seq<int>, elts: seq<Element>, k: nat, j: nat, i: nat, number: int)
    requires Permutes(list, |elts|) && Sorted(list, elts) && k <= j <= i < |list|
    ensures var name := elts[list[k]].name;
            && (elts[list[j]].name != name ==> elts[list[i]].name != name)
            && ((elts[list[j]].name == name && elts[list[j]].termNumber > number)
                ==> (elts[list[i]].name != name || elts[list[i]].termNumber > number))
  {
    var a, b, c := elts[list[k]], elts[list[j]], elts[list[i]];
    assert !Before(b, a) || b == a;
    assert !Before(c, b) || c == b;
    CompareIsZero(a.name, b.name);
    CompareIsZero(a.name, c.name);
    CompareIsAntisymmetric(a.name, b.name);
    CompareIsAntisymmetric(b.name, c.name);
    CompareIsTransitive(a.name, b.name, c.name);
    CompareIsZero(b.name, c.name);
  }

  lemma NoTermFollows(list: seq<int>, elts: seq<Element>, k: nat, j: nat, number: int)
    requires Permutes(list, |elts|) && Sorted(list, elts) && k <= j <= |list| && k < |list|
    requires j < |list| ==> elts[list[j]].name != elts[list[k]].name || elts[list[j]].termNumber > number
    ensures forall i :: 0 <= i < |list[j..]| ==>
        0 <= list[j..][i] < |elts| && (elts[list[j..][i]].name != elts[list[k]].name || elts[list[j..][i]].termNumber != number)
  {
    hide Before, Sorted;
    var rest := list[j..];
    forall i | 0 <= i < |rest|
      ensures elts[rest[i]].name != elts[list[k]].name || elts[rest[i]].termNumber != number
    {
      NothingFollows(list, elts, k, j, j + i, number);
    }
  }

  lemma NoNameFollows(list: seq<int>, elts: seq<Element>, k: nat, j: nat)
    requires Permutes(list, |elts|) && Sorted(list, elts) && k <= j <= |list| && k < |list|
    requires j < |list| ==> elts[list[j]].name != elts[list[k]].name
    ensures forall i :: 0 <= i < |list[j..]| ==> 0 <= list[j..][i] < |elts| && elts[list[j..][i]].name != elts[list[k]].name
  {
    hide Before, Sorted;
    var rest := list[j..];
    forall i | 0 <= i < |rest| ensures elts[rest[i]].name != elts[list[k]].name {
      NothingFollows(list, elts, k, j, j + i, 0);
    }
  }

  /** No element in front of the `k`-th has its name. */
  ghost predicate IsFirst(list: seq<int>, elts: seq<Element>, k: nat)
    requires Permutes(list, |elts|) && k < |list|
  {
    forall i :: 0 <= i < k ==> elts[list[i]].name != elts[list[k]].name
  }

  lemma FirstIsCandidate(list: seq<int>, elts: seq<Element>, k: nat)
    requires Permutes(list, |elts|) && Sorted(list, elts) && k < |list|
    ensures IsFirst(list, elts, k) <==> Candidate(list, elts, elts[list[k]].name) == list[k]
  {
    hide Before, Candidate;
    var name := elts[list[k]].name;
    CandidateIsFirst(list, elts, name);
    var c := Candidate(list, elts, name);
    var m :| 0 <= m < |list| && list[m] == c && elts[c].name == name && forall i :: 0 <= i < m ==> elts[list[i]].name != name;
  }

  lemma FirstReachesAll(list: seq<int>, elts: seq<Element>, k: nat)
    requires Permutes(list, |elts|) && k < |list|
    ensures IsFirst(list, elts, k) <==> forall id :: 0 <= id < |elts| && elts[id].name == elts[list[k]].name ==> id in list[k..]
  {
    var name := elts[list[k]].name;
    if IsFirst(list, elts, k) {
      forall id | 0 <= id < |elts| && elts[id].name == name ensures id in list[k..] {
        assert id in list;
        var i :| 0 <= i < |list| && list[i] == id;
        assert list[k..][i - k] == id;
      }
    }
    forall i | 0 <= i < k ensures list[i] !in list[k..] {
      assert forall j :: 0 <= j < |list[k..]| ==> list[k..][j] == list[k + j];
    }
  }

  /** A scan from the `k`-th element on meets every element with its name exactly when that element is the candidate
      that a search for the name would find now. */
  lemma ScanIsExact(list: seq<int>, elts: seq<Element>, k: nat)
    requires Permutes(list, |elts|) && Sorted(list, elts) && k < |list|
    ensures (forall id :: 0 <= id < |elts| && elts[id].name == elts[list[k]].name ==> id in list[k..])
            <==> Candidate(list, elts, elts[list[k]].name) == list[k]
  {
    FirstIsCandidate(list, elts, k);
    FirstReachesAll(list, elts, k);
  }

  /** The part of the list that starts with `c`. */
  function From(list: seq<int>, c: int): (r: seq<int>)
    ensures forall k :: 0 <= k < |list| && list[k] == c && c !in list[..k] ==> r == list[k..]
    ensures c !in list ==> r == []
  {
    if list == [] then []
    else if list[0] == c then list
    else
      assert forall k :: 1 <= k <= |list| ==> list[..k] == [list[0]] + list[1..][..k - 1];
      assert forall k :: 1 <= k <= |list| ==> list[k..] == list[1..][k - 1..];
      From(list[1..], c)
  }

  lemma FromAt(list: seq<int>, n: nat, k: nat)
    requires Permutes(list, n) && k < |list|
    ensures From(list, list[k]) == list[k..]
  {
  }

  /** One more element of a scan: the element at `j` is as before, and is set if it has the name and the number. */
  lemma AfterSetStep(elts: seq<Element>, list: seq<int>, k: nat, j: nat, name: seq<byte>, number: int, term: seq<byte>)
    requires Permutes(list, |elts|) && k <= j < |list|
    ensures var id, scanned := list[j], AfterSet(elts, list[k..j], name, number, term);
            && scanned[id] == elts[id]
            && (j + 1 < |list| ==> AfterSet(elts, list[k..j + 1], name, number, term)[list[j + 1]] == elts[list[j + 1]])
            && AfterSet(elts, list[k..j + 1], name, number, term)
               == if elts[id].name == name && elts[id].termNumber == number then scanned[id := Set(elts[id], term)] else scanned
  {
    SplitTail(list, k, j);
    if j + 1 < |list| {
      SplitTail(list, k, j + 1);
    }
  }

  lemma AfterCommitStep(elts: seq<Element>, list: seq<int>, k: nat, j: nat, name: seq<byte>)
    requires Permutes(list, |elts|) && k <= j < |list|
    ensures var id, scanned := list[j], AfterCommit(elts, list[k..j], name);
            && scanned[id] == elts[id]
            && (j + 1 < |list| ==> AfterCommit(elts, list[k..j + 1], name)[list[j + 1]] == elts[list[j + 1]])
            && AfterCommit(elts, list[k..j + 1], name)
               == if elts[id].name == name then scanned[id := Commit(elts[id])] else scanned
  {
    SplitTail(list, k, j);
    if j + 1 < |list| {
      SplitTail(list, k, j + 1);
    }
  }

  lemma SplitTail(list: seq<int>, k: nat, j: nat)
    requires k <= j <= |list|
    ensures list[k..] == list[k..j] + list[j..]
    ensures j < |list| ==> list[k..j + 1] == list[k..j] + [list[j]]
    ensures forall i :: 0 <= i < |list[j..]| ==> list[j..][i] == list[j + i]
    ensures (forall x, y :: 0 <= x < y < |list| ==> list[x] != list[y]) && j < |list| ==> list[j] !in list[k..j]
  {
  }

  ghost predicate SameKeys(a: seq<Element>, b: seq<Element>) {
    |a| == |b| && forall id :: 0 <= id < |a| ==> a[id].name == b[id].name && a[id].termNumber == b[id].termNumber
  }

  lemma ScansKeepKeys(elts: seq<Element>, ids: seq<int>, name: seq<byte>, number: int, term: seq<byte>)
    ensures SameKeys(elts, AfterSet(elts, ids, name, number, term))
    ensures SameKeys(elts, AfterCommit(elts, ids, name))
  {
  }

  lemma NothingScanned(elts: seq<Element>, name: seq<byte>, number: int, term: seq<byte>)
    ensures AfterSet(elts, [], name, number, term) == elts
    ensures AfterCommit(elts, [], name) == elts
  {
  }

  lemma SameKeysSameOrder(list: seq<int>, a: seq<Element>, b: seq<Element>)
    requires SameKeys(a, b) && Permutes(list, |a|) && Sorted(list, a)
    ensures Permutes(list, |b|) && Sorted(list, b)
  {
  }

  /** A scan may stop where nothing it looks for follows. */
  lemma AfterSetStops(elts: seq<Element>, ids: seq<int>, rest: seq<int>, name: seq<byte>, number: int, term: seq<byte>)
    requires forall i :: 0 <= i < |rest| ==> 0 <= rest[i] < |elts|
    requires forall i :: 0 <= i < |rest| ==> elts[rest[i]].name != name || elts[rest[i]].termNumber != number
    ensures AfterSet(elts, ids + rest, name, number, term) == AfterSet(elts, ids, name, number, term)
  {
  }

  lemma AfterCommitStops(elts: seq<Element>, ids: seq<int>, rest: seq<int>, name: seq<byte>)
    requires forall i :: 0 <= i < |rest| ==> 0 <= rest[i] < |elts| && elts[rest[i]].name != name
    ensures AfterCommit(elts, ids + rest, name) == AfterCommit(elts, ids, name)
  {
  }

  /** Where a scan stops it has met every element it looks for, and the list is still sorted. */
  lemma SetScanEnds(list: seq<int>, elts: seq<Element>, k: nat, j: nat, number: int, term: seq<byte>)
    requires Permutes(list, |elts|) && Sorted(list, elts) && k <= j <= |list| && k < |list|
    requires j < |list| ==> elts[list[j]].name != elts[list[k]].name || elts[list[j]].termNumber > number
    ensures var name := elts[list[k]].name;
            var after := AfterSet(elts, list[k..j], name, number, term);
            && after == AfterSet(elts, list[k..], name, number, term)
            && |after| == |elts| && Sorted(list, after)
  {
    hide AfterSet, AfterCommit, Sorted, Before;
    var name := elts[list[k]].name;
    SplitTail(list, k, j);
    NoTermFollows(list, elts, k, j, number);
    AfterSetStops(elts, list[k..j], list[j..], name, number, term);
    ScansKeepKeys(elts, list[k..], name, number, term);
    SameKeysSameOrder(list, elts, AfterSet(elts, list[k..], name, number, term));
  }

  lemma CommitScanEnds(list: seq<int>, elts: seq<Element>, k: nat, j: nat)
    requires Permutes(list, |elts|) && Sorted(list, elts) && k <= j <= |list| && k < |list|
    requires j < |list| ==> elts[list[j]].name != elts[list[k]].name
    ensures var name := elts[list[k]].name;
            var after := AfterCommit(elts, list[k..j], name);
            && after == AfterCommit(elts, list[k..], name)
            && |after| == |elts| && Sorted(list, after)
  {
    hide AfterSet, AfterCommit, Sorted, Before;
    var name := elts[list[k]].name;
    SplitTail(list, k, j);
    NoNameFollows(list, elts, k, j);
    AfterCommitStops(elts, list[k..j], list[j..], name);
    ScansKeepKeys(elts, list[k..], name, 0, []);
    SameKeysSameOrder(list, elts, AfterCommit(elts, list[k..], name));
  }

  /** The elements after setting every one with the name and the number. */
  function AllSet(elts: seq<Element>, name: seq<byte>, number: int, term: seq<byte>): seq<Element> {
    seq(|elts|, id requires 0 <= id < |elts| =>
      if elts[id].name == name && elts[id].termNumber == number then Set(elts[id], term) else elts[id])
  }

  /** The elements after committing every one with the name. */
  function AllCommitted(elts: seq<Element>, name: seq<byte>): seq<Element> {
    seq(|elts|, id requires 0 <= id < |elts| => if elts[id].name == name then Commit(elts[id]) else elts[id])
  }

  /** The scans touch what they should as soon as they can reach every element with the name. */
  lemma ReachingScans(elts: seq<Element>, ids: seq<int>, name: seq<byte>, number: int, term: seq<byte>)
    requires forall id :: 0 <= id < |elts| && elts[id].name == name ==> id in ids
    ensures AfterSet(elts, ids, name, number, term) == AllSet(elts, name, number, term)
    ensures AfterCommit(elts, ids, name) == AllCommitted(elts, name)
  {
  }

  /** From a candidate just searched for, the scans touch exactly the elements with the name (and the term number); there
      is no candidate exactly when no element has the name. */
  lemma ScansTouchExactly(list: seq<int>, elts: seq<Element>, name: seq<byte>, number: int, term: seq<byte>)
    requires Permutes(list, |elts|) && Sorted(list, elts)
    ensures var c := Candidate(list, elts, name);
            && (c == NULL <==> forall id :: 0 <= id < |elts| ==> elts[id].name != name)
            && (c != NULL ==> 0 <= c < |elts| && elts[c].name == name)
            && (c != NULL ==> AfterSet(elts, From(list, c), name, number, term) == AllSet(elts, name, number, term))
            && (c != NULL ==> AfterCommit(elts, From(list, c), name) == AllCommitted(elts, name))
  {
    hide Before, Candidate, Sorted, From, AfterSet, AfterCommit, AllSet, AllCommitted;
    CandidateOfSorted(list, elts, name);
    var c := Candidate(list, elts, name);
    if c == NULL {
      forall id | 0 <= id < |elts| ensures elts[id].name != name {
        assert id in list;
      }
    } else {
      var k :| 0 <= k < |list| && list[k] == c && elts[c].name == name && forall i :: 0 <= i < k ==> elts[list[i]].name != name;
      FromAt(list, |elts|, k);
      FirstReachesAll(list, elts, k);
      ReachingScans(elts, list[k..], name, number, term);
    }
  }

  lemma CandidateOfSorted(list: seq<int>, elts: seq<Element>, name: seq<byte>)
    requires Permutes(list, |elts|) && Sorted(list, elts)
    ensures var c := Candidate(list, elts, name);
            && (c == NULL ==> forall i :: 0 <= i < |list| ==> elts[list[i]].name != name)
            && (c != NULL ==> exists k :: 0 <= k < |list| && list[k] == c && elts[c].name == name
                                          && forall i :: 0 <= i < k ==> elts[list[i]].name != name)
  {
    CandidateIsFirst(list, elts, name);
  }

  // ----- The registry -----

  class Registry {
    var elts: seq<Element>
    var next: seq<int>
    var head: int
    var candidates: int
    ghost var list: seq<int>

    /** The linked list is acyclic, holds every element once, and is sorted. */
    ghost predicate Valid()
      reads this
    {
      && |next| == |elts|
      && Permutes(list, |elts|) && Sorted(list, elts)
      && Linked(head, list, next)
      && (candidates == NULL || candidates in list)
    }

    constructor ()
      ensures Valid() && elts == [] && list == [] && candidates == NULL
    {
      elts, next, head, candidates, list := [], [], NULL, NULL, [];
    }

    /** The registration of a new element (`TinyGPSCustom::begin` and `insertCustom`) */
    method InsertCustom(name: seq<byte>, termNumber: int)
      requires Valid()
      modifies this
      ensures Valid() && candidates == old(candidates)
      ensures elts == old(elts) + [NewElement(name, termNumber)]
      ensures list == Inserted(old(list), old(elts), NewElement(name, termNumber))
    {
      hide Before, Permutes, Sorted, Linked;
      var e := NewElement(name, termNumber);
      var id := |elts|;
      InsertedIsSorted(list, elts, e);
      NotListed(id);

      var previous, p := FindPlace(e);
      ghost var i := Place(list, elts, e);
      Splice(i, id);
      elts := elts + [e];
      next := next + [NULL];
      next := next[id := p];
      if previous == NULL {
        head := id;
      } else {
        next := next[previous := id];
      }
      list := list[..i] + [id] + list[i..];
    }

    /** What linking a new element in before the `i`-th one does. */
    lemma Splice(i: nat, id: int)
      requires Valid() && id == |elts| && i <= |list|
      ensures forall k :: 0 <= k < |list| ==> 0 <= list[k] < |elts|
      ensures var grown := (next + [NULL])[id := if i < |list| then list[i] else NULL];
              if i == 0 then Linked(id, list[..i] + [id] + list[i..], grown)
              else Linked(head, list[..i] + [id] + list[i..], grown[list[i - 1] := id])
    {
      hide Before, Permutes, Sorted;
      NotListed(id);
      LinkedGrows(head, list, next, NULL);
      InsertAt(head, list, next + [NULL], id, i);
      if i > 0 {
        ListedAt(i - 1);
      }
    }

    /** The search loop of the registration: the neighbours of the new element. */
    method FindPlace(e: Element) returns (previous: int, p: int)
      requires Valid()
      ensures var i := Place(list, elts, e);
              && i <= |list|
              && p == (if i < |list| then list[i] else NULL)
              && previous == (if i > 0 then list[i - 1] else NULL)
    {
      hide Before, Permutes, Sorted;
      InsertedIsSorted(list, elts, e);
      NotListed(|elts|);
      previous, p := NULL, head;
      ghost var i := 0;
      ghost var k := Place(list, elts, e);
      while p != NULL && !Before(e, elts[p])
        invariant i <= k <= |list|
        invariant p == (if i < |list| then list[i] else NULL)
        invariant previous == (if i > 0 then list[i - 1] else NULL)
        decreases |list| - i
      {
        ListedAt(i);
        previous, p := p, next[p];
        i := i + 1;
      }
      assert i == k;
    }

    lemma NotListed(id: int)
      requires Valid() && id == |elts|
      ensures id !in list
      ensures forall j, k :: 0 <= j < k < |list| ==> list[j] != list[k]
      ensures forall i :: 0 <= i < |list| ==> 0 <= list[i] < |elts|
      ensures |list| == |elts|
    {
    }

    lemma ListedAt(i: nat)
      requires Valid() && i < |list|
      ensures 0 <= list[i] < |elts| && next[list[i]] == (if i + 1 < |list| then list[i + 1] else NULL)
    {
      LinkedAt(head, list, next, i);
    }

    /** The search that the first term of a sentence starts. */
    method FindCandidates(name: seq<byte>)
      requires Valid()
      modifies this`candidates
      ensures Valid() && candidates == Candidate(list, elts, name)
    {
      hide Before, Sorted, Compare;
      var p := head;
      ghost var i := 0;
      assert list[0..] == list;
      NotListed(|elts|);
      while p != NULL && Compare(elts[p].name, name) < 0
        modifies {}
        invariant i <= |list|
        invariant p == (if i < |list| then list[i] else NULL)
        invariant Candidate(list, elts, name) == Candidate(list[i..], elts, name)
        decreases |list| - i
      {
        ListedAt(i);
        assert list[i..][0] == list[i] && list[i..][1..] == list[i + 1..];
        p := next[p];
        i := i + 1;
      }
      if i < |list| {
        assert list[i..][0] == list[i];
      }
      candidates := if p != NULL && Compare(elts[p].name, name) > 0 then NULL else p;
    }

    /** The scan that stores a term: it sets the elements from the candidate on that have the candidate's name and
        the current term number. */
    method SetScan(number: int, term: seq<byte>)
      requires Valid()
      modifies this`elts
      ensures Valid()
      ensures elts == if candidates == NULL then old(elts)
                      else AfterSet(old(elts), From(list, candidates), old(elts)[candidates].name, number, term)
    {
      if candidates == NULL {
        return;
      }
      NotListed(|elts|);
      ghost var k :| 0 <= k < |list| && list[k] == candidates;
      FromAt(list, |elts|, k);
      SetFrom(k, number, term);
    }

    /** The loop of the scan, which starts at the `k`-th element of the list. */
    method SetFrom(ghost k: nat, number: int, term: seq<byte>)
      requires Valid() && k < |list| && list[k] == candidates
      modifies this`elts
      ensures Valid()
      ensures elts == AfterSet(old(elts), list[k..], old(elts)[candidates].name, number, term)
    {
      hide AfterSet, AfterCommit, Sorted, Permutes, Before, Linked;
      NotListed(|elts|);
      ghost var before := elts;
      var name := elts[candidates].name;
      var p := candidates;
      ghost var j := k;
      assert list[k..k] == [];
      NothingScanned(before, name, number, term);
      while p != NULL && elts[p].name == name && elts[p].termNumber <= number
        invariant k <= j <= |list|
        invariant p == (if j < |list| then list[j] else NULL)
        invariant |elts| == |before| && (p != NULL ==> elts[p] == before[p])
        invariant elts == AfterSet(before, list[k..j], name, number, term)
        decreases |list| - j
      {
        LinkedAt(head, list, next, j);
        AfterSetStep(before, list, k, j, name, number, term);
        if elts[p].termNumber == number {
          elts := elts[p := Set(elts[p], term)];
        }
        p := next[p];
        j := j + 1;
      }
      SetScanEnds(list, before, k, j, number, term);
    }

    /** The scan that publishes the stored terms: it commits the elements from the candidate on that have its name. */
    method CommitScan()
      requires Valid()
      modifies this`elts
      ensures Valid()
      ensures elts == if candidates == NULL then old(elts)
                      else AfterCommit(old(elts), From(list, candidates), old(elts)[candidates].name)
    {
      if candidates == NULL {
        return;
      }
      NotListed(|elts|);
      ghost var k :| 0 <= k < |list| && list[k] == candidates;
      FromAt(list, |elts|, k);
      CommitFrom(k);
    }

    /** The loop of the scan, which starts at the `k`-th element of the list. */
    method CommitFrom(ghost k: nat)
      requires Valid() && k < |list| && list[k] == candidates
      modifies this`elts
      ensures Valid()
      ensures elts == AfterCommit(old(elts), list[k..], old(elts)[candidates].name)
    {
      hide AfterSet, AfterCommit, Sorted, Permutes, Before, Linked;
      NotListed(|elts|);
      ghost var before := elts;
      var name := elts[candidates].name;
      var p := candidates;
      ghost var j := k;
      assert list[k..k] == [];
      NothingScanned(before, name, 0, []);
      while p != NULL && elts[p].name == name
        invariant k <= j <= |list|
        invariant p == (if j < |list| then list[j] else NULL)
        invariant |elts| == |before| && (p != NULL ==> elts[p] == before[p])
        invariant elts == AfterCommit(before, list[k..j], name)
        decreases |list| - j
      {
        LinkedAt(head, list, next, j);
        AfterCommitStep(before, list, k, j, name);
        elts := elts[p := Commit(elts[p])];
        p := next[p];
        j := j + 1;
      }
      CommitScanEnds(list, before, k, j);
    }
  }
}
