/** Registrations while a sentence is being read: when the scans from the remembered candidate stay exact. */
module TinyGpsRegistration {
  import opened Prelude
  import opened IndexLists
  import opened NmeaBytes
  import opened TinyGpsCustom
  import TinyGps
  import TinyGpsSpec

  /** The elements and their order. */
  datatype Listing = Listing(list: seq<int>, elts: seq<Element>)

  ghost predicate InOrder(l: Listing) {
    Permutes(l.list, |l.elts|) && Sorted(l.list, l.elts)
  }

  /** What happens between the first term of a sentence and its checksum: an element is registered, or a term ends. */
  datatype Event = Registered(name: seq<byte>, termNumber: int) | Ended(number: int, text: seq<byte>)

  ghost function Register(l: Listing, name: seq<byte>, termNumber: int): (r: Listing)
    requires InOrder(l)
    ensures InOrder(r)
  {
    var e := NewElement(name, termNumber);
    InsertedIsSorted(l.list, l.elts, e);
    Listing(Inserted(l.list, l.elts, e), l.elts + [e])
  }

  /** One event of a sentence `name` whose candidate was found to be `c`: a term is set from `c` on. */
  ghost function Step(l: Listing, c: int, name: seq<byte>, ev: Event): (r: Listing)
    requires InOrder(l)
    ensures InOrder(r)
  {
    match ev
    case Registered(other, termNumber) => Register(l, other, termNumber)
    case Ended(number, text) =>
      ScansKeepKeys(l.elts, From(l.list, c), name, number, text);
      SameKeysSameOrder(l.list, l.elts, AfterSet(l.elts, From(l.list, c), name, number, text));
      l.(elts := AfterSet(l.elts, From(l.list, c), name, number, text))
  }

  ghost function Run(l: Listing, c: int, name: seq<byte>, evs: seq<Event>): (r: Listing)
    requires InOrder(l)
    ensures InOrder(r)
    decreases |evs|
  {
    if evs == [] then l else Step(Run(l, c, name, evs[..|evs| - 1]), c, name, evs[|evs| - 1])
  }

  /** The same with every element of the name in reach. */
  function Reference(elts: seq<Element>, name: seq<byte>, evs: seq<Event>): seq<Element>
    decreases |evs|
  {
    if evs == [] then elts else
    var before := Reference(elts, name, evs[..|evs| - 1]);
    match evs[|evs| - 1]
    case Registered(other, termNumber) => before + [NewElement(other, termNumber)]
    case Ended(number, text) => AllSet(before, name, number, text)
  }

  /** A registration that comes too late: one of the name, when nothing had the name or in front of the candidate. */
  predicate TooLate(ev: Event, name: seq<byte>, first: Option<Element>) {
    ev.Registered? && ev.name == name && (first.None? || ev.termNumber < first.value.termNumber)
  }

  /** The element that the search at the first term found. */
  function FirstOf(l: Listing, c: int): Option<Element> {
    if 0 <= c < |l.elts| then Some(l.elts[c]) else None
  }

  // ----- The candidate -----

  /** The search at the end of the first term. */
  ghost function Found(l: Listing, name: seq<byte>): int
    requires InOrder(l)
  {
    Candidate(l.list, l.elts, name)
  }

  /** `c` is an element of the name, or there is none. */
  ghost predicate Points(l: Listing, c: int, name: seq<byte>) {
    InOrder(l) && (c == NULL || (0 <= c < |l.elts| && l.elts[c].name == name))
  }

  /** An element of the name that the scans from `c` do not meet. */
  predicate IsMissed(l: Listing, c: int, name: seq<byte>, id: int) {
    0 <= id < |l.elts| && l.elts[id].name == name && id !in From(l.list, c)
  }

  ghost predicate Misses(l: Listing, c: int, name: seq<byte>) {
    exists id :: IsMissed(l, c, name, id)
  }

  /** Right after the search nothing is missed. */
  lemma FoundReachesAll(l: Listing, name: seq<byte>)
    requires InOrder(l)
    ensures var c := Found(l, name);
            Points(l, c, name) && forall id :: 0 <= id < |l.elts| && l.elts[id].name == name ==> id in From(l.list, c)
  {
    hide Candidate, From, Sorted;
    var c := Found(l, name);
    CandidateOfSorted(l.list, l.elts, name);
    if c == NULL {
      forall id | 0 <= id < |l.elts| ensures l.elts[id].name != name {
        assert id in l.list;
      }
    } else {
      var k :| 0 <= k < |l.list| && l.list[k] == c && l.elts[c].name == name && forall i :: 0 <= i < k ==> l.elts[l.list[i]].name != name;
      FromAt(l.list, |l.elts|, k);
      FirstReachesAll(l.list, l.elts, k);
    }
  }

  // ----- One event -----

  /** Where the new element goes, seen from an element of the same name at `m`. */
  lemma PlaceFrom(l: Listing, e: Element, m: nat)
    requires InOrder(l) && m < |l.list| && l.elts[l.list[m]].name == e.name
    ensures Place(l.list, l.elts, e) <= m <==> e.termNumber < l.elts[l.list[m]].termNumber
  {
    hide Before, Place;
    var c := l.elts[l.list[m]];
    var p := Place(l.list, l.elts, e);
    SameName(e, c);
    if p <= m && p < m && !Before(e, c) {
      NotBeforeIsTransitive(l.elts[l.list[p]], c, e);
    }
  }

  lemma SameName(e: Element, c: Element)
    requires e.name == c.name
    ensures Before(e, c) <==> e.termNumber < c.termNumber
  {
    CompareIsZero(e.name, c.name);
  }

  /** A registration adds one element, which the scans from the `k`-th one reach exactly if it comes behind that. */
  lemma FromInserted(list: seq<int>, n: nat, k: nat, p: nat)
    requires Permutes(list, n) && k < n && p <= n
    requires Permutes(list[..p] + [n] + list[p..], n + 1)
    ensures From(list[..p] + [n] + list[p..], list[k]) == if p <= k then list[k..] else list[k..p] + [n] + list[p..]
  {
    hide From;
    var grown := list[..p] + [n] + list[p..];
    FromAt(grown, n + 1, if p <= k then k + 1 else k);
  }

  lemma RegisterReaches(l: Listing, c: int, name: seq<byte>, other: seq<byte>, termNumber: int)
    requires Points(l, c, name)
    ensures var after := Register(l, other, termNumber);
            && (forall id :: 0 <= id < |l.elts| ==> (id in From(after.list, c) <==> id in From(l.list, c)))
            && (other == name ==> (|l.elts| in From(after.list, c) <==> c != NULL && termNumber >= l.elts[c].termNumber))
  {
    hide Place, From, Sorted, Before;
    var e, n := NewElement(other, termNumber), |l.elts|;
    var after, p := Register(l, other, termNumber), Place(l.list, l.elts, e);
    if c == NULL {
      assert From(l.list, c) == [] && From(after.list, c) == [] by {
        NotFrom(l.list, n, c);
        NotFrom(after.list, n + 1, c);
      }
    } else {
      assert c in l.list;
      var k :| 0 <= k < |l.list| && l.list[k] == c;
      FromInserted(l.list, n, k, p);
      FromAt(l.list, n, k);
      TailGrows(l.list, n, k, p);
      if other == name {
        PlaceFrom(l, e, k);
      }
    }
  }

  lemma NotFrom(list: seq<int>, n: nat, c: int)
    requires Permutes(list, n) && !(0 <= c < n)
    ensures From(list, c) == []
  {
    assert c !in list;
  }

  lemma TailGrows(list: seq<int>, n: nat, k: nat, p: nat)
    requires Permutes(list, n) && k < n && p <= n
    ensures var tail := if p <= k then list[k..] else list[k..p] + [n] + list[p..];
            && (forall id :: 0 <= id < n ==> (id in tail <==> id in list[k..]))
            && (n in tail <==> p > k)
  {
    if p > k {
      assert list[k..] == list[k..p] + list[p..];
    }
  }

  /** An event keeps what is reached, and adds an element that is missed only if it comes too late. */
  lemma StepReaches(l: Listing, c: int, name: seq<byte>, ev: Event)
    requires Points(l, c, name)
    ensures var after := Step(l, c, name, ev);
            && Points(after, c, name)
            && (c != NULL ==> after.elts[c].termNumber == l.elts[c].termNumber)
            && (Misses(after, c, name) <==> Misses(l, c, name) || TooLate(ev, name, FirstOf(l, c)))
  {
    hide From, AfterSet, Sorted, Permutes, Inserted;
    var after := Step(l, c, name, ev);
    match ev
    case Registered(other, termNumber) =>
      hide Register;
      RegisterReaches(l, c, name, other, termNumber);
      RegisterAdds(l, other, termNumber);
      OneMore(l, after, c, name);
    case Ended(number, text) =>
      ScansKeepKeys(l.elts, From(l.list, c), name, number, text);
      assert forall id :: IsMissed(after, c, name, id) <==> IsMissed(l, c, name, id);
  }

  lemma RegisterAdds(l: Listing, name: seq<byte>, termNumber: int)
    requires InOrder(l)
    ensures Register(l, name, termNumber).elts == l.elts + [NewElement(name, termNumber)]
  {
  }

  /** One more element, and what was reached before is reached now. */
  ghost predicate Grown(l: Listing, after: Listing, c: int) {
    && |after.elts| == |l.elts| + 1
    && forall id :: 0 <= id < |l.elts| ==>
         after.elts[id].name == l.elts[id].name && (id in From(after.list, c) <==> id in From(l.list, c))
  }

  lemma OneMore(l: Listing, after: Listing, c: int, name: seq<byte>)
    requires Grown(l, after, c)
    ensures Misses(after, c, name) <==> Misses(l, c, name) || IsMissed(after, c, name, |l.elts|)
  {
    hide From, IsMissed;
    forall id ensures IsMissed(after, c, name, id) <==> IsMissed(l, c, name, id) || (id == |l.elts| && IsMissed(after, c, name, id)) {
      SameMissed(l, after, c, name, id);
    }
  }

  lemma SameMissed(l: Listing, after: Listing, c: int, name: seq<byte>, id: int)
    requires Grown(l, after, c)
    ensures id != |l.elts| ==> (IsMissed(after, c, name, id) <==> IsMissed(l, c, name, id))
    ensures id == |l.elts| ==> !IsMissed(l, c, name, id)
  {
    hide From;
  }

  /** No missed element has ever been committed. */
  ghost predicate MissedAreInvalid(l: Listing, c: int, name: seq<byte>) {
    forall id :: IsMissed(l, c, name, id) ==> !l.elts[id].valid
  }

  lemma StepKeepsInvalid(l: Listing, c: int, name: seq<byte>, ev: Event)
    requires Points(l, c, name) && MissedAreInvalid(l, c, name)
    ensures MissedAreInvalid(Step(l, c, name, ev), c, name)
  {
    hide From, Sorted, Permutes, Inserted;
    var after := Step(l, c, name, ev);
    if ev.Registered? {
      RegisterReaches(l, c, name, ev.name, ev.termNumber);
      assert forall id :: 0 <= id < |l.elts| ==> after.elts[id] == l.elts[id];
    }
  }

  // ----- Any events -----

  lemma FirstStays(l: Listing, x: Listing, c: int, name: seq<byte>, ev: Event)
    requires Points(l, c, name) && Points(x, c, name) && (c != NULL ==> x.elts[c].termNumber == l.elts[c].termNumber)
    ensures TooLate(ev, name, FirstOf(x, c)) == TooLate(ev, name, FirstOf(l, c))
  {
    hide InOrder;
  }

  lemma OneMoreEvent(evs: seq<Event>, name: seq<byte>, first: Option<Element>)
    requires evs != []
    ensures var front := evs[..|evs| - 1];
            (exists i :: 0 <= i < |evs| && TooLate(evs[i], name, first))
            <==> TooLate(evs[|evs| - 1], name, first) || exists i :: 0 <= i < |front| && TooLate(front[i], name, first)
  {
    hide TooLate;
    var front := evs[..|evs| - 1];
    assert forall i :: 0 <= i < |front| ==> front[i] == evs[i];
  }

  lemma AllReached(l: Listing, c: int, name: seq<byte>)
    ensures !Misses(l, c, name) <==> forall id :: 0 <= id < |l.elts| && l.elts[id].name == name ==> id in From(l.list, c)
  {
    hide From;
    assert forall id :: 0 <= id < |l.elts| && l.elts[id].name == name && id !in From(l.list, c) <==> IsMissed(l, c, name, id);
  }

  lemma NothingMissed(l: Listing, c: int, name: seq<byte>)
    requires forall id :: 0 <= id < |l.elts| && l.elts[id].name == name ==> id in From(l.list, c)
    ensures !Misses(l, c, name) && MissedAreInvalid(l, c, name)
  {
    hide From;
  }

  /** What holds along a run: something is missed exactly when some registration came too late, and it is not valid. */
  lemma {:induction false} RunMisses(l: Listing, name: seq<byte>, evs: seq<Event>)
    requires InOrder(l)
    ensures var c := Found(l, name);
            var x := Run(l, c, name, evs);
            && Points(l, c, name) && Points(x, c, name) && MissedAreInvalid(x, c, name)
            && (c != NULL ==> x.elts[c].termNumber == l.elts[c].termNumber)
            && (Misses(x, c, name) <==> exists i :: 0 <= i < |evs| && TooLate(evs[i], name, FirstOf(l, c)))
    decreases |evs|
  {
    FoundReachesAll(l, name);
    hide Found, Step, TooLate, InOrder, From, FirstOf, MissedAreInvalid, Misses;
    var c := Found(l, name);
    if evs == [] {
      NothingMissed(l, c, name);
    } else {
      var front, ev := evs[..|evs| - 1], evs[|evs| - 1];
      var before := Run(l, c, name, front);
      RunMisses(l, name, front);
      StepReaches(before, c, name, ev);
      StepKeepsInvalid(before, c, name, ev);
      FirstStays(l, before, c, name, ev);
      OneMoreEvent(evs, name, FirstOf(l, c));
    }
  }

  lemma StepAsReference(l: Listing, c: int, name: seq<byte>, ev: Event, elts: seq<Element>)
    requires Points(l, c, name) && SameKeys(l.elts, elts)
    ensures var after := Step(l, c, name, ev).elts;
            var all := if ev.Registered? then elts + [NewElement(ev.name, ev.termNumber)] else AllSet(elts, name, ev.number, ev.text);
            && SameKeys(after, all)
            && (!Misses(l, c, name) && l.elts == elts ==> after == all)
  {
    hide From, Sorted, Permutes, Inserted;
    if ev.Ended? {
      ScansKeepKeys(l.elts, From(l.list, c), name, ev.number, ev.text);
      if !Misses(l, c, name) {
        AllReached(l, c, name);
        ReachingScans(l.elts, From(l.list, c), name, ev.number, ev.text);
      }
    }
  }

  /** As long as nothing is missed the elements are those of the reference; their keys always are. */
  lemma {:induction false} RunAsReference(l: Listing, name: seq<byte>, evs: seq<Event>)
    requires InOrder(l)
    ensures var c := Found(l, name);
            var x := Run(l, c, name, evs);
            && SameKeys(x.elts, Reference(l.elts, name, evs))
            && (!Misses(x, c, name) ==> x.elts == Reference(l.elts, name, evs))
    decreases |evs|
  {
    hide Found, Step, TooLate, InOrder, From, Misses, MissedAreInvalid;
    if evs != [] {
      var c := Found(l, name);
      var front, ev := evs[..|evs| - 1], evs[|evs| - 1];
      var before := Run(l, c, name, front);
      RunMisses(l, name, front);
      RunAsReference(l, name, front);
      StepReaches(before, c, name, ev);
      hide SameKeys;
      StepAsReference(before, c, name, ev, Reference(l.elts, name, front));
    }
  }

  // ----- The scans afterwards -----

  /** What the parser does with its custom elements is such a run: the search, the terms, and the commit. */
  lemma EventsArePerformed(l: Listing, c: int, name: seq<byte>, number: nat, text: seq<byte>)
    requires Points(l, c, name)
    ensures var customs := TinyGps.Customs(l.list, l.elts, c);
            && TinyGps.Linked(customs)
            && TinyGps.Perform(customs, TinyGpsSpec.Search(name)) == TinyGps.Customs(l.list, l.elts, Found(l, name))
            && (var x := Step(l, c, name, Ended(number, text));
                TinyGps.Perform(customs, TinyGpsSpec.SetTerm(number, text)) == TinyGps.Customs(x.list, x.elts, c))
            && TinyGps.Perform(customs, TinyGpsSpec.CommitAll)
               == TinyGps.Customs(l.list, AfterCommit(l.elts, From(l.list, c), name), c)
  {
    hide From, AfterSet, AfterCommit, Sorted, Candidate;
    if c == NULL {
      NotFrom(l.list, |l.elts|, c);
      NothingScanned(l.elts, name, number, text);
    }
  }

  /** From the first term of a sentence on, and after any registrations and terms, the scans still meet every element of
      the name if and only if no registration of that name came when nothing had the name or had a smaller term number
      than the candidate. */
  lemma ScansStayExact(l: Listing, evs: seq<Event>, name: seq<byte>)
    requires InOrder(l)
    ensures var c := Found(l, name);
            var x := Run(l, c, name, evs);
            (forall id :: 0 <= id < |x.elts| && x.elts[id].name == name ==> id in From(x.list, c))
            <==> forall i :: 0 <= i < |evs| ==> !TooLate(evs[i], name, FirstOf(l, c))
  {
    hide Found, From, Run, TooLate, Misses;
    RunMisses(l, name, evs);
    AllReached(Run(l, Found(l, name), name, evs), Found(l, name), name);
  }

  /** The same condition, exactly, for what the checksum publishes: the elements are then those of a run in which every
      element of the name is set by its term and committed. */
  lemma CommitStaysExact(l: Listing, evs: seq<Event>, name: seq<byte>)
    requires InOrder(l)
    ensures var c := Found(l, name);
            var x := Run(l, c, name, evs);
            AfterCommit(x.elts, From(x.list, c), name) == AllCommitted(Reference(l.elts, name, evs), name)
            <==> forall i :: 0 <= i < |evs| ==> !TooLate(evs[i], name, FirstOf(l, c))
  {
    hide Found, From, Run, Reference, TooLate;
    var c := Found(l, name);
    var x := Run(l, c, name, evs);
    RunMisses(l, name, evs);
    RunAsReference(l, name, evs);
    if Misses(x, c, name) {
      CommitShowsMiss(x, c, name, Reference(l.elts, name, evs));
    } else {
      AllReached(x, c, name);
      ReachingScans(x.elts, From(x.list, c), name, 0, []);
    }
  }

  lemma CommitShowsMiss(l: Listing, c: int, name: seq<byte>, elts: seq<Element>)
    requires Misses(l, c, name) && MissedAreInvalid(l, c, name) && SameKeys(l.elts, elts)
    ensures AfterCommit(l.elts, From(l.list, c), name) != AllCommitted(elts, name)
  {
    hide From;
    var id :| IsMissed(l, c, name, id);
    assert AfterCommit(l.elts, From(l.list, c), name)[id] == l.elts[id];
    assert AllCommitted(elts, name)[id] == Commit(elts[id]);
  }

  // ----- Two registrations that come too late -----

  /** An element for term 5 is the candidate when one for term 1 of the same sentence is registered: the checksum then
      publishes only the first. */
  lemma LateRegistrationIsMissed(name: seq<byte>)
    ensures var l, late := Listing([0], [NewElement(name, 5)]), [Registered(name, 1)];
            && InOrder(l) && Found(l, name) == 0
            && var x := Run(l, 0, name, late);
               AfterCommit(x.elts, From(x.list, 0), name) != AllCommitted(Reference(l.elts, name, late), name)
  {
    hide Run, Reference;
    var l, late := Listing([0], [NewElement(name, 5)]), [Registered(name, 1)];
    CompareIsZero(name, name);
    FirstIsCandidate(l.list, l.elts, 0);
    CommitStaysExact(l, late, name);
    assert TooLate(late[0], name, FirstOf(l, 0));
  }

  /** An element registered when nothing has its name is not published either, although there is no other. */
  lemma FirstRegistrationIsMissed(name: seq<byte>)
    ensures var l, late := Listing([], []), [Registered(name, 1)];
            && InOrder(l) && Found(l, name) == NULL
            && var x := Run(l, NULL, name, late);
               AfterCommit(x.elts, From(x.list, NULL), name) != AllCommitted(Reference(l.elts, name, late), name)
  {
    hide Run, Reference;
    var l, late := Listing([], []), [Registered(name, 1)];
    CommitStaysExact(l, late, name);
    assert TooLate(late[0], name, FirstOf(l, NULL));
  }
}
