/**
 * What the logger promises over every run: chunks are conserved, the byte stream
 * handed to the disk is the accepted log, and a message is dropped exactly when
 * the arena has no room left for it.
 */
module LoggerTheorems {
  import opened Prelude
  import opened LoggerSpec

  // ----- Conservation of chunks -----

  function Ids(chunks: seq<Chunk>): seq<int> {
    seq(|chunks|, i requires 0 <= i < |chunks| => chunks[i].id)
  }

  function CurrentId(current: Option<Chunk>): seq<int> {
    match current
    case None => []
    case Some(c) => [c.id]
  }

  /** How many times a chunk is held: on the free list, as the current chunk, in the queue. */
  function Places(s: State, id: int): nat {
    multiset(s.free)[id] + multiset(CurrentId(s.current))[id] + multiset(Ids(s.pending))[id]
  }

  /** Every chunk of the pool is held exactly once, and nothing else is. */
  ghost predicate EachOnce(s: State) {
    forall id :: Places(s, id) == (if 0 <= id < NUM_CHUNKS then 1 else 0)
  }

  predicate Sized(s: State) {
    && (forall c <- s.pending :: 0 < |c.bytes| <= CHUNK_SIZE)
    && (s.current.Some? ==> |s.current.value.bytes| <= CHUNK_SIZE)
  }

  /** What holds whenever control is outside the logger: one write is outstanding iff the
      queue is non-empty, and it is the last one submitted, with the bytes its chunk still has. */
  predicate Settled(s: State) {
    && Sized(s)
    && s.outstanding == (if s.pending == [] then [] else [s.pending[0]])
    && (s.pending != [] ==> s.writes != [] && s.writes[|s.writes| - 1] == s.pending[0])
  }

  /** Between calls: settled, and every chunk of the pool held exactly once. */
  ghost predicate Accounted(s: State) {
    Settled(s) && EachOnce(s)
  }

  // ----- The byte stream -----

  function Bytes(chunks: seq<Chunk>): string {
    if chunks == [] then [] else chunks[0].bytes + Bytes(chunks[1..])
  }

  lemma {:induction false} BytesOfAppend(chunks: seq<Chunk>, c: Chunk)
    ensures Bytes(chunks + [c]) == Bytes(chunks) + c.bytes
  {
    if chunks == [] {
      assert chunks + [c] == [c];
    } else {
      BytesOfAppend(chunks[1..], c);
      assert (chunks + [c])[1..] == chunks[1..] + [c];
    }
  }

  /** The chunks ever queued: those handed to the disk, then those still waiting for their turn. */
  function Queued(s: State): seq<Chunk>
    requires |s.outstanding| <= |s.pending|
  {
    s.writes + s.pending[|s.outstanding|..]
  }

  function CurrentBytes(s: State): string {
    if s.current.None? then [] else s.current.value.bytes
  }

  /** Bytes handed to `uv_fs_write`, then queued bytes, then the bytes of the current chunk. */
  function Stream(s: State): string
    requires |s.outstanding| <= |s.pending|
  {
    Bytes(Queued(s)) + CurrentBytes(s)
  }

  // ----- Each operation -----

  lemma SamePlaces(r: State, s: State)
    requires EachOnce(s) && forall id :: Places(r, id) == Places(s, id)
    ensures EachOnce(r)
  {
  }

  lemma OpenedKeeps(s: State, ok: bool)
    requires Accounted(s)
    ensures Accounted(Opened(s, ok)) && Stream(Opened(s, ok)) == Stream(s)
  {
    SamePlaces(Opened(s, ok), s);
  }

  lemma {:induction false} StartWriteKeeps(s: State, disk: Disk)
    requires s.pending != [] && s.outstanding == [] && Sized(s) && EachOnce(s)
    ensures var r := StartWrite(s, disk);
            Accounted(r) && Queued(r) == Queued(s) && |r.free| >= |s.free|
    decreases |s.pending|, 1
  {
    hide OnWrite;
    var submitted := s.(writes := s.writes + [s.pending[0]]);
    if !disk(|s.writes|) {
      SamePlaces(submitted, s);
      OnWriteKeeps(submitted, disk);
    } else {
      SamePlaces(StartWrite(s, disk), s);
    }
  }

  lemma RecycledPlaces(s: State)
    requires s.pending != []
    ensures var r := s.(pending := s.pending[1..], free := [s.pending[0].id] + s.free);
            forall id :: Places(r, id) == Places(s, id)
  {
    assert Ids(s.pending) == [s.pending[0].id] + Ids(s.pending[1..]);
  }

  lemma {:induction false} OnWriteKeeps(s: State, disk: Disk)
    requires s.pending != [] && s.outstanding == [] && Sized(s) && EachOnce(s)
    ensures var r := OnWrite(s, disk);
            Accounted(r) && Queued(r) == s.writes + s.pending[1..] && |r.free| > |s.free|
    decreases |s.pending|, 0
  {
    var recycled := s.(pending := s.pending[1..], free := [s.pending[0].id] + s.free);
    RecycledPlaces(s);
    SamePlaces(recycled, s);
    if recycled.pending != [] {
      StartWriteKeeps(recycled, disk);
    }
  }

  lemma QueuedPlaces(s: State)
    requires s.current.Some?
    ensures var r := s.(pending := s.pending + [s.current.value], current := None);
            forall id :: Places(r, id) == Places(s, id)
  {
    assert Ids(s.pending + [s.current.value]) == Ids(s.pending) + [s.current.value.id];
  }

  lemma QueueCurrentKeeps(s: State, disk: Disk)
    requires Accounted(s) && s.current.Some? && s.current.value.bytes != []
    ensures var r := QueueCurrent(s, disk);
            Accounted(r) && Stream(r) == Stream(s) && |r.free| >= |s.free|
  {
    var c := s.current.value;
    var queued := s.(pending := s.pending + [c], current := None);
    QueuedPlaces(s);
    SamePlaces(queued, s);
    assert Queued(queued) == Queued(s) + [c];
    BytesOfAppend(Queued(s), c);
    if |queued.pending| == 1 {
      StartWriteKeeps(queued, disk);
    }
  }

  lemma WriteDoneKeeps(s: State, disk: Disk)
    requires Accounted(s) && s.outstanding != []
    ensures var r := WriteDone(s, disk);
            Accounted(r) && Stream(r) == Stream(s) && |r.free| > |s.free|
  {
    assert s.outstanding[1..] == [];
    SamePlaces(s.(outstanding := []), s);
    OnWriteKeeps(s.(outstanding := []), disk);
  }

  lemma FlushKeeps(s: State, disk: Disk)
    requires Accounted(s)
    ensures var r := Flush(s, disk);
            Accounted(r) && Stream(r) == Stream(s) && CurrentBytes(r) == []
  {
    if s.current.Some? && s.current.value.bytes != [] {
      QueueCurrentKeeps(s, disk);
    }
  }

  lemma TakeFreeKeeps(s: State)
    requires Accounted(s) && s.current.None? && s.free != []
    ensures var r := TakeFree(s);
            Accounted(r) && Stream(r) == Stream(s) && CurrentBytes(r) == []
  {
    assert s.free == [s.free[0]] + s.free[1..];
    SamePlaces(TakeFree(s), s);
  }

  lemma AppendKeeps(s: State, line: string)
    requires Accounted(s) && Fits(s.current, line)
    ensures var c := s.current.value;
            var r := s.(current := Some(c.(bytes := c.bytes + line)));
            Accounted(r) && Stream(r) == Stream(s) + line
  {
    var c := s.current.value;
    SamePlaces(s.(current := Some(c.(bytes := c.bytes + line))), s);
  }

  /** A log call keeps the chunks and the invariant, extends the stream by exactly the accepted line,
      changes nothing when it rejects, and calls itself at most once. */
  lemma {:induction false} LogKeeps(s: State, msg: string, disk: Disk)
    requires Accounted(s)
    ensures var r := Log(s, msg, disk);
            && Accounted(r.state)
            && Stream(r.state) == (if r.outcome == Accepted then Stream(s) + Line(msg) else Stream(s))
            && r.activations <= Retries(s) + 1
    decreases Retries(s), 1
  {
    if !s.open || msg == [] || (|s.pending| >= MAX_PENDING && s.free == [] && !Fits(s.current, Line(msg)))
       || (s.current.None? && s.free == []) {
    } else if s.current.None? {
      TakeFreeKeeps(s);
      LogIntoKeeps(TakeFree(s), msg, disk);
    } else {
      LogIntoKeeps(s, msg, disk);
    }
  }

  lemma {:induction false} LogIntoKeeps(s: State, msg: string, disk: Disk)
    requires Accounted(s) && s.current.Some? && msg != []
    ensures var r := LogInto(s, msg, disk);
            && Accounted(r.state)
            && Stream(r.state) == (if r.outcome == Accepted then Stream(s) + Line(msg) else Stream(s))
            && r.activations <= Retries(s) + 1
    decreases Retries(s), 0
  {
    if Fits(s.current, Line(msg)) {
      AppendKeeps(s, Line(msg));
    } else if CurrentBytes(s) != [] {
      QueueCurrentKeeps(s, disk);
      LogKeeps(QueueCurrent(s, disk), msg, disk);
    }
  }

  // ----- Runs -----

  /** One call into the logger, or one call back from the disk. */
  datatype Event = OpenDone(ok: bool) | LogCall(msg: string) | FlushCall | DiskDone

  /** The state reached and the concatenation of the lines accepted on the way. */
  datatype Trace = Trace(state: State, accepted: string)

  /** The disk can complete a write only if one is outstanding. */
  predicate Enabled(s: State, e: Event) {
    e.DiskDone? ==> s.outstanding != [] && s.pending != []
  }

  function Step(t: Trace, e: Event, disk: Disk): Trace
    requires Enabled(t.state, e)
  {
    match e
    case OpenDone(ok) => t.(state := Opened(t.state, ok))
    case LogCall(msg) =>
      var r := Log(t.state, msg, disk);
      Trace(r.state, if r.outcome == Accepted then t.accepted + Line(msg) else t.accepted)
    case FlushCall => t.(state := Flush(t.state, disk))
    case DiskDone => t.(state := WriteDone(t.state, disk))
  }

  /** `t` is reached from the freshly created logger by the events `es`. */
  ghost predicate Reaches(es: seq<Event>, disk: Disk, t: Trace) {
    if es == [] then
      t == Trace(Init(), [])
    else
      var last := |es| - 1;
      exists t0 :: Reaches(es[..last], disk, t0) && Enabled(t0.state, es[last]) && t == Step(t0, es[last], disk)
  }

  /** In every reachable state the free list, the current chunk and the queue together hold each of the
      sixteen chunks once, exactly one write is outstanding iff the queue is non-empty, and the bytes handed to the
      disk, then those queued, then those in the current chunk are the accepted lines in order. */
  lemma {:induction false} RunTheorem(es: seq<Event>, disk: Disk, t: Trace)
    requires Reaches(es, disk, t)
    ensures Accounted(t.state)
    ensures Stream(t.state) == t.accepted
  {
    if es == [] {
      InitAccounted();
      assert Stream(Init()) == [];
    } else {
      var last := |es| - 1;
      var t0 :| Reaches(es[..last], disk, t0) && Enabled(t0.state, es[last]) && t == Step(t0, es[last], disk);
      RunTheorem(es[..last], disk, t0);
      match es[last]
      case OpenDone(ok) => OpenedKeeps(t0.state, ok);
      case LogCall(msg) => LogKeeps(t0.state, msg, disk);
      case FlushCall => FlushKeeps(t0.state, disk);
      case DiskDone => WriteDoneKeeps(t0.state, disk);
    }
  }

  /** The chunk count: no chunk is ever lost or held twice. */
  lemma ChunkCount(s: State)
    requires EachOnce(s)
    ensures |s.free| + |CurrentId(s.current)| + |s.pending| == NUM_CHUNKS
  {
    var held := multiset(s.free) + multiset(CurrentId(s.current)) + multiset(Ids(s.pending));
    forall id ensures held[id] == multiset(InitialFree(NUM_CHUNKS))[id] {
      assert held[id] == Places(s, id);
      CountInPool(NUM_CHUNKS, id);
    }
    assert held == multiset(InitialFree(NUM_CHUNKS));
    assert |held| == |s.free| + |CurrentId(s.current)| + |Ids(s.pending)|;
  }

  lemma InitAccounted()
    ensures Accounted(Init())
  {
    forall id ensures Places(Init(), id) == (if 0 <= id < NUM_CHUNKS then 1 else 0) {
      CountInPool(NUM_CHUNKS, id);
      assert Ids([]) == [];
    }
  }

  lemma {:induction false} CountInPool(n: nat, id: int)
    ensures multiset(InitialFree(n))[id] == (if 0 <= id < n then 1 else 0)
  {
    if n > 0 {
      assert InitialFree(n) == [n - 1] + InitialFree(n - 1);
      CountInPool(n - 1, id);
    }
  }

  lemma LogWithRoom(s: State, msg: string, disk: Disk)
    requires Accounted(s) && s.open && msg != []
    requires s.free != [] || Fits(s.current, Line(msg))
    ensures Log(s, msg, disk).outcome == if |Line(msg)| <= CHUNK_SIZE then Accepted else AssertionFailed
  {
    if s.current.Some? && !Fits(s.current, Line(msg)) && CurrentBytes(s) != [] {
      QueueCurrentKeeps(s, disk);
      LogIntoFreshChunk(QueueCurrent(s, disk), msg, disk);
    }
  }

  lemma LogIntoFreshChunk(s: State, msg: string, disk: Disk)
    requires s.open && msg != [] && s.current.None? && s.free != []
    ensures Log(s, msg, disk).outcome == if |Line(msg)| <= CHUNK_SIZE then Accepted else AssertionFailed
  {
  }

  /** No room is left: no chunk is free and the current one cannot take the line. */
  predicate Full(s: State, line: string) {
    s.free == [] && !Fits(s.current, line)
  }

  /** The drop policy of one call: with every chunk accounted for, a full logger rejects with backpressure
      and changes nothing (the later check for a free chunk never fires); otherwise the line is accepted, or
      is longer than a chunk and fails the assertion of `queue_for_write`. */
  lemma LogOutcome(s: State, msg: string, disk: Disk)
    requires Accounted(s) && s.open && msg != []
    ensures var r := Log(s, msg, disk);
            && (Full(s, Line(msg)) ==> r == LogResult(s, Rejected(Backpressure), 1))
            && (!Full(s, Line(msg)) ==> r.outcome == (if |Line(msg)| <= CHUNK_SIZE then Accepted else AssertionFailed))
            && r.activations <= 2
  {
    ChunkCount(s);
    LogKeeps(s, msg, disk);
    if !Full(s, Line(msg)) {
      LogWithRoom(s, msg, disk);
    }
  }

  /** The drop policy of the logger, in every reachable state with the log open: a message whose line fits a
      chunk is rejected exactly when no chunk is free and the current one has no room for it. */
  lemma DropPolicy(es: seq<Event>, disk: Disk, t: Trace, msg: string)
    requires Reaches(es, disk, t)
    requires t.state.open && msg != [] && |Line(msg)| <= CHUNK_SIZE
    ensures var r := Log(t.state, msg, disk);
            && (r.outcome.Rejected? <==> Full(t.state, Line(msg)))
            && (r.outcome.Rejected? ==> r.state == t.state)
            && r.outcome in {Accepted, Rejected(Backpressure)}
            && r.activations <= 2
  {
    RunTheorem(es, disk, t);
    LogOutcome(t.state, msg, disk);
  }

  /** The assertion in `queue_for_write` fails exactly for a message that no chunk can hold, met while a chunk is free. */
  lemma AssertionPolicy(es: seq<Event>, disk: Disk, t: Trace, msg: string)
    requires Reaches(es, disk, t)
    requires t.state.open && msg != []
    ensures Log(t.state, msg, disk).outcome == AssertionFailed
            <==> |Line(msg)| > CHUNK_SIZE && t.state.free != []
  {
    RunTheorem(es, disk, t);
    LogOutcome(t.state, msg, disk);
  }

  // ----- Draining -----

  /** `logger_destroy` runs the loop until the queue is empty: each completed write shortens it. */
  lemma {:induction false} WriteDoneShortens(s: State, disk: Disk)
    requires Settled(s) && s.outstanding != []
    ensures |WriteDone(s, disk).pending| < |s.pending|
  {
    OnWriteShortens(s.(outstanding := s.outstanding[1..]), disk);
  }

  lemma {:induction false} OnWriteShortens(s: State, disk: Disk)
    requires s.pending != []
    ensures |OnWrite(s, disk).pending| < |s.pending|
    decreases |s.pending|, 0
  {
    if |s.pending| > 1 {
      StartWriteShortens(s.(pending := s.pending[1..], free := [s.pending[0].id] + s.free), disk);
    }
  }

  lemma {:induction false} StartWriteShortens(s: State, disk: Disk)
    requires s.pending != []
    ensures |StartWrite(s, disk).pending| <= |s.pending|
    decreases |s.pending|, 1
  {
    if !disk(|s.writes|) {
      OnWriteShortens(s.(writes := s.writes + [s.pending[0]]), disk);
    }
  }

  ghost function Drain(s: State, disk: Disk): State
    requires Accounted(s)
    decreases |s.pending|
  {
    if s.pending == [] then
      s
    else
      WriteDoneShortens(s, disk);
      WriteDoneKeeps(s, disk);
      Drain(WriteDone(s, disk), disk)
  }

  /** `logger_destroy` */
  ghost function Destroy(s: State, disk: Disk): State
    requires Accounted(s)
  {
    FlushKeeps(s, disk);
    Drain(Flush(s, disk), disk)
  }

  lemma {:induction false} DrainKeeps(s: State, disk: Disk)
    requires Accounted(s)
    ensures var r := Drain(s, disk);
            Accounted(r) && r.pending == [] && Stream(r) == Stream(s) && r.current == s.current
    decreases |s.pending|
  {
    if s.pending != [] {
      WriteDoneShortens(s, disk);
      WriteDoneKeeps(s, disk);
      DrainKeeps(WriteDone(s, disk), disk);
    }
  }

  lemma DestroyWritesAll(s: State, disk: Disk)
    requires Accounted(s)
    ensures Accounted(Destroy(s, disk)) && Bytes(Destroy(s, disk).writes) == Stream(s)
  {
    FlushKeeps(s, disk);
    DrainKeeps(Flush(s, disk), disk);
    var r := Destroy(s, disk);
    assert Queued(r) == r.writes;
  }

  /** Destroying the logger after any run hands to the disk every accepted line, in order, and nothing else. */
  lemma DestroyWritesEverything(es: seq<Event>, disk: Disk, t: Trace)
    requires Reaches(es, disk, t)
    ensures Accounted(t.state) && Bytes(Destroy(t.state, disk).writes) == t.accepted
  {
    RunTheorem(es, disk, t);
    DestroyWritesAll(t.state, disk);
  }
}
