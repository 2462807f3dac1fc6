/**
 * What the arena logger does, as a state machine over values.
 *
 * Every function below takes the branches of the C function it is named after.
 * `disk` is the environment: `disk(n)` says whether the n-th call of
 * `uv_fs_write` is accepted (and completes later) or fails at once.
 * The class `Logger` refines these functions; the theorems about runs are in
 * module `LoggerTheorems`.
 */
module LoggerSpec {
  import opened Prelude

  const CHUNK_SIZE: nat := 262144
  const NUM_CHUNKS: nat := 16
  const MAX_PENDING: nat := 4

  type Disk = nat -> bool

  /** A chunk taken from the pool: which one, and what has been written to it. */
  datatype Chunk = Chunk(id: int, bytes: string)

  datatype State = State(
    open: bool,
    free: seq<int>,           // ids of the free list, head first
    current: Option<Chunk>,
    pending: seq<Chunk>,      // the queue, head first
    outstanding: seq<Chunk>,  // writes the disk has accepted and not completed
    writes: seq<Chunk>        // every chunk handed to uv_fs_write so far
  )

  datatype Reason = Closed | Backpressure | NoChunk

  datatype Outcome = Accepted | Rejected(reason: Reason) | AssertionFailed

  datatype LogResult = LogResult(state: State, outcome: Outcome, activations: nat)

  /** The ids in the order in which `logger_create` pushes them: the last one ends up first. */
  function InitialFree(n: nat): seq<int> {
    seq(n, i requires 0 <= i < n => n - 1 - i)
  }

  function Init(): State {
    State(false, InitialFree(NUM_CHUNKS), None, [], [], [])
  }

  /** `on_open` */
  function Opened(s: State, ok: bool): State {
    s.(open := ok)
  }

  /** `start_async_write` */
  function StartWrite(s: State, disk: Disk): (r: State)
    requires s.pending != []
    ensures r.current == s.current && r.open == s.open
    decreases |s.pending|, 1
  {
    var head := s.pending[0];
    var submitted := s.(writes := s.writes + [head]);
    if disk(|s.writes|) then
      submitted.(outstanding := s.outstanding + [head])
    else
      OnWrite(submitted, disk)
  }

  /** `on_write`, for the chunk at the head of the queue */
  function OnWrite(s: State, disk: Disk): (r: State)
    requires s.pending != []
    ensures r.current == s.current && r.open == s.open
    decreases |s.pending|, 0
  {
    var recycled := s.(pending := s.pending[1..], free := [s.pending[0].id] + s.free);
    if recycled.pending != [] then StartWrite(recycled, disk) else recycled
  }

  /** `queue_for_write` of the current chunk, and the reset of `current` that follows every call */
  function QueueCurrent(s: State, disk: Disk): (r: State)
    requires s.current.Some?
    ensures r.current.None? && r.open == s.open
  {
    var queued := s.(pending := s.pending + [s.current.value], current := None);
    if |queued.pending| == 1 then StartWrite(queued, disk) else queued
  }

  /** The bytes one message contributes: the message, ended by exactly one added newline if it had none. */
  function Line(msg: string): string
    requires msg != []
  {
    if msg[|msg| - 1] == '\n' then msg else msg + ['\n']
  }

  predicate Fits(current: Option<Chunk>, line: string) {
    current.Some? && |current.value.bytes| + |line| <= CHUNK_SIZE
  }

  function TakeFree(s: State): State
    requires s.free != []
  {
    s.(current := Some(Chunk(s.free[0], [])), free := s.free[1..])
  }

  /** 1 if the current chunk holds bytes, so that it can still be queued to make room. */
  function Retries(s: State): nat {
    if s.current.Some? && s.current.value.bytes != [] then 1 else 0
  }

  /** `logger_log` */
  function Log(s: State, msg: string, disk: Disk): LogResult
    decreases Retries(s), 1
  {
    if !s.open || msg == [] then
      LogResult(s, Rejected(Closed), 1)
    else if |s.pending| >= MAX_PENDING && s.free == [] && !Fits(s.current, Line(msg)) then
      LogResult(s, Rejected(Backpressure), 1)
    else if s.current.None? && s.free == [] then
      LogResult(s, Rejected(NoChunk), 1)
    else
      LogInto(if s.current.None? then TakeFree(s) else s, msg, disk)
  }

  /** The rest of `logger_log`, once there is a current chunk; the assertion is that of `queue_for_write`. */
  function LogInto(s: State, msg: string, disk: Disk): LogResult
    requires s.current.Some? && msg != []
    decreases Retries(s), 0
  {
    var chunk := s.current.value;
    if Fits(s.current, Line(msg)) then
      LogResult(s.(current := Some(chunk.(bytes := chunk.bytes + Line(msg)))), Accepted, 1)
    else if chunk.bytes == [] then
      LogResult(s, AssertionFailed, 1)
    else
      var r := Log(QueueCurrent(s, disk), msg, disk);
      r.(activations := r.activations + 1)
  }

  /** `logger_flush` */
  function Flush(s: State, disk: Disk): State {
    if s.current.None? || s.current.value.bytes == [] then s else QueueCurrent(s, disk)
  }

  /** The disk completes its oldest outstanding write and calls back. */
  function WriteDone(s: State, disk: Disk): State
    requires s.outstanding != [] && s.pending != []
  {
    OnWrite(s.(outstanding := s.outstanding[1..]), disk)
  }
}
