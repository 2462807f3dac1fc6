/**
 * The arena logger as it is written: sixteen chunks in an array, linked through
 * their `next` fields into a free list and a queue, over one contiguous arena.
 * A pointer to a chunk is its index in the array, and NULL is -1.
 *
 * Each method refines the function of the same name in `LoggerSpec`: the abstract
 * state after a call is that function of the abstract state before it.
 */
module ArenaLogger {
  import opened IndexLists
  import opened Prelude
  import Spec = LoggerSpec
  import Theorems = LoggerTheorems

  const CHUNK_SIZE := Spec.CHUNK_SIZE
  const NUM_CHUNKS := Spec.NUM_CHUNKS
  const MAX_PENDING := Spec.MAX_PENDING

  // ----- The two lists together -----

  /** All the elements of both lists are different chunks. */
  ghost predicate Separate(free: seq<int>, pending: seq<int>) {
    forall c :: multiset(free)[c] + multiset(pending)[c] <= 1
  }

  /** Linking `c` behind the tail of the queue. */
  lemma MoveToTail(freeList: int, free: seq<int>, head: int, tail: int, pending: seq<int>, next: seq<int>, c: int)
    requires Linked(freeList, free, next) && Linked(head, pending, next) && Separate(free, pending)
    requires tail == (if pending == [] then NULL else pending[|pending| - 1])
    requires 0 <= c < |next| && c !in free && c !in pending
    ensures Separate(free, pending + [c])
    ensures tail != NULL <==> pending != []
    ensures tail != NULL ==> 0 <= tail < |next|
    ensures var linked := if tail != NULL then next[c := NULL][tail := c] else next[c := NULL];
            Linked(freeList, free, linked) && Linked(if tail != NULL then head else c, pending + [c], linked)
  {
    LinkedElsewhere(freeList, free, next, c, NULL);
    forall x ensures multiset(pending)[x] <= 1 {
      assert multiset(free)[x] + multiset(pending)[x] <= 1;
    }
    PushBack(head, pending, next, c);
    if pending != [] {
      assert tail in pending;
      assert multiset(free)[tail] + multiset(pending)[tail] <= 1;
      LinkedElsewhere(freeList, free, next[c := NULL], tail, c);
    } else {
      assert pending + [c] == [c];
    }
  }

  /** Taking the head off the queue. */
  lemma MoveHead(free: seq<int>, pending: seq<int>)
    requires Separate(free, pending) && pending != []
    ensures Separate(free, pending[1..])
    ensures pending[0] !in free && pending[0] !in pending[1..]
  {
    var head, tail := pending[0], pending[1..];
    assert pending == [head] + tail;
    assert multiset(free)[head] + multiset(pending)[head] <= 1;
  }

  /** Taking the head off the free list. */
  lemma TakeHead(free: seq<int>, pending: seq<int>)
    requires Separate(free, pending) && free != []
    ensures Separate(free[1..], pending)
    ensures free[0] !in free[1..] && free[0] !in pending
  {
    var head, tail := free[0], free[1..];
    assert free == [head] + tail;
    assert multiset(free)[head] + multiset(pending)[head] <= 1;
  }

  /** Giving a chunk back to the free list. */
  lemma GiveBack(free: seq<int>, pending: seq<int>, chunk: int)
    requires Separate(free, pending) && chunk !in free && chunk !in pending
    ensures Separate([chunk] + free, pending)
  {
    forall c ensures multiset([chunk] + free)[c] + multiset(pending)[c] <= 1 {
      assert multiset(free)[c] + multiset(pending)[c] <= 1;
    }
  }

  // ----- Contents of chunks -----

  ghost function Contents(c: int, used: seq<int>, arena: seq<char>): Spec.Chunk
    requires 0 <= c < |used| == NUM_CHUNKS && |arena| == NUM_CHUNKS * CHUNK_SIZE && 0 <= used[c] <= CHUNK_SIZE
  {
    Spec.Chunk(c, arena[c * CHUNK_SIZE..c * CHUNK_SIZE + used[c]])
  }

  ghost predicate Sized(used: seq<int>, arena: seq<char>) {
    && |used| == NUM_CHUNKS && |arena| == NUM_CHUNKS * CHUNK_SIZE
    && forall c :: 0 <= c < |used| ==> 0 <= used[c] <= CHUNK_SIZE
  }

  ghost predicate Holds(list: seq<int>, used: seq<int>, arena: seq<char>, chunks: seq<Spec.Chunk>)
    requires Sized(used, arena)
  {
    if list == [] then
      chunks == []
    else
      && 0 <= list[0] < NUM_CHUNKS
      && chunks != [] && chunks[0] == Contents(list[0], used, arena)
      && Holds(list[1..], used, arena, chunks[1..])
  }

  /** Writing inside the region of one chunk does not change what a list without it holds. */
  lemma {:induction false} HoldsOutsideRegion(list: seq<int>, used: seq<int>, arena: seq<char>, arena': seq<char>,
                                              chunks: seq<Spec.Chunk>, c: int)
    requires Sized(used, arena) && Sized(used, arena') && Holds(list, used, arena, chunks) && c !in list
    requires forall i :: 0 <= i < |arena| && !(c * CHUNK_SIZE <= i < (c + 1) * CHUNK_SIZE) ==> arena'[i] == arena[i]
    ensures Holds(list, used, arena', chunks)
  {
    if list != [] {
      assert Contents(list[0], used, arena') == Contents(list[0], used, arena);
      HoldsOutsideRegion(list[1..], used, arena, arena', chunks[1..], c);
    }
  }

  /** What a list holds does not depend on the size of a chunk outside it. */
  lemma {:induction false} HoldsOtherSize(list: seq<int>, used: seq<int>, arena: seq<char>, chunks: seq<Spec.Chunk>, c: int, n: int)
    requires Sized(used, arena) && Holds(list, used, arena, chunks) && 0 <= c < NUM_CHUNKS && c !in list
    requires 0 <= n <= CHUNK_SIZE
    ensures Sized(used[c := n], arena) && Holds(list, used[c := n], arena, chunks)
  {
    if list != [] {
      HoldsOtherSize(list[1..], used, arena, chunks[1..], c, n);
    }
  }

  lemma {:induction false} HoldsAppend(list: seq<int>, used: seq<int>, arena: seq<char>, chunks: seq<Spec.Chunk>, c: int)
    requires Sized(used, arena) && Holds(list, used, arena, chunks) && 0 <= c < NUM_CHUNKS
    ensures Holds(list + [c], used, arena, chunks + [Contents(c, used, arena)])
  {
    if list == [] {
      assert list + [c] == [c] && chunks + [Contents(c, used, arena)] == [Contents(c, used, arena)];
    } else {
      HoldsAppend(list[1..], used, arena, chunks[1..], c);
      assert (list + [c])[1..] == list[1..] + [c];
      assert (chunks + [Contents(c, used, arena)])[1..] == chunks[1..] + [Contents(c, used, arena)];
    }
  }

  lemma HeadHeld(list: seq<int>, used: seq<int>, arena: seq<char>, chunks: seq<Spec.Chunk>)
    requires Sized(used, arena) && Holds(list, used, arena, chunks) && list != []
    ensures 0 <= list[0] < NUM_CHUNKS && chunks != [] && chunks[0] == Contents(list[0], used, arena)
  {
  }

  lemma {:induction false} HoldsLength(list: seq<int>, used: seq<int>, arena: seq<char>, chunks: seq<Spec.Chunk>)
    requires Sized(used, arena) && Holds(list, used, arena, chunks)
    ensures |list| == |chunks|
  {
    if list != [] {
      HoldsLength(list[1..], used, arena, chunks[1..]);
    }
  }

  ghost predicate Written(arena: seq<char>, base: int, line: string, arena': seq<char>) {
    && |arena'| == |arena|
    && forall k :: 0 <= k < |arena| ==> arena'[k] == (if base <= k < base + |line| then line[k - base] else arena[k])
  }

  /** Writing a line behind the contents of a chunk extends that chunk and no other. */
  lemma AppendLemma(list: seq<int>, used: seq<int>, arena: seq<char>, arena': seq<char>, chunks: seq<Spec.Chunk>,
                    c: int, line: string)
    requires Sized(used, arena) && Holds(list, used, arena, chunks) && 0 <= c < NUM_CHUNKS && c !in list
    requires used[c] + |line| <= CHUNK_SIZE
    requires Written(arena, c * CHUNK_SIZE + used[c], line, arena')
    ensures var longer := used[c := used[c] + |line|];
            && Sized(longer, arena') && Holds(list, longer, arena', chunks)
            && Contents(c, longer, arena') == Spec.Chunk(c, Contents(c, used, arena).bytes + line)
  {
    HoldsOutsideRegion(list, used, arena, arena', chunks, c);
    HoldsOtherSize(list, used, arena', chunks, c, used[c] + |line|);
  }

  class Logger {
    const disk: Spec.Disk
    const arena: array<char>
    var used: seq<int>  // the `used` field of each chunk
    var next: seq<int>  // the `next` field of each chunk

    var open: bool  // fd >= 0
    var freeList: int
    var current: int
    var pendingHead: int
    var pendingTail: int
    var pendingCount: int

    // The queue behind the pointers, and the abstract state they stand for.
    ghost var pending: seq<int>
    ghost var view: Spec.State

    // The environment: what has been handed to uv_fs_write, and which of it is not yet completed.
    var writes: seq<Spec.Chunk>
    var outstanding: seq<Spec.Chunk>

    /** The free list and the queue are acyclic and disjoint, and head, tail and count agree. */
    ghost predicate Lists()
      reads this
    {
      && |next| == NUM_CHUNKS && |used| == NUM_CHUNKS && arena.Length == NUM_CHUNKS * CHUNK_SIZE
      && Separate(view.free, pending)
      && Linked(freeList, view.free, next)
      && Linked(pendingHead, pending, next)
      && pendingTail == (if pending == [] then NULL else pending[|pending| - 1])
      && pendingCount == |pending|
    }

    /** The abstract state is what the lists hold, apart from the current chunk. */
    ghost predicate Abstracts()
      requires Lists()
      reads this, arena
    {
      && view.open == open
      && Sized(used, arena[..])
      && Holds(pending, used, arena[..], view.pending)
      && view.outstanding == outstanding
      && view.writes == writes
    }

    ghost predicate Valid()
      reads this, arena
    {
      && Lists() && Abstracts()
      && Apart(current)
      && view.current == (if current == NULL then None else Some(Contents(current, used, arena[..])))
    }

    /** `kept` is a chunk outside both lists (or NULL). */
    ghost predicate Apart(kept: int)
      reads this
    {
      kept == NULL || (0 <= kept < NUM_CHUNKS && kept !in view.free && kept !in pending)
    }

    /** `start_async_write`; a chunk outside the lists is left alone. */
    method StartAsyncWrite(ghost kept: int)
      requires Lists() && Abstracts() && pending != [] && Apart(kept)
      modifies this`freeList, this`pendingHead, this`pendingTail, this`pendingCount, this`pending,
               this`writes, this`outstanding, this`view, this`used, this`next
      ensures Lists() && Abstracts()
      ensures view == Spec.StartWrite(old(view), disk)
      ensures Apart(kept) && (kept != NULL ==> used[kept] == old(used)[kept])
      decreases |pending|, 1
    {
      hide Separate, Holds;
      var chunk := pendingHead;
      var accepted := disk(|writes|);
      HeadHeld(pending, used, arena[..], view.pending);
      writes := writes + [Spec.Chunk(chunk, arena[chunk * CHUNK_SIZE..chunk * CHUNK_SIZE + used[chunk]])];
      view := view.(writes := writes);
      if accepted {
        outstanding := outstanding + [writes[|writes| - 1]];
        view := view.(outstanding := outstanding);
      } else {
        OnWrite(chunk, kept);
      }
    }

    /** The first part of `on_write`: take the chunk off the queue. */
    method Dequeue(chunk: int, ghost kept: int)
      requires Lists() && Abstracts() && pending != [] && chunk == pending[0] && Apart(kept)
      modifies this`pendingHead, this`pendingTail, this`pendingCount, this`pending, this`view
      ensures Lists() && Abstracts()
      ensures Apart(chunk) && Apart(kept) && chunk != kept && 0 <= chunk < NUM_CHUNKS
      ensures pending == old(pending)[1..]
      ensures view == old(view).(pending := old(view).pending[1..]) && old(view).pending[0].id == chunk
    {
      hide Separate;
      MoveHead(view.free, pending);
      assert Linked(next[chunk], pending[1..], next) && (pending[1..] == [] <==> next[chunk] == NULL);
      pendingHead := next[chunk];
      if pendingHead == NULL {
        pendingTail := NULL;
      }
      pendingCount := pendingCount - 1;

      pending := pending[1..];
      view := view.(pending := view.pending[1..]);
    }

    /** The second part of `on_write`: push the chunk on the free list. */
    method Recycle(chunk: int, ghost kept: int)
      requires Lists() && Abstracts() && Apart(chunk) && Apart(kept) && chunk != kept && 0 <= chunk < NUM_CHUNKS
      modifies this`freeList, this`view, this`used, this`next
      ensures Lists() && Abstracts() && Apart(kept)
      ensures used == old(used)[chunk := 0]
      ensures view == old(view).(free := [chunk] + old(view).free)
    {
      hide Separate, Holds, Linked;
      GiveBack(view.free, pending, chunk);
      LinkedElsewhere(pendingHead, pending, next, chunk, freeList);
      PushFront(freeList, view.free, next, chunk);
      HoldsOtherSize(pending, used, arena[..], view.pending, chunk, 0);

      used := used[chunk := 0];
      next := next[chunk := freeList];
      freeList := chunk;

      view := view.(free := [chunk] + view.free);
    }

    /** `on_write` */
    method OnWrite(chunk: int, ghost kept: int)
      requires Lists() && Abstracts() && pending != [] && chunk == pending[0] && Apart(kept)
      modifies this`freeList, this`pendingHead, this`pendingTail, this`pendingCount, this`pending,
               this`writes, this`outstanding, this`view, this`used, this`next
      ensures Lists() && Abstracts()
      ensures view == Spec.OnWrite(old(view), disk)
      ensures Apart(kept) && (kept != NULL ==> used[kept] == old(used)[kept])
      decreases |pending|, 0
    {
      Dequeue(chunk, kept);
      Recycle(chunk, kept);
      if pendingCount > 0 {
        StartAsyncWrite(kept);
      }
    }

    /** The first part of `queue_for_write`: link the chunk behind the tail. */
    method Enqueue(chunk: int)
      requires Lists() && Apart(chunk) && 0 <= chunk < NUM_CHUNKS
      modifies this`pendingHead, this`pendingTail, this`pendingCount, this`pending, this`next
      ensures Lists()
      ensures pending == old(pending) + [chunk]
    {
      hide Separate;
      MoveToTail(freeList, view.free, pendingHead, pendingTail, pending, next, chunk);

      next := next[chunk := NULL];
      if pendingTail != NULL {
        next := next[pendingTail := chunk];
      } else {
        pendingHead := chunk;
      }
      pendingTail := chunk;
      pendingCount := pendingCount + 1;

      pending := pending + [chunk];
    }

    /** `queue_for_write`, for a chunk that passes its assertion */
    method QueueForWrite(chunk: int)
      requires Lists() && Abstracts() && Apart(chunk) && 0 <= chunk < NUM_CHUNKS && used[chunk] > 0
      requires view.current == Some(Contents(chunk, used, arena[..]))
      modifies this`freeList, this`pendingHead, this`pendingTail, this`pendingCount, this`pending,
               this`writes, this`outstanding, this`view, this`used, this`next
      ensures Lists() && Abstracts()
      ensures view == Spec.QueueCurrent(old(view), disk)
    {
      HoldsAppend(pending, used, arena[..], view.pending, chunk);
      Enqueue(chunk);
      view := view.(pending := view.pending + [view.current.value], current := None);
      HoldsLength(pending, used, arena[..], view.pending);
      if pendingCount == 1 {
        StartAsyncWrite(NULL);
      }
    }

    /** The two statements with which `logger_log` and `logger_flush` give up the current chunk. */
    method QueueCurrent()
      requires Valid() && current != NULL && used[current] > 0
      modifies this
      ensures Valid() && current == NULL
      ensures view == Spec.QueueCurrent(old(view), disk)
    {
      QueueForWrite(current);
      current := NULL;
    }

    /** The part of `logger_log` that takes a chunk from the free list. */
    method TakeFree()
      requires Valid() && current == NULL && freeList != NULL
      modifies this`current, this`freeList, this`used, this`view
      ensures Valid() && current != NULL
      ensures view == Spec.TakeFree(old(view))
    {
      hide Separate, Holds;
      var chunk := freeList;
      TakeHead(view.free, pending);
      HoldsOtherSize(pending, used, arena[..], view.pending, chunk, 0);
      current := freeList;
      freeList := next[freeList];
      used := used[current := 0];
      view := Spec.TakeFree(view);
      assert Contents(chunk, used, arena[..]).bytes == [];
    }

    /** The copying part of `logger_log`: the message and, if it has none, a newline. */
    method CopyLine(base: int, msg: string) returns (end: int)
      requires msg != [] && 0 <= base && base + |Spec.Line(msg)| <= arena.Length
      modifies arena
      ensures end == base + |Spec.Line(msg)|
      ensures Written(old(arena[..]), base, Spec.Line(msg), arena[..])
    {
      for i := 0 to |msg|
        invariant forall k :: 0 <= k < arena.Length ==>
          arena[k] == (if base <= k < base + i then msg[k - base] else old(arena[k]))
      {
        arena[base + i] := msg[i];
      }
      end := base + |msg|;
      if msg[|msg| - 1] != '\n' {
        arena[end] := '\n';
        end := end + 1;
      }
    }

    /** The part of `logger_log` that appends the message to the current chunk. */
    method Append(msg: string)
      requires Valid() && current != NULL && msg != []
      requires used[current] + |Spec.Line(msg)| <= CHUNK_SIZE
      modifies this`used, this`view, arena
      ensures Valid() && current == old(current)
      ensures var c := old(view).current.value;
              view == old(view).(current := Some(c.(bytes := c.bytes + Spec.Line(msg))))
    {
      hide Separate, Holds, Linked, Written, Spec.Line;
      ghost var before, line, c := arena[..], Spec.Line(msg), view.current.value;
      var base := current * CHUNK_SIZE + used[current];
      var end := CopyLine(base, msg);
      ghost var after := arena[..];
      AppendLemma(pending, used, before, after, view.pending, current, line);
      used := used[current := end - current * CHUNK_SIZE];
      view := view.(current := Some(c.(bytes := c.bytes + line)));
    }

    /** What holds between calls: the lists and the abstract state agree, every chunk is held once, and the
        disk works on exactly the head of the queue. */
    ghost predicate Ready()
      reads this, arena
    {
      Valid() && Theorems.Accounted(view)
    }

    /** `logger_create`: the loop pushes chunk after chunk on the free list. */
    constructor (disk: Spec.Disk)
      ensures Ready() && view == Spec.Init() && this.disk == disk
      ensures fresh(arena)
    {
      this.disk := disk;
      arena := new char[NUM_CHUNKS * CHUNK_SIZE];
      used := seq(NUM_CHUNKS, _ => 0);
      open := false;
      current, pendingHead, pendingTail, pendingCount := NULL, NULL, NULL, 0;
      pending, writes, outstanding := [], [], [];
      view := Spec.Init();

      var list, links := NULL, seq(NUM_CHUNKS, _ => NULL);
      for i := 0 to NUM_CHUNKS
        invariant |links| == NUM_CHUNKS
        invariant Linked(list, Spec.InitialFree(i), links)
      {
        assert Spec.InitialFree(i + 1) == [i] + Spec.InitialFree(i);
        PushFront(list, Spec.InitialFree(i), links, i);
        links := links[i := list];
        list := i;
      }
      freeList, next := list, links;
      Theorems.InitAccounted();
      forall c ensures multiset(Spec.InitialFree(NUM_CHUNKS))[c] <= 1 {
        Theorems.CountInPool(NUM_CHUNKS, c);
      }
    }

    /** `on_open` */
    method OnOpen(ok: bool)
      requires Ready()
      modifies this`open, this`view
      ensures Ready() && view == Spec.Opened(old(view), ok)
    {
      Theorems.OpenedKeeps(view, ok);
      open := ok;
      view := view.(open := ok);
    }

    lemma LogPolicy(msg: string)
      requires Ready()
      ensures open && msg != [] && |Spec.Line(msg)| <= CHUNK_SIZE ==>
                Spec.Log(view, msg, disk).outcome
                == if Theorems.Full(view, Spec.Line(msg)) then Spec.Rejected(Spec.Backpressure) else Spec.Accepted
    {
      if open && msg != [] {
        Theorems.LogOutcome(view, msg, disk);
      }
    }

    /** `logger_log`, on a non-null logger and message */
    method Log(msg: string) returns (outcome: Spec.Outcome)
      requires Ready()
      modifies this, arena
      ensures Ready()
      ensures var r := Spec.Log(old(view), msg, disk);
              view == r.state && outcome == r.outcome
      ensures old(open) && msg != [] && |Spec.Line(msg)| <= CHUNK_SIZE ==>
                outcome == if Theorems.Full(old(view), Spec.Line(msg)) then Spec.Rejected(Spec.Backpressure) else Spec.Accepted
      decreases Spec.Retries(view), 1
    {
      Theorems.LogKeeps(view, msg, disk);
      LogPolicy(msg);
      if !open || msg == [] {
        return Spec.Rejected(Spec.Closed);
      }
      var toAppend := |msg| + (if msg[|msg| - 1] != '\n' then 1 else 0);
      HoldsLength(pending, used, arena[..], view.pending);
      if pendingCount >= MAX_PENDING && freeList == NULL && (current == NULL || used[current] + toAppend > CHUNK_SIZE) {
        return Spec.Rejected(Spec.Backpressure);
      }
      if current == NULL {
        if freeList != NULL {
          Theorems.TakeFreeKeeps(view);
          TakeFree();
        } else {
          return Spec.Rejected(Spec.NoChunk);
        }
      }
      outcome := LogInto(msg, toAppend);
    }

    /** The rest of `logger_log`, once there is a current chunk */
    method LogInto(msg: string, toAppend: int) returns (outcome: Spec.Outcome)
      requires Ready() && current != NULL && msg != [] && toAppend == |Spec.Line(msg)|
      modifies this, arena
      ensures Ready()
      ensures var r := Spec.LogInto(old(view), msg, disk);
              view == r.state && outcome == r.outcome
      decreases Spec.Retries(view), 0
    {
      Theorems.LogIntoKeeps(view, msg, disk);
      if used[current] + toAppend > CHUNK_SIZE {
        if used[current] == 0 {
          return Spec.AssertionFailed;
        }
        Theorems.QueueCurrentKeeps(view, disk);
        QueueCurrent();
        outcome := Log(msg);
      } else {
        Append(msg);
        outcome := Spec.Accepted;
      }
    }

    /** `logger_flush` */
    method Flush()
      requires Ready()
      modifies this
      ensures Ready() && view == Spec.Flush(old(view), disk)
    {
      Theorems.FlushKeeps(view, disk);
      if current == NULL || used[current] == 0 {
        return;
      }
      QueueCurrent();
    }

    /** The loop takes the oldest outstanding write as completed and calls `on_write` with its request. */
    method CallBack()
      requires Valid() && outstanding != [] && pending != [] && outstanding[0].id == pending[0]
      modifies this
      ensures Valid() && view == Spec.WriteDone(old(view), disk)
    {
      hide Separate, Holds, Linked, Spec.OnWrite;
      var done := outstanding[0];
      outstanding := outstanding[1..];
      view := view.(outstanding := outstanding);
      OnWrite(done.id, current);
    }

    /** One turn of the loop, between calls: a write is outstanding, and its chunk is the head of the queue. */
    method CompleteWrite()
      requires Ready() && outstanding != []
      modifies this
      ensures Ready() && view == Spec.WriteDone(old(view), disk)
    {
      Theorems.WriteDoneKeeps(view, disk);
      CallBack();
    }

    /** `logger_destroy`, up to the release of its memory */
    method Destroy()
      requires Ready()
      modifies this
      ensures Ready() && view == Theorems.Destroy(old(view), disk)
      ensures Theorems.Bytes(writes) == Theorems.Stream(old(view))
    {
      Theorems.DestroyWritesAll(view, disk);
      Flush();
      ghost var flushed := view;
      while pendingCount > 0
        invariant Ready()
        invariant Theorems.Drain(view, disk) == Theorems.Drain(flushed, disk)
        decreases pendingCount
      {
        HoldsLength(pending, used, arena[..], view.pending);
        Theorems.WriteDoneShortens(view, disk);
        CompleteWrite();
        HoldsLength(pending, used, arena[..], view.pending);
      }
      HoldsLength(pending, used, arena[..], view.pending);
    }
  }
}
