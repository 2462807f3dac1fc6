/**
 * The handshake between a caller that submits requests and the callback that delivers
 * their replies: one context, a mutex and a condition variable, used round after round.
 * Every interleaving of the two threads is a run of the steps below. The client library
 * is taken to call back once for each request that it accepts, with a reply that fits.
 */
module Handshake {
  import opened Prelude
  import opened ByteNumbers

  const MAX_MESSAGE_SIZE: nat := 1024 * 1024 - 256

  /** Where the caller is. Outside a round it knows whether its last request was sent and answered. */
  datatype Caller =
    | Outside(ok: bool)
    | WantsLock
    | Clearing
    | Submitting
    | Testing
    | Asleep
    | Woken
    | Leaving(status: bool)

  /** Where the callback of the current round is. */
  datatype Callback =
    | NoCallback
    | InFlight
    | WantsToEnter(data: seq<byte>)
    | Copying(data: seq<byte>, count: nat)
    | Completing(data: seq<byte>)
    | Signalling(data: seq<byte>)
    | Exiting(data: seq<byte>)

  datatype Owner = Nobody | TheCaller | TheCallback

  /** The threads, the shared context and, for reference, the answer given in each round. */
  datatype State = State(
    caller: Caller, callback: Callback, owner: Owner,
    completed: bool, reply: seq<byte>, size: nat,
    round: nat, answers: map<nat, seq<byte>>)

  datatype Step =
    | StartRound | LockCaller | Clear | Submit(accepted: bool) | Test | Relock | Leave
    | Deliver(data: seq<byte>) | LockCallback | CopyByte | SetSize | Complete | Signal | Exit
    | SpuriousWakeup

  /** The state after a step, if it can be taken. */
  function Next(s: State, step: Step): Option<State> {
    match step
    case StartRound =>
      if s.caller.Outside? then Some(s.(caller := WantsLock, round := s.round + 1)) else None
    case LockCaller =>
      if s.caller.WantsLock? && s.owner.Nobody? then Some(s.(caller := Clearing, owner := TheCaller)) else None
    case Clear =>
      if s.caller.Clearing? then Some(s.(caller := Submitting, completed := false)) else None
    case Submit(accepted) =>
      if !s.caller.Submitting? then None
      else if accepted then Some(s.(caller := Testing, callback := InFlight))
      else Some(s.(caller := Leaving(false)))
    case Test =>
      if !s.caller.Testing? then None
      else if s.completed then Some(s.(caller := Leaving(true)))
      else Some(s.(caller := Asleep, owner := Nobody))
    case Relock =>
      if s.caller.Woken? && s.owner.Nobody? then Some(s.(caller := Testing, owner := TheCaller)) else None
    case Leave =>
      if s.caller.Leaving? then Some(s.(caller := Outside(s.caller.status), owner := Nobody)) else None
    case Deliver(data) =>
      if s.callback.InFlight? && |data| <= MAX_MESSAGE_SIZE then
        Some(s.(callback := WantsToEnter(data), answers := s.answers[s.round := data]))
      else None
    case LockCallback =>
      if s.callback.WantsToEnter? && s.owner.Nobody? then
        Some(s.(callback := Copying(s.callback.data, 0), owner := TheCallback))
      else None
    case CopyByte =>
      if s.callback.Copying? && s.callback.count < |s.callback.data| && s.callback.count < |s.reply| then
        var k := s.callback.count;
        Some(s.(callback := Copying(s.callback.data, k + 1), reply := s.reply[k := s.callback.data[k]]))
      else None
    case SetSize =>
      if s.callback.Copying? && s.callback.count == |s.callback.data| then
        Some(s.(callback := Completing(s.callback.data), size := |s.callback.data|))
      else None
    case Complete =>
      if s.callback.Completing? then Some(s.(callback := Signalling(s.callback.data), completed := true)) else None
    case Signal =>
      if s.callback.Signalling? then
        Some(s.(callback := Exiting(s.callback.data), caller := if s.caller.Asleep? then Woken else s.caller))
      else None
    case Exit =>
      if s.callback.Exiting? then Some(s.(callback := NoCallback, owner := Nobody)) else None
    case SpuriousWakeup =>
      if s.caller.Asleep? then Some(s.(caller := Woken)) else None
  }

  function Run(s: State, steps: seq<Step>): Option<State> {
    if steps == [] then Some(s) else
    match Run(s, steps[..|steps| - 1])
    case None => None
    case Some(t) => Next(t, steps[|steps| - 1])
  }

  /** A fresh context. */
  predicate Initial(s: State) {
    && s.caller == Outside(false) && s.callback == NoCallback && s.owner == Nobody
    && |s.reply| == MAX_MESSAGE_SIZE && s.round == 0 && s.answers == map[]
  }

  // ----- What every step keeps -----

  predicate CallerHolds(c: Caller) {
    c.Clearing? || c.Submitting? || c.Testing? || c.Leaving?
  }

  predicate CallbackHolds(c: Callback) {
    c.Copying? || c.Completing? || c.Signalling? || c.Exiting?
  }

  /** The caller's part of a round in which the callback may be at work. */
  predicate Waiting(c: Caller) {
    c.Testing? || c.Asleep? || c.Woken?
  }

  /** The mutex is held by whoever is in a critical section. */
  predicate Exclusive(s: State) {
    && (s.owner == TheCaller <==> CallerHolds(s.caller))
    && (s.owner == TheCallback <==> CallbackHolds(s.callback))
  }

  /** The context holds the answer of the current round. */
  predicate Answered(s: State) {
    && s.round in s.answers
    && s.size == |s.answers[s.round]| && s.size <= |s.reply| && s.reply[..s.size] == s.answers[s.round]
  }

  /** What the callback has done so far. */
  predicate Delivering(s: State) {
    && |s.reply| == MAX_MESSAGE_SIZE
    && match s.callback
       case NoCallback => true
       case InFlight => true
       case WantsToEnter(data) => |data| <= |s.reply| && s.round in s.answers && s.answers[s.round] == data
       case Copying(data, k) =>
         && k <= |data| <= |s.reply| && s.round in s.answers && s.answers[s.round] == data
         && s.reply[..k] == data[..k]
       case Completing(data) => Answered(s) && s.answers[s.round] == data
       case Signalling(data) => Answered(s)
       case Exiting(data) => Answered(s)
  }

  predicate Finished(c: Callback) {
    c.Signalling? || c.Exiting? || c.NoCallback?
  }

  /** How the two threads are placed towards each other. */
  predicate Matched(s: State) {
    && (s.caller.Submitting? ==> !s.completed)
    && (s.callback != NoCallback ==> Waiting(s.caller))
    && (Waiting(s.caller) ==> (s.completed <==> Finished(s.callback)))
    && (Waiting(s.caller) && s.callback == NoCallback ==> Answered(s))
    && (s.caller.Asleep? ==> s.callback != NoCallback && !s.callback.Exiting?)
    && (s.caller == Leaving(true) || s.caller == Outside(true) ==> Answered(s))
  }

  predicate Inv(s: State) {
    Exclusive(s) && Delivering(s) && Matched(s)
  }

  lemma StepKeepsExclusive(s: State, step: Step)
    requires Inv(s) && Next(s, step).Some?
    ensures Exclusive(Next(s, step).value)
  {
    hide Delivering, Answered;
  }

  lemma StepKeepsDelivering(s: State, step: Step)
    requires Inv(s) && Next(s, step).Some?
    ensures Delivering(Next(s, step).value)
  {
    var t := Next(s, step).value;
    match step
    case CopyByte =>
      var data, k := s.callback.data, s.callback.count;
      assert t.reply[..k + 1] == s.reply[..k] + [data[k]] == data[..k + 1];
    case SetSize =>
      var data := s.callback.data;
      assert data[..|data|] == data;
    case StartRound =>
      assert s.callback == NoCallback;
    case _ =>
  }

  lemma StepKeepsMatched(s: State, step: Step)
    requires Inv(s) && Next(s, step).Some?
    ensures Matched(Next(s, step).value)
  {
  }

  lemma InitialInv(s: State)
    requires Initial(s)
    ensures Inv(s)
  {
  }

  /** Every run of any length keeps the invariant. */
  lemma {:induction false} RunKeepsInv(s: State, steps: seq<Step>)
    requires Inv(s) && Run(s, steps).Some?
    ensures Inv(Run(s, steps).value)
  {
    hide Inv, Next;
    if steps != [] {
      var n := |steps| - 1;
      RunKeepsInv(s, steps[..n]);
      var t := Run(s, steps[..n]).value;
      StepKeepsInv(t, steps[n]);
    }
  }

  lemma StepKeepsInv(s: State, step: Step)
    requires Inv(s) && Next(s, step).Some?
    ensures Inv(Next(s, step).value)
  {
    StepKeepsExclusive(s, step);
    StepKeepsDelivering(s, step);
    StepKeepsMatched(s, step);
    hide Next, Exclusive, Delivering, Matched;
  }

  // ----- Safety of whole runs -----

  /** A request that returns success has in the context the answer of its own round, and no thread will touch it before
      the next round. */
  lemma SuccessMeansOwnAnswer(s: State, steps: seq<Step>)
    requires Initial(s) && Run(s, steps).Some? && Run(s, steps).value.caller == Outside(true)
    ensures var t := Run(s, steps).value;
            && Answered(t) && t.callback == NoCallback && t.owner == Nobody
            && forall step :: Next(t, step).Some? ==> step == StartRound
  {
    hide Run, Delivering, Answered;
    InitialInv(s);
    RunKeepsInv(s, steps);
  }

  /** While the caller sleeps, the callback of its round has not yet signalled: no wakeup is lost. */
  lemma NoLostWakeup(s: State, steps: seq<Step>)
    requires Initial(s) && Run(s, steps).Some? && Run(s, steps).value.caller == Asleep
    ensures var c := Run(s, steps).value.callback;
            c.InFlight? || c.WantsToEnter? || c.Copying? || c.Completing? || c.Signalling?
  {
    hide Run, Delivering, Answered, Next;
    InitialInv(s);
    RunKeepsInv(s, steps);
  }

  /** The threads are never in their critical sections together. */
  lemma MutualExclusion(s: State, steps: seq<Step>)
    requires Initial(s) && Run(s, steps).Some?
    ensures !(CallerHolds(Run(s, steps).value.caller) && CallbackHolds(Run(s, steps).value.callback))
  {
    hide Run, Delivering, Answered, Next;
    InitialInv(s);
    RunKeepsInv(s, steps);
  }

  /** Answers belong to rounds already begun, and a round not yet delivered has none. */
  predicate Numbered(s: State) {
    && (forall r <- s.answers :: r <= s.round)
    && (s.caller.WantsLock? || s.caller.Clearing? || s.caller.Submitting? || s.callback.InFlight? ==> s.round !in s.answers)
  }

  lemma {:induction false} RunKeepsNumbered(s: State, steps: seq<Step>)
    requires Inv(s) && Numbered(s) && Run(s, steps).Some?
    ensures Numbered(Run(s, steps).value)
  {
    hide Delivering, Answered;
    if steps != [] {
      var n := |steps| - 1;
      RunKeepsNumbered(s, steps[..n]);
      RunKeepsInv(s, steps[..n]);
    }
  }

  /** A round is answered once: what it was answered with is never replaced. */
  lemma AnswersAreFinal(s: State, steps: seq<Step>, step: Step)
    requires Initial(s) && Run(s, steps).Some? && Next(Run(s, steps).value, step).Some?
    ensures var t := Run(s, steps).value;
            forall r <- t.answers :: r in Next(t, step).value.answers && Next(t, step).value.answers[r] == t.answers[r]
  {
    hide Run, Delivering, Answered;
    InitialInv(s);
    RunKeepsNumbered(s, steps);
  }

  // ----- Every round ends -----

  /** A step that is possible inside a round and is no spurious wakeup. */
  function Possible(s: State): Step {
    if s.owner == TheCallback then
      match s.callback
      case Copying(data, k) => if k < |data| then CopyByte else SetSize
      case Completing(_) => Complete
      case Signalling(_) => Signal
      case _ => Exit
    else
      match s.caller
      case WantsLock => LockCaller
      case Clearing => Clear
      case Submitting => Submit(true)
      case Testing => Test
      case Woken => Relock
      case Leaving(_) => Leave
      case _ => if s.callback.InFlight? then Deliver([]) else LockCallback
  }

  /** The handshake never blocks: inside a round some thread can always go on by itself. */
  lemma NeverStuck(s: State)
    requires Inv(s) && !s.caller.Outside?
    ensures Next(s, Possible(s)).Some? && Possible(s) != SpuriousWakeup && Possible(s) != StartRound
  {
    hide Answered;
  }

  function CallbackLeft(c: Callback): nat {
    match c
    case NoCallback => 0
    case Exiting(_) => 1
    case Signalling(_) => 2
    case Completing(_) => 3
    case Copying(data, k) => if k <= |data| then 4 + |data| - k else 4
    case WantsToEnter(data) => 5 + |data|
    case InFlight => 6 + MAX_MESSAGE_SIZE
  }

  function CallerLeft(c: Caller): nat {
    match c
    case Outside(_) => 0
    case Leaving(_) => 1
    case Asleep => 2
    case Testing => 3
    case Woken => 4
    case Submitting => 4 + 3 * CallbackLeft(InFlight)
    case Clearing => 5 + 3 * CallbackLeft(InFlight)
    case WantsLock => 6 + 3 * CallbackLeft(InFlight)
  }

  /** What is left of a round. */
  function Left(s: State): nat {
    3 * CallbackLeft(s.callback) + CallerLeft(s.caller)
  }

  /** Every step but a spurious wakeup brings the end of the round nearer. */
  lemma StepsBringTheEnd(s: State, step: Step)
    requires Inv(s) && Next(s, step).Some? && step != StartRound
    ensures var t := Next(s, step).value;
            if step == SpuriousWakeup then Left(t) == Left(s) + 2 else Left(t) < Left(s)
  {
    hide Answered;
  }

  function Spurious(steps: seq<Step>): nat {
    if steps == [] then 0 else Spurious(steps[..|steps| - 1]) + if steps[|steps| - 1] == SpuriousWakeup then 1 else 0
  }

  /** Inside a round, no run is longer than what was left of the round plus three steps for each spurious wakeup. */
  lemma {:induction false} RoundsEnd(s: State, steps: seq<Step>)
    requires Inv(s) && Run(s, steps).Some? && StartRound !in steps
    ensures Left(Run(s, steps).value) + |steps| <= Left(s) + 3 * Spurious(steps)
  {
    hide Inv, Next, Left;
    if steps != [] {
      var n := |steps| - 1;
      RoundsEnd(s, steps[..n]);
      RunKeepsInv(s, steps[..n]);
      StepsBringTheEnd(Run(s, steps[..n]).value, steps[n]);
    }
  }

  // ----- The critical section of the callback -----

  /** What `memcpy` leaves in a buffer. */
  function Copied(buffer: seq<byte>, data: seq<byte>): seq<byte>
    requires |data| <= |buffer|
  {
    data + buffer[|data|..]
  }

  function Copies(n: nat): (r: seq<Step>)
    ensures |r| == n && forall i :: 0 <= i < n ==> r[i] == CopyByte
  {
    seq(n, i => CopyByte)
  }

  /** The byte-wise steps copy the data over the front of the buffer. */
  lemma {:induction false} CopyingCopies(s: State, data: seq<byte>, n: nat)
    requires s.callback == Copying(data, 0) && n <= |data| <= |s.reply|
    ensures Run(s, Copies(n)) == Some(s.(callback := Copying(data, n), reply := Copied(s.reply, data[..n])))
  {
    if n == 0 {
      assert Copied(s.reply, data[..0]) == s.reply;
    } else {
      CopyingCopies(s, data, n - 1);
      assert Copies(n)[..n - 1] == Copies(n - 1);
      CopyOneMore(s.reply, data, n - 1);
    }
  }

  lemma CopyOneMore(buffer: seq<byte>, data: seq<byte>, k: nat)
    requires k < |data| <= |buffer|
    ensures Copied(buffer, data[..k])[k := data[k]] == Copied(buffer, data[..k + 1])
  {
  }

  lemma NothingCopied(buffer: seq<byte>)
    ensures Copied(buffer, []) == buffer
  {
  }

  /** The shared context, with the callback's critical section as one method. */
  class CompletionContext {
    const reply: array<byte>
    var size: nat
    var completed: bool

    constructor ()
      ensures fresh(reply) && reply.Length == MAX_MESSAGE_SIZE
    {
      reply := new byte[MAX_MESSAGE_SIZE];
      size, completed := 0, false;
    }

    /** `on_completion` between lock and unlock, but for the signal */
    method OnCompletion(data: seq<byte>)
      requires |data| <= reply.Length
      modifies this, reply
      ensures reply[..] == Copied(old(reply[..]), data) && size == |data| && completed
    {
      hide Copied;
      ghost var before := reply[..];
      var k := 0;
      NothingCopied(before);
      assert data[..0] == [];
      while k < |data|
        modifies reply
        invariant k <= |data| && reply[..] == Copied(before, data[..k])
      {
        CopyOneMore(before, data, k);
        reply[k] := data[k];
        assert reply[..] == Copied(before, data[..k])[k := data[k]];
        k := k + 1;
      }
      assert data[..k] == data;
      size := |data|;
      completed := true;
    }
  }
}
