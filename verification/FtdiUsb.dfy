/** One bulk read of the FTDI driver as interleaved steps: the task (ftdi_bulk_read_once, called
    again and again), the host controller that completes or cancels the transfer, and the USB
    event thread that runs the completion callback. */
module FtdiUsb {
  import opened Bytes
  import opened Options

  const BUF_SIZE: nat := 64

  // Where the task stands, between its calls.
  datatype Pc =
    | Idle        // about to allocate
    | HaveXfer    // transfer allocated
    | HaveBuf     // buffer allocated too
    | Ready       // buffer attached, about to enqueue
    | FirstWait   // k_sem_take, 2000 ms
    | TimedOut    // about to dequeue
    | SecondWait  // k_sem_take, 200 ms
    | Reading     // both freed, about to look at rx_err, rx_len and rx_data

  // What the controller reports for a transfer: its error and what its buffer holds.
  datatype Outcome = Outcome(err: int, data: seq<byte>)

  /** The transfer of the current read is number `id`. live: allocated and not yet freed. queued:
      owned by the controller. event: the completion waiting in the message queue, with the
      transfer it is for. rxDone is the semaphore, of limit 1. rxOf records which transfer the
      callback last wrote rx_err and the first rx_len octets of rx_data for. finished are the outcomes by transfer. */
  datatype State = State(
    pc: Pc, id: nat, live: bool, bufLive: bool, queued: bool,
    event: Option<(nat, Outcome)>, rxDone: nat,
    rxErr: int, rxData: seq<byte>, rxOf: Option<nat>,
    finished: map<nat, Outcome>)

  const INIT: State := State(Idle, 0, false, false, false, None, 0, 0, [], None, map[])

  datatype Step =
    | AllocXfer(ok: bool) | AllocBuf(ok: bool) | AttachBuf(ok: bool) | Enqueue(ok: bool)
    | TakeFirst | FirstTimeout | Dequeue | TakeSecond | SecondTimeout | Read
    | Complete(outcome: Outcome) | Handle

  // uhc_xfer_free and uhc_xfer_buf_free, then return with an error.
  function Freed(s: State): State {
    s.(pc := Idle, live := false, bufLive := false, id := s.id + 1)
  }

  // What bulk_rx_callback stores: two modem status octets are dropped, the rest is capped.
  function CallbackData(o: Outcome): (s: seq<byte>)
    ensures |s| <= BUF_SIZE
  {
    if o.err == 0 && |o.data| > 2 then
      (if |o.data| - 2 > BUF_SIZE then o.data[2..2 + BUF_SIZE] else o.data[2..])
    else []
  }

  /** The reader gets the octets behind the two of modem status, in order, at most 64 of them, and
      nothing of a failed transfer. */
  lemma CallbackOctets(o: Outcome)
    ensures var s := CallbackData(o);
            && |s| == (if o.err != 0 || |o.data| <= 2 then 0 else if |o.data| > 66 then 64 else |o.data| - 2)
            && forall i :: 0 <= i < |s| ==> s[i] == o.data[i + 2]
  {}

  // The message queue posts the completion of a transfer the controller gives back.
  function Return(s: State, o: Outcome): State {
    s.(queued := false, event := Some((s.id, o)), finished := s.finished[s.id := o])
  }

  const ECONNRESET: int := -104

  predicate Enabled(s: State, t: Step) {
    match t
    case AllocXfer(_) => s.pc == Idle
    case AllocBuf(_) => s.pc == HaveXfer
    case AttachBuf(_) => s.pc == HaveBuf
    case Enqueue(_) => s.pc == Ready
    case TakeFirst => s.pc == FirstWait && s.rxDone > 0
    case FirstTimeout => s.pc == FirstWait && s.rxDone == 0
    case Dequeue => s.pc == TimedOut
    case TakeSecond => s.pc == SecondWait && s.rxDone > 0
    case SecondTimeout => s.pc == SecondWait && s.rxDone == 0
    case Read => s.pc == Reading
    case Complete(_) => s.queued
    case Handle => s.event.Some?
  }

  function Next(s: State, t: Step): State
    requires Enabled(s, t)
  {
    match t
    case AllocXfer(ok) => if ok then s.(pc := HaveXfer, live := true) else s
    case AllocBuf(ok) => if ok then s.(pc := HaveBuf, bufLive := true) else Freed(s)
    case AttachBuf(ok) => if ok then s.(pc := Ready) else Freed(s)
    case Enqueue(ok) => if ok then s.(pc := FirstWait, queued := true) else Freed(s)
    case TakeFirst => s.(pc := Reading, rxDone := s.rxDone - 1, live := false, bufLive := false)
    case FirstTimeout => s.(pc := TimedOut)
    // A transfer the controller no longer holds is left alone.
    case Dequeue => (if s.queued then Return(s, Outcome(ECONNRESET, [])) else s).(pc := SecondWait)
    case TakeSecond => Freed(s.(rxDone := s.rxDone - 1))
    case SecondTimeout => Freed(s)
    case Read => s.(pc := Idle, id := s.id + 1)
    case Complete(o) => Return(s, o)
    case Handle =>
      var (id, o) := s.event.value;
      s.(event := None, rxErr := o.err, rxData := CallbackData(o), rxOf := Some(id), rxDone := 1)
  }

  // --- Safety ---

  // No transfer or buffer is freed while the controller owns it or its completion is pending,
  // and the pending completion is the live transfer's.
  predicate Safe(s: State) {
    && (s.queued ==> s.live && s.bufLive)
    && (s.event.Some? ==> s.live && s.bufLive && s.event.value.0 == s.id)
  }

  // Every enqueued transfer is in exactly one place: with the controller, in the message queue,
  // or signalled in the semaphore.
  predicate Inv(s: State) {
    && Safe(s)
    && s.rxDone <= 1
    && (s.live <==> s.pc in {HaveXfer, HaveBuf, Ready, FirstWait, TimedOut, SecondWait})
    && (s.bufLive <==> s.pc in {HaveBuf, Ready, FirstWait, TimedOut, SecondWait})
    && (s.pc in {Idle, HaveXfer, HaveBuf, Ready, Reading} ==> !s.queued && s.event.None? && s.rxDone == 0)
    && (s.pc in {FirstWait, TimedOut, SecondWait} ==>
          (if s.queued then 1 else 0) + (if s.event.Some? then 1 else 0) + s.rxDone == 1)
    && (s.pc == SecondWait ==> !s.queued)
    && (s.event.Some? ==> s.id in s.finished && s.finished[s.id] == s.event.value.1)
    && (s.pc == Reading || s.rxDone == 1 ==>
          s.rxOf == Some(s.id) && s.id in s.finished
          && s.rxErr == s.finished[s.id].err && s.rxData == CallbackData(s.finished[s.id]))
  }

  lemma InvStep(s: State, t: Step)
    requires Inv(s) && Enabled(s, t) && t != SecondTimeout
    ensures Inv(Next(s, t))
  {}

  // A run: every step enabled where it is taken.
  predicate IsRun(s: State, steps: seq<Step>)
    decreases |steps|
  {
    steps == [] || (Enabled(s, steps[0]) && IsRun(Next(s, steps[0]), steps[1..]))
  }

  function After(s: State, steps: seq<Step>): State
    requires IsRun(s, steps)
    decreases |steps|
  {
    if steps == [] then s else After(Next(s, steps[0]), steps[1..])
  }

  predicate AlwaysSafe(s: State, steps: seq<Step>)
    requires IsRun(s, steps)
    decreases |steps|
  {
    Safe(s) && (steps == [] || AlwaysSafe(Next(s, steps[0]), steps[1..]))
  }

  /** A run of any length and interleaving frees nothing too early exactly when no second wait
      ran out, that is, when the event of every cancelled transfer was handled within it. */
  lemma {:induction false} SafeIffCancelHandledInTime(s: State, steps: seq<Step>)
    requires Inv(s) && IsRun(s, steps)
    ensures AlwaysSafe(s, steps) <==> SecondTimeout !in steps
    decreases |steps|
  {
    if steps != [] {
      var t := steps[0];
      var s' := Next(s, t);
      if t == SecondTimeout {
        // The semaphore is empty, so the completion is still in the queue and its transfer is now gone.
        assert s.event.Some? && !s'.live && !Safe(s');
        assert !AlwaysSafe(s', steps[1..]);
      } else {
        InvStep(s, t);
        SafeIffCancelHandledInTime(s', steps[1..]);
      }
    }
  }

  /** And then every enqueue finds the semaphore at zero and no completion outstanding, and
      every read that reports data reports the outcome of its own transfer, never a stale one. */
  lemma {:induction false} NoStaleCompletion(s: State, steps: seq<Step>)
    requires Inv(s) && IsRun(s, steps) && SecondTimeout !in steps
    ensures var e := After(s, steps);
            && (e.pc == Ready ==> e.rxDone == 0 && e.event.None?)
            && (e.pc == Reading ==>
                  && e.id in e.finished && e.rxOf == Some(e.id)
                  && e.rxErr == e.finished[e.id].err && e.rxData == CallbackData(e.finished[e.id])
                  && |e.rxData| <= 64
                  && forall i :: 0 <= i < |e.rxData| ==> e.rxData[i] == e.finished[e.id].data[i + 2])
    decreases |steps|
  {
    if steps != [] {
      InvStep(s, steps[0]);
      NoStaleCompletion(Next(s, steps[0]), steps[1..]);
    } else if s.pc == Reading {
      CallbackOctets(s.finished[s.id]);
    }
  }

  lemma InitSatisfiesInv()
    ensures Inv(INIT)
  {}

  // A slow event thread: the read times out twice while the cancellation waits in the queue.
  const LATE_CANCEL: seq<Step> :=
    [AllocXfer(true), AllocBuf(true), AttachBuf(true), Enqueue(true), FirstTimeout, Dequeue, SecondTimeout]

  /** Without that assumption the hazard is real: after this run the semaphore of the next read is
      given by the callback of a transfer already freed. */
  lemma LateCancelIsUnsafe()
    ensures IsRun(INIT, LATE_CANCEL) && !AlwaysSafe(INIT, LATE_CANCEL)
    ensures var again := LATE_CANCEL + [AllocXfer(true), Handle];
            && IsRun(INIT, again)
            && After(INIT, again).rxDone == 1 && After(INIT, again).rxOf != Some(After(INIT, again).id)
  {
    var s1 := Next(INIT, AllocXfer(true));
    var s2 := Next(s1, AllocBuf(true));
    var s3 := Next(s2, AttachBuf(true));
    var s4 := Next(s3, Enqueue(true));
    var s5 := Next(s4, FirstTimeout);
    var s6 := Next(s5, Dequeue);
    var s7 := Next(s6, SecondTimeout);
    var s8 := Next(s7, AllocXfer(true));
    var s9 := Next(s8, Handle);
    Unroll(INIT, LATE_CANCEL + [AllocXfer(true), Handle], [INIT, s1, s2, s3, s4, s5, s6, s7, s8, s9]);
    Unroll(INIT, LATE_CANCEL, [INIT, s1, s2, s3, s4, s5, s6, s7]);
    InitSatisfiesInv();
    SafeIffCancelHandledInTime(INIT, LATE_CANCEL);
    assert LATE_CANCEL[6] == SecondTimeout;
  }

  // Checking a run against the states it passes through.
  lemma {:induction false} Unroll(s: State, steps: seq<Step>, states: seq<State>)
    requires |states| == |steps| + 1 && states[0] == s
    requires forall i :: 0 <= i < |steps| ==> Enabled(states[i], steps[i]) && Next(states[i], steps[i]) == states[i + 1]
    ensures IsRun(s, steps) && After(s, steps) == states[|steps|]
    decreases |steps|
  {
    if steps != [] {
      Unroll(states[1], steps[1..], states[1..]);
    }
  }
}
