/** The control-queue request protocol: many callers, one device, answers drained by
    the interrupt or by any spinning caller, and callers that stop waiting and leave
    their request behind. Each event is one step no lock or atomic can split; the
    split virtqueue is the set of requests the device holds and the ring of answers
    it has put back. Nothing in a step's guard asks whether the memory it touches is
    still allocated: that is what is proved. */
module ControlQueue {
  import opened Basics

  /** One allocation of a request. A freed address handed out again is another Id. */
  type Id = nat

  /** What `wait_for_completion_killable_timeout` gave back. */
  datatype Left = Answered | OutOfTime | Killed

  datatype Outcome = Success(bytes: seq<Byte>) | TimedOut | Interrupted | NoRoom

  /** Where a caller stands in `nvgpu_send_recv`. */
  datatype Pc =
    | Polling                     // after the submit, outside the lock
    | Spinning                    // in a spin pass, holding the lock
    | Asleep                      // in the wait
    | Woken(left: Left)           // back from the wait
    | Deciding(left: Left)        // holding the lock for the last check
    | Copying                     // past the check, about to copy out and free
    | Returned(result: Outcome)

  /** `struct nvgpu_req`. `live` and `frees` are the allocator's view of it. */
  datatype Req = Req(live: bool, frees: nat, abandoned: bool, done: nat, written: nat, data: seq<Byte>)

  datatype Lock = Unlocked | Irq | Caller(id: Id)

  /** What the lock holder has in hand in `nvgpu_ctrl_drain`. */
  datatype Drain = Idle | ToFree(id: Id) | ToMark(id: Id, len: nat) | ToComplete(id: Id)

  /** The response area as the device left it, and the length it reported. */
  datatype Answer = Answer(bytes: seq<Byte>, len: nat)

  datatype State = State(
    reqs: map<Id, Req>,
    callers: map<Id, Pc>,
    lock: Lock,
    held: set<Id>,
    used: map<Id, nat>,           // answered and not yet taken: the length the device reported
    drain: Drain,
    answers: map<Id, Answer>,     // history: what the device answered to each request
    bad: bool                     // history: freed memory was touched, or freed again
  )

  const Init: State := State(map[], map[], Unlocked, {}, map[], Idle, map[], false)

  datatype Event =
    | Submit(id: Id, respLen: nat)            // allocated, and added to the queue under the lock
    | SubmitFull(id: Id, respLen: nat)        // the queue refused it: freed at once
    | DeviceAnswers(id: Id, answer: Answer)
    | IrqEnter
    | IrqLeave
    | SpinEnter(id: Id)
    | SpinLeave(id: Id)
    | DrainTake(id: Id)                       // whichever answer the ring hands over
    | DrainFree
    | DrainMark
    | DrainComplete
    | Sleep(id: Id)
    | Wake(id: Id, left: Left)
    | DecideEnter(id: Id)
    | DecideLeave(id: Id)
    | Finish(id: Id)

  // ---------------------------------------------------------------------
  // Steps

  function ReqAt(s: State, id: Id): Req {
    if id in s.reqs then s.reqs[id] else Req(false, 0, false, 0, 0, [])
  }

  predicate At(s: State, id: Id, pc: Pc) {
    id in s.callers && s.callers[id] == pc
  }

  /** Reading or writing a request's memory. */
  function Touch(s: State, id: Id): State {
    if ReqAt(s, id).live then s else s.(bad := true)
  }

  function Write(s: State, id: Id, r: Req): State {
    Touch(s, id).(reqs := s.reqs[id := r])
  }

  function Free(s: State, id: Id): State {
    Write(s, id, ReqAt(s, id).(live := false, frees := ReqAt(s, id).frees + 1))
  }

  function Go(s: State, id: Id, pc: Pc): State {
    s.(callers := s.callers[id := pc])
  }

  predicate Draining(s: State) {
    s.lock == Irq || (s.lock.Caller? && At(s, s.lock.id, Spinning))
  }

  predicate Enabled(s: State, e: Event) {
    match e
    case Submit(id, _) => id !in s.reqs && s.lock == Unlocked
    case SubmitFull(id, _) => id !in s.reqs && s.lock == Unlocked
    case DeviceAnswers(id, answer) => id in s.held && |answer.bytes| == |ReqAt(s, id).data|
    case IrqEnter => s.lock == Unlocked
    case IrqLeave => s.lock == Irq && s.drain == Idle && s.used == map[]
    case SpinEnter(id) => At(s, id, Polling) && s.lock == Unlocked
    case SpinLeave(id) => s.lock == Caller(id) && At(s, id, Spinning) && s.drain == Idle && s.used == map[]
    case DrainTake(id) => Draining(s) && s.drain == Idle && id in s.used
    case DrainFree => Draining(s) && s.drain.ToFree?
    case DrainMark => Draining(s) && s.drain.ToMark?
    case DrainComplete => Draining(s) && s.drain.ToComplete?
    case Sleep(id) => At(s, id, Polling)
    case Wake(id, left) => At(s, id, Asleep) && (left == Answered ==> ReqAt(s, id).done > 0)
    case DecideEnter(id) => id in s.callers && s.callers[id].Woken? && s.lock == Unlocked
    case DecideLeave(id) => id in s.callers && s.callers[id].Deciding? && s.lock == Caller(id)
    case Finish(id) => At(s, id, Copying)
  }

  function Apply(s: State, e: Event): State
    requires Enabled(s, e)
  {
    match e
    case Submit(id, respLen) =>
      var s1 := s.(reqs := s.reqs[id := Req(true, 0, false, 0, 0, seq(respLen, _ => 0))]);
      Go(s1.(held := s.held + {id}), id, Polling)
    case SubmitFull(id, respLen) =>
      var s1 := s.(reqs := s.reqs[id := Req(true, 0, false, 0, 0, seq(respLen, _ => 0))]);
      Go(Free(s1, id), id, Returned(NoRoom))
    case DeviceAnswers(id, answer) =>
      var s1 := Write(s, id, ReqAt(s, id).(data := answer.bytes));
      s1.(held := s.held - {id}, used := s.used[id := answer.len], answers := s.answers[id := answer])
    case IrqEnter => s.(lock := Irq)
    case IrqLeave => s.(lock := Unlocked)
    case SpinEnter(id) => Go(Touch(s, id), id, Spinning).(lock := Caller(id))
    case SpinLeave(id) => Go(Touch(s, id), id, Polling).(lock := Unlocked)
    case DrainTake(id) =>
      Touch(s, id).(used := s.used - {id},
                    drain := if ReqAt(s, id).abandoned then ToFree(id) else ToMark(id, s.used[id]))
    case DrainFree => Free(s, s.drain.id).(drain := Idle)
    case DrainMark =>
      Write(s, s.drain.id, ReqAt(s, s.drain.id).(written := s.drain.len)).(drain := ToComplete(s.drain.id))
    case DrainComplete =>
      Write(s, s.drain.id, ReqAt(s, s.drain.id).(done := ReqAt(s, s.drain.id).done + 1)).(drain := Idle)
    case Sleep(id) => Go(Touch(s, id), id, Asleep)
    case Wake(id, left) =>
      // A wait that succeeds takes the completion with it.
      var r := ReqAt(s, id);
      Go(Write(s, id, if left == Answered then r.(done := r.done - 1) else r), id, Woken(left))
    case DecideEnter(id) => Go(s, id, Deciding(s.callers[id].left)).(lock := Caller(id))
    case DecideLeave(id) =>
      var left := s.callers[id].left;
      var r := ReqAt(s, id);
      if left != Answered && r.done == 0 then
        Go(Write(s, id, r.(abandoned := true)), id,
           Returned(if left == OutOfTime then TimedOut else Interrupted)).(lock := Unlocked)
      else Go(Touch(s, id), id, Copying).(lock := Unlocked)
    case Finish(id) =>
      var r := ReqAt(s, id);
      Go(Free(s, id), id, Returned(Success(r.data[..Min(r.written, |r.data|)])))
  }

  /** The state after a sequence of events, if each could happen where it did. */
  function Run(events: seq<Event>): Option<State> {
    if events == [] then Some(Init)
    else
      var last := events[|events| - 1];
      match Run(events[..|events| - 1])
      case None => None
      case Some(s) => if Enabled(s, last) then Some(Apply(s, last)) else None
  }

  // ---------------------------------------------------------------------
  // The invariant

  predicate InHand(s: State, id: Id) {
    s.drain != Idle && s.drain.id == id
  }

  /** The device has it, or it is on its way back. */
  predicate InFlight(s: State, id: Id) {
    id in s.held || id in s.used || InHand(s, id)
  }

  predicate GaveUp(pc: Pc) {
    pc == Returned(TimedOut) || pc == Returned(Interrupted)
  }

  predicate Served(pc: Pc) {
    pc == Woken(Answered) || pc == Deciding(Answered) || pc == Copying
  }

  /** The answer is in the request, as the device wrote it. */
  predicate Filled(s: State, id: Id) {
    id in s.answers && ReqAt(s, id).data == s.answers[id].bytes
  }

  predicate CallOk(s: State, id: Id)
    requires id in s.reqs && id in s.callers
  {
    var r := s.reqs[id];
    var pc := s.callers[id];
    && r.frees == (if r.live then 0 else 1)
    && (r.abandoned <==> GaveUp(pc))
    && (!pc.Returned? ==> r.live)
    && (r.abandoned && r.live ==> InFlight(s, id))
    && (pc.Returned? && !GaveUp(pc) ==> !r.live)
    && (InFlight(s, id) ==> r.live && r.done == 0 && !Served(pc))
    && (!InFlight(s, id) && !pc.Returned? ==> Filled(s, id) && r.written == s.answers[id].len)
    && (!InFlight(s, id) && !pc.Returned? && !Served(pc) ==> r.done == 1)
    && (pc.Returned? && pc.result.Success? ==>
          && id in s.answers
          && pc.result.bytes == s.answers[id].bytes[..Min(s.answers[id].len, |s.answers[id].bytes|)])
    && (pc == Spinning || pc.Deciding? <==> s.lock == Caller(id))
  }

  /** Each request in flight is in one place. */
  predicate PlacedOnce(s: State) {
    && (forall id :: id in s.held ==> id in s.reqs && id !in s.used && !InHand(s, id) && id !in s.answers)
    && (forall id :: id in s.used ==>
          id in s.reqs && !InHand(s, id) && Filled(s, id) && s.used[id] == s.answers[id].len)
    && (forall id :: id in s.answers ==> id in s.reqs)
  }

  predicate HandOk(s: State) {
    && (s.drain != Idle ==> Draining(s) && s.drain.id in s.reqs && Filled(s, s.drain.id))
    && (s.drain.ToFree? <==> s.drain != Idle && ReqAt(s, s.drain.id).abandoned)
    && (s.drain.ToMark? ==> s.drain.len == s.answers[s.drain.id].len)
    && (s.drain.ToComplete? ==> ReqAt(s, s.drain.id).written == s.answers[s.drain.id].len)
    && (s.lock.Caller? ==> s.lock.id in s.callers)
  }

  ghost predicate Inv(s: State) {
    && QueueOk(s)
    && (forall id :: id in s.reqs ==> CallOk(s, id))
  }

  /** Whose request or program counter an event changes. */
  function Subject(s: State, e: Event): Id {
    match e
    case IrqEnter => 0
    case IrqLeave => 0
    case DrainFree => if s.drain == Idle then 0 else s.drain.id
    case DrainMark => if s.drain == Idle then 0 else s.drain.id
    case DrainComplete => if s.drain == Idle then 0 else s.drain.id
    case _ => e.id
  }

  /** The part of the invariant about the queue and the lock. */
  predicate QueueOk(s: State) {
    !s.bad && s.reqs.Keys == s.callers.Keys && PlacedOnce(s) && HandOk(s)
  }

  lemma SubmitKeepsCall(s: State, e: Event, id: Id)
    requires QueueOk(s) && Enabled(s, e) && (e.Submit? || e.SubmitFull?) && id in Apply(s, e).reqs
    requires (id in s.reqs ==> CallOk(s, id)) && (Subject(s, e) in s.reqs ==> CallOk(s, Subject(s, e)))
    ensures id in Apply(s, e).callers && CallOk(Apply(s, e), id)
  {
  }

  lemma DeviceKeepsCall(s: State, e: Event, id: Id)
    requires QueueOk(s) && Enabled(s, e) && e.DeviceAnswers? && id in Apply(s, e).reqs
    requires (id in s.reqs ==> CallOk(s, id)) && (Subject(s, e) in s.reqs ==> CallOk(s, Subject(s, e)))
    ensures id in Apply(s, e).callers && CallOk(Apply(s, e), id)
  {
  }

  lemma IrqKeepsCall(s: State, e: Event, id: Id)
    requires QueueOk(s) && Enabled(s, e) && (e.IrqEnter? || e.IrqLeave?) && id in Apply(s, e).reqs
    requires (id in s.reqs ==> CallOk(s, id)) && (Subject(s, e) in s.reqs ==> CallOk(s, Subject(s, e)))
    ensures id in Apply(s, e).callers && CallOk(Apply(s, e), id)
  {
  }

  lemma SpinKeepsCall(s: State, e: Event, id: Id)
    requires QueueOk(s) && Enabled(s, e) && (e.DecideEnter? || e.SpinEnter? || e.SpinLeave?) && id in Apply(s, e).reqs
    requires (id in s.reqs ==> CallOk(s, id)) && (Subject(s, e) in s.reqs ==> CallOk(s, Subject(s, e)))
    ensures id in Apply(s, e).callers && CallOk(Apply(s, e), id)
  {
  }

  lemma SleepKeepsCall(s: State, e: Event, id: Id)
    requires QueueOk(s) && Enabled(s, e) && e.Sleep? && id in Apply(s, e).reqs
    requires (id in s.reqs ==> CallOk(s, id)) && (Subject(s, e) in s.reqs ==> CallOk(s, Subject(s, e)))
    ensures id in Apply(s, e).callers && CallOk(Apply(s, e), id)
  {
  }

  lemma WakeKeepsCall(s: State, e: Event, id: Id)
    requires QueueOk(s) && Enabled(s, e) && e.Wake? && id in Apply(s, e).reqs
    requires (id in s.reqs ==> CallOk(s, id)) && (Subject(s, e) in s.reqs ==> CallOk(s, Subject(s, e)))
    ensures id in Apply(s, e).callers && CallOk(Apply(s, e), id)
  {
  }

  lemma DecideKeepsCall(s: State, e: Event, id: Id)
    requires QueueOk(s) && Enabled(s, e) && e.DecideLeave? && id in Apply(s, e).reqs
    requires (id in s.reqs ==> CallOk(s, id)) && (Subject(s, e) in s.reqs ==> CallOk(s, Subject(s, e)))
    ensures id in Apply(s, e).callers && CallOk(Apply(s, e), id)
  {
  }

  lemma FinishKeepsCall(s: State, e: Event, id: Id)
    requires QueueOk(s) && Enabled(s, e) && e.Finish? && id in Apply(s, e).reqs
    requires (id in s.reqs ==> CallOk(s, id)) && (Subject(s, e) in s.reqs ==> CallOk(s, Subject(s, e)))
    ensures id in Apply(s, e).callers && CallOk(Apply(s, e), id)
  {
  }

  lemma TakeKeepsCall(s: State, e: Event, id: Id)
    requires QueueOk(s) && Enabled(s, e) && (e.DrainTake? || e.DrainFree?) && id in Apply(s, e).reqs
    requires (id in s.reqs ==> CallOk(s, id)) && (Subject(s, e) in s.reqs ==> CallOk(s, Subject(s, e)))
    ensures id in Apply(s, e).callers && CallOk(Apply(s, e), id)
  {
  }

  lemma MarkKeepsCall(s: State, e: Event, id: Id)
    requires QueueOk(s) && Enabled(s, e) && (e.DrainMark? || e.DrainComplete?) && id in Apply(s, e).reqs
    requires (id in s.reqs ==> CallOk(s, id)) && (Subject(s, e) in s.reqs ==> CallOk(s, Subject(s, e)))
    ensures id in Apply(s, e).callers && CallOk(Apply(s, e), id)
  {
  }

  lemma SubmitKeepsQueue(s: State, e: Event)
    requires QueueOk(s) && Enabled(s, e) && (e.Submit? || e.SubmitFull?)
    requires Subject(s, e) in s.reqs ==> CallOk(s, Subject(s, e))
    ensures QueueOk(Apply(s, e))
  {
  }

  lemma DeviceKeepsQueue(s: State, e: Event)
    requires QueueOk(s) && Enabled(s, e) && e.DeviceAnswers?
    requires Subject(s, e) in s.reqs ==> CallOk(s, Subject(s, e))
    ensures QueueOk(Apply(s, e))
  {
  }

  lemma LockKeepsQueue(s: State, e: Event)
    requires QueueOk(s) && Enabled(s, e) && (e.IrqEnter? || e.IrqLeave? || e.DecideEnter?)
    requires Subject(s, e) in s.reqs ==> CallOk(s, Subject(s, e))
    ensures QueueOk(Apply(s, e))
  {
  }

  lemma SpinKeepsQueue(s: State, e: Event)
    requires QueueOk(s) && Enabled(s, e) && (e.SpinEnter? || e.SpinLeave?)
    requires Subject(s, e) in s.reqs ==> CallOk(s, Subject(s, e))
    ensures QueueOk(Apply(s, e))
  {
  }

  lemma SleepKeepsQueue(s: State, e: Event)
    requires QueueOk(s) && Enabled(s, e) && e.Sleep?
    requires Subject(s, e) in s.reqs ==> CallOk(s, Subject(s, e))
    ensures QueueOk(Apply(s, e))
  {
  }

  lemma WakeKeepsQueue(s: State, e: Event)
    requires QueueOk(s) && Enabled(s, e) && e.Wake?
    requires Subject(s, e) in s.reqs ==> CallOk(s, Subject(s, e))
    ensures QueueOk(Apply(s, e))
  {
  }

  lemma DecideKeepsQueue(s: State, e: Event)
    requires QueueOk(s) && Enabled(s, e) && e.DecideLeave?
    requires Subject(s, e) in s.reqs ==> CallOk(s, Subject(s, e))
    ensures QueueOk(Apply(s, e))
  {
  }

  lemma FinishKeepsQueue(s: State, e: Event)
    requires QueueOk(s) && Enabled(s, e) && e.Finish?
    requires Subject(s, e) in s.reqs ==> CallOk(s, Subject(s, e))
    ensures QueueOk(Apply(s, e))
  {
  }

  lemma TakeKeepsQueue(s: State, e: Event)
    requires QueueOk(s) && Enabled(s, e) && (e.DrainTake? || e.DrainFree?)
    requires Subject(s, e) in s.reqs ==> CallOk(s, Subject(s, e))
    ensures QueueOk(Apply(s, e))
  {
  }

  lemma MarkKeepsQueue(s: State, e: Event)
    requires QueueOk(s) && Enabled(s, e) && e.DrainMark?
    requires Subject(s, e) in s.reqs ==> CallOk(s, Subject(s, e))
    ensures QueueOk(Apply(s, e))
  {
  }

  lemma CompleteKeepsQueue(s: State, e: Event)
    requires QueueOk(s) && Enabled(s, e) && e.DrainComplete?
    requires Subject(s, e) in s.reqs ==> CallOk(s, Subject(s, e))
    ensures QueueOk(Apply(s, e))
  {
  }

  lemma CallKept(s: State, e: Event, id: Id)
    requires Inv(s) && Enabled(s, e) && id in Apply(s, e).reqs
    ensures id in Apply(s, e).callers && CallOk(Apply(s, e), id)
  {
    hide Apply, CallOk, QueueOk, Enabled;
    if e.Submit? || e.SubmitFull? {
      SubmitKeepsCall(s, e, id);
    } else if e.DeviceAnswers? {
      DeviceKeepsCall(s, e, id);
    } else if e.IrqEnter? || e.IrqLeave? {
      IrqKeepsCall(s, e, id);
    } else if e.DecideEnter? || e.SpinEnter? || e.SpinLeave? {
      SpinKeepsCall(s, e, id);
    } else if e.Sleep? {
      SleepKeepsCall(s, e, id);
    } else if e.Wake? {
      WakeKeepsCall(s, e, id);
    } else if e.DecideLeave? {
      DecideKeepsCall(s, e, id);
    } else if e.Finish? {
      FinishKeepsCall(s, e, id);
    } else if e.DrainTake? || e.DrainFree? {
      TakeKeepsCall(s, e, id);
    } else if e.DrainMark? || e.DrainComplete? {
      MarkKeepsCall(s, e, id);
    }
  }

  lemma QueueKept(s: State, e: Event)
    requires Inv(s) && Enabled(s, e)
    ensures QueueOk(Apply(s, e))
  {
    hide Apply, CallOk, QueueOk, Enabled;
    if e.Submit? || e.SubmitFull? {
      SubmitKeepsQueue(s, e);
    } else if e.DeviceAnswers? {
      DeviceKeepsQueue(s, e);
    } else if e.IrqEnter? || e.IrqLeave? || e.DecideEnter? {
      LockKeepsQueue(s, e);
    } else if e.SpinEnter? || e.SpinLeave? {
      SpinKeepsQueue(s, e);
    } else if e.Sleep? {
      SleepKeepsQueue(s, e);
    } else if e.Wake? {
      WakeKeepsQueue(s, e);
    } else if e.DecideLeave? {
      DecideKeepsQueue(s, e);
    } else if e.Finish? {
      FinishKeepsQueue(s, e);
    } else if e.DrainTake? || e.DrainFree? {
      TakeKeepsQueue(s, e);
    } else if e.DrainMark? {
      MarkKeepsQueue(s, e);
    } else if e.DrainComplete? {
      CompleteKeepsQueue(s, e);
    }
  }

  lemma StepKeeps(s: State, e: Event)
    requires Inv(s) && Enabled(s, e)
    ensures Inv(Apply(s, e))
  {
    QueueKept(s, e);
    forall id | id in Apply(s, e).reqs ensures id in Apply(s, e).callers && CallOk(Apply(s, e), id) {
      CallKept(s, e, id);
    }
  }

  lemma {:induction false} RunKeeps(events: seq<Event>)
    ensures Run(events).Some? ==> Inv(Run(events).value)
  {
    if events != [] && Run(events).Some? {
      RunKeeps(events[..|events| - 1]);
      StepKeeps(Run(events[..|events| - 1]).value, events[|events| - 1]);
    }
  }

  // ---------------------------------------------------------------------
  // What it means

  /** In every interleaving no freed request is touched, and none is freed twice. */
  lemma NoUseAfterFree(events: seq<Event>, s: State)
    requires Run(events) == Some(s)
    ensures !s.bad
    ensures forall id :: id in s.reqs ==> s.reqs[id].frees <= 1
  {
    RunKeeps(events);
    forall id | id in s.reqs ensures s.reqs[id].frees <= 1 {
      assert CallOk(s, id);
    }
  }

  /** Whatever happens next, in every interleaving, the request whose memory it reads or writes is still
      allocated: the caller's own on its way through the call, the device's while it answers, and the one
      a drain takes, frees, marks or completes. */
  lemma TouchesOnlyLive(events: seq<Event>, s: State, e: Event)
    requires Run(events) == Some(s) && Enabled(s, e)
    ensures match e
            case DeviceAnswers(id, _) => id in s.reqs && s.reqs[id].live
            case SpinEnter(id) => id in s.reqs && s.reqs[id].live
            case SpinLeave(id) => id in s.reqs && s.reqs[id].live
            case DrainTake(id) => id in s.reqs && s.reqs[id].live
            case DrainFree => s.drain.id in s.reqs && s.reqs[s.drain.id].live
            case DrainMark => s.drain.id in s.reqs && s.reqs[s.drain.id].live
            case DrainComplete => s.drain.id in s.reqs && s.reqs[s.drain.id].live
            case Sleep(id) => id in s.reqs && s.reqs[id].live
            case Wake(id, _) => id in s.reqs && s.reqs[id].live
            case DecideEnter(id) => id in s.reqs && s.reqs[id].live
            case DecideLeave(id) => id in s.reqs && s.reqs[id].live
            case Finish(id) => id in s.reqs && s.reqs[id].live
            case _ => true
  {
    hide Run, Apply, Filled;
    RunKeeps(events);
    if Subject(s, e) in s.reqs { assert CallOk(s, Subject(s, e)); }
  }

  /** A caller that returns 0 has the device's answer to its own request, as far as the
      device said it wrote and no further than the caller's buffer. */
  lemma OwnAnswer(events: seq<Event>, s: State, id: Id)
    requires Run(events) == Some(s)
    requires id in s.callers && s.callers[id].Returned? && s.callers[id].result.Success?
    ensures id in s.answers
    ensures s.callers[id].result.bytes == s.answers[id].bytes[..Min(s.answers[id].len, |s.answers[id].bytes|)]
  {
    RunKeeps(events);
    assert CallOk(s, id);
  }

  lemma OnlyTheDeviceAnswers(s: State, e: Event)
    requires Enabled(s, e) && !e.DeviceAnswers?
    ensures Apply(s, e).answers == s.answers
  {
    hide ReqAt, Min, At, Draining;
  }

  /** The device answers a request once, so there is one answer to speak of. */
  lemma AnswerStays(events: seq<Event>, s: State, e: Event, id: Id)
    requires Run(events) == Some(s) && Enabled(s, e) && id in s.answers
    ensures id in Apply(s, e).answers && Apply(s, e).answers[id] == s.answers[id]
  {
    hide Run, CallOk, HandOk;
    RunKeeps(events);
    if e.DeviceAnswers? {
      assert e.id !in s.answers;
    } else {
      hide Apply, Enabled;
      OnlyTheDeviceAnswers(s, e);
    }
  }

  lemma WhoFrees(s: State, e: Event, id: Id)
    requires Enabled(s, e) && id in s.reqs && s.reqs[id].live && !ReqAt(Apply(s, e), id).live
    ensures (e == DrainFree && s.drain == ToFree(id)) || (e == Finish(id) && s.callers[id] == Copying)
  {
  }

  /** A request is freed by the caller it served, or, once abandoned, by the drain that
      takes it back; by nothing else. */
  lemma FreedBy(events: seq<Event>, s: State, e: Event, id: Id)
    requires Run(events) == Some(s) && Enabled(s, e)
    requires id in s.reqs && s.reqs[id].live && !ReqAt(Apply(s, e), id).live
    ensures if s.reqs[id].abandoned then e == DrainFree && s.drain == ToFree(id)
            else e == Finish(id)
  {
    hide Run, PlacedOnce, Apply;
    RunKeeps(events);
    WhoFrees(s, e, id);
    assert CallOk(s, id);
  }

  /** Nothing leaks: with every caller back and nothing left on the queue, each request
      has been freed exactly once. */
  lemma NothingLeaks(events: seq<Event>, s: State, id: Id)
    requires Run(events) == Some(s) && id in s.reqs
    requires forall c :: c in s.callers ==> s.callers[c].Returned?
    requires s.held == {} && s.used == map[] && s.drain == Idle
    ensures !s.reqs[id].live && s.reqs[id].frees == 1
  {
    RunKeeps(events);
    assert CallOk(s, id);
  }

  /** A caller that gave up leaves its request to the queue, and a caller still in the call
      whose answer was drained finds the completion set: no wakeup is lost. */
  lemma NoLostWakeup(events: seq<Event>, s: State, id: Id)
    requires Run(events) == Some(s) && id in s.callers && id in s.answers && !InFlight(s, id)
    requires s.callers[id] == Asleep
    ensures Enabled(s, Wake(id, Answered))
  {
    RunKeeps(events);
    assert CallOk(s, id);
  }

  /** The next thing the lock's holder does; there always is one, so the lock is never stuck. */
  lemma HolderMoves(events: seq<Event>, s: State) returns (e: Event)
    requires Run(events) == Some(s) && s.lock != Unlocked
    ensures Enabled(s, e)
    ensures !e.Submit? && !e.SubmitFull? && !e.DeviceAnswers?
  {
    RunKeeps(events);
    if s.drain.ToFree? { e := DrainFree; }
    else if s.drain.ToMark? { e := DrainMark; }
    else if s.drain.ToComplete? { e := DrainComplete; }
    else if s.lock == Irq {
      e := if s.used == map[] then IrqLeave else var id :| id in s.used; DrainTake(id);
    } else {
      var id := s.lock.id;
      assert CallOk(s, id);
      e := if s.callers[id].Deciding? then DecideLeave(id)
           else if s.used == map[] then SpinLeave(id) else var u :| u in s.used; DrainTake(u);
    }
  }

  // ---------------------------------------------------------------------
  // Which answer a caller gets

  /** How the wait of a caller ended, if it has. */
  function HowWoken(events: seq<Event>, id: Id): Option<Left> {
    if events == [] then None
    else
      var last := events[|events| - 1];
      if last.Wake? && last.id == id then Some(last.left) else HowWoken(events[..|events| - 1], id)
  }

  /** Whether the completion was set when a caller looked for the last time, under the lock. */
  function SetAtLastCheck(events: seq<Event>, id: Id): Option<bool> {
    if events == [] then None
    else
      var before, last := events[..|events| - 1], events[|events| - 1];
      if last == DecideLeave(id) && Run(before).Some? then Some(ReqAt(Run(before).value, id).done > 0)
      else SetAtLastCheck(before, id)
  }

  /** What a caller's place in the call says of how its wait ended and of its last check. */
  predicate Tells(pc: Pc, woken: Option<Left>, done: Option<bool>) {
    match pc
    case Polling => woken.None? && done.None?
    case Spinning => woken.None? && done.None?
    case Asleep => woken.None? && done.None?
    case Woken(left) => woken == Some(left) && done.None?
    case Deciding(left) => woken == Some(left) && done.None?
    case Copying => woken.Some? && done.Some? && (woken == Some(Answered) || done == Some(true))
    case Returned(result) =>
      match result
      case Success(_) => woken.Some? && done.Some? && (woken == Some(Answered) || done == Some(true))
      case TimedOut => woken == Some(OutOfTime) && done == Some(false)
      case Interrupted => woken == Some(Killed) && done == Some(false)
      case NoRoom => woken.None? && done.None?
  }

  /** Steps of the device, of the interrupt and of a drain move no caller. */
  predicate MovesNobody(e: Event) {
    e.DeviceAnswers? || e.IrqEnter? || e.IrqLeave? || e.DrainTake? || e.DrainFree? || e.DrainMark? || e.DrainComplete?
  }

  lemma NobodyMoves(s: State, e: Event)
    requires Enabled(s, e) && MovesNobody(e)
    ensures Apply(s, e).callers == s.callers
  {
    hide ReqAt, Min;
  }

  lemma EarlyMoves(s: State, e: Event)
    requires Enabled(s, e) && (e.Submit? || e.SubmitFull? || e.SpinEnter? || e.SpinLeave? || e.Sleep?)
    ensures e.id in Apply(s, e).callers && Apply(s, e).callers == s.callers[e.id := Apply(s, e).callers[e.id]]
  {
    hide ReqAt, Min;
  }

  lemma WakingMoves(s: State, e: Event)
    requires Enabled(s, e) && (e.Wake? || e.DecideEnter?)
    ensures e.id in Apply(s, e).callers && Apply(s, e).callers == s.callers[e.id := Apply(s, e).callers[e.id]]
  {
    hide ReqAt, Min;
  }

  lemma LeavingMoves(s: State, e: Event)
    requires Enabled(s, e) && (e.DecideLeave? || e.Finish?)
    ensures e.id in Apply(s, e).callers && Apply(s, e).callers == s.callers[e.id := Apply(s, e).callers[e.id]]
  {
    hide ReqAt, Min;
  }

  lemma OneMoves(s: State, e: Event)
    requires Enabled(s, e) && !MovesNobody(e)
    ensures e.id in Apply(s, e).callers && Apply(s, e).callers == s.callers[e.id := Apply(s, e).callers[e.id]]
  {
    hide Apply, Enabled;
    if e.Wake? || e.DecideEnter? {
      WakingMoves(s, e);
    } else if e.DecideLeave? || e.Finish? {
      LeavingMoves(s, e);
    } else {
      EarlyMoves(s, e);
    }
  }

  predicate TellsOf(callers: map<Id, Pc>, id: Id, woken: Option<Left>, done: Option<bool>) {
    if id in callers then Tells(callers[id], woken, done) else woken.None? && done.None?
  }

  lemma EarlyTells(s: State, e: Event, woken: Option<Left>, done: Option<bool>)
    requires Enabled(s, e) && (e.Submit? || e.SubmitFull? || e.SpinEnter? || e.SpinLeave? || e.Sleep?)
    requires s.reqs.Keys == s.callers.Keys && TellsOf(s.callers, e.id, woken, done)
    ensures TellsOf(Apply(s, e).callers, e.id, woken, done)
  {
    hide ReqAt, Min;
  }

  lemma WakeTells(s: State, e: Event, woken: Option<Left>, done: Option<bool>)
    requires Enabled(s, e) && (e.Wake? || e.DecideEnter?) && TellsOf(s.callers, e.id, woken, done)
    ensures TellsOf(Apply(s, e).callers, e.id, if e.Wake? then Some(e.left) else woken, done)
  {
    hide Min;
  }

  lemma LeaveTells(s: State, e: Event, woken: Option<Left>, done: Option<bool>)
    requires Enabled(s, e) && (e.DecideLeave? || e.Finish?) && TellsOf(s.callers, e.id, woken, done)
    ensures TellsOf(Apply(s, e).callers, e.id, woken, if e.DecideLeave? then Some(ReqAt(s, e.id).done > 0) else done)
  {
    hide ReqAt, Min;
  }

  lemma StepTells(s: State, e: Event, id: Id, woken: Option<Left>, done: Option<bool>)
    requires Enabled(s, e) && s.reqs.Keys == s.callers.Keys && TellsOf(s.callers, id, woken, done)
    ensures TellsOf(Apply(s, e).callers, id, if e.Wake? && e.id == id then Some(e.left) else woken,
                    if e == DecideLeave(id) then Some(ReqAt(s, id).done > 0) else done)
  {
    hide Apply, Enabled, Tells, ReqAt;
    if MovesNobody(e) {
      NobodyMoves(s, e);
    } else {
      OneMoves(s, e);
      if e.id == id {
        if e.Wake? || e.DecideEnter? {
          WakeTells(s, e, woken, done);
        } else if e.DecideLeave? || e.Finish? {
          LeaveTells(s, e, woken, done);
        } else {
          EarlyTells(s, e, woken, done);
        }
      }
    }
  }

  lemma {:induction false} RunTells(events: seq<Event>, s: State, id: Id)
    requires Run(events) == Some(s)
    ensures TellsOf(s.callers, id, HowWoken(events, id), SetAtLastCheck(events, id))
  {
    if events != [] {
      hide Apply, Enabled, Tells, Inv;
      var before, last := events[..|events| - 1], events[|events| - 1];
      var was := Run(before).value;
      RunTells(before, was, id);
      SameKeys(before, was);
      StepTells(was, last, id, HowWoken(before, id), SetAtLastCheck(before, id));
    }
  }

  lemma SameKeys(events: seq<Event>, s: State)
    requires Run(events) == Some(s)
    ensures s.reqs.Keys == s.callers.Keys
  {
    RunKeeps(events);
  }

  /** Over any run a caller is told that its time ran out exactly when its wait ended so and the answer
      had not come by its last look, that it was interrupted exactly when it was killed and the answer
      had not come, and it gets the answer in no other case but that it had. */
  lemma WhyItReturned(events: seq<Event>, s: State, id: Id)
    requires Run(events) == Some(s) && id in s.callers
    ensures var woken, done := HowWoken(events, id), SetAtLastCheck(events, id);
            && (s.callers[id] == Returned(TimedOut) <==> woken == Some(OutOfTime) && done == Some(false))
            && (s.callers[id] == Returned(Interrupted) <==> woken == Some(Killed) && done == Some(false))
            && (s.callers[id].Returned? && s.callers[id].result.Success? ==> woken == Some(Answered) || done == Some(true))
  {
    RunTells(events, s, id);
  }

  /** The queue refused a caller's request. */
  function Refused(events: seq<Event>, id: Id): bool {
    events != [] && ((events[|events| - 1].SubmitFull? && events[|events| - 1].id == id) || Refused(events[..|events| - 1], id))
  }

  lemma StepRefuses(s: State, e: Event, id: Id)
    requires Enabled(s, e) && s.reqs.Keys == s.callers.Keys
    ensures At(Apply(s, e), id, Returned(NoRoom)) <==> At(s, id, Returned(NoRoom)) || (e.SubmitFull? && e.id == id)
  {
    hide ReqAt, Min;
    if MovesNobody(e) { NobodyMoves(s, e); }
  }

  /** And it is told there was no room exactly when the queue refused its request. */
  lemma {:induction false} NoRoomExactly(events: seq<Event>, s: State, id: Id)
    requires Run(events) == Some(s)
    ensures At(s, id, Returned(NoRoom)) <==> Refused(events, id)
  {
    if events != [] {
      hide Apply, Enabled, At;
      var before, last := events[..|events| - 1], events[|events| - 1];
      NoRoomExactly(before, Run(before).value, id);
      SameKeys(before, Run(before).value);
      StepRefuses(Run(before).value, last, id);
    } else {
      assert !At(Init, id, Returned(NoRoom));
    }
  }

  // ---------------------------------------------------------------------
  // Every call can come to its end

  /** A caller still in its call has a next step of its own whenever the lock is free or its own. */
  lemma CallerMoves(events: seq<Event>, s: State, id: Id) returns (e: Event)
    requires Run(events) == Some(s) && id in s.callers && !s.callers[id].Returned?
    requires s.lock == Unlocked || (s.lock == Caller(id) && s.callers[id].Deciding?)
    ensures Enabled(s, e)
    ensures e == Sleep(id) || e == Wake(id, OutOfTime) || e == DecideEnter(id) || e == DecideLeave(id) || e == Finish(id)
  {
    RunKeeps(events);
    assert CallOk(s, id);
    match s.callers[id]
    case Polling => e := Sleep(id);
    case Asleep => e := Wake(id, OutOfTime);
    case Woken(_) => e := DecideEnter(id);
    case Deciding(_) => e := DecideLeave(id);
    case Copying => e := Finish(id);
  }

  lemma OneMore(events: seq<Event>, s: State, e: Event)
    requires Run(events) == Some(s) && Enabled(s, e)
    ensures Run(events + [e]) == Some(Apply(s, e))
  {
    hide Apply, Enabled;
    assert (events + [e])[..|events|] == events;
  }

  /** One caller asleep behind its request, and everything else at rest. */
  predicate Sleeping(s: State, id: Id, r: Req) {
    && s.reqs == map[id := r] && s.callers == map[id := Asleep] && s.lock == Unlocked && s.drain == Idle && !s.bad
  }

  lemma Sleeps(id: Id, respLen: nat) returns (events: seq<Event>, s: State)
    ensures Run(events) == Some(s)
    ensures Sleeping(s, id, Req(true, 0, false, 0, 0, seq(respLen, _ => 0)))
    ensures s.held == {id} && s.used == map[] && s.answers == map[]
  {
    s := Apply(Init, Submit(id, respLen));
    assert Run([]) == Some(Init);
    OneMore([], Init, Submit(id, respLen));
    OneMore([] + [Submit(id, respLen)], s, Sleep(id));
    events, s := [] + [Submit(id, respLen)] + [Sleep(id)], Apply(s, Sleep(id));
  }

  lemma Drained(before: seq<Event>, s0: State, id: Id, respLen: nat, answer: Answer) returns (events: seq<Event>, s: State)
    requires Run(before) == Some(s0) && Sleeping(s0, id, Req(true, 0, false, 0, 0, seq(respLen, _ => 0)))
    requires s0.held == {id} && s0.used == map[] && |answer.bytes| == respLen
    ensures Run(events) == Some(s)
    ensures Sleeping(s, id, Req(true, 0, false, 1, answer.len, answer.bytes))
  {
    hide Run;
    OneMore(before, s0, DeviceAnswers(id, answer));
    events, s := before + [DeviceAnswers(id, answer)], Apply(s0, DeviceAnswers(id, answer));
    OneMore(events, s, IrqEnter);
    events, s := events + [IrqEnter], Apply(s, IrqEnter);
    OneMore(events, s, DrainTake(id));
    events, s := events + [DrainTake(id)], Apply(s, DrainTake(id));
    OneMore(events, s, DrainMark);
    events, s := events + [DrainMark], Apply(s, DrainMark);
    OneMore(events, s, DrainComplete);
    events, s := events + [DrainComplete], Apply(s, DrainComplete);
    OneMore(events, s, IrqLeave);
    events, s := events + [IrqLeave], Apply(s, IrqLeave);
  }

  /** A wait that was answered used up the completion. */
  lemma Wakes(events: seq<Event>, s: State, id: Id, r: Req, left: Left)
    requires Run(events) == Some(s) && Sleeping(s, id, r) && (left == Answered ==> r.done > 0)
    ensures Enabled(s, Wake(id, left))
    ensures var t := Apply(s, Wake(id, left));
            && Run(events + [Wake(id, left)]) == Some(t) && t.callers == map[id := Woken(left)] && t.lock == Unlocked
            && t.reqs == map[id := if left == Answered then r.(done := r.done - 1) else r]
  {
    hide Run, Min;
    OneMore(events, s, Wake(id, left));
  }

  lemma LooksAgain(events: seq<Event>, s: State, id: Id, left: Left)
    requires Run(events) == Some(s) && s.callers == map[id := Woken(left)] && s.lock == Unlocked
    ensures Enabled(s, DecideEnter(id))
    ensures var t := Apply(s, DecideEnter(id));
            && Run(events + [DecideEnter(id)]) == Some(t) && t.callers == map[id := Deciding(left)] && t.lock == Caller(id)
            && t.reqs == s.reqs
  {
    hide Run, Min, ReqAt;
    OneMore(events, s, DecideEnter(id));
  }

  lemma Decides(events: seq<Event>, s: State, id: Id, left: Left)
    requires Run(events) == Some(s) && s.callers == map[id := Deciding(left)] && s.lock == Caller(id) && id in s.reqs
    ensures Enabled(s, DecideLeave(id))
    ensures var t := Apply(s, DecideLeave(id));
            && Run(events + [DecideLeave(id)]) == Some(t)
            && if left != Answered && s.reqs[id].done == 0
               then t.callers == map[id := Returned(if left == OutOfTime then TimedOut else Interrupted)]
               else t.callers == map[id := Copying] && t.reqs == s.reqs
  {
    hide Run, Min;
    OneMore(events, s, DecideLeave(id));
  }

  /** Woken either way, a caller looks once more under the lock. */
  lemma Looks(before: seq<Event>, s0: State, id: Id, r: Req, left: Left) returns (events: seq<Event>, s: State)
    requires Run(before) == Some(s0) && Sleeping(s0, id, r) && (left == Answered ==> r.done > 0)
    ensures Run(events) == Some(s)
    ensures if left != Answered && r.done == 0
            then s.callers == map[id := Returned(if left == OutOfTime then TimedOut else Interrupted)]
            else s.callers == map[id := Copying]
                 && s.reqs == map[id := if left == Answered then r.(done := r.done - 1) else r]
  {
    hide Run, Apply, Enabled;
    Wakes(before, s0, id, r, left);
    events, s := before + [Wake(id, left)], Apply(s0, Wake(id, left));
    LooksAgain(events, s, id, left);
    events, s := events + [DecideEnter(id)], Apply(s, DecideEnter(id));
    Decides(events, s, id, left);
    events, s := events + [DecideLeave(id)], Apply(s, DecideLeave(id));
  }

  /** Whatever the device answers, a caller can come back with exactly the bytes it wrote, as far as the
      caller's own buffer goes: the wait may end by the answer or, if that came, by the clock. */
  lemma AnswerIsReached(id: Id, respLen: nat, answer: Answer, left: Left) returns (events: seq<Event>, s: State)
    requires |answer.bytes| == respLen
    ensures Run(events) == Some(s) && id in s.callers
    ensures s.callers[id] == Returned(Success(answer.bytes[..Min(answer.len, respLen)]))
  {
    hide Run, Apply, Enabled, Min;
    events, s := Sleeps(id, respLen);
    events, s := Drained(events, s, id, respLen, answer);
    events, s := Looks(events, s, id, Req(true, 0, false, 1, answer.len, answer.bytes), left);
    Finishes(events, s, id);
    events, s := events + [Finish(id)], Apply(s, Finish(id));
  }

  lemma Finishes(events: seq<Event>, s: State, id: Id)
    requires Run(events) == Some(s) && s.callers == map[id := Copying] && id in s.reqs
    ensures Enabled(s, Finish(id)) && Run(events + [Finish(id)]) == Some(Apply(s, Finish(id)))
    ensures var r := s.reqs[id];
            Apply(s, Finish(id)).callers == map[id := Returned(Success(r.data[..Min(r.written, |r.data|)]))]
  {
    hide Run;
    OneMore(events, s, Finish(id));
  }

  /** A queue that is full refuses at once, and nothing is left of the request. */
  lemma RefusalIsReached(id: Id, respLen: nat) returns (events: seq<Event>, s: State)
    ensures Run(events) == Some(s) && s.callers == map[id := Returned(NoRoom)] && s.held == {} && s.used == map[]
  {
    s := Apply(Init, SubmitFull(id, respLen));
    events := [] + [SubmitFull(id, respLen)];
    assert Run([]) == Some(Init);
    OneMore([], Init, SubmitFull(id, respLen));
  }

  /** And when the device does not answer, a caller whose time runs out is told so, and one that is
      killed is told that. */
  lemma FailureIsReached(id: Id, respLen: nat, left: Left) returns (events: seq<Event>, s: State)
    requires left != Answered
    ensures Run(events) == Some(s) && id in s.callers
    ensures s.callers[id] == Returned(if left == OutOfTime then TimedOut else Interrupted)
  {
    hide Run, Apply, Enabled;
    events, s := Sleeps(id, respLen);
    events, s := Looks(events, s, id, Req(true, 0, false, 0, 0, seq(respLen, _ => 0)), left);
  }
}
