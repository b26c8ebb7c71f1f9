/** The request goroutines of Serve (internal/mcp/server.go) and dispatch (internal/mcp/http.go): arbitrarily many of
    them, one step per critical section or channel operation. */
module Serve {
  import opened Bytes
  import opened Inflight

  const MAX_CONCURRENT: nat := 32

  /** Where a request's goroutine stands. Until its finish it is in the registry. */
  datatype Pc =
    | Starting    // about to test ctx.Err()
    | Waiting     // in the select for a semaphore slot
    | Abandoning  // cancelled before it ran: about to call finish
    | Running     // the handler
    | Handled     // the handler returned
    | Sending     // finish reported false: about to send the response
    | Releasing   // about to give the slot back
    | Ended

  /** What finish reported, and when. */
  datatype Finish = Finish(cancelled: bool, at: nat)

  /** `key` is None for a notification; `http` tells the transport. `addedAt`, `finish`, `replies` and `ran` record what
      happened. */
  datatype Goroutine = Goroutine(
    key: Option<Key>, http: bool, pc: Pc, ctxDone: bool, addedAt: nat, finish: Option<Finish>, replies: nat, ran: bool)

  datatype CancelEvent = CancelEvent(key: Key, at: nat)

  datatype State = State(
    reg: Registry<nat>, gs: seq<Goroutine>, sem: nat, clock: nat, cancels: seq<CancelEvent>)

  datatype Step =
    | Read(key: Option<Key>)      // stdio: a request or notification is read, its goroutine spawned
    | Dispatch(key: Option<Key>)  // HTTP: the same without the early test
    | CancelNotice(requestId: string, legacyId: string)
    | ParentDone(g: nat)          // HTTP: the client went away
    | CheckCtx(g: nat)
    | Acquire(g: nat)
    | GiveUp(g: nat)              // the select takes ctx.Done()
    | FinishUnrun(g: nat)
    | Handle(g: nat)
    | FinishRun(g: nat)
    | Send(g: nat)
    | Release(g: nat)

  /** The key a cancellation names: requestId, else the legacy id; none for an empty or null one. */
  function CancelKey(requestId: string, legacyId: string): Option<Key> {
    var key := if |requestId| == 0 then legacyId else requestId;
    if key == "" || key == "null" then None else Some(key)
  }

  function WithPc(s: State, g: nat, pc: Pc): State
    requires g < |s.gs|
  {
    s.(gs := s.gs[g := s.gs[g].(pc := pc)])
  }

  /** Only the stdio goroutine starts with the early test. */
  function Spawn(s: State, key: Option<Key>, pc: Pc): State {
    s.(gs := s.gs + [Goroutine(key, pc != Starting, pc, false, s.clock, None, 0, false)],
       reg := if key.Some? then s.reg.Add(key.value, |s.gs|) else s.reg)
  }

  /** The registry's cancel: marks the entries of the key and cancels their contexts. */
  function CancelAll(s: State, key: Key): State {
    s.(reg := s.reg.Cancel(key),
       gs := seq(|s.gs|, i requires 0 <= i < |s.gs| =>
         if i in s.reg.At(key) then s.gs[i].(ctxDone := true) else s.gs[i]),
       cancels := s.cancels + [CancelEvent(key, s.clock)])
  }

  /** The registry's finish for goroutine `g`, which then goes on at `pc`. */
  function DoFinish(s: State, g: nat, pc: Pc): State
    requires g < |s.gs| && s.gs[g].key.Some?
  {
    s.(reg := s.reg.Finish(s.gs[g].key.value, g),
       gs := s.gs[g := s.gs[g].(pc := pc, finish := Some(Finish(g in s.reg.cancelled, s.clock)))])
  }

  /** One step; a step that is not enabled changes nothing. */
  function Act(s: State, step: Step): State {
    match step
    case Read(key) => Spawn(s, key, Starting)
    case Dispatch(key) => Spawn(s, key, Waiting)
    case CancelNotice(requestId, legacyId) =>
      var key := CancelKey(requestId, legacyId);
      if key.Some? then CancelAll(s, key.value) else s
    case ParentDone(g) =>
      if g < |s.gs| && s.gs[g].http then s.(gs := s.gs[g := s.gs[g].(ctxDone := true)]) else s
    case CheckCtx(g) =>
      if g < |s.gs| && s.gs[g].pc == Starting
      then WithPc(s, g, if s.gs[g].ctxDone then Abandoning else Waiting) else s
    case Acquire(g) =>
      if g < |s.gs| && s.gs[g].pc == Waiting && s.sem < MAX_CONCURRENT
      then WithPc(s, g, Running).(sem := s.sem + 1) else s
    case GiveUp(g) =>
      if g < |s.gs| && s.gs[g].pc == Waiting && s.gs[g].ctxDone then WithPc(s, g, Abandoning) else s
    case FinishUnrun(g) =>
      if g < |s.gs| && s.gs[g].pc == Abandoning
      then if s.gs[g].key.Some? then DoFinish(s, g, Ended) else WithPc(s, g, Ended)
      else s
    case Handle(g) =>
      if g < |s.gs| && s.gs[g].pc == Running
      then s.(gs := s.gs[g := s.gs[g].(pc := Handled, ran := true)]) else s
    case FinishRun(g) =>
      if g < |s.gs| && s.gs[g].pc == Handled
      then if s.gs[g].key.None? then WithPc(s, g, Releasing)
           else DoFinish(s, g, if g in s.reg.cancelled then Releasing else Sending)
      else s
    case Send(g) =>
      if g < |s.gs| && s.gs[g].pc == Sending
      then s.(gs := s.gs[g := s.gs[g].(pc := Releasing, replies := s.gs[g].replies + 1)]) else s
    case Release(g) =>
      if g < |s.gs| && s.gs[g].pc == Releasing && s.sem > 0
      then WithPc(s, g, Ended).(sem := s.sem - 1) else s
  }

  function Next(s: State, step: Step): State {
    Act(s, step).(clock := s.clock + 1)
  }

  const INITIAL := State(Registry(map[], {}), [], 0, 0, [])

  function Run(steps: seq<Step>): State {
    if steps == [] then INITIAL else Next(Run(steps[..|steps| - 1]), steps[|steps| - 1])
  }

  // ---- Invariants ----

  predicate InRegistry(pc: Pc) {
    pc.Starting? || pc.Waiting? || pc.Abandoning? || pc.Running? || pc.Handled?
  }

  predicate HoldsSlot(pc: Pc) {
    pc.Running? || pc.Handled? || pc.Sending? || pc.Releasing?
  }

  ghost function Holders(s: State): set<nat> {
    set g: nat | g < |s.gs| && HoldsSlot(s.gs[g].pc)
  }

  /** A cancellation of `key` was handled strictly between two moments. */
  ghost predicate CancelledBetween(cancels: seq<CancelEvent>, key: Key, from: nat, to: nat) {
    exists i :: 0 <= i < |cancels| && cancels[i].key == key && from < cancels[i].at < to
  }

  ghost predicate RegistryOk(s: State) {
    && (forall key :: key in s.reg.entries ==> s.reg.entries[key] != [] && NoDuplicates(s.reg.entries[key]))
    && (forall key, g: nat {:trigger g in s.reg.entries[key]} :: key in s.reg.entries && g in s.reg.entries[key] ==>
          g < |s.gs| && s.gs[g].key == Some(key) && InRegistry(s.gs[g].pc))
    && (forall g :: 0 <= g < |s.gs| && s.gs[g].key.Some? && InRegistry(s.gs[g].pc) ==>
          s.gs[g].key.value in s.reg.entries && g in s.reg.entries[s.gs[g].key.value])
    && (forall g: nat :: g in s.reg.cancelled ==> g < |s.gs|)
  }

  ghost predicate SemaphoreOk(s: State) {
    s.sem == |Holders(s)| <= MAX_CONCURRENT
  }

  ghost predicate GoroutineOk(s: State, g: nat)
    requires g < |s.gs|
  {
    BookkeepingOk(s, g) && UnrunOk(s, g)
  }

  /** The state of one goroutine's bookkeeping. */
  ghost predicate BookkeepingOk(s: State, g: nat)
    requires g < |s.gs|
  {
    var t := s.gs[g];
    && t.addedAt < s.clock
    && (t.key.None? ==> t.finish.None? && t.replies == 0 && t.pc != Sending)
    && (t.key.Some? && InRegistry(t.pc) ==>
          && t.finish.None? && t.replies == 0
          && (g in s.reg.cancelled ==> t.ctxDone)
          && (g in s.reg.cancelled <==> CancelledBetween(s.cancels, t.key.value, t.addedAt, s.clock)))
    && (t.key.Some? && !InRegistry(t.pc) ==>
          && t.finish.Some? && t.finish.value.at < s.clock
          && (t.finish.value.cancelled <==> CancelledBetween(s.cancels, t.key.value, t.addedAt, t.finish.value.at))
          && (t.pc == Sending ==> !t.finish.value.cancelled && t.replies == 0)
          && t.replies <= 1
          && (t.replies == 1 ==> !t.finish.value.cancelled && t.ran)
          && (t.ran && t.pc != Sending ==> (t.replies == 1 <==> !t.finish.value.cancelled)))
    && (t.pc.Starting? || t.pc.Waiting? || t.pc.Abandoning? ==> !t.ran)
    && (t.pc.Handled? || t.pc.Sending? || t.pc.Releasing? ==> t.ran)
  }

  /** A handler is left out only when the context is done, which over stdio takes a cancellation of the request. */
  ghost predicate UnrunOk(s: State, g: nat)
    requires g < |s.gs|
  {
    var t := s.gs[g];
    && (t.pc.Abandoning? || (t.pc.Ended? && !t.ran) ==> t.ctxDone)
    && (!t.http && t.ctxDone ==> t.key.Some? && (InRegistry(t.pc) ==> g in s.reg.cancelled))
    && (!t.http && t.pc.Ended? && !t.ran ==> t.finish.Some? && t.finish.value.cancelled)
  }

  ghost predicate Inv(s: State) {
    && RegistryOk(s)
    && SemaphoreOk(s)
    && (forall i :: 0 <= i < |s.cancels| ==> s.cancels[i].at < s.clock)
    && (forall g :: 0 <= g < |s.gs| ==> GoroutineOk(s, g))
  }

  /** Later cancellations do not reach back. */
  lemma CancelledBetweenSnoc(cancels: seq<CancelEvent>, c: CancelEvent, key: Key, from: nat, to: nat)
    ensures CancelledBetween(cancels + [c], key, from, to)
       <==> CancelledBetween(cancels, key, from, to) || (c.key == key && from < c.at < to)
  {
    var more := cancels + [c];
    if CancelledBetween(cancels, key, from, to) {
      var i :| 0 <= i < |cancels| && cancels[i].key == key && from < cancels[i].at < to;
      assert more[i] == cancels[i];
    }
    assert more[|cancels|] == c;
  }

  lemma RegisteredAt(s: State, key: Key)
    requires RegistryOk(s)
    ensures NoDuplicates(s.reg.At(key))
    ensures forall g: nat :: g in s.reg.At(key) ==> g < |s.gs| && s.gs[g].key == Some(key) && InRegistry(s.gs[g].pc)
  {
    if key in s.reg.entries {
      assert s.reg.At(key) == s.reg.entries[key];
    } else {
      assert s.reg.At(key) == [];
    }
  }

  lemma SpawnRegistry(s: State, key: Option<Key>, pc: Pc)
    requires RegistryOk(s) && InRegistry(pc)
    ensures RegistryOk(Spawn(s, key, pc))
  {
    var s' := Spawn(s, key, pc);
    if key.Some? {
      var es := s.reg.At(key.value);
      RegisteredAt(s, key.value);
      assert forall g: nat :: g in es + [|s.gs|] <==> g in es || g == |s.gs|;
      assert forall g :: 0 <= g < |s.gs| ==> s'.gs[g] == s.gs[g];
      assert |s.gs| !in es;
      assert NoDuplicates(es + [|s.gs|]) by {
        forall i, j | 0 <= i < j < |es + [|s.gs|]|
          ensures (es + [|s.gs|])[i] != (es + [|s.gs|])[j]
        {
          assert es[i] in es;
        }
      }
    }
  }

  lemma CancelRegistry(s: State, key: Key)
    requires RegistryOk(s)
    ensures RegistryOk(CancelAll(s, key))
  {
    var s' := CancelAll(s, key);
    assert forall g :: 0 <= g < |s.gs| ==> s'.gs[g].key == s.gs[g].key && s'.gs[g].pc == s.gs[g].pc;
    RegisteredAt(s, key);
  }

  lemma SameRegistry(s: State, s': State)
    requires RegistryOk(s) && s'.reg == s.reg && |s'.gs| == |s.gs|
    requires forall g :: 0 <= g < |s.gs| ==>
               s'.gs[g].key == s.gs[g].key && InRegistry(s'.gs[g].pc) == InRegistry(s.gs[g].pc)
    ensures RegistryOk(s')
  {
    forall g | 0 <= g < |s'.gs| && s'.gs[g].key.Some? && InRegistry(s'.gs[g].pc)
      ensures s'.gs[g].key.value in s'.reg.entries && g in s'.reg.entries[s'.gs[g].key.value]
    {
      assert s.gs[g].key == s'.gs[g].key;
    }
  }

  lemma FinishRegistry(s: State, g: nat, pc: Pc)
    requires RegistryOk(s) && g < |s.gs| && s.gs[g].key.Some? && InRegistry(s.gs[g].pc) && !InRegistry(pc)
    ensures RegistryOk(DoFinish(s, g, pc))
  {
    var key := s.gs[g].key.value;
    WithoutRemoves(s.reg.At(key), g);
    var s' := DoFinish(s, g, pc);
    forall h | 0 <= h < |s'.gs| && s'.gs[h].key.Some? && InRegistry(s'.gs[h].pc)
      ensures s'.gs[h].key.value in s'.reg.entries && h in s'.reg.entries[s'.gs[h].key.value]
    {
      assert h in s.reg.entries[s.gs[h].key.value];
      if s.gs[h].key.value == key {
        assert h in Without(s.reg.At(key), g);
      }
    }
  }

  lemma StepRegistry(s: State, step: Step)
    requires RegistryOk(s)
    ensures RegistryOk(Next(s, step))
  {
    match step
    case Read(key) => SpawnRegistry(s, key, Starting);
    case Dispatch(key) => SpawnRegistry(s, key, Waiting);
    case CancelNotice(requestId, legacyId) =>
      if CancelKey(requestId, legacyId).Some? {
        CancelRegistry(s, CancelKey(requestId, legacyId).value);
      }
    case FinishUnrun(g) =>
      if g < |s.gs| && s.gs[g].pc == Abandoning {
        StepFinish(s, g, Ended);
      }
    case FinishRun(g) =>
      if g < |s.gs| && s.gs[g].pc == Handled {
        StepFinish(s, g, if s.gs[g].key.None? || g in s.reg.cancelled then Releasing else Sending);
      }
    case _ => StepKeepsRegistry(s, step);
  }

  lemma StepKeepsRegistry(s: State, step: Step)
    requires RegistryOk(s)
    requires Moves(step)
    ensures RegistryOk(Next(s, step))
  {
    SameRegistry(s, Next(s, step));
  }

  lemma StepFinish(s: State, g: nat, pc: Pc)
    requires RegistryOk(s) && g < |s.gs| && InRegistry(s.gs[g].pc) && !InRegistry(pc)
    ensures RegistryOk(if s.gs[g].key.Some? then DoFinish(s, g, pc) else WithPc(s, g, pc))
  {
    if s.gs[g].key.Some? {
      FinishRegistry(s, g, pc);
    } else {
      var s' := WithPc(s, g, pc);
      assert forall h :: 0 <= h < |s.gs| && h != g ==> s'.gs[h] == s.gs[h];
      assert s'.gs[g].key.None?;
      forall key, h: nat | key in s'.reg.entries && h in s'.reg.entries[key]
        ensures h < |s'.gs| && s'.gs[h].key == Some(key) && InRegistry(s'.gs[h].pc)
      {
        assert h != g;
      }
    }
  }

  lemma SameHolders(s: State, s': State)
    requires |s.gs| <= |s'.gs|
    requires forall g :: 0 <= g < |s.gs| ==> HoldsSlot(s'.gs[g].pc) == HoldsSlot(s.gs[g].pc)
    requires forall g :: |s.gs| <= g < |s'.gs| ==> !HoldsSlot(s'.gs[g].pc)
    ensures Holders(s') == Holders(s)
  {}

  lemma StepSemaphore(s: State, step: Step)
    requires SemaphoreOk(s)
    ensures SemaphoreOk(Next(s, step))
  {
    if step.Acquire? {
      SlotTaken(s, step.g);
    } else if step.Release? {
      SlotReturned(s, step.g);
    } else {
      SlotsKept(s, step);
    }
  }

  lemma SlotTaken(s: State, g: nat)
    requires SemaphoreOk(s)
    ensures SemaphoreOk(Next(s, Acquire(g)))
  {
    if g < |s.gs| && s.gs[g].pc == Waiting && s.sem < MAX_CONCURRENT {
      assert Holders(Next(s, Acquire(g))) == Holders(s) + {g};
    } else {
      SameHolders(s, Next(s, Acquire(g)));
    }
  }

  lemma SlotReturned(s: State, g: nat)
    requires SemaphoreOk(s)
    ensures SemaphoreOk(Next(s, Release(g)))
  {
    if g < |s.gs| && s.gs[g].pc == Releasing && s.sem > 0 {
      assert Holders(Next(s, Release(g))) == Holders(s) - {g};
    } else {
      SameHolders(s, Next(s, Release(g)));
    }
  }

  lemma SlotsKept(s: State, step: Step)
    requires SemaphoreOk(s) && !step.Acquire? && !step.Release?
    ensures SemaphoreOk(Next(s, step))
  {
    SameHolders(s, Next(s, step));
  }

  lemma Untouched(s: State, s': State, g: nat)
    requires Inv(s) && g < |s.gs| <= |s'.gs| && s'.gs[g] == s.gs[g]
    requires s'.clock == s.clock + 1 && s'.cancels == s.cancels && s'.reg.cancelled == s.reg.cancelled
    ensures GoroutineOk(s', g)
  {
    assert GoroutineOk(s, g);
    if s.gs[g].key.Some? {
      TimePasses(s, s.gs[g].key.value, s.gs[g].addedAt);
    }
  }

  /** The goroutine that calls finish. */
  lemma FinisherOk(s: State, g: nat, pc: Pc)
    requires Inv(s) && g < |s.gs| && s.gs[g].key.Some?
    requires (s.gs[g].pc == Abandoning && pc == Ended)
          || (s.gs[g].pc == Handled && pc == if g in s.reg.cancelled then Releasing else Sending)
    ensures GoroutineOk(DoFinish(s, g, pc).(clock := s.clock + 1), g)
  {
    assert GoroutineOk(s, g);
    TimePasses(s, s.gs[g].key.value, s.gs[g].addedAt);
  }

  predicate Moves(step: Step) {
    step.ParentDone? || step.CheckCtx? || step.Acquire? || step.GiveUp? || step.Handle? || step.Send? || step.Release?
  }

  /** A goroutine that moves on without touching the registry. */
  lemma MoverOk(s: State, step: Step, g: nat)
    requires Inv(s) && g < |s.gs| && Next(s, step).gs[g] != s.gs[g] && Moves(step)
    ensures GoroutineOk(Next(s, step), g)
  {
    assert GoroutineOk(s, g);
    MoverUnrunOk(s, step, g);
    if s.gs[g].key.Some? {
      TimePasses(s, s.gs[g].key.value, s.gs[g].addedAt);
      RequestMoves(s, step, g);
    } else {
      NotificationMoves(s, step, g);
    }
  }

  lemma MoverUnrunOk(s: State, step: Step, g: nat)
    requires g < |s.gs| && BookkeepingOk(s, g) && UnrunOk(s, g) && Next(s, step).gs[g] != s.gs[g] && Moves(step)
    ensures UnrunOk(Next(s, step), g)
  {}

  lemma NotificationMoves(s: State, step: Step, g: nat)
    requires g < |s.gs| && BookkeepingOk(s, g) && s.gs[g].key.None? && Next(s, step).gs[g] != s.gs[g] && Moves(step)
    ensures BookkeepingOk(Next(s, step), g)
  {}

  lemma RequestMoves(s: State, step: Step, g: nat)
    requires g < |s.gs| && BookkeepingOk(s, g) && s.gs[g].key.Some? && Next(s, step).gs[g] != s.gs[g] && Moves(step)
    requires var t := s.gs[g];
             CancelledBetween(s.cancels, t.key.value, t.addedAt, s.clock + 1)
             <==> CancelledBetween(s.cancels, t.key.value, t.addedAt, s.clock)
    ensures BookkeepingOk(Next(s, step), g)
  {}

  lemma StepOther(s: State, step: Step, g: nat)
    requires Inv(s) && g < |s.gs| && !step.CancelNotice?
    ensures GoroutineOk(Next(s, step), g)
  {
    if Next(s, step).gs[g] == s.gs[g] {
      Untouched(s, Next(s, step), g);
    } else if step.FinishUnrun? {
      if s.gs[g].key.Some? {
        FinisherOk(s, g, Ended);
      } else {
        assert GoroutineOk(s, g);
      }
    } else if step.FinishRun? {
      if s.gs[g].key.Some? {
        FinisherOk(s, g, if g in s.reg.cancelled then Releasing else Sending);
      } else {
        assert GoroutineOk(s, g);
      }
    } else {
      MoverOk(s, step, g);
    }
  }

  lemma StepCancel(s: State, key: Key, g: nat)
    requires Inv(s) && g < |s.gs|
    ensures GoroutineOk(CancelAll(s, key).(clock := s.clock + 1), g)
  {
    var s' := CancelAll(s, key).(clock := s.clock + 1);
    var t := s.gs[g];
    assert GoroutineOk(s, g);
    assert s'.gs[g] == t.(ctxDone := s'.gs[g].ctxDone);
    if t.key.Some? {
      var e := CancelEvent(key, s.clock);
      CancelledBetweenSnoc(s.cancels, e, t.key.value, t.addedAt, s.clock + 1);
      TimePasses(s, t.key.value, t.addedAt);
      if t.finish.Some? {
        CancelledBetweenSnoc(s.cancels, e, t.key.value, t.addedAt, t.finish.value.at);
      }
    }
  }

  lemma StepGoroutine(s: State, step: Step, g: nat)
    requires Inv(s) && g < |s.gs|
    ensures GoroutineOk(Next(s, step), g)
  {
    match step
    case CancelNotice(requestId, legacyId) =>
      var key := CancelKey(requestId, legacyId);
      if key.Some? {
        StepCancel(s, key.value, g);
      } else {
        Untouched(s, Next(s, step), g);
      }
    case _ => StepOther(s, step, g);
  }

  /** Nothing has happened at the present moment yet. */
  lemma TimePasses(s: State, key: Key, from: nat)
    requires forall i :: 0 <= i < |s.cancels| ==> s.cancels[i].at < s.clock
    ensures CancelledBetween(s.cancels, key, from, s.clock + 1) <==> CancelledBetween(s.cancels, key, from, s.clock)
  {}

  lemma NewcomerOk(s: State, step: Step)
    requires Inv(s) && |s.gs| < |Next(s, step).gs|
    ensures |Next(s, step).gs| == |s.gs| + 1 && GoroutineOk(Next(s, step), |s.gs|)
  {
    assert |s.gs| !in s.reg.cancelled;
  }

  lemma StepGoroutines(s: State, step: Step)
    requires Inv(s)
    ensures forall g :: 0 <= g < |Next(s, step).gs| ==> GoroutineOk(Next(s, step), g)
  {
    var s' := Next(s, step);
    if |s.gs| < |s'.gs| {
      NewcomerOk(s, step);
    }
    forall g | 0 <= g < |s'.gs|
      ensures GoroutineOk(s', g)
    {
      if g < |s.gs| {
        StepGoroutine(s, step, g);
      }
    }
  }

  lemma StepClock(s: State, step: Step)
    requires forall i :: 0 <= i < |s.cancels| ==> s.cancels[i].at < s.clock
    ensures forall i :: 0 <= i < |Next(s, step).cancels| ==> Next(s, step).cancels[i].at < Next(s, step).clock
  {}

  lemma StepKeepsInv(s: State, step: Step)
    requires Inv(s)
    ensures Inv(Next(s, step))
  {
    StepRegistry(s, step);
    StepSemaphore(s, step);
    StepClock(s, step);
    StepGoroutines(s, step);
  }

  lemma {:induction false} RunKeepsInv(steps: seq<Step>)
    ensures Inv(Run(steps))
  {
    if steps == [] {
      assert Holders(INITIAL) == {};
    } else {
      RunKeepsInv(steps[..|steps| - 1]);
      StepKeepsInv(Run(steps[..|steps| - 1]), steps[|steps| - 1]);
    }
  }

  // ---- What every run guarantees ----

  /** Cancellation linearises with completion: finish reports true exactly when a cancellation of the request's key was
      handled after the request was added and before it finished, however often the id is reused. A request gets at most
      one response, none when cancelled, and only if its handler ran; a notification gets none. */
  lemma CancellationLinearises(steps: seq<Step>, g: nat)
    requires g < |Run(steps).gs|
    ensures var s := Run(steps);
            var t := s.gs[g];
            && (t.finish.Some? ==>
                  && t.key.Some?
                  && (t.finish.value.cancelled <==>
                        CancelledBetween(s.cancels, t.key.value, t.addedAt, t.finish.value.at)))
            && t.replies <= 1
            && (t.replies == 1 ==> t.ran && t.finish.Some? && !t.finish.value.cancelled)
            && (t.key.None? ==> t.replies == 0)
  {
    RunKeepsInv(steps);
    assert GoroutineOk(Run(steps), g);
  }

  /** A request cancelled while in flight has its context done, so its handler or its wait for a slot is told. */
  lemma CancellationReachesTheContext(steps: seq<Step>, g: nat)
    requires g < |Run(steps).gs| && Run(steps).gs[g].key.Some? && InRegistry(Run(steps).gs[g].pc)
    ensures var s := Run(steps);
            CancelledBetween(s.cancels, s.gs[g].key.value, s.gs[g].addedAt, s.clock) ==> s.gs[g].ctxDone
  {
    RunKeepsInv(steps);
    assert GoroutineOk(Run(steps), g);
  }

  /** At most 32 handlers run at once, and the slots taken are exactly those of the goroutines that hold one. */
  lemma SlotsAreBounded(steps: seq<Step>)
    ensures Run(steps).sem == |Holders(Run(steps))| <= MAX_CONCURRENT
  {
    RunKeepsInv(steps);
  }

  lemma RegisteredWitness(s: State, key: Key) returns (g: nat)
    requires RegistryOk(s) && key in s.reg.entries
    ensures g < |s.gs| && InRegistry(s.gs[g].pc)
  {
    g := s.reg.entries[key][0];
    assert g in s.reg.entries[key];
  }

  /** Once every goroutine has ended, registry and semaphore are empty, and an identified request whose handler ran has
      been answered exactly if it was not cancelled. */
  lemma NothingIsLeftBehind(steps: seq<Step>)
    requires forall g :: 0 <= g < |Run(steps).gs| ==> Run(steps).gs[g].pc == Ended
    ensures Run(steps).reg.entries == map[] && Run(steps).sem == 0
    ensures forall g :: 0 <= g < |Run(steps).gs| && Run(steps).gs[g].key.Some? && Run(steps).gs[g].ran ==>
              && Run(steps).gs[g].finish.Some?
              && (Run(steps).gs[g].replies == 1 <==> !Run(steps).gs[g].finish.value.cancelled)
  {
    var s := Run(steps);
    RunKeepsInv(steps);
    forall key | key in s.reg.entries
      ensures false
    {
      var g := RegisteredWitness(s, key);
    }
    assert s.reg.entries.Keys == {};
    assert Holders(s) == {};
    forall g | 0 <= g < |s.gs| && s.gs[g].key.Some? && s.gs[g].ran
      ensures s.gs[g].finish.Some? && (s.gs[g].replies == 1 <==> !s.gs[g].finish.value.cancelled)
    {
      assert GoroutineOk(s, g) && s.gs[g].pc == Ended;
    }
  }

  /** Over stdio every request gets exactly one response by the time its goroutine has ended, unless it was cancelled;
      over HTTP it may also go unanswered because its client went away before it got a slot. */
  lemma EndedRequestsAreAnswered(steps: seq<Step>, g: nat)
    requires g < |Run(steps).gs| && Run(steps).gs[g].key.Some? && Run(steps).gs[g].pc == Ended
    ensures var s := Run(steps);
            var t := s.gs[g];
            && t.finish.Some?
            && t.replies == (if t.finish.value.cancelled || !t.ran then 0 else 1)
            && (t.finish.value.cancelled <==> CancelledBetween(s.cancels, t.key.value, t.addedAt, t.finish.value.at))
            && (!t.http ==> t.replies == if t.finish.value.cancelled then 0 else 1)
            && (!t.ran ==> t.ctxDone)
  {
    RunKeepsInv(steps);
    assert GoroutineOk(Run(steps), g);
  }

  // ---- When the handler of a cancelled request may still run ----

  /** A goroutine whose handler can no longer start. */
  predicate NeverRuns(t: Goroutine) {
    !t.ran && ((t.pc == Starting && t.ctxDone) || t.pc == Abandoning || t.pc == Ended)
  }

  function RunFrom(s: State, steps: seq<Step>): State {
    if steps == [] then s else Next(RunFrom(s, steps[..|steps| - 1]), steps[|steps| - 1])
  }

  lemma {:induction false} RunGoesOn(steps: seq<Step>, more: seq<Step>)
    ensures Run(steps + more) == RunFrom(Run(steps), more)
  {
    if more == [] {
      assert steps + more == steps;
    } else {
      var m := |more| - 1;
      RunGoesOn(steps, more[..m]);
      assert (steps + more)[..|steps + more| - 1] == steps + more[..m];
    }
  }

  lemma {:induction false} RunFromConcat(s: State, a: seq<Step>, b: seq<Step>)
    ensures RunFrom(s, a + b) == RunFrom(RunFrom(s, a), b)
  {
    if b == [] {
      assert a + b == a;
    } else {
      var m := |b| - 1;
      RunFromConcat(s, a, b[..m]);
      assert (a + b)[..|a + b| - 1] == a + b[..m];
    }
  }

  lemma StepNeverRuns(s: State, step: Step, g: nat)
    requires g < |s.gs| && NeverRuns(s.gs[g])
    ensures g < |Next(s, step).gs| && NeverRuns(Next(s, step).gs[g])
  {}

  lemma {:induction false} StaysNeverRuns(s: State, more: seq<Step>, g: nat)
    requires g < |s.gs| && NeverRuns(s.gs[g])
    ensures g < |RunFrom(s, more).gs| && NeverRuns(RunFrom(s, more).gs[g])
  {
    if more != [] {
      StaysNeverRuns(s, more[..|more| - 1], g);
      StepNeverRuns(RunFrom(s, more[..|more| - 1]), more[|more| - 1], g);
    }
  }

  /** Whatever state its goroutine is in, a holder gives its slot back in these steps. */
  function Drain(k: nat): seq<Step> {
    [Handle(k), FinishRun(k), Send(k), Release(k)]
  }

  lemma FourSteps(s: State, a: Step, b: Step, c: Step, d: Step)
    ensures RunFrom(s, [a, b, c, d]) == Next(Next(Next(Next(s, a), b), c), d)
  {
    var all := [a, b, c, d];
    assert all[..3] == [a, b, c] && all[..3][..2] == [a, b] && [a, b, c][..2] == [a, b] && [a, b][..1] == [a]
           && [a][..0] == [];
    assert RunFrom(s, [a]) == Next(s, a);
    assert RunFrom(s, [a, b]) == Next(Next(s, a), b);
    assert RunFrom(s, [a, b, c]) == Next(Next(Next(s, a), b), c);
  }

  /** A step of another goroutine that only releases what it holds. */
  lemma OthersStep(s: State, step: Step, k: nat, g: nat)
    requires k < |s.gs| && g < |s.gs| && g != k && step in Drain(k)
    ensures |Next(s, step).gs| == |s.gs| && Next(s, step).gs[g] == s.gs[g]
    ensures step != Release(k) ==> Next(s, step).sem == s.sem
  {}

  /** Nothing but its slot changes for the others. */
  predicate SlotFreed(s: State, s': State, g: nat)
    requires g < |s.gs|
  {
    |s'.gs| == |s.gs| && s'.gs[g] == s.gs[g] && s'.sem == s.sem - 1
  }

  lemma ReleaserDrains(s: State, k: nat, g: nat)
    requires k < |s.gs| && g < |s.gs| && g != k && 0 < s.sem && s.gs[k].pc == Releasing
    ensures SlotFreed(s, Next(s, Release(k)), g)
  {}

  lemma SenderDrains(s: State, k: nat, g: nat)
    requires k < |s.gs| && g < |s.gs| && g != k && 0 < s.sem && (s.gs[k].pc == Sending || s.gs[k].pc == Releasing)
    ensures SlotFreed(s, Next(Next(s, Send(k)), Release(k)), g)
  {
    OthersStep(s, Send(k), k, g);
    ReleaserDrains(Next(s, Send(k)), k, g);
  }

  lemma FinisherDrains(s: State, k: nat, g: nat)
    requires k < |s.gs| && g < |s.gs| && g != k && 0 < s.sem && HoldsSlot(s.gs[k].pc) && s.gs[k].pc != Running
    ensures SlotFreed(s, Next(Next(Next(s, FinishRun(k)), Send(k)), Release(k)), g)
  {
    OthersStep(s, FinishRun(k), k, g);
    SenderDrains(Next(s, FinishRun(k)), k, g);
  }

  lemma HolderDrains(s: State, k: nat, g: nat)
    requires k < |s.gs| && g < |s.gs| && g != k && 0 < s.sem && HoldsSlot(s.gs[k].pc)
    ensures SlotFreed(s, RunFrom(s, Drain(k)), g)
  {
    FourSteps(s, Handle(k), FinishRun(k), Send(k), Release(k));
    OthersStep(s, Handle(k), k, g);
    FinisherDrains(Next(s, Handle(k)), k, g);
  }

  predicate Ran(s: State, g: nat) {
    g < |s.gs| && s.gs[g].ran
  }

  lemma WaiterRuns(s: State, g: nat)
    requires g < |s.gs| && s.gs[g].pc == Waiting && s.sem < MAX_CONCURRENT
    ensures Ran(Next(Next(s, Acquire(g)), Handle(g)), g)
  {}

  lemma ThreeSteps(s: State, a: Step, b: Step, c: Step)
    ensures RunFrom(s, [a, b, c]) == Next(Next(Next(s, a), b), c)
  {
    assert [a, b, c][..2] == [a, b] && [a, b][..1] == [a] && [a][..0] == [];
    assert RunFrom(s, [a]) == Next(s, a);
    assert RunFrom(s, [a, b]) == Next(Next(s, a), b);
  }

  /** The rest of the way to the handler, given a free slot. */
  lemma StartRuns(s: State, g: nat)
    requires g < |s.gs| && (s.gs[g].pc == Waiting || (s.gs[g].pc == Starting && !s.gs[g].ctxDone))
             && s.sem < MAX_CONCURRENT
    ensures Ran(Next(Next(Next(s, CheckCtx(g)), Acquire(g)), Handle(g)), g)
  {
    WaiterRuns(Next(s, CheckCtx(g)), g);
  }

  lemma StartReaches(s: State, g: nat)
    requires Ran(Next(Next(Next(s, CheckCtx(g)), Acquire(g)), Handle(g)), g)
    ensures Ran(RunFrom(s, [CheckCtx(g), Acquire(g), Handle(g)]), g)
  {
    ThreeSteps(s, CheckCtx(g), Acquire(g), Handle(g));
  }

  /** The steps that bring a goroutine to its handler. */
  lemma WayToTheHandler(s: State, g: nat) returns (more: seq<Step>)
    requires SemaphoreOk(s) && g < |s.gs| && !s.gs[g].ran && !NeverRuns(s.gs[g])
    requires s.gs[g].pc.Starting? || s.gs[g].pc.Waiting? || s.gs[g].pc.Running?
    ensures Ran(RunFrom(s, more), g)
  {
    var last := [CheckCtx(g), Acquire(g), Handle(g)];
    if s.gs[g].pc == Running {
      more := [Handle(g)];
      assert more[..0] == [] && RunFrom(s, more) == Next(s, Handle(g));
    } else if s.sem < MAX_CONCURRENT {
      more := last;
      StartRuns(s, g);
      StartReaches(s, g);
    } else {
      assert Holders(s) != {};
      var k :| k in Holders(s);
      HolderDrains(s, k, g);
      StartRuns(RunFrom(s, Drain(k)), g);
      StartReaches(RunFrom(s, Drain(k)), g);
      more := Drain(k) + last;
      RunFromConcat(s, Drain(k), last);
    }
  }

  /** In some continuation of the run the handler of `g` has run. */
  ghost predicate CanRun(steps: seq<Step>, g: nat) {
    exists more: seq<Step> :: Ran(Run(steps + more), g)
  }

  /** From every reachable state: a handler that has not run can still run exactly if its goroutine has neither given
      up nor ended, nor is about to find its context done at the early test. */
  lemma HandlersCanRunExactlyWhen(steps: seq<Step>, g: nat)
    requires g < |Run(steps).gs| && !Run(steps).gs[g].ran
    ensures CanRun(steps, g) <==> !NeverRuns(Run(steps).gs[g])
  {
    RunKeepsInv(steps);
    var s := Run(steps);
    assert GoroutineOk(s, g);
    if NeverRuns(s.gs[g]) {
      forall more: seq<Step>
        ensures !Ran(Run(steps + more), g)
      {
        RunGoesOn(steps, more);
        StaysNeverRuns(s, more, g);
      }
    } else {
      var more := WayToTheHandler(s, g);
      RunGoesOn(steps, more);
    }
  }

  /** On either transport a request that is cancelled before its handler has run can still run exactly if it is in the
      select for a slot, which may take the slot although the context is done too, or has a slot already. */
  lemma CancelledRequestsMayRunExactlyWhen(steps: seq<Step>, g: nat)
    requires g < |Run(steps).gs| && !Run(steps).gs[g].ran
    requires var s := Run(steps);
             && s.gs[g].key.Some? && InRegistry(s.gs[g].pc)
             && CancelledBetween(s.cancels, s.gs[g].key.value, s.gs[g].addedAt, s.clock)
    ensures CanRun(steps, g) <==> Run(steps).gs[g].pc == Waiting || Run(steps).gs[g].pc == Running
  {
    RunKeepsInv(steps);
    assert GoroutineOk(Run(steps), g);
    HandlersCanRunExactlyWhen(steps, g);
  }

  /** A stdio request cancelled before its goroutine has first looked never runs its handler. */
  lemma EarlyCancelNeverRuns(steps: seq<Step>, more: seq<Step>, g: nat)
    requires g < |Run(steps).gs|
    requires var s := Run(steps);
             && s.gs[g].key.Some? && s.gs[g].pc == Starting
             && CancelledBetween(s.cancels, s.gs[g].key.value, s.gs[g].addedAt, s.clock)
    ensures !Ran(Run(steps + more), g)
  {
    RunKeepsInv(steps);
    assert GoroutineOk(Run(steps), g);
    RunGoesOn(steps, more);
    StaysNeverRuns(Run(steps), more, g);
  }

  /** It happens: with a free slot, a request cancelled in the select runs all the same, over HTTP as over stdio. */
  lemma SelectMayRunCancelled(key: Key, http: bool)
    requires key != "" && key != "null"
    ensures var s := Next(Next(Next(Arrived(key, http), CancelNotice(key, "")), Acquire(0)), Handle(0));
            Ran(s, 0) && s.gs[0].ctxDone && 0 in s.reg.cancelled
  {
    var arrived := Arrived(key, http);
    assert |arrived.gs| == 1 && arrived.gs[0].pc == Waiting && arrived.sem == 0 && arrived.reg.At(key) == [0];
    CancelledWaiterRuns(arrived, key);
  }

  /** One request in the select. */
  function Arrived(key: Key, http: bool): State {
    if http then Next(INITIAL, Dispatch(Some(key))) else Next(Next(INITIAL, Read(Some(key))), CheckCtx(0))
  }

  lemma CancelledWaiterRuns(s: State, key: Key)
    requires key != "" && key != "null" && |s.gs| == 1 && s.gs[0].pc == Waiting && s.sem == 0 && s.reg.At(key) == [0]
    ensures var s' := Next(Next(Next(s, CancelNotice(key, "")), Acquire(0)), Handle(0));
            Ran(s', 0) && s'.gs[0].ctxDone && 0 in s'.reg.cancelled
  {
    var s1 := Next(s, CancelNotice(key, ""));
    assert |s1.gs| == 1 && s1.gs[0].ctxDone && s1.gs[0].pc == Waiting && s1.sem == 0;
    WaiterRuns(s1, 0);
  }
}
