/** The per-session operation lock of internal/session/session.go: lazily created channels of capacity 1, and any number
    of tool-call handlers that take and release them. One step per critical section or channel operation. */
module SessionLocks {
  import opened Bytes

  type Id = string
  type Chan = nat

  datatype Pc =
    | Arriving             // about to call sessionLockChan
    | Queued(ch: Chan)     // in LockSession's select on the channel
    | Holding              // the send succeeded
    | Unlocking(ch: Chan)  // UnlockSession has looked the channel up, its receive is next
    | Released
    | GaveUp               // the context was done while queued

  datatype Handler = Handler(id: Id, pc: Pc)

  /** `full` are the channels with a token in them, with a record of whose send put it there; `defaulted` records that
      an UnlockSession found its channel empty. */
  datatype State = State(locks: map<Id, Chan>, made: nat, full: map<Chan, nat>, hs: seq<Handler>, defaulted: bool)

  datatype Step =
    | Arrive(id: Id)
    | LookUp(h: nat)        // sessionLockChan of LockSession
    | Acquire(h: nat)
    | CtxDone(h: nat)
    | LookUpAgain(h: nat)   // sessionLockChan of UnlockSession
    | Receive(h: nat)

  /** sessionLockChan: the channel of the id, made on first use and never removed. */
  function WithChan(s: State, id: Id): State {
    if id in s.locks then s else s.(locks := s.locks[id := s.made], made := s.made + 1)
  }

  function WithPc(s: State, h: nat, pc: Pc): State
    requires h < |s.hs|
  {
    s.(hs := s.hs[h := s.hs[h].(pc := pc)])
  }

  function Next(s: State, step: Step): State {
    match step
    case Arrive(id) => s.(hs := s.hs + [Handler(id, Arriving)])
    case LookUp(h) =>
      if h < |s.hs| && s.hs[h].pc == Arriving
      then var s' := WithChan(s, s.hs[h].id); WithPc(s', h, Queued(s'.locks[s.hs[h].id]))
      else s
    case Acquire(h) =>
      if h < |s.hs| && s.hs[h].pc.Queued? && s.hs[h].pc.ch !in s.full
      then WithPc(s, h, Holding).(full := s.full[s.hs[h].pc.ch := h])
      else s
    case CtxDone(h) =>
      if h < |s.hs| && s.hs[h].pc.Queued? then WithPc(s, h, GaveUp) else s
    case LookUpAgain(h) =>
      if h < |s.hs| && s.hs[h].pc == Holding
      then var s' := WithChan(s, s.hs[h].id); WithPc(s', h, Unlocking(s'.locks[s.hs[h].id]))
      else s
    case Receive(h) =>
      if h < |s.hs| && s.hs[h].pc.Unlocking?
      then WithPc(s, h, Released).(full := s.full - {s.hs[h].pc.ch},
                                   defaulted := s.defaulted || s.hs[h].pc.ch !in s.full)
      else s
  }

  const INITIAL := State(map[], 0, map[], [], false)

  function Run(steps: seq<Step>): State {
    if steps == [] then INITIAL else Next(Run(steps[..|steps| - 1]), steps[|steps| - 1])
  }

  /** From the successful send to the receive. */
  predicate Holds(h: Handler) {
    h.pc.Holding? || h.pc.Unlocking?
  }

  /** Channels are never shared between sessions and never replaced. */
  ghost predicate LocksOk(s: State) {
    && (forall id :: id in s.locks ==> s.locks[id] < s.made)
    && (forall id1, id2 :: id1 in s.locks && id2 in s.locks && s.locks[id1] == s.locks[id2] ==> id1 == id2)
  }

  /** Every channel a handler has looked up is the channel of its session, and a holder's token is in it. */
  ghost predicate HandlerOk(s: State, h: nat)
    requires h < |s.hs|
  {
    var t := s.hs[h];
    && (t.pc.Queued? || Holds(t) ==> t.id in s.locks)
    && (t.pc.Queued? || t.pc.Unlocking? ==> t.pc.ch == s.locks[t.id])
    && (Holds(t) ==> s.locks[t.id] in s.full && s.full[s.locks[t.id]] == h)
  }

  /** A full channel belongs to a session whose lock is held. */
  ghost predicate TokenOk(s: State, ch: Chan)
    requires ch in s.full
  {
    var h := s.full[ch];
    h < |s.hs| && Holds(s.hs[h]) && s.hs[h].id in s.locks && s.locks[s.hs[h].id] == ch
  }

  ghost predicate HandlersOk(s: State) {
    && (forall h: nat :: h < |s.hs| ==> HandlerOk(s, h))
    && (forall ch :: ch in s.full ==> TokenOk(s, ch))
  }

  ghost predicate Inv(s: State) {
    LocksOk(s) && HandlersOk(s) && !s.defaulted
  }

  lemma StepLocks(s: State, step: Step)
    requires LocksOk(s)
    ensures LocksOk(Next(s, step))
  {
    if (step.LookUp? || step.LookUpAgain?) && step.h < |s.hs| {
      ChanKeepsLocks(s, s.hs[step.h].id);
    }
  }

  lemma ChanKeepsLocks(s: State, id: Id)
    requires LocksOk(s)
    ensures LocksOk(WithChan(s, id))
  {}

  /** Looking a channel up, and any move of one handler that leaves the tokens alone. */
  lemma MoveKeepsHandlers(s: State, s': State, h: nat)
    requires HandlersOk(s) && h < |s.hs| == |s'.hs| && s'.full == s.full
    requires forall id :: id in s.locks ==> id in s'.locks && s'.locks[id] == s.locks[id]
    requires forall k: nat :: k < |s.hs| && k != h ==> s'.hs[k] == s.hs[k]
    requires HandlerOk(s', h) && s'.hs[h].id == s.hs[h].id && (Holds(s.hs[h]) ==> Holds(s'.hs[h]))
    ensures HandlersOk(s')
  {
    forall k: nat | k < |s'.hs| && k != h
      ensures HandlerOk(s', k)
    {
      assert HandlerOk(s, k);
    }
    forall ch | ch in s'.full
      ensures TokenOk(s', ch)
    {
      assert TokenOk(s, ch);
    }
  }

  lemma AcquireKeepsHandlers(s: State, h: nat)
    requires HandlersOk(s)
    ensures HandlersOk(Next(s, Acquire(h)))
  {
    var s' := Next(s, Acquire(h));
    forall k: nat | k < |s'.hs|
      ensures HandlerOk(s', k)
    {
      assert HandlerOk(s, k);
    }
    forall ch | ch in s'.full
      ensures TokenOk(s', ch)
    {
      assert ch in s.full ==> TokenOk(s, ch);
      assert h < |s.hs| ==> HandlerOk(s, h);
    }
  }

  lemma ReceiveKeepsHandlers(s: State, h: nat)
    requires HandlersOk(s)
    ensures HandlersOk(Next(s, Receive(h)))
    ensures !s.defaulted ==> !Next(s, Receive(h)).defaulted
  {
    var s' := Next(s, Receive(h));
    assert h < |s.hs| ==> HandlerOk(s, h);
    forall k: nat | k < |s'.hs|
      ensures HandlerOk(s', k)
    {
      assert HandlerOk(s, k);
    }
    forall ch | ch in s'.full
      ensures TokenOk(s', ch)
    {
      assert TokenOk(s, ch);
    }
  }

  lemma ArriveKeepsHandlers(s: State, id: Id)
    requires HandlersOk(s)
    ensures HandlersOk(Next(s, Arrive(id)))
  {
    var s' := Next(s, Arrive(id));
    forall k: nat | k < |s.hs|
      ensures HandlerOk(s', k)
    {
      assert HandlerOk(s, k);
    }
    forall ch | ch in s'.full
      ensures TokenOk(s', ch)
    {
      assert TokenOk(s, ch);
    }
  }

  lemma StepKeepsHandlers(s: State, step: Step)
    requires HandlersOk(s)
    ensures HandlersOk(Next(s, step))
    ensures !s.defaulted ==> !Next(s, step).defaulted
  {
    match step
    case Arrive(id) => ArriveKeepsHandlers(s, id);
    case Acquire(h) => AcquireKeepsHandlers(s, h);
    case Receive(h) => ReceiveKeepsHandlers(s, h);
    case _ =>
      if step.h < |s.hs| {
        assert HandlerOk(s, step.h);
        MoveKeepsHandlers(s, Next(s, step), step.h);
      }
  }

  lemma StepKeepsInv(s: State, step: Step)
    requires Inv(s)
    ensures Inv(Next(s, step))
  {
    StepLocks(s, step);
    StepKeepsHandlers(s, step);
  }

  lemma {:induction false} RunKeepsInv(steps: seq<Step>)
    ensures Inv(Run(steps))
  {
    if steps != [] {
      RunKeepsInv(steps[..|steps| - 1]);
      StepKeepsInv(Run(steps[..|steps| - 1]), steps[|steps| - 1]);
    }
  }

  // ---- What every run guarantees ----

  lemma HolderIsUnique(s: State, h: nat, k: nat)
    requires HandlersOk(s) && h < |s.hs| && k < |s.hs|
    requires s.hs[h].id == s.hs[k].id && Holds(s.hs[h]) && Holds(s.hs[k])
    ensures h == k
  {
    assert HandlerOk(s, h) && HandlerOk(s, k);
  }

  /** Mutual exclusion: two handlers that hold the lock of one session are the same handler, whatever tools they serve;
      so close_session and detach_session, which hold it around the teardown, never overlap another holder. */
  lemma MutualExclusion(steps: seq<Step>, h: nat, k: nat)
    requires h < |Run(steps).hs| && k < |Run(steps).hs| && Run(steps).hs[h].id == Run(steps).hs[k].id
    requires Holds(Run(steps).hs[h]) && Holds(Run(steps).hs[k])
    ensures h == k
  {
    RunKeepsInv(steps);
    HolderIsUnique(Run(steps), h, k);
  }

  /** The channel of a session is full exactly while some handler holds its lock. */
  lemma FullExactlyWhenHeld(steps: seq<Step>, id: Id)
    requires id in Run(steps).locks
    ensures var s := Run(steps);
            s.locks[id] in s.full <==> exists h :: 0 <= h < |s.hs| && s.hs[h].id == id && Holds(s.hs[h])
  {
    var s := Run(steps);
    RunKeepsInv(steps);
    if s.locks[id] in s.full {
      assert TokenOk(s, s.locks[id]);
    } else {
      forall h | 0 <= h < |s.hs| && s.hs[h].id == id
        ensures !Holds(s.hs[h])
      {
        assert HandlerOk(s, h);
      }
    }
  }

  /** No unlock ever finds its channel empty. */
  lemma NoUnlockDefaults(steps: seq<Step>)
    ensures !Run(steps).defaulted
  {
    RunKeepsInv(steps);
  }

  /** No waiter is ever orphaned: everyone queued on a session waits on its one channel, the same the holder will
      empty. */
  lemma WaitersShareTheChannel(steps: seq<Step>, h: nat, k: nat)
    requires h < |Run(steps).hs| && k < |Run(steps).hs| && Run(steps).hs[h].id == Run(steps).hs[k].id
    requires Run(steps).hs[h].pc.Queued?
    ensures var s := Run(steps);
            && s.hs[h].id in s.locks && s.hs[h].pc.ch == s.locks[s.hs[h].id]
            && (s.hs[k].pc.Queued? || s.hs[k].pc.Unlocking? ==> s.hs[k].pc.ch == s.hs[h].pc.ch)
  {
    RunKeepsInv(steps);
    assert HandlerOk(Run(steps), h) && HandlerOk(Run(steps), k);
  }

  /** So a queued handler can always be let in: the holder, if any, has only its own two unlock steps left to take. */
  lemma WaiterGetsIn(steps: seq<Step>, h: nat)
    requires h < |Run(steps).hs| && Run(steps).hs[h].pc.Queued?
    ensures var s := Run(steps);
            && (s.hs[h].pc.ch !in s.full ==> Next(s, Acquire(h)).hs[h].pc == Holding)
            && (s.hs[h].pc.ch in s.full ==>
                  var k := s.full[s.hs[h].pc.ch];
                  var freed := Next(Next(s, LookUpAgain(k)), Receive(k));
                  Next(freed, Acquire(h)).hs[h].pc == Holding)
  {
    var s := Run(steps);
    RunKeepsInv(steps);
    assert HandlerOk(s, h);
    if s.hs[h].pc.ch in s.full {
      assert TokenOk(s, s.hs[h].pc.ch);
      var k := s.full[s.hs[h].pc.ch];
      assert HandlerOk(s, k);
      var s1 := Next(s, LookUpAgain(k));
      assert s1.hs[k].pc == Unlocking(s.hs[h].pc.ch) && s1.hs[h] == s.hs[h];
    }
  }

  /** A handler that arrives can always queue, on the session's own channel; one that is queued can always leave when
      its context is done. Neither touches the tokens, the other handlers or the channels of other sessions. */
  lemma HandlersCanQueueAndLeave(steps: seq<Step>, h: nat)
    requires h < |Run(steps).hs|
    ensures var s := Run(steps);
            && (s.hs[h].pc == Arriving ==>
                  var s' := Next(s, LookUp(h));
                  && s'.hs[h].pc.Queued? && s'.hs[h].id in s'.locks && s'.hs[h].pc.ch == s'.locks[s'.hs[h].id]
                  && s'.full == s.full && s'.hs == s.hs[h := s'.hs[h]]
                  && forall id :: id in s.locks ==> id in s'.locks && s'.locks[id] == s.locks[id])
            && (s.hs[h].pc.Queued? ==> Next(s, CtxDone(h)) == s.(hs := s.hs[h := Handler(s.hs[h].id, GaveUp)]))
  {
    RunKeepsInv(steps);
  }

  predicate LeftTheQueue(t: Handler) {
    t.pc.GaveUp?
  }

  predicate Leaves(s: State, step: Step, h: nat) {
    step == CtxDone(h) && h < |s.hs| && s.hs[h].pc.Queued?
  }

  predicate HasLeft(steps: seq<Step>, h: nat) {
    steps != [] && (HasLeft(steps[..|steps| - 1], h) || Leaves(Run(steps[..|steps| - 1]), steps[|steps| - 1], h))
  }

  /** A handler gives up exactly if its context was done while it was queued. */
  lemma {:induction false} GivesUpExactlyWhen(steps: seq<Step>, h: nat)
    ensures h < |Run(steps).hs| && LeftTheQueue(Run(steps).hs[h]) <==> HasLeft(steps, h)
  {
    if steps != [] {
      GivesUpExactlyWhen(steps[..|steps| - 1], h);
      GivesUpStep(Run(steps[..|steps| - 1]), steps[|steps| - 1], h);
    }
  }

  lemma GivesUpStep(s: State, step: Step, h: nat)
    ensures var s' := Next(s, step);
            h < |s'.hs| && LeftTheQueue(s'.hs[h]) <==> (h < |s.hs| && LeftTheQueue(s.hs[h])) || Leaves(s, step, h)
  {}
}
