/** The runs of Serve in terms of their steps: which notice cancels which request, when a context is done, and that
    every goroutine can end (internal/mcp/server.go, internal/mcp/http.go). */
module ServeRuns {
  import opened Bytes
  import opened Inflight
  import opened Serve

  /** The step is a cancellation notice that names `key`: by its request id, or, if that is empty, by the older alias.
      The empty id and null name nothing. */
  predicate Names(step: Step, key: Key) {
    && step.CancelNotice? && key != "" && key != "null"
    && (step.requestId == key || (step.requestId == "" && step.legacyId == key))
  }

  lemma NamesIsCancelKey(step: Step, key: Key)
    requires step.CancelNotice?
    ensures CancelKey(step.requestId, step.legacyId) == Some(key) <==> Names(step, key)
  {}

  lemma {:induction false} ClockCountsSteps(steps: seq<Step>)
    ensures Run(steps).clock == |steps|
  {
    if steps != [] {
      ClockCountsSteps(steps[..|steps| - 1]);
    }
  }

  predicate Recorded(cancels: seq<CancelEvent>, key: Key, at: nat) {
    CancelEvent(key, at) in cancels
  }

  lemma RecordedStep(s: State, step: Step, key: Key, at: nat)
    ensures Recorded(Next(s, step).cancels, key, at)
       <==> Recorded(s.cancels, key, at) || (Names(step, key) && at == s.clock)
  {
    if step.CancelNotice? {
      NamesIsCancelKey(step, key);
      var named := CancelKey(step.requestId, step.legacyId);
      if named.Some? {
        assert Next(s, step).cancels == s.cancels + [CancelEvent(named.value, s.clock)];
      }
    }
  }

  /** The cancellations recorded are the notices of the run, each at its step and with the key it names. */
  lemma {:induction false} CancellationsAreNotices(steps: seq<Step>, key: Key, at: nat)
    ensures Recorded(Run(steps).cancels, key, at) <==> at < |steps| && Names(steps[at], key)
  {
    if steps != [] {
      var n := |steps| - 1;
      CancellationsAreNotices(steps[..n], key, at);
      ClockCountsSteps(steps[..n]);
      RecordedStep(Run(steps[..n]), steps[n], key, at);
    }
  }

  /** Some notice between two steps names the key. */
  ghost predicate NamedBetween(steps: seq<Step>, key: Key, from: nat, to: nat) {
    exists u: nat :: from < u < to && u < |steps| && Names(steps[u], key)
  }

  lemma BetweenIsBetween(steps: seq<Step>, key: Key, from: nat, to: nat)
    ensures CancelledBetween(Run(steps).cancels, key, from, to) <==> NamedBetween(steps, key, from, to)
  {
    var cancels := Run(steps).cancels;
    if CancelledBetween(cancels, key, from, to) {
      var i :| 0 <= i < |cancels| && cancels[i].key == key && from < cancels[i].at < to;
      assert cancels[i] == CancelEvent(key, cancels[i].at);
      CancellationsAreNotices(steps, key, cancels[i].at);
    }
    if NamedBetween(steps, key, from, to) {
      var u: nat :| from < u < to && u < |steps| && Names(steps[u], key);
      CancellationsAreNotices(steps, key, u);
      var i :| 0 <= i < |cancels| && cancels[i] == CancelEvent(key, u);
    }
  }

  // ---- Where a goroutine comes from and where it finishes ----

  /** Step `a` read the request, or took it from HTTP, and spawned goroutine `g`. */
  predicate Spawns(steps: seq<Step>, a: nat, g: nat, t: Goroutine) {
    && a < |steps| && |Run(steps[..a]).gs| == g
    && steps[a] == if t.http then Dispatch(t.key) else Read(t.key)
  }

  /** Step `f` is the finish of goroutine `g`. */
  predicate Finishes(steps: seq<Step>, f: nat, g: nat) {
    f < |steps| && (steps[f] == FinishUnrun(g) || steps[f] == FinishRun(g))
  }

  predicate Traced(steps: seq<Step>, g: nat, t: Goroutine) {
    && Spawns(steps, t.addedAt, g, t)
    && (t.finish.Some? ==> Finishes(steps, t.finish.value.at, g) && t.addedAt < t.finish.value.at)
  }

  lemma TracedOn(steps: seq<Step>, g: nat, t: Goroutine)
    requires steps != [] && Traced(steps[..|steps| - 1], g, t)
    ensures Traced(steps, g, t)
  {
    var before := steps[..|steps| - 1];
    assert before[..t.addedAt] == steps[..t.addedAt];
  }

  /** What a step changes of a goroutine that is there. */
  lemma StepTrace(s: State, step: Step, g: nat)
    requires g < |s.gs|
    ensures g < |Next(s, step).gs|
    ensures var t, t' := s.gs[g], Next(s, step).gs[g];
            && t'.key == t.key && t'.http == t.http && t'.addedAt == t.addedAt
            && (t'.finish == t.finish
                || (t'.finish.Some? && t'.finish.value.at == s.clock
                   && (step == FinishUnrun(g) || step == FinishRun(g))))
  {}

  lemma SpawnTrace(s: State, step: Step)
    requires |s.gs| < |Next(s, step).gs|
    ensures var t := Next(s, step).gs[|s.gs|];
            && |Next(s, step).gs| == |s.gs| + 1
            && t.addedAt == s.clock && t.finish.None? && step == if t.http then Dispatch(t.key) else Read(t.key)
  {}

  lemma {:induction false} EveryGoroutineIsTraced(steps: seq<Step>, g: nat)
    requires g < |Run(steps).gs|
    ensures Traced(steps, g, Run(steps).gs[g])
  {
    var n := |steps| - 1;
    var before, step := Run(steps[..n]), steps[n];
    ClockCountsSteps(steps[..n]);
    if g < |before.gs| {
      EveryGoroutineIsTraced(steps[..n], g);
      TracedOn(steps, g, before.gs[g]);
      StepTrace(before, step, g);
      assert Spawns(steps, before.gs[g].addedAt, g, Run(steps).gs[g]);
    } else {
      SpawnTrace(before, step);
    }
  }

  /** Cancellation linearises with completion, step by step: a request's finish reports true exactly if, after the step
      that read it and before the step that finished it, some notice named it, by its request id or by the older alias;
      ids may be used again at will. */
  lemma NoticesLinearise(steps: seq<Step>, g: nat)
    requires g < |Run(steps).gs| && Run(steps).gs[g].finish.Some?
    ensures var t := Run(steps).gs[g];
            && t.key.Some? && Spawns(steps, t.addedAt, g, t) && Finishes(steps, t.finish.value.at, g)
            && (t.finish.value.cancelled <==> NamedBetween(steps, t.key.value, t.addedAt, t.finish.value.at))
  {
    EveryGoroutineIsTraced(steps, g);
    CancellationLinearises(steps, g);
    BetweenIsBetween(steps, Run(steps).gs[g].key.value, Run(steps).gs[g].addedAt, Run(steps).gs[g].finish.value.at);
  }

  // ---- Contexts ----

  /** The client of the HTTP request has gone away. */
  predicate ClientGone(steps: seq<Step>, g: nat) {
    steps != [] &&
    (ClientGone(steps[..|steps| - 1], g)
     || (steps[|steps| - 1] == ParentDone(g) && g < |Run(steps[..|steps| - 1]).gs|
        && Run(steps[..|steps| - 1]).gs[g].http))
  }

  lemma {:induction false} ContextsAreCancelledOrGone(steps: seq<Step>, g: nat)
    requires g < |Run(steps).gs|
    ensures Run(steps).gs[g].ctxDone <==> g in Run(steps).reg.cancelled || ClientGone(steps, g)
  {
    var n := |steps| - 1;
    RunKeepsInv(steps[..n]);
    if g < |Run(steps[..n]).gs| {
      ContextsAreCancelledOrGone(steps[..n], g);
      ContextStep(Run(steps[..n]), steps[n], g);
    } else {
      NewIsNotGone(steps, g);
    }
  }

  lemma NewIsNotGone(steps: seq<Step>, g: nat)
    requires steps != [] && |Run(steps[..|steps| - 1]).gs| <= g < |Run(steps).gs|
    requires RegistryOk(Run(steps[..|steps| - 1]))
    ensures !Run(steps).gs[g].ctxDone && g !in Run(steps).reg.cancelled && !ClientGone(steps, g)
  {
    NobodyGoneYet(steps[..|steps| - 1], g);
    NewContext(Run(steps[..|steps| - 1]), steps[|steps| - 1]);
  }

  lemma ContextStep(s: State, step: Step, g: nat)
    requires g < |s.gs| && (g in s.reg.cancelled ==> s.gs[g].ctxDone)
    ensures var s' := Next(s, step);
            && (s'.gs[g].ctxDone <==>
                  s.gs[g].ctxDone || (step == ParentDone(g) && s.gs[g].http)
                      || (g in s'.reg.cancelled && g !in s.reg.cancelled))
            && (g in s.reg.cancelled ==> g in s'.reg.cancelled)
  {}

  lemma NewContext(s: State, step: Step)
    requires RegistryOk(s) && |s.gs| < |Next(s, step).gs|
    ensures |Next(s, step).gs| == |s.gs| + 1
    ensures !Next(s, step).gs[|s.gs|].ctxDone && |s.gs| !in Next(s, step).reg.cancelled
  {}

  lemma {:induction false} NobodyGoneYet(steps: seq<Step>, g: nat)
    requires |Run(steps).gs| <= g
    ensures !ClientGone(steps, g)
  {
    if steps != [] {
      NeverFewer(Run(steps[..|steps| - 1]), steps[|steps| - 1]);
      NobodyGoneYet(steps[..|steps| - 1], g);
    }
  }

  lemma NeverFewer(s: State, step: Step)
    ensures |s.gs| <= |Next(s, step).gs|
  {}

  /** Until its finish the context of a request is done exactly if a notice has named it since it was read, or, over
      HTTP, its client has gone away. */
  lemma ContextIsDoneExactlyWhen(steps: seq<Step>, g: nat)
    requires g < |Run(steps).gs| && Run(steps).gs[g].key.Some? && InRegistry(Run(steps).gs[g].pc)
    ensures var t := Run(steps).gs[g];
            t.ctxDone <==> NamedBetween(steps, t.key.value, t.addedAt, |steps|) || ClientGone(steps, g)
  {
    RunKeepsInv(steps);
    assert GoroutineOk(Run(steps), g);
    ClockCountsSteps(steps);
    ContextsAreCancelledOrGone(steps, g);
    BetweenIsBetween(steps, Run(steps).gs[g].key.value, Run(steps).gs[g].addedAt, |steps|);
  }

  // ---- Every goroutine can end ----

  /** A request in the select whose context is done can leave it there and then, without its handler and without a
      response. */
  lemma CancelledWaiterCanGiveUp(steps: seq<Step>, g: nat)
    requires g < |Run(steps).gs| && Run(steps).gs[g].pc == Waiting && Run(steps).gs[g].ctxDone
    ensures var s' := Next(Next(Run(steps), GiveUp(g)), FinishUnrun(g));
            g < |s'.gs| && s'.gs[g].pc == Ended && !s'.gs[g].ran && s'.gs[g].replies == 0
  {
    RunKeepsInv(steps);
    assert GoroutineOk(Run(steps), g);
  }

  predicate HasEnded(s: State, g: nat) {
    g < |s.gs| && s.gs[g].pc == Ended
  }

  lemma ReleaserEnds(s: State, g: nat)
    requires g < |s.gs| && s.gs[g].pc == Releasing && 0 < s.sem
    ensures HasEnded(Next(s, Release(g)), g)
  {}

  lemma SenderEnds(s: State, g: nat)
    requires g < |s.gs| && (s.gs[g].pc == Sending || s.gs[g].pc == Releasing) && 0 < s.sem
    ensures HasEnded(Next(Next(s, Send(g)), Release(g)), g)
  {
    ReleaserEnds(Next(s, Send(g)), g);
  }

  lemma FinisherEnds(s: State, g: nat)
    requires g < |s.gs| && HoldsSlot(s.gs[g].pc) && s.gs[g].pc != Running && 0 < s.sem
    ensures HasEnded(Next(Next(Next(s, FinishRun(g)), Send(g)), Release(g)), g)
  {
    SenderEnds(Next(s, FinishRun(g)), g);
  }

  lemma HandlerMoves(s: State, g: nat)
    requires g < |s.gs| && HoldsSlot(s.gs[g].pc)
    ensures var s' := Next(s, Handle(g));
            g < |s'.gs| && HoldsSlot(s'.gs[g].pc) && s'.gs[g].pc != Running && s'.sem == s.sem
  {}

  lemma HolderEndsInFour(s: State, g: nat)
    requires g < |s.gs| && HoldsSlot(s.gs[g].pc) && 0 < s.sem
    ensures HasEnded(Next(Next(Next(Next(s, Handle(g)), FinishRun(g)), Send(g)), Release(g)), g)
  {
    HandlerMoves(s, g);
    FinisherEnds(Next(s, Handle(g)), g);
  }

  lemma HolderEnds(s: State, g: nat)
    requires g < |s.gs| && HoldsSlot(s.gs[g].pc) && 0 < s.sem
    ensures HasEnded(RunFrom(s, Drain(g)), g)
  {
    HolderEndsInFour(s, g);
    FourSteps(s, Handle(g), FinishRun(g), Send(g), Release(g));
  }

  lemma HolderHasSlot(s: State, g: nat)
    requires SemaphoreOk(s) && g < |s.gs| && HoldsSlot(s.gs[g].pc)
    ensures 0 < s.sem
  {
    assert g in Holders(s);
  }

  lemma GivesUpAtOnce(s: State, g: nat) returns (more: seq<Step>)
    requires g < |s.gs| && (s.gs[g].pc == Abandoning || (s.gs[g].pc == Starting && s.gs[g].ctxDone))
    ensures HasEnded(RunFrom(s, more), g)
  {
    if s.gs[g].pc == Abandoning {
      more := [FinishUnrun(g)];
      assert more[..0] == [] && RunFrom(s, more) == Next(s, FinishUnrun(g));
    } else {
      more := [CheckCtx(g), FinishUnrun(g)];
      assert more[..1] == [CheckCtx(g)] && [CheckCtx(g)][..0] == [];
      assert RunFrom(s, [CheckCtx(g)]) == Next(s, CheckCtx(g));
      assert RunFrom(s, more) == Next(Next(s, CheckCtx(g)), FinishUnrun(g));
    }
  }

  lemma HolderCanEnd(steps: seq<Step>, g: nat) returns (more: seq<Step>)
    requires g < |Run(steps).gs| && HoldsSlot(Run(steps).gs[g].pc)
    ensures HasEnded(Run(steps + more), g)
  {
    more := Drain(g);
    RunKeepsInv(steps);
    HolderHasSlot(Run(steps), g);
    HolderEnds(Run(steps), g);
    RunGoesOn(steps, more);
  }

  lemma RanCanEnd(steps: seq<Step>, g: nat) returns (more: seq<Step>)
    requires Ran(Run(steps), g)
    ensures HasEnded(Run(steps + more), g)
  {
    RunKeepsInv(steps);
    assert GoroutineOk(Run(steps), g);
    if Run(steps).gs[g].pc == Ended {
      more := [];
      assert steps + more == steps;
    } else {
      more := HolderCanEnd(steps, g);
    }
  }

  lemma WaiterCanEnd(steps: seq<Step>, g: nat) returns (more: seq<Step>)
    requires g < |Run(steps).gs| && !Run(steps).gs[g].ran
    requires var t := Run(steps).gs[g]; t.pc == Waiting || (t.pc == Starting && !t.ctxDone)
    ensures HasEnded(Run(steps + more), g)
  {
    var way := WaiterCanRun(steps, g);
    var rest := RanCanEnd(steps + way, g);
    more := way + rest;
    Associates(steps, way, rest);
  }

  lemma WaiterCanRun(steps: seq<Step>, g: nat) returns (way: seq<Step>)
    requires g < |Run(steps).gs| && !Run(steps).gs[g].ran
    requires var t := Run(steps).gs[g]; t.pc == Waiting || (t.pc == Starting && !t.ctxDone)
    ensures Ran(Run(steps + way), g)
  {
    RunKeepsInv(steps);
    way := WayToTheHandler(Run(steps), g);
    RunGoesOn(steps, way);
  }

  lemma Associates<T>(a: seq<T>, b: seq<T>, c: seq<T>)
    ensures a + (b + c) == a + b + c
  {}

  /** From every reachable state every goroutine can end: nothing is ever stuck behind the semaphore or the registry. */
  lemma EveryGoroutineCanEnd(steps: seq<Step>, g: nat) returns (more: seq<Step>)
    requires g < |Run(steps).gs|
    ensures HasEnded(Run(steps + more), g)
  {
    RunKeepsInv(steps);
    assert GoroutineOk(Run(steps), g);
    var t := Run(steps).gs[g];
    if t.pc == Ended {
      more := [];
      assert steps + more == steps;
    } else if t.pc == Abandoning || (t.pc == Starting && t.ctxDone) {
      more := GivesUpAtOnce(Run(steps), g);
      RunGoesOn(steps, more);
    } else if HoldsSlot(t.pc) {
      more := HolderCanEnd(steps, g);
    } else {
      more := WaiterCanEnd(steps, g);
    }
  }
}
