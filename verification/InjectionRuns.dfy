/** What an inject_secret call (internal/mcp/credentials.go) has met on its way, over every run: each exit is reached
    exactly by the events that lead to it. */
module InjectionRuns {
  import opened Bytes
  import opened Injection
  import L = SessionLocks

  /** What can happen to a call in one of its steps. */
  datatype Event =
    | FoundSession | MissedSession
    | GotLock | LostLock
    | StillThere | Gone
    | Takes(n: nat) | FoundNothing
    | Decrypts(n: nat) | FailsToDecrypt(n: nat)
    | NotCancelled(n: nat) | SeesCancel(n: nat)
    | Writes(n: nat) | FailsToWrite(n: nat)

  /** Event `e` happens to a call in its step, `ok` being how the decryption or the write turns out. */
  predicate Meets(c: Inject, l: L.Pc, open: set<Id>, creds: map<string, Credential>, ok: bool, e: Event) {
    match e
    case FoundSession => c.pc == Looking && c.id in open
    case MissedSession => c.pc == Looking && c.id !in open
    case GotLock => c.pc == Locking && l == L.Holding
    case LostLock => c.pc == Locking && l == L.GaveUp
    case StillThere => c.pc == Refetching && c.id in open
    case Gone => c.pc == Refetching && c.id !in open
    case Takes(n) => c.pc == Taking && c.key in creds && creds[c.key].serial == n
    case FoundNothing => c.pc == Taking && c.key !in creds
    case Decrypts(n) => c.pc == Opening(n) && ok
    case FailsToDecrypt(n) => c.pc == Opening(n) && !ok
    case NotCancelled(n) => c.pc == Checking(n) && !c.ctxDone
    case SeesCancel(n) => c.pc == Checking(n) && c.ctxDone
    case Writes(n) => c.pc == Writing(n) && ok
    case FailsToWrite(n) => c.pc == Writing(n) && !ok
  }

  predicate Happens(s: State, step: Step, h: nat, e: Event) {
    && step.Acts? && step.h == h && h in s.calls && h < |s.locks.hs|
    && Meets(s.calls[h], s.locks.hs[h].pc, s.open, s.vault.creds, step.ok, e)
  }

  /** It has happened in some step of the run. */
  predicate Happened(steps: seq<Step>, h: nat, e: Event) {
    steps != [] &&
    (Happened(steps[..|steps| - 1], h, e) || Happens(Run(steps[..|steps| - 1]), steps[|steps| - 1], h, e))
  }

  function ExitOf(pc: Pc): Option<Exit> {
    if pc.Unlocking? || pc.Exited? then Some(pc.e) else None
  }

  /** Event `e` has happened to a call that stands at `pc`. */
  predicate HasMet(pc: Pc, e: Event) {
    var exit := ExitOf(pc);
    match e
    case FoundSession => !pc.Looking? && exit != Some(UnknownSession)
    case MissedSession => exit == Some(UnknownSession)
    case GotLock => !pc.Looking? && !pc.Locking? && exit != Some(UnknownSession) && exit != Some(LockAbandoned)
    case LostLock => exit == Some(LockAbandoned)
    case StillThere => pc.Taking? || exit == Some(NoCredential) || Consumed(pc).Some?
    case Gone => exit == Some(SessionClosed)
    case Takes(n) => Consumed(pc) == Some(n)
    case FoundNothing => exit == Some(NoCredential)
    case Decrypts(n) => Consumed(pc) == Some(n) && !pc.Opening? && exit != Some(NotDecrypted(n))
    case FailsToDecrypt(n) => exit == Some(NotDecrypted(n))
    case NotCancelled(n) => pc == Writing(n) || exit == Some(WriteFailed(n)) || exit == Some(Injected(n))
    case SeesCancel(n) => exit == Some(Abandoned(n))
    case Writes(n) => exit == Some(Injected(n))
    case FailsToWrite(n) => exit == Some(WriteFailed(n))
  }

  /** The events up to the take. */
  predicate Early(e: Event) {
    e.FoundSession? || e.MissedSession? || e.GotLock? || e.LostLock? || e.StillThere? || e.Gone?
  }

  lemma DoesEarly(c: Inject, l: L.Pc, open: set<Id>, creds: map<string, Credential>, ok: bool, e: Event)
    requires Early(e)
    ensures HasMet(Does(c, l, open, creds, ok).0, e) <==> HasMet(c.pc, e) || Meets(c, l, open, creds, ok, e)
  {}

  lemma DoesLate(c: Inject, l: L.Pc, open: set<Id>, creds: map<string, Credential>, ok: bool, e: Event)
    requires !Early(e)
    ensures HasMet(Does(c, l, open, creds, ok).0, e) <==> HasMet(c.pc, e) || Meets(c, l, open, creds, ok, e)
  {}

  lemma DoesPath(c: Inject, l: L.Pc, open: set<Id>, creds: map<string, Credential>, ok: bool, e: Event)
    ensures HasMet(Does(c, l, open, creds, ok).0, e) <==> HasMet(c.pc, e) || Meets(c, l, open, creds, ok, e)
  {
    if Early(e) {
      DoesEarly(c, l, open, creds, ok, e);
    } else {
      DoesLate(c, l, open, creds, ok, e);
    }
  }

  lemma StepPath(s: State, step: Step, h: nat, e: Event)
    requires CallsOk(s) && h in Next(s, step).calls
    ensures HasMet(Next(s, step).calls[h].pc, e)
       <==> (h in s.calls && HasMet(s.calls[h].pc, e)) || Happens(s, step, h, e)
  {
    if step.Acts? && step.h == h && h in s.calls {
      DoesPath(s.calls[h], s.locks.hs[h].pc, s.open, s.vault.creds, step.ok, e);
    }
  }

  lemma CallStays(s: State, step: Step, h: nat)
    requires CallsOk(s) && h in s.calls
    ensures var s' := Next(s, step);
            && h in s'.calls && s'.calls[h].id == s.calls[h].id
            && (s.calls[h].ctxDone ==> s'.calls[h].ctxDone)
            && (s'.calls[h].ctxDone && !s.calls[h].ctxDone ==> step == CtxDone(h))
  {}

  /** A call never goes away, so what has happened has happened to a call that is there. */
  lemma {:induction false} HappenedToACall(steps: seq<Step>, h: nat, e: Event)
    requires Happened(steps, h, e)
    ensures h in Run(steps).calls
  {
    var before, step := steps[..|steps| - 1], steps[|steps| - 1];
    RunKeepsInv(before);
    if Happened(before, h, e) {
      HappenedToACall(before, h, e);
    }
    CallStays(Run(before), step, h);
  }

  /** In every run, what a call has met is what its place says: so each exit is taken exactly after the events that
      lead to it. A call exits Injected with credential n exactly if it found its session, got the lock, found the
      session again, took n, decrypted it, was not cancelled when it looked, and wrote; and so on for the others. */
  lemma {:induction false} EveryPlaceHasItsPath(steps: seq<Step>, h: nat, e: Event)
    requires h in Run(steps).calls
    ensures HasMet(Run(steps).calls[h].pc, e) <==> Happened(steps, h, e)
  {
    if steps != [] {
      var before, step := steps[..|steps| - 1], steps[|steps| - 1];
      RunKeepsInv(before);
      StepPath(Run(before), step, h, e);
      if h in Run(before).calls {
        EveryPlaceHasItsPath(before, h, e);
      } else if Happened(before, h, e) {
        HappenedToACall(before, h, e);
      }
    }
  }

  // ---- In terms of the steps ----

  /** A call that has not got past its look at the context, and will find it done. */
  predicate Barred(s: State, h: nat) {
    h in s.calls && s.calls[h].ctxDone && NotPastTheLook(s.calls[h].pc)
  }

  predicate NotPastTheLook(pc: Pc) {
    !pc.Writing? && (ExitOf(pc).None? || (!ExitOf(pc).value.WriteFailed? && !ExitOf(pc).value.Injected?))
  }

  lemma PastTheLookHasMet(pc: Pc)
    requires !NotPastTheLook(pc)
    ensures exists n: nat :: HasMet(pc, NotCancelled(n))
  {
    assert HasMet(pc, NotCancelled(if pc.Writing? then pc.n else ExitOf(pc).value.n));
  }

  lemma StaysBarred(s: State, step: Step, h: nat)
    requires CallsOk(s) && Barred(s, h)
    ensures Barred(Next(s, step), h)
  {}

  lemma {:induction false} BarredForGood(steps: seq<Step>, more: seq<Step>, h: nat)
    requires Barred(Run(steps), h)
    ensures Barred(Run(steps + more), h)
  {
    if more == [] {
      assert steps + more == steps;
    } else {
      var m := |more| - 1;
      assert (steps + more)[..|steps + more| - 1] == steps + more[..m];
      BarredForGood(steps, more[..m], h);
      RunKeepsInv(steps + more[..m]);
      StaysBarred(Run(steps + more[..m]), more[m], h);
    }
  }

  lemma BarredWritesNothing(s: State, h: nat, w: Wrote)
    requires RecordsOk(s) && Barred(s, h)
    ensures w in s.written ==> w.h != h
  {}

  /** A call whose context is done before it looks at it writes nothing in any continuation, whatever it has
      consumed. */
  lemma CancelledBeforeTheLookNeverWrites(steps: seq<Step>, more: seq<Step>, h: nat, w: Wrote)
    requires h in Run(steps).calls && forall n: nat :: !Happened(steps, h, NotCancelled(n))
    ensures w in Run(steps + [CtxDone(h)] + more).written ==> w.h != h
  {
    var pc := Run(steps).calls[h].pc;
    forall n: nat
      ensures !HasMet(pc, NotCancelled(n))
    {
      EveryPlaceHasItsPath(steps, h, NotCancelled(n));
    }
    if !NotPastTheLook(pc) {
      PastTheLookHasMet(pc);
      assert false;
    }
    RunSnoc(steps, CtxDone(h));
    BarredForGood(steps + [CtxDone(h)], more, h);
    RunKeepsInv(steps + [CtxDone(h)] + more);
    BarredWritesNothing(Run(steps + [CtxDone(h)] + more), h, w);
  }

  lemma {:induction false} DoneByAStep(steps: seq<Step>, h: nat)
    requires CtxDone(h) !in steps
    ensures h in Run(steps).calls ==> !Run(steps).calls[h].ctxDone
  {
    if steps != [] {
      var before, step := steps[..|steps| - 1], steps[|steps| - 1];
      DoneByAStep(before, h);
      assert step in steps;
      RunKeepsInv(before);
      if h in Run(before).calls {
        CallStays(Run(before), step, h);
      }
    }
  }

  /** A call that is never cancelled, and for which decryption and write succeed, reports success and has written the
      contents to its session, if it has taken a credential and exited. */
  lemma UndisturbedCallsSucceed(steps: seq<Step>, h: nat, n: nat)
    requires h in Run(steps).calls && Run(steps).calls[h].pc.Exited? && Took(h, n) in Run(steps).vault.taken
    requires CtxDone(h) !in steps && Acts(h, false) !in steps
    ensures var c := Run(steps).calls[h];
            c.pc == Exited(Injected(n)) && Wrote(h, n, c.id) in Run(steps).written
  {
    RunKeepsInv(steps);
    NeedsAStep(steps, h, FailsToDecrypt(n));
    NeedsAStep(steps, h, FailsToWrite(n));
    NeedsAStep(steps, h, SeesCancel(n));
    EveryPlaceHasItsPath(steps, h, FailsToDecrypt(n));
    EveryPlaceHasItsPath(steps, h, FailsToWrite(n));
    EveryPlaceHasItsPath(steps, h, SeesCancel(n));
    SuccessOrTrouble(Run(steps), h, n);
  }

  /** The three ways a call that has taken a credential can end without success come from steps of its own. */
  lemma {:induction false} NeedsAStep(steps: seq<Step>, h: nat, e: Event)
    requires CtxDone(h) !in steps && Acts(h, false) !in steps && (e.FailsToDecrypt? || e.FailsToWrite? || e.SeesCancel?)
    ensures !Happened(steps, h, e)
  {
    if steps != [] {
      var before, step := steps[..|steps| - 1], steps[|steps| - 1];
      NeedsAStep(before, h, e);
      DoneByAStep(before, h);
      assert step in steps;
      TroubleIs(Run(before), step, h, e);
    }
  }

  lemma TroubleIs(s: State, step: Step, h: nat, e: Event)
    requires e.FailsToDecrypt? || e.FailsToWrite? || e.SeesCancel?
    ensures Happens(s, step, h, e) ==> step == Acts(h, false) || (h in s.calls && s.calls[h].ctxDone)
  {}

  lemma SuccessOrTrouble(s: State, h: nat, n: nat)
    requires RecordsOk(s) && h in s.calls && s.calls[h].pc.Exited? && Took(h, n) in s.vault.taken
    requires !HasMet(s.calls[h].pc, FailsToDecrypt(n)) && !HasMet(s.calls[h].pc, FailsToWrite(n))
    requires !HasMet(s.calls[h].pc, SeesCancel(n))
    ensures s.calls[h].pc == Exited(Injected(n)) && Wrote(h, n, s.calls[h].id) in s.written
  {}

  predicate Succeeds(pc: Pc) {
    ExitOf(pc).Some? && ExitOf(pc).value.Injected?
  }

  /** A call that could not decrypt, or could not write, never reports success and has written nothing. */
  lemma FailedCallsDoNotSucceed(steps: seq<Step>, h: nat, n: nat, w: Wrote)
    requires Happened(steps, h, FailsToDecrypt(n)) || Happened(steps, h, FailsToWrite(n))
    ensures h in Run(steps).calls
    ensures !Succeeds(Run(steps).calls[h].pc)
    ensures w in Run(steps).written ==> w.h != h
  {
    RunKeepsInv(steps);
    if Happened(steps, h, FailsToDecrypt(n)) {
      HappenedToACall(steps, h, FailsToDecrypt(n));
      EveryPlaceHasItsPath(steps, h, FailsToDecrypt(n));
      TroubleIsNoSuccess(Run(steps), h, n, w);
    } else {
      HappenedToACall(steps, h, FailsToWrite(n));
      EveryPlaceHasItsPath(steps, h, FailsToWrite(n));
      TroubleIsNoSuccess(Run(steps), h, n, w);
    }
  }

  lemma TroubleIsNoSuccess(s: State, h: nat, n: nat, w: Wrote)
    requires RecordsOk(s) && h in s.calls
    requires HasMet(s.calls[h].pc, FailsToDecrypt(n)) || HasMet(s.calls[h].pc, FailsToWrite(n))
    ensures !Succeeds(s.calls[h].pc) && (w in s.written ==> w.h != h)
  {}

  // ---- Sessions ----

  /** Step `t` removes a registered session: without its lock, or in the hands of its holder. */
  predicate Removes(s: State, step: Step, id: Id) {
    && id in s.registered
    && (step == Tear(id)
        || (step.Close? && step.k < |s.locks.hs| && s.locks.hs[step.k].pc == L.Holding && step.k !in s.calls
            && s.locks.hs[step.k].id == id))
  }

  predicate Removed(steps: seq<Step>, id: Id) {
    steps != [] &&
    (Removed(steps[..|steps| - 1], id) || Removes(Run(steps[..|steps| - 1]), steps[|steps| - 1], id))
  }

  /** In every run the sessions that are there are those registered and not removed since. */
  lemma {:induction false} OpenExactlyWhen(steps: seq<Step>, id: Id)
    ensures id in Run(steps).registered <==> Register(id) in steps
    ensures id in Run(steps).open <==> Register(id) in steps && !Removed(steps, id)
  {
    if steps != [] {
      var before, step := steps[..|steps| - 1], steps[|steps| - 1];
      OpenExactlyWhen(before, id);
      RunKeepsInv(before);
      assert steps == before + [step];
      if Removed(before, id) {
        NotRemovedUnregistered(before, id);
      }
      OpenNext(Run(before), step, id);
    }
  }

  lemma OpenNext(s: State, step: Step, id: Id)
    requires SessionsOk(s)
    ensures var s' := Next(s, step);
            && (id in s'.registered <==> id in s.registered || step == Register(id))
            && (id in s'.open
                <==> (id in s.open && !Removes(s, step, id)) || (step == Register(id) && id !in s.registered))
  {}

  lemma {:induction false} NotRemovedUnregistered(steps: seq<Step>, id: Id)
    requires Removed(steps, id)
    ensures id in Run(steps).registered
  {
    var before, step := steps[..|steps| - 1], steps[|steps| - 1];
    if Removed(before, id) {
      NotRemovedUnregistered(before, id);
    }
    RegisteredStays(Run(before), step, id);
  }

  lemma RegisteredStays(s: State, step: Step, id: Id)
    requires id in s.registered
    ensures id in Next(s, step).registered
  {}

  // ---- What leaves the store ----

  /** Credential `n` is dropped by a step that stores another: it had expired, or is replaced. */
  predicate Purges(s: State, step: Step, n: nat) {
    step.Store? && exists k :: k in s.vault.creds && s.vault.creds[k].serial == n
                               && (k == step.key || step.now > s.vault.creds[k].expiresAt)
  }

  predicate Purged(steps: seq<Step>, n: nat) {
    steps != [] &&
    (Purged(steps[..|steps| - 1], n) || Purges(Run(steps[..|steps| - 1]), steps[|steps| - 1], n))
  }

  /** In every run a credential was purged exactly if, when another was stored, it had expired or was replaced. With
      CredentialsAreTakenOnce this says where each credential is: in the store unless it was taken or purged so. */
  lemma {:induction false} PurgedExactlyWhen(steps: seq<Step>, n: nat)
    ensures n in Run(steps).vault.purged <==> Purged(steps, n)
  {
    if steps != [] {
      PurgedExactlyWhen(steps[..|steps| - 1], n);
      PurgesIs(Run(steps[..|steps| - 1]), steps[|steps| - 1], n);
    }
  }

  lemma PurgesIs(s: State, step: Step, n: nat)
    ensures n in Next(s, step).vault.purged <==> n in s.vault.purged || Purges(s, step, n)
  {}
}
