/** Pending secrets (internal/mcp/tools.go, internal/session/session.go), on top of the per-session locks: any number of
    handlers of prepare_secret, send_secret, send_input and the rest. */
module Secrets {
  import opened Bytes
  import L = SessionLocks

  type Id = string

  /** A secret a handler has in hand, and whether it came from the pending map or from the operator. */
  datatype Hand = Hand(secret: nat, fromPending: bool)

  datatype Delivery = Delivery(secret: nat, to: Id)

  /** Secrets are numbered in the order the operator enters them; `enteredFor[n]` is the session secret n was asked
      for. */
  datatype State = State(
    locks: L.State,
    enteredFor: seq<Id>, pending: map<Id, nat>, hands: map<nat, Hand>, written: seq<Delivery>)

  datatype Step =
    | Lock(step: L.Step)
    | Enter(h: nat)        // readSecretFromUser returns
    | Take(h: nat)         // TakeSecret finds one
    | Stage(h: nat)        // SetPendingSecret: by prepare_secret, or the restore of maybeAutoSendSecret
    | WriteRaw(h: nat)
    | Discard(h: nat)      // the call was abandoned, or the write failed
    | Clear(id: Id)        // clearSecret of Close and Detach, which an abandoned create runs without the lock

  /** The handler has the lock and has not begun to release it: its body is running. */
  predicate Working(s: State, h: nat) {
    h < |s.locks.hs| && s.locks.hs[h].pc == L.Holding
  }

  /** The deferred unlock runs when the body is done, with nothing in hand. */
  predicate BodyDone(s: State, step: L.Step) {
    step.LookUpAgain? ==> step.h !in s.hands
  }

  function Next(s: State, step: Step): State {
    match step
    case Lock(step) => if BodyDone(s, step) then s.(locks := L.Next(s.locks, step)) else s
    case Enter(h) =>
      if Working(s, h) && h !in s.hands
      then s.(hands := s.hands[h := Hand(|s.enteredFor|, false)], enteredFor := s.enteredFor + [s.locks.hs[h].id])
      else s
    case Take(h) =>
      if Working(s, h) && h !in s.hands && s.locks.hs[h].id in s.pending
      then var id := s.locks.hs[h].id;
           s.(hands := s.hands[h := Hand(s.pending[id], true)], pending := s.pending - {id})
      else s
    case Stage(h) =>
      if Working(s, h) && h in s.hands
      then s.(pending := s.pending[s.locks.hs[h].id := s.hands[h].secret], hands := s.hands - {h})
      else s
    case WriteRaw(h) =>
      if Working(s, h) && h in s.hands
      then s.(written := s.written + [Delivery(s.hands[h].secret, s.locks.hs[h].id)], hands := s.hands - {h})
      else s
    case Discard(h) => s.(hands := s.hands - {h})
    case Clear(id) => s.(pending := s.pending - {id})
  }

  const INITIAL := State(L.INITIAL, [], map[], map[], [])

  function Run(steps: seq<Step>): State {
    if steps == [] then INITIAL else Next(Run(steps[..|steps| - 1]), steps[|steps| - 1])
  }

  // ---- Invariants ----

  predicate Known(s: State, secret: nat, id: Id) {
    secret < |s.enteredFor| && s.enteredFor[secret] == id
  }

  predicate Written(s: State, secret: nat) {
    exists i :: 0 <= i < |s.written| && s.written[i].secret == secret
  }

  /** A pending secret belongs to its session and has not been written. */
  predicate PendingOk(s: State, id: Id)
    requires id in s.pending
  {
    Known(s, s.pending[id], id) && !Written(s, s.pending[id])
  }

  /** A secret in hand belongs to the session whose lock the handler holds, and is neither pending nor written; one
      taken from the pending map has left its place free. */
  predicate HandOk(s: State, h: nat)
    requires h in s.hands
  {
    && Working(s, h)
    && var id := s.locks.hs[h].id;
    && Known(s, s.hands[h].secret, id)
    && !Written(s, s.hands[h].secret)
    && (id in s.pending ==> s.pending[id] != s.hands[h].secret && !s.hands[h].fromPending)
  }

  ghost predicate SecretsOk(s: State) {
    && L.Inv(s.locks)
    && (forall id :: id in s.pending ==> PendingOk(s, id))
    && (forall h: nat :: h in s.hands ==> HandOk(s, h))
    && (forall i :: 0 <= i < |s.written| ==> Known(s, s.written[i].secret, s.written[i].to))
    && (forall i, j :: 0 <= i < j < |s.written| ==> s.written[i].secret != s.written[j].secret)
  }

  /** A handler in its body stays there until its own unlock. */
  lemma LockStepKeepsWorking(s: State, step: L.Step, h: nat)
    requires BodyDone(s, step) && h in s.hands && Working(s, h)
    ensures Working(s.(locks := L.Next(s.locks, step)), h)
    ensures L.Next(s.locks, step).hs[h].id == s.locks.hs[h].id
  {}

  lemma LockStepKeepsSecrets(s: State, step: L.Step)
    requires SecretsOk(s)
    ensures SecretsOk(Next(s, Lock(step)))
  {
    if BodyDone(s, step) {
      L.StepKeepsInv(s.locks, step);
      var s' := Next(s, Lock(step));
      forall h: nat | h in s'.hands
        ensures HandOk(s', h)
      {
        assert HandOk(s, h);
        LockStepKeepsWorking(s, step, h);
      }
      forall id | id in s'.pending
        ensures PendingOk(s', id)
      {
        assert PendingOk(s, id);
      }
    }
  }

  /** Two handlers never have secrets of the same session in hand. */
  lemma HandsDiffer(s: State, h: nat, k: nat)
    requires SecretsOk(s) && h in s.hands && k in s.hands && h != k
    ensures s.locks.hs[h].id != s.locks.hs[k].id && s.hands[h].secret != s.hands[k].secret
  {
    assert HandOk(s, h) && HandOk(s, k);
    if s.locks.hs[h].id == s.locks.hs[k].id {
      L.HolderIsUnique(s.locks, h, k);
    }
  }

  /** The next secret's number is new. */
  lemma NextSecretIsNew(s: State)
    requires SecretsOk(s)
    ensures !Written(s, |s.enteredFor|)
    ensures forall id :: id in s.pending ==> s.pending[id] != |s.enteredFor|
  {
    forall id | id in s.pending
      ensures s.pending[id] != |s.enteredFor|
    {
      assert PendingOk(s, id);
    }
  }

  lemma EnterKeepsSecrets(s: State, h: nat)
    requires SecretsOk(s)
    ensures SecretsOk(Next(s, Enter(h)))
  {
    var s' := Next(s, Enter(h));
    NextSecretIsNew(s);
    assert forall n: nat :: n < |s.enteredFor| ==> s'.enteredFor[n] == s.enteredFor[n];
    forall k: nat | k in s'.hands
      ensures HandOk(s', k)
    {
      assert k in s.hands ==> HandOk(s, k);
    }
    forall id | id in s'.pending
      ensures PendingOk(s', id)
    {
      assert PendingOk(s, id);
    }
  }

  lemma TakeKeepsSecrets(s: State, h: nat)
    requires SecretsOk(s)
    ensures SecretsOk(Next(s, Take(h)))
  {
    var s' := Next(s, Take(h));
    assert Working(s, h) && s.locks.hs[h].id in s.pending ==> PendingOk(s, s.locks.hs[h].id);
    forall k: nat | k in s'.hands
      ensures HandOk(s', k)
    {
      assert k in s.hands ==> HandOk(s, k);
    }
    forall id | id in s'.pending
      ensures PendingOk(s', id)
    {
      assert PendingOk(s, id);
    }
  }

  lemma StageKeepsSecrets(s: State, h: nat)
    requires SecretsOk(s)
    ensures SecretsOk(Next(s, Stage(h)))
  {
    if Working(s, h) && h in s.hands {
      var s' := Next(s, Stage(h));
      assert HandOk(s, h);
      forall k: nat | k in s'.hands
        ensures HandOk(s', k)
      {
        assert HandOk(s, k);
        HandsDiffer(s, h, k);
      }
      forall id | id in s'.pending
        ensures PendingOk(s', id)
      {
        assert id in s.pending ==> PendingOk(s, id);
      }
    }
  }

  lemma WriteKeepsSecrets(s: State, h: nat)
    requires SecretsOk(s)
    ensures SecretsOk(Next(s, WriteRaw(h)))
  {
    if Working(s, h) && h in s.hands {
      var s' := Next(s, WriteRaw(h));
      assert HandOk(s, h);
      forall secret | Written(s', secret)
        ensures Written(s, secret) || secret == s.hands[h].secret
      {
        var i :| 0 <= i < |s'.written| && s'.written[i].secret == secret;
        assert i < |s.written| ==> s.written[i].secret == secret;
      }
      forall k: nat | k in s'.hands
        ensures HandOk(s', k)
      {
        assert HandOk(s, k);
        HandsDiffer(s, h, k);
      }
      forall id | id in s'.pending
        ensures PendingOk(s', id)
      {
        assert PendingOk(s, id);
      }
    }
  }

  lemma RemovalKeepsSecrets(s: State, s': State)
    requires SecretsOk(s) && s'.locks == s.locks && s'.enteredFor == s.enteredFor && s'.written == s.written
    requires s'.pending.Keys <= s.pending.Keys && forall id :: id in s'.pending ==> s'.pending[id] == s.pending[id]
    requires s'.hands.Keys <= s.hands.Keys && forall h: nat :: h in s'.hands ==> s'.hands[h] == s.hands[h]
    ensures SecretsOk(s')
  {
    forall k: nat | k in s'.hands
      ensures HandOk(s', k)
    {
      assert HandOk(s, k);
    }
    forall id | id in s'.pending
      ensures PendingOk(s', id)
    {
      assert PendingOk(s, id);
    }
  }

  lemma StepKeepsSecrets(s: State, step: Step)
    requires SecretsOk(s)
    ensures SecretsOk(Next(s, step))
  {
    match step
    case Lock(l) => LockStepKeepsSecrets(s, l);
    case Enter(h) => EnterKeepsSecrets(s, h);
    case Take(h) => TakeKeepsSecrets(s, h);
    case Stage(h) => StageKeepsSecrets(s, h);
    case WriteRaw(h) => WriteKeepsSecrets(s, h);
    case _ => RemovalKeepsSecrets(s, Next(s, step));
  }

  lemma {:induction false} RunKeepsInv(steps: seq<Step>)
    ensures SecretsOk(Run(steps))
  {
    if steps != [] {
      var before, step := Run(steps[..|steps| - 1]), steps[|steps| - 1];
      RunKeepsInv(steps[..|steps| - 1]);
      StepKeepsSecrets(before, step);
    }
  }

  // ---- What every run guarantees ----

  /** Every secret the operator entered is written at most once, and only to the session it was entered for. */
  lemma SecretsAreUsedOnce(steps: seq<Step>, i: nat, j: nat)
    requires i < |Run(steps).written| && j < |Run(steps).written|
    ensures var s := Run(steps);
            && Known(s, s.written[i].secret, s.written[i].to)
            && (s.written[i].secret == s.written[j].secret ==> i == j)
  {
    RunKeepsInv(steps);
  }

  /** A secret in some handler's hand is nowhere else: not pending, not in another hand, not written yet. */
  lemma SecretsAreInOnePlace(steps: seq<Step>, h: nat, k: nat, id: Id)
    requires h in Run(steps).hands
    ensures var s := Run(steps);
            var secret := s.hands[h].secret;
            && !Written(s, secret)
            && (id in s.pending ==> s.pending[id] != secret)
            && (k in s.hands && s.hands[k].secret == secret ==> k == h)
  {
    var s := Run(steps);
    RunKeepsInv(steps);
    assert HandOk(s, h);
    if id in s.pending {
      assert PendingOk(s, id);
    }
    if k in s.hands && k != h {
      HandsDiffer(s, h, k);
    }
  }

  /** Take-and-restore loses nothing: putting back a secret taken from the pending map never replaces another one. */
  lemma RestoreReplacesNothing(steps: seq<Step>, h: nat)
    requires h in Run(steps).hands && Run(steps).hands[h].fromPending
    ensures var s := Run(steps);
            && h < |s.locks.hs| && s.locks.hs[h].id !in s.pending
            && Next(s, Stage(h)).pending == s.pending[s.locks.hs[h].id := s.hands[h].secret]
  {
    RunKeepsInv(steps);
    assert HandOk(Run(steps), h);
  }

  // ---- No secret disappears ----

  predicate IsPending(s: State, n: nat) {
    exists id :: id in s.pending && s.pending[id] == n
  }

  predicate IsInHand(s: State, n: nat) {
    exists h :: h in s.hands && s.hands[h].secret == n
  }

  /** Secret `n` is somewhere: staged, in a handler's hand, or written. */
  predicate IsSomewhere(s: State, n: nat) {
    IsPending(s, n) || IsInHand(s, n) || Written(s, n)
  }

  /** The step gives secret `n` up: its handler drops it, the staged one is cleared, or another is staged in its
      place. */
  predicate Drops(s: State, step: Step, n: nat) {
    match step
    case Discard(h) => h in s.hands && s.hands[h].secret == n
    case Clear(id) => id in s.pending && s.pending[id] == n
    case Stage(h) =>
      Working(s, h) && h in s.hands && s.locks.hs[h].id in s.pending && s.pending[s.locks.hs[h].id] == n
    case _ => false
  }

  predicate HasBeenDropped(steps: seq<Step>, n: nat) {
    steps != []
    && (HasBeenDropped(steps[..|steps| - 1], n) || Drops(Run(steps[..|steps| - 1]), steps[|steps| - 1], n))
  }

  /** The step writes secret `n` to a session. */
  predicate Writes(s: State, step: Step, n: nat) {
    step.WriteRaw? && Working(s, step.h) && step.h in s.hands && s.hands[step.h].secret == n
  }

  predicate HasBeenWritten(steps: seq<Step>, n: nat) {
    steps != []
    && (HasBeenWritten(steps[..|steps| - 1], n) || Writes(Run(steps[..|steps| - 1]), steps[|steps| - 1], n))
  }

  lemma WrittenStep(s: State, step: Step, n: nat)
    ensures Written(Next(s, step), n) <==> Written(s, n) || Writes(s, step, n)
  {
    var s' := Next(s, step);
    if Written(s, n) {
      var i :| 0 <= i < |s.written| && s.written[i].secret == n;
      assert s'.written[i].secret == n;
    }
    if Writes(s, step, n) {
      assert s'.written[|s.written|].secret == n;
    }
  }

  /** What one step does to where a secret is. */
  predicate Conserves(s: State, step: Step, n: nat) {
    var s' := Next(s, step);
    var entered := |s'.enteredFor| > |s.enteredFor| && n == |s.enteredFor|;
    IsSomewhere(s', n) <==> (IsSomewhere(s, n) && !Drops(s, step, n)) || entered
  }

  lemma EnterConserves(s: State, h: nat, n: nat)
    requires SecretsOk(s)
    ensures Conserves(s, Enter(h), n)
  {
    var s' := Next(s, Enter(h));
    if Working(s, h) && h !in s.hands {
      assert s'.hands[h].secret == |s.enteredFor|;
      if IsInHand(s, n) {
        var k :| k in s.hands && s.hands[k].secret == n;
        assert k in s'.hands && s'.hands[k].secret == n;
      }
      if IsInHand(s', n) {
        var k :| k in s'.hands && s'.hands[k].secret == n;
        assert k != h ==> k in s.hands && s.hands[k].secret == n;
      }
    }
  }

  lemma TakeConserves(s: State, h: nat, n: nat)
    requires SecretsOk(s)
    ensures Conserves(s, Take(h), n)
  {
    var s' := Next(s, Take(h));
    if Working(s, h) && h !in s.hands && s.locks.hs[h].id in s.pending {
      assert s'.hands[h].secret == s.pending[s.locks.hs[h].id];
      SameHands(s, s', h, n);
      SamePending(s, s', s.locks.hs[h].id, n);
    }
  }

  /** All hands but one are the same. */
  lemma SameHands(s: State, s': State, h: nat, n: nat)
    requires forall k :: k != h ==> (k in s.hands <==> k in s'.hands) && (k in s.hands ==> s.hands[k] == s'.hands[k])
    ensures IsInHand(s, n) ==> (h in s.hands && s.hands[h].secret == n) || IsInHand(s', n)
    ensures IsInHand(s', n) ==> (h in s'.hands && s'.hands[h].secret == n) || IsInHand(s, n)
  {
    if IsInHand(s, n) {
      var k :| k in s.hands && s.hands[k].secret == n;
      assert k != h ==> k in s'.hands && s'.hands[k].secret == n;
    }
    if IsInHand(s', n) {
      var k :| k in s'.hands && s'.hands[k].secret == n;
      assert k != h ==> k in s.hands && s.hands[k].secret == n;
    }
  }

  /** All staged secrets but one are the same. */
  lemma SamePending(s: State, s': State, id: Id, n: nat)
    requires forall k :: k != id ==>
               (k in s.pending <==> k in s'.pending) && (k in s.pending ==> s.pending[k] == s'.pending[k])
    ensures IsPending(s, n) ==> (id in s.pending && s.pending[id] == n) || IsPending(s', n)
    ensures IsPending(s', n) ==> (id in s'.pending && s'.pending[id] == n) || IsPending(s, n)
  {
    if IsPending(s, n) {
      var k :| k in s.pending && s.pending[k] == n;
      assert k != id ==> k in s'.pending && s'.pending[k] == n;
    }
    if IsPending(s', n) {
      var k :| k in s'.pending && s'.pending[k] == n;
      assert k != id ==> k in s.pending && s.pending[k] == n;
    }
  }

  /** A secret is in one place only, so what gives it up there gives it up. */
  lemma OneHand(s: State, h: nat)
    requires SecretsOk(s) && h in s.hands
    ensures var n := s.hands[h].secret;
            && !Written(s, n) && !IsPending(s, n)
            && forall k: nat :: k in s.hands && s.hands[k].secret == n ==> k == h
  {
    assert HandOk(s, h);
    forall id | id in s.pending
      ensures s.pending[id] != s.hands[h].secret
    {
      assert PendingOk(s, id);
    }
    forall k: nat | k in s.hands && k != h
      ensures s.hands[k].secret != s.hands[h].secret
    {
      HandsDiffer(s, h, k);
    }
  }

  lemma OnePending(s: State, id: Id)
    requires SecretsOk(s) && id in s.pending
    ensures var n := s.pending[id];
            && !Written(s, n) && !IsInHand(s, n)
            && forall k :: k in s.pending && s.pending[k] == n ==> k == id
  {
    assert PendingOk(s, id);
    forall h: nat | h in s.hands
      ensures s.hands[h].secret != s.pending[id]
    {
      OneHand(s, h);
    }
    forall k | k in s.pending
      ensures s.pending[k] == s.pending[id] ==> k == id
    {
      assert PendingOk(s, k);
    }
  }

  lemma StageConserves(s: State, h: nat, n: nat)
    requires SecretsOk(s)
    ensures Conserves(s, Stage(h), n)
  {
    if Working(s, h) && h in s.hands {
      var s' := Next(s, Stage(h));
      var id := s.locks.hs[h].id;
      OneHand(s, h);
      if id in s.pending {
        OnePending(s, id);
      }
      SameHands(s, s', h, n);
      SamePending(s, s', id, n);
      assert s'.pending[id] == s.hands[h].secret;
      assert Written(s', n) <==> Written(s, n);
    }
  }

  lemma WriteConserves(s: State, h: nat, n: nat)
    requires SecretsOk(s)
    ensures Conserves(s, WriteRaw(h), n)
  {
    WrittenStep(s, WriteRaw(h), n);
    if Working(s, h) && h in s.hands {
      SameHands(s, Next(s, WriteRaw(h)), h, n);
      OneHand(s, h);
    }
  }

  lemma GivingUpConserves(s: State, step: Step, n: nat)
    requires SecretsOk(s) && (step.Discard? || step.Clear?)
    ensures Conserves(s, step, n)
  {
    var s' := Next(s, step);
    assert Written(s', n) <==> Written(s, n);
    if step.Discard? {
      SameHands(s, s', step.h, n);
      assert IsPending(s', n) <==> IsPending(s, n);
      if step.h in s.hands {
        OneHand(s, step.h);
      }
    } else {
      SamePending(s, s', step.id, n);
      assert IsInHand(s', n) <==> IsInHand(s, n);
      if step.id in s.pending {
        OnePending(s, step.id);
      }
    }
  }

  lemma StepConserves(s: State, step: Step, n: nat)
    requires SecretsOk(s)
    ensures Conserves(s, step, n)
  {
    match step
    case Lock(l) => LockConserves(s, l, n);
    case Enter(h) => EnterConserves(s, h, n);
    case Take(h) => TakeConserves(s, h, n);
    case Stage(h) => StageConserves(s, h, n);
    case WriteRaw(h) => WriteConserves(s, h, n);
    case _ => GivingUpConserves(s, step, n);
  }

  lemma LockConserves(s: State, l: L.Step, n: nat)
    ensures Conserves(s, Lock(l), n)
  {
    var s' := Next(s, Lock(l));
    assert s'.pending == s.pending && s'.hands == s.hands && s'.written == s.written && s'.enteredFor == s.enteredFor;
    assert IsPending(s', n) <==> IsPending(s, n);
    assert IsInHand(s', n) <==> IsInHand(s, n);
    assert Written(s', n) <==> Written(s, n);
  }

  /** No secret disappears: in every run a secret the operator entered is staged, in a handler's hand or written,
      unless some step gave it up; and it has been written exactly if some step wrote it. */
  lemma {:induction false} NoSecretDisappears(steps: seq<Step>, n: nat)
    ensures n < |Run(steps).enteredFor| ==> (IsSomewhere(Run(steps), n) <==> !HasBeenDropped(steps, n))
    ensures n >= |Run(steps).enteredFor| ==> !IsSomewhere(Run(steps), n) && !HasBeenDropped(steps, n)
    ensures Written(Run(steps), n) <==> HasBeenWritten(steps, n)
  {
    if steps != [] {
      var before, step := steps[..|steps| - 1], steps[|steps| - 1];
      NoSecretDisappears(before, n);
      RunKeepsInv(before);
      StepConserves(Run(before), step, n);
      WrittenStep(Run(before), step, n);
      DropsWhatIsThere(Run(before), step, n);
      EnteredGrows(Run(before), step);
    }
  }

  lemma DropsWhatIsThere(s: State, step: Step, n: nat)
    ensures Drops(s, step, n) ==> IsSomewhere(s, n)
  {}

  lemma EnteredGrows(s: State, step: Step)
    ensures |s.enteredFor| <= |Next(s, step).enteredFor| <= |s.enteredFor| + 1
  {}
}
