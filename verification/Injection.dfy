/** Single-use credentials and inject_secret (internal/mcp/credentials.go), on top of the per-session locks: any number
    of inject_secret calls, one step per call they make, against cancellations, removals of sessions, new credentials
    and the other tools that queue for the same locks. */
module Injection {
  import opened Bytes
  import L = SessionLocks

  type Id = string

  datatype Credential = Credential(serial: nat, expiresAt: int)

  /** What purgeExpiredLocked leaves. */
  function Unexpired(creds: map<string, Credential>, now: int): map<string, Credential> {
    map k | k in creds && now <= creds[k].expiresAt :: creds[k]
  }

  // ---- The store and its records ----

  /** Credential `n` was consumed by call `h`. */
  datatype Took = Took(h: nat, n: nat)

  /** Credentials are numbered as they are stored; `purged` are those dropped as expired or replaced. */
  datatype Vault = Vault(stored: nat, creds: map<string, Credential>, purged: set<nat>, taken: seq<Took>)

  function Stored(v: Vault, key: string, expiresAt: int, now: int): Vault {
    Vault(v.stored + 1,
          Unexpired(v.creds, now)[key := Credential(v.stored, expiresAt)],
          v.purged + (set k | k in v.creds && (k == key || now > v.creds[k].expiresAt) :: v.creds[k].serial),
          v.taken)
  }

  function Taken(v: Vault, h: nat, key: string): Vault
    requires key in v.creds
  {
    v.(creds := v.creds - {key}, taken := v.taken + [Took(h, v.creds[key].serial)])
  }

  predicate InStore(v: Vault, n: nat) {
    exists k :: k in v.creds && v.creds[k].serial == n
  }

  predicate IsTaken(v: Vault, n: nat) {
    exists i :: 0 <= i < |v.taken| && v.taken[i].n == n
  }

  /** Credential `n` is in as many places as it should be. */
  predicate InOnePlace(v: Vault, n: nat) {
    && (n < v.stored <==> InStore(v, n) || IsTaken(v, n) || n in v.purged)
    && !(InStore(v, n) && IsTaken(v, n)) && !(InStore(v, n) && n in v.purged) && !(IsTaken(v, n) && n in v.purged)
  }

  /** Every credential stored is in one place. */
  ghost predicate VaultOk(v: Vault) {
    && (forall k1, k2 :: k1 in v.creds && k2 in v.creds && v.creds[k1].serial == v.creds[k2].serial ==> k1 == k2)
    && (forall i, j :: 0 <= i < j < |v.taken| ==> v.taken[i].n != v.taken[j].n)
    && (forall n: nat :: InOnePlace(v, n))
  }

  lemma TakenMoves(v: Vault, h: nat, key: string, m: nat)
    requires VaultOk(v) && key in v.creds
    ensures var v', n := Taken(v, h, key), v.creds[key].serial;
            && (InStore(v', m) <==> InStore(v, m) && m != n)
            && (IsTaken(v', m) <==> IsTaken(v, m) || m == n)
  {
    var v', n := Taken(v, h, key), v.creds[key].serial;
    if InStore(v, m) && m != n {
      var k :| k in v.creds && v.creds[k].serial == m;
      assert k in v'.creds && v'.creds[k].serial == m;
    }
    if IsTaken(v, m) {
      var i :| 0 <= i < |v.taken| && v.taken[i].n == m;
      assert v'.taken[i].n == m;
    }
    assert v'.taken[|v.taken|].n == n;
  }

  lemma TakenKeepsVault(v: Vault, h: nat, key: string)
    requires VaultOk(v) && key in v.creds
    ensures VaultOk(Taken(v, h, key))
    ensures !IsTaken(v, v.creds[key].serial)
  {
    var v', n := Taken(v, h, key), v.creds[key].serial;
    assert InStore(v, n) && InOnePlace(v, n);
    forall m: nat
      ensures InOnePlace(v', m)
    {
      assert InOnePlace(v, m);
      TakenMoves(v, h, key, m);
    }
    forall i | 0 <= i < |v.taken|
      ensures v.taken[i].n != n
    {
      assert IsTaken(v, v.taken[i].n);
    }
  }

  lemma StoredMoves(v: Vault, key: string, expiresAt: int, now: int, m: nat)
    requires VaultOk(v)
    ensures var v' := Stored(v, key, expiresAt, now);
            && (InStore(v', m) || m in v'.purged <==> InStore(v, m) || m in v.purged || m == v.stored)
            && (InStore(v', m) ==> m !in v'.purged)
            && (InStore(v', m) ==> InStore(v, m) || m == v.stored)
            && (m in v'.purged ==> m in v.purged || InStore(v, m))
  {
    var v' := Stored(v, key, expiresAt, now);
    assert v'.creds[key].serial == v.stored;
    assert InOnePlace(v, m) && InOnePlace(v, v.stored);
    if InStore(v, m) {
      var k :| k in v.creds && v.creds[k].serial == m;
      assert k != key && now <= v.creds[k].expiresAt ==> k in v'.creds && v'.creds[k].serial == m;
    }
    if InStore(v', m) {
      var k :| k in v'.creds && v'.creds[k].serial == m;
      assert k != key ==> k in v.creds && v.creds[k].serial == m;
    }
  }

  lemma StoredKeepsVault(v: Vault, key: string, expiresAt: int, now: int)
    requires VaultOk(v)
    ensures VaultOk(Stored(v, key, expiresAt, now))
  {
    var v' := Stored(v, key, expiresAt, now);
    forall m: nat
      ensures InOnePlace(v', m)
    {
      assert InOnePlace(v, m) && InOnePlace(v, v.stored);
      StoredMoves(v, key, expiresAt, now, m);
      assert IsTaken(v', m) == IsTaken(v, m);
    }
    forall k | k in v'.creds && k != key
      ensures k in v.creds && v'.creds[k] == v.creds[k] && v.creds[k].serial != v.stored
    {
      assert InStore(v, v.creds[k].serial) && InOnePlace(v, v.stored);
    }
  }

  // ---- The calls ----

  /** How a call ends; `n` is the credential it has consumed. */
  datatype Exit =
    | UnknownSession
    | LockAbandoned
    | SessionClosed
    | NoCredential
    | NotDecrypted(n: nat)
    | Abandoned(n: nat)
    | WriteFailed(n: nat)
    | Injected(n: nat)

  /** Where a call stands. */
  datatype Pc =
    | Looking             // about to look the session up
    | Locking             // in LockSession
    | Refetching          // has the lock: about to look the session up again
    | Taking              // about to take the credential
    | Opening(n: nat)     // about to decrypt
    | Checking(n: nat)    // about to look at the context
    | Writing(n: nat)     // about to write to the session
    | Unlocking(e: Exit)  // in the deferred UnlockSession
    | Exited(e: Exit)

  datatype Inject = Inject(id: Id, key: string, pc: Pc, ctxDone: bool)

  /** What a step does besides moving on: nothing, consume the credential, write to the session. */
  datatype Effect = Nothing | Burn | Deliver

  /** One step of a call whose lock handler is at `l`; `ok` is how the decryption or the write turns out. */
  function Does(c: Inject, l: L.Pc, open: set<Id>, creds: map<string, Credential>, ok: bool): (Pc, Effect) {
    match c.pc
    case Looking => (if c.id in open then Locking else Exited(UnknownSession), Nothing)
    case Locking =>
      (if l == L.Holding then Refetching else if l == L.GaveUp then Exited(LockAbandoned) else c.pc, Nothing)
    case Refetching => (if c.id in open then Taking else Unlocking(SessionClosed), Nothing)
    case Taking =>
      if c.key in creds then (Opening(creds[c.key].serial), Burn) else (Unlocking(NoCredential), Nothing)
    case Opening(n) => (if ok then Checking(n) else Unlocking(NotDecrypted(n)), Nothing)
    case Checking(n) => (if c.ctxDone then Unlocking(Abandoned(n)) else Writing(n), Nothing)
    case Writing(n) => if ok then (Unlocking(Injected(n)), Deliver) else (Unlocking(WriteFailed(n)), Nothing)
    case Unlocking(e) => (if l == L.Released then Exited(e) else c.pc, Nothing)
    case Exited(e) => (c.pc, Nothing)
  }

  /** Credential `n` was written to session `to` by call `h`. */
  datatype Wrote = Wrote(h: nat, n: nat, to: Id)

  /** Calls are numbered as handlers of the lock machine. `registered` are the sessions registered so far, `open` those
      still there, `torn` those removed without their lock. */
  datatype State = State(
    locks: L.State, registered: set<Id>, open: set<Id>, torn: set<Id>, calls: map<nat, Inject>, vault: Vault,
    written: seq<Wrote>)

  datatype Step =
    | Register(id: Id)
    | Tear(id: Id)               // the idle reaper, or an abandoned create
    | Close(k: nat)              // close_session or detach_session by another handler, under the lock
    | Lock(step: L.Step)
    | Start(id: Id, key: string)
    | CtxDone(h: nat)
    | Acts(h: nat, ok: bool)
    | Store(key: string, expiresAt: int, now: int)

  /** A call takes its lock steps only inside LockSession and UnlockSession, and leaves the queue only when its context
      is done. */
  predicate MayLock(c: Inject, step: L.Step) {
    match step
    case LookUp(_) => c.pc == Locking
    case CtxDone(_) => c.ctxDone
    case LookUpAgain(_) => c.pc.Unlocking?
    case _ => true
  }

  function Next(s: State, step: Step): State {
    match step
    case Register(id) =>
      if id in s.registered then s else s.(registered := s.registered + {id}, open := s.open + {id})
    case Tear(id) => if id in s.open then s.(open := s.open - {id}, torn := s.torn + {id}) else s
    case Close(k) =>
      if k < |s.locks.hs| && s.locks.hs[k].pc == L.Holding && k !in s.calls
      then s.(open := s.open - {s.locks.hs[k].id}) else s
    case Lock(l) =>
      if !l.Arrive? && l.h in s.calls && !MayLock(s.calls[l.h], l) then s else s.(locks := L.Next(s.locks, l))
    case Start(id, key) =>
      s.(locks := L.Next(s.locks, L.Arrive(id)), calls := s.calls[|s.locks.hs| := Inject(id, key, Looking, false)])
    case CtxDone(h) => if h in s.calls then s.(calls := s.calls[h := s.calls[h].(ctxDone := true)]) else s
    case Acts(h, ok) =>
      if h in s.calls && h < |s.locks.hs|
      then
        var c := s.calls[h];
        var (pc, effect) := Does(c, s.locks.hs[h].pc, s.open, s.vault.creds, ok);
        s.(calls := s.calls[h := c.(pc := pc)],
           vault := if effect == Burn then Taken(s.vault, h, c.key) else s.vault,
           written := if effect == Deliver then s.written + [Wrote(h, c.pc.n, c.id)] else s.written)
      else s
    case Store(key, expiresAt, now) => s.(vault := Stored(s.vault, key, expiresAt, now))
  }

  const INITIAL := State(L.INITIAL, {}, {}, {}, map[], Vault(0, map[], {}, []), [])

  function Run(steps: seq<Step>): State {
    if steps == [] then INITIAL else Next(Run(steps[..|steps| - 1]), steps[|steps| - 1])
  }

  // ---- Where a call may stand ----

  function ConsumedBy(e: Exit): Option<nat> {
    if e.NotDecrypted? || e.Abandoned? || e.WriteFailed? || e.Injected? then Some(e.n) else None
  }

  /** The credential a call has consumed by now. */
  function Consumed(pc: Pc): Option<nat> {
    match pc
    case Opening(n) => Some(n)
    case Checking(n) => Some(n)
    case Writing(n) => Some(n)
    case Unlocking(e) => ConsumedBy(e)
    case Exited(e) => ConsumedBy(e)
    case _ => None
  }

  /** The credential whose contents a call has written. */
  function Delivered(pc: Pc): Option<nat> {
    if (pc.Unlocking? || pc.Exited?) && pc.e.Injected? then Some(pc.e.n) else None
  }

  /** Between the second look at the session and the unlock. */
  predicate InBody(pc: Pc) {
    pc.Taking? || pc.Opening? || pc.Checking? || pc.Writing?
  }

  /** Where a call stands and where its handler of the lock machine stands. */
  predicate InStep(pc: Pc, l: L.Pc) {
    match pc
    case Looking => l == L.Arriving
    case Locking => l == L.Arriving || l.Queued? || l == L.Holding || l == L.GaveUp
    case Unlocking(e) => !e.UnknownSession? && !e.LockAbandoned? && (l == L.Holding || l.Unlocking? || l == L.Released)
    case Exited(e) => l == if e.UnknownSession? then L.Arriving else if e.LockAbandoned? then L.GaveUp else L.Released
    case _ => l == L.Holding
  }

  predicate CallOk(c: Inject, l: L.Handler, open: set<Id>, torn: set<Id>) {
    && c.id == l.id
    && InStep(c.pc, l.pc)
    && (l.pc == L.GaveUp ==> c.ctxDone)
    && (InBody(c.pc) ==> c.id in open || c.id in torn)
  }

  ghost predicate CallsOk(s: State) {
    && L.Inv(s.locks)
    && forall h: nat :: h in s.calls ==> h < |s.locks.hs| && CallOk(s.calls[h], s.locks.hs[h], s.open, s.torn)
  }

  /** A session is there or was removed without its lock, never both; one that was closed under its lock is neither. */
  ghost predicate SessionsOk(s: State) {
    s.open <= s.registered && s.torn <= s.registered && s.open !! s.torn
  }

  lemma StepKeepsSessions(s: State, step: Step)
    requires SessionsOk(s)
    ensures SessionsOk(Next(s, step))
  {}

  lemma DoesKeepsCall(c: Inject, l: L.Handler, open: set<Id>, torn: set<Id>, creds: map<string, Credential>, ok: bool)
    requires CallOk(c, l, open, torn)
    ensures CallOk(c.(pc := Does(c, l.pc, open, creds, ok).0), l, open, torn)
  {}

  lemma DoesRecords(c: Inject, l: L.Pc, open: set<Id>, creds: map<string, Credential>, ok: bool)
    ensures var (pc, effect) := Does(c, l, open, creds, ok);
            && (effect == Nothing ==> Consumed(pc) == Consumed(c.pc) && Delivered(pc) == Delivered(c.pc))
            && (effect == Burn ==> c.key in creds && Consumed(c.pc) == None && Consumed(pc) == Some(creds[c.key].serial)
                                   && Delivered(pc) == Delivered(c.pc) == None)
            && (effect == Deliver ==> c.pc.Writing? && Consumed(pc) == Consumed(c.pc) == Some(c.pc.n)
                                      && Delivered(c.pc) == None && Delivered(pc) == Some(c.pc.n))
  {}

  /** The lock machine moves the handler of a call only as the call allows. */
  lemma LockKeepsCall(c: Inject, s: L.State, l: L.Step, h: nat, open: set<Id>, torn: set<Id>)
    requires h < |s.hs| && CallOk(c, s.hs[h], open, torn) && (!l.Arrive? && l.h == h ==> MayLock(c, l))
    ensures h < |L.Next(s, l).hs| && CallOk(c, L.Next(s, l).hs[h], open, torn)
  {}

  /** Another handler that closes a session under its lock is not closing the one a call is working on. */
  lemma CloseKeepsCall(s: State, k: nat, h: nat)
    requires CallsOk(s) && h in s.calls && k < |s.locks.hs| && s.locks.hs[k].pc == L.Holding && k !in s.calls
    ensures CallOk(s.calls[h], s.locks.hs[h], s.open - {s.locks.hs[k].id}, s.torn)
  {
    if InBody(s.calls[h].pc) && s.locks.hs[k].id == s.locks.hs[h].id {
      L.HolderIsUnique(s.locks, h, k);
    }
  }

  lemma StepKeepsCall(s: State, step: Step, h: nat)
    requires CallsOk(s) && h in Next(s, step).calls
    ensures var s' := Next(s, step);
            h < |s'.locks.hs| && CallOk(s'.calls[h], s'.locks.hs[h], s'.open, s'.torn)
  {
    match step
    case Lock(l) =>
      if !(!l.Arrive? && l.h in s.calls && !MayLock(s.calls[l.h], l)) {
        LockKeepsCall(s.calls[h], s.locks, l, h, s.open, s.torn);
      }
    case Close(k) =>
      if k < |s.locks.hs| && s.locks.hs[k].pc == L.Holding && k !in s.calls {
        CloseKeepsCall(s, k, h);
      }
    case Acts(k, ok) =>
      if k == h {
        DoesKeepsCall(s.calls[h], s.locks.hs[h], s.open, s.torn, s.vault.creds, ok);
      }
    case _ =>
  }

  lemma StepKeepsCalls(s: State, step: Step)
    requires CallsOk(s)
    ensures CallsOk(Next(s, step))
  {
    var s' := Next(s, step);
    assert L.Inv(s'.locks) by {
      if step.Lock? {
        L.StepKeepsInv(s.locks, step.step);
      } else if step.Start? {
        L.StepKeepsInv(s.locks, L.Arrive(step.id));
      }
    }
    forall h: nat | h in s'.calls
      ensures h < |s'.locks.hs| && CallOk(s'.calls[h], s'.locks.hs[h], s'.open, s'.torn)
    {
      StepKeepsCall(s, step, h);
    }
  }

  // ---- What has been consumed and written ----

  /** `taken` records exactly what the calls have consumed. */
  ghost predicate TakenOk(calls: map<nat, Inject>, taken: seq<Took>) {
    && (forall t :: t in taken ==> t.h in calls && Consumed(calls[t.h].pc) == Some(t.n))
    && (forall h: nat :: h in calls && Consumed(calls[h].pc).Some? ==> Took(h, Consumed(calls[h].pc).value) in taken)
  }

  /** `written` records exactly what they have written, and where. */
  ghost predicate WrittenOk(calls: map<nat, Inject>, written: seq<Wrote>) {
    && (forall w :: w in written ==> w.h in calls && w.to == calls[w.h].id && Delivered(calls[w.h].pc) == Some(w.n))
    && (forall h: nat :: h in calls && Delivered(calls[h].pc).Some? ==>
          Wrote(h, Delivered(calls[h].pc).value, calls[h].id) in written)
    && (forall i, j :: 0 <= i < j < |written| ==> written[i].n != written[j].n)
  }

  ghost predicate RecordsOk(s: State) {
    TakenOk(s.calls, s.vault.taken) && WrittenOk(s.calls, s.written) && VaultOk(s.vault)
  }

  /** Only one call consumes a credential. */
  lemma ConsumerIsUnique(s: State, h: nat, k: nat)
    requires RecordsOk(s) && h in s.calls && k in s.calls
    requires Consumed(s.calls[h].pc).Some? && Consumed(s.calls[h].pc) == Consumed(s.calls[k].pc)
    ensures h == k
  {
    var taken, n := s.vault.taken, Consumed(s.calls[h].pc).value;
    assert Took(h, n) in taken && Took(k, n) in taken;
    var i :| 0 <= i < |taken| && taken[i] == Took(h, n);
    var j :| 0 <= j < |taken| && taken[j] == Took(k, n);
    assert i == j;
  }

  lemma BurnKeepsRecords(s: State, h: nat, ok: bool)
    requires CallsOk(s) && RecordsOk(s) && h in s.calls
    requires Does(s.calls[h], s.locks.hs[h].pc, s.open, s.vault.creds, ok).1 == Burn
    ensures RecordsOk(Next(s, Acts(h, ok)))
  {
    var c := s.calls[h];
    var pc := Does(c, s.locks.hs[h].pc, s.open, s.vault.creds, ok).0;
    DoesRecords(c, s.locks.hs[h].pc, s.open, s.vault.creds, ok);
    BurnRecords(s.calls, s.vault, s.written, h, pc);
  }

  lemma BurnRecords(calls: map<nat, Inject>, v: Vault, written: seq<Wrote>, h: nat, pc: Pc)
    requires TakenOk(calls, v.taken) && WrittenOk(calls, written) && VaultOk(v) && h in calls && calls[h].key in v.creds
    requires Consumed(calls[h].pc).None? && Consumed(pc) == Some(v.creds[calls[h].key].serial)
    requires Delivered(pc) == Delivered(calls[h].pc)
    ensures var calls', v' := calls[h := calls[h].(pc := pc)], Taken(v, h, calls[h].key);
            TakenOk(calls', v'.taken) && WrittenOk(calls', written) && VaultOk(v')
  {
    TakenKeepsVault(v, h, calls[h].key);
    TakenGrows(calls, v.taken, h, pc);
    WrittenStays(calls, written, h, pc);
  }

  lemma TakenGrows(calls: map<nat, Inject>, taken: seq<Took>, h: nat, pc: Pc)
    requires TakenOk(calls, taken) && h in calls && Consumed(calls[h].pc).None? && Consumed(pc).Some?
    ensures TakenOk(calls[h := calls[h].(pc := pc)], taken + [Took(h, Consumed(pc).value)])
  {
    var t := Took(h, Consumed(pc).value);
    assert forall u :: u in taken + [t] <==> u in taken || u == t;
  }

  lemma TakenStays(calls: map<nat, Inject>, taken: seq<Took>, h: nat, pc: Pc)
    requires TakenOk(calls, taken) && h in calls && Consumed(calls[h].pc) == Consumed(pc)
    ensures TakenOk(calls[h := calls[h].(pc := pc)], taken)
  {}

  lemma WrittenStays(calls: map<nat, Inject>, written: seq<Wrote>, h: nat, pc: Pc)
    requires WrittenOk(calls, written) && h in calls && Delivered(calls[h].pc) == Delivered(pc)
    ensures WrittenOk(calls[h := calls[h].(pc := pc)], written)
  {}

  lemma WrittenGrows(calls: map<nat, Inject>, written: seq<Wrote>, h: nat, pc: Pc)
    requires WrittenOk(calls, written) && h in calls && Delivered(calls[h].pc).None? && Delivered(pc).Some?
    requires forall i :: 0 <= i < |written| ==> written[i].n != Delivered(pc).value
    ensures WrittenOk(calls[h := calls[h].(pc := pc)], written + [Wrote(h, Delivered(pc).value, calls[h].id)])
  {
    var w := Wrote(h, Delivered(pc).value, calls[h].id);
    assert forall u :: u in written + [w] <==> u in written || u == w;
  }

  lemma DeliverKeepsRecords(s: State, h: nat, ok: bool)
    requires CallsOk(s) && RecordsOk(s) && h in s.calls
    requires Does(s.calls[h], s.locks.hs[h].pc, s.open, s.vault.creds, ok).1 == Deliver
    ensures RecordsOk(Next(s, Acts(h, ok)))
  {
    var c := s.calls[h];
    var pc := Does(c, s.locks.hs[h].pc, s.open, s.vault.creds, ok).0;
    DoesRecords(c, s.locks.hs[h].pc, s.open, s.vault.creds, ok);
    forall i | 0 <= i < |s.written|
      ensures s.written[i].n != c.pc.n
    {
      NotWrittenYet(s, h, s.written[i]);
    }
    TakenStays(s.calls, s.vault.taken, h, pc);
    WrittenGrows(s.calls, s.written, h, pc);
  }

  /** A credential that is about to be written has not been written: only the call that consumed it can have done so. */
  lemma NotWrittenYet(s: State, h: nat, w: Wrote)
    requires RecordsOk(s) && h in s.calls && s.calls[h].pc.Writing? && w in s.written
    ensures w.n != s.calls[h].pc.n
  {
    if w.n == s.calls[h].pc.n {
      ConsumerIsUnique(s, w.h, h);
      assert false;
    }
  }

  lemma StepKeepsRecords(s: State, step: Step)
    requires CallsOk(s) && RecordsOk(s)
    ensures RecordsOk(Next(s, step))
  {
    if step.Acts? {
      if step.h in s.calls {
        ActsKeepsRecords(s, step.h, step.ok);
      }
    } else {
      if step.Store? {
        StoredKeepsVault(s.vault, step.key, step.expiresAt, step.now);
      }
      OthersKeepRecords(s, step);
    }
  }

  lemma OthersKeepRecords(s: State, step: Step)
    requires CallsOk(s) && RecordsOk(s) && !step.Acts? && VaultOk(Next(s, step).vault)
    ensures RecordsOk(Next(s, step))
  {
    var s' := Next(s, step);
    assert s'.vault.taken == s.vault.taken && s'.written == s.written;
    if step.Start? {
      NewCallRecords(s.calls, s.vault.taken, s.written, |s.locks.hs|, s'.calls[|s.locks.hs|]);
    } else if step.CtxDone? {
      if step.h in s.calls {
        SameCallRecords(s.calls, s.vault.taken, s.written, step.h);
      }
    } else {
      assert s'.calls == s.calls;
    }
  }

  lemma NewCallRecords(calls: map<nat, Inject>, taken: seq<Took>, written: seq<Wrote>, h: nat, c: Inject)
    requires TakenOk(calls, taken) && WrittenOk(calls, written) && h !in calls && c.pc == Looking
    ensures TakenOk(calls[h := c], taken) && WrittenOk(calls[h := c], written)
  {}

  lemma SameCallRecords(calls: map<nat, Inject>, taken: seq<Took>, written: seq<Wrote>, h: nat)
    requires TakenOk(calls, taken) && WrittenOk(calls, written) && h in calls
    ensures TakenOk(calls[h := calls[h].(ctxDone := true)], taken)
            && WrittenOk(calls[h := calls[h].(ctxDone := true)], written)
  {}

  lemma ActsKeepsRecords(s: State, h: nat, ok: bool)
    requires CallsOk(s) && RecordsOk(s) && h in s.calls
    ensures RecordsOk(Next(s, Acts(h, ok)))
  {
    DoesRecords(s.calls[h], s.locks.hs[h].pc, s.open, s.vault.creds, ok);
    var effect := Does(s.calls[h], s.locks.hs[h].pc, s.open, s.vault.creds, ok).1;
    if effect == Burn {
      BurnKeepsRecords(s, h, ok);
    } else if effect == Deliver {
      DeliverKeepsRecords(s, h, ok);
    } else {
      var pc := Does(s.calls[h], s.locks.hs[h].pc, s.open, s.vault.creds, ok).0;
      TakenStays(s.calls, s.vault.taken, h, pc);
      WrittenStays(s.calls, s.written, h, pc);
    }
  }

  lemma EmptyVault()
    ensures VaultOk(INITIAL.vault)
  {
    forall n: nat
      ensures InOnePlace(INITIAL.vault, n)
    {
      assert !InStore(INITIAL.vault, n) && !IsTaken(INITIAL.vault, n);
    }
  }

  lemma {:induction false} RunKeepsInv(steps: seq<Step>)
    ensures CallsOk(Run(steps)) && RecordsOk(Run(steps)) && SessionsOk(Run(steps))
  {
    if steps == [] {
      EmptyVault();
    } else {
      var before, step := Run(steps[..|steps| - 1]), steps[|steps| - 1];
      RunKeepsInv(steps[..|steps| - 1]);
      StepKeepsCalls(before, step);
      StepKeepsRecords(before, step);
      StepKeepsSessions(before, step);
    }
  }

  // ---- What every run guarantees ----

  /** A call has consumed a credential exactly if it has got past the take: one that found the session unknown or
      closed, gave up in the queue, found no credential, or is not there yet, has consumed none. What it consumed no
      other call did. */
  lemma WhoBurnsWhat(steps: seq<Step>, h: nat, k: nat, n: nat)
    requires h in Run(steps).calls
    ensures var s := Run(steps);
            && (Took(h, n) in s.vault.taken <==> Consumed(s.calls[h].pc) == Some(n))
            && (Took(h, n) in s.vault.taken && Took(k, n) in s.vault.taken ==> h == k)
  {
    RunKeepsInv(steps);
    var s := Run(steps);
    if Took(h, n) in s.vault.taken && Took(k, n) in s.vault.taken {
      ConsumerIsUnique(s, h, k);
    }
  }

  /** Every credential ever stored is in the store, was consumed once, or was purged, and only one of these. */
  lemma CredentialsAreTakenOnce(steps: seq<Step>, n: nat, i: nat, j: nat)
    requires i < |Run(steps).vault.taken| && j < |Run(steps).vault.taken|
    ensures var v := Run(steps).vault;
            && InOnePlace(v, n)
            && (v.taken[i].n == v.taken[j].n ==> i == j)
  {
    RunKeepsInv(steps);
  }

  ghost predicate HasGivenUp(s: State, h: nat) {
    h in s.calls && h < |s.locks.hs| && s.locks.hs[h].pc == L.GaveUp
  }

  lemma {:induction false} GivenUpForGood(steps: seq<Step>, more: seq<Step>, h: nat)
    requires HasGivenUp(Run(steps), h)
    ensures HasGivenUp(Run(steps + more), h)
  {
    if more == [] {
      assert steps + more == steps;
    } else {
      var m := |more| - 1;
      assert (steps + more)[..|steps + more| - 1] == steps + more[..m];
      GivenUpForGood(steps, more[..m], h);
      StaysGivenUp(Run(steps + more[..m]), more[m], h);
    }
  }

  /** A call that is cancelled while it queues for the lock leaves the store alone in every continuation of the run: it
      has consumed nothing, never gets the lock, and ends abandoned. */
  lemma QueuedInjectBurnsNothing(steps: seq<Step>, more: seq<Step>, h: nat, n: nat)
    requires HasGivenUp(Run(steps), h)
    ensures var s := Run(steps + more);
            && h in s.calls && s.calls[h].ctxDone
            && (s.calls[h].pc == Locking || s.calls[h].pc == Exited(LockAbandoned))
            && Took(h, n) !in s.vault.taken
  {
    GivenUpForGood(steps, more, h);
    RunKeepsInv(steps + more);
    var s := Run(steps + more);
    assert CallOk(s.calls[h], s.locks.hs[h], s.open, s.torn);
    assert Consumed(s.calls[h].pc) == None;
  }

  lemma StaysGivenUp(s: State, step: Step, h: nat)
    requires HasGivenUp(s, h)
    ensures HasGivenUp(Next(s, step), h)
  {}

  /** A credential's contents are written at most once, by the call that consumed it, to that call's session, and
      exactly if the call reports success. When that is, InjectionRuns says in terms of the steps taken. */
  lemma WritesAreSuccesses(steps: seq<Step>, h: nat, n: nat, to: Id)
    requires h in Run(steps).calls && Run(steps).calls[h].pc.Exited?
    ensures var s := Run(steps);
            && (Wrote(h, n, to) in s.written <==> s.calls[h].pc == Exited(Injected(n)) && to == s.calls[h].id)
            && (forall i, j :: 0 <= i < j < |s.written| ==> s.written[i].n != s.written[j].n)
            && (forall w :: w in s.written ==> Took(w.h, w.n) in s.vault.taken)
  {
    RunKeepsInv(steps);
  }

  /** From its second look on, the session a call works on is gone exactly if something that does not take its lock has
      removed it; and no other call works on it. So a credential is consumed for a session that is gone exactly if it
      was removed so by the time of the take. */
  lemma SessionStaysForTheCall(steps: seq<Step>, h: nat, k: nat)
    requires h in Run(steps).calls && InBody(Run(steps).calls[h].pc)
    ensures var s := Run(steps);
            && (s.calls[h].id !in s.open <==> s.calls[h].id in s.torn)
            && (k in s.calls && InBody(s.calls[k].pc) && s.calls[k].id == s.calls[h].id ==> k == h)
  {
    RunKeepsInv(steps);
    var s := Run(steps);
    assert CallOk(s.calls[h], s.locks.hs[h], s.open, s.torn);
    if k in s.calls && InBody(s.calls[k].pc) && s.calls[k].id == s.calls[h].id {
      assert CallOk(s.calls[k], s.locks.hs[k], s.open, s.torn);
      L.HolderIsUnique(s.locks, h, k);
    }
  }

  /** From every state in which a call is about to take its credential, the idle reaper can have it burned for a
      session that is gone. */
  lemma ReaperCanBurn(s: State, h: nat, ok: bool)
    requires h in s.calls && h < |s.locks.hs| && s.calls[h].pc == Taking
    requires s.calls[h].id in s.open && s.calls[h].key in s.vault.creds
    ensures var s' := Next(Next(s, Tear(s.calls[h].id)), Acts(h, ok));
            s'.calls[h].id !in s'.open && Took(h, s.vault.creds[s.calls[h].key].serial) in s'.vault.taken
  {
    var s1 := Next(s, Tear(s.calls[h].id));
    assert Next(s1, Acts(h, ok)).vault.taken == s.vault.taken + [Took(h, s.vault.creds[s.calls[h].key].serial)];
  }

  lemma RunSnoc(steps: seq<Step>, step: Step)
    ensures Run(steps + [step]) == Next(Run(steps), step)
  {
    assert (steps + [step])[..|steps|] == steps;
  }

  /** The first call, with handler 0, on session `id`, at `pc`, with its lock handler at `l`; the credential is in the
      store. */
  predicate FirstCall(s: State, id: Id, key: string, pc: Pc, l: L.Pc) {
    && id in s.open
    && s.vault == Vault(1, map[key := Credential(0, 0)], {}, [])
    && s.locks.hs == [L.Handler(id, l)] && s.locks.full == (if l == L.Holding then s.locks.full else map[])
    && s.calls == map[0 := Inject(id, key, pc, false)]
  }

  lemma CallArrives(id: Id, key: string) returns (steps: seq<Step>)
    ensures FirstCall(Run(steps), id, key, Locking, L.Arriving)
  {
    var a := [Register(id)];
    assert a[..0] == [] && Run(a) == Next(INITIAL, Register(id));
    var b := a + [Store(key, 0, 0)];
    RunSnoc(a, Store(key, 0, 0));
    assert Run(b).vault == Vault(1, map[key := Credential(0, 0)], {}, []);
    var c := b + [Start(id, key)];
    RunSnoc(b, Start(id, key));
    assert FirstCall(Run(c), id, key, Looking, L.Arriving);
    steps := c + [Acts(0, true)];
    RunSnoc(c, Acts(0, true));
  }

  lemma CallGetsTheLock(before: seq<Step>, id: Id, key: string) returns (steps: seq<Step>)
    requires FirstCall(Run(before), id, key, Locking, L.Arriving)
    ensures FirstCall(Run(steps), id, key, Locking, L.Holding)
  {
    var s := Run(before);
    var a := before + [Lock(L.LookUp(0))];
    RunSnoc(before, Lock(L.LookUp(0)));
    assert Run(a).locks.hs[0].pc.Queued? && FirstCall(Run(a), id, key, Locking, Run(a).locks.hs[0].pc);
    steps := a + [Lock(L.Acquire(0))];
    RunSnoc(a, Lock(L.Acquire(0)));
  }

  /** Such a run from the start: the call takes its credential, which nobody can use again, for a session the reaper
      has just removed. */
  lemma ReaperBurnsInARun(id: Id, key: string) returns (steps: seq<Step>)
    ensures var s := Run(steps);
            0 in s.calls && s.calls[0].id == id && id in s.registered && id !in s.open && Took(0, 0) in s.vault.taken
  {
    var a := CallArrives(id, key);
    var b := CallGetsTheLock(a, id, key);
    var c := b + [Acts(0, true)];
    RunSnoc(b, Acts(0, true));
    assert FirstCall(Run(c), id, key, Refetching, L.Holding);
    var d := c + [Acts(0, true)];
    RunSnoc(c, Acts(0, true));
    assert FirstCall(Run(d), id, key, Taking, L.Holding);
    RunKeepsInv(d);
    ReaperCanBurn(Run(d), 0, true);
    RunSnoc(d, Tear(id));
    RunSnoc(d + [Tear(id)], Acts(0, true));
    steps := d + [Tear(id)] + [Acts(0, true)];
  }

  // ---- The code of the credential store ----

  class CredentialStore {
    var creds: map<string, Credential>

    constructor ()
      ensures creds == map[]
    {
      creds := map[];
    }

    method PurgeExpired(now: int)
      modifies this
      ensures creds == Unexpired(old(creds), now)
    {
      var rest := creds.Keys;
      ghost var before := creds;
      while rest != {}
        invariant rest <= before.Keys
        invariant creds == map k | k in before && (k in rest || now <= before[k].expiresAt) :: before[k]
        decreases rest
      {
        var id :| id in rest;
        rest := rest - {id};
        if now > creds[id].expiresAt {
          creds := creds - {id};
        }
      }
    }

    method Store(key: string, c: Credential, now: int)
      modifies this
      ensures creds == Unexpired(old(creds), now)[key := c]
    {
      PurgeExpired(now);
      creds := creds[key := c];
    }

    method Take(key: string) returns (c: Option<Credential>)
      modifies this
      ensures c == if key in old(creds) then Some(old(creds)[key]) else None
      ensures creds == old(creds) - {key}
    {
      if key !in creds {
        return None;
      }
      c := Some(creds[key]);
      creds := creds - {key};
    }
  }
}
