/** The session table of Manager (internal/session/session.go): its operations, and who owns each session over every
    run. */
module Sessions {
  import opened Bytes
  import opened Sets

  type Id = string

  const MAX_SESSIONS: nat := 50

  /** A session object, and what the table records about it. Ids are never reused. */
  datatype Session = Session(id: Id, remote: bool)

  /** One call of Close or Detach on a session object. */
  datatype Ending = Ending(session: Session, detached: bool)

  function Endings(ss: seq<Session>): (es: seq<Ending>)
    ensures |es| == |ss| && forall i :: 0 <= i < |ss| ==> es[i] == Ending(ss[i], false)
  {
    seq(|ss|, i requires 0 <= i < |ss| => Ending(ss[i], false))
  }

  datatype Info = Info(target: string, createdAt: int, lastUsed: int)

  datatype Secret = Secret(text: Str, lineEnding: Str)

  /** The two maps guarded by the manager's mutex. */
  datatype Table = Table(sessions: map<Id, Session>, infos: map<Id, Info>) {
    predicate Full() {
      |sessions| >= MAX_SESSIONS
    }

    function Insert(s: Session, target: string, now: int): Table {
      Table(sessions[s.id := s], infos[s.id := Info(target, now, now)])
    }

    function Touch(id: Id, now: int): Table {
      if id in sessions && id in infos then this.(infos := infos[id := infos[id].(lastUsed := now)]) else this
    }

    function Remove(ids: set<Id>): Table {
      Table(sessions - ids, infos - ids)
    }

    /** The sessions an idle sweep takes out. */
    function Expired(now: int, timeout: int): set<Id> {
      set id | id in infos && now - infos[id].lastUsed > timeout && id in sessions
    }

    ghost predicate Consistent() {
      && sessions.Keys == infos.Keys
      && |sessions| <= MAX_SESSIONS
      && forall id :: id in sessions ==> sessions[id].id == id
    }
  }

  // ---- The code ----

  class Manager {
    var sessions: map<Id, Session>
    var infos: map<Id, Info>
    var pendingSecrets: map<Id, Secret>
    var disposed: seq<Ending>  // the calls made on session objects, in order
    const idleTimeout: int

    constructor (idleTimeout: int)
      ensures TableNow() == Table(map[], map[]) && pendingSecrets == map[] && disposed == []
      ensures this.idleTimeout == idleTimeout
    {
      sessions, infos, pendingSecrets, disposed := map[], map[], map[], [];
      this.idleTimeout := idleTimeout;
    }

    function TableNow(): Table
      reads this
    {
      Table(sessions, infos)
    }

    method Add(s: Session, target: string, now: int) returns (ok: bool)
      modifies this
      ensures ok == !old(TableNow()).Full()
      ensures TableNow() == if ok then old(TableNow()).Insert(s, target, now) else old(TableNow())
      ensures disposed == if ok then old(disposed) else old(disposed) + [Ending(s, false)]
      ensures pendingSecrets == old(pendingSecrets)
    {
      if |sessions| >= MAX_SESSIONS {
        disposed := disposed + [Ending(s, false)];
        return false;
      }
      sessions := sessions[s.id := s];
      infos := infos[s.id := Info(target, now, now)];
      ok := true;
    }

    method Get(id: Id, now: int) returns (s: Option<Session>)
      modifies this`infos
      ensures s == if id in sessions then Some(sessions[id]) else None
      ensures TableNow() == old(TableNow()).Touch(id, now)
    {
      if id !in sessions {
        return None;
      }
      if id in infos {
        infos := infos[id := infos[id].(lastUsed := now)];
      }
      s := Some(sessions[id]);
    }

    method Close(id: Id) returns (found: bool)
      modifies this
      ensures found == (id in old(sessions))
      ensures TableNow() == if found then old(TableNow()).Remove({id}) else old(TableNow())
      ensures disposed == if found then old(disposed) + [Ending(old(sessions)[id], false)] else old(disposed)
      ensures pendingSecrets == if found then old(pendingSecrets) - {id} else old(pendingSecrets)
    {
      if id !in sessions {
        return false;
      }
      var s := sessions[id];
      sessions := sessions - {id};
      infos := infos - {id};
      ClearSecret(id);
      disposed := disposed + [Ending(s, false)];
      found := true;
    }

    /** As Close, but a remote session is only disconnected. */
    method Detach(id: Id) returns (found: bool)
      modifies this
      ensures found == (id in old(sessions))
      ensures TableNow() == if found then old(TableNow()).Remove({id}) else old(TableNow())
      ensures disposed == if found then old(disposed) + [Ending(old(sessions)[id], old(sessions)[id].remote)]
              else old(disposed)
      ensures pendingSecrets == if found then old(pendingSecrets) - {id} else old(pendingSecrets)
    {
      if id !in sessions {
        return false;
      }
      var s := sessions[id];
      sessions := sessions - {id};
      infos := infos - {id};
      ClearSecret(id);
      if s.remote {
        disposed := disposed + [Ending(s, true)];
      } else {
        disposed := disposed + [Ending(s, false)];
      }
      found := true;
    }

    /** One tick of the idle reaper: collect and remove under the mutex, then close. Pending secrets stay. */
    method ReapOnce(now: int)
      modifies this
      ensures TableNow() == old(TableNow()).Remove(old(TableNow()).Expired(now, idleTimeout))
      ensures pendingSecrets == old(pendingSecrets)
      ensures exists closed: seq<Id> ::
                && disposed == old(disposed) + Endings(old(Objects(closed)))
                && multiset(closed) == multiset(old(TableNow()).Expired(now, idleTimeout))
    {
      var toClose, rest := [], infos.Keys;
      ghost var table := TableNow();
      ghost var closed: seq<Id> := [];
      ghost var gone: set<Id> := {};
      while rest != {}
        invariant rest <= table.infos.Keys && gone !! rest
        invariant gone == set id | id in table.Expired(now, idleTimeout) && id !in rest
        invariant TableNow() == table.Remove(gone)
        invariant table == old(TableNow()) && pendingSecrets == old(pendingSecrets) && disposed == old(disposed)
        invariant toClose == old(Objects(closed)) && multiset(closed) == multiset(gone)
        decreases rest
      {
        var id :| id in rest;
        rest := rest - {id};
        if now - infos[id].lastUsed > idleTimeout && id in sessions {
          toClose := toClose + [sessions[id]];
          sessions := sessions - {id};
          infos := infos - {id};
          closed := closed + [id];
          gone := gone + {id};
        }
      }
      assert gone == table.Expired(now, idleTimeout);
      disposed := disposed + Endings(toClose);
    }

    /** The session objects registered under the ids. */
    ghost function Objects(ids: seq<Id>): seq<Session>
      reads this
    {
      if ids == [] then []
      else
        var id := ids[|ids| - 1];
        Objects(ids[..|ids| - 1]) + (if id in sessions then [sessions[id]] else [])
    }

    method SetPendingSecret(id: Id, ps: Secret)
      modifies this`pendingSecrets
      ensures pendingSecrets == old(pendingSecrets)[id := ps]
    {
      pendingSecrets := pendingSecrets[id := ps];
    }

    method TakeSecret(id: Id) returns (ps: Option<Secret>)
      modifies this`pendingSecrets
      ensures ps == if id in old(pendingSecrets) then Some(old(pendingSecrets)[id]) else None
      ensures pendingSecrets == old(pendingSecrets) - {id}
    {
      if id !in pendingSecrets {
        return None;
      }
      ps := Some(pendingSecrets[id]);
      pendingSecrets := pendingSecrets - {id};
    }

    method ClearSecret(id: Id)
      modifies this`pendingSecrets
      ensures pendingSecrets == old(pendingSecrets) - {id}
    {
      pendingSecrets := pendingSecrets - {id};
    }

    /** maybeAutoSendSecret: take, then either write the secret or put it back exactly as it was. */
    method MaybeAutoSendSecret(id: Id, isPasswordPrompt: bool) returns (written: Option<Str>)
      modifies this`pendingSecrets
      ensures written == if id in old(pendingSecrets) && isPasswordPrompt
                         then Some(old(pendingSecrets)[id].text + old(pendingSecrets)[id].lineEnding) else None
      ensures pendingSecrets == if isPasswordPrompt then old(pendingSecrets) - {id} else old(pendingSecrets)
    {
      var ps := TakeSecret(id);
      if ps.None? {
        return None;
      }
      if isPasswordPrompt {
        return Some(ps.value.text + ps.value.lineEnding);
      }
      SetPendingSecret(id, ps.value);
      written := None;
    }
  }

  // ---- Ownership over runs ----

  /** `offered` are the sessions ever passed to Add; `hands` those removed from the table by a call that has not yet
      closed or detached them; `ended` the calls of Close or Detach made. */
  datatype State = State(table: Table, offered: set<Id>, hands: multiset<Id>, ended: multiset<Id>)

  datatype Step =
    | Add(s: Session, target: string, now: int)  // ids are fresh: an id already offered does nothing
    | Get(id: Id, now: int)
    | Remove(id: Id)                             // the critical section of Close or Detach
    | Reap(now: int, timeout: int)               // the critical section of the reaper
    | End(id: Id)                                // the Close or Detach call that follows

  function Next(st: State, step: Step): State {
    match step
    case Add(s, target, now) =>
      if s.id in st.offered then st
      else if st.table.Full() then st.(offered := st.offered + {s.id}, ended := st.ended + multiset{s.id})
      else st.(offered := st.offered + {s.id}, table := st.table.Insert(s, target, now))
    case Get(id, now) => st.(table := st.table.Touch(id, now))
    case Remove(id) =>
      if id in st.table.sessions then st.(table := st.table.Remove({id}), hands := st.hands + multiset{id}) else st
    case Reap(now, timeout) =>
      var ids := st.table.Expired(now, timeout);
      st.(table := st.table.Remove(ids), hands := st.hands + multiset(ids))
    case End(id) =>
      if id in st.hands then st.(hands := st.hands - multiset{id}, ended := st.ended + multiset{id}) else st
  }

  const INITIAL := State(Table(map[], map[]), {}, multiset{}, multiset{})

  function Run(steps: seq<Step>): State {
    if steps == [] then INITIAL else Next(Run(steps[..|steps| - 1]), steps[|steps| - 1])
  }

  /** How many places a session is in. */
  ghost function Places(st: State, id: Id): nat {
    (if id in st.table.sessions then 1 else 0) + st.hands[id] + st.ended[id]
  }

  ghost predicate Inv(st: State) {
    && st.table.Consistent()
    && forall id :: Places(st, id) == if id in st.offered then 1 else 0
  }

  lemma RemoveKeepsTable(t: Table, ids: set<Id>)
    requires t.Consistent()
    ensures t.Remove(ids).Consistent()
  {
    Shrinks(t.sessions, ids);
  }

  lemma InsertKeepsTable(t: Table, s: Session, target: string, now: int)
    requires t.Consistent() && !t.Full() && s.id !in t.sessions
    ensures t.Insert(s, target, now).Consistent()
  {
    assert t.Insert(s, target, now).sessions.Keys == t.sessions.Keys + {s.id};
  }

  lemma StepKeepsTable(st: State, step: Step)
    requires Inv(st)
    ensures Next(st, step).table.Consistent()
  {
    match step
    case Add(s, target, now) =>
      assert Places(st, s.id) == if s.id in st.offered then 1 else 0;
      if s.id !in st.offered && !st.table.Full() {
        InsertKeepsTable(st.table, s, target, now);
      }
    case Get(id, now) =>
    case Remove(id) => RemoveKeepsTable(st.table, {id});
    case Reap(now, timeout) => RemoveKeepsTable(st.table, st.table.Expired(now, timeout));
    case End(id) =>
  }

  lemma StepKeepsPlaces(st: State, step: Step, id: Id)
    requires Inv(st)
    ensures Places(Next(st, step), id) == if id in Next(st, step).offered then 1 else 0
  {
    assert Places(st, id) == if id in st.offered then 1 else 0;
  }

  lemma StepKeepsInv(st: State, step: Step)
    requires Inv(st)
    ensures Inv(Next(st, step))
  {
    StepKeepsTable(st, step);
    forall id
      ensures Places(Next(st, step), id) == if id in Next(st, step).offered then 1 else 0
    {
      StepKeepsPlaces(st, step, id);
    }
  }

  lemma {:induction false} RunKeepsInv(steps: seq<Step>)
    ensures Inv(Run(steps))
  {
    if steps != [] {
      RunKeepsInv(steps[..|steps| - 1]);
      StepKeepsInv(Run(steps[..|steps| - 1]), steps[|steps| - 1]);
    }
  }

  /** Over every run: both maps have the same keys, at most 50 sessions are registered, and every session ever passed
      to Add is in exactly one place: registered, removed and about to be ended by exactly one caller, or ended exactly
      once. */
  lemma EverySessionHasOneOwner(steps: seq<Step>, id: Id)
    ensures var st := Run(steps);
            && st.table.sessions.Keys == st.table.infos.Keys && |st.table.sessions| <= MAX_SESSIONS
            && (id in st.offered <==> id in st.table.sessions || st.hands[id] == 1 || st.ended[id] == 1)
            && st.hands[id] + st.ended[id] <= 1
            && (id in st.table.sessions ==> st.table.sessions[id].id == id && st.hands[id] + st.ended[id] == 0)
  {
    RunKeepsInv(steps);
    assert Places(Run(steps), id) == if id in Run(steps).offered then 1 else 0;
  }

  // ---- When a session was last used ----

  /** Step `step` registers session `id`, or looks it up. */
  predicate Uses(st: State, step: Step, id: Id) {
    || (step.Add? && step.s.id == id && id !in st.offered && |st.table.sessions| < 50)
    || (step.Get? && step.id == id && id in st.table.sessions)
  }

  /** The time of the last step of the run that did. */
  function LastUse(steps: seq<Step>, id: Id): Option<int> {
    if steps == [] then None
    else
      var step := steps[|steps| - 1];
      if Uses(Run(steps[..|steps| - 1]), step, id) then Some(step.now) else LastUse(steps[..|steps| - 1], id)
  }

  lemma StepUses(st: State, step: Step, id: Id)
    requires Inv(st) && id in Next(st, step).table.sessions
    ensures id in Next(st, step).table.infos
    ensures Next(st, step).table.infos[id].lastUsed
         == if Uses(st, step, id) then step.now else st.table.infos[id].lastUsed
    ensures !Uses(st, step, id) ==> id in st.table.sessions
  {
    assert Places(st, id) == if id in st.offered then 1 else 0;
  }

  /** In every run the table records, for each session registered, when it was registered or last looked up. */
  lemma {:induction false} TableKnowsLastUse(steps: seq<Step>, id: Id)
    requires id in Run(steps).table.sessions
    ensures id in Run(steps).table.infos
    ensures LastUse(steps, id) == Some(Run(steps).table.infos[id].lastUsed)
  {
    var before, step := steps[..|steps| - 1], steps[|steps| - 1];
    RunKeepsInv(before);
    StepUses(Run(before), step, id);
    if !Uses(Run(before), step, id) {
      TableKnowsLastUse(before, id);
    }
  }

  /** So a sweep takes out exactly the sessions that have not been used for longer than the limit, and leaves the
      others. */
  lemma ReapedExactlyWhenIdle(steps: seq<Step>, now: int, timeout: int, id: Id)
    requires id in Run(steps).table.sessions
    ensures var st, st' := Run(steps), Next(Run(steps), Reap(now, timeout));
            && LastUse(steps, id).Some?
            && (id !in st'.table.sessions <==> now - LastUse(steps, id).value > timeout)
            && (id in st'.hands <==> now - LastUse(steps, id).value > timeout)
  {
    RunKeepsInv(steps);
    TableKnowsLastUse(steps, id);
    assert Places(Run(steps), id) == if id in Run(steps).offered then 1 else 0;
  }

  /** Step `step` after `before` takes the session out: Close, Detach, or a sweep that finds it idle. */
  predicate TakesOut(before: seq<Step>, step: Step, id: Id) {
    || step == Remove(id)
    || (step.Reap? && LastUse(before, id).Some? && step.now - LastUse(before, id).value > step.timeout)
  }

  /** Some step registered the session, and none has taken it out since. */
  predicate IsRegistered(steps: seq<Step>, id: Id) {
    steps != [] &&
    var before, step := steps[..|steps| - 1], steps[|steps| - 1];
    (step.Add? && step.s.id == id && Uses(Run(before), step, id))
    || (IsRegistered(before, id) && !TakesOut(before, step, id))
  }

  /** In every run the table has exactly the sessions registered and not taken out since. */
  lemma {:induction false} RegisteredExactlyWhen(steps: seq<Step>, id: Id)
    ensures id in Run(steps).table.sessions <==> IsRegistered(steps, id)
  {
    if steps != [] {
      var before, step := steps[..|steps| - 1], steps[|steps| - 1];
      RegisteredExactlyWhen(before, id);
      RunKeepsInv(before);
      if id in Run(before).table.sessions {
        TableKnowsLastUse(before, id);
      }
      StepRegisters(Run(before), step, id);
    }
  }

  lemma StepRegisters(st: State, step: Step, id: Id)
    requires Inv(st)
    ensures var idle := step.Reap? && id in st.table.infos && step.now - st.table.infos[id].lastUsed > step.timeout;
            id in Next(st, step).table.sessions
            <==> (step.Add? && step.s.id == id && Uses(st, step, id))
                 || (id in st.table.sessions && step != Remove(id) && !idle)
  {
    assert Places(st, id) == if id in st.offered then 1 else 0;
  }

  /** A session that is new is registered as it is if fewer than 50 are, and is ended at once otherwise. */
  lemma AddRegistersBelowTheLimit(steps: seq<Step>, s: Session, target: string, now: int)
    requires s.id !in Run(steps).offered
    ensures var st, st' := Run(steps), Next(Run(steps), Add(s, target, now));
            if |st.table.sessions| < 50
            then s.id in st'.table.sessions && st'.table.sessions[s.id] == s
                 && s.id in st'.table.infos && st'.table.infos[s.id] == Info(target, now, now)
            else st'.table == st.table && st'.ended[s.id] == 1
  {
    RunKeepsInv(steps);
    assert Places(Run(steps), s.id) == 0;
  }

  /** What was taken out of the table can always be ended by the one that took it. */
  lemma TakenOutCanBeEnded(steps: seq<Step>, id: Id)
    requires id in Run(steps).hands
    ensures var st' := Next(Run(steps), End(id)); id !in st'.hands && st'.ended[id] == 1
  {
    RunKeepsInv(steps);
    assert Places(Run(steps), id) == if id in Run(steps).offered then 1 else 0;
  }
}
