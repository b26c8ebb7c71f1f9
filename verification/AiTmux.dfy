/** Session registration in the ai-tmux server (internal/aitx/server.go): the check / fork / re-check of createSession
    against concurrent creates, closes, the idle reaper and the shutdown sweep. */
module AiTmux {
  import opened Bytes
  import opened Sets

  const MAX_SESSIONS: nat := 100

  type Id = nat

  /** What a create can find: room at its first check or none, a PTY or none, room at its second check or none. */
  datatype Event = Room | NoRoom | Pty(id: Id) | NoPty | Registered(id: Id) | Refused(id: Id)

  datatype Pc =
    | Entering          // about to check the limit
    | Checked           // below the limit; the PTY is started next, outside the mutex
    | Forked(id: Id)    // the PTY runs but is not registered
    | Replied(how: Event)  // with the id, or with an error

  /** `sessions` maps ids to the time of last use; `started` counts the PTYs started, each with a fresh id; `removed`
      are those taken out for closing, or refused at the re-check, with multiplicity. */
  datatype State = State(sessions: map<Id, int>, started: nat, creates: seq<Pc>, removed: multiset<Id>)

  datatype Step =
    | Create
    | CheckLimit(c: nat)
    | Start(c: nat, ok: bool)
    | Register(c: nat, now: int)
    | Use(id: Id, now: int)
    | Close(id: Id)
    | Reap(now: int, timeout: int)
    | CloseAll

  function Expired(sessions: map<Id, int>, now: int, timeout: int): set<Id> {
    set id | id in sessions && now - sessions[id] > timeout
  }

  function Next(s: State, step: Step): State {
    match step
    case Create => s.(creates := s.creates + [Entering])
    case CheckLimit(c) =>
      if c < |s.creates| && s.creates[c] == Entering
      then s.(creates := s.creates[c := if |s.sessions| >= MAX_SESSIONS then Replied(NoRoom) else Checked]) else s
    case Start(c, ok) =>
      if c < |s.creates| && s.creates[c] == Checked
      then if ok then s.(creates := s.creates[c := Forked(s.started)], started := s.started + 1)
           else s.(creates := s.creates[c := Replied(NoPty)])
      else s
    case Register(c, now) =>
      if c < |s.creates| && s.creates[c].Forked?
      then var id := s.creates[c].id;
           if |s.sessions| >= MAX_SESSIONS
           then s.(creates := s.creates[c := Replied(Refused(id))], removed := s.removed + multiset{id})
           else s.(creates := s.creates[c := Replied(Registered(id))], sessions := s.sessions[id := now])
      else s
    case Use(id, now) => if id in s.sessions then s.(sessions := s.sessions[id := now]) else s
    case Close(id) =>
      if id in s.sessions then s.(sessions := s.sessions - {id}, removed := s.removed + multiset{id}) else s
    case Reap(now, timeout) =>
      var ids := Expired(s.sessions, now, timeout);
      s.(sessions := s.sessions - ids, removed := s.removed + multiset(ids))
    case CloseAll => s.(sessions := map[], removed := s.removed + multiset(s.sessions.Keys))
  }

  const INITIAL := State(map[], 0, [], multiset{})

  function Run(steps: seq<Step>): State {
    if steps == [] then INITIAL else Next(Run(steps[..|steps| - 1]), steps[|steps| - 1])
  }

  /** The creates holding the PTY `id`. */
  function HeldBy(creates: seq<Pc>, id: Id): nat {
    if creates == [] then 0
    else HeldBy(creates[..|creates| - 1], id) + (if creates[|creates| - 1] == Forked(id) then 1 else 0)
  }

  lemma {:induction false} HeldByUpdate(creates: seq<Pc>, c: nat, pc: Pc, id: Id)
    requires c < |creates|
    ensures HeldBy(creates[c := pc], id) + (if creates[c] == Forked(id) then 1 else 0)
         == HeldBy(creates, id) + (if pc == Forked(id) then 1 else 0)
  {
    var n := |creates| - 1;
    if c == n {
      assert creates[c := pc][..n] == creates[..n];
    } else {
      assert creates[c := pc][..n] == creates[..n][c := pc];
      HeldByUpdate(creates[..n], c, pc, id);
    }
  }

  lemma HeldBySnoc(creates: seq<Pc>, pc: Pc, id: Id)
    ensures HeldBy(creates + [pc], id) == HeldBy(creates, id) + (if pc == Forked(id) then 1 else 0)
  {
    assert (creates + [pc])[..|creates|] == creates;
  }

  ghost function Places(s: State, id: Id): nat {
    (if id in s.sessions then 1 else 0) + HeldBy(s.creates, id) + s.removed[id]
  }

  ghost predicate Inv(s: State) {
    && |s.sessions| <= MAX_SESSIONS
    && forall id: Id :: Places(s, id) == if id < s.started then 1 else 0
  }

  lemma StepKeepsPlaces(s: State, step: Step, id: Id)
    requires Inv(s)
    ensures Places(Next(s, step), id) == if id < Next(s, step).started then 1 else 0
  {
    assert Places(s, id) == if id < s.started then 1 else 0;
    match step
    case Create => HeldBySnoc(s.creates, Entering, id);
    case CheckLimit(c) =>
      if c < |s.creates| && s.creates[c] == Entering {
        HeldByUpdate(s.creates, c, if |s.sessions| >= MAX_SESSIONS then Replied(NoRoom) else Checked, id);
      }
    case Start(c, ok) =>
      if c < |s.creates| && s.creates[c] == Checked {
        HeldByUpdate(s.creates, c, if ok then Forked(s.started) else Replied(NoPty), id);
      }
    case Register(c, now) =>
      if c < |s.creates| && s.creates[c].Forked? {
        HeldByUpdate(s.creates, c, Next(s, Register(c, now)).creates[c], id);
      }
    case _ =>
  }

  lemma RegisterKeepsLimit(s: State, c: nat, now: int)
    requires Inv(s)
    ensures |Next(s, Register(c, now)).sessions| <= MAX_SESSIONS
  {
    if c < |s.creates| && s.creates[c].Forked? {
      var id := s.creates[c].id;
      assert s.sessions[id := now].Keys == s.sessions.Keys + {id};
    }
  }

  lemma UseKeepsLimit(s: State, id: Id, now: int)
    requires Inv(s)
    ensures |Next(s, Use(id, now)).sessions| <= MAX_SESSIONS
  {
    if id in s.sessions {
      assert s.sessions[id := now].Keys == s.sessions.Keys;
    }
  }

  lemma StepKeepsLimit(s: State, step: Step)
    requires Inv(s)
    ensures |Next(s, step).sessions| <= MAX_SESSIONS
  {
    match step
    case Register(c, now) => RegisterKeepsLimit(s, c, now);
    case Use(id, now) => UseKeepsLimit(s, id, now);
    case Close(id) => Shrinks(s.sessions, {id});
    case Reap(now, timeout) => Shrinks(s.sessions, Expired(s.sessions, now, timeout));
    case _ =>
  }

  lemma {:induction false} RunKeepsInv(steps: seq<Step>)
    ensures Inv(Run(steps))
  {
    if steps == [] {
      assert forall id: Id :: Places(INITIAL, id) == 0;
    } else {
      var before, step := Run(steps[..|steps| - 1]), steps[|steps| - 1];
      RunKeepsInv(steps[..|steps| - 1]);
      StepKeepsLimit(before, step);
      forall id: Id
        ensures Places(Run(steps), id) == if id < Run(steps).started then 1 else 0
      {
        StepKeepsPlaces(before, step, id);
      }
    }
  }

  /** For any number of concurrent creates, closes, reaper ticks and shutdown sweeps: at most 100 sessions are
      registered, and every PTY started is in exactly one place: registered, held by one unfinished create, or removed
      for closing, once. */
  lemma NoPtyIsLost(steps: seq<Step>, id: Id)
    ensures var s := Run(steps);
            && |s.sessions| <= MAX_SESSIONS
            && (id < s.started <==> id in s.sessions || HeldBy(s.creates, id) == 1 || s.removed[id] == 1)
            && HeldBy(s.creates, id) + s.removed[id] <= 1
            && (id in s.sessions ==> HeldBy(s.creates, id) + s.removed[id] == 0)
  {
    RunKeepsInv(steps);
    assert Places(Run(steps), id) == if id < Run(steps).started then 1 else 0;
  }

  /** Once every create has replied, no PTY is left outside the table unclosed. */
  lemma QuietServerOwnsEveryPty(steps: seq<Step>, id: Id)
    requires forall c :: 0 <= c < |Run(steps).creates| ==> Run(steps).creates[c].Replied?
    ensures var s := Run(steps);
            id < s.started ==> (id in s.sessions <==> s.removed[id] == 0)
  {
    NoPtyIsLost(steps, id);
    NobodyHolds(Run(steps).creates, id);
  }

  lemma {:induction false} NobodyHolds(creates: seq<Pc>, id: Id)
    requires forall c :: 0 <= c < |creates| ==> !creates[c].Forked?
    ensures HeldBy(creates, id) == 0
  {
    if creates != [] {
      NobodyHolds(creates[..|creates| - 1], id);
    }
  }

  // ---- After the shutdown sweep ----

  /** Step `t` registers session `id`. */
  predicate Registers(steps: seq<Step>, t: nat, id: Id)
    requires t < |steps|
  {
    var s, step := Run(steps[..t]), steps[t];
    && step.Register? && step.c < |s.creates| && s.creates[step.c] == Forked(id) && |s.sessions| < MAX_SESSIONS
  }

  /** Step `t` takes session `id` out of the table. */
  predicate Removes(steps: seq<Step>, t: nat, id: Id)
    requires t < |steps|
  {
    match steps[t]
    case Close(other) => other == id
    case Reap(now, timeout) => id in Expired(Run(steps[..t]).sessions, now, timeout)
    case CloseAll => true
    case _ => false
  }

  /** Step `t` registered the session, and none of the steps up to the `u`-th has taken it out since. */
  predicate StaysFrom(steps: seq<Step>, t: nat, u: nat, id: Id)
    requires t < u <= |steps|
  {
    Registers(steps, t, id) && forall v :: t < v < u ==> !Removes(steps, v, id)
  }

  lemma StepRegistered(s: State, step: Step, id: Id)
    ensures var registers := step.Register? && step.c < |s.creates| && s.creates[step.c] == Forked(id)
                             && |s.sessions| < MAX_SESSIONS;
            var removes := match step
              case Close(other) => other == id
              case Reap(now, timeout) => id in Expired(s.sessions, now, timeout)
              case CloseAll => true
              case _ => false;
            id in Next(s, step).sessions <==> registers || (id in s.sessions && !removes)
  {}

  ghost predicate IsLeft(steps: seq<Step>, from: nat, u: nat, id: Id)
    requires u <= |steps|
  {
    exists t: nat :: from <= t < u && StaysFrom(steps, t, u, id)
  }

  lemma StaysOn(steps: seq<Step>, t: nat, u: nat, id: Id)
    requires t < u < |steps|
    ensures StaysFrom(steps, t, u + 1, id) <==> StaysFrom(steps, t, u, id) && !Removes(steps, u, id)
  {}

  lemma IsLeftNext(steps: seq<Step>, u: nat, id: Id)
    requires u < |steps|
    ensures IsLeft(steps, 0, u + 1, id)
       <==> Registers(steps, u, id) || (IsLeft(steps, 0, u, id) && !Removes(steps, u, id))
  {
    if Registers(steps, u, id) {
      StaysAt(steps, u, u + 1, id);
    } else if IsLeft(steps, 0, u, id) && !Removes(steps, u, id) {
      var t: nat :| t < u && StaysFrom(steps, t, u, id);
      StaysOn(steps, t, u, id);
      StaysAt(steps, t, u + 1, id);
    } else if IsLeft(steps, 0, u + 1, id) {
      var t: nat :| t < u + 1 && StaysFrom(steps, t, u + 1, id);
      assert Registers(steps, t, id) && t < u;
      StaysOn(steps, t, u, id);
      StaysAt(steps, t, u, id);
      assert false;
    }
  }

  lemma StaysAt(steps: seq<Step>, t: nat, u: nat, id: Id)
    requires t < u <= |steps| && StaysFrom(steps, t, u, id)
    ensures IsLeft(steps, 0, u, id)
  {}

  lemma TableNext(steps: seq<Step>, u: nat, id: Id)
    requires u < |steps|
    ensures id in Run(steps[..u + 1]).sessions
       <==> Registers(steps, u, id) || (id in Run(steps[..u]).sessions && !Removes(steps, u, id))
  {
    assert steps[..u + 1] == steps[..u] + [steps[u]];
    RunSnoc(steps[..u], steps[u]);
    StepRegistered(Run(steps[..u]), steps[u], id);
  }

  /** In every run a session is in the table exactly if some step registered it and no later one has taken it out. */
  lemma {:induction false} RegisteredExactlyWhen(steps: seq<Step>, u: nat, id: Id)
    requires u <= |steps|
    ensures id in Run(steps[..u]).sessions <==> IsLeft(steps, 0, u, id)
  {
    if u > 0 {
      RegisteredExactlyWhen(steps, u - 1, id);
      TableNext(steps, u - 1, id);
      IsLeftNext(steps, u - 1, id);
    }
  }

  /** A swept server has a session left exactly if a create that was under way registered it after the sweep and
      nothing has closed it since: the sweep closes what is registered, not what is being created. */
  lemma SweptServerHasLeftExactly(steps: seq<Step>, sweep: nat, id: Id)
    requires sweep < |steps| && steps[sweep] == CloseAll
    ensures id in Run(steps).sessions <==> IsLeft(steps, sweep + 1, |steps|, id)
  {
    RegisteredExactlyWhen(steps, |steps|, id);
    assert steps[..|steps|] == steps;
    if IsLeft(steps, 0, |steps|, id) {
      var t: nat :| t < |steps| && StaysFrom(steps, t, |steps|, id);
      assert Removes(steps, sweep, id) && !Registers(steps, sweep, id);
      assert sweep < t;
    }
  }

  lemma RunSnoc(steps: seq<Step>, step: Step)
    ensures Run(steps + [step]) == Next(Run(steps), step)
  {
    assert (steps + [step])[..|steps|] == steps;
  }

  /** A run in which one is: the create was between its two checks when the server was swept. */
  lemma SweepMissesACreate(now: int) returns (steps: seq<Step>)
    ensures steps == [Create, CheckLimit(0), Start(0, true), CloseAll, Register(0, now)]
    ensures 0 in Run(steps).sessions && Run(steps).removed == multiset{}
  {
    var forked := [Create, CheckLimit(0), Start(0, true)];
    CreateUnderWay();
    RunSnoc(forked, CloseAll);
    RunSnoc(forked + [CloseAll], Register(0, now));
    SweptThenRegistered(now);
    steps := [Create, CheckLimit(0), Start(0, true), CloseAll, Register(0, now)];
    assert forked + [CloseAll] + [Register(0, now)] == steps;
  }

  /** A PTY that runs and is not registered, and no session. */
  const UNREGISTERED := State(map[], 1, [Forked(0)], multiset{})

  lemma SweptThenRegistered(now: int)
    ensures var s := Next(Next(UNREGISTERED, CloseAll), Register(0, now));
            0 in s.sessions && s.removed == multiset{}
  {}

  lemma CreateUnderWay()
    ensures Run([Create, CheckLimit(0), Start(0, true)]) == UNREGISTERED
  {
    RunSnoc([], Create);
    assert [] + [Create] == [Create];
    assert Run([Create]) == INITIAL.(creates := [Entering]);
    RunSnoc([Create], CheckLimit(0));
    assert [Create] + [CheckLimit(0)] == [Create, CheckLimit(0)];
    assert Run([Create, CheckLimit(0)]) == INITIAL.(creates := [Checked]);
    RunSnoc([Create, CheckLimit(0)], Start(0, true));
    assert [Create, CheckLimit(0)] + [Start(0, true)] == [Create, CheckLimit(0), Start(0, true)];
  }

  // ---- When a session was last used ----

  /** Step `step` registers session `id`, or uses it. */
  predicate Touches(s: State, step: Step, id: Id) {
    || (step.Register? && step.c < |s.creates| && s.creates[step.c] == Forked(id) && |s.sessions| < 100)
    || (step.Use? && step.id == id && id in s.sessions)
  }

  function LastUse(steps: seq<Step>, id: Id): Option<int> {
    if steps == [] then None
    else
      var step := steps[|steps| - 1];
      if Touches(Run(steps[..|steps| - 1]), step, id) then Some(step.now) else LastUse(steps[..|steps| - 1], id)
  }

  lemma StepTouches(s: State, step: Step, id: Id)
    requires id in Next(s, step).sessions
    ensures Touches(s, step, id) ==> Next(s, step).sessions[id] == step.now
    ensures !Touches(s, step, id) ==> id in s.sessions && Next(s, step).sessions[id] == s.sessions[id]
  {}

  /** In every run the table records when each session was registered or last used. */
  lemma {:induction false} TableKnowsLastUse(steps: seq<Step>, id: Id)
    requires id in Run(steps).sessions
    ensures LastUse(steps, id) == Some(Run(steps).sessions[id])
  {
    StepTouches(Run(steps[..|steps| - 1]), steps[|steps| - 1], id);
    if !Touches(Run(steps[..|steps| - 1]), steps[|steps| - 1], id) {
      TableKnowsLastUse(steps[..|steps| - 1], id);
    }
  }

  /** So the reaper takes out exactly the sessions that have not been used for longer than the limit, and leaves the
      others. */
  lemma ReapedExactlyWhenIdle(steps: seq<Step>, now: int, timeout: int, id: Id)
    requires id in Run(steps).sessions
    ensures LastUse(steps, id).Some?
    ensures id !in Next(Run(steps), Reap(now, timeout)).sessions <==> now - LastUse(steps, id).value > timeout
  {
    TableKnowsLastUse(steps, id);
  }

  // ---- How creates go ----

  predicate Finds(s: State, step: Step, c: nat, e: Event) {
    && c < |s.creates|
    && match e
       case Room => step == CheckLimit(c) && s.creates[c] == Entering && |s.sessions| < 100
       case NoRoom => step == CheckLimit(c) && s.creates[c] == Entering && |s.sessions| >= 100
       case Pty(id) => step == Start(c, true) && s.creates[c] == Checked && id == s.started
       case NoPty => step == Start(c, false) && s.creates[c] == Checked
       case Registered(id) => step.Register? && step.c == c && s.creates[c] == Forked(id) && |s.sessions| < 100
       case Refused(id) => step.Register? && step.c == c && s.creates[c] == Forked(id) && |s.sessions| >= 100
  }

  predicate HasFound(steps: seq<Step>, c: nat, e: Event) {
    steps != []
    && (HasFound(steps[..|steps| - 1], c, e) || Finds(Run(steps[..|steps| - 1]), steps[|steps| - 1], c, e))
  }

  /** What a create that stands at `pc` has found. */
  predicate HasMet(pc: Pc, e: Event) {
    match e
    case Room => pc.Checked? || pc.Forked? || (pc.Replied? && pc.how != NoRoom)
    case Pty(id) => pc == Forked(id) || pc == Replied(Registered(id)) || pc == Replied(Refused(id))
    case _ => pc == Replied(e)
  }

  /** A create replies after finding something that ends it. */
  predicate RepliesRight(pc: Pc) {
    pc.Replied? ==> !pc.how.Room? && !pc.how.Pty?
  }

  lemma CheckMeets(s: State, c: nat, e: Event)
    requires c < |s.creates| && RepliesRight(s.creates[c])
    ensures c < |Next(s, CheckLimit(c)).creates| && RepliesRight(Next(s, CheckLimit(c)).creates[c])
    ensures HasMet(Next(s, CheckLimit(c)).creates[c], e) <==> HasMet(s.creates[c], e) || Finds(s, CheckLimit(c), c, e)
  {}

  lemma StartMeets(s: State, c: nat, ok: bool, e: Event)
    requires c < |s.creates| && RepliesRight(s.creates[c])
    ensures c < |Next(s, Start(c, ok)).creates| && RepliesRight(Next(s, Start(c, ok)).creates[c])
    ensures HasMet(Next(s, Start(c, ok)).creates[c], e) <==> HasMet(s.creates[c], e) || Finds(s, Start(c, ok), c, e)
  {}

  lemma RegisterMeets(s: State, c: nat, now: int, e: Event)
    requires c < |s.creates| && RepliesRight(s.creates[c])
    ensures c < |Next(s, Register(c, now)).creates| && RepliesRight(Next(s, Register(c, now)).creates[c])
    ensures HasMet(Next(s, Register(c, now)).creates[c], e)
       <==> HasMet(s.creates[c], e) || Finds(s, Register(c, now), c, e)
  {}

  predicate IsOwn(step: Step, c: nat) {
    (step.CheckLimit? || step.Start? || step.Register?) && step.c == c
  }

  lemma OtherMeets(s: State, step: Step, c: nat, e: Event)
    requires c < |s.creates| && !IsOwn(step, c)
    ensures c < |Next(s, step).creates| && Next(s, step).creates[c] == s.creates[c] && !Finds(s, step, c, e)
  {}

  lemma StepMeets(s: State, step: Step, c: nat, e: Event)
    requires c < |s.creates| && RepliesRight(s.creates[c])
    ensures c < |Next(s, step).creates| && RepliesRight(Next(s, step).creates[c])
    ensures HasMet(Next(s, step).creates[c], e) <==> HasMet(s.creates[c], e) || Finds(s, step, c, e)
  {
    if !IsOwn(step, c) {
      OtherMeets(s, step, c, e);
    } else if step.CheckLimit? {
      CheckMeets(s, c, e);
    } else if step.Start? {
      StartMeets(s, c, step.ok, e);
    } else {
      RegisterMeets(s, c, step.now, e);
    }
  }

  /** In every run a create has found exactly what its place says: so it starts no PTY unless it found room at its
      first check, is refused before it starts one exactly if it found none, and registers or closes the one it started
      exactly as its second check says. */
  lemma {:induction false} CreatesGoByTheirChecks(steps: seq<Step>, c: nat, e: Event)
    requires c < |Run(steps).creates|
    ensures RepliesRight(Run(steps).creates[c])
    ensures HasMet(Run(steps).creates[c], e) <==> HasFound(steps, c, e)
  {
    var before, step := steps[..|steps| - 1], steps[|steps| - 1];
    if c < |Run(before).creates| {
      CreatesGoByTheirChecks(before, c, e);
      StepMeets(Run(before), step, c, e);
    } else {
      NothingFoundYet(before, c, e);
      NewCreate(Run(before), step, c);
    }
  }

  lemma NewCreate(s: State, step: Step, c: nat)
    requires |s.creates| <= c < |Next(s, step).creates|
    ensures Next(s, step).creates[c] == Entering
  {}

  lemma {:induction false} NothingFoundYet(steps: seq<Step>, c: nat, e: Event)
    requires |Run(steps).creates| <= c
    ensures !HasFound(steps, c, e)
  {
    if steps != [] {
      NeverFewer(Run(steps[..|steps| - 1]), steps[|steps| - 1]);
      NothingFoundYet(steps[..|steps| - 1], c, e);
    }
  }

  lemma NeverFewer(s: State, step: Step)
    ensures |s.creates| <= |Next(s, step).creates|
  {}
}
