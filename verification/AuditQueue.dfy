/** The drop-oldest queue of the audit client (internal/audit/client.go): any number of enqueue calls, each three
    selects on the queue channel, against one worker. Entries are numbered by the call that brings them. */
module AuditQueue {

  const CAPACITY: nat := 256

  datatype Pc =
    | First               // about to try the send
    | Full                // the queue was full: about to receive the oldest
    | Drained             // received one; dropped.Add(1) is next
    | Retry               // about to try the send again
    | Done(accepted: bool)

  datatype Removal = Removal(entry: nat, byWorker: bool)

  /** `accepted` are the entries ever sent into the channel and `removed` those received from it, in order. */
  datatype State = State(queue: seq<nat>, calls: seq<Pc>, dropped: nat, working: bool, accepted: seq<nat>,
                         removed: seq<Removal>)

  datatype Step =
    | Call
    | TrySend(c: nat)
    | ReceiveOldest(c: nat)
    | CountDrop(c: nat)
    | SendAgain(c: nat)
    | WorkerTakes
    | WorkerExits

  function Send(s: State, c: nat): State
    requires c < |s.calls|
  {
    s.(queue := s.queue + [c], accepted := s.accepted + [c], calls := s.calls[c := Done(true)])
  }

  function Remove(s: State, byWorker: bool): State
    requires s.queue != []
  {
    s.(queue := s.queue[1..], removed := s.removed + [Removal(s.queue[0], byWorker)])
  }

  function Next(s: State, step: Step): State {
    match step
    case Call => s.(calls := s.calls + [First])
    case TrySend(c) =>
      if c < |s.calls| && s.calls[c] == First
      then if |s.queue| < CAPACITY then Send(s, c) else s.(calls := s.calls[c := Full]) else s
    case ReceiveOldest(c) =>
      if c < |s.calls| && s.calls[c] == Full
      then if s.queue != [] then Remove(s, false).(calls := s.calls[c := Drained]) else s.(calls := s.calls[c := Retry])
      else s
    case CountDrop(c) =>
      if c < |s.calls| && s.calls[c] == Drained then s.(calls := s.calls[c := Retry], dropped := s.dropped + 1) else s
    case SendAgain(c) =>
      if c < |s.calls| && s.calls[c] == Retry
      then if |s.queue| < CAPACITY then Send(s, c) else s.(calls := s.calls[c := Done(false)]) else s
    case WorkerTakes => if s.working && s.queue != [] then Remove(s, true) else s
    case WorkerExits => s.(working := false)
  }

  const INITIAL := State([], [], 0, true, [], [])

  function Run(steps: seq<Step>): State {
    if steps == [] then INITIAL else Next(Run(steps[..|steps| - 1]), steps[|steps| - 1])
  }

  function Entries(rs: seq<Removal>): seq<nat> {
    if rs == [] then [] else Entries(rs[..|rs| - 1]) + [rs[|rs| - 1].entry]
  }

  /** The removals by the worker, or those by enqueue calls. */
  function Count(rs: seq<Removal>, byWorker: bool): nat {
    if rs == [] then 0
    else Count(rs[..|rs| - 1], byWorker) + (if rs[|rs| - 1].byWorker == byWorker then 1 else 0)
  }

  /** The calls that have drained an entry and not counted it yet. */
  function Uncounted(calls: seq<Pc>): nat {
    if calls == [] then 0 else Uncounted(calls[..|calls| - 1]) + (if calls[|calls| - 1] == Drained then 1 else 0)
  }

  lemma {:induction false} UncountedUpdate(calls: seq<Pc>, c: nat, pc: Pc)
    requires c < |calls|
    ensures Uncounted(calls[c := pc]) + (if calls[c] == Drained then 1 else 0)
         == Uncounted(calls) + (if pc == Drained then 1 else 0)
  {
    var n := |calls| - 1;
    if c == n {
      assert calls[c := pc][..n] == calls[..n];
    } else {
      assert calls[c := pc][..n] == calls[..n][c := pc];
      UncountedUpdate(calls[..n], c, pc);
    }
  }

  ghost predicate Inv(s: State) {
    && |s.queue| <= CAPACITY
    && s.accepted == Entries(s.removed) + s.queue
    && s.dropped + Uncounted(s.calls) == Count(s.removed, false)
    && Count(s.removed, true) + Count(s.removed, false) == |s.removed|
  }

  lemma RemoveKeepsOrder(s: State, byWorker: bool)
    requires Inv(s) && s.queue != []
    ensures var s' := Remove(s, byWorker);
            && s'.accepted == Entries(s'.removed) + s'.queue
            && Count(s'.removed, byWorker) == Count(s.removed, byWorker) + 1
            && Count(s'.removed, !byWorker) == Count(s.removed, !byWorker)
  {
    var s' := Remove(s, byWorker);
    assert s'.removed[..|s.removed|] == s.removed;
    assert s.queue == [s.queue[0]] + s.queue[1..];
  }

  lemma ReceiveKeepsInv(s: State, c: nat)
    requires Inv(s)
    ensures Inv(Next(s, ReceiveOldest(c)))
  {
    if c < |s.calls| && s.calls[c] == Full {
      UncountedUpdate(s.calls, c, if s.queue != [] then Drained else Retry);
      if s.queue != [] {
        RemoveKeepsOrder(s, false);
      }
    }
  }

  lemma TrySendKeepsInv(s: State, c: nat)
    requires Inv(s)
    ensures Inv(Next(s, TrySend(c)))
  {
    if c < |s.calls| && s.calls[c] == First {
      UncountedUpdate(s.calls, c, if |s.queue| < CAPACITY then Done(true) else Full);
    }
  }

  lemma SendAgainKeepsInv(s: State, c: nat)
    requires Inv(s)
    ensures Inv(Next(s, SendAgain(c)))
  {
    if c < |s.calls| && s.calls[c] == Retry {
      UncountedUpdate(s.calls, c, if |s.queue| < CAPACITY then Done(true) else Done(false));
    }
  }

  lemma StepKeepsInv(s: State, step: Step)
    requires Inv(s)
    ensures Inv(Next(s, step))
  {
    match step
    case Call => assert (s.calls + [First])[..|s.calls|] == s.calls;
    case TrySend(c) => TrySendKeepsInv(s, c);
    case ReceiveOldest(c) => ReceiveKeepsInv(s, c);
    case CountDrop(c) =>
      if c < |s.calls| && s.calls[c] == Drained {
        UncountedUpdate(s.calls, c, Retry);
      }
    case SendAgain(c) => SendAgainKeepsInv(s, c);
    case WorkerTakes =>
      if s.working && s.queue != [] {
        RemoveKeepsOrder(s, true);
      }
    case WorkerExits =>
  }

  /** In every interleaving the queue never holds more than 256 entries and is first-in first-out: what was accepted is
      what was received, in the same order, followed by what is queued. Received entries went to the worker or were
      drained, and `dropped` counts the drained, up to the calls about to count theirs. */
  lemma QueueConserves(steps: seq<Step>)
    ensures Inv(Run(steps))
    ensures var s := Run(steps);
            |s.accepted| == Count(s.removed, true) + Count(s.removed, false) + |s.queue|
  {
    ReachedState(steps);
    QueueLength(Run(steps));
  }

  lemma EntriesLength(rs: seq<Removal>)
    ensures |Entries(rs)| == |rs|
  {}

  // ---- When the newest entry gets in ----

  predicate IsDone(pc: Pc) {
    pc.Done?
  }

  /** The same system, one enqueue call at a time. */
  function NextAlone(s: State, step: Step): State {
    if step.Call? && exists c :: 0 <= c < |s.calls| && !IsDone(s.calls[c]) then s else Next(s, step)
  }

  function RunAlone(steps: seq<Step>): State {
    if steps == [] then INITIAL else NextAlone(RunAlone(steps[..|steps| - 1]), steps[|steps| - 1])
  }

  /** Only the last call can be under way; past its drain there is room, which only it can take. */
  ghost predicate RoomForTheLast(s: State) {
    && (forall c :: 0 <= c < |s.calls| ==> IsDone(s.calls[c]) || c == |s.calls| - 1)
    && (forall c :: 0 <= c < |s.calls| && IsDone(s.calls[c]) ==> s.calls[c].accepted)
    && (forall c :: 0 <= c < |s.calls| && (s.calls[c] == Drained || s.calls[c] == Retry) ==> |s.queue| < CAPACITY)
    && |s.queue| <= CAPACITY
  }

  /** When enqueue calls do not overlap, every entry gets in, whatever the worker does between the three selects. */
  lemma {:induction false} NewestAlwaysGetsIn(steps: seq<Step>)
    ensures RoomForTheLast(RunAlone(steps))
  {
    if steps != [] {
      NewestAlwaysGetsIn(steps[..|steps| - 1]);
    }
  }

  // ---- Exactly when an entry is lost ----

  /** What is accepted belongs to calls that have ended so. */
  ghost predicate AcceptedOk(s: State) {
    forall e :: e in s.accepted ==> e < |s.calls| && s.calls[e] == Done(true)
  }

  lemma StepKeepsAccepted(s: State, step: Step)
    requires AcceptedOk(s)
    ensures AcceptedOk(Next(s, step))
    ensures s.accepted <= Next(s, step).accepted && s.removed <= Next(s, step).removed
  {}

  function RunFrom(s: State, steps: seq<Step>): State {
    if steps == [] then s else Next(RunFrom(s, steps[..|steps| - 1]), steps[|steps| - 1])
  }

  lemma {:induction false} RunFromKeeps(s: State, steps: seq<Step>)
    requires Inv(s) && AcceptedOk(s)
    ensures var s' := RunFrom(s, steps);
            Inv(s') && AcceptedOk(s') && s.accepted <= s'.accepted && s.removed <= s'.removed
  {
    if steps != [] {
      var before := RunFrom(s, steps[..|steps| - 1]);
      RunFromKeeps(s, steps[..|steps| - 1]);
      StepKeepsInv(before, steps[|steps| - 1]);
      StepKeepsAccepted(before, steps[|steps| - 1]);
    }
  }

  lemma {:induction false} RunIsRunFrom(steps: seq<Step>)
    ensures Run(steps) == RunFrom(INITIAL, steps)
  {
    if steps != [] {
      RunIsRunFrom(steps[..|steps| - 1]);
    }
  }

  /** The entries sent and received between two states of a run. */
  function Sent(s: State, s': State): int {
    |s'.accepted| - |s.accepted|
  }

  function Received(s: State, s': State): int {
    |s'.removed| - |s.removed|
  }

  lemma QueueLength(s: State)
    requires Inv(s)
    ensures |s.queue| == |s.accepted| - |s.removed|
  {
    EntriesLength(s.removed);
  }

  /** How the last send of call `c` ends, given the state its drain left. */
  ghost predicate LastSend(drained: State, s: State, c: nat)
    requires c < |s.calls|
  {
    var end := Next(s, SendAgain(c));
    var accepted := Sent(drained, s) - Received(drained, s) < CAPACITY - |drained.queue|;
    && end.calls[c] == Done(accepted)
    && end.accepted == (if accepted then s.accepted + [c] else s.accepted)
    && c !in s.accepted
    && (!accepted ==> Sent(drained, s) > 0)
  }

  lemma LastSendIs(drained: State, s: State, c: nat)
    requires Inv(drained) && Inv(s) && AcceptedOk(s) && c < |s.calls| && s.calls[c] == Retry
    requires |drained.queue| < CAPACITY && drained.removed <= s.removed
    ensures LastSend(drained, s, c)
  {
    QueueLength(drained);
    QueueLength(s);
  }

  lemma DrainMakesRoom(s: State, c: nat)
    requires Inv(s) && c < |s.calls| && s.calls[c] == Full
    ensures |Next(s, ReceiveOldest(c)).queue| < CAPACITY
  {}

  /** In every run, with any overlap: a call that found the queue full loses its entry exactly when, between its drain
      and its last send, other calls sent as many entries more than were received as its drain had left room for. That
      room is never nothing, so some other call must have sent; and a lost entry was never in the queue. */
  lemma EntryIsLostExactlyWhen(steps: seq<Step>, more: seq<Step>, c: nat)
    requires c < |Run(steps).calls| && Run(steps).calls[c] == Full
    requires var s := RunFrom(Next(Run(steps), ReceiveOldest(c)), more); c < |s.calls| && s.calls[c] == Retry
    ensures var drained := Next(Run(steps), ReceiveOldest(c));
            |drained.queue| < CAPACITY && LastSend(drained, RunFrom(drained, more), c)
  {
    ReachedState(steps);
    FromTheDrainOn(Run(steps), more, c);
  }

  lemma ReachedState(steps: seq<Step>)
    ensures Inv(Run(steps)) && AcceptedOk(Run(steps))
  {
    RunIsRunFrom(steps);
    assert INITIAL.queue == [] && INITIAL.accepted == [] && INITIAL.removed == [] && INITIAL.calls == [];
    RunFromKeeps(INITIAL, steps);
  }

  lemma FromTheDrainOn(s: State, more: seq<Step>, c: nat)
    requires Inv(s) && AcceptedOk(s) && c < |s.calls| && s.calls[c] == Full
    requires var s' := RunFrom(Next(s, ReceiveOldest(c)), more); c < |s'.calls| && s'.calls[c] == Retry
    ensures var drained := Next(s, ReceiveOldest(c));
            |drained.queue| < CAPACITY && LastSend(drained, RunFrom(drained, more), c)
  {
    var drained := Next(s, ReceiveOldest(c));
    DrainMakesRoom(s, c);
    StepKeepsInv(s, ReceiveOldest(c));
    StepKeepsAccepted(s, ReceiveOldest(c));
    RunFromKeeps(drained, more);
    LastSendIs(drained, RunFrom(drained, more), c);
  }

  /** And from every state with a full queue it happens: a call that drains it can lose the place to another. */
  lemma OverlapCanLoseTheNewest(s: State, c: nat, d: nat)
    requires c < |s.calls| && d < |s.calls| && c != d && s.calls[c] == First && s.calls[d] == First
             && |s.queue| == CAPACITY
    ensures var drained := Next(Next(s, TrySend(c)), ReceiveOldest(c));
            var s' := Next(Next(Next(drained, TrySend(d)), CountDrop(c)), SendAgain(c));
            && |s'.calls| == |s.calls| && s'.calls[c] == Done(false) && s'.calls[d] == Done(true)
            && s'.accepted == s.accepted + [d] && s'.dropped == s.dropped + 1
  {
    var s1 := Next(s, TrySend(c));
    var s2 := Next(s1, ReceiveOldest(c));
    var s3 := Next(s2, TrySend(d));
    var s4 := Next(s3, CountDrop(c));
    assert s2.calls[c] == Drained && s2.calls[d] == First && |s2.queue| == CAPACITY - 1;
    assert s4.calls[c] == Retry && |s4.queue| == CAPACITY;
  }

  lemma RunSnoc(steps: seq<Step>, step: Step)
    ensures Run(steps + [step]) == Next(Run(steps), step)
  {
    assert (steps + [step])[..|steps|] == steps;
  }

  /** Calls one after the other fill the queue. */
  lemma {:induction false} FillQueue(n: nat) returns (steps: seq<Step>)
    requires n <= CAPACITY
    ensures var s := Run(steps); |s.queue| == n && |s.calls| == n && s.dropped == 0
  {
    if n == 0 {
      steps := [];
    } else {
      var before := FillQueue(n - 1);
      RunSnoc(before, Call);
      RunSnoc(before + [Call], TrySend(n - 1));
      steps := before + [Call] + [TrySend(n - 1)];
    }
  }

  /** Such a run from the start: the call that brings entry 256 drains the oldest, and loses its place to entry 257. */
  lemma NewestIsLostInARun() returns (steps: seq<Step>)
    ensures var s := Run(steps);
            |s.calls| == 258 && s.calls[256] == Done(false) && s.calls[257] == Done(true) && s.dropped == 1
  {
    var full := FillQueue(CAPACITY);
    RunSnoc(full, Call);
    var one := full + [Call];
    RunSnoc(one, Call);
    var two := one + [Call];
    OverlapCanLoseTheNewest(Run(two), 256, 257);
    RunSnoc(two, TrySend(256));
    RunSnoc(two + [TrySend(256)], ReceiveOldest(256));
    var drained := two + [TrySend(256)] + [ReceiveOldest(256)];
    RunSnoc(drained, TrySend(257));
    RunSnoc(drained + [TrySend(257)], CountDrop(256));
    RunSnoc(drained + [TrySend(257)] + [CountDrop(256)], SendAgain(256));
    steps := drained + [TrySend(257)] + [CountDrop(256)] + [SendAgain(256)];
  }

  // ---- Who drains, and who gets what ----

  /** The first try of call `c` finds the queue full. */
  predicate FindsFull(s: State, step: Step, c: nat) {
    step == TrySend(c) && c < |s.calls| && s.calls[c] == First && |s.queue| >= 256
  }

  predicate HasFoundFull(steps: seq<Step>, c: nat) {
    steps != []
    && (HasFoundFull(steps[..|steps| - 1], c) || FindsFull(Run(steps[..|steps| - 1]), steps[|steps| - 1], c))
  }

  predicate PastTheFirstTry(pc: Pc) {
    pc == Full || pc == Drained || pc == Retry || pc == Done(false)
  }

  /** In every run a call drains an entry, or loses its own, only if it has found the queue full. */
  lemma {:induction false} DrainsOnlyWhenFull(steps: seq<Step>, c: nat)
    requires c < |Run(steps).calls| && PastTheFirstTry(Run(steps).calls[c])
    ensures HasFoundFull(steps, c)
  {
    var before, step := steps[..|steps| - 1], steps[|steps| - 1];
    StepPastTheFirstTry(Run(before), step, c);
    if c < |Run(before).calls| && PastTheFirstTry(Run(before).calls[c]) {
      DrainsOnlyWhenFull(before, c);
    }
  }

  lemma StepPastTheFirstTry(s: State, step: Step, c: nat)
    requires c < |Next(s, step).calls| && PastTheFirstTry(Next(s, step).calls[c])
    ensures FindsFull(s, step, c) || (c < |s.calls| && PastTheFirstTry(s.calls[c]))
  {}

  /** A call that finds room puts its entry at the end at once, and drains nothing. */
  lemma RoomIsTakenAtOnce(steps: seq<Step>, c: nat)
    requires c < |Run(steps).calls| && Run(steps).calls[c] == First && |Run(steps).queue| < 256
    ensures var s, s' := Run(steps), Next(Run(steps), TrySend(c));
            && c < |s'.calls| && s'.calls[c] == Done(true) && s'.queue == s.queue + [c]
            && s'.dropped == s.dropped && s'.removed == s.removed
  {}

  /** The worker takes `n` entries. */
  function TakeMany(s: State, n: nat): State {
    if n == 0 then s else Next(TakeMany(s, n - 1), WorkerTakes)
  }

  /** As long as the worker runs, every queued entry can reach it: it takes the entries from the front, one by one. */
  lemma {:induction false} QueuedEntriesReachTheWorker(s: State, n: nat)
    requires s.working && n <= |s.queue|
    ensures var s' := TakeMany(s, n);
            && s'.working && s'.queue == s.queue[n..] && |s'.removed| == |s.removed| + n
            && s.removed <= s'.removed
            && forall i :: 0 <= i < n ==> s'.removed[|s.removed| + i] == Removal(s.queue[i], true)
  {
    if n > 0 {
      QueuedEntriesReachTheWorker(s, n - 1);
      assert TakeMany(s, n - 1).queue[0] == s.queue[n - 1];
    }
  }
}
