/** The output cache of RemoteSession (internal/session/remote.go): any number of Write and ReadScreen calls and of
    PollRemote loops, one step per critical section. Replies of the server are numbered in the order they come in. */
module RemoteOutput {
  import opened Bytes

  /** `poll` marks the ReadScreen calls made by a PollRemote loop. */
  datatype Pc =
    | Writing                        // Write, WriteRaw: blocked in call
    | Caching(r: nat)                // has its reply, about to store it in cachedOut
    | Reading(poll: bool)            // ReadScreen: about to look at the context, then at the cache
    | Asking(poll: bool)             // the cache was empty: blocked in call
    | Feeding(poll: bool, r: nat)    // about to write the reply to the local buffer
    | Starting                       // PollRemote: about to compare-and-swap isPolling
    | Polling                        // in the loop, waiting for a tick
    | Stopping                       // out of the loop, about to reset isPolling
    | Returned(out: Option<nat>)

  /** `fed` are the replies whose output is in the local buffer, in order; `lost` those overwritten in the cache. */
  datatype Session = Session(replies: nat, cached: Option<nat>, isPolling: bool, fed: seq<nat>, lost: seq<nat>)

  datatype State = State(actors: seq<Pc>, session: Session)

  datatype Act =
    | Reply | CallFails
    | Cache
    | Look(cancelled: bool)
    | Feed
    | Swap
    | Tick
    | Leave   // the context is done, or the session is not alive
    | Reset

  datatype Step = Write | ReadScreen | PollRemote | Acts(a: nat, act: Act)

  /** Where a ReadScreen ends: back in the polling loop, or with its caller. */
  function After(poll: bool, out: Option<nat>): Pc {
    if poll then Polling else Returned(out)
  }

  /** One step of an actor at `pc`; an action that is not its next one changes nothing. */
  function Does(pc: Pc, s: Session, act: Act): (Pc, Session) {
    match (pc, act)
    case (Writing, Reply) => (Caching(s.replies), s.(replies := s.replies + 1))
    case (Writing, CallFails) => (Returned(None), s)
    case (Caching(r), Cache) =>
      (Returned(None), s.(cached := Some(r), lost := if s.cached.Some? then s.lost + [s.cached.value] else s.lost))
    case (Reading(poll), Look(cancelled)) =>
      if cancelled then (After(poll, None), s)
      else if s.cached.Some? then (Feeding(poll, s.cached.value), s.(cached := None))
      else (Asking(poll), s)
    case (Asking(poll), Reply) => (Feeding(poll, s.replies), s.(replies := s.replies + 1))
    case (Asking(poll), CallFails) => (After(poll, None), s)
    case (Feeding(poll, r), Feed) => (After(poll, Some(r)), s.(fed := s.fed + [r]))
    case (Starting, Swap) => if s.isPolling then (Returned(None), s) else (Polling, s.(isPolling := true))
    case (Polling, Tick) => (Reading(true), s)
    case (Polling, Leave) => (Stopping, s)
    case (Stopping, Reset) => (Returned(None), s.(isPolling := false))
    case _ => (pc, s)
  }

  function Next(s: State, step: Step): State {
    match step
    case Write => s.(actors := s.actors + [Writing])
    case ReadScreen => s.(actors := s.actors + [Reading(false)])
    case PollRemote => s.(actors := s.actors + [Starting])
    case Acts(a, act) =>
      if a < |s.actors|
      then var (pc, session) := Does(s.actors[a], s.session, act); State(s.actors[a := pc], session)
      else s
  }

  const INITIAL := State([], Session(0, None, false, [], []))

  function Run(s: State, steps: seq<Step>): State
    decreases |steps|
  {
    if steps == [] then s else Run(Next(s, steps[0]), steps[1..])
  }

  // ---- Every reply is in one place ----

  function Carries(pc: Pc, r: nat): nat {
    if (pc.Caching? || pc.Feeding?) && pc.r == r then 1 else 0
  }

  /** The actors with reply `r` in hand. */
  function InHand(actors: seq<Pc>, r: nat): nat {
    if actors == [] then 0 else InHand(actors[..|actors| - 1], r) + Carries(actors[|actors| - 1], r)
  }

  lemma {:induction false} InHandUpdate(actors: seq<Pc>, a: nat, pc: Pc, r: nat)
    requires a < |actors|
    ensures InHand(actors[a := pc], r) + Carries(actors[a], r) == InHand(actors, r) + Carries(pc, r)
  {
    var n := |actors| - 1;
    if a == n {
      assert actors[a := pc][..n] == actors[..n];
    } else {
      assert actors[a := pc][..n] == actors[..n][a := pc];
      InHandUpdate(actors[..n], a, pc, r);
    }
  }

  function Stored(s: Session, r: nat): nat {
    (if s.cached == Some(r) then 1 else 0) + multiset(s.fed)[r] + multiset(s.lost)[r]
  }

  function Received(s: Session, r: nat): nat {
    if r < s.replies then 1 else 0
  }

  predicate InLoop(pc: Pc) {
    pc.Polling? || pc.Stopping? || ((pc.Reading? || pc.Asking? || pc.Feeding?) && pc.poll)
  }

  /** `poller` is the one actor inside PollRemote's loop, if there is one; isPolling says so. */
  ghost predicate PolledBy(s: State, poller: Option<nat>) {
    && s.session.isPolling == poller.Some?
    && (poller.Some? ==> poller.value < |s.actors|)
    && forall a: nat :: a < |s.actors| ==> (InLoop(s.actors[a]) <==> poller == Some(a))
  }

  predicate HandedBack(pc: Pc, s: Session) {
    pc.Returned? && pc.out.Some? ==> pc.out.value in s.fed
  }

  ghost predicate Inv(s: State) {
    && (forall r: nat :: InHand(s.actors, r) + Stored(s.session, r) == Received(s.session, r))
    && (exists poller: Option<nat> :: PolledBy(s, poller))
    && (forall a :: 0 <= a < |s.actors| ==> HandedBack(s.actors[a], s.session))
  }

  predicate Conserves(pc: Pc, s: Session, pc': Pc, s': Session, r: nat) {
    Carries(pc', r) + Stored(s', r) + Received(s, r) == Carries(pc, r) + Stored(s, r) + Received(s', r)
  }

  /** Whatever one actor does, it neither drops nor copies a reply. */
  lemma DoesConserves(pc: Pc, s: Session, act: Act, r: nat)
    ensures var (pc', s') := Does(pc, s, act); Conserves(pc, s, pc', s', r)
  {
    if pc.Feeding? && act == Feed {
      FeedConserves(pc, s, r);
    } else if pc.Caching? && act == Act.Cache {
      CacheConserves(pc, s, r);
    } else {
      OthersConserve(pc, s, act, r);
    }
  }

  lemma OthersConserve(pc: Pc, s: Session, act: Act, r: nat)
    requires !(pc.Feeding? && act == Feed) && !(pc.Caching? && act == Act.Cache)
    ensures var (pc', s') := Does(pc, s, act); Conserves(pc, s, pc', s', r)
  {
    var s' := Does(pc, s, act).1;
    assert s'.fed == s.fed && s'.lost == s.lost;
  }

  lemma FeedConserves(pc: Pc, s: Session, r: nat)
    requires pc.Feeding?
    ensures Conserves(pc, s, After(pc.poll, Some(pc.r)), s.(fed := s.fed + [pc.r]), r)
  {
    CountSnoc(s.fed, pc.r, r);
  }

  lemma CacheConserves(pc: Pc, s: Session, r: nat)
    requires pc.Caching?
    ensures var lost := if s.cached.Some? then s.lost + [s.cached.value] else s.lost;
            Conserves(pc, s, Returned(None), s.(cached := Some(pc.r), lost := lost), r)
  {
    if s.cached.Some? {
      CountSnoc(s.lost, s.cached.value, r);
    }
  }

  lemma CountSnoc(xs: seq<nat>, x: nat, r: nat)
    ensures multiset(xs + [x])[r] == multiset(xs)[r] + if x == r then 1 else 0
  {}

  /** Only a won swap enters the loop, and only a reset leaves it. */
  lemma DoesPolls(pc: Pc, s: Session, act: Act)
    ensures var (pc', s') := Does(pc, s, act);
            && (InLoop(pc') && !InLoop(pc) ==> !s.isPolling && s'.isPolling)
            && (!InLoop(pc') && InLoop(pc) ==> !s'.isPolling)
            && (InLoop(pc') == InLoop(pc) ==> s'.isPolling == s.isPolling)
  {}

  lemma StepConserves(s: State, step: Step, r: nat)
    requires InHand(s.actors, r) + Stored(s.session, r) == Received(s.session, r)
    ensures InHand(Next(s, step).actors, r) + Stored(Next(s, step).session, r) == Received(Next(s, step).session, r)
  {
    match step
    case Acts(a, act) =>
      if a < |s.actors| {
        DoesConserves(s.actors[a], s.session, act, r);
        InHandUpdate(s.actors, a, Does(s.actors[a], s.session, act).0, r);
      }
    case Write => InHandSnoc(s.actors, Writing, r);
    case ReadScreen => InHandSnoc(s.actors, Reading(false), r);
    case PollRemote => InHandSnoc(s.actors, Starting, r);
  }

  lemma InHandSnoc(actors: seq<Pc>, pc: Pc, r: nat)
    ensures InHand(actors + [pc], r) == InHand(actors, r) + Carries(pc, r)
  {
    assert (actors + [pc])[..|actors|] == actors;
  }

  lemma StepPolls(s: State, step: Step, poller: Option<nat>)
    requires PolledBy(s, poller)
    ensures exists poller': Option<nat> :: PolledBy(Next(s, step), poller')
  {
    var s' := Next(s, step);
    if step.Acts? && step.a < |s.actors| {
      DoesPolls(s.actors[step.a], s.session, step.act);
      assert InLoop(s.actors[step.a]) <==> poller == Some(step.a);
      var poller' :=
        if InLoop(s'.actors[step.a]) then Some(step.a) else if poller == Some(step.a) then None else poller;
      assert PolledBy(s', poller');
    } else {
      assert PolledBy(s', poller);
    }
  }

  lemma StepHandsBack(s: State, step: Step)
    requires forall a :: 0 <= a < |s.actors| ==> HandedBack(s.actors[a], s.session)
    ensures forall a :: 0 <= a < |Next(s, step).actors| ==> HandedBack(Next(s, step).actors[a], Next(s, step).session)
  {
    if step.Acts? && step.a < |s.actors| {
      assert HandedBack(s.actors[step.a], s.session);
    }
  }

  lemma StepKeepsInv(s: State, step: Step)
    requires Inv(s)
    ensures Inv(Next(s, step))
  {
    var poller: Option<nat> :| PolledBy(s, poller);
    StepPolls(s, step, poller);
    StepHandsBack(s, step);
    forall r: nat
      ensures InHand(Next(s, step).actors, r) + Stored(Next(s, step).session, r) == Received(Next(s, step).session, r)
    {
      StepConserves(s, step, r);
    }
  }

  lemma {:induction false} RunKeepsInv(s: State, steps: seq<Step>)
    requires Inv(s)
    ensures Inv(Run(s, steps))
    decreases |steps|
  {
    if steps != [] {
      StepKeepsInv(s, steps[0]);
      RunKeepsInv(Next(s, steps[0]), steps[1..]);
    }
  }

  lemma InitialInv()
    ensures Inv(INITIAL)
  {
    assert PolledBy(INITIAL, None);
  }

  /** In every interleaving each reply of the server is in exactly one place: in the hand of one call, in the cache, in
      the local buffer, or overwritten in the cache; and what ReadScreen returned is in the local buffer. */
  lemma EveryReplyIsInOnePlace(steps: seq<Step>, r: nat)
    ensures var s := Run(INITIAL, steps);
            && (r < s.session.replies <==>
                InHand(s.actors, r) == 1 || s.session.cached == Some(r) || r in s.session.fed || r in s.session.lost)
            && InHand(s.actors, r) + Stored(s.session, r) <= 1
            && (forall a :: 0 <= a < |s.actors| && s.actors[a] == Returned(Some(r)) ==> r in s.session.fed)
  {
    InitialInv();
    RunKeepsInv(INITIAL, steps);
    var s := Run(INITIAL, steps);
    assert InHand(s.actors, r) + Stored(s.session, r) == Received(s.session, r);
    assert (r in s.session.fed <==> multiset(s.session.fed)[r] > 0)
           && (r in s.session.lost <==> multiset(s.session.lost)[r] > 0);
    forall a | 0 <= a < |s.actors| && s.actors[a] == Returned(Some(r))
      ensures r in s.session.fed
    {
      assert HandedBack(s.actors[a], s.session);
    }
  }

  /** At most one PollRemote is in its loop, and isPolling is set exactly while one is. */
  lemma OnePoller(steps: seq<Step>, a: nat, b: nat)
    requires a < |Run(INITIAL, steps).actors| && b < |Run(INITIAL, steps).actors|
    ensures var s := Run(INITIAL, steps);
            && (InLoop(s.actors[a]) && InLoop(s.actors[b]) ==> a == b)
            && (s.session.isPolling <==> exists c: nat :: c < |s.actors| && InLoop(s.actors[c]))
  {
    InitialInv();
    RunKeepsInv(INITIAL, steps);
    var s := Run(INITIAL, steps);
    var poller: Option<nat> :| PolledBy(s, poller);
    if poller.Some? {
      assert InLoop(s.actors[poller.value]);
    }
  }

  // ---- The order of the local buffer ----

  predicate Busy(pc: Pc) {
    pc.Caching? || pc.Asking? || pc.Feeding?
  }

  predicate OthersIdle(actors: seq<Pc>, a: nat) {
    forall b :: 0 <= b < |actors| && b != a ==> !Busy(actors[b])
  }

  /** No call moves while another is between its look at the cache or its reply and its last step. The session lock
      gives this to the tools, but PollRemote runs outside it. */
  predicate OneAtATime(s: State, steps: seq<Step>)
    decreases |steps|
  {
    steps == [] ||
    ((steps[0].Acts? ==> OthersIdle(s.actors, steps[0].a)) && OneAtATime(Next(s, steps[0]), steps[1..]))
  }

  predicate Ascending(xs: seq<nat>, bound: nat) {
    && (forall i, j :: 0 <= i < j < |xs| ==> xs[i] < xs[j])
    && forall i :: 0 <= i < |xs| ==> xs[i] < bound
  }

  /** The local buffer, followed by the cache, is in order and below the bound. */
  predicate InOrder(s: Session, bound: nat) {
    match s.cached
    case None => Ascending(s.fed, bound)
    case Some(r) => r < bound && Ascending(s.fed, r)
  }

  /** What a busy call holds is newer than everything kept. */
  predicate Newest(pc: Pc, s: Session) {
    match pc
    case Caching(r) => r < s.replies && InOrder(s, r)
    case Feeding(_, r) => s.cached.None? && r < s.replies && Ascending(s.fed, r)
    case Asking(_) => s.cached.None?
    case _ => true
  }

  ghost predicate Ordered(s: State) {
    && InOrder(s.session, s.session.replies)
    && (forall a, b :: 0 <= a < |s.actors| && 0 <= b < |s.actors| && Busy(s.actors[a]) && Busy(s.actors[b]) ==> a == b)
    && forall a :: 0 <= a < |s.actors| ==> Newest(s.actors[a], s.session)
  }

  lemma DoesKeepsOrder(pc: Pc, s: Session, act: Act)
    requires InOrder(s, s.replies) && Newest(pc, s)
    ensures var (pc', s') := Does(pc, s, act);
            InOrder(s', s'.replies) && Newest(pc', s')
  {}

  lemma StepKeepsOrder(s: State, step: Step)
    requires Ordered(s) && (step.Acts? ==> OthersIdle(s.actors, step.a))
    ensures Ordered(Next(s, step))
  {
    if step.Acts? && step.a < |s.actors| {
      DoesKeepsOrder(s.actors[step.a], s.session, step.act);
    }
  }

  lemma {:induction false} RunKeepsOrder(s: State, steps: seq<Step>)
    requires Ordered(s) && OneAtATime(s, steps)
    ensures Ordered(Run(s, steps))
    decreases |steps|
  {
    if steps != [] {
      StepKeepsOrder(s, steps[0]);
      RunKeepsOrder(Next(s, steps[0]), steps[1..]);
    }
  }

  lemma {:induction false} AscendingIsAll(xs: seq<nat>, n: nat)
    requires Ascending(xs, n) && forall r: nat :: r < n ==> r in xs
    ensures |xs| == n && forall i :: 0 <= i < n ==> xs[i] == i
  {
    assert xs != [] ==> xs[0] < n;
    if n > 0 {
      var last := |xs| - 1;
      assert n - 1 in xs;
      assert xs[last] == n - 1;
      assert forall r: nat :: r < n - 1 ==> r in xs ==> r in xs[..last];
      AscendingIsAll(xs[..last], n - 1);
    }
  }

  /** When calls do not overlap, the local buffer and the cache hold replies in the order the server sent them; once no
      call is under way, the cache is empty and nothing was overwritten in it, the local buffer is all the output there
      was, each piece once and in order. */
  lemma LocalBufferIsTheOutput(steps: seq<Step>)
    requires OneAtATime(INITIAL, steps)
    ensures var s := Run(INITIAL, steps);
            && InOrder(s.session, s.session.replies)
            && (s.session.lost == [] && s.session.cached.None?
                && (forall a :: 0 <= a < |s.actors| ==> !Busy(s.actors[a]))
                ==> s.session.fed == seq(s.session.replies, i requires 0 <= i => i))
  {
    RunKeepsOrder(INITIAL, steps);
    var s := Run(INITIAL, steps);
    if s.session.lost == [] && s.session.cached.None? && forall a :: 0 <= a < |s.actors| ==> !Busy(s.actors[a]) {
      forall r: nat | r < s.session.replies
        ensures r in s.session.fed
      {
        EveryReplyIsInOnePlace(steps, r);
        NothingInHand(s.actors, r);
      }
      AscendingIsAll(s.session.fed, s.session.replies);
    }
  }

  lemma {:induction false} NothingInHand(actors: seq<Pc>, r: nat)
    requires forall a :: 0 <= a < |actors| ==> !Busy(actors[a])
    ensures InHand(actors, r) == 0
  {
    if actors != [] {
      NothingInHand(actors[..|actors| - 1], r);
    }
  }

  /** A ReadScreen and a poll that both found the cache empty can put their output into the local buffer in the wrong
      order. */
  lemma OverlapSwapsOutput(s: State, a: nat, b: nat)
    requires a < |s.actors| && b < |s.actors| && a != b && s.actors[a].Asking? && s.actors[b].Asking?
    ensures var n := s.session.replies;
            var s' := Next(Next(Next(Next(s, Acts(a, Reply)), Acts(b, Reply)), Acts(b, Feed)), Acts(a, Feed));
            s'.session.fed == s.session.fed + [n + 1, n]
  {
    var s1 := Next(s, Acts(a, Reply));
    var s2 := Next(s1, Acts(b, Reply));
    var s3 := Next(s2, Acts(b, Feed));
    assert s2.actors[a].Feeding? && s2.actors[b].Feeding?;
    assert s3.actors[a] == s2.actors[a];
  }

  lemma {:induction false} RunConcat(s: State, a: seq<Step>, b: seq<Step>)
    ensures Run(s, a + b) == Run(Run(s, a), b)
    decreases |a|
  {
    if a == [] {
      assert a + b == b;
    } else {
      assert (a + b)[1..] == a[1..] + b;
      RunConcat(Next(s, a[0]), a[1..], b);
    }
  }

  lemma Steps3(s: State, a: Step, b: Step, c: Step)
    ensures Run(s, [a, b, c]) == Next(Next(Next(s, a), b), c)
  {
    var s2 := Next(Next(s, a), b);
    assert [a, b, c][1..] == [b, c] && [b, c][1..] == [c] && [c][1..] == [];
    assert Run(s2, [c]) == Next(s2, c);
    assert Run(Next(s, a), [b, c]) == Run(s2, [c]);
  }

  /** A run in which that happens. */
  lemma OverlapSwapsOutputInARun() returns (steps: seq<Step>)
    ensures Run(INITIAL, steps).session.fed == [1, 0]
  {
    var a, b := [ReadScreen, PollRemote, Acts(0, Look(false))], [Acts(1, Swap), Acts(1, Tick), Acts(1, Look(false))];
    Steps3(INITIAL, ReadScreen, PollRemote, Acts(0, Look(false)));
    var s1 := Run(INITIAL, a);
    assert s1.actors == [Asking(false), Starting] && s1.session == INITIAL.session;
    Steps3(s1, Acts(1, Swap), Acts(1, Tick), Acts(1, Look(false)));
    var s2 := Run(s1, b);
    assert s2.actors == [Asking(false), Asking(true)] && s2.session.replies == 0 && s2.session.fed == [];
    OverlapSwapsOutput(s2, 0, 1);
    Steps3(s2, Acts(0, Reply), Acts(1, Reply), Acts(1, Feed));
    var c := [Acts(0, Reply), Acts(1, Reply), Acts(1, Feed)];
    RunSnoc(s2, c, Acts(0, Feed));
    RunConcat(INITIAL, a, b);
    RunConcat(INITIAL, a + b, c + [Acts(0, Feed)]);
    steps := a + b + (c + [Acts(0, Feed)]);
  }

  /** A run in which the next lemma applies. */
  lemma OutputIsLostInARun() returns (steps: seq<Step>)
    ensures OneAtATime(INITIAL, steps) && Run(INITIAL, steps).session.lost == [0]
  {
    var a := [Write, Acts(0, Reply), Acts(0, Cache)];
    Steps3(INITIAL, Write, Acts(0, Reply), Acts(0, Cache));
    var s := Run(INITIAL, a);
    assert s.actors == [Returned(None)] && s.session.cached == Some(0) && s.session.lost == [];
    var b := [ReadScreen, Acts(1, Look(true)), Write, Acts(2, Reply), Acts(2, Cache)];
    WriteAfterCancelledReadLoses(s);
    RunConcat(INITIAL, a, b);
    OneByOne(b);
    steps := a + b;
  }

  lemma OneByOne(b: seq<Step>)
    requires OneAtATime(Run(INITIAL, [Write, Acts(0, Reply), Acts(0, Cache)]), b)
    ensures OneAtATime(INITIAL, [Write, Acts(0, Reply), Acts(0, Cache)] + b)
  {
    var a := [Write, Acts(0, Reply), Acts(0, Cache)];
    Steps3(INITIAL, Write, Acts(0, Reply), Acts(0, Cache));
    var s1 := Next(INITIAL, Write);
    var s2 := Next(s1, Acts(0, Reply));
    assert (a + b)[1..] == a[1..] + b && (a[1..] + b)[1..] == a[2..] + b && (a[2..] + b)[1..] == b;
    assert OneAtATime(s2, a[2..] + b);
    assert OneAtATime(s1, a[1..] + b);
  }

  /** A cancelled read leaves the cached output "for whichever call reads next", but the next Write replaces it, even
      though no two calls overlap. */
  lemma WriteAfterCancelledReadLoses(s: State)
    requires s.session.cached.Some? && forall a :: 0 <= a < |s.actors| ==> !Busy(s.actors[a])
    ensures var n := |s.actors|;
            var steps := [ReadScreen, Acts(n, Look(true)), Write, Acts(n + 1, Reply), Acts(n + 1, Cache)];
            && OneAtATime(s, steps)
            && Run(s, steps).session.lost == s.session.lost + [s.session.cached.value]
  {
    var n := |s.actors|;
    var steps := [ReadScreen, Acts(n, Look(true)), Write, Acts(n + 1, Reply), Acts(n + 1, Cache)];
    var s1 := Next(s, steps[0]);
    var s2 := Next(s1, steps[1]);
    var s3 := Next(s2, steps[2]);
    var s4 := Next(s3, steps[3]);
    assert s2.actors[n] == Returned(None);
    assert s3.actors[n + 1] == Writing;
    assert s4.actors[n + 1] == Caching(s.session.replies);
    var s5 := Next(s4, steps[4]);
    assert OneAtATime(s5, steps[5..]) && Run(s5, steps[5..]) == s5;
    assert steps[4..][1..] == steps[5..] && OneAtATime(s4, steps[4..]) && Run(s4, steps[4..]) == s5;
    assert steps[3..][1..] == steps[4..] && OneAtATime(s3, steps[3..]) && Run(s3, steps[3..]) == s5;
    assert steps[2..][1..] == steps[3..] && OneAtATime(s2, steps[2..]) && Run(s2, steps[2..]) == s5;
    assert steps[1..][1..] == steps[2..] && OneAtATime(s1, steps[1..]) && Run(s1, steps[1..]) == s5;
  }

  // ---- Exactly when output is lost or out of order ----

  /** The state after the first `t` steps. */
  function Upto(steps: seq<Step>, t: nat): State
    requires t <= |steps|
  {
    Run(INITIAL, steps[..t])
  }

  lemma {:induction false} RunSnoc(s: State, steps: seq<Step>, step: Step)
    ensures Run(s, steps + [step]) == Next(Run(s, steps), step)
    decreases |steps|
  {
    if steps == [] {
      assert [step][1..] == [];
    } else {
      assert (steps + [step])[1..] == steps[1..] + [step];
      RunSnoc(Next(s, steps[0]), steps[1..], step);
    }
  }

  lemma UptoNext(steps: seq<Step>, t: nat)
    requires t < |steps|
    ensures Upto(steps, t + 1) == Next(Upto(steps, t), steps[t])
  {
    assert steps[..t + 1] == steps[..t] + [steps[t]];
    RunSnoc(INITIAL, steps[..t], steps[t]);
  }

  /** Step `t` stores a reply in the cache. */
  predicate Caches(steps: seq<Step>, t: nat)
    requires t < |steps|
  {
    var s, step := Upto(steps, t), steps[t];
    step.Acts? && step.act == Act.Cache && step.a < |s.actors| && s.actors[step.a].Caching?
  }

  /** Step `t` takes what is in the cache. */
  predicate Empties(steps: seq<Step>, t: nat)
    requires t < |steps|
  {
    var s, step := Upto(steps, t), steps[t];
    step.Acts? && step.act == Look(false) && step.a < |s.actors| && s.actors[step.a].Reading?
  }

  /** Step `i` stored a reply that no step from then on, up to the `t`-th, has taken. */
  predicate Unread(steps: seq<Step>, i: nat, t: nat)
    requires i < t <= |steps|
  {
    Caches(steps, i) && forall j :: i < j < t ==> !Empties(steps, j)
  }

  lemma StepCache(s: State, step: Step)
    ensures var s' := Next(s, step);
            var stores := step.Acts? && step.act == Act.Cache && step.a < |s.actors| && s.actors[step.a].Caching?;
            var takes := step.Acts? && step.act == Look(false) && step.a < |s.actors| && s.actors[step.a].Reading?;
            && (s'.session.cached.Some? <==> stores || (s.session.cached.Some? && !takes))
            && (s'.session.lost != s.session.lost <==> stores && s.session.cached.Some?)
            && |s'.session.lost| >= |s.session.lost|
  {}

  /** The cache holds a reply exactly when one was stored and not taken since. */
  lemma {:induction false} CachedExactly(steps: seq<Step>, t: nat)
    requires t <= |steps|
    ensures Upto(steps, t).session.cached.Some? <==> exists i: nat :: i < t && Unread(steps, i, t)
  {
    if t > 0 {
      CachedExactly(steps, t - 1);
      UptoNext(steps, t - 1);
      StepCache(Upto(steps, t - 1), steps[t - 1]);
      if Upto(steps, t - 1).session.cached.Some? && !Empties(steps, t - 1) {
        var i: nat :| i < t - 1 && Unread(steps, i, t - 1);
        assert Unread(steps, i, t);
      }
      if Caches(steps, t - 1) {
        assert Unread(steps, t - 1, t);
      }
      if i: nat :| i < t - 1 && Unread(steps, i, t) {
        assert Unread(steps, i, t - 1);
      }
    }
  }

  /** Step `j` stores a reply while that of step `i` has not been taken. */
  predicate Overwrites(steps: seq<Step>, i: nat, j: nat)
    requires i < j < |steps|
  {
    Unread(steps, i, j) && Caches(steps, j)
  }

  lemma {:induction false} LostUpto(steps: seq<Step>, t: nat)
    requires t <= |steps|
    ensures Upto(steps, t).session.lost != [] <==> exists i: nat, j: nat :: i < j < t && Overwrites(steps, i, j)
  {
    if t > 0 {
      LostUpto(steps, t - 1);
      UptoNext(steps, t - 1);
      StepCache(Upto(steps, t - 1), steps[t - 1]);
      CachedExactly(steps, t - 1);
      if Caches(steps, t - 1) && Upto(steps, t - 1).session.cached.Some? {
        var i: nat :| i < t - 1 && Unread(steps, i, t - 1);
        assert Overwrites(steps, i, t - 1);
      }
      if Upto(steps, t - 1).session.lost != [] {
        var i: nat, j: nat :| i < j < t - 1 && Overwrites(steps, i, j);
        assert i < j < t && Overwrites(steps, i, j);
      }
    }
  }

  /** Output is lost in a run exactly when two Writes store their replies and no ReadScreen takes the first in
      between. */
  lemma OutputIsLostExactlyWhen(steps: seq<Step>)
    ensures Run(INITIAL, steps).session.lost != []
            <==> exists i: nat, j: nat :: i < j < |steps| && Overwrites(steps, i, j)
  {
    LostUpto(steps, |steps|);
    assert steps[..|steps|] == steps;
  }

  /** Step `t` writes a reply to the local buffer. */
  predicate Feeds(steps: seq<Step>, t: nat, r: nat)
    requires t < |steps|
  {
    var s, step := Upto(steps, t), steps[t];
    step.Acts? && step.act == Feed && step.a < |s.actors| && s.actors[step.a].Feeding? && s.actors[step.a].r == r
  }

  lemma StepFeeds(s: State, step: Step)
    ensures var s' := Next(s, step);
            && s'.session.fed == (if step.Acts? && step.act == Feed && step.a < |s.actors| && s.actors[step.a].Feeding?
                                  then s.session.fed + [s.actors[step.a].r] else s.session.fed)
            && s.session.lost <= s'.session.lost
  {}

  lemma {:induction false} OnlyGrows(steps: seq<Step>, t: nat, u: nat)
    requires t <= u <= |steps|
    ensures Upto(steps, t).session.fed <= Upto(steps, u).session.fed
    ensures Upto(steps, t).session.lost <= Upto(steps, u).session.lost
  {
    if t < u {
      OnlyGrows(steps, t, u - 1);
      UptoNext(steps, u - 1);
      StepFeeds(Upto(steps, u - 1), steps[u - 1]);
    }
  }

  /** The step that fed the `i`-th reply. */
  lemma {:induction false} FeedingStep(steps: seq<Step>, u: nat, i: nat) returns (t: nat)
    requires u <= |steps| && i < |Upto(steps, u).session.fed|
    ensures t < u && Feeds(steps, t, Upto(steps, u).session.fed[i]) && |Upto(steps, t).session.fed| == i
  {
    if u > 0 {
      UptoNext(steps, u - 1);
      StepFeeds(Upto(steps, u - 1), steps[u - 1]);
      if i < |Upto(steps, u - 1).session.fed| {
        t := FeedingStep(steps, u - 1, i);
      } else {
        t := u - 1;
      }
    }
  }

  /** Reply `r` is in the cache or in some call's hand. */
  predicate InTransit(s: State, r: nat) {
    s.session.cached == Some(r) || InHand(s.actors, r) == 1
  }

  /** Step `t` feeds a newer reply past an older one in transit, which is fed later. */
  predicate Overtakes(steps: seq<Step>, t: nat, older: nat, newer: nat)
    requires t < |steps|
  {
    older < newer && Feeds(steps, t, newer) && InTransit(Upto(steps, t), older)
        && older in Upto(steps, |steps|).session.fed
  }

  ghost predicate SomeOvertakes(steps: seq<Step>) {
    exists t: nat, older: nat, newer: nat :: t < |steps| && Overtakes(steps, t, older, newer)
  }

  lemma InFedOnce(fed: seq<nat>, i: nat, j: nat)
    requires i < j < |fed| && fed[i] == fed[j]
    ensures multiset(fed)[fed[i]] >= 2
  {
    assert fed == fed[..j] + fed[j..];
    assert fed[..j][i] in multiset(fed[..j]) && fed[j..][0] in multiset(fed[j..]);
  }

  /** What holds of a reply at one moment, by conservation. */
  lemma OncePlace(steps: seq<Step>, t: nat, r: nat)
    requires t <= |steps|
    ensures var s := Upto(steps, t);
            && (r < s.session.replies <==> InTransit(s, r) || r in s.session.fed || r in s.session.lost)
            && (InTransit(s, r) ==> r !in s.session.fed && r !in s.session.lost)
            && (r in s.session.fed ==> r !in s.session.lost)
            && (forall i, j :: 0 <= i < j < |s.session.fed| ==> s.session.fed[i] != s.session.fed[j])
  {
    var s := Upto(steps, t);
    EveryReplyIsInOnePlace(steps[..t], r);
    assert (r in s.session.fed <==> multiset(s.session.fed)[r] > 0)
           && (r in s.session.lost <==> multiset(s.session.lost)[r] > 0);
    forall i: nat, j: nat | i < j < |s.session.fed|
      ensures s.session.fed[i] != s.session.fed[j]
    {
      if s.session.fed[i] == s.session.fed[j] {
        InFedOnce(s.session.fed, i, j);
        EveryReplyIsInOnePlace(steps[..t], s.session.fed[i]);
        assert false;
      }
    }
  }

  lemma InHandAt(actors: seq<Pc>, a: nat, r: nat)
    requires a < |actors| && Carries(actors[a], r) == 1
    ensures InHand(actors, r) >= 1
  {
    if a < |actors| - 1 {
      InHandAt(actors[..|actors| - 1], a, r);
    }
  }

  lemma InversionOvertakes(steps: seq<Step>, i: nat, j: nat)
    requires var fed := Upto(steps, |steps|).session.fed; i < j < |fed| && fed[j] < fed[i]
    ensures SomeOvertakes(steps)
  {
    var fed := Upto(steps, |steps|).session.fed;
    var t := FeedingStep(steps, |steps|, i);
    var s := Upto(steps, t);
    OnlyGrows(steps, t, |steps|);
    InHandAt(s.actors, steps[t].a, fed[i]);
    OncePlace(steps, t, fed[i]);
    EveryReplyIsInOnePlace(steps[..t], fed[i]);
    OncePlace(steps, t, fed[j]);
    OncePlace(steps, |steps|, fed[j]);
    assert forall k :: 0 <= k < i ==> s.session.fed[k] == fed[k];
    assert fed[j] !in s.session.fed;
    assert fed[j] !in s.session.lost;
    assert Overtakes(steps, t, fed[j], fed[i]);
  }

  lemma OvertakingInverts(steps: seq<Step>, t: nat, older: nat, newer: nat)
    requires t < |steps| && Overtakes(steps, t, older, newer)
    ensures var fed := Upto(steps, |steps|).session.fed; exists i, j :: 0 <= i < j < |fed| && fed[j] < fed[i]
  {
    var before, fed := Upto(steps, t).session.fed, Upto(steps, |steps|).session.fed;
    UptoNext(steps, t);
    StepFeeds(Upto(steps, t), steps[t]);
    OnlyGrows(steps, t + 1, |steps|);
    OnlyGrows(steps, t, |steps|);
    assert before + [newer] <= fed;
    assert fed[|before|] == (before + [newer])[|before|] == newer;
    OncePlace(steps, t, older);
    var j :| 0 <= j < |fed| && fed[j] == older;
    assert forall k :: 0 <= k < |before| ==> fed[k] == before[k];
    assert |before| < j;
  }

  predicate Sorted(xs: seq<nat>) {
    forall i: nat, j: nat :: i < j < |xs| ==> xs[i] < xs[j]
  }

  lemma NoOvertakingSorts(steps: seq<Step>)
    requires !SomeOvertakes(steps)
    ensures Sorted(Upto(steps, |steps|).session.fed)
  {
    var fed := Upto(steps, |steps|).session.fed;
    OncePlace(steps, |steps|, 0);
    forall i: nat, j: nat | i < j < |fed|
      ensures fed[i] < fed[j]
    {
      if fed[j] < fed[i] {
        InversionOvertakes(steps, i, j);
        assert false;
      }
    }
  }

  /** The local buffer holds the output in the server's order exactly when no call ever wrote a newer reply to it while
      an older one, written later, was in the cache or in another call's hand. */
  lemma OutputIsInOrderExactlyWhen(steps: seq<Step>)
    ensures Sorted(Run(INITIAL, steps).session.fed) <==> !SomeOvertakes(steps)
  {
    assert steps[..|steps|] == steps;
    if SomeOvertakes(steps) {
      var t: nat, older: nat, newer: nat :| t < |steps| && Overtakes(steps, t, older, newer);
      OvertakingInverts(steps, t, older, newer);
    } else {
      NoOvertakingSorts(steps);
    }
  }

  /** The same for runs that end quiet, with nothing cached and nothing lost, where every reply has been fed: the local
      buffer is then in order exactly when no call ever fed a newer reply while an older one was in the cache or in
      another hand. */
  lemma QuietOutputIsInOrderExactlyWhen(steps: seq<Step>)
    requires var s := Run(INITIAL, steps);
             s.session.cached.None? && s.session.lost == [] && forall a :: 0 <= a < |s.actors| ==> !Busy(s.actors[a])
    ensures Sorted(Run(INITIAL, steps).session.fed)
       <==> !exists t: nat, older: nat, newer: nat ::
              t < |steps| && older < newer && Feeds(steps, t, newer) && InTransit(Upto(steps, t), older)
  {
    OutputIsInOrderExactlyWhen(steps);
    assert steps[..|steps|] == steps;
    forall t: nat, older: nat, newer: nat |
        t < |steps| && older < newer && Feeds(steps, t, newer) && InTransit(Upto(steps, t), older)
      ensures Overtakes(steps, t, older, newer)
    {
      OncePlace(steps, t, older);
      RepliesGrow(steps, t, |steps|);
      OncePlace(steps, |steps|, older);
      NothingInHand(Upto(steps, |steps|).actors, older);
    }
  }

  lemma {:induction false} RepliesGrow(steps: seq<Step>, t: nat, u: nat)
    requires t <= u <= |steps|
    ensures Upto(steps, t).session.replies <= Upto(steps, u).session.replies
  {
    if t < u {
      RepliesGrow(steps, t, u - 1);
      UptoNext(steps, u - 1);
    }
  }

  // ---- What a ReadScreen hands its caller ----

  /** Step `t` is actor `a`'s action `act`, taken at `pc`. */
  predicate Took(steps: seq<Step>, t: nat, a: nat, act: Act, pc: Pc)
    requires t < |steps|
  {
    steps[t] == Acts(a, act) && a < |Upto(steps, t).actors| && Upto(steps, t).actors[a] == pc
  }

  /** Step `t` starts the ReadScreen of actor `a`. */
  predicate Starts(steps: seq<Step>, t: nat, a: nat)
    requires t < |steps|
  {
    steps[t] == ReadScreen && a == |Upto(steps, t).actors|
  }

  /** By step `u` the ReadScreen of `a` has written `r` to the local buffer. */
  ghost predicate HasFed(steps: seq<Step>, u: nat, a: nat, r: nat)
    requires u <= |steps|
  {
    exists t: nat :: t < u && Took(steps, t, a, Feed, Feeding(false, r))
  }

  /** By step `u` it has found its context done, or its call has failed. */
  ghost predicate HasFailed(steps: seq<Step>, u: nat, a: nat)
    requires u <= |steps|
  {
    exists t: nat ::
      t < u && (Took(steps, t, a, Look(true), Reading(false)) || Took(steps, t, a, CallFails, Asking(false)))
  }

  lemma {:induction false} ActorsStay(steps: seq<Step>, t: nat, u: nat)
    requires t <= u <= |steps|
    ensures |Upto(steps, t).actors| <= |Upto(steps, u).actors|
  {
    if t < u {
      ActorsStay(steps, t, u - 1);
      UptoNext(steps, u - 1);
    }
  }

  /** Nothing was done by an actor before it was there. */
  lemma NewHasDoneNothing(steps: seq<Step>, t: nat, u: nat, a: nat)
    requires u == t + 1 <= |steps| && Starts(steps, t, a)
    ensures !HasFailed(steps, u, a) && forall r: nat :: !HasFed(steps, u, a, r)
  {
    forall i: nat, act: Act, pc: Pc | i < u
      ensures !Took(steps, i, a, act, pc)
    {
      ActorsStay(steps, i, t);
    }
  }

  /** Where the ReadScreen of `a` stands, from what it has done. */
  ghost predicate ReadsOn(steps: seq<Step>, u: nat, a: nat)
    requires u <= |steps| && a < |Upto(steps, u).actors|
  {
    var pc := Upto(steps, u).actors[a];
    && (pc == Reading(false) || pc == Asking(false) || (pc.Feeding? && !pc.poll) || pc.Returned?)
    && (pc == Returned(None) <==> HasFailed(steps, u, a))
    && forall r: nat :: pc == Returned(Some(r)) <==> HasFed(steps, u, a, r)
  }

  lemma ReadsOnStep(steps: seq<Step>, u: nat, a: nat)
    requires u < |steps| && a < |Upto(steps, u).actors| && ReadsOn(steps, u, a)
    ensures a < |Upto(steps, u + 1).actors| && ReadsOn(steps, u + 1, a)
  {
    var pc := Upto(steps, u).actors[a];
    UptoNext(steps, u);
    forall r: nat
      ensures HasFed(steps, u + 1, a, r) <==> HasFed(steps, u, a, r) || Took(steps, u, a, Feed, Feeding(false, r))
    {
      if t: nat :| t < u + 1 && Took(steps, t, a, Feed, Feeding(false, r)) {
        assert t < u || t == u;
      }
    }
    var fails := Took(steps, u, a, Look(true), Reading(false)) || Took(steps, u, a, CallFails, Asking(false));
    assert HasFailed(steps, u + 1, a) <==> HasFailed(steps, u, a) || fails;
    var pc' := Upto(steps, u + 1).actors[a];
    if steps[u].Acts? && steps[u].a == a {
      assert pc' == Does(pc, Upto(steps, u).session, steps[u].act).0;
    } else {
      assert pc' == pc;
    }
  }

  lemma {:induction false} ReadsOnUpto(steps: seq<Step>, t: nat, u: nat, a: nat)
    requires t < u <= |steps| && Starts(steps, t, a)
    ensures a < |Upto(steps, u).actors| && ReadsOn(steps, u, a)
  {
    if u == t + 1 {
      UptoNext(steps, t);
      NewHasDoneNothing(steps, t, u, a);
    } else {
      ReadsOnUpto(steps, t, u - 1, a);
      ReadsOnStep(steps, u - 1, a);
    }
  }

  /** In every run a ReadScreen has returned exactly the reply it wrote to the local buffer, if it wrote one, and has
      returned nothing exactly if it found its context done or its call failed. */
  lemma ReadScreenReturnsWhatItFed(steps: seq<Step>, t: nat, a: nat)
    requires t < |steps| && Starts(steps, t, a)
    ensures var actors := Run(INITIAL, steps).actors;
            && a < |actors|
            && (forall r: nat :: actors[a] == Returned(Some(r)) <==> HasFed(steps, |steps|, a, r))
            && (actors[a] == Returned(None) <==> HasFailed(steps, |steps|, a))
            && (actors[a].Returned? || actors[a] == Reading(false) || actors[a] == Asking(false)
                || (actors[a].Feeding? && !actors[a].poll))
  {
    ReadsOnUpto(steps, t, |steps|, a);
    assert steps[..|steps|] == steps;
  }

  /** A read that is neither cancelled nor left without a reply hands its caller, or the local buffer of a poll, what is
      cached, and without that the next reply; either way it has then been written to the local buffer last. */
  lemma ReadDelivers(s: State, a: nat)
    requires a < |s.actors| && s.actors[a].Reading?
    ensures var r := if s.session.cached.Some? then s.session.cached.value else s.session.replies;
            var s' := Run(s, [Acts(a, Look(false)), Acts(a, Reply), Acts(a, Feed)]);
            && s'.actors == s.actors[a := if s.actors[a].poll then Polling else Returned(Some(r))]
            && s'.session.fed == s.session.fed + [r] && s'.session.cached.None?
            && s'.session.replies == s.session.replies + if s.session.cached.Some? then 0 else 1
  {
    Steps3(s, Acts(a, Look(false)), Acts(a, Reply), Acts(a, Feed));
    var s1 := Next(s, Acts(a, Look(false)));
    var s2 := Next(s1, Acts(a, Reply));
    assert s1.actors[a].Feeding? || s1.actors[a].Asking?;
    assert s2.actors[a].Feeding?;
    assert Next(s2, Acts(a, Feed)).actors == s2.actors[a := After(s.actors[a].poll, Some(s2.actors[a].r))];
  }

  /** A poll that is not stopped can always take its next tick, and what that reads reaches the local buffer. */
  lemma PollDelivers(s: State, a: nat)
    requires a < |s.actors| && s.actors[a].Polling?
    ensures var r := if s.session.cached.Some? then s.session.cached.value else s.session.replies;
            var s' := Run(s, [Acts(a, Tick)] + [Acts(a, Look(false)), Acts(a, Reply), Acts(a, Feed)]);
            s'.actors == s.actors && s'.session.fed == s.session.fed + [r]
  {
    var s1 := Next(s, Acts(a, Tick));
    assert s1.actors[a] == Reading(true) && s1.session == s.session;
    ReadDelivers(s1, a);
    RunConcat(s, [Acts(a, Tick)], [Acts(a, Look(false)), Acts(a, Reply), Acts(a, Feed)]);
    assert [Acts(a, Tick)][1..] == [];
    assert Run(s, [Acts(a, Tick)]) == s1;
    assert s1.actors[a := Polling] == s.actors;
  }
}
