/** waitForPattern (internal/mcp/tools.go) and the writers of its buffer (internal/buffer/ring.go) step by step: one
    step per critical section or channel operation, any number of writers. What each step computes is that of
    WaitFor. */
module Wakeup {
  import opened Bytes
  import opened Lines
  import opened Matching
  import opened Ring
  import opened WaitFor
  import opened WaitForTheorems
  import opened WaitForEnds

  /** Where the reading goroutine stands. What it found out since it last took a snapshot is in the step it is at: the
      bytes read, where the log ended then, and whether the ring had been overwritten. Parked is the select inside
      RingBuffer.Wait. */
  datatype Pc =
    | Looking                                               // about to call ReadSince
    | HasRead(chunk: Str, end: nat)                         // about to call IsTruncated
    | Checked(chunk: Str, end: nat, truncated: bool)        // about to call Snapshot
    | Parked
    | Done(result: WaitResult)

  /** `sending` counts the writers that have released the mutex but not yet done the non-blocking send on `notify`, the
      channel of capacity one, which `token` says is full; `first` is the look before the loop. */
  datatype State = State(log: Str, token: bool, sending: nat, first: bool, pc: Pc, r: Reader)

  datatype Step =
    | Write(p: Str)             // the critical section of Write
    | Send                      // its send on notify, dropped when the channel is full
    | Read
    | Check
    | TakeSnapshot(alive: bool) // and what follows without touching the buffer, up to Wait or the result
    | Receive                   // Wait receives the token
    | TimeOut(alive: bool)      // Wait returns on a done context

  /** The reader after a look at the buffer is complete. */
  function Looked(cfg: Config, s: State): Reader
    requires s.pc.Checked?
  {
    var from := s.pc.end - |s.pc.chunk|;
    Reader(|s.log|, s.pc.truncated, Feed(cfg, s.r.m, s.pc.chunk), s.r.seen + s.pc.chunk,
           s.r.overwritten + (if from > s.r.snapshot then from - s.r.snapshot else 0),
           s.r.skipped + (if |s.log| > s.pc.end then |s.log| - s.pc.end else 0))
  }

  function Next(cfg: Config, size: nat, s: State, step: Step): State {
    match step
    case Write(p) => s.(log := s.log + p, sending := s.sending + 1)
    case Send => if s.sending > 0 then s.(token := true, sending := s.sending - 1) else s
    case Read =>
      if s.pc.Looking? then s.(pc := HasRead(Since(s.log, size, s.r.snapshot), |s.log|)) else s
    case Check =>
      if s.pc.HasRead?
      then s.(pc := Checked(s.pc.chunk, s.pc.end, s.r.truncated || Truncated(s.log, size, s.r.snapshot)))
      else s
    case TakeSnapshot(alive) =>
      if s.pc.Checked?
      then
        var next := Looked(cfg, s);
        var verdict := Verdict(cfg, next, s.pc.chunk != [], s.first, alive);
        s.(r := next, first := false, pc := if verdict.Some? then Done(verdict.value) else Parked)
      else s
    case Receive => if s.pc.Parked? && s.token then s.(pc := Looking, token := false) else s
    case TimeOut(alive) => if s.pc.Parked? then s.(pc := Done(TimedOut(cfg, s.r, alive))) else s
  }

  function Run(cfg: Config, size: nat, s: State, steps: seq<Step>): State {
    if steps == [] then s else Next(cfg, size, Run(cfg, size, s, Init(steps)), Last(steps))
  }

  /** A call begins, with whatever log and mark, and whatever earlier calls and writers have left of tokens and
      sends. */
  function Start(log: Str, mark: nat, token: bool, sending: nat): State {
    State(log, token, sending, true, Looking, Reader(mark, false, START, [], 0, 0))
  }

  // ---- No lost wake-up ----

  /** Unread bytes are announced: by a token, or by a writer about to send one. */
  predicate Announced(s: State) {
    s.pc.Parked? && |s.log| > s.r.snapshot ==> s.token || s.sending > 0
  }

  /** In every interleaving a parked reader with bytes beyond its snapshot has a token waiting, or a Write is between
      its unlock and its send. */
  lemma {:induction false} NoLostWakeup(cfg: Config, size: nat, s: State, steps: seq<Step>)
    requires Announced(s)
    ensures Announced(Run(cfg, size, s, steps))
  {
    if steps != [] {
      NoLostWakeup(cfg, size, s, Init(steps));
    }
  }

  // ---- Every run is one of the scripts of WaitFor ----

  /** The bytes written since the reader's last snapshot, cut at its critical sections. */
  datatype Writes = Writes(base: Str, arrived: Str, mid: Str, gap: Str)

  /** A call that has come to `o` in the terms of WaitFor, or has not completed its first look, and what was written
      since. */
  ghost predicate Plays(size: nat, log: Str, mark: nat, s: State, o: Option<Outcome>, w: Writes) {
    && (o.None? ==> s.first && w.base == log && s.r == Reader(mark, false, START, [], 0, 0))
    && (o.Some? ==> !s.first && o.value == Outcome(w.base, s.r, Result(s.pc)))
    && s.log == w.base + w.arrived + w.mid + w.gap
    && match s.pc
       case Looking => w.mid == [] && w.gap == []
       case Parked => o.Some? && w.mid == [] && w.gap == []
       case HasRead(chunk, end) => HasReadSince(size, s.r, w, chunk, end) && w.gap == []
       case Checked(chunk, end, truncated) =>
         HasReadSince(size, s.r, w, chunk, end)
         && truncated == (s.r.truncated || Truncated(w.base + w.arrived + w.mid, size, s.r.snapshot))
       case Done(result) => o.Some?
  }

  function Result(pc: Pc): Option<WaitResult> {
    if pc.Done? then Some(pc.result) else None
  }

  predicate HasReadSince(size: nat, r: Reader, w: Writes, chunk: Str, end: nat) {
    chunk == Since(w.base + w.arrived, size, r.snapshot) && end == |w.base + w.arrived|
  }

  /** The three critical sections together are one visit. */
  lemma LookIsVisit(cfg: Config, size: nat, s: State, w: Writes, alive: bool)
    requires s.pc.Checked? && HasReadSince(size, s.r, w, s.pc.chunk, s.pc.end)
    requires s.pc.truncated == (s.r.truncated || Truncated(w.base + w.arrived + w.mid, size, s.r.snapshot))
    requires s.log == w.base + w.arrived + w.mid + w.gap
    ensures var v := Visit(w.arrived, w.mid, w.gap, alive);
            Looked(cfg, s) == Visited(cfg, size, w.base, s.r, v) && s.log == LogAfter(w.base, v)
  {}

  /** What the call has come to after completing a look. */
  function AfterLook(cfg: Config, s: State, alive: bool): Outcome
    requires s.pc.Checked?
  {
    Outcome(s.log, Looked(cfg, s), Verdict(cfg, Looked(cfg, s), s.pc.chunk != [], s.first, alive))
  }

  lemma SnapshotPlays(cfg: Config, size: nat, log: Str, mark: nat, s: State, o: Option<Outcome>, w: Writes, alive: bool)
    requires Plays(size, log, mark, s, o, w) && s.pc.Checked?
    ensures Plays(size, log, mark, Next(cfg, size, s, TakeSnapshot(alive)), Some(AfterLook(cfg, s, alive)),
                  Writes(s.log, [], [], []))
  {
    RestPlays(size, log, mark, Next(cfg, size, s, TakeSnapshot(alive)), AfterLook(cfg, s, alive));
  }

  /** A call that is parked or done, with nothing written since. */
  lemma RestPlays(size: nat, log: Str, mark: nat, s: State, o: Outcome)
    requires !s.first && (s.pc.Parked? || s.pc.Done?) && o == Outcome(s.log, s.r, Result(s.pc))
    ensures Plays(size, log, mark, s, Some(o), Writes(s.log, [], [], []))
  {
    EmptyTail(s.log, []);
  }

  lemma FirstLookIsScript(cfg: Config, size: nat, log: Str, mark: nat, s: State, w: Writes, alive: bool)
    requires Plays(size, log, mark, s, None, w) && s.pc.Checked?
    ensures WaitFor.Run(cfg, size, log, mark, Visit(w.arrived, w.mid, w.gap, alive), []) == AfterLook(cfg, s, alive)
  {
    LookIsVisit(cfg, size, s, w, alive);
  }

  lemma LookIsRound(cfg: Config, size: nat, log: Str, mark: nat, s: State, first: Visit, script: seq<Round>, w: Writes,
                    alive: bool)
    requires s.pc.Checked?
    requires Plays(size, log, mark, s, Some(WaitFor.Run(cfg, size, log, mark, first, script)), w)
    ensures WaitFor.Run(cfg, size, log, mark, first, script + [Wake(Visit(w.arrived, w.mid, w.gap, alive))])
         == AfterLook(cfg, s, alive)
  {
    var v := Visit(w.arrived, w.mid, w.gap, alive);
    ScriptGoesOn(cfg, size, log, mark, first, script, Wake(v));
    LoopOnce(cfg, size, w.base, s.r, v);
    LookIsVisit(cfg, size, s, w, alive);
  }

  lemma EmptyTail(a: Str, b: Str)
    ensures a + b + [] + [] == a + b && a + [] == a
  {}

  lemma TimeOutPlays(cfg: Config, size: nat, log: Str, mark: nat, s: State, o: Option<Outcome>, w: Writes, alive: bool)
    requires Plays(size, log, mark, s, o, w) && s.pc.Parked?
    ensures Plays(size, log, mark, Next(cfg, size, s, TimeOut(alive)),
                  Some(Outcome(s.log, s.r, Some(TimedOut(cfg, s.r, alive)))),
                  Writes(s.log, [], [], []))
    ensures s.log == w.base + w.arrived
  {
    EmptyTail(w.base, w.arrived);
    RestPlays(size, log, mark, Next(cfg, size, s, TimeOut(alive)),
              Outcome(s.log, s.r, Some(TimedOut(cfg, s.r, alive))));
  }

  lemma ScriptExpires(cfg: Config, size: nat, log: Str, mark: nat, first: Visit, script: seq<Round>, base: Str,
                      r: Reader, arrived: Str, alive: bool)
    requires WaitFor.Run(cfg, size, log, mark, first, script) == Outcome(base, r, None)
    ensures WaitFor.Run(cfg, size, log, mark, first, script + [Expire(arrived, alive)])
         == Outcome(base + arrived, r, Some(TimedOut(cfg, r, alive)))
  {
    ScriptGoesOn(cfg, size, log, mark, first, script, Expire(arrived, alive));
    LoopExpired(cfg, size, base, r, arrived, alive);
  }

  /** Written bytes go where the reader stands. */
  function Written(pc: Pc, w: Writes, p: Str): Writes {
    if pc.HasRead? then w.(mid := w.mid + p)
    else if pc.Checked? then w.(gap := w.gap + p)
    else if pc.Done? then w.(gap := w.gap + p)
    else w.(arrived := w.arrived + p)
  }

  lemma WritePlays(cfg: Config, size: nat, log: Str, mark: nat, s: State, o: Option<Outcome>, w: Writes, p: Str)
    requires Plays(size, log, mark, s, o, w)
    ensures Plays(size, log, mark, Next(cfg, size, s, Write(p)), o, Written(s.pc, w, p))
  {
    WrittenAtTheEnd(w.base, w.arrived, w.mid, w.gap, p);
    if s.pc.HasRead? || s.pc.Checked? {
      assert w.base + w.arrived == Written(s.pc, w, p).base + Written(s.pc, w, p).arrived;
    }
  }

  lemma WrittenAtTheEnd(a: Str, b: Str, c: Str, d: Str, p: Str)
    ensures a + b + c + d + p == a + b + c + (d + p)
    ensures d == [] ==> a + b + c + d + p == a + b + (c + p) + d
    ensures c == [] && d == [] ==> a + b + c + d + p == a + (b + p) + c + d
  {}

  lemma ReaderPlays(cfg: Config, size: nat, log: Str, mark: nat, s: State, o: Option<Outcome>, w: Writes, step: Step)
    requires Plays(size, log, mark, s, o, w) && (step.Send? || step.Read? || step.Check? || step.Receive?)
    ensures Plays(size, log, mark, Next(cfg, size, s, step), o, w)
  {
    assert s.pc.Looking? || s.pc.Parked? ==> s.log == w.base + w.arrived;
    assert s.pc.HasRead? ==> s.log == w.base + w.arrived + w.mid;
  }

  ghost predicate IsScripted(cfg: Config, size: nat, log: Str, mark: nat, s: State) {
    || (exists w :: Plays(size, log, mark, s, None, w))
    || (exists first, script, w :: Plays(size, log, mark, s, Some(WaitFor.Run(cfg, size, log, mark, first, script)), w))
  }

  lemma Scripted(cfg: Config, size: nat, log: Str, mark: nat, s: State, first: Visit, script: seq<Round>, o: Outcome,
                 w: Writes)
    requires o == WaitFor.Run(cfg, size, log, mark, first, script) && Plays(size, log, mark, s, Some(o), w)
    ensures IsScripted(cfg, size, log, mark, s)
  {}

  lemma FirstStepIsScripted(cfg: Config, size: nat, log: Str, mark: nat, s: State, w: Writes, step: Step)
    requires Plays(size, log, mark, s, None, w)
    ensures IsScripted(cfg, size, log, mark, Next(cfg, size, s, step))
  {
    match step
    case Write(p) => WritePlays(cfg, size, log, mark, s, None, w, p);
    case TakeSnapshot(alive) =>
      if s.pc.Checked? {
        SnapshotPlays(cfg, size, log, mark, s, None, w, alive);
        FirstLookIsScript(cfg, size, log, mark, s, w, alive);
        Scripted(cfg, size, log, mark, Next(cfg, size, s, step), Visit(w.arrived, w.mid, w.gap, alive), [],
                 AfterLook(cfg, s, alive), Writes(s.log, [], [], []));
      }
    case TimeOut(alive) =>
    case _ => ReaderPlays(cfg, size, log, mark, s, None, w, step);
  }

  lemma LaterStepIsScripted(cfg: Config, size: nat, log: Str, mark: nat, s: State, first: Visit, script: seq<Round>,
                            o: Outcome,
                            w: Writes, step: Step)
    requires o == WaitFor.Run(cfg, size, log, mark, first, script) && Plays(size, log, mark, s, Some(o), w)
    ensures IsScripted(cfg, size, log, mark, Next(cfg, size, s, step))
  {
    var s' := Next(cfg, size, s, step);
    match step
    case Write(p) =>
      WritePlays(cfg, size, log, mark, s, Some(o), w, p);
      Scripted(cfg, size, log, mark, s', first, script, o, Written(s.pc, w, p));
    case TakeSnapshot(alive) =>
      if s.pc.Checked? {
        SnapshotPlays(cfg, size, log, mark, s, Some(o), w, alive);
        LookIsRound(cfg, size, log, mark, s, first, script, w, alive);
        Scripted(cfg, size, log, mark, s', first, script + [Wake(Visit(w.arrived, w.mid, w.gap, alive))],
                 AfterLook(cfg, s, alive), Writes(s.log, [], [], []));
      } else {
        Scripted(cfg, size, log, mark, s', first, script, o, w);
      }
    case TimeOut(alive) =>
      if s.pc.Parked? {
        TimeOutPlays(cfg, size, log, mark, s, Some(o), w, alive);
        ScriptExpires(cfg, size, log, mark, first, script, w.base, s.r, w.arrived, alive);
        Scripted(cfg, size, log, mark, s', first, script + [Expire(w.arrived, alive)],
                 Outcome(s.log, s.r, Some(TimedOut(cfg, s.r, alive))), Writes(s.log, [], [], []));
      } else {
        Scripted(cfg, size, log, mark, s', first, script, o, w);
      }
    case _ =>
      ReaderPlays(cfg, size, log, mark, s, Some(o), w, step);
      Scripted(cfg, size, log, mark, s', first, script, o, w);
  }

  lemma StepIsScripted(cfg: Config, size: nat, log: Str, mark: nat, s: State, step: Step)
    requires IsScripted(cfg, size, log, mark, s)
    ensures IsScripted(cfg, size, log, mark, Next(cfg, size, s, step))
  {
    if w :| Plays(size, log, mark, s, None, w) {
      FirstStepIsScripted(cfg, size, log, mark, s, w, step);
    } else {
      var first, script, w :| Plays(size, log, mark, s, Some(WaitFor.Run(cfg, size, log, mark, first, script)), w);
      LaterStepIsScripted(cfg, size, log, mark, s, first, script, WaitFor.Run(cfg, size, log, mark, first, script), w,
                          step);
    }
  }

  lemma {:induction false} RunIsScripted(cfg: Config, size: nat, log: Str, mark: nat, token: bool, sending: nat,
                                         steps: seq<Step>)
    ensures IsScripted(cfg, size, log, mark, Run(cfg, size, Start(log, mark, token, sending), steps))
  {
    if steps == [] {
      EmptyTail(log, []);
      assert Plays(size, log, mark, Start(log, mark, token, sending), None, Writes(log, [], [], []));
    } else {
      RunIsScripted(cfg, size, log, mark, token, sending, Init(steps));
      StepIsScripted(cfg, size, log, mark, Run(cfg, size, Start(log, mark, token, sending), Init(steps)), Last(steps));
    }
  }

  /** A parked or finished call stands where a script of WaitFor ends: with its reader, its result, and its log but for
      what has been written since. */
  ghost predicate EndsLike(s: State, o: Outcome) {
    s.r == o.reader && Result(s.pc) == o.result && o.log <= s.log
  }

  lemma ScriptedEnds(cfg: Config, size: nat, log: Str, mark: nat, s: State) returns (first: Visit, script: seq<Round>)
    requires IsScripted(cfg, size, log, mark, s) && (s.pc.Parked? || s.pc.Done?)
    ensures EndsLike(s, WaitFor.Run(cfg, size, log, mark, first, script))
  {
    var f, sc, w :| Plays(size, log, mark, s, Some(WaitFor.Run(cfg, size, log, mark, f, sc)), w);
    first, script := f, sc;
    PlaysEnds(size, log, mark, s, WaitFor.Run(cfg, size, log, mark, f, sc), w);
  }

  lemma PlaysEnds(size: nat, log: Str, mark: nat, s: State, o: Outcome, w: Writes)
    requires Plays(size, log, mark, s, Some(o), w)
    ensures EndsLike(s, o)
  {}

  /** Every interleaving of a call with the writers is one of the scripts WaitForPattern is proved for, so what is
      proved of scripts holds of all runs. */
  lemma EveryRunIsAScript(cfg: Config, size: nat, log: Str, mark: nat, token: bool, sending: nat, steps: seq<Step>)
    returns (first: Visit, script: seq<Round>)
    requires var s := Run(cfg, size, Start(log, mark, token, sending), steps); s.pc.Parked? || s.pc.Done?
    ensures EndsLike(Run(cfg, size, Start(log, mark, token, sending), steps),
                     WaitFor.Run(cfg, size, log, mark, first, script))
  {
    RunIsScripted(cfg, size, log, mark, token, sending, steps);
    first, script := ScriptedEnds(cfg, size, log, mark, Run(cfg, size, Start(log, mark, token, sending), steps));
  }

  // ---- Every script is a run ----

  lemma RunSnoc(cfg: Config, size: nat, s: State, steps: seq<Step>, step: Step)
    ensures Run(cfg, size, s, steps + [step]) == Next(cfg, size, Run(cfg, size, s, steps), step)
  {
    assert Init(steps + [step]) == steps;
  }

  /** One look, with what is written between its critical sections. */
  function LookedAt(cfg: Config, size: nat, s: State, mid: Str, gap: Str, alive: bool): State {
    var checked := Next(cfg, size, Next(cfg, size, Next(cfg, size, s, Read), Write(mid)), Check);
    Next(cfg, size, Next(cfg, size, checked, Write(gap)), TakeSnapshot(alive))
  }

  lemma LookedAtIs(cfg: Config, size: nat, s: State, base: Str, v: Visit)
    requires s.pc.Looking? && s.log == base + v.arrived
    ensures var s' := LookedAt(cfg, size, s, v.mid, v.gap, v.alive);
            && s'.log == LogAfter(base, v) && s'.r == Visited(cfg, size, base, s.r, v) && !s'.first
            && (s'.pc.Parked? || s'.pc.Done?)
            && Result(s'.pc) == Verdict(cfg, s'.r, Since(s.log, size, s.r.snapshot) != [], s.first, v.alive)
  {
    var chunk := Since(s.log, size, s.r.snapshot);
    assert |s.log| - |chunk| == Clamp(s.log, size, s.r.snapshot);
  }

  lemma LookSteps(cfg: Config, size: nat, start: State, steps: seq<Step>, v: Visit) returns (more: seq<Step>)
    ensures Run(cfg, size, start, more) == LookedAt(cfg, size, Run(cfg, size, start, steps), v.mid, v.gap, v.alive)
  {
    RunSnoc(cfg, size, start, steps, Read);
    RunSnoc(cfg, size, start, steps + [Read], Write(v.mid));
    RunSnoc(cfg, size, start, steps + [Read] + [Write(v.mid)], Check);
    var checked := steps + [Read] + [Write(v.mid)] + [Check];
    RunSnoc(cfg, size, start, checked, Write(v.gap));
    RunSnoc(cfg, size, start, checked + [Write(v.gap)], TakeSnapshot(v.alive));
    more := checked + [Write(v.gap)] + [TakeSnapshot(v.alive)];
  }

  /** A run that stands exactly where a script ends. */
  ghost predicate StandsAt(s: State, o: Outcome) {
    s.log == o.log && s.r == o.reader && Result(s.pc) == o.result && (s.pc.Parked? || s.pc.Done?) && !s.first
  }

  lemma FirstLookRuns(cfg: Config, size: nat, log: Str, mark: nat, token: bool, sending: nat, first: Visit)
    returns (steps: seq<Step>)
    ensures StandsAt(Run(cfg, size, Start(log, mark, token, sending), steps),
                     WaitFor.Run(cfg, size, log, mark, first, []))
  {
    var start := Start(log, mark, token, sending);
    RunSnoc(cfg, size, start, [], Write(first.arrived));
    steps := LookSteps(cfg, size, start, [] + [Write(first.arrived)], first);
    LookedAtIs(cfg, size, Run(cfg, size, start, [] + [Write(first.arrived)]), log, first);
  }

  lemma WakeRuns(cfg: Config, size: nat, start: State, steps: seq<Step>, o: Outcome, v: Visit) returns (more: seq<Step>)
    requires StandsAt(Run(cfg, size, start, steps), o) && o.result.None?
    ensures StandsAt(Run(cfg, size, start, more), Loop(cfg, size, o.log, o.reader, [Wake(v)]))
  {
    RunSnoc(cfg, size, start, steps, Write(v.arrived));
    RunSnoc(cfg, size, start, steps + [Write(v.arrived)], Send);
    RunSnoc(cfg, size, start, steps + [Write(v.arrived)] + [Send], Receive);
    var woken := steps + [Write(v.arrived)] + [Send] + [Receive];
    more := LookSteps(cfg, size, start, woken, v);
    LookedAtIs(cfg, size, Run(cfg, size, start, woken), o.log, v);
    LoopOnce(cfg, size, o.log, o.reader, v);
  }

  lemma ExpireRuns(cfg: Config, size: nat, start: State, steps: seq<Step>, o: Outcome, arrived: Str, alive: bool)
    returns (more: seq<Step>)
    requires StandsAt(Run(cfg, size, start, steps), o) && o.result.None?
    ensures StandsAt(Run(cfg, size, start, more), Loop(cfg, size, o.log, o.reader, [Expire(arrived, alive)]))
  {
    RunSnoc(cfg, size, start, steps, Write(arrived));
    RunSnoc(cfg, size, start, steps + [Write(arrived)], TimeOut(alive));
    more := steps + [Write(arrived)] + [TimeOut(alive)];
    LoopExpired(cfg, size, o.log, o.reader, arrived, alive);
  }

  /** The converse: every script WaitForPattern is proved for is played by some interleaving, so nothing is proved of
      scripts that cannot happen, and no behaviour of theirs is missing from the runs. */
  lemma {:induction false} EveryScriptIsARun(cfg: Config, size: nat, log: Str, mark: nat, token: bool, sending: nat,
                                             first: Visit, script: seq<Round>) returns (steps: seq<Step>)
    ensures StandsAt(Run(cfg, size, Start(log, mark, token, sending), steps),
                     WaitFor.Run(cfg, size, log, mark, first, script))
    decreases |script|
  {
    if script == [] {
      steps := FirstLookRuns(cfg, size, log, mark, token, sending, first);
    } else {
      var before := EveryScriptIsARun(cfg, size, log, mark, token, sending, first, Init(script));
      var o := WaitFor.Run(cfg, size, log, mark, first, Init(script));
      assert script == Init(script) + [Last(script)];
      if o.result.Some? {
        ScriptIsOver(cfg, size, log, mark, first, Init(script), Last(script));
        steps := before;
      } else {
        ScriptGoesOn(cfg, size, log, mark, first, Init(script), Last(script));
        match Last(script)
        case Wake(v) => steps := WakeRuns(cfg, size, Start(log, mark, token, sending), before, o, v);
        case Expire(arrived, alive) =>
          steps := ExpireRuns(cfg, size, Start(log, mark, token, sending), before, o, arrived, alive);
      }
    }
  }

  // ---- What is written and announced gets tested ----

  predicate IsRead(step: Step) {
    !step.Write? && !step.TimeOut?
  }

  /** The reader after it has looked at everything there is, with nothing written meanwhile. */
  function CaughtUp(cfg: Config, size: nat, log: Str, r: Reader): Reader {
    var from := Clamp(log, size, r.snapshot);
    var chunk := Since(log, size, r.snapshot);
    Reader(|log|, r.truncated || Truncated(log, size, r.snapshot), Feed(cfg, r.m, chunk), r.seen + chunk,
           r.overwritten + (if from > r.snapshot then from - r.snapshot else 0), r.skipped)
  }

  /** From `s` to `s'` the call has looked at everything there is, once, and nothing was written. */
  ghost predicate CatchesUp(cfg: Config, size: nat, s: State, s': State, alive: bool) {
    && s'.log == s.log && s'.r == CaughtUp(cfg, size, s.log, s.r)
    && Result(s'.pc) == Verdict(cfg, s'.r, Since(s.log, size, s.r.snapshot) != [], s.first, alive)
    && (s'.pc.Parked? || s'.pc.Done?)
  }

  /** From every reachable state in which the call is parked with unread bytes, sends already under way wake it and it
      tests all of them, without another write. */
  lemma AnnouncedOutputIsTested(cfg: Config, size: nat, start: State, steps: seq<Step>, alive: bool)
      returns (more: seq<Step>)
    requires Announced(start)
    requires var s := Run(cfg, size, start, steps); s.pc.Parked? && |s.log| > s.r.snapshot
    ensures forall i :: 0 <= i < |more| ==> IsRead(more[i])
    ensures CatchesUp(cfg, size, Run(cfg, size, start, steps), Run(cfg, size, start, steps + more), alive)
  {
    NoLostWakeup(cfg, size, start, steps);
    if Run(cfg, size, start, steps).token {
      more := GoThrough(cfg, size, start, steps, alive);
    } else {
      more := SendFirst(cfg, size, start, steps, alive);
    }
  }

  lemma OneMoreInFront(steps: seq<Step>, step: Step, rest: seq<Step>)
    requires IsRead(step) && forall i :: 0 <= i < |rest| ==> IsRead(rest[i])
    ensures steps + ([step] + rest) == steps + [step] + rest
    ensures forall i :: 0 <= i < |[step] + rest| ==> IsRead(([step] + rest)[i])
  {}

  lemma SendFirst(cfg: Config, size: nat, start: State, steps: seq<Step>, alive: bool) returns (more: seq<Step>)
    requires var s := Run(cfg, size, start, steps); s.pc.Parked? && s.sending > 0
    ensures forall i :: 0 <= i < |more| ==> IsRead(more[i])
    ensures CatchesUp(cfg, size, Run(cfg, size, start, steps), Run(cfg, size, start, steps + more), alive)
  {
    RunSnoc(cfg, size, start, steps, Send);
    var s, sent := Run(cfg, size, start, steps), Run(cfg, size, start, steps + [Send]);
    assert sent == s.(token := true, sending := s.sending - 1);
    var rest := GoThrough(cfg, size, start, steps + [Send], alive);
    more := [Send] + rest;
    OneMoreInFront(steps, Send, rest);
    SameCatchUp(cfg, size, s, sent, Run(cfg, size, start, steps + more), alive);
  }

  lemma SameCatchUp(cfg: Config, size: nat, s: State, sent: State, s': State, alive: bool)
    requires sent == s.(token := sent.token, sending := sent.sending) && CatchesUp(cfg, size, sent, s', alive)
    ensures CatchesUp(cfg, size, s, s', alive)
  {}

  lemma GoThrough(cfg: Config, size: nat, start: State, steps: seq<Step>, alive: bool) returns (more: seq<Step>)
    requires var s := Run(cfg, size, start, steps); s.pc.Parked? && s.token
    ensures forall i :: 0 <= i < |more| ==> IsRead(more[i])
    ensures CatchesUp(cfg, size, Run(cfg, size, start, steps), Run(cfg, size, start, steps + more), alive)
  {
    var s := Run(cfg, size, start, steps);
    RunSnoc(cfg, size, start, steps, Receive);
    RunSnoc(cfg, size, start, steps + [Receive], Read);
    RunSnoc(cfg, size, start, steps + [Receive] + [Read], Check);
    RunSnoc(cfg, size, start, steps + [Receive] + [Read] + [Check], TakeSnapshot(alive));
    more := [Receive, Read, Check, TakeSnapshot(alive)];
    assert steps + more == steps + [Receive] + [Read] + [Check] + [TakeSnapshot(alive)];
    FourReads(cfg, size, s, alive);
  }

  lemma FourReads(cfg: Config, size: nat, s: State, alive: bool)
    requires s.pc.Parked? && s.token
    ensures var woken := Next(cfg, size, s, Receive);
            var read := Next(cfg, size, woken, Read);
            CatchesUp(cfg, size, s, Next(cfg, size, Next(cfg, size, read, Check), TakeSnapshot(alive)), alive)
  {
    var chunk := Since(s.log, size, s.r.snapshot);
    assert |s.log| - |chunk| == Clamp(s.log, size, s.r.snapshot);
  }

  lemma ParkedIsPastTheMark(cfg: Config, size: nat, log: Str, mark: nat, token: bool, sending: nat, steps: seq<Step>)
    requires mark <= |log| && Run(cfg, size, Start(log, mark, token, sending), steps).pc.Parked?
    ensures var s := Run(cfg, size, Start(log, mark, token, sending), steps);
            mark <= s.r.snapshot <= |s.log|
  {
    var first, script := EveryRunIsAScript(cfg, size, log, mark, token, sending, steps);
    ConsumesStreamExactly(cfg, size, log, mark, first, script);
  }

  /** A call that has lost nothing, and will not as long as nothing is written: what is unread is in the ring, and what
      has been read since the last snapshot is all there was. */
  ghost predicate LosesNothing(size: nat, s: State) {
    && s.r.overwritten == 0 && s.r.skipped == 0
    && 0 <= s.r.snapshot <= |s.log| <= s.r.snapshot + size
    && match s.pc
       case HasRead(chunk, end) => end == |s.log| && |chunk| == |s.log| - s.r.snapshot
       case Checked(chunk, end, _) => end == |s.log| && |chunk| == |s.log| - s.r.snapshot
       case Done(_) => s.r.snapshot == |s.log|
       case _ => true
  }

  lemma {:induction false} ReadingLosesNothing(cfg: Config, size: nat, start: State, steps: seq<Step>, more: seq<Step>)
    requires LosesNothing(size, Run(cfg, size, start, steps))
    requires forall i :: 0 <= i < |more| ==> IsRead(more[i])
    ensures var s, s' := Run(cfg, size, start, steps), Run(cfg, size, start, steps + more);
            s'.log == s.log && LosesNothing(size, s')
  {
    if more == [] {
      assert steps + more == steps;
    } else {
      ReadingLosesNothing(cfg, size, start, steps, Init(more));
      assert steps + more == steps + Init(more) + [Last(more)];
      RunSnoc(cfg, size, start, steps + Init(more), Last(more));
      ReadStepLosesNothing(cfg, size, Run(cfg, size, start, steps + Init(more)), Last(more));
    }
  }

  lemma ReadStepLosesNothing(cfg: Config, size: nat, s: State, step: Step)
    requires LosesNothing(size, s) && IsRead(step)
    ensures Next(cfg, size, s, step).log == s.log && LosesNothing(size, Next(cfg, size, s, step))
  {}

  /** The call is over, or it waits and nothing is left that would wake it. */
  predicate AtRest(s: State) {
    s.pc.Done? || (s.pc.Parked? && !s.token && s.sending == 0)
  }

  /** Every continuation without a write or a timeout that comes to rest has tested all there is: from a parked call
      that has lost nothing and whose unread bytes fit the ring, in whatever order the writers' sends and its own steps
      go. */
  lemma EveryContinuationTestsAll(cfg: Config, size: nat, log: Str, mark: nat, token: bool, sending: nat,
                                  steps: seq<Step>, more: seq<Step>)
    requires mark <= |log|
    requires var s := Run(cfg, size, Start(log, mark, token, sending), steps);
             s.pc.Parked? && s.r.overwritten == 0 && s.r.skipped == 0 && |s.log| <= s.r.snapshot + size
    requires forall i :: 0 <= i < |more| ==> IsRead(more[i])
    requires AtRest(Run(cfg, size, Start(log, mark, token, sending), steps + more))
    ensures var s := Run(cfg, size, Start(log, mark, token, sending), steps);
            var s' := Run(cfg, size, Start(log, mark, token, sending), steps + more);
            && s'.log == s.log && mark <= |s'.log| && s'.r.snapshot == |s'.log|
            && s'.r.overwritten == 0 && s'.r.skipped == 0 && s'.r.seen == s'.log[mark..]
  {
    var start := Start(log, mark, token, sending);
    ParkedIsPastTheMark(cfg, size, log, mark, token, sending, steps);
    ReadingLosesNothing(cfg, size, start, steps, more);
    NoLostWakeup(cfg, size, start, steps + more);
    var first, script := EveryRunIsAScript(cfg, size, log, mark, token, sending, steps + more);
    ConsumesStreamExactly(cfg, size, log, mark, first, script);
    WholeStream(Run(cfg, size, start, steps + more), WaitFor.Run(cfg, size, log, mark, first, script), mark);
  }

  lemma WholeStream(s: State, o: Outcome, mark: nat)
    requires EndsLike(s, o) && s.r.snapshot == |s.log| && mark <= s.r.snapshot <= |o.log|
    ensures o.log == s.log && o.log[mark..o.reader.snapshot] == s.log[mark..]
  {}

  /** The call has reported the first line of the text that shows the needle, or there is none and it has not
      matched. */
  ghost predicate ReportsLine(cfg: Config, needle: Str, s: State, text: Str) {
    if Result(s.pc).Some? && Result(s.pc).value.matched then
      exists i: nat ::
        FirstLineShowing(cfg, needle, text, i) && Result(s.pc).value.matchLine == cfg.strip(Split(text)[i])
    else NoLineShows(cfg, needle, text)
  }

  /** In plain-text mode every such continuation has reported the first line since the mark that shows the needle, if
      there is one. */
  lemma WrittenLineIsReported(cfg: Config, needle: Str, size: nat, log: Str, mark: nat, token: bool, sending: nat,
                              steps: seq<Step>, more: seq<Step>)
    requires PlainSearch(cfg, needle) && mark <= |log|
    requires var s := Run(cfg, size, Start(log, mark, token, sending), steps);
             s.pc.Parked? && s.r.overwritten == 0 && s.r.skipped == 0 && |s.log| <= s.r.snapshot + size
    requires forall i :: 0 <= i < |more| ==> IsRead(more[i])
    requires AtRest(Run(cfg, size, Start(log, mark, token, sending), steps + more))
    ensures var s' := Run(cfg, size, Start(log, mark, token, sending), steps + more);
            && s'.log == Run(cfg, size, Start(log, mark, token, sending), steps).log && mark <= |s'.log|
            && ReportsLine(cfg, needle, s', s'.log[mark..])
  {
    EveryContinuationTestsAll(cfg, size, log, mark, token, sending, steps, more);
    var first, script := EveryRunIsAScript(cfg, size, log, mark, token, sending, steps + more);
    CaughtUpReports(cfg, needle, size, log, mark, first, script,
                    Run(cfg, size, Start(log, mark, token, sending), steps + more));
  }

  lemma CaughtUpReports(cfg: Config, needle: Str, size: nat, log: Str, mark: nat, first: Visit, script: seq<Round>,
                        s: State)
    requires PlainSearch(cfg, needle) && mark <= |log|
    requires EndsLike(s, WaitFor.Run(cfg, size, log, mark, first, script))
    requires s.r.snapshot == |s.log| && s.r.overwritten == 0 && s.r.skipped == 0 && mark <= |s.log|
    ensures ReportsLine(cfg, needle, s, s.log[mark..])
  {
    var o := WaitFor.Run(cfg, size, log, mark, first, script);
    ConsumesStreamExactly(cfg, size, log, mark, first, script);
    WholeStream(s, o, mark);
    PlainWaitIsExact(cfg, needle, size, log, mark, first, script, []);
    ExactReports(cfg, needle, s, o, s.log[mark..]);
  }

  lemma ExactReports(cfg: Config, needle: Str, s: State, o: Outcome, text: Str)
    requires EndsLike(s, o) && PlainExact(cfg, needle, o.result, text, [])
    ensures ReportsLine(cfg, needle, s, text)
  {}
}
