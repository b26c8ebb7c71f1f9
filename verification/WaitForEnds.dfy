/** Why a wait_for call ends when it does, and with which result (internal/mcp/tools.go), round by round of its
    script. */
module WaitForEnds {
  import opened Bytes
  import opened Lines
  import opened Matching
  import opened Ring
  import opened WaitFor
  import opened WaitForTheorems

  // ---- A script round by round ----

  lemma {:induction false} LoopGoesOn(cfg: Config, size: nat, log: Str, r: Reader, script: seq<Round>, round: Round)
    requires Loop(cfg, size, log, r, script).result.None?
    ensures var o := Loop(cfg, size, log, r, script);
            Loop(cfg, size, log, r, script + [round]) == Loop(cfg, size, o.log, o.reader, [round])
    decreases |script|
  {
    if script == [] {
      assert script + [round] == [round];
    } else {
      assert (script + [round])[1..] == script[1..] + [round];
      var v := script[0].visit;
      LoopGoesOn(cfg, size, LogAfter(log, v), Visited(cfg, size, log, r, v), script[1..], round);
    }
  }

  /** One more round after a script that has brought no result. */
  lemma ScriptGoesOn(cfg: Config, size: nat, log: Str, mark: nat, first: Visit, script: seq<Round>, round: Round)
    requires Run(cfg, size, log, mark, first, script).result.None?
    ensures var o := Run(cfg, size, log, mark, first, script);
            Run(cfg, size, log, mark, first, script + [round]) == Loop(cfg, size, o.log, o.reader, [round])
  {
    var next := Visited(cfg, size, log, Reader(mark, false, START, [], 0, 0), first);
    LoopGoesOn(cfg, size, LogAfter(log, first), next, script, round);
  }

  lemma LoopOnce(cfg: Config, size: nat, log: Str, r: Reader, v: Visit)
    ensures var next := Visited(cfg, size, log, r, v);
            Loop(cfg, size, log, r, [Wake(v)])
            == Outcome(LogAfter(log, v), next, Verdict(cfg, next, Since(log + v.arrived, size, r.snapshot) != [],
                                                       false, v.alive))
  {
    var next := Visited(cfg, size, log, r, v);
    assert [Wake(v)][1..] == [];
    assert Loop(cfg, size, LogAfter(log, v), next, []) == Outcome(LogAfter(log, v), next, None);
  }

  lemma LoopExpired(cfg: Config, size: nat, log: Str, r: Reader, arrived: Str, alive: bool)
    ensures Loop(cfg, size, log, r, [Expire(arrived, alive)])
            == Outcome(log + arrived, r, Some(TimedOut(cfg, r, alive)))
  {}

  /** Once there is a result, nothing more is played. */
  lemma {:induction false} LoopIsOver(cfg: Config, size: nat, log: Str, r: Reader, script: seq<Round>, round: Round)
    requires Loop(cfg, size, log, r, script).result.Some?
    ensures Loop(cfg, size, log, r, script + [round]) == Loop(cfg, size, log, r, script)
    decreases |script|
  {
    assert (script + [round])[1..] == script[1..] + [round];
    if script[0].Wake? {
      var v := script[0].visit;
      var next := Visited(cfg, size, log, r, v);
      if Verdict(cfg, next, Since(log + v.arrived, size, r.snapshot) != [], false, v.alive).None? {
        LoopIsOver(cfg, size, LogAfter(log, v), next, script[1..], round);
      }
    }
  }

  lemma ScriptIsOver(cfg: Config, size: nat, log: Str, mark: nat, first: Visit, script: seq<Round>, round: Round)
    requires Run(cfg, size, log, mark, first, script).result.Some?
    ensures Run(cfg, size, log, mark, first, script + [round]) == Run(cfg, size, log, mark, first, script)
  {
    var next := Visited(cfg, size, log, Reader(mark, false, START, [], 0, 0), first);
    if Verdict(cfg, next, true, true, first.alive).None? {
      LoopIsOver(cfg, size, LogAfter(log, first), next, script, round);
    }
  }

  /** As long as there is no result, the call has taken its snapshot of all there was. */
  lemma {:induction false} LoopHasSeenAll(cfg: Config, size: nat, log: Str, r: Reader, script: seq<Round>)
    requires r.snapshot == |log| && r.m.hit.None?
    ensures var o := Loop(cfg, size, log, r, script);
            o.result.None? ==> o.reader.snapshot == |o.log| && o.reader.m.hit.None?
    decreases |script|
  {
    if script != [] && script[0].Wake? {
      var v := script[0].visit;
      var next := Visited(cfg, size, log, r, v);
      if Verdict(cfg, next, Since(log + v.arrived, size, r.snapshot) != [], false, v.alive).None? {
        LoopHasSeenAll(cfg, size, LogAfter(log, v), next, script[1..]);
      }
    }
  }

  lemma UndecidedHasSeenAll(cfg: Config, size: nat, log: Str, mark: nat, first: Visit, script: seq<Round>)
    requires Run(cfg, size, log, mark, first, script).result.None?
    ensures var o := Run(cfg, size, log, mark, first, script);
            o.reader.snapshot == |o.log| && o.reader.m.hit.None?
  {
    var next := Visited(cfg, size, log, Reader(mark, false, START, [], 0, 0), first);
    LoopHasSeenAll(cfg, size, LogAfter(log, first), next, script);
  }

  // ---- What a round decides ----

  /** A match: the line, its context, and nothing else. */
  ghost predicate IsMatch(cfg: Config, res: WaitResult, r: Reader, alive: bool) {
    && res.matched && r.m.hit.Some? && res.matchLine == cfg.strip(r.m.hit.value.line)
    && res.tail == [] && res.error == None && res.isAlive == alive && res.isTruncated == r.truncated
    && res.warning == cfg.plain
    && var shown := Cleaned(cfg, r.m.tested) + (if r.m.hit.value.partial then [cfg.strip(r.m.hit.value.line)] else []);
       res.context == if cfg.contextLines > 0 then Join(LastN(shown, cfg.contextLines + 1)) else []
  }

  /** No match: the error and the last of the lines that were tested, `more` included. */
  ghost predicate IsFailure(cfg: Config, res: WaitResult, r: Reader, error: WaitError, more: seq<Str>, alive: bool) {
    && !res.matched && res.matchLine == [] && res.context == []
    && res.error == Some(error) && res.isAlive == alive && res.isTruncated == r.truncated && res.warning == cfg.plain
    && res.tail == if cfg.tailLines > 0 then Join(LastN(Cleaned(cfg, r.m.tested) + more, cfg.tailLines)) else []
  }

  lemma MatchIs(cfg: Config, r: Reader, gotData: bool, first: bool, alive: bool)
    requires r.m.hit.Some? && (r.m.hit.value.partial || r.m.tested != [])
    ensures Verdict(cfg, r, gotData, first, alive).Some?
    ensures IsMatch(cfg, Verdict(cfg, r, gotData, first, alive).value, r, alive)
  {
    var shown := History(cfg, r.m);
    CleanedLength(cfg, r.m.tested);
    if cfg.contextLines > 0 {
      ContextIsTail(cfg, cfg.strip(r.m.hit.value.line), shown, r.truncated, alive);
    }
  }

  lemma CleanedLength(cfg: Config, lines: seq<Str>)
    ensures |Cleaned(cfg, lines)| == |lines|
  {}

  lemma TailIs(cfg: Config, shown: seq<Str>)
    ensures TailFromCollected(shown, cfg.tailLines)
         == if cfg.tailLines > 0 then Join(LastN(shown, cfg.tailLines)) else []
  {
    if cfg.tailLines > 0 {
      TailIsLastN(shown, cfg.tailLines);
    }
  }

  lemma TerminatedIs(cfg: Config, r: Reader, gotData: bool, first: bool, alive: bool)
    requires r.m.hit.None?
    ensures Verdict(cfg, r, gotData, first, alive).Some? <==> !first && gotData && !alive
    ensures !first && gotData && !alive ==>
              IsFailure(cfg, Verdict(cfg, r, gotData, first, alive).value, r, SessionTerminated, [], false)
  {
    assert Cleaned(cfg, r.m.tested) + [] == Cleaned(cfg, r.m.tested);
    TailIs(cfg, Cleaned(cfg, r.m.tested));
  }

  lemma TimedOutIs(cfg: Config, r: Reader, alive: bool)
    requires r.m.remainder != [] ==> !cfg.Hits(r.m.remainder)
    ensures var more := if r.m.remainder != [] then [cfg.strip(r.m.remainder)] else [];
            IsFailure(cfg, TimedOut(cfg, r, alive), r, Timeout, more, alive)
  {
    TailIs(cfg, Cleaned(cfg, r.m.tested) + (if r.m.remainder != [] then [cfg.strip(r.m.remainder)] else []));
  }

  /** A match has tested the line it reports. */
  lemma HitIsTested(cfg: Config, m: Matcher, chunk: Str)
    requires m.hit.None?
    ensures var m' := Feed(cfg, m, chunk);
            m'.hit.Some? ==> m'.hit.value.partial || m'.tested != []
  {}

  /** What the first look comes to: a match, or no result. */
  ghost predicate FirstDecides(cfg: Config, log: Str, first: Visit, o: Outcome) {
    && o.log == log + first.arrived + first.mid + first.gap
    && (o.result.Some? <==> o.reader.m.hit.Some?)
    && (o.result.Some? ==> IsMatch(cfg, o.result.value, o.reader, first.alive))
  }

  /** What a round comes to from an undecided call. A look: a match if a line hits, and else the end exactly if there
      was something to read and the session is dead. A timeout: always the end. */
  ghost predicate RoundDecides(cfg: Config, before: Outcome, round: Round, after: Outcome) {
    match round
    case Expire(arrived, alive) =>
      && after.log == before.log + arrived && after.reader == before.reader && after.result.Some?
      && var rest := before.reader.m.remainder;
         IsFailure(cfg, after.result.value, after.reader, Timeout, if rest != [] then [cfg.strip(rest)] else [], alive)
    case Wake(v) =>
      && after.log == before.log + v.arrived + v.mid + v.gap
      && (after.reader.m.hit.Some? ==>
            after.result.Some? && IsMatch(cfg, after.result.value, after.reader, v.alive))
      && (after.reader.m.hit.None? ==>
            && (after.result.Some? <==> v.arrived != [] && !v.alive)
            && (after.result.Some? ==>
                  IsFailure(cfg, after.result.value, after.reader, SessionTerminated, [], false)))
  }

  lemma FirstLookDecides(cfg: Config, size: nat, log: Str, mark: nat, first: Visit)
    ensures FirstDecides(cfg, log, first, Run(cfg, size, log, mark, first, []))
  {
    var start := Reader(mark, false, START, [], 0, 0);
    var next := Visited(cfg, size, log, start, first);
    HitIsTested(cfg, START, Since(log + first.arrived, size, mark));
    if next.m.hit.Some? {
      MatchIs(cfg, next, true, true, first.alive);
    } else {
      TerminatedIs(cfg, next, true, true, first.alive);
    }
  }

  /** At a look that follows a complete snapshot, what is unread is what has arrived. */
  lemma UnreadIsArrived(size: nat, log: Str, arrived: Str)
    requires 0 < size
    ensures Since(log + arrived, size, |log|) != [] <==> arrived != []
  {}

  lemma WakeDecides(cfg: Config, size: nat, before: Outcome, v: Visit)
    requires 0 < size && before.reader.snapshot == |before.log| && before.reader.m.hit.None?
    ensures RoundDecides(cfg, before, Wake(v), Loop(cfg, size, before.log, before.reader, [Wake(v)]))
  {
    var next := Visited(cfg, size, before.log, before.reader, v);
    var chunk := Since(before.log + v.arrived, size, before.reader.snapshot);
    LoopOnce(cfg, size, before.log, before.reader, v);
    UnreadIsArrived(size, before.log, v.arrived);
    HitIsTested(cfg, before.reader.m, chunk);
    if next.m.hit.Some? {
      MatchIs(cfg, next, chunk != [], false, v.alive);
    } else {
      TerminatedIs(cfg, next, chunk != [], false, v.alive);
    }
  }

  lemma ExpireDecides(cfg: Config, size: nat, before: Outcome, arrived: Str, alive: bool)
    requires before.reader.m.hit.None? && Explains(cfg, before.reader.m, before.reader.seen)
    ensures RoundDecides(cfg, before, Expire(arrived, alive),
                         Loop(cfg, size, before.log, before.reader, [Expire(arrived, alive)]))
  {
    LoopExpired(cfg, size, before.log, before.reader, arrived, alive);
    var rest := before.reader.m.remainder;
    assert rest != [] ==> before.reader.seen != [] && rest == Last(Split(before.reader.seen));
    TimedOutIs(cfg, before.reader, alive);
  }

  /** The call after the first `n` rounds of its script. */
  function After(cfg: Config, size: nat, log: Str, mark: nat, first: Visit, script: seq<Round>, n: nat): Outcome
    requires n <= |script|
  {
    Run(cfg, size, log, mark, first, script[..n])
  }

  /** For every script, every round of it and the first look: an undecided call goes on exactly as the bytes of the
      round, the session's being alive and the lines that hit say; a decided one stays as it is. */
  lemma EveryRoundDecides(cfg: Config, size: nat, log: Str, mark: nat, first: Visit, script: seq<Round>, n: nat)
    requires 0 < size && mark <= |log| && n < |script|
    ensures FirstDecides(cfg, log, first, After(cfg, size, log, mark, first, script, 0))
    ensures var before, after := After(cfg, size, log, mark, first, script, n),
            After(cfg, size, log, mark, first, script, n + 1);
            if before.result.Some? then after == before else RoundDecides(cfg, before, script[n], after)
  {
    FirstLookDecides(cfg, size, log, mark, first);
    assert script[..0] == [];
    var before := After(cfg, size, log, mark, first, script, n);
    assert script[..n + 1] == script[..n] + [script[n]];
    if before.result.Some? {
      ScriptIsOver(cfg, size, log, mark, first, script[..n], script[n]);
    } else {
      ScriptGoesOn(cfg, size, log, mark, first, script[..n], script[n]);
      UndecidedHasSeenAll(cfg, size, log, mark, first, script[..n]);
      RunKeepsAccount(cfg, size, log, mark, first, script[..n]);
      match script[n]
      case Expire(arrived, alive) => ExpireDecides(cfg, size, before, arrived, alive);
      case Wake(v) => WakeDecides(cfg, size, before, v);
    }
  }

  // ---- How a call ends ----

  /** The call ends in round `n`. */
  ghost predicate EndsIn(cfg: Config, size: nat, log: Str, mark: nat, first: Visit, script: seq<Round>, n: nat) {
    && n < |script|
    && After(cfg, size, log, mark, first, script, n).result.None?
    && After(cfg, size, log, mark, first, script, n + 1) == Run(cfg, size, log, mark, first, script)
  }

  lemma InitAndLast<T>(a: seq<T>, b: seq<T>)
    requires b != []
    ensures a + b == a + Init(b) + [Last(b)]
  {}

  lemma {:induction false} StaysOver(cfg: Config, size: nat, log: Str, mark: nat, first: Visit, script: seq<Round>,
                                     more: seq<Round>)
    requires Run(cfg, size, log, mark, first, script).result.Some?
    ensures Run(cfg, size, log, mark, first, script + more) == Run(cfg, size, log, mark, first, script)
  {
    if more == [] {
      assert script + more == script;
    } else {
      StaysOver(cfg, size, log, mark, first, script, Init(more));
      InitAndLast(script, more);
      ScriptIsOver(cfg, size, log, mark, first, script + Init(more), Last(more));
    }
  }

  lemma DecidedStays(cfg: Config, size: nat, log: Str, mark: nat, first: Visit, script: seq<Round>, n: nat, u: nat)
    requires n <= u <= |script| && After(cfg, size, log, mark, first, script, n).result.Some?
    ensures After(cfg, size, log, mark, first, script, u) == After(cfg, size, log, mark, first, script, n)
  {
    assert script[..u] == script[..n] + script[n..u];
    StaysOver(cfg, size, log, mark, first, script[..n], script[n..u]);
  }

  lemma {:induction false} DecidedSomewhere(cfg: Config, size: nat, log: Str, mark: nat, first: Visit,
                                            script: seq<Round>, u: nat)
    returns (n: nat)
    requires u <= |script| && After(cfg, size, log, mark, first, script, u).result.Some?
    requires After(cfg, size, log, mark, first, script, 0).result.None?
    ensures n < u && After(cfg, size, log, mark, first, script, n).result.None?
    ensures After(cfg, size, log, mark, first, script, n + 1) == After(cfg, size, log, mark, first, script, u)
  {
    if After(cfg, size, log, mark, first, script, u - 1).result.None? {
      n := u - 1;
    } else {
      n := DecidedSomewhere(cfg, size, log, mark, first, script, u - 1);
      DecidedStays(cfg, size, log, mark, first, script, u - 1, u);
    }
  }

  /** A result other than a match says why: the session terminated exactly if the call ended in a look of its loop that
      had something to read and found the session dead; a timeout exactly if it ended in one. */
  lemma FailuresSayWhy(cfg: Config, size: nat, log: Str, mark: nat, first: Visit, script: seq<Round>) returns (n: nat)
    requires 0 < size && mark <= |log|
    requires var o := Run(cfg, size, log, mark, first, script); o.result.Some? && !o.result.value.matched
    ensures EndsIn(cfg, size, log, mark, first, script, n)
    ensures var res := Run(cfg, size, log, mark, first, script).result.value;
            && (res.error == Some(SessionTerminated)
                <==> script[n].Wake? && script[n].visit.arrived != [] && !script[n].visit.alive)
            && (res.error == Some(Timeout) <==> script[n].Expire?)
            && (script[n].Expire? || (script[n].visit.arrived != [] && !script[n].visit.alive))
  {
    assert script[..|script|] == script && script[..0] == [];
    FirstLookDecides(cfg, size, log, mark, first);
    if After(cfg, size, log, mark, first, script, 0).result.Some? {
      DecidedStays(cfg, size, log, mark, first, script, 0, |script|);
      assert false;
    }
    n := DecidedSomewhere(cfg, size, log, mark, first, script, |script|);
    EveryRoundDecides(cfg, size, log, mark, first, script, n);
  }

  /** A call that has played its whole script without a result saw no timeout, and found the session alive whenever
      there was something to read. */
  lemma UndecidedSawNoEnd(cfg: Config, size: nat, log: Str, mark: nat, first: Visit, script: seq<Round>, n: nat)
    requires 0 < size && mark <= |log| && n < |script|
    requires Run(cfg, size, log, mark, first, script).result.None?
    ensures script[n].Wake? && (script[n].visit.arrived == [] || script[n].visit.alive)
  {
    assert script[..|script|] == script;
    if After(cfg, size, log, mark, first, script, n).result.Some? {
      DecidedStays(cfg, size, log, mark, first, script, n, |script|);
    }
    if After(cfg, size, log, mark, first, script, n + 1).result.Some? {
      DecidedStays(cfg, size, log, mark, first, script, n + 1, |script|);
    }
    EveryRoundDecides(cfg, size, log, mark, first, script, n);
  }

  /** With the session alive at every look and no timeout, the call matches or goes on waiting. */
  lemma LiveSessionsMatchOrWait(cfg: Config, size: nat, log: Str, mark: nat, first: Visit, script: seq<Round>)
    requires 0 < size && mark <= |log|
    requires forall i :: 0 <= i < |script| ==> script[i].Wake? && script[i].visit.alive
    ensures var o := Run(cfg, size, log, mark, first, script);
            o.result.None? || o.result.value.matched
  {
    var o := Run(cfg, size, log, mark, first, script);
    if o.result.Some? && !o.result.value.matched {
      var n := FailuresSayWhy(cfg, size, log, mark, first, script);
    }
  }
}
