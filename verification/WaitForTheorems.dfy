/** What waitForPattern guarantees over every interleaving with the writers. */
module WaitForTheorems {
  import opened Bytes
  import opened Lines
  import opened Matching
  import opened Ring
  import opened WaitFor

  /** The account a reader keeps of the log since the mark, and of what it has made of it. */
  ghost predicate Accounts(cfg: Config, log: Str, mark: nat, r: Reader) {
    Balances(log, mark, r) && Explains(cfg, r.m, r.seen)
  }

  ghost predicate Balances(log: Str, mark: nat, r: Reader) {
    && mark <= r.snapshot <= |log|
    && |r.seen| + r.overwritten + r.skipped == r.snapshot - mark
    && (r.overwritten == 0 && r.skipped == 0 ==> r.seen == log[mark..r.snapshot])
    && (r.overwritten > 0 ==> r.truncated)
    && (r.skipped == 0 && r.truncated ==> r.overwritten > 0)
    && (r.m.hit.Some? ==> r.snapshot == |log|)
  }

  /** What a visit adds to the text consumed, when nothing is lost. */
  lemma VisitExtends(size: nat, log: Str, mark: nat, snapshot: nat, v: Visit)
    requires mark <= snapshot <= |log|
    ensures var from := Clamp(log + v.arrived, size, snapshot);
            && snapshot <= from
            && |Since(log + v.arrived, size, snapshot)| == |log| + |v.arrived| - from
            && (from == snapshot && v.mid == [] && v.gap == [] ==>
                  log[mark..snapshot] + Since(log + v.arrived, size, snapshot) == LogAfter(log, v)[mark..])
  {
    var atRead := log + v.arrived;
    if v.mid == [] && v.gap == [] {
      assert LogAfter(log, v) == atRead;
      assert atRead[mark..snapshot] == log[mark..snapshot];
      assert atRead[mark..] == atRead[mark..snapshot] + atRead[snapshot..];
    }
  }

  lemma VisitKeepsAccount(cfg: Config, size: nat, log: Str, mark: nat, r: Reader, v: Visit)
    requires r.m.hit.None? && Accounts(cfg, log, mark, r)
    ensures Accounts(cfg, LogAfter(log, v), mark, Visited(cfg, size, log, r, v))
  {
    FeedExplains(cfg, r.m, r.seen, Since(log + v.arrived, size, r.snapshot));
    VisitBalances(cfg, size, log, mark, r, v);
  }

  lemma VisitBalances(cfg: Config, size: nat, log: Str, mark: nat, r: Reader, v: Visit)
    requires r.m.hit.None? && Balances(log, mark, r)
    ensures Balances(LogAfter(log, v), mark, Visited(cfg, size, log, r, v))
  {
    VisitExtends(size, log, mark, r.snapshot, v);
    var whole := LogAfter(log, v);
    assert whole[mark..|whole|] == whole[mark..];
  }

  /** What a finished or still waiting call reports about its reader. */
  ghost predicate Reports(cfg: Config, o: Outcome) {
    var hit := o.reader.m.hit;
    match o.result
    case None => hit.None?
    case Some(res) =>
      && (res.matched <==> hit.Some?)
      && (res.matched ==> res.matchLine == cfg.strip(hit.value.line))
      && res.isTruncated == o.reader.truncated
  }

  lemma ExpireKeepsAccount(cfg: Config, log: Str, mark: nat, r: Reader, arrived: Str, alive: bool)
    requires r.m.hit.None? && Accounts(cfg, log, mark, r)
    ensures var o := Outcome(log + arrived, r, Some(TimedOut(cfg, r, alive)));
            Accounts(cfg, o.log, mark, o.reader) && Reports(cfg, o)
  {
    assert (log + arrived)[mark..r.snapshot] == log[mark..r.snapshot];
    assert r.m.remainder != [] ==> r.seen != [] && !cfg.Hits(Last(Split(r.seen)));
  }

  lemma VerdictReports(cfg: Config, r: Reader, log: Str, gotData: bool, first: bool, alive: bool)
    requires Verdict(cfg, r, gotData, first, alive).Some?
    ensures Reports(cfg, Outcome(log, r, Verdict(cfg, r, gotData, first, alive)))
  {}

  lemma {:induction false} LoopKeepsAccount(cfg: Config, size: nat, log: Str, mark: nat, r: Reader, script: seq<Round>)
    requires r.m.hit.None? && Accounts(cfg, log, mark, r)
    ensures var o := Loop(cfg, size, log, r, script);
            Accounts(cfg, o.log, mark, o.reader) && Reports(cfg, o)
    decreases |script|
  {
    if script != [] {
      match script[0]
      case Expire(arrived, alive) =>
        ExpireKeepsAccount(cfg, log, mark, r, arrived, alive);
      case Wake(v) =>
        VisitKeepsAccount(cfg, size, log, mark, r, v);
        var next, now := Visited(cfg, size, log, r, v), LogAfter(log, v);
        var verdict := Verdict(cfg, next, Since(log + v.arrived, size, r.snapshot) != [], false, v.alive);
        if verdict.None? {
          LoopKeepsAccount(cfg, size, now, mark, next, script[1..]);
        } else {
          VerdictReports(cfg, next, now, Since(log + v.arrived, size, r.snapshot) != [], false, v.alive);
        }
    }
  }

  /** For every run: the reader's account of the stream balances, its matcher is explained by the text it consumed
      whatever the cuts were, and the result reports exactly that. The extra test at the timeout never matches. */
  lemma RunKeepsAccount(cfg: Config, size: nat, log: Str, mark: nat, first: Visit, script: seq<Round>)
    requires mark <= |log|
    ensures var o := Run(cfg, size, log, mark, first, script);
            Accounts(cfg, o.log, mark, o.reader) && Reports(cfg, o)
  {
    var start := Reader(mark, false, START, [], 0, 0);
    assert log[mark..mark] == [];
    VisitKeepsAccount(cfg, size, log, mark, start, first);
    var next := Visited(cfg, size, log, start, first);
    if Verdict(cfg, next, true, true, first.alive).None? {
      LoopKeepsAccount(cfg, size, LogAfter(log, first), mark, next, script);
    }
  }

  /** The run consumed every byte between the mark and its last snapshot, once and in order, exactly when no byte was
      overwritten before it was read and no write fell between a ReadSince and its Snapshot. */
  lemma ConsumesStreamExactly(cfg: Config, size: nat, log: Str, mark: nat, first: Visit, script: seq<Round>)
    requires mark <= |log|
    ensures var o := Run(cfg, size, log, mark, first, script);
            && mark <= o.reader.snapshot <= |o.log|
            && (o.reader.seen == o.log[mark..o.reader.snapshot] <==> o.reader.overwritten == 0 && o.reader.skipped == 0)
  {
    RunKeepsAccount(cfg, size, log, mark, first, script);
  }

  /** Chunk independence over runs: while nothing has matched, the lines tested and the text carried over are those of
      the log itself between the mark and the last snapshot. */
  lemma UnmatchedRunTestsTheLog(cfg: Config, size: nat, log: Str, mark: nat, first: Visit, script: seq<Round>)
    requires mark <= |log|
    ensures var o := Run(cfg, size, log, mark, first, script);
            o.reader.overwritten == 0 && o.reader.skipped == 0 && o.reader.m.hit.None?
                && mark <= o.reader.snapshot <= |o.log| ==>
              var text := o.log[mark..o.reader.snapshot];
              && NonEmpty(o.reader.m.tested) == NonEmpty(Complete(text))
              && o.reader.m.remainder == Last(Split(text))
  {
    RunKeepsAccount(cfg, size, log, mark, first, script);
  }

  /** Plain-text mode, nothing lost: a match is the first line after the mark that shows the needle, as it stood then;
      any other result means no such line was there. If the text strips by parts, the match stays that whatever is
      written later. */
  lemma PlainWaitIsExact(cfg: Config, needle: Str, size: nat, log: Str, mark: nat, first: Visit, script: seq<Round>,
                         later: Str)
    requires PlainSearch(cfg, needle) && mark <= |log|
    requires var r := Run(cfg, size, log, mark, first, script).reader; r.overwritten == 0 && r.skipped == 0
    ensures var o := Run(cfg, size, log, mark, first, script);
            && mark <= o.reader.snapshot <= |o.log|
            && PlainExact(cfg, needle, o.result, o.log[mark..o.reader.snapshot], later)
  {
    var o := Run(cfg, size, log, mark, first, script);
    RunKeepsAccount(cfg, size, log, mark, first, script);
    PlainMatch(cfg, needle, o.reader.m, o.reader.seen);
    if o.reader.m.hit.Some? && StripsByParts(cfg.strip, o.reader.seen + later) {
      MatchSurvives(cfg, o.reader.seen, later, needle, o.reader.m.hit.value.number);
    }
  }

  ghost predicate PlainExact(cfg: Config, needle: Str, result: Option<WaitResult>, text: Str, later: Str) {
    if !(result.Some? && result.value.matched) then NoLineShows(cfg, needle, text)
    else
      exists i: nat ::
        && FirstLineShowing(cfg, needle, text, i) && result.value.matchLine == cfg.strip(Split(text)[i])
        && (StripsByParts(cfg.strip, text + later) ==>
              && FirstLineShowing(cfg, needle, text + later, i)
              && result.value.matchLine <= cfg.strip(Split(text + later)[i]))
  }

  /** Nothing is written between a ReadSince and its Snapshot, and what has arrived since the last visit fits the
      ring. */
  predicate Quiet(v: Visit, size: nat, unread: nat) {
    v.mid == [] && v.gap == [] && unread + |v.arrived| <= size
  }

  /** So are the first `n` rounds of a script, each starting with nothing unread. */
  predicate QuietRounds(script: seq<Round>, size: nat, n: nat)
    requires n <= |script|
  {
    forall i :: 0 <= i < n && script[i].Wake? ==> Quiet(script[i].visit, size, 0)
  }

  /** How many rounds of the script the loop goes through before it ends: those it looks at the buffer in. */
  function Played(cfg: Config, size: nat, log: Str, r: Reader, script: seq<Round>): (n: nat)
    ensures n <= |script|
    decreases |script|
  {
    if script == [] || script[0].Expire? then 0
    else
      var v := script[0].visit;
      var next := Visited(cfg, size, log, r, v);
      if Verdict(cfg, next, Since(log + v.arrived, size, r.snapshot) != [], false, v.alive).Some? then 1
      else 1 + Played(cfg, size, LogAfter(log, v), next, script[1..])
  }

  function PlayedByRun(cfg: Config, size: nat, log: Str, mark: int, first: Visit, script: seq<Round>): (n: nat)
    ensures n <= |script|
  {
    var next := Visited(cfg, size, log, Reader(mark, false, START, [], 0, 0), first);
    if Verdict(cfg, next, true, true, first.alive).Some? then 0
        else Played(cfg, size, LogAfter(log, first), next, script)
  }

  /** A visit loses nothing exactly when it is quiet. */
  lemma VisitLoses(cfg: Config, size: nat, log: Str, r: Reader, v: Visit)
    requires 0 <= r.snapshot <= |log|
    ensures var next := Visited(cfg, size, log, r, v);
            && next.snapshot == |LogAfter(log, v)|
            && next.overwritten >= r.overwritten && next.skipped >= r.skipped
            && (LosesNothingMore(r, next) <==> Quiet(v, size, |log| - r.snapshot))
  {}

  lemma QuietFirst(script: seq<Round>, size: nat, n: nat)
    requires 1 <= n <= |script| && script[0].Wake?
    ensures QuietRounds(script, size, n) <==> Quiet(script[0].visit, size, 0) && QuietRounds(script[1..], size, n - 1)
  {
    forall i | 1 <= i < n
      ensures script[i] == script[1..][i - 1]
    {}
    if Quiet(script[0].visit, size, 0) && QuietRounds(script[1..], size, n - 1) {
      forall i | 0 <= i < n && script[i].Wake?
        ensures Quiet(script[i].visit, size, 0)
      {
        assert i > 0 ==> script[i] == script[1..][i - 1];
      }
    }
    if QuietRounds(script, size, n) {
      forall i | 0 <= i < n - 1 && script[1..][i].Wake?
        ensures Quiet(script[1..][i].visit, size, 0)
      {
        assert script[1..][i] == script[i + 1];
      }
    }
  }

  /** Whether `next` has lost bytes that `r` had not. */
  predicate LosesNothingMore(r: Reader, next: Reader) {
    next.overwritten == r.overwritten && next.skipped == r.skipped
  }

  lemma {:induction false} LoopLoses(cfg: Config, size: nat, log: Str, r: Reader, script: seq<Round>)
    requires r.snapshot == |log|
    ensures var end := Loop(cfg, size, log, r, script).reader;
            && end.overwritten >= r.overwritten && end.skipped >= r.skipped
            && (LosesNothingMore(r, end) <==> QuietRounds(script, size, Played(cfg, size, log, r, script)))
    decreases |script|
  {
    if script != [] && script[0].Wake? {
      var v := script[0].visit;
      var next, gotData := Visited(cfg, size, log, r, v), Since(log + v.arrived, size, r.snapshot) != [];
      VisitLoses(cfg, size, log, r, v);
      var n := Played(cfg, size, log, r, script);
      if Verdict(cfg, next, gotData, false, v.alive).None? {
        LoopLoses(cfg, size, LogAfter(log, v), next, script[1..]);
        QuietFirst(script, size, n);
      } else {
        assert n == 1;
      }
    }
  }

  /** The condition on the interleaving alone under which the theorems above apply: a run loses nothing exactly when,
      in the visits it makes, no write falls inside the read-then-snapshot windows and never more is unread than the
      ring holds. */
  lemma RunsLoseNothingExactlyWhenQuiet(cfg: Config, size: nat, log: Str, mark: nat, first: Visit, script: seq<Round>)
    requires mark <= |log|
    ensures var r := Run(cfg, size, log, mark, first, script).reader;
            r.overwritten == 0 && r.skipped == 0
            <==> && Quiet(first, size, |log| - mark)
                 && QuietRounds(script, size, PlayedByRun(cfg, size, log, mark, first, script))
  {
    var start := Reader(mark, false, START, [], 0, 0);
    VisitLoses(cfg, size, log, start, first);
    var next := Visited(cfg, size, log, start, first);
    if Verdict(cfg, next, true, true, first.alive).None? {
      LoopLoses(cfg, size, LogAfter(log, first), next, script);
    }
  }

  const A: byte := 65

  /** The hypothesis is needed: a line written between the first ReadSince and its Snapshot is never tested, and the
      call times out although the line is in the buffer. */
  lemma GapLosesALine(cfg: Config)
    requires cfg.strip([A]) == [A] && PlainSearch(cfg, [A])
    ensures var o := Run(cfg, 8, [], 0, Visit([], [], [A, NL], true), [Expire([], true)]);
            && o.result.Some? && !o.result.value.matched && !o.result.value.isTruncated
            && FirstLineShowing(cfg, [A], o.log, 0) && o.reader.overwritten == 0
  {
    var first := Visit([], [], [A, NL], true);
    var log := LogAfter([], first);
    assert log == [A, NL];
    var next := Visited(cfg, 8, [], Reader(0, false, START, [], 0, 0), first);
    assert next.m == START && !next.truncated;
    assert Init(log) == [A] && Init([A]) == [];
    assert Split([]) == [[]];
    SplitNoNewline([A]);
    assert Split(log) == [[A], []];
    assert [A] <= [A][0..];
    var o := Loop(cfg, 8, log, next, [Expire([], true)]);
    assert o.log == log + [] == log;
  }
}
