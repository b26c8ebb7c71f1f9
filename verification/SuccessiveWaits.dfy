/** What happens between one wait_for and the next: after a match the caller moves the mark to the end of the log
    (internal/mcp/tools.go). */
module SuccessiveWaits {
  import opened Bytes
  import opened Lines
  import opened Matching
  import opened Ring
  import opened WaitFor
  import opened WaitForTheorems
  import Cuts

  predicate OnlyNewlines(s: Str) {
    forall i :: 0 <= i < |s| ==> s[i] == NL
  }

  lemma OnlyNewlinesConcat(a: Str, b: Str)
    ensures OnlyNewlines(a + b) <==> OnlyNewlines(a) && OnlyNewlines(b)
  {
    if OnlyNewlines(a + b) {
      assert forall i :: 0 <= i < |a| ==> a[i] == (a + b)[i];
      assert forall i :: 0 <= i < |b| ==> b[i] == (a + b)[|a| + i];
    }
  }

  /** Everything that follows the first `k` lines, beginning with the newline that ends them. */
  function Following(lines: seq<Str>, k: nat): Str
    requires k <= |lines|
  {
    if k == |lines| then [] else [NL] + Join(lines[k..])
  }

  lemma {:induction false} JoinAt(lines: seq<Str>, k: nat)
    requires 0 < k <= |lines|
    ensures Join(lines) == Join(lines[..k]) + Following(lines, k)
  {
    if k == |lines| {
      assert lines[..k] == lines;
    } else {
      JoinAt(Init(lines), k);
      assert Init(lines)[..k] == lines[..k];
      FollowingGrows(lines, k);
    }
  }

  lemma FollowingGrows(lines: seq<Str>, k: nat)
    requires 0 < k < |lines|
    ensures Following(lines, k) == Following(Init(lines), k) + [NL] + Last(lines)
  {
    if k < |lines| - 1 {
      var rest := lines[k..];
      assert Init(rest) == Init(lines)[k..];
      assert Join(rest) == Join(Init(rest)) + [NL] + Last(lines);
    } else {
      assert lines[k..] == [Last(lines)];
    }
  }

  /** Lines that hold no newline join to nothing but newlines exactly when they are all empty. */
  lemma {:induction false} EmptyLinesJoin(lines: seq<Str>)
    requires forall i :: 0 <= i < |lines| ==> NoNewline(lines[i])
    ensures OnlyNewlines(Join(lines)) <==> NonEmpty(lines) == []
  {
    if lines != [] {
      EmptyLinesJoin(Init(lines));
      assert NoNewline(Last(lines));
      assert OnlyNewlines(Last(lines)) <==> Last(lines) == [] by {
        assert Last(lines) != [] ==> Last(lines)[0] in Last(lines);
      }
      if |lines| > 1 {
        OnlyNewlinesConcat(Join(Init(lines)) + [NL], Last(lines));
        OnlyNewlinesConcat(Join(Init(lines)), [NL]);
      } else {
        assert Init(lines) == [];
      }
    }
  }

  lemma FollowingIsEmpty(lines: seq<Str>, k: nat)
    requires k <= |lines| && forall i :: 0 <= i < |lines| ==> NoNewline(lines[i])
    ensures OnlyNewlines(Following(lines, k)) <==> NonEmpty(lines[k..]) == []
  {
    if k < |lines| {
      EmptyLinesJoin(lines[k..]);
      OnlyNewlinesConcat([NL], Join(lines[k..]));
    }
  }

  /** What neither of two calls tests: the text read after the matched line `k`, and what was written before the mark
      moved. */
  function Missed(text: Str, k: nat, since: Str): Str
    requires k < |Split(text)|
  {
    Following(Split(text), k + 1) + since
  }

  lemma MissedFollows(text: Str, k: nat, since: Str)
    requires k < |Split(text)|
    ensures text + since == Join(Split(text)[..k + 1]) + Missed(text, k, since)
  {
    JoinSplit(text);
    JoinAround(Split(text), k, since);
  }

  lemma JoinAround(lines: seq<Str>, k: nat, since: Str)
    requires k < |lines|
    ensures Join(lines) + since == Join(lines[..k + 1]) + (Following(lines, k + 1) + since)
  {
    JoinAt(lines, k + 1);
    ConcatAssociates(Join(lines[..k + 1]), Following(lines, k + 1), since);
  }

  lemma ConcatAssociates(a: Str, b: Str, c: Str)
    ensures (a + b) + c == a + (b + c)
  {}

  lemma MissedIsEmpty(text: Str, k: nat, since: Str)
    requires k < |Split(text)|
    ensures OnlyNewlines(Missed(text, k, since)) <==> NonEmpty(Split(text)[k + 1..]) == [] && OnlyNewlines(since)
  {
    SplitHasNoNewline(text);
    FollowingIsEmpty(Split(text), k + 1);
    OnlyNewlinesConcat(Following(Split(text), k + 1), since);
  }

  /** The run matched line `k` of what it read. What it tested and what is missed make up what it read and what was
      written since; with the bytes it lost to the ring and to its two-section windows that accounts for the whole log
      since the mark, and if it lost none it is the log since the mark. No more than newlines is missed exactly when no
      non-empty line was read after the matched one and nothing but newlines was written since. */
  ghost predicate MissesExactly(cfg: Config, o: Outcome, mark: nat, since: Str) {
    var text, lines, log := o.reader.seen, Split(o.reader.seen), o.log + since;
    var k := FirstHit(cfg, lines);
    && k < |lines| && o.result.Some? && o.result.value.matchLine == cfg.strip(lines[k])
    && var tested, missed := Join(lines[..k + 1]), Missed(text, k, since);
    && text + since == tested + missed
    && mark <= |log| && |log| - mark == |tested| + |missed| + o.reader.overwritten + o.reader.skipped
    && (o.reader.overwritten == 0 && o.reader.skipped == 0 ==> log[mark..] == tested + missed)
    && (OnlyNewlines(missed) <==> NonEmpty(lines[k + 1..]) == [] && OnlyNewlines(since))
  }

  predicate Matched(o: Outcome) {
    o.result.Some? && o.result.value.matched
  }

  lemma StreamAfterTheMark(cfg: Config, o: Outcome, mark: nat, since: Str)
    requires Accounts(cfg, o.log, mark, o.reader) && Reports(cfg, o) && Matched(o)
    ensures mark <= |o.log| && |o.log| - mark == |o.reader.seen| + o.reader.overwritten + o.reader.skipped
    ensures o.reader.overwritten == 0 && o.reader.skipped == 0 ==> (o.log + since)[mark..] == o.reader.seen + since
  {
    assert o.log[mark..] == o.log[mark..o.reader.snapshot];
    assert (o.log + since)[mark..] == o.log[mark..] + since;
  }

  lemma MissedAfter(cfg: Config, o: Outcome, mark: nat, since: Str)
    requires Accounts(cfg, o.log, mark, o.reader) && Reports(cfg, o) && Matched(o)
    ensures MissesExactly(cfg, o, mark, since)
  {
    var text := o.reader.seen;
    var k := FirstHit(cfg, Split(text));
    StreamAfterTheMark(cfg, o, mark, since);
    MissedFollows(text, k, since);
    MissedIsEmpty(text, k, since);
    assert |text + since| == |Join(Split(text)[..k + 1])| + |Missed(text, k, since)|;
  }

  /** After a match the caller moves the mark to the end of the log, where the next wait_for starts: `since` is written
      in between. Neither call tests what is missed, for every interleaving of the first one with the writers. */
  lemma NextCallMissesExactly(cfg: Config, size: nat, log: Str, mark: nat, first: Visit, script: seq<Round>, since: Str)
    requires mark <= |log| && Matched(Run(cfg, size, log, mark, first, script))
    ensures MissesExactly(cfg, Run(cfg, size, log, mark, first, script), mark, since)
  {
    RunKeepsAccount(cfg, size, log, mark, first, script);
    MissedAfter(cfg, Run(cfg, size, log, mark, first, script), mark, since);
  }

  const B: byte := 66

  /** Such a run: the lines `A` and `B` arrive together, the first call matches `A`, and the mark then moves past
      `B`. */
  lemma NextCallMissesALine(cfg: Config)
    requires cfg.strip([A]) == [A] && PlainSearch(cfg, [A])
    ensures var o := Run(cfg, 8, [], 0, Visit([A, NL, B], [], [], true), []);
            && Matched(o) && o.reader.overwritten == 0 && o.reader.skipped == 0
            && FirstHit(cfg, Split(o.reader.seen)) == 0 && Missed(o.reader.seen, 0, []) == [NL, B]
  {
    LooksAtTwoLines(cfg);
    MatchesAtOnce(cfg, [A, NL, B]);
    MissesTheSecond(cfg);
  }

  /** A run that matches in what it finds at first. */
  lemma MatchesAtOnce(cfg: Config, text: Str)
    requires Feed(cfg, START, text).hit.Some? && |text| <= 8
    ensures var o := Run(cfg, 8, [], 0, Visit(text, [], [], true), []);
            Matched(o) && o.reader.overwritten == 0 && o.reader.skipped == 0 && o.reader.seen == text
  {
    assert [] + text == text;
    assert Since(text, 8, 0) == text;
  }

  lemma MissesTheSecond(cfg: Config)
    requires cfg.Hits([A])
    ensures FirstHit(cfg, Split([A, NL, B])) == 0 && Missed([A, NL, B], 0, []) == [NL, B]
  {
    Cuts.SplitPair([A], B);
    assert [A] + [NL, B] == [A, NL, B];
    assert Following([[A], [B]], 1) == [NL] + Join([[B]]) == [NL, B];
  }

  lemma LooksAtTwoLines(cfg: Config)
    requires cfg.strip([A]) == [A] && PlainSearch(cfg, [A])
    ensures cfg.Hits([A]) && Feed(cfg, START, [A, NL, B]).hit == Some(Hit([A], false, 0))
  {
    Cuts.SplitPair([A], B);
    assert [A] + [NL, B] == [A, NL, B] == [] + [A, NL, B];
    assert [A] <= [A][0..];
    FirstHitIs(cfg, [[A]], 0);
  }
}
