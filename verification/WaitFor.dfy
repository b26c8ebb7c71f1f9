/** waitForPattern (internal/mcp/tools.go): the blocking reader over the ring buffer, its bounded line window and
    its results, for every interleaving of its critical sections with the writers of the buffer. */
module WaitFor {
  import opened Bytes
  import opened Lines
  import opened Matching
  import opened Ring

  // ---- Results ----

  datatype WaitError = Timeout | SessionTerminated

  datatype WaitResult = WaitResult(
    matched: bool, matchLine: Str, context: Str, tail: Str, error: Option<WaitError>,
    warning: bool, isTruncated: bool, isAlive: bool)

  function BuildMatchResult(cfg: Config, line: Str, collected: seq<Str>, truncated: bool, alive: bool): WaitResult {
    var context :=
      if cfg.contextLines > 0 then
        var idx := |collected| - 1;
        var start := if idx - cfg.contextLines < 0 then 0 else idx - cfg.contextLines;
        var end := if idx + cfg.contextLines + 1 > |collected| then |collected| else idx + cfg.contextLines + 1;
        Join(collected[start..end])
      else [];
    WaitResult(true, line, context, [], None, cfg.plain, truncated, alive)
  }

  function TailFromCollected(collected: seq<Str>, n: int): Str {
    if n <= 0 || collected == [] then []
    else
      var start := if |collected| - n < 0 then 0 else |collected| - n;
      Join(collected[start..])
  }

  function BuildTimeoutResult(cfg: Config, collected: seq<Str>, truncated: bool, alive: bool): WaitResult {
    var tail := if cfg.tailLines > 0 then TailFromCollected(collected, cfg.tailLines) else [];
    WaitResult(false, [], [], tail, Some(Timeout), cfg.plain, truncated, alive)
  }

  function BuildTerminatedResult(cfg: Config, collected: seq<Str>, truncated: bool): WaitResult {
    WaitResult(false, [], [], TailFromCollected(collected, cfg.tailLines), Some(SessionTerminated), cfg.plain,
               truncated, false)
  }

  // ---- The bounded window ----

  function MaxCollected(cfg: Config): (n: nat)
    ensures n >= 200
  {
    var n := cfg.contextLines + cfg.tailLines + 100;
    if n < 200 then 200 else n
  }

  function LastN<T>(s: seq<T>, n: nat): seq<T> {
    if |s| <= n then s else s[|s| - n..]
  }

  /** What the trimmed slice holds after one more line is what trimming the whole history gives. */
  lemma TrimStep<T>(s: seq<T>, x: T, n: nat)
    ensures LastN(LastN(s, n) + [x], n) == LastN(s + [x], n)
  {}

  /** The window the code keeps when it builds a result: the last `n` complete lines and perhaps the partial one. */
  ghost predicate IsWindow(window: seq<Str>, history: seq<Str>, n: nat) {
    || window == LastN(history, n)
    || (history != [] && window == LastN(Init(history), n) + [Last(history)])
  }

  /** The window is at least as long as everything a result can show. */
  predicate WindowFits(cfg: Config) {
    cfg.tailLines <= MaxCollected(cfg) && cfg.contextLines < MaxCollected(cfg)
  }

  /** Both callers pass non-negative line counts. */
  lemma ClampedCountsFit(cfg: Config)
    requires 0 <= cfg.contextLines && 0 <= cfg.tailLines
    ensures WindowFits(cfg)
  {}

  /** Every result built from the window equals the one built from the whole history. */
  lemma WindowIsEnough(cfg: Config, window: seq<Str>, history: seq<Str>, line: Str, truncated: bool, alive: bool)
    requires WindowFits(cfg) && IsWindow(window, history, MaxCollected(cfg))
    ensures TailFromCollected(window, cfg.tailLines) == TailFromCollected(history, cfg.tailLines)
    ensures (window == []) == (history == [])
    ensures window != [] ==>
              BuildMatchResult(cfg, line, window, truncated, alive)
                  == BuildMatchResult(cfg, line, history, truncated, alive)
  {
    WindowIsSuffix(window, history, MaxCollected(cfg));
    if cfg.tailLines > 0 {
      WindowCovers(window, history, MaxCollected(cfg), cfg.tailLines);
      TailIsLastN(window, cfg.tailLines);
      TailIsLastN(history, cfg.tailLines);
    }
    if window != [] && cfg.contextLines > 0 {
      WindowCovers(window, history, MaxCollected(cfg), cfg.contextLines + 1);
      ContextIsTail(cfg, line, window, truncated, alive);
      ContextIsTail(cfg, line, history, truncated, alive);
    }
  }

  lemma WindowCovers(window: seq<Str>, history: seq<Str>, n: nat, k: nat)
    requires IsWindow(window, history, n) && k <= n && 0 < n
    ensures LastN(window, k) == LastN(history, k)
    ensures (window == []) == (history == [])
  {
    WindowIsSuffix(window, history, n);
    SameSuffix(window, history, k);
  }

  lemma WindowIsSuffix(window: seq<Str>, history: seq<Str>, n: nat)
    requires IsWindow(window, history, n) && 0 < n
    ensures |window| <= |history| && window == history[|history| - |window|..]
    ensures |window| < |history| ==> n <= |window|
    ensures (window == []) == (history == [])
  {
    if window != LastN(history, n) && |history| - 1 > n {
      assert Init(history)[|history| - 1 - n..] + [Last(history)] == history[|history| - 1 - n..];
    }
  }

  lemma SameSuffix(window: seq<Str>, history: seq<Str>, k: nat)
    requires |window| <= |history| && window == history[|history| - |window|..]
    requires |window| < |history| ==> k <= |window|
    ensures LastN(window, k) == LastN(history, k)
  {}

  lemma TailIsLastN(collected: seq<Str>, n: nat)
    ensures TailFromCollected(collected, n) == Join(LastN(collected, n))
  {
    if n == 0 {
      assert LastN(collected, n) == [];
    }
  }

  /** The matched line is the last one collected, so its context is the lines before it and itself. */
  lemma ContextIsTail(cfg: Config, line: Str, collected: seq<Str>, truncated: bool, alive: bool)
    requires collected != [] && cfg.contextLines > 0
    ensures BuildMatchResult(cfg, line, collected, truncated, alive).context
            == Join(LastN(collected, cfg.contextLines + 1))
  {
    var idx := |collected| - 1;
    var start := if idx - cfg.contextLines < 0 then 0 else idx - cfg.contextLines;
    assert collected[start..|collected|] == LastN(collected, cfg.contextLines + 1);
  }

  /** What the two kinds of result show of the window is what they would show of the whole history. */
  ghost predicate SameShown(cfg: Config, history: seq<Str>) {
    var window := LastN(history, MaxCollected(cfg));
    && TailFromCollected(window, cfg.tailLines) == TailFromCollected(history, cfg.tailLines)
    && (history != [] ==>
          BuildMatchResult(cfg, [], window, false, true).context
              == BuildMatchResult(cfg, [], history, false, true).context)
  }

  /** The window is enough for every history exactly when it fits. */
  lemma WindowIsEnoughExactlyWhenItFits(cfg: Config)
    ensures (forall history :: SameShown(cfg, history)) <==> WindowFits(cfg)
  {
    if WindowFits(cfg) {
      forall history
        ensures SameShown(cfg, history)
      {
        WindowIsEnough(cfg, LastN(history, MaxCollected(cfg)), history, [], false, true);
      }
    } else {
      var n := MaxCollected(cfg) + 1;
      var history: seq<Str> := seq(n, i => [65]);
      TooShort(cfg, history);
    }
  }

  lemma TooShort(cfg: Config, history: seq<Str>)
    requires !WindowFits(cfg) && |history| == MaxCollected(cfg) + 1
    requires forall i :: 0 <= i < |history| ==> |history[i]| == 1
    ensures !SameShown(cfg, history)
  {
    var window := LastN(history, MaxCollected(cfg));
    JoinLength(window);
    JoinLength(history);
    if cfg.tailLines > MaxCollected(cfg) {
      TailIsLastN(window, cfg.tailLines);
      TailIsLastN(history, cfg.tailLines);
    } else {
      ContextIsTail(cfg, [], window, false, true);
      ContextIsTail(cfg, [], history, false, true);
    }
  }

  lemma {:induction false} JoinLength(ls: seq<Str>)
    requires ls != [] && forall i :: 0 <= i < |ls| ==> |ls[i]| == 1
    ensures |Join(ls)| == 2 * |ls| - 1
  {
    if |ls| > 1 {
      JoinLength(Init(ls));
    }
  }

  // ---- Runs ----

  /** The bytes the writers append around the three critical sections of one visit to the buffer: before ReadSince,
      between it and IsTruncated, and between that and Snapshot; and what isAlive() answers. */
  datatype Visit = Visit(arrived: Str, mid: Str, gap: Str, alive: bool)

  /** How a wait ends: with a token, or with the context done. */
  datatype Round = Wake(visit: Visit) | Expire(arrived: Str, alive: bool)

  /** `seen` is all text read so far; `overwritten` and `skipped` count the bytes after the mark that were
      lost to the ring and to the window between ReadSince and Snapshot. */
  datatype Reader = Reader(snapshot: int, truncated: bool, m: Matcher, seen: Str, overwritten: nat, skipped: nat)

  function LogAfter(log: Str, v: Visit): Str {
    log + v.arrived + v.mid + v.gap
  }

  function Visited(cfg: Config, size: nat, log: Str, r: Reader, v: Visit): Reader {
    var atRead := log + v.arrived;
    var chunk := Since(atRead, size, r.snapshot);
    var from := Clamp(atRead, size, r.snapshot);
    Reader(|LogAfter(log, v)|,
           r.truncated || Truncated(atRead + v.mid, size, r.snapshot),
           Feed(cfg, r.m, chunk),
           r.seen + chunk,
           r.overwritten + (if from > r.snapshot then from - r.snapshot else 0),
           r.skipped + |v.mid| + |v.gap|)
  }

  function Cleaned(cfg: Config, lines: seq<Str>): seq<Str> {
    if lines == [] then [] else Cleaned(cfg, Init(lines)) + [cfg.strip(Last(lines))]
  }

  /** Every cleaned line tested, the partial one included when it matched. */
  function History(cfg: Config, m: Matcher): seq<Str> {
    Cleaned(cfg, m.tested) + (if m.hit.Some? && m.hit.value.partial then [cfg.strip(m.hit.value.line)] else [])
  }

  /** What a visit decides: `gotData` tells whether it read anything, `first` whether it is the initial look. */
  function Verdict(cfg: Config, r: Reader, gotData: bool, first: bool, alive: bool): Option<WaitResult> {
    if r.m.hit.Some? then
      Some(BuildMatchResult(cfg, cfg.strip(r.m.hit.value.line), History(cfg, r.m), r.truncated, alive))
    else if !first && gotData && !alive then
      Some(BuildTerminatedResult(cfg, History(cfg, r.m), r.truncated))
    else None
  }

  function TimedOut(cfg: Config, r: Reader, alive: bool): WaitResult {
    var history := Cleaned(cfg, r.m.tested) + (if r.m.remainder != [] then [cfg.strip(r.m.remainder)] else []);
    if r.m.remainder != [] && cfg.Hits(r.m.remainder)
    then BuildMatchResult(cfg, cfg.strip(r.m.remainder), history, r.truncated, alive)
    else BuildTimeoutResult(cfg, history, r.truncated, alive)
  }

  datatype Outcome = Outcome(log: Str, reader: Reader, result: Option<WaitResult>)

  function Loop(cfg: Config, size: nat, log: Str, r: Reader, script: seq<Round>): Outcome
    decreases |script|
  {
    if script == [] then Outcome(log, r, None)
    else match script[0]
      case Expire(arrived, alive) => Outcome(log + arrived, r, Some(TimedOut(cfg, r, alive)))
      case Wake(v) =>
        var next := Visited(cfg, size, log, r, v);
        var verdict := Verdict(cfg, next, Since(log + v.arrived, size, r.snapshot) != [], false, v.alive);
        if verdict.Some? then Outcome(LogAfter(log, v), next, verdict)
        else Loop(cfg, size, LogAfter(log, v), next, script[1..])
  }

  /** A whole call on a buffer with the given log and mark. */
  function Run(cfg: Config, size: nat, log: Str, mark: int, first: Visit, script: seq<Round>): Outcome {
    var next := Visited(cfg, size, log, Reader(mark, false, START, [], 0, 0), first);
    var verdict := Verdict(cfg, next, true, true, first.alive);
    if verdict.Some? then Outcome(LogAfter(log, first), next, verdict)
    else Loop(cfg, size, LogAfter(log, first), next, script)
  }

  // ---- The code ----

  lemma CleanedConcat(cfg: Config, a: seq<Str>, b: seq<Str>)
    ensures Cleaned(cfg, a + b) == Cleaned(cfg, a) + Cleaned(cfg, b)
  {
    if b == [] {
      assert a + b == a;
    } else {
      CleanedConcat(cfg, a, Init(b));
      assert Init(a + b) == a + Init(b);
    }
  }

  lemma CleanedSnoc(cfg: Config, history: seq<Str>, lines: seq<Str>, i: nat)
    requires i < |lines|
    ensures history + Cleaned(cfg, lines[..i + 1]) == history + Cleaned(cfg, lines[..i]) + [cfg.strip(lines[i])]
  {
    assert Init(lines[..i + 1]) == lines[..i];
  }

  /** Appending to the window and dropping the oldest line when it is over the limit. */
  method Collect(window: seq<Str>, clean: Str, max: nat) returns (collected: seq<Str>)
    requires |window| <= max
    ensures collected == LastN(window + [clean], max)
  {
    collected := window + [clean];
    if |collected| > max {
      collected := collected[|collected| - max..];
    }
  }

  /** The loop over the complete lines: clean, collect, trim, test; stops at the first match. */
  method TestLines(cfg: Config, lines: seq<Str>, ghost history: seq<Str>, window: seq<Str>)
    returns (collected: seq<Str>, hit: Option<Str>)
    requires window == LastN(history, MaxCollected(cfg))
    ensures var k := FirstHit(cfg, lines);
            && (hit.Some? <==> k < |lines|)
            && (hit.Some? ==> hit.value == cfg.strip(lines[k]))
            && collected == LastN(history + Cleaned(cfg, if k < |lines| then lines[..k + 1] else lines),
                                  MaxCollected(cfg))
  {
    var max := MaxCollected(cfg);
    collected := window;
    for i := 0 to |lines|
      invariant forall j :: 0 <= j < i ==> !cfg.Hits(lines[j])
      invariant collected == LastN(history + Cleaned(cfg, lines[..i]), max)
    {
      var clean := cfg.strip(lines[i]);
      TrimStep(history + Cleaned(cfg, lines[..i]), clean, max);
      CleanedSnoc(cfg, history, lines, i);
      collected := Collect(collected, clean, max);
      if cfg.matches(clean) {
        FirstHitIs(cfg, lines, i);
        return collected, Some(clean);
      }
    }
    FirstHitIs(cfg, lines, |lines|);
    assert lines[..|lines|] == lines;
    hit := None;
  }

  /** Cutting the text into the lines to test and the partial line to keep. */
  method Cut(text: Str) returns (lines: seq<Str>, rest: Str)
    requires text != []
    ensures lines == Tested(text) && rest == Carried(text)
  {
    rest := [];
    lines := Split(text);
    if text[|text| - 1] != NL {
      rest := lines[|lines| - 1];
      lines := lines[..|lines| - 1];
    }
  }

  lemma WindowWithPartial(history: seq<Str>, partial: Str, n: nat)
    ensures IsWindow(LastN(history, n) + [partial], history + [partial], n)
  {
    assert Init(history + [partial]) == history;
  }

  /** What feeding leaves behind, in terms of the lines cut from the text. */
  lemma FeedHistory(cfg: Config, m: Matcher, chunk: Str)
    requires chunk != [] && m.hit.None?
    ensures var lines, rest := Tested(m.remainder + chunk), Carried(m.remainder + chunk);
            var m', k := Feed(cfg, m, chunk), FirstHit(cfg, lines);
            var cleaned := Cleaned(cfg, m.tested) + Cleaned(cfg, if k < |lines| then lines[..k + 1] else lines);
            && m'.remainder == rest && Cleaned(cfg, m'.tested) == cleaned
            && m'.hit == Test(cfg, m.complete, lines, rest)
            && History(cfg, m')
               == if m'.hit.Some? && m'.hit.value.partial then cleaned + [cfg.strip(m'.hit.value.line)] else cleaned
  {
    var lines := Tested(m.remainder + chunk);
    var k := FirstHit(cfg, lines);
    var more := if k < |lines| then lines[..k + 1] else lines;
    FeedHit(cfg, m, chunk);
    CleanedConcat(cfg, m.tested, more);
    HistoryIs(cfg, Feed(cfg, m, chunk), Cleaned(cfg, m.tested) + Cleaned(cfg, more));
  }

  lemma HistoryIs(cfg: Config, m: Matcher, cleaned: seq<Str>)
    requires Cleaned(cfg, m.tested) == cleaned
    ensures History(cfg, m)
         == if m.hit.Some? && m.hit.value.partial then cleaned + [cfg.strip(m.hit.value.line)] else cleaned
  {
    assert cleaned + [] == cleaned;
  }

  /** One pass over freshly read text: the complete lines, then the partial one. */
  method Consume(cfg: Config, ghost m: Matcher, remainder: Str, window: seq<Str>, chunk: Str)
    returns (rest: Str, collected: seq<Str>, hit: Option<Str>)
    requires chunk != [] && m.hit.None? && m.remainder == remainder
    requires window == LastN(Cleaned(cfg, m.tested), MaxCollected(cfg))
    ensures var m' := Feed(cfg, m, chunk);
            && rest == m'.remainder
            && (hit.None? <==> m'.hit.None?)
            && (hit.Some? ==> hit.value == cfg.strip(m'.hit.value.line))
            && IsWindow(collected, History(cfg, m'), MaxCollected(cfg))
            && (hit.None? ==> collected == LastN(Cleaned(cfg, m'.tested), MaxCollected(cfg)))
  {
    FeedHistory(cfg, m, chunk);
    var lines;
    lines, rest := Cut(remainder + chunk);
    collected, hit := TestLines(cfg, lines, Cleaned(cfg, m.tested), window);
    if hit.None? {
      collected, hit := TestPartial(cfg, rest, Cleaned(cfg, Feed(cfg, m, chunk).tested), collected);
    }
  }

  /** The test of the partial line. */
  method TestPartial(cfg: Config, rest: Str, ghost history: seq<Str>, window: seq<Str>)
    returns (collected: seq<Str>, hit: Option<Str>)
    requires window == LastN(history, MaxCollected(cfg))
    ensures hit == if rest != [] && cfg.Hits(rest) then Some(cfg.strip(rest)) else None
    ensures IsWindow(collected, if hit.Some? then history + [hit.value] else history, MaxCollected(cfg))
    ensures hit.None? ==> collected == window
  {
    collected, hit := window, None;
    if rest != [] {
      var clean := cfg.strip(rest);
      if cfg.matches(clean) {
        WindowWithPartial(history, clean, MaxCollected(cfg));
        collected := collected + [clean];
        hit := Some(clean);
      }
    }
  }

  /** The three critical sections of a visit, with the writers' bytes between them. */
  method Look(rb: RingBuffer, v: Visit, snapshot: int, wasTruncated: bool)
    returns (chunk: Str, truncated: bool, snapshot': int)
    requires rb.Valid()
    modifies rb`head, rb`written, rb`notify, rb`log, rb.buf
    ensures rb.Valid() && rb.log == LogAfter(old(rb.log), v)
    ensures chunk == Since(old(rb.log) + v.arrived, rb.size, snapshot)
    ensures truncated == (wasTruncated || Truncated(old(rb.log) + v.arrived + v.mid, rb.size, snapshot))
    ensures snapshot' == |rb.log|
  {
    var _ := rb.Write(v.arrived);
    chunk := rb.ReadSince(snapshot);
    var _ := rb.Write(v.mid);
    truncated := wasTruncated;
    var t := rb.IsTruncated(snapshot);
    if t {
      truncated := true;
    }
    var _ := rb.Write(v.gap);
    snapshot' := rb.Snapshot();
  }

  /** The local variables hold what the specification's reader holds, the lines bounded. */
  ghost predicate Mirrors(cfg: Config, r: Reader, snapshot: int, truncated: bool, remainder: Str, collected: seq<Str>) {
    && r.snapshot == snapshot && r.truncated == truncated
    && r.m.remainder == remainder && r.m.hit.None?
    && collected == LastN(Cleaned(cfg, r.m.tested), MaxCollected(cfg))
  }

  /** The timeout branch. */
  method Expired(cfg: Config, ghost r: Reader, truncated: bool, remainder: Str, window: seq<Str>, alive: bool)
    returns (result: WaitResult)
    requires WindowFits(cfg) && Mirrors(cfg, r, r.snapshot, truncated, remainder, window)
    ensures result == TimedOut(cfg, r, alive)
  {
    var collected := window;
    ghost var history := Cleaned(cfg, r.m.tested) + (if remainder != [] then [cfg.strip(remainder)] else []);
    if remainder != [] {
      var clean := cfg.strip(remainder);
      collected := collected + [clean];
      assert Init(history) == Cleaned(cfg, r.m.tested);
      WindowIsEnough(cfg, collected, history, clean, truncated, alive);
      if cfg.matches(clean) {
        return BuildMatchResult(cfg, clean, collected, truncated, alive);
      }
    } else {
      assert history == Cleaned(cfg, r.m.tested);
      WindowIsEnough(cfg, collected, history, [], truncated, alive);
    }
    result := BuildTimeoutResult(cfg, collected, truncated, alive);
  }

  /** What follows a read: the lines are tested, and the call returns on a match or, in the loop, on a dead session. */
  method Digest(cfg: Config, ghost m: Matcher, ghost r: Reader, remainder: Str, window: seq<Str>, chunk: Str,
                truncated: bool, first: bool, alive: bool)
    returns (rest: Str, collected: seq<Str>, result: Option<WaitResult>)
    requires WindowFits(cfg) && m.hit.None? && m.remainder == remainder
    requires window == LastN(Cleaned(cfg, m.tested), MaxCollected(cfg))
    requires r.m == Feed(cfg, m, chunk) && r.truncated == truncated
    ensures result == Verdict(cfg, r, chunk != [], first, alive)
    ensures result.None? ==> Mirrors(cfg, r, r.snapshot, truncated, rest, collected)
  {
    rest, collected, result := remainder, window, None;
    if chunk == [] {
      return;
    }
    var hit;
    rest, collected, hit := Consume(cfg, m, remainder, window, chunk);
    WindowIsEnough(cfg, collected, History(cfg, r.m), if hit.Some? then hit.value else [], truncated, alive);
    if hit.Some? {
      result := Some(BuildMatchResult(cfg, hit.value, collected, truncated, alive));
    } else if !first && !alive {
      result := Some(BuildTerminatedResult(cfg, collected, truncated));
    }
  }

  /** One visit: the critical sections, then what follows the read. */
  method OneVisit(rb: RingBuffer, cfg: Config, ghost r: Reader, v: Visit, first: bool,
                  snapshot: int, wasTruncated: bool, remainder: Str, window: seq<Str>)
    returns (ghost r': Reader, snapshot': int, truncated: bool, rest: Str, collected: seq<Str>,
             result: Option<WaitResult>)
    requires rb.Valid() && WindowFits(cfg) && Mirrors(cfg, r, snapshot, wasTruncated, remainder, window)
    modifies rb`head, rb`written, rb`notify, rb`log, rb.buf
    ensures rb.Valid() && rb.log == LogAfter(old(rb.log), v)
    ensures r' == Visited(cfg, rb.size, old(rb.log), r, v)
    ensures result == Verdict(cfg, r', Since(old(rb.log) + v.arrived, rb.size, snapshot) != [], first, v.alive)
    ensures result.None? ==> Mirrors(cfg, r', snapshot', truncated, rest, collected)
  {
    r' := Visited(cfg, rb.size, rb.log, r, v);
    var chunk;
    chunk, truncated, snapshot' := Look(rb, v, snapshot, wasTruncated);
    rest, collected, result := Digest(cfg, r.m, r', remainder, window, chunk, truncated, first, v.alive);
  }

  lemma LoopStep(cfg: Config, size: nat, log: Str, r: Reader, script: seq<Round>, n: nat, v: Visit)
    requires n < |script| && script[n] == Wake(v)
    ensures var next := Visited(cfg, size, log, r, v);
            var verdict := Verdict(cfg, next, Since(log + v.arrived, size, r.snapshot) != [], false, v.alive);
            Loop(cfg, size, log, r, script[n..])
            == if verdict.Some? then Outcome(LogAfter(log, v), next, verdict)
               else Loop(cfg, size, LogAfter(log, v), next, script[n + 1..])
  {
    assert script[n..][1..] == script[n + 1..];
  }

  lemma LoopExpires(cfg: Config, size: nat, log: Str, r: Reader, script: seq<Round>, n: nat)
    requires n < |script| && script[n].Expire?
    ensures Loop(cfg, size, log, r, script[n..])
         == Outcome(log + script[n].arrived, r, Some(TimedOut(cfg, r, script[n].alive)))
  {}

  lemma LoopEnds(cfg: Config, size: nat, log: Str, r: Reader, script: seq<Round>)
    ensures Loop(cfg, size, log, r, script[|script|..]) == Outcome(log, r, None)
  {}

  /** The call itself: for every script the bounded window, the ring and the loop give the result the whole history
      gives. */
  method WaitForPattern(rb: RingBuffer, cfg: Config, first: Visit, script: seq<Round>)
      returns (result: Option<WaitResult>)
    requires rb.Valid() && WindowFits(cfg)
    modifies rb`head, rb`written, rb`notify, rb`log, rb.buf
    ensures rb.Valid()
    ensures var o := Run(cfg, rb.size, old(rb.log), rb.markSnapshot, first, script);
            rb.log == o.log && result == o.result
  {
    ghost var o := Run(cfg, rb.size, rb.log, rb.markSnapshot, first, script);
    ghost var r := Reader(rb.markSnapshot, false, START, [], 0, 0);
    var snapshot := rb.markSnapshot;
    var truncated, remainder, collected := false, [], [];

    r, snapshot, truncated, remainder, collected, result :=
      OneVisit(rb, cfg, r, first, true, snapshot, truncated, remainder, collected);
    if result.Some? {
      return;
    }

    var n := 0;
    assert script[0..] == script;
    while n < |script|
      invariant 0 <= n <= |script|
      invariant rb.Valid() && Mirrors(cfg, r, snapshot, truncated, remainder, collected)
      invariant o == Loop(cfg, rb.size, rb.log, r, script[n..])
    {
      match script[n] {
        case Expire(arrived, alive) =>
          LoopExpires(cfg, rb.size, rb.log, r, script, n);
          var _ := rb.Write(arrived);
          var timedOut := Expired(cfg, r, truncated, remainder, collected, alive);
          return Some(timedOut);
        case Wake(v) =>
          LoopStep(cfg, rb.size, rb.log, r, script, n, v);
          r, snapshot, truncated, remainder, collected, result :=
            OneVisit(rb, cfg, r, v, false, snapshot, truncated, remainder, collected);
          if result.Some? {
            return;
          }
      }
      n := n + 1;
    }
    LoopEnds(cfg, rb.size, rb.log, r, script);
    return None;
  }
}
