/** The incremental line matcher inside waitForPattern (internal/mcp/tools.go), independent of the buffer. */
module Matching {
  import opened Bytes
  import opened Lines

  /** `strip` stands for pty.StripANSI, `matches` for the compiled regex or the plain-text search. */
  datatype Config = Config(strip: Str -> Str, matches: Str -> bool, plain: bool, contextLines: int, tailLines: int) {
    predicate Hits(line: Str) {
      matches(strip(line))
    }
  }

  /** `number` records which line of all text consumed it is. */
  datatype Hit = Hit(line: Str, partial: bool, number: nat)

  /** The carried partial line, how many complete lines came before it, every line tested so far (before stripping),
      and the line that matched. */
  datatype Matcher = Matcher(remainder: Str, complete: nat, tested: seq<Str>, hit: Option<Hit>)

  const START := Matcher([], 0, [], None)

  /** The index of the first line that matches, or the number of lines. */
  function FirstHit(cfg: Config, lines: seq<Str>): (k: nat)
    ensures k <= |lines|
    ensures forall i :: 0 <= i < k ==> !cfg.Hits(lines[i])
    ensures k < |lines| ==> cfg.Hits(lines[k])
  {
    if lines == [] then 0 else if cfg.Hits(lines[0]) then 0 else 1 + FirstHit(cfg, lines[1..])
  }

  /** What testing lines in order until one matches, then the partial line, comes to; `before` lines came earlier. */
  function Test(cfg: Config, before: nat, lines: seq<Str>, rest: Str): Option<Hit> {
    var k := FirstHit(cfg, lines);
    if k < |lines| then Some(Hit(lines[k], false, before + k))
    else if rest != [] && cfg.Hits(rest) then Some(Hit(rest, true, before + |lines|))
    else None
  }

  /** What one non-empty read does. */
  function Feed(cfg: Config, m: Matcher, chunk: Str): Matcher {
    if m.hit.Some? || chunk == [] then m
    else
      var text := m.remainder + chunk;
      var lines := Tested(text);
      var k := FirstHit(cfg, lines);
      Matcher(Carried(text), m.complete + |Complete(text)|, m.tested + (if k < |lines| then lines[..k + 1] else lines),
              Test(cfg, m.complete, lines, Carried(text)))
  }

  /** Every read of a run in turn; nothing is consumed once a line has matched. */
  function Fold(cfg: Config, chunks: seq<Str>): Matcher {
    if chunks == [] then START else Feed(cfg, Fold(cfg, Init(chunks)), Last(chunks))
  }

  lemma FirstHitIs(cfg: Config, lines: seq<Str>, k: nat)
    requires k <= |lines|
    requires forall i :: 0 <= i < k ==> !cfg.Hits(lines[i])
    requires k < |lines| ==> cfg.Hits(lines[k])
    ensures FirstHit(cfg, lines) == k
  {}

  lemma FirstHitConcat(cfg: Config, a: seq<Str>, b: seq<Str>)
    ensures FirstHit(cfg, a + b) == if FirstHit(cfg, a) < |a| then FirstHit(cfg, a) else |a| + FirstHit(cfg, b)
  {
    var k := if FirstHit(cfg, a) < |a| then FirstHit(cfg, a) else |a| + FirstHit(cfg, b);
    forall i | 0 <= i < k
      ensures !cfg.Hits((a + b)[i])
    {}
    FirstHitIs(cfg, a + b, k);
  }

  /** The matcher is determined by the text consumed, however it was cut and whatever the pattern: while nothing matched
      it carries the text after the last newline, has tested the non-empty complete lines in order, and no line hits; a
      match is the first line that hits, a partial one exactly if it is the text after the last newline. */
  ghost predicate Explains(cfg: Config, m: Matcher, seen: Str) {
    && (m.hit.None? ==>
          && m.remainder == Last(Split(seen)) && m.complete == |Complete(seen)|
          && NonEmpty(m.tested) == NonEmpty(Complete(seen)))
    && (m.hit.Some? ==> HasTested(m, Split(seen)))
    && (seen == [] ==> m.hit.None?)
    && (seen != [] ==> Picks(m.hit, Split(seen), FirstHit(cfg, Split(seen)), 0))
  }

  /** The lines tested are those up to the match, the empty ones aside; a partial line was tested apart. */
  predicate HasTested(m: Matcher, lines: seq<Str>)
    requires m.hit.Some?
  {
    var n := if m.hit.value.partial then m.hit.value.number else m.hit.value.number + 1;
    n <= |lines| && NonEmpty(m.tested) == NonEmpty(lines[..n])
  }

  /** The hit is line `k` of the lines, which `before` others precede, or there is none. */
  predicate Picks(hit: Option<Hit>, lines: seq<Str>, k: nat, before: nat)
    requires k <= |lines|
  {
    if k == |lines| then hit.None?
    else
      && hit.Some? && hit.value.line == lines[k] && hit.value.number == before + k
      && (hit.value.partial <==> k == |lines| - 1 && lines[k] != [])
  }

  /** A text that ends with a newline is tested whole, the extra empty entry included; of any other the last line is
      left over. */
  lemma PieceLines(text: Str)
    requires text != []
    ensures Split(text) == if EndsWithNewline(text) then Tested(text) else Tested(text) + [Carried(text)]
    ensures Carried(text) == Last(Split(text))
    ensures Carried(text) == [] <==> EndsWithNewline(text)
  {
    SplitLast(text);
    CarriedIsLast(text);
  }

  /** Testing the lines of a piece and then its carried text picks the first line of the piece that hits. */
  lemma PieceHit(cfg: Config, before: nat, text: Str)
    requires text != []
    ensures Picks(Test(cfg, before, Tested(text), Carried(text)), Split(text), FirstHit(cfg, Split(text)), before)
  {
    PieceLines(text);
    TestPicks(cfg, before, Tested(text), Carried(text));
    if EndsWithNewline(text) {
      assert Last(Tested(text)) == [];
    }
  }

  lemma TestPicks(cfg: Config, before: nat, lines: seq<Str>, rest: Str)
    requires rest == [] ==> lines != [] && Last(lines) == []
    ensures var all := if rest == [] then lines else lines + [rest];
            Picks(Test(cfg, before, lines, rest), all, FirstHit(cfg, all), before)
  {
    if rest != [] {
      FirstHitConcat(cfg, lines, [rest]);
    }
  }

  /** A pick among the last lines is a pick among all of them, when the others do not hit. */
  lemma PickMovesOn(hit: Option<Hit>, before: seq<Str>, lines: seq<Str>, k: nat)
    requires k <= |lines| && Picks(hit, lines, k, |before|)
    ensures Picks(hit, before + lines, |before| + k, 0)
  {}

  lemma NoHitBefore(cfg: Config, seen: Str)
    requires seen != [] ==> FirstHit(cfg, Split(seen)) == |Split(seen)|
    ensures FirstHit(cfg, Complete(seen)) == |Complete(seen)|
  {
    assert Split(seen) == Complete(seen) + [Last(Split(seen))];
    FirstHitConcat(cfg, Complete(seen), [Last(Split(seen))]);
  }

  /** The first hit of the whole text, when the complete lines seen so far have none. */
  lemma HitMovesOn(cfg: Config, seen: Str, chunk: Str)
    requires FirstHit(cfg, Complete(seen)) == |Complete(seen)|
    ensures var before, after := Complete(seen), Split(Last(Split(seen)) + chunk);
            && Split(seen + chunk) == before + after
            && FirstHit(cfg, Split(seen + chunk)) == |before| + FirstHit(cfg, after)
  {
    SplitConcat(seen, chunk);
    FirstHitConcat(cfg, Complete(seen), Split(Last(Split(seen)) + chunk));
  }

  /** The non-empty complete lines of the whole text are those seen so far and those of the piece. */
  lemma TestedMovesOn(seen: Str, chunk: Str, tested: seq<Str>)
    requires NonEmpty(tested) == NonEmpty(Complete(seen))
    ensures NonEmpty(tested + Tested(Last(Split(seen)) + chunk)) == NonEmpty(Complete(seen + chunk))
  {
    var text := Last(Split(seen)) + chunk;
    SplitConcat(seen, chunk);
    assert Complete(seen + chunk) == Complete(seen) + Complete(text);
    NonEmptyConcat(Complete(seen), Complete(text));
    NonEmptyConcat(tested, Tested(text));
    TestedNonEmpty(text);
  }

  /** One read keeps the matcher explained by the text consumed. */
  lemma FeedExplains(cfg: Config, m: Matcher, seen: Str, chunk: Str)
    requires m.hit.None? && Explains(cfg, m, seen)
    ensures Explains(cfg, Feed(cfg, m, chunk), seen + chunk)
  {
    if chunk == [] {
      assert seen + chunk == seen;
    } else {
      FeedPicks(cfg, m, seen, chunk);
      if Feed(cfg, m, chunk).hit.None? {
        FeedCarries(cfg, m, seen, chunk);
      } else {
        SplitConcat(seen, chunk);
        FeedHasTested(cfg, m, chunk, Complete(seen), Split(seen + chunk));
      }
    }
  }

  lemma FeedHit(cfg: Config, m: Matcher, chunk: Str)
    requires m.hit.None? && chunk != []
    ensures var text := m.remainder + chunk;
            Feed(cfg, m, chunk).hit == Test(cfg, m.complete, Tested(text), Carried(text))
  {}

  lemma FeedPicks(cfg: Config, m: Matcher, seen: Str, chunk: Str)
    requires m.hit.None? && Explains(cfg, m, seen) && chunk != []
    ensures Picks(Feed(cfg, m, chunk).hit, Split(seen + chunk), FirstHit(cfg, Split(seen + chunk)), 0)
  {
    FeedHit(cfg, m, chunk);
    NoHitBefore(cfg, seen);
    HitMovesOn(cfg, seen, chunk);
    HitPicks(cfg, Complete(seen), m.remainder + chunk, seen + chunk);
  }

  /** What testing a piece finds is the first hit of the whole text, whose other lines come before and do not hit. */
  lemma HitPicks(cfg: Config, before: seq<Str>, text: Str, whole: Str)
    requires text != [] && Split(whole) == before + Split(text)
    requires FirstHit(cfg, Split(whole)) == |before| + FirstHit(cfg, Split(text))
    ensures Picks(Test(cfg, |before|, Tested(text), Carried(text)), Split(whole), FirstHit(cfg, Split(whole)), 0)
  {
    PieceHit(cfg, |before|, text);
    var hit := Test(cfg, |before|, Tested(text), Carried(text));
    PickMovesOn(hit, before, Split(text), FirstHit(cfg, Split(text)));
  }

  /** A match has tested the lines up to it, the empty ones aside. */
  lemma FeedHasTested(cfg: Config, m: Matcher, chunk: Str, before: seq<Str>, whole: seq<Str>)
    requires m.hit.None? && chunk != [] && Feed(cfg, m, chunk).hit.Some?
    requires whole == before + Split(m.remainder + chunk)
    requires m.complete == |before| && NonEmpty(m.tested) == NonEmpty(before)
    ensures HasTested(Feed(cfg, m, chunk), whole)
  {
    var some := HitCounts(cfg, m, chunk);
    TestedIsBeginning(m.remainder + chunk, some);
    CountedIsTested(Feed(cfg, m, chunk), m.tested, before, Split(m.remainder + chunk), some);
  }

  lemma CountedIsTested(m: Matcher, tested: seq<Str>, before: seq<Str>, lines: seq<Str>, some: seq<Str>)
    requires m.hit.Some? && m.tested == tested + some && NonEmpty(tested) == NonEmpty(before)
    requires |some| <= |lines| && lines[..|some|] == some
    requires (if m.hit.value.partial then m.hit.value.number else m.hit.value.number + 1) == |before| + |some|
    ensures HasTested(m, before + lines)
  {
    BothNonEmpty(tested, before, lines, some);
  }

  lemma BothNonEmpty(tested: seq<Str>, before: seq<Str>, lines: seq<Str>, some: seq<Str>)
    requires NonEmpty(tested) == NonEmpty(before) && |some| <= |lines| && lines[..|some|] == some
    ensures NonEmpty(tested + some) == NonEmpty((before + lines)[..|before| + |some|])
  {
    UpTo(before, lines, some);
    NonEmptyConcat(tested, some);
    NonEmptyConcat(before, some);
  }

  lemma TestedIsBeginning(text: Str, some: seq<Str>)
    requires text != [] && some <= Tested(text)
    ensures |some| <= |Split(text)| && Split(text)[..|some|] == some
  {
    PieceLines(text);
  }

  lemma HitCounts(cfg: Config, m: Matcher, chunk: Str) returns (some: seq<Str>)
    requires m.hit.None? && chunk != [] && Feed(cfg, m, chunk).hit.Some?
    ensures some <= Tested(m.remainder + chunk)
    ensures var m' := Feed(cfg, m, chunk);
            && m'.tested == m.tested + some
            && (if m'.hit.value.partial then m'.hit.value.number else m'.hit.value.number + 1) == m.complete + |some|
  {
    var lines := Tested(m.remainder + chunk);
    var k := FirstHit(cfg, lines);
    some := if k < |lines| then lines[..k + 1] else lines;
  }

  lemma UpTo(before: seq<Str>, lines: seq<Str>, some: seq<Str>)
    requires |some| <= |lines| && lines[..|some|] == some
    ensures (before + lines)[..|before| + |some|] == before + some
  {}

  lemma FeedCarries(cfg: Config, m: Matcher, seen: Str, chunk: Str)
    requires m.hit.None? && Explains(cfg, m, seen) && chunk != [] && Feed(cfg, m, chunk).hit.None?
    ensures Feed(cfg, m, chunk).remainder == Last(Split(seen + chunk))
    ensures Feed(cfg, m, chunk).complete == |Complete(seen + chunk)|
    ensures NonEmpty(Feed(cfg, m, chunk).tested) == NonEmpty(Complete(seen + chunk))
  {
    SplitConcat(seen, chunk);
    TestedMovesOn(seen, chunk, m.tested);
    CarriedIsLast(m.remainder + chunk);
    NoHitTestsAll(cfg, m, chunk);
  }

  lemma NoHitTestsAll(cfg: Config, m: Matcher, chunk: Str)
    requires m.hit.None? && chunk != []
    ensures var m', text := Feed(cfg, m, chunk), m.remainder + chunk;
            m'.hit.None? ==> m'.remainder == Carried(text) && m'.tested == m.tested + Tested(text)
  {}

  /** Chunk independence: as long as no chunk but the last brought a match, the result depends on the text alone. */
  lemma {:induction false} ChunkIndependence(cfg: Config, chunks: seq<Str>)
    requires chunks != [] ==> Fold(cfg, Init(chunks)).hit.None?
    ensures Explains(cfg, Fold(cfg, chunks), Concat(chunks))
  {
    if chunks != [] {
      FoldStaysClear(cfg, Init(chunks));
      ChunkIndependence(cfg, Init(chunks));
      FeedExplains(cfg, Fold(cfg, Init(chunks)), Concat(Init(chunks)), Last(chunks));
    }
  }

  lemma FoldStaysClear(cfg: Config, chunks: seq<Str>)
    requires Fold(cfg, chunks).hit.None?
    ensures chunks != [] ==> Fold(cfg, Init(chunks)).hit.None?
  {}

  // ---- Plain-text mode ----

  /** The pattern is a text to be found, and stripping nothing gives nothing. */
  ghost predicate PlainSearch(cfg: Config, needle: Str) {
    needle != [] && cfg.strip([]) == [] && forall s :: cfg.matches(s) <==> Contains(s, needle)
  }

  /** The needle is in the line once that is stripped. */
  ghost predicate Shows(cfg: Config, needle: Str, line: Str) {
    Contains(cfg.strip(line), needle)
  }

  /** Line `i` of the text is the first one that shows the needle. */
  ghost predicate FirstLineShowing(cfg: Config, needle: Str, text: Str, i: nat) {
    var lines := Split(text);
    && i < |lines|
    && Shows(cfg, needle, lines[i])
    && forall j :: 0 <= j < i ==> !Shows(cfg, needle, lines[j])
  }

  ghost predicate NoLineShows(cfg: Config, needle: Str, text: Str) {
    forall j :: 0 <= j < |Split(text)| ==> !Shows(cfg, needle, Split(text)[j])
  }

  lemma EmptyLineShowsNothing(cfg: Config, needle: Str)
    requires PlainSearch(cfg, needle)
    ensures !cfg.Hits([]) && !Shows(cfg, needle, [])
  {}

  lemma PlainFirstHit(cfg: Config, needle: Str, text: Str)
    requires PlainSearch(cfg, needle)
    ensures FirstHit(cfg, Split(text)) < |Split(text)|
            ==> FirstLineShowing(cfg, needle, text, FirstHit(cfg, Split(text)))
    ensures forall i: nat :: FirstLineShowing(cfg, needle, text, i) ==> FirstHit(cfg, Split(text)) == i
    ensures NoLineShows(cfg, needle, text) <==> FirstHit(cfg, Split(text)) == |Split(text)|
  {
    assert forall line :: cfg.Hits(line) <==> Shows(cfg, needle, line);
    forall i: nat | FirstLineShowing(cfg, needle, text, i)
      ensures FirstHit(cfg, Split(text)) == i
    {
      FirstHitIs(cfg, Split(text), i);
    }
    if NoLineShows(cfg, needle, text) {
      FirstHitIs(cfg, Split(text), |Split(text)|);
    }
  }

  /** Soundness and completeness: the matcher reports the first line of the consumed text that shows the needle, and
      reports nothing exactly when there is none. */
  lemma PlainMatch(cfg: Config, needle: Str, m: Matcher, seen: Str)
    requires PlainSearch(cfg, needle) && Explains(cfg, m, seen)
    ensures m.hit.None? <==> NoLineShows(cfg, needle, seen)
    ensures m.hit.Some? ==>
              && FirstLineShowing(cfg, needle, seen, m.hit.value.number)
              && m.hit.value.line == Split(seen)[m.hit.value.number]
  {
    EmptyLineShowsNothing(cfg, needle);
    PlainFirstHit(cfg, needle, seen);
  }

  /** A beginning of a line, stripped, is a beginning of the stripped line. Removing carriage returns and bytes that
      are no UTF-8 by themselves does that; removing an escape sequence that is cut in two need not. */
  ghost predicate StripsByParts(strip: Str -> Str, text: Str) {
    forall k, n :: 0 <= k < |Split(text)| && 0 <= n <= |Split(text)[k]| ==>
      strip(Split(text)[k][..n]) <= strip(Split(text)[k])
  }

  /** What is left without certain bytes. */
  function Dropping(drop: byte -> bool, s: Str): Str {
    if s == [] then [] else Dropping(drop, Init(s)) + (if drop(Last(s)) then [] else [Last(s)])
  }

  /** So any text strips by parts if stripping takes out single bytes, as of text with carriage returns and nothing
      else. */
  lemma DroppingBytesStripsByParts(strip: Str -> Str, drop: byte -> bool, text: Str)
    requires forall k, n :: 0 <= k < |Split(text)| && 0 <= n <= |Split(text)[k]| ==>
               strip(Split(text)[k][..n]) == Dropping(drop, Split(text)[k][..n])
    ensures StripsByParts(strip, text)
  {
    forall k, n | 0 <= k < |Split(text)| && 0 <= n <= |Split(text)[k]|
      ensures strip(Split(text)[k][..n]) <= strip(Split(text)[k])
    {
      var line := Split(text)[k];
      assert line[..|line|] == line;
      DroppingGrows(drop, line, n);
    }
  }

  lemma {:induction false} DroppingGrows(drop: byte -> bool, s: Str, n: nat)
    requires n <= |s|
    ensures Dropping(drop, s[..n]) <= Dropping(drop, s)
  {
    if n < |s| {
      assert Init(s)[..n] == s[..n];
      DroppingGrows(drop, Init(s), n);
    } else {
      assert s[..n] == s;
    }
  }

  /** Output that arrives after the match can only lengthen the matched line, which stays the first with the needle. */
  lemma MatchSurvives(cfg: Config, seen: Str, later: Str, needle: Str, i: nat)
    requires FirstLineShowing(cfg, needle, seen, i) && StripsByParts(cfg.strip, seen + later)
    ensures FirstLineShowing(cfg, needle, seen + later, i)
    ensures Split(seen)[i] <= Split(seen + later)[i] && cfg.strip(Split(seen)[i]) <= cfg.strip(Split(seen + later)[i])
  {
    LinesOnlyGrow(seen, later, i);
    var line, longer := Split(seen)[i], Split(seen + later)[i];
    assert line == longer[..|line|];
    ContainsGrows(cfg.strip(line), cfg.strip(longer), needle);
    forall j | 0 <= j < i
      ensures !Shows(cfg, needle, Split(seen + later)[j])
    {
      LinesOnlyGrow(seen, later, j);
    }
  }

  /** Complete lines are final; the last line can only grow. */
  lemma LinesOnlyGrow(a: Str, b: Str, i: nat)
    requires i < |Split(a)|
    ensures i < |Split(a + b)| && Split(a)[i] <= Split(a + b)[i]
    ensures i < |Split(a)| - 1 ==> Split(a)[i] == Split(a + b)[i]
  {
    var carried := Last(Split(a));
    SplitConcat(a, b);
    SplitHasNoNewline(a);
    SplitNoNewline(carried);
    FirstLineGrows(carried, b);
    var before, after := Complete(a), Split(carried + b);
    assert Split(a + b) == before + after;
    assert i == |before| ==> (before + after)[i] == after[0];
  }

  lemma {:induction false} FirstLineGrows(a: Str, b: Str)
    ensures Split(a)[0] <= Split(a + b)[0]
  {
    if b == [] {
      assert a + b == a;
    } else {
      FirstLineGrows(a, Init(b));
      assert Init(a + b) == a + Init(b);
    }
  }
}
