/** How the way output is cut into reads matters to the line matcher of waitForPattern (internal/mcp/tools.go). */
module Cuts {
  import opened Bytes
  import opened Lines
  import opened Matching

  /** Some line of the text hits. */
  predicate AnyLineHits(cfg: Config, text: Str) {
    text != [] && FirstHit(cfg, Split(text)) < |Split(text)|
  }

  /** The first one. */
  function HitLine(cfg: Config, text: Str): Str {
    if AnyLineHits(cfg, text) then Split(text)[FirstHit(cfg, Split(text))] else []
  }

  /** The text read by the end of the first chunk after which some line hits. */
  function MatchedText(cfg: Config, chunks: seq<Str>): Option<Str> {
    if chunks == [] then None
    else if MatchedText(cfg, Init(chunks)).Some? then MatchedText(cfg, Init(chunks))
    else if AnyLineHits(cfg, Concat(chunks)) then Some(Concat(chunks))
    else None
  }

  /** For every pattern and every cutting: something matches exactly when at the end of some chunk some line of the
      text read so far hits, and what is reported is the first such line of that text, by its number and as it stood
      then. */
  lemma {:induction false} FoldReportsExactly(cfg: Config, chunks: seq<Str>)
    ensures var hit, matched := Fold(cfg, chunks).hit, MatchedText(cfg, chunks);
            && (hit.Some? <==> matched.Some?)
            && (hit.Some? ==>
                  && AnyLineHits(cfg, matched.value)
                  && hit.value.line == HitLine(cfg, matched.value)
                  && hit.value.number == FirstHit(cfg, Split(matched.value)))
  {
    if chunks != [] {
      FoldReportsExactly(cfg, Init(chunks));
      if Fold(cfg, Init(chunks)).hit.None? {
        ChunkIndependence(cfg, chunks);
      }
    }
  }

  /** The matched text is the shortest beginning that ends with a chunk and has a line that hits. */
  lemma {:induction false} MatchedTextIsTheFirst(cfg: Config, chunks: seq<Str>, n: nat)
    requires n <= |chunks|
    ensures var matched := MatchedText(cfg, chunks);
            && (matched.None? ==> !AnyLineHits(cfg, Concat(chunks[..n])))
            && (matched.Some? ==> AnyLineHits(cfg, matched.value) && matched.value <= Concat(chunks))
            && (matched.Some? && AnyLineHits(cfg, Concat(chunks[..n])) ==> matched.value <= Concat(chunks[..n]))
  {
    if chunks == [] {
    } else if n == |chunks| {
      assert chunks[..n] == chunks;
      MatchedTextIsTheFirst(cfg, Init(chunks), |chunks| - 1);
      assert Concat(Init(chunks)) <= Concat(chunks);
    } else {
      assert chunks[..n] == Init(chunks)[..n];
      MatchedTextIsTheFirst(cfg, Init(chunks), n);
    }
  }

  // ---- When the cuts do not matter ----

  /** What is reported of the text a cutting matches, in the terms of `report`. */
  function Reported<X>(cfg: Config, chunks: seq<Str>, report: Str -> X): Option<X> {
    match MatchedText(cfg, chunks)
    case None => None
    case Some(t) => Some(report(t))
  }

  ghost predicate SameForAllCuts<X(!new)>(cfg: Config, text: Str, report: Str -> X) {
    forall chunks: seq<Str> :: Concat(chunks) == text ==> Reported(cfg, chunks, report) == Reported(cfg, [text], report)
  }

  /** Every beginning of the text with a line that hits gives the same report as the text itself. */
  ghost predicate BeginningsAgree<X(!new)>(cfg: Config, text: Str, report: Str -> X) {
    forall n: nat :: n <= |text| && AnyLineHits(cfg, text[..n]) ==>
      AnyLineHits(cfg, text) && report(text[..n]) == report(text)
  }

  lemma OneChunk(cfg: Config, text: Str)
    ensures Concat([text]) == text
    ensures MatchedText(cfg, [text]) == if AnyLineHits(cfg, text) then Some(text) else None
  {
    assert Init([text]) == [];
    assert Concat([text]) == [] + text == text;
  }

  lemma TwoChunks(cfg: Config, a: Str, b: Str)
    requires AnyLineHits(cfg, a)
    ensures Concat([a, b]) == a + b && MatchedText(cfg, [a, b]) == Some(a)
  {
    assert Init([a, b]) == [a];
    OneChunk(cfg, a);
  }

  lemma CuttingAgrees<X(!new)>(cfg: Config, chunks: seq<Str>, report: Str -> X)
    requires BeginningsAgree(cfg, Concat(chunks), report)
    ensures Reported(cfg, chunks, report) == Reported(cfg, [Concat(chunks)], report)
  {
    var text := Concat(chunks);
    OneChunk(cfg, text);
    MatchedTextIsTheFirst(cfg, chunks, |chunks|);
    assert chunks[..|chunks|] == chunks;
    if MatchedText(cfg, chunks).Some? {
      var t := MatchedText(cfg, chunks).value;
      assert t == text[..|t|];
    }
  }

  lemma BeginningMatters<X(!new)>(cfg: Config, text: Str, report: Str -> X, n: nat)
    requires n <= |text| && AnyLineHits(cfg, text[..n])
    requires AnyLineHits(cfg, text) ==> report(text[..n]) != report(text)
    ensures !SameForAllCuts(cfg, text, report)
  {
    var a, b := text[..n], text[n..];
    assert a + b == text;
    OneChunk(cfg, text);
    TwoChunks(cfg, a, b);
    assert Reported(cfg, [a, b], report) != Reported(cfg, [text], report);
  }

  lemma CutsAgreeExactlyWhen<X(!new)>(cfg: Config, text: Str, report: Str -> X)
    ensures SameForAllCuts(cfg, text, report) <==> BeginningsAgree(cfg, text, report)
  {
    if BeginningsAgree(cfg, text, report) {
      forall chunks: seq<Str> | Concat(chunks) == text
        ensures Reported(cfg, chunks, report) == Reported(cfg, [text], report)
      {
        CuttingAgrees(cfg, chunks, report);
      }
    } else {
      var n: nat :| n <= |text| && AnyLineHits(cfg, text[..n])
          && !(AnyLineHits(cfg, text) && report(text[..n]) == report(text));
      BeginningMatters(cfg, text, report, n);
    }
  }

  /** Whether the matcher reports something. */
  function Matched(hit: Option<Hit>): Option<bool> {
    if hit.None? then None else Some(true)
  }

  /** The line it reports, as it stood then. */
  function Line(hit: Option<Hit>): Option<Str> {
    if hit.None? then None else Some(hit.value.line)
  }

  /** The same of what a cutting leaves the matcher with. */
  ghost predicate FoldsAlike<X(!new)>(cfg: Config, text: Str, shown: Option<Hit> -> Option<X>) {
    forall chunks: seq<Str> :: Concat(chunks) == text ==> shown(Fold(cfg, chunks).hit) == shown(Fold(cfg, [text]).hit)
  }

  lemma FoldsAreReported<X(!new)>(cfg: Config, text: Str, shown: Option<Hit> -> Option<X>, report: Str -> X)
    requires forall chunks: seq<Str> :: shown(Fold(cfg, chunks).hit) == Reported(cfg, chunks, report)
    ensures FoldsAlike(cfg, text, shown) <==> BeginningsAgree(cfg, text, report)
  {
    CutsAgreeExactlyWhen(cfg, text, report);
    if FoldsAlike(cfg, text, shown) {
      forall chunks: seq<Str> | Concat(chunks) == text
        ensures Reported(cfg, chunks, report) == Reported(cfg, [text], report)
      {
        assert shown(Fold(cfg, chunks).hit) == Reported(cfg, chunks, report);
      }
    }
    if SameForAllCuts(cfg, text, report) {
      forall chunks: seq<Str> | Concat(chunks) == text
        ensures shown(Fold(cfg, chunks).hit) == shown(Fold(cfg, [text]).hit)
      {
        assert shown(Fold(cfg, chunks).hit) == Reported(cfg, chunks, report);
      }
    }
  }

  /** Whether a text brings a match does not depend on how it is cut, exactly when the text itself has a line that hits
      or no beginning of it has one. */
  lemma MatchingIsTheSameForAllCutsExactlyWhen(cfg: Config, text: Str)
    ensures FoldsAlike(cfg, text, Matched)
       <==> (AnyLineHits(cfg, text) || forall n: nat :: n <= |text| ==> !AnyLineHits(cfg, text[..n]))
  {
    var report := (t: Str) => true;
    forall chunks: seq<Str>
      ensures Matched(Fold(cfg, chunks).hit) == Reported(cfg, chunks, report)
    {
      FoldReportsExactly(cfg, chunks);
    }
    FoldsAreReported(cfg, text, Matched, report);
  }

  /** Nor does the text of the reported line, exactly when every beginning with a line that hits has the same first
      such line as the whole text, letter by letter. */
  lemma ReportedLineIsTheSameForAllCutsExactlyWhen(cfg: Config, text: Str)
    ensures FoldsAlike(cfg, text, Line) <==> BeginningsAgree(cfg, text, t => HitLine(cfg, t))
  {
    forall chunks: seq<Str>
      ensures Line(Fold(cfg, chunks).hit) == Reported(cfg, chunks, t => HitLine(cfg, t))
    {
      FoldReportsExactly(cfg, chunks);
    }
    FoldsAreReported(cfg, text, Line, t => HitLine(cfg, t));
  }

  /** The number of the line it reports, in all text consumed. */
  function Number(hit: Option<Hit>): Option<nat> {
    if hit.None? then None else Some(hit.value.number)
  }

  /** Nor does the number of the reported line, exactly when every beginning with a line that hits has the text's own
      as its first. */
  lemma ReportedNumberIsTheSameForAllCutsExactlyWhen(cfg: Config, text: Str)
    ensures FoldsAlike(cfg, text, Number) <==> BeginningsAgree(cfg, text, t => FirstHit(cfg, Split(t)))
  {
    forall chunks: seq<Str>
      ensures Number(Fold(cfg, chunks).hit) == Reported(cfg, chunks, t => FirstHit(cfg, Split(t)))
    {
      FoldReportsExactly(cfg, chunks);
    }
    FoldsAreReported(cfg, text, Number, t => FirstHit(cfg, Split(t)));
  }

  // ---- Plain-text mode ----

  /** For every cutting of a text whose lines strip by parts: a match is the first line that shows the needle, as far
      as it had been read, and no match means no line does. */
  lemma PlainFold(cfg: Config, needle: Str, chunks: seq<Str>)
    requires PlainSearch(cfg, needle) && StripsByParts(cfg.strip, Concat(chunks))
    ensures var m, text := Fold(cfg, chunks), Concat(chunks);
            && (m.hit.None? <==> NoLineShows(cfg, needle, text))
            && (m.hit.Some? ==>
                  && FirstLineShowing(cfg, needle, text, m.hit.value.number)
                  && m.hit.value.line <= Split(text)[m.hit.value.number]
                  && cfg.strip(m.hit.value.line) <= cfg.strip(Split(text)[m.hit.value.number]))
  {
    var text := Concat(chunks);
    FoldReportsExactly(cfg, chunks);
    MatchedTextIsTheFirst(cfg, chunks, |chunks|);
    assert chunks[..|chunks|] == chunks;
    PlainFirstHit(cfg, needle, text);
    if Fold(cfg, chunks).hit.None? {
      EmptyTextShowsNothing(cfg, needle);
    } else {
      var seen := MatchedText(cfg, chunks).value;
      PlainFirstHit(cfg, needle, seen);
      assert seen + text[|seen|..] == text;
      MatchSurvives(cfg, seen, text[|seen|..], needle, FirstHit(cfg, Split(seen)));
    }
  }

  lemma EmptyTextShowsNothing(cfg: Config, needle: Str)
    requires PlainSearch(cfg, needle)
    ensures FirstHit(cfg, Split([])) == |Split([])|
  {
    EmptyLineShowsNothing(cfg, needle);
  }

  /** So the number of the reported line does not depend on the cuts of such a text. */
  lemma PlainNumberIsTheSameForAllCuts(cfg: Config, needle: Str, text: Str)
    requires PlainSearch(cfg, needle) && StripsByParts(cfg.strip, text)
    ensures FoldsAlike(cfg, text, Number)
  {
    OneChunk(cfg, text);
    PlainFold(cfg, needle, [text]);
    forall chunks: seq<Str> | Concat(chunks) == text
      ensures Number(Fold(cfg, chunks).hit) == Number(Fold(cfg, [text]).hit)
    {
      PlainFold(cfg, needle, chunks);
      PlainFirstHit(cfg, needle, text);
    }
  }

  const ESC: byte := 27
  const BRACKET: byte := 91
  const QUESTION: byte := 63

  /** Without that it can depend on them even in plain-text mode: the sequence that shows the cursor, read in two
      pieces, leaves a question mark of its beginning, which matches; read whole, nothing of it is left. */
  lemma EscapeSequenceDependsOnCuts(cfg: Config)
    requires PlainSearch(cfg, [QUESTION])
    requires cfg.strip([ESC, BRACKET, QUESTION]) == [QUESTION] && cfg.strip([ESC, BRACKET, QUESTION, 50, 53, 104]) == []
    ensures var a, b := [ESC, BRACKET, QUESTION], [50, 53, 104];
            && Concat([a, b]) == Concat([a + b]) == a + b
            && Fold(cfg, [a, b]).hit.Some? && Fold(cfg, [a + b]).hit.None?
  {
    var a: Str, b: Str := [ESC, BRACKET, QUESTION], [50, 53, 104];
    assert a + b == [ESC, BRACKET, QUESTION, 50, 53, 104];
    SplitNoNewline(a);
    SplitNoNewline(a + b);
    assert [QUESTION] <= [QUESTION][0..];
    EmptyLineShowsNothing(cfg, [QUESTION]);
    FirstHitIs(cfg, [a], 0);
    FirstHitIs(cfg, [a + b], 1);
    TwoChunks(cfg, a, b);
    OneChunk(cfg, a + b);
    FoldReportsExactly(cfg, [a, b]);
    FoldReportsExactly(cfg, [a + b]);
  }

  /** A pattern that matches the empty line is the plainest case: after a chunk that ends with a newline it fires, and
      on the same text cut elsewhere it does not. */
  lemma EmptyLinePatternDependsOnCuts(cfg: Config, a: byte, b: byte)
    requires a != NL && b != NL && cfg.Hits([]) && !cfg.Hits([a]) && !cfg.Hits([b])
    ensures Concat([[a, NL], [b]]) == Concat([[a, NL, b]]) == [a, NL, b]
    ensures Fold(cfg, [[a, NL], [b]]).hit.Some? && Fold(cfg, [[a, NL, b]]).hit.None?
  {
    PairHits(cfg, a, b);
    TwoChunks(cfg, [a, NL], [b]);
    OneChunk(cfg, [a, NL, b]);
    FoldReportsExactly(cfg, [[a, NL], [b]]);
    FoldReportsExactly(cfg, [[a, NL, b]]);
  }

  lemma PairHits(cfg: Config, a: byte, b: byte)
    requires a != NL && b != NL && cfg.Hits([]) && !cfg.Hits([a]) && !cfg.Hits([b])
    ensures AnyLineHits(cfg, [a, NL]) && !AnyLineHits(cfg, [a, NL, b])
  {
    SplitPair([a], b);
    assert [a] + [NL] == [a, NL] && [a] + [NL, b] == [a, NL, b];
    FirstHitIs(cfg, [[a], []], 1);
    FirstHitIs(cfg, [[a], [b]], 2);
  }

  /** And of a text that matches under every cutting, two may report different lines: here `a` is reported if it is
      read before the rest of its line, and otherwise `c`. */
  lemma ReportedLineDependsOnCuts(cfg: Config, a: byte, b: byte, c: byte)
    requires a != NL && b != NL && c != NL && cfg.Hits([a]) && !cfg.Hits([a, b]) && cfg.Hits([c])
    ensures Concat([[a], [b, NL, c]]) == Concat([[a, b, NL, c]]) == [a, b, NL, c]
    ensures Line(Fold(cfg, [[a], [b, NL, c]]).hit) == Some([a]) && Line(Fold(cfg, [[a, b, NL, c]]).hit) == Some([c])
  {
    SplitNoNewline([a]);
    SplitPair([a, b], c);
    FirstHitIs(cfg, [[a]], 0);
    FirstHitIs(cfg, [[a, b], [c]], 1);
    assert [a, b] + [NL, c] == [a, b, NL, c];
    TwoChunks(cfg, [a], [b, NL, c]);
    OneChunk(cfg, [a, b, NL, c]);
    FoldReportsExactly(cfg, [[a], [b, NL, c]]);
    FoldReportsExactly(cfg, [[a, b, NL, c]]);
  }

  lemma SplitPair(line: Str, b: byte)
    requires NoNewline(line) && b != NL
    ensures Split(line + [NL]) == [line, []] && Split(line + [NL, b]) == [line, [b]]
  {
    SplitNoNewline(line);
    SplitConcat(line, [NL]);
    assert Init(line + [NL]) == line && Init(line + [NL, b]) == line + [NL];
    assert Init([line, []]) == [line] && Last([line, []]) == [] && [] + [b] == [b];
    assert Split(line + [NL, b]) == Extend([line, []], b) == [line] + [[b]];
  }
}
