/** toggleAuditURL (main.go): commenting the audit-url line of the config file out and in again. */
module AuditToggle {
  import opened ConfigFile

  const ACTIVE := "audit-url="
  const COMMENTED := "# audit-url="
  const COMMENTED_TIGHT := "#audit-url="

  predicate IsActive(line: string) {
    ACTIVE <= line
  }

  predicate IsCommented(line: string) {
    COMMENTED <= line || COMMENTED_TIGHT <= line
  }

  function TrimPrefix(s: string, prefix: string): string {
    if prefix <= s then s[|prefix|..] else s
  }

  function Uncomment(line: string): string {
    TrimPrefix(TrimPrefix(line, "# "), "#")
  }

  function Comment(line: string): string {
    "# " + line
  }

  predicate Applies(line: string, enable: bool) {
    if enable then IsCommented(line) else IsActive(line)
  }

  function Switch(line: string, enable: bool): string {
    if enable then Uncomment(line) else Comment(line)
  }

  /** The first line the switch applies to, or the number of lines. */
  function FirstFor(lines: seq<string>, enable: bool): (k: nat)
    ensures k <= |lines|
    ensures forall i :: 0 <= i < k ==> !Applies(lines[i], enable)
    ensures k < |lines| ==> Applies(lines[k], enable)
  {
    if lines == [] || Applies(lines[0], enable) then 0 else 1 + FirstFor(lines[1..], enable)
  }

  function ToggleLines(lines: seq<string>, enable: bool): seq<string> {
    var k := FirstFor(lines, enable);
    if k < |lines| then lines[k := Switch(lines[k], enable)] else lines
  }

  /** The file after the call: rewritten line by line when a line was switched, untouched otherwise. */
  function Toggle(data: string, enable: bool): string {
    var lines := ScanLines(data);
    if FirstFor(lines, enable) < |lines| then Unlines(ToggleLines(lines, enable)) else data
  }

  lemma {:induction false} UnlinesConcat(a: seq<string>, b: seq<string>)
    ensures Unlines(a + b) == Unlines(a) + Unlines(b)
  {
    if a == [] {
      assert a + b == b;
    } else {
      UnlinesConcat(a[1..], b);
      assert (a + b)[1..] == a[1..] + b;
      assert Unlines(a + b) == a[0] + "\n" + (Unlines(a[1..]) + Unlines(b));
    }
  }

  lemma UnlinesNext(lines: seq<string>, i: nat)
    requires i < |lines|
    ensures Unlines(lines[..i + 1]) == Unlines(lines[..i]) + lines[i] + "\n"
  {
    assert lines[..i + 1] == lines[..i] + [lines[i]];
    UnlinesConcat(lines[..i], [lines[i]]);
    assert Unlines([lines[i]]) == lines[i] + "\n" + "";
  }

  lemma FirstForIs(lines: seq<string>, enable: bool, k: nat)
    requires k <= |lines| && (k < |lines| ==> Applies(lines[k], enable))
    requires forall i :: 0 <= i < k ==> !Applies(lines[i], enable)
    ensures FirstFor(lines, enable) == k
  {}

  /** `needle` occurs in `text`, as strings.Contains decides it. */
  predicate Occurs(text: string, needle: string) {
    needle <= text || (text != "" && Occurs(text[1..], needle))
  }

  predicate NamesPlaceholder(line: string) {
    Occurs(line, "your-collector")
  }

  /** The loop body for a line as long as nothing has changed. */
  method SwitchLine(original: string, enable: bool) returns (line: string, changed: bool, placeholder: bool)
    ensures changed <==> Applies(original, enable)
    ensures line == if changed then Switch(original, enable) else original
    ensures placeholder <==> enable && changed && NamesPlaceholder(line)
  {
    line, changed, placeholder := original, false, false;
    if enable && IsCommented(line) {
      line := Uncomment(line);
      placeholder := NamesPlaceholder(line);
      changed := true;
    } else if !enable && IsActive(line) {
      line := Comment(line);
      changed := true;
    }
  }

  /** `target` is the list with line `k`, the first the switch applies to, switched. */
  ghost predicate SwitchesAt(lines: seq<string>, enable: bool, k: nat, target: seq<string>) {
    && k <= |lines| == |target|
    && (forall i :: 0 <= i < k ==> !Applies(lines[i], enable))
    && (k < |lines| ==> Applies(lines[k], enable))
    && forall i :: 0 <= i < |lines| ==> target[i] == if i == k then Switch(lines[i], enable) else lines[i]
  }

  lemma ToggleSwitches(lines: seq<string>, enable: bool)
    ensures SwitchesAt(lines, enable, FirstFor(lines, enable), ToggleLines(lines, enable))
  {
    assert |ToggleLines(lines, enable)| == |lines|;
  }

  /** The loop over the lines. */
  method RewriteLines(lines: seq<string>, enable: bool, ghost k: nat, ghost target: seq<string>)
    returns (out: string, changed: bool, placeholder: bool)
    requires SwitchesAt(lines, enable, k, target)
    ensures out == Unlines(target)
    ensures changed <==> k < |lines|
    ensures placeholder <==> enable && changed && NamesPlaceholder(target[k])
  {
    out, changed, placeholder := "", false, false;
    for i := 0 to |lines|
      invariant changed <==> k < i
      invariant placeholder <==> enable && changed && NamesPlaceholder(target[k])
      invariant out == Unlines(target[..i])
    {
      var line := lines[i];
      UnlinesNext(target, i);
      if !changed {
        line, changed, placeholder := SwitchLine(line, enable);
      }
      out := out + line + "\n";
    }
    assert target[..|lines|] == target;
  }

  /** The call: the new file contents, whether anything changed, and whether the enabled line still names the
      placeholder. */
  method ToggleAuditURL(data: string, enable: bool) returns (file: string, changed: bool, placeholder: bool)
    ensures file == Toggle(data, enable)
    ensures changed <==> FirstFor(ScanLines(data), enable) < |ScanLines(data)|
    ensures placeholder <==>
              enable && changed && NamesPlaceholder(Uncomment(ScanLines(data)[FirstFor(ScanLines(data), enable)]))
  {
    var lines := ScanLines(data);
    ToggleSwitches(lines, enable);
    var out;
    out, changed, placeholder := RewriteLines(lines, enable, FirstFor(lines, enable), ToggleLines(lines, enable));
    file := if changed then out else data;
  }

  // ---- Disable, then enable ----

  lemma CommentIsCommented(line: string)
    ensures IsActive(line) ==> IsCommented(Comment(line)) && Uncomment(Comment(line)) == line
  {
    if IsActive(line) {
      var c := Comment(line);
      assert c[2..] == line && c[..2] == "# ";
      assert line[0] == ACTIVE[0] && !("#" <= line);
      forall j | 0 <= j < |COMMENTED|
        ensures c[j] == COMMENTED[j]
      {
        assert j >= 2 ==> c[j] == line[j - 2] && COMMENTED[j] == ACTIVE[j - 2];
      }
    }
  }

  lemma DropCRKeepsCommented(line: string)
    ensures IsCommented(DropCR(line)) == IsCommented(line)
  {
    var r := DropCR(line);
    assert COMMENTED <= line ==> COMMENTED <= r;
    assert COMMENTED_TIGHT <= line ==> COMMENTED_TIGHT <= r;
  }

  lemma DropCRComment(line: string)
    requires line != ""
    ensures DropCR(Comment(line)) == Comment(DropCR(line))
    ensures IsActive(line) ==> IsActive(DropCR(line))
  {}

  lemma DropCRsUpdate(lines: seq<string>, i: nat, line: string)
    requires i < |lines|
    ensures DropCRs(lines[i := line]) == DropCRs(lines)[i := DropCR(line)]
  {}

  /** The lines the second call starts from. */
  lemma DisabledLines(data: string)
    requires FirstFor(ScanLines(data), false) < |ScanLines(data)|
    ensures var lines := ScanLines(data);
            var i := FirstFor(lines, false);
            && ScanLines(Toggle(data, false)) == DropCRs(lines)[i := Comment(DropCR(lines[i]))]
            && IsActive(DropCR(lines[i]))
  {
    var lines := ScanLines(data);
    var i := FirstFor(lines, false);
    ScannedHaveNoNewlines(data);
    assert '\n' !in "# ";
    ScanUnlines(lines[i := Comment(lines[i])]);
    DropCRComment(lines[i]);
    DropCRsUpdate(lines, i, Comment(lines[i]));
  }

  /** The lines both calls leave in the file, given where the first active line and the first commented one are. */
  function TwiceAt(lines: seq<string>, i: nat, j: nat): (r: seq<string>)
    requires i < |lines| && j <= |lines| && i != j
    ensures |r| == |lines|
    ensures forall m :: 0 <= m < |lines| ==>
              r[m] == if j < i && m == j then Uncomment(DropCR(lines[m]))
                      else if j < i && m == i then Comment(DropCR(lines[m]))
                      else DropCR(lines[m])
  {
    if i < j then DropCRs(lines)
    else DropCRs(lines)[i := Comment(DropCR(lines[i]))][j := Uncomment(DropCR(lines[j]))]
  }

  lemma DifferentLines(lines: seq<string>)
    ensures FirstFor(lines, false) < |lines| ==> FirstFor(lines, false) != FirstFor(lines, true)
  {
    if FirstFor(lines, false) < |lines| {
      ActiveIsNotCommented(lines[FirstFor(lines, false)]);
    }
  }

  function Twice(lines: seq<string>): (r: seq<string>)
    requires FirstFor(lines, false) < |lines|
    ensures |r| == |lines|
  {
    DifferentLines(lines);
    TwiceAt(lines, FirstFor(lines, false), FirstFor(lines, true))
  }

  /** The second call finds the line the first one commented out, unless another commented line comes earlier. */
  lemma EnableFinds(lines: seq<string>)
    requires FirstFor(lines, false) < |lines|
    ensures var i, j := FirstFor(lines, false), FirstFor(lines, true);
            && i != j
            && IsActive(DropCR(lines[i]))
            && FirstFor(DropCRs(lines)[i := Comment(DropCR(lines[i]))], true) == if i < j then i else j
  {
    var i, j := FirstFor(lines, false), FirstFor(lines, true);
    ActiveIsNotCommented(lines[i]);
    DropCRComment(lines[i]);
    CommentIsCommented(DropCR(lines[i]));
    var disabled := DropCRs(lines)[i := Comment(DropCR(lines[i]))];
    var k := if i < j then i else j;
    forall m | 0 <= m <= k && m != i
      ensures IsCommented(disabled[m]) == IsCommented(lines[m])
    {
      DropCRKeepsCommented(lines[m]);
    }
    FirstForIs(disabled, true, k);
  }

  lemma ToggleAt(data: string, lines: seq<string>, enable: bool, k: nat)
    requires ScanLines(data) == lines && FirstFor(lines, enable) == k < |lines|
    ensures Toggle(data, enable) == Unlines(lines[k := Switch(lines[k], enable)])
  {}

  lemma UpdateBack(s: seq<string>, i: nat, x: string)
    requires i < |s|
    ensures s[i := x][i := s[i]] == s
  {}

  lemma TwiceToggled(data: string)
    requires FirstFor(ScanLines(data), false) < |ScanLines(data)|
    ensures Toggle(Toggle(data, false), true) == Unlines(Twice(ScanLines(data)))
  {
    var lines := ScanLines(data);
    var i, j := FirstFor(lines, false), FirstFor(lines, true);
    var line := DropCR(lines[i]);
    var disabled := DropCRs(lines)[i := Comment(line)];
    DisabledLines(data);
    EnableFinds(lines);
    ToggleAt(Toggle(data, false), disabled, true, if i < j then i else j);
    CommentIsCommented(line);
    SwitchedBack(lines, i, j, Comment(line));
  }

  /** What the second switch leaves of the disabled lines. */
  lemma SwitchedBack(lines: seq<string>, i: nat, j: nat, commented: string)
    requires i < |lines| && j <= |lines| && i != j
    requires commented == Comment(DropCR(lines[i])) && Uncomment(commented) == DropCR(lines[i])
    ensures var disabled := DropCRs(lines)[i := commented];
            var k := if i < j then i else j;
            disabled[k := Uncomment(disabled[k])] == TwiceAt(lines, i, j)
  {
    var clean := DropCRs(lines);
    if i < j {
      UpdateBack(clean, i, commented);
    } else {
      assert clean[i := commented][j] == clean[j];
    }
  }

  lemma ActiveIsNotCommented(line: string)
    requires IsActive(line)
    ensures !IsCommented(line)
  {
    assert line[0] == ACTIVE[0];
  }

  /** No scanned line ends in a further carriage return. */
  predicate NoTrailingCR(lines: seq<string>) {
    forall i :: 0 <= i < |lines| ==> DropCR(lines[i]) == lines[i]
  }

  /** For every file: disabling and then enabling gives back its lines exactly when the first active line comes before
      every commented one and no line ends in a second carriage return, or there is no audit-url line of either
      kind. */
  lemma RoundTripRestoresLines(data: string)
    ensures var lines := ScanLines(data);
            var i, j := FirstFor(lines, false), FirstFor(lines, true);
            ScanLines(Toggle(Toggle(data, false), true)) == lines
            <==> (i < j && NoTrailingCR(lines)) || i == j == |lines|
  {
    var lines := ScanLines(data);
    if FirstFor(lines, false) < |lines| {
      TwiceToggled(data);
      ScannedHaveNoNewlines(data);
      TwiceIsClean(lines);
      ScanUnlines(Twice(lines));
      TwiceRestores(lines);
    } else if FirstFor(lines, true) < |lines| {
      EnableAlone(data);
    }
  }

  lemma TwiceRestores(lines: seq<string>)
    requires FirstFor(lines, false) < |lines|
    ensures DropCRs(Twice(lines)) == lines <==> FirstFor(lines, false) < FirstFor(lines, true) && NoTrailingCR(lines)
  {
    var i, j := FirstFor(lines, false), FirstFor(lines, true);
    DifferentLines(lines);
    if j < i {
      CommentIsNotActive(DropCR(lines[i]));
      assert DropCRs(Twice(lines))[i] == DropCR(Comment(DropCR(lines[i]))) != lines[i];
    } else {
      DropCRsFixed(lines);
    }
  }

  lemma AllFixed(lines: seq<string>)
    requires NoTrailingCR(lines)
    ensures DropCRs(lines) == lines
  {
    forall i | 0 <= i < |lines|
      ensures DropCRs(lines)[i] == lines[i]
    {}
  }

  lemma DropCRShortens(line: string)
    ensures DropCR(DropCR(line)) == line <==> DropCR(line) == line
  {
    assert |DropCR(DropCR(line))| <= |DropCR(line)| <= |line|;
  }

  lemma DropCRsFixed(lines: seq<string>)
    ensures DropCRs(DropCRs(lines)) == lines <==> NoTrailingCR(lines)
  {
    if NoTrailingCR(lines) {
      AllFixed(lines);
    } else {
      var i :| 0 <= i < |lines| && DropCR(lines[i]) != lines[i];
      var twice := DropCRs(DropCRs(lines));
      assert twice[i] == DropCR(DropCR(lines[i]));
      DropCRShortens(lines[i]);
    }
  }

  lemma CommentIsNotActive(line: string)
    ensures !IsActive(DropCR(Comment(line)))
  {
    assert DropCR(Comment(line))[0] == '#' && ACTIVE[0] == 'a';
  }

  /** Enabling without a line to disable changes the first commented one. */
  lemma EnableAlone(data: string)
    requires FirstFor(ScanLines(data), false) == |ScanLines(data)|
             && FirstFor(ScanLines(data), true) < |ScanLines(data)|
    ensures ScanLines(Toggle(Toggle(data, false), true)) != ScanLines(data)
  {
    var lines := ScanLines(data);
    var j := FirstFor(lines, true);
    ScannedHaveNoNewlines(data);
    UncommentAddsNothing(lines[j]);
    UncommentIsShorter(lines[j]);
    ToggleAt(data, lines, true, j);
    ShorterLine(lines, j, Uncomment(lines[j]));
  }

  lemma ShorterLine(lines: seq<string>, j: nat, line: string)
    requires j < |lines| && |line| < |lines[j]| && '\n' !in line && NoNewlines(lines)
    ensures ScanLines(Unlines(lines[j := line])) != lines
  {
    var changed := lines[j := line];
    ScanUnlines(changed);
    var scanned := DropCRs(changed);
    assert scanned[j] == DropCR(line);
  }

  lemma UncommentIsShorter(line: string)
    requires IsCommented(line)
    ensures |Uncomment(line)| < |line|
  {
    assert "# " <= line || "#" <= line by {
      assert COMMENTED <= line ==> "# " <= COMMENTED && line[..2] == COMMENTED[..2];
      assert COMMENTED_TIGHT <= line ==> line[0] == COMMENTED_TIGHT[0];
    }
  }

  lemma TwiceIsClean(lines: seq<string>)
    requires FirstFor(lines, false) < |lines| && NoNewlines(lines)
    ensures NoNewlines(Twice(lines))
  {
    DifferentLines(lines);
    TwiceAtIsClean(lines, FirstFor(lines, false), FirstFor(lines, true));
  }

  lemma TwiceAtIsClean(lines: seq<string>, i: nat, j: nat)
    requires i < |lines| && j <= |lines| && i != j && NoNewlines(lines)
    ensures NoNewlines(TwiceAt(lines, i, j))
  {
    forall m | 0 <= m < |lines|
      ensures '\n' !in TwiceAt(lines, i, j)[m]
    {
      AddsNoNewline(lines[m]);
    }
  }

  lemma AddsNoNewline(line: string)
    requires '\n' !in line
    ensures '\n' !in DropCR(line) && '\n' !in Comment(DropCR(line)) && '\n' !in Uncomment(DropCR(line))
  {
    assert '\n' !in "# ";
    UncommentAddsNothing(DropCR(line));
  }

  lemma UncommentAddsNothing(line: string)
    ensures forall c :: c in Uncomment(line) ==> c in line
  {}

  // ---- What readKV makes of it ----

  /** A trailing carriage return means nothing to readKV. */
  lemma DropCRParses(line: string)
    ensures ParseLine(DropCR(line)) == ParseLine(line)
  {
    if DropCR(line) != line {
      TrimDropsLast(DropCR(line), '\r');
      assert line == DropCR(line) + ['\r'];
    }
  }

  lemma TrimDropsLast(s: string, c: char)
    requires IsSpace(c)
    ensures TrimSpace(s + [c]) == TrimSpace(s)
  {
    if s == "" {
      assert s + [c] == [c] && [c][1..] == "";
    } else if IsSpace(s[0]) {
      TrimDropsLast(s[1..], c);
      assert (s + [c])[1..] == s[1..] + [c];
    } else {
      assert (s + [c])[..|s|] == s;
    }
  }

  lemma {:induction false} SameParse(a: seq<string>, b: seq<string>)
    requires |a| == |b| && forall i :: 0 <= i < |a| ==> ParseLine(a[i]) == ParseLine(b[i])
    ensures ReadKV(a) == ReadKV(b)
  {
    if a != [] {
      SameParse(a[..|a| - 1], b[..|b| - 1]);
    }
  }

  lemma DropCRsReadTheSame(lines: seq<string>)
    ensures ReadKV(DropCRs(lines)) == ReadKV(lines)
  {
    forall i | 0 <= i < |lines|
      ensures ParseLine(DropCRs(lines)[i]) == ParseLine(lines[i])
    {
      DropCRParses(lines[i]);
    }
    SameParse(DropCRs(lines), lines);
  }

  lemma CleanedTwice(data: string)
    requires FirstFor(ScanLines(data), false) < |ScanLines(data)|
    requires FirstFor(ScanLines(data), false) <= FirstFor(ScanLines(data), true)
    ensures ScanLines(Toggle(Toggle(data, false), true)) == DropCRs(DropCRs(ScanLines(data)))
  {
    TwiceToggled(data);
    TwiceCleans(ScanLines(data));
    ScannedHaveNoNewlines(data);
    ScanCleaned(ScanLines(data));
  }

  lemma TwiceCleans(lines: seq<string>)
    requires FirstFor(lines, false) < |lines| && FirstFor(lines, false) <= FirstFor(lines, true)
    ensures Twice(lines) == DropCRs(lines)
  {
    DifferentLines(lines);
  }

  lemma ScanCleaned(lines: seq<string>)
    requires NoNewlines(lines)
    ensures ScanLines(Unlines(DropCRs(lines))) == DropCRs(DropCRs(lines))
  {
    ScanUnlines(DropCRs(lines));
  }

  /** After the round trip readKV reads what it read before, malformed lines included, carriage returns or not. */
  lemma RoundTripKeepsTheMap(data: string)
    requires FirstFor(ScanLines(data), false) <= FirstFor(ScanLines(data), true)
    ensures ReadKV(ScanLines(Toggle(Toggle(data, false), true))) == ReadKV(ScanLines(data))
  {
    var lines := ScanLines(data);
    if FirstFor(lines, false) < |lines| {
      CleanedTwice(data);
      DropCRsReadTheSame(lines);
      DropCRsReadTheSame(DropCRs(lines));
    }
  }

  /** The active line parses as the key audit-url; commented out it parses as nothing. */
  lemma CommentedIsSkipped(line: string)
    ensures ParseLine(Comment(line)) == Skipped
  {
    var c := Comment(line);
    assert TrimLeft(c) == c && c[0] == '#';
    TrimRightKeepsFirst(c);
  }

  lemma {:induction false} TrimRightKeepsFirst(s: string)
    requires s != "" && !IsSpace(s[0])
    ensures TrimRight(s) != "" && TrimRight(s)[0] == s[0]
  {
    if IsSpace(s[|s| - 1]) {
      TrimRightKeepsFirst(s[..|s| - 1]);
    }
  }

  /** What disabling does to the lines, as far as readKV is concerned: the line switched is skipped, the others parse
      as they did. */
  lemma DisabledParses(data: string, m: nat)
    requires m < |ScanLines(data)|
    ensures var lines, disabled := ScanLines(data), ScanLines(Toggle(data, false));
            && |disabled| == |lines|
            && ParseLine(disabled[m]) == if m == FirstFor(lines, false) then Skipped else ParseLine(lines[m])
  {
    var lines := ScanLines(data);
    var i := FirstFor(lines, false);
    if i < |lines| {
      DisabledLines(data);
      CommentedIsSkipped(DropCR(lines[i]));
      DropCRParses(lines[m]);
    }
  }

  /** The disabled file has the key audit-url exactly when some line other than the one commented out parses as it. */
  lemma DisableRemovesTheKey(data: string)
    requires ReadKV(ScanLines(Toggle(data, false))).Ok?
    ensures var lines := ScanLines(data);
            "audit-url" in ReadKV(ScanLines(Toggle(data, false))).kv
            <==> exists m :: 0 <= m < |lines| && m != FirstFor(lines, false) && HasKey(lines[m], "audit-url")
  {
    var lines, disabled := ScanLines(data), ScanLines(Toggle(data, false));
    SameLength(data);
    forall m | 0 <= m < |lines|
      ensures HasKey(disabled[m], "audit-url") <==> m != FirstFor(lines, false) && HasKey(lines[m], "audit-url")
    {
      DisabledParses(data, m);
    }
    KeyIsThere(disabled, "audit-url");
  }

  lemma SameLength(data: string)
    ensures |ScanLines(Toggle(data, false))| == |ScanLines(data)|
  {
    if ScanLines(data) != [] {
      DisabledParses(data, 0);
    } else {
      assert FirstFor(ScanLines(data), false) == 0;
    }
  }

  lemma KeyIsThere(lines: seq<string>, key: string)
    requires ReadKV(lines).Ok?
    ensures key in ReadKV(lines).kv <==> SomeHasKey(lines, key)
  {
    ReadsTheLastValue(lines, key);
    LastValueExists(lines, key);
  }
}
