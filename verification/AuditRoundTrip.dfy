/** What readKV (internal/config/config.go) makes of a config file after the audit-url line was switched off and on
    again (toggleAuditURL, main.go): exactly when it reads the same. */
module AuditRoundTrip {
  import opened Bytes
  import opened ConfigFile
  import opened AuditToggle

  const KEY := "audit-url"

  // ---- Two files that differ in lines of one key only ----

  /** Both skip the line, or read a value for `key` from it. */
  predicate SkipsOrSets(p: Parsed, key: string) {
    p.Skipped? || (p.Pair? && p.key == key)
  }

  ghost predicate DifferInKey(a: seq<string>, b: seq<string>, key: string) {
    && |a| == |b|
    && forall m :: 0 <= m < |a| ==>
         ParseLine(a[m]) == ParseLine(b[m]) || (SkipsOrSets(ParseLine(a[m]), key) && SkipsOrSets(ParseLine(b[m]), key))
  }

  lemma {:induction false} SameErrors(a: seq<string>, b: seq<string>, key: string)
    requires DifferInKey(a, b, key)
    ensures ReadKV(a).Err? || ReadKV(b).Err? ==> ReadKV(a) == ReadKV(b)
  {
    if a != [] {
      var n := |a| - 1;
      SameErrors(a[..n], b[..n], key);
      assert ParseLine(a[n]) == ParseLine(b[n])
             || (SkipsOrSets(ParseLine(a[n]), key) && SkipsOrSets(ParseLine(b[n]), key));
    }
  }

  lemma {:induction false} OtherKeysAgree(a: seq<string>, b: seq<string>, key: string, other: string)
    requires DifferInKey(a, b, key) && other != key
    ensures LastValue(a, other) == LastValue(b, other)
  {
    if a != [] {
      var n := |a| - 1;
      OtherKeysAgree(a[..n], b[..n], key, other);
      assert ParseLine(a[n]) == ParseLine(b[n])
             || (SkipsOrSets(ParseLine(a[n]), key) && SkipsOrSets(ParseLine(b[n]), key));
    }
  }

  lemma SameMap(a: seq<string>, b: seq<string>, key: string)
    requires DifferInKey(a, b, key) && ReadKV(a).Ok? && ReadKV(b).Ok? && LastValue(a, key) == LastValue(b, key)
    ensures ReadKV(a) == ReadKV(b)
  {
    var m, n := ReadKV(a).kv, ReadKV(b).kv;
    forall k
      ensures k in m <==> k in n
      ensures k in m ==> m[k] == n[k]
    {
      ReadsTheLastValue(a, k);
      ReadsTheLastValue(b, k);
      if k != key {
        OtherKeysAgree(a, b, key, k);
      }
    }
    assert m == n;
  }

  /** Such files read the same exactly when they hold a malformed line or agree on the last value of the key. */
  lemma ReadAlikeExactlyWhen(a: seq<string>, b: seq<string>, key: string)
    requires DifferInKey(a, b, key)
    ensures ReadKV(a) == ReadKV(b) <==> ReadKV(b).Err? || LastValue(a, key) == LastValue(b, key)
  {
    SameErrors(a, b, key);
    if ReadKV(b).Ok? {
      if LastValue(a, key) == LastValue(b, key) {
        SameMap(a, b, key);
      } else {
        ReadsTheLastValue(a, key);
        ReadsTheLastValue(b, key);
      }
    }
  }

  /** The last value, looked for from line `k` in three parts. */
  lemma {:induction false} LastValueAround(lines: seq<string>, k: nat, key: string)
    requires k < |lines|
    ensures LastValue(lines, key)
         == if LastValue(lines[k + 1..], key).Some? then LastValue(lines[k + 1..], key)
            else if HasKey(lines[k], key) then Some(ParseLine(lines[k]).value)
            else LastValue(lines[..k], key)
  {
    var n := |lines| - 1;
    if k == n {
      assert lines[k + 1..] == [];
    } else {
      LastValueAround(lines[..n], k, key);
      assert lines[..n][..k] == lines[..k];
      assert lines[..n][k + 1..] == lines[k + 1..][..|lines[k + 1..]| - 1];
      assert lines[k + 1..][|lines[k + 1..]| - 1] == lines[n];
    }
  }

  // ---- The switched lines ----

  lemma {:induction false} TrimRightKeeps(s: string, n: nat)
    requires 0 < n <= |s| && !IsSpace(s[n - 1])
    ensures n <= |TrimRight(s)| && TrimRight(s) <= s
  {
    if IsSpace(s[|s| - 1]) {
      TrimRightKeeps(s[..|s| - 1], n);
    }
  }

  lemma EqualsIsFirst(s: string, n: nat)
    requires n < |s| && s[n] == '=' && '=' !in s[..n]
    ensures EqualsAt(s) == n
  {
    if n > 0 {
      assert s[0] == s[..n][0];
      assert s[1..][..n - 1] == s[..n][1..];
      EqualsIsFirst(s[1..], n - 1);
    }
  }

  /** An active line is read as the key audit-url. */
  lemma ActiveHasKey(line: string)
    requires IsActive(line)
    ensures HasKey(line, KEY)
  {
    assert line[0] == ACTIVE[0] == 'a' && line[9] == ACTIVE[9] == '=';
    assert TrimLeft(line) == line;
    TrimRightKeeps(line, 10);
    var text := TrimRight(line);
    assert text[..9] == line[..9] == ACTIVE[..9] == KEY;
    assert text[9] == '=' && text[0] == 'a';
    EqualsIsFirst(text, 9);
    KeyIsTrimmed();
  }

  lemma KeyIsTrimmed()
    ensures TrimSpace(KEY) == KEY
  {
    assert !IsSpace(KEY[0]) && !IsSpace(KEY[|KEY| - 1]);
  }

  lemma UncommentedIsActive(line: string)
    requires IsCommented(line)
    ensures IsActive(Uncomment(line))
    ensures Uncomment(DropCR(line)) == DropCR(Uncomment(line))
  {
    if COMMENTED <= line {
      TightOrNot(line, 2);
    } else {
      TightOrNot(line, 1);
    }
  }

  lemma TightOrNot(line: string, n: nat)
    requires (n == 2 && COMMENTED <= line) || (n == 1 && COMMENTED_TIGHT <= line)
    ensures Uncomment(line) == line[n..] && IsActive(line[n..])
    ensures DropCR(line)[n..] == DropCR(line[n..]) && Uncomment(DropCR(line)) == DropCR(line)[n..]
  {
    var prefix := if n == 2 then COMMENTED else COMMENTED_TIGHT;
    assert prefix[n..] == ACTIVE;
    assert line[..|prefix|] == prefix && line[n..][..|ACTIVE|] == ACTIVE;
    assert line[n] == 'a' && line[0] == '#';
    assert |line| > n && (n == 2 ==> line[1] == ' ');
    var short := DropCR(line);
    assert |short| >= |prefix| && short[n] == 'a' && short[0] == '#' && (n == 2 ==> short[1] == ' ');
    UncommentBy(line, n);
    UncommentBy(short, n);
  }

  lemma UncommentBy(line: string, n: nat)
    requires 1 <= n <= 2 && n < |line| && line[0] == '#' && line[n] == 'a' && (n == 2 ==> line[1] == ' ')
    ensures Uncomment(line) == line[n..]
  {
    if n == 2 {
      assert line[..2] == "# ";
      assert !("#" <= line[2..]);
    } else {
      assert !("# " <= line);
    }
  }

  lemma CommentedLineIsSkipped(line: string)
    requires line != "" && line[0] == '#'
    ensures ParseLine(line) == Skipped
  {
    TrimRightKeepsFirst(line);
  }

  lemma CommentedStartsSo(line: string)
    requires IsCommented(line)
    ensures line != "" && line[0] == '#'
  {
    assert COMMENTED[0] == '#' && COMMENTED_TIGHT[0] == '#';
  }

  /** The file as it would be if only the two lines were switched: a commented line `j` comes before the first active
      line `i`, if there is one. */
  function Switched(lines: seq<string>, i: nat, j: nat): (r: seq<string>)
    requires j < i <= |lines|
    ensures |r| == |lines|
  {
    var enabled := lines[j := Uncomment(lines[j])];
    if i < |lines| then enabled[i := Comment(lines[i])] else enabled
  }

  /** How line `m` of the file parses after both calls. */
  lemma SwitchedParses(data: string, m: nat)
    requires var lines := ScanLines(data); m < |lines| && FirstFor(lines, true) < FirstFor(lines, false)
    ensures var lines := ScanLines(data);
            var after := ScanLines(Toggle(Toggle(data, false), true));
            && |after| == |lines|
            && ParseLine(after[m]) == ParseLine(Switched(lines, FirstFor(lines, false), FirstFor(lines, true))[m])
  {
    var lines := ScanLines(data);
    var i, j := FirstFor(lines, false), FirstFor(lines, true);
    ScannedHaveNoNewlines(data);
    UncommentedIsActive(lines[j]);
    if i < |lines| {
      TwiceToggled(data);
      TwiceIsClean(lines);
      ScanUnlines(Twice(lines));
      TwiceParses(lines, i, j, m);
    } else {
      UncommentAddsNothing(lines[j]);
      ToggleAt(data, lines, true, j);
      ScanUnlines(Switched(lines, i, j));
      DropCRParses(Switched(lines, i, j)[m]);
    }
  }

  lemma TwiceParses(lines: seq<string>, i: nat, j: nat, m: nat)
    requires j < i < |lines| && m < |lines| && Uncomment(DropCR(lines[j])) == DropCR(Uncomment(lines[j]))
    ensures ParseLine(DropCRs(TwiceAt(lines, i, j))[m]) == ParseLine(Switched(lines, i, j)[m])
  {
    var line := lines[m];
    var after := TwiceAt(lines, i, j)[m];
    assert DropCRs(TwiceAt(lines, i, j))[m] == DropCR(after);
    SwitchedLine(lines, i, j, m);
    if m == j {
      UncommentedParses(line, after);
    } else {
      LineParses(line);
    }
  }

  lemma SwitchedLine(lines: seq<string>, i: nat, j: nat, m: nat)
    requires j < i < |lines| && m < |lines|
    ensures Switched(lines, i, j)[m]
         == if m == j then Uncomment(lines[m]) else if m == i then Comment(lines[m]) else lines[m]
  {}

  lemma UncommentedParses(line: string, after: string)
    requires after == DropCR(Uncomment(line))
    ensures ParseLine(DropCR(after)) == ParseLine(Uncomment(line))
  {
    DropCRParses(Uncomment(line));
    DropCRParses(after);
  }

  lemma LineParses(line: string)
    ensures ParseLine(DropCR(Comment(DropCR(line)))) == ParseLine(Comment(line))
    ensures ParseLine(DropCR(DropCR(line))) == ParseLine(line)
  {
    DropCRParses(line);
    DropCRParses(DropCR(line));
    DropCRParses(Comment(DropCR(line)));
    CommentedIsSkipped(DropCR(line));
    CommentedIsSkipped(line);
  }

  lemma SwitchedDiffers(lines: seq<string>, i: nat, j: nat)
    requires j < i <= |lines| && IsCommented(lines[j]) && (i < |lines| ==> IsActive(lines[i]))
    ensures DifferInKey(Switched(lines, i, j), lines, KEY)
    ensures ParseLine(lines[j]) == Skipped && HasKey(Switched(lines, i, j)[j], KEY)
    ensures i < |lines| ==> HasKey(lines[i], KEY) && ParseLine(Switched(lines, i, j)[i]) == Skipped
  {
    CommentedStartsSo(lines[j]);
    CommentedLineIsSkipped(lines[j]);
    UncommentedIsActive(lines[j]);
    ActiveHasKey(Uncomment(lines[j]));
    if i < |lines| {
      ActiveHasKey(lines[i]);
      CommentedIsSkipped(lines[i]);
    }
  }

  // ---- The exact condition ----

  /** The value the enabled line `j` gives. */
  function EnabledValue(lines: seq<string>, j: nat): string
    requires j < |lines| && ParseLine(Uncomment(lines[j])).Pair?
  {
    ParseLine(Uncomment(lines[j])).value
  }

  /** Enabling line `j` and disabling line `i` leaves the value of the key as it was: a later line sets it, or line `i`
      had the value that stands before it once line `j` is enabled; without an active line, that line `j` gives the
      value that stood before it. */
  predicate SameValue(lines: seq<string>, i: nat, j: nat)
    requires j < i <= |lines| && ParseLine(Uncomment(lines[j])).Pair? && (i < |lines| ==> ParseLine(lines[i]).Pair?)
  {
    if i < |lines| then
      || LastValue(lines[i + 1..], KEY).Some?
      || ParseLine(lines[i]).value
         == (var between := LastValue(lines[j + 1..i], KEY);
             if between.Some? then between.value else EnabledValue(lines, j))
    else
      || LastValue(lines[j + 1..], KEY).Some?
      || LastValue(lines[..j], KEY) == Some(EnabledValue(lines, j))
  }

  lemma SwitchedValue(lines: seq<string>, i: nat, j: nat)
    requires j < i <= |lines| && IsCommented(lines[j]) && (i < |lines| ==> IsActive(lines[i]))
    ensures ParseLine(Uncomment(lines[j])).Pair? && (i < |lines| ==> ParseLine(lines[i]).Pair?)
    ensures LastValue(Switched(lines, i, j), KEY) == LastValue(lines, KEY) <==> SameValue(lines, i, j)
  {
    var switched := Switched(lines, i, j);
    SwitchedDiffers(lines, i, j);
    assert switched[j] == Uncomment(lines[j]);
    if i < |lines| {
      LastValueAround(switched, i, KEY);
      LastValueAround(lines, i, KEY);
      assert switched[i + 1..] == lines[i + 1..];
      LastValueAround(switched[..i], j, KEY);
      assert switched[..i][j + 1..] == lines[j + 1..i];
    } else {
      LastValueAround(switched, j, KEY);
      LastValueAround(lines, j, KEY);
      assert switched[j + 1..] == lines[j + 1..];
    }
  }

  /** For every file, readKV reads the same after disabling and enabling exactly when it held a malformed line, no
      commented line came before the first active one, or the value of the key is left as it was. */
  lemma RoundTripKeepsTheMapExactlyWhen(data: string)
    ensures var lines := ScanLines(data);
            var i, j := FirstFor(lines, false), FirstFor(lines, true);
            && (j < i ==> ParseLine(Uncomment(lines[j])).Pair? && (i < |lines| ==> ParseLine(lines[i]).Pair?))
            && (ReadKV(ScanLines(Toggle(Toggle(data, false), true))) == ReadKV(lines)
                <==> ReadKV(lines).Err? || i <= j || SameValue(lines, i, j))
  {
    var lines := ScanLines(data);
    var i, j := FirstFor(lines, false), FirstFor(lines, true);
    if i <= j {
      RoundTripKeepsTheMap(data);
    } else {
      SwitchedReads(data);
      SwitchedDiffers(lines, i, j);
      SwitchedValue(lines, i, j);
      ReadAlikeExactlyWhen(Switched(lines, i, j), lines, KEY);
    }
  }

  lemma SwitchedReads(data: string)
    requires FirstFor(ScanLines(data), true) < FirstFor(ScanLines(data), false)
    ensures var lines := ScanLines(data);
            ReadKV(ScanLines(Toggle(Toggle(data, false), true)))
            == ReadKV(Switched(lines, FirstFor(lines, false), FirstFor(lines, true)))
  {
    var lines := ScanLines(data);
    forall m: nat | m < |lines|
      ensures var after := ScanLines(Toggle(Toggle(data, false), true));
              && |after| == |lines|
              && ParseLine(after[m]) == ParseLine(Switched(lines, FirstFor(lines, false), FirstFor(lines, true))[m])
    {
      SwitchedParses(data, m);
    }
    SwitchedParses(data, FirstFor(lines, true));
    SameParse(ScanLines(Toggle(Toggle(data, false), true)),
              Switched(lines, FirstFor(lines, false), FirstFor(lines, true)));
  }

  // ---- Files that come back changed ----

  /** A commented line before the active one: the round trip leaves the other address in force. A second carriage
      return: it is gone. */
  lemma SomeFilesComeBackChanged()
    ensures var data := Unlines(["# audit-url=a", "audit-url=b"]);
            ScanLines(Toggle(Toggle(data, false), true)) != ScanLines(data)
    ensures var data := Unlines(["audit-url=b\r\r"]);
            ScanLines(Toggle(Toggle(data, false), true)) != ScanLines(data)
  {
    CommentedFirst();
    SecondCarriageReturn();
  }

  lemma CommentedFirst()
    ensures var data := Unlines(["# audit-url=a", "audit-url=b"]);
            ScanLines(Toggle(Toggle(data, false), true)) != ScanLines(data)
  {
    var lines := ["# audit-url=a", "audit-url=b"];
    assert COMMENTED <= lines[0] && ACTIVE <= lines[1];
    assert lines[0][0] == '#' && lines[1][0] == 'a';
    ScanUnlines(lines);
    assert DropCRs(lines) == lines;
    RoundTripRestoresLines(Unlines(lines));
    FirstForIs(lines, true, 0);
    assert FirstFor(lines, false) >= 0;
  }

  lemma SecondCarriageReturn()
    ensures var data := Unlines(["audit-url=b\r\r"]);
            ScanLines(Toggle(Toggle(data, false), true)) != ScanLines(data)
  {
    var lines := ["audit-url=b\r"];
    assert ACTIVE <= lines[0];
    ScanUnlines(["audit-url=b\r\r"]);
    assert "audit-url=b\r\r"[..12] == "audit-url=b\r";
    assert DropCRs(["audit-url=b\r\r"]) == lines;
    assert lines[0][|lines[0]| - 1] == '\r' && DropCR(lines[0]) != lines[0];
    RoundTripRestoresLines(Unlines(["audit-url=b\r\r"]));
    FirstForIs(lines, false, 0);
  }
}
