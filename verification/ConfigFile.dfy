/** The config file: readKV (internal/config/config.go) and the audit-url switch toggleAuditURL (main.go). */
module ConfigFile {
  import opened Bytes

  // ---- Lines, as bufio.ScanLines delivers them ----

  /** Drops one trailing carriage return. */
  function DropCR(line: string): (r: string) {
    if line != "" && line[|line| - 1] == '\r' then line[..|line| - 1] else line
  }

  function NewlineAt(data: string): (i: nat)
    ensures i <= |data|
    ensures '\n' !in data[..i]
    ensures i < |data| ==> data[i] == '\n'
  {
    if data == "" || data[0] == '\n' then 0 else 1 + NewlineAt(data[1..])
  }

  /** The scanned lines: no newlines, each without one trailing carriage return; an empty rest gives no line. */
  function ScanLines(data: string): seq<string> {
    if data == "" then []
    else
      var i := NewlineAt(data);
      [DropCR(data[..i])] + (if i < |data| then ScanLines(data[i + 1..]) else [])
  }

  /** What Fprintln writes for the lines. */
  function Unlines(lines: seq<string>): string {
    if lines == [] then "" else lines[0] + "\n" + Unlines(lines[1..])
  }

  predicate NoNewlines(lines: seq<string>) {
    forall i :: 0 <= i < |lines| ==> '\n' !in lines[i]
  }

  lemma FirstLineAdded(first: string, rest: seq<string>)
    requires '\n' !in first && NoNewlines(rest)
    ensures NoNewlines([first] + rest)
  {}

  lemma {:induction false} ScannedHaveNoNewlines(data: string)
    ensures NoNewlines(ScanLines(data))
  {
    if data != "" {
      var i := NewlineAt(data);
      var first := DropCR(data[..i]);
      assert '\n' !in first;
      if i < |data| {
        ScannedHaveNoNewlines(data[i + 1..]);
        FirstLineAdded(first, ScanLines(data[i + 1..]));
      }
    }
  }

  function DropCRs(lines: seq<string>): (r: seq<string>)
    ensures |r| == |lines|
    ensures forall i :: 0 <= i < |lines| ==> r[i] == DropCR(lines[i])
  {
    if lines == [] then [] else [DropCR(lines[0])] + DropCRs(lines[1..])
  }

  lemma NewlineIsFirst(data: string, i: nat)
    requires i < |data| && data[i] == '\n' && '\n' !in data[..i]
    ensures NewlineAt(data) == i
  {
    if i > 0 {
      assert data[0] == data[..i][0];
      assert data[1..][..i - 1] == data[..i][1..];
      NewlineIsFirst(data[1..], i - 1);
    }
  }

  /** Scanning what was written gives the lines back, but for a carriage return at their end. */
  lemma {:induction false} ScanUnlines(lines: seq<string>)
    requires NoNewlines(lines)
    ensures ScanLines(Unlines(lines)) == DropCRs(lines)
  {
    if lines != [] {
      var data := Unlines(lines);
      var first, rest := lines[0], Unlines(lines[1..]);
      assert data[..|first|] == first && data[|first|] == '\n' && data[|first| + 1..] == rest;
      NewlineIsFirst(data, |first|);
      ScanUnlines(lines[1..]);
    }
  }

  // ---- readKV ----

  /** unicode.IsSpace */
  predicate IsSpace(c: char) {
    || '\t' <= c <= '\r' || c == ' ' || c == '\U{0085}' || c == '\U{00A0}' || c == '\U{1680}'
    || '\U{2000}' <= c <= '\U{200A}' || c == '\U{2028}' || c == '\U{2029}' || c == '\U{202F}'
    || c == '\U{205F}' || c == '\U{3000}'
  }

  function TrimLeft(s: string): string {
    if s != "" && IsSpace(s[0]) then TrimLeft(s[1..]) else s
  }

  function TrimRight(s: string): string {
    if s != "" && IsSpace(s[|s| - 1]) then TrimRight(s[..|s| - 1]) else s
  }

  function TrimSpace(s: string): string {
    TrimRight(TrimLeft(s))
  }

  function EqualsAt(s: string): (i: nat)
    ensures i <= |s|
    ensures '=' !in s[..i]
    ensures i < |s| ==> s[i] == '='
  {
    if s == "" || s[0] == '=' then 0 else 1 + EqualsAt(s[1..])
  }

  datatype Parsed = Skipped | Pair(key: string, value: string) | Malformed(text: string)

  function ParseLine(line: string): Parsed {
    var text := TrimSpace(line);
    if text == "" || text[0] == '#' then Skipped
    else
      var i := EqualsAt(text);
      if i == |text| then Malformed(text) else Pair(TrimSpace(text[..i]), TrimSpace(text[i + 1..]))
  }

  predicate Spaces(s: string) {
    forall i :: 0 <= i < |s| ==> IsSpace(s[i])
  }

  /** `t` is `s` without the spaces around it. */
  ghost predicate IsTrimmed(s: string, t: string) {
    && (t != "" ==> !IsSpace(t[0]) && !IsSpace(t[|t| - 1]))
    && exists a: nat, b: nat :: a <= b <= |s| && t == s[a..b] && Spaces(s[..a]) && Spaces(s[b..])
  }

  lemma {:induction false} TrimLeftIs(s: string) returns (a: nat)
    ensures a <= |s| && TrimLeft(s) == s[a..] && Spaces(s[..a])
    ensures TrimLeft(s) != "" ==> !IsSpace(TrimLeft(s)[0])
  {
    a := 0;
    if s != "" && IsSpace(s[0]) {
      var rest := TrimLeftIs(s[1..]);
      a := rest + 1;
      assert s[1..][rest..] == s[a..];
      assert forall i :: 0 < i < a ==> s[i] == s[1..][..rest][i - 1];
    }
  }

  lemma {:induction false} TrimRightIs(s: string) returns (b: nat)
    ensures b <= |s| && TrimRight(s) == s[..b] && Spaces(s[b..])
    ensures TrimRight(s) != "" ==> !IsSpace(TrimRight(s)[|TrimRight(s)| - 1])
  {
    b := |s|;
    if s != "" && IsSpace(s[|s| - 1]) {
      var before := s[..|s| - 1];
      b := TrimRightIs(before);
      assert forall i :: b <= i < |s| - 1 ==> s[i] == before[b..][i - b];
    }
  }

  lemma SlicesOfSuffix(s: string, a: nat, b: nat)
    requires a + b <= |s|
    ensures s[a..][..b] == s[a..a + b] && s[a..][b..] == s[a + b..]
  {}

  lemma TrimSpaceIs(s: string)
    ensures IsTrimmed(s, TrimSpace(s))
  {
    var a := TrimLeftIs(s);
    var left := s[a..];
    var b := TrimRightIs(left);
    SlicesOfSuffix(s, a, b);
    assert left == TrimLeft(s) && TrimSpace(s) == s[a..a + b];
    assert TrimSpace(s) != "" ==> TrimSpace(s)[0] == left[0];
  }

  /** What a line means: nothing if it is blank or starts with a hash sign; else the text before its first equals sign
      and the text after it, the spaces around each left out; without an equals sign it is malformed. */
  lemma ParseMeans(line: string) returns (text: string)
    ensures IsTrimmed(line, text)
    ensures ParseLine(line).Skipped? <==> text == "" || text[0] == '#'
    ensures ParseLine(line).Malformed? <==> text != "" && text[0] != '#' && '=' !in text
    ensures match ParseLine(line)
            case Skipped => true
            case Malformed(t) => t == text
            case Pair(key, value) => IsPair(text, key, value)
  {
    text := TrimSpace(line);
    TrimSpaceIs(line);
    var i := EqualsAt(text);
    if i < |text| {
      PairIs(text, i);
    } else {
      assert text[..i] == text;
    }
  }

  lemma PairIs(text: string, i: nat)
    requires i < |text| && text[i] == '=' && '=' !in text[..i]
    ensures IsPair(text, TrimSpace(text[..i]), TrimSpace(text[i + 1..]))
  {
    TrimSpaceIs(text[..i]);
    TrimSpaceIs(text[i + 1..]);
  }

  ghost predicate IsPair(text: string, key: string, value: string) {
    exists i: nat :: i < |text| && text[i] == '=' && '=' !in text[..i]
                     && IsTrimmed(text[..i], key) && IsTrimmed(text[i + 1..], value)
  }

  datatype KV = Ok(kv: map<string, string>) | Err(line: nat, text: string)

  /** Later lines win; the first malformed line ends the reading with its number. */
  function ReadKV(lines: seq<string>): KV {
    if lines == [] then Ok(map[]) else Read(ReadKV(lines[..|lines| - 1]), lines[|lines| - 1], |lines|)
  }

  /** What line number `n` adds. */
  function Read(kv: KV, line: string, n: nat): KV {
    match kv
    case Err(_, _) => kv
    case Ok(kv) =>
      match ParseLine(line)
      case Skipped => Ok(kv)
      case Pair(key, value) => Ok(kv[key := value])
      case Malformed(text) => Err(n, text)
  }

  lemma ReadKVNext(lines: seq<string>, n: nat)
    requires n < |lines|
    ensures ReadKV(lines[..n + 1]) == Read(ReadKV(lines[..n]), lines[n], n + 1)
  {
    assert lines[..n + 1][..n] == lines[..n];
  }

  method ReadKVFile(data: string) returns (r: KV)
    ensures r == ReadKV(ScanLines(data))
  {
    var kv := map[];
    var lines := ScanLines(data);
    for line := 0 to |lines|
      invariant ReadKV(lines[..line]) == Ok(kv)
    {
      ReadKVNext(lines, line);
      var text := TrimSpace(lines[line]);
      if text == "" || text[0] == '#' {
        continue;
      }
      var i := EqualsAt(text);
      if i == |text| {
        ErrStays(lines, line + 1);
        return Err(line + 1, text);
      }
      kv := kv[TrimSpace(text[..i]) := TrimSpace(text[i + 1..])];
    }
    assert lines[..|lines|] == lines;
    r := Ok(kv);
  }

  lemma {:induction false} ErrStays(lines: seq<string>, n: nat)
    requires n <= |lines| && ReadKV(lines[..n]).Err?
    ensures ReadKV(lines) == ReadKV(lines[..n])
  {
    if n < |lines| {
      var m := |lines| - 1;
      assert lines[..m][..n] == lines[..n];
      ErrStays(lines[..m], n);
    } else {
      assert lines[..n] == lines;
    }
  }

  predicate HasKey(line: string, key: string) {
    ParseLine(line).Pair? && ParseLine(line).key == key
  }

  /** The value on the last line with the key. */
  function LastValue(lines: seq<string>, key: string): Option<string> {
    if lines == [] then None
    else if HasKey(lines[|lines| - 1], key) then Some(ParseLine(lines[|lines| - 1]).value)
    else LastValue(lines[..|lines| - 1], key)
  }

  /** The map read holds exactly the keys of the lines, and for each the value of its last line. */
  lemma {:induction false} ReadsTheLastValue(lines: seq<string>, key: string)
    requires ReadKV(lines).Ok?
    ensures LastValue(lines, key) == if key in ReadKV(lines).kv then Some(ReadKV(lines).kv[key]) else None
  {
    if lines != [] {
      ReadsTheLastValue(lines[..|lines| - 1], key);
    }
  }

  predicate SomeHasKey(lines: seq<string>, key: string) {
    exists i :: 0 <= i < |lines| && HasKey(lines[i], key)
  }

  lemma SomeHasKeySnoc(lines: seq<string>, key: string)
    requires lines != []
    ensures SomeHasKey(lines, key) <==> HasKey(lines[|lines| - 1], key) || SomeHasKey(lines[..|lines| - 1], key)
  {
    var before := lines[..|lines| - 1];
    if i :| 0 <= i < |before| && HasKey(before[i], key) {
      assert lines[i] == before[i];
    }
    if i :| 0 <= i < |lines| && HasKey(lines[i], key) {
      assert i < |before| ==> before[i] == lines[i];
    }
  }

  lemma {:induction false} LastValueExists(lines: seq<string>, key: string)
    ensures LastValue(lines, key).Some? <==> SomeHasKey(lines, key)
  {
    if lines != [] {
      var n := |lines| - 1;
      LastValueExists(lines[..n], key);
      SomeHasKeySnoc(lines, key);
    }
  }
}
