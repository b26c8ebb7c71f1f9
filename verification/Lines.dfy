/** Splitting output into lines, as waitForPattern in internal/mcp/tools.go does with strings.Split. */
module Lines {
  import opened Bytes

  function Init<T>(s: seq<T>): seq<T>
    requires s != []
  {
    s[..|s| - 1]
  }

  function Last<T>(s: seq<T>): T
    requires s != []
  {
    s[|s| - 1]
  }

  predicate NoNewline(s: Str) {
    NL !in s
  }

  /** `strings.Split(s, "\n")`: never empty; the last element is the text after the last newline. */
  function Split(s: Str): (ls: seq<Str>)
    ensures ls != []
  {
    if s == [] then [[]] else Extend(Split(Init(s)), Last(s))
  }

  /** The lines after one more byte. */
  function Extend(ls: seq<Str>, c: byte): (r: seq<Str>)
    requires ls != []
    ensures r != []
  {
    if c == NL then ls + [[]] else Init(ls) + [Last(ls) + [c]]
  }

  lemma ExtendPrefix(x: seq<Str>, ls: seq<Str>, c: byte)
    requires ls != []
    ensures Extend(x + ls, c) == x + Extend(ls, c)
  {}

  lemma {:induction false} SplitHasNoNewline(s: Str)
    ensures forall i :: 0 <= i < |Split(s)| ==> NoNewline(Split(s)[i])
  {
    if s != [] {
      SplitHasNoNewline(Init(s));
    }
  }

  /** `strings.Join(ls, "\n")` */
  function Join(ls: seq<Str>): Str {
    if ls == [] then [] else if |ls| == 1 then ls[0] else Join(Init(ls)) + [NL] + Last(ls)
  }

  /** Splitting loses nothing. With SplitHasNoNewline this fixes it: newline-free pieces whose join is the text. */
  lemma {:induction false} JoinSplit(s: Str)
    ensures Join(Split(s)) == s
  {
    if s != [] {
      JoinSplit(Init(s));
      var ls := Split(Init(s));
      assert s == Init(s) + [Last(s)];
      if Last(s) == NL {
        assert Init(ls + [[]]) == ls;
      } else {
        JoinLastGrows(ls, Last(s));
      }
    }
  }

  lemma JoinLastGrows(ls: seq<Str>, c: byte)
    requires ls != []
    ensures Join(Init(ls) + [Last(ls) + [c]]) == Join(ls) + [c]
  {
    var grown := Init(ls) + [Last(ls) + [c]];
    assert Init(grown) == Init(ls);
  }

  lemma SplitNoNewline(s: Str)
    requires NoNewline(s)
    ensures Split(s) == [s]
  {
    if s != [] {
      SplitNoNewline(Init(s));
      assert s == Init(s) + [Last(s)];
    }
  }

  /** Text that arrives later only touches the last line: reassembling it with the carried remainder is exact. */
  lemma {:induction false} SplitConcat(a: Str, b: Str)
    ensures Split(a + b) == Init(Split(a)) + Split(Last(Split(a)) + b)
  {
    var carried := Last(Split(a));
    if b == [] {
      assert a + b == a && carried + b == carried;
      SplitHasNoNewline(a);
      SplitNoNewline(carried);
    } else {
      SplitConcat(a, Init(b));
      assert Init(a + b) == a + Init(b) && Init(carried + b) == carried + Init(b);
      ExtendPrefix(Init(Split(a)), Split(carried + Init(b)), Last(b));
    }
  }

  /** The last element is empty exactly when the text is empty or ends with a newline. */
  lemma SplitLast(s: Str)
    ensures Last(Split(s)) == [] <==> (s == [] || Last(s) == NL)
  {}

  function EndsWithNewline(s: Str): bool {
    s != [] && Last(s) == NL
  }

  /** The lines the matcher tests for a piece of text: when it ends with a newline the trailing empty entry stays. */
  function Tested(text: Str): seq<Str> {
    var ls := Split(text);
    if EndsWithNewline(text) then ls else Init(ls)
  }

  /** What it carries over to the next piece. */
  function Carried(text: Str): Str {
    if EndsWithNewline(text) then [] else Last(Split(text))
  }

  lemma CarriedIsLast(text: Str)
    ensures Carried(text) == Last(Split(text))
  {
    SplitLast(text);
  }

  function NonEmpty(ls: seq<Str>): seq<Str> {
    if ls == [] then [] else NonEmpty(Init(ls)) + (if Last(ls) == [] then [] else [Last(ls)])
  }

  lemma {:induction false} NonEmptyConcat(a: seq<Str>, b: seq<Str>)
    ensures NonEmpty(a + b) == NonEmpty(a) + NonEmpty(b)
  {
    if b == [] {
      assert a + b == a;
    } else {
      NonEmptyConcat(a, Init(b));
      assert Init(a + b) == a + Init(b);
    }
  }

  /** The complete lines of a text, those a newline ends. */
  function Complete(text: Str): seq<Str> {
    Init(Split(text))
  }

  lemma TestedNonEmpty(text: Str)
    ensures NonEmpty(Tested(text)) == NonEmpty(Complete(text))
  {
    if EndsWithNewline(text) {
      SplitLast(text);
      assert Init(Tested(text)) == Complete(text);
    }
  }
}
