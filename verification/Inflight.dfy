/** inflightRegistry of internal/mcp/server.go: the in-flight requests by raw JSON id. */
module Inflight {

  type Key = string

  /** The registry as a value; E stands for the identity of an entry. */
  datatype Registry<E(==)> = Registry(entries: map<Key, seq<E>>, cancelled: set<E>) {
    function At(key: Key): seq<E> {
      if key in entries then entries[key] else []
    }

    function Add(key: Key, e: E): Registry<E> {
      this.(entries := entries[key := At(key) + [e]])
    }

    function Cancel(key: Key): Registry<E> {
      this.(cancelled := cancelled + set e | e in At(key))
    }

    function Finish(key: Key, e: E): Registry<E> {
      var rest := Without(At(key), e);
      this.(entries := if rest == [] then entries - {key} else entries[key := rest])
    }
  }

  /** The list without the first occurrence of `e`. */
  function Without<E(==)>(es: seq<E>, e: E): seq<E> {
    if es == [] then [] else if es[0] == e then es[1..] else [es[0]] + Without(es[1..], e)
  }

  predicate NoDuplicates<E(==)>(es: seq<E>) {
    forall i, j :: 0 <= i < j < |es| ==> es[i] != es[j]
  }

  lemma {:induction false} WithoutSplits<E>(es: seq<E>, e: E, i: nat)
    requires i < |es| && es[i] == e && e !in es[..i]
    ensures Without(es, e) == es[..i] + es[i + 1..]
  {
    if i > 0 {
      assert es[0] == es[..i][0];
      assert es[1..][..i - 1] == es[..i][1..];
      WithoutSplits(es[1..], e, i - 1);
    }
  }

  lemma {:induction false} WithoutMissing<E>(es: seq<E>, e: E)
    requires e !in es
    ensures Without(es, e) == es
  {
    if es != [] {
      WithoutMissing(es[1..], e);
    }
  }

  /** In a list without duplicates exactly `e` goes. */
  lemma {:induction false} WithoutRemoves<E>(es: seq<E>, e: E)
    requires NoDuplicates(es)
    ensures NoDuplicates(Without(es, e))
    ensures forall x :: x in Without(es, e) <==> x in es && x != e
  {
    if e in es {
      var i :| 0 <= i < |es| && es[i] == e;
      assert e !in es[..i];
      WithoutSplits(es, e, i);
      var rest := es[..i] + es[i + 1..];
      forall x | x in es && x != e
        ensures x in rest
      {
        var j :| 0 <= j < |es| && es[j] == x;
        assert rest[if j < i then j else j - 1] == x;
      }
    } else {
      WithoutMissing(es, e);
    }
  }

  // ---- The code ----

  class Entry {
    var cancelled: bool
    var ctxDone: bool

    constructor ()
      ensures !cancelled && !ctxDone
    {
      cancelled, ctxDone := false, false;
    }
  }

  class InflightRegistry {
    var entries: map<Key, seq<Entry>>
    ghost var all: set<Entry>  // every entry ever added

    ghost predicate Valid()
      reads this
    {
      forall key, e :: key in entries && e in entries[key] ==> e in all
    }

    ghost function Value(): Registry<Entry>
      reads this, all
    {
      Registry(entries, set e | e in all && e.cancelled)
    }

    constructor ()
      ensures Valid() && all == {} && Value() == Registry(map[], {})
    {
      entries, all := map[], {};
    }

    method Add(key: Key) returns (e: Entry)
      requires Valid()
      modifies this
      ensures Valid() && fresh(e) && all == old(all) + {e}
      ensures !e.ctxDone && Value() == old(Value()).Add(key, e)
    {
      e := new Entry();
      entries := entries[key := (if key in entries then entries[key] else []) + [e]];
      all := all + {e};
    }

    /** Marks every entry of the key and cancels its context; all others keep theirs. */
    method Cancel(key: Key)
      requires Valid()
      modifies all
      ensures Valid() && Value() == old(Value()).Cancel(key)
      ensures forall e :: e in all ==> e.ctxDone == (old(e.ctxDone) || e in Value().At(key))
    {
      var es := if key in entries then entries[key] else [];
      for i := 0 to |es|
        invariant forall e :: e in all ==> e.cancelled == (old(e.cancelled) || e in es[..i])
        invariant forall e :: e in all ==> e.ctxDone == (old(e.ctxDone) || e in es[..i])
      {
        es[i].cancelled := true;
        es[i].ctxDone := true;
      }
      assert es[..|es|] == es;
    }

    method Finish(key: Key, e: Entry) returns (wasCancelled: bool)
      requires Valid() && e in all
      modifies this
      ensures Valid() && all == old(all)
      ensures Value() == old(Value()).Finish(key, e)
      ensures wasCancelled == (e in old(Value()).cancelled)
    {
      var es := if key in entries then entries[key] else [];
      var i := 0;
      while i < |es| && es[i] != e
        invariant 0 <= i <= |es| && e !in es[..i]
      {
        i := i + 1;
      }
      if i < |es| {
        WithoutSplits(es, e, i);
        es := es[..i] + es[i + 1..];
      } else {
        assert es[..i] == es;
        WithoutMissing(es, e);
      }
      if |es| == 0 {
        entries := entries - {key};
      } else {
        entries := entries[key := es];
      }
      wasCancelled := e.cancelled;
    }
  }

  // ---- Scoped keys of the HTTP transport ----

  /** http.go keys an entry by MCP session and request id, joined by a NUL byte. */
  function ScopedKey(scope: string, id: string): Key {
    scope + ['\0'] + id
  }

  /** Session ids hold no NUL, so a cancellation in one session can only reach entries of that session and that id. */
  lemma ScopedKeysAreDistinct(scope1: string, id1: string, scope2: string, id2: string)
    requires '\0' !in scope1 && '\0' !in scope2
    ensures ScopedKey(scope1, id1) == ScopedKey(scope2, id2) <==> scope1 == scope2 && id1 == id2
  {
    var k1, k2 := ScopedKey(scope1, id1), ScopedKey(scope2, id2);
    if |scope1| < |scope2| {
      NulEndsScope(scope1, id1, scope2, id2);
    } else if |scope2| < |scope1| {
      NulEndsScope(scope2, id2, scope1, id1);
    } else if k1 == k2 {
      assert scope1 == k1[..|scope1|] && id1 == k1[|scope1| + 1..];
      assert scope2 == k2[..|scope2|] && id2 == k2[|scope2| + 1..];
    }
  }

  lemma NulEndsScope(shorter: string, id1: string, longer: string, id2: string)
    requires '\0' !in longer && |shorter| < |longer|
    ensures ScopedKey(shorter, id1) != ScopedKey(longer, id2)
  {
    assert ScopedKey(shorter, id1)[|shorter|] == '\0';
    assert ScopedKey(longer, id2)[|shorter|] == longer[|shorter|] && longer[|shorter|] in longer;
  }
}
