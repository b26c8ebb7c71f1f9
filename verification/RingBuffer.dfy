/** The circular output buffer of internal/buffer/ring.go, proved against an unbounded byte log. */
module Ring {
  import opened Bytes
  import opened Modular

  // ---- What a reader may see, stated on the log of everything ever written ----

  /** The first log position a buffer of `size` bytes still retains. */
  function Oldest(log: Str, size: nat): nat {
    if |log| > size then |log| - size else 0
  }

  /** A cursor moved into the retained range. */
  function Clamp(log: Str, size: nat, s: int): (p: nat)
    ensures Oldest(log, size) <= p <= |log|
    ensures Oldest(log, size) <= s <= |log| ==> p == s
    ensures s > |log| ==> p == |log|
    ensures s < Oldest(log, size) ==> p == Oldest(log, size)
  {
    if s < Oldest(log, size) then Oldest(log, size) else if s > |log| then |log| else s
  }

  /** Everything retained from cursor `s` on. */
  function Since(log: Str, size: nat, s: int): Str {
    log[Clamp(log, size, s)..]
  }

  /** How many bytes a read from `s` limited to `maxBytes` returns; a limit of 0 or less is no limit. */
  function Take(log: Str, size: nat, s: int, maxBytes: int): (n: nat)
    ensures Clamp(log, size, s) + n <= |log|
  {
    var avail := |log| - Clamp(log, size, s);
    if 0 < maxBytes < avail then maxBytes else avail
  }

  /** Where a read starts and how much it brings, from the sizes alone: the cursor, or where the retained data starts,
      or the end, whichever is in between; everything from there without a limit, and otherwise the smaller of the
      two. */
  lemma ReadsMean(log: Str, size: nat, s: int, maxBytes: int)
    ensures var kept := if |log| <= size then 0 else |log| - size;
            var from := if s < kept then kept else if |log| < s then |log| else s;
            && Since(log, size, s) == log[from..]
            && Take(log, size, s, maxBytes)
               == if maxBytes <= 0 then |log| - from else if |log| - from <= maxBytes then |log| - from else maxBytes
  {}

  /** What `IsTruncated` computes. */
  predicate Truncated(log: Str, size: nat, s: int) {
    s < |log| - size
  }

  /** The mark after `AdvanceMarkBy(n)`. */
  function Advanced(log: Str, mark: int, n: int): int {
    if mark + n > |log| then |log| else mark + n
  }

  // ---- The buffer ----

  class RingBuffer {
    const buf: array<byte>
    const size: nat
    var head: nat
    var written: nat
    var markSnapshot: int
    var notify: bool       // the capacity-1 channel holds a token
    ghost var log: Str     // every byte ever written

    ghost predicate Valid()
      reads this, buf
    {
      && 0 < size == buf.Length
      && written == |log|
      && head == written % size
      && (forall i :: Oldest(log, size) <= i < |log| ==> buf[i % size] == log[i])
    }

    constructor (size: nat)
      requires 0 < size
      ensures Valid() && fresh(buf) && this.size == size
      ensures log == [] && markSnapshot == 0 && !notify
    {
      this.size := size;
      buf := new byte[size];
      head, written, markSnapshot, notify, log := 0, 0, 0, false, [];
    }

    method Write(p: Str) returns (n: nat)
      requires Valid()
      modifies this`head, this`written, this`notify, this`log, buf
      ensures Valid() && log == old(log) + p
      ensures notify && n == |p|
    {
      n := |p|;
      for i := 0 to |p|
        invariant Valid() && log == old(log) + p[..i]
      {
        Put(p[i]);
      }
      notify := true;
    }

    /** One iteration of the copy loop: the byte replaces the one written `size` bytes earlier. */
    method Put(b: byte)
      requires Valid()
      modifies this`head, this`written, this`log, buf
      ensures Valid() && log == old(log) + [b]
    {
      ghost var was := log;
      buf[head] := b;
      head := (head + 1) % size;
      written := written + 1;
      log := log + [b];
      ModAdd(|was|, 1, size);
      forall i | Oldest(log, size) <= i < |log|
        ensures buf[i % size] == log[i]
      {
        if i < |was| {
          ModDistinct(i, |was|, size);
        }
      }
    }

    method Snapshot() returns (n: nat)
      requires Valid()
      ensures n == |log|
    {
      n := written;
    }

    method IsTruncated(snapshot: int) returns (t: bool)
      requires Valid()
      ensures t == Truncated(log, size, snapshot)
    {
      var oldest := written - size;
      t := snapshot < oldest;
    }

    /** The body of the shared copy-out loop: the `i`-th byte of a read that starts `back` bytes behind the head. */
    method ByteAt(start: int, back: nat, i: nat) returns (b: byte)
      requires Valid() && i < back <= size && back <= written && start == (head - back + size * 2) % size
      ensures b == log[written - back + i]
    {
      ReadSlot(written, back, i, size);
      assert Oldest(log, size) <= written - back + i < |log|;
      b := buf[(start + i) % size];
    }

    /** The loop: `count` bytes from slot `start` on. */
    method CopyFrom(start: int, back: nat, count: nat) returns (s: Str)
      requires Valid() && count <= back <= size && back <= written && start == (head - back + size * 2) % size
      ensures s == log[written - back..written - back + count]
    {
      var out := new byte[count];
      for i := 0 to count
        invariant forall k :: 0 <= k < i ==> out[k] == log[written - back + k]
      {
        out[i] := ByteAt(start, back, i);
      }
      s := out[..];
    }

    /** `count` bytes starting `back` bytes behind the head. */
    method CopyOut(back: nat, count: nat) returns (s: Str)
      requires Valid() && count <= back <= size && back <= written
      ensures s == log[written - back..written - back + count]
    {
      ReadSlot(written, back, 0, size);
      s := CopyFrom((head - back + size * 2) % size, back, count);
    }

    /** A cursor moved into the retained range. */
    method ClampCursor(snapshot: int) returns (s: nat)
      requires Valid()
      ensures s == Clamp(log, size, snapshot)
    {
      var available := if written > size then size else written;
      var oldest := written - available;
      s := if snapshot < oldest then oldest else snapshot;
      if s > written {
        s := written;
      }
    }

    method ReadSinceMax(snapshot: int, maxBytes: int) returns (out: Str, cursor: nat, hasMore: bool)
      requires Valid()
      ensures var from := Clamp(log, size, snapshot);
              && cursor == from + Take(log, size, snapshot, maxBytes)
              && out == log[from..cursor]
              && (hasMore <==> cursor < |log|)
      ensures maxBytes <= 0 ==> out == Since(log, size, snapshot) && cursor == |log| && !hasMore
      ensures maxBytes > 0 ==> |out| <= maxBytes && (|out| < maxBytes ==> cursor == |log|)
      ensures snapshot > |log| ==> out == [] && cursor == |log| && !hasMore
    {
      var s := ClampCursor(snapshot);
      var count := written - s;
      if count <= 0 {
        return [], s, false;
      }
      if count > size {
        count := size;
      }
      hasMore := false;
      if maxBytes > 0 && count > maxBytes {
        count := maxBytes;
        hasMore := true;
      }
      assert 0 < count <= written - s <= size;
      assert count == Take(log, size, snapshot, maxBytes);
      cursor := s + count;
      out := CopyOut(written - s, count);
    }

    method ReadSince(snapshot: int) returns (out: Str)
      requires Valid()
      ensures out == Since(log, size, snapshot)
    {
      var available := if written > size then size else written;
      var oldest := written - available;
      var s := if snapshot < oldest then oldest else snapshot;
      var count := written - s;
      if count <= 0 {
        return [];
      }
      if count > size {
        count := size;
      }
      out := CopyOut(count, count);
    }

    /** `String`: all retained content. */
    method Contents() returns (out: Str)
      requires Valid()
      ensures out == log[Oldest(log, size)..]
    {
      var available := if written > size then size else written;
      if available == 0 {
        return [];
      }
      out := CopyOut(available, available);
    }

    method MarkSnapshot() returns (snap: int)
      requires Valid()
      ensures snap == markSnapshot
    {
      snap := markSnapshot;
    }

    /** `Since`: the mark and what follows it are read in two critical sections; `between` is written in between. */
    method SinceMark(between: Str) returns (out: Str)
      requires Valid()
      modifies this`head, this`written, this`notify, this`log, buf
      ensures Valid() && log == old(log) + between
      ensures out == Since(log, size, markSnapshot)
    {
      var snap := MarkSnapshot();
      var _ := Write(between);
      out := ReadSince(snap);
    }

    method Mark()
      requires Valid()
      modifies this`markSnapshot
      ensures Valid() && markSnapshot == |log|
    {
      markSnapshot := written;
    }

    method AdvanceMarkBy(n: int)
      requires Valid()
      modifies this`markSnapshot
      ensures Valid() && markSnapshot == Advanced(log, old(markSnapshot), n)
      ensures old(markSnapshot) + n <= |log| ==> markSnapshot == old(markSnapshot) + n
      ensures old(markSnapshot) + n > |log| ==> markSnapshot == |log|
    {
      markSnapshot := markSnapshot + n;
      if markSnapshot > written {
        markSnapshot := written;
      }
    }
  }

  // ---- Chunked reading ----

  /** A client that feeds each returned cursor back until has_more is false, nothing being written meanwhile. */
  function Drain(log: Str, size: nat, s: int, maxBytes: int): (pieces: seq<Str>)
    requires 0 < maxBytes
    decreases |log| - Clamp(log, size, s)
  {
    var from := Clamp(log, size, s);
    var cursor := from + Take(log, size, s, maxBytes);
    if cursor < |log| then [log[from..cursor]] + Drain(log, size, cursor, maxBytes) else [log[from..cursor]]
  }

  lemma ConcatFirst(pieces: seq<Str>)
    requires pieces != []
    ensures Concat(pieces) == pieces[0] + Concat(pieces[1..])
  {
    var n := |pieces| - 1;
    if n > 0 {
      ConcatFirst(pieces[..n]);
      assert pieces[..n][1..] == pieces[1..][..n - 1];
      assert pieces[1..][n - 1] == pieces[n];
    }
  }

  /** The drained pieces reassemble the unlimited read; all but the last are exactly as long as the limit. */
  lemma {:induction false} DrainIsOneRead(log: Str, size: nat, s: int, maxBytes: int)
    requires 0 < maxBytes
    ensures var pieces := Drain(log, size, s, maxBytes);
            && Concat(pieces) == Since(log, size, s)
            && 0 < |pieces|
            && (forall i :: 0 <= i < |pieces| - 1 ==> |pieces[i]| == maxBytes)
            && |pieces[|pieces| - 1]| <= maxBytes
    decreases |log| - Clamp(log, size, s)
  {
    var from := Clamp(log, size, s);
    var cursor := from + Take(log, size, s, maxBytes);
    var pieces := Drain(log, size, s, maxBytes);
    ConcatFirst(pieces);
    if cursor < |log| {
      DrainIsOneRead(log, size, cursor, maxBytes);
      var rest := Drain(log, size, cursor, maxBytes);
      assert pieces == [log[from..cursor]] + rest && pieces[1..] == rest;
      StretchGoesOn(log, log, from, cursor, |log|);
      assert log[cursor..|log|] == log[cursor..] && log[from..|log|] == log[from..];
    }
  }

  /** One cursor read while the producer keeps writing: what arrives before it, and the limit it uses. */
  datatype CursorRead = CursorRead(arrived: Str, maxBytes: int)

  function FinalLog(log: Str, polls: seq<CursorRead>): Str
    decreases |polls|
  {
    if polls == [] then log else FinalLog(log + polls[0].arrived, polls[1..])
  }

  /** The pieces a client collects, and the cursor it ends with. */
  function Collect(log: Str, size: nat, s: int, polls: seq<CursorRead>): (Str, int)
    decreases |polls|
  {
    if polls == [] then ([], s) else
    var now := log + polls[0].arrived;
    var from := Clamp(now, size, s);
    var cursor := from + Take(now, size, s, polls[0].maxBytes);
    var rest := Collect(now, size, cursor, polls[1..]);
    (now[from..cursor] + rest.0, rest.1)
  }

  /** No read in the sequence finds its cursor overwritten or ahead of the writer. */
  predicate NeverOverwritten(log: Str, size: nat, s: int, polls: seq<CursorRead>)
    decreases |polls|
  {
    polls == [] ||
    (var now := log + polls[0].arrived;
     && Oldest(now, size) <= s <= |now|
     && NeverOverwritten(now, size, s + Take(now, size, s, polls[0].maxBytes), polls[1..]))
  }

  lemma LogGrows(log: Str, polls: seq<CursorRead>)
    ensures log <= FinalLog(log, polls)
    decreases |polls|
  {
    if polls != [] {
      LogGrows(log + polls[0].arrived, polls[1..]);
    }
  }

  lemma StretchGoesOn(now: Str, end: Str, from: nat, cursor: nat, to: nat)
    requires now <= end && from <= cursor <= |now| && cursor <= to <= |end|
    ensures now[from..cursor] + end[cursor..to] == end[from..to]
  {
    assert forall i :: from <= i < cursor ==> now[i] == end[i];
  }

  /** With any writes in between, and any limits, the collected pieces are one contiguous stretch of the log
      exactly as far as no cursor was overwritten. */
  lemma {:induction false} CollectIsContiguous(log: Str, size: nat, s: nat, polls: seq<CursorRead>)
    requires s <= |log|
    ensures var (text, cursor) := Collect(log, size, s, polls);
            && s <= cursor <= |FinalLog(log, polls)|
            && (NeverOverwritten(log, size, s, polls) ==> text == FinalLog(log, polls)[s..cursor])
            && (NeverOverwritten(log, size, s, polls) <==> |text| == cursor - s)
            && |text| <= cursor - s
    decreases |polls|
  {
    if polls != [] {
      var now := log + polls[0].arrived;
      var from := Clamp(now, size, s);
      var cursor := from + Take(now, size, s, polls[0].maxBytes);
      CollectIsContiguous(now, size, cursor, polls[1..]);
      LogGrows(now, polls[1..]);
      StretchGoesOn(now, FinalLog(now, polls[1..]), from, cursor, Collect(now, size, cursor, polls[1..]).1);
    }
  }

  /** `IsTruncated` tells whether retained data starts after the cursor, except for the negative cursors
      of a buffer that has not lapped that far. */
  lemma TruncatedMeaning(log: Str, size: nat, s: int)
    ensures Truncated(log, size, s) ==> s < Oldest(log, size)
    ensures (Truncated(log, size, s) <==> s < Oldest(log, size)) <==> (0 <= s || s < |log| - size)
  {}

  /** Mode 2 of read_output takes its data and its is_truncated flag in two critical sections, with `between` written
      between them. A false flag still guarantees, for a cursor the client could hold, that the data starts exactly at
      the cursor. */
  lemma FlagNeverMissesLoss(log: Str, between: Str, size: nat, s: nat)
    requires s <= |log|
    ensures !Truncated(log + between, size, s) ==> Clamp(log, size, s) == s
    ensures Truncated(log + between, size, s) && between == [] ==> Clamp(log, size, s) > s
  {}

  /** For every cursor, the flag tells whether the data starts after the cursor exactly when the cursor was overwritten
      before the data was taken, or was not by the time the flag was; for a negative cursor, exactly when it was by
      then. */
  lemma FlagIsRightExactlyWhen(log: Str, between: Str, size: nat, s: int)
    ensures var kept, keptLater := |log| - size, |log| + |between| - size;
            (Truncated(log + between, size, s) <==> s < Clamp(log, size, s))
            <==> s < kept || (if 0 <= s then keptLater <= s else s < keptLater)
  {}

  /** The flag can be raised although nothing was lost: the write fell between the two sections. */
  lemma FlagCanBeSpurious()
    ensures Clamp([1, 2], 2, 0) == 0 && Truncated([1, 2] + [3], 2, 0)
  {}
}
