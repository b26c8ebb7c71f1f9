/** The consumed mark of the ring buffer (internal/buffer/ring.go) under the calls of internal/aitx/ptysession.go and
    the polling reader of internal/pty/helper.go: every interleaving of any number of ReadScreen calls on one session
    with its writers and with the Write and WriteRaw calls that move the mark. The server takes no lock around these
    calls, and each connection to it may use the same session. */
module MarkDelivery {
  import opened Bytes
  import opened Lines
  import opened Ring

  /** The last thing a reader's getOutput returned: the retained bytes from position `from` on, after it had read the
      mark as `mark`. */
  datatype Observation = Observation(mark: int, from: nat, text: Str)

  /** What has happened: a completed read had read the mark at another place (`overlapped`), or no longer in the ring
      (`overwritten`); it started past all that had been delivered (`gapped`), or before the end of it (`repeated`); it
      moved the mark past all it and others had delivered, over bytes still retained (`outran`). `skipped` says that a
      completion moved the mark past a retained byte that no read had delivered; `marked`, that Write or WriteRaw moved
      the mark over output. */
  datatype History = History(
    overlapped: bool, overwritten: bool, gapped: bool, repeated: bool, outran: bool, skipped: bool, marked: bool)

  /** `noted` are the marks read by getOutput calls under way. `positions` are the log positions of the bytes completed
      reads have delivered, `text` the bytes themselves, and `front` the end of the furthest of these reads. */
  datatype State = State(
    log: Str, mark: int, noted: map<nat, int>, readers: map<nat, Observation>,
    positions: seq<int>, text: Str, front: int, history: History)

  datatype Step =
    | Arrive(p: Str)    // a writer's critical section
    | Note(r: nat)      // getOutput: Since reads the mark ...
    | Read(r: nat)      // ... and then calls ReadSince
    | Complete(r: nat)  // WaitForSettleCtx returned its last observation; AdvanceMarkBy(len(output))
    | Cancel(r: nat)    // the context is done: nothing is consumed
    | Mark              // Write, WriteRaw

  function Range(from: int, to: int): (r: seq<int>)
    requires from <= to
    ensures |r| == to - from
  {
    seq(to - from, i requires 0 <= i => from + i)
  }

  lemma InRange(from: int, to: int, p: int)
    requires from <= to
    ensures p in Range(from, to) <==> from <= p < to
  {
    if from <= p < to {
      assert Range(from, to)[p - from] == p;
    }
  }

  function Max(a: int, b: int): int {
    if a < b then b else a
  }

  function End(o: Observation): nat {
    o.from + |o.text|
  }

  /** A retained byte between two positions of the mark that is not among the delivered. */
  predicate Skips(size: nat, log: Str, from: int, to: int, positions: seq<int>) {
    exists p :: from <= p < to && Oldest(log, size) <= p && p !in positions
  }

  /** The mark moves past everything delivered, this read included, and the ring still holds something there. */
  predicate Outruns(size: nat, s: State, o: Observation) {
    Max(Max(s.mark, Oldest(s.log, size)), Max(s.front, End(o))) < Advanced(s.log, s.mark, |o.text|)
  }

  /** A completed read that returns `o`. */
  function After(size: nat, s: State, o: Observation): State {
    var mark := Advanced(s.log, s.mark, |o.text|);
    var positions := s.positions + Range(o.from, End(o));
    var h := s.history;
    s.(mark := mark,
       positions := positions,
       text := s.text + o.text,
       front := if o.text == [] then s.front else Max(s.front, End(o)),
       history := h.(overlapped := h.overlapped || o.mark != s.mark,
                     overwritten := h.overwritten || (o.text != [] && o.from > o.mark),
                     gapped := h.gapped || (o.text != [] && o.from > s.front),
                     repeated := h.repeated || (o.text != [] && o.from < s.front),
                     outran := h.outran || Outruns(size, s, o),
                     skipped := h.skipped || Skips(size, s.log, s.mark, mark, positions)))
  }

  function Next(size: nat, s: State, step: Step): State {
    match step
    case Arrive(p) => s.(log := s.log + p)
    case Note(r) => s.(noted := s.noted[r := s.mark])
    case Read(r) =>
      if r in s.noted
      then s.(readers := s.readers[r := Observation(s.noted[r], Clamp(s.log, size, s.noted[r]),
                                                    Since(s.log, size, s.noted[r]))],
              noted := s.noted - {r})
      else s
    case Complete(r) =>
      if r in s.readers && r !in s.noted then After(size, s, s.readers[r]).(readers := s.readers - {r}) else s
    case Cancel(r) => s.(readers := s.readers - {r}, noted := s.noted - {r})
    case Mark => s.(mark := |s.log|, history := s.history.(marked := s.history.marked || s.mark != |s.log|))
  }

  function Start(log: Str, mark: int): State {
    State(log, mark, map[], map[], [], [], mark, History(false, false, false, false, false, false, false))
  }

  function Run(size: nat, s: State, steps: seq<Step>): State {
    if steps == [] then s else Next(size, Run(size, s, Init(steps)), Last(steps))
  }

  // ---- What holds of everything delivered since the mark stood at `mark0` ----

  /** An observation is still a stretch of the log, starting at the mark it was made from unless that was
      overwritten. */
  ghost predicate Faithful(size: nat, mark0: nat, s: State, o: Observation) {
    && mark0 <= o.mark <= s.mark && o.mark <= o.from && End(o) <= |s.log|
    && o.text == s.log[o.from..End(o)]
    && (o.from > o.mark ==> o.from <= Oldest(s.log, size))
  }

  ghost predicate ReadersOk(size: nat, mark0: nat, s: State) {
    && (forall r: nat :: r in s.noted ==> mark0 <= s.noted[r] <= s.mark)
    && (forall r: nat :: r in s.readers ==> Faithful(size, mark0, s, s.readers[r]))
  }

  /** What has been delivered are bytes of the log. */
  ghost predicate FromTheLog(s: State) {
    && |s.positions| == |s.text|
    && forall k :: 0 <= k < |s.positions| ==> 0 <= s.positions[k] < |s.log| && s.text[k] == s.log[s.positions[k]]
  }

  predicate Sorted(xs: seq<int>) {
    forall i, j :: 0 <= i < j < |xs| ==> xs[i] < xs[j]
  }

  /** `positions` stay behind the front and reach it; they are in order without repetition, and without gaps, as the
      two flags say. */
  ghost predicate Orderly(mark0: nat, front: int, positions: seq<int>, repeated: bool, gapped: bool) {
    && mark0 <= front
    && (forall k :: 0 <= k < |positions| ==> mark0 <= positions[k] < front)
    && (front > mark0 ==> front - 1 in positions)
    && (!repeated <==> Sorted(positions))
    && (!repeated && !gapped <==> InPlace(mark0, positions))
    && (!repeated && !gapped ==> |positions| == front - mark0)
  }

  predicate InPlace(mark0: nat, positions: seq<int>) {
    forall k :: 0 <= k < |positions| ==> positions[k] == mark0 + k
  }

  ghost predicate InOrder(mark0: nat, s: State) {
    s.front <= |s.log| && Orderly(mark0, s.front, s.positions, s.history.repeated, s.history.gapped)
  }

  /** Between mark and front everything retained was delivered, so a byte is skipped exactly by a completion that
      outran; and as long as nothing was skipped or marked, everything retained before the mark was delivered as
      well. */
  ghost predicate Covered(size: nat, mark0: nat, s: State) {
    && (forall p :: s.mark <= p < s.front && Oldest(s.log, size) <= p ==> p in s.positions)
    && (s.history.skipped <==> s.history.outran)
    && (!s.history.skipped && !s.history.marked ==>
          forall p :: mark0 <= p < s.mark && Oldest(s.log, size) <= p ==> p in s.positions)
  }

  /** Reads that do not overlap never outrun, and while no other call moves the mark only overwriting upsets their
      order. */
  ghost predicate Separated(s: State) {
    !s.history.overlapped ==>
      && !s.history.outran
      && (!s.history.marked ==>
            && (s.history.gapped || s.history.repeated <==> s.history.overwritten)
            && (!s.history.overwritten ==> s.front == s.mark))
  }

  ghost predicate Delivers(size: nat, mark0: nat, s: State) {
    && mark0 <= s.mark <= |s.log|
    && ReadersOk(size, mark0, s)
    && FromTheLog(s)
    && InOrder(mark0, s)
    && Covered(size, mark0, s)
    && Separated(s)
  }

  lemma AfterFromTheLog(size: nat, mark0: nat, s: State, o: Observation)
    requires FromTheLog(s) && mark0 <= s.mark <= |s.log| && Faithful(size, mark0, s, o)
    ensures FromTheLog(After(size, s, o))
  {}

  lemma Appended(xs: seq<int>, from: int, to: int)
    requires from <= to
    ensures var all := xs + Range(from, to);
            && (forall k :: 0 <= k < |xs| ==> all[k] == xs[k])
            && (forall k :: |xs| <= k < |all| ==> all[k] == from + k - |xs|)
  {}

  lemma AppendSorted(xs: seq<int>, from: int, to: int, front: int)
    requires from < to && forall k :: 0 <= k < |xs| ==> xs[k] < front
    requires from < front ==> front - 1 in xs
    ensures Sorted(xs + Range(from, to)) <==> Sorted(xs) && front <= from
  {
    var all := xs + Range(from, to);
    Appended(xs, from, to);
    if Sorted(all) {
      forall i, j | 0 <= i < j < |xs|
        ensures xs[i] < xs[j]
      {
        assert all[i] < all[j];
      }
    }
    if from < front {
      var k :| 0 <= k < |xs| && xs[k] == front - 1;
      assert all[k] == front - 1 && all[|xs|] == from;
    }
  }

  lemma AppendInPlace(mark0: nat, xs: seq<int>, from: int, to: int, front: int)
    requires from < to && (InPlace(mark0, xs) ==> |xs| == front - mark0)
    ensures InPlace(mark0, xs + Range(from, to)) <==> InPlace(mark0, xs) && from == front
  {
    var all := xs + Range(from, to);
    Appended(xs, from, to);
    if InPlace(mark0, all) {
      forall k | 0 <= k < |xs|
        ensures xs[k] == mark0 + k
      {
        assert all[k] == mark0 + k;
      }
      assert all[|xs|] == from;
    }
  }

  lemma AppendOrderly(mark0: nat, front: int, xs: seq<int>, repeated: bool, gapped: bool, from: int, to: int)
    requires Orderly(mark0, front, xs, repeated, gapped) && mark0 <= from < to
    ensures Orderly(mark0, Max(front, to), xs + Range(from, to), repeated || from < front, gapped || from > front)
  {
    var all := xs + Range(from, to);
    Appended(xs, from, to);
    AppendSorted(xs, from, to, front);
    AppendInPlace(mark0, xs, from, to, front);
    assert all[|all| - 1] == to - 1;
    if front > to {
      assert front - 1 in xs;
    }
  }

  lemma AfterInOrder(size: nat, mark0: nat, s: State, o: Observation)
    requires mark0 <= s.mark <= |s.log| && Faithful(size, mark0, s, o) && InOrder(mark0, s)
    ensures InOrder(mark0, After(size, s, o))
  {
    if o.text == [] {
      assert s.positions + Range(o.from, End(o)) == s.positions;
    } else {
      AppendOrderly(mark0, s.front, s.positions, s.history.repeated, s.history.gapped, o.from, End(o));
    }
  }

  /** A skipped byte lies past the front. */
  lemma SkippersOutrun(size: nat, mark0: nat, s: State, o: Observation)
    requires mark0 <= s.mark <= |s.log| && Faithful(size, mark0, s, o) && Covered(size, mark0, s)
    requires var s' := After(size, s, o); Skips(size, s.log, s.mark, s'.mark, s'.positions)
    ensures Outruns(size, s, o)
  {
    var s' := After(size, s, o);
    var p :| s.mark <= p < s'.mark && Oldest(s.log, size) <= p && p !in s'.positions;
    InRange(o.from, End(o), p);
    assert p !in s.positions && s.front <= p;
  }

  /** The first retained byte past mark and front is skipped. */
  lemma OutrunnersSkip(size: nat, mark0: nat, s: State, o: Observation)
    requires Faithful(size, mark0, s, o) && InOrder(mark0, s) && Outruns(size, s, o)
    ensures var s' := After(size, s, o); Skips(size, s.log, s.mark, s'.mark, s'.positions)
  {
    var s' := After(size, s, o);
    var p := Max(Max(s.mark, Oldest(s.log, size)), Max(s.front, End(o)));
    InRange(o.from, End(o), p);
    assert p !in s'.positions;
  }

  lemma AfterCovers(size: nat, mark0: nat, s: State, o: Observation, p: int)
    requires mark0 <= s.mark <= |s.log| && Faithful(size, mark0, s, o) && Covered(size, mark0, s)
    requires var s' := After(size, s, o); s'.mark <= p < s'.front && Oldest(s.log, size) <= p
    ensures p in After(size, s, o).positions
  {
    InRange(o.from, End(o), p);
  }

  lemma AfterCovered(size: nat, mark0: nat, s: State, o: Observation)
    requires mark0 <= s.mark <= |s.log| && Faithful(size, mark0, s, o) && InOrder(mark0, s) && Covered(size, mark0, s)
    ensures Covered(size, mark0, After(size, s, o))
  {
    var s' := After(size, s, o);
    if Skips(size, s.log, s.mark, s'.mark, s'.positions) {
      SkippersOutrun(size, mark0, s, o);
    }
    if Outruns(size, s, o) {
      OutrunnersSkip(size, mark0, s, o);
    }
    forall p | s'.mark <= p < s'.front && Oldest(s.log, size) <= p
      ensures p in s'.positions
    {
      AfterCovers(size, mark0, s, o, p);
    }
  }

  lemma AfterSeparated(size: nat, mark0: nat, s: State, o: Observation)
    requires mark0 <= s.mark <= |s.log| && Faithful(size, mark0, s, o) && Separated(s)
    ensures Separated(After(size, s, o))
  {}

  lemma ReadersKept(size: nat, mark0: nat, s: State, s': State)
    requires ReadersOk(size, mark0, s) && s.mark <= s'.mark && s.log <= s'.log
    requires forall r: nat :: r in s'.readers ==> r in s.readers && s'.readers[r] == s.readers[r]
    requires forall r: nat :: r in s'.noted ==> r in s.noted && s'.noted[r] == s.noted[r]
    ensures ReadersOk(size, mark0, s')
  {
    assert Oldest(s.log, size) <= Oldest(s'.log, size);
    forall r: nat | r in s'.readers
      ensures Faithful(size, mark0, s', s'.readers[r])
    {
      var o := s.readers[r];
      assert Faithful(size, mark0, s, o);
      assert s'.log[o.from..End(o)] == s.log[o.from..End(o)];
    }
  }

  lemma CompleteDelivers(size: nat, mark0: nat, s: State, r: nat)
    requires Delivers(size, mark0, s) && r in s.readers && r !in s.noted
    ensures Delivers(size, mark0, Next(size, s, Complete(r)))
    ensures s.mark <= Next(size, s, Complete(r)).mark
  {
    var o := s.readers[r];
    AfterFromTheLog(size, mark0, s, o);
    AfterInOrder(size, mark0, s, o);
    AfterCovered(size, mark0, s, o);
    AfterSeparated(size, mark0, s, o);
    SameButReaders(size, mark0, After(size, s, o), Next(size, s, Complete(r)));
    ReadersKept(size, mark0, s, Next(size, s, Complete(r)));
  }

  lemma SameButReaders(size: nat, mark0: nat, s: State, s': State)
    requires FromTheLog(s) && InOrder(mark0, s) && Covered(size, mark0, s) && Separated(s)
    requires s' == s.(readers := s'.readers, noted := s'.noted)
    ensures FromTheLog(s') && InOrder(mark0, s') && Covered(size, mark0, s') && Separated(s')
  {}

  lemma ArriveDelivers(size: nat, mark0: nat, s: State, p: Str)
    requires Delivers(size, mark0, s)
    ensures Delivers(size, mark0, Next(size, s, Arrive(p)))
  {
    var s' := Next(size, s, Arrive(p));
    ReadersKept(size, mark0, s, s');
    assert Oldest(s.log, size) <= Oldest(s'.log, size);
    assert FromTheLog(s') && InOrder(mark0, s');
  }

  lemma MarkDelivers(size: nat, mark0: nat, s: State)
    requires Delivers(size, mark0, s)
    ensures Delivers(size, mark0, Next(size, s, Mark))
  {
    var s' := Next(size, s, Mark);
    ReadersKept(size, mark0, s, s');
    assert FromTheLog(s') && InOrder(mark0, s');
  }

  lemma ReadDelivers(size: nat, mark0: nat, s: State, r: nat)
    requires Delivers(size, mark0, s) && r in s.noted
    ensures Delivers(size, mark0, Next(size, s, Read(r)))
  {
    var s' := Next(size, s, Read(r));
    var o := s'.readers[r];
    assert s.log[o.from..End(o)] == s.log[o.from..];
    assert Faithful(size, mark0, s, o);
    SameButReaders(size, mark0, s, s');
    forall q: nat | q in s'.readers
      ensures Faithful(size, mark0, s', s'.readers[q])
    {
      assert q != r ==> Faithful(size, mark0, s, s.readers[q]);
    }
  }

  lemma NoteDelivers(size: nat, mark0: nat, s: State, r: nat)
    requires Delivers(size, mark0, s)
    ensures Delivers(size, mark0, Next(size, s, Note(r)))
  {
    var s' := Next(size, s, Note(r));
    SameButReaders(size, mark0, s, s');
    forall q: nat | q in s'.readers
      ensures Faithful(size, mark0, s', s'.readers[q])
    {
      assert Faithful(size, mark0, s, s.readers[q]);
    }
  }

  lemma CancelDelivers(size: nat, mark0: nat, s: State, r: nat)
    requires Delivers(size, mark0, s)
    ensures Delivers(size, mark0, Next(size, s, Cancel(r)))
  {
    SameButReaders(size, mark0, s, Next(size, s, Cancel(r)));
    ReadersKept(size, mark0, s, Next(size, s, Cancel(r)));
  }

  lemma StepDelivers(size: nat, mark0: nat, s: State, step: Step)
    requires Delivers(size, mark0, s)
    ensures Delivers(size, mark0, Next(size, s, step))
    ensures s.mark <= Next(size, s, step).mark
  {
    match step
    case Arrive(p) => ArriveDelivers(size, mark0, s, p);
    case Note(r) => NoteDelivers(size, mark0, s, r);
    case Read(r) =>
      if r in s.noted {
        ReadDelivers(size, mark0, s, r);
      }
    case Complete(r) =>
      if r in s.readers && r !in s.noted {
        CompleteDelivers(size, mark0, s, r);
      }
    case Cancel(r) => CancelDelivers(size, mark0, s, r);
    case Mark => MarkDelivers(size, mark0, s);
  }

  lemma {:induction false} RunKeepsDelivers(size: nat, log: Str, mark0: nat, steps: seq<Step>)
    requires mark0 <= |log|
    ensures Delivers(size, mark0, Run(size, Start(log, mark0), steps))
  {
    if steps != [] {
      RunKeepsDelivers(size, log, mark0, Init(steps));
      StepDelivers(size, mark0, Run(size, Start(log, mark0), Init(steps)), Last(steps));
    }
  }

  // ---- What every run guarantees ----

  /** Over every run: no byte is delivered twice or before an earlier one exactly when no completed read with output
      started before the end of an earlier one; and everything from the initial mark to that end is delivered, once and
      in order, exactly when each started right there. */
  lemma RunsDeliver(size: nat, log: Str, mark0: nat, steps: seq<Step>)
    requires mark0 <= |log|
    ensures var s := Run(size, Start(log, mark0), steps);
            && mark0 <= s.front <= |s.log|
            && (Sorted(s.positions) <==> !s.history.repeated)
            && (s.positions == Range(mark0, s.front) <==> !s.history.repeated && !s.history.gapped)
            && (!s.history.repeated && !s.history.gapped ==> s.text == s.log[mark0..s.front])
  {
    RunKeepsDelivers(size, log, mark0, steps);
    OrderlyRange(mark0, Run(size, Start(log, mark0), steps));
  }

  lemma OrderlyRange(mark0: nat, s: State)
    requires InOrder(mark0, s) && FromTheLog(s)
    ensures s.positions == Range(mark0, s.front) <==> !s.history.repeated && !s.history.gapped
    ensures !s.history.repeated && !s.history.gapped ==> s.text == s.log[mark0..s.front]
  {
    if InPlace(mark0, s.positions) {
      assert s.positions == Range(mark0, s.front);
      assert forall k :: 0 <= k < |s.text| ==> s.text[k] == s.log[mark0 + k];
    }
  }

  /** Over every run a retained byte that no read delivered is passed by a completed read exactly when such a read
      moved the mark past the end of everything delivered, itself included, over something the ring still held. Without
      that, and without a Write or WriteRaw that moved the mark, whatever is retained before the mark was delivered. */
  lemma RetainedBytesAreSkippedExactlyWhenOutrun(size: nat, log: Str, mark0: nat, steps: seq<Step>)
    requires mark0 <= |log|
    ensures var s := Run(size, Start(log, mark0), steps);
            && (s.history.skipped <==> s.history.outran)
            && (!s.history.skipped && !s.history.marked ==>
                  forall p :: mark0 <= p < s.mark && Oldest(s.log, size) <= p ==> p in s.positions)
  {
    RunKeepsDelivers(size, log, mark0, steps);
  }

  /** Reads between whose reading of the mark and completion the mark does not move never skip a retained byte; if no
      Write or WriteRaw moves the mark over output either, they deliver everything up to the mark, once and in order,
      exactly when none of them found its mark overwritten. */
  lemma SeparateReadsDeliver(size: nat, log: Str, mark0: nat, steps: seq<Step>)
    requires mark0 <= |log| && !Run(size, Start(log, mark0), steps).history.overlapped
    ensures var s := Run(size, Start(log, mark0), steps);
            && !s.history.skipped
            && mark0 <= s.mark <= |s.log|
            && (!s.history.marked ==> (s.positions == Range(mark0, s.mark) <==> !s.history.overwritten))
  {
    RunKeepsDelivers(size, log, mark0, steps);
    RunsDeliver(size, log, mark0, steps);
    var s := Run(size, Start(log, mark0), steps);
    if !s.history.marked && s.history.overwritten {
      assert !InPlace(mark0, s.positions);
    }
  }

  function WithoutReader(steps: seq<Step>, r: nat): seq<Step> {
    if steps == [] then []
    else WithoutReader(Init(steps), r) + (if Last(steps) in {Note(r), Read(r), Cancel(r)} then [] else [Last(steps)])
  }

  predicate SameFor(a: State, b: State, r: nat) {
    a.(readers := a.readers - {r}, noted := a.noted - {r}) == b.(readers := b.readers - {r}, noted := b.noted - {r})
  }

  /** A cancelled read moves nothing: a run is the same without a reader that never completes. */
  lemma {:induction false} CancelledReadsMoveNothing(size: nat, s: State, steps: seq<Step>, r: nat)
    requires Complete(r) !in steps
    ensures SameFor(Run(size, s, steps), Run(size, s, WithoutReader(steps, r)), r)
  {
    if steps != [] {
      CancelledReadsMoveNothing(size, s, Init(steps), r);
      assert Last(steps) in steps;
      var before := WithoutReader(Init(steps), r);
      var with, without := Run(size, s, Init(steps)), Run(size, s, before);
      if Last(steps) in {Note(r), Read(r), Cancel(r)} {
        assert WithoutReader(steps, r) == before;
        OwnStep(size, with, Last(steps), r);
      } else {
        assert Init(before + [Last(steps)]) == before;
        OthersStep(size, with, without, Last(steps), r);
      }
    }
  }

  lemma OwnStep(size: nat, s: State, step: Step, r: nat)
    requires step in {Note(r), Read(r), Cancel(r)}
    ensures SameFor(Next(size, s, step), s, r)
  {
    var s' := Next(size, s, step);
    assert s'.readers - {r} == s.readers - {r};
    assert s'.noted - {r} == s.noted - {r};
  }

  lemma MapsAgree<T>(a: map<nat, T>, b: map<nat, T>, r: nat)
    requires a - {r} == b - {r}
    ensures forall q :: q != r ==> (q in a <==> q in b)
    ensures forall q :: q != r && q in a ==> a[q] == b[q]
  {
    forall q | q != r
      ensures q in a <==> q in b
      ensures q in a ==> a[q] == b[q]
    {
      assert q in a <==> q in a - {r};
      assert q in b <==> q in b - {r};
      assert q in a - {r} ==> a[q] == (a - {r})[q] == (b - {r})[q];
    }
  }

  lemma Inserted<T>(a: map<nat, T>, b: map<nat, T>, q: nat, x: T, r: nat)
    requires a - {r} == b - {r} && q != r
    ensures a[q := x] - {r} == b[q := x] - {r}
  {
    assert a[q := x] - {r} == (a - {r})[q := x];
    assert b[q := x] - {r} == (b - {r})[q := x];
  }

  lemma Removed<T>(a: map<nat, T>, b: map<nat, T>, q: nat, r: nat)
    requires a - {r} == b - {r}
    ensures a - {q} - {r} == b - {q} - {r}
  {
    assert a - {q} - {r} == a - {r} - {q};
    assert b - {q} - {r} == b - {r} - {q};
  }

  lemma OthersStep(size: nat, a: State, b: State, step: Step, r: nat)
    requires SameFor(a, b, r) && step !in {Note(r), Read(r), Cancel(r), Complete(r)}
    ensures SameFor(Next(size, a, step), Next(size, b, step), r)
  {
    MapsAgree(a.readers, b.readers, r);
    MapsAgree(a.noted, b.noted, r);
    if step.Note? {
      Inserted(a.noted, b.noted, step.r, a.mark, r);
    } else if step.Read? {
      OthersRead(size, a, b, step.r, r);
    } else if !step.Arrive? && !step.Mark? {
      OthersEnd(size, a, b, step, r);
    }
  }

  lemma OthersRead(size: nat, a: State, b: State, q: nat, r: nat)
    requires SameFor(a, b, r) && q != r && (q in a.noted <==> q in b.noted)
             && (q in a.noted ==> a.noted[q] == b.noted[q])
    ensures SameFor(Next(size, a, Read(q)), Next(size, b, Read(q)), r)
  {
    if q in a.noted {
      Inserted(a.readers, b.readers, q, Next(size, a, Read(q)).readers[q], r);
      Removed(a.noted, b.noted, q, r);
    }
  }

  lemma OthersEnd(size: nat, a: State, b: State, step: Step, r: nat)
    requires SameFor(a, b, r) && (step.Complete? || step.Cancel?) && step.r != r
    requires (step.r in a.noted <==> step.r in b.noted) && (step.r in a.readers <==> step.r in b.readers)
    requires step.r in a.readers ==> a.readers[step.r] == b.readers[step.r]
    ensures SameFor(Next(size, a, step), Next(size, b, step), r)
  {
    Removed(a.readers, b.readers, step.r, r);
    Removed(a.noted, b.noted, step.r, r);
  }

  // ---- Three ways it goes wrong ----

  lemma LookIs(size: nat, s: State, r: nat)
    ensures Next(size, Next(size, s, Note(r)), Read(r))
         == s.(readers := s.readers[r := Observation(s.mark, Clamp(s.log, size, s.mark), Since(s.log, size, s.mark))],
               noted := s.noted - {r})
  {
    assert s.noted[r := s.mark] - {r} == s.noted - {r};
  }

  /** With overwriting, one reader alone can get a byte twice: the mark advances by the length of what was returned,
      from a position the ring no longer held. */
  lemma OverwritingRedelivers(a: byte, b: byte, c: byte)
    ensures var s := Run(2, Start([], 0), [Arrive([a, b, c]), Note(0), Read(0), Complete(0), Note(0), Read(0),
                                           Complete(0)]);
            s.positions == [1, 2, 2] && s.text == [b, c, c]
  {
    var log := [a, b, c];
    var s0 := Start([], 0);
    var s1 := Next(2, s0, Arrive(log));
    var read := [Note(0), Read(0), Complete(0)];
    assert s1.log == log && Range(1, 3) == [1, 2] && Range(2, 3) == [2];
    WholeRead(2, s1);
    var s2 := Run(2, s1, read);
    assert s2.positions == [1, 2] && s2.text == [b, c] && s2.mark == 2 && s2.log == log;
    WholeRead(2, s2);
    OneStep(2, s0, Arrive(log));
    RunConcat(2, s0, [Arrive(log)], read);
    RunConcat(2, s0, [Arrive(log)] + read, read);
    assert [Arrive(log)] + read + read == [Arrive(log), Note(0), Read(0), Complete(0), Note(0), Read(0), Complete(0)];
  }

  /** A read by reader 0 that nothing interrupts. */
  lemma WholeRead(size: nat, s: State)
    ensures var s' := Run(size, s, [Note(0), Read(0), Complete(0)]);
            var o := Observation(s.mark, Clamp(s.log, size, s.mark), Since(s.log, size, s.mark));
            && s'.log == s.log && s'.mark == Advanced(s.log, s.mark, |o.text|)
            && s'.positions == s.positions + Range(o.from, End(o)) && s'.text == s.text + o.text
  {
    LookIs(size, s, 0);
    ThreeSteps(size, s, Note(0), Read(0), Complete(0));
  }

  /** Two reads that overlap can lose a byte for good although the ring still holds it: both saw `a`, both move the
      mark. */
  lemma OverlapSkips(a: byte, b: byte)
    ensures var s := Run(8, Start([a], 0), [Note(0), Read(0), Note(1), Read(1), Arrive([b]), Complete(0), Complete(1)]);
            && s.positions == [0, 0] && s.text == [a, a] && s.mark == 2
            && Oldest(s.log, 8) == 0 && s.log == [a, b] && Since(s.log, 8, s.mark) == []
  {
    var s0 := Start([a], 0);
    var looks, rest := [Note(0), Read(0), Note(1), Read(1)], [Arrive([b]), Complete(0), Complete(1)];
    BothLook(a);
    var s4 := Run(8, s0, looks);
    var s5 := Next(8, s4, Arrive([b]));
    assert s5.log == [a, b] && Range(0, 1) == [0];
    var s6 := Next(8, s5, Complete(0));
    assert s6.positions == [0] && s6.mark == 1 && s6.readers[1] == Observation(0, 0, [a]);
    ThreeSteps(8, s4, Arrive([b]), Complete(0), Complete(1));
    RunConcat(8, s0, looks, rest);
    assert looks + rest == [Note(0), Read(0), Note(1), Read(1), Arrive([b]), Complete(0), Complete(1)];
  }

  lemma BothLook(a: byte)
    ensures Run(8, Start([a], 0), [Note(0), Read(0), Note(1), Read(1)])
         == Start([a], 0).(readers := map[0 := Observation(0, 0, [a]), 1 := Observation(0, 0, [a])])
  {
    var s0 := Start([a], 0);
    var o := Observation(0, 0, [a]);
    var s2 := Next(8, Next(8, s0, Note(0)), Read(0));
    LookIs(8, s0, 0);
    assert s2 == s0.(readers := map[0 := o]);
    LookIs(8, s2, 1);
    TwoSteps(8, s0, Note(0), Read(0));
    TwoSteps(8, s2, Note(1), Read(1));
    RunConcat(8, s0, [Note(0), Read(0)], [Note(1), Read(1)]);
    assert [Note(0), Read(0)] + [Note(1), Read(1)] == [Note(0), Read(0), Note(1), Read(1)];
  }

  /** A Write between a reader's last look and its completion makes that completion skip the output of what was
      written: the mark is moved to the end, the output `b` arrives, and the mark moves on by the length of the earlier
      read. */
  lemma MarkSkipsTheOutput(a: byte, b: byte)
    ensures var s := Run(8, Start([a], 0), [Note(0), Read(0), Mark, Arrive([b]), Complete(0)]);
            && s.positions == [0] && s.mark == 2 && s.log == [a, b] && s.history.skipped
               && Since(s.log, 8, s.mark) == []
  {
    var s0 := Start([a], 0);
    LookIs(8, s0, 0);
    var s2 := Next(8, Next(8, s0, Note(0)), Read(0));
    assert s2.readers[0] == Observation(0, 0, [a]);
    var s4 := Next(8, Next(8, s2, Mark), Arrive([b]));
    assert s4.log == [a, b] && s4.mark == 1 && Range(0, 1) == [0];
    var s5 := Next(8, s4, Complete(0));
    assert s5.positions == [0] && s5.mark == 2;
    assert Skips(8, s4.log, 1, 2, [0]) by {
      assert 1 !in [0];
    }
    RunConcat(8, s0, [Note(0), Read(0)], [Mark, Arrive([b]), Complete(0)]);
    TwoSteps(8, s0, Note(0), Read(0));
    ThreeSteps(8, s2, Mark, Arrive([b]), Complete(0));
    assert [Note(0), Read(0)] + [Mark, Arrive([b]), Complete(0)] == [Note(0), Read(0), Mark, Arrive([b]), Complete(0)];
  }

  lemma OneStep(size: nat, s: State, a: Step)
    ensures Run(size, s, [a]) == Next(size, s, a)
  {
    assert Init([a]) == [];
  }

  lemma TwoSteps(size: nat, s: State, a: Step, b: Step)
    ensures Run(size, s, [a, b]) == Next(size, Next(size, s, a), b)
  {
    assert Init([a, b]) == [a];
    OneStep(size, s, a);
  }

  lemma ThreeSteps(size: nat, s: State, a: Step, b: Step, c: Step)
    ensures Run(size, s, [a, b, c]) == Next(size, Next(size, Next(size, s, a), b), c)
  {
    assert Init([a, b, c]) == [a, b];
    TwoSteps(size, s, a, b);
  }

  lemma RunConcat(size: nat, s: State, a: seq<Step>, b: seq<Step>)
    ensures Run(size, s, a + b) == Run(size, Run(size, s, a), b)
  {
    if b == [] {
      assert a + b == a;
    } else {
      RunConcat(size, s, a, Init(b));
      assert Init(a + b) == a + Init(b);
    }
  }

  // ---- The code ----

  /** One call of getOutput: what is written before it, and between its two critical sections. */
  datatype Poll = Poll(before: Str, inside: Str)

  /** The polling of reader 0. */
  function Polls(polls: seq<Poll>): seq<Step> {
    if polls == [] then [] else Polls(Init(polls)) + Looks(Last(polls))
  }

  function Looks(poll: Poll): seq<Step> {
    [Arrive(poll.before), Note(0)] + [Arrive(poll.inside), Read(0)]
  }

  /** What one look does. */
  function Looked(size: nat, s: State, poll: Poll): State {
    Next(size, Next(size, Next(size, Next(size, s, Arrive(poll.before)), Note(0)), Arrive(poll.inside)), Read(0))
  }

  lemma PollsOnce(size: nat, s: State, polls: seq<Poll>)
    requires polls != []
    ensures Run(size, s, Polls(polls)) == Looked(size, Run(size, s, Polls(Init(polls))), Last(polls))
  {
    var before := Run(size, s, Polls(Init(polls)));
    var poll := Last(polls);
    RunConcat(size, s, Polls(Init(polls)), Looks(poll));
    RunConcat(size, before, [Arrive(poll.before), Note(0)], [Arrive(poll.inside), Read(0)]);
    TwoSteps(size, before, Arrive(poll.before), Note(0));
    TwoSteps(size, Run(size, before, [Arrive(poll.before), Note(0)]), Arrive(poll.inside), Read(0));
  }

  /** The polling loop: when it stops is a matter of time. */
  method WaitForSettleCtx(rb: RingBuffer, polls: seq<Poll>) returns (output: Str)
    requires rb.Valid() && polls != []
    modifies rb`head, rb`written, rb`notify, rb`log, rb.buf
    ensures rb.Valid()
    ensures var s := Run(rb.size, Start(old(rb.log), rb.markSnapshot), Polls(polls));
            rb.log == s.log && s.mark == rb.markSnapshot && 0 in s.readers && 0 !in s.noted
                && output == s.readers[0].text
  {
    ghost var start := Start(rb.log, rb.markSnapshot);
    output := [];
    for i := 0 to |polls|
      invariant rb.Valid()
      invariant var s := Run(rb.size, start, Polls(polls[..i]));
                && rb.log == s.log && s.mark == rb.markSnapshot && 0 !in s.noted
                && (i > 0 ==> 0 in s.readers && output == s.readers[0].text)
    {
      var _ := rb.Write(polls[i].before);
      output := rb.SinceMark(polls[i].inside);
      assert Init(polls[..i + 1]) == polls[..i] && Last(polls[..i + 1]) == polls[i];
      PollsOnce(rb.size, start, polls[..i + 1]);
    }
    assert polls[..|polls|] == polls;
  }

  /** ReadScreen: `late` is written between the last observation and the advance of the mark. */
  method ReadScreen(rb: RingBuffer, polls: seq<Poll>, late: Str, cancelled: bool) returns (output: Str)
    requires rb.Valid() && polls != []
    modifies rb, rb.buf
    ensures rb.Valid()
    ensures var looked := Run(rb.size, Start(old(rb.log), old(rb.markSnapshot)), Polls(polls));
            var s := Run(rb.size, looked, [Arrive(late), if cancelled then Cancel(0) else Complete(0)]);
            && rb.log == s.log && rb.markSnapshot == s.mark
            && 0 in looked.readers && output == if cancelled then [] else looked.readers[0].text
  {
    ghost var start := Start(rb.log, rb.markSnapshot);
    output := WaitForSettleCtx(rb, polls);
    ghost var looked := Run(rb.size, start, Polls(polls));
    TwoSteps(rb.size, looked, Arrive(late), if cancelled then Cancel(0) else Complete(0));
    var _ := rb.Write(late);
    if cancelled {
      return [];
    }
    rb.AdvanceMarkBy(|output|);
  }
}
