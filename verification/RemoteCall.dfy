/** The request/response protocol between RemoteSession.call (internal/session/remote.go) and handleConn
    (internal/aitx/server.go) on one connection, with any number of concurrent callers. */
module RemoteCall {
  import opened Bytes

  /** Ids are "r1", "r2", ... on the wire; `from` records which call a request belongs to and which request a response
      answers. */
  datatype Request = Request(id: nat, from: nat)
  datatype Response = Response(id: nat, answers: nat)

  /** `sent` is the id of the call's own request. */
  datatype Outcome = Got(sent: nat, resp: Response) | WriteError | Closed | Unparsed

  datatype Pc =
    | Waiting           // for the mutex
    | Entered           // has the mutex; the request is next
    | Sent(id: nat)     // the request is written, blocked in scanner.Scan
    | Leaving(o: Outcome)
    | Done(o: Outcome)

  /** `serving` is the request the server is handling. `broken` says that the scanner will deliver no whole line again:
      a scan has failed, or has delivered the unterminated last line of a connection that ended. After a line too long
      for it the scanner hands out the buffered beginning of that line once more (`leftover`). Neither piece is a JSON
      object. `replied` are all replies the server has sent. */
  datatype State = State(
    calls: seq<Pc>, mutex: Option<nat>, reqId: nat,
    toServer: seq<Request>, serving: Option<Request>, toClient: seq<Response>, broken: bool,
    leftover: bool, replied: seq<Response>)

  datatype Step =
    | Call                  // SendInput, PollRemote, Resize, Close, ...: a new call starts
    | Lock(c: nat)
    | Write(c: nat, ok: bool)  // a failed write delivers nothing
    | ServerRead
    | ServerReply
    | ScanOk(c: nat)
    | ScanFails(c: nat, tooLong: bool)
    | ScanLeftover(c: nat)
    | ScanUnterminated(c: nat)  // the connection ended within a line: Scan succeeds, the line does not parse
    | Unlock(c: nat)

  function Next(s: State, step: Step): State {
    match step
    case Call => s.(calls := s.calls + [Waiting])
    case Lock(c) =>
      if c < |s.calls| && s.calls[c] == Waiting && s.mutex.None?
      then s.(calls := s.calls[c := Entered], mutex := Some(c)) else s
    case Write(c, ok) =>
      if c < |s.calls| && s.calls[c] == Entered
      then if ok
           then s.(reqId := s.reqId + 1, calls := s.calls[c := Sent(s.reqId + 1)],
                   toServer := s.toServer + [Request(s.reqId + 1, c)])
           else s.(reqId := s.reqId + 1, calls := s.calls[c := Leaving(WriteError)])
      else s
    case ServerRead =>
      if s.serving.None? && s.toServer != []
      then s.(serving := Some(s.toServer[0]), toServer := s.toServer[1..]) else s
    case ServerReply =>
      if s.serving.Some?
      then
        var resp := Response(s.serving.value.id, s.serving.value.from);
        s.(serving := None, toClient := s.toClient + [resp], replied := s.replied + [resp])
      else s
    case ScanOk(c) =>
      if c < |s.calls| && s.calls[c].Sent? && !s.broken && s.toClient != []
      then s.(calls := s.calls[c := Leaving(Got(s.calls[c].id, s.toClient[0]))], toClient := s.toClient[1..]) else s
    case ScanFails(c, tooLong) =>
      if c < |s.calls| && s.calls[c].Sent?
      then s.(calls := s.calls[c := Leaving(Closed)], broken := true, leftover := tooLong && !s.broken) else s
    case ScanLeftover(c) =>
      if c < |s.calls| && s.calls[c].Sent? && s.leftover
      then s.(calls := s.calls[c := Leaving(Unparsed)], leftover := false) else s
    case ScanUnterminated(c) =>
      if c < |s.calls| && s.calls[c].Sent? && !s.broken
      then s.(calls := s.calls[c := Leaving(Unparsed)], broken := true) else s
    case Unlock(c) =>
      if c < |s.calls| && s.calls[c].Leaving?
      then s.(calls := s.calls[c := Done(s.calls[c].o)], mutex := None) else s
  }

  const INITIAL := State([], None, 0, [], None, [], false, false, [])

  function Run(steps: seq<Step>): State {
    if steps == [] then INITIAL else Next(Run(steps[..|steps| - 1]), steps[|steps| - 1])
  }

  /** Everything written and not yet answered to a caller, as (id, call) pairs in order. */
  function Outstanding(s: State): seq<(nat, nat)> {
    Replies(s.toClient)
    + (if s.serving.Some? then [(s.serving.value.id, s.serving.value.from)] else [])
    + Requests(s.toServer)
  }

  function Replies(rs: seq<Response>): (p: seq<(nat, nat)>)
    ensures |p| == |rs|
  {
    seq(|rs|, i requires 0 <= i < |rs| => (rs[i].id, rs[i].answers))
  }

  function Requests(rs: seq<Request>): (p: seq<(nat, nat)>)
    ensures |p| == |rs|
  {
    seq(|rs|, i requires 0 <= i < |rs| => (rs[i].id, rs[i].from))
  }

  predicate InCall(pc: Pc) {
    pc.Entered? || pc.Sent? || pc.Leaving?
  }

  /** While the scanner lives, what is outstanding is the request of the caller waiting for it, and nothing else. */
  ghost predicate Paired(s: State) {
    if s.mutex.Some? && s.mutex.value < |s.calls| && s.calls[s.mutex.value].Sent?
    then Outstanding(s) == [(s.calls[s.mutex.value].id, s.mutex.value)]
    else Outstanding(s) == []
  }

  /** The response a call got is the reply to its own request, with the id it sent. */
  predicate OwnAnswer(pc: Pc, c: nat) {
    (pc.Leaving? || pc.Done?) && pc.o.Got? ==> pc.o.resp == Response(pc.o.sent, c)
  }

  ghost predicate Inv(s: State) {
    && (forall c: nat :: c < |s.calls| && InCall(s.calls[c]) ==> s.mutex == Some(c))
    && (s.mutex.Some? ==> s.mutex.value < |s.calls| && InCall(s.calls[s.mutex.value]))
    && (!s.broken ==> Paired(s) && !s.leftover)
    && (forall c: nat :: c < |s.calls| ==> OwnAnswer(s.calls[c], c))
  }

  lemma StepKeepsMutex(s: State, step: Step)
    requires Inv(s)
    ensures var s' := Next(s, step);
            && (forall c: nat :: c < |s'.calls| && InCall(s'.calls[c]) ==> s'.mutex == Some(c))
            && (s'.mutex.Some? ==> s'.mutex.value < |s'.calls| && InCall(s'.calls[s'.mutex.value]))
  {}

  lemma StepKeepsPairing(s: State, step: Step)
    requires Inv(s)
    ensures !Next(s, step).broken ==> Paired(Next(s, step)) && !Next(s, step).leftover
  {
    if !s.broken {
      var s' := Next(s, step);
      match step
      case Call =>
      case Lock(c) =>
      case Write(c, ok) =>
      case ServerRead => HandOver(s);
      case ServerReply => HandBack(s);
      case ScanOk(c) =>
        if c < |s.calls| && s.calls[c].Sent? && s.toClient != [] {
          FirstReply(s, c);
        }
      case ScanFails(c, tooLong) =>
      case ScanLeftover(c) =>
      case ScanUnterminated(c) =>
      case Unlock(c) =>
    }
  }

  /** Inside the server a request only changes its place in the queue. */
  lemma HandOver(s: State)
    ensures Outstanding(Next(s, ServerRead)) == Outstanding(s)
  {}

  lemma HandBack(s: State)
    ensures Outstanding(Next(s, ServerReply)) == Outstanding(s)
  {}

  /** The response a live caller reads is the reply to its own request, with the same id. */
  lemma FirstReply(s: State, c: nat)
    requires Inv(s) && !s.broken && c < |s.calls| && s.calls[c].Sent? && s.toClient != []
    ensures s.toClient[0] == Response(s.calls[c].id, c)
    ensures |s.toClient| == 1 && s.serving.None? && s.toServer == []
  {
    assert Outstanding(s)[0] == (s.toClient[0].id, s.toClient[0].answers);
    assert |Outstanding(s)| == |s.toClient| + (if s.serving.Some? then 1 else 0) + |s.toServer|;
  }

  lemma StepKeepsAnswers(s: State, step: Step, c: nat)
    requires Inv(s) && c < |Next(s, step).calls|
    ensures OwnAnswer(Next(s, step).calls[c], c)
  {
    if c < |s.calls| {
      assert OwnAnswer(s.calls[c], c);
      if step == ScanOk(c) && s.calls[c].Sent? && !s.broken && s.toClient != [] {
        FirstReply(s, c);
      }
    }
  }

  lemma {:induction false} RunKeepsInv(steps: seq<Step>)
    ensures Inv(Run(steps))
  {
    if steps != [] {
      var before, step := Run(steps[..|steps| - 1]), steps[|steps| - 1];
      RunKeepsInv(steps[..|steps| - 1]);
      StepKeepsMutex(before, step);
      StepKeepsPairing(before, step);
      forall c: nat | c < |Run(steps).calls|
        ensures OwnAnswer(Run(steps).calls[c], c)
      {
        StepKeepsAnswers(before, step, c);
      }
    }
  }

  // ---- No reply is thrown away ----

  predicate HoldsReply(s: State, resp: Response) {
    && resp.answers < |s.calls|
    && (s.calls[resp.answers].Leaving? || s.calls[resp.answers].Done?)
    && s.calls[resp.answers].o == Got(resp.id, resp)
  }

  /** Every reply sent is on its way or is what its call got. */
  ghost predicate RepliesKept(s: State) {
    forall i :: 0 <= i < |s.replied| ==> s.replied[i] in s.toClient || HoldsReply(s, s.replied[i])
  }

  lemma StepKeepsReplies(s: State, step: Step)
    requires Inv(s) && RepliesKept(s)
    ensures RepliesKept(Next(s, step))
  {
    var s' := Next(s, step);
    forall i | 0 <= i < |s'.replied|
      ensures s'.replied[i] in s'.toClient || HoldsReply(s', s'.replied[i])
    {
      if i < |s.replied| {
        ReplyStays(s, step, s.replied[i]);
      }
    }
  }

  lemma ReplyStays(s: State, step: Step, resp: Response)
    requires Inv(s) && (resp in s.toClient || HoldsReply(s, resp))
    ensures resp in Next(s, step).toClient || HoldsReply(Next(s, step), resp)
  {
    if step.ScanOk? && step.c < |s.calls| && s.calls[step.c].Sent? && !s.broken && s.toClient != [] {
      FirstReply(s, step.c);
    }
  }

  // ---- How calls end ----

  /** As long as the scanner delivers whole lines, a call ends with a reply or because its request could not be
      written; and a call that could not write it ends so. */
  ghost predicate EndsRight(s: State) {
    forall c :: 0 <= c < |s.calls| && (s.calls[c].Leaving? || s.calls[c].Done?) ==>
      s.calls[c].o.Got? || s.calls[c].o.WriteError? || s.broken
  }

  lemma StepEndsRight(s: State, step: Step)
    requires Inv(s) && EndsRight(s)
    ensures EndsRight(Next(s, step))
  {}

  lemma {:induction false} RunKeepsReplies(steps: seq<Step>)
    ensures RepliesKept(Run(steps)) && EndsRight(Run(steps))
  {
    if steps != [] {
      var before := Run(steps[..|steps| - 1]);
      RunKeepsReplies(steps[..|steps| - 1]);
      RunKeepsInv(steps[..|steps| - 1]);
      StepKeepsReplies(before, steps[|steps| - 1]);
      StepEndsRight(before, steps[|steps| - 1]);
    }
  }

  /** Step `step` is the failed write of call `c`. */
  predicate FailsToWrite(s: State, step: Step, c: nat) {
    step == Write(c, false) && c < |s.calls| && s.calls[c] == Entered
  }

  predicate FailedToWrite(steps: seq<Step>, c: nat) {
    steps != [] &&
    (FailedToWrite(steps[..|steps| - 1], c) || FailsToWrite(Run(steps[..|steps| - 1]), steps[|steps| - 1], c))
  }

  /** A call that could not write its request, or is done having not been able to. */
  predicate HasWriteError(s: State, c: nat) {
    c < |s.calls| && (s.calls[c].Leaving? || s.calls[c].Done?) && s.calls[c].o.WriteError?
  }

  lemma {:induction false} WriteErrorExactlyWhen(steps: seq<Step>, c: nat)
    ensures HasWriteError(Run(steps), c) <==> FailedToWrite(steps, c)
  {
    if steps != [] {
      WriteErrorExactlyWhen(steps[..|steps| - 1], c);
      WriteErrorStep(Run(steps[..|steps| - 1]), steps[|steps| - 1], c);
    }
  }

  lemma WriteErrorStep(s: State, step: Step, c: nat)
    ensures HasWriteError(Next(s, step), c) <==> HasWriteError(s, c) || FailsToWrite(s, step, c)
  {}

  // ---- What every run guarantees ----

  /** RPC pairing: whatever calls run concurrently, a call that reads a response reads the server's reply to its own
      request: when Scan succeeds for it, the response carries the id it sent and answers it. */
  lemma EveryCallGetsItsOwnReply(steps: seq<Step>, c: nat)
    requires c < |Run(steps).calls|
    ensures var s := Run(steps);
            && (s.calls[c].Done? && s.calls[c].o.Got? ==> s.calls[c].o.resp == Response(s.calls[c].o.sent, c))
            && (s.calls[c].Sent? && !s.broken && s.toClient != [] ==> s.toClient[0] == Response(s.calls[c].id, c))
  {
    RunKeepsInv(steps);
    var s := Run(steps);
    assert OwnAnswer(s.calls[c], c);
    if s.calls[c].Sent? && !s.broken && s.toClient != [] {
      FirstReply(s, c);
    }
  }

  /** Until a read fails or brings a broken line, at most one request is outstanding on the connection. */
  lemma OneRequestAtATime(steps: seq<Step>)
    requires !Run(steps).broken
    ensures |Outstanding(Run(steps))| <= 1
  {
    RunKeepsInv(steps);
  }

  /** How many requests were written after a read had failed or had brought a broken line: by calls that do not look at
      `alive`, as Resize does not, or looked at it before. */
  function LateWrites(steps: seq<Step>): nat {
    if steps == [] then 0
    else
      var before, step := Run(steps[..|steps| - 1]), steps[|steps| - 1];
      LateWrites(steps[..|steps| - 1])
      + (if before.broken && step.Write? && step.ok && step.c < |before.calls| && before.calls[step.c] == Entered
         then 1 else 0)
  }

  /** How a step changes what is outstanding; a dead scanner takes nothing out. */
  lemma StepOutstanding(s: State, step: Step)
    ensures var n, n' := |Outstanding(s)|, |Outstanding(Next(s, step))|;
            match step
            case Write(c, ok) => n' == n + if ok && c < |s.calls| && s.calls[c] == Entered then 1 else 0
            case ScanOk(c) => s.broken ==> n' == n
            case _ => n' == n
  {}

  /** The scanner dies under the caller that waits for the answer to the one request outstanding. */
  lemma ScannerDies(s: State, step: Step)
    requires Inv(s) && !s.broken && Next(s, step).broken
    ensures |Outstanding(Next(s, step))| == 1
  {
    assert s.calls[step.c].Sent? && s.mutex == Some(step.c);
    StepOutstanding(s, step);
  }

  /** In every run at most one request is outstanding exactly when none was written after such a read; after one, each
      such write adds a request that stays. No caller can read a wrong reply then, as no read succeeds. */
  lemma {:induction false} OutstandingExactly(steps: seq<Step>)
    ensures var s := Run(steps);
            && (s.broken ==> |Outstanding(s)| == 1 + LateWrites(steps))
            && (!s.broken ==> LateWrites(steps) == 0)
            && (|Outstanding(s)| <= 1 <==> LateWrites(steps) == 0)
  {
    RunKeepsInv(steps);
    if steps != [] {
      var before, step := Run(steps[..|steps| - 1]), steps[|steps| - 1];
      OutstandingExactly(steps[..|steps| - 1]);
      RunKeepsInv(steps[..|steps| - 1]);
      if before.broken {
        StepOutstanding(before, step);
      } else if Run(steps).broken {
        ScannerDies(before, step);
      }
    }
  }

  /** Such a run: a call finds the connection closed, and a second one writes its request all the same. */
  lemma DeadScannerPilesUp()
    ensures var s := Next(Next(Next(AfterDeadRead(), Call), Lock(1)), Write(1, true));
            s.broken && |s.toServer| == 2
  {}

  /** The same without any read having failed: the first call got a broken line, which leaves `alive` set. */
  lemma BrokenLinePilesUp()
    ensures var broken := Next(Next(Next(Next(INITIAL, Call), Lock(0)), Write(0, true)), ScanUnterminated(0));
            var s := Next(Next(Next(Next(broken, Unlock(0)), Call), Lock(1)), Write(1, true));
            s.calls[0] == Done(Unparsed) && |s.toServer| == 2
  {
    var sent := Next(Next(Next(INITIAL, Call), Lock(0)), Write(0, true));
    var free := Next(Next(sent, ScanUnterminated(0)), Unlock(0));
    assert free.calls == [Done(Unparsed)] && free.mutex.None? && |free.toServer| == 1;
    var locked := Next(Next(free, Call), Lock(1));
    assert locked.calls == [Done(Unparsed), Entered] && locked.toServer == free.toServer;
  }

  /** One call that sent its request and found the connection closed. */
  function AfterDeadRead(): State {
    Next(Next(Next(Next(Next(INITIAL, Call), Lock(0)), Write(0, true)), ScanFails(0, false)), Unlock(0))
  }

  /** No reply is thrown away: in every run each reply the server has sent is still on its way or is what the one call
      it answers has got. And while the scanner delivers whole lines, every call that is done holds its own reply,
      unless its request could not be written. */
  lemma NoReplyIsLost(steps: seq<Step>, resp: Response, c: nat)
    requires resp in Run(steps).replied && c < |Run(steps).calls|
    ensures var s := Run(steps);
            && (resp in s.toClient || HoldsReply(s, resp))
            && (s.calls[c].Done? && !s.broken ==>
                  if FailedToWrite(steps, c) then s.calls[c].o == WriteError
                  else s.calls[c].o.Got? && s.calls[c].o.resp == Response(s.calls[c].o.sent, c))
  {
    RunKeepsReplies(steps);
    if Run(steps).calls[c].Done? {
      DoneCallsHaveTheirReply(steps, c);
    }
  }

  /** The same of the calls alone, replies or not. */
  lemma DoneCallsHaveTheirReply(steps: seq<Step>, c: nat)
    requires c < |Run(steps).calls| && Run(steps).calls[c].Done?
    ensures var s := Run(steps);
            && (FailedToWrite(steps, c) <==> s.calls[c].o == WriteError)
            && (!s.broken && !FailedToWrite(steps, c) ==>
                  s.calls[c].o.Got? && s.calls[c].o.resp == Response(s.calls[c].o.sent, c))
  {
    RunKeepsReplies(steps);
    RunKeepsInv(steps);
    WriteErrorExactlyWhen(steps, c);
    assert OwnAnswer(Run(steps).calls[c], c);
  }

  // ---- Calls get through ----

  lemma OneOutstanding(s: State, c: nat)
    requires Inv(s) && !s.broken && c < |s.calls| && s.calls[c].Sent?
    ensures Outstanding(s) == [(s.calls[c].id, c)]
    ensures |s.toClient| + (if s.serving.Some? then 1 else 0) + |s.toServer| == 1
  {
    assert |Outstanding(s)| == |s.toClient| + (if s.serving.Some? then 1 else 0) + |s.toServer|;
  }

  /** What remains to be done for the caller that has the mutex; steps that are not its next ones change nothing. */
  function Finish(s: State, c: nat): State {
    Next(Next(Next(Next(Next(s, Write(c, true)), ServerRead), ServerReply), ScanOk(c)), Unlock(c))
  }

  /** Nothing of the other calls, and the connection is free. */
  predicate Frees(s: State, s': State, c: nat) {
    && s'.mutex.None? && !s'.broken && |s'.calls| == |s.calls|
    && forall k :: 0 <= k < |s.calls| && k != c ==> s'.calls[k] == s.calls[k]
  }

  lemma SentFinishes(s: State, c: nat)
    requires Inv(s) && !s.broken && c < |s.calls| && s.calls[c].Sent?
    ensures Frees(s, Finish(s, c), c)
    ensures Finish(s, c).calls[c] == Done(Got(s.calls[c].id, Response(s.calls[c].id, c)))
  {
    assert Next(s, Write(c, true)) == s;
    var served := Next(s, ServerRead);
    var replied := Next(served, ServerReply);
    HandOver(s);
    HandBack(served);
    OneOutstanding(s, c);
    assert replied.toServer == [] && replied.serving.None? && |replied.toClient| == 1;
    assert Outstanding(replied)[0] == (replied.toClient[0].id, replied.toClient[0].answers);
    assert replied.calls == s.calls && replied.mutex == s.mutex;
  }

  lemma EnteredFinishes(s: State, c: nat)
    requires Inv(s) && !s.broken && c < |s.calls| && s.calls[c] == Entered
    ensures Frees(s, Finish(s, c), c)
    ensures var id := s.reqId + 1; Finish(s, c).calls[c] == Done(Got(id, Response(id, c)))
  {
    var sent := Next(s, Write(c, true));
    StepKeepsMutex(s, Write(c, true));
    StepKeepsPairing(s, Write(c, true));
    forall k: nat | k < |sent.calls|
      ensures OwnAnswer(sent.calls[k], k)
    {
      StepKeepsAnswers(s, Write(c, true), k);
    }
    SentFinishes(sent, c);
    assert Finish(sent, c) == Finish(s, c);
  }

  lemma LeavingFinishes(s: State, c: nat)
    requires Inv(s) && !s.broken && c < |s.calls| && s.calls[c].Leaving?
    ensures Frees(s, Finish(s, c), c)
  {
    assert s.mutex == Some(c) && Outstanding(s) == [];
    assert |Outstanding(s)| == |s.toClient| + (if s.serving.Some? then 1 else 0) + |s.toServer|;
  }

  /** From every reachable state in which the scanner still delivers, a call that waits for the mutex can get in and
      get the reply to its request: the holder, if any, finishes first. */
  lemma WaitingCallsGetTheirReply(steps: seq<Step>, c: nat)
    requires c < |Run(steps).calls| && Run(steps).calls[c] == Waiting && !Run(steps).broken
    ensures var s := Run(steps);
            var free := if s.mutex.Some? then Finish(s, s.mutex.value) else s;
            var s' := Finish(Next(free, Lock(c)), c);
            c < |s'.calls| && s'.calls[c].Done? && s'.calls[c].o.Got?
                && s'.calls[c].o.resp == Response(s'.calls[c].o.sent, c)
  {
    var s := Run(steps);
    RunKeepsInv(steps);
    var free := if s.mutex.Some? then Finish(s, s.mutex.value) else s;
    if s.mutex.Some? {
      var k := s.mutex.value;
      if s.calls[k].Sent? {
        SentFinishes(s, k);
      } else if s.calls[k] == Entered {
        EnteredFinishes(s, k);
      } else {
        LeavingFinishes(s, k);
      }
      FinishKeepsInv(s, k);
    }
    assert free.calls[c] == Waiting && free.mutex.None?;
    StepKeepsInv(free, Lock(c));
    EnteredFinishes(Next(free, Lock(c)), c);
  }

  lemma StepKeepsInv(s: State, step: Step)
    requires Inv(s)
    ensures Inv(Next(s, step))
  {
    StepKeepsMutex(s, step);
    StepKeepsPairing(s, step);
    forall k: nat | k < |Next(s, step).calls|
      ensures OwnAnswer(Next(s, step).calls[k], k)
    {
      StepKeepsAnswers(s, step, k);
    }
  }

  lemma FinishKeepsInv(s: State, c: nat)
    requires Inv(s)
    ensures Inv(Finish(s, c))
  {
    var written := Next(s, Write(c, true));
    StepKeepsInv(s, Write(c, true));
    StepKeepsInv(written, ServerRead);
    var replied := Next(Next(written, ServerRead), ServerReply);
    StepKeepsInv(Next(written, ServerRead), ServerReply);
    StepKeepsInv(replied, ScanOk(c));
    StepKeepsInv(Next(replied, ScanOk(c)), Unlock(c));
  }
}
