/**
 The handshake between the calls of a Lambda function and their results.  A receive loop makes calls, a send
 loop fetches results and may start a further call for each, and every call hands its result over in a
 rendezvous on one channel.  All threads interleave at the level of single reads and writes of what they share.
 A step that the runtime answers with a panic (sending on the closed channel, closing it twice) is no step of
 a run: a run is what happens before.
 */
module Handshake {

  /** What a call returns: nothing, the end-of-stream marker, or any other error. */
  datatype Ret = Nil | Eof | Failed

  /** Where a call is: before it raises `isLastResult`; with the flag raised; with it lowered again; with the
      timer dealt with; at the rendezvous; past it but before the check of the flag; past the check; returned. */
  datatype Phase =
    | Working
    | Raised
    | Lowered
    | Armed
    | Ready(ret: Ret)
    | Checking(ret: Ret)
    | Leaving(ret: Ret)
    | Returned(ret: Ret)

  datatype Call = Call(byReceiver: bool, phase: Phase)

  datatype Receiver = Idle | InCall | Over

  /** Where the send loop is: at the rendezvous, past it, after counting the result, after reading the flag as
      not raised, after starting a call if there is a timer, sending the result, or done. */
  datatype Sender = Waiting | Received | Counted | GoingOn | Started | Sending(last: bool) | Ended

  datatype State = State(calls: seq<Call>, receiver: Receiver, sender: Sender, isLastResult: bool, timer: bool,
                         resultCount: nat, streamError: Ret, closed: bool)

  datatype Step =
    | Receive                     // the receive loop gets a message and calls
    | ReceiveEnd                  // the receive loop gets none
    | Fail(i: nat)                // a call fails before it has a response
    | Raise(i: nat)
    | Settle(i: nat, ret: Ret)    // any status but the one for server streaming
    | Lower(i: nat)               // the status for server streaming
    | Reject(i: nat)              // a timeout header that does not parse
    | Arm(i: nat, header: bool)   // with or without a timeout header
    | Answer(i: nat)
    | Meet(i: nat)                // the rendezvous of a call and the send loop
    | MeetClosed                  // the closed channel lets the send loop pass
    | Check(i: nat)
    | Return(i: nat)
    | Count
    | ReadFlag
    | Start
    | Give                        // reads the stream error
    | Send(ok: bool)

  const INITIAL := State([], Idle, Waiting, false, false, 0, Nil, false)

  predicate At(s: State, i: nat, phase: Phase) {
    i < |s.calls| && s.calls[i].phase == phase
  }

  function Move(s: State, i: nat, phase: Phase): State
    requires i < |s.calls|
  {
    s.(calls := s.calls[i := s.calls[i].(phase := phase)])
  }

  predicate AtRendezvous(s: State, i: nat) {
    i < |s.calls| && s.calls[i].phase.Ready?
  }

  predicate AtCheck(s: State, i: nat) {
    i < |s.calls| && s.calls[i].phase.Checking?
  }

  predicate AtReturn(s: State, i: nat) {
    i < |s.calls| && s.calls[i].phase.Leaving?
  }

  /** One step; a step that is not enabled changes nothing. */
  function Next(s: State, step: Step): State {
    match step
    case Receive =>
      if s.receiver == Idle then s.(calls := s.calls + [Call(true, Working)], receiver := InCall) else s
    case ReceiveEnd => if s.receiver == Idle then s.(receiver := Over) else s
    case Fail(i) => if At(s, i, Working) then Move(s, i, Ready(Failed)) else s
    case Raise(i) => if At(s, i, Working) then Move(s, i, Raised).(isLastResult := true) else s
    case Settle(i, ret) => if At(s, i, Raised) && ret != Nil then Move(s, i, Ready(ret)) else s
    case Lower(i) => if At(s, i, Raised) then Move(s, i, Lowered).(isLastResult := false) else s
    case Reject(i) => if At(s, i, Lowered) then Move(s, i, Ready(Failed)) else s
    case Arm(i, header) => if At(s, i, Lowered) then Move(s, i, Armed).(timer := s.timer || header) else s
    case Answer(i) => if At(s, i, Armed) then Move(s, i, Ready(if s.resultCount > 0 then Nil else Eof)) else s
    case Meet(i) =>
      if AtRendezvous(s, i) && s.sender == Waiting && !s.closed
      then Move(s, i, Checking(s.calls[i].phase.ret)).(sender := Received) else s
    case MeetClosed => if s.closed && s.sender == Waiting then s.(sender := Received) else s
    case Check(i) =>
      if AtCheck(s, i) && !(s.isLastResult && s.closed)
      then Move(s, i, Leaving(s.calls[i].phase.ret)).(closed := s.closed || s.isLastResult) else s
    case Return(i) =>
      if !AtReturn(s, i) then s
      else
        var ret := s.calls[i].phase.ret;
        var s' := Move(s, i, Returned(ret));
        if s.calls[i].byReceiver then s'.(receiver := if ret == Nil then Idle else Over) else s'.(streamError := ret)
    case Count => if s.sender == Received then s.(sender := Counted, resultCount := s.resultCount + 1) else s
    case ReadFlag =>
      if s.sender == Counted then s.(sender := if s.isLastResult then Sending(true) else GoingOn) else s
    case Start =>
      if s.sender != GoingOn then s
      else s.(sender := Started, calls := s.calls + if s.timer then [Call(false, Working)] else [])
    case Give =>
      if s.sender != Started then s
      else s.(sender := if s.streamError == Failed then Ended else Sending(s.streamError == Eof))
    case Send(ok) => if s.sender.Sending? then s.(sender := if ok && !s.sender.last then Waiting else Ended) else s
  }

  /** The state that some steps lead to from the start. */
  function After(steps: seq<Step>): State {
    if steps == [] then INITIAL else Next(After(steps[..|steps| - 1]), steps[|steps| - 1])
  }

  /** A call that has yet to pass its rendezvous. */
  predicate Pending(c: Call) {
    c.phase.Working? || c.phase.Raised? || c.phase.Lowered? || c.phase.Armed? || c.phase.Ready?
  }

  ghost predicate TwoPending(s: State) {
    exists i, j :: 0 <= i < j < |s.calls| && Pending(s.calls[i]) && Pending(s.calls[j])
  }

  // ----- calls and results -----

  /** While the first call has not passed its rendezvous nothing else has happened, so it is never told to
      return nothing; and every other call was started for a result already counted. */
  ghost predicate Accounted(s: State) {
    && (s.receiver == Idle ==> s.calls == [])
    && (s.calls == [] ==> s.sender == Waiting && !s.closed && s.resultCount == 0)
    && (forall i :: 0 <= i < |s.calls| ==> (s.calls[i].byReceiver <==> i == 0))
    && (s.calls != [] && Pending(s.calls[0]) ==>
         s.sender == Waiting && !s.closed && s.resultCount == 0 && |s.calls| == 1)
    && (s.calls != [] ==> NotNil(s.calls[0].phase))
    && (|s.calls| > 1 ==> s.timer)
    && |s.calls| + (if s.sender == Counted || s.sender == GoingOn then 1 else 0) <= s.resultCount + 1
  }

  /** The call does not know yet what it returns. */
  predicate Before(phase: Phase) {
    phase.Working? || phase.Raised? || phase.Lowered? || phase.Armed?
  }

  predicate NotNil(phase: Phase) {
    Before(phase) || phase.ret != Nil
  }

  /** The steps by which a call gets from its start to its rendezvous. */
  predicate Computing(step: Step) {
    step.Fail? || step.Raise? || step.Settle? || step.Lower? || step.Reject? || step.Arm? || step.Answer?
  }

  /** What computing leaves alone: which calls there are, who made them, and which are pending. */
  lemma ComputingKeeps(s: State, step: Step)
    requires Computing(step)
    ensures
      var s' := Next(s, step);
      && |s'.calls| == |s.calls|
      && (forall k :: 0 <= k < |s.calls| ==>
            && s'.calls[k].byReceiver == s.calls[k].byReceiver
            && (Pending(s'.calls[k]) <==> Pending(s.calls[k]))
            && (s'.calls[k] == s.calls[k] || (Pending(s.calls[k]) && k == step.i)))
      && s' == s.(calls := s'.calls, isLastResult := s'.isLastResult, timer := s'.timer)
      && (s.timer ==> s'.timer)
  {
    if Next(s, step) != s {
      assert step.i < |s.calls| && Pending(s.calls[step.i]);
      assert exists phase :: Next(s, step).calls == s.calls[step.i := s.calls[step.i].(phase := phase)];
    }
  }

  lemma ComputingNotNil(s: State, step: Step)
    requires Computing(step) && s.resultCount == 0 && s.calls != [] && NotNil(s.calls[0].phase)
    ensures Next(s, step).calls != [] && NotNil(Next(s, step).calls[0].phase)
  {
  }

  lemma AccountedNext(s: State, step: Step)
    requires Accounted(s)
    ensures Accounted(Next(s, step))
  {
    if Computing(step) {
      ComputingKeeps(s, step);
      if s.calls != [] && Pending(s.calls[0]) {
        ComputingNotNil(s, step);
      }
      hide Next, Pending;
    } else if step.Meet? || step.Check? || step.Return? {
      AccountedPassing(s, step);
    }
  }

  lemma AccountedPassing(s: State, step: Step)
    requires Accounted(s) && (step.Meet? || step.Check? || step.Return?)
    ensures Accounted(Next(s, step))
  {
  }

  lemma {:induction false} AlwaysAccounted(steps: seq<Step>)
    ensures Accounted(After(steps))
  {
    if steps != [] {
      hide Accounted, Next;
      AlwaysAccounted(steps[..|steps| - 1]);
      AccountedNext(After(steps[..|steps| - 1]), steps[|steps| - 1]);
    }
  }

  function ReceiverCalls(calls: seq<Call>): nat {
    if calls == [] then 0 else ReceiverCalls(calls[..|calls| - 1]) + if calls[|calls| - 1].byReceiver then 1 else 0
  }

  lemma {:induction false} OnlyFirst(calls: seq<Call>)
    requires forall i :: 0 <= i < |calls| ==> (calls[i].byReceiver <==> i == 0)
    ensures ReceiverCalls(calls) == if calls == [] then 0 else 1
  {
    if calls != [] {
      OnlyFirst(calls[..|calls| - 1]);
    }
  }

  /** In every interleaving the receive loop calls at most once, and the calls started are never more than the
      results counted plus one. */
  lemma CallsBounded(steps: seq<Step>)
    ensures ReceiverCalls(After(steps).calls) <= 1
    ensures |After(steps).calls| <= After(steps).resultCount + 1
  {
    AlwaysAccounted(steps);
    OnlyFirst(After(steps).calls);
  }

  // ----- what calls are told -----

  /** In every run, a call that answers as a stream is told the end of the stream if the receive loop made it, and
      nothing if the send loop started it. */
  lemma StreamAnswers(steps: seq<Step>, i: nat)
    requires At(After(steps), i, Armed)
    ensures
      var c := After(steps + [Answer(i)]).calls[i];
      && c.byReceiver == After(steps).calls[i].byReceiver
      && (c.phase == Ready(Eof) <==> c.byReceiver) && (c.phase == Ready(Nil) <==> !c.byReceiver)
  {
    AlwaysAccounted(steps);
    AfterMore(steps, Answer(i));
  }

  /** A call of the send loop comes to its last result or to an error. */
  predicate Breaks(s: State, step: Step) {
    (step.Settle? || step.Fail? || step.Reject?) && step.i < |s.calls| && !s.calls[step.i].byReceiver
  }

  ghost predicate NeverBreaks(steps: seq<Step>) {
    forall k :: 0 <= k < |steps| ==> !Breaks(After(steps[..k]), steps[k])
  }

  /** The send loop has met no error, and its calls return none. */
  ghost predicate Smooth(s: State) {
    && s.streamError == Nil
    && forall i :: 0 <= i < |s.calls| && !s.calls[i].byReceiver ==>
         Before(s.calls[i].phase) || s.calls[i].phase.ret == Nil
  }

  lemma SmoothNext(s: State, step: Step)
    requires Accounted(s) && Smooth(s) && !Breaks(s, step)
    ensures Smooth(Next(s, step))
  {
    if Computing(step) {
      SmoothComputing(s, step);
    } else if step.Meet? || step.Check? || step.Return? {
      SmoothPassing(s, step);
    } else {
      hide Accounted, Breaks;
    }
  }

  lemma SmoothComputing(s: State, step: Step)
    requires Accounted(s) && Computing(step) && Smooth(s) && !Breaks(s, step)
    ensures Smooth(Next(s, step))
  {
  }

  lemma SmoothPassing(s: State, step: Step)
    requires Accounted(s) && Smooth(s) && (step.Meet? || step.Check? || step.Return?)
    ensures Smooth(Next(s, step))
  {
    hide Breaks;
  }

  /** As long as no call of the send loop settles or fails, the send loop meets no error. */
  lemma {:induction false} AlwaysSmooth(steps: seq<Step>)
    requires NeverBreaks(steps)
    ensures Smooth(After(steps))
  {
    if steps != [] {
      var init := steps[..|steps| - 1];
      assert forall k :: 0 <= k < |init| ==> init[..k] == steps[..k];
      AlwaysSmooth(init);
      AlwaysAccounted(init);
      hide Accounted, Smooth, Next, Breaks;
      SmoothNext(After(init), steps[|steps| - 1]);
    }
  }

  /** The step at which the send loop stops: it reads the flag as raised, or a send fails. */
  predicate Stops(s: State, step: Step) {
    (step == ReadFlag && s.sender == Counted && s.isLastResult) || (step == Send(false) && s.sender.Sending?)
  }

  lemma StopsNext(s: State, step: Step)
    requires Smooth(s) && !(s.sender == Ended || s.sender == Sending(true))
    requires Next(s, step).sender == Ended || Next(s, step).sender == Sending(true)
    ensures Stops(s, step)
  {
  }

  /** And it stops only through the flag of the last result or a send that fails. */
  lemma {:induction false} StreamGoesOn(steps: seq<Step>)
    requires NeverBreaks(steps)
    ensures After(steps).streamError == Nil
    ensures After(steps).sender == Ended || After(steps).sender == Sending(true) ==>
              exists k :: 0 <= k < |steps| && Stops(After(steps[..k]), steps[k])
  {
    AlwaysSmooth(steps);
    if steps != [] && (After(steps).sender == Ended || After(steps).sender == Sending(true)) {
      var n := |steps| - 1;
      var init := steps[..n];
      assert forall k :: 0 <= k < n ==> init[..k] == steps[..k];
      StreamGoesOn(init);
      AlwaysSmooth(init);
      hide Smooth, Next, Stops;
      if After(init).sender == Ended || After(init).sender == Sending(true) {
        var k :| 0 <= k < n && Stops(After(init[..k]), init[k]);
        assert Stops(After(steps[..k]), steps[k]);
      } else {
        StopsNext(After(init), steps[n]);
        assert Stops(After(steps[..n]), steps[n]);
      }
    }
  }

  lemma TimerNext(s: State, step: Step)
    ensures Next(s, step).timer <==> s.timer || Arms(s, step)
  {
  }

  ghost predicate HeaderSeen(steps: seq<Step>) {
    exists k :: 0 <= k < |steps| && Arms(After(steps[..k]), steps[k])
  }

  lemma ArmedMore(steps: seq<Step>)
    requires steps != []
    ensures
      var n := |steps| - 1;
      HeaderSeen(steps) <==> HeaderSeen(steps[..n]) || Arms(After(steps[..n]), steps[n])
  {
    hide After, Arms;
    var n := |steps| - 1;
    var init := steps[..n];
    assert forall k :: 0 <= k < n ==> init[..k] == steps[..k] && init[k] == steps[k];
    if k :| 0 <= k < n && Arms(After(init[..k]), init[k]) {
      assert Arms(After(steps[..k]), steps[k]);
    }
    if k :| 0 <= k < |steps| && Arms(After(steps[..k]), steps[k]) {
      if k < n {
        assert Arms(After(init[..k]), init[k]);
      }
    }
  }

  /** The timer is there if and only if some call was answered with a timeout header. */
  lemma {:induction false} TimerExact(steps: seq<Step>)
    ensures After(steps).timer <==> HeaderSeen(steps)
  {
    if steps != [] {
      var n := |steps| - 1;
      TimerExact(steps[..n]);
      ArmedMore(steps);
      hide HeaderSeen, Next, Arms;
      TimerNext(After(steps[..n]), steps[n]);
    }
  }

  predicate Arms(s: State, step: Step) {
    step.Arm? && step.header && At(s, step.i, Lowered)
  }

  // ----- how many results -----

  /** The calls that have passed their rendezvous. */
  function Passed(calls: seq<Call>): nat {
    if calls == [] then 0 else Passed(calls[..|calls| - 1]) + if Pending(calls[|calls| - 1]) then 0 else 1
  }

  lemma {:induction false} PassedUpdate(calls: seq<Call>, i: nat, c: Call)
    requires i < |calls|
    ensures Passed(calls[i := c]) + (if Pending(calls[i]) then 0 else 1) == Passed(calls) + if Pending(c) then 0 else 1
  {
    var n := |calls| - 1;
    if i == n {
      assert calls[i := c][..n] == calls[..n];
    } else {
      assert calls[i := c][..n] == calls[..n][i := c];
      PassedUpdate(calls[..n], i, c);
    }
  }

  lemma PassedMore(calls: seq<Call>, c: Call)
    ensures Passed(calls + [c]) == Passed(calls) + if Pending(c) then 0 else 1
  {
    assert (calls + [c])[..|calls|] == calls;
  }

  /** While the channel is open, the results received are those of the calls that have passed the rendezvous. */
  ghost predicate Tallied(s: State) {
    s.closed || s.resultCount + (if s.sender == Received then 1 else 0) == Passed(s.calls)
  }

  lemma {:induction false} PassedSame(calls: seq<Call>, others: seq<Call>)
    requires |calls| == |others| && forall k :: 0 <= k < |calls| ==> (Pending(calls[k]) <==> Pending(others[k]))
    ensures Passed(calls) == Passed(others)
  {
    if calls != [] {
      PassedSame(calls[..|calls| - 1], others[..|others| - 1]);
    }
  }

  lemma TalliedComputing(s: State, step: Step)
    requires Tallied(s) && Computing(step)
    ensures Tallied(Next(s, step))
  {
    ComputingKeeps(s, step);
    hide Next, Passed, Pending;
    PassedSame(s.calls, Next(s, step).calls);
  }

  lemma TalliedMore(s: State, step: Step)
    requires Tallied(s) && (step.Receive? || step.Start?)
    ensures Tallied(Next(s, step))
  {
    hide Passed;
    PassedMore(s.calls, Call(step.Receive?, Working));
    assert s.calls + [] == s.calls;
  }

  lemma TalliedPassing(s: State, step: Step)
    requires Tallied(s) && (step.Meet? || step.Check? || step.Return?)
    ensures Tallied(Next(s, step))
  {
    hide Passed;
    var s' := Next(s, step);
    if s' != s {
      PassedUpdate(s.calls, step.i, s'.calls[step.i]);
    }
  }

  lemma TalliedNext(s: State, step: Step)
    requires Tallied(s)
    ensures Tallied(Next(s, step))
  {
    if Computing(step) {
      TalliedComputing(s, step);
    } else if step.Receive? || step.Start? {
      TalliedMore(s, step);
    } else if step.Meet? || step.Check? || step.Return? {
      TalliedPassing(s, step);
    } else {
      hide Passed;
    }
  }

  /** In every run: one result counted for each call past its rendezvous, until the channel is closed. */
  lemma {:induction false} ResultsExact(steps: seq<Step>)
    ensures Tallied(After(steps))
  {
    if steps != [] {
      hide Tallied, Next;
      ResultsExact(steps[..|steps| - 1]);
      TalliedNext(After(steps[..|steps| - 1]), steps[|steps| - 1]);
    }
  }

  // ----- at most one call is pending -----

  /** A check that sees the flag another call has raised and may lower again: it closes the channel although
      the last result is not there. */
  ghost predicate Premature(s: State, step: Step) {
    step.Check? && AtCheck(s, step.i) && !s.closed && s.isLastResult && exists d :: At(s, d, Raised)
  }

  /** The flag as the one pending call, if any, left it. */
  predicate FlagOf(s: State, phase: Phase) {
    match phase
    case Working => !s.isLastResult
    case Raised => s.isLastResult
    case Lowered => !s.isLastResult
    case Armed => !s.isLastResult
    case _ => true
  }

  ghost predicate Single(s: State) {
    && (forall i :: 0 <= i < |s.calls| - 1 ==> !Pending(s.calls[i]))
    && (s.calls == [] ==> !s.isLastResult && s.receiver != InCall)
    && (s.receiver == Idle ==> s.calls == [])
    && (s.calls != [] ==> FlagOf(s, s.calls[|s.calls| - 1].phase))
    && (s.sender == GoingOn ==> !s.isLastResult)
    && (if s.closed then
          s.isLastResult && forall i :: 0 <= i < |s.calls| && Pending(s.calls[i]) ==> s.calls[i].phase.Ready?
        else
          s.sender in {Received, Counted, GoingOn} ==> forall i :: 0 <= i < |s.calls| ==> !Pending(s.calls[i]))
  }

  lemma SingleCheck(s: State, i: nat)
    requires Accounted(s) && Single(s) && !Premature(s, Check(i))
    ensures Single(Next(s, Check(i)))
  {
    if s.calls != [] {
      assert At(s, |s.calls| - 1, Raised) <==> s.calls[|s.calls| - 1].phase == Raised;
    }
  }

  lemma SingleMore(s: State, step: Step)
    requires Accounted(s) && Single(s) && (step.Receive? || step.Start? || step.Meet? || step.MeetClosed?)
    ensures Single(Next(s, step))
  {
  }

  lemma SingleComputing(s: State, step: Step)
    requires Accounted(s) && Single(s) && Computing(step)
    ensures Single(Next(s, step))
  {
    ComputingKeeps(s, step);
    if s.calls != [] {
      FlagAfter(s, step);
    } else {
      assert Next(s, step) == s;
    }
    hide Next, Pending, Accounted;
  }

  lemma FlagAfter(s: State, step: Step)
    requires Computing(step) && s.calls != [] && FlagOf(s, s.calls[|s.calls| - 1].phase)
    ensures
      var s' := Next(s, step);
      s' == s || (Pending(s.calls[step.i]) && (step.i == |s.calls| - 1 ==> FlagOf(s', s'.calls[|s.calls| - 1].phase)))
  {
  }

  lemma SingleNext(s: State, step: Step)
    requires Accounted(s) && Single(s) && !Premature(s, step)
    ensures Single(Next(s, step))
  {
    if step.Check? {
      SingleCheck(s, step.i);
    } else if step.Receive? || step.Start? || step.Meet? || step.MeetClosed? {
      SingleMore(s, step);
    } else if Computing(step) {
      SingleComputing(s, step);
    } else {
      hide Accounted, Premature;
    }
  }

  /** No step of a run checks prematurely. */
  ghost predicate NeverPremature(steps: seq<Step>) {
    forall k :: 0 <= k < |steps| ==> !Premature(After(steps[..k]), steps[k])
  }

  lemma {:induction false} AlwaysSingle(steps: seq<Step>)
    requires NeverPremature(steps)
    ensures Single(After(steps))
  {
    if steps != [] {
      hide Accounted, Next, Single, Premature;
      var init := steps[..|steps| - 1];
      assert forall k :: 0 <= k < |init| ==> init[..k] == steps[..k];
      AlwaysSingle(init);
      AlwaysAccounted(init);
      SingleNext(After(init), steps[|steps| - 1]);
    } else {
      assert Single(INITIAL);
    }
  }

  /** At most one call has yet to pass its rendezvous, in every run without a premature check. */
  lemma OnePending(steps: seq<Step>)
    requires NeverPremature(steps)
    ensures !TwoPending(After(steps))
  {
    AlwaysSingle(steps);
  }

  /** Every rendezvous is followed by its check at once. */
  ghost predicate ChecksAtOnce(steps: seq<Step>) {
    forall k :: 0 <= k < |steps| - 1 && steps[k].Meet? ==> steps[k + 1] == Check(steps[k].i)
  }

  /** While the channel is open, a call waits for its check right after its rendezvous only. */
  ghost predicate JustMet(s: State, steps: seq<Step>) {
    forall i :: AtCheck(s, i) && !s.closed ==> steps != [] && steps[|steps| - 1] == Meet(i) && s.sender == Received
  }

  /** Only its rendezvous brings a call to its check. */
  lemma AtCheckNext(s: State, step: Step, i: nat)
    requires AtCheck(Next(s, step), i)
    ensures AtCheck(s, i) || (step == Meet(i) && Next(s, step).sender == Received)
    ensures s.closed ==> Next(s, step).closed
  {
    if Computing(step) {
      ComputingKeeps(s, step);
      hide Next, Computing;
    }
  }

  /** A call at its check is past it after the check, unless the channel is closed. */
  lemma CheckLeaves(s: State, i: nat)
    requires AtCheck(Next(s, Check(i)), i)
    ensures AtCheck(s, i) ==> Next(s, Check(i)).closed
  {
  }

  lemma JustMetNext(s: State, steps: seq<Step>, step: Step)
    requires JustMet(s, steps)
    requires steps != [] && steps[|steps| - 1].Meet? ==> step == Check(steps[|steps| - 1].i)
    ensures JustMet(Next(s, step), steps + [step])
  {
    forall i | AtCheck(Next(s, step), i) && !Next(s, step).closed
      ensures step == Meet(i) && Next(s, step).sender == Received
    {
      AtCheckNext(s, step, i);
      if step == Check(i) {
        CheckLeaves(s, i);
      }
      hide Next;
    }
    hide Next, AtCheck;
  }

  lemma {:induction false} AtOnceJustMet(steps: seq<Step>)
    requires ChecksAtOnce(steps)
    ensures JustMet(After(steps), steps)
  {
    if steps != [] {
      hide Next, JustMet;
      var init, last := steps[..|steps| - 1], steps[|steps| - 1];
      AtOnceJustMet(init);
      JustMetNext(After(init), init, last);
      assert init + [last] == steps;
    } else {
      assert JustMet(INITIAL, steps);
    }
  }

  /** With rendezvous and check as one step no check is premature, and so at most one call is pending. */
  lemma {:induction false} AtOnceNeverPremature(steps: seq<Step>)
    requires ChecksAtOnce(steps)
    ensures NeverPremature(steps)
  {
    if steps != [] {
      hide After, Next, Accounted;
      var init, last := steps[..|steps| - 1], steps[|steps| - 1];
      assert ChecksAtOnce(init) && forall k :: 0 <= k < |init| ==> init[..k] == steps[..k];
      AtOnceNeverPremature(init);
      AlwaysSingle(init);
      AtOnceJustMet(init);
      assert !Premature(After(init), last);
    }
  }

  /** The steps by which a premature check of call `i`, while call `d` has the flag up, does harm: `d` lowers
      the flag, and the send loop passes the closed channel and goes on to a further call. */
  function Harm(i: nat, d: nat): seq<Step> {
    [Check(i), Lower(d), MeetClosed, Count, ReadFlag, Start]
  }

  /** The send loop comes back to wait for a result, as it is not told to stop. */
  predicate ComesBack(s: State) {
    s.sender == Waiting || s.sender == Sending(false) || (s.sender == Started && s.streamError == Nil)
  }

  /** The steps by which it does. */
  function Back(sender: Sender): seq<Step> {
    match sender
    case Started => [Give, Send(true)]
    case Sending(_) => [Send(true)]
    case _ => []
  }

  /** A premature check leads to two pending calls: whenever the send loop comes back to wait for its next result,
      there are steps that get there. */
  lemma PrematureSpreads(steps: seq<Step>, i: nat, d: nat)
    requires Premature(After(steps), Check(i)) && At(After(steps), d, Raised) && ComesBack(After(steps))
    ensures TwoPending(After(steps + Back(After(steps).sender) + Harm(i, d)))
  {
    var s, back := After(steps), steps + Back(After(steps).sender);
    BackWaits(steps);
    assert AtCheck(s.(sender := Waiting), i) && At(s.(sender := Waiting), d, Raised);
    assert Premature(s.(sender := Waiting), Check(i));
    AlwaysAccounted(back);
    hide After, Next, Accounted, Premature, TwoPending, Six, Back, ComesBack;
    AfterSix(back, Check(i), Lower(d), MeetClosed, Count, ReadFlag, Start);
    HarmDone(s.(sender := Waiting), i, d);
  }

  /** Coming back changes nothing but where the send loop is. */
  lemma BackWaits(steps: seq<Step>)
    requires ComesBack(After(steps))
    ensures After(steps + Back(After(steps).sender)) == After(steps).(sender := Waiting)
  {
    var s := After(steps);
    hide After;
    if s.sender == Started {
      AfterMore(steps, Give);
      AfterMore(steps + [Give], Send(true));
      assert steps + [Give] + [Send(true)] == steps + [Give, Send(true)];
    } else if s.sender == Sending(false) {
      AfterMore(steps, Send(true));
    } else {
      assert steps + [] == steps;
    }
  }

  /** Once the send loop has ended, or is sending its last result, no call is started any more. */
  ghost predicate Stopped(s: State) {
    && Accounted(s) && s.calls != [] && (s.sender == Ended || s.sender == Sending(true))
    && forall i :: 0 <= i < |s.calls| - 1 ==> !Pending(s.calls[i])
  }

  lemma StoppedNext(s: State, step: Step)
    requires Stopped(s)
    ensures Stopped(Next(s, step))
  {
    AccountedNext(s, step);
    if Computing(step) {
      ComputingKeeps(s, step);
      hide Next, Accounted;
    } else {
      assert s.receiver != Idle;
      hide Accounted;
    }
  }

  /** So then not even a premature check does that harm, however the run goes on. */
  lemma {:induction false} StoppedNoHarm(steps: seq<Step>, more: seq<Step>)
    requires NeverPremature(steps) && After(steps).calls != []
    requires After(steps).sender == Ended || After(steps).sender == Sending(true)
    ensures Stopped(After(steps + more)) && !TwoPending(After(steps + more))
  {
    if more == [] {
      assert steps + more == steps;
      AlwaysSingle(steps);
      AlwaysAccounted(steps);
      hide Next, Accounted, After, NeverPremature;
    } else {
      var init := more[..|more| - 1];
      assert (steps + more)[..|steps + more| - 1] == steps + init;
      StoppedNoHarm(steps, init);
      StoppedNext(After(steps + init), more[|more| - 1]);
      hide Next, Accounted;
    }
  }

  lemma AfterMore(steps: seq<Step>, step: Step)
    ensures After(steps + [step]) == Next(After(steps), step)
  {
    assert (steps + [step])[..|steps|] == steps;
  }

  /** The state that six steps lead to. */
  function Six(s: State, a: Step, b: Step, c: Step, d: Step, e: Step, f: Step): State {
    Next(Next(Next(Next(Next(Next(s, a), b), c), d), e), f)
  }

  lemma AfterSix(steps: seq<Step>, a: Step, b: Step, c: Step, d: Step, e: Step, f: Step)
    ensures After(steps + [a, b, c, d, e, f]) == Six(After(steps), a, b, c, d, e, f)
  {
    hide After, Next;
    var t1 := steps + [a];
    var t2 := t1 + [b];
    var t3 := t2 + [c];
    var t4 := t3 + [d];
    var t5 := t4 + [e];
    AfterMore(steps, a);
    AfterMore(t1, b);
    AfterMore(t2, c);
    AfterMore(t3, d);
    AfterMore(t4, e);
    AfterMore(t5, f);
    assert t5 + [f] == steps + [a, b, c, d, e, f];
  }

  lemma HarmDone(s: State, i: nat, d: nat)
    requires Accounted(s) && Premature(s, Check(i)) && At(s, d, Raised) && s.sender == Waiting
    ensures TwoPending(Six(s, Check(i), Lower(d), MeetClosed, Count, ReadFlag, Start))
  {
    AccountedTimer(s);
    hide Accounted, TwoPending;
    var s2 := Next(Next(s, Check(i)), Lower(d));
    ClosedOver(s, i, d);
    hide Premature;
    var s4 := Next(Next(Next(s2, MeetClosed), Count), ReadFlag);
    GoesOn(s2);
    hide Next;
    StartsOne(s4, d);
  }

  /** The check closes the channel, and the call lowers the flag behind it. */
  lemma ClosedOver(s: State, i: nat, d: nat)
    requires Premature(s, Check(i)) && At(s, d, Raised) && s.sender == Waiting && (|s.calls| > 1 ==> s.timer)
    ensures
      var s' := Next(Next(s, Check(i)), Lower(d));
      At(s', d, Lowered) && s'.closed && !s'.isLastResult && s'.timer && s'.sender == Waiting
  {
  }

  /** The closed channel lets the send loop on, past a flag that is down. */
  lemma GoesOn(s: State)
    requires s.closed && !s.isLastResult && s.sender == Waiting
    ensures
      var s' := Next(Next(Next(s, MeetClosed), Count), ReadFlag);
      s'.sender == GoingOn && s'.timer == s.timer && s'.calls == s.calls
  {
  }

  lemma StartsOne(s: State, d: nat)
    requires s.sender == GoingOn && s.timer && At(s, d, Lowered)
    ensures TwoPending(Next(s, Start))
  {
    LastPending(Next(s, Start), d);
  }

  lemma AccountedTimer(s: State)
    requires Accounted(s)
    ensures |s.calls| > 1 ==> s.timer
  {
  }

  lemma LastPending(s: State, d: nat)
    requires d < |s.calls| - 1 && Pending(s.calls[d]) && Pending(s.calls[|s.calls| - 1])
    ensures TwoPending(s)
  {
  }

  const FIRST := [Receive, Raise(0), Lower(0), Arm(0, true), Answer(0), Meet(0)]

  const SECOND := [Count, ReadFlag, Start, Give, Send(true), Raise(1)]

  /** A first call that streams, past the rendezvous with its result. */
  const MET := State([Call(true, Checking(Eof))], InCall, Received, false, true, 0, Nil, false)

  /** The second call has the flag up while the first has not checked it. */
  const RAISED := State([Call(true, Checking(Eof)), Call(false, Raised)], InCall, Waiting, true, true, 1, Nil, false)

  lemma FirstStreams()
    ensures Six(INITIAL, Receive, Raise(0), Lower(0), Arm(0, true), Answer(0), Meet(0)) == MET
  {
    var s := Next(Next(Next(INITIAL, Receive), Raise(0)), Lower(0));
    assert s == State([Call(true, Lowered)], InCall, Waiting, false, false, 0, Nil, false);
  }

  lemma SecondRaises()
    ensures Six(MET, Count, ReadFlag, Start, Give, Send(true), Raise(1)) == RAISED
  {
    var s := Next(Next(MET, Count), ReadFlag);
    assert s == MET.(sender := GoingOn, resultCount := 1);
    var s' := Next(Next(Next(s, Start), Give), Send(true));
    assert s' == State([Call(true, Checking(Eof)), Call(false, Working)], InCall, Waiting, false, true, 1, Nil, false);
  }

  lemma HappensAfter()
    ensures After(FIRST + SECOND) == RAISED
  {
    FirstStreams();
    SecondRaises();
    assert After([]) == INITIAL;
    hide After, Next, Six;
    AfterSix([], Receive, Raise(0), Lower(0), Arm(0, true), Answer(0), Meet(0));
    AfterSix(FIRST, Count, ReadFlag, Start, Give, Send(true), Raise(1));
    assert [] + FIRST == FIRST;
  }

  lemma NoCheckNoHarm(steps: seq<Step>)
    requires forall k :: 0 <= k < |steps| ==> !steps[k].Check?
    ensures NeverPremature(steps)
  {
    hide After, Next;
  }

  /** A run with a premature check exists, and with it one with two pending calls: the first call's check comes
      late, and the second call has its flag up just then. */
  lemma PrematureHappens()
    ensures NeverPremature(FIRST + SECOND) && Premature(After(FIRST + SECOND), Check(0))
    ensures TwoPending(After(FIRST + SECOND + Harm(0, 1)))
  {
    assert FIRST + SECOND + [] == FIRST + SECOND;
    hide After, TwoPending, NeverPremature;
    HappensAfter();
    NoCheckNoHarm(FIRST + SECOND);
    assert At(RAISED, 1, Raised);
    PrematureSpreads(FIRST + SECOND, 0, 1);
  }
}
