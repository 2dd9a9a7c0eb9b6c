/** The keepalive engine on top of the echo engine: its status, and the two threads that write it
    (net_ka.c). */
module KeepAlive {
  import opened Echo

  /** Milliseconds an echo reply may take, and consecutive timeouts that end the processing. */
  const ECHO_REPLY_TIMEOUT := 5000
  const CONSEC_TIMEOUTS := 3

  datatype Status = Invalid | Ongoing | FinSuccess | FinTimeout | FinError

  function FinalStatus(r: Result): Status {
    match r
    case Success => FinSuccess
    case GeneralEchoTimeout => FinTimeout
    case _ => FinError
  }

  /** What the echo engine promises about its result. */
  ghost predicate Outcome(r: Result, t: Trace) {
    r == GeneralEchoTimeout <==> Trailing(t) == CONSEC_TIMEOUTS
  }

  class KaEngine {
    const engine: Engine
    var status: Status

    constructor (sendInterval: nat)
      ensures status == Invalid && fresh(engine) && engine.Valid() && engine.Going() && engine.lastSend == 0
      ensures engine.ongoing && engine.countConsecLate == 0 && |engine.trace| == 0 && engine.InHand().due == []
      ensures engine.threshold == CONSEC_TIMEOUTS && engine.echoTimeout == ECHO_REPLY_TIMEOUT && engine.echoNum == 0
    {
      engine := new Engine(sendInterval, 0, ECHO_REPLY_TIMEOUT, CONSEC_TIMEOUTS);
      status := Invalid;
    }

    /** The echo engine's clock only goes forward. */
    ghost predicate InTime(rounds: seq<Round>)
      reads engine
    {
      && (forall i :: 0 <= i < |rounds| ==> engine.lastSend < rounds[i].sendTime)
      && (forall i, j :: 0 <= i < j < |rounds| ==> rounds[i].sendTime < rounds[j].sendTime)
    }

    /** The body of the keepalive thread. */
    method RunThread(stoppedAsleep: bool, rounds: seq<Round>) returns (result: Result)
      requires engine.Valid() && engine.Going() && engine.threshold == CONSEC_TIMEOUTS && InTime(rounds)
      modifies this`status, engine, engine.pool`next
      ensures engine.Valid() && Outcome(result, engine.trace) && Possible(engine.trace, CONSEC_TIMEOUTS)
      ensures status == if result == Running then old(status) else FinalStatus(result)
      ensures result == Success ==> status == FinSuccess
      ensures result in {ResourceStarvation, GeneralEchoError} ==> status == FinError
      ensures old(status) != FinTimeout ==> (status == FinTimeout <==> Trailing(engine.trace) == CONSEC_TIMEOUTS)
      ensures var v := old(engine.InHand()).(ongoing := old(engine.ongoing) && !stoppedAsleep);
              (engine.InHand(), result) == engine.Rounds(v, rounds)
    {
      hide Trailing, Number, Counted, Listed, StrictlySorted, AllBefore, Possible, Engine.Rounds;
      result := engine.Process(stoppedAsleep, rounds);
      match result {
        case Success => status := FinSuccess;
        case GeneralEchoTimeout => status := FinTimeout;
        case Running =>
        case _ => status := FinError;
      }
    }

    /** KA_start with the thread it creates running to its end before the status is written, three
        requests staying unanswered: the timeout that was detected is not in the status. */
    method StartLate(rounds: seq<Round>) returns (result: Result)
      requires engine.Valid() && engine.Going() && engine.threshold == CONSEC_TIMEOUTS && InTime(rounds)
      requires engine.ongoing && engine.countConsecLate == 0 && |engine.trace| == 0 && engine.InHand().due == []
      requires engine.echoTimeout == ECHO_REPLY_TIMEOUT && engine.echoNum == 0
      requires |rounds| == CONSEC_TIMEOUTS
      requires forall i :: 0 <= i < |rounds| ==> Missed(rounds[i], ECHO_REPLY_TIMEOUT)
      modifies this`status, engine, engine.pool`next
      ensures result == GeneralEchoTimeout && engine.trace == Misses(CONSEC_TIMEOUTS) && status == Ongoing
    {
      hide Trailing, Number, Counted, Listed, StrictlySorted, AllBefore, Possible, Engine.Rounds, Misses, Missed;
      engine.MissedRounds(engine.InHand(), rounds);
      result := RunThread(false, rounds);
      status := Ongoing;
    }
  }

  // ---------- KA_start against the thread it creates ----------

  datatype State = State(created: bool, started: bool, trace: Trace, result: Result, status: Status)

  /** KA_start creates the thread and only then writes the status; the thread observes echoes and
      at last writes the status too. */
  datatype Step = Create | WriteOngoing | Observe(o: Observation) | Finish(r: Result)

  const INITIAL := State(false, false, [], Running, Invalid)

  ghost predicate Enabled(s: State, step: Step) {
    match step
    case Create => !s.created
    case WriteOngoing => s.created && !s.started
    case Observe(o) => s.created && s.result == Running && CanFollow(s.trace, o, CONSEC_TIMEOUTS)
    case Finish(r) => s.created && s.result == Running && r != Running && Outcome(r, s.trace)
  }

  ghost function Do(s: State, step: Step): State {
    match step
    case Create => s.(created := true)
    case WriteOngoing => s.(started := true, status := Ongoing)
    case Observe(o) => s.(trace := s.trace + [o])
    case Finish(r) => s.(result := r, status := FinalStatus(r))
  }

  ghost predicate Legal(steps: seq<Step>) {
    steps == [] || (Legal(steps[..|steps| - 1]) && Enabled(Run(steps[..|steps| - 1]), steps[|steps| - 1]))
  }

  ghost function Run(steps: seq<Step>): State {
    if steps == [] then INITIAL else Do(Run(steps[..|steps| - 1]), steps[|steps| - 1])
  }

  ghost predicate Finished(steps: seq<Step>) {
    exists i :: 0 <= i < |steps| && steps[i].Finish?
  }

  ghost predicate Started(steps: seq<Step>) {
    exists i :: 0 <= i < |steps| && steps[i] == WriteOngoing
  }

  /** The starter's write came after the thread's. */
  ghost predicate Overwritten(steps: seq<Step>) {
    exists i, j :: 0 <= i < j < |steps| && steps[i].Finish? && steps[j] == WriteOngoing
  }

  lemma {:induction false} StatusHistory(steps: seq<Step>)
    requires Legal(steps)
    ensures var s := Run(steps);
            && (s.result != Running <==> Finished(steps))
            && (s.started <==> Started(steps))
            && Possible(s.trace, CONSEC_TIMEOUTS)
            && (s.result != Running ==> Outcome(s.result, s.trace))
            && (Overwritten(steps) ==> s.started && s.result != Running)
            && s.status == if Finished(steps) && !Overwritten(steps) then FinalStatus(s.result)
                           else if Started(steps) then Ongoing else Invalid
  {
    hide Number, Trailing, CanFollow;
    if steps != [] {
      var n := |steps| - 1;
      StatusHistory(steps[..n]);
      Writers(steps[..n], steps[n]);
      assert steps == steps[..n] + [steps[n]];
      hide Finished, Started, Overwritten;
    }
  }

  lemma Writers(front: seq<Step>, step: Step)
    ensures Finished(front + [step]) <==> Finished(front) || step.Finish?
    ensures Started(front + [step]) <==> Started(front) || step == WriteOngoing
    ensures Overwritten(front + [step]) <==> Overwritten(front) || (step == WriteOngoing && Finished(front))
  {
    var steps, n := front + [step], |front|;
    assert steps[n] == step && forall i :: 0 <= i < n ==> steps[i] == front[i];
    if step == WriteOngoing && Finished(front) {
      var i :| 0 <= i < n && front[i].Finish?;
      assert steps[i].Finish? && steps[n] == WriteOngoing;
    }
  }

  /** In every interleaving, whoever asks for the status and sees a timeout can count on three echo
      timeouts since the last on-time reply, or since the beginning. */
  lemma TimeoutIsReal(steps: seq<Step>)
    requires Legal(steps) && Run(steps).status == FinTimeout
    ensures exists k: nat :: && SinceReply(Run(steps).trace, k)
                             && Number(Run(steps).trace[k..], TimedOut) == CONSEC_TIMEOUTS
  {
    StatusHistory(steps);
    TrailingMeaning(Run(steps).trace);
  }

  /** Once both threads have written, the status tells the result unless the starter wrote last. */
  lemma StatusTellsResult(steps: seq<Step>)
    requires Legal(steps) && Finished(steps) && Started(steps)
    ensures Run(steps).status == FinalStatus(Run(steps).result) <==> !Overwritten(steps)
    ensures !Overwritten(steps) ==>
              && (Run(steps).status == FinSuccess <==> Run(steps).result == Success)
              && (Run(steps).status == FinTimeout <==> Run(steps).result == GeneralEchoTimeout)
              && (Run(steps).status == FinError <==> Run(steps).result in {ResourceStarvation, GeneralEchoError})
    ensures Overwritten(steps) ==> Run(steps).status == Ongoing
  {
    StatusHistory(steps);
  }

  lemma NoSteps(steps: seq<Step>)
    requires |steps| == 0
    ensures Legal(steps) && Run(steps) == INITIAL && Trailing(INITIAL.trace) == 0
  {
  }

  lemma RunSnoc(steps: seq<Step>, step: Step)
    ensures Run(steps + [step]) == Do(Run(steps), step)
    ensures Legal(steps + [step]) <==> Legal(steps) && Enabled(Run(steps), step)
  {
  }

  function Observed(t: Trace): seq<Step> {
    seq(|t|, i requires 0 <= i < |t| => Observe(t[i]))
  }

  /** The thread can see whatever the echo engine can go through. */
  lemma {:induction false} ThreadSees(t: Trace)
    requires Possible(t, CONSEC_TIMEOUTS)
    ensures var steps := [Create] + Observed(t);
            Legal(steps) && Run(steps) == INITIAL.(created := true, trace := t)
  {
    hide Run, Legal, CanFollow;
    var steps := [Create] + Observed(t);
    if t == [] {
      var none: seq<Step> := [];
      NoSteps(none);
      RunSnoc(none, Create);
      assert steps == none + [Create];
    } else {
      var front, last := t[..|t| - 1], t[|t| - 1];
      ThreadSees(front);
      assert steps == [Create] + Observed(front) + [Observe(last)];
      RunSnoc([Create] + Observed(front), Observe(last));
    }
  }

  /** Whenever the echo engine has come to a general timeout, the thread can end before its creator
      writes, and then the timeout is lost. */
  lemma TimeoutLost(t: Trace)
    requires Possible(t, CONSEC_TIMEOUTS) && Trailing(t) == CONSEC_TIMEOUTS
    ensures var steps := [Create] + Observed(t) + [Finish(GeneralEchoTimeout)] + [WriteOngoing];
            && Legal(steps) && Run(steps).trace == t
            && Run(steps).result == GeneralEchoTimeout && Run(steps).status == Ongoing
  {
    hide Run, Legal, Trailing, Possible;
    ThreadSees(t);
    var seen := [Create] + Observed(t);
    RunSnoc(seen, Finish(GeneralEchoTimeout));
    RunSnoc(seen + [Finish(GeneralEchoTimeout)], WriteOngoing);
  }

  /** Three requests that stay unanswered are such a case. */
  lemma MissesLost()
    ensures var t := Misses(CONSEC_TIMEOUTS);
            var steps := [Create] + Observed(t) + [Finish(GeneralEchoTimeout)] + [WriteOngoing];
            Legal(steps) && Run(steps).result == GeneralEchoTimeout && Run(steps).status == Ongoing
  {
    hide Run, Legal, Trailing, Possible, Misses;
    MissesPossible(CONSEC_TIMEOUTS, CONSEC_TIMEOUTS);
    TimeoutLost(Misses(CONSEC_TIMEOUTS));
  }
}
