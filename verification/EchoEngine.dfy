/** The keepalive echo engine: event list, counters and the general-timeout rule
    (icmp_echo_engine.c). Times are microseconds. */
module Echo {
  import opened Bytes

  // ---------- What happened, as a trace ----------

  /** removed: the reply found its event still in the list. */
  datatype Observation = Sent(stored: bool) | TimedOut | OnTime(removed: bool)

  type Trace = seq<Observation>

  /** Echo timeouts since the last on-time reply. */
  function Trailing(t: Trace): nat {
    if t == [] then 0
    else match t[|t| - 1]
      case TimedOut => Trailing(t[..|t| - 1]) + 1
      case OnTime(_) => 0
      case Sent(_) => Trailing(t[..|t| - 1])
  }

  function Number(t: Trace, o: Observation): nat {
    if t == [] then 0 else Number(t[..|t| - 1], o) + (if t[|t| - 1] == o then 1 else 0)
  }

  function Sends(t: Trace): nat {
    Number(t, Sent(true)) + Number(t, Sent(false))
  }

  function Replies(t: Trace): nat {
    Number(t, OnTime(true)) + Number(t, OnTime(false))
  }

  /** The trace has grown by no request. */
  ghost predicate NoSendSince(before: Trace, now: Trace) {
    before <= now && Sends(now) == Sends(before)
  }

  /** From position k on there is no on-time reply, and k is the beginning or right behind one. */
  ghost predicate SinceReply(t: Trace, k: nat) {
    k <= |t| && Replies(t[k..]) == 0 && (k == 0 || t[k - 1].OnTime?)
  }

  /** The trailing timeouts are exactly those after the last on-time reply. */
  lemma {:induction false} TrailingMeaning(t: Trace)
    ensures exists k: nat :: SinceReply(t, k) && Number(t[k..], TimedOut) == Trailing(t)
  {
    if t == [] {
      assert t[0..] == [];
      assert SinceReply(t, 0);
    } else {
      var front, last := t[..|t| - 1], t[|t| - 1];
      if last.OnTime? {
        assert t[|t|..] == [];
        assert SinceReply(t, |t|);
      } else {
        TrailingMeaning(front);
        var k: nat :| SinceReply(front, k) && Number(front[k..], TimedOut) == Trailing(front);
        assert t[k..][..|t| - k - 1] == front[k..] && t[k..][|t| - k - 1] == last;
        assert SinceReply(t, k);
      }
    }
  }

  /** As many requests, each timing out before the next. */
  function Misses(n: nat): Trace {
    if n == 0 then [] else [Sent(true)] + [TimedOut] + Misses(n - 1)
  }

  /** Stored requests that have neither been answered nor timed out. */
  function Outstanding(t: Trace): int {
    Number(t, Sent(true)) - Number(t, TimedOut) - Number(t, OnTime(true))
  }

  /** The last thing that happened was an allocation that failed, which ends the processing. */
  ghost predicate Starved(t: Trace) {
    t != [] && t[|t| - 1] == Sent(false)
  }

  /** What can happen next: a request, or, once there has been one, a duplicate reply, or while one is
      outstanding, a timeout or an answer. */
  ghost predicate CanFollow(t: Trace, o: Observation, threshold: nat) {
    && Trailing(t) < threshold && !Starved(t)
    && (!o.Sent? ==> t != [])
    && (o == TimedOut || o == OnTime(true) ==> Outstanding(t) > 0)
  }

  ghost predicate Possible(t: Trace, threshold: nat) {
    t == [] || (Possible(t[..|t| - 1], threshold) && CanFollow(t[..|t| - 1], t[|t| - 1], threshold))
  }

  lemma PossibleSnoc(t: Trace, o: Observation, threshold: nat)
    requires Possible(t, threshold) && CanFollow(t, o, threshold)
    ensures Possible(t + [o], threshold)
  {
    assert (t + [o])[..|t|] == t;
    hide CanFollow;
  }

  lemma NewLast(t: Trace)
    ensures t + [TimedOut] != t
    ensures forall removed :: t + [TimedOut] != t + [OnTime(removed)]
  {
    assert (t + [TimedOut])[|t|] == TimedOut;
    assert forall removed :: (t + [OnTime(removed)])[|t|] == OnTime(removed);
  }

  /** As many requests, each answered before the next. */
  function Answers(n: nat): Trace {
    if n == 0 then [] else [Sent(true)] + [OnTime(true)] + Answers(n - 1)
  }

  lemma {:induction false} MissesSnoc(n: nat)
    ensures Misses(n + 1) == Misses(n) + [Sent(true)] + [TimedOut]
  {
    if n > 0 {
      MissesSnoc(n - 1);
    }
  }

  /** Nothing speaks against as many misses in a row as the threshold allows. */
  lemma {:induction false} MissesPossible(n: nat, threshold: nat)
    requires n <= threshold
    ensures var t := Misses(n);
            Possible(t, threshold) && Trailing(t) == n && Outstanding(t) == 0 && !Starved(t)
  {
    hide Number, Trailing, Possible;
    if n == 0 {
      NothingSeen(Misses(n), threshold);
    } else {
      var t := Misses(n - 1);
      MissesPossible(n - 1, threshold);
      MissesSnoc(n - 1);
      TraceSnoc(t, Sent(true));
      TraceSnoc(t + [Sent(true)], TimedOut);
      PossibleSnoc(t, Sent(true), threshold);
      PossibleSnoc(t + [Sent(true)], TimedOut, threshold);
    }
  }

  lemma NothingSeen(t: Trace, threshold: nat)
    requires |t| == 0
    ensures Possible(t, threshold) && Trailing(t) == 0 && Outstanding(t) == 0
  {
  }

  // ---------- The event list ----------

  class EchoEvent {
    const echoSeq: uint16
    const timeout: int
    var next: EchoEvent?

    constructor (echoSeq: uint16, timeout: int)
      ensures this.echoSeq == echoSeq && this.timeout == timeout && next == null
    {
      this.echoSeq, this.timeout, this.next := echoSeq, timeout, null;
    }
  }

  ghost function At(events: seq<EchoEvent>, i: int): EchoEvent? {
    if 0 <= i < |events| then events[i] else null
  }

  /** events is the whole, finite, null-terminated list that starts at head. */
  ghost predicate Listed(head: EchoEvent?, events: seq<EchoEvent>)
    reads events
  {
    && head == At(events, 0)
    && (forall i, j :: 0 <= i < j < |events| ==> events[i] != events[j])
    && (forall i {:trigger events[i].next} :: 0 <= i < |events| ==> events[i].next == At(events, i + 1))
  }

  ghost predicate StrictlySorted(events: seq<EchoEvent>) {
    forall i, j :: 0 <= i < j < |events| ==> events[i].timeout < events[j].timeout
  }

  ghost predicate AllBefore(events: seq<EchoEvent>, time: int) {
    forall i :: 0 <= i < |events| ==> events[i].timeout < time
  }

  /** Two events that point at each other end no list, whatever comes before them. */
  lemma CycleIsNoList(head: EchoEvent?, events: seq<EchoEvent>, before: seq<EchoEvent>, a: EchoEvent, b: EchoEvent)
    requires a.next == b && b.next == a
    requires head == At(before + [a], 0)
    requires forall i {:trigger before[i]} :: 0 <= i < |before| ==> before[i].next == At(before + [a], i + 1)
    ensures !Listed(head, events)
  {
    if Listed(head, events) {
      var i := 0;
      while i < |before|
        invariant i <= |before| && i < |events| && events[i] == At(before + [a], i)
      {
        assert events[i] == before[i];
        assert events[i].next == At(events, i + 1);
        i := i + 1;
      }
    }
  }

  // ---------- Results ----------

  datatype PrivateResult =
    | SelectError
    | SelectTimeout
    | SocketClosed
    | RecvError
    | PacketBad
    | PacketIgnored
    | PacketBadCode
    | PingInLate(echoSeq: uint16)
    | PingInOnTime(echoSeq: uint16)

  /** The verdicts on a packet. */
  type Verdict = p: PrivateResult |
    p.PacketBad? || p.PacketIgnored? || p.PacketBadCode? || p.PingInLate? || p.PingInOnTime?
    witness PacketBad

  datatype SendResult = PingOutSuccess | PingOutError | MemoryStarvation

  /** Return codes of IEE_process; Running stands for a call that has not returned yet. */
  datatype Result = Success | ResourceStarvation | GeneralEchoTimeout | GeneralEchoError | Running

  /** What select and recv deliver; a packet is given as the verdict of its decoding. */
  datatype SelectOutcome =
    | NoPacket
    | Packet(verdict: Verdict)
    | RecvFailed(minusOne: bool)
    | Interrupted
    | BadDescriptor
    | OtherError

  /** One turn of the read loop: whether IEE_stop ran meanwhile, the clock when the delay to the
      soonest event is computed, what the socket delivers, the clock when it does, and at the end. */
  datatype Turn = Turn(stop: bool, now: int, outcome: SelectOutcome, back: int, after: int)

  /** One turn of the main loop. */
  datatype Round = Round(sendTime: int, memory: bool, sendOk: bool, stop: bool, reference: int, start: int,
                         turns: seq<Turn>)

  /** A round in which the reply to the request of the given number comes in on time, and nothing else. */
  ghost predicate Answered(round: Round, number: nat) {
    && round.memory && round.sendOk && !round.stop && round.reference > round.start && |round.turns| == 2
    && var first, second := round.turns[0], round.turns[1];
    && number < TWO16 && !first.stop && first.outcome == Packet(PingInOnTime(number)) && round.reference > first.after
    && !second.stop && second.outcome == NoPacket && round.reference <= second.after
  }

  /** A round in which the request is sent and nothing comes in until it is time for the next. */
  ghost predicate Missed(round: Round, echoTimeout: nat) {
    && round.memory && round.sendOk && !round.stop && round.reference > round.start && |round.turns| == 2
    && var first, second := round.turns[0], round.turns[1];
    && !first.stop && first.outcome in {NoPacket, Interrupted} && round.reference > first.after
    && round.reference - round.start > round.sendTime + 1000 * echoTimeout - first.now
    && !second.stop && second.outcome == NoPacket && round.reference <= second.after
  }

  function Decrement(x: uint32): uint32 {
    (x - 1) % TWO32
  }

  function Increment(x: uint32): uint32 {
    (x + 1) % TWO32
  }

  // ---------- The engine without its list nodes ----------

  datatype Due = Due(echoSeq: uint16, timeout: int)

  /** What the engine has in hand: the requests still open, soonest first, and what happened so far. */
  datatype View = View(ongoing: bool, sent: uint32, consecLate: nat, due: seq<Due>, trace: Trace)

  ghost function Dues(events: seq<EchoEvent>): (d: seq<Due>)
    ensures |d| == |events|
  {
    seq(|events|, i requires 0 <= i < |events| => Due(events[i].echoSeq, events[i].timeout))
  }

  predicate Open(due: seq<Due>, echoSeq: uint16) {
    exists i :: 0 <= i < |due| && due[i].echoSeq == echoSeq
  }

  /** Without the first request of that number. */
  function Closed(due: seq<Due>, echoSeq: uint16): seq<Due> {
    if due == [] then []
    else if due[0].echoSeq == echoSeq then due[1..]
    else [due[0]] + Closed(due[1..], echoSeq)
  }

  lemma {:induction false} ClosedAt(due: seq<Due>, echoSeq: uint16, k: nat)
    requires k < |due| && due[k].echoSeq == echoSeq
    requires forall i :: 0 <= i < k ==> due[i].echoSeq != echoSeq
    ensures Closed(due, echoSeq) == due[..k] + due[k + 1..] && Open(due, echoSeq)
  {
    if k > 0 {
      ClosedAt(due[1..], echoSeq, k - 1);
      assert [due[0]] + due[1..][..k - 1] == due[..k];
    }
  }

  lemma {:induction false} ClosedNone(due: seq<Due>, echoSeq: uint16)
    requires forall i :: 0 <= i < |due| ==> due[i].echoSeq != echoSeq
    ensures Closed(due, echoSeq) == due && !Open(due, echoSeq)
  {
    if due != [] {
      ClosedNone(due[1..], echoSeq);
    }
  }

  /** The k-th open request is the first of that number. */
  ghost predicate FirstOpen(due: seq<Due>, k: nat, echoSeq: uint16) {
    k < |due| && due[k].echoSeq == echoSeq && forall i :: 0 <= i < k ==> due[i].echoSeq != echoSeq
  }

  /** A reply takes the first open request of its number with it, the others staying in order; without one
      it is a duplicate, or comes after a timeout. */
  ghost predicate Closes(due: seq<Due>, echoSeq: uint16, left: seq<Due>, removed: bool) {
    if removed then exists k: nat :: FirstOpen(due, k, echoSeq) && left == due[..k] + due[k + 1..]
    else left == due && forall i :: 0 <= i < |due| ==> due[i].echoSeq != echoSeq
  }

  lemma {:induction false} ClosedMeaning(due: seq<Due>, echoSeq: uint16)
    ensures Closes(due, echoSeq, Closed(due, echoSeq), Open(due, echoSeq))
  {
    if Open(due, echoSeq) {
      var k := 0;
      while due[k].echoSeq != echoSeq
        invariant k < |due| && forall i :: 0 <= i < k ==> due[i].echoSeq != echoSeq
        invariant exists i :: k <= i < |due| && due[i].echoSeq == echoSeq
        decreases |due| - k
      {
        k := k + 1;
      }
      ClosedAt(due, echoSeq, k);
      assert FirstOpen(due, k, echoSeq);
    } else {
      ClosedNone(due, echoSeq);
    }
  }

  lemma DuesSnoc(events: seq<EchoEvent>, event: EchoEvent)
    ensures Dues(events + [event]) == Dues(events) + [Due(event.echoSeq, event.timeout)]
  {
  }

  lemma RestDues(events: seq<EchoEvent>)
    requires events != []
    ensures Dues(events[1..]) == Dues(events)[1..]
  {
  }

  lemma OpenMeansSome(events: seq<EchoEvent>, echoSeq: uint16)
    ensures Open(Dues(events), echoSeq) ==> |events| > 0
  {
  }

  lemma RemovedIs(was: seq<EchoEvent>, now: seq<EchoEvent>, echoSeq: uint16, k: nat)
    requires k < |was| && was[k].echoSeq == echoSeq && now == was[..k] + was[k + 1..]
    requires forall i :: 0 <= i < k ==> was[i].echoSeq != echoSeq
    ensures Dues(now) == Closed(Dues(was), echoSeq) && Open(Dues(was), echoSeq)
  {
    ClosedAt(Dues(was), echoSeq, k);
    hide Closed, Open;
  }

  lemma NoneRemoved(events: seq<EchoEvent>, echoSeq: uint16)
    requires forall i :: 0 <= i < |events| ==> events[i].echoSeq != echoSeq
    ensures Dues(events) == Closed(Dues(events), echoSeq) && !Open(Dues(events), echoSeq)
  {
    ClosedNone(Dues(events), echoSeq);
    hide Closed, Open;
  }

  function ReadOutcome(ongoing: bool, outcome: SelectOutcome): PrivateResult {
    match outcome
    case NoPacket => SelectTimeout
    case Packet(verdict) => verdict
    case RecvFailed(minusOne) => if minusOne && !ongoing then SocketClosed else RecvError
    case Interrupted => SelectTimeout
    case BadDescriptor => if ongoing then SelectError else SocketClosed
    case OtherError => SelectError
  }

  // ---------- Counters against the trace ----------

  datatype Tally = Tally(sent: uint32, onTime: uint32, late: uint32, consecLate: nat, outstanding: nat)

  /** Every counter is what the trace says, modulo 2^32, and every stored event is still in the list,
      has timed out or has been answered. */
  ghost predicate Counted(c: Tally, t: Trace) {
    && c.sent == Sends(t) % TWO32
    && c.onTime == Replies(t) % TWO32
    && c.late == (Number(t, TimedOut) - Number(t, OnTime(false))) % TWO32
    && c.consecLate == Trailing(t)
    && Number(t, Sent(true)) == c.outstanding + Number(t, TimedOut) + Number(t, OnTime(true))
  }

  lemma CountSent(c: Tally, t: Trace, stored: bool)
    requires Counted(c, t)
    ensures Counted(c.(sent := Increment(c.sent), outstanding := c.outstanding + (if stored then 1 else 0)),
                    t + [Sent(stored)])
  {
    hide Number, Trailing;
    TraceSnoc(t, Sent(stored));
    NextCount(Sends(t), 1);
  }

  lemma CountTimedOut(c: Tally, t: Trace)
    requires Counted(c, t) && c.outstanding > 0
    ensures Counted(c.(late := Increment(c.late), consecLate := c.consecLate + 1, outstanding := c.outstanding - 1),
                    t + [TimedOut])
  {
    hide Number, Trailing;
    TraceSnoc(t, TimedOut);
    NextCount(Number(t, TimedOut) - Number(t, OnTime(false)), 1);
  }

  lemma CountOnTime(c: Tally, t: Trace, removed: bool)
    requires Counted(c, t) && (removed ==> c.outstanding > 0)
    ensures Counted(c.(onTime := Increment(c.onTime), consecLate := 0,
                       late := if removed then c.late else Decrement(c.late),
                       outstanding := if removed then c.outstanding - 1 else c.outstanding),
                    t + [OnTime(removed)])
  {
    hide Number, Trailing;
    TraceSnoc(t, OnTime(removed));
    NextCount(Replies(t), 1);
    NextCount(Number(t, TimedOut) - Number(t, OnTime(false)), -1);
  }

  lemma NextCount(x: int, d: int)
    ensures (x % TWO32 + d) % TWO32 == (x + d) % TWO32
  {
  }

  /** Conservation: when no allocation failed, sent = outstanding + on time + late, modulo 2^32,
      with every duplicate reply and every cancelled timeout accounted for. */
  lemma Conservation(c: Tally, t: Trace)
    requires Counted(c, t)
    ensures (c.sent - Number(t, Sent(false))) % TWO32 == (c.outstanding + c.onTime + c.late) % TWO32
    ensures Number(t, Sent(false)) == 0 ==> c.sent == (c.outstanding + c.onTime + c.late) % TWO32
  {
    hide Number, Trailing;
    var s1, s0 := Number(t, Sent(true)), Number(t, Sent(false));
    var late := Number(t, TimedOut) - Number(t, OnTime(false));
    Wraps(c.sent - s0, s1, -(Sends(t) / TWO32));
    Wraps(c.outstanding + c.onTime + c.late, s1, -(Replies(t) / TWO32) - late / TWO32);
  }

  lemma Wraps(x: int, y: int, k: int)
    requires x == y + k * TWO32
    ensures x % TWO32 == y % TWO32
  {
  }

  lemma NothingCounted(t: Trace)
    requires |t| == 0
    ensures Counted(Tally(0, 0, 0, 0, 0), t)
  {
  }

  // ---------- The engine in keepalive mode ----------

  class Engine {
    const sendInterval: nat
    const echoNum: uint32
    const echoTimeout: nat
    const threshold: nat

    var ongoing: bool
    var countSend: uint32
    var countOntime: uint32
    var countLate: uint32
    var countConsecLate: nat
    var eventList: EchoEvent?

    ghost var events: seq<EchoEvent>
    /** Every event ever put in the list. */
    ghost var pool: set<EchoEvent>
    ghost var trace: Trace
    ghost var lastSend: int

    ghost function Counters(): Tally
      reads this
    {
      Tally(countSend, countOntime, countLate, countConsecLate, |events|)
    }

    ghost predicate Pooled()
      reads this`events, this`pool
    {
      forall i :: 0 <= i < |events| ==> events[i] in pool
    }

    ghost predicate Valid()
      reads this, pool
    {
      && 1 <= threshold <= 255
      && Pooled()
      && Listed(eventList, events)
      && StrictlySorted(events)
      && AllBefore(events, lastSend + 1000 * echoTimeout + 1)
      && Counted(Counters(), trace) && countConsecLate <= threshold
      && Possible(trace, threshold)
    }

    /** The processing has not come to an end of its own. */
    ghost predicate Going()
      reads this`trace, this`countConsecLate
    {
      countConsecLate < threshold && !Starved(trace)
    }

    lemma MayFollow(o: Observation)
      requires Valid() && Going() && (!o.Sent? ==> trace != [])
      requires o == TimedOut || o == OnTime(true) ==> |events| > 0
      ensures Possible(trace + [o], threshold)
    {
      PossibleSnoc(trace, o, threshold);
      hide Number, Trailing, Possible;
    }

    ghost function InHand(): View
      reads this
    {
      View(ongoing, countSend, countConsecLate, Dues(events), trace)
    }

    // What each level of the engine makes of it.

    ghost function Requested(v: View, now: int, memory: bool): View {
      v.(sent := Increment(v.sent), trace := v.trace + [Sent(memory)],
         due := v.due + if memory then [Due(v.sent % TWO16, now + 1000 * echoTimeout)] else [])
    }

    /** The reply to the last request ends the processing. */
    ghost function Ended(v: View): View {
      v.(ongoing := v.ongoing && !(echoNum != 0 && v.sent >= echoNum))
    }

    ghost function Dispatched(v: View, priv: PrivateResult, timeLeft: int, now: int): (View, Result) {
      match priv
      case PacketBad => (v, Success)
      case PacketIgnored => (v, Success)
      case SelectTimeout =>
        if v.due != [] && timeLeft > v.due[0].timeout - now
        then (v.(consecLate := v.consecLate + 1, due := v.due[1..], trace := v.trace + [TimedOut]), Success)
        else (v, Success)
      case PingInOnTime(echoSeq) =>
        (Ended(v.(consecLate := 0, due := Closed(v.due, echoSeq), trace := v.trace + [OnTime(Open(v.due, echoSeq))])),
         Success)
      case PingInLate(_) => (Ended(v), Success)
      case SocketClosed => (v.(ongoing := false), Success)
      case _ => (v.(ongoing := false), GeneralEchoError)
    }

    ghost function Turned(v: View, turn: Turn, timeLeft: int): (View, Result) {
      var u := v.(ongoing := v.ongoing && !turn.stop);
      var (w, r) := Dispatched(u, ReadOutcome(u.ongoing, turn.outcome), timeLeft, turn.now);
      if w.consecLate >= threshold then (w.(ongoing := false), GeneralEchoTimeout) else (w, r)
    }

    ghost function Looped(v: View, reference: int, timeLeft: int, turns: seq<Turn>): (View, Result)
      decreases |turns|
    {
      if turns == [] then (v, Running)
      else
        var (w, r) := Turned(v, turns[0], timeLeft);
        var left := reference - turns[0].after;
        if left > 0 && w.ongoing then Looped(w, reference, left, turns[1..]) else (w, r)
    }

    ghost function Waited(v: View, reference: int, start: int, turns: seq<Turn>): (View, Result) {
      if reference - start <= 0 then (v, Success) else Looped(v, reference, reference - start, turns)
    }

    ghost function Rounded(v: View, round: Round): (View, Result) {
      var u := Requested(v, round.sendTime, round.memory);
      if !round.memory then (u, ResourceStarvation)
      else if !round.sendOk then (u, GeneralEchoError)
      else if !v.ongoing || round.stop then (u.(ongoing := false), Success)
      else Waited(u, round.reference, round.start, round.turns)
    }

    ghost function Rounds(v: View, rounds: seq<Round>): (View, Result)
      decreases |rounds|
    {
      if !(v.ongoing && (echoNum == 0 || v.sent < echoNum)) then (v, Success)
      else if rounds == [] then (v, Running)
      else
        var (w, r) := Rounded(v, rounds[0]);
        if r != Success then (w, r) else Rounds(w, rounds[1..])
    }

    // What that means, read by read, turn by turn and round by round.

    /** Processing stops after the reply to the last request. */
    ghost predicate StopsAtLimit(v: View, w: View) {
      w.ongoing <==> v.ongoing && (echoNum == 0 || v.sent < echoNum)
    }

    /** What a read does: an expired wait takes the soonest request off if it was due before the next one is
        to be sent; an on-time reply is recorded, resets the count and closes its request; everything else
        leaves requests, counts and history alone. */
    ghost predicate Effect(v: View, priv: PrivateResult, timeLeft: int, now: int, w: View, r: Result) {
      && w.sent == v.sent
      && match priv
         case PingInOnTime(echoSeq) =>
           && r == Success && w.consecLate == 0 && StopsAtLimit(v, w)
           && exists removed :: w.trace == v.trace + [OnTime(removed)] && Closes(v.due, echoSeq, w.due, removed)
         case SelectTimeout =>
           && r == Success
           && if v.due != [] && v.due[0].timeout < now + timeLeft
              then && w.ongoing == v.ongoing && w.consecLate == v.consecLate + 1
                   && w.trace == v.trace + [TimedOut] && v.due == [v.due[0]] + w.due
              else w == v
         case PingInLate(_) => r == Success && StopsAtLimit(v, w) && w.(ongoing := v.ongoing) == v
         case PacketBad => r == Success && w == v
         case PacketIgnored => r == Success && w == v
         case SocketClosed => r == Success && w == v.(ongoing := false)
         case _ => r == GeneralEchoError && w == v.(ongoing := false)
    }

    lemma DispatchMeaning(v: View, priv: PrivateResult, timeLeft: int, now: int)
      ensures var (w, r) := Dispatched(v, priv, timeLeft, now); Effect(v, priv, timeLeft, now, w, r)
    {
      if priv.PingInOnTime? {
        ClosedMeaning(v.due, priv.echoSeq);
        assert v.trace + [OnTime(Open(v.due, priv.echoSeq))] == Dispatched(v, priv, timeLeft, now).0.trace;
      }
      hide Closed, Open, Closes;
    }

    /** What a turn of the read loop does: what its read does, and the end when the count has come to the
        threshold. */
    ghost predicate TurnEffect(v: View, turn: Turn, timeLeft: int, w: View, r: Result) {
      var u := v.(ongoing := v.ongoing && !turn.stop);
      exists x, s :: && Effect(u, ReadOutcome(u.ongoing, turn.outcome), timeLeft, turn.now, x, s)
                     && (w, r) == if x.consecLate >= threshold then (x.(ongoing := false), GeneralEchoTimeout)
                                  else (x, s)
    }

    lemma TurnMeaning(v: View, turn: Turn, timeLeft: int)
      ensures var (w, r) := Turned(v, turn, timeLeft); TurnEffect(v, turn, timeLeft, w, r)
    {
      var u := v.(ongoing := v.ongoing && !turn.stop);
      var priv := ReadOutcome(u.ongoing, turn.outcome);
      DispatchMeaning(u, priv, timeLeft, turn.now);
      hide Dispatched, Effect, ReadOutcome;
      var (x, s) := Dispatched(u, priv, timeLeft, turn.now);
      assert Effect(u, priv, timeLeft, turn.now, x, s);
    }

    /** The time left for turn k of the read loop. */
    ghost function LeftFor(k: nat, reference: int, timeLeft: int, turns: seq<Turn>): int
      requires k <= |turns|
    {
      if k == 0 then timeLeft else reference - turns[k - 1].after
    }

    /** vs are the engine's states before and after each of its turns; it takes another one as long as there
        is time left and it has not been stopped, and stops as soon as that is not so. */
    ghost predicate TurnsTaken(vs: seq<View>, reference: int, timeLeft: int, turns: seq<Turn>, r: Result) {
      && 1 <= |vs| <= |turns| + 1
      && (forall k :: 0 <= k < |vs| - 1 ==>
            vs[k + 1] == Turned(vs[k], turns[k], LeftFor(k, reference, timeLeft, turns)).0)
      && (forall k :: 0 < k < |vs| - 1 ==> LeftFor(k, reference, timeLeft, turns) > 0 && vs[k].ongoing)
      && var n := |vs| - 1;
      if n == 0 || (LeftFor(n, reference, timeLeft, turns) > 0 && vs[n].ongoing)
      then n == |turns| && r == Running
      else r == Turned(vs[n - 1], turns[n - 1], LeftFor(n - 1, reference, timeLeft, turns)).1
    }

    lemma {:induction false} LoopMeaning(v: View, reference: int, timeLeft: int, turns: seq<Turn>)
      returns (vs: seq<View>)
      ensures var (w, r) := Looped(v, reference, timeLeft, turns);
              vs != [] && TurnsTaken(vs, reference, timeLeft, turns, r) && vs[0] == v && vs[|vs| - 1] == w
      decreases |turns|
    {
      hide Turned, TurnsTaken;
      if turns == [] {
        vs := [v];
        TurnsEnd(vs, reference, timeLeft, turns, Running);
      } else {
        var (w, r) := Turned(v, turns[0], timeLeft);
        var left := reference - turns[0].after;
        if left > 0 && w.ongoing {
          var others := LoopMeaning(w, reference, left, turns[1..]);
          vs := [v] + others;
          TurnsCons(v, others, reference, timeLeft, turns, Looped(v, reference, timeLeft, turns).1);
        } else {
          vs := [v, w];
          TurnsEnd(vs, reference, timeLeft, turns, r);
        }
      }
    }

    lemma TurnsEnd(vs: seq<View>, reference: int, timeLeft: int, turns: seq<Turn>, r: Result)
      requires |vs| == 1 ==> turns == [] && r == Running
      requires |vs| == 2 ==> && turns != [] && (vs[1], r) == Turned(vs[0], turns[0], timeLeft)
                             && !(reference - turns[0].after > 0 && vs[1].ongoing)
      requires 1 <= |vs| <= 2
      ensures TurnsTaken(vs, reference, timeLeft, turns, r)
    {
      hide Turned;
    }

    lemma TurnsCons(v: View, others: seq<View>, reference: int, timeLeft: int, turns: seq<Turn>, r: Result)
      requires turns != [] && reference - turns[0].after > 0
      requires others != [] && TurnsTaken(others, reference, reference - turns[0].after, turns[1..], r)
      requires others[0] == Turned(v, turns[0], timeLeft).0 && others[0].ongoing
      ensures TurnsTaken([v] + others, reference, timeLeft, turns, r)
    {
      hide Turned, LeftFor;
      var left, rest, vs := reference - turns[0].after, turns[1..], [v] + others;
      var n := |vs| - 1;
      LeftLater(reference, timeLeft, turns, 0);
      LeftLater(reference, timeLeft, turns, n);
      assert vs[n] == others[n - 1] && vs[1] == others[0];
      assert n > 1 ==> vs[n - 1] == others[n - 2] && turns[n - 1] == rest[n - 2];
      LeftLater(reference, timeLeft, turns, n - 1);
      forall k | 0 < k < n
        ensures vs[k + 1] == Turned(vs[k], turns[k], LeftFor(k, reference, timeLeft, turns)).0
        ensures LeftFor(k, reference, timeLeft, turns) > 0 && vs[k].ongoing
      {
        LeftLater(reference, timeLeft, turns, k);
        assert vs[k] == others[k - 1] && vs[k + 1] == others[k] && turns[k] == rest[k - 1];
        assert others[k - 1 + 1] == Turned(others[k - 1], rest[k - 1], LeftFor(k - 1, reference, left, rest)).0;
        assert k == 1 || (LeftFor(k - 1, reference, left, rest) > 0 && others[k - 1].ongoing);
      }
    }

    lemma LeftLater(reference: int, timeLeft: int, turns: seq<Turn>, k: nat)
      requires turns != [] && k <= |turns|
      ensures LeftFor(0, reference, timeLeft, turns) == timeLeft
      ensures LeftFor(1, reference, timeLeft, turns) == reference - turns[0].after
      ensures k > 0 ==> LeftFor(k, reference, timeLeft, turns) ==
                        LeftFor(k - 1, reference, reference - turns[0].after, turns[1..])
    {
    }

    /** What a round does: its request, unless memory or socket fail it, and the turns after it. */
    lemma RoundMeaning(v: View, round: Round)
      ensures var (w, r) := Rounded(v, round);
              var added := if round.memory then [Due(v.sent % TWO16, round.sendTime + 1000 * echoTimeout)] else [];
              var trace := v.trace + [Sent(round.memory)];
              var u := View(v.ongoing, (v.sent + 1) % TWO32, v.consecLate, v.due + added, trace);
              && (!round.memory ==> r == ResourceStarvation && w == u)
              && (round.memory && !round.sendOk ==> r == GeneralEchoError && w == u)
              && (round.memory && round.sendOk && (round.stop || !v.ongoing) ==>
                    r == Success && w == u.(ongoing := false))
              && (round.memory && round.sendOk && !round.stop && v.ongoing ==>
                    (w, r) == if round.reference <= round.start then (u, Success)
                              else Looped(u, round.reference, round.reference - round.start, round.turns))
    {
      hide Looped;
    }

    lemma {:induction false} LoopKeepsSent(v: View, reference: int, timeLeft: int, turns: seq<Turn>)
      ensures Looped(v, reference, timeLeft, turns).0.sent == v.sent
      decreases |turns|
    {
      if turns != [] {
        var w := Turned(v, turns[0], timeLeft).0;
        assert w.sent == v.sent;
        hide Turned;
        LoopKeepsSent(w, reference, reference - turns[0].after, turns[1..]);
      }
    }

    /** With a limit on requests no more are sent, and processing that comes to a regular end without having
        been stopped has sent that many. */
    lemma {:induction false} LimitIsKept(v: View, rounds: seq<Round>)
      requires echoNum != 0 && v.sent <= echoNum
      ensures var (w, r) := Rounds(v, rounds);
              w.sent <= echoNum && (r == Success && w.ongoing ==> w.sent == echoNum)
      decreases |rounds|
    {
      if v.ongoing && v.sent < echoNum && rounds != [] {
        var round := rounds[0];
        var u := Requested(v, round.sendTime, round.memory);
        LoopKeepsSent(u, round.reference, round.reference - round.start, round.turns);
        assert Rounded(v, round).0.sent == v.sent + 1;
        hide Rounded, Looped;
        LimitIsKept(Rounded(v, round).0, rounds[1..]);
      }
    }

    ghost predicate MayGoOn(v: View) {
      v.ongoing && (echoNum == 0 || v.sent < echoNum)
    }

    /** vs are the engine's states before and after each round; there is another one as long as it has not
        been stopped, the limit has not been reached and nothing has gone wrong, and no longer. */
    ghost predicate RoundsTaken(vs: seq<View>, rounds: seq<Round>, r: Result) {
      && 1 <= |vs| <= |rounds| + 1
      && (forall k :: 0 <= k < |vs| - 1 ==> MayGoOn(vs[k]) && vs[k + 1] == Rounded(vs[k], rounds[k]).0)
      && (forall k :: 0 <= k < |vs| - 2 ==> Rounded(vs[k], rounds[k]).1 == Success)
      && var n := |vs| - 1;
      if n > 0 && Rounded(vs[n - 1], rounds[n - 1]).1 != Success then r == Rounded(vs[n - 1], rounds[n - 1]).1
      else if MayGoOn(vs[n]) then n == |rounds| && r == Running
      else r == Success
    }

    lemma {:induction false} RoundsMeaning(v: View, rounds: seq<Round>) returns (vs: seq<View>)
      ensures var (w, r) := Rounds(v, rounds);
              RoundsTaken(vs, rounds, r) && vs[0] == v && vs[|vs| - 1] == w
      decreases |rounds|
    {
      hide Rounded;
      if !MayGoOn(v) || rounds == [] {
        vs := [v];
      } else {
        var (w, r) := Rounded(v, rounds[0]);
        if r == Success {
          var others := RoundsMeaning(w, rounds[1..]);
          vs := [v] + others;
          forall k | 0 < k < |vs| - 1
            ensures MayGoOn(vs[k]) && vs[k + 1] == Rounded(vs[k], rounds[k]).0
            ensures k < |vs| - 2 ==> Rounded(vs[k], rounds[k]).1 == Success
          {
            assert MayGoOn(others[k - 1]) && others[k] == Rounded(others[k - 1], rounds[1..][k - 1]).0;
          }
        } else {
          vs := [v, w];
        }
      }
    }

    lemma AnsweredOnce(v: View, round: Round)
      requires v.ongoing && echoNum == 0 && v.due == [] && threshold > 0 && Answered(round, v.sent % TWO16)
      ensures Rounded(v, round) == (v.(sent := Increment(v.sent), consecLate := 0,
                                       trace := v.trace + [Sent(true)] + [OnTime(true)]), Success)
    {
      var number := v.sent % TWO16;
      var due := [Due(number, round.sendTime + 1000 * echoTimeout)];
      var u := Requested(v, round.sendTime, round.memory);
      assert u.due == due && due[1..] == [];
      var first, rest := round.turns[0], round.turns[1..];
      var left, after := round.reference - round.start, round.reference - first.after;
      assert Closed(due, number) == [] && due[0].echoSeq == number && Open(due, number);
      hide Closed, Open;
      var w := u.(consecLate := 0, due := [], trace := u.trace + [OnTime(true)]);
      assert Dispatched(u, PingInOnTime(number), left, first.now) == (w, Success);
      NoThreshold(u, first, left, w);
      NoThreshold(w, rest[0], after, w);
      hide Dispatched, Turned;
      assert Looped(w, round.reference, after, rest) == (w, Success);
      assert Waited(u, round.reference, round.start, round.turns) == Looped(u, round.reference, left, round.turns);
    }

    lemma NoThreshold(v: View, turn: Turn, timeLeft: int, w: View)
      requires !turn.stop && w.consecLate < threshold
      requires Dispatched(v, ReadOutcome(v.ongoing, turn.outcome), timeLeft, turn.now) == (w, Success)
      ensures Turned(v, turn, timeLeft) == (w, Success)
    {
      hide Dispatched, ReadOutcome;
    }

    /** However many rounds there are, if each request is answered on time the processing goes on. */
    lemma {:induction false} AnsweredRounds(v: View, rounds: seq<Round>)
      requires echoNum == 0 && v.ongoing && v.due == [] && threshold > 0
      requires forall i :: 0 <= i < |rounds| ==> Answered(rounds[i], (v.sent + i) % TWO16)
      ensures var (w, r) := Rounds(v, rounds);
              && r == Running && w.ongoing && w.due == [] && w.trace == v.trace + Answers(|rounds|)
              && w.consecLate == if rounds == [] then v.consecLate else 0
      decreases |rounds|
    {
      hide Rounded, Answered;
      if rounds != [] {
        assert Answered(rounds[0], (v.sent + 0) % TWO16);
        AnsweredOnce(v, rounds[0]);
        var w, rest := Rounded(v, rounds[0]).0, rounds[1..];
        forall i | 0 <= i < |rest|
          ensures Answered(rest[i], (w.sent + i) % TWO16)
        {
          assert Answered(rounds[i + 1], (v.sent + (i + 1)) % TWO16);
          NextNumber(v.sent, i);
        }
        AnsweredRounds(w, rest);
        assert v.trace + [Sent(true)] + [OnTime(true)] + Answers(|rest|) == v.trace + Answers(|rounds|);
      }
    }

    // When an echo counts as timed out.

    /** How long a turn asks select to wait: to the next request, or to the soonest timeout if that is
        earlier. */
    ghost function Wait(v: View, timeLeft: int, now: int): nat {
      var delay := if v.due != [] then v.due[0].timeout - now else 1000 * sendInterval;
      var d := if timeLeft < delay then timeLeft else delay;
      if d > 0 then d else 0
    }

    /** The turn counts the soonest request as timed out before its time has come. */
    ghost predicate TimesOutEarly(v: View, turn: Turn, timeLeft: int) {
      && v.due != [] && turn.back < v.due[0].timeout
      && Turned(v, turn, timeLeft).0.trace == v.trace + [TimedOut]
    }

    /** A request times out early if and only if it was due before the next one was to be sent, and select
        came back without a packet before the time it was given: when a signal interrupted it, and, if
        select itself keeps its time, only then. */
    lemma EarlyExactly(v: View, turn: Turn, timeLeft: int)
      requires turn.now <= turn.back
      ensures TimesOutEarly(v, turn, timeLeft) <==>
              && turn.outcome in {NoPacket, Interrupted} && turn.back < turn.now + Wait(v, timeLeft, turn.now)
              && v.due != [] && timeLeft > v.due[0].timeout - turn.now
      ensures TimesOutEarly(v, turn, timeLeft)
              && (turn.outcome == NoPacket ==> turn.back >= turn.now + Wait(v, timeLeft, turn.now)) ==>
                turn.outcome == Interrupted
    {
      hide Closed, Open;
      NewLast(v.trace);
    }

    lemma MissedOnce(v: View, round: Round)
      requires v.ongoing && v.due == [] && v.consecLate < threshold && Missed(round, echoTimeout)
      ensures var last := v.consecLate + 1 == threshold;
              Rounded(v, round) ==
              (v.(ongoing := !last, sent := Increment(v.sent), consecLate := v.consecLate + 1,
                  trace := v.trace + [Sent(true)] + [TimedOut]),
               if last then GeneralEchoTimeout else Success)
    {
      var due := [Due(v.sent % TWO16, round.sendTime + 1000 * echoTimeout)];
      var u := Requested(v, round.sendTime, round.memory);
      assert u.due == due && due[1..] == [];
      var first, rest := round.turns[0], round.turns[1..];
      var left := round.reference - round.start;
      var w := u.(consecLate := u.consecLate + 1, due := [], trace := u.trace + [TimedOut]);
      assert Dispatched(u, SelectTimeout, left, first.now) == (w, Success);
      assert Waited(u, round.reference, round.start, round.turns) == Looped(u, round.reference, left, round.turns);
      if w.consecLate < threshold {
        assert Turned(u, first, left) == (w, Success);
        var after := round.reference - first.after;
        assert Turned(w, rest[0], after) == (w, Success);
        assert Looped(w, round.reference, after, rest) == (w, Success);
      }
    }

    /** As many missed rounds in a row as the threshold allows end the processing. */
    lemma {:induction false} MissedRounds(v: View, rounds: seq<Round>)
      requires echoNum == 0 && v.ongoing && v.due == [] && v.consecLate < threshold
      requires |rounds| == threshold - v.consecLate && forall i :: 0 <= i < |rounds| ==> Missed(rounds[i], echoTimeout)
      ensures var (w, r) := Rounds(v, rounds);
              r == GeneralEchoTimeout && w.trace == v.trace + Misses(|rounds|)
      decreases |rounds|
    {
      hide Rounded, Missed;
      assert Missed(rounds[0], echoTimeout);
      MissedOnce(v, rounds[0]);
      var w := Rounded(v, rounds[0]).0;
      if v.consecLate + 1 < threshold {
        assert forall i :: 0 <= i < |rounds[1..]| ==> rounds[1..][i] == rounds[i + 1];
        MissedRounds(w, rounds[1..]);
      }
      assert v.trace + [Sent(true)] + [TimedOut] + Misses(|rounds| - 1) == v.trace + Misses(|rounds|);
    }

    constructor (sendInterval: nat, echoNum: uint32, echoTimeout: nat, threshold: nat)
      requires 1 <= threshold <= 255
      ensures Valid() && Going() && ongoing && |trace| == 0 && lastSend == 0
      ensures InHand().due == [] && countConsecLate == 0
      ensures this.sendInterval == sendInterval && this.echoNum == echoNum
      ensures this.echoTimeout == echoTimeout && this.threshold == threshold
    {
      hide Counted, Trailing, Number;
      this.sendInterval, this.echoNum := sendInterval, echoNum;
      this.echoTimeout, this.threshold := echoTimeout, threshold;
      ongoing, countSend, countOntime, countLate, countConsecLate := true, 0, 0, 0, 0;
      eventList, events, pool, trace, lastSend := null, [], {}, [], 0;
      new;
      NothingCounted(trace);
    }

    /** Appends the event exactly when it is due later than all the others. Otherwise it and the
        first event not due earlier are made to point at each other, and there is no list left. */
    method InsertEvent(event: EchoEvent)
      requires Pooled() && Listed(eventList, events) && event !in events && event.next == null
      modifies this`eventList, this`events, pool`next, event`next
      ensures AllBefore(old(events), event.timeout) ==>
                events == old(events) + [event] && Listed(eventList, events)
      ensures !AllBefore(old(events), event.timeout) ==>
                && events == old(events) && eventList == old(eventList)
                && exists k :: && 0 <= k < |events| && AllBefore(events[..k], event.timeout)
                               && events[k].next == event && event.next == events[k]
                               && forall i {:trigger events[i].next} ::
                                    0 <= i < k ==> events[i].next == At(events, i + 1)
    {
      var prev: EchoEvent?, cur := null, eventList;
      ghost var k := 0;
      while cur != null && event.timeout > cur.timeout
        invariant 0 <= k <= |events| && cur == At(events, k) && prev == At(events, k - 1)
        invariant AllBefore(events[..k], event.timeout)
        decreases |events| - k
      {
        prev := cur;
        cur := cur.next;
        k := k + 1;
      }
      if cur == null {
        assert events[..k] == events;
        if prev == null {
          eventList := event;
        } else {
          prev.next := event;
        }
        event.next := null;
        events := events + [event];
      } else {
        event.next := cur;
        cur.next := event;
      }
    }

    /** Takes the k-th event out of the list. */
    method Unlink(prev: EchoEvent?, cur: EchoEvent, ghost k: nat)
      requires Pooled() && Listed(eventList, events)
      requires k < |events| && cur == events[k] && prev == At(events, k - 1)
      modifies this`eventList, this`events, pool`next
      ensures Pooled() && Listed(eventList, events)
      ensures events == old(events)[..k] + old(events)[k + 1..]
    {
      if prev == null {
        eventList := cur.next;
      } else {
        prev.next := cur.next;
      }
      ghost var was := events;
      events := was[..k] + was[k + 1..];
      assert forall i :: 0 <= i < |events| ==> events[i] == if i < k then was[i] else was[i + 1];
    }

    /** Removes the first event with the given number, if there is one. */
    method RemoveEvent(echoSeq: uint16) returns (removed: bool)
      requires Pooled() && Listed(eventList, events)
      modifies this`eventList, this`events, pool`next
      ensures Pooled() && Listed(eventList, events)
      ensures removed <==> exists i :: 0 <= i < |old(events)| && old(events)[i].echoSeq == echoSeq
      ensures !removed ==> events == old(events)
      ensures removed ==> exists k :: && 0 <= k < |old(events)| && old(events)[k].echoSeq == echoSeq
                                      && (forall i :: 0 <= i < k ==> old(events)[i].echoSeq != echoSeq)
                                      && events == old(events)[..k] + old(events)[k + 1..]
      ensures Dues(events) == Closed(Dues(old(events)), echoSeq) && removed == Open(Dues(old(events)), echoSeq)
    {
      hide Open, Closed, Dues;
      removed := false;
      var prev: EchoEvent?, cur := null, eventList;
      ghost var k := 0;
      while cur != null
        invariant 0 <= k <= |events| && cur == At(events, k) && prev == At(events, k - 1)
        invariant forall i :: 0 <= i < k ==> events[i].echoSeq != echoSeq
        decreases |events| - k
      {
        if cur.echoSeq == echoSeq {
          RemovedIs(events, events[..k] + events[k + 1..], echoSeq, k);
          Unlink(prev, cur, k);
          return true;
        }
        prev := cur;
        cur := cur.next;
        k := k + 1;
      }
      NoneRemoved(events, echoSeq);
    }

    /** Sends one echo request at the given time. The number goes into 16 bits. */
    method DoSend(now: int, memory: bool, sendOk: bool) returns (result: SendResult)
      requires Valid() && Going() && lastSend < now
      modifies this`countSend, this`eventList, this`events, this`pool, this`trace, this`lastSend, pool`next
      ensures Valid() && lastSend == now
      ensures trace == old(trace) + [Sent(memory)]
      ensures result == if !memory then MemoryStarvation else if sendOk then PingOutSuccess else PingOutError
      ensures if memory
              then && |events| == |old(events)| + 1 && events[..|old(events)|] == old(events)
                   && fresh(events[|events| - 1])
                   && events[|events| - 1].timeout == now + 1000 * echoTimeout
                   && events[|events| - 1].echoSeq == old(countSend) % TWO16
              else events == old(events)
      ensures InHand() == Requested(old(InHand()), now, memory)
      ensures old(pool) <= pool && fresh(pool - old(pool))
    {
      hide Counted, Listed, Dues, AllBefore, StrictlySorted, Possible, Number, Trailing;
      ghost var before := lastSend + 1000 * echoTimeout + 1;
      EarlierStaysBefore(events, before, now + 1000 * echoTimeout + 1);
      var echoSeq := countSend % TWO16;
      CountSent(Counters(), trace, memory);
      MayFollow(Sent(memory));
      countSend := Increment(countSend);
      trace := trace + [Sent(memory)];
      lastSend := now;
      if !memory {
        return MemoryStarvation;
      }
      var event := new EchoEvent(echoSeq, now + 1000 * echoTimeout);
      LaterKeepsOrder(events, event, before);
      DuesSnoc(events, event);
      InsertEvent(event);
      pool := pool + {event};
      if !sendOk {
        return PingOutError;
      }
      result := PingOutSuccess;
    }

    /** _do_read: a failed receive or select on a stopped engine means the socket was closed. */
    method DoRead(outcome: SelectOutcome) returns (result: PrivateResult)
      ensures result == SocketClosed <==> !ongoing && (outcome == RecvFailed(true) || outcome == BadDescriptor)
      ensures result == RecvError <==> outcome.RecvFailed? && (ongoing || outcome != RecvFailed(true))
      ensures result == SelectError <==> outcome == OtherError || (ongoing && outcome == BadDescriptor)
      ensures result == SelectTimeout <==> outcome == NoPacket || outcome == Interrupted
      ensures outcome.Packet? ==> result == outcome.verdict
    {
      match outcome
      case NoPacket => result := SelectTimeout;
      case Packet(verdict) => result := verdict;
      case RecvFailed(minusOne) => result := if minusOne && !ongoing then SocketClosed else RecvError;
      case Interrupted => result := SelectTimeout;
      case BadDescriptor => result := if ongoing then SelectError else SocketClosed;
      case OtherError => result := SelectError;
    }

    /** The soonest event has timed out. */
    method TimeOutSoonest()
      requires Valid() && events != [] && Going() && trace != []
      modifies this`countLate, this`countConsecLate, this`eventList, this`events, this`trace, pool`next
      ensures Valid() && events == old(events)[1..] && trace == old(trace) + [TimedOut]
      ensures countConsecLate == old(countConsecLate) + 1 && NoSendSince(old(trace), trace)
      ensures old(InHand()).due != []
      ensures InHand() == old(InHand()).(consecLate := old(countConsecLate) + 1, due := old(InHand()).due[1..],
                                         trace := old(trace) + [TimedOut])
    {
      hide Counted, Possible, StrictlySorted, AllBefore, Dues, Closed, Open;
      CountTimedOut(Counters(), trace);
      MayFollow(TimedOut);
      countLate := Increment(countLate);
      countConsecLate := countConsecLate + 1;
      SameSends(trace, TimedOut);
      trace := trace + [TimedOut];
      ghost var list := events;
      assert eventList == list[0];
      hide Listed;
      var removed := RemoveEvent(eventList.echoSeq);
      assert events == list[1..];
      RemovalKeepsOrder(list, events, lastSend + 1000 * echoTimeout + 1);
      RestDues(list);
    }

    /** An on-time reply: it answers its event, or cancels a timeout counted too early. */
    method AcceptReply(echoSeq: uint16)
      requires Valid() && Going() && trace != []
      modifies this`countLate, this`countOntime, this`countConsecLate
      modifies this`eventList, this`events, this`trace, pool`next
      ensures Valid() && countConsecLate == 0
      ensures var v := old(InHand());
              InHand() == v.(consecLate := 0, due := Closed(v.due, echoSeq),
                             trace := v.trace + [OnTime(Open(v.due, echoSeq))])
      ensures NoSendSince(old(trace), trace)
    {
      hide Counted, Listed, Dues, Closed, Open, Possible, StrictlySorted, AllBefore, NoSendSince, Number, Trailing;
      OpenMeansSome(events, echoSeq);
      MayFollow(OnTime(Open(Dues(events), echoSeq)));
      countConsecLate := 0;
      countOntime := Increment(countOntime);
      ghost var list := events;
      var removed := RemoveEvent(echoSeq);
      if !removed {
        countLate := Decrement(countLate);
      } else {
        RemovalKeepsOrder(list, events, lastSend + 1000 * echoTimeout + 1);
      }
      CountOnTime(old(Counters()), trace, removed);
      SameSends(trace, OnTime(removed));
      trace := trace + [OnTime(removed)];
    }

    method Stop()
      requires Valid()
      modifies this`ongoing
      ensures Valid() && !ongoing && InHand() == old(InHand()).(ongoing := false)
    {
      ongoing := false;
    }

    lemma HeadAndFirst()
      requires Valid()
      ensures eventList != null <==> events != []
      ensures events != [] ==> eventList == events[0] && Dues(events)[0] == Due(events[0].echoSeq, events[0].timeout)
    {
      HeadMeansEvents(eventList, events);
    }

    /** The wait is over: if it lasted until the soonest event was due, that event has timed out. */
    method Expire(timeLeft: int, now: int)
      requires Valid() && Going() && trace != []
      modifies this`countLate, this`countConsecLate, this`eventList, this`events, this`trace, pool`next
      ensures Valid() && NoSendSince(old(trace), trace) && trace != [] && !Starved(trace)
      ensures InHand() == Dispatched(old(InHand()), SelectTimeout, timeLeft, now).0
    {
      HeadAndFirst();
      hide Counted, Listed, NoSendSince, StrictlySorted, AllBefore, Pooled, Valid, Possible, Dues, Number, Trailing;
      NoSendYet(trace);
      var readDelay := if eventList != null then eventList.timeout - now else 1000 * sendInterval;
      if timeLeft > readDelay && eventList != null {
        TimeOutSoonest();
      }
    }

    /** What a turn of the read loop does about the result of its read. */
    method Dispatch(priv: PrivateResult, timeLeft: int, now: int) returns (result: Result)
      requires Valid() && Going() && trace != []
      modifies this`ongoing, this`countLate, this`countOntime, this`countConsecLate
      modifies this`eventList, this`events, this`trace, pool`next
      ensures Valid() && NoSendSince(old(trace), trace)
      ensures trace != [] && !Starved(trace)
      ensures (InHand(), result) == Dispatched(old(InHand()), priv, timeLeft, now)
      ensures Effect(old(InHand()), priv, timeLeft, now, InHand(), result)
      ensures result == if priv.SelectError? || priv.RecvError? || priv.PacketBadCode?
                        then GeneralEchoError else Success
      ensures result == GeneralEchoError ==> !ongoing
      ensures ongoing ==> old(ongoing)
    {
      hide Counted, Listed, NoSendSince, StrictlySorted, AllBefore, Closed, Open, Pooled, Valid, Possible, Dues;
      hide Number, Trailing;
      hide Effect;
      result := Success;
      NoSendYet(trace);
      DispatchMeaning(InHand(), priv, timeLeft, now);
      match priv {
        case PacketBad =>
        case PacketIgnored =>
        case SelectTimeout =>
          Expire(timeLeft, now);
        case PingInOnTime(echoSeq) =>
          AcceptReply(echoSeq);
          StopAfterLast();
        case PingInLate(_) =>
          StopAfterLast();
        case SocketClosed =>
          Stop();
        case _ =>
          Stop();
          result := GeneralEchoError;
      }
    }

    /** The reply to the last request ends the processing. */
    method StopAfterLast()
      requires Valid()
      modifies this`ongoing
      ensures Valid() && InHand() == Ended(old(InHand()))
      ensures ongoing == (old(ongoing) && !(echoNum != 0 && countSend >= echoNum))
    {
      if echoNum != 0 && countSend >= echoNum {
        ongoing := false;
      }
    }

    /** One turn of the read loop. timeLeft was computed at the end of the previous turn. */
    method ReadTurn(turn: Turn, timeLeft: int) returns (result: Result)
      requires Valid() && Going() && trace != []
      modifies this`ongoing, this`countLate, this`countOntime, this`countConsecLate
      modifies this`eventList, this`events, this`trace, pool`next
      ensures Valid() && NoSendSince(old(trace), trace)
      ensures trace != [] && !Starved(trace)
      ensures countConsecLate <= threshold && (result == GeneralEchoTimeout <==> countConsecLate == threshold)
      ensures result == GeneralEchoTimeout || result == GeneralEchoError ==> !ongoing
      ensures result in {Success, GeneralEchoTimeout, GeneralEchoError}
      ensures ongoing ==> old(ongoing) && !turn.stop
      ensures (InHand(), result) == Turned(old(InHand()), turn, timeLeft)
      ensures TurnEffect(old(InHand()), turn, timeLeft, InHand(), result)
      ensures turn.outcome.Packet? && turn.outcome.verdict.PingInOnTime? ==> countConsecLate == 0 && result == Success
    {
      TurnMeaning(InHand(), turn, timeLeft);
      hide Counted, Listed, NoSendSince, StrictlySorted, AllBefore, Possible, TurnEffect, Effect;
      if turn.stop {
        ongoing := false;
      }
      var priv := DoRead(turn.outcome);
      result := Dispatch(priv, timeLeft, turn.now);
      if countConsecLate >= threshold {
        result := GeneralEchoTimeout;
        ongoing := false;
      }
    }

    /** Reads until the reference time, a stop, or a result that ends the processing. */
    method DoReadWrap(reference: int, start: int, turns: seq<Turn>) returns (result: Result)
      requires Valid() && Going() && trace != []
      modifies this`ongoing, this`countLate, this`countOntime, this`countConsecLate
      modifies this`eventList, this`events, this`trace, pool`next
      ensures Valid()
      ensures NoSendSince(old(trace), trace)
      ensures trace != [] && !Starved(trace)
      ensures countConsecLate <= threshold && (result == GeneralEchoTimeout <==> countConsecLate == threshold)
      ensures result == GeneralEchoTimeout || result == GeneralEchoError ==> !ongoing
      ensures result in {Success, GeneralEchoTimeout, GeneralEchoError, Running}
      ensures (InHand(), result) == Waited(old(InHand()), reference, start, turns)
    {
      hide Counted, Listed, NoSendSince, Valid, Turned, Dispatched, Dues, TurnEffect, Effect, Number, Trailing;
      NoSendYet(trace);
      var timeLeft := reference - start;
      if timeLeft <= 0 {
        return Success;
      }
      ghost var first := Looped(InHand(), reference, timeLeft, turns);
      var i := 0;
      assert turns[0..] == turns;
      while true
        invariant 0 <= i <= |turns|
        invariant Valid() && Going() && trace != []
        invariant NoSendSince(old(trace), trace)
        invariant Looped(InHand(), reference, timeLeft, turns[i..]) == first
        decreases |turns| - i
      {
        assert i < |turns| ==> turns[i..][1..] == turns[i + 1..];
        if i == |turns| {
          return Running;
        }
        ghost var was := trace;
        result := ReadTurn(turns[i], timeLeft);
        NoSendStill(old(trace), was, trace);
        timeLeft := reference - turns[i].after;
        i := i + 1;
        if !(timeLeft > 0 && ongoing) {
          return result;
        }
      }
    }

    /** One turn of the main loop: a request, then reading until it is time for the next. */
    method RunRound(round: Round) returns (result: Result)
      requires Valid() && Going() && lastSend < round.sendTime
      modifies this`ongoing, this`countSend, this`countLate, this`countOntime, this`countConsecLate
      modifies this`eventList, this`events, this`pool, this`trace, this`lastSend, pool`next
      ensures Valid() && lastSend == round.sendTime && old(trace) <= trace
      ensures result == GeneralEchoTimeout <==> countConsecLate == threshold
      ensures result == GeneralEchoTimeout ==> !ongoing
      ensures result == Success ==> Going()
      ensures (InHand(), result) == Rounded(old(InHand()), round)
      ensures old(pool) <= pool && fresh(pool - old(pool))
    {
      hide Counted, Listed, Sends, StrictlySorted, AllBefore, Requested, Waited, Dues, Possible, Valid;
      var sent := DoSend(round.sendTime, round.memory, round.sendOk);
      match sent {
        case PingOutSuccess =>
        case MemoryStarvation => return ResourceStarvation;
        case PingOutError => return GeneralEchoError;
      }
      if round.stop {
        Stop();
      }
      if !ongoing {
        return Success;
      }
      result := DoReadWrap(round.reference, round.start, round.turns);
    }

    /** IEE_process in keepalive mode, under any behaviour of clock, socket, memory and IEE_stop, the
        clock increasing from one request to the next. It reports a general timeout exactly when the
        timeouts since the last on-time reply have reached the threshold. */
    method Process(stoppedAsleep: bool, rounds: seq<Round>) returns (result: Result)
      requires Valid() && Going()
      requires forall i :: 0 <= i < |rounds| ==> lastSend < rounds[i].sendTime
      requires forall i, j :: 0 <= i < j < |rounds| ==> rounds[i].sendTime < rounds[j].sendTime
      modifies this, pool`next
      ensures Valid() && old(trace) <= trace
      ensures result == GeneralEchoTimeout <==> Trailing(trace) == threshold
      ensures result == GeneralEchoTimeout ==> !ongoing
      ensures (InHand(), result) == Rounds(old(InHand()).(ongoing := old(ongoing) && !stoppedAsleep), rounds)
    {
      hide Listed, Sends, StrictlySorted, AllBefore, Rounded, Dues, Trailing, Possible, Pooled;
      result := Success;
      if stoppedAsleep {
        ongoing := false;
      }
      ghost var whole := Rounds(InHand(), rounds);
      var i := 0;
      assert rounds[0..] == rounds;
      while ongoing && (echoNum == 0 || countSend < echoNum)
        invariant 0 <= i <= |rounds| && result == Success
        invariant Valid() && Going() && old(trace) <= trace
        invariant forall k :: i <= k < |rounds| ==> lastSend < rounds[k].sendTime
        invariant old(pool) <= pool && fresh(pool - old(pool))
        invariant Rounds(InHand(), rounds[i..]) == whole
        decreases |rounds| - i
      {
        if i == |rounds| {
          return Running;
        }
        assert rounds[i..][1..] == rounds[i + 1..];
        result := RunRound(rounds[i]);
        if result != Success {
          return result;
        }
        i := i + 1;
      }
    }
  }

  /** The 16-bit numbers go on where the 32-bit counter wraps. */
  lemma NextNumber(sent: uint32, i: nat)
    ensures (Increment(sent) + i) % TWO16 == (sent + (i + 1)) % TWO16
  {
  }

  lemma NoSendYet(t: Trace)
    ensures NoSendSince(t, t)
  {
  }

  lemma NoSendStill(a: Trace, b: Trace, c: Trace)
    requires NoSendSince(a, b) && NoSendSince(b, c)
    ensures NoSendSince(a, c)
  {
  }

  lemma HeadMeansEvents(head: EchoEvent?, events: seq<EchoEvent>)
    requires Listed(head, events)
    ensures head != null <==> events != []
  {
  }

  lemma SameSends(t: Trace, o: Observation)
    requires !o.Sent?
    ensures NoSendSince(t, t + [o])
  {
  }

  lemma EarlierStaysBefore(events: seq<EchoEvent>, time: int, later: int)
    requires AllBefore(events, time) && time <= later
    ensures AllBefore(events, later)
  {
  }

  lemma LaterKeepsOrder(events: seq<EchoEvent>, event: EchoEvent, time: int)
    requires StrictlySorted(events) && AllBefore(events, time) && time <= event.timeout
    ensures AllBefore(events, event.timeout)
    ensures StrictlySorted(events + [event]) && AllBefore(events + [event], event.timeout + 1)
  {
  }

  lemma RemovalKeepsOrder(list: seq<EchoEvent>, events: seq<EchoEvent>, time: int)
    requires StrictlySorted(list) && AllBefore(list, time)
    requires exists k :: 0 <= k < |list| && events == list[..k] + list[k + 1..]
    ensures StrictlySorted(events) && AllBefore(events, time) && |events| == |list| - 1
  {
  }

  /** How one more observation changes the counts. */
  lemma TraceSnoc(t: Trace, o: Observation)
    ensures forall p :: Number(t + [o], p) == Number(t, p) + (if o == p then 1 else 0)
    ensures Trailing(t + [o]) ==
            match o case TimedOut => Trailing(t) + 1 case OnTime(_) => 0 case Sent(_) => Trailing(t)
  {
  }
}
