/** The send queue, its semaphore and one turn of each worker thread, run one call at a time
    (messagesender.cc, communicationsmgr.cc); Transport interleaves the same steps. */
module Managers {
  import opened Bytes
  import opened Messages
  import opened Servents
  import opened Reassembly
  import Transport

  const MAX_QUEUE_ITEMS := Transport.MAX_QUEUE_ITEMS

  datatype Peek = PeekError | Incoming | Nothing

  /** What becomes of a thread after a turn; Waits stands for one that is still blocked on the channel. */
  datatype Ending = GoesOn | Ends | Waits

  /** A turn of the sender on values: queue, semaphore and message number after it, the packets it put
      into the pipe, and what becomes of the thread. */
  datatype Turn = Turn(queue: seq<Message>, semaphore: nat, seqNum: bits6, packets: seq<Packet>, ending: Ending)

  /** How many packets of the front message a turn gets into the pipe. */
  function PacketsOut(m: Message, events: seq<WriteEvent>): nat {
    Progress(events, 0, FragmentCount(|m|)).packets
  }

  function SendersTurn(queue: seq<Message>, semaphore: nat, seqNum: bits6, peek: Peek, locked: bool,
                       events: seq<WriteEvent>): Turn
    requires semaphore > 0 ==> queue != []
  {
    if semaphore == 0 || peek == Incoming then Turn(queue, semaphore, seqNum, [], GoesOn)
    else if peek == PeekError || !locked then Turn(queue, semaphore - 1, seqNum, [], Ends)
    else
      var k, packets := PacketsOut(queue[0], events), Fragments(queue[0], seqNum);
      if k == |packets| then Turn(queue[1..], semaphore - 1, (seqNum + 1) % 64, packets, GoesOn)
      else Turn(queue, semaphore - 1, seqNum, packets[..k],
                if Progress(events, 0, |packets|).status == Blocked then Waits else Ends)
  }

  /** What a write under the given channel behaviour means for the sender: it goes on exactly
      when every packet of the message is in the pipe. */
  lemma {:induction false} ProgressMeaning(events: seq<WriteEvent>, from: nat, need: nat)
    requires from <= |events|
    ensures var r := Progress(events, from, need);
            && r.packets == |Sends(events[from..r.used])|
            && (r.packets == need ==> r.status == NoError)
            && (r.status == Blocked ==> r.used == |events|)
            && (r.status == NoError && r.packets < need ==> r.used > from && events[r.used - 1] == ShortWrite)
            && (forall i :: from <= i < r.used && (events[i].WriteFailed? || events[i].WritePeekFailed?) ==>
                  i == r.used - 1 && r.status.Io?)
    decreases |events| - from
  {
    var r := Progress(events, from, need);
    if need > 0 && from < |events| {
      assert events[from..r.used][1..] == events[from + 1..r.used];
      match events[from]
      case Busy => ProgressMeaning(events, from + 1, need);
      case Sent => ProgressMeaning(events, from + 1, need - 1);
      case _ => assert events[from + 1..r.used] == [];
    }
  }

  /** The successful packet writes in a stretch of channel behaviour. */
  function Sends(events: seq<WriteEvent>): seq<WriteEvent> {
    if events == [] then []
    else (if events[0] == Sent then [Sent] else []) + Sends(events[1..])
  }

  class CommunicationsManager {
    var status: Transport.ManagerStatus
    var senderEnabled: bool
    var queue: seq<Message>
    var semaphore: nat
    var nMsgSent: nat
    var nMsgProcessed: nat
    /** Messages given to the processor. */
    var processed: seq<seq<byte>>
    const servent: Servent

    ghost predicate Valid()
      reads this
    {
      && |queue| == semaphore && |queue| <= MAX_QUEUE_ITEMS
      && (senderEnabled <==> status == Transport.Connected)
    }

    constructor (servent: Servent)
      ensures Valid() && this.servent == servent
      ensures status == Transport.Disconnected && queue == [] && nMsgSent == 0 && nMsgProcessed == 0
    {
      this.servent := servent;
      queue, semaphore, nMsgSent, nMsgProcessed, processed := [], 0, 0, 0, [];
      status, senderEnabled := Transport.Disconnected, false;
    }

    method SetState(s: Transport.ManagerStatus)
      requires Valid()
      modifies this`status, this`senderEnabled
      ensures Valid() && status == s
    {
      status := s;
      senderEnabled := status == Transport.Connected;
    }

    /** A message is queued, with one release of the semaphore, exactly when the sender is enabled
        and the queue is not full; otherwise it is dropped. */
    method PostMessage(m: Message)
      requires Valid()
      modifies this`queue, this`semaphore
      ensures Valid()
      ensures if status == Transport.Connected && |old(queue)| < MAX_QUEUE_ITEMS
              then queue == old(queue) + [m] && semaphore == old(semaphore) + 1
              else queue == old(queue) && semaphore == old(semaphore)
    {
      if senderEnabled && |queue| < MAX_QUEUE_ITEMS {
        queue := queue + [m];
        semaphore := semaphore + 1;
      }
    }

    method Reset()
      requires Valid()
      modifies this`queue, this`semaphore
      ensures Valid() && queue == [] && semaphore == 0
    {
      while queue != []
        decreases |queue|
      {
        queue := queue[1..];
      }
      semaphore := 0;
    }

    /** One turn of the sender thread. A message leaves the queue exactly when all its packets are
        in the pipe; in every other turn the queue is as it was. */
    method SenderTurn(peek: Peek, locked: bool, events: seq<WriteEvent>) returns (ending: Ending)
      requires Valid()
      modifies this, servent
      ensures senderEnabled <==> status == Transport.Connected
      ensures processed == old(processed) && nMsgProcessed == old(nMsgProcessed)
      ensures old(servent.outgoing) <= servent.outgoing
      ensures Turn(queue, semaphore, servent.nSeqNum, servent.outgoing[|old(servent.outgoing)|..], ending)
              == SendersTurn(old(queue), old(semaphore), old(servent.nSeqNum), peek, locked, events)
      ensures nMsgSent == old(nMsgSent) + |old(queue)| - |queue|
      ensures status == if ending == Ends then Transport.Disconnected else old(status)
      ensures ending == GoesOn ==> Valid()
    {
      hide Fragments, FragmentCount;
      if semaphore == 0 {
        return GoesOn;
      }
      semaphore := semaphore - 1;
      if peek == PeekError {
        status, senderEnabled := Transport.Disconnected, false;
        return Ends;
      }
      if peek == Incoming {
        semaphore := semaphore + 1;
        return GoesOn;
      }
      var m := queue[0];
      if !locked {
        status, senderEnabled := Transport.Disconnected, false;
        return Ends;
      }
      ProgressMeaning(events, 0, FragmentCount(|m|));
      var ret, nBytesSent, _ := servent.WriteData(m, events);
      if ret == Blocked {
        return Waits;
      }
      if ret != NoError {
        status, senderEnabled := Transport.Disconnected, false;
        return Ends;
      }
      if nBytesSent != GetRawSize(m) {
        status, senderEnabled := Transport.Disconnected, false;
        return Ends;
      }
      queue := queue[1..];
      nMsgSent := nMsgSent + 1;
      ending := GoesOn;
    }

    /** One turn of the receiver thread, with its 64260-byte buffer. */
    method ReceiverTurn(peek: Peek, locked: bool, events: seq<ReadEvent>) returns (ending: Ending)
      requires Valid()
      modifies this
      ensures Valid() && queue == old(queue) && nMsgSent == old(nMsgSent)
      ensures var r := Reassemble(FRESH, events, Transport.RECV_BUFFER);
              var tries := peek == Incoming && locked;
              var got := tries && r.status == NoError;
              && processed == old(processed) + (if got then [r.bytes] else [])
              && nMsgProcessed == old(nMsgProcessed) + (if got then 1 else 0)
              && ending == (if got || peek == Nothing then GoesOn
                            else if tries && r.status == Blocked then Waits else Ends)
              && status == (if ending == Ends then Transport.Disconnected else old(status))
    {
      if peek == PeekError || (peek == Incoming && !locked) {
        status, senderEnabled := Transport.Disconnected, false;
        return Ends;
      }
      if peek == Nothing {
        return GoesOn;
      }
      var recvBuffer := new byte[Transport.RECV_BUFFER];
      var ret, nMessageLen, _ := ReadData(events, recvBuffer);
      if ret == Blocked {
        return Waits;
      }
      if ret != NoError {
        status, senderEnabled := Transport.Disconnected, false;
        return Ends;
      }
      processed := processed + [recvBuffer[..nMessageLen]];
      nMsgProcessed := nMsgProcessed + 1;
      ending := GoesOn;
    }
  }

  // ---------- One turn is the run of its steps ----------

  function Writes(k: nat): seq<Transport.Step> {
    if k == 0 then [] else [Transport.WritePacket] + Writes(k - 1)
  }

  /** How a turn ends once its packets are in the pipe. */
  function LastSteps(ending: Ending): seq<Transport.Step> {
    match ending
    case GoesOn => [Transport.FinishWrite] + ([Transport.Pop] + [])
    case Ends => [Transport.WriteBreaks] + []
    case Waits => []
  }

  /** The steps of a turn of the sender thread. */
  function StepsOf(t: Turn, semaphore: nat, peek: Peek, locked: bool): seq<Transport.Step> {
    if semaphore == 0 then []
    else
      [Transport.TakeToken] +
      if peek == Incoming then [Transport.PeerTalking] + []
      else if peek == PeekError then [Transport.PeekFails] + []
      else if !locked then [Transport.CannotLock] + []
      else [Transport.StartWrite] + (Writes(|t.packets|) + LastSteps(t.ending))
  }

  /** Where the sender thread stands after a turn. */
  function SenderAfter(t: Turn): Transport.Sender {
    match t.ending
    case GoesOn => Transport.Waiting
    case Ends => Transport.Dead(|t.packets|, true)
    case Waits => Transport.Writing(|t.packets|)
  }

  /** The state a turn on values leads to. */
  function After(s: Transport.State, t: Turn): Transport.State {
    s.(queue := t.queue, semaphore := t.semaphore, seqNum := t.seqNum, pipe := s.pipe + t.packets,
       sent := s.sent + if |t.queue| < |s.queue| then 1 else 0, sender := SenderAfter(t),
       status := if t.ending == Ends then Transport.Disconnected else s.status)
  }

  lemma EndOfWrite(s: Transport.State, ending: Ending)
    requires s.queue != [] && s.sender.Writing? && s.sender.k <= FragmentCount(|s.queue[0]|)
    requires ending == GoesOn <==> s.sender.k == FragmentCount(|s.queue[0]|)
    ensures Transport.Legal(s, LastSteps(ending))
    ensures Transport.Run(s, LastSteps(ending)) ==
            match ending
            case GoesOn => s.(sender := Transport.Waiting, seqNum := (s.seqNum + 1) % 64,
                              queue := s.queue[1..], sent := s.sent + 1)
            case Ends => s.(sender := Transport.Dead(s.sender.k, true), status := Transport.Disconnected)
            case Waits => s
  {
    hide FragmentCount;
    match ending
    case GoesOn =>
      var t := Transport.Do(s, Transport.FinishWrite);
      var u := Transport.Do(t, Transport.Pop);
      Transport.RunCons(t, Transport.Pop, []);
      Transport.RunCons(s, Transport.FinishWrite, [Transport.Pop] + []);
      assert Transport.Run(u, []) == u;
    case Ends =>
      var t := Transport.Do(s, Transport.WriteBreaks);
      Transport.RunCons(s, Transport.WriteBreaks, []);
      assert Transport.Run(t, []) == t;
    case Waits =>
  }

  /** The state with the packets up to the given one in the pipe. */
  function Written(s: Transport.State, upTo: nat): Transport.State
    requires s.sender.Writing? && s.queue != [] && s.sender.k <= upTo <= FragmentCount(|s.queue[0]|)
  {
    s.(sender := Transport.Writing(upTo), pipe := s.pipe + Fragments(s.queue[0], s.seqNum)[s.sender.k..upTo])
  }

  /** Writing packets one by one, and then whatever comes next. */
  lemma {:induction false} WriteSteps(s: Transport.State, upTo: nat, rest: seq<Transport.Step>)
    requires s.sender.Writing? && s.queue != [] && s.sender.k <= upTo <= FragmentCount(|s.queue[0]|)
    requires Transport.Legal(Written(s, upTo), rest)
    ensures Transport.Legal(s, Writes(upTo - s.sender.k) + rest)
    ensures Transport.Run(s, Writes(upTo - s.sender.k) + rest) == Transport.Run(Written(s, upTo), rest)
    decreases upTo - s.sender.k
  {
    hide Transport.Run, Transport.Legal, FragmentCount, Fragments, Fragment;
    var k := s.sender.k;
    var whole := Fragments(s.queue[0], s.seqNum);
    if k == upTo {
      assert s.pipe + whole[k..k] == s.pipe;
      assert Writes(0) + rest == rest;
    } else {
      var t := Transport.Do(s, Transport.WritePacket);
      assert t.pipe + whole[k + 1..upTo] == s.pipe + whole[k..upTo];
      WriteSteps(t, upTo, rest);
      hide Transport.Do, Transport.Enabled;
      Transport.RunCons(s, Transport.WritePacket, Writes(upTo - k - 1) + rest);
      Associates([Transport.WritePacket], Writes(upTo - k - 1), rest);
    }
  }

  /** The steps of the sender thread, taken without interruption, do what SenderTurn does, whatever the
      channel does: the same queue, semaphore and message number, the same packets in the pipe, the same
      end. */
  lemma TurnIsItsSteps(s: Transport.State, peek: Peek, locked: bool, events: seq<WriteEvent>)
    requires s.sender == Transport.Waiting && s.semaphore <= s.capacity && (s.semaphore > 0 ==> s.queue != [])
    ensures var t := SendersTurn(s.queue, s.semaphore, s.seqNum, peek, locked, events);
            var steps := StepsOf(t, s.semaphore, peek, locked);
            Transport.Legal(s, steps) && Transport.Run(s, steps) == After(s, t)
  {
    var t := SendersTurn(s.queue, s.semaphore, s.seqNum, peek, locked, events);
    if s.semaphore == 0 {
      assert s.pipe + [] == s.pipe;
    } else {
      var u := Transport.Do(s, Transport.TakeToken);
      if peek == Nothing && locked {
        WritingTurn(s, u, t, events);
      } else {
        var step := if peek == Incoming then Transport.PeerTalking
                    else if peek == PeekError then Transport.PeekFails else Transport.CannotLock;
        var v := Transport.Do(u, step);
        assert s.pipe + [] == s.pipe;
        Transport.RunCons(u, step, []);
        Transport.RunCons(s, Transport.TakeToken, [step] + []);
        assert Transport.Run(v, []) == v;
      }
    }
  }

  /** The three steps of a post, taken without interruption, do what PostMessage does; and the poster is
      let through by its check exactly when PostMessage does not drop the message. */
  lemma PostIsItsSteps(s: Transport.State, m: Message)
    requires s.poster == Transport.Idle && s.semaphore < s.capacity
    ensures Transport.Enabled(s, Transport.CheckPost(m)) <==>
              s.status == Transport.Connected && |s.queue| < MAX_QUEUE_ITEMS
    ensures Transport.Enabled(s, Transport.CheckPost(m)) ==>
              var steps := [Transport.CheckPost(m)] + ([Transport.Push] + ([Transport.ReleasePost] + []));
              && Transport.Legal(s, steps)
              && Transport.Run(s, steps) == s.(queue := s.queue + [m], semaphore := s.semaphore + 1,
                                               accepted := s.accepted + [m])
  {
    if Transport.Enabled(s, Transport.CheckPost(m)) {
      var t := Transport.Do(s, Transport.CheckPost(m));
      var u := Transport.Do(t, Transport.Push);
      var v := Transport.Do(u, Transport.ReleasePost);
      Transport.RunCons(u, Transport.ReleasePost, []);
      Transport.RunCons(t, Transport.Push, [Transport.ReleasePost] + []);
      Transport.RunCons(s, Transport.CheckPost(m), [Transport.Push] + ([Transport.ReleasePost] + []));
      assert Transport.Run(v, []) == v;
    }
  }

  lemma WritingTurn(s: Transport.State, u: Transport.State, t: Turn, events: seq<WriteEvent>)
    requires s.sender == Transport.Waiting && s.semaphore > 0 && s.queue != []
    requires u == Transport.Do(s, Transport.TakeToken)
    requires t == SendersTurn(s.queue, s.semaphore, s.seqNum, Nothing, true, events)
    ensures var steps := StepsOf(t, s.semaphore, Nothing, true);
            Transport.Legal(s, steps) && Transport.Run(s, steps) == After(s, t)
  {
    hide FragmentCount, Fragments, Writes, LastSteps, Transport.Run, Transport.Legal, Progress;
    var k, whole := PacketsOut(s.queue[0], events), Fragments(s.queue[0], s.seqNum);
    var w := Transport.Do(u, Transport.StartWrite);
    assert whole[0..k] == whole[..k] == t.packets;
    EndOfWrite(Written(w, k), t.ending);
    WriteSteps(w, k, LastSteps(t.ending));
    var rest := Writes(k) + LastSteps(t.ending);
    Transport.RunCons(u, Transport.StartWrite, rest);
    Transport.RunCons(s, Transport.TakeToken, [Transport.StartWrite] + rest);
  }
}
