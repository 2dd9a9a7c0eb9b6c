/** Posting, sending, receiving and resetting as interleaved steps
    (communicationsmgr.cc, messagesender.cc) over the packets of servent.cc. */
module Transport {
  import opened Bytes
  import opened Messages
  import opened Options
  import opened Servents
  import opened Reassembly

  const MAX_QUEUE_ITEMS := 512
  const RECV_BUFFER := 64260

  /** What the semaphore can count to: 512 on Windows, whatever the system allows on Linux. */
  type Capacity = n: nat | n >= MAX_QUEUE_ITEMS witness MAX_QUEUE_ITEMS

  datatype ManagerStatus = Disconnected | PendingConnection | Connected | FatalError

  /** PostMessage: the check, the push and the release of the semaphore are three steps. */
  datatype Poster = Idle | Checked(msg: Message) | Pushed

  /** SenderThread::Work. Writing(k): k packets of the front message are in the pipe;
      Written: the last one is, and the message number has advanced. */
  datatype Sender =
    | Waiting
    | Token
    | Writing(k: nat)
    | Written
    | Dead(k: nat, holdsToken: bool)

  /** ReceiverThread::Work in the peer. */
  datatype Receiver =
    | Listening
    | Reading(rs: ReadState)
    | Holding(bytes: seq<byte>)
    | Broken(status: Status)

  /** ownFailed: the receiver thread of this process, which serves the other direction, has ended with an
      error. The last five fields are histories of the current connection. */
  datatype State = State(
    status: ManagerStatus,
    initializing: bool,
    poster: Poster,
    queue: seq<Message>,
    semaphore: nat,
    capacity: Capacity,
    sender: Sender,
    seqNum: bits6,
    pipe: seq<Packet>,
    receiver: Receiver,
    ownFailed: bool,
    base: bits6,
    accepted: seq<Message>,
    sent: nat,
    consumed: seq<Packet>,
    delivered: seq<seq<byte>>)

  datatype Step =
    // The poster.
    | CheckPost(msg: Message)
    | Push
    | ReleasePost
    // The sender thread.
    | TakeToken
    | PeerTalking            // CanRead is true: give the token back
    | PeekFails              // CanRead reports an error
    | StartWrite
    | CannotLock             // the I/O mutex is not obtained in time
    | WritePacket
    | WriteBreaks            // an error or a short write
    | FinishWrite
    | Pop
    | StopSender
    // The receiver thread.
    | StartRead
    | ReadPacket
    | ReadBreaks(code: nat)  // an I/O error, a lost mutex, or a stop
    | Deliver
    // The manager thread.
    | Cleanup
    | Connect
    | InitFails(fatal: bool)
    // The receiver thread of this process.
    | OwnReceiverFails

  function Init(seqNum: bits6, capacity: Capacity): State {
    State(Disconnected, false, Idle, [], 0, capacity, Waiting, seqNum, [], Listening, false, seqNum, [], 0, [], [])
  }

  predicate Enabled(s: State, step: Step) {
    match step
    case CheckPost(_) => s.poster == Idle && s.status == Connected && |s.queue| < MAX_QUEUE_ITEMS
    case Push => s.poster.Checked?
    case ReleasePost => s.poster == Pushed
    case TakeToken => s.sender == Waiting && s.semaphore > 0
    case PeerTalking => s.sender == Token
    case PeekFails => s.sender == Token
    case StartWrite => s.sender == Token && s.queue != []
    case CannotLock => s.sender == Token
    case WritePacket => s.sender.Writing? && s.queue != [] && s.sender.k < FragmentCount(|s.queue[0]|)
    case WriteBreaks => s.sender.Writing? && s.queue != [] && s.sender.k < FragmentCount(|s.queue[0]|)
    case FinishWrite => s.sender.Writing? && s.queue != [] && s.sender.k == FragmentCount(|s.queue[0]|)
    case Pop => s.sender == Written && s.queue != []
    case StopSender => s.sender == Waiting
    case StartRead => s.receiver == Listening && s.pipe != []
    case ReadPacket => s.receiver.Reading? && s.pipe != []
    case ReadBreaks(_) => !s.receiver.Broken?
    case Deliver => s.receiver.Holding?
    case Cleanup => s.status == Disconnected && !s.initializing
    case Connect => s.initializing
    case InitFails(_) => s.initializing
    case OwnReceiverFails => true
  }

  function Do(s: State, step: Step): State
    requires Enabled(s, step)
  {
    match step
    case CheckPost(m) => s.(poster := Checked(m))
    case Push => s.(poster := Pushed, queue := s.queue + [s.poster.msg], accepted := s.accepted + [s.poster.msg])
    case ReleasePost => s.(poster := Idle, semaphore := Released(s))
    case TakeToken => s.(sender := Token, semaphore := s.semaphore - 1)
    case PeerTalking => s.(sender := Waiting, semaphore := Released(s))
    case PeekFails => s.(sender := Dead(0, true), status := Disconnected)
    case StartWrite => s.(sender := Writing(0))
    case CannotLock => s.(sender := Dead(0, true), status := Disconnected)
    case WritePacket =>
      s.(sender := Writing(s.sender.k + 1), pipe := s.pipe + [Fragment(s.queue[0], s.seqNum, s.sender.k)])
    case WriteBreaks => s.(sender := Dead(s.sender.k, true), status := Disconnected)
    case FinishWrite => s.(sender := Written, seqNum := (s.seqNum + 1) % 64)
    case Pop => s.(sender := Waiting, queue := s.queue[1..], sent := s.sent + 1)
    case StopSender => s.(sender := Dead(0, false))
    case StartRead => s.(receiver := Reading(FRESH))
    case ReadPacket =>
      s.(pipe := s.pipe[1..], consumed := s.consumed + [s.pipe[0]],
         receiver := match Receive(s.receiver.rs, s.pipe[0], RECV_BUFFER)
                     case More(rs) => Reading(rs)
                     case Finished(bytes) => Holding(bytes)
                     case Refused(status) => Broken(status))
    case ReadBreaks(c) => s.(receiver := Broken(Io(c)))
    case Deliver => s.(receiver := Listening, delivered := s.delivered + [s.receiver.bytes])
    case Cleanup => Reset(s)
    case Connect => s.(initializing := false, status := Connected)
    case InitFails(fatal) => s.(initializing := false, status := if fatal then FatalError else Disconnected)
    case OwnReceiverFails => s.(ownFailed := true, status := Disconnected)
  }

  /** A release of the semaphore; at its maximum it fails, and nobody looks at the result. */
  function Released(s: State): nat {
    if s.semaphore < s.capacity then s.semaphore + 1 else s.semaphore
  }

  /** Both threads end, the pipe goes, the queue is emptied and the semaphore replaced; the
      static message number and a poster caught in the middle of its call stay. */
  function Reset(s: State): State {
    Init(s.seqNum, s.capacity).(status := PendingConnection, initializing := true, poster := s.poster)
  }

  // ---------- Runs ----------

  ghost predicate Legal(s: State, steps: seq<Step>)
    decreases |steps|
  {
    steps != [] ==> Enabled(s, steps[0]) && Legal(Do(s, steps[0]), steps[1..])
  }

  ghost function Run(s: State, steps: seq<Step>): State
    requires Legal(s, steps)
    decreases |steps|
  {
    if steps == [] then s else Run(Do(s, steps[0]), steps[1..])
  }

  /** Tokens beyond the messages after a run: 1 from a clean-up that falls between a poster's push and
      its release, until the next clean-up or a release at the semaphore's maximum; else 0. */
  ghost function StrayAfter(s: State, steps: seq<Step>, now: nat): nat
    requires Legal(s, steps)
    decreases |steps|
  {
    if steps == [] then now
    else StrayAfter(Do(s, steps[0]), steps[1..], StrayNow(s, steps[0], now))
  }

  function StrayNow(s: State, step: Step, now: nat): nat {
    if step == Cleanup then PendingReleases(s.poster)
    else if (step == ReleasePost || step == PeerTalking) && s.semaphore == s.capacity then 0
    else now
  }

  // ---------- The queue and its semaphore ----------

  function HeldTokens(sender: Sender): nat {
    match sender
    case Waiting => 0
    case Dead(_, holds) => if holds then 1 else 0
    case _ => 1
  }

  function PendingReleases(poster: Poster): nat {
    if poster == Pushed then 1 else 0
  }

  /** Releases of the semaphore that are there, held, lost with a dead sender, or still to come. */
  function Tokens(s: State): nat {
    s.semaphore + HeldTokens(s.sender) + PendingReleases(s.poster)
  }

  ghost predicate QueueInv(s: State) {
    && |s.queue| <= Tokens(s) && s.semaphore <= s.capacity
    && |s.queue| <= MAX_QUEUE_ITEMS
    && (s.poster.Checked? ==> |s.queue| < MAX_QUEUE_ITEMS)
    && s.sent <= |s.accepted| && s.queue == s.accepted[s.sent..]
  }

  lemma QueueStep(s: State, step: Step)
    requires QueueInv(s) && Enabled(s, step)
    ensures QueueInv(Do(s, step))
  {
    hide FragmentCount, Fragment, Receive;
  }

  /** Steps that neither release nor clean up change messages and tokens together. */
  lemma TokensKept(s: State, step: Step)
    requires Enabled(s, step) && step != Cleanup && step != ReleasePost && step != PeerTalking
    ensures Tokens(Do(s, step)) - |Do(s, step).queue| == Tokens(s) - |s.queue|
  {
    hide FragmentCount, Fragment, Receive;
  }

  /** No step but a clean-up, or a release that is lost, changes how many tokens exceed the messages;
      and a release can be lost only while one does. */
  lemma TokenStep(s: State, step: Step, stray: nat)
    requires s.semaphore <= s.capacity && |s.queue| <= MAX_QUEUE_ITEMS
    requires Enabled(s, step) && Tokens(s) == |s.queue| + stray && stray <= 1
    ensures Tokens(Do(s, step)) == |Do(s, step).queue| + StrayNow(s, step, stray)
    ensures StrayNow(s, step, stray) <= 1
  {
    hide FragmentCount, Fragment, Receive;
    if step != Cleanup && step != ReleasePost && step != PeerTalking {
      TokensKept(s, step);
      hide Enabled, Do;
    }
  }

  // ---------- The wire ----------

  /** Packets of the front message that are already in the pipe. */
  function InFlight(s: State): nat {
    match s.sender
    case Writing(k) => k
    case Dead(k, _) => k
    case Written => if s.queue != [] then FragmentCount(|s.queue[0]|) else 0
    case _ => 0
  }

  function Wire(s: State): seq<Packet> {
    s.consumed + s.pipe
  }

  function WrittenBefore(s: State, i: nat): nat
    requires i <= |s.accepted|
  {
    |AllFragments(s.accepted[..i], s.base)|
  }

  ghost predicate SenderInv(s: State) {
    && QueueInv(s)
    && Wire(s) <= AllFragments(s.accepted, s.base)
    && |Wire(s)| == WrittenBefore(s, s.sent) + InFlight(s)
    && (s.sender.Writing? || s.sender == Written ==> s.queue != [])
    && (InFlight(s) > 0 ==> s.queue != [] && InFlight(s) <= FragmentCount(|s.queue[0]|))
    && s.seqNum == (s.base + s.sent + (if s.sender == Written then 1 else 0)) % 64
  }

  ghost predicate ReceiverInv(s: State) {
    var d := |s.delivered|;
    && d <= |s.accepted|
    && (forall i :: 0 <= i < d ==> s.delivered[i] == s.accepted[i])
    && match s.receiver
       case Listening => |s.consumed| == WrittenBefore(s, d)
       case Reading(rs) =>
         && d < |s.accepted|
         && 0 <= |s.consumed| - WrittenBefore(s, d) < FragmentCount(|s.accepted[d]|)
         && rs == AfterFragments(s.accepted[d], (s.base + d) % 64, |s.consumed| - WrittenBefore(s, d))
       case Holding(bytes) =>
         && d < |s.accepted| && bytes == s.accepted[d]
         && |s.consumed| == WrittenBefore(s, d + 1)
       case Broken(status) => status.Io?
  }

  ghost predicate Inv(s: State) {
    SenderInv(s) && ReceiverInv(s)
  }

  // ---------- Positions on the wire ----------

  lemma {:induction false} PrefixOfFragments(msgs: seq<Message>, base: bits6, i: nat)
    requires i <= |msgs|
    ensures AllFragments(msgs[..i], base) <= AllFragments(msgs, base)
    decreases |msgs| - i
  {
    if i < |msgs| {
      assert msgs[..i + 1] == msgs[..i] + [msgs[i]];
      AllFragmentsSnoc(msgs[..i], msgs[i], base);
      PrefixOfFragments(msgs, base, i + 1);
    } else {
      assert msgs[..i] == msgs;
    }
  }

  /** Where the packets of message i stand. */
  lemma PacketAt(msgs: seq<Message>, base: bits6, i: nat, k: nat)
    requires i < |msgs| && k < FragmentCount(|msgs[i]|)
    ensures var at := |AllFragments(msgs[..i], base)| + k;
            && |AllFragments(msgs[..i + 1], base)| == |AllFragments(msgs[..i], base)| + FragmentCount(|msgs[i]|)
            && at < |AllFragments(msgs, base)|
            && AllFragments(msgs, base)[at] == Fragment(msgs[i], (base + i) % 64, k)
  {
    hide AllFragments, FragmentCount, Fragment;
    assert msgs[..i + 1] == msgs[..i] + [msgs[i]];
    AllFragmentsSnoc(msgs[..i], msgs[i], base);
    PrefixOfFragments(msgs, base, i + 1);
  }

  // ---------- Every step keeps the invariant ----------

  lemma PushKeepsHistory(accepted: seq<Message>, m: Message, base: bits6, i: nat)
    requires i <= |accepted|
    ensures AllFragments(accepted, base) <= AllFragments(accepted + [m], base)
    ensures (accepted + [m])[..i] == accepted[..i]
  {
  }

  lemma PushStep(s: State)
    requires Inv(s) && Enabled(s, Push)
    ensures Inv(Do(s, Push))
  {
    hide AllFragments, Fragment, Fragments, FragmentCount, IsMessage, AfterFragments, Receive;
    var t := Do(s, Push);
    var d := |s.delivered|;
    PushKeepsHistory(s.accepted, s.poster.msg, s.base, s.sent);
    PushKeepsHistory(s.accepted, s.poster.msg, s.base, d);
    if d < |s.accepted| {
      PushKeepsHistory(s.accepted, s.poster.msg, s.base, d + 1);
    }
    QueueStep(s, Push);
    assert Wire(t) == Wire(s) && InFlight(t) == InFlight(s);
  }

  lemma WritePacketStep(s: State)
    requires Inv(s) && Enabled(s, WritePacket)
    ensures Inv(Do(s, WritePacket))
  {
    hide AllFragments, Fragment, Fragments, FragmentCount, IsMessage, AfterFragments, Receive;
    var t := Do(s, WritePacket);
    assert s.queue[0] == s.accepted[s.sent];
    PacketAt(s.accepted, s.base, s.sent, s.sender.k);
    assert Wire(t) == Wire(s) + [AllFragments(s.accepted, s.base)[|Wire(s)|]];
  }

  lemma PopStep(s: State)
    requires Inv(s) && Enabled(s, Pop)
    ensures Inv(Do(s, Pop))
  {
    hide AllFragments, Fragment, Fragments, FragmentCount, IsMessage, AfterFragments, Receive;
    QueueStep(s, Pop);
    assert s.queue[0] == s.accepted[s.sent];
    PacketAt(s.accepted, s.base, s.sent, 0);
  }

  /** The first packet in the pipe is the one the receiver is waiting for. */
  lemma NextPacket(s: State)
    requires Inv(s) && s.pipe != []
    requires s.receiver == Listening || s.receiver.Reading?
    ensures var d := |s.delivered|;
            && d < |s.accepted|
            && var j := |s.consumed| - WrittenBefore(s, d);
            && 0 <= j < FragmentCount(|s.accepted[d]|)
            && s.pipe[0] == Fragment(s.accepted[d], (s.base + d) % 64, j)
  {
    hide AllFragments, Fragment, Fragments, FragmentCount, IsMessage, AfterFragments, Receive;
    var d := |s.delivered|;
    var all := AllFragments(s.accepted, s.base);
    assert |s.consumed| < |Wire(s)| <= |all|;
    assert s.accepted[..|s.accepted|] == s.accepted;
    var j := |s.consumed| - WrittenBefore(s, d);
    PacketAt(s.accepted, s.base, d, j);
    assert s.pipe[0] == Wire(s)[|s.consumed|] == all[|s.consumed|];
  }

  lemma ReadPacketStep(s: State)
    requires Inv(s) && Enabled(s, ReadPacket)
    ensures Inv(Do(s, ReadPacket))
    ensures !Do(s, ReadPacket).receiver.Broken?
  {
    hide AllFragments, Fragment, Fragments, FragmentCount, IsMessage, AfterFragments, Receive;
    var t := Do(s, ReadPacket);
    NextPacket(s);
    var d := |s.delivered|;
    var j := |s.consumed| - WrittenBefore(s, d);
    ReceiveFragment(s.accepted[d], (s.base + d) % 64, j, RECV_BUFFER);
    PacketAt(s.accepted, s.base, d, 0);
    assert Wire(t) == Wire(s);
  }

  lemma StartReadStep(s: State)
    requires Inv(s) && Enabled(s, StartRead)
    ensures Inv(Do(s, StartRead))
  {
    hide AllFragments, Fragment, Fragments, FragmentCount, IsMessage, Receive;
    NextPacket(s);
  }

  /** Steps that touch neither the histories nor the pipe. */
  lemma QuietStep(s: State, step: Step)
    requires Inv(s) && Enabled(s, step)
    requires step.CheckPost? || step.ReleasePost? || step.Connect? || step.InitFails? || step.ReadBreaks?
             || step.OwnReceiverFails?
    ensures Inv(Do(s, step))
  {
    hide AllFragments, Fragment, Fragments, FragmentCount, IsMessage, AfterFragments, Receive;
  }

  lemma QuietSenderStep(s: State, step: Step)
    requires Inv(s) && Enabled(s, step)
    requires step.TakeToken? || step.PeerTalking? || step.PeekFails? || step.StartWrite?
             || step.CannotLock? || step.WriteBreaks? || step.StopSender?
    ensures Inv(Do(s, step))
  {
    hide AllFragments, Fragment, Fragments, FragmentCount, IsMessage, AfterFragments, Receive;
  }

  lemma FinishWriteStep(s: State)
    requires Inv(s) && Enabled(s, FinishWrite)
    ensures Inv(Do(s, FinishWrite))
  {
    hide AllFragments, Fragment, Fragments, FragmentCount, IsMessage, AfterFragments, Receive;
  }

  lemma DeliverStep(s: State)
    requires Inv(s) && Enabled(s, Deliver)
    ensures Inv(Do(s, Deliver))
  {
    hide AllFragments, Fragment, Fragments, FragmentCount, IsMessage, AfterFragments, Receive;
  }

  lemma InitInv(seqNum: bits6, capacity: Capacity)
    ensures Inv(Init(seqNum, capacity))
  {
  }

  lemma CleanupStep(s: State)
    requires Inv(s) && Enabled(s, Cleanup)
    ensures Inv(Do(s, Cleanup))
  {
    InitInv(s.seqNum, s.capacity);
    hide AllFragments, Fragment, Fragments, FragmentCount, IsMessage, AfterFragments, Receive;
    var i, t := Init(s.seqNum, s.capacity), Do(s, Cleanup);
    assert Wire(t) == Wire(i) && forall k :: k == 0 ==> WrittenBefore(t, k) == WrittenBefore(i, k);
  }

  /** One step, whoever takes it, keeps the whole invariant. */
  lemma StepKeepsInv(s: State, step: Step)
    requires Inv(s) && Enabled(s, step)
    ensures Inv(Do(s, step))
  {
    match step
    case Push => PushStep(s);
    case WritePacket => WritePacketStep(s);
    case FinishWrite => FinishWriteStep(s);
    case Pop => PopStep(s);
    case StartRead => StartReadStep(s);
    case ReadPacket => ReadPacketStep(s);
    case Deliver => DeliverStep(s);
    case Cleanup => CleanupStep(s);
    case CheckPost(_) => QuietStep(s, step);
    case ReleasePost => QuietStep(s, step);
    case Connect => QuietStep(s, step);
    case InitFails(_) => QuietStep(s, step);
    case ReadBreaks(_) => QuietStep(s, step);
    case OwnReceiverFails => QuietStep(s, step);
    case _ => QuietSenderStep(s, step);
  }

  // ---------- Whole runs ----------

  lemma {:induction false} RunKeepsInv(s: State, steps: seq<Step>)
    requires Inv(s) && Legal(s, steps)
    ensures Inv(Run(s, steps))
    decreases |steps|
  {
    if steps != [] {
      StepKeepsInv(s, steps[0]);
      hide Inv, Enabled, Do;
      RunKeepsInv(Do(s, steps[0]), steps[1..]);
    }
  }

  /** In every interleaving, over any number of connections, what ProcessMessage has been handed
      on the current connection is a prefix, whole and in order, of what PostMessage accepted. */
  lemma WholeRunFifo(seqNum: bits6, capacity: Capacity, steps: seq<Step>)
    requires Legal(Init(seqNum, capacity), steps)
    ensures var s := Run(Init(seqNum, capacity), steps);
            && |s.delivered| <= |s.accepted|
            && forall i :: 0 <= i < |s.delivered| ==> s.delivered[i] == s.accepted[i]
  {
    InitInv(seqNum, capacity);
    RunKeepsInv(Init(seqNum, capacity), steps);
  }

  /** The receiver is never handed a packet it refuses: no bad packet, no desynchronization, no
      disorder and no buffer overflow; it stops for I/O only. */
  lemma NoRefusedPacket(seqNum: bits6, capacity: Capacity, steps: seq<Step>)
    requires Legal(Init(seqNum, capacity), steps)
    ensures var s := Run(Init(seqNum, capacity), steps);
            && (s.receiver.Broken? ==> s.receiver.status.Io?)
            && (Enabled(s, ReadPacket) ==> !Do(s, ReadPacket).receiver.Broken?)
  {
    InitInv(seqNum, capacity);
    RunKeepsInv(Init(seqNum, capacity), steps);
    var s := Run(Init(seqNum, capacity), steps);
    if Enabled(s, ReadPacket) {
      ReadPacketStep(s);
    }
  }

  lemma {:induction false} TokensOfRun(s: State, steps: seq<Step>, stray: nat)
    requires QueueInv(s) && Legal(s, steps) && Tokens(s) == |s.queue| + stray && stray <= 1
    ensures Tokens(Run(s, steps)) == |Run(s, steps).queue| + StrayAfter(s, steps, stray)
    ensures StrayAfter(s, steps, stray) <= 1
    decreases |steps|
  {
    if steps != [] {
      TokenStep(s, steps[0], stray);
      QueueStep(s, steps[0]);
      hide Enabled, Do, Tokens, StrayNow, QueueInv;
      TokensOfRun(Do(s, steps[0]), steps[1..], StrayNow(s, steps[0], stray));
    }
  }

  /** In every run the queue is at most 512 long, accepted = sent ++ queued, and queue length + stray =
      semaphore + token in the sender's hands + release still owed by the poster, where stray is 0 or 1:
      1 exactly after a clean-up between a push and its release that neither another clean-up nor a
      release at a full semaphore has made up for. Without it, a sender that holds a token finds a
      message, as the sender thread asserts. A semaphore that stops at 512 is rid of it once 512
      messages wait. */
  lemma QueueMatchesSemaphore(seqNum: bits6, capacity: Capacity, steps: seq<Step>)
    requires Legal(Init(seqNum, capacity), steps)
    ensures var s, stray := Run(Init(seqNum, capacity), steps), StrayAfter(Init(seqNum, capacity), steps, 0);
            && s.semaphore + HeldTokens(s.sender) + PendingReleases(s.poster) == |s.queue| + stray
            && stray <= 1 && s.semaphore <= s.capacity && |s.queue| <= MAX_QUEUE_ITEMS
            && (stray == 0 && s.sender == Token ==> s.queue != [])
            && (s.capacity == |s.queue| && s.poster == Idle && s.sender == Waiting ==> stray == 0)
            && s.sent <= |s.accepted| && s.accepted == s.accepted[..s.sent] + s.queue
  {
    hide Legal, Run, StrayAfter, ReceiverInv, AllFragments, FragmentCount;
    InitInv(seqNum, capacity);
    RunKeepsInv(Init(seqNum, capacity), steps);
    TokensOfRun(Init(seqNum, capacity), steps, 0);
  }

  // ---------- Who writes the status ----------

  predicate WritesStatus(step: Step) {
    Fails(step) || step == Cleanup || step == Connect || step.InitFails?
  }

  /** The last step that wrote the status. */
  function LastWrite(steps: seq<Step>): Option<Step> {
    if steps == [] then None
    else if WritesStatus(steps[|steps| - 1]) then Some(steps[|steps| - 1])
    else LastWrite(steps[..|steps| - 1])
  }

  ghost predicate StatusAgrees(s: State, last: Option<Step>) {
    && (s.status == Connected <==> last == Some(Connect))
    && (s.status == PendingConnection <==> last == Some(Cleanup))
    && (s.status == FatalError <==> last == Some(InitFails(true)))
    && (s.status == Disconnected <==> last == None || last == Some(InitFails(false)) || Fails(last.value))
  }

  lemma RunSnoc(s: State, steps: seq<Step>, step: Step)
    ensures Legal(s, steps + [step]) <==> Legal(s, steps) && Enabled(Run(s, steps), step)
    ensures Legal(s, steps + [step]) ==> Run(s, steps + [step]) == Do(Run(s, steps), step)
    decreases |steps|
  {
    hide Enabled, Do;
    if steps == [] {
      assert [step] + [] == [step];
    } else {
      assert (steps + [step])[0] == steps[0] && (steps + [step])[1..] == steps[1..] + [step];
      if Enabled(s, steps[0]) {
        RunSnoc(Do(s, steps[0]), steps[1..], step);
      }
    }
  }

  /** In every run the status is the one written last: connecting was given up exactly if the last write was
      a failure of Initialize past the threshold, and so on. */
  lemma {:induction false} StatusIsLastWritten(seqNum: bits6, capacity: Capacity, steps: seq<Step>)
    requires Legal(Init(seqNum, capacity), steps)
    ensures StatusAgrees(Run(Init(seqNum, capacity), steps), LastWrite(steps))
  {
    if steps != [] {
      var front, step := steps[..|steps| - 1], steps[|steps| - 1];
      assert steps == front + [step];
      RunSnoc(Init(seqNum, capacity), front, step);
      StatusIsLastWritten(seqNum, capacity, front);
      OneWrite(Run(Init(seqNum, capacity), front), step, LastWrite(front));
      hide Run, Legal, Do, Enabled, StatusAgrees;
    }
  }

  lemma OneWrite(s: State, step: Step, last: Option<Step>)
    requires StatusAgrees(s, last) && Enabled(s, step)
    ensures StatusAgrees(Do(s, step), if WritesStatus(step) then Some(step) else last)
  {
    hide FragmentCount, Fragment, Receive;
  }

  // ---------- Failures while connecting ----------

  /** What has become of a worker thread's report that it failed: there is none, it stands, or the manager
      has written its own status over it. */
  datatype Report = Silent | Standing | Overwritten

  predicate Fails(step: Step) {
    step == PeekFails || step == CannotLock || step == WriteBreaks || step == OwnReceiverFails
  }

  /** Connect comes after the threads have been started. */
  function ReportNow(step: Step, now: Report): Report {
    if Fails(step) then Standing
    else match step
      case Cleanup => Silent
      case Connect => if now == Silent then Silent else Overwritten
      case InitFails(_) => if now == Silent then Silent else Standing
      case _ => now
  }

  function ReportAfter(steps: seq<Step>, now: Report): Report
    decreases |steps|
  {
    if steps == [] then now else ReportAfter(steps[1..], ReportNow(steps[0], now))
  }

  /** One of the worker threads has ended with an error. */
  predicate ThreadFailed(s: State) {
    s.ownFailed || (s.sender.Dead? && s.sender.holdsToken)
  }

  ghost predicate ReportInv(s: State, report: Report) {
    && (ThreadFailed(s) <==> report != Silent)
    && (report == Standing ==> s.status == Disconnected || s.status == FatalError)
    && (report == Overwritten ==> s.status == Connected && !s.initializing)
  }

  lemma ReportStep(s: State, step: Step, report: Report)
    requires ReportInv(s, report) && Enabled(s, step)
    ensures ReportInv(Do(s, step), ReportNow(step, report))
  {
    hide FragmentCount, Fragment, Receive;
  }

  lemma {:induction false} ReportOfRun(s: State, steps: seq<Step>, report: Report)
    requires ReportInv(s, report) && Legal(s, steps)
    ensures ReportInv(Run(s, steps), ReportAfter(steps, report))
    decreases |steps|
  {
    if steps != [] {
      ReportStep(s, steps[0], report);
      hide Enabled, Do, ReportNow, ReportInv;
      ReportOfRun(Do(s, steps[0]), steps[1..], ReportNow(steps[0], report));
    }
  }

  /** In every run the manager is connected with a failed thread if and only if the failure came while it
      was connecting, and it has then written Connected over the report; any other failure leads to a
      clean-up, unless connecting has failed for good. */
  lemma FailureIsSeen(seqNum: bits6, capacity: Capacity, steps: seq<Step>)
    requires Legal(Init(seqNum, capacity), steps)
    ensures var s, report := Run(Init(seqNum, capacity), steps), ReportAfter(steps, Silent);
            && (ThreadFailed(s) && s.status == Connected <==> report == Overwritten)
            && (ThreadFailed(s) && report != Overwritten && s.status != FatalError ==>
                  s.initializing || Enabled(s, Cleanup))
  {
    hide Legal, Run;
    ReportOfRun(Init(seqNum, capacity), steps, Silent);
  }

  /** The failed thread is then never restarted: no step but another failure changes that. */
  lemma OverwrittenStays(s: State, step: Step)
    requires ThreadFailed(s) && s.status == Connected && !s.initializing
    requires Enabled(s, step) && !Fails(step)
    ensures var t := Do(s, step);
            ThreadFailed(t) && t.status == Connected && !t.initializing && !Enabled(t, Cleanup)
    ensures s.sender.Dead? ==> Do(s, step).sender == s.sender && Do(s, step).sent == s.sent
  {
    hide FragmentCount, Fragment, Receive;
  }

  /** The shortest such run: the receiver thread fails before the manager says that it is connected. */
  lemma ReportLost(seqNum: bits6, capacity: Capacity)
    ensures var steps := [Cleanup] + ([OwnReceiverFails] + ([Connect] + []));
            && Legal(Init(seqNum, capacity), steps) && ReportAfter(steps, Silent) == Overwritten
            && var s := Run(Init(seqNum, capacity), steps);
            s.ownFailed && s.status == Connected && !Enabled(s, Cleanup)
  {
    var s := Init(seqNum, capacity);
    var t := Do(s, Cleanup);
    var u := Do(t, OwnReceiverFails);
    RunCons(u, Connect, []);
    RunCons(t, OwnReceiverFails, [Connect] + []);
    RunCons(s, Cleanup, [OwnReceiverFails] + ([Connect] + []));
    assert Run(Do(u, Connect), []) == Do(u, Connect);
    FailureIsSeen(seqNum, capacity, [Cleanup] + ([OwnReceiverFails] + ([Connect] + [])));
  }

  // ---------- Resetting ----------

  /** A clean-up restores the initial queue, semaphore and threads, and keeps the queue and the
      semaphore in step exactly when no poster stands between its push and its release. */
  lemma ResetRestoresQueue(s: State)
    requires QueueInv(s) && Enabled(s, Cleanup)
    ensures var t := Do(s, Cleanup);
            && t.queue == [] && t.semaphore == 0 && t.capacity == s.capacity && t.pipe == []
            && t.sender == Waiting && t.receiver == Listening && t.consumed == [] && t.delivered == []
            && t.accepted == [] && t.sent == 0 && t.seqNum == s.seqNum
            && (Tokens(t) == |t.queue| <==> s.poster != Pushed)
  {
  }

  function RaceSteps(m: Message): seq<Step> {
    [Cleanup, Connect, CheckPost(m), Push, OwnReceiverFails, Cleanup, ReleasePost, TakeToken]
  }

  lemma RunCons(s: State, step: Step, rest: seq<Step>)
    requires Enabled(s, step) && Legal(Do(s, step), rest)
    ensures Legal(s, [step] + rest) && Run(s, [step] + rest) == Run(Do(s, step), rest)
  {
  }

  lemma RaceReset(s: State)
    requires s.status == Disconnected && !s.initializing && s.poster == Pushed
    ensures var steps := [Cleanup, ReleasePost, TakeToken];
            Legal(s, steps) && Run(s, steps).sender == Token && Run(s, steps).queue == []
  {
    var t := Do(s, Cleanup);
    var u := Do(t, ReleasePost);
    RunCons(u, TakeToken, []);
    RunCons(t, ReleasePost, [TakeToken] + []);
    RunCons(s, Cleanup, [ReleasePost] + ([TakeToken] + []));
    assert [Cleanup, ReleasePost, TakeToken] == [Cleanup] + ([ReleasePost] + ([TakeToken] + []));
    assert Run(Do(u, TakeToken), []) == Do(u, TakeToken);
  }

  lemma RacePost(s: State, m: Message)
    requires s.poster == Idle && s.queue == [] && s.status == Connected && !s.initializing
    ensures var steps := [CheckPost(m), Push, OwnReceiverFails, Cleanup, ReleasePost, TakeToken];
            Legal(s, steps) && Run(s, steps).sender == Token && Run(s, steps).queue == []
  {
    var t := Do(s, CheckPost(m));
    var u := Do(t, Push);
    var v := Do(u, OwnReceiverFails);
    var rest := [Cleanup, ReleasePost, TakeToken];
    RaceReset(v);
    RunCons(u, OwnReceiverFails, rest);
    RunCons(t, Push, [OwnReceiverFails] + rest);
    RunCons(s, CheckPost(m), [Push] + ([OwnReceiverFails] + rest));
    assert [CheckPost(m), Push, OwnReceiverFails, Cleanup, ReleasePost, TakeToken] ==
           [CheckPost(m)] + ([Push] + ([OwnReceiverFails] + rest));
  }

  /** A run in which the clean-up falls between push and release: the late release tops up the
      new semaphore, and the sender holds a token with nothing in the queue, which is what the
      sender thread asserts cannot happen. */
  lemma ResetRace(seqNum: bits6, capacity: Capacity, m: Message)
    ensures Legal(Init(seqNum, capacity), RaceSteps(m))
    ensures var s := Run(Init(seqNum, capacity), RaceSteps(m));
            s.sender == Token && s.queue == []
  {
    var s := Init(seqNum, capacity);
    var t := Do(s, Cleanup);
    var u := Do(t, Connect);
    var rest := [CheckPost(m), Push, OwnReceiverFails, Cleanup, ReleasePost, TakeToken];
    RacePost(u, m);
    RunCons(t, Connect, rest);
    RunCons(s, Cleanup, [Connect] + rest);
    assert RaceSteps(m) == [Cleanup] + ([Connect] + rest);
  }

  // ---------- No reachable state is stuck ----------

  predicate Alive(s: State) {
    !s.sender.Dead? && !s.receiver.Broken?
  }

  /** The step a fair scheduler could take next, if there is still something to do. */
  function NextStep(s: State): Option<Step> {
    if s.poster.Checked? then Some(Push)
    else if s.poster == Pushed then Some(ReleasePost)
    else if s.receiver.Holding? then Some(Deliver)
    else if s.receiver.Reading? && s.pipe != [] then Some(ReadPacket)
    else if s.receiver == Listening && s.pipe != [] then Some(StartRead)
    else if s.queue == [] then None
    else match s.sender
      case Waiting => if s.semaphore > 0 then Some(TakeToken) else None
      case Token => Some(StartWrite)
      case Writing(k) => if k < FragmentCount(|s.queue[0]|) then Some(WritePacket) else Some(FinishWrite)
      case Written => Some(Pop)
      case Dead(_, _) => None
  }

  function PosterRank(s: State): nat {
    match s.poster case Checked(_) => 2 case Pushed => 1 case Idle => 0
  }

  function ReceiverRank(s: State): nat {
    match s.receiver case Holding(_) => 2 case Listening => 1 case _ => 0
  }

  function SenderRank(s: State): nat {
    match s.sender case Waiting => 4 case Token => 3 case Writing(_) => 2 case _ => 1
  }

  /** Packets of accepted messages that are not in the pipe yet. */
  function Unwritten(s: State): int {
    |AllFragments(s.accepted, s.base)| - |Wire(s)|
  }

  /** A well-founded measure of the work left, as a relation. */
  predicate Closer(t: State, s: State) {
    || PosterRank(t) < PosterRank(s)
    || (&& PosterRank(t) == PosterRank(s) && t.accepted == s.accepted && t.base == s.base
        && (|| |Wire(t)| > |Wire(s)|
            || (&& |Wire(t)| == |Wire(s)|
                && (|| |t.pipe| < |s.pipe|
                    || (&& |t.pipe| == |s.pipe|
                        && (|| ReceiverRank(t) < ReceiverRank(s)
                            || (&& ReceiverRank(t) == ReceiverRank(s)
                                && (|| |t.queue| < |s.queue|
                                    || (|t.queue| == |s.queue| && SenderRank(t) < SenderRank(s))))))))))
  }

  lemma NextStepIsEnabled(s: State)
    requires Inv(s) && Alive(s) && NextStep(s).Some?
    ensures Enabled(s, NextStep(s).value) && NextStep(s).value != Cleanup
    ensures NextStep(s).value == ReadPacket ==> !Do(s, ReadPacket).receiver.Broken?
  {
    hide AllFragments, Fragment, Fragments, FragmentCount, IsMessage, AfterFragments;
    if NextStep(s).value == ReadPacket {
      ReadPacketStep(s);
    }
  }

  lemma NextStepIsCloser(s: State)
    requires Alive(s) && NextStep(s).Some? && Enabled(s, NextStep(s).value)
    requires NextStep(s).value == ReadPacket ==> !Do(s, ReadPacket).receiver.Broken?
    ensures var t := Do(s, NextStep(s).value);
            Alive(t) && Closer(t, s)
  {
    hide Fragment, FragmentCount, Receive;
  }

  /** When nothing is left to do, everything accepted has been delivered. */
  lemma IdleMeansDelivered(s: State)
    requires Inv(s) && Alive(s) && NextStep(s) == None
    ensures |s.delivered| == |s.accepted|
  {
    hide AllFragments, Fragment, Fragments, IsMessage, AfterFragments, Receive;
    assert s.queue == [] && s.pipe == [];
    var all, d := AllFragments(s.accepted, s.base), |s.delivered|;
    assert s.accepted[..|s.accepted|] == s.accepted;
    assert |s.consumed| == |Wire(s)| == |all|;
    if d < |s.accepted| {
      PacketAt(s.accepted, s.base, d, 0);
      PrefixOfFragments(s.accepted, s.base, d + 1);
    }
  }

  /** From every reachable state whose threads are alive, everything accepted can still be
      delivered: the protocol has no deadlock. */
  lemma {:induction false} CanDeliverEverything(s: State) returns (steps: seq<Step>)
    requires Inv(s) && Alive(s)
    ensures Legal(s, steps) && Cleanup !in steps
    ensures var t := Run(s, steps);
            Inv(t) && t.delivered == t.accepted
    decreases PosterRank(s), Unwritten(s), |s.pipe|, ReceiverRank(s), |s.queue|, SenderRank(s)
  {
    match NextStep(s)
    case None =>
      IdleMeansDelivered(s);
      steps := [];
    case Some(step) =>
      NextStepIsEnabled(s);
      NextStepIsCloser(s);
      StepKeepsInv(s, step);
      var t := Do(s, step);
      hide Do, Enabled;
      var rest := CanDeliverEverything(t);
      steps := [step] + rest;
      assert steps[1..] == rest;
  }
}
