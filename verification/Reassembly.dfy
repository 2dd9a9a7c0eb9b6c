/** What one read of the pipe recovers, on the packets of _WriteData and on any packets at all. */
module Reassembly {
  import opened Bytes
  import opened Servents

  /** The packets that arrive during a stretch of channel behaviour. */
  function Arrivals(events: seq<ReadEvent>): seq<Packet> {
    if events == [] then []
    else (if events[0].Arrived? then [events[0].packet] else []) + Arrivals(events[1..])
  }

  predicate NoFailures(events: seq<ReadEvent>) {
    forall i :: 0 <= i < |events| ==> !events[i].ReadPeekFailed? && !events[i].ReadFailed?
  }

  lemma {:induction false} ArrivalsSplit(events: seq<ReadEvent>, k: nat)
    requires k <= |events|
    ensures Arrivals(events) == Arrivals(events[..k]) + Arrivals(events[k..])
  {
    if k == 0 {
      assert events[0..] == events;
    } else {
      ArrivalsSplit(events[1..], k - 1);
      assert events[1..][k - 1..] == events[k..];
      assert events[..k][1..] == events[1..][..k - 1];
    }
  }

  lemma DropCommon<T>(first: seq<T>, rest: seq<T>, whole: seq<T>, tail: seq<T>)
    requires first + rest <= whole && whole == first + tail
    ensures rest <= tail
  {
    assert rest == (first + rest)[|first|..] && tail == whole[|first|..];
  }

  lemma ArrivalsStep(events: seq<ReadEvent>, k: nat)
    requires k < |events|
    ensures Arrivals(events[..k + 1]) ==
            (if events[0].Arrived? then [events[0].packet] else []) + Arrivals(events[1..][..k])
  {
    assert events[..k + 1][1..] == events[1..][..k];
  }

  // ---------- Reassembly inverts fragmentation ----------

  /** The reader's locals after the first k packets of a message. */
  function AfterFragments(data: UserData, seqNum: bits6, k: nat): ReadState {
    if k == 0 then FRESH
    else ReadState(seqNum, k - 1, data[..Carried(k, |data|)])
  }

  lemma ReceiveFragment(data: UserData, seqNum: bits6, k: nat, bufferSize: nat)
    requires 1 <= |data| && |data| <= bufferSize
    requires k < FragmentCount(|data|)
    ensures Receive(AfterFragments(data, seqNum, k), Fragment(data, seqNum, k), bufferSize) ==
            if k + 1 == FragmentCount(|data|) then Finished(data)
            else More(AfterFragments(data, seqNum, k + 1))
  {
  }

  /** From any point inside a message, the read finishes it and takes exactly the packets left. */
  lemma {:induction false} ReadRest(data: UserData, seqNum: bits6, k: nat, events: seq<ReadEvent>, bufferSize: nat)
    requires 1 <= |data| && |data| <= bufferSize
    requires k < FragmentCount(|data|)
    requires NoFailures(events) && Fragments(data, seqNum)[k..] <= Arrivals(events)
    ensures var r := Reassemble(AfterFragments(data, seqNum, k), events, bufferSize);
            && r.status == NoError && r.bytes == data
            && Arrivals(events[..r.used]) == Fragments(data, seqNum)[k..]
    decreases |events|
  {
    hide AfterFragments, Receive, Fragments, Fragment, FragmentCount;
    var ps := Fragments(data, seqNum);
    assert events != [];
    var r := Reassemble(AfterFragments(data, seqNum, k), events, bufferSize);
    ArrivalsStep(events, r.used - 1);
    assert ps[k..] == [ps[k]] + ps[k + 1..];
    if events[0].Arrived? {
      assert events[0].packet == Arrivals(events)[0] == ps[k..][0];
      ReceiveFragment(data, seqNum, k, bufferSize);
      if k + 1 < |ps| {
        DropCommon([ps[k]], ps[k + 1..], Arrivals(events), Arrivals(events[1..]));
        ReadRest(data, seqNum, k + 1, events[1..], bufferSize);
      }
    } else {
      assert Arrivals(events) == Arrivals(events[1..]);
      ReadRest(data, seqNum, k, events[1..], bufferSize);
      assert [] + ps[k..] == ps[k..];
    }
  }

  /** One read of the packets of one write, followed by anything, returns the payload and
      consumes exactly those packets, however the channel delays them. */
  lemma ReadInvertsWrite(data: UserData, seqNum: bits6, events: seq<ReadEvent>, bufferSize: nat)
    requires 1 <= |data| && |data| <= bufferSize
    requires NoFailures(events) && Fragments(data, seqNum) <= Arrivals(events)
    ensures var r := Reassemble(FRESH, events, bufferSize);
            && r.status == NoError && r.bytes == data
            && Arrivals(events[..r.used]) == Fragments(data, seqNum)
            && Arrivals(events) == Fragments(data, seqNum) + Arrivals(events[r.used..])
  {
    var ps := Fragments(data, seqNum);
    assert ps[0..] == ps;
    ReadRest(data, seqNum, 0, events, bufferSize);
    ArrivalsSplit(events, Reassemble(FRESH, events, bufferSize).used);
  }

  // ---------- k writes are recovered by k reads ----------

  ghost predicate AllSendable(msgs: seq<UserData>, bufferSize: nat) {
    forall i :: 0 <= i < |msgs| ==> 1 <= |msgs[i]| && |msgs[i]| <= bufferSize
  }

  /** The packets of consecutive writes, the message number advancing modulo 64. */
  function AllFragments(msgs: seq<UserData>, seqNum: bits6): seq<Packet>
  {
    if msgs == [] then []
    else
      var last := |msgs| - 1;
      AllFragments(msgs[..last], seqNum) + Fragments(msgs[last], (seqNum + last) % 64)
  }

  /** Unfolds the last write, naming its message number. */
  lemma AllFragmentsSnoc(front: seq<UserData>, m: UserData, seqNum: bits6)
        ensures AllFragments(front + [m], seqNum) ==
            AllFragments(front, seqNum) + Fragments(m, (seqNum + |front|) % 64)
  {
  }

  lemma AllFragmentsSnocAs(front: seq<UserData>, m: UserData, seqNum: bits6, num: bits6)
    requires num == (seqNum + |front|) % 64
    ensures AllFragments(front + [m], seqNum) == AllFragments(front, seqNum) + Fragments(m, num)
  {
  }

  lemma NoFragments(none: seq<UserData>, seqNum: bits6)
    requires |none| == 0
    ensures AllFragments(none, seqNum) == []
  {
  }

  lemma ConsBase(m: UserData, none: seq<UserData>, seqNum: bits6)
    requires |none| == 0
    ensures AllFragments([m] + none, seqNum) == Fragments(m, seqNum) + AllFragments(none, (seqNum + 1) % 64)
  {
    hide Fragments, AllFragments;
    assert [m] + none == none + [m];
    AllFragmentsSnocAs(none, m, seqNum, seqNum);
    NoFragments(none, seqNum);
    NoFragments(none, (seqNum + 1) % 64);
  }

  lemma ConsStep(m: UserData, front: seq<UserData>, last: UserData, seqNum: bits6)
    requires AllFragments([m] + front, seqNum) == Fragments(m, seqNum) + AllFragments(front, (seqNum + 1) % 64)
    ensures AllFragments([m] + (front + [last]), seqNum) ==
            Fragments(m, seqNum) + AllFragments(front + [last], (seqNum + 1) % 64)
  {
    hide Fragments, AllFragments;
    var next, num := (seqNum + 1) % 64, (seqNum + (|front| + 1)) % 64;
    NumbersAdvance(seqNum, |front| + 1);
    AllFragmentsSnocAs([m] + front, last, seqNum, num);
    AllFragmentsSnocAs(front, last, next, num);
    Associates([m], front, [last]);
    Associates(Fragments(m, seqNum), AllFragments(front, next), Fragments(last, num));
  }

  lemma {:induction false} AllFragmentsCons(m: UserData, rest: seq<UserData>, seqNum: bits6)
    ensures AllFragments([m] + rest, seqNum) ==
            Fragments(m, seqNum) + AllFragments(rest, (seqNum + 1) % 64)
    decreases |rest|
  {
    hide Fragments, AllFragments;
    if rest == [] {
      ConsBase(m, rest, seqNum);
    } else {
      var k := |rest| - 1;
      AllFragmentsCons(m, rest[..k], seqNum);
      ConsStep(m, rest[..k], rest[k], seqNum);
      assert rest == rest[..k] + [rest[k]];
    }
  }

  lemma NumbersAdvance(seqNum: bits6, n: nat)
    requires n >= 1
    ensures ((seqNum + 1) % 64 + (n - 1)) % 64 == (seqNum + n) % 64
  {
  }

  /** k consecutive reads. */
  function Reads(k: nat, events: seq<ReadEvent>, bufferSize: nat): seq<ReadResult> {
    if k == 0 then []
    else
      var r := Reassemble(FRESH, events, bufferSize);
      [r] + Reads(k - 1, events[r.used..], bufferSize)
  }

  lemma {:induction false} ReadsInvertWrites(msgs: seq<UserData>, seqNum: bits6, events: seq<ReadEvent>,
                                             bufferSize: nat)
    requires AllSendable(msgs, bufferSize)
    requires NoFailures(events) && AllFragments(msgs, seqNum) <= Arrivals(events)
    ensures var rs := Reads(|msgs|, events, bufferSize);
            && |rs| == |msgs|
            && forall i :: 0 <= i < |msgs| ==> rs[i].status == NoError && rs[i].bytes == msgs[i]
  {
    hide Fragments, AllFragments, Arrivals, Reassemble;
    if msgs != [] {
      assert msgs == [msgs[0]] + msgs[1..];
      AllFragmentsCons(msgs[0], msgs[1..], seqNum);
      var first := Fragments(msgs[0], seqNum);
      var rest := AllFragments(msgs[1..], (seqNum + 1) % 64);
      assert first <= first + rest <= Arrivals(events);
      ReadInvertsWrite(msgs[0], seqNum, events, bufferSize);
      var r := Reassemble(FRESH, events, bufferSize);
      DropCommon(first, rest, Arrivals(events), Arrivals(events[r.used..]));
      ReadsInvertWrites(msgs[1..], (seqNum + 1) % 64, events[r.used..], bufferSize);
    }
  }

  // ---------- Any packet stream: no splicing ----------

  function Payload(ps: seq<Packet>): seq<byte> {
    if ps == [] then [] else ps[0].data + Payload(ps[1..])
  }

  /** Packets that could have come from one message: one message number, consecutive fragment
      numbers, and a terminal type on the last one only. */
  ghost predicate OneMessage(ps: seq<Packet>) {
    && ps != []
    && (forall i :: 0 <= i < |ps| ==>
          && ExtractPacketData(ps[i]) != []
          && ps[i].seqNum == ps[0].seqNum
          && ps[i].fragSeq == ps[0].fragSeq + i
          && (IsTerminal(ps[i]) <==> i == |ps| - 1))
  }

  predicate Continues(rs: ReadState, p: Packet) {
    || (rs.lastSeq == INVALID_SEQNUM && rs.lastFrag == INVALID_SEQNUM)
    || (p.seqNum == rs.lastSeq && p.fragSeq == rs.lastFrag + 1)
  }

  predicate Reachable(rs: ReadState) {
    rs == FRESH || (rs.lastSeq < 64 && rs.lastFrag < 64)
  }

  /** What a successful read that started from rs says about the packets it took. */
  ghost predicate Explains(rs: ReadState, ps: seq<Packet>, bytes: seq<byte>, bufferSize: nat) {
    OneMessage(ps) && Continues(rs, ps[0]) && bytes == rs.acc + Payload(ps) && |bytes| <= bufferSize
  }

  lemma ExplainsLast(rs: ReadState, p: Packet, bufferSize: nat)
    requires Reachable(rs) && Receive(rs, p, bufferSize).Finished?
    ensures Explains(rs, [p], Receive(rs, p, bufferSize).bytes, bufferSize)
  {
  }

  lemma ExplainsMore(rs: ReadState, p: Packet, rest: seq<Packet>, bytes: seq<byte>, bufferSize: nat)
    requires Reachable(rs) && Receive(rs, p, bufferSize).More?
    requires Explains(Receive(rs, p, bufferSize).state, rest, bytes, bufferSize)
    ensures Explains(rs, [p] + rest, bytes, bufferSize)
  {
  }

  lemma {:induction false} SuccessIsOneMessage(rs: ReadState, events: seq<ReadEvent>, bufferSize: nat)
    requires Reachable(rs)
    requires Reassemble(rs, events, bufferSize).status == NoError
    ensures var r := Reassemble(rs, events, bufferSize);
            Explains(rs, Arrivals(events[..r.used]), r.bytes, bufferSize)
    decreases |events|
  {
    hide Explains, ExtractPacketData;
    var r := Reassemble(rs, events, bufferSize);
    ArrivalsStep(events, r.used - 1);
    var rest := Arrivals(events[1..][..r.used - 1]);
    if events[0].Arrived? {
      var p := events[0].packet;
      match Receive(rs, p, bufferSize)
      case Finished(bytes) =>
        ExplainsLast(rs, p, bufferSize);
        assert rest == [] && [p] + rest == [p];
      case More(next) =>
        SuccessIsOneMessage(next, events[1..], bufferSize);
        ExplainsMore(rs, p, rest, r.bytes, bufferSize);
    } else {
      SuccessIsOneMessage(rs, events[1..], bufferSize);
      assert [] + rest == rest;
    }
  }

  lemma {:induction false} OneMessageSucceeds(rs: ReadState, ps: seq<Packet>, events: seq<ReadEvent>, bufferSize: nat)
    requires Reachable(rs) && OneMessage(ps) && Continues(rs, ps[0])
    requires NoFailures(events) && ps <= Arrivals(events)
    requires |rs.acc| + |Payload(ps)| <= bufferSize
    ensures Reassemble(rs, events, bufferSize).status == NoError
    decreases |events|
  {
    assert events != [];
    if events[0].Arrived? {
      var p := events[0].packet;
      assert p == Arrivals(events)[0] == ps[0];
      if |ps| > 1 {
        var rest := ps[1..];
        assert rest <= Arrivals(events)[1..] == Arrivals(events[1..]);
        assert forall i :: 0 <= i < |rest| ==> rest[i] == ps[i + 1];
        assert !IsTerminal(ps[0]);
        OneMessageSucceeds(Receive(rs, p, bufferSize).state, rest, events[1..], bufferSize);
      }
    } else {
      assert Arrivals(events) == Arrivals(events[1..]);
      OneMessageSucceeds(rs, ps, events[1..], bufferSize);
    }
  }

  /** On any packet stream, a read succeeds exactly when the stream starts with the packets of
      one message that fits the buffer. */
  lemma NoSplicing(events: seq<ReadEvent>, bufferSize: nat)
    requires NoFailures(events)
    ensures Reassemble(FRESH, events, bufferSize).status == NoError <==>
            exists ps :: OneMessage(ps) && ps <= Arrivals(events) && |Payload(ps)| <= bufferSize
    ensures var r := Reassemble(FRESH, events, bufferSize);
            r.status == NoError ==>
              OneMessage(Arrivals(events[..r.used])) && r.bytes == Payload(Arrivals(events[..r.used]))
  {
    var r := Reassemble(FRESH, events, bufferSize);
    if r.status == NoError {
      SuccessIsOneMessage(FRESH, events, bufferSize);
      ArrivalsSplit(events, r.used);
      var ps := Arrivals(events[..r.used]);
      assert ps <= Arrivals(events);
    }
    forall ps | OneMessage(ps) && ps <= Arrivals(events) && |Payload(ps)| <= bufferSize
      ensures r.status == NoError
    {
      OneMessageSucceeds(FRESH, ps, events, bufferSize);
    }
  }

  /** Fragment numbers leave room for this many more packets before a read must end. */
  function Budget(rs: ReadState): nat
    requires Reachable(rs)
  {
    if rs.lastFrag == INVALID_SEQNUM then 65 else 64 - rs.lastFrag
  }

  lemma {:induction false} ReadIsBounded(rs: ReadState, events: seq<ReadEvent>, bufferSize: nat)
    requires Reachable(rs)
    ensures |Arrivals(events[..Reassemble(rs, events, bufferSize).used])| <= Budget(rs)
    decreases |events|
  {
    if events != [] {
      var r := Reassemble(rs, events, bufferSize);
      assert events[..r.used][1..] == events[1..][..r.used - 1];
      if r.used == 1 {
        assert Arrivals(events[1..][..0]) == [];
      }
      match events[0]
      case Arrived(p) =>
        match Receive(rs, p, bufferSize) {
          case More(next) => ReadIsBounded(next, events[1..], bufferSize);
          case _ =>
        }
      case NothingYet => ReadIsBounded(rs, events[1..], bufferSize);
      case EmptyRead => ReadIsBounded(rs, events[1..], bufferSize);
      case _ =>
    }
  }

  /** No read consumes more than 65 packets, whatever the stream. */
  lemma AtMost65Packets(events: seq<ReadEvent>, bufferSize: nat)
    ensures |Arrivals(events[..Reassemble(FRESH, events, bufferSize).used])| <= 65
  {
    ReadIsBounded(FRESH, events, bufferSize);
  }

  // ---------- A cut message followed by another one ----------

  lemma {:induction false} CutMessageFrom(data: UserData, seqNum: bits6, j: nat, k: nat, next: Packet,
                                          events: seq<ReadEvent>, bufferSize: nat)
    requires 1 <= |data| && |data| <= bufferSize
    requires j <= k < FragmentCount(|data|) && 1 <= k
    requires ExtractPacketData(next) != [] && next.fragSeq == 0
    requires NoFailures(events)
    requires Fragments(data, seqNum)[j..k] + [next] <= Arrivals(events)
    ensures var r := Reassemble(AfterFragments(data, seqNum, j), events, bufferSize);
            && r.status == (if next.seqNum != seqNum then Desynchronized else PacketsNotOrdered)
            && r.bytes == data[..Carried(k, |data|)]
    decreases |events|
  {
    hide Fragments, Fragment, FragmentCount;
    var ps := Fragments(data, seqNum);
    assert events != [];
    if events[0].Arrived? {
      assert events[0].packet == Arrivals(events)[0] == (ps[j..k] + [next])[0];
      if j < k {
        hide Receive;
        ReceiveFragment(data, seqNum, j, bufferSize);
        assert ps[j..k] + [next] == [ps[j]] + (ps[j + 1..k] + [next]);
        DropCommon([ps[j]], ps[j + 1..k] + [next], Arrivals(events), Arrivals(events[1..]));
        CutMessageFrom(data, seqNum, j + 1, k, next, events[1..], bufferSize);
      }
    } else {
      assert Arrivals(events) == Arrivals(events[1..]);
      CutMessageFrom(data, seqNum, j, k, next, events[1..], bufferSize);
    }
  }

  /** A proper, non-empty prefix of one message followed by another message is always refused,
      and how it is refused depends only on whether the message number changed. */
  lemma CutMessageIsRefused(cut: UserData, seqNum: bits6, k: nat, other: UserData, otherSeq: bits6,
                            events: seq<ReadEvent>, bufferSize: nat)
    requires 1 <= |cut| && |cut| <= bufferSize && 1 <= |other|
    requires 1 <= k < FragmentCount(|cut|)
    requires NoFailures(events)
    requires Fragments(cut, seqNum)[..k] + Fragments(other, otherSeq) <= Arrivals(events)
    ensures Reassemble(FRESH, events, bufferSize).status ==
            if otherSeq != seqNum then Desynchronized else PacketsNotOrdered
  {
    var first, second := Fragments(cut, seqNum)[..k], Fragments(other, otherSeq);
    assert first + [second[0]] <= first + second <= Arrivals(events);
    assert first == Fragments(cut, seqNum)[0..k];
    CutMessageFrom(cut, seqNum, 0, k, second[0], events, bufferSize);
  }

  // ---------- What a read comes to, on any behaviour of the channel ----------

  predicate IsFailure(event: ReadEvent, code: nat) {
    event == ReadPeekFailed(code) || event == ReadFailed(code)
  }

  predicate Fails(event: ReadEvent) {
    event.ReadPeekFailed? || event.ReadFailed?
  }

  /** A header the reader accepts, and user data. */
  predicate WellFormed(p: Packet) {
    p.fixed == 0x0A && 0x20 <= p.msgType <= 0x23 && 1 <= |p.data| <= 1020
  }

  predicate EndsMessage(p: Packet) {
    p.msgType == 0x20 || p.msgType == 0x23
  }

  /** p comes next in a message of which ps has been taken. */
  ghost predicate Follows(ps: seq<Packet>, p: Packet) {
    ps != [] ==> p.seqNum == ps[0].seqNum && p.fragSeq == ps[0].fragSeq + |ps|
  }

  /** Packets that a read takes without coming to its end: well formed, in order, none of them the last
      of its message, and all of them in the buffer. */
  ghost predicate Taken(ps: seq<Packet>, bufferSize: nat) {
    && |Payload(ps)| <= bufferSize
    && forall i :: 0 <= i < |ps| ==> WellFormed(ps[i]) && !EndsMessage(ps[i]) && Follows(ps[..i], ps[i])
  }

  /** Why a read that has taken front ends at the packet p. */
  ghost predicate EndsAt(front: seq<Packet>, p: Packet, bufferSize: nat, status: Status) {
    match status
    case BadPacket => !WellFormed(p)
    case Desynchronized => WellFormed(p) && front != [] && p.seqNum != front[0].seqNum
    case PacketsNotOrdered =>
      WellFormed(p) && front != [] && p.seqNum == front[0].seqNum && p.fragSeq != front[0].fragSeq + |front|
    case ReadBufferTooSmall => WellFormed(p) && Follows(front, p) && |Payload(front)| + |p.data| > bufferSize
    case NoError =>
      WellFormed(p) && Follows(front, p) && |Payload(front)| + |p.data| <= bufferSize && EndsMessage(p)
    case _ => false
  }

  /** What becomes of a read, with nothing but the events it uses: it goes on until something fails, which
      gives the failure's own code, or a packet ends it; what it returns are the bytes of the packets taken
      and, if it succeeds, of the last one. */
  ghost predicate ReadOutcome(events: seq<ReadEvent>, bufferSize: nat, r: ReadResult) {
    && r.used <= |events|
    && (forall i :: 0 <= i < r.used - 1 ==> !Fails(events[i]))
    && var ps := Arrivals(events[..r.used]);
    match r.status
    case Io(c) =>
      r.used > 0 && IsFailure(events[r.used - 1], c) && Taken(ps, bufferSize) && r.bytes == Payload(ps)
    case Blocked =>
      && r.used == |events| && (r.used > 0 ==> !Fails(events[r.used - 1]))
      && Taken(ps, bufferSize) && r.bytes == Payload(ps)
    case _ =>
      && r.used > 0 && events[r.used - 1].Arrived? && ps != []
      && var front, p := ps[..|ps| - 1], ps[|ps| - 1];
      && Taken(front, bufferSize) && EndsAt(front, p, bufferSize, r.status)
      && r.bytes == if r.status == NoError then Payload(ps) else Payload(front)
  }

  /** A packet is what ended the read. */
  predicate Ending(status: Status) {
    !status.Io? && !status.Blocked?
  }

  /** The reader's locals after some packets. */
  ghost function StateAfter(ps: seq<Packet>): ReadState {
    if ps == [] then FRESH else ReadState(ps[0].seqNum, ps[|ps| - 1].fragSeq, Payload(ps))
  }

  lemma {:induction false} PayloadSnoc(ps: seq<Packet>, p: Packet)
    ensures Payload(ps + [p]) == Payload(ps) + p.data
  {
    if ps != [] {
      PayloadSnoc(ps[1..], p);
      assert (ps + [p])[1..] == ps[1..] + [p];
    }
  }

  /** The verdict on the packet after those taken. */
  lemma VerdictMeaning(ps: seq<Packet>, p: Packet, bufferSize: nat)
    requires Taken(ps, bufferSize)
    ensures var r := Receive(StateAfter(ps), p, bufferSize);
            && (r.Refused? ==> EndsAt(ps, p, bufferSize, r.status) && r.status != NoError && Ending(r.status))
            && (r.Finished? ==> EndsAt(ps, p, bufferSize, NoError) && r.bytes == Payload(ps + [p]))
            && (r.More? ==> Taken(ps + [p], bufferSize) && r.state == StateAfter(ps + [p]))
  {
    PayloadSnoc(ps, p);
    StateKeepsPayload(ps);
    hide Payload;
    var n := |ps|;
    if n > 0 {
      assert Follows(ps[..n - 1], ps[n - 1]);
    }
    forall i | 0 <= i < n
      ensures (ps + [p])[..i] == ps[..i]
    {
    }
    assert (ps + [p])[..n] == ps;
  }

  lemma ArrivalsSnoc(events: seq<ReadEvent>, k: nat)
    requires k < |events|
    ensures Arrivals(events[..k + 1]) ==
            Arrivals(events[..k]) + if events[k].Arrived? then [events[k].packet] else []
  {
    ArrivalsSplit(events[..k + 1], k);
    assert events[..k + 1][..k] == events[..k] && events[..k + 1][k..] == [events[k]];
    assert Arrivals([events[k]]) == if events[k].Arrived? then [events[k].packet] else [];
  }

  lemma {:induction false} ReadFromMeaning(events: seq<ReadEvent>, k: nat, bufferSize: nat)
    requires k <= |events| && Taken(Arrivals(events[..k]), bufferSize)
    requires forall i :: 0 <= i < k ==> !Fails(events[i])
    ensures var r := Reassemble(StateAfter(Arrivals(events[..k])), events[k..], bufferSize);
            ReadOutcome(events, bufferSize, r.(used := r.used + k))
    decreases |events| - k
  {
    hide Taken, EndsAt, Receive, StateAfter, Payload, Arrivals;
    var ps := Arrivals(events[..k]);
    StateKeepsPayload(ps);
    if k == |events| {
      assert events[k..] == [];
    } else {
      var event := events[k];
      ArrivalsSnoc(events, k);
      assert events[k..][0] == event && events[k..][1..] == events[k + 1..];
      if event.Arrived? {
        var p := event.packet;
        VerdictMeaning(ps, p, bufferSize);
        assert (ps + [p])[..|ps|] == ps;
        if Receive(StateAfter(ps), p, bufferSize).More? {
          ReadFromMeaning(events, k + 1, bufferSize);
        }
      } else {
        assert ps + [] == ps;
        if !Fails(event) {
          ReadFromMeaning(events, k + 1, bufferSize);
        }
      }
    }
  }

  lemma StateKeepsPayload(ps: seq<Packet>)
    ensures StateAfter(ps).acc == Payload(ps)
  {
  }

  /** Every read comes to its outcome as described. */
  lemma ReadMeaning(events: seq<ReadEvent>, bufferSize: nat)
    ensures ReadOutcome(events, bufferSize, Reassemble(FRESH, events, bufferSize))
  {
    assert events[..0] == [] && events[0..] == events;
    assert Payload(Arrivals(events[..0])) == [];
    assert StateAfter(Arrivals(events[..0])) == FRESH;
    ReadFromMeaning(events, 0, bufferSize);
  }

  lemma {:induction false} ArrivalsGrow(events: seq<ReadEvent>, m: nat, n: nat)
    requires m <= n <= |events|
    ensures Arrivals(events[..m]) <= Arrivals(events[..n])
    ensures m < n && events[n - 1].Arrived? ==> |Arrivals(events[..m])| < |Arrivals(events[..n])|
    decreases n - m
  {
    if m < n {
      ArrivalsGrow(events, m, n - 1);
      ArrivalsSnoc(events, n - 1);
    }
  }

  /** No read goes on behind a packet that ends it. */
  lemma NotTakenFurther(front: seq<Packet>, p: Packet, ps: seq<Packet>, bufferSize: nat, status: Status)
    requires Taken(ps, bufferSize) && front + [p] <= ps
    ensures !EndsAt(front, p, bufferSize, status)
  {
    var n := |front|;
    assert ps[..n] == front && ps[n] == p;
    PayloadSnoc(front, p);
    PayloadGrows(front + [p], ps);
  }

  lemma PayloadGrows(ps: seq<Packet>, qs: seq<Packet>)
    requires ps <= qs
    ensures |Payload(ps)| <= |Payload(qs)|
  {
    if ps != [] {
      assert ps[1..] <= qs[1..];
      PayloadGrows(ps[1..], qs[1..]);
    }
  }

  /** And that leaves no choice: two outcomes of the same behaviour are the same. */
  lemma ReadIsDetermined(events: seq<ReadEvent>, bufferSize: nat, a: ReadResult, b: ReadResult)
    requires ReadOutcome(events, bufferSize, a) && ReadOutcome(events, bufferSize, b) && a.used <= b.used
    ensures a == b
  {
    hide Taken, Payload, Arrivals, EndsAt;
    var ps, qs := Arrivals(events[..a.used]), Arrivals(events[..b.used]);
    if a.used < b.used {
      ArrivalsGrow(events, a.used, b.used - 1);
      ArrivalsSnoc(events, b.used - 1);
      var taken := if Ending(b.status) then qs[..|qs| - 1] else qs;
      assert ps <= taken;
      if Ending(a.status) {
        EndedNotTaken(ps, taken, bufferSize, a.status);
      }
    } else if Ending(a.status) && Ending(b.status) {
      OneEnd(ps[..|ps| - 1], ps[|ps| - 1], bufferSize, a.status, b.status);
    } else if Ending(a.status) && b.status.Blocked? {
      EndedNotTaken(ps, ps, bufferSize, a.status);
    } else if Ending(b.status) && a.status.Blocked? {
      EndedNotTaken(ps, ps, bufferSize, b.status);
    }
  }

  lemma EndedNotTaken(ps: seq<Packet>, qs: seq<Packet>, bufferSize: nat, status: Status)
    requires ps != [] && ps <= qs && Taken(qs, bufferSize)
    ensures !EndsAt(ps[..|ps| - 1], ps[|ps| - 1], bufferSize, status)
  {
    assert ps == ps[..|ps| - 1] + [ps[|ps| - 1]];
    NotTakenFurther(ps[..|ps| - 1], ps[|ps| - 1], qs, bufferSize, status);
  }

  lemma OneEnd(front: seq<Packet>, p: Packet, bufferSize: nat, a: Status, b: Status)
    requires EndsAt(front, p, bufferSize, a)
    ensures EndsAt(front, p, bufferSize, b) ==> a == b
  {
  }
}
