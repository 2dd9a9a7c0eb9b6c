/** Fragmentation of user data into packets and its reassembly (servent.cc). */
module Servents {
  import opened Bytes

  const PKT_HEADER_FIXEDVALUE := 0x0A
  const PKT_MSGTYPE_NONFRAGDATA := 0x20
  const PKT_MSGTYPE_FRAGDATAFIRST := 0x21
  const PKT_MSGTYPE_FRAGDATA := 0x22
  const PKT_MSGTYPE_FRAGDATALAST := 0x23
  const PKT_USERDATA_MAX := 1020
  const MAX_USERDATA := 64260
  const INVALID_SEQNUM := 99

  type bits4 = x: int | 0 <= x < 16
  type bits6 = x: int | 0 <= x < 64
  type bits10 = x: int | 0 <= x < 1024

  /** A packet as one read of the pipe returns it: header fields and the user data after them. */
  datatype RawPacket = RawPacket(fixed: bits4, msgType: bits6, seqNum: bits6, fragSeq: bits6,
                                 dataLen: bits10, data: seq<byte>)

  type Packet = p: RawPacket | |p.data| == p.dataLen
    witness RawPacket(0, 0, 0, 0, 0, [])

  /** What one write accepts. */
  type UserData = s: seq<byte> | |s| <= MAX_USERDATA

  /** Return codes; Blocked stands for a call that is still waiting for the channel. */
  datatype Status =
    | NoError
    | BadPacket
    | Desynchronized
    | PacketsNotOrdered
    | ReadBufferTooSmall
    | SendBufferTooBig
    | Io(code: nat)
    | Blocked

  // ---------- Building and opening one packet ----------

  function MakePacket(data: seq<byte>, msgType: bits6, seqNum: bits6, fragSeq: bits6): Packet
    requires |data| <= PKT_USERDATA_MAX
  {
    RawPacket(PKT_HEADER_FIXEDVALUE, msgType, seqNum, fragSeq, |data|, data)
  }

  /** The user data of a packet that passes the sanity checks; nothing otherwise. */
  function ExtractPacketData(p: Packet): (data: seq<byte>)
  {
    if p.fixed != PKT_HEADER_FIXEDVALUE then []
    else if p.msgType < PKT_MSGTYPE_NONFRAGDATA || p.msgType > PKT_MSGTYPE_FRAGDATALAST then []
    else if p.dataLen > PKT_USERDATA_MAX then []
    else p.data
  }

  predicate IsTerminal(p: Packet) {
    p.msgType == PKT_MSGTYPE_NONFRAGDATA || p.msgType == PKT_MSGTYPE_FRAGDATALAST
  }

  // ---------- Fragmentation: the packets of one message, in closed form ----------

  function FragmentCount(size: nat): (n: nat)
    ensures size <= PKT_USERDATA_MAX * n < size + PKT_USERDATA_MAX
    ensures size <= MAX_USERDATA ==> n <= 63
  {
    (size + PKT_USERDATA_MAX - 1) / PKT_USERDATA_MAX
  }

  /** Number of bytes carried by the first k packets of a message of the given size. */
  function Carried(k: nat, size: nat): nat {
    if PKT_USERDATA_MAX * k < size then PKT_USERDATA_MAX * k else size
  }

  function FragmentKind(i: nat, n: nat): bits6 {
    if n == 1 then PKT_MSGTYPE_NONFRAGDATA
    else if i == 0 then PKT_MSGTYPE_FRAGDATAFIRST
    else if i == n - 1 then PKT_MSGTYPE_FRAGDATALAST
    else PKT_MSGTYPE_FRAGDATA
  }

  function Fragment(data: UserData, seqNum: bits6, i: nat): (p: Packet)
    requires i < FragmentCount(|data|)
  {
    MakePacket(data[Carried(i, |data|)..Carried(i + 1, |data|)],
               FragmentKind(i, FragmentCount(|data|)), seqNum, i)
  }

  function Fragments(data: UserData, seqNum: bits6): (ps: seq<Packet>)
    ensures |ps| == FragmentCount(|data|) <= 63
    ensures forall i :: 0 <= i < |ps| ==> ps[i] == Fragment(data, seqNum, i)
  {
    seq(FragmentCount(|data|), i requires 0 <= i < FragmentCount(|data|) => Fragment(data, seqNum, i))
  }

  /** The packets on the wire: header, kind, number and the stretch of data of each. */
  lemma WireFormat(data: UserData, seqNum: bits6, i: nat)
    requires i < |Fragments(data, seqNum)|
    ensures var ps := Fragments(data, seqNum);
            var p, last := ps[i], |ps| - 1;
            && p.fixed == 0x0A && p.seqNum == seqNum && p.fragSeq == i
            && p.msgType == (if last == 0 then 0x20 else if i == 0 then 0x21 else if i < last then 0x22 else 0x23)
            && (if i < last then |p.data| == 1020 else 1 <= |p.data| <= 1020 && 1020 * i + |p.data| == |data|)
            && 1020 * i + |p.data| <= |data| && p.data == data[1020 * i..1020 * i + |p.data|]
  {
  }

  // ---------- Writing ----------

  /** What the channel does at one turn of the write loop. */
  datatype WriteEvent =
    | WritePeekFailed(code: nat)   // CanWrite reports an error
    | Busy                         // CanWrite says no
    | WriteFailed(code: nat)       // Write reports an error
    | ShortWrite                   // Write succeeds but takes fewer bytes than asked
    | Sent                         // the whole packet is in the pipe

  datatype WriteResult = WriteResult(packets: nat, status: Status, used: nat)

  /** How far a write with `need` packets left gets, the channel behaving as events[from..]. */
  function Progress(events: seq<WriteEvent>, from: nat, need: nat): (r: WriteResult)
    requires from <= |events|
    ensures r.packets <= need && from <= r.used <= |events|
    decreases |events| - from
  {
    if need == 0 then WriteResult(0, NoError, from)
    else if from == |events| then WriteResult(0, Blocked, from)
    else match events[from]
      case WritePeekFailed(c) => WriteResult(0, Io(c), from + 1)
      case WriteFailed(c) => WriteResult(0, Io(c), from + 1)
      case ShortWrite => WriteResult(0, NoError, from + 1)
      case Busy => Progress(events, from + 1, need)
      case Sent =>
        var r := Progress(events, from + 1, need - 1);
        r.(packets := r.packets + 1)
  }

  lemma ProgressTurn(events: seq<WriteEvent>, from: nat, need: nat)
    requires from <= |events|
    ensures need == 0 ==> Progress(events, from, need) == WriteResult(0, NoError, from)
    ensures need > 0 && from == |events| ==> Progress(events, from, need) == WriteResult(0, Blocked, from)
    ensures need > 0 && from < |events| ==>
              Progress(events, from, need) ==
              match events[from]
              case WritePeekFailed(c) => WriteResult(0, Io(c), from + 1)
              case WriteFailed(c) => WriteResult(0, Io(c), from + 1)
              case ShortWrite => WriteResult(0, NoError, from + 1)
              case Busy => Progress(events, from + 1, need)
              case Sent => var r := Progress(events, from + 1, need - 1); r.(packets := r.packets + 1)
  {
  }

  /** Packets put into the pipe during a stretch of channel behaviour. */
  function SentIn(events: seq<WriteEvent>): nat {
    if events == [] then 0 else (if events[0] == Sent then 1 else 0) + SentIn(events[1..])
  }

  /** The channel is free or busy, and nothing goes wrong. */
  predicate GoesWell(event: WriteEvent) {
    event == Sent || event == Busy
  }

  /** What becomes of a write of `need` packets: it takes one turn after the other while all goes well,
      until the last packet is in the pipe, and what goes wrong ends it, an error with its own code. */
  ghost predicate WriteOutcome(events: seq<WriteEvent>, need: nat, status: Status, packets: nat, used: nat) {
    && used <= |events| && packets == SentIn(events[..used]) <= need
    && (forall i :: 0 <= i < used - 1 ==> GoesWell(events[i]))
    && match status
       case NoError =>
         if packets == need then (if need == 0 then used == 0 else used > 0 && events[used - 1] == Sent)
         else used > 0 && events[used - 1] == ShortWrite
       case Io(c) =>
         packets < need && used > 0 && (events[used - 1] == WritePeekFailed(c) || events[used - 1] == WriteFailed(c))
       case Blocked => packets < need && used == |events| && (used > 0 ==> GoesWell(events[used - 1]))
       case _ => false
  }

  lemma {:induction false} WriteMeaning(events: seq<WriteEvent>, from: nat, need: nat)
    requires from <= |events|
    ensures var r := Progress(events, from, need);
            WriteOutcome(events[from..], need, r.status, r.packets, r.used - from)
    decreases |events| - from
  {
    if need > 0 && from < |events| {
      var r, left := Progress(events, from, need), events[from..];
      assert left[1..] == events[from + 1..] && left[..r.used - from][1..] == left[1..][..r.used - from - 1];
      if GoesWell(events[from]) {
        WriteMeaning(events, from + 1, if events[from] == Sent then need - 1 else need);
      }
    }
  }

  lemma {:induction false} SentGrows(events: seq<WriteEvent>, m: nat, n: nat)
    requires m <= n <= |events|
    ensures SentIn(events[..m]) <= SentIn(events[..n])
    ensures m < n && events[n - 1] == Sent ==> SentIn(events[..m]) < SentIn(events[..n])
  {
    if m > 0 {
      assert events[..m][1..] == events[1..][..m - 1] && events[..n][1..] == events[1..][..n - 1];
      SentGrows(events[1..], m - 1, n - 1);
    } else if n > 0 {
      assert events[..n][1..] == events[1..][..n - 1];
      SentGrows(events[1..], 0, n - 1);
    }
  }

  /** That leaves no choice: what a write comes to is determined by the channel. */
  lemma WriteIsDetermined(events: seq<WriteEvent>, need: nat, s1: Status, p1: nat, u1: nat,
                          s2: Status, p2: nat, u2: nat)
    requires WriteOutcome(events, need, s1, p1, u1) && WriteOutcome(events, need, s2, p2, u2) && u1 <= u2
    ensures s1 == s2 && p1 == p2 && u1 == u2
  {
    SentGrows(events, u1, u2);
  }

  /** A channel that is at most busy until the last packet is in the pipe lets the write through. */
  lemma BusyOnlyDelays(events: seq<WriteEvent>, need: nat, n: nat)
    requires n <= |events| && SentIn(events[..n]) == need
    requires forall i :: 0 <= i < n ==> GoesWell(events[i])
    requires if need == 0 then n == 0 else n > 0 && events[n - 1] == Sent
    ensures Progress(events, 0, need) == WriteResult(need, NoError, n)
  {
    var r := Progress(events, 0, need);
    WriteMeaning(events, 0, need);
    assert events[0..] == events;
    assert WriteOutcome(events, need, NoError, need, n);
    if n <= r.used {
      WriteIsDetermined(events, need, NoError, need, n, r.status, r.packets, r.used);
    } else {
      WriteIsDetermined(events, need, r.status, r.packets, r.used, NoError, need, n);
    }
  }

  class Servent {
    /** The static message number of _WriteData. */
    var nSeqNum: bits6
    /** Everything this side has put into its pipe. */
    var outgoing: seq<Packet>

    constructor ()
      ensures nSeqNum == 0 && outgoing == []
    {
      nSeqNum, outgoing := 0, [];
    }

    /** Sizes, numbers and builds the next packet of the message being written. */
    method NextPacket(data: UserData, nWritten: nat, nFragSeqNum: nat) returns (pkt: Packet, nToSend: nat)
      requires nWritten == Carried(nFragSeqNum, |data|) < |data|
      ensures nFragSeqNum < FragmentCount(|data|) && pkt == Fragments(data, nSeqNum)[nFragSeqNum]
      ensures nWritten + nToSend == Carried(nFragSeqNum + 1, |data|)
    {
      nToSend := |data| - nWritten;
      var nMessageType: bits6;
      if nToSend > PKT_USERDATA_MAX {
        nToSend := PKT_USERDATA_MAX;
        nMessageType := if nFragSeqNum == 0 then PKT_MSGTYPE_FRAGDATAFIRST else PKT_MSGTYPE_FRAGDATA;
      } else {
        nMessageType := if nFragSeqNum == 0 then PKT_MSGTYPE_NONFRAGDATA else PKT_MSGTYPE_FRAGDATALAST;
      }
      assert nFragSeqNum < FragmentCount(|data|) <= 63;
      pkt := MakePacket(data[nWritten..nWritten + nToSend], nMessageType, nSeqNum, nFragSeqNum);
    }

    method WriteData(data: seq<byte>, events: seq<WriteEvent>)
      returns (status: Status, nWritten: nat, used: nat)
      modifies this
      ensures |data| > MAX_USERDATA ==>
                status == SendBufferTooBig && outgoing == old(outgoing) && nSeqNum == old(nSeqNum)
      ensures |data| <= MAX_USERDATA ==>
                var n := FragmentCount(|data|);
                var r := Progress(events, 0, n);
                && status == r.status && used == r.used
                && nWritten == Carried(r.packets, |data|)
                && outgoing == old(outgoing) + Fragments(data, old(nSeqNum))[..r.packets]
                && nSeqNum == if r.packets == n then (old(nSeqNum) + 1) % 64 else old(nSeqNum)
    {
      hide FragmentCount, Fragment, Progress;
      used := 0;
      nWritten := 0;
      if |data| > MAX_USERDATA {
        return SendBufferTooBig, nWritten, used;
      }
      var nFragSeqNum := 0;
      status := NoError;
      ghost var n := FragmentCount(|data|);
      assert n <= 63;
      ghost var whole := Fragments(data, nSeqNum);
      hide Fragments;
      while nWritten < |data|
        invariant 0 <= used <= |events|
        invariant nSeqNum == old(nSeqNum)
        invariant nFragSeqNum <= n
        invariant nWritten == Carried(nFragSeqNum, |data|)
        invariant outgoing == old(outgoing) + whole[..nFragSeqNum]
        invariant status == NoError
        invariant Progress(events, 0, n) ==
                  var r := Progress(events, used, n - nFragSeqNum);
                  r.(packets := nFragSeqNum + r.packets)
        decreases |events| - used
      {
        ProgressTurn(events, used, n - nFragSeqNum);
        if used == |events| {
          return Blocked, nWritten, used;
        }
        var event := events[used];
        used := used + 1;
        match event {
          case WritePeekFailed(c) => return Io(c), nWritten, used;
          case Busy => continue;
          case _ =>
        }
        var pkt, nToSend := NextPacket(data, nWritten, nFragSeqNum);
        match event {
          case WriteFailed(c) => return Io(c), nWritten, used;
          case ShortWrite => return NoError, nWritten, used;
          case _ =>
        }
        outgoing := outgoing + [pkt];
        nWritten := nWritten + nToSend;
        nFragSeqNum := nFragSeqNum + 1;
        assert whole[..nFragSeqNum] == whole[..nFragSeqNum - 1] + [pkt];
        // The source's check that more than 63 fragments were sent never fires.
        assert nFragSeqNum <= 63;
      }
      ProgressTurn(events, used, n - nFragSeqNum);
      nSeqNum := (nSeqNum + 1) % 64;
      assert whole[..n] == whole;
    }
  }

  // ---------- Reading ----------

  /** What the channel does at one turn of the read loop. */
  datatype ReadEvent =
    | ReadPeekFailed(code: nat)    // CanRead reports an error
    | NothingYet                   // CanRead says no
    | ReadFailed(code: nat)        // Read reports an error
    | EmptyRead                    // Read succeeds with no byte
    | Arrived(packet: Packet)

  /** Locals of the read loop: last message and fragment numbers, and the bytes stored so far. */
  datatype ReadState = ReadState(lastSeq: nat, lastFrag: nat, acc: seq<byte>)

  const FRESH := ReadState(INVALID_SEQNUM, INVALID_SEQNUM, [])

  datatype Reception = More(state: ReadState) | Finished(bytes: seq<byte>) | Refused(status: Status)

  /** The verdict on one packet. */
  function Receive(rs: ReadState, p: Packet, bufferSize: nat): Reception {
    var data := ExtractPacketData(p);
    if data == [] then Refused(BadPacket)
    else if rs.lastSeq != INVALID_SEQNUM && p.seqNum != rs.lastSeq then Refused(Desynchronized)
    else if rs.lastFrag != INVALID_SEQNUM && p.fragSeq != rs.lastFrag + 1 then Refused(PacketsNotOrdered)
    else if |rs.acc| + |data| > bufferSize then Refused(ReadBufferTooSmall)
    else if IsTerminal(p) then Finished(rs.acc + data)
    else More(ReadState(p.seqNum, p.fragSeq, rs.acc + data))
  }

  datatype ReadResult = ReadResult(status: Status, bytes: seq<byte>, used: nat)

  /** One call of _ReadData, as a function of the channel's behaviour. */
  function Reassemble(rs: ReadState, events: seq<ReadEvent>, bufferSize: nat): (r: ReadResult)
    ensures r.used <= |events|
    decreases |events|
  {
    if events == [] then ReadResult(Blocked, rs.acc, 0)
    else match events[0]
      case ReadPeekFailed(c) => ReadResult(Io(c), rs.acc, 1)
      case ReadFailed(c) => ReadResult(Io(c), rs.acc, 1)
      case NothingYet => OneMore(Reassemble(rs, events[1..], bufferSize))
      case EmptyRead => OneMore(Reassemble(rs, events[1..], bufferSize))
      case Arrived(p) =>
        match Receive(rs, p, bufferSize)
        case Refused(status) => ReadResult(status, rs.acc, 1)
        case Finished(bytes) => ReadResult(NoError, bytes, 1)
        case More(next) => OneMore(Reassemble(next, events[1..], bufferSize))
  }

  function OneMore(r: ReadResult): ReadResult {
    r.(used := r.used + 1)
  }

  method ReadData(events: seq<ReadEvent>, buffer: array<byte>)
    returns (status: Status, nRead: nat, used: nat)
    modifies buffer
    ensures nRead <= buffer.Length
    ensures ReadResult(status, buffer[..nRead], used) == Reassemble(FRESH, events, buffer.Length)
    ensures buffer[nRead..] == old(buffer[..])[nRead..]
  {
    hide ExtractPacketData;
    var nLastSeqNum: nat, nLastFragSeqNum: nat := INVALID_SEQNUM, INVALID_SEQNUM;
    ghost var original := buffer[..];
    nRead, used := 0, 0;
    var nMessageType := 0;
    status := NoError;
    while true
      invariant used <= |events| && nRead <= buffer.Length
      invariant status == NoError
      invariant nMessageType != PKT_MSGTYPE_NONFRAGDATA && nMessageType != PKT_MSGTYPE_FRAGDATALAST
      invariant buffer[nRead..] == original[nRead..]
      invariant Reassemble(FRESH, events, buffer.Length) ==
                var r := Reassemble(ReadState(nLastSeqNum, nLastFragSeqNum, buffer[..nRead]),
                                    events[used..], buffer.Length);
                r.(used := used + r.used)
      decreases |events| - used
    {
      if used == |events| {
        return Blocked, nRead, used;
      }
      var event := events[used];
      used := used + 1;
      assert events[used - 1..][1..] == events[used..];
      match event {
        case ReadPeekFailed(c) => return Io(c), nRead, used;
        case ReadFailed(c) => return Io(c), nRead, used;
        case NothingYet => continue;
        case EmptyRead => continue;
        case Arrived(p) =>
          var data := ExtractPacketData(p);
          if |data| == 0 {
            return BadPacket, nRead, used;
          }
          if nLastSeqNum != INVALID_SEQNUM && p.seqNum != nLastSeqNum {
            return Desynchronized, nRead, used;
          }
          if nLastFragSeqNum != INVALID_SEQNUM && p.fragSeq != nLastFragSeqNum + 1 {
            return PacketsNotOrdered, nRead, used;
          }
          if nRead + |data| > buffer.Length {
            return ReadBufferTooSmall, nRead, used;
          }
          ghost var before := buffer[..nRead];
          nLastSeqNum, nLastFragSeqNum := p.seqNum, p.fragSeq;
          forall i | 0 <= i < |data| {
            buffer[nRead + i] := data[i];
          }
          assert buffer[nRead + |data|..] == original[nRead..][|data|..];
          nRead := nRead + |data|;
          assert buffer[..nRead] == before + data;
          nMessageType := p.msgType;
          if IsTerminal(p) {
            return NoError, nRead, used;
          }
      }
    }
  }
}
