/** From the server's structures to the client's, through the message queue, the packets and the pipe. */
module EndToEnd {
  import opened Bytes
  import opened Options
  import opened Messages
  import opened StatusMessages
  import Servents
  import Transport

  datatype Report = Status(info: StatusInfo) | Tunnel(t: TunnelInfo)

  /** The message the server posts for a report, if there is one. */
  function Posted(r: Report): Option<seq<byte>> {
    match r
    case Status(info) => Create(ID_HACCESSSTATUSINFO, StatusBytes(info))
    case Tunnel(t) => Create(ID_TUNNELINFO, TunnelBytes(t))
  }

  /** What ProcessMessage makes of the bytes it is handed. */
  function Processed(raw: seq<byte>): Option<Report>
    requires |raw| >= MSG_HEADER_LEN
  {
    var pData := raw[MSG_HEADER_LEN..];
    if MsgId(raw) == ID_HACCESSSTATUSINFO then
      var info := ParseStatus(pData);
      if info.Some? then Some(Status(info.value)) else None
    else if MsgId(raw) == ID_TUNNELINFO then
      var t := ParseTunnel(pData);
      if t.Some? && t.value.rest == [] then Some(Tunnel(t.value.value)) else None
    else None
  }

  /** A report as it arrives: null strings have become empty ones. */
  function AsArrived(r: Report): Report {
    match r
    case Status(info) => Status(info.(devices := Arrived(info.devices)))
    case Tunnel(t) => Tunnel(TunnelArrived(t))
  }

  lemma ReportArrives(r: Report, raw: seq<byte>)
    requires Posted(r) == Some(raw)
    ensures |raw| >= MSG_HEADER_LEN && Processed(raw) == Some(AsArrived(r))
  {
    match r
    case Status(info) =>
      CreateMessage(ID_HACCESSSTATUSINFO, StatusBytes(info));
      StatusRoundTrip(info);
      hide Create, StatusBytes, ParseStatus, MsgId, DataLen, Arrived;
    case Tunnel(t) =>
      CreateMessage(ID_TUNNELINFO, TunnelBytes(t));
      TunnelRoundTrip(t);
      hide Create, TunnelBytes, ParseTunnel, MsgId, DataLen, TunnelArrived;
  }

  /** In every interleaving of poster, sender, receiver and resets: the i-th message the client is
      handed on a connection gives back the i-th report accepted on it. */
  lemma ReportsArriveInOrder(seqNum: Servents.bits6, capacity: Transport.Capacity, steps: seq<Transport.Step>,
                             reports: seq<Report>)
    requires Transport.Legal(Transport.Init(seqNum, capacity), steps)
    requires var accepted := Transport.Run(Transport.Init(seqNum, capacity), steps).accepted;
             |reports| == |accepted| && forall i :: 0 <= i < |accepted| ==> Posted(reports[i]) == Some(accepted[i])
    ensures var delivered := Transport.Run(Transport.Init(seqNum, capacity), steps).delivered;
            && |delivered| <= |reports|
            && forall i :: 0 <= i < |delivered| ==>
                 |delivered[i]| >= MSG_HEADER_LEN && Processed(delivered[i]) == Some(AsArrived(reports[i]))
  {
    hide Transport.Run, Transport.Legal, Posted, Processed, AsArrived;
    Transport.WholeRunFifo(seqNum, capacity, steps);
    var s := Transport.Run(Transport.Init(seqNum, capacity), steps);
    forall i | 0 <= i < |s.delivered|
      ensures |s.delivered[i]| >= MSG_HEADER_LEN && Processed(s.delivered[i]) == Some(AsArrived(reports[i]))
    {
      ReportArrives(reports[i], s.delivered[i]);
    }
  }
}
