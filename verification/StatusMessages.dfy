/** Status and tunnel messages: the server that writes them (servermsgsender.cc) and the client that
    takes them apart again (clientmsgtranslator.cc). Enumerations and integers are little-endian. */
module StatusMessages {
  import opened Bytes
  import opened Options
  import opened Messages

  const ID_TUNNELINFO := 0x0102
  const ID_HACCESSSTATUSINFO := 0x0104

  /** The characters of a C string before its NUL. */
  type Chars = s: seq<byte> | 0 !in s

  function Text(s: Option<Chars>): Chars {
    if s.Some? then s.value else []
  }

  function StringBytes(s: Option<Chars>): seq<byte> {
    Text(s) + [0]
  }

  // ---------- Reading a string or a word from what is left of the data ----------

  datatype Taken<+T> = Taken(value: T, rest: seq<byte>)

  /** None: the terminating NUL lies past the end of the data. */
  function TakeString(s: seq<byte>): (r: Option<Taken<Chars>>)
    ensures r.Some? ==> |r.value.rest| < |s|
  {
    var n := IndexOf(s, 0);
    if n == |s| then None else Some(Taken(s[..n], s[n + 1..]))
  }

  function TakeWord(s: seq<byte>): (r: Option<Taken<uint32>>)
    ensures r.Some? ==> |r.value.rest| < |s|
  {
    if |s| < 4 then None else Some(Taken(FromLe32(s[..4]), s[4..]))
  }

  lemma StringBack(s: Option<Chars>, rest: seq<byte>)
    ensures TakeString(StringBytes(s) + rest) == Some(Taken(Text(s), rest))
  {
    var whole := StringBytes(s) + rest;
    var n, m := IndexOf(whole, 0), |Text(s)|;
    assert whole[m] == 0 && forall i :: 0 <= i < m ==> whole[i] == Text(s)[i] && whole[i] != 0;
    assert forall i :: 0 <= i < n ==> whole[i] in whole[..n];
    assert n == m;
    assert whole[..n] == Text(s) && whole[n + 1..] == rest;
  }

  lemma WordBack(v: uint32, rest: seq<byte>)
    ensures TakeWord(Le32(v) + rest) == Some(Taken(v, rest))
  {
    Le32RoundTrip(v);
    hide Le32, FromLe32;
    assert (Le32(v) + rest)[..4] == Le32(v);
  }

  /** Whatever is taken was there, in that form. */
  lemma StringThere(s: seq<byte>)
    requires TakeString(s).Some?
    ensures s == StringBytes(Some(TakeString(s).value.value)) + TakeString(s).value.rest
  {
  }

  lemma WordThere(s: seq<byte>)
    requires TakeWord(s).Some?
    ensures s == Le32(TakeWord(s).value.value) + TakeWord(s).value.rest
  {
    FromLe32RoundTrip(s[..4]);
    hide Le32, FromLe32;
    assert s == s[..4] + s[4..];
  }

  // ---------- Device statuses ----------

  class MappingStatus {
    var deviceName: Option<Chars>
    var mappingStatus: uint32
    var next: MappingStatus?

    constructor (deviceName: Option<Chars>, mappingStatus: uint32, next: MappingStatus?)
      ensures this.deviceName == deviceName && this.mappingStatus == mappingStatus && this.next == next
    {
      this.deviceName, this.mappingStatus, this.next := deviceName, mappingStatus, next;
    }
  }

  datatype Device = Device(name: Option<Chars>, status: uint32)

  datatype StatusInfo = StatusInfo(proxy: uint32, web: uint32, devmapmod: uint32, devices: seq<Device>)

  /** nodes is the whole list that starts at head. */
  ghost predicate Chain(head: MappingStatus?, nodes: seq<MappingStatus>)
    reads nodes
  {
    if nodes == [] then head == null else head == nodes[0] && Chain(nodes[0].next, nodes[1..])
  }

  ghost function Devices(nodes: seq<MappingStatus>): seq<Device>
    reads nodes
  {
    if nodes == [] then []
    else [Device(nodes[0].deviceName, nodes[0].mappingStatus)] + Devices(nodes[1..])
  }

  function DeviceBytes(d: Device): seq<byte> {
    StringBytes(d.name) + Le32(d.status)
  }

  function DevicesBytes(devices: seq<Device>): seq<byte> {
    if devices == [] then [] else DeviceBytes(devices[0]) + DevicesBytes(devices[1..])
  }

  function StatusBytes(info: StatusInfo): seq<byte> {
    Le32(info.proxy) + (Le32(info.web) + (Le32(info.devmapmod) + DevicesBytes(info.devices)))
  }

  function ParseDevices(s: seq<byte>): Option<seq<Device>>
    decreases |s|
  {
    if |s| == 0 then Some([])
    else
      var name := TakeString(s);
      if name.None? then None
      else
        var status := TakeWord(name.value.rest);
        if status.None? then None
        else
          var others := ParseDevices(status.value.rest);
          if others.None? then None
          else Some([Device(Some(name.value.value), status.value.value)] + others.value)
  }

  function ParseStatus(s: seq<byte>): Option<StatusInfo> {
    var proxy := TakeWord(s);
    if proxy.None? then None
    else
      var web := TakeWord(proxy.value.rest);
      if web.None? then None
      else
        var devmapmod := TakeWord(web.value.rest);
        if devmapmod.None? then None
        else
          var devices := ParseDevices(devmapmod.value.rest);
          if devices.None? then None
          else Some(StatusInfo(proxy.value.value, web.value.value, devmapmod.value.value, devices.value))
  }

  /** A null name arrives as an empty one. */
  function Arrived(devices: seq<Device>): seq<Device> {
    if devices == [] then [] else [Device(Some(Text(devices[0].name)), devices[0].status)] + Arrived(devices[1..])
  }

  lemma {:induction false} DevicesRoundTrip(devices: seq<Device>)
    ensures ParseDevices(DevicesBytes(devices)) == Some(Arrived(devices))
  {
    if devices != [] {
      var d, others := devices[0], DevicesBytes(devices[1..]);
      Associates(StringBytes(d.name), Le32(d.status), others);
      StringBack(d.name, Le32(d.status) + others);
      WordBack(d.status, others);
      DevicesRoundTrip(devices[1..]);
      hide TakeString, TakeWord, StringBytes, Le32;
    }
  }

  /** Send, then translate: the three feature codes and the list come back in order. */
  lemma StatusRoundTrip(info: StatusInfo)
    ensures ParseStatus(StatusBytes(info)) == Some(info.(devices := Arrived(info.devices)))
  {
    hide TakeWord, Le32, ParseDevices, DevicesBytes;
    var rest := DevicesBytes(info.devices);
    DevicesRoundTrip(info.devices);
    WordBack(info.proxy, Le32(info.web) + (Le32(info.devmapmod) + rest));
    WordBack(info.web, Le32(info.devmapmod) + rest);
    WordBack(info.devmapmod, rest);
  }

  lemma {:induction false} ParsedDevicesSpell(s: seq<byte>)
    requires ParseDevices(s).Some?
    ensures DevicesBytes(ParseDevices(s).value) == s
    decreases |s|
  {
    if |s| > 0 {
      var name := TakeString(s).value;
      var status := TakeWord(name.rest).value;
      StringThere(s);
      WordThere(name.rest);
      ParsedDevicesSpell(status.rest);
      var devices := ParseDevices(s).value;
      assert devices[1..] == ParseDevices(status.rest).value;
      hide TakeString, TakeWord, StringBytes, Le32;
      Associates(StringBytes(Some(name.value)), Le32(status.value), status.rest);
    }
  }

  /** Data that translates at all is the data that would be sent for the result: no octet is skipped,
      read twice or left over. */
  lemma ParsedStatusSpells(s: seq<byte>)
    requires ParseStatus(s).Some?
    ensures StatusBytes(ParseStatus(s).value) == s
  {
    var proxy := TakeWord(s).value;
    var web := TakeWord(proxy.rest).value;
    var devmapmod := TakeWord(web.rest).value;
    WordThere(s);
    WordThere(proxy.rest);
    WordThere(web.rest);
    ParsedDevicesSpell(devmapmod.rest);
    hide TakeWord, Le32, ParseDevices, DevicesBytes;
  }

  // ---------- Sending and translating statuses ----------

  method PutString(pData: array<byte>, len: nat, s: Option<Chars>) returns (next: nat)
    requires len + |StringBytes(s)| <= pData.Length
    modifies pData
    ensures next == len + |StringBytes(s)| && pData[..next] == old(pData[..len]) + StringBytes(s)
  {
    if s.Some? {
      next := Put(pData, len, s.value + [0]);
    } else {
      next := Put(pData, len, [0]);
    }
  }

  /** Puts the device entries behind the len octets that are there. */
  method PutDevices(pData: array<byte>, len: nat, head: MappingStatus?, ghost nodes: seq<MappingStatus>)
    returns (next: nat)
    requires Chain(head, nodes) && len + |DevicesBytes(Devices(nodes))| <= pData.Length
    modifies pData
    ensures next == len + |DevicesBytes(Devices(nodes))|
    ensures pData[..next] == old(pData[..len]) + DevicesBytes(Devices(nodes))
  {
    hide StringBytes, Le32;
    var list := head;
    ghost var rest, done := nodes, [];
    ghost var was := pData[..len];
    next := len;
    while list != null
      invariant Chain(list, rest)
      invariant done + DevicesBytes(Devices(rest)) == DevicesBytes(Devices(nodes))
      invariant next == len + |done| && pData[..next] == was + done
      decreases |rest|
    {
      ghost var d := Device(list.deviceName, list.mappingStatus);
      ghost var others := DevicesBytes(Devices(rest[1..]));
      assert Devices(rest)[1..] == Devices(rest[1..]);
      assert DevicesBytes(Devices(rest)) == DeviceBytes(d) + others;
      Associates(done, DeviceBytes(d), others);
      Associates(was, done, DeviceBytes(d));
      next := PutDevice(pData, next, list);
      done := done + DeviceBytes(d);
      list := list.next;
      rest := rest[1..];
    }
  }

  method PutDevice(pData: array<byte>, len: nat, node: MappingStatus) returns (next: nat)
    requires len + |DeviceBytes(Device(node.deviceName, node.mappingStatus))| <= pData.Length
    modifies pData
    ensures next == len + |DeviceBytes(Device(node.deviceName, node.mappingStatus))|
    ensures pData[..next] == old(pData[..len]) + DeviceBytes(Device(node.deviceName, node.mappingStatus))
  {
    hide StringBytes, Le32;
    ghost var was := pData[..len];
    next := PutString(pData, len, node.deviceName);
    next := Put(pData, next, Le32(node.mappingStatus));
    Associates(was, StringBytes(node.deviceName), Le32(node.mappingStatus));
  }

  /** The information must fit the data of a message, which the original only asserts; data that fills
      it to the last octet is still refused by CreateMessage. */
  method SendStatusInfo(proxy: uint32, web: uint32, devmapmod: uint32, head: MappingStatus?,
                        ghost nodes: seq<MappingStatus>)
    returns (m: Option<seq<byte>>)
    requires Chain(head, nodes)
    requires |StatusBytes(StatusInfo(proxy, web, devmapmod, Devices(nodes)))| <= MSG_MAX_USERDATA
    ensures m == Create(ID_HACCESSSTATUSINFO, StatusBytes(StatusInfo(proxy, web, devmapmod, Devices(nodes))))
  {
    hide Le32, DevicesBytes, Create, Devices;
    var pData := new byte[MSG_MAX_USERDATA];
    var len := Put(pData, 0, Le32(proxy));
    assert pData[..len] == Le32(proxy);
    len := Put(pData, len, Le32(web));
    len := Put(pData, len, Le32(devmapmod));
    len := PutDevices(pData, len, head, nodes);
    ghost var rest := DevicesBytes(Devices(nodes));
    Associates(Le32(proxy) + Le32(web), Le32(devmapmod), rest);
    Associates(Le32(proxy), Le32(web), Le32(devmapmod) + rest);
    m := Create(ID_HACCESSSTATUSINFO, pData[..len]);
  }

  /** The recursion that rebuilds the list, moving the cursor along; false if it would read past the
      end of the data. */
  method BuildMappingStatuses(pData: seq<byte>, cursor: nat)
    returns (ok: bool, head: MappingStatus?, next: nat, ghost nodes: seq<MappingStatus>)
    requires cursor <= |pData|
    ensures ok <==> ParseDevices(pData[cursor..]).Some?
    ensures ok ==> && next == |pData| && Chain(head, nodes) && fresh(nodes)
                   && Devices(nodes) == ParseDevices(pData[cursor..]).value
    decreases |pData| - cursor
  {
    hide TakeString, TakeWord;
    head, next, nodes := null, cursor, [];
    if cursor >= |pData| {
      return true, null, cursor, [];
    }
    var name := TakeString(pData[cursor..]);
    if name.None? {
      return false, head, next, nodes;
    }
    var status := TakeWord(name.value.rest);
    if status.None? {
      return false, head, next, nodes;
    }
    next := |pData| - |status.value.rest|;
    TakenIsTail(pData, cursor);
    ok, head, next, nodes := BuildMappingStatuses(pData, next);
    if ok {
      head := new MappingStatus(Some(name.value.value), status.value.value, head);
      ghost var others := nodes;
      nodes := [head] + nodes;
      assert nodes[1..] == others;
    }
  }

  lemma TakenIsTail(pData: seq<byte>, cursor: nat)
    requires cursor <= |pData| && TakeString(pData[cursor..]).Some?
    requires TakeWord(TakeString(pData[cursor..]).value.rest).Some?
    ensures var rest := TakeWord(TakeString(pData[cursor..]).value.rest).value.rest;
            |rest| < |pData| - cursor && rest == pData[|pData| - |rest|..]
  {
  }

  method TranslateStatusInfo(pData: seq<byte>)
    returns (ok: bool, proxy: uint32, web: uint32, devmapmod: uint32, head: MappingStatus?,
             ghost nodes: seq<MappingStatus>)
    ensures ok <==> ParseStatus(pData).Some?
    ensures ok ==> Chain(head, nodes) && ParseStatus(pData).value == StatusInfo(proxy, web, devmapmod, Devices(nodes))
  {
    hide FromLe32, ParseDevices;
    ok, proxy, web, devmapmod, head, nodes := false, 0, 0, 0, null, [];
    if |pData| < 12 {
      return;
    }
    proxy := FromLe32(pData[..4]);
    web := FromLe32(pData[4..8]);
    devmapmod := FromLe32(pData[8..12]);
    assert pData[4..][..4] == pData[4..8] && pData[4..][4..] == pData[8..];
    assert pData[8..][..4] == pData[8..12] && pData[8..][4..] == pData[12..];
    var next;
    ok, head, next, nodes := BuildMappingStatuses(pData, 12);
  }

  /** From the server's list to the client's: both ends of one message. */
  method Exchange(proxy: uint32, web: uint32, devmapmod: uint32, head: MappingStatus?, ghost nodes: seq<MappingStatus>)
    returns (sent: bool, ok: bool, arrived: MappingStatus?, ghost copies: seq<MappingStatus>)
    requires Chain(head, nodes)
    requires |StatusBytes(StatusInfo(proxy, web, devmapmod, Devices(nodes)))| <= MSG_MAX_USERDATA
    ensures sent <==> |StatusBytes(StatusInfo(proxy, web, devmapmod, Devices(nodes)))| < MSG_MAX_USERDATA
    ensures sent ==> ok && Chain(arrived, copies) && Devices(copies) == Arrived(Devices(nodes))
  {
    hide StatusBytes, Create, ParseStatus, Arrived, Devices, Chain;
    ok, arrived, copies := false, null, [];
    ghost var info := StatusInfo(proxy, web, devmapmod, Devices(nodes));
    CreateMessage(ID_HACCESSSTATUSINFO, StatusBytes(info));
    StatusRoundTrip(info);
    var m := SendStatusInfo(proxy, web, devmapmod, head, nodes);
    sent := m.Some?;
    if sent {
      var p, w, d;
      ok, p, w, d, arrived, copies := TranslateStatusInfo(m.value[MSG_HEADER_LEN..]);
    }
  }

  // ---------- Tunnel information ----------

  /** What of the tunnel information is sent; the DNS address is not. The up time is 64 bits, as its low
      and high halves. */
  datatype TunnelInfo = TunnelInfo(
    brokerName: Option<Chars>, tunnelType: uint32,
    ipv4Local: Option<Chars>, ipv6Local: Option<Chars>, ipv4Remote: Option<Chars>, ipv6Remote: Option<Chars>,
    delegatedPrefix: Option<Chars>, userDomain: Option<Chars>, upTimeLow: uint32, upTimeHigh: uint32)

  function TunnelBytes(t: TunnelInfo): seq<byte> {
    StringBytes(t.brokerName) + (Le32(t.tunnelType)
    + (StringBytes(t.ipv4Local) + (StringBytes(t.ipv6Local) + (StringBytes(t.ipv4Remote) + (StringBytes(t.ipv6Remote)
    + (StringBytes(t.delegatedPrefix) + (StringBytes(t.userDomain)
    + (Le32(t.upTimeLow) + Le32(t.upTimeHigh)))))))))
  }

  function Filled(s: Option<Chars>): Option<Chars> {
    Some(Text(s))
  }

  function TunnelArrived(t: TunnelInfo): TunnelInfo {
    TunnelInfo(Filled(t.brokerName), t.tunnelType, Filled(t.ipv4Local), Filled(t.ipv6Local), Filled(t.ipv4Remote),
               Filled(t.ipv6Remote), Filled(t.delegatedPrefix), Filled(t.userDomain), t.upTimeLow, t.upTimeHigh)
  }

  method SendTunnelInfo(t: TunnelInfo) returns (m: Option<seq<byte>>)
    requires |TunnelBytes(t)| <= MSG_MAX_USERDATA
    ensures m == Create(ID_TUNNELINFO, TunnelBytes(t))
  {
    hide StringBytes, Le32, Create;
    var pData := new byte[MSG_MAX_USERDATA];
    var len := PutString(pData, 0, t.brokerName);
    assert pData[..len] == StringBytes(t.brokerName);
    len := Put(pData, len, Le32(t.tunnelType));
    len := PutString(pData, len, t.ipv4Local);
    len := PutString(pData, len, t.ipv6Local);
    len := PutString(pData, len, t.ipv4Remote);
    len := PutString(pData, len, t.ipv6Remote);
    len := PutString(pData, len, t.delegatedPrefix);
    len := PutString(pData, len, t.userDomain);
    len := Put(pData, len, Le32(t.upTimeLow));
    len := Put(pData, len, Le32(t.upTimeHigh));
    Nested(StringBytes(t.brokerName), Le32(t.tunnelType), StringBytes(t.ipv4Local), StringBytes(t.ipv6Local),
           StringBytes(t.ipv4Remote), StringBytes(t.ipv6Remote), StringBytes(t.delegatedPrefix),
           StringBytes(t.userDomain), Le32(t.upTimeLow), Le32(t.upTimeHigh));
    m := Create(ID_TUNNELINFO, pData[..len]);
  }

  lemma Nested(a: seq<byte>, b: seq<byte>, c: seq<byte>, d: seq<byte>, e: seq<byte>,
               f: seq<byte>, g: seq<byte>, h: seq<byte>, i: seq<byte>, j: seq<byte>)
    ensures a + b + c + d + e + f + g + h + i + j == a + (b + (c + (d + (e + (f + (g + (h + (i + j))))))))
  {
  }

  /** The string at the cursor, which moves past its NUL. */
  method ReadString(pData: seq<byte>, nCursor: nat) returns (ok: bool, s: Option<Chars>, next: nat)
    requires nCursor <= |pData|
    ensures ok <==> TakeString(pData[nCursor..]).Some?
    ensures next <= |pData|
    ensures ok ==> && s == Some(TakeString(pData[nCursor..]).value.value)
                   && pData[next..] == TakeString(pData[nCursor..]).value.rest
    ensures ok ==> nCursor < next
  {
    var n := IndexOf(pData[nCursor..], 0);
    if nCursor + n == |pData| {
      return false, None, nCursor;
    }
    ok, s, next := true, Some(pData[nCursor..][..n]), nCursor + n + 1;
    assert pData[nCursor..][n + 1..] == pData[next..];
  }

  method ReadWord(pData: seq<byte>, nCursor: nat) returns (ok: bool, v: uint32, next: nat)
    requires nCursor <= |pData|
    ensures ok <==> TakeWord(pData[nCursor..]).Some?
    ensures next <= |pData|
    ensures ok ==> && v == TakeWord(pData[nCursor..]).value.value
                   && pData[next..] == TakeWord(pData[nCursor..]).value.rest
  {
    hide FromLe32;
    if nCursor + 4 > |pData| {
      return false, 0, nCursor;
    }
    ok, v, next := true, FromLe32(pData[nCursor..][..4]), nCursor + 4;
    assert pData[nCursor..][4..] == pData[next..];
  }

  /** The fields in the order in which they were put; what follows them is left over. */
  function ParseTunnel(s: seq<byte>): Option<Taken<TunnelInfo>> {
    var brokerName := TakeString(s);
    if brokerName.None? then None
    else
    var tunnelType := TakeWord(brokerName.value.rest);
    if tunnelType.None? then None
    else
    var ends := ParseStrings(tunnelType.value.rest, 6);
    if ends.None? then None
    else
    var low := TakeWord(ends.value.rest);
    if low.None? then None
    else
    var high := TakeWord(low.value.rest);
    if high.None? then None
    else
    var e := ends.value.value;
    Some(Taken(TunnelInfo(Some(brokerName.value.value), tunnelType.value.value, Some(e[0]), Some(e[1]), Some(e[2]),
                          Some(e[3]), Some(e[4]), Some(e[5]), low.value.value, high.value.value), high.value.rest))
  }

  function ParseStrings(s: seq<byte>, n: nat): (r: Option<Taken<seq<Chars>>>)
    ensures r.Some? ==> |r.value.value| == n
  {
    if n == 0 then Some(Taken([], s))
    else
      var first := TakeString(s);
      if first.None? then None
      else
        var others := ParseStrings(first.value.rest, n - 1);
        if others.None? then None
        else Some(Taken([first.value.value] + others.value.value, others.value.rest))
  }

  function StringsBytes(ss: seq<Chars>): seq<byte> {
    if ss == [] then [] else StringBytes(Some(ss[0])) + StringsBytes(ss[1..])
  }

  lemma {:induction false} StringsRoundTrip(ss: seq<Chars>, rest: seq<byte>)
    ensures ParseStrings(StringsBytes(ss) + rest, |ss|) == Some(Taken(ss, rest))
  {
    if ss == [] {
      assert StringsBytes(ss) + rest == rest;
    } else {
      hide TakeString, StringBytes;
      var others := StringsBytes(ss[1..]);
      Associates(StringBytes(Some(ss[0])), others, rest);
      StringBack(Some(ss[0]), others + rest);
      StringsRoundTrip(ss[1..], rest);
      assert [ss[0]] + ss[1..] == ss;
    }
  }

  lemma {:induction false} StringsThere(s: seq<byte>, n: nat)
    requires ParseStrings(s, n).Some?
    ensures StringsBytes(ParseStrings(s, n).value.value) + ParseStrings(s, n).value.rest == s
  {
    var ss := ParseStrings(s, n).value.value;
    if n == 0 {
      assert StringsBytes(ss) == [];
    } else {
      hide TakeString, StringBytes;
      var first := TakeString(s).value;
      StringThere(s);
      StringsThere(first.rest, n - 1);
      assert ss[1..] == ParseStrings(first.rest, n - 1).value.value;
      Associates(StringBytes(Some(first.value)), StringsBytes(ss[1..]), ParseStrings(s, n).value.rest);
    }
  }

  /** The six strings in a row. */
  function Ends(t: TunnelInfo): seq<Chars> {
    [Text(t.ipv4Local), Text(t.ipv6Local), Text(t.ipv4Remote), Text(t.ipv6Remote),
     Text(t.delegatedPrefix), Text(t.userDomain)]
  }

  lemma TunnelShape(t: TunnelInfo)
    ensures TunnelBytes(t) == StringBytes(t.brokerName)
            + (Le32(t.tunnelType) + (StringsBytes(Ends(t)) + (Le32(t.upTimeLow) + Le32(t.upTimeHigh))))
  {
    var up := Le32(t.upTimeLow) + Le32(t.upTimeHigh);
    var s := Ends(t);
    hide Le32;
    assert s[1..] == [s[1], s[2], s[3], s[4], s[5]] && s[1..][1..] == [s[2], s[3], s[4], s[5]];
    StringsCons(s, up);
    StringsCons(s[1..], up);
    StringsCons(s[2..], up);
    StringsCons(s[3..], up);
    StringsCons(s[4..], up);
    StringsCons(s[5..], up);
    NoStrings(s[6..], up);
    hide StringsBytes, StringBytes;
    SameString(t.ipv4Local);
    SameString(t.ipv6Local);
    SameString(t.ipv4Remote);
    SameString(t.ipv6Remote);
    SameString(t.delegatedPrefix);
    SameString(t.userDomain);
  }

  lemma SameString(s: Option<Chars>)
    ensures StringBytes(s) == StringBytes(Some(Text(s)))
  {
  }

  lemma NoStrings(ss: seq<Chars>, rest: seq<byte>)
    requires |ss| == 0
    ensures StringsBytes(ss) + rest == rest
  {
  }

  lemma StringsCons(ss: seq<Chars>, rest: seq<byte>)
    requires |ss| > 0
    ensures StringsBytes(ss) + rest == StringBytes(Some(ss[0])) + (StringsBytes(ss[1..]) + rest)
  {
  }

  /** Every serialized field arrives, null names as empty ones, and nothing is left over. */
  lemma TunnelRoundTrip(t: TunnelInfo)
    ensures ParseTunnel(TunnelBytes(t)) == Some(Taken(TunnelArrived(t), []))
  {
    hide TunnelBytes, StringsBytes, ParseStrings, TakeString, TakeWord, StringBytes, Le32;
    TunnelShape(t);
    var up := Le32(t.upTimeLow) + Le32(t.upTimeHigh);
    StringBack(t.brokerName, Le32(t.tunnelType) + (StringsBytes(Ends(t)) + up));
    WordBack(t.tunnelType, StringsBytes(Ends(t)) + up);
    StringsRoundTrip(Ends(t), up);
    WordBack(t.upTimeLow, Le32(t.upTimeHigh));
    assert Le32(t.upTimeHigh) + [] == Le32(t.upTimeHigh);
    WordBack(t.upTimeHigh, []);
  }

  /** And whatever translates is what would be sent for the result. */
  lemma ParsedTunnelSpells(s: seq<byte>)
    requires ParseTunnel(s).Some?
    ensures TunnelBytes(ParseTunnel(s).value.value) + ParseTunnel(s).value.rest == s
  {
    hide TunnelBytes, StringsBytes, ParseStrings, TakeString, TakeWord, StringBytes, Le32;
    var t, rest := ParseTunnel(s).value.value, ParseTunnel(s).value.rest;
    TunnelShape(t);
    var broker := TakeString(s).value;
    var kind := TakeWord(broker.rest).value;
    var ends := ParseStrings(kind.rest, 6).value;
    var low := TakeWord(ends.rest).value;
    StringThere(s);
    WordThere(broker.rest);
    StringsThere(kind.rest, 6);
    WordThere(ends.rest);
    WordThere(low.rest);
    assert Ends(t) == ends.value;
    var a, b, c, d, e := StringBytes(t.brokerName), Le32(t.tunnelType), StringsBytes(Ends(t)), Le32(t.upTimeLow),
                         Le32(t.upTimeHigh);
    assert s == a + (b + (c + (d + (e + rest))));
    FiveAndRest(a, b, c, d, e, rest);
  }

  lemma FiveAndRest(a: seq<byte>, b: seq<byte>, c: seq<byte>, d: seq<byte>, e: seq<byte>, rest: seq<byte>)
    ensures a + (b + (c + (d + e))) + rest == a + (b + (c + (d + (e + rest))))
  {
  }

  method TranslateTunnelInfo(pData: seq<byte>) returns (ok: bool, t: TunnelInfo, nCursor: nat)
    ensures ok <==> ParseTunnel(pData).Some?
    ensures ok ==> && nCursor <= |pData| && t == ParseTunnel(pData).value.value
                   && pData[nCursor..] == ParseTunnel(pData).value.rest
  {
    hide TakeString, TakeWord, ParseStrings;
    t := TunnelInfo(None, 0, None, None, None, None, None, None, 0, 0);
    nCursor := 0;
    assert pData[0..] == pData;
    var brokerName, tunnelType;
    ok, brokerName, nCursor := ReadString(pData, nCursor);
    if !ok { return; }
    ok, tunnelType, nCursor := ReadWord(pData, nCursor);
    if !ok { return; }
    var ipv4Local, ipv6Local, ipv4Remote, ipv6Remote, delegatedPrefix, userDomain;
    ok, ipv4Local, ipv6Local, ipv4Remote, ipv6Remote, delegatedPrefix, userDomain, nCursor := ReadEnds(pData, nCursor);
    if !ok { return; }
    var low, high;
    ok, low, nCursor := ReadWord(pData, nCursor);
    if !ok { return; }
    ok, high, nCursor := ReadWord(pData, nCursor);
    if !ok { return; }
    t := TunnelInfo(brokerName, tunnelType, ipv4Local, ipv6Local, ipv4Remote, ipv6Remote, delegatedPrefix, userDomain,
                    low, high);
  }

  /** The two end points, the prefix and the user domain. */
  method ReadEnds(pData: seq<byte>, cursor: nat)
    returns (ok: bool, a: Option<Chars>, b: Option<Chars>, c: Option<Chars>, d: Option<Chars>, e: Option<Chars>,
             f: Option<Chars>, nCursor: nat)
    requires cursor <= |pData|
    ensures ok <==> ParseStrings(pData[cursor..], 6).Some?
    ensures nCursor <= |pData|
    ensures ok ==> && a.Some? && b.Some? && c.Some? && d.Some? && e.Some? && f.Some?
                   && ParseStrings(pData[cursor..], 6).value.value
                      == [a.value, b.value, c.value, d.value, e.value, f.value]
                   && pData[nCursor..] == ParseStrings(pData[cursor..], 6).value.rest
  {
    hide TakeString, ParseStrings;
    a, b, c, d, e, f, nCursor := None, None, None, None, None, None, cursor;
    ghost var s0 := pData[nCursor..];
    ParseOneMore(s0, 6);
    ok, a, nCursor := ReadString(pData, nCursor);
    if !ok { return; }
    ghost var s1 := pData[nCursor..];
    ParseOneMore(s1, 5);
    ok, b, nCursor := ReadString(pData, nCursor);
    if !ok { return; }
    ghost var s2 := pData[nCursor..];
    ParseOneMore(s2, 4);
    ok, c, nCursor := ReadString(pData, nCursor);
    if !ok { return; }
    ghost var s3 := pData[nCursor..];
    ParseOneMore(s3, 3);
    ok, d, nCursor := ReadString(pData, nCursor);
    if !ok { return; }
    ghost var s4 := pData[nCursor..];
    ParseOneMore(s4, 2);
    ok, e, nCursor := ReadString(pData, nCursor);
    if !ok { return; }
    ghost var s5 := pData[nCursor..];
    ParseOneMore(s5, 1);
    ok, f, nCursor := ReadString(pData, nCursor);
    if !ok { return; }
    ParseNoMore(pData[nCursor..]);
  }

  lemma ParseOneMore(s: seq<byte>, n: nat)
    requires n > 0
    ensures ParseStrings(s, n).Some? <==>
            TakeString(s).Some? && ParseStrings(TakeString(s).value.rest, n - 1).Some?
    ensures ParseStrings(s, n).Some? ==>
              ParseStrings(s, n).value ==
              var others := ParseStrings(TakeString(s).value.rest, n - 1).value;
              Taken([TakeString(s).value.value] + others.value, others.rest)
  {
  }

  lemma ParseNoMore(s: seq<byte>)
    ensures ParseStrings(s, 0).Some? && ParseStrings(s, 0).value == Taken([], s)
  {
  }
}
