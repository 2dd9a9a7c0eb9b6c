/** The dynamic DNS update message (dns.c), and how a server reads it: names by sections 3.1 and 4.1.4 of
    RFC 1035, the message by section 2 of RFC 2136. */
module DnsUpdate {
  import opened Bytes
  import opened Options

  const DOT: byte := 0x2e
  const NAME_SIZE := 253
  const LABEL_SIZE := 63
  const HEADER_SIZE := 12
  const BUFFER_SIZE := 512
  const OPCODE_UPDATE := 5
  const TYPE_SOA := 6
  const TYPE_AAAA := 28
  const TYPE_AAAA_SIZE := 16
  const TYPE_ANY := 255
  const CLASS_IN := 1
  const CLASS_ANY := 255

  type Label = seq<byte>

  // ---------- Names in text ----------

  /** The non-empty stretches between dots. */
  function Labels(s: seq<byte>): seq<Label>
    decreases |s|
  {
    if |s| == 0 then []
    else
      var n := IndexOf(s, DOT);
      (if n == 0 then [] else [s[..n]]) + (if n == |s| then [] else Labels(s[n + 1..]))
  }

  lemma FirstLabel(s: seq<byte>, n: nat)
    requires n <= |s| && DOT !in s[..n] && (n < |s| ==> s[n] == DOT)
    ensures Labels(s) == (if n == 0 then [] else [s[..n]]) + (if n == |s| then [] else Labels(s[n + 1..]))
  {
    IndexOfIs(s, DOT, n);
    hide IndexOf;
  }

  /** What the labels of a name are, whatever its dots: none without a character, the name itself without a
      dot, and otherwise those before a dot followed by those after it. */
  lemma {:induction false} LabelsMeaning(s: seq<byte>, t: seq<byte>)
    ensures |s| == 0 ==> |Labels(s)| == 0
    ensures |s| > 0 && DOT !in s ==> Labels(s) == [s]
    ensures Labels(s + [DOT] + t) == Labels(s) + Labels(t)
    decreases |s|
  {
    hide Labels;
    SimpleLabels(s);
    var whole, n := s + [DOT] + t, IndexOf(s, DOT);
    hide IndexOf;
    assert whole[..n] == s[..n];
    FirstLabel(s, n);
    FirstLabel(whole, n);
    var first := if n == 0 then [] else [s[..n]];
    if n < |s| {
      var rest := s[n + 1..];
      LabelsMeaning(rest, t);
      assert whole[n + 1..] == rest + [DOT] + t;
      Associates(first, Labels(rest), Labels(t));
    } else {
      assert whole[n + 1..] == t && first + [] == first;
    }
  }

  lemma SimpleLabels(s: seq<byte>)
    ensures |s| == 0 ==> |Labels(s)| == 0
    ensures |s| > 0 && DOT !in s ==> Labels(s) == [s]
  {
    if DOT !in s {
      assert s[..|s|] == s;
      FirstLabel(s, |s|);
    }
  }

  // ---------- The encoder ----------

  function EncodedLabels(labels: seq<Label>): seq<byte> {
    if labels == [] then [] else [|labels[0]| % 0x100] + labels[0] + EncodedLabels(labels[1..])
  }

  /** The end of a name: a pointer when there is an offset to point to, or the root label. */
  function NameEnd(offset: nat): seq<byte>
    requires offset < 0x4000
  {
    if offset != 0 then Be16(0xc000 + offset) else [0]
  }

  method PutLabel(buffer: array<byte>, pos: nat, name: Label) returns (next: nat)
    requires pos + 1 + |name| <= buffer.Length
    modifies buffer
    ensures next == pos + 1 + |name|
    ensures buffer[..next] == old(buffer[..pos]) + ([|name| % 0x100] + name)
  {
    ghost var was := buffer[..pos];
    next := Put(buffer, pos, [|name| % 0x100]);
    next := Put(buffer, next, name);
    Associates(was, [|name| % 0x100], name);
  }

  method PutLabels(buffer: array<byte>, pos: nat, text: seq<byte>) returns (next: nat)
    requires pos + |text| + 1 <= buffer.Length
    modifies buffer
    ensures pos <= next <= pos + |text| + 1
    ensures buffer[..next] == old(buffer[..pos]) + EncodedLabels(Labels(text))
  {
    hide EncodedLabels, Labels;
    var at := 0;
    ghost var was, done, rest := buffer[..pos], [], text;
    next := pos;
    while at < |text|
      invariant 0 <= at <= |text| && rest == text[at..]
      invariant pos <= next <= pos + at + (if at == |text| then 1 else 0)
      invariant buffer[..next] == was + done
      invariant done + EncodedLabels(Labels(rest)) == EncodedLabels(Labels(text))
    {
      TakeLabel(rest);
      var len := IndexOf(text[at..], DOT);
      if len > 0 {
        next := PutLabel(buffer, next, text[at..at + len]);
        ghost var added := [len % 0x100] + rest[..len];
        assert text[at..at + len] == rest[..len];
        Associates(was, done, added);
        Associates(done, added, EncodedLabels(Labels(AfterLabel(rest))));
        done := done + added;
      }
      at := at + len;
      if at < |text| {
        at := at + 1;
      }
      rest := AfterLabel(rest);
    }
    NoLabels(rest);
    assert done + [] == done;
  }

  lemma NoLabels(s: seq<byte>)
    requires |s| == 0
    ensures EncodedLabels(Labels(s)) == []
  {
  }

  /** name: the characters before the terminating NUL, or nothing for a null pointer. */
  method NameEncode(buffer: array<byte>, pos: nat, name: Option<seq<byte>>, offset: nat) returns (ok: bool, next: nat)
    requires name.Some? ==> pos + |name.value| + 3 <= buffer.Length
    requires offset < 0x4000
    modifies buffer
    ensures ok <==> name.Some? && |name.value| <= NAME_SIZE
    ensures ok ==> && pos <= next <= pos + |name.value| + 1 + (if offset != 0 then 2 else 1)
                   && buffer[..next] == old(buffer[..pos]) + (EncodedLabels(Labels(name.value)) + NameEnd(offset))
  {
    hide EncodedLabels, Labels;
    if name.None? || |name.value| > NAME_SIZE {
      return false, pos;
    }
    ghost var was := buffer[..pos];
    next := PutLabels(buffer, pos, name.value);
    if offset != 0 {
      next := Put(buffer, next, Be16(0xc000 + offset));
    } else {
      next := Put(buffer, next, [0]);
    }
    Associates(was, EncodedLabels(Labels(name.value)), NameEnd(offset));
    ok := true;
  }

  function AfterLabel(s: seq<byte>): seq<byte> {
    var n := IndexOf(s, DOT);
    if n < |s| then s[n + 1..] else s[n..]
  }

  lemma TakeLabel(s: seq<byte>)
    requires |s| > 0
    ensures IndexOf(s, DOT) == 0 ==> EncodedLabels(Labels(s)) == EncodedLabels(Labels(AfterLabel(s)))
    ensures IndexOf(s, DOT) > 0 ==>
              EncodedLabels(Labels(s)) ==
              [IndexOf(s, DOT) % 0x100] + s[..IndexOf(s, DOT)] + EncodedLabels(Labels(AfterLabel(s)))
  {
    RestIsAfter(s);
    hide Labels, EncodedLabels;
    if IndexOf(s, DOT) > 0 {
      EncodedCons(s[..IndexOf(s, DOT)], Labels(AfterLabel(s)));
    }
  }

  lemma RestIsAfter(s: seq<byte>)
    requires |s| > 0
    ensures IndexOf(s, DOT) == 0 ==> Labels(s) == Labels(AfterLabel(s))
    ensures IndexOf(s, DOT) > 0 ==> Labels(s) == [s[..IndexOf(s, DOT)]] + Labels(AfterLabel(s))
  {
  }

  lemma EncodedCons(first: Label, others: seq<Label>)
    ensures EncodedLabels([first] + others) == [|first| % 0x100] + first + EncodedLabels(others)
  {
  }

  /** The AAAA argument: a null pointer, text that is no address, or the 16 octets of one. */
  datatype Address = Absent | NoAddress | Octets(a: seq<byte>)

  function Header(id: uint16): (s: seq<byte>)
    ensures |s| == HEADER_SIZE
  {
    Be16(id) + Be16(OPCODE_UPDATE * 0x800) + Be16(1) + Be16(0) + Be16(1) + Be16(0)
  }

  function ZoneType(): seq<byte> {
    Be16(TYPE_SOA) + Be16(CLASS_IN)
  }

  function RecordOf(ttl: uint32, address: Address): seq<byte>
    requires address.Octets? ==> |address.a| == TYPE_AAAA_SIZE
  {
    match address
    case Octets(a) => Be16(TYPE_AAAA) + Be16(CLASS_IN) + Be32(ttl) + Be16(TYPE_AAAA_SIZE) + a
    case _ => Be16(TYPE_ANY) + Be16(CLASS_ANY) + Be32(0) + Be16(0)
  }

  /** The message without its length: one zone, one record whose name points back to the zone's. */
  function MessageOf(id: uint16, domain: seq<byte>, name: seq<byte>, ttl: uint32, address: Address): seq<byte>
    requires address.Octets? ==> |address.a| == TYPE_AAAA_SIZE
  {
    Header(id) + (EncodedLabels(Labels(domain)) + NameEnd(0)) + ZoneType()
    + (EncodedLabels(Labels(name)) + NameEnd(HEADER_SIZE)) + RecordOf(ttl, address)
  }

  predicate Encodable(domain: Option<seq<byte>>, name: Option<seq<byte>>, address: Address) {
    && domain.Some? && name.Some? && !address.NoAddress?
    && |name.value| + 1 + |domain.value| <= NAME_SIZE && |name.value| <= LABEL_SIZE
  }

  /** Puts data after what has been done so far, behind the two octets kept for the length. */
  method PutMore(buffer: array<byte>, pos: nat, data: seq<byte>, ghost size: seq<byte>, ghost done: seq<byte>)
    returns (next: nat)
    requires pos + |data| <= buffer.Length && buffer[..pos] == size + done
    modifies buffer
    ensures next == pos + |data| && buffer[..next] == size + (done + data)
  {
    next := Put(buffer, pos, data);
    Associates(size, done, data);
  }

  method PutHeader(buffer: array<byte>, id: uint16) returns (p: nat)
    requires buffer.Length >= 2 + HEADER_SIZE
    modifies buffer
    ensures p == 2 + HEADER_SIZE && buffer[..p] == old(buffer[..2]) + Header(id)
  {
    ghost var size := buffer[..2];
    hide Be16;
    p := Put(buffer, 2, Be16(id));
    ghost var done := Be16(id);
    p := PutMore(buffer, p, Be16(OPCODE_UPDATE * 0x800), size, done);
    done := done + Be16(OPCODE_UPDATE * 0x800);
    p := PutMore(buffer, p, Be16(1), size, done);
    done := done + Be16(1);
    p := PutMore(buffer, p, Be16(0), size, done);
    done := done + Be16(0);
    p := PutMore(buffer, p, Be16(1), size, done);
    done := done + Be16(1);
    p := PutMore(buffer, p, Be16(0), size, done);
  }

  method PutRecord(buffer: array<byte>, pos: nat, ttl: uint32, address: Address) returns (p: nat)
    requires address.Octets? ==> |address.a| == TYPE_AAAA_SIZE
    requires pos + |RecordOf(ttl, address)| <= buffer.Length
    modifies buffer
    ensures p == pos + |RecordOf(ttl, address)| && buffer[..p] == old(buffer[..pos]) + RecordOf(ttl, address)
  {
    ghost var size := buffer[..pos];
    hide Be16, Be32;
    if address.Octets? {
      p := Put(buffer, pos, Be16(TYPE_AAAA));
      ghost var done := Be16(TYPE_AAAA);
      p := PutMore(buffer, p, Be16(CLASS_IN), size, done);
      done := done + Be16(CLASS_IN);
      p := PutMore(buffer, p, Be32(ttl), size, done);
      done := done + Be32(ttl);
      p := PutMore(buffer, p, Be16(TYPE_AAAA_SIZE), size, done);
      done := done + Be16(TYPE_AAAA_SIZE);
      p := PutMore(buffer, p, address.a, size, done);
    } else {
      p := Put(buffer, pos, Be16(TYPE_ANY));
      ghost var done := Be16(TYPE_ANY);
      p := PutMore(buffer, p, Be16(CLASS_ANY), size, done);
      done := done + Be16(CLASS_ANY);
      p := PutMore(buffer, p, Be32(0), size, done);
      done := done + Be32(0);
      p := PutMore(buffer, p, Be16(0), size, done);
    }
  }

  /** The header and the two sections. */
  method PutSections(buffer: array<byte>, id: uint16, domain: seq<byte>, name: seq<byte>, ttl: uint32, address: Address)
    returns (p: nat)
    requires buffer.Length >= BUFFER_SIZE
    requires address.Octets? ==> |address.a| == TYPE_AAAA_SIZE
    requires |name| + 1 + |domain| <= NAME_SIZE
    modifies buffer
    ensures 2 <= p <= 301
    ensures buffer[..p] == old(buffer[..2]) + MessageOf(id, domain, name, ttl, address)
  {
    hide Labels, EncodedLabels, NameEnd, Be16, Be32, ZoneType, Header, RecordOf;
    ghost var size := buffer[..2];
    RecordSize(ttl, address);
    var ok;
    p := PutHeader(buffer, id);
    ghost var done := Header(id);
    ok, p := NameEncode(buffer, p, Some(domain), 0);
    ghost var zone := EncodedLabels(Labels(domain)) + NameEnd(0);
    Associates(size, done, zone);
    done := done + zone;
    p := PutZoneType(buffer, p);
    Associates(size, done, ZoneType());
    done := done + ZoneType();
    ok, p := NameEncode(buffer, p, Some(name), HEADER_SIZE);
    ghost var owner := EncodedLabels(Labels(name)) + NameEnd(HEADER_SIZE);
    Associates(size, done, owner);
    done := done + owner;
    p := PutRecord(buffer, p, ttl, address);
    Associates(size, done, RecordOf(ttl, address));
  }

  method MessageCreate(buffer: array<byte>, id: uint16, domain: Option<seq<byte>>, name: Option<seq<byte>>,
                       ttl: uint32, address: Address) returns (ok: bool, len: nat)
    requires buffer.Length >= BUFFER_SIZE
    requires address.Octets? ==> |address.a| == TYPE_AAAA_SIZE
    modifies buffer
    ensures ok <==> Encodable(domain, name, address)
    ensures ok <==> && domain.Some? && name.Some? && !address.NoAddress?
                    && |name.value| + 1 + |domain.value| <= 253 && |name.value| <= 63
    ensures ok ==> && 2 <= len <= 301
                   && buffer[..len] == Be16(len - 2) + MessageOf(id, domain.value, name.value, ttl, address)
  {
    hide MessageOf, Be16;
    len := 0;
    if domain.None? || name.None? {
      return false, len;
    }
    if |name.value| + 1 + |domain.value| > NAME_SIZE || |name.value| > LABEL_SIZE {
      return false, len;
    }
    if address.NoAddress? {
      return false, len;
    }
    ghost var blank := buffer[..2];
    len := PutSections(buffer, id, domain.value, name.value, ttl, address);
    ghost var was := buffer[..];
    assert was[..len] == buffer[..len];
    var p := Put(buffer, 0, Be16(len - 2));
    SizeFilledIn(was, buffer[..], Be16(len - 2), blank, MessageOf(id, domain.value, name.value, ttl, address));
    assert buffer[..len] == buffer[..][..len];
    ok := true;
  }

  lemma RecordSize(ttl: uint32, address: Address)
    requires address.Octets? ==> |address.a| == TYPE_AAAA_SIZE
    ensures |RecordOf(ttl, address)| <= 26
  {
  }

  method PutZoneType(buffer: array<byte>, pos: nat) returns (next: nat)
    requires pos + 4 <= buffer.Length
    modifies buffer
    ensures next == pos + 4 && buffer[..next] == old(buffer[..pos]) + ZoneType()
  {
    hide Be16;
    ghost var was := buffer[..pos];
    next := Put(buffer, pos, Be16(TYPE_SOA));
    next := PutMore(buffer, next, Be16(CLASS_IN), was, Be16(TYPE_SOA));
  }

  lemma SizeFilledIn(was: seq<byte>, now: seq<byte>, size: seq<byte>, blank: seq<byte>, message: seq<byte>)
    requires |size| == |blank| == 2 && 2 + |message| <= |was| == |now|
    requires was[..2 + |message|] == blank + message
    requires now[..2] == size && now[2..] == was[2..]
    ensures now[..2 + |message|] == size + message
  {
    assert message == was[..2 + |message|][2..] == was[2..][..|message|];
    assert now[2..][..|message|] == message;
    assert now[..2 + |message|] == now[..2] + now[2..][..|message|];
  }

  // ---------- How a server reads the message ----------

  datatype Decoded = Decoded(labels: seq<Label>, next: nat)

  /** A name by sections 3.1 and 4.1.4 of RFC 1035. A pointer must lead back before the labels in front
      of it, which begin at start. */
  function DecodeName(m: seq<byte>, pos: nat, start: nat): Option<Decoded>
    decreases start, |m| - pos
  {
    if pos >= |m| then None
    else if m[pos] == 0 then Some(Decoded([], pos + 1))
    else if m[pos] <= 63 then
      var end := pos + 1 + m[pos];
      if end > |m| then None else Prepend(m[pos + 1..end], DecodeName(m, end, start))
    else if m[pos] >= 192 && pos + 1 < |m| then
      var high: int, low: int := m[pos] - 192, m[pos + 1];
      var target := high * 0x100 + low;
      if target >= start then None else MovedTo(DecodeName(m, target, target), pos + 2)
    else None
  }

  function Prepend(first: Label, others: Option<Decoded>): Option<Decoded> {
    if others.Some? then Some(Decoded([first] + others.value.labels, others.value.next)) else None
  }

  function MovedTo(d: Option<Decoded>, next: nat): Option<Decoded> {
    if d.Some? then Some(Decoded(d.value.labels, next)) else None
  }

  datatype Update = Update(id: uint16, opcode: nat, zone: seq<Label>, zoneType: uint16, zoneClass: uint16,
                           owner: seq<Label>, rrType: uint16, rrClass: uint16, ttl: uint32, rdata: seq<byte>)

  /** One request to update, with none of the other flags: exactly one zone, no prerequisites, one update,
      nothing more, and no octet left over. */
  function ReadUpdate(m: seq<byte>): Option<Update> {
    if |m| < HEADER_SIZE || m[4..12] != Be16(1) + Be16(0) + Be16(1) + Be16(0) then None
    else if FromBe16(m[2..4]) % 0x800 != 0 then None
    else
      var zone := DecodeName(m, HEADER_SIZE, HEADER_SIZE);
      if zone.None? || zone.value.next + 4 > |m| then None
      else
        var q := zone.value.next;
        var owner := DecodeName(m, q + 4, q + 4);
        if owner.None? || owner.value.next + 10 > |m| then None
        else
          var p := owner.value.next;
          if p + 10 + FromBe16(m[p + 8..p + 10]) != |m| then None
          else
            Some(Update(FromBe16(m[..2]), FromBe16(m[2..4]) / 0x800,
                        zone.value.labels, FromBe16(m[q..q + 2]), FromBe16(m[q + 2..q + 4]),
                        owner.value.labels, FromBe16(m[p..p + 2]), FromBe16(m[p + 2..p + 4]),
                        FromBe32(m[p + 4..p + 8]), m[p + 10..]))
  }

  predicate IsShort(name: Label) {
    1 <= |name| <= LABEL_SIZE
  }

  predicate AllShort(labels: seq<Label>) {
    forall i :: 0 <= i < |labels| ==> IsShort(labels[i])
  }

  /** Any name a server can read is made of labels of 1 to 63 octets. */
  lemma {:induction false} DecodedIsShort(m: seq<byte>, pos: nat, start: nat)
    ensures DecodeName(m, pos, start).Some? ==> AllShort(DecodeName(m, pos, start).value.labels)
    decreases start, |m| - pos
  {
    if pos < |m| && 0 < m[pos] <= 63 && pos + 1 + m[pos] <= |m| {
      DecodedIsShort(m, pos + 1 + m[pos], start);
    } else if pos + 1 < |m| && m[pos] >= 192 {
      var high: int, low: int := m[pos] - 192, m[pos + 1];
      var target := high * 0x100 + low;
      if target < start {
        DecodedIsShort(m, target, target);
      }
    }
  }

  function PrependAll(labels: seq<Label>, others: Option<Decoded>): Option<Decoded> {
    if others.Some? then Some(Decoded(labels + others.value.labels, others.value.next)) else None
  }

  /** Encoded labels of 1 to 63 octets decode to themselves, followed by what follows them. */
  lemma {:induction false} LabelsDecode(m: seq<byte>, pos: nat, labels: seq<Label>, start: nat)
    requires AllShort(labels)
    requires pos + |EncodedLabels(labels)| <= |m|
    requires m[pos..pos + |EncodedLabels(labels)|] == EncodedLabels(labels)
    ensures DecodeName(m, pos, start) == PrependAll(labels, DecodeName(m, pos + |EncodedLabels(labels)|, start))
    decreases |labels|
  {
    hide DecodeName, EncodedLabels;
    if |labels| == 0 {
      NoLabelsDecode(labels, m, pos, start);
    } else {
      var first, others := labels[0], labels[1..];
      assert IsShort(first) && AllShort(others);
      hide AllShort, IsShort;
      var end := pos + 1 + |first|;
      assert labels == [first] + others;
      FirstEncoded(first, others, m, pos);
      OneLabelDecodes(m, pos, start);
      LabelsDecode(m, end, others, start);
      PrependBoth(labels, DecodeName(m, end + |EncodedLabels(others)|, start));
    }
  }

  lemma PrependBoth(labels: seq<Label>, after: Option<Decoded>)
    requires labels != []
    ensures Prepend(labels[0], PrependAll(labels[1..], after)) == PrependAll(labels, after)
  {
    if after.Some? {
      assert [labels[0]] + (labels[1..] + after.value.labels) == labels + after.value.labels;
    }
  }

  lemma NoLabelsDecode(labels: seq<Label>, m: seq<byte>, pos: nat, start: nat)
    requires |labels| == 0
    ensures EncodedLabels(labels) == [] && DecodeName(m, pos, start) == PrependAll(labels, DecodeName(m, pos, start))
  {
    hide DecodeName;
    var d := DecodeName(m, pos, start);
    assert d.Some? ==> labels + d.value.labels == d.value.labels;
  }

  lemma OneLabelDecodes(m: seq<byte>, pos: nat, start: nat)
    requires pos < |m| && 0 < m[pos] <= 63 && pos + 1 + m[pos] <= |m|
    ensures DecodeName(m, pos, start) == Prepend(m[pos + 1..pos + 1 + m[pos]], DecodeName(m, pos + 1 + m[pos], start))
  {
  }

  lemma FirstEncoded(first: Label, others: seq<Label>, m: seq<byte>, pos: nat)
    requires IsShort(first)
    requires pos + |EncodedLabels([first] + others)| <= |m|
    requires m[pos..pos + |EncodedLabels([first] + others)|] == EncodedLabels([first] + others)
    ensures var end := pos + 1 + |first|;
            && end + |EncodedLabels(others)| == pos + |EncodedLabels([first] + others)|
            && m[pos] == |first| && m[pos + 1..end] == first
            && m[end..end + |EncodedLabels(others)|] == EncodedLabels(others)
  {
    hide EncodedLabels;
    EncodedCons(first, others);
    Parts(m, pos, pos + |EncodedLabels([first] + others)|, [|first|], first, EncodedLabels(others));
  }

  /** Where three parts of a stretch of m lie. */
  lemma Parts(m: seq<byte>, pos: nat, end: nat, a: seq<byte>, b: seq<byte>, c: seq<byte>)
    requires pos <= end <= |m| && m[pos..end] == a + b + c
    ensures end == pos + |a| + |b| + |c|
    ensures m[pos..pos + |a|] == a && m[pos + |a|..pos + |a| + |b|] == b && m[pos + |a| + |b|..end] == c
  {
    var whole := m[pos..end];
    forall i | 0 <= i < |whole| ensures m[pos + i] == whole[i] {
    }
    assert whole[..|a|] == a && whole[|a|..|a| + |b|] == b && whole[|a| + |b|..] == c;
    var x, y, z := m[pos..pos + |a|], m[pos + |a|..pos + |a| + |b|], m[pos + |a| + |b|..end];
    assert forall i :: 0 <= i < |x| ==> x[i] == whole[i];
    assert forall i :: 0 <= i < |y| ==> y[i] == whole[|a| + i];
    assert forall i :: 0 <= i < |z| ==> z[i] == whole[|a| + |b| + i];
  }

  // ---------- What the server reads ----------

  function Expected(id: uint16, domain: seq<byte>, name: seq<byte>, ttl: uint32, address: Address): Update {
    var owner := Labels(name) + Labels(domain);
    if address.Octets?
    then Update(id, OPCODE_UPDATE, Labels(domain), TYPE_SOA, CLASS_IN, owner, TYPE_AAAA, CLASS_IN, ttl, address.a)
    else Update(id, OPCODE_UPDATE, Labels(domain), TYPE_SOA, CLASS_IN, owner, TYPE_ANY, CLASS_ANY, 0, [])
  }

  lemma NameIsShort(name: seq<byte>)
    requires |name| <= LABEL_SIZE
    ensures AllShort(Labels(name))
  {
  }

  /** Labels behind a zero octet, or behind a pointer to them, are what their encoding decodes to. */
  lemma ZoneDecodes(m: seq<byte>, pos: nat, labels: seq<Label>, end: nat)
    requires AllShort(labels) && pos <= end <= |m| && m[pos..end] == EncodedLabels(labels) + NameEnd(0)
    ensures DecodeName(m, pos, pos) == Some(Decoded(labels, end))
  {
    var n := |EncodedLabels(labels)|;
    Parts(m, pos, end, EncodedLabels(labels), NameEnd(0), m[end..end]);
    LabelsDecode(m, pos, labels, pos);
    hide EncodedLabels, AllShort;
    assert m[pos + n] == m[pos + n..end][0] == 0;
    assert labels + [] == labels;
  }

  lemma OwnerDecodes(m: seq<byte>, pos: nat, labels: seq<Label>, end: nat, zone: seq<Label>, after: nat)
    requires AllShort(labels) && HEADER_SIZE < pos <= end <= |m|
    requires m[pos..end] == EncodedLabels(labels) + NameEnd(HEADER_SIZE)
    requires DecodeName(m, HEADER_SIZE, HEADER_SIZE) == Some(Decoded(zone, after))
    ensures DecodeName(m, pos, pos) == Some(Decoded(labels + zone, end))
  {
    var n := |EncodedLabels(labels)|;
    Parts(m, pos, end, EncodedLabels(labels), NameEnd(HEADER_SIZE), m[end..end]);
    LabelsDecode(m, pos, labels, pos);
    hide EncodedLabels, AllShort;
    assert m[pos + n] == m[pos + n..end][0] == 192 && m[pos + n + 1] == m[pos + n..end][1] == 12;
    PointerDecodes(m, pos + n, pos, zone, after);
  }

  lemma PointerDecodes(m: seq<byte>, pos: nat, start: nat, zone: seq<Label>, after: nat)
    requires pos + 1 < |m| && m[pos] == 192 && m[pos + 1] == HEADER_SIZE < start
    requires DecodeName(m, HEADER_SIZE, HEADER_SIZE) == Some(Decoded(zone, after))
    ensures DecodeName(m, pos, start) == Some(Decoded(zone, pos + 2))
  {
  }

  lemma FiveParts(m: seq<byte>, a: seq<byte>, b: seq<byte>, c: seq<byte>, d: seq<byte>, e: seq<byte>)
    requires m == a + b + c + d + e
    ensures var ab, abc, abcd := |a| + |b|, |a| + |b| + |c|, |a| + |b| + |c| + |d|;
            && |m| == abcd + |e|
            && m[..|a|] == a && m[|a|..ab] == b && m[ab..abc] == c && m[abc..abcd] == d && m[abcd..] == e
  {
  }

  /** What stands in a record, octet by octet. */
  lemma RecordReads(id: uint16, domain: seq<byte>, name: seq<byte>, ttl: uint32, address: Address)
    requires address.Octets? ==> |address.a| == TYPE_AAAA_SIZE
    ensures var r, u := RecordOf(ttl, address), Expected(id, domain, name, ttl, address);
            && |r| >= 10 && 10 + FromBe16(r[8..10]) == |r|
            && FromBe16(r[..2]) == u.rrType && FromBe16(r[2..4]) == u.rrClass
            && FromBe32(r[4..8]) == u.ttl && r[10..] == u.rdata
  {
    var r := RecordOf(ttl, address);
    Be32RoundTrip(ttl);
    Be32RoundTrip(0);
    hide Be32, FromBe32, Labels;
    match address
    case Octets(a) =>
      assert r[4..8] == Be32(ttl);
      assert r[10..] == a;
    case _ =>
      assert r[4..8] == Be32(0);
      assert r[10..] == [];
  }

  lemma HeaderReads(id: uint16)
    ensures var h := Header(id);
            && FromBe16(h[..2]) == id && FromBe16(h[2..4]) == OPCODE_UPDATE * 0x800
            && h[4..12] == Be16(1) + Be16(0) + Be16(1) + Be16(0)
  {
  }

  lemma ZoneTypeReads()
    ensures |ZoneType()| == 4 && FromBe16(ZoneType()[..2]) == TYPE_SOA && FromBe16(ZoneType()[2..]) == CLASS_IN
  {
  }

  /** A server that follows the standards reads the zone, the owner and the record that were asked for,
      exactly when every label of the domain has at most 63 octets, which nothing checks. */
  lemma ServerReads(id: uint16, domain: seq<byte>, name: seq<byte>, ttl: uint32, address: Address)
    requires address.Octets? ==> |address.a| == TYPE_AAAA_SIZE
    requires Encodable(Some(domain), Some(name), address)
    ensures ReadUpdate(MessageOf(id, domain, name, ttl, address)) == Some(Expected(id, domain, name, ttl, address))
            <==> AllShort(Labels(domain))
  {
    var m := MessageOf(id, domain, name, ttl, address);
    if AllShort(Labels(domain)) {
      ReadsExpected(id, domain, name, ttl, address);
    } else {
      hide Labels, MessageOf;
      DecodedIsShort(m, HEADER_SIZE, HEADER_SIZE);
      hide DecodeName, AllShort;
    }
  }

  lemma OneLabel(s: seq<byte>)
    requires |s| > 0 && IndexOf(s, DOT) == |s|
    ensures |Labels(s)| == 1 && Labels(s)[0] == s
  {
  }

  lemma {:induction false} NoDot(s: seq<byte>)
    requires DOT !in s
    ensures IndexOf(s, DOT) == |s|
    decreases |s|
  {
    if |s| > 0 {
      NoDot(s[1..]);
    }
  }

  /** The smallest such domain: one label of 64 letters is accepted, and the message is read as something
      else or not at all. */
  lemma LongLabelLost(id: uint16, letter: byte, name: seq<byte>, ttl: uint32, address: Address)
    requires letter != DOT && |name| <= LABEL_SIZE
    requires !address.NoAddress? && (address.Octets? ==> |address.a| == TYPE_AAAA_SIZE)
    ensures var domain := seq(64, _ => letter);
            && Encodable(Some(domain), Some(name), address)
            && ReadUpdate(MessageOf(id, domain, name, ttl, address)) != Some(Expected(id, domain, name, ttl, address))
  {
    var domain := seq(64, _ => letter);
    NoDot(domain);
    OneLabel(domain);
    hide Labels, IndexOf, MessageOf, ReadUpdate;
    assert !IsShort(Labels(domain)[0]);
    ServerReads(id, domain, name, ttl, address);
  }

  lemma ReadsExpected(id: uint16, domain: seq<byte>, name: seq<byte>, ttl: uint32, address: Address)
    requires address.Octets? ==> |address.a| == TYPE_AAAA_SIZE
    requires Encodable(Some(domain), Some(name), address) && AllShort(Labels(domain))
    ensures ReadUpdate(MessageOf(id, domain, name, ttl, address)) == Some(Expected(id, domain, name, ttl, address))
  {
    hide Labels, EncodedLabels, NameEnd, Be16, Be32, FromBe16, FromBe32, ZoneType, Header, RecordOf, DecodeName;
    hide AllShort, ReadUpdate;
    var m := MessageOf(id, domain, name, ttl, address);
    var zone, owner := EncodedLabels(Labels(domain)) + NameEnd(0), EncodedLabels(Labels(name)) + NameEnd(HEADER_SIZE);
    HeaderReads(id);
    ZoneTypeReads();
    RecordReads(id, domain, name, ttl, address);
    NameParts(m, Header(id), zone, ZoneType(), owner, RecordOf(ttl, address));
    var q := HEADER_SIZE + |zone|;
    NamesDecode(m, q, q + 4, q + 4 + |owner|, domain, name);
    SectionsRead(m, Header(id), zone, ZoneType(), owner, RecordOf(ttl, address),
                 Expected(id, domain, name, ttl, address));
  }

  lemma NameParts(m: seq<byte>, h: seq<byte>, zone: seq<byte>, t: seq<byte>, owner: seq<byte>, r: seq<byte>)
    requires m == h + zone + t + owner + r && |h| == HEADER_SIZE && |t| == 4
    ensures var q := HEADER_SIZE + |zone|;
            q + 4 + |owner| <= |m| && m[HEADER_SIZE..q] == zone && m[q + 4..q + 4 + |owner|] == owner
  {
  }

  lemma NamesDecode(m: seq<byte>, q: nat, o: nat, p: nat, domain: seq<byte>, name: seq<byte>)
    requires HEADER_SIZE <= q < o <= p <= |m|
    requires m[HEADER_SIZE..q] == EncodedLabels(Labels(domain)) + NameEnd(0)
    requires m[o..p] == EncodedLabels(Labels(name)) + NameEnd(HEADER_SIZE)
    requires AllShort(Labels(domain)) && |name| <= LABEL_SIZE
    ensures DecodeName(m, HEADER_SIZE, HEADER_SIZE) == Some(Decoded(Labels(domain), q))
    ensures DecodeName(m, o, o) == Some(Decoded(Labels(name) + Labels(domain), p))
  {
    hide Labels, EncodedLabels, NameEnd, DecodeName, AllShort;
    NameIsShort(name);
    ZoneDecodes(m, HEADER_SIZE, Labels(domain), q);
    OwnerDecodes(m, o, Labels(name), p, Labels(domain), q);
  }

  lemma SectionsRead(m: seq<byte>, h: seq<byte>, zone: seq<byte>, t: seq<byte>, owner: seq<byte>, r: seq<byte>,
                     u: Update)
    requires m == h + zone + t + owner + r && |h| == HEADER_SIZE && |t| == 4 && |r| >= 10
    requires FromBe16(h[..2]) == u.id && FromBe16(h[2..4]) == u.opcode * 0x800
    requires h[4..12] == Be16(1) + Be16(0) + Be16(1) + Be16(0)
    requires FromBe16(t[..2]) == u.zoneType && FromBe16(t[2..]) == u.zoneClass
    requires FromBe16(r[..2]) == u.rrType && FromBe16(r[2..4]) == u.rrClass && FromBe32(r[4..8]) == u.ttl
    requires 10 + FromBe16(r[8..10]) == |r| && r[10..] == u.rdata
    requires DecodeName(m, HEADER_SIZE, HEADER_SIZE) == Some(Decoded(u.zone, HEADER_SIZE + |zone|))
    requires var q := HEADER_SIZE + |zone| + 4; DecodeName(m, q, q) == Some(Decoded(u.owner, q + |owner|))
    ensures ReadUpdate(m) == Some(u)
  {
    hide Be16, FromBe16, FromBe32, DecodeName;
    var q := |h| + |zone|;
    var p := q + 4 + |owner|;
    FiveParts(m, h, zone, t, owner, r);
    assert m[..2] == h[..2] && m[2..4] == h[2..4] && m[4..12] == h[4..12];
    assert m[q..q + 2] == m[q..q + 4][..2] && m[q + 2..q + 4] == m[q..q + 4][2..];
    assert m[p..p + 2] == m[p..][..2] && m[p + 2..p + 4] == m[p..][2..4] && m[p + 4..p + 8] == m[p..][4..8];
    assert m[p + 8..p + 10] == m[p..][8..10] && m[p + 10..] == m[p..][10..];
  }

  // ---------- Back to text ----------

  function Dotted(labels: seq<Label>): seq<byte> {
    if labels == [] then []
    else if |labels| == 1 then labels[0]
    else labels[0] + [DOT] + Dotted(labels[1..])
  }

  /** No dot at either end and no two dots in a row. */
  predicate WellDotted(s: seq<byte>) {
    && (|s| > 0 ==> s[0] != DOT && s[|s| - 1] != DOT)
    && forall i :: 0 <= i < |s| - 1 && s[i] == DOT ==> s[i + 1] != DOT
  }

  /** The labels of a well dotted name spell the name. */
  lemma {:induction false} LabelsSpellName(s: seq<byte>)
    requires WellDotted(s)
    ensures Dotted(Labels(s)) == s
    decreases |s|
  {
    hide Labels, Dotted, WellDotted, IndexOf, AfterLabel;
    if |s| == 0 {
      NoLabelsLeft(s);
    } else if IndexOf(s, DOT) == |s| {
      OneLabelLeft(s);
    } else {
      RestIsWellDotted(s);
      LabelsSpellName(AfterLabel(s));
      FirstOfMore(s);
    }
  }

  lemma OneLabelLeft(s: seq<byte>)
    requires |s| > 0 && IndexOf(s, DOT) == |s|
    ensures Dotted(Labels(s)) == s
  {
  }

  lemma FirstOfMore(s: seq<byte>)
    requires 0 < IndexOf(s, DOT) < |s| && |AfterLabel(s)| > 0 && IndexOf(AfterLabel(s), DOT) > 0
    ensures Dotted(Labels(s)) == s[..IndexOf(s, DOT)] + [DOT] + Dotted(Labels(AfterLabel(s)))
    ensures s == s[..IndexOf(s, DOT)] + [DOT] + AfterLabel(s)
  {
    hide Labels, Dotted;
    var rest := AfterLabel(s);
    RestIsAfter(s);
    RestIsAfter(rest);
    assert |Labels(rest)| > 0;
    DottedCons(s[..IndexOf(s, DOT)], Labels(rest));
  }

  lemma RestIsWellDotted(s: seq<byte>)
    requires WellDotted(s) && IndexOf(s, DOT) < |s|
    ensures IndexOf(s, DOT) > 0 && 0 < |AfterLabel(s)| < |s|
    ensures WellDotted(AfterLabel(s)) && IndexOf(AfterLabel(s), DOT) > 0
  {
  }

  lemma NoLabelsLeft(s: seq<byte>)
    requires |s| == 0
    ensures |Labels(s)| == 0 && Dotted(Labels(s)) == s
  {
  }

  lemma DottedCons(first: Label, others: seq<Label>)
    ensures Dotted([first] + others) == if |others| == 0 then first else first + [DOT] + Dotted(others)
  {
  }
}
