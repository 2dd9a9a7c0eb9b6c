/** Typed records on the byte FIFO (bufaux.c). */
module Records {
  import opened Bytes
  import opened ByteFifo

  const STRING_LIMIT := 256 * 1024

  datatype Record = Int(v: uint32) | Octet(value: int) | Text(data: seq<byte>)

  datatype Kind = IntKind | OctetKind | TextKind

  predicate IsRecord(r: Record) {
    r.Text? ==> |r.data| < TWO32
  }

  type Field = r: Record | IsRecord(r) witness Int(0)

  function KindOf(r: Field): Kind {
    match r
    case Int(_) => IntKind
    case Octet(_) => OctetKind
    case Text(_) => TextKind
  }

  function Encoding(r: Field): seq<byte> {
    match r
    case Int(v) => Be32(v)
    case Octet(value) => [value % 0x100]
    case Text(data) => Be32(|data|) + data
  }

  function Encoded(rs: seq<Field>): seq<byte> {
    if rs == [] then [] else Encoding(rs[0]) + Encoded(rs[1..])
  }

  /** The record as it comes back: an octet is cut to eight bits. */
  function Kept(r: Field): Field {
    if r.Octet? then Octet(r.value % 0x100) else r
  }

  // ---------- The operations of bufaux.c ----------

  method PutInt(buffer: Buffer, v: uint32) returns (ok: bool)
    requires buffer.Valid()
    modifies buffer, buffer.buf
    ensures buffer.Valid() && (buffer.buf == old(buffer.buf) || fresh(buffer.buf))
    ensures ok <==> !Fatal(old(buffer.alloc), old(buffer.offset), old(buffer.end), 4)
    ensures buffer.Contents() == old(buffer.Contents()) + if ok then Be32(v) else []
  {
    var buf := [v / 0x100_0000, v / 0x1_0000 % 0x100, v / 0x100 % 0x100, v % 0x100];
    hide Fatal;
    ok := buffer.Append(buf);
  }

  /** With fewer than four bytes left the value is whatever the stack held. */
  method GetInt(buffer: Buffer) returns (v: uint32)
    requires buffer.Valid()
    modifies buffer`offset
    ensures buffer.Valid()
    ensures |old(buffer.Contents())| < 4 ==> buffer.Contents() == old(buffer.Contents())
    ensures |old(buffer.Contents())| >= 4 ==>
              v == FromBe32(old(buffer.Contents())[..4]) && buffer.Contents() == old(buffer.Contents())[4..]
  {
    hide FromBe32;
    var buf := new byte[4];
    buffer.Get(buf, 4);
    assert buf[..4] == buf[..];
    v := FromBe32(buf[..]);
  }

  method PutOctet(buffer: Buffer, value: int) returns (ok: bool)
    requires buffer.Valid()
    modifies buffer, buffer.buf
    ensures buffer.Valid() && (buffer.buf == old(buffer.buf) || fresh(buffer.buf))
    ensures ok <==> !Fatal(old(buffer.alloc), old(buffer.offset), old(buffer.end), 1)
    ensures buffer.Contents() == old(buffer.Contents()) + if ok then [value % 0x100] else []
  {
    hide Fatal;
    ok := buffer.Append([value % 0x100]);
  }

  method GetOctet(buffer: Buffer) returns (value: int)
    requires buffer.Valid()
    modifies buffer`offset
    ensures buffer.Valid() && 0 <= value < 0x100
    ensures |old(buffer.Contents())| == 0 ==> buffer.Contents() == old(buffer.Contents())
    ensures |old(buffer.Contents())| > 0 ==>
              value == old(buffer.Contents())[0] && buffer.Contents() == old(buffer.Contents())[1..]
  {
    var ch := new byte[1];
    ghost var was := buffer.Contents();
    buffer.Get(ch, 1);
    assert |was| > 0 ==> ch[..1][0] == was[..1][0];
    value := ch[0];
  }

  /** The length goes in even when the string itself does not. */
  method PutString(buffer: Buffer, data: seq<byte>) returns (ok: bool)
    requires buffer.Valid() && |data| < TWO32
    modifies buffer, buffer.buf
    ensures buffer.Valid() && (buffer.buf == old(buffer.buf) || fresh(buffer.buf))
    ensures |data| > APPEND_LIMIT ==> !ok
    ensures |data| <= APPEND_LIMIT && RoomFor(|old(buffer.Contents())|, |data| + 4) ==> ok
    ensures ok ==> buffer.Contents() == old(buffer.Contents()) + Encoding(Text(data))
    ensures !ok ==> buffer.Contents() == old(buffer.Contents())
                    || buffer.Contents() == old(buffer.Contents()) + Be32(|data|)
  {
    hide Fits, Be32, Fatal;
    FatalAboveLimit(|data|);
    ghost var was := buffer.Contents();
    if RoomFor(|was|, |data| + 4) {
      SmallAppendIsSafe(buffer.alloc, buffer.offset, buffer.end, 4);
    }
    ok := PutInt(buffer, |data|);
    if ok {
      if |data| <= APPEND_LIMIT && RoomFor(|was|, |data| + 4) {
        SmallAppendIsSafe(buffer.alloc, buffer.offset, buffer.end, |data|);
      }
      ok := buffer.Append(data);
      Associates(was, Be32(|data|), data);
    }
  }

  lemma FatalAboveLimit(len: nat)
    ensures len > APPEND_LIMIT ==> forall alloc, offset, end :: Fatal(alloc, offset, end, len)
  {
  }

  predicate IsTail(t: seq<byte>, s: seq<byte>) {
    |t| <= |s| && t == s[|s| - |t|..]
  }

  /** A string of which too little is there loses its length and nothing else, and the value is
      whatever malloc returned; a length above the limit ends the process. */
  method GetString(buffer: Buffer) returns (ok: bool, value: array<byte>, length: uint32)
    requires buffer.Valid()
    modifies buffer`offset
    ensures buffer.Valid()
    ensures ok ==> fresh(value) && length <= STRING_LIMIT && value.Length == length + 1 && value[length] == 0
    ensures var was := old(buffer.Contents());
            |was| >= 4 ==>
              && length == FromBe32(was[..4])
              && (ok <==> length <= STRING_LIMIT)
              && (ok && length <= |was| - 4 ==>
                    value[..length] == was[4..4 + length] && buffer.Contents() == was[4 + length..])
              && (!ok || length > |was| - 4 ==> buffer.Contents() == was[4..])
    ensures IsTail(buffer.Contents(), old(buffer.Contents()))
  {
    hide FromBe32;
    ghost var was := buffer.Contents();
    length := GetInt(buffer);
    if length > STRING_LIMIT {
      value := new byte[0];
      return false, value, length;
    }
    value := new byte[length + 1];
    buffer.Get(value, length);
    value[length] := 0;
    ok := true;
    if 4 <= |was| && length <= |was| - 4 {
      assert was[4..][..length] == was[4..4 + length] && was[4..][length..] == was[4 + length..];
    }
  }

  /** A NUL-terminated string, or a null pointer, which ends the process. */
  datatype CString = Null | Chars(memory: seq<byte>)

  method PutCString(buffer: Buffer, s: CString) returns (ok: bool)
    requires buffer.Valid() && (s.Chars? ==> 0 in s.memory && IndexOf(s.memory, 0) < TWO32)
    modifies buffer, buffer.buf
    ensures buffer.Valid() && (buffer.buf == old(buffer.buf) || fresh(buffer.buf))
    ensures s.Null? ==> !ok && buffer.Contents() == old(buffer.Contents())
    ensures ok ==> buffer.Contents() == old(buffer.Contents()) + Encoding(Text(s.memory[..IndexOf(s.memory, 0)]))
    ensures (s.Chars? && IndexOf(s.memory, 0) <= APPEND_LIMIT
             && RoomFor(|old(buffer.Contents())|, IndexOf(s.memory, 0) + 4)) ==> ok
  {
    hide Encoding;
    if s.Null? {
      return false;
    }
    ok := PutString(buffer, s.memory[..IndexOf(s.memory, 0)]);
  }

  // ---------- Lists of records ----------

  method Put(buffer: Buffer, r: Field) returns (ok: bool)
    requires buffer.Valid()
    modifies buffer, buffer.buf
    ensures buffer.Valid() && (buffer.buf == old(buffer.buf) || fresh(buffer.buf))
    ensures ok ==> buffer.Contents() == old(buffer.Contents()) + Encoding(r)
    ensures NotHuge(r) && RoomFor(|old(buffer.Contents())|, |Encoding(r)|) ==> ok
  {
    hide Fatal, Fits, Be32;
    if NotHuge(r) && RoomFor(|buffer.Contents()|, |Encoding(r)|) {
      SmallAppendIsSafe(buffer.alloc, buffer.offset, buffer.end, if r.Int? then 4 else 1);
    }
    match r
    case Int(v) => ok := PutInt(buffer, v);
    case Octet(value) => ok := PutOctet(buffer, value);
    case Text(data) => ok := PutString(buffer, data);
  }

  predicate NotHuge(r: Field) {
    r.Text? ==> |r.data| <= APPEND_LIMIT
  }

  predicate NoneHuge(rs: seq<Field>) {
    forall i :: 0 <= i < |rs| ==> NotHuge(rs[i])
  }

  method PutAll(buffer: Buffer, rs: seq<Field>) returns (ok: bool)
    requires buffer.Valid()
    modifies buffer, buffer.buf
    ensures buffer.Valid() && (buffer.buf == old(buffer.buf) || fresh(buffer.buf))
    ensures ok ==> buffer.Contents() == old(buffer.Contents()) + Encoded(rs)
    ensures NoneHuge(rs) && RoomFor(|old(buffer.Contents())|, |Encoded(rs)|) ==> ok
    decreases |rs|
  {
    hide Encoding, NotHuge;
    if rs == [] {
      return true;
    }
    ghost var was := buffer.Contents();
    ok := Put(buffer, rs[0]);
    if ok {
      ok := PutAll(buffer, rs[1..]);
      Associates(was, Encoding(rs[0]), Encoded(rs[1..]));
    }
  }

  /** What getting records of the given kinds does with the bytes: the records and the rest, an exit of
      the process over a string that is too long, or values that the buffer does not determine. */
  datatype Parsed = Records(rs: seq<Field>, rest: seq<byte>) | Exits | Undetermined

  function ParseOne(kind: Kind, s: seq<byte>): (p: Parsed)
    ensures p.Records? ==> |p.rs| == 1
  {
    match kind
    case IntKind => if |s| < 4 then Undetermined else Records([Int(FromBe32(s[..4]))], s[4..])
    case OctetKind => if |s| < 1 then Undetermined else Records([Octet(s[0])], s[1..])
    case TextKind =>
      if |s| < 4 then Undetermined
      else
        var length := FromBe32(s[..4]);
        if length > STRING_LIMIT then Exits
        else if length > |s| - 4 then Undetermined
        else Records([Text(s[4..4 + length])], s[4 + length..])
  }

  function Parse(kinds: seq<Kind>, s: seq<byte>): Parsed {
    if kinds == [] then Records([], s)
    else
      var first := ParseOne(kinds[0], s);
      if !first.Records? then first
      else
        var others := Parse(kinds[1..], first.rest);
        if others.Records? then Records(first.rs + others.rs, others.rest) else others
  }

  method GetOne(buffer: Buffer, kind: Kind) returns (ok: bool, r: Field)
    requires buffer.Valid()
    modifies buffer`offset
    ensures buffer.Valid()
    ensures var p := ParseOne(kind, old(buffer.Contents()));
            && (p.Records? ==> ok && p == Records([r], buffer.Contents()))
            && (p.Exits? ==> !ok)
  {
    hide FromBe32;
    ok := true;
    match kind {
      case IntKind =>
        var v := GetInt(buffer);
        r := Int(v);
      case OctetKind =>
        var v := GetOctet(buffer);
        r := Octet(v);
      case TextKind =>
        var value, length;
        ok, value, length := GetString(buffer);
        r := Text(if ok then value[..length] else []);
    }
  }

  method GetAll(buffer: Buffer, kinds: seq<Kind>) returns (ok: bool, rs: seq<Field>)
    requires buffer.Valid()
    modifies buffer`offset
    ensures buffer.Valid()
    ensures var p := Parse(kinds, old(buffer.Contents()));
            && (p.Records? ==> ok && p == Records(rs, buffer.Contents()))
            && (p.Exits? ==> !ok)
    decreases |kinds|
  {
    hide ParseOne;
    if kinds == [] {
      return true, [];
    }
    var r;
    ok, r := GetOne(buffer, kinds[0]);
    if !ok {
      return false, [];
    }
    var others;
    ok, others := GetAll(buffer, kinds[1..]);
    rs := [r] + others;
  }

  function Kinds(rs: seq<Field>): (kinds: seq<Kind>)
    ensures |kinds| == |rs|
  {
    if rs == [] then [] else [KindOf(rs[0])] + Kinds(rs[1..])
  }

  function KeptAll(rs: seq<Field>): seq<Field> {
    if rs == [] then [] else [Kept(rs[0])] + KeptAll(rs[1..])
  }

  predicate Gettable(r: Field) {
    r.Text? ==> |r.data| <= STRING_LIMIT
  }

  predicate AllGettable(rs: seq<Field>) {
    forall i :: 0 <= i < |rs| ==> Gettable(rs[i])
  }

  lemma OneRoundTrip(r: Field, rest: seq<byte>)
    ensures ParseOne(KindOf(r), Encoding(r) + rest) == if Gettable(r) then Records([Kept(r)], rest) else Exits
  {
    hide FromBe32, Be32;
    var s := Encoding(r) + rest;
    match r
    case Int(v) =>
      Be32RoundTrip(v);
      assert s[..4] == Be32(v) && s[4..] == rest;
    case Octet(value) =>
      assert s[1..] == rest;
    case Text(data) =>
      Be32RoundTrip(|data|);
      assert s[..4] == Be32(|data|);
      if Gettable(r) {
        assert s[4..4 + |data|] == data && s[4 + |data|..] == rest;
      }
  }

  /** Records read with the kinds they were written with come back in order, and what follows them is
      left alone, exactly when no string is longer than the reader allows; the writer allows more. */
  lemma {:induction false} RoundTrip(rs: seq<Field>, rest: seq<byte>)
    ensures Parse(Kinds(rs), Encoded(rs) + rest) == if AllGettable(rs) then Records(KeptAll(rs), rest) else Exits
  {
    hide Encoding, ParseOne, Gettable, Kept, KindOf;
    if rs == [] {
      assert Encoded(rs) + rest == rest;
    } else {
      var others := Encoded(rs[1..]) + rest;
      Associates(Encoding(rs[0]), Encoded(rs[1..]), rest);
      OneRoundTrip(rs[0], others);
      RoundTrip(rs[1..], rest);
      assert Kinds(rs)[0] == KindOf(rs[0]) && Kinds(rs)[1..] == Kinds(rs[1..]);
      assert AllGettable(rs) <==> Gettable(rs[0]) && AllGettable(rs[1..]) by {
        assert forall i :: 0 < i < |rs| ==> rs[i] == rs[1..][i - 1];
      }
    }
  }

  /** Writing records and then other bytes to a buffer, and reading the records back, whatever the
      buffer has to move or reallocate on the way. */
  method Exchange(buffer: Buffer, rs: seq<Field>, following: seq<byte>) returns (put: bool, got: bool, back: seq<Field>)
    requires buffer.Valid() && buffer.Contents() == []
    modifies buffer, buffer.buf
    ensures buffer.Valid()
    ensures put ==> (got <==> AllGettable(rs))
    ensures put && got ==> back == KeptAll(rs) && buffer.Contents() == following
    ensures NoneHuge(rs) && |following| <= APPEND_LIMIT && RoomFor(0, |Encoded(rs)| + |following|) ==> put
  {
    hide Parse, Encoded, Fatal, Fits, KeptAll, AllGettable, NoneHuge;
    got, back := false, [];
    put := PutAll(buffer, rs);
    if put {
      assert buffer.Contents() == Encoded(rs);
      if |following| <= APPEND_LIMIT && RoomFor(0, |Encoded(rs)| + |following|) {
        SmallAppendIsSafe(buffer.alloc, buffer.offset, buffer.end, |following|);
      }
      put := buffer.Append(following);
      if put {
        RoundTrip(rs, following);
        got, back := GetAll(buffer, Kinds(rs));
      }
    }
  }
}
