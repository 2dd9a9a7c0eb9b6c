/** Machine integers of the client, and the two byte orders it stores them in. */
module Bytes {

  const TWO16 := 0x1_0000
  const TWO32 := 0x1_0000_0000

  type byte = x: int | 0 <= x < 0x100
  type uint16 = x: int | 0 <= x < TWO16
  type uint32 = x: int | 0 <= x < TWO32

  /** The four octets of a word, least significant first. */
  function Le32(v: uint32): (s: seq<byte>)
    ensures |s| == 4
  {
    [v % 0x100, v / 0x100 % 0x100, v / 0x1_0000 % 0x100, v / 0x100_0000]
  }

  function FromLe32(s: seq<byte>): uint32
    requires |s| == 4
  {
    var a: int, b: int, c: int, d: int := s[0], s[1], s[2], s[3];
    a + b * 0x100 + c * 0x1_0000 + d * 0x100_0000
  }

  lemma Le32RoundTrip(v: uint32)
    ensures FromLe32(Le32(v)) == v
  {
    assert v == v % 0x100 + v / 0x100 * 0x100;
    assert v / 0x100 == v / 0x100 % 0x100 + v / 0x1_0000 * 0x100;
    assert v / 0x1_0000 == v / 0x1_0000 % 0x100 + v / 0x100_0000 * 0x100;
  }

  lemma FromLe32RoundTrip(s: seq<byte>)
    requires |s| == 4
    ensures Le32(FromLe32(s)) == s
  {
    var a: int, b: int, c: int, d: int := s[0], s[1], s[2], s[3];
    var v := FromLe32(s);
    assert v / 0x100 == b + c * 0x100 + d * 0x1_0000;
    assert v / 0x1_0000 == c + d * 0x100;
    assert v / 0x100_0000 == d;
  }

  function Le16(v: uint16): (s: seq<byte>)
    ensures |s| == 2
  {
    [v % 0x100, v / 0x100]
  }

  function FromLe16(s: seq<byte>): uint16
    requires |s| == 2
  {
    var a: int, b: int := s[0], s[1];
    a + b * 0x100
  }

  /** The octets of a word, most significant first (network order). */
  function Be32(v: uint32): (s: seq<byte>)
    ensures |s| == 4
  {
    [v / 0x100_0000, v / 0x1_0000 % 0x100, v / 0x100 % 0x100, v % 0x100]
  }

  function FromBe32(s: seq<byte>): uint32
    requires |s| == 4
  {
    FromLe32([s[3], s[2], s[1], s[0]])
  }

  lemma Be32RoundTrip(v: uint32)
    ensures FromBe32(Be32(v)) == v
  {
    Le32RoundTrip(v);
  }

  function Be16(v: uint16): (s: seq<byte>)
    ensures |s| == 2
  {
    [v / 0x100, v % 0x100]
  }

  function FromBe16(s: seq<byte>): uint16
    requires |s| == 2
  {
    FromLe16([s[1], s[0]])
  }

  predicate Weigh(a: int, b: int, c: int, d: int, v: int) {
    a + 0x100 * b + 0x1_0000 * c + 0x100_0000 * d == v
  }

  /** What the octets stand for: little-endian, each counts 256 times what the one before it does; in network
      order it is the other way round. */
  lemma OctetsMeaning(v: uint32, w: uint16)
    ensures var s := Le32(v); Weigh(s[0], s[1], s[2], s[3], v)
    ensures var s := Be32(v); Weigh(s[3], s[2], s[1], s[0], v)
    ensures var s := Le16(w); Weigh(s[0], s[1], 0, 0, w)
    ensures var s := Be16(w); Weigh(s[1], s[0], 0, 0, w)
  {
    Le32RoundTrip(v);
    Be32RoundTrip(v);
  }

  /** Position of the first x, or the length. */
  function IndexOf<T(==)>(s: seq<T>, x: T): (n: nat)
    ensures n <= |s| && x !in s[..n] && (n < |s| ==> s[n] == x)
  {
    if |s| == 0 || s[0] == x then 0
    else
      var n := IndexOf(s[1..], x);
      assert s[..n + 1] == [s[0]] + s[1..][..n];
      n + 1
  }

  lemma IndexOfIs<T>(s: seq<T>, x: T, n: nat)
    requires n <= |s| && x !in s[..n] && (n < |s| ==> s[n] == x)
    ensures IndexOf(s, x) == n
  {
    var m := IndexOf(s, x);
    assert forall i :: 0 <= i < n ==> s[i] in s[..n];
    assert forall i :: 0 <= i < m ==> s[i] in s[..m];
  }

  lemma Associates<T>(a: seq<T>, b: seq<T>, c: seq<T>)
    ensures (a + b) + c == a + (b + c)
  {
  }

  /** memcpy of data into the buffer at pos. */
  method Put(buffer: array<byte>, pos: nat, data: seq<byte>) returns (next: nat)
    requires pos + |data| <= buffer.Length
    modifies buffer
    ensures next == pos + |data|
    ensures buffer[..next] == old(buffer[..pos]) + data && buffer[next..] == old(buffer[next..])
  {
    forall k | 0 <= k < |data| {
      buffer[pos + k] := data[k];
    }
    next := pos + |data|;
  }
}
