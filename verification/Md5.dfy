/** The streaming interface of MD5 (md5c.c) against the one-shot definition of RFC 1321,
    for every block compression function. */
module Md5 {
  import opened Bytes

  const TWO64 := 0x1_0000_0000_0000_0000

  datatype State = State(a: uint32, b: uint32, c: uint32, d: uint32)

  const INITIAL := State(0x67452301, 0xefcdab89, 0x98badcfe, 0x10325476)

  /** MD5Transform: the next chaining state from a state and a 64-byte block. */
  type Compression = (State, seq<byte>) -> State

  // ---------- RFC 1321, sections 3.1 to 3.5 ----------

  /** The compression applied to the full 64-byte blocks of data, first to last. */
  function Fold(compress: Compression, st: State, data: seq<byte>): State
    decreases |data|
  {
    if |data| < 64 then st else Fold(compress, compress(st, data[..64]), data[64..])
  }

  /** Zero octets between the marker and the length: as few as bring the length to 56 mod 64. */
  function ZeroCount(n: nat): (z: nat)
    ensures z < 64 && (n + 1 + z) % 64 == 56
  {
    (55 - n) % 64
  }

  /** The message with the marker octet, zeros and the bit length, low-order word first. */
  function Padded(m: seq<byte>): seq<byte> {
    var bits := 8 * |m| % TWO64;
    m + [0x80] + Zeros(ZeroCount(|m|)) + Le32(bits % TWO32) + Le32(bits / TWO32)
  }

  function Zeros(n: nat): (z: seq<byte>)
    ensures |z| == n
  {
    seq(n, _ => 0)
  }

  function WordsOf(st: State): seq<uint32> {
    [st.a, st.b, st.c, st.d]
  }

  /** The words of a sequence, least significant octet first. */
  function EncodeWords(ws: seq<uint32>): (s: seq<byte>)
    ensures |s| == 4 * |ws|
  {
    if ws == [] then [] else EncodeWords(ws[..|ws| - 1]) + Le32(ws[|ws| - 1])
  }

  function Digest(compress: Compression, m: seq<byte>): seq<byte> {
    EncodeWords(WordsOf(Fold(compress, INITIAL, Padded(m))))
  }

  lemma PaddedIsWhole(m: seq<byte>)
    ensures |Padded(m)| % 64 == 0
  {
    var x := |m| + 1 + ZeroCount(|m|);
    InBlock(x + 8, x / 64 + 1, 0);
  }

  /** Padding by sections 3.1 and 3.2 of RFC 1321, octet by octet: the marker 0x80 behind the message, as few
      zeros as possible, and the number of bits modulo 2^64 in the last eight octets. */
  lemma PaddedMeaning(m: seq<byte>)
    ensures var p := Padded(m);
            && |m| + 9 <= |p| < |m| + 73 && m <= p && p[|m|] == 0x80
            && (forall i :: |m| < i < |p| - 8 ==> p[i] == 0)
            && FromLe32(p[|p| - 8..|p| - 4]) + FromLe32(p[|p| - 4..]) * TWO32 == 8 * |m| % TWO64
  {
    var p, bits, z := Padded(m), 8 * |m| % TWO64, ZeroCount(|m|);
    Le32RoundTrip(bits % TWO32);
    Le32RoundTrip(bits / TWO32);
    hide Le32, FromLe32, ZeroCount;
    assert p[|p| - 8..|p| - 4] == Le32(bits % TWO32) && p[|p| - 4..] == Le32(bits / TWO32);
    assert forall i :: |m| < i < |p| - 8 ==> p[i] == Zeros(z)[i - |m| - 1];
  }

  /** The digest holds the four words of the last state, a to d, each least significant octet first. */
  lemma DigestMeaning(compress: Compression, m: seq<byte>)
    ensures var d, st := Digest(compress, m), Fold(compress, INITIAL, Padded(m));
            && |d| == 16
            && FromLe32(d[0..4]) == st.a && FromLe32(d[4..8]) == st.b
            && FromLe32(d[8..12]) == st.c && FromLe32(d[12..16]) == st.d
  {
    var st := Fold(compress, INITIAL, Padded(m));
    hide Padded, Fold;
    var ws := WordsOf(st);
    FourEncoded(ws);
    Le32RoundTrip(st.a);
    Le32RoundTrip(st.b);
    Le32RoundTrip(st.c);
    Le32RoundTrip(st.d);
    hide EncodeWords, Le32, FromLe32;
    var d := EncodeWords(ws);
    assert d[0..4] == Le32(ws[0]) && d[4..8] == Le32(ws[1]) && d[8..12] == Le32(ws[2]) && d[12..16] == Le32(ws[3]);
  }

  lemma FourEncoded(ws: seq<uint32>)
    requires |ws| == 4
    ensures EncodeWords(ws) == Le32(ws[0]) + Le32(ws[1]) + Le32(ws[2]) + Le32(ws[3])
  {
    hide Le32;
    assert ws[..3][..2][..1][..0] == [];
    assert ws[..3][..2] == ws[..2] && ws[..2][..1] == ws[..1];
    assert EncodeWords(ws[..1]) == Le32(ws[0]);
    assert EncodeWords(ws[..2]) == EncodeWords(ws[..1]) + Le32(ws[1]);
    assert EncodeWords(ws[..3]) == EncodeWords(ws[..2]) + Le32(ws[2]);
  }

  // ---------- The fold, block by block ----------

  lemma {:induction false} FoldSnoc(compress: Compression, st: State, data: seq<byte>, block: seq<byte>)
    requires |data| % 64 == 0 && |block| == 64
    ensures Fold(compress, st, data + block) == compress(Fold(compress, st, data), block)
    decreases |data|
  {
    if |data| == 0 {
      assert data + block == block && block[..64] == block && |block[64..]| == 0;
    } else {
      assert (data + block)[..64] == data[..64] && (data + block)[64..] == data[64..] + block;
      FoldSnoc(compress, compress(st, data[..64]), data[64..], block);
    }
  }

  lemma {:induction false} FoldTail(compress: Compression, st: State, data: seq<byte>, tail: seq<byte>)
    requires |data| % 64 == 0 && |tail| < 64
    ensures Fold(compress, st, data + tail) == Fold(compress, st, data)
    decreases |data|
  {
    if |data| > 0 {
      assert (data + tail)[..64] == data[..64] && (data + tail)[64..] == data[64..] + tail;
      FoldTail(compress, compress(st, data[..64]), data[64..], tail);
    }
  }

  /** Fold ignores what follows the last full block. */
  lemma FoldFull(compress: Compression, data: seq<byte>, n: nat)
    requires n <= |data| < n + 64 && n % 64 == 0
    ensures Fold(compress, INITIAL, data) == Fold(compress, INITIAL, data[..n])
  {
    assert data == data[..n] + data[n..];
    FoldTail(compress, INITIAL, data[..n], data[n..]);
  }

  lemma FoldNext(compress: Compression, data: seq<byte>, n: nat)
    requires n + 64 <= |data| && n % 64 == 0
    ensures Fold(compress, INITIAL, data[..n + 64]) ==
            compress(Fold(compress, INITIAL, data[..n]), data[n..n + 64])
  {
    assert data[..n + 64] == data[..n] + data[n..n + 64];
    FoldSnoc(compress, INITIAL, data[..n], data[n..n + 64]);
  }

  /** The two-word counter after adding 8 * len, the carry detected by comparison. */
  function CountAfter(c0: uint32, c1: uint32, len: uint32): (uint32, uint32) {
    var shifted := len * 8 % TWO32;
    var d0 := (c0 + shifted) % TWO32;
    var d1 := if d0 < shifted then (c1 + 1) % TWO32 else c1;
    (d0, (d1 + len / 0x2000_0000) % TWO32)
  }

  lemma CountAdds(c0: uint32, c1: uint32, n: nat, len: uint32)
    requires c0 + c1 * TWO32 == 8 * n % TWO64
    ensures var (d0, d1) := CountAfter(c0, c1, len);
            d0 + d1 * TWO32 == 8 * (n + len) % TWO64
  {
    var shifted, high := len * 8 % TWO32, len / 0x2000_0000;
    var d0 := (c0 + shifted) % TWO32;
    var carry := if d0 < shifted then 1 else 0;
    assert c0 + shifted == d0 + carry * TWO32;
    var d1 := if d0 < shifted then (c1 + 1) % TWO32 else c1;
    var lost := (c1 + carry) / TWO32;
    assert c1 + carry == lost * TWO32 + d1;
    var sum := d1 + high;
    var low := d0 + sum % TWO32 * TWO32;
    assert sum == sum / TWO32 * TWO32 + sum % TWO32;
    assert 8 * len == shifted + high * TWO32;
    Mod64(8 * (n + len), 8 * n / TWO64 + lost + sum / TWO32, low);
  }

  /** The position within the block, read off the low word of the counter. */
  lemma IndexOfCount(c0: uint32, c1: uint32, n: nat)
    requires c0 + c1 * TWO32 == 8 * n % TWO64
    ensures c0 / 8 % 64 == n % 64
  {
  }

  lemma InBlock(x: int, q: int, r: int)
    requires x == 64 * q + r && 0 <= r < 64
    ensures x % 64 == r && (x - r) % 64 == 0
  {
  }

  lemma Mod64(x: int, q: int, r: int)
    requires x == q * TWO64 + r && 0 <= r < TWO64
    ensures x % TWO64 == r
  {
  }

  /** Where the block loop has to stop: with fewer than 64 bytes left. */
  function StopAt(partLen: nat, inputLen: nat): (i: nat)
    requires partLen <= inputLen
    ensures partLen <= i <= inputLen < i + 64 && (i - partLen) % 64 == 0
  {
    inputLen - (inputLen - partLen) % 64
  }

  /** Positions before the stop that are a whole number of blocks away leave a whole block. */
  lemma NotPastStop(partLen: nat, inputLen: nat, i: nat)
    requires partLen <= i <= inputLen && (i - partLen) % 64 == 0
    ensures i + 64 <= inputLen <==> i < StopAt(partLen, inputLen)
    ensures i < StopAt(partLen, inputLen) ==> i + 64 <= StopAt(partLen, inputLen)
  {
  }

  /** What a caller of MD5Update must see to: that the block loop has to stop at 2^32 - 64 at the latest,
      where adding 63 does not wrap. */
  predicate ChunkFits(msgLen: nat, inputLen: nat) {
    var partLen := 64 - msgLen % 64;
    inputLen < TWO32 && (inputLen >= partLen ==> StopAt(partLen, inputLen) <= TWO32 - 64)
  }

  /** The guard of the block loop, in 32-bit arithmetic. */
  predicate GuardHolds(k: nat, inputLen: nat) {
    (k + 63) % TWO32 < inputLen
  }

  /** At a whole number of blocks from the first one, within the chunk: the guard tells whether another
      whole block is left, and the one after it lies at a block boundary of the message too. */
  lemma AtBlock(n: nat, partLen: nat, inputLen: nat, i: nat)
    requires partLen <= i <= inputLen && (i - partLen) % 64 == 0 && (n + i) % 64 == 0
    requires inputLen < TWO32 && StopAt(partLen, inputLen) <= TWO32 - 64
    ensures GuardHolds(i, inputLen) <==> i + 64 <= inputLen
    ensures (i + 64 - partLen) % 64 == 0 && (n + i + 64) % 64 == 0
  {
    NotPastStop(partLen, inputLen, i);
    InBlock(n + i + 64, (n + i) / 64 + 1, 0);
    InBlock(i + 64 - partLen, (i - partLen) / 64 + 1, 0);
  }

  class MD5Context {
    const compress: Compression
    var state: State
    /** The number of bits, modulo 2^64, low word first. */
    var count0: uint32
    var count1: uint32
    const buffer: array<byte>
    /** Everything fed in since the context was initialized. */
    ghost var msg: seq<byte>

    ghost predicate Valid()
      reads this, buffer
    {
      && buffer.Length == 64
      && state == Fold(compress, INITIAL, msg)
      && count0 + count1 * TWO32 == 8 * |msg| % TWO64
      && buffer[..|msg| % 64] == msg[|msg| - |msg| % 64..]
    }

    constructor (compress: Compression)
      ensures buffer.Length == 64 && fresh(buffer) && this.compress == compress
    {
      this.compress := compress;
      buffer := new byte[64];
      state, count0, count1 := State(0, 0, 0, 0), 0, 0;
    }

    method Init()
      requires buffer.Length == 64
      modifies this
      ensures Valid() && msg == []
    {
      count0, count1 := 0, 0;
      state := INITIAL;
      msg := [];
    }

    /** Adds to the number of bits, with the carry between the two words. */
    method AddBits(inputLen: uint32, ghost n: nat)
      requires count0 + count1 * TWO32 == 8 * n % TWO64
      modifies this`count0, this`count1
      ensures count0 + count1 * TWO32 == 8 * (n + inputLen) % TWO64
    {
      CountAdds(count0, count1, n, inputLen);
      ghost var after := CountAfter(count0, count1, inputLen);
      var shifted := inputLen * 8 % TWO32;
      count0 := (count0 + shifted) % TWO32;
      if count0 < shifted {
        count1 := (count1 + 1) % TWO32;
      }
      count1 := (count1 + inputLen / 0x2000_0000) % TWO32;
      assert (count0, count1) == after;
    }

    /** Number of bytes already in the buffer. */
    method BlockIndex() returns (index: nat)
      requires Valid()
      ensures index == |msg| % 64 && (|msg| - index) % 64 == 0
    {
      IndexOfCount(count0, count1, |msg|);
      InBlock(|msg|, |msg| / 64, |msg| % 64);
      index := count0 / 8 % 64;
    }

    /** memcpy into the buffer. */
    method Store(at: nat, bytes: seq<byte>)
      requires at + |bytes| <= buffer.Length
      modifies buffer
      ensures buffer[..at] == old(buffer[..at]) && buffer[at..at + |bytes|] == bytes
    {
      forall k | 0 <= k < |bytes| {
        buffer[at + k] := bytes[k];
      }
    }

    /** Completes the buffered block with the first bytes of the input and transforms it. */
    method FirstBlock(input: seq<byte>, index: nat, ghost whole: seq<byte>, ghost n: nat)
      requires buffer.Length == 64 && index < 64 && |input| >= 64 - index
      requires n % 64 == index && n <= |whole| && whole[n..] == input
      requires buffer[..index] == whole[n - index..n]
      requires state == Fold(compress, INITIAL, whole[..n - index])
      modifies this`state, buffer
      ensures state == Fold(compress, INITIAL, whole[..n - index + 64])
    {
      hide Fold;
      var partLen := 64 - index;
      Store(index, input[..partLen]);
      ghost var block := whole[n - index..n - index + 64];
      assert block == whole[n - index..n] + whole[n..][..partLen];
      assert buffer[..] == buffer[..index] + buffer[index..64] == block;
      FoldNext(compress, whole, n - index);
      state := compress(state, buffer[..]);
    }

    /** Transforms the full blocks of the input from position i on; i + 63 is 32-bit arithmetic. */
    method FullBlocks(input: seq<byte>, from: nat, ghost whole: seq<byte>, ghost n: nat) returns (i: nat)
      requires 1 <= from <= |input| < TWO32 && StopAt(from, |input|) <= TWO32 - 64
      requires n <= |whole| && whole[n..] == input && (n + from) % 64 == 0
      requires state == Fold(compress, INITIAL, whole[..n + from])
      modifies this`state
      ensures from <= i <= |input| < i + 64 && (n + i) % 64 == 0
      ensures state == Fold(compress, INITIAL, whole[..n + i])
    {
      hide Fold, StopAt, GuardHolds;
      i := from;
      AtBlock(n, from, |input|, i);
      while GuardHolds(i, |input|)
        invariant from <= i <= |input| && (n + i) % 64 == 0 && (i - from) % 64 == 0
        invariant GuardHolds(i, |input|) <==> i + 64 <= |input|
        invariant state == Fold(compress, INITIAL, whole[..n + i])
        decreases |input| - i
      {
        FoldNext(compress, whole, n + i);
        assert whole[n + i..n + i + 64] == whole[n..][i..i + 64];
        state := compress(state, input[i..i + 64]);
        i := i + 64;
        AtBlock(n, from, |input|, i);
      }
    }

    method Update(input: seq<byte>)
      requires Valid() && ChunkFits(|msg|, |input|)
      modifies this, buffer
      ensures Valid() && msg == old(msg) + input
    {
      hide Fold;
      var index := BlockIndex();
      ghost var n := |msg|;
      ghost var whole := msg + input;
      assert whole[n..] == input;
      AddBits(|input|, n);
      var partLen := 64 - index;
      var i := 0;
      FoldFull(compress, msg, n - index);
      assert whole[..n - index] == msg[..n - index] && whole[n - index..n] == msg[n - index..];
      if |input| >= partLen {
        FirstBlock(input, index, whole, n);
        assert n - index + 64 == n + partLen;
        InBlock(n + partLen, n / 64 + 1, 0);
        i := FullBlocks(input, partLen, whole, n);
        index := 0;
      }
      Remainder(whole, n, index, i);
      KeepRest(input[i..], index, whole);
    }

    /** Buffers what is left after the full blocks. */
    method KeepRest(rest: seq<byte>, index: nat, ghost whole: seq<byte>)
      requires buffer.Length == 64 && index + |rest| == |whole| % 64
      requires count0 + count1 * TWO32 == 8 * |whole| % TWO64
      requires (|whole| - |whole| % 64) % 64 == 0
      requires state == Fold(compress, INITIAL, whole[..|whole| - |whole| % 64])
      requires buffer[..index] + rest == whole[|whole| - |whole| % 64..]
      modifies this`msg, buffer
      ensures Valid() && msg == whole
    {
      hide Fold;
      Store(index, rest);
      msg := whole;
      assert buffer[..|whole| % 64] == buffer[..index] + buffer[index..|whole| % 64];
      FoldFull(compress, whole, |whole| - |whole| % 64);
    }

    /** What is left over after the full blocks: the kept bytes and the rest of the input. */
    static lemma Remainder(whole: seq<byte>, n: nat, index: nat, i: nat)
      requires n + i <= |whole| < n + i + 64 - index && (n + i - index) % 64 == 0
      requires i == 0 || index == 0
      requires index <= n
      ensures |whole| % 64 == index + (|whole| - n - i) && (|whole| - |whole| % 64) % 64 == 0
      ensures whole[|whole| - |whole| % 64..] == whole[n + i - index..n + i] + whole[n..][i..]
    {
    }

    /** Pads out to 56 mod 64 and appends the length before padding. */
    method Pad()
      requires Valid()
      modifies this, buffer
      ensures Valid() && msg == Padded(old(msg))
    {
      hide Fold, EncodeWords, Zeros, ZeroCount, Le32, ChunkFits;
      ghost var m := msg;
      var bits := Encode([count0, count1]);
      var index := BlockIndex();
      var padLen := if index < 56 then 56 - index else 120 - index;
      SplitCount(count0, count1, 8 * |m| % TWO64);
      PadLength(|m|, padLen);
      ChunksThatFit(|msg|, padLen);
      Update(Padding()[..padLen]);
      ChunksThatFit(|msg|, 8);
      Update(bits);
      PaddingIs(padLen - 1);
      EncodePair(8 * |m| % TWO64 % TWO32, 8 * |m| % TWO64 / TWO32);
      PaddedAs(m, padLen - 1);
    }

    /** The digest of everything fed in, after which nothing of it is left in the context. */
    method Final() returns (digest: seq<byte>)
      requires Valid()
      modifies this, buffer
      ensures digest == Digest(compress, old(msg)) && |digest| == 16
      ensures var st := Fold(compress, INITIAL, Padded(old(msg)));
              && FromLe32(digest[0..4]) == st.a && FromLe32(digest[4..8]) == st.b
              && FromLe32(digest[8..12]) == st.c && FromLe32(digest[12..16]) == st.d
      ensures state == State(0, 0, 0, 0) && count0 == 0 && count1 == 0 && buffer[..] == Zeros(64)
    {
      DigestMeaning(compress, msg);
      hide Fold, EncodeWords, Padded, FromLe32;
      Pad();
      digest := Encode([state.a, state.b, state.c, state.d]);
      state, count0, count1 := State(0, 0, 0, 0), 0, 0;
      forall k | 0 <= k < 64 {
        buffer[k] := 0;
      }
    }
  }

  /** Encode: the words as octets, least significant first. */
  method Encode(input: seq<uint32>) returns (output: seq<byte>)
    ensures output == EncodeWords(input)
  {
    output := [];
    var i := 0;
    while i < |input|
      invariant i <= |input| && output == EncodeWords(input[..i])
    {
      var w := input[i];
      output := output + [w % 0x100, w / 0x100 % 0x100, w / 0x1_0000 % 0x100, w / 0x100_0000 % 0x100];
      i := i + 1;
      assert input[..i][..i - 1] == input[..i - 1];
    }
    assert input[..i] == input;
  }

  /** Decode: the words whose octets these are. */
  method Decode(input: seq<byte>) returns (output: seq<uint32>)
    requires |input| % 4 == 0
    ensures EncodeWords(output) == input
  {
    output := [];
    var j := 0;
    while j < |input|
      invariant j <= |input| && j % 4 == 0 && EncodeWords(output) == input[..j]
    {
      var w := FromLe32(input[j..j + 4]);
      FromLe32RoundTrip(input[j..j + 4]);
      output := output + [w];
      j := j + 4;
      assert output[..|output| - 1] + [w] == output;
      assert input[..j] == input[..j - 4] + input[j - 4..j];
    }
    assert input[..j] == input;
  }

  /** Decoding inverts encoding: equal octets come from equal words. */
  lemma {:induction false} EncodeIsInjective(v: seq<uint32>, w: seq<uint32>)
    requires EncodeWords(v) == EncodeWords(w)
    ensures v == w
  {
    assert |v| == |w|;
    if v != [] {
      var n := |v| - 1;
      var a, b := EncodeWords(v[..n]), EncodeWords(w[..n]);
      assert a == EncodeWords(v)[..4 * n] == b;
      assert Le32(v[n]) == EncodeWords(v)[4 * n..] == Le32(w[n]);
      Le32RoundTrip(v[n]);
      Le32RoundTrip(w[n]);
      EncodeIsInjective(v[..n], w[..n]);
      assert v == v[..n] + [v[n]] && w == w[..n] + [w[n]];
    }
  }

  function Padding(): (s: seq<byte>)
    ensures |s| == 64
  {
    [0x80] + Zeros(63)
  }

  lemma PaddingIs(n: nat)
    requires n < 64
    ensures Padding()[..n + 1] == [0x80] + Zeros(n)
  {
  }

  lemma EncodePair(low: uint32, high: uint32)
    ensures EncodeWords([low, high]) == Le32(low) + Le32(high)
  {
  }

  lemma PaddedAs(m: seq<byte>, z: nat)
    requires z == ZeroCount(|m|)
    ensures var bits := 8 * |m| % TWO64;
            m + ([0x80] + Zeros(z)) + (Le32(bits % TWO32) + Le32(bits / TWO32)) == Padded(m)
  {
  }

  lemma PadLength(n: nat, padLen: nat)
    requires padLen == if n % 64 < 56 then 56 - n % 64 else 120 - n % 64
    ensures 1 <= padLen <= 64 && ZeroCount(n) == padLen - 1
  {
  }

  lemma SplitCount(c0: uint32, c1: uint32, bits: nat)
    requires c0 + c1 * TWO32 == bits
    ensures c0 == bits % TWO32 && c1 == bits / TWO32
  {
  }

  // ---------- Streaming equals one-shot ----------

  function Concat(chunks: seq<seq<byte>>): seq<byte> {
    if chunks == [] then [] else Concat(chunks[..|chunks| - 1]) + chunks[|chunks| - 1]
  }

  /** However a message is divided into chunks, the context digests their concatenation. */
  method DigestChunks(compress: Compression, chunks: seq<seq<byte>>) returns (digest: seq<byte>)
    requires forall i :: 0 <= i < |chunks| ==> ChunkFits(|Concat(chunks[..i])|, |chunks[i]|)
    ensures digest == Digest(compress, Concat(chunks))
  {
    hide Fold, Padded;
    var context := new MD5Context(compress);
    context.Init();
    for i := 0 to |chunks|
      invariant context.Valid() && fresh(context.buffer) && context.compress == compress
      invariant context.msg == Concat(chunks[..i])
    {
      context.Update(chunks[i]);
      assert chunks[..i + 1][..i] == chunks[..i];
    }
    assert chunks[..|chunks|] == chunks;
    digest := context.Final();
  }

  /** The other half: for a chunk that does not fit, the loop takes every full block, and then its guard
      still holds although fewer than 64 bytes are left, so that it reads past the chunk; for a chunk that
      fits, the guard holds exactly at the full blocks. */
  lemma GuardWraps(msgLen: nat, inputLen: nat, k: nat)
    requires var partLen := 64 - msgLen % 64;
             partLen <= inputLen < TWO32 && partLen <= k <= StopAt(partLen, inputLen) && (k - partLen) % 64 == 0
    ensures var stop := StopAt(64 - msgLen % 64, inputLen);
            && (k < stop ==> k + 64 <= inputLen && (k + 63) % TWO32 < inputLen)
            && (k == stop ==> k + 64 > inputLen && ((k + 63) % TWO32 < inputLen <==> !ChunkFits(msgLen, inputLen)))
  {
    var partLen := 64 - msgLen % 64;
    NotPastStop(partLen, inputLen, k);
    if k > TWO32 - 64 {
      WrapsOnce(k + 63);
    }
  }

  /** Both halves together: the loop reads whole blocks of the chunk, at every position it comes to, if
      and only if the chunk fits. */
  lemma LoopStaysInside(msgLen: nat, inputLen: nat)
    requires 64 - msgLen % 64 <= inputLen < TWO32
    ensures var partLen := 64 - msgLen % 64;
            ChunkFits(msgLen, inputLen) <==>
            forall k :: partLen <= k <= StopAt(partLen, inputLen) && (k - partLen) % 64 == 0 ==>
              GuardHolds(k, inputLen) ==> k + 64 <= inputLen
  {
    var partLen := 64 - msgLen % 64;
    var stop := StopAt(partLen, inputLen);
    GuardWraps(msgLen, inputLen, stop);
    assert ChunkFits(msgLen, inputLen) <==> !GuardHolds(stop, inputLen);
    forall k | partLen <= k <= stop && (k - partLen) % 64 == 0 && GuardHolds(k, inputLen)
      ensures k + 64 <= inputLen || k == stop
    {
      GuardWraps(msgLen, inputLen, k);
    }
  }

  lemma WrapsOnce(x: int)
    requires TWO32 <= x < 2 * TWO32
    ensures x % TWO32 == x - TWO32
  {
  }

  /** Every chunk of at most 2^32 - 64 bytes fits, and so does any chunk under 2^32 at a block boundary. */
  lemma ChunksThatFit(msgLen: nat, inputLen: nat)
    ensures inputLen <= TWO32 - 64 ==> ChunkFits(msgLen, inputLen)
    ensures msgLen % 64 == 0 && inputLen < TWO32 ==> ChunkFits(msgLen, inputLen)
  {
    if msgLen % 64 == 0 && 64 <= inputLen < TWO32 {
      var stop := StopAt(64, inputLen);
      assert stop == 64 * (stop / 64);
    }
  }
}
