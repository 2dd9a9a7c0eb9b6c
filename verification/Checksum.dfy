/** The Internet checksum (net_cksm.c), against the one's complement sum of section 1 of RFC 1071. The
    code adds words in the host's own byte order, which is a parameter here. */
module Checksum {
  import opened Bytes

  const INT_MAX := 0x7fff_ffff

  type int32 = x: int | -0x8000_0000 <= x <= INT_MAX

  datatype ByteOrder = BigEndian | LittleEndian

  /** The 16-bit word that two neighbouring octets hold. */
  function Word(order: ByteOrder, first: byte, second: byte): uint16 {
    var a: int, b: int := first, second;
    if order.BigEndian? then a * 0x100 + b else b * 0x100 + a
  }

  /** The octets a word is stored as. */
  function StoredWord(order: ByteOrder, v: uint16): seq<byte> {
    if order.BigEndian? then [v / 0x100, v % 0x100] else [v % 0x100, v / 0x100]
  }

  /** The plain sum of all words, an odd octet being followed by a zero. */
  function Total(order: ByteOrder, s: seq<byte>): nat {
    if |s| == 0 then 0
    else if |s| == 1 then Word(order, s[0], 0)
    else Word(order, s[0], s[1]) + Total(order, s[2..])
  }

  // ---------- One's complement arithmetic ----------

  /** Addition with end-around carry. */
  function OnesAdd(a: uint16, b: uint16): uint16 {
    if a + b >= TWO16 then a + b - TWO16 + 1 else a + b
  }

  function OnesSum(order: ByteOrder, s: seq<byte>): uint16 {
    if |s| == 0 then 0
    else if |s| == 1 then Word(order, s[0], 0)
    else OnesAdd(Word(order, s[0], s[1]), OnesSum(order, s[2..]))
  }

  /** The representative of a sum: 0 only for 0 itself. */
  function Norm(t: nat): uint16 {
    if t == 0 then 0 else (t - 1) % 0xffff + 1
  }

  lemma NormIs(t: nat, q: int, v: uint16)
    requires t == q * 0xffff + v && 1 <= v && t > 0
    ensures Norm(t) == v
  {
  }

  lemma NormMeans(t: nat) returns (q: int)
    requires t > 0
    ensures t == q * 0xffff + Norm(t) && 1 <= Norm(t)
  {
    q := (t - 1) / 0xffff;
  }

  lemma NormAdds(a: uint16, t: nat)
    ensures Norm(a + t) == OnesAdd(a, Norm(t))
  {
  }

  /** Summing plainly and reducing at the end is summing with end-around carries. */
  lemma {:induction false} SumIsOnesSum(order: ByteOrder, s: seq<byte>)
    ensures Norm(Total(order, s)) == OnesSum(order, s)
  {
    if |s| == 1 {
      NormAdds(Word(order, s[0], 0), 0);
    } else if |s| > 1 {
      SumIsOnesSum(order, s[2..]);
      hide OnesAdd, Norm, Word;
      NormAdds(Word(order, s[0], s[1]), Total(order, s[2..]));
    }
  }

  // ---------- in_cksum ----------

  /** The sum is a signed 32-bit integer, which must not overflow. */
  method InCksum(order: ByteOrder, s: seq<byte>) returns (answer: uint16)
    requires Total(order, s) <= INT_MAX
    ensures answer == 0xffff - OnesSum(order, s)
  {
    var nleft, w := |s|, 0;
    var sum: int32 := 0;
    assert s[0..] == s;
    while nleft > 1
      invariant 0 <= nleft && w + nleft == |s|
      invariant 0 <= sum && sum + Total(order, s[w..]) == Total(order, s)
    {
      assert s[w..][2..] == s[w + 2..];
      sum := sum + Word(order, s[w], s[w + 1]);
      w, nleft := w + 2, nleft - 2;
    }
    if nleft == 1 {
      sum := sum + Word(order, s[w], 0);
    }
    assert sum == Total(order, s);
    SumIsOnesSum(order, s);
    FoldsReduce(sum);
    hide Total, OnesSum, Norm;
    sum := sum / TWO16 + sum % TWO16;
    sum := sum + sum / TWO16;
    answer := (-sum - 1) % TWO16;
  }

  lemma FoldsReduce(t: nat)
    requires t <= INT_MAX
    ensures var once := t / TWO16 + t % TWO16;
            var twice := once + once / TWO16;
            && twice <= INT_MAX && (-twice - 1) % TWO16 == 0xffff - Norm(t)
  {
    var once := t / TWO16 + t % TWO16;
    var twice := once + once / TWO16;
    if t > 0 {
      if once < TWO16 {
        NormIs(t, t / TWO16, once);
      } else {
        NormIs(t, t / TWO16 + 1, once - 0xffff);
      }
    }
  }

  /** No data of up to 65536 octets overflows the sum; longer data can. */
  lemma {:induction false} TotalBound(order: ByteOrder, s: seq<byte>)
    ensures 2 * Total(order, s) <= 0xffff * (|s| + |s| % 2)
    ensures |s| <= 0x1_0000 ==> Total(order, s) <= INT_MAX
  {
    if |s| > 1 {
      TotalBound(order, s[2..]);
    }
  }

  lemma {:induction false} OverflowIsPossible(order: ByteOrder, s: seq<byte>)
    requires |s| % 2 == 0 && forall i :: 0 <= i < |s| ==> s[i] == 0xff
    ensures 2 * Total(order, s) == 0xffff * |s|
    ensures |s| == 0x1_0002 ==> Total(order, s) > INT_MAX
  {
    if |s| > 1 {
      OverflowIsPossible(order, s[2..]);
    }
  }

  // ---------- Verification by the receiver ----------

  lemma {:induction false} TotalSplits(order: ByteOrder, s: seq<byte>, k: nat)
    requires k % 2 == 0 && k <= |s|
    ensures Total(order, s) == Total(order, s[..k]) + Total(order, s[k..])
  {
    if k == 0 {
      assert s[..k] == [] && s[k..] == s;
    } else {
      TotalSplits(order, s[2..], k - 2);
      assert s[2..][..k - 2] == s[..k][2..] && s[2..][k - 2..] == s[k..];
      hide Word;
    }
  }

  /** The data with a word put in at k. */
  function WithWord(order: ByteOrder, s: seq<byte>, k: nat, v: uint16): seq<byte>
    requires k + 2 <= |s|
  {
    s[..k] + StoredWord(order, v) + s[k + 2..]
  }

  lemma WordAdds(order: ByteOrder, s: seq<byte>, k: nat, v: uint16)
    requires k % 2 == 0 && k + 2 <= |s| && s[k] == s[k + 1] == 0
    ensures Total(order, WithWord(order, s, k, v)) == Total(order, s) + v
  {
    var t := WithWord(order, s, k, v);
    TotalSplits(order, s, k);
    TotalSplits(order, t, k);
    assert t[..k] == s[..k] && t[k..] == StoredWord(order, v) + s[k + 2..];
    assert t[k..][2..] == s[k..][2..] == s[k + 2..];
    assert Word(order, t[k], t[k + 1]) == v;
    assert Word(order, s[k], s[k + 1]) == 0;
    hide Word, StoredWord;
  }

  /** Storing the checksum in an aligned word that was zero makes the checksum of the data zero. */
  lemma StoredChecksumVerifies(order: ByteOrder, s: seq<byte>, k: nat)
    requires k % 2 == 0 && k + 2 <= |s| && s[k] == s[k + 1] == 0
    ensures 0xffff - OnesSum(order, WithWord(order, s, k, 0xffff - OnesSum(order, s))) == 0
  {
    var t, v := Total(order, s), 0xffff - OnesSum(order, s);
    SumIsOnesSum(order, s);
    SumIsOnesSum(order, WithWord(order, s, k, v));
    WordAdds(order, s, k, v);
    hide Total, OnesSum, WithWord;
    if t == 0 {
      NormIs(v, 0, v);
    } else {
      var q := NormMeans(t);
      NormIs(t + v, q, 0xffff);
    }
  }

  // ---------- Byte order ----------

  /** The octets in odd places. */
  function Seconds(s: seq<byte>): nat {
    if |s| < 2 then 0 else s[1] + Seconds(s[2..])
  }

  lemma {:induction false} TotalsRelate(s: seq<byte>)
    ensures Total(BigEndian, s) + 0xffff * Seconds(s) == 0x100 * Total(LittleEndian, s)
  {
    if |s| > 1 {
      TotalsRelate(s[2..]);
    }
  }

  function Swapped(v: uint16): uint16 {
    v % 0x100 * 0x100 + v / 0x100
  }

  /** Hosts of either byte order store the same two octets as the checksum of the same data. */
  lemma SameOctets(s: seq<byte>)
    ensures StoredWord(BigEndian, 0xffff - OnesSum(BigEndian, s))
         == StoredWord(LittleEndian, 0xffff - OnesSum(LittleEndian, s))
  {
    var big, little := Total(BigEndian, s), Total(LittleEndian, s);
    SumIsOnesSum(BigEndian, s);
    SumIsOnesSum(LittleEndian, s);
    TotalsRelate(s);
    ZeroTogether(s);
    hide Total, OnesSum, Seconds, Norm, Swapped, StoredWord;
    NormsSwap(big, little, Seconds(s));
    SwapStored(Norm(little));
  }

  lemma {:induction false} ZeroTogether(s: seq<byte>)
    ensures Total(BigEndian, s) == 0 <==> Total(LittleEndian, s) == 0
  {
    if |s| > 1 {
      ZeroTogether(s[2..]);
    }
  }

  lemma SwapStored(v: uint16)
    ensures StoredWord(BigEndian, 0xffff - Swapped(v)) == StoredWord(LittleEndian, 0xffff - v)
  {
    var hi: int, lo: int := v / 0x100, v % 0x100;
    HighAndLow(0xffff - v, 0xff - hi, 0xff - lo);
    HighAndLow(0xffff - Swapped(v), 0xff - lo, 0xff - hi);
  }

  lemma HighAndLow(v: int, hi: int, lo: int)
    requires v == hi * 0x100 + lo && 0 <= lo < 0x100
    ensures v / 0x100 == hi && v % 0x100 == lo
  {
  }

  lemma NormsSwap(big: nat, little: nat, h: nat)
    requires big + 0xffff * h == 0x100 * little
    requires big == 0 <==> little == 0
    ensures Norm(big) == Swapped(Norm(little))
  {
    if little > 0 {
      var q := NormMeans(little);
      var v: int := Norm(little);
      assert 0x100 * v == Swapped(v) + 0xffff * (v / 0x100);
      assert big == (0x100 * q - h + v / 0x100) * 0xffff + Swapped(v);
      NormIs(big, 0x100 * q - h + v / 0x100, Swapped(v));
    }
  }
}
