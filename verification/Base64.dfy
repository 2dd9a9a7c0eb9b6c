/** Base64 (base64.c), against section 4 of RFC 4648. */
module Base64 {
  import opened Bytes

  const PAD: byte := 0x3d
  const NUL: byte := 0
  const NO_DIGIT := 64

  type sixBits = x: int | 0 <= x < 64

  /** The alphabet: A to Z, a to z, 0 to 9, + and /. */
  function Digit(v: sixBits): byte {
    if v < 26 then 0x41 + v
    else if v < 52 then 0x61 + (v - 26)
    else if v < 62 then 0x30 + (v - 52)
    else if v == 62 then 0x2b else 0x2f
  }

  /** The decoding table. */
  function Value(c: byte): (v: int)
    ensures 0 <= v <= NO_DIGIT
  {
    if 0x41 <= c <= 0x5a then c - 0x41
    else if 0x61 <= c <= 0x7a then c - 0x61 + 26
    else if 0x30 <= c <= 0x39 then c - 0x30 + 52
    else if c == 0x2b then 62
    else if c == 0x2f then 63 else NO_DIGIT
  }

  predicate IsDigit(c: byte) {
    Value(c) < NO_DIGIT
  }

  lemma DigitsAreDigits(v: sixBits)
    ensures IsDigit(Digit(v)) && Value(Digit(v)) == v
  {
  }

  // ---------- The standard: groups of 24 bits ----------

  function Group(a: byte, b: byte, c: byte): int {
    var x: int, y: int, z: int := a, b, c;
    x * 0x1_0000 + y * 0x100 + z
  }

  function Digits(g: int): (d: seq<byte>)
    requires 0 <= g < 0x100_0000
    ensures |d| == 4
  {
    [Digit(g / 0x4_0000), Digit(g / 0x1000 % 64), Digit(g / 64 % 64), Digit(g % 64)]
  }

  function Encoding(s: seq<byte>): seq<byte> {
    if |s| == 0 then []
    else if |s| == 1 then Digits(Group(s[0], 0, 0))[..2] + [PAD, PAD]
    else if |s| == 2 then Digits(Group(s[0], s[1], 0))[..3] + [PAD]
    else Digits(Group(s[0], s[1], s[2])) + Encoding(s[3..])
  }

  function Octets(g: int): (s: seq<byte>)
    requires 0 <= g < 0x100_0000
    ensures |s| == 3
  {
    [g / 0x1_0000, g / 0x100 % 0x100, g % 0x100]
  }

  function FourValues(w: int, x: int, y: int, z: int): (g: int)
    requires 0 <= w < 64 && 0 <= x < 64 && 0 <= y < 64 && 0 <= z < 64
    ensures 0 <= g < 0x100_0000
  {
    w * 0x4_0000 + x * 0x1000 + y * 64 + z
  }

  predicate AllDigits(d: seq<byte>) {
    forall i :: 0 <= i < |d| ==> IsDigit(d[i])
  }

  /** Octets of a run of digits; the bits of an incomplete last octet are dropped. */
  function OctetsOf(d: seq<byte>): seq<byte>
    requires AllDigits(d)
  {
    if |d| <= 1 then []
    else if |d| == 2 then Octets(FourValues(Value(d[0]), Value(d[1]), 0, 0))[..1]
    else if |d| == 3 then Octets(FourValues(Value(d[0]), Value(d[1]), Value(d[2]), 0))[..2]
    else Octets(FourValues(Value(d[0]), Value(d[1]), Value(d[2]), Value(d[3]))) + OctetsOf(d[4..])
  }

  /** Number of digits up to the first character that is none. */
  function Run(s: seq<byte>): (n: nat)
    ensures n <= |s| && AllDigits(s[..n]) && (n < |s| ==> !IsDigit(s[n]))
  {
    if |s| == 0 || !IsDigit(s[0]) then 0
    else
      var n := Run(s[1..]);
      assert s[..n + 1] == [s[0]] + s[1..][..n];
      n + 1
  }

  function Decoding(s: seq<byte>): seq<byte> {
    OctetsOf(s[..Run(s)])
  }

  // ---------- Lengths ----------

  /** Including the terminating NUL. */
  function EncodeLen(len: nat): nat {
    (len + 2) / 3 * 4 + 1
  }

  function DecodeLen(coded: seq<byte>): nat {
    (Run(coded) + 3) / 4 * 3 + 1
  }

  /** Up to which length the signed 32-bit result does not overflow. */
  lemma EncodeLenFits(len: nat)
    ensures EncodeLen(len) < 0x8000_0000 <==> len <= 1610612733
  {
  }

  lemma {:induction false} EncodingLength(s: seq<byte>)
    ensures |Encoding(s)| + 1 == EncodeLen(|s|)
  {
    hide Digits, Group;
    if |s| > 2 {
      EncodingLength(s[3..]);
    }
  }

  lemma {:induction false} OctetsLength(d: seq<byte>)
    requires AllDigits(d)
    ensures |OctetsOf(d)| == |d| * 6 / 8 <= (|d| + 3) / 4 * 3
  {
    if |d| > 3 {
      OctetsLength(d[4..]);
    }
  }

  // ---------- Bits of one group ----------

  lemma GroupDigits(a: byte, b: byte, c: byte)
    ensures var g := Group(a, b, c);
            && 0 <= g < 0x100_0000
            && g / 0x4_0000 == a / 4 % 64
            && g / 0x1000 % 64 == a % 4 * 16 + b / 16
            && g / 64 % 64 == b % 16 * 4 + c / 64
            && g % 64 == c % 64
  {
    var x: int, y: int, z: int := a, b, c;
    var g := Group(a, b, c);
    assert x == x / 4 * 4 + x % 4 && y == y / 16 * 16 + y % 16 && z == z / 64 * 64 + z % 64;
    assert g == (x / 4 * 4 + x % 4) * 0x1_0000 + (y / 16 * 16 + y % 16) * 0x100 + z / 64 * 64 + z % 64;
    Split(g, x / 4, (x % 4 * 16 + y / 16) * 0x1000 + (y % 16 * 4 + z / 64) * 64 + z % 64, 0x4_0000);
    Split(g, x / 4 * 64 + (x % 4 * 16 + y / 16), (y % 16 * 4 + z / 64) * 64 + z % 64, 0x1000);
    Split(g, (x / 4 * 64 + (x % 4 * 16 + y / 16)) * 64 + (y % 16 * 4 + z / 64), z % 64, 64);
    Split(x / 4 * 64 + (x % 4 * 16 + y / 16), x / 4, x % 4 * 16 + y / 16, 64);
    Split((x / 4 * 64 + (x % 4 * 16 + y / 16)) * 64 + (y % 16 * 4 + z / 64), x / 4 * 64 + (x % 4 * 16 + y / 16),
          y % 16 * 4 + z / 64, 64);
  }

  lemma GroupOctets(w: int, x: int, y: int, z: int)
    requires 0 <= w < 64 && 0 <= x < 64 && 0 <= y < 64 && 0 <= z < 64
    ensures var g := FourValues(w, x, y, z);
            && g / 0x1_0000 == (w * 4 + x / 16) % 0x100
            && g / 0x100 % 0x100 == (x * 16 + y / 4) % 0x100
            && g % 0x100 == (y * 64 + z) % 0x100
  {
    var g := FourValues(w, x, y, z);
    assert x == x / 16 * 16 + x % 16 && y == y / 4 * 4 + y % 4;
    assert g == w * 0x4_0000 + (x / 16 * 16 + x % 16) * 0x1000 + (y / 4 * 4 + y % 4) * 64 + z;
    Split(g, w * 4 + x / 16, x % 16 * 0x1000 + y * 64 + z, 0x1_0000);
    Split(g, (w * 4 + x / 16) * 0x100 + (x % 16 * 16 + y / 4), y % 4 * 64 + z, 0x100);
    Split((w * 4 + x / 16) * 0x100 + (x % 16 * 16 + y / 4), w * 4 + x / 16, x % 16 * 16 + y / 4, 0x100);
    Split(x * 16 + y / 4, x / 16, x % 16 * 16 + y / 4, 0x100);
    Split(y * 64 + z, y / 4, y % 4 * 64 + z, 0x100);
  }

  lemma Split(n: int, q: int, r: int, m: int)
    requires m > 0 && n == q * m + r && 0 <= r < m
    ensures n / m == q && n % m == r
  {
    var d := n / m - q;
    assert d * m == r - n % m;
    assert d >= 1 ==> d * m >= m;
    assert d <= -1 ==> d * m <= -m;
  }

  /** The three octets of a group come back from its four digits. */
  lemma OctetsBack(g: int)
    requires 0 <= g < 0x100_0000
    ensures FourValues(g / 0x4_0000, g / 0x1000 % 64, g / 64 % 64, g % 64) == g
  {
    var a := g / 64;
    var b := g / 0x1000;
    assert g == a * 64 + g % 64;
    assert a == b * 64 + a % 64;
    assert b == g / 0x4_0000 * 64 + b % 64;
  }

  /** The bits of octet or digit i, and zeros beyond the end. */
  function Bits(s: seq<byte>, i: nat): int {
    if i < |s| then s[i] else 0
  }

  /** Character k of an encoding: six bits of the octets at their place, or padding where there is none. */
  ghost predicate CodedAt(s: seq<byte>, k: nat, c: byte) {
    var g := k / 4 * 3;
    match k % 4
    case 0 => c == Digit(Bits(s, g) / 4 % 64)
    case 1 => c == Digit((Bits(s, g) % 4 * 16 + Bits(s, g + 1) / 16) % 64)
    case 2 => c == if g + 1 < |s| then Digit((Bits(s, g + 1) % 16 * 4 + Bits(s, g + 2) / 64) % 64) else PAD
    case _ => c == if g + 2 < |s| then Digit(Bits(s, g + 2) % 64) else PAD
  }

  lemma CodedLater(s: seq<byte>, k: nat, c: byte)
    requires |s| > 2 && CodedAt(s[3..], k, c)
    ensures CodedAt(s, k + 4, c)
  {
    hide Digit;
    var g := k / 4 * 3;
    Split(k + 4, k / 4 + 1, k % 4, 4);
    assert Bits(s[3..], g) == Bits(s, g + 3) && Bits(s[3..], g + 1) == Bits(s, g + 4);
    assert Bits(s[3..], g + 2) == Bits(s, g + 5);
  }

  lemma FirstCoded(s: seq<byte>, k: nat)
    requires k < 4 && s != []
    ensures k < |Encoding(s)| && CodedAt(s, k, Encoding(s)[k])
  {
    hide Digit, Digits, Group;
    var d := DigitsOf(s[0], if |s| > 1 then s[1] else 0, if |s| > 2 then s[2] else 0);
    assert Encoding(s)[k] == if k <= |s| then d[k] else PAD;
    hide Encoding;
  }

  lemma {:induction false} EncodingMeaning(s: seq<byte>, k: nat)
    requires k < |Encoding(s)|
    ensures CodedAt(s, k, Encoding(s)[k])
    decreases |s|
  {
    hide Digit, Digits, Group, CodedAt;
    if k < 4 {
      FirstCoded(s, k);
    } else {
      assert Encoding(s)[k] == Encoding(s[3..])[k - 4];
      EncodingMeaning(s[3..], k - 4);
      CodedLater(s, k - 4, Encoding(s)[k]);
    }
  }

  /** Octet k of what digits stand for: eight of their bits, none of them beyond the digits. */
  ghost predicate PlainAt(d: seq<byte>, k: nat, octet: byte)
    requires AllDigits(d)
  {
    var g := k / 3 * 4;
    match k % 3
    case 0 => g + 1 < |d| && octet == Value(d[g]) * 4 + Value(d[g + 1]) / 16
    case 1 => g + 2 < |d| && octet == Value(d[g + 1]) % 16 * 16 + Value(d[g + 2]) / 4
    case _ => g + 3 < |d| && octet == Value(d[g + 2]) % 4 * 64 + Value(d[g + 3])
  }

  lemma PlainLater(d: seq<byte>, k: nat, octet: byte)
    requires AllDigits(d) && |d| > 3 && AllDigits(d[4..]) && PlainAt(d[4..], k, octet)
    ensures PlainAt(d, k + 3, octet)
  {
    hide Value, AllDigits;
    Split(k + 3, k / 3 + 1, k % 3, 3);
  }

  /** What cutting to eight bits leaves. */
  lemma CutBits(w: int, x: int, y: int, z: int)
    requires 0 <= w < 64 && 0 <= x < 64 && 0 <= y < 64 && 0 <= z < 64
    ensures (w * 4 + x / 16) % 0x100 == w * 4 + x / 16
    ensures (x * 16 + y / 4) % 0x100 == x % 16 * 16 + y / 4
    ensures (y * 64 + z) % 0x100 == y % 4 * 64 + z
  {
    assert x == x / 16 * 16 + x % 16 && y == y / 4 * 4 + y % 4;
    Split(x * 16 + y / 4, x / 16, x % 16 * 16 + y / 4, 0x100);
    Split(y * 64 + z, y / 4, y % 4 * 64 + z, 0x100);
  }

  function ValueAt(d: seq<byte>, i: nat): (v: int)
    requires AllDigits(d)
    ensures 0 <= v < 64
  {
    if i < |d| then assert IsDigit(d[i]); Value(d[i]) else 0
  }

  lemma FirstPlain(d: seq<byte>, k: nat)
    requires AllDigits(d) && k < 3 && k < |OctetsOf(d)|
    ensures PlainAt(d, k, OctetsOf(d)[k])
  {
    hide OctetsOf, AllDigits, Value, Octets, FourValues;
    OctetsLength(d);
    assert k + 1 < |d|;
    FirstOctets(d, k);
    CutBits(ValueAt(d, 0), ValueAt(d, 1), ValueAt(d, 2), ValueAt(d, 3));
  }

  lemma FirstOctets(d: seq<byte>, k: nat)
    requires AllDigits(d) && k < 3 && k < |OctetsOf(d)|
    ensures OctetsOf(d)[k] == OctetsFrom(ValueAt(d, 0), ValueAt(d, 1), ValueAt(d, 2), ValueAt(d, 3))[k]
  {
    hide Octets, FourValues, Value, AllDigits;
    assert |d| > 1;
    if |d| == 2 {
      assert OctetsOf(d) == OctetsFrom(ValueAt(d, 0), ValueAt(d, 1), 0, 0)[..1];
    } else if |d| == 3 {
      assert OctetsOf(d) == OctetsFrom(ValueAt(d, 0), ValueAt(d, 1), ValueAt(d, 2), 0)[..2];
    }
  }

  lemma {:induction false} DecodingMeaning(d: seq<byte>, k: nat)
    requires AllDigits(d) && k < |OctetsOf(d)|
    ensures PlainAt(d, k, OctetsOf(d)[k])
    decreases |d|
  {
    hide Octets, FourValues, Value, PlainAt, IsDigit;
    if k < 3 {
      FirstPlain(d, k);
    } else {
      assert OctetsOf(d)[k] == OctetsOf(d[4..])[k - 3];
      DecodingMeaning(d[4..], k - 3);
      PlainLater(d, k - 3, OctetsOf(d)[k]);
    }
  }

  // ---------- The encoder ----------

  /** The four digits of three octets, bit field by bit field. */
  function DigitsOf(a: byte, b: byte, c: byte): (d: seq<byte>)
    ensures d == Digits(Group(a, b, c))
  {
    GroupDigits(a, b, c);
    [Digit(a / 4 % 64), Digit(a % 4 * 16 + b / 16), Digit(b % 16 * 4 + c / 64), Digit(c % 64)]
  }

  /** The encoder fills exactly base64encode_len octets and returns their number. */
  method EncodeBinary(encoded: array<byte>, s: seq<byte>) returns (n: nat)
    requires EncodeLen(|s|) <= encoded.Length
    modifies encoded
    ensures n == EncodeLen(|s|)
    ensures encoded[..n] == Encoding(s) + [NUL] && encoded[n..] == old(encoded[n..])
  {
    hide Encoding, Digits, Group, Digit;
    ghost var was, done := encoded[..], [];
    var i, p := 0, 0;
    assert s[0..] == s;
    EncodingLength(s);
    while i < |s| - 2
      invariant 0 <= i <= |s| && i % 3 == 0 && p == i / 3 * 4
      invariant encoded[..p] == done && done + Encoding(s[i..]) == Encoding(s)
      invariant encoded[p..] == was[p..]
    {
      EncodingLength(s[i..]);
      ThreeEncoded(s[i..]);
      assert s[i..][3..] == s[i + 3..];
      ghost var digits := DigitsOf(s[i], s[i + 1], s[i + 2]);
      Associates(done, digits, Encoding(s[i + 3..]));
      var next := Put(encoded, p, DigitsOf(s[i], s[i + 1], s[i + 2]));
      assert encoded[next..] == was[p..][4..] == was[next..];
      done := done + digits;
      i, p := i + 3, next;
    }
    n := EncodeTail(encoded, p, s[i..]);
    assert encoded[n..] == was[n..] by {
      assert was[p..][n - p..] == was[n..];
    }
    Associates(done, Encoding(s[i..]), [NUL]);
  }

  lemma ThreeEncoded(s: seq<byte>)
    requires |s| > 2
    ensures Encoding(s) == DigitsOf(s[0], s[1], s[2]) + Encoding(s[3..])
  {
  }

  /** The last one or two octets, the padding and the NUL. */
  method EncodeTail(encoded: array<byte>, pos: nat, s: seq<byte>) returns (p: nat)
    requires |s| <= 2 && pos + EncodeLen(|s|) <= encoded.Length
    modifies encoded
    ensures p == pos + EncodeLen(|s|)
    ensures encoded[..p] == old(encoded[..pos]) + (Encoding(s) + [NUL])
    ensures encoded[p..] == old(encoded[pos..])[p - pos..]
  {
    hide Digits, Group, Digit, Encoding;
    NoneEncoded(s);
    var last: seq<byte> := [];
    if |s| > 0 {
      if |s| == 1 {
        OneEncoded(s);
        last := [Digit(s[0] / 4 % 64), Digit(s[0] % 4 * 16), PAD];
      } else {
        TwoEncoded(s);
        last := [Digit(s[0] / 4 % 64), Digit(s[0] % 4 * 16 + s[1] / 16), Digit(s[1] % 16 * 4)];
      }
      last := last + [PAD];
    }
    assert |last| + 1 == EncodeLen(|s|);
    p := Put(encoded, pos, last + [NUL]);
    assert encoded[p..] == old(encoded[pos..])[p - pos..];
  }

  lemma NoneEncoded(s: seq<byte>)
    requires |s| <= 2
    ensures |s| == 0 ==> Encoding(s) == []
    ensures |s| > 0 ==> s[0] % 4 * 16 < 64
    ensures |s| > 1 ==> s[0] % 4 * 16 + s[1] / 16 < 64 && s[1] % 16 * 4 < 64
  {
    hide Digits, Group;
  }

  lemma OneEncoded(s: seq<byte>)
    requires |s| == 1
    ensures Encoding(s) == [Digit(s[0] / 4 % 64), Digit(s[0] % 4 * 16), PAD] + [PAD]
  {
    hide Group, Digits, Digit;
    var d := DigitsOf(s[0], 0, 0);
    assert d[..2] == [Digit(s[0] / 4 % 64), Digit(s[0] % 4 * 16)];
    assert Encoding(s) == d[..2] + [PAD, PAD];
  }

  lemma TwoEncoded(s: seq<byte>)
    requires |s| == 2
    ensures Encoding(s) == [Digit(s[0] / 4 % 64), Digit(s[0] % 4 * 16 + s[1] / 16), Digit(s[1] % 16 * 4)] + [PAD]
  {
    hide Group, Digits, Digit;
    var d := DigitsOf(s[0], s[1], 0);
    assert d[..3] == [Digit(s[0] / 4 % 64), Digit(s[0] % 4 * 16 + s[1] / 16), Digit(s[1] % 16 * 4)];
    assert Encoding(s) == d[..3] + [PAD];
  }

  // ---------- The decoder ----------

  /** The three octets of four values, each cut to eight bits. */
  function OctetsFrom(w: int, x: int, y: int, z: int): (s: seq<byte>)
    requires 0 <= w < 64 && 0 <= x < 64 && 0 <= y < 64 && 0 <= z < 64
    ensures s == Octets(FourValues(w, x, y, z))
  {
    GroupOctets(w, x, y, z);
    [(w * 4 + x / 16) % 0x100, (x * 16 + y / 4) % 0x100, (y * 64 + z) % 0x100]
  }

  /** How many digits lead the text; the search stops at the first other character. */
  method CountDigits(coded: seq<byte>) returns (n: nat)
    requires exists i :: 0 <= i < |coded| && !IsDigit(coded[i])
    ensures n == Run(coded)
  {
    n := 0;
    while IsDigit(coded[n])
      invariant n < |coded| && AllDigits(coded[..n])
      invariant exists i :: n <= i < |coded| && !IsDigit(coded[i])
      decreases |coded| - n
    {
      n := n + 1;
    }
    RunIs(coded, n);
  }

  lemma RunIs(s: seq<byte>, n: nat)
    requires n < |s| && AllDigits(s[..n]) && !IsDigit(s[n])
    ensures Run(s) == n
  {
  }

  /** All groups of four digits but the last. */
  method DecodeGroups(plain: array<byte>, digits: seq<byte>) returns (i: nat, p: nat)
    requires AllDigits(digits) && (|digits| + 3) / 4 * 3 <= plain.Length
    modifies plain
    ensures i <= |digits| && i % 4 == 0 && |digits| - i <= 4 && (i == |digits| ==> i == 0)
    ensures p == i / 4 * 3 && AllDigits(digits[i..])
    ensures plain[..p] + OctetsOf(digits[i..]) == OctetsOf(digits) && plain[p..] == old(plain[p..])
  {
    hide OctetsOf, Octets, FourValues, Value, AllDigits;
    ghost var was, rest := plain[..], digits;
    i, p := 0, 0;
    assert digits[0..] == digits;
    assert plain[..p] + OctetsOf(digits) == OctetsOf(digits);
    while |digits| - i > 4
      invariant i <= |digits| && i % 4 == 0 && p == i / 4 * 3 && (i == |digits| ==> i == 0)
      invariant rest == digits[i..] && AllDigits(rest)
      invariant plain[p..] == was[p..]
      invariant plain[..p] + OctetsOf(rest) == OctetsOf(digits)
    {
      FourDecoded(rest);
      ghost var done := plain[..p];
      var octets := OctetsFrom(Value(digits[i]), Value(digits[i + 1]), Value(digits[i + 2]), Value(digits[i + 3]));
      Associates(done, octets, OctetsOf(rest[4..]));
      var next := Put(plain, p, octets);
      assert plain[next..] == was[p..][3..] == was[next..];
      rest := rest[4..];
      i, p := i + 4, next;
    }
  }

  /** The text must end in some character that is no digit, such as its NUL. The decoder returns exactly
      the number of octets it writes, and leaves room for a NUL behind them in base64decode_len octets. */
  method DecodeBinary(plain: array<byte>, coded: seq<byte>) returns (n: nat)
    requires exists i :: 0 <= i < |coded| && !IsDigit(coded[i])
    requires DecodeLen(coded) - 1 <= plain.Length
    modifies plain
    ensures n == |Decoding(coded)| < DecodeLen(coded) && n <= plain.Length
    ensures plain[..n] == Decoding(coded) && plain[n..] == old(plain[n..])
  {
    hide OctetsOf, Octets, FourValues, Value, IsDigit, AllDigits;
    ghost var was := plain[..];
    var count := CountDigits(coded);
    var decoded := (count + 3) / 4 * 3;
    var digits := coded[..count];
    var i, p := DecodeGroups(plain, digits);
    var left := count - i;
    DecodedOctets(digits, i);
    ghost var end := DecodeTail(plain, p, digits[i..]);
    assert was[p..][end - p..] == was[end..];
    n := decoded - (4 - left) % 4;
  }

  lemma DecodedOctets(digits: seq<byte>, i: nat)
    requires AllDigits(digits) && i % 4 == 0 && i <= |digits| <= i + 4 && (i == |digits| ==> i == 0)
    requires AllDigits(digits[i..])
    ensures var whole := (|digits| + 3) / 4 * 3;
            && |OctetsOf(digits)| <= whole
            && i / 4 * 3 + |OctetsOf(digits[i..])| == whole - (4 - (|digits| - i)) % 4
            && (i < |digits| ==> i / 4 * 3 + 3 <= whole)
  {
    DecodedCount(i, |digits| - i);
    OctetsLength(digits);
    OctetsLength(digits[i..]);
  }

  /** Rounding up to whole groups and taking off what the last one lacks. */
  lemma DecodedCount(i: nat, left: nat)
    requires i % 4 == 0 && left <= 4 && (left == 0 ==> i == 0)
    ensures (i + left + 3) / 4 * 3 - (4 - left) % 4 == i / 4 * 3 + left * 6 / 8
    ensures left > 0 ==> i / 4 * 3 + 3 <= (i + left + 3) / 4 * 3
  {
  }

  lemma FourDecoded(d: seq<byte>)
    requires AllDigits(d) && |d| >= 4
    ensures Value(d[0]) < 64 && Value(d[1]) < 64 && Value(d[2]) < 64 && Value(d[3]) < 64
    ensures OctetsOf(d) == OctetsFrom(Value(d[0]), Value(d[1]), Value(d[2]), Value(d[3])) + OctetsOf(d[4..])
    ensures AllDigits(d[4..])
  {
  }

  /** The last group: up to three octets, one fewer than there are digits. */
  method DecodeTail(plain: array<byte>, pos: nat, d: seq<byte>) returns (p: nat)
    requires AllDigits(d) && |d| <= 4 && pos + (if |d| == 0 then 0 else 3) <= plain.Length
    modifies plain
    ensures p == pos + |OctetsOf(d)| <= plain.Length
    ensures plain[..p] == old(plain[..pos]) + OctetsOf(d)
    ensures plain[p..] == old(plain[pos..])[p - pos..]
  {
    TailOctets(d);
    hide OctetsOf, Octets, FourValues, Value, IsDigit;
    var last: seq<byte> := [];
    if |d| > 1 {
      last := last + [(Value(d[0]) * 4 + Value(d[1]) / 16) % 0x100];
    }
    if |d| > 2 {
      last := last + [(Value(d[1]) * 16 + Value(d[2]) / 4) % 0x100];
    }
    if |d| > 3 {
      last := last + [(Value(d[2]) * 64 + Value(d[3])) % 0x100];
    }
    assert last == OctetsOf(d);
    p := Put(plain, pos, last);
    assert plain[p..] == old(plain[pos..])[p - pos..];
  }

  lemma TailOctets(d: seq<byte>)
    requires AllDigits(d) && |d| <= 4
    ensures OctetsOf(d) ==
            (if |d| > 1 then [(Value(d[0]) * 4 + Value(d[1]) / 16) % 0x100] else [])
            + (if |d| > 2 then [(Value(d[1]) * 16 + Value(d[2]) / 4) % 0x100] else [])
            + (if |d| > 3 then [(Value(d[2]) * 64 + Value(d[3])) % 0x100] else [])
  {
    hide Octets, FourValues, Value;
    assert forall i :: 0 <= i < |d| ==> IsDigit(d[i]);
    if |d| == 2 {
      var s := OctetsFrom(Value(d[0]), Value(d[1]), 0, 0);
      assert s[..1] == [(Value(d[0]) * 4 + Value(d[1]) / 16) % 0x100];
    } else if |d| == 3 {
      var s := OctetsFrom(Value(d[0]), Value(d[1]), Value(d[2]), 0);
      assert s[..2] == [(Value(d[0]) * 4 + Value(d[1]) / 16) % 0x100, (Value(d[1]) * 16 + Value(d[2]) / 4) % 0x100];
    } else if |d| == 4 {
      LastGroup(d);
    }
  }

  lemma LastGroup(d: seq<byte>)
    requires AllDigits(d) && |d| == 4
    ensures OctetsOf(d) == OctetsFrom(Value(d[0]), Value(d[1]), Value(d[2]), Value(d[3]))
  {
  }

  /** base64decode: the octets and a NUL. */
  method Decode(plain: array<byte>, coded: seq<byte>) returns (len: nat)
    requires exists i :: 0 <= i < |coded| && !IsDigit(coded[i])
    requires DecodeLen(coded) <= plain.Length
    modifies plain
    ensures len == |Decoding(coded)| < plain.Length
    ensures plain[..len + 1] == Decoding(coded) + [NUL]
  {
    hide Decoding, IsDigit;
    len := DecodeBinary(plain, coded);
    plain[len] := NUL;
    assert plain[..len + 1] == plain[..len] + [NUL];
  }

  // ---------- Round trip ----------

  /** Decoding what was encoded, whatever stands behind it that is no digit. */
  lemma RoundTrip(s: seq<byte>, rest: seq<byte>)
    requires |rest| > 0 && !IsDigit(rest[0])
    ensures Decoding(Encoding(s) + rest) == s
  {
    EncodingDecodes(s);
    assert !IsDigit(PAD);
    var d := DigitsIn(s);
    hide Encoding, IsDigit, DigitsIn, AllDigits, OctetsOf;
    var whole := Encoding(s) + rest;
    assert whole[..|d|] == d;
    assert whole[|d|] == if |d| < |Encoding(s)| then PAD else rest[0];
    RunIs(whole, |d|);
  }

  /** The digits of an encoding, without the padding. */
  function DigitsIn(s: seq<byte>): seq<byte> {
    if |s| == 0 then []
    else if |s| == 1 then Digits(Group(s[0], 0, 0))[..2]
    else if |s| == 2 then Digits(Group(s[0], s[1], 0))[..3]
    else Digits(Group(s[0], s[1], s[2])) + DigitsIn(s[3..])
  }

  lemma DigitsDecode(a: byte, b: byte, c: byte)
    ensures var d := Digits(Group(a, b, c));
            && AllDigits(d)
            && Octets(FourValues(Value(d[0]), Value(d[1]), Value(d[2]), Value(d[3]))) == [a, b, c]
  {
    var g := Group(a, b, c);
    var d := Digits(g);
    GroupDigits(a, b, c);
    DigitsAreDigits(g / 0x4_0000);
    DigitsAreDigits(g / 0x1000 % 64);
    DigitsAreDigits(g / 64 % 64);
    DigitsAreDigits(g % 64);
    OctetsBack(g);
    hide Value, Digit;
    var x: int, y: int, z: int := a, b, c;
    Split(g, x, y * 0x100 + z, 0x1_0000);
    Split(g, x * 0x100 + y, z, 0x100);
    Split(x * 0x100 + y, x, y, 0x100);
  }

  lemma {:induction false} EncodingDecodes(s: seq<byte>)
    ensures AllDigits(DigitsIn(s)) && OctetsOf(DigitsIn(s)) == s
    ensures DigitsIn(s) <= Encoding(s)
    ensures |DigitsIn(s)| < |Encoding(s)| ==> Encoding(s)[|DigitsIn(s)|] == PAD
  {
    if |s| > 2 {
      var d := Digits(Group(s[0], s[1], s[2]));
      DigitsDecode(s[0], s[1], s[2]);
      EncodingDecodes(s[3..]);
      hide Digits, Group, Octets, FourValues;
      assert DigitsIn(s)[4..] == DigitsIn(s[3..]);
      assert s == [s[0], s[1], s[2]] + s[3..];
    } else if |s| == 2 {
      TwoDecodes(s);
    } else if |s| == 1 {
      OneDecodes(s);
    }
  }

  lemma OneDecodes(s: seq<byte>)
    requires |s| == 1
    ensures AllDigits(DigitsIn(s)) && OctetsOf(DigitsIn(s)) == s
  {
    DigitsDecode(s[0], 0, 0);
    var d := DigitsOf(s[0], 0, 0);
    DigitsAreDigits(0);
    hide Group, Digits, Digit, Value, Octets, FourValues;
    assert d[2] == d[3] == Digit(0);
    assert DigitsIn(s) == d[..2];
  }

  lemma TwoDecodes(s: seq<byte>)
    requires |s| == 2
    ensures AllDigits(DigitsIn(s)) && OctetsOf(DigitsIn(s)) == s
  {
    DigitsDecode(s[0], s[1], 0);
    var d := DigitsOf(s[0], s[1], 0);
    DigitsAreDigits(0);
    hide Group, Digits, Digit, Value, Octets, FourValues;
    assert d[3] == Digit(0);
    assert DigitsIn(s) == d[..3];
  }
}
