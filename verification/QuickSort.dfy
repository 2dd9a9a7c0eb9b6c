/** The sentinel quicksort of deque.c, in place on an array. */
module Sorting {

  /** Comp returns a negative, zero or positive number and orders the data totally, up to ties. */
  ghost predicate TotalPreorder<T(!new)>(cmp: (T, T) -> int) {
    && (forall x, y :: cmp(x, y) < 0 <==> cmp(y, x) > 0)
    && (forall x, y, z :: cmp(x, y) <= 0 && cmp(y, z) <= 0 ==> cmp(x, z) <= 0)
  }

  ghost predicate Sorted<T>(s: seq<T>, cmp: (T, T) -> int) {
    forall i, j :: 0 <= i <= j < |s| ==> cmp(s[i], s[j]) <= 0
  }

  ghost predicate AllAtMost<T>(s: seq<T>, bound: T, cmp: (T, T) -> int) {
    forall i :: 0 <= i < |s| ==> cmp(s[i], bound) <= 0
  }

  ghost predicate AllAtLeast<T>(s: seq<T>, bound: T, cmp: (T, T) -> int) {
    forall i :: 0 <= i < |s| ==> cmp(bound, s[i]) <= 0
  }

  lemma SwapInRange<T>(s: seq<T>, t: seq<T>, low: nat, high: nat, a: nat, b: nat)
    requires low <= a < high <= |s| && low <= b < high && |t| == |s|
    requires t == s[a := s[b]][b := s[a]]
    ensures multiset(t[low..high]) == multiset(s[low..high])
    ensures t[..low] == s[..low] && t[high..] == s[high..]
  {
  }

  lemma SameSuffix<T>(s: seq<T>, t: seq<T>, n: nat, a: nat, b: nat)
    requires n <= a <= b <= |s| == |t| && t[n..] == s[n..]
    ensures t[a..b] == s[a..b]
  {
  }

  lemma PermutationKeepsBounds<T>(s: seq<T>, t: seq<T>, bound: T, cmp: (T, T) -> int)
    requires multiset(s) == multiset(t)
    ensures AllAtMost(s, bound, cmp) ==> AllAtMost(t, bound, cmp)
    ensures AllAtLeast(s, bound, cmp) ==> AllAtLeast(t, bound, cmp)
  {
    forall i | 0 <= i < |t|
      ensures exists k :: 0 <= k < |s| && s[k] == t[i]
    {
      assert t[i] in multiset(t);
      assert t[i] in s;
    }
  }

  /** Everything strictly between from and to is below the key. */
  ghost predicate Below<T>(s: seq<T>, from: nat, to: nat, key: T, cmp: (T, T) -> int) {
    forall k :: from < k < to && k < |s| ==> cmp(s[k], key) < 0
  }

  /** Everything strictly between from and to is above the key. */
  ghost predicate Above<T>(s: seq<T>, from: nat, to: nat, key: T, cmp: (T, T) -> int) {
    forall k :: from < k < to && k < |s| ==> cmp(key, s[k]) < 0
  }

  /** The next slot above i0 whose element is not below the key; false if that would be beyond the slot
      that follows the range, where the original reads on. */
  method ScanUp<T(!new)>(list: array<T>, i0: nat, high: nat, key: T, cmp: (T, T) -> int)
    returns (inside: bool, i: nat)
    requires TotalPreorder(cmp)
    requires i0 <= high && high + 1 < list.Length
    ensures i0 < i <= high + 1 && Below(list[..], i0, i, key, cmp)
    ensures inside <==> cmp(list[i], key) >= 0
    ensures inside <==> cmp(key, list[i]) <= 0
    ensures !inside ==> i == high + 1
  {
    i := i0 + 1;
    while cmp(list[i], key) < 0
      invariant i0 < i <= high + 1
      invariant forall k :: i0 < k < i ==> cmp(list[k], key) < 0
      decreases high + 1 - i
    {
      if i == high + 1 {
        return false, i;
      }
      i := i + 1;
    }
    inside := true;
  }

  /** The next slot below j0 whose element is not above the key. */
  method ScanDown<T(!new)>(list: array<T>, j0: nat, ghost stop: nat, key: T, cmp: (T, T) -> int) returns (j: nat)
    requires TotalPreorder(cmp)
    requires stop < j0 <= list.Length && cmp(list[stop], key) <= 0
    ensures stop <= j < j0 && cmp(list[j], key) <= 0
    ensures Above(list[..], j, j0, key, cmp)
  {
    j := j0 - 1;
    while cmp(list[j], key) > 0
      invariant stop <= j < j0
      invariant forall k :: j < k < j0 ==> cmp(key, list[k]) < 0
      decreases j
    {
      j := j - 1;
    }
  }

  // ---------- The partition on values ----------

  /** The next position above i that is not below the first element, or the length. */
  function UpFrom<T>(s: seq<T>, i: nat, cmp: (T, T) -> int): (k: nat)
    requires i < |s|
    ensures i < k <= |s|
    decreases |s| - i
  {
    if i + 1 == |s| || cmp(s[i + 1], s[0]) >= 0 then i + 1 else UpFrom(s, i + 1, cmp)
  }

  /** The next position below j that is not above the first element. */
  function DownFrom<T>(s: seq<T>, j: nat, cmp: (T, T) -> int): (k: nat)
    requires 0 < j <= |s|
    ensures k < j
  {
    if j == 1 || cmp(s[j - 1], s[0]) <= 0 then j - 1 else DownFrom(s, j - 1, cmp)
  }

  function Exchanged<T>(s: seq<T>, i: nat, j: nat): (t: seq<T>)
    requires i < |s| && j < |s|
    ensures |t| == |s|
  {
    s[i := s[j]][j := s[i]]
  }

  /** The partition by the first element, and where that element ends. */
  function Parted<T>(s: seq<T>, i: nat, j: nat, cmp: (T, T) -> int): (r: (seq<T>, nat))
    requires i < j <= |s|
    ensures |r.0| == |s| && r.1 < |s|
    decreases j
  {
    var up, down := UpFrom(s, i, cmp), DownFrom(s, j, cmp);
    if up < down then Parted(Exchanged(s, up, down), up, down, cmp) else (Exchanged(s, 0, down), down)
  }

  /** Whether sorting s compares what stands behind it: at once if the first element exceeds all others,
      and otherwise if sorting the part above that element does. */
  ghost predicate Compares<T>(s: seq<T>, cmp: (T, T) -> int)
    decreases |s|
  {
    && |s| >= 2
    && (KeyIsTop(s, 0, |s| - 1, cmp) ||
        var (t, j) := Parted(s, 0, |s|, cmp);
        Compares(t[j + 1..], cmp))
  }

  lemma {:induction false} UpFromIs<T>(s: seq<T>, low: nat, high: nat, i0: nat, i: nat, cmp: (T, T) -> int)
    requires low <= i0 < i <= high + 1 <= |s| && Below(s, i0, i, s[low], cmp)
    requires i <= high ==> cmp(s[i], s[low]) >= 0
    ensures UpFrom(s[low..high + 1], i0 - low, cmp) == i - low
    decreases i - i0
  {
    if i0 + 1 < i {
      UpFromIs(s, low, high, i0 + 1, i, cmp);
    }
  }

  lemma {:induction false} DownFromIs<T(!new)>(s: seq<T>, low: nat, high: nat, j: nat, j0: nat, cmp: (T, T) -> int)
    requires TotalPreorder(cmp) && low <= j < j0 <= high + 1 <= |s|
    requires cmp(s[j], s[low]) <= 0 && Above(s, j, j0, s[low], cmp)
    ensures DownFrom(s[low..high + 1], j0 - low, cmp) == j - low
    decreases j0 - j
  {
    if j + 1 < j0 {
      DownFromIs(s, low, high, j, j0 - 1, cmp);
    }
  }

  lemma ExchangedIs<T>(s: seq<T>, low: nat, high: nat, i: nat, j: nat)
    requires low <= i <= high < |s| && low <= j <= high
    ensures s[i := s[j]][j := s[i]][low..high + 1] == Exchanged(s[low..high + 1], i - low, j - low)
  {
  }

  lemma KeyIsTopIs<T>(s: seq<T>, low: nat, high: nat, cmp: (T, T) -> int)
    requires low < high < |s|
    ensures KeyIsTop(s, low, high, cmp) <==> KeyIsTop(s[low..high + 1], 0, high - low, cmp)
  {
    var range := s[low..high + 1];
    assert forall k :: 0 < k <= high - low ==> range[k] == s[low + k];
    assert forall k :: low < k <= high ==> s[k] == range[k - low];
  }

  /** The partition on values, taken up at i and j, comes to goal. */
  ghost predicate LeadsTo<T>(s: seq<T>, low: nat, high: nat, i: nat, j: nat, goal: (seq<T>, nat), cmp: (T, T) -> int) {
    && low <= i < j <= high + 1 <= |s|
    && Parted(s[low..high + 1], i - low, j - low, cmp) == goal
  }

  /** Only the key has still to be exchanged with j. */
  ghost predicate EndsAt<T>(s: seq<T>, low: nat, high: nat, j: nat, goal: (seq<T>, nat)) {
    low <= j <= high < |s| && (Exchanged(s[low..high + 1], 0, j - low), j - low) == goal
  }

  lemma ScansLead<T(!new)>(s: seq<T>, low: nat, high: nat, i0: nat, j0: nat, i: nat, j: nat, goal: (seq<T>, nat),
                           cmp: (T, T) -> int)
    requires TotalPreorder(cmp) && LeadsTo(s, low, high, i0, j0, goal, cmp)
    requires i0 < i <= high + 1 && Below(s, i0, i, s[low], cmp) && (i <= high ==> cmp(s[i], s[low]) >= 0)
    requires low <= j < j0 && cmp(s[j], s[low]) <= 0 && Above(s, j, j0, s[low], cmp)
    ensures i < j ==> LeadsTo(s[i := s[j]][j := s[i]], low, high, i, j, goal, cmp)
    ensures j <= i ==> EndsAt(s, low, high, j, goal)
  {
    hide Below, Above, TotalPreorder;
    UpFromIs(s, low, high, i0, i, cmp);
    DownFromIs(s, low, high, j, j0, cmp);
    if i < j {
      ExchangedIs(s, low, high, i, j);
    }
  }

  // ---------- The partition in place ----------

  /** What the rounds keep: the key in its slot, small elements up to i, large ones from j on. */
  ghost predicate Round<T>(s: seq<T>, start: seq<T>, low: nat, high: nat, i: nat, j: nat, cmp: (T, T) -> int) {
    && low <= i && low < high < |s| == |start| && j <= high + 1
    && s[low] == start[low]
    && s[..low] == start[..low] && s[high + 1..] == start[high + 1..]
    && multiset(s[low..high + 1]) == multiset(start[low..high + 1])
    && (forall k :: low < k <= i && k <= high ==> cmp(s[k], s[low]) <= 0)
    && (forall k :: j <= k <= high ==> cmp(s[low], s[k]) <= 0)
  }

  /** Nothing in low..high exceeds its last element. */
  ghost predicate MaxLast<T>(s: seq<T>, low: nat, high: int, cmp: (T, T) -> int)
    requires low <= high < |s|
  {
    AllAtMost(s[low..high + 1], s[high], cmp)
  }

  /** Nothing in low..high exceeds what stands in the slot after it. */
  ghost predicate SlotBounds<T>(s: seq<T>, low: nat, high: int, cmp: (T, T) -> int)
    requires low <= high + 1 < |s|
  {
    AllAtMost(s[low..high + 1], s[high + 1], cmp)
  }

  lemma Between<T(!new)>(s: seq<T>, x: T, y: T, z: T, cmp: (T, T) -> int)
    requires TotalPreorder(cmp) && AllAtMost(s, x, cmp) && cmp(x, y) <= 0 && cmp(y, z) <= 0
    ensures AllAtMost(s, z, cmp)
  {
  }

  lemma SwapKeepsMaxLast<T(!new)>(s: seq<T>, t: seq<T>, low: nat, high: nat, i: nat, j: nat, cmp: (T, T) -> int)
    requires TotalPreorder(cmp) && low < i < j <= high < |s| && MaxLast(s, low, high, cmp)
    requires cmp(s[low], s[i]) <= 0 && cmp(s[j], s[low]) <= 0
    requires t == s[i := s[j]][j := s[i]]
    ensures MaxLast(t, low, high, cmp)
  {
    hide TotalPreorder, AllAtMost;
    SwapInRange(s, t, low, high + 1, i, j);
    LastKept(s[low..high + 1], t[low..high + 1], s[high], s[low], t[high], cmp);
  }

  /** If the last slot bounds the range, so does what the exchange leaves there: either the same
      element, or one at least the key, which is at least the old one. */
  lemma LastKept<T(!new)>(before: seq<T>, after: seq<T>, top: T, key: T, newTop: T, cmp: (T, T) -> int)
    requires TotalPreorder(cmp) && multiset(before) == multiset(after)
    requires newTop == top || (cmp(top, key) <= 0 && cmp(key, newTop) <= 0)
    ensures AllAtMost(before, top, cmp) ==> AllAtMost(after, newTop, cmp)
  {
    hide TotalPreorder, AllAtMost;
    if AllAtMost(before, top, cmp) {
      if newTop != top {
        Between(before, top, key, newTop, cmp);
      }
      PermutationKeepsBounds(before, after, newTop, cmp);
    }
  }

  lemma RoundSwapBounds<T(!new)>(s: seq<T>, t: seq<T>, start: seq<T>, low: nat, high: nat, i0: nat, j0: nat,
                                 i: nat, j: nat, cmp: (T, T) -> int)
    requires Round(s, start, low, high, i0, j0, cmp)
    requires i0 < i < j < j0
    requires cmp(s[low], s[i]) <= 0 && Below(s, i0, i, s[low], cmp)
    requires cmp(s[j], s[low]) <= 0 && Above(s, j, j0, s[low], cmp)
    requires t == s[i := s[j]][j := s[i]]
    ensures forall k :: low < k <= i && k <= high ==> cmp(t[k], s[low]) <= 0
    ensures forall k :: j <= k <= high ==> cmp(s[low], t[k]) <= 0
  {
    forall k | low < k <= i && k <= high
      ensures cmp(t[k], s[low]) <= 0
    {
      assert t[k] == if k == i then s[j] else s[k];
    }
    forall k | j <= k <= high
      ensures cmp(s[low], t[k]) <= 0
    {
      assert t[k] == if k == j then s[i] else s[k];
    }
  }

  lemma RoundSwap<T(!new)>(s: seq<T>, t: seq<T>, start: seq<T>, low: nat, high: nat, i0: nat, j0: nat,
                           i: nat, j: nat, cmp: (T, T) -> int)
    requires Round(s, start, low, high, i0, j0, cmp)
    requires i0 < i < j < j0
    requires cmp(s[low], s[i]) <= 0 && Below(s, i0, i, s[low], cmp)
    requires cmp(s[j], s[low]) <= 0 && Above(s, j, j0, s[low], cmp)
    requires t == s[i := s[j]][j := s[i]]
    ensures Round(t, start, low, high, i, j, cmp)
  {
    hide Below, Above;
    RoundSwapBounds(s, t, start, low, high, i0, j0, i, j, cmp);
    SwapInRange(s, t, low, high + 1, i, j);
  }

  /** The rounds are over: j splits the range. */
  ghost predicate Split<T>(s: seq<T>, start: seq<T>, low: nat, high: nat, j: nat, cmp: (T, T) -> int) {
    && low <= j <= high < |s| == |start| && low < high
    && s[low] == start[low]
    && s[..low] == start[..low] && s[high + 1..] == start[high + 1..]
    && multiset(s[low..high + 1]) == multiset(start[low..high + 1])
    && (forall k :: low < k <= j ==> cmp(s[k], s[low]) <= 0)
    && (forall k :: j < k <= high ==> cmp(s[low], s[k]) <= 0)
  }

  lemma RoundEnd<T(!new)>(s: seq<T>, start: seq<T>, low: nat, high: nat, i0: nat, j0: nat, i: nat, j: nat,
                          cmp: (T, T) -> int)
    requires Round(s, start, low, high, i0, j0, cmp)
    requires i0 < i && i - 1 <= j < j0 && j <= i
    requires Below(s, i0, i, s[low], cmp)
    requires cmp(s[j], s[low]) <= 0 && Above(s, j, j0, s[low], cmp)
    ensures Split(s, start, low, high, j, cmp)
  {
  }

  lemma SuffixMaxLast<T(!new)>(s: seq<T>, t: seq<T>, low: nat, high: nat, j: nat, cmp: (T, T) -> int)
    requires low <= j < high < |s| == |t| && MaxLast(s, low, high, cmp)
    requires t[j + 1..] == s[j + 1..]
    ensures MaxLast(t, j + 1, high, cmp)
  {
    assert t[j + 1..high + 1] == t[j + 1..][..high - j] == s[j + 1..high + 1] == s[low..high + 1][j + 1 - low..];
    assert t[high] == t[j + 1..][high - j - 1] == s[high];
  }

  /** t is s with low..high permuted and nothing else touched. */
  ghost predicate PermutesRange<T>(t: seq<T>, s: seq<T>, low: nat, high: int) {
    && low <= high + 1 <= |s| == |t|
    && t[..low] == s[..low] && t[high + 1..] == s[high + 1..]
    && multiset(t[low..high + 1]) == multiset(s[low..high + 1])
  }

  /** The first key of start stands at j, with nothing larger before it and nothing smaller after. */
  ghost predicate Partitioned<T>(t: seq<T>, start: seq<T>, low: nat, high: nat, j: nat, cmp: (T, T) -> int) {
    && PermutesRange(t, start, low, high)
    && low <= j <= high && t[j] == start[low]
    && AllAtMost(t[low..j], t[j], cmp) && AllAtLeast(t[j + 1..high + 1], t[j], cmp)
  }

  lemma PlaceKeyPermutes<T>(s: seq<T>, t: seq<T>, start: seq<T>, low: nat, high: nat, j: nat, cmp: (T, T) -> int)
    requires Split(s, start, low, high, j, cmp) && t == s[low := s[j]][j := s[low]]
    ensures PermutesRange(t, start, low, high)
  {
    SwapInRange(s, t, low, high + 1, low, j);
  }

  lemma PlaceKeyBounds<T>(s: seq<T>, t: seq<T>, start: seq<T>, low: nat, high: nat, j: nat, cmp: (T, T) -> int)
    requires Split(s, start, low, high, j, cmp) && cmp(s[low], s[low]) == 0
    requires t == s[low := s[j]][j := s[low]]
    ensures AllAtMost(t[low..j], t[j], cmp) && AllAtLeast(t[j + 1..high + 1], t[j], cmp)
  {
  }

  lemma PlaceKey<T(!new)>(s: seq<T>, t: seq<T>, start: seq<T>, low: nat, high: nat, j: nat, cmp: (T, T) -> int)
    requires Split(s, start, low, high, j, cmp) && cmp(s[low], s[low]) == 0
    requires t == s[low := s[j]][j := s[low]]
    ensures Partitioned(t, start, low, high, j, cmp)
  {
    hide PermutesRange, AllAtMost, AllAtLeast;
    PlaceKeyPermutes(s, t, start, low, high, j, cmp);
    PlaceKeyBounds(s, t, start, low, high, j, cmp);
  }

  /** Once something has been exchanged, the upward scan stops at the downward one's last element. */
  lemma StopsAtPartner<T(!new)>(s: seq<T>, start: seq<T>, low: nat, high: nat, i0: nat, i: nat, j: nat,
                                cmp: (T, T) -> int)
    requires TotalPreorder(cmp) && Round(s, start, low, high, i0, j, cmp)
    requires i0 < j <= high && Below(s, i0, i, s[low], cmp)
    ensures i <= j
    ensures i == j ==> cmp(s[low], s[i]) <= 0
  {
    var key, partner := s[low], s[j];
    assert cmp(key, partner) <= 0;
    assert i > j ==> cmp(partner, key) < 0;
  }

  lemma OrderFacts<T(!new)>(x: T, y: T, cmp: (T, T) -> int)
    requires TotalPreorder(cmp)
    ensures cmp(x, x) == 0 && (cmp(x, y) <= 0 <==> cmp(y, x) >= 0)
  {
  }

  lemma RoundStart<T(!new)>(s: seq<T>, low: nat, high: nat, cmp: (T, T) -> int)
    requires low < high < |s|
    ensures Round(s, s, low, high, low, high + 1, cmp)
  {
  }

  lemma DownStop<T(!new)>(s: seq<T>, start: seq<T>, low: nat, high: nat, i0: nat, i: nat, j: nat, cmp: (T, T) -> int)
    requires TotalPreorder(cmp) && Round(s, start, low, high, i0, j, cmp)
    requires i0 < i <= j && Below(s, i0, i, s[low], cmp)
    ensures cmp(s[i - 1], s[low]) <= 0
  {
  }

  ghost predicate KeyIsTop<T>(start: seq<T>, low: nat, high: nat, cmp: (T, T) -> int)
    requires low < high < |start|
  {
    forall k :: low < k <= high ==> cmp(start[k], start[low]) < 0
  }

  lemma FirstScan<T>(s: seq<T>, low: nat, high: nat, i: nat, cmp: (T, T) -> int)
    requires low < high < |s| && low < i <= high + 1 && Below(s, low, i, s[low], cmp)
    requires i <= high ==> cmp(s[i], s[low]) >= 0
    ensures i == high + 1 <==> KeyIsTop(s, low, high, cmp)
  {
  }

  /** A key that exceeds everything else is met by the downward scan at once. */
  lemma TopStopsHigh<T(!new)>(s: seq<T>, low: nat, high: nat, j: nat, cmp: (T, T) -> int)
    requires TotalPreorder(cmp) && low < high < |s| && j <= high
    requires KeyIsTop(s, low, high, cmp) && Above(s, j, high + 1, s[low], cmp)
    ensures j == high
  {
    var key, last := s[low], s[high];
    assert cmp(last, key) < 0;
    assert j < high ==> cmp(key, last) < 0;
  }

  /** One turn of the partition loop: both scans, and the exchange unless they have met. The upward scan
      comes to the slot after the range in the first turn only, exactly when the key exceeds everything
      else, and ends there if what stands in it does not fall below the key. */
  method OneRound<T(!new)>(list: array<T>, ghost start: seq<T>, ghost goal: (seq<T>, nat), low: nat, high: nat,
                           i0: nat, j0: nat, cmp: (T, T) -> int)
    returns (inside: bool, i: nat, j: nat, ghost compared: bool)
    requires TotalPreorder(cmp)
    requires low < high && high + 1 < list.Length == |start| && low <= i0 < j0 <= high + 1
    requires Round(list[..], start, low, high, i0, j0, cmp) && LeadsTo(list[..], low, high, i0, j0, goal, cmp)
    requires j0 == high + 1 ==> i0 == low && list[..] == start
    modifies list
    ensures i0 < i <= j0 && (compared <==> i == high + 1)
    ensures compared <==> j0 == high + 1 && KeyIsTop(start, low, high, cmp)
    ensures inside <==> (compared ==> cmp(start[low], start[high + 1]) <= 0)
    ensures inside ==> low <= j < j0 && list[low] == old(list[low])
    ensures inside && i < j ==> Round(list[..], start, low, high, i, j, cmp)
    ensures inside && j <= i ==> Split(list[..], start, low, high, j, cmp)
    ensures inside && i < j ==> LeadsTo(list[..], low, high, i, j, goal, cmp)
    ensures inside && j <= i ==> EndsAt(list[..], low, high, j, goal)
    ensures inside && MaxLast(old(list[..]), low, high, cmp) ==> MaxLast(list[..], low, high, cmp)
    ensures inside && compared ==> j == high
  {
    hide TotalPreorder, Round, Split, MaxLast, KeyIsTop, Below, Above, LeadsTo, EndsAt;
    ghost var s := list[..];
    var key := list[low];
    assert s[low] == start[low] by { RoundKeepsKey(s, start, low, high, i0, j0, cmp); }
    j := 0;
    inside, i := ScanUp(list, i0, high, key, cmp);
    compared := i == high + 1;
    if j0 == high + 1 {
      FirstScan(s, low, high, i, cmp);
    } else {
      StopsAtPartner(s, start, low, high, i0, i, j0, cmp);
    }
    if !inside {
      return;
    }
    DownStop(s, start, low, high, i0, i, j0, cmp);
    j := ScanDown(list, j0, i - 1, key, cmp);
    ScansLead(s, low, high, i0, j0, i, j, goal, cmp);
    if compared {
      TopStopsHigh(s, low, high, j, cmp);
    }
    if i < j {
      list[i], list[j] := list[j], list[i];
      assert list[..] == s[i := s[j]][j := s[i]];
      RoundSwap(s, list[..], start, low, high, i0, j0, i, j, cmp);
      if MaxLast(s, low, high, cmp) {
        SwapKeepsMaxLast(s, list[..], low, high, i, j, cmp);
      }
    } else {
      RoundEnd(s, start, low, high, i0, j0, i, j, cmp);
    }
  }

  lemma RoundKeepsKey<T>(s: seq<T>, start: seq<T>, low: nat, high: nat, i: nat, j: nat, cmp: (T, T) -> int)
    requires Round(s, start, low, high, i, j, cmp)
    ensures s[low] == start[low]
  {
  }

  /** The partition loop of QuickSort and the swap that places the key: the partition on values. One of
      the turns compares the slot after the range if and only if the key exceeds everything else, and the
      scan stays inside if and only if what stands there is then at least the key. */
  method Partition<T(!new)>(list: array<T>, low: nat, high: nat, cmp: (T, T) -> int)
    returns (inside: bool, j: nat, ghost compared: bool)
    requires TotalPreorder(cmp)
    requires low < high && high + 1 < list.Length
    modifies list
    ensures compared <==> KeyIsTop(old(list[..]), low, high, cmp)
    ensures inside <==> (compared ==> cmp(old(list[..])[low], old(list[..])[high + 1]) <= 0)
    ensures inside ==> low <= j <= high && Partitioned(list[..], old(list[..]), low, high, j, cmp)
    ensures inside ==> (list[..][low..high + 1], j - low) ==
                       Parted(old(list[..])[low..high + 1], 0, high + 1 - low, cmp)
    ensures inside && compared ==> j == high
    ensures inside && MaxLast(old(list[..]), low, high, cmp) && j < high ==> MaxLast(list[..], j + 1, high, cmp)
  {
    hide TotalPreorder, Round, Split, MaxLast, KeyIsTop, Partitioned, Parted, EndsAt, LeadsTo, Exchanged;
    var i: nat := low;
    j := high + 1;
    var flag := true;
    ghost var start := list[..];
    ghost var goal := Parted(start[low..high + 1], 0, high + 1 - low, cmp);
    compared := false;
    RoundStart(start, low, high, cmp);
    LeadStart(start, low, high, cmp);
    while flag
      invariant low <= i && low <= j <= high + 1 && (flag ==> i < j) && (!flag ==> j <= high)
      invariant list[low] == start[low]
      invariant flag ==> Round(list[..], start, low, high, i, j, cmp) && LeadsTo(list[..], low, high, i, j, goal, cmp)
      invariant flag && j == high + 1 ==> i == low && list[..] == start
      invariant !flag ==> Split(list[..], start, low, high, j, cmp) && EndsAt(list[..], low, high, j, goal)
      invariant compared <==> j <= high && KeyIsTop(start, low, high, cmp)
      invariant compared ==> cmp(start[low], start[high + 1]) <= 0 && !flag && j == high
      invariant MaxLast(start, low, high, cmp) ==> MaxLast(list[..], low, high, cmp)
      decreases flag, j
    {
      ghost var now;
      inside, i, j, now := OneRound(list, start, goal, low, high, i, j, cmp);
      compared := compared || now;
      if !inside {
        return;
      }
      flag := i < j;
    }
    inside := true;
    ghost var s := list[..];
    list[low], list[j] := list[j], list[low];
    assert list[..] == s[low := s[j]][j := s[low]];
    OrderFacts(start[low], start[low], cmp);
    PlaceKey(s, list[..], start, low, high, j, cmp);
    GoalReached(s, list[..], low, high, j, goal);
    if j < high && MaxLast(start, low, high, cmp) {
      SuffixMaxLast(s, list[..], low, high, j, cmp);
    }
  }

  lemma LeadStart<T>(s: seq<T>, low: nat, high: nat, cmp: (T, T) -> int)
    requires low < high < |s|
    ensures LeadsTo(s, low, high, low, high + 1, Parted(s[low..high + 1], 0, high + 1 - low, cmp), cmp)
  {
  }

  lemma GoalReached<T>(s: seq<T>, t: seq<T>, low: nat, high: nat, j: nat, goal: (seq<T>, nat))
    requires EndsAt(s, low, high, j, goal) && t == s[low := s[j]][j := s[low]]
    ensures (t[low..high + 1], j - low) == goal
  {
    ExchangedIs(s, low, high, low, j);
  }

  lemma SortedJoin<T(!new)>(a: seq<T>, key: T, b: seq<T>, cmp: (T, T) -> int)
    requires TotalPreorder(cmp)
    requires Sorted(a, cmp) && Sorted(b, cmp) && AllAtMost(a, key, cmp) && AllAtLeast(b, key, cmp)
    ensures Sorted(a + [key] + b, cmp)
  {
  }

  /** low..high is sorted and a permutation of what it was; nothing else changed. */
  ghost predicate SortedRange<T>(t: seq<T>, s: seq<T>, low: nat, high: int, cmp: (T, T) -> int) {
    PermutesRange(t, s, low, high) && Sorted(t[low..high + 1], cmp)
  }

  /** The placed key is the sentinel of the left call. */
  lemma KeyBoundsLeft<T>(s: seq<T>, start: seq<T>, low: nat, high: nat, j: nat, cmp: (T, T) -> int)
    requires Partitioned(s, start, low, high, j, cmp)
    ensures SlotBounds(s, low, j - 1, cmp)
  {
  }

  lemma RightKeepsMaxLast<T(!new)>(s: seq<T>, t: seq<T>, low: nat, j: nat, high: nat, cmp: (T, T) -> int)
    requires low <= j < high < |s| && PermutesRange(t, s, low, j - 1) && MaxLast(s, j + 1, high, cmp)
    ensures MaxLast(t, j + 1, high, cmp)
  {
    hide AllAtMost;
    SameSuffix(s, t, j, j + 1, high + 1);
    SameSuffix(s, t, j, high, high + 1);
    assert t[high..high + 1] == [t[high]] && s[high..high + 1] == [s[high]];
  }

  /** What bounds the right part bounds the whole range, and the other way round: so the right call,
      whatever the left one has permuted, needs the sentinel that the whole call needs. */
  lemma RightNeedsSame<T(!new)>(s0: seq<T>, s1: seq<T>, s2: seq<T>, low: nat, high: nat, j: nat, cmp: (T, T) -> int)
    requires TotalPreorder(cmp) && Partitioned(s1, s0, low, high, j, cmp) && j < high && high + 1 < |s0|
    requires PermutesRange(s2, s1, low, j - 1)
    ensures SlotBounds(s2, j + 1, high, cmp) <==> SlotBounds(s0, low, high, cmp)
  {
    hide TotalPreorder, AllAtMost, AllAtLeast;
    var after := s0[high + 1];
    assert s1[high + 1] == after by { SameSuffixAt(s0, s1, high + 1); }
    assert s2[high + 1] == after by { SameSuffixAt(s1, s2, j); }
    SameSuffix(s1, s2, j, j + 1, high + 1);
    CutRange(s1, low, j, high);
    PermutationKeepsBounds(s0[low..high + 1], s1[low..high + 1], after, cmp);
    PermutationKeepsBounds(s1[low..high + 1], s0[low..high + 1], after, cmp);
    RightBoundsAll(s1[low..j], s1[j], s1[j + 1..high + 1], after, cmp);
  }

  lemma SameSuffixAt<T>(s: seq<T>, t: seq<T>, n: nat)
    requires n <= |s| == |t| && t[n..] == s[n..]
    ensures forall k :: n <= k < |s| ==> t[k] == s[k]
  {
    forall k | n <= k < |s| ensures t[k] == s[k] {
      assert t[n..][k - n] == s[n..][k - n];
    }
  }

  lemma RightBoundsAll<T(!new)>(left: seq<T>, key: T, right: seq<T>, after: T, cmp: (T, T) -> int)
    requires TotalPreorder(cmp) && |right| > 0
    requires AllAtMost(left, key, cmp) && AllAtLeast(right, key, cmp)
    ensures AllAtMost(right, after, cmp) <==> AllAtMost(left + [key] + right, after, cmp)
  {
    var all := left + [key] + right;
    if AllAtMost(all, after, cmp) {
      forall i | 0 <= i < |right| ensures cmp(right[i], after) <= 0 {
        assert right[i] == all[|left| + 1 + i];
      }
    }
    if AllAtMost(right, after, cmp) {
      assert cmp(key, right[0]) <= 0 && cmp(right[0], after) <= 0;
      forall i | 0 <= i < |all| ensures cmp(all[i], after) <= 0 {
        assert all[i] == if i < |left| then left[i] else if i == |left| then key else right[i - |left| - 1];
      }
    }
  }

  /** For a key that exceeds everything else, bounding the key is bounding the range. */
  lemma TopDecides<T(!new)>(s: seq<T>, low: nat, high: nat, cmp: (T, T) -> int)
    requires TotalPreorder(cmp) && low < high && high + 1 < |s| && KeyIsTop(s, low, high, cmp)
    ensures SlotBounds(s, low, high, cmp) <==> cmp(s[low], s[high + 1]) <= 0
    ensures !MaxLast(s, low, high, cmp)
  {
    var range := s[low..high + 1];
    assert range[0] == s[low];
    OrderFacts(s[high], s[low], cmp);
    forall i | 0 < i < |range| ensures cmp(range[i], s[low]) <= 0 {
      assert range[i] == s[low + i];
    }
  }

  lemma JoinMultisets<T>(a: seq<T>, b: seq<T>, a': seq<T>, b': seq<T>, key: T)
    requires multiset(a) == multiset(a') && multiset(b) == multiset(b')
    ensures multiset(a + [key] + b) == multiset(a' + [key] + b')
  {
  }

  lemma CutRange<T>(s: seq<T>, low: nat, j: nat, high: nat)
    requires low <= j <= high < |s|
    ensures s[low..high + 1] == s[low..j] + [s[j]] + s[j + 1..high + 1]
  {
  }

  /** Nothing outside low..high, nor the key at j, changes from s1 to s3. */
  lemma AssembleFrame<T>(s1: seq<T>, s2: seq<T>, s3: seq<T>, low: nat, high: nat, j: nat)
    requires low <= j <= high < |s1|
    requires PermutesRange(s2, s1, low, j - 1) && PermutesRange(s3, s2, j + 1, high)
    ensures s3[..low] == s1[..low] && s3[high + 1..] == s1[high + 1..] && s3[j] == s1[j]
    ensures s3[low..j] == s2[low..j] && s2[j + 1..high + 1] == s1[j + 1..high + 1]
  {
  }

  /** From the partitioned array s1, through the left call's result s2, to the right call's s3. */
  lemma Assemble<T(!new)>(s0: seq<T>, s1: seq<T>, s2: seq<T>, s3: seq<T>, low: nat, high: nat, j: nat,
                          cmp: (T, T) -> int)
    requires TotalPreorder(cmp) && Partitioned(s1, s0, low, high, j, cmp)
    requires SortedRange(s2, s1, low, j - 1, cmp) && SortedRange(s3, s2, j + 1, high, cmp)
    ensures SortedRange(s3, s0, low, high, cmp)
  {
    hide TotalPreorder, Sorted, AllAtMost, AllAtLeast;
    AssembleFrame(s1, s2, s3, low, high, j);
    var left, right := s3[low..j], s3[j + 1..high + 1];
    var left1, right1 := s1[low..j], s1[j + 1..high + 1];
    PermutationKeepsBounds(left1, left, s1[j], cmp);
    PermutationKeepsBounds(right1, right, s1[j], cmp);
    SortedJoin(left, s1[j], right, cmp);
    JoinMultisets(left, right, left1, right1, s1[j]);
    CutRange(s3, low, j, high);
    CutRange(s1, low, j, high);
  }

  lemma TrivialRange<T(!new)>(s: seq<T>, low: nat, high: int, cmp: (T, T) -> int)
    requires TotalPreorder(cmp) && low <= high + 1 <= |s| && high <= low
    ensures SortedRange(s, s, low, high, cmp)
  {
  }

  lemma TooShort<T>(s: seq<T>, cmp: (T, T) -> int)
    requires |s| < 2
    ensures !Compares(s, cmp)
  {
  }

  lemma ComparesAtOnce<T>(s: seq<T>, low: nat, high: nat, cmp: (T, T) -> int)
    requires low < high < |s|
    ensures KeyIsTop(s, low, high, cmp) ==> Compares(s[low..high + 1], cmp)
  {
    KeyIsTopIs(s, low, high, cmp);
    hide KeyIsTop, Parted;
  }

  /** The right call compares the slot if the whole call does and the partition did not, whatever the left
      call has permuted. */
  lemma ComparesLater<T>(s0: seq<T>, s1: seq<T>, s2: seq<T>, low: nat, high: nat, j: nat, cmp: (T, T) -> int)
    requires low < high < |s0| == |s1| && low <= j <= high
    requires (s1[low..high + 1], j - low) == Parted(s0[low..high + 1], 0, high + 1 - low, cmp)
    requires PermutesRange(s2, s1, low, j - 1)
    ensures Compares(s0[low..high + 1], cmp) <==>
            KeyIsTop(s0, low, high, cmp) || Compares(s2[j + 1..high + 1], cmp)
  {
    hide Parted, Compares, KeyIsTop;
    KeyIsTopIs(s0, low, high, cmp);
    ComparesUnfolds(s0[low..high + 1], s1[low..high + 1], j - low, cmp);
    SameSuffix(s1, s2, j, j + 1, high + 1);
    assert s1[low..high + 1][j - low + 1..] == s1[j + 1..high + 1];
  }

  lemma ComparesUnfolds<T>(s: seq<T>, t: seq<T>, j: nat, cmp: (T, T) -> int)
    requires |s| >= 2 && (t, j) == Parted(s, 0, |s|, cmp)
    ensures Compares(s, cmp) <==> KeyIsTop(s, 0, |s| - 1, cmp) || Compares(t[j + 1..], cmp)
  {
    hide Parted, KeyIsTop;
  }

  /** Whether the slot after low..high is compared depends on the range alone; it is if the first element
      exceeds all others, and it is not if the last one is a maximum. Only when it is compared does it
      matter what stands there: the scans stay inside the range and that slot if and only if nothing in the
      range exceeds it. */
  ghost predicate SlotRule<T>(s: seq<T>, low: nat, high: int, cmp: (T, T) -> int, inside: bool, compared: bool)
    requires low <= high + 1 < |s|
  {
    && (compared <==> Compares(s[low..high + 1], cmp))
    && (inside <==> (compared ==> SlotBounds(s, low, high, cmp)))
    && (low < high && KeyIsTop(s, low, high, cmp) ==> compared)
    && (low <= high && MaxLast(s, low, high, cmp) ==> !compared)
    && (high <= low ==> !compared)
  }

  lemma ShortRange<T(!new)>(s: seq<T>, low: nat, high: int, cmp: (T, T) -> int)
    requires TotalPreorder(cmp) && low <= high + 1 < |s| && high <= low
    ensures SlotRule(s, low, high, cmp, true, false) && SortedRange(s, s, low, high, cmp)
  {
    hide Compares, SlotBounds, MaxLast, Sorted;
    TooShort(s[low..high + 1], cmp);
    TrivialRange(s, low, high, cmp);
  }

  lemma LeftInside<T(!new)>(s: seq<T>, start: seq<T>, low: nat, high: nat, j: nat, cmp: (T, T) -> int, inside: bool,
                            compared: bool)
    requires Partitioned(s, start, low, high, j, cmp) && SlotRule(s, low, j - 1, cmp, inside, compared)
    ensures inside
  {
    KeyBoundsLeft(s, start, low, high, j, cmp);
    hide Partitioned, Compares, SlotBounds, KeyIsTop, MaxLast;
  }

  /** The partition has left the range. */
  lemma RuleAtOnce<T(!new)>(s: seq<T>, low: nat, high: nat, cmp: (T, T) -> int)
    requires TotalPreorder(cmp) && low < high && high + 1 < |s| && KeyIsTop(s, low, high, cmp)
    requires cmp(s[low], s[high + 1]) > 0
    ensures SlotRule(s, low, high, cmp, false, true)
  {
    hide TotalPreorder, Compares, SlotBounds, MaxLast, KeyIsTop;
    ComparesAtOnce(s, low, high, cmp);
    TopDecides(s, low, high, cmp);
  }

  /** What the partition and the right call say together; top: the partition has compared the slot. */
  lemma RuleOfRight<T(!new)>(s0: seq<T>, s1: seq<T>, s2: seq<T>, low: nat, high: nat, j: nat, cmp: (T, T) -> int,
                             top: bool, inside: bool, compared: bool)
    requires TotalPreorder(cmp) && Partitioned(s1, s0, low, high, j, cmp)
    requires low < high && high + 1 < |s0| == |s1| == |s2|
    requires (s1[low..high + 1], j - low) == Parted(s0[low..high + 1], 0, high + 1 - low, cmp)
    requires top <==> KeyIsTop(s0, low, high, cmp)
    requires top ==> j == high && cmp(s0[low], s0[high + 1]) <= 0
    requires j < high && MaxLast(s0, low, high, cmp) ==> MaxLast(s1, j + 1, high, cmp)
    requires PermutesRange(s2, s1, low, j - 1) && SlotRule(s2, j + 1, high, cmp, inside, compared)
    ensures SlotRule(s0, low, high, cmp, inside, top || compared)
  {
    hide TotalPreorder, Compares, SlotBounds, MaxLast, KeyIsTop, Parted, AllAtMost, AllAtLeast, PermutesRange;
    ComparesLater(s0, s1, s2, low, high, j, cmp);
    if top {
      TopDecides(s0, low, high, cmp);
    }
    if j < high {
      RightNeedsSame(s0, s1, s2, low, high, j, cmp);
      if MaxLast(s0, low, high, cmp) {
        RightKeepsMaxLast(s1, s2, low, j, high, cmp);
      }
    }
  }

  /** Sorts low..high, unless a scan leaves the range and the slot after it. */
  method QuickSort<T(!new)>(list: array<T>, low: nat, high: int, cmp: (T, T) -> int)
    returns (inside: bool, ghost compared: bool)
    requires TotalPreorder(cmp)
    requires low <= high + 1 < list.Length
    modifies list
    ensures SlotRule(old(list[..]), low, high, cmp, inside, compared)
    ensures inside ==> SortedRange(list[..], old(list[..]), low, high, cmp)
    decreases high + 1 - low
  {
    hide TotalPreorder, MaxLast, KeyIsTop, Partitioned, SortedRange, PermutesRange, Parted, SlotRule;
    ghost var s0 := list[..];
    if low < high {
      ghost var top;
      var j: nat;
      inside, j, top := Partition(list, low, high, cmp);
      compared := top;
      if !inside {
        RuleAtOnce(s0, low, high, cmp);
        return;
      }
      ghost var s1 := list[..];
      ghost var left;
      inside, left := QuickSort(list, low, j - 1, cmp);
      LeftInside(s1, s0, low, high, j, cmp, inside, left);
      ghost var s2 := list[..];
      SortedPermutes(s2, s1, low, j - 1, cmp);
      inside, compared := QuickSort(list, j + 1, high, cmp);
      RuleOfRight(s0, s1, s2, low, high, j, cmp, top, inside, compared);
      compared := top || compared;
      if inside {
        Assemble(s0, s1, s2, list[..], low, high, j, cmp);
      }
    } else {
      inside, compared := true, false;
      ShortRange(s0, low, high, cmp);
    }
  }

  lemma SortedPermutes<T>(t: seq<T>, s: seq<T>, low: nat, high: int, cmp: (T, T) -> int)
    requires SortedRange(t, s, low, high, cmp)
    ensures PermutesRange(t, s, low, high)
  {
  }
}
