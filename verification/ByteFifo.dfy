/** The growable byte FIFO (buffer.c). An append that is too large, or that would let the buffer grow
    too far, ends the process; here it reports false. */
module ByteFifo {
  import opened Bytes

  const INITIAL_SIZE := 4096
  const APPEND_LIMIT := 0x10_0000
  const GROWTH := 32768
  const SIZE_LIMIT := 0xa0_0000

  /** An append of len bytes fits, if need be after moving the data to the front. */
  predicate Fits(alloc: nat, offset: nat, end: nat, len: nat) {
    || (if offset == end then 0 else end) + len < alloc
    || (alloc / 2 < offset < end && end - offset + len < alloc)
  }

  /** Exactly when an append of len bytes ends the process. */
  predicate Fatal(alloc: nat, offset: nat, end: nat, len: nat) {
    || len > APPEND_LIMIT
    || (!Fits(alloc, offset, end, len) && alloc + len + GROWTH > SIZE_LIMIT)
  }

  /** Where an append that succeeds leaves size and offset: an empty buffer starts over, data that lies
      in the far half is moved down when space runs out, and what still does not fit makes it grow. */
  function Placed(alloc: nat, offset: nat, end: nat, len: nat): (nat, nat) {
    if offset == end then (if len < alloc then alloc else alloc + len + GROWTH, 0)
    else if end + len < alloc then (alloc, offset)
    else if offset <= alloc / 2 then (alloc + len + GROWTH, offset)
    else (if end - offset + len < alloc then alloc else alloc + len + GROWTH, 0)
  }

  /** Enough room to append len bytes to held ones. */
  predicate RoomFor(held: nat, len: nat) {
    2 * held + 3 * len <= SIZE_LIMIT - GROWTH
  }

  /** What a caller can rely on, wherever in the buffer the data lies and however it has grown. */
  lemma SmallAppendIsSafe(alloc: nat, offset: nat, end: nat, len: nat)
    requires offset <= end <= alloc && len <= APPEND_LIMIT
    requires RoomFor(end - offset, len)
    ensures !Fatal(alloc, offset, end, len)
  {
  }

  lemma EmptyStartsOver(alloc: nat, offset: nat, end: nat, len: nat)
    ensures offset == end ==> Fatal(alloc, 0, 0, len) == Fatal(alloc, offset, end, len)
    ensures offset == end ==> Placed(alloc, 0, 0, len) == Placed(alloc, offset, end, len)
  {
  }

  /** One turn of the restart loop changes neither the verdict nor the place. */
  lemma TurnKeepsPlace(alloc: nat, offset: nat, end: nat, len: nat)
    requires offset <= end <= alloc && len <= APPEND_LIMIT && (offset == end ==> offset == 0)
    ensures end + len < alloc ==> !Fatal(alloc, offset, end, len) && Placed(alloc, offset, end, len) == (alloc, offset)
    ensures end + len >= alloc && offset > alloc / 2 ==>
              && Fatal(alloc, 0, end - offset, len) == Fatal(alloc, offset, end, len)
              && Placed(alloc, 0, end - offset, len) == Placed(alloc, offset, end, len)
    ensures end + len >= alloc && offset <= alloc / 2 ==>
              var larger := alloc + len + GROWTH;
              && Fatal(alloc, offset, end, len) == (larger > SIZE_LIMIT)
              && !Fatal(larger, offset, end, len)
              && Placed(larger, offset, end, len) == Placed(alloc, offset, end, len)
  {
  }

  class Buffer {
    var buf: array<byte>
    var alloc: nat
    var offset: nat
    var end: nat

    ghost predicate Valid()
      reads this
    {
      offset <= end <= alloc == buf.Length && 0 < alloc <= SIZE_LIMIT
    }

    ghost function Contents(): seq<byte>
      requires Valid()
      reads this, buf
    {
      buf[offset..end]
    }

    constructor ()
      ensures Valid() && fresh(buf) && Contents() == [] && alloc == INITIAL_SIZE
    {
      buf := new byte[INITIAL_SIZE];
      alloc := INITIAL_SIZE;
      offset, end := 0, 0;
    }

    method Clear()
      requires Valid()
      modifies this`offset, this`end
      ensures Valid() && Contents() == []
    {
      offset, end := 0, 0;
    }

    /** buffer_append_space: len more bytes of whatever is there, starting at p. */
    method AppendSpace(len: nat) returns (ok: bool, p: nat)
      requires Valid()
      modifies this, buf
      ensures Valid() && (buf == old(buf) || fresh(buf))
      ensures ok <==> !Fatal(old(alloc), old(offset), old(end), len)
      ensures ok ==> && p + len == end && offset <= p && end < alloc
                     && buf[offset..p] == old(Contents())
      ensures ok ==> (alloc, offset) == Placed(old(alloc), old(offset), old(end), len)
      ensures !ok ==> Contents() == old(Contents())
    {
      hide Fits, Placed;
      p := 0;
      if len > APPEND_LIMIT {
        return false, p;
      }
      EmptyStartsOver(alloc, offset, end, len);
      hide Fatal;
      if offset == end {
        offset, end := 0, 0;
      }
      while !(end + len < alloc)
        invariant Valid() && (buf == old(buf) || fresh(buf))
        invariant Contents() == old(Contents()) && (offset == end ==> offset == 0)
        invariant Fatal(alloc, offset, end, len) <==> Fatal(old(alloc), old(offset), old(end), len)
        invariant Placed(alloc, offset, end, len) == Placed(old(alloc), old(offset), old(end), len)
        decreases if end + len < alloc then 0 else if offset > alloc / 2 then 2 else 1
      {
        TurnKeepsPlace(alloc, offset, end, len);
        if offset > alloc / 2 {
          MoveToFront();
        } else {
          var newLen := alloc + len + GROWTH;
          if newLen > SIZE_LIMIT {
            return false, p;
          }
          Reallocate(newLen);
        }
      }
      TurnKeepsPlace(alloc, offset, end, len);
      p := end;
      end := end + len;
      ok := true;
    }

    /** memmove of all the data to the start of the block. */
    method MoveToFront()
      requires Valid()
      modifies this`offset, this`end, buf
      ensures Valid() && offset == 0 && end == old(end) - old(offset)
      ensures Contents() == old(Contents())
    {
      forall k | 0 <= k < end - offset {
        buf[k] := buf[offset + k];
      }
      end := end - offset;
      offset := 0;
    }

    /** realloc: a larger block that starts with the bytes of the old one. */
    method Reallocate(newLen: nat)
      requires Valid() && alloc < newLen <= SIZE_LIMIT
      modifies this`buf, this`alloc
      ensures Valid() && fresh(buf) && alloc == newLen
      ensures Contents() == old(Contents())
    {
      var larger := new byte[newLen];
      forall k | 0 <= k < alloc {
        larger[k] := buf[k];
      }
      buf, alloc := larger, newLen;
    }

    method Append(data: seq<byte>) returns (ok: bool)
      requires Valid()
      modifies this, buf
      ensures Valid() && (buf == old(buf) || fresh(buf))
      ensures ok <==> !Fatal(old(alloc), old(offset), old(end), |data|)
      ensures Contents() == if ok then old(Contents()) + data else old(Contents())
    {
      var p;
      ok, p := AppendSpace(|data|);
      if ok {
        forall k | 0 <= k < |data| {
          buf[p + k] := data[k];
        }
        assert buf[offset..p] == old(Contents()) && buf[p..end] == data;
      }
    }

    method Len() returns (n: nat)
      requires Valid()
      ensures n == |Contents()|
    {
      n := end - offset;
    }

    /** Takes len bytes from the front; a request for more than there is does nothing at all. */
    method Get(target: array<byte>, len: nat)
      requires Valid() && target != buf && len <= target.Length
      modifies this`offset, target
      ensures Valid()
      ensures if len <= |old(Contents())|
              then target[..len] == old(Contents())[..len] && Contents() == old(Contents())[len..]
                   && target[len..] == old(target[len..])
              else target[..] == old(target[..]) && Contents() == old(Contents())
    {
      if len > end - offset {
        return;
      }
      forall k | 0 <= k < len {
        target[k] := buf[offset + k];
      }
      offset := offset + len;
      assert target[..len] == old(Contents())[..len];
      assert Contents() == old(Contents())[len..];
    }

    method Consume(n: nat)
      requires Valid()
      modifies this`offset
      ensures Valid() && Contents() == if n <= |old(Contents())| then old(Contents())[n..] else old(Contents())
    {
      if n > end - offset {
        return;
      }
      offset := offset + n;
    }

    method ConsumeEnd(n: nat)
      requires Valid()
      modifies this`end
      ensures Valid()
      ensures Contents() == if n <= |old(Contents())| then old(Contents())[..|old(Contents())| - n] else old(Contents())
    {
      if n > end - offset {
        return;
      }
      end := end - n;
    }

    method PerformOne(operation: Operation) returns (ok: bool, taken: seq<byte>)
      requires Valid()
      modifies this, buf
      ensures Valid() && (buf == old(buf) || fresh(buf))
      ensures ok ==> Contents() == Do(old(Contents()), operation) && taken == TakenBy(old(Contents()), operation)
      ensures ok <==> !(operation.Append? && Fatal(old(alloc), old(offset), old(end), |operation.data|))
    {
      hide Fatal, Fits;
      ok, taken := true, [];
      match operation {
        case Append(data) =>
          ok := Append(data);
        case Get(n) =>
          var held := Len();
          var target := new byte[n];
          Get(target, n);
          if n <= held {
            taken := target[..];
            assert target[..n] == target[..];
          }
        case Consume(n) => Consume(n);
        case ConsumeEnd(n) => ConsumeEnd(n);
        case Clear => Clear();
      }
    }

    /** Any run of operations does to the buffer what it does to a sequence of bytes, and hands out
        the same bytes; it cannot fail while what is held and appended in all stays small. */
    method Perform(operations: seq<Operation>) returns (ok: bool, taken: seq<byte>)
      requires Valid()
      modifies this, buf
      ensures Valid() && (buf == old(buf) || fresh(buf))
      ensures ok ==> Contents() == After(old(Contents()), operations) && taken == Taken(old(Contents()), operations)
      ensures RoomFor(|old(Contents())|, |Appended(operations)|) && NoHugeAppend(operations) ==> ok
    {
      hide Fatal, Fits, Do, TakenBy;
      taken := [];
      ghost var start := Contents();
      var i := 0;
      assert operations[..0] == [];
      while i < |operations|
        invariant 0 <= i <= |operations| && Valid() && (buf == old(buf) || fresh(buf))
        invariant Contents() == After(start, operations[..i]) && taken == Taken(start, operations[..i])
      {
        assert operations[..i + 1][..i] == operations[..i];
        if operations[i].Append? {
          AppendedSoFar(start, operations, i);
          if RoomFor(|start|, |Appended(operations)|) && NoHugeAppend(operations) {
            SmallAppendIsSafe(alloc, offset, end, |operations[i].data|);
          }
        }
        var out;
        ok, out := PerformOne(operations[i]);
        if !ok {
          return false, [];
        }
        taken := taken + out;
        i := i + 1;
      }
      assert operations[..i] == operations;
      ok := true;
    }
  }

  // ---------- The byte sequence the buffer stands for ----------

  datatype Operation = Append(data: seq<byte>) | Get(n: nat) | Consume(n: nat) | ConsumeEnd(n: nat) | Clear

  function Do(s: seq<byte>, operation: Operation): seq<byte> {
    match operation
    case Append(data) => s + data
    case Get(n) => if n <= |s| then s[n..] else s
    case Consume(n) => if n <= |s| then s[n..] else s
    case ConsumeEnd(n) => if n <= |s| then s[..|s| - n] else s
    case Clear => []
  }

  function After(s: seq<byte>, operations: seq<Operation>): seq<byte> {
    if operations == [] then s else Do(After(s, operations[..|operations| - 1]), operations[|operations| - 1])
  }

  /** The bytes one operation hands out. */
  function TakenBy(s: seq<byte>, operation: Operation): seq<byte> {
    if operation.Get? && operation.n <= |s| then s[..operation.n] else []
  }

  function Taken(s: seq<byte>, operations: seq<Operation>): seq<byte> {
    if operations == [] then []
    else
      var front := operations[..|operations| - 1];
      Taken(s, front) + TakenBy(After(s, front), operations[|operations| - 1])
  }

  function AppendedBy(operation: Operation): seq<byte> {
    if operation.Append? then operation.data else []
  }

  function Appended(operations: seq<Operation>): seq<byte> {
    if operations == [] then []
    else
      var last := operations[|operations| - 1];
      Appended(operations[..|operations| - 1]) + AppendedBy(last)
  }

  predicate NoHugeAppend(operations: seq<Operation>) {
    forall i :: 0 <= i < |operations| && operations[i].Append? ==> |operations[i].data| <= APPEND_LIMIT
  }

  /** First in, first out: under appends and gets alone nothing is lost, repeated or reordered. */
  lemma {:induction false} FirstInFirstOut(s: seq<byte>, operations: seq<Operation>)
    requires forall i :: 0 <= i < |operations| ==> operations[i].Append? || operations[i].Get?
    ensures Taken(s, operations) + After(s, operations) == s + Appended(operations)
  {
    if operations != [] {
      var n := |operations| - 1;
      FirstInFirstOut(s, operations[..n]);
      NothingLost(s, Taken(s, operations[..n]), After(s, operations[..n]), Appended(operations[..n]), operations[n]);
    }
  }

  lemma NothingLost(s: seq<byte>, taken: seq<byte>, held: seq<byte>, put: seq<byte>, operation: Operation)
    requires taken + held == s + put && (operation.Append? || operation.Get?)
    ensures taken + TakenBy(held, operation) + Do(held, operation) == s + (put + AppendedBy(operation))
  {
    var out, rest, right := TakenBy(held, operation), Do(held, operation), AppendedBy(operation);
    assert out + rest == held + right;
    hide TakenBy, Do, AppendedBy;
    Associates(taken, out, rest);
    Associates(taken, held, right);
    Associates(s, put, right);
  }

  lemma {:induction false} AppendedGrows(operations: seq<Operation>, i: nat)
    requires i <= |operations|
    ensures |Appended(operations[..i])| <= |Appended(operations)|
    decreases |operations| - i
  {
    if i == |operations| {
      assert operations[..i] == operations;
    } else {
      AppendedGrows(operations, i + 1);
      assert operations[..i + 1][..i] == operations[..i];
    }
  }

  lemma {:induction false} NotLongerThanAppended(s: seq<byte>, operations: seq<Operation>)
    ensures |After(s, operations)| <= |s| + |Appended(operations)|
  {
    if operations != [] {
      NotLongerThanAppended(s, operations[..|operations| - 1]);
    }
  }

  /** At operation i there is room for the data of operation i within all that is ever appended. */
  lemma AppendedSoFar(s: seq<byte>, operations: seq<Operation>, i: nat)
    requires i < |operations| && operations[i].Append?
    ensures |After(s, operations[..i])| + |operations[i].data| <= |s| + |Appended(operations)|
    ensures |operations[i].data| <= |Appended(operations)|
  {
    NotLongerThanAppended(s, operations[..i]);
    AppendedGrows(operations, i + 1);
    assert operations[..i + 1][..i] == operations[..i];
  }
}
