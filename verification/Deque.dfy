/** The double-ended queue with cursor, sort and index (deque.c). */
module Deques {
  import opened Options
  import opened Sorting

  class Node<T(0)> {
    var data: T
    var prev: Node?<T>
    var next: Node?<T>

    constructor (data: T, prev: Node?<T>, next: Node?<T>)
      ensures this.data == data && this.prev == prev && this.next == next
    {
      this.data, this.prev, this.next := data, prev, next;
    }
  }

  ghost function At<T(0)>(nodes: seq<Node<T>>, i: int): Node?<T> {
    if 0 <= i < |nodes| then nodes[i] else null
  }

  class Queue<T(0, !new)> {
    var head: Node?<T>
    var tail: Node?<T>
    var cursor: Node?<T>
    var size: nat
    var sorted: bool
    /** The index of data and the parallel index of nodes. The last slot of qIndex stands for the
        word that follows the allocated block. */
    var qIndex: array<T>
    var posnIndex: array<Node?<T>>
    ghost var nodes: seq<Node<T>>

    ghost predicate Valid()
      reads this, nodes, qIndex, posnIndex
    {
      && Shape()
      && (if nodes == [] then cursor == null else cursor in nodes)
      && (sorted ==> Indexed())
    }

    /** The nodes form a doubly linked list from head to tail. */
    ghost predicate Shape()
      reads this`nodes, this`size, this`head, this`tail, nodes`prev, nodes`next
    {
      && |nodes| == size
      && (forall i, j :: 0 <= i < j < |nodes| ==> nodes[i] != nodes[j])
      && (forall i {:trigger nodes[i].prev} :: 0 <= i < |nodes| ==> nodes[i].prev == At(nodes, i - 1))
      && (forall i {:trigger nodes[i].next} :: 0 <= i < |nodes| ==> nodes[i].next == At(nodes, i + 1))
      && head == At(nodes, 0) && tail == At(nodes, |nodes| - 1)
    }

    /** Position i of the node index is the i-th node, and of the data index its data. */
    ghost predicate Indexed()
      reads this`qIndex, this`posnIndex, this`nodes, qIndex, posnIndex, nodes`data
    {
      && qIndex.Length == |nodes| + 1 && posnIndex.Length == |nodes|
      && (forall i :: 0 <= i < |nodes| ==> posnIndex[i] == nodes[i] && qIndex[i] == nodes[i].data)
    }

    /** The data from head to tail. */
    ghost function Contents(): (s: seq<T>)
      reads this`nodes, nodes
      ensures |s| == |nodes|
    {
      var ns := nodes;
      seq(|ns|, i requires 0 <= i < |ns| reads ns => ns[i].data)
    }

    /** The cursor stands on the i-th node. */
    ghost predicate CursorAt(i: int)
      reads this
    {
      0 <= i < |nodes| && cursor == nodes[i]
    }

    lemma SizeIsLength()
      requires Shape()
      ensures size == |nodes|
    {
    }

    constructor ()
      ensures Valid() && Contents() == [] && !sorted
    {
      head, tail, cursor, size, sorted := null, null, null, 0, false;
      qIndex := new T[0];
      posnIndex := new Node?<T>[0];
      nodes := [];
    }

    /** Moves the cursor to the head; the datum there, or nothing for an empty queue. */
    method First() returns (d: Option<T>)
      requires Valid()
      modifies this`cursor
      ensures Valid()
      ensures if nodes == [] then d == None else d == Some(Contents()[0]) && CursorAt(0)
    {
      hide Indexed;
      if size == 0 {
        return None;
      }
      cursor := head;
      d := Some(cursor.data);
    }

    method Last() returns (d: Option<T>)
      requires Valid()
      modifies this`cursor
      ensures Valid()
      ensures if nodes == [] then d == None
              else d == Some(Contents()[|nodes| - 1]) && CursorAt(|nodes| - 1)
    {
      hide Indexed;
      if size == 0 {
        return None;
      }
      cursor := tail;
      d := Some(cursor.data);
    }

    /** Links a new first node. */
    method LinkHead(n: Node<T>)
      requires Valid() && n !in nodes && n.prev == null && n.next == head
      modifies this, nodes`prev
      ensures Valid() && nodes == [n] + old(nodes) && Contents() == [n.data] + old(Contents())
      ensures CursorAt(0) && !sorted
    {
      hide Indexed;
      if head == null {
        tail := n;
      } else {
        head.prev := n;
      }
      head := n;
      size := size + 1;
      cursor := head;
      sorted := false;
      ghost var was := nodes;
      nodes := [n] + was;
      assert forall i :: 0 < i < |nodes| ==> nodes[i] == was[i - 1];
      assert tail == At(nodes, |was|);
    }

    /** Links a new last node. */
    method LinkTail(n: Node<T>)
      requires Valid() && n !in nodes && n.next == null && n.prev == tail
      modifies this, nodes`next
      ensures Valid() && nodes == old(nodes) + [n] && Contents() == old(Contents()) + [n.data]
      ensures CursorAt(|nodes| - 1) && !sorted
    {
      hide Indexed;
      if tail == null {
        head := n;
      } else {
        tail.next := n;
      }
      tail := n;
      size := size + 1;
      cursor := tail;
      sorted := false;
      ghost var was := nodes;
      nodes := was + [n];
      assert forall i :: 0 <= i < |was| ==> nodes[i] == was[i];
      assert head == At(nodes, 0);
    }

    /** memory says whether malloc delivers; if it does not, nothing changes. */
    method PushHead(d: T, memory: bool) returns (ok: bool)
      requires Valid()
      modifies this, nodes`prev
      ensures Valid() && ok == memory
      ensures ok ==> && nodes != [] && fresh(nodes[0]) && nodes == [nodes[0]] + old(nodes)
                     && Contents() == [d] + old(Contents()) && CursorAt(0) && !sorted
      ensures !ok ==> nodes == old(nodes) && Contents() == old(Contents())
                      && cursor == old(cursor) && sorted == old(sorted)
    {
      hide Indexed;
      if !memory {
        if head != null {
          head.prev := null;
        }
        return false;
      }
      hide Shape;
      var n := new Node(d, null, head);
      LinkHead(n);
      ok := true;
    }

    method PushTail(d: T, memory: bool) returns (ok: bool)
      requires Valid()
      modifies this, nodes`next
      ensures Valid() && ok == memory
      ensures ok ==> && nodes != [] && fresh(nodes[|nodes| - 1]) && nodes == old(nodes) + [nodes[|nodes| - 1]]
                     && Contents() == old(Contents()) + [d] && CursorAt(|nodes| - 1) && !sorted
      ensures !ok ==> nodes == old(nodes) && Contents() == old(Contents())
                      && cursor == old(cursor) && sorted == old(sorted)
    {
      hide Indexed;
      if !memory {
        if tail != null {
          tail.next := null;
        }
        return false;
      }
      hide Shape;
      var n := new Node(d, tail, null);
      LinkTail(n);
      ok := true;
    }

    method PopHead() returns (d: Option<T>)
      requires Valid()
      modifies this, nodes
      ensures Valid()
      ensures if old(nodes) == [] then d == None && nodes == [] && sorted == old(sorted)
              else && d == Some(old(Contents())[0]) && nodes == old(nodes)[1..] && Contents() == old(Contents())[1..]
                   && (nodes != [] ==> CursorAt(0)) && !sorted
    {
      hide Indexed;
      if size == 0 {
        return None;
      }
      d := Some(head.data);
      var n := head.next;
      size := size - 1;
      nodes := nodes[1..];
      if size == 0 {
        head, tail, cursor := null, null, null;
      } else {
        head := n;
        head.prev := null;
        cursor := head;
      }
      sorted := false;
    }

    method PopTail() returns (d: Option<T>)
      requires Valid()
      modifies this, nodes
      ensures Valid()
      ensures if old(nodes) == [] then d == None && nodes == [] && sorted == old(sorted)
              else var last := |old(nodes)| - 1;
                   && d == Some(old(Contents())[last]) && nodes == old(nodes)[..last]
                   && Contents() == old(Contents())[..last]
                   && (nodes != [] ==> CursorAt(last - 1)) && !sorted
    {
      hide Indexed;
      if size == 0 {
        return None;
      }
      d := Some(tail.data);
      var p := tail.prev;
      size := size - 1;
      nodes := nodes[..size];
      if size == 0 {
        head, tail, cursor := null, null, null;
      } else {
        tail := p;
        tail.next := null;
        cursor := tail;
      }
      sorted := false;
    }

    method Next(ghost at: int) returns (d: Option<T>)
      requires Valid() && CursorAt(at)
      modifies this`cursor
      ensures Valid()
      ensures if at == |nodes| - 1 then d == None && CursorAt(at)
              else d == Some(Contents()[at + 1]) && CursorAt(at + 1)
    {
      hide Indexed;
      if cursor.next == null {
        return None;
      }
      cursor := cursor.next;
      d := Some(cursor.data);
    }

    method Previous(ghost at: int) returns (d: Option<T>)
      requires Valid() && CursorAt(at)
      modifies this`cursor
      ensures Valid()
      ensures if at == 0 then d == None && CursorAt(at)
              else d == Some(Contents()[at - 1]) && CursorAt(at - 1)
    {
      hide Indexed;
      if cursor.prev == null {
        return None;
      }
      cursor := cursor.prev;
      d := Some(cursor.data);
    }

    /** Walks the queue, putting data and nodes into the two index arrays. */
    method FillIndex()
      requires Valid() && !sorted
      requires qIndex.Length == size + 1 && posnIndex.Length == size
      modifies this`cursor, qIndex, posnIndex
      ensures Valid() && Indexed()
      ensures Contents() == old(Contents()) && qIndex[..] == Contents() + [old(qIndex[size])]
      ensures if nodes == [] then cursor == null else CursorAt(size - 1)
    {
      hide Shape;
      assert |nodes| == size by { SizeIsLength(); }
      var d := First();
      for i := 0 to size
        invariant Valid()
        invariant i < size ==> CursorAt(i) && d == Some(Contents()[i])
        invariant i == size ==> d == None && (size > 0 ==> CursorAt(size - 1))
        invariant forall k :: 0 <= k < i ==> posnIndex[k] == nodes[k] && qIndex[k] == nodes[k].data
        invariant qIndex[size] == old(qIndex[size])
      {
        qIndex[i] := d.value;
        posnIndex[i] := cursor;
        d := Next(i);
      }
    }

    /** Writes the data index back into the nodes, head to tail. */
    method WriteBack()
      requires Valid() && !sorted
      requires qIndex.Length == size + 1
      modifies nodes`data
      ensures Valid() && Contents() == qIndex[..size]
      ensures posnIndex.Length == size && (forall k :: 0 <= k < size ==> posnIndex[k] == nodes[k]) ==> Indexed()
    {
      var dn, i := head, 0;
      while dn != null
        invariant 0 <= i <= size && dn == At(nodes, i)
        invariant forall k :: 0 <= k < i ==> nodes[k].data == qIndex[k]
        decreases size - i
      {
        dn.data := qIndex[i];
        i := i + 1;
        dn := dn.next;
      }
    }

    /** Sorts the queue and builds both indexes. The cursor always ends at the head: the datum the
        code means to return to is the one read after the tail, which is none. inside is false when the
        sort reads beyond the word after the index block, `after`; nothing is promised of the original
        from there on. */
    method Sort(cmp: (T, T) -> int, memory1: bool, memory2: bool, after: T)
      returns (ok: bool, inside: bool, ghost compared: bool)
      requires Valid() && TotalPreorder(cmp)
      modifies this, nodes`data
      ensures Valid() && nodes == old(nodes) && ok == (memory1 && memory2) && sorted == (ok && inside)
      ensures multiset(Contents()) == multiset(old(Contents()))
      ensures if ok then SlotVerdict(old(Contents()), after, cmp, inside, compared) else inside && !compared
      ensures ok && inside ==> Sorted(Contents(), cmp) && (nodes != [] ==> CursorAt(0))
      ensures !ok ==> Contents() == old(Contents()) && cursor == old(cursor)
    {
      hide TotalPreorder, SlotVerdict, Sorted, Indexed, Shape;
      SizeIsLength();
      sorted := false;
      inside, compared := true, false;
      if !(memory1 && memory2) {
        return false, inside, compared;
      }
      inside, compared := BuildIndex(cmp, after);
      sorted := inside;
      ok := true;
    }

    /** The part of Q_Sort after the allocations have succeeded. */
    method BuildIndex(cmp: (T, T) -> int, after: T) returns (inside: bool, ghost compared: bool)
      requires Valid() && !sorted && TotalPreorder(cmp)
      modifies this`qIndex, this`posnIndex, this`cursor, nodes`data
      ensures Valid() && fresh(qIndex) && fresh(posnIndex)
      ensures multiset(Contents()) == multiset(old(Contents()))
      ensures SlotVerdict(old(Contents()), after, cmp, inside, compared)
      ensures inside ==> Indexed() && Sorted(Contents(), cmp) && (nodes != [] ==> CursorAt(0))
    {
      hide TotalPreorder, SlotVerdict, Sorted, Indexed, Shape;
      SizeIsLength();
      ghost var contents := Contents();
      qIndex := new T[size + 1];
      posnIndex := new Node?<T>[size];
      qIndex[size] := after;
      assert Contents() == contents;
      FillIndex();
      inside, compared := SortData(cmp, after);
      ghost var result := Contents();
      if inside {
        var _ := First();
      }
      assert Contents() == result;
    }

    /** Sorts the data index and copies it into the nodes. */
    method SortData(cmp: (T, T) -> int, ghost after: T) returns (inside: bool, ghost compared: bool)
      requires Valid() && !sorted && Indexed() && TotalPreorder(cmp)
      requires qIndex[..] == Contents() + [after]
      modifies qIndex, nodes`data
      ensures Valid()
      ensures multiset(Contents()) == multiset(old(Contents()))
      ensures SlotVerdict(old(Contents()), after, cmp, inside, compared)
      ensures inside ==> Indexed() && Sorted(Contents(), cmp)
    {
      hide TotalPreorder, SortedRange, Sorted, Shape, SlotBounds;
      hide KeyIsTop, MaxLast, AllAtMost, PermutesRange, Compares, SlotRule;
      SizeIsLength();
      ghost var before := qIndex[..];
      ghost var contents := Contents();
      inside, compared := QuickSort(qIndex, 0, size - 1, cmp);
      assert before == contents + [after];
      assert Contents() == contents;
      if !inside {
        return;
      }
      SortedPart(qIndex[..], before, contents, size, cmp);
      assert qIndex[..][..size] == qIndex[..size];
      WriteBack();
    }

    /** Position of an element equal to the key in the data index, or -1. */
    method BSearch(key: T, cmp: (T, T) -> int) returns (found: int)
      requires Valid() && sorted && TotalPreorder(cmp) && Sorted(Contents(), cmp)
      ensures -1 <= found < size
      ensures found >= 0 ==> cmp(key, Contents()[found]) == 0
      ensures found < 0 <==> !Matches(Contents(), key, cmp)
    {
      var low, hi := 0, size - 1;
      ghost var s := Contents();
      while low <= hi
        invariant 0 <= low <= size && -1 <= hi < size
        invariant forall k :: 0 <= k < low ==> cmp(key, s[k]) > 0
        invariant forall k :: hi < k < size ==> cmp(key, s[k]) < 0
      {
        var mid := (low + hi) / 2;
        var val := cmp(key, qIndex[mid]);
        assert qIndex[mid] == s[mid];
        if val < 0 {
          hi := mid - 1;
        } else if val > 0 {
          low := mid + 1;
        } else {
          return mid;
        }
      }
      return -1;
    }

    /** Succeeds, given memory, exactly when an equal element exists, and then leaves the cursor on
        a node that holds one. */
    method Seek(key: T, cmp: (T, T) -> int, memory1: bool, memory2: bool, after: T)
      returns (d: Option<T>, inside: bool, ghost compared: bool)
      requires Valid() && TotalPreorder(cmp)
      requires sorted ==> Sorted(Contents(), cmp)
      modifies this, nodes`data
      ensures Valid() && nodes == old(nodes) && multiset(Contents()) == multiset(old(Contents()))
      ensures if !old(sorted) && memory1 && memory2 then SlotVerdict(old(Contents()), after, cmp, inside, compared)
              else inside && !compared
      ensures d.Some? <==>
              inside && (old(sorted) || (memory1 && memory2)) && Matches(old(Contents()), key, cmp)
      ensures d.Some? ==> cmp(key, d.value) == 0 && exists k :: CursorAt(k) && Contents()[k] == d.value
      ensures inside && (old(sorted) || (memory1 && memory2)) ==> sorted && Sorted(Contents(), cmp)
    {
      hide TotalPreorder, Sorted, SlotVerdict, Matches, Shape;
      SizeIsLength();
      ghost var was := Contents();
      inside, compared := true, false;
      if !sorted {
        var ok;
        ok, inside, compared := Sort(cmp, memory1, memory2, after);
        if !ok || !inside {
          return None, inside, compared;
        }
      }
      ghost var now := Contents();
      var idx := BSearch(key, cmp);
      SizeIsLength();
      if idx < 0 {
        assert !Matches(was, key, cmp) by { NoMatch(was, now, key, cmp); }
        return None, inside, compared;
      }
      cursor := posnIndex[idx];
      d := Some(qIndex[idx]);
      assert Contents() == now && CursorAt(idx) && now[idx] == d.value;
      MatchAt(was, now, idx, key, cmp);
    }

    /** Pushes and sorts. The result of the push is not looked at: when the node cannot be
        allocated the call still succeeds, without the new element. */
    method Insert(d: T, cmp: (T, T) -> int, memory: bool, memory1: bool, memory2: bool, after: T)
      returns (ok: bool, inside: bool, ghost compared: bool)
      requires Valid() && TotalPreorder(cmp)
      modifies this, nodes
      ensures Valid() && ok == (memory1 && memory2)
      ensures multiset(Contents()) == multiset(old(Contents())) + (if memory then multiset{d} else multiset{})
      ensures var held := (if memory then [d] else []) + old(Contents());
              if ok then SlotVerdict(held, after, cmp, inside, compared) else inside && !compared
      ensures ok && inside ==> sorted && Sorted(Contents(), cmp)
    {
      hide Indexed, TotalPreorder, Sorted, SlotVerdict, Shape;
      ghost var was := Contents();
      var _ := PushHead(d, memory);
      assert Contents() == (if memory then [d] else []) + was;
      ok, inside, compared := Sort(cmp, memory1, memory2, after);
    }
  }

  /** What sorting an index that holds s does about the word after it. */
  ghost predicate SlotVerdict<T(!new)>(s: seq<T>, after: T, cmp: (T, T) -> int, inside: bool, compared: bool) {
    SlotRule(s + [after], 0, |s| - 1, cmp, inside, compared)
  }

  lemma SortedPart<T(!new)>(t: seq<T>, s: seq<T>, contents: seq<T>, n: nat, cmp: (T, T) -> int)
    requires SortedRange(t, s, 0, n - 1, cmp) && |s| == n + 1 && s[..n] == contents
    ensures Sorted(t[..n], cmp) && multiset(t[..n]) == multiset(contents)
  {
  }

  ghost predicate Matches<T>(s: seq<T>, key: T, cmp: (T, T) -> int) {
    exists k :: 0 <= k < |s| && cmp(key, s[k]) == 0
  }

  lemma SameMatches<T>(s: seq<T>, t: seq<T>, key: T, cmp: (T, T) -> int)
    requires multiset(s) == multiset(t) && Matches(s, key, cmp)
    ensures Matches(t, key, cmp)
  {
    var k :| 0 <= k < |s| && cmp(key, s[k]) == 0;
    assert s[k] in multiset(s);
    assert s[k] in t;
  }

  lemma NoMatch<T>(was: seq<T>, now: seq<T>, key: T, cmp: (T, T) -> int)
    requires multiset(was) == multiset(now) && !Matches(now, key, cmp)
    ensures !Matches(was, key, cmp)
  {
    if Matches(was, key, cmp) {
      SameMatches(was, now, key, cmp);
    }
  }

  lemma MatchAt<T>(was: seq<T>, now: seq<T>, k: nat, key: T, cmp: (T, T) -> int)
    requires multiset(was) == multiset(now) && k < |now| && cmp(key, now[k]) == 0
    ensures Matches(was, key, cmp)
  {
    SameMatches(now, was, key, cmp);
  }

  /** The smallest case: 2 then 1, sorted in ascending order, compares the word after the index block, and
      reads on beyond it whenever that word is less than 2. */
  method SortTwoOne(after: int) returns (inside: bool, ghost compared: bool)
    ensures compared && (inside <==> after >= 2)
  {
    var cmp := (x: int, y: int) => x - y;
    var q := new Queue<int>();
    var _ := q.PushHead(1, true);
    var _ := q.PushHead(2, true);
    ghost var s := q.Contents();
    assert s == [2, 1];
    var ok;
    ok, inside, compared := q.Sort(cmp, true, true, after);
  }
}
