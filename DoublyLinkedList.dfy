/** The playlist's doubly linked list with a movable "current" cursor. The list
    is a chain of `Node` objects linked in place through `next` and `prev`; its
    abstract view is the ghost sequence `Nodes` of those objects, the ghost
    sequence `Contents` of their values, and the ghost index `Cursor` of the
    node that `current` points to. */
module LinkedList {
  import opened ListSpec

  /** One link of the chain. Its value is set once, by the constructor. */
  class Node<T> {
    const value: T
    var next: Node?<T>
    var prev: Node?<T>

    /** A node holding `value`, linked to nothing. */
    constructor (value: T)
      ensures this.value == value && next == null && prev == null
    {
      this.value := value;
      next := null;
      prev := null;
    }
  }

  class DoublyLinkedList<T(==)> {
    var head: Node?<T>
    var tail: Node?<T>
    var current: Node?<T>
    var size: nat

    // public view of the list
    ghost var Contents: seq<T>
    ghost var Cursor: nat
    // the chain itself, from head to tail
    ghost var Nodes: seq<Node<T>>

    /** The chain is well formed: the nodes are distinct; each holds its
        element of `Contents`; `prev` and `next` link
        each node to its neighbours in `Nodes` and are null at the two ends;
        `head` and `tail` are the first and last node. */
    ghost predicate Linked()
      reads this`Nodes, this`Contents, this`head, this`tail, Nodes
      ensures Linked() ==> (head == null <==> Contents == []) && (tail == null <==> Contents == [])
    {
      |Nodes| == |Contents| &&
      (forall i, j :: 0 <= i < j < |Nodes| ==> Nodes[i] != Nodes[j]) &&
      (forall i :: 0 <= i < |Nodes| ==> Nodes[i].value == Contents[i]) &&
      (forall i {:trigger Nodes[i].prev} :: 0 <= i < |Nodes| ==> Nodes[i].prev == if i == 0 then null else Nodes[i - 1]) &&
      (forall i {:trigger Nodes[i].next} :: 0 <= i < |Nodes| ==> Nodes[i].next == if i + 1 == |Nodes| then null else Nodes[i + 1]) &&
      if Nodes == [] then head == null && tail == null
      else head == Nodes[0] && tail == Nodes[|Nodes| - 1]
    }

    /** `current` is the node at `Cursor`, and is null exactly when the list
        is empty. */
    ghost predicate CursorOnList()
      reads this`Nodes, this`current, this`Cursor
      ensures CursorOnList() ==> (current == null <==> Nodes == []) && (current != null ==> current in Nodes)
    {
      if Nodes == [] then current == null
      else Cursor < |Nodes| && current == Nodes[Cursor]
    }

    /** Well-formedness: the chain is linked, `size` counts its nodes and the
        cursor is on it. */
    ghost predicate Valid()
      reads this, Nodes
      ensures Valid() ==> size == |Contents| && (head == null <==> size == 0) && (current == null <==> size == 0)
    {
      Linked() && size == |Nodes| && CursorOnList()
    }

    /** An empty list with no cursor. */
    constructor ()
      ensures Valid()
      ensures Contents == [] && current == null
    {
      head, tail, current, size := null, null, null, 0;
      Contents, Cursor, Nodes := [], 0, [];
    }

    /** Adds `value` at the end. The cursor moves to the new node only when the
        list was empty. */
    method Append(value: T)
      requires Valid()
      modifies this, Nodes
      ensures Valid()
      ensures Contents == old(Contents) + [value]
      ensures Nodes == old(Nodes) + [Nodes[|Nodes| - 1]] && fresh(Nodes[|Nodes| - 1])
      ensures old(Contents) == [] ==> Cursor == 0
      ensures old(Contents) != [] ==> current == old(current) && Cursor == old(Cursor)
    {
      var newNode := new Node(value);
      if head == null {
        head, tail, current := newNode, newNode, newNode;
        Nodes, Contents, Cursor := [newNode], [value], 0;
      } else {
        LinkLast(newNode);
      }
      size := size + 1;
    }

    /** The splice of append on a non-empty list: links the unlinked node `n`
        after `tail` and makes it the tail. */
    method LinkLast(n: Node<T>)
      requires Linked() && Nodes != [] && n !in Nodes && n.prev == null && n.next == null
      modifies this`tail, this`Nodes, this`Contents, tail, n
      ensures Linked() && Nodes == old(Nodes) + [n] && Contents == old(Contents) + [n.value]
    {
      n.prev := tail;
      tail.next := n;
      tail := n;
      Nodes, Contents := Nodes + [n], Contents + [n.value];
    }

    /** Adds `value` at the front. The cursor moves to the new node only when
        there was none (which happens only on an empty list); otherwise it stays
        on its node, now one place further from the head. */
    method Prepend(value: T)
      requires Valid()
      modifies this, Nodes
      ensures Valid()
      ensures Contents == [value] + old(Contents)
      ensures Nodes == [Nodes[0]] + old(Nodes) && fresh(Nodes[0])
      ensures old(Contents) == [] ==> Cursor == 0
      ensures old(Contents) != [] ==> current == old(current) && Cursor == old(Cursor) + 1
    {
      var newNode := new Node(value);
      if head == null {
        head, tail, current := newNode, newNode, newNode;
        Nodes, Contents, Cursor := [newNode], [value], 0;
      } else {
        LinkFirst(newNode);
        // the source's `if (!this.current)` guard never fires: a non-empty
        // valid list always has a cursor
        assert current != null;
        Cursor := Cursor + 1;
      }
      size := size + 1;
    }

    /** The splice of prepend on a non-empty list: links the unlinked node `n`
        before `head` and makes it the head. */
    method LinkFirst(n: Node<T>)
      requires Linked() && Nodes != [] && n !in Nodes && n.prev == null && n.next == null
      modifies this`head, this`Nodes, this`Contents, head, n
      ensures Linked() && Nodes == [n] + old(Nodes) && Contents == [n.value] + old(Contents)
    {
      ghost var nodes := Nodes;
      n.next := head;
      head.prev := n;
      head := n;
      Nodes, Contents := [n] + Nodes, [n.value] + Contents;
      forall k | 0 < k < |Nodes|
        ensures Nodes[k] == nodes[k - 1] && Nodes[k].prev == Nodes[k - 1]
      {
      }
    }

    /** Inserts `value` at position `index`, clamped to the list: `index <= 0`
        prepends and `index >= size` appends. The cursor stays on its node. */
    method InsertAt(index: int, value: T)
      requires Valid()
      modifies this, Nodes
      ensures Valid()
      ensures var at := if index <= 0 then 0 else if index >= old(size) then old(size) else index;
        Contents == InsertedAt(old(Contents), at, value) &&
        Nodes == InsertedAt(old(Nodes), at, Nodes[at]) && fresh(Nodes[at]) &&
        (old(Contents) == [] ==> Cursor == 0) &&
        (old(Contents) != [] ==>
          current == old(current) && Cursor == if old(Cursor) >= at then old(Cursor) + 1 else old(Cursor))
    {
      if index <= 0 {
        Prepend(value);
        InsertedAtEnds(old(Nodes), Nodes[0]);
        InsertedAtEnds(old(Contents), value);
        return;
      }
      if index >= size {
        Append(value);
        InsertedAtEnds(old(Nodes), Nodes[|Nodes| - 1]);
        InsertedAtEnds(old(Contents), value);
        return;
      }
      InsertInside(index, value);
    }

    /** insertAt strictly inside the list: walks to the node at `index` and
        splices a new node holding `value` in front of it. */
    method InsertInside(index: nat, value: T)
      requires Valid() && 0 < index < |Nodes|
      modifies this, Nodes
      ensures Valid()
      ensures Contents == InsertedAt(old(Contents), index, value)
      ensures Nodes == InsertedAt(old(Nodes), index, Nodes[index]) && fresh(Nodes[index])
      ensures current == old(current)
      ensures Cursor == if old(Cursor) >= index then old(Cursor) + 1 else old(Cursor)
    {
      var newNode := new Node(value);
      var cur := NodeAt(index);
      if Cursor >= index {
        Cursor := Cursor + 1;
      }
      size := size + 1;
      LinkBefore(newNode, cur, index);
    }

    /** insertAt's walk: follows `next` from the head `index` times. */
    method NodeAt(index: nat) returns (cur: Node<T>)
      requires Valid() && index < |Nodes|
      ensures cur == Nodes[index] && cur.value == Contents[index]
    {
      cur := head;
      for i := 0 to index
        invariant cur == Nodes[i]
      {
        cur := cur.next;
      }
    }

    /** The splice at the end of insertAt: links the node `n` in front of
        `cur`, the node at position `at`, which is not the head. */
    method LinkBefore(n: Node<T>, cur: Node<T>, ghost at: nat)
      requires Linked() && 0 < at < |Nodes| && cur == Nodes[at] && n !in Nodes
      modifies this`Nodes, this`Contents, n, cur, Nodes[at - 1]
      ensures Linked()
      ensures Nodes == InsertedAt(old(Nodes), at, n) && Contents == InsertedAt(old(Contents), at, n.value)
    {
      ghost var nodes := Nodes;
      n.prev := cur.prev;
      n.next := cur;
      cur.prev.next := n;
      cur.prev := n;
      Nodes := InsertedAt(Nodes, at, n);
      Contents := InsertedAt(Contents, at, n.value);
      forall k | 0 <= k < |Nodes|
        ensures k < at ==> Nodes[k] == nodes[k] && Nodes[k].prev == (if k == 0 then null else Nodes[k - 1])
        ensures k > at ==> Nodes[k] == nodes[k - 1] && Nodes[k].next == (if k + 1 == |Nodes| then null else Nodes[k + 1])
      {
      }
    }

    /** Unlinks the first node holding `value` and reports whether there was
        one. If the cursor was on that node it moves to the successor, or to
        the predecessor when the node was the tail. */
    method Remove(value: T) returns (removed: bool)
      requires Valid()
      modifies this, Nodes
      ensures Valid()
      ensures removed == (value in old(Contents))
      ensures !removed ==> unchanged(this)
      ensures removed ==>
        var k := FirstIndex(old(Contents), value);
        Contents == RemovedAt(old(Contents), k) &&
        Nodes == RemovedAt(old(Nodes), k) &&
        (old(Cursor) < k ==> current == old(current) && Cursor == old(Cursor)) &&
        (old(Cursor) > k ==> current == old(current) && Cursor == old(Cursor) - 1) &&
        (old(Cursor) == k && Contents != [] ==>
          Cursor == if k < |Contents| then k else k - 1)
    {
      var cur := head;
      ghost var i := 0;
      while cur != null
        invariant 0 <= i <= |Nodes|
        invariant cur == if i < |Nodes| then Nodes[i] else null
        invariant value !in Contents[..i]
        decreases |Nodes| - i
      {
        if cur.value == value {
          FirstIndexUnique(Contents, value, i);
          Unlink(cur, i);
          return true;
        }
        cur := cur.next;
        i := i + 1;
      }
      assert Contents[..i] == Contents;
      return false;
    }

    /** The body of remove once the node `cur` at position `at` is found:
        repairs the cursor if it was on `cur`, then unlinks `cur`. */
    method Unlink(cur: Node<T>, ghost at: nat)
      requires Valid() && at < |Nodes| && cur == Nodes[at]
      modifies this, Nodes
      ensures Valid()
      ensures Contents == RemovedAt(old(Contents), at) && Nodes == RemovedAt(old(Nodes), at)
      ensures old(Cursor) < at ==> current == old(current) && Cursor == old(Cursor)
      ensures old(Cursor) > at ==> current == old(current) && Cursor == old(Cursor) - 1
      ensures old(Cursor) == at && Contents != [] ==>
        Cursor == if at < |Contents| then at else at - 1
    {
      RepairCursor(cur, at);
      Bypass(cur, at);
      size := size - 1;
    }

    /** The first half of remove's unlinking: a cursor on `cur`, the node at
        position `at`, moves to its successor, or to its predecessor when
        `cur` is the tail; the cursor then sits on the chain that is left once
        `cur` is gone. */
    method RepairCursor(cur: Node<T>, ghost at: nat)
      requires Linked() && CursorOnList() && at < |Nodes| && cur == Nodes[at]
      modifies this`current, this`Cursor
      ensures var rest := RemovedAt(Nodes, at);
        (rest == [] ==> current == null) &&
        (rest != [] ==> Cursor < |rest| && current == rest[Cursor])
      ensures old(Cursor) < at ==> current == old(current) && Cursor == old(Cursor)
      ensures old(Cursor) > at ==> current == old(current) && Cursor == old(Cursor) - 1
      ensures old(Cursor) == at && |Nodes| > 1 ==>
        Cursor == if at + 1 < |Nodes| then at else at - 1
    {
      if cur == current {
        current := if cur.next != null then cur.next else cur.prev;
        Cursor := if cur.next == null && at > 0 then at - 1 else at;
      } else if Cursor > at {
        Cursor := Cursor - 1;
      }
    }

    /** Unlinks `cur`, the node at position `at`, by pointing its neighbours
        (or `head` and `tail`) past it. */
    method Bypass(cur: Node<T>, ghost at: nat)
      requires Linked() && at < |Nodes| && cur == Nodes[at]
      modifies this`head, this`tail, this`Nodes, this`Contents, Nodes
      ensures Linked()
      ensures Contents == RemovedAt(old(Contents), at) && Nodes == RemovedAt(old(Nodes), at)
    {
      ghost var nodes := Nodes;
      if cur.prev != null {
        cur.prev.next := cur.next;
      } else {
        head := cur.next;
      }
      if cur.next != null {
        cur.next.prev := cur.prev;
      } else {
        tail := cur.prev;
      }
      Nodes, Contents := RemovedAt(Nodes, at), RemovedAt(Contents, at);
      forall k | 0 <= k < |Nodes|
        ensures Nodes[k].prev == (if k == 0 then null else Nodes[k - 1])
        ensures Nodes[k].next == (if k + 1 == |Nodes| then null else Nodes[k + 1])
      {
        var j := if k < at then k else k + 1;
        assert Nodes[k] == nodes[j];
        if 0 < at && j != at - 1 {
          assert nodes[j] != nodes[at - 1];
        }
        if at + 1 < |nodes| && j != at + 1 {
          assert nodes[j] != nodes[at + 1];
        }
      }
    }

    /** Steps the cursor to its successor and returns that element; with no
        successor returns None and changes nothing. */
    method Next() returns (r: Option<T>)
      requires Valid()
      modifies this`current, this`Cursor
      ensures Valid()
      ensures if old(Cursor) + 1 < |Contents| then Cursor == old(Cursor) + 1 && r == Some(Contents[Cursor])
              else Cursor == old(Cursor) && current == old(current) && r == None
    {
      if current != null && current.next != null {
        current := current.next;
        Cursor := Cursor + 1;
        return Some(current.value);
      }
      return None;
    }

    /** Steps the cursor to its predecessor and returns that element; with no
        predecessor returns None and changes nothing. */
    method Previous() returns (r: Option<T>)
      requires Valid()
      modifies this`current, this`Cursor
      ensures Valid()
      ensures if Contents != [] && old(Cursor) > 0 then Cursor == old(Cursor) - 1 && r == Some(Contents[Cursor])
              else Cursor == old(Cursor) && current == old(current) && r == None
    {
      if current != null && current.prev != null {
        current := current.prev;
        Cursor := Cursor - 1;
        return Some(current.value);
      }
      return None;
    }

    /** The element under the cursor, or None for an empty list. */
    method GetCurrent() returns (r: Option<T>)
      requires Valid()
      ensures Contents == [] <==> r == None
      ensures Contents != [] ==> r == Some(Contents[Cursor])
    {
      if current == null {
        return None;
      }
      return Some(current.value);
    }

    /** The elements from head to tail. */
    method ToArray() returns (result: seq<T>)
      requires Valid()
      ensures result == Contents && |result| == size
    {
      result := [];
      var cur := head;
      ghost var i := 0;
      while cur != null
        invariant 0 <= i <= |Nodes|
        invariant cur == if i < |Nodes| then Nodes[i] else null
        invariant result == Contents[..i]
        decreases |Nodes| - i
      {
        result := result + [cur.value];
        cur := cur.next;
        i := i + 1;
      }
      assert Contents[..i] == Contents;
    }

    /** The elements satisfying `matches`, from head to tail. */
    method Search(matches: T -> bool) returns (result: seq<T>)
      requires Valid()
      ensures result == Filter(matches, Contents)
    {
      result := [];
      var cur := head;
      ghost var i := 0;
      while cur != null
        invariant 0 <= i <= |Nodes|
        invariant cur == if i < |Nodes| then Nodes[i] else null
        invariant result == Filter(matches, Contents[..i])
        decreases |Nodes| - i
      {
        assert Contents[..i + 1] == Contents[..i] + [Contents[i]];
        FilterAppend(matches, Contents[..i], [Contents[i]]);
        if matches(cur.value) {
          result := result + [cur.value];
        }
        cur := cur.next;
        i := i + 1;
      }
      assert Contents[..i] == Contents;
    }

    /** Moves the element at `fromIndex` to `toIndex` by rebuilding the list;
        does nothing when the indices are equal or either is outside the list.
        The cursor ends on whatever element is now at `fromIndex`. */
    method Reorder(fromIndex: int, toIndex: int)
      requires Valid()
      modifies this, Nodes
      ensures Valid()
      ensures if fromIndex == toIndex || fromIndex < 0 || toIndex < 0 ||
                 fromIndex >= old(size) || toIndex >= old(size)
              then unchanged(this)
              else Contents == Moved(old(Contents), fromIndex, toIndex) &&
                   multiset(Contents) == multiset(old(Contents)) &&
                   (forall i :: 0 <= i < |Nodes| ==> fresh(Nodes[i])) &&
                   Cursor == fromIndex && current != null &&
                   current.value == old(Contents)[if fromIndex < toIndex then fromIndex + 1 else fromIndex - 1]
    {
      if fromIndex == toIndex || fromIndex < 0 || toIndex < 0 || fromIndex >= size || toIndex >= size {
        return;
      }
      var items := ToArray();
      var movedItem := items[fromIndex];
      items := RemovedAt(items, fromIndex);
      items := InsertedAt(items, toIndex, movedItem);
      assert items == Moved(old(Contents), fromIndex, toIndex);

      head, tail, current, size := null, null, null, 0;
      Nodes, Contents := [], [];
      Rebuild(items, fromIndex);
      MovedAtFrom(old(Contents), fromIndex, toIndex);
      MovedPermutes(old(Contents), fromIndex, toIndex);
    }

    /** reorder's rebuild of the emptied list: appends `items` in order and
        puts the cursor on the node appended at position `fromIndex`. */
    method Rebuild(items: seq<T>, fromIndex: nat)
      requires Valid() && Nodes == [] && fromIndex < |items|
      modifies this
      ensures Valid() && Contents == items && Cursor == fromIndex
      ensures forall i :: 0 <= i < |Nodes| ==> fresh(Nodes[i])
    {
      for index := 0 to |items|
        invariant Valid() && forall i :: 0 <= i < |Nodes| ==> fresh(Nodes[i])
        invariant Contents == items[..index]
        invariant index > fromIndex ==> Cursor == fromIndex
      {
        Append(items[index]);
        if fromIndex == index {
          current := tail;
          Cursor := index;
        }
        assert items[..index + 1] == items[..index] + [items[index]];
      }
      assert items[..|items|] == items;
    }
  }
}
