/** A doubly linked ring closed by a data-less sentinel: the sentinel's
    `next` is the first node and its `previous` the last one. */
module CircularLinkedLists {
  import opened Outcomes
  import opened Sequences

  class Node<E> {
    var data: Nullable<E>
    var previous: Node?<E>
    var next: Node?<E>

    constructor (data: Nullable<E>, previous: Node?<E>, next: Node?<E>)
      ensures this.data == data && this.previous == previous && this.next == next
    {
      this.data := data;
      this.previous := previous;
      this.next := next;
    }
  }

  /** Following `next` from each node of `ns` reaches the one after it, and
      the last one leads back to the first. */
  ghost predicate Forward<E>(ns: seq<Node<E>>)
    reads ns
  {
    && |ns| > 0
    && (forall i :: 0 <= i < |ns| - 1 ==> ns[i].next == ns[i + 1])
    && ns[|ns| - 1].next == ns[0]
  }

  /** Following `previous` from each node of `ns` reaches the one before it,
      and the first one leads back to the last. */
  ghost predicate Backward<E>(ns: seq<Node<E>>)
    reads ns
  {
    && |ns| > 0
    && (forall i :: 1 <= i < |ns| ==> ns[i].previous == ns[i - 1])
    && ns[0].previous == ns[|ns| - 1]
  }

  /** The nodes after the first one carry `cs`, in order. */
  ghost predicate Carries<E>(ns: seq<Node<E>>, cs: seq<E>)
    reads ns
  {
    |ns| == |cs| + 1 && forall i :: 1 <= i < |ns| ==> ns[i].data == NonNull(cs[i - 1])
  }

  class CircularLinkedList<E(==)> {
    var size: int
    var sentinelHead: Node<E>

    /** The elements, in list order. */
    ghost var contents: seq<E>
    /** The ring read forwards from the sentinel: the sentinel, then one node
        per element. */
    ghost var nodes: seq<Node<E>>
    ghost var Repr: set<object>

    /** Object invariant: `nodes` is the ring from the sentinel, linked both
        ways, and the real nodes carry the contents. */
    ghost predicate Valid()
      reads this, Repr
      ensures Valid() ==> this in Repr
    {
      && this in Repr
      && |nodes| == |contents| + 1
      && size == |contents|
      && (forall i :: 0 <= i < |nodes| ==> nodes[i] in Repr)
      && nodes[0] == sentinelHead
      && sentinelHead.data == Null
      && Forward(nodes)
      && Backward(nodes)
      && Carries(nodes, contents)
      && Distinct(nodes)
    }

    /** An empty list: the sentinel alone, linked to itself both ways. */
    constructor ()
      ensures Valid() && fresh(Repr)
      ensures contents == []
      ensures sentinelHead.next == sentinelHead && sentinelHead.previous == sentinelHead
    {
      size := 0;
      var sentinel := new Node<E>(Null, null, null);
      sentinel.previous := sentinel;
      sentinel.next := sentinel;
      sentinelHead := sentinel;
      contents := [];
      nodes := [sentinel];
      Repr := {this, sentinel};
    }

    /** Appends between the last node and the sentinel. */
    method Add(element: Nullable<E>) returns (r: Result<bool>)
      requires Valid()
      modifies Repr
      ensures Valid() && fresh(Repr - old(Repr))
      ensures element.Null? ==> r == Err(NullArgument) && unchanged(old(Repr))
      ensures element.NonNull? ==> r == Ok(true) && contents == old(contents) + [element.value]
    {
      if element.Null? {
        return Err(NullArgument);
      }
      LinkBefore(sentinelHead, size, element);
      r := Ok(true);
    }

    /** Inserts before position `index`; `index == size` is out of bounds, and
        the index is checked before the element. */
    method AddAt(index: int, element: Nullable<E>) returns (r: Result<()>)
      requires Valid()
      modifies Repr
      ensures Valid() && fresh(Repr - old(Repr))
      ensures !(0 <= index < old(size)) ==> r == Err(IndexOutOfBounds) && unchanged(old(Repr))
      ensures 0 <= index < old(size) && element.Null? ==> r == Err(NullArgument) && unchanged(old(Repr))
      ensures 0 <= index < old(size) && element.NonNull? ==>
                && r == Ok(())
                && contents == old(contents)[..index] + [element.value] + old(contents)[index..]
    {
      if index < 0 || index >= size {
        return Err(IndexOutOfBounds);
      }
      if element.Null? {
        return Err(NullArgument);
      }
      var current := sentinelHead.next;
      var i := 0;
      while i < index
        invariant 0 <= i <= index && current == nodes[i + 1]
      {
        current := current.next;
        i := i + 1;
      }
      LinkBefore(current, index, element);
      r := Ok(());
    }

    /** Prepends: the new node goes between the sentinel and its successor,
        which on an empty list is the sentinel itself. */
    method AddFirst(element: Nullable<E>) returns (r: Result<()>)
      requires Valid()
      modifies Repr
      ensures Valid() && fresh(Repr - old(Repr))
      ensures element.Null? ==> r == Err(NullArgument) && unchanged(old(Repr))
      ensures element.NonNull? ==> r == Ok(()) && contents == [element.value] + old(contents)
    {
      if element.Null? {
        return Err(NullArgument);
      }
      assert sentinelHead.next == if size == 0 then sentinelHead else nodes[1];
      LinkBefore(sentinelHead.next, 0, element);
      r := Ok(());
    }

    /** `addFirst` as written delegates to `add(0, e)`, which rejects every
        index of an empty list; on a non-empty list it prepends. */
    method AddFirstAsWritten(element: Nullable<E>) returns (r: Result<()>)
      requires Valid()
      modifies Repr
      ensures Valid() && fresh(Repr - old(Repr))
      ensures old(contents) == [] ==> r == Err(IndexOutOfBounds) && unchanged(old(Repr))
      ensures old(contents) != [] && element.Null? ==> r == Err(NullArgument) && unchanged(old(Repr))
      ensures old(contents) != [] && element.NonNull? ==>
                r == Ok(()) && contents == [element.value] + old(contents)
    {
      r := AddAt(0, element);
    }

    /** Appends between the last node and the sentinel. */
    method AddLast(element: Nullable<E>) returns (r: Result<()>)
      requires Valid()
      modifies Repr
      ensures Valid() && fresh(Repr - old(Repr))
      ensures element.Null? ==> r == Err(NullArgument) && unchanged(old(Repr))
      ensures element.NonNull? ==> r == Ok(()) && contents == old(contents) + [element.value]
    {
      if element.Null? {
        return Err(NullArgument);
      }
      LinkBefore(sentinelHead, size, element);
      r := Ok(());
    }

    /** Starts over with a new self-linked sentinel. */
    method Clear()
      requires Valid()
      modifies Repr
      ensures Valid() && fresh(Repr - old(Repr))
      ensures contents == []
      ensures sentinelHead.next == sentinelHead && sentinelHead.previous == sentinelHead
    {
      size := 0;
      var sentinel := new Node<E>(Null, null, null);
      sentinel.previous := sentinel;
      sentinel.next := sentinel;
      sentinelHead := sentinel;
      contents := [];
      nodes := [sentinel];
      Repr := {this, sentinel};
    }

    method Contains(element: Nullable<E>) returns (r: Result<bool>)
      requires Valid()
      ensures element.Null? ==> r == Err(NullArgument)
      ensures element.NonNull? ==> r == Ok(element.value in contents)
    {
      if element.Null? {
        return Err(NullArgument);
      }
      var current := sentinelHead.next;
      var i := 0;
      while i < size
        invariant 0 <= i <= size
        invariant current == if i < size then nodes[i + 1] else sentinelHead
        invariant element.value !in contents[..i]
      {
        if current.data == element {
          return Ok(true);
        }
        assert contents[..i + 1] == contents[..i] + [contents[i]];
        current := current.next;
        i := i + 1;
      }
      assert contents[..size] == contents;
      r := Ok(false);
    }

    method Get(index: int) returns (r: Result<E>)
      requires Valid()
      ensures r == if 0 <= index < |contents| then Ok(contents[index]) else Err(IndexOutOfBounds)
    {
      if index < 0 || index >= size {
        return Err(IndexOutOfBounds);
      }
      var current := sentinelHead.next;
      var i := 0;
      while i < index
        invariant 0 <= i <= index && current == nodes[i + 1]
      {
        current := current.next;
        i := i + 1;
      }
      r := Ok(current.data.value);
    }

    method GetFirst() returns (r: Result<E>)
      requires Valid()
      ensures r == if |contents| == 0 then Err(NoSuchElement) else Ok(contents[0])
    {
      if size == 0 {
        return Err(NoSuchElement);
      }
      assert sentinelHead.next == nodes[1];
      r := Ok(sentinelHead.next.data.value);
    }

    /** The last element is reached backwards from the sentinel. */
    method GetLast() returns (r: Result<E>)
      requires Valid()
      ensures r == if |contents| == 0 then Err(NoSuchElement) else Ok(contents[|contents| - 1])
    {
      if size == 0 {
        return Err(NoSuchElement);
      }
      assert sentinelHead.previous == nodes[size];
      r := Ok(sentinelHead.previous.data.value);
    }

    /** First position holding the element, or -1. */
    method IndexOf(element: Nullable<E>) returns (r: Result<int>)
      requires Valid()
      ensures element.Null? ==> r == Err(NullArgument)
      ensures element.NonNull? ==> r.Ok? && -1 <= r.value < |contents|
      ensures element.NonNull? ==> (r.value == -1 <==> element.value !in contents)
      ensures element.NonNull? && r.value != -1 ==>
                contents[r.value] == element.value && element.value !in contents[..r.value]
    {
      if element.Null? {
        return Err(NullArgument);
      }
      var current := sentinelHead.next;
      var i := 0;
      while i < size
        invariant 0 <= i <= size
        invariant current == if i < size then nodes[i + 1] else sentinelHead
        invariant element.value !in contents[..i]
      {
        if current.data == element {
          return Ok(i);
        }
        assert contents[..i + 1] == contents[..i] + [contents[i]];
        current := current.next;
        i := i + 1;
      }
      assert contents[..size] == contents;
      r := Ok(-1);
    }

    method IsEmpty() returns (r: bool)
      requires Valid()
      ensures r <==> contents == []
    {
      r := size == 0;
    }

    /** Unlinks position `index` from both of its neighbours. */
    method RemoveAt(index: int) returns (r: Result<E>)
      requires Valid()
      modifies Repr
      ensures Valid() && Repr == old(Repr)
      ensures !(0 <= index < old(size)) ==> r == Err(IndexOutOfBounds) && unchanged(old(Repr))
      ensures 0 <= index < old(size) ==>
                && r == Ok(old(contents)[index])
                && contents == old(contents)[..index] + old(contents)[index + 1..]
    {
      if index < 0 || index >= size {
        return Err(IndexOutOfBounds);
      }
      var current := sentinelHead.next;
      var i := 0;
      while i < index
        invariant 0 <= i <= index && current == nodes[i + 1]
      {
        current := current.next;
        i := i + 1;
      }
      var data := current.data.value;
      Unlink(current, index);
      r := Ok(data);
    }

    /** Removes the first occurrence of the element, reporting whether there
        was one; the cursor advances on every step of the scan. */
    method RemoveElement(element: Nullable<E>) returns (r: Result<bool>)
      requires Valid()
      modifies Repr
      ensures Valid() && Repr == old(Repr)
      ensures element.Null? ==> r == Err(NullArgument) && unchanged(old(Repr))
      ensures element.NonNull? ==>
                && r == Ok(element.value in old(contents))
                && contents == RemoveOccurrence(old(contents), element.value)
    {
      if element.Null? {
        return Err(NullArgument);
      }
      var current := sentinelHead.next;
      var i := 0;
      while i < size
        invariant 0 <= i <= size
        invariant current == if i < size then nodes[i + 1] else sentinelHead
        invariant element.value !in contents[..i]
      {
        if current.data == element {
          break;
        }
        assert contents[..i + 1] == contents[..i] + [contents[i]];
        current := current.next;
        i := i + 1;
      }
      if i == size {
        assert contents[..size] == contents;
        RemoveOccurrenceAt(contents, element.value);
        return Ok(false);
      }
      RemoveOccurrenceFound(contents, element.value, i);
      Unlink(current, i);
      r := Ok(true);
    }

    method RemoveFirst() returns (r: Result<E>)
      requires Valid()
      modifies Repr
      ensures Valid() && Repr == old(Repr)
      ensures old(contents) == [] ==> r == Err(NoSuchElement) && unchanged(old(Repr))
      ensures old(contents) != [] ==> r == Ok(old(contents)[0]) && contents == old(contents)[1..]
    {
      if size == 0 {
        return Err(NoSuchElement);
      }
      r := RemoveAt(0);
    }

    /** Unlinks the sentinel's predecessor, with no traversal. */
    method RemoveLast() returns (r: Result<E>)
      requires Valid()
      modifies Repr
      ensures Valid() && Repr == old(Repr)
      ensures old(contents) == [] ==> r == Err(NoSuchElement) && unchanged(old(Repr))
      ensures old(contents) != [] ==>
                && r == Ok(old(contents)[|old(contents)| - 1])
                && contents == old(contents)[..|old(contents)| - 1]
    {
      if size == 0 {
        return Err(NoSuchElement);
      }
      var nodeToRemove := sentinelHead.previous;
      assert nodeToRemove == nodes[size];
      var data := nodeToRemove.data.value;
      Unlink(nodeToRemove, size - 1);
      r := Ok(data);
    }

    /** Replaces the data of position `index`, returning what was there. */
    method Set(index: int, element: Nullable<E>) returns (r: Result<E>)
      requires Valid()
      modifies Repr
      ensures Valid() && Repr == old(Repr)
      ensures !(0 <= index < old(size)) ==> r == Err(IndexOutOfBounds) && unchanged(old(Repr))
      ensures 0 <= index < old(size) && element.Null? ==> r == Err(NullArgument) && unchanged(old(Repr))
      ensures 0 <= index < old(size) && element.NonNull? ==>
                r == Ok(old(contents)[index]) && contents == old(contents)[index := element.value]
    {
      if index < 0 || index >= size {
        return Err(IndexOutOfBounds);
      }
      if element.Null? {
        return Err(NullArgument);
      }
      var current := sentinelHead.next;
      var i := 0;
      while i < index
        invariant 0 <= i <= index && current == nodes[i + 1]
      {
        current := current.next;
        i := i + 1;
      }
      var data := current.data.value;
      current.data := element;
      contents := contents[index := element.value];
      r := Ok(data);
    }

    method Size() returns (r: int)
      requires Valid()
      ensures r == |contents|
    {
      r := size;
    }

    /** `iterator()`: an iterator at the first element. */
    method Iterator() returns (it: CircularLinkedListIterator<E>)
      requires Valid()
      ensures fresh(it) && it.Valid() && it.list == this && it.position == 0
    {
      it := new CircularLinkedListIterator(this);
    }

    /** The splicing step of `add` and `add(int, E)`: a new node for `element`
        goes between `successor` and its predecessor, so that it becomes the
        element at position `k` (`k == size` puts it before the sentinel, at
        the end). */
    method LinkBefore(successor: Node<E>, ghost k: int, element: Nullable<E>)
      requires Valid() && 0 <= k <= size && element.NonNull?
      requires successor == if k < size then nodes[k + 1] else sentinelHead
      modifies Repr
      ensures Valid() && fresh(Repr - old(Repr))
      ensures contents == old(contents)[..k] + [element.value] + old(contents)[k..]
    {
      assert successor.previous == nodes[k];
      var newNode := new Node(element, successor.previous, successor);
      ghost var os := nodes;
      ghost var ns := os[..k + 1] + [newNode] + os[k + 1..];
      size := size + 1;
      contents := contents[..k] + [element.value] + contents[k..];
      nodes := ns;
      Repr := Repr + {newNode};
      forall j | 0 <= j < |ns|
        ensures ns[j] in Repr
      {
        if j <= k {
          assert ns[j] == os[j];
        } else if k + 1 < j {
          assert ns[j] == os[j - 1];
        }
      }
      Splice(os, k, newNode);
      SplicedData(os, old(contents), k, newNode, element.value);
      DistinctWith(os, k + 1, newNode);
    }

    /** The unlinking step of `remove(int)`, `remove(E)` and `removeLast`:
        `node`, the one holding position `k`, is bypassed in both directions. */
    method Unlink(node: Node<E>, ghost k: int)
      requires Valid() && 0 <= k < size && node == nodes[k + 1]
      modifies Repr
      ensures Valid() && Repr == old(Repr)
      ensures contents == old(contents)[..k] + old(contents)[k + 1..]
    {
      ghost var os := nodes;
      ghost var ns := os[..k + 1] + os[k + 2..];
      assert node.previous == os[k];
      size := size - 1;
      contents := contents[..k] + contents[k + 1..];
      nodes := ns;
      forall j | 0 <= j < |ns|
        ensures ns[j] in Repr
      {
        if j <= k {
          assert ns[j] == os[j];
        } else {
          assert ns[j] == os[j + 1];
        }
      }
      Bypass(os, k, node);
      CutData(os, old(contents), k);
      DistinctWithout(os, k + 1);
    }
  }

  /** The two writes of `add`, `add(int, E)` and `addLast` that splice
      `newNode`, whose own links already name its neighbours, into the ring:
      the neighbours are made to point at it. */
  method Splice<E>(ghost os: seq<Node<E>>, ghost k: int, newNode: Node<E>)
    requires Forward(os) && Backward(os) && Distinct(os) && 0 <= k < |os| && newNode !in os
    requires newNode.previous == os[k]
    requires newNode.next == os[if k < |os| - 1 then k + 1 else 0]
    modifies (os[k] as Node<E>)`next, (os[if k < |os| - 1 then k + 1 else 0] as Node<E>)`previous
    ensures Forward(os[..k + 1] + [newNode] + os[k + 1..])
    ensures Backward(os[..k + 1] + [newNode] + os[k + 1..])
  {
    ghost var m := if k < |os| - 1 then k + 1 else 0;
    newNode.previous.next := newNode;
    newNode.next.previous := newNode;
    forall i | 0 <= i < |os| && i != k
      ensures os[i].next == old(os[i].next)
    {
      assert os[i] != os[k];
    }
    forall i | 0 <= i < |os| && i != m
      ensures os[i].previous == old(os[i].previous)
    {
      assert os[i] != os[m];
    }
    SplicedForward(os, k, newNode);
    SplicedBackward(os, k, newNode);
  }

  /** The two writes of `remove(int)`, `remove(E)` and `removeLast` that take
      `node`, at position `k + 1`, out of the ring: its neighbours are made to
      point at each other. */
  method Bypass<E>(ghost os: seq<Node<E>>, ghost k: int, node: Node<E>)
    requires Forward(os) && Backward(os) && Distinct(os) && 0 <= k && k + 1 < |os|
    requires node == os[k + 1]
    modifies (os[k] as Node<E>)`next, (os[if k + 2 < |os| then k + 2 else 0] as Node<E>)`previous
    ensures Forward(os[..k + 1] + os[k + 2..])
    ensures Backward(os[..k + 1] + os[k + 2..])
  {
    ghost var m := if k + 2 < |os| then k + 2 else 0;
    assert node.previous == os[k] && node.next == os[m];
    node.previous.next := node.next;
    node.next.previous := node.previous;
    forall i | 0 <= i < |os| && i != k
      ensures os[i].next == old(os[i].next)
    {
      assert os[i] != os[k];
    }
    forall i | 0 <= i < |os| && i != m
      ensures os[i].previous == old(os[i].previous)
    {
      assert os[i] != os[m];
    }
    CutForward(os, k);
    CutBackward(os, k);
  }

  /** A ring whose `next` links all hold except at position `k`, where
      `newNode` now sits between position `k` and its successor, is a forward
      ring once `newNode` is spliced in. */
  lemma SplicedForward<E>(os: seq<Node<E>>, k: int, newNode: Node<E>)
    requires 0 <= k < |os|
    requires forall i :: 0 <= i < |os| - 1 && i != k ==> os[i].next == os[i + 1]
    requires k != |os| - 1 ==> os[|os| - 1].next == os[0]
    requires os[k].next == newNode
    requires newNode.next == if k < |os| - 1 then os[k + 1] else os[0]
    ensures Forward(os[..k + 1] + [newNode] + os[k + 1..])
  {
  }

  /** A ring whose `previous` links all hold except at the successor `m` of
      position `k`, which now points back at `newNode`, is a backward ring
      once `newNode` is spliced in after position `k`. */
  lemma SplicedBackward<E>(os: seq<Node<E>>, k: int, newNode: Node<E>)
    requires 0 <= k < |os|
    requires forall i :: 1 <= i < |os| && i != k + 1 ==> os[i].previous == os[i - 1]
    requires k < |os| - 1 ==> os[0].previous == os[|os| - 1]
    requires newNode.previous == os[k]
    requires os[if k < |os| - 1 then k + 1 else 0].previous == newNode
    ensures Backward(os[..k + 1] + [newNode] + os[k + 1..])
  {
  }

  /** Splicing a node that carries `e` in after position `k` inserts `e` at
      index `k` of the carried elements. */
  lemma SplicedData<E>(os: seq<Node<E>>, cs: seq<E>, k: int, newNode: Node<E>, e: E)
    requires Carries(os, cs) && 0 <= k < |os|
    requires newNode.data == NonNull(e)
    ensures Carries(os[..k + 1] + [newNode] + os[k + 1..], cs[..k] + [e] + cs[k..])
  {
  }

  /** A ring whose `next` links all hold except at position `k`, which now
      skips position `k + 1`, is a forward ring once that position is
      dropped. */
  lemma CutForward<E>(os: seq<Node<E>>, k: int)
    requires 0 <= k && k + 1 < |os|
    requires forall i :: 0 <= i < |os| - 1 && i != k ==> os[i].next == os[i + 1]
    requires os[|os| - 1].next == os[0]
    requires os[k].next == if k + 2 < |os| then os[k + 2] else os[0]
    ensures Forward(os[..k + 1] + os[k + 2..])
  {
  }

  /** A ring whose `previous` links all hold except at the successor of
      position `k + 1`, which now points back at position `k`, is a backward
      ring once position `k + 1` is dropped. */
  lemma CutBackward<E>(os: seq<Node<E>>, k: int)
    requires 0 <= k && k + 1 < |os|
    requires forall i :: 1 <= i < |os| && i != k + 2 ==> os[i].previous == os[i - 1]
    requires k + 2 < |os| ==> os[0].previous == os[|os| - 1]
    requires os[if k + 2 < |os| then k + 2 else 0].previous == os[k]
    ensures Backward(os[..k + 1] + os[k + 2..])
  {
  }

  /** Dropping position `k + 1` removes index `k` of the carried elements. */
  lemma CutData<E>(os: seq<Node<E>>, cs: seq<E>, k: int)
    requires Carries(os, cs) && 0 <= k && k + 1 < |os|
    ensures Carries(os[..k + 1] + os[k + 2..], cs[..k] + cs[k + 1..])
  {
  }

  /** The ring is consistent in both directions: every node is its
      successor's predecessor and its predecessor's successor. */
  lemma RingInvariant<E>(list: CircularLinkedList<E>)
    requires list.Valid()
    ensures forall n :: n in list.nodes ==>
              n.next != null && n.previous != null && n.next.previous == n && n.previous.next == n
  {
    var ns := list.nodes;
    forall n | n in ns
      ensures n.next != null && n.previous != null && n.next.previous == n && n.previous.next == n
    {
      var i :| 0 <= i < |ns| && ns[i] == n;
      if i < |ns| - 1 {
        assert ns[i + 1].previous == ns[i];
      } else {
        assert ns[0].previous == ns[i];
      }
      if 0 < i {
        assert ns[i - 1].next == ns[i];
      } else {
        assert ns[|ns| - 1].next == ns[0];
      }
    }
  }

  /** A forward cursor over a CircularLinkedList that is not modified
      meanwhile; `position` counts the elements already returned, and the
      cursor is back at the sentinel once all have been. */
  class CircularLinkedListIterator<E(==)> {
    const list: CircularLinkedList<E>
    var current: Node<E>
    ghost var position: int

    ghost predicate Valid()
      reads this, list, list.Repr
    {
      && list.Valid()
      && this !in list.Repr
      && 0 <= position <= |list.contents|
      && current == if position < |list.contents| then list.nodes[position + 1] else list.sentinelHead
    }

    constructor (list: CircularLinkedList<E>)
      requires list.Valid()
      ensures Valid() && this.list == list && position == 0
    {
      this.list := list;
      assert list.sentinelHead.next == if |list.contents| > 0 then list.nodes[1] else list.sentinelHead;
      current := list.sentinelHead.next;
      position := 0;
    }

    method HasNext() returns (r: bool)
      requires Valid()
      ensures r <==> position < |list.contents|
    {
      r := current != list.sentinelHead;
    }

    method Next() returns (r: Result<E>)
      requires Valid()
      modifies this
      ensures Valid()
      ensures old(position) < |list.contents| ==>
                r == Ok(list.contents[old(position)]) && position == old(position) + 1
      ensures old(position) >= |list.contents| ==> r == Err(NoSuchElement) && position == old(position)
    {
      if current == list.sentinelHead {
        return Err(NoSuchElement);
      }
      var data := current.data.value;
      assert current.next == if position + 1 < |list.contents| then list.nodes[position + 2] else list.sentinelHead;
      current := current.next;
      position := position + 1;
      r := Ok(data);
    }
  }

  /** A full traversal with a fresh iterator yields the contents in order, and
      one more step then fails. */
  method Drain<E(==)>(list: CircularLinkedList<E>) returns (yielded: seq<E>, last: Result<E>)
    requires list.Valid()
    ensures yielded == list.contents
    ensures last == Err(NoSuchElement)
  {
    var it := list.Iterator();
    yielded := [];
    var more := it.HasNext();
    while more
      invariant it.Valid() && it.list == list
      invariant yielded == list.contents[..it.position]
      invariant more <==> it.position < |list.contents|
      decreases |list.contents| - it.position
    {
      var x := it.Next();
      yielded := yielded + [x.value];
      more := it.HasNext();
    }
    assert list.contents[..it.position] == list.contents;
    last := it.Next();
  }
}
