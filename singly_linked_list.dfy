/** A singly linked chain behind a data-less sentinel head, with a tail
    pointer for constant-time append. */
module SinglyLinkedLists {
  import opened Outcomes
  import opened Sequences

  class Node<E> {
    var data: Nullable<E>
    var next: Node?<E>

    constructor (data: Nullable<E>, next: Node?<E>)
      ensures this.data == data && this.next == next
    {
      this.data := data;
      this.next := next;
    }
  }

  /** Each node of `ns` links to the one after it. */
  ghost predicate Linked<E>(ns: seq<Node<E>>)
    reads ns
  {
    forall i :: 0 <= i < |ns| - 1 ==> ns[i].next == ns[i + 1]
  }

  /** The nodes after the first one carry `cs`, in order. */
  ghost predicate Carries<E>(ns: seq<Node<E>>, cs: seq<E>)
    reads ns
  {
    |ns| == |cs| + 1 && forall i :: 1 <= i < |ns| ==> ns[i].data == NonNull(cs[i - 1])
  }

  /** A chain whose links all hold except at position `k`, where `newNode`
      now sits between positions `k` and `k + 1`, is linked once `newNode` is
      spliced in. */
  lemma SplicedLinked<E>(os: seq<Node<E>>, k: int, newNode: Node<E>)
    requires 0 <= k < |os| - 1
    requires forall i :: 0 <= i < |os| - 1 && i != k ==> os[i].next == os[i + 1]
    requires os[k].next == newNode && newNode.next == os[k + 1]
    ensures Linked(os[..k + 1] + [newNode] + os[k + 1..])
  {
  }

  /** Splicing a node that carries `e` in after position `k` inserts `e` at
      index `k` of the carried elements. */
  lemma SplicedData<E>(os: seq<Node<E>>, cs: seq<E>, k: int, newNode: Node<E>, e: E)
    requires Carries(os, cs) && 0 <= k < |os|
    requires newNode.data == NonNull(e)
    ensures Carries(os[..k + 1] + [newNode] + os[k + 1..], cs[..k] + [e] + cs[k..])
  {
    var ns := os[..k + 1] + [newNode] + os[k + 1..];
    var ds := cs[..k] + [e] + cs[k..];
    forall j | 1 <= j < |ns|
      ensures ns[j].data == NonNull(ds[j - 1])
    {
      if j <= k {
        assert ns[j] == os[j] && ds[j - 1] == cs[j - 1];
      } else if k + 1 < j {
        assert ns[j] == os[j - 1] && ds[j - 1] == cs[j - 2];
      }
    }
  }

  /** A chain whose links all hold except at position `k`, which now skips
      position `k + 1`, is linked once position `k + 1` is dropped. */
  lemma CutLinked<E>(os: seq<Node<E>>, k: int)
    requires 0 <= k && k + 2 < |os|
    requires forall i :: 0 <= i < |os| - 1 && i != k ==> os[i].next == os[i + 1]
    requires os[k].next == os[k + 2]
    ensures Linked(os[..k + 1] + os[k + 2..])
  {
  }

  /** Dropping position `k + 1` removes index `k` of the carried elements. */
  lemma CutData<E>(os: seq<Node<E>>, cs: seq<E>, k: int)
    requires Carries(os, cs) && 0 <= k && k + 1 < |os|
    ensures Carries(os[..k + 1] + os[k + 2..], cs[..k] + cs[k + 1..])
  {
    var ns := os[..k + 1] + os[k + 2..];
    var ds := cs[..k] + cs[k + 1..];
    forall j | 1 <= j < |ns|
      ensures ns[j].data == NonNull(ds[j - 1])
    {
      if j <= k {
        assert ns[j] == os[j] && ds[j - 1] == cs[j - 1];
      } else {
        assert ns[j] == os[j + 1] && ds[j - 1] == cs[j];
      }
    }
  }

  class SinglyLinkedList<E(==)> {
    var size: int
    var sentinelHead: Node<E>
    var tail: Node<E>

    /** The elements, in list order. */
    ghost var contents: seq<E>
    /** The chain as it is linked: the sentinel, then one node per element. */
    ghost var nodes: seq<Node<E>>
    ghost var Repr: set<object>

    /** Object invariant: `nodes` is the chain from the sentinel, each node's
        `next` is its successor, the last one's is null and `tail` is the last
        node (the sentinel when empty); real nodes carry the contents. */
    ghost predicate Valid()
      reads this, Repr
      ensures Valid() ==> this in Repr
    {
      && this in Repr
      && |nodes| == |contents| + 1
      && size == |contents|
      && (forall i :: 0 <= i < |nodes| ==> nodes[i] in Repr)
      && nodes[0] == sentinelHead
      && nodes[|nodes| - 1] == tail
      && sentinelHead.data == Null
      && Linked(nodes)
      && tail.next == null
      && Carries(nodes, contents)
      && Distinct(nodes)
    }

    /** An empty list: the sentinel alone, which is also the tail. Public here,
        as `LinkedListStack` requires. */
    constructor ()
      ensures Valid() && fresh(Repr)
      ensures contents == [] && tail == sentinelHead
    {
      size := 0;
      var sentinel := new Node<E>(Null, null);
      sentinelHead := sentinel;
      tail := sentinel;
      contents := [];
      nodes := [sentinel];
      Repr := {this, sentinel};
    }

    /** Appends after the tail node. */
    method Add(element: Nullable<E>) returns (r: Result<bool>)
      requires Valid()
      modifies Repr
      ensures Valid() && fresh(Repr - old(Repr))
      ensures element.Null? ==> r == Err(NullArgument) && unchanged(old(Repr))
      ensures element.NonNull? ==> r == Ok(true) && contents == old(contents) + [element.value]
      ensures element.NonNull? ==> fresh(tail) && tail.data == element
    {
      if element.Null? {
        return Err(NullArgument);
      }
      tail.next := new Node(element, null);
      tail := tail.next;
      size := size + 1;
      contents := contents + [element.value];
      nodes := nodes + [tail];
      Repr := Repr + {tail};
      r := Ok(true);
    }

    /** Inserts before position `index`; `index == size` is out of bounds, and
        the index is checked before the element. */
    method AddAt(index: int, element: Nullable<E>) returns (r: Result<()>)
      requires Valid()
      modifies Repr
      ensures Valid() && fresh(Repr - old(Repr))
      ensures !(0 <= index < old(size)) ==> r == Err(IndexOutOfBounds) && unchanged(old(Repr))
      ensures 0 <= index < old(size) && element.Null? ==> r == Err(NullArgument) && unchanged(old(Repr))
      ensures 0 <= index < old(size) && element.NonNull? ==>
                && r == Ok(())
                && contents == old(contents)[..index] + [element.value] + old(contents)[index..]
    {
      if index < 0 || index >= size {
        return Err(IndexOutOfBounds);
      }
      if element.Null? {
        return Err(NullArgument);
      }
      var current := sentinelHead;
      var i := 0;
      while i < index
        invariant 0 <= i <= index && current == nodes[i]
      {
        current := current.next;
        i := i + 1;
      }
      LinkAfter(current, i, element);
      r := Ok(());
    }

    /** Prepends right after the sentinel; on an empty list the new node also
        becomes the tail. */
    method AddFirst(element: Nullable<E>) returns (r: Result<()>)
      requires Valid()
      modifies Repr
      ensures Valid() && fresh(Repr - old(Repr))
      ensures element.Null? ==> r == Err(NullArgument) && unchanged(old(Repr))
      ensures element.NonNull? ==> r == Ok(()) && contents == [element.value] + old(contents)
    {
      if element.Null? {
        return Err(NullArgument);
      }
      var newNode := new Node(element, sentinelHead.next);
      sentinelHead.next := newNode;
      if size == 0 {
        tail := newNode;
      }
      size := size + 1;
      contents := [element.value] + contents;
      nodes := [sentinelHead, newNode] + nodes[1..];
      Repr := Repr + {newNode};
      r := Ok(());
    }

    /** Appends after the tail node. */
    method AddLast(element: Nullable<E>) returns (r: Result<()>)
      requires Valid()
      modifies Repr
      ensures Valid() && fresh(Repr - old(Repr))
      ensures element.Null? ==> r == Err(NullArgument) && unchanged(old(Repr))
      ensures element.NonNull? ==> r == Ok(()) && contents == old(contents) + [element.value]
      ensures element.NonNull? ==> fresh(tail) && tail.data == element
    {
      if element.Null? {
        return Err(NullArgument);
      }
      var newNode := new Node(element, null);
      tail.next := newNode;
      tail := newNode;
      size := size + 1;
      contents := contents + [element.value];
      nodes := nodes + [newNode];
      Repr := Repr + {newNode};
      r := Ok(());
    }

    /** Starts over with a new sentinel that is also the tail. */
    method Clear()
      requires Valid()
      modifies Repr
      ensures Valid() && fresh(Repr - old(Repr))
      ensures contents == [] && tail == sentinelHead
    {
      size := 0;
      var sentinel := new Node<E>(Null, null);
      sentinelHead := sentinel;
      tail := sentinel;
      contents := [];
      nodes := [sentinel];
      Repr := {this, sentinel};
    }

    method Contains(element: Nullable<E>) returns (r: Result<bool>)
      requires Valid()
      ensures element.Null? ==> r == Err(NullArgument)
      ensures element.NonNull? ==> r == Ok(element.value in contents)
    {
      if element.Null? {
        return Err(NullArgument);
      }
      var current := sentinelHead.next;
      var i := 0;
      while i < size
        invariant 0 <= i <= size
        invariant current == if i < size then nodes[i + 1] else null
        invariant element.value !in contents[..i]
      {
        if current.data == element {
          return Ok(true);
        }
        assert contents[..i + 1] == contents[..i] + [contents[i]];
        current := current.next;
        i := i + 1;
      }
      assert contents[..size] == contents;
      r := Ok(false);
    }

    method Get(index: int) returns (r: Result<E>)
      requires Valid()
      ensures r == if 0 <= index < |contents| then Ok(contents[index]) else Err(IndexOutOfBounds)
    {
      if index < 0 || index >= size {
        return Err(IndexOutOfBounds);
      }
      var current := sentinelHead.next;
      var i := 0;
      while i < index
        invariant 0 <= i <= index && current == nodes[i + 1]
      {
        current := current.next;
        i := i + 1;
      }
      r := Ok(current.data.value);
    }

    method GetFirst() returns (r: Result<E>)
      requires Valid()
      ensures r == if |contents| == 0 then Err(NoSuchElement) else Ok(contents[0])
    {
      if size == 0 {
        return Err(NoSuchElement);
      }
      assert sentinelHead.next == nodes[1];
      r := Ok(sentinelHead.next.data.value);
    }

    method GetLast() returns (r: Result<E>)
      requires Valid()
      ensures r == if |contents| == 0 then Err(NoSuchElement) else Ok(contents[|contents| - 1])
    {
      if size == 0 {
        return Err(NoSuchElement);
      }
      r := Ok(tail.data.value);
    }

    /** First position holding the element, or -1. */
    method IndexOf(element: Nullable<E>) returns (r: Result<int>)
      requires Valid()
      ensures element.Null? ==> r == Err(NullArgument)
      ensures element.NonNull? ==> r.Ok? && -1 <= r.value < |contents|
      ensures element.NonNull? ==> (r.value == -1 <==> element.value !in contents)
      ensures element.NonNull? && r.value != -1 ==>
                contents[r.value] == element.value && element.value !in contents[..r.value]
    {
      if element.Null? {
        return Err(NullArgument);
      }
      var current := sentinelHead.next;
      var i := 0;
      while i < size
        invariant 0 <= i <= size
        invariant current == if i < size then nodes[i + 1] else null
        invariant element.value !in contents[..i]
      {
        if current.data == element {
          return Ok(i);
        }
        assert contents[..i + 1] == contents[..i] + [contents[i]];
        current := current.next;
        i := i + 1;
      }
      assert contents[..size] == contents;
      r := Ok(-1);
    }

    method IsEmpty() returns (r: bool)
      requires Valid()
      ensures r <==> contents == []
    {
      r := size == 0;
    }

    /** Unlinks position `index`; removing the last element moves the tail to
        its predecessor. */
    method RemoveAt(index: int) returns (r: Result<E>)
      requires Valid()
      modifies Repr
      ensures Valid() && fresh(Repr - old(Repr))
      ensures !(0 <= index < old(size)) ==> r == Err(IndexOutOfBounds) && unchanged(old(Repr))
      ensures 0 <= index < old(size) ==>
                && r == Ok(old(contents)[index])
                && contents == old(contents)[..index] + old(contents)[index + 1..]
    {
      if index < 0 || index >= size {
        return Err(IndexOutOfBounds);
      }
      var current := sentinelHead;
      var i := 0;
      while i < index
        invariant 0 <= i <= index && current == nodes[i]
      {
        current := current.next;
        i := i + 1;
      }
      assert current.next == nodes[index + 1];
      var data := current.next.data.value;
      UnlinkAfter(current, index);
      r := Ok(data);
    }

    /** Removes the first occurrence of the element, reporting whether there
        was one; the cursor advances on every step of the scan. */
    method RemoveElement(element: Nullable<E>) returns (r: Result<bool>)
      requires Valid()
      modifies Repr
      ensures Valid() && fresh(Repr - old(Repr))
      ensures element.Null? ==> r == Err(NullArgument) && unchanged(old(Repr))
      ensures element.NonNull? ==>
                && r == Ok(element.value in old(contents))
                && contents == RemoveOccurrence(old(contents), element.value)
    {
      if element.Null? {
        return Err(NullArgument);
      }
      var current := sentinelHead;
      var i := 0;
      while i < size
        invariant 0 <= i <= size && current == nodes[i]
        invariant element.value !in contents[..i]
      {
        assert current.next == nodes[i + 1];
        if current.next.data == element {
          break;
        }
        assert contents[..i + 1] == contents[..i] + [contents[i]];
        current := current.next;
        i := i + 1;
      }
      if i == size {
        assert contents[..size] == contents;
        RemoveOccurrenceAt(contents, element.value);
        return Ok(false);
      }
      RemoveOccurrenceFound(contents, element.value, i);
      UnlinkAfter(current, i);
      r := Ok(true);
    }

    method RemoveFirst() returns (r: Result<E>)
      requires Valid()
      modifies Repr
      ensures Valid() && fresh(Repr - old(Repr))
      ensures old(contents) == [] ==> r == Err(NoSuchElement) && unchanged(old(Repr))
      ensures old(contents) != [] ==> r == Ok(old(contents)[0]) && contents == old(contents)[1..]
    {
      if size == 0 {
        return Err(NoSuchElement);
      }
      r := RemoveAt(0);
    }

    method RemoveLast() returns (r: Result<E>)
      requires Valid()
      modifies Repr
      ensures Valid() && fresh(Repr - old(Repr))
      ensures old(contents) == [] ==> r == Err(NoSuchElement) && unchanged(old(Repr))
      ensures old(contents) != [] ==>
                && r == Ok(old(contents)[|old(contents)| - 1])
                && contents == old(contents)[..|old(contents)| - 1]
    {
      if size == 0 {
        return Err(NoSuchElement);
      }
      r := RemoveAt(size - 1);
    }

    /** Replaces the data of position `index`, returning what was there. */
    method Set(index: int, element: Nullable<E>) returns (r: Result<E>)
      requires Valid()
      modifies Repr
      ensures Valid() && fresh(Repr - old(Repr))
      ensures !(0 <= index < old(size)) ==> r == Err(IndexOutOfBounds) && unchanged(old(Repr))
      ensures 0 <= index < old(size) && element.Null? ==> r == Err(NullArgument) && unchanged(old(Repr))
      ensures 0 <= index < old(size) && element.NonNull? ==>
                r == Ok(old(contents)[index]) && contents == old(contents)[index := element.value]
    {
      if index < 0 || index >= size {
        return Err(IndexOutOfBounds);
      }
      if element.Null? {
        return Err(NullArgument);
      }
      var current := sentinelHead.next;
      var i := 0;
      while i < index
        invariant 0 <= i <= index && current == nodes[i + 1]
      {
        current := current.next;
        i := i + 1;
      }
      var data := current.data.value;
      current.data := element;
      contents := contents[index := element.value];
      r := Ok(data);
    }

    /** The relinking step of `add(int, E)`: a new node for `element` goes
        right after `previous`, the node at chain position `k`; as `k` is
        before the last position, the tail stays where it is. */
    method LinkAfter(previous: Node<E>, ghost k: int, element: Nullable<E>)
      requires Valid() && 0 <= k < size && previous == nodes[k] && element.NonNull?
      modifies Repr
      ensures Valid() && fresh(Repr - old(Repr))
      ensures contents == old(contents)[..k] + [element.value] + old(contents)[k..]
    {
      assert previous.next == nodes[k + 1];
      var newNode := new Node(element, previous.next);
      ghost var os := nodes;
      ghost var ns := os[..k + 1] + [newNode] + os[k + 1..];
      previous.next := newNode;
      size := size + 1;
      contents := contents[..k] + [element.value] + contents[k..];
      nodes := ns;
      Repr := Repr + {newNode};
      forall j | 0 <= j < |ns|
        ensures ns[j] in Repr
      {
        if j <= k {
          assert ns[j] == os[j];
        } else if k + 1 < j {
          assert ns[j] == os[j - 1];
        }
      }
      assert ns[|ns| - 1] == os[|os| - 1];
      SplicedLinked(os, k, newNode);
      SplicedData(os, old(contents), k, newNode, element.value);
      DistinctWith(os, k + 1, newNode);
    }

    /** The unlinking step shared by `remove(int)` and `remove(E)`: the node
        after `previous` (chain position `k`) is bypassed, and when it was the
        tail, `previous` becomes the tail. */
    method UnlinkAfter(previous: Node<E>, ghost k: int)
      requires Valid() && 0 <= k < size && previous == nodes[k]
      modifies Repr
      ensures Valid() && Repr == old(Repr)
      ensures contents == old(contents)[..k] + old(contents)[k + 1..]
    {
      ghost var os := nodes;
      ghost var ns := os[..k + 1] + os[k + 2..];
      assert previous.next == os[k + 1];
      assert previous.next == tail <==> k == size - 1;
      if previous.next == tail {
        tail := previous;
      }
      previous.next := previous.next.next;
      size := size - 1;
      contents := contents[..k] + contents[k + 1..];
      nodes := ns;
      forall j | 0 <= j < |ns|
        ensures ns[j] in Repr
      {
        if j <= k {
          assert ns[j] == os[j];
        } else {
          assert ns[j] == os[j + 1];
        }
      }
      assert k + 1 < |ns| ==> ns[|ns| - 1] == os[|os| - 1];
      if k + 2 < |os| {
        CutLinked(os, k);
      } else {
        assert ns == os[..k + 1];
      }
      CutData(os, old(contents), k);
      DistinctWithout(os, k + 1);
    }

    method Size() returns (r: int)
      requires Valid()
      ensures r == |contents|
    {
      r := size;
    }

    /** `iterator()`: an iterator at the first element. */
    method Iterator() returns (it: SinglyLinkedListIterator<E>)
      requires Valid()
      ensures fresh(it) && it.Valid() && it.list == this && it.position == 0
    {
      it := new SinglyLinkedListIterator(this);
    }
  }

  /** The chain as `add` and `addFirst` see it, as values: the elements
      reachable from the sentinel, and the chain position of the node `tail`
      designates (0 is the sentinel). */
  datatype Chain<E> = Chain(elems: seq<E>, tail: nat)

  /** `add` hangs a new node after the tail node, so whatever followed that
      node is no longer reachable. */
  function ChainAdd<E>(c: Chain<E>, e: E): (r: Chain<E>)
    requires c.tail <= |c.elems|
    ensures r.tail == |r.elems| == c.tail + 1 && r.elems[..c.tail] == c.elems[..c.tail] && r.elems[c.tail] == e
    ensures c.tail == |c.elems| ==> r.elems == c.elems + [e]
  {
    Chain(c.elems[..c.tail] + [e], c.tail + 1)
  }

  /** `addFirst` as written: a new first node, but `tail` keeps designating
      the node it did, which on an empty list is the sentinel. */
  function ChainAddFirstAsWritten<E>(c: Chain<E>, e: E): (r: Chain<E>)
    requires c.tail <= |c.elems|
    ensures r.elems == [e] + c.elems && r.tail <= |r.elems|
    ensures c.elems == [] ==> r.tail == 0
    ensures c.elems != [] && c.tail == |c.elems| ==> r.tail == |r.elems|
  {
    Chain([e] + c.elems, if c.tail == 0 then 0 else c.tail + 1)
  }

  /** As written, `addFirst(a)` on an empty list followed by `add(b)` leaves
      only `b` reachable: the node holding `a` is overwritten as the
      sentinel's successor. */
  lemma AddFirstAsWrittenLosesHead<E>(a: E, b: E)
    ensures ChainAdd(ChainAddFirstAsWritten(Chain([], 0), a), b).elems == [b]
  {
  }

  /** A forward cursor over a SinglyLinkedList that is not modified meanwhile;
      `position` counts the elements already returned. */
  class SinglyLinkedListIterator<E(==)> {
    const list: SinglyLinkedList<E>
    var current: Node?<E>
    ghost var position: int

    ghost predicate Valid()
      reads this, list, list.Repr
    {
      && list.Valid()
      && this !in list.Repr
      && 0 <= position <= |list.contents|
      && current == if position < |list.contents| then list.nodes[position + 1] else null
    }

    constructor (list: SinglyLinkedList<E>)
      requires list.Valid()
      ensures Valid() && this.list == list && position == 0
    {
      this.list := list;
      current := list.sentinelHead.next;
      position := 0;
    }

    method HasNext() returns (r: bool)
      requires Valid()
      ensures r <==> position < |list.contents|
    {
      r := current != null;
    }

    method Next() returns (r: Result<E>)
      requires Valid()
      modifies this
      ensures Valid()
      ensures old(position) < |list.contents| ==>
                r == Ok(list.contents[old(position)]) && position == old(position) + 1
      ensures old(position) >= |list.contents| ==> r == Err(NoSuchElement) && position == old(position)
    {
      if current == null {
        return Err(NoSuchElement);
      }
      var data := current.data.value;
      current := current.next;
      position := position + 1;
      r := Ok(data);
    }
  }

  /** A full traversal with a fresh iterator yields the contents in order, and
      one more step then fails. */
  method Drain<E(==)>(list: SinglyLinkedList<E>) returns (yielded: seq<E>, last: Result<E>)
    requires list.Valid()
    ensures yielded == list.contents
    ensures last == Err(NoSuchElement)
  {
    var it := list.Iterator();
    yielded := [];
    var more := it.HasNext();
    while more
      invariant it.Valid() && it.list == list
      invariant yielded == list.contents[..it.position]
      invariant more <==> it.position < |list.contents|
      decreases |list.contents| - it.position
    {
      var x := it.Next();
      yielded := yielded + [x.value];
      more := it.HasNext();
    }
    assert list.contents[..it.position] == list.contents;
    last := it.Next();
  }
}
