/** A stack kept in a SinglyLinkedList with its top at the head: push
    prepends, pop removes the first element. */
module LinkedListStacks {
  import opened Outcomes
  import opened Sequences
  import opened SinglyLinkedLists

  /** A stack, top first, after pushing `x`. */
  function PushHead<E>(s: seq<E>, x: E): (r: seq<E>)
    ensures |r| == |s| + 1 && r[0] == x && r[1..] == s
  {
    [x] + s
  }

  /** The top of a non-empty stack, and what is left beneath it. */
  function PopHead<E>(s: seq<E>): (r: (E, seq<E>))
    requires s != []
    ensures PushHead(r.1, r.0) == s
  {
    (s[0], s[1..])
  }

  /** A stack after pushing `xs`, first to last. */
  function PushAll<E>(s: seq<E>, xs: seq<E>): (r: seq<E>)
    ensures |r| == |s| + |xs|
    decreases |xs|
  {
    if xs == [] then s else PushAll(PushHead(s, xs[0]), xs[1..])
  }

  /** The first `n` values popped off `s`, in popping order, and the stack
      left after them. */
  function PopN<E>(s: seq<E>, n: nat): (r: (seq<E>, seq<E>))
    requires n <= |s|
    ensures |r.0| == n && |r.1| == |s| - n
  {
    if n == 0 then ([], s)
    else
      var (x, t) := PopHead(s);
      var (xs, u) := PopN(t, n - 1);
      ([x] + xs, u)
  }

  /** Pushing puts the values in front, the last one first. */
  lemma {:induction false} PushAllPrepends<E>(s: seq<E>, xs: seq<E>)
    ensures PushAll(s, xs) == Reverse(xs) + s
    decreases |xs|
  {
    if xs != [] {
      PushAllPrepends(PushHead(s, xs[0]), xs[1..]);
      assert xs == [xs[0]] + xs[1..];
      ReverseAppend([xs[0]], xs[1..]);
      assert Reverse([xs[0]]) == [xs[0]] + Reverse([xs[0]][..0]);
    }
  }

  /** Popping `n` values takes the first `n`, in order. */
  lemma {:induction false} PopNSplits<E>(s: seq<E>, n: nat)
    requires n <= |s|
    ensures PopN(s, n) == (s[..n], s[n..])
  {
    if n > 0 {
      PopNSplits(s[1..], n - 1);
      assert s[..n] == [s[0]] + s[1..][..n - 1];
    }
  }

  /** LIFO: popping as many values as were pushed returns them last first and
      leaves the stack as it was. */
  lemma PopsUndoPushes<E>(s: seq<E>, xs: seq<E>)
    ensures PopN(PushAll(s, xs), |xs|) == (Reverse(xs), s)
  {
    PushAllPrepends(s, xs);
    PopNSplits(Reverse(xs) + s, |xs|);
    assert (Reverse(xs) + s)[..|xs|] == Reverse(xs);
    assert (Reverse(xs) + s)[|xs|..] == s;
  }

  class LinkedListStack<E(==)> {
    const linkedList: SinglyLinkedList<E>
    ghost var Repr: set<object>

    /** Object invariant: the stack owns its list. */
    ghost predicate Valid()
      reads this, Repr
      ensures Valid() ==> this in Repr
    {
      && this in Repr
      && linkedList in Repr
      && linkedList.Repr <= Repr
      && this !in linkedList.Repr
      && linkedList.Valid()
      && Repr == {this} + linkedList.Repr
    }

    /** The elements, top first. */
    ghost function Contents(): seq<E>
      reads this, linkedList
    {
      linkedList.contents
    }

    constructor ()
      ensures Valid() && fresh(Repr) && Contents() == []
    {
      linkedList := new SinglyLinkedList();
      new;
      Repr := {this} + linkedList.Repr;
    }

    method Empty() returns (r: bool)
      requires Valid()
      ensures r <==> Contents() == []
    {
      r := linkedList.IsEmpty();
    }

    /** The top element, read in place. */
    method Peek() returns (r: Result<E>)
      requires Valid()
      ensures Contents() == [] ==> r == Err(EmptyStack)
      ensures Contents() != [] ==> r == Ok(PopHead(Contents()).0)
    {
      var empty := linkedList.IsEmpty();
      if empty {
        return Err(EmptyStack);
      }
      r := linkedList.GetFirst();
    }

    /** Removes and returns the top element. */
    method Pop() returns (r: Result<E>)
      requires Valid()
      modifies Repr
      ensures Valid() && fresh(Repr - old(Repr))
      ensures old(Contents()) == [] ==> r == Err(EmptyStack) && unchanged(old(Repr))
      ensures old(Contents()) != [] ==> r.Ok? && (r.value, Contents()) == PopHead(old(Contents()))
    {
      var empty := linkedList.IsEmpty();
      if empty {
        return Err(EmptyStack);
      }
      r := linkedList.RemoveFirst();
      Repr := {this} + linkedList.Repr;
    }

    /** Pushes a non-null element and hands it back. */
    method Push(element: Nullable<E>) returns (r: Result<E>)
      requires Valid()
      modifies Repr
      ensures Valid() && fresh(Repr - old(Repr))
      ensures element.Null? ==> r == Err(NullArgument) && unchanged(old(Repr))
      ensures element.NonNull? ==> r == Ok(element.value) && Contents() == PushHead(old(Contents()), element.value)
    {
      if element.Null? {
        return Err(NullArgument);
      }
      var _ := linkedList.AddFirst(element);
      Repr := {this} + linkedList.Repr;
      r := Ok(element.value);
    }

    /** `indexOf(e) + 1`: the 1-based distance from the top of the topmost
        occurrence, or -1 when the element is absent. */
    method Search(element: Nullable<E>) returns (r: Result<int>)
      requires Valid()
      ensures element.Null? ==> r == Err(NullArgument)
      ensures element.NonNull? ==> r.Ok? && (r.value == -1 <==> element.value !in Contents())
      ensures element.NonNull? && r.value != -1 ==>
                && 1 <= r.value <= |Contents()|
                && Contents()[r.value - 1] == element.value
                && element.value !in Contents()[..r.value - 1]
    {
      if element.Null? {
        return Err(NullArgument);
      }
      var index := linkedList.IndexOf(element);
      if index.value == -1 {
        return Ok(-1);
      }
      r := Ok(index.value + 1);
    }

    method Size() returns (r: int)
      requires Valid()
      ensures r == |Contents()|
    {
      r := linkedList.Size();
    }

    /** `iterator()`: an iterator at the top. */
    method Iterator() returns (it: LinkedListStackIterator<E>)
      requires Valid()
      ensures fresh(it) && fresh(it.linkedListIterator) && it.Valid() && it.stack == this && it.Position() == 0
    {
      it := new LinkedListStackIterator(this);
    }
  }

  /** A top-down cursor over a stack that is not modified meanwhile, passing
      each step on to a cursor over the list. */
  class LinkedListStackIterator<E(==)> {
    const stack: LinkedListStack<E>
    const linkedListIterator: SinglyLinkedListIterator<E>

    ghost predicate Valid()
      reads this, stack, stack.Repr, linkedListIterator
    {
      && stack.Valid()
      && this !in stack.Repr
      && linkedListIterator.list == stack.linkedList
      && linkedListIterator.Valid()
    }

    /** Elements already returned. */
    ghost function Position(): int
      reads linkedListIterator
    {
      linkedListIterator.position
    }

    constructor (stack: LinkedListStack<E>)
      requires stack.Valid()
      ensures Valid() && this.stack == stack && Position() == 0 && fresh(linkedListIterator)
    {
      var listIterator := stack.linkedList.Iterator();
      this.stack := stack;
      linkedListIterator := listIterator;
    }

    method HasNext() returns (r: bool)
      requires Valid()
      ensures r <==> Position() < |stack.Contents()|
    {
      r := linkedListIterator.HasNext();
    }

    method Next() returns (r: Result<E>)
      requires Valid()
      modifies linkedListIterator
      ensures Valid()
      ensures old(Position()) < |stack.Contents()| ==>
                r == Ok(stack.Contents()[old(Position())]) && Position() == old(Position()) + 1
      ensures old(Position()) >= |stack.Contents()| ==> r == Err(NoSuchElement) && Position() == old(Position())
    {
      var more := linkedListIterator.HasNext();
      if !more {
        return Err(NoSuchElement);
      }
      r := linkedListIterator.Next();
    }
  }

  /** A full traversal with a fresh iterator yields the elements from top to
      bottom, and one more step then fails. */
  method Drain<E(==)>(stack: LinkedListStack<E>) returns (yielded: seq<E>, last: Result<E>)
    requires stack.Valid()
    ensures yielded == stack.Contents()
    ensures last == Err(NoSuchElement)
  {
    var it := stack.Iterator();
    ghost var c := stack.Contents();
    yielded := [];
    var more := it.HasNext();
    while more
      invariant it.Valid() && it.stack == stack && stack.Contents() == c
      invariant 0 <= it.Position() <= |c| && yielded == c[..it.Position()]
      invariant more <==> it.Position() < |c|
      decreases |c| - it.Position()
    {
      var x := it.Next();
      yielded := yielded + [x.value];
      more := it.HasNext();
    }
    assert c[..it.Position()] == c;
    last := it.Next();
  }
}
