/** A stack kept in an ArrayList with its top at the high end: push appends,
    pop removes the last element. */
module ArrayListStacks {
  import opened Outcomes
  import opened Sequences
  import opened ArrayLists

  /** A stack, bottom to top, after pushing `x`. */
  function PushTop<E>(s: seq<E>, x: E): (r: seq<E>)
    ensures |r| == |s| + 1 && r[|s|] == x && r[..|s|] == s
  {
    s + [x]
  }

  /** The top of a non-empty stack, and what is left beneath it. */
  function PopTop<E>(s: seq<E>): (r: (E, seq<E>))
    requires s != []
    ensures PushTop(r.1, r.0) == s
  {
    (s[|s| - 1], s[..|s| - 1])
  }

  /** A stack after pushing `xs`, first to last. */
  function PushAll<E>(s: seq<E>, xs: seq<E>): (r: seq<E>)
    ensures |r| == |s| + |xs|
    decreases |xs|
  {
    if xs == [] then s else PushAll(PushTop(s, xs[0]), xs[1..])
  }

  /** The first `n` values popped off `s`, in popping order, and the stack
      left after them. */
  function PopN<E>(s: seq<E>, n: nat): (r: (seq<E>, seq<E>))
    requires n <= |s|
    ensures |r.0| == n && |r.1| == |s| - n
  {
    if n == 0 then ([], s)
    else
      var (x, t) := PopTop(s);
      var (xs, u) := PopN(t, n - 1);
      ([x] + xs, u)
  }

  /** Pushing piles the values on top, in order. */
  lemma {:induction false} PushAllAppends<E>(s: seq<E>, xs: seq<E>)
    ensures PushAll(s, xs) == s + xs
    decreases |xs|
  {
    if xs != [] {
      PushAllAppends(PushTop(s, xs[0]), xs[1..]);
      assert s + [xs[0]] + xs[1..] == s + xs;
    }
  }

  /** LIFO: popping as many values as were pushed returns them last first and
      leaves the stack as it was. */
  lemma {:induction false} PopsUndoPushes<E>(s: seq<E>, xs: seq<E>)
    ensures PopN(PushAll(s, xs), |xs|) == (Reverse(xs), s)
    decreases |xs|
  {
    PushAllAppends(s, xs);
    if xs != [] {
      var n := |xs| - 1;
      assert (s + xs)[..|s + xs| - 1] == s + xs[..n];
      PushAllAppends(s, xs[..n]);
      PopsUndoPushes(s, xs[..n]);
    }
  }

  class ArrayListStack<E(==)> {
    const arrayList: ArrayList<E>
    ghost var Repr: set<object>

    /** Object invariant: the stack owns its list. */
    ghost predicate Valid()
      reads this, Repr
      ensures Valid() ==> this in Repr
    {
      && this in Repr
      && arrayList in Repr
      && arrayList.Repr <= Repr
      && this !in arrayList.Repr
      && arrayList.Valid()
      && Repr == {this} + arrayList.Repr
    }

    /** The elements, bottom to top. */
    ghost function Contents(): seq<E>
      reads this, arrayList
    {
      arrayList.contents
    }

    constructor ()
      ensures Valid() && fresh(Repr) && Contents() == []
    {
      arrayList := new ArrayList();
      new;
      Repr := {this} + arrayList.Repr;
    }

    method Empty() returns (r: bool)
      requires Valid()
      ensures r <==> Contents() == []
    {
      r := arrayList.IsEmpty();
    }

    /** The top element, read in place. */
    method Peek() returns (r: Result<E>)
      requires Valid()
      ensures Contents() == [] ==> r == Err(EmptyStack)
      ensures Contents() != [] ==> r == Ok(PopTop(Contents()).0)
    {
      var empty := arrayList.IsEmpty();
      if empty {
        return Err(EmptyStack);
      }
      var n := arrayList.Size();
      r := arrayList.Get(n - 1);
    }

    /** Removes and returns the top element. */
    method Pop() returns (r: Result<E>)
      requires Valid()
      modifies Repr
      ensures Valid() && fresh(Repr - old(Repr))
      ensures old(Contents()) == [] ==> r == Err(EmptyStack) && unchanged(old(Repr))
      ensures old(Contents()) != [] ==> r.Ok? && (r.value, Contents()) == PopTop(old(Contents()))
    {
      var empty := arrayList.IsEmpty();
      if empty {
        return Err(EmptyStack);
      }
      var n := arrayList.Size();
      ghost var c := arrayList.contents;
      r := arrayList.RemoveAt(n - 1);
      assert c[n..] == [] && arrayList.contents == c[..n - 1];
      Repr := {this} + arrayList.Repr;
    }

    /** Pushes a non-null element and hands it back. */
    method Push(element: Nullable<E>) returns (r: Result<E>)
      requires Valid()
      modifies Repr
      ensures Valid() && fresh(Repr - old(Repr))
      ensures element.Null? ==> r == Err(NullArgument) && unchanged(old(Repr))
      ensures element.NonNull? ==> r == Ok(element.value) && Contents() == PushTop(old(Contents()), element.value)
    {
      if element.Null? {
        return Err(NullArgument);
      }
      var _ := arrayList.Add(element);
      Repr := {this} + arrayList.Repr;
      r := Ok(element.value);
    }

    /** `size - indexOf(e)`: the 1-based distance from the top of the
        bottom-most occurrence, or -1 when the element is absent. */
    method Search(element: Nullable<E>) returns (r: Result<int>)
      requires Valid()
      ensures element.Null? ==> r == Err(NullArgument)
      ensures element.NonNull? ==> r.Ok? && (r.value == -1 <==> element.value !in Contents())
      ensures element.NonNull? && r.value != -1 ==>
                && 1 <= r.value <= |Contents()|
                && Contents()[|Contents()| - r.value] == element.value
                && element.value !in Contents()[..|Contents()| - r.value]
    {
      if element.Null? {
        return Err(NullArgument);
      }
      var index := arrayList.IndexOf(element);
      if index.value == -1 {
        return Ok(-1);
      }
      var n := arrayList.Size();
      r := Ok(n - index.value);
    }

    method Size() returns (r: int)
      requires Valid()
      ensures r == |Contents()|
    {
      r := arrayList.Size();
    }

    /** `iterator()`: an iterator at the top. */
    method Iterator() returns (it: ArrayListStackIterator<E>)
      requires Valid()
      ensures fresh(it) && it.Valid() && it.stack == this && it.currentIndex == |Contents()| - 1
    {
      it := new ArrayListStackIterator(this);
    }
  }

  /** A top-down cursor over a stack that is not modified meanwhile:
      `currentIndex` is the position returned next, -1 once exhausted. */
  class ArrayListStackIterator<E(==)> {
    const stack: ArrayListStack<E>
    var currentIndex: int

    ghost predicate Valid()
      reads this, stack, stack.Repr
    {
      && stack.Valid()
      && this !in stack.Repr
      && -1 <= currentIndex < |stack.Contents()|
    }

    constructor (stack: ArrayListStack<E>)
      requires stack.Valid()
      ensures Valid() && this.stack == stack && currentIndex == |stack.Contents()| - 1
    {
      this.stack := stack;
      new;
      var n := stack.arrayList.Size();
      currentIndex := n - 1;
    }

    method HasNext() returns (r: bool)
      requires Valid()
      ensures r <==> currentIndex >= 0
    {
      r := currentIndex >= 0;
    }

    method Next() returns (r: Result<E>)
      requires Valid()
      modifies this
      ensures Valid()
      ensures old(currentIndex) >= 0 ==>
                r == Ok(stack.Contents()[old(currentIndex)]) && currentIndex == old(currentIndex) - 1
      ensures old(currentIndex) < 0 ==> r == Err(NoSuchElement) && currentIndex == old(currentIndex)
    {
      if currentIndex < 0 {
        return Err(NoSuchElement);
      }
      currentIndex := currentIndex - 1;
      r := stack.arrayList.Get(currentIndex + 1);
    }
  }

  /** A full traversal with a fresh iterator yields the elements from top to
      bottom, and one more step then fails. */
  method Drain<E(==)>(stack: ArrayListStack<E>) returns (yielded: seq<E>, last: Result<E>)
    requires stack.Valid()
    ensures yielded == Reverse(stack.Contents())
    ensures last == Err(NoSuchElement)
  {
    var it := stack.Iterator();
    ghost var c := stack.Contents();
    yielded := [];
    var more := it.HasNext();
    while more
      invariant it.Valid() && it.stack == stack && stack.Contents() == c
      invariant |yielded| == |c| - 1 - it.currentIndex
      invariant forall j :: 0 <= j < |yielded| ==> yielded[j] == c[|c| - 1 - j]
      invariant more <==> it.currentIndex >= 0
      decreases it.currentIndex
    {
      var x := it.Next();
      yielded := yielded + [x.value];
      more := it.HasNext();
    }
    ReverseFromEnds(c, yielded);
    last := it.Next();
  }
}
