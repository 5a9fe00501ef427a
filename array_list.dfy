/** A dynamic array: a backing array whose first `size` slots hold the
    elements and whose remaining slots are null, doubled when full. */
module ArrayLists {
  import opened Outcomes
  import opened Sequences

  class ArrayList<E(==)> {
    var size: int
    var capacity: int
    var arr:  array<Nullable<E>>

    /** The elements, in list order. */
    ghost var contents: seq<E>
    ghost var Repr: set<object>

    /** Object invariant: `0 <= size <= capacity == arr.Length`, the live
        prefix holds the contents and every slot past it is null. */
    ghost predicate Valid()
      reads this, Repr
      ensures Valid() ==> this in Repr
    {
      && Repr == {this, arr}
      && 1 <= capacity == arr.Length
      && 0 <= size <= capacity
      && size == |contents|
      && (forall i :: 0 <= i < size ==> arr[i] == NonNull(contents[i]))
      && (forall i :: size <= i < capacity ==> arr[i] == Null)
    }

    /** An empty list with room for one element. */
    constructor ()
      ensures Valid() && fresh(Repr)
      ensures contents == [] && capacity == 1
    {
      size := 0;
      capacity := 1;
      arr := new Nullable<E>[1](_ => Null);
      contents := [];
      Repr := {this, arr};
    }

    /** Appends, doubling the capacity first when the array is full. */
    method Add(element: Nullable<E>) returns (r: Result<bool>)
      requires Valid()
      modifies Repr
      ensures Valid() && fresh(Repr - old(Repr))
      ensures element.Null? ==> r == Err(NullArgument) && unchanged(old(Repr))
      ensures element.NonNull? ==> r == Ok(true) && contents == old(contents) + [element.value]
      ensures element.NonNull? ==>
                capacity == if old(size) == old(capacity) then 2 * old(capacity) else old(capacity)
    {
      if element.Null? {
        return Err(NullArgument);
      }
      if size == capacity {
        ResizeArray(capacity * 2);
      }
      arr[size] := element;
      size := size + 1;
      contents := contents + [element.value];
      r := Ok(true);
    }

    /** Inserts before position `index`; `index == size` is out of bounds, and
        the index is checked before the element. */
    method AddAt(index: int, element: Nullable<E>) returns (r: Result<()>)
      requires Valid()
      modifies Repr
      ensures Valid() && fresh(Repr - old(Repr))
      ensures !(0 <= index < old(size)) ==> r == Err(IndexOutOfBounds) && unchanged(old(Repr))
      ensures 0 <= index < old(size) && element.Null? ==> r == Err(NullArgument) && unchanged(old(Repr))
      ensures 0 <= index < old(size) && element.NonNull? ==>
                && r == Ok(())
                && contents == old(contents)[..index] + [element.value] + old(contents)[index..]
                && capacity == if old(size) == old(capacity) then 2 * old(capacity) else old(capacity)
    {
      if index < 0 || index >= size {
        return Err(IndexOutOfBounds);
      }
      if element.Null? {
        return Err(NullArgument);
      }
      if size == capacity {
        ResizeArray(capacity * 2);
      }
      ShiftRight(index);
      arr[index] := element;
      ghost var c := contents[..index] + [element.value] + contents[index..];
      assert forall j :: 0 <= j <= size ==> arr[j] == NonNull(c[j]);
      size := size + 1;
      contents := c;
      r := Ok(());
    }

    /** Drops every element and the grown capacity: a fresh one-slot array. */
    method Clear()
      requires Valid()
      modifies Repr
      ensures Valid() && fresh(Repr - old(Repr))
      ensures contents == [] && capacity == 1
    {
      size := 0;
      capacity := 1;
      arr := new Nullable<E>[1](_ => Null);
      contents := [];
      Repr := {this, arr};
    }

    /** Membership, scanning the live prefix `[0, size)` only. */
    method Contains(element: Nullable<E>) returns (r: Result<bool>)
      requires Valid()
      ensures element.Null? ==> r == Err(NullArgument)
      ensures element.NonNull? ==> r == Ok(element.value in contents)
    {
      if element.Null? {
        return Err(NullArgument);
      }
      var i := 0;
      while i < size
        invariant 0 <= i <= size
        invariant element.value !in contents[..i]
      {
        if arr[i] == element {
          return Ok(true);
        }
        assert contents[..i + 1] == contents[..i] + [contents[i]];
        i := i + 1;
      }
      assert contents[..size] == contents;
      r := Ok(false);
    }

    method Get(index: int) returns (r: Result<E>)
      requires Valid()
      ensures r == if 0 <= index < |contents| then Ok(contents[index]) else Err(IndexOutOfBounds)
    {
      if index < 0 || index >= size {
        return Err(IndexOutOfBounds);
      }
      r := Ok(arr[index].value);
    }

    /** First position holding the element, or -1. */
    method IndexOf(element: Nullable<E>) returns (r: Result<int>)
      requires Valid()
      ensures element.Null? ==> r == Err(NullArgument)
      ensures element.NonNull? ==> r.Ok? && -1 <= r.value < |contents|
      ensures element.NonNull? ==> (r.value == -1 <==> element.value !in contents)
      ensures element.NonNull? && r.value != -1 ==>
                contents[r.value] == element.value && element.value !in contents[..r.value]
    {
      if element.Null? {
        return Err(NullArgument);
      }
      var i := 0;
      while i < size
        invariant 0 <= i <= size
        invariant element.value !in contents[..i]
      {
        if arr[i] == element {
          return Ok(i);
        }
        assert contents[..i + 1] == contents[..i] + [contents[i]];
        i := i + 1;
      }
      assert contents[..size] == contents;
      r := Ok(-1);
    }

    method IsEmpty() returns (r: bool)
      requires Valid()
      ensures r <==> contents == []
    {
      r := size == 0;
    }

    /** Removes position `index`, shifting the tail left and nulling the
        vacated last slot. */
    method RemoveAt(index: int) returns (r: Result<E>)
      requires Valid()
      modifies Repr
      ensures Valid() && fresh(Repr - old(Repr))
      ensures !(0 <= index < old(size)) ==> r == Err(IndexOutOfBounds) && unchanged(old(Repr))
      ensures 0 <= index < old(size) ==>
                && r == Ok(old(contents)[index])
                && contents == old(contents)[..index] + old(contents)[index + 1..]
                && capacity == old(capacity)
    {
      if index < 0 || index >= size {
        return Err(IndexOutOfBounds);
      }
      var data := arr[index].value;
      ghost var a := arr[..];
      var i := index + 1;
      while i < size
        invariant index + 1 <= i <= size
        invariant forall j :: 0 <= j < index ==> arr[j] == a[j]
        invariant forall j :: index <= j < i - 1 ==> arr[j] == a[j + 1]
        invariant forall j :: i - 1 <= j < capacity ==> arr[j] == a[j]
        modifies arr
      {
        arr[i - 1] := arr[i];
        i := i + 1;
      }
      arr[size - 1] := Null;
      size := size - 1;
      contents := contents[..index] + contents[index + 1..];
      r := Ok(data);
    }

    /** Removes the first occurrence of the element, reporting whether there was one. */
    method RemoveElement(element: Nullable<E>) returns (r: Result<bool>)
      requires Valid()
      modifies Repr
      ensures Valid() && fresh(Repr - old(Repr))
      ensures element.Null? ==> r == Err(NullArgument) && unchanged(old(Repr))
      ensures element.NonNull? ==>
                && r == Ok(element.value in old(contents))
                && contents == RemoveOccurrence(old(contents), element.value)
                && capacity == old(capacity)
    {
      if element.Null? {
        return Err(NullArgument);
      }
      RemoveOccurrenceAt(contents, element.value);
      var i := 0;
      while i < size
        invariant 0 <= i <= size
        invariant element.value !in contents[..i]
      {
        if arr[i] == element {
          IndexOfUnique(contents, element.value, i);
          var removed := RemoveAt(i);
          return Ok(true);
        }
        assert contents[..i + 1] == contents[..i] + [contents[i]];
        i := i + 1;
      }
      assert contents[..size] == contents;
      r := Ok(false);
    }

    /** Replaces position `index`, returning what was there. */
    method Set(index: int, element: Nullable<E>) returns (r: Result<E>)
      requires Valid()
      modifies Repr
      ensures Valid() && fresh(Repr - old(Repr))
      ensures !(0 <= index < old(size)) ==> r == Err(IndexOutOfBounds) && unchanged(old(Repr))
      ensures 0 <= index < old(size) && element.Null? ==> r == Err(NullArgument) && unchanged(old(Repr))
      ensures 0 <= index < old(size) && element.NonNull? ==>
                && r == Ok(old(contents)[index])
                && contents == old(contents)[index := element.value]
                && capacity == old(capacity)
    {
      if index < 0 || index >= size {
        return Err(IndexOutOfBounds);
      }
      if element.Null? {
        return Err(NullArgument);
      }
      var data := arr[index].value;
      arr[index] := element;
      contents := contents[index := element.value];
      r := Ok(data);
    }

    method Size() returns (r: int)
      requires Valid()
      ensures r == |contents|
    {
      r := size;
    }

    /** `iterator()`: an iterator at index 0. */
    method Iterator() returns (it: ArrayListIterator<E>)
      requires Valid()
      ensures fresh(it) && it.Valid() && it.list == this && it.current == 0
    {
      it := new ArrayListIterator(this);
    }

    /** The shift loop of `add(int, E)`: moves slots `[index, size)` one place
        up into the spare slot at `size`, leaving a duplicate at `index`. */
    method ShiftRight(index: int)
      requires Valid() && 0 <= index < size < capacity
      modifies arr
      ensures forall j :: 0 <= j <= index ==> arr[j] == old(arr[j])
      ensures forall j :: index < j <= size ==> arr[j] == old(arr[j - 1])
      ensures forall j :: size < j < capacity ==> arr[j] == old(arr[j])
    {
      var i := size - 1;
      while i >= index
        invariant index - 1 <= i <= size - 1
        invariant forall j :: 0 <= j <= i + 1 ==> arr[j] == old(arr[j])
        invariant forall j :: i + 2 <= j <= size ==> arr[j] == old(arr[j - 1])
        invariant forall j :: size < j < capacity ==> arr[j] == old(arr[j])
        decreases i - index
      {
        arr[i + 1] := arr[i];
        i := i - 1;
      }
    }

    /** Moves the live prefix into a fresh array of `newCapacity` null slots. */
    method ResizeArray(newCapacity: int)
      requires Valid() && size < newCapacity
      modifies this
      ensures Valid() && fresh(arr) && Repr == {this, arr}
      ensures contents == old(contents) && capacity == newCapacity
    {
      var newArray := new Nullable<E>[newCapacity](_ => Null);
      var i := 0;
      while i < size
        invariant 0 <= i <= size
        invariant forall j :: 0 <= j < i ==> newArray[j] == arr[j]
        invariant forall j :: i <= j < newCapacity ==> newArray[j] == Null
        modifies newArray
      {
        newArray[i] := arr[i];
        i := i + 1;
      }
      arr := newArray;
      capacity := newCapacity;
      Repr := {this, arr};
    }
  }

  /** A forward cursor over an ArrayList that is not modified meanwhile. */
  class ArrayListIterator<E(==)> {
    const list: ArrayList<E>
    var current: int

    ghost predicate Valid()
      reads this, list, list.Repr
    {
      list.Valid() && this !in list.Repr && 0 <= current <= list.size
    }

    constructor (list: ArrayList<E>)
      requires list.Valid()
      ensures Valid() && this.list == list && current == 0
    {
      this.list := list;
      current := 0;
    }

    method HasNext() returns (r: bool)
      requires Valid()
      ensures r <==> current < |list.contents|
    {
      r := current != list.size;
    }

    method Next() returns (r: Result<E>)
      requires Valid()
      modifies this
      ensures Valid()
      ensures old(current) < |list.contents| ==>
                r == Ok(list.contents[old(current)]) && current == old(current) + 1
      ensures old(current) >= |list.contents| ==> r == Err(NoSuchElement) && current == old(current)
    {
      if current >= list.size {
        return Err(NoSuchElement);
      }
      var data := list.arr[current].value;
      current := current + 1;
      r := Ok(data);
    }
  }

  /** A full traversal with a fresh iterator yields the contents in order, and
      one more step then fails. */
  method Drain<E(==)>(list: ArrayList<E>) returns (yielded: seq<E>, last: Result<E>)
    requires list.Valid()
    ensures yielded == list.contents
    ensures last == Err(NoSuchElement)
  {
    var it := list.Iterator();
    yielded := [];
    var more := it.HasNext();
    while more
      invariant it.Valid() && it.list == list
      invariant yielded == list.contents[..it.current]
      invariant more <==> it.current < |list.contents|
      decreases |list.contents| - it.current
    {
      var x := it.Next();
      yielded := yielded + [x.value];
      more := it.HasNext();
    }
    assert list.contents[..it.current] == list.contents;
    last := it.Next();
  }

  /** `contains` as written: a for-each over the whole backing array calling
      `equals` on every slot, so a null slot met before a match throws. */
  function ContainsAsWritten<E(==)>(slots: seq<Nullable<E>>, e: E): (r: Result<bool>)
    ensures r.Ok? || r == Err(NullPointer)
    ensures r == Ok(true) ==> NonNull(e) in slots
    ensures Null !in slots ==> r == Ok(NonNull(e) in slots)
  {
    if |slots| == 0 then Ok(false)
    else if slots[0].Null? then Err(NullPointer)
    else if slots[0].value == e then Ok(true)
    else ContainsAsWritten(slots[1..], e)
  }

  /** Whenever the array has a spare slot and the element is absent, the scan
      as written reaches a null slot and throws; a fresh list is one case. */
  lemma {:induction false} ContainsAsWrittenThrows<E>(list: ArrayList<E>, e: E)
    requires list.Valid() && list.size < list.capacity && e !in list.contents
    ensures ContainsAsWritten(list.arr[..], e) == Err(NullPointer)
  {
    var slots := list.arr[..];
    var k := 0;
    while k < list.size
      invariant 0 <= k <= list.size
      invariant ContainsAsWritten(slots, e) == ContainsAsWritten(slots[k..], e)
    {
      assert slots[k..][1..] == slots[k + 1..];
      assert slots[k] == NonNull(list.contents[k]);
      k := k + 1;
    }
    assert slots[k..][0] == Null;
  }

  /** The smallest witness: on a new empty list, `contains` as written throws
      while the contents are empty. */
  lemma ContainsAsWrittenOnNewList<E>(e: E)
    ensures ContainsAsWritten([Null], e) == Err(NullPointer)
  {
  }
}
