/** The abstract meaning shared by the three lists: searching and removing by
    value, and reversal (the order in which a stack is read from its top). */
module Sequences {

  /** Position of the first occurrence of `e` in `s`, or -1 when absent. */
  function IndexOf<E(==)>(s: seq<E>, e: E): (r: int)
    ensures -1 <= r < |s|
    ensures r == -1 <==> e !in s
    ensures 0 <= r ==> s[r] == e && e !in s[..r]
  {
    if |s| == 0 then -1
    else if s[0] == e then 0
    else
      var k := IndexOf(s[1..], e);
      assert s[1..][..if k < 0 then 0 else k] == s[1..1 + if k < 0 then 0 else k];
      if k == -1 then -1 else k + 1
  }

  /** A position holding `e` with no earlier `e` is the one IndexOf finds. */
  lemma IndexOfUnique<E>(s: seq<E>, e: E, i: int)
    requires 0 <= i < |s| && s[i] == e && e !in s[..i]
    ensures IndexOf(s, e) == i
  {
  }

  /** `s` without its first occurrence of `e` (unchanged when `e` is absent),
      defined by a front-to-back scan. */
  function RemoveOccurrence<E(==)>(s: seq<E>, e: E): (r: seq<E>)
    ensures |r| == if e in s then |s| - 1 else |s|
  {
    if |s| == 0 then []
    else if s[0] == e then s[1..]
    else [s[0]] + RemoveOccurrence(s[1..], e)
  }

  /** Removing by value is removing at the index IndexOf reports, and leaves the
      sequence alone when the value is absent. */
  lemma {:induction false} RemoveOccurrenceAt<E>(s: seq<E>, e: E)
    ensures e !in s ==> RemoveOccurrence(s, e) == s
    ensures e in s ==> RemoveOccurrence(s, e) == s[..IndexOf(s, e)] + s[IndexOf(s, e) + 1..]
  {
    if |s| > 0 && s[0] != e {
      RemoveOccurrenceAt(s[1..], e);
      assert s == [s[0]] + s[1..];
      if e in s {
        assert e in s[1..];
        var k := IndexOf(s[1..], e);
        assert IndexOf(s, e) == k + 1;
        assert s[..k + 1] == [s[0]] + s[1..][..k];
        assert s[k + 2..] == s[1..][k + 1..];
      }
    }
  }

  /** Removing by value at a position found by a front-to-back scan: `e` sits
      at `i` and nowhere before it. */
  lemma RemoveOccurrenceFound<E>(s: seq<E>, e: E, i: int)
    requires 0 <= i < |s| && s[i] == e && e !in s[..i]
    ensures RemoveOccurrence(s, e) == s[..i] + s[i + 1..]
  {
    IndexOfUnique(s, e, i);
    RemoveOccurrenceAt(s, e);
  }

  /** Removing by value takes exactly one copy of `e` out of the multiset of
      elements, and nothing else. */
  lemma {:induction false} RemoveOccurrenceMultiset<E>(s: seq<E>, e: E)
    ensures multiset(RemoveOccurrence(s, e)) == multiset(s) - multiset{e}
    ensures |RemoveOccurrence(s, e)| == if e in s then |s| - 1 else |s|
  {
    if |s| > 0 {
      assert s == [s[0]] + s[1..];
      if s[0] != e {
        RemoveOccurrenceMultiset(s[1..], e);
      }
    }
  }

  /** Round trip: appending `x` and then removing `x` by value gives back the
      original sequence when `x` was absent; otherwise an earlier copy goes and
      the appended one stays at the end. */
  lemma {:induction false} AppendThenRemove<E>(s: seq<E>, x: E)
    ensures x !in s ==> RemoveOccurrence(s + [x], x) == s
    ensures x in s ==> RemoveOccurrence(s + [x], x) == RemoveOccurrence(s, x) + [x]
  {
    if |s| > 0 {
      assert (s + [x])[1..] == s[1..] + [x];
      if s[0] != x {
        AppendThenRemove(s[1..], x);
      }
    }
  }

  /** The effect of a `remove(E)` whose cursor never moves: only the first
      element is ever compared, so the result is whether it matched and the
      elements that remain. */
  function RemoveAsWritten<E(==)>(s: seq<E>, e: E): (r: (bool, seq<E>))
    ensures r.0 ==> r.1 == RemoveOccurrence(s, e)
    ensures !r.0 ==> r.1 == s
  {
    if |s| > 0 && s[0] == e then (true, s[1..]) else (false, s)
  }

  /** That scan agrees with removing the first occurrence exactly when the
      element is absent or comes first. */
  lemma RemoveAsWrittenAgrees<E>(s: seq<E>, e: E)
    ensures RemoveAsWritten(s, e) == (e in s, RemoveOccurrence(s, e)) <==> (e !in s || s[0] == e)
  {
    if e in s && s[0] != e {
      RemoveOccurrenceMultiset(s, e);
      assert |RemoveOccurrence(s, e)| != |s|;
    } else if e !in s {
      RemoveOccurrenceAt(s, e);
    }
  }

  /** An element that is present but not first is reported missing. */
  lemma RemoveAsWrittenMissesSecond()
    ensures 2 in [1, 2] && RemoveAsWritten([1, 2], 2) == (false, [1, 2])
    ensures RemoveOccurrence([1, 2], 2) == [1]
  {
    assert [1, 2][1..] == [2];
  }

  /** `s` in the opposite order. */
  function Reverse<E>(s: seq<E>): (r: seq<E>)
    ensures |r| == |s|
  {
    if |s| == 0 then [] else [s[|s| - 1]] + Reverse(s[..|s| - 1])
  }

  /** Reading a reversed sequence at `k` reads the original `k` places from its end. */
  lemma {:induction false} ReverseAt<E>(s: seq<E>, k: int)
    requires 0 <= k < |s|
    ensures |Reverse(s)| == |s|
    ensures Reverse(s)[k] == s[|s| - 1 - k]
  {
    if k > 0 {
      ReverseAt(s[..|s| - 1], k - 1);
    }
  }

  /** A sequence that reads `s` from its end, position by position, is its
      reverse. */
  lemma ReverseFromEnds<E>(s: seq<E>, t: seq<E>)
    requires |t| == |s|
    requires forall j :: 0 <= j < |t| ==> t[j] == s[|s| - 1 - j]
    ensures t == Reverse(s)
  {
    forall j | 0 <= j < |t|
      ensures t[j] == Reverse(s)[j]
    {
      ReverseAt(s, j);
    }
  }

  /** Reversal distributes over concatenation with the halves swapped. */
  lemma {:induction false} ReverseAppend<E>(s: seq<E>, t: seq<E>)
    ensures Reverse(s + t) == Reverse(t) + Reverse(s)
  {
    if |t| == 0 {
      assert s + t == s;
    } else {
      assert (s + t)[..|s + t| - 1] == s + t[..|t| - 1];
      ReverseAppend(s, t[..|t| - 1]);
    }
  }

  /** No element occurs twice. */
  ghost predicate Distinct<T>(s: seq<T>)
  {
    forall i, j :: 0 <= i < j < |s| ==> s[i] != s[j]
  }

  /** Dropping one position keeps a sequence free of repeats. */
  lemma DistinctWithout<T>(s: seq<T>, k: int)
    requires Distinct(s) && 0 <= k < |s|
    ensures Distinct(s[..k] + s[k + 1..])
  {
    var t := s[..k] + s[k + 1..];
    forall i, j | 0 <= i < j < |t| ensures t[i] != t[j] {
      var i' := if i < k then i else i + 1;
      var j' := if j < k then j else j + 1;
      assert t[i] == s[i'] && t[j] == s[j'];
    }
  }

  /** Inserting a fresh value keeps a sequence free of repeats. */
  lemma DistinctWith<T>(s: seq<T>, k: int, x: T)
    requires Distinct(s) && 0 <= k <= |s| && x !in s
    ensures Distinct(s[..k] + [x] + s[k..])
  {
    var t := s[..k] + [x] + s[k..];
    forall i, j | 0 <= i < j < |t| ensures t[i] != t[j] {
      if i != k && j != k {
        var i' := if i < k then i else i - 1;
        var j' := if j < k then j else j - 1;
        assert t[i] == s[i'] && t[j] == s[j'];
      }
    }
  }
}
