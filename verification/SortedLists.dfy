/**
 Strictly sorted integer lists, the ascending list of a finite set, and binary search
 with the contract of a library search over a sorted array of distinct keys.
 */
module SortedLists {

  predicate StrictlySorted(s: seq<int>) {
    forall i, j :: 0 <= i < j < |s| ==> s[i] < s[j]
  }

  ghost function Members(s: seq<int>): set<int> {
    set x | x in s
  }

  predicate IsLeast(m: int, s: set<int>) {
    m in s && forall x :: x in s ==> m <= x
  }

  lemma MemberExists(s: set<int>)
    requires s != {}
    ensures exists y :: y in s
  {
    if !exists y :: y in s {
      forall y | y in s ensures false {
      }
    }
  }

  lemma {:induction false} LeastExists(s: set<int>)
    requires s != {}
    ensures exists m :: IsLeast(m, s)
    decreases |s|
  {
    MemberExists(s);
    var y :| y in s;
    var rest := s - {y};
    assert forall x :: x in s ==> x == y || x in rest;
    if rest == {} {
      assert IsLeast(y, s);
    } else {
      LeastExists(rest);
      var m :| IsLeast(m, rest);
      assert IsLeast(if y < m then y else m, s);
    }
  }

  function Least(s: set<int>): (m: int)
    requires s != {}
    ensures IsLeast(m, s)
  {
    LeastExists(s);
    var m :| IsLeast(m, s);
    m
  }

  /** sorted(...) of a set */
  function Ascending(s: set<int>): (r: seq<int>)
    ensures StrictlySorted(r)
    ensures forall x :: x in r <==> x in s
    decreases |s|
  {
    if s == {} then []
    else
      var m := Least(s);
      var rest := Ascending(s - {m});
      [m] + rest
  }

  /** A set has only one strictly sorted list. */
  lemma {:induction false} SortedListIsUnique(a: seq<int>, b: seq<int>)
    requires StrictlySorted(a) && StrictlySorted(b)
    requires forall x :: x in a <==> x in b
    ensures a == b
  {
    if a == [] {
      assert b == [] by { NoMembers(b); }
    } else if b == [] {
      NoMembers(a);
    } else {
      assert a[0] in a && b[0] in b;
      assert a[0] == b[0];
      var s, t := a[1..], b[1..];
      forall x ensures x in s <==> x in t {
        assert x in s <==> x in a && x != a[0] by { TailMembers(a, x); }
        assert x in t <==> x in b && x != b[0] by { TailMembers(b, x); }
      }
      SortedListIsUnique(s, t);
    }
  }

  lemma NoMembers(a: seq<int>)
    ensures (forall x :: x !in a) ==> a == []
  {
    if |a| > 0 {
      var first := a[0];
      assert first in a;
    }
  }

  lemma TailMembers(a: seq<int>, x: int)
    requires a != [] && StrictlySorted(a)
    ensures x in a[1..] <==> x in a && x != a[0]
  {
    assert a == [a[0]] + a[1..];
  }

  /** Array.BinarySearch over strictly sorted keys: an index, or a negative number. */
  method BinarySearch(keys: seq<int>, key: int) returns (index: int)
    requires StrictlySorted(keys)
    ensures index == Find(keys, key)
  {
    var low, high := 0, |keys| - 1;
    while low <= high
      invariant 0 <= low <= high + 1 <= |keys|
      invariant forall i :: 0 <= i < low ==> keys[i] < key
      invariant forall i :: high < i < |keys| ==> key < keys[i]
    {
      var middle := low + (high - low) / 2;
      if keys[middle] == key {
        return middle;
      }
      if keys[middle] < key {
        low := middle + 1;
      } else {
        high := middle - 1;
      }
    }
    index := -1;
  }

  /** Where a key stands in a strictly sorted list, or -1. */
  function Find(keys: seq<int>, key: int): (index: int)
    requires StrictlySorted(keys)
    ensures key in keys <==> 0 <= index
    ensures -1 <= index < |keys|
    ensures 0 <= index ==> keys[index] == key
  {
    if keys == [] then -1
    else if keys[|keys| - 1] == key then |keys| - 1
    else Find(keys[..|keys| - 1], key)
  }
}
