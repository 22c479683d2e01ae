/**
 Ascending sort by an integer key, standing in for
 Array.prototype.sort((a, b) => new Date(a.date) - new Date(b.date)).
 Insertion places an element before the equal-keyed ones already sorted,
 so the sort is stable like the JavaScript one; only order and
 permutation are promised.
 */
module Sorting {

  /** Non-decreasing by key. */
  predicate SortedBy<T>(s: seq<T>, key: T -> int) {
    forall i, j :: 0 <= i < j < |s| ==> key(s[i]) <= key(s[j])
  }

  /** Insert one element into a sorted sequence. */
  function InsertBy<T>(x: T, s: seq<T>, key: T -> int): (r: seq<T>)
    requires SortedBy(s, key)
    ensures SortedBy(r, key)
    ensures multiset(r) == multiset(s) + multiset{x}
    ensures |r| == |s| + 1
    ensures forall i :: 0 <= i < |r| ==> r[i] == x || r[i] in s
  {
    if s == [] then [x]
    else if key(x) <= key(s[0]) then [x] + s
    else
      var rest := InsertBy(x, s[1..], key);
      HeadBelowRest(x, s, rest, key);
      assert s == [s[0]] + s[1..];
      [s[0]] + rest
  }

  /** The head of a sorted sequence is below its tail and below anything larger than it. */
  lemma HeadBelowRest<T>(x: T, s: seq<T>, rest: seq<T>, key: T -> int)
    requires SortedBy(s, key) && s != [] && key(s[0]) < key(x)
    requires forall i :: 0 <= i < |rest| ==> rest[i] == x || rest[i] in s[1..]
    ensures forall i :: 0 <= i < |rest| ==> key(s[0]) <= key(rest[i])
  {
    forall i | 0 <= i < |rest| ensures key(s[0]) <= key(rest[i]) {
      if rest[i] != x {
        var j :| 0 <= j < |s[1..]| && s[1..][j] == rest[i];
        assert s[j + 1] == rest[i];
      }
    }
  }

  /** Sort a sequence ascending by key. */
  function SortBy<T>(s: seq<T>, key: T -> int): (r: seq<T>)
    ensures SortedBy(r, key)
    ensures multiset(r) == multiset(s)
    ensures |r| == |s|
  {
    if s == [] then []
    else
      assert s == [s[0]] + s[1..];
      InsertBy(s[0], SortBy(s[1..], key), key)
  }

  /** Apply f to every element, keeping positions. */
  function MapSeq<A, B>(f: A -> B, s: seq<A>): (r: seq<B>)
    ensures |r| == |s|
    ensures forall i :: 0 <= i < |s| ==> r[i] == f(s[i])
  {
    seq(|s|, i requires 0 <= i < |s| => f(s[i]))
  }

  /** Two permutations of each other hold the same elements. */
  lemma PermutationMembers<T>(a: seq<T>, b: seq<T>)
    requires multiset(a) == multiset(b)
    ensures forall x :: x in a <==> x in b
  {
    forall x ensures x in a <==> x in b {
      assert x in a <==> x in multiset(a);
      assert x in b <==> x in multiset(b);
    }
  }

  /** The elements of a mapped sequence are the images of the elements of the original. */
  lemma MapMembers<A, B>(f: A -> B, s: seq<A>)
    ensures forall y :: y in MapSeq(f, s) <==> exists x :: x in s && y == f(x)
  {
    var m := MapSeq(f, s);
    forall y ensures y in m <==> exists x :: x in s && y == f(x) {
      if y in m {
        var i :| 0 <= i < |m| && m[i] == y;
        assert s[i] in s;
      }
      if x :| x in s && y == f(x) {
        var i :| 0 <= i < |s| && s[i] == x;
        assert m[i] == y;
      }
    }
  }

  /** Mapping distributes over taking one element out of the middle. */
  lemma MapAround<A, B>(f: A -> B, b: seq<A>, k: int)
    requires 0 <= k < |b|
    ensures multiset(MapSeq(f, b)) == multiset(MapSeq(f, b[..k] + b[k + 1..])) + multiset{f(b[k])}
  {
    var left, right := MapSeq(f, b[..k]), MapSeq(f, b[k + 1..]);
    assert MapSeq(f, b) == left + [f(b[k])] + right;
    assert MapSeq(f, b[..k] + b[k + 1..]) == left + right;
  }

  /** Removing matching elements from two permutations of each other leaves permutations of each other. */
  lemma RemoveMatching<T>(a: seq<T>, b: seq<T>, k: int)
    requires multiset(a) == multiset(b) && a != [] && 0 <= k < |b| && b[k] == a[0]
    ensures multiset(a[1..]) == multiset(b[..k] + b[k + 1..])
  {
    var x := a[0];
    assert b == b[..k] + [x] + b[k + 1..];
    assert a == [x] + a[1..];
    var rest := b[..k] + b[k + 1..];
    forall z ensures multiset(a[1..])[z] == multiset(rest)[z] {
      assert multiset(a)[z] == multiset{x}[z] + multiset(a[1..])[z];
      assert multiset(b)[z] == multiset(b[..k])[z] + multiset{x}[z] + multiset(b[k + 1..])[z];
    }
  }

  /** Mapping two permutations of each other gives permutations of each other. */
  lemma {:induction false} MapPermutation<A, B>(f: A -> B, a: seq<A>, b: seq<A>)
    requires multiset(a) == multiset(b)
    ensures multiset(MapSeq(f, a)) == multiset(MapSeq(f, b))
    decreases |a|
  {
    if a == [] {
      assert |b| == |multiset(b)| == 0;
    } else {
      assert a[0] in multiset(b);
      var k :| 0 <= k < |b| && b[k] == a[0];
      var b' := b[..k] + b[k + 1..];
      RemoveMatching(a, b, k);
      MapPermutation(f, a[1..], b');
      MapAround(f, b, k);
      MapAround(f, a, 0);
      assert a[..0] + a[1..] == a[1..];
      calc {
        multiset(MapSeq(f, a));
        multiset(MapSeq(f, a[1..])) + multiset{f(a[0])};
        multiset(MapSeq(f, b')) + multiset{f(b[k])};
        multiset(MapSeq(f, b));
      }
    }
  }
}
