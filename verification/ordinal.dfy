/**
  Ordinal string comparison (String.Compare with StringComparison.Ordinal)
  and sorting a list by an ordinal key.

  Characters are compared by their code; names are compared character by
  character and a proper prefix comes first.
*/
module Ordinal {

  /** The sign of the ordinal comparison of `a` and `b`: -1, 0 or 1. */
  function Compare(a: string, b: string): (r: int)
    ensures -1 <= r <= 1
    ensures r == 0 <==> a == b
  {
    if |a| == 0 then (if |b| == 0 then 0 else -1)
    else if |b| == 0 then 1
    else if a[0] < b[0] then -1
    else if b[0] < a[0] then 1
    else
      var r := Compare(a[1..], b[1..]);
      assert r == 0 ==> a == [a[0]] + a[1..] == [b[0]] + b[1..] == b;
      assert a == b ==> a[1..] == b[1..];
      r
  }

  /** Swapping the arguments flips the sign. */
  lemma {:induction false} CompareFlip(a: string, b: string)
    ensures Compare(a, b) == -Compare(b, a)
  {
    if |a| > 0 && |b| > 0 && a[0] == b[0] {
      CompareFlip(a[1..], b[1..]);
    }
  }

  /** `a` comes no later than `b` in ordinal order. */
  predicate Leq(a: string, b: string) {
    Compare(a, b) <= 0
  }

  lemma LeqTotal(a: string, b: string)
    ensures Leq(a, b) || Leq(b, a)
  {
    CompareFlip(a, b);
  }

  lemma LeqAntisymmetric(a: string, b: string)
    requires Leq(a, b) && Leq(b, a)
    ensures a == b
  {
    CompareFlip(a, b);
  }

  lemma {:induction false} LeqTransitive(a: string, b: string, c: string)
    requires Leq(a, b) && Leq(b, c)
    ensures Leq(a, c)
    decreases |a|
  {
    if |a| > 0 && |b| > 0 && |c| > 0 && a[0] == b[0] == c[0] {
      LeqTransitive(a[1..], b[1..], c[1..]);
    }
  }

  /** `s` is in ascending ordinal order of `key`. */
  ghost predicate SortedBy<T>(s: seq<T>, key: T -> string) {
    forall i, j :: 0 <= i < j < |s| ==> Leq(key(s[i]), key(s[j]))
  }

  /** No two elements of `s` share a key. */
  ghost predicate DistinctKeys<T>(s: seq<T>, key: T -> string) {
    forall i, j :: 0 <= i < j < |s| ==> key(s[i]) != key(s[j])
  }

  /** Inserts `x` in front of the first element of `ys` whose key is not below its own. */
  function Insert<T(==)>(x: T, ys: seq<T>, key: T -> string): (r: seq<T>)
    requires SortedBy(ys, key)
    ensures SortedBy(r, key)
    ensures multiset(r) == multiset(ys) + multiset{x}
  {
    if ys == [] then [x]
    else if Leq(key(x), key(ys[0])) then
      BelowHead(x, ys, key);
      SortedCons(x, ys, key);
      [x] + ys
    else
      LeqTotal(key(x), key(ys[0]));
      SortedTail(ys, key);
      var rest := Insert(x, ys[1..], key);
      BoundPermutation(ys[0], x, ys[1..], rest, key);
      SortedCons(ys[0], rest, key);
      assert ys == [ys[0]] + ys[1..];
      [ys[0]] + rest
  }

  /** A key at most the head's is at most every key of a sorted sequence. */
  lemma BelowHead<T>(x: T, ys: seq<T>, key: T -> string)
    requires SortedBy(ys, key) && |ys| > 0 && Leq(key(x), key(ys[0]))
    ensures forall j :: 0 <= j < |ys| ==> Leq(key(x), key(ys[j]))
  {
    forall j | 0 < j < |ys| ensures Leq(key(x), key(ys[j])) {
      LeqTransitive(key(x), key(ys[0]), key(ys[j]));
    }
  }

  /** A sorted sequence stays sorted behind an element whose key is at most all of its keys. */
  lemma SortedCons<T>(h: T, ys: seq<T>, key: T -> string)
    requires SortedBy(ys, key)
    requires forall j :: 0 <= j < |ys| ==> Leq(key(h), key(ys[j]))
    ensures SortedBy([h] + ys, key)
  {
    var s := [h] + ys;
    forall i, j | 0 <= i < j < |s| ensures Leq(key(s[i]), key(s[j])) {
      assert s[j] == ys[j - 1];
      if i > 0 {
        assert s[i] == ys[i - 1];
      }
    }
  }

  /** The tail of a sorted sequence is sorted, and its head's key is at most all of the tail's. */
  lemma SortedTail<T>(ys: seq<T>, key: T -> string)
    requires SortedBy(ys, key) && |ys| > 0
    ensures SortedBy(ys[1..], key)
    ensures forall j :: 0 <= j < |ys| - 1 ==> Leq(key(ys[0]), key(ys[1..][j]))
  {
    forall j | 0 <= j < |ys| - 1 ensures Leq(key(ys[0]), key(ys[1..][j])) {
      assert ys[1..][j] == ys[j + 1];
    }
  }

  /** A lower bound of `x` and of every element of `ys` bounds every element of a permutation of both. */
  lemma BoundPermutation<T>(y: T, x: T, ys: seq<T>, rest: seq<T>, key: T -> string)
    requires Leq(key(y), key(x))
    requires forall j :: 0 <= j < |ys| ==> Leq(key(y), key(ys[j]))
    requires multiset(rest) == multiset(ys) + multiset{x}
    ensures forall j :: 0 <= j < |rest| ==> Leq(key(y), key(rest[j]))
  {
    forall j | 0 <= j < |rest| ensures Leq(key(y), key(rest[j])) {
      assert rest[j] in multiset(rest);
      if rest[j] != x {
        assert rest[j] in multiset(ys);
        var k :| 0 <= k < |ys| && ys[k] == rest[j];
      }
    }
  }

  /**
    Sorts `xs` by ordinal key order; elements with equal keys keep their
    relative order. List.Sort makes no such promise, which is why the
    assembly is stated for every sorted permutation, not just this one.
  */
  function SortBy<T(==)>(xs: seq<T>, key: T -> string): (r: seq<T>)
    ensures SortedBy(r, key)
    ensures multiset(r) == multiset(xs)
    ensures |r| == |xs|
  {
    if xs == [] then []
    else
      assert xs == [xs[0]] + xs[1..];
      var r := Insert(xs[0], SortBy(xs[1..], key), key);
      assert |r| == |multiset(r)| == |multiset(xs)| == |xs|;
      r
  }

  /** Two sorted permutations of the same elements start with the same element when keys are distinct. */
  lemma SortedHeads<T>(a: seq<T>, b: seq<T>, key: T -> string)
    requires SortedBy(a, key) && SortedBy(b, key)
    requires DistinctKeys(a, key)
    requires multiset(a) == multiset(b)
    requires |a| > 0 && |b| > 0
    ensures a[0] == b[0]
  {
    assert a[0] in multiset(b);
    var k :| 0 <= k < |b| && b[k] == a[0];
    assert b[0] in multiset(a);
    var m :| 0 <= m < |a| && a[m] == b[0];
    if m > 0 {
      if k == 0 {
        assert false;
      } else {
        LeqAntisymmetric(key(a[0]), key(a[m]));
        assert false;
      }
    }
  }

  /** Removing equal heads from equal multisets leaves equal multisets. */
  lemma TailMultiset<T>(a: seq<T>, b: seq<T>)
    requires |a| > 0 && |b| > 0 && a[0] == b[0]
    requires multiset(a) == multiset(b)
    ensures multiset(a[1..]) == multiset(b[1..])
  {
    assert a == [a[0]] + a[1..] && b == [b[0]] + b[1..];
    assert multiset(a) == multiset{a[0]} + multiset(a[1..]);
    assert multiset(b) == multiset{b[0]} + multiset(b[1..]);
    calc {
      multiset(a[1..]);
      multiset(a) - multiset{a[0]};
      multiset(b) - multiset{b[0]};
      multiset(b[1..]);
    }
  }

  /**
    A sorted arrangement with pairwise distinct keys is unique: any two
    sorted permutations of the same elements are equal.
  */
  lemma {:induction false} SortedUnique<T>(a: seq<T>, b: seq<T>, key: T -> string)
    requires SortedBy(a, key) && SortedBy(b, key)
    requires DistinctKeys(a, key)
    requires multiset(a) == multiset(b)
    ensures a == b
  {
    assert |b| == |multiset(b)| == |multiset(a)| == |a|;
    if |a| > 0 {
      SortedHeads(a, b, key);
      TailMultiset(a, b);
      var a', b' := a[1..], b[1..];
      assert SortedBy(a', key) && SortedBy(b', key) && DistinctKeys(a', key) by {
        assert forall i :: 0 <= i < |a'| ==> a'[i] == a[i + 1];
        assert forall i :: 0 <= i < |b'| ==> b'[i] == b[i + 1];
      }
      SortedUnique(a', b', key);
      assert a == [a[0]] + a' && b == [b[0]] + b';
    }
  }

  /** An element at two positions occurs at least twice. */
  lemma CountTwo<T>(s: seq<T>, i: nat, j: nat)
    requires i < j < |s| && s[i] == s[j]
    ensures multiset(s)[s[i]] >= 2
  {
    assert s == s[..j] + s[j..];
    assert s[..j][i] == s[i];
    assert s[j..][0] == s[j];
    assert multiset(s) == multiset(s[..j]) + multiset(s[j..]);
  }

  /** An element occurring at least twice sits at two positions. */
  lemma TwoPositions<T>(s: seq<T>, x: T)
    requires multiset(s)[x] >= 2
    ensures exists i, j :: 0 <= i < j < |s| && s[i] == x && s[j] == x
  {
    assert x in multiset(s);
    var i :| 0 <= i < |s| && s[i] == x;
    var rest := s[..i] + s[i + 1..];
    assert s == s[..i] + [s[i]] + s[i + 1..];
    assert multiset(s) == multiset(rest) + multiset{x};
    assert x in multiset(rest);
    var k :| 0 <= k < |rest| && rest[k] == x;
    if k < i {
      assert rest[k] == s[k];
    } else {
      assert rest[k] == s[k + 1];
    }
  }

  /** Two positions of `a` reappear, in some order, at two positions of any permutation `b` of it. */
  lemma PairTransfers<T>(a: seq<T>, b: seq<T>, i: nat, j: nat)
    requires multiset(a) == multiset(b)
    requires i < j < |a|
    ensures exists i', j' ::
      0 <= i' < j' < |b| && ((b[i'] == a[i] && b[j'] == a[j]) || (b[i'] == a[j] && b[j'] == a[i]))
  {
    if a[i] == a[j] {
      CountTwo(a, i, j);
      TwoPositions(b, a[i]);
    } else {
      assert a[i] in multiset(b) && a[j] in multiset(b);
      var p :| 0 <= p < |b| && b[p] == a[i];
      var q :| 0 <= q < |b| && b[q] == a[j];
      if p < q {
        assert b[p] == a[i] && b[q] == a[j];
      } else {
        assert q < p && b[q] == a[j] && b[p] == a[i];
      }
    }
  }

  /** Pairwise distinct keys survive any permutation. */
  lemma DistinctKeysPermutation<T>(a: seq<T>, b: seq<T>, key: T -> string)
    requires multiset(a) == multiset(b)
    requires DistinctKeys(a, key)
    ensures DistinctKeys(b, key)
  {
    forall i, j | 0 <= i < j < |b|
      ensures key(b[i]) != key(b[j])
    {
      PairTransfers(b, a, i, j);
    }
  }
}
