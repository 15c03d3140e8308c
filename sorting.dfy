/**
 * The comparator sorts of the program (`Array.prototype.sort`, `toSorted`) with
 * a numeric key (`(x, y) => key(x) - key(y)`). Both are stable, as ECMAScript
 * requires; the model is a stable insertion sort.
 */
module Sorting {

  /** Ascending by `key`. */
  predicate SortedBy<T>(s: seq<T>, key: T -> int) {
    forall i, j :: 0 <= i < j < |s| ==> key(s[i]) <= key(s[j])
  }

  /** Strictly ascending by `key`: sorted and no key repeats. */
  predicate StrictlySortedBy<T>(s: seq<T>, key: T -> int) {
    forall i, j :: 0 <= i < j < |s| ==> key(s[i]) < key(s[j])
  }

  /** Inserts `x` after every element whose key is not greater than its own. */
  function Insert<T>(x: T, s: seq<T>, key: T -> int): (r: seq<T>)
    ensures |r| == |s| + 1
    ensures multiset(r) == multiset(s) + multiset{x}
  {
    if s == [] then [x]
    else if key(x) < key(s[0]) then [x] + s
    else
      assert s == [s[0]] + s[1..];
      [s[0]] + Insert(x, s[1..], key)
  }

  /** Every key of `Insert(x, s)` is the key of `x` or of an element of `s`. */
  lemma {:induction false} InsertKeys<T>(x: T, s: seq<T>, key: T -> int, lo: int)
    requires lo <= key(x)
    requires forall i :: 0 <= i < |s| ==> lo <= key(s[i])
    ensures forall i :: 0 <= i < |Insert(x, s, key)| ==> lo <= key(Insert(x, s, key)[i])
  {
    if s != [] && key(x) >= key(s[0]) {
      InsertKeys(x, s[1..], key, lo);
    }
  }

  /** Inserting into a sorted list keeps it sorted. */
  lemma {:induction false} InsertSorted<T>(x: T, s: seq<T>, key: T -> int)
    requires SortedBy(s, key)
    ensures SortedBy(Insert(x, s, key), key)
  {
    if s != [] && key(x) >= key(s[0]) {
      InsertSorted(x, s[1..], key);
      InsertKeys(x, s[1..], key, key(s[0]));
    }
  }

  /** A stable sort of `s` by `key`. */
  function SortBy<T>(s: seq<T>, key: T -> int): (r: seq<T>)
    ensures |r| == |s|
    ensures SortedBy(r, key)
    ensures multiset(r) == multiset(s)
  {
    if s == [] then []
    else
      assert s == s[..|s| - 1] + [s[|s| - 1]];
      var sorted := SortBy(s[..|s| - 1], key);
      InsertSorted(s[|s| - 1], sorted, key);
      Insert(s[|s| - 1], sorted, key)
  }

  /** The elements of `s` whose key is `k`, in their order in `s`. */
  function WithKey<T>(s: seq<T>, key: T -> int, k: int): seq<T> {
    if s == [] then []
    else (if key(s[0]) == k then [s[0]] else []) + WithKey(s[1..], key, k)
  }

  lemma {:induction false} WithKeyAppend<T>(a: seq<T>, b: seq<T>, key: T -> int, k: int)
    ensures WithKey(a + b, key, k) == WithKey(a, key, k) + WithKey(b, key, k)
    decreases |a|
  {
    if a != [] {
      assert (a + b)[0] == a[0] && (a + b)[1..] == a[1..] + b;
      WithKeyAppend(a[1..], b, key, k);
    } else {
      assert a + b == b;
    }
  }

  /** A sorted list that starts above `k` has no element with key `k`. */
  lemma {:induction false} WithKeyAbove<T>(s: seq<T>, key: T -> int, k: int)
    requires SortedBy(s, key) && s != [] && k < key(s[0])
    ensures WithKey(s, key, k) == []
    decreases |s|
  {
    if |s| > 1 {
      WithKeyAbove(s[1..], key, k);
    }
  }

  /** Insertion into a sorted list puts `x` after every element with the same key. */
  lemma {:induction false} InsertStable<T>(x: T, s: seq<T>, key: T -> int, k: int)
    requires SortedBy(s, key)
    ensures WithKey(Insert(x, s, key), key, k) == WithKey(s, key, k) + WithKey([x], key, k)
  {
    if s == [] {
    } else if key(x) < key(s[0]) {
      WithKeyAppend([x], s, key, k);
      if key(x) == k {
        WithKeyAbove(s, key, k);
      }
    } else {
      var tail := Insert(x, s[1..], key);
      assert Insert(x, s, key) == [s[0]] + tail;
      InsertStable(x, s[1..], key, k);
      assert ([s[0]] + tail)[0] == s[0] && ([s[0]] + tail)[1..] == tail;
    }
  }

  /**
   * `SortBy` is stable: the elements that share a key come out in the order
   * they went in.
   */
  lemma {:induction false} SortStable<T>(s: seq<T>, key: T -> int, k: int)
    ensures WithKey(SortBy(s, key), key, k) == WithKey(s, key, k)
    decreases |s|
  {
    if s != [] {
      var init, last := s[..|s| - 1], s[|s| - 1];
      SortStable(init, key, k);
      InsertStable(last, SortBy(init, key), key, k);
      WithKeyAppend(init, [last], key, k);
      assert init + [last] == s;
    }
  }

  lemma {:induction false} WithKeyIn<T>(s: seq<T>, key: T -> int, k: int, x: T)
    requires x in WithKey(s, key, k)
    ensures x in s
    decreases |s|
  {
    if x != s[0] {
      WithKeyIn(s[1..], key, k, x);
    }
  }

  /** Keeping the elements of one key keeps a strict order by another key. */
  lemma {:induction false} WithKeyStrict<T>(s: seq<T>, key: T -> int, k: int, other: T -> int)
    requires StrictlySortedBy(s, other)
    ensures StrictlySortedBy(WithKey(s, key, k), other)
    decreases |s|
  {
    if s != [] {
      var tail := WithKey(s[1..], key, k);
      WithKeyStrict(s[1..], key, k, other);
      forall x | x in tail ensures other(s[0]) < other(x) {
        WithKeyIn(s[1..], key, k, x);
      }
    }
  }

  /** The index in `WithKey(s, key, k)` of an element of `s` with key `k`. */
  lemma {:induction false} WithKeyIndex<T>(s: seq<T>, key: T -> int, k: int, j: nat) returns (b: nat)
    requires j < |s| && key(s[j]) == k
    ensures b < |WithKey(s, key, k)| && WithKey(s, key, k)[b] == s[j]
    decreases |s|
  {
    if j == 0 {
      b := 0;
    } else {
      var b' := WithKeyIndex(s[1..], key, k, j - 1);
      b := if key(s[0]) == k then b' + 1 else b';
    }
  }

  /** Two elements with key `k` keep their relative order in `WithKey(s, key, k)`. */
  lemma {:induction false} WithKeyOrder<T>(s: seq<T>, key: T -> int, k: int, i: nat, j: nat) returns (a: nat, b: nat)
    requires i < j < |s| && key(s[i]) == k && key(s[j]) == k
    ensures a < b < |WithKey(s, key, k)|
    ensures WithKey(s, key, k)[a] == s[i] && WithKey(s, key, k)[b] == s[j]
    decreases |s|
  {
    if i == 0 {
      var b' := WithKeyIndex(s[1..], key, k, j - 1);
      a, b := 0, b' + 1;
    } else {
      var a', b' := WithKeyOrder(s[1..], key, k, i - 1, j - 1);
      if key(s[0]) == k {
        a, b := a' + 1, b' + 1;
      } else {
        a, b := a', b';
      }
    }
  }

  /**
   * Sorting a list that is strictly ascending by `other` leaves elements with
   * equal keys ascending by `other`: ties keep the input order.
   */
  lemma {:induction false} SortTiesKeepOrder<T>(s: seq<T>, key: T -> int, other: T -> int)
    requires StrictlySortedBy(s, other)
    ensures forall i, j :: 0 <= i < j < |SortBy(s, key)| && key(SortBy(s, key)[i]) == key(SortBy(s, key)[j]) ==>
      other(SortBy(s, key)[i]) < other(SortBy(s, key)[j])
  {
    var r := SortBy(s, key);
    forall i, j | 0 <= i < j < |r| && key(r[i]) == key(r[j]) ensures other(r[i]) < other(r[j]) {
      var k := key(r[i]);
      var a, b := WithKeyOrder(r, key, k, i, j);
      SortStable(s, key, k);
      WithKeyStrict(s, key, k, other);
    }
  }

  /** Inserting an element whose key is at least every key of a sorted list appends it. */
  lemma {:induction false} InsertLast<T>(x: T, s: seq<T>, key: T -> int)
    requires forall i :: 0 <= i < |s| ==> key(s[i]) <= key(x)
    ensures Insert(x, s, key) == s + [x]
  {
    if s != [] {
      InsertLast(x, s[1..], key);
      assert s == [s[0]] + s[1..];
    }
  }

  /** Sorting a list that is already sorted returns it unchanged. */
  lemma {:induction false} SortSorted<T>(s: seq<T>, key: T -> int)
    requires SortedBy(s, key)
    ensures SortBy(s, key) == s
  {
    if s != [] {
      var init := s[..|s| - 1];
      SortedPrefix(s, key);
      SortSorted(init, key);
      InsertLast(s[|s| - 1], init, key);
      assert init + [s[|s| - 1]] == s;
    }
  }

  lemma SortedPrefix<T>(s: seq<T>, key: T -> int)
    requires SortedBy(s, key) && s != []
    ensures SortedBy(s[..|s| - 1], key)
    ensures forall i :: 0 <= i < |s| - 1 ==> key(s[i]) <= key(s[|s| - 1])
  {
  }

  /**
   * Two sorted lists with the same elements are equal when one of them has no
   * repeated key: with distinct keys there is only one sorted order.
   */
  lemma {:induction false} SortedUnique<T>(a: seq<T>, b: seq<T>, key: T -> int)
    requires StrictlySortedBy(a, key) && SortedBy(b, key)
    requires multiset(a) == multiset(b)
    ensures a == b
    decreases |a|
  {
    assert |a| == |multiset(a)| == |multiset(b)| == |b|;
    if a != [] {
      HeadsAgree(a, b, key);
      TailMultisets(a, b);
      assert StrictlySortedBy(a[1..], key) && SortedBy(b[1..], key);
      SortedUnique(a[1..], b[1..], key);
      assert a == [a[0]] + a[1..] && b == [b[0]] + b[1..];
    }
  }

  /** The least element is the same in both lists. */
  lemma HeadsAgree<T>(a: seq<T>, b: seq<T>, key: T -> int)
    requires StrictlySortedBy(a, key) && SortedBy(b, key)
    requires a != [] && multiset(a) == multiset(b)
    ensures b != [] && a[0] == b[0]
  {
    var j := FirstInOther(a, b);
    var i := FirstInOther(b, a);
    assert key(b[0]) <= key(b[j]);
  }

  lemma TailMultisets<T>(a: seq<T>, b: seq<T>)
    requires a != [] && b != [] && a[0] == b[0] && multiset(a) == multiset(b)
    ensures multiset(a[1..]) == multiset(b[1..])
  {
    assert a == [a[0]] + a[1..] && b == [b[0]] + b[1..];
    assert multiset(a) == multiset{a[0]} + multiset(a[1..]);
    assert multiset(b) == multiset{a[0]} + multiset(b[1..]);
    assert multiset(a[1..]) == multiset(a) - multiset{a[0]};
    assert multiset(b[1..]) == multiset(b) - multiset{a[0]};
  }

  /** An index of `b` that holds the first element of `a`, when both hold the same elements. */
  lemma FirstInOther<T>(a: seq<T>, b: seq<T>) returns (j: nat)
    requires a != [] && multiset(a) == multiset(b)
    ensures j < |b| && b[j] == a[0]
  {
    assert a[0] in multiset(b);
    j :| 0 <= j < |b| && b[j] == a[0];
  }
}
