/** `names.sort(key=str.lower)`: a stable sort of a list of strings by their
    lower-cased form. The specification is a functional insertion sort,
    SortByKey; SortInPlace runs the same insertion sort on an array, in
    place, and is proved to produce exactly SortByKey of the old contents.
    Python's sort is stable, and StableSortUnique shows that a stable sort
    has only one possible result, so SortByKey is what Python computes. */
module KeySort {
  import opened Strings

  /** The comparison the sort makes, character by character on the
      lower-cased forms; KeyLeIsLowerOrder shows it is Python's `<=` applied
      to x.lower() and y.lower(). */
  predicate KeyLe(x: string, y: string) {
    || x == []
    || (y != [] && (|| LowerChar(x[0]) < LowerChar(y[0])
                    || (LowerChar(x[0]) == LowerChar(y[0]) && KeyLe(x[1..], y[1..]))))
  }

  lemma {:induction false} KeyLeIsLowerOrder(x: string, y: string)
    ensures KeyLe(x, y) <==> LexLe(Lower(x), Lower(y))
  {
    if x != [] && y != [] {
      KeyLeIsLowerOrder(x[1..], y[1..]);
      assert Lower(x)[1..] == Lower(x[1..]) && Lower(y)[1..] == Lower(y[1..]);
    }
  }

  lemma KeyLeReflexive(x: string)
    ensures KeyLe(x, x)
  {
    KeyLeIsLowerOrder(x, x);
    LexLeReflexive(Lower(x));
  }

  lemma KeyLeTotal(x: string, y: string)
    ensures KeyLe(x, y) || KeyLe(y, x)
  {
    KeyLeIsLowerOrder(x, y);
    KeyLeIsLowerOrder(y, x);
    LexLeTotal(Lower(x), Lower(y));
  }

  lemma KeyLeTransitive(x: string, y: string, z: string)
    requires KeyLe(x, y) && KeyLe(y, z)
    ensures KeyLe(x, z)
  {
    KeyLeIsLowerOrder(x, y);
    KeyLeIsLowerOrder(y, z);
    KeyLeIsLowerOrder(x, z);
    LexLeTransitive(Lower(x), Lower(y), Lower(z));
  }

  /** Keys that compare both ways are equal. */
  lemma KeyLeAntisymmetric(x: string, y: string)
    requires KeyLe(x, y) && KeyLe(y, x)
    ensures Lower(x) == Lower(y)
  {
    KeyLeIsLowerOrder(x, y);
    KeyLeIsLowerOrder(y, x);
    LexLeAntisymmetric(Lower(x), Lower(y));
  }

  /** Non-decreasing under the key, between any two positions. */
  ghost predicate Sorted(s: seq<string>) {
    forall i, j :: 0 <= i < j < |s| ==> KeyLe(s[i], s[j])
  }

  /** The elements of s whose lower-cased form is k, in the order of s. */
  function WithKey(s: seq<string>, k: string): seq<string> {
    if s == [] then [] else (if Lower(s[0]) == k then [s[0]] else []) + WithKey(s[1..], k)
  }

  /** r keeps, for every key, the elements of s with that key in s's order. */
  ghost predicate SameKeyOrder(r: seq<string>, s: seq<string>) {
    forall k :: WithKey(r, k) == WithKey(s, k)
  }

  /** Insert x into s after every element whose key is not greater than x's,
      scanning from the right as the inner loop of an insertion sort does. */
  function Insert(x: string, s: seq<string>): (r: seq<string>)
    ensures |r| == |s| + 1
    decreases |s|
  {
    if s == [] || KeyLe(s[|s| - 1], x) then s + [x]
    else
      assert s == s[..|s| - 1] + [s[|s| - 1]];
      Insert(x, s[..|s| - 1]) + [s[|s| - 1]]
  }

  /** Insertion sort: each element in turn is inserted into the sorted prefix. */
  function SortByKey(s: seq<string>): (r: seq<string>)
    ensures |r| == |s|
  {
    if s == [] then []
    else
      assert s == s[..|s| - 1] + [s[|s| - 1]];
      Insert(s[|s| - 1], SortByKey(s[..|s| - 1]))
  }

  /** Inserting adds x and keeps every other element, duplicates included. */
  lemma {:induction false} InsertPermutes(x: string, s: seq<string>)
    ensures multiset(Insert(x, s)) == multiset(s) + multiset{x}
    decreases |s|
  {
    if s != [] && !KeyLe(s[|s| - 1], x) {
      InsertPermutes(x, s[..|s| - 1]);
      assert s == s[..|s| - 1] + [s[|s| - 1]];
    }
  }

  /** The sort is a permutation: the same multiset of names. */
  lemma {:induction false} SortByKeyPermutes(s: seq<string>)
    ensures multiset(SortByKey(s)) == multiset(s)
  {
    if s != [] {
      SortByKeyPermutes(s[..|s| - 1]);
      InsertPermutes(s[|s| - 1], SortByKey(s[..|s| - 1]));
      assert s == s[..|s| - 1] + [s[|s| - 1]];
    }
  }

  lemma {:induction false} InsertSorted(x: string, s: seq<string>)
    requires Sorted(s)
    ensures Sorted(Insert(x, s))
    decreases |s|
  {
    if s == [] || KeyLe(s[|s| - 1], x) {
      forall i | 0 <= i < |s| ensures KeyLe(s[i], x) {
        if i < |s| - 1 {
          KeyLeTransitive(s[i], s[|s| - 1], x);
        }
      }
    } else {
      var init, last := s[..|s| - 1], s[|s| - 1];
      InsertSorted(x, init);
      var r := Insert(x, init);
      InsertPermutes(x, init);
      KeyLeTotal(x, last);
      forall i | 0 <= i < |r| ensures KeyLe(r[i], last) {
        assert r[i] in multiset(r);
        if r[i] != x {
          assert r[i] in init;
          var j :| 0 <= j < |init| && init[j] == r[i];
          assert s[j] == init[j];
        }
      }
      assert Insert(x, s) == r + [last];
    }
  }

  /** The sort's result is non-decreasing under the key. */
  lemma {:induction false} SortByKeySorted(s: seq<string>)
    ensures Sorted(SortByKey(s))
  {
    if s != [] {
      SortByKeySorted(s[..|s| - 1]);
      InsertSorted(s[|s| - 1], SortByKey(s[..|s| - 1]));
    }
  }

  lemma {:induction false} WithKeyAppend(a: seq<string>, b: seq<string>, k: string)
    ensures WithKey(a + b, k) == WithKey(a, k) + WithKey(b, k)
  {
    if a != [] {
      var head := if Lower(a[0]) == k then [a[0]] else [];
      WithKeyAppend(a[1..], b, k);
      assert (a + b)[0] == a[0] && (a + b)[1..] == a[1..] + b;
      assert WithKey(a + b, k) == head + WithKey(a[1..] + b, k);
      assert WithKey(a, k) == head + WithKey(a[1..], k);
    } else {
      assert a + b == b;
    }
  }

  lemma {:induction false} WithKeyMembers(s: seq<string>, k: string)
    ensures forall x :: x in WithKey(s, k) <==> x in s && Lower(x) == k
  {
    if s != [] {
      WithKeyMembers(s[1..], k);
      assert s == [s[0]] + s[1..];
    }
  }

  lemma {:induction false} InsertWithKey(x: string, s: seq<string>, k: string)
    ensures WithKey(Insert(x, s), k) == WithKey(s, k) + WithKey([x], k)
    decreases |s|
  {
    if s == [] || KeyLe(s[|s| - 1], x) {
      WithKeyAppend(s, [x], k);
    } else {
      var init, last := s[..|s| - 1], s[|s| - 1];
      KeyLeIsLowerOrder(last, x);
      LexLeReflexive(Lower(x));
      assert Lower(last) != Lower(x);
      // at most one of the two singletons has key k, so they commute
      assert WithKey([x], k) + WithKey([last], k) == WithKey([last], k) + WithKey([x], k);
      calc {
        WithKey(Insert(x, s), k);
        WithKey(Insert(x, init) + [last], k);
        { WithKeyAppend(Insert(x, init), [last], k); }
        WithKey(Insert(x, init), k) + WithKey([last], k);
        { InsertWithKey(x, init, k); }
        WithKey(init, k) + WithKey([x], k) + WithKey([last], k);
        WithKey(init, k) + WithKey([last], k) + WithKey([x], k);
        { WithKeyAppend(init, [last], k); assert s == init + [last]; }
        WithKey(s, k) + WithKey([x], k);
      }
    }
  }

  /** Stability: elements with equal keys keep their relative order. */
  lemma {:induction false} SortByKeyStable(s: seq<string>)
    ensures SameKeyOrder(SortByKey(s), s)
  {
    if s != [] {
      var init, last := s[..|s| - 1], s[|s| - 1];
      SortByKeyStable(init);
      forall k ensures WithKey(SortByKey(s), k) == WithKey(s, k) {
        InsertWithKey(last, SortByKey(init), k);
        WithKeyAppend(init, [last], k);
        assert s == init + [last];
      }
    }
  }

  /** Sorting a list that is already in key order leaves it as it is. */
  lemma {:induction false} SortByKeyOfSorted(s: seq<string>)
    requires Sorted(s)
    ensures SortByKey(s) == s
  {
    if s != [] {
      var init := s[..|s| - 1];
      SortByKeyOfSorted(init);
      if |s| > 1 {
        assert KeyLe(init[|init| - 1], s[|s| - 1]);
      }
      assert s == init + [s[|s| - 1]];
    }
  }

  lemma WithKeyLast(s: seq<string>, k: string)
    requires s != []
    ensures WithKey(s, k) == WithKey(s[..|s| - 1], k) + (if Lower(s[|s| - 1]) == k then [s[|s| - 1]] else [])
  {
    WithKeyAppend(s[..|s| - 1], [s[|s| - 1]], k);
    assert s == s[..|s| - 1] + [s[|s| - 1]];
  }

  /** In a key-sorted list every element's key is at most the last one's. */
  lemma AtMostLast(r: seq<string>, x: string)
    requires Sorted(r) && x in r
    ensures KeyLe(x, r[|r| - 1])
  {
    var i :| 0 <= i < |r| && r[i] == x;
    if i == |r| - 1 {
      KeyLeReflexive(x);
    }
  }

  /** Two key-sorted lists that agree key by key end with the same key. */
  lemma SameLastKey(r1: seq<string>, r2: seq<string>)
    requires Sorted(r1) && Sorted(r2) && SameKeyOrder(r1, r2) && r1 != [] && r2 != []
    ensures Lower(r1[|r1| - 1]) == Lower(r2[|r2| - 1])
  {
    var a, b := r1[|r1| - 1], r2[|r2| - 1];
    WithKeyMembers(r1, Lower(a));
    WithKeyMembers(r2, Lower(a));
    WithKeyMembers(r1, Lower(b));
    WithKeyMembers(r2, Lower(b));
    assert a in WithKey(r1, Lower(a));
    AtMostLast(r2, a);
    assert b in WithKey(r2, Lower(b));
    AtMostLast(r1, b);
    KeyLeAntisymmetric(a, b);
  }

  /** Two key-sorted lists that agree, key by key, on their elements and
      their order are the same list. */
  lemma {:induction false} SortedSameKeyOrderEqual(r1: seq<string>, r2: seq<string>)
    requires Sorted(r1) && Sorted(r2) && SameKeyOrder(r1, r2)
    ensures r1 == r2
    decreases |r1| + |r2|
  {
    if r1 == [] && r2 != [] {
      WithKeyMembers(r2, Lower(r2[0]));
    } else if r1 != [] && r2 == [] {
      WithKeyMembers(r1, Lower(r1[0]));
    } else if r1 != [] {
      var a, b := r1[|r1| - 1], r2[|r2| - 1];
      var init1, init2 := r1[..|r1| - 1], r2[..|r2| - 1];
      SameLastKey(r1, r2);
      WithKeyLast(r1, Lower(a));
      WithKeyLast(r2, Lower(a));
      var w := WithKey(r1, Lower(a));
      assert w == WithKey(r2, Lower(a));
      assert a == w[|w| - 1] == b;
      forall k ensures WithKey(init1, k) == WithKey(init2, k) {
        WithKeyLast(r1, k);
        WithKeyLast(r2, k);
        var wk := WithKey(r1, k);
        assert wk == WithKey(r2, k);
        if Lower(a) == k {
          assert WithKey(init1, k) == wk[..|wk| - 1] == WithKey(init2, k);
        } else {
          assert WithKey(init1, k) == WithKey(init1, k) + [] == wk;
          assert WithKey(init2, k) == WithKey(init2, k) + [] == wk;
        }
      }
      SortedSameKeyOrderEqual(init1, init2);
      assert r1 == init1 + [a] && r2 == init2 + [b];
    }
  }

  /** Any stable sort of s by the key, Python's included, yields SortByKey(s). */
  lemma StableSortUnique(s: seq<string>, r: seq<string>)
    requires Sorted(r) && SameKeyOrder(r, s)
    ensures r == SortByKey(s)
  {
    SortByKeySorted(s);
    SortByKeyStable(s);
    SortedSameKeyOrderEqual(r, SortByKey(s));
  }

  /** Insert puts x right after the longest prefix of s whose last element
      is not greater than x, when every element after it is greater. */
  lemma {:induction false} InsertAt(x: string, s: seq<string>, j: nat)
    requires j <= |s| && (j == 0 || KeyLe(s[j - 1], x))
    requires forall k :: j <= k < |s| ==> !KeyLe(s[k], x)
    ensures Insert(x, s) == s[..j] + [x] + s[j..]
    decreases |s|
  {
    if j < |s| {
      var init := s[..|s| - 1];
      InsertAt(x, init, j);
      assert init[..j] == s[..j] && init[j..] + [s[|s| - 1]] == s[j..];
    }
  }

  /** The array contents the inner loop leaves behind: the sorted prefix
      with x placed at index j and the elements from j on shifted right. */
  lemma ShiftedPlacement(t: seq<string>, sorted: seq<string>, x: string, j: nat)
    requires j <= |sorted| < |t|
    requires forall k :: 0 <= k < j ==> t[k] == sorted[k]
    requires t[j] == x
    requires forall k :: j < k <= |sorted| ==> t[k] == sorted[k - 1]
    ensures t[..|sorted| + 1] == sorted[..j] + [x] + sorted[j..]
  {
  }

  /** The inner loop of the insertion sort: a[i] is moved left past every
      element of the sorted prefix a[..i] whose key is greater than its own. */
  method InsertInPlace(a: array<string>, i: nat)
    requires i < a.Length
    modifies a
    ensures a[..i + 1] == Insert(old(a[i]), old(a[..i]))
    ensures forall k :: i < k < a.Length ==> a[k] == old(a[k])
  {
    var x := a[i];
    ghost var orig := a[..];
    ghost var sorted := a[..i];
    var j := i;
    while j > 0 && !KeyLe(a[j - 1], x)
      invariant 0 <= j <= i
      invariant forall k :: 0 <= k < j ==> a[k] == orig[k]
      invariant forall k :: j < k <= i ==> a[k] == orig[k - 1]
      invariant forall k :: i < k < a.Length ==> a[k] == orig[k]
      invariant forall k :: j <= k < i ==> !KeyLe(orig[k], x)
    {
      a[j] := a[j - 1];
      j := j - 1;
    }
    a[j] := x;
    InsertAt(x, sorted, j);
    ShiftedPlacement(a[..], sorted, x, j);
  }

  /** The sort of a longer prefix inserts the next element into the sort
      of the shorter one. */
  lemma SortByKeyPrefix(s: seq<string>, i: nat)
    requires i < |s|
    ensures SortByKey(s[..i + 1]) == Insert(s[i], SortByKey(s[..i]))
  {
    assert s[..i + 1][..i] == s[..i];
  }

  /** Sorting one more element at the end inserts it into the sorted rest. */
  lemma SortByKeySnoc(s: seq<string>, x: string)
    ensures SortByKey(s + [x]) == Insert(x, SortByKey(s))
  {
    assert (s + [x])[..|s|] == s;
  }

  /** `a.sort(key=str.lower)`: a stable insertion sort that works in place. */
  method SortInPlace(a: array<string>)
    modifies a
    ensures a[..] == SortByKey(old(a[..]))
  {
    ghost var orig := a[..];
    var i := 0;
    while i < a.Length
      invariant 0 <= i <= a.Length
      invariant a[..i] == SortByKey(orig[..i])
      invariant forall k :: i <= k < a.Length ==> a[k] == orig[k]
    {
      SortByKeyPrefix(orig, i);
      InsertInPlace(a, i);
      i := i + 1;
    }
    assert orig[..a.Length] == orig;
  }
}
