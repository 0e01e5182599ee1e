/** The list sort the bot uses, with a key: a stable sort, defined here by insertion. The result
    is ordered by key, is a permutation of the input, keeps the input's order among elements of
    equal key, and has the same members. */
module Sorting {
  import opened Grid

  /** Inserts x after every element whose key is at most x's. */
  function Insert<T>(x: T, s: seq<T>, key: T -> int): seq<T> {
    if s == [] then [x]
    else if key(x) < key(s[0]) then [x] + s
    else [s[0]] + Insert(x, s[1..], key)
  }

  /** s sorted by key, stably: the last element is inserted into the sorted rest after its equals,
      so equal keys keep their input order. */
  function SortedBy<T>(s: seq<T>, key: T -> int): seq<T>
    decreases |s|
  {
    if s == [] then [] else Insert(s[|s| - 1], SortedBy(s[..|s| - 1], key), key)
  }

  predicate Ordered<T>(s: seq<T>, key: T -> int) {
    forall i, j :: 0 <= i <= j < |s| ==> key(s[i]) <= key(s[j])
  }

  /** The elements of s with key k, in order. */
  function WithKey<T>(s: seq<T>, key: T -> int, k: int): seq<T> {
    if s == [] then []
    else (if key(s[0]) == k then [s[0]] else []) + WithKey(s[1..], key, k)
  }

  /** Inserting adds exactly x. */
  lemma {:induction false} InsertPermutes<T>(x: T, s: seq<T>, key: T -> int)
    ensures multiset(Insert(x, s, key)) == multiset(s) + multiset{x}
    decreases |s|
  {
    if s != [] && key(s[0]) <= key(x) {
      InsertPermutes(x, s[1..], key);
      assert s == [s[0]] + s[1..];
    }
  }

  /** Inserting into a sequence ordered by key keeps it ordered. */
  lemma {:induction false} InsertOrdered<T>(x: T, s: seq<T>, key: T -> int)
    requires Ordered(s, key)
    ensures Ordered(Insert(x, s, key), key)
    decreases |s|
  {
    if s != [] && key(s[0]) <= key(x) {
      assert Ordered(s[1..], key);
      InsertOrdered(x, s[1..], key);
      InsertPermutes(x, s[1..], key);
      var r := Insert(x, s[1..], key);
      forall q | q in multiset(r) ensures key(s[0]) <= key(q) {
        assert q in multiset(s[1..]) + multiset{x};
        if q != x {
          assert q in s[1..];
        }
      }
      forall i | 0 <= i < |r| ensures key(s[0]) <= key(r[i]) {
        assert r[i] in multiset(r);
      }
    }
  }

  /** The sort is ordered by key and a permutation of its input. */
  lemma {:induction false} SortedByFacts<T>(s: seq<T>, key: T -> int)
    ensures Ordered(SortedBy(s, key), key)
    ensures multiset(SortedBy(s, key)) == multiset(s)
    decreases |s|
  {
    if s != [] {
      var init := s[..|s| - 1];
      SortedByFacts(init, key);
      InsertPermutes(s[|s| - 1], SortedBy(init, key), key);
      InsertOrdered(s[|s| - 1], SortedBy(init, key), key);
      assert s == init + [s[|s| - 1]];
    }
  }

  lemma {:induction false} WithKeyAppend<T>(a: seq<T>, b: seq<T>, key: T -> int, k: int)
    ensures WithKey(a + b, key, k) == WithKey(a, key, k) + WithKey(b, key, k)
    decreases |a|
  {
    if a != [] {
      WithKeyAppend(a[1..], b, key, k);
      assert (a + b)[1..] == a[1..] + b;
    } else {
      assert a + b == b;
    }
  }

  /** Inserting x into an ordered sequence puts it after every element with its key. */
  lemma {:induction false} InsertWithKey<T>(x: T, s: seq<T>, key: T -> int, k: int)
    requires Ordered(s, key)
    ensures WithKey(Insert(x, s, key), key, k) == WithKey(s, key, k) + WithKey([x], key, k)
    decreases |s|
  {
    if s == [] {
      assert Insert(x, s, key) == [x];
    } else if key(x) < key(s[0]) {
      InsertFront(x, s, key, k);
    } else {
      assert Ordered(s[1..], key);
      InsertWithKey(x, s[1..], key, k);
      InsertPast(x, s, key, k);
    }
  }

  /** Inserting x in front of an ordered sequence whose keys all exceed x's. */
  lemma InsertFront<T>(x: T, s: seq<T>, key: T -> int, k: int)
    requires Ordered(s, key) && s != [] && key(x) < key(s[0])
    ensures WithKey(Insert(x, s, key), key, k) == WithKey(s, key, k) + WithKey([x], key, k)
  {
    assert Insert(x, s, key) == [x] + s;
    WithKeyAppend([x], s, key, k);
    if key(x) == k {
      OrderedAbove(s, key, k);
    }
  }

  /** Inserting x past the first element of s, given the insertion into the rest. */
  lemma InsertPast<T>(x: T, s: seq<T>, key: T -> int, k: int)
    requires s != [] && key(s[0]) <= key(x)
    requires WithKey(Insert(x, s[1..], key), key, k) == WithKey(s[1..], key, k) + WithKey([x], key, k)
    ensures WithKey(Insert(x, s, key), key, k) == WithKey(s, key, k) + WithKey([x], key, k)
  {
    var r := Insert(x, s[1..], key);
    assert Insert(x, s, key) == [s[0]] + r;
    WithKeyAppend([s[0]], r, key, k);
    WithKeyAppend([s[0]], s[1..], key, k);
    assert [s[0]] + s[1..] == s;
  }

  /** An ordered sequence whose first key exceeds k has no element with key k. */
  lemma {:induction false} OrderedAbove<T>(s: seq<T>, key: T -> int, k: int)
    requires Ordered(s, key) && (s != [] ==> k < key(s[0]))
    ensures WithKey(s, key, k) == []
    decreases |s|
  {
    if s != [] {
      assert Ordered(s[1..], key);
      OrderedAbove(s[1..], key, k);
    }
  }

  /** Stability: the elements of any one key appear in the sort in their input order. */
  lemma {:induction false} SortedByStable<T>(s: seq<T>, key: T -> int, k: int)
    ensures WithKey(SortedBy(s, key), key, k) == WithKey(s, key, k)
    decreases |s|
  {
    if s != [] {
      var init, x := s[..|s| - 1], s[|s| - 1];
      SortedByStable(init, key, k);
      SortedByFacts(init, key);
      InsertWithKey(x, SortedBy(init, key), key, k);
      WithKeyAppend(init, [x], key, k);
      assert s == init + [x];
    }
  }

  /** The sort has the input's members, and no repeats when the input has none. */
  lemma SortedByMembers<T>(s: seq<T>, key: T -> int)
    ensures |SortedBy(s, key)| == |s|
    ensures forall x :: x in SortedBy(s, key) <==> x in s
    ensures Distinct(s) ==> Distinct(SortedBy(s, key))
  {
    var r := SortedBy(s, key);
    SortedByFacts(s, key);
    assert |r| == |multiset(r)| == |multiset(s)| == |s|;
    forall x ensures x in r <==> x in s {
      assert x in r <==> x in multiset(r);
      assert x in s <==> x in multiset(s);
    }
    if Distinct(s) {
      forall i, j | 0 <= i < j < |r| ensures r[i] != r[j] {
        if r[i] == r[j] {
          MultisetTwice(r, i, j);
          MultisetOnce(s, r[i]);
        }
      }
    }
  }

  lemma MultisetTwice<T>(s: seq<T>, i: int, j: int)
    requires 0 <= i < j < |s| && s[i] == s[j]
    ensures multiset(s)[s[i]] >= 2
  {
    assert s == s[..i] + [s[i]] + s[i + 1..j] + [s[j]] + s[j + 1..];
  }

  lemma {:induction false} MultisetOnce<T>(s: seq<T>, x: T)
    requires Distinct(s)
    ensures multiset(s)[x] <= 1
    decreases |s|
  {
    if s != [] {
      MultisetOnce(s[1..], x);
      assert s == [s[0]] + s[1..];
      if s[0] == x {
        assert x !in s[1..];
      }
    }
  }
}
