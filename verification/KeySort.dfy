/** Stable sorting of a sequence by an integer key.
    This is what `list.sort(key=...)` guarantees: the result is ordered by key and
    elements with equal keys keep their order of arrival. */
module KeySort {

  ghost predicate Ordered<T>(s: seq<T>, key: T -> int) {
    forall i, j :: 0 <= i < j < |s| ==> key(s[i]) <= key(s[j])
  }

  /** The elements that satisfy `keep`, in their order. */
  function Select<T>(s: seq<T>, keep: T -> bool): (r: seq<T>) {
    if s == [] then []
    else if keep(s[|s| - 1]) then Select(s[..|s| - 1], keep) + [s[|s| - 1]]
    else Select(s[..|s| - 1], keep)
  }

  /** Places `x` behind every element of `s` whose key is not larger. */
  function Insert<T>(s: seq<T>, x: T, key: T -> int): (r: seq<T>)
    ensures |r| == |s| + 1
  {
    if s == [] then [x]
    else if key(s[|s| - 1]) <= key(x) then s + [x]
    else Insert(s[..|s| - 1], x, key) + [s[|s| - 1]]
  }

  function SortBy<T>(s: seq<T>, key: T -> int): (r: seq<T>)
    ensures |r| == |s|
  {
    if s == [] then [] else Insert(SortBy(s[..|s| - 1], key), s[|s| - 1], key)
  }

  lemma {:induction false} InsertPermutes<T>(s: seq<T>, x: T, key: T -> int)
    ensures multiset(Insert(s, x, key)) == multiset(s) + multiset{x}
  {
    if s != [] && key(s[|s| - 1]) > key(x) {
      InsertPermutes(s[..|s| - 1], x, key);
      assert s == s[..|s| - 1] + [s[|s| - 1]];
    }
  }

  lemma {:induction false} InsertMembers<T>(s: seq<T>, x: T, key: T -> int)
    ensures forall i :: 0 <= i <= |s| ==> Insert(s, x, key)[i] == x || Insert(s, x, key)[i] in s
  {
    if s != [] && key(s[|s| - 1]) > key(x) {
      InsertMembers(s[..|s| - 1], x, key);
    }
  }

  lemma {:induction false} InsertOrdered<T>(s: seq<T>, x: T, key: T -> int)
    requires Ordered(s, key)
    ensures Ordered(Insert(s, x, key), key)
  {
    if s != [] && key(s[|s| - 1]) > key(x) {
      InsertOrdered(s[..|s| - 1], x, key);
      InsertMembers(s[..|s| - 1], x, key);
    }
  }

  /** The result is ordered and a permutation of the input. */
  lemma {:induction false} SortByOrders<T>(s: seq<T>, key: T -> int)
    ensures Ordered(SortBy(s, key), key)
    ensures multiset(SortBy(s, key)) == multiset(s)
  {
    if s != [] {
      var front, last := s[..|s| - 1], s[|s| - 1];
      assert s == front + [last];
      SortByOrders(front, key);
      InsertOrdered(SortBy(front, key), last, key);
      InsertPermutes(SortBy(front, key), last, key);
    }
  }

  lemma {:induction false} SelectConcat<T>(s: seq<T>, t: seq<T>, keep: T -> bool)
    ensures Select(s + t, keep) == Select(s, keep) + Select(t, keep)
  {
    if t == [] {
      assert s + t == s;
    } else {
      var t' := t[..|t| - 1];
      assert (s + t)[..|s + t| - 1] == s + t';
      SelectConcat(s, t', keep);
    }
  }

  lemma {:induction false} SelectMembers<T>(s: seq<T>, keep: T -> bool)
    ensures forall i :: 0 <= i < |Select(s, keep)| ==> Select(s, keep)[i] in s && keep(Select(s, keep)[i])
    ensures forall i :: 0 <= i < |s| && keep(s[i]) ==> s[i] in Select(s, keep)
  {
    if s != [] {
      SelectMembers(s[..|s| - 1], keep);
      assert s == s[..|s| - 1] + [s[|s| - 1]];
    }
  }

  lemma {:induction false} SelectNone<T>(s: seq<T>, keep: T -> bool)
    requires forall x :: x in s ==> !keep(x)
    ensures Select(s, keep) == []
  {
    if s != [] {
      SelectNone(s[..|s| - 1], keep);
    }
  }

  lemma {:induction false} SelectAll<T>(s: seq<T>, keep: T -> bool)
    requires forall i :: 0 <= i < |s| ==> keep(s[i])
    ensures Select(s, keep) == s
  {
    if s != [] {
      SelectAll(s[..|s| - 1], keep);
    }
  }

  /** Selecting keeps every element it wants as often as it occurs, and no other. */
  lemma {:induction false} SelectCounts<T>(s: seq<T>, keep: T -> bool, x: T)
    ensures multiset(Select(s, keep))[x] == if keep(x) then multiset(s)[x] else 0
  {
    if s != [] {
      SelectCounts(s[..|s| - 1], keep, x);
      assert s == s[..|s| - 1] + [s[|s| - 1]];
    }
  }

  /** Selecting only removes elements. */
  lemma {:induction false} SelectRemoves<T>(s: seq<T>, keep: T -> bool)
    ensures multiset(Select(s, keep)) <= multiset(s)
  {
    if s != [] {
      SelectRemoves(s[..|s| - 1], keep);
      assert s == s[..|s| - 1] + [s[|s| - 1]];
    }
  }

  lemma {:induction false} SelectOrdered<T>(s: seq<T>, keep: T -> bool, key: T -> int)
    requires Ordered(s, key)
    ensures Ordered(Select(s, keep), key)
  {
    if s != [] {
      var front := s[..|s| - 1];
      SelectOrdered(front, keep, key);
      SelectMembers(front, keep);
      var sel := Select(front, keep);
      forall i | 0 <= i < |sel| ensures key(sel[i]) <= key(s[|s| - 1]) {
        assert sel[i] in front;
      }
    }
  }

  /** Insertion behind an element whose key is not larger than the new one. */
  lemma {:induction false} InsertBehind<T>(p: seq<T>, s: seq<T>, x: T, key: T -> int)
    requires p != [] ==> key(p[|p| - 1]) <= key(x)
    ensures Insert(p + s, x, key) == p + Insert(s, x, key)
  {
    if s == [] {
      assert p + s == p;
    } else if key(s[|s| - 1]) > key(x) {
      assert (p + s)[..|p + s| - 1] == p + s[..|s| - 1];
      InsertBehind(p, s[..|s| - 1], x, key);
    } else {
      assert (p + s) + [x] == p + (s + [x]);
    }
  }

  /** Sorting an ordered sequence changes nothing. */
  lemma {:induction false} SortOrdered<T>(s: seq<T>, key: T -> int)
    requires Ordered(s, key)
    ensures SortBy(s, key) == s
  {
    if s != [] {
      SortOrdered(s[..|s| - 1], key);
    }
  }

  lemma SelectSnoc<T>(s: seq<T>, x: T, keep: T -> bool)
    ensures Select(s + [x], keep) == if keep(x) then Select(s, keep) + [x] else Select(s, keep)
  {
    assert (s + [x])[..|s|] == s;
  }

  lemma InsertSnoc<T>(s: seq<T>, last: T, x: T, key: T -> int)
    ensures Insert(s + [last], x, key)
         == if key(last) <= key(x) then s + [last] + [x] else Insert(s, x, key) + [last]
  {
    assert (s + [last])[..|s|] == s;
  }

  lemma {:induction false} InsertAtEnd<T>(s: seq<T>, x: T, key: T -> int)
    requires forall i :: 0 <= i < |s| ==> key(s[i]) <= key(x)
    ensures Insert(s, x, key) == s + [x]
  {
  }

  lemma {:induction false} SelectInsert<T>(s: seq<T>, x: T, keep: T -> bool, key: T -> int)
    requires Ordered(s, key)
    ensures Select(Insert(s, x, key), keep)
         == if keep(x) then Insert(Select(s, keep), x, key) else Select(s, keep)
  {
    if s == [] {
    } else if key(s[|s| - 1]) <= key(x) {
      SelectSnoc(s, x, keep);
      SelectAtMost(s, x, keep, key);
      InsertAtEnd(Select(s, keep), x, key);
    } else {
      var front, last := s[..|s| - 1], s[|s| - 1];
      SelectInsert(front, x, keep, key);
      SelectSnoc(Insert(front, x, key), last, keep);
      InsertSnoc(Select(front, keep), last, x, key);
    }
  }

  lemma SelectAtMost<T>(s: seq<T>, x: T, keep: T -> bool, key: T -> int)
    requires s != [] && Ordered(s, key) && key(s[|s| - 1]) <= key(x)
    ensures forall i :: 0 <= i < |Select(s, keep)| ==> key(Select(s, keep)[i]) <= key(x)
  {
    SelectMembers(s, keep);
    var sel := Select(s, keep);
    forall i | 0 <= i < |sel| ensures key(sel[i]) <= key(x) {
      var j :| 0 <= j < |s| && s[j] == sel[i];
    }
  }

  lemma SortSnoc<T>(s: seq<T>, x: T, key: T -> int)
    ensures SortBy(s + [x], key) == Insert(SortBy(s, key), x, key)
  {
    assert (s + [x])[..|s|] == s;
  }

  /** Filtering commutes with stable sorting. */
  lemma {:induction false} SelectSort<T>(s: seq<T>, keep: T -> bool, key: T -> int)
    ensures Select(SortBy(s, key), keep) == SortBy(Select(s, keep), key)
  {
    if s != [] {
      var front, last := s[..|s| - 1], s[|s| - 1];
      SelectSort(front, keep, key);
      SortByOrders(front, key);
      SelectInsert(SortBy(front, key), last, keep, key);
      SortSnoc(Select(front, keep), last, key);
    }
  }

  /** What the filter rejects on either side does not matter to the filtered sort. */
  lemma SelectSortMiddle<T>(s: seq<T>, k: nat, m: nat, keep: T -> bool, key: T -> int)
    requires k <= m <= |s| && Select(s[..k], keep) == [] && Select(s[m..], keep) == []
    ensures Select(SortBy(s, key), keep) == Select(SortBy(s[k..m], key), keep)
  {
    SelectMiddle(s, k, m, keep);
    SelectSort(s, keep, key);
    SelectSort(s[k..m], keep, key);
  }

  lemma SelectMiddle<T>(s: seq<T>, k: nat, m: nat, keep: T -> bool)
    requires k <= m <= |s| && Select(s[..k], keep) == [] && Select(s[m..], keep) == []
    ensures Select(s, keep) == Select(s[k..m], keep)
  {
    CutInThree(s, k, m);
    SelectConcat(s[..k] + s[k..m], s[m..], keep);
    SelectConcat(s[..k], s[k..m], keep);
  }

  lemma CutInThree<T>(s: seq<T>, k: nat, m: nat)
    requires k <= m <= |s|
    ensures s == (s[..k] + s[k..m]) + s[m..]
  {
  }

  /** Filtering a sorted sequence keeps exactly the accepted elements. */
  lemma SelectSortMembers<T(!new)>(s: seq<T>, keep: T -> bool, key: T -> int)
    ensures forall x :: x in Select(SortBy(s, key), keep) <==> x in s && keep(x)
  {
    var t := SortBy(s, key);
    SortByOrders(s, key);
    SelectMembers(t, keep);
    forall x ensures x in Select(t, keep) <==> x in s && keep(x) {
      assert x in s <==> x in multiset(s);
      assert x in t <==> x in multiset(t);
    }
  }

  /** The elements with key `k`, in order. */
  function OfKey<T>(s: seq<T>, key: T -> int, k: int): (r: seq<T>) {
    Select(s, (x: T) => key(x) == k)
  }

  /** Stability: the elements of one key keep their order of arrival. */
  lemma StableOnKey<T>(s: seq<T>, key: T -> int, k: int)
    ensures OfKey(SortBy(s, key), key, k) == OfKey(s, key, k)
  {
    var keep := (x: T) => key(x) == k;
    SelectSort(s, keep, key);
    SelectMembers(s, keep);
    var sel := Select(s, keep);
    forall i | 0 <= i < |sel| ensures key(sel[i]) == k {
    }
    SortOrdered(sel, key);
  }

  /** Order and stability determine the sorted sequence, so `SortBy` is the only
      function with the two properties. */
  lemma {:induction false} SortUnique<T>(r: seq<T>, t: seq<T>, key: T -> int)
    requires Ordered(r, key) && Ordered(t, key)
    requires forall k :: OfKey(r, key, k) == OfKey(t, key, k)
    ensures r == t
  {
    assert r != [] ==> OfKey(t, key, key(r[|r| - 1])) == OfKey(r, key, key(r[|r| - 1])) != [];
    assert t != [] ==> OfKey(r, key, key(t[|t| - 1])) == OfKey(t, key, key(t[|t| - 1])) != [];
    if r != [] {
      LastKey(r, t, key);
      LastKey(t, r, key);
      var a, b, r', t' := r[|r| - 1], t[|t| - 1], r[..|r| - 1], t[..|t| - 1];
      assert a == b by {
        var k := key(a);
        assert OfKey(r', key, k) + [a] == OfKey(r, key, k) == OfKey(t, key, k) == OfKey(t', key, k) + [b];
        assert (OfKey(r', key, k) + [a])[|OfKey(r', key, k)|] == a;
      }
      forall k ensures OfKey(r', key, k) == OfKey(t', key, k) {
        var last := if key(a) == k then [a] else [];
        assert OfKey(r', key, k) + last == OfKey(r, key, k) == OfKey(t, key, k) == OfKey(t', key, k) + last;
        assert OfKey(r', key, k) == (OfKey(r', key, k) + last)[..|OfKey(r', key, k)|];
        assert OfKey(t', key, k) == (OfKey(t', key, k) + last)[..|OfKey(t', key, k)|];
      }
      SortUnique(r', t', key);
    }
  }

  lemma LastKey<T>(r: seq<T>, t: seq<T>, key: T -> int)
    requires r != [] && t != [] && Ordered(t, key)
    requires forall k :: OfKey(r, key, k) == OfKey(t, key, k)
    ensures key(r[|r| - 1]) <= key(t[|t| - 1])
  {
    var last := r[|r| - 1];
    assert last in OfKey(r, key, key(last));
    assert last in OfKey(t, key, key(last));
    SelectMembers(t, (x: T) => key(x) == key(last));
    assert last in t;
  }
}
