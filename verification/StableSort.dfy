/**
 * A stable sort by an integer key, as `Array.prototype.sort` performs it
 * with the comparator `key(a) - key(b)`: an insertion sort, proved to give
 * a permutation in key order in which elements with equal keys keep their
 * relative order.
 */
module StableSort {
  import opened SeqFacts

  predicate SortedBy<T>(xs: seq<T>, key: T -> int) {
    forall i, j :: 0 <= i < j < |xs| ==> key(xs[i]) <= key(xs[j])
  }

  /** The elements whose key is `d`, in their order. */
  function WithKey<T>(xs: seq<T>, key: T -> int, d: int): seq<T> {
    if xs == [] then []
    else WithKey(xs[..|xs| - 1], key, d) + (if key(xs[|xs| - 1]) == d then [xs[|xs| - 1]] else [])
  }

  lemma {:induction false} WithKeyConcat<T>(a: seq<T>, b: seq<T>, key: T -> int, d: int)
    ensures WithKey(a + b, key, d) == WithKey(a, key, d) + WithKey(b, key, d)
  {
    if b == [] {
      assert a + b == a;
    } else {
      assert (a + b)[..|a + b| - 1] == a + b[..|b| - 1];
      assert (a + b)[|a + b| - 1] == b[|b| - 1];
      WithKeyConcat(a, b[..|b| - 1], key, d);
    }
  }

  lemma {:induction false} WithKeyNone<T>(xs: seq<T>, key: T -> int, d: int)
    requires forall i :: 0 <= i < |xs| ==> key(xs[i]) != d
    ensures WithKey(xs, key, d) == []
  {
    if xs != [] {
      WithKeyNone(xs[..|xs| - 1], key, d);
    }
  }

  /** Where `x` goes: just after the last element whose key is at most its
      own, scanning from the end. */
  function InsertPos<T>(xs: seq<T>, x: T, key: T -> int): (p: nat)
    ensures p <= |xs|
    ensures forall i :: p <= i < |xs| ==> key(x) < key(xs[i])
    ensures SortedBy(xs, key) ==> forall i :: 0 <= i < p ==> key(xs[i]) <= key(x)
  {
    if xs == [] then 0
    else if key(xs[|xs| - 1]) <= key(x) then |xs|
    else InsertPos(xs[..|xs| - 1], x, key)
  }

  function Insert<T>(xs: seq<T>, x: T, key: T -> int): (r: seq<T>)
    ensures multiset(r) == multiset(xs) + multiset{x}
  {
    var p := InsertPos(xs, x, key);
    assert xs == xs[..p] + xs[p..];
    xs[..p] + [x] + xs[p..]
  }

  lemma InsertSorted<T>(xs: seq<T>, x: T, key: T -> int)
    requires SortedBy(xs, key)
    ensures SortedBy(Insert(xs, x, key), key)
  {
    var p := InsertPos(xs, x, key);
    var r := Insert(xs, x, key);
    assert |r| == |xs| + 1;
    assert forall i :: 0 <= i < p ==> r[i] == xs[i];
    assert r[p] == x;
    assert forall i :: p < i < |r| ==> r[i] == xs[i - 1];
  }

  lemma InsertStable<T>(xs: seq<T>, x: T, key: T -> int, d: int)
    ensures WithKey(Insert(xs, x, key), key, d) == WithKey(xs, key, d) + WithKey([x], key, d)
  {
    var p := InsertPos(xs, x, key);
    var wb, wa, single := WithKey(xs[..p], key, d), WithKey(xs[p..], key, d), WithKey([x], key, d);
    InsertParts(xs, x, key, d);
    if d == key(x) {
      InsertAfterNone(xs, x, key);
      AppendEmpty(wb + single);
      AppendEmpty(wb);
    } else {
      WithKeySingle(x, key, d);
      AppendEmpty(wb);
      AppendEmpty(wb + wa);
    }
  }

  /** The elements with a key, before and after an insertion, split at the
      insertion point. */
  lemma InsertParts<T>(xs: seq<T>, x: T, key: T -> int, d: int)
    ensures var p := InsertPos(xs, x, key);
      WithKey(Insert(xs, x, key), key, d) == (WithKey(xs[..p], key, d) + WithKey([x], key, d)) + WithKey(xs[p..], key, d)
      && WithKey(xs, key, d) == WithKey(xs[..p], key, d) + WithKey(xs[p..], key, d)
  {
    var p := InsertPos(xs, x, key);
    var before, after := xs[..p], xs[p..];
    assert Insert(xs, x, key) == (before + [x]) + after;
    WithKeyConcat(before + [x], after, key, d);
    WithKeyConcat(before, [x], key, d);
    assert xs == before + after;
    WithKeyConcat(before, after, key, d);
  }

  /** Nothing after the insertion point has the inserted element's key. */
  lemma InsertAfterNone<T>(xs: seq<T>, x: T, key: T -> int)
    ensures WithKey(xs[InsertPos(xs, x, key)..], key, key(x)) == []
  {
    var p := InsertPos(xs, x, key);
    var after := xs[p..];
    forall i | 0 <= i < |after| ensures key(after[i]) != key(x) {
      assert after[i] == xs[p + i];
    }
    WithKeyNone(after, key, key(x));
  }

  lemma WithKeySingle<T>(x: T, key: T -> int, d: int)
    ensures WithKey([x], key, d) == if key(x) == d then [x] else []
  {
    var one := [x];
    assert one[..|one| - 1] == [] && one[|one| - 1] == x;
    assert WithKey(one, key, d) == WithKey([], key, d) + (if key(x) == d then [x] else []);
  }

  /** The sort: in key order and a permutation of the input
      (`SortByStable` adds that equal keys keep their order). */
  function SortBy<T>(xs: seq<T>, key: T -> int): (r: seq<T>)
    ensures SortedBy(r, key)
    ensures multiset(r) == multiset(xs)
  {
    if xs == [] then []
    else
      assert xs == xs[..|xs| - 1] + [xs[|xs| - 1]];
      var sortedInit := SortBy(xs[..|xs| - 1], key);
      InsertSorted(sortedInit, xs[|xs| - 1], key);
      Insert(sortedInit, xs[|xs| - 1], key)
  }

  /** Stability: the elements with any one key keep their relative order. */
  lemma {:induction false} SortByStable<T>(xs: seq<T>, key: T -> int, d: int)
    ensures WithKey(SortBy(xs, key), key, d) == WithKey(xs, key, d)
  {
    if xs != [] {
      var init, last := xs[..|xs| - 1], xs[|xs| - 1];
      SortByStable(init, key, d);
      InsertStable(SortBy(init, key), last, key, d);
      assert xs == init + [last];
      WithKeyConcat(init, [last], key, d);
    }
  }

  /** Input already in key order is left as it is. */
  lemma {:induction false} SortByOfSorted<T>(xs: seq<T>, key: T -> int)
    requires SortedBy(xs, key)
    ensures SortBy(xs, key) == xs
  {
    if xs != [] {
      var init := xs[..|xs| - 1];
      assert SortedBy(init, key);
      SortByOfSorted(init, key);
      assert InsertPos(init, xs[|xs| - 1], key) == |init|;
      assert xs == init + [xs[|xs| - 1]];
    }
  }

  /** Inserting the elements of `more` one after another. */
  function InsertAll<T>(xs: seq<T>, more: seq<T>, key: T -> int): seq<T> {
    if more == [] then xs
    else Insert(InsertAll(xs, more[..|more| - 1], key), more[|more| - 1], key)
  }

  lemma {:induction false} SortByConcat<T>(xs: seq<T>, more: seq<T>, key: T -> int)
    ensures SortBy(xs + more, key) == InsertAll(SortBy(xs, key), more, key)
  {
    if more == [] {
      assert xs + more == xs;
    } else {
      var all, init, last := xs + more, more[..|more| - 1], more[|more| - 1];
      assert all[..|all| - 1] == xs + init;
      assert all[|all| - 1] == last;
      assert SortBy(all, key) == Insert(SortBy(xs + init, key), last, key);
      SortByConcat(xs, init, key);
    }
  }

  /** Sorting after each append gives what one sort of everything gives. */
  lemma SortByAgain<T>(xs: seq<T>, more: seq<T>, key: T -> int)
    ensures SortBy(SortBy(xs, key) + more, key) == SortBy(xs + more, key)
  {
    SortByConcat(SortBy(xs, key), more, key);
    SortByOfSorted(SortBy(xs, key), key);
    SortByConcat(xs, more, key);
  }
}
