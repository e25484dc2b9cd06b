/** Sequence operations behind the scanner's comprehensions and its two
    calls of `sorted`: filtering, a stable sort by a string key, and the
    ascending listing of a set of strings. */
module Seqs {
  import opened Text

  /** `[x for x in s if p(x)]`. */
  function Filter<T>(p: T -> bool, s: seq<T>): (r: seq<T>)
    ensures |r| <= |s|
    ensures forall x :: x in r ==> x in s && p(x)
    ensures forall i :: 0 <= i < |r| ==> p(r[i])
  {
    if s == [] then [] else Filter(p, s[..|s| - 1]) + (if p(s[|s| - 1]) then [s[|s| - 1]] else [])
  }

  lemma {:induction false} FilterAppend<T>(p: T -> bool, a: seq<T>, b: seq<T>)
    ensures Filter(p, a + b) == Filter(p, a) + Filter(p, b)
    decreases |b|
  {
    if b != [] {
      var b' := b[..|b| - 1];
      assert (a + b)[..|a + b| - 1] == a + b';
      FilterAppend(p, a, b');
    } else {
      assert a + b == a;
    }
  }

  /** Each element is kept as often as it occurs when it satisfies `p`,
      and never otherwise. */
  lemma {:induction false} FilterMultiset<T>(p: T -> bool, s: seq<T>, x: T)
    ensures multiset(Filter(p, s))[x] == if p(x) then multiset(s)[x] else 0
    decreases |s|
  {
    if s != [] {
      var s' := s[..|s| - 1];
      FilterMultiset(p, s', x);
      assert s == s' + [s[|s| - 1]];
    }
  }

  /** Filters of two equally long sequences whose tests agree position
      by position keep equally many elements. */
  lemma {:induction false} FilterCountCorrespond<T, U>(p: T -> bool, q: U -> bool, a: seq<T>, b: seq<U>)
    requires |a| == |b|
    requires forall i :: 0 <= i < |a| ==> (p(a[i]) <==> q(b[i]))
    ensures |Filter(p, a)| == |Filter(q, b)|
    decreases |a|
  {
    if a != [] {
      FilterCountCorrespond(p, q, a[..|a| - 1], b[..|b| - 1]);
    }
  }

  /** Positions, in increasing order, of the elements of `s` that satisfy `p`. */
  function KeptIndices<T>(p: T -> bool, s: seq<T>): seq<nat>
  {
    if s == [] then [] else KeptIndices(p, s[..|s| - 1]) + (if p(s[|s| - 1]) then [|s| - 1] else [])
  }

  predicate StrictlyIncreasing(idx: seq<nat>)
  {
    forall i, j :: 0 <= i < j < |idx| ==> idx[i] < idx[j]
  }

  /** The kept positions are increasing and hold the filter's elements. */
  lemma {:induction false} KeptIndicesSelect<T>(p: T -> bool, s: seq<T>)
    ensures var idx := KeptIndices(p, s);
      && |idx| == |Filter(p, s)|
      && StrictlyIncreasing(idx)
      && (forall k :: 0 <= k < |idx| ==> idx[k] < |s| && Filter(p, s)[k] == s[idx[k]])
    decreases |s|
  {
    if s != [] {
      var s', x := s[..|s| - 1], s[|s| - 1];
      KeptIndicesSelect(p, s');
      assert KeptIndices(p, s) == KeptIndices(p, s') + (if p(x) then [|s| - 1] else []);
      assert Filter(p, s) == Filter(p, s') + (if p(x) then [x] else []);
    }
  }

  /** A position is kept exactly when its element passes the test. */
  lemma {:induction false} KeptIndicesMembership<T>(p: T -> bool, s: seq<T>)
    ensures forall j :: 0 <= j < |s| ==> (p(s[j]) <==> j in KeptIndices(p, s))
    decreases |s|
  {
    if s != [] {
      var s', x := s[..|s| - 1], s[|s| - 1];
      KeptIndicesMembership(p, s');
      KeptIndicesSelect(p, s');
      var idx', idx := KeptIndices(p, s'), KeptIndices(p, s);
      assert idx == idx' + (if p(x) then [|s| - 1] else []);
      forall j | 0 <= j < |s| ensures p(s[j]) <==> j in idx {
        if j < |s| - 1 {
          assert s[j] == s'[j];
          assert j in idx <==> j in idx';
        }
      }
    }
  }

  /** The filter keeps exactly the positions whose element satisfies `p`,
      in their original order. */
  lemma FilterKeepsOrder<T>(p: T -> bool, s: seq<T>)
    ensures var idx := KeptIndices(p, s);
      && |idx| == |Filter(p, s)|
      && StrictlyIncreasing(idx)
      && (forall k :: 0 <= k < |idx| ==> idx[k] < |s| && Filter(p, s)[k] == s[idx[k]])
      && (forall j :: 0 <= j < |s| ==> (p(s[j]) <==> j in idx))
  {
    KeptIndicesSelect(p, s);
    KeptIndicesMembership(p, s);
  }

  /** The key of each element never decreases along `s`. */
  predicate SortedByKey<T>(s: seq<T>, key: T -> string)
  {
    forall i, j :: 0 <= i < j < |s| ==> !Less(key(s[j]), key(s[i]))
  }

  /** Dropping the last element keeps a sequence sorted, and the last
      element's key is not below any other key. */
  lemma SortedInit<T>(s: seq<T>, key: T -> string)
    requires SortedByKey(s, key) && s != []
    ensures SortedByKey(s[..|s| - 1], key)
    ensures forall y :: y in s[..|s| - 1] ==> !Less(key(s[|s| - 1]), key(y))
  {
    forall y | y in s[..|s| - 1] ensures !Less(key(s[|s| - 1]), key(y)) {
      var k :| 0 <= k < |s| - 1 && s[..|s| - 1][k] == y;
      assert s[k] == y;
    }
  }

  /** An element whose key is not below any key of a sorted sequence can
      be appended to it. */
  lemma SortedSnoc<T>(s: seq<T>, x: T, key: T -> string)
    requires SortedByKey(s, key)
    requires forall y :: y in s ==> !Less(key(x), key(y))
    ensures SortedByKey(s + [x], key)
  {
    var r := s + [x];
    forall i, j | 0 <= i < j < |r| ensures !Less(key(r[j]), key(r[i])) {
      assert r[i] == s[i];
      if j < |s| {
        assert r[j] == s[j];
      } else {
        assert s[i] in s;
      }
    }
  }

  /** Filtering a sorted sequence leaves it sorted. */
  lemma {:induction false} FilterSorted<T>(p: T -> bool, s: seq<T>, key: T -> string)
    requires SortedByKey(s, key)
    ensures SortedByKey(Filter(p, s), key)
    decreases |s|
  {
    if s != [] {
      var s', x := s[..|s| - 1], s[|s| - 1];
      SortedInit(s, key);
      FilterSorted(p, s', key);
      if p(x) {
        SortedSnoc(Filter(p, s'), x, key);
      } else {
        assert Filter(p, s) == Filter(p, s') + [];
      }
    }
  }

  /** Inserts `x` after every element whose key is not greater than its own. */
  function InsertByKey<T>(x: T, s: seq<T>, key: T -> string): seq<T>
  {
    if s == [] then [x]
    else if Less(key(x), key(s[0])) then [x] + s
    else [s[0]] + InsertByKey(x, s[1..], key)
  }

  /** `sorted(s, key=key)`: a stable sort, here by insertion. */
  function SortByKey<T>(s: seq<T>, key: T -> string): seq<T>
  {
    if s == [] then [] else InsertByKey(s[|s| - 1], SortByKey(s[..|s| - 1], key), key)
  }

  lemma {:induction false} InsertPermutation<T>(x: T, s: seq<T>, key: T -> string)
    ensures multiset(InsertByKey(x, s, key)) == multiset(s) + multiset{x}
    decreases |s|
  {
    if s != [] && !Less(key(x), key(s[0])) {
      InsertPermutation(x, s[1..], key);
      assert s == [s[0]] + s[1..];
    }
  }

  lemma {:induction false} InsertSorted<T>(x: T, s: seq<T>, key: T -> string)
    requires SortedByKey(s, key)
    ensures SortedByKey(InsertByKey(x, s, key), key)
    decreases |s|
  {
    if s == [] {
    } else if Less(key(x), key(s[0])) {
      var r := [x] + s;
      forall i, j | 0 <= i < j < |r| ensures !Less(key(r[j]), key(r[i])) {
        if i == 0 && Less(key(r[j]), key(x)) {
          LessTransitive(key(r[j]), key(x), key(s[0]));
          if j == 1 {
            LessIrreflexive(key(s[0]));
          }
        }
      }
    } else {
      var t := InsertByKey(x, s[1..], key);
      InsertSorted(x, s[1..], key);
      InsertPermutation(x, s[1..], key);
      var r := [s[0]] + t;
      forall i, j | 0 <= i < j < |r| ensures !Less(key(r[j]), key(r[i])) {
        if i == 0 {
          assert r[j] in multiset(t);
          assert r[j] in multiset(s[1..]) || r[j] == x;
          if r[j] != x {
            var k :| 1 <= k < |s| && s[k] == r[j];
          }
        }
      }
    }
  }

  /** The sort returns its input ordered by key. */
  lemma {:induction false} SortSortedPermutation<T>(s: seq<T>, key: T -> string)
    ensures SortedByKey(SortByKey(s, key), key)
    ensures multiset(SortByKey(s, key)) == multiset(s)
    decreases |s|
  {
    if s != [] {
      var s' := s[..|s| - 1];
      SortSortedPermutation(s', key);
      InsertSorted(s[|s| - 1], SortByKey(s', key), key);
      InsertPermutation(s[|s| - 1], SortByKey(s', key), key);
      assert s == s' + [s[|s| - 1]];
    }
  }

  /** The elements of `s` whose key is `k`, in order. */
  function WithKey<T>(s: seq<T>, key: T -> string, k: string): seq<T>
  {
    if s == [] then [] else WithKey(s[..|s| - 1], key, k) + (if key(s[|s| - 1]) == k then [s[|s| - 1]] else [])
  }

  lemma {:induction false} WithKeyCons<T>(x: T, s: seq<T>, key: T -> string, k: string)
    ensures WithKey([x] + s, key, k) == (if key(x) == k then [x] else []) + WithKey(s, key, k)
    decreases |s|
  {
    if s != [] {
      var s' := s[..|s| - 1];
      assert ([x] + s)[..|s|] == [x] + s';
      WithKeyCons(x, s', key, k);
    } else {
      assert [x] + s == [x];
    }
  }

  lemma {:induction false} WithKeyNone<T>(s: seq<T>, key: T -> string, k: string)
    requires forall i :: 0 <= i < |s| ==> key(s[i]) != k
    ensures WithKey(s, key, k) == []
    decreases |s|
  {
    if s != [] {
      WithKeyNone(s[..|s| - 1], key, k);
    }
  }

  /** Nothing in a sorted sequence has the key of an element that sorts
      before its first element. */
  lemma KeyBeforeAll<T>(x: T, s: seq<T>, key: T -> string)
    requires SortedByKey(s, key) && s != [] && Less(key(x), key(s[0]))
    ensures forall i :: 0 <= i < |s| ==> key(s[i]) != key(x)
  {
    LessIrreflexive(key(x));
  }

  /** Inserting in front of every element leaves the key's elements in
      order, the new one first. */
  lemma InsertStableFront<T>(x: T, s: seq<T>, key: T -> string, k: string)
    requires SortedByKey(s, key) && s != [] && Less(key(x), key(s[0]))
    ensures WithKey([x] + s, key, k) == WithKey(s, key, k) + (if key(x) == k then [x] else [])
  {
    WithKeyCons(x, s, key, k);
    if key(x) == k {
      KeyBeforeAll(x, s, key);
      WithKeyNone(s, key, k);
    }
  }

  lemma {:induction false} InsertStable<T>(x: T, s: seq<T>, key: T -> string, k: string)
    requires SortedByKey(s, key)
    ensures WithKey(InsertByKey(x, s, key), key, k) == WithKey(s, key, k) + (if key(x) == k then [x] else [])
    decreases |s|
  {
    if s == [] {
      assert [x] == [] + [x];
    } else if Less(key(x), key(s[0])) {
      InsertStableFront(x, s, key, k);
    } else {
      SortedTail(s, key);
      InsertStable(x, s[1..], key, k);
      InsertStableBehind(x, s, key, k);
    }
  }

  /** Inserting behind the first element: the step of the induction. */
  lemma InsertStableBehind<T>(x: T, s: seq<T>, key: T -> string, k: string)
    requires s != [] && !Less(key(x), key(s[0]))
    requires WithKey(InsertByKey(x, s[1..], key), key, k) == WithKey(s[1..], key, k) + (if key(x) == k then [x] else [])
    ensures WithKey(InsertByKey(x, s, key), key, k) == WithKey(s, key, k) + (if key(x) == k then [x] else [])
  {
    var u := s[1..];
    var t := InsertByKey(x, u, key);
    assert InsertByKey(x, s, key) == [s[0]] + t;
    WithKeyConsStep(s[0], t, u, key, k, if key(x) == k then [x] else []);
    assert s == [s[0]] + u;
  }

  lemma SortedTail<T>(s: seq<T>, key: T -> string)
    requires SortedByKey(s, key) && s != []
    ensures SortedByKey(s[1..], key)
  {
    forall i, j | 0 <= i < j < |s| - 1 ensures !Less(key(s[1..][j]), key(s[1..][i])) {
      assert s[1..][j] == s[j + 1] && s[1..][i] == s[i + 1];
    }
  }

  /** Putting the same element in front of two sequences keeps a
      relation between their elements of key `k`. */
  lemma WithKeyConsStep<T>(y: T, t: seq<T>, u: seq<T>, key: T -> string, k: string, tail: seq<T>)
    requires WithKey(t, key, k) == WithKey(u, key, k) + tail
    ensures WithKey([y] + t, key, k) == WithKey([y] + u, key, k) + tail
  {
    WithKeyCons(y, t, key, k);
    WithKeyCons(y, u, key, k);
  }

  /** Stability: elements with equal keys keep their relative order. */
  lemma {:induction false} SortStable<T>(s: seq<T>, key: T -> string, k: string)
    ensures WithKey(SortByKey(s, key), key, k) == WithKey(s, key, k)
    decreases |s|
  {
    if s != [] {
      var s' := s[..|s| - 1];
      SortStable(s', key, k);
      SortSortedPermutation(s', key);
      InsertStable(s[|s| - 1], SortByKey(s', key), key, k);
    }
  }

  /** The set of elements of a sequence. */
  function Elems<T>(s: seq<T>): set<T>
  {
    set y | y in s
  }

  /** Strictly ascending strings: no repetition, in `Less` order. */
  predicate StrictlyAscending(s: seq<string>)
  {
    forall i, j :: 0 <= i < j < |s| ==> Less(s[i], s[j])
  }

  /** Adds `x` to a strictly ascending list unless it is already there. */
  function InsertUnique(x: string, s: seq<string>): seq<string>
  {
    if s == [] then [x]
    else if x == s[0] then s
    else if Less(x, s[0]) then [x] + s
    else [s[0]] + InsertUnique(x, s[1..])
  }

  /** `sorted(set(s))`. */
  function SortedSet(s: seq<string>): seq<string>
  {
    if s == [] then [] else InsertUnique(s[|s| - 1], SortedSet(s[..|s| - 1]))
  }

  lemma ElemsCons<T>(y: T, t: seq<T>)
    ensures Elems([y] + t) == {y} + Elems(t)
  {
    assert forall z :: z in [y] + t <==> z == y || z in t;
  }

  /** The tail of a strictly ascending list is strictly ascending and
      lies above its head. */
  lemma AscendingTail(s: seq<string>)
    requires StrictlyAscending(s) && s != []
    ensures StrictlyAscending(s[1..])
    ensures forall y :: y in Elems(s[1..]) ==> Less(s[0], y)
  {
    forall i, j | 0 <= i < j < |s| - 1 ensures Less(s[1..][i], s[1..][j]) {
      assert s[1..][i] == s[i + 1] && s[1..][j] == s[j + 1];
    }
    forall y | y in Elems(s[1..]) ensures Less(s[0], y) {
      var k :| 0 <= k < |s| - 1 && s[1..][k] == y;
      assert s[k + 1] == y;
    }
  }

  /** A head below every element of a strictly ascending list keeps it
      strictly ascending. */
  lemma AscendingCons(y: string, t: seq<string>)
    requires StrictlyAscending(t)
    requires forall z :: z in Elems(t) ==> Less(y, z)
    ensures StrictlyAscending([y] + t)
  {
    var r := [y] + t;
    forall i, j | 0 <= i < j < |r| ensures Less(r[i], r[j]) {
      assert r[j] == t[j - 1];
      if i == 0 {
        assert t[j - 1] in Elems(t);
      } else {
        assert r[i] == t[i - 1];
      }
    }
  }

  lemma {:induction false} InsertUniqueSpec(x: string, s: seq<string>)
    requires StrictlyAscending(s)
    ensures StrictlyAscending(InsertUnique(x, s))
    ensures Elems(InsertUnique(x, s)) == Elems(s) + {x}
    decreases |s|
  {
    if s == [] {
      assert Elems([x]) == {x};
    } else {
      AscendingTail(s);
      ElemsCons(s[0], s[1..]);
      assert s == [s[0]] + s[1..];
      if x == s[0] {
      } else if Less(x, s[0]) {
        forall z | z in Elems(s) ensures Less(x, z) {
          if z != s[0] {
            LessTransitive(x, s[0], z);
          }
        }
        AscendingCons(x, s);
        ElemsCons(x, s);
      } else {
        LessTrichotomy(x, s[0]);
        var t := InsertUnique(x, s[1..]);
        InsertUniqueSpec(x, s[1..]);
        AscendingCons(s[0], t);
        ElemsCons(s[0], t);
      }
    }
  }

  /** The listing is strictly ascending and holds exactly the elements of `s`. */
  lemma {:induction false} SortedSetSpec(s: seq<string>)
    ensures StrictlyAscending(SortedSet(s))
    ensures Elems(SortedSet(s)) == Elems(s)
    decreases |s|
  {
    if s != [] {
      var s' := s[..|s| - 1];
      SortedSetSpec(s');
      InsertUniqueSpec(s[|s| - 1], SortedSet(s'));
      assert s == s' + [s[|s| - 1]];
    }
  }

  /** A strictly ascending list is determined by its set of elements. */
  lemma {:induction false} StrictlyAscendingUnique(a: seq<string>, b: seq<string>)
    requires StrictlyAscending(a) && StrictlyAscending(b)
    requires Elems(a) == Elems(b)
    ensures a == b
    decreases |a|
  {
    assert forall k :: 0 <= k < |a| ==> a[k] in Elems(a);
    assert forall k :: 0 <= k < |b| ==> b[k] in Elems(b);
    if a != [] && b != [] {
      var i :| 0 <= i < |b| && b[i] == a[0];
      var j :| 0 <= j < |a| && a[j] == b[0];
      if i != 0 && j != 0 {
        LessAsymmetric(b[0], a[0]);
      }
      forall y ensures y in Elems(a[1..]) <==> y in Elems(b[1..]) {
        assert y in Elems(a) <==> y == a[0] || y in a[1..];
        assert y in Elems(b) <==> y == b[0] || y in b[1..];
        if y in a[1..] {
          var k :| 1 <= k < |a| && a[k] == y;
          assert Less(a[0], y);
          LessIrreflexive(y);
        }
        if y in b[1..] {
          var k :| 1 <= k < |b| && b[k] == y;
          assert Less(b[0], y);
          LessIrreflexive(y);
        }
      }
      StrictlyAscendingUnique(a[1..], b[1..]);
      assert a == [a[0]] + a[1..] && b == [b[0]] + b[1..];
    }
  }
}
