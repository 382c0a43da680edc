/**
 * `Array.prototype.sort` with a comparator that subtracts the first key from
 * the second:
 * a stable sort into non-increasing order of an integer key (ECMAScript
 * requires `sort` to be stable since the 2019 edition).  Insertion sort is
 * the reference definition; `StableSortUnique` shows that every stable
 * descending sort returns the same sequence, so the choice of algorithm does
 * not matter.
 */
module Sorting {

  predicate SortedDesc<T>(s: seq<T>, key: T -> int)
  {
    forall i, j :: 0 <= i < j < |s| ==> key(s[i]) >= key(s[j])
  }

  /** The elements of `s` whose key is `v`, in their order in `s`. */
  function WithKey<T>(s: seq<T>, key: T -> int, v: int): seq<T>
  {
    if s == [] then [] else (if key(s[0]) == v then [s[0]] else []) + WithKey(s[1..], key, v)
  }

  /** A stable rearrangement keeps, for every key, the order of the elements with that key. */
  ghost predicate SameOrderPerKey<T>(a: seq<T>, b: seq<T>, key: T -> int)
  {
    forall v :: WithKey(a, key, v) == WithKey(b, key, v)
  }

  /** Puts `x` in front of the first element whose key is not greater. */
  function Insert<T>(x: T, s: seq<T>, key: T -> int): seq<T>
  {
    if s == [] || key(x) >= key(s[0]) then [x] + s else [s[0]] + Insert(x, s[1..], key)
  }

  function SortDesc<T>(s: seq<T>, key: T -> int): seq<T>
  {
    if s == [] then [] else Insert(s[0], SortDesc(s[1..], key), key)
  }

  lemma {:induction false} WithKeyContents<T>(s: seq<T>, key: T -> int, v: int)
    ensures forall x :: x in WithKey(s, key, v) <==> x in s && key(x) == v
  {
    if s != [] {
      WithKeyContents(s[1..], key, v);
      assert s == [s[0]] + s[1..];
    }
  }

  lemma {:induction false} InsertPermutes<T>(x: T, s: seq<T>, key: T -> int)
    ensures multiset(Insert(x, s, key)) == multiset(s) + multiset{x}
  {
    if s != [] && key(x) < key(s[0]) {
      InsertPermutes(x, s[1..], key);
      assert s == [s[0]] + s[1..];
    }
  }

  lemma {:induction false} InsertSorted<T>(x: T, s: seq<T>, key: T -> int)
    requires SortedDesc(s, key)
    ensures SortedDesc(Insert(x, s, key), key)
  {
    if s != [] && key(x) < key(s[0]) {
      var t := s[1..];
      InsertSorted(x, t, key);
      InsertPermutes(x, t, key);
      var r := Insert(x, t, key);
      forall y | y in r ensures key(s[0]) >= key(y) {
        assert y in multiset(r);
        if y != x {
          assert y in multiset(t);
          assert y in t;
        }
      }
      forall i, j | 0 <= i < j < |[s[0]] + r| ensures key(([s[0]] + r)[i]) >= key(([s[0]] + r)[j]) {
        if i == 0 {
          assert ([s[0]] + r)[j] == r[j - 1];
          assert r[j - 1] in r;
        }
      }
    }
  }

  lemma {:induction false} InsertStable<T>(x: T, s: seq<T>, key: T -> int, v: int)
    ensures WithKey(Insert(x, s, key), key, v) == (if key(x) == v then [x] else []) + WithKey(s, key, v)
  {
    if s == [] || key(x) >= key(s[0]) {
      assert ([x] + s)[1..] == s;
    } else {
      InsertStable(x, s[1..], key, v);
      var r := [s[0]] + Insert(x, s[1..], key);
      assert r[1..] == Insert(x, s[1..], key);
    }
  }

  /** The reference sort returns a sorted permutation that keeps the order of equal keys. */
  lemma {:induction false} SortDescCorrect<T>(s: seq<T>, key: T -> int)
    ensures SortedDesc(SortDesc(s, key), key)
    ensures multiset(SortDesc(s, key)) == multiset(s)
    ensures SameOrderPerKey(SortDesc(s, key), s, key)
  {
    if s != [] {
      var t := SortDesc(s[1..], key);
      SortDescCorrect(s[1..], key);
      InsertSorted(s[0], t, key);
      InsertPermutes(s[0], t, key);
      assert s == [s[0]] + s[1..];
      forall v ensures WithKey(SortDesc(s, key), key, v) == WithKey(s, key, v) {
        InsertStable(s[0], t, key, v);
      }
    }
  }

  lemma SortedHeadIsMax<T>(s: seq<T>, key: T -> int, x: T)
    requires SortedDesc(s, key) && x in s
    ensures key(s[0]) >= key(x)
  {
    var j :| 0 <= j < |s| && s[j] == x;
  }

  lemma SameHeads<T>(a: seq<T>, b: seq<T>, key: T -> int)
    requires a != [] && b != []
    requires SortedDesc(a, key) && SortedDesc(b, key)
    requires SameOrderPerKey(a, b, key)
    ensures a[0] == b[0]
  {
    var m, n := key(a[0]), key(b[0]);
    WithKeyContents(a, key, m);
    WithKeyContents(b, key, m);
    assert WithKey(a, key, m) == WithKey(b, key, m);
    SortedHeadIsMax(b, key, a[0]);
    WithKeyContents(a, key, n);
    WithKeyContents(b, key, n);
    assert WithKey(a, key, n) == WithKey(b, key, n);
    SortedHeadIsMax(a, key, b[0]);
    assert WithKey(a, key, m)[0] == a[0] && WithKey(b, key, m)[0] == b[0];
  }

  lemma SameTails<T>(a: seq<T>, b: seq<T>, key: T -> int)
    requires a != [] && b != [] && a[0] == b[0]
    requires SameOrderPerKey(a, b, key)
    ensures SameOrderPerKey(a[1..], b[1..], key)
  {
    forall v ensures WithKey(a[1..], key, v) == WithKey(b[1..], key, v) {
      var head := if key(a[0]) == v then [a[0]] else [];
      assert WithKey(a, key, v) == head + WithKey(a[1..], key, v);
      assert WithKey(b, key, v) == head + WithKey(b[1..], key, v);
      assert (head + WithKey(a[1..], key, v))[|head|..] == WithKey(a[1..], key, v);
      assert (head + WithKey(b[1..], key, v))[|head|..] == WithKey(b[1..], key, v);
    }
  }

  /** Two sorted sequences that agree on the order within every key are equal:
      a stable descending sort has exactly one possible result. */
  lemma {:induction false} StableSortUnique<T>(a: seq<T>, b: seq<T>, key: T -> int)
    requires SortedDesc(a, key) && SortedDesc(b, key)
    requires SameOrderPerKey(a, b, key)
    ensures a == b
    decreases |a|
  {
    if a == [] || b == [] {
      var c := if a == [] then b else a;
      if c != [] {
        WithKeyContents(c, key, key(c[0]));
        assert false;
      }
    } else {
      SameHeads(a, b, key);
      SameTails(a, b, key);
      StableSortUnique(a[1..], b[1..], key);
      assert a == [a[0]] + a[1..] && b == [b[0]] + b[1..];
    }
  }
}
