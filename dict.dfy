/**
 * A JavaScript object used as a dictionary and written one entry at a time
 * (`acc[key] = value` in a loop or a `reduce`): the left fold, over a
 * sequence of items, of the optional assignment each item makes, where
 * `None` stands for an item that writes nothing.
 */
module Dict {
  import opened Wrappers

  /** One write: `m[k] = v` for `Some((k, v))`, nothing for `None`. */
  function Put<K(==), V>(m: map<K, V>, u: Option<(K, V)>): map<K, V>
  {
    match u
    case None => m
    case Some((k, v)) => m[k := v]
  }

  /** The dictionary after the write of each item, in order, on an empty one. */
  function ApplyEach<T, K(==), V>(entry: T -> Option<(K, V)>, items: seq<T>): map<K, V>
  {
    if items == [] then map[]
    else Put(ApplyEach(entry, items[..|items| - 1]), entry(items[|items| - 1]))
  }

  predicate Writes<K(==), V>(u: Option<(K, V)>, k: K)
  {
    u.Some? && u.value.0 == k
  }

  /** Folding one more item performs its write on the dictionary so far. */
  lemma ApplyEachStep<T, K, V>(entry: T -> Option<(K, V)>, items: seq<T>, n: nat)
    requires n < |items|
    ensures ApplyEach(entry, items[..n + 1]) == Put(ApplyEach(entry, items[..n]), entry(items[n]))
  {
    assert items[..n + 1][..n] == items[..n];
  }

  /** A key is present exactly when some item writes it. */
  lemma {:induction false} ApplyEachDomain<T, K, V>(entry: T -> Option<(K, V)>, items: seq<T>, k: K)
    ensures k in ApplyEach(entry, items) <==> exists i :: 0 <= i < |items| && Writes(entry(items[i]), k)
  {
    if items != [] {
      var init := items[..|items| - 1];
      ApplyEachDomain(entry, init, k);
      if k in ApplyEach(entry, init) {
        var i :| 0 <= i < |init| && Writes(entry(init[i]), k);
        assert items[i] == init[i];
      }
      forall i | 0 <= i < |init| && Writes(entry(items[i]), k) ensures k in ApplyEach(entry, init) {
        assert init[i] == items[i];
      }
    }
  }

  /** Every entry of the result is the write of some item. */
  lemma {:induction false} ApplyEachFrom<T, K, V>(entry: T -> Option<(K, V)>, items: seq<T>)
    ensures forall k :: k in ApplyEach(entry, items) ==>
      exists i :: 0 <= i < |items| && entry(items[i]) == Some((k, ApplyEach(entry, items)[k]))
  {
    if items != [] {
      var init := items[..|items| - 1];
      ApplyEachFrom(entry, init);
      forall k | k in ApplyEach(entry, items)
        ensures exists i :: 0 <= i < |items| && entry(items[i]) == Some((k, ApplyEach(entry, items)[k]))
      {
        if !Writes(entry(items[|items| - 1]), k) {
          var i :| 0 <= i < |init| && entry(init[i]) == Some((k, ApplyEach(entry, init)[k]));
          assert items[i] == init[i];
        }
      }
    }
  }

  /** The value of a key is the one the last item that writes it gave it. */
  lemma {:induction false} ApplyEachLastWins<T, K, V>(entry: T -> Option<(K, V)>, items: seq<T>, i: nat, k: K)
    requires i < |items| && Writes(entry(items[i]), k)
    requires forall j :: i < j < |items| ==> !Writes(entry(items[j]), k)
    ensures k in ApplyEach(entry, items) && ApplyEach(entry, items)[k] == entry(items[i]).value.1
  {
    var init := items[..|items| - 1];
    if i < |items| - 1 {
      forall j | i < j < |init| ensures !Writes(entry(init[j]), k) {
        assert init[j] == items[j];
      }
      assert init[i] == items[i];
      ApplyEachLastWins(entry, init, i, k);
    }
  }
}
