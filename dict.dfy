/** Python dictionaries as the hash commands use them. A dictionary is built
    from an ordered list of items, where a later item overrides an earlier item
    with the same key (what `json.loads` does with an object's members), and
    it is read back by iterating over its items, in an order that the
    dictionary's contents do not determine (what `iteritems` and `json.dumps`
    do). */
module Dict {

  /** The keys named by a list of items. */
  function KeysOf<K, V>(items: seq<(K, V)>): set<K>
  {
    set i | 0 <= i < |items| :: items[i].0
  }

  /** No key is named twice. */
  predicate DistinctKeys<K(==), V>(items: seq<(K, V)>)
  {
    forall i, j :: 0 <= i < j < |items| ==> items[i].0 != items[j].0
  }

  /** The keys of a list of items, in list order. */
  function Keys<K, V>(items: seq<(K, V)>): (ks: seq<K>)
    ensures |ks| == |items|
  {
    seq(|items|, i requires 0 <= i < |items| => items[i].0)
  }

  /** The values of a list of items, in list order. */
  function Values<K, V>(items: seq<(K, V)>): (vs: seq<V>)
    ensures |vs| == |items|
  {
    seq(|items|, i requires 0 <= i < |items| => items[i].1)
  }

  /** The keys under which a dictionary holds `v`. */
  function Holding<K(==), V(==)>(d: map<K, V>, v: V): set<K>
  {
    set k | k in d && d[k] == v
  }

  /** `dict(items)`: each key maps to the value of its last item. */
  function FromItems<K(==), V>(items: seq<(K, V)>): (d: map<K, V>)
    ensures d.Keys == KeysOf(items)
  {
    if items == [] then map[]
    else
      var init, last := items[..|items| - 1], items[|items| - 1];
      assert KeysOf(items) == KeysOf(init) + {last.0} by {
        assert forall i | 0 <= i < |init| :: init[i] == items[i];
      }
      FromItems(init)[last.0 := last.1]
  }

  /** An item that no later item overrides gives its key's value. */
  lemma {:induction false} FromItemsLastWins<K, V>(items: seq<(K, V)>, i: nat)
    requires i < |items|
    requires forall j :: i < j < |items| ==> items[j].0 != items[i].0
    ensures items[i].0 in FromItems(items) && FromItems(items)[items[i].0] == items[i].1
  {
    if i < |items| - 1 {
      FromItemsLastWins(items[..|items| - 1], i);
    }
  }

  /** No item after the `i`th names its key again. */
  predicate LastOfKey<K(==), V>(items: seq<(K, V)>, i: nat)
    requires i < |items|
  {
    forall j :: i < j < |items| ==> items[j].0 != items[i].0
  }

  /** Conversely, every key's value comes from the last item naming that key. */
  lemma {:induction false} FromItemsLastItem<K, V>(items: seq<(K, V)>, k: K)
    requires k in FromItems(items)
    ensures exists i :: 0 <= i < |items| && items[i] == (k, FromItems(items)[k]) && LastOfKey(items, i)
  {
    var n := |items|;
    if items[n - 1].0 == k {
      assert items[n - 1] == (k, FromItems(items)[k]) && LastOfKey(items, n - 1);
    } else {
      var init := items[..n - 1];
      assert FromItems(items)[k] == FromItems(init)[k];
      FromItemsLastItem(init, k);
      var i :| 0 <= i < |init| && init[i] == (k, FromItems(init)[k]) && LastOfKey(init, i);
      forall j | i < j < n ensures items[j].0 != k {
        if j < n - 1 {
          assert items[j] == init[j];
        }
      }
      assert items[i] == (k, FromItems(items)[k]) && LastOfKey(items, i);
    }
  }

  /** Appending an item adds its key. */
  lemma KeysOfSnoc<K, V>(items: seq<(K, V)>, item: (K, V))
    ensures KeysOf(items + [item]) == KeysOf(items) + {item.0}
  {
    assert forall i | 0 <= i < |items| :: (items + [item])[i] == items[i];
    assert (items + [item])[|items|] == item;
  }

  /** A list of items never names more keys than it has items. */
  lemma {:induction false} KeysOfBound<K, V>(items: seq<(K, V)>)
    ensures |KeysOf(items)| <= |items|
  {
    if items != [] {
      var init := items[..|items| - 1];
      KeysOfBound(init);
      assert KeysOf(items) == KeysOf(init) + {items[|items| - 1].0} by {
        assert forall i | 0 <= i < |init| :: init[i] == items[i];
      }
    }
  }

  /** A list that lists every entry of `d` exactly once rebuilds `d`. */
  lemma ItemsRebuild<K, V>(d: map<K, V>, items: seq<(K, V)>)
    requires DistinctKeys(items)
    requires KeysOf(items) == d.Keys
    requires forall i :: 0 <= i < |items| ==> items[i].0 in d && d[items[i].0] == items[i].1
    ensures FromItems(items) == d
  {
    forall k | k in d ensures FromItems(items)[k] == d[k] {
      var i :| 0 <= i < |items| && items[i].0 == k;
      FromItemsLastWins(items, i);
    }
  }

  /** Adding a key that was missing adds it to the keys holding its value. */
  lemma HoldingAdd<K, V>(d: map<K, V>, k: K, x: V, v: V)
    requires k !in d
    ensures Holding(d[k := x], v) == if x == v then Holding(d, v) + {k} else Holding(d, v)
  {
  }

  /** Over a list without repeated keys, each value occurs among the values
      as often as the dictionary the list builds holds it. */
  lemma {:induction false} ValueCount<K, V>(items: seq<(K, V)>, v: V)
    requires DistinctKeys(items)
    ensures multiset(Values(items))[v] == |Holding(FromItems(items), v)|
  {
    if items != [] {
      var n := |items|;
      var init, last := items[..n - 1], items[n - 1];
      assert DistinctKeys(init);
      ValueCount(init, v);
      assert Values(items) == Values(init) + [last.1];
      forall i | 0 <= i < |init| ensures init[i].0 != last.0 {
        assert init[i] == items[i];
      }
      HoldingAdd(FromItems(init), last.0, last.1, v);
    }
  }

  /** Removing one more key that is still there. */
  lemma RemoveOneMore<K, V>(d: map<K, V>, removed: set<K>, k: K)
    ensures (d - removed) - {k} == d - (removed + {k})
  {
  }

  /** Removing one more key that is gone already changes nothing. */
  lemma KeepOneMore<K, V>(d: map<K, V>, removed: set<K>, k: K)
    requires k !in d - removed
    ensures d - removed == d - (removed + {k})
  {
  }

  /** The keys named in a list with one more key appended. */
  lemma NamedOneMore<K>(ks: seq<K>, k: K)
    ensures (set x | x in ks + [k]) == (set x | x in ks) + {k}
  {
  }

  /** Every item is an entry of `d`. */
  predicate EntriesOf<K(==), V(==)>(items: seq<(K, V)>, d: map<K, V>)
  {
    forall i :: 0 <= i < |items| ==> items[i].0 in d && d[items[i].0] == items[i].1
  }

  /** Appending an entry of `d` whose key is not listed yet keeps a list of
      entries of `d` without repeated keys. */
  lemma ExtendEntries<K, V>(items: seq<(K, V)>, d: map<K, V>, k: K)
    requires DistinctKeys(items) && EntriesOf(items, d)
    requires k in d && k !in KeysOf(items)
    ensures DistinctKeys(items + [(k, d[k])]) && EntriesOf(items + [(k, d[k])], d)
    ensures KeysOf(items + [(k, d[k])]) == KeysOf(items) + {k}
  {
    var longer := items + [(k, d[k])];
    assert forall i | 0 <= i < |items| :: longer[i] == items[i];
    KeysOfSnoc(items, (k, d[k]));
  }

  /** A list without repeated keys has as many items as keys. */
  lemma {:induction false} DistinctKeysCount<K, V>(items: seq<(K, V)>)
    requires DistinctKeys(items)
    ensures |KeysOf(items)| == |items|
  {
    if items != [] {
      var n := |items|;
      var init := items[..n - 1];
      assert DistinctKeys(init);
      DistinctKeysCount(init);
      assert items == init + [items[n - 1]];
      KeysOfSnoc(init, items[n - 1]);
      forall i | 0 <= i < |init| ensures init[i].0 != items[n - 1].0 {
        assert init[i] == items[i];
      }
    }
  }

  /** `d.iteritems()`: each entry of `d` exactly once, in an order that `d`
      does not determine (the choice of the next key is left open). */
  method IterItems<K(==), V(==)>(d: map<K, V>) returns (items: seq<(K, V)>)
    ensures DistinctKeys(items)
    ensures KeysOf(items) == d.Keys
    ensures forall i :: 0 <= i < |items| ==> items[i].0 in d && d[items[i].0] == items[i].1
    ensures |items| == |d|
  {
    items := [];
    var rest := d.Keys;
    while rest != {}
      invariant rest <= d.Keys
      invariant KeysOf(items) == d.Keys - rest
      invariant DistinctKeys(items) && EntriesOf(items, d)
      decreases rest
    {
      var k :| k in rest;
      ExtendEntries(items, d, k);
      items := items + [(k, d[k])];
      rest := rest - {k};
    }
    DistinctKeysCount(items);
  }
}
