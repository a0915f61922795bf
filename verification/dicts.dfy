/**
 * Python dictionaries as the list of their items in insertion order:
 * assigning to an existing key replaces its value in place, assigning to a
 * new key appends it. Iterating over `keys()` or `values()` follows this
 * order.
 */
module Dicts {
  import opened Wrappers

  function Keys<K, V>(d: seq<(K, V)>): (ks: seq<K>)
    ensures |ks| == |d| && forall i :: 0 <= i < |d| ==> ks[i] == d[i].0
  {
    seq(|d|, i requires 0 <= i < |d| => d[i].0)
  }

  function Values<K, V>(d: seq<(K, V)>): (vs: seq<V>)
    ensures |vs| == |d| && forall i :: 0 <= i < |d| ==> vs[i] == d[i].1
  {
    seq(|d|, i requires 0 <= i < |d| => d[i].1)
  }

  /** No key occurs twice: what every real dictionary satisfies. */
  predicate UniqueKeys<K(==), V>(d: seq<(K, V)>) {
    forall i, j :: 0 <= i < j < |d| ==> d[i].0 != d[j].0
  }

  /** `d[k] = v`. */
  function Put<K(==), V>(d: seq<(K, V)>, k: K, v: V): seq<(K, V)> {
    if |d| == 0 then [(k, v)]
    else if d[0].0 == k then [(k, v)] + d[1..]
    else [d[0]] + Put(d[1..], k, v)
  }

  /** `d.get(k)`. */
  function Get<K(==), V>(d: seq<(K, V)>, k: K): Option<V> {
    if |d| == 0 then None
    else if d[0].0 == k then Some(d[0].1)
    else Get(d[1..], k)
  }

  /** The dictionary a loop of assignments `d[k] = v` builds from an empty one. */
  function FromItems<K(==), V>(items: seq<(K, V)>): seq<(K, V)> {
    if |items| == 0 then []
    else Put(FromItems(items[..|items| - 1]), items[|items| - 1].0, items[|items| - 1].1)
  }

  /** The position of the first item carrying key `k`, or the length when none does. */
  function FirstIndex<K(==), V>(items: seq<(K, V)>, k: K): (i: nat)
    ensures i <= |items| && (i < |items| <==> k in Keys(items))
    ensures i < |items| ==> items[i].0 == k
    ensures forall j :: 0 <= j < i ==> items[j].0 != k
  {
    if |items| == 0 then 0
    else if items[0].0 == k then 0
    else
      assert Keys(items) == [items[0].0] + Keys(items[1..]);
      1 + FirstIndex(items[1..], k)
  }

  /** A lookup finds exactly the keys present, and in a dictionary each entry's own value. */
  lemma {:induction false} GetSpec<K, V>(d: seq<(K, V)>, k: K)
    ensures Get(d, k).Some? <==> k in Keys(d)
    ensures UniqueKeys(d) ==> forall i :: 0 <= i < |d| && d[i].0 == k ==> Get(d, k) == Some(d[i].1)
  {
    if |d| > 0 {
      assert Keys(d) == [d[0].0] + Keys(d[1..]);
      GetSpec(d[1..], k);
      if UniqueKeys(d) {
        assert UniqueKeys(d[1..]) by {
          forall i, j | 0 <= i < j < |d[1..]| ensures d[1..][i].0 != d[1..][j].0 {
            assert d[1..][i] == d[i + 1] && d[1..][j] == d[j + 1];
          }
        }
        forall i | 0 <= i < |d| && d[i].0 == k ensures Get(d, k) == Some(d[i].1) {
          if i > 0 {
            assert d[1..][i - 1] == d[i];
          }
        }
      }
    }
  }

  /**
   * An assignment keeps the keys unique, sets the value of `k` and only that,
   * leaves an existing key where it was and appends a new one.
   */
  lemma PutSpec<K, V>(d: seq<(K, V)>, k: K, v: V)
    requires UniqueKeys(d)
    ensures UniqueKeys(Put(d, k, v))
    ensures Keys(Put(d, k, v)) == if k in Keys(d) then Keys(d) else Keys(d) + [k]
    ensures forall k' :: Get(Put(d, k, v), k') == if k' == k then Some(v) else Get(d, k')
  {
    PutKeys(d, k, v);
    PutUnique(d, k, v);
    forall k' ensures Get(Put(d, k, v), k') == if k' == k then Some(v) else Get(d, k') {
      PutGet(d, k, v, k');
    }
  }

  /** An assignment replaces the key in place or appends it. */
  lemma {:induction false} PutKeys<K, V>(d: seq<(K, V)>, k: K, v: V)
    ensures Keys(Put(d, k, v)) == if k in Keys(d) then Keys(d) else Keys(d) + [k]
  {
    if |d| > 0 {
      var t := d[1..];
      assert Keys(d) == [d[0].0] + Keys(t);
      if d[0].0 == k {
        assert Keys(Put(d, k, v)) == [k] + Keys(t);
      } else {
        PutKeys(t, k, v);
        assert Keys(Put(d, k, v)) == [d[0].0] + Keys(Put(t, k, v));
      }
    }
  }

  /** After an assignment a lookup of `k` gives the new value and any other lookup is unchanged. */
  lemma {:induction false} PutGet<K, V>(d: seq<(K, V)>, k: K, v: V, k': K)
    ensures Get(Put(d, k, v), k') == if k' == k then Some(v) else Get(d, k')
  {
    if |d| > 0 && d[0].0 != k {
      PutGet(d[1..], k, v, k');
      assert Put(d, k, v)[1..] == Put(d[1..], k, v);
    }
  }

  /** An assignment keeps the keys unique. */
  lemma PutUnique<K, V>(d: seq<(K, V)>, k: K, v: V)
    requires UniqueKeys(d)
    ensures UniqueKeys(Put(d, k, v))
  {
    var p := Put(d, k, v);
    PutKeys(d, k, v);
    forall i, j | 0 <= i < j < |p| ensures p[i].0 != p[j].0 {
      assert p[i].0 == Keys(p)[i] && p[j].0 == Keys(p)[j];
      assert Keys(d)[i] == d[i].0;
      if j < |d| {
        assert Keys(d)[j] == d[j].0;
      }
    }
  }

  /**
   * The dictionary built from a list of assignments: its keys are unique and
   * are exactly the assigned keys, in the order of their first assignment, and
   * each holds the value of its last assignment.
   */
  lemma FromItemsSpec<K, V>(items: seq<(K, V)>)
    ensures var d := FromItems(items);
      && UniqueKeys(d)
      && (forall k :: k in Keys(d) <==> k in Keys(items))
      && (forall i, j :: 0 <= i < j < |d| ==> FirstIndex(items, d[i].0) < FirstIndex(items, d[j].0))
      && (forall k :: Get(d, k).None? <==> k !in Keys(items))
      && (forall i :: 0 <= i < |items| && (forall j :: i < j < |items| ==> items[j].0 != items[i].0) ==>
            Get(d, items[i].0) == Some(items[i].1))
  {
    FromItemsKeys(items);
    FromItemsOrder(items);
    FromItemsValues(items);
    var d := FromItems(items);
    assert forall i :: 0 <= i < |d| ==> Keys(d)[i] == d[i].0;
  }

  /** The keys of the built dictionary are unique and are the assigned keys. */
  lemma FromItemsKeys<K, V>(items: seq<(K, V)>)
    ensures UniqueKeys(FromItems(items))
    ensures forall k :: k in Keys(FromItems(items)) <==> k in Keys(items)
  {
    FromItemsDistinct(items);
    FromItemsKeySet(items);
  }

  /** No key of the built dictionary occurs twice. */
  lemma {:induction false} FromItemsDistinct<K, V>(items: seq<(K, V)>)
    ensures UniqueKeys(FromItems(items))
  {
    if |items| > 0 {
      var n := |items| - 1;
      FromItemsDistinct(items[..n]);
      PutUnique(FromItems(items[..n]), items[n].0, items[n].1);
    }
  }

  /** The keys of the built dictionary are the assigned keys. */
  lemma {:induction false} FromItemsKeySet<K, V>(items: seq<(K, V)>)
    ensures forall k :: k in Keys(FromItems(items)) <==> k in Keys(items)
  {
    if |items| > 0 {
      var n := |items| - 1;
      var init := items[..n];
      var k, v := items[n].0, items[n].1;
      var d0 := FromItems(init);
      FromItemsKeySet(init);
      PutKeys(d0, k, v);
      assert FromItems(items) == Put(d0, k, v);
      assert Keys(items) == Keys(init) + [k];
    }
  }

  /** `ks` lists keys in the order of their first assignment in `items`. */
  predicate InFirstOrder<K(==), V>(items: seq<(K, V)>, ks: seq<K>) {
    forall i, j :: 0 <= i < j < |ks| ==> FirstIndex(items, ks[i]) < FirstIndex(items, ks[j])
  }

  /** The keys of the built dictionary come in the order of their first assignment. */
  lemma {:induction false} FromItemsOrder<K, V>(items: seq<(K, V)>)
    ensures InFirstOrder(items, Keys(FromItems(items)))
  {
    if |items| > 0 {
      var n := |items| - 1;
      var init := items[..n];
      var k, v := items[n].0, items[n].1;
      var d0 := FromItems(init);
      FromItemsOrder(init);
      FromItemsKeys(init);
      PutKeys(d0, k, v);
      assert FromItems(items) == Put(d0, k, v);
      OrderExtend(init, items, Keys(d0));
    }
  }

  /** An order by first assignment survives one more assignment, which may add its key at the end. */
  lemma OrderExtend<K, V>(init: seq<(K, V)>, items: seq<(K, V)>, ks: seq<K>)
    requires |items| == |init| + 1 && init == items[..|init|]
    requires InFirstOrder(init, ks) && forall x :: x in ks <==> x in Keys(init)
    ensures InFirstOrder(items, ks)
    ensures items[|init|].0 !in ks ==> InFirstOrder(items, ks + [items[|init|].0])
  {
    var n := |init|;
    var k := items[n].0;
    forall x | x in ks ensures FirstIndex(items, x) == FirstIndex(init, x) < n {
      FirstIndexPrefix(init, items, x);
    }
    forall i, j | 0 <= i < j < |ks| ensures FirstIndex(items, ks[i]) < FirstIndex(items, ks[j]) {
      assert ks[i] in ks && ks[j] in ks;
    }
    if k !in ks {
      var ks' := ks + [k];
      assert k !in Keys(init);
      assert FirstIndex(items, k) == n by {
        assert forall m :: 0 <= m < n ==> items[m].0 == Keys(init)[m];
      }
      forall i, j | 0 <= i < j < |ks'| ensures FirstIndex(items, ks'[i]) < FirstIndex(items, ks'[j]) {
        assert ks'[i] == ks[i] && ks[i] in ks;
        if j < |ks| {
          assert ks'[j] == ks[j];
        }
      }
    }
  }

  /** Each key of the built dictionary holds the value of its last assignment. */
  lemma FromItemsValues<K, V>(items: seq<(K, V)>)
    ensures forall k :: Get(FromItems(items), k).None? <==> k !in Keys(items)
    ensures forall i :: 0 <= i < |items| && (forall j :: i < j < |items| ==> items[j].0 != items[i].0) ==>
      Get(FromItems(items), items[i].0) == Some(items[i].1)
  {
    var d := FromItems(items);
    FromItemsKeySet(items);
    forall k' ensures Get(d, k').None? <==> k' !in Keys(items) {
      GetSpec(d, k');
    }
    FromItemsLast(items);
  }

  /** A key assigned for the last time at position `i` holds the value assigned there. */
  lemma {:induction false} FromItemsLast<K, V>(items: seq<(K, V)>)
    ensures forall i :: 0 <= i < |items| && (forall j :: i < j < |items| ==> items[j].0 != items[i].0) ==>
      Get(FromItems(items), items[i].0) == Some(items[i].1)
  {
    if |items| > 0 {
      var n := |items| - 1;
      var init := items[..n];
      var k, v := items[n].0, items[n].1;
      var d0 := FromItems(init);
      FromItemsLast(init);
      assert FromItems(items) == Put(d0, k, v);
      forall i | 0 <= i < |items| && (forall j :: i < j < |items| ==> items[j].0 != items[i].0)
        ensures Get(FromItems(items), items[i].0) == Some(items[i].1)
      {
        PutGet(d0, k, v, items[i].0);
        if i < n {
          assert init[i] == items[i];
          assert forall j :: i < j < |init| ==> init[j] == items[j];
        }
      }
    }
  }

  /** The first assignment of a key comes no later in a longer list of assignments. */
  lemma {:induction false} FirstIndexPrefix<K, V>(init: seq<(K, V)>, items: seq<(K, V)>, k: K)
    requires init <= items && k in Keys(init)
    ensures k in Keys(items) && FirstIndex(items, k) == FirstIndex(init, k)
  {
    var i := FirstIndex(init, k);
    assert items[i] == init[i];
    assert Keys(items)[i] == k;
    var f := FirstIndex(items, k);
    assert forall j :: 0 <= j < i ==> items[j] == init[j];
  }

  /** Assigning distinct keys builds a dictionary holding exactly those items, in order. */
  lemma {:induction false} FromItemsUnique<K, V>(items: seq<(K, V)>)
    requires UniqueKeys(items)
    ensures FromItems(items) == items
  {
    if |items| > 0 {
      var n := |items| - 1;
      var init := items[..n];
      assert UniqueKeys(init) by {
        forall i, j | 0 <= i < j < |init| ensures init[i].0 != init[j].0 {
          assert init[i] == items[i] && init[j] == items[j];
        }
      }
      FromItemsUnique(init);
      PutFresh(init, items[n].0, items[n].1);
      assert init + [(items[n].0, items[n].1)] == items;
    }
  }

  /** Assigning a key not yet present appends it. */
  lemma {:induction false} PutFresh<K, V>(d: seq<(K, V)>, k: K, v: V)
    requires forall i :: 0 <= i < |d| ==> d[i].0 != k
    ensures Put(d, k, v) == d + [(k, v)]
  {
    if |d| > 0 {
      PutFresh(d[1..], k, v);
      assert [d[0]] + (d[1..] + [(k, v)]) == d + [(k, v)];
    }
  }

  /** The last assignment to the key assigned at position `i`. */
  lemma {:induction false} LastWithKey<K, V>(items: seq<(K, V)>, i: nat) returns (last: nat)
    requires i < |items|
    ensures i <= last < |items| && items[last].0 == items[i].0
    ensures forall j :: last < j < |items| ==> items[j].0 != items[i].0
    decreases |items| - i
  {
    if exists j :: i < j < |items| && items[j].0 == items[i].0 {
      var j :| i < j < |items| && items[j].0 == items[i].0;
      last := LastWithKey(items, j);
    } else {
      last := i;
    }
  }

  /** The assignments `d[key(v)] = v`, one per value. */
  function KeyedBy<K, V>(key: V -> K, vs: seq<V>): (items: seq<(K, V)>)
    ensures |items| == |vs|
    ensures forall i :: 0 <= i < |vs| ==> items[i] == (key(vs[i]), vs[i])
  {
    seq(|vs|, i requires 0 <= i < |vs| => (key(vs[i]), vs[i]))
  }

  /** `vs[i]` is the last value with its key. */
  predicate LastOfKey<K(==), V>(key: V -> K, vs: seq<V>, i: int)
    requires 0 <= i < |vs|
  {
    forall j :: i < j < |vs| ==> key(vs[j]) != key(vs[i])
  }

  /** Each entry of a dictionary keyed by its values' keys holds the last value with that key. */
  lemma EntriesKeyedBy<K, V>(key: V -> K, vs: seq<V>)
    ensures var d := FromItems(KeyedBy(key, vs));
      forall a :: 0 <= a < |d| ==>
        exists i :: 0 <= i < |vs| && d[a] == (key(vs[i]), vs[i]) && LastOfKey(key, vs, i)
  {
    var items := KeyedBy(key, vs);
    var d := FromItems(items);
    forall a | 0 <= a < |d|
      ensures exists i :: 0 <= i < |vs| && d[a] == (key(vs[i]), vs[i]) && LastOfKey(key, vs, i)
    {
      var i := EntryFrom(items, a);
      assert d[a] == (key(vs[i]), vs[i]);
      assert LastOfKey(key, vs, i) by {
        forall j | i < j < |vs| ensures key(vs[j]) != key(vs[i]) {
          assert items[j].0 != items[i].0;
        }
      }
    }
    assert forall a :: 0 <= a < |d| ==> exists i :: 0 <= i < |vs| && d[a] == (key(vs[i]), vs[i]) && LastOfKey(key, vs, i);
  }

  /** The item that an entry of the built dictionary comes from: the last assignment to its key. */
  lemma EntryFrom<K, V>(items: seq<(K, V)>, a: nat) returns (i: nat)
    requires a < |FromItems(items)|
    ensures i < |items| && FromItems(items)[a] == items[i]
    ensures forall j :: i < j < |items| ==> items[j].0 != items[i].0
  {
    var d := FromItems(items);
    FromItemsDistinct(items);
    FromItemsKeySet(items);
    assert Keys(d)[a] == d[a].0 && d[a].0 in Keys(d);
    var j :| 0 <= j < |items| && Keys(items)[j] == d[a].0;
    i := LastWithKey(items, j);
    FromItemsLast(items);
    GetSpec(d, d[a].0);
  }

  /**
   * Keeping the last value per key: every key is kept exactly once, by the
   * last value that has it, and the keys come in the order of their first value.
   */
  lemma ValuesKeyedBy<K, V>(key: V -> K, vs: seq<V>)
    ensures var out := Values(FromItems(KeyedBy(key, vs)));
      && (forall a, b :: 0 <= a < b < |out| ==> key(out[a]) != key(out[b]))
      && (forall i :: 0 <= i < |vs| ==> exists a :: 0 <= a < |out| && key(out[a]) == key(vs[i]))
      && (forall a :: 0 <= a < |out| ==> exists i :: 0 <= i < |vs| && out[a] == vs[i] && LastOfKey(key, vs, i))
      && (forall i :: 0 <= i < |vs| && LastOfKey(key, vs, i) ==> vs[i] in out)
      && (forall a, b :: 0 <= a < b < |out| ==>
            FirstIndex(KeyedBy(key, vs), key(out[a])) < FirstIndex(KeyedBy(key, vs), key(out[b])))
  {
    KeyedDistinct(key, vs);
    KeyedFromLast(key, vs);
    KeyedCovers(key, vs);
    KeyedKeepsLast(key, vs);
  }

  /** The kept values have distinct keys, in the order of their first value. */
  lemma KeyedDistinct<K, V>(key: V -> K, vs: seq<V>)
    ensures var out := Values(FromItems(KeyedBy(key, vs)));
      && (forall a, b :: 0 <= a < b < |out| ==> key(out[a]) != key(out[b]))
      && (forall a, b :: 0 <= a < b < |out| ==>
            FirstIndex(KeyedBy(key, vs), key(out[a])) < FirstIndex(KeyedBy(key, vs), key(out[b])))
  {
    OwnKeys(key, vs);
  }

  /** Each kept value is the last value with its key. */
  lemma KeyedFromLast<K, V>(key: V -> K, vs: seq<V>)
    ensures var out := Values(FromItems(KeyedBy(key, vs)));
      forall a :: 0 <= a < |out| ==> exists i :: 0 <= i < |vs| && out[a] == vs[i] && LastOfKey(key, vs, i)
  {
    var d := FromItems(KeyedBy(key, vs));
    var out := Values(d);
    EntriesKeyedBy(key, vs);
    forall a | 0 <= a < |out| ensures exists i :: 0 <= i < |vs| && out[a] == vs[i] && LastOfKey(key, vs, i) {
      var i :| 0 <= i < |vs| && d[a] == (key(vs[i]), vs[i]) && LastOfKey(key, vs, i);
    }
    assert forall a :: 0 <= a < |out| ==> exists i :: 0 <= i < |vs| && out[a] == vs[i] && LastOfKey(key, vs, i);
  }

  /** Each kept value sits under its own key. */
  lemma OwnKeys<K, V>(key: V -> K, vs: seq<V>)
    ensures var d := FromItems(KeyedBy(key, vs));
      && UniqueKeys(d)
      && InFirstOrder(KeyedBy(key, vs), Keys(d))
      && forall a :: 0 <= a < |d| ==> key(d[a].1) == d[a].0
  {
    var d := FromItems(KeyedBy(key, vs));
    FromItemsDistinct(KeyedBy(key, vs));
    FromItemsOrder(KeyedBy(key, vs));
    EntriesKeyedBy(key, vs);
    forall a | 0 <= a < |d| ensures key(d[a].1) == d[a].0 {
      var i :| 0 <= i < |vs| && d[a] == (key(vs[i]), vs[i]) && LastOfKey(key, vs, i);
    }
  }

  /** Every value's key is kept. */
  lemma KeyedCovers<K, V>(key: V -> K, vs: seq<V>)
    ensures var out := Values(FromItems(KeyedBy(key, vs)));
      forall i :: 0 <= i < |vs| ==> exists a :: 0 <= a < |out| && key(out[a]) == key(vs[i])
  {
    var items := KeyedBy(key, vs);
    var d := FromItems(items);
    var out := Values(d);
    FromItemsKeys(items);
    OwnKeys(key, vs);
    forall i | 0 <= i < |vs| ensures exists a :: 0 <= a < |out| && key(out[a]) == key(vs[i]) {
      assert Keys(items)[i] == key(vs[i]) && key(vs[i]) in Keys(items);
      assert key(vs[i]) in Keys(d);
      var a :| 0 <= a < |d| && Keys(d)[a] == key(vs[i]);
      assert key(out[a]) == key(d[a].1);
    }
  }

  /** The last value with each key is kept. */
  lemma KeyedKeepsLast<K, V>(key: V -> K, vs: seq<V>)
    ensures var out := Values(FromItems(KeyedBy(key, vs)));
      forall i :: 0 <= i < |vs| && LastOfKey(key, vs, i) ==> vs[i] in out
  {
    var items := KeyedBy(key, vs);
    var d := FromItems(items);
    var out := Values(d);
    FromItemsKeys(items);
    FromItemsValues(items);
    forall i | 0 <= i < |vs| && LastOfKey(key, vs, i) ensures vs[i] in out {
      assert Keys(items)[i] == items[i].0;
      var a :| 0 <= a < |d| && Keys(d)[a] == items[i].0;
      GetSpec(d, items[i].0);
      assert forall j :: i < j < |items| ==> items[j].0 != items[i].0;
      assert out[a] == vs[i];
    }
  }
}
