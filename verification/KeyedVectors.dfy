/** Android's KeyedVector and SortedVector, as far as this repository relies on them: sequences
    kept sorted by key in which adding an existing key replaces its entry. */
module KeyedVectors {
  import opened Wrappers

  datatype Entry<K, V> = Entry(key: K, value: V)

  ghost predicate StrictTotalOrder<K(!new)>(less: (K, K) -> bool) {
    (forall a :: !less(a, a)) &&
    (forall a, b :: a != b ==> less(a, b) || less(b, a)) &&
    (forall a, b, c :: less(a, b) && less(b, c) ==> less(a, c))
  }

  predicate Sorted<K, V>(v: seq<Entry<K, V>>, less: (K, K) -> bool) {
    forall i, j :: 0 <= i < j < |v| ==> less(v[i].key, v[j].key)
  }

  /** The index of key, or -1 (indexOfKey). */
  function IndexOfKey<K(==), V>(v: seq<Entry<K, V>>, key: K): (i: int)
    ensures -1 <= i < |v|
    ensures i >= 0 ==> v[i].key == key
    ensures i < 0 ==> forall k :: 0 <= k < |v| ==> v[k].key != key
  {
    if v == [] then -1
    else if v[|v| - 1].key == key then |v| - 1
    else IndexOfKey(v[..|v| - 1], key)
  }

  function ValueFor<K(==), V>(v: seq<Entry<K, V>>, key: K): Option<V> {
    var i := IndexOfKey(v, key);
    if i < 0 then None else Some(v[i].value)
  }

  /** Inserts the entry before the first greater key, or replaces the entry of an equal one. */
  function Add<K(==), V>(v: seq<Entry<K, V>>, less: (K, K) -> bool, key: K, value: V): seq<Entry<K, V>> {
    if v == [] then [Entry(key, value)]
    else
      var last := v[|v| - 1];
      if last.key == key then v[..|v| - 1] + [Entry(key, value)]
      else if less(last.key, key) then v + [Entry(key, value)]
      else Add(v[..|v| - 1], less, key, value) + [last]
  }

  lemma FrontIsSorted<K(!new), V(!new)>(v: seq<Entry<K, V>>, less: (K, K) -> bool)
    requires v != [] && Sorted(v, less)
    ensures Sorted(v[..|v| - 1], less)
    ensures forall e :: e in v[..|v| - 1] ==> less(e.key, v[|v| - 1].key)
    ensures forall e :: e in v <==> e in v[..|v| - 1] || e == v[|v| - 1]
  {
    var last, front := v[|v| - 1], v[..|v| - 1];
    assert v == front + [last];
    forall i | 0 <= i < |front|
      ensures less(front[i].key, last.key)
    {
      assert less(v[i].key, v[|v| - 1].key);
    }
  }

  lemma SortedAppend<K(!new), V(!new)>(v: seq<Entry<K, V>>, less: (K, K) -> bool, e: Entry<K, V>)
    requires Sorted(v, less) && forall x :: x in v ==> less(x.key, e.key)
    ensures Sorted(v + [e], less)
  {
    forall i | 0 <= i < |v|
      ensures less(v[i].key, e.key)
    {
      assert v[i] in v;
    }
  }

  lemma {:induction false} AddMembers<K(!new), V(!new)>(v: seq<Entry<K, V>>, less: (K, K) -> bool, key: K, value: V)
    requires StrictTotalOrder(less) && Sorted(v, less)
    ensures forall e :: e in Add(v, less, key, value) <==> e == Entry(key, value) || (e in v && e.key != key)
  {
    if v != [] {
      FrontIsSorted(v, less);
      AddMembers(v[..|v| - 1], less, key, value);
    }
  }

  /** Adding keeps the vector sorted, makes key find value, and hides no other key. */
  lemma {:induction false} AddKeeps<K(!new), V(!new)>(v: seq<Entry<K, V>>, less: (K, K) -> bool, key: K, value: V)
    requires StrictTotalOrder(less) && Sorted(v, less)
    ensures Sorted(Add(v, less, key, value), less)
    ensures forall e :: e in Add(v, less, key, value) <==> e == Entry(key, value) || (e in v && e.key != key)
  {
    AddMembers(v, less, key, value);
    if v != [] {
      var last, front := v[|v| - 1], v[..|v| - 1];
      FrontIsSorted(v, less);
      var w := Add(v, less, key, value);
      if last.key == key {
        SortedAppend(front, less, Entry(key, value));
      } else if less(last.key, key) {
        SortedAppend(v, less, Entry(key, value));
      } else {
        AddKeeps(front, less, key, value);
        var u := Add(front, less, key, value);
        assert less(key, last.key);
        forall e | e in u
          ensures less(e.key, last.key)
        {
          assert e == Entry(key, value) || e in front;
        }
        SortedAppend(u, less, last);
      }
    }
  }

  lemma ValueForIn<K(!new), V(!new)>(v: seq<Entry<K, V>>, less: (K, K) -> bool, key: K, value: V)
    requires StrictTotalOrder(less) && Sorted(v, less)
    ensures ValueFor(v, key) == Some(value) <==> Entry(key, value) in v
  {
    if Entry(key, value) in v {
      var i :| 0 <= i < |v| && v[i] == Entry(key, value);
      var j := IndexOfKey(v, key);
      assert j >= 0;
    }
  }

  /** Looking up after an addition. */
  lemma AddThenFind<K(!new), V(!new)>(v: seq<Entry<K, V>>, less: (K, K) -> bool, key: K, value: V, other: K)
    requires StrictTotalOrder(less) && Sorted(v, less)
    ensures var w := Add(v, less, key, value);
            ValueFor(w, other) == if other == key then Some(value) else ValueFor(v, other)
  {
    var w := Add(v, less, key, value);
    AddKeeps(v, less, key, value);
    if other == key {
      ValueForIn(w, less, key, value);
    } else if ValueFor(v, other).Some? {
      ValueForIn(v, less, other, ValueFor(v, other).value);
      ValueForIn(w, less, other, ValueFor(v, other).value);
    } else if ValueFor(w, other).Some? {
      ValueForIn(w, less, other, ValueFor(w, other).value);
      ValueForIn(v, less, other, ValueFor(w, other).value);
    }
  }

  /** A key above all others is appended. */
  lemma AddLast<K(!new), V(!new)>(v: seq<Entry<K, V>>, less: (K, K) -> bool, e: Entry<K, V>)
    requires StrictTotalOrder(less) && Sorted(v + [e], less)
    ensures Add(v, less, e.key, e.value) == v + [e]
  {
    if v != [] {
      var w := v + [e];
      assert less(w[|v| - 1].key, w[|v|].key);
    }
  }

  /** removeItem. */
  function Remove<K(==), V>(v: seq<Entry<K, V>>, key: K): seq<Entry<K, V>> {
    var i := IndexOfKey(v, key);
    if i < 0 then v else v[..i] + v[i + 1..]
  }

  lemma RemoveAt<K(!new), V(!new)>(v: seq<Entry<K, V>>, less: (K, K) -> bool, key: K, j: nat)
    requires StrictTotalOrder(less) && Sorted(v, less) && IndexOfKey(v, key) >= 0 && j < |v| && j != IndexOfKey(v, key)
    ensures v[j].key != key && v[j] in Remove(v, key)
  {
    hide IndexOfKey;
    var i := IndexOfKey(v, key);
    assert if j < i then less(v[j].key, v[i].key) else less(v[i].key, v[j].key);
    assert Remove(v, key)[if j < i then j else j - 1] == v[j];
  }

  /** Removing a key hides it, hides no other, and keeps the order. */
  lemma RemoveKeeps<K(!new), V(!new)>(v: seq<Entry<K, V>>, less: (K, K) -> bool, key: K)
    requires StrictTotalOrder(less) && Sorted(v, less)
    ensures Sorted(Remove(v, key), less)
    ensures forall e :: e in Remove(v, key) <==> e in v && e.key != key
  {
    hide IndexOfKey;
    var i := IndexOfKey(v, key);
    var w := Remove(v, key);
    if i >= 0 {
      assert forall k :: 0 <= k < |w| ==> w[k] == v[if k < i then k else k + 1];
      forall e | e in w
        ensures e in v && e.key != key
      {
        var k :| 0 <= k < |w| && w[k] == e;
        RemoveAt(v, less, key, if k < i then k else k + 1);
      }
      forall e | e in v && e.key != key
        ensures e in w
      {
        var j :| 0 <= j < |v| && v[j] == e;
        RemoveAt(v, less, key, j);
      }
    }
  }

  // ----- Adding a list of entries -----

  function AddAll<K(==), V>(es: seq<Entry<K, V>>, less: (K, K) -> bool): seq<Entry<K, V>> {
    if es == [] then []
    else
      var last := es[|es| - 1];
      Add(AddAll(es[..|es| - 1], less), less, last.key, last.value)
  }

  lemma {:induction false} AddHasKeys<K(!new), V(!new)>(v: seq<Entry<K, V>>, less: (K, K) -> bool, key: K, value: V, other: K)
    ensures IndexOfKey(Add(v, less, key, value), other) >= 0 <==> other == key || IndexOfKey(v, other) >= 0
    ensures |Add(v, less, key, value)| <= |v| + 1
  {
    if v != [] {
      AddHasKeys(v[..|v| - 1], less, key, value, other);
    }
  }

  predicate HasKey<K(==), V>(es: seq<Entry<K, V>>, key: K) {
    exists i :: 0 <= i < |es| && es[i].key == key
  }

  /** Exactly the keys of the list are found. */
  lemma {:induction false} AddAllHasKeys<K(!new), V(!new)>(es: seq<Entry<K, V>>, less: (K, K) -> bool, key: K)
    ensures IndexOfKey(AddAll(es, less), key) >= 0 <==> HasKey(es, key)
    ensures |AddAll(es, less)| <= |es|
  {
    hide Add, IndexOfKey;
    if es == [] {
      NothingIsFound<K, V>(key);
    } else {
      var front, last := es[..|es| - 1], es[|es| - 1];
      AddAllHasKeys(front, less, key);
      AddHasKeys(AddAll(front, less), less, last.key, last.value, key);
      KeyOfLast(es, key);
    }
  }

  lemma KeyOfLast<K, V>(es: seq<Entry<K, V>>, key: K)
    requires es != []
    ensures HasKey(es, key) <==> HasKey(es[..|es| - 1], key) || es[|es| - 1].key == key
  {
    var front := es[..|es| - 1];
    assert forall k :: 0 <= k < |front| ==> front[k] == es[k];
    if HasKey(front, key) {
      var k :| 0 <= k < |front| && front[k].key == key;
      assert es[k].key == key;
    }
    if HasKey(es, key) && es[|es| - 1].key != key {
      var k :| 0 <= k < |es| && es[k].key == key;
      assert front[k].key == key;
    }
  }

  lemma NothingIsFound<K, V>(key: K)
    ensures IndexOfKey<K, V>([], key) < 0
  {
  }

  lemma {:induction false} AddAllKeeps<K(!new), V(!new)>(es: seq<Entry<K, V>>, less: (K, K) -> bool)
    requires StrictTotalOrder(less)
    ensures Sorted(AddAll(es, less), less)
    ensures forall e :: e in AddAll(es, less) ==> e in es
  {
    if es != [] {
      var last := es[|es| - 1];
      AddAllKeeps(es[..|es| - 1], less);
      AddKeeps(AddAll(es[..|es| - 1], less), less, last.key, last.value);
    }
  }

  /** Entries added in their order are only appended. */
  lemma {:induction false} AddAllInOrder<K(!new), V(!new)>(v: seq<Entry<K, V>>, less: (K, K) -> bool)
    requires StrictTotalOrder(less) && Sorted(v, less)
    ensures AddAll(v, less) == v
  {
    if v != [] {
      var front, last := v[..|v| - 1], v[|v| - 1];
      assert v == front + [last];
      AddAllInOrder(front, less);
      AddLast(front, less, last);
    }
  }

  /** The last value added for a key is the one found. */
  lemma {:induction false} AddAllFindsLast<K(!new), V(!new)>(es: seq<Entry<K, V>>, less: (K, K) -> bool, i: nat)
    requires StrictTotalOrder(less) && i < |es| && forall j :: i < j < |es| ==> es[j].key != es[i].key
    ensures ValueFor(AddAll(es, less), es[i].key) == Some(es[i].value)
  {
    var front, last := es[..|es| - 1], es[|es| - 1];
    AddAllKeeps(front, less);
    AddThenFind(AddAll(front, less), less, last.key, last.value, es[i].key);
    if i < |es| - 1 {
      AddAllFindsLast(front, less, i);
    }
  }

  ghost function KeySet<K, V>(es: seq<Entry<K, V>>): set<K> {
    set e | e in es :: e.key
  }

  /** As many entries are held as there are different keys. */
  lemma {:induction false} AddAllCount<K(!new), V(!new)>(es: seq<Entry<K, V>>, less: (K, K) -> bool)
    requires StrictTotalOrder(less)
    ensures |AddAll(es, less)| == |KeySet(es)|
  {
    if es != [] {
      var front, last := es[..|es| - 1], es[|es| - 1];
      AddAllCount(front, less);
      AddAllKeeps(front, less);
      AddLength(AddAll(front, less), less, last.key, last.value);
      AddAllHasKeys(front, less, last.key);
      assert es == front + [last];
      assert KeySet(es) == KeySet(front) + {last.key};
      if i :| 0 <= i < |front| && front[i].key == last.key {
        assert front[i] in front;
      } else {
        assert last.key !in KeySet(front);
      }
    }
  }

  lemma {:induction false} AddLength<K(!new), V(!new)>(v: seq<Entry<K, V>>, less: (K, K) -> bool, key: K, value: V)
    requires StrictTotalOrder(less) && Sorted(v, less)
    ensures |Add(v, less, key, value)| == if IndexOfKey(v, key) >= 0 then |v| else |v| + 1
  {
    if v != [] {
      FrontIsSorted(v, less);
      AddLength(v[..|v| - 1], less, key, value);
    }
  }

  ghost predicate DistinctKeys<K, V>(es: seq<Entry<K, V>>) {
    forall i, j :: 0 <= i < j < |es| ==> es[i].key != es[j].key
  }

  lemma DistinctLast<K, V>(es: seq<Entry<K, V>>)
    requires es != []
    ensures DistinctKeys(es) <==> DistinctKeys(es[..|es| - 1]) && !HasKey(es[..|es| - 1], es[|es| - 1].key)
  {
    var front, last := es[..|es| - 1], es[|es| - 1];
    assert forall k :: 0 <= k < |front| ==> front[k] == es[k];
    if DistinctKeys(es) {
      assert forall k :: 0 <= k < |front| ==> es[k].key != es[|es| - 1].key;
    }
  }

  /** No entry is lost exactly when no key is added twice. */
  lemma {:induction false} AddAllLength<K(!new), V(!new)>(es: seq<Entry<K, V>>, less: (K, K) -> bool)
    requires StrictTotalOrder(less)
    ensures |AddAll(es, less)| <= |es|
    ensures |AddAll(es, less)| == |es| <==> DistinctKeys(es)
  {
    hide Add, DistinctKeys, IndexOfKey, Sorted;
    if es == [] {
      NothingIsDistinct<K, V>();
    } else {
      var front, last := es[..|es| - 1], es[|es| - 1];
      AddAllLength(front, less);
      AddAllKeeps(front, less);
      AddLength(AddAll(front, less), less, last.key, last.value);
      AddAllHasKeys(front, less, last.key);
      DistinctLast(es);
    }
  }

  lemma NothingIsDistinct<K, V>()
    ensures DistinctKeys<K, V>([])
  {
  }

  ghost predicate SameKeys<K, V, W>(v: seq<Entry<K, V>>, w: seq<Entry<K, W>>) {
    |v| == |w| && forall i :: 0 <= i < |v| ==> v[i].key == w[i].key
  }

  lemma {:induction false} SameKeysFind<K, V, W>(v: seq<Entry<K, V>>, w: seq<Entry<K, W>>, key: K)
    requires SameKeys(v, w)
    ensures IndexOfKey(v, key) == IndexOfKey(w, key)
  {
    if v != [] {
      SameKeysFind(v[..|v| - 1], w[..|w| - 1], key);
    }
  }

  lemma {:induction false} AddSameKeys<K, V, W>(v: seq<Entry<K, V>>, w: seq<Entry<K, W>>, less: (K, K) -> bool, key: K, x: V, y: W)
    requires SameKeys(v, w)
    ensures SameKeys(Add(v, less, key, x), Add(w, less, key, y))
  {
    if v != [] {
      AddSameKeys(v[..|v| - 1], w[..|w| - 1], less, key, x, y);
    }
  }

  lemma {:induction false} AddAllSameKeys<K, V, W>(v: seq<Entry<K, V>>, w: seq<Entry<K, W>>, less: (K, K) -> bool)
    requires SameKeys(v, w)
    ensures SameKeys(AddAll(v, less), AddAll(w, less))
  {
    if v != [] {
      var a, b := v[|v| - 1], w[|w| - 1];
      AddAllSameKeys(v[..|v| - 1], w[..|w| - 1], less);
      AddSameKeys(AddAll(v[..|v| - 1], less), AddAll(w[..|w| - 1], less), less, a.key, a.value, b.value);
    }
  }

  // ----- Strings in the order of strcmp -----

  predicate StrLess(a: string, b: string) {
    if b == "" then false
    else if a == "" then true
    else a[0] < b[0] || (a[0] == b[0] && StrLess(a[1..], b[1..]))
  }

  lemma {:induction false} StrLessTotal(a: string, b: string)
    ensures !StrLess(a, a)
    ensures a != b ==> StrLess(a, b) || StrLess(b, a)
  {
    if a != "" {
      StrLessTotal(a[1..], if b == "" then "" else b[1..]);
      if b != "" && a[0] == b[0] && a[1..] == b[1..] {
        assert a == [a[0]] + a[1..] == b;
      }
    }
  }

  lemma {:induction false} StrLessTransitive(a: string, b: string, c: string)
    requires StrLess(a, b) && StrLess(b, c)
    ensures StrLess(a, c)
  {
    if a != "" && a[0] == b[0] && b[0] == c[0] {
      StrLessTransitive(a[1..], b[1..], c[1..]);
    }
  }

  lemma StrLessIsOrder()
    ensures StrictTotalOrder(StrLess)
  {
    forall a, b: string {
      StrLessTotal(a, b);
    }
    forall a, b, c: string | StrLess(a, b) && StrLess(b, c)
      ensures StrLess(a, c)
    {
      StrLessTransitive(a, b, c);
    }
  }

  predicate IntLess(a: int, b: int) {
    a < b
  }

}
