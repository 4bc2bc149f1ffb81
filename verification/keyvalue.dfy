/** The Map-backed `localStorage` stand-in of scripts/start.js: a key/value
    store that also remembers the order in which keys were first inserted
    (a JavaScript `Map` iterates in insertion order, which `key(index)` exposes).
    It is the model of the browser cache every page reads and writes. */
module KeyValue {
  import opened Wrappers
  import opened Seqs

  /** `order` lists the stored keys in insertion order; `entries` holds the values. */
  datatype Store<V> = Store(order: seq<string>, entries: map<string, V>)

  /** No key is listed twice. */
  ghost predicate Distinct(order: seq<string>) {
    forall i, j | 0 <= i < j < |order| :: order[i] != order[j]
  }

  /** The store's two views agree: `order` lists each stored key exactly once. */
  ghost predicate Valid<V>(st: Store<V>) {
    && Distinct(st.order)
    && (forall k :: k in st.entries <==> k in st.order)
  }

  function Empty<V>(): (st: Store<V>)
    ensures Valid(st) && Length(st) == 0
  {
    Store([], map[])
  }

  /** The `length` getter: the `Map`'s size. */
  function Length<V>(st: Store<V>): nat {
    |st.entries|
  }

  /** `getItem(key)`: the stored value, or `null` for a missing key. */
  function GetItem<V>(st: Store<V>, key: string): (v: Option<V>)
    ensures v.Some? <==> key in st.entries
    ensures v.Some? ==> v.value == st.entries[key]
  {
    if key in st.entries then Some(st.entries[key]) else None
  }

  /** `setItem(key, value)`: overwrites in place or appends a new key. */
  function SetItem<V>(st: Store<V>, key: string, value: V): (r: Store<V>)
    requires Valid(st)
    ensures Valid(r)
    ensures GetItem(r, key) == Some(value)
    ensures forall k | k != key :: GetItem(r, k) == GetItem(st, k)
    ensures key in st.entries ==> r.order == st.order
    ensures key !in st.entries ==> r.order == st.order + [key]
  {
    var order := if key in st.entries then st.order else st.order + [key];
    Store(order, st.entries[key := value])
  }

  /** `order` without `key`, other keys in their original order. */
  function Without(order: seq<string>, key: string): (r: seq<string>)
    ensures forall k :: k in r <==> k in order && k != key
    ensures Distinct(order) ==> Distinct(r)
    ensures IsSubsequence(r, order)
    ensures key !in order ==> r == order
  {
    if order == [] then
      EmptyIsSubsequence(order);
      []
    else if order[0] == key then
      var rest := Without(order[1..], key);
      SkipFirst(rest, order);
      rest
    else
      var rest := Without(order[1..], key);
      ConsSubsequence(rest, order);
      assert order == [order[0]] + order[1..];
      assert Distinct(order) ==> Distinct(order[1..]) && order[0] !in order[1..] by {
        if Distinct(order) {
          forall i, j | 0 <= i < j < |order[1..]| ensures order[1..][i] != order[1..][j] {
            assert order[1..][i] == order[i + 1] && order[1..][j] == order[j + 1];
          }
        }
      }
      [order[0]] + rest
  }

  /** `removeItem(key)`: deletes `key`, the other keys keeping their
      relative insertion order; removing a missing key changes nothing. */
  function RemoveItem<V>(st: Store<V>, key: string): (r: Store<V>)
    requires Valid(st)
    ensures Valid(r)
    ensures GetItem(r, key) == None
    ensures forall k | k != key :: GetItem(r, k) == GetItem(st, k)
    ensures key in st.entries ==> Length(r) == Length(st) - 1
    ensures IsSubsequence(r.order, st.order)
    ensures key !in st.entries ==> r == st
  {
    var order := Without(st.order, key);
    if key in st.entries then
      var entries := st.entries - {key};
      MapRemoveSize(st.entries, key);
      assert forall k :: k in entries <==> k in order;
      Store(order, entries)
    else
      Store(order, st.entries)
  }

  lemma MapRemoveSize<V>(m: map<string, V>, key: string)
    requires key in m
    ensures |m - {key}| == |m| - 1
  {
    assert (m - {key}).Keys == m.Keys - {key};
    assert |m.Keys - {key}| == |m.Keys| - 1;
  }

  /** `clear()`. */
  function Clear<V>(st: Store<V>): (r: Store<V>)
    ensures Valid(r) && Length(r) == 0
    ensures forall k :: GetItem(r, k) == None
  {
    Store([], map[])
  }

  /** `key(index)`: the index-th key in insertion order, or `null` out of range. */
  function Key<V>(st: Store<V>, index: int): (k: Option<string>)
    requires Valid(st)
    ensures k.None? <==> !(0 <= index < Length(st))
    ensures k.Some? ==> k.value in st.entries
    ensures k.Some? ==> 0 <= index < |st.order| && k.value == st.order[index]
  {
    OrderMatchesSize(st);
    if 0 <= index < |st.order| then Some(st.order[index]) else None
  }

  /** `key(i)` for `i` from 0 to `length - 1` enumerates the stored keys,
      each exactly once. */
  lemma KeyEnumerates<V>(st: Store<V>)
    requires Valid(st)
    ensures forall k :: k in st.entries <==> exists i | 0 <= i < Length(st) :: Key(st, i) == Some(k)
    ensures forall i, j | 0 <= i < j < Length(st) :: Key(st, i) != Key(st, j)
  {
    OrderMatchesSize(st);
    forall k | k in st.entries
      ensures exists i | 0 <= i < Length(st) :: Key(st, i) == Some(k)
    {
      var i :| 0 <= i < |st.order| && st.order[i] == k;
      assert Key(st, i) == Some(k);
    }
  }

  /** A new key is enumerated last, after the keys already there; setting an
      existing key leaves the enumeration as it was. */
  lemma KeyAfterSet<V>(st: Store<V>, key: string, value: V)
    requires Valid(st)
    ensures key !in st.entries ==> Key(SetItem(st, key, value), Length(st)) == Some(key)
    ensures forall i | 0 <= i < Length(st) :: Key(SetItem(st, key, value), i) == Key(st, i)
    ensures key in st.entries ==> Key(SetItem(st, key, value), Length(st)) == None
  {
    OrderMatchesSize(st);
    OrderMatchesSize(SetItem(st, key, value));
  }

  /** A list of distinct keys has as many elements as the set it enumerates. */
  lemma {:induction false} DistinctCount(order: seq<string>, keys: set<string>)
    requires Distinct(order)
    requires forall k :: k in keys <==> k in order
    ensures |keys| == |order|
  {
    if order != [] {
      var rest := order[1..];
      assert forall k :: k in keys - {order[0]} <==> k in rest;
      DistinctCount(rest, keys - {order[0]});
    }
  }

  /** In a valid store the insertion-order list and the `Map` have the same size. */
  lemma OrderMatchesSize<V>(st: Store<V>)
    requires Valid(st)
    ensures |st.order| == Length(st)
  {
    DistinctCount(st.order, st.entries.Keys);
  }
}
