/** The two dictionary shapes the symbols use: `Dictionary<string, T>`, whose
    `Add` throws on an existing key, and `OrderedDictionary<string, T>`, which
    in addition remembers the order in which keys were added. */
module Collections {
  import opened Common

  /** `Dictionary.Add`: None stands for the ArgumentException on a duplicate key. */
  function DictionaryAdd<V>(m: map<string, V>, key: string, value: V): (r: Option<map<string, V>>)
    ensures r.None? <==> key in m
    ensures r.Some? ==> r.value.Keys == m.Keys + {key} && r.value[key] == value
    ensures r.Some? ==> forall k :: k in m ==> r.value[k] == m[k]
  {
    if key in m then None else Some(m[key := value])
  }

  /** An ordered dictionary: the keys in insertion order, and the entries. */
  datatype OrderedMap<V> = OrderedMap(keys: seq<string>, items: map<string, V>)

  /** Keys are unique and are exactly the keys of the entries. */
  ghost predicate Valid<V>(m: OrderedMap<V>) {
    && (forall i, j :: 0 <= i < j < |m.keys| ==> m.keys[i] != m.keys[j])
    && (forall k :: k in m.items <==> k in m.keys)
  }

  function EmptyOrdered<V>(): (m: OrderedMap<V>)
    ensures Valid(m) && m.keys == [] && m.items == map[]
  {
    OrderedMap([], map[])
  }

  /** `OrderedDictionary.Add`: appends the key at the end of the order; None
      stands for the ArgumentException on a duplicate key. */
  function OrderedAdd<V>(m: OrderedMap<V>, key: string, value: V): (r: Option<OrderedMap<V>>)
    ensures r.None? <==> key in m.items
    ensures r.Some? && Valid(m) ==> Valid(r.value)
    ensures r.Some? ==> r.value.keys == m.keys + [key]
    ensures r.Some? ==> r.value.items == m.items[key := value]
  {
    if key in m.items then None else Some(OrderedMap(m.keys + [key], m.items[key := value]))
  }

  /** A dictionary only ever grows: every old entry is still there, unchanged. */
  ghost predicate SubMap<V>(m: map<string, V>, m': map<string, V>) {
    forall k :: k in m ==> k in m' && m'[k] == m[k]
  }

  /** An ordered dictionary only ever grows at its end. */
  ghost predicate OrderedGrows<V>(m: OrderedMap<V>, m': OrderedMap<V>) {
    && |m.keys| <= |m'.keys| && m'.keys[..|m.keys|] == m.keys
    && SubMap(m.items, m'.items)
  }
}
