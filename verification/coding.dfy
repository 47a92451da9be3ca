/** The contracts a value type satisfies to be stored: `ValueCoding` (an encoder into the stored
    object and a failable decoder back), `Persistable` (a collection name and an identifier that
    together give the value's index), and, for values with metadata, a metadata property whose
    type has its own codec. */
module Coding {
  import opened Options
  import opened Database

  /** `ValueCoding`: `encoded` and `decode(object) -> Value?`. */
  datatype Codec<!V, !O> = Codec(encode: V -> O, decode: O -> Option<V>)

  /** The codec law: decoding an encoded value gives the value back. */
  ghost predicate RoundTrips<V(!new), O>(c: Codec<V, O>) {
    forall v :: c.decode(c.encode(v)) == Some(v)
  }

  /** `Persistable`: the static `collection` and the per-value `identifier`. */
  datatype Persistable<!V> = Persistable(collection: string, identifier: V -> string)

  /** `indexWithKey(key)`: the type's collection with the given key. */
  function IndexWithKey<V>(p: Persistable<V>, key: string): (r: Index)
    ensures r.collection == p.collection && r.key == key
  {
    Index(p.collection, key)
  }

  /** `item.index`: the index whose key is the value's identifier. */
  function IndexOf<V>(p: Persistable<V>, v: V): (r: Index)
    ensures r == IndexWithKey(p, p.identifier(v))
  {
    Index(p.collection, p.identifier(v))
  }

  /** `indexesWithKeys(keys)`: one index per key, in the same order. */
  function IndexesWithKeys<V>(p: Persistable<V>, keys: seq<string>): (r: seq<Index>)
    ensures |r| == |keys|
    ensures forall i :: 0 <= i < |keys| ==> r[i] == IndexWithKey(p, keys[i])
  {
    seq(|keys|, i requires 0 <= i < |keys| => IndexWithKey(p, keys[i]))
  }

  /** Identifiers are pairwise distinct, so the values' indexes are too. */
  ghost predicate DistinctIdentifiers<V>(p: Persistable<V>, items: seq<V>) {
    forall j, k :: 0 <= j < k < |items| ==> p.identifier(items[j]) != p.identifier(items[k])
  }

  /** A value's `metadata` property (read and replaced) and the metadata type's codec. */
  datatype Metadata<!V, !M, !O> = Metadata(get: V -> Option<M>, put: (V, Option<M>) -> V, codec: Codec<M, O>)

  /** Reading `metadata` back gives what was assigned to it. */
  ghost predicate GetPut<V(!new), M(!new), O>(m: Metadata<V, M, O>) {
    forall v, x :: m.get(m.put(v, x)) == x
  }

  /** Both codecs round-trip, and `metadata` behaves as a stored property: reading it back gives
      what was assigned, and assigning what was read changes nothing. */
  ghost predicate Lawful<V(!new), M(!new), O>(c: Codec<V, O>, m: Metadata<V, M, O>) {
    && RoundTrips(c)
    && RoundTrips(m.codec)
    && GetPut(m)
    && (forall v :: m.put(v, m.get(v)) == v)
  }
}
