/** The typed helpers for a value type whose `metadata` is itself a coded value: reading at an
    index, a key, a batch of either, or the whole collection, and writing one value or a batch,
    both inside a transaction and through a connection. A type is given by its `Persistable`
    description `p`, its codec `c` and its metadata property `m`. */
module ValueWithValueMetadata {
  import opened Options
  import opened Seqs
  import opened Database
  import opened Coding
  import Connection

  /** The typed `readMetadataAtIndex`: the metadata object at `index`, decoded; none when no
      record or no metadata is stored there, or it does not decode. */
  function ReadMetadataAtIndex<V, M, O>(m: Metadata<V, M, O>, s: Store<O>, index: Index): (r: Option<M>)
    ensures index !in s || s[index].metadata.None? ==> r.None?
    ensures index in s && s[index].metadata.Some? ==> r == m.codec.decode(s[index].metadata.value)
  {
    match MetadataAt(s, index)
    case Some(o) => m.codec.decode(o)
    case None => None
  }

  /** `readAtIndex(index)`: decode the object at `index`, then set its metadata to the
      metadata stored at the same index. Absence and a failed decode both give none. */
  function ReadAtIndex<V, M, O>(p: Persistable<V>, c: Codec<V, O>, m: Metadata<V, M, O>, s: Store<O>, index: Index): (r: Option<V>)
    ensures index !in s ==> r.None?
    ensures index in s ==> (r.Some? <==> c.decode(s[index].obj).Some?)
    ensures index in s && c.decode(s[index].obj).Some? ==>
      r == Some(m.put(c.decode(s[index].obj).value, ReadMetadataAtIndex(m, s, index)))
  {
    match ObjectAt(s, index)
    case None => None
    case Some(o) =>
      match c.decode(o)
      case None => None
      case Some(item) => Some(m.put(item, ReadMetadataAtIndex(m, s, index)))
  }

  /** On success, the item read carries exactly the metadata stored at its index — none when
      there is none or it does not decode. */
  lemma ReadAtIndexCarriesMetadata<V(!new), M(!new), O>(p: Persistable<V>, c: Codec<V, O>, m: Metadata<V, M, O>, s: Store<O>, index: Index)
    requires GetPut(m)
    ensures ReadAtIndex(p, c, m, s, index).Some? ==>
      m.get(ReadAtIndex(p, c, m, s, index).value) == ReadMetadataAtIndex(m, s, index)
  {
  }

  /** `readAtIndexes(indexes)`: `indexes.flatMap(readAtIndex)`. */
  function ReadAtIndexes<V, M, O>(p: Persistable<V>, c: Codec<V, O>, m: Metadata<V, M, O>, s: Store<O>, indexes: seq<Index>): (r: seq<V>)
    ensures |r| <= |indexes|
    ensures forall j :: 0 <= j < |r| ==>
      exists i :: 0 <= i < |indexes| && ReadAtIndex(p, c, m, s, indexes[i]) == Some(r[j])
    ensures forall i :: 0 <= i < |indexes| && ReadAtIndex(p, c, m, s, indexes[i]).Some? ==>
      ReadAtIndex(p, c, m, s, indexes[i]).value in r
  {
    FlatMap(indexes, i => ReadAtIndex(p, c, m, s, i))
  }

  /** The batch read keeps input order: its j-th item is the read at the j-th index, counting
      only indexes whose single read succeeds. */
  lemma ReadAtIndexesInOrder<V, M, O>(p: Persistable<V>, c: Codec<V, O>, m: Metadata<V, M, O>, s: Store<O>, indexes: seq<Index>)
    ensures var read := i => ReadAtIndex(p, c, m, s, i);
      var ps := SomePositions(indexes, read);
      && |ReadAtIndexes(p, c, m, s, indexes)| == |ps|
      && (forall q :: q in ps <==> 0 <= q < |indexes| && read(indexes[q]).Some?)
      && (forall j :: 0 <= j < |ps| ==> read(indexes[ps[j]]) == Some(ReadAtIndexes(p, c, m, s, indexes)[j]))
  {
    FlatMapInOrder(indexes, i => ReadAtIndex(p, c, m, s, i));
  }

  /** `readByKey(key)`: the read at the type's collection and `key`. */
  function ReadByKey<V, M, O>(p: Persistable<V>, c: Codec<V, O>, m: Metadata<V, M, O>, s: Store<O>, key: string): (r: Option<V>)
    ensures r == ReadAtIndex(p, c, m, s, Index(p.collection, key))
  {
    ReadAtIndex(p, c, m, s, IndexWithKey(p, key))
  }

  /** `readByKeys(keys)`: the batch read at the type's collection and `keys`. */
  function ReadByKeys<V, M, O>(p: Persistable<V>, c: Codec<V, O>, m: Metadata<V, M, O>, s: Store<O>, keys: seq<string>): (r: seq<V>)
    ensures |r| <= |keys|
    ensures r == FlatMap(keys, k => ReadByKey(p, c, m, s, k))
  {
    var indexes := IndexesWithKeys(p, keys);
    FlatMapOverKeys(p, c, m, s, keys, 0);
    assert keys[0..] == keys;
    ReadAtIndexes(p, c, m, s, indexes)
  }

  /** Reading at the key-derived indexes is reading by the keys. */
  lemma {:induction false} FlatMapOverKeys<V, M, O>(p: Persistable<V>, c: Codec<V, O>, m: Metadata<V, M, O>, s: Store<O>, keys: seq<string>, lo: nat)
    requires lo <= |keys|
    ensures FlatMap(IndexesWithKeys(p, keys)[lo..], i => ReadAtIndex(p, c, m, s, i))
         == FlatMap(keys[lo..], k => ReadByKey(p, c, m, s, k))
    decreases |keys| - lo
  {
    if lo < |keys| {
      FlatMapOverKeys(p, c, m, s, keys, lo + 1);
      var indexes := IndexesWithKeys(p, keys);
      assert indexes[lo..][1..] == indexes[lo + 1..];
      assert keys[lo..][1..] == keys[lo + 1..];
      assert indexes[lo..][0] == IndexWithKey(p, keys[lo..][0]);
    }
  }

  /** `readAll()`: `readByKeys(keysInCollection(collection))`, for some listing of the
      collection's keys without repeats (the store's key order is not modelled). */
  ghost function ReadAll<V, M, O>(p: Persistable<V>, c: Codec<V, O>, m: Metadata<V, M, O>, s: Store<O>): (r: seq<V>)
    ensures exists keys ::
      && Distinct(keys)
      && (forall k :: k in keys <==> Index(p.collection, k) in s)
      && r == ReadByKeys(p, c, m, s, keys)
    ensures forall j :: 0 <= j < |r| ==> exists k :: ReadByKey(p, c, m, s, k) == Some(r[j])
    ensures forall k :: ReadByKey(p, c, m, s, k).Some? ==> ReadByKey(p, c, m, s, k).value in r
  {
    var keys := KeysInCollection(s, p.collection);
    ReadByKeysOfCollection(p, c, m, s, keys);
    ReadByKeys(p, c, m, s, keys)
  }

  /** Reading every key of the collection: each item is some key's read, and every key's
      successful read is among the items. */
  lemma ReadByKeysOfCollection<V, M, O>(p: Persistable<V>, c: Codec<V, O>, m: Metadata<V, M, O>, s: Store<O>, keys: seq<string>)
    requires forall k :: k in keys <==> Index(p.collection, k) in s
    ensures var r := ReadByKeys(p, c, m, s, keys);
      && (forall j :: 0 <= j < |r| ==> exists k :: ReadByKey(p, c, m, s, k) == Some(r[j]))
      && (forall k :: ReadByKey(p, c, m, s, k).Some? ==> ReadByKey(p, c, m, s, k).value in r)
  {
    var r := ReadByKeys(p, c, m, s, keys);
    var read := k => ReadByKey(p, c, m, s, k);
    assert r == FlatMap(keys, read);
    forall j | 0 <= j < |r| ensures exists k :: ReadByKey(p, c, m, s, k) == Some(r[j]) {
      var i :| 0 <= i < |keys| && read(keys[i]) == Some(r[j]);
      assert ReadByKey(p, c, m, s, keys[i]) == Some(r[j]);
    }
    forall k | ReadByKey(p, c, m, s, k).Some? ensures ReadByKey(p, c, m, s, k).value in r {
      assert Index(p.collection, k) in s;
      var i :| 0 <= i < |keys| && keys[i] == k;
      assert read(keys[i]).Some?;
    }
  }

  /** `readAll()` returns only items stored in the type's own collection: each is the read at an
      index of that collection that holds a record. */
  lemma ReadAllStaysInCollection<V, M, O>(p: Persistable<V>, c: Codec<V, O>, m: Metadata<V, M, O>, s: Store<O>)
    ensures forall j :: 0 <= j < |ReadAll(p, c, m, s)| ==>
      exists i :: i in s && i.collection == p.collection && ReadAtIndex(p, c, m, s, i) == Some(ReadAll(p, c, m, s)[j])
  {
    var r := ReadAll(p, c, m, s);
    forall j | 0 <= j < |r|
      ensures exists i :: i in s && i.collection == p.collection && ReadAtIndex(p, c, m, s, i) == Some(r[j])
    {
      var k :| ReadByKey(p, c, m, s, k) == Some(r[j]);
      assert Index(p.collection, k) in s;
    }
  }

  /** The record `write(item)` stores: the encoded item and its encoded metadata, if any. */
  function EncodeRecord<V, M, O>(c: Codec<V, O>, m: Metadata<V, M, O>, item: V): (r: Record<O>)
    ensures r.obj == c.encode(item)
    ensures r.metadata.None? <==> m.get(item).None?
    ensures m.get(item).Some? ==> r.metadata == Some(m.codec.encode(m.get(item).value))
  {
    Record(c.encode(item), m.get(item).Map(m.codec.encode))
  }

  /** `write(item)`: `writeAtIndex(item.index, object: item.encoded, metadata: item.metadata?.encoded)`. */
  function Write<V, M, O>(p: Persistable<V>, c: Codec<V, O>, m: Metadata<V, M, O>, s: Store<O>, item: V): (s': Store<O>)
    ensures s'.Keys == s.Keys + {IndexOf(p, item)}
    ensures s'[IndexOf(p, item)].obj == c.encode(item)
    ensures s'[IndexOf(p, item)].metadata.None? <==> m.get(item).None?
    ensures m.get(item).Some? ==> s'[IndexOf(p, item)].metadata == Some(m.codec.encode(m.get(item).value))
    ensures forall i :: i in s && i != IndexOf(p, item) ==> s'[i] == s[i]
  {
    var r := EncodeRecord(c, m, item);
    WriteAtIndex(s, IndexOf(p, item), r.obj, r.metadata)
  }

  /** Reading a record written from `item` gives `item` back, metadata included. */
  lemma ReadEncodedRecord<V(!new), M(!new), O>(p: Persistable<V>, c: Codec<V, O>, m: Metadata<V, M, O>, s: Store<O>, index: Index, item: V)
    requires Lawful(c, m)
    requires index in s && s[index] == EncodeRecord(c, m, item)
    ensures ReadAtIndex(p, c, m, s, index) == Some(item)
  {
    assert c.decode(c.encode(item)) == Some(item);
    match m.get(item)
    case None =>
      assert ReadMetadataAtIndex(m, s, index) == None;
    case Some(x) =>
      assert m.codec.decode(m.codec.encode(x)) == Some(x);
      assert ReadMetadataAtIndex(m, s, index) == Some(x);
  }

  /** Write-then-read: after `write(item)`, reading at `item.index` yields `item`. */
  lemma WriteThenRead<V(!new), M(!new), O>(p: Persistable<V>, c: Codec<V, O>, m: Metadata<V, M, O>, s: Store<O>, item: V)
    requires Lawful(c, m)
    ensures ReadAtIndex(p, c, m, Write(p, c, m, s, item), IndexOf(p, item)) == Some(item)
  {
    ReadEncodedRecord(p, c, m, Write(p, c, m, s, item), IndexOf(p, item), item);
  }

  /** `write(items)`: `items.forEach(write)` in one transaction. The store afterwards holds a
      record at the old indexes and the items' indexes only; an item that no later item shares
      an index with is stored as by `write(item)`; every other index keeps its record. */
  function WriteItems<V, M, O>(p: Persistable<V>, c: Codec<V, O>, m: Metadata<V, M, O>, s: Store<O>, items: seq<V>): (s': Store<O>)
    ensures s'.Keys == s.Keys + set j | 0 <= j < |items| :: IndexOf(p, items[j])
    ensures forall j :: 0 <= j < |items| && (forall k :: j < k < |items| ==> IndexOf(p, items[k]) != IndexOf(p, items[j])) ==>
      s'[IndexOf(p, items[j])] == EncodeRecord(c, m, items[j])
    ensures forall i :: i in s && (forall j :: 0 <= j < |items| ==> IndexOf(p, items[j]) != i) ==> s'[i] == s[i]
    ensures forall i :: i in s' ==>
      || (i in s && s'[i] == s[i])
      || exists j :: 0 <= j < |items| && IndexOf(p, items[j]) == i && s'[i] == EncodeRecord(c, m, items[j])
  {
    var index, record := v => IndexOf(p, v), v => EncodeRecord(c, m, v);
    var s' := WriteAll(s, items, index, record);
    assert Named(items, index) == set j | 0 <= j < |items| :: IndexOf(p, items[j]);
    assert forall j :: 0 <= j < |items| && (forall k :: j < k < |items| ==> IndexOf(p, items[k]) != IndexOf(p, items[j])) ==>
      s'[IndexOf(p, items[j])] == EncodeRecord(c, m, items[j]) by {
      forall j | 0 <= j < |items| && (forall k :: j < k < |items| ==> IndexOf(p, items[k]) != IndexOf(p, items[j]))
        ensures IndexOf(p, items[j]) in s' && s'[IndexOf(p, items[j])] == EncodeRecord(c, m, items[j])
      {
        assert LastAt(items, index, j);
      }
    }
    s'
  }

  /** Writing distinct items into a collection that held nothing, then reading all, returns
      exactly the items written. */
  lemma WriteItemsThenReadAll<V(!new), M(!new), O>(p: Persistable<V>, c: Codec<V, O>, m: Metadata<V, M, O>, s: Store<O>, items: seq<V>)
    requires Lawful(c, m)
    requires forall i :: i in s ==> i.collection != p.collection
    requires DistinctIdentifiers(p, items)
    ensures forall v :: v in ReadAll(p, c, m, WriteItems(p, c, m, s, items)) <==> v in items
  {
    var s' := WriteItems(p, c, m, s, items);
    forall j | 0 <= j < |items| ensures items[j] in ReadAll(p, c, m, s') {
      WrittenItemIsRead(p, c, m, s, items, j);
    }
    forall v | v in ReadAll(p, c, m, s') ensures v in items {
      ReadItemWasWritten(p, c, m, s, items, v);
    }
  }

  lemma WrittenItemIsRead<V(!new), M(!new), O>(p: Persistable<V>, c: Codec<V, O>, m: Metadata<V, M, O>, s: Store<O>, items: seq<V>, j: int)
    requires Lawful(c, m)
    requires DistinctIdentifiers(p, items)
    requires 0 <= j < |items|
    ensures items[j] in ReadAll(p, c, m, WriteItems(p, c, m, s, items))
  {
    var s' := WriteItems(p, c, m, s, items);
    assert s'[IndexOf(p, items[j])] == EncodeRecord(c, m, items[j]);
    ReadEncodedRecord(p, c, m, s', IndexOf(p, items[j]), items[j]);
    assert ReadByKey(p, c, m, s', p.identifier(items[j])) == Some(items[j]);
  }

  lemma ReadItemWasWritten<V(!new), M(!new), O>(p: Persistable<V>, c: Codec<V, O>, m: Metadata<V, M, O>, s: Store<O>, items: seq<V>, v: V)
    requires Lawful(c, m)
    requires forall i :: i in s ==> i.collection != p.collection
    requires v in ReadAll(p, c, m, WriteItems(p, c, m, s, items))
    ensures v in items
  {
    var s' := WriteItems(p, c, m, s, items);
    var all := ReadAll(p, c, m, s');
    var jv :| 0 <= jv < |all| && all[jv] == v;
    var k :| ReadByKey(p, c, m, s', k) == Some(v);
    var i := Index(p.collection, k);
    assert i in s' && i !in s;
    var j :| 0 <= j < |items| && IndexOf(p, items[j]) == i && s'[i] == EncodeRecord(c, m, items[j]);
    ReadEncodedRecord(p, c, m, s', i, items[j]);
  }

  // Connection-level helpers: each runs the transaction-level helper in one transaction.

  function SyncReadAtIndex<V, M, O>(p: Persistable<V>, c: Codec<V, O>, m: Metadata<V, M, O>, db: Store<O>, index: Index): (r: Option<V>)
    ensures r == ReadAtIndex(p, c, m, db, index)
  {
    Connection.Read(db, t => ReadAtIndex(p, c, m, t, index))
  }

  function SyncReadAtIndexes<V, M, O>(p: Persistable<V>, c: Codec<V, O>, m: Metadata<V, M, O>, db: Store<O>, indexes: seq<Index>): (r: seq<V>)
    ensures r == ReadAtIndexes(p, c, m, db, indexes)
  {
    Connection.Read(db, t => ReadAtIndexes(p, c, m, t, indexes))
  }

  function SyncReadByKey<V, M, O>(p: Persistable<V>, c: Codec<V, O>, m: Metadata<V, M, O>, db: Store<O>, key: string): (r: Option<V>)
    ensures r == ReadAtIndex(p, c, m, db, IndexWithKey(p, key))
  {
    SyncReadAtIndex(p, c, m, db, IndexWithKey(p, key))
  }

  function SyncReadByKeys<V, M, O>(p: Persistable<V>, c: Codec<V, O>, m: Metadata<V, M, O>, db: Store<O>, keys: seq<string>): (r: seq<V>)
    ensures r == ReadByKeys(p, c, m, db, keys)
  {
    SyncReadAtIndexes(p, c, m, db, IndexesWithKeys(p, keys))
  }

  ghost function SyncReadAll<V, M, O>(p: Persistable<V>, c: Codec<V, O>, m: Metadata<V, M, O>, db: Store<O>): (r: seq<V>)
    ensures r == ReadAll(p, c, m, db)
  {
    Connection.Read(db, t => ReadAll(p, c, m, t))
  }

  function SyncWrite<V, M, O>(p: Persistable<V>, c: Codec<V, O>, m: Metadata<V, M, O>, db: Store<O>, item: V): (db': Store<O>)
    ensures db' == Write(p, c, m, db, item)
  {
    Connection.Write(db, t => Write(p, c, m, t, item))
  }

  function SyncWriteItems<V, M, O>(p: Persistable<V>, c: Codec<V, O>, m: Metadata<V, M, O>, db: Store<O>, items: seq<V>): (db': Store<O>)
    ensures db' == WriteItems(p, c, m, db, items)
  {
    Connection.Write(db, t => WriteItems(p, c, m, t, items))
  }
}
