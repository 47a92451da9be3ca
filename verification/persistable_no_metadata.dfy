/** The `Readable` and `Writable` extensions for a value type without metadata: transaction
    readers at an index, a key and a batch of keys (or the whole collection), their synchronous
    connection wrappers, `filterExisting`, and the batch write `on(transaction)`. */
module ValueWithNoMetadata {
  import opened Options
  import opened Seqs
  import opened Database
  import opened Coding
  import Connection
  import Strings

  // Readable

  /** `inTransaction(_, atIndex:)`: decode the object at `index`; none when nothing is stored
      there or it does not decode. The metadata column is not read. */
  function InTransactionAtIndex<V, O>(p: Persistable<V>, c: Codec<V, O>, s: Store<O>, index: Index): (r: Option<V>)
    ensures index !in s ==> r.None?
    ensures index in s ==> r == c.decode(s[index].obj)
  {
    match ObjectAt(s, index)
    case None => None
    case Some(o) => c.decode(o)
  }

  /** `atIndexesInTransaction(indexes)`: `indexes.flatMap(atIndex(transaction))`. */
  function AtIndexesInTransaction<V, O>(p: Persistable<V>, c: Codec<V, O>, s: Store<O>, indexes: seq<Index>): (r: seq<V>)
    ensures |r| <= |indexes|
    ensures forall j :: 0 <= j < |r| ==>
      exists i :: 0 <= i < |indexes| && InTransactionAtIndex(p, c, s, indexes[i]) == Some(r[j])
    ensures forall i :: 0 <= i < |indexes| && InTransactionAtIndex(p, c, s, indexes[i]).Some? ==>
      InTransactionAtIndex(p, c, s, indexes[i]).value in r
  {
    FlatMap(indexes, i => InTransactionAtIndex(p, c, s, i))
  }

  /** The batch read keeps input order: its j-th item is the read at the j-th index, counting
      only indexes whose single read succeeds. */
  lemma AtIndexesInTransactionInOrder<V, O>(p: Persistable<V>, c: Codec<V, O>, s: Store<O>, indexes: seq<Index>)
    ensures var read := i => InTransactionAtIndex(p, c, s, i);
      var ps := SomePositions(indexes, read);
      && |AtIndexesInTransaction(p, c, s, indexes)| == |ps|
      && (forall q :: q in ps <==> 0 <= q < |indexes| && read(indexes[q]).Some?)
      && (forall j :: 0 <= j < |ps| ==> read(indexes[ps[j]]) == Some(AtIndexesInTransaction(p, c, s, indexes)[j]))
  {
    FlatMapInOrder(indexes, i => InTransactionAtIndex(p, c, s, i));
  }

  /** `inTransaction(_, byKey:)`: the read at `indexWithKey(key)`. */
  function InTransactionByKey<V, O>(p: Persistable<V>, c: Codec<V, O>, s: Store<O>, key: string): (r: Option<V>)
    ensures r == InTransactionAtIndex(p, c, s, Index(p.collection, key))
  {
    InTransactionAtIndex(p, c, s, IndexWithKey(p, key))
  }

  /** `inTransactionByKey(transaction)`: the curried reader by key. */
  function ByKeyReader<V, O>(p: Persistable<V>, c: Codec<V, O>, s: Store<O>): (read: string -> Option<V>)
    ensures forall key :: read(key) == InTransactionAtIndex(p, c, s, Index(p.collection, key))
  {
    key => InTransactionByKey(p, c, s, key)
  }

  /** `keys.flatMap(byKey(transaction))`: the reads at the given keys that succeed. */
  function ReadKeys<V, O>(p: Persistable<V>, c: Codec<V, O>, s: Store<O>, keys: seq<string>): (r: seq<V>)
    ensures |r| <= |keys|
    ensures forall j :: 0 <= j < |r| ==>
      exists i :: 0 <= i < |keys| && InTransactionByKey(p, c, s, keys[i]) == Some(r[j])
    ensures forall i :: 0 <= i < |keys| && InTransactionByKey(p, c, s, keys[i]).Some? ==>
      InTransactionByKey(p, c, s, keys[i]).value in r
  {
    FlatMap(keys, ByKeyReader(p, c, s))
  }

  /** `byKeysInTransaction(keys)`: the given keys, or when none are given every key of the
      type's collection, each read in the transaction; keys whose read yields none are
      dropped. */
  ghost function ByKeysInTransaction<V, O>(p: Persistable<V>, c: Codec<V, O>, s: Store<O>, keys: Option<seq<string>>): (r: seq<V>)
    ensures keys.Some? ==> r == ReadKeys(p, c, s, keys.value)
    ensures keys.None? ==> forall j :: 0 <= j < |r| ==>
      exists k :: Index(p.collection, k) in s && InTransactionByKey(p, c, s, k) == Some(r[j])
    ensures keys.None? ==> forall k :: InTransactionByKey(p, c, s, k).Some? ==>
      InTransactionByKey(p, c, s, k).value in r
    ensures keys.None? ==> exists ks ::
      && Distinct(ks)
      && (forall k :: k in ks <==> Index(p.collection, k) in s)
      && r == ReadKeys(p, c, s, ks)
  {
    match keys
    case Some(ks) => ReadKeys(p, c, s, ks)
    case None =>
      var ks := KeysInCollection(s, p.collection);
      ReadKeysOfCollection(p, c, s, ks);
      ReadKeys(p, c, s, ks)
  }

  /** Reading every key of the collection: each item is the read at a key of the collection,
      and every key's successful read is among the items. */
  lemma ReadKeysOfCollection<V, O>(p: Persistable<V>, c: Codec<V, O>, s: Store<O>, keys: seq<string>)
    requires forall k :: k in keys <==> Index(p.collection, k) in s
    ensures var r := ReadKeys(p, c, s, keys);
      && (forall j :: 0 <= j < |r| ==> exists k :: Index(p.collection, k) in s && InTransactionByKey(p, c, s, k) == Some(r[j]))
      && (forall k :: InTransactionByKey(p, c, s, k).Some? ==> InTransactionByKey(p, c, s, k).value in r)
  {
    var r := ReadKeys(p, c, s, keys);
    forall k | InTransactionByKey(p, c, s, k).Some? ensures InTransactionByKey(p, c, s, k).value in r {
      assert Index(p.collection, k) in s;
      var i :| 0 <= i < |keys| && keys[i] == k;
    }
  }

  /** With explicit keys, `byKeysInTransaction` keeps key order: its j-th item is the read at
      the j-th key whose read succeeds. */
  lemma ByKeysInTransactionInOrder<V, O>(p: Persistable<V>, c: Codec<V, O>, s: Store<O>, keys: seq<string>)
    ensures var read := ByKeyReader(p, c, s);
      var ps := SomePositions(keys, read);
      && |ByKeysInTransaction(p, c, s, Some(keys))| == |ps|
      && (forall q :: q in ps <==> 0 <= q < |keys| && read(keys[q]).Some?)
      && (forall j :: 0 <= j < |ps| ==> read(keys[ps[j]]) == Some(ByKeysInTransaction(p, c, s, Some(keys))[j]))
  {
    FlatMapInOrder(keys, ByKeyReader(p, c, s));
  }

  /** The two halves of `filterExisting`. */
  datatype Partition<V> = Partition(existing: seq<V>, missing: seq<string>)

  /** The identifiers (`keyForPersistable`) of the items found. */
  function Identifiers<V>(p: Persistable<V>, items: seq<V>): (ids: seq<string>)
    ensures |ids| == |items|
    ensures forall j :: 0 <= j < |items| ==> ids[j] == p.identifier(items[j])
  {
    seq(|items|, j requires 0 <= j < |items| => p.identifier(items[j]))
  }

  /** `{ !existingKeys.contains($0) }`, where `contains` compares with Swift's `==` on strings,
      given as `same`: a key passes when it equals none of the identifiers. */
  function NotIn(same: (string, string) -> bool, ids: seq<string>): (keep: string -> bool)
    ensures forall key :: keep(key) <==> !exists i :: 0 <= i < |ids| && same(ids[i], key)
  {
    key => forall i :: 0 <= i < |ids| ==> !same(ids[i], key)
  }

  /** Under comparison by code point, a key passes exactly when it is not one of the
      identifiers. */
  lemma NotInByCodePoints(ids: seq<string>, key: string)
    ensures NotIn(Strings.CodePoints(), ids)(key) <==> key !in ids
  {
  }

  /** `filterExisting(keys)`: in one read transaction, the items found at `keys` and the keys,
      in input order, that do not equal (under `same`) the identifier of any item found. */
  function FilterExisting<V, O>(p: Persistable<V>, c: Codec<V, O>, db: Store<O>, keys: seq<string>, same: (string, string) -> bool): (r: Partition<V>)
    ensures r.existing == ByKeysInTransaction(p, c, db, Some(keys))
    ensures forall k :: k in r.missing <==>
      k in keys && forall j :: 0 <= j < |r.existing| ==> !same(p.identifier(r.existing[j]), k)
  {
    Connection.Read(db, t =>
      var existing := ReadKeys(p, c, t, keys);
      var existingKeys := Identifiers(p, existing);
      Partition(existing, Filter(keys, NotIn(same, existingKeys))))
  }

  /** How `filterExisting` computes `missing` from what it found. */
  lemma FilterExistingMissingIsFilter<V, O>(p: Persistable<V>, c: Codec<V, O>, db: Store<O>, keys: seq<string>, same: (string, string) -> bool)
    ensures var r := FilterExisting(p, c, db, keys, same);
      r.missing == Filter(keys, NotIn(same, Identifiers(p, r.existing)))
  {
  }

  /** `missing` is the sub-sequence of `keys` that equal no identifier of an existing item, in
      input order: its j-th element is `keys[ps[j]]`, where `ps` lists exactly those positions
      in increasing order. */
  lemma FilterExistingMissingInOrder<V, O>(p: Persistable<V>, c: Codec<V, O>, db: Store<O>, keys: seq<string>, same: (string, string) -> bool)
    ensures var r := FilterExisting(p, c, db, keys, same);
      var ids := Identifiers(p, r.existing);
      var ps := SomePositions(keys, Keep(NotIn(same, ids)));
      && |r.missing| == |ps|
      && (forall q :: q in ps <==> 0 <= q < |keys| && forall i :: 0 <= i < |ids| ==> !same(ids[i], keys[q]))
      && (forall j :: 0 <= j < |ps| ==> r.missing[j] == keys[ps[j]])
  {
    var r := FilterExisting(p, c, db, keys, same);
    FilterInOrder(keys, NotIn(same, Identifiers(p, r.existing)));
  }

  /** A store is well keyed for a type when every record of its collection that decodes was
      stored under the decoded value's own identifier — what `write` and `on` maintain. */
  ghost predicate WellKeyed<V, O>(p: Persistable<V>, c: Codec<V, O>, s: Store<O>) {
    forall i :: i in s && i.collection == p.collection && c.decode(s[i].obj).Some? ==>
      p.identifier(c.decode(s[i].obj).value) == i.key
  }

  /** In a well-keyed store, a key is reported missing exactly when it was asked for and no
      asked-for key that `same` equates with it reads an item. */
  lemma FilterExistingMissingIffUnread<V, O>(p: Persistable<V>, c: Codec<V, O>, db: Store<O>, keys: seq<string>, same: (string, string) -> bool)
    requires WellKeyed(p, c, db)
    ensures forall k :: k in FilterExisting(p, c, db, keys, same).missing <==>
      k in keys && forall k' :: k' in keys && same(k', k) ==> InTransactionByKey(p, c, db, k').None?
  {
    var r := FilterExisting(p, c, db, keys, same);
    assert r.existing == ReadKeys(p, c, db, keys);
    forall k | k in keys
      ensures k in r.missing <==> forall k' :: k' in keys && same(k', k) ==> InTransactionByKey(p, c, db, k').None?
    {
      if k in r.missing {
        forall k' | k' in keys && same(k', k) ensures InTransactionByKey(p, c, db, k').None? {
          if InTransactionByKey(p, c, db, k').Some? {
            ReadKeyIsFound(p, c, db, keys, k');
          }
        }
      } else {
        var j :| 0 <= j < |r.existing| && same(p.identifier(r.existing[j]), k);
        FoundItemIsReadAtItsKey(p, c, db, keys, j);
      }
    }
  }

  /** Under comparison by code point, a key is reported missing exactly when it was asked for and
      reading it yields none, in a well-keyed store. */
  lemma FilterExistingMissingIffUnreadByCodePoints<V, O>(p: Persistable<V>, c: Codec<V, O>, db: Store<O>, keys: seq<string>)
    requires WellKeyed(p, c, db)
    ensures forall k :: k in FilterExisting(p, c, db, keys, Strings.CodePoints()).missing <==>
      k in keys && InTransactionByKey(p, c, db, k).None?
  {
    FilterExistingMissingIffUnread(p, c, db, keys, Strings.CodePoints());
  }

  /** A key whose read succeeds is the identifier of an item found, in a well-keyed store. */
  lemma ReadKeyIsFound<V, O>(p: Persistable<V>, c: Codec<V, O>, db: Store<O>, keys: seq<string>, k: string)
    requires WellKeyed(p, c, db)
    requires k in keys && InTransactionByKey(p, c, db, k).Some?
    ensures exists j :: 0 <= j < |ReadKeys(p, c, db, keys)| && p.identifier(ReadKeys(p, c, db, keys)[j]) == k
  {
    var found := ReadKeys(p, c, db, keys);
    var v := InTransactionByKey(p, c, db, k).value;
    var i :| 0 <= i < |keys| && keys[i] == k;
    assert v in found;
    var j :| 0 <= j < |found| && found[j] == v;
    assert Index(p.collection, k) in db;
  }

  /** Every item found is what reading its own identifier yields, and that identifier is one of
      the keys asked for, in a well-keyed store. */
  lemma FoundItemIsReadAtItsKey<V, O>(p: Persistable<V>, c: Codec<V, O>, db: Store<O>, keys: seq<string>, j: int)
    requires WellKeyed(p, c, db)
    requires 0 <= j < |ReadKeys(p, c, db, keys)|
    ensures var v := ReadKeys(p, c, db, keys)[j];
      p.identifier(v) in keys && InTransactionByKey(p, c, db, p.identifier(v)) == Some(v)
  {
    var found := ReadKeys(p, c, db, keys);
    var i :| 0 <= i < |keys| && InTransactionByKey(p, c, db, keys[i]) == Some(found[j]);
    assert Index(p.collection, keys[i]) in db;
  }

  /** The key test `filterExisting` evidently intends: a key is missing when reading it yields
      none. */
  function Unread<V, O>(p: Persistable<V>, c: Codec<V, O>, s: Store<O>): (unread: string -> bool)
    ensures forall key :: unread(key) <==>
      Index(p.collection, key) !in s || c.decode(s[Index(p.collection, key)].obj).None?
  {
    key => InTransactionByKey(p, c, s, key).None?
  }

  /** `filterExisting` with `missing` decided by reading each key rather than by comparing it
      with the identifiers found: the items found at `keys`, and the keys, in input order, whose
      read yields none. */
  function FilterExistingByReads<V, O>(p: Persistable<V>, c: Codec<V, O>, db: Store<O>, keys: seq<string>): (r: Partition<V>)
    ensures r.existing == ByKeysInTransaction(p, c, db, Some(keys))
    ensures forall k :: k in r.missing <==> k in keys && InTransactionByKey(p, c, db, k).None?
  {
    Connection.Read(db, t => Partition(ReadKeys(p, c, t, keys), Filter(keys, Unread(p, c, t))))
  }

  /** In a well-keyed store and under comparison by code point, `filterExisting` as written and
      the read-based version give the same partition. */
  lemma FilterExistingByReadsAgrees<V, O>(p: Persistable<V>, c: Codec<V, O>, db: Store<O>, keys: seq<string>)
    requires WellKeyed(p, c, db)
    ensures FilterExisting(p, c, db, keys, Strings.CodePoints()) == FilterExistingByReads(p, c, db, keys)
  {
    var same := Strings.CodePoints();
    var r := FilterExisting(p, c, db, keys, same);
    var ids := Identifiers(p, r.existing);
    FilterExistingMissingIffUnreadByCodePoints(p, c, db, keys);
    forall i | 0 <= i < |keys| ensures NotIn(same, ids)(keys[i]) == Unread(p, c, db)(keys[i]) {
      assert NotIn(same, ids)(keys[i]) <==> keys[i] in r.missing;
    }
    FilterCongruent(keys, NotIn(same, ids), Unread(p, c, db));
    FilterExistingMissingIsFilter(p, c, db, keys, same);
  }

  /** As written, `filterExisting` can leave out of `missing` a key that reads nothing: when the
      store holds an item under the precomposed "é" and both spellings are asked for, Swift's
      `==` equates the decomposed spelling with the identifier found, so nothing is reported
      missing, while the read-based version reports the decomposed spelling. */
  lemma EquivalentSpellingNotMissing<V, O>(p: Persistable<V>, c: Codec<V, O>, db: Store<O>, a: V, same: (string, string) -> bool)
    requires Strings.Reflexive(same) && same(Strings.Precomposed, Strings.Decomposed)
    requires p.identifier(a) == Strings.Precomposed
    requires InTransactionByKey(p, c, db, Strings.Precomposed) == Some(a)
    requires InTransactionByKey(p, c, db, Strings.Decomposed) == None
    ensures FilterExisting(p, c, db, [Strings.Precomposed, Strings.Decomposed], same) == Partition([a], [])
    ensures FilterExistingByReads(p, c, db, [Strings.Precomposed, Strings.Decomposed]) == Partition([a], [Strings.Decomposed])
  {
    var keys := [Strings.Precomposed, Strings.Decomposed];
    FlatMapOfTwo(keys, ByKeyReader(p, c, db));
    assert ReadKeys(p, c, db, keys) == [a];
    assert Identifiers(p, [a]) == [keys[0]];
    MissingOfTwo(keys, same);
    FilterExistingMissingIsFilter(p, c, db, keys, same);
    UnreadOfTwo(p, c, db, keys);
  }

  lemma MissingOfTwo(keys: seq<string>, same: (string, string) -> bool)
    requires Strings.Reflexive(same)
    requires |keys| == 2 && same(keys[0], keys[1])
    ensures Filter(keys, NotIn(same, [keys[0]])) == []
  {
    var keep := Keep(NotIn(same, [keys[0]]));
    FlatMapOfTwo(keys, keep);
    assert same(keys[0], keys[0]);
    assert keep(keys[0]) == None && keep(keys[1]) == None;
  }

  lemma UnreadOfTwo<V, O>(p: Persistable<V>, c: Codec<V, O>, db: Store<O>, keys: seq<string>)
    requires |keys| == 2
    requires InTransactionByKey(p, c, db, keys[0]).Some? && InTransactionByKey(p, c, db, keys[1]).None?
    ensures Filter(keys, Unread(p, c, db)) == [keys[1]]
  {
    var keep := Keep(Unread(p, c, db));
    FlatMapOfTwo(keys, keep);
    assert keep(keys[0]) == None && keep(keys[1]) == Some(keys[1]);
  }

  /** Writing two items with distinct identifiers with `on`, then asking `filterExisting` for
      their identifiers around a key that names no record and that `same` equates with neither
      identifier, finds both items and reports only that key missing. */
  lemma OnTwoThenFilterExisting<V(!new), O>(p: Persistable<V>, c: Codec<V, O>, s: Store<O>, a: V, b: V, k: string, same: (string, string) -> bool)
    requires RoundTrips(c) && Strings.Reflexive(same)
    requires p.identifier(a) != p.identifier(b)
    requires k != p.identifier(a) && k != p.identifier(b) && Index(p.collection, k) !in s
    requires !same(p.identifier(a), k) && !same(p.identifier(b), k)
    ensures FilterExisting(p, c, On(p, c, s, [a, b]), [p.identifier(a), k, p.identifier(b)], same) == Partition([a, b], [k])
  {
    var keys := [p.identifier(a), k, p.identifier(b)];
    OnTwoReads(p, c, s, a, b, k);
    FilterExistingOfThree(p, c, On(p, c, s, [a, b]), keys, a, b, same);
  }

  lemma OnTwoReads<V(!new), O>(p: Persistable<V>, c: Codec<V, O>, s: Store<O>, a: V, b: V, k: string)
    requires RoundTrips(c) && p.identifier(a) != p.identifier(b)
    requires k != p.identifier(a) && k != p.identifier(b) && Index(p.collection, k) !in s
    ensures InTransactionByKey(p, c, On(p, c, s, [a, b]), p.identifier(a)) == Some(a)
    ensures InTransactionByKey(p, c, On(p, c, s, [a, b]), k) == None
    ensures InTransactionByKey(p, c, On(p, c, s, [a, b]), p.identifier(b)) == Some(b)
  {
    var items := [a, b];
    assert items[0] == a && items[1] == b;
    OnReadsBack(p, c, s, items, 0);
    OnReadsBack(p, c, s, items, 1);
    assert Index(p.collection, k) !in On(p, c, s, items);
  }

  /** `filterExisting` over three keys of which the middle one reads nothing and `same` equates
      with neither identifier found: the two items, and the middle key missing. */
  lemma FilterExistingOfThree<V, O>(p: Persistable<V>, c: Codec<V, O>, db: Store<O>, keys: seq<string>, a: V, b: V, same: (string, string) -> bool)
    requires Strings.Reflexive(same)
    requires |keys| == 3 && !same(keys[0], keys[1]) && !same(keys[2], keys[1])
    requires p.identifier(a) == keys[0] && p.identifier(b) == keys[2]
    requires InTransactionByKey(p, c, db, keys[0]) == Some(a)
    requires InTransactionByKey(p, c, db, keys[1]) == None
    requires InTransactionByKey(p, c, db, keys[2]) == Some(b)
    ensures FilterExisting(p, c, db, keys, same) == Partition([a, b], [keys[1]])
  {
    ReadKeysOfThree(p, c, db, keys, a, b);
    var ids := Identifiers(p, [a, b]);
    assert ids == [keys[0], keys[2]];
    MissingOfThree(keys, ids, same);
    FilterExistingMissingIsFilter(p, c, db, keys, same);
  }

  lemma ReadKeysOfThree<V, O>(p: Persistable<V>, c: Codec<V, O>, db: Store<O>, keys: seq<string>, a: V, b: V)
    requires |keys| == 3
    requires InTransactionByKey(p, c, db, keys[0]) == Some(a)
    requires InTransactionByKey(p, c, db, keys[1]) == None
    requires InTransactionByKey(p, c, db, keys[2]) == Some(b)
    ensures ReadKeys(p, c, db, keys) == [a, b]
  {
    FlatMapOfThree(keys, ByKeyReader(p, c, db));
  }

  lemma MissingOfThree(keys: seq<string>, ids: seq<string>, same: (string, string) -> bool)
    requires Strings.Reflexive(same)
    requires |keys| == 3 && ids == [keys[0], keys[2]]
    requires !same(keys[0], keys[1]) && !same(keys[2], keys[1])
    ensures Filter(keys, NotIn(same, ids)) == [keys[1]]
  {
    var keep := Keep(NotIn(same, ids));
    FlatMapOfThree(keys, keep);
    assert same(ids[0], keys[0]) && same(ids[1], keys[2]);
    assert keep(keys[0]) == None && keep(keys[1]) == Some(keys[1]) && keep(keys[2]) == None;
  }

  // Connection-level readers: each runs the transaction-level reader in one transaction.

  function AtIndex<V, O>(p: Persistable<V>, c: Codec<V, O>, db: Store<O>, index: Index): (r: Option<V>)
    ensures r == InTransactionAtIndex(p, c, db, index)
  {
    Connection.Read(db, t => InTransactionAtIndex(p, c, t, index))
  }

  function AtIndexes<V, O>(p: Persistable<V>, c: Codec<V, O>, db: Store<O>, indexes: seq<Index>): (r: seq<V>)
    ensures r == AtIndexesInTransaction(p, c, db, indexes)
  {
    Connection.Read(db, t => AtIndexesInTransaction(p, c, t, indexes))
  }

  function ByKey<V, O>(p: Persistable<V>, c: Codec<V, O>, db: Store<O>, key: string): (r: Option<V>)
    ensures r == InTransactionAtIndex(p, c, db, IndexWithKey(p, key))
  {
    Connection.Read(db, t => InTransactionByKey(p, c, t, key))
  }

  ghost function ByKeys<V, O>(p: Persistable<V>, c: Codec<V, O>, db: Store<O>, keys: seq<string>): (r: seq<V>)
    ensures r == ReadKeys(p, c, db, keys)
  {
    Connection.Read(db, t => ByKeysInTransaction(p, c, t, Some(keys)))
  }

  ghost function All<V, O>(p: Persistable<V>, c: Codec<V, O>, db: Store<O>): (r: seq<V>)
    ensures r == ByKeysInTransaction(p, c, db, None)
  {
    Connection.Read(db, t => ByKeysInTransaction(p, c, t, None))
  }

  // Writable

  /** The record `on` writes for an item: its encoding, with no metadata. */
  function PlainRecord<V, O>(c: Codec<V, O>, item: V): Record<O> {
    Record(c.encode(item), None)
  }

  /** `on(transaction)`: `items.forEach { writeAtIndex($0.index, object: $0.encoded, metadata: .None) }`.
      Afterwards the store holds records at the old indexes and the items' only; an item that no
      later item shares an index with is stored encoded with no metadata; every other index keeps
      its record. */
  function On<V, O>(p: Persistable<V>, c: Codec<V, O>, s: Store<O>, items: seq<V>): (s': Store<O>)
    ensures s'.Keys == s.Keys + set j | 0 <= j < |items| :: IndexOf(p, items[j])
    ensures forall j :: 0 <= j < |items| && (forall k :: j < k < |items| ==> IndexOf(p, items[k]) != IndexOf(p, items[j])) ==>
      s'[IndexOf(p, items[j])] == Record(c.encode(items[j]), None)
    ensures forall i :: i in s && (forall j :: 0 <= j < |items| ==> IndexOf(p, items[j]) != i) ==> s'[i] == s[i]
    ensures forall i :: i in s' ==>
      || (i in s && s'[i] == s[i])
      || exists j :: 0 <= j < |items| && IndexOf(p, items[j]) == i && s'[i] == Record(c.encode(items[j]), None)
  {
    var index, record := v => IndexOf(p, v), v => PlainRecord(c, v);
    var s' := WriteAll(s, items, index, record);
    assert Named(items, index) == set j | 0 <= j < |items| :: IndexOf(p, items[j]);
    assert forall j :: 0 <= j < |items| && (forall k :: j < k < |items| ==> IndexOf(p, items[k]) != IndexOf(p, items[j])) ==>
      s'[IndexOf(p, items[j])] == Record(c.encode(items[j]), None) by {
      forall j | 0 <= j < |items| && (forall k :: j < k < |items| ==> IndexOf(p, items[k]) != IndexOf(p, items[j]))
        ensures IndexOf(p, items[j]) in s' && s'[IndexOf(p, items[j])] == Record(c.encode(items[j]), None)
      {
        assert LastAt(items, index, j);
      }
    }
    s'
  }

  /** `sync(connection)`: `connection.write(on)`. */
  function SyncOn<V, O>(p: Persistable<V>, c: Codec<V, O>, db: Store<O>, items: seq<V>): (db': Store<O>)
    ensures db' == On(p, c, db, items)
  {
    Connection.Write(db, t => On(p, c, t, items))
  }

  /** `on` keeps a store well keyed, given the codec round-trips. */
  lemma OnPreservesWellKeyed<V(!new), O>(p: Persistable<V>, c: Codec<V, O>, s: Store<O>, items: seq<V>)
    requires RoundTrips(c)
    requires WellKeyed(p, c, s)
    ensures WellKeyed(p, c, On(p, c, s, items))
  {
    var s' := On(p, c, s, items);
    forall i | i in s' && i.collection == p.collection && c.decode(s'[i].obj).Some?
      ensures p.identifier(c.decode(s'[i].obj).value) == i.key
    {
      if !(i in s && s'[i] == s[i]) {
        var j :| 0 <= j < |items| && IndexOf(p, items[j]) == i && s'[i] == Record(c.encode(items[j]), None);
        assert c.decode(c.encode(items[j])) == Some(items[j]);
      }
    }
  }

  /** Writing distinct items with `on` and then asking `filterExisting` for their identifiers
      finds every item, in order, and reports nothing missing. */
  lemma OnThenFilterExisting<V(!new), O>(p: Persistable<V>, c: Codec<V, O>, s: Store<O>, items: seq<V>, same: (string, string) -> bool)
    requires RoundTrips(c)
    requires DistinctIdentifiers(p, items)
    requires Strings.Reflexive(same)
    ensures FilterExisting(p, c, On(p, c, s, items), Identifiers(p, items), same).existing == items
    ensures forall k :: k !in FilterExisting(p, c, On(p, c, s, items), Identifiers(p, items), same).missing
  {
    var s' := On(p, c, s, items);
    var keys := Identifiers(p, items);
    OnThenReadKeys(p, c, s, items);
    forall i | 0 <= i < |keys|
      ensures InTransactionByKey(p, c, s', keys[i]).Some? && p.identifier(InTransactionByKey(p, c, s', keys[i]).value) == keys[i]
    {
      OnReadsBack(p, c, s, items, i);
    }
    NothingMissing(p, c, s', keys, same);
  }

  /** When every key reads back an item carrying that key, `filterExisting` misses nothing. */
  lemma NothingMissing<V, O>(p: Persistable<V>, c: Codec<V, O>, db: Store<O>, keys: seq<string>, same: (string, string) -> bool)
    requires Strings.Reflexive(same)
    requires forall i :: 0 <= i < |keys| ==>
      InTransactionByKey(p, c, db, keys[i]).Some? && p.identifier(InTransactionByKey(p, c, db, keys[i]).value) == keys[i]
    ensures forall k :: k !in FilterExisting(p, c, db, keys, same).missing
  {
    var r := FilterExisting(p, c, db, keys, same);
    assert r.existing == ReadKeys(p, c, db, keys);
    forall i | 0 <= i < |keys|
      ensures exists j :: 0 <= j < |r.existing| && same(p.identifier(r.existing[j]), keys[i])
    {
      var v := InTransactionByKey(p, c, db, keys[i]).value;
      assert v in r.existing;
      assert same(keys[i], keys[i]);
    }
  }

  /** After `on` with distinct items, reading an item's identifier gives the item. */
  lemma OnReadsBack<V(!new), O>(p: Persistable<V>, c: Codec<V, O>, s: Store<O>, items: seq<V>, j: int)
    requires RoundTrips(c)
    requires DistinctIdentifiers(p, items)
    requires 0 <= j < |items|
    ensures InTransactionByKey(p, c, On(p, c, s, items), p.identifier(items[j])) == Some(items[j])
  {
    var s' := On(p, c, s, items);
    assert s'[IndexOf(p, items[j])] == Record(c.encode(items[j]), None);
    assert c.decode(c.encode(items[j])) == Some(items[j]);
  }

  /** After `on` with distinct items, reading their identifiers gives the items, in order. */
  lemma OnThenReadKeys<V(!new), O>(p: Persistable<V>, c: Codec<V, O>, s: Store<O>, items: seq<V>)
    requires RoundTrips(c)
    requires DistinctIdentifiers(p, items)
    ensures ReadKeys(p, c, On(p, c, s, items), Identifiers(p, items)) == items
  {
    var s' := On(p, c, s, items);
    var keys := Identifiers(p, items);
    var read := ByKeyReader(p, c, s');
    forall j | 0 <= j < |keys| ensures read(keys[j]) == Some(items[j]) {
      OnReadsBack(p, c, s, items, j);
    }
    FlatMapAllSome(keys, read);
  }
}
