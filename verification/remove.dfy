/** `remove(item)` and `remove(items)`: deleting the records at values' indexes, inside a write
    transaction or through a connection. Only `Persistable` is needed: no value is decoded. */
module Remove {
  import opened Database
  import opened Coding
  import Connection
  import ValueWithValueMetadata
  import ValueWithNoMetadata

  /** `remove(item)`: `removeAtIndexes([item.index])`. */
  function RemoveItem<V, O>(p: Persistable<V>, s: Store<O>, item: V): (s': Store<O>)
    ensures s'.Keys == s.Keys - {IndexOf(p, item)}
    ensures forall i :: i in s' ==> s'[i] == s[i]
  {
    RemoveAtIndexes(s, [IndexOf(p, item)])
  }

  /** `remove(items)`: `removeAtIndexes(items.map { $0.index })`. */
  function RemoveItems<V, O>(p: Persistable<V>, s: Store<O>, items: seq<V>): (s': Store<O>)
    ensures s'.Keys == s.Keys - set j | 0 <= j < |items| :: IndexOf(p, items[j])
    ensures forall i :: i in s' ==> s'[i] == s[i]
  {
    var indexes := seq(|items|, j requires 0 <= j < |items| => IndexOf(p, items[j]));
    assert (set i | i in indexes) == set j | 0 <= j < |items| :: IndexOf(p, items[j]) by {
      forall i | i in indexes ensures i in set j | 0 <= j < |items| :: IndexOf(p, items[j]) {
        var j :| 0 <= j < |indexes| && indexes[j] == i;
      }
      forall j | 0 <= j < |items| ensures IndexOf(p, items[j]) in indexes {
        assert indexes[j] == IndexOf(p, items[j]);
      }
    }
    RemoveAtIndexes(s, indexes)
  }

  /** The connection's `remove(item)`: the transaction-level removal in one write transaction. */
  function SyncRemoveItem<V, O>(p: Persistable<V>, db: Store<O>, item: V): (db': Store<O>)
    ensures db' == RemoveItem(p, db, item)
  {
    Connection.Write(db, t => RemoveItem(p, t, item))
  }

  /** The connection's `remove(items)`: the transaction-level removal in one write transaction. */
  function SyncRemoveItems<V, O>(p: Persistable<V>, db: Store<O>, items: seq<V>): (db': Store<O>)
    ensures db' == RemoveItems(p, db, items)
  {
    Connection.Write(db, t => RemoveItems(p, t, items))
  }

  /** Removing twice leaves the same store as removing once. */
  lemma RemoveItemIdempotent<V, O>(p: Persistable<V>, s: Store<O>, item: V)
    ensures RemoveItem(p, RemoveItem(p, s, item), item) == RemoveItem(p, s, item)
  {
  }

  lemma RemoveItemsIdempotent<V, O>(p: Persistable<V>, s: Store<O>, items: seq<V>)
    ensures RemoveItems(p, RemoveItems(p, s, items), items) == RemoveItems(p, s, items)
  {
  }

  /** Removing a value whose index holds nothing leaves the store unchanged. */
  lemma RemoveAbsentIsNoOp<V, O>(p: Persistable<V>, s: Store<O>, item: V)
    requires IndexOf(p, item) !in s
    ensures RemoveItem(p, s, item) == s
  {
  }

  /** Removing a batch is removing its values one at a time, in order. */
  lemma RemoveItemsOneByOne<V, O>(p: Persistable<V>, s: Store<O>, items: seq<V>)
    ensures |items| > 0 ==>
      RemoveItems(p, s, items) == RemoveItems(p, RemoveItem(p, s, items[0]), items[1..])
  {
    if |items| > 0 {
      var named := set j | 0 <= j < |items| :: IndexOf(p, items[j]);
      var rest := set j | 0 <= j < |items[1..]| :: IndexOf(p, items[1..][j]);
      assert named == {IndexOf(p, items[0])} + rest by {
        forall i | i in named ensures i in {IndexOf(p, items[0])} + rest {
          var j :| 0 <= j < |items| && IndexOf(p, items[j]) == i;
          if j > 0 {
            assert items[1..][j - 1] == items[j];
          }
        }
        forall i | i in rest ensures i in named {
          var j :| 0 <= j < |items[1..]| && IndexOf(p, items[1..][j]) == i;
          assert items[j + 1] == items[1..][j];
        }
      }
    }
  }

  /** After `remove(item)`, reading at the item's index yields none, with or without metadata. */
  lemma RemoveThenRead<V, M, O>(p: Persistable<V>, c: Codec<V, O>, m: Metadata<V, M, O>, s: Store<O>, item: V)
    ensures ValueWithValueMetadata.ReadAtIndex(p, c, m, RemoveItem(p, s, item), IndexOf(p, item)).None?
    ensures ValueWithNoMetadata.InTransactionAtIndex(p, c, RemoveItem(p, s, item), IndexOf(p, item)).None?
  {
  }

  /** After `remove(items)`, reading at any of the items' indexes yields none. */
  lemma RemoveItemsThenRead<V, O>(p: Persistable<V>, c: Codec<V, O>, s: Store<O>, items: seq<V>)
    ensures forall j :: 0 <= j < |items| ==>
      ValueWithNoMetadata.InTransactionAtIndex(p, c, RemoveItems(p, s, items), IndexOf(p, items[j])).None?
  {
  }

  /** Removal keeps a store well keyed. */
  lemma RemoveItemsPreservesWellKeyed<V, O>(p: Persistable<V>, c: Codec<V, O>, s: Store<O>, items: seq<V>)
    requires ValueWithNoMetadata.WellKeyed(p, c, s)
    ensures ValueWithNoMetadata.WellKeyed(p, c, RemoveItems(p, s, items))
  {
  }
}
