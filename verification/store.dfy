/** The key-value store underneath the extensions, seen through one transaction: a finite map
    from (collection, key) indexes to records. Only the primitives the typed helpers call are
    modelled — `readAtIndex`, `readMetadataAtIndex`, `writeAtIndex`, `removeAtIndexes` and
    `keysInCollection` — and the store itself is an assumed abstraction. */
module Database {
  import opened Options
  import opened Seqs

  /** `YapDB.Index`: the address of one record. */
  datatype Index = Index(collection: string, key: string)

  /** What one index holds: the object and the optional metadata object. */
  datatype Record<O> = Record(obj: O, metadata: Option<O>)

  /** The committed state a transaction sees. */
  type Store<O> = map<Index, Record<O>>

  /** The untyped object lookup; none when nothing is stored at `index`. */
  function ObjectAt<O>(s: Store<O>, index: Index): (r: Option<O>)
    ensures r.Some? <==> index in s
    ensures r.Some? ==> r.value == s[index].obj
  {
    if index in s then Some(s[index].obj) else None
  }

  /** The untyped metadata lookup; none when nothing, or no metadata, is stored at `index`. */
  function MetadataAt<O>(s: Store<O>, index: Index): (r: Option<O>)
    ensures index !in s ==> r.None?
    ensures index in s ==> r == s[index].metadata
  {
    if index in s then s[index].metadata else None
  }

  /** `writeAtIndex(index, object:, metadata:)`: creates or replaces the whole record. */
  function WriteAtIndex<O>(s: Store<O>, index: Index, obj: O, metadata: Option<O>): (s': Store<O>)
    ensures s'.Keys == s.Keys + {index}
    ensures s'[index] == Record(obj, metadata)
    ensures forall i :: i in s && i != index ==> s'[i] == s[i]
  {
    s[index := Record(obj, metadata)]
  }

  /** `removeAtIndexes(indexes)`: deletes every named record; an index that holds nothing is
      skipped. */
  function RemoveAtIndexes<O>(s: Store<O>, indexes: seq<Index>): (s': Store<O>)
    ensures s'.Keys == s.Keys - set i | i in indexes
    ensures forall i :: i in s' ==> s'[i] == s[i]
  {
    s - set i | i in indexes
  }

  /** Some enumeration of a finite set, each element once. */
  ghost function Enumerate(xs: set<string>): (r: seq<string>)
    ensures forall x :: x in r <==> x in xs
    ensures Distinct(r)
  {
    if xs == {} then []
    else
      var x :| x in xs;
      [x] + Enumerate(xs - {x})
  }

  /** `keysInCollection(collection)`: every key under which `collection` holds a record, each
      once. The store does not promise an order, so the model fixes none. */
  ghost function KeysInCollection<O>(s: Store<O>, collection: string): (keys: seq<string>)
    ensures forall k :: k in keys <==> Index(collection, k) in s
    ensures Distinct(keys)
  {
    var ks := set i | i in s && i.collection == collection :: i.key;
    assert forall k :: k in ks <==> Index(collection, k) in s by {
      forall k ensures k in ks <==> Index(collection, k) in s {
        if Index(collection, k) in s {
          assert Index(collection, k).key == k;
        }
      }
    }
    Enumerate(ks)
  }

  /** The indexes a batch of writes names. */
  ghost function Named<X>(xs: seq<X>, index: X -> Index): set<Index> {
    set j | 0 <= j < |xs| :: index(xs[j])
  }

  /** No element after position `j` of `xs` is written to the same index as `xs[j]`. */
  ghost predicate LastAt<X>(xs: seq<X>, index: X -> Index, j: int)
    requires 0 <= j < |xs|
  {
    forall k :: j < k < |xs| ==> index(xs[k]) != index(xs[j])
  }

  /** Every index that the batch does not name keeps its record. */
  ghost predicate Untouched<X, O>(s: Store<O>, xs: seq<X>, index: X -> Index, s': Store<O>) {
    forall i :: i in s && i !in Named(xs, index) ==> i in s' && s'[i] == s[i]
  }

  /** The last write to an index is the record it holds. */
  ghost predicate LastWins<X, O>(xs: seq<X>, index: X -> Index, record: X -> Record<O>, s': Store<O>) {
    forall j :: 0 <= j < |xs| && LastAt(xs, index, j) ==> index(xs[j]) in s' && s'[index(xs[j])] == record(xs[j])
  }

  /** Every record held afterwards was held before or was written by the batch. */
  ghost predicate FromBatch<X, O>(s: Store<O>, xs: seq<X>, index: X -> Index, record: X -> Record<O>, s': Store<O>) {
    forall i :: i in s' ==>
      || (i in s && s'[i] == s[i])
      || exists j :: 0 <= j < |xs| && index(xs[j]) == i && s'[i] == record(xs[j])
  }

  /** `xs.forEach { writeAtIndex(index($0), record($0)) }` within one transaction: afterwards
      the store holds a record at exactly the old indexes and the written ones, the last write
      to an index wins, and an index that nothing wrote to keeps its old record. */
  function WriteAll<X, O>(s: Store<O>, xs: seq<X>, index: X -> Index, record: X -> Record<O>): (s': Store<O>)
    ensures s'.Keys == s.Keys + Named(xs, index)
    ensures Untouched(s, xs, index, s')
    ensures LastWins(xs, index, record, s')
    ensures FromBatch(s, xs, index, record, s')
    decreases |xs|
  {
    if |xs| == 0 then s
    else
      var r := record(xs[0]);
      var w := WriteAtIndex(s, index(xs[0]), r.obj, r.metadata);
      var s' := WriteAll(w, xs[1..], index, record);
      WriteAllStep(s, xs, index, record, s');
      s'
  }

  /** One step of `WriteAll`: the contract for `xs` from the contract for its tail, written
      after the head. */
  lemma WriteAllStep<X, O>(s: Store<O>, xs: seq<X>, index: X -> Index, record: X -> Record<O>, s': Store<O>)
    requires |xs| > 0
    requires var w := WriteAtIndex(s, index(xs[0]), record(xs[0]).obj, record(xs[0]).metadata);
      && s'.Keys == w.Keys + Named(xs[1..], index)
      && Untouched(w, xs[1..], index, s')
      && LastWins(xs[1..], index, record, s')
      && FromBatch(w, xs[1..], index, record, s')
    ensures s'.Keys == s.Keys + Named(xs, index)
    ensures Untouched(s, xs, index, s')
    ensures LastWins(xs, index, record, s')
    ensures FromBatch(s, xs, index, record, s')
  {
    var w := WriteAtIndex(s, index(xs[0]), record(xs[0]).obj, record(xs[0]).metadata);
    NamedCons(xs, index);
    forall j | 1 <= j < |xs| && LastAt(xs, index, j)
      ensures index(xs[j]) in s' && s'[index(xs[j])] == record(xs[j])
    {
      assert xs[1..][j - 1] == xs[j];
      assert LastAt(xs[1..], index, j - 1);
    }
    if LastAt(xs, index, 0) {
      assert index(xs[0]) !in Named(xs[1..], index);
    }
    forall i | i in s'
      ensures || (i in s && s'[i] == s[i])
              || exists j :: 0 <= j < |xs| && index(xs[j]) == i && s'[i] == record(xs[j])
    {
      if !(i in w && s'[i] == w[i]) {
        var j' :| 0 <= j' < |xs[1..]| && index(xs[1..][j']) == i && s'[i] == record(xs[1..][j']);
        assert index(xs[j' + 1]) == i && s'[i] == record(xs[j' + 1]);
      } else if i == index(xs[0]) {
        assert s'[i] == record(xs[0]);
      }
    }
  }

  lemma NamedCons<X>(xs: seq<X>, index: X -> Index)
    requires |xs| > 0
    ensures Named(xs, index) == {index(xs[0])} + Named(xs[1..], index)
  {
    forall i | i in Named(xs, index) ensures i in {index(xs[0])} + Named(xs[1..], index) {
      var j :| 0 <= j < |xs| && index(xs[j]) == i;
      if j > 0 {
        assert xs[1..][j - 1] == xs[j];
      }
    }
    forall i | i in Named(xs[1..], index) ensures i in Named(xs, index) {
      var j :| 0 <= j < |xs[1..]| && index(xs[1..][j]) == i;
      assert xs[j + 1] == xs[1..][j];
    }
  }
}
