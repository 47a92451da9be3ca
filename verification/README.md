# YapDatabaseExtensions typed record store, and the Events example's codec and views

This project is a Dafny model of two things:

- The typed read, write and remove helpers of YapDatabaseExtensions, as used by TaylorSource.
- The concrete `Event` model of the Events example: its codec and its view predicates.

YapDatabase stores objects and optional metadata objects under an index, which is a pair (collection, key). The extensions layer typed access on top of this:

- A value type says which collection it lives in and what its identifier is (`Persistable`).
- It also says how it becomes a stored object and back (`ValueCoding`).
- It may carry a coded `metadata` property.

The helpers built on top work as follows:

- They encode a value before writing it.
- On read, they decode the object and attach the metadata stored at the same index.
- Batch reads silently drop indexes that hold nothing or do not decode (`flatMap`).
- `filterExisting` splits a key list into the items found and the keys missing.
- `remove` deletes the records at the values' indexes.
- Each helper exists inside a transaction and as a synchronous connection call that runs it in one transaction.

The store is an assumed abstraction, seen through one transaction:

- It is an immutable `map<Index, Record<O>>`.
- `writeAtIndex` is a map update.
- `removeAtIndexes` is key removal.
- `keysInCollection` is some enumeration of the keys of one collection.
- A codec is a pair of functions. Its round-trip law is the `RoundTrips` predicate, which lemmas take as a precondition.
- The metadata property is a lens (`get`/`put`) with its own codec. `Lawful` bundles both codecs' round trips with the lens laws.
- Swift compares strings by Unicode canonical equivalence, while the store looks keys up by their exact code points. Where the code compares keys with Swift's `==` (`filterExisting`, `Event ==`), that equality is a parameter `same` of the model. A statement assumes of it only what it needs: that every string equals itself, or that it equates the two spellings of "é".

The Events example adds these pieces:

- A concrete `Color` to integer `Kind` mapping (1, 2, 3).
- The two NSCoding coders, modelled on the keyed fields they archive. Every `fatalError` and force-unwrap of nil becomes an explicit `Fatal` result.
  A store-level decode failure reads as an absent item. The Events coders behave differently: an archive with an unknown colour kind, or with a missing or mistyped field, ends the process rather than decoding to none. The model follows the code here.
- The object-level codec the store sees: `(object as? EventCoder)?.value`.
- The grouping and filtering closures of the `events` and `eventsWithColor` views.

Modules:

- `Options`: the `Option` type.
- `Strings`: the string equality parameter, comparison by code point, and the two spellings of "é".
- `Seqs`: `flatMap` over an Optional-returning closure, and `filter`, with order-preservation lemmas.
- `Database`: the store and its primitives, plus `WriteAll`, the in-order fold of `writeAtIndex` that batch writes use.
- `Coding`: codecs, `Persistable`, indexes and metadata.
- `Connection`: synchronous read and write blocks.
- `ValueWithValueMetadata`: Functional_ValueWIthValueMetadata.swift.
- `ValueWithNoMetadata`: Persistable_ValueWithNoMetadata.swift.
- `Remove`: Functional_Remove.swift.
- `Events` and `EventViews`: Models.swift.

## Model

| member | source | states |
|---|---|---|
| Database.WriteAtIndex | Pods/YapDatabaseExtensions/YapDatabaseExtensions/Shared/Functional/Functional_ValueWIthValueMetadata.swift:221 | writing at an index adds that index, stores exactly the given object and metadata there, and leaves every other record unchanged |
| Database.ObjectAt | Pods/YapDatabaseExtensions/YapDatabaseExtensions/Shared/Functional/Functional_ValueWIthValueMetadata.swift:32 | the untyped object lookup finds an object exactly when the index holds a record, and it is that record's object |
| Database.MetadataAt | Pods/YapDatabaseExtensions/YapDatabaseExtensions/Shared/Functional/Functional_ValueWIthValueMetadata.swift:33 | the untyped metadata lookup is none when the index holds nothing, and otherwise the record's metadata, which may be none |
| Database.RemoveAtIndexes | Pods/YapDatabaseExtensions/YapDatabaseExtensions/Shared/Functional/Functional_Remove.swift:15 | the indexes remaining are the old ones minus those named (an absent one is skipped), and every remaining record is unchanged |
| Database.KeysInCollection | Pods/YapDatabaseExtensions/YapDatabaseExtensions/Shared/Functional/Functional_ValueWIthValueMetadata.swift:107 | a key is listed exactly when the collection holds a record under it, and no key is listed twice |
| Database.WriteAll | Pods/YapDatabaseExtensions/YapDatabaseExtensions/Shared/Functional/Functional_ValueWIthValueMetadata.swift:238 | a batch of writes done in order: the store's indexes become the old ones plus those named; the last write to an index wins; unnamed indexes keep their records; every record afterwards is old or came from the batch |
| Seqs.FlatMap | Pods/YapDatabaseExtensions/YapDatabaseExtensions/Shared/Functional/Functional_ValueWIthValueMetadata.swift:54 | `flatMap` is no longer than its input; each result is some element's present value; each element's present value is among the results |
| Seqs.FlatMapInOrder | Pods/YapDatabaseExtensions/YapDatabaseExtensions/Shared/Functional/Functional_ValueWIthValueMetadata.swift:54 | the j-th result of `flatMap` is the value at the j-th position where the closure succeeds, and those positions are exactly the successes, in increasing order |
| Seqs.FlatMapAllSome | Pods/YapDatabaseExtensions/YapDatabaseExtensions/Shared/Persistable/Persistable_ValueWithNoMetadata.swift:58 | when the closure succeeds everywhere, `flatMap` is a plain map of the same length |
| Seqs.Filter | Pods/YapDatabaseExtensions/YapDatabaseExtensions/Shared/Persistable/Persistable_ValueWithNoMetadata.swift:128 | `filter` keeps only elements satisfying the predicate, and keeps every element that does |
| Seqs.FilterInOrder | Pods/YapDatabaseExtensions/YapDatabaseExtensions/Shared/Persistable/Persistable_ValueWithNoMetadata.swift:128 | the j-th element kept is the input element at the j-th position satisfying the predicate, in input order |
| Seqs.FilterCongruent | Pods/YapDatabaseExtensions/YapDatabaseExtensions/Shared/Persistable/Persistable_ValueWithNoMetadata.swift:128 | two predicates that agree on every element of the input keep the same elements |
| Coding.IndexesWithKeys | Pods/YapDatabaseExtensions/YapDatabaseExtensions/Shared/Functional/Functional_ValueWIthValueMetadata.swift:90 | one index per key, same length and order, each in the type's collection |
| Coding.IndexWithKey | Pods/YapDatabaseExtensions/YapDatabaseExtensions/Shared/Persistable/Persistable_ValueWithNoMetadata.swift:43 | `indexWithKey(key)` is in the type's collection and has exactly `key` as its key |
| Coding.IndexOf | Pods/YapDatabaseExtensions/YapDatabaseExtensions/Shared/Functional/Functional_ValueWIthValueMetadata.swift:221 | `item.index` is the index whose key is the item's identifier |
| ValueWithValueMetadata.ReadAtIndex | Pods/YapDatabaseExtensions/YapDatabaseExtensions/Shared/Functional/Functional_ValueWIthValueMetadata.swift:32-36 | none when the index holds nothing; otherwise an item exactly when the stored object decodes, and then it is the decoded object with its metadata set to the metadata read at the same index |
| ValueWithValueMetadata.ReadMetadataAtIndex | Pods/YapDatabaseExtensions/YapDatabaseExtensions/Shared/Functional/Functional_ValueWIthValueMetadata.swift:33 | none when the index holds no record or no metadata; otherwise the metadata codec's decoding of the stored metadata object |
| ValueWithValueMetadata.ReadAtIndexCarriesMetadata | Pods/YapDatabaseExtensions/YapDatabaseExtensions/Shared/Functional/Functional_ValueWIthValueMetadata.swift:32-34 | when reading `metadata` back gives what was assigned, an item read carries as metadata exactly the decoded metadata stored at its index, which may be none |
| ValueWithValueMetadata.ReadAtIndexes | Pods/YapDatabaseExtensions/YapDatabaseExtensions/Shared/Functional/Functional_ValueWIthValueMetadata.swift:54 | at most one item per index; every item is some index's successful read; every successful read is returned |
| ValueWithValueMetadata.ReadAtIndexesInOrder | Pods/YapDatabaseExtensions/YapDatabaseExtensions/Shared/Functional/Functional_ValueWIthValueMetadata.swift:54 | the batch read is the successful single reads in input order, with misses dropped |
| ValueWithValueMetadata.ReadByKey | Pods/YapDatabaseExtensions/YapDatabaseExtensions/Shared/Functional/Functional_ValueWIthValueMetadata.swift:72 | reading by key is reading at (the type's collection, key) |
| ValueWithValueMetadata.ReadByKeys | Pods/YapDatabaseExtensions/YapDatabaseExtensions/Shared/Functional/Functional_ValueWIthValueMetadata.swift:90 | reading at the key-derived indexes is the same as mapping `readByKey` over the keys and dropping misses |
| ValueWithValueMetadata.ReadAll | Pods/YapDatabaseExtensions/YapDatabaseExtensions/Shared/Functional/Functional_ValueWIthValueMetadata.swift:107 | `readAll` is `readByKeys` over some repeat-free listing of exactly the keys the collection holds; so every item is some key's successful read, and every key's successful read is returned |
| ValueWithValueMetadata.ReadByKeysOfCollection | Pods/YapDatabaseExtensions/YapDatabaseExtensions/Shared/Functional/Functional_ValueWIthValueMetadata.swift:107 | reading by a list of exactly the collection's keys returns only successful reads by key, and every successful read by key |
| ValueWithValueMetadata.ReadAllStaysInCollection | Pods/YapDatabaseExtensions/YapDatabaseExtensions/Shared/Functional/Functional_ValueWIthValueMetadata.swift:107 | every item `readAll` returns was read from a record of the type's own collection |
| ValueWithValueMetadata.Write | Pods/YapDatabaseExtensions/YapDatabaseExtensions/Shared/Functional/Functional_ValueWIthValueMetadata.swift:221 | the item's index holds the encoded item, with encoded metadata exactly when it has metadata; every other record is unchanged |
| ValueWithValueMetadata.EncodeRecord | Pods/YapDatabaseExtensions/YapDatabaseExtensions/Shared/Functional/Functional_ValueWIthValueMetadata.swift:221 | the record written for an item holds the encoded item, and its encoded metadata exactly when it has metadata |
| ValueWithValueMetadata.ReadEncodedRecord | Pods/YapDatabaseExtensions/YapDatabaseExtensions/Shared/Functional/Functional_ValueWIthValueMetadata.swift:32-34 | for lawful codecs and metadata, reading a record encoded from an item gives back that item, metadata included |
| ValueWithValueMetadata.WriteThenRead | Pods/YapDatabaseExtensions/YapDatabaseExtensions/Shared/Functional/Functional_ValueWIthValueMetadata.swift:221 | after writing an item, reading at its index yields the item |
| ValueWithValueMetadata.WriteItems | Pods/YapDatabaseExtensions/YapDatabaseExtensions/Shared/Functional/Functional_ValueWIthValueMetadata.swift:238 | the store's indexes become the old ones plus the items'; an item no later item overwrites is stored as `write(item)` stores it; unnamed indexes are unchanged; nothing else is created |
| ValueWithValueMetadata.WriteItemsThenReadAll | Pods/YapDatabaseExtensions/YapDatabaseExtensions/Shared/Functional/Functional_ValueWIthValueMetadata.swift:238 | writing items with distinct identifiers into an empty collection, then reading all, returns exactly the items written |
| ValueWithValueMetadata.WrittenItemIsRead | Pods/YapDatabaseExtensions/YapDatabaseExtensions/Shared/Functional/Functional_ValueWIthValueMetadata.swift:238 | each item of a batch with distinct identifiers is among those read back by `readAll` |
| ValueWithValueMetadata.ReadItemWasWritten | Pods/YapDatabaseExtensions/YapDatabaseExtensions/Shared/Functional/Functional_ValueWIthValueMetadata.swift:238 | when the collection was empty before the batch, every item `readAll` returns afterwards is one of the batch |
| ValueWithValueMetadata.SyncReadAtIndex | Pods/YapDatabaseExtensions/YapDatabaseExtensions/Shared/Functional/Functional_ValueWIthValueMetadata.swift:128 | the connection read equals the transaction read in one transaction |
| ValueWithValueMetadata.SyncReadAtIndexes | Pods/YapDatabaseExtensions/YapDatabaseExtensions/Shared/Functional/Functional_ValueWIthValueMetadata.swift:146 | the connection batch read equals the transaction batch read |
| ValueWithValueMetadata.SyncReadByKey | Pods/YapDatabaseExtensions/YapDatabaseExtensions/Shared/Functional/Functional_ValueWIthValueMetadata.swift:164 | the connection read by key is the transaction read at `indexWithKey(key)` |
| ValueWithValueMetadata.SyncReadByKeys | Pods/YapDatabaseExtensions/YapDatabaseExtensions/Shared/Functional/Functional_ValueWIthValueMetadata.swift:182 | the connection read by keys equals the transaction `readByKeys` |
| ValueWithValueMetadata.SyncReadAll | Pods/YapDatabaseExtensions/YapDatabaseExtensions/Shared/Functional/Functional_ValueWIthValueMetadata.swift:199 | the connection `readAll` equals the transaction `readAll` |
| ValueWithValueMetadata.SyncWrite | Pods/YapDatabaseExtensions/YapDatabaseExtensions/Shared/Functional/Functional_ValueWIthValueMetadata.swift:258 | the connection write commits what `write(item)` does in one transaction |
| ValueWithValueMetadata.SyncWriteItems | Pods/YapDatabaseExtensions/YapDatabaseExtensions/Shared/Functional/Functional_ValueWIthValueMetadata.swift:275 | the connection batch write commits what `write(items)` does in one transaction |
| ValueWithNoMetadata.InTransactionAtIndex | Pods/YapDatabaseExtensions/YapDatabaseExtensions/Shared/Persistable/Persistable_ValueWithNoMetadata.swift:22-24 | none when the index holds nothing; otherwise the decoded stored object |
| ValueWithNoMetadata.AtIndexesInTransaction | Pods/YapDatabaseExtensions/YapDatabaseExtensions/Shared/Persistable/Persistable_ValueWithNoMetadata.swift:34-40 | at most one item per index; every item is some index's successful read; every successful read is returned |
| ValueWithNoMetadata.AtIndexesInTransactionInOrder | Pods/YapDatabaseExtensions/YapDatabaseExtensions/Shared/Persistable/Persistable_ValueWithNoMetadata.swift:39 | the batch read is the successful single reads in input order |
| ValueWithNoMetadata.InTransactionByKey | Pods/YapDatabaseExtensions/YapDatabaseExtensions/Shared/Persistable/Persistable_ValueWithNoMetadata.swift:42-44 | reading by key is reading at (the type's collection, key) |
| ValueWithNoMetadata.ByKeyReader | Pods/YapDatabaseExtensions/YapDatabaseExtensions/Shared/Persistable/Persistable_ValueWithNoMetadata.swift:46-48 | the curried reader maps each key to the read at (the type's collection, key) |
| ValueWithNoMetadata.ReadKeys | Pods/YapDatabaseExtensions/YapDatabaseExtensions/Shared/Persistable/Persistable_ValueWithNoMetadata.swift:58 | at most one item per key; every item is some key's successful read; every successful read is returned |
| ValueWithNoMetadata.ByKeysInTransaction | Pods/YapDatabaseExtensions/YapDatabaseExtensions/Shared/Persistable/Persistable_ValueWithNoMetadata.swift:54-59 | with explicit keys it reads exactly those keys; with none it reads some repeat-free listing of exactly the keys the collection holds, so it returns every successful read of a key of the type's collection, and only those |
| ValueWithNoMetadata.ReadKeysOfCollection | Pods/YapDatabaseExtensions/YapDatabaseExtensions/Shared/Persistable/Persistable_ValueWithNoMetadata.swift:57-58 | reading a list of exactly the collection's keys returns only reads at keys of the collection, and every successful read by key |
| ValueWithNoMetadata.ByKeysInTransactionInOrder | Pods/YapDatabaseExtensions/YapDatabaseExtensions/Shared/Persistable/Persistable_ValueWithNoMetadata.swift:58 | with explicit keys the items come in key order, and keys whose read yields none are dropped |
| ValueWithNoMetadata.Identifiers | Pods/YapDatabaseExtensions/YapDatabaseExtensions/Shared/Persistable/Persistable_ValueWithNoMetadata.swift:127 | one identifier per item, in the same order |
| ValueWithNoMetadata.NotInByCodePoints | Pods/YapDatabaseExtensions/YapDatabaseExtensions/Shared/Persistable/Persistable_ValueWithNoMetadata.swift:128 | under comparison by code point, a key passes exactly when it is not one of the identifiers |
| ValueWithNoMetadata.FilterExisting | Pods/YapDatabaseExtensions/YapDatabaseExtensions/Shared/Persistable/Persistable_ValueWithNoMetadata.swift:123-131 | `existing` is `byKeysInTransaction(keys)` in the same transaction; a key is missing exactly when it was asked for and Swift's `==` equates it with no identifier of an existing item |
| ValueWithNoMetadata.FilterExistingMissingInOrder | Pods/YapDatabaseExtensions/YapDatabaseExtensions/Shared/Persistable/Persistable_ValueWithNoMetadata.swift:128 | `missing` is the sub-sequence, in input order, of the keys that `==` equates with no identifier of an existing item |
| ValueWithNoMetadata.FilterExistingMissingIffUnread | Pods/YapDatabaseExtensions/YapDatabaseExtensions/Shared/Persistable/Persistable_ValueWithNoMetadata.swift:126-129 | in a store where records sit under their own identifier, a key is missing exactly when it was asked for and no asked-for key that `==` equates with it reads an item |
| ValueWithNoMetadata.FilterExistingMissingIffUnreadByCodePoints | Pods/YapDatabaseExtensions/YapDatabaseExtensions/Shared/Persistable/Persistable_ValueWithNoMetadata.swift:126-129 | under comparison by code point, in such a store, a key is missing exactly when it was asked for and reading it yields none |
| ValueWithNoMetadata.ReadKeyIsFound | Pods/YapDatabaseExtensions/YapDatabaseExtensions/Shared/Persistable/Persistable_ValueWithNoMetadata.swift:127-128 | a requested key whose read succeeds is the identifier of some item found |
| ValueWithNoMetadata.FoundItemIsReadAtItsKey | Pods/YapDatabaseExtensions/YapDatabaseExtensions/Shared/Persistable/Persistable_ValueWithNoMetadata.swift:126-127 | each item found is what reading its own identifier yields |
| ValueWithNoMetadata.NothingMissing | Pods/YapDatabaseExtensions/YapDatabaseExtensions/Shared/Persistable/Persistable_ValueWithNoMetadata.swift:127-128 | when every key reads an item carrying that key, nothing is reported missing, for any reflexive string `==` |
| ValueWithNoMetadata.Unread | Pods/YapDatabaseExtensions/YapDatabaseExtensions/Shared/Persistable/Persistable_ValueWithNoMetadata.swift:128 | the read-based key test holds exactly when the type's collection holds no record under the key, or the record's object does not decode |
| ValueWithNoMetadata.FilterExistingByReads | Pods/YapDatabaseExtensions/YapDatabaseExtensions/Shared/Persistable/Persistable_ValueWithNoMetadata.swift:123-131 | the read-based `filterExisting`: `existing` as in the code; a key is missing exactly when it was asked for and reading it yields none, in any store |
| ValueWithNoMetadata.FilterExistingByReadsAgrees | Pods/YapDatabaseExtensions/YapDatabaseExtensions/Shared/Persistable/Persistable_ValueWithNoMetadata.swift:123-131 | in a store where records sit under their own identifier, and comparing by code point, the code's `filterExisting` and the read-based one give the same partition |
| ValueWithNoMetadata.EquivalentSpellingNotMissing | Pods/YapDatabaseExtensions/YapDatabaseExtensions/Shared/Persistable/Persistable_ValueWithNoMetadata.swift:127-128 | when the precomposed "é" reads an item and the decomposed spelling reads none, asking for both reports nothing missing under an `==` that equates them, while the read-based version reports the decomposed spelling |
| ValueWithNoMetadata.OnTwoThenFilterExisting | Pods/YapDatabaseExtensions/YapDatabaseExtensions/Shared/Persistable/Persistable_ValueWithNoMetadata.swift:123-131 | after `on` writes two items with distinct identifiers, `filterExisting` over their identifiers around a key that names no record and that `==` equates with neither finds both items and reports only that key missing |
| ValueWithNoMetadata.FilterExistingOfThree | Pods/YapDatabaseExtensions/YapDatabaseExtensions/Shared/Persistable/Persistable_ValueWithNoMetadata.swift:123-131 | for three keys whose middle read fails and which `==` equates with neither found identifier, `filterExisting` finds the two items and reports the middle key missing |
| ValueWithNoMetadata.AtIndex | Pods/YapDatabaseExtensions/YapDatabaseExtensions/Shared/Persistable/Persistable_ValueWithNoMetadata.swift:68-70 | the connection read equals the transaction read at the index |
| ValueWithNoMetadata.AtIndexes | Pods/YapDatabaseExtensions/YapDatabaseExtensions/Shared/Persistable/Persistable_ValueWithNoMetadata.swift:78-83 | the connection batch read equals the transaction batch read |
| ValueWithNoMetadata.ByKey | Pods/YapDatabaseExtensions/YapDatabaseExtensions/Shared/Persistable/Persistable_ValueWithNoMetadata.swift:91-93 | the connection read by key is the transaction read at `indexWithKey(key)` |
| ValueWithNoMetadata.ByKeys | Pods/YapDatabaseExtensions/YapDatabaseExtensions/Shared/Persistable/Persistable_ValueWithNoMetadata.swift:101-106 | the connection read by keys is the explicit-keys read in one transaction |
| ValueWithNoMetadata.All | Pods/YapDatabaseExtensions/YapDatabaseExtensions/Shared/Persistable/Persistable_ValueWithNoMetadata.swift:113-115 | the connection `all()` is `byKeysInTransaction` with no keys, in one transaction |
| ValueWithNoMetadata.On | Pods/YapDatabaseExtensions/YapDatabaseExtensions/Shared/Persistable/Persistable_ValueWithNoMetadata.swift:149-151 | the store's indexes become the old ones plus the items'; an item no later item overwrites is stored encoded with no metadata; unnamed indexes are unchanged; nothing else is created |
| ValueWithNoMetadata.SyncOn | Pods/YapDatabaseExtensions/YapDatabaseExtensions/Shared/Persistable/Persistable_ValueWithNoMetadata.swift:158-160 | the connection write commits what `on` does in one transaction |
| ValueWithNoMetadata.OnPreservesWellKeyed | Pods/YapDatabaseExtensions/YapDatabaseExtensions/Shared/Persistable/Persistable_ValueWithNoMetadata.swift:150 | if the codec round-trips, `on` keeps every decodable record of the collection under its own identifier |
| ValueWithNoMetadata.OnReadsBack | Pods/YapDatabaseExtensions/YapDatabaseExtensions/Shared/Persistable/Persistable_ValueWithNoMetadata.swift:150 | after `on` with distinct identifiers, reading an item's identifier gives the item |
| ValueWithNoMetadata.OnThenReadKeys | Pods/YapDatabaseExtensions/YapDatabaseExtensions/Shared/Persistable/Persistable_ValueWithNoMetadata.swift:150 | after `on` with distinct identifiers, reading their identifiers gives the items, in order |
| ValueWithNoMetadata.OnThenFilterExisting | Pods/YapDatabaseExtensions/YapDatabaseExtensions/Shared/Persistable/Persistable_ValueWithNoMetadata.swift:123-131 | after `on`, `filterExisting` over the items' identifiers finds exactly the items, in order, and nothing is missing, for any reflexive string `==` |
| Remove.RemoveItem | Pods/YapDatabaseExtensions/YapDatabaseExtensions/Shared/Functional/Functional_Remove.swift:14-16 | deletes exactly the record at the item's index, and every other record is unchanged |
| Remove.RemoveItems | Pods/YapDatabaseExtensions/YapDatabaseExtensions/Shared/Functional/Functional_Remove.swift:18-24 | deletes the record at every item's index and at no other index |
| Remove.SyncRemoveItem | Pods/YapDatabaseExtensions/YapDatabaseExtensions/Shared/Functional/Functional_Remove.swift:29-31 | the connection removal commits what the transaction removal does |
| Remove.SyncRemoveItems | Pods/YapDatabaseExtensions/YapDatabaseExtensions/Shared/Functional/Functional_Remove.swift:33-39 | the connection batch removal commits what the transaction batch removal does |
| Remove.RemoveItemIdempotent | Pods/YapDatabaseExtensions/YapDatabaseExtensions/Shared/Functional/Functional_Remove.swift:15 | removing an item twice leaves the same store as removing it once |
| Remove.RemoveItemsIdempotent | Pods/YapDatabaseExtensions/YapDatabaseExtensions/Shared/Functional/Functional_Remove.swift:23 | removing a batch twice leaves the same store as removing it once |
| Remove.RemoveAbsentIsNoOp | Pods/YapDatabaseExtensions/YapDatabaseExtensions/Shared/Functional/Functional_Remove.swift:15 | removing an item whose index holds nothing leaves the store unchanged |
| Remove.RemoveItemsOneByOne | Pods/YapDatabaseExtensions/YapDatabaseExtensions/Shared/Functional/Functional_Remove.swift:23 | removing a batch is removing its first item and then the rest |
| Remove.RemoveThenRead | Pods/YapDatabaseExtensions/YapDatabaseExtensions/Shared/Functional/Functional_Remove.swift:15 | after removing an item, reading at its index yields none, with or without metadata |
| Remove.RemoveItemsThenRead | Pods/YapDatabaseExtensions/YapDatabaseExtensions/Shared/Functional/Functional_Remove.swift:23 | after removing a batch, reading at any of its indexes yields none |
| Remove.RemoveItemsPreservesWellKeyed | Pods/YapDatabaseExtensions/YapDatabaseExtensions/Shared/Functional/Functional_Remove.swift:23 | removal keeps every decodable record under its own identifier |
| Events.DescriptionInjective | examples/Events/Datasources/Models.swift:39-45 | the descriptions "Red", "Blue" and "Green" are distinct, so two colours have the same description exactly when they are equal |
| Events.Description | examples/Events/Datasources/Models.swift:39-45 | Red, Blue and Green are described as "Red", "Blue" and "Green" |
| Events.ColorEquals | examples/Events/Datasources/Models.swift:50-55 | colour `==` holds exactly when both sides are the same case |
| Events.EventEquals | examples/Events/Datasources/Models.swift:59-61 | event `==` holds exactly when the colours are equal, Swift's string `==` equates the uuids, and the dates are equal |
| Events.EventEqualsByCodePoints | examples/Events/Datasources/Models.swift:59-61 | with uuids compared by code point, event `==` holds exactly when the two events are the same value |
| Events.RawValue | examples/Events/Datasources/Models.swift:66-68 | every kind's raw value is 1, 2 or 3 |
| Events.KindFromRawValue | examples/Events/Datasources/Models.swift:66-68 | `Kind(rawValue:)` succeeds exactly for 1 to 3, and then yields the case with that raw value |
| Events.KindRawValueRoundTrip | examples/Events/Datasources/Models.swift:66-68 | a kind's raw value converts back to that kind |
| Events.ColorKinds | examples/Events/Datasources/Models.swift:66-76 | Red, Blue and Green have kinds 1, 2 and 3, and two colours share a kind only when they are equal |
| Events.KindOf | examples/Events/Datasources/Models.swift:70-76 | the colour read back from a colour's kind is that colour |
| Events.DecodeIntegerForKey | examples/Events/Datasources/Models.swift:88 | the integer stored under the key, or 0 when the key is absent |
| Events.EncodeColorCoder | examples/Events/Datasources/Models.swift:101-103 | the archive holds the colour's kind raw value under "kind" |
| Events.DecodeColorCoder | examples/Events/Datasources/Models.swift:87-99 | decoding succeeds exactly when the "kind" integer is 1 to 3, and then yields the colour of that kind; otherwise it is a fatal error |
| Events.ColorCoderRoundTrip | examples/Events/Datasources/Models.swift:87-103 | decoding the colour coder's archive gives the colour back |
| Events.EncodeEventCoder | examples/Events/Datasources/Models.swift:137-141 | the archive has exactly the keys "color", "uuid" and "date", and decoding it gives the event back |
| Events.DecodeColorField | examples/Events/Datasources/Models.swift:131 | the colour field decodes exactly when it holds an archived `EventColorCoder` whose "kind" is 1 to 3, and then as that coder decodes; otherwise it traps |
| Events.DecodeEventCoder | examples/Events/Datasources/Models.swift:130-135 | decoding succeeds exactly when the colour field decodes, "uuid" holds a string and "date" holds a date, and traps otherwise; a decoded event's uuid, date and colour kind are those archived |
| Events.EventCoderRoundTrip | examples/Events/Datasources/Models.swift:130-141 | decoding the event coder's archive gives the event back, with all three fields |
| Events.EventCoderBadKindTraps | examples/Events/Datasources/Models.swift:131-134 | a colour field holding a kind outside 1 to 3 makes decoding the event a fatal error |
| Events.CodecsRoundTripBack | examples/Events/Datasources/Models.swift:118-120 | an object that decodes, as an event or as a colour, is what encoding the decoded value gives back |
| Events.EventCodec | examples/Events/Datasources/Models.swift:118-120 | encoding wraps the event in an `EventCoder`; an object decodes exactly when it is an `EventCoder`, and then to the event it holds; so the codec round-trips |
| Events.ColorCodec | examples/Events/Datasources/Models.swift:63-64 | encoding wraps the colour in an `EventColorCoder`; an object decodes exactly when it is an `EventColorCoder`, and then to the colour it holds; so the codec round-trips |
| Events.CodecsDisjoint | examples/Events/Datasources/Models.swift:63-64 | no object decodes both as an event and as a colour |
| Events.EventIndexIffUuid | examples/Events/Datasources/Models.swift:106-116 | two events share an index exactly when they share a uuid |
| Events.EventPersistable | examples/Events/Datasources/Models.swift:106-116 | an event lives in the "Events" collection under its uuid |
| EventViews.Grouping | examples/Events/Datasources/Models.swift:157-168 | none outside "Events"; the collection name when not grouping by colour; otherwise the colour's description for an event, and none for anything else |
| EventViews.Filtering | examples/Events/Datasources/Models.swift:193-198 | keeps exactly the objects that decode as an event of the requested colour |
| EventViews.FilterAgreesWithColorGroup | examples/Events/Datasources/Models.swift:193-198 | within "Events", the colour filter keeps an object exactly when the by-colour grouping puts it in that colour's group |
| EventViews.FilterExistingPartialMiss | Pods/YapDatabaseExtensions/YapDatabaseExtensions/Shared/Persistable/Persistable_ValueWithNoMetadata.swift:123-131 | after writing two events, `filterExisting` over their uuids and an unused key that `==` equates with neither uuid finds both events in key order and reports only the unused key missing |
| EventViews.EquivalentUuidNotMissing | Pods/YapDatabaseExtensions/YapDatabaseExtensions/Shared/Persistable/Persistable_ValueWithNoMetadata.swift:127-128 | after writing one event under the precomposed "é", asking for both spellings of "é" reports nothing missing under an `==` that equates them, though the decomposed spelling reads nothing; the read-based version reports it missing |

## Left out

- The `asyncWrite`, `asyncRemove` and `Writable.async` overloads, and `Writable.operation`: they only schedule the same blocks on a queue or in an `NSOperation`.
- YapDatabase itself is not part of this model: transactions, commit and abort, snapshot isolation and the serializer. A connection read or write is the block applied to the committed store.
- The NSCoding archive's byte layout: the coders are modelled on keyed fields, and the store holds abstract objects.
- The no-metadata `transaction.readAtIndex` overload is defined in a file that is not part of this model. `ValueWithNoMetadata.InTransactionAtIndex` models it as decoding the object at the index, without reading metadata.
- The date-comparison sorting closure of `events`, `createSomeEvents` and `NSUUID` generation: they involve floating-point time intervals, the clock and randomness. `NSDate` is modelled only by its equality.
- The construction of `YapDB.View`, `YapDB.Filter`, `YapDB.FetchConfiguration` and `Configuration<Event>`: they are view plumbing around the pure grouping and filtering closures, which are modelled.
- YapDatabaseSecondaryIndexHandler.h and FKFlickrPhotosGeoRemoveLocation.h: they are declarations with no logic.
- ValueWithValueMetadata.ReadAll: the order of `keysInCollection` is not modelled. The result is `readByKeys` over some repeat-free listing of the collection's keys, without saying which listing.
- ValueWithNoMetadata.ByKeysInTransaction: with no keys given, the order of the keys read is not modelled, for the same reason as `ReadAll`.
- ValueWithNoMetadata.All: the order of its result is not modelled, as for `ByKeysInTransaction` with no keys.
- Coding.IndexesWithKeys: `indexesWithKeys` is defined in a file that is not part of this model. The model assumes one index per key, in key order, with repeated keys kept; this is not checked against its definition.
- Coding.IndexWithKey and Coding.IndexOf: `indexWithKey` and `item.index` are defined in a file that is not part of this model. They are assumed to be (collection, key) and (collection, identifier).
- ValueWithValueMetadata.ReadMetadataAtIndex: the typed `readMetadataAtIndex` is defined in a file that is not part of this model. It is assumed to decode, with the metadata type's codec, the metadata object stored at the index.
- ValueWithNoMetadata.Identifiers: `keyForPersistable` is defined in a file that is not part of this model. It is assumed to return the value's `identifier`.
- Connection.Read and Connection.Write: `ConnectionType.read` and `write` are defined in a file that is not part of this model. They apply the block to the committed store, and carry no contract beyond that.
- Strings: Unicode canonical equivalence is not defined. Swift's string `==` is the parameter `same`, and only reflexivity, or its equating the two spellings of "é", is ever assumed of it.
- Events.DecodeIntegerForKey: a value of another type under the key is read as 0. Either way the colour coder then reaches its fatal error.
- EventViews.Grouping: the closure's `String!` result is modelled as an `Option`. Its comparison of the collection with "Events" is by code point, which matches Swift's `==` because "Events" has no other canonically equivalent spelling.

## Findings

| source | as written | input that shows it | evidently intended | confidence | as-written member | corrected member |
|---|---|---|---|---|---|---|
| Pods/YapDatabaseExtensions/YapDatabaseExtensions/Shared/Persistable/Persistable_ValueWithNoMetadata.swift:127-128 | `missing` keeps a key only when Swift's `==`, which compares strings by canonical equivalence, equates it with no identifier found; the store looks keys up by code point | one event stored under uuid "\u{E9}" and keys ["\u{E9}", "e\u{301}"]: reading "e\u{301}" finds nothing, yet `missing` is empty | `missing` lists the asked-for keys whose read finds nothing, here ["e\u{301}"] | not executed; medium: rests on Swift's string `==` being canonical equivalence and the store comparing keys by code point | ValueWithNoMetadata.FilterExisting, EventViews.EquivalentUuidNotMissing | ValueWithNoMetadata.FilterExistingByReads |
