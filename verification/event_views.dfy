/** The pure closures behind the Events example's database views — the grouping of `events`
    and the filtering of `eventsWithColor` — and a worked store example with events. */
module EventViews {
  import opened Options
  import opened Database
  import opened Coding
  import opened Events
  import ValueWithNoMetadata
  import Strings

  /** The grouping closure of `events(byColor)`: nothing outside the "Events" collection; the
      collection name itself unless grouping by colour; otherwise the description of the
      decoded event's colour, and nothing when the object is not an event. */
  function Grouping(byColor: bool, collection: string, key: string, obj: Object): (group: Option<string>)
    ensures collection != "Events" ==> group.None?
    ensures collection == "Events" && !byColor ==> group == Some("Events")
    ensures collection == "Events" && byColor ==> (group.Some? <==> obj.EventCoderObject?)
    ensures collection == "Events" && byColor && obj.EventCoderObject? ==>
      group == Some(Description(obj.event.color))
  {
    if collection == EventCollection then
      if !byColor then Some(collection)
      else match EventCodec().decode(obj)
        case Some(event) => Some(Description(event.color))
        case None => None
    else None
  }

  /** The filtering closure of `eventsWithColor(color)`: keep exactly the objects that decode as
      an event of that colour. */
  function Filtering(color: Color, group: string, collection: string, key: string, obj: Object): (keep: bool)
    ensures keep <==> obj.EventCoderObject? && obj.event.color == color
  {
    match EventCodec().decode(obj)
    case Some(event) => ColorEquals(event.color, color)
    case None => false
  }

  /** Within the "Events" collection, an object passes the filter for `color` exactly when the
      by-colour grouping puts it in the group named after `color`. */
  lemma FilterAgreesWithColorGroup(color: Color, group: string, key: string, obj: Object)
    ensures Filtering(color, group, "Events", key, obj) <==>
      Grouping(true, "Events", key, obj) == Some(Description(color))
  {
    if obj.EventCoderObject? {
      DescriptionInjective(obj.event.color, color);
    }
  }

  /** Writing two events and asking `filterExisting` for their uuids and a third key that names
      no record and that `same` equates with neither uuid finds the two events, in key order,
      and reports only the third key missing. */
  lemma FilterExistingPartialMiss(s: Store<Object>, e1: Event, e2: Event, k: string, same: (string, string) -> bool)
    requires Strings.Reflexive(same)
    requires e1.uuid != e2.uuid && k != e1.uuid && k != e2.uuid
    requires !same(e1.uuid, k) && !same(e2.uuid, k)
    requires Index("Events", k) !in s
    ensures var s' := ValueWithNoMetadata.On(EventPersistable(), EventCodec(), s, [e1, e2]);
      ValueWithNoMetadata.FilterExisting(EventPersistable(), EventCodec(), s', [e1.uuid, k, e2.uuid], same)
        == ValueWithNoMetadata.Partition([e1, e2], [k])
  {
    var p, c := EventPersistable(), EventCodec();
    assert p.identifier(e1) == e1.uuid && p.identifier(e2) == e2.uuid && p.collection == "Events";
    ValueWithNoMetadata.OnTwoThenFilterExisting(p, c, s, e1, e2, k, same);
  }

  /** The input that shows the gap in `filterExisting`: after writing one event whose uuid is the
      precomposed "é", asking for both spellings of "é" reports nothing missing under any string
      equality that, like Swift's `==`, equates them, although the decomposed spelling reads
      nothing; the read-based version reports it missing. */
  lemma EquivalentUuidNotMissing(e: Event, same: (string, string) -> bool)
    requires Strings.Reflexive(same) && same(Strings.Precomposed, Strings.Decomposed)
    requires e.uuid == Strings.Precomposed
    ensures var p, c := EventPersistable(), EventCodec();
      var db := ValueWithNoMetadata.On(p, c, map[], [e]);
      var keys := [Strings.Precomposed, Strings.Decomposed];
      && ValueWithNoMetadata.InTransactionByKey(p, c, db, Strings.Decomposed) == None
      && ValueWithNoMetadata.FilterExisting(p, c, db, keys, same) == ValueWithNoMetadata.Partition([e], [])
      && ValueWithNoMetadata.FilterExistingByReads(p, c, db, keys) == ValueWithNoMetadata.Partition([e], [Strings.Decomposed])
  {
    var p, c := EventPersistable(), EventCodec();
    var items := [e];
    var db := ValueWithNoMetadata.On(p, c, map[], items);
    Strings.SpellingsDiffer();
    assert items[0] == e;
    assert db[IndexOf(p, items[0])] == Record(c.encode(e), None);
    assert Index("Events", Strings.Decomposed) !in db;
    ValueWithNoMetadata.EquivalentSpellingNotMissing(p, c, db, e, same);
  }
}
