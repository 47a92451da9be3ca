/** The Events example's model: `Event` and its `Color`, their equality and description, the
    colour's integer `Kind`, the two coders (`EventColorCoder`, `EventCoder`) at the level of the
    keyed fields they archive, and the value codec and index the store sees. */
module Events {
  import opened Options
  import opened Database
  import opened Coding
  import Strings

  datatype Color = Red | Blue | Green

  /** `NSDate`, compared by its interval since the reference date. */
  datatype Date = Date(sinceReferenceDate: real)

  datatype Event = Event(uuid: string, color: Color, date: Date)

  /** `Color.description`: the case's name. */
  function Description(c: Color): (d: string)
    ensures c == Red ==> d == "Red"
    ensures c == Blue ==> d == "Blue"
    ensures c == Green ==> d == "Green"
  {
    match c
    case Red => "Red"
    case Blue => "Blue"
    case Green => "Green"
  }

  /** The three descriptions are distinct: a description names one colour. */
  lemma DescriptionInjective(a: Color, b: Color)
    ensures Description(a) == Description(b) <==> a == b
  {
  }

  /** `==` on `Color`: true for the same case on both sides, false otherwise. */
  function ColorEquals(a: Color, b: Color): (r: bool)
    ensures r <==> a == b
  {
    match (a, b)
    case (Red, Red) => true
    case (Blue, Blue) => true
    case (Green, Green) => true
    case _ => false
  }

  /** `==` on `Event`: colour, uuid and date all equal, the uuids compared with Swift's `==` on
      strings, given as `same`. */
  function EventEquals(a: Event, b: Event, same: (string, string) -> bool): (r: bool)
    ensures r <==> a.color == b.color && same(a.uuid, b.uuid) && a.date == b.date
  {
    ColorEquals(a.color, b.color) && same(a.uuid, b.uuid) && a.date == b.date
  }

  /** With uuids compared by code point, two events are equal exactly when they are the same
      value. */
  lemma EventEqualsByCodePoints(a: Event, b: Event)
    ensures EventEquals(a, b, Strings.CodePoints()) <==> a == b
  {
  }

  // The colour's archived form

  /** `Color.Kind`, an `Int`-backed enum. */
  datatype Kind = KindRed | KindBlue | KindGreen

  /** `kind.rawValue`: Red = 1, then Blue and Green. */
  function RawValue(k: Kind): (i: int)
    ensures 1 <= i <= 3
  {
    match k
    case KindRed => 1
    case KindBlue => 2
    case KindGreen => 3
  }

  /** `Kind(rawValue:)`: none unless the integer is the raw value of a case. */
  function KindFromRawValue(i: int): (r: Option<Kind>)
    ensures r.Some? <==> 1 <= i <= 3
    ensures r.Some? ==> RawValue(r.value) == i
  {
    if i == 1 then Some(KindRed)
    else if i == 2 then Some(KindBlue)
    else if i == 3 then Some(KindGreen)
    else None
  }

  lemma KindRawValueRoundTrip(k: Kind)
    ensures KindFromRawValue(RawValue(k)) == Some(k)
  {
  }

  /** `Color.kind`. */
  function KindOf(c: Color): (k: Kind)
    ensures ColorOfKind(k) == c
  {
    match c
    case Red => KindRed
    case Blue => KindBlue
    case Green => KindGreen
  }

  /** The colour read back from a kind, as `EventColorCoder.init?(coder:)` switches on it. */
  function ColorOfKind(k: Kind): Color {
    match k
    case KindRed => Red
    case KindBlue => Blue
    case KindGreen => Green
  }

  /** Red, Blue and Green are kinds 1, 2 and 3, and no two colours share a kind. */
  lemma ColorKinds(a: Color, b: Color)
    ensures RawValue(KindOf(Red)) == 1 && RawValue(KindOf(Blue)) == 2 && RawValue(KindOf(Green)) == 3
    ensures RawValue(KindOf(a)) == RawValue(KindOf(b)) <==> a == b
  {
  }

  /** A value as a keyed archiver writes it: an integer, a string, a date, or a nested object
      of some class with its own keyed fields. */
  datatype Archived =
    | ArchivedInteger(i: int)
    | ArchivedString(s: string)
    | ArchivedDate(date: Date)
    | ArchivedObject(className: string, fields: map<string, Archived>)

  /** The keyed fields `encodeWithCoder` writes and `init?(coder:)` reads. */
  type Fields = map<string, Archived>

  const ColorCoderClass := "EventColorCoder"
  const EventCoderClass := "EventCoder"

  /** The outcome of `init?(coder:)`: the value, or a trap (`fatalError`, or force-unwrapping
      nil), which ends the process. */
  datatype Unarchived<T> = Unarchived(value: T) | Fatal

  /** `decodeIntegerForKey(key)`: the integer stored under `key`, and 0 otherwise. */
  function DecodeIntegerForKey(fields: Fields, key: string): (i: int)
    ensures key in fields && fields[key].ArchivedInteger? ==> i == fields[key].i
    ensures key !in fields ==> i == 0
  {
    if key in fields && fields[key].ArchivedInteger? then fields[key].i else 0
  }

  /** `EventColorCoder.encodeWithCoder`: the kind's raw value under "kind". */
  function EncodeColorCoder(c: Color): (fields: Fields)
    ensures DecodeIntegerForKey(fields, "kind") == RawValue(KindOf(c))
  {
    map["kind" := ArchivedInteger(RawValue(KindOf(c)))]
  }

  /** `EventColorCoder.init?(coder:)`: the colour whose kind is stored under "kind"; any other
      integer, or none, is a fatal error. */
  function DecodeColorCoder(fields: Fields): (r: Unarchived<Color>)
    ensures r.Unarchived? <==> 1 <= DecodeIntegerForKey(fields, "kind") <= 3
    ensures r.Unarchived? ==> RawValue(KindOf(r.value)) == DecodeIntegerForKey(fields, "kind")
  {
    match KindFromRawValue(DecodeIntegerForKey(fields, "kind"))
    case Some(k) => Unarchived(ColorOfKind(k))
    case None => Fatal
  }

  /** Decoding what the colour coder encodes gives the colour back. */
  lemma ColorCoderRoundTrip(c: Color)
    ensures DecodeColorCoder(EncodeColorCoder(c)) == Unarchived(c)
  {
  }

  /** `EventCoder.encodeWithCoder`: the colour's coder under "color", the uuid under "uuid" and
      the date under "date". */
  function EncodeEventCoder(e: Event): (fields: Fields)
    ensures fields.Keys == {"color", "uuid", "date"}
    ensures DecodeEventCoder(fields) == Unarchived(e)
  {
    ColorCoderRoundTrip(e.color);
    map[
      "color" := ArchivedObject(ColorCoderClass, EncodeColorCoder(e.color)),
      "uuid" := ArchivedString(e.uuid),
      "date" := ArchivedDate(e.date)]
  }

  /** `Event.Color.decode(decodeObjectForKey("color"))` followed by `color!`: the field must
      hold an archived `EventColorCoder`, whose own decoding may trap first. */
  function DecodeColorField(fields: Fields): (r: Unarchived<Color>)
    ensures r.Unarchived? <==>
      && "color" in fields && fields["color"].ArchivedObject? && fields["color"].className == ColorCoderClass
      && 1 <= DecodeIntegerForKey(fields["color"].fields, "kind") <= 3
    ensures r.Unarchived? ==> r == DecodeColorCoder(fields["color"].fields)
  {
    if "color" in fields && fields["color"].ArchivedObject? && fields["color"].className == ColorCoderClass
    then DecodeColorCoder(fields["color"].fields)
    else Fatal
  }

  /** `EventCoder.init?(coder:)`: the colour, the `String` uuid and the `NSDate` date, each
      force-unwrapped, so that any of them missing or of the wrong type is a trap. */
  function DecodeEventCoder(fields: Fields): (r: Unarchived<Event>)
    ensures r.Unarchived? <==>
      && DecodeColorField(fields).Unarchived?
      && "uuid" in fields && fields["uuid"].ArchivedString?
      && "date" in fields && fields["date"].ArchivedDate?
    ensures r.Unarchived? ==> "uuid" in fields && fields["uuid"] == ArchivedString(r.value.uuid)
    ensures r.Unarchived? ==> "date" in fields && fields["date"] == ArchivedDate(r.value.date)
    ensures r.Unarchived? ==>
      && "color" in fields && fields["color"].ArchivedObject?
      && DecodeIntegerForKey(fields["color"].fields, "kind") == RawValue(KindOf(r.value.color))
  {
    match DecodeColorField(fields)
    case Fatal => Fatal
    case Unarchived(color) =>
      if "uuid" in fields && fields["uuid"].ArchivedString? && "date" in fields && fields["date"].ArchivedDate?
      then Unarchived(Event(fields["uuid"].s, color, fields["date"].date))
      else Fatal
  }

  /** The event coder round-trips all three fields. */
  lemma EventCoderRoundTrip(e: Event)
    ensures DecodeEventCoder(EncodeEventCoder(e)) == Unarchived(e)
  {
    ColorCoderRoundTrip(e.color);
  }

  /** A colour field holding an unknown kind makes decoding the event a trap. */
  lemma EventCoderBadKindTraps(fields: Fields, kind: int)
    requires "color" in fields && fields["color"] == ArchivedObject(ColorCoderClass, map["kind" := ArchivedInteger(kind)])
    requires kind < 1 || 3 < kind
    ensures DecodeEventCoder(fields) == Fatal
  {
  }

  // The value codec and index the store sees

  /** The objects the Events store holds: the coders, or some other class. */
  datatype Object = EventCoderObject(event: Event) | EventColorCoderObject(color: Color) | OtherObject(className: string)

  /** `Event`'s `ValueCoding`: `encoded` wraps the event in an `EventCoder`; `decode` is
      `(object as? EventCoder)?.value`. */
  function EventCodec(): (c: Codec<Event, Object>)
    ensures RoundTrips(c)
    ensures forall e :: c.encode(e) == EventCoderObject(e)
    ensures forall o :: c.decode(o).Some? <==> o.EventCoderObject?
    ensures forall o: Object :: o.EventCoderObject? ==> c.decode(o) == Some(o.event)
  {
    Codec((e: Event) => EventCoderObject(e), (o: Object) => if o.EventCoderObject? then Some(o.event) else None)
  }

  /** `Color`'s `ValueCoding`, with `EventColorCoder`. */
  function ColorCodec(): (c: Codec<Color, Object>)
    ensures RoundTrips(c)
    ensures forall col :: c.encode(col) == EventColorCoderObject(col)
    ensures forall o :: c.decode(o).Some? <==> o.EventColorCoderObject?
    ensures forall o: Object :: o.EventColorCoderObject? ==> c.decode(o) == Some(o.color)
  {
    Codec((c: Color) => EventColorCoderObject(c), (o: Object) => if o.EventColorCoderObject? then Some(o.color) else None)
  }

  /** The other direction of the round trip: an object that decodes is what encoding its
      decoded value gives back, for both codecs. */
  lemma CodecsRoundTripBack(o: Object)
    ensures EventCodec().decode(o).Some? ==> EventCodec().encode(EventCodec().decode(o).value) == o
    ensures ColorCodec().decode(o).Some? ==> ColorCodec().encode(ColorCodec().decode(o).value) == o
  {
  }

  /** No object decodes both as an event and as a colour. */
  lemma CodecsDisjoint(o: Object)
    ensures !(EventCodec().decode(o).Some? && ColorCodec().decode(o).Some?)
  {
  }

  const EventCollection := "Events"

  /** `Event`'s `Persistable`: collection "Events", identifier the uuid. */
  function EventPersistable(): (p: Persistable<Event>)
    ensures p.collection == "Events"
    ensures forall e :: p.identifier(e) == e.uuid
  {
    Persistable(EventCollection, (e: Event) => e.uuid)
  }

  /** Two events share an index exactly when they share a uuid. */
  lemma EventIndexIffUuid(a: Event, b: Event)
    ensures IndexOf(EventPersistable(), a) == IndexOf(EventPersistable(), b) <==> a.uuid == b.uuid
  {
  }
}
