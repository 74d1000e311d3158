/**
 * The events routes: `events/addEvent` (insert, no position),
 * `events/deleteEvent` (delete, then lower every later event by one, write by
 * write), `events/updateEvent` (edit, with a range rewrite of positions when
 * the position changed) and `events/updateEventOrder` (write the listed
 * positions up to the first error).
 */
module EventsApi {
  import opened Base
  import opened Fields
  import opened Rows
  import opened Store
  import opened Protocol

  const EventFields: set<Field> := {Name, Location, Category, Description}

  /** One language object: `{ name?, location?, category?, description? }`. */
  datatype EventText = EventText(name: Option<string>, location: Option<string>, category: Option<string>, description: Option<string>)
  {
    function Get(f: Field): Option<string>
      requires f in EventFields
    {
      match f
      case Name => name
      case Location => location
      case Category => category
      case Description => description
    }
  }

  /** `Español?.name` and the like: missing when the language object is. */
  function TextOf(p: Option<EventText>, f: Field): Option<string>
    requires f in EventFields
  {
    if p.None? then None else p.value.Get(f)
  }

  /** The event fields of a body; `duration` is a number, the rest are strings. */
  datatype EventBody = EventBody(
    langs: PerLang<Option<EventText>>,
    mediaUrl: Option<string>, dateTime: Option<string>, duration: Option<int>,
    cost: Option<string>, registerLink: Option<string>)

  /** The per-language columns: `?? null`, so a string is stored as sent and only a missing one is NULL. */
  function EventTexts(langs: PerLang<Option<EventText>>): (c: Columns)
    ensures forall k | k in c :: k.Localized? && k.field in EventFields
    ensures forall f, l | f in EventFields ::
      Localized(f, l) in c && c[Localized(f, l)] == OrNull(TextOf(langs.Get(l), f))
  {
    map f, l | f in EventFields :: Localized(f, l) := OrNull(TextOf(langs.Get(l), f))
  }

  /** The shared columns, each `?? null`. */
  function EventShared(b: EventBody): (c: Columns)
    ensures forall k | k in c :: k.Shared?
    ensures Shared(Duration) in c && (c[Shared(Duration)].Null? <==> b.duration.None?)
    ensures b.duration.Some? ==> c[Shared(Duration)] == Int(b.duration.value)
    ensures c.Keys == {Shared(DateTime), Shared(Duration), Shared(Cost), Shared(RegisterLink), Shared(MediaUrl)}
    ensures c[Shared(DateTime)] == OrNull(b.dateTime) && c[Shared(Cost)] == OrNull(b.cost)
    ensures c[Shared(RegisterLink)] == OrNull(b.registerLink) && c[Shared(MediaUrl)] == OrNull(b.mediaUrl)
  {
    map[
      Shared(DateTime) := OrNull(b.dateTime),
      Shared(Duration) := if b.duration.None? then Null else Int(b.duration.value),
      Shared(Cost) := OrNull(b.cost),
      Shared(RegisterLink) := OrNull(b.registerLink),
      Shared(MediaUrl) := OrNull(b.mediaUrl)]
  }

  /** The payload of both the insert and the edit. */
  function EventColumns(b: EventBody): (c: Columns)
    ensures Shared(Duration) in c && (c[Shared(Duration)].Null? <==> b.duration.None?)
    ensures forall k | k in c :: k.Shared? || k.field in EventFields
  {
    EventTexts(b.langs) + EventShared(b)
  }

  /** Every name, location, category and description column is written, as sent, NULL only when missing. */
  lemma EventColumnsTexts(b: EventBody, f: Field, l: Lang)
    requires f in EventFields
    ensures Localized(f, l) in EventColumns(b)
    ensures EventColumns(b)[Localized(f, l)].Null? <==> TextOf(b.langs.Get(l), f).None?
    ensures TextOf(b.langs.Get(l), f).Some? ==> EventColumns(b)[Localized(f, l)] == Text(TextOf(b.langs.Get(l), f).value)
  {
    assert Localized(f, l) !in EventShared(b);
  }

  /**
   * `POST /api/events/addEvent`: one insert that sets no position, so the new
   * row takes the column default `defaultOrder`; no other row is touched.
   */
  method AddEvent(t: Table, b: EventBody, defaultOrder: Option<int>, fails: Faults) returns (res: Response, created: Option<Id>)
    modifies t
    ensures fails.insert ==> res == ServerError && created.None? && t.rows == old(t.rows)
    ensures !fails.insert ==>
      res == Done && created.Some? && created.value !in old(t.rows)
      && t.rows == old(t.rows)[created.value := Row(defaultOrder, EventColumns(b))]
    ensures Dense(old(t.rows)) && res == Done ==> (Dense(t.rows) <==> defaultOrder == Some(|old(t.rows)|))
  {
    created := t.Insert(EventColumns(b), defaultOrder, fails.insert);
    res := if created.Some? then Done else ServerError;
    if created.Some? && Dense(old(t.rows)) {
      InsertDenseIff(old(t.rows), created.value, Row(defaultOrder, EventColumns(b)));
    }
  }

  /**
   * `DELETE /api/events/deleteEvent`: read the row's position (404 when it is
   * missing), delete it, select the rows above that position in order and
   * lower each by one with its own write; a failed write is ignored.
   */
  method DeleteEvent(t: Table, id: Option<Id>, fails: Faults) returns (res: Response)
    modifies t
    ensures NoId(id) ==> res == BadRequest && t.rows == old(t.rows)
    ensures !NoId(id) && (fails.lookup || id.value !in old(t.rows)) ==> res == NotFound && t.rows == old(t.rows)
    ensures !NoId(id) && !fails.lookup && id.value in old(t.rows) ==>
      var rest := old(t.rows) - {id.value};
      if fails.remove then res == ServerError && t.rows == old(t.rows)
      else if fails.fetch then res == ServerError && t.rows == rest
      else res == Done && t.rows == Lowered(rest, AboveSet(rest, old(t.rows)[id.value].order) - fails.refused)
    ensures Dense(old(t.rows)) && res == Done && fails.refused == {} ==> Dense(t.rows)
  {
    if NoId(id) {
      return BadRequest;
    }
    var found := t.Lookup(id.value, fails.lookup);
    if found.None? {
      return NotFound;
    }
    var deletedOrder := found.value;
    var deleted := t.Delete(id, fails.remove);
    if !deleted {
      return ServerError;
    }
    var fetched, fs := t.Select(Over(deletedOrder), fails.fetch);
    if !fetched {
      return ServerError;
    }
    assert Matching(t.rows, Over(deletedOrder)) == AboveSet(t.rows, deletedOrder);
    LowerEach(t, fs, deletedOrder, fails.refused);
    res := Done;
    if Dense(old(t.rows)) && fails.refused == {} {
      assert AboveSet(old(t.rows) - {id.value}, deletedOrder) - {} == AboveSet(old(t.rows) - {id.value}, deletedOrder);
      DeleteLowerDense(old(t.rows), id.value);
    }
  }

  /** `for (const event of remainingEvents) update({ order_number: event.order_number - 1 })`, errors ignored. */
  method LowerEach(t: Table, fs: seq<Fetched>, bound: Option<int>, refused: set<Id>)
    modifies t
    requires Snapshot(fs, t.rows, AboveSet(t.rows, bound))
    ensures t.rows == Lowered(old(t.rows), AboveSet(old(t.rows), bound) - refused)
  {
    ghost var before := t.rows;
    var i := 0;
    while i < |fs|
      invariant 0 <= i <= |fs|
      invariant t.rows == Lowered(before, FetchedIds(fs[..i]) - refused)
    {
      var k := fs[i].id;
      FetchedPrefixStep(fs, i, refused);
      var _ := t.UpdateOrder(k, Some(fs[i].order.GetOr(0) - 1), refused);
      if k !in refused {
        LoweredStep(before, FetchedIds(fs[..i]) - refused, k);
      }
      i := i + 1;
    }
    assert fs[..|fs|] == fs;
  }

  /** The edit body: the event fields, the id and `order_number`. */
  datatype UpdateEventBody = UpdateEventBody(id: Option<Id>, fields: EventBody, order: NumIn)

  /** `order_number !== oldOrder`: an absent key always differs from the stored number or NULL. */
  predicate Changed(order: NumIn, oldOrder: Option<int>)
  {
    match order
    case Missing => true
    case NullNum => oldOrder.Some?
    case Num(n) => oldOrder != Some(n)
  }

  /** The body's position as `Math.min`/`Math.max` see it: NULL is 0 and an absent key is NaN (`None`). */
  function AsNumber(order: NumIn): Option<int>
  {
    match order
    case Missing => None
    case NullNum => Some(0)
    case Num(n) => Some(n)
  }

  /** `Math.min(oldOrder, order_number)`: a stored NULL counts as 0, NaN wins. */
  function Low(oldOrder: Option<int>, order: NumIn): (r: Option<int>)
    ensures r.None? <==> order.Missing?
    ensures r.Some? ==> r.value <= oldOrder.GetOr(0) && r.value <= AsNumber(order).value
    ensures r.Some? ==> r.value == oldOrder.GetOr(0) || r.value == AsNumber(order).value
  {
    var a := oldOrder.GetOr(0);
    match AsNumber(order)
    case None => None
    case Some(n) => Some(if a <= n then a else n)
  }

  /** `Math.max(oldOrder, order_number)`. */
  function High(oldOrder: Option<int>, order: NumIn): (r: Option<int>)
    ensures r.None? <==> order.Missing?
    ensures r.Some? ==> r.value >= oldOrder.GetOr(0) && r.value >= AsNumber(order).value
    ensures r.Some? ==> r.value == oldOrder.GetOr(0) || r.value == AsNumber(order).value
  {
    var a := oldOrder.GetOr(0);
    match AsNumber(order)
    case None => None
    case Some(n) => Some(if a <= n then n else a)
  }

  /** The table after the range rewrite of an edit (when the position changed). */
  function EventRanged(rows: Rows, id: Id, order: NumIn): Rows
    requires id in rows
  {
    var oldOrder := rows[id].order;
    if Changed(order, oldOrder) then RangeRewritten(rows, id, Low(oldOrder, order), High(oldOrder, order), oldOrder)
    else rows
  }

  /** The table after a successful edit: the range rewrite, then the row's own update. */
  function EventEdited(rows: Rows, id: Id, cols: Columns, order: NumIn): Rows
    requires id in rows
  {
    Patched(EventRanged(rows, id, order), id, cols, PatchOf(order))
  }

  /**
   * `PATCH /api/events/updateEvent`: 400 without an id, 404 when the row
   * cannot be read; when `order_number` differs from the stored position,
   * every other row whose position lies between the two is given the old
   * position (one write, which may fail); then the row itself is updated.
   */
  method UpdateEvent(t: Table, b: UpdateEventBody, fails: Faults) returns (res: Response)
    modifies t
    ensures NoId(b.id) ==> res == BadRequest && t.rows == old(t.rows)
    ensures !NoId(b.id) && (fails.lookup || b.id.value !in old(t.rows)) ==> res == NotFound && t.rows == old(t.rows)
    ensures !NoId(b.id) && !fails.lookup && b.id.value in old(t.rows) ==>
      var id := b.id.value;
      if Changed(b.order, old(t.rows)[id].order) && fails.bulk then res == ServerError && t.rows == old(t.rows)
      else if id in fails.refused then res == ServerError && t.rows == EventRanged(old(t.rows), id, b.order)
      else res == Done && t.rows == EventEdited(old(t.rows), id, EventColumns(b.fields), b.order)
  {
    if NoId(b.id) {
      return BadRequest;
    }
    var id := b.id.value;
    var found := t.Lookup(id, fails.lookup);
    if found.None? {
      return NotFound;
    }
    var oldOrder := found.value;
    if Changed(b.order, oldOrder) {
      var ok := t.UpdateRange(id, Low(oldOrder, b.order), High(oldOrder, b.order), oldOrder, fails.bulk);
      if !ok {
        return ServerError;
      }
    }
    var updated := t.Update(id, EventColumns(b.fields), PatchOf(b.order), fails.refused);
    res := if updated then Done else ServerError;
  }

  /**
   * An edit that carries a new position `to` for a row that had one moves
   * positions exactly as the range rewrite followed by the row's own write.
   */
  lemma EditMovesByRewrite(rows: Rows, id: Id, cols: Columns, to: int)
    requires id in rows && rows[id].order.Some?
    ensures EventEdited(rows, id, cols, Num(to)).Keys == rows.Keys
    ensures forall k | k in rows :: EventEdited(rows, id, cols, Num(to))[k].order == MovedByRewrite(rows, id, to)[k].order
  {
    var from := rows[id].order.value;
    var r := EventEdited(rows, id, cols, Num(to));
    var m := MovedByRewrite(rows, id, to);
    if from == to {
      forall k | k in rows ensures r[k].order == m[k].order {
        if k != id && InRange(rows[k].order, Some(from), Some(from)) {
          assert rows[k].order == Some(from);
        }
      }
    }
  }

  /**
   * An edit without `order_number` (what the events page sends) compares
   * `undefined` with the stored position, finds them different, and issues a
   * range rewrite with NaN bounds. Taking such bounds to match no row, no
   * position changes, and the row keeps its own.
   */
  lemma EditWithoutPositionKeepsOrder(rows: Rows, id: Id, cols: Columns)
    requires id in rows
    ensures Changed(Missing, rows[id].order)
    ensures EventEdited(rows, id, cols, Missing).Keys == rows.Keys
    ensures forall k | k in rows :: EventEdited(rows, id, cols, Missing)[k].order == rows[k].order
  {
  }

  /** `POST /api/events/updateEventOrder`: the listed positions in order, up to the first refused write. */
  method UpdateEventOrder(t: Table, items: seq<Assignment>, refused: set<Id>) returns (res: Response)
    modifies t
    ensures t.rows == Written(old(t.rows), items[..FirstRefused(items, refused)])
    ensures res == (if FirstRefused(items, refused) == |items| then Done else ServerError)
  {
    res := WriteUntilRefused(t, items, refused);
  }
}
