/**
 * The tailor-made routes: `tailor/addTailor` (validate, count, insert at the
 * end), `tailor/deleteTailor` (delete, then renumber by rank),
 * `tailor/updateTailor` (edit, renumber when a position is sent) and
 * `tailor/updateTailorOrder` (attempt every listed write, report all failures).
 */
module TailorApi {
  import opened Base
  import opened Fields
  import opened Rows
  import opened Store
  import opened Protocol

  const TailorFields: set<Field> := {Title, Subtitle, Description}

  /** One language object: `{ title?, subtitle?, description? }`. */
  datatype TailorText = TailorText(title: Option<string>, subtitle: Option<string>, description: Option<string>)
  {
    function Get(f: Field): Option<string>
      requires f in TailorFields
    {
      match f
      case Title => title
      case Subtitle => subtitle
      case Description => description
    }
  }

  /** `Español?.title` and the like: missing when the language object is. */
  function TextOf(p: Option<TailorText>, f: Field): Option<string>
    requires f in TailorFields
  {
    if p.None? then None else p.value.Get(f)
  }

  /** The body of `POST /api/tailor/addTailor`. */
  datatype AddTailorBody = AddTailorBody(langs: PerLang<Option<TailorText>>, image: Option<string>)

  /** `!Español.title || !image`: both must be non-empty strings. */
  predicate AddTailorValid(b: AddTailorBody)
  {
    Complete(b.langs) && Given(b.langs.es.value.title) && Given(b.image)
  }

  /** Every language column trimmed, blank or missing to NULL (`?.trim() || null`). */
  function TailorTexts(langs: PerLang<TailorText>): (c: Columns)
    ensures forall k | k in c :: k.Localized? && k.field in TailorFields
    ensures forall f, l | f in TailorFields ::
      Localized(f, l) in c && c[Localized(f, l)] == TrimOrNull(langs.Get(l).Get(f))
  {
    map f, l | f in TailorFields :: Localized(f, l) := TrimOrNull(langs.Get(l).Get(f))
  }

  /**
   * The inserted columns: the Spanish title and the image cells as given
   * (the route passes them trimmed, "" kept), every other text as in
   * `TailorTexts`.
   */
  function AddTailorColumns(langs: PerLang<TailorText>, title: Cell, image: Cell): (c: Columns)
    ensures Localized(Title, Es) in c && c[Localized(Title, Es)] == title
    ensures Shared(Image) in c && c[Shared(Image)] == image
    ensures forall k | k in c :: k == Shared(Image) || (k.Localized? && k.field in TailorFields)
  {
    TailorTexts(langs)[Localized(Title, Es) := title][Shared(Image) := image]
  }

  /** Apart from the Spanish title, each language column is `?.trim() || null` of its field. */
  lemma AddTailorTexts(langs: PerLang<TailorText>, title: Cell, image: Cell, f: Field, l: Lang)
    requires f in TailorFields && (f != Title || l != Es)
    ensures Localized(f, l) in AddTailorColumns(langs, title, image)
    ensures AddTailorColumns(langs, title, image)[Localized(f, l)] == TrimOrNull(langs.Get(l).Get(f))
  {
    var k := Localized(f, l);
    var texts := TailorTexts(langs);
    assert k in texts && texts[k] == TrimOrNull(langs.Get(l).Get(f));
    UpdatedElsewhere(texts, Localized(Title, Es), title, Shared(Image), image, k);
  }

  /**
   * `POST /api/tailor/addTailor`: 400 unless all three language objects, the
   * Spanish title and the image are given; the position is the row count,
   * so the new item goes last; a failed count throws (500, nothing written).
   */
  method AddTailor(t: Table, b: AddTailorBody, fails: Faults) returns (res: Response)
    modifies t
    ensures !AddTailorValid(b) ==> res == BadRequest && t.rows == old(t.rows)
    ensures AddTailorValid(b) && (fails.count || fails.insert) ==> res == ServerError && t.rows == old(t.rows)
    ensures AddTailorValid(b) && !fails.count && !fails.insert ==>
      res.Created? && res.order == Some(|old(t.rows)|) && res.id !in old(t.rows)
      && t.rows == old(t.rows)[res.id := Row(Some(|old(t.rows)|),
           AddTailorColumns(Present(b.langs), Text(Trim(b.langs.es.value.title.value)), Text(Trim(b.image.value))))]
    ensures Dense(old(t.rows)) && res.Created? ==> Dense(t.rows)
  {
    if !Complete(b.langs) {
      return BadRequest;
    }
    if !Given(b.langs.es.value.title) || !Given(b.image) {
      return BadRequest;
    }
    var n := t.Count(fails.count);
    if n.None? {
      return ServerError;
    }
    var cols := AddTailorColumns(Present(b.langs), Text(Trim(b.langs.es.value.title.value)), Text(Trim(b.image.value)));
    var id := t.Insert(cols, Some(n.value), fails.insert);
    if id.None? {
      return ServerError;
    }
    res := Created(id.value, Some(n.value));
    if Dense(old(t.rows)) {
      InsertDenseIff(old(t.rows), id.value, Row(Some(n.value), cols));
    }
  }

  /** The body of `PATCH /api/tailor/updateTailor`. */
  datatype UpdateTailorBody = UpdateTailorBody(
    id: Option<Id>, langs: PerLang<Option<TailorText>>, image: Option<string>, order: NumIn)

  /** The edit columns: every text and the image `?.trim() ?? null`, so "" is kept and only a missing value is NULL. */
  function UpdateTailorColumns(b: UpdateTailorBody): (c: Columns)
    ensures Shared(Image) in c && (c[Shared(Image)].Null? <==> b.image.None?)
    ensures b.image.Some? ==> c[Shared(Image)] == Text(Trim(b.image.value))
    ensures forall k | k in c :: k == Shared(Image) || (k.Localized? && k.field in TailorFields)
  {
    (map f, l | f in TailorFields :: Localized(f, l) := TrimOrKeep(TextOf(b.langs.Get(l), f)))
      [Shared(Image) := TrimOrKeep(b.image)]
  }

  /** Every language column of an edit is written, trimmed, NULL only when missing. */
  lemma UpdateTailorTexts(b: UpdateTailorBody, f: Field, l: Lang)
    requires f in TailorFields
    ensures Localized(f, l) in UpdateTailorColumns(b)
    ensures UpdateTailorColumns(b)[Localized(f, l)].Null? <==> TextOf(b.langs.Get(l), f).None?
    ensures TextOf(b.langs.Get(l), f).Some? ==>
      UpdateTailorColumns(b)[Localized(f, l)] == Text(Trim(TextOf(b.langs.Get(l), f).value))
  {
  }

  /**
   * `PATCH /api/tailor/updateTailor`: update the row (the `order` key only
   * when sent); when `order` was sent, renumber every row by rank afterwards.
   */
  method UpdateTailor(t: Table, b: UpdateTailorBody, fails: Faults) returns (res: Response)
    modifies t
    ensures NoId(b.id) ==> res == BadRequest && t.rows == old(t.rows)
    ensures !NoId(b.id) && b.id.value in fails.refused ==> res == ServerError && t.rows == old(t.rows)
    ensures !NoId(b.id) && b.id.value !in fails.refused ==>
      var patched := Patched(old(t.rows), b.id.value, UpdateTailorColumns(b), PatchOf(b.order));
      if b.order.Missing? then res == Done && t.rows == patched
      else if fails.fetch || fails.bulk then res == ServerError && t.rows == patched
      else res == Done && RankedRows(patched, t.rows)
  {
    res := PatchThenRank(t, b.id, UpdateTailorColumns(b), b.order, fails);
  }

  /** `DELETE /api/tailor/deleteTailor`: delete, then renumber the remaining items by rank and return the assignment. */
  method DeleteTailor(t: Table, id: Option<Id>, fails: Faults) returns (res: Response)
    modifies t
    ensures NoId(id) ==> res == BadRequest && t.rows == old(t.rows)
    ensures !NoId(id) && fails.remove ==> res == ServerError && t.rows == old(t.rows)
    ensures !NoId(id) && !fails.remove && (fails.fetch || fails.bulk) ==>
      res == ServerError && t.rows == old(t.rows) - {id.value}
    ensures !NoId(id) && !fails.remove && !fails.fetch && !fails.bulk ==>
      res.Renumbered? && Ranked(old(t.rows) - {id.value}, t.rows, res.assignments)
  {
    res := DeleteThenRank(t, id, fails);
  }

  /** `POST /api/tailor/updateTailorOrder`: every listed write is attempted; each refusal is reported. */
  method UpdateTailorOrder(t: Table, items: Option<seq<Assignment>>, refused: set<Id>) returns (res: Response)
    modifies t
    ensures items.None? ==> res == BadRequest && t.rows == old(t.rows)
    ensures items.Some? ==> t.rows == Written(old(t.rows), Accepted(items.value, refused))
    ensures items.Some? ==>
      res == (if RefusedIds(items.value, refused) == [] then Done else Failures(RefusedIds(items.value, refused)))
  {
    res := WriteAll(t, items, refused);
  }
}
