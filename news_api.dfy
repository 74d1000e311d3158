/**
 * The news routes: `news/addNews` (insert with no position),
 * `news/deleteNews` (delete, then renumber by rank), `news/updateNews`
 * (edit with the editorial coalescing, renumber when a position is sent) and
 * `news/updateNewsOrder` (write the listed positions up to the first error).
 */
module NewsApi {
  import opened Base
  import opened Fields
  import opened Rows
  import opened Store
  import opened Protocol

  const NewsFields: set<Field> := {Title, Description, Editorial}

  /** One language object: `{ title?, description?, editorial? }`. */
  datatype NewsText = NewsText(title: Option<string>, description: Option<string>, editorial: Option<string>)
  {
    function Get(f: Field): Option<string>
      requires f in NewsFields
    {
      match f
      case Title => title
      case Description => description
      case Editorial => editorial
    }
  }

  /** `Español?.title` and the like: missing when the language object is. */
  function TextOf(p: Option<NewsText>, f: Field): Option<string>
    requires f in NewsFields
  {
    if p.None? then None else p.value.Get(f)
  }

  /** The body of `POST /api/news/addNews`. */
  datatype AddNewsBody = AddNewsBody(langs: PerLang<Option<NewsText>>, mediaUrl: Option<string>)

  /** The inserted columns: `?? null` keeps every string as sent ("" included) and stores NULL only for a missing one. */
  function AddNewsColumns(b: AddNewsBody): (c: Columns)
    ensures c.Keys == (set f, l | f in NewsFields :: Localized(f, l)) + {Shared(MediaUrl)}
    ensures forall f, l | f in NewsFields ::
      (c[Localized(f, l)].Null? <==> TextOf(b.langs.Get(l), f).None?) &&
      (c[Localized(f, l)].Text? ==> c[Localized(f, l)].s == TextOf(b.langs.Get(l), f).value)
    ensures c[Shared(MediaUrl)].Null? <==> b.mediaUrl.None?
    ensures forall f, l | f in NewsFields :: c[Localized(f, l)] == OrNull(TextOf(b.langs.Get(l), f))
    ensures c[Shared(MediaUrl)] == OrNull(b.mediaUrl)
  {
    (map f, l | f in NewsFields :: Localized(f, l) := OrNull(TextOf(b.langs.Get(l), f)))[Shared(MediaUrl) := OrNull(b.mediaUrl)]
  }

  /**
   * `POST /api/news/addNews`: one insert that sets no position, so the new row
   * takes the column default `defaultOrder`; no other row is touched.
   * `created` is the id the store assigned (the response does not carry it).
   */
  method AddNews(t: Table, b: AddNewsBody, defaultOrder: Option<int>, fails: Faults) returns (res: Response, created: Option<Id>)
    modifies t
    ensures fails.insert ==> res == ServerError && created.None? && t.rows == old(t.rows)
    ensures !fails.insert ==>
      res == Done && created.Some? && created.value !in old(t.rows)
      && t.rows == old(t.rows)[created.value := Row(defaultOrder, AddNewsColumns(b))]
    ensures Dense(old(t.rows)) && res == Done ==> (Dense(t.rows) <==> defaultOrder == Some(|old(t.rows)|))
  {
    created := t.Insert(AddNewsColumns(b), defaultOrder, fails.insert);
    res := if created.Some? then Done else ServerError;
    if created.Some? && Dense(old(t.rows)) {
      InsertDenseIff(old(t.rows), created.value, Row(defaultOrder, AddNewsColumns(b)));
    }
  }

  /** A text that `?.trim() || …` keeps: present and not blank. */
  predicate Filled(x: Option<string>)
  {
    x.Some? && !IsBlank(x.value)
  }

  /**
   * `editorial_spanish` of an edit: the first of the Spanish, English and
   * Portuguese editorials that is not blank, trimmed; NULL when all are blank.
   */
  function EditorialOf(langs: PerLang<Option<NewsText>>): (c: Cell)
    ensures StoredText(c)
    ensures c.Null? <==>
      !Filled(TextOf(langs.es, Editorial)) && !Filled(TextOf(langs.en, Editorial)) && !Filled(TextOf(langs.pt, Editorial))
    ensures Filled(TextOf(langs.es, Editorial)) ==> c == Text(Trim(TextOf(langs.es, Editorial).value))
    ensures !Filled(TextOf(langs.es, Editorial)) && Filled(TextOf(langs.en, Editorial)) ==>
      c == Text(Trim(TextOf(langs.en, Editorial).value))
    ensures !Filled(TextOf(langs.es, Editorial)) && !Filled(TextOf(langs.en, Editorial)) && Filled(TextOf(langs.pt, Editorial)) ==>
      c == Text(Trim(TextOf(langs.pt, Editorial).value))
  {
    var es := TrimOrNull(TextOf(langs.es, Editorial));
    var en := TrimOrNull(TextOf(langs.en, Editorial));
    var pt := TrimOrNull(TextOf(langs.pt, Editorial));
    if es.Text? then es else if en.Text? then en else pt
  }

  /** The body of `PATCH /api/news/updateNews`. */
  datatype UpdateNewsBody = UpdateNewsBody(
    id: Option<Id>, langs: PerLang<Option<NewsText>>,
    mediaUrl: Option<string>, newsLink: Option<string>, clientId: Option<string>, order: NumIn)

  /**
   * The edit columns: titles, descriptions, the media URL and the link are
   * trimmed with "" kept (`?.trim() ?? null`), the client id is trimmed with
   * "" turned into NULL, and of the editorials only the Spanish column is
   * written.
   */
  function UpdateNewsColumns(b: UpdateNewsBody): (c: Columns)
    ensures Localized(Editorial, Es) in c && c[Localized(Editorial, Es)] == EditorialOf(b.langs)
    ensures Shared(ClientId) in c && StoredText(c[Shared(ClientId)])
      && (c[Shared(ClientId)].Null? <==> b.clientId.None? || IsBlank(b.clientId.value))
    ensures Shared(MediaUrl) in c && c[Shared(MediaUrl)] == TrimOrKeep(b.mediaUrl)
    ensures Shared(NewsLink) in c && c[Shared(NewsLink)] == TrimOrKeep(b.newsLink)
    ensures forall k | k in c ::
      (k.Localized? && k.field in {Title, Description})
      || k in {Localized(Editorial, Es), Shared(MediaUrl), Shared(NewsLink), Shared(ClientId)}
  {
    EditTexts(b.langs) + EditOthers(b, EditorialOf(b.langs))
  }

  /** Every title and description column is written, trimmed, with "" kept. */
  lemma UpdateNewsTexts(b: UpdateNewsBody, f: Field, l: Lang)
    requires f in {Title, Description}
    ensures Localized(f, l) in UpdateNewsColumns(b)
    ensures UpdateNewsColumns(b)[Localized(f, l)] == TrimOrKeep(TextOf(b.langs.Get(l), f))
  {
    var texts := EditTexts(b.langs);
    var others := EditOthers(b, EditorialOf(b.langs));
    OthersNoText(b, EditorialOf(b.langs), f, l);
    MergedLeft(texts, others, Localized(f, l));
  }

  /** The editorial and shared columns of an edit hold no title or description. */
  lemma OthersNoText(b: UpdateNewsBody, editorial: Cell, f: Field, l: Lang)
    requires f in {Title, Description}
    ensures Localized(f, l) !in EditOthers(b, editorial)
  {
  }

  /** The English and Portuguese editorial columns are never written by an edit. */
  lemma EditorialOnlySpanish(b: UpdateNewsBody, l: Lang)
    requires l != Es
    ensures Localized(Editorial, l) !in UpdateNewsColumns(b)
  {
    assert Localized(Editorial, l) !in EditTexts(b.langs);
  }

  /** The title and description columns of an edit. */
  function EditTexts(langs: PerLang<Option<NewsText>>): (c: Columns)
    ensures forall k | k in c :: k.Localized? && k.field in {Title, Description}
    ensures forall f, l | f in {Title, Description} ::
      Localized(f, l) in c && c[Localized(f, l)] == TrimOrKeep(TextOf(langs.Get(l), f))
  {
    map f, l | f in {Title, Description} :: Localized(f, l) := TrimOrKeep(TextOf(langs.Get(l), f))
  }

  /** The Spanish editorial (`editorial`, already coalesced) and the shared columns of an edit. */
  function EditOthers(b: UpdateNewsBody, editorial: Cell): (c: Columns)
    ensures forall k | k in c :: k in {Localized(Editorial, Es), Shared(MediaUrl), Shared(NewsLink), Shared(ClientId)}
    ensures Localized(Editorial, Es) in c && c[Localized(Editorial, Es)] == editorial
    ensures Shared(MediaUrl) in c && c[Shared(MediaUrl)] == TrimOrKeep(b.mediaUrl)
    ensures Shared(NewsLink) in c && c[Shared(NewsLink)] == TrimOrKeep(b.newsLink)
    ensures Shared(ClientId) in c && c[Shared(ClientId)] == TrimOrNull(b.clientId)
  {
    map[Localized(Editorial, Es) := editorial, Shared(MediaUrl) := TrimOrKeep(b.mediaUrl),
        Shared(NewsLink) := TrimOrKeep(b.newsLink), Shared(ClientId) := TrimOrNull(b.clientId)]
  }

  /**
   * `PATCH /api/news/updateNews`: update the row; when `order_number` was sent
   * (a number or null), renumber every row by rank afterwards; when it was
   * not, no other row is touched.
   */
  method UpdateNews(t: Table, b: UpdateNewsBody, fails: Faults) returns (res: Response)
    modifies t
    ensures NoId(b.id) ==> res == BadRequest && t.rows == old(t.rows)
    ensures !NoId(b.id) && b.id.value in fails.refused ==> res == ServerError && t.rows == old(t.rows)
    ensures !NoId(b.id) && b.id.value !in fails.refused ==>
      var patched := Patched(old(t.rows), b.id.value, UpdateNewsColumns(b), PatchOf(b.order));
      if b.order.Missing? then res == Done && t.rows == patched
      else if fails.fetch || fails.bulk then res == ServerError && t.rows == patched
      else res == Done && RankedRows(patched, t.rows)
  {
    res := PatchThenRank(t, b.id, UpdateNewsColumns(b), b.order, fails);
  }

  /** `DELETE /api/news/deleteNews`: delete, then renumber the remaining news by rank. */
  method DeleteNews(t: Table, id: Option<Id>, fails: Faults) returns (res: Response)
    modifies t
    ensures NoId(id) ==> res == BadRequest && t.rows == old(t.rows)
    ensures !NoId(id) && fails.remove ==> res == ServerError && t.rows == old(t.rows)
    ensures !NoId(id) && !fails.remove && (fails.fetch || fails.bulk) ==>
      res == ServerError && t.rows == old(t.rows) - {id.value}
    ensures !NoId(id) && !fails.remove && !fails.fetch && !fails.bulk ==>
      res.Renumbered? && Ranked(old(t.rows) - {id.value}, t.rows, res.assignments)
  {
    res := DeleteThenRank(t, id, fails);
  }

  /** `POST /api/news/updateNewsOrder`: the listed positions in order, up to the first refused write. */
  method UpdateNewsOrder(t: Table, items: seq<Assignment>, refused: set<Id>) returns (res: Response)
    modifies t
    ensures t.rows == Written(old(t.rows), items[..FirstRefused(items, refused)])
    ensures res == (if FirstRefused(items, refused) == |items| then Done else ServerError)
    ensures items == [] ==> res == Done && t.rows == old(t.rows)
  {
    res := WriteUntilRefused(t, items, refused);
  }
}
