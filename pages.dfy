/**
 * The list pages of events, tailor-made items and blog posts: the search box
 * that filters the sorted list, the mapping of a stored record back into the
 * editing form, the submit that picks between insert and edit, and the
 * drag-and-drop reordering. A record is a `Listed<Columns>`: its id, its
 * position column and the rest of its columns.
 */
module Pages {
  import opened Base
  import opened Fields
  import opened Reorder
  import opened Rows
  import Forms
  import EventsApi
  import BlogTypes

  type Record = Listed<Columns>

  // ----- `record.x || ""` and the like -----

  /** `record.x || ""`: the stored text, or "" when the column is NULL or missing. */
  function TextOr(c: Columns, k: Column): string
  {
    if k in c && c[k].Text? then c[k].s else ""
  }

  /** A text stored `|| null` reads back as it was sent (an empty one was stored as NULL and reads back as ""). */
  lemma TextOrEmptyToNull(x: Option<string>, k: Column, c: Columns)
    requires k in c && c[k] == EmptyToNull(x)
    ensures TextOr(c, k) == x.GetOr("")
  {
  }

  /** A text stored `?.trim() || null` reads back trimmed (a blank one reads back as ""). */
  lemma TextOrTrimOrNull(x: Option<string>, k: Column, c: Columns)
    requires k in c && c[k] == TrimOrNull(x)
    ensures TextOr(c, k) == if x.None? then "" else Trim(x.value)
  {
    if x.Some? {
      TrimEmptyIffBlank(x.value);
    }
  }

  /** `record.tags_x || []`. */
  function TagsOr(c: Columns, k: Column): seq<string>
  {
    if k in c && c[k].TagList? then c[k].tags else []
  }

  /** A tag list stored by the routes (`NULL` for an empty one) reads back as the list that was sent. */
  lemma TagsOrTagsOrNull(t: seq<string>, k: Column, c: Columns)
    requires k in c && c[k] == TagsOrNull(Some(t))
    ensures TagsOr(c, k) == t
  {
  }

  // ----- the search box -----

  /**
   * `item.x_spanish?.toLowerCase().includes(term.toLowerCase())` of the events
   * (`name_spanish`) and tailor-made (`title_spanish`) pages: a record whose
   * Spanish column is NULL is never shown.
   */
  function SpanishSearch(f: Field, term: string): Record -> bool
  {
    (x: Record) => Localized(f, Es) in x.rest && x.rest[Localized(f, Es)].Text?
      && Contains(Lower(x.rest[Localized(f, Es)].s), Lower(term))
  }

  /** The blog page's `(b.title_spanish || '').toLowerCase().includes(search.toLowerCase())`. */
  function BlogSearch(term: string): Record -> bool
  {
    (x: Record) => Contains(Lower(TextOr(x.rest, Localized(Title, Es))), Lower(term))
  }

  /** With an empty search box the blog page shows every post, in order. */
  lemma BlogEmptySearchShowsAll(xs: seq<Record>)
    ensures Filter(xs, BlogSearch("")) == xs
  {
    forall i | 0 <= i < |xs|
      ensures BlogSearch("")(xs[i])
    {
      ContainsEmpty(Lower(TextOr(xs[i].rest, Localized(Title, Es))));
    }
    FilterAll(xs, BlogSearch(""));
  }

  /**
   * With an empty search box the events and tailor-made pages still hide the
   * records without a Spanish name or title: such a record is shown exactly
   * when that column holds a text.
   */
  lemma SpanishEmptySearch(f: Field, x: Record)
    ensures SpanishSearch(f, "")(x) <==> Localized(f, Es) in x.rest && x.rest[Localized(f, Es)].Text?
  {
    if Localized(f, Es) in x.rest && x.rest[Localized(f, Es)].Text? {
      ContainsEmpty(Lower(x.rest[Localized(f, Es)].s));
    }
  }

  lemma LowerIdempotent(s: string)
    ensures Lower(Lower(s)) == Lower(s)
  {
  }

  /** The search ignores the case of ASCII letters in the term. */
  lemma SearchIgnoresCase(f: Field, term: string, x: Record)
    ensures SpanishSearch(f, term)(x) == SpanishSearch(f, Lower(term))(x)
    ensures BlogSearch(term)(x) == BlogSearch(Lower(term))(x)
  {
    LowerIdempotent(term);
  }

  // ----- mapRecordToFormData -----

  function Section(c: Columns, fields: seq<Field>, l: Lang): (s: Forms.Section)
    ensures s.Keys == set f | f in fields
  {
    map f | f in fields :: TextOr(c, Localized(f, l))
  }

  function Sections(c: Columns, fields: seq<Field>): Forms.Texts
  {
    PerLang(Section(c, fields, Es), Section(c, fields, En), Section(c, fields, Pt))
  }

  lemma SectionsAt(c: Columns, fields: seq<Field>, l: Lang, f: Field)
    requires f in fields
    ensures f in Sections(c, fields).Get(l) && Sections(c, fields).Get(l)[f] == TextOr(c, Localized(f, l))
  {
  }

  /** `record.duration || 0`. */
  function IntOr(c: Columns, k: Column): int
  {
    if k in c && c[k].Int? then c[k].n else 0
  }

  /** The events page's `mapRecordToFormData`: every text `|| ""`, the duration `|| 0`. */
  function EventRecordForm(r: Record): (form: Forms.EventForm)
    ensures forall l :: form.texts.Get(l).Keys == set f | f in Forms.EventFields
  {
    var c := r.rest;
    Forms.EventForm(Sections(c, Forms.EventFields), TextOr(c, Shared(MediaUrl)), TextOr(c, Shared(DateTime)),
                    IntOr(c, Shared(Duration)), TextOr(c, Shared(Cost)), TextOr(c, Shared(RegisterLink)))
  }

  /**
   * Opening a stored event for editing fills the form with what was saved:
   * each text the body carried, and its duration.
   */
  lemma EventRecordRoundTrip(id: Id, order: Option<int>, b: EventsApi.EventBody, l: Lang, f: Field)
    requires f in Forms.EventFields
    ensures var form := EventRecordForm(Listed(id, order, EventsApi.EventColumns(b)));
      && f in form.texts.Get(l)
      && form.texts.Get(l)[f] == EventsApi.TextOf(b.langs.Get(l), f).GetOr("")
      && form.duration == b.duration.GetOr(0)
  {
    EventsApi.EventColumnsTexts(b, f, l);
    SectionsAt(EventsApi.EventColumns(b), Forms.EventFields, l, f);
  }

  /** The tailor-made page's `mapRecordToFormData`: every text and the image `|| ""`. */
  function TailorRecordForm(r: Record): (form: Forms.TailorForm)
    ensures forall l :: form.texts.Get(l).Keys == set f | f in Forms.TailorFields
    ensures form.image == TextOr(r.rest, Shared(Image))
  {
    Forms.TailorForm(Sections(r.rest, Forms.TailorFields), TextOr(r.rest, Shared(Image)))
  }

  /** A tailor-made record with every text and its image stored opens as a form that may be saved again. */
  lemma TailorRecordFormValid(r: Record)
    requires forall l, f | f in Forms.TailorFields ::
      Localized(f, l) in r.rest && r.rest[Localized(f, l)].Text? && !IsBlank(r.rest[Localized(f, l)].s)
    requires Shared(Image) in r.rest && r.rest[Shared(Image)].Text? && r.rest[Shared(Image)].s != ""
    ensures Forms.TailorFormValid(TailorRecordForm(r))
  {
    forall l, f | f in Forms.TailorFields
      ensures f in TailorRecordForm(r).texts.Get(l) && !IsBlank(TailorRecordForm(r).texts.Get(l)[f])
    {
      SectionsAt(r.rest, Forms.TailorFields, l, f);
    }
  }

  /** One language of the blog page's `mapRecordToForm`: texts `|| ''`, tags `|| []`. */
  function BlogLanguage(c: Columns, l: Lang): BlogTypes.LanguageData
  {
    BlogTypes.LanguageData(
      TextOr(c, Localized(Title, l)), TextOr(c, Localized(Excerpt, l)), TextOr(c, Localized(Content, l)),
      TextOr(c, Localized(MetaTitle, l)), TextOr(c, Localized(MetaDescription, l)),
      TextOr(c, Localized(Category, l)), TagsOr(c, Localized(Tags, l)))
  }

  /** `published` as stored; a non-boolean reads as unpublished. */
  function FlagOr(c: Columns, k: Column): bool
  {
    k in c && c[k].Flag? && c[k].b
  }

  /**
   * The blog page's `mapRecordToForm`: the Spanish title, excerpt and
   * content, the slug, the position and the published flag are copied from
   * the record (the form holds plain texts and a boolean, so a stored NULL
   * reads as "" or false), every other text `|| ''`, tags `|| []`, and
   * `social_links` is not carried over.
   */
  function BlogRecordForm(r: Record): (form: BlogTypes.FormData)
    ensures form.socialLinks.None?
    ensures form.orderNumber == r.order
    ensures forall l :: form.langs.Get(l).tags == TagsOr(r.rest, Localized(Tags, l))
    ensures Shared(Slug) in r.rest && r.rest[Shared(Slug)].Text? ==> form.slug == r.rest[Shared(Slug)].s
    ensures Shared(Published) in r.rest && r.rest[Shared(Published)].Flag? ==> form.published == r.rest[Shared(Published)].b
    ensures Localized(Title, Es) in r.rest && r.rest[Localized(Title, Es)].Text? ==>
      form.langs.es.title == r.rest[Localized(Title, Es)].s
    ensures Localized(Content, Es) in r.rest && r.rest[Localized(Content, Es)].Text? ==>
      form.langs.es.content == r.rest[Localized(Content, Es)].s
  {
    var c := r.rest;
    BlogTypes.FormData(
      PerLang(BlogLanguage(c, Es), BlogLanguage(c, En), BlogLanguage(c, Pt)),
      TextOr(c, Shared(CoverImageUrl)), Some(TextOr(c, Shared(OgImageUrl))), TextOr(c, Shared(Slug)),
      Some(TextOr(c, Shared(CanonicalUrl))), FlagOr(c, Shared(Published)), r.order,
      Some(TextOr(c, Shared(ClientId))), None)
  }

  // ----- handleSubmit -----

  /** What a submit sends: an insert, an edit of a record (with its id, or none), or nothing. */
  datatype Request = Insert | Edit(id: Option<Id>) | NotSent

  /**
   * The events and tailor-made pages: an edit without a record being edited
   * alerts and sends nothing; otherwise the edit carries that record's id.
   */
  function GuardedRequest(isEdit: bool, editing: Option<Id>): (r: Request)
    ensures r.Insert? <==> !isEdit
    ensures r.NotSent? <==> isEdit && editing.None?
    ensures r.Edit? ==> r.id == editing && editing.Some?
  {
    if !isEdit then Insert else if editing.None? then NotSent else Edit(editing)
  }

  /**
   * The blog page: `isEdit && editing ? { ...data, id } : data` sent to the
   * edit route whenever `isEdit`, so an edit without a record goes out
   * without an id.
   */
  function BlogRequest(isEdit: bool, editing: Option<Id>): (r: Request)
    ensures r.Insert? <==> !isEdit
    ensures isEdit ==> r == Edit(editing)
    ensures !r.NotSent?
  {
    if !isEdit then Insert else Edit(editing)
  }

  // ----- handleDragEnd -----

  /**
   * The tailor-made page's `handleDragEnd`, as written: the drop indices
   * number the shown (searched) list but splice the full list; every item
   * then gets its index as `order`, and only `{ id, order }` is posted.
   * Written in full to a table that holds exactly these items, the post
   * leaves its positions dense.
   */
  method TailorDragEnd(ghost rows: Rows, items: seq<Record>, term: string, drop: Drop)
    returns (list: seq<Record>, posted: Option<seq<Assignment>>)
    requires drop.destination.Some? ==>
      drop.source < |Filter(items, SpanishSearch(Title, term))| && drop.destination.value < |Filter(items, SpanishSearch(Title, term))|
    ensures drop.destination.None? ==> list == items && posted == None
    ensures drop.destination.Some? ==>
      drop.source < |items| && drop.destination.value < |items|
      && list == Renumbered(Moved(items, drop.source, drop.destination.value))
      && posted == Some(Payload(list))
    ensures drop.destination.Some? && UniqueIds(items)
      && (forall i | 0 <= i < |items| :: items[i].id in rows)
      && (forall k | k in rows :: exists i | 0 <= i < |items| :: items[i].id == k)
      ==> posted.Some? && Dense(Written(rows, posted.value))
  {
    if drop.destination.None? {
      return items, None;
    }
    var kept;
    list, kept := DragEnd(items, drop);
    posted := Some(Payload(list));
    if UniqueIds(items)
      && (forall i | 0 <= i < |items| :: items[i].id in rows)
      && (forall k | k in rows :: exists i | 0 <= i < |items| :: items[i].id == k)
    {
      MovedCovers(rows, items, drop.source, drop.destination.value);
      DragWriteDense(rows, Moved(items, drop.source, drop.destination.value));
    }
  }
}
