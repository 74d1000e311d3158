/**
 * The blog routes: `blogs/addBlog` (validate, count, insert),
 * `blogs/updateBlog` (write every column whose value is defined),
 * `blogs/deleteBlog` (delete only) and `blogs/updateBlogOrder` (write the
 * listed positions up to the first error).
 */
module BlogsApi {
  import opened Base
  import opened Fields
  import opened Rows
  import opened Store
  import opened Protocol
  import BlogTypes

  /** The per-language columns of a post. */
  const BlogFields: set<Field> := {Title, Excerpt, Content, MetaTitle, MetaDescription, Category, Tags}

  /** The columns without a language. */
  const BlogShared: set<Field> := {Slug, CoverImageUrl, OgImageUrl, CanonicalUrl, Published, ClientId, SocialLinksColumn}

  /** One language object of a request; `tags` is `None` when it is not an array. */
  datatype BlogIn = BlogIn(
    title: Option<string>, excerpt: Option<string>, content: Option<string>,
    metaTitle: Option<string>, metaDescription: Option<string>, category: Option<string>,
    tags: Option<seq<string>>)
  {
    function Get(f: Field): Option<string>
      requires f in BlogFields - {Tags}
    {
      match f
      case Title => title
      case Excerpt => excerpt
      case Content => content
      case MetaTitle => metaTitle
      case MetaDescription => metaDescription
      case Category => category
    }
  }

  /** `Español?.title` and the like: missing when the language object is. */
  function TextOf(p: Option<BlogIn>, f: Field): Option<string>
    requires f in BlogFields - {Tags}
  {
    if p.None? then None else p.value.Get(f)
  }

  function TagsOf(p: Option<BlogIn>): Option<seq<string>>
  {
    if p.None? then None else p.value.tags
  }

  /** The body of both `addBlog` and `updateBlog` (the latter also carries `id`). */
  datatype BlogBody = BlogBody(
    langs: PerLang<Option<BlogIn>>,
    slug: Option<string>, coverImageUrl: Option<string>, ogImageUrl: Option<string>,
    canonicalUrl: Option<string>, published: Scalar, order: NumIn,
    clientId: Option<string>, socialLinks: Option<BlogTypes.SocialLinks>)

  // ----- addBlog -----

  /** `!slug || !Español?.title || !Español?.excerpt || !Español?.content` rejects the body. */
  predicate AddBlogValid(b: BlogBody)
  {
    Given(b.slug) && Given(TextOf(b.langs.es, Title)) && Given(TextOf(b.langs.es, Excerpt))
    && Given(TextOf(b.langs.es, Content))
  }

  /**
   * An inserted language column: the Spanish title and excerpt trimmed, the
   * Spanish content as sent, other content `|| null`, tags only when a
   * non-empty array, every other text `?.trim() || null`.
   */
  function AddBlogCell(langs: PerLang<Option<BlogIn>>, f: Field, l: Lang): Cell
    requires f in BlogFields
  {
    if f == Tags then TagsOrNull(TagsOf(langs.Get(l)))
    else if l == Es && (f == Title || f == Excerpt) then TrimOrKeep(TextOf(langs.es, f))
    else if l == Es && f == Content then OrNull(TextOf(langs.es, f))
    else if f == Content then EmptyToNull(TextOf(langs.Get(l), f))
    else TrimOrNull(TextOf(langs.Get(l), f))
  }

  /** An inserted shared column. */
  function AddBlogSharedCell(b: BlogBody, f: Field): Cell
  {
    match f
    case Slug => TrimOrKeep(b.slug)
    case Published => Flag(Truthy(b.published))
    case ClientId => EmptyToNull(b.clientId)
    case SocialLinksColumn =>
      if b.socialLinks.None? || b.socialLinks.value == map[] then Null else Links(b.socialLinks.value)
    case CoverImageUrl => TrimOrNull(b.coverImageUrl)
    case OgImageUrl => TrimOrNull(b.ogImageUrl)
    case CanonicalUrl => TrimOrNull(b.canonicalUrl)
    case _ => Null
  }

  function AddBlogTexts(langs: PerLang<Option<BlogIn>>): (c: Columns)
    ensures forall k | k in c :: k.Localized?
    ensures forall f, l | f in BlogFields :: Localized(f, l) in c && c[Localized(f, l)] == AddBlogCell(langs, f, l)
  {
    map f, l | f in BlogFields :: Localized(f, l) := AddBlogCell(langs, f, l)
  }

  function AddBlogGeneral(b: BlogBody): (c: Columns)
    ensures forall k | k in c :: k.Shared?
    ensures forall f | f in BlogShared :: Shared(f) in c && c[Shared(f)] == AddBlogSharedCell(b, f)
  {
    map f | f in BlogShared :: Shared(f) := AddBlogSharedCell(b, f)
  }

  /** The inserted payload. */
  function AddBlogColumns(b: BlogBody): (c: Columns)
    ensures forall k | k in c :: (k.Localized? && k.field in BlogFields) || (k.Shared? && k.name in BlogShared)
  {
    AddBlogTexts(b.langs) + AddBlogGeneral(b)
  }

  /** The value of one inserted column, language or shared. */
  lemma AddBlogColumnsAt(b: BlogBody, k: Column)
    requires (k.Localized? && k.field in BlogFields) || (k.Shared? && k.name in BlogShared)
    ensures k in AddBlogColumns(b)
    ensures k.Localized? ==> AddBlogColumns(b)[k] == AddBlogCell(b.langs, k.field, k.lang)
    ensures k.Shared? ==> AddBlogColumns(b)[k] == AddBlogSharedCell(b, k.name)
  {
    if k.Localized? {
      assert k in AddBlogTexts(b.langs) && k !in AddBlogGeneral(b);
    } else {
      assert k in AddBlogGeneral(b);
    }
  }

  /** For a valid body the slug and the Spanish title and excerpt are stored trimmed. */
  lemma AddBlogRequired(b: BlogBody, f: Field)
    requires AddBlogValid(b) && f in {Title, Excerpt}
    ensures AddBlogSharedCell(b, Slug) == Text(Trim(b.slug.value))
    ensures AddBlogCell(b.langs, f, Es) == Text(Trim(TextOf(b.langs.es, f).value))
  {
  }

  /** The Spanish content of a valid body is stored exactly as sent, untrimmed. */
  lemma AddBlogSpanishContent(b: BlogBody)
    requires AddBlogValid(b)
    ensures AddBlogCell(b.langs, Content, Es) == Text(TextOf(b.langs.es, Content).value)
  {
  }

  /**
   * Every optional text column (meta fields, categories, the other languages'
   * titles and excerpts) is trimmed and never blank: NULL exactly when the
   * field is missing or blank.
   */
  lemma AddBlogOptionalTexts(langs: PerLang<Option<BlogIn>>, f: Field, l: Lang)
    requires f in {MetaTitle, MetaDescription, Category} || (f in {Title, Excerpt} && l != Es)
    ensures StoredText(AddBlogCell(langs, f, l))
    ensures AddBlogCell(langs, f, l).Null? <==> TextOf(langs.Get(l), f).None? || IsBlank(TextOf(langs.Get(l), f).value)
  {
    assert f != Tags && f != Content && f in BlogFields - {Tags};
    assert !(l == Es && (f == Title || f == Excerpt));
    assert AddBlogCell(langs, f, l) == TrimOrNull(TextOf(langs.Get(l), f));
  }

  /** The three URLs are trimmed and never blank, like the optional texts. */
  lemma AddBlogUrls(b: BlogBody, f: Field)
    requires f in {CoverImageUrl, OgImageUrl, CanonicalUrl}
    ensures StoredText(AddBlogSharedCell(b, f))
  {
  }

  /**
   * Tags are stored only as a non-empty list; English and Portuguese content
   * only when not ""; `published` is the truthiness of the sent value; the
   * link map only when it has a key.
   */
  lemma AddBlogGuards(b: BlogBody, l: Lang)
    ensures AddBlogCell(b.langs, Tags, l).Null? <==> TagsOf(b.langs.Get(l)).None? || TagsOf(b.langs.Get(l)).value == []
    ensures l != Es ==> (AddBlogCell(b.langs, Content, l).Null? <==> !Given(TextOf(b.langs.Get(l), Content)))
    ensures AddBlogSharedCell(b, Published) == Flag(Truthy(b.published))
    ensures AddBlogSharedCell(b, SocialLinksColumn).Null? <==> b.socialLinks.None? || b.socialLinks.value == map[]
  {
  }

  /** `order_number ?? count ?? 0`: a sent number wins, then the row count, then 0 when the count failed. */
  function AddBlogPosition(order: NumIn, count: Option<nat>): (p: int)
    ensures order.Num? ==> p == order.n
    ensures !order.Num? && count.Some? ==> p == count.value
    ensures !order.Num? && count.None? ==> p == 0
  {
    if order.Num? then order.n else if count.Some? then count.value else 0
  }

  /**
   * `POST /api/blogs/addBlog`: 400 unless slug and the Spanish title, excerpt
   * and content are given; a failed count is only logged; one insert, whose
   * failure is a 500.
   */
  method AddBlog(t: Table, b: BlogBody, fails: Faults) returns (res: Response)
    modifies t
    ensures !AddBlogValid(b) ==> res == BadRequest && t.rows == old(t.rows)
    ensures AddBlogValid(b) && fails.insert ==> res == ServerError && t.rows == old(t.rows)
    ensures AddBlogValid(b) && !fails.insert ==>
      var count := if fails.count then None else Some(|old(t.rows)|);
      res.Created? && res.id !in old(t.rows)
      && t.rows == old(t.rows)[res.id := Row(Some(AddBlogPosition(b.order, count)), AddBlogColumns(b))]
    ensures Dense(old(t.rows)) && res.Created? ==>
      (Dense(t.rows) <==> AddBlogPosition(b.order, if fails.count then None else Some(|old(t.rows)|)) == |old(t.rows)|)
  {
    if !AddBlogValid(b) {
      return BadRequest;
    }
    var n := t.Count(fails.count);
    var position := AddBlogPosition(b.order, n);
    var id := t.Insert(AddBlogColumns(b), Some(position), fails.insert);
    if id.None? {
      return ServerError;
    }
    res := Created(id.value, None);
    if Dense(old(t.rows)) {
      InsertDenseIff(old(t.rows), id.value, Row(Some(position), AddBlogColumns(b)));
    }
  }

  /** Without a sent position and with a working count, a new post goes last and a dense table stays dense. */
  lemma AddBlogAppends(rows: Rows, id: Id, b: BlogBody)
    requires Dense(rows) && id !in rows && !b.order.Num?
    ensures Dense(rows[id := Row(Some(AddBlogPosition(b.order, Some(|rows|))), AddBlogColumns(b))])
  {
    InsertDenseIff(rows, id, Row(Some(|rows|), AddBlogColumns(b)));
  }

  // ----- updateBlog -----

  /**
   * An edited language column, or `None` when its value is `undefined` and
   * the key is dropped: the Spanish title, excerpt and content are only
   * written when sent; every other column is always written.
   */
  function UpdateBlogCell(langs: PerLang<Option<BlogIn>>, f: Field, l: Lang): Option<Cell>
    requires f in BlogFields
  {
    if f == Tags then Some(TagsOrNull(TagsOf(langs.Get(l))))
    else if l == Es && (f == Title || f == Excerpt || f == Content) then
      (var x := TextOf(langs.es, f);
       if x.None? then None else if f == Content then Some(Text(x.value)) else Some(Text(Trim(x.value))))
    else if f == Content then Some(EmptyToNull(TextOf(langs.Get(l), f)))
    else Some(TrimOrNull(TextOf(langs.Get(l), f)))
  }

  /** An edited shared column, `None` when dropped: slug only when sent, `published` only a boolean, links only when truthy. */
  function UpdateBlogSharedCell(b: BlogBody, f: Field): Option<Cell>
  {
    match f
    case Slug => if b.slug.None? then None else Some(Text(Trim(b.slug.value)))
    case Published => if b.published.JsBool? then Some(Flag(b.published.b)) else None
    case ClientId => Some(EmptyToNull(b.clientId))
    case SocialLinksColumn => if b.socialLinks.None? then None else Some(Links(b.socialLinks.value))
    case CoverImageUrl => Some(TrimOrNull(b.coverImageUrl))
    case OgImageUrl => Some(TrimOrNull(b.ogImageUrl))
    case CanonicalUrl => Some(TrimOrNull(b.canonicalUrl))
    case _ => None
  }

  function UpdateBlogTexts(langs: PerLang<Option<BlogIn>>): (c: Columns)
    ensures forall k | k in c :: k.Localized?
    ensures forall f, l | f in BlogFields ::
      (Localized(f, l) in c <==> UpdateBlogCell(langs, f, l).Some?)
      && (Localized(f, l) in c ==> c[Localized(f, l)] == UpdateBlogCell(langs, f, l).value)
  {
    map f, l | f in BlogFields && UpdateBlogCell(langs, f, l).Some? :: Localized(f, l) := UpdateBlogCell(langs, f, l).value
  }

  function UpdateBlogGeneral(b: BlogBody): (c: Columns)
    ensures forall k | k in c :: k.Shared?
    ensures forall f | f in BlogShared ::
      (Shared(f) in c <==> UpdateBlogSharedCell(b, f).Some?)
      && (Shared(f) in c ==> c[Shared(f)] == UpdateBlogSharedCell(b, f).value)
  {
    map f | f in BlogShared && UpdateBlogSharedCell(b, f).Some? :: Shared(f) := UpdateBlogSharedCell(b, f).value
  }

  /** The update payload, keys with an `undefined` value left out. */
  function UpdateBlogColumns(b: BlogBody): (c: Columns)
    ensures forall k | k in c :: (k.Localized? && k.field in BlogFields) || (k.Shared? && k.name in BlogShared)
  {
    UpdateBlogTexts(b.langs) + UpdateBlogGeneral(b)
  }

  /** Whether and how one column is written by an edit. */
  lemma UpdateBlogColumnsAt(b: BlogBody, k: Column)
    requires (k.Localized? && k.field in BlogFields) || (k.Shared? && k.name in BlogShared)
    ensures k.Localized? ==>
      (k in UpdateBlogColumns(b) <==> UpdateBlogCell(b.langs, k.field, k.lang).Some?)
      && (k in UpdateBlogColumns(b) ==> UpdateBlogColumns(b)[k] == UpdateBlogCell(b.langs, k.field, k.lang).value)
    ensures k.Shared? ==>
      (k in UpdateBlogColumns(b) <==> UpdateBlogSharedCell(b, k.name).Some?)
      && (k in UpdateBlogColumns(b) ==> UpdateBlogColumns(b)[k] == UpdateBlogSharedCell(b, k.name).value)
  {
    if k.Localized? {
      assert k !in UpdateBlogGeneral(b);
    } else {
      assert k !in UpdateBlogTexts(b.langs);
    }
  }

  /**
   * An edit leaves a column alone exactly when its value is `undefined`: the
   * slug, the Spanish title, excerpt and content when not sent, `published`
   * when not a boolean and the links when not given; meta fields, categories
   * and tags are always written.
   */
  lemma UpdateBlogOmits(b: BlogBody, f: Field, l: Lang)
    ensures UpdateBlogSharedCell(b, Slug).Some? <==> b.slug.Some?
    ensures UpdateBlogSharedCell(b, Published).Some? <==> b.published.JsBool?
    ensures UpdateBlogSharedCell(b, SocialLinksColumn).Some? <==> b.socialLinks.Some?
    ensures f in {Title, Excerpt, Content} ==> (UpdateBlogCell(b.langs, f, Es).Some? <==> TextOf(b.langs.es, f).Some?)
    ensures f in {MetaTitle, MetaDescription, Category, Tags} ==> UpdateBlogCell(b.langs, f, l).Some?
  {
  }

  /** `typeof order_number === 'number'`: only a number is written; `null` and a missing key keep the position. */
  function BlogPatch(order: NumIn): (p: OrderPatch)
    ensures p.SetTo? <==> order.Num?
    ensures order.Num? ==> p.o == Some(order.n)
  {
    if order.Num? then SetTo(Some(order.n)) else Keep
  }

  /** `PATCH /api/blogs/updateBlog`: 400 without an id; one update of the defined columns, 500 when it fails. */
  method UpdateBlog(t: Table, id: Option<Id>, b: BlogBody, refused: set<Id>) returns (res: Response)
    modifies t
    ensures NoId(id) ==> res == BadRequest && t.rows == old(t.rows)
    ensures !NoId(id) && id.value in refused ==> res == ServerError && t.rows == old(t.rows)
    ensures !NoId(id) && id.value !in refused ==>
      res == Done && t.rows == Patched(old(t.rows), id.value, UpdateBlogColumns(b), BlogPatch(b.order))
  {
    if NoId(id) {
      return BadRequest;
    }
    var ok := t.Update(id.value, UpdateBlogColumns(b), BlogPatch(b.order), refused);
    res := if ok then Done else ServerError;
  }

  /** An edit without a slug keeps the stored slug. */
  lemma UpdateBlogKeepsSlug(rows: Rows, id: Id, b: BlogBody)
    requires id in rows && b.slug.None? && Shared(Slug) in rows[id].cols
    ensures Patched(rows, id, UpdateBlogColumns(b), BlogPatch(b.order))[id].cols[Shared(Slug)] == rows[id].cols[Shared(Slug)]
  {
    var cols := UpdateBlogColumns(b);
    assert UpdateBlogSharedCell(b, Slug) == None;
    assert Shared(Slug) !in UpdateBlogGeneral(b);
    assert Shared(Slug) !in UpdateBlogTexts(b.langs);
    assert Shared(Slug) !in cols;
    PatchedOnly(rows, id, cols, BlogPatch(b.order));
  }

  /** An edit without a numeric `order_number` keeps the stored position. */
  lemma UpdateBlogKeepsPosition(rows: Rows, id: Id, b: BlogBody)
    requires id in rows && !b.order.Num?
    ensures Patched(rows, id, UpdateBlogColumns(b), BlogPatch(b.order))[id].order == rows[id].order
  {
  }

  /** `DELETE /api/blogs/deleteBlog`: delete only; the other posts keep their positions. */
  method DeleteBlog(t: Table, id: Option<Id>, fails: Faults) returns (res: Response)
    modifies t
    ensures NoId(id) ==> res == BadRequest && t.rows == old(t.rows)
    ensures !NoId(id) ==> res == (if fails.remove then ServerError else Done)
    ensures !NoId(id) ==> t.rows == if fails.remove then old(t.rows) else old(t.rows) - {id.value}
  {
    if NoId(id) {
      return BadRequest;
    }
    var ok := t.Delete(id, fails.remove);
    res := if ok then Done else ServerError;
  }

  /** `POST /api/blogs/updateBlogOrder`: the listed positions in order, up to the first refused write. */
  method UpdateBlogOrder(t: Table, items: seq<Assignment>, refused: set<Id>) returns (res: Response)
    modifies t
    ensures t.rows == Written(old(t.rows), items[..FirstRefused(items, refused)])
    ensures res == (if FirstRefused(items, refused) == |items| then Done else ServerError)
  {
    res := WriteUntilRefused(t, items, refused);
  }
}
