/**
 * The blog editing form: the merge of the initial data with the empty form,
 * the per-language and general field changes, the image URL updates and the
 * check that enables the save button.
 */
module BlogForm {
  import opened Base
  import opened BlogTypes
  import Fields
  import Rows
  import BlogsApi

  // ----- the default merge -----

  /** One language of `initialData` as it may arrive: any member may be missing. */
  datatype LanguageIn = LanguageIn(
    title: Option<string>, excerpt: Option<string>, content: Option<string>,
    metaTitle: Option<string>, metaDescription: Option<string>, category: Option<string>,
    tags: Option<seq<string>>)
  {
    function Get(f: TextField): Option<string>
    {
      match f
      case Title => title
      case Excerpt => excerpt
      case Content => content
      case MetaTitle => metaTitle
      case MetaDescription => metaDescription
      case Category => category
    }
  }

  /** `initialData`, each member possibly missing. */
  datatype FormIn = FormIn(
    langs: PerLang<Option<LanguageIn>>,
    coverImageUrl: Option<string>, ogImageUrl: Option<string>, slug: Option<string>,
    canonicalUrl: Option<string>, published: Option<bool>, orderNumber: Option<int>,
    clientId: Option<string>, socialLinks: Option<SocialLinks>)

  /** `{ ...emptyBlogFormData.Español, ...initialData.Español }`. */
  function MergeLanguage(d: LanguageData, i: Option<LanguageIn>): LanguageData
  {
    if i.None? then d
    else
      LanguageData(i.value.title.GetOr(d.title), i.value.excerpt.GetOr(d.excerpt), i.value.content.GetOr(d.content),
                   i.value.metaTitle.GetOr(d.metaTitle), i.value.metaDescription.GetOr(d.metaDescription),
                   i.value.category.GetOr(d.category), i.value.tags.GetOr(d.tags))
  }

  /** The merge the form applies to `initialData`: the empty form, overlaid by what is present, language by language. */
  function Merge(i: FormIn): FormData
  {
    var e := EmptyFormData;
    FormData(
      PerLang(MergeLanguage(e.langs.es, i.langs.es), MergeLanguage(e.langs.en, i.langs.en), MergeLanguage(e.langs.pt, i.langs.pt)),
      i.coverImageUrl.GetOr(e.coverImageUrl),
      if i.ogImageUrl.Some? then i.ogImageUrl else e.ogImageUrl,
      i.slug.GetOr(e.slug),
      if i.canonicalUrl.Some? then i.canonicalUrl else e.canonicalUrl,
      i.published.GetOr(e.published),
      if i.orderNumber.Some? then i.orderNumber else e.orderNumber,
      if i.clientId.Some? then i.clientId else e.clientId,
      if i.socialLinks.Some? then i.socialLinks else e.socialLinks)
  }

  /** The form state before any edit: the merge when there is initial data, the empty form otherwise. */
  function InitialForm(i: Option<FormIn>): FormData
  {
    if i.None? then EmptyFormData else Merge(i.value)
  }

  /** A text of a language takes the initial value when it is present and "" when it is missing. */
  lemma MergeLanguageField(i: FormIn, l: Lang, f: TextField)
    ensures var m := Merge(i).langs.Get(l);
      && (i.langs.Get(l).Some? && i.langs.Get(l).value.Get(f).Some? ==> m.Get(f) == i.langs.Get(l).value.Get(f).value)
      && (i.langs.Get(l).None? || i.langs.Get(l).value.Get(f).None? ==> m.Get(f) == "")
      && (i.langs.Get(l).Some? && i.langs.Get(l).value.tags.Some? ==> m.tags == i.langs.Get(l).value.tags.value)
      && (i.langs.Get(l).None? || i.langs.Get(l).value.tags.None? ==> m.tags == [])
  {
  }

  /** After the merge every optional member is present: none of them is left undefined. */
  lemma MergeComplete(i: FormIn)
    ensures Merge(i).ogImageUrl.Some? && Merge(i).canonicalUrl.Some? && Merge(i).orderNumber.Some?
    ensures Merge(i).clientId.Some? && Merge(i).socialLinks.Some?
  {
  }

  /** `initialData` holding every member of a form. */
  function Full(d: FormData): FormIn
  {
    FormIn(PerLang(Some(FullLanguage(d.langs.es)), Some(FullLanguage(d.langs.en)), Some(FullLanguage(d.langs.pt))),
           Some(d.coverImageUrl), d.ogImageUrl, Some(d.slug), d.canonicalUrl, Some(d.published), d.orderNumber,
           d.clientId, d.socialLinks)
  }

  function FullLanguage(d: LanguageData): LanguageIn
  {
    LanguageIn(Some(d.title), Some(d.excerpt), Some(d.content), Some(d.metaTitle), Some(d.metaDescription),
               Some(d.category), Some(d.tags))
  }

  /** Initial data that carries every member is kept as it is; with no initial data the form starts empty. */
  lemma MergeKeepsFull(d: FormData)
    requires d.ogImageUrl.Some? && d.canonicalUrl.Some? && d.orderNumber.Some? && d.clientId.Some? && d.socialLinks.Some?
    ensures Merge(Full(d)) == d
    ensures InitialForm(None) == EmptyFormData
  {
  }

  /** Merging again changes nothing. */
  lemma MergeIdempotent(i: FormIn)
    ensures Merge(Full(Merge(i))) == Merge(i)
  {
    MergeComplete(i);
    MergeKeepsFull(Merge(i));
  }

  // ----- handleLanguageFieldChange / handleGeneralChange -----

  /** The value a language field change carries: a text for a text field, a list for `tags`. */
  datatype LanguageEdit = SetText(field: TextField, text: string) | SetTags(tags: seq<string>)

  /** `{ ...prev, [lang]: { ...prev[lang], [field]: value } }`. */
  function ChangeLanguageField(d: FormData, l: Lang, e: LanguageEdit): (r: FormData)
    ensures forall m | m != l :: r.langs.Get(m) == d.langs.Get(m)
    ensures r == d.(langs := r.langs)
    ensures e.SetText? ==> r.langs.Get(l) == d.langs.Get(l).With(e.field, e.text)
    ensures e.SetTags? ==> r.langs.Get(l) == d.langs.Get(l).(tags := e.tags)
  {
    var data := d.langs.Get(l);
    d.(langs := d.langs.Set(l, if e.SetText? then data.With(e.field, e.text) else data.(tags := e.tags)))
  }

  /** A language field change touches one field of one language: every other field, of every language, is kept. */
  lemma ChangeLanguageFieldOnly(d: FormData, l: Lang, e: LanguageEdit, m: Lang, g: TextField)
    requires m != l || e.SetTags? || g != e.field
    ensures ChangeLanguageField(d, l, e).langs.Get(m).Get(g) == d.langs.Get(m).Get(g)
    ensures m != l || e.SetText? ==> ChangeLanguageField(d, l, e).langs.Get(m).tags == d.langs.Get(m).tags
  {
  }

  /** The general members the form edits, each with its new value. */
  datatype GeneralEdit =
    | SetSlug(slug: string) | SetCanonicalUrl(url: string) | SetClientId(id: string)
    | SetPublished(published: bool) | SetOrderNumber(order: Option<int>) | SetSocialLinks(links: SocialLinks)

  /** `{ ...prev, [field]: value }` for a general member. */
  function ChangeGeneral(d: FormData, e: GeneralEdit): (r: FormData)
    ensures r.langs == d.langs && r.coverImageUrl == d.coverImageUrl && r.ogImageUrl == d.ogImageUrl
    ensures r.slug == (if e.SetSlug? then e.slug else d.slug)
    ensures r.canonicalUrl == (if e.SetCanonicalUrl? then Some(e.url) else d.canonicalUrl)
    ensures r.clientId == (if e.SetClientId? then Some(e.id) else d.clientId)
    ensures r.published == (if e.SetPublished? then e.published else d.published)
    ensures r.orderNumber == (if e.SetOrderNumber? then e.order else d.orderNumber)
    ensures r.socialLinks == (if e.SetSocialLinks? then Some(e.links) else d.socialLinks)
  {
    match e
    case SetSlug(s) => d.(slug := s)
    case SetCanonicalUrl(u) => d.(canonicalUrl := Some(u))
    case SetClientId(c) => d.(clientId := Some(c))
    case SetPublished(p) => d.(published := p)
    case SetOrderNumber(n) => d.(orderNumber := n)
    case SetSocialLinks(s) => d.(socialLinks := Some(s))
  }

  // ----- image uploads -----

  /**
   * `handleUploadCover` / `handleUploadOG`: `uploadToCloudinary` gives
   * `secure_url || null`, and the URL is set only when it is not null.
   */
  function UploadCover(d: FormData, url: Option<string>): (r: FormData)
    ensures Fields.Given(url) ==> r == d.(coverImageUrl := url.value)
    ensures !Fields.Given(url) ==> r == d
  {
    if Fields.Given(url) then d.(coverImageUrl := url.value) else d
  }

  function UploadOg(d: FormData, url: Option<string>): (r: FormData)
    ensures Fields.Given(url) ==> r == d.(ogImageUrl := url)
    ensures !Fields.Given(url) ==> r == d
  {
    if Fields.Given(url) then d.(ogImageUrl := url) else d
  }

  // ----- isFormValid -----

  const RequiredFields: seq<TextField> := [Title, Excerpt, Content, Category]

  /**
   * `isFormValid`: a non-blank slug, a cover image, and a non-blank title,
   * excerpt, content and category in every language; the meta fields and the
   * tags are not required.
   */
  predicate BlogFormValid(d: FormData)
  {
    !IsBlank(d.slug) && d.coverImageUrl != ""
    && forall l, f | f in RequiredFields :: !IsBlank(d.langs.Get(l).Get(f))
  }

  /** The meta fields and tags never decide validity. */
  lemma BlogFormValidIgnoresMeta(d: FormData, l: Lang, e: LanguageEdit)
    requires e.SetTags? || e.field == MetaTitle || e.field == MetaDescription
    ensures BlogFormValid(ChangeLanguageField(d, l, e)) == BlogFormValid(d)
  {
    forall m, f | f in RequiredFields
      ensures ChangeLanguageField(d, l, e).langs.Get(m).Get(f) == d.langs.Get(m).Get(f)
    {
      ChangeLanguageFieldOnly(d, l, e, m, f);
    }
  }

  /** The JSON body the form submits, as the blog routes read it. */
  function Body(d: FormData): BlogsApi.BlogBody
  {
    BlogsApi.BlogBody(
      PerLang(Some(BodyLanguage(d.langs.es)), Some(BodyLanguage(d.langs.en)), Some(BodyLanguage(d.langs.pt))),
      Some(d.slug), Some(d.coverImageUrl), d.ogImageUrl, d.canonicalUrl, Fields.JsBool(d.published),
      if d.orderNumber.Some? then Fields.Num(d.orderNumber.value) else Fields.Missing,
      d.clientId, d.socialLinks)
  }

  function BodyLanguage(d: LanguageData): BlogsApi.BlogIn
  {
    BlogsApi.BlogIn(Some(d.title), Some(d.excerpt), Some(d.content), Some(d.metaTitle), Some(d.metaDescription),
                    Some(d.category), Some(d.tags))
  }

  /**
   * A post saved from a fresh form still carries the form's initial
   * `order_number: 0`, so the insert route puts it at position 0; on a
   * dense table that already holds posts, the positions stop being dense.
   */
  lemma FreshFormInsertsFirst(rows: Rows.Rows, id: Rows.Id, d: FormData)
    requires d.orderNumber == EmptyFormData.orderNumber
    requires Rows.Dense(rows) && id !in rows && |rows| > 0
    ensures BlogsApi.AddBlogPosition(Body(d).order, Some(|rows|)) == 0
    ensures !Rows.Dense(rows[id := Rows.Row(Some(0), BlogsApi.AddBlogColumns(Body(d)))])
  {
    Rows.InsertDenseIff(rows, id, Rows.Row(Some(0), BlogsApi.AddBlogColumns(Body(d))));
  }

  lemma NotBlankNotEmpty(s: string)
    requires !IsBlank(s)
    ensures s != ""
  {
  }

  /** A form the save button lets through passes the insert route's own check. */
  lemma BlogFormAccepted(d: FormData)
    requires BlogFormValid(d)
    ensures BlogsApi.AddBlogValid(Body(d))
  {
    assert Title in RequiredFields && Excerpt in RequiredFields && Content in RequiredFields;
    NotBlankNotEmpty(d.slug);
    NotBlankNotEmpty(d.langs.Get(Es).Get(Title));
    NotBlankNotEmpty(d.langs.Get(Es).Get(Excerpt));
    NotBlankNotEmpty(d.langs.Get(Es).Get(Content));
  }
}
