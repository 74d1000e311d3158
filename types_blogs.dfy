/**
 * The blog types shared by the blog form, its editors and the blog routes:
 * per-language content, the form record, social links, the category table and
 * the empty form.
 */
module BlogTypes {
  import opened Base

  /** The six text fields of a language section (the translation hooks iterate them). */
  datatype TextField = Title | Excerpt | Content | MetaTitle | MetaDescription | Category

  const TextFields: seq<TextField> := [Title, Excerpt, Content, MetaTitle, MetaDescription, Category]

  /** `LanguageDataBlog`: the content of a post in one language. */
  datatype LanguageData = LanguageData(
    title: string, excerpt: string, content: string,
    metaTitle: string, metaDescription: string, category: string,
    tags: seq<string>)
  {
    function Get(f: TextField): string
    {
      match f
      case Title => title
      case Excerpt => excerpt
      case Content => content
      case MetaTitle => metaTitle
      case MetaDescription => metaDescription
      case Category => category
    }

    /** `{ ...data, [field]: value }` for one text field. */
    function With(f: TextField, v: string): (r: LanguageData)
      ensures r.Get(f) == v
      ensures forall g :: g != f ==> r.Get(g) == Get(g)
      ensures r.tags == tags
    {
      match f
      case Title => this.(title := v)
      case Excerpt => this.(excerpt := v)
      case Content => this.(content := v)
      case MetaTitle => this.(metaTitle := v)
      case MetaDescription => this.(metaDescription := v)
      case Category => this.(category := v)
    }
  }

  /** One entry of `social_links.custom`; `caption` is its `label`. */
  datatype CustomLink = CustomLink(caption: string, url: string, iconUrl: Option<string>)

  /** The keys of `SocialLinks`: five providers and the `custom` list. */
  datatype LinkKey = Facebook | Instagram | TikTok | X | LinkedIn | Custom

  const Providers: seq<LinkKey> := [Facebook, Instagram, TikTok, X, LinkedIn]

  /** A provider holds a URL string, `custom` holds a list. */
  datatype LinkValue = Url(url: string) | Entries(entries: seq<CustomLink>)

  type SocialLinks = map<LinkKey, LinkValue>

  /** `FormDataBlog`; optional members are `Option`s. */
  datatype FormData = FormData(
    langs: PerLang<LanguageData>,
    coverImageUrl: string,
    ogImageUrl: Option<string>,
    slug: string,
    canonicalUrl: Option<string>,
    published: bool,
    orderNumber: Option<int>,
    clientId: Option<string>,
    socialLinks: Option<SocialLinks>)

  const EmptyLanguage: LanguageData := LanguageData("", "", "", "", "", "", [])

  /** `emptyBlogFormData`. */
  const EmptyFormData: FormData :=
    FormData(PerLang(EmptyLanguage, EmptyLanguage, EmptyLanguage),
             "", Some(""), "", Some(""), false, Some(0), Some(""), Some(map[]))

  /** In the empty form every language has "" in each text field and no tags. */
  lemma EmptyFormDataLanguages(l: Lang, f: TextField)
    ensures EmptyFormData.langs.Get(l).Get(f) == ""
    ensures EmptyFormData.langs.Get(l).tags == []
  {
  }

  /** The empty form is unpublished, at position 0, with an empty link map. */
  lemma EmptyFormDataGeneral()
    ensures !EmptyFormData.published
    ensures EmptyFormData.orderNumber == Some(0)
    ensures EmptyFormData.socialLinks == Some(map[])
    ensures EmptyFormData.slug == "" && EmptyFormData.coverImageUrl == ""
  {
  }

  /** One entry of `BLOG_CATEGORIES`: its key and its name in each language. */
  datatype CategoryEntry = CategoryEntry(key: string, es: string, en: string, pt: string)
  {
    function Name(l: Lang): string
    {
      match l
      case Es => es
      case En => en
      case Pt => pt
    }
  }

  const BlogCategories: seq<CategoryEntry> := [
    CategoryEntry("Tecnología", "Tecnología", "Technology", "Tecnologia"),
    CategoryEntry("Retail", "Retail", "Retail", "Varejo"),
    CategoryEntry("Marketing", "Marketing", "Marketing", "Marketing"),
    CategoryEntry("Negocios", "Negocios", "Business", "Negócios"),
    CategoryEntry("Salud", "Salud", "Health", "Saúde"),
    CategoryEntry("Educación", "Educación", "Education", "Educação"),
    CategoryEntry("Entretenimiento", "Entretenimiento", "Entertainment", "Entretenimento"),
    CategoryEntry("Finanzas", "Finanzas", "Finance", "Finanças"),
    CategoryEntry("Turismo", "Turismo", "Tourism", "Turismo"),
    CategoryEntry("Gastronomía", "Gastronomía", "Gastronomy", "Gastronomia")
  ]

  /** Ten categories, with distinct keys, each named in all three languages and keyed by its Spanish name. */
  lemma CategoryTable()
    ensures |BlogCategories| == 10
    ensures forall i | 0 <= i < |BlogCategories| :: BlogCategories[i].key == BlogCategories[i].es
    ensures forall i, l | 0 <= i < |BlogCategories| :: BlogCategories[i].Name(l) != ""
    ensures forall i, j | 0 <= i < j < |BlogCategories| :: BlogCategories[i].key != BlogCategories[j].key
  {
  }
}
