/**
 * Column values and the JavaScript coercions the routes apply to request
 * fields before writing them (`?.trim() || null`, `?? null`, `|| null`, the
 * tag and link guards).
 *
 * A text field of a request body is an `Option<string>`: JSON `null` and an
 * absent key behave alike under `?.`, `??` and `||`, so `None` stands for both.
 */
module Fields {
  import opened Base
  import opened BlogTypes

  /** A stored column value. */
  datatype Cell = Null | Text(s: string) | Int(n: int) | Flag(b: bool) | TagList(tags: seq<string>) | Links(links: SocialLinks)

  /** The column names the routes write, without their language suffix. */
  datatype Field =
    | Name | JobTitle | Country | Title | Subtitle | Description | Location | Category | Editorial
    | Excerpt | Content | MetaTitle | MetaDescription | Tags
    | MediaUrl | Image | DateTime | Duration | Cost | RegisterLink | NewsLink | ClientId
    | Slug | CoverImageUrl | OgImageUrl | CanonicalUrl | Published | SocialLinksColumn

  /** A column: `title_spanish` is `Localized(Title, Es)`, `media_url` is `Shared(MediaUrl)`. */
  datatype Column = Localized(field: Field, lang: Lang) | Shared(name: Field)

  type Columns = map<Column, Cell>

  /** A column only the left payload names keeps its left value in the merged payload. */
  lemma MergedLeft(left: Columns, right: Columns, k: Column)
    requires k in left && k !in right
    ensures k in left + right && (left + right)[k] == left[k]
  {
  }

  /** Two writes at other columns leave the entry at `k` as it was. */
  lemma UpdatedElsewhere(m: Columns, a: Column, x: Cell, b: Column, y: Cell, k: Column)
    requires k in m && k != a && k != b
    ensures k in m[a := x][b := y] && m[a := x][b := y][k] == m[k]
  {
  }

  /** A JSON scalar from a request body; `Absent` is a missing key (`undefined`). */
  datatype Scalar = Absent | JsNull | JsBool(b: bool) | JsNumber(n: int) | JsString(s: string)

  /** JavaScript truthiness (`!!x`). */
  predicate Truthy(x: Scalar)
  {
    match x
    case Absent => false
    case JsNull => false
    case JsBool(b) => b
    case JsNumber(n) => n != 0
    case JsString(s) => s != ""
  }

  /** `!!x` for a string that may be missing: present and not "". */
  predicate Given(x: Option<string>)
  {
    x.Some? && x.value != ""
  }

  /** A position value from a request body: absent, `null`, or a number. */
  datatype NumIn = Missing | NullNum | Num(n: int)

  /** What the store keeps of a trimmed, non-blank text: never blank, never padded. */
  predicate StoredText(c: Cell)
  {
    c.Null? || (c.Text? && c.s != "" && Trim(c.s) == c.s)
  }

  /** `x?.trim() || null`: blank and missing both become NULL, everything else is trimmed. */
  function TrimOrNull(x: Option<string>): (c: Cell)
    ensures StoredText(c)
    ensures c.Null? <==> x.None? || IsBlank(x.value)
    ensures c.Text? ==> c.s == Trim(x.value)
  {
    if x.None? then Null
    else
      TrimEmptyIffBlank(x.value);
      TrimIdempotent(x.value);
      if Trim(x.value) == "" then Null else Text(Trim(x.value))
  }

  /** `x?.trim() ?? null`: only a missing value becomes NULL; "" stays "". */
  function TrimOrKeep(x: Option<string>): (c: Cell)
    ensures c.Null? <==> x.None?
    ensures x.Some? ==> c == Text(Trim(x.value))
  {
    if x.None? then Null else Text(Trim(x.value))
  }

  /** `x ?? null`: only a missing value becomes NULL. */
  function OrNull(x: Option<string>): (c: Cell)
    ensures c.Null? <==> x.None?
    ensures x.Some? ==> c == Text(x.value)
  {
    if x.None? then Null else Text(x.value)
  }

  /** `x || null`: "" and missing become NULL, any other string is kept untrimmed. */
  function EmptyToNull(x: Option<string>): (c: Cell)
    ensures c.Null? <==> x.None? || x.value == ""
    ensures c.Text? ==> c.s == x.value
  {
    if x.None? || x.value == "" then Null else Text(x.value)
  }

  /** `Array.isArray(t) && t.length ? t : null`; `None` is a value that is not an array. */
  function TagsOrNull(t: Option<seq<string>>): (c: Cell)
    ensures c.Null? <==> t.None? || t.value == []
    ensures c.TagList? ==> c.tags == t.value && c.tags != []
  {
    if t.None? || t.value == [] then Null else TagList(t.value)
  }
}
