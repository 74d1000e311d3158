/**
 * The editing forms of events, tailor-made items, news and clients. Each
 * holds one text section per language (field name to text) and a few shared
 * values; the handlers change one field, fan a translation out from one
 * language to the other two, record an uploaded file's URL, and decide
 * whether the form may be saved.
 */
module Forms {
  import opened Base
  import opened Fields
  import opened Translation
  import TailorApi

  /** One language section of a form: its field names and their texts. */
  type Section = map<Field, string>

  type Texts = PerLang<Section>

  const EventFields: seq<Field> := [Name, Location, Category, Description]
  const TailorFields: seq<Field> := [Title, Subtitle, Description]
  const NewsFields: seq<Field> := [Title, Description, Editorial]
  const ClientFields: seq<Field> := [Name, Country, JobTitle, Description]

  /** A section with "" in each of `fields`, as the forms start. */
  function EmptySection(fields: seq<Field>): (s: Section)
    ensures s.Keys == set f | f in fields
    ensures forall f | f in s :: s[f] == ""
  {
    map f | f in fields :: ""
  }

  // ----- handleTextChange / handleLangChange -----

  /** `{ ...prev, [lang]: { ...prev[lang], [field]: value } }`. */
  function ChangeText(t: Texts, l: Lang, f: Field, v: string): Texts
  {
    t.Set(l, t.Get(l)[f := v])
  }

  /** A text change sets the named field of the named language and changes no other field of any language. */
  lemma ChangeTextOnly(t: Texts, l: Lang, f: Field, v: string)
    ensures ChangeText(t, l, f, v).Get(l)[f] == v
    ensures forall m | m != l :: ChangeText(t, l, f, v).Get(m) == t.Get(m)
    ensures ChangeText(t, l, f, v).Get(l).Keys == t.Get(l).Keys + {f}
    ensures forall g | g in t.Get(l) && g != f :: ChangeText(t, l, f, v).Get(l)[g] == t.Get(l)[g]
  {
  }

  // ----- handleTranslate -----

  /** What one translation call gives for a text: text, source code, target code to the text written. */
  type Translator = (string, string, string) -> string

  /** One field of one target language after `updated[target][field] = translated`. */
  function TranslatedInto(s: Section, f: Field, text: string, src: Lang, l: Lang, tr: Translator): Section
  {
    if l == src then s else s[f := tr(text, Code(src), Code(l))]
  }

  /** The inner loop of `handleTranslate` for one field: every language but the source receives the translation of `text`. */
  function TranslatedField(u: Texts, f: Field, text: string, src: Lang, tr: Translator): Texts
  {
    PerLang(TranslatedInto(u.es, f, text, src, Es, tr),
            TranslatedInto(u.en, f, text, src, En, tr),
            TranslatedInto(u.pt, f, text, src, Pt, tr))
  }

  /** The sections after `handleTranslate(src)` has gone through `fields`, each source text read from `t`. */
  function TranslatedTexts(t: Texts, fields: seq<Field>, src: Lang, tr: Translator): Texts
    requires forall f | f in fields :: f in t.Get(src)
    decreases |fields|
  {
    if fields == [] then t
    else
      var f := fields[|fields| - 1];
      TranslatedField(TranslatedTexts(t, fields[..|fields| - 1], src, tr), f, t.Get(src)[f], src, tr)
  }

  lemma TranslatedFieldAt(u: Texts, f: Field, text: string, src: Lang, tr: Translator, l: Lang)
    ensures TranslatedField(u, f, text, src, tr).Get(l) == TranslatedInto(u.Get(l), f, text, src, l, tr)
  {
  }

  /** `handleTranslate(src)` leaves the source language as it was. */
  lemma {:induction false} TranslatedKeepsSource(t: Texts, fields: seq<Field>, src: Lang, tr: Translator)
    requires forall f | f in fields :: f in t.Get(src)
    ensures TranslatedTexts(t, fields, src, tr).Get(src) == t.Get(src)
    decreases |fields|
  {
    if fields != [] {
      var f := fields[|fields| - 1];
      TranslatedKeepsSource(t, fields[..|fields| - 1], src, tr);
      TranslatedFieldAt(TranslatedTexts(t, fields[..|fields| - 1], src, tr), f, t.Get(src)[f], src, tr, src);
    }
  }

  /**
   * In a language other than the source, after `handleTranslate(src)` a
   * listed field holds the translation of its source text, and any other
   * field keeps its text; no field is dropped and only listed ones are added.
   */
  lemma {:induction false} TranslatedTextsAt(t: Texts, fields: seq<Field>, src: Lang, tr: Translator, l: Lang, g: Field)
    requires forall f | f in fields :: f in t.Get(src)
    requires l != src
    ensures g in TranslatedTexts(t, fields, src, tr).Get(l) <==> g in t.Get(l) || g in fields
    ensures g in fields ==> TranslatedTexts(t, fields, src, tr).Get(l)[g] == tr(t.Get(src)[g], Code(src), Code(l))
    ensures g in t.Get(l) && g !in fields ==> TranslatedTexts(t, fields, src, tr).Get(l)[g] == t.Get(l)[g]
    decreases |fields|
  {
    if fields != [] {
      var init := fields[..|fields| - 1];
      var f := fields[|fields| - 1];
      assert fields == init + [f];
      assert g in fields <==> g in init || g == f;
      TranslatedTextsAt(t, init, src, tr, l, g);
      var before := TranslatedTexts(t, init, src, tr);
      TranslatedFieldAt(before, f, t.Get(src)[f], src, tr, l);
      TranslatedIntoAt(before.Get(l), f, t.Get(src)[f], src, l, tr, g);
    }
  }

  /** Writing a translation into a language other than the source sets that one field. */
  lemma TranslatedIntoAt(s: Section, f: Field, text: string, src: Lang, l: Lang, tr: Translator, g: Field)
    requires l != src
    ensures g in TranslatedInto(s, f, text, src, l, tr) <==> g in s || g == f
    ensures g in TranslatedInto(s, f, text, src, l, tr) ==>
      TranslatedInto(s, f, text, src, l, tr)[g] == if g == f then tr(text, Code(src), Code(l)) else s[g]
  {
  }

  /** The sections once the inner loop of `handleTranslate` has gone through the first `j` languages. */
  function TranslatedUpTo(u: Texts, f: Field, text: string, src: Lang, tr: Translator, j: nat): Texts
  {
    PerLang(if 0 < j then TranslatedInto(u.es, f, text, src, Es, tr) else u.es,
            if 1 < j then TranslatedInto(u.en, f, text, src, En, tr) else u.en,
            if 2 < j then TranslatedInto(u.pt, f, text, src, Pt, tr) else u.pt)
  }

  /** One step of the inner loop: the `j`-th language, unless it is the source, receives the translation. */
  lemma TranslatedUpToStep(u: Texts, f: Field, text: string, src: Lang, tr: Translator, j: nat)
    requires j < |Langs|
    ensures var v := TranslatedUpTo(u, f, text, src, tr, j);
      var target := Langs[j];
      TranslatedUpTo(u, f, text, src, tr, j + 1) ==
      if target != src then v.Set(target, v.Get(target)[f := tr(text, Code(src), Code(target))]) else v
  {
    var v := TranslatedUpTo(u, f, text, src, tr, j);
    if j == 0 {
      assert Langs[j] == Es;
      assert TranslatedUpTo(u, f, text, src, tr, j + 1) == v.(es := TranslatedInto(u.es, f, text, src, Es, tr));
    } else if j == 1 {
      assert Langs[j] == En;
      assert TranslatedUpTo(u, f, text, src, tr, j + 1) == v.(en := TranslatedInto(u.en, f, text, src, En, tr));
    } else {
      assert Langs[j] == Pt;
      assert TranslatedUpTo(u, f, text, src, tr, j + 1) == v.(pt := TranslatedInto(u.pt, f, text, src, Pt, tr));
    }
  }

  /** The inner loop of `handleTranslate`: every language but the source receives the translation of `original` into `field`. */
  method TranslateIntoOthers(u: Texts, field: Field, original: string, src: Lang, tr: Translator) returns (updated: Texts)
    ensures updated == TranslatedField(u, field, original, src, tr)
  {
    updated := u;
    var j := 0;
    while j < |Langs|
      invariant 0 <= j <= |Langs|
      invariant updated == TranslatedUpTo(u, field, original, src, tr, j)
    {
      var target := Langs[j];
      TranslatedUpToStep(u, field, original, src, tr, j);
      if target != src {
        updated := updated.Set(target, updated.Get(target)[field := tr(original, Code(src), Code(target))]);
      }
      j := j + 1;
    }
  }

  /**
   * `handleTranslate`: for each field, for each language other than the
   * source, the translation of the source text is written into `updated`.
   */
  method HandleTranslate(t: Texts, fields: seq<Field>, src: Lang, tr: Translator) returns (updated: Texts)
    requires forall f | f in fields :: f in t.Get(src)
    ensures updated == TranslatedTexts(t, fields, src, tr)
  {
    updated := t;
    var i := 0;
    while i < |fields|
      invariant 0 <= i <= |fields|
      invariant updated == TranslatedTexts(t, fields[..i], src, tr)
    {
      var field := fields[i];
      var original := t.Get(src)[field];
      updated := TranslateIntoOthers(updated, field, original, src, tr);
      assert fields[..i + 1][..i] == fields[..i];
      i := i + 1;
    }
    assert fields[..i] == fields;
  }

  /** The events, tailor-made and news forms translate through the chunked `translateText`. */
  function Chunked(svc: Service): Translator
  {
    (text, src, tgt) => TranslateText(svc, text, src, tgt)
  }

  /** The clients form translates each text in one call. */
  function Whole(svc: Service): Translator
  {
    (text, src, tgt) => TranslateWhole(svc, text, src, tgt)
  }

  /**
   * When the service translates nothing (every reply failed or empty), a
   * translation from `src` copies the source texts into the other languages.
   */
  lemma TranslateFallbackCopies(t: Texts, fields: seq<Field>, src: Lang, svc: Service, l: Lang, f: Field)
    requires forall f | f in fields :: f in t.Get(src)
    requires l != src
    requires forall c, a, b :: svc(c, a, b) == Translated("") || svc(c, a, b) == Failed
    requires f in fields
    ensures f in TranslatedTexts(t, fields, src, Chunked(svc)).Get(l)
    ensures TranslatedTexts(t, fields, src, Chunked(svc)).Get(l)[f] == t.Get(src)[f]
  {
    TranslatedTextsAt(t, fields, src, Chunked(svc), l, f);
    TranslateTextFallback(svc, t.Get(src)[f], Code(src), Code(l));
  }

  // ----- validity -----

  /** `!data.x?.trim()` is false for every listed field of every language. */
  predicate Filled(t: Texts, fields: seq<Field>)
  {
    forall l, f | f in fields :: f in t.Get(l) && !IsBlank(t.Get(l)[f])
  }

  /** The events form (`FormDataEvents`). */
  datatype EventForm = EventForm(texts: Texts, mediaUrl: string, dateTime: string, duration: int, cost: string, registerLink: string)

  /**
   * The events form's `isFormValid`; `hasDate` is whether the date picker
   * holds a date. Every text of every language non-blank, an uploaded
   * media URL, a date, a positive duration, a non-blank cost and register link.
   */
  predicate EventFormValid(form: EventForm, hasDate: bool)
  {
    Filled(form.texts, EventFields) && form.mediaUrl != "" && hasDate && form.duration > 0
    && !IsBlank(form.cost) && !IsBlank(form.registerLink)
  }

  /** One blank text, in any language, keeps the events form from being saved. */
  lemma EventFormInvalid(form: EventForm, hasDate: bool, l: Lang, f: Field)
    requires f in EventFields && (f !in form.texts.Get(l) || IsBlank(form.texts.Get(l)[f]))
    ensures !EventFormValid(form, hasDate)
  {
  }

  /** The tailor-made form (`FormDataTailor`). */
  datatype TailorForm = TailorForm(texts: Texts, image: string)

  /** The tailor-made form's `isFormValid`: title, subtitle and description non-blank in every language, and an image. */
  predicate TailorFormValid(form: TailorForm)
  {
    Filled(form.texts, TailorFields) && form.image != ""
  }

  /** The body the tailor-made form submits to `addTailor`. */
  function TailorBody(form: TailorForm): (b: TailorApi.AddTailorBody)
    requires Filled(form.texts, TailorFields)
    ensures Complete(b.langs)
    ensures b.image == Some(form.image)
    ensures forall l :: Title in form.texts.Get(l) && b.langs.Get(l).value.title == Some(form.texts.Get(l)[Title])
  {
    assert Title in TailorFields && Subtitle in TailorFields && Description in TailorFields;
    var t := form.texts;
    TailorApi.AddTailorBody(PerLang(Some(TailorLang(t.Get(Es))), Some(TailorLang(t.Get(En))), Some(TailorLang(t.Get(Pt)))),
                            Some(form.image))
  }

  function TailorLang(s: Section): TailorApi.TailorText
    requires Title in s && Subtitle in s && Description in s
  {
    TailorApi.TailorText(Some(s[Title]), Some(s[Subtitle]), Some(s[Description]))
  }

  /** A form the tailor-made form lets through passes the route's own check (Spanish title and image present). */
  lemma TailorFormAccepted(form: TailorForm)
    requires TailorFormValid(form)
    ensures TailorApi.AddTailorValid(TailorBody(form))
  {
    assert Title in TailorFields;
    assert !IsBlank(form.texts.Get(Es)[Title]);
  }

  /** The news form (`FormDataNews`). */
  datatype NewsForm = NewsForm(texts: Texts, mediaUrl: string)

  /** The clients form. */
  datatype ClientForm = ClientForm(texts: Texts, mediaUrl: string)

  // ----- uploads -----

  /**
   * `if (data.secure_url) setFormData({ ...prev, media_url: data.secure_url })`
   * (and the clients form's `data.url`): the URL changes only when the upload
   * returned a non-empty one.
   */
  function Uploaded(current: string, url: Option<string>): (r: string)
    ensures Given(url) ==> r == url.value
    ensures !Given(url) ==> r == current
  {
    if Given(url) then url.value else current
  }

  /**
   * The tailor-made form's `handleUpload`: with a URL the image is set and
   * the URL returned; without one it throws (`None`) and the form is kept.
   */
  function TailorUpload(form: TailorForm, secureUrl: Option<string>): (r: (TailorForm, Option<string>))
    ensures Given(secureUrl) ==> r.0 == form.(image := secureUrl.value) && r.1 == secureUrl
    ensures !Given(secureUrl) ==> r.0 == form && r.1.None?
  {
    if Given(secureUrl) then (form.(image := secureUrl.value), secureUrl) else (form, None)
  }
}
