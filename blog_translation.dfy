/**
 * The two translation hooks of the blog form. Both copy the form, then for
 * each text field whose source text is not blank write its translation into
 * every other language, and then, when the source language has tags, give
 * every other language the translations of the source's non-blank tags.
 * `useTranslation` translates through the chunked MyMemory call;
 * `useBlogTranslation` first checks for a Google API key and translates
 * through Google.
 */
module BlogTranslation {
  import opened Base
  import opened BlogTypes
  import opened Translation

  /** A translation call as the hooks use it: the text and the target language to the text written. */
  type Tr = (string, Lang) -> string

  // ----- specification of the fan-out -----

  /** One language after `updated[targetLang][field] = translated`; the source language is skipped. */
  function FieldInto(x: LanguageData, f: TextField, text: string, src: Lang, l: Lang, tr: Tr): LanguageData
  {
    if l == src then x else x.With(f, tr(text, l))
  }

  /** The loop over the three languages for one field (`translateFieldForAllLanguages`). */
  function FieldForAll(u: PerLang<LanguageData>, f: TextField, text: string, src: Lang, tr: Tr): PerLang<LanguageData>
  {
    PerLang(FieldInto(u.es, f, text, src, Es, tr), FieldInto(u.en, f, text, src, En, tr), FieldInto(u.pt, f, text, src, Pt, tr))
  }

  /**
   * The languages after the field loop has gone through `fields`: a field
   * whose text in the source language (as read from the copy) is blank is
   * skipped.
   */
  function TranslatedFields(d: PerLang<LanguageData>, fields: seq<TextField>, src: Lang, tr: Tr): PerLang<LanguageData>
    decreases |fields|
  {
    if fields == [] then d
    else
      var u := TranslatedFields(d, fields[..|fields| - 1], src, tr);
      var f := fields[|fields| - 1];
      var text := u.Get(src).Get(f);
      if IsBlank(text) then u else FieldForAll(u, f, text, src, tr)
  }

  /** The loop over the source tags (`translateTags`): each non-blank tag, translated, in order. */
  function TranslatedTags(tags: seq<string>, l: Lang, tr: Tr): seq<string>
    decreases |tags|
  {
    if tags == [] then []
    else
      var tag := tags[|tags| - 1];
      TranslatedTags(tags[..|tags| - 1], l, tr) + (if IsBlank(tag) then [] else [tr(tag, l)])
  }

  /** One language after `updated[targetLang].tags = translatedTags`; the source language is skipped. */
  function TagsInto(x: LanguageData, tags: seq<string>, src: Lang, l: Lang, tr: Tr): LanguageData
  {
    if l == src then x else x.(tags := TranslatedTags(tags, l, tr))
  }

  /** The loop over the three languages for the tags (`translateTagsForAllLanguages`). */
  function TagsForAll(u: PerLang<LanguageData>, tags: seq<string>, src: Lang, tr: Tr): PerLang<LanguageData>
  {
    PerLang(TagsInto(u.es, tags, src, Es, tr), TagsInto(u.en, tags, src, En, tr), TagsInto(u.pt, tags, src, Pt, tr))
  }

  /** `translateContent` once the translation calls are fixed: the fields, then the tags when the source has any. */
  function TranslatedForm(d: FormData, src: Lang, tr: Tr, tagTr: Tr): FormData
  {
    var u := TranslatedFields(d.langs, TextFields, src, tr);
    var tags := u.Get(src).tags;
    d.(langs := if |tags| > 0 then TagsForAll(u, tags, src, tagTr) else u)
  }

  // ----- what the fan-out does -----

  /** The non-blank tags of a list, in order: the reference the tag loop is measured against. */
  function NonBlank(tags: seq<string>): (r: seq<string>)
    ensures forall i | 0 <= i < |r| :: !IsBlank(r[i])
    decreases |tags|
  {
    if tags == [] then []
    else if IsBlank(tags[0]) then NonBlank(tags[1..])
    else [tags[0]] + NonBlank(tags[1..])
  }

  /** A list without blank tags is kept whole. */
  lemma {:induction false} NonBlankKeepsAll(tags: seq<string>)
    requires forall i | 0 <= i < |tags| :: !IsBlank(tags[i])
    ensures NonBlank(tags) == tags
    decreases |tags|
  {
    if tags != [] {
      NonBlankKeepsAll(tags[1..]);
    }
  }

  lemma {:induction false} NonBlankSnoc(tags: seq<string>, tag: string)
    ensures NonBlank(tags + [tag]) == NonBlank(tags) + (if IsBlank(tag) then [] else [tag])
    decreases |tags|
  {
    if tags == [] {
      assert tags + [tag] == [tag];
    } else {
      assert (tags + [tag])[1..] == tags[1..] + [tag];
      NonBlankSnoc(tags[1..], tag);
    }
  }

  /** A translated tag list holds, in order, the translation of each non-blank source tag and nothing else. */
  lemma {:induction false} TranslatedTagsMeaning(tags: seq<string>, l: Lang, tr: Tr)
    ensures |TranslatedTags(tags, l, tr)| == |NonBlank(tags)|
    ensures forall i | 0 <= i < |NonBlank(tags)| :: TranslatedTags(tags, l, tr)[i] == tr(NonBlank(tags)[i], l)
    decreases |tags|
  {
    if tags != [] {
      var init := tags[..|tags| - 1];
      var tag := tags[|tags| - 1];
      assert tags == init + [tag];
      TranslatedTagsMeaning(init, l, tr);
      NonBlankSnoc(init, tag);
    }
  }

  lemma FieldForAllAt(u: PerLang<LanguageData>, f: TextField, text: string, src: Lang, tr: Tr, l: Lang)
    ensures FieldForAll(u, f, text, src, tr).Get(l) == FieldInto(u.Get(l), f, text, src, l, tr)
  {
  }

  /** The field loop never writes the source language. */
  lemma {:induction false} TranslatedFieldsKeepSource(d: PerLang<LanguageData>, fields: seq<TextField>, src: Lang, tr: Tr)
    ensures TranslatedFields(d, fields, src, tr).Get(src) == d.Get(src)
    decreases |fields|
  {
    if fields != [] {
      var u := TranslatedFields(d, fields[..|fields| - 1], src, tr);
      var f := fields[|fields| - 1];
      TranslatedFieldsKeepSource(d, fields[..|fields| - 1], src, tr);
      FieldForAllAt(u, f, u.Get(src).Get(f), src, tr, src);
    }
  }

  /**
   * In a language other than the source, after the field loop a listed field
   * whose source text is not blank holds the translation of that text; a
   * field whose source text is blank, or that is not listed, keeps its text,
   * and the tags are untouched.
   */
  lemma {:induction false} TranslatedFieldsAt(d: PerLang<LanguageData>, fields: seq<TextField>, src: Lang, tr: Tr, l: Lang, g: TextField)
    requires l != src
    ensures TranslatedFields(d, fields, src, tr).Get(l).Get(g) ==
      if g in fields && !IsBlank(d.Get(src).Get(g)) then tr(d.Get(src).Get(g), l) else d.Get(l).Get(g)
    ensures TranslatedFields(d, fields, src, tr).Get(l).tags == d.Get(l).tags
    decreases |fields|
  {
    if fields != [] {
      var init := fields[..|fields| - 1];
      var f := fields[|fields| - 1];
      assert fields == init + [f];
      assert g in fields <==> g in init || g == f;
      TranslatedFieldsAt(d, init, src, tr, l, g);
      TranslatedFieldsKeepSource(d, init, src, tr);
      var u := TranslatedFields(d, init, src, tr);
      var text := u.Get(src).Get(f);
      if !IsBlank(text) {
        FieldForAllAt(u, f, text, src, tr, l);
        FieldIntoAt(u.Get(l), f, text, src, tr, l, g);
      }
    }
  }

  /** A field fan-out into a language other than the source sets that field only. */
  lemma FieldIntoAt(x: LanguageData, f: TextField, text: string, src: Lang, tr: Tr, l: Lang, g: TextField)
    requires l != src
    ensures FieldInto(x, f, text, src, l, tr).Get(g) == if g == f then tr(text, l) else x.Get(g)
    ensures FieldInto(x, f, text, src, l, tr).tags == x.tags
  {
  }

  /**
   * `translateContent`: the source language is kept; in every other
   * language a field with a non-blank source text receives its translation
   * and the others keep their text; the tags become the translated non-blank
   * source tags, unless the source has no tags, in which case they are
   * untouched; nothing outside the languages changes.
   */
  lemma TranslatedMeaning(d: FormData, src: Lang, tr: Tr, tagTr: Tr, l: Lang, g: TextField)
    ensures TranslatedForm(d, src, tr, tagTr).langs.Get(src) == d.langs.Get(src)
    ensures TranslatedForm(d, src, tr, tagTr) == d.(langs := TranslatedForm(d, src, tr, tagTr).langs)
    ensures l != src ==>
      TranslatedForm(d, src, tr, tagTr).langs.Get(l).Get(g) ==
      if IsBlank(d.langs.Get(src).Get(g)) then d.langs.Get(l).Get(g) else tr(d.langs.Get(src).Get(g), l)
    ensures l != src ==>
      TranslatedForm(d, src, tr, tagTr).langs.Get(l).tags ==
      if d.langs.Get(src).tags == [] then d.langs.Get(l).tags else TranslatedTags(d.langs.Get(src).tags, l, tagTr)
  {
    var u := TranslatedFields(d.langs, TextFields, src, tr);
    TranslatedFieldsKeepSource(d.langs, TextFields, src, tr);
    var tags := u.Get(src).tags;
    var r := if |tags| > 0 then TagsForAll(u, tags, src, tagTr) else u;
    assert TranslatedForm(d, src, tr, tagTr) == d.(langs := r);
    TagsForAllAt(u, tags, src, tagTr, src);
    if l != src {
      assert g in TextFields;
      TranslatedFieldsAt(d.langs, TextFields, src, tr, l, g);
      TagsForAllAt(u, tags, src, tagTr, l);
    }
  }

  /** The tag fan-out gives every language but the source the translated list and changes nothing else. */
  lemma TagsForAllAt(u: PerLang<LanguageData>, tags: seq<string>, src: Lang, tr: Tr, l: Lang)
    ensures TagsForAll(u, tags, src, tr).Get(l) == if l == src then u.Get(l) else u.Get(l).(tags := TranslatedTags(tags, l, tr))
  {
  }

  // ----- the loops -----

  /** The languages once `translateFieldForAllLanguages` has gone through the first `j` of them. */
  function FieldUpTo(u: PerLang<LanguageData>, f: TextField, text: string, src: Lang, tr: Tr, j: nat): PerLang<LanguageData>
  {
    PerLang(if 0 < j then FieldInto(u.es, f, text, src, Es, tr) else u.es,
            if 1 < j then FieldInto(u.en, f, text, src, En, tr) else u.en,
            if 2 < j then FieldInto(u.pt, f, text, src, Pt, tr) else u.pt)
  }

  /** One step of the language loop for a field: the `j`-th language, unless it is the source, receives the translation. */
  lemma FieldUpToStep(u: PerLang<LanguageData>, f: TextField, text: string, src: Lang, tr: Tr, j: nat)
    requires j < |Langs|
    ensures var v := FieldUpTo(u, f, text, src, tr, j);
      var target := Langs[j];
      FieldUpTo(u, f, text, src, tr, j + 1) ==
      if target != src then v.Set(target, v.Get(target).With(f, tr(text, target))) else v
  {
    var v := FieldUpTo(u, f, text, src, tr, j);
    if j == 0 {
      assert Langs[j] == Es;
      assert FieldUpTo(u, f, text, src, tr, j + 1) == v.(es := FieldInto(u.es, f, text, src, Es, tr));
    } else if j == 1 {
      assert Langs[j] == En;
      assert FieldUpTo(u, f, text, src, tr, j + 1) == v.(en := FieldInto(u.en, f, text, src, En, tr));
    } else {
      assert Langs[j] == Pt;
      assert FieldUpTo(u, f, text, src, tr, j + 1) == v.(pt := FieldInto(u.pt, f, text, src, Pt, tr));
    }
  }

  /** The languages once `translateTagsForAllLanguages` has gone through the first `j` of them. */
  function TagsUpTo(u: PerLang<LanguageData>, tags: seq<string>, src: Lang, tr: Tr, j: nat): PerLang<LanguageData>
  {
    PerLang(if 0 < j then TagsInto(u.es, tags, src, Es, tr) else u.es,
            if 1 < j then TagsInto(u.en, tags, src, En, tr) else u.en,
            if 2 < j then TagsInto(u.pt, tags, src, Pt, tr) else u.pt)
  }

  /** One step of the language loop for the tags: the `j`-th language, unless it is the source, receives the translated list. */
  lemma TagsUpToStep(u: PerLang<LanguageData>, tags: seq<string>, src: Lang, tr: Tr, j: nat)
    requires j < |Langs|
    ensures var v := TagsUpTo(u, tags, src, tr, j);
      var target := Langs[j];
      TagsUpTo(u, tags, src, tr, j + 1) ==
      if target != src then v.Set(target, v.Get(target).(tags := TranslatedTags(tags, target, tr))) else v
  {
    var v := TagsUpTo(u, tags, src, tr, j);
    if j == 0 {
      assert Langs[j] == Es;
      assert TagsUpTo(u, tags, src, tr, j + 1) == v.(es := TagsInto(u.es, tags, src, Es, tr));
    } else if j == 1 {
      assert Langs[j] == En;
      assert TagsUpTo(u, tags, src, tr, j + 1) == v.(en := TagsInto(u.en, tags, src, En, tr));
    } else {
      assert Langs[j] == Pt;
      assert TagsUpTo(u, tags, src, tr, j + 1) == v.(pt := TagsInto(u.pt, tags, src, Pt, tr));
    }
  }

  /** The copy `updated` the hooks write into; `translate*ForAllLanguages` change it in place. */
  class Draft {
    var langs: PerLang<LanguageData>

    constructor (langs: PerLang<LanguageData>)
      ensures this.langs == langs
    {
      this.langs := langs;
    }

    /** `translateFieldForAllLanguages`: every language but the source receives the translation of `text`. */
    method TranslateFieldForAllLanguages(src: Lang, field: TextField, text: string, tr: Tr)
      modifies this
      ensures langs == FieldForAll(old(langs), field, text, src, tr)
    {
      ghost var before := langs;
      var j := 0;
      while j < |Langs|
        invariant 0 <= j <= |Langs|
        invariant langs == FieldUpTo(before, field, text, src, tr, j)
      {
        var target := Langs[j];
        FieldUpToStep(before, field, text, src, tr, j);
        if target != src {
          var translated := tr(text, target);
          langs := langs.Set(target, langs.Get(target).With(field, translated));
        }
        j := j + 1;
      }
    }

    /** `translateTagsForAllLanguages`: every language but the source receives the translated tag list. */
    method TranslateTagsForAllLanguages(src: Lang, sourceTags: seq<string>, tr: Tr)
      modifies this
      ensures langs == TagsForAll(old(langs), sourceTags, src, tr)
    {
      ghost var before := langs;
      var j := 0;
      while j < |Langs|
        invariant 0 <= j <= |Langs|
        invariant langs == TagsUpTo(before, sourceTags, src, tr, j)
      {
        var target := Langs[j];
        TagsUpToStep(before, sourceTags, src, tr, j);
        if target != src {
          var translatedTags := TranslateTags(sourceTags, target, tr);
          langs := langs.Set(target, langs.Get(target).(tags := translatedTags));
        }
        j := j + 1;
      }
    }
  }

  /** `translateTags`: the non-blank tags are translated and pushed in order. */
  method TranslateTags(tags: seq<string>, target: Lang, tr: Tr) returns (translatedTags: seq<string>)
    ensures translatedTags == TranslatedTags(tags, target, tr)
  {
    translatedTags := [];
    var i := 0;
    while i < |tags|
      invariant 0 <= i <= |tags|
      invariant translatedTags == TranslatedTags(tags[..i], target, tr)
    {
      var tag := tags[i];
      TrimEmptyIffBlank(tag);
      TranslatedTagsNext(tags, i, target, tr);
      if Trim(tag) != "" {
        translatedTags := translatedTags + [tr(tag, target)];
      }
      i := i + 1;
    }
    assert tags[..i] == tags;
  }

  /** One more tag through the loop: pushed, translated, unless it is blank. */
  lemma TranslatedTagsNext(tags: seq<string>, i: nat, l: Lang, tr: Tr)
    requires i < |tags|
    ensures TranslatedTags(tags[..i + 1], l, tr) ==
      TranslatedTags(tags[..i], l, tr) + (if IsBlank(tags[i]) then [] else [tr(tags[i], l)])
  {
    assert tags[..i + 1][..i] == tags[..i];
  }

  /** One more field through the loop: skipped when its source text is blank, otherwise fanned out. */
  lemma TranslatedFieldsNext(d: PerLang<LanguageData>, fields: seq<TextField>, i: nat, src: Lang, tr: Tr)
    requires i < |fields|
    ensures var u := TranslatedFields(d, fields[..i], src, tr);
      var f := fields[i];
      TranslatedFields(d, fields[..i + 1], src, tr) ==
      if IsBlank(u.Get(src).Get(f)) then u else FieldForAll(u, f, u.Get(src).Get(f), src, tr)
  {
    assert fields[..i + 1][..i] == fields[..i];
  }

  /**
   * The body shared by both hooks' `translateContent`: copy, translate each
   * field whose source text is not blank, then the tags when the source has
   * any.
   */
  method TranslateContent(formData: FormData, src: Lang, tr: Tr, tagTr: Tr) returns (r: FormData)
    ensures r == TranslatedForm(formData, src, tr, tagTr)
  {
    var updated := new Draft(formData.langs);
    var i := 0;
    while i < |TextFields|
      invariant 0 <= i <= |TextFields|
      invariant updated.langs == TranslatedFields(formData.langs, TextFields[..i], src, tr)
    {
      var field := TextFields[i];
      var originalText := updated.langs.Get(src).Get(field);
      TrimEmptyIffBlank(originalText);
      TranslatedFieldsNext(formData.langs, TextFields, i, src, tr);
      if Trim(originalText) != "" {
        updated.TranslateFieldForAllLanguages(src, field, originalText, tr);
      }
      i := i + 1;
    }
    assert TextFields[..i] == TextFields;
    var sourceTags := updated.langs.Get(src).tags;
    if |sourceTags| > 0 {
      updated.TranslateTagsForAllLanguages(src, sourceTags, tagTr);
    }
    r := formData.(langs := updated.langs);
  }

  // ----- useTranslation -----

  /** `translateText(text, source, target)` of `useTranslation`: blank text is returned, the rest goes through the chunks. */
  function MyMemory(svc: Service, src: Lang): Tr
  {
    (text, l) => TranslateNonBlank(svc, text, Code(src), Code(l))
  }

  /** `useTranslation().translateContent`. */
  function UseTranslation(d: FormData, src: Lang, svc: Service): FormData
  {
    TranslatedForm(d, src, MyMemory(svc, src), MyMemory(svc, src))
  }

  method UseTranslationContent(formData: FormData, src: Lang, svc: Service) returns (r: FormData)
    ensures r == UseTranslation(formData, src, svc)
  {
    r := TranslateContent(formData, src, MyMemory(svc, src), MyMemory(svc, src));
  }

  /**
   * With `useTranslation`, a target field receives the chunked translation of
   * a non-blank source text, and a translated tag list holds the chunked
   * translation of each non-blank source tag.
   */
  lemma UseTranslationTexts(d: FormData, src: Lang, svc: Service, l: Lang, g: TextField, i: nat)
    requires l != src
    ensures var text := d.langs.Get(src).Get(g);
      !IsBlank(text) ==> UseTranslation(d, src, svc).langs.Get(l).Get(g) == TranslateText(svc, text, Code(src), Code(l))
    ensures var tags := d.langs.Get(src).tags;
      tags != [] && i < |NonBlank(tags)| ==>
        i < |UseTranslation(d, src, svc).langs.Get(l).tags|
        && UseTranslation(d, src, svc).langs.Get(l).tags[i] == TranslateText(svc, NonBlank(tags)[i], Code(src), Code(l))
  {
    TranslatedMeaning(d, src, MyMemory(svc, src), MyMemory(svc, src), l, g);
    TranslatedTagsMeaning(d.langs.Get(src).tags, l, MyMemory(svc, src));
  }

  /**
   * When the service gives nothing usable (no translation, or an empty one),
   * every target field with a non-blank source text becomes a copy of it.
   */
  lemma UseTranslationFallback(d: FormData, src: Lang, svc: Service, l: Lang, g: TextField)
    requires l != src
    requires forall c :: svc(c, Code(src), Code(l)) == Translated("") || svc(c, Code(src), Code(l)) == Failed
    ensures !IsBlank(d.langs.Get(src).Get(g)) ==> UseTranslation(d, src, svc).langs.Get(l).Get(g) == d.langs.Get(src).Get(g)
  {
    UseTranslationTexts(d, src, svc, l, g, 0);
    TranslateTextFallback(svc, d.langs.Get(src).Get(g), Code(src), Code(l));
  }

  // ----- useBlogTranslation -----

  /** `translateField`: a failed Google call gives "". */
  function GoogleFieldTr(g: Google): Tr
  {
    (text, l) => GoogleField(g, text, Code(l))
  }

  /** `translateTags`' call for one tag: a failed Google call keeps the tag. */
  function GoogleTagTr(g: Google): Tr
  {
    (tag, l) => GoogleTag(g, tag, Code(l))
  }

  /** The form `useBlogTranslation().translateContent` returns, and whether it set the missing-key error. */
  datatype BlogOutcome = BlogOutcome(form: FormData, keyMissing: bool)

  /** `useBlogTranslation().translateContent`: without a usable key the form comes back as it was. */
  function UseBlogTranslation(d: FormData, src: Lang, key: Option<string>, g: Google): BlogOutcome
  {
    if ValidateApiKey(key).None? then BlogOutcome(d, true)
    else BlogOutcome(TranslatedForm(d, src, GoogleFieldTr(g), GoogleTagTr(g)), false)
  }

  method UseBlogTranslationContent(formData: FormData, src: Lang, key: Option<string>, g: Google) returns (r: BlogOutcome)
    ensures r == UseBlogTranslation(formData, src, key, g)
  {
    var apiKey := ValidateApiKey(key);
    if apiKey.None? {
      return BlogOutcome(formData, true);
    }
    var updated := TranslateContent(formData, src, GoogleFieldTr(g), GoogleTagTr(g));
    r := BlogOutcome(updated, false);
  }

  /** A missing, empty or placeholder key returns the form unchanged and reports the error; a usable key reports none. */
  lemma UseBlogTranslationKey(d: FormData, src: Lang, key: Option<string>, g: Google)
    ensures key.None? || key.value == "" || key.value == Placeholder ==> UseBlogTranslation(d, src, key, g) == BlogOutcome(d, true)
    ensures key.Some? && key.value != "" && key.value != Placeholder ==> !UseBlogTranslation(d, src, key, g).keyMissing
  {
  }

  /**
   * With a usable key, in a language other than the source: a field whose
   * non-blank source text fails to translate becomes "", and a tag that
   * fails to translate is kept as it is.
   */
  lemma UseBlogTranslationFailures(d: FormData, src: Lang, key: Option<string>, g: Google, l: Lang, f: TextField, i: nat)
    requires ValidateApiKey(key).Some? && l != src
    ensures var text := d.langs.Get(src).Get(f);
      !IsBlank(text) && g(text, Code(l)).Failed? ==> UseBlogTranslation(d, src, key, g).form.langs.Get(l).Get(f) == ""
    ensures var tags := d.langs.Get(src).tags;
      tags != [] && i < |NonBlank(tags)| && g(NonBlank(tags)[i], Code(l)).Failed? ==>
        i < |UseBlogTranslation(d, src, key, g).form.langs.Get(l).tags|
        && UseBlogTranslation(d, src, key, g).form.langs.Get(l).tags[i] == NonBlank(tags)[i]
  {
    assert UseBlogTranslation(d, src, key, g).form == TranslatedForm(d, src, GoogleFieldTr(g), GoogleTagTr(g));
    FailedFieldEmptied(d, src, g, l, f);
    FailedTagKept(d, src, g, l, i);
  }

  /** A non-blank field whose Google call fails comes out as "" in every other language. */
  lemma FailedFieldEmptied(d: FormData, src: Lang, g: Google, l: Lang, f: TextField)
    requires l != src
    ensures var text := d.langs.Get(src).Get(f);
      !IsBlank(text) && g(text, Code(l)).Failed? ==> TranslatedForm(d, src, GoogleFieldTr(g), GoogleTagTr(g)).langs.Get(l).Get(f) == ""
  {
    TranslatedMeaning(d, src, GoogleFieldTr(g), GoogleTagTr(g), l, f);
    var text := d.langs.Get(src).Get(f);
    if !IsBlank(text) && g(text, Code(l)).Failed? {
      assert GoogleFieldTr(g)(text, l) == "";
    }
  }

  /** A non-blank tag whose Google call fails is kept as it is, at its place in the translated list. */
  lemma FailedTagKept(d: FormData, src: Lang, g: Google, l: Lang, i: nat)
    requires l != src
    ensures var tags := d.langs.Get(src).tags;
      tags != [] && i < |NonBlank(tags)| && g(NonBlank(tags)[i], Code(l)).Failed? ==>
        i < |TranslatedForm(d, src, GoogleFieldTr(g), GoogleTagTr(g)).langs.Get(l).tags|
        && TranslatedForm(d, src, GoogleFieldTr(g), GoogleTagTr(g)).langs.Get(l).tags[i] == NonBlank(tags)[i]
  {
    var tags := d.langs.Get(src).tags;
    if tags != [] && i < |NonBlank(tags)| && g(NonBlank(tags)[i], Code(l)).Failed? {
      TranslatedMeaning(d, src, GoogleFieldTr(g), GoogleTagTr(g), l, Title);
      TranslatedTagsMeaning(tags, l, GoogleTagTr(g));
      assert GoogleTagTr(g)(NonBlank(tags)[i], l) == NonBlank(tags)[i];
    }
  }
}
