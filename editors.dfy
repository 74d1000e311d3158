/**
 * The small editors of the blog form: the tag list editor and the category
 * selector. Each handler maps the editor's state (the list or the value, and
 * the text typed into its input) to the new state.
 */
module Editors {
  import opened Base
  import opened BlogTypes

  // ----- TagsEditor -----

  /** No tag appears twice. */
  predicate NoDuplicates(tags: seq<string>)
  {
    forall i, j | 0 <= i < j < |tags| :: tags[i] != tags[j]
  }

  /** The tag list and the text in the "new tag" input. */
  datatype TagsState = TagsState(tags: seq<string>, input: string)

  /**
   * `handleAddTag`: the trimmed input is appended, and the input cleared,
   * only when it is not blank and not already a tag; otherwise nothing changes.
   */
  function AddTag(s: TagsState): TagsState
  {
    var t := Trim(s.input);
    if t != "" && t !in s.tags then TagsState(s.tags + [t], "") else s
  }

  /**
   * An add keeps the existing tags in order and either appends exactly the
   * trimmed input and clears the input, or changes nothing; it appends
   * exactly when the input is not blank and its trim is not yet a tag.
   */
  lemma AddTagMeaning(s: TagsState)
    ensures AddTag(s).tags[..|s.tags|] == s.tags
    ensures |AddTag(s).tags| == |s.tags| + 1 <==> !IsBlank(s.input) && Trim(s.input) !in s.tags
    ensures |AddTag(s).tags| == |s.tags| + 1 ==> AddTag(s).tags[|s.tags|] == Trim(s.input) && AddTag(s).input == ""
    ensures |AddTag(s).tags| != |s.tags| + 1 ==> AddTag(s) == s
  {
    TrimEmptyIffBlank(s.input);
    if AddTag(s) != s {
      assert (s.tags + [Trim(s.input)])[..|s.tags|] == s.tags;
    }
  }

  /** Adding a tag never creates a duplicate, and never adds a blank tag. */
  lemma AddTagKeepsNoDuplicates(s: TagsState)
    requires NoDuplicates(s.tags)
    ensures NoDuplicates(AddTag(s).tags)
    ensures forall i | |s.tags| <= i < |AddTag(s).tags| :: !IsBlank(AddTag(s).tags[i])
  {
    var t := Trim(s.input);
    if t != "" && t !in s.tags {
      var r := s.tags + [t];
      TrimIdempotent(s.input);
      TrimEmptyIffBlank(t);
      forall i, j | 0 <= i < j < |r| ensures r[i] != r[j] {
        if j == |s.tags| {
          assert r[i] == s.tags[i] && r[i] in s.tags;
        } else {
          assert r[i] == s.tags[i] && r[j] == s.tags[j];
        }
      }
      assert AddTag(s).tags == r;
    }
  }

  /** `handleRemoveTag(index)`: `tags.filter((_, i) => i !== index)`. */
  function RemoveTag(tags: seq<string>, index: int): (r: seq<string>)
    ensures 0 <= index < |tags| ==> |r| == |tags| - 1
    ensures 0 <= index < |tags| ==> forall i | 0 <= i < |r| :: r[i] == (if i < index then tags[i] else tags[i + 1])
    ensures !(0 <= index < |tags|) ==> r == tags
  {
    if 0 <= index < |tags| then tags[..index] + tags[index + 1..] else tags
  }

  /** Removing a tag keeps the list free of duplicates. */
  lemma RemoveTagKeepsNoDuplicates(tags: seq<string>, index: int)
    requires NoDuplicates(tags)
    ensures NoDuplicates(RemoveTag(tags, index))
  {
    var r := RemoveTag(tags, index);
    if 0 <= index < |tags| {
      forall i, j | 0 <= i < j < |r| ensures r[i] != r[j] {
        var a := if i < index then i else i + 1;
        var b := if j < index then j else j + 1;
        assert r[i] == tags[a] && r[j] == tags[b] && a < b;
      }
    }
  }

  /** `handleKeyDown`: Enter with a non-blank input adds the tag; any other key, or a blank input, changes nothing. */
  function TagsKeyDown(s: TagsState, key: string): TagsState
  {
    if key == "Enter" && Trim(s.input) != "" then AddTag(s) else s
  }

  /** Enter on a blank input, or any other key, leaves the tags and the input as they were. */
  lemma TagsKeyDownBlank(s: TagsState, key: string)
    ensures key != "Enter" || IsBlank(s.input) ==> TagsKeyDown(s, key) == s
    ensures key == "Enter" && !IsBlank(s.input) ==> TagsKeyDown(s, key) == AddTag(s)
  {
    TrimEmptyIffBlank(s.input);
  }

  // ----- CategorySelector -----

  /** The selected category and the text in the custom category input. */
  datatype CategoryState = CategoryState(category: string, custom: string)

  /**
   * `handleCustomCategorySubmit`: a non-blank custom category becomes the
   * category, trimmed, and the input is cleared; a blank one changes nothing.
   */
  function SubmitCustomCategory(s: CategoryState): (r: CategoryState)
    ensures IsBlank(s.custom) ==> r == s
    ensures !IsBlank(s.custom) ==> r.custom == "" && r.category == Trim(s.custom)
    ensures !IsBlank(s.custom) ==> r.category != "" && Trim(r.category) == r.category
  {
    TrimEmptyIffBlank(s.custom);
    TrimIdempotent(s.custom);
    if Trim(s.custom) != "" then CategoryState(Trim(s.custom), "") else s
  }

  /** `getLangKey`: the key of a category entry's name in the selected language. */
  function LangKey(l: Lang): (k: string)
    ensures k == Code(l)
  {
    if l == Es then "es" else if l == En then "en" else "pt"
  }

  /** The name a category entry shows under a language key (`cat[langKey]`). */
  function NameByKey(c: CategoryEntry, key: string): string
  {
    if key == "es" then c.es else if key == "en" then c.en else c.pt
  }

  /** The options of the category select: one per entry, valued by its name in the selected language. */
  function CategoryOptions(l: Lang): (opts: seq<string>)
    ensures |opts| == |BlogCategories|
    ensures forall i | 0 <= i < |opts| :: opts[i] == BlogCategories[i].Name(l)
  {
    seq(|BlogCategories|, i requires 0 <= i < |BlogCategories| => NameByKey(BlogCategories[i], LangKey(l)))
  }

  /** In Spanish the options are the category keys themselves; in every language none is empty. */
  lemma CategoryOptionsKeys(l: Lang)
    ensures forall i | 0 <= i < |BlogCategories| :: CategoryOptions(Es)[i] == BlogCategories[i].key
    ensures forall i | 0 <= i < |BlogCategories| :: CategoryOptions(l)[i] != ""
  {
    CategoryTable();
  }
}
