/**
 * The social links editor of the blog form. The links are a map from a
 * provider (or `custom`) to its value; each handler builds the next map
 * from a copy of the current one (`value || {}`) and hands it to the form.
 */
module SocialLinksEditor {
  import opened Base
  import opened BlogTypes

  /** `typeof v[p.key] === 'string'`: a provider is shown as enabled when it holds a URL (possibly ""). */
  predicate Enabled(v: SocialLinks, key: LinkKey)
  {
    key in v && v[key].Url?
  }

  /**
   * `toggle(key, enabled)`: switching off deletes the key; switching on sets
   * "" for a provider and an empty list for `custom`.
   */
  function Toggle(v: SocialLinks, key: LinkKey, enabled: bool): (r: SocialLinks)
    ensures !enabled ==> key !in r
    ensures enabled ==> key in r && r[key] == (if key == Custom then Entries([]) else Url(""))
    ensures forall k | k != key :: (k in r <==> k in v) && (k in v ==> r[k] == v[k])
  {
    if !enabled then v - {key}
    else if key == Custom then v[key := Entries([])]
    else v[key := Url("")]
  }

  /** A provider switched on is enabled, switched off is not, and no other provider changes state. */
  lemma ToggleEnabled(v: SocialLinks, key: LinkKey, enabled: bool, other: LinkKey)
    requires key != Custom
    ensures Enabled(Toggle(v, key, enabled), key) == enabled
    ensures other != key ==> Enabled(Toggle(v, key, enabled), other) == Enabled(v, other)
  {
  }

  /** `update(key, url)`: `{ ...v, [key]: url }`. */
  function Update(v: SocialLinks, key: LinkKey, url: string): (r: SocialLinks)
    ensures r.Keys == v.Keys + {key} && r[key] == Url(url)
    ensures forall k | k in v && k != key :: r[k] == v[k]
  {
    v[key := Url(url)]
  }

  /** The custom list (`v.custom || []`). */
  function CustomList(v: SocialLinks): seq<CustomLink>
  {
    if Custom in v && v[Custom].Entries? then v[Custom].entries else []
  }

  /**
   * `addCustom`: the three answers of the prompts (`None` for a cancelled
   * prompt). An empty or cancelled label or URL adds nothing; otherwise one
   * entry is appended, with no icon when the icon answer is empty.
   */
  function AddCustom(v: SocialLinks, caption: Option<string>, url: Option<string>, icon: Option<string>): (r: SocialLinks)
    ensures caption.None? || caption.value == "" || url.None? || url.value == "" ==> r == v
    ensures caption.Some? && caption.value != "" && url.Some? && url.value != "" ==>
      && CustomList(r) == CustomList(v) + [CustomLink(caption.value, url.value, if icon.Some? && icon.value != "" then icon else None)]
      && forall k | k != Custom :: (k in r <==> k in v) && (k in v ==> r[k] == v[k])
  {
    if caption.None? || caption.value == "" then v
    else if url.None? || url.value == "" then v
    else
      var entry := CustomLink(caption.value, url.value, if icon.Some? && icon.value != "" then icon else None);
      v[Custom := Entries(CustomList(v) + [entry])]
  }

  /**
   * `removeCustom(idx)`: the entry at `idx` is taken out (an index past the
   * end takes out nothing), and the `custom` key is deleted when the list
   * becomes empty.
   */
  function RemoveCustom(v: SocialLinks, idx: nat): (r: SocialLinks)
    ensures var list := CustomList(v);
      && (idx < |list| ==> CustomList(r) == list[..idx] + list[idx + 1..])
      && (idx >= |list| ==> CustomList(r) == list)
    ensures CustomList(r) == [] <==> Custom !in r
    ensures forall k | k != Custom :: (k in r <==> k in v) && (k in v ==> r[k] == v[k])
  {
    var list := CustomList(v);
    var rest := if idx < |list| then list[..idx] + list[idx + 1..] else list;
    if rest != [] then v[Custom := Entries(rest)] else v - {Custom}
  }

  /** The member of a custom entry `updateCustom` sets, with its new value. */
  datatype CustomEdit = SetCaption(caption: string) | SetUrl(url: string) | SetIcon(icon: Option<string>)

  function EditEntry(c: CustomLink, e: CustomEdit): CustomLink
  {
    match e
    case SetCaption(s) => c.(caption := s)
    case SetUrl(s) => c.(url := s)
    case SetIcon(i) => c.(iconUrl := i)
  }

  /** `updateCustom(idx, field, val)`: one member of one entry changes; every other entry and key is kept. */
  function UpdateCustom(v: SocialLinks, idx: nat, e: CustomEdit): (r: SocialLinks)
    requires idx < |CustomList(v)|
    ensures |CustomList(r)| == |CustomList(v)|
    ensures CustomList(r)[idx] == EditEntry(CustomList(v)[idx], e)
    ensures forall i | 0 <= i < |CustomList(v)| && i != idx :: CustomList(r)[i] == CustomList(v)[i]
    ensures forall k | k != Custom :: (k in r <==> k in v) && (k in v ==> r[k] == v[k])
  {
    var list := CustomList(v);
    v[Custom := Entries(list[idx := EditEntry(list[idx], e)])]
  }

  /** An entry's caption or URL edit leaves its other two members as they were. */
  lemma UpdateCustomOneMember(v: SocialLinks, idx: nat, e: CustomEdit)
    requires idx < |CustomList(v)|
    ensures var before := CustomList(v)[idx];
      var after := CustomList(UpdateCustom(v, idx, e))[idx];
      && (!e.SetCaption? ==> after.caption == before.caption)
      && (!e.SetUrl? ==> after.url == before.url)
      && (!e.SetIcon? ==> after.iconUrl == before.iconUrl)
  {
  }

  /** Adding an entry and then removing it gives back the list it was added to. */
  lemma AddThenRemoveCustom(v: SocialLinks, caption: string, url: string, icon: Option<string>)
    requires caption != "" && url != ""
    ensures CustomList(RemoveCustom(AddCustom(v, Some(caption), Some(url), icon), |CustomList(v)|)) == CustomList(v)
  {
    var list := CustomList(AddCustom(v, Some(caption), Some(url), icon));
    assert list[..|CustomList(v)|] == CustomList(v);
    assert list[|CustomList(v)| + 1..] == [];
  }
}
