# Lens PR dashboard: ordered collections and form logic

This project models the core of the Lens PR content dashboard in Dafny.
The dashboard is a Next.js application that edits five collections:
clients, news, events, blog posts and tailor-made offers. Every
collection is kept in a hosted table whose rows carry an integer position
column, `order_number` (or `order` for tailor-made offers). Every text is
held in three languages: Spanish, English and Portuguese.

Two parts of the dashboard are modelled.

- **The ordered-collection protocol.** The store is a class (`Store.Table`)
  holding a map from row id to a row: a position that may be NULL, plus a
  map of columns. It offers the single-row primitives the routes use:
  count, sorted select, lookup, insert, update, range update, upsert and
  delete. A store fault is an input (`Store.Faults`). Every API route that
  touches positions is a method on that table, proved against a
  specification function of the old rows. Around those methods, lemmas
  state which operations keep the positions *dense* (exactly `0 .. n-1`,
  one row each), which restore density and which break it. The pages' drag
  handlers (`handleDragEnd`) are methods over arrays that splice and
  renumber the list.
- **The form helpers.** These are the chunked machine translation and its
  fan-out over languages and fields, the per-form edits and validity
  tests, the blog form's merge with its empty defaults, the tag,
  category, social-link and slug editors, the legacy client card's
  language cycle, the middleware's access decision and the rich-text
  image's HTML attributes.

The modules follow the program's structure:

- `Base`: languages, `trim`, `toLowerCase` and `includes`.
- `Fields`, `Rows` and `Store`: the table and its density lemmas.
- `Protocol`: the route patterns several collections share.
- One module per API family: `ClientsApi`, `NewsApi`, `EventsApi`,
  `TailorApi` and `BlogsApi`.
- `Reorder` and `Pages`: the dashboard pages.
- `Translation`, `Forms`, `BlogTypes`, `BlogForm`, `BlogTranslation`,
  `Editors`, `SocialLinksEditor` and `Slug`: the forms.
- `ClientCard`, `Middleware` and `ResizableImage`.

**Values.** JavaScript `null` and `undefined` are both `None`, except
where the code tells them apart. There `NumIn = Missing | NullNum | Num`
is used, and `BlogsApi.UpdateBlogCell` returns `None` for a key whose
value is `undefined`, which the store drops (a JSON `null` Spanish content
is dropped too; see Left out).

**External services.** The translation services (MyMemory and Google
Translate) are function parameters that may fail. The Cloudinary upload
result is a parameter. The auth provider's session is a parameter.

**Notes on the routes' behaviour:**

- The news route inserts without a position, so the row takes the column
  default. It does not shift the other rows to the front.
- Only the clients, news and tailor-made delete routes renumber by rank.
  The events delete lowers the rows above the gap. The blog delete and
  the legacy client delete leave the gap open.
- An edit with a new position is handled differently by each route. The
  events edit uses a range rewrite. The blog edit writes the position
  directly. The news and tailor-made edits renumber every row.

## Model

| member | source | states |
|---|---|---|
| Base.CodesDistinct | components/forms/blogForms/CategorySelector.tsx:32-38 | the language codes `es`, `en`, `pt` are distinct: equal codes mean the same language |
| Base.PerLang.Set | components/forms/eventForms/EventsForm.tsx:113-127 | `{ ...prev, [lang]: v }` sets the entry of one language and keeps the other two |
| Base.Present | app/api/clients/addClient/route.ts:15-20 | once all three language objects are present, each is the one the body carried |
| Base.Trim | components/forms/blogForms/TagsEditor.tsx:15 | `trim` never lengthens a string and leaves no white space at either end |
| Base.TrimIsSlice | components/forms/blogForms/TagsEditor.tsx:15 | `trim` gives a contiguous part of the input whose cut-off start and end are all white space |
| Base.TrimEmptyIffBlank | components/forms/eventForms/EventsForm.tsx:217-227 | `!s.trim()` holds exactly when the string is all white space |
| Base.TrimIdempotent | components/forms/blogForms/TagsEditor.tsx:15-16 | trimming a trimmed string changes nothing |
| Base.Lower | app/Dashboard_desktopView/events/page.tsx:88-90 | `toLowerCase` keeps the length and lowers each ASCII letter in place |
| Base.ContainsIffOccurs | components/ui/extensions/ResizableImage.ts:32 | `includes` finds a substring exactly when it occurs at some position |
| Base.ContainsEmpty | app/Dashboard_desktopView/blogs/page.tsx:140 | every string includes the empty search term |
| BlogTypes.LanguageData.With | components/forms/blogForms/BlogForm.tsx:86-95 | setting one text field of a language sets it and keeps the other fields and the tags |
| BlogTypes.EmptyFormDataLanguages | types/blogs.ts:104-106 | in the empty blog form every language has "" in each text field and no tags |
| BlogTypes.EmptyFormDataGeneral | types/blogs.ts:104-115 | the empty blog form is unpublished, at position 0, with an empty link map, an empty slug and no cover |
| BlogTypes.CategoryTable | types/blogs.ts:90-101 | ten categories with distinct keys, each key equal to its Spanish name, every name non-empty in all three languages |
| Fields.TrimOrNull | app/api/clients/addClient/route.ts:61-74 | `x?.trim() \|\| null`: NULL exactly for a missing or blank text, otherwise the trimmed text |
| Fields.TrimOrKeep | app/api/news/updateNews/route.ts:38-52 | `x?.trim() ?? null`: NULL exactly for a missing text, so "" is stored as "" |
| Fields.OrNull | app/api/events/addEvent/route.ts:25-44 | `x ?? null`: NULL exactly for a missing text, any string stored as sent |
| Fields.EmptyToNull | app/api/blogs/addBlog/route.ts:42 | `x \|\| null`: NULL exactly for a missing or empty text, any other string stored untrimmed |
| Fields.TagsOrNull | app/api/blogs/addBlog/route.ts:38-54 | a tag list is stored only when it is a non-empty array, otherwise NULL |
| Store.PatchOf | app/api/news/updateNews/route.ts:55-57 | an absent position key leaves the column alone; `null` or a number is written |
| Store.PatchedOnly | app/api/blogs/updateBlog/route.ts:52-57 | an update by id touches that row only: listed columns win, the other columns and rows stay, the position follows the patch |
| Store.Table.Count | app/api/tailor/addTailor/route.ts:33-40 | the count is the number of rows, or nothing when the call fails; the table is unchanged |
| Store.Table.Select | app/api/clients/deleteClient/route.ts:33-44 | the fetch lists the matching rows once each, with their positions, ascending (NULLs last, ties in any order) |
| Store.Table.Lookup | app/api/events/deleteEvent/route.ts:19-31 | `.single()` gives the row's position, or fails when the row is missing |
| Store.Table.Delete | app/api/blogs/deleteBlog/route.ts:13 | the delete removes exactly the row with the id; an absent id matches no row |
| Store.Table.UpdateOrder | app/api/clients/updateClientOrder/route.ts:13-17 | one position write: the named row gets the position unless the write is refused |
| Store.Table.UpdateRange | app/api/events/updateEvent/route.ts:74-79 | every other row whose position lies between the bounds gets the given value |
| Store.Table.Upsert | app/api/clients/deleteClient/route.ts:53-55 | the upsert applies all of its writes or none |
| Store.Table.Update | app/api/blogs/updateBlog/route.ts:52-55 | an update by id applies the patch to that row when it is not refused |
| Store.Table.Insert | app/api/events/addEvent/route.ts:47-49 | the insert adds one row under an id no row had and keeps the others |
| Rows.Ranks | app/api/clients/deleteClient/route.ts:47-50 | the rank map gives the row at index i of the fetch position i |
| Rows.WrittenAt | app/api/clients/updateClientOrder/route.ts:13-17 | a series of position writes keeps the rows and their columns; a listed row gets its listed position and an unlisted row is untouched |
| Rows.RanksAt | app/api/clients/deleteClient/route.ts:47-55 | the renumbering upsert gives the row at index i of the sorted fetch position i, and nothing else changes |
| Rows.IndexedDense | app/api/clients/deleteClient/route.ts:33-55 | rows renumbered by their index in a fetch of all of them are dense, even when the table had gaps |
| Rows.IndexedKeepOrder | app/api/clients/deleteClient/route.ts:36-50 | renumbering by rank keeps the relative order of rows that sorted strictly apart |
| Rows.DenseSnapshotAtIndex | app/api/clients/deleteClient/route.ts:47-50 | in an ascending fetch of a dense table the row at index i already has position i |
| Rows.IndexedIdempotent | app/api/news/deleteNews/route.ts:47-50 | renumbering a dense table writes back the positions it already has |
| Rows.RanksRanked | app/api/news/deleteNews/route.ts:33-55 | the renumbering pass yields a table with the same rows and columns that is dense, keeps order, and leaves a dense table as it was |
| Rows.InsertFrontDense | app/api/clients/addClient/route.ts:40-95 | raising every row by one and inserting at 0 keeps a dense table dense when no raise was refused |
| Rows.InsertFrontCollision | app/api/clients/addClient/route.ts:52-54 | a refused raise, which is only logged, always leaves two rows on one position |
| Rows.InsertDenseIff | app/api/tailor/addTailor/route.ts:33-61 | adding one row to a dense table keeps it dense exactly when the row takes position n |
| Rows.DeleteDenseIff | app/api/blogs/deleteBlog/route.ts:11-16 | deleting one row of a dense table without renumbering keeps it dense exactly when the row was last |
| Rows.DeleteLowerDense | app/api/events/deleteEvent/route.ts:47-64 | deleting a row and lowering every row above it by one keeps a dense table dense; rows below are untouched |
| Rows.DeleteLowerKeepsGaps | app/api/events/deleteEvent/route.ts:47-64 | lowering the rows above the gap does not repair gaps that were already there |
| Rows.RangeRewriteBreaksDensity | app/api/events/updateEvent/route.ts:72-88 | moving a row of a dense table by two or more places with the range rewrite breaks density |
| Rows.RangeRewriteExample | app/api/events/updateEvent/route.ts:72-88 | moving the first of three rows to the end leaves two rows at position 0 |
| Rows.RangeRewriteAdjacentDense | app/api/events/updateEvent/route.ts:72-88 | a move by one place with the range rewrite is a swap and keeps density |
| Rows.ShiftKeepsDensity | app/api/events/updateEvent/route.ts:72-94 | the intended edit, which steps the rows in between one place towards the gap, keeps a dense table dense |
| Rows.FirstRefused | app/api/clients/updateClientOrder/route.ts:13-23 | the first refused write: every write before it is accepted, and it is refused or the end |
| Rows.Accepted | app/api/tailor/updateTailorOrder/route.ts:24-32 | the writes the store accepts are those whose ids are not refused, and there are no more of them than writes |
| Rows.RefusedIds | app/api/tailor/updateTailorOrder/route.ts:35-43 | one error per refused write: accepted and refused together account for every write |
| Rows.AcceptedCovers | app/api/tailor/updateTailorOrder/route.ts:24-32 | every write the store accepts is applied, whatever happened to the others |
| Rows.FirstRefusedPrefix | app/api/clients/updateClientOrder/route.ts:19-22 | stopping at the first refusal applies exactly the writes before it, and there is a refusal exactly when some write is refused |
| Rows.NoneRefused | app/api/tailor/updateTailorOrder/route.ts:35-43 | the order loop reaches the end exactly when the aggregated error list is empty |
| Protocol.RankAll | app/api/clients/deleteClient/route.ts:33-63 | sorted fetch and one upsert: on success the rows are ranked (dense, order kept, idempotent), on failure nothing changes |
| Protocol.DeleteThenRank | app/api/clients/deleteClient/route.ts:12-70 | 400 without an id; 500 and nothing deleted when the delete fails; otherwise the row is gone and the rest are ranked when fetch and upsert succeed |
| Protocol.PatchThenRank | app/api/tailor/updateTailor/route.ts:16-96 | 400 without an id; 500 and no write when the update fails; otherwise the row is patched, and all rows are ranked only when a position was sent |
| Protocol.WriteUntilRefused | app/api/events/updateEventOrder/route.ts:13-23 | the writes before the first refusal are applied, later ones never attempted; 500 exactly when one is refused |
| Protocol.FirstRefusedAt | app/api/blogs/updateBlogOrder/route.ts:17-23 | the first refusal is where the loop stops: all earlier writes accepted, that one refused or the end |
| Protocol.WriteAll | app/api/tailor/updateTailorOrder/route.ts:16-43 | 400 and no write for a body that is not an array; otherwise every accepted write is applied and a 500 lists each refused one |
| ClientsApi.ClientColumns | app/api/clients/addClient/route.ts:61-76 | every language column and the media URL are trimmed, with blank or missing stored as NULL, and never stored blank |
| ClientsApi.AddClient | app/api/clients/addClient/route.ts:15-102 | 400 with no store call without all three languages; 500 with nothing written when the fetch fails; otherwise every row is raised and the client inserted at 0, and a dense table stays dense exactly when no raise was refused |
| ClientsApi.ShiftDown | app/api/clients/addClient/route.ts:40-56 | the shift loop raises each fetched row by one (NULL as 0), skipping refused writes |
| ClientsApi.DeleteClient | app/api/clients/deleteClient/route.ts:12-70 | delete, then rank the remaining clients (see `Protocol.DeleteThenRank`) |
| ClientsApi.UpdateClientOrder | app/api/clients/updateClientOrder/route.ts:13-23 | positions written in request order up to the first refused write, 500 then, success otherwise |
| ClientsApi.LegacyDeleteClient | app/api/deleteClient/route.ts:11-18 | no id check and no renumbering: only the matching row is removed and the other positions stay |
| NewsApi.AddNewsColumns | app/api/news/addNews/route.ts:15-29 | every title, description and editorial column and the media URL are written as `?? null` of the sent value: the string as sent, "" kept, NULL only for a missing value |
| NewsApi.AddNews | app/api/news/addNews/route.ts:15-36 | one insert with no position (the column default) and no other row touched; 500 and no write when it fails; density kept exactly when the default is n |
| NewsApi.EditorialOf | app/api/news/updateNews/route.ts:30-34 | the Spanish editorial of an edit is the first non-blank of the Spanish, English and Portuguese editorials, trimmed, NULL when all are blank |
| NewsApi.UpdateNewsColumns | app/api/news/updateNews/route.ts:38-52 | the edit writes only titles, descriptions, the coalesced Spanish editorial, `media_url` and `news_link` (`?.trim() ?? null`) and a `client_id` that is never blank |
| NewsApi.UpdateNewsTexts | app/api/news/updateNews/route.ts:38-52 | every title and description column is written trimmed, "" kept, NULL only when missing |
| NewsApi.EditorialOnlySpanish | app/api/news/updateNews/route.ts:38-52 | the English and Portuguese editorial columns are never written by an edit |
| NewsApi.EditTexts | app/api/news/updateNews/route.ts:40-47 | the edit's language columns are the titles and descriptions, each `?.trim() ?? null` |
| NewsApi.EditOthers | app/api/news/updateNews/route.ts:41-51 | exactly four columns: the Spanish editorial, `media_url` and `news_link` trimmed with "" kept, and `client_id` trimmed with blank turned into NULL |
| NewsApi.UpdateNews | app/api/news/updateNews/route.ts:23-107 | 400 without an id; 500 and no write when the update fails; otherwise the row is patched, and every row is ranked only when `order_number` was sent |
| NewsApi.DeleteNews | app/api/news/deleteNews/route.ts:12-63 | delete, then rank the remaining news |
| NewsApi.UpdateNewsOrder | app/api/news/updateNewsOrder/route.ts:13-28 | positions written in order up to the first refusal; an empty list succeeds with no write |
| EventsApi.EventTexts | app/api/events/addEvent/route.ts:25-44 | the language columns are `?? null`: a string is stored as sent, NULL only when missing |
| EventsApi.EventShared | app/api/events/addEvent/route.ts:38-44 | exactly the date, duration, cost, registration link and media URL columns; each string is `?? null` (stored as sent, NULL only when missing) and the duration is stored as the number sent |
| EventsApi.EventColumns | app/api/events/addEvent/route.ts:24-45 | the insert and edit payload: language and shared event columns only, duration NULL exactly when missing |
| EventsApi.EventColumnsTexts | app/api/events/addEvent/route.ts:25-44 | every name, location, category and description column is written as sent, NULL only when missing |
| EventsApi.AddEvent | app/api/events/addEvent/route.ts:24-53 | one insert with no position and no other row touched; 500 and no write when it fails |
| EventsApi.DeleteEvent | app/api/events/deleteEvent/route.ts:11-64 | 400 without an id, 404 and no write for an unknown id; otherwise the row is deleted and each row above it lowered by one (refused writes ignored), keeping a dense table dense |
| EventsApi.LowerEach | app/api/events/deleteEvent/route.ts:59-64 | the loop lowers every row above the deleted position by one, skipping refused writes |
| EventsApi.Low | app/api/events/updateEvent/route.ts:78 | `Math.min(oldOrder, order_number)`: the smaller of the two (NULL as 0), NaN when the position is absent |
| EventsApi.High | app/api/events/updateEvent/route.ts:79 | `Math.max(oldOrder, order_number)`: the larger of the two, NaN when the position is absent |
| EventsApi.UpdateEvent | app/api/events/updateEvent/route.ts:24-99 | 400 without an id, 404 for an unknown row; when the position differs, the range rewrite (500 before the row's own write if it fails), then the row's update |
| EventsApi.EditMovesByRewrite | app/api/events/updateEvent/route.ts:72-94 | an edit with a new position moves positions exactly as the range rewrite followed by the row's own write |
| EventsApi.EditWithoutPositionKeepsOrder | app/api/events/updateEvent/route.ts:72-79 | the page's edit carries no `order_number`: it counts as changed; taking NaN bounds to match no row, no position changes |
| EventsApi.UpdateEventOrder | app/api/events/updateEventOrder/route.ts:13-23 | positions written in order up to the first refused write |
| TailorApi.TailorTexts | app/api/tailor/addTailor/route.ts:44-51 | every language column `?.trim() \|\| null` |
| TailorApi.AddTailorColumns | app/api/tailor/addTailor/route.ts:42-54 | the Spanish title and the image are stored as given, every other column as in `TailorTexts` |
| TailorApi.AddTailorTexts | app/api/tailor/addTailor/route.ts:44-51 | apart from the Spanish title, each language column is the trimmed text or NULL when blank or missing |
| TailorApi.AddTailor | app/api/tailor/addTailor/route.ts:15-73 | 400 and no write without all three languages, the Spanish title and the image; 500 and no write when the count or insert fails; otherwise inserted last at position n, keeping a dense table dense |
| TailorApi.UpdateTailorColumns | app/api/tailor/updateTailor/route.ts:26-46 | the edit writes the image `?.trim() ?? null` and only tailor-made columns |
| TailorApi.UpdateTailorTexts | app/api/tailor/updateTailor/route.ts:27-39 | every language column of an edit is written trimmed, NULL only when missing |
| TailorApi.UpdateTailor | app/api/tailor/updateTailor/route.ts:16-96 | update the row; when `order` was sent, rank every row; otherwise no other row is written |
| TailorApi.DeleteTailor | app/api/tailor/deleteTailor/route.ts:14-72 | delete, then rank the remaining items and return the assignment |
| TailorApi.UpdateTailorOrder | app/api/tailor/updateTailorOrder/route.ts:16-43 | 400 for a body that is not an array; every write attempted, the accepted ones applied, 500 listing each refused one |
| BlogsApi.AddBlogTexts | app/api/blogs/addBlog/route.ts:30-54 | every language column of an inserted post is written with its own coercion |
| BlogsApi.AddBlogGeneral | app/api/blogs/addBlog/route.ts:56-62 | every shared column of an inserted post is written with its own coercion |
| BlogsApi.AddBlogColumns | app/api/blogs/addBlog/route.ts:29-63 | the insert payload holds only blog language and shared columns |
| BlogsApi.AddBlogColumnsAt | app/api/blogs/addBlog/route.ts:29-63 | every blog column is in the insert payload, with its language or shared value |
| BlogsApi.AddBlogRequired | app/api/blogs/addBlog/route.ts:30-33 | for a valid body the slug and the Spanish title and excerpt are stored trimmed |
| BlogsApi.AddBlogSpanishContent | app/api/blogs/addBlog/route.ts:34 | the Spanish content is stored exactly as sent, untrimmed |
| BlogsApi.AddBlogOptionalTexts | app/api/blogs/addBlog/route.ts:35-53 | meta fields, categories and the other languages' titles and excerpts are trimmed, NULL exactly when missing or blank |
| BlogsApi.AddBlogUrls | app/api/blogs/addBlog/route.ts:56-58 | the cover, OG and canonical URLs are trimmed and never stored blank |
| BlogsApi.AddBlogGuards | app/api/blogs/addBlog/route.ts:38-62 | tags stored only as a non-empty array, other content only when not "", `published` as a boolean, links only when the map has a key |
| BlogsApi.AddBlogPosition | app/api/blogs/addBlog/route.ts:60 | `order_number ?? count ?? 0`: a sent number, else the count, else 0 |
| BlogsApi.AddBlog | app/api/blogs/addBlog/route.ts:16-75 | 400 and no write without slug and Spanish title, excerpt and content; a failed count is only logged; 500 and no write when the insert fails; otherwise one row inserted at `AddBlogPosition` |
| BlogsApi.AddBlogAppends | app/api/blogs/addBlog/route.ts:21-60 | without a sent position and with a working count, a new post goes last and a dense table stays dense |
| BlogForm.FreshFormInsertsFirst | types/blogs.ts:112 | the form starts at `order_number: 0`, so a post saved from it is inserted at position 0, which breaks a dense table that already holds posts |
| BlogsApi.UpdateBlogTexts | app/api/blogs/updateBlog/route.ts:19-41 | the language columns of an edit, each written or dropped as `UpdateBlogCell` says |
| BlogsApi.UpdateBlogGeneral | app/api/blogs/updateBlog/route.ts:43-49 | the shared columns of an edit, each written or dropped as `UpdateBlogSharedCell` says |
| BlogsApi.UpdateBlogColumns | app/api/blogs/updateBlog/route.ts:16-50 | the update payload holds only blog columns, with keys whose value is `undefined` left out |
| BlogsApi.UpdateBlogColumnsAt | app/api/blogs/updateBlog/route.ts:16-50 | whether and how each column is written by an edit |
| BlogsApi.UpdateBlogOmits | app/api/blogs/updateBlog/route.ts:17-49 | the slug, the Spanish title, excerpt and content, `published` (unless boolean) and the links are left alone exactly when not given; meta fields, categories and tags are always written |
| BlogsApi.BlogPatch | app/api/blogs/updateBlog/route.ts:47 | only a numeric `order_number` is written; `null` or absent keeps the position |
| BlogsApi.UpdateBlog | app/api/blogs/updateBlog/route.ts:13-57 | 400 without an id; one update of the defined columns, 500 and no write when it fails; no other post is renumbered |
| BlogsApi.UpdateBlogKeepsSlug | app/api/blogs/updateBlog/route.ts:17 | an edit without a slug keeps the stored slug |
| BlogsApi.UpdateBlogKeepsPosition | app/api/blogs/updateBlog/route.ts:47-55 | an edit without a numeric `order_number` keeps the stored position |
| BlogsApi.DeleteBlog | app/api/blogs/deleteBlog/route.ts:11-14 | 400 without an id; otherwise exactly that row is removed, or nothing and 500 on a store error; no renumbering |
| BlogsApi.UpdateBlogOrder | app/api/blogs/updateBlogOrder/route.ts:17-25 | positions written in order up to the first refused write; success when all are written |
| Reorder.Removed | app/Dashboard_desktopView/events/page.tsx:176 | `splice(i, 1)`: the list without item i, the others in order |
| Reorder.Inserted | app/Dashboard_desktopView/events/page.tsx:177 | `splice(j, 0, x)`: x at j, the items from j on one place further |
| Reorder.RemoveInserted | app/Dashboard_desktopView/events/page.tsx:175-177 | putting an item in and taking it out again gives back the list |
| Reorder.InsertRemoved | app/Dashboard_desktopView/events/page.tsx:175-177 | taking an item out and putting it back where it was gives back the list |
| Reorder.MovedPlaces | app/Dashboard_desktopView/events/page.tsx:175-177 | a drag keeps the length and the items (a permutation), puts the dragged item at the destination, and keeps the others in their relative order |
| Reorder.MovedInPlace | app/Dashboard_desktopView/events/page.tsx:175-177 | a drop on the item's own place leaves the list as it was |
| Reorder.Renumbered | app/Dashboard_desktopView/events/page.tsx:180-183 | every item's position becomes its index; ids and all other fields are kept |
| Reorder.RenumberedIdempotent | app/Dashboard_desktopView/events/page.tsx:180-183 | renumbering a renumbered list changes nothing |
| Reorder.Payload | app/Dashboard_desktopView/tailor/page.tsx:186-190 | the order request lists `{ id, order }` of each item, in list order |
| Reorder.RenumberedPayload | app/Dashboard_desktopView/tailor/page.tsx:175-190 | after a renumber the request lists each item once, at its index, with distinct ids |
| Reorder.DragWriteDense | app/Dashboard_desktopView/tailor/page.tsx:175-190 | a list naming every row once, renumbered and written in full by an order route, leaves the table dense |
| Reorder.DragEnd | app/Dashboard_desktopView/blogs/page.tsx:61-76 | no destination: the list stays and nothing is posted; otherwise the list is moved and renumbered, kept and posted |
| Reorder.Splice | app/Dashboard_desktopView/events/page.tsx:175-177 | the two splices on the copied array move item s to d |
| Reorder.RenumberByIndex | app/Dashboard_desktopView/events/page.tsx:180-183 | the array is renumbered in place by index |
| Reorder.InsertByKey | app/Dashboard_desktopView/events/page.tsx:71-75 | inserting into a sorted list keeps it sorted and adds exactly the item |
| Reorder.SortByOrder | app/Dashboard_desktopView/events/page.tsx:71-75 | the fetched records sorted ascending by position (null as 0), a permutation of the fetch |
| Reorder.SortSorted | app/Dashboard_desktopView/tailor/page.tsx:38 | an already sorted list is left as it is |
| Reorder.Filter | app/Dashboard_desktopView/events/page.tsx:88-90 | the search filter keeps at most every item |
| Reorder.FilterKeepsExactly | app/Dashboard_desktopView/events/page.tsx:88-90 | the search filter keeps exactly the items the test accepts: every kept item is in the list and passes, every passing item is kept |
| Reorder.FilterSingle | app/Dashboard_desktopView/events/page.tsx:88-90 | one item is kept exactly when it passes; with `FilterAppend` this fixes the filtered list, order included |
| Reorder.FilterAll | app/Dashboard_desktopView/blogs/page.tsx:140 | a filter that keeps every item gives the list itself |
| Reorder.FilterAppend | app/Dashboard_desktopView/blogs/page.tsx:140 | filtering a joined list filters each part |
| Reorder.ShownIndex | app/Dashboard_desktopView/tailor/page.tsx:252-256 | finds the full-list position of the item a draggable numbers s |
| Reorder.FilteredDragMovesHidden | app/Dashboard_desktopView/tailor/page.tsx:170-172 | with a hidden first item, dragging the first shown item down moves the hidden item and leaves the shown list as it was |
| Reorder.MovedShownPlaces | app/Dashboard_desktopView/tailor/page.tsx:170-172 | with the drop indices translated to the full list, the items are kept and the shown list moves exactly as the drop says |
| Reorder.DragEndShown | app/Dashboard_desktopView/events/page.tsx:172-198 | the drag with indices read in the shown list: the shown list changes as the drop says, and every item gets its index as position |
| Pages.TextOrEmptyToNull | app/Dashboard_desktopView/events/page.tsx:203-229 | a text stored `\|\| null` reads back into the form as it was sent ("" for a missing one) |
| Pages.TextOrTrimOrNull | app/Dashboard_desktopView/tailor/page.tsx:145-164 | a text stored `?.trim() \|\| null` reads back trimmed ("" for a blank one) |
| Pages.TagsOrTagsOrNull | app/Dashboard_desktopView/blogs/page.tsx:100-118 | `tags \|\| []` inverts the routes' empty-to-NULL: a stored tag list reads back as sent |
| Pages.BlogEmptySearchShowsAll | app/Dashboard_desktopView/blogs/page.tsx:140 | with an empty search the blog page shows every post, in order, a NULL title counting as "" |
| Pages.SpanishEmptySearch | app/Dashboard_desktopView/events/page.tsx:88-90 | with an empty search the events page still hides a record exactly when its Spanish name is not a text |
| Pages.LowerIdempotent | app/Dashboard_desktopView/events/page.tsx:88-90 | lowering twice is lowering once |
| Pages.SearchIgnoresCase | app/Dashboard_desktopView/tailor/page.tsx:50-52 | the search ignores the case of ASCII letters in the term |
| Pages.Section | app/Dashboard_desktopView/events/page.tsx:203-229 | a form section read from a record has exactly the form's fields |
| Pages.SectionsAt | app/Dashboard_desktopView/events/page.tsx:203-229 | each field of each language is the stored text or "" |
| Pages.EventRecordForm | app/Dashboard_desktopView/events/page.tsx:203-229 | `mapRecordToFormData` gives every language exactly the event fields |
| Pages.EventRecordRoundTrip | app/Dashboard_desktopView/events/page.tsx:203-229 | an event saved by the routes opens with each text it carried ("" when missing) and its duration (0 when missing) |
| Pages.TailorRecordForm | app/Dashboard_desktopView/tailor/page.tsx:145-164 | every text and the image `\|\| ""` |
| Pages.TailorRecordFormValid | app/Dashboard_desktopView/tailor/page.tsx:145-164 | a record with every text and its image stored opens as a form that passes `isFormValid` |
| Pages.BlogRecordForm | app/Dashboard_desktopView/blogs/page.tsx:91-128 | `mapRecordToForm`: position copied; a stored slug, Spanish title and content, and `published` flag copied; tags `\|\| []`; no social links |
| Pages.GuardedRequest | app/Dashboard_desktopView/tailor/page.tsx:104-112 | an edit without a record being edited sends nothing; an edit carries that record's id |
| Pages.BlogRequest | app/Dashboard_desktopView/blogs/page.tsx:133 | the blog page always sends an edit when editing, with an id only when it has a current record |
| Pages.TailorDragEnd | app/Dashboard_desktopView/tailor/page.tsx:167-197 | as written: the drop indices splice the full list, every item gets its index, `{ id, order }` is posted for each; on a table holding exactly these items the post leaves the positions dense |
| Reorder.MovedIndices | app/Dashboard_desktopView/tailor/page.tsx:170-172 | the splice is a bijection of places: each place of the result holds the item from one source place, and every source place lands somewhere |
| Reorder.MovedCovers | app/Dashboard_desktopView/tailor/page.tsx:170-172 | a drag keeps the ids distinct and names the same rows |
| Translation.ChunksConcat | components/forms/eventForms/EventsForm.tsx:43-51 | joining the chunks of `chunkString(s, n)` gives back s |
| Translation.ChunkSizes | components/forms/eventForms/EventsForm.tsx:43-51 | every chunk is non-empty and at most n long, all but the last exactly n; "" gives no chunk |
| Translation.ChunkString | components/forms/blogForms/hooks/useTranslation.ts:5-13 | the `while` loop produces exactly the chunks |
| Translation.TranslateChunks | components/forms/eventForms/EventsForm.tsx:54-79 | the joined chunk translations, or failure exactly when some call fails |
| Translation.TranslateTextFallback | components/forms/eventForms/EventsForm.tsx:71-78 | a service that never translates leaves the text as it was: an empty reply gives back its chunk, a failure the whole text |
| Translation.EmptyRepliesGiveChunks | components/forms/eventForms/EventsForm.tsx:71 | with only empty replies the chunks are joined back unchanged |
| Translation.TranslateTextLoop | components/forms/tailorForms/TailorForm.tsx:25-51 | the chunk loop with its `catch` computes `translateText` |
| Translation.TranslateChunksFailed | components/forms/eventForms/EventsForm.tsx:75-78 | one failed call fails the whole translation |
| Translation.TranslateWhole | components/forms/clientsForms/ClientsForm.tsx:19-36 | the clients form's one call: the translation, or the input when the reply is empty or failed |
| Translation.TranslateNonBlank | components/forms/blogForms/hooks/useTranslation.ts:16-45 | a blank text is returned without a call; otherwise the chunked translation |
| Translation.GoogleText | components/forms/blogForms/hooks/useBlogTranslation.ts:29-63 | a blank text is returned as is; a failure on a non-blank text throws |
| Translation.GoogleField | components/forms/blogForms/hooks/useBlogTranslation.ts:66-79 | a failed field translation gives "" |
| Translation.GoogleTag | components/forms/blogForms/hooks/useBlogTranslation.ts:82-103 | a failed tag translation keeps the tag |
| Translation.ValidateApiKey | components/forms/blogForms/hooks/useBlogTranslation.ts:109-115 | a key is usable exactly when present, non-empty and not the placeholder |
| Forms.EmptySection | components/forms/eventForms/EventsForm.tsx:89-92 | a form section starts with "" in exactly its fields |
| Forms.ChangeTextOnly | components/forms/eventForms/EventsForm.tsx:113-127 | a text change sets one field of one language and changes nothing else |
| Forms.TranslatedKeepsSource | components/forms/eventForms/EventsForm.tsx:176-199 | `handleTranslate(src)` leaves the source language as it was |
| Forms.TranslatedTextsAt | components/forms/eventForms/EventsForm.tsx:176-199 | in every other language each listed field holds the translation of its source text, other fields are kept, none is dropped |
| Forms.HandleTranslate | components/forms/eventForms/EventsForm.tsx:170-199 | the nested loops write `updated` exactly as `TranslatedTexts` specifies |
| Forms.TranslateFallbackCopies | components/forms/eventForms/EventsForm.tsx:54-79 | when the service translates nothing, a translation copies the source texts into the other languages |
| Forms.EventFormInvalid | components/forms/eventForms/EventsForm.tsx:217-236 | one blank text in any language makes the events form invalid |
| Forms.TailorBody | app/Dashboard_desktopView/tailor/page.tsx:110-112 | the body the tailor-made form sends carries all three languages, the form's titles and its image |
| Forms.TailorFormAccepted | components/forms/tailorForms/TailorForm.tsx:172-187 | a form that passes `isFormValid` passes the insert route's own check |
| Forms.Uploaded | components/forms/newsForms/NewsForm.tsx:109-111 | the media URL changes only when the upload returned a non-empty URL |
| Forms.TailorUpload | components/forms/tailorForms/TailorForm.tsx:107-112 | with a URL the image is set; without one the upload throws and the form is kept |
| BlogForm.MergeLanguageField | components/forms/blogForms/BlogForm.tsx:36-42 | after the merge a text present in the initial data is kept and a missing one is "" |
| BlogForm.MergeComplete | components/forms/blogForms/BlogForm.tsx:55-62 | after the merge no optional member is left undefined |
| BlogForm.MergeKeepsFull | components/forms/blogForms/BlogForm.tsx:36-62 | initial data that carries every member is kept as it is; no initial data gives the empty form |
| BlogForm.MergeIdempotent | components/forms/blogForms/BlogForm.tsx:36-62 | merging again changes nothing |
| BlogForm.ChangeLanguageField | components/forms/blogForms/BlogForm.tsx:86-95 | one field of one language is set; the other languages and the general members are kept |
| BlogForm.ChangeLanguageFieldOnly | components/forms/blogForms/BlogForm.tsx:86-95 | every other field of every language is kept |
| BlogForm.ChangeGeneral | components/forms/blogForms/BlogForm.tsx:97-99 | exactly one general member changes |
| BlogForm.UploadCover | components/forms/blogForms/BlogForm.tsx:102-108 | the cover URL changes only when the upload returned a non-empty URL |
| BlogForm.UploadOg | components/forms/blogForms/BlogForm.tsx:109-114 | the OG URL changes only when the upload returned a non-empty URL |
| BlogForm.BlogFormValidIgnoresMeta | components/forms/blogForms/BlogForm.tsx:136-148 | meta fields and tags never decide validity |
| BlogForm.BlogFormAccepted | components/forms/blogForms/BlogForm.tsx:136-158 | a form the save button lets through passes the insert route's own check |
| BlogTranslation.NonBlank | components/forms/blogForms/hooks/useTranslation.ts:105-110 | the non-blank tags of a list, in order: none of them blank |
| BlogTranslation.TranslatedTagsMeaning | components/forms/blogForms/hooks/useTranslation.ts:98-115 | the translated tag list holds the translation of each non-blank source tag, in order, and nothing else |
| BlogTranslation.TranslatedFieldsKeepSource | components/forms/blogForms/hooks/useTranslation.ts:76-95 | the field loop never writes the source language |
| BlogTranslation.TranslatedFieldsAt | components/forms/blogForms/hooks/useTranslation.ts:76-95 | in another language a field with a non-blank source text gets its translation; a blank or unlisted one keeps its text; the tags are kept |
| BlogTranslation.TranslatedMeaning | components/forms/blogForms/hooks/useTranslation.ts:50-124 | `translateContent`: the source and general members are kept; target fields and tags are as above; with no source tags the target tags stay |
| BlogTranslation.Draft.TranslateFieldForAllLanguages | components/forms/blogForms/hooks/useBlogTranslation.ts:169-191 | every language but the source receives the field's translation |
| BlogTranslation.Draft.TranslateTagsForAllLanguages | components/forms/blogForms/hooks/useBlogTranslation.ts:193-211 | every language but the source receives the translated tags |
| BlogTranslation.TranslateTags | components/forms/blogForms/hooks/useBlogTranslation.ts:82-103 | the loop pushes the translation of each non-blank tag, in order |
| BlogTranslation.TranslateContent | components/forms/blogForms/hooks/useBlogTranslation.ts:117-167 | the copy-and-translate body of both hooks computes `TranslatedForm` |
| BlogTranslation.UseTranslationContent | components/forms/blogForms/hooks/useTranslation.ts:50-124 | `useTranslation().translateContent` with the chunked service |
| BlogTranslation.UseTranslationTexts | components/forms/blogForms/hooks/useTranslation.ts:76-115 | a target field receives the chunked translation of a non-blank source text; each translated tag is the chunked translation of a non-blank source tag |
| BlogTranslation.UseTranslationFallback | components/forms/blogForms/hooks/useTranslation.ts:16-45 | when the service translates nothing, target fields with non-blank source text become copies of it |
| BlogTranslation.UseBlogTranslationContent | components/forms/blogForms/hooks/useBlogTranslation.ts:117-167 | `useBlogTranslation().translateContent` with Google Translate |
| BlogTranslation.UseBlogTranslationKey | components/forms/blogForms/hooks/useBlogTranslation.ts:109-131 | a missing, empty or placeholder key returns the form unchanged and reports the error; a usable key reports none |
| BlogTranslation.UseBlogTranslationFailures | components/forms/blogForms/hooks/useBlogTranslation.ts:66-103 | a failed field translation gives ""; a failed tag translation keeps the tag |
| Editors.AddTagMeaning | components/forms/blogForms/TagsEditor.tsx:14-19 | an add keeps the tags in order and appends the trimmed input and clears it exactly when it is non-blank and new; otherwise nothing changes |
| Editors.AddTagKeepsNoDuplicates | components/forms/blogForms/TagsEditor.tsx:14-16 | adding never creates a duplicate or a blank tag |
| Editors.RemoveTag | components/forms/blogForms/TagsEditor.tsx:21-24 | removes exactly position i and keeps the others in order; an out-of-range i changes nothing |
| Editors.RemoveTagKeepsNoDuplicates | components/forms/blogForms/TagsEditor.tsx:21-24 | removing keeps the list free of duplicates |
| Editors.TagsKeyDownBlank | components/forms/blogForms/TagsEditor.tsx:26-31 | Enter on a blank input, or any other key, does nothing; Enter on a non-blank input adds |
| Editors.SubmitCustomCategory | components/forms/blogForms/CategorySelector.tsx:18-23 | a non-blank custom category becomes the category, trimmed, and the input is cleared; a blank one changes nothing |
| Editors.LangKey | components/forms/blogForms/CategorySelector.tsx:32-38 | Spanish, English and Portuguese map to the keys `es`, `en`, `pt` |
| Editors.CategoryOptions | components/forms/blogForms/CategorySelector.tsx:52-59 | one option per category entry, valued by its name in the selected language |
| Editors.CategoryOptionsKeys | components/forms/blogForms/CategorySelector.tsx:52-59 | in Spanish the options are the category keys; in every language none is empty |
| SocialLinksEditor.Toggle | components/forms/blogForms/SocialLinksForm.tsx:30-42 | off deletes the key; on sets "" for a provider and [] for `custom`; other keys unchanged |
| SocialLinksEditor.ToggleEnabled | components/forms/blogForms/SocialLinksForm.tsx:104 | a provider switched on is enabled, switched off is not, and no other provider changes |
| SocialLinksEditor.Update | components/forms/blogForms/SocialLinksForm.tsx:44-46 | sets one provider's URL and keeps the other keys |
| SocialLinksEditor.AddCustom | components/forms/blogForms/SocialLinksForm.tsx:48-57 | an empty or cancelled label or URL adds nothing; otherwise one entry is appended, without an icon when the icon answer is empty |
| SocialLinksEditor.RemoveCustom | components/forms/blogForms/SocialLinksForm.tsx:59-65 | removes entry i; the `custom` key is deleted exactly when the list becomes empty |
| SocialLinksEditor.UpdateCustom | components/forms/blogForms/SocialLinksForm.tsx:67-72 | one member of one entry changes; every other entry and key is kept |
| SocialLinksEditor.UpdateCustomOneMember | components/forms/blogForms/SocialLinksForm.tsx:67-72 | a caption or URL edit leaves the entry's other members as they were |
| SocialLinksEditor.AddThenRemoveCustom | components/forms/blogForms/SocialLinksForm.tsx:48-65 | adding an entry and removing it gives back the list |
| Slug.Fold | components/forms/blogForms/GeneralSettings.tsx:20-21 | the diacritic map works one character at a time and keeps the length |
| Slug.KeepAllowed | components/forms/blogForms/GeneralSettings.tsx:22 | only `a-z`, `0-9`, `-` and white space remain; a string of slug characters is kept |
| Slug.Hyphenate | components/forms/blogForms/GeneralSettings.tsx:24 | no white space remains; every character is `-` or from the input |
| Slug.HyphenateRun | components/forms/blogForms/GeneralSettings.tsx:24 | a run of white space before a word becomes exactly one `-` |
| Slug.HyphenateNoSpace | components/forms/blogForms/GeneralSettings.tsx:24 | a string without white space is left as it is |
| Slug.NormalizeChars | components/forms/blogForms/GeneralSettings.tsx:17-26 | the slug holds only `a-z`, `0-9` and `-` |
| Slug.NormalizeUpper | components/forms/blogForms/GeneralSettings.tsx:19 | an upper-case ASCII letter comes out lower-cased |
| Slug.NormalizeIdempotent | components/forms/blogForms/GeneralSettings.tsx:17-26 | normalising a slug again changes nothing |
| Slug.NormalizePadded | components/forms/blogForms/GeneralSettings.tsx:23-24 | white space around the input never shows in the slug, because trimming comes before hyphenation |
| ClientCard.NextLang | components/ClientCard.tsx:48-53 | the next arrow always changes the language |
| ClientCard.PrevLang | components/ClientCard.tsx:55-60 | the previous arrow always changes the language |
| ClientCard.PrevUndoesNext | components/ClientCard.tsx:48-60 | previous undoes next and next undoes previous |
| ClientCard.NextCycles | components/ClientCard.tsx:48-53 | three nexts come back to the start after showing every language once |
| ClientCard.SuffixesDiffer | components/ClientCard.tsx:42-46 | two languages never read the same column |
| ClientCard.Card.GetFieldByLang | components/ClientCard.tsx:42-46 | the column with the suffix of the shown language, missing exactly when the client lacks it |
| ClientCard.Card.HandleNextLang | components/ClientCard.tsx:48-53 | ES to EN to PT to ES |
| ClientCard.Card.HandlePrevLang | components/ClientCard.tsx:55-60 | ES to PT to EN to ES |
| ClientCard.NextThenPrev | components/ClientCard.tsx:42-60 | next then previous shows the same column again |
| Middleware.AdminRoutesAreProtected | middleware.ts:4-40 | the admin routes are the protected routes minus "/" |
| Middleware.UnprotectedNoAction | middleware.ts:43 | a path outside the protected set is passed on, whoever asks |
| Middleware.ProtectedNeedsSession | middleware.ts:44 | a protected path without a session must sign in |
| Middleware.AdminDecision | middleware.ts:46-52 | a signed-in user on an admin page is sent home exactly when the role is not `lens_admin`; a `lens_admin` user is never redirected |
| Middleware.HomeForEveryUser | middleware.ts:42-54 | every signed-in user may see the home page |
| Middleware.AllowedAdminPage | middleware.ts:42-54 | a request let through to an admin page comes from a `lens_admin` user |
| ResizableImage.RenderHTML | components/ui/extensions/ResizableImage.ts:29-38 | the figure carries the float class and the composed style; the img carries every other attribute |
| ResizableImage.FigureClassFloats | components/ui/extensions/ResizableImage.ts:32 | `float:left` wins, else `float:right`, else the plain class |
| ResizableImage.FloatLeftAnywhere | components/ui/extensions/ResizableImage.ts:32 | a `float:left` anywhere in the style floats the image left |
| ResizableImage.FigureStyleParts | components/ui/extensions/ResizableImage.ts:35-36 | the style starts with `width:W;` when a width is set and ends with the own style when there is one |
| ResizableImage.ImgAttrs | components/ui/extensions/ResizableImage.ts:30-37 | the img keeps every attribute except `width` and `style`, with its value |

## Left out

- Network and storage I/O: the store calls are the methods of `Store.Table`, and their failures are inputs. Upload calls to Cloudinary and the upload routes are not part of this model. A returned URL is a parameter.
- The translation HTTP calls to MyMemory and Google Translate, and the API key's environment variable: they are function parameters.
- Concurrency: `Promise.all` in the tailor-made order route and form is taken as sequential. Interleavings of concurrent renumbering passes are not modelled.
- Error messages and UI state (`isTranslating`, the translation error text, alerts, console logs): only the status code, and whether the missing-key error is set, are modelled.
- In both translation hooks and in `handleTranslate`, the outer `catch` cannot be reached, because every translation call catches its own failure. No error path is modelled for them.
- `handleTranslate` and the hooks copy the form with one-level spreads, so the copy shares the nested language objects with the state. The model treats the copy as a fresh value.
- An object spread that carries a key whose value is `undefined` is not told apart from a missing key, except in the blog edit route.
- `toLowerCase` is modelled for ASCII letters only. NFD decomposition and diacritic stripping are an abstract character map.
- Middleware: route matching is set membership, and `auth.protect()` is the `SignInRequired` outcome. The `config.matcher` patterns and the auth provider calls are not part of this model.
- The rich-text editor, including `ResizableImage`'s node view and drag resize. Only `renderHTML` is modelled.
- The events form's date picker: it is the `hasDate` parameter. `toISOString` is not modelled.
- The blog page never sets its `editing` record, so `mapRecordToForm` is never reached in the running page. It is modelled as written.
- In the search filters, a non-text cell in the searched column counts as no title.
- The read-only GET routes: only their sort order is used, as the page's own sort. The news GET does not sort.
- The field mappings with no ordering logic are not modelled: the client update routes, the legacy client and news insert routes, the role route, and the news and clients pages' `mapRecordToFormData`.
- Pure UI rendering components: the display cards, modals, headers, uploaders and the rest of the layout.
- SocialLinksEditor.UpdateCustom: requires an index inside the list. An index past the end would grow the array with a hole, and that is not modelled.
- Reorder.DragEnd: requires drop indices inside the list. The drag library only reports such indices.
- Editors.LangKey: the fallback branch of `getLangKey` cannot be reached with the three languages.
- BlogsApi.UpdateBlogCell: a Spanish `content` sent as JSON `null` is written as NULL by the route. The model's `Option` does not tell `null` from a missing key, so it drops that column instead.
- Pages.BlogRecordForm: the Spanish title, excerpt and content, the slug and `published` are copied as stored, NULL included. The form model holds plain strings and a boolean, so a NULL reads as "" or false.
- EventsApi.UpdateEvent: an edit without `order_number` filters the range update with NaN bounds (`Math.min`/`Math.max` of a number and `undefined`). The model takes it that such bounds match no row. If the store instead rejects `NaN` for the integer column, the route answers 500 before the row's own update; that outcome is not modelled.
- Translation.ChunkString, Translation.Chunks: JavaScript's `slice` and `length` count UTF-16 code units; the model counts characters (Unicode scalar values), so a text with characters outside the Basic Multilingual Plane is cut at different places.
- EventsApi.DeleteEvent: an event inserted without a position has a NULL `order_number`; deleting it fetches with `.gt("order_number", null)`. The model takes such a bound to match no row (`Rows.Above`) and answers success. If the store instead rejects the NULL bound for the integer column, the route answers 500 after the row is already deleted; that outcome is not modelled.
- Store.Table.Delete, ClientsApi.LegacyDeleteClient: the model takes a delete whose id matches no row, including an `id` missing from the body (`.eq("id", undefined)` in app/api/deleteClient/route.ts:11-14), to remove nothing and succeed. How the store answers a filter on an undefined id is not modelled.
- Forms.EventFormValid, EventsApi.EventShared: the duration is a JavaScript number, and a fractional value such as 1.5 passes `duration > 0`. The model keeps whole numbers only.
- ClientsApi.UpdateClientOrder, NewsApi.UpdateNewsOrder, EventsApi.UpdateEventOrder, BlogsApi.UpdateBlogOrder: a body that is not an array makes `for … of` throw, and the route answers 500. The request is a sequence of assignments in the model, so that case cannot be stated.

## Findings

| source | as written | input that shows it | evidently intended | confidence | as-written member | corrected member |
|---|---|---|---|---|---|---|
| app/api/events/updateEvent/route.ts:72-88 | every other row whose position lies between the old and new position is given the old position | rows a, b, c at 0, 1, 2, and a moved to 2: b and c both get 0 | the rows in between step one place towards the vacated position | not executed | Rows.RangeRewriteBreaksDensity | Rows.ShiftKeepsDensity |
| app/Dashboard_desktopView/tailor/page.tsx:167-197 | the drop indices, which number the filtered list, are used to splice the full list (the events page does the same at 172-198, and app/Dashboard_desktopView/blogs/page.tsx:61-76 splices `blogs` while :163 numbers `filtered`) | items a (hidden by the search), b, c; b dragged from shown index 0 to 1: a moves instead, and the shown list stays b, c | translate the shown indices to full-list positions before splicing | not executed | Reorder.FilteredDragMovesHidden | Reorder.DragEndShown |
