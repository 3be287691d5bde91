# Memora memory store, modelled in Dafny

Memora is a browser journal of photo memories. This project models its core: the
client-side memory store of the page component and the submit logic of the add form.

- **Records and categories** (`types.dfy`, module `Types`): the `Memory` record, the closed
  `Category` set and the `CATEGORIES` listing. A record's category is a plain string.
- **Selection** (`collections.dfy`, module `Collections`): `Filter`, an order-preserving
  selection. The store uses it to search and to delete.
- **The view** (`query.dfy`, module `MemoryQuery`): the records whose lower-cased title or
  description contains the lower-cased search text and whose category is the selected
  one (or `All`). They come most recent first, through a stable sort. The view is a pure
  function of the collection.
- **The store** (`store.dfy`, module `Store`): the class `Vault` holds the collection,
  the loading flag and the browser's key-value storage.
  - `Load` reads the `memora_vault` slot once. An absent or empty slot gives the
    two-record seed, and so does text that fails to parse; otherwise the parsed
    collection is installed unchecked.
  - `Persist` writes the whole collection back to the slot, but only once loading is over.
  - `Add` prepends a record. `Delete` removes every record with an id once the user
    confirms. Each change is followed by the persist step it triggers.
  - JSON is an injected `Codec` (stringify and a parse that may fail). `ValidCodec`
    states the round trip that JSON gives for arrays of such records.
- **The add form** (`form.dfy`, module `AddMemoryModal`): the class `Form` with title,
  description, category and image. `Submit` refuses an incomplete form, builds one record
  from a complete form using the clock values passed in, and then resets the form.
- **Wiring** (`page.dfy`, module `Page`): a form submission reaches the store's add
  handler, and the modal closes.

Dates are held as millisecond timestamps. The seed's ISO dates 2024-05-15T18:00:00Z and
2024-06-02T08:30:00Z become 1715796000000 and 1717317000000.

Loading has no shape check: text that parses is installed as it is (App.tsx:37-39), so a
saved value of the wrong shape is not replaced by the seed.

## Model

| member | source | states |
|---|---|---|
| `Types.CategoryName` | types.ts:11 | every category is stored as a non-empty string literal |
| `Types.CategoriesComplete` | types.ts:11-13 | the listing has six entries, contains every category, and contains the default `General` |
| `Types.CategoriesDistinct` | types.ts:11-13 | no category is listed twice; each occurs exactly once |
| `Types.CategoryNameInjective` | types.ts:11 | two categories have the same string exactly when they are the same category |
| `Collections.Filter` | App.tsx:56 | the result is no longer than the input and holds exactly the input's elements that pass |
| `Collections.FilterConcat` | App.tsx:56 | filtering keeps order: filtering a concatenation concatenates the filtered parts |
| `Collections.FilterCount` | App.tsx:56 | each passing element is kept exactly as often as it occurs; failing ones are dropped |
| `Collections.FilterKeepsAll` | App.tsx:56 | when every element passes, the result is the input |
| `Collections.FilterDropsAll` | App.tsx:56 | when no element passes, the result is empty |
| `Collections.FilterDropsOne` | App.tsx:70 | when only the element at k fails, the result is the input with position k cut out |
| `Collections.FilterFilter` | App.tsx:56-60 | filtering by two conditions gives the same result in either order |
| `Collections.FilterPair` | App.tsx:56 | a two-element input keeps each passing element, in order |
| `MemoryQuery.LowerChar` | App.tsx:57 | upper-case ASCII letters map to their lower-case forms; every other character is unchanged |
| `MemoryQuery.Lower` | App.tsx:57-58 | lower-casing keeps the length and lower-cases each character |
| `MemoryQuery.ContainsAt` | App.tsx:57-58 | the substring test `Contains`, which models `includes`, holds exactly when the needle occurs at some position of the text |
| `MemoryQuery.MatchesSearch` | App.tsx:57-58 | a record matches the search exactly when the lower-cased search text occurs at some position of its lower-cased title or of its lower-cased description |
| `MemoryQuery.EmptySearchMatches` | App.tsx:57-58 | the empty search text matches every record |
| `MemoryQuery.Insert` | App.tsx:61 | inserting one record into the sorted part adds exactly that record |
| `MemoryQuery.InsertSorted` | App.tsx:61 | inserting into a sequence sorted by date descending keeps it sorted |
| `MemoryQuery.SortByDate` | App.tsx:61 | the result is sorted by date, most recent first, and is a permutation of the input |
| `MemoryQuery.InsertKeepsDateOrder` | App.tsx:61 | inserting a record does not reorder the records of any one date |
| `MemoryQuery.SortIsStable` | App.tsx:61 | the sort is stable: for every date, the records with that date keep their input order |
| `MemoryQuery.HeadIsLatest` | App.tsx:61 | in a sorted result, no record is more recent than the first one |
| `MemoryQuery.StableSortUnique` | App.tsx:61 | two sorted sequences with the same per-date order are equal, so any stable date-descending sort gives the same result |
| `MemoryQuery.Query` | App.tsx:55-62 | the view is sorted by date, most recent first. Every shown record is in the collection and matches both the search (`MatchesSearch`) and the category (`MatchesCategory`: `All`, or the record's category string equals the selected name exactly). Every matching record is shown, with the same multiplicity as among the matching records |
| `MemoryQuery.QueryKeepsCollectionOrder` | App.tsx:56-61 | for every date, the view shows that date's matching records in collection order |
| `MemoryQuery.QueryIsTheStableSort` | App.tsx:61 | any sorted, stable arrangement of the matching records is the view |
| `MemoryQuery.QueryEverything` | App.tsx:57-59 | an empty search under `All` shows every record of the collection, each exactly as often |
| `MemoryQuery.QueryEmptyCategory` | App.tsx:59 | a category that no record carries gives an empty view, whatever the search |
| `MemoryQuery.UncategorisedOnlyUnderAll` | App.tsx:59 | a record whose category string is outside the closed set appears only under `All` |
| `Store.GetItem` | App.tsx:36 | reading the slot gives its text when the key is present and nothing otherwise |
| `Store.Restore` | App.tsx:36-45 | absent or empty saved text gives the seed, and so does text that fails to parse; text that parses gives its parse, unchecked |
| `Store.SeedRecords` | App.tsx:9-26 | the seed is exactly two records with ids "1" and "2" (Travel and Family), with non-empty titles and image URLs |
| `Store.RestoreIsSeedOrParse` | App.tsx:37-45 | the start collection is the seed or the complete parse of the saved text, never part of one |
| `Store.ReloadRestores` | App.tsx:36-51 | a load of the text that persist writes gives back the collection that was written |
| `Store.Without` | App.tsx:70 | after a delete, no record carries the id, and every record with another id remains |
| `Store.WithoutConcat` | App.tsx:70 | the records that survive a delete keep their relative order |
| `Store.WithoutAbsent` | App.tsx:70 | deleting an id that no record carries leaves the collection unchanged |
| `Store.WithoutCount` | App.tsx:70 | a record with another id survives as often as it occurred; records with the id are gone |
| `Store.WithoutUnique` | App.tsx:70 | with unique ids, deleting record k's id removes exactly record k |
| `Store.WithoutKeepsUnique` | App.tsx:70 | deleting keeps ids unique |
| `Store.AddKeepsUnique` | App.tsx:64-66 | prepending a record whose id is new keeps ids unique |
| `Store.AddThenQuery` | App.tsx:64-66 | after adding a record with a new id, the empty search under `All` shows it exactly once |
| `Store.DeleteThenQuery` | App.tsx:68-72 | after a delete, no view shows a record with the deleted id |
| `Store.SeedViewAll` | App.tsx:55-62 | the unfiltered seed is shown as record "2" then record "1" |
| `Store.SeedViewByCategory` | App.tsx:59 | on the seed, Travel shows only record "1" and Love shows nothing |
| `Store.SeedDeleteFirst` | App.tsx:68-72 | deleting "1" from the seed leaves a view of record "2" alone |
| `Store.Vault.constructor` | App.tsx:29-33 | the page starts with no records, in the loading state, with the browser's storage as it was |
| `Store.Vault.Load` | App.tsx:35-47 | the collection becomes what the slot's text restores (seed or parse), and loading ends |
| `Store.Vault.Persist` | App.tsx:49-53 | while loading, storage is untouched. Otherwise the slot is overwritten with the collection's text and no other key changes. Once loading is over, the slot then mirrors the collection |
| `Store.Vault.Mount` | App.tsx:35-53 | page start: the restored collection is installed, loading ends, and the slot holds its text |
| `Store.Vault.Add` | App.tsx:64-66 | the new record comes first, followed by the old collection unchanged. The length grows by one, and the slot follows once loading is over |
| `Store.Vault.Delete` | App.tsx:68-72 | when confirmed, every record with the id goes and, once loading is over, the slot follows; when declined, nothing changes |
| `Store.Vault.View` | App.tsx:55-62 | the page's view holds exactly the matching records of the store, each as often as among the matching records, most recent first |
| `Store.ReloadAfterAdd` | App.tsx:35-66 | a visit that adds a record, followed by a reload on the storage it left, shows the same collection, with the new record first |
| `AddMemoryModal.Form.constructor` | components/AddMemoryModal.tsx:13-16 | a fresh form has empty text, no image and category `General` |
| `AddMemoryModal.Form.SetTitle` | components/AddMemoryModal.tsx:121 | typing sets the title |
| `AddMemoryModal.Form.SetDescription` | components/AddMemoryModal.tsx:132 | typing sets the description |
| `AddMemoryModal.Form.PickCategory` | components/AddMemoryModal.tsx:101-105 | a category button sets the category, which is always a member of the listing |
| `AddMemoryModal.Form.ImageLoaded` | components/AddMemoryModal.tsx:25-27 | the reader's result becomes the image: a data URL on success, nothing after a failed or aborted read, which then disables saving |
| `AddMemoryModal.Form.Submit` | components/AddMemoryModal.tsx:32-51 | a record is emitted exactly when the save button is enabled, that is when `SubmitDisabled` (line 150: empty title, or no or empty image) is false, which is the guard of line 34; otherwise nothing changes. The record carries the form's title, description, image and category, with a category from the listing; its id and date come from the clock values. The form then resets to empty text, no image and `General`, and asks to close |
| `Page.SubmitToStore` | App.tsx:171-175 | a complete form's record is prepended to the store, the slot follows once loading is over, the form resets to its defaults and the modal closes. An incomplete form changes neither the form nor the store and the modal stays open. The loading flag is never touched |

## Left out

- Markup, styling and the card component are presentation only. The date shown on a card is formatted by the browser's locale formatting, which is not modelled.
- The generative-text service is a network client over an external library and is not part of this model.
- Reading the chosen file into a data URL is asynchronous browser I/O. The model starts from the reader's result, a data URL or nothing (`Form.ImageLoaded`).
- The browser's confirmation dialog is a boolean argument of `Vault.Delete`.
- JSON text is handled through the injected `Codec`, and its parse is typed as a list of records. In the browser, text such as `42`, `null` or `{}` parses to a value that is not a list, and text such as `[1]` or `[{}]` parses to a list whose elements are not records of strings. The page installs such a value as it is, and the next render throws. The model cannot hold such a value.
- Dates are millisecond timestamps. The model does not cover ISO text, its parsing, or an unparsable date that makes the sort comparator return NaN.
- Lower-casing covers ASCII letters only, not the full Unicode case mapping.
- React's scheduling of effects and memoised values is not modelled. Start-up is `Vault.Mount` (load, then persist). Each add or delete includes the persist step that its change triggers.
- The browser's own form validation is not modelled: the `required` attributes on the title and description inputs can block the submit event before the submit handler runs.
- Storage write failures are not modelled, such as the quota being exceeded by large data URLs.
- Ids come from the clock and are not checked for collisions. The uniqueness lemmas take a fresh id as a hypothesis.
- The search text and the selected category are page state set by the input and the filter buttons. Here they are parameters of `Query`.
- Whether the modal is shown at all (`isOpen`) is modelled only as the flag that `Page.SubmitToStore` returns.
