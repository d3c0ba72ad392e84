# Wikinime collection store, modelled in Dafny

Wikinime is a web client for browsing an anime catalogue. Users keep named
"collections" of animes, stored entirely in the browser. This project models
the part of the client that owns those collections:

- **The collection store** (`CollectionProvider`). It is a reducer over the
  ordered list of `Collection` records, with five actions: `GET_COLLECTIONS`,
  `CREATE_COLLECTION`, `DELETE_COLLECTION`, `UPDATE_COLLECTION` and
  `ADD_ANIMES_INTO_COLLECTIONS`, plus a default branch.
  - Every mutating branch writes the whole list to `localStorage` under
    `collections`.
  - `autoincrement` issues ids from a counter kept under `autoincrement`.
  - When the window regains focus, the store reloads from storage.
- **The components that call the store.** These are the collection list page,
  the collection detail page, the "collect animes" dialog, the anime list's
  selection, and the rename dialog. They enforce what the store does not:
  - names are unique up to letter case (the collection being renamed is
    excluded from the test);
  - typed names are filtered to word characters and white space;
  - "remove one anime" is sent as an UPDATE with a filtered list;
  - Save in the collect dialog decides whether CREATE, ADD or both are sent.

The model has two layers:

- `CollectionProvider.Reduce` is the reducer as a pure function. It works on a
  `Snapshot`: the in-memory list together with the storage map.
- `CollectionProvider.CollectionStore` is the store as an object with those two
  fields. Its `Dispatch` works step by step: a read-modify-write of the counter,
  and, through `AddInto`, a loop over a copied array for ADD. It is proved to
  agree with `Reduce`.

Each component is a class. Its fields are the component's own `useState`
variables, plus a reference to the shared store. Each handler that dispatches is a method whose
postcondition is stated with `Reduce`. The properties the source relies on are
proved as lemmas about `Reduce` and the component functions:

- ids stay distinct and fresh;
- issued ids strictly increase;
- DELETE and ADD are idempotent;
- UPDATE and ADD preserve length and position;
- ADD adds no repeated anime id, given id-keyed input and collections without repeats;
- storage equals state after every recognised action;
- the caller checks keep names unique.

Files and modules:

- `wrappers.dfy` (`Wrappers`): `Option`.
- `models.dfy` (`Models`): `Anime`, `Collection`, `findIndex`, `filter`, `Object.values`.
- `naming.dfy` (`Naming`): case-insensitive duplicate tests, the name filter, name-uniqueness lemmas.
- `collection_provider.dfy` (`CollectionProvider`): the reducer, the store class, the id generator.
- `collection_list.dfy` (`CollectionList`), `collection_detail.dfy` (`CollectionDetail`),
  `collect_anime_dialog.dfy` (`CollectAnimeDialog`), `anime_list.dfy` (`AnimeList`),
  `update_collection_dialog.dfy` (`UpdateCollectionDialog`): the components.

Six points of the code's behaviour that are easy to misread, and that the model follows:

- **ADD copies the argument collection.** For each argument collection found in
  the list, ADD writes that argument collection, with the missing animes
  appended, into the entry. It does not append to the entry as it stands in the
  state (src/components/collection-provider.tsx:55-58).
- **Storage is not repaired.** A missing key defaults to `[]` or `0`, but a
  corrupt value is not replaced by an empty list or zero. `JSON.parse` and
  `parseInt` are applied to it as they are. The model therefore requires the
  storage to hold values of the right kind (`WellTyped`).
- **No-op actions still write.** Every recognised mutating action writes the
  list, even when the list is unchanged (for example, DELETE of an absent id).
- **The reload action is `GET_COLLECTIONS`.** It reloads the list from storage
  and writes nothing.
- **A stale checked collection is written back.** The collect dialog keeps the
  collections as they were when their boxes were ticked, and ADD writes those
  copies back. If another tab renamed a checked collection and focus reloaded
  the list in between, Save undoes the rename and can leave two collections
  with the same name (`StaleCheckRevertsRename`).
- **A repeated input anime is appended twice.** ADD compares the input animes
  only with the collection's own animes, never with each other, so an anime
  given twice is appended twice (`RepeatedInputAppendedTwice`). The callers pass
  `Object.values` of an id-keyed selection, which never repeats an id.

## Model

| member | source | states |
|---|---|---|
| `Models.IndexOf` | src/components/collection-provider.tsx:52 | the first position holding the id, or -1 exactly when the id is absent |
| `Models.Without` | src/components/collection-provider.tsx:40 | keeps exactly the entries whose id differs, with their multiplicities; no kept entry has the id |
| `Models.WithoutConcat` | src/components/collection-provider.tsx:40 | the filter distributes over concatenation, so the original order is kept |
| `Models.WithoutAbsent` | src/components/collection-provider.tsx:40 | filtering an id no entry has returns an equal list |
| `Models.WithoutIdempotent` | src/components/collection-provider.tsx:40 | filtering the same id twice equals filtering once |
| `Models.AnimesWithout` | src/components/collection-list.tsx:73 | keeps exactly the animes whose id differs, with their multiplicities; none left has the id; `AnimesWithoutConcat` gives the order |
| `Models.AnimesWithoutConcat` | src/components/collection-list.tsx:73 | the filter distributes over concatenation, so the kept animes stay in their original order |
| `Models.AnimesWithoutAbsent` | src/components/collection-list.tsx:73 | removing an id no anime has changes nothing |
| `Models.AnimesWithoutDistinct` | src/components/collection-list.tsx:73 | removal keeps anime ids distinct |
| `Models.WithoutAnime` | src/components/collection-list.tsx:71-74 | the "remove anime" payload: same id, name and createdAt; no anime with the id; every other anime kept with its multiplicity, in order, as `AnimesWithout` of the old animes |
| `Models.ValuesOf` | src/components/collect-anime-dialog.tsx:17 | `Object.values`: every key of the dictionary exactly once with its value, in an unspecified order |
| `Models.EnumeratedAnimesDistinct` | src/components/anime-list.tsx:25-26 | the values of an id-keyed selection never repeat an anime id |
| `Models.EnumeratedCollectionsDistinct` | src/components/collect-anime-dialog.tsx:16-17 | the values of an id-keyed selection never repeat a collection id |
| `Naming.IsNameDuplicate` | src/components/collection-list.tsx:45-47 | true exactly when some collection's name equals the given name after lower-casing |
| `Naming.Lower` | src/components/collection-list.tsx:46-47 | `toLowerCase`, applied character by character |
| `Naming.IsRenameDuplicate` | src/components/collection-list.tsx:83-86 | true exactly when some collection with a different id has the name after lower-casing |
| `Naming.OwnNameAccepted` | src/components/collection-list.tsx:83-86 | with unique names, renaming a collection to its own name in any case is never rejected |
| `Naming.CreateKeepsNamesUnique` | src/components/collection-list.tsx:44-55 | a CREATE that passed the duplicate test keeps names unique |
| `Naming.RenameKeepsNamesUnique` | src/components/collection-list.tsx:83-91 | an UPDATE that passed the rename test keeps names unique when ids are distinct |
| `Naming.AddKeepsNames` | src/components/collect-anime-dialog.tsx:50-57 | an ADD whose targets are entries of the list keeps every name in place |
| `Naming.AddKeepsNamesUnique` | src/components/collect-anime-dialog.tsx:50-57 | such an ADD keeps names unique |
| `Naming.Sanitize` | src/components/update-collection-dialog.tsx:26 | the result holds only word characters and white space, and every such character of the input with its multiplicity |
| `Naming.IsNameChar` | src/components/update-collection-dialog.tsx:26 | the characters the filter keeps: the word class and the white-space class |
| `Naming.SanitizeConcat` | src/components/update-collection-dialog.tsx:26 | the filter keeps the surviving characters in order |
| `Naming.SanitizeKeepsClean` | src/components/collect-anime-dialog.tsx:107 | a name of allowed characters passes unchanged |
| `Naming.SanitizeIdempotent` | src/components/update-collection-dialog.tsx:26 | filtering twice equals filtering once |
| `CollectionProvider.Updated` | src/components/collection-provider.tsx:45 | same length; each entry with the argument's id becomes the argument, every other entry is untouched |
| `CollectionProvider.Missing` | src/components/collection-provider.tsx:57 | keeps exactly the input animes whose id is not already present, with their multiplicities; `MissingConcat` gives the order |
| `CollectionProvider.MissingConcat` | src/components/collection-provider.tsx:57 | the filter distributes over concatenation, so the appended animes keep the order of the input |
| `CollectionProvider.Merged` | src/components/collection-provider.tsx:55-58 | the argument collection with the animes it lacks appended after its own |
| `CollectionProvider.AddedOne` | src/components/collection-provider.tsx:52-58 | one turn of the `forEach`: the first entry with the target's id is overwritten with the merged target, otherwise nothing changes |
| `CollectionProvider.Load` | src/components/collection-provider.tsx:26 | the list stored under `collections`, or empty when the key is missing |
| `CollectionProvider.LastIssued` | src/components/collection-provider.tsx:99 | the counter stored under `autoincrement`, or 0 when the key is missing |
| `CollectionProvider.AddedInto` | src/components/collection-provider.tsx:49-60 | the ADD loop keeps length and every id in its place |
| `CollectionProvider.Reduce` | src/components/collection-provider.tsx:23-67 | after every recognised action the `collections` key holds exactly the returned list; GET and unknown actions write nothing |
| `CollectionProvider.AddInto` | src/components/collection-provider.tsx:50-59 | the in-place loop over a copy of the list yields exactly `AddedInto`, with the same length and every id in its place |
| `CollectionProvider.FindIndex` | src/components/collection-provider.tsx:52 | the loop returns the first index with the id, or -1 |
| `CollectionProvider.LastWithId` | src/components/collection-provider.tsx:51-59 | an argument collection with the id such that no later argument has the id (the one whose overwrite survives), or none exactly when no argument has it |
| `CollectionProvider.CreatePrepends` | src/components/collection-provider.tsx:28-37 | CREATE gives the new collection (id = counter + 1, the title, the animes, the time) followed by the old list unchanged, and stores both counter and list |
| `CollectionProvider.WithoutKeepsIds` | src/components/collection-provider.tsx:40 | DELETE keeps ids distinct and bounded |
| `CollectionProvider.ReducePreservesIdsFresh` | src/components/collection-provider.tsx:28-63 | every branch keeps ids distinct and at most the counter, in memory and in storage |
| `CollectionProvider.CounterStep` | src/components/collection-provider.tsx:98-102 | CREATE advances the counter by one; no other action touches it |
| `CollectionProvider.RunPreservesIdsFresh` | src/components/collection-provider.tsx:23-67 | over any sequence of dispatches ids stay distinct and at most the counter |
| `CollectionProvider.IssuedIdsIncrease` | src/components/collection-provider.tsx:98-102 | over any sequence of dispatches the issued ids strictly increase and lie above the starting counter, so none is reused after deletion (for counters below 2^53, see Left out) |
| `CollectionProvider.DeleteAbsent` | src/components/collection-provider.tsx:39-42 | DELETE of an absent id leaves the list equal |
| `CollectionProvider.DeleteTwice` | src/components/collection-provider.tsx:39-42 | a second identical DELETE changes neither list nor storage |
| `CollectionProvider.UpdateKeepsIds` | src/components/collection-provider.tsx:44-47 | UPDATE keeps every id in its position |
| `CollectionProvider.AddedIntoAt` | src/components/collection-provider.tsx:49-63 | entry i after ADD is the last argument with its id plus the missing animes, if i is the first entry with that id; otherwise it is untouched, and arguments with absent ids are skipped |
| `CollectionProvider.AddedIntoDistinct` | src/components/collection-provider.tsx:49-63 | with distinct ids, each entry becomes the argument with its id plus the missing animes, or stays as it was |
| `CollectionProvider.AddedIntoTwice` | src/components/collection-provider.tsx:51-59 | the ADD loop applied twice equals applying it once |
| `CollectionProvider.AddTwice` | src/components/collection-provider.tsx:49-62 | the ADD dispatch is idempotent in memory and in storage |
| `CollectionProvider.AddedIntoSelection` | src/components/collect-anime-dialog.tsx:17 | whatever order `Object.values` gives an id-keyed selection, the ADD equals its order-free description |
| `CollectionProvider.AddKeepsAnimesDistinct` | src/components/collection-provider.tsx:54-57 | given input animes with distinct ids (what every id-keyed selection supplies) and collections already free of repeated ids, ADD puts no anime id twice in a collection; a repeated input anime is appended twice (`RepeatedInputAppendedTwice`) |
| `CollectionProvider.RepeatedInputAppendedTwice` | src/components/collection-provider.tsx:54-57 | an input anime missing from the collection and given twice is appended twice, because the input is never compared with itself |
| `CollectionProvider.MissingDistinct` | src/components/collection-provider.tsx:57 | the filter keeps anime ids distinct |
| `CollectionProvider.MergedDistinct` | src/components/collection-provider.tsx:54-58 | appending the missing animes keeps anime ids distinct |
| `CollectionProvider.MergedNothingNew` | src/components/collection-provider.tsx:54-58 | adding animes that are all present leaves the collection unchanged |
| `CollectionProvider.AddKeepsSingleCopy` | src/components/collection-provider.tsx:49-62 | a collection holding A1, given [A1, A2], ends with [A1, A2] |
| `CollectionProvider.LoadAfterDispatch` | src/components/collection-provider.tsx:25-27 | after any recognised action, GET_COLLECTIONS returns an equal list and storage |
| `CollectionProvider.UnrecognisedUnchanged` | src/components/collection-provider.tsx:64-65 | an unknown action returns the state unchanged and writes nothing |
| `CollectionProvider.CollectionStore.constructor` | src/components/collection-provider.tsx:5-6 | the initial state is the stored list, or empty when the key is missing |
| `CollectionProvider.CollectionStore.Autoincrement` | src/components/collection-provider.tsx:98-102 | returns the stored counter plus one (missing counts as 0) and stores it |
| `CollectionProvider.CollectionStore.Dispatch` | src/components/collection-provider.tsx:23-67 | the new list and storage are exactly `Reduce` of the old ones |
| `CollectionProvider.CollectionStore.OnFocus` | src/components/collection-provider.tsx:85-88 | on focus the state becomes whatever storage holds |
| `CollectionProvider.CollectionStore.ExternalWrite` | src/components/collection-provider.tsx:84-88 | another tab's write replaces storage and leaves the in-memory list as it was, until `OnFocus` reloads it |
| `CollectionList.CollectionListView.constructor` | src/components/collection-list.tsx:34 | no dialog is open at first |
| `CollectionList.CollectionListView.SetDialogEvent` | src/components/collection-list.tsx:103-115 | the buttons set the dialog state |
| `CollectionList.CollectionListView.HandleCreateNewCollection` | src/components/collection-list.tsx:43-57 | an empty or duplicate name changes nothing; otherwise exactly CREATE{name, []} and the dialog closes; names stay unique |
| `CollectionList.CollectionListView.HandleDeleteCollection` | src/components/collection-list.tsx:59-65 | DELETE of the dialog collection's id only in the delete dialog, which then closes |
| `CollectionList.CollectionListView.HandleRemoveAnime` | src/components/collection-list.tsx:67-79 | UPDATE of the dialog's collection without that anime, only in the remove dialog |
| `CollectionList.CollectionListView.HandleUpdateCollection` | src/components/collection-list.tsx:81-96 | in the edit dialog, UPDATE unless the rename test fails, and the dialog closes either way; names stay unique |
| `CollectionList.RemoveAnimeKeepsNamesUnique` | src/components/collection-list.tsx:67-75 | removing an anime from an entry keeps names unique |
| `CollectionList.RemoveAnimeTouchesOneEntry` | src/components/collection-list.tsx:67-75 | removal changes only that entry's animes, dropping the chosen id, and keeps its other fields and every other entry |
| `CollectionDetail.Find` | src/components/collection-detail.tsx:37-43 | the first entry with the id, or none exactly when the id is absent |
| `CollectionDetail.Title` | src/components/collection-detail.tsx:44 | the found collection's name, the separator and "Wikinime" when the name is non-empty, otherwise "Wikinime" alone |
| `CollectionDetail.DeleteLeavesNothingToShow` | src/components/collection-detail.tsx:47-53 | after the delete nothing is found under the id |
| `CollectionDetail.RenameIsShown` | src/components/collection-detail.tsx:69-81 | after a rename the page shows the edited collection |
| `CollectionDetail.CollectionDetailView.constructor` | src/components/collection-detail.tsx:45 | no dialog is open at first |
| `CollectionDetail.CollectionDetailView.Shown` | src/components/collection-detail.tsx:37-43 | the memoised lookup: `Find` on the store's current list, recomputed whenever the list changes |
| `CollectionDetail.CollectionDetailView.SetDialogEvent` | src/components/collection-detail.tsx:97-113 | the buttons set the dialog state |
| `CollectionDetail.CollectionDetailView.HandleDeleteCollection` | src/components/collection-detail.tsx:47-53 | DELETE of the found collection's id only when the dialog is delete and a collection was found |
| `CollectionDetail.CollectionDetailView.HandleRemoveAnime` | src/components/collection-detail.tsx:55-67 | UPDATE of the found collection without that anime, other fields unchanged |
| `CollectionDetail.CollectionDetailView.HandleUpdateCollection` | src/components/collection-detail.tsx:69-85 | UPDATE unless the rename test fails; the dialog is closed after any rename attempt |
| `CollectAnimeDialog.Submitted` | src/components/collect-anime-dialog.tsx:33-63 | the effect of Save keeps storage well-formed |
| `CollectAnimeDialog.CreatesCollection` | src/components/collect-anime-dialog.tsx:36-46 | CREATE is sent exactly when the name is non-empty and no existing name matches it after lower-casing |
| `CollectAnimeDialog.DuplicateNameStillAdds` | src/components/collect-anime-dialog.tsx:41-57 | a duplicate name suppresses CREATE but not the ADD of the checked collections |
| `CollectAnimeDialog.NothingToSave` | src/components/collect-anime-dialog.tsx:116 | with nothing checked and no name, Save changes nothing |
| `CollectAnimeDialog.SelectionKeepsNames` | src/components/collect-anime-dialog.tsx:50-57 | adding into checked entries keeps every name in place |
| `CollectAnimeDialog.SubmitKeepsNamesUnique` | src/components/collect-anime-dialog.tsx:33-63 | Save keeps collection names unique when the checked collections are current entries of the list and ids are fresh |
| `CollectAnimeDialog.StaleCheckRevertsRename` | src/components/collect-anime-dialog.tsx:50-57 | a checked collection that is no longer a current entry is written back as it was ticked: a concrete list with unique names ends with two entries named "Foo" and collection 1 renamed back |
| `CollectAnimeDialog.CollectAnimeDialogView.constructor` | src/components/collect-anime-dialog.tsx:16-18 | nothing checked and no name at first |
| `CollectAnimeDialog.CollectAnimeDialogView.HandleSelectChange` | src/components/collect-anime-dialog.tsx:21-31 | checking stores the collection under its id; unchecking deletes only that key |
| `CollectAnimeDialog.CollectAnimeDialogView.IsChecked` | src/components/collect-anime-dialog.tsx:84 | a collection's box is ticked exactly when its id is a key of the selection |
| `CollectAnimeDialog.CollectAnimeDialogView.ToggleNewCollection` | src/components/collect-anime-dialog.tsx:95-102 | checking with no name gives 'New Collection'; unchecking with a name clears it; otherwise unchanged |
| `CollectAnimeDialog.CollectAnimeDialogView.NewCollectionChecked` | src/components/collect-anime-dialog.tsx:94 | the new-collection box is ticked exactly when a name is present |
| `CollectAnimeDialog.CollectAnimeDialogView.HandleNameInput` | src/components/collect-anime-dialog.tsx:107 | the name keeps only word characters and white space |
| `CollectAnimeDialog.CollectAnimeDialogView.SaveDisabled` | src/components/collect-anime-dialog.tsx:116 | Save is disabled exactly when nothing is checked and no name is given |
| `CollectAnimeDialog.CollectAnimeDialogView.HandleSubmit` | src/components/collect-anime-dialog.tsx:33-63 | CREATE{name, animes} when the name is usable, then ADD when something is checked; `saved` exactly when something was dispatched; a disabled Save saves nothing |
| `AnimeList.AnimeListView.constructor` | src/components/anime-list.tsx:25 | the selection starts empty and no collect dialog is mounted |
| `AnimeList.AnimeListView.IsSelected` | src/components/anime-list.tsx:51 | a card shows as selected exactly when its anime's id is a key of the selection |
| `AnimeList.AnimeListView.ShowsCollectDialog` | src/components/anime-list.tsx:57 | the collect dialog is present exactly when the selection is non-empty |
| `AnimeList.AnimeListView.Render` | src/components/anime-list.tsx:57 | the dialog is mounted with empty state when the selection becomes non-empty, keeps its checked collections and name while mounted, always receives exactly the selected animes, and is unmounted when the selection becomes empty |
| `AnimeList.AnimeListView.HandleSelect` | src/components/anime-list.tsx:28-30 | maps the anime's id to it, overwriting that key only; the card shows as selected; the collect dialog is mounted, or keeps its state, and receives the new selection |
| `AnimeList.AnimeListView.HandleUnselect` | src/components/anime-list.tsx:32-38 | removes only that anime's id key; a dialog still mounted keeps its state and receives the new selection |
| `AnimeList.AnimeListView.HandleUnselectAll` | src/components/anime-list.tsx:40-42 | the selection becomes empty and the collect dialog is unmounted |
| `AnimeList.AnimeListView.SelectedAnimes` | src/components/anime-list.tsx:26 | every selected anime exactly once, with distinct ids (`ListsSelection`) |
| `AnimeList.AnimeListView.Save` | src/components/anime-list.tsx:57 | the store becomes `Submitted` with exactly the currently selected animes; a Save that dispatched something clears the selection and unmounts the dialog; otherwise both stay |
| `UpdateCollectionDialog.UpdateCollectionDialogView.constructor` | src/components/update-collection-dialog.tsx:14 | the edited name starts as the collection's name |
| `UpdateCollectionDialog.UpdateCollectionDialogView.ReceiveCollection` | src/components/collection-detail.tsx:136-141 | a new `collection` prop replaces the old one and keeps the name being edited |
| `UpdateCollectionDialog.UpdateCollectionDialogView.HandleNameInput` | src/components/update-collection-dialog.tsx:26 | typed input keeps only word characters and white space |
| `UpdateCollectionDialog.UpdateCollectionDialogView.SaveDisabled` | src/components/update-collection-dialog.tsx:38 | Save is disabled exactly when the edited name is empty |
| `UpdateCollectionDialog.UpdateCollectionDialogView.Save` | src/components/update-collection-dialog.tsx:33-38 | disabled iff the name is empty; otherwise the payload is the collection with only its name replaced, and the field is cleared |
| `UpdateCollectionDialog.SameNameSaveAccepted` | src/components/update-collection-dialog.tsx:35 | saving an entry under its own name in any case passes the rename test |

## Left out

- JSON encoding and decoding: storage holds the decoded list or counter (`Value`).
- Corrupt storage: the source does not recover from it, and the model requires well-formed storage (`WellTyped`).
- `Date.now()` is a parameter `now`. Only CREATE reads it; the other dispatches pass 0 or the Save's time, which `Reduce` ignores outside CREATE.
- Cross-tab races on the counter and the list are not modelled; the model is single-threaded. `CollectionStore.ExternalWrite` stands for a finished write by another tab, so that `OnFocus` has something to reload.
- React plumbing is not modelled: the context, `useReducer` wiring, `useMemo`, and registering and removing the focus listener. Only "focus dispatches GET_COLLECTIONS" is kept.
- Toast notifications, rendering, animation, routing and the GraphQL catalogue are I/O and are not modelled. This includes the "Collection not found" toast of the detail page.
- `src/components/create-collection-dialog.tsx` is not part of this model. `HandleCreateNewCollection` takes the name that dialog passes.
- The engine's enumeration order of `Object.values` is left open (`ValuesOf`). For id-keyed selections, `AddedIntoSelection` shows that the order does not matter.
- The collect dialog's selection starts as `[]` in the source. It is modelled as the empty map, which `Object.values` treats the same way.
- The pages do not hold the rename dialog as an object: `HandleUpdateCollection` takes the dialog's payload as a parameter. The prop refresh a focus reload causes while the dialog is open is `UpdateCollectionDialogView.ReceiveCollection`, but nothing ties the page's current lookup to the dialog's `collection`.
- `Anime` fields other than `id` play no part; `meanScore` is held as an integer.
- `Naming.IsNameDuplicate`: `toLowerCase` is modelled as ASCII case folding, not full Unicode case mapping.
- `Naming.IsRenameDuplicate`: same ASCII case folding.
- `Naming.Lower`: `toLowerCase` is ASCII case folding here; letters outside ASCII are left as they are.
- `CollectionProvider.CollectionStore.Autoincrement`: ids and the `autoincrement` counter are JavaScript numbers. The unbounded integers of the model match them only while the counter stays below 2^53. Past that, `+ 1` loses precision and repeats an id. From 1e21 on, `${next}` stores exponent notation, which `parseInt` reads back as a small number. Neither effect is modelled.
- `CollectionProvider.IssuedIdsIncrease`: holds for unbounded counters, so in the source only while the counter stays below 2^53 (see the line above). The same bound applies to `CreatePrepends`, `CounterStep`, `ReducePreservesIdsFresh` and `RunPreservesIdsFresh`. CREATE alone cannot bring an empty store's counter near it.
- `Naming.Sanitize`: `\w` is the ASCII word class, as without the `u` flag. `\s` is the ECMAScript white-space and line-terminator set, as listed in `IsSpaceChar`.
- `UpdateCollectionDialog.UpdateCollectionDialogView.Save`: a click on a disabled button is modelled as returning nothing. The optional `onSave` is always supplied by both callers, so the payload is returned rather than passed to a callback.
