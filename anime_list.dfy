/**
 * The catalogue page's selection of animes: a dictionary keyed by anime id,
 * the per-card "selected" flag, and the collect dialog, mounted while the
 * selection is non-empty and handed the selection's values on every change;
 * a successful Save clears the selection, which unmounts the dialog.
 * Rendering and animation are not modelled.
 */
module AnimeList {
  import opened Models
  import P = CollectionProvider
  import D = CollectAnimeDialog

  /** `animes` is `Object.values(selected)` in some order: every selected anime exactly once. */
  predicate ListsSelection(animes: seq<Anime>, selected: map<int, Anime>) {
    && |animes| == |selected|
    && DistinctAnimeIds(animes)
    && (forall i :: 0 <= i < |animes| ==> animes[i].id in selected && selected[animes[i].id] == animes[i])
    && (forall k :: k in selected ==> selected[k] in animes)
  }

  class AnimeListView {
    const store: P.CollectionStore
    var selected: map<int, Anime>
    /** The collect dialog, present exactly while something is selected. */
    var dialog: D.CollectAnimeDialogView?

    ghost predicate Valid()
      reads this, store, dialog
    {
      && AnimesKeyedById(selected)
      && store.Valid()
      && (dialog == null <==> |selected| == 0)
      && (dialog != null ==> dialog.store == store && dialog.Valid() && ListsSelection(dialog.animes, selected))
    }

    constructor (store: P.CollectionStore)
      requires store.Valid()
      ensures Valid() && this.store == store
      ensures selected == map[] && dialog == null
    {
      this.store := store;
      selected := map[];
      dialog := null;
    }

    /** A card shows as selected exactly when its anime's id is a key of the selection. */
    function IsSelected(anime: Anime): bool
      reads this
    {
      anime.id in selected
    }

    /** The collect dialog is present exactly when something is selected. */
    function ShowsCollectDialog(): bool
      reads this
    {
      |selected| > 0
    }

    /** `Object.values(selectedAnimesObj)`: every selected anime once, in an order the engine chooses. */
    method SelectedAnimes() returns (animes: seq<Anime>)
      requires AnimesKeyedById(selected)
      ensures ListsSelection(animes, selected)
    {
      var keys;
      keys, animes := ValuesOf(selected);
      EnumeratedAnimesDistinct(keys, animes, selected);
      forall i | 0 <= i < |animes|
        ensures animes[i].id == keys[i]
      {
        assert selected[keys[i]].id == keys[i];
      }
    }

    /**
     * Re-render after the selection changed: mount the dialog, with empty
     * state, when the selection became non-empty; hand a mounted dialog the
     * new values, keeping its checked collections and name; unmount it when
     * the selection became empty.
     */
    method Render()
      requires AnimesKeyedById(selected) && store.Valid()
      requires dialog != null ==> dialog.store == store && dialog.Valid()
      modifies this`dialog, dialog
      ensures Valid() && selected == old(selected)
      ensures old(dialog) == null && |selected| > 0 ==> fresh(dialog) && dialog.selected == map[] && dialog.newCollectionName == ""
      ensures old(dialog) != null && |selected| > 0 ==>
        && dialog == old(dialog)
        && dialog.selected == old(dialog.selected) && dialog.newCollectionName == old(dialog.newCollectionName)
    {
      if |selected| == 0 {
        dialog := null;
        return;
      }
      var animes := SelectedAnimes();
      if dialog == null {
        dialog := new D.CollectAnimeDialogView(store, animes);
      } else {
        dialog.animes := animes;
      }
    }

    /** `{ ...selectedAnimesObj, [anime.id]: anime }`: overwrite that id's entry, keep the others. */
    method HandleSelect(anime: Anime)
      requires Valid()
      modifies this`selected, this`dialog, dialog
      ensures Valid()
      ensures selected == old(selected)[anime.id := anime]
      ensures IsSelected(anime) && ShowsCollectDialog()
      ensures old(dialog) == null ==> fresh(dialog) && dialog.selected == map[] && dialog.newCollectionName == ""
      ensures old(dialog) != null ==>
        && dialog == old(dialog)
        && dialog.selected == old(dialog.selected) && dialog.newCollectionName == old(dialog.newCollectionName)
    {
      selected := selected[anime.id := anime];
      Render();
    }

    /** Copy the dictionary and delete that anime's id. */
    method HandleUnselect(anime: Anime)
      requires Valid()
      modifies this`selected, this`dialog, dialog
      ensures Valid()
      ensures selected == old(selected) - {anime.id}
      ensures !IsSelected(anime)
      ensures |selected| > 0 ==>
        && dialog == old(dialog)
        && dialog.selected == old(dialog.selected) && dialog.newCollectionName == old(dialog.newCollectionName)
    {
      var newSelected := selected;
      newSelected := newSelected - {anime.id};
      selected := newSelected;
      Render();
    }

    /** Clear the selection: the callback run after a successful Save; the dialog unmounts. */
    method HandleUnselectAll()
      requires store.Valid()
      modifies this`selected, this`dialog
      ensures Valid()
      ensures selected == map[] && !ShowsCollectDialog() && dialog == null
    {
      selected := map[];
      dialog := null;
    }

    /**
     * Save in the mounted collect dialog: the store receives the selection's
     * animes; when something was dispatched, `onSaved` clears the selection.
     */
    method Save(now: int) returns (saved: bool)
      requires Valid() && dialog != null
      modifies this`selected, this`dialog, store
      ensures Valid()
      ensures ListsSelection(old(dialog.animes), old(selected))
      ensures store.Snap() == D.Submitted(old(store.Snap()), old(dialog.animes), old(dialog.selected), old(dialog.newCollectionName), now)
      ensures saved <==> D.CreatesCollection(old(store.state), old(dialog.newCollectionName)) || |old(dialog.selected)| > 0
      ensures saved ==> selected == map[] && dialog == null
      ensures !saved ==> selected == old(selected) && dialog == old(dialog)
    {
      saved := dialog.HandleSubmit(now);
      if saved {
        HandleUnselectAll();
      }
    }
  }
}
