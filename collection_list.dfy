/**
 * The "My Collections" page: its dialog state machine and the handlers that
 * validate a request and then dispatch to the collection store.  Toast
 * notifications and rendering are not modelled.
 */
module CollectionList {
  import opened Models
  import opened Naming
  import P = CollectionProvider

  /** Which dialog is open, and on what. */
  datatype DialogEvent =
    | NoDialog
    | NewCollection
    | DeleteCollection(collection: Collection)
    | UpdateCollection(collection: Collection)
    | RemoveAnimeFromCollection(anime: Anime, collection: Collection)

  class CollectionListView {
    const store: P.CollectionStore
    var dialogEvent: DialogEvent

    ghost predicate Valid()
      reads this, store
    {
      store.Valid()
    }

    constructor (store: P.CollectionStore)
      requires store.Valid()
      ensures Valid() && this.store == store && dialogEvent == NoDialog
    {
      this.store := store;
      dialogEvent := NoDialog;
    }

    /** The buttons and the cancel actions: `setDialogEvent(event)`. */
    method SetDialogEvent(event: DialogEvent)
      modifies this`dialogEvent
      ensures dialogEvent == event
    {
      dialogEvent := event;
    }

    /**
     * Create a collection: an empty name does nothing; a name equal, up to
     * case, to an existing one is rejected and the dialog stays open;
     * otherwise CREATE with no animes is dispatched and the dialog closes.
     */
    method HandleCreateNewCollection(newCollectionName: string, now: int)
      requires Valid()
      modifies this, store
      ensures Valid()
      ensures newCollectionName == "" || IsNameDuplicate(old(store.state), newCollectionName) ==>
        store.Snap() == old(store.Snap()) && dialogEvent == old(dialogEvent)
      ensures newCollectionName != "" && !IsNameDuplicate(old(store.state), newCollectionName) ==>
        && store.Snap() == P.Reduce(old(store.Snap()), P.CreateCollection(newCollectionName, []), now)
        && dialogEvent == NoDialog
      ensures old(NamesUnique(store.state)) ==> NamesUnique(store.state)
    {
      if newCollectionName != "" {
        var isNameDuplicate := IsNameDuplicate(store.state, newCollectionName);
        if !isNameDuplicate {
          ghost var before := store.Snap();
          store.Dispatch(P.CreateCollection(newCollectionName, []), now);
          if NamesUnique(before.state) {
            CreateKeepsNamesUnique(before, newCollectionName, [], now);
          }
          dialogEvent := NoDialog;
        }
      }
    }

    /** Confirming the delete dialog dispatches DELETE of its collection's id; in any other dialog nothing happens. */
    method HandleDeleteCollection()
      requires Valid()
      modifies this, store
      ensures Valid()
      ensures old(dialogEvent).DeleteCollection? ==>
        && store.Snap() == P.Reduce(old(store.Snap()), P.DeleteCollection(old(dialogEvent).collection.id), 0)
        && dialogEvent == NoDialog
      ensures !old(dialogEvent).DeleteCollection? ==> store.Snap() == old(store.Snap()) && dialogEvent == old(dialogEvent)
    {
      if dialogEvent.DeleteCollection? {
        store.Dispatch(P.DeleteCollection(dialogEvent.collection.id), 0);
        dialogEvent := NoDialog;
      }
    }

    /**
     * Confirming the remove dialog dispatches UPDATE of the dialog's collection
     * with every anime of the chosen id filtered out.
     */
    method HandleRemoveAnime()
      requires Valid()
      modifies this, store
      ensures Valid()
      ensures old(dialogEvent).RemoveAnimeFromCollection? ==>
        var event := old(dialogEvent);
        && store.Snap() == P.Reduce(old(store.Snap()), P.UpdateCollection(WithoutAnime(event.collection, event.anime.id)), 0)
        && dialogEvent == NoDialog
      ensures !old(dialogEvent).RemoveAnimeFromCollection? ==> store.Snap() == old(store.Snap()) && dialogEvent == old(dialogEvent)
    {
      if dialogEvent.RemoveAnimeFromCollection? {
        var collection := WithoutAnime(dialogEvent.collection, dialogEvent.anime.id);
        store.Dispatch(P.UpdateCollection(collection), 0);
        dialogEvent := NoDialog;
      }
    }

    /**
     * Saving the edit dialog: a name that collides, up to case, with another
     * collection (the edited one excluded) is rejected, otherwise UPDATE is
     * dispatched; either way the dialog closes.  Outside the edit dialog
     * nothing happens.
     */
    method HandleUpdateCollection(editedCollection: Collection)
      requires Valid()
      modifies this, store
      ensures Valid()
      ensures old(dialogEvent).UpdateCollection? ==> dialogEvent == NoDialog
      ensures old(dialogEvent).UpdateCollection? && !IsRenameDuplicate(old(store.state), editedCollection) ==>
        store.Snap() == P.Reduce(old(store.Snap()), P.UpdateCollection(editedCollection), 0)
      ensures !old(dialogEvent).UpdateCollection? || IsRenameDuplicate(old(store.state), editedCollection) ==>
        store.Snap() == old(store.Snap())
      ensures !old(dialogEvent).UpdateCollection? ==> dialogEvent == old(dialogEvent)
      ensures old(DistinctIds(store.state) && NamesUnique(store.state)) ==> NamesUnique(store.state)
    {
      if dialogEvent.UpdateCollection? {
        var isNameDuplicate := IsRenameDuplicate(store.state, editedCollection);
        if !isNameDuplicate {
          ghost var before := store.state;
          store.Dispatch(P.UpdateCollection(editedCollection), 0);
          if DistinctIds(before) && NamesUnique(before) {
            RenameKeepsNamesUnique(before, editedCollection);
          }
        }
        dialogEvent := NoDialog;
      }
    }
  }

  /**
   * Removing an anime from a collection that is an entry of the list keeps
   * names unique: the UPDATE carries the entry's own name, which the rename
   * test always accepts.
   */
  lemma RemoveAnimeKeepsNamesUnique(s: seq<Collection>, k: int, animeId: int)
    requires DistinctIds(s) && NamesUnique(s) && 0 <= k < |s|
    ensures NamesUnique(P.Updated(s, WithoutAnime(s[k], animeId)))
  {
    var edited := WithoutAnime(s[k], animeId);
    OwnNameAccepted(s, k, edited);
    RenameKeepsNamesUnique(s, edited);
  }

  /**
   * The removal reaches only the entry it was opened on: that entry loses
   * every anime of the chosen id and keeps its other fields; all other
   * entries and the length are untouched.
   */
  lemma RemoveAnimeTouchesOneEntry(s: seq<Collection>, k: int, animeId: int)
    requires DistinctIds(s) && 0 <= k < |s|
    ensures var r := P.Updated(s, WithoutAnime(s[k], animeId));
      && |r| == |s|
      && r[k].id == s[k].id && r[k].name == s[k].name && r[k].createdAt == s[k].createdAt
      && (forall j :: 0 <= j < |r[k].animes| ==> r[k].animes[j].id != animeId)
      && (forall i :: 0 <= i < |s| && i != k ==> r[i] == s[i])
  {
  }
}
