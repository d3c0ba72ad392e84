/**
 * The page of one collection: the lookup of the collection by the id in the
 * route, the page title, its dialog state machine and the handlers that
 * dispatch to the collection store.  Toast notifications and rendering are not
 * modelled.
 */
module CollectionDetail {
  import opened Wrappers
  import opened Models
  import opened Naming
  import P = CollectionProvider

  /** Which dialog is open; the collection is always the one on the page. */
  datatype DialogEvent =
    | NoDialog
    | DeleteCollection
    | UpdateCollection
    | RemoveAnimeFromCollection(anime: Anime)

  /** `collections.find((collection) => collection.id === collectionId)`: the first entry with that id. */
  function Find(collections: seq<Collection>, collectionId: int): (r: Option<Collection>)
    ensures r.None? <==> collectionId !in CollectionIds(collections)
    ensures r.Some? ==> r.value == collections[IndexOf(CollectionIds(collections), collectionId)]
  {
    if collections == [] then None
    else
      assert CollectionIds(collections) == [collections[0].id] + CollectionIds(collections[1..]);
      if collections[0].id == collectionId then Some(collections[0])
      else Find(collections[1..], collectionId)
  }

  const SiteName: string := "Wikinime"

  /** The document title: the collection's name and the site name, or the site name alone. */
  function Title(collection: Option<Collection>): (r: string)
    ensures |r| >= |SiteName| && r[|r| - |SiteName|..] == SiteName
    ensures collection.Some? && collection.value.name != "" ==>
      |r| == |collection.value.name| + 3 + |SiteName| &&
      r[..|collection.value.name|] == collection.value.name && r[|collection.value.name|..] == " | " + SiteName
    ensures collection.None? || collection.value.name == "" ==> r == SiteName
  {
    if collection.Some? && collection.value.name != "" then collection.value.name + " | " + SiteName else SiteName
  }

  /** After deleting the shown collection the page finds nothing under its id. */
  lemma DeleteLeavesNothingToShow(s: seq<Collection>, collectionId: int)
    ensures Find(Without(s, collectionId), collectionId).None?
  {
  }

  /** After a successful rename the page shows the edited collection, since ids are distinct. */
  lemma RenameIsShown(s: seq<Collection>, edited: Collection)
    requires DistinctIds(s) && edited.id in CollectionIds(s)
    ensures Find(P.Updated(s, edited), edited.id) == Some(edited)
  {
    var r := P.Updated(s, edited);
    P.UpdateKeepsIds(s, edited);
    var k := IndexOf(CollectionIds(r), edited.id);
    assert CollectionIds(r)[k] == r[k].id;
  }

  class CollectionDetailView {
    const store: P.CollectionStore
    const collectionId: int
    var dialogEvent: DialogEvent

    ghost predicate Valid()
      reads this, store
    {
      store.Valid()
    }

    constructor (store: P.CollectionStore, collectionId: int)
      requires store.Valid()
      ensures Valid() && this.store == store && this.collectionId == collectionId && dialogEvent == NoDialog
    {
      this.store := store;
      this.collectionId := collectionId;
      dialogEvent := NoDialog;
    }

    /** The memoised lookup, recomputed from the store's current list. */
    function Shown(): Option<Collection>
      reads this, store
    {
      Find(store.state, collectionId)
    }

    /** The buttons and the cancel actions: `setDialogEvent(event)`. */
    method SetDialogEvent(event: DialogEvent)
      modifies this`dialogEvent
      ensures dialogEvent == event
    {
      dialogEvent := event;
    }

    /** Confirming the delete dialog deletes the shown collection; without one, or in another dialog, nothing happens. */
    method HandleDeleteCollection()
      requires Valid()
      modifies this, store
      ensures Valid()
      ensures old(dialogEvent).DeleteCollection? && old(Shown()).Some? ==>
        && store.Snap() == P.Reduce(old(store.Snap()), P.DeleteCollection(old(Shown()).value.id), 0)
        && dialogEvent == NoDialog
        && Shown().None?
      ensures !(old(dialogEvent).DeleteCollection? && old(Shown()).Some?) ==>
        store.Snap() == old(store.Snap()) && dialogEvent == old(dialogEvent)
    {
      var collection := Find(store.state, collectionId);
      if dialogEvent.DeleteCollection? && collection.Some? {
        ghost var before := store.state;
        store.Dispatch(P.DeleteCollection(collection.value.id), 0);
        DeleteLeavesNothingToShow(before, collectionId);
        dialogEvent := NoDialog;
      }
    }

    /** Confirming the remove dialog dispatches UPDATE of the shown collection minus every anime of the chosen id. */
    method HandleRemoveAnime()
      requires Valid()
      modifies this, store
      ensures Valid()
      ensures old(dialogEvent).RemoveAnimeFromCollection? && old(Shown()).Some? ==>
        && store.Snap() == P.Reduce(old(store.Snap()), P.UpdateCollection(WithoutAnime(old(Shown()).value, old(dialogEvent).anime.id)), 0)
        && dialogEvent == NoDialog
      ensures !(old(dialogEvent).RemoveAnimeFromCollection? && old(Shown()).Some?) ==>
        store.Snap() == old(store.Snap()) && dialogEvent == old(dialogEvent)
    {
      var collection := Find(store.state, collectionId);
      if dialogEvent.RemoveAnimeFromCollection? && collection.Some? {
        var edited := WithoutAnime(collection.value, dialogEvent.anime.id);
        store.Dispatch(P.UpdateCollection(edited), 0);
        dialogEvent := NoDialog;
      }
    }

    /**
     * Saving the edit dialog: rejected when the name collides, up to case,
     * with another collection than the edited one, otherwise UPDATE; the
     * dialog is closed either way.
     */
    method HandleUpdateCollection(editedCollection: Collection)
      requires Valid()
      modifies this, store
      ensures Valid()
      ensures old(dialogEvent).UpdateCollection? ==> dialogEvent == NoDialog
      ensures old(dialogEvent).UpdateCollection? && !IsRenameDuplicate(old(store.state), editedCollection) ==>
        store.Snap() == P.Reduce(old(store.Snap()), P.UpdateCollection(editedCollection), 0)
      ensures !old(dialogEvent).UpdateCollection? || IsRenameDuplicate(old(store.state), editedCollection) ==>
        store.Snap() == old(store.Snap())
      ensures !old(dialogEvent).UpdateCollection? ==> dialogEvent == old(dialogEvent)
      ensures old(DistinctIds(store.state) && NamesUnique(store.state)) ==> NamesUnique(store.state)
    {
      if dialogEvent.UpdateCollection? {
        var isNameDuplicate := IsRenameDuplicate(store.state, editedCollection);
        if !isNameDuplicate {
          ghost var before := store.state;
          store.Dispatch(P.UpdateCollection(editedCollection), 0);
          if DistinctIds(before) && NamesUnique(before) {
            RenameKeepsNamesUnique(before, editedCollection);
          }
        }
        dialogEvent := NoDialog;
      }
    }
  }
}
