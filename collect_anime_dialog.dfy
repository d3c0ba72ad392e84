/**
 * The dialog that saves the selected animes: the checked collections, kept as
 * a dictionary keyed by collection id, the optional name of a new collection,
 * and Save, which may dispatch CREATE and then ADD_ANIMES_INTO_COLLECTIONS.
 * Toast notifications and rendering are not modelled.
 */
module CollectAnimeDialog {
  import opened Models
  import opened Naming
  import P = CollectionProvider

  const DefaultNewName: string := "New Collection"

  /** The name is usable for CREATE: present and not a duplicate, up to case, of an existing name. */
  predicate CreatesCollection(collections: seq<Collection>, name: string) {
    name != "" && !IsNameDuplicate(collections, name)
  }

  /**
   * What Save does to the store: CREATE with the selected animes when the name
   * is usable, then, when some collection is checked, the ADD of those animes
   * into the checked collections.
   */
  function Submitted(snap: P.Snapshot, animes: seq<Anime>, selected: map<int, Collection>, name: string, now: int): (r: P.Snapshot)
    requires P.WellTyped(snap.storage)
    ensures P.WellTyped(r.storage)
  {
    var created := if CreatesCollection(snap.state, name) then P.Reduce(snap, P.CreateCollection(name, animes), now) else snap;
    if |selected| > 0 then P.Persist(created.storage, P.AddedFromSelection(created.state, animes, selected)) else created
  }

  /** A duplicate name suppresses only the CREATE: the checked collections still receive the animes. */
  lemma DuplicateNameStillAdds(snap: P.Snapshot, animes: seq<Anime>, selected: map<int, Collection>, name: string, now: int)
    requires P.WellTyped(snap.storage) && IsNameDuplicate(snap.state, name) && |selected| > 0
    ensures Submitted(snap, animes, selected, name, now).state == P.AddedFromSelection(snap.state, animes, selected)
    ensures |Submitted(snap, animes, selected, name, now).state| == |snap.state|
  {
  }

  /** With nothing checked and no name, Save leaves the store as it was. */
  lemma NothingToSave(snap: P.Snapshot, animes: seq<Anime>, now: int)
    requires P.WellTyped(snap.storage)
    ensures Submitted(snap, animes, map[], "", now) == snap
  {
  }

  /** An ADD from an id-keyed selection of entries of the list keeps every name in place. */
  lemma SelectionKeepsNames(s: seq<Collection>, animes: seq<Anime>, selected: map<int, Collection>)
    requires DistinctIds(s) && CollectionsKeyedById(selected)
    requires forall k :: k in selected ==> selected[k] in s
    ensures var r := P.AddedFromSelection(s, animes, selected);
      |r| == |s| && forall i :: 0 <= i < |s| ==> r[i].name == s[i].name
  {
    var r := P.AddedFromSelection(s, animes, selected);
    forall i | 0 <= i < |s|
      ensures r[i].name == s[i].name
    {
      if s[i].id in selected {
        var c := selected[s[i].id];
        var k :| 0 <= k < |s| && s[k] == c;
        assert k == i;
      }
    }
  }

  /**
   * Save keeps collection names unique, provided the checked collections are
   * entries of the list and the id invariant holds (so the new collection's
   * id is fresh).
   */
  lemma SubmitKeepsNamesUnique(snap: P.Snapshot, animes: seq<Anime>, selected: map<int, Collection>, name: string, now: int)
    requires P.WellTyped(snap.storage) && P.IdsFresh(snap) && NamesUnique(snap.state)
    requires CollectionsKeyedById(selected) && forall k :: k in selected ==> selected[k] in snap.state
    ensures NamesUnique(Submitted(snap, animes, selected, name, now).state)
  {
    var created := if CreatesCollection(snap.state, name) then P.Reduce(snap, P.CreateCollection(name, animes), now) else snap;
    if CreatesCollection(snap.state, name) {
      CreateKeepsNamesUnique(snap, name, animes, now);
      P.ReducePreservesIdsFresh(snap, P.CreateCollection(name, animes), now);
      P.CreatePrepends(snap, name, animes, now);
      forall k | k in selected
        ensures selected[k] in created.state
      {
        var j :| 0 <= j < |snap.state| && snap.state[j] == selected[k];
        assert created.state[j + 1] == snap.state[j];
      }
    }
    if |selected| > 0 {
      SelectionKeepsNames(created.state, animes, selected);
    }
  }

  /**
   * The checked collections are snapshots taken when their boxes were ticked,
   * and ADD writes the snapshot back.  If another tab renamed collection 1 to
   * "Bar" and created "Foo" as collection 2 after the box was ticked, and
   * focus reloaded the list, Save writes the stale name "Foo" back into
   * collection 1: the rename is undone and two collections share a name.
   */
  lemma StaleCheckRevertsRename(a: Anime)
    ensures var snap := P.Snapshot([Collection(2, "Foo", [], 0), Collection(1, "Bar", [], 0)], map[]);
      var stale := Collection(1, "Foo", [], 0);
      && NamesUnique(snap.state) && stale !in snap.state
      && var r := Submitted(snap, [a], map[1 := stale], "", 0);
      && |r.state| == 2 && r.state[1].id == 1 && r.state[1].name == "Foo"
      && !NamesUnique(r.state)
  {
    var foo := Collection(2, "Foo", [], 0);
    var bar := Collection(1, "Bar", [], 0);
    var stale := Collection(1, "Foo", [], 0);
    var snap := P.Snapshot([foo, bar], map[]);
    assert Lower("Foo") != Lower("Bar") by {
      assert Lower("Foo")[0] == 'f' && Lower("Bar")[0] == 'b';
    }
    assert NamesUnique(snap.state);
    assert CollectionIds([foo, bar]) == [2, 1];
    assert IndexOf([2, 1], 1) == 1;
    var r := Submitted(snap, [a], map[1 := stale], "", 0);
    assert r.state == P.AddedFromSelection([foo, bar], [a], map[1 := stale]);
    assert r.state[1] == P.Merged(stale, [a]);
    assert r.state[0] == foo;
    assert SameName(r.state[0].name, r.state[1].name);
  }

  class CollectAnimeDialogView {
    const store: P.CollectionStore
    /** The `animes` prop: the parent passes its current selection on every render. */
    var animes: seq<Anime>
    var selected: map<int, Collection>
    var newCollectionName: string

    ghost predicate Valid()
      reads this, store
    {
      store.Valid() && CollectionsKeyedById(selected)
    }

    constructor (store: P.CollectionStore, animes: seq<Anime>)
      requires store.Valid()
      ensures Valid() && this.store == store && this.animes == animes
      ensures selected == map[] && newCollectionName == ""
    {
      this.store := store;
      this.animes := animes;
      selected := map[];
      newCollectionName := "";
    }

    /** The checkbox of a collection is ticked when its id is a key of the selection. */
    function IsChecked(collection: Collection): bool
      reads this
    {
      collection.id in selected
    }

    /** Ticking stores the collection under its id; unticking deletes only that key. */
    method HandleSelectChange(collection: Collection, checked: bool)
      requires Valid()
      modifies this`selected
      ensures Valid()
      ensures checked ==> selected == old(selected)[collection.id := collection]
      ensures !checked ==> selected == old(selected) - {collection.id}
      ensures IsChecked(collection) == checked
    {
      if checked {
        selected := selected[collection.id := collection];
        return;
      }
      var newSelected := selected;
      newSelected := newSelected - {collection.id};
      selected := newSelected;
    }

    /** The new-collection checkbox is ticked exactly when a name is present. */
    function NewCollectionChecked(): bool
      reads this
    {
      newCollectionName != ""
    }

    /**
     * Ticking the new-collection checkbox with no name proposes the default
     * name; unticking it with a name clears the name; nothing else changes it.
     */
    method ToggleNewCollection(checked: bool)
      modifies this`newCollectionName
      ensures checked && old(newCollectionName) == "" ==> newCollectionName == DefaultNewName
      ensures !checked && old(newCollectionName) != "" ==> newCollectionName == ""
      ensures checked != (old(newCollectionName) == "") ==> newCollectionName == old(newCollectionName)
      ensures NewCollectionChecked() == checked
    {
      if checked && newCollectionName == "" {
        newCollectionName := DefaultNewName;
      }
      if !checked && newCollectionName != "" {
        newCollectionName := "";
      }
    }

    /** Typing in the name field keeps only word characters and white space. */
    method HandleNameInput(value: string)
      modifies this`newCollectionName
      ensures newCollectionName == Sanitize(value)
      ensures forall i :: 0 <= i < |newCollectionName| ==> IsNameChar(newCollectionName[i])
    {
      newCollectionName := Sanitize(value);
    }

    /** Save is disabled when no collection is checked and no name is given. */
    function SaveDisabled(): bool
      reads this
    {
      |selected| == 0 && newCollectionName == ""
    }

    /**
     * Save: CREATE when the name is usable, ADD when some collection is
     * checked; `saved` (which triggers `onSaved`) tells whether anything was
     * dispatched.
     */
    method HandleSubmit(now: int) returns (saved: bool)
      requires Valid()
      modifies store
      ensures Valid()
      ensures saved <==> CreatesCollection(old(store.state), newCollectionName) || |selected| > 0
      ensures store.Snap() == Submitted(old(store.Snap()), animes, selected, newCollectionName, now)
      ensures SaveDisabled() ==> !saved
    {
      saved := false;
      ghost var before := store.Snap();
      if newCollectionName != "" {
        var isNameDuplicate := IsNameDuplicate(store.state, newCollectionName);
        if !isNameDuplicate {
          store.Dispatch(P.CreateCollection(newCollectionName, animes), now);
          saved := true;
        }
      }
      var keys, selectedCollections := ValuesOf(selected);
      if |selectedCollections| > 0 {
        ghost var created := store.Snap();
        store.Dispatch(P.AddAnimesIntoCollections(animes, selectedCollections), now);
        P.AddedIntoSelection(created.state, animes, keys, selectedCollections, selected);
        saved := true;
      }
    }
  }
}
