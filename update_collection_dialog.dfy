/**
 * The dialog that renames a collection: the edited name starts as the
 * collection's name, typed input is filtered, and Save hands the collection
 * with the new name to the caller and clears the field.  Rendering is not
 * modelled.
 */
module UpdateCollectionDialog {
  import opened Wrappers
  import opened Models
  import opened Naming

  class UpdateCollectionDialogView {
    /** The `collection` prop: the page's current lookup, passed again on every render. */
    var collection: Collection
    var newCollectionName: string

    /** `useState(collection.name)`. */
    constructor (collection: Collection)
      ensures this.collection == collection && newCollectionName == collection.name
    {
      this.collection := collection;
      newCollectionName := collection.name;
    }

    /**
     * A re-render with a new `collection` prop (a reload changed the page's
     * lookup): the prop is replaced, the edited name, initialised only at
     * mount, is kept.
     */
    method ReceiveCollection(current: Collection)
      modifies this`collection
      ensures collection == current && newCollectionName == old(newCollectionName)
    {
      collection := current;
    }

    /** Typing keeps only word characters and white space. */
    method HandleNameInput(value: string)
      modifies this`newCollectionName
      ensures newCollectionName == Sanitize(value)
      ensures forall i :: 0 <= i < |newCollectionName| ==> IsNameChar(newCollectionName[i])
    {
      newCollectionName := Sanitize(value);
    }

    /** Save is disabled exactly when the edited name is empty. */
    function SaveDisabled(): bool
      reads this
    {
      newCollectionName == ""
    }

    /**
     * Save: the payload is the collection with only its name replaced, and the
     * field is cleared.  A disabled button delivers no click, so then nothing
     * happens.
     */
    method Save() returns (payload: Option<Collection>)
      modifies this`newCollectionName
      ensures old(SaveDisabled()) ==> payload.None? && newCollectionName == old(newCollectionName)
      ensures !old(SaveDisabled()) ==> newCollectionName == "" && payload.Some?
      ensures payload.Some? ==>
        && payload.value.name == old(newCollectionName) && payload.value.name != ""
        && payload.value.id == collection.id
        && payload.value.animes == collection.animes
        && payload.value.createdAt == collection.createdAt
    {
      if newCollectionName == "" {
        return None;
      }
      payload := Some(collection.(name := newCollectionName));
      newCollectionName := "";
    }
  }

  /**
   * Saving the dialog of an entry of the list under the same name, in any
   * letter case, always passes the rename test.
   */
  lemma SameNameSaveAccepted(s: seq<Collection>, k: int, name: string)
    requires NamesUnique(s) && 0 <= k < |s| && SameName(name, s[k].name)
    ensures !IsRenameDuplicate(s, s[k].(name := name))
  {
    OwnNameAccepted(s, k, s[k].(name := name));
  }
}
