/**
 * The collection store: the reducer over the list of collections, the
 * identifier generator on the `autoincrement` key, and the durable storage
 * (`localStorage`) that every mutating branch writes.
 *
 * `Reduce` is the reducer as a pure function of a `Snapshot` (the in-memory
 * list together with the storage map); `CollectionStore` is the same store as
 * an object whose `Dispatch` changes its fields step by step and is proved to
 * agree with `Reduce`.  JSON encoding is not modelled: storage holds the
 * decoded list or the decoded counter.
 */
module CollectionProvider {
  import opened Wrappers
  import opened Models

  /** A decoded storage value: the JSON array of collections or the decimal counter. */
  datatype Value = CollectionList(items: seq<Collection>) | Counter(last: int)

  type Storage = map<string, Value>

  const CollectionsKey: string := "collections"
  const AutoincrementKey: string := "autoincrement"

  /**
   * Each key holds the kind of value the store writes there.  The source only
   * defaults a missing key; a value of the wrong shape makes `JSON.parse` or
   * `parseInt` misbehave, so the store is only specified on storage like this.
   */
  predicate WellTyped(st: Storage) {
    && (CollectionsKey in st ==> st[CollectionsKey].CollectionList?)
    && (AutoincrementKey in st ==> st[AutoincrementKey].Counter?)
  }

  /** `JSON.parse(localStorage.getItem('collections') || '[]')`. */
  function Load(st: Storage): seq<Collection>
    requires WellTyped(st)
  {
    if CollectionsKey in st then st[CollectionsKey].items else []
  }

  /** `parseInt(localStorage.getItem('autoincrement') || '0')`: the last id issued. */
  function LastIssued(st: Storage): int
    requires WellTyped(st)
  {
    if AutoincrementKey in st then st[AutoincrementKey].last else 0
  }

  /** The actions the reducer accepts; `Unrecognised` stands for any other `type` tag. */
  datatype Action =
    | GetCollections
    | CreateCollection(title: string, animes: seq<Anime>)
    | DeleteCollection(collectionId: int)
    | UpdateCollection(collection: Collection)
    | AddAnimesIntoCollections(animes: seq<Anime>, collections: seq<Collection>)
    | Unrecognised

  /** Everything the store holds: the reducer's state and the durable storage. */
  datatype Snapshot = Snapshot(state: seq<Collection>, storage: Storage)

  /** `state.map((old) => (old.id === collection.id ? collection : old))`. */
  function Updated(s: seq<Collection>, c: Collection): (r: seq<Collection>)
    ensures |r| == |s|
    ensures forall i :: 0 <= i < |s| ==> r[i] == if s[i].id == c.id then c else s[i]
  {
    if s == [] then []
    else [if s[0].id == c.id then c else s[0]] + Updated(s[1..], c)
  }

  /** `animes.filter((anime) => !oldAnimeIds.includes(anime.id))`. */
  function Missing(animes: seq<Anime>, present: seq<int>): (r: seq<Anime>)
    ensures forall i :: 0 <= i < |r| ==> r[i].id !in present
    ensures forall a :: multiset(r)[a] == if a.id in present then 0 else multiset(animes)[a]
  {
    if animes == [] then []
    else
      assert animes == [animes[0]] + animes[1..];
      (if animes[0].id !in present then [animes[0]] else []) + Missing(animes[1..], present)
  }

  /** One step of the filter: the head is kept exactly when its id is not present. */
  lemma MissingCons(s: seq<Anime>, present: seq<int>)
    requires s != []
    ensures Missing(s, present) == (if s[0].id !in present then [s[0]] else []) + Missing(s[1..], present)
  {
  }

  /**
   * Associativity, stated apart: proved inside `MissingConcat`, where the
   * multiset contract of `Missing` is in scope, it exhausts the solver.
   */
  lemma ConcatAssoc(x: seq<Anime>, y: seq<Anime>, z: seq<Anime>)
    ensures x + (y + z) == (x + y) + z
  {
  }

  /** The filter keeps the input order: it distributes over concatenation. */
  lemma {:induction false} MissingConcat(a: seq<Anime>, b: seq<Anime>, present: seq<int>)
    ensures Missing(a + b, present) == Missing(a, present) + Missing(b, present)
  {
    if a == [] {
      assert a + b == b;
    } else {
      var ab := a + b;
      var head := if a[0].id !in present then [a[0]] else [];
      assert ab[0] == a[0] && ab[1..] == a[1..] + b;
      MissingCons(ab, present);
      MissingCons(a, present);
      MissingConcat(a[1..], b, present);
      ConcatAssoc(head, Missing(a[1..], present), Missing(b, present));
      calc {
        Missing(ab, present);
        head + Missing(a[1..] + b, present);
        head + (Missing(a[1..], present) + Missing(b, present));
        (head + Missing(a[1..], present)) + Missing(b, present);
        Missing(a, present) + Missing(b, present);
      }
    }
  }

  /** `{ ...target, animes: [...target.animes, ...missing] }`: the target with the input animes it lacks appended. */
  function Merged(target: Collection, animes: seq<Anime>): Collection {
    target.(animes := target.animes + Missing(animes, AnimeIds(target.animes)))
  }

  /** One turn of the `forEach`: overwrite the first entry carrying the target's id, if there is one. */
  function AddedOne(s: seq<Collection>, animes: seq<Anime>, target: Collection): seq<Collection> {
    var index := IndexOf(CollectionIds(s), target.id);
    if index >= 0 then s[index := Merged(target, animes)] else s
  }

  /** The `ADD_ANIMES_INTO_COLLECTIONS` branch: the `forEach` over the target collections, in order. */
  function AddedInto(s: seq<Collection>, animes: seq<Anime>, targets: seq<Collection>): (r: seq<Collection>)
    ensures |r| == |s| && CollectionIds(r) == CollectionIds(s)
    decreases |targets|
  {
    if targets == [] then s
    else
      var n := |targets| - 1;
      var before := AddedInto(s, animes, targets[..n]);
      var index := IndexOf(CollectionIds(before), targets[n].id);
      assert index >= 0 ==> CollectionIds(before[index := Merged(targets[n], animes)]) == CollectionIds(before);
      AddedOne(before, animes, targets[n])
  }

  /** The id the generator issues next. */
  function NextId(st: Storage): int
    requires WellTyped(st)
  {
    LastIssued(st) + 1
  }

  /** Writes `s` under the `collections` key and makes it the state. */
  function Persist(st: Storage, s: seq<Collection>): Snapshot {
    Snapshot(s, st[CollectionsKey := CollectionList(s)])
  }

  /** The reducer, with its storage writes and the counter update made by `autoincrement`. */
  function Reduce(snap: Snapshot, action: Action, now: int): (r: Snapshot)
    requires WellTyped(snap.storage)
    ensures WellTyped(r.storage)
    ensures action != Unrecognised ==> r.state == Load(r.storage)
    ensures action.GetCollections? || action.Unrecognised? ==> r.storage == snap.storage
  {
    match action
    case GetCollections =>
      Snapshot(Load(snap.storage), snap.storage)
    case CreateCollection(title, animes) =>
      var id := NextId(snap.storage);
      var counted := snap.storage[AutoincrementKey := Counter(id)];
      Persist(counted, [Collection(id, title, animes, now)] + snap.state)
    case DeleteCollection(collectionId) =>
      Persist(snap.storage, Without(snap.state, collectionId))
    case UpdateCollection(collection) =>
      Persist(snap.storage, Updated(snap.state, collection))
    case AddAnimesIntoCollections(animes, targets) =>
      Persist(snap.storage, AddedInto(snap.state, animes, targets))
    case Unrecognised =>
      snap
  }

  /** `collections.findIndex((collection) => collection.id === id)` on the copied array. */
  method FindIndex(a: array<Collection>, id: int) returns (index: int)
    ensures index == IndexOf(CollectionIds(a[..]), id)
  {
    ghost var ids := CollectionIds(a[..]);
    var k := 0;
    while k < a.Length
      invariant 0 <= k <= a.Length
      invariant id !in ids[..k]
    {
      if a[k].id == id {
        assert ids[k] == id;
        IndexOfFirst(ids, id, k);
        return k;
      }
      assert ids[..k + 1] == ids[..k] + [ids[k]];
      k := k + 1;
    }
    assert ids[..k] == ids;
    return -1;
  }

  /** A position holding `id` with no earlier occurrence is the one `IndexOf` finds. */
  lemma IndexOfFirst(ids: seq<int>, id: int, k: int)
    requires 0 <= k < |ids| && ids[k] == id && id !in ids[..k]
    ensures IndexOf(ids, id) == k
  {
  }

  /** The last target carrying `id`: with `forEach` overwriting, the one whose animes end up in the entry. */
  function LastWithId(ts: seq<Collection>, id: int): (r: Option<Collection>)
    ensures r.None? <==> forall j :: 0 <= j < |ts| ==> ts[j].id != id
    ensures r.Some? ==> r.value.id == id && r.value in ts
    ensures r.Some? ==> exists j :: 0 <= j < |ts| && ts[j] == r.value && forall k :: j < k < |ts| ==> ts[k].id != id
  {
    if ts == [] then None
    else if ts[|ts| - 1].id == id then Some(ts[|ts| - 1])
    else
      var front := ts[..|ts| - 1];
      var r := LastWithId(front, id);
      assert forall j :: 0 <= j < |front| ==> front[j] == ts[j];
      assert r.Some? ==> exists j :: 0 <= j < |ts| && ts[j] == r.value && forall k :: j < k < |ts| ==> ts[k].id != id by {
        if r.Some? {
          var j :| 0 <= j < |front| && front[j] == r.value && forall k :: j < k < |front| ==> front[k].id != id;
          assert ts[j] == r.value;
          assert forall k :: j < k < |ts| ==> ts[k].id != id by {
            forall k | j < k < |ts| ensures ts[k].id != id {
              if k < |front| { assert ts[k] == front[k]; }
            }
          }
        }
      }
      r
  }

  // ---------------------------------------------------------------------------
  // CREATE and the identifier generator
  // ---------------------------------------------------------------------------

  /** CREATE puts the new collection, with the id just issued, in front of the old list, which follows unchanged. */
  lemma CreatePrepends(snap: Snapshot, title: string, animes: seq<Anime>, now: int)
    requires WellTyped(snap.storage)
    ensures var r := Reduce(snap, CreateCollection(title, animes), now);
      && |r.state| == |snap.state| + 1
      && r.state[0] == Collection(LastIssued(snap.storage) + 1, title, animes, now)
      && r.state[1..] == snap.state
      && LastIssued(r.storage) == r.state[0].id
      && Load(r.storage) == r.state
  {
  }

  /** Every id in `s` is at most `bound`. */
  predicate IdsAtMost(s: seq<Collection>, bound: int) {
    forall i :: 0 <= i < |s| ==> s[i].id <= bound
  }

  /**
   * The id invariant: in memory and in storage, ids are distinct and none is
   * above the counter, so the next id issued is fresh.
   */
  predicate IdsFresh(snap: Snapshot)
    requires WellTyped(snap.storage)
  {
    && DistinctIds(snap.state) && IdsAtMost(snap.state, LastIssued(snap.storage))
    && DistinctIds(Load(snap.storage)) && IdsAtMost(Load(snap.storage), LastIssued(snap.storage))
  }

  /** Putting in front an entry whose id is new and within the bound keeps ids distinct and bounded. */
  lemma PrependKeepsIds(c: Collection, s: seq<Collection>, bound: int)
    requires DistinctIds(s) && IdsAtMost(s, bound) && c.id <= bound
    requires forall i :: 0 <= i < |s| ==> s[i].id != c.id
    ensures DistinctIds([c] + s) && IdsAtMost([c] + s, bound)
  {
    var r := [c] + s;
    forall i | 0 < i < |r| ensures r[i] == s[i - 1] { }
  }

  /** An id absent from a list is absent from what the filter keeps of it. */
  lemma WithoutAvoids(s: seq<Collection>, id: int, other: int)
    requires forall i :: 0 <= i < |s| ==> s[i].id != other
    ensures forall i :: 0 <= i < |Without(s, id)| ==> Without(s, id)[i].id != other
  {
    var r := Without(s, id);
    forall i | 0 <= i < |r| ensures r[i].id != other {
      assert r[i] in multiset(r);
      assert r[i] in s;
    }
  }

  /** One step of the filter: the head is kept exactly when its id differs. */
  lemma WithoutCons(s: seq<Collection>, id: int)
    requires s != []
    ensures s[0].id != id ==> Without(s, id) == [s[0]] + Without(s[1..], id)
    ensures s[0].id == id ==> Without(s, id) == Without(s[1..], id)
  {
  }

  /** Dropping the head keeps ids distinct and bounded. */
  lemma TailKeepsIds(s: seq<Collection>, bound: int)
    requires s != [] && DistinctIds(s) && IdsAtMost(s, bound)
    ensures DistinctIds(s[1..]) && IdsAtMost(s[1..], bound)
    ensures forall i :: 0 <= i < |s[1..]| ==> s[1..][i].id != s[0].id
  {
  }

  /** Filtering keeps a sub-list, so distinct ids stay distinct and bounded. */
  lemma {:induction false} WithoutKeepsIds(s: seq<Collection>, id: int, bound: int)
    requires DistinctIds(s) && IdsAtMost(s, bound)
    ensures DistinctIds(Without(s, id)) && IdsAtMost(Without(s, id), bound)
  {
    if s != [] {
      var tail := s[1..];
      TailKeepsIds(s, bound);
      WithoutKeepsIds(tail, id, bound);
      var rest := Without(tail, id);
      WithoutCons(s, id);
      if s[0].id != id {
        WithoutAvoids(tail, id, s[0].id);
        PrependKeepsIds(s[0], rest, bound);
      }
    }
  }

  /** A list with the same ids in the same places keeps the invariant. */
  lemma SameIdsKeepFresh(r: seq<Collection>, s: seq<Collection>, bound: int)
    requires CollectionIds(r) == CollectionIds(s)
    requires DistinctIds(s) && IdsAtMost(s, bound)
    ensures DistinctIds(r) && IdsAtMost(r, bound)
  {
    assert |r| == |CollectionIds(r)|;
    forall i | 0 <= i < |r|
      ensures r[i].id == s[i].id
    {
      assert CollectionIds(r)[i] == CollectionIds(s)[i];
    }
  }

  /** CREATE keeps the invariant: the new id is one above the counter, hence above every id. */
  lemma CreateKeepsIdsFresh(snap: Snapshot, title: string, animes: seq<Anime>, now: int)
    requires WellTyped(snap.storage) && IdsFresh(snap)
    ensures IdsFresh(Reduce(snap, CreateCollection(title, animes), now))
  {
    var r := Reduce(snap, CreateCollection(title, animes), now);
    var bound := LastIssued(snap.storage);
    CreatePrepends(snap, title, animes, now);
    forall i, j | 0 <= i < j < |r.state|
      ensures r.state[i].id != r.state[j].id
    {
      assert r.state[j] == snap.state[j - 1];
      if i > 0 {
        assert r.state[i] == snap.state[i - 1];
      }
    }
    forall i | 0 <= i < |r.state|
      ensures r.state[i].id <= bound + 1
    {
      if i > 0 {
        assert r.state[i] == snap.state[i - 1];
      }
    }
  }

  /** Every branch of the reducer keeps ids distinct and at most the counter. */
  lemma ReducePreservesIdsFresh(snap: Snapshot, action: Action, now: int)
    requires WellTyped(snap.storage) && IdsFresh(snap)
    ensures IdsFresh(Reduce(snap, action, now))
  {
    var bound := LastIssued(snap.storage);
    match action
    case GetCollections =>
    case CreateCollection(title, animes) =>
      CreateKeepsIdsFresh(snap, title, animes, now);
    case DeleteCollection(collectionId) =>
      WithoutKeepsIds(snap.state, collectionId, bound);
    case UpdateCollection(collection) =>
      UpdateKeepsIds(snap.state, collection);
      SameIdsKeepFresh(Updated(snap.state, collection), snap.state, bound);
    case AddAnimesIntoCollections(animes, targets) =>
      SameIdsKeepFresh(AddedInto(snap.state, animes, targets), snap.state, bound);
    case Unrecognised =>
  }

  /** One dispatch, with the time it happened. */
  datatype Step = Step(action: Action, now: int)

  /** Dispatching the steps in order. */
  function Run(snap: Snapshot, steps: seq<Step>): (r: Snapshot)
    requires WellTyped(snap.storage)
    ensures WellTyped(r.storage)
    decreases |steps|
  {
    if steps == [] then snap
    else Run(Reduce(snap, steps[0].action, steps[0].now), steps[1..])
  }

  /** The ids handed out by the CREATE steps of a run, in the order they were issued. */
  function IssuedIds(snap: Snapshot, steps: seq<Step>): seq<int>
    requires WellTyped(snap.storage)
    decreases |steps|
  {
    if steps == [] then []
    else
      var here := if steps[0].action.CreateCollection? then [NextId(snap.storage)] else [];
      here + IssuedIds(Reduce(snap, steps[0].action, steps[0].now), steps[1..])
  }

  /** CREATE advances the counter by one; every other action leaves it alone. */
  lemma CounterStep(snap: Snapshot, action: Action, now: int)
    requires WellTyped(snap.storage)
    ensures LastIssued(Reduce(snap, action, now).storage)
      == if action.CreateCollection? then NextId(snap.storage) else LastIssued(snap.storage)
  {
  }

  /** Over any sequence of dispatches the ids stay distinct and never exceed the counter. */
  lemma {:induction false} RunPreservesIdsFresh(snap: Snapshot, steps: seq<Step>)
    requires WellTyped(snap.storage) && IdsFresh(snap)
    ensures IdsFresh(Run(snap, steps))
    decreases |steps|
  {
    if steps != [] {
      ReducePreservesIdsFresh(snap, steps[0].action, steps[0].now);
      RunPreservesIdsFresh(Reduce(snap, steps[0].action, steps[0].now), steps[1..]);
    }
  }

  /** `ids` strictly increase, and each lies above `lo` and at most at `hi`. */
  predicate IncreasingWithin(ids: seq<int>, lo: int, hi: int) {
    && lo <= hi
    && (forall i, j :: 0 <= i < j < |ids| ==> ids[i] < ids[j])
    && (forall i :: 0 <= i < |ids| ==> lo < ids[i] <= hi)
  }

  lemma PrependIncreasing(x: int, ids: seq<int>, lo: int, hi: int)
    requires lo < x && IncreasingWithin(ids, x, hi)
    ensures IncreasingWithin([x] + ids, lo, hi)
  {
    var all := [x] + ids;
    forall i, j | 0 <= i < j < |all|
      ensures all[i] < all[j]
    {
      assert all[j] == ids[j - 1];
      if i > 0 {
        assert all[i] == ids[i - 1];
      }
    }
  }

  /**
   * The generator's ids strictly increase over a run, all lie above the counter
   * the run started from and at most at the counter it ends with: an id is
   * never issued twice, even after the collection holding it is deleted.
   */
  lemma {:induction false} IssuedIdsIncrease(snap: Snapshot, steps: seq<Step>)
    requires WellTyped(snap.storage)
    ensures IncreasingWithin(IssuedIds(snap, steps), LastIssued(snap.storage), LastIssued(Run(snap, steps).storage))
    decreases |steps|
  {
    if steps != [] {
      var next := Reduce(snap, steps[0].action, steps[0].now);
      IssuedIdsIncrease(next, steps[1..]);
      CounterStep(snap, steps[0].action, steps[0].now);
      var rest := IssuedIds(next, steps[1..]);
      assert Run(snap, steps) == Run(next, steps[1..]);
      var end := LastIssued(Run(snap, steps).storage);
      if steps[0].action.CreateCollection? {
        assert IssuedIds(snap, steps) == [NextId(snap.storage)] + rest;
        PrependIncreasing(NextId(snap.storage), rest, LastIssued(snap.storage), end);
      } else {
        assert IssuedIds(snap, steps) == [] + rest;
      }
    }
  }

  // ---------------------------------------------------------------------------
  // DELETE and UPDATE
  // ---------------------------------------------------------------------------

  /** DELETE of an id no entry carries leaves the list as it was. */
  lemma DeleteAbsent(snap: Snapshot, collectionId: int, now: int)
    requires WellTyped(snap.storage)
    requires collectionId !in CollectionIds(snap.state)
    ensures Reduce(snap, DeleteCollection(collectionId), now).state == snap.state
  {
    forall i | 0 <= i < |snap.state|
      ensures snap.state[i].id != collectionId
    {
      assert CollectionIds(snap.state)[i] == snap.state[i].id;
    }
    WithoutAbsent(snap.state, collectionId);
  }

  /** A second identical DELETE changes nothing, in memory or in storage. */
  lemma DeleteTwice(snap: Snapshot, collectionId: int, now: int, later: int)
    requires WellTyped(snap.storage)
    ensures var once := Reduce(snap, DeleteCollection(collectionId), now);
      Reduce(once, DeleteCollection(collectionId), later) == once
  {
    var once := Reduce(snap, DeleteCollection(collectionId), now);
    WithoutIdempotent(snap.state, collectionId);
    assert once.storage[CollectionsKey := CollectionList(once.state)] == once.storage;
  }

  /** UPDATE keeps every id in its place, so only contents change. */
  lemma UpdateKeepsIds(s: seq<Collection>, c: Collection)
    ensures CollectionIds(Updated(s, c)) == CollectionIds(s)
  {
  }

  // ---------------------------------------------------------------------------
  // ADD_ANIMES_INTO_COLLECTIONS
  // ---------------------------------------------------------------------------

  /**
   * Entry `i` after the ADD: if it is the first entry with its id and some
   * target carries that id, it is the last such target with the missing animes
   * appended; otherwise it is untouched.  Targets whose id is not in the list
   * change nothing.
   */
  lemma {:induction false} AddedIntoAt(s: seq<Collection>, animes: seq<Anime>, ts: seq<Collection>, i: int)
    requires 0 <= i < |s|
    ensures AddedInto(s, animes, ts)[i] ==
      match LastWithId(ts, s[i].id)
      case Some(t) => if IndexOf(CollectionIds(s), s[i].id) == i then Merged(t, animes) else s[i]
      case None => s[i]
    decreases |ts|
  {
    if ts != [] {
      var n := |ts| - 1;
      var before := AddedInto(s, animes, ts[..n]);
      AddedIntoAt(s, animes, ts[..n], i);
      assert CollectionIds(before)[i] == CollectionIds(s)[i];
    }
  }

  /** With distinct ids on both sides, each entry takes the animes of the one target with its id. */
  lemma AddedIntoDistinct(s: seq<Collection>, animes: seq<Anime>, ts: seq<Collection>, i: int)
    requires DistinctIds(s) && DistinctIds(ts) && 0 <= i < |s|
    ensures forall j :: 0 <= j < |ts| && ts[j].id == s[i].id ==> AddedInto(s, animes, ts)[i] == Merged(ts[j], animes)
    ensures (forall j :: 0 <= j < |ts| ==> ts[j].id != s[i].id) ==> AddedInto(s, animes, ts)[i] == s[i]
  {
    AddedIntoAt(s, animes, ts, i);
    var ids := CollectionIds(s);
    assert ids[i] == s[i].id;
    var k := IndexOf(ids, s[i].id);
    assert k == i by {
      assert s[k].id == ids[k];
    }
    match LastWithId(ts, s[i].id)
    case None =>
    case Some(t) =>
      var m :| 0 <= m < |ts| && ts[m] == t;
      assert forall j :: 0 <= j < |ts| && ts[j].id == s[i].id ==> j == m;
  }

  /** Applying the same ADD twice gives the list a single ADD gives. */
  lemma AddedIntoTwice(s: seq<Collection>, animes: seq<Anime>, ts: seq<Collection>)
    ensures AddedInto(AddedInto(s, animes, ts), animes, ts) == AddedInto(s, animes, ts)
  {
    var once := AddedInto(s, animes, ts);
    var twice := AddedInto(once, animes, ts);
    forall i | 0 <= i < |s|
      ensures twice[i] == once[i]
    {
      AddedIntoAt(s, animes, ts, i);
      AddedIntoAt(once, animes, ts, i);
      assert CollectionIds(once)[i] == CollectionIds(s)[i];
    }
  }

  /** The ADD dispatch is idempotent, in memory and in storage. */
  lemma AddTwice(snap: Snapshot, animes: seq<Anime>, targets: seq<Collection>, now: int, later: int)
    requires WellTyped(snap.storage)
    ensures var once := Reduce(snap, AddAnimesIntoCollections(animes, targets), now);
      Reduce(once, AddAnimesIntoCollections(animes, targets), later) == once
  {
    var once := Reduce(snap, AddAnimesIntoCollections(animes, targets), now);
    AddedIntoTwice(snap.state, animes, targets);
    assert once.storage[CollectionsKey := CollectionList(once.state)] == once.storage;
  }

  /**
   * The ADD for targets taken from an id-keyed selection, described without
   * any order: each entry that is the first with a selected id becomes the
   * selected collection with the missing animes appended.
   */
  function AddedFromSelection(s: seq<Collection>, animes: seq<Anime>, selection: map<int, Collection>): seq<Collection> {
    var ids := CollectionIds(s);
    seq(|s|, i requires 0 <= i < |s| =>
      if s[i].id in selection && IndexOf(ids, s[i].id) == i then Merged(selection[s[i].id], animes) else s[i])
  }

  /**
   * Whatever order `Object.values` lists the selection in, the `forEach`
   * produces the same list.
   */
  lemma AddedIntoSelection(s: seq<Collection>, animes: seq<Anime>, keys: seq<int>, vals: seq<Collection>, selection: map<int, Collection>)
    requires CollectionsKeyedById(selection) && Enumerates(keys, vals, selection)
    ensures AddedInto(s, animes, vals) == AddedFromSelection(s, animes, selection)
  {
    var r := AddedInto(s, animes, vals);
    var e := AddedFromSelection(s, animes, selection);
    forall i | 0 <= i < |s|
      ensures r[i] == e[i]
    {
      AddedIntoAt(s, animes, vals, i);
      var id := s[i].id;
      match LastWithId(vals, id)
      case None =>
      case Some(t) =>
        var m :| 0 <= m < |vals| && vals[m] == t;
        assert keys[m] == id;
    }
  }

  /** Both copies of an anime the target lacks survive the filter. */
  lemma RepeatedBothMissing(a1: Anime, a2: Anime)
    requires a1.id != a2.id
    ensures Missing([a2, a2], [a1.id]) == [a2, a2]
  {
    MissingCons([a2, a2], [a1.id]);
    assert [a2, a2][1..] == [a2];
    MissingCons([a2], [a1.id]);
    assert [a2][1..] == [];
  }

  /**
   * The input is compared only with the target's own animes, never with
   * itself: an anime given twice is appended twice.
   */
  lemma RepeatedInputAppendedTwice(fav: Collection, a1: Anime, a2: Anime)
    requires fav.animes == [a1] && a1.id != a2.id
    ensures AddedInto([fav], [a2, a2], [fav])[0].animes == [a1, a2, a2]
  {
    RepeatedBothMissing(a1, a2);
    assert AnimeIds([a1]) == [a1.id];
    assert CollectionIds([fav]) == [fav.id];
    assert IndexOf([fav.id], fav.id) == 0;
    assert [fav][..0] == [];
    assert AddedInto([fav], [a2, a2], [fav]) == AddedOne([fav], [a2, a2], fav);
    assert Merged(fav, [a2, a2]).animes == [a1] + [a2, a2];
  }

  /**
   * Within-collection dedup survives an ADD: if the targets and the list hold
   * no repeated anime ids, and neither do the input animes, neither does the result.
   */
  lemma AddKeepsAnimesDistinct(s: seq<Collection>, animes: seq<Anime>, ts: seq<Collection>)
    requires DistinctAnimeIds(animes)
    requires forall i :: 0 <= i < |s| ==> DistinctAnimeIds(s[i].animes)
    requires forall j :: 0 <= j < |ts| ==> DistinctAnimeIds(ts[j].animes)
    ensures var r := AddedInto(s, animes, ts);
      forall i :: 0 <= i < |r| ==> DistinctAnimeIds(r[i].animes)
  {
    var r := AddedInto(s, animes, ts);
    forall i | 0 <= i < |r|
      ensures DistinctAnimeIds(r[i].animes)
    {
      AddedIntoAt(s, animes, ts, i);
      match LastWithId(ts, s[i].id)
      case None =>
      case Some(t) =>
        var m :| 0 <= m < |ts| && ts[m] == t;
        MergedDistinct(t, animes);
    }
  }

  /** The filter keeps the order of the animes it lets through, so distinct ids stay distinct. */
  lemma {:induction false} MissingDistinct(animes: seq<Anime>, present: seq<int>)
    requires DistinctAnimeIds(animes)
    ensures DistinctAnimeIds(Missing(animes, present))
  {
    if animes != [] {
      MissingDistinct(animes[1..], present);
      var rest := Missing(animes[1..], present);
      forall i | 0 <= i < |rest|
        ensures rest[i].id != animes[0].id
      {
        assert rest[i] in multiset(rest);
        assert rest[i] in animes[1..];
      }
    }
  }

  /** Merging never duplicates an anime id: existing ones are skipped. */
  lemma MergedDistinct(target: Collection, animes: seq<Anime>)
    requires DistinctAnimeIds(target.animes) && DistinctAnimeIds(animes)
    ensures DistinctAnimeIds(Merged(target, animes).animes)
  {
    var present := AnimeIds(target.animes);
    var extra := Missing(animes, present);
    MissingDistinct(animes, present);
    var all := target.animes + extra;
    forall i, j | 0 <= i < j < |all|
      ensures all[i].id != all[j].id
    {
      if i < |target.animes| <= j {
        assert present[i] == all[i].id;
        assert all[j] == extra[j - |target.animes|];
      } else if |target.animes| <= i {
        assert all[i] == extra[i - |target.animes|] && all[j] == extra[j - |target.animes|];
      }
    }
  }

  /** Adding animes that are all already members leaves the collection as it was. */
  lemma MergedNothingNew(target: Collection, animes: seq<Anime>)
    requires forall i :: 0 <= i < |animes| ==> animes[i].id in AnimeIds(target.animes)
    ensures Merged(target, animes) == target
  {
    var extra := Missing(animes, AnimeIds(target.animes));
    assert target.animes + extra == target.animes;
  }

  /** Of [A1, A2], only A2 is missing from a collection holding A1. */
  lemma OnlySecondMissing(a1: Anime, a2: Anime)
    requires a1.id != a2.id
    ensures Missing([a1, a2], [a1.id]) == [a2]
  {
    MissingCons([a1, a2], [a1.id]);
    assert [a1, a2][1..] == [a2];
    MissingCons([a2], [a1.id]);
    assert [a2][1..] == [];
  }

  /** A collection holding A1, given [A1, A2], ends with [A1, A2]: A1 is not repeated. */
  lemma AddKeepsSingleCopy(favorites: Collection, a1: Anime, a2: Anime, now: int)
    requires favorites.animes == [a1] && a1.id != a2.id
    ensures var r := Reduce(Snapshot([favorites], map[]), AddAnimesIntoCollections([a1, a2], [favorites]), now);
      r.state == [favorites.(animes := [a1, a2])]
  {
    assert AnimeIds([a1]) == [a1.id];
    OnlySecondMissing(a1, a2);
    var merged := favorites.(animes := [a1, a2]);
    assert Merged(favorites, [a1, a2]) == merged by {
      assert [a1] + [a2] == [a1, a2];
    }
    assert CollectionIds([favorites]) == [favorites.id];
    assert IndexOf([favorites.id], favorites.id) == 0;
    assert AddedOne([favorites], [a1, a2], favorites) == [merged];
    assert [favorites][..0] == [];
    assert AddedInto([favorites], [a1, a2], [favorites]) == AddedOne([favorites], [a1, a2], favorites);
  }

  // ---------------------------------------------------------------------------
  // Persistence
  // ---------------------------------------------------------------------------

  /** After any recognised action, a following GET_COLLECTIONS gives back the same list and storage. */
  lemma LoadAfterDispatch(snap: Snapshot, action: Action, now: int, later: int)
    requires WellTyped(snap.storage) && action != Unrecognised
    ensures var r := Reduce(snap, action, now);
      Reduce(r, GetCollections, later) == r
  {
  }

  /** An unrecognised action returns the state it was given and writes nothing. */
  lemma UnrecognisedUnchanged(snap: Snapshot, now: int)
    requires WellTyped(snap.storage)
    ensures Reduce(snap, Unrecognised, now) == snap
  {
  }

  /**
   * The ADD loop of the reducer: copy the list, then for each target in order
   * overwrite the entry holding its id with the target plus the animes it
   * lacks; targets whose id is not in the list are skipped.
   */
  method AddInto(s: seq<Collection>, animes: seq<Anime>, targets: seq<Collection>) returns (r: seq<Collection>)
    ensures r == AddedInto(s, animes, targets)
    ensures |r| == |s| && CollectionIds(r) == CollectionIds(s)
  {
    var copy := new Collection[|s|](i requires 0 <= i < |s| => s[i]);
    var k := 0;
    while k < |targets|
      invariant 0 <= k <= |targets|
      invariant copy[..] == AddedInto(s, animes, targets[..k])
    {
      var target := targets[k];
      var index := FindIndex(copy, target.id);
      if index >= 0 {
        var oldAnimeIds := AnimeIds(target.animes);
        copy[index] := target.(animes := target.animes + Missing(animes, oldAnimeIds));
      }
      assert targets[..k + 1][..k] == targets[..k];
      k := k + 1;
    }
    assert targets[..k] == targets;
    r := copy[..];
  }

  /** The store as the running program has it: the reducer state and `localStorage`. */
  class CollectionStore {
    var state: seq<Collection>
    var storage: Storage

    ghost predicate Valid()
      reads this
    {
      WellTyped(storage)
    }

    function Snap(): Snapshot
      reads this
    {
      Snapshot(state, storage)
    }

    /** `useReducer(reducer, initialState)`: the initial state is read from storage. */
    constructor (initial: Storage)
      requires WellTyped(initial)
      ensures Valid() && storage == initial && state == Load(initial)
    {
      storage := initial;
      state := Load(initial);
    }

    /** `autoincrement`: read the counter (a missing key counts as 0), store it plus one and return that. */
    method Autoincrement() returns (next: int)
      requires Valid()
      modifies this`storage
      ensures Valid()
      ensures next == LastIssued(old(storage)) + 1
      ensures storage == old(storage)[AutoincrementKey := Counter(next)]
      ensures LastIssued(storage) == next
    {
      var last := if AutoincrementKey in storage then storage[AutoincrementKey].last else 0;
      next := last + 1;
      storage := storage[AutoincrementKey := Counter(next)];
    }

    /** `dispatch(action)`: run the matching branch of the reducer; `now` stands for `Date.now()`. */
    method Dispatch(action: Action, now: int)
      requires Valid()
      modifies this
      ensures Valid()
      ensures Snap() == Reduce(old(Snap()), action, now)
    {
      match action {
        case GetCollections =>
          state := if CollectionsKey in storage then storage[CollectionsKey].items else [];
        case CreateCollection(title, animes) =>
          var id := Autoincrement();
          var newCollections := [Collection(id, title, animes, now)] + state;
          storage := storage[CollectionsKey := CollectionList(newCollections)];
          state := newCollections;
        case DeleteCollection(collectionId) =>
          var newCollections := Without(state, collectionId);
          storage := storage[CollectionsKey := CollectionList(newCollections)];
          state := newCollections;
        case UpdateCollection(collection) =>
          var newCollections := Updated(state, collection);
          storage := storage[CollectionsKey := CollectionList(newCollections)];
          state := newCollections;
        case AddAnimesIntoCollections(animes, targets) =>
          var newCollections := AddInto(state, animes, targets);
          storage := storage[CollectionsKey := CollectionList(newCollections)];
          state := newCollections;
        case Unrecognised =>
      }
    }

    /** The window regained focus: reload from storage, which another tab may have written. */
    method OnFocus()
      requires Valid()
      modifies this
      ensures Valid()
      ensures Snap() == Reduce(old(Snap()), GetCollections, 0)
      ensures state == Load(storage) && storage == old(storage)
    {
      Dispatch(GetCollections, 0);
    }

    /** Another tab of the same origin replaced durable storage; this store's state is untouched. */
    method ExternalWrite(written: Storage)
      requires Valid() && WellTyped(written)
      modifies this`storage
      ensures Valid() && storage == written && state == old(state)
    {
      storage := written;
    }
  }
}
