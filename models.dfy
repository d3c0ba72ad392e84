/**
 * The data model shared by the store and its callers: the `Anime` record
 * supplied by the catalog, the `Collection` record kept by the store, and the
 * list and dictionary operations that both sides use on them.
 */
module Models {
  import opened Wrappers

  datatype AnimeTitle = AnimeTitle(native: string, romaji: string, english: Option<string>)

  datatype CoverImage = CoverImage(color: string, medium: string, large: string, extraLarge: string)

  /** An anime as the catalog returns it; the store only ever looks at `id`. */
  datatype Anime = Anime(
    id: int,
    title: AnimeTitle,
    description: string,
    coverImage: CoverImage,
    bannerImage: Option<string>,
    meanScore: int,
    seasonYear: int,
    season: string,
    genres: seq<string>,
    episodes: int,
    updatedAt: int)

  /** A named collection of animes; `createdAt` is a millisecond timestamp. */
  datatype Collection = Collection(id: int, name: string, animes: seq<Anime>, createdAt: int)

  function CollectionIds(s: seq<Collection>): seq<int> {
    seq(|s|, i requires 0 <= i < |s| => s[i].id)
  }

  function AnimeIds(s: seq<Anime>): seq<int> {
    seq(|s|, i requires 0 <= i < |s| => s[i].id)
  }

  predicate DistinctIds(s: seq<Collection>) {
    forall i, j :: 0 <= i < j < |s| ==> s[i].id != s[j].id
  }

  predicate DistinctAnimeIds(s: seq<Anime>) {
    forall i, j :: 0 <= i < j < |s| ==> s[i].id != s[j].id
  }

  /** `Array.prototype.indexOf` / `findIndex` on ids: the first position holding `id`, or -1. */
  function IndexOf(ids: seq<int>, id: int): (r: int)
    ensures -1 <= r < |ids|
    ensures r == -1 <==> id !in ids
    ensures r >= 0 ==> ids[r] == id && id !in ids[..r]
  {
    if ids == [] then -1
    else if ids[0] == id then 0
    else
      var k := IndexOf(ids[1..], id);
      assert k >= 0 ==> ids[..k + 1] == [ids[0]] + ids[1..][..k];
      if k == -1 then -1 else k + 1
  }

  /** `collections.filter((c) => c.id !== id)`. */
  function Without(s: seq<Collection>, id: int): (r: seq<Collection>)
    ensures forall c :: multiset(r)[c] == if c.id == id then 0 else multiset(s)[c]
    ensures forall i :: 0 <= i < |r| ==> r[i].id != id
    ensures |r| <= |s|
  {
    if s == [] then []
    else
      assert s == [s[0]] + s[1..];
      (if s[0].id != id then [s[0]] else []) + Without(s[1..], id)
  }

  /** `animes.filter((anime) => anime.id !== id)`. */
  function AnimesWithout(s: seq<Anime>, id: int): (r: seq<Anime>)
    ensures forall a :: multiset(r)[a] == if a.id == id then 0 else multiset(s)[a]
    ensures forall i :: 0 <= i < |r| ==> r[i].id != id
    ensures |r| <= |s|
  {
    if s == [] then []
    else
      assert s == [s[0]] + s[1..];
      (if s[0].id != id then [s[0]] else []) + AnimesWithout(s[1..], id)
  }

  /** The filter keeps the original order: it distributes over concatenation. */
  lemma {:induction false} WithoutConcat(a: seq<Collection>, b: seq<Collection>, id: int)
    ensures Without(a + b, id) == Without(a, id) + Without(b, id)
  {
    if a == [] {
      assert a + b == b;
    } else {
      assert (a + b)[1..] == a[1..] + b;
      WithoutConcat(a[1..], b, id);
    }
  }

  /** Removing animes keeps the remaining ones in their order: it distributes over concatenation. */
  lemma {:induction false} AnimesWithoutConcat(a: seq<Anime>, b: seq<Anime>, id: int)
    ensures AnimesWithout(a + b, id) == AnimesWithout(a, id) + AnimesWithout(b, id)
  {
    if a == [] {
      assert a + b == b;
    } else {
      assert (a + b)[1..] == a[1..] + b;
      AnimesWithoutConcat(a[1..], b, id);
    }
  }

  /** Filtering out an id that no entry carries gives back the same list. */
  lemma {:induction false} WithoutAbsent(s: seq<Collection>, id: int)
    requires forall i :: 0 <= i < |s| ==> s[i].id != id
    ensures Without(s, id) == s
  {
    if s != [] {
      WithoutAbsent(s[1..], id);
    }
  }

  lemma {:induction false} AnimesWithoutAbsent(s: seq<Anime>, id: int)
    requires forall i :: 0 <= i < |s| ==> s[i].id != id
    ensures AnimesWithout(s, id) == s
  {
    if s != [] {
      AnimesWithoutAbsent(s[1..], id);
    }
  }

  /** Filtering the same id out twice is the same as doing it once. */
  lemma WithoutIdempotent(s: seq<Collection>, id: int)
    ensures Without(Without(s, id), id) == Without(s, id)
  {
    WithoutAbsent(Without(s, id), id);
  }

  /**
   * `{ ...collection, animes: collection.animes.filter((anime) => anime.id !== animeId) }`:
   * the collection with every anime of that id removed and nothing else changed.
   */
  function WithoutAnime(collection: Collection, animeId: int): (r: Collection)
    ensures r.id == collection.id && r.name == collection.name && r.createdAt == collection.createdAt
    ensures forall i :: 0 <= i < |r.animes| ==> r.animes[i].id != animeId
    ensures forall a: Anime :: a.id != animeId ==> multiset(r.animes)[a] == multiset(collection.animes)[a]
    ensures r.animes == AnimesWithout(collection.animes, animeId)
  {
    collection.(animes := AnimesWithout(collection.animes, animeId))
  }

  /** Removing animes keeps the remaining ids distinct. */
  lemma {:induction false} AnimesWithoutDistinct(s: seq<Anime>, id: int)
    requires DistinctAnimeIds(s)
    ensures DistinctAnimeIds(AnimesWithout(s, id))
  {
    if s != [] {
      AnimesWithoutDistinct(s[1..], id);
      var rest := AnimesWithout(s[1..], id);
      forall i | 0 <= i < |rest|
        ensures rest[i].id != s[0].id
      {
        assert rest[i] in multiset(rest);
        assert rest[i] in s[1..];
      }
    }
  }

  /**
   * `keys`/`vals` list the entries of an integer-keyed dictionary, each key
   * exactly once, in some order (JavaScript's `Object.values`).
   */
  predicate Enumerates<V(==)>(keys: seq<int>, vals: seq<V>, m: map<int, V>) {
    && |keys| == |vals|
    && (forall i, j :: 0 <= i < j < |keys| ==> keys[i] != keys[j])
    && (forall i :: 0 <= i < |keys| ==> keys[i] in m && vals[i] == m[keys[i]])
    && (forall k :: k in m ==> k in keys)
  }

  /** `Object.values(m)`: the order is whatever the engine chooses, so it is left open here. */
  method ValuesOf<V(==)>(m: map<int, V>) returns (keys: seq<int>, vals: seq<V>)
    ensures Enumerates(keys, vals, m)
    ensures |vals| == |m|
  {
    var rest := m;
    keys, vals := [], [];
    while rest != map[]
      invariant forall k :: k in rest ==> k in m && rest[k] == m[k] && k !in keys
      invariant |keys| == |vals|
      invariant |keys| + |rest| == |m|
      invariant forall i, j :: 0 <= i < j < |keys| ==> keys[i] != keys[j]
      invariant forall i :: 0 <= i < |keys| ==> keys[i] in m && vals[i] == m[keys[i]]
      invariant forall k :: k in m ==> k in rest || k in keys
      decreases |rest|
    {
      assert !(forall k :: k in rest.Keys <==> k in {}) by {
        if forall k :: k in rest.Keys <==> k in {} {
          assert false;
        }
      }
      var k :| k in rest;
      keys, vals := keys + [k], vals + [rest[k]];
      rest := rest - {k};
    }
  }

  /** Every entry of a selection dictionary is stored under its own id, as `{ [anime.id]: anime }` does. */
  predicate AnimesKeyedById(m: map<int, Anime>) {
    forall k :: k in m ==> m[k].id == k
  }

  predicate CollectionsKeyedById(m: map<int, Collection>) {
    forall k :: k in m ==> m[k].id == k
  }

  /** The values of an id-keyed dictionary never repeat an anime id. */
  lemma EnumeratedAnimesDistinct(keys: seq<int>, vals: seq<Anime>, m: map<int, Anime>)
    requires AnimesKeyedById(m) && Enumerates(keys, vals, m)
    ensures DistinctAnimeIds(vals)
  {
  }

  lemma EnumeratedCollectionsDistinct(keys: seq<int>, vals: seq<Collection>, m: map<int, Collection>)
    requires CollectionsKeyedById(m) && Enumerates(keys, vals, m)
    ensures DistinctIds(vals)
  {
  }
}
