/**
 * Collection-name rules that the callers of the store enforce: the
 * case-insensitive uniqueness test (`name.toLowerCase()` compared against the
 * lower-cased names of the collections) and the input filter
 * `value.replace(/[^\w\s]/gi, '')` applied to every typed name.
 */
module Naming {
  import opened Models
  import P = CollectionProvider

  /** `toLowerCase` on one character, restricted to the ASCII letters. */
  function LowerChar(c: char): char {
    if 'A' <= c <= 'Z' then (c as int - 'A' as int + 'a' as int) as char else c
  }

  /** `toLowerCase` on a string (ASCII case folding). */
  function Lower(s: string): string {
    seq(|s|, i requires 0 <= i < |s| => LowerChar(s[i]))
  }

  /** Two names collide when they are equal after lower-casing. */
  predicate SameName(a: string, b: string) {
    Lower(a) == Lower(b)
  }

  function LoweredNames(cs: seq<Collection>): seq<string> {
    seq(|cs|, i requires 0 <= i < |cs| => Lower(cs[i].name))
  }

  /** `collections.map((c) => c.name.toLowerCase()).includes(name.toLowerCase())`. */
  function IsNameDuplicate(cs: seq<Collection>, name: string): (r: bool)
    ensures r <==> exists i :: 0 <= i < |cs| && SameName(cs[i].name, name)
  {
    var names := LoweredNames(cs);
    assert forall i :: 0 <= i < |cs| ==> names[i] == Lower(cs[i].name);
    Lower(name) in names
  }

  /** Each entry kept by the filter sits somewhere in the original list. */
  lemma KeptFrom(cs: seq<Collection>, id: int, j: int) returns (i: int)
    requires 0 <= j < |Without(cs, id)|
    ensures 0 <= i < |cs| && cs[i] == Without(cs, id)[j]
  {
    var others := Without(cs, id);
    assert others[j] in multiset(others);
    assert others[j] in multiset(cs);
    i :| 0 <= i < |cs| && cs[i] == others[j];
  }

  /** Each entry of another id is kept by the filter. */
  lemma KeptAt(cs: seq<Collection>, id: int, i: int) returns (j: int)
    requires 0 <= i < |cs| && cs[i].id != id
    ensures 0 <= j < |Without(cs, id)| && Without(cs, id)[j] == cs[i]
  {
    var others := Without(cs, id);
    assert cs[i] in multiset(cs);
    assert cs[i] in multiset(others);
    j :| 0 <= j < |others| && others[j] == cs[i];
  }

  /**
   * The rename test: the same comparison against every collection except the
   * one whose id the edited collection carries.
   */
  function IsRenameDuplicate(cs: seq<Collection>, edited: Collection): (r: bool)
    ensures r <==> exists i :: 0 <= i < |cs| && cs[i].id != edited.id && SameName(cs[i].name, edited.name)
  {
    var others := Without(cs, edited.id);
    var r := IsNameDuplicate(others, edited.name);
    assert r ==> exists i :: 0 <= i < |cs| && cs[i].id != edited.id && SameName(cs[i].name, edited.name) by {
      if r {
        var j :| 0 <= j < |others| && SameName(others[j].name, edited.name);
        var i := KeptFrom(cs, edited.id, j);
        assert cs[i].id != edited.id && SameName(cs[i].name, edited.name);
      }
    }
    assert (exists i :: 0 <= i < |cs| && cs[i].id != edited.id && SameName(cs[i].name, edited.name)) ==> r by {
      if exists i :: 0 <= i < |cs| && cs[i].id != edited.id && SameName(cs[i].name, edited.name) {
        var i :| 0 <= i < |cs| && cs[i].id != edited.id && SameName(cs[i].name, edited.name);
        var j := KeptAt(cs, edited.id, i);
        assert SameName(others[j].name, edited.name);
      }
    }
    r
  }

  /** No two collections carry the same name up to case. */
  predicate NamesUnique(cs: seq<Collection>) {
    forall i, j :: 0 <= i < j < |cs| ==> !SameName(cs[i].name, cs[j].name)
  }

  /** Renaming a collection to its own name, in any letter case, is never rejected as a duplicate. */
  lemma OwnNameAccepted(cs: seq<Collection>, k: int, edited: Collection)
    requires NamesUnique(cs)
    requires 0 <= k < |cs| && edited.id == cs[k].id && SameName(edited.name, cs[k].name)
    ensures !IsRenameDuplicate(cs, edited)
  {
    forall i | 0 <= i < |cs| && cs[i].id != edited.id
      ensures !SameName(cs[i].name, edited.name)
    {
      assert i != k;
      if i < k {
        assert !SameName(cs[i].name, cs[k].name);
      } else {
        assert !SameName(cs[k].name, cs[i].name);
      }
    }
  }

  /** A CREATE that passed the duplicate test keeps names unique. */
  lemma CreateKeepsNamesUnique(snap: P.Snapshot, name: string, animes: seq<Anime>, now: int)
    requires P.WellTyped(snap.storage) && NamesUnique(snap.state) && !IsNameDuplicate(snap.state, name)
    ensures NamesUnique(P.Reduce(snap, P.CreateCollection(name, animes), now).state)
  {
    var r := P.Reduce(snap, P.CreateCollection(name, animes), now).state;
    P.CreatePrepends(snap, name, animes, now);
    forall i, j | 0 <= i < j < |r|
      ensures !SameName(r[i].name, r[j].name)
    {
      assert r[j] == snap.state[j - 1];
      if i > 0 {
        assert r[i] == snap.state[i - 1];
      }
    }
  }

  /** An UPDATE that passed the rename test keeps names unique, given distinct ids. */
  lemma RenameKeepsNamesUnique(s: seq<Collection>, edited: Collection)
    requires DistinctIds(s) && NamesUnique(s) && !IsRenameDuplicate(s, edited)
    ensures NamesUnique(P.Updated(s, edited))
  {
    var r := P.Updated(s, edited);
    forall i, j | 0 <= i < j < |r|
      ensures !SameName(r[i].name, r[j].name)
    {
      if s[i].id == edited.id {
        assert s[j].id != edited.id;
      } else if s[j].id == edited.id {
        assert s[i].id != edited.id;
      }
    }
  }

  /**
   * An ADD whose targets are entries of the list keeps every name where it was:
   * a merged entry takes the name of the target, which is the entry itself.
   */
  lemma AddKeepsNames(s: seq<Collection>, animes: seq<Anime>, ts: seq<Collection>)
    requires DistinctIds(s) && forall j :: 0 <= j < |ts| ==> ts[j] in s
    ensures var r := P.AddedInto(s, animes, ts);
      forall i :: 0 <= i < |r| ==> r[i].name == s[i].name
  {
    var r := P.AddedInto(s, animes, ts);
    forall i | 0 <= i < |r|
      ensures r[i].name == s[i].name
    {
      P.AddedIntoAt(s, animes, ts, i);
      match P.LastWithId(ts, s[i].id)
      case None =>
      case Some(t) =>
        var k :| 0 <= k < |s| && s[k] == t;
        assert k == i;
    }
  }

  /** So such an ADD keeps names unique. */
  lemma AddKeepsNamesUnique(s: seq<Collection>, animes: seq<Anime>, ts: seq<Collection>)
    requires DistinctIds(s) && NamesUnique(s) && forall j :: 0 <= j < |ts| ==> ts[j] in s
    ensures NamesUnique(P.AddedInto(s, animes, ts))
  {
    AddKeepsNames(s, animes, ts);
  }

  /** `\w` without the `u` flag: the ASCII letters, the digits and the underscore. */
  predicate IsWordChar(c: char) {
    ('A' <= c <= 'Z') || ('a' <= c <= 'z') || ('0' <= c <= '9') || c == '_'
  }

  /** `\s`: the ECMAScript WhiteSpace and LineTerminator code points. */
  predicate IsSpaceChar(c: char) {
    || c == '\t' || c == '\n' || c == '\U{000B}' || c == '\U{000C}' || c == '\r' || c == ' '
    || c == '\U{00A0}' || c == '\U{1680}' || ('\U{2000}' <= c <= '\U{200A}')
    || c == '\U{2028}' || c == '\U{2029}' || c == '\U{202F}' || c == '\U{205F}'
    || c == '\U{3000}' || c == '\U{FEFF}'
  }

  /** A character the name filter lets through. */
  predicate IsNameChar(c: char) {
    IsWordChar(c) || IsSpaceChar(c)
  }

  /** `s.replace(/[^\w\s]/gi, '')`: drop every character that is neither a word character nor white space. */
  function Sanitize(s: string): (r: string)
    ensures forall i :: 0 <= i < |r| ==> IsNameChar(r[i])
    ensures forall c :: multiset(r)[c] == if IsNameChar(c) then multiset(s)[c] else 0
    ensures |r| <= |s|
  {
    if s == [] then []
    else
      assert s == [s[0]] + s[1..];
      (if IsNameChar(s[0]) then [s[0]] else []) + Sanitize(s[1..])
  }

  /** The filter keeps the surviving characters in their original order. */
  lemma {:induction false} SanitizeConcat(a: string, b: string)
    ensures Sanitize(a + b) == Sanitize(a) + Sanitize(b)
  {
    if a == [] {
      assert a + b == b;
    } else {
      assert (a + b)[1..] == a[1..] + b;
      SanitizeConcat(a[1..], b);
    }
  }

  /** A name made only of allowed characters passes through unchanged. */
  lemma {:induction false} SanitizeKeepsClean(s: string)
    requires forall i :: 0 <= i < |s| ==> IsNameChar(s[i])
    ensures Sanitize(s) == s
  {
    if s != [] {
      SanitizeKeepsClean(s[1..]);
    }
  }

  /** Filtering a name a second time changes nothing. */
  lemma SanitizeIdempotent(s: string)
    ensures Sanitize(Sanitize(s)) == Sanitize(s)
  {
    SanitizeKeepsClean(Sanitize(s));
  }
}
