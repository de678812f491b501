/**
 * Tag resolve-or-create and link reconciliation: `createIdeaTags`,
 * `linkIdeaTags` and `syncIdeaTags`, and the copies of their loops that the
 * topic handlers carry inline. Which join table is written is the `Owner`.
 *
 * Each name in a tag list is trimmed; a blank one is skipped; otherwise the
 * tag whose name equals it under LOWER is reused, or a tag is created with the
 * trimmed name in its original case under the next new id.
 */
module Tags {
  import opened Wrappers
  import opened Text
  import opened Schema
  import opened Store

  /** The set of ids in a list. */
  function Elems(ids: seq<Id>): set<Id> {
    set k | k in ids
  }

  /** A list without repeats has as many ids as elements. */
  lemma {:induction false} ElemsCard(ids: seq<Id>)
    requires forall i, j :: 0 <= i < j < |ids| ==> ids[i] != ids[j]
    ensures |Elems(ids)| == |ids|
  {
    if ids != [] {
      var n := |ids| - 1;
      ElemsCard(ids[..n]);
      assert Elems(ids) == Elems(ids[..n]) + {ids[n]};
      assert ids[n] !in Elems(ids[..n]);
    }
  }

  /** The names a tag list contributes, in input order: trimmed, blank ones dropped. */
  function Kept(names: seq<string>): (r: seq<string>)
    ensures |r| <= |names|
  {
    if names == [] then []
    else
      var last := names[|names| - 1];
      if Trim(last) == [] then Kept(names[..|names| - 1]) else Kept(names[..|names| - 1]) + [Trim(last)]
  }

  /** Every kept name is non-blank and already trimmed. */
  lemma {:induction false} KeptTrimmed(names: seq<string>)
    ensures forall j :: 0 <= j < |Kept(names)| ==> Kept(names)[j] != [] && Trim(Kept(names)[j]) == Kept(names)[j]
  {
    if names != [] {
      var n := |names| - 1;
      KeptTrimmed(names[..n]);
      TrimIdempotent(names[n]);
    }
  }

  /** The tag `SELECT id FROM tags WHERE LOWER(name) = LOWER(?)` finds, if any. */
  ghost function Match(tags: map<Id, string>, name: string): (r: Option<Id>)
    ensures r.Some? ==> r.value in tags && Lower(tags[r.value]) == Lower(name)
    ensures r.None? ==> TagNameFree(tags, name)
  {
    if exists k :: k in tags && Lower(tags[k]) == Lower(name) then
      var k :| k in tags && Lower(tags[k]) == Lower(name);
      Some(k)
    else None
  }

  /** Under the NOCASE uniqueness of names, a tag with the name is the match. */
  lemma MatchUnique(tags: map<Id, string>, name: string, k: Id)
    requires UniqueTagNames(tags) && k in tags && Lower(tags[k]) == Lower(name)
    ensures Match(tags, name) == Some(k)
  {
  }

  /** Ids for the tags a list may create, one per input position (what
      `crypto.randomUUID()` yields there): pairwise distinct and not in use. */
  predicate NewIdsFree(tags: map<Id, string>, newIds: seq<Id>) {
    && (forall i, j :: 0 <= i < j < |newIds| ==> newIds[i] != newIds[j])
    && (forall i :: 0 <= i < |newIds| ==> newIds[i] !in tags)
  }

  datatype Resolution = Resolution(tags: map<Id, string>, ids: seq<Id>)

  /** One turn of the resolve loop. */
  ghost function ResolveOne(prev: Resolution, name: string, id: Id): Resolution {
    var n := Trim(name);
    if n == [] then prev
    else
      match Match(prev.tags, n)
      case Some(k) => Resolution(prev.tags, prev.ids + [k])
      case None => Resolution(PutTag(prev.tags, id, n), prev.ids + [id])
  }

  /** The tags table and the id list after the resolve loop has run over `names`. */
  ghost function Resolve(tags: map<Id, string>, names: seq<string>, newIds: seq<Id>): (r: Resolution)
    requires |newIds| == |names|
    ensures |r.ids| == |Kept(names)|
    decreases |names|
  {
    if names == [] then Resolution(tags, [])
    else
      var n := |names| - 1;
      ResolveOne(Resolve(tags, names[..n], newIds[..n]), names[n], newIds[n])
  }

  lemma ResolvePrefix(tags: map<Id, string>, names: seq<string>, newIds: seq<Id>, i: nat)
    requires |newIds| == |names| && i < |names|
    ensures Resolve(tags, names[..i + 1], newIds[..i + 1])
         == ResolveOne(Resolve(tags, names[..i], newIds[..i]), names[i], newIds[i])
  {
    assert names[..i + 1][..i] == names[..i] && newIds[..i + 1][..i] == newIds[..i];
  }

  /** One resolve turn adds at most the tag under its own id, and only when it
      also returns that id; names stay unique and no tag changes. */
  lemma ResolveOneTags(prev: Resolution, name: string, id: Id)
    requires UniqueTagNames(prev.tags)
    ensures var r := ResolveOne(prev, name, id);
      && UniqueTagNames(r.tags)
      && (forall k :: k in prev.tags ==> k in r.tags && r.tags[k] == prev.tags[k])
      && r.tags.Keys <= prev.tags.Keys + {id}
      && (forall k :: k in r.tags && k !in prev.tags ==> k in r.ids)
      && (forall k :: k in prev.ids ==> k in r.ids)
  {
  }

  /** What resolving does to the tags table: names stay unique under NOCASE, no
      tag is removed or renamed, and every created tag is under one of the new
      ids and among the returned ones. */
  lemma {:induction false} ResolveTags(tags: map<Id, string>, names: seq<string>, newIds: seq<Id>)
    requires |newIds| == |names| && UniqueTagNames(tags)
    ensures var r := Resolve(tags, names, newIds);
      && UniqueTagNames(r.tags)
      && (forall k :: k in tags ==> k in r.tags && r.tags[k] == tags[k])
      && r.tags.Keys <= tags.Keys + Elems(newIds)
      && (forall k :: k in r.tags && k !in tags ==> k in r.ids)
  {
    if names != [] {
      var n := |names| - 1;
      ResolveTags(tags, names[..n], newIds[..n]);
      var prev := Resolve(tags, names[..n], newIds[..n]);
      ResolveOneTags(prev, names[n], newIds[n]);
      assert newIds == newIds[..n] + [newIds[n]];
      ElemsSnoc(newIds[..n], newIds[n]);
    }
  }

  /** One resolve turn returns nothing for a blank name and otherwise one id,
      naming a tag whose name equals the trimmed name under LOWER; a tag it
      creates carries that trimmed name and is the id it returns. */
  lemma ResolveOneIds(prev: Resolution, name: string, id: Id)
    requires UniqueTagNames(prev.tags)
    ensures var r := ResolveOne(prev, name, id);
      && (Trim(name) == [] ==> r == prev)
      && (Trim(name) != [] ==> |r.ids| == |prev.ids| + 1 && r.ids[..|prev.ids|] == prev.ids)
      && (Trim(name) != [] && id !in prev.tags ==>
            r.ids[|prev.ids|] in r.tags && Lower(r.tags[r.ids[|prev.ids|]]) == Lower(Trim(name)))
      && (forall k :: k in r.tags && k !in prev.tags ==> r.ids == prev.ids + [k] && r.tags[k] == Trim(name))
  {
  }

  /** What resolving returns: one id per non-blank name, in order, each naming
      a tag whose name equals that name under LOWER. */
  lemma {:induction false} ResolveIds(tags: map<Id, string>, names: seq<string>, newIds: seq<Id>)
    requires |newIds| == |names| && UniqueTagNames(tags) && NewIdsFree(tags, newIds)
    ensures var r := Resolve(tags, names, newIds);
      && (forall j :: 0 <= j < |r.ids| ==> r.ids[j] in r.tags)
      && (forall j :: 0 <= j < |r.ids| ==> Lower(r.tags[r.ids[j]]) == Lower(Kept(names)[j]))
  {
    if names != [] {
      var n := |names| - 1;
      assert NewIdsFree(tags, newIds[..n]);
      ResolveIds(tags, names[..n], newIds[..n]);
      ResolveTags(tags, names[..n], newIds[..n]);
      var prev := Resolve(tags, names[..n], newIds[..n]);
      assert newIds[n] !in Elems(newIds[..n]);
      assert newIds[n] !in prev.tags;
      ResolveOneTags(prev, names[n], newIds[n]);
      ResolveOneIds(prev, names[n], newIds[n]);
      var r := Resolve(tags, names, newIds);
      forall j | 0 <= j < |r.ids|
        ensures r.ids[j] in r.tags && Lower(r.tags[r.ids[j]]) == Lower(Kept(names)[j])
      {
        if j < |prev.ids| {
          assert r.ids[j] == r.ids[..|prev.ids|][j] == prev.ids[j];
        }
      }
    }
  }

  /** Every created tag carries the name, trimmed and in its original case, of
      the first position that resolved to it. */
  lemma {:induction false} ResolveNewNames(tags: map<Id, string>, names: seq<string>, newIds: seq<Id>)
    requires |newIds| == |names| && UniqueTagNames(tags)
    ensures var r := Resolve(tags, names, newIds);
      forall k :: k in r.tags && k !in tags ==>
        exists j :: 0 <= j < |r.ids| && r.ids[j] == k && r.tags[k] == Kept(names)[j]
  {
    if names != [] {
      var n := |names| - 1;
      ResolveNewNames(tags, names[..n], newIds[..n]);
      ResolveTags(tags, names[..n], newIds[..n]);
      var prev := Resolve(tags, names[..n], newIds[..n]);
      ResolveOneTags(prev, names[n], newIds[n]);
      ResolveOneIds(prev, names[n], newIds[n]);
      var r := Resolve(tags, names, newIds);
      assert Kept(names)[..|prev.ids|] == Kept(names[..n]);
      assert forall j :: 0 <= j < |prev.ids| ==> r.ids[j] == prev.ids[j] && Kept(names)[j] == Kept(names[..n])[j];
      forall k | k in r.tags && k !in tags
        ensures exists j :: 0 <= j < |r.ids| && r.ids[j] == k && r.tags[k] == Kept(names)[j]
      {
        if k !in prev.tags {
          assert r.ids[|prev.ids|] == k;
        }
      }
    }
  }

  /** A name that matches an existing tag under LOWER gets that tag's id: the
      tag is reused, not duplicated. */
  lemma ResolveReusesExisting(tags: map<Id, string>, names: seq<string>, newIds: seq<Id>, j: nat, k: Id)
    requires |newIds| == |names| && UniqueTagNames(tags) && NewIdsFree(tags, newIds)
    requires j < |Kept(names)| && k in tags && Lower(tags[k]) == Lower(Kept(names)[j])
    ensures Resolve(tags, names, newIds).ids[j] == k
  {
    ResolveTags(tags, names, newIds);
    ResolveIds(tags, names, newIds);
  }

  /** Two names equal under LOWER, in any positions, get the same id. */
  lemma ResolveRepeatsSameId(tags: map<Id, string>, names: seq<string>, newIds: seq<Id>, i: nat, j: nat)
    requires |newIds| == |names| && UniqueTagNames(tags) && NewIdsFree(tags, newIds)
    requires i < |Kept(names)| && j < |Kept(names)| && Lower(Kept(names)[i]) == Lower(Kept(names)[j])
    ensures Resolve(tags, names, newIds).ids[i] == Resolve(tags, names, newIds).ids[j]
  {
    ResolveTags(tags, names, newIds);
    ResolveIds(tags, names, newIds);
  }

  /** A name that matches no existing tag yields a newly created tag, and just
      one: every tag then holding that name under LOWER is that one. */
  lemma ResolveCreatesOne(tags: map<Id, string>, names: seq<string>, newIds: seq<Id>, j: nat)
    requires |newIds| == |names| && UniqueTagNames(tags) && NewIdsFree(tags, newIds)
    requires j < |Kept(names)| && TagNameFree(tags, Kept(names)[j])
    ensures var r := Resolve(tags, names, newIds);
      && r.ids[j] !in tags && r.ids[j] in r.tags
      && (forall k :: k in r.tags && Lower(r.tags[k]) == Lower(Kept(names)[j]) ==> k == r.ids[j])
  {
    ResolveTags(tags, names, newIds);
    ResolveIds(tags, names, newIds);
  }

  /** A list with nothing but blank names changes nothing and yields no id. */
  lemma {:induction false} ResolveBlank(tags: map<Id, string>, names: seq<string>, newIds: seq<Id>)
    requires |newIds| == |names| && forall i :: 0 <= i < |names| ==> IsBlank(names[i])
    ensures Resolve(tags, names, newIds) == Resolution(tags, [])
  {
    if names != [] {
      var n := |names| - 1;
      ResolveBlank(tags, names[..n], newIds[..n]);
    }
  }

  // ---------------------------------------------------------------- table level

  datatype TagStep = TagStep(tables: Tables, ids: seq<Id>)

  /** The resolve loop followed by linking, as `syncIdeaTags`'s first loop and
      the one of PUT /api/topics/:id do it (link right after each resolve). */
  ghost function ResolveAndLink(t: Tables, o: Owner, names: seq<string>, newIds: seq<Id>): TagStep
    requires |newIds| == |names|
  {
    var r := Resolve(t.tags, names, newIds);
    TagStep(Linked(t.(tags := r.tags), o, Elems(r.ids)), r.ids)
  }

  /** `syncIdeaTags` and its topic copy: resolve and link every name, then unlink
      each previously linked tag the new list does not name. */
  ghost function Sync(t: Tables, o: Owner, names: seq<string>, newIds: seq<Id>): TagStep
    requires |newIds| == |names|
  {
    var s := ResolveAndLink(t, o, names, newIds);
    TagStep(Unlinked(s.tables, o, LinksOf(t, o) - Elems(s.ids)), s.ids)
  }

  /** Resolving adds tags without breaking the schema's constraints. */
  lemma ResolvePreservesConsistent(t: Tables, names: seq<string>, newIds: seq<Id>)
    requires Consistent(t) && |newIds| == |names|
    ensures Consistent(t.(tags := Resolve(t.tags, names, newIds).tags))
  {
    ResolveTags(t.tags, names, newIds);
  }

  /** Resolving and linking keeps the schema's constraints: every linked tag
      exists and names stay unique. */
  lemma ResolveAndLinkConsistent(t: Tables, o: Owner, names: seq<string>, newIds: seq<Id>)
    requires Consistent(t) && OwnerExists(t, o) && |newIds| == |names| && NewIdsFree(t.tags, newIds)
    ensures Consistent(ResolveAndLink(t, o, names, newIds).tables)
  {
    var r := Resolve(t.tags, names, newIds);
    var t1 := t.(tags := r.tags);
    assert Consistent(t1) by {
      ResolvePreservesConsistent(t, names, newIds);
    }
    assert Elems(r.ids) <= t1.tags.Keys by {
      ResolveIds(t.tags, names, newIds);
      forall k | k in Elems(r.ids) ensures k in r.tags {
        var j :| 0 <= j < |r.ids| && r.ids[j] == k;
      }
    }
    LinkedPreservesConsistent(t1, o, Elems(r.ids));
  }

  /** After a sync the owner is linked to exactly the returned ids: new ones
      linked, stale ones unlinked. Other owners' links, the topics, ideas and
      feedback are untouched, and no tag row is deleted or renamed. */
  lemma SyncSpec(t: Tables, o: Owner, names: seq<string>, newIds: seq<Id>)
    requires Consistent(t) && OwnerExists(t, o) && |newIds| == |names| && NewIdsFree(t.tags, newIds)
    ensures var s := Sync(t, o, names, newIds);
      && Consistent(s.tables)
      && LinksOf(s.tables, o) == Elems(s.ids)
      && (forall p :: p != o ==> LinksOf(s.tables, p) == LinksOf(t, p))
      && s.tables.topics == t.topics && s.tables.ideas == t.ideas && s.tables.feedback == t.feedback
      && (forall k :: k in t.tags ==> k in s.tables.tags && s.tables.tags[k] == t.tags[k])
  {
    var r := Resolve(t.tags, names, newIds);
    LinkedLinks(t.(tags := r.tags), o, Elems(r.ids));
    UnlinkedLinks(ResolveAndLink(t, o, names, newIds).tables, o, LinksOf(t, o) - Elems(r.ids));
    ResolveAndLinkConsistent(t, o, names, newIds);
    UnlinkedPreservesConsistent(ResolveAndLink(t, o, names, newIds).tables, o, LinksOf(t, o) - Elems(Resolve(t.tags, names, newIds).ids));
    ResolveTags(t.tags, names, newIds);
  }

  // ---------------------------------------------------------------- the loops

  /** A resolve turn whose lookup found tag `k`. */
  lemma ResolveOneFound(prev: Resolution, name: string, id: Id, k: Id)
    requires UniqueTagNames(prev.tags) && Trim(name) != []
    requires k in prev.tags && Lower(prev.tags[k]) == Lower(Trim(name))
    ensures ResolveOne(prev, name, id) == Resolution(prev.tags, prev.ids + [k])
  {
    MatchUnique(prev.tags, Trim(name), k);
  }

  /** The body of every resolve loop: trim the name, skip it when blank,
      otherwise look it up under LOWER and create it under `newId` when no tag
      has it. Returns the id the name resolved to. */
  method ResolveName(db: Database, name: string, newId: Id, ghost r: Resolution) returns (found: Option<Id>)
    requires UniqueTagNames(db.tags) && db.tags == r.tags
    modifies db
    ensures ResolveOne(r, name, newId) == Resolution(db.tags, r.ids + if found.Some? then [found.value] else [])
    ensures found.Some? <==> Trim(name) != []
    ensures db.State() == old(db.State()).(tags := db.tags)
    ensures UniqueTagNames(db.tags)
    ensures found.Some? ==> found.value in db.tags
    ensures db.tags.Keys <= old(db.tags).Keys + {newId}
  {
    var n := Trim(name);
    if n == [] {
      return None;
    }
    var k := db.FindTagId(n);
    match k
    case Some(id) =>
      ResolveOneFound(r, name, newId, id);
      found := Some(id);
    case None =>
      ResolveOneFree(r, name, newId);
      db.InsertOrIgnoreTag(newId, n);
      found := Some(newId);
  }

  /** `createIdeaTags`, and the first loop of POST /api/topics and POST /api/ideas:
      resolve every name, creating tags as needed, and link nothing. */
  method CreateTags(db: Database, names: seq<string>, newIds: seq<Id>) returns (ids: seq<Id>)
    requires |newIds| == |names| && UniqueTagNames(db.tags)
    modifies db
    ensures var r := Resolve(old(db.tags), names, newIds);
      db.State() == old(db.State()).(tags := r.tags) && ids == r.ids
  {
    ids := [];
    if |names| == 0 {
      return;
    }
    ghost var t0 := db.State();
    ghost var r := Resolution(db.tags, []);
    var i := 0;
    while i < |names|
      invariant 0 <= i <= |names|
      invariant r == Resolve(t0.tags, names[..i], newIds[..i])
      invariant db.State() == t0.(tags := r.tags) && ids == r.ids
      invariant UniqueTagNames(db.tags)
    {
      ResolvePrefix(t0.tags, names, newIds, i);
      var found := ResolveName(db, names[i], newIds[i], r);
      if found.Some? {
        ids := ids + [found.value];
      }
      r := ResolveOne(r, names[i], newIds[i]);
      i := i + 1;
    }
    assert names[..i] == names && newIds[..i] == newIds;
  }

  lemma LinkedTwice(t: Tables, o: Owner, a: set<Id>, b: set<Id>)
    ensures Linked(Linked(t, o, a), o, b) == Linked(t, o, a + b)
  {
    assert forall x :: Pairs(x, a) + Pairs(x, b) == Pairs(x, a + b);
  }

  lemma UnlinkedTwice(t: Tables, o: Owner, a: set<Id>, b: set<Id>)
    ensures Unlinked(Unlinked(t, o, a), o, b) == Unlinked(t, o, a + b)
  {
    assert forall x :: Pairs(x, a) + Pairs(x, b) == Pairs(x, a + b);
  }

  lemma ElemsSnoc(ids: seq<Id>, k: Id)
    ensures Elems(ids + [k]) == Elems(ids) + {k}
  {
  }

  /** `linkIdeaTags`, and the link loop of POST /api/topics and POST /api/ideas. */
  method LinkTags(db: Database, o: Owner, ids: seq<Id>)
    requires OwnerExists(db.State(), o) && forall j :: 0 <= j < |ids| ==> ids[j] in db.tags
    modifies db
    ensures db.State() == Linked(old(db.State()), o, Elems(ids))
  {
    ghost var t0 := db.State();
    if |ids| == 0 {
      assert Elems(ids) == {};
      assert Linked(t0, o, {}) == t0 by {
        assert forall x :: Pairs(x, {}) == {};
      }
      return;
    }
    var i := 0;
    while i < |ids|
      invariant 0 <= i <= |ids|
      invariant db.State() == Linked(t0, o, Elems(ids[..i]))
    {
      LinkedTwice(t0, o, Elems(ids[..i]), {ids[i]});
      assert ids[..i + 1] == ids[..i] + [ids[i]];
      ElemsSnoc(ids[..i], ids[i]);
      db.AddLink(o, ids[i]);
      i := i + 1;
    }
    assert ids[..i] == ids;
  }

  /** A resolve turn whose lookup found nothing. */
  lemma ResolveOneFree(prev: Resolution, name: string, id: Id)
    requires Trim(name) != [] && TagNameFree(prev.tags, Trim(name))
    ensures ResolveOne(prev, name, id) == Resolution(PutTag(prev.tags, id, Trim(name)), prev.ids + [id])
  {
  }

  /** Replacing the tags table commutes with linking. */
  lemma LinkedRetag(t: Tables, o: Owner, tagIds: set<Id>, tags: map<Id, string>)
    ensures Linked(t, o, tagIds).(tags := tags) == Linked(t.(tags := tags), o, tagIds)
  {
  }

  /** One turn of the resolve-and-link loop, on values: the tags table of the
      turn's resolution, then one more link. */
  lemma ResolveAndLinkStep(t0: Tables, o: Owner, r: Resolution, r': Resolution, link: Id)
    requires r'.ids == r.ids + [link]
    ensures Linked(Linked(t0.(tags := r.tags), o, Elems(r.ids)).(tags := r'.tags), o, {link})
         == Linked(t0.(tags := r'.tags), o, Elems(r'.ids))
  {
    LinkedRetag(t0.(tags := r.tags), o, Elems(r.ids), r'.tags);
    assert t0.(tags := r.tags).(tags := r'.tags) == t0.(tags := r'.tags);
    LinkedTwice(t0.(tags := r'.tags), o, Elems(r.ids), {link});
    ElemsSnoc(r.ids, link);
  }

  /** The owner's links and the tags table once the resolve-and-link loop has
      handled the first `i` names. */
  ghost function LinkedPrefix(t0: Tables, o: Owner, names: seq<string>, newIds: seq<Id>, i: nat): Tables
    requires |newIds| == |names| && i <= |names|
  {
    var r := Resolve(t0.tags, names[..i], newIds[..i]);
    Linked(t0.(tags := r.tags), o, Elems(r.ids))
  }

  /** One turn of the first loop of `syncIdeaTags`: resolve a name, then link
      the owner to its tag. */
  method ResolveAndLinkName(db: Database, o: Owner, names: seq<string>, newIds: seq<Id>, i: nat, ghost t0: Tables)
    returns (found: Option<Id>)
    requires |newIds| == |names| && i < |names|
    requires db.State() == LinkedPrefix(t0, o, names, newIds, i)
    requires UniqueTagNames(db.tags) && OwnerExists(db.State(), o) && newIds[i] !in db.tags
    modifies db
    ensures db.State() == LinkedPrefix(t0, o, names, newIds, i + 1)
    ensures Resolve(t0.tags, names[..i + 1], newIds[..i + 1]).ids
         == Resolve(t0.tags, names[..i], newIds[..i]).ids + if found.Some? then [found.value] else []
    ensures UniqueTagNames(db.tags) && OwnerExists(db.State(), o)
    ensures db.tags.Keys <= old(db.tags).Keys + {newIds[i]}
  {
    ResolvePrefix(t0.tags, names, newIds, i);
    ghost var r := Resolve(t0.tags, names[..i], newIds[..i]);
    ghost var r' := ResolveOne(r, names[i], newIds[i]);
    found := ResolveName(db, names[i], newIds[i], r);
    if found.Some? {
      ResolveAndLinkStep(t0, o, r, r', found.value);
      db.AddLink(o, found.value);
    }
  }

  /** The first loop of `syncIdeaTags` (and of PUT /api/topics/:id): resolve
      each name and link its tag at once. */
  method ResolveAndLinkTags(db: Database, o: Owner, names: seq<string>, newIds: seq<Id>) returns (ids: seq<Id>)
    requires |newIds| == |names| && UniqueTagNames(db.tags) && NewIdsFree(db.tags, newIds)
    requires OwnerExists(db.State(), o)
    modifies db
    ensures var s := ResolveAndLink(old(db.State()), o, names, newIds);
      db.State() == s.tables && ids == s.ids
  {
    ghost var t0 := db.State();
    LinkedPrefixEnds(t0, o, names, newIds);
    ids := [];
    for i := 0 to |names|
      invariant ids == Resolve(t0.tags, names[..i], newIds[..i]).ids
      invariant db.State() == LinkedPrefix(t0, o, names, newIds, i)
      invariant UniqueTagNames(db.tags) && OwnerExists(db.State(), o)
      invariant forall j :: i <= j < |newIds| ==> newIds[j] !in db.tags
    {
      ghost var before := db.tags.Keys;
      var found := ResolveAndLinkName(db, o, names, newIds, i, t0);
      RestStillFree(before, db.tags.Keys, newIds, i);
      if found.Some? {
        ids := ids + [found.value];
      }
    }
  }

  /** Before the first turn nothing is linked; after the last, the loop has
      done what `ResolveAndLink` says. */
  lemma LinkedPrefixEnds(t0: Tables, o: Owner, names: seq<string>, newIds: seq<Id>)
    requires |newIds| == |names|
    ensures LinkedPrefix(t0, o, names, newIds, 0) == t0
    ensures LinkedPrefix(t0, o, names, newIds, |names|) == ResolveAndLink(t0, o, names, newIds).tables
    ensures Resolve(t0.tags, names[..|names|], newIds[..|names|]).ids == ResolveAndLink(t0, o, names, newIds).ids
  {
    assert forall x :: Pairs(x, {}) == {};
    assert Elems([]) == {};
    assert names[..|names|] == names && newIds[..|names|] == newIds;
  }

  /** The ids the remaining turns may create are still unused after a turn
      that could only have taken its own. */
  lemma RestStillFree(before: set<Id>, after: set<Id>, newIds: seq<Id>, i: nat)
    requires i < |newIds| && forall a, b :: 0 <= a < b < |newIds| ==> newIds[a] != newIds[b]
    requires forall j :: i <= j < |newIds| ==> newIds[j] !in before
    requires after <= before + {newIds[i]}
    ensures forall j :: i + 1 <= j < |newIds| ==> newIds[j] !in after
  {
  }

  /** One turn of the unlink loop, on values. */
  lemma UnlinkStep(t0: Tables, o: Owner, done: set<Id>, keep: set<Id>, k: Id)
    ensures k !in keep ==>
      Unlinked(Unlinked(t0, o, done - keep), o, {k}) == Unlinked(t0, o, (done + {k}) - keep)
    ensures k in keep ==> (done + {k}) - keep == done - keep
  {
    if k !in keep {
      UnlinkedTwice(t0, o, done - keep, {k});
      assert (done - keep) + {k} == (done + {k}) - keep;
    }
  }

  /** The second loop of `syncIdeaTags`: unlink every previously linked tag
      that the new list does not name. */
  method UnlinkStale(db: Database, o: Owner, existing: seq<Id>, keep: seq<Id>)
    modifies db
    ensures db.State() == Unlinked(old(db.State()), o, Elems(existing) - Elems(keep))
  {
    ghost var t0 := db.State();
    assert Unlinked(t0, o, {}) == t0 by {
      assert forall x :: Pairs(x, {}) == {};
    }
    for i := 0 to |existing|
      invariant db.State() == Unlinked(t0, o, Elems(existing[..i]) - Elems(keep))
    {
      var k := existing[i];
      assert existing[..i + 1] == existing[..i] + [k];
      ElemsSnoc(existing[..i], k);
      UnlinkStep(t0, o, Elems(existing[..i]), Elems(keep), k);
      if k !in keep {
        db.RemoveLink(o, k);
      }
    }
    assert existing[..|existing|] == existing;
  }

  /** `syncIdeaTags(db, ideaId, tags)` with `IdeaOwner(ideaId)`, and the tag
      block of PUT /api/topics/:id with `TopicOwner(topicId)`. */
  method SyncTags(db: Database, o: Owner, names: seq<string>, newIds: seq<Id>) returns (ids: seq<Id>)
    requires |newIds| == |names| && UniqueTagNames(db.tags) && NewIdsFree(db.tags, newIds)
    requires OwnerExists(db.State(), o)
    modifies db
    ensures var s := Sync(old(db.State()), o, names, newIds);
      db.State() == s.tables && ids == s.ids
  {
    var existing := db.SelectLinks(o);
    assert Elems(existing) == LinksOf(db.State(), o);
    ids := ResolveAndLinkTags(db, o, names, newIds);
    UnlinkStale(db, o, existing, ids);
  }
}
