/**
 * What every write handler does to the six tables, as a function of the old
 * tables and the request: the archive lifecycle (active, archived, purged)
 * of topics and ideas, and the create and update handlers that carry tag
 * lists. Each handler reads first, answers with an error and changes nothing
 * when a guard fails, and otherwise runs its statements in order.
 *
 * Generated ids (`crypto.randomUUID()`) and the clock (`new Date()`) are
 * parameters: `id` for the new row, `newIds` one candidate tag id per
 * submitted tag name, `now` one timestamp per request.
 */
module Lifecycle {
  import opened Wrappers
  import opened Text
  import opened Schema
  import opened Tags
  import opened Schemas
  import opened Auth

  /** The answers the handlers give (HTTP status and error text). */
  datatype Outcome =
    | Ok                                          // 200
    | NotFound(message: string)                   // 404
    | BadRequest(message: string)                 // 400
    | ParentArchived(topicId: Id, topicName: string) // 400 naming the archived parent topic
    | Unauthorized(message: string)               // 401
    | Failed(message: string)                     // 500: a statement raised

  /** A handler's answer and the tables after it. */
  datatype Step = Step(outcome: Outcome, tables: Tables)

  const TopicNotFound := "Topic not found"
  const IdeaNotFound := "Idea not found"

  predicate ActiveTopic(t: Tables, id: Id) {
    id in t.topics && !t.topics[id].archived
  }

  predicate ActiveIdea(t: Tables, id: Id) {
    id in t.ideas && !t.ideas[id].archived
  }

  // ---------------------------------------------------------------- archive

  /** DELETE /api/topics/:id: archive an active topic and every idea filed
      under it, with one timestamp. */
  function ArchiveTopic(t: Tables, id: Id, now: Timestamp): Step {
    if !ActiveTopic(t, id) then Step(NotFound(TopicNotFound), t)
    else Step(Ok, SetIdeasArchived(SetTopicArchived(t, id, true, now), id, true, now))
  }

  /** A missing or already archived topic is not found and nothing changes. */
  lemma ArchiveTopicGuard(t: Tables, id: Id, now: Timestamp)
    ensures ArchiveTopic(t, id, now).outcome == Ok <==> ActiveTopic(t, id)
    ensures !ActiveTopic(t, id) ==> ArchiveTopic(t, id, now) == Step(NotFound(TopicNotFound), t)
  {
  }

  /** Archiving flags the topic and each of its ideas with the same
      `updatedAt`, keeps every row (the idea count is unchanged), leaves other
      topics' ideas, the tags, the links and the feedback alone, and keeps the
      constraints. */
  lemma ArchiveTopicEffect(t: Tables, id: Id, now: Timestamp)
    requires Consistent(t) && ActiveTopic(t, id)
    ensures var r := ArchiveTopic(t, id, now).tables;
      && Consistent(r)
      && r.topics.Keys == t.topics.Keys && r.ideas.Keys == t.ideas.Keys
      && r.topics[id] == t.topics[id].(archived := true, updatedAt := now)
      && (forall k :: k in t.topics && k != id ==> r.topics[k] == t.topics[k])
      && (forall i :: i in t.ideas && t.ideas[i].topicId == id ==>
            r.ideas[i] == t.ideas[i].(archived := true, updatedAt := r.topics[id].updatedAt))
      && (forall i :: i in t.ideas && t.ideas[i].topicId != id ==> r.ideas[i] == t.ideas[i])
      && r.tags == t.tags && r.topicTags == t.topicTags && r.ideaTags == t.ideaTags && r.feedback == t.feedback
  {
    var t1 := SetTopicArchived(t, id, true, now);
    SetTopicArchivedPreservesConsistent(t, id, true, now);
    SetIdeasArchivedPreservesConsistent(t1, id, true, now);
  }

  /** DELETE /api/ideas/:id: archive one active idea. */
  function ArchiveIdea(t: Tables, id: Id, now: Timestamp): Step {
    if id !in t.ideas then Step(NotFound(IdeaNotFound), t)
    else if t.ideas[id].archived then Step(BadRequest("Idea is already archived"), t)
    else Step(Ok, SetIdeaArchived(t, id, true, now))
  }

  /** Missing is not found, archived is a bad request; neither changes anything. */
  lemma ArchiveIdeaGuard(t: Tables, id: Id, now: Timestamp)
    ensures ArchiveIdea(t, id, now).outcome == Ok <==> ActiveIdea(t, id)
    ensures id !in t.ideas ==> ArchiveIdea(t, id, now) == Step(NotFound(IdeaNotFound), t)
    ensures id in t.ideas && t.ideas[id].archived ==>
      ArchiveIdea(t, id, now) == Step(BadRequest("Idea is already archived"), t)
  {
  }

  /** Archiving an idea keeps its row with the flag set and a new `updatedAt`;
      its topic, its tag links, its feedback and every other idea stay as they
      were. */
  lemma ArchiveIdeaEffect(t: Tables, id: Id, now: Timestamp)
    requires Consistent(t) && ActiveIdea(t, id)
    ensures var r := ArchiveIdea(t, id, now).tables;
      && Consistent(r)
      && r.ideas.Keys == t.ideas.Keys
      && r.ideas[id] == t.ideas[id].(archived := true, updatedAt := now)
      && (forall i :: i in t.ideas && i != id ==> r.ideas[i] == t.ideas[i])
      && r.topics == t.topics && r.tags == t.tags && r.topicTags == t.topicTags
      && r.ideaTags == t.ideaTags && r.feedback == t.feedback
  {
    SetIdeaArchivedPreservesConsistent(t, id, true, now);
  }

  // ---------------------------------------------------------------- restore

  /** POST /api/archive/topics/:id/restore: reactivate an archived topic and
      every idea under it, whatever each idea's own flag was. */
  function RestoreTopic(t: Tables, id: Id, now: Timestamp): Step {
    if id !in t.topics then Step(NotFound(TopicNotFound), t)
    else if !t.topics[id].archived then Step(BadRequest("Topic is not archived"), t)
    else Step(Ok, SetIdeasArchived(SetTopicArchived(t, id, false, now), id, false, now))
  }

  lemma RestoreTopicGuard(t: Tables, id: Id, now: Timestamp)
    ensures RestoreTopic(t, id, now).outcome == Ok <==> id in t.topics && t.topics[id].archived
    ensures id !in t.topics ==> RestoreTopic(t, id, now) == Step(NotFound(TopicNotFound), t)
    ensures ActiveTopic(t, id) ==> RestoreTopic(t, id, now) == Step(BadRequest("Topic is not archived"), t)
  {
  }

  /** After a restore the topic and all of its ideas are active with one
      shared timestamp; nothing else changes. */
  lemma RestoreTopicEffect(t: Tables, id: Id, now: Timestamp)
    requires Consistent(t) && id in t.topics && t.topics[id].archived
    ensures var r := RestoreTopic(t, id, now).tables;
      && Consistent(r)
      && r.topics.Keys == t.topics.Keys && r.ideas.Keys == t.ideas.Keys
      && r.topics[id] == t.topics[id].(archived := false, updatedAt := now)
      && (forall k :: k in t.topics && k != id ==> r.topics[k] == t.topics[k])
      && (forall i :: i in t.ideas && t.ideas[i].topicId == id ==>
            r.ideas[i] == t.ideas[i].(archived := false, updatedAt := now))
      && (forall i :: i in t.ideas && t.ideas[i].topicId != id ==> r.ideas[i] == t.ideas[i])
      && r.tags == t.tags && r.topicTags == t.topicTags && r.ideaTags == t.ideaTags && r.feedback == t.feedback
  {
    var t1 := SetTopicArchived(t, id, false, now);
    SetTopicArchivedPreservesConsistent(t, id, false, now);
    SetIdeasArchivedPreservesConsistent(t1, id, false, now);
  }

  /** POST /api/archive/ideas/:id/restore: reactivate an archived idea whose
      topic is active. */
  function RestoreIdea(t: Tables, id: Id, now: Timestamp): Step {
    if id !in t.ideas then Step(NotFound(IdeaNotFound), t)
    else if !t.ideas[id].archived then Step(BadRequest("Idea is not archived"), t)
    else
      var p := t.ideas[id].topicId;
      if p in t.topics && t.topics[p].archived then Step(ParentArchived(p, t.topics[p].name), t)
      else Step(Ok, SetIdeaArchived(t, id, false, now))
  }

  /** The guards, in order: missing, not archived, parent archived (reported
      with the parent's id and name); none of them changes anything. */
  lemma RestoreIdeaGuard(t: Tables, id: Id, now: Timestamp)
    requires Consistent(t)
    ensures var s := RestoreIdea(t, id, now);
      && (s.outcome != Ok ==> s.tables == t)
      && (id !in t.ideas ==> s.outcome == NotFound(IdeaNotFound))
      && (ActiveIdea(t, id) ==> s.outcome == BadRequest("Idea is not archived"))
      && (id in t.ideas && t.ideas[id].archived && !ActiveTopic(t, t.ideas[id].topicId) ==>
            s.outcome == ParentArchived(t.ideas[id].topicId, t.topics[t.ideas[id].topicId].name))
      && (s.outcome == Ok <==> id in t.ideas && t.ideas[id].archived && ActiveTopic(t, t.ideas[id].topicId))
  {
  }

  /** A restore changes only that idea's flag and timestamp. */
  lemma RestoreIdeaEffect(t: Tables, id: Id, now: Timestamp)
    requires Consistent(t) && RestoreIdea(t, id, now).outcome == Ok
    ensures var r := RestoreIdea(t, id, now).tables;
      && Consistent(r)
      && r.ideas == t.ideas[id := t.ideas[id].(archived := false, updatedAt := now)]
      && r.topics == t.topics && r.tags == t.tags && r.topicTags == t.topicTags
      && r.ideaTags == t.ideaTags && r.feedback == t.feedback
  {
    SetIdeaArchivedPreservesConsistent(t, id, false, now);
  }

  // ---------------------------------------------------------------- purge

  /** DELETE /api/archive/topics/:id/permanent-delete: delete an archived topic
      (the cascades take its ideas and their rows), then sweep orphan tags. */
  function PurgeTopic(t: Tables, id: Id): Step {
    if id !in t.topics then Step(NotFound(TopicNotFound), t)
    else if !t.topics[id].archived then Step(BadRequest("Topic is not archived"), t)
    else Step(Ok, DeleteOrphanTags(DeleteTopic(t, id)))
  }

  lemma PurgeTopicGuard(t: Tables, id: Id)
    ensures PurgeTopic(t, id).outcome == Ok <==> id in t.topics && t.topics[id].archived
    ensures id !in t.topics ==> PurgeTopic(t, id) == Step(NotFound(TopicNotFound), t)
    ensures ActiveTopic(t, id) ==> PurgeTopic(t, id) == Step(BadRequest("Topic is not archived"), t)
  {
  }

  /** A topic purge removes the topic, its ideas, their tag links and
      feedback, and the topic's own tag links; afterwards the tags table holds
      exactly the tags some remaining link uses, and the constraints hold. */
  lemma PurgeTopicEffect(t: Tables, id: Id)
    requires Consistent(t) && id in t.topics && t.topics[id].archived
    ensures var r := PurgeTopic(t, id).tables;
      && Consistent(r)
      && r.topics == t.topics - {id}
      && (forall i :: i in r.ideas <==> i in t.ideas && t.ideas[i].topicId != id)
      && (forall i :: i in r.ideas ==> r.ideas[i] == t.ideas[i])
      && (forall l :: l in r.topicTags <==> l in t.topicTags && l.0 != id)
      && (forall l :: l in r.ideaTags <==> l in t.ideaTags && l.0 in r.ideas)
      && (forall f :: f in r.feedback <==> f in t.feedback && t.feedback[f].ideaId in r.ideas)
      && (forall f :: f in r.feedback ==> r.feedback[f] == t.feedback[f])
      && (forall k :: k in r.tags <==> k in t.tags && Referenced(r, k))
      && (forall k :: k in r.tags ==> r.tags[k] == t.tags[k])
  {
    var d := DeleteTopic(t, id);
    DeleteTopicCascade(t, id);
    DeleteOrphanTagsKeepsReferenced(d);
    DeleteOrphanTagsPreservesConsistent(d);
  }

  /** DELETE /api/archive/ideas/:id/permanent-delete: delete an archived idea
      (the cascades take its links and feedback), then sweep orphan tags. */
  function PurgeIdea(t: Tables, id: Id): Step {
    if id !in t.ideas then Step(NotFound(IdeaNotFound), t)
    else if !t.ideas[id].archived then Step(BadRequest("Idea is not archived"), t)
    else Step(Ok, DeleteOrphanTags(DeleteIdea(t, id)))
  }

  lemma PurgeIdeaGuard(t: Tables, id: Id)
    ensures PurgeIdea(t, id).outcome == Ok <==> id in t.ideas && t.ideas[id].archived
    ensures id !in t.ideas ==> PurgeIdea(t, id) == Step(NotFound(IdeaNotFound), t)
    ensures ActiveIdea(t, id) ==> PurgeIdea(t, id) == Step(BadRequest("Idea is not archived"), t)
  {
  }

  /** An idea purge removes only that idea, its tag links and its feedback,
      then the sweep leaves exactly the tags some link still uses. */
  lemma PurgeIdeaEffect(t: Tables, id: Id)
    requires Consistent(t) && id in t.ideas && t.ideas[id].archived
    ensures var r := PurgeIdea(t, id).tables;
      && Consistent(r)
      && r.ideas == t.ideas - {id} && r.topics == t.topics && r.topicTags == t.topicTags
      && (forall l :: l in r.ideaTags <==> l in t.ideaTags && l.0 != id)
      && (forall f :: f in r.feedback <==> f in t.feedback && t.feedback[f].ideaId != id)
      && (forall f :: f in r.feedback ==> r.feedback[f] == t.feedback[f])
      && (forall k :: k in r.tags <==> k in t.tags && Referenced(r, k))
      && (forall k :: k in r.tags ==> r.tags[k] == t.tags[k])
  {
    var d := DeleteIdea(t, id);
    DeleteIdeaCascade(t, id);
    DeleteOrphanTagsKeepsReferenced(d);
    DeleteOrphanTagsPreservesConsistent(d);
  }

  /** A tag linked only to the purged idea is gone afterwards; a tag some other
      topic or idea still uses survives. */
  lemma PurgeIdeaSweepsItsTags(t: Tables, id: Id, k: Id)
    requires Consistent(t) && id in t.ideas && t.ideas[id].archived && k in t.tags
    ensures (forall o :: (o, k) !in t.topicTags) && (forall i :: (i, k) in t.ideaTags ==> i == id) ==>
      k !in PurgeIdea(t, id).tables.tags
    ensures ((exists o :: (o, k) in t.topicTags) || (exists i :: i != id && (i, k) in t.ideaTags)) ==>
      k in PurgeIdea(t, id).tables.tags
  {
    PurgeIdeaEffect(t, id);
    var r := PurgeIdea(t, id).tables;
    if (exists o :: (o, k) in t.topicTags) || (exists i :: i != id && (i, k) in t.ideaTags) {
      if exists o :: (o, k) in t.topicTags {
        var o :| (o, k) in t.topicTags;
        assert (o, k) in r.topicTags;
      } else {
        var i :| i != id && (i, k) in t.ideaTags;
        assert (i, k) in r.ideaTags;
      }
    }
  }

  /** A tag linked only to the purged topic or to its ideas is gone afterwards;
      a tag another topic, or an idea of another topic, uses survives. */
  lemma PurgeTopicSweepsItsTags(t: Tables, id: Id, k: Id)
    requires Consistent(t) && id in t.topics && t.topics[id].archived && k in t.tags
    ensures ((forall o :: (o, k) in t.topicTags ==> o == id)
             && (forall i :: (i, k) in t.ideaTags ==> t.ideas[i].topicId == id)) ==>
      k !in PurgeTopic(t, id).tables.tags
    ensures ((exists o :: o != id && (o, k) in t.topicTags)
          || (exists i :: (i, k) in t.ideaTags && t.ideas[i].topicId != id)) ==>
      k in PurgeTopic(t, id).tables.tags
  {
    PurgeTopicEffect(t, id);
    var r := PurgeTopic(t, id).tables;
    if exists o :: o != id && (o, k) in t.topicTags {
      var o :| o != id && (o, k) in t.topicTags;
      assert (o, k) in r.topicTags;
    } else if exists i :: (i, k) in t.ideaTags && t.ideas[i].topicId != id {
      var i :| (i, k) in t.ideaTags && t.ideas[i].topicId != id;
      assert (i, k) in r.ideaTags;
    }
  }

  // ---------------------------------------------------------------- request bodies of index.ts

  /** The hand-written check `!name || typeof name !== "string" || name.trim() === ""`
      passes. */
  predicate NameGiven(body: Json) {
    IsString(Field(body, "name")) && Trim(Field(body, "name").value.s) != []
  }

  /** `description || null`. */
  function DescriptionOrNull(body: Json): Option<string> {
    var d := Field(body, "description");
    if IsString(d) && d.value.s != [] then Some(d.value.s) else None
  }

  /** `tags && Array.isArray(tags)`. */
  predicate TagsIsArray(body: Json) {
    Field(body, "tags").Some? && Field(body, "tags").value.JArr?
  }

  /** The submitted tag names, `[]` when `tags` is not an array. */
  function TagList(body: Json): seq<string> {
    TagNames(Field(body, "tags"))
  }

  /** Every element of a `tags` array is a string (`tag.trim()` throws on
      anything else). */
  predicate TagItemsAreStrings(body: Json) {
    TagsIsArray(body) ==> forall i :: 0 <= i < |Field(body, "tags").value.items| ==> Field(body, "tags").value.items[i].JStr?
  }

  // ---------------------------------------------------------------- create

  /** The tag block of POST /api/topics and POST /api/ideas: when `tags` is a
      non-empty array, resolve every name (creating tags as needed), then link
      the new row to the resolved tags. */
  ghost function TagNewOwner(t: Tables, o: Owner, body: Json, newIds: seq<Id>): Tables
    requires |newIds| == |TagList(body)|
  {
    if TagsIsArray(body) && |TagList(body)| > 0 then ResolveAndLink(t, o, TagList(body), newIds).tables else t
  }

  /** A row that had no links ends up linked to exactly the resolved tags;
      no other owner's links, no topic, idea or feedback row changes, existing
      tags keep their names, and the constraints hold. */
  lemma TagNewOwnerSpec(t: Tables, o: Owner, body: Json, newIds: seq<Id>)
    requires Consistent(t) && OwnerExists(t, o) && LinksOf(t, o) == {}
    requires |newIds| == |TagList(body)| && NewIdsFree(t.tags, newIds)
    ensures var r := TagNewOwner(t, o, body, newIds);
      && Consistent(r)
      && LinksOf(r, o) == Elems(Resolve(t.tags, TagList(body), newIds).ids)
      && (forall p :: p != o ==> LinksOf(r, p) == LinksOf(t, p))
      && r.topics == t.topics && r.ideas == t.ideas && r.feedback == t.feedback
      && (forall k :: k in t.tags ==> k in r.tags && r.tags[k] == t.tags[k])
  {
    var names := TagList(body);
    if TagsIsArray(body) && |names| > 0 {
      LinkNewOwner(t, o, names, newIds);
    } else {
      assert names == [];
      assert Elems(Resolve(t.tags, names, newIds).ids) == {};
    }
  }

  /** Resolving and linking a list of names for a row without links. */
  lemma LinkNewOwner(t: Tables, o: Owner, names: seq<string>, newIds: seq<Id>)
    requires Consistent(t) && OwnerExists(t, o) && LinksOf(t, o) == {}
    requires |newIds| == |names| && NewIdsFree(t.tags, newIds)
    ensures var r := ResolveAndLink(t, o, names, newIds).tables;
      && Consistent(r)
      && LinksOf(r, o) == Elems(Resolve(t.tags, names, newIds).ids)
      && (forall p :: p != o ==> LinksOf(r, p) == LinksOf(t, p))
      && r.topics == t.topics && r.ideas == t.ideas && r.feedback == t.feedback
      && (forall k :: k in t.tags ==> k in r.tags && r.tags[k] == t.tags[k])
  {
    var r := Resolve(t.tags, names, newIds);
    var t1 := t.(tags := r.tags);
    ResolveAndLinkConsistent(t, o, names, newIds);
    assert forall p :: LinksOf(t1, p) == LinksOf(t, p);
    LinkedLinks(t1, o, Elems(r.ids));
    ResolveTags(t.tags, names, newIds);
  }

  /** Tagging a row just inserted into consistent tables: the tables before
      the insert had no row and so no links for it. */
  lemma InsertedOwnerTagged(t: Tables, t1: Tables, o: Owner, body: Json, newIds: seq<Id>)
    requires Consistent(t) && !OwnerExists(t, o) && Consistent(t1) && OwnerExists(t1, o)
    requires t1.tags == t.tags && t1.topicTags == t.topicTags && t1.ideaTags == t.ideaTags
    requires |newIds| == |TagList(body)| && NewIdsFree(t.tags, newIds)
    ensures var r := TagNewOwner(t1, o, body, newIds);
      && Consistent(r)
      && LinksOf(r, o) == Elems(Resolve(t.tags, TagList(body), newIds).ids)
      && (forall p :: p != o ==> LinksOf(r, p) == LinksOf(t, p))
      && r.topics == t1.topics && r.ideas == t1.ideas && r.feedback == t1.feedback
      && (forall k :: k in t.tags ==> k in r.tags && r.tags[k] == t.tags[k])
  {
    assert forall p :: LinksOf(t1, p) == LinksOf(t, p);
    assert LinksOf(t, o) == {};
    TagNewOwnerSpec(t1, o, body, newIds);
  }

  /** POST /api/topics: insert the topic (not archived, trimmed name), then
      resolve every tag name and link the resolved tags. The insert raises,
      and nothing changes, when another topic already has the name. */
  ghost function CreateTopic(t: Tables, body: Json, id: Id, now: Timestamp, newIds: seq<Id>): Step
    requires |newIds| == |TagList(body)|
  {
    if body.JNull? then Step(Failed("Failed to create topic"), t)
    else if !NameGiven(body) then Step(BadRequest("Name is required"), t)
    else
      var row := Topic(Trim(Field(body, "name").value.s), DescriptionOrNull(body), false, now, now);
      if !TopicNameFree(t.topics, row.name, None) then Step(Failed("Failed to create topic"), t)
      else Step(Ok, TagNewOwner(InsertTopic(t, id, row), TopicOwner(id), body, newIds))
  }

  /** A blank or missing name is a bad request, a taken name a failure; a
      rejected request changes nothing. */
  lemma CreateTopicGuard(t: Tables, body: Json, id: Id, now: Timestamp, newIds: seq<Id>)
    requires |newIds| == |TagList(body)|
    ensures var s := CreateTopic(t, body, id, now, newIds);
      && (s.outcome != Ok ==> s.tables == t)
      && (!body.JNull? && !NameGiven(body) ==> s.outcome == BadRequest("Name is required"))
      && (s.outcome == Ok <==> !body.JNull? && NameGiven(body) && TopicNameFree(t.topics, Trim(Field(body, "name").value.s), None))
  {
  }

  /** A created topic is active, carries the trimmed name and one timestamp
      for both dates, and is linked to exactly the resolved tags; existing
      tags keep their names, no idea, idea link or feedback row changes, and
      the constraints hold. */
  lemma CreateTopicEffect(t: Tables, body: Json, id: Id, now: Timestamp, newIds: seq<Id>)
    requires Consistent(t) && id !in t.topics && |newIds| == |TagList(body)| && NewIdsFree(t.tags, newIds)
    requires CreateTopic(t, body, id, now, newIds).outcome == Ok
    ensures var r := CreateTopic(t, body, id, now, newIds).tables;
      && Consistent(r)
      && r.topics == t.topics[id := Topic(Trim(Field(body, "name").value.s), DescriptionOrNull(body), false, now, now)]
      && LinksOf(r, TopicOwner(id)) == Elems(Resolve(t.tags, TagList(body), newIds).ids)
      && (forall p :: p != TopicOwner(id) ==> LinksOf(r, p) == LinksOf(t, p))
      && r.ideas == t.ideas && r.feedback == t.feedback
      && (forall k :: k in t.tags ==> k in r.tags && r.tags[k] == t.tags[k])
  {
    var row := Topic(Trim(Field(body, "name").value.s), DescriptionOrNull(body), false, now, now);
    var t1 := InsertTopic(t, id, row);
    assert CreateTopic(t, body, id, now, newIds).tables == TagNewOwner(t1, TopicOwner(id), body, newIds);
    InsertTopicPreservesConsistent(t, id, row);
    InsertedOwnerTagged(t, t1, TopicOwner(id), body, newIds);
  }

  /** `!topicId || typeof topicId !== "string" || topicId.trim() === ""` passes. */
  predicate TopicIdGiven(body: Json) {
    IsString(Field(body, "topicId")) && Trim(Field(body, "topicId").value.s) != []
  }

  /** POST /api/ideas: check the topic id and the name, require an active
      topic, insert the idea (not archived, trimmed name), then resolve and
      link its tags. */
  ghost function CreateIdea(t: Tables, body: Json, id: Id, now: Timestamp, newIds: seq<Id>): Step
    requires |newIds| == |TagList(body)|
  {
    if body.JNull? then Step(Failed("Failed to create idea"), t)
    else if !TopicIdGiven(body) then Step(BadRequest("Topic is required"), t)
    else if !NameGiven(body) then Step(BadRequest("Name is required"), t)
    else
      var topicId := Field(body, "topicId").value.s;
      if !ActiveTopic(t, topicId) then Step(NotFound(TopicNotFound), t)
      else
        var row := Idea(topicId, Trim(Field(body, "name").value.s), DescriptionOrNull(body), false, now, now);
        Step(Ok, TagNewOwner(InsertIdea(t, id, row), IdeaOwner(id), body, newIds))
  }

  /** The checks come in order (topic id, name, active topic) and a failed one
      changes nothing. */
  lemma CreateIdeaGuard(t: Tables, body: Json, id: Id, now: Timestamp, newIds: seq<Id>)
    requires |newIds| == |TagList(body)|
    ensures var s := CreateIdea(t, body, id, now, newIds);
      && (s.outcome != Ok ==> s.tables == t)
      && (!body.JNull? && !TopicIdGiven(body) ==> s.outcome == BadRequest("Topic is required"))
      && (!body.JNull? && TopicIdGiven(body) && !NameGiven(body) ==> s.outcome == BadRequest("Name is required"))
      && (!body.JNull? && TopicIdGiven(body) && NameGiven(body) && !ActiveTopic(t, Field(body, "topicId").value.s) ==>
            s.outcome == NotFound(TopicNotFound))
      && (s.outcome == Ok <==> !body.JNull? && TopicIdGiven(body) && NameGiven(body) && ActiveTopic(t, Field(body, "topicId").value.s))
  {
  }

  /** A created idea is active under its topic with the trimmed name and one
      timestamp for both dates, and is linked to exactly the resolved tags;
      topics and feedback are untouched and the constraints hold. */
  lemma CreateIdeaEffect(t: Tables, body: Json, id: Id, now: Timestamp, newIds: seq<Id>)
    requires Consistent(t) && id !in t.ideas && |newIds| == |TagList(body)| && NewIdsFree(t.tags, newIds)
    requires CreateIdea(t, body, id, now, newIds).outcome == Ok
    ensures var r := CreateIdea(t, body, id, now, newIds).tables;
      && Consistent(r)
      && r.ideas == t.ideas[id := Idea(Field(body, "topicId").value.s, Trim(Field(body, "name").value.s), DescriptionOrNull(body), false, now, now)]
      && LinksOf(r, IdeaOwner(id)) == Elems(Resolve(t.tags, TagList(body), newIds).ids)
      && (forall p :: p != IdeaOwner(id) ==> LinksOf(r, p) == LinksOf(t, p))
      && r.topics == t.topics && r.feedback == t.feedback
      && (forall k :: k in t.tags ==> k in r.tags && r.tags[k] == t.tags[k])
  {
    var row := Idea(Field(body, "topicId").value.s, Trim(Field(body, "name").value.s), DescriptionOrNull(body), false, now, now);
    var t1 := InsertIdea(t, id, row);
    assert CreateIdea(t, body, id, now, newIds).tables == TagNewOwner(t1, IdeaOwner(id), body, newIds);
    InsertIdeaPreservesConsistent(t, id, row);
    InsertedOwnerTagged(t, t1, IdeaOwner(id), body, newIds);
  }

  // ---------------------------------------------------------------- update

  /** The statements of PUT /api/topics/:id once its checks have passed: the
      row update, then (only when `tags` is an array) the tag sync. */
  ghost function ApplyTopicEdit(t: Tables, id: Id, name: string, description: Option<string>,
                                tags: Option<seq<string>>, now: Timestamp, newIds: seq<Id>): Tables
    requires tags.Some? ==> |newIds| == |tags.value|
  {
    var t1 := UpdateTopicRow(t, id, name, description, now);
    if tags.Some? then Sync(t1, TopicOwner(id), tags.value, newIds).tables else t1
  }

  /** The topic gets the new name, description and timestamp; with a tag
      list it ends up linked to exactly the resolved tags, without one its
      links and the tags table are untouched; ideas and feedback never
      change and the constraints hold. */
  lemma ApplyTopicEditSpec(t: Tables, id: Id, name: string, description: Option<string>,
                           tags: Option<seq<string>>, now: Timestamp, newIds: seq<Id>)
    requires Consistent(t) && ActiveTopic(t, id) && TopicNameFree(t.topics, name, Some(id))
    requires tags.Some? ==> |newIds| == |tags.value| && NewIdsFree(t.tags, newIds)
    ensures var r := ApplyTopicEdit(t, id, name, description, tags, now, newIds);
      && Consistent(r)
      && r.topics == t.topics[id := t.topics[id].(name := name, description := description, updatedAt := now)]
      && (tags.Some? ==> LinksOf(r, TopicOwner(id)) == Elems(Resolve(t.tags, tags.value, newIds).ids))
      && (tags.Some? ==> forall k :: k in t.tags ==> k in r.tags && r.tags[k] == t.tags[k])
      && (tags.None? ==> r.topicTags == t.topicTags && r.tags == t.tags)
      && (forall p :: p != TopicOwner(id) ==> LinksOf(r, p) == LinksOf(t, p))
      && r.ideas == t.ideas && r.feedback == t.feedback
  {
    var t1 := UpdateTopicRow(t, id, name, description, now);
    assert Consistent(t1) by {
      UpdateTopicRowPreservesConsistent(t, id, name, description, now);
    }
    assert forall p :: LinksOf(t1, p) == LinksOf(t, p);
    if tags.Some? {
      SyncSpec(t1, TopicOwner(id), tags.value, newIds);
    }
  }

  /** `tags` when it is an array, `None` otherwise. */
  function TagArray(body: Json): Option<seq<string>> {
    if TagsIsArray(body) then Some(TagList(body)) else None
  }

  /** PUT /api/topics/:id: rename an active topic, then re-sync its tags when
      `tags` is an array. The rename raises, and nothing changes, when another
      topic has the name. */
  ghost function UpdateTopic(t: Tables, id: Id, body: Json, now: Timestamp, newIds: seq<Id>): Step
    requires |newIds| == |TagList(body)|
  {
    if body.JNull? then Step(Failed("Failed to update topic"), t)
    else if !NameGiven(body) then Step(BadRequest("Name is required"), t)
    else if !ActiveTopic(t, id) then Step(NotFound(TopicNotFound), t)
    else
      var name := Trim(Field(body, "name").value.s);
      if !TopicNameFree(t.topics, name, Some(id)) then Step(Failed("Failed to update topic"), t)
      else Step(Ok, ApplyTopicEdit(t, id, name, DescriptionOrNull(body), TagArray(body), now, newIds))
  }

  /** The checks in order (name, active topic, name free), none of which
      changes anything when it fails. */
  lemma UpdateTopicGuard(t: Tables, id: Id, body: Json, now: Timestamp, newIds: seq<Id>)
    requires |newIds| == |TagList(body)|
    ensures var s := UpdateTopic(t, id, body, now, newIds);
      && (s.outcome != Ok ==> s.tables == t)
      && (!body.JNull? && !NameGiven(body) ==> s.outcome == BadRequest("Name is required"))
      && (!body.JNull? && NameGiven(body) && !ActiveTopic(t, id) ==> s.outcome == NotFound(TopicNotFound))
      && (s.outcome == Ok <==> !body.JNull? && NameGiven(body) && ActiveTopic(t, id)
                               && TopicNameFree(t.topics, Trim(Field(body, "name").value.s), Some(id)))
  {
  }

  /** The statements of PUT /api/ideas/:id once its checks have passed: the
      row update, then `syncIdeaTags`. */
  ghost function ApplyIdeaEdit(t: Tables, id: Id, d: IdeaInput, now: Timestamp, newIds: seq<Id>): Tables
    requires |newIds| == |d.tags|
  {
    var t1 := UpdateIdeaRow(t, id, d.name, d.description, d.topicId, now);
    Sync(t1, IdeaOwner(id), d.tags, newIds).tables
  }

  /** The idea gets the new name, description and topic and stays active; it
      ends up linked to exactly the resolved tags (the old links not among
      them are gone); topics and feedback are untouched, no tag row is lost
      or renamed, and the constraints hold. */
  lemma ApplyIdeaEditSpec(t: Tables, id: Id, d: IdeaInput, now: Timestamp, newIds: seq<Id>)
    requires Consistent(t) && ActiveIdea(t, id) && ActiveTopic(t, d.topicId)
    requires |newIds| == |d.tags| && NewIdsFree(t.tags, newIds)
    ensures var r := ApplyIdeaEdit(t, id, d, now, newIds);
      && Consistent(r)
      && r.ideas == t.ideas[id := t.ideas[id].(name := d.name, description := d.description, topicId := d.topicId, updatedAt := now)]
      && !r.ideas[id].archived
      && LinksOf(r, IdeaOwner(id)) == Elems(Resolve(t.tags, d.tags, newIds).ids)
      && (forall p :: p != IdeaOwner(id) ==> LinksOf(r, p) == LinksOf(t, p))
      && r.topics == t.topics && r.feedback == t.feedback
      && (forall k :: k in t.tags ==> k in r.tags && r.tags[k] == t.tags[k])
  {
    var t1 := UpdateIdeaRow(t, id, d.name, d.description, d.topicId, now);
    assert Consistent(t1) by {
      UpdateIdeaRowPreservesConsistent(t, id, d.name, d.description, d.topicId, now);
    }
    assert forall p :: LinksOf(t1, p) == LinksOf(t, p);
    SyncSpec(t1, IdeaOwner(id), d.tags, newIds);
  }

  /** PUT /api/ideas/:id (the handler in update-idea.test.ts): the API key
      first, then the body (`None` when it is not JSON, which `req.json()`
      throws on and the catch answers with 500), then the schema, then an
      active idea, then an active target topic; then the row update and a tag
      sync. */
  ghost function UpdateIdea(t: Tables, header: Option<string>, configured: Option<string>,
                            id: Id, body: Option<Json>, now: Timestamp, newIds: seq<Id>): Step
    requires body.Some? && ParseIdea(body.value).Success? ==> |newIds| == |ParseIdea(body.value).value.tags|
  {
    var denied := ValidateApiKey(header, configured);
    if denied.Some? then Step(Unauthorized(denied.value), t)
    else if body.None? then Step(Failed("Failed to update idea"), t)
    else match ParseIdea(body.value)
      case Failure(issues) => Step(BadRequest(FormatIssues(issues)), t)
      case Success(d) =>
        if !ActiveIdea(t, id) then Step(NotFound(IdeaNotFound), t)
        else if !ActiveTopic(t, d.topicId) then Step(BadRequest(TopicNotFound), t)
        else Step(Ok, ApplyIdeaEdit(t, id, d, now, newIds))
  }

  /** The order of the checks: a refused key answers 401 whatever the body, a
      body that is not JSON 500, an invalid body (a literal `null` among them)
      400 before any lookup, a missing or archived idea 404, a missing or
      archived target topic 400; none of them changes anything. */
  lemma UpdateIdeaGuards(t: Tables, header: Option<string>, configured: Option<string>,
                         id: Id, body: Option<Json>, now: Timestamp, newIds: seq<Id>)
    requires body.Some? && ParseIdea(body.value).Success? ==> |newIds| == |ParseIdea(body.value).value.tags|
    ensures var s := UpdateIdea(t, header, configured, id, body, now, newIds);
      && (s.outcome != Ok ==> s.tables == t)
      && (!Allowed(header, configured) ==> s.outcome.Unauthorized?)
      && (Allowed(header, configured) && body.None? ==> s.outcome == Failed("Failed to update idea"))
      && (Allowed(header, configured) && body == Some(JNull) ==> s.outcome.BadRequest?)
      && (Allowed(header, configured) && body.Some? && ParseIdea(body.value).Failure? ==>
            s.outcome == BadRequest(FormatIssues(ParseIdea(body.value).error)))
      && (Allowed(header, configured) && body.Some? && ParseIdea(body.value).Success? && !ActiveIdea(t, id) ==>
            s.outcome == NotFound(IdeaNotFound))
      && ((Allowed(header, configured) && body.Some? && ParseIdea(body.value).Success? && ActiveIdea(t, id)
           && !ActiveTopic(t, ParseIdea(body.value).value.topicId)) ==> s.outcome == BadRequest(TopicNotFound))
      && (s.outcome == Ok <==> Allowed(header, configured) && body.Some? && ParseIdea(body.value).Success?
                               && ActiveIdea(t, id) && ActiveTopic(t, ParseIdea(body.value).value.topicId))
      && (s.outcome == Ok ==> s.tables == ApplyIdeaEdit(t, id, ParseIdea(body.value).value, now, newIds))
  {
    ValidateApiKeySpec(header, configured);
    if body == Some(JNull) {
      assert !ValidIdeaBody(JNull);
      ParseIdeaAccepts(JNull);
    }
  }
}
