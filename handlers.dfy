/**
 * The write handlers of src/index.ts (and the two test-file handlers for
 * updating an idea and permanently deleting), run against the open
 * database. Each one reads what its guards need, answers early when one
 * fails, and otherwise runs its statements in the source's order. Every
 * handler is proved to answer and to leave the tables exactly as its
 * value-level specification in `Lifecycle` says, and to keep the schema's
 * constraints.
 */
module Handlers {
  import opened Wrappers
  import opened Text
  import opened Schema
  import opened Store
  import opened Tags
  import opened Schemas
  import opened Auth
  import opened Lifecycle

  // ---------------------------------------------------------------- archive

  /** DELETE /api/topics/:id */
  method HandleArchiveTopic(db: Database, id: Id, now: Timestamp) returns (outcome: Outcome)
    requires db.Valid()
    modifies db
    ensures ArchiveTopic(old(db.State()), id, now) == Step(outcome, db.State())
    ensures db.Valid()
  {
    if !(id in db.topics && !db.topics[id].archived) {
      return NotFound(TopicNotFound);
    }
    ArchiveTopicEffect(db.State(), id, now);
    db.SetTopicArchived(id, true, now);
    db.SetIdeasArchived(id, true, now);
    return Ok;
  }

  /** DELETE /api/ideas/:id */
  method HandleArchiveIdea(db: Database, id: Id, now: Timestamp) returns (outcome: Outcome)
    requires db.Valid()
    modifies db
    ensures ArchiveIdea(old(db.State()), id, now) == Step(outcome, db.State())
    ensures db.Valid()
  {
    if id !in db.ideas {
      return NotFound(IdeaNotFound);
    }
    if db.ideas[id].archived {
      return BadRequest("Idea is already archived");
    }
    ArchiveIdeaEffect(db.State(), id, now);
    db.SetIdeaArchived(id, true, now);
    return Ok;
  }

  // ---------------------------------------------------------------- restore

  /** POST /api/archive/topics/:id/restore */
  method HandleRestoreTopic(db: Database, id: Id, now: Timestamp) returns (outcome: Outcome)
    requires db.Valid()
    modifies db
    ensures RestoreTopic(old(db.State()), id, now) == Step(outcome, db.State())
    ensures db.Valid()
  {
    if id !in db.topics {
      return NotFound(TopicNotFound);
    }
    if !db.topics[id].archived {
      return BadRequest("Topic is not archived");
    }
    RestoreTopicEffect(db.State(), id, now);
    db.SetTopicArchived(id, false, now);
    db.SetIdeasArchived(id, false, now);
    return Ok;
  }

  /** POST /api/archive/ideas/:id/restore */
  method HandleRestoreIdea(db: Database, id: Id, now: Timestamp) returns (outcome: Outcome)
    requires db.Valid()
    modifies db
    ensures RestoreIdea(old(db.State()), id, now) == Step(outcome, db.State())
    ensures db.Valid()
  {
    if id !in db.ideas {
      return NotFound(IdeaNotFound);
    }
    if !db.ideas[id].archived {
      return BadRequest("Idea is not archived");
    }
    var p := db.ideas[id].topicId;
    if p in db.topics && db.topics[p].archived {
      return ParentArchived(p, db.topics[p].name);
    }
    RestoreIdeaEffect(db.State(), id, now);
    db.SetIdeaArchived(id, false, now);
    return Ok;
  }

  // ---------------------------------------------------------------- purge

  /** DELETE /api/archive/topics/:id/permanent-delete */
  method HandlePurgeTopic(db: Database, id: Id) returns (outcome: Outcome)
    requires db.Valid()
    modifies db
    ensures PurgeTopic(old(db.State()), id) == Step(outcome, db.State())
    ensures db.Valid()
  {
    if id !in db.topics {
      return NotFound(TopicNotFound);
    }
    if !db.topics[id].archived {
      return BadRequest("Topic is not archived");
    }
    PurgeTopicEffect(db.State(), id);
    db.DeleteTopic(id);
    db.DeleteOrphanTags();
    return Ok;
  }

  /** DELETE /api/archive/ideas/:id/permanent-delete */
  method HandlePurgeIdea(db: Database, id: Id) returns (outcome: Outcome)
    requires db.Valid()
    modifies db
    ensures PurgeIdea(old(db.State()), id) == Step(outcome, db.State())
    ensures db.Valid()
  {
    if id !in db.ideas {
      return NotFound(IdeaNotFound);
    }
    if !db.ideas[id].archived {
      return BadRequest("Idea is not archived");
    }
    PurgeIdeaEffect(db.State(), id);
    db.DeleteIdea(id);
    db.DeleteOrphanTags();
    return Ok;
  }

  // ---------------------------------------------------------------- create

  /** The tag block of both create handlers: resolve every name, then link
      the new row to each resolved id. */
  method TagNewRow(db: Database, o: Owner, body: Json, newIds: seq<Id>)
    requires db.Valid() && OwnerExists(db.State(), o) && LinksOf(db.State(), o) == {}
    requires |newIds| == |TagList(body)| && NewIdsFree(db.tags, newIds)
    modifies db
    ensures db.State() == TagNewOwner(old(db.State()), o, body, newIds)
    ensures db.Valid()
  {
    ghost var t := db.State();
    TagNewOwnerSpec(t, o, body, newIds);
    var names := TagList(body);
    if TagsIsArray(body) && |names| > 0 {
      ResolveIds(db.tags, names, newIds);
      var ids := CreateTags(db, names, newIds);
      LinkTags(db, o, ids);
    }
  }

  /** POST /api/topics */
  method HandleCreateTopic(db: Database, body: Json, id: Id, now: Timestamp, newIds: seq<Id>)
    returns (outcome: Outcome)
    requires db.Valid() && id !in db.topics
    requires |newIds| == |TagList(body)| && NewIdsFree(db.tags, newIds) && TagItemsAreStrings(body)
    modifies db
    ensures CreateTopic(old(db.State()), body, id, now, newIds) == Step(outcome, db.State())
    ensures db.Valid()
  {
    if body.JNull? {
      return Failed("Failed to create topic");
    }
    if !NameGiven(body) {
      return BadRequest("Name is required");
    }
    var row := Topic(Trim(Field(body, "name").value.s), DescriptionOrNull(body), false, now, now);
    ghost var t := db.State();
    var ok := db.InsertTopic(id, row);
    if !ok {
      return Failed("Failed to create topic");
    }
    InsertTopicPreservesConsistent(t, id, row);
    assert LinksOf(db.State(), TopicOwner(id)) == {};
    TagNewRow(db, TopicOwner(id), body, newIds);
    return Ok;
  }

  /** POST /api/ideas */
  method HandleCreateIdea(db: Database, body: Json, id: Id, now: Timestamp, newIds: seq<Id>)
    returns (outcome: Outcome)
    requires db.Valid() && id !in db.ideas
    requires |newIds| == |TagList(body)| && NewIdsFree(db.tags, newIds) && TagItemsAreStrings(body)
    modifies db
    ensures CreateIdea(old(db.State()), body, id, now, newIds) == Step(outcome, db.State())
    ensures db.Valid()
  {
    if body.JNull? {
      return Failed("Failed to create idea");
    }
    if !TopicIdGiven(body) {
      return BadRequest("Topic is required");
    }
    if !NameGiven(body) {
      return BadRequest("Name is required");
    }
    var topicId := Field(body, "topicId").value.s;
    if !(topicId in db.topics && !db.topics[topicId].archived) {
      return NotFound(TopicNotFound);
    }
    var row := Idea(topicId, Trim(Field(body, "name").value.s), DescriptionOrNull(body), false, now, now);
    ghost var t := db.State();
    db.InsertIdea(id, row);
    InsertIdeaPreservesConsistent(t, id, row);
    assert LinksOf(db.State(), IdeaOwner(id)) == {};
    TagNewRow(db, IdeaOwner(id), body, newIds);
    return Ok;
  }

  // ---------------------------------------------------------------- update

  /** PUT /api/topics/:id */
  method HandleUpdateTopic(db: Database, id: Id, body: Json, now: Timestamp, newIds: seq<Id>)
    returns (outcome: Outcome)
    requires db.Valid()
    requires |newIds| == |TagList(body)| && NewIdsFree(db.tags, newIds) && TagItemsAreStrings(body)
    modifies db
    ensures UpdateTopic(old(db.State()), id, body, now, newIds) == Step(outcome, db.State())
    ensures db.Valid()
  {
    if body.JNull? {
      return Failed("Failed to update topic");
    }
    if !NameGiven(body) {
      return BadRequest("Name is required");
    }
    if !(id in db.topics && !db.topics[id].archived) {
      return NotFound(TopicNotFound);
    }
    var name := Trim(Field(body, "name").value.s);
    ghost var t := db.State();
    var ok := db.UpdateTopicRow(id, name, DescriptionOrNull(body), now);
    if !ok {
      return Failed("Failed to update topic");
    }
    ApplyTopicEditSpec(t, id, name, DescriptionOrNull(body), TagArray(body), now, newIds);
    UpdateTopicRowPreservesConsistent(t, id, name, DescriptionOrNull(body), now);
    if TagsIsArray(body) {
      var _ := SyncTags(db, TopicOwner(id), TagList(body), newIds);
    }
    return Ok;
  }

  /** PUT /api/ideas/:id */
  method HandleUpdateIdea(db: Database, header: Option<string>, configured: Option<string>,
                          id: Id, body: Option<Json>, now: Timestamp, newIds: seq<Id>)
    returns (outcome: Outcome)
    requires db.Valid()
    requires body.Some? && ParseIdea(body.value).Success? ==>
      |newIds| == |ParseIdea(body.value).value.tags| && NewIdsFree(db.tags, newIds)
    modifies db
    ensures UpdateIdea(old(db.State()), header, configured, id, body, now, newIds) == Step(outcome, db.State())
    ensures db.Valid()
  {
    var denied := ValidateApiKey(header, configured);
    if denied.Some? {
      return Unauthorized(denied.value);
    }
    if body.None? {
      return Failed("Failed to update idea");
    }
    var parsed := ParseIdea(body.value);
    if parsed.Failure? {
      return BadRequest(FormatIssues(parsed.error));
    }
    var d := parsed.value;
    if !(id in db.ideas && !db.ideas[id].archived) {
      return NotFound(IdeaNotFound);
    }
    if !(d.topicId in db.topics && !db.topics[d.topicId].archived) {
      return BadRequest(TopicNotFound);
    }
    ghost var t := db.State();
    ApplyIdeaEditSpec(t, id, d, now, newIds);
    UpdateIdeaRowPreservesConsistent(t, id, d.name, d.description, d.topicId, now);
    db.UpdateIdeaRow(id, d.name, d.description, d.topicId, now);
    var _ := SyncTags(db, IdeaOwner(id), d.tags, newIds);
    return Ok;
  }
}
