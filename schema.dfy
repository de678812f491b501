/**
 * The six SQLite tables of the idea store, the constraints their CREATE TABLE
 * statements declare, and the effect of every statement the handlers run on
 * them (with ON DELETE CASCADE written out).
 *
 * A table with a TEXT primary key is a map from that key to the rest of the
 * row; a join table whose primary key is the whole row is a set of pairs.
 */
module Schema {
  import opened Wrappers
  import opened Text

  type Id = string
  type Timestamp = string

  datatype Topic = Topic(
    name: string,
    description: Option<string>,
    archived: bool,
    createdAt: Timestamp,
    updatedAt: Timestamp)

  datatype Idea = Idea(
    topicId: Id,
    name: string,
    description: Option<string>,
    archived: bool,
    createdAt: Timestamp,
    updatedAt: Timestamp)

  datatype Feedback = Feedback(
    ideaId: Id,
    rating: int,
    notes: Option<string>,
    createdAt: Timestamp,
    updatedAt: Timestamp)

  /** One row of topic_tags or idea_tags: (owner id, tag id). */
  type Link = (Id, Id)

  datatype Tables = Tables(
    topics: map<Id, Topic>,
    ideas: map<Id, Idea>,
    tags: map<Id, string>,
    topicTags: set<Link>,
    ideaTags: set<Link>,
    feedback: map<Id, Feedback>)

  const Empty := Tables(map[], map[], map[], {}, {}, map[])

  /** The entity a tag link hangs off: a row of topic_tags or of idea_tags. */
  datatype Owner = TopicOwner(id: Id) | IdeaOwner(id: Id)

  // ---------------------------------------------------------------- constraints

  /** topics.name is UNIQUE (binary comparison). */
  predicate UniqueTopicNames(topics: map<Id, Topic>) {
    forall a, b :: a in topics && b in topics && topics[a].name == topics[b].name ==> a == b
  }

  /** tags.name is UNIQUE COLLATE NOCASE. */
  predicate UniqueTagNames(tags: map<Id, string>) {
    forall a, b {:trigger Lower(tags[a]), Lower(tags[b])} :: a in tags && b in tags && Lower(tags[a]) == Lower(tags[b]) ==> a == b
  }

  /** ideas.topicId REFERENCES topics(id). */
  predicate IdeasHaveTopics(t: Tables) {
    forall i :: i in t.ideas ==> t.ideas[i].topicId in t.topics
  }

  /** Both columns of both join tables are foreign keys. */
  predicate LinksHaveRows(t: Tables) {
    && (forall l :: l in t.topicTags ==> l.0 in t.topics && l.1 in t.tags)
    && (forall l :: l in t.ideaTags ==> l.0 in t.ideas && l.1 in t.tags)
  }

  /** feedback.ideaId REFERENCES ideas(id) and CHECK(rating >= 1 AND rating <= 5). */
  predicate FeedbackWellFormed(t: Tables) {
    forall f :: f in t.feedback ==> t.feedback[f].ideaId in t.ideas && 1 <= t.feedback[f].rating <= 5
  }

  /** Every state the schema admits. */
  predicate Consistent(t: Tables) {
    && UniqueTopicNames(t.topics)
    && UniqueTagNames(t.tags)
    && IdeasHaveTopics(t)
    && LinksHaveRows(t)
    && FeedbackWellFormed(t)
  }

  /** Whether a topic name is still free. */
  predicate TopicNameFree(topics: map<Id, Topic>, name: string, except: Option<Id>) {
    forall k :: k in topics && Some(k) != except ==> topics[k].name != name
  }

  /** Whether no tag has this name under NOCASE. */
  predicate TagNameFree(tags: map<Id, string>, name: string) {
    forall k {:trigger Lower(tags[k])} :: k in tags ==> Lower(tags[k]) != Lower(name)
  }

  predicate OwnerExists(t: Tables, o: Owner) {
    match o
    case TopicOwner(x) => x in t.topics
    case IdeaOwner(x) => x in t.ideas
  }

  /** The tag ids linked to an owner. */
  function LinksOf(t: Tables, o: Owner): set<Id> {
    match o
    case TopicOwner(x) => TagsOf(t.topicTags, x)
    case IdeaOwner(x) => TagsOf(t.ideaTags, x)
  }

  /** The tag ids a join table links to one owner id. */
  function TagsOf(links: set<Link>, x: Id): set<Id> {
    set l | l in links && l.0 == x :: l.1
  }

  /** The ids of the ideas filed under a topic. */
  function IdeasOf(ideas: map<Id, Idea>, topicId: Id): set<Id> {
    set i | i in ideas && ideas[i].topicId == topicId
  }

  // ---------------------------------------------------------------- statements

  /** INSERT INTO topics (isArchived is 0 in every insert the handlers run). */
  function InsertTopic(t: Tables, id: Id, row: Topic): Tables {
    t.(topics := t.topics[id := row])
  }

  /** INSERT INTO ideas. */
  function InsertIdea(t: Tables, id: Id, row: Idea): Tables {
    t.(ideas := t.ideas[id := row])
  }

  /** INSERT OR IGNORE INTO tags (id, name). */
  function InsertOrIgnoreTag(t: Tables, id: Id, name: string): Tables {
    t.(tags := PutTag(t.tags, id, name))
  }

  /** The tags table after INSERT OR IGNORE: the row goes in only when neither
      its id nor its name under NOCASE is taken. */
  function PutTag(tags: map<Id, string>, id: Id, name: string): map<Id, string> {
    if id !in tags && TagNameFree(tags, name) then tags[id := name] else tags
  }

  /** UPDATE topics SET isArchived = ?, updatedAt = ? WHERE id = ? */
  function SetTopicArchived(t: Tables, id: Id, archived: bool, now: Timestamp): Tables {
    if id in t.topics then t.(topics := t.topics[id := t.topics[id].(archived := archived, updatedAt := now)])
    else t
  }

  /** UPDATE ideas SET isArchived = ?, updatedAt = ? WHERE topicId = ? */
  function SetIdeasArchived(t: Tables, topicId: Id, archived: bool, now: Timestamp): Tables {
    t.(ideas := (map i | i in t.ideas ::
         if t.ideas[i].topicId == topicId then t.ideas[i].(archived := archived, updatedAt := now)
         else t.ideas[i]))
  }

  /** UPDATE ideas SET isArchived = ?, updatedAt = ? WHERE id = ? */
  function SetIdeaArchived(t: Tables, id: Id, archived: bool, now: Timestamp): Tables {
    if id in t.ideas then t.(ideas := t.ideas[id := t.ideas[id].(archived := archived, updatedAt := now)])
    else t
  }

  /** UPDATE topics SET name = ?, description = ?, updatedAt = ? WHERE id = ? */
  function UpdateTopicRow(t: Tables, id: Id, name: string, description: Option<string>, now: Timestamp): Tables {
    if id in t.topics then t.(topics := t.topics[id := t.topics[id].(name := name, description := description, updatedAt := now)])
    else t
  }

  /** UPDATE ideas SET name = ?, description = ?, topicId = ?, updatedAt = ? WHERE id = ? */
  function UpdateIdeaRow(t: Tables, id: Id, name: string, description: Option<string>, topicId: Id, now: Timestamp): Tables {
    if id in t.ideas then t.(ideas := t.ideas[id := t.ideas[id].(name := name, description := description, topicId := topicId, updatedAt := now)])
    else t
  }

  /** INSERT OR IGNORE keeps names unique under NOCASE whatever it is given,
      loses and renames no row, adds at most its own id, and adds it exactly
      when both the id and the name are free. */
  lemma PutTagSpec(tags: map<Id, string>, id: Id, name: string)
    ensures var r := PutTag(tags, id, name);
      && (UniqueTagNames(tags) ==> UniqueTagNames(r))
      && (forall k :: k in tags ==> k in r && r[k] == tags[k])
      && r.Keys <= tags.Keys + {id}
      && (id in r && id !in tags <==> id !in tags && TagNameFree(tags, name))
      && (id in r && id !in tags ==> r[id] == name)
  {
  }

  /** Inserting a topic keeps the constraints when the statement does not
      raise: the id is new and no topic holds the name. */
  lemma InsertTopicPreservesConsistent(t: Tables, id: Id, row: Topic)
    requires Consistent(t) && id !in t.topics && TopicNameFree(t.topics, row.name, None)
    ensures Consistent(InsertTopic(t, id, row))
  {
  }

  /** Inserting an idea keeps the constraints when its topic exists. */
  lemma InsertIdeaPreservesConsistent(t: Tables, id: Id, row: Idea)
    requires Consistent(t) && id !in t.ideas && row.topicId in t.topics
    ensures Consistent(InsertIdea(t, id, row))
  {
  }

  /** Archiving or restoring a topic touches no key and no name, so the
      constraints hold. */
  lemma SetTopicArchivedPreservesConsistent(t: Tables, id: Id, archived: bool, now: Timestamp)
    requires Consistent(t)
    ensures Consistent(SetTopicArchived(t, id, archived, now))
  {
    var r := SetTopicArchived(t, id, archived, now);
    assert r.topics.Keys == t.topics.Keys;
    assert forall k :: k in r.topics ==> r.topics[k].name == t.topics[k].name;
  }

  /** Archiving or restoring every idea of a topic keeps the constraints. */
  lemma SetIdeasArchivedPreservesConsistent(t: Tables, topicId: Id, archived: bool, now: Timestamp)
    requires Consistent(t)
    ensures Consistent(SetIdeasArchived(t, topicId, archived, now))
  {
    var r := SetIdeasArchived(t, topicId, archived, now);
    assert r.ideas.Keys == t.ideas.Keys;
    assert forall i :: i in r.ideas ==> r.ideas[i].topicId == t.ideas[i].topicId;
  }

  /** Archiving or restoring one idea keeps the constraints. */
  lemma SetIdeaArchivedPreservesConsistent(t: Tables, id: Id, archived: bool, now: Timestamp)
    requires Consistent(t)
    ensures Consistent(SetIdeaArchived(t, id, archived, now))
  {
    var r := SetIdeaArchived(t, id, archived, now);
    assert r.ideas.Keys == t.ideas.Keys;
  }

  /** Renaming a topic keeps the constraints when no other topic holds the name. */
  lemma UpdateTopicRowPreservesConsistent(t: Tables, id: Id, name: string, description: Option<string>, now: Timestamp)
    requires Consistent(t) && TopicNameFree(t.topics, name, Some(id))
    ensures Consistent(UpdateTopicRow(t, id, name, description, now))
  {
  }

  /** Editing an idea keeps the constraints when its (new) topic exists. */
  lemma UpdateIdeaRowPreservesConsistent(t: Tables, id: Id, name: string, description: Option<string>, topicId: Id, now: Timestamp)
    requires Consistent(t) && topicId in t.topics
    ensures Consistent(UpdateIdeaRow(t, id, name, description, topicId, now))
  {
  }

  /** The join-table rows that link one owner id to a set of tag ids. */
  function Pairs(x: Id, tagIds: set<Id>): set<Link> {
    set k | k in tagIds :: (x, k)
  }

  lemma TagsOfAdded(links: set<Link>, x: Id, tagIds: set<Id>)
    ensures forall y :: TagsOf(links + Pairs(x, tagIds), y) == TagsOf(links, y) + (if x == y then tagIds else {})
  {
    forall y ensures TagsOf(links + Pairs(x, tagIds), y) == TagsOf(links, y) + (if x == y then tagIds else {}) {
      forall k | k in tagIds && x == y ensures k in TagsOf(links + Pairs(x, tagIds), y) {
        assert (x, k) in Pairs(x, tagIds);
      }
    }
  }

  lemma TagsOfRemoved(links: set<Link>, x: Id, tagIds: set<Id>)
    ensures forall y :: TagsOf(links - Pairs(x, tagIds), y) == TagsOf(links, y) - (if x == y then tagIds else {})
  {
    forall y ensures TagsOf(links - Pairs(x, tagIds), y) == TagsOf(links, y) - (if x == y then tagIds else {}) {
      forall k | k in TagsOf(links, y) && !(x == y && k in tagIds) ensures k in TagsOf(links - Pairs(x, tagIds), y) {
        assert (y, k) in links;
      }
    }
  }

  /** INSERT OR IGNORE INTO topic_tags / idea_tags, once per tag id: a pair
      already present stays as it is. */
  function Linked(t: Tables, o: Owner, tagIds: set<Id>): Tables {
    match o
    case TopicOwner(x) => t.(topicTags := t.topicTags + Pairs(x, tagIds))
    case IdeaOwner(x) => t.(ideaTags := t.ideaTags + Pairs(x, tagIds))
  }

  /** DELETE FROM topic_tags / idea_tags WHERE owner = ? AND tagId = ?, once per tag id. */
  function Unlinked(t: Tables, o: Owner, tagIds: set<Id>): Tables {
    match o
    case TopicOwner(x) => t.(topicTags := t.topicTags - Pairs(x, tagIds))
    case IdeaOwner(x) => t.(ideaTags := t.ideaTags - Pairs(x, tagIds))
  }

  /** Linking adds exactly the given tags to the owner's links and touches
      neither another owner's links nor any other table. */
  lemma LinkedLinks(t: Tables, o: Owner, tagIds: set<Id>)
    ensures var r := Linked(t, o, tagIds);
      && LinksOf(r, o) == LinksOf(t, o) + tagIds
      && (forall p :: p != o ==> LinksOf(r, p) == LinksOf(t, p))
      && r.topics == t.topics && r.ideas == t.ideas && r.tags == t.tags && r.feedback == t.feedback
  {
    match o
    case TopicOwner(x) => TagsOfAdded(t.topicTags, x, tagIds);
    case IdeaOwner(x) => TagsOfAdded(t.ideaTags, x, tagIds);
  }

  /** Unlinking removes exactly the given tags from the owner's links and
      touches neither another owner's links nor any other table. */
  lemma UnlinkedLinks(t: Tables, o: Owner, tagIds: set<Id>)
    ensures var r := Unlinked(t, o, tagIds);
      && LinksOf(r, o) == LinksOf(t, o) - tagIds
      && (forall p :: p != o ==> LinksOf(r, p) == LinksOf(t, p))
      && r.topics == t.topics && r.ideas == t.ideas && r.tags == t.tags && r.feedback == t.feedback
  {
    match o
    case TopicOwner(x) => TagsOfRemoved(t.topicTags, x, tagIds);
    case IdeaOwner(x) => TagsOfRemoved(t.ideaTags, x, tagIds);
  }

  /** Linking keeps the schema's constraints when the owner and the tags exist. */
  lemma LinkedPreservesConsistent(t: Tables, o: Owner, tagIds: set<Id>)
    requires Consistent(t) && OwnerExists(t, o) && tagIds <= t.tags.Keys
    ensures Consistent(Linked(t, o, tagIds))
  {
  }

  /** Unlinking keeps the schema's constraints: it only removes rows nothing
      references. */
  lemma UnlinkedPreservesConsistent(t: Tables, o: Owner, tagIds: set<Id>)
    requires Consistent(t)
    ensures Consistent(Unlinked(t, o, tagIds))
  {
  }

  /** Inserting a pair twice is inserting it once. */
  lemma LinkedIdempotent(t: Tables, o: Owner, tagIds: set<Id>)
    ensures Linked(Linked(t, o, tagIds), o, tagIds) == Linked(t, o, tagIds)
  {
  }

  /** Deleting a set of ideas: their idea_tags and feedback rows go with them. */
  function DeleteIdeas(t: Tables, gone: set<Id>): Tables {
    t.(ideas := t.ideas - gone,
       ideaTags := (set l | l in t.ideaTags && l.0 !in gone),
       feedback := (map f | f in t.feedback && t.feedback[f].ideaId !in gone :: t.feedback[f]))
  }

  /** DELETE FROM ideas WHERE id = ? */
  function DeleteIdea(t: Tables, id: Id): Tables {
    DeleteIdeas(t, {id})
  }

  /** DELETE FROM topics WHERE id = ? */
  function DeleteTopic(t: Tables, id: Id): Tables {
    DeleteIdeas(t, IdeasOf(t.ideas, id)).(topics := t.topics - {id}, topicTags := (set l | l in t.topicTags && l.0 != id))
  }

  /** Deleting ideas cascades to exactly their idea_tags and feedback rows and
      keeps the constraints. */
  lemma DeleteIdeasCascade(t: Tables, gone: set<Id>)
    ensures var r := DeleteIdeas(t, gone);
      && (forall i :: i in r.ideas <==> i in t.ideas && i !in gone)
      && (forall i :: i in r.ideas ==> r.ideas[i] == t.ideas[i])
      && (forall l :: l in r.ideaTags <==> l in t.ideaTags && l.0 !in gone)
      && (forall f :: f in r.feedback <==> f in t.feedback && t.feedback[f].ideaId !in gone)
      && (forall f :: f in r.feedback ==> r.feedback[f] == t.feedback[f])
      && r.topics == t.topics && r.tags == t.tags && r.topicTags == t.topicTags
      && (Consistent(t) ==> Consistent(r))
  {
  }

  /** Deleting an idea removes that idea, its idea_tags rows and its feedback
      rows, and nothing else; the constraints still hold. */
  lemma DeleteIdeaCascade(t: Tables, id: Id)
    ensures var r := DeleteIdea(t, id);
      && r.ideas == t.ideas - {id}
      && r.topics == t.topics && r.tags == t.tags && r.topicTags == t.topicTags
      && (forall l :: l in r.ideaTags <==> l in t.ideaTags && l.0 != id)
      && (forall f :: f in r.feedback <==> f in t.feedback && t.feedback[f].ideaId != id)
      && (Consistent(t) ==> Consistent(r))
  {
    DeleteIdeasCascade(t, {id});
  }

  /** Deleting a topic removes the topic, its ideas (ideas.topicId is ON DELETE
      CASCADE), their idea_tags and feedback rows and the topic's own
      topic_tags rows, and nothing else: tags and every other row survive. */
  lemma DeleteTopicCascade(t: Tables, id: Id)
    ensures var r := DeleteTopic(t, id);
      && r.topics == t.topics - {id} && r.tags == t.tags
      && (forall i :: i in r.ideas <==> i in t.ideas && t.ideas[i].topicId != id)
      && (forall i :: i in r.ideas ==> r.ideas[i] == t.ideas[i])
      && (forall l :: l in r.topicTags <==> l in t.topicTags && l.0 != id)
      && (forall l :: l in r.ideaTags <==> l in t.ideaTags && l.0 !in IdeasOf(t.ideas, id))
      && (forall f :: f in r.feedback <==> f in t.feedback && t.feedback[f].ideaId !in IdeasOf(t.ideas, id))
      && (Consistent(t) ==> Consistent(r))
  {
    DeleteIdeasCascade(t, IdeasOf(t.ideas, id));
  }

  /** A tag id some topic_tags or idea_tags row points at. */
  ghost predicate Referenced(t: Tables, tagId: Id) {
    (exists o :: (o, tagId) in t.topicTags) || (exists o :: (o, tagId) in t.ideaTags)
  }

  /** DELETE FROM tags WHERE id NOT IN (SELECT tagId FROM topic_tags)
                        AND id NOT IN (SELECT tagId FROM idea_tags) */
  function DeleteOrphanTags(t: Tables): (r: Tables)
  {
    var used := (set l | l in t.topicTags :: l.1) + (set l | l in t.ideaTags :: l.1);
    t.(tags := (map k | k in t.tags && k in used :: t.tags[k]))
  }

  /** After the sweep the tags table holds exactly the tags some link still
      points at, with their names unchanged, and nothing else has moved. */
  lemma DeleteOrphanTagsKeepsReferenced(t: Tables)
    ensures var r := DeleteOrphanTags(t);
      && (forall k :: k in r.tags <==> k in t.tags && Referenced(t, k))
      && (forall k :: k in r.tags ==> r.tags[k] == t.tags[k])
      && r.topics == t.topics && r.ideas == t.ideas && r.feedback == t.feedback
      && r.topicTags == t.topicTags && r.ideaTags == t.ideaTags
  {
    var r := DeleteOrphanTags(t);
    forall k | k in t.tags && Referenced(t, k) ensures k in r.tags {
      if exists o :: (o, k) in t.topicTags {
        var o :| (o, k) in t.topicTags;
        assert (o, k).1 in (set l | l in t.topicTags :: l.1);
      } else {
        var o :| (o, k) in t.ideaTags;
        assert (o, k).1 in (set l | l in t.ideaTags :: l.1);
      }
    }
  }

  /** The sweep keeps the schema's constraints: no link is left dangling. */
  lemma DeleteOrphanTagsPreservesConsistent(t: Tables)
    requires Consistent(t)
    ensures Consistent(DeleteOrphanTags(t))
  {
    var r := DeleteOrphanTags(t);
    DeleteOrphanTagsKeepsReferenced(t);
    forall l | l in t.topicTags ensures l.1 in r.tags {
      assert (l.0, l.1) in t.topicTags;
    }
    forall l | l in t.ideaTags ensures l.1 in r.tags {
      assert (l.0, l.1) in t.ideaTags;
    }
  }
}
